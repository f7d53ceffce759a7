/** Base 64, as section 4 of RFC 4648 defines it. */
module Base64 {
  import opened Base

  type Sextet = d: int | 0 <= d < 64

  /** The alphabet of table 1, in ASCII. */
  function Symbol(d: Sextet): Byte {
    if d < 26 then 0x41 + d
    else if d < 52 then 0x61 + d - 26
    else if d < 62 then 0x30 + d - 52
    else if d == 62 then 0x2B
    else 0x2F
  }

  function Digit(c: Byte): Option<Sextet> {
    if 0x41 <= c <= 0x5A then Some(c - 0x41)
    else if 0x61 <= c <= 0x7A then Some(c - 0x61 + 26)
    else if 0x30 <= c <= 0x39 then Some(c - 0x30 + 52)
    else if c == 0x2B then Some(62)
    else if c == 0x2F then Some(63)
    else None
  }

  const PAD: Byte := 0x3D

  function Encode(bs: seq<Byte>): seq<Byte>
    decreases |bs|
  {
    if bs == [] then []
    else if |bs| == 1 then [Symbol(bs[0] / 4), Symbol(bs[0] % 4 * 16), PAD, PAD]
    else if |bs| == 2 then [Symbol(bs[0] / 4), Symbol(bs[0] % 4 * 16 + bs[1] / 16), Symbol(bs[1] % 16 * 4), PAD]
    else
      [Symbol(bs[0] / 4), Symbol(bs[0] % 4 * 16 + bs[1] / 16), Symbol(bs[1] % 16 * 4 + bs[2] / 64), Symbol(bs[2] % 64)]
      + Encode(bs[3..])
  }

  /** The octets that two neighbouring sextets hold. */
  function Octet1(a: Sextet, b: Sextet): Byte { a as int * 4 + b as int / 16 }

  function Octet2(b: Sextet, c: Sextet): Byte { b as int % 16 * 16 + c as int / 4 }

  function Octet3(c: Sextet, d: Sextet): Byte { c as int % 4 * 64 + d as int }

  /** The octets of one group of four; only the last group may be padded. */
  function DecodeGroup(q: seq<Byte>, last: bool): Option<seq<Byte>>
    requires |q| == 4
  {
    match (Digit(q[0]), Digit(q[1]), Digit(q[2]), Digit(q[3]))
    case (Some(a), Some(b), Some(c), Some(d)) => Some([Octet1(a, b), Octet2(b, c), Octet3(c, d)])
    case (Some(a), Some(b), Some(c), None) =>
      if last && q[3] == PAD && c % 4 == 0 then Some([Octet1(a, b), Octet2(b, c)]) else None
    case (Some(a), Some(b), None, None) =>
      if last && q[2] == PAD && q[3] == PAD && b % 16 == 0 then Some([Octet1(a, b)]) else None
    case _ => None
  }

  function Decode(s: seq<Byte>): Option<seq<Byte>>
    decreases |s|
  {
    if s == [] then Some([])
    else if |s| < 4 then None
    else
      match (DecodeGroup(s[..4], |s| == 4), Decode(s[4..]))
      case (Some(head), Some(rest)) => Some(head + rest)
      case _ => None
  }

  lemma SymbolsAreDigits(d: Sextet)
    ensures Digit(Symbol(d)) == Some(d)
  {
  }

  lemma PadIsNoDigit()
    ensures Digit(PAD) == None
  {
  }

  /** The sextets of three octets hold them. */
  lemma Rejoin(x: Byte, y: Byte, z: Byte)
    ensures Octet1(x / 4, x % 4 * 16 + y / 16) == x
    ensures Octet2(x % 4 * 16 + y / 16, y % 16 * 4 + z / 64) == y
    ensures Octet3(y % 16 * 4 + z / 64, z % 64) == z
  {
  }

  lemma OneOctet(x: Byte)
    ensures DecodeGroup([Symbol(x / 4), Symbol(x % 4 * 16), PAD, PAD], true) == Some([x])
  {
    hide Symbol, Digit, Octet1;
    PadIsNoDigit();
    Rejoin(x, 0, 0);
    SymbolsAreDigits(x / 4);
    SymbolsAreDigits(x % 4 * 16);
  }

  lemma TwoRejoin(x: Byte, y: Byte)
    ensures Octet1(x / 4, x % 4 * 16 + y / 16) == x
    ensures Octet2(x % 4 * 16 + y / 16, y % 16 * 4) == y && y % 16 * 4 % 4 == 0
  {
  }

  lemma TwoOctets(x: Byte, y: Byte)
    ensures DecodeGroup([Symbol(x / 4), Symbol(x % 4 * 16 + y / 16), Symbol(y % 16 * 4), PAD], true) == Some([x, y])
  {
    hide Symbol, Digit, Octet1, Octet2, DecodeGroup;
    var a, b, c := x / 4, x % 4 * 16 + y / 16, y % 16 * 4;
    TwoRejoin(x, y);
    TwoSymbols(a, b, c);
  }

  lemma TwoSymbols(a: Sextet, b: Sextet, c: Sextet)
    requires c % 4 == 0
    ensures DecodeGroup([Symbol(a), Symbol(b), Symbol(c), PAD], true) == Some([Octet1(a, b), Octet2(b, c)])
  {
    hide Octet1, Octet2;
    SymbolsAreDigits(a);
    SymbolsAreDigits(b);
    SymbolsAreDigits(c);
  }

  lemma ThreeOctets(x: Byte, y: Byte, z: Byte, last: bool)
    ensures DecodeGroup([Symbol(x / 4), Symbol(x % 4 * 16 + y / 16), Symbol(y % 16 * 4 + z / 64), Symbol(z % 64)], last)
            == Some([x, y, z])
  {
    hide Symbol, Digit, Octet1, Octet2, Octet3;
    Rejoin(x, y, z);
    SymbolsAreDigits(x / 4);
    SymbolsAreDigits(x % 4 * 16 + y / 16);
    SymbolsAreDigits(y % 16 * 4 + z / 64);
    SymbolsAreDigits(z % 64);
  }

  lemma GroupRoundTrip(bs: seq<Byte>, last: bool)
    requires 1 <= |bs| <= 3 && (last || |bs| == 3)
    ensures |Encode(bs)| == 4 && DecodeGroup(Encode(bs), last) == Some(bs)
  {
    hide DecodeGroup, Symbol;
    if |bs| == 1 {
      assert bs == [bs[0]];
      OneOctet(bs[0]);
    } else if |bs| == 2 {
      assert bs == [bs[0], bs[1]];
      TwoOctets(bs[0], bs[1]);
    } else {
      var x, y, z := bs[0], bs[1], bs[2];
      assert bs == [x, y, z] && bs[3..] == [];
      ThreeOctets(x, y, z, last);
      assert Encode(bs)
          == [Symbol(x / 4), Symbol(x % 4 * 16 + y / 16), Symbol(y % 16 * 4 + z / 64), Symbol(z % 64)];
    }
  }

  /** Decoding undoes encoding. */
  lemma {:induction false} RoundTrip(bs: seq<Byte>)
    ensures Decode(Encode(bs)) == Some(bs)
    decreases |bs|
  {
    hide DecodeGroup, Encode;
    EmptyEncoding();
    if 0 < |bs| <= 3 {
      GroupRoundTrip(bs, true);
      assert Encode(bs)[..4] == Encode(bs) && Encode(bs)[4..] == [];
      assert Decode([]) == Some([]) && bs + [] == bs;
    } else if bs != [] {
      GroupRoundTrip(bs[..3], false);
      RoundTrip(bs[3..]);
      EncodeSplits(bs);
      assert bs == bs[..3] + bs[3..];
    }
  }

  lemma EmptyEncoding()
    ensures Encode([]) == []
  {
  }

  lemma EncodeSplits(bs: seq<Byte>)
    requires |bs| > 3
    ensures Encode(bs) == Encode(bs[..3]) + Encode(bs[3..]) && |Encode(bs[..3])| == 4 && Encode(bs[3..]) != []
    ensures Encode(bs)[..4] == Encode(bs[..3]) && Encode(bs)[4..] == Encode(bs[3..])
  {
    assert bs[..3][3..] == [];
  }

  /** An encoding is one line of alphabet symbols and padding. */
  lemma {:induction false} OneLine(bs: seq<Byte>)
    ensures forall k :: 0 <= k < |Encode(bs)| ==> Encode(bs)[k] == PAD || Digit(Encode(bs)[k]).Some?
    decreases |bs|
  {
    if |bs| > 3 {
      EncodeSplits(bs);
      OneLine(bs[..3]);
      OneLine(bs[3..]);
    } else if bs != [] {
      GroupRoundTrip(bs, true);
    }
  }

  // ---------------------------------------------------------------------
  // The encoding of the standard
  // ---------------------------------------------------------------------

  const UPPER_CASE := "ABCDEFGHIJKLMNOPQRSTUVWXYZ"
  const LOWER_CASE := "abcdefghijklmnopqrstuvwxyz"
  const DIGITS := "0123456789"

  /** Table 1 of RFC 4648. */
  lemma AlphabetIs(d: Sextet)
    ensures d < 26 ==> Symbol(d) == UPPER_CASE[d] as int
    ensures 26 <= d < 52 ==> Symbol(d) == LOWER_CASE[d - 26] as int
    ensures 52 <= d < 62 ==> Symbol(d) == DIGITS[d - 52] as int
    ensures (d == 62 ==> Symbol(d) == '+' as int) && (d == 63 ==> Symbol(d) == '/' as int)
  {
  }

  /** The three paddings, as the test vectors in section 10 of RFC 4648 show them. */
  lemma TestVectors()
    ensures Encode([0x66]) == [0x5A, 0x67, 0x3D, 0x3D]
    ensures Encode([0x66, 0x6F]) == [0x5A, 0x6D, 0x38, 0x3D]
    ensures Encode([0x66, 0x6F, 0x6F]) == [0x5A, 0x6D, 0x39, 0x76]
    ensures Encode([0x66, 0x6F, 0x6F, 0x62, 0x61, 0x72]) == [0x5A, 0x6D, 0x39, 0x76, 0x59, 0x6D, 0x46, 0x79]
  {
    assert [0x66, 0x6F, 0x6F][3..] == [];
    assert [0x66, 0x6F, 0x6F, 0x62, 0x61, 0x72][3..] == [0x62, 0x61, 0x72] && [0x62, 0x61, 0x72][3..] == [];
    assert Encode([0x62, 0x61, 0x72]) == [0x59, 0x6D, 0x46, 0x79];
  }
}

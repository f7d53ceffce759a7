/** UTF-8 as section 4 of RFC 3629 defines it, and the decoder of partial output. */
module Utf8 {
  import opened Base

  /** Unicode scalar values. */
  type Scalar = c: int | 0 <= c < 0xD800 || 0xE000 <= c < 0x11_0000

  predicate IsTail(b: Byte) { 0x80 <= b <= 0xBF }

  /** UTF8-char of the grammar in section 4. */
  predicate IsChar(c: seq<Byte>) {
    match |c|
    case 1 => c[0] <= 0x7F
    case 2 => 0xC2 <= c[0] <= 0xDF && IsTail(c[1])
    case 3 =>
      && IsTail(c[2])
      && (|| (c[0] == 0xE0 && 0xA0 <= c[1] <= 0xBF)
          || (0xE1 <= c[0] <= 0xEC && IsTail(c[1]))
          || (c[0] == 0xED && 0x80 <= c[1] <= 0x9F)
          || (0xEE <= c[0] <= 0xEF && IsTail(c[1])))
    case 4 =>
      && IsTail(c[2]) && IsTail(c[3])
      && (|| (c[0] == 0xF0 && 0x90 <= c[1] <= 0xBF)
          || (0xF1 <= c[0] <= 0xF3 && IsTail(c[1]))
          || (c[0] == 0xF4 && 0x80 <= c[1] <= 0x8F))
    case _ => false
  }

  /** The bits of an octet above its marker `base`. */
  function Bits(b: Byte, base: int): int { b as int - base }

  function Value(c: seq<Byte>): Scalar
    requires IsChar(c)
  {
    match |c|
    case 1 => c[0]
    case 2 => Bits(c[0], 0xC0) * 64 + Bits(c[1], 0x80)
    case 3 => (Bits(c[0], 0xE0) * 64 + Bits(c[1], 0x80)) * 64 + Bits(c[2], 0x80)
    case 4 => ((Bits(c[0], 0xF0) * 64 + Bits(c[1], 0x80)) * 64 + Bits(c[2], 0x80)) * 64 + Bits(c[3], 0x80)
  }

  /** The octets of one character, by the table of section 3. */
  function Encode(v: Scalar): (c: seq<Byte>) {
    if v < 0x80 then [v]
    else if v < 0x800 then [0xC0 + v / 64, 0x80 + v % 64]
    else if v < 0x1_0000 then [0xE0 + v / 64 / 64, 0x80 + v / 64 % 64, 0x80 + v % 64]
    else [0xF0 + v / 64 / 64 / 64, 0x80 + v / 64 / 64 % 64, 0x80 + v / 64 % 64, 0x80 + v % 64]
  }

  function EncodeAll(text: seq<Scalar>): seq<Byte> {
    if text == [] then [] else Encode(text[0]) + EncodeAll(text[1..])
  }

  lemma EncodedIsChar(v: Scalar)
    ensures IsChar(Encode(v)) && Value(Encode(v)) == v
  {
    assert v == v / 64 * 64 + v % 64;
    assert v / 64 == v / 64 / 64 * 64 + v / 64 % 64;
    assert v / 64 / 64 == v / 64 / 64 / 64 * 64 + v / 64 / 64 % 64;
  }

  /** Characters of one to four octets, as the examples in section 7 of RFC 3629 show them:
    * A, U+2262, U+0391 and a full stop; and U+233B4. */
  lemma Examples()
    ensures EncodeAll([0x41, 0x2262, 0x391, 0x2E]) == [0x41, 0xE2, 0x89, 0xA2, 0xCE, 0x91, 0x2E]
    ensures EncodeAll([0x233B4]) == [0xF0, 0xA3, 0x8E, 0xB4]
  {
    var text := [0x41, 0x2262, 0x391, 0x2E];
    assert text[1..] == [0x2262, 0x391, 0x2E] && text[1..][1..] == [0x391, 0x2E] && text[1..][1..][1..] == [0x2E];
    assert EncodeAll([0x2E]) == [0x2E] && EncodeAll([0x391, 0x2E]) == [0xCE, 0x91, 0x2E];
    assert EncodeAll([0x2262, 0x391, 0x2E]) == [0xE2, 0x89, 0xA2, 0xCE, 0x91, 0x2E];
  }

  lemma Digits(high: int, low: int)
    requires 0 <= low < 64
    ensures (high * 64 + low) / 64 == high && (high * 64 + low) % 64 == low
  {
  }

  lemma CharIsEncoded(c: seq<Byte>)
    requires IsChar(c)
    ensures Encode(Value(c)) == c
  {
    hide Encode, Value;
    match |c|
    case 1 => ShortCharIsEncoded(c);
    case 2 => ShortCharIsEncoded(c);
    case 3 => ThreeOctetChar(c);
    case 4 => FourOctetChar(c);
  }

  lemma ShortCharIsEncoded(c: seq<Byte>)
    requires IsChar(c) && |c| <= 2
    ensures Encode(Value(c)) == c
  {
    if |c| == 1 {
      assert c == [c[0]];
    } else {
      assert c == [c[0], c[1]];
      Digits(Bits(c[0], 0xC0), Bits(c[1], 0x80));
    }
  }

  lemma ThreeOctetChar(c: seq<Byte>)
    requires IsChar(c) && |c| == 3
    ensures Encode(Value(c)) == c
  {
    assert c == [c[0], c[1], c[2]];
    Digits(Bits(c[0], 0xE0) * 64 + Bits(c[1], 0x80), Bits(c[2], 0x80));
    Digits(Bits(c[0], 0xE0), Bits(c[1], 0x80));
  }

  lemma FourOctetChar(c: seq<Byte>)
    requires IsChar(c) && |c| == 4
    ensures Encode(Value(c)) == c
  {
    assert c == [c[0], c[1], c[2], c[3]];
    var top := Bits(c[0], 0xF0) * 64 + Bits(c[1], 0x80);
    Digits(top * 64 + Bits(c[2], 0x80), Bits(c[3], 0x80));
    Digits(top, Bits(c[2], 0x80));
    Digits(Bits(c[0], 0xF0), Bits(c[1], 0x80));
  }

  /** How many octets a first octet announces; 0 if no character starts with it. */
  function Announced(b: Byte): nat {
    if b < 0x80 then 1
    else if 0xC2 <= b <= 0xDF then 2
    else if 0xE0 <= b <= 0xEF then 3
    else if 0xF0 <= b <= 0xF4 then 4
    else 0
  }

  /** The length of the character a string starts with, 0 if there is none. */
  function FirstLength(s: seq<Byte>): (n: nat)
    ensures n <= |s| && n <= 4 && (n > 0 ==> IsChar(s[..n]))
  {
    if s == [] then 0
    else
      var n := Announced(s[0]);
      if 0 < n <= |s| && IsChar(s[..n]) then n else 0
  }

  /** `bytes.decode("utf-8")`; None for the UnicodeDecodeError. */
  function Decode(s: seq<Byte>): Option<seq<Scalar>>
    decreases |s|
  {
    if s == [] then Some([])
    else
      var n := FirstLength(s);
      if n == 0 then None
      else match Decode(s[n..])
        case None => None
        case Some(rest) => Some([Value(s[..n])] + rest)
  }

  predicate WellFormed(s: seq<Byte>) { Decode(s).Some? }

  function HexDigit(d: int): Scalar
    requires 0 <= d < 16
  {
    if d < 10 then 0x30 + d else 0x61 + d - 10
  }

  function Escape(b: Byte): seq<Scalar> { [0x5C, 0x78, HexDigit(b / 16), HexDigit(b % 16)] }

  function HexValue(c: Scalar): int {
    if 0x30 <= c <= 0x39 then c - 0x30 else if 0x61 <= c <= 0x66 then c - 0x61 + 10 else -1
  }

  /** An escape is `\x` and the two hexadecimal digits of the octet, in lower case. */
  lemma EscapeIsHex(b: Byte)
    ensures var e := Escape(b);
            && |e| == 4 && e[0] == 0x5C && e[1] == 0x78
            && 0 <= HexValue(e[2]) < 16 && 0 <= HexValue(e[3]) < 16
            && HexValue(e[2]) * 16 + HexValue(e[3]) == b
  {
  }

  /** `bytes.decode("utf-8", errors="backslashreplace")`. */
  function DecodeLossy(s: seq<Byte>): seq<Scalar>
    decreases |s|
  {
    if s == [] then []
    else
      var n := FirstLength(s);
      if n == 0 then Escape(s[0]) + DecodeLossy(s[1..]) else [Value(s[..n])] + DecodeLossy(s[n..])
  }

  lemma FirstLengthOf(c: seq<Byte>, rest: seq<Byte>)
    requires IsChar(c)
    ensures FirstLength(c + rest) == |c| && (c + rest)[..|c|] == c && (c + rest)[|c|..] == rest
  {
    assert (c + rest)[..|c|] == c;
    assert (c + rest)[0] == c[0];
  }

  /** Decoding accepts exactly the encodings, and inverts encoding. */
  lemma {:induction false} DecodeEncoded(text: seq<Scalar>)
    ensures Decode(EncodeAll(text)) == Some(text)
  {
    if text != [] {
      EncodedIsChar(text[0]);
      var c, rest := Encode(text[0]), EncodeAll(text[1..]);
      FirstLengthOf(c, rest);
      DecodeEncoded(text[1..]);
      assert EncodeAll(text) == c + rest;
      assert text == [text[0]] + text[1..];
      hide Encode, IsChar, Value, EncodeAll;
      assert Decode(c + rest) == Some([Value(c)] + text[1..]);
    }
  }

  lemma {:induction false} EncodeDecoded(s: seq<Byte>)
    requires WellFormed(s)
    ensures EncodeAll(Decode(s).value) == s
    decreases |s|
  {
    hide Encode, IsChar, Value, FirstLength;
    if s != [] {
      var n := FirstLength(s);
      var rest := Decode(s[n..]).value;
      EncodeDecoded(s[n..]);
      CharIsEncoded(s[..n]);
      assert ([Value(s[..n])] + rest)[1..] == rest;
      assert s == s[..n] + s[n..];
    }
  }

  lemma {:induction false} LossyIsDecode(s: seq<Byte>)
    requires WellFormed(s)
    ensures DecodeLossy(s) == Decode(s).value
    decreases |s|
  {
    if s != [] {
      LossyIsDecode(s[FirstLength(s)..]);
    }
  }

  /** After a well-formed part, decoding goes on as if it started there. */
  lemma {:induction false} DecodeJoin(a: seq<Byte>, b: seq<Byte>)
    requires WellFormed(a)
    ensures WellFormed(a + b) <==> WellFormed(b)
    ensures WellFormed(b) ==> Decode(a + b).value == Decode(a).value + Decode(b).value
    decreases |a|
  {
    if a == [] {
      assert a + b == b;
    } else {
      var n := FirstLength(a);
      assert a + b == a[..n] + (a[n..] + b);
      FirstLengthOf(a[..n], a[n..] + b);
      DecodeJoin(a[n..], b);
    }
  }

  // ---------------------------------------------------------------------
  // The decoder of partial output
  // ---------------------------------------------------------------------

  datatype Piece = Piece(text: seq<Scalar>, consumed: nat)

  /** The first of the trims `trim..3` that leaves something decodable. */
  function TrimFrom(raw: seq<Byte>, trim: nat): Piece
    decreases 4 - trim
  {
    if trim > Min(3, |raw|) then Piece(DecodeLossy(raw), |raw|)
    else if WellFormed(raw[..|raw| - trim]) then Piece(Decode(raw[..|raw| - trim]).value, |raw| - trim)
    else TrimFrom(raw, trim + 1)
  }

  /** `_decode_incremental`. */
  method DecodeIncremental(raw: seq<Byte>) returns (text: seq<Scalar>, consumed: nat)
    ensures Piece(text, consumed) == TrimFrom(raw, 0)
  {
    if raw == [] {
      return [], 0;
    }
    for trim := 0 to Min(3, |raw|) + 1
      invariant TrimFrom(raw, trim) == TrimFrom(raw, 0)
    {
      var end := |raw| - trim;
      var attempt := Decode(raw[..end]);
      if attempt.Some? {
        return attempt.value, end;
      }
    }
    return DecodeLossy(raw), |raw|;
  }

  /** At most three octets are left for later, and all of a short input may be. */
  lemma TrimsAtMostThree(raw: seq<Byte>)
    ensures var p := TrimFrom(raw, 0); p.consumed <= |raw| <= p.consumed + 3
    ensures var p := TrimFrom(raw, 0); p.text == DecodeLossy(raw[..p.consumed])
  {
    TrimBounds(raw, 0);
  }

  lemma {:induction false} TrimBounds(raw: seq<Byte>, trim: nat)
    requires trim <= 4
    ensures var p := TrimFrom(raw, trim); p.consumed <= |raw| <= p.consumed + 3
    ensures var p := TrimFrom(raw, trim); p.text == DecodeLossy(raw[..p.consumed])
    decreases 4 - trim
  {
    if trim > Min(3, |raw|) {
      assert raw[..|raw|] == raw;
    } else if WellFormed(raw[..|raw| - trim]) {
      LossyIsDecode(raw[..|raw| - trim]);
    } else {
      TrimBounds(raw, trim + 1);
    }
  }

  /** The last character boundary at or before `p` in a well-formed string. */
  lemma {:induction false} BoundaryBelow(s: seq<Byte>, p: nat) returns (e: nat)
    requires WellFormed(s) && p <= |s|
    ensures e <= p <= e + 3 && WellFormed(s[..e])
    ensures forall q :: e < q <= p ==> !WellFormed(s[..q])
    decreases |s|
  {
    if p == 0 {
      return 0;
    }
    var n := FirstLength(s);
    var c, rest := s[..n], s[n..];
    if p < n {
      forall q | 0 < q <= p ensures !WellFormed(s[..q]) {
        assert s[..q][0] == s[0];
      }
      return 0;
    }
    CharWellFormed(c);
    var r := BoundaryBelow(rest, p - n);
    forall q | n <= q <= p ensures WellFormed(s[..q]) <==> WellFormed(rest[..q - n]) {
      assert s[..q] == c + rest[..q - n];
      DecodeJoin(c, rest[..q - n]);
    }
    e := n + r;
  }

  lemma CharWellFormed(c: seq<Byte>)
    requires IsChar(c)
    ensures WellFormed(c)
  {
    FirstLengthOf(c, []);
    assert c + [] == c;
    assert Decode(c) == Some([Value(c)] + Decode([]).value);
  }

  /** On a prefix of well-formed output the decoder stops at the last boundary and
    * returns the characters before it: no octet is ever escaped. */
  lemma DecodesWholeCharacters(s: seq<Byte>, p: nat)
    requires WellFormed(s) && p <= |s|
    ensures var piece := TrimFrom(s[..p], 0);
            && piece.consumed <= p && WellFormed(s[..piece.consumed])
            && piece.text == Decode(s[..piece.consumed]).value
            && (piece.consumed == p <==> WellFormed(s[..p]))
  {
    var e := BoundaryBelow(s, p);
    hide WellFormed, Decode, IsChar;
    forall q | e < q <= p ensures !WellFormed(s[..p][..q]) {
      assert s[..p][..q] == s[..q];
    }
    assert s[..p][..e] == s[..e];
    TrimReaches(s[..p], 0, e);
  }

  lemma {:induction false} TrimReaches(raw: seq<Byte>, trim: nat, e: nat)
    requires e <= |raw| - trim && |raw| <= e + 3 && WellFormed(raw[..e])
    requires forall q :: e < q <= |raw| - trim ==> !WellFormed(raw[..q])
    ensures TrimFrom(raw, trim) == Piece(Decode(raw[..e]).value, e)
    decreases |raw| - trim - e
  {
    if e < |raw| - trim {
      TrimReaches(raw, trim + 1, e);
    }
  }
}

/** Secrets for a sudo'd command: one Base 64 line per value on stdin, and the script
  * that reads the lines back into environment variables. */
module SecretFraming {
  import opened Base
  import Base64
  import Utf8

  const NEWLINE: Byte := 10

  /** A value as Python holds it: a string of Unicode scalar values. */
  type Secret = seq<Utf8.Scalar>

  /** `sudo_stdin_secret_values` */
  function Payload(values: seq<Secret>): seq<Byte> {
    if values == [] then [] else Base64.Encode(Utf8.EncodeAll(values[0])) + [NEWLINE] + Payload(values[1..])
  }

  // ---------------------------------------------------------------------
  // The shell that runs the script
  // ---------------------------------------------------------------------

  /** The statements the script consists of. */
  datatype Statement =
    | ReadLine(name: string)                  // IFS= read -r name
    | DecodeInto(name: string, from: string)  // name=$(base64 -d <<<"$from" || base64 -D <<<"$from")
    | Export(names: seq<string>)
    | Command

  /** A bash: the names whose value it keeps to itself, being readonly (UID) or computed
    * (RANDOM), and the values of PATH under which it finds `base64`. */
  datatype Bash = Bash(fixed: set<string>, finds: seq<Byte> -> bool)

  const PATH := "PATH"

  /** What the command, when it is reached, finds: its stdin and its environment. */
  datatype Shell = Shell(stdin: seq<Byte>, vars: map<string, seq<Byte>>, exported: set<string>)

  /** Octets before the first newline, or all. */
  function LineLength(s: seq<Byte>): (n: nat)
    ensures n <= |s|
  {
    if s == [] || s[0] == NEWLINE then 0 else 1 + LineLength(s[1..])
  }

  function WithoutNul(s: seq<Byte>): seq<Byte> {
    if s == [] then [] else (if s[0] == 0 then [] else [s[0]]) + WithoutNul(s[1..])
  }

  function WithoutTrailingNewlines(s: seq<Byte>): seq<Byte> {
    if s != [] && s[|s| - 1] == NEWLINE then WithoutTrailingNewlines(s[..|s| - 1]) else s
  }

  /** What `$(...)` makes of a command's output. */
  function Substituted(output: seq<Byte>): seq<Byte> { WithoutTrailingNewlines(WithoutNul(output)) }

  function Lookup(vars: map<string, seq<Byte>>, name: string): seq<Byte> { if name in vars then vars[name] else [] }

  /** An assignment to a name the shell keeps fails or is lost; the script goes on. */
  function Assigned(bash: Bash, vars: map<string, seq<Byte>>, name: string, value: seq<Byte>): map<string, seq<Byte>> {
    if name in bash.fixed then vars else vars[name := value]
  }

  function Decoded(line: seq<Byte>): seq<Byte> {
    match Base64.Decode(line) case Some(bs) => bs case None => []
  }

  function Execute(bash: Bash, sh: Shell, st: Statement): Shell {
    match st
    case ReadLine(name) =>
      var n := LineLength(sh.stdin);
      sh.(vars := Assigned(bash, sh.vars, name, WithoutNul(sh.stdin[..n])), stdin := sh.stdin[Min(n + 1, |sh.stdin|)..])
    case DecodeInto(name, from) =>
      // A `base64` that is not found prints nothing.
      var output := if bash.finds(Lookup(sh.vars, PATH)) then Decoded(Lookup(sh.vars, from)) else [];
      sh.(vars := Assigned(bash, sh.vars, name, Substituted(output)))
    case Export(names) => sh.(exported := sh.exported + set n | n in names)
    case Command => sh
  }

  function Run(bash: Bash, sh: Shell, script: seq<Statement>): Shell
    decreases |script|
  {
    if script == [] then sh else Run(bash, Execute(bash, sh, script[0]), script[1..])
  }

  // ---------------------------------------------------------------------
  // The script
  // ---------------------------------------------------------------------

  function Holder(name: string): string { "__b64_" + name }

  /** Every name has a holder of its own, which tells it. */
  lemma HolderTells(name: string, other: string)
    ensures Holder(name)[6..] == name && Holder(name)[..6] == "__b64_"
    ensures Holder(name) == Holder(other) ==> name == other
  {
    assert Holder(other)[6..] == other;
  }

  function Bindings(names: seq<string>): seq<Statement> {
    if names == [] then []
    else [ReadLine(Holder(names[0])), DecodeInto(names[0], Holder(names[0]))] + Bindings(names[1..])
  }

  function Script(names: seq<string>): seq<Statement> {
    if names == [] then [Command] else Bindings(names) + [Export(names), Command]
  }

  /** `sudo_stdin_secret_script` */
  method SudoStdinSecretScript(names: seq<string>) returns (script: seq<Statement>)
    ensures script == Script(names)
  {
    if names == [] {
      return [Command];
    }
    script := [];
    for k := 0 to |names|
      invariant script + Bindings(names[k..]) == Bindings(names)
    {
      assert names[k..][1..] == names[k + 1..];
      script := script + [ReadLine(Holder(names[k]))];
      script := script + [DecodeInto(names[k], Holder(names[k]))];
    }
    assert script + [] == script;
    script := script + [Export(names)];
    script := script + [Command];
  }

  // ---------------------------------------------------------------------
  // The names
  // ---------------------------------------------------------------------

  predicate IsWordChar(c: char) { 'A' <= c <= 'Z' || 'a' <= c <= 'z' || '0' <= c <= '9' || c == '_' }

  function Upper(c: char): char { if 'a' <= c <= 'z' then c - 'a' + 'A' else c }

  function Sanitized(name: string): string {
    if name == "" then "" else [Upper(if IsWordChar(name[0]) then name[0] else '_')] + Sanitized(name[1..])
  }

  /** `env_var_name` */
  function EnvVarName(name: string): string {
    var ev := Sanitized(name);
    if ev != "" && '0' <= ev[0] <= '9' then "_" + ev else ev
  }

  /** The name character by character: letters in upper case, digits and underscores as they
    * are, an underscore for anything else; and one more in front of a digit. */
  lemma EnvVarNameExactly(name: string)
    ensures var ev := EnvVarName(name);
            var extra := if name != "" && name[0] in "0123456789" then 1 else 0;
            && |ev| == |name| + extra && (extra == 1 ==> ev[0] == '_')
            && forall k :: 0 <= k < |name| ==>
                 ev[k + extra] ==
                 if 'a' <= name[k] <= 'z' then name[k] - 32 as char
                 else if 'A' <= name[k] <= 'Z' || name[k] in "0123456789_" then name[k]
                 else '_'
  {
    SanitizedExactly(name);
  }

  lemma {:induction false} SanitizedExactly(name: string)
    ensures var s := Sanitized(name);
            && |s| == |name|
            && forall k :: 0 <= k < |name| ==>
                 s[k] ==
                 if 'a' <= name[k] <= 'z' then name[k] - 32 as char
                 else if 'A' <= name[k] <= 'Z' || name[k] in "0123456789_" then name[k]
                 else '_'
  {
    if name != "" {
      SanitizedExactly(name[1..]);
    }
  }

  /** A shell identifier without lower case letters. */
  predicate IsEnvName(s: string) {
    && s != "" && !('0' <= s[0] <= '9')
    && forall k :: 0 <= k < |s| ==> 'A' <= s[k] <= 'Z' || '0' <= s[k] <= '9' || s[k] == '_'
  }

  lemma {:induction false} EnvVarNameIsName(name: string)
    ensures name != "" ==> IsEnvName(EnvVarName(name))
  {
    SanitizedChars(name);
  }

  lemma {:induction false} SanitizedChars(name: string)
    ensures var s := Sanitized(name);
            |s| == |name| && forall k :: 0 <= k < |s| ==> 'A' <= s[k] <= 'Z' || '0' <= s[k] <= '9' || s[k] == '_'
  {
    if name != "" {
      SanitizedChars(name[1..]);
    }
  }

  // ---------------------------------------------------------------------
  // Script and payload undo each other
  // ---------------------------------------------------------------------

  lemma {:induction false} LineEndsAt(line: seq<Byte>, rest: seq<Byte>)
    requires NEWLINE !in line
    ensures LineLength(line + [NEWLINE] + rest) == |line|
  {
    var all := line + [NEWLINE] + rest;
    if line != [] {
      assert all[1..] == line[1..] + [NEWLINE] + rest;
      LineEndsAt(line[1..], rest);
    }
  }

  lemma {:induction false} NoNulToDrop(s: seq<Byte>)
    ensures 0 !in s <==> WithoutNul(s) == s
    ensures |WithoutNul(s)| <= |s| && (0 in s ==> |WithoutNul(s)| < |s|)
  {
    if s != [] {
      NoNulToDrop(s[1..]);
      assert s == [s[0]] + s[1..];
    }
  }

  lemma EncodedLine(bs: seq<Byte>)
    ensures NEWLINE !in Base64.Encode(bs) && 0 !in Base64.Encode(bs)
  {
    Base64.OneLine(bs);
  }

  /** What is bound to a name while PATH is as it is in `vars`. */
  function Delivered(bash: Bash, vars: map<string, seq<Byte>>, value: Secret): seq<Byte> {
    if bash.finds(Lookup(vars, PATH)) then Substituted(Utf8.EncodeAll(value)) else []
  }

  /** The environment after the two statements for one name. */
  function BoundOne(bash: Bash, vars: map<string, seq<Byte>>, name: string, value: Secret): map<string, seq<Byte>> {
    Assigned(bash, vars[Holder(name) := Base64.Encode(Utf8.EncodeAll(value))], name, Delivered(bash, vars, value))
  }

  predicate IsHolder(name: string) { "__b64_" <= name }

  /** No name the shell keeps is one the script reads a line into. */
  predicate NoHolderFixed(bash: Bash) { forall n :: n in bash.fixed ==> !IsHolder(n) }

  /** The two statements for one name take one line and bind one value. */
  lemma OneBinding(bash: Bash, sh: Shell, name: string, value: Secret, rest: seq<Byte>)
    requires NoHolderFixed(bash) && sh.stdin == Base64.Encode(Utf8.EncodeAll(value)) + [NEWLINE] + rest
    ensures Execute(bash, Execute(bash, sh, ReadLine(Holder(name))), DecodeInto(name, Holder(name)))
            == sh.(stdin := rest, vars := BoundOne(bash, sh.vars, name, value))
  {
    hide Base64.Encode, Base64.Decode, Utf8.EncodeAll, Substituted, LineLength, WithoutNul;
    var bs := Utf8.EncodeAll(value);
    var line := Base64.Encode(bs);
    EncodedLine(bs);
    LineEndsAt(line, rest);
    NoNulToDrop(line);
    Base64.RoundTrip(bs);
    NothingSubstituted();
    PathIsNoHolder(name);
    assert sh.stdin[..|line|] == line && sh.stdin[|line| + 1..] == rest;
  }

  lemma NothingSubstituted()
    ensures Substituted([]) == []
  {
  }

  lemma PathIsNoHolder(name: string)
    ensures IsHolder(Holder(name)) && Holder(name) != PATH && !IsHolder(PATH)
  {
    assert Holder(name)[0] == '_';
  }

  lemma {:induction false} RunInTwo(bash: Bash, sh: Shell, a: seq<Statement>, b: seq<Statement>)
    ensures Run(bash, sh, a + b) == Run(bash, Run(bash, sh, a), b)
    decreases |a|
  {
    hide Execute;
    if a == [] {
      assert a + b == b;
    } else {
      assert (a + b)[1..] == a[1..] + b;
      RunInTwo(bash, Execute(bash, sh, a[0]), a[1..], b);
    }
  }

  /** The environment after the bindings, one name after the other. */
  function Bound(bash: Bash, vars: map<string, seq<Byte>>, names: seq<string>, values: seq<Secret>): map<string, seq<Byte>>
    requires |names| == |values|
    decreases |names|
  {
    if names == [] then vars
    else Bound(bash, BoundOne(bash, vars, names[0], values[0]), names[1..], values[1..])
  }

  lemma {:induction false} BindingsRun(bash: Bash, sh: Shell, names: seq<string>, values: seq<Secret>, tail: seq<Byte>)
    requires NoHolderFixed(bash) && |names| == |values| && sh.stdin == Payload(values) + tail
    ensures Run(bash, sh, Bindings(names)) == sh.(stdin := tail, vars := Bound(bash, sh.vars, names, values))
    decreases |names|
  {
    hide Execute, Base64.Encode, Utf8.EncodeAll, BoundOne, NoHolderFixed;
    if names == [] {
      assert sh.stdin == tail;
    } else {
      var line := Base64.Encode(Utf8.EncodeAll(values[0]));
      var rest := Payload(values[1..]) + tail;
      assert sh.stdin == line + [NEWLINE] + rest;
      OneBinding(bash, sh, names[0], values[0], rest);
      var first := [ReadLine(Holder(names[0])), DecodeInto(names[0], Holder(names[0]))];
      RunInTwo(bash, sh, first, Bindings(names[1..]));
      RunOfTwo(bash, sh, first[0], first[1]);
      BindingsRun(bash, Run(bash, sh, first), names[1..], values[1..], tail);
    }
  }

  lemma RunOfTwo(bash: Bash, sh: Shell, a: Statement, b: Statement)
    ensures Run(bash, sh, [a, b]) == Execute(bash, Execute(bash, sh, a), b)
  {
    hide Execute;
    assert [a, b][1..] == [b] && [b][1..] == [];
    assert Run(bash, Execute(bash, sh, a), [b]) == Execute(bash, Execute(bash, sh, a), b);
  }

  lemma {:induction false} BoundInTwo(bash: Bash, vars: map<string, seq<Byte>>, names: seq<string>,
                                      values: seq<Secret>, i: nat)
    requires |names| == |values| && i <= |names|
    ensures Bound(bash, vars, names, values) ==
            Bound(bash, Bound(bash, vars, names[..i], values[..i]), names[i..], values[i..])
    decreases i
  {
    hide BoundOne;
    if i == 0 {
      assert names[0..] == names && values[0..] == values;
    } else {
      assert names[..i][1..] == names[1..][..i - 1] && values[..i][1..] == values[1..][..i - 1];
      assert names[1..][i - 1..] == names[i..] && values[1..][i - 1..] == values[i..];
      BoundInTwo(bash, BoundOne(bash, vars, names[0], values[0]), names[1..], values[1..], i - 1);
    }
  }

  /** A name keeps its value while only other names are bound, or if the shell keeps it. */
  lemma {:induction false} OthersKept(bash: Bash, vars: map<string, seq<Byte>>, names: seq<string>,
                                      values: seq<Secret>, name: string)
    requires |names| == |values| && !IsHolder(name) && (name !in names || name in bash.fixed)
    ensures var after := Bound(bash, vars, names, values);
            (name in after <==> name in vars) && (name in vars ==> after[name] == vars[name])
    decreases |names|
  {
    hide BoundOne, IsHolder;
    if names != [] {
      OtherKept(bash, vars, names[0], values[0], name);
      assert names == [names[0]] + names[1..];
      OthersKept(bash, BoundOne(bash, vars, names[0], values[0]), names[1..], values[1..], name);
    }
  }

  lemma OtherKept(bash: Bash, vars: map<string, seq<Byte>>, bound: string, value: Secret, name: string)
    requires !IsHolder(name) && (name != bound || name in bash.fixed)
    ensures var after := BoundOne(bash, vars, bound, value);
            (name in after <==> name in vars) && (name in vars ==> after[name] == vars[name])
  {
    hide Base64.Encode, Utf8.EncodeAll, Delivered;
    PathIsNoHolder(bound);
  }

  lemma ScriptRuns(bash: Bash, sh: Shell, names: seq<string>, values: seq<Secret>, tail: seq<Byte>)
    requires NoHolderFixed(bash) && |names| == |values| && sh.stdin == Payload(values) + tail
    ensures Run(bash, sh, Script(names)) ==
            Shell(tail, Bound(bash, sh.vars, names, values), sh.exported + set n | n in names)
  {
    hide Execute, Base64.Encode, Utf8.EncodeAll, BoundOne, NoHolderFixed;
    if names == [] {
      assert [Command][1..] == [] && sh.stdin == tail;
      assert Execute(bash, sh, Command) == sh by { CommandKeeps(bash, sh); }
    } else {
      BindingsRun(bash, sh, names, values, tail);
      var bound := Run(bash, sh, Bindings(names));
      RunInTwo(bash, sh, Bindings(names), [Export(names), Command]);
      RunOfTwo(bash, bound, Export(names), Command);
      CommandKeeps(bash, Execute(bash, bound, Export(names)));
      ExportAdds(bash, bound, names);
    }
  }

  lemma CommandKeeps(bash: Bash, sh: Shell)
    ensures Execute(bash, sh, Command) == sh
  {
  }

  lemma ExportAdds(bash: Bash, sh: Shell, names: seq<string>)
    ensures Execute(bash, sh, Export(names)) == sh.(exported := sh.exported + set n | n in names)
  {
  }

  /** Nothing after `i` binds its name again. */
  predicate IsLast(names: seq<string>, i: int) { 0 <= i < |names| && forall j :: i < j < |names| ==> names[j] != names[i] }

  /** What the environment holds for name `i` in the end. */
  lemma LastBindingWins(bash: Bash, vars: map<string, seq<Byte>>, names: seq<string>, values: seq<Secret>, i: nat)
    requires |names| == |values| && IsLast(names, i) && !IsHolder(names[i])
    ensures var before, after := Bound(bash, vars, names[..i], values[..i]), Bound(bash, vars, names, values);
            if names[i] in bash.fixed then
              (names[i] in after <==> names[i] in vars) && (names[i] in vars ==> after[names[i]] == vars[names[i]])
            else names[i] in after && after[names[i]] == Delivered(bash, before, values[i])
  {
    hide BoundOne, Delivered, IsHolder;
    var name := names[i];
    if name in bash.fixed {
      OthersKept(bash, vars, names, values, name);
    } else {
      var before := Bound(bash, vars, names[..i], values[..i]);
      BoundInTwo(bash, vars, names, values, i);
      assert names[i..][1..] == names[i + 1..] && values[i..][1..] == values[i + 1..];
      BoundHere(bash, before, name, values[i]);
      OthersKept(bash, BoundOne(bash, before, name, values[i]), names[i + 1..], values[i + 1..], name);
    }
  }

  lemma BoundHere(bash: Bash, vars: map<string, seq<Byte>>, name: string, value: Secret)
    requires name !in bash.fixed
    ensures name in BoundOne(bash, vars, name, value)
    ensures BoundOne(bash, vars, name, value)[name] == Delivered(bash, vars, value)
  {
    hide Delivered;
  }

  /** The shell's search path when the value of name `i` is decoded. */
  function PathAt(bash: Bash, vars: map<string, seq<Byte>>, names: seq<string>, values: seq<Secret>, i: nat): seq<Byte>
    requires |names| == |values| && i <= |names|
  {
    Lookup(Bound(bash, vars, names[..i], values[..i]), PATH)
  }

  /** Run against its payload, the script exports every name, leaves the rest of stdin to the
    * command, and binds a name to its value as command substitution leaves it, whatever
    * lines that contains, unless the shell keeps the name, which then stays as it was, or does
    * not find `base64` at that point, which makes it empty. Of equal names the last wins. */
  lemma ScriptReadsPayload(bash: Bash, names: seq<string>, values: seq<Secret>, tail: seq<Byte>,
                           vars: map<string, seq<Byte>>, exported: set<string>)
    requires |names| == |values| && (forall k :: 0 <= k < |names| ==> IsEnvName(names[k])) && NoHolderFixed(bash)
    ensures var sh := Run(bash, Shell(Payload(values) + tail, vars, exported), Script(names));
            && sh.stdin == tail
            && (forall k :: 0 <= k < |names| ==> names[k] in sh.exported)
            && forall i :: IsLast(names, i) ==>
                 if names[i] in bash.fixed then
                   (names[i] in sh.vars <==> names[i] in vars) && (names[i] in vars ==> sh.vars[names[i]] == vars[names[i]])
                 else
                   && names[i] in sh.vars
                   && sh.vars[names[i]] ==
                      if bash.finds(PathAt(bash, vars, names, values, i)) then Substituted(Utf8.EncodeAll(values[i])) else []
  {
    hide Script, Run, Payload, Utf8.EncodeAll, Substituted, Bound, IsEnvName, IsHolder, NoHolderFixed;
    ScriptRuns(bash, Shell(Payload(values) + tail, vars, exported), names, values, tail);
    forall i | IsLast(names, i)
      ensures var after := Bound(bash, vars, names, values);
              if names[i] in bash.fixed then
                (names[i] in after <==> names[i] in vars) && (names[i] in vars ==> after[names[i]] == vars[names[i]])
              else
                && names[i] in after
                && after[names[i]] == Delivered(bash, Bound(bash, vars, names[..i], values[..i]), values[i])
    {
      NamesAreNotHolders(names[i]);
      LastBindingWins(bash, vars, names, values, i);
    }
  }

  // ---------------------------------------------------------------------
  // When every value arrives
  // ---------------------------------------------------------------------

  /** The environment holds the value, as command substitution leaves it. */
  predicate Arrives(vars: map<string, seq<Byte>>, name: string, value: Secret) {
    name in vars && vars[name] == Substituted(Utf8.EncodeAll(value))
  }

  /** No name is kept by the shell, and none but the last is a PATH that hides `base64`. */
  predicate Deliverable(bash: Bash, names: seq<string>, values: seq<Secret>)
    requires |names| == |values|
  {
    && (forall k :: 0 <= k < |names| ==> names[k] !in bash.fixed)
    && (forall k :: 0 <= k < |names| - 1 && names[k] == PATH ==> bash.finds(Substituted(Utf8.EncodeAll(values[k]))))
  }

  /** Of different names with values that are not lost anyway: all arrive exactly when the
    * names are deliverable. */
  lemma AllArriveExactly(bash: Bash, names: seq<string>, values: seq<Secret>, tail: seq<Byte>,
                         vars: map<string, seq<Byte>>, exported: set<string>)
    requires |names| == |values| && (forall k :: 0 <= k < |names| ==> IsEnvName(names[k])) && NoHolderFixed(bash)
    requires forall j, k :: 0 <= j < k < |names| ==> names[j] != names[k]
    requires bash.finds(Lookup(vars, PATH))
    requires forall k :: 0 <= k < |names| ==> Substituted(Utf8.EncodeAll(values[k])) != []
    requires forall k :: 0 <= k < |names| && names[k] in bash.fixed ==> !Arrives(vars, names[k], values[k])
    ensures var sh := Run(bash, Shell(Payload(values) + tail, vars, exported), Script(names));
            (forall k :: 0 <= k < |names| ==> Arrives(sh.vars, names[k], values[k])) <==> Deliverable(bash, names, values)
  {
    hide Script, Run, Payload, Utf8.EncodeAll, Substituted, Bound, IsEnvName, IsHolder, NoHolderFixed, PathAt;
    ScriptReadsPayload(bash, names, values, tail, vars, exported);
    assert forall k :: 0 <= k < |names| ==> IsLast(names, k);
    if k :| 0 <= k < |names| && names[k] in bash.fixed {
      assert !Deliverable(bash, names, values);
    } else if k :| 0 <= k < |names| && names[k] == PATH {
      PathsAround(bash, vars, names, values, k);
      if k < |names| - 1 {
        assert IsLast(names, k + 1);
      }
    } else {
      PathStays(bash, vars, names, values);
    }
  }

  /** Secrets may be called so: `path` before another empties that one when its value hides
    * `base64`, and `uid` never arrives in a shell that keeps UID. */
  lemma AcceptedNamesFail(bash: Bash, path: Secret, value: Secret, vars: map<string, seq<Byte>>)
    requires bash.fixed == {"UID"} && bash.finds(Lookup(vars, PATH)) && !bash.finds(Substituted(Utf8.EncodeAll(path)))
    ensures var names, values := [EnvVarName("path"), EnvVarName("uid"), EnvVarName("key")], [path, value, value];
            var sh := Run(bash, Shell(Payload(values), vars, {}), Script(names));
            && Lookup(sh.vars, "KEY") == [] && Lookup(sh.vars, "UID") == Lookup(vars, "UID")
  {
    hide Run, Script, Bound, Substituted, Utf8.EncodeAll, Payload, PathAt;
    NamesOfExample();
    var names, values := ["PATH", "UID", "KEY"], [path, value, value];
    assert Payload(values) + [] == Payload(values);
    ScriptReadsPayload(bash, names, values, [], vars, {});
    PathsAround(bash, vars, names, values, 0);
    assert IsLast(names, 1) && IsLast(names, 2);
  }

  lemma NamesOfExample()
    ensures EnvVarName("path") == "PATH" && EnvVarName("uid") == "UID" && EnvVarName("key") == "KEY"
    ensures IsEnvName("PATH") && IsEnvName("UID") && IsEnvName("KEY") && !IsHolder("UID")
  {
    assert "path"[1..] == "ath" && "ath"[1..] == "th" && "th"[1..] == "h" && "h"[1..] == "";
    assert "uid"[1..] == "id" && "id"[1..] == "d" && "d"[1..] == "";
    assert "key"[1..] == "ey" && "ey"[1..] == "y" && "y"[1..] == "";
    assert Sanitized("h") == "H" && Sanitized("th") == "TH" && Sanitized("ath") == "ATH";
    assert Sanitized("d") == "D" && Sanitized("id") == "ID";
    assert Sanitized("y") == "Y" && Sanitized("ey") == "EY";
  }

  /** Before PATH is bound the old one is searched, after it the new one. */
  lemma PathsAround(bash: Bash, vars: map<string, seq<Byte>>, names: seq<string>, values: seq<Secret>, k: nat)
    requires |names| == |values| && k < |names| && names[k] == PATH && PATH !in bash.fixed && bash.finds(Lookup(vars, PATH))
    requires forall j :: 0 <= j < |names| && j != k ==> names[j] != PATH
    ensures forall i :: 0 <= i <= k ==> PathAt(bash, vars, names, values, i) == Lookup(vars, PATH)
    ensures forall i :: k < i <= |names| ==>
              PathAt(bash, vars, names, values, i) == Substituted(Utf8.EncodeAll(values[k]))
  {
    hide Substituted, Utf8.EncodeAll, BoundOne;
    PathIsNoHolder("");
    forall i | 0 <= i <= k ensures PathAt(bash, vars, names, values, i) == Lookup(vars, PATH) {
      OthersKept(bash, vars, names[..i], values[..i], PATH);
    }
    forall i | k < i <= |names| ensures PathAt(bash, vars, names, values, i) == Substituted(Utf8.EncodeAll(values[k])) {
      LastBindingWins(bash, vars, names[..i], values[..i], k);
      assert names[..i][..k] == names[..k] && values[..i][..k] == values[..k];
      assert PathAt(bash, vars, names, values, k) == Lookup(vars, PATH);
    }
  }

  lemma PathStays(bash: Bash, vars: map<string, seq<Byte>>, names: seq<string>, values: seq<Secret>)
    requires |names| == |values| && forall j :: 0 <= j < |names| ==> names[j] != PATH
    ensures forall i :: 0 <= i <= |names| ==> PathAt(bash, vars, names, values, i) == Lookup(vars, PATH)
  {
    hide Bound;
    PathIsNoHolder("");
    forall i | 0 <= i <= |names| ensures PathAt(bash, vars, names, values, i) == Lookup(vars, PATH) {
      OthersKept(bash, vars, names[..i], values[..i], PATH);
    }
  }

  lemma NamesAreNotHolders(name: string)
    requires IsEnvName(name)
    ensures !IsHolder(name)
  {
    if |name| >= 6 {
      assert name[2] != 'b';
    }
  }

  // ---------------------------------------------------------------------
  // Which values arrive unchanged
  // ---------------------------------------------------------------------

  predicate SurvivesSubstitution(value: Secret) { 0 !in value && (value == [] || value[|value| - 1] != 10) }

  /** A value arrives octet for octet exactly when it has no NUL and does not end in a newline. */
  lemma UnchangedExactly(value: Secret)
    ensures Substituted(Utf8.EncodeAll(value)) == Utf8.EncodeAll(value) <==> SurvivesSubstitution(value)
  {
    hide Utf8.EncodeAll, WithoutNul, WithoutTrailingNewlines;
    var bs := Utf8.EncodeAll(value);
    NoNulToDrop(bs);
    NoNewlineToDrop(WithoutNul(bs));
    AsciiSurvivesEncoding(value);
  }

  lemma {:induction false} NoNewlineToDrop(s: seq<Byte>)
    ensures if s == [] || s[|s| - 1] != NEWLINE then WithoutTrailingNewlines(s) == s
            else |WithoutTrailingNewlines(s)| < |s|
  {
    if s != [] && s[|s| - 1] == NEWLINE {
      NoNewlineToDrop(s[..|s| - 1]);
    }
  }

  /** An ASCII octet in an encoding is that character. */
  lemma {:induction false} AsciiSurvivesEncoding(value: Secret)
    ensures var bs := Utf8.EncodeAll(value);
            && (0 in bs <==> 0 in value)
            && (bs == [] <==> value == [])
            && (value != [] ==> (bs[|bs| - 1] == NEWLINE <==> value[|value| - 1] == 10))
  {
    if value != [] {
      var head, rest := Utf8.Encode(value[0]), Utf8.EncodeAll(value[1..]);
      assert |head| >= 1 && (head == [value[0]] || (value[0] >= 0x80 && forall b :: b in head ==> b >= 0x80));
      AsciiSurvivesEncoding(value[1..]);
      assert value == [value[0]] + value[1..];
      assert Utf8.EncodeAll(value) == head + rest;
    }
  }
}

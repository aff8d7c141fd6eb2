/** The pieces of the JavaScript runtime that lib/Functions.js leans on:
    optional values, thrown errors, decoded MessagePack values and their
    truthiness, a few String methods, and a simplified node:path. */
module Js {

  datatype Option<+T> = None | Some(value: T)

  datatype Result<+T, +E> = Ok(value: T) | Err(error: E)

  /** A thrown JavaScript error: its `name` (what retryUntil looks at) and
      its `message`. */
  datatype Exception = Exception(name: string, message: string)

  const AssertionErrorName := "AssertionError"
  const ErrorName := "Error"
  const TypeErrorName := "TypeError"

  /** What `assert(cond, message)` from node:assert throws when `cond` is falsy. */
  function AssertionError(message: string): Exception {
    Exception(AssertionErrorName, message)
  }

  /** What `new Error(message)` builds. */
  function Error(message: string): Exception {
    Exception(ErrorName, message)
  }

  /** A TypeError raised by the engine (reading a property of null or
      undefined); the engine's exact wording is not modelled. */
  function TypeError(message: string): Exception {
    Exception(TypeErrorName, message)
  }

  /** A value as msgpack-lite decodes it (maps are not modelled). */
  datatype Value =
    | Nil
    | Bool(b: bool)
    | Int(i: int)
    | Str(s: string)
    | Array(items: seq<Value>)

  /** JavaScript truthiness: null, false, 0 and "" are falsy; arrays are truthy. */
  predicate Truthy(v: Value) {
    match v
    case Nil => false
    case Bool(b) => b
    case Int(i) => i != 0
    case Str(s) => s != ""
    case Array(_) => true
  }

  function Digit(d: nat): char
    requires d < 10
  {
    "0123456789"[d]
  }

  /** Decimal text of a natural number, as `String(n)` gives it. */
  function NatText(n: nat): (r: string)
    ensures |r| >= 1
    decreases n
  {
    if n < 10 then [Digit(n)] else NatText(n / 10) + [Digit(n % 10)]
  }

  function IntText(n: int): string {
    if n < 0 then "-" + NatText(-n) else NatText(n)
  }

  /** `String(v)`, the message `new Error(v)` gets: arrays are joined by
      commas, with null elements written as the empty string. */
  function JsString(v: Value): string
    decreases v
  {
    match v
    case Nil => "null"
    case Bool(b) => if b then "true" else "false"
    case Int(i) => IntText(i)
    case Str(s) => s
    case Array(items) =>
      JoinComma(seq(|items|, k requires 0 <= k < |items| =>
        if items[k].Nil? then "" else JsString(items[k])))
  }

  function JoinComma(parts: seq<string>): string {
    if |parts| == 0 then ""
    else if |parts| == 1 then parts[0]
    else parts[0] + "," + JoinComma(parts[1..])
  }

  predicate StartsWith(s: string, prefix: string) {
    |prefix| <= |s| && s[..|prefix|] == prefix
  }

  /** A text that starts with `a + b` starts with `a`, and after `a` with `b`. */
  lemma StartsWithAppend(s: string, a: string, b: string)
    requires StartsWith(s, a + b)
    ensures StartsWith(s, a) && StartsWith(s[|a|..], b)
  {
    assert s[..|a|] == (a + b)[..|a|];
    assert s[|a|..][..|b|] == s[..|a + b|][|a|..];
  }

  /** A text that starts with `prefix` is `prefix` followed by the rest. */
  lemma PrefixAndRest(s: string, prefix: string)
    requires StartsWith(s, prefix)
    ensures s == prefix + s[|prefix|..]
  {
    assert s == s[..|prefix|] + s[|prefix|..];
  }

  /** The last element of a non-empty sequence. */
  function Last<T>(s: seq<T>): T
    requires |s| > 0
  {
    s[|s| - 1]
  }

  predicate EndsWith(s: string, suffix: string) {
    |suffix| <= |s| && s[|s| - |suffix|..] == suffix
  }

  /** The index of the first occurrence of `pat` in `s`, if any. */
  function IndexOf(s: string, pat: string): (r: Option<nat>)
    ensures r.Some? ==> r.value + |pat| <= |s| && s[r.value..r.value + |pat|] == pat
    ensures r.Some? ==> forall j :: 0 <= j < r.value ==> !StartsWith(s[j..], pat)
    ensures r.None? ==> forall j :: 0 <= j <= |s| ==> !StartsWith(s[j..], pat)
    decreases |s|
  {
    if StartsWith(s, pat) then Some(0)
    else if |s| == 0 then None
    else
      match IndexOf(s[1..], pat)
      case None =>
        assert forall j :: 1 <= j <= |s| ==> !StartsWith(s[j..], pat) by {
          forall j | 1 <= j <= |s| ensures !StartsWith(s[j..], pat) {
            assert s[j..] == s[1..][j - 1..];
          }
        }
        None
      case Some(i) =>
        assert forall j :: 1 <= j <= i ==> !StartsWith(s[j..], pat) by {
          forall j | 1 <= j <= i ensures !StartsWith(s[j..], pat) {
            assert s[j..] == s[1..][j - 1..];
          }
        }
        assert s[i + 1..i + 1 + |pat|] == s[1..][i..i + |pat|];
        Some(i + 1)
  }

  /** `s.replace(pat, rep)` with a string pattern: the first occurrence,
      wherever it is, is replaced, and nothing else changes; without an
      occurrence the text is returned as it is. */
  function ReplaceFirst(s: string, pat: string, rep: string): (r: string)
    ensures (forall j :: 0 <= j <= |s| ==> !StartsWith(s[j..], pat)) ==> r == s
    ensures forall i ::
      (&& 0 <= i <= |s| && StartsWith(s[i..], pat)
       && forall j :: 0 <= j < i ==> !StartsWith(s[j..], pat))
      ==> r == s[..i] + rep + s[i + |pat|..]
  {
    match IndexOf(s, pat)
    case None => s
    case Some(k) =>
      assert StartsWith(s[k..], pat) by {
        assert s[k..][..|pat|] == s[k..k + |pat|];
      }
      s[..k] + rep + s[k + |pat|..]
  }


  /** node:path `join(dir, name)`, simplified: one leading "./" of `name`
      is dropped and the two are joined with a single "/". Node also
      resolves `..` and `.` segments and collapses repeated slashes; this
      does not, so for a name with a `..` segment the result is not the
      path node gives (`join("/p", "../x")` is "/x" in node). */
  function PathJoin(dir: string, name: string): (r: string)
    ensures StartsWith(r, dir + "/")
  {
    var rest := if StartsWith(name, "./") then name[2..] else name;
    dir + "/" + rest
  }

  /** A name with a leading "./" is joined without it. */
  lemma JoinDropsDotSlash(dir: string, rest: string)
    ensures PathJoin(dir, "./" + rest) == dir + "/" + rest
  {
    assert ("./" + rest)[..2] == "./";
    assert ("./" + rest)[2..] == rest;
  }

  /** node:path `relative(from, to)` for a `to` inside `from`. */
  function PathRelative(from: string, to: string): (r: string)
    requires StartsWith(to, from + "/")
    ensures from + "/" + r == to
  {
    to[|from| + 1..]
  }

  /** The path a file name denotes inside the project root comes back out
      of `relative` without its leading "./". */
  lemma RelativeOfJoin(dir: string, name: string)
    ensures PathRelative(dir, PathJoin(dir, name))
         == (if StartsWith(name, "./") then name[2..] else name)
  {
    var rest := if StartsWith(name, "./") then name[2..] else name;
    assert PathJoin(dir, name) == (dir + "/") + rest;
  }
}

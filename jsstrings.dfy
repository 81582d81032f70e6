/** The optional values of the page model: a JavaScript `null` (or `undefined`)
    is `None`. */
module Wrappers {
  datatype Option<+T> = None | Some(value: T)
}

/** JavaScript strings and the few string built-ins the paginator uses.
    A JavaScript string is a sequence of UTF-16 code units; it is modelled as
    such, not as a Dafny `string`, because a decoded escape may be a lone
    surrogate, which a Dafny `char` cannot hold. */
module JSStrings {

  /** One UTF-16 code unit. */
  type CodeUnit = c: int | 0 <= c < 0x1_0000

  type JSString = seq<CodeUnit>

  /** `s.startsWith(p)`: `p` occurs at index 0. */
  predicate StartsWith(s: JSString, p: JSString)
    ensures StartsWith(s, p) <==> OccursAt(s, p, 0)
  {
    |p| <= |s| && s[..|p|] == p
  }

  /** Concatenation is associative. */
  lemma AppendAssoc(x: JSString, y: JSString, z: JSString)
    ensures (x + y) + z == x + (y + z)
  {
  }

  /** `m` occurs in `s` starting at index `j`. */
  predicate OccursAt(s: JSString, m: JSString, j: int) {
    0 <= j && j + |m| <= |s| && s[j..j + |m|] == m
  }

  ghost predicate Contains(s: JSString, m: JSString) {
    exists j :: OccursAt(s, m, j)
  }

  /** `s.indexOf(m)`: the first index at which `m` occurs in `s`, or -1. */
  function IndexOf(s: JSString, m: JSString): (k: int)
    ensures -1 <= k <= |s|
    ensures k == -1 <==> !Contains(s, m)
    ensures k != -1 ==> OccursAt(s, m, k)
    ensures forall j :: 0 <= j < k ==> !OccursAt(s, m, j)
    decreases |s|
  {
    if |s| < |m| then
      assert forall j :: !OccursAt(s, m, j);
      -1
    else if s[..|m|] == m then
      assert OccursAt(s, m, 0);
      0
    else
      var k := IndexOf(s[1..], m);
      ShiftOccurrence(s, m);
      assert !OccursAt(s, m, 0);
      if k == -1 then -1 else k + 1
  }

  /** An occurrence in `s[1..]` is an occurrence in `s` one index further on. */
  lemma ShiftOccurrence(s: JSString, m: JSString)
    requires |s| > 0
    ensures forall j :: 0 <= j ==> (OccursAt(s[1..], m, j) <==> OccursAt(s, m, j + 1))
    ensures forall j :: 1 <= j ==> (OccursAt(s, m, j) <==> OccursAt(s[1..], m, j - 1))
  {
    forall j | 0 <= j ensures OccursAt(s[1..], m, j) <==> OccursAt(s, m, j + 1) {
      if j + |m| <= |s| - 1 {
        assert s[1..][j..j + |m|] == s[j + 1..j + 1 + |m|];
      }
    }
  }

  predicate IsUpperAscii(c: CodeUnit) {
    0x41 <= c <= 0x5A
  }

  /** `toLowerCase` of one code unit, for the ASCII letters A to Z. */
  function LowerUnit(c: CodeUnit): (r: CodeUnit)
    ensures !IsUpperAscii(r)
    ensures IsUpperAscii(c) ==> r == c + 0x20
    ensures !IsUpperAscii(c) ==> r == c
  {
    if IsUpperAscii(c) then c + 0x20 else c
  }

  /** `s.toLowerCase()`, restricted to ASCII case mapping. */
  function ToLowerAscii(s: JSString): (r: JSString)
    ensures |r| == |s|
    ensures forall i :: 0 <= i < |s| ==> r[i] == LowerUnit(s[i])
  {
    seq(|s|, i requires 0 <= i < |s| => LowerUnit(s[i]))
  }

  /** Lowering twice is lowering once, and the result has no upper-case letter. */
  lemma ToLowerAsciiIdempotent(s: JSString)
    ensures ToLowerAscii(ToLowerAscii(s)) == ToLowerAscii(s)
    ensures forall i :: 0 <= i < |s| ==> !IsUpperAscii(ToLowerAscii(s)[i])
  {
  }
}

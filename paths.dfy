/** The part of pathlib's `PurePath` that both codec functions consult: the final
    component's suffix, compared with ".flo". */
module Paths {

  const FloSuffix: string := ".flo"

  /** Index of the last `c` in `s`, or -1 (Python's `str.rfind`). */
  function LastIndexOf(s: string, c: char): (i: int)
    ensures -1 <= i < |s|
    ensures i >= 0 ==> s[i] == c
    ensures forall j :: i < j < |s| ==> s[j] != c
  {
    if s == [] then -1
    else if s[|s| - 1] == c then |s| - 1
    else LastIndexOf(s[..|s| - 1], c)
  }

  /** The path with its trailing separators removed. */
  function StripTrailingSlashes(p: string): (q: string)
    ensures q <= p
    ensures q == [] || q[|q| - 1] != '/'
  {
    if p != [] && p[|p| - 1] == '/' then StripTrailingSlashes(p[..|p| - 1]) else p
  }

  /** `PurePath.name`: the final path component. */
  function Name(p: string): (n: string)
    ensures '/' !in n
  {
    var q := StripTrailingSlashes(p);
    q[LastIndexOf(q, '/') + 1..]
  }

  /** `PurePath.suffix`: from the last dot of the name, unless that dot is its first
      or last character. */
  function Suffix(p: string): (s: string)
    ensures s == [] || (|s| >= 2 && s[0] == '.')
    ensures forall j :: 1 <= j < |s| ==> s[j] != '.'
    ensures |s| < |Name(p)| || s == []
    ensures s == Name(p)[|Name(p)| - |s|..]
  {
    var n := Name(p);
    var i := LastIndexOf(n, '.');
    if 0 < i < |n| - 1 then
      assert forall j :: 1 <= j < |n| - i ==> n[i..][j] == n[i + j];
      n[i..]
    else ""
  }

  predicate HasFloSuffix(p: string)
  {
    Suffix(p) == FloSuffix
  }

  /** A path has the `.flo` suffix exactly when its final component ends in ".flo"
      and has at least one character before that dot. */
  lemma FloSuffixIff(p: string)
    ensures HasFloSuffix(p) <==> (|Name(p)| > 4 && Name(p)[|Name(p)| - 4..] == FloSuffix)
  {
    var n := Name(p);
    var i := LastIndexOf(n, '.');
    if |n| > 4 && n[|n| - 4..] == FloSuffix {
      assert n[|n| - 4] == '.';
      assert i == |n| - 4;
    }
    if HasFloSuffix(p) {
      assert n[i..] == FloSuffix;
      assert |n| - i == 4;
    }
  }
}

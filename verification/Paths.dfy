/** Path strings on the two desktop families, and substring search. */
module Paths {
  import opened Bytes

  datatype Os = Unix | Windows

  predicate IsSep(os: Os, c: char) { c == '/' || (os.Windows? && c == '\\') }

  function Sep(os: Os): (c: char)
    ensures IsSep(os, c)
  {
    if os.Unix? then '/' else '\\'
  }

  predicate IsDriveLetter(c: char) { 'A' <= c <= 'Z' || 'a' <= c <= 'z' }

  /** Length of the root: a leading separator, or on Windows a drive with or without one. */
  function RootLength(os: Os, p: string): (n: nat)
    ensures n <= |p| && n <= 3
  {
    if p != "" && IsSep(os, p[0]) then 1
    else if os.Windows? && |p| >= 2 && IsDriveLetter(p[0]) && p[1] == ':' then
      if |p| >= 3 && IsSep(os, p[2]) then 3 else 2
    else 0
  }

  predicate Rooted(os: Os, p: string) { RootLength(os, p) > 0 }

  predicate EndsInSep(os: Os, p: string) { p != "" && IsSep(os, p[|p| - 1]) }

  function Combine(os: Os, a: string, b: string): string
  {
    if b == "" then a
    else if a == "" || Rooted(os, b) then b
    else if EndsInSep(os, a) then a + b
    else a + [Sep(os)] + b
  }

  /** Index of the last separator, or -1. */
  function LastSep(os: Os, p: string): (i: int)
    ensures -1 <= i < |p| && (i >= 0 ==> IsSep(os, p[i]))
    ensures forall k :: i < k < |p| ==> !IsSep(os, p[k])
  {
    if p == "" then -1
    else if IsSep(os, p[|p| - 1]) then |p| - 1
    else LastSep(os, p[..|p| - 1])
  }

  function GetFileName(os: Os, p: string): (name: string)
    ensures forall k :: 0 <= k < |name| ==> !IsSep(os, name[k])
  {
    var root, i := RootLength(os, p), LastSep(os, p);
    p[if i < root then root else i + 1..]
  }

  /** Drops the separators before index `end`, but not into the root. */
  function TrimSeps(os: Os, p: string, end: nat, root: nat): (e: nat)
    requires root <= end <= |p|
    ensures root <= e <= end && (e > root ==> !IsSep(os, p[e - 1]))
  {
    if end > root && IsSep(os, p[end - 1]) then TrimSeps(os, p, end - 1, root) else end
  }

  /** Canonical separators, and no two in a row. */
  function Normalize(os: Os, p: string): string
  {
    if p == "" then ""
    else if IsSep(os, p[0]) then
      if |p| > 1 && IsSep(os, p[1]) then Normalize(os, p[1..]) else [Sep(os)] + Normalize(os, p[1..])
    else [p[0]] + Normalize(os, p[1..])
  }

  function GetDirectoryName(os: Os, p: string): Option<string>
  {
    var root := RootLength(os, p);
    if |p| <= root then None
    else
      var i := LastSep(os, p);
      Some(Normalize(os, p[..TrimSeps(os, p, if i < root then root else i, root)]))
  }

  /** Paths as the operating system reports them: canonical separators, none doubled. */
  predicate Normal(os: Os, p: string)
  {
    forall i :: 0 <= i < |p| && IsSep(os, p[i]) ==> p[i] == Sep(os) && (i + 1 < |p| ==> !IsSep(os, p[i + 1]))
  }

  lemma {:induction false} NormalizeNormal(os: Os, p: string)
    requires Normal(os, p)
    ensures Normalize(os, p) == p
  {
    if p != "" {
      assert forall i :: 0 <= i < |p[1..]| ==> p[1..][i] == p[i + 1];
      NormalizeNormal(os, p[1..]);
      assert p == [p[0]] + p[1..];
    }
  }

  /** Whatever the separators in a path, normalized it has canonical ones and none doubled. */
  lemma {:induction false} NormalizeIsNormal(os: Os, p: string)
    ensures Normal(os, Normalize(os, p))
    ensures p != "" ==> Normalize(os, p) != ""
    ensures p != "" && !IsSep(os, p[0]) ==> !IsSep(os, Normalize(os, p)[0])
  {
    if p != "" {
      NormalizeIsNormal(os, p[1..]);
    }
  }

  /** The roots, and how a path behind another one is taken: as it is when it has a root of its own. */
  lemma Roots(c: char, rest: string)
    ensures RootLength(Unix, "/" + rest) == 1 && RootLength(Windows, "/" + rest) == RootLength(Windows, "\\" + rest) == 1
    ensures IsDriveLetter(c) ==> RootLength(Windows, [c] + ":\\" + rest) == RootLength(Windows, [c] + ":/" + rest) == 3
    ensures IsDriveLetter(c) && (rest == "" || (rest[0] != '/' && rest[0] != '\\')) ==> RootLength(Windows, [c] + ":" + rest) == 2
    ensures c != '/' ==> RootLength(Unix, [c] + rest) == 0
  {
  }

  /** A path that is no more than a root has no directory. */
  lemma DirectoryIff(os: Os, p: string)
    ensures GetDirectoryName(os, p).Some? <==> |p| > RootLength(os, p)
  {
  }

  lemma CombineRooted(os: Os, a: string, b: string)
    ensures RootLength(os, b) > 0 ==> Combine(os, a, b) == b
    ensures b == "" ==> Combine(os, a, b) == a
  {
  }

  /** A normal path is its directory and its file name put together again. */
  lemma SplitAndCombine(os: Os, p: string)
    requires Normal(os, p) && GetFileName(os, p) != ""
    requires !Rooted(os, GetFileName(os, p)) && !(os.Windows? && RootLength(os, p) == 2)
    ensures GetDirectoryName(os, p).Some?
    ensures Combine(os, GetDirectoryName(os, p).value, GetFileName(os, p)) == p
  {
    hide Normalize;
    var root, i := RootLength(os, p), LastSep(os, p);
    var cut := TrimSeps(os, p, if i < root then root else i, root);
    assert Normal(os, p[..cut]);
    NormalizeNormal(os, p[..cut]);
    if i >= root {
      assert i > root ==> !IsSep(os, p[i - 1]);
      assert cut == i;
      assert p == p[..i] + [p[i]] + p[i + 1..];
    } else {
      assert p == p[..root] + p[root..];
    }
  }

  // ---------- search ----------

  predicate OccursAt(s: string, pattern: string, i: int)
  {
    0 <= i && i + |pattern| <= |s| && s[i..i + |pattern|] == pattern
  }

  /** First occurrence at or after `from`, or -1. */
  function IndexFrom(s: string, pattern: string, from: nat): (r: int)
    ensures r == -1 || (r >= from && OccursAt(s, pattern, r))
    ensures forall k :: from <= k && (r == -1 || k < r) ==> !OccursAt(s, pattern, k)
    decreases |s| - from
  {
    if from + |pattern| > |s| then -1
    else if s[from..from + |pattern|] == pattern then from
    else IndexFrom(s, pattern, from + 1)
  }

  function IndexOf(s: string, pattern: string): int { IndexFrom(s, pattern, 0) }

  predicate Contains(s: string, pattern: string) { IndexOf(s, pattern) != -1 }

  lemma IndexOfIs(s: string, pattern: string, i: nat)
    requires OccursAt(s, pattern, i) && forall k :: 0 <= k < i ==> !OccursAt(s, pattern, k)
    ensures IndexOf(s, pattern) == i
  {
  }

  /** An occurrence, letter by letter. */
  lemma OccursIff(s: string, pattern: string, i: int)
    ensures OccursAt(s, pattern, i) <==>
      0 <= i && i + |pattern| <= |s| && forall k :: i <= k < i + |pattern| ==> s[k] == pattern[k - i]
  {
  }
}

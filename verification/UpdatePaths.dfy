/** The path arithmetic of the self-update: staging, the pending test and the way back. */
module UpdatePaths {
  import opened Bytes
  import opened Paths

  const LAST_VERSION := "LastVersion"
  const MARK := "/LastVersion/"

  function TempUpdateDir(os: Os, exe: string, workingDir: string): string
  {
    var dir := GetDirectoryName(os, exe);
    Combine(os, if dir.Some? then dir.value else workingDir, LAST_VERSION)
  }

  /** Where the downloaded copy of the running executable is started from. */
  function StagedExecutable(os: Os, exe: string, workingDir: string): string
  {
    Combine(os, TempUpdateDir(os, exe, workingDir), GetFileName(os, exe))
  }

  /** Every backslash replaced by a slash. */
  function Slashed(s: string): (r: string)
    ensures |r| == |s|
    ensures forall i :: 0 <= i < |s| ==> r[i] == if s[i] == '\\' then '/' else s[i]
  {
    seq(|s|, i requires 0 <= i < |s| => if s[i] == '\\' then '/' else s[i])
  }

  /** The test that the running executable is a staged copy. */
  predicate Pending(exe: string) { Contains(Slashed(exe), MARK) }

  /** Everything before the first "LastVersion". */
  function OriginalPath(exe: string): string
    requires Pending(exe)
  {
    PendingHasName(exe);
    exe[..IndexOf(exe, LAST_VERSION)]
  }

  /** The executable `FinishUpdate` hands back to be started, if an update is pending. */
  function FinishUpdatePath(os: Os, exe: string): Option<string>
  {
    if Pending(exe) then Some(Combine(os, OriginalPath(exe), GetFileName(os, exe))) else None
  }

  /** The name of a file: not empty, without separators, and on Windows without a colon. */
  predicate PlainName(os: Os, name: string)
  {
    && name != "" && (forall k :: 0 <= k < |name| ==> !IsSep(os, name[k]))
    && (os.Windows? ==> ':' !in name)
  }

  // ---------- occurrences of the marker ----------

  lemma MarkAt(s: string, j: int)
    ensures OccursAt(Slashed(s), MARK, j) <==>
      && 0 <= j && j + 13 <= |s| && OccursAt(s, LAST_VERSION, j + 1)
      && (s[j] == '/' || s[j] == '\\') && (s[j + 12] == '/' || s[j + 12] == '\\')
  {
    var t := Slashed(s);
    OccursIff(t, MARK, j);
    OccursIff(s, LAST_VERSION, j + 1);
    assert forall k :: 0 <= k < 11 ==> MARK[k + 1] == LAST_VERSION[k] != '/' && LAST_VERSION[k] != '\\';
    if 0 <= j && j + 13 <= |s| && OccursAt(t, MARK, j) {
      forall k | j + 1 <= k < j + 12
        ensures s[k] == LAST_VERSION[k - (j + 1)]
      {
        assert t[k] == MARK[k - j];
      }
      assert t[j] == MARK[0] && t[j + 12] == MARK[12];
    }
    if 0 <= j && j + 13 <= |s| && OccursAt(s, LAST_VERSION, j + 1)
       && (s[j] == '/' || s[j] == '\\') && (s[j + 12] == '/' || s[j + 12] == '\\') {
      forall k | j <= k < j + 13
        ensures t[k] == MARK[k - j]
      {
        if j < k < j + 12 {
          assert s[k] == LAST_VERSION[k - (j + 1)];
        }
      }
    }
  }

  /** A directory "LastVersion" is named at this place of a path, between separators of either kind. */
  predicate MarkedAt(exe: string, j: int)
  {
    && 0 <= j && j + 13 <= |exe| && exe[j + 1..j + 12] == "LastVersion"
    && (exe[j] == '/' || exe[j] == '\\') && (exe[j + 12] == '/' || exe[j + 12] == '\\')
  }

  /** A program takes itself for a staged copy exactly when such a directory is on its path. */
  lemma PendingIff(exe: string)
    ensures Pending(exe) <==> exists j :: MarkedAt(exe, j)
  {
    hide Slashed;
    if Pending(exe) {
      var j := IndexOf(Slashed(exe), MARK);
      MarkAt(exe, j);
      assert MarkedAt(exe, j);
    }
    if j :| MarkedAt(exe, j) {
      MarkAt(exe, j);
      Found(Slashed(exe), MARK, j);
    }
  }

  lemma Found(s: string, pattern: string, i: int)
    requires OccursAt(s, pattern, i)
    ensures Contains(s, pattern)
  {
  }

  lemma CombineName(os: Os, a: string, name: string)
    requires PlainName(os, name)
    ensures |Combine(os, a, name)| <= |a| + 1 + |name|
    ensures EndsInSep(os, a) || a == "" ==> Combine(os, a, name) == a + name
    ensures a != "" ==> Combine(os, a, name) == Based(os, a) + name
  {
  }

  lemma PendingHasName(exe: string)
    requires Pending(exe)
    ensures 0 <= IndexOf(exe, LAST_VERSION) <= |exe|
  {
    var j := IndexOf(Slashed(exe), MARK);
    MarkAt(exe, j);
  }

  lemma NameLetters(k: nat)
    requires k < 11
    ensures LAST_VERSION[k] != '/' && LAST_VERSION[k] != '\\' && LAST_VERSION[k] != ':'
  {
  }

  /** No occurrence of the name reaches over a separator. */
  lemma NoOccurrenceAcross(s: string, i: int, cut: nat)
    requires cut < |s| && (s[cut] == '/' || s[cut] == '\\')
    requires OccursAt(s, LAST_VERSION, i)
    ensures i > cut || i + 11 <= cut
  {
  }

  /** The name occurs at the same places in a prefix. */
  lemma OccursInPrefix(s: string, t: string, i: int)
    requires i + 11 <= |s|
    ensures OccursAt(s, LAST_VERSION, i) <==> OccursAt(s + t, LAST_VERSION, i)
  {
  }

  // ---------- the round trip ----------

  /** A directory with its separator at the end. */
  function Based(os: Os, dir: string): string
  {
    if EndsInSep(os, dir) then dir else dir + [Sep(os)]
  }

  lemma FileNameOf(os: Os, base: string, name: string)
    requires EndsInSep(os, base) && RootLength(os, base + name) <= |base| && PlainName(os, name)
    ensures GetFileName(os, base + name) == name
  {
    var p := base + name;
    var i := LastSep(os, p);
    assert p[|base| - 1] == base[|base| - 1];
    assert forall k :: |base| <= k < |p| ==> p[k] == name[k - |base|];
    assert i == |base| - 1;
    assert p[|base|..] == name;
  }

  lemma StagedIs(os: Os, dir: string, name: string)
    requires dir != "" && PlainName(os, name)
    ensures Combine(os, Combine(os, dir, LAST_VERSION), name)
      == Based(os, dir) + LAST_VERSION + [Sep(os)] + name
    ensures Combine(os, dir, name) == Based(os, dir) + name
  {
    assert !Rooted(os, name);
    assert LAST_VERSION[0] == 'L' && LAST_VERSION[1] == 'a' && LAST_VERSION[10] == 'n';
    var temp := Combine(os, dir, LAST_VERSION);
    assert temp == Based(os, dir) + LAST_VERSION;
    assert temp[|temp| - 1] == LAST_VERSION[10];
  }

  /** First-occurrence reasoning across the separator: in a staged path the name is found where it was
      put, exactly when the directory does not contain it already. */
  lemma FirstOccurrence(os: Os, dir: string, rest: string)
    requires dir != ""
    ensures var base := Based(os, dir);
            var p := base + LAST_VERSION + rest;
            if Contains(dir, LAST_VERSION) then 0 <= IndexOf(p, LAST_VERSION) <= |dir| - 11
            else IndexOf(p, LAST_VERSION) == |base|
  {
    var base := Based(os, dir);
    var p := base + LAST_VERSION + rest;
    assert p == base + (LAST_VERSION + rest);
    var cut := |base| - 1;
    assert IsSep(os, p[cut]);
    if Contains(dir, LAST_VERSION) {
      var i := IndexOf(dir, LAST_VERSION);
      assert p == dir + p[|dir|..];
      OccursInPrefix(dir, p[|dir|..], i);
    } else {
      assert p[|base|..|base| + 11] == LAST_VERSION;
      forall k | 0 <= k < |base|
        ensures !OccursAt(p, LAST_VERSION, k)
      {
        if OccursAt(p, LAST_VERSION, k) {
          NoOccurrenceAcross(p, k, cut);
          assert k + 11 <= |dir|;
          assert p == dir + p[|dir|..];
          OccursInPrefix(dir, p[|dir|..], k);
        }
      }
      IndexOfIs(p, LAST_VERSION, |base|);
    }
  }

  lemma StagedIsPending(os: Os, dir: string, name: string)
    requires dir != ""
    ensures Pending(Based(os, dir) + LAST_VERSION + [Sep(os)] + name)
  {
    var base := Based(os, dir);
    var p := base + LAST_VERSION + [Sep(os)] + name;
    assert p[|base|..|base| + 11] == LAST_VERSION;
    assert p[|base| - 1] == base[|base| - 1] && p[|base| + 11] == Sep(os);
    MarkAt(p, |base| - 1);
  }

  /** Where an update is staged: below the executable's directory, or below the working directory when the
      executable has none. */
  lemma StagedWhere(os: Os, exe: string, workingDir: string)
    requires PlainName(os, GetFileName(os, exe)) && workingDir != ""
    requires GetDirectoryName(os, exe).Some? ==> GetDirectoryName(os, exe).value != ""
    ensures var dir := if GetDirectoryName(os, exe).Some? then GetDirectoryName(os, exe).value else workingDir;
            && TempUpdateDir(os, exe, workingDir) == Based(os, dir) + "LastVersion"
            && StagedExecutable(os, exe, workingDir) == Based(os, dir) + "LastVersion" + [Sep(os)] + GetFileName(os, exe)
  {
    hide GetDirectoryName, GetFileName;
    var dir := if GetDirectoryName(os, exe).Some? then GetDirectoryName(os, exe).value else workingDir;
    StagedIs(os, dir, GetFileName(os, exe));
    NameLetters(0);
  }

  /** The update path round trip. Started from its staged copy, `FinishUpdate` hands back the directory
      and file name the update was staged from, exactly when that directory does not already contain
      "LastVersion" anywhere. */
  lemma StagingRoundTrip(os: Os, exe: string, workingDir: string)
    requires GetDirectoryName(os, exe).Some? && GetDirectoryName(os, exe).value != ""
    requires PlainName(os, GetFileName(os, exe))
    ensures var dir, name := GetDirectoryName(os, exe).value, GetFileName(os, exe);
            var back := FinishUpdatePath(os, StagedExecutable(os, exe, workingDir));
            back == Some(Combine(os, dir, name)) <==> !Contains(dir, LAST_VERSION)
  {
    hide GetDirectoryName, Pending, IndexOf, Slashed, GetFileName, Combine;
    var dir, name := GetDirectoryName(os, exe).value, GetFileName(os, exe);
    StagedIs(os, dir, name);
    var base := Based(os, dir);
    var staged := base + LAST_VERSION + [Sep(os)] + name;
    StagedIsPending(os, dir, name);
    PendingHasName(staged);
    assert staged == base + LAST_VERSION + ([Sep(os)] + name);
    FirstOccurrence(os, dir, [Sep(os)] + name);
    FileNameOf(os, base + LAST_VERSION + [Sep(os)], name);
    CombineName(os, staged[..IndexOf(staged, LAST_VERSION)], name);
    assert staged[..|base|] == base;
  }

  /** For the paths an operating system reports, that is the executable itself. */
  lemma RoundTripReturnsExecutable(os: Os, exe: string, workingDir: string)
    requires Normal(os, exe) && PlainName(os, GetFileName(os, exe))
    requires GetDirectoryName(os, exe).Some? && GetDirectoryName(os, exe).value != ""
    requires !(os.Windows? && RootLength(os, exe) == 2)
    ensures FinishUpdatePath(os, StagedExecutable(os, exe, workingDir)) == Some(exe)
      <==> !Contains(GetDirectoryName(os, exe).value, LAST_VERSION)
  {
    hide FinishUpdatePath, StagedExecutable, GetDirectoryName, GetFileName, Contains;
    assert !Rooted(os, GetFileName(os, exe));
    StagingRoundTrip(os, exe, workingDir);
    SplitAndCombine(os, exe);
  }

  // ---------- the relaunch ends ----------

  /** Nothing before the first "LastVersion" contains it. */
  lemma OriginalIsFree(exe: string)
    requires Pending(exe)
    ensures forall i :: !OccursAt(OriginalPath(exe), LAST_VERSION, i)
  {
    PendingHasName(exe);
    var n := IndexOf(exe, LAST_VERSION);
    forall i
      ensures !OccursAt(exe[..n], LAST_VERSION, i)
    {
      if 0 <= i && i + 11 <= n {
        assert exe == exe[..n] + exe[n..];
        OccursInPrefix(exe[..n], exe[n..], i);
      }
    }
  }

  lemma BasedIs(os: Os, dir: string)
    requires dir != ""
    ensures var base := Based(os, dir);
            && |dir| <= |base| <= |dir| + 1 && base[..|dir|] == dir && IsSep(os, base[|base| - 1])
  {
  }

  /** The name does not occur across the end of a directory that does not contain it. */
  lemma NotBefore(os: Os, orig: string, name: string, i: int)
    requires orig != "" && forall k :: !OccursAt(orig, LAST_VERSION, k)
    requires i <= |Based(os, orig)| - 1
    ensures !OccursAt(Based(os, orig) + name, LAST_VERSION, i)
  {
    hide OccursAt, Based;
    BasedIs(os, orig);
    var base := Based(os, orig);
    var back, c := base + name, |base| - 1;
    assert back[c] == base[c];
    if OccursAt(back, LAST_VERSION, i) {
      NoOccurrenceAcross(back, i, c);
      assert back[..|orig|] == base[..|orig|];
      assert back == orig + back[|orig|..];
      OccursInPrefix(orig, back[|orig|..], i);
    }
  }

  /** Where the marker occurs in the path that is handed back: only from its last separator on. */
  lemma MarkInReturned(os: Os, orig: string, name: string, j: int)
    requires orig != "" && forall i :: !OccursAt(orig, LAST_VERSION, i)
    ensures var base := Based(os, orig);
            OccursAt(Slashed(base + name), MARK, j) <==>
              j >= |base| - 1 && OccursAt(Slashed("/" + name), MARK, j - (|base| - 1))
  {
    hide Slashed, OccursAt, Based;
    BasedIs(os, orig);
    var c := |Based(os, orig)| - 1;
    MarkAt(Based(os, orig) + name, j);
    if j >= c {
      MarkAt("/" + name, j - c);
      SuffixOccurrence(Based(os, orig) + name, "/" + name, c, j);
    } else {
      NotBefore(os, orig, name, j + 1);
    }
  }

  /** The exact condition under which the program that is started after the update takes itself for a
      staged copy again: its file name, as it follows the last separator, contains the marker. */
  lemma RelaunchPendingIff(os: Os, exe: string)
    requires Pending(exe) && PlainName(os, GetFileName(os, exe))
    ensures Pending(FinishUpdatePath(os, exe).value) <==>
      Pending((if OriginalPath(exe) == "" then "" else "/") + GetFileName(os, exe))
  {
    hide GetFileName, Slashed, IndexOf, OccursAt, OriginalPath;
    var orig, name := OriginalPath(exe), GetFileName(os, exe);
    CombineName(os, orig, name);
    if orig != "" {
      var base := Based(os, orig);
      OriginalIsFree(exe);
      forall j: int
        ensures OccursAt(Slashed(base + name), MARK, j) <==>
          j >= |base| - 1 && OccursAt(Slashed("/" + name), MARK, j - (|base| - 1))
      {
        MarkInReturned(os, orig, name, j);
      }
      ShiftedContains(Slashed(base + name), Slashed("/" + name), MARK, |base| - 1);
    } else {
      assert "" + name == name;
    }
  }

  lemma SuffixOccurrence(s: string, t: string, c: nat, j: int)
    requires c < |s| && |t| == |s| - c && j >= c && s[c + 1..] == t[1..]
    ensures OccursAt(s, LAST_VERSION, j + 1) <==> OccursAt(t, LAST_VERSION, j + 1 - c)
    ensures forall k :: c < k < |s| ==> s[k] == t[k - c]
  {
  }

  lemma ShiftedContains(s: string, t: string, pattern: string, c: nat)
    requires forall j: int :: OccursAt(s, pattern, j) <==> j >= c && OccursAt(t, pattern, j - c)
    ensures Contains(s, pattern) <==> Contains(t, pattern)
  {
    var i, k := IndexOf(s, pattern), IndexOf(t, pattern);
    if i != -1 {
      assert OccursAt(t, pattern, i - c);
    }
    if k != -1 {
      assert OccursAt(s, pattern, k + c);
    }
  }

  /** The process chain ends: without a backslash in its file name, the program that is started after the
      update never finishes the update a second time. */
  lemma RelaunchNotPending(os: Os, exe: string)
    requires Pending(exe) && PlainName(os, GetFileName(os, exe)) && '\\' !in GetFileName(os, exe)
    ensures !Pending(FinishUpdatePath(os, exe).value)
    ensures FinishUpdatePath(os, FinishUpdatePath(os, exe).value) == None
  {
    hide GetFileName, Slashed;
    var name := GetFileName(os, exe);
    RelaunchPendingIff(os, exe);
    var tail := (if OriginalPath(exe) == "" then "" else "/") + name;
    forall j: int
      ensures !OccursAt(Slashed(tail), MARK, j)
    {
      MarkAt(tail, j);
      assert forall k :: |tail| - |name| <= k < |tail| ==> tail[k] == name[k - (|tail| - |name|)];
      assert forall k :: 1 <= k < |tail| ==> tail[k] in name;
    }
  }

  lemma BackslashName(rest: string)
    requires '/' !in rest
    ensures var name := LAST_VERSION + "\\" + rest; forall k :: 0 <= k < |name| ==> name[k] != '/'
  {
    var name := LAST_VERSION + "\\" + rest;
    forall k | 0 <= k < |name|
      ensures name[k] != '/'
    {
      if k < 11 {
        NameLetters(k);
      } else if k > 11 {
        assert name[k] == rest[k - 12];
      }
    }
  }

  /** With a backslash in a Unix file name the chain need not end: each of these paths is pending and is
      handed back unchanged. */
  lemma RelaunchFixedPoint(dir: string, rest: string)
    requires dir != "" && !Contains(dir, LAST_VERSION) && '/' !in rest
    ensures var exe := Based(Unix, dir) + (LAST_VERSION + "\\" + rest);
            FinishUpdatePath(Unix, exe) == Some(exe)
  {
    hide Slashed, IndexOf;
    var base, name := Based(Unix, dir), LAST_VERSION + "\\" + rest;
    var exe := base + name;
    BackslashName(rest);
    FileNameOf(Unix, base, name);
    assert exe == base + LAST_VERSION + ("\\" + rest);
    FirstOccurrence(Unix, dir, "\\" + rest);
    assert exe[|base|..|base| + 11] == LAST_VERSION && exe[|base| + 11] == '\\';
    assert exe[|base| - 1] == '/';
    MarkAt(exe, |base| - 1);
    Found(Slashed(exe), MARK, |base| - 1);
    assert exe[..|base|] == base;
  }
}

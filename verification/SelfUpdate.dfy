/** The self-update on a disk: staging, the copy over the old installation, and the clean-up. */
module SelfUpdate {
  import opened Bytes
  import opened Paths
  import opened UpdatePaths

  type Disk = map<string, seq<byte>>

  const OLD_NAME := "DirectPackageInstaller.exe"

  /** `p` lies in the directory tree `dir`. */
  predicate Under(os: Os, dir: string, p: string) { Based(os, dir) <= p }

  /** What a recursive deletion leaves that got only so far: of the tree, the files in `kept`. */
  function Without(os: Os, d: Disk, dir: string, kept: set<string>): Disk
  {
    map p | p in d && (Under(os, dir, p) ==> p in kept) :: d[p]
  }

  function RemoveTree(os: Os, d: Disk, dir: string): Disk { Without(os, d, dir, {}) }

  // ---------- the environment ----------

  class FileSystem {
    var files: Disk
    ghost var attempts: nat  // deletions tried so far
    ghost var failed: bool  // an operation has failed that could have been done

    constructor (disk: Disk)
      ensures files == disk && !failed
    {
      files, attempts, failed := disk, 0, false;
    }

    /** One guarded deletion: done, or an exception. */
    method TryDelete(path: string) returns (done: bool)
      modifies this
      ensures files == if done then old(files) - {path} else old(files)
      ensures attempts == old(attempts) + 1 && failed == (old(failed) || !done)
    {
      attempts := attempts + 1;
      done := *;
      if done {
        files := files - {path};
      } else {
        failed := true;
      }
    }

    /** Overwriting copy. When it fails, be it because there is nothing to copy, the target may be left in
        any state. */
    method Copy(from: string, to: string) returns (ok: bool)
      modifies this
      ensures ok ==> from in old(files) && files == old(files)[to := old(files)[from]]
      ensures files - {to} == old(files) - {to}
      ensures failed == (old(failed) || (!ok && from in old(files)))
    {
      ok := *;
      if ok && from in files {
        files := files[to := files[from]];
      } else {
        ok := false;
        failed := failed || from in files;
        var torn: bool := *;
        var rubbish: seq<byte> := *;
        files := if torn then files[to := rubbish] else files - {to};
      }
    }

    /** A recursive deletion: done, or an exception somewhere on the way. */
    method DeleteTree(os: Os, dir: string) returns (done: bool, ghost kept: set<string>)
      modifies this`files, this`failed
      ensures files == Without(os, old(files), dir, kept)
      ensures done ==> kept == {}
      ensures failed == (old(failed) || !done)
    {
      done := *;
      var left: set<string> := *;
      if done {
        left := {};
      }
      kept := left;
      files := Without(os, files, dir, left);
      failed := failed || !done;
    }

    /** All files whose path starts with `prefix`, in any order. */
    method GetFiles(prefix: string) returns (listing: seq<string>)
      ensures forall f :: f in listing <==> f in files && prefix <= f
      ensures Distinct(listing)
    {
      listing := [];
      var rest := set f | f in files && prefix <= f;
      while rest != {}
        invariant forall f :: f in listing || f in rest <==> f in files && prefix <= f
        invariant Distinct(listing) && forall f :: f in listing ==> f !in rest
        decreases |rest|
      {
        var f :| f in rest;
        listing := listing + [f];
        rest := rest - {f};
      }
    }

    /** Deletes with up to ten attempts; only after the tenth it gives up, silently. */
    method Delete(path: string)
      modifies this
      ensures old(attempts) < attempts <= old(attempts) + 10
      ensures files == old(files) - {path} || (files == old(files) && attempts == old(attempts) + 10)
      ensures failed == (old(failed) || attempts > old(attempts) + 1 || files != old(files) - {path})
    {
      var tries := 0;
      while tries < 10
        invariant files == old(files) && 0 <= tries <= 10 && attempts == old(attempts) + tries
        invariant failed == (old(failed) || tries > 0)
        decreases 10 - tries
      {
        var done := TryDelete(path);
        if done {
          break;
        }
        tries := tries + 1;
      }
    }
  }

  predicate Distinct(listing: seq<string>)
  {
    forall i, j :: 0 <= i < j < |listing| ==> listing[i] != listing[j]
  }

  // ---------- the clean-up ----------

  function OldExecutable(os: Os, dir: string): string { Combine(os, dir, OLD_NAME) }

  /** The disk after a program that is not a staged copy has cleaned up. */
  function CleanUp(os: Os, d: Disk, exe: string, workingDir: string): Disk
  {
    var cleared := RemoveTree(os, d, TempUpdateDir(os, exe, workingDir));
    var dir := GetDirectoryName(os, exe);
    if dir.None? || dir.value == "" then cleared else cleared - {OldExecutable(os, dir.value)}
  }

  /** Tells whether an update is pending. If none is, it removes the staging tree and the executable under
      its old name, unless the latter resists ten attempts. An exception while the tree is removed leaves
      the method, but on Android, where nothing else is done. No answer stands for the exception. */
  method FinishUpdatePending(fs: FileSystem, os: Os, android: bool, exe: string, workingDir: string)
    returns (pending: Option<bool>, ghost kept: set<string>)
    modifies fs
    ensures pending == Some(true) <==> !android && Pending(exe)
    ensures pending == Some(true) ==> fs.files == old(fs.files)
    ensures android ==> pending == Some(false)
    ensures android || pending.None? ==> fs.files == Without(os, old(fs.files), TempUpdateDir(os, exe, workingDir), kept)
    ensures !android && pending == Some(false) ==>
      || fs.files == CleanUp(os, old(fs.files), exe, workingDir)
      || fs.files == RemoveTree(os, old(fs.files), TempUpdateDir(os, exe, workingDir))
    ensures pending == Some(true) ==> fs.failed == old(fs.failed)
    ensures !fs.failed ==>
      && !old(fs.failed) && pending.Some?
      && (pending == Some(false) ==>
            fs.files == if android then RemoveTree(os, old(fs.files), TempUpdateDir(os, exe, workingDir))
                        else CleanUp(os, old(fs.files), exe, workingDir))
  {
    hide Pending, GetDirectoryName, TempUpdateDir, Without, OldExecutable;
    var done;
    kept := {};
    if android {
      done, kept := fs.DeleteTree(os, TempUpdateDir(os, exe, workingDir));
      return Some(false), kept;
    }
    if Pending(exe) {
      return Some(true), kept;
    }
    done, kept := fs.DeleteTree(os, TempUpdateDir(os, exe, workingDir));
    if !done {
      return None, kept;
    }
    var dir := GetDirectoryName(os, exe);
    if dir.None? || dir.value == "" {
      return Some(false), kept;
    }
    var oldExecutable := OldExecutable(os, dir.value);
    assert oldExecutable !in fs.files ==> fs.files - {oldExecutable} == fs.files;
    if oldExecutable in fs.files {
      fs.Delete(oldExecutable);
    }
    return Some(false), kept;
  }

  predicate TreeExists(os: Os, d: Disk, dir: string) { exists p :: p in d && Under(os, dir, p) }

  /** The thread that `FinishUpdate` leaves behind when no update is pending: it removes the staging tree
      and gives up after five failures. */
  method CleanUpThread(fs: FileSystem, os: Os, dir: string) returns (failures: nat, ghost kept: set<string>)
    modifies fs
    ensures fs.files == Without(os, old(fs.files), dir, kept)
    ensures failures <= 5 && (failures < 5 ==> fs.files == RemoveTree(os, old(fs.files), dir))
    ensures fs.failed == (old(fs.failed) || failures > 0)
  {
    failures, kept := 0, fs.files.Keys;
    assert fs.files == Without(os, fs.files, dir, kept);
    while failures < 5 && TreeExists(os, fs.files, dir)
      invariant fs.files == Without(os, old(fs.files), dir, kept) && failures <= 5
      invariant fs.failed == (old(fs.failed) || failures > 0)
      decreases 5 - failures, TreeExists(os, fs.files, dir)
    {
      ghost var before := fs.files;
      var done, left := fs.DeleteTree(os, dir);
      assert Without(os, before, dir, left) == Without(os, old(fs.files), dir, kept * left);
      kept := kept * left;
      if !done {
        failures := failures + 1;
      }
    }
    if failures < 5 {
      assert fs.files == RemoveTree(os, old(fs.files), dir);
    }
  }

  // ---------- the copy loop ----------

  /** Where a pending update copies from and to. */
  datatype Plan = Plan(os: Os, original: string, running: string)

  /** `TrimStart('\\', '/')`. */
  function TrimStart(s: string): (r: string)
    ensures r != "" ==> r[0] != '/' && r[0] != '\\'
  {
    if s != "" && (s[0] == '/' || s[0] == '\\') then TrimStart(s[1..]) else s
  }

  /** Nothing but separators is taken off the start. */
  lemma {:induction false} TrimStartIs(s: string) returns (k: nat)
    ensures k <= |s| && TrimStart(s) == s[k..] && forall i :: 0 <= i < k ==> s[i] == '/' || s[i] == '\\'
  {
    if s != "" && (s[0] == '/' || s[0] == '\\') {
      k := TrimStartIs(s[1..]);
      assert s[1..][k..] == s[k + 1..];
      assert forall i :: 1 <= i < k + 1 ==> s[i] == s[1..][i - 1];
      k := k + 1;
    } else {
      k := 0;
    }
  }

  function Base(plan: Plan, file: string): string
  {
    if |file| < |plan.running| then "" else TrimStart(file[|plan.running|..])
  }

  function Source(plan: Plan, file: string): string { Combine(plan.os, plan.running, Base(plan, file)) }

  function Target(plan: Plan, file: string): string { Combine(plan.os, plan.original, Base(plan, file)) }

  function CopyOne(plan: Plan, d: Disk, file: string): Disk
  {
    if Source(plan, file) in d then d[Target(plan, file) := d[Source(plan, file)]] else d
  }

  /** The disk after the copy loop, when every copy succeeds. */
  function CopyAll(plan: Plan, d: Disk, listing: seq<string>): Disk
  {
    if listing == [] then d
    else CopyOne(plan, CopyAll(plan, d, listing[..|listing| - 1]), listing[|listing| - 1])
  }

  /** Two disks agree at a path. */
  predicate Same(d: Disk, e: Disk, p: string) { (p in d <==> p in e) && (p in d ==> d[p] == e[p]) }

  predicate IsTarget(plan: Plan, listing: seq<string>, p: string)
  {
    exists i :: 0 <= i < |listing| && Target(plan, listing[i]) == p
  }

  ghost predicate OnlyTargetsChange(plan: Plan, listing: seq<string>, before: Disk, after: Disk)
  {
    forall p :: !IsTarget(plan, listing, p) ==> Same(after, before, p)
  }

  /** No file of the listing is its own target. */
  predicate NoSelfCopy(plan: Plan, listing: seq<string>)
  {
    forall i :: 0 <= i < |listing| ==> Source(plan, listing[i]) != Target(plan, listing[i])
  }

  /** None whose source exists. */
  predicate NoLiveSelfCopy(plan: Plan, d: Disk, listing: seq<string>)
  {
    forall i :: 0 <= i < |listing| && Source(plan, listing[i]) in d ==> Source(plan, listing[i]) != Target(plan, listing[i])
  }

  /** The copy loop of `FinishUpdate`. Whether a deletion succeeds makes no difference to the outcome;
      if a copy fails, everything that is not a target is still as it was. When no operation fails, the
      loop fails if an existing file is its own target, because that is deleted first, and it does not
      fail if no file is. */
  method CopyLoop(fs: FileSystem, plan: Plan, listing: seq<string>) returns (ok: bool)
    modifies fs
    ensures ok ==> fs.files == CopyAll(plan, old(fs.files), listing)
    ensures OnlyTargetsChange(plan, listing, old(fs.files), fs.files)
    ensures old(fs.failed) ==> fs.failed
    ensures !fs.failed ==> (NoSelfCopy(plan, listing) ==> ok) && (ok ==> NoLiveSelfCopy(plan, old(fs.files), listing))
  {
    hide Source, Target;
    ghost var disk := fs.files;
    for i := 0 to |listing|
      invariant fs.files == CopyAll(plan, disk, listing[..i])
      invariant forall p :: !IsTarget(plan, listing, p) ==> Same(fs.files, disk, p)
      invariant (old(fs.failed) ==> fs.failed) && disk.Keys <= fs.files.Keys
      invariant !fs.failed ==> NoLiveSelfCopy(plan, disk, listing[..i])
    {
      var file := listing[i];
      assert listing[..i + 1][..i] == listing[..i];
      var upPath, olPath := Source(plan, file), Target(plan, file);
      assert IsTarget(plan, listing, olPath);
      if upPath in fs.files {
        ghost var before := fs.files;
        fs.Delete(olPath);
        ghost var deleted := fs.files;
        ok := fs.Copy(upPath, olPath);
        KeptElsewhere(before, deleted, fs.files, olPath);
        forall p | !IsTarget(plan, listing, p)
          ensures Same(fs.files, disk, p)
        {
          assert Same(before, disk, p) && Same(fs.files, before, p);
        }
        if !ok {
          return;
        }
      }
    }
    assert listing[..|listing|] == listing;
    ok := true;
  }

  lemma KeptElsewhere(before: Disk, deleted: Disk, after: Disk, target: string)
    requires deleted == before - {target} || deleted == before
    requires after - {target} == deleted - {target}
    ensures forall p :: p != target ==> Same(after, before, p)
  {
    forall p | p != target
      ensures Same(after, before, p)
    {
      assert p in after <==> p in after - {target};
      assert p in deleted <==> p in deleted - {target};
      assert p in after ==> after[p] == (after - {target})[p] == deleted[p];
    }
  }

  /** A path to be started, or nothing to finish, or an exception. */
  datatype Outcome = Start(path: string) | NoUpdate | Thrown

  /** A pending program lies in a directory. */
  lemma PendingHasDirectory(os: Os, exe: string)
    requires Pending(exe)
    ensures GetDirectoryName(os, exe).Some?
  {
    hide Normalize;
    MarkAt(exe, IndexOf(Slashed(exe), MARK));
  }

  /** The directories a program computes that finishes its update. */
  function PlanOf(os: Os, exe: string): Plan
    requires Pending(exe)
  {
    PendingHasDirectory(os, exe);
    Plan(os, OriginalPath(exe), GetDirectoryName(os, exe).value)
  }

  /** After a clean-up there is nothing left for the thread to remove. */
  lemma NothingLeft(os: Os, d: Disk, exe: string, workingDir: string)
    ensures var temp := TempUpdateDir(os, exe, workingDir);
            && RemoveTree(os, RemoveTree(os, d, temp), temp) == RemoveTree(os, d, temp)
            && RemoveTree(os, CleanUp(os, d, exe, workingDir), temp) == CleanUp(os, d, exe, workingDir)
  {
    hide GetDirectoryName, TempUpdateDir, OldExecutable, Based;
  }

  /** `listing` lists each file of a directory tree once. */
  ghost predicate ListsTree(os: Os, d: Disk, dir: string, listing: seq<string>)
  {
    Distinct(listing) && forall f :: f in listing <==> f in d && Under(os, dir, f)
  }

  /** Nothing but files of the staging tree and the executable under its old name is gone. */
  ghost predicate OnlyCleaned(os: Os, android: bool, exe: string, workingDir: string, before: Disk, after: Disk)
  {
    && (forall p :: p in after ==> Same(after, before, p))
    && forall p :: p !in after && p in before ==>
         || Under(os, TempUpdateDir(os, exe, workingDir), p)
         || (!android && GetDirectoryName(os, exe).Some? && p == OldExecutable(os, GetDirectoryName(os, exe).value))
  }

  /** `FinishUpdate`: a staged copy copies everything from its directory to where it was staged from; any
      other program only cleans up. */
  method FinishUpdate(fs: FileSystem, os: Os, android: bool, exe: string, workingDir: string)
    returns (outcome: Outcome, ghost listing: seq<string>)
    modifies fs
    ensures outcome.Start? ==>
      && !android && Pending(exe) && FinishUpdatePath(os, exe) == Some(outcome.path)
      && fs.files == CopyAll(PlanOf(os, exe), old(fs.files), listing)
    ensures !android && Pending(exe) ==>
      && !outcome.NoUpdate? && ListsTree(os, old(fs.files), PlanOf(os, exe).running, listing)
      && OnlyTargetsChange(PlanOf(os, exe), listing, old(fs.files), fs.files)
    ensures android || !Pending(exe) ==>
      && !outcome.Start? && OnlyCleaned(os, android, exe, workingDir, old(fs.files), fs.files)
    ensures old(fs.failed) ==> fs.failed
    ensures !fs.failed && (android || !Pending(exe)) ==>
      && outcome.NoUpdate?
      && fs.files == if android then RemoveTree(os, old(fs.files), TempUpdateDir(os, exe, workingDir))
                     else CleanUp(os, old(fs.files), exe, workingDir)
    ensures !fs.failed && !android && Pending(exe) ==>
      && (NoSelfCopy(PlanOf(os, exe), listing) ==> outcome.Start?)
      && (outcome.Start? ==> NoLiveSelfCopy(PlanOf(os, exe), old(fs.files), listing))
  {
    hide GetDirectoryName, GetFileName, OriginalPath, Pending, CopyAll, IsTarget, OldExecutable, TempUpdateDir,
         NoSelfCopy, NoLiveSelfCopy;
    listing := [];
    var pending, kept := FinishUpdatePending(fs, os, android, exe, workingDir);
    if pending.None? {
      return Thrown, listing;
    }
    if !pending.value {
      var failures, left := CleanUpThread(fs, os, TempUpdateDir(os, exe, workingDir));
      NothingLeft(os, old(fs.files), exe, workingDir);
      return NoUpdate, listing;
    }
    PendingHasDirectory(os, exe);
    var plan := Plan(os, OriginalPath(exe), GetDirectoryName(os, exe).value);
    var files := fs.GetFiles(Based(os, plan.running));
    listing := files;
    var ok := CopyLoop(fs, plan, files);
    if ok {
      outcome := Start(Combine(os, plan.original, GetFileName(os, exe)));
    } else {
      outcome := Thrown;
    }
  }

  /** A program that takes itself for a staged copy because of a backslash in its Unix file name runs where
      it would copy to: each file of its directory is its own target, and is deleted. */
  lemma BackslashSelfCopy(dir: string, rest: string, file: string)
    requires dir != "" && Normal(Unix, dir) && !Contains(dir, LAST_VERSION) && '/' !in rest
    ensures var exe := Based(Unix, dir) + (LAST_VERSION + "\\" + rest);
            && Pending(exe)
            && (Base(PlanOf(Unix, exe), file) != "" ==> Source(PlanOf(Unix, exe), file) == Target(PlanOf(Unix, exe), file))
  {
    hide Base, IndexOf, Pending, GetDirectoryName, Contains;
    var base, name := Based(Unix, dir), LAST_VERSION + "\\" + rest;
    var exe := base + name;
    RelaunchFixedPoint(dir, rest);
    assert Pending(exe);
    assert exe == base + LAST_VERSION + ("\\" + rest);
    FirstOccurrence(Unix, dir, "\\" + rest);
    assert exe[..|base|] == base;
    BackslashDirectory(dir, rest);
    BaseUnrooted(PlanOf(Unix, exe), file);
  }

  lemma BaseUnrooted(plan: Plan, file: string)
    requires plan.os.Unix?
    ensures !Rooted(plan.os, Base(plan, file))
  {
  }

  /** On Unix, a directory in front of a single slash is cut off right before it. */
  lemma UnixRoot(p: string, i: nat)
    requires i < |p| && p[i] == '/' && (i > 0 ==> p[i - 1] != '/')
    ensures var root := RootLength(Unix, p);
            && root == (if p[0] == '/' then 1 else 0)
            && TrimSeps(Unix, p, if i < root then root else i, root) == if i < root then root else i
  {
  }

  lemma BackslashDirectory(dir: string, rest: string)
    requires dir != "" && Normal(Unix, dir) && '/' !in rest
    ensures var running := GetDirectoryName(Unix, Based(Unix, dir) + (LAST_VERSION + "\\" + rest));
            running.Some? && running.value != "" && Based(Unix, running.value) == Based(Unix, dir)
  {
    hide Normalize, TrimSeps, RootLength;
    var base, name := Based(Unix, dir), LAST_VERSION + "\\" + rest;
    var p := base + name;
    BackslashName(rest);
    var i := |base| - 1;
    assert p[i] == base[i] == '/';
    assert forall k :: i < k < |p| ==> p[k] == name[k - |base|];
    assert LastSep(Unix, p) == i;
    var root := RootLength(Unix, p);
    assert forall k :: 0 <= k < i ==> p[k] == base[k] == dir[k];
    UnixRoot(p, i);
    var cut := if i < root then root else i;
    assert Normal(Unix, p[..cut]);
    NormalizeNormal(Unix, p[..cut]);
    if i < root {
      assert p[..cut] == base;
    } else {
      assert p[..cut] + ['/'] == base;
    }
  }

  // ---------- the outcome of the copy loop ----------

  /** `r` is `d` overlaid with the source of every file of the listing that exists. */
  ghost predicate IsOverlay(plan: Plan, d: Disk, listing: seq<string>, r: Disk)
  {
    && (forall p :: p in r <==> p in d || IsLiveTarget(plan, d, listing, p))
    && (forall i :: 0 <= i < |listing| && Source(plan, listing[i]) in d ==>
          Target(plan, listing[i]) in r && r[Target(plan, listing[i])] == d[Source(plan, listing[i])])
    && (forall p :: p in d && !IsLiveTarget(plan, d, listing, p) ==> p in r && r[p] == d[p])
  }

  predicate IsLiveTarget(plan: Plan, d: Disk, listing: seq<string>, p: string)
  {
    exists i :: 0 <= i < |listing| && Source(plan, listing[i]) in d && Target(plan, listing[i]) == p
  }

  /** No file is copied onto a staged file. */
  predicate NoOverlap(plan: Plan, listing: seq<string>)
  {
    forall i, j :: 0 <= i < |listing| && 0 <= j < |listing| ==> Target(plan, listing[i]) != Source(plan, listing[j])
  }

  /** Files with one target have one source. */
  predicate Consistent(plan: Plan, listing: seq<string>)
  {
    forall i, j :: 0 <= i < |listing| && 0 <= j < |listing| && Target(plan, listing[i]) == Target(plan, listing[j])
      ==> Source(plan, listing[i]) == Source(plan, listing[j])
  }

  lemma LiveTargetStep(plan: Plan, d: Disk, init: seq<string>, file: string, p: string)
    ensures IsLiveTarget(plan, d, init + [file], p) <==>
      IsLiveTarget(plan, d, init, p) || (Source(plan, file) in d && p == Target(plan, file))
  {
    hide Source, Target;
    var listing := init + [file];
    if IsLiveTarget(plan, d, init, p) {
      var i :| 0 <= i < |init| && Source(plan, init[i]) in d && Target(plan, init[i]) == p;
      assert listing[i] == init[i];
    }
    assert listing[|init|] == file;
  }

  lemma OverlayStep(plan: Plan, d: Disk, init: seq<string>, file: string, r: Disk)
    requires IsOverlay(plan, d, init, r) && !IsLiveTarget(plan, d, init, Source(plan, file))
    requires forall i :: 0 <= i < |init| && Target(plan, init[i]) == Target(plan, file)
               ==> Source(plan, init[i]) == Source(plan, file)
    ensures IsOverlay(plan, d, init + [file], CopyOne(plan, r, file))
  {
    hide Source, Target, IsLiveTarget;
    forall p
      ensures IsLiveTarget(plan, d, init + [file], p) <==>
        IsLiveTarget(plan, d, init, p) || (Source(plan, file) in d && p == Target(plan, file))
    {
      LiveTargetStep(plan, d, init, file, p);
    }
  }

  /** The copy loop overlays the old installation with the staged tree. */
  lemma {:induction false} CopyAllOverlays(plan: Plan, d: Disk, listing: seq<string>)
    requires NoOverlap(plan, listing) && Consistent(plan, listing)
    ensures IsOverlay(plan, d, listing, CopyAll(plan, d, listing))
    decreases |listing|
  {
    hide Source, Target, CopyOne;
    if listing != [] {
      var n := |listing| - 1;
      var init := listing[..n];
      CopyAllOverlays(plan, d, init);
      OverlayStep(plan, d, init, listing[n], CopyAll(plan, d, init));
      assert init + [listing[n]] == listing;
    }
  }

  /** An overlay is determined by the set of files copied. */
  lemma OverlayUnique(plan: Plan, d: Disk, l1: seq<string>, l2: seq<string>, r1: Disk, r2: Disk)
    requires IsOverlay(plan, d, l1, r1) && IsOverlay(plan, d, l2, r2)
    requires forall f :: f in l1 <==> f in l2
    ensures r1 == r2
  {
    hide Source, Target;
    forall p
      ensures IsLiveTarget(plan, d, l1, p) <==> IsLiveTarget(plan, d, l2, p)
      ensures p in r1 && p in r2 && IsLiveTarget(plan, d, l1, p) ==> r1[p] == r2[p]
    {
      if IsLiveTarget(plan, d, l1, p) {
        var i :| 0 <= i < |l1| && Source(plan, l1[i]) in d && Target(plan, l1[i]) == p;
        assert l1[i] in l2;
        var j :| 0 <= j < |l2| && l2[j] == l1[i];
      }
      if IsLiveTarget(plan, d, l2, p) {
        var j :| 0 <= j < |l2| && Source(plan, l2[j]) in d && Target(plan, l2[j]) == p;
        assert l2[j] in l1;
        var i :| 0 <= i < |l1| && l1[i] == l2[j];
      }
    }
    assert r1.Keys == r2.Keys;
  }

  /** Without overlap the order in which the operating system lists the staged files does not matter. */
  lemma OrderDoesNotMatter(plan: Plan, d: Disk, l1: seq<string>, l2: seq<string>)
    requires NoOverlap(plan, l1) && Consistent(plan, l1) && NoOverlap(plan, l2) && Consistent(plan, l2)
    requires forall f :: f in l1 <==> f in l2
    ensures CopyAll(plan, d, l1) == CopyAll(plan, d, l2)
  {
    CopyAllOverlays(plan, d, l1);
    CopyAllOverlays(plan, d, l2);
    OverlayUnique(plan, d, l1, l2, CopyAll(plan, d, l1), CopyAll(plan, d, l2));
  }
}

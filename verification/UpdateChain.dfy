/** The whole chain of the self-update: stage, finish from the staged copy, restart, clean up. */
module UpdateChain {
  import opened Bytes
  import opened Paths
  import opened UpdatePaths
  import opened SelfUpdate

  function Prefixed(prefix: string, rels: set<string>): (r: set<string>)
    ensures forall p :: p in r <==> prefix <= p && p[|prefix|..] in rels
  {
    var r := set rel | rel in rels :: prefix + rel;
    PrefixedIff(prefix, rels);
    r
  }

  lemma PrefixedIff(prefix: string, rels: set<string>)
    ensures forall p :: p in (set rel | rel in rels :: prefix + rel) <==> prefix <= p && p[|prefix|..] in rels
  {
    var r := set rel | rel in rels :: prefix + rel;
    forall p
      ensures p in r <==> prefix <= p && p[|prefix|..] in rels
    {
      if p in r {
        var rel :| rel in rels && p == prefix + rel;
        assert p[|prefix|..] == rel;
      }
      if prefix <= p && p[|prefix|..] in rels {
        assert p == prefix + p[|prefix|..];
      }
    }
  }

  /** The files of an archive, unpacked under a prefix. */
  function Unpack(prefix: string, archive: Disk): (r: Disk)
    ensures forall p :: p in r <==> prefix <= p && p[|prefix|..] in archive
    ensures forall p :: p in r ==> r[p] == archive[p[|prefix|..]]
  {
    map p | p in Prefixed(prefix, archive.Keys) :: archive[p[|prefix|..]]
  }

  /** The disk when the staged copy is started: a fresh staging tree with the archive in it. */
  function Stage(os: Os, d: Disk, temp: string, archive: Disk): Disk
  {
    RemoveTree(os, d, temp) + Unpack(Based(os, temp), archive)
  }

  // ---------- staging over a tree that resists ----------

  /** What `DownloadUpdate` stages when removing the old staging tree gets only so far: it goes on. */
  function StageOver(os: Os, d: Disk, temp: string, kept: set<string>, archive: Disk): Disk
  {
    Without(os, d, temp, kept) + Unpack(Based(os, temp), archive)
  }

  /** The files of a tree that are kept, as an archive of their own. */
  function Stale(d: Disk, tree: string, kept: set<string>): (r: Disk)
    ensures forall rel :: rel in r <==> tree + rel in d && tree + rel in kept
    ensures forall rel :: rel in r ==> r[rel] == d[tree + rel]
  {
    var rels := set p | p in kept && p in d && tree <= p :: p[|tree|..];
    forall rel
      ensures rel in rels <==> tree + rel in d && tree + rel in kept
    {
      assert (tree + rel)[|tree|..] == rel;
      assert forall p :: tree <= p && p[|tree|..] == rel ==> p == tree + rel;
    }
    map rel | rel in rels :: d[tree + rel]
  }

  /** Stale files are installed as if the archive contained them, but where it overwrites them. */
  lemma StaleIsStaged(os: Os, d: Disk, temp: string, kept: set<string>, archive: Disk)
    ensures StageOver(os, d, temp, kept, archive) == Stage(os, d, temp, Stale(d, Based(os, temp), kept) + archive)
  {
    hide *;
    var e, f := StageOver(os, d, temp, kept, archive), Stage(os, d, temp, Stale(d, Based(os, temp), kept) + archive);
    forall p
      ensures Same(e, f, p)
    {
      StaleAt(os, d, temp, kept, archive, p);
    }
    SameEverywhere(e, f);
  }

  lemma StaleAt(os: Os, d: Disk, temp: string, kept: set<string>, archive: Disk, p: string)
    ensures Same(StageOver(os, d, temp, kept, archive), Stage(os, d, temp, Stale(d, Based(os, temp), kept) + archive), p)
  {
    hide Stale, Unpack, Based;
    var tree := Based(os, temp);
    if tree <= p {
      assert p == tree + p[|tree|..];
    }
  }

  lemma SameEverywhere(d: Disk, e: Disk)
    requires forall p :: Same(d, e, p)
    ensures d == e
  {
    forall p
      ensures p in d <==> p in e
    {
      assert Same(d, e, p);
    }
    forall p | p in d
      ensures d[p] == e[p]
    {
      assert Same(d, e, p);
    }
  }

  /** `DownloadUpdate` once the archive is there. */
  method StageUpdate(fs: FileSystem, os: Os, temp: string, archive: Disk) returns (ghost kept: set<string>)
    modifies fs
    ensures fs.files == StageOver(os, old(fs.files), temp, kept, archive)
    ensures old(fs.failed) ==> fs.failed
    ensures !fs.failed ==> kept == {}
  {
    var done, left := fs.DeleteTree(os, temp);
    kept := left;
    fs.files := fs.files + Unpack(Based(os, temp), archive);
  }

  // ---------- the ordinary layout ----------

  /** A relative path as it comes out of an archive. */
  predicate PlainRel(os: Os, rel: string)
  {
    rel != "" && rel[0] != '/' && rel[0] != '\\' && !Rooted(os, rel)
  }

  /** The plan of a copy staged from directory `dir`. */
  function StagedPlan(os: Os, dir: string): Plan
  {
    Plan(os, Based(os, dir), Based(os, dir) + LAST_VERSION)
  }

  /** The staging tree of `dir`, with its separator. */
  function Tree(os: Os, dir: string): string { Based(os, dir) + LAST_VERSION + [Sep(os)] }

  lemma TreeIs(os: Os, dir: string)
    requires dir != ""
    ensures Combine(os, dir, LAST_VERSION) == Based(os, dir) + LAST_VERSION
    ensures Based(os, Based(os, dir) + LAST_VERSION) == Tree(os, dir)
    ensures Tree(os, dir) == Based(os, dir) + (LAST_VERSION + [Sep(os)])
  {
  }

  /** A staged copy runs in the directory it was staged to. */
  lemma RunningDirectory(os: Os, dir: string, name: string)
    requires dir != "" && Normal(os, dir) && PlainName(os, name)
    requires RootLength(os, Tree(os, dir) + name) < |Tree(os, dir)|
    ensures GetDirectoryName(os, Tree(os, dir) + name) == Some(StagedPlan(os, dir).running)
  {
    hide Normalize, RootLength;
    var temp := Based(os, dir) + LAST_VERSION;
    var p := Tree(os, dir) + name;
    TreeIs(os, dir);
    assert p == temp + [Sep(os)] + name;
    assert forall k :: |temp| + 1 <= k < |p| ==> p[k] == name[k - |temp| - 1];
    assert p[|temp|] == Sep(os) && LastSep(os, p) == |temp|;
    forall i | 0 <= i < |temp| && IsSep(os, temp[i])
      ensures temp[i] == Sep(os) && (i + 1 < |temp| ==> !IsSep(os, temp[i + 1]))
    {
      if i >= |Based(os, dir)| {
        NameLetters(i - |Based(os, dir)|);
      } else if i + 1 < |Based(os, dir)| {
        assert temp[i] == dir[i];
      } else {
        NameLetters(0);
        assert temp[i + 1] == LAST_VERSION[0];
      }
    }
    NormalizeNormal(os, temp);
    assert p[..|temp|] == temp;
    NameLetters(10);
    assert temp[|temp| - 1] == LAST_VERSION[10];
  }

  lemma CopiedWhere(os: Os, dir: string, rel: string)
    requires dir != "" && PlainRel(os, rel)
    ensures var plan, file := StagedPlan(os, dir), Tree(os, dir) + rel;
            Source(plan, file) == file && Target(plan, file) == Based(os, dir) + rel
  {
    var plan, file := StagedPlan(os, dir), Tree(os, dir) + rel;
    TreeIs(os, dir);
    assert file[|plan.running|..] == [Sep(os)] + rel;
    assert ([Sep(os)] + rel)[1..] == rel;
    assert TrimStart([Sep(os)] + rel) == TrimStart(rel) == rel;
    NameLetters(10);
    assert plan.running[|plan.running| - 1] == LAST_VERSION[10];
  }

  /** `listing` lists the staged files. */
  ghost predicate Lists(os: Os, dir: string, archive: Disk, listing: seq<string>)
  {
    forall f :: f in listing <==> f in Prefixed(Tree(os, dir), archive.Keys)
  }

  /** The path below "LastVersion" of an archive path. */
  function Nested(os: Os, rel: string): string { LAST_VERSION + [Sep(os)] + rel }

  /** Some file of the archive would be copied onto another staged file. */
  predicate StagesItself(os: Os, archive: Disk)
  {
    exists rel :: rel in archive && Nested(os, rel) in archive
  }

  lemma ListedIs(os: Os, dir: string, archive: Disk, listing: seq<string>, i: nat)
    requires dir != "" && Lists(os, dir, archive, listing) && i < |listing|
    requires forall rel :: rel in archive ==> PlainRel(os, rel)
    ensures var plan, rel := StagedPlan(os, dir), Rel(os, dir, listing[i]);
            && rel in archive && listing[i] == Tree(os, dir) + rel
            && Source(plan, listing[i]) == listing[i] && Target(plan, listing[i]) == Based(os, dir) + rel
  {
    hide Source, Target, PlainRel;
    assert listing[i] in listing;
    var rel := Rel(os, dir, listing[i]);
    assert listing[i] == Tree(os, dir) + rel;
    CopiedWhere(os, dir, rel);
  }

  function Rel(os: Os, dir: string, file: string): string
  {
    if |file| < |Tree(os, dir)| then "" else file[|Tree(os, dir)|..]
  }

  lemma ListedAt(os: Os, dir: string, archive: Disk, listing: seq<string>, rel: string) returns (i: nat)
    requires Lists(os, dir, archive, listing) && rel in archive
    ensures i < |listing| && listing[i] == Tree(os, dir) + rel
  {
    var f := Tree(os, dir) + rel;
    assert f[|Tree(os, dir)|..] == rel;
    assert f in Prefixed(Tree(os, dir), archive.Keys);
    i :| i < |listing| && listing[i] == f;
  }

  /** In the ordinary layout no file is copied onto a staged file exactly when no archive path is
      "LastVersion", a separator and another archive path. */
  lemma NoOverlapIff(os: Os, dir: string, archive: Disk, listing: seq<string>)
    requires dir != "" && Lists(os, dir, archive, listing)
    requires forall rel :: rel in archive ==> PlainRel(os, rel)
    ensures NoOverlap(StagedPlan(os, dir), listing) <==> !StagesItself(os, archive)
    ensures Consistent(StagedPlan(os, dir), listing)
  {
    hide Source, Target, Lists, PlainRel, Tree;
    var plan, base := StagedPlan(os, dir), Based(os, dir);
    TreeIs(os, dir);
    forall i, j | 0 <= i < |listing| && 0 <= j < |listing|
      ensures Target(plan, listing[i]) == Source(plan, listing[j]) ==> StagesItself(os, archive)
      ensures Target(plan, listing[i]) == Target(plan, listing[j]) ==> Source(plan, listing[i]) == Source(plan, listing[j])
    {
      ListedIs(os, dir, archive, listing, i);
      ListedIs(os, dir, archive, listing, j);
      var r1, r2 := Rel(os, dir, listing[i]), Rel(os, dir, listing[j]);
      SamePrefix(base, r1, r2);
      assert Source(plan, listing[j]) == base + Nested(os, r2);
      SamePrefix(base, r1, Nested(os, r2));
    }
    if StagesItself(os, archive) {
      var r2 :| r2 in archive && Nested(os, r2) in archive;
      var r1 := Nested(os, r2);
      var i := ListedAt(os, dir, archive, listing, r1);
      var j := ListedAt(os, dir, archive, listing, r2);
      ListedIs(os, dir, archive, listing, i);
      ListedIs(os, dir, archive, listing, j);
      SamePrefix(Tree(os, dir), r1, Rel(os, dir, listing[i]));
      assert Target(plan, listing[i]) == base + r1 == Tree(os, dir) + r2 == Source(plan, listing[j]);
    }
  }

  lemma SamePrefix(prefix: string, a: string, b: string)
    ensures prefix + a == prefix + b <==> a == b
  {
    assert (prefix + a)[|prefix|..] == a && (prefix + b)[|prefix|..] == b;
  }

  lemma PrefixShift(prefix: string, a: string, b: string)
    ensures prefix + a <= prefix + b <==> a <= b
  {
    var p, q := prefix + a, prefix + b;
    if |a| <= |b| {
      assert q[..|p|] == prefix + b[..|a|];
      SamePrefix(prefix, a, b[..|a|]);
    }
  }

  /** A name that starts with a backslash, which Unix allows, is read as the name without it: the file
      itself is not installed. */
  lemma MangledName(os: Os, dir: string, d: Disk, rel: string)
    requires dir != "" && PlainRel(os, TrimStart(rel))
    ensures CopyOne(StagedPlan(os, dir), d, Tree(os, dir) + rel) == CopyOne(StagedPlan(os, dir), d, Tree(os, dir) + TrimStart(rel))
    ensures Target(StagedPlan(os, dir), Tree(os, dir) + rel) == Based(os, dir) + TrimStart(rel)
  {
    hide PlainRel, Base, Tree, Combine, StagedPlan;
    BaseOf(os, dir, rel);
    BaseOf(os, dir, TrimStart(rel));
    TrimTwice(rel);
    CopiedWhere(os, dir, TrimStart(rel));
  }

  lemma BaseOf(os: Os, dir: string, rel: string)
    ensures Base(StagedPlan(os, dir), Tree(os, dir) + rel) == TrimStart(rel)
  {
    hide Based;
    var plan, file := StagedPlan(os, dir), Tree(os, dir) + rel;
    assert file[|plan.running|..] == [Sep(os)] + rel;
    assert ([Sep(os)] + rel)[1..] == rel;
  }

  lemma TrimTwice(s: string)
    ensures TrimStart(TrimStart(s)) == TrimStart(s)
  {
  }

  // ---------- what the copy loop installs ----------

  predicate PlainArchive(os: Os, archive: Disk) { forall rel :: rel in archive ==> PlainRel(os, rel) }

  /** Where a file of the archive is copied onto another staged file, the two have equal contents. */
  predicate Agreeing(os: Os, archive: Disk)
  {
    forall rel :: rel in archive && Nested(os, rel) in archive ==> archive[Nested(os, rel)] == archive[rel]
  }

  /** The files of the archive that a listing of the staging tree contains. */
  function Listed(tree: string, archive: Disk, listing: seq<string>): Disk
  {
    map rel | rel in archive && tree + rel in listing :: archive[rel]
  }

  lemma ListedMore(tree: string, archive: Disk, init: seq<string>, rel: string)
    requires rel in archive
    ensures Listed(tree, archive, init + [tree + rel]) == Listed(tree, archive, init)[rel := archive[rel]]
  {
    forall r
      ensures tree + r in init + [tree + rel] <==> tree + r in init || r == rel
    {
      SamePrefix(tree, r, rel);
    }
  }

  lemma UnpackMore(prefix: string, archive: Disk, rel: string, bytes: seq<byte>)
    ensures Unpack(prefix, archive[rel := bytes]) == Unpack(prefix, archive)[prefix + rel := bytes]
  {
    hide *;
    var d, e := Unpack(prefix, archive[rel := bytes]), Unpack(prefix, archive)[prefix + rel := bytes];
    forall p
      ensures Same(d, e, p)
    {
      UnpackMoreAt(prefix, archive, rel, bytes, p);
    }
    SameEverywhere(d, e);
  }

  lemma UnpackMoreAt(prefix: string, archive: Disk, rel: string, bytes: seq<byte>, p: string)
    ensures Same(Unpack(prefix, archive[rel := bytes]), Unpack(prefix, archive)[prefix + rel := bytes], p)
  {
    hide Unpack;
    if prefix <= p {
      assert p == prefix + p[|prefix|..];
    }
    assert (prefix + rel)[|prefix|..] == rel;
  }

  /** The staged file that is copied next still has the contents it was staged with. */
  lemma StagedKept(os: Os, d: Disk, dir: string, archive: Disk, some: Disk, rel: string)
    requires Agreeing(os, archive) && rel in archive && some.Keys <= archive.Keys
    requires forall r :: r in some ==> some[r] == archive[r]
    requires Tree(os, dir) + rel in d && d[Tree(os, dir) + rel] == archive[rel]
    ensures var r := d + Unpack(Based(os, dir), some); Tree(os, dir) + rel in r && r[Tree(os, dir) + rel] == archive[rel]
  {
    hide Agreeing;
    var base, f := Based(os, dir), Tree(os, dir) + rel;
    assert f == base + Nested(os, rel);
    assert f[|base|..] == Nested(os, rel);
    if f in Unpack(base, some) {
      assert Nested(os, rel) in archive;
      assert archive[Nested(os, rel)] == archive[rel] by { AgreeingAt(os, archive, rel); }
    }
  }

  lemma AgreeingAt(os: Os, archive: Disk, rel: string)
    requires Agreeing(os, archive) && rel in archive && Nested(os, rel) in archive
    ensures archive[Nested(os, rel)] == archive[rel]
  {
  }

  /** Copying staged files, in whatever order, lays them over the disk, when nested copies agree. */
  lemma {:induction false} CopyStaged(os: Os, d: Disk, dir: string, archive: Disk, listing: seq<string>)
    requires dir != "" && PlainArchive(os, archive) && Agreeing(os, archive)
    requires forall rel :: rel in archive ==> Tree(os, dir) + rel in d && d[Tree(os, dir) + rel] == archive[rel]
    requires forall f :: f in listing ==> f in Prefixed(Tree(os, dir), archive.Keys)
    ensures CopyAll(StagedPlan(os, dir), d, listing) == d + Unpack(Based(os, dir), Listed(Tree(os, dir), archive, listing))
    decreases |listing|
  {
    hide PlainRel, Tree, Source, Target, Agreeing, Listed, Unpack, StagedPlan, CopyOne, Prefixed, Based;
    var plan, base, tree := StagedPlan(os, dir), Based(os, dir), Tree(os, dir);
    if listing == [] {
      NothingListed(tree, base, archive, d);
    } else {
      var n := |listing| - 1;
      var init, f := listing[..n], listing[n];
      assert f in listing && listing == init + [f];
      var rel := f[|tree|..];
      assert f == tree + rel;
      CopyStaged(os, d, dir, archive, init);
      var some := Listed(tree, archive, init);
      SomeListed(tree, archive, init);
      StagedKept(os, d, dir, archive, some, rel);
      CopiedWhere(os, dir, rel);
      ListedMore(tree, archive, init, rel);
      UnpackMore(base, some, rel, archive[rel]);
      CopiedOver(plan, d, Unpack(base, some), f, base + rel, archive[rel]);
    }
  }

  lemma CopiedOver(plan: Plan, d: Disk, patch: Disk, f: string, target: string, bytes: seq<byte>)
    requires Source(plan, f) == f && Target(plan, f) == target && f in d + patch && (d + patch)[f] == bytes
    ensures CopyOne(plan, d + patch, f) == d + patch[target := bytes]
  {
    hide Source, Target;
  }

  lemma NothingListed(tree: string, base: string, archive: Disk, d: Disk)
    ensures d + Unpack(base, Listed(tree, archive, [])) == d
  {
  }

  lemma SomeListed(tree: string, archive: Disk, listing: seq<string>)
    ensures var some := Listed(tree, archive, listing);
            some.Keys <= archive.Keys && forall r :: r in some ==> some[r] == archive[r]
  {
  }

  lemma AllListed(os: Os, dir: string, archive: Disk, listing: seq<string>)
    requires Lists(os, dir, archive, listing)
    ensures Listed(Tree(os, dir), archive, listing) == archive
    ensures forall f :: f in listing ==> f in Prefixed(Tree(os, dir), archive.Keys)
  {
    hide Tree;
    forall rel | rel in archive
      ensures Tree(os, dir) + rel in listing
    {
      var i := ListedAt(os, dir, archive, listing, rel);
    }
  }

  lemma StagedThere(os: Os, d: Disk, dir: string, archive: Disk)
    ensures var d1 := Stage(os, d, StagedPlan(os, dir).running, archive);
            forall rel :: rel in archive ==> Tree(os, dir) + rel in d1 && d1[Tree(os, dir) + rel] == archive[rel]
  {
    hide RemoveTree;
    var running := StagedPlan(os, dir).running;
    NameLetters(10);
    assert running[|running| - 1] == LAST_VERSION[10];
    assert Based(os, running) == Tree(os, dir);
    forall rel | rel in archive
      ensures Tree(os, dir) + rel in Unpack(Tree(os, dir), archive) && Unpack(Tree(os, dir), archive)[Tree(os, dir) + rel] == archive[rel]
    {
      assert (Tree(os, dir) + rel)[|Tree(os, dir)|..] == rel;
    }
  }

  /** The copy step of the chain: whatever the order of the listing, the archive lies over the disk. */
  lemma CopyInstalls(os: Os, d: Disk, dir: string, archive: Disk, listing: seq<string>)
    requires dir != "" && PlainArchive(os, archive) && Agreeing(os, archive) && Lists(os, dir, archive, listing)
    ensures var staged := Stage(os, d, StagedPlan(os, dir).running, archive);
            CopyAll(StagedPlan(os, dir), staged, listing) == staged + Unpack(Based(os, dir), archive)
  {
    hide Stage, StagedPlan, Tree, PlainArchive, Agreeing, Lists, Listed, Unpack, CopyAll;
    StagedThere(os, d, dir, archive);
    AllListed(os, dir, archive, listing);
    CopyStaged(os, Stage(os, d, StagedPlan(os, dir).running, archive), dir, archive, listing);
  }

  // ---------- exactly when the listing order does not matter ----------

  lemma {:induction false} CopyAppend(plan: Plan, d: Disk, a: seq<string>, b: seq<string>)
    ensures CopyAll(plan, d, a + b) == CopyAll(plan, CopyAll(plan, d, a), b)
    decreases |b|
  {
    hide CopyOne;
    if b == [] {
      assert a + b == a;
    } else {
      CopyAppend(plan, d, a, b[..|b| - 1]);
      assert (a + b)[..|a + b| - 1] == a + b[..|b| - 1];
    }
  }

  lemma CopyTwo(plan: Plan, d: Disk, f: string, g: string, rest: seq<string>)
    ensures CopyAll(plan, d, [f, g] + rest) == CopyAll(plan, CopyOne(plan, CopyOne(plan, d, f), g), rest)
  {
    hide CopyOne;
    CopyAppend(plan, d, [f, g], rest);
    assert [f, g][..1] == [f];
    assert [f][..0] == [];
    assert CopyAll(plan, d, []) == d;
    assert CopyAll(plan, d, [f]) == CopyOne(plan, d, f);
  }

  /** A path that is no target of the listing stays as it is. */
  lemma {:induction false} CopyLeaves(plan: Plan, d: Disk, listing: seq<string>, p: string)
    requires forall i :: 0 <= i < |listing| ==> Target(plan, listing[i]) != p
    ensures Same(CopyAll(plan, d, listing), d, p)
    decreases |listing|
  {
    hide Source, Target;
    if listing != [] {
      var n := |listing| - 1;
      assert forall i :: 0 <= i < n ==> listing[..n][i] == listing[i];
      CopyLeaves(plan, d, listing[..n], p);
    }
  }

  /** The elements of a set, in some order. */
  lemma {:induction false} Enumerate(s: set<string>) returns (listing: seq<string>)
    ensures Distinct(listing) && forall f :: f in listing <==> f in s
    decreases |s|
  {
    if s == {} {
      listing := [];
    } else {
      var f :| f in s;
      listing := Enumerate(s - {f});
      listing := listing + [f];
    }
  }

  lemma DistinctTwo(f: string, g: string, rest: seq<string>)
    requires Distinct(rest) && f != g && f !in rest && g !in rest
    ensures Distinct([f, g] + rest) && forall x :: x in [f, g] + rest <==> x == f || x == g || x in rest
  {
  }

  /** The first two copies of a listing, the nested file after or before the file it is copied onto. */
  lemma TwoOrders(os: Os, d: Disk, dir: string, archive: Disk, rel: string)
    requires dir != "" && PlainArchive(os, archive) && rel in archive && Nested(os, rel) in archive
    requires forall r :: r in archive ==> Tree(os, dir) + r in d && d[Tree(os, dir) + r] == archive[r]
    ensures var plan, t := StagedPlan(os, dir), Based(os, dir) + rel;
            var f, g := Tree(os, dir) + rel, Tree(os, dir) + Nested(os, rel);
            var d1, d2 := CopyOne(plan, CopyOne(plan, d, f), g), CopyOne(plan, CopyOne(plan, d, g), f);
            f != g && t in d1 && d1[t] == archive[rel] && t in d2 && d2[t] == archive[Nested(os, rel)]
  {
    hide Source, Target, Tree, PlainRel;
    var nested := Nested(os, rel);
    CopiedWhere(os, dir, rel);
    CopiedWhere(os, dir, nested);
    TreeIs(os, dir);
    assert Based(os, dir) + nested == Tree(os, dir) + rel;
    assert |Based(os, dir) + rel| < |Tree(os, dir) + rel| < |Tree(os, dir) + nested|;
  }

  /** When two nested files disagree, two listings of the staging tree install different contents. */
  lemma OrderMatters(os: Os, d: Disk, dir: string, archive: Disk, rel: string) returns (l1: seq<string>, l2: seq<string>)
    requires dir != "" && PlainArchive(os, archive) && rel in archive && Nested(os, rel) in archive
    requires archive[rel] != archive[Nested(os, rel)]
    ensures Lists(os, dir, archive, l1) && Lists(os, dir, archive, l2) && Distinct(l1) && Distinct(l2)
    ensures var plan, d1, t := StagedPlan(os, dir), Stage(os, d, StagedPlan(os, dir).running, archive), Based(os, dir) + rel;
            var r1, r2 := CopyAll(plan, d1, l1), CopyAll(plan, d1, l2);
            t in r1 && r1[t] == archive[rel] && t in r2 && r2[t] == archive[Nested(os, rel)]
  {
    hide Source, Target, Tree, PlainArchive, CopyOne, CopyAll, Stage, StagedPlan;
    var plan, tree, t := StagedPlan(os, dir), Tree(os, dir), Based(os, dir) + rel;
    var d1 := Stage(os, d, plan.running, archive);
    var f, g := tree + rel, tree + Nested(os, rel);
    StagedThere(os, d, dir, archive);
    TwoOrders(os, d1, dir, archive, rel);
    assert f[|tree|..] == rel && g[|tree|..] == Nested(os, rel);
    var rest := Enumerate(Prefixed(tree, archive.Keys) - {f, g});
    l1, l2 := [f, g] + rest, [g, f] + rest;
    DistinctTwo(f, g, rest);
    DistinctTwo(g, f, rest);
    forall i | 0 <= i < |rest|
      ensures Target(plan, rest[i]) != t
    {
      assert rest[i] in rest;
      OtherTarget(os, dir, archive, rest[i], rel);
    }
    CopyTwo(plan, d1, f, g, rest);
    CopyTwo(plan, d1, g, f, rest);
    CopyLeaves(plan, CopyOne(plan, CopyOne(plan, d1, f), g), rest, t);
    CopyLeaves(plan, CopyOne(plan, CopyOne(plan, d1, g), f), rest, t);
  }

  lemma OtherTarget(os: Os, dir: string, archive: Disk, file: string, rel: string)
    requires dir != "" && PlainArchive(os, archive)
    requires file in Prefixed(Tree(os, dir), archive.Keys) && file != Tree(os, dir) + rel
    ensures Target(StagedPlan(os, dir), file) != Based(os, dir) + rel
  {
    hide Target, Tree, PlainRel;
    var r := file[|Tree(os, dir)|..];
    assert file == Tree(os, dir) + r;
    CopiedWhere(os, dir, r);
    SamePrefix(Based(os, dir), r, rel);
  }

  /** Every order in which the staging tree can be listed gives the same disk. */
  ghost predicate OrderFree(os: Os, d: Disk, dir: string, archive: Disk)
  {
    forall l1, l2 :: Lists(os, dir, archive, l1) && Lists(os, dir, archive, l2) ==>
      CopyAll(StagedPlan(os, dir), Stage(os, d, StagedPlan(os, dir).running, archive), l1)
        == CopyAll(StagedPlan(os, dir), Stage(os, d, StagedPlan(os, dir).running, archive), l2)
  }

  /** Exactly when the order does not matter: two files of the archive of which one is copied onto the
      other have equal contents. */
  lemma OrderFreeIff(os: Os, d: Disk, dir: string, archive: Disk)
    requires dir != "" && PlainArchive(os, archive)
    ensures OrderFree(os, d, dir, archive) <==> Agreeing(os, archive)
  {
    hide Lists, CopyAll, Stage, StagedPlan, PlainArchive;
    if Agreeing(os, archive) {
      forall l1, l2 | Lists(os, dir, archive, l1) && Lists(os, dir, archive, l2)
        ensures CopyAll(StagedPlan(os, dir), Stage(os, d, StagedPlan(os, dir).running, archive), l1)
          == CopyAll(StagedPlan(os, dir), Stage(os, d, StagedPlan(os, dir).running, archive), l2)
      {
        CopyInstalls(os, d, dir, archive, l1);
        CopyInstalls(os, d, dir, archive, l2);
      }
    } else {
      var rel :| rel in archive && Nested(os, rel) in archive && archive[Nested(os, rel)] != archive[rel];
      var l1, l2 := OrderMatters(os, d, dir, archive, rel);
    }
  }

  // ---------- the whole chain ----------

  /** An archive whose outcome does not depend on the listing order. */
  predicate Installable(os: Os, archive: Disk) { PlainArchive(os, archive) && Agreeing(os, archive) }

  /** The old installation overlaid with the archive, without a staging tree. */
  function Updated(os: Os, d: Disk, dir: string, archive: Disk): Disk
  {
    RemoveTree(os, d + Unpack(Based(os, dir), archive), Based(os, dir) + LAST_VERSION)
  }

  /** Cleaning up takes away the staging tree and nothing else. */
  lemma TreeRemoved(os: Os, d: Disk, dir: string, archive: Disk)
    requires dir != ""
    ensures var temp := Based(os, dir) + LAST_VERSION;
            RemoveTree(os, Stage(os, d, temp, archive) + Unpack(Based(os, dir), archive), temp) == Updated(os, d, dir, archive)
  {
    hide Prefixed;
    TreeIs(os, dir);
    var temp, patch := Based(os, dir) + LAST_VERSION, Unpack(Based(os, dir), archive);
    var all := Stage(os, d, temp, archive) + patch;
    forall p
      ensures p in RemoveTree(os, all, temp) <==> p in Updated(os, d, dir, archive)
      ensures p in RemoveTree(os, all, temp) ==> RemoveTree(os, all, temp)[p] == Updated(os, d, dir, archive)[p]
    {
      assert p in Unpack(Tree(os, dir), archive) ==> Under(os, temp, p);
    }
  }

  /** A program that can be updated: its path as the system reports it, in a directory whose path does not
      contain "LastVersion", not relative to a Windows drive, without a backslash in its name. */
  predicate Installed(os: Os, exe: string)
  {
    && Normal(os, exe) && PlainName(os, GetFileName(os, exe)) && '\\' !in GetFileName(os, exe)
    && GetDirectoryName(os, exe).Some? && GetDirectoryName(os, exe).value != ""
    && !(os.Windows? && RootLength(os, exe) == 2)
    && !Contains(GetDirectoryName(os, exe).value, LAST_VERSION)
  }

  /** The whole update: staged from an installed executable, finished from the staged copy, and cleaned up
      by the program that copy starts, which is the original executable. The disk is then the old
      installation overlaid with the archive, without staging tree and without the executable under its
      old name, whatever the listing order. */
  lemma UpdateInstalls(os: Os, d: Disk, exe: string, workingDir: string, archive: Disk, listing: seq<string>)
    requires Installed(os, exe)
    requires Installable(os, archive) && Lists(os, GetDirectoryName(os, exe).value, archive, listing)
    ensures var dir := GetDirectoryName(os, exe).value;
            var temp, staged := TempUpdateDir(os, exe, workingDir), StagedExecutable(os, exe, workingDir);
            var finished := CopyAll(StagedPlan(os, dir), Stage(os, d, temp, archive), listing);
            && Pending(staged) && FinishUpdatePath(os, staged) == Some(exe) && !Pending(exe)
            && CleanUp(os, finished, exe, workingDir) == Updated(os, d, dir, archive) - {OldExecutable(os, dir)}
  {
    hide GetDirectoryName, GetFileName, Pending, Contains, CopyAll, Lists, OldExecutable, PlainArchive, Agreeing, Unpack,
         RemoveTree, Tree, FinishUpdatePath, StagedExecutable, Normal, Updated, Stage;
    var dir := GetDirectoryName(os, exe).value;
    TreeIs(os, dir);
    RoundTripReturnsExecutable(os, exe, workingDir);
    StagedNames(os, exe, workingDir);
    RelaunchNotPending(os, StagedExecutable(os, exe, workingDir));
    CopyInstalls(os, d, dir, archive, listing);
    TreeRemoved(os, d, dir, archive);
  }

  lemma StagedNames(os: Os, exe: string, workingDir: string)
    requires PlainName(os, GetFileName(os, exe))
    requires GetDirectoryName(os, exe).Some? && GetDirectoryName(os, exe).value != ""
    ensures var staged := StagedExecutable(os, exe, workingDir);
            && Pending(staged) && GetFileName(os, staged) == GetFileName(os, exe)
            && staged == Tree(os, GetDirectoryName(os, exe).value) + GetFileName(os, exe)
  {
    hide GetDirectoryName, GetFileName, Pending;
    var dir, name := GetDirectoryName(os, exe).value, GetFileName(os, exe);
    StagedIs(os, dir, name);
    StagedIsPending(os, dir, name);
    FileNameOf(os, Tree(os, dir), name);
  }

  /** The plan `FinishUpdate` computes for itself is the plan the update was staged with. */
  lemma PlanOfStaged(os: Os, exe: string, workingDir: string)
    requires Normal(os, exe) && PlainName(os, GetFileName(os, exe))
    requires GetDirectoryName(os, exe).Some? && GetDirectoryName(os, exe).value != ""
    requires !Contains(GetDirectoryName(os, exe).value, LAST_VERSION)
    ensures var staged := StagedExecutable(os, exe, workingDir);
            && Pending(staged) && GetDirectoryName(os, staged).Some?
            && PlanOf(os, staged) == StagedPlan(os, GetDirectoryName(os, exe).value)
  {
    hide GetDirectoryName, GetFileName, Pending, IndexOf, RootLength;
    var dir, name := GetDirectoryName(os, exe).value, GetFileName(os, exe);
    var staged := StagedExecutable(os, exe, workingDir);
    StagedNames(os, exe, workingDir);
    DirectoryNormal(os, exe);
    RunningDirectory(os, dir, name);
    assert staged == Based(os, dir) + LAST_VERSION + ([Sep(os)] + name);
    FirstOccurrence(os, dir, [Sep(os)] + name);
    assert staged[..|Based(os, dir)|] == Based(os, dir);
  }

  lemma DirectoryNormal(os: Os, p: string)
    requires Normal(os, p) && GetDirectoryName(os, p).Some?
    ensures Normal(os, GetDirectoryName(os, p).value)
  {
    hide Normalize, TrimSeps;
    var root, i := RootLength(os, p), LastSep(os, p);
    var dir := p[..TrimSeps(os, p, if i < root then root else i, root)];
    assert forall k :: 0 <= k < |dir| ==> dir[k] == p[k];
    NormalizeNormal(os, dir);
  }

  /** An installed executable is its directory and its name, and lies outside the staging tree. */
  lemma InstalledAt(os: Os, exe: string)
    requires Installed(os, exe)
    ensures var dir := GetDirectoryName(os, exe).value;
            exe == Based(os, dir) + GetFileName(os, exe) && !Under(os, Based(os, dir) + LAST_VERSION, exe)
  {
    hide GetDirectoryName, GetFileName, Normal, RootLength;
    var dir, name := GetDirectoryName(os, exe).value, GetFileName(os, exe);
    assert !Rooted(os, name) by { PlainIsNotRooted(os, name); }
    SplitAndCombine(os, exe);
    CombineName(os, dir, name);
    TreeIs(os, dir);
    var k := |Based(os, dir)| + 11;
    assert Tree(os, dir)[k] == Sep(os) && |Tree(os, dir)| == k + 1;
    assert k < |exe| ==> exe[k] == name[11] != Sep(os);
  }

  lemma PlainIsNotRooted(os: Os, name: string)
    requires PlainName(os, name)
    ensures !Rooted(os, name)
  {
  }

  /** Exactly when the programs that are started exist: the staged copy when the archive contains a file
      of the executable's name, the executable itself, after the clean-up of the program it starts, when
      besides it does not have the old name, which the clean-up deletes. */
  lemma ExecutablesExist(os: Os, d: Disk, exe: string, workingDir: string, archive: Disk)
    requires Installed(os, exe)
    ensures var dir, name := GetDirectoryName(os, exe).value, GetFileName(os, exe);
            var staged := Stage(os, d, TempUpdateDir(os, exe, workingDir), archive);
            && (StagedExecutable(os, exe, workingDir) in staged <==> name in archive)
            && (exe in staged + Unpack(Based(os, dir), archive) <==> name in archive || exe in d)
            && (exe in Updated(os, d, dir, archive) - {OldExecutable(os, dir)} <==>
                  (name in archive || exe in d) && name != "DirectPackageInstaller.exe")
  {
    hide GetDirectoryName, GetFileName, Normal, PlainName, RootLength, StagedExecutable, Pending, Prefixed;
    var dir, name := GetDirectoryName(os, exe).value, GetFileName(os, exe);
    var base, tree := Based(os, dir), Tree(os, dir);
    TreeIs(os, dir);
    InstalledAt(os, exe);
    StagedNames(os, exe, workingDir);
    assert (base + name)[|base|..] == name && (tree + name)[|tree|..] == name;
    assert OldExecutable(os, dir) == base + OLD_NAME by { OldNameIs(os, dir); }
    SamePrefix(base, name, OLD_NAME);
    assert base + LAST_VERSION + [Sep(os)] == base + (LAST_VERSION + [Sep(os)]);
    assert !(tree <= exe);
  }

  lemma OldNameIs(os: Os, dir: string)
    requires dir != ""
    ensures OldExecutable(os, dir) == Based(os, dir) + OLD_NAME
  {
    assert OLD_NAME[0] == 'D' && OLD_NAME[1] == 'i';
  }

  /** Exactly when stale staged files leave no trace: each of them is overwritten by the archive, or is
      installed with these contents already, or lies below its own "LastVersion". */
  lemma StaleHarmlessIff(os: Os, d: Disk, dir: string, stale: Disk, archive: Disk)
    requires dir != ""
    ensures Updated(os, d, dir, stale + archive) == Updated(os, d, dir, archive) <==>
      forall rel :: rel in stale ==>
        || rel in archive || LAST_VERSION + [Sep(os)] <= rel
        || (Based(os, dir) + rel in d && d[Based(os, dir) + rel] == stale[rel])
  {
    hide Updated;
    var base := Based(os, dir);
    var with, without := Updated(os, d, dir, stale + archive), Updated(os, d, dir, archive);
    forall rel
      ensures Same(with, without, base + rel) <==>
        rel in stale ==>
          rel in archive || LAST_VERSION + [Sep(os)] <= rel || (base + rel in d && d[base + rel] == stale[rel])
    {
      UpdatedAt(os, d, dir, stale + archive, rel);
      UpdatedAt(os, d, dir, archive, rel);
    }
    if forall rel :: Same(with, without, base + rel) {
      forall p
        ensures Same(with, without, p)
      {
        if base <= p {
          assert p == base + p[|base|..];
          assert Same(with, without, base + p[|base|..]);
        } else {
          UpdatedElsewhere(os, d, dir, stale + archive, p);
          UpdatedElsewhere(os, d, dir, archive, p);
        }
      }
      SameEverywhere(with, without);
    } else {
      var rel :| !Same(with, without, base + rel);
      assert with != without;
    }
  }

  /** The updated disk, path by path. */
  lemma UpdatedAt(os: Os, d: Disk, dir: string, archive: Disk, rel: string)
    requires dir != ""
    ensures var r, p := Updated(os, d, dir, archive), Based(os, dir) + rel;
            && (p in r <==> !("LastVersion" + [Sep(os)] <= rel) && (rel in archive || p in d))
            && (p in r ==> r[p] == if rel in archive then archive[rel] else d[p])
  {
    hide Prefixed, Based;
    var base, p := Based(os, dir), Based(os, dir) + rel;
    assert p[|base|..] == rel;
    TreeIs(os, dir);
    PrefixShift(base, LAST_VERSION + [Sep(os)], rel);
    assert Under(os, base + LAST_VERSION, p) <==> LAST_VERSION + [Sep(os)] <= rel;
  }

  lemma UpdatedElsewhere(os: Os, d: Disk, dir: string, archive: Disk, p: string)
    requires dir != "" && !(Based(os, dir) <= p)
    ensures Same(Updated(os, d, dir, archive), d, p)
  {
    hide Prefixed, Based;
    var base := Based(os, dir);
    TreeIs(os, dir);
    assert Tree(os, dir)[..|base|] == base;
    assert Tree(os, dir) <= p ==> base <= p;
  }

  /** The files in the staging tree are those that were staged. */
  lemma ListingIs(os: Os, d: Disk, dir: string, archive: Disk, listing: seq<string>)
    requires dir != ""
    requires ListsTree(os, Stage(os, d, StagedPlan(os, dir).running, archive), StagedPlan(os, dir).running, listing)
    ensures Lists(os, dir, archive, listing)
  {
    hide Prefixed;
    TreeIs(os, dir);
    var running := StagedPlan(os, dir).running;
    assert Based(os, running) == Tree(os, dir);
  }

  /** What finishing and cleaning up make of a staged archive, as the staged copy computes its directories. */
  lemma ChainEnds(os: Os, d: Disk, exe: string, workingDir: string, archive: Disk, listing: seq<string>)
    requires Installed(os, exe) && Installable(os, archive) && Pending(StagedExecutable(os, exe, workingDir))
    requires ListsTree(os, Stage(os, d, TempUpdateDir(os, exe, workingDir), archive),
                       PlanOf(os, StagedExecutable(os, exe, workingDir)).running, listing)
    ensures var dir, temp := GetDirectoryName(os, exe).value, TempUpdateDir(os, exe, workingDir);
            var staged := StagedExecutable(os, exe, workingDir);
            var finished := CopyAll(PlanOf(os, staged), Stage(os, d, temp, archive), listing);
            && FinishUpdatePath(os, staged) == Some(exe) && !Pending(exe)
            && CleanUp(os, finished, exe, workingDir) == Updated(os, d, dir, archive) - {OldExecutable(os, dir)}
            && RemoveTree(os, finished, temp) == Updated(os, d, dir, archive)
            && NoSelfCopy(PlanOf(os, staged), listing)
            && (GetFileName(os, exe) in archive ==> exe in finished)
  {
    hide GetFileName, Pending, Contains, CopyAll, Lists, OldExecutable, PlainArchive, Agreeing, Unpack, Normalize,
         LastSep, TrimSeps, RemoveTree, Tree, FinishUpdatePath, StagedExecutable, Normal, Updated, Stage, RootLength,
         PlainName, PlanOf, CleanUp, Based;
    var dir := GetDirectoryName(os, exe).value;
    PlanOfStaged(os, exe, workingDir);
    TreeIs(os, dir);
    ListingIs(os, d, dir, archive, listing);
    UpdateInstalls(os, d, exe, workingDir, archive, listing);
    CopyInstalls(os, d, dir, archive, listing);
    TreeRemoved(os, d, dir, archive);
    NeverOntoItself(os, dir, archive, listing);
    ExecutablesExist(os, d, exe, workingDir, archive);
  }

  /** In the ordinary layout no staged file is its own target. */
  lemma NeverOntoItself(os: Os, dir: string, archive: Disk, listing: seq<string>)
    requires dir != "" && PlainArchive(os, archive) && Lists(os, dir, archive, listing)
    ensures NoSelfCopy(StagedPlan(os, dir), listing)
  {
    hide Source, Target, Lists, PlainRel, StagedPlan;
    forall i | 0 <= i < |listing|
      ensures Source(StagedPlan(os, dir), listing[i]) != Target(StagedPlan(os, dir), listing[i])
    {
      ListedIs(os, dir, archive, listing, i);
      assert |Tree(os, dir)| > |Based(os, dir)|;
    }
  }

  /** The staged copy finishes the update, and the program it starts cleans up; when no operation fails, to
      the end, if the program is in the archive. */
  method FinishAndCleanUp(fs: FileSystem, os: Os, exe: string, workingDir: string, ghost d: Disk, ghost archive: Disk)
    returns (finished: bool)
    requires Installed(os, exe) && Installable(os, archive)
    requires fs.files == Stage(os, d, TempUpdateDir(os, exe, workingDir), archive)
    modifies fs
    ensures var dir := GetDirectoryName(os, exe).value;
            finished ==>
              || fs.files == Updated(os, d, dir, archive) - {OldExecutable(os, dir)}
              || fs.files == Updated(os, d, dir, archive)
    ensures old(fs.failed) ==> fs.failed
    ensures !fs.failed && GetFileName(os, exe) in archive ==>
      finished && fs.files == Updated(os, d, GetDirectoryName(os, exe).value, archive) - {OldExecutable(os, GetDirectoryName(os, exe).value)}
  {
    InstalledHasDirectory(os, exe, workingDir);
    hide *;
    var outcome;
    ghost var listing;
    outcome, listing := FinishUpdate(fs, os, false, StagedExecutable(os, exe, workingDir), workingDir);
    ChainEnds(os, d, exe, workingDir, archive, listing);
    if !outcome.Start? || outcome.path !in fs.files {
      return false;
    }
    var pending, left := FinishUpdatePending(fs, os, false, outcome.path, workingDir);
    assert pending.Some? ==> pending == Some(pending.value) && !pending.value;
    return pending.Some?;
  }

  lemma InstalledHasDirectory(os: Os, exe: string, workingDir: string)
    requires Installed(os, exe)
    ensures GetDirectoryName(os, exe).Some? && Pending(StagedExecutable(os, exe, workingDir))
  {
    hide GetDirectoryName, GetFileName, Pending, StagedExecutable;
    StagedNames(os, exe, workingDir);
  }

  /** What is staged: what was left of an old staging tree, overlaid with the archive. */
  function Staged(os: Os, d: Disk, exe: string, workingDir: string, kept: set<string>, archive: Disk): Disk
  {
    Stale(d, Based(os, TempUpdateDir(os, exe, workingDir)), kept) + archive
  }

  /** The chain run on a disk: the archive is staged, the staged copy finishes the update, and the program
      it starts cleans up. An exception, also of starting a program that does not exist, ends it. Otherwise
      the outcome is the updated installation, with what was left of an old staging tree counted to the
      archive. When no operation fails, the chain gets to its end exactly when the executable is in the
      archive, nothing of an old tree is left, and the executable under its old name is gone. */
  method RunUpdate(fs: FileSystem, os: Os, exe: string, workingDir: string, archive: Disk)
    returns (finished: bool, ghost kept: set<string>)
    requires Installed(os, exe) && forall some :: Installable(os, Staged(os, fs.files, exe, workingDir, some, archive))
    modifies fs
    ensures var dir := GetDirectoryName(os, exe).value;
            var staged := Staged(os, old(fs.files), exe, workingDir, kept, archive);
            finished ==>
              && GetFileName(os, exe) in staged
              && (|| fs.files == Updated(os, old(fs.files), dir, staged) - {OldExecutable(os, dir)}
                  || fs.files == Updated(os, old(fs.files), dir, staged))
    ensures !fs.failed ==>
      var dir := GetDirectoryName(os, exe).value;
      && (finished <==> GetFileName(os, exe) in archive)
      && (finished ==> fs.files == Updated(os, old(fs.files), dir, archive) - {OldExecutable(os, dir)})
  {
    InstalledHasDirectory(os, exe, workingDir);
    hide *;
    ghost var disk := fs.files;
    kept := StageUpdate(fs, os, TempUpdateDir(os, exe, workingDir), archive);
    ghost var staged := Staged(os, disk, exe, workingDir, kept, archive);
    StageOverIs(os, disk, exe, workingDir, kept, archive);
    NothingStale(os, disk, exe, workingDir, archive);
    ExecutablesExist(os, disk, exe, workingDir, staged);
    if StagedExecutable(os, exe, workingDir) !in fs.files {
      return false, kept;
    }
    finished := FinishAndCleanUp(fs, os, exe, workingDir, disk, staged);
  }

  lemma NothingStale(os: Os, d: Disk, exe: string, workingDir: string, archive: Disk)
    ensures Staged(os, d, exe, workingDir, {}, archive) == archive
  {
    hide TempUpdateDir, Based;
    var stale := Stale(d, Based(os, TempUpdateDir(os, exe, workingDir)), {});
    assert stale == map[];
  }

  lemma StageOverIs(os: Os, d: Disk, exe: string, workingDir: string, kept: set<string>, archive: Disk)
    ensures StageOver(os, d, TempUpdateDir(os, exe, workingDir), kept, archive)
      == Stage(os, d, TempUpdateDir(os, exe, workingDir), Staged(os, d, exe, workingDir, kept, archive))
  {
    hide StageOver, Stage, Stale, TempUpdateDir, Based;
    StaleIsStaged(os, d, TempUpdateDir(os, exe, workingDir), kept, archive);
  }
}

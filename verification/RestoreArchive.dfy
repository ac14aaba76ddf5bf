/** What an archive asks of a restore, and what staging, extraction and commit do to the disk:
    the facts about values that the transaction's methods rest on. */
module RestoreArchive {

  import opened Wrappers
  import opened Filesystem
  import opened RestoreLayout
  import opened ArchiveNames
  import opened RestoreInvariant

  datatype Body = DirEntry | FileEntry(content: Content) | OtherEntry
  datatype Entry = Entry(name: string, body: Body)

  /** Directories may appear; nothing else changes. */
  ghost predicate GrowsByDirs(fs0: Fs, fs1: Fs) {
    forall q :: Get(fs1, q) == Get(fs0, q) || (q !in fs0 && Get(fs1, q) == Some(Directory))
  }

  /** An outermost tree that holds a path holds every tree that contains the path. */
  lemma RootHoldsContainer(job: Job, i: nat, k: nat, p: Path)
    requires job.Valid() && i < |job.dests| && k < |job.dests| && Outermost(job.dests, job.dests[i].dst)
    requires job.dests[i].dst <= p && job.dests[k].dst <= p
    ensures job.dests[i].dst <= job.dests[k].dst
  {
    hide Ordered, FreshNames, TreeClosed, Separate;
    var r := RootExists(job.dests, k);
    PrefixTransitive(job.dests[r].dst, job.dests[k].dst, p);
    OneRoot(job.dests, i, r, p);
  }

  lemma Telescope(a: Path, e: Path, o: Path, s: Path)
    requires e <= o <= s
    ensures a + o[|e|..] + s[|o|..] == a + s[|e|..]
  {
    assert o[|e|..] + s[|o|..] == s[|e|..];
  }

  /** Staging below the innermost container puts a nested tree where its destination sits. */
  lemma LocateNested(job: Job, o: Swap, s: Swap)
    requires job.Valid() && job.Located(o) && Dest(o.tree, o.dst) in job.dests
    requires Inside(s.dst, o.dst) && s.staging == o.staging + s.dst[|o.dst|..]
    ensures job.Located(s) && !job.Outer(s)
  {
    hide Ordered, FreshNames, TreeClosed, Separate;
    var k :| 0 <= k < |job.dests| && job.dests[k] == Dest(o.tree, o.dst);
    assert Inside(s.dst, job.dests[k].dst);
    forall i | 0 <= i < |job.dests| && Outermost(job.dests, job.dests[i].dst) && job.dests[i].dst <= s.dst
      ensures s.staging == StagingOf(job.dests[i].dst, job.stamp) + s.dst[|job.dests[i].dst|..]
    {
      var e := job.dests[i].dst;
      RootHoldsContainer(job, i, k, s.dst);
      assert o.staging == StagingOf(e, job.stamp) + o.dst[|e|..];
      Telescope(StagingOf(e, job.stamp), e, o.dst, s.dst);
    }
  }

  lemma NestedFits(job: Job, s: Swap, outer: Swap, s': Swap)
    requires job.Valid() && job.SwapOk(s) && job.SwapOk(outer) && outer.stagingCreated && Inside(s.dst, outer.dst)
    requires Idle(s) && !s.stagingCreated
    requires s' == s.(staging := outer.staging + Rel(outer.dst, s.dst), nestedUnder := Some(outer.tree))
    ensures !job.Outer(s) && job.SwapOk(s'.(stagingCreated := true))
  {
    hide Ordered, FreshNames, TreeClosed, Separate;
    RelBelow(outer.dst, s.dst);
    LocateNested(job, outer, s');
    assert job.Located(s'.(stagingCreated := true));
  }

  lemma LocateOuter(job: Job, s: Swap)
    requires job.Valid() && Dest(s.tree, s.dst) in job.dests && s.dst != []
    requires job.Outer(s) && s.staging == StagingOf(s.dst, job.stamp)
    ensures job.Located(s)
  {
    var k :| 0 <= k < |job.dests| && job.dests[k] == Dest(s.tree, s.dst);
    forall i | 0 <= i < |job.dests| && Outermost(job.dests, job.dests[i].dst) && job.dests[i].dst <= s.dst
      ensures s.staging == StagingOf(job.dests[i].dst, job.stamp) + s.dst[|job.dests[i].dst|..]
    {
      OneRoot(job.dests, i, k, s.dst);
    }
  }

  ghost predicate HasSwap(swaps: seq<Swap>, d: Dest) {
    exists s :: s in swaps && Dest(s.tree, s.dst) == d
  }

  lemma HasSwapUpdate(swaps: seq<Swap>, i: nat, s': Swap, d: Dest)
    requires HasSwap(swaps, d) && i < |swaps|
    requires s'.tree == swaps[i].tree && s'.dst == swaps[i].dst
    ensures HasSwap(swaps[i := s'], d)
  {
    var s :| s in swaps && Dest(s.tree, s.dst) == d;
    var j :| 0 <= j < |swaps| && swaps[j] == s;
    assert swaps[i := s'][j] in swaps[i := s'];
  }

  ghost predicate SameRecords(a: seq<Swap>, b: seq<Swap>) {
    |a| == |b| && forall s :: s in a <==> s in b
  }

  lemma SameRecordsHasSwap(a: seq<Swap>, b: seq<Swap>, d: Dest)
    requires SameRecords(a, b) && HasSwap(a, d)
    ensures HasSwap(b, d)
  {
    var s :| s in a && Dest(s.tree, s.dst) == d;
    assert s in b;
  }

  ghost predicate OuterFirst(swaps: seq<Swap>, n: nat)
    requires n <= |swaps|
  {
    forall i, j :: 0 <= i < n && i < j < |swaps| && swaps[i].nestedUnder.Some? ==> swaps[j].nestedUnder.Some?
  }

  lemma ExchangeSameRecords(job: Job, swaps: seq<Swap>, i: nat, j: nat)
    requires i < |swaps| && j < |swaps|
    ensures SameRecords(swaps, job.Exchanged(swaps, i, j))
  {
    var r := job.Exchanged(swaps, i, j);
    forall s | s in swaps ensures s in r {
      var k :| 0 <= k < |swaps| && swaps[k] == s;
      job.ExchangedAt(swaps, i, j, k);
    }
    forall s | s in r ensures s in swaps {
      var k :| 0 <= k < |r| && r[k] == s;
      job.ExchangedAt(swaps, i, j, k);
    }
  }

  /** Exchanging a nested record with a later outermost one keeps the sorted part sorted. */
  lemma ExchangeKeepsSorted(job: Job, swaps: seq<Swap>, i: nat, j: nat)
    requires i < j < |swaps| && OuterFirst(swaps, i)
    ensures OuterFirst(job.Exchanged(swaps, i, j), i)
  {
    var r := job.Exchanged(swaps, i, j);
    forall a, b | 0 <= a < i && a < b < |r| && r[a].nestedUnder.Some? ensures r[b].nestedUnder.Some? {
      job.ExchangedAt(swaps, i, j, a);
      job.ExchangedAt(swaps, i, j, b);
    }
  }

  /** The records that are not nested, in order. */
  function RootsOf(swaps: seq<Swap>): (r: seq<Swap>) {
    if swaps == [] then []
    else (if swaps[0].nestedUnder.None? then [swaps[0]] else []) + RootsOf(swaps[1..])
  }

  lemma {:induction false} RootsConcat(a: seq<Swap>, b: seq<Swap>)
    ensures RootsOf(a + b) == RootsOf(a) + RootsOf(b)
  {
    if a == [] {
      assert a + b == b;
    } else {
      assert (a + b)[1..] == a[1..] + b;
      RootsConcat(a[1..], b);
    }
  }

  lemma {:induction false} NoRoots(a: seq<Swap>)
    requires forall m :: 0 <= m < |a| ==> a[m].nestedUnder.Some?
    ensures RootsOf(a) == []
  {
    if a != [] { NoRoots(a[1..]); }
  }

  lemma RootsBetween(a: seq<Swap>, x: Swap, mid: seq<Swap>, y: Swap, b: seq<Swap>)
    requires forall m :: 0 <= m < |mid| ==> mid[m].nestedUnder.Some?
    requires x.nestedUnder.Some? || y.nestedUnder.Some?
    ensures RootsOf(a + [x] + mid + [y] + b) == RootsOf(a) + RootsOf([x]) + RootsOf([y]) + RootsOf(b)
  {
    NoRoots(mid);
    RootsConcat(a, [x]);
    RootsConcat(a + [x], mid);
    RootsConcat(a + [x] + mid, [y]);
    RootsConcat(a + [x] + mid + [y], b);
  }

  lemma ExchangeShape(job: Job, swaps: seq<Swap>, i: nat, j: nat)
    requires i < j < |swaps|
    ensures swaps == swaps[..i] + [swaps[i]] + swaps[i + 1..j] + [swaps[j]] + swaps[j + 1..]
    ensures job.Exchanged(swaps, i, j) == swaps[..i] + [swaps[j]] + swaps[i + 1..j] + [swaps[i]] + swaps[j + 1..]
  {
  }

  /** Bringing a root forward over nested records keeps the order of the roots. */
  lemma ExchangeKeepsRoots(job: Job, swaps: seq<Swap>, i: nat, j: nat)
    requires i < j < |swaps| && swaps[i].nestedUnder.Some? && swaps[j].nestedUnder.None?
    requires forall m :: i < m < j ==> swaps[m].nestedUnder.Some?
    ensures RootsOf(job.Exchanged(swaps, i, j)) == RootsOf(swaps)
  {
    hide RootsOf;
    var a, x, mid, y, b := swaps[..i], swaps[i], swaps[i + 1..j], swaps[j], swaps[j + 1..];
    ExchangeShape(job, swaps, i, j);
    RootsBetween(a, x, mid, y, b);
    RootsBetween(a, y, mid, x, b);
    NoRoots([x]);
  }

  /** Outermost trees before nested ones, and in the same order among themselves. */
  method SortOuterFirst(job: Job, ghost fs: Fs, swaps: seq<Swap>, ghost created: seq<Path>)
    returns (r: seq<Swap>)
    requires job.Inv(fs, swaps, created)
    ensures job.Inv(fs, r, created) && SameRecords(swaps, r) && OuterFirst(r, |r|) && RootsOf(r) == RootsOf(swaps)
  {
    hide Job.Inv;
    r := swaps;
    for i := 0 to |r|
      invariant job.Inv(fs, r, created) && SameRecords(swaps, r) && OuterFirst(r, i) && RootsOf(r) == RootsOf(swaps)
    {
      for j := i + 1 to |r|
        invariant job.Inv(fs, r, created) && SameRecords(swaps, r) && OuterFirst(r, i) && RootsOf(r) == RootsOf(swaps)
        invariant r[i].nestedUnder.Some? ==> forall m :: i < m < j ==> r[m].nestedUnder.Some?
      {
        if r[i].nestedUnder.Some? && r[j].nestedUnder.None? {
          job.ExchangeKeepsInv(fs, r, created, i, j);
          ExchangeSameRecords(job, r, i, j);
          ExchangeKeepsSorted(job, r, i, j);
          ExchangeKeepsRoots(job, r, i, j);
          r := job.Exchanged(r, i, j);
        }
      }
    }
  }

  /** Staging has created directories but no file yet. */
  ghost predicate FilesAreOld(job: Job, fs: Fs) {
    forall q :: Get(fs, q).Some? && Get(fs, q).value.File? ==> q in job.before
  }

  lemma StillOld(job: Job, fs: Fs, fs': Fs)
    requires FilesAreOld(job, fs) && GrowsByDirs(fs, fs')
    ensures FilesAreOld(job, fs')
  {
  }

  // ---- What an archive asks for ----

  function Trees(dests: seq<Dest>): set<Tree> {
    set d | d in dests :: d.tree
  }

  /** Entry k of the archive stands for path `rel` of tree `t`. */
  predicate Lands(job: Job, e: Entry, t: Tree, rel: Path) {
    Place(e.name, Trees(job.dests)) == Placed(t, rel)
  }

  /** The disk path an entry is meant for. */
  ghost predicate MeantFor(job: Job, e: Entry, p: Path) {
    exists d, rel :: d in job.dests && Lands(job, e, d.tree, rel) && p == d.dst + rel
  }

  /** Some entry belongs to this tree. */
  ghost predicate Hit(job: Job, entries: seq<Entry>, t: Tree) {
    exists k :: 0 <= k < |entries| && Place(entries[k].name, Trees(job.dests)).Placed? &&
                Place(entries[k].name, Trees(job.dests)).tree == t
  }

  /** Entry k is the last one meant for path p. */
  ghost predicate LastFor(job: Job, entries: seq<Entry>, k: nat, p: Path)
    requires k < |entries|
  {
    MeantFor(job, entries[k], p) && forall j :: k < j < |entries| ==> !MeantFor(job, entries[j], p)
  }

  lemma SameTree(job: Job, swaps: seq<Swap>, i: nat, j: nat)
    requires job.Valid() && job.SwapsOk(swaps) && i < |swaps| && j < |swaps| && swaps[i].tree == swaps[j].tree
    ensures i == j
  {
    assert job.SwapOk(swaps[i]) && job.SwapOk(swaps[j]);
    var a :| 0 <= a < |job.dests| && job.dests[a] == Dest(swaps[i].tree, swaps[i].dst);
    var b :| 0 <= b < |job.dests| && job.dests[b] == Dest(swaps[j].tree, swaps[j].dst);
    assert a == b;
  }

  lemma Regroup(a: Path, d: Path, dst: Path, rel: Path)
    requires d <= dst
    ensures a + dst[|d|..] + rel == a + (dst + rel)[|d|..]
  {
    assert dst[|d|..] + rel == (dst + rel)[|d|..];
  }

  lemma SameTail(d: Path, u: Path, v: Path)
    requires d <= u && d <= v && u[|d|..] == v[|d|..]
    ensures u == v
  {
    assert u == d + u[|d|..] && v == d + v[|d|..];
  }

  lemma SwapRoot(job: Job, s: Swap) returns (r: nat)
    requires job.Valid() && job.SwapOk(s)
    ensures r < |job.dests| && Outermost(job.dests, job.dests[r].dst) && job.dests[r].dst <= s.dst
  {
    var i :| 0 <= i < |job.dests| && job.dests[i] == Dest(s.tree, s.dst);
    r := RootExists(job.dests, i);
  }

  /** A staged tree sits below exactly the staging directory of the outermost tree that holds it. */
  lemma StagedBelow(job: Job, s: Swap, r: nat, rel: Path)
    requires job.Valid() && job.SwapOk(s) && s.stagingCreated
    requires r < |job.dests| && Outermost(job.dests, job.dests[r].dst) && job.dests[r].dst <= s.dst
    ensures s.staging + rel == StagingOf(job.dests[r].dst, job.stamp) + (s.dst + rel)[|job.dests[r].dst|..]
  {
    assert job.Located(s);
    Regroup(StagingOf(job.dests[r].dst, job.stamp), job.dests[r].dst, s.dst, rel);
  }

  /** Two different outermost trees share no staged path. */
  lemma StagingRootUnique(job: Job, i: nat, j: nat, q: Path)
    requires job.Valid() && i < |job.dests| && j < |job.dests|
    requires Outermost(job.dests, job.dests[i].dst) && Outermost(job.dests, job.dests[j].dst)
    requires StagingOf(job.dests[i].dst, job.stamp) <= q && StagingOf(job.dests[j].dst, job.stamp) <= q
    ensures i == j
  {
    var a, b := StagingOf(job.dests[i].dst, job.stamp), StagingOf(job.dests[j].dst, job.stamp);
    if i != j {
      RootsSeparated(job.dests, job.stamp, job.before, i, j, a, b);
      Apart(a, b, q);
    }
  }

  lemma StripSame(a: Path, x: Path, y: Path)
    requires a + x == a + y
    ensures x == y
  {
    assert x == (a + x)[|a|..] && y == (a + y)[|a|..];
  }

  /** Two entries share a staged path only if they share a destination. */
  lemma StagingInjective(job: Job, s: Swap, t: Swap, x: Path, y: Path)
    requires job.Valid() && job.SwapOk(s) && job.SwapOk(t) && s.stagingCreated && t.stagingCreated
    requires s.staging + x == t.staging + y
    ensures s.dst + x == t.dst + y
  {
    var i := SwapRoot(job, s);
    var j := SwapRoot(job, t);
    StagedBelow(job, s, i, x);
    StagedBelow(job, t, j, y);
    StagingRootUnique(job, i, j, s.staging + x);
    var d := job.dests[i].dst;
    StripSame(StagingOf(d, job.stamp), (s.dst + x)[|d|..], (t.dst + y)[|d|..]);
    SameTail(d, s.dst + x, t.dst + y);
  }

  /** Entry k of the processed entries is where the staging of its tree should have it. */
  ghost predicate WrittenAt(job: Job, fs: Fs, s: Swap, es: seq<Entry>, k: nat, rel: Path)
    requires k < |es|
  {
    var q := s.staging + rel;
    && (es[k].body.DirEntry? ==> Get(fs, q) == Some(Directory))
    && (es[k].body.FileEntry? && LastFor(job, es, k, s.dst + rel) ==>
          Get(fs, q) == Some(File(es[k].body.content)))
  }

  ghost predicate Written(job: Job, fs: Fs, swaps: seq<Swap>, es: seq<Entry>) {
    forall k, i, rel :: 0 <= k < |es| && 0 <= i < |swaps| && Lands(job, es[k], swaps[i].tree, rel) ==>
      WrittenAt(job, fs, swaps[i], es, k, rel)
  }

  /** A staged file comes from an entry meant for its destination. */
  ghost predicate FromArchive(job: Job, es: seq<Entry>, p: Path, c: Content) {
    exists k :: 0 <= k < |es| && es[k].body == FileEntry(c) && MeantFor(job, es[k], p)
  }

  ghost predicate Sourced(job: Job, fs: Fs, swaps: seq<Swap>, es: seq<Entry>) {
    forall i, rel, c :: 0 <= i < |swaps| && Get(fs, swaps[i].staging + rel) == Some(File(c)) ==>
      FromArchive(job, es, swaps[i].dst + rel, c)
  }

  lemma FromArchiveGrows(job: Job, es: seq<Entry>, e: Entry, p: Path, c: Content)
    requires FromArchive(job, es, p, c)
    ensures FromArchive(job, es + [e], p, c)
  {
    var k :| 0 <= k < |es| && es[k].body == FileEntry(c) && MeantFor(job, es[k], p);
    assert (es + [e])[k] == es[k];
  }

  lemma StagingKeepsSourced(job: Job, fs: Fs, fs': Fs, swaps: seq<Swap>, es: seq<Entry>, e: Entry, i: nat, rel: Path)
    requires job.Valid() && job.SwapsOk(swaps) && (forall j :: 0 <= j < |swaps| ==> swaps[j].stagingCreated)
    requires Sourced(job, fs, swaps, es) && i < |swaps| && Lands(job, e, swaps[i].tree, rel)
    requires StagesOnly(fs, fs', swaps[i].staging + rel, e.body)
    ensures Sourced(job, fs', swaps, es + [e])
  {
    forall j, r, c | 0 <= j < |swaps| && Get(fs', swaps[j].staging + r) == Some(File(c))
      ensures FromArchive(job, es + [e], swaps[j].dst + r, c)
    {
      assert job.SwapOk(swaps[i]) && job.SwapOk(swaps[j]);
      if swaps[j].staging + r == swaps[i].staging + rel && e.body.FileEntry? {
        StagingInjective(job, swaps[j], swaps[i], r, rel);
        PlacedIsMeant(job, e, swaps[i], rel);
        assert (es + [e])[|es|] == e;
      } else {
        FromArchiveGrows(job, es, e, swaps[j].dst + r, c);
      }
    }
  }

  lemma SkipKeepsSourced(job: Job, fs: Fs, swaps: seq<Swap>, es: seq<Entry>, e: Entry)
    requires Sourced(job, fs, swaps, es)
    ensures Sourced(job, fs, swaps, es + [e])
  {
    forall j, r, c | 0 <= j < |swaps| && Get(fs, swaps[j].staging + r) == Some(File(c))
      ensures FromArchive(job, es + [e], swaps[j].dst + r, c)
    {
      FromArchiveGrows(job, es, e, swaps[j].dst + r, c);
    }
  }

  /** No file is staged before extraction begins. */
  lemma NothingStagedYet(job: Job, fs: Fs, swaps: seq<Swap>)
    requires job.Valid() && job.SwapsOk(swaps) && (forall j :: 0 <= j < |swaps| ==> swaps[j].stagingCreated)
    requires FilesAreOld(job, fs)
    ensures Sourced(job, fs, swaps, [])
  {
    forall j, r, c: Content | 0 <= j < |swaps| ensures Get(fs, swaps[j].staging + r) != Some(File(c)) {
      assert job.SwapOk(swaps[j]);
      var i := SwapRoot(job, swaps[j]);
      StagedBelow(job, swaps[j], i, r);
      FreeSubtree(job.before, StagingOf(job.dests[i].dst, job.stamp), swaps[j].staging + r);
    }
  }

  /** What extraction maintains about the entries processed so far. */
  ghost predicate Faithful(job: Job, fs: Fs, swaps: seq<Swap>, es: seq<Entry>) {
    Written(job, fs, swaps, es) && Sourced(job, fs, swaps, es) && Marked(job, swaps, es)
  }

  ghost predicate Marked(job: Job, swaps: seq<Swap>, es: seq<Entry>) {
    forall i :: 0 <= i < |swaps| ==> (swaps[i].hadEntries <==> Hit(job, es, swaps[i].tree))
  }

  /** One more entry hits exactly the tree it is placed in. */
  lemma HitExtend(job: Job, es: seq<Entry>, e: Entry, t: Tree)
    ensures var pl := Place(e.name, Trees(job.dests));
            Hit(job, es + [e], t) <==> Hit(job, es, t) || (pl.Placed? && pl.tree == t)
  {
    var es' := es + [e];
    if Hit(job, es, t) {
      var k :| 0 <= k < |es| && Place(es[k].name, Trees(job.dests)).Placed? && Place(es[k].name, Trees(job.dests)).tree == t;
      assert es'[k] == es[k];
    }
    var pl := Place(e.name, Trees(job.dests));
    if pl.Placed? && pl.tree == t { assert es'[|es|] == e; }
  }

  lemma LastForShrinks(job: Job, es: seq<Entry>, e: Entry, k: nat, p: Path)
    requires k < |es| && LastFor(job, es + [e], k, p)
    ensures LastFor(job, es, k, p) && !MeantFor(job, e, p)
  {
    var es' := es + [e];
    assert es'[k] == es[k] && es'[|es|] == e;
    assert forall j :: k < j < |es| ==> es'[j] == es[j];
  }

  lemma PlacedIsMeant(job: Job, e: Entry, s: Swap, rel: Path)
    requires Dest(s.tree, s.dst) in job.dests && Lands(job, e, s.tree, rel)
    ensures MeantFor(job, e, s.dst + rel)
  {
    var d := Dest(s.tree, s.dst);
    assert d in job.dests && Lands(job, e, d.tree, rel);
  }

  /** The disk effect of staging entry `e` at `target`, as far as earlier entries are concerned. */
  ghost predicate StagesOnly(fs: Fs, fs': Fs, target: Path, body: Body) {
    && (body.FileEntry? ==> Get(fs', target) == Some(File(body.content)))
    && (body.DirEntry? ==> Get(fs', target) == Some(Directory))
    && (forall q :: q != target ==> Get(fs', q) == Get(fs, q) || (q !in fs && Get(fs', q) == Some(Directory)))
    && (Get(fs, target) == Some(Directory) ==> Get(fs', target) == Some(Directory))
    && (body.OtherEntry? ==> fs' == fs)
  }

  /** An earlier entry survives the staging of a later one, unless both are meant for one path. */
  lemma EarlierSurvives(job: Job, fs: Fs, fs': Fs, s: Swap, t: Swap, es: seq<Entry>, e: Entry,
                        k: nat, rel: Path, rel': Path)
    requires job.Valid() && job.SwapOk(s) && job.SwapOk(t) && s.stagingCreated && t.stagingCreated
    requires k < |es| && WrittenAt(job, fs, s, es, k, rel)
    requires Lands(job, e, t.tree, rel') && StagesOnly(fs, fs', t.staging + rel', e.body)
    ensures WrittenAt(job, fs', s, es + [e], k, rel)
  {
    hide Ordered, FreshNames, TreeClosed;
    var q := s.staging + rel;
    assert (es + [e])[k] == es[k];
    if LastFor(job, es + [e], k, s.dst + rel) {
      LastForShrinks(job, es, e, k, s.dst + rel);
      if q == t.staging + rel' {
        StagingInjective(job, s, t, rel, rel');
        PlacedIsMeant(job, e, t, rel');
      }
    }
  }

  lemma StagingExtendsWritten(job: Job, fs: Fs, fs': Fs, swaps: seq<Swap>, es: seq<Entry>, e: Entry, i: nat, rel: Path)
    requires job.Valid() && job.SwapsOk(swaps) && (forall j :: 0 <= j < |swaps| ==> swaps[j].stagingCreated)
    requires Written(job, fs, swaps, es) && i < |swaps| && Lands(job, e, swaps[i].tree, rel)
    requires StagesOnly(fs, fs', swaps[i].staging + rel, e.body)
    ensures Written(job, fs', swaps, es + [e])
  {
    var es' := es + [e];
    forall k, j, r | 0 <= k < |es'| && 0 <= j < |swaps| && Lands(job, es'[k], swaps[j].tree, r)
      ensures WrittenAt(job, fs', swaps[j], es', k, r)
    {
      if k < |es| {
        assert es'[k] == es[k];
        EarlierSurvives(job, fs, fs', swaps[j], swaps[i], es, e, k, r, rel);
      } else {
        SameTree(job, swaps, i, j);
      }
    }
  }

  lemma SkipExtendsWritten(job: Job, fs: Fs, swaps: seq<Swap>, es: seq<Entry>, e: Entry)
    requires Written(job, fs, swaps, es) && !Place(e.name, Trees(job.dests)).Placed?
    ensures Written(job, fs, swaps, es + [e])
  {
    var es' := es + [e];
    forall k, j, r | 0 <= k < |es'| && 0 <= j < |swaps| && Lands(job, es'[k], swaps[j].tree, r)
      ensures WrittenAt(job, fs, swaps[j], es', k, r)
    {
      assert k < |es| && es'[k] == es[k];
      assert WrittenAt(job, fs, swaps[j], es, k, r);
      if LastFor(job, es', k, swaps[j].dst + r) { LastForShrinks(job, es, e, k, swaps[j].dst + r); }
    }
  }

  /** Marking a record does not disturb what is staged. */
  lemma MarkKeepsWritten(job: Job, fs: Fs, swaps: seq<Swap>, es: seq<Entry>, i: nat)
    requires Written(job, fs, swaps, es) && i < |swaps|
    ensures Written(job, fs, swaps[i := swaps[i].(hadEntries := true)], es)
  {
    var swaps' := swaps[i := swaps[i].(hadEntries := true)];
    forall k, j, r | 0 <= k < |es| && 0 <= j < |swaps'| && Lands(job, es[k], swaps'[j].tree, r)
      ensures WrittenAt(job, fs, swaps'[j], es, k, r)
    {
      assert WrittenAt(job, fs, swaps[j], es, k, r);
    }
  }

  lemma MarkKeepsSourced(job: Job, fs: Fs, swaps: seq<Swap>, es: seq<Entry>, i: nat)
    requires Sourced(job, fs, swaps, es) && i < |swaps|
    ensures Sourced(job, fs, swaps[i := swaps[i].(hadEntries := true)], es)
  {
    var swaps' := swaps[i := swaps[i].(hadEntries := true)];
    forall j, r, c | 0 <= j < |swaps'| && Get(fs, swaps'[j].staging + r) == Some(File(c))
      ensures FromArchive(job, es, swaps'[j].dst + r, c)
    {
      assert Get(fs, swaps[j].staging + r) == Some(File(c));
    }
  }

  lemma MarkExtendsMarked(job: Job, swaps: seq<Swap>, es: seq<Entry>, e: Entry, i: nat)
    requires job.Valid() && job.SwapsOk(swaps) && Marked(job, swaps, es) && i < |swaps|
    requires Place(e.name, Trees(job.dests)).Placed? && Place(e.name, Trees(job.dests)).tree == swaps[i].tree
    ensures Marked(job, swaps[i := swaps[i].(hadEntries := true)], es + [e])
  {
    forall j | 0 <= j < |swaps|
      ensures swaps[i := swaps[i].(hadEntries := true)][j].hadEntries <==> Hit(job, es + [e], swaps[j].tree)
    {
      HitExtend(job, es, e, swaps[j].tree);
      if swaps[j].tree == swaps[i].tree { SameTree(job, swaps, i, j); }
    }
  }

  /** The destination subtree now holds what the staging subtree held. */
  ghost predicate Installed(staged: Fs, fs: Fs, s: Swap) {
    && (forall p :: s.dst <= p ==> Get(fs, p) == Get(staged, s.staging + p[|s.dst|..]))
    && (forall p :: s.staging <= p ==> Get(fs, p) == None)
  }

  ghost predicate StagingKept(staged: Fs, fs: Fs, s: Swap) {
    forall p :: s.staging <= p ==> Get(fs, p) == Get(staged, p)
  }

  /** Where an outermost swap stands once commit has passed it. */
  ghost predicate Settled(staged: Fs, fs: Fs, s: Swap) {
    if s.hadEntries
    then s.promoted && s.backedUp == s.dstExisted && Installed(staged, fs, s)
    else !s.promoted && !s.backedUp && StagingKept(staged, fs, s)
  }

  /** Where an outermost swap stands before commit reaches it. */
  ghost predicate Waiting(staged: Fs, fs: Fs, s: Swap) {
    s.stagingCreated && !s.promoted && !s.backedUp && StagingKept(staged, fs, s)
  }

  /** The records differ from the given ones only in the two commit flags. */
  ghost predicate SameButFlags(a: Swap, b: Swap) {
    b == a.(backedUp := b.backedUp, promoted := b.promoted)
  }

  /** Only paths in one swap's own three regions differ. */
  ghost predicate OnlyOwnRegions(job: Job, fs: Fs, fs': Fs, s: Swap) {
    forall p :: Get(fs', p) == Get(fs, p) || s.dst <= p || s.pre <= p || s.staging <= p
  }

  lemma SettledFrame(job: Job, staged: Fs, fs: Fs, fs': Fs, s: Swap, t: Swap)
    requires job.Valid() && job.SwapOk(s) && job.SwapOk(t) && s.dst != t.dst && job.Outer(s) && job.Outer(t)
    requires s.stagingCreated && t.stagingCreated && OnlyOwnRegions(job, fs, fs', s)
    ensures Settled(staged, fs, t) ==> Settled(staged, fs', t)
    ensures Waiting(staged, fs, t) ==> Waiting(staged, fs', t)
  {
    job.OuterStaging(s);
    job.OuterStaging(t);
    forall p | t.dst <= p || t.staging <= p ensures Get(fs', p) == Get(fs, p) {
      job.OthersUnmoved(s, t, s.dst, s.pre, p);
      job.OthersUnmoved(s, t, s.staging, s.pre, p);
    }
  }

  /** Moving the destination aside leaves the staged tree alone. */
  lemma BackupGet(job: Job, fs: Fs, s: Swap, p: Path)
    requires job.Valid() && job.SwapOk(s) && job.Outer(s) && s.stagingCreated && job.Vacated(fs, s.pre)
    ensures s.staging <= p ==> Get(MoveTree(fs, s.dst, s.pre), p) == Get(fs, p)
    ensures Get(MoveTree(fs, s.dst, s.pre), p) == Get(fs, p) || s.dst <= p || s.pre <= p
  {
    job.OuterStaging(s);
    OwnRootsSeparated(s.dst, job.stamp);
    job.OwnRegionsDisjoint(s, p);
    GetMoved(fs, s.dst, s.pre, p);
  }

  /** Promotion installs exactly the staged tree. */
  lemma PromoteInstalls(job: Job, staged: Fs, fs: Fs, s: Swap)
    requires job.Valid() && job.SwapOk(s) && job.Outer(s) && s.stagingCreated && job.Vacated(fs, s.dst)
    requires StagingKept(staged, fs, s)
    ensures Installed(staged, MoveTree(fs, s.staging, s.dst), s)
    ensures OnlyOwnRegions(job, fs, MoveTree(fs, s.staging, s.dst), s)
  {
    job.OuterStaging(s);
    OwnRootsSeparated(s.dst, job.stamp);
    forall p ensures s.dst <= p ==> Get(MoveTree(fs, s.staging, s.dst), p) == Get(staged, s.staging + p[|s.dst|..])
             ensures s.staging <= p ==> Get(MoveTree(fs, s.staging, s.dst), p) == None
             ensures Get(MoveTree(fs, s.staging, s.dst), p) == Get(fs, p) || s.dst <= p || s.staging <= p
    {
      GetMoved(fs, s.staging, s.dst, p);
      job.OwnRegionsDisjoint(s, p);
    }
  }

  // ---- What a successful restore promises ----

  /** `r` is the outermost tree holding `d`. */
  ghost predicate Holds(job: Job, r: Dest, d: Dest) {
    r in job.dests && d in job.dests && Outermost(job.dests, r.dst) && r.dst <= d.dst
  }

  /** Entry k sits at the destination it was meant for. */
  ghost predicate Delivered(job: Job, fs: Fs, entries: seq<Entry>, k: nat, p: Path)
    requires k < |entries|
  {
    && (entries[k].body.DirEntry? ==> Get(fs, p) == Some(Directory))
    && (entries[k].body.FileEntry? && LastFor(job, entries, k, p) ==>
          Get(fs, p) == Some(File(entries[k].body.content)))
  }

  /** Every entry whose outermost tree received entries is at its own destination, however deep it nests. */
  ghost predicate EntriesInPlace(job: Job, fs: Fs, entries: seq<Entry>) {
    forall k, r, d, rel ::
      0 <= k < |entries| && Holds(job, r, d) && Hit(job, entries, r.tree) && Lands(job, entries[k], d.tree, rel) ==>
        Delivered(job, fs, entries, k, d.dst + rel)
  }

  /** A replaced tree holds no file the archive did not put there. */
  ghost predicate OnlyArchived(job: Job, fs: Fs, entries: seq<Entry>) {
    forall r, p, c ::
      r in job.dests && Outermost(job.dests, r.dst) && Hit(job, entries, r.tree) && r.dst <= p &&
      Get(fs, p) == Some(File(c)) ==>
        FromArchive(job, entries, p, c)
  }

  /** Outside the names of the trees, at most missing ancestors of a destination have appeared. */
  ghost predicate ElsewhereUnchanged(job: Job, fs: Fs)
    requires Distinct(job.dests)
  {
    forall p :: (forall i :: 0 <= i < |job.dests| ==> Clear(job, job.dests[i].dst, p)) ==>
      Get(fs, p) == Get(job.before, p) || (p !in job.before && job.AboveSome(p) && Get(fs, p) == Some(Directory))
  }

  ghost predicate Clear(job: Job, d: Path, p: Path)
    requires d != []
  {
    !(d <= p) && !(StagingOf(d, job.stamp) <= p) && !(PreRestoreOf(d, job.stamp) <= p)
  }

  lemma BaselineElsewhere(job: Job, fs: Fs, swaps: seq<Swap>, created: seq<Path>)
    requires job.Inv(fs, swaps, created)
    ensures ElsewhereUnchanged(job, fs)
  {
    hide Ordered, Separate, FreshNames, TreeClosed;
    forall p | forall i :: 0 <= i < |job.dests| ==> Clear(job, job.dests[i].dst, p)
      ensures Get(fs, p) == job.Base(created, p)
    {
      forall j | 0 <= j < |swaps| ensures !job.Owns(swaps[j], p) {
        var s := swaps[j];
        assert job.SwapOk(s);
        var i :| 0 <= i < |job.dests| && job.dests[i] == Dest(s.tree, s.dst);
        assert Clear(job, job.dests[i].dst, p);
        if job.Outer(s) && s.stagingCreated { job.OuterStaging(s); }
      }
      assert job.Untouched(swaps, p);
    }
  }

  /** A replaced tree's old content is intact under its pre-restore name, and no staging is left. */
  ghost predicate ReplacedKept(job: Job, fs: Fs, r: Dest)
    requires r.dst != []
  {
    && (r.dst in job.before ==> forall p :: PreRestoreOf(r.dst, job.stamp) <= p ==>
          Get(fs, p) == Get(job.before, r.dst + p[|PreRestoreOf(r.dst, job.stamp)|..]))
    && (forall p :: StagingOf(r.dst, job.stamp) <= p ==> Get(fs, p) == None)
  }

  /** A tree whose outermost container received nothing is not restored at all: its destination is
      untouched and its staging directory stays behind. */
  ghost predicate LeftAlone(job: Job, fs: Fs, r: Dest)
    requires r.dst != []
  {
    && (forall p :: r.dst <= p ==> Get(fs, p) == Get(job.before, p))
    && Get(fs, StagingOf(r.dst, job.stamp)) == Some(Directory)
  }

  ghost predicate TreesSettled(job: Job, fs: Fs, entries: seq<Entry>)
    requires Distinct(job.dests)
  {
    forall i :: 0 <= i < |job.dests| && Outermost(job.dests, job.dests[i].dst) ==>
      if Hit(job, entries, job.dests[i].tree)
      then ReplacedKept(job, fs, job.dests[i])
      else LeftAlone(job, fs, job.dests[i])
  }

  lemma RecordOf(job: Job, swaps: seq<Swap>, d: Dest) returns (i: nat)
    requires HasSwap(swaps, d)
    ensures i < |swaps| && Dest(swaps[i].tree, swaps[i].dst) == d
  {
    var s :| s in swaps && Dest(s.tree, s.dst) == d;
    i :| 0 <= i < |swaps| && swaps[i] == s;
  }

  /** The staged form of a nested path is where promotion of its outermost tree looks for it. */
  lemma NestedPathInstalled(job: Job, staged: Fs, fs: Fs, root: Swap, s: Swap, rel: Path)
    requires job.Valid() && job.SwapOk(root) && job.SwapOk(s) && job.Outer(root) && root.dst <= s.dst
    requires root.stagingCreated && s.stagingCreated && Installed(staged, fs, root)
    ensures Get(fs, s.dst + rel) == Get(staged, s.staging + rel)
  {
    var r :| 0 <= r < |job.dests| && job.dests[r] == Dest(root.tree, root.dst);
    StagedBelow(job, s, r, rel);
    job.OuterStaging(root);
    PrefixTransitive(root.dst, s.dst, s.dst + rel);
  }

  /** What `Committing` at the end of the list amounts to. */
  ghost predicate AllSettled(job: Job, staged: Fs, orig: seq<Swap>, fs: Fs, swaps: seq<Swap>, created: seq<Path>) {
    && job.Inv(fs, swaps, created) && |swaps| == |orig|
    && (forall i :: 0 <= i < |swaps| ==> SameButFlags(orig[i], swaps[i]) && swaps[i].stagingCreated)
    && (forall i :: 0 <= i < |swaps| && job.Outer(swaps[i]) ==> Settled(staged, fs, swaps[i]))
    && (forall d :: d in job.dests ==> HasSwap(orig, d))
  }

  lemma SettledRecord(job: Job, staged: Fs, orig: seq<Swap>, fs: Fs, swaps: seq<Swap>, created: seq<Path>,
                      entries: seq<Entry>, d: Dest) returns (i: nat)
    requires AllSettled(job, staged, orig, fs, swaps, created) && d in job.dests && Marked(job, orig, entries)
    ensures i < |swaps| && Dest(swaps[i].tree, swaps[i].dst) == d && job.SwapOk(swaps[i])
    ensures swaps[i].hadEntries <==> Hit(job, entries, d.tree)
    ensures swaps[i].staging == orig[i].staging
  {
    assert HasSwap(orig, d);
    i := RecordOf(job, orig, d);
    assert SameButFlags(orig[i], swaps[i]);
  }

  lemma CommitDelivers(job: Job, staged: Fs, orig: seq<Swap>, fs: Fs, swaps: seq<Swap>, created: seq<Path>,
                       entries: seq<Entry>)
    requires AllSettled(job, staged, orig, fs, swaps, created)
    requires Written(job, staged, orig, entries) && Marked(job, orig, entries)
    ensures EntriesInPlace(job, fs, entries)
  {
    forall k, r, d, rel | 0 <= k < |entries| && Holds(job, r, d) && Hit(job, entries, r.tree) &&
                          Lands(job, entries[k], d.tree, rel)
      ensures Delivered(job, fs, entries, k, d.dst + rel)
    {
      var i := SettledRecord(job, staged, orig, fs, swaps, created, entries, r);
      var j := SettledRecord(job, staged, orig, fs, swaps, created, entries, d);
      assert Settled(staged, fs, swaps[i]);
      NestedPathInstalled(job, staged, fs, swaps[i], swaps[j], rel);
      assert WrittenAt(job, staged, orig[j], entries, k, rel);
    }
  }

  lemma CommitBringsOnlyArchive(job: Job, staged: Fs, orig: seq<Swap>, fs: Fs, swaps: seq<Swap>, created: seq<Path>,
                                entries: seq<Entry>)
    requires AllSettled(job, staged, orig, fs, swaps, created)
    requires Sourced(job, staged, orig, entries) && Marked(job, orig, entries)
    ensures OnlyArchived(job, fs, entries)
  {
    hide Ordered, FreshNames, TreeClosed;
    forall r, p, c | r in job.dests && Outermost(job.dests, r.dst) && Hit(job, entries, r.tree) && r.dst <= p &&
                     Get(fs, p) == Some(File(c))
      ensures FromArchive(job, entries, p, c)
    {
      var i := SettledRecord(job, staged, orig, fs, swaps, created, entries, r);
      assert Settled(staged, fs, swaps[i]) && SameButFlags(orig[i], swaps[i]);
      InstalledFromArchive(job, staged, orig, fs, swaps[i], entries, i, p, c);
    }
  }

  lemma InstalledFromArchive(job: Job, staged: Fs, orig: seq<Swap>, fs: Fs, s: Swap, entries: seq<Entry>,
                             i: nat, p: Path, c: Content)
    requires Sourced(job, staged, orig, entries) && i < |orig| && SameButFlags(orig[i], s)
    requires Installed(staged, fs, s) && s.dst <= p && Get(fs, p) == Some(File(c))
    ensures FromArchive(job, entries, p, c)
  {
    var rel := p[|s.dst|..];
    assert p == s.dst + rel;
    assert Get(staged, orig[i].staging + rel) == Some(File(c));
  }

  lemma TreeSettled(job: Job, staged: Fs, orig: seq<Swap>, fs: Fs, swaps: seq<Swap>, created: seq<Path>,
                    entries: seq<Entry>, r: Dest)
    requires AllSettled(job, staged, orig, fs, swaps, created) && Marked(job, orig, entries)
    requires forall i :: 0 <= i < |orig| ==> Get(staged, orig[i].staging) == Some(Directory)
    requires r in job.dests && r.dst != [] && Outermost(job.dests, r.dst)
    ensures if Hit(job, entries, r.tree) then ReplacedKept(job, fs, r) else LeftAlone(job, fs, r)
  {
    var i := SettledRecord(job, staged, orig, fs, swaps, created, entries, r);
    var s := swaps[i];
    assert Settled(staged, fs, s);
    job.OuterStaging(s);
    if s.hadEntries {
      assert job.KeptAside(fs, s);
    } else {
      forall p | r.dst <= p ensures Get(fs, p) == Get(job.before, p) {
        job.DestinationUntouched(fs, swaps, created, i, p);
      }
      assert Get(fs, s.staging) == Get(staged, orig[i].staging);
    }
  }

  /** A successful restore, by the names in the archive: the last file named config/…, state/… or logs/… for
      a path of an outermost tree is at that path of the tree's destination. */
  lemma RestoredByName(job: Job, fs: Fs, entries: seq<Entry>, k: nat, d: Dest, rel: Path)
    requires EntriesInPlace(job, fs, entries) && d in job.dests && Outermost(job.dests, d.dst)
    requires k < |entries| && rel != [] && AllProper(rel) && entries[k].body.FileEntry?
    requires entries[k].name ==
      Slashed([match d.tree case Config => "config" case State => "state" case Logs => "logs"] + rel)
    requires forall j :: k < j < |entries| ==> !MeantFor(job, entries[j], d.dst + rel)
    ensures Get(fs, d.dst + rel) == Some(File(entries[k].body.content))
  {
    hide Slashed, Place, AllProper;
    EntryFindsItsTree(d.tree, rel, Trees(job.dests));
    assert Lands(job, entries[k], d.tree, rel) && Holds(job, d, d) && Hit(job, entries, d.tree);
    assert MeantFor(job, entries[k], d.dst + rel);
    assert Delivered(job, fs, entries, k, d.dst + rel);
  }

  // ---- Entries of nested trees alone ----

  /** Exactly when a successful restore delivers a file of a nested tree that was not there before: when the
      outermost tree around it received an entry of its own. */
  lemma DeliveredIffRootHit(job: Job, fs: Fs, entries: seq<Entry>, k: nat, r: Dest, d: Dest, rel: Path)
    requires Distinct(job.dests) && EntriesInPlace(job, fs, entries) && TreesSettled(job, fs, entries)
    requires k < |entries| && Holds(job, r, d) && Lands(job, entries[k], d.tree, rel)
    requires entries[k].body.FileEntry? && LastFor(job, entries, k, d.dst + rel)
    requires Get(job.before, d.dst + rel) != Some(File(entries[k].body.content))
    ensures Get(fs, d.dst + rel) == Some(File(entries[k].body.content)) <==> Hit(job, entries, r.tree)
  {
    if Hit(job, entries, r.tree) {
      assert Delivered(job, fs, entries, k, d.dst + rel);
    } else {
      var i :| 0 <= i < |job.dests| && job.dests[i] == r;
      assert LeftAlone(job, fs, job.dests[i]);
      PrefixTransitive(r.dst, d.dst, d.dst + rel);
    }
  }

  /** State inside config, and an archive with one state file. */
  function StateOnly(stamp: string): Job { Job(TwoLevels, stamp, map[[] := Directory]) }

  const OneStateFile: seq<Entry> := [Entry("state" + "/" + "a", FileEntry("x"))]

  lemma StateFileLands(stamp: string)
    ensures Place(OneStateFile[0].name, Trees(StateOnly(stamp).dests)) == Placed(State, ["a"])
  {
    var trees := Trees(StateOnly(stamp).dests);
    assert TwoLevels[1] in StateOnly(stamp).dests && State in trees;
    assert '/' !in "state" && '/' !in "a";
    CleanPair("state", "a");
    var c := Clean(OneStateFile[0].name);
    assert c == ["state", "a"] && c[0] == "state" && c[1..] == ["a"];
    assert "state"[0] != "config"[0] && |c| == 2;
  }

  /** After a successful restore the file is not at its destination, and the staging directory stays. */
  lemma StateFileNotPromoted(stamp: string, fs: Fs)
    requires ValidLayout(TwoLevels, stamp, map[[] := Directory]) && TreesSettled(StateOnly(stamp), fs, OneStateFile)
    ensures Get(fs, TwoLevels[1].dst + ["a"]) == None && Get(fs, StagingOf(TwoLevels[0].dst, stamp)) == Some(Directory)
  {
    var job := StateOnly(stamp);
    StateFileLands(stamp);
    assert !Hit(job, OneStateFile, Config);
    assert job.dests[0] == Dest(Config, ["siem"]) && Outermost(job.dests, job.dests[0].dst) by {
      TwoLevelsNest(0, 0);
      TwoLevelsNest(0, 1);
      TwoLevelsNest(0, 2);
    }
    assert LeftAlone(job, fs, job.dests[0]);
    assert job.dests[0].dst <= TwoLevels[1].dst + ["a"];
  }

  /** Finds the record of a tree. */
  method FindSwap(swaps: seq<Swap>, t: Tree) returns (i: nat)
    requires exists i :: 0 <= i < |swaps| && swaps[i].tree == t
    ensures i < |swaps| && swaps[i].tree == t
  {
    i := 0;
    while swaps[i].tree != t
      decreases |swaps| - i
      invariant i < |swaps|
      invariant exists j :: i <= j < |swaps| && swaps[j].tree == t
    {
      i := i + 1;
    }
  }

  // ---- Second pass of prepareStaging ----

  /** The swap records follow the order of the destinations. */
  ghost predicate Paired(job: Job, swaps: seq<Swap>) {
    |swaps| == |job.dests| && forall i :: 0 <= i < |swaps| ==> Dest(swaps[i].tree, swaps[i].dst) == job.dests[i]
  }

  ghost predicate Idle(s: Swap) { !s.backedUp && !s.promoted && !s.hadEntries }

  ghost predicate StagedOn(fs: Fs, s: Swap) {
    s.stagingCreated && Get(fs, s.staging) == Some(Directory)
  }

  ghost predicate StagedUpTo(fs: Fs, swaps: seq<Swap>, k: nat)
    requires k <= |swaps|
  {
    forall i :: 0 <= i < k ==> StagedOn(fs, swaps[i]) && Idle(swaps[i])
  }

  ghost predicate PristineFrom(swaps: seq<Swap>, k: nat) {
    forall i :: k <= i < |swaps| ==> !swaps[i].stagingCreated && swaps[i].nestedUnder.None? && Idle(swaps[i])
  }

  /** Second pass not yet past tree k: earlier trees staged, later ones untouched, no file created. */
  ghost predicate PreparedState(job: Job, fs: Fs, swaps: seq<Swap>, created: seq<Path>, k: nat) {
    && job.Inv(fs, swaps, created) && Paired(job, swaps) && k <= |swaps| && FilesAreOld(job, fs)
    && StagedUpTo(fs, swaps, k) && PristineFrom(swaps, k)
  }

  lemma StagedGrows(fs: Fs, fs': Fs, swaps: seq<Swap>, k: nat)
    requires k <= |swaps| && StagedUpTo(fs, swaps, k) && GrowsByDirs(fs, fs')
    ensures StagedUpTo(fs', swaps, k)
  {
    forall i | 0 <= i < k ensures StagedOn(fs', swaps[i]) { assert StagedOn(fs, swaps[i]); }
  }

  /** Once its staging directory exists, a tree counts as prepared. */
  lemma NestedClaimed(job: Job, fs: Fs, fs': Fs, swaps: seq<Swap>, created: seq<Path>, k: nat, s': Swap)
    requires PreparedState(job, fs, swaps, created, k) && k < |swaps|
    requires s' == swaps[k].(staging := s'.staging, nestedUnder := s'.nestedUnder)
    requires job.Inv(fs', swaps[k := s'], created) && GrowsByDirs(fs, fs')
    requires job.SwapOk(s'.(stagingCreated := true)) && Get(fs', s'.staging) == Some(Directory)
    ensures PreparedState(job, fs', swaps[k := s'.(stagingCreated := true)], created, k + 1)
  {
    var swaps' := swaps[k := s'.(stagingCreated := true)];
    job.ClaimStaging(fs', swaps[k := s'], created, k, s'.(stagingCreated := true));
    assert swaps[k := s'][k := s'.(stagingCreated := true)] == swaps';
    StillOld(job, fs, fs');
    StagedGrows(fs, fs', swaps, k);
    assert Paired(job, swaps') by { assert Dest(swaps[k].tree, swaps[k].dst) == job.dests[k]; }
    assert Idle(swaps[k]);
  }
}

/** What can keep a restore from succeeding besides a refusal by the operating system, stated on the
    archive and the initial disk alone. */
module RestoreObstacles {

  import opened Wrappers
  import opened Filesystem
  import opened RestoreLayout
  import opened ArchiveNames
  import opened RestoreInvariant
  import opened RestoreArchive

  predicate FileAt(fs: Fs, p: Path) { p in fs && fs[p].File? }

  /** Directory creation along `p` meets a file first. */
  ghost predicate Blocked(fs: Fs, p: Path) {
    [] !in fs || exists a :: DeepestIsFile(fs, p, a)
  }

  ghost predicate DeepestIsFile(fs: Fs, p: Path, a: Path) {
    a <= p && FileAt(fs, a) && forall b :: b in fs && b <= p ==> |b| <= |a|
  }

  ghost predicate FileInside(fs: Fs, root: Path, p: Path) {
    exists a :: root <= a <= p && FileAt(fs, a)
  }

  // ---- The obstacles ----

  /** Where an outermost destination should hang there is a file. */
  ghost predicate AncestorIsFile(job: Job) {
    exists a :: FileAt(job.before, a) && job.AboveSome(a)
  }

  ghost predicate Refused(job: Job, entries: seq<Entry>) {
    exists k :: 0 <= k < |entries| && Place(entries[k].name, Trees(job.dests)).Rejected?
  }

  /** Entry e wants something below or at p, at p itself only as a directory. */
  ghost predicate WantsDir(job: Job, e: Entry, p: Path) {
    !e.body.OtherEntry? && exists q :: MeantFor(job, e, q) && p <= q && (p == q ==> e.body.DirEntry?)
  }

  /** p has to be a directory: a destination lies there or below, or an entry does. */
  ghost predicate NeededAsDir(job: Job, es: seq<Entry>, p: Path) {
    || (exists d :: d in job.dests && p <= d.dst)
    || (exists k :: 0 <= k < |es| && WantsDir(job, es[k], p))
  }

  /** Two parts of the archive want one path as a file and as a directory. */
  ghost predicate Collision(job: Job, es: seq<Entry>) {
    exists j, p :: 0 <= j < |es| && es[j].body.FileEntry? && MeantFor(job, es[j], p) && NeededAsDir(job, es, p)
  }

  ghost predicate Obstructed(job: Job, entries: seq<Entry>) {
    AncestorIsFile(job) || Refused(job, entries) || Collision(job, entries)
  }

  // ---- Directories in staging ----

  lemma NeededPrefix(job: Job, es: seq<Entry>, p: Path, q: Path)
    requires NeededAsDir(job, es, q) && p <= q
    ensures NeededAsDir(job, es, p)
  {
    if d :| d in job.dests && q <= d.dst {
      PrefixTransitive(p, q, d.dst);
    } else {
      var k :| 0 <= k < |es| && WantsDir(job, es[k], q);
      var x :| MeantFor(job, es[k], x) && q <= x && (q == x ==> es[k].body.DirEntry?);
      PrefixTransitive(p, q, x);
      assert WantsDir(job, es[k], p);
    }
  }

  lemma NeededGrows(job: Job, es: seq<Entry>, e: Entry, p: Path)
    requires NeededAsDir(job, es, p)
    ensures NeededAsDir(job, es + [e], p)
  {
    if k :| 0 <= k < |es| && WantsDir(job, es[k], p) { assert (es + [e])[k] == es[k]; }
  }

  /** Every directory in a staging area is there for a reason. */
  ghost predicate DirsNeeded(job: Job, fs: Fs, swaps: seq<Swap>, es: seq<Entry>) {
    forall s :: s in swaps && s.stagingCreated ==> DirsNeededFor(job, fs, s, es)
  }

  ghost predicate DirsNeededFor(job: Job, fs: Fs, s: Swap, es: seq<Entry>) {
    forall rel :: Get(fs, s.staging + rel) == Some(Directory) ==> NeededAsDir(job, es, s.dst + rel)
  }

  lemma Regrouped(a: Path, x: Path, y: Path)
    ensures a + (x + y) == a + x + y
  {
  }

  lemma Extension(a: Path, x: Path, b: Path) returns (rest: Path)
    requires a + x <= b
    ensures a + (x + rest) == b
  {
    rest := b[|a + x|..];
    Regrouped(a, x, rest);
  }

  /** Staged paths nest as the paths they stand for. */
  lemma StagedPrefix(job: Job, s: Swap, t: Swap, x: Path, y: Path)
    requires job.Valid() && job.SwapOk(s) && job.SwapOk(t) && s.stagingCreated && t.stagingCreated
    requires s.staging + x <= t.staging + y
    ensures s.dst + x <= t.dst + y
  {
    var rest := Extension(s.staging, x, t.staging + y);
    StagingInjective(job, s, t, x + rest, y);
    Regrouped(s.dst, x, rest);
  }

  /** Directories that appear along a path whose counterpart is needed are needed. */
  lemma GrowKeepsNeeded(job: Job, fs: Fs, fs': Fs, swaps: seq<Swap>, es: seq<Entry>, t: Swap, rel: Path)
    requires job.Valid() && job.SwapsOk(swaps) && job.SwapOk(t) && t.stagingCreated
    requires DirsNeeded(job, fs, swaps, es) && NeededAsDir(job, es, t.dst + rel)
    requires forall q :: Get(fs', q) == Some(Directory) ==> Get(fs, q) == Some(Directory) || q <= t.staging + rel
    ensures DirsNeeded(job, fs', swaps, es)
  {
    forall s, r | s in swaps && s.stagingCreated && Get(fs', s.staging + r) == Some(Directory)
      ensures NeededAsDir(job, es, s.dst + r)
    {
      if s.staging + r <= t.staging + rel {
        StagedPrefix(job, s, t, r, rel);
        NeededPrefix(job, es, s.dst + r, t.dst + rel);
      }
    }
  }

  lemma MoreEntriesNeeded(job: Job, fs: Fs, swaps: seq<Swap>, es: seq<Entry>, e: Entry)
    requires DirsNeeded(job, fs, swaps, es)
    ensures DirsNeeded(job, fs, swaps, es + [e])
  {
    forall s, r | s in swaps && s.stagingCreated && Get(fs, s.staging + r) == Some(Directory)
      ensures NeededAsDir(job, es + [e], s.dst + r)
    {
      NeededGrows(job, es, e, s.dst + r);
    }
  }

  lemma MarkKeepsNeeded(job: Job, fs: Fs, swaps: seq<Swap>, es: seq<Entry>, i: nat)
    requires DirsNeeded(job, fs, swaps, es) && i < |swaps|
    ensures DirsNeeded(job, fs, swaps[i := swaps[i].(hadEntries := true)], es)
  {
    var swaps' := swaps[i := swaps[i].(hadEntries := true)];
    forall s, r | s in swaps' && s.stagingCreated && Get(fs, s.staging + r) == Some(Directory)
      ensures NeededAsDir(job, es, s.dst + r)
    {
      var j :| 0 <= j < |swaps'| && swaps'[j] == s;
      assert swaps[j] in swaps && swaps[j].staging == s.staging && swaps[j].dst == s.dst;
    }
  }

  /** The shape of the staging areas during extraction. */
  ghost predicate Orderly(job: Job, fs: Fs, swaps: seq<Swap>, es: seq<Entry>) {
    DirsNeeded(job, fs, swaps, es) && Closed(fs, swaps) && FilesPresent(job, fs, swaps, es)
  }

  lemma MarkKeepsOrderly(job: Job, fs: Fs, swaps: seq<Swap>, es: seq<Entry>, i: nat)
    requires Orderly(job, fs, swaps, es) && i < |swaps|
    ensures Orderly(job, fs, swaps[i := swaps[i].(hadEntries := true)], es)
  {
    MarkKeepsNeeded(job, fs, swaps, es, i);
    MarkKeepsClosed(fs, swaps, i);
    MarkKeepsFiles(job, fs, swaps, es, i);
  }

  /** What staging entry e makes of the directories. */
  lemma StagingKeepsNeeded(job: Job, fs: Fs, fs': Fs, swaps: seq<Swap>, es: seq<Entry>, e: Entry, i: nat, rel: Path)
    requires job.Valid() && job.SwapsOk(swaps) && i < |swaps| && swaps[i].stagingCreated && rel != []
    requires DirsNeeded(job, fs, swaps, es) && Lands(job, e, swaps[i].tree, rel)
    requires e.body.OtherEntry? ==> fs' == fs
    requires DirsAlong(fs, fs', swaps[i].staging + rel, e.body)
    ensures DirsNeeded(job, fs', swaps, es + [e])
  {
    var es', s := es + [e], swaps[i];
    assert job.SwapOk(s) && es'[|es|] == e;
    MoreEntriesNeeded(job, fs, swaps, es, e);
    if !e.body.OtherEntry? {
      var rel' := if e.body.DirEntry? then rel else Parent(rel);
      EntryNeeds(job, es, e, s, rel, rel');
      forall q | Get(fs', q) == Some(Directory) && Get(fs, q) != Some(Directory) ensures q <= s.staging + rel' {
        AlongStaging(s.staging, rel, q, e.body.DirEntry?);
      }
      GrowKeepsNeeded(job, fs, fs', swaps, es', s, rel');
    }
  }

  lemma AlongStaging(a: Path, rel: Path, q: Path, isDir: bool)
    requires rel != [] && q <= a + rel && (q == a + rel ==> isDir)
    ensures q <= a + (if isDir then rel else Parent(rel))
  {
    if q != a + rel {
      WithinParent(a + rel, q);
      assert Parent(a + rel) == a + Parent(rel);
    }
  }

  lemma EntryNeeds(job: Job, es: seq<Entry>, e: Entry, s: Swap, rel: Path, rel': Path)
    requires Dest(s.tree, s.dst) in job.dests && Lands(job, e, s.tree, rel) && !e.body.OtherEntry?
    requires rel' <= rel && (rel' == rel ==> e.body.DirEntry?)
    ensures NeededAsDir(job, es + [e], s.dst + rel')
  {
    PlacedIsMeant(job, e, s, rel);
    assert s.dst + rel' <= s.dst + rel && |s.dst + rel'| == |s.dst| + |rel'|;
    assert rel' != rel ==> |rel'| < |rel|;
    assert WantsDir(job, e, s.dst + rel');
    assert (es + [e])[|es|] == e;
  }

  // ---- Staging areas are trees ----

  /** Whatever is staged hangs below directories. */
  ghost predicate Closed(fs: Fs, swaps: seq<Swap>) {
    forall s :: s in swaps && s.stagingCreated ==> ClosedBelow(fs, s.staging)
  }

  ghost predicate ClosedBelow(fs: Fs, root: Path) {
    forall p, q :: root <= p && Within(q, p) && q in fs ==> Get(fs, p) == Some(Directory)
  }

  /** Only directories on the way to p have appeared. */
  ghost predicate GrowsAlong(fs0: Fs, fs1: Fs, p: Path) {
    forall q :: Get(fs1, q) == Get(fs0, q) || (q !in fs0 && Get(fs1, q) == Some(Directory) && q <= p)
  }

  /** From some directory that existed, directories lead all the way to p. */
  ghost predicate Bridged(fs0: Fs, fs1: Fs, p: Path) {
    exists e :: e <= p && Get(fs0, e) == Some(Directory) && DirsFrom(fs1, e, p)
  }

  ghost predicate DirsFrom(fs: Fs, e: Path, p: Path) {
    forall n :: |e| <= n <= |p| ==> Get(fs, p[..n]) == Some(Directory)
  }

  lemma DirsAt(fs: Fs, e: Path, p: Path, a: Path)
    requires DirsFrom(fs, e, p) && e <= a <= p
    ensures Get(fs, a) == Some(Directory)
  {
    assert a == p[..|a|];
  }

  lemma BridgedStep(fs0: Fs, fs1: Fs, p: Path)
    requires p != [] && Bridged(fs0, fs1, Parent(p))
    ensures Bridged(fs0, fs1[p := Directory], p)
  {
    var e :| e <= Parent(p) && Get(fs0, e) == Some(Directory) && DirsFrom(fs1, e, Parent(p));
    PrefixTransitive(e, Parent(p), p);
    forall n | |e| <= n <= |p| ensures Get(fs1[p := Directory], p[..n]) == Some(Directory) {
      if n < |p| { assert p[..n] == Parent(p)[..n]; } else { assert p[..n] == p; }
    }
  }

  /** Inside a staging area the bridge reaches all the way up. */
  lemma PathIsDirs(fs0: Fs, fs1: Fs, swaps: seq<Swap>, p: Path, s: Swap, a: Path)
    requires Closed(fs0, swaps) && GrowsAlong(fs0, fs1, p) && Bridged(fs0, fs1, p)
    requires s in swaps && s.stagingCreated && s.staging <= a <= p
    ensures Get(fs1, a) == Some(Directory)
  {
    var e :| e <= p && Get(fs0, e) == Some(Directory) && DirsFrom(fs1, e, p);
    CommonExtension(e, a, p);
    if e <= a {
      DirsAt(fs1, e, p, a);
    } else {
      assert Within(e, a) && e in fs0;
      assert Get(fs0, a) == Some(Directory);
    }
  }

  lemma GrowKeepsClosed(fs0: Fs, fs1: Fs, swaps: seq<Swap>, p: Path)
    requires Closed(fs0, swaps) && GrowsAlong(fs0, fs1, p) && Bridged(fs0, fs1, p)
    ensures Closed(fs1, swaps)
  {
    forall s, a, q | s in swaps && s.stagingCreated && s.staging <= a && Within(q, a) && q in fs1
      ensures Get(fs1, a) == Some(Directory)
    {
      if q in fs0 {
        assert Get(fs0, a) == Some(Directory);
      } else {
        assert Get(fs1, q) != Get(fs0, q);
        PrefixTransitive(a, q, p);
        PathIsDirs(fs0, fs1, swaps, p, s, a);
      }
    }
  }

  /** A file put below a directory, not over one. */
  lemma FileKeepsClosed(fs: Fs, swaps: seq<Swap>, target: Path, c: Content)
    requires Closed(fs, swaps) && target != [] && Get(fs, Parent(target)) == Some(Directory)
    requires Get(fs, target) != Some(Directory)
    ensures Closed(fs[target := File(c)], swaps)
  {
    var fs' := fs[target := File(c)];
    forall s, a, q | s in swaps && s.stagingCreated && s.staging <= a && Within(q, a) && q in fs'
      ensures Get(fs', a) == Some(Directory)
    {
      if q == target {
        WithinParent(target, a);
        if a != Parent(target) { assert Within(Parent(target), a); }
        assert a != target;
      }
      assert Get(fs, a) == Some(Directory);
    }
  }

  lemma ClaimKeepsClosed(fs: Fs, swaps: seq<Swap>, k: nat, root: Swap, s': Swap)
    requires Closed(fs, swaps) && k < |swaps| && root in swaps && root.stagingCreated && root.staging <= s'.staging
    ensures Closed(fs, swaps[k := s'])
  {
    forall s, a, q | s in swaps[k := s'] && s.stagingCreated && s.staging <= a && Within(q, a) && q in fs
      ensures Get(fs, a) == Some(Directory)
    {
      if s == s' { PrefixTransitive(root.staging, s.staging, a); }
      else { assert s in swaps; }
    }
  }

  lemma SameStagingClosed(fs: Fs, swaps: seq<Swap>, swaps': seq<Swap>)
    requires Closed(fs, swaps)
    requires forall s' :: s' in swaps' ==> exists s :: s in swaps && s.stagingCreated == s'.stagingCreated && s.staging == s'.staging
    ensures Closed(fs, swaps')
  {
  }

  lemma MarkKeepsClosed(fs: Fs, swaps: seq<Swap>, i: nat)
    requires Closed(fs, swaps) && i < |swaps|
    ensures Closed(fs, swaps[i := swaps[i].(hadEntries := true)])
  {
    var swaps' := swaps[i := swaps[i].(hadEntries := true)];
    forall s' | s' in swaps'
      ensures exists s :: s in swaps && s.stagingCreated == s'.stagingCreated && s.staging == s'.staging
    {
      var j :| 0 <= j < |swaps'| && swaps'[j] == s';
      assert swaps[j] in swaps;
    }
    SameStagingClosed(fs, swaps, swaps');
  }

  // ---- Nothing collides once everything is staged ----

  ghost predicate FilesPresent(job: Job, fs: Fs, swaps: seq<Swap>, es: seq<Entry>) {
    forall k, i, rel :: 0 <= k < |es| && es[k].body.FileEntry? && 0 <= i < |swaps| && Lands(job, es[k], swaps[i].tree, rel) ==>
      FileAt(fs, swaps[i].staging + rel)
  }

  lemma MarkKeepsFiles(job: Job, fs: Fs, swaps: seq<Swap>, es: seq<Entry>, i: nat)
    requires FilesPresent(job, fs, swaps, es) && i < |swaps|
    ensures FilesPresent(job, fs, swaps[i := swaps[i].(hadEntries := true)], es)
  {
    var swaps' := swaps[i := swaps[i].(hadEntries := true)];
    forall k, j, rel | 0 <= k < |es| && 0 <= j < |swaps'| && Lands(job, es[k], swaps'[j].tree, rel) && es[k].body.FileEntry?
      ensures FileAt(fs, swaps'[j].staging + rel)
    {
      assert FileAt(fs, swaps[j].staging + rel);
    }
  }

  lemma SkipKeepsFiles(job: Job, fs: Fs, swaps: seq<Swap>, es: seq<Entry>, e: Entry)
    requires FilesPresent(job, fs, swaps, es) && !Place(e.name, Trees(job.dests)).Placed?
    ensures FilesPresent(job, fs, swaps, es + [e])
  {
    var es' := es + [e];
    forall k, j, rel | 0 <= k < |es'| && 0 <= j < |swaps| && Lands(job, es'[k], swaps[j].tree, rel) && es'[k].body.FileEntry?
      ensures FileAt(fs, swaps[j].staging + rel)
    {
      assert k < |es| && es'[k] == es[k];
    }
  }

  ghost predicate FilesStay(fs: Fs, fs': Fs) {
    forall q :: FileAt(fs, q) ==> FileAt(fs', q)
  }

  lemma StagingKeepsFiles(job: Job, fs: Fs, fs': Fs, swaps: seq<Swap>, es: seq<Entry>, e: Entry, i: nat, rel: Path)
    requires job.Valid() && job.SwapsOk(swaps) && i < |swaps| && Lands(job, e, swaps[i].tree, rel)
    requires FilesPresent(job, fs, swaps, es) && FilesStay(fs, fs')
    requires StagesOnly(fs, fs', swaps[i].staging + rel, e.body)
    ensures FilesPresent(job, fs', swaps, es + [e])
  {
    var es' := es + [e];
    forall k, j, r | 0 <= k < |es'| && 0 <= j < |swaps| && Lands(job, es'[k], swaps[j].tree, r) && es'[k].body.FileEntry?
      ensures FileAt(fs', swaps[j].staging + r)
    {
      if k < |es| {
        assert es'[k] == es[k];
        assert FileAt(fs, swaps[j].staging + r);
      } else {
        SameTree(job, swaps, i, j);
      }
    }
  }

  /** A path that is needed as a directory is staged as one. */
  ghost predicate AllStaged(fs: Fs, swaps: seq<Swap>) {
    forall i :: 0 <= i < |swaps| ==> StagedOn(fs, swaps[i])
  }

  /** Paths nest as their staged counterparts. */
  lemma PrefixStaged(job: Job, s: Swap, t: Swap, x: Path, y: Path)
    requires job.Valid() && job.SwapOk(s) && job.SwapOk(t) && s.stagingCreated && t.stagingCreated
    requires s.dst + x <= t.dst + y
    ensures s.staging + x <= t.staging + y
    ensures s.dst + x != t.dst + y ==> s.staging + x != t.staging + y
  {
    var rest := Extension(s.dst, x, t.dst + y);
    SamePlace(job, s, t, x + rest, y);
    Regrouped(s.staging, x, rest);
    Regrouped(s.dst, x, rest);
  }

  lemma Hangs(fs: Fs, swaps: seq<Swap>, s: Swap, p: Path, q: Path)
    requires Closed(fs, swaps) && s in swaps && s.stagingCreated && s.staging <= p && Within(q, p) && q in fs
    ensures Get(fs, p) == Some(Directory)
  {
  }

  /** The record of a destination, with what extraction knows of it. */
  lemma StagedRecord(job: Job, fs: Fs, swaps: seq<Swap>, d: Dest) returns (i: nat)
    requires job.Valid() && job.SwapsOk(swaps) && AllStaged(fs, swaps) && HasSwap(swaps, d)
    ensures i < |swaps| && Dest(swaps[i].tree, swaps[i].dst) == d
    ensures job.SwapOk(swaps[i]) && StagedOn(fs, swaps[i]) && swaps[i] in swaps
  {
    i := RecordOf(job, swaps, d);
  }

  lemma DestIsStaged(job: Job, fs: Fs, swaps: seq<Swap>, s: Swap, t: Swap, x: Path)
    requires job.Valid() && job.SwapOk(s) && job.SwapOk(t) && s.stagingCreated && StagedOn(fs, t)
    requires Closed(fs, swaps) && s in swaps && s.dst + x <= t.dst
    ensures Get(fs, s.staging + x) == Some(Directory)
  {
    assert t.dst + [] == t.dst && t.staging + [] == t.staging;
    PrefixStaged(job, s, t, x, []);
    if s.staging + x != t.staging { Hangs(fs, swaps, s, s.staging + x, t.staging); }
  }

  lemma WantedIsStaged(job: Job, fs: Fs, swaps: seq<Swap>, s: Swap, t: Swap, x: Path, rel: Path, isDir: bool)
    requires job.Valid() && job.SwapOk(s) && job.SwapOk(t) && s.stagingCreated && t.stagingCreated
    requires Closed(fs, swaps) && s in swaps
    requires s.dst + x <= t.dst + rel && (s.dst + x == t.dst + rel ==> isDir)
    requires t.staging + rel in fs && (isDir ==> Get(fs, t.staging + rel) == Some(Directory))
    ensures Get(fs, s.staging + x) == Some(Directory)
  {
    PrefixStaged(job, s, t, x, rel);
    if s.dst + x == t.dst + rel {
      SamePlace(job, s, t, x, rel);
    } else {
      Hangs(fs, swaps, s, s.staging + x, t.staging + rel);
    }
  }

  /** Everything an archive asks for has been staged. */
  ghost predicate FullyStaged(job: Job, fs: Fs, swaps: seq<Swap>, es: seq<Entry>) {
    && job.Valid() && job.SwapsOk(swaps) && AllStaged(fs, swaps) && Closed(fs, swaps)
    && (forall d :: d in job.dests ==> HasSwap(swaps, d))
    && FilesPresent(job, fs, swaps, es) && Written(job, fs, swaps, es)
  }

  lemma EntryIsStaged(job: Job, fs: Fs, swaps: seq<Swap>, es: seq<Entry>, k: nat, i: nat, rel: Path)
    requires FullyStaged(job, fs, swaps, es) && k < |es| && i < |swaps| && Lands(job, es[k], swaps[i].tree, rel)
    ensures es[k].body.FileEntry? ==> FileAt(fs, swaps[i].staging + rel)
    ensures es[k].body.DirEntry? ==> Get(fs, swaps[i].staging + rel) == Some(Directory)
  {
    assert WrittenAt(job, fs, swaps[i], es, k, rel);
  }

  /** A path that is wanted as a directory is staged as one. */
  lemma WantsIsStaged(job: Job, fs: Fs, swaps: seq<Swap>, es: seq<Entry>, s: Swap, x: Path, k: nat)
    requires FullyStaged(job, fs, swaps, es) && s in swaps && job.SwapOk(s) && s.stagingCreated
    requires k < |es| && WantsDir(job, es[k], s.dst + x)
    ensures Get(fs, s.staging + x) == Some(Directory)
  {
    var q :| MeantFor(job, es[k], q) && s.dst + x <= q && (s.dst + x == q ==> es[k].body.DirEntry?);
    var d, rel :| d in job.dests && Lands(job, es[k], d.tree, rel) && q == d.dst + rel;
    var i := StagedRecord(job, fs, swaps, d);
    EntryIsStaged(job, fs, swaps, es, k, i, rel);
    WantedIsStaged(job, fs, swaps, s, swaps[i], x, rel, es[k].body.DirEntry?);
  }

  lemma NoDestAtFile(job: Job, fs: Fs, swaps: seq<Swap>, es: seq<Entry>, s: Swap, rel: Path, d: Dest)
    requires FullyStaged(job, fs, swaps, es) && s in swaps && job.SwapOk(s) && s.stagingCreated
    requires FileAt(fs, s.staging + rel) && d in job.dests
    ensures !(s.dst + rel <= d.dst)
  {
    var t := StagedRecord(job, fs, swaps, d);
    if s.dst + rel <= d.dst { DestIsStaged(job, fs, swaps, s, swaps[t], rel); }
  }

  lemma NotWantedAtFile(job: Job, fs: Fs, swaps: seq<Swap>, es: seq<Entry>, s: Swap, rel: Path, k: nat)
    requires FullyStaged(job, fs, swaps, es) && s in swaps && job.SwapOk(s) && s.stagingCreated
    requires FileAt(fs, s.staging + rel) && k < |es|
    ensures !WantsDir(job, es[k], s.dst + rel)
  {
    if WantsDir(job, es[k], s.dst + rel) { WantsIsStaged(job, fs, swaps, es, s, rel, k); }
  }

  lemma FileNotNeeded(job: Job, fs: Fs, swaps: seq<Swap>, es: seq<Entry>, j: nat, p: Path)
    requires FullyStaged(job, fs, swaps, es) && j < |es| && es[j].body.FileEntry? && MeantFor(job, es[j], p)
    ensures !NeededAsDir(job, es, p)
  {
    hide Ordered, Separate, FreshNames, TreeClosed;
    var d, rel :| d in job.dests && Lands(job, es[j], d.tree, rel) && p == d.dst + rel;
    var i := StagedRecord(job, fs, swaps, d);
    EntryIsStaged(job, fs, swaps, es, j, i, rel);
    forall d' | d' in job.dests ensures !(p <= d'.dst) { NoDestAtFile(job, fs, swaps, es, swaps[i], rel, d'); }
    forall k | 0 <= k < |es| ensures !WantsDir(job, es[k], p) { NotWantedAtFile(job, fs, swaps, es, swaps[i], rel, k); }
  }

  /** An archive that could be staged in full has no collision. */
  lemma StagedWithoutCollision(job: Job, fs: Fs, swaps: seq<Swap>, es: seq<Entry>)
    requires FullyStaged(job, fs, swaps, es)
    ensures !Collision(job, es)
  {
    forall j, p | 0 <= j < |es| && es[j].body.FileEntry? && MeantFor(job, es[j], p) ensures !NeededAsDir(job, es, p) {
      FileNotNeeded(job, fs, swaps, es, j, p);
    }
  }

  // ---- Why a step that was not refused fails ----

  /** A file in the way of a staged path comes from an entry that collides with this one. */
  lemma FileInTheWay(job: Job, fs: Fs, swaps: seq<Swap>, es: seq<Entry>, e: Entry, r: nat, t: Swap, rel: Path, a: Path)
    requires job.Valid() && r < |swaps| && job.SwapOk(swaps[r]) && job.SwapOk(t)
    requires swaps[r].stagingCreated && t.stagingCreated
    requires Sourced(job, fs, swaps, es) && Lands(job, e, t.tree, rel) && !e.body.OtherEntry?
    requires swaps[r].staging <= a <= t.staging + rel && FileAt(fs, a) && (a == t.staging + rel ==> e.body.DirEntry?)
    ensures Collision(job, es + [e])
  {
    hide Ordered, Separate, FreshNames, TreeClosed;
    var s := swaps[r];
    var x := a[|s.staging|..];
    assert a == s.staging + x;
    assert FromArchive(job, es, s.dst + x, fs[a].content);
    StagedPrefix(job, s, t, x, rel);
    if s.dst + x == t.dst + rel { SamePlace(job, s, t, x, rel); }
    PlacedIsMeant(job, e, t, rel);
    FileUnderEntry(job, es, e, s.dst + x, t.dst + rel, fs[a].content);
  }

  lemma FileUnderEntry(job: Job, es: seq<Entry>, e: Entry, p: Path, q: Path, c: Content)
    requires FromArchive(job, es, p, c) && MeantFor(job, e, q) && !e.body.OtherEntry?
    requires p <= q && (p == q ==> e.body.DirEntry?)
    ensures Collision(job, es + [e])
  {
    var es' := es + [e];
    var j :| 0 <= j < |es| && es[j].body == FileEntry(c) && MeantFor(job, es[j], p);
    assert es'[j] == es[j] && es'[|es|] == e;
    assert WantsDir(job, es'[|es|], p);
    assert NeededAsDir(job, es', p);
  }

  /** Equal destinations are staged at equal paths. */
  lemma SamePlace(job: Job, s: Swap, t: Swap, x: Path, y: Path)
    requires job.Valid() && job.SwapOk(s) && job.SwapOk(t) && s.stagingCreated && t.stagingCreated
    requires s.dst + x == t.dst + y
    ensures s.staging + x == t.staging + y
  {
    var i := SwapRoot(job, s);
    var j := SwapRoot(job, t);
    StagedBelow(job, s, i, x);
    StagedBelow(job, t, j, y);
    PrefixTransitive(job.dests[i].dst, s.dst, s.dst + x);
    PrefixTransitive(job.dests[j].dst, t.dst, t.dst + y);
    CommonExtension(job.dests[i].dst, job.dests[j].dst, s.dst + x);
    assert !Within(job.dests[i].dst, job.dests[j].dst) && !Within(job.dests[j].dst, job.dests[i].dst);
  }

  /** A directory where a file should go is needed by someone else. */
  lemma DirectoryInTheWay(job: Job, fs: Fs, swaps: seq<Swap>, es: seq<Entry>, e: Entry, i: nat, rel: Path)
    requires job.Valid() && job.SwapsOk(swaps) && i < |swaps| && swaps[i].stagingCreated
    requires DirsNeeded(job, fs, swaps, es) && Lands(job, e, swaps[i].tree, rel) && e.body.FileEntry?
    requires Get(fs, swaps[i].staging + rel) == Some(Directory)
    ensures Collision(job, es + [e])
  {
    var t, es' := swaps[i], es + [e];
    assert job.SwapOk(t) && t in swaps;
    var p := t.dst + rel;
    PlacedIsMeant(job, e, t, rel);
    assert NeededAsDir(job, es, p);
    NeededGrows(job, es, e, p);
    assert es'[|es|] == e;
  }

  /** What keeps an entry from being written at `target`: a file on the way, or a directory there. */
  ghost predicate InTheWay(fs: Fs, root: Path, target: Path, body: Body) {
    !body.OtherEntry? &&
    (|| (exists a :: root <= a <= target && FileAt(fs, a) && (a == target ==> body.DirEntry?))
     || (body.FileEntry? && Get(fs, target) == Some(Directory)))
  }

  lemma FileAbove(fs: Fs, root: Path, target: Path, body: Body)
    requires target != [] && body.FileEntry?
    ensures FileInside(fs, root, Parent(target)) ==> InTheWay(fs, root, target, body)
  {
    if FileInside(fs, root, Parent(target)) {
      var a :| root <= a <= Parent(target) && FileAt(fs, a);
      PrefixTransitive(a, Parent(target), target);
    }
  }

  lemma WayIsCollision(job: Job, fs: Fs, swaps: seq<Swap>, es: seq<Entry>, e: Entry, r: nat, i: nat, rel: Path)
    requires job.Valid() && job.SwapsOk(swaps) && r < |swaps| && i < |swaps|
    requires swaps[r].stagingCreated && swaps[i].stagingCreated
    requires Sourced(job, fs, swaps, es) && DirsNeeded(job, fs, swaps, es) && Lands(job, e, swaps[i].tree, rel)
    requires InTheWay(fs, swaps[r].staging, swaps[i].staging + rel, e.body)
    ensures Collision(job, es + [e])
  {
    if e.body.FileEntry? && Get(fs, swaps[i].staging + rel) == Some(Directory) {
      DirectoryInTheWay(job, fs, swaps, es, e, i, rel);
    } else {
      var t := swaps[i];
      var a :| swaps[r].staging <= a <= t.staging + rel && FileAt(fs, a) && (a == t.staging + rel ==> e.body.DirEntry?);
      assert job.SwapOk(swaps[r]) && job.SwapOk(t);
      FileInTheWay(job, fs, swaps, es, e, r, t, rel, a);
    }
  }

  /** Directories appear only on the way to the target, at the target only for a directory entry. */
  ghost predicate DirsAlong(fs: Fs, fs': Fs, target: Path, body: Body) {
    forall q :: Get(fs', q) == Some(Directory) ==>
      Get(fs, q) == Some(Directory) || (q <= target && (q == target ==> body.DirEntry?))
  }

  lemma CollisionGrows(job: Job, es: seq<Entry>, e: Entry)
    requires Collision(job, es)
    ensures Collision(job, es + [e])
  {
    var j, p :| 0 <= j < |es| && es[j].body.FileEntry? && MeantFor(job, es[j], p) && NeededAsDir(job, es, p);
    NeededGrows(job, es, e, p);
    assert (es + [e])[j] == es[j];
  }

  /** A collision among the first entries is one of the whole archive. */
  lemma {:induction false} CollisionInPrefix(job: Job, es: seq<Entry>, n: nat)
    requires n <= |es| && Collision(job, es[..n])
    ensures Collision(job, es)
    decreases |es| - n
  {
    hide Collision;
    if n == |es| {
      assert es[..n] == es;
    } else {
      CollisionGrows(job, es[..n], es[n]);
      assert es[..n] + [es[n]] == es[..n + 1];
      CollisionInPrefix(job, es, n + 1);
    }
  }

  // ---- Preparation ----

  /** Parents of outermost destinations never lie in a staging area. */
  lemma AboveNotStaged(job: Job, s: Swap, rel: Path)
    requires job.Valid() && job.SwapOk(s) && s.stagingCreated
    ensures !job.AboveSome(s.staging + rel)
  {
    var q := s.staging + rel;
    var r := SwapRoot(job, s);
    StagedBelow(job, s, r, rel);
    var root := StagingOf(job.dests[r].dst, job.stamp);
    forall i | 0 <= i < |job.dests| && Outermost(job.dests, job.dests[i].dst) ensures !Within(job.dests[i].dst, q) {
      if Within(job.dests[i].dst, q) { AncestorsOutside(job.dests, job.stamp, job.before, i, r, q, root); }
    }
  }

  lemma ParentsKeepNeeded(job: Job, fs: Fs, fs': Fs, swaps: seq<Swap>)
    requires job.Valid() && job.SwapsOk(swaps) && DirsNeeded(job, fs, swaps, [])
    requires forall q :: Get(fs', q) == Get(fs, q) || job.AboveSome(q)
    ensures DirsNeeded(job, fs', swaps, [])
  {
    forall s, r | s in swaps && s.stagingCreated && Get(fs', s.staging + r) == Some(Directory)
      ensures NeededAsDir(job, [], s.dst + r)
    {
      AboveNotStaged(job, s, r);
    }
  }

  /** Nothing is in the staging area of an outermost tree before it is claimed. */
  lemma StagingStillFree(job: Job, fs: Fs, swaps: seq<Swap>, created: seq<Path>, i: nat, p: Path)
    requires job.Inv(fs, swaps, created) && i < |swaps| && job.Outer(swaps[i]) && swaps[i].dst != []
    requires !swaps[i].stagingCreated && StagingOf(swaps[i].dst, job.stamp) <= p
    ensures p !in fs
  {
    var s := swaps[i];
    assert job.SwapOk(s);
    forall j | 0 <= j < |swaps| ensures !job.Owns(swaps[j], p) {
      if j != i && job.Owns(swaps[j], p) {
        job.OwnersDiffer(swaps[j], s, StagingOf(s.dst, job.stamp), p);
      }
    }
    assert job.Untouched(swaps, p);
    job.ReservedStartFree(s, p);
    if p in created { job.AboveIsOutside(s, p, StagingOf(s.dst, job.stamp)); }
  }

  lemma ParentsKeepClosed(job: Job, fs: Fs, fs': Fs, swaps: seq<Swap>)
    requires job.Valid() && job.SwapsOk(swaps) && Closed(fs, swaps)
    requires forall q :: Get(fs', q) == Get(fs, q) || job.AboveSome(q)
    ensures Closed(fs', swaps)
  {
    forall s, a, q | s in swaps && s.stagingCreated && s.staging <= a && Within(q, a) && q in fs'
      ensures Get(fs', a) == Some(Directory)
    {
      PrefixTransitive(s.staging, a, q);
      NotAboveInside(job, s, a);
      NotAboveInside(job, s, q);
      assert Get(fs', q) == Get(fs, q) && Get(fs', a) == Get(fs, a);
    }
  }

  lemma NotAboveInside(job: Job, s: Swap, p: Path)
    requires job.Valid() && job.SwapOk(s) && s.stagingCreated && s.staging <= p
    ensures !job.AboveSome(p)
  {
    hide Job.Valid, Job.SwapOk, Job.AboveSome;
    AboveNotStaged(job, s, p[|s.staging|..]);
    assert s.staging + p[|s.staging|..] == p;
  }

  /** Another tree's staging area has nothing to do with a new outermost staging directory. */
  lemma ClosedBeside(job: Job, fs: Fs, fs': Fs, swaps: seq<Swap>, s: Swap, s': Swap, a: Path, q: Path)
    requires job.Valid() && job.SwapOk(s) && s.stagingCreated && s in swaps && Closed(fs, swaps)
    requires s'.dst != [] && s'.staging == StagingOf(s'.dst, job.stamp) && job.AboveSome(Parent(s'.dst))
    requires OnlyAppears(fs, fs', s'.staging) && s.staging <= a && Within(q, a) && q in fs'
    ensures Get(fs', a) == Some(Directory)
  {
    PrefixTransitive(s.staging, a, q);
    if q == s'.staging {
      WithinParent(q, a);
      PrefixTransitive(s.staging, a, Parent(q));
      assert Parent(q) == Parent(s'.dst);
      NotAboveInside(job, s, Parent(q));
    }
    assert Get(fs', q) == Get(fs, q);
    Hangs(fs, swaps, s, a, q);
  }

  lemma OutermostKeepsClosed(job: Job, fs: Fs, fs': Fs, swaps: seq<Swap>, created: seq<Path>, i: nat, s': Swap)
    requires job.Inv(fs, swaps, created) && i < |swaps| && job.Outer(swaps[i]) && !swaps[i].stagingCreated
    requires s' == swaps[i].(staging := s'.staging, stagingCreated := true) && job.SwapOk(s')
    requires Closed(fs, swaps) && OnlyAppears(fs, fs', s'.staging)
    ensures Closed(fs', swaps[i := s'])
  {
    job.OuterStaging(s');
    job.ParentIsAbove(s');
    forall q | Within(q, s'.staging) ensures q !in fs' {
      StagingStillFree(job, fs, swaps, created, i, q);
      assert Get(fs', q) == Get(fs, q);
    }
    forall s, a, q | s in swaps[i := s'] && s.stagingCreated && s.staging <= a && Within(q, a) && q in fs'
      ensures Get(fs', a) == Some(Directory)
    {
      if s == s' {
        PrefixTransitive(s.staging, a, q);
        assert false;
      } else {
        assert s in swaps && job.SwapOk(s);
        ClosedBeside(job, fs, fs', swaps, s, s', a, q);
      }
    }
  }

  /** Claiming a fresh staging directory of an outermost tree. */
  lemma OutermostKeepsNeeded(job: Job, fs: Fs, fs': Fs, swaps: seq<Swap>, created: seq<Path>, i: nat, s': Swap)
    requires job.Inv(fs, swaps, created) && i < |swaps| && job.Outer(swaps[i]) && !swaps[i].stagingCreated
    requires s' == swaps[i].(staging := s'.staging, stagingCreated := true) && job.SwapOk(s')
    requires DirsNeeded(job, fs, swaps, [])
    requires forall q :: Get(fs', q) == Get(fs, q) || q == s'.staging
    ensures DirsNeeded(job, fs', swaps[i := s'], [])
  {
    job.OuterStaging(s');
    forall s, r | s in swaps[i := s'] && s.stagingCreated && Get(fs', s.staging + r) == Some(Directory)
      ensures NeededAsDir(job, [], s.dst + r)
    {
      if s == s' {
        if r != [] { StagingStillFree(job, fs, swaps, created, i, s.staging + r); }
        assert Dest(s.tree, s.dst) in job.dests && s.dst + [] == s.dst;
      } else {
        assert s in swaps;
        if s.staging + r == s'.staging {
          assert s'.staging + [] == s'.staging && s'.dst + [] == s'.dst;
          StagingInjective(job, s, s', r, []);
          assert Dest(s'.tree, s'.dst) in job.dests;
        }
      }
    }
  }

  /** What is staged for a nested tree is staged for the outermost one around it. */
  lemma ReadThroughRoot(job: Job, fs: Fs, swaps: seq<Swap>, root: Swap, s: Swap, r: Path)
    requires job.Valid() && job.SwapOk(root) && job.SwapOk(s) && root.stagingCreated && s.stagingCreated
    requires root in swaps && root.staging <= s.staging && DirsNeeded(job, fs, swaps, [])
    requires Get(fs, s.staging + r) == Some(Directory)
    ensures NeededAsDir(job, [], s.dst + r)
  {
    hide Ordered, Separate, FreshNames, TreeClosed;
    PrefixTransitive(root.staging, s.staging, s.staging + r);
    var x := (s.staging + r)[|root.staging|..];
    assert root.staging + x == s.staging + r;
    StagingInjective(job, root, s, x, r);
  }

  /** Claiming a nested staging directory that was created below an outermost one. */
  lemma NestedKeepsNeeded(job: Job, fs: Fs, fs': Fs, swaps: seq<Swap>, i: nat, o: nat, s': Swap)
    requires job.Valid() && job.SwapsOk(swaps) && i < |swaps| && o < |swaps| && !swaps[i].stagingCreated
    requires s'.stagingCreated && job.SwapOk(s')
    requires swaps[o].stagingCreated && swaps[o].staging <= s'.staging
    requires DirsNeeded(job, fs, swaps, [])
    requires forall q :: Get(fs', q) == Get(fs, q) || q <= s'.staging
    ensures DirsNeeded(job, fs', swaps[i := s'], [])
  {
    hide Ordered, Separate, FreshNames, TreeClosed;
    assert s'.dst + [] == s'.dst && s'.staging + [] == s'.staging;
    assert NeededAsDir(job, [], s'.dst + []) by { assert Dest(s'.tree, s'.dst) in job.dests; }
    GrowKeepsNeeded(job, fs, fs', swaps, [], s', []);
    forall s, r | s in swaps[i := s'] && s.stagingCreated && Get(fs', s.staging + r) == Some(Directory)
      ensures NeededAsDir(job, [], s.dst + r)
    {
      if s == s' {
        assert job.SwapOk(swaps[o]);
        ReadThroughRoot(job, fs', swaps, swaps[o], s', r);
      } else {
        assert s in swaps;
      }
    }
  }

  /** The parent of an outermost destination is a directory. */
  ghost predicate Grounded(job: Job, created: seq<Path>, s: Swap) {
    job.Outer(s) && s.dst != [] ==> job.Base(created, Parent(s.dst)) == Some(Directory)
  }

  /** Parents were only created below directories. */
  ghost predicate CreatedGrounded(job: Job, created: seq<Path>) {
    forall c :: c in created && c != [] ==> job.Base(created, Parent(c)) == Some(Directory)
  }

  lemma GroundedGrows(job: Job, created: seq<Path>, c: Path)
    requires CreatedGrounded(job, created) && c != [] && job.Base(created + [c], Parent(c)) == Some(Directory)
    ensures CreatedGrounded(job, created + [c])
  {
  }

  /** Above a directory of the baseline there are only directories. */
  lemma {:induction false} BaseDirs(job: Job, created: seq<Path>, p: Path, a: Path)
    requires job.Valid() && CreatedGrounded(job, created) && job.Base(created, p) == Some(Directory) && a <= p
    ensures job.Base(created, a) == Some(Directory)
    decreases |p|
  {
    if a != p {
      WithinParent(p, a);
      assert p !in created ==> p in job.before && Parent(p) in job.before && job.before[Parent(p)] == Directory;
      BaseDirs(job, created, Parent(p), a);
    }
  }

  /** A fully prepared restore found no file above any destination. */
  lemma PreparedWithoutFile(job: Job, fs: Fs, swaps: seq<Swap>, created: seq<Path>)
    requires PreparedState(job, fs, swaps, created, |job.dests|) && Tidy(job, fs, swaps, created, |job.dests|)
    ensures !AncestorIsFile(job)
  {
    forall a, i | 0 <= i < |job.dests| && Outermost(job.dests, job.dests[i].dst) && Within(job.dests[i].dst, a)
      ensures !FileAt(job.before, a)
    {
      assert Dest(swaps[i].tree, swaps[i].dst) == job.dests[i] && Grounded(job, created, swaps[i]);
      WithinParent(swaps[i].dst, a);
      BaseDirs(job, created, Parent(swaps[i].dst), a);
    }
  }

  ghost predicate AllGrounded(job: Job, created: seq<Path>, swaps: seq<Swap>) {
    forall i :: 0 <= i < |swaps| ==> Grounded(job, created, swaps[i])
  }

  lemma MarkKeepsGrounded(job: Job, created: seq<Path>, swaps: seq<Swap>, i: nat)
    requires AllGrounded(job, created, swaps) && i < |swaps|
    ensures AllGrounded(job, created, swaps[i := swaps[i].(hadEntries := true)])
  {
    assert Grounded(job, created, swaps[i]);
  }

  /** A staged tree can always be moved into place, and what it replaces out of the way. */
  lemma PromotePossible(job: Job, fs: Fs, swaps: seq<Swap>, created: seq<Path>, i: nat)
    requires job.Inv(fs, swaps, created) && i < |swaps| && job.Outer(swaps[i]) && swaps[i].stagingCreated
    requires swaps[i].dstExisted == swaps[i].backedUp && !swaps[i].promoted
    requires Grounded(job, created, swaps[i]) && swaps[i].staging in fs
    ensures CanMove(fs, swaps[i].staging, swaps[i].dst)
  {
    var s := swaps[i];
    assert job.SwapOk(s);
    job.DestinationFree(fs, swaps, created, i);
    job.ParentIsAbove(s);
    job.AboveReadsBase(fs, swaps, created, Parent(s.dst));
  }

  lemma BackupPossible(job: Job, fs: Fs, swaps: seq<Swap>, created: seq<Path>, i: nat)
    requires job.Inv(fs, swaps, created) && i < |swaps| && job.Outer(swaps[i])
    requires swaps[i].dstExisted && !swaps[i].backedUp && !swaps[i].promoted
    ensures CanMove(fs, swaps[i].dst, swaps[i].pre)
  {
    var s := swaps[i];
    assert job.SwapOk(s);
    job.PreRestoreFree(fs, swaps, created, i);
    job.DestinationUntouched(fs, swaps, created, i, s.dst);
    job.ParentStillThere(fs, swaps, created, s);
    assert Parent(s.pre) == Parent(s.dst);
  }

  lemma FileRightAbove(fs: Fs, c: Path)
    requires c != [] && [] in fs && c !in fs && Parent(c) in fs && Blocked(fs, c)
    ensures FileAt(fs, Parent(c))
  {
    var a :| DeepestIsFile(fs, c, a);
    assert Parent(c) <= c;
    assert a == c[..|a|] && a != c && c[..|c|] == c;
    assert |Parent(c)| <= |a| < |c|;
  }

  /** Creating one missing ancestor is only blocked by a file right above it. */
  lemma ParentBlocked(job: Job, fs: Fs, swaps: seq<Swap>, created: seq<Path>, c: Path)
    requires job.Inv(fs, swaps, created) && c != [] && job.AboveSome(Parent(c))
    requires [] in fs && c !in fs && Parent(c) in fs && Blocked(fs, c)
    ensures AncestorIsFile(job)
  {
    FileRightAbove(fs, c);
    job.AboveReadsBase(fs, swaps, created, Parent(c));
    assert FileAt(job.before, Parent(c));
  }

  /** Below a claimed staging directory only a file inside it blocks. */
  lemma BlockedInside(fs: Fs, root: Path, p: Path)
    requires [] in fs && root in fs && root <= p && Blocked(fs, p)
    ensures FileInside(fs, root, p)
  {
    var a :| DeepestIsFile(fs, p, a);
    CommonExtension(root, a, p);
  }

  /** Before extraction no file lies in a staging area. */
  lemma NoFileStaged(job: Job, fs: Fs, s: Swap, p: Path)
    requires job.Valid() && FilesAreOld(job, fs) && job.SwapOk(s) && job.Outer(s) && s.stagingCreated
    ensures !FileInside(fs, s.staging, p)
  {
    job.OuterStaging(s);
    forall a | s.staging <= a <= p ensures !FileAt(fs, a) {
      job.ReservedStartFree(s, a);
      assert Get(fs, a).Some? && Get(fs, a).value.File? ==> a in job.before;
    }
  }

  // ---- The second pass of prepareStaging ----

  /** Tree by tree: no stray directory in a staging area, and the first k trees have a place to go. */
  ghost predicate Tidy(job: Job, fs: Fs, swaps: seq<Swap>, created: seq<Path>, k: nat) {
    && DirsNeeded(job, fs, swaps, []) && Closed(fs, swaps) && CreatedGrounded(job, created)
    && GroundedUpTo(job, created, swaps, k)
  }

  ghost predicate GroundedUpTo(job: Job, created: seq<Path>, swaps: seq<Swap>, k: nat) {
    forall i :: 0 <= i < k && i < |swaps| ==> Grounded(job, created, swaps[i])
  }

  lemma StillGrounded(job: Job, created: seq<Path>, created': seq<Path>, s: Swap)
    requires Grounded(job, created, s) && created <= created'
    ensures Grounded(job, created', s)
  {
    assert forall c :: c in created ==> c in created';
  }

  /** Creating parent directories disturbs nothing that is prepared. */
  lemma ParentsKeepPrepared(job: Job, fs: Fs, fs': Fs, swaps: seq<Swap>, created: seq<Path>, created': seq<Path>, k: nat)
    requires PreparedState(job, fs, swaps, created, k) && Tidy(job, fs, swaps, created, k)
    requires job.Inv(fs', swaps, created') && GrowsByDirs(fs, fs') && created <= created' && CreatedGrounded(job, created')
    requires forall q :: Get(fs', q) == Get(fs, q) || job.AboveSome(q)
    ensures PreparedState(job, fs', swaps, created', k) && Tidy(job, fs', swaps, created', k)
  {
    StillOld(job, fs, fs');
    StagedGrows(fs, fs', swaps, k);
    ParentsKeepNeeded(job, fs, fs', swaps);
    ParentsKeepClosed(job, fs, fs', swaps);
    forall i | 0 <= i < k ensures Grounded(job, created', swaps[i]) {
      StillGrounded(job, created, created', swaps[i]);
    }
  }

  ghost predicate OnlyAppears(fs: Fs, fs': Fs, p: Path) {
    && Get(fs', p) == Some(Directory)
    && forall q :: q != p ==> Get(fs', q) == Get(fs, q)
  }

  /** An outermost tree counts as prepared once its staging directory exists. */
  lemma OutermostClaimed(job: Job, fs: Fs, fs': Fs, swaps: seq<Swap>, created: seq<Path>, k: nat, s': Swap)
    requires PreparedState(job, fs, swaps, created, k) && k < |swaps| && job.Outer(swaps[k])
    requires s' == swaps[k].(staging := s'.staging, stagingCreated := true) && job.SwapOk(s')
    requires OnlyAppears(fs, fs', s'.staging) && GrowsByDirs(fs, fs')
    ensures PreparedState(job, fs', swaps[k := s'], created, k + 1)
  {
    var swaps' := swaps[k := s'];
    assert !swaps[k].stagingCreated && Idle(swaps[k]);
    job.ClaimStaging(fs, swaps, created, k, s');
    job.StagingIsPrivate(fs, fs', swaps', created, k);
    StillOld(job, fs, fs');
    StagedGrows(fs, fs', swaps, k);
    assert Paired(job, swaps') by { assert Dest(swaps[k].tree, swaps[k].dst) == job.dests[k]; }
  }

  lemma OutermostTidy(job: Job, fs: Fs, fs': Fs, swaps: seq<Swap>, created: seq<Path>, k: nat, s': Swap)
    requires PreparedState(job, fs, swaps, created, k) && Tidy(job, fs, swaps, created, k)
    requires k < |swaps| && job.Outer(swaps[k])
    requires s' == swaps[k].(staging := s'.staging, stagingCreated := true) && job.SwapOk(s')
    requires OnlyAppears(fs, fs', s'.staging)
    requires Get(fs, Parent(s'.dst)) == Some(Directory)
    ensures Tidy(job, fs', swaps[k := s'], created, k + 1)
  {
    OutermostKeepsNeeded(job, fs, fs', swaps, created, k, s');
    OutermostKeepsClosed(job, fs, fs', swaps, created, k, s');
    job.ParentIsAbove(s');
    job.AboveReadsBase(fs, swaps, created, Parent(s'.dst));
  }

  lemma NestedKeepsClosed(fs: Fs, fs': Fs, swaps: seq<Swap>, k: nat, root: Swap, s': Swap)
    requires Closed(fs, swaps) && k < |swaps| && root in swaps && root.stagingCreated && root.staging <= s'.staging
    requires GrowsAlong(fs, fs', s'.staging) && Bridged(fs, fs', s'.staging)
    ensures Closed(fs', swaps[k := s'])
  {
    GrowKeepsClosed(fs, fs', swaps, s'.staging);
    ClaimKeepsClosed(fs', swaps, k, root, s');
  }

  lemma GroundedUpdate(job: Job, swaps: seq<Swap>, created: seq<Path>, k: nat, s': Swap)
    requires k < |swaps| && Grounded(job, created, s')
    requires GroundedUpTo(job, created, swaps, k)
    ensures GroundedUpTo(job, created, swaps[k := s'], k + 1)
  {
  }

  lemma NestedTidy(job: Job, fs: Fs, fs': Fs, swaps: seq<Swap>, created: seq<Path>, k: nat, o: nat, s': Swap)
    requires job.Valid() && job.SwapsOk(swaps) && Tidy(job, fs, swaps, created, k)
    requires k < |swaps| && o < k && !job.Outer(s') && !swaps[k].stagingCreated && swaps[o].stagingCreated
    requires s'.stagingCreated && job.SwapOk(s') && swaps[o].staging <= s'.staging
    requires GrowsAlong(fs, fs', s'.staging) && Bridged(fs, fs', s'.staging)
    ensures Tidy(job, fs', swaps[k := s'], created, k + 1)
  {
    assert swaps[o] in swaps;
    NestedKeepsNeeded(job, fs, fs', swaps, k, o, s');
    NestedKeepsClosed(fs, fs', swaps, k, swaps[o], s');
    GroundedUpdate(job, swaps, created, k, s');
  }

  /** Tree k is nested, to be recorded as s' and staged below outermost tree r. */
  ghost predicate NestedPlan(job: Job, swaps: seq<Swap>, k: nat, r: nat, s': Swap)
    requires Distinct(job.dests)
  {
    && r < k < |swaps| && job.Outer(swaps[r]) && !job.Outer(swaps[k])
    && s' == swaps[k].(staging := s'.staging, nestedUnder := s'.nestedUnder) && s'.nestedUnder.Some?
    && job.SwapOk(s'.(stagingCreated := true)) && swaps[r].staging <= s'.staging
  }

  /** Directories were made all the way to p, and nothing else. */
  ghost predicate MadeBelow(fs: Fs, fs': Fs, p: Path) {
    GrowsAlong(fs, fs', p) && Bridged(fs, fs', p) && Get(fs', p) == Some(Directory)
  }

  /** A nested tree counts as prepared once its staging directory exists below an outermost one. */
  lemma NestedPrepared(job: Job, fs: Fs, fs': Fs, swaps: seq<Swap>, created: seq<Path>, k: nat, r: nat, s': Swap)
    requires PreparedState(job, fs, swaps, created, k) && Tidy(job, fs, swaps, created, k)
    requires NestedPlan(job, swaps, k, r, s') && job.Inv(fs', swaps, created) && MadeBelow(fs, fs', s'.staging)
    ensures PreparedState(job, fs', swaps[k := s'.(stagingCreated := true)], created, k + 1)
    ensures Tidy(job, fs', swaps[k := s'.(stagingCreated := true)], created, k + 1)
  {
    assert StagedOn(fs, swaps[r]) && !swaps[k].stagingCreated;
    job.NoteNesting(fs', swaps, created, k, s');
    NestedClaimed(job, fs, fs', swaps, created, k, s');
    NestedTidy(job, fs, fs', swaps, created, k, r, s'.(stagingCreated := true));
  }

  lemma OutermostPrepared(job: Job, fs: Fs, fs': Fs, swaps: seq<Swap>, created: seq<Path>, k: nat, s': Swap)
    requires PreparedState(job, fs, swaps, created, k) && Tidy(job, fs, swaps, created, k)
    requires k < |swaps| && job.Outer(swaps[k])
    requires s' == swaps[k].(staging := s'.staging, stagingCreated := true) && job.SwapOk(s')
    requires s'.staging !in fs && OnlyAppears(fs, fs', s'.staging)
    requires Get(fs, Parent(s'.dst)) == Some(Directory)
    ensures PreparedState(job, fs', swaps[k := s'], created, k + 1) && Tidy(job, fs', swaps[k := s'], created, k + 1)
  {
    assert GrowsByDirs(fs, fs');
    OutermostClaimed(job, fs, fs', swaps, created, k, s');
    OutermostTidy(job, fs, fs', swaps, created, k, s');
  }

  lemma FreshFits(job: Job, d: Dest)
    requires job.Valid() && d in job.dests && d.dst != []
    ensures job.SwapOk(job.NewSwap(d))
  {
  }

  /** The records of the first pass, on the initial disk. */
  lemma FreshRecords(job: Job, swaps: seq<Swap>)
    requires job.Valid() && |swaps| == |job.dests|
    requires forall i :: 0 <= i < |swaps| ==> job.dests[i].dst != [] && swaps[i] == job.NewSwap(job.dests[i])
    ensures PreparedState(job, job.before, swaps, [], 0) && Tidy(job, job.before, swaps, [], 0)
  {
    forall i | 0 <= i < |swaps| ensures job.SwapOk(swaps[i]) { FreshFits(job, job.dests[i]); }
    hide Ordered, Separate, FreshNames, TreeClosed;
    forall p ensures Get(job.before, p) == job.Base([], p) { }
  }

  // ---- The state file under config ----

  lemma StateFileMeant(stamp: string, e: Entry, p: Path)
    requires e in OneStateFile && MeantFor(StateOnly(stamp), e, p)
    ensures p == TwoLevels[1].dst + ["a"]
  {
    StateFileLands(stamp);
  }

  /** Nothing stands in the way of an archive with one state file. */
  lemma StateFileUnobstructed(stamp: string)
    ensures !Obstructed(StateOnly(stamp), OneStateFile)
  {
    var job := StateOnly(stamp);
    var q := TwoLevels[1].dst + ["a"];
    StateFileLands(stamp);
    forall e, p | e in OneStateFile && MeantFor(job, e, p) ensures p == q { StateFileMeant(stamp, e, p); }
    assert !WantsDir(job, OneStateFile[0], q);
    forall i | 0 <= i < 3 ensures !(q <= TwoLevels[i].dst) { assert q[2] == "a" && |q| == 3; }
    assert !NeededAsDir(job, OneStateFile, q);
  }

  // ---- Writing one entry ----

  /** Room for a file: its directory leads up to it, and no directory is in its place. */
  ghost predicate MadeRoom(fs: Fs, mid: Fs, target: Path)
    requires target != []
  {
    && GrowsAlong(fs, mid, Parent(target)) && Bridged(fs, mid, Parent(target))
    && Get(mid, Parent(target)) == Some(Directory) && Get(mid, target) != Some(Directory)
  }

  /** The disk effect of writing an entry at `target`. */
  ghost predicate Stages(fs: Fs, fs': Fs, target: Path, body: Body)
    requires target != []
  {
    match body
    case DirEntry => GrowsAlong(fs, fs', target) && Bridged(fs, fs', target) && Get(fs', target) == Some(Directory)
    case OtherEntry => fs' == fs
    case FileEntry(c) => exists mid :: MadeRoom(fs, mid, target) && fs' == mid[target := File(c)]
  }

  lemma StagesEffect(fs: Fs, fs': Fs, target: Path, body: Body)
    requires target != [] && Stages(fs, fs', target, body)
    ensures StagesOnly(fs, fs', target, body) && DirsAlong(fs, fs', target, body) && FilesStay(fs, fs')
  {
    if body.FileEntry? {
      var mid :| MadeRoom(fs, mid, target) && fs' == mid[target := File(body.content)];
      assert Parent(target) <= target && !(target <= Parent(target));
      assert Get(fs, target) == Get(mid, target);
      forall q | Get(mid, q) != Get(fs, q) ensures q <= target && q != target {
        PrefixTransitive(q, Parent(target), target);
      }
    }
  }

  lemma StagesKeepsClosed(fs: Fs, fs': Fs, swaps: seq<Swap>, target: Path, body: Body)
    requires target != [] && Stages(fs, fs', target, body) && Closed(fs, swaps)
    ensures Closed(fs', swaps)
  {
    if body.DirEntry? {
      GrowKeepsClosed(fs, fs', swaps, target);
    } else if body.FileEntry? {
      var mid :| MadeRoom(fs, mid, target) && fs' == mid[target := File(body.content)];
      GrowKeepsClosed(fs, mid, swaps, Parent(target));
      FileKeepsClosed(mid, swaps, target, body.content);
    }
  }
}

/** What rollback computes, as a function of the disk, the swap records and the created parents, on any
    layout whatsoever. */
module RestoreRollback {

  import opened Wrappers
  import opened Filesystem
  import opened RestoreInvariant

  /** One record: drop what was promoted, bring back what was preserved if that is possible, drop staging. */
  function UndoRecord(fs: Fs, s: Swap): (r: Fs) {
    if s.nestedUnder.Some? then fs
    else
      var fs1 := if s.promoted then RemoveTree(fs, s.dst) else fs;
      var fs2 := if s.backedUp && CanMove(fs1, s.pre, s.dst) then MoveTree(fs1, s.pre, s.dst) else fs1;
      if s.stagingCreated then RemoveTree(fs2, s.staging) else fs2
  }

  /** The first n records, last one first. */
  function UndoFrom(fs: Fs, swaps: seq<Swap>, n: nat): (r: Fs)
    requires n <= |swaps|
    decreases n
  {
    if n == 0 then fs else UndoFrom(UndoRecord(fs, swaps[n - 1]), swaps, n - 1)
  }

  /** The created parents, last one first; one that is not empty stays. */
  function DropParents(fs: Fs, created: seq<Path>): (r: Fs) {
    if created == [] then fs
    else DropParents(RemoveNode(fs, created[|created| - 1]), created[..|created| - 1])
  }

  function RolledBack(fs: Fs, swaps: seq<Swap>, created: seq<Path>): (r: Fs) {
    DropParents(UndoFrom(fs, swaps, |swaps|), created)
  }

  /** Only the first n records matter, and of those not whether they received entries. */
  lemma {:induction false} UndoFromSame(fs: Fs, a: seq<Swap>, b: seq<Swap>, n: nat)
    requires n <= |a| && n <= |b| && forall i :: 0 <= i < n ==> b[i] == a[i].(hadEntries := b[i].hadEntries)
    ensures UndoFrom(fs, a, n) == UndoFrom(fs, b, n)
    decreases n
  {
    if n > 0 {
      assert UndoRecord(fs, a[n - 1]) == UndoRecord(fs, b[n - 1]);
      UndoFromSame(UndoRecord(fs, a[n - 1]), a, b, n - 1);
    }
  }

  // ---- Records that are staged and no more ----

  /** Some staging directory of records lo..hi covers p. */
  predicate Covered(swaps: seq<Swap>, lo: nat, hi: nat, p: Path)
    requires lo <= hi <= |swaps|
  {
    exists i :: lo <= i < hi && Covers(swaps[i], p)
  }

  predicate Covers(s: Swap, p: Path) { s.nestedUnder.None? && s.stagingCreated && s.staging <= p }

  /** The disk without the staging directories of records lo..hi. */
  function Strip(fs: Fs, swaps: seq<Swap>, lo: nat, hi: nat): (r: Fs)
    requires lo <= hi <= |swaps|
  {
    map p | p in fs && !Covered(swaps, lo, hi, p) :: fs[p]
  }

  ghost predicate Unmoved(swaps: seq<Swap>, lo: nat, hi: nat)
    requires lo <= hi <= |swaps|
  {
    forall i :: lo <= i < hi ==> !swaps[i].backedUp && !swaps[i].promoted
  }

  lemma StripOne(fs: Fs, s: Swap, p: Path)
    requires !s.backedUp && !s.promoted
    ensures Get(UndoRecord(fs, s), p) == if Covers(s, p) then None else Get(fs, p)
  {
  }

  lemma {:induction false} UndoTail(fs: Fs, swaps: seq<Swap>, lo: nat, hi: nat)
    requires lo <= hi <= |swaps| && Unmoved(swaps, lo, hi)
    ensures UndoFrom(fs, swaps, hi) == UndoFrom(Strip(fs, swaps, lo, hi), swaps, lo)
    decreases hi
  {
    if lo == hi {
      SameFs(Strip(fs, swaps, lo, hi), fs);
    } else {
      var fs1 := UndoRecord(fs, swaps[hi - 1]);
      UndoTail(fs1, swaps, lo, hi - 1);
      forall p ensures Get(Strip(fs1, swaps, lo, hi - 1), p) == Get(Strip(fs, swaps, lo, hi), p) {
        StripOne(fs, swaps[hi - 1], p);
        assert Covered(swaps, lo, hi, p) <==> Covered(swaps, lo, hi - 1, p) || Covers(swaps[hi - 1], p);
      }
      SameFs(Strip(fs1, swaps, lo, hi - 1), Strip(fs, swaps, lo, hi));
    }
  }

  // ---- Separate layouts ----

  /** While the invariant holds, undoing an outermost record keeps it. */
  lemma UndoKeepsInv(job: Job, fs: Fs, swaps: seq<Swap>, created: seq<Path>, i: nat)
    requires job.Inv(fs, swaps, created) && i < |swaps| && swaps[i].nestedUnder.None?
    ensures job.Inv(UndoRecord(fs, swaps[i]), swaps[i := job.Undone(swaps[i])], created)
    ensures job.Released(job.Undone(swaps[i]))
  {
    var s := swaps[i];
    assert job.SwapOk(s);
    if job.Outer(s) {
      job.UndoSwapKeepsInv(fs, swaps, created, i);
      if s.backedUp { job.BringBackPossible(fs, swaps, created, i); }
      assert UndoRecord(fs, s) == job.UndoSwap(fs, s);
    } else {
      assert job.Undone(s) == s && swaps[i := s] == swaps;
    }
  }

  lemma NestedReleased(job: Job, fs: Fs, swaps: seq<Swap>, created: seq<Path>, i: nat)
    requires job.Inv(fs, swaps, created) && i < |swaps| && swaps[i].nestedUnder.Some?
    ensures job.Released(swaps[i])
  {
    assert job.SwapOk(swaps[i]);
  }

  /** Undoing all records leaves the initial disk plus the created parents. */
  lemma {:induction false} UndoneAll(job: Job, fs: Fs, swaps: seq<Swap>, created: seq<Path>, n: nat)
    requires job.Inv(fs, swaps, created) && n <= |swaps| && forall j :: n <= j < |swaps| ==> job.Released(swaps[j])
    ensures job.PlusDirectories(UndoFrom(fs, swaps, n), created)
    decreases n
  {
    hide Job.Inv, UndoRecord, Job.PlusDirectories;
    if n == 0 {
      job.NothingOwned(fs, swaps, created);
    } else if swaps[n - 1].nestedUnder.Some? {
      NestedReleased(job, fs, swaps, created, n - 1);
      SkipNested(fs, swaps[n - 1]);
      UndoneAll(job, fs, swaps, created, n - 1);
    } else {
      var swaps' := swaps[n - 1 := job.Undone(swaps[n - 1])];
      UndoKeepsInv(job, fs, swaps, created, n - 1);
      UndoneAll(job, UndoRecord(fs, swaps[n - 1]), swaps', created, n - 1);
      UndoFromSame(UndoRecord(fs, swaps[n - 1]), swaps, swaps', n - 1);
    }
  }

  lemma SkipNested(fs: Fs, s: Swap)
    requires s.nestedUnder.Some?
    ensures UndoRecord(fs, s) == fs
  {
  }

  lemma {:induction false} DropAll(job: Job, fs: Fs, created: seq<Path>)
    requires job.Valid() && job.CreatedOrdered(created) && job.PlusDirectories(fs, created)
    ensures DropParents(fs, created) == job.before
    decreases |created|
  {
    if created == [] {
      job.NoneCreated(fs);
    } else {
      hide Job.Valid, RemoveNode, Job.PlusDirectories;
      job.DropLast(fs, created);
      DropAll(job, RemoveNode(fs, created[|created| - 1]), created[..|created| - 1]);
    }
  }

  /** Rollback exactness on separate layouts: from any state a restore can reach. */
  lemma RolledBackIsBefore(job: Job, fs: Fs, swaps: seq<Swap>, created: seq<Path>)
    requires job.Inv(fs, swaps, created)
    ensures RolledBack(fs, swaps, created) == job.before
  {
    UndoneAll(job, fs, swaps, created, |swaps|);
    job.CreatedPrefix(created, |created|);
    assert created[..|created|] == created;
    DropAll(job, UndoFrom(fs, swaps, |swaps|), created);
  }
}

/** The restore transaction itself: stage, extract, swap, and undo. Every forward operation may
    fail; rollback's own operations succeed whenever they are physically possible. */
module RestoreTransaction {

  import opened Wrappers
  import opened Filesystem
  import opened RestoreLayout
  import opened ArchiveNames
  import opened RestoreInvariant
  import opened RestoreArchive
  import opened RestoreObstacles
  import opened RestoreRollback

  class RestoreTx {
    const job: Job
    var fs: Fs
    var swaps: seq<Swap>
    var createdParents: seq<Path>
    var committed: bool
    const refuses: nat -> bool // which calls the operating system refuses although they are possible
    var calls: nat

    constructor (dests: seq<Dest>, stamp: string, disk: Fs, refuses: nat -> bool)
      ensures job == Job(dests, stamp, disk) && fs == disk && swaps == [] && createdParents == [] && !committed
      ensures this.refuses == refuses && calls == 0
    {
      job := Job(dests, stamp, disk);
      this.refuses := refuses;
      fs, swaps, createdParents, committed, calls := disk, [], [], false, 0;
    }

    /** Some call so far was refused. */
    ghost predicate Faulted()
      reads this
    {
      exists k :: 0 <= k < calls && refuses(k)
    }

    method Attempt() returns (ok: bool)
      modifies this`calls
      ensures calls == old(calls) + 1 && ok == !refuses(old(calls))
    {
      ok := !refuses(calls);
      calls := calls + 1;
    }

    ghost predicate Good()
      reads this
    {
      job.Inv(fs, swaps, createdParents)
    }

    ghost predicate Staged(s: Swap)
      reads this
    {
      StagedOn(fs, s)
    }

    // ---- Disk primitives ----

    /** Directory creation adds directories along `p`, below everything on `p` that already exists. */
    ghost predicate OnlyAdds(fs0: Fs, fs1: Fs, p: Path) {
      forall q :: Get(fs1, q) == Get(fs0, q) || AddedAlong(fs0, fs1, p, q)
    }

    ghost predicate AddedAlong(fs0: Fs, fs1: Fs, p: Path, q: Path) {
      && q !in fs0 && q <= p && Get(fs1, q) == Some(Directory)
      && forall a :: a in fs0 && a <= p ==> |a| < |q|
    }

    /** os.MkdirAll: creates missing directories top-down and may stop part-way. */
    method MkdirAll(p: Path) returns (ok: bool)
      modifies this`fs, this`calls
      ensures ok ==> Get(fs, p) == Some(Directory)
      ensures ok && p !in old(fs) && p != [] ==> Get(fs, Parent(p)) == Some(Directory)
      ensures ok ==> Bridged(old(fs), fs, p)
      ensures !ok ==> Get(fs, p) == Get(old(fs), p)
      ensures !ok ==> Faulted() || Blocked(old(fs), p)
      ensures OnlyAdds(old(fs), fs, p)
      decreases |p|
    {
      if p in fs {
        ok := fs[p].Directory?;
        assert p[..|p|] == p;
        assert ok ==> DirsFrom(fs, p, p);
        assert !ok ==> DeepestIsFile(fs, p, p);
        return;
      }
      if p == [] { return false; }
      forall a | Within(p, a) ensures a <= Parent(p) { WithinParent(p, a); }
      ok := MkdirAll(Parent(p));
      AlongParent(old(fs), fs, p);
      if !ok { return; }
      ok := Attempt();
      if ok {
        ghost var disk := fs;
        fs := fs[p := Directory];
        BridgedStep(old(fs), disk, p);
        AlongPath(old(fs), disk, p);
      }
    }

    lemma AlongParent(fs0: Fs, fs1: Fs, p: Path)
      requires p != [] && p !in fs0 && OnlyAdds(fs0, fs1, Parent(p))
      ensures OnlyAdds(fs0, fs1, p)
      ensures Blocked(fs0, Parent(p)) ==> Blocked(fs0, p)
    {
      forall a | a in fs0 && a <= p ensures a <= Parent(p) { WithinParent(p, a); }
      forall q | Get(fs1, q) != Get(fs0, q) ensures AddedAlong(fs0, fs1, p, q) {
        assert AddedAlong(fs0, fs1, Parent(p), q);
        PrefixTransitive(q, Parent(p), p);
      }
      if [] in fs0 && Blocked(fs0, Parent(p)) {
        var a :| DeepestIsFile(fs0, Parent(p), a);
        PrefixTransitive(a, Parent(p), p);
        assert DeepestIsFile(fs0, p, a);
      }
    }

    lemma AlongPath(fs0: Fs, fs1: Fs, p: Path)
      requires p != [] && p !in fs0 && OnlyAdds(fs0, fs1, p)
      ensures OnlyAdds(fs0, fs1[p := Directory], p)
    {
      var fs2 := fs1[p := Directory];
      forall q | Get(fs2, q) != Get(fs0, q) ensures AddedAlong(fs0, fs2, p, q) {
        if q == p {
          forall a | a in fs0 && a <= p ensures |a| < |p| { assert Within(p, a); }
        } else {
          assert AddedAlong(fs0, fs1, p, q);
        }
      }
    }

    /** safeRenameDir: all or nothing, and never onto an existing name. */
    method Rename(a: Path, b: Path) returns (ok: bool)
      modifies this`fs, this`calls
      ensures ok ==> old(CanMove(fs, a, b)) && fs == MoveTree(old(fs), a, b)
      ensures !ok ==> fs == old(fs) && (Faulted() || !CanMove(fs, a, b))
    {
      if !CanMove(fs, a, b) { return false; }
      ok := Attempt();
      if ok { fs := MoveTree(fs, a, b); }
    }

    // ---- prepareStaging ----

    /** The absent part of the chain of ancestors, innermost first. */
    method FindMissing(parent: Path) returns (missing: seq<Path>)
      requires [] in fs
      ensures |missing| <= |parent|
      ensures forall k :: 0 <= k < |missing| ==> missing[k] == parent[..|parent| - k] && missing[k] !in fs
      ensures parent[..|parent| - |missing|] in fs
    {
      missing := [];
      var cur := parent;
      while cur !in fs
        invariant |missing| <= |parent| && cur == parent[..|parent| - |missing|]
        invariant forall k :: 0 <= k < |missing| ==> missing[k] == parent[..|parent| - k] && missing[k] !in fs
        decreases |cur|
      {
        missing := missing + [cur];
        cur := Parent(cur);
      }
    }

    /** Creates and records one missing ancestor whose own parent exists. */
    method CreateParent(c: Path) returns (ok: bool)
      requires Good() && CreatedGrounded(job, createdParents)
      requires job.AboveSome(c) && c != [] && [] in fs && c !in fs && Parent(c) in fs
      modifies this`fs, this`createdParents, this`calls
      ensures Good() && CreatedGrounded(job, createdParents)
      ensures !ok ==> fs == old(fs) && createdParents == old(createdParents)
      ensures !ok ==> Faulted() || AncestorIsFile(job)
      ensures ok ==> fs == old(fs)[c := Directory] && createdParents == old(createdParents) + [c]
    {
      ghost var disk := fs;
      ok := MkdirBelow(c);
      if ok {
        SameFs(fs, disk[c := Directory]);
        job.NewParentKeepsInv(disk, swaps, createdParents, c);
        job.AboveParent(c);
        job.AboveReadsBase(fs, swaps, createdParents + [c], Parent(c));
        GroundedGrows(job, createdParents, c);
        createdParents := createdParents + [c];
      } else {
        job.AboveParent(c);
        if Blocked(fs, c) { ParentBlocked(job, fs, swaps, createdParents, c); }
      }
    }

    /** Only ancestors of outermost destinations have appeared. */
    ghost predicate OnlyParents(fs0: Fs, fs1: Fs) {
      forall q :: Get(fs1, q) == Get(fs0, q) || (q !in fs0 && Get(fs1, q) == Some(Directory) && job.AboveSome(q))
    }

    /** Creates the missing chain from the outermost ancestor down, recording each directory. */
    method CreateMissing(parent: Path, missing: seq<Path>) returns (ok: bool)
      requires Good() && CreatedGrounded(job, createdParents) && |missing| <= |parent| && [] in fs
      requires forall k :: 0 <= k < |missing| ==>
        missing[k] == parent[..|parent| - k] && missing[k] !in fs && job.AboveSome(missing[k])
      requires parent[..|parent| - |missing|] in fs
      modifies this`fs, this`createdParents, this`calls
      ensures Good() && old(createdParents) <= createdParents && CreatedGrounded(job, createdParents)
      ensures ok ==> parent in fs
      ensures !ok ==> Faulted() || AncestorIsFile(job)
      ensures OnlyParents(old(fs), fs)
    {
      hide Job.Inv;
      var k := |missing|;
      while k > 0
        invariant 0 <= k <= |missing|
        invariant Good() && [] in fs && old(createdParents) <= createdParents && CreatedGrounded(job, createdParents)
        invariant OnlyParents(old(fs), fs)
        invariant parent[..|parent| - k] in fs
        invariant forall m :: 0 <= m < k ==> missing[m] !in fs
      {
        k := k - 1;
        var c := missing[k];
        assert |c| == |parent| - k && Parent(c) == parent[..|parent| - (k + 1)];
        ok := CreateParent(c);
        if !ok { return; }
        assert forall m :: 0 <= m < k ==> |missing[m]| > |c|;
      }
      assert parent[..|parent|] == parent;
      ok := true;
    }

    /** Makes sure the directory holding a destination exists. */
    method EnsureParent(i: nat) returns (ok: bool)
      requires Good() && CreatedGrounded(job, createdParents)
      requires i < |swaps| && job.Outer(swaps[i]) && swaps[i].dst != []
      modifies this`fs, this`createdParents, this`calls
      ensures Good() && old(createdParents) <= createdParents && CreatedGrounded(job, createdParents)
      ensures ok ==> Parent(swaps[i].dst) in fs
      ensures !ok ==> Faulted() || AncestorIsFile(job)
      ensures OnlyParents(old(fs), fs)
    {
      var parent := Parent(swaps[i].dst);
      if parent in fs { return true; }
      RootPresent(i);
      var missing := FindMissing(parent);
      forall k | 0 <= k < |missing| ensures job.AboveSome(missing[k]) { Ancestor(i, missing[k]); }
      ok := CreateMissing(parent, missing);
    }

    lemma Ancestor(i: nat, c: Path)
      requires Good() && i < |swaps| && job.Outer(swaps[i]) && Within(swaps[i].dst, c)
      ensures job.AboveSome(c)
    {
      assert job.SwapOk(swaps[i]);
      var j :| 0 <= j < |job.dests| && job.dests[j] == Dest(swaps[i].tree, swaps[i].dst);
      assert Within(job.dests[j].dst, c);
    }

    lemma RootPresent(i: nat)
      requires Good() && i < |swaps| && job.Outer(swaps[i]) && swaps[i].dst != []
      ensures [] in fs
    {
      Ancestor(i, []);
      job.AboveReadsBase(fs, swaps, createdParents, []);
    }

    ghost predicate Prepared(k: nat)
      reads this
    {
      PreparedState(job, fs, swaps, createdParents, k) && Tidy(job, fs, swaps, createdParents, k)
    }

    /** First pass: one record per tree, noting whether its destination exists. */
    method RecordSwaps()
      requires job.Valid() && fs == job.before && swaps == [] && createdParents == []
      modifies this`swaps
      ensures Prepared(0)
    {
      for i := 0 to |job.dests|
        invariant |swaps| == i
        invariant forall j :: 0 <= j < i ==> swaps[j] == job.NewSwap(job.dests[j])
      {
        swaps := swaps + [job.NewSwap(job.dests[i])];
      }
      FreshRecords(job, swaps);
    }

    /** An outermost tree: parent directories, then a sibling staging directory. */
    method StageOutermost(k: nat) returns (ok: bool)
      requires Prepared(k) && k < |swaps| && job.Outer(swaps[k])
      modifies this`fs, this`createdParents, this`swaps, this`calls
      ensures Good() && (ok ==> Prepared(k + 1))
      ensures !ok ==> Faulted() || AncestorIsFile(job)
    {
      assert job.SwapOk(swaps[k]);
      ghost var disk, created := fs, createdParents;
      ok := EnsureParent(k);
      if !ok { return; }
      ParentsKeepPrepared(job, disk, fs, swaps, created, createdParents, k);
      ok := ClaimOutermost(k);
    }

    /** Creates one directory right below an existing one. */
    method MkdirBelow(p: Path) returns (ok: bool)
      requires p != [] && p !in fs && Parent(p) in fs
      modifies this`fs, this`calls
      ensures ok ==> OnlyAppears(old(fs), fs, p) && Get(old(fs), Parent(p)) == Some(Directory)
      ensures !ok ==> fs == old(fs) && (Faulted() || Blocked(fs, p))
    {
      ghost var disk := fs;
      ok := MkdirAll(p);
      assert Parent(p) <= p;
      forall q | q != p ensures Get(fs, q) == Get(disk, q) {
        assert !AddedAlong(disk, fs, p, q);
      }
      if !ok { SameFs(fs, disk); }
    }

    method ClaimOutermost(k: nat) returns (ok: bool)
      requires Prepared(k) && k < |swaps| && job.Outer(swaps[k]) && swaps[k].dst != [] && Parent(swaps[k].dst) in fs
      modifies this`fs, this`swaps, this`calls
      ensures Good() && (ok ==> Prepared(k + 1))
      ensures !ok ==> Faulted() || AncestorIsFile(job)
    {
      hide Ordered, Separate, FreshNames, TreeClosed;
      var s' := swaps[k].(staging := StagingOf(swaps[k].dst, job.stamp), stagingCreated := true);
      PlanOutermost(k, s');
      ghost var disk := fs;
      ok := MkdirBelow(s'.staging);
      if ok {
        OutermostPrepared(job, disk, fs, swaps, createdParents, k, s');
        swaps := swaps[k := s'];
      } else if Blocked(fs, s'.staging) {
        ParentBlocked(job, fs, swaps, createdParents, s'.staging);
      }
    }

    lemma PlanOutermost(k: nat, s': Swap)
      requires Prepared(k) && k < |swaps| && job.Outer(swaps[k]) && swaps[k].dst != []
      requires s' == swaps[k].(staging := StagingOf(swaps[k].dst, job.stamp), stagingCreated := true)
      ensures job.SwapOk(s') && s'.staging !in fs && [] in fs
      ensures Parent(s'.staging) == Parent(s'.dst) && job.AboveSome(Parent(s'.dst))
    {
      var s := swaps[k];
      assert job.SwapOk(s) && !s.stagingCreated && Idle(s);
      LocateOuter(job, s');
      StagingStillFree(job, fs, swaps, createdParents, k, s'.staging);
      RootPresent(k);
      job.ParentIsAbove(s);
      assert Parent(s'.staging) == Parent(s.dst);
    }

    /** Directory creation below a claimed outermost staging directory, failing or not. */
    method MkdirInStaging(p: Path, ghost r: nat) returns (ok: bool)
      requires Good() && r < |swaps| && job.Outer(swaps[r]) && Staged(swaps[r]) && swaps[r].staging <= p
      modifies this`fs, this`calls
      ensures Good()
      ensures ok ==> Get(fs, p) == Some(Directory)
      ensures !ok ==> Faulted() || FileInside(old(fs), swaps[r].staging, p)
      ensures GrowsAlong(old(fs), fs, p) && (ok ==> Bridged(old(fs), fs, p))
    {
      ghost var root := swaps[r].staging;
      assert job.SwapOk(swaps[r]);
      RootPresent(r);
      ok := MkdirAll(p);
      if Blocked(old(fs), p) { BlockedInside(old(fs), root, p); }
      forall q | Get(fs, q) != Get(old(fs), q) ensures root <= q && q <= p {
        assert AddedAlong(old(fs), fs, p, q);
        CommonExtension(root, q, p);
      }
      job.StagingIsPrivate(old(fs), fs, swaps, createdParents, r);
    }

    /** The record for a nested tree keeps its place in the layout. */
    lemma NestedRecord(k: nat, o: nat, s': Swap)
      requires Prepared(k) && k < |swaps| && o < |swaps| && Innermost(job.dests, k, o, |job.dests|)
      requires s' == swaps[k].(staging := swaps[o].staging + Rel(swaps[o].dst, swaps[k].dst),
                               nestedUnder := Some(swaps[o].tree))
      ensures o < k && !job.Outer(swaps[k]) && job.SwapOk(s'.(stagingCreated := true))
    {
      hide Separate, FreshNames, TreeClosed, Tidy, Job.SwapOk;
      var s, outer := swaps[k], swaps[o];
      assert Dest(s.tree, s.dst) == job.dests[k] && Dest(outer.tree, outer.dst) == job.dests[o];
      assert o < k && job.SwapOk(s) && job.SwapOk(outer) && Staged(outer) && Idle(s) && !s.stagingCreated;
      NestedFits(job, s, outer, s');
    }

    /** The record for a nested tree, and the outermost tree it ends up below. */
    lemma PlanNested(k: nat, o: nat, s': Swap) returns (r: nat)
      requires Prepared(k) && k < |swaps| && o < |swaps| && Innermost(job.dests, k, o, |job.dests|)
      requires s' == swaps[k].(staging := swaps[o].staging + Rel(swaps[o].dst, swaps[k].dst),
                               nestedUnder := Some(swaps[o].tree))
      ensures NestedPlan(job, swaps, k, r, s')
    {
      hide Separate, FreshNames, TreeClosed, Tidy;
      NestedRecord(k, o, s');
      r := RootExists(job.dests, k);
      assert Dest(swaps[k].tree, swaps[k].dst) == job.dests[k] && Dest(swaps[r].tree, swaps[r].dst) == job.dests[r];
      assert Within(job.dests[k].dst, job.dests[r].dst);
      assert Staged(swaps[r]) && job.SwapOk(swaps[r]);
      job.OuterStaging(swaps[r]);
      assert job.Located(s'.(stagingCreated := true));
    }

    /** A nested tree: staged inside its innermost container's staging directory, so that one
        rename of the outermost directory promotes both. */
    method StageNested(k: nat, o: nat) returns (ok: bool)
      requires Prepared(k) && k < |swaps| && o < |swaps| && Innermost(job.dests, k, o, |job.dests|)
      modifies this`fs, this`swaps, this`calls
      ensures Good() && (ok ==> Prepared(k + 1)) && (!ok ==> Faulted())
    {
      var s' := swaps[k].(staging := swaps[o].staging + Rel(swaps[o].dst, swaps[k].dst),
                          nestedUnder := Some(swaps[o].tree));
      ghost var r := PlanNested(k, o, s');
      ok := ClaimNested(k, s', r);
    }

    method ClaimNested(k: nat, s': Swap, ghost r: nat) returns (ok: bool)
      requires Prepared(k) && NestedPlan(job, swaps, k, r, s')
      modifies this`fs, this`swaps, this`calls
      ensures if ok then Prepared(k + 1) else Good() && Faulted()
    {
      hide Ordered, Separate, FreshNames, TreeClosed;
      ghost var disk := fs;
      ok := MkdirNested(s'.staging, k, r);
      if ok {
        NestedPrepared(job, disk, fs, swaps, createdParents, k, r, s');
        swaps := swaps[k := s'.(stagingCreated := true)];
      } else {
        job.NoteNesting(fs, swaps, createdParents, k, s');
        swaps := swaps[k := s'];
      }
    }

    /** Before extraction nothing but a refusal keeps a nested staging directory from being created. */
    method MkdirNested(p: Path, ghost k: nat, ghost r: nat) returns (ok: bool)
      requires Prepared(k) && r < k <= |swaps| && job.Outer(swaps[r]) && swaps[r].staging <= p
      modifies this`fs, this`calls
      ensures Good() && (ok ==> MadeBelow(old(fs), fs, p)) && (!ok ==> Faulted())
    {
      assert Staged(swaps[r]) && job.SwapOk(swaps[r]);
      NoFileStaged(job, fs, swaps[r], p);
      ok := MkdirInStaging(p, r);
    }

    /** Everything staged, nothing extracted yet. */
    ghost predicate Ready()
      reads this
    {
      && Good() && FilesAreOld(job, fs)
      && (forall s :: s in swaps ==> Staged(s) && Idle(s) && Grounded(job, createdParents, s))
      && DirsNeeded(job, fs, swaps, []) && Closed(fs, swaps)
      && (forall d :: d in job.dests ==> HasSwap(swaps, d))
    }

    method StageTree(k: nat) returns (ok: bool)
      requires Prepared(k) && k < |job.dests|
      modifies this`fs, this`swaps, this`createdParents, this`calls
      ensures Good() && (ok ==> Prepared(k + 1))
      ensures !ok ==> Faulted() || AncestorIsFile(job)
    {
      var outer := FindOuter(job.dests, k);
      assert Dest(swaps[k].tree, swaps[k].dst) == job.dests[k];
      if outer.Some? { ok := StageNested(k, outer.value); }
      else { ok := StageOutermost(k); }
    }

    /** Second pass: a staging directory for every tree. */
    method StageAll() returns (ok: bool)
      requires Prepared(0)
      modifies this`fs, this`swaps, this`createdParents, this`calls
      ensures Good() && (ok ==> Prepared(|job.dests|))
      ensures !ok ==> Faulted() || AncestorIsFile(job)
    {
      for k := 0 to |job.dests|
        invariant Prepared(k)
      {
        ok := StageTree(k);
        if !ok { return; }
      }
      ok := true;
    }

    lemma PreparedIsReady()
      requires Prepared(|job.dests|)
      ensures Ready()
    {
      hide Ordered, Separate, FreshNames, TreeClosed;
      forall d | d in job.dests ensures HasSwap(swaps, d) {
        var j :| 0 <= j < |job.dests| && job.dests[j] == d;
        assert Dest(swaps[j].tree, swaps[j].dst) == d && swaps[j] in swaps;
      }
    }

    /** Stages every tree, outermost and nested, and lists outermost trees first. */
    method PrepareStaging() returns (ok: bool)
      requires job.Valid() && fs == job.before && swaps == [] && createdParents == []
      modifies this`fs, this`swaps, this`createdParents, this`calls
      ensures Good() && (ok ==> Ready() && OuterFirst(swaps, |swaps|))
      ensures ok ==> !AncestorIsFile(job)
      ensures !ok ==> Faulted() || AncestorIsFile(job)
    {
      hide Job.Inv, RootsOf;
      RecordSwaps();
      ok := StageAll();
      if !ok { return; }
      PreparedIsReady();
      PreparedWithoutFile(job, fs, swaps, createdParents);
      ghost var was := swaps;
      swaps := SortOuterFirst(job, fs, swaps, createdParents);
      forall d | d in job.dests ensures HasSwap(swaps, d) { SameRecordsHasSwap(was, swaps, d); }
    }

    // ---- Extraction ----

    ghost predicate InStaging(s: Swap)
      reads this
    {
      Staged(s) && !s.backedUp && !s.promoted
    }

    /** All trees staged, entries being written. */
    ghost predicate Extracting()
      reads this
    {
      && Good()
      && (forall i :: 0 <= i < |swaps| ==> InStaging(swaps[i]))
      && AllGrounded(job, createdParents, swaps)
      && (forall d :: d in job.dests ==> HasSwap(swaps, d))
    }

    /** The outermost swap in whose staging directory another swap is staged. */
    lemma StagingRoot(i: nat) returns (r: nat)
      requires Extracting() && i < |swaps|
      ensures r < |swaps| && job.Outer(swaps[r]) && Staged(swaps[r]) && swaps[r].staging <= swaps[i].staging
    {
      var s := swaps[i];
      assert job.SwapOk(s) && InStaging(s);
      var j := SwapRoot(job, s);
      StagedBelow(job, s, j, []);
      assert HasSwap(swaps, job.dests[j]);
      var o :| o in swaps && Dest(o.tree, o.dst) == job.dests[j];
      r :| 0 <= r < |swaps| && swaps[r] == o;
      assert job.SwapOk(o) && InStaging(o);
      job.OuterStaging(o);
      assert s.staging + [] == s.staging;
    }

    /** writeStagedEntry for regular files and directories; a failed copy may leave a partial file. */
    method WriteStagedEntry(target: Path, body: Body, ghost r: nat) returns (ok: bool)
      requires Good() && r < |swaps| && job.Outer(swaps[r]) && Staged(swaps[r]) && Within(target, swaps[r].staging)
      modifies this`fs, this`calls
      ensures Good()
      ensures ok ==> Stages(old(fs), fs, target, body)
      ensures !ok ==> Faulted() || InTheWay(old(fs), swaps[r].staging, target, body)
    {
      match body {
        case DirEntry =>
          ok := MkdirInStaging(target, r);
        case OtherEntry =>
          ok := true;
        case FileEntry(content) =>
          WithinParent(target, swaps[r].staging);
          ok := MkdirInStaging(Parent(target), r);
          assert !(target <= Parent(target));
          assert Get(fs, target) == Get(old(fs), target);
          if !ok { FileAbove(old(fs), swaps[r].staging, target, body); return; }
          ghost var mid := fs;
          ok := WriteFile(target, content, r);
          assert ok ==> MadeRoom(old(fs), mid, target);
      }
    }

    /** os.OpenFile and io.Copy; a failed copy may leave a partial file. */
    method WriteFile(target: Path, content: Content, ghost r: nat) returns (ok: bool)
      requires Good() && r < |swaps| && job.Outer(swaps[r]) && Staged(swaps[r]) && Within(target, swaps[r].staging)
      modifies this`fs, this`calls
      ensures Good()
      ensures ok ==> fs == old(fs)[target := File(content)] && Get(old(fs), target) != Some(Directory)
      ensures !ok ==> Faulted() || Get(old(fs), target) == Some(Directory)
    {
      if Get(fs, target) == Some(Directory) { return false; }
      ok := Attempt();
      if !ok { return; }
      ghost var disk := fs;
      ok := Attempt();
      var written: Content := *;
      if ok { written := content; }
      fs := fs[target := File(written)];
      job.StagingIsPrivate(disk, fs, swaps, createdParents, r);
    }

    lemma TreePresent(t: Tree)
      requires Extracting() && t in Trees(job.dests)
      ensures exists i :: 0 <= i < |swaps| && swaps[i].tree == t
    {
      var d :| d in job.dests && d.tree == t;
      assert HasSwap(swaps, d);
      var s :| s in swaps && Dest(s.tree, s.dst) == d;
      assert s.tree == t;
    }

    /** Notes that a tree received an entry. */
    method MarkEntry(i: nat)
      requires Extracting() && i < |swaps|
      modifies this`swaps
      ensures swaps == old(swaps)[i := old(swaps)[i].(hadEntries := true)]
      ensures Extracting()
    {
      ghost var was := swaps;
      var s' := swaps[i].(hadEntries := true);
      job.BookkeepingKeepsInv(fs, swaps, createdParents, i, s');
      swaps := swaps[i := s'];
      forall d | d in job.dests ensures HasSwap(swaps, d) { HasSwapUpdate(was, i, s', d); }
      MarkKeepsGrounded(job, createdParents, was, i);
      forall j | 0 <= j < |swaps| ensures InStaging(swaps[j]) { assert InStaging(was[j]); }
    }

    /** stagingPathFor: reject, ignore, or mark the tree and give the staged path. */
    method StagingPathFor(name: string) returns (place: Placement, i: nat, target: Path)
      requires Extracting()
      modifies this`swaps
      ensures place == Place(name, Trees(job.dests))
      ensures !place.Placed? ==> swaps == old(swaps)
      ensures place.Placed? ==>
        && i < |old(swaps)| && old(swaps)[i].tree == place.tree
        && swaps == old(swaps)[i := old(swaps)[i].(hadEntries := true)]
        && target == swaps[i].staging + place.rel && Within(target, swaps[i].staging)
      ensures Extracting()
    {
      place, i, target := Place(name, Trees(job.dests)), 0, [];
      if place.Placed? {
        PlacedBelowItsTree(name, Trees(job.dests));
        TreePresent(place.tree);
        i := FindSwap(swaps, place.tree);
        MarkEntry(i);
        target := swaps[i].staging + place.rel;
      }
    }

    /** One archive entry: mapped, then written into its tree's staging directory. */
    method ExtractEntry(e: Entry, ghost es: seq<Entry>) returns (ok: bool)
      requires Extracting() && Faithful(job, fs, swaps, es) && Orderly(job, fs, swaps, es)
      modifies this`fs, this`swaps, this`calls
      ensures Good()
      ensures ok ==> Extracting() && Faithful(job, fs, swaps, es + [e]) && Orderly(job, fs, swaps, es + [e])
      ensures ok ==> !Place(e.name, Trees(job.dests)).Rejected?
      ensures !ok ==> Faulted() || Place(e.name, Trees(job.dests)).Rejected? || Collision(job, es + [e])
    {
      hide Ordered, Separate, FreshNames, TreeClosed;
      ghost var was := swaps;
      var place, i, target := StagingPathFor(e.name);
      if place.Rejected? { return false; }
      if place.Ignored? {
        SkipExtendsWritten(job, fs, swaps, es, e);
        SkipKeepsSourced(job, fs, swaps, es, e);
        MoreEntriesNeeded(job, fs, swaps, es, e);
        SkipKeepsFiles(job, fs, swaps, es, e);
        forall j | 0 <= j < |swaps| ensures swaps[j].hadEntries <==> Hit(job, es + [e], swaps[j].tree) {
          HitExtend(job, es, e, swaps[j].tree);
        }
        return true;
      }
      MarkKeepsWritten(job, fs, was, es, i);
      MarkKeepsSourced(job, fs, was, es, i);
      MarkKeepsOrderly(job, fs, was, es, i);
      MarkExtendsMarked(job, was, es, e, i);
      ok := WritePlaced(e, es, i, target, place.rel);
    }

    /** Writes an entry whose tree has been marked. */
    method WritePlaced(e: Entry, ghost es: seq<Entry>, i: nat, target: Path, ghost rel: Path) returns (ok: bool)
      requires Extracting() && i < |swaps| && Lands(job, e, swaps[i].tree, rel)
      requires target == swaps[i].staging + rel && rel != []
      requires Written(job, fs, swaps, es) && Sourced(job, fs, swaps, es) && Orderly(job, fs, swaps, es)
      modifies this`fs, this`calls
      ensures Good()
      ensures ok ==> Extracting() && Written(job, fs, swaps, es + [e]) && Sourced(job, fs, swaps, es + [e])
      ensures ok ==> Orderly(job, fs, swaps, es + [e])
      ensures !ok ==> Faulted() || Collision(job, es + [e])
    {
      hide Ordered, Separate, FreshNames, TreeClosed;
      ghost var r := StagingRoot(i);
      PrefixTransitive(swaps[r].staging, swaps[i].staging, target);
      ghost var disk := fs;
      ok := WriteStagedEntry(target, e.body, r);
      if ok {
        StagesEffect(disk, fs, target, e.body);
        StagesKeepsClosed(disk, fs, swaps, target, e.body);
        forall j | 0 <= j < |swaps| ensures InStaging(swaps[j]) {
          assert swaps[j].staging in disk && disk[swaps[j].staging] == Directory;
        }
        StagingExtendsWritten(job, disk, fs, swaps, es, e, i, rel);
        StagingKeepsSourced(job, disk, fs, swaps, es, e, i, rel);
        StagingKeepsNeeded(job, disk, fs, swaps, es, e, i, rel);
        StagingKeepsFiles(job, disk, fs, swaps, es, e, i, rel);
      } else if InTheWay(disk, swaps[r].staging, target, e.body) {
        WayIsCollision(job, disk, swaps, es, e, r, i, rel);
      }
    }

    /** Extracts the whole archive, stopping at the first failure; reading the archive may fail too. */
    method Extract(entries: seq<Entry>) returns (ok: bool)
      requires Ready()
      modifies this`fs, this`swaps, this`calls
      ensures Good()
      ensures ok ==> Extracting() && Faithful(job, fs, swaps, entries)
      ensures ok ==> !Refused(job, entries) && !Collision(job, entries)
      ensures !ok ==> Faulted() || Refused(job, entries) || Collision(job, entries)
    {
      NothingStagedYet(job, fs, swaps);
      for n := 0 to |entries|
        invariant Extracting() && Faithful(job, fs, swaps, entries[..n]) && Orderly(job, fs, swaps, entries[..n])
        invariant forall k :: 0 <= k < n ==> !Place(entries[k].name, Trees(job.dests)).Rejected?
      {
        ok := Attempt();
        if !ok { return; }
        assert entries[..n + 1] == entries[..n] + [entries[n]];
        ok := ExtractEntry(entries[n], entries[..n]);
        if !ok {
          if Collision(job, entries[..n + 1]) { CollisionInPrefix(job, entries, n + 1); }
          return;
        }
      }
      assert entries[..|entries|] == entries;
      assert AllStaged(fs, swaps) by { assert forall i :: 0 <= i < |swaps| ==> InStaging(swaps[i]); }
      StagedWithoutCollision(job, fs, swaps, entries);
      ok := true;
    }

    // ---- commit ----

    /** Preserve and promote one outermost tree. */
    method CommitOne(i: nat, ghost staged: Fs) returns (ok: bool)
      requires Good() && i < |swaps| && job.Outer(swaps[i]) && Waiting(staged, fs, swaps[i]) && swaps[i].hadEntries
      requires Grounded(job, createdParents, swaps[i]) && swaps[i].staging in staged
      modifies this`fs, this`swaps, this`calls
      ensures Good() && (!ok ==> Faulted())
      ensures |swaps| == |old(swaps)| && swaps == old(swaps)[i := swaps[i]] && SameButFlags(old(swaps)[i], swaps[i])
      ensures ok ==> Settled(staged, fs, swaps[i])
      ensures ok ==> OnlyOwnRegions(job, old(fs), fs, swaps[i])
    {
      var s := swaps[i];
      assert job.SwapOk(s);
      if s.dstExisted {
        BackupPossible(job, fs, swaps, createdParents, i);
        job.PreRestoreFree(fs, swaps, createdParents, i);
        job.BackupKeepsInv(fs, swaps, createdParents, i);
        forall p ensures s.staging <= p ==> Get(MoveTree(fs, s.dst, s.pre), p) == Get(fs, p)
                 ensures Get(MoveTree(fs, s.dst, s.pre), p) == Get(fs, p) || s.dst <= p || s.pre <= p
        {
          BackupGet(job, fs, s, p);
        }
        ok := Rename(s.dst, s.pre);
        if !ok { return; }
        swaps := swaps[i := s.(backedUp := true)];
      }
      ok := PromoteOne(i, staged);
    }

    /** Rename the staging directory to the destination. */
    method PromoteOne(i: nat, ghost staged: Fs) returns (ok: bool)
      requires Good() && i < |swaps| && job.Outer(swaps[i])
      requires swaps[i].stagingCreated && swaps[i].dstExisted == swaps[i].backedUp && !swaps[i].promoted
      requires StagingKept(staged, fs, swaps[i]) && swaps[i].hadEntries
      requires Grounded(job, createdParents, swaps[i]) && swaps[i].staging in staged
      modifies this`fs, this`swaps, this`calls
      ensures Good() && (!ok ==> Faulted())
      ensures |swaps| == |old(swaps)| && swaps == old(swaps)[i := swaps[i]] && SameButFlags(old(swaps)[i], swaps[i])
      ensures ok ==> Settled(staged, fs, swaps[i])
      ensures OnlyOwnRegions(job, old(fs), fs, swaps[i])
    {
      var s := swaps[i];
      assert job.SwapOk(s);
      job.DestinationFree(fs, swaps, createdParents, i);
      job.PromoteKeepsInv(fs, swaps, createdParents, i);
      PromoteInstalls(job, staged, fs, s);
      assert Get(fs, s.staging) == Get(staged, s.staging);
      PromotePossible(job, fs, swaps, createdParents, i);
      ok := Rename(s.staging, s.dst);
      if ok { swaps := swaps[i := s.(promoted := true)]; }
    }

    /** Commit has passed the first n records. */
    ghost predicate Committing(staged: Fs, orig: seq<Swap>, n: nat)
      reads this
    {
      && Good() && n <= |swaps| == |orig|
      && (forall i :: 0 <= i < |swaps| ==> SameButFlags(orig[i], swaps[i]))
      && (forall i :: 0 <= i < n && job.Outer(swaps[i]) ==> Settled(staged, fs, swaps[i]))
      && (forall i :: n <= i < |swaps| && job.Outer(swaps[i]) ==> Waiting(staged, fs, swaps[i]))
      && (forall i :: 0 <= i < |swaps| ==> swaps[i].stagingCreated)
    }

    /** Installing one tree neither unsettles earlier trees nor disturbs later ones. */
    lemma CommitStep(staged: Fs, orig: seq<Swap>, n: nat, disk: Fs, was: seq<Swap>)
      requires n < |swaps| == |was| == |orig| && Good()
      requires swaps == was[n := swaps[n]] && SameButFlags(was[n], swaps[n])
      requires forall i :: 0 <= i < |was| ==> SameButFlags(orig[i], was[i]) && was[i].stagingCreated
      requires forall i :: 0 <= i < n && job.Outer(was[i]) ==> Settled(staged, disk, was[i])
      requires forall i :: n < i < |was| && job.Outer(was[i]) ==> Waiting(staged, disk, was[i])
      requires job.Outer(swaps[n]) && Settled(staged, fs, swaps[n]) && OnlyOwnRegions(job, disk, fs, swaps[n])
      ensures Committing(staged, orig, n + 1)
    {
      var s := swaps[n];
      assert job.SwapOk(s);
      forall i | 0 <= i < |swaps| && i != n && job.Outer(swaps[i])
        ensures i < n ==> Settled(staged, fs, swaps[i])
        ensures i > n ==> Waiting(staged, fs, swaps[i])
      {
        assert swaps[i] == was[i] && job.SwapOk(swaps[i]);
        SettledFrame(job, staged, disk, fs, s, swaps[i]);
      }
    }

    /** Marking a nested tree promoted: its content rides along with the outer rename. */
    method CommitNested(i: nat, ghost staged: Fs, ghost orig: seq<Swap>)
      requires Committing(staged, orig, i) && i < |swaps| && swaps[i].nestedUnder.Some?
      modifies this`swaps
      ensures Committing(staged, orig, i + 1)
    {
      hide Ordered, Separate, FreshNames, TreeClosed;
      ghost var was := swaps;
      var s' := swaps[i].(promoted := true);
      assert !job.Outer(s') by { assert job.SwapOk(swaps[i]); }
      job.BookkeepingKeepsInv(fs, swaps, createdParents, i, s');
      swaps := swaps[i := s'];
      assert forall j :: 0 <= j < |swaps| && j != i ==> swaps[j] == was[j];
    }

    /** The swap of one tree. */
    method CommitTree(i: nat, ghost staged: Fs, ghost orig: seq<Swap>) returns (ok: bool)
      requires i < |swaps| && Committing(staged, orig, i)
      requires Grounded(job, createdParents, orig[i]) && orig[i].staging in staged
      modifies this`fs, this`swaps, this`calls
      ensures Good() && |swaps| == |orig|
      ensures !ok ==> Faulted()
      ensures ok ==> Committing(staged, orig, i + 1)
    {
      assert job.SwapOk(swaps[i]) && SameButFlags(orig[i], swaps[i]);
      ok := true;
      if swaps[i].hadEntries {
        if swaps[i].nestedUnder.Some? {
          CommitNested(i, staged, orig);
        } else {
          ghost var disk, was := fs, swaps;
          ok := CommitOne(i, staged);
          if ok { CommitStep(staged, orig, i, disk, was); }
        }
      }
    }

    /** Swaps every outermost tree that received entries into place. */
    method Commit() returns (ok: bool)
      requires Extracting()
      modifies this`fs, this`swaps, this`committed, this`calls
      ensures Good()
      ensures !ok ==> Faulted()
      ensures ok ==> committed && Committing(old(fs), old(swaps), |swaps|)
    {
      ghost var staged, orig := fs, swaps;
      assert forall j :: 0 <= j < |orig| ==> InStaging(orig[j]);
      for i := 0 to |swaps|
        invariant Committing(staged, orig, i) && |swaps| == |orig| && AllGrounded(job, createdParents, orig)
        invariant forall j :: 0 <= j < |orig| ==> orig[j].staging in staged
      {
        ok := CommitTree(i, staged, orig);
        if !ok { return; }
      }
      committed := true;
      ok := true;
    }

    // ---- rollback ----

    /** Undoes one outermost swap: drop what was promoted, bring back what was preserved, drop staging. */
    method UndoOne(i: nat)
      requires i < |swaps| && swaps[i].nestedUnder.None?
      modifies this`fs, this`swaps
      ensures fs == UndoRecord(old(fs), old(swaps)[i])
      ensures swaps == old(swaps)[i := job.Undone(old(swaps)[i])]
    {
      var s := swaps[i];
      if s.promoted { fs := RemoveTree(fs, s.dst); }
      if s.backedUp && CanMove(fs, s.pre, s.dst) { fs := MoveTree(fs, s.pre, s.dst); }
      if s.stagingCreated { fs := RemoveTree(fs, s.staging); }
      swaps := swaps[i := s.(promoted := false, backedUp := false, stagingCreated := false)];
    }

    /** Removes the recorded parents, innermost first. */
    method RemoveParents()
      modifies this`fs
      ensures fs == DropParents(old(fs), createdParents)
    {
      var k := |createdParents|;
      assert createdParents[..k] == createdParents;
      while k > 0
        invariant 0 <= k <= |createdParents|
        invariant DropParents(fs, createdParents[..k]) == DropParents(old(fs), createdParents)
      {
        ghost var left := createdParents[..k];
        k := k - 1;
        assert left[..k] == createdParents[..k];
        fs := RemoveNode(fs, createdParents[k]);
      }
    }

    /** rollback, from any state and on any layout: reverse order, outermost records, then parents. */
    method UndoAll()
      modifies this`fs, this`swaps
      ensures fs == RolledBack(old(fs), old(swaps), createdParents)
    {
      hide UndoRecord;
      var i := |swaps|;
      ghost var orig := swaps;
      while i > 0
        invariant 0 <= i <= |swaps| == |orig| && swaps[..i] == orig[..i]
        invariant UndoFrom(fs, orig, i) == UndoFrom(old(fs), orig, |orig|)
      {
        i := i - 1;
        assert swaps[i] == swaps[..i + 1][i] == orig[i];
        if swaps[i].nestedUnder.None? { UndoOne(i); } else { SkipNested(fs, swaps[i]); }
      }
      RemoveParents();
    }

    /** Rollback exactness: from any point a restore can reach, the disk returns to what it was. */
    method Rollback()
      requires Good()
      modifies this`fs, this`swaps
      ensures fs == job.before
    {
      RolledBackIsBefore(job, fs, swaps, createdParents);
      UndoAll();
    }

    /** The whole restore: all or nothing. On any failure the disk is exactly as before; on success every
        entry is where it belongs and what was replaced is kept. It fails only if the operating system
        refuses something, or if the archive or the disk holds an obstacle to begin with. */
    method Restore(entries: seq<Entry>) returns (ok: bool)
      requires job.Valid() && fs == job.before && swaps == [] && createdParents == [] && calls == 0
      modifies this
      ensures !ok ==> fs == job.before
      ensures !ok ==> Faulted() || Obstructed(job, entries)
      ensures ok ==> !Obstructed(job, entries)
      ensures ok ==> EntriesInPlace(job, fs, entries)
      ensures ok ==> OnlyArchived(job, fs, entries) && ElsewhereUnchanged(job, fs)
      ensures ok ==> TreesSettled(job, fs, entries)
    {
      ok := PrepareStaging();
      if !ok { Rollback(); return; }
      ok := Extract(entries);
      if !ok { Rollback(); return; }
      ghost var staged, orig := fs, swaps;
      ok := Commit();
      if !ok { Rollback(); return; }
      assert AllSettled(job, staged, orig, fs, swaps, createdParents);
      CommitDelivers(job, staged, orig, fs, swaps, createdParents, entries);
      CommitBringsOnlyArchive(job, staged, orig, fs, swaps, createdParents, entries);
      BaselineElsewhere(job, fs, swaps, createdParents);
      forall i | 0 <= i < |job.dests| && Outermost(job.dests, job.dests[i].dst)
        ensures if Hit(job, entries, job.dests[i].tree)
                then ReplacedKept(job, fs, job.dests[i])
                else LeftAlone(job, fs, job.dests[i])
      {
        TreeSettled(job, staged, orig, fs, swaps, createdParents, entries, job.dests[i]);
      }
    }
  }

  /** The restore succeeds, the file is nowhere to be found, and the staging directory stays. */
  method StateFileIsLeftInStaging(stamp: string) returns (ok: bool, fs: Fs)
    ensures ok && Get(fs, TwoLevels[1].dst + ["a"]) == None
    ensures Get(fs, StagingOf(TwoLevels[0].dst, stamp)) == Some(Directory)
  {
    TwoLevelLayoutIsValid(stamp);
    StateFileUnobstructed(stamp);
    var tx := new RestoreTx(TwoLevels, stamp, map[[] := Directory], _ => false);
    ok := tx.Restore(OneStateFile);
    fs := tx.fs;
    StateFileNotPromoted(stamp, fs);
  }
}

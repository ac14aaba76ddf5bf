/** Restores on layouts where one tree that counts as outermost may lie in another, because pathInside does
    not see through a component that starts with "..". The forward steps are those of the transaction, as a
    relation between states; whatever fails, what follows is rollback. The question is from which layouts
    every reachable state rolls back to the initial disk. */
module RestoreOverlap {

  import opened Wrappers
  import opened Filesystem
  import opened RestoreLayout
  import opened RestoreInvariant
  import opened RestoreRollback
  import RestoreObstacles

  datatype St = St(fs: Fs, swaps: seq<Swap>, created: seq<Path>)

  ghost predicate Sound(job: Job) { SoundLayout(job.dests, job.stamp, job.before) }

  ghost predicate Root(job: Job, k: nat)
    requires k < |job.dests|
  {
    Outermost(job.dests, job.dests[k].dst)
  }

  function Staging(job: Job, k: nat): Path
    requires k < |job.dests| && job.dests[k].dst != []
  {
    StagingOf(job.dests[k].dst, job.stamp)
  }

  function Pre(job: Job, k: nat): Path
    requires k < |job.dests| && job.dests[k].dst != []
  {
    PreRestoreOf(job.dests[k].dst, job.stamp)
  }

  // ---- Steps ----

  ghost function Start(job: Job): St
    requires Sound(job)
  {
    St(job.before, seq(|job.dests|, i requires 0 <= i < |job.dests| => job.NewSwap(job.dests[i])), [])
  }

  /** The records belong to the destinations, one each; only trees that count as outermost are ever staged or
      moved. Nested trees are staged, and their entries written, inside the staging directory of the
      outermost tree around them. */
  ghost predicate Fits(job: Job, s: Swap, k: nat)
    requires Sound(job) && k < |job.dests|
  {
    && s.dst == job.dests[k].dst && s.pre == Pre(job, k) && (s.dstExisted <==> s.dst in job.before)
    && s.nestedUnder.None? && (s.stagingCreated ==> s.staging == Staging(job, k) && Root(job, k))
    && (s.backedUp || s.promoted ==> s.stagingCreated) && (s.backedUp ==> s.dstExisted)
    && (s.promoted && s.dstExisted ==> s.backedUp)
  }

  ghost predicate Recorded(job: Job, swaps: seq<Swap>)
    requires Sound(job)
  {
    |swaps| == |job.dests| && forall k :: 0 <= k < |swaps| ==> Fits(job, swaps[k], k)
  }

  ghost predicate BeforeCommit(st: St) { Unmoved(st.swaps, 0, |st.swaps|) }

  /** ensureParent creates one missing directory above tree k. */
  ghost predicate MakesParent(job: Job, st: St, st': St, k: nat, c: Path) {
    && k < |job.dests| == |st.swaps| && Root(job, k) && BeforeCommit(st)
    && c != [] && Within(job.dests[k].dst, c) && c !in st.fs && Get(st.fs, Parent(c)) == Some(Directory)
    && st' == st.(fs := st.fs[c := Directory], created := st.created + [c])
  }

  /** The sibling staging directory of tree k. */
  ghost predicate Stages(job: Job, st: St, st': St, k: nat)
    requires Sound(job)
  {
    && k < |job.dests| == |st.swaps| && Root(job, k) && BeforeCommit(st) && !st.swaps[k].stagingCreated
    && Staging(job, k) !in st.fs && Get(st.fs, Parent(job.dests[k].dst)) == Some(Directory)
    && st' == st.(fs := st.fs[Staging(job, k) := Directory],
                  swaps := st.swaps[k := st.swaps[k].(staging := Staging(job, k), stagingCreated := true)])
  }

  /** Extraction, or the staging of a nested tree: anything, but inside a staging directory. */
  ghost predicate Writes(job: Job, st: St, st': St, k: nat) {
    && k < |job.dests| == |st.swaps| && BeforeCommit(st) && st.swaps[k].stagingCreated && TreeClosed(st'.fs)
    && (forall p :: Get(st'.fs, p) == Get(st.fs, p) || Within(p, st.swaps[k].staging))
    && st' == st.(fs := st'.fs)
  }

  ghost predicate Marks(job: Job, st: St, st': St, k: nat) {
    && k < |job.dests| == |st.swaps| && BeforeCommit(st)
    && st' == st.(swaps := st.swaps[k := st.swaps[k].(hadEntries := true)])
  }

  /** Commit is at tree k: everything is staged, earlier trees are done, later ones untouched. */
  ghost predicate CommitsAt(job: Job, st: St, k: nat) {
    && k < |job.dests| == |st.swaps| && Root(job, k) && st.swaps[k].hadEntries && !st.swaps[k].promoted
    && (forall i :: 0 <= i < |st.swaps| && Root(job, i) ==> st.swaps[i].stagingCreated)
    && (forall i :: 0 <= i < k && Root(job, i) && st.swaps[i].hadEntries ==> st.swaps[i].promoted)
    && Unmoved(st.swaps, k + 1, |st.swaps|)
  }

  ghost predicate Backs(job: Job, st: St, st': St, k: nat) {
    && CommitsAt(job, st, k) && st.swaps[k].dstExisted && !st.swaps[k].backedUp
    && CanMove(st.fs, st.swaps[k].dst, st.swaps[k].pre)
    && st' == st.(fs := MoveTree(st.fs, st.swaps[k].dst, st.swaps[k].pre),
                  swaps := st.swaps[k := st.swaps[k].(backedUp := true)])
  }

  ghost predicate Promotes(job: Job, st: St, st': St, k: nat) {
    && CommitsAt(job, st, k) && st.swaps[k].dstExisted == st.swaps[k].backedUp
    && CanMove(st.fs, st.swaps[k].staging, st.swaps[k].dst)
    && st' == st.(fs := MoveTree(st.fs, st.swaps[k].staging, st.swaps[k].dst),
                  swaps := st.swaps[k := st.swaps[k].(promoted := true)])
  }

  ghost predicate Moves(job: Job, st: St, st': St)
    requires Sound(job)
  {
    || (exists k, c :: MakesParent(job, st, st', k, c))
    || (exists k :: Stages(job, st, st', k) || Writes(job, st, st', k) || Marks(job, st, st', k) ||
                    Backs(job, st, st', k) || Promotes(job, st, st', k))
  }

  /** A run from the initial disk. */
  ghost predicate Run(job: Job, trace: seq<St>)
    requires Sound(job)
  {
    && trace != [] && trace[0] == Start(job)
    && forall i :: 0 <= i < |trace| - 1 ==> Moves(job, trace[i], trace[i + 1])
  }

  ghost predicate Reachable(job: Job, st: St)
    requires Sound(job)
  {
    exists trace :: Run(job, trace) && trace[|trace| - 1] == st
  }

  lemma ReachStart(job: Job)
    requires Sound(job)
    ensures Reachable(job, Start(job))
  {
    assert Run(job, [Start(job)]);
  }

  lemma ReachStep(job: Job, st: St, st': St)
    requires Sound(job) && Reachable(job, st) && Moves(job, st, st')
    ensures Reachable(job, st')
  {
    var trace :| Run(job, trace) && trace[|trace| - 1] == st;
    var longer := trace + [st'];
    assert forall i :: 0 <= i < |trace| ==> longer[i] == trace[i];
    assert Run(job, longer) && longer[|longer| - 1] == st';
  }

  function Back(st: St): Fs { RolledBack(st.fs, st.swaps, st.created) }

  /** Rollback is exact: wherever the restore stops, the disk becomes what it was. */
  ghost predicate Exact(job: Job)
    requires Sound(job)
  {
    forall st :: Reachable(job, st) ==> Back(st) == job.before
  }

  // ---- Names ----

  /** A staging name is not above anything on the way to a destination. */
  lemma StagingNotAbove(job: Job, i: nat, j: nat, a: Path)
    requires Sound(job) && i < |job.dests| && j < |job.dests| && a <= job.dests[j].dst
    ensures !(Staging(job, i) <= a)
  {
    if Staging(job, i) <= a { PrefixTransitive(Staging(job, i), a, job.dests[j].dst); }
    assert !(StagingOf(job.dests[i].dst, job.stamp) <= job.dests[j].dst);
  }

  lemma StagingApart(job: Job, i: nat, j: nat)
    requires Sound(job) && i < |job.dests| && j < |job.dests| && i != j
    ensures !(Staging(job, i) <= Staging(job, j))
  {
    var d, e := job.dests[i].dst, job.dests[j].dst;
    assert d != e && !(StagingOf(d, job.stamp) <= e);
    if Staging(job, i) == Staging(job, j) { SiblingInjective(d, e, StagingSuffix(job.stamp)); }
    SiblingsUnrelated(d, e, StagingSuffix(job.stamp), StagingSuffix(job.stamp));
  }

  lemma StagingVersusPre(job: Job, i: nat, k: nat)
    requires Sound(job) && i < |job.dests| && k < |job.dests|
    ensures Incomparable(Staging(job, i), Pre(job, k))
  {
    var d, e := job.dests[i].dst, job.dests[k].dst;
    if i == k {
      OwnRootsSeparated(d, job.stamp);
    } else {
      assert d != e && !(StagingOf(d, job.stamp) <= e) && !(PreRestoreOf(e, job.stamp) <= d);
      if Staging(job, i) == Pre(job, k) {
        SameSiblingName(d, e, StagingSuffix(job.stamp), PreRestoreSuffix(job.stamp));
        SuffixesDiffer(d[|d| - 1], e[|e| - 1], job.stamp);
      }
      SiblingsUnrelated(d, e, StagingSuffix(job.stamp), PreRestoreSuffix(job.stamp));
      SiblingsUnrelated(e, d, PreRestoreSuffix(job.stamp), StagingSuffix(job.stamp));
    }
  }

  /** The staging directory of a tree lies in a destination exactly if the tree does. */
  lemma StagingVersusDest(job: Job, i: nat, k: nat)
    requires Sound(job) && i < |job.dests| && k < |job.dests|
    ensures Within(job.dests[i].dst, job.dests[k].dst) ==> Within(Staging(job, i), job.dests[k].dst)
    ensures !Within(job.dests[i].dst, job.dests[k].dst) ==> Incomparable(job.dests[k].dst, Staging(job, i))
  {
    var d, e := job.dests[i].dst, job.dests[k].dst;
    assert !(StagingOf(d, job.stamp) <= e);
    if Within(d, e) {
      WithinParent(d, e);
      PrefixTransitive(e, Parent(d), Staging(job, i));
    } else {
      OutermostAvoidsSiblings(e, d, StagingSuffix(job.stamp));
    }
  }

  // ---- Moving a subtree and moving it back ----

  ghost predicate Vacant(fs: Fs, b: Path) { forall q :: q in fs ==> !(b <= q) }

  lemma ClosedVacant(fs: Fs, b: Path)
    requires TreeClosed(fs) && b !in fs
    ensures Vacant(fs, b)
  {
  }

  lemma ParentDir(fs: Fs, p: Path, q: Path)
    requires TreeClosed(fs) && q in fs && Within(q, p)
    ensures Get(fs, p) == Some(Directory)
  {
  }

  /** Above a node that has been moved there are directories only. */
  lemma MovedParentDir(fs: Fs, a: Path, b: Path, p: Path, q: Path)
    requires TreeClosed(fs) && CanMove(fs, a, b) && Incomparable(a, b) && Vacant(fs, b)
    requires q in MoveTree(fs, a, b) && Within(q, p)
    ensures Get(MoveTree(fs, a, b), p) == Some(Directory)
  {
    GetMoved(fs, a, b, p);
    GetMoved(fs, a, b, q);
    hide TreeClosed, MoveTree;
    if b <= q {
      if b <= p {
        ShiftedPrefix(a, b, p, q);
        ParentDir(fs, a + p[|b|..], a + q[|b|..]);
      } else {
        CommonExtension(p, b, q);
        WithinParent(b, p);
        assert !(a <= p) by { if a <= p { PrefixTransitive(a, p, b); } }
        if p != Parent(b) { ParentDir(fs, p, Parent(b)); }
      }
    } else {
      if b <= p { PrefixTransitive(b, p, q); }
      if a <= p { PrefixTransitive(a, p, q); }
      ParentDir(fs, p, q);
    }
  }

  ghost predicate DirsAbove(fs: Fs) {
    forall p, q :: Within(q, p) && q in fs ==> Get(fs, p) == Some(Directory)
  }

  lemma ClosedByDirs(fs: Fs)
    requires Get(fs, []) == Some(Directory) && DirsAbove(fs)
    ensures TreeClosed(fs)
  {
    forall p, q | q in fs && p <= q && p != q ensures p in fs && fs[p].Directory? { assert Within(q, p); }
  }

  lemma MoveKeepsClosed(fs: Fs, a: Path, b: Path)
    requires TreeClosed(fs) && CanMove(fs, a, b) && Incomparable(a, b)
    ensures TreeClosed(MoveTree(fs, a, b))
  {
    ClosedVacant(fs, b);
    GetMoved(fs, a, b, []);
    assert Get(fs, []) == Some(Directory) && !(b <= []) && !(a <= []);
    hide MoveTree, TreeClosed, Vacant, CanMove, Incomparable;
    forall p, q | Within(q, p) && q in MoveTree(fs, a, b) ensures Get(MoveTree(fs, a, b), p) == Some(Directory) {
      MovedParentDir(fs, a, b, p, q);
    }
    ClosedByDirs(MoveTree(fs, a, b));
  }

  lemma ShiftedPrefix(a: Path, b: Path, p: Path, q: Path)
    requires b <= p && p <= q && p != q
    ensures a + p[|b|..] <= a + q[|b|..] && a + p[|b|..] != a + q[|b|..]
  {
    assert |a + p[|b|..]| < |a + q[|b|..]|;
  }

  lemma NotAboveParent(a: Path, b: Path)
    requires a != [] && !(b <= a)
    ensures !(b <= Parent(a))
  {
    var up := Parent(a);
    assert up <= a;
    if b <= up { PrefixTransitive(b, up, a); }
  }

  /** A subtree that was moved to a free name can be moved back, and that is the identity. */
  lemma MoveBack(fs: Fs, a: Path, b: Path)
    requires Incomparable(a, b) && a != [] && a in fs && Vacant(fs, b) && Get(fs, Parent(a)) == Some(Directory)
    ensures CanMove(MoveTree(fs, a, b), b, a) && MoveTree(MoveTree(fs, a, b), b, a) == fs
  {
    var fs' := MoveTree(fs, a, b);
    forall p ensures Get(fs', p) == if b <= p then Get(fs, a + p[|b|..]) else if a <= p then None else Get(fs, p) {
      GetMoved(fs, a, b, p);
    }
    assert a + b[|b|..] == a;
    assert Parent(a) <= a && !(a <= Parent(a));
    NotAboveParent(a, b);
    forall q | q in fs' ensures !(a <= q) { if b <= q { Apart(a, b, q); } assert Get(fs', q).Some?; }
    forall p ensures Get(MoveTree(fs', b, a), p) == Get(fs, p) {
      GetMoved(fs', b, a, p);
      if a <= p {
        Rebase(a, b, p);
      }
    }
    SameFs(MoveTree(fs', b, a), fs);
  }

  // ---- Backing up the destination ----

  /** Later staging directories do not lie in tree k. */
  ghost predicate Clear(job: Job, k: nat)
    requires k < |job.dests|
  {
    forall i :: k < i < |job.dests| && Root(job, i) ==> !Within(job.dests[i].dst, job.dests[k].dst)
  }

  lemma NotCoveredAbove(job: Job, swaps: seq<Swap>, lo: nat, hi: nat, j: nat, a: Path)
    requires Sound(job) && Recorded(job, swaps) && lo <= hi <= |swaps| && j < |job.dests| && a <= job.dests[j].dst
    ensures !Covered(swaps, lo, hi, a)
  {
    forall i | lo <= i < hi ensures !Covers(swaps[i], a) {
      assert Fits(job, swaps[i], i);
      StagingNotAbove(job, i, j, a);
    }
  }

  lemma NotCoveredInPre(job: Job, swaps: seq<Swap>, lo: nat, hi: nat, k: nat, p: Path)
    requires Sound(job) && Recorded(job, swaps) && lo <= hi <= |swaps| && k < |job.dests| && Pre(job, k) <= p
    ensures !Covered(swaps, lo, hi, p)
  {
    forall i | lo <= i < hi ensures !Covers(swaps[i], p) {
      assert Fits(job, swaps[i], i);
      StagingVersusPre(job, i, k);
      Apart(Staging(job, i), Pre(job, k), p);
    }
  }

  lemma NotCoveredInDest(job: Job, swaps: seq<Swap>, k: nat, p: Path)
    requires Sound(job) && Recorded(job, swaps) && k < |job.dests| && Clear(job, k) && job.dests[k].dst <= p
    ensures !Covered(swaps, k + 1, |swaps|, p)
  {
    forall i | k + 1 <= i < |swaps| ensures !Covers(swaps[i], p) {
      assert Fits(job, swaps[i], i);
      if swaps[i].stagingCreated {
        StagingVersusDest(job, i, k);
        Apart(job.dests[k].dst, Staging(job, i), p);
      }
    }
  }

  /** Stripping later staging directories and moving a clear destination aside commute. */
  lemma StripMoves(job: Job, fs: Fs, swaps: seq<Swap>, k: nat)
    requires Sound(job) && Recorded(job, swaps) && k < |swaps| && Clear(job, k) && Vacant(fs, Pre(job, k))
    ensures Strip(MoveTree(fs, job.dests[k].dst, Pre(job, k)), swaps, k + 1, |swaps|) ==
            MoveTree(Strip(fs, swaps, k + 1, |swaps|), job.dests[k].dst, Pre(job, k))
  {
    var d, b := job.dests[k].dst, Pre(job, k);
    var a := Strip(fs, swaps, k + 1, |swaps|);
    OwnRootsSeparated(d, job.stamp);
    forall p ensures Get(Strip(MoveTree(fs, d, b), swaps, k + 1, |swaps|), p) == Get(MoveTree(a, d, b), p) {
      GetMoved(fs, d, b, p);
      GetMoved(a, d, b, p);
      if b <= p {
        NotCoveredInPre(job, swaps, k + 1, |swaps|, k, p);
        Rebase(b, d, p);
        NotCoveredInDest(job, swaps, k, d + p[|b|..]);
      }
    }
    SameFs(Strip(MoveTree(fs, d, b), swaps, k + 1, |swaps|), MoveTree(a, d, b));
  }

  ghost predicate Steady(job: Job, st: St) {
    Sound(job) && Recorded(job, st.swaps) && TreeClosed(st.fs)
  }

  lemma StripKeeps(job: Job, st: St, k: nat)
    requires Steady(job, st) && k < |st.swaps| && Clear(job, k) && CanMove(st.fs, job.dests[k].dst, Pre(job, k))
    ensures var a := Strip(st.fs, st.swaps, k + 1, |st.swaps|);
            job.dests[k].dst in a && Vacant(a, Pre(job, k)) && Get(a, Parent(job.dests[k].dst)) == Some(Directory)
  {
    var d := job.dests[k].dst;
    ClosedVacant(st.fs, Pre(job, k));
    NotCoveredInDest(job, st.swaps, k, d);
    NotCoveredAbove(job, st.swaps, k + 1, |st.swaps|, k, Parent(d));
    assert Parent(Pre(job, k)) == Parent(d);
  }

  /** Undoing record k undoes the move aside exactly. */
  lemma UndoBackup(a: Fs, s: Swap, stamp: string)
    requires s.dst != [] && s.pre == PreRestoreOf(s.dst, stamp) && s.nestedUnder.None? && !s.promoted && !s.backedUp
    requires s.dst in a && Vacant(a, s.pre) && Get(a, Parent(s.dst)) == Some(Directory)
    ensures UndoRecord(MoveTree(a, s.dst, s.pre), s.(backedUp := true)) == UndoRecord(a, s)
  {
    OwnRootsSeparated(s.dst, stamp);
    MoveBack(a, s.dst, s.pre);
  }

  /** Two states whose later records are the same, and whose disks agree once record k is undone, roll back to
      the same disk. */
  lemma SameBack(st: St, st': St, k: nat)
    requires k < |st.swaps| == |st'.swaps| && st.created == st'.created
    requires Unmoved(st.swaps, k + 1, |st.swaps|) && st'.swaps == st.swaps[k := st'.swaps[k]]
    requires UndoRecord(Strip(st'.fs, st'.swaps, k + 1, |st.swaps|), st'.swaps[k]) ==
             UndoRecord(Strip(st.fs, st.swaps, k + 1, |st.swaps|), st.swaps[k])
    ensures Back(st') == Back(st)
  {
    hide UndoRecord, Strip;
    UndoTail(st.fs, st.swaps, k + 1, |st.swaps|);
    UndoTail(st'.fs, st'.swaps, k + 1, |st.swaps|);
    UndoFromSame(UndoRecord(Strip(st.fs, st.swaps, k + 1, |st.swaps|), st.swaps[k]), st.swaps, st'.swaps, k);
  }

  /** Rolling back does not notice that a clear destination was moved aside. */
  lemma BacksKeepsBack(job: Job, st: St, st': St, k: nat)
    requires Steady(job, st) && Backs(job, st, st', k) && Clear(job, k)
    ensures Back(st') == Back(st)
  {
    hide UndoRecord, UndoFrom, Strip, MoveTree, Sound, TreeClosed;
    BackedStripped(job, st, st', k);
    SameBack(st, st', k);
  }

  /** Once later staging directories are gone, undoing record k leads to the same disk. */
  lemma BackedStripped(job: Job, st: St, st': St, k: nat)
    requires Steady(job, st) && Backs(job, st, st', k) && Clear(job, k)
    ensures UndoRecord(Strip(st'.fs, st'.swaps, k + 1, |st.swaps|), st'.swaps[k]) ==
            UndoRecord(Strip(st.fs, st.swaps, k + 1, |st.swaps|), st.swaps[k])
  {
    assert Fits(job, st.swaps[k], k);
    ClosedVacant(st.fs, st.swaps[k].pre);
    hide UndoRecord, Strip, MoveTree, TreeClosed, Ordered, FreshNames;
    StripKeeps(job, st, k);
    StripMoves(job, st.fs, st.swaps, k);
    StripSame(st'.fs, st.swaps, st'.swaps, k + 1);
    UndoBackup(Strip(st.fs, st.swaps, k + 1, |st.swaps|), st.swaps[k], job.stamp);
  }

  lemma StripSame(fs: Fs, a: seq<Swap>, b: seq<Swap>, lo: nat)
    requires lo <= |a| == |b| && forall i :: lo <= i < |a| ==> a[i] == b[i]
    ensures Strip(fs, a, lo, |a|) == Strip(fs, b, lo, |b|)
  {
    forall p ensures Covered(a, lo, |a|, p) <==> Covered(b, lo, |b|, p) {
      if Covered(a, lo, |a|, p) { var i :| lo <= i < |a| && Covers(a[i], p); assert Covers(b[i], p); }
      if Covered(b, lo, |b|, p) { var i :| lo <= i < |b| && Covers(b[i], p); assert Covers(a[i], p); }
    }
  }

  // ---- Promoting the staged tree ----

  lemma GetRemoved(fs: Fs, root: Path, p: Path)
    ensures Get(RemoveTree(fs, root), p) == if root <= p then None else Get(fs, p)
  {
  }

  lemma GetStrip(fs: Fs, swaps: seq<Swap>, lo: nat, hi: nat, p: Path)
    requires lo <= hi <= |swaps|
    ensures Get(Strip(fs, swaps, lo, hi), p) == if Covered(swaps, lo, hi, p) then None else Get(fs, p)
  {
  }

  /** Dropping what was promoted amounts to dropping what was staged. */
  lemma DropPromoted(fs: Fs, swaps: seq<Swap>, k: nat, a: Path, d: Path)
    requires k < |swaps| && Incomparable(a, d) && Vacant(fs, d)
    ensures RemoveTree(Strip(MoveTree(fs, a, d), swaps, k + 1, |swaps|), d) == RemoveTree(Strip(fs, swaps, k + 1, |swaps|), a)
  {
    var x, y := Strip(MoveTree(fs, a, d), swaps, k + 1, |swaps|), Strip(fs, swaps, k + 1, |swaps|);
    forall p ensures Get(RemoveTree(x, d), p) == Get(RemoveTree(y, a), p) {
      hide Strip, MoveTree, RemoveTree, Covered;
      GetRemoved(x, d, p);
      GetRemoved(y, a, p);
      GetStrip(MoveTree(fs, a, d), swaps, k + 1, |swaps|, p);
      GetStrip(fs, swaps, k + 1, |swaps|, p);
      GetMoved(fs, a, d, p);
      Apart(a, d, p);
    }
    SameFs(RemoveTree(x, d), RemoveTree(y, a));
  }

  /** Bringing the preserved tree back does not depend on whether the staged tree is still there. */
  lemma BringBackBeside(a: Fs, s: Swap, stamp: string)
    requires s.dst != [] && s.pre == PreRestoreOf(s.dst, stamp) && s.staging == StagingOf(s.dst, stamp) && Vacant(a, s.dst)
    ensures var b := RemoveTree(a, s.staging);
            && (CanMove(b, s.pre, s.dst) <==> CanMove(a, s.pre, s.dst))
            && RemoveTree(MoveTree(b, s.pre, s.dst), s.staging) == RemoveTree(MoveTree(a, s.pre, s.dst), s.staging)
            && RemoveTree(b, s.staging) == RemoveTree(a, s.staging)
  {
    var b := RemoveTree(a, s.staging);
    OwnRootsSeparated(s.dst, stamp);
    NotAboveParent(s.dst, s.staging);
    GetRemoved(a, s.staging, s.pre);
    GetRemoved(a, s.staging, s.dst);
    GetRemoved(a, s.staging, Parent(s.dst));
    forall p ensures Get(RemoveTree(MoveTree(b, s.pre, s.dst), s.staging), p) == Get(RemoveTree(MoveTree(a, s.pre, s.dst), s.staging), p) {
      SameBesideStaging(a, b, s, p);
    }
    SameFs(RemoveTree(MoveTree(b, s.pre, s.dst), s.staging), RemoveTree(MoveTree(a, s.pre, s.dst), s.staging));
    SameFs(RemoveTree(b, s.staging), RemoveTree(a, s.staging));
  }

  lemma SameBesideStaging(a: Fs, b: Fs, s: Swap, p: Path)
    requires Incomparable(s.pre, s.dst) && Incomparable(s.staging, s.pre) && b == RemoveTree(a, s.staging) && Vacant(a, s.dst)
    ensures Get(RemoveTree(MoveTree(b, s.pre, s.dst), s.staging), p) == Get(RemoveTree(MoveTree(a, s.pre, s.dst), s.staging), p)
  {
    GetRemoved(MoveTree(b, s.pre, s.dst), s.staging, p);
    GetRemoved(MoveTree(a, s.pre, s.dst), s.staging, p);
    GetMoved(a, s.pre, s.dst, p);
    GetMoved(b, s.pre, s.dst, p);
    if s.dst <= p {
      var q := s.pre + p[|s.dst|..];
      Rebase(s.dst, s.pre, p);
      Apart(s.staging, s.pre, q);
      GetRemoved(a, s.staging, q);
    } else {
      GetRemoved(a, s.staging, p);
    }
  }

  lemma StripVacant(fs: Fs, swaps: seq<Swap>, lo: nat, b: Path)
    requires lo <= |swaps| && Vacant(fs, b)
    ensures Vacant(Strip(fs, swaps, lo, |swaps|), b)
  {
  }

  lemma UndoPromotion(a: Fs, a': Fs, s: Swap, stamp: string)
    requires s.dst != [] && s.pre == PreRestoreOf(s.dst, stamp) && s.nestedUnder.None? && !s.promoted
    requires s.stagingCreated && s.staging == StagingOf(s.dst, stamp) && Vacant(a, s.dst)
    requires RemoveTree(a', s.dst) == RemoveTree(a, s.staging)
    ensures UndoRecord(a', s.(promoted := true)) == UndoRecord(a, s)
  {
    hide RemoveTree, MoveTree, CanMove;
    BringBackBeside(a, s, stamp);
  }

  /** Rolling back does not notice that a tree was promoted, whatever lies in it. */
  lemma PromotesKeepsBack(job: Job, st: St, st': St, k: nat)
    requires Steady(job, st) && Promotes(job, st, st', k)
    ensures Back(st') == Back(st)
  {
    assert Fits(job, st.swaps[k], k);
    ClosedVacant(st.fs, st.swaps[k].dst);
    hide UndoRecord, UndoFrom, Strip, MoveTree, TreeClosed, Ordered, FreshNames;
    var s, n := st.swaps[k], |st.swaps|;
    OwnRootsSeparated(s.dst, job.stamp);
    DropPromoted(st.fs, st.swaps, k, s.staging, s.dst);
    StripSame(st'.fs, st.swaps, st'.swaps, k + 1);
    StripVacant(st.fs, st.swaps, k + 1, s.dst);
    UndoPromotion(Strip(st.fs, st.swaps, k + 1, n), Strip(st'.fs, st'.swaps, k + 1, n), s, job.stamp);
    SameBack(st, st', k);
  }

  // ---- Steps before commit ----

  /** Before commit, rolling back strips the staging directories and drops the parents. */
  lemma BackBeforeCommit(st: St)
    requires BeforeCommit(st)
    ensures Back(st) == DropParents(Strip(st.fs, st.swaps, 0, |st.swaps|), st.created)
  {
    UndoTail(st.fs, st.swaps, 0, |st.swaps|);
  }

  lemma ParentKeepsBack(job: Job, st: St, st': St, k: nat, c: Path)
    requires Steady(job, st) && MakesParent(job, st, st', k, c)
    ensures Back(st') == Back(st)
  {
    ClosedVacant(st.fs, c);
    hide TreeClosed, SoundLayout;
    var x := Strip(st.fs, st.swaps, 0, |st.swaps|);
    BackBeforeCommit(st);
    BackBeforeCommit(st');
    NotCoveredAbove(job, st.swaps, 0, |st.swaps|, k, c);
    SameFs(Strip(st'.fs, st'.swaps, 0, |st.swaps|), x[c := Directory]);
    assert RemoveNode(x[c := Directory], c) == x;
    assert st'.created[..|st'.created| - 1] == st.created;
  }

  lemma StagesKeepsBack(job: Job, st: St, st': St, k: nat)
    requires Steady(job, st) && Stages(job, st, st', k)
    ensures Back(st') == Back(st)
  {
    BackBeforeCommit(st);
    assert BeforeCommit(st') by { assert forall i :: 0 <= i < |st.swaps| && i != k ==> st'.swaps[i] == st.swaps[i]; }
    BackBeforeCommit(st');
    ClosedVacant(st.fs, Staging(job, k));
    assert Fits(job, st.swaps[k], k);
    forall p ensures Get(Strip(st'.fs, st'.swaps, 0, |st.swaps|), p) == Get(Strip(st.fs, st.swaps, 0, |st.swaps|), p) {
      CoveredAfter(job, st.swaps, st'.swaps, k, p);
    }
    SameFs(Strip(st'.fs, st'.swaps, 0, |st.swaps|), Strip(st.fs, st.swaps, 0, |st.swaps|));
  }

  lemma CoveredAfter(job: Job, a: seq<Swap>, b: seq<Swap>, k: nat, p: Path)
    requires k < |a| == |b| && !a[k].stagingCreated && b == a[k := b[k]]
    ensures Covered(b, 0, |b|, p) <==> Covered(a, 0, |a|, p) || Covers(b[k], p)
  {
    if Covered(a, 0, |a|, p) { var i :| 0 <= i < |a| && Covers(a[i], p); assert Covers(b[i], p); }
    if Covered(b, 0, |b|, p) { var i :| 0 <= i < |b| && Covers(b[i], p); if i != k { assert Covers(a[i], p); } }
  }

  lemma WritesKeepsBack(job: Job, st: St, st': St, k: nat)
    requires Steady(job, st) && Writes(job, st, st', k)
    ensures Back(st') == Back(st)
  {
    BackBeforeCommit(st);
    BackBeforeCommit(st');
    assert Fits(job, st.swaps[k], k);
    forall p ensures Get(Strip(st'.fs, st.swaps, 0, |st.swaps|), p) == Get(Strip(st.fs, st.swaps, 0, |st.swaps|), p) {
      if Get(st'.fs, p) != Get(st.fs, p) { assert Covers(st.swaps[k], p); }
    }
    SameFs(Strip(st'.fs, st.swaps, 0, |st.swaps|), Strip(st.fs, st.swaps, 0, |st.swaps|));
  }

  lemma MarksKeepsBack(job: Job, st: St, st': St, k: nat)
    requires Marks(job, st, st', k)
    ensures Back(st') == Back(st)
  {
    UndoFromSame(st.fs, st.swaps, st'.swaps, |st.swaps|);
  }

  // ---- The invariant of every run ----

  /** No file stands above a destination. */
  ghost predicate WayFree(job: Job, k: nat)
    requires k < |job.dests|
  {
    forall a :: Within(job.dests[k].dst, a) ==> !RestoreObstacles.FileAt(job.before, a)
  }

  /** Before commit the initial disk is still there, and what was added is a created parent or staged. */
  ghost predicate Extends(job: Job, st: St) {
    && (forall p :: p in job.before ==> Get(st.fs, p) == Get(job.before, p))
    && (forall p :: p in st.fs ==> p in job.before || p in st.created || Covered(st.swaps, 0, |st.swaps|, p))
    && (forall c :: c in st.created ==> Get(st.fs, c) == Some(Directory))
    && (forall k :: 0 <= k < |st.swaps| && st.swaps[k].stagingCreated ==> Get(st.fs, st.swaps[k].staging) == Some(Directory))
  }

  ghost predicate Above(job: Job, c: Path) {
    exists k :: 0 <= k < |job.dests| && Root(job, k) && Within(job.dests[k].dst, c)
  }

  ghost predicate Inv(job: Job, st: St) {
    && Steady(job, st) && (BeforeCommit(st) ==> Extends(job, st))
    && (forall c :: c in st.created ==> Above(job, c))
    && (forall k :: 0 <= k < |st.swaps| && st.swaps[k].stagingCreated ==> WayFree(job, k))
  }

  lemma StartInv(job: Job)
    requires Sound(job)
    ensures Inv(job, Start(job)) && Back(Start(job)) == job.before
  {
    var st := Start(job);
    forall k | 0 <= k < |st.swaps| ensures Fits(job, st.swaps[k], k) { }
    BackBeforeCommit(st);
    SameFs(Strip(st.fs, st.swaps, 0, |st.swaps|), job.before);
  }

  lemma AddedKeepsClosed(fs: Fs, c: Path)
    requires TreeClosed(fs) && c != [] && c !in fs && Get(fs, Parent(c)) == Some(Directory)
    ensures TreeClosed(fs[c := Directory])
  {
    var fs' := fs[c := Directory];
    forall p, q | q in fs' && Within(q, p) ensures p in fs' && fs'[p] == Directory {
      if q == c {
        WithinParent(c, p);
        if p != Parent(c) { ParentDir(fs, p, Parent(c)); }
      } else {
        ParentDir(fs, p, q);
      }
    }
  }

  lemma ParentKeepsExtends(job: Job, st: St, st': St, k: nat, c: Path)
    requires Steady(job, st) && Extends(job, st) && MakesParent(job, st, st', k, c)
    ensures Extends(job, st')
  {
    hide SoundLayout, TreeClosed, Covered, Recorded;
    assert c in job.before ==> Get(st.fs, c) == Get(job.before, c);
    assert forall p :: Get(st'.fs, p) == if p == c then Some(Directory) else Get(st.fs, p);
  }

  lemma ParentKeepsInv(job: Job, st: St, st': St, k: nat, c: Path)
    requires Inv(job, st) && MakesParent(job, st, st', k, c)
    ensures Inv(job, st')
  {
    hide SoundLayout, TreeClosed, Extends, Recorded, WayFree;
    AddedKeepsClosed(st.fs, c);
    ParentKeepsExtends(job, st, st', k, c);
    assert Above(job, c);
  }

  /** With a directory right above the destination, no file stands in its way. */
  lemma DirAboveIsFree(job: Job, st: St, k: nat)
    requires Steady(job, st) && Extends(job, st) && k < |job.dests| && Get(st.fs, Parent(job.dests[k].dst)) == Some(Directory)
    ensures WayFree(job, k)
  {
    var d := job.dests[k].dst;
    forall a | Within(d, a) ensures !RestoreObstacles.FileAt(job.before, a) {
      WithinParent(d, a);
      if a != Parent(d) { ParentDir(st.fs, a, Parent(d)); }
      if a in job.before { assert Get(st.fs, a) == Get(job.before, a); }
    }
  }

  lemma StagesKeepsSteady(job: Job, st: St, st': St, k: nat)
    requires Steady(job, st) && Stages(job, st, st', k)
    ensures Steady(job, st')
  {
    hide Outermost, Ordered, FreshNames;
    assert Fits(job, st.swaps[k], k);
    assert Parent(Staging(job, k)) == Parent(job.dests[k].dst);
    AddedKeepsClosed(st.fs, Staging(job, k));
    RecordedUpdate(job, st.swaps, k, st'.swaps[k]);
  }

  lemma StagingIsNew(job: Job, k: nat)
    requires Sound(job) && k < |job.dests|
    ensures job.dests[k].dst != [] && Staging(job, k) !in job.before
  {
    assert StagingOf(job.dests[k].dst, job.stamp) !in job.before;
  }

  lemma StagesKeepsExtends(job: Job, st: St, st': St, k: nat)
    requires Steady(job, st) && Extends(job, st) && Stages(job, st, st', k)
    ensures Extends(job, st')
  {
    hide SoundLayout, Outermost, Covered, TreeClosed, Sibling;
    StagingIsNew(job, k);
    assert Fits(job, st.swaps[k], k);
    assert forall p :: Get(st'.fs, p) == if p == Staging(job, k) then Some(Directory) else Get(st.fs, p);
    forall p | p in st'.fs ensures p in job.before || p in st'.created || Covered(st'.swaps, 0, |st'.swaps|, p) {
      CoveredAfter(job, st.swaps, st'.swaps, k, p);
    }
  }

  lemma StagesKeepsInv(job: Job, st: St, st': St, k: nat)
    requires Inv(job, st) && Stages(job, st, st', k)
    ensures Inv(job, st')
  {
    hide SoundLayout, TreeClosed, Extends, Recorded, WayFree;
    StagesKeepsSteady(job, st, st', k);
    DirAboveIsFree(job, st, k);
    StagesKeepsExtends(job, st, st', k);
  }

  lemma WritesKeepsInv(job: Job, st: St, st': St, k: nat)
    requires Inv(job, st) && Writes(job, st, st', k)
    ensures Inv(job, st')
  {
    var s := st.swaps[k];
    assert Fits(job, s, k);
    forall p | p in job.before ensures Get(st'.fs, p) == Get(job.before, p) {
      if Within(p, s.staging) { FreeSubtree(job.before, Staging(job, k), p); }
    }
    forall p | p in st'.fs ensures p in job.before || p in st'.created || Covered(st'.swaps, 0, |st'.swaps|, p) {
      if Get(st'.fs, p) != Get(st.fs, p) { assert Covers(s, p); }
    }
    forall c | c in st.created ensures Get(st'.fs, c) == Some(Directory) {
      assert Above(job, c);
      var j :| 0 <= j < |job.dests| && Root(job, j) && Within(job.dests[j].dst, c);
      StagingNotAbove(job, k, j, c);
    }
    forall j | 0 <= j < |st.swaps| && st.swaps[j].stagingCreated ensures Get(st'.fs, st.swaps[j].staging) == Some(Directory) {
      assert Fits(job, st.swaps[j], j);
      if j != k { StagingApart(job, k, j); }
    }
  }

  /** Replacing one record by another that fits. */
  lemma RecordedUpdate(job: Job, swaps: seq<Swap>, k: nat, s': Swap)
    requires Sound(job) && Recorded(job, swaps) && k < |swaps| && Fits(job, s', k)
    ensures Recorded(job, swaps[k := s'])
  {
  }

  lemma MarkCovered(swaps: seq<Swap>, k: nat, p: Path)
    requires k < |swaps|
    ensures Covered(swaps, 0, |swaps|, p) <==> Covered(swaps[k := swaps[k].(hadEntries := true)], 0, |swaps|, p)
  {
    var b := swaps[k := swaps[k].(hadEntries := true)];
    if Covered(swaps, 0, |swaps|, p) { var i :| 0 <= i < |swaps| && Covers(swaps[i], p); assert Covers(b[i], p); }
    if Covered(b, 0, |swaps|, p) { var i :| 0 <= i < |swaps| && Covers(b[i], p); assert Covers(swaps[i], p); }
  }

  lemma MarksKeepsInv(job: Job, st: St, st': St, k: nat)
    requires Inv(job, st) && Marks(job, st, st', k)
    ensures Inv(job, st')
  {
    hide SoundLayout, TreeClosed, Covered;
    assert Fits(job, st.swaps[k], k);
    RecordedUpdate(job, st.swaps, k, st'.swaps[k]);
    forall p ensures Covered(st.swaps, 0, |st.swaps|, p) <==> Covered(st'.swaps, 0, |st.swaps|, p) {
      MarkCovered(st.swaps, k, p);
    }
  }

  lemma MovedKeepsSteady(job: Job, st: St, st': St, k: nat)
    requires Steady(job, st) && (Backs(job, st, st', k) || Promotes(job, st, st', k))
    ensures Steady(job, st')
  {
    assert Fits(job, st.swaps[k], k) && st.swaps[k].dst != [];
    hide SoundLayout, TreeClosed, MoveTree, Unmoved;
    var s := st.swaps[k];
    RecordedUpdate(job, st.swaps, k, st'.swaps[k]);
    OwnRootsSeparated(s.dst, job.stamp);
    if Backs(job, st, st', k) { MoveKeepsClosed(st.fs, s.dst, s.pre); } else { MoveKeepsClosed(st.fs, s.staging, s.dst); }
  }

  lemma MovedKeepsInv(job: Job, st: St, st': St, k: nat)
    requires Inv(job, st) && (Backs(job, st, st', k) || Promotes(job, st, st', k))
    ensures Inv(job, st')
  {
    hide Steady, SoundLayout, Extends, MoveTree, CanMove;
    KnownSteady(job, st);
    MovedKeepsSteady(job, st, st', k);
    MovedIsLate(st', k);
  }

  lemma MovedIsLate(st: St, k: nat)
    requires k < |st.swaps| && (st.swaps[k].backedUp || st.swaps[k].promoted)
    ensures !BeforeCommit(st)
  {
  }

  // ---- When rollback is exact ----

  /** No tree that counts as outermost lies in an earlier one that exists. */
  ghost predicate Safe(job: Job) {
    forall k, i :: 0 <= k < i < |job.dests| && Overlaps(job, k, i) ==> job.dests[k].dst !in job.before
  }

  /** Trees k and i both count as outermost, and i lies in k. */
  ghost predicate Overlaps(job: Job, k: nat, i: nat)
    requires k < |job.dests| && i < |job.dests|
  {
    Root(job, k) && Root(job, i) && Within(job.dests[i].dst, job.dests[k].dst)
  }

  lemma AllStagedIsFree(job: Job, st: St)
    requires Inv(job, st) && forall i :: 0 <= i < |st.swaps| && Root(job, i) ==> st.swaps[i].stagingCreated
    ensures !RestoreObstacles.AncestorIsFile(job)
  {
    forall a, i | 0 <= i < |job.dests| && Root(job, i) && Within(job.dests[i].dst, a)
      ensures !RestoreObstacles.FileAt(job.before, a)
    {
      assert WayFree(job, i);
    }
  }

  lemma BackedIsClear(job: Job, st: St, st': St, k: nat)
    requires Inv(job, st) && Backs(job, st, st', k) && (Safe(job) || RestoreObstacles.AncestorIsFile(job))
    ensures Clear(job, k)
  {
    assert Fits(job, st.swaps[k], k);
    AllStagedIsFree(job, st);
    forall i | k < i < |job.dests| && Root(job, i) ensures !Within(job.dests[i].dst, job.dests[k].dst) {
      assert Root(job, k) && !Overlaps(job, k, i);
    }
  }

  lemma MoveStep(job: Job, st: St, st': St)
    requires Inv(job, st) && Moves(job, st, st')
    ensures Inv(job, st')
    ensures Safe(job) || RestoreObstacles.AncestorIsFile(job) ==> Back(st') == Back(st)
  {
    hide Inv, Back, Safe;
    KnownSteady(job, st);
    if k, c :| MakesParent(job, st, st', k, c) {
      ParentKeepsInv(job, st, st', k, c);
      ParentKeepsBack(job, st, st', k, c);
    } else {
      var k :| Stages(job, st, st', k) || Writes(job, st, st', k) || Marks(job, st, st', k) ||
               Backs(job, st, st', k) || Promotes(job, st, st', k);
      OneStep(job, st, st', k);
    }
  }

  lemma KnownSteady(job: Job, st: St)
    requires Inv(job, st)
    ensures Steady(job, st)
  {
  }

  lemma OneStep(job: Job, st: St, st': St, k: nat)
    requires Inv(job, st) && Steady(job, st)
    requires Stages(job, st, st', k) || Writes(job, st, st', k) || Marks(job, st, st', k) ||
             Backs(job, st, st', k) || Promotes(job, st, st', k)
    ensures Inv(job, st')
    ensures Safe(job) || RestoreObstacles.AncestorIsFile(job) ==> Back(st') == Back(st)
  {
    hide Inv, Back, Safe, Stages, Writes, Marks, Backs, Promotes;
    if Stages(job, st, st', k) {
      StagesKeepsInv(job, st, st', k);
      StagesKeepsBack(job, st, st', k);
    } else if Writes(job, st, st', k) {
      WritesKeepsInv(job, st, st', k);
      WritesKeepsBack(job, st, st', k);
    } else if Marks(job, st, st', k) {
      MarksKeepsInv(job, st, st', k);
      MarksKeepsBack(job, st, st', k);
    } else {
      MovedKeepsInv(job, st, st', k);
      if Promotes(job, st, st', k) {
        PromotesKeepsBack(job, st, st', k);
      } else if Safe(job) || RestoreObstacles.AncestorIsFile(job) {
        BackedIsClear(job, st, st', k);
        BacksKeepsBack(job, st, st', k);
      }
    }
  }

  lemma {:induction false} RunInv(job: Job, trace: seq<St>, n: nat)
    requires Sound(job) && Run(job, trace) && n < |trace|
    ensures Inv(job, trace[n])
    ensures Safe(job) || RestoreObstacles.AncestorIsFile(job) ==> Back(trace[n]) == job.before
  {
    if n == 0 {
      StartInv(job);
    } else {
      RunInv(job, trace, n - 1);
      assert Moves(job, trace[n - 1], trace[n - 1 + 1]);
      MoveStep(job, trace[n - 1], trace[n]);
    }
  }

  lemma SafeIsExact(job: Job)
    requires Sound(job) && (Safe(job) || RestoreObstacles.AncestorIsFile(job))
    ensures Exact(job)
  {
    forall st | Reachable(job, st) ensures Back(st) == job.before {
      var trace :| Run(job, trace) && trace[|trace| - 1] == st;
      RunInv(job, trace, |trace| - 1);
    }
  }

  // ---- A run that does not roll back ----

  /** The first n trees are staged, no other, and nothing has been written. */
  ghost predicate Prepared(job: Job, st: St, n: nat)
    requires Sound(job)
  {
    && Reachable(job, st) && Inv(job, st) && BeforeCommit(st)
    && (forall i :: 0 <= i < |st.swaps| ==> !st.swaps[i].hadEntries)
    && (forall i :: 0 <= i < |st.swaps| && Root(job, i) ==> (st.swaps[i].stagingCreated <==> i < n))
  }

  lemma NothingAbove(job: Job, k: nat)
    requires Sound(job) && !RestoreObstacles.AncestorIsFile(job) && k < |job.dests| && Root(job, k)
    ensures WayFree(job, k)
  {
    forall a | Within(job.dests[k].dst, a) ensures !RestoreObstacles.FileAt(job.before, a) {
      assert job.AboveSome(a);
    }
  }

  lemma AncestorIsDir(job: Job, st: St, k: nat, c: Path)
    requires Inv(job, st) && BeforeCommit(st) && k < |job.dests| && WayFree(job, k)
    requires Within(job.dests[k].dst, c) && c in st.fs
    ensures Get(st.fs, c) == Some(Directory)
  {
    NotCoveredAbove(job, st.swaps, 0, |st.swaps|, k, c);
    if c in job.before { assert Get(st.fs, c) == Get(job.before, c); }
  }

  lemma PreparedBasics(job: Job, st: St, n: nat)
    requires Sound(job) && Prepared(job, st, n)
    ensures Reachable(job, st) && Inv(job, st) && BeforeCommit(st) && |st.swaps| == |job.dests|
    ensures Get(st.fs, []) == Some(Directory)
  {
  }

  /** A new parent: records and marks stay as they are. */
  lemma ParentStep(job: Job, st: St, k: nat, c: Path) returns (st': St)
    requires Sound(job) && Prepared(job, st, k) && k < |job.dests| && Root(job, k)
    requires c != [] && Within(job.dests[k].dst, c) && c !in st.fs && Get(st.fs, Parent(c)) == Some(Directory)
    ensures Prepared(job, st', k) && Get(st'.fs, c) == Some(Directory)
  {
    hide Inv, Reachable, SoundLayout;
    PreparedBasics(job, st, k);
    st' := st.(fs := st.fs[c := Directory], created := st.created + [c]);
    assert MakesParent(job, st, st', k, c);
    ReachStep(job, st, st');
    ParentKeepsInv(job, st, st', k, c);
  }

  /** ensureParent, down to the first m components of the destination. */
  lemma {:induction false} Climb(job: Job, st: St, k: nat, m: nat) returns (st': St)
    requires Sound(job) && Prepared(job, st, k) && k < |job.dests| && Root(job, k) && WayFree(job, k)
    requires m < |job.dests[k].dst|
    ensures Prepared(job, st', k) && Get(st'.fs, job.dests[k].dst[..m]) == Some(Directory)
  {
    hide Prepared, SoundLayout, WayFree, Inv, Reachable, BeforeCommit;
    var d := job.dests[k].dst;
    if m == 0 {
      st' := st;
      PreparedBasics(job, st, k);
      assert d[..0] == [];
    } else {
      var st1 := Climb(job, st, k, m - 1);
      var c := d[..m];
      assert Parent(c) == d[..m - 1] && Within(d, c);
      if c in st1.fs {
        st' := st1;
        PreparedBasics(job, st1, k);
        AncestorIsDir(job, st1, k, c);
      } else {
        st' := ParentStep(job, st1, k, c);
      }
    }
  }

  /** Neither invented name is an ancestor of a destination. */
  lemma NamesNotAbove(job: Job, k: nat)
    requires Sound(job) && k < |job.dests|
    ensures !Above(job, Staging(job, k)) && !Above(job, Pre(job, k))
  {
    forall j | 0 <= j < |job.dests|
      ensures !Within(job.dests[j].dst, Staging(job, k)) && !Within(job.dests[j].dst, Pre(job, k))
    {
      assert !(StagingOf(job.dests[k].dst, job.stamp) <= job.dests[j].dst);
      assert !(PreRestoreOf(job.dests[k].dst, job.stamp) <= job.dests[j].dst);
    }
  }

  lemma StagingFree(job: Job, st: St, k: nat)
    requires Inv(job, st) && BeforeCommit(st) && k < |st.swaps| && !st.swaps[k].stagingCreated
    ensures Staging(job, k) !in st.fs
  {
    var p := Staging(job, k);
    forall j | 0 <= j < |st.swaps| ensures !Covers(st.swaps[j], p) {
      assert Fits(job, st.swaps[j], j);
      if st.swaps[j].stagingCreated { StagingApart(job, j, k); }
    }
    NamesNotAbove(job, k);
    assert StagingOf(job.dests[k].dst, job.stamp) !in job.before;
  }

  lemma StartPrepared(job: Job)
    requires Sound(job)
    ensures Prepared(job, Start(job), 0)
  {
    ReachStart(job);
    StartInv(job);
  }

  lemma SkipNested(job: Job, st: St, k: nat)
    requires Sound(job) && Prepared(job, st, k) && k < |job.dests| && !Root(job, k)
    ensures Prepared(job, st, k + 1)
  {
    hide Inv, Reachable, SoundLayout, Outermost;
    PreparedBasics(job, st, k);
  }

  lemma DestNonEmpty(job: Job, k: nat)
    requires Sound(job) && k < |job.dests|
    ensures job.dests[k].dst != []
  {
  }

  lemma {:induction false} Prepare(job: Job, n: nat) returns (st: St)
    requires Sound(job) && !RestoreObstacles.AncestorIsFile(job) && n <= |job.dests|
    ensures Prepared(job, st, n)
  {
    hide Prepared, SoundLayout, RestoreObstacles.AncestorIsFile, WayFree, Root, Start;
    if n == 0 {
      st := Start(job);
      StartPrepared(job);
    } else {
      var k := n - 1;
      DestNonEmpty(job, k);
      st := Prepare(job, k);
      if Root(job, k) {
        NothingAbove(job, k);
        st := Climb(job, st, k, |job.dests[k].dst| - 1);
        st := StageNext(job, st, k);
      } else {
        SkipNested(job, st, k);
      }
    }
  }

  lemma StageNext(job: Job, st: St, k: nat) returns (st': St)
    requires Sound(job) && k < |job.dests| && Root(job, k) && Prepared(job, st, k) && job.dests[k].dst != []
    requires Get(st.fs, job.dests[k].dst[..|job.dests[k].dst| - 1]) == Some(Directory)
    ensures Prepared(job, st', k + 1)
  {
    hide Inv, Reachable, SoundLayout, Root;
    PreparedBasics(job, st, k);
    var s' := st.swaps[k].(staging := Staging(job, k), stagingCreated := true);
    StagingFree(job, st, k);
    st' := st.(fs := st.fs[Staging(job, k) := Directory], swaps := st.swaps[k := s']);
    assert Stages(job, st, st', k);
    ReachStep(job, st, st');
    StagesKeepsInv(job, st, st', k);
    assert forall i :: 0 <= i < |st.swaps| && i != k ==> st'.swaps[i] == st.swaps[i];
  }

  lemma PreFree(job: Job, st: St, k: nat)
    requires Inv(job, st) && BeforeCommit(st) && k < |st.swaps|
    ensures Pre(job, k) !in st.fs
  {
    NotCoveredInPre(job, st.swaps, 0, |st.swaps|, k, Pre(job, k));
    assert PreRestoreOf(job.dests[k].dst, job.stamp) !in job.before;
    NamesNotAbove(job, k);
  }

  lemma MarkOne(job: Job, k: nat) returns (st: St)
    requires Sound(job) && !RestoreObstacles.AncestorIsFile(job) && k < |job.dests| && Root(job, k)
    ensures Reachable(job, st) && Inv(job, st) && BeforeCommit(st) && |st.swaps| == |job.dests|
    ensures forall i :: 0 <= i < |st.swaps| ==> (st.swaps[i].hadEntries <==> i == k)
    ensures forall i :: 0 <= i < |st.swaps| && Root(job, i) ==> st.swaps[i].stagingCreated
  {
    hide Inv, Reachable, SoundLayout, Root, RestoreObstacles.AncestorIsFile;
    var st0 := Prepare(job, |job.dests|);
    PreparedBasics(job, st0, |job.dests|);
    st := st0.(swaps := st0.swaps[k := st0.swaps[k].(hadEntries := true)]);
    assert Marks(job, st0, st, k);
    ReachStep(job, st0, st);
    MarksKeepsInv(job, st0, st, k);
  }

  lemma BackupPossible(job: Job, st: St, k: nat)
    requires Inv(job, st) && BeforeCommit(st) && k < |st.swaps| && job.dests[k].dst in job.before
    ensures var s := st.swaps[k];
            s.dst == job.dests[k].dst && s.dst != [] && s.dstExisted && CanMove(st.fs, s.dst, s.pre)
  {
    var s := st.swaps[k];
    assert Fits(job, s, k);
    PreFree(job, st, k);
    assert Get(st.fs, s.dst) == Get(job.before, s.dst);
    ParentDir(st.fs, Parent(s.dst), s.dst);
    assert Parent(s.pre) == Parent(s.dst);
  }

  /** The run: everything is staged, tree k receives an entry, and commit moves its destination aside. */
  lemma BackupRun(job: Job, k: nat) returns (st: St, st': St)
    requires Sound(job) && !RestoreObstacles.AncestorIsFile(job) && k < |job.dests| && Root(job, k)
    requires job.dests[k].dst in job.before
    ensures Inv(job, st) && BeforeCommit(st) && Backs(job, st, st', k) && Reachable(job, st')
    ensures forall i :: 0 <= i < |st.swaps| && Root(job, i) ==> st.swaps[i].stagingCreated
  {
    hide Inv, Reachable, SoundLayout, Root, CanMove, RestoreObstacles.AncestorIsFile;
    st := MarkOne(job, k);
    BackupPossible(job, st, k);
    var s := st.swaps[k];
    st' := st.(fs := MoveTree(st.fs, s.dst, s.pre), swaps := st.swaps[k := s.(backedUp := true)]);
    assert Backs(job, st, st', k);
    ReachStep(job, st, st');
  }

  lemma {:induction false} DropKeeps(fs: Fs, created: seq<Path>, p: Path)
    requires p in fs && p !in created
    ensures p in DropParents(fs, created)
    decreases |created|
  {
    if created != [] {
      DropKeeps(RemoveNode(fs, created[|created| - 1]), created[..|created| - 1], p);
    }
  }

  /** The staging directory of the inner tree has moved along, and comes back with the tree around it. */
  lemma InnerComesBack(job: Job, st: St, st': St, k: nat, i: nat)
    requires Inv(job, st) && BeforeCommit(st) && Backs(job, st, st', k) && k < i < |job.dests| && Overlaps(job, k, i)
    ensures var a := Strip(st'.fs, st'.swaps, k + 1, |st.swaps|);
            Get(UndoRecord(a, st'.swaps[k]), Staging(job, i)) == Some(Directory)
  {
    var d, b, x, n := job.dests[k].dst, Pre(job, k), Staging(job, i), |st.swaps|;
    var a := Strip(st'.fs, st'.swaps, k + 1, n);
    assert Fits(job, st.swaps[k], k) && Fits(job, st.swaps[i], i);
    assert Get(st.fs, x) == Some(Directory) && Parent(b) == Parent(d);
    RecordedUpdate(job, st.swaps, k, st'.swaps[k]);
    StagingVersusDest(job, i, k);
    OwnRootsSeparated(d, job.stamp);
    ClosedVacant(st.fs, b);
    StrippedAside(job, st, st', k, x);
    UndoneAt(a, st'.swaps[k], x);
    StagingApart(job, k, i);
  }

  /** After the move and the strip: the tree is complete under its pre-restore name, and its own is free. */
  lemma StrippedAside(job: Job, st: St, st': St, k: nat, x: Path)
    requires Steady(job, st) && Backs(job, st, st', k) && Recorded(job, st'.swaps)
    requires job.dests[k].dst <= x && x in st.fs && Vacant(st.fs, Pre(job, k))
    ensures var a, d, b := Strip(st'.fs, st'.swaps, k + 1, |st.swaps|), job.dests[k].dst, Pre(job, k);
            Get(a, b + x[|d|..]) == Get(st.fs, x) && Vacant(a, d) && CanMove(a, b, d)
  {
    var d, b := job.dests[k].dst, Pre(job, k);
    assert Fits(job, st.swaps[k], k);
    OwnRootsSeparated(d, job.stamp);
    AsideAt(job, st, st', k, x);
    AsideAt(job, st, st', k, d);
    assert b + d[|d|..] == b;
    AsideVacant(job, st, st', k);
    AsideParent(job, st, st', k);
  }

  lemma AsideAt(job: Job, st: St, st': St, k: nat, x: Path)
    requires Steady(job, st) && Backs(job, st, st', k) && Recorded(job, st'.swaps)
    requires job.dests[k].dst <= x && Vacant(st.fs, Pre(job, k)) && Incomparable(job.dests[k].dst, Pre(job, k))
    ensures Get(Strip(st'.fs, st'.swaps, k + 1, |st.swaps|), Pre(job, k) + x[|job.dests[k].dst|..]) == Get(st.fs, x)
  {
    var d, b := job.dests[k].dst, Pre(job, k);
    assert Fits(job, st.swaps[k], k);
    Rebase(d, b, x);
    GetMoved(st.fs, d, b, b + x[|d|..]);
    NotCoveredInPre(job, st'.swaps, k + 1, |st.swaps|, k, b + x[|d|..]);
    GetStrip(st'.fs, st'.swaps, k + 1, |st.swaps|, b + x[|d|..]);
  }

  lemma AsideVacant(job: Job, st: St, st': St, k: nat)
    requires Steady(job, st) && Backs(job, st, st', k) && Recorded(job, st'.swaps)
    requires Vacant(st.fs, Pre(job, k)) && Incomparable(job.dests[k].dst, Pre(job, k))
    ensures Vacant(Strip(st'.fs, st'.swaps, k + 1, |st.swaps|), job.dests[k].dst)
  {
    var d, b := job.dests[k].dst, Pre(job, k);
    var a := Strip(st'.fs, st'.swaps, k + 1, |st.swaps|);
    assert Fits(job, st.swaps[k], k);
    forall q | d <= q ensures Get(a, q) == None {
      Apart(d, b, q);
      GetMoved(st.fs, d, b, q);
      GetStrip(st'.fs, st'.swaps, k + 1, |st.swaps|, q);
    }
    forall q | q in a ensures !(d <= q) { assert Get(a, q).Some?; }
  }

  lemma AsideParent(job: Job, st: St, st': St, k: nat)
    requires Steady(job, st) && Backs(job, st, st', k) && Recorded(job, st'.swaps)
    requires Vacant(st.fs, Pre(job, k)) && Incomparable(job.dests[k].dst, Pre(job, k))
    ensures Get(Strip(st'.fs, st'.swaps, k + 1, |st.swaps|), Parent(job.dests[k].dst)) == Some(Directory)
  {
    var d, b := job.dests[k].dst, Pre(job, k);
    assert Fits(job, st.swaps[k], k);
    assert Parent(b) == Parent(d) && !(d <= Parent(d)) && Parent(d) <= d;
    NotAboveParent(d, b);
    GetMoved(st.fs, d, b, Parent(d));
    NotCoveredAbove(job, st'.swaps, k + 1, |st.swaps|, k, Parent(d));
    GetStrip(st'.fs, st'.swaps, k + 1, |st.swaps|, Parent(d));
  }

  lemma UndoneAt(a: Fs, s: Swap, x: Path)
    requires s.nestedUnder.None? && !s.promoted && s.backedUp && CanMove(a, s.pre, s.dst) && s.dst <= x
    requires Incomparable(s.pre, s.dst) && Vacant(a, s.dst)
    ensures Get(UndoRecord(a, s), x) == if Covers(s, x) then None else Get(a, s.pre + x[|s.dst|..])
  {
    GetMoved(a, s.pre, s.dst, x);
    GetRemoved(MoveTree(a, s.pre, s.dst), s.staging, x);
  }

  /** Earlier records, which are only staged, do not touch a later staging directory. */
  lemma EarlierLeaveIt(job: Job, fs: Fs, swaps: seq<Swap>, k: nat, i: nat)
    requires Sound(job) && Recorded(job, swaps) && k < i < |swaps| && Unmoved(swaps, 0, k) && Staging(job, i) in fs
    ensures Staging(job, i) in UndoFrom(fs, swaps, k)
  {
    var x := Staging(job, i);
    UndoTail(fs, swaps, 0, k);
    forall j | 0 <= j < k ensures !Covers(swaps[j], x) {
      assert Fits(job, swaps[j], j);
      if swaps[j].stagingCreated { StagingApart(job, j, i); }
    }
    GetStrip(fs, swaps, 0, k, x);
  }

  lemma InvBasics(job: Job, st: St, st': St, k: nat, i: nat)
    requires Inv(job, st) && BeforeCommit(st) && Backs(job, st, st', k) && i < |job.dests|
    ensures Sound(job) && |st.swaps| == |job.dests| && job.dests[i].dst != []
    ensures Recorded(job, st'.swaps) && Unmoved(st'.swaps, 0, k)
    ensures Staging(job, i) !in st.created && Staging(job, i) !in job.before
  {
    assert Fits(job, st.swaps[k], k) && StagingOf(job.dests[i].dst, job.stamp) !in job.before;
    NamesNotAbove(job, i);
    RecordedUpdate(job, st.swaps, k, st'.swaps[k]);
  }

  /** So rolling back from there leaves it on disk. */
  lemma InnerLeftBehind(job: Job, st: St, st': St, k: nat, i: nat)
    requires Inv(job, st) && BeforeCommit(st) && Backs(job, st, st', k) && k < i < |job.dests| && Overlaps(job, k, i)
    ensures Staging(job, i) in Back(st') && Staging(job, i) !in job.before
  {
    hide Inv, SoundLayout, UndoRecord, Strip, Overlaps;
    InvBasics(job, st, st', k, i);
    var x, n := Staging(job, i), |st.swaps|;
    InnerComesBack(job, st, st', k, i);
    var a := UndoRecord(Strip(st'.fs, st'.swaps, k + 1, n), st'.swaps[k]);
    UndoTail(st'.fs, st'.swaps, k + 1, n);
    assert UndoFrom(st'.fs, st'.swaps, n) == UndoFrom(a, st'.swaps, k);
    EarlierLeaveIt(job, a, st'.swaps, k, i);
    DropKeeps(UndoFrom(a, st'.swaps, k), st'.created, x);
  }

  lemma UnsafeIsInexact(job: Job)
    requires Sound(job) && !Safe(job) && !RestoreObstacles.AncestorIsFile(job)
    ensures !Exact(job)
  {
    var k, i :| 0 <= k < i < |job.dests| && Overlaps(job, k, i) && job.dests[k].dst in job.before;
    var st, st' := BackupRun(job, k);
    InnerLeftBehind(job, st, st', k, i);
    assert Reachable(job, st') && Back(st') != job.before;
  }

  /** Exactly when rollback is exact, on every ordered layout with fresh names: wherever a restore stops, the
      disk becomes what it was, if and only if no tree that counts as outermost lies in an earlier one that
      exists, or a file stands above some destination, so that nothing is ever committed. */
  lemma RollbackExactIff(job: Job)
    requires Sound(job)
    ensures Exact(job) <==> Safe(job) || RestoreObstacles.AncestorIsFile(job)
  {
    if Safe(job) || RestoreObstacles.AncestorIsFile(job) { SafeIsExact(job); } else { UnsafeIsInexact(job); }
  }

  /** Separate layouts are safe. */
  lemma SeparateIsSafe(job: Job)
    requires job.Valid()
    ensures Safe(job)
  {
    forall k, i | 0 <= k < i < |job.dests| ensures !Overlaps(job, k, i) { }
  }

  // ---- What commit makes of overlapping trees ----

  /** Promoting a tree puts what was staged for it at every path below its destination, also where another
      tree had been restored. */
  lemma PromotionReplacesInside(job: Job, st: St, st': St, k: nat, x: Path)
    requires Steady(job, st) && Promotes(job, st, st', k) && job.dests[k].dst <= x
    ensures Get(st'.fs, x) == Get(st.fs, Staging(job, k) + x[|job.dests[k].dst|..])
  {
    var s := st.swaps[k];
    assert Fits(job, s, k);
    OwnRootsSeparated(s.dst, job.stamp);
    ClosedVacant(st.fs, s.dst);
    GetMoved(st.fs, s.staging, s.dst, x);
  }

  /** Without any refusal: once a tree has been promoted around a later one, that one cannot be promoted any
      more, unless the archive of the first happens to hold its staging directory. */
  lemma InnerCannotFollow(job: Job, st: St, st': St, k: nat, i: nat)
    requires Steady(job, st) && Promotes(job, st, st', k) && k < i < |job.dests| && Overlaps(job, k, i)
    requires Staging(job, k) + Staging(job, i)[|job.dests[k].dst|..] !in st.fs
    ensures forall st2 :: !Promotes(job, st', st2, i)
    ensures forall st1, st2 :: Backs(job, st', st1, i) ==> !Promotes(job, st1, st2, i)
  {
    var x := Staging(job, i);
    StagingVersusDest(job, i, k);
    PromotionReplacesInside(job, st, st', k, x);
    assert Fits(job, st.swaps[k], k) && Fits(job, st.swaps[i], i);
    assert x !in st'.fs && st'.swaps[i] == st.swaps[i];
    OwnRootsSeparated(job.dests[i].dst, job.stamp);
    forall st1 | Backs(job, st', st1, i) ensures x !in st1.fs {
      MoveLeaves(st'.fs, st'.swaps[i].dst, st'.swaps[i].pre, x);
    }
  }

  lemma MoveLeaves(fs: Fs, a: Path, b: Path, x: Path)
    requires !(b <= x) && x !in fs
    ensures x !in MoveTree(fs, a, b)
  {
  }

  // ---- An instance ----

  /** Config at /srv, state at /srv/..cache, both there already. */
  function SrvCache(stamp: string): Job {
    Job([Dest(Config, ["srv"]), Dest(State, ["srv", "..cache"])], stamp,
        map[[] := Directory, ["srv"] := Directory, ["srv", "..cache"] := Directory])
  }

  lemma SrvCacheOverlaps(stamp: string)
    ensures var job := SrvCache(stamp);
            && !Inside(["srv", "..cache"], ["srv"]) && !Inside(["srv"], ["srv", "..cache"])
            && Overlaps(job, 0, 1)
  {
    var c := ["srv", "..cache"];
    assert c[1] == "..cache" && ".." <= c[1] && c[..1] == ["srv"];
  }

  lemma SrvCachePrefix(q: Path, p: Path)
    requires (q == [] || q == ["srv"] || q == ["srv", "..cache"]) && p <= q
    ensures p == [] || p == ["srv"] || p == ["srv", "..cache"]
  {
    assert p == q[..|p|];
  }

  lemma SrvCacheClosed(stamp: string)
    ensures TreeClosed(SrvCache(stamp).before) && Distinct(SrvCache(stamp).dests) && Ordered(SrvCache(stamp).dests)
  {
    var fs, dests := SrvCache(stamp).before, SrvCache(stamp).dests;
    forall p, q | q in fs && Within(q, p) ensures p in fs && fs[p] == Directory { SrvCachePrefix(q, p); }
    SrvCacheOverlaps(stamp);
    assert |dests| == 2 && dests[0].dst == ["srv"] && dests[1].dst == ["srv", "..cache"];
  }

  lemma SrvCacheSound(stamp: string)
    ensures Sound(SrvCache(stamp)) && !RestoreObstacles.AncestorIsFile(SrvCache(stamp))
  {
    var job := SrvCache(stamp);
    hide TreeClosed, Ordered, Sibling;
    SrvCacheClosed(stamp);
    SrvCacheFresh(stamp, ["srv"]);
    SrvCacheFresh(stamp, ["srv", "..cache"]);
    assert |job.dests| == 2 && job.dests[0].dst == ["srv"] && job.dests[1].dst == ["srv", "..cache"];
    assert job.dests[0].dst in job.before && job.dests[1].dst in job.before;
  }

  lemma SrvCacheFresh(stamp: string, d: Path)
    requires d == ["srv"] || d == ["srv", "..cache"]
    ensures forall p :: p in SrvCache(stamp).before ==> !(StagingOf(d, stamp) <= p) && !(PreRestoreOf(d, stamp) <= p)
  {
    forall p | p in SrvCache(stamp).before ensures !(StagingOf(d, stamp) <= p) && !(PreRestoreOf(d, stamp) <= p) {
      SiblingNotAbove(d, p, StagingSuffix(stamp));
      SiblingNotAbove(d, p, PreRestoreSuffix(stamp));
    }
  }

  /** pathInside takes neither for the other's container, and a restore over them need not roll back. */
  lemma SrvCacheIsInexact(stamp: string)
    ensures Sound(SrvCache(stamp)) && !PathInside(["srv", "..cache"], ["srv"]) && !Exact(SrvCache(stamp))
  {
    SrvCacheSound(stamp);
    SrvCacheOverlaps(stamp);
    PathInsideMeaning(["srv", "..cache"], ["srv"]);
    assert !Safe(SrvCache(stamp)) by { assert SrvCache(stamp).dests[0].dst in SrvCache(stamp).before; }
    RollbackExactIff(SrvCache(stamp));
  }
}

/** What commit does on layouts where trees that count as outermost may lie in one another: when it can
    complete without any refusal, and where everything is once it has. */
module RestoreOverlapCommit {

  import opened Wrappers
  import opened Filesystem
  import opened RestoreLayout
  import opened RestoreInvariant
  import opened RestoreRollback
  import opened RestoreOverlap

  /** Tree k counts as outermost and received an entry: commit will swap it. */
  ghost predicate Hit(job: Job, st: St, k: nat) {
    k < |job.dests| == |st.swaps| && Root(job, k) && st.swaps[k].hadEntries
  }

  /** The staged state commit starts from. */
  ghost predicate Ready(job: Job, st: St) {
    && Inv(job, st) && BeforeCommit(st)
    && forall i :: 0 <= i < |st.swaps| && Root(job, i) ==> st.swaps[i].stagingCreated
  }

  ghost predicate Done(job: Job, st: St) {
    forall k :: 0 <= k < |st.swaps| && Hit(job, st, k) ==> st.swaps[k].promoted
  }

  ghost predicate Swaps(job: Job, st: St, st': St, k: nat) {
    Backs(job, st, st', k) || Promotes(job, st, st', k)
  }

  /** A run of commit. */
  ghost predicate Commits(job: Job, trace: seq<St>) {
    && trace != [] && Ready(job, trace[0])
    && forall n :: 0 <= n < |trace| - 1 ==> SwapsSome(job, trace[n], trace[n + 1])
  }

  ghost predicate SwapsSome(job: Job, st: St, st': St) { exists k :: Swaps(job, st, st', k) }

  // ---- Names ----

  lemma PreNotAbove(job: Job, i: nat, j: nat, a: Path)
    requires Sound(job) && i < |job.dests| && j < |job.dests| && a <= job.dests[j].dst
    ensures !(Pre(job, i) <= a)
  {
    if Pre(job, i) <= a { PrefixTransitive(Pre(job, i), a, job.dests[j].dst); }
    assert !(PreRestoreOf(job.dests[i].dst, job.stamp) <= job.dests[j].dst);
  }

  lemma PreApart(job: Job, i: nat, j: nat)
    requires Sound(job) && i < |job.dests| && j < |job.dests| && i != j
    ensures !(Pre(job, i) <= Pre(job, j))
  {
    var d, e := job.dests[i].dst, job.dests[j].dst;
    assert d != e && !(PreRestoreOf(d, job.stamp) <= e);
    if Pre(job, i) == Pre(job, j) { SiblingInjective(d, e, PreRestoreSuffix(job.stamp)); }
    SiblingsUnrelated(d, e, PreRestoreSuffix(job.stamp), PreRestoreSuffix(job.stamp));
  }

  lemma PreVersusDest(job: Job, i: nat, k: nat)
    requires Sound(job) && i < |job.dests| && k < |job.dests|
    ensures Within(job.dests[i].dst, job.dests[k].dst) ==> Within(Pre(job, i), job.dests[k].dst)
    ensures !Within(job.dests[i].dst, job.dests[k].dst) ==> Incomparable(job.dests[k].dst, Pre(job, i))
  {
    var d, e := job.dests[i].dst, job.dests[k].dst;
    assert !(PreRestoreOf(d, job.stamp) <= e);
    if Within(d, e) {
      WithinParent(d, e);
      PrefixTransitive(e, Parent(d), Pre(job, i));
    } else {
      OutermostAvoidsSiblings(e, d, PreRestoreSuffix(job.stamp));
    }
  }

  /** Swapping tree k may change x. */
  ghost predicate Touches(job: Job, k: nat, x: Path)
    requires Sound(job) && k < |job.dests|
  {
    job.dests[k].dst <= x || Pre(job, k) <= x || Staging(job, k) <= x
  }

  ghost predicate Contains(job: Job, k: nat, i: nat)
    requires k < |job.dests| && i < |job.dests|
  {
    Within(job.dests[i].dst, job.dests[k].dst)
  }

  /** Staging of another tree is touched only from around it. */
  lemma TouchesStaging(job: Job, k: nat, i: nat, x: Path)
    requires Sound(job) && k < |job.dests| && i < |job.dests| && k != i && Staging(job, i) <= x && Touches(job, k, x)
    ensures Contains(job, k, i) && job.dests[k].dst <= x
  {
    StagingVersusPre(job, i, k);
    Apart(Staging(job, i), Pre(job, k), x);
    StagingApart(job, i, k);
    StagingApart(job, k, i);
    Apart(Staging(job, i), Staging(job, k), x);
    StagingVersusDest(job, i, k);
    if !Contains(job, k, i) { Apart(job.dests[k].dst, Staging(job, i), x); }
  }

  /** So is what another tree has preserved. */
  lemma TouchesPre(job: Job, k: nat, i: nat, x: Path)
    requires Sound(job) && k < |job.dests| && i < |job.dests| && k != i && Pre(job, i) <= x && Touches(job, k, x)
    ensures Contains(job, k, i) && job.dests[k].dst <= x
  {
    StagingVersusPre(job, k, i);
    Apart(Staging(job, k), Pre(job, i), x);
    PreApart(job, i, k);
    PreApart(job, k, i);
    Apart(Pre(job, i), Pre(job, k), x);
    PreVersusDest(job, i, k);
    if !Contains(job, k, i) { Apart(job.dests[k].dst, Pre(job, i), x); }
  }

  /** A destination is touched from around it or from inside it. */
  lemma TouchesDest(job: Job, k: nat, i: nat, x: Path)
    requires Sound(job) && k < |job.dests| && i < |job.dests| && k != i && job.dests[i].dst <= x && Touches(job, k, x)
    ensures Contains(job, k, i) || Contains(job, i, k)
  {
    var d, e := job.dests[i].dst, job.dests[k].dst;
    assert d != e;
    if e <= x { CommonExtension(d, e, x); }
    StagingVersusDest(job, k, i);
    PreVersusDest(job, k, i);
    if !Contains(job, i, k) {
      Apart(d, Staging(job, k), x);
      Apart(d, Pre(job, k), x);
    }
  }

  lemma SwapElsewhere(job: Job, st: St, st': St, k: nat, x: Path)
    requires Steady(job, st) && Swaps(job, st, st', k) && !Touches(job, k, x)
    ensures Get(st'.fs, x) == Get(st.fs, x)
  {
    var s := st.swaps[k];
    assert Fits(job, s, k);
    OwnRootsSeparated(s.dst, job.stamp);
    if Backs(job, st, st', k) {
      ClosedVacant(st.fs, s.pre);
      GetMoved(st.fs, s.dst, s.pre, x);
    } else {
      ClosedVacant(st.fs, s.dst);
      GetMoved(st.fs, s.staging, s.dst, x);
    }
  }

  /** Moving a destination aside: what was there is under the pre-restore name, and nothing else is new. */
  lemma BackedAt(job: Job, st: St, st': St, k: nat, x: Path)
    requires Steady(job, st) && Backs(job, st, st', k)
    ensures job.dests[k].dst <= x ==> Get(st'.fs, x) == None
    ensures Pre(job, k) <= x ==> Get(st'.fs, x) == Get(st.fs, job.dests[k].dst + x[|Pre(job, k)|..])
    ensures Staging(job, k) <= x ==> Get(st'.fs, x) == Get(st.fs, x)
  {
    var s := st.swaps[k];
    assert Fits(job, s, k);
    OwnRootsSeparated(s.dst, job.stamp);
    ClosedVacant(st.fs, s.pre);
    GetMoved(st.fs, s.dst, s.pre, x);
    Apart(s.dst, s.pre, x);
    Apart(Staging(job, k), s.pre, x);
    Apart(Staging(job, k), s.dst, x);
  }

  // ---- States of a commit ----

  /** The records of the start, with only the commit flags changed, and those in order. */
  ghost predicate Follows(job: Job, st0: St, st: St) {
    && Steady(job, st0) && Steady(job, st)
    && (forall i :: 0 <= i < |st.swaps| ==>
          st.swaps[i] == st0.swaps[i].(backedUp := st.swaps[i].backedUp, promoted := st.swaps[i].promoted))
    && (forall i :: 0 <= i < |st.swaps| && !Hit(job, st0, i) ==> !Moved(st, i))
    && (forall i, j :: 0 <= i < j < |st.swaps| && Hit(job, st0, i) && Moved(st, j) ==> st.swaps[i].promoted)
  }

  predicate Moved(st: St, i: nat)
    requires i < |st.swaps|
  {
    st.swaps[i].backedUp || st.swaps[i].promoted
  }

  lemma StartFollows(job: Job, st: St)
    requires Ready(job, st)
    ensures Follows(job, st, st)
  {
    hide Ready, Steady, Hit;
    ReadyBasics(job, st);
  }

  lemma ReadyBasics(job: Job, st: St)
    requires Ready(job, st)
    ensures Steady(job, st) && |st.swaps| == |job.dests| && forall i :: 0 <= i < |st.swaps| ==> !Moved(st, i)
  {
  }

  lemma SwapFollows(job: Job, st0: St, st: St, st': St, k: nat)
    requires Follows(job, st0, st) && Swaps(job, st, st', k)
    ensures Follows(job, st0, st') && Hit(job, st0, k)
  {
    SwapKeepsSteady(job, st0, st, st', k);
    FlagsInOrder(job, st0, st, st', k);
    hide Steady, Swaps, Outermost;
  }

  lemma SwapKeepsSteady(job: Job, st0: St, st: St, st': St, k: nat)
    requires Follows(job, st0, st) && Swaps(job, st, st', k)
    ensures Steady(job, st')
  {
    hide Steady;
    MovedKeepsSteady(job, st, st', k);
  }

  lemma FlagsInOrder(job: Job, st0: St, st: St, st': St, k: nat)
    requires Follows(job, st0, st) && Swaps(job, st, st', k)
    ensures Hit(job, st0, k) && st'.swaps == st.swaps[k := st'.swaps[k]]
    ensures st'.swaps[k] == st0.swaps[k].(backedUp := st'.swaps[k].backedUp, promoted := st'.swaps[k].promoted)
    ensures forall i, j :: 0 <= i < j < |st.swaps| && Hit(job, st0, i) && Moved(st', j) ==> st'.swaps[i].promoted
  {
    assert st.swaps[k] == st0.swaps[k].(backedUp := st.swaps[k].backedUp, promoted := st.swaps[k].promoted);
    hide Steady;
    forall i, j | 0 <= i < j < |st.swaps| && Hit(job, st0, i) && Moved(st', j) ensures st'.swaps[i].promoted {
      if j != k { assert Moved(st, j); }
      assert st.swaps[i].hadEntries == st0.swaps[i].hadEntries;
    }
  }

  /** When tree k is swapped, another tree that is not yet promoted comes later. */
  lemma SwapOrder(job: Job, st0: St, st: St, st': St, k: nat, i: nat)
    requires Follows(job, st0, st) && Swaps(job, st, st', k) && Hit(job, st0, i) && i != k
    ensures st.swaps[i].promoted <==> i < k
    ensures i > k ==> !Moved(st, i)
  {
    hide Steady;
    assert st.swaps[i].hadEntries == st0.swaps[i].hadEntries;
  }

  // ---- Earlier trees around later ones ----

  /** Two trees of the archive, i inside k. */
  ghost predicate Nests(job: Job, st: St, k: nat, i: nat) {
    Hit(job, st, k) && Hit(job, st, i) && Contains(job, k, i)
  }

  /** No tree of the archive lies in an earlier one. */
  ghost predicate InnerFirst(job: Job, st: St)
    requires |st.swaps| == |job.dests|
  {
    forall k, i :: 0 <= k < i < |st.swaps| ==> !Nests(job, st, k, i)
  }

  /** Where tree k holds what is to become path x. */
  function StagedFor(job: Job, k: nat, x: Path): Path
    requires k < |job.dests| && job.dests[k].dst != [] && job.dests[k].dst <= x
  {
    Staging(job, k) + x[|job.dests[k].dst|..]
  }

  /** No tree of the archive holds the staging directory of a later one: these names are made up by the restore. */
  ghost predicate NoForeignStaging(job: Job, st: St)
    requires Sound(job) && |st.swaps| == |job.dests|
  {
    forall k, i :: 0 <= k < i < |st.swaps| && Nests(job, st, k, i) ==> Foreign(job, st, k, i)
  }

  ghost predicate Foreign(job: Job, st: St, k: nat, i: nat)
    requires Sound(job) && k < |job.dests| && i < |job.dests|
  {
    job.dests[k].dst <= Staging(job, i) && StagedFor(job, k, Staging(job, i)) !in st.fs
  }

  /** What is staged for a tree that is not yet promoted was staged at the start, or is gone. */
  ghost predicate OnlyLoses(job: Job, st0: St, st: St, i: nat)
    requires Sound(job) && i < |job.dests|
  {
    forall x :: Staging(job, i) <= x ==> Get(st.fs, x) == None || Get(st.fs, x) == Get(st0.fs, x)
  }

  /** A tree inside an earlier one that has been promoted has lost its staging directory. */
  ghost predicate Stuck(job: Job, st0: St, st: St)
    requires Sound(job) && |st.swaps| == |job.dests| == |st0.swaps|
  {
    && (forall i :: 0 <= i < |st.swaps| && Hit(job, st0, i) && !st.swaps[i].promoted ==> OnlyLoses(job, st0, st, i))
    && (forall k, i :: 0 <= k < i < |st.swaps| && Nests(job, st0, k, i) && st.swaps[k].promoted ==>
          !st.swaps[i].promoted && Staging(job, i) !in st.fs)
  }

  lemma StagedForPrefix(job: Job, k: nat, a: Path, x: Path)
    requires k < |job.dests| && job.dests[k].dst != [] && job.dests[k].dst <= a <= x
    ensures job.dests[k].dst <= x && StagedFor(job, k, a) <= StagedFor(job, k, x)
  {
    PrefixTransitive(job.dests[k].dst, a, x);
    assert a[|job.dests[k].dst|..] <= x[|job.dests[k].dst|..];
  }

  /** Nothing is staged for an earlier tree below the place of a later one's staging directory. */
  lemma NothingForeign(job: Job, st0: St, k: nat, i: nat, x: Path)
    requires Steady(job, st0) && k < |job.dests| && i < |job.dests| && Foreign(job, st0, k, i) && Staging(job, i) <= x
    ensures job.dests[k].dst <= x && StagedFor(job, k, x) !in st0.fs
  {
    StagedForPrefix(job, k, Staging(job, i), x);
    FreeSubtree(st0.fs, StagedFor(job, k, Staging(job, i)), StagedFor(job, k, x));
  }

  /** Promoting an earlier tree around a later one empties the place where the later one is staged. */
  lemma PromotedOver(job: Job, st0: St, st: St, st': St, k: nat, i: nat, x: Path)
    requires Follows(job, st0, st) && NoForeignStaging(job, st0) && Stuck(job, st0, st) && Promotes(job, st, st', k)
    requires k < i && Nests(job, st0, k, i) && Staging(job, i) <= x
    ensures Get(st'.fs, x) == None
  {
    assert Foreign(job, st0, k, i) && OnlyLoses(job, st0, st, k);
    NothingForeign(job, st0, k, i, x);
    PromotionReplacesInside(job, st, st', k, x);
    assert Staging(job, k) <= StagedFor(job, k, x);
  }

  lemma OnlyLosesStep(job: Job, st0: St, st: St, st': St, k: nat, i: nat, x: Path)
    requires Follows(job, st0, st) && NoForeignStaging(job, st0) && Stuck(job, st0, st) && Swaps(job, st, st', k)
    requires Hit(job, st0, k) && Hit(job, st0, i) && !st'.swaps[i].promoted && Staging(job, i) <= x
    ensures Get(st'.fs, x) == None || Get(st'.fs, x) == Get(st.fs, x)
  {
    if k == i {
      BackedAt(job, st, st', k, x);
    } else if !Touches(job, k, x) {
      SwapElsewhere(job, st, st', k, x);
    } else {
      TouchesStaging(job, k, i, x);
      SwapOrder(job, st0, st, st', k, i);
      if Backs(job, st, st', k) { BackedAt(job, st, st', k, x); } else { PromotedOver(job, st0, st, st', k, i, x); }
    }
  }

  lemma StuckStep(job: Job, st0: St, st: St, st': St, k: nat)
    requires Follows(job, st0, st) && NoForeignStaging(job, st0) && Stuck(job, st0, st) && Swaps(job, st, st', k)
    ensures Follows(job, st0, st') && Stuck(job, st0, st')
  {
    SwapFollows(job, st0, st, st', k);
    FlagsInOrder(job, st0, st, st', k);
    hide Follows, Steady, NoForeignStaging, Swaps;
    forall i | 0 <= i < |st.swaps| && Hit(job, st0, i) && !st'.swaps[i].promoted ensures OnlyLoses(job, st0, st', i) {
      StillOnlyLoses(job, st0, st, st', k, i);
    }
    forall m, i | 0 <= m < i < |st.swaps| && Nests(job, st0, m, i) && st'.swaps[m].promoted
      ensures !st'.swaps[i].promoted && Staging(job, i) !in st'.fs
    {
      StillStuck(job, st0, st, st', k, m, i);
    }
  }

  lemma StillOnlyLoses(job: Job, st0: St, st: St, st': St, k: nat, i: nat)
    requires Follows(job, st0, st) && NoForeignStaging(job, st0) && Stuck(job, st0, st) && Swaps(job, st, st', k)
    requires Hit(job, st0, k) && Hit(job, st0, i) && !st'.swaps[i].promoted
    ensures OnlyLoses(job, st0, st', i)
  {
    assert !st.swaps[i].promoted && OnlyLoses(job, st0, st, i);
    hide Follows, NoForeignStaging, Stuck;
    forall x | Staging(job, i) <= x ensures Get(st'.fs, x) == None || Get(st'.fs, x) == Get(st0.fs, x) {
      OnlyLosesStep(job, st0, st, st', k, i, x);
    }
  }

  lemma StillStuck(job: Job, st0: St, st: St, st': St, k: nat, m: nat, i: nat)
    requires Follows(job, st0, st) && NoForeignStaging(job, st0) && Stuck(job, st0, st) && Swaps(job, st, st', k)
    requires Hit(job, st0, k) && m < i && Nests(job, st0, m, i) && st'.swaps[m].promoted
    ensures !st'.swaps[i].promoted && Staging(job, i) !in st'.fs
  {
    assert Fits(job, st.swaps[i], i);
    if !st.swaps[m].promoted {
      assert k == m && Promotes(job, st, st', k);
      SwapOrder(job, st0, st, st', k, i);
      PromotedOver(job, st0, st, st', k, i, Staging(job, i));
    } else {
      assert !st'.swaps[i].promoted;
      OnlyLosesStep(job, st0, st, st', k, i, Staging(job, i));
    }
  }

  lemma {:induction false} CommitKeepsStuck(job: Job, trace: seq<St>, n: nat)
    requires Commits(job, trace) && n < |trace| && NoForeignStaging(job, trace[0])
    ensures Follows(job, trace[0], trace[n]) && Stuck(job, trace[0], trace[n])
  {
    if n == 0 {
      StartFollows(job, trace[0]);
      ReadyBasics(job, trace[0]);
    } else {
      CommitKeepsStuck(job, trace, n - 1);
      assert SwapsSome(job, trace[n - 1], trace[n - 1 + 1]);
      var k :| Swaps(job, trace[n - 1], trace[n], k);
      StuckStep(job, trace[0], trace[n - 1], trace[n], k);
    }
  }

  /** A commit completes only if no tree it swaps lies in an earlier one. */
  lemma DoneIsInnerFirst(job: Job, trace: seq<St>)
    requires Commits(job, trace) && NoForeignStaging(job, trace[0]) && Done(job, trace[|trace| - 1])
    ensures InnerFirst(job, trace[0])
  {
    var st0, st := trace[0], trace[|trace| - 1];
    CommitKeepsStuck(job, trace, |trace| - 1);
    forall k, i | 0 <= k < i < |st.swaps| ensures !Nests(job, st0, k, i) {
      if Hit(job, st0, k) && Hit(job, st0, i) { assert Hit(job, st, k) && Hit(job, st, i); }
    }
  }

  // ---- Where everything is ----

  /** What is staged for a tree stays as it is until the tree is promoted. */
  ghost predicate Intact(job: Job, st0: St, st: St, i: nat)
    requires Sound(job) && i < |job.dests|
  {
    forall x :: Staging(job, i) <= x ==> Get(st.fs, x) == Get(st0.fs, x)
  }

  ghost predicate AllIntact(job: Job, st0: St, st: St)
    requires Sound(job) && |st.swaps| == |job.dests|
  {
    forall i :: 0 <= i < |st.swaps| && Hit(job, st0, i) && !st.swaps[i].promoted ==> Intact(job, st0, st, i)
  }

  lemma IntactStep(job: Job, st0: St, st: St, st': St, k: nat, i: nat, x: Path)
    requires Follows(job, st0, st) && InnerFirst(job, st0) && Swaps(job, st, st', k)
    requires Hit(job, st0, k) && Hit(job, st0, i) && !st'.swaps[i].promoted && Staging(job, i) <= x
    ensures Get(st'.fs, x) == Get(st.fs, x)
  {
    if k == i {
      BackedAt(job, st, st', k, x);
    } else {
      SwapOrder(job, st0, st, st', k, i);
      assert !Nests(job, st0, k, i);
      if Touches(job, k, x) { TouchesStaging(job, k, i, x); }
      SwapElsewhere(job, st, st', k, x);
    }
  }

  /** No tree swapped after k touches x. */
  ghost predicate Settled(job: Job, st0: St, k: nat, x: Path)
    requires Sound(job) && |st0.swaps| == |job.dests|
  {
    forall j :: k < j < |st0.swaps| && Hit(job, st0, j) ==> !Touches(job, j, x)
  }

  /** Once k is promoted, x holds what was staged for k there. */
  ghost predicate Wrote(job: Job, st0: St, st: St, k: nat, x: Path)
    requires Sound(job) && k < |job.dests| == |st.swaps| && job.dests[k].dst != [] && job.dests[k].dst <= x
  {
    st.swaps[k].promoted ==> Get(st.fs, x) == Get(st0.fs, StagedFor(job, k, x))
  }

  lemma WroteStep(job: Job, st0: St, st: St, st': St, j: nat, k: nat, x: Path)
    requires Follows(job, st0, st) && AllIntact(job, st0, st) && Swaps(job, st, st', j) && Hit(job, st0, j)
    requires Hit(job, st0, k) && job.dests[k].dst <= x && Settled(job, st0, k, x) && Wrote(job, st0, st, k, x)
    ensures Wrote(job, st0, st', k, x)
  {
    if st'.swaps[k].promoted {
      if j == k {
        assert Promotes(job, st, st', k) && Intact(job, st0, st, k);
        PromotionReplacesInside(job, st, st', k, x);
        assert Staging(job, k) <= StagedFor(job, k, x);
      } else {
        SwapOrder(job, st0, st, st', j, k);
        SwapElsewhere(job, st, st', j, x);
      }
    }
  }

  /** Before a tree is moved aside its old content is in place; afterwards it is under the pre-restore name. */
  ghost predicate KeepsOld(job: Job, st: St, i: nat, p: Path)
    requires Sound(job) && i < |job.dests| == |st.swaps| && job.dests[i].dst != [] && job.dests[i].dst <= p
  {
    if st.swaps[i].backedUp then Get(st.fs, Pre(job, i) + p[|job.dests[i].dst|..]) == Get(job.before, p)
    else Get(st.fs, p) == Get(job.before, p)
  }

  /** p belongs to tree i alone: no earlier tree of the archive inside i holds it. */
  ghost predicate Own(job: Job, st: St, i: nat, p: Path)
    requires |st.swaps| == |job.dests|
  {
    forall j :: 0 <= j < i && j < |st.swaps| && Hit(job, st, j) ==> !(job.dests[j].dst <= p)
  }

  lemma OldUntouched(job: Job, st0: St, k: nat, i: nat, p: Path)
    requires Sound(job) && Hit(job, st0, i) && Hit(job, st0, k) && k < i && Own(job, st0, i, p) && p in job.before
    ensures !Touches(job, k, p)
  {
    assert StagingOf(job.dests[k].dst, job.stamp) !in job.before && PreRestoreOf(job.dests[k].dst, job.stamp) !in job.before;
    if Staging(job, k) <= p { FreeSubtree(job.before, Staging(job, k), p); }
    if Pre(job, k) <= p { FreeSubtree(job.before, Pre(job, k), p); }
  }

  /** The tree's own swap. */
  lemma KeepsOldOwn(job: Job, st: St, st': St, i: nat, p: Path)
    requires Steady(job, st) && Swaps(job, st, st', i) && job.dests[i].dst <= p && p in job.before && KeepsOld(job, st, i, p)
    ensures KeepsOld(job, st', i, p)
  {
    var d, b := job.dests[i].dst, Pre(job, i);
    var y := b + p[|d|..];
    assert Fits(job, st.swaps[i], i);
    ParentInBefore(job, i, p);
    Rebase(d, b, p);
    if Backs(job, st, st', i) { BackedAt(job, st, st', i, y); } else { PromotedBeside(job, st, st', i, y); }
  }

  /** An earlier swap does not touch the old content, a later one not what was preserved. */
  lemma KeepsOldOther(job: Job, st0: St, st: St, st': St, k: nat, i: nat, p: Path)
    requires Follows(job, st0, st) && Swaps(job, st, st', k) && Hit(job, st0, k) && Hit(job, st0, i) && k != i
    requires job.dests[i].dst <= p && p in job.before && Own(job, st0, i, p)
    requires k > i ==> !Contains(job, k, i)
    requires KeepsOld(job, st, i, p)
    ensures KeepsOld(job, st', i, p)
  {
    var y := Pre(job, i) + p[|job.dests[i].dst|..];
    assert Fits(job, st.swaps[i], i) && Pre(job, i) <= y;
    SwapOrder(job, st0, st, st', k, i);
    if k < i {
      OldUntouched(job, st0, k, i, p);
      SwapElsewhere(job, st, st', k, p);
    } else {
      ParentInBefore(job, i, p);
      if Touches(job, k, y) { TouchesPre(job, k, i, y); }
      SwapElsewhere(job, st, st', k, y);
    }
  }

  lemma KeepsOldStep(job: Job, st0: St, st: St, st': St, k: nat, i: nat, p: Path)
    requires Follows(job, st0, st) && Swaps(job, st, st', k) && Hit(job, st0, k) && Hit(job, st0, i)
    requires job.dests[i].dst <= p && p in job.before && Own(job, st0, i, p)
    requires forall m :: i < m < |st0.swaps| ==> !Nests(job, st0, m, i)
    requires KeepsOld(job, st, i, p)
    ensures KeepsOld(job, st', i, p)
  {
    hide Steady, Swaps, KeepsOld, Own;
    if k == i {
      KeepsOldOwn(job, st, st', i, p);
    } else {
      assert k > i ==> !Nests(job, st0, k, i);
      KeepsOldOther(job, st0, st, st', k, i, p);
    }
  }

  lemma ParentInBefore(job: Job, i: nat, p: Path)
    requires Sound(job) && i < |job.dests| && job.dests[i].dst <= p && p in job.before
    ensures job.dests[i].dst in job.before
  {
    if p != job.dests[i].dst { ParentDir(job.before, job.dests[i].dst, p); }
  }

  lemma PromotedBeside(job: Job, st: St, st': St, k: nat, y: Path)
    requires Steady(job, st) && Promotes(job, st, st', k) && Pre(job, k) <= y
    ensures Get(st'.fs, y) == Get(st.fs, y)
  {
    var s := st.swaps[k];
    assert Fits(job, s, k);
    OwnRootsSeparated(s.dst, job.stamp);
    ClosedVacant(st.fs, s.dst);
    Apart(s.dst, s.pre, y);
    Apart(s.staging, s.pre, y);
    GetMoved(st.fs, s.staging, s.dst, y);
  }

  // ---- Whole commits ----

  lemma AllIntactStep(job: Job, st0: St, st: St, st': St, k: nat)
    requires Follows(job, st0, st) && InnerFirst(job, st0) && AllIntact(job, st0, st) && Swaps(job, st, st', k)
    ensures Follows(job, st0, st') && Hit(job, st0, k) && AllIntact(job, st0, st')
  {
    SwapFollows(job, st0, st, st', k);
    FlagsInOrder(job, st0, st, st', k);
    hide Follows, InnerFirst, Swaps;
    forall i | 0 <= i < |st.swaps| && Hit(job, st0, i) && !st'.swaps[i].promoted ensures Intact(job, st0, st', i) {
      assert !st.swaps[i].promoted && Intact(job, st0, st, i);
      forall x | Staging(job, i) <= x ensures Get(st'.fs, x) == Get(st0.fs, x) {
        IntactStep(job, st0, st, st', k, i, x);
      }
    }
  }

  lemma StartIntact(job: Job, st: St)
    requires Ready(job, st)
    ensures Follows(job, st, st) && AllIntact(job, st, st)
  {
    StartFollows(job, st);
    ReadyBasics(job, st);
  }

  lemma {:induction false} CommitKeepsIntact(job: Job, trace: seq<St>, n: nat)
    requires Commits(job, trace) && n < |trace| && |trace[0].swaps| == |job.dests| && InnerFirst(job, trace[0])
    ensures Follows(job, trace[0], trace[n]) && AllIntact(job, trace[0], trace[n])
  {
    hide Ready, Follows, AllIntact, InnerFirst;
    if n == 0 {
      StartIntact(job, trace[0]);
    } else {
      CommitKeepsIntact(job, trace, n - 1);
      assert SwapsSome(job, trace[n - 1], trace[n - 1 + 1]);
      var k :| Swaps(job, trace[n - 1], trace[n], k);
      AllIntactStep(job, trace[0], trace[n - 1], trace[n], k);
    }
  }

  lemma StartWrote(job: Job, st: St, k: nat, x: Path)
    requires Ready(job, st) && Sound(job) && k < |job.dests| == |st.swaps| && job.dests[k].dst != [] && job.dests[k].dst <= x
    ensures Wrote(job, st, st, k, x)
  {
    ReadyBasics(job, st);
    assert !Moved(st, k);
  }

  lemma StartKeepsOld(job: Job, st: St, i: nat, p: Path)
    requires Ready(job, st) && Sound(job) && i < |job.dests| == |st.swaps| && job.dests[i].dst != []
    requires job.dests[i].dst <= p && p in job.before
    ensures KeepsOld(job, st, i, p)
  {
    ReadyBasics(job, st);
    assert !Moved(st, i) && Get(st.fs, p) == Get(job.before, p);
  }

  lemma HitBound(job: Job, st: St, k: nat)
    requires Hit(job, st, k)
    ensures k < |job.dests| == |st.swaps|
  {
  }

  lemma FollowsSize(job: Job, st0: St, st: St)
    requires Follows(job, st0, st)
    ensures Sound(job) && |st.swaps| == |job.dests| == |st0.swaps|
  {
  }

  lemma {:induction false} CommitWrote(job: Job, trace: seq<St>, n: nat, k: nat, x: Path)
    requires Commits(job, trace) && n < |trace| && Sound(job) && |trace[0].swaps| == |job.dests| && InnerFirst(job, trace[0])
    requires Hit(job, trace[0], k) && job.dests[k].dst != [] && job.dests[k].dst <= x && Settled(job, trace[0], k, x)
    ensures |trace[n].swaps| == |job.dests| && Wrote(job, trace[0], trace[n], k, x)
  {
    hide Ready, AllIntact, InnerFirst, Settled, Wrote, Swaps, SoundLayout, Steady, Hit;
    if n == 0 {
      HitBound(job, trace[0], k);
      StartWrote(job, trace[0], k, x);
    } else {
      HitBound(job, trace[0], k);
      CommitWrote(job, trace, n - 1, k, x);
      CommitKeepsIntact(job, trace, n - 1);
      assert SwapsSome(job, trace[n - 1], trace[n - 1 + 1]);
      var j :| Swaps(job, trace[n - 1], trace[n], j);
      AllIntactStep(job, trace[0], trace[n - 1], trace[n], j);
      FollowsSize(job, trace[0], trace[n]);
      WroteStep(job, trace[0], trace[n - 1], trace[n], j, k, x);
    }
  }

  lemma {:induction false} CommitKeptOld(job: Job, trace: seq<St>, n: nat, i: nat, p: Path)
    requires Commits(job, trace) && n < |trace| && Sound(job) && |trace[0].swaps| == |job.dests| && InnerFirst(job, trace[0])
    requires Hit(job, trace[0], i) && job.dests[i].dst != [] && job.dests[i].dst <= p && p in job.before && Own(job, trace[0], i, p)
    requires forall m :: i < m < |trace[0].swaps| ==> !Nests(job, trace[0], m, i)
    ensures |trace[n].swaps| == |job.dests| && KeepsOld(job, trace[n], i, p)
  {
    hide Ready, AllIntact, InnerFirst, Own, KeepsOld, Swaps, SoundLayout, Steady, Hit, Nests;
    if n == 0 {
      HitBound(job, trace[0], i);
      StartKeepsOld(job, trace[0], i, p);
    } else {
      HitBound(job, trace[0], i);
      CommitKeptOld(job, trace, n - 1, i, p);
      CommitKeepsIntact(job, trace, n - 1);
      assert SwapsSome(job, trace[n - 1], trace[n - 1 + 1]);
      var j :| Swaps(job, trace[n - 1], trace[n], j);
      AllIntactStep(job, trace[0], trace[n - 1], trace[n], j);
      FollowsSize(job, trace[0], trace[n]);
      KeepsOldStep(job, trace[0], trace[n - 1], trace[n], j, i, p);
    }
  }

  /** k is the last tree of the archive that is i or contains it. */
  ghost predicate LastAround(job: Job, st: St, i: nat, k: nat)
    requires |st.swaps| == |job.dests|
  {
    && Hit(job, st, i) && Hit(job, st, k) && (k == i || (k > i && Contains(job, k, i)))
    && forall m :: k < m < |st.swaps| ==> !Nests(job, st, m, i)
  }

  /** There is always one. */
  lemma {:induction false} LastAroundExists(job: Job, st: St, i: nat, n: nat) returns (k: nat)
    requires |st.swaps| == |job.dests| && Hit(job, st, i) && i < n <= |st.swaps|
    requires forall m :: n <= m < |st.swaps| ==> !Nests(job, st, m, i)
    ensures LastAround(job, st, i, k)
  {
    if n - 1 == i || Nests(job, st, n - 1, i) {
      k := n - 1;
    } else {
      k := LastAroundExists(job, st, i, n - 1);
    }
  }

  /** No later tree touches a path of i, below its destination or its pre-restore name. */
  lemma SettledAround(job: Job, st: St, i: nat, k: nat, x: Path)
    requires Sound(job) && |st.swaps| == |job.dests| && InnerFirst(job, st) && LastAround(job, st, i, k)
    requires job.dests[i].dst <= x || Pre(job, i) <= x
    ensures Settled(job, st, k, x)
  {
    forall j | k < j < |st.swaps| && Hit(job, st, j) ensures !Touches(job, j, x) {
      assert !Nests(job, st, j, i) && !Nests(job, st, i, j);
      if Touches(job, j, x) {
        if job.dests[i].dst <= x { TouchesDest(job, j, i, x); } else { TouchesPre(job, j, i, x); }
      }
    }
  }

  /** Commit effect on every layout: at a destination there is, in the end, what was staged for the last tree
      around it; and the same goes for its pre-restore name, if a later tree has swept over it. */
  lemma CommitEffect(job: Job, trace: seq<St>, i: nat, k: nat, x: Path)
    requires Commits(job, trace) && Sound(job) && |trace[0].swaps| == |job.dests| && NoForeignStaging(job, trace[0])
    requires Done(job, trace[|trace| - 1]) && LastAround(job, trace[0], i, k)
    requires job.dests[k].dst != [] && job.dests[k].dst <= x
    requires job.dests[i].dst != [] && (job.dests[i].dst <= x || Pre(job, i) <= x)
    ensures Get(trace[|trace| - 1].fs, x) == Get(trace[0].fs, StagedFor(job, k, x))
  {
    var last := |trace| - 1;
    DoneIsInnerFirst(job, trace);
    SettledAround(job, trace[0], i, k, x);
    CommitWrote(job, trace, last, k, x);
    CommitKeepsIntact(job, trace, last);
    hide Steady, Ready, Settled;
    assert Hit(job, trace[last], k);
  }

  /** ... and with no later tree around it, its old content is under its pre-restore name, except where an
      earlier tree of the archive inside it has been restored. */
  lemma OldContentKept(job: Job, trace: seq<St>, i: nat, p: Path)
    requires Commits(job, trace) && Sound(job) && |trace[0].swaps| == |job.dests| && NoForeignStaging(job, trace[0])
    requires Done(job, trace[|trace| - 1]) && LastAround(job, trace[0], i, i)
    requires job.dests[i].dst != [] && job.dests[i].dst <= p && p in job.before && Own(job, trace[0], i, p)
    ensures Get(trace[|trace| - 1].fs, Pre(job, i) + p[|job.dests[i].dst|..]) == Get(job.before, p)
  {
    var last := |trace| - 1;
    DoneIsInnerFirst(job, trace);
    CommitKeptOld(job, trace, last, i, p);
    CommitKeepsIntact(job, trace, last);
    ParentInBefore(job, i, p);
    assert Fits(job, trace[last].swaps[i], i) && Hit(job, trace[last], i);
  }

  /** Exactly when what was staged for a tree is at its destination once everything is committed: no later tree
      of the archive contains it, or the last one that does holds the same thing there. */
  lemma DeliveredIff(job: Job, trace: seq<St>, i: nat, k: nat, rel: Path)
    requires Commits(job, trace) && Sound(job) && |trace[0].swaps| == |job.dests| && NoForeignStaging(job, trace[0])
    requires Done(job, trace[|trace| - 1]) && LastAround(job, trace[0], i, k)
    requires job.dests[i].dst != [] && job.dests[k].dst != []
    ensures job.dests[k].dst <= job.dests[i].dst + rel
    ensures Get(trace[|trace| - 1].fs, job.dests[i].dst + rel) == Get(trace[0].fs, Staging(job, i) + rel) <==>
            k == i || Get(trace[0].fs, StagedFor(job, k, job.dests[i].dst + rel)) == Get(trace[0].fs, Staging(job, i) + rel)
  {
    hide Commits, NoForeignStaging, Done;
    var x := job.dests[i].dst + rel;
    PrefixTransitive(job.dests[k].dst, job.dests[i].dst, x);
    CommitEffect(job, trace, i, k, x);
    assert x[|job.dests[i].dst|..] == rel;
  }

  /** Exactly when the old content of a tree is under its pre-restore name. */
  lemma KeptIff(job: Job, trace: seq<St>, i: nat, k: nat, p: Path)
    requires Commits(job, trace) && Sound(job) && |trace[0].swaps| == |job.dests| && NoForeignStaging(job, trace[0])
    requires Done(job, trace[|trace| - 1]) && LastAround(job, trace[0], i, k)
    requires job.dests[i].dst != [] && job.dests[k].dst != []
    requires job.dests[i].dst <= p && p in job.before && Own(job, trace[0], i, p)
    ensures var y := Pre(job, i) + p[|job.dests[i].dst|..];
            && (k != i ==> job.dests[k].dst <= y)
            && (Get(trace[|trace| - 1].fs, y) == Get(job.before, p) <==>
                  k == i || Get(trace[0].fs, StagedFor(job, k, y)) == Get(job.before, p))
  {
    var y := Pre(job, i) + p[|job.dests[i].dst|..];
    if k == i {
      OldContentKept(job, trace, i, p);
    } else {
      PreVersusDest(job, i, k);
      PrefixTransitive(job.dests[k].dst, Pre(job, i), y);
      CommitEffect(job, trace, i, k, y);
    }
  }

  // ---- When commit completes ----

  /** A tree that is not there yet has no other outermost tree inside: staging that one would have created it. */
  ghost predicate RoomFor(job: Job, st: St)
    requires |st.swaps| == |job.dests|
  {
    forall k, i :: 0 <= k < |st.swaps| && 0 <= i < |st.swaps| && Hit(job, st, k) && Overlaps(job, k, i) ==>
      job.dests[k].dst in job.before
  }

  /** Commit can go through from here without any refusal. */
  ghost predicate Completes(job: Job, st: St) {
    exists trace :: Commits(job, trace) && trace[0] == st && Done(job, trace[|trace| - 1])
  }

  /** The destination is occupied by what was created for a tree inside it. */
  ghost predicate Occupied(job: Job, st: St, k: nat) {
    k < |job.dests| == |st.swaps| && !st.swaps[k].promoted && job.dests[k].dst in st.fs
  }

  lemma StartOccupied(job: Job, st: St, k: nat, i: nat)
    requires Ready(job, st) && k < |job.dests| && i < |job.dests| && Overlaps(job, k, i)
    ensures Occupied(job, st, k)
  {
    ReadyBasics(job, st);
    assert !Moved(st, k) && Fits(job, st.swaps[i], i);
    StagingVersusDest(job, i, k);
    assert Get(st.fs, Staging(job, i)) == Some(Directory);
    ParentDir(st.fs, job.dests[k].dst, Staging(job, i));
  }

  /** Below the destination of a waiting tree itself, and of its pre-restore name, nothing changes. */
  lemma WaitingStep(job: Job, st0: St, st: St, st': St, j: nat, k: nat)
    requires Follows(job, st0, st) && InnerFirst(job, st0) && Swaps(job, st, st', j) && Hit(job, st0, j) && Hit(job, st0, k)
    requires j != k && !st.swaps[k].promoted
    ensures Get(st'.fs, job.dests[k].dst) == Get(st.fs, job.dests[k].dst) && Get(st'.fs, Pre(job, k)) == Get(st.fs, Pre(job, k))
  {
    var d, b := job.dests[k].dst, Pre(job, k);
    SwapOrder(job, st0, st, st', j, k);
    assert !Nests(job, st0, j, k) && job.dests[j].dst != d;
    PreNotAbove(job, j, k, d);
    StagingNotAbove(job, j, k, d);
    if Touches(job, j, b) { TouchesPre(job, j, k, b); }
    SwapElsewhere(job, st, st', j, d);
    SwapElsewhere(job, st, st', j, b);
  }

  lemma OccupiedStep(job: Job, st0: St, st: St, st': St, j: nat, k: nat)
    requires Follows(job, st0, st) && InnerFirst(job, st0) && Swaps(job, st, st', j) && Hit(job, st0, j) && Hit(job, st0, k)
    requires job.dests[k].dst !in job.before && Occupied(job, st, k)
    ensures Occupied(job, st', k)
  {
    assert Fits(job, st.swaps[k], k);
    if j != k { WaitingStep(job, st0, st, st', j, k); }
  }

  lemma {:induction false} StaysOccupied(job: Job, trace: seq<St>, n: nat, k: nat, i: nat)
    requires Commits(job, trace) && n < |trace| && Sound(job) && |trace[0].swaps| == |job.dests| && InnerFirst(job, trace[0])
    requires Hit(job, trace[0], k) && i < |job.dests| && k < |job.dests| && Overlaps(job, k, i) && job.dests[k].dst !in job.before
    ensures Occupied(job, trace[n], k)
  {
    hide Ready, AllIntact, InnerFirst, Occupied, Swaps, SoundLayout, Steady, Overlaps;
    if n == 0 {
      StartOccupied(job, trace[0], k, i);
    } else {
      StaysOccupied(job, trace, n - 1, k, i);
      CommitKeepsIntact(job, trace, n - 1);
      assert SwapsSome(job, trace[n - 1], trace[n - 1 + 1]);
      var j :| Swaps(job, trace[n - 1], trace[n], j);
      AllIntactStep(job, trace[0], trace[n - 1], trace[n], j);
      OccupiedStep(job, trace[0], trace[n - 1], trace[n], j, k);
    }
  }

  lemma DoneHasRoom(job: Job, trace: seq<St>)
    requires Commits(job, trace) && Sound(job) && |trace[0].swaps| == |job.dests| && InnerFirst(job, trace[0])
    requires Done(job, trace[|trace| - 1])
    ensures RoomFor(job, trace[0])
  {
    var st0, last := trace[0], |trace| - 1;
    CommitKeepsIntact(job, trace, last);
    forall k, i | 0 <= k < |st0.swaps| && 0 <= i < |st0.swaps| && Hit(job, st0, k) && Overlaps(job, k, i)
      ensures job.dests[k].dst in job.before
    {
      if job.dests[k].dst !in job.before {
        StaysOccupied(job, trace, last, k, i);
        assert Hit(job, trace[last], k);
      }
    }
  }

  // ---- Completing ----

  /** A tree that waits finds its destination and its pre-restore name as they were. */
  ghost predicate Waiting(job: Job, st0: St, st: St)
    requires Sound(job) && |st.swaps| == |job.dests|
  {
    forall i :: 0 <= i < |st.swaps| && Hit(job, st0, i) && !Moved(st, i) ==>
      Get(st.fs, job.dests[i].dst) == Get(st0.fs, job.dests[i].dst) && Get(st.fs, Pre(job, i)) == Get(st0.fs, Pre(job, i))
  }

  /** The first n trees are done, the others wait. */
  ghost predicate DoneUpTo(job: Job, st0: St, st: St, n: nat) {
    && Ready(job, st0) && Follows(job, st0, st) && AllIntact(job, st0, st) && Waiting(job, st0, st)
    && (forall i :: 0 <= i < n && i < |st.swaps| && Hit(job, st0, i) ==> st.swaps[i].promoted)
    && (forall i :: n <= i < |st.swaps| ==> !Moved(st, i))
  }

  lemma WaitingAfter(job: Job, st0: St, st: St, st': St, k: nat)
    requires Follows(job, st0, st) && InnerFirst(job, st0) && Waiting(job, st0, st) && Swaps(job, st, st', k) && Hit(job, st0, k)
    ensures |st'.swaps| == |job.dests| && Waiting(job, st0, st')
  {
    FlagsInOrder(job, st0, st, st', k);
    assert Moved(st', k);
    hide Follows, InnerFirst, Swaps;
    forall i | 0 <= i < |st.swaps| && Hit(job, st0, i) && !Moved(st', i)
      ensures Get(st'.fs, job.dests[i].dst) == Get(st0.fs, job.dests[i].dst) && Get(st'.fs, Pre(job, i)) == Get(st0.fs, Pre(job, i))
    {
      assert i != k && !Moved(st, i);
      WaitingStep(job, st0, st, st', k, i);
    }
  }

  lemma FollowsFlags(job: Job, st0: St, st: St)
    requires Follows(job, st0, st)
    ensures |st.swaps| == |st0.swaps| == |job.dests|
    ensures forall i :: 0 <= i < |st.swaps| ==>
      st.swaps[i].stagingCreated == st0.swaps[i].stagingCreated && st.swaps[i].hadEntries == st0.swaps[i].hadEntries
  {
  }

  lemma AllStagedAt(job: Job, st: St)
    requires Ready(job, st)
    ensures forall i :: 0 <= i < |st.swaps| && Root(job, i) ==> st.swaps[i].stagingCreated
  {
  }

  lemma TurnRecord(job: Job, st: St, n: nat)
    requires Steady(job, st) && n < |st.swaps|
    ensures job.dests[n].dst != [] && st.swaps[n].dst == job.dests[n].dst && st.swaps[n].pre == Pre(job, n)
    ensures st.swaps[n].dstExisted <==> job.dests[n].dst in job.before
    ensures st.swaps[n].stagingCreated ==> st.swaps[n].staging == Staging(job, n)
  {
    assert Fits(job, st.swaps[n], n);
  }

  lemma AtTurn(job: Job, st0: St, st: St, n: nat)
    requires DoneUpTo(job, st0, st, n) && Hit(job, st0, n)
    ensures CommitsAt(job, st, n) && !Moved(st, n)
  {
    hide Ready, Follows, AllIntact, Waiting, Outermost;
    FollowsFlags(job, st0, st);
    AllStagedAt(job, st0);
    forall i | n <= i < |st.swaps| ensures !st.swaps[i].backedUp && !st.swaps[i].promoted { assert !Moved(st, i); }
  }

  /** If the destination was there, it can be moved aside. */
  lemma CanBack(job: Job, st0: St, st: St, n: nat)
    requires DoneUpTo(job, st0, st, n) && Hit(job, st0, n) && job.dests[n].dst in job.before
    ensures CanMove(st.fs, job.dests[n].dst, Pre(job, n))
  {
    var d := job.dests[n].dst;
    assert !Moved(st, n);
    assert Get(st0.fs, d) == Get(job.before, d);
    PreFree(job, st0, n);
    ParentDir(st.fs, Parent(d), d);
    assert Parent(Pre(job, n)) == Parent(d);
  }

  /** If it was not there, it still is not. */
  lemma StillAbsent(job: Job, st0: St, st: St, n: nat)
    requires DoneUpTo(job, st0, st, n) && Hit(job, st0, n) && RoomFor(job, st0) && job.dests[n].dst !in job.before
    ensures job.dests[n].dst !in st.fs
  {
    var d := job.dests[n].dst;
    assert !Moved(st, n) && Root(job, n);
    NotCoveredAbove(job, st0.swaps, 0, |st0.swaps|, n, d);
    forall r | 0 <= r < |job.dests| && Root(job, r) ensures !Within(job.dests[r].dst, d) { assert !Overlaps(job, n, r); }
    assert !Above(job, d);
  }

  /** The staged tree can be moved to a free destination. */
  lemma CanPromote(job: Job, st0: St, st: St, n: nat)
    requires Ready(job, st0) && Follows(job, st0, st) && AllIntact(job, st0, st) && Hit(job, st0, n) && !st.swaps[n].promoted
    requires job.dests[n].dst !in st.fs
    ensures CanMove(st.fs, Staging(job, n), job.dests[n].dst)
  {
    var a, d := Staging(job, n), job.dests[n].dst;
    assert Fits(job, st0.swaps[n], n) && Get(st0.fs, a) == Some(Directory) && Intact(job, st0, st, n);
    assert Parent(a) == Parent(d);
    ParentDir(st.fs, Parent(d), a);
  }

  lemma CommitsLonger(job: Job, trace: seq<St>, st': St, k: nat)
    requires Commits(job, trace) && Swaps(job, trace[|trace| - 1], st', k)
    ensures Commits(job, trace + [st'])
  {
    var longer := trace + [st'];
    assert SwapsSome(job, trace[|trace| - 1], st');
    hide Ready, Swaps;
    forall n | 0 <= n < |longer| - 1 ensures SwapsSome(job, longer[n], longer[n + 1]) {
      if n < |trace| - 1 { assert SwapsSome(job, trace[n], trace[n + 1]); }
    }
  }

  lemma BackNext(job: Job, st0: St, st: St, n: nat) returns (st': St)
    requires DoneUpTo(job, st0, st, n) && Hit(job, st0, n) && InnerFirst(job, st0) && job.dests[n].dst in job.before
    ensures Backs(job, st, st', n) && Follows(job, st0, st') && AllIntact(job, st0, st') && Waiting(job, st0, st')
    ensures st'.swaps[n].backedUp && !st'.swaps[n].promoted && job.dests[n].dst !in st'.fs
  {
    AtTurn(job, st0, st, n);
    TurnRecord(job, st, n);
    CanBack(job, st0, st, n);
    hide Ready, Steady, AllIntact, Waiting, InnerFirst, CanMove;
    var s := st.swaps[n];
    st' := st.(fs := MoveTree(st.fs, s.dst, s.pre), swaps := st.swaps[n := s.(backedUp := true)]);
    assert Backs(job, st, st', n);
    AllIntactStep(job, st0, st, st', n);
    WaitingAfter(job, st0, st, st', n);
    BackedAt(job, st, st', n, job.dests[n].dst);
  }

  /** Tree n was the next one, and now it is promoted. */
  lemma PromotedDone(job: Job, st0: St, st: St, st': St, n: nat)
    requires Promotes(job, st, st', n) && Ready(job, st0) && |st.swaps| == |st0.swaps|
    requires forall i :: 0 <= i < |st.swaps| ==> st.swaps[i].hadEntries == st0.swaps[i].hadEntries
    requires Follows(job, st0, st') && AllIntact(job, st0, st') && Waiting(job, st0, st')
    ensures DoneUpTo(job, st0, st', n + 1)
  {
    hide Ready, Follows, AllIntact, Waiting, Outermost, CanMove, MoveTree;
    forall i | 0 <= i < n + 1 && i < |st'.swaps| && Hit(job, st0, i) ensures st'.swaps[i].promoted {
      if i < n { assert st.swaps[i].promoted; }
    }
    forall i | n + 1 <= i < |st'.swaps| ensures !Moved(st', i) { assert st'.swaps[i] == st.swaps[i]; }
  }

  lemma PromoteNext(job: Job, st0: St, st: St, n: nat) returns (st': St)
    requires Ready(job, st0) && Follows(job, st0, st) && AllIntact(job, st0, st) && Waiting(job, st0, st) && InnerFirst(job, st0)
    requires Hit(job, st0, n) && CommitsAt(job, st, n) && st.swaps[n].dstExisted == st.swaps[n].backedUp
    requires job.dests[n].dst !in st.fs
    ensures Promotes(job, st, st', n) && DoneUpTo(job, st0, st', n + 1)
  {
    st' := PromoteIt(job, st0, st, n);
    hide Ready, Steady, AllIntact, Waiting, InnerFirst, Follows, Promotes;
    AllIntactStep(job, st0, st, st', n);
    WaitingAfter(job, st0, st, st', n);
    FollowsFlags(job, st0, st);
    PromotedDone(job, st0, st, st', n);
  }

  lemma PromoteIt(job: Job, st0: St, st: St, n: nat) returns (st': St)
    requires Ready(job, st0) && Follows(job, st0, st) && AllIntact(job, st0, st)
    requires Hit(job, st0, n) && CommitsAt(job, st, n) && st.swaps[n].dstExisted == st.swaps[n].backedUp
    requires job.dests[n].dst !in st.fs
    ensures Promotes(job, st, st', n)
  {
    TurnRecord(job, st, n);
    CanPromote(job, st0, st, n);
    hide Ready, Steady, AllIntact, Follows, CanMove, Outermost;
    var s := st.swaps[n];
    assert s.stagingCreated;
    st' := st.(fs := MoveTree(st.fs, s.staging, s.dst), swaps := st.swaps[n := s.(promoted := true)]);
  }

  lemma SkipNext(job: Job, st0: St, st: St, n: nat)
    requires DoneUpTo(job, st0, st, n) && !Hit(job, st0, n)
    ensures DoneUpTo(job, st0, st, n + 1)
  {
    hide Ready, Follows, AllIntact, Waiting, Outermost;
  }

  /** The states of a commit, swap by swap. */
  lemma {:induction false} Complete(job: Job, st0: St, n: nat) returns (trace: seq<St>)
    requires Ready(job, st0) && n <= |job.dests| == |st0.swaps| && InnerFirst(job, st0) && RoomFor(job, st0)
    ensures Commits(job, trace) && trace[0] == st0 && DoneUpTo(job, st0, trace[|trace| - 1], n)
  {
    hide DoneUpTo, InnerFirst, RoomFor, Ready, Swaps;
    if n == 0 {
      trace := [st0];
      StartDone(job, st0);
    } else {
      trace := Complete(job, st0, n - 1);
      if Hit(job, st0, n - 1) {
        trace := SwapNext(job, st0, trace, n - 1);
      } else {
        SkipNext(job, st0, trace[|trace| - 1], n - 1);
      }
    }
  }

  lemma StartDone(job: Job, st: St)
    requires Ready(job, st)
    ensures DoneUpTo(job, st, st, 0)
  {
    StartIntact(job, st);
    ReadyBasics(job, st);
    hide Ready, Follows, AllIntact;
  }

  lemma DoneBasics(job: Job, st0: St, st: St, n: nat)
    requires DoneUpTo(job, st0, st, n)
    ensures Ready(job, st0) && Follows(job, st0, st) && AllIntact(job, st0, st) && Waiting(job, st0, st) && Steady(job, st)
    ensures |st.swaps| == |job.dests| == |st0.swaps|
  {
  }

  /** Turning to the second half of a swap. */
  lemma StillAtTurn(job: Job, st: St, st': St, n: nat)
    requires Backs(job, st, st', n)
    ensures CommitsAt(job, st', n) && st'.swaps[n].dstExisted && st'.swaps[n].backedUp
  {
  }

  lemma SwapNext(job: Job, st0: St, trace: seq<St>, n: nat) returns (longer: seq<St>)
    requires Commits(job, trace) && trace[0] == st0 && DoneUpTo(job, st0, trace[|trace| - 1], n)
    requires Hit(job, st0, n) && InnerFirst(job, st0) && RoomFor(job, st0)
    ensures Commits(job, longer) && longer[0] == st0 && DoneUpTo(job, st0, longer[|longer| - 1], n + 1)
  {
    var st := trace[|trace| - 1];
    DoneBasics(job, st0, st, n);
    AtTurn(job, st0, st, n);
    TurnRecord(job, st, n);
    hide DoneUpTo, Follows, AllIntact, Waiting, InnerFirst, RoomFor, Ready, Steady, Commits;
    if job.dests[n].dst in job.before {
      var st1 := BackNext(job, st0, st, n);
      CommitsLonger(job, trace, st1, n);
      StillAtTurn(job, st, st1, n);
      var st2 := PromoteNext(job, st0, st1, n);
      CommitsLonger(job, trace + [st1], st2, n);
      longer := trace + [st1] + [st2];
    } else {
      StillAbsent(job, st0, st, n);
      var st2 := PromoteNext(job, st0, st, n);
      CommitsLonger(job, trace, st2, n);
      longer := trace + [st2];
    }
  }

  /** Exactly when commit completes without any refusal, on every layout: no tree of the archive lies in an
      earlier one, and one that is not there yet has no other outermost tree inside. */
  lemma CompletesIff(job: Job, st: St)
    requires Ready(job, st) && Sound(job) && |st.swaps| == |job.dests| && NoForeignStaging(job, st)
    ensures Completes(job, st) <==> InnerFirst(job, st) && RoomFor(job, st)
  {
    if Completes(job, st) {
      var trace :| Commits(job, trace) && trace[0] == st && Done(job, trace[|trace| - 1]);
      DoneIsInnerFirst(job, trace);
      DoneHasRoom(job, trace);
    }
    if InnerFirst(job, st) && RoomFor(job, st) {
      var trace := Complete(job, st, |job.dests|);
      AllDone(job, st, trace[|trace| - 1]);
    }
  }

  lemma AllDone(job: Job, st0: St, st: St)
    requires DoneUpTo(job, st0, st, |job.dests|)
    ensures Done(job, st)
  {
    FollowsFlags(job, st0, st);
    hide Ready, Follows, AllIntact, Waiting, Outermost;
  }

  lemma {:induction false} CommitsReachable(job: Job, trace: seq<St>, n: nat)
    requires Commits(job, trace) && Sound(job) && Reachable(job, trace[0]) && n < |trace|
    ensures Reachable(job, trace[n])
  {
    hide Ready, Reachable, SoundLayout;
    if n > 0 {
      CommitsReachable(job, trace, n - 1);
      assert SwapsSome(job, trace[n - 1], trace[n - 1 + 1]);
      var k :| Swaps(job, trace[n - 1], trace[n], k);
      assert Moves(job, trace[n - 1], trace[n]);
      ReachStep(job, trace[n - 1], trace[n]);
    }
  }

  // ---- An instance ----

  /** Config at /srv/..cache, state at /srv, both there already. */
  function CacheSrv(stamp: string): Job {
    Job([Dest(Config, ["srv", "..cache"]), Dest(State, ["srv"])], stamp,
        map[[] := Directory, ["srv"] := Directory, ["srv", "..cache"] := Directory])
  }

  lemma CacheSrvSound(stamp: string)
    ensures var job := CacheSrv(stamp);
            Sound(job) && Root(job, 0) && Root(job, 1) && Contains(job, 1, 0) && !Contains(job, 0, 1)
  {
    var job := CacheSrv(stamp);
    SrvCacheOverlaps(stamp);
    SrvCacheClosed(stamp);
    SrvCacheFresh(stamp, ["srv"]);
    SrvCacheFresh(stamp, ["srv", "..cache"]);
    assert job.before == SrvCache(stamp).before;
    hide TreeClosed, Sibling, Inside;
    assert |job.dests| == 2 && job.dests[0].dst == ["srv", "..cache"] && job.dests[1].dst == ["srv"];
    assert job.dests[0].dst in job.before && job.dests[1].dst in job.before;
  }

  /** One step of the example, staging the next tree. */
  lemma StageIt(job: Job, st: St, k: nat) returns (st': St)
    requires Sound(job) && Reachable(job, st) && Inv(job, st) && BeforeCommit(st) && k < |job.dests| == |st.swaps| && Root(job, k)
    requires !st.swaps[k].stagingCreated && job.dests[k].dst != [] && Get(st.fs, Parent(job.dests[k].dst)) == Some(Directory)
    ensures Reachable(job, st') && Inv(job, st') && BeforeCommit(st') && |st'.swaps| == |st.swaps|
    ensures st'.fs == st.fs[Staging(job, k) := Directory]
    ensures st'.swaps == st.swaps[k := st.swaps[k].(staging := Staging(job, k), stagingCreated := true)]
  {
    hide Inv, Reachable, SoundLayout, Outermost;
    StagingFree(job, st, k);
    st' := st.(fs := st.fs[Staging(job, k) := Directory],
               swaps := st.swaps[k := st.swaps[k].(staging := Staging(job, k), stagingCreated := true)]);
    assert Stages(job, st, st', k);
    ReachStep(job, st, st');
    StagesKeepsInv(job, st, st', k);
  }

  lemma FileKeepsClosed(fs: Fs, c: Path, content: Content)
    requires TreeClosed(fs) && c != [] && c !in fs && Get(fs, Parent(c)) == Some(Directory)
    ensures TreeClosed(fs[c := File(content)])
  {
    var fs' := fs[c := File(content)];
    ClosedVacant(fs, c);
    forall p, q | Within(q, p) && q in fs' ensures Get(fs', p) == Some(Directory) {
      if q == c {
        WithinParent(c, p);
        if p != Parent(c) { ParentDir(fs, p, Parent(c)); }
      } else {
        ParentDir(fs, p, q);
      }
    }
    ClosedByDirs(fs');
  }

  lemma StagedDir(job: Job, st: St, k: nat)
    requires Inv(job, st) && BeforeCommit(st) && k < |st.swaps| && st.swaps[k].stagingCreated
    ensures TreeClosed(st.fs) && Get(st.fs, st.swaps[k].staging) == Some(Directory)
  {
  }

  /** ... and writing a file into a staging directory. */
  lemma WriteIt(job: Job, st: St, k: nat, name: string, content: Content) returns (st': St)
    requires Sound(job) && Reachable(job, st) && Inv(job, st) && BeforeCommit(st) && k < |job.dests| == |st.swaps|
    requires st.swaps[k].stagingCreated && st.swaps[k].staging + [name] !in st.fs
    ensures Reachable(job, st') && Inv(job, st') && BeforeCommit(st')
    ensures st' == st.(fs := st.fs[st.swaps[k].staging + [name] := File(content)])
  {
    hide Inv, Reachable, SoundLayout, TreeClosed;
    var c := st.swaps[k].staging + [name];
    StagedDir(job, st, k);
    assert Parent(c) == st.swaps[k].staging;
    FileKeepsClosed(st.fs, c, content);
    st' := st.(fs := st.fs[c := File(content)]);
    assert Writes(job, st, st', k);
    ReachStep(job, st, st');
    WritesKeepsInv(job, st, st', k);
  }

  lemma MarkIt(job: Job, st: St, k: nat) returns (st': St)
    requires Sound(job) && Reachable(job, st) && Inv(job, st) && BeforeCommit(st) && k < |job.dests| == |st.swaps|
    ensures Reachable(job, st') && Inv(job, st') && BeforeCommit(st')
    ensures st' == st.(swaps := st.swaps[k := st.swaps[k].(hadEntries := true)])
  {
    hide Inv, Reachable, SoundLayout;
    st' := st.(swaps := st.swaps[k := st.swaps[k].(hadEntries := true)]);
    assert Marks(job, st, st', k);
    ReachStep(job, st, st');
    MarksKeepsInv(job, st, st', k);
  }

  /** Both trees staged. */
  lemma CacheSrvPrepared(stamp: string) returns (st: St)
    ensures var job := CacheSrv(stamp);
            && Sound(job) && Reachable(job, st) && Inv(job, st) && BeforeCommit(st) && |st.swaps| == 2
            && st.swaps[0].stagingCreated && st.swaps[0].staging == Staging(job, 0) && st.swaps[1].stagingCreated
            && st.fs == job.before[Staging(job, 0) := Directory][Staging(job, 1) := Directory]
  {
    var job := CacheSrv(stamp);
    CacheSrvSound(stamp);
    ReachStart(job);
    StartInv(job);
    var s0 := Start(job);
    assert |s0.swaps| == 2 && !s0.swaps[0].stagingCreated && !s0.swaps[1].stagingCreated && s0.fs == job.before;
    assert Parent(job.dests[0].dst) == ["srv"] && Parent(job.dests[1].dst) == [];
    assert Get(s0.fs, ["srv"]) == Some(Directory) && Get(s0.fs, []) == Some(Directory);
    hide Inv, Reachable, SoundLayout, Root, Start, StagingOf, Contains;
    var s1 := StageIt(job, s0, 0);
    ParentStaysDir(s0.fs, Staging(job, 0), []);
    st := StageIt(job, s1, 1);
  }

  /** Both trees staged, a file in config, and both with entries. */
  lemma CacheSrvStaged(stamp: string) returns (st: St)
    ensures var job := CacheSrv(stamp);
            && Sound(job) && Reachable(job, st) && Ready(job, st) && |st.swaps| == 2 && Hit(job, st, 0) && Hit(job, st, 1)
            && st.fs == job.before[Staging(job, 0) := Directory][Staging(job, 1) := Directory]
                          [Staging(job, 0) + ["a"] := File("x")]
  {
    var job := CacheSrv(stamp);
    CacheSrvSound(stamp);
    CacheSrvPaths(stamp);
    hide Inv, Reachable, SoundLayout, Root, StagingOf, PreRestoreOf, Contains;
    var s2 := CacheSrvPrepared(stamp);
    var s3 := WriteIt(job, s2, 0, "a", "x");
    var s4 := MarkIt(job, s3, 0);
    st := MarkIt(job, s4, 1);
  }

  lemma ParentStaysDir(fs: Fs, a: Path, p: Path)
    requires Get(fs, p) == Some(Directory)
    ensures Get(fs[a := Directory], p) == Some(Directory)
  {
  }

  /** The paths of the example are all different. */
  lemma CacheSrvPaths(stamp: string)
    ensures var job := CacheSrv(stamp);
            var fs := job.before[Staging(job, 0) := Directory][Staging(job, 1) := Directory];
            var fs' := fs[Staging(job, 0) + ["a"] := File("x")];
            && Staging(job, 0) + ["a"] !in fs
            && Staging(job, 1) + ["..cache", "a"] !in fs' && Staging(job, 1) + [Pre(job, 0)[1]] !in fs'
            && |Pre(job, 0)| == 2 && Pre(job, 0)[0] == "srv"
  {
    var job := CacheSrv(stamp);
    var a, b := Staging(job, 0), Staging(job, 1);
    assert |a| == 2 && a[0] == "srv" && |b| == 1 && b[0] == "srv" + StagingSuffix(stamp);
    assert |b[0]| > 3;
    assert (b + ["..cache", "a"])[0] == b[0] && (b + [Pre(job, 0)[1]])[0] == b[0] && (a + ["a"])[0] == "srv";
  }

  /** The disk commit starts from. */
  function CacheSrvDisk(stamp: string): Fs {
    var job := CacheSrv(stamp);
    job.before[Staging(job, 0) := Directory][Staging(job, 1) := Directory][Staging(job, 0) + ["a"] := File("x")]
  }

  lemma CacheSrvRun(stamp: string) returns (trace: seq<St>)
    ensures var job := CacheSrv(stamp);
            && Sound(job) && Commits(job, trace) && Reachable(job, trace[0]) && |trace[0].swaps| == 2
            && Hit(job, trace[0], 0) && Hit(job, trace[0], 1) && Done(job, trace[|trace| - 1])
            && trace[0].fs == CacheSrvDisk(stamp)
  {
    var st0 := CacheSrvStaged(stamp);
    CacheSrvCompletes(stamp, st0);
    hide Sound, Ready, Reachable, Hit, Done;
    trace :| Commits(CacheSrv(stamp), trace) && trace[0] == st0 && Done(CacheSrv(stamp), trace[|trace| - 1]);
  }

  lemma CacheSrvDiskHolds(stamp: string)
    ensures var job, fs := CacheSrv(stamp), CacheSrvDisk(stamp);
            && |job.dests| == 2 && job.dests[0].dst != [] && job.dests[1].dst != [] && job.dests[0].dst in job.before
            && |Pre(job, 0)| == 2 && Get(fs, Staging(job, 0) + ["a"]) == Some(File("x"))
            && Staging(job, 1) + ["..cache", "a"] !in fs && Staging(job, 1) + [Pre(job, 0)[1]] !in fs
  {
    CacheSrvPaths(stamp);
  }

  /** Commit runs through without any refusal, and neither the restored config file nor the preserved config
      tree is where it should be. */
  lemma CacheSrvLosesConfig(stamp: string) returns (st0: St, st: St)
    ensures var job := CacheSrv(stamp);
            && Sound(job) && Reachable(job, st0) && Reachable(job, st) && Hit(job, st0, 0) && Hit(job, st0, 1) && Done(job, st)
            && Get(st0.fs, Staging(job, 0) + ["a"]) == Some(File("x")) && job.dests[0].dst in job.before
            && Get(st.fs, job.dests[0].dst + ["a"]) == None && Get(st.fs, Pre(job, 0)) == None
  {
    hide Sound, Ready, Reachable, Hit, Done, Staging, Pre, CacheSrv, CacheSrvDisk, SwapsSome;
    CacheSrvDiskHolds(stamp);
    var trace := CacheSrvRun(stamp);
    st0, st := trace[0], trace[|trace| - 1];
    CommitsReachable(CacheSrv(stamp), trace, |trace| - 1);
    CacheSrvEnd(stamp, trace);
  }

  lemma CacheSrvNests(stamp: string, st: St)
    requires Sound(CacheSrv(stamp)) && |st.swaps| == 2 && Hit(CacheSrv(stamp), st, 0) && Hit(CacheSrv(stamp), st, 1)
    ensures InnerFirst(CacheSrv(stamp), st) && NoForeignStaging(CacheSrv(stamp), st) && LastAround(CacheSrv(stamp), st, 0, 1)
    ensures RoomFor(CacheSrv(stamp), st)
  {
    CacheSrvSound(stamp);
    var job := CacheSrv(stamp);
    assert job.dests[0].dst in job.before && job.dests[1].dst in job.before;
    hide Sound, Contains, Hit;
    assert !Nests(job, st, 0, 1);
  }

  lemma CacheSrvCompletes(stamp: string, st: St)
    requires Sound(CacheSrv(stamp)) && Ready(CacheSrv(stamp), st) && |st.swaps| == 2
    requires Hit(CacheSrv(stamp), st, 0) && Hit(CacheSrv(stamp), st, 1)
    ensures Completes(CacheSrv(stamp), st)
  {
    CacheSrvNests(stamp, st);
    CompletesIff(CacheSrv(stamp), st);
  }

  /** Where the state tree would hold the two paths. */
  lemma CacheSrvSpots(stamp: string)
    ensures var job := CacheSrv(stamp);
            && |job.dests| == 2 && job.dests[0].dst != [] && job.dests[1].dst != [] && |Pre(job, 0)| == 2
            && job.dests[1].dst <= job.dests[0].dst + ["a"] && job.dests[1].dst <= Pre(job, 0)
            && StagedFor(job, 1, job.dests[0].dst + ["a"]) == Staging(job, 1) + ["..cache", "a"]
            && StagedFor(job, 1, Pre(job, 0)) == Staging(job, 1) + [Pre(job, 0)[1]]
  {
    var job := CacheSrv(stamp);
    CacheSrvPaths(stamp);
    var x, y := job.dests[0].dst + ["a"], Pre(job, 0);
    assert x == ["srv", "..cache", "a"] && x[1..] == ["..cache", "a"] && y[1..] == [y[1]] && y[..1] == ["srv"];
  }

  lemma CacheSrvEnd(stamp: string, trace: seq<St>)
    requires Sound(CacheSrv(stamp)) && Commits(CacheSrv(stamp), trace) && |trace[0].swaps| == 2
    requires Hit(CacheSrv(stamp), trace[0], 0) && Hit(CacheSrv(stamp), trace[0], 1) && Done(CacheSrv(stamp), trace[|trace| - 1])
    requires var job := CacheSrv(stamp);
             Staging(job, 1) + ["..cache", "a"] !in trace[0].fs && Staging(job, 1) + [Pre(job, 0)[1]] !in trace[0].fs
    ensures var job, st := CacheSrv(stamp), trace[|trace| - 1];
            Get(st.fs, job.dests[0].dst + ["a"]) == None && Get(st.fs, Pre(job, 0)) == None
  {
    hide Sound, Ready, SwapsSome, Hit, Done, NoForeignStaging, LastAround, InnerFirst, RoomFor, CacheSrv;
    var job := CacheSrv(stamp);
    CacheSrvSpots(stamp);
    CacheSrvNests(stamp, trace[0]);
    CommitEffect(job, trace, 0, 1, job.dests[0].dst + ["a"]);
    CommitEffect(job, trace, 0, 1, Pre(job, 0));
  }
}

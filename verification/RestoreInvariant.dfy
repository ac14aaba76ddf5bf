/** What holds of the disk at every point of a restore, and why each step keeps it.

    At any moment a tree that is not nested in another owns up to three subtrees of the disk:
    its staging directory, its destination once something there has been renamed, and the
    pre-restore copy. Everywhere else the disk is the initial one plus the parent directories
    the restore created. */
module RestoreInvariant {

  import opened Wrappers
  import opened Filesystem
  import opened RestoreLayout

  datatype Swap = Swap(
    tree: Tree, dst: Path, staging: Path, pre: Path,
    dstExisted: bool, stagingCreated: bool, backedUp: bool, promoted: bool, hadEntries: bool,
    nestedUnder: Option<Tree>)

  /** The fixed inputs of one restore: trees, time stamp, and the disk it started from. */
  datatype Job = Job(dests: seq<Dest>, stamp: string, before: Fs) {
    ghost predicate Valid() { ValidLayout(dests, stamp, before) }

    /** The record a tree starts with: whether its destination exists, and nothing done yet. */
    function NewSwap(d: Dest): Swap
      requires d.dst != []
    {
      Swap(d.tree, d.dst, [], PreRestoreOf(d.dst, stamp), d.dst in before, false, false, false, false, None)
    }

    ghost predicate Outer(s: Swap) { Outermost(dests, s.dst) }

    /** The staging directory mirrors the position of the destination below every outermost tree. */
    ghost predicate Located(s: Swap)
      requires Distinct(dests)
    {
      forall i :: 0 <= i < |dests| && Outermost(dests, dests[i].dst) && dests[i].dst <= s.dst ==>
        s.staging == StagingOf(dests[i].dst, stamp) + s.dst[|dests[i].dst|..]
    }

    ghost predicate SwapOk(s: Swap)
      requires Distinct(dests)
    {
      && Dest(s.tree, s.dst) in dests
      && s.dst != []
      && s.pre == PreRestoreOf(s.dst, stamp)
      && (s.dstExisted <==> s.dst in before)
      && (s.stagingCreated ==> Located(s))
      && (s.nestedUnder.Some? ==> !Outer(s))
      && (s.stagingCreated && s.nestedUnder.None? ==> Outer(s))
      && (s.nestedUnder.None? && !Outer(s) ==> !s.stagingCreated && !s.backedUp && !s.promoted)
      && (s.backedUp ==> s.dstExisted && Outer(s))
      && (s.backedUp || (s.promoted && Outer(s)) ==> s.stagingCreated)
      && (s.promoted && s.dstExisted && Outer(s) ==> s.backedUp)
    }

    ghost predicate SwapsOk(swaps: seq<Swap>)
      requires Distinct(dests)
    {
      && (forall i :: 0 <= i < |swaps| ==> SwapOk(swaps[i]))
      && (forall i, j :: 0 <= i < |swaps| && 0 <= j < |swaps| && i != j ==> swaps[i].dst != swaps[j].dst)
    }

    /** The parts of the disk a swap has taken over. */
    ghost predicate Owns(s: Swap, p: Path) {
      && Outer(s)
      && (|| (s.stagingCreated && s.staging <= p)
          || ((s.backedUp || s.promoted) && s.dst <= p)
          || (s.backedUp && s.pre <= p))
    }

    ghost predicate Untouched(swaps: seq<Swap>, p: Path) {
      forall i :: 0 <= i < |swaps| ==> !Owns(swaps[i], p)
    }

    function Base(created: seq<Path>, p: Path): Option<Node> {
      if p in created then Some(Directory) else Get(before, p)
    }

    /** Created parents: new, proper ancestors of outermost destinations, parents before children. */
    ghost predicate CreatedOk(created: seq<Path>) {
      && (forall c :: c in created ==> c !in before && AboveSome(c))
      && (forall i, j :: 0 <= i < j < |created| ==> !(created[j] <= created[i]))
      && (forall c, a :: c in created && Within(c, a) ==> a in before || a in created)
    }

    ghost predicate AboveSome(c: Path) {
      exists i :: 0 <= i < |dests| && Outermost(dests, dests[i].dst) && Within(dests[i].dst, c)
    }

    ghost predicate Preserved(fs: Fs, s: Swap) {
      forall p :: s.pre <= p ==> Get(fs, p) == Get(before, s.dst + p[|s.pre|..])
    }

    ghost predicate Vacated(fs: Fs, root: Path) {
      forall p :: root <= p ==> p !in fs
    }

    /** What a swap that has moved its destination aside guarantees. */
    ghost predicate KeptAside(fs: Fs, s: Swap) {
      s.backedUp ==> Preserved(fs, s) && (!s.promoted ==> Vacated(fs, s.dst))
    }

    ghost predicate AllKept(fs: Fs, swaps: seq<Swap>) {
      forall i :: 0 <= i < |swaps| ==> KeptAside(fs, swaps[i])
    }

    /** Outside what the swaps own, the disk is the initial one plus the created parents. */
    ghost predicate Baseline(fs: Fs, swaps: seq<Swap>, created: seq<Path>) {
      forall p {:trigger Untouched(swaps, p)} :: Untouched(swaps, p) ==> Get(fs, p) == Base(created, p)
    }

    ghost predicate Inv(fs: Fs, swaps: seq<Swap>, created: seq<Path>) {
      Valid() && SwapsOk(swaps) && CreatedOk(created) && Baseline(fs, swaps, created) && AllKept(fs, swaps)
    }

    // ---- Replacing one swap record ----

    lemma SwapsOkUpdate(swaps: seq<Swap>, i: nat, s': Swap)
      requires Valid() && SwapsOk(swaps) && i < |swaps| && SwapOk(s') && s'.dst == swaps[i].dst
      ensures SwapsOk(swaps[i := s'])
    {
    }

    lemma UntouchedAfter(swaps: seq<Swap>, i: nat, s': Swap, p: Path)
      requires i < |swaps| && Untouched(swaps[i := s'], p)
      ensures !Owns(s', p)
      ensures !Owns(swaps[i], p) ==> Untouched(swaps, p)
    {
      var swaps' := swaps[i := s'];
      assert swaps'[i] == s';
      assert forall j :: 0 <= j < |swaps| && j != i ==> swaps'[j] == swaps[j];
    }

    /** Updating a record in place keeps the invariant if the new record owns at least as much. */
    lemma RecordUpdate(fs: Fs, swaps: seq<Swap>, created: seq<Path>, i: nat, s': Swap)
      requires Inv(fs, swaps, created) && i < |swaps| && SwapOk(s') && s'.dst == swaps[i].dst
      requires forall p :: Owns(swaps[i], p) ==> Owns(s', p)
      requires KeptAside(fs, s')
      ensures Inv(fs, swaps[i := s'], created)
    {
      SwapsOkUpdate(swaps, i, s');
      forall p | Untouched(swaps[i := s'], p) ensures Get(fs, p) == Base(created, p) {
        UntouchedAfter(swaps, i, s', p);
      }
    }

    /** A change of the disk that leaves a swap's three regions alone is invisible to that swap. */
    lemma KeptAsideFrame(fs: Fs, fs': Fs, s: Swap)
      requires KeptAside(fs, s)
      requires forall p :: s.pre <= p || s.dst <= p ==> Get(fs', p) == Get(fs, p)
      ensures KeptAside(fs', s)
    {
      if s.backedUp && !s.promoted {
        forall p | s.dst <= p ensures p !in fs' { assert Get(fs', p) == Get(fs, p); }
      }
    }

    // ---- Regions do not overlap ----

    lemma OuterStaging(s: Swap)
      requires Valid() && SwapOk(s) && s.stagingCreated && Outer(s)
      ensures s.staging == StagingOf(s.dst, stamp)
    {
      var i :| 0 <= i < |dests| && dests[i] == Dest(s.tree, s.dst);
      assert dests[i].dst <= s.dst;
    }

    /** The regions of two different outermost trees never share a path. */
    lemma RegionsDisjoint(s: Swap, t: Swap, x: Path, y: Path, p: Path)
      requires Valid() && SwapOk(s) && SwapOk(t) && s.dst != t.dst && Outer(s) && Outer(t)
      requires Roots(s.dst, stamp, x) && Roots(t.dst, stamp, y)
      ensures !(x <= p && y <= p)
    {
      var i :| 0 <= i < |dests| && dests[i] == Dest(s.tree, s.dst);
      var j :| 0 <= j < |dests| && dests[j] == Dest(t.tree, t.dst);
      RootsSeparated(dests, stamp, before, i, j, x, y);
      Apart(x, y, p);
    }

    lemma OwnersDiffer(s: Swap, t: Swap, y: Path, p: Path)
      requires Valid() && SwapOk(s) && SwapOk(t) && s.dst != t.dst && Outer(t)
      requires Owns(s, p) && Roots(t.dst, stamp, y)
      ensures !(y <= p)
    {
      RegionsDisjoint(s, t, s.dst, y, p);
      RegionsDisjoint(s, t, s.pre, y, p);
      if s.stagingCreated {
        OuterStaging(s);
        RegionsDisjoint(s, t, s.staging, y, p);
      }
    }

    /** The three regions of one outermost tree never share a path. */
    lemma OwnRegionsDisjoint(s: Swap, p: Path)
      requires Valid() && SwapOk(s)
      ensures !(s.dst <= p && s.pre <= p)
      ensures !(s.dst <= p && StagingOf(s.dst, stamp) <= p)
      ensures !(s.pre <= p && StagingOf(s.dst, stamp) <= p)
    {
      OwnRootsSeparated(s.dst, stamp);
      Apart(s.dst, s.pre, p);
      Apart(s.dst, StagingOf(s.dst, stamp), p);
      Apart(StagingOf(s.dst, stamp), s.pre, p);
    }

    /** A proper ancestor of an outermost destination lies in no tree's region. */
    lemma AboveIsOutside(s: Swap, c: Path, y: Path)
      requires Valid() && SwapOk(s) && AboveSome(c) && Roots(s.dst, stamp, y)
      ensures !(y <= c)
    {
      var i :| 0 <= i < |dests| && Outermost(dests, dests[i].dst) && Within(dests[i].dst, c);
      var j :| 0 <= j < |dests| && dests[j] == Dest(s.tree, s.dst);
      AncestorsOutside(dests, stamp, before, i, j, c, y);
    }

    lemma AboveIsUnowned(s: Swap, c: Path)
      requires Valid() && SwapOk(s) && AboveSome(c)
      ensures !Owns(s, c)
    {
      AboveIsOutside(s, c, s.dst);
      AboveIsOutside(s, c, s.pre);
      if s.stagingCreated && Outer(s) {
        OuterStaging(s);
        AboveIsOutside(s, c, s.staging);
      }
    }

    lemma ParentIsAbove(s: Swap)
      requires Valid() && SwapOk(s) && Outer(s)
      ensures AboveSome(Parent(s.dst))
    {
      var i :| 0 <= i < |dests| && dests[i] == Dest(s.tree, s.dst);
      assert Within(dests[i].dst, Parent(s.dst));
    }

    /** The staging and pre-restore names start out free. */
    lemma ReservedStartFree(s: Swap, p: Path)
      requires Valid() && SwapOk(s)
      requires s.pre <= p || StagingOf(s.dst, stamp) <= p
      ensures p !in before
    {
      hide Ordered, Separate, TreeClosed, Sibling;
      var i :| 0 <= i < |dests| && dests[i] == Dest(s.tree, s.dst);
      assert StagingOf(dests[i].dst, stamp) !in before && PreRestoreOf(dests[i].dst, stamp) !in before;
      FreeSubtree(before, if s.pre <= p then s.pre else StagingOf(s.dst, stamp), p);
    }

    // ---- Rolling one swap back ----

    function Undone(s: Swap): Swap {
      s.(promoted := false, backedUp := false, stagingCreated := false)
    }

    function DropPromoted(fs: Fs, s: Swap): Fs {
      if s.promoted then RemoveTree(fs, s.dst) else fs
    }

    function BringBack(fs: Fs, s: Swap): Fs {
      var fs1 := DropPromoted(fs, s);
      if s.backedUp then MoveTree(fs1, s.pre, s.dst) else fs1
    }

    function UndoSwap(fs: Fs, s: Swap): Fs {
      var fs2 := BringBack(fs, s);
      if s.stagingCreated then RemoveTree(fs2, s.staging) else fs2
    }

    lemma PreservedAt(fs: Fs, s: Swap, p: Path)
      requires Preserved(fs, s) && s.pre <= p
      ensures Get(fs, p) == Get(before, s.dst + p[|s.pre|..])
    {
    }

    /** The parent of an outermost destination that existed is still there. */
    lemma ParentStillThere(fs: Fs, swaps: seq<Swap>, created: seq<Path>, s: Swap)
      requires Inv(fs, swaps, created) && SwapOk(s) && Outer(s) && s.dstExisted
      ensures Get(fs, Parent(s.dst)) == Some(Directory)
    {
      var up := Parent(s.dst);
      ParentIsAbove(s);
      AboveReadsBase(fs, swaps, created, up);
      assert up <= s.dst && up != s.dst && up in before;
    }

    lemma DestinationVacant(fs: Fs, s: Swap)
      requires s.backedUp && (!s.promoted ==> Vacated(fs, s.dst))
      ensures Vacated(DropPromoted(fs, s), s.dst)
    {
    }

    /** The rename that brings the preserved tree back is always possible. */
    lemma BringBackPossible(fs: Fs, swaps: seq<Swap>, created: seq<Path>, i: nat)
      requires Inv(fs, swaps, created) && i < |swaps| && swaps[i].backedUp
      ensures CanMove(DropPromoted(fs, swaps[i]), swaps[i].pre, swaps[i].dst)
    {
      var s := swaps[i];
      assert SwapOk(s) && KeptAside(fs, s);
      ParentStillThere(fs, swaps, created, s);
      DestinationVacant(fs, s);
      assert s.dst + s.pre[|s.pre|..] == s.dst;
      PreservedAt(fs, s, s.pre);
      OwnRegionsDisjoint(s, s.pre);
    }

    /** After the rename back, the destination subtree reads as it did initially. */
    lemma BringBackGet(fs: Fs, s: Swap, p: Path)
      requires Valid() && SwapOk(s) && s.backedUp && Preserved(fs, s)
      requires !s.promoted ==> Vacated(fs, s.dst)
      ensures Get(BringBack(fs, s), p) ==
              if s.dst <= p then Get(before, p) else if s.pre <= p then None else Get(fs, p)
    {
      var fs1 := DropPromoted(fs, s);
      DestinationVacant(fs, s);
      OwnRootsSeparated(s.dst, stamp);
      GetMoved(fs1, s.pre, s.dst, p);
      if s.dst <= p {
        var q := s.pre + p[|s.dst|..];
        Rebase(s.dst, s.pre, p);
        OwnRegionsDisjoint(s, q);
        PreservedAt(fs, s, q);
      }
    }

    /** Undoing one swap returns every path it owned to its initial state and touches no other. */
    lemma UndoSwapGet(fs: Fs, s: Swap, p: Path)
      requires Valid() && SwapOk(s) && Outer(s)
      requires s.backedUp ==> Preserved(fs, s) && (!s.promoted ==> Vacated(fs, s.dst))
      ensures Get(UndoSwap(fs, s), p) == if Owns(s, p) then Get(before, p) else Get(fs, p)
    {
      if s.stagingCreated { OuterStaging(s); }
      OwnRegionsDisjoint(s, p);
      if s.pre <= p || StagingOf(s.dst, stamp) <= p { ReservedStartFree(s, p); }
      if s.backedUp {
        BringBackGet(fs, s, p);
      } else if s.promoted && s.dst <= p {
        FreeSubtree(before, s.dst, p);
      }
    }

    lemma UndoSwapKeepsInv(fs: Fs, swaps: seq<Swap>, created: seq<Path>, i: nat)
      requires Inv(fs, swaps, created) && i < |swaps| && Outer(swaps[i])
      ensures Inv(UndoSwap(fs, swaps[i]), swaps[i := Undone(swaps[i])], created)
    {
      var s := swaps[i];
      var fs', swaps' := UndoSwap(fs, s), swaps[i := Undone(s)];
      assert KeptAside(fs, s) && SwapOk(s);
      SwapsOkUpdate(swaps, i, Undone(s));
      forall p | Untouched(swaps', p) ensures Get(fs', p) == Base(created, p) {
        UndoSwapGet(fs, s, p);
        UntouchedAfter(swaps, i, Undone(s), p);
        if Owns(s, p) && p in created { AboveIsUnowned(s, p); }
      }
      forall j | 0 <= j < |swaps'| ensures KeptAside(fs', swaps'[j]) {
        var t := swaps[j];
        if j != i && t.backedUp {
          assert SwapOk(t);
          forall p | t.pre <= p || t.dst <= p ensures Get(fs', p) == Get(fs, p) {
            UndoSwapGet(fs, s, p);
            if Owns(s, p) {
              OwnersDiffer(s, t, t.pre, p);
              OwnersDiffer(s, t, t.dst, p);
            }
          }
          KeptAsideFrame(fs, fs', t);
        }
      }
    }

    ghost predicate Released(s: Swap) {
      Outer(s) ==> !s.stagingCreated && !s.promoted && !s.backedUp
    }

    /** With no swap left to undo, only the created parents separate the disk from the initial one. */
    lemma NothingOwned(fs: Fs, swaps: seq<Swap>, created: seq<Path>)
      requires Inv(fs, swaps, created) && forall i :: 0 <= i < |swaps| ==> Released(swaps[i])
      ensures PlusDirectories(fs, created)
    {
      forall p ensures Get(fs, p) == Base(created, p) {
        forall i | 0 <= i < |swaps| ensures !Owns(swaps[i], p) { assert Released(swaps[i]); }
        assert Untouched(swaps, p);
      }
    }

    // ---- Forward steps ----

    /** Recording that a staging directory is ours only enlarges what is owned. */
    lemma ClaimStaging(fs: Fs, swaps: seq<Swap>, created: seq<Path>, i: nat, s': Swap)
      requires Inv(fs, swaps, created) && i < |swaps|
      requires s' == swaps[i].(staging := s'.staging, stagingCreated := true, nestedUnder := s'.nestedUnder)
      requires !swaps[i].stagingCreated && SwapOk(s')
      ensures Inv(fs, swaps[i := s'], created)
    {
      assert SwapOk(swaps[i]) && KeptAside(fs, swaps[i]);
      RecordUpdate(fs, swaps, created, i, s');
    }

    /** Noting that a tree is nested, and where it will be staged, claims nothing yet. */
    lemma NoteNesting(fs: Fs, swaps: seq<Swap>, created: seq<Path>, i: nat, s': Swap)
      requires Inv(fs, swaps, created) && i < |swaps| && !Outer(swaps[i]) && !swaps[i].stagingCreated
      requires s' == swaps[i].(staging := s'.staging, nestedUnder := s'.nestedUnder) && s'.nestedUnder.Some?
      ensures Inv(fs, swaps[i := s'], created)
    {
      assert SwapOk(swaps[i]) && KeptAside(fs, swaps[i]);
      RecordUpdate(fs, swaps, created, i, s');
    }

    /** Whatever happens inside a claimed staging directory, the invariant does not notice. */
    lemma StagingIsPrivate(fs: Fs, fs': Fs, swaps: seq<Swap>, created: seq<Path>, i: nat)
      requires Inv(fs, swaps, created) && i < |swaps| && swaps[i].stagingCreated && Outer(swaps[i])
      requires forall p :: Get(fs', p) == Get(fs, p) || swaps[i].staging <= p
      ensures Inv(fs', swaps, created)
    {
      var s := swaps[i];
      assert SwapOk(s);
      OuterStaging(s);
      forall p | Untouched(swaps, p) ensures Get(fs', p) == Base(created, p) {
        assert !Owns(s, p);
      }
      forall j | 0 <= j < |swaps| ensures KeptAside(fs', swaps[j]) {
        var t := swaps[j];
        assert SwapOk(t) && KeptAside(fs, t);
        if t.backedUp {
          forall p | t.pre <= p || t.dst <= p ensures Get(fs', p) == Get(fs, p) {
            StagingMissesOthers(s, t, p);
          }
          KeptAsideFrame(fs, fs', t);
        }
      }
    }

    lemma StagingMissesOthers(s: Swap, t: Swap, p: Path)
      requires Valid() && SwapOk(s) && SwapOk(t) && Outer(s) && Outer(t) && s.stagingCreated
      requires t.pre <= p || t.dst <= p
      ensures !(s.staging <= p)
    {
      OuterStaging(s);
      if s.dst == t.dst { OwnRegionsDisjoint(s, p); }
      else {
        RegionsDisjoint(s, t, s.staging, t.pre, p);
        RegionsDisjoint(s, t, s.staging, t.dst, p);
      }
    }

    /** Creating and recording a missing ancestor of an outermost destination. */
    lemma CreateParentKeepsInv(fs: Fs, swaps: seq<Swap>, created: seq<Path>, c: Path)
      requires Inv(fs, swaps, created) && AboveSome(c) && c !in fs
      requires forall x :: x in created ==> !(c <= x)
      requires forall a :: Within(c, a) ==> a in before || a in created
      ensures Inv(fs[c := Directory], swaps, created + [c])
    {
      var fs', created' := fs[c := Directory], created + [c];
      AboveReadsBase(fs, swaps, created, c);
      forall i, j | 0 <= i < j < |created'| ensures !(created'[j] <= created'[i]) {
        assert created'[i] == created[i] && created[i] in created;
      }
      assert forall p :: Get(fs', p) == if p == c then Some(Directory) else Get(fs, p);
      assert forall p :: Base(created', p) == if p == c then Some(Directory) else Base(created, p);
      forall j | 0 <= j < |swaps| ensures KeptAside(fs', swaps[j]) {
        var t := swaps[j];
        assert SwapOk(t) && KeptAside(fs, t);
        AboveIsOutside(t, c, t.pre);
        AboveIsOutside(t, c, t.dst);
        KeptAsideFrame(fs, fs', t);
      }
    }

    /** An ancestor of an outermost destination reads as the baseline says. */
    lemma AboveReadsBase(fs: Fs, swaps: seq<Swap>, created: seq<Path>, a: Path)
      requires Inv(fs, swaps, created) && AboveSome(a)
      ensures Get(fs, a) == Base(created, a)
    {
      forall j | 0 <= j < |swaps| ensures !Owns(swaps[j], a) { AboveIsUnowned(swaps[j], a); }
      assert Untouched(swaps, a);
    }

    lemma AboveParent(c: Path)
      requires AboveSome(c) && c != []
      ensures AboveSome(Parent(c))
    {
      var i :| 0 <= i < |dests| && Outermost(dests, dests[i].dst) && Within(dests[i].dst, c);
      assert Within(dests[i].dst, Parent(c));
    }

    /** The usual case: the parent is already there, so the recorded directories stay a chain. */
    lemma NewParentKeepsInv(fs: Fs, swaps: seq<Swap>, created: seq<Path>, c: Path)
      requires Inv(fs, swaps, created) && AboveSome(c) && c != [] && c !in fs && Parent(c) in fs
      ensures Inv(fs[c := Directory], swaps, created + [c])
    {
      hide Ordered, Separate, FreshNames;
      var up := Parent(c);
      AboveParent(c);
      AboveReadsBase(fs, swaps, created, c);
      AboveReadsBase(fs, swaps, created, up);
      forall a | Within(c, a) ensures a in before || a in created {
        WithinParent(c, a);
        if a != up { assert Within(up, a); }
      }
      forall x | x in created ensures !(c <= x) {
        assert c != x && !Within(x, c);
      }
      CreateParentKeepsInv(fs, swaps, created, c);
    }

    /** A destination nobody has renamed yet still reads as it did initially. */
    lemma DestinationUntouched(fs: Fs, swaps: seq<Swap>, created: seq<Path>, i: nat, p: Path)
      requires Inv(fs, swaps, created) && i < |swaps| && Outer(swaps[i])
      requires !swaps[i].backedUp && !swaps[i].promoted && (swaps[i].dst <= p || swaps[i].pre <= p)
      ensures Get(fs, p) == Get(before, p)
    {
      var s := swaps[i];
      assert SwapOk(s);
      OwnRegionsDisjoint(s, p);
      if s.stagingCreated { OuterStaging(s); }
      forall j | 0 <= j < |swaps| ensures !Owns(swaps[j], p) {
        var t := swaps[j];
        if j != i && Owns(t, p) {
          OwnersDiffer(t, s, s.dst, p);
          OwnersDiffer(t, s, s.pre, p);
        }
      }
      assert Untouched(swaps, p);
      if p in created {
        AboveIsOutside(s, p, s.dst);
        AboveIsOutside(s, p, s.pre);
      }
    }

    /** Renaming an outermost swap's roots into one another leaves every other tree's roots alone. */
    lemma OthersUnmoved(s: Swap, t: Swap, a: Path, b: Path, p: Path)
      requires Valid() && SwapOk(s) && SwapOk(t) && Outer(s) && Outer(t) && s.dst != t.dst
      requires Roots(s.dst, stamp, a) && Roots(s.dst, stamp, b)
      requires t.pre <= p || t.dst <= p || StagingOf(t.dst, stamp) <= p
      ensures !(a <= p) && !(b <= p)
    {
      var y := if t.pre <= p then t.pre else if t.dst <= p then t.dst else StagingOf(t.dst, stamp);
      RegionsDisjoint(s, t, a, y, p);
      RegionsDisjoint(s, t, b, y, p);
    }

    /** A rename between one swap's roots keeps what the invariant says of the other swaps. */
    lemma RenameKeepsOthers(fs: Fs, swaps: seq<Swap>, created: seq<Path>, i: nat, a: Path, b: Path, s': Swap)
      requires Inv(fs, swaps, created) && i < |swaps| && Outer(swaps[i])
      requires Roots(swaps[i].dst, stamp, a) && Roots(swaps[i].dst, stamp, b) && Incomparable(a, b)
      requires Vacated(fs, b) && KeptAside(MoveTree(fs, a, b), s')
      ensures AllKept(MoveTree(fs, a, b), swaps[i := s'])
    {
      var s, fs' := swaps[i], MoveTree(fs, a, b);
      assert SwapOk(s);
      forall j | 0 <= j < |swaps| && j != i ensures KeptAside(fs', swaps[j]) {
        var t := swaps[j];
        assert SwapOk(t) && KeptAside(fs, t);
        if t.backedUp {
          forall p | t.pre <= p || t.dst <= p ensures Get(fs', p) == Get(fs, p) {
            OthersUnmoved(s, t, a, b, p);
            GetMoved(fs, a, b, p);
          }
          KeptAsideFrame(fs, fs', t);
        }
      }
    }

    /** A rename between regions that the new record owns keeps the baseline. */
    lemma RenameKeepsBaseline(fs: Fs, swaps: seq<Swap>, created: seq<Path>, i: nat, a: Path, b: Path, s': Swap)
      requires Inv(fs, swaps, created) && i < |swaps|
      requires Incomparable(a, b) && Vacated(fs, b)
      requires forall p :: a <= p || b <= p || Owns(swaps[i], p) ==> Owns(s', p)
      ensures Baseline(MoveTree(fs, a, b), swaps[i := s'], created)
    {
      forall p | Untouched(swaps[i := s'], p) ensures Get(MoveTree(fs, a, b), p) == Base(created, p) {
        UntouchedAfter(swaps, i, s', p);
        GetMoved(fs, a, b, p);
      }
    }

    lemma PreRestoreFree(fs: Fs, swaps: seq<Swap>, created: seq<Path>, i: nat)
      requires Inv(fs, swaps, created) && i < |swaps| && Outer(swaps[i])
      requires !swaps[i].backedUp && !swaps[i].promoted
      ensures Vacated(fs, swaps[i].pre)
    {
      forall p | swaps[i].pre <= p ensures p !in fs {
        DestinationUntouched(fs, swaps, created, i, p);
        ReservedStartFree(swaps[i], p);
      }
    }

    lemma MovedAside(fs: Fs, swaps: seq<Swap>, created: seq<Path>, i: nat)
      requires Inv(fs, swaps, created) && i < |swaps| && Outer(swaps[i])
      requires !swaps[i].backedUp && !swaps[i].promoted
      ensures KeptAside(MoveTree(fs, swaps[i].dst, swaps[i].pre), swaps[i].(backedUp := true))
    {
      var s := swaps[i];
      assert SwapOk(s);
      OwnRootsSeparated(s.dst, stamp);
      PreRestoreFree(fs, swaps, created, i);
      forall p ensures s.pre <= p ==> Get(MoveTree(fs, s.dst, s.pre), p) == Get(before, s.dst + p[|s.pre|..])
               ensures s.dst <= p ==> p !in MoveTree(fs, s.dst, s.pre)
      {
        GetMoved(fs, s.dst, s.pre, p);
        OwnRegionsDisjoint(s, p);
        if s.pre <= p { DestinationUntouched(fs, swaps, created, i, s.dst + p[|s.pre|..]); }
      }
    }

    /** commit, first half: the existing destination moves aside. */
    lemma BackupKeepsInv(fs: Fs, swaps: seq<Swap>, created: seq<Path>, i: nat)
      requires Inv(fs, swaps, created) && i < |swaps| && Outer(swaps[i])
      requires swaps[i].stagingCreated && swaps[i].dstExisted && !swaps[i].backedUp && !swaps[i].promoted
      ensures var s := swaps[i];
              Inv(MoveTree(fs, s.dst, s.pre), swaps[i := s.(backedUp := true)], created)
    {
      var s := swaps[i];
      assert SwapOk(s);
      var s' := s.(backedUp := true);
      assert SwapOk(s') by { assert Located(s'); }
      SwapsOkUpdate(swaps, i, s');
      OwnRootsSeparated(s.dst, stamp);
      PreRestoreFree(fs, swaps, created, i);
      RenameKeepsBaseline(fs, swaps, created, i, s.dst, s.pre, s');
      MovedAside(fs, swaps, created, i);
      RenameKeepsOthers(fs, swaps, created, i, s.dst, s.pre, s');
    }

    /** By the time a staged tree is promoted, its destination name is free. */
    lemma DestinationFree(fs: Fs, swaps: seq<Swap>, created: seq<Path>, i: nat)
      requires Inv(fs, swaps, created) && i < |swaps| && Outer(swaps[i])
      requires swaps[i].dstExisted == swaps[i].backedUp && !swaps[i].promoted
      ensures Vacated(fs, swaps[i].dst)
    {
      var s := swaps[i];
      assert SwapOk(s);
      if !s.backedUp {
        forall p | s.dst <= p ensures p !in fs {
          DestinationUntouched(fs, swaps, created, i, p);
          FreeSubtree(before, s.dst, p);
        }
      }
    }

    lemma PromotionKeepsAside(fs: Fs, s: Swap)
      requires Valid() && SwapOk(s) && Outer(s) && s.stagingCreated && KeptAside(fs, s) && Vacated(fs, s.dst)
      ensures KeptAside(MoveTree(fs, s.staging, s.dst), s.(promoted := true))
    {
      OuterStaging(s);
      OwnRootsSeparated(s.dst, stamp);
      if s.backedUp {
        forall p | s.pre <= p
          ensures Get(MoveTree(fs, s.staging, s.dst), p) == Get(before, s.dst + p[|s.pre|..])
        {
          OwnRegionsDisjoint(s, p);
          GetMoved(fs, s.staging, s.dst, p);
          PreservedAt(fs, s, p);
        }
      }
    }

    /** commit, second half: the staged tree takes the destination's name. */
    lemma PromoteKeepsInv(fs: Fs, swaps: seq<Swap>, created: seq<Path>, i: nat)
      requires Inv(fs, swaps, created) && i < |swaps| && Outer(swaps[i])
      requires swaps[i].stagingCreated && swaps[i].dstExisted == swaps[i].backedUp && !swaps[i].promoted
      ensures var s := swaps[i];
              Inv(MoveTree(fs, s.staging, s.dst), swaps[i := s.(promoted := true)], created)
    {
      var s := swaps[i];
      assert SwapOk(s) && KeptAside(fs, s);
      var s' := s.(promoted := true);
      assert SwapOk(s') by { assert Located(s'); }
      SwapsOkUpdate(swaps, i, s');
      OuterStaging(s);
      OwnRootsSeparated(s.dst, stamp);
      DestinationFree(fs, swaps, created, i);
      RenameKeepsBaseline(fs, swaps, created, i, s.staging, s.dst, s');
      PromotionKeepsAside(fs, s);
      RenameKeepsOthers(fs, swaps, created, i, s.staging, s.dst, s');
    }

    /** Marking a swap as having received entries, or a nested swap as promoted, changes nothing else. */
    lemma BookkeepingKeepsInv(fs: Fs, swaps: seq<Swap>, created: seq<Path>, i: nat, s': Swap)
      requires Inv(fs, swaps, created) && i < |swaps|
      requires || s' == swaps[i].(hadEntries := s'.hadEntries)
               || (swaps[i].nestedUnder.Some? && s' == swaps[i].(promoted := true))
      ensures Inv(fs, swaps[i := s'], created)
    {
      var s := swaps[i];
      assert SwapOk(s) && KeptAside(fs, s);
      assert SwapOk(s') by { if s.stagingCreated { assert Located(s'); } }
      assert KeptAside(fs, s') by { if s.backedUp { assert Preserved(fs, s'); } }
      RecordUpdate(fs, swaps, created, i, s');
    }

    function Exchanged(swaps: seq<Swap>, i: nat, j: nat): seq<Swap>
      requires i < |swaps| && j < |swaps|
    {
      swaps[i := swaps[j]][j := swaps[i]]
    }

    function Swapped(i: nat, j: nat, k: nat): nat { if k == i then j else if k == j then i else k }

    lemma ExchangedAt(swaps: seq<Swap>, i: nat, j: nat, k: nat)
      requires i < |swaps| && j < |swaps| && k < |swaps|
      ensures Exchanged(swaps, i, j)[k] == swaps[Swapped(i, j, k)]
      ensures Exchanged(swaps, i, j)[Swapped(i, j, k)] == swaps[k]
    {
    }

    lemma ExchangeKeepsSwapsOk(swaps: seq<Swap>, i: nat, j: nat)
      requires Valid() && SwapsOk(swaps) && i < |swaps| && j < |swaps|
      ensures SwapsOk(Exchanged(swaps, i, j))
    {
      var swaps' := Exchanged(swaps, i, j);
      forall k | 0 <= k < |swaps'| ensures SwapOk(swaps'[k]) { ExchangedAt(swaps, i, j, k); }
      forall k, m | 0 <= k < |swaps'| && 0 <= m < |swaps'| && k != m ensures swaps'[k].dst != swaps'[m].dst {
        ExchangedAt(swaps, i, j, k);
        ExchangedAt(swaps, i, j, m);
      }
    }

    /** The order of the swap list is immaterial. */
    lemma ExchangeKeepsInv(fs: Fs, swaps: seq<Swap>, created: seq<Path>, i: nat, j: nat)
      requires Inv(fs, swaps, created) && i < |swaps| && j < |swaps|
      ensures Inv(fs, Exchanged(swaps, i, j), created)
    {
      var swaps' := Exchanged(swaps, i, j);
      ExchangeKeepsSwapsOk(swaps, i, j);
      forall k | 0 <= k < |swaps'| ensures KeptAside(fs, swaps'[k]) { ExchangedAt(swaps, i, j, k); }
      forall p | Untouched(swaps', p) ensures Get(fs, p) == Base(created, p) {
        forall k | 0 <= k < |swaps| ensures !Owns(swaps[k], p) {
          ExchangedAt(swaps, i, j, k);
        }
        assert Untouched(swaps, p);
      }
    }

    // ---- Removing the created parents ----

    /** The disk is the initial one plus these directories. */
    ghost predicate PlusDirectories(fs: Fs, created: seq<Path>) {
      forall p :: Get(fs, p) == Base(created, p)
    }

    /** The innermost created directory is empty, so plain os.Remove takes it away. */
    lemma LastCreatedIsEmpty(fs: Fs, created: seq<Path>, q: Path)
      requires Valid() && CreatedOrdered(created) && created != [] && PlusDirectories(fs, created)
      requires Within(q, created[|created| - 1])
      ensures q !in fs
    {
      var c := created[|created| - 1];
      assert Get(fs, q) == Base(created, q);
      assert c in created && c !in before;
      assert forall i :: 0 <= i < |created| ==> created[i] != q;
      FreeSubtree(before, c, q);
    }

    lemma DropLast(fs: Fs, created: seq<Path>)
      requires Valid() && CreatedOrdered(created) && created != [] && PlusDirectories(fs, created)
      ensures PlusDirectories(RemoveNode(fs, created[|created| - 1]), created[..|created| - 1])
    {
      var n := |created| - 1;
      var c := created[n];
      forall q | Within(q, c) ensures q !in fs { LastCreatedIsEmpty(fs, created, q); }
      hide ValidLayout;
      assert RemoveNode(fs, c) == fs - {c};
      assert created == created[..n] + [c] && c in created;
      assert forall i :: 0 <= i < n ==> !(created[n] <= created[i]);
      forall p ensures Get(RemoveNode(fs, c), p) == Base(created[..n], p) {
        assert Get(fs, p) == Base(created, p);
      }
    }

    /** Only the initial disk is left once every created directory has been dropped. */
    lemma NoneCreated(fs: Fs)
      requires PlusDirectories(fs, [])
      ensures fs == before
    {
      forall p ensures Get(fs, p) == Get(before, p) { assert Get(fs, p) == Base([], p); }
      SameFs(fs, before);
    }

    lemma CreatedPrefix(created: seq<Path>, k: nat)
      requires CreatedOk(created) && k <= |created|
      ensures CreatedOrdered(created[..k])
    {
    }

    /** The part of CreatedOk that every prefix of the list keeps. */
    ghost predicate CreatedOrdered(created: seq<Path>) {
      && (forall c :: c in created ==> c !in before)
      && (forall i, j :: 0 <= i < j < |created| ==> !(created[j] <= created[i]))
    }
  }
}

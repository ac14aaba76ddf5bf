/** Where a restore puts things: the three destination trees, their sibling
    staging and pre-restore names, and which trees nest inside which. */
module RestoreLayout {

  import opened Wrappers
  import opened Filesystem

  datatype Tree = Config | State | Logs
  datatype Dest = Dest(tree: Tree, dst: Path)

  function StagingSuffix(stamp: string): string { ".restore-staging-" + stamp }
  function PreRestoreSuffix(stamp: string): string { ".pre-restore-" + stamp }

  /** A path beside `dst`: same parent, longer last component. */
  function Sibling(dst: Path, suffix: string): Path
    requires dst != []
  {
    Parent(dst) + [dst[|dst| - 1] + suffix]
  }

  function StagingOf(dst: Path, stamp: string): Path
    requires dst != []
  {
    Sibling(dst, StagingSuffix(stamp))
  }

  function PreRestoreOf(dst: Path, stamp: string): Path
    requires dst != []
  {
    Sibling(dst, PreRestoreSuffix(stamp))
  }

  /** filepath.Rel on cleaned absolute paths: climb out of what is not shared, then descend. */
  function Rel(base: Path, target: Path): (r: Path)
    decreases base
  {
    if base != [] && target != [] && base[0] == target[0] then Rel(base[1..], target[1..])
    else seq(|base|, _ => "..") + target
  }

  /** pathInside: the relative path is neither "." nor textually prefixed by "..". */
  predicate PathInside(child: Path, parent: Path) {
    var rel := Rel(parent, child);
    rel != [] && !(".." <= rel[0])
  }

  /** Strict containment, except through a component that itself starts with "..". */
  predicate Inside(child: Path, parent: Path) {
    Within(child, parent) && !(".." <= child[|parent|])
  }

  /** What pathInside decides. */
  lemma {:induction false} PathInsideMeaning(child: Path, parent: Path)
    ensures PathInside(child, parent) <==> Inside(child, parent)
    decreases parent
  {
    if parent != [] && child != [] && parent[0] == child[0] {
      PathInsideMeaning(child[1..], parent[1..]);
      assert parent == [parent[0]] + parent[1..] && child == [child[0]] + child[1..];
      assert parent <= child <==> parent[1..] <= child[1..];
    } else if parent != [] {
      assert Rel(parent, child)[0] == "..";
    }
  }

  /** Joining a directory with the relative path back to something below it is the identity. */
  lemma {:induction false} RelBelow(base: Path, target: Path)
    requires base <= target
    ensures Rel(base, target) == target[|base|..]
    decreases base
  {
    if base != [] {
      assert base[0] == target[0];
      RelBelow(base[1..], target[1..]);
      assert target[1..][|base| - 1..] == target[|base|..];
    }
  }

  // ---- Layouts ----

  /** No other destination contains this one, as far as pathInside can tell. */
  ghost predicate Outermost(dests: seq<Dest>, d: Path) {
    forall i :: 0 <= i < |dests| ==> !Inside(d, dests[i].dst)
  }

  /** A containing tree comes earlier in config, state, logs order. */
  ghost predicate Ordered(dests: seq<Dest>) {
    forall i, j :: 0 <= i < |dests| && 0 <= j < |dests| && Inside(dests[i].dst, dests[j].dst) ==> j < i
  }

  ghost predicate Distinct(dests: seq<Dest>) {
    && (forall i :: 0 <= i < |dests| ==> dests[i].dst != [])
    && (forall i, j :: 0 <= i < j < |dests| ==>
          dests[i].dst != dests[j].dst && dests[i].tree != dests[j].tree)
  }

  /** No tree that counts as outermost lies in another such tree: none hides behind a component starting
      with "..". */
  ghost predicate Separate(dests: seq<Dest>) {
    forall i, j :: 0 <= i < |dests| && 0 <= j < |dests| &&
                   Outermost(dests, dests[i].dst) && Outermost(dests, dests[j].dst) ==>
      !Within(dests[i].dst, dests[j].dst)
  }

  /** The names this restore invents are unused, on disk and in the layout. */
  ghost predicate FreshNames(dests: seq<Dest>, stamp: string, fs: Fs)
    requires Distinct(dests)
  {
    && (forall i :: 0 <= i < |dests| ==>
          StagingOf(dests[i].dst, stamp) !in fs && PreRestoreOf(dests[i].dst, stamp) !in fs)
    && (forall i, j :: 0 <= i < |dests| && 0 <= j < |dests| ==>
          && !(StagingOf(dests[i].dst, stamp) <= dests[j].dst)
          && !(PreRestoreOf(dests[i].dst, stamp) <= dests[j].dst))
  }

  /** What every restore may rely on. */
  ghost predicate SoundLayout(dests: seq<Dest>, stamp: string, fs: Fs) {
    TreeClosed(fs) && Distinct(dests) && Ordered(dests) && FreshNames(dests, stamp, fs)
  }

  ghost predicate ValidLayout(dests: seq<Dest>, stamp: string, fs: Fs) {
    SoundLayout(dests, stamp, fs) && Separate(dests)
  }

  lemma PrefixTransitive(a: Path, b: Path, c: Path)
    requires a <= b && b <= c
    ensures a <= c
  {
    assert a == b[..|a|] == c[..|a|];
  }

  lemma InsideTransitive(a: Path, b: Path, c: Path)
    requires Inside(a, b) && Inside(b, c)
    ensures Inside(a, c)
  {
    PrefixTransitive(c, b, a);
  }

  /** Of two paths that a third is inside, the longer is inside the shorter. */
  lemma InsideBetween(a: Path, b: Path, c: Path)
    requires Inside(a, c) && b <= a && Within(b, c)
    ensures Inside(b, c)
  {
  }

  /** Every destination lies in or below some outermost one. */
  lemma {:induction false} RootExists(dests: seq<Dest>, i: nat) returns (r: nat)
    requires i < |dests|
    ensures r < |dests| && Outermost(dests, dests[r].dst) && dests[r].dst <= dests[i].dst
    ensures r == i || Inside(dests[i].dst, dests[r].dst)
    decreases |dests[i].dst|
  {
    if Outermost(dests, dests[i].dst) {
      r := i;
    } else {
      var j :| 0 <= j < |dests| && Inside(dests[i].dst, dests[j].dst);
      r := RootExists(dests, j);
      PrefixTransitive(dests[r].dst, dests[j].dst, dests[i].dst);
      if r != j { InsideTransitive(dests[i].dst, dests[j].dst, dests[r].dst); }
    }
  }

  /** In a separate layout an outermost tree lies in no other tree whatsoever. */
  lemma TopOfAll(dests: seq<Dest>, i: nat, j: nat)
    requires Separate(dests) && i < |dests| && j < |dests| && Outermost(dests, dests[i].dst)
    ensures !Within(dests[i].dst, dests[j].dst)
  {
    var r := RootExists(dests, j);
    if Within(dests[i].dst, dests[j].dst) { PrefixTransitive(dests[r].dst, dests[j].dst, dests[i].dst); }
  }

  /** In a separate layout only one outermost tree holds a given path. */
  lemma OneRoot(dests: seq<Dest>, i: nat, j: nat, p: Path)
    requires Separate(dests) && i < |dests| && j < |dests|
    requires Outermost(dests, dests[i].dst) && Outermost(dests, dests[j].dst) && dests[i].dst <= p && dests[j].dst <= p
    ensures dests[i].dst == dests[j].dst
  {
    CommonExtension(dests[i].dst, dests[j].dst, p);
    assert !Within(dests[i].dst, dests[j].dst) && !Within(dests[j].dst, dests[i].dst);
  }

  lemma SiblingApart(dst: Path, s: string, t: string)
    requires dst != [] && |s| != |t| && s != ""
    ensures Incomparable(dst, Sibling(dst, s))
    ensures Incomparable(Sibling(dst, s), Sibling(dst, t))
  {
    var n := |dst| - 1;
    assert dst[n] != Sibling(dst, s)[n];
    assert |Sibling(dst, s)[n]| != |Sibling(dst, t)[n]|;
  }

  /** The two reserved suffixes never produce the same name, whatever they are appended to. */
  lemma SuffixesDiffer(a: string, b: string, stamp: string)
    ensures a + StagingSuffix(stamp) != b + PreRestoreSuffix(stamp)
  {
    var x, y := a + StagingSuffix(stamp), b + PreRestoreSuffix(stamp);
    var k := |stamp| + 2;
    assert StagingSuffix(stamp)[15] == 'g' && PreRestoreSuffix(stamp)[11] == 'e';
    assert x[|x| - k] == 'g' && y[|y| - k] == 'e';
  }

  lemma SameSiblingName(d: Path, e: Path, s: string, t: string)
    requires d != [] && e != [] && Sibling(d, s) == Sibling(e, t)
    ensures Parent(d) == Parent(e) && d[|d| - 1] + s == e[|e| - 1] + t
  {
    var x, y := Sibling(d, s), Sibling(e, t);
    assert Parent(d) == x[..|x| - 1] && Parent(e) == y[..|y| - 1];
    assert x[|x| - 1] == d[|d| - 1] + s && y[|y| - 1] == e[|e| - 1] + t;
  }

  lemma SiblingInjective(d: Path, e: Path, s: string)
    requires d != [] && e != [] && Sibling(d, s) == Sibling(e, s)
    ensures d == e
  {
    SameSiblingName(d, e, s, s);
    var x, y := d[|d| - 1], e[|e| - 1];
    assert x == (x + s)[..|x|] && y == (y + s)[..|y|];
    assert d == Parent(d) + [x] && e == Parent(e) + [y];
  }

  /** Siblings of two outermost destinations are unrelated as soon as they differ. */
  lemma SiblingsUnrelated(d: Path, e: Path, s: string, t: string)
    requires d != [] && e != [] && d != e
    requires !(Sibling(d, s) <= e) && Sibling(d, s) != Sibling(e, t)
    ensures !(Sibling(d, s) <= Sibling(e, t))
  {
    var x, y := Sibling(d, s), Sibling(e, t);
    if |x| < |y| {
      assert y[..|x|] == e[..|x|];
    }
  }

  /** An outermost destination never contains another outermost tree's sibling names. */
  lemma OutermostAvoidsSiblings(e: Path, d: Path, s: string)
    requires d != [] && !Within(d, e) && !(Sibling(d, s) <= e)
    ensures Incomparable(e, Sibling(d, s))
  {
    var x := Sibling(d, s);
    if |e| < |x| {
      assert x[..|e|] == d[..|e|];
    }
  }

  /** The roots a swap works on: destination, staging name, pre-restore name. */
  predicate Roots(d: Path, stamp: string, r: Path)
    requires d != []
  {
    r == d || r == StagingOf(d, stamp) || r == PreRestoreOf(d, stamp)
  }

  /** The three names one outermost tree uses are pairwise unrelated. */
  lemma OwnRootsSeparated(d: Path, stamp: string)
    requires d != []
    ensures Incomparable(d, StagingOf(d, stamp)) && Incomparable(d, PreRestoreOf(d, stamp))
    ensures Incomparable(StagingOf(d, stamp), PreRestoreOf(d, stamp))
  {
    SiblingApart(d, StagingSuffix(stamp), PreRestoreSuffix(stamp));
    SiblingApart(d, PreRestoreSuffix(stamp), StagingSuffix(stamp));
  }

  /** No name used by one outermost tree is related to a name used by another. */
  lemma RootsSeparated(dests: seq<Dest>, stamp: string, fs: Fs, i: nat, j: nat, x: Path, y: Path)
    requires ValidLayout(dests, stamp, fs) && i < |dests| && j < |dests| && i != j
    requires Outermost(dests, dests[i].dst) && Outermost(dests, dests[j].dst)
    requires Roots(dests[i].dst, stamp, x) && Roots(dests[j].dst, stamp, y)
    ensures Incomparable(x, y)
  {
    var d, e := dests[i].dst, dests[j].dst;
    assert d != e;
    if x == d && y == e {
      assert !Within(d, e) && !Within(e, d);
    } else if x == d {
      OutermostAvoidsSiblings(d, e, StagingSuffix(stamp));
      OutermostAvoidsSiblings(d, e, PreRestoreSuffix(stamp));
    } else if y == e {
      OutermostAvoidsSiblings(e, d, StagingSuffix(stamp));
      OutermostAvoidsSiblings(e, d, PreRestoreSuffix(stamp));
    } else {
      var s := if x == StagingOf(d, stamp) then StagingSuffix(stamp) else PreRestoreSuffix(stamp);
      var t := if y == StagingOf(e, stamp) then StagingSuffix(stamp) else PreRestoreSuffix(stamp);
      assert x == Sibling(d, s) && y == Sibling(e, t);
      if x == y {
        SameSiblingName(d, e, s, t);
        if s == t {
          SiblingInjective(d, e, s);
        } else {
          SuffixesDiffer(d[|d| - 1], e[|e| - 1], stamp);
          SuffixesDiffer(e[|e| - 1], d[|d| - 1], stamp);
        }
      }
      SiblingsUnrelated(d, e, s, t);
      SiblingsUnrelated(e, d, t, s);
    }
  }

  /** A proper ancestor of an outermost destination lies outside every tree's names. */
  lemma AncestorsOutside(dests: seq<Dest>, stamp: string, fs: Fs, i: nat, j: nat, a: Path, y: Path)
    requires ValidLayout(dests, stamp, fs) && i < |dests| && j < |dests|
    requires Outermost(dests, dests[i].dst)
    requires a <= dests[i].dst && a != dests[i].dst
    requires Roots(dests[j].dst, stamp, y)
    ensures !(y <= a)
  {
    var d := dests[i].dst;
    TopOfAll(dests, i, j);
    assert !(StagingOf(dests[j].dst, stamp) <= d) && !(PreRestoreOf(dests[j].dst, stamp) <= d);
  }

  /** `o` contains tree k, and so closely that every containing tree among the first n contains `o` or is it. */
  ghost predicate Innermost(dests: seq<Dest>, k: nat, o: nat, n: nat)
    requires k < |dests| && n <= |dests| && o < n
  {
    && Inside(dests[k].dst, dests[o].dst)
    && forall j :: 0 <= j < n && Inside(dests[k].dst, dests[j].dst) ==> dests[j].dst <= dests[o].dst
  }

  /** Of two containers the code takes the later one exactly if it lies deeper. */
  lemma DeeperContainer(k: Path, a: Path, b: Path)
    requires Inside(k, a) && Inside(k, b)
    ensures Inside(b, a) ==> a <= b
    ensures !Inside(b, a) ==> b <= a
  {
    CommonExtension(a, b, k);
    if Within(b, a) { InsideBetween(k, b, a); }
  }

  /** The innermost other tree that contains tree k, if any. */
  method FindOuter(dests: seq<Dest>, k: nat) returns (outer: Option<nat>)
    requires k < |dests|
    ensures outer.None? ==> Outermost(dests, dests[k].dst)
    ensures outer.Some? ==> outer.value < |dests| && Innermost(dests, k, outer.value, |dests|)
  {
    outer := None;
    for n := 0 to |dests|
      invariant outer.None? ==> forall j :: 0 <= j < n ==> !Inside(dests[k].dst, dests[j].dst)
      invariant outer.Some? ==> outer.value < n && Innermost(dests, k, outer.value, n)
    {
      PathInsideMeaning(dests[k].dst, dests[n].dst);
      if n != k && PathInside(dests[k].dst, dests[n].dst) {
        if outer.None? {
          outer := Some(n);
        } else {
          PathInsideMeaning(dests[n].dst, dests[outer.value].dst);
          DeeperContainer(dests[k].dst, dests[outer.value].dst, dests[n].dst);
          if PathInside(dests[n].dst, dests[outer.value].dst) { outer := Some(n); }
        }
      }
    }
  }

  // ---- Which layouts are staged beside their destinations ----

  /** A staging directory is an absolute path, or a path relative to wherever the process runs. */
  datatype Spot = Absolute(path: Path) | Relative(path: Path)

  lemma {:induction false} InnermostExists(dests: seq<Dest>, k: nat, n: nat) returns (o: nat)
    requires k < |dests| && n <= |dests| && exists j :: 0 <= j < n && Inside(dests[k].dst, dests[j].dst)
    ensures o < n && Innermost(dests, k, o, n)
  {
    if exists j :: 0 <= j < n - 1 && Inside(dests[k].dst, dests[j].dst) {
      o := InnermostExists(dests, k, n - 1);
      if Inside(dests[k].dst, dests[n - 1].dst) {
        CommonExtension(dests[n - 1].dst, dests[o].dst, dests[k].dst);
        if dests[o].dst <= dests[n - 1].dst { o := n - 1; }
      }
    } else {
      o := n - 1;
    }
  }

  lemma InnermostUnique(dests: seq<Dest>, k: nat, o: nat, o': nat)
    requires k < |dests| && o < |dests| && o' < |dests| && Distinct(dests)
    requires Innermost(dests, k, o, |dests|) && Innermost(dests, k, o', |dests|)
    ensures o == o'
  {
    assert dests[o].dst <= dests[o'].dst && dests[o'].dst <= dests[o].dst;
    assert dests[o].dst == dests[o'].dst;
  }

  ghost predicate Contained(dests: seq<Dest>, k: nat)
    requires k < |dests|
  {
    exists o :: 0 <= o < |dests| && Innermost(dests, k, o, |dests|)
  }

  function Joined(base: Spot, rel: Path): Spot {
    match base
    case Absolute(p) => Absolute(p + rel)
    case Relative(p) => Relative(p + rel)
  }

  /** The staging directory of a tree the second pass has not reached is still the empty string. */
  const Unset := Relative([])

  /** What the second pass assigns to tree k. The staging directory of a container that comes later is
      still unset at that point, so joining to it yields a relative path. */
  ghost function StagingPlan(dests: seq<Dest>, stamp: string, k: nat): (r: Spot)
    requires k < |dests| && Distinct(dests)
  {
    if !Contained(dests, k) then Absolute(StagingOf(dests[k].dst, stamp))
    else
      var o :| 0 <= o < |dests| && Innermost(dests, k, o, |dests|);
      Joined(if o < k then StagingPlan(dests, stamp, o) else Unset, Rel(dests[o].dst, dests[k].dst))
  }

  lemma PlanAt(dests: seq<Dest>, stamp: string, k: nat, o: nat)
    requires k < |dests| && Distinct(dests) && o < |dests| && Innermost(dests, k, o, |dests|)
    ensures StagingPlan(dests, stamp, k) ==
            Joined(if o < k then StagingPlan(dests, stamp, o) else Unset, Rel(dests[o].dst, dests[k].dst))
  {
    assert Contained(dests, k);
    var o' :| 0 <= o' < |dests| && Innermost(dests, k, o', |dests|) &&
      StagingPlan(dests, stamp, k) ==
        Joined(if o' < k then StagingPlan(dests, stamp, o') else Unset, Rel(dests[o'].dst, dests[k].dst));
    InnermostUnique(dests, k, o, o');
  }

  /** The staging directories as the second pass computes them, tree by tree. */
  method PlanStaging(dests: seq<Dest>, stamp: string) returns (spots: seq<Spot>)
    requires Distinct(dests)
    ensures |spots| == |dests| && forall k :: 0 <= k < |dests| ==> spots[k] == StagingPlan(dests, stamp, k)
  {
    spots := seq(|dests|, _ => Unset);
    for k := 0 to |dests|
      invariant |spots| == |dests|
      invariant forall i :: 0 <= i < k ==> spots[i] == StagingPlan(dests, stamp, i)
      invariant forall i :: k <= i < |dests| ==> spots[i] == Unset
    {
      var outer := FindOuter(dests, k);
      if outer.Some? {
        PlanAt(dests, stamp, k, outer.value);
        spots := spots[k := Joined(spots[outer.value], Rel(dests[outer.value].dst, dests[k].dst))];
      } else {
        spots := spots[k := Absolute(StagingOf(dests[k].dst, stamp))];
      }
    }
  }

  /** Tree k and the trees around it are listed from the outside in. */
  ghost predicate ChainOrdered(dests: seq<Dest>, k: nat)
    requires k < |dests|
  {
    forall i, j :: 0 <= i < |dests| && 0 <= j < |dests| && Around(dests, k, i) && Inside(dests[i].dst, dests[j].dst) ==> j < i
  }

  ghost predicate Around(dests: seq<Dest>, k: nat, i: nat)
    requires k < |dests| && i < |dests|
  {
    i == k || Inside(dests[k].dst, dests[i].dst)
  }

  /** The containers of k are its innermost container and the containers of that one. */
  lemma ContainersOf(dests: seq<Dest>, k: nat, o: nat, j: nat)
    requires k < |dests| && o < |dests| && j < |dests| && Distinct(dests) && Innermost(dests, k, o, |dests|)
    ensures Inside(dests[k].dst, dests[j].dst) <==> j == o || Inside(dests[o].dst, dests[j].dst)
  {
    if Inside(dests[o].dst, dests[j].dst) {
      InsideTransitive(dests[k].dst, dests[o].dst, dests[j].dst);
    } else if Inside(dests[k].dst, dests[j].dst) && j != o {
      InsideBetween(dests[k].dst, dests[o].dst, dests[j].dst);
    }
  }

  lemma ChainOrderedStep(dests: seq<Dest>, k: nat, o: nat)
    requires k < |dests| && o < k && Distinct(dests) && Innermost(dests, k, o, |dests|)
    ensures ChainOrdered(dests, k) <==> ChainOrdered(dests, o)
  {
    forall j | 0 <= j < |dests|
      ensures Inside(dests[k].dst, dests[j].dst) <==> j == o || Inside(dests[o].dst, dests[j].dst)
    {
      ContainersOf(dests, k, o, j);
    }
  }

  lemma PlanUnfolds(dests: seq<Dest>, stamp: string, k: nat) returns (o: nat)
    requires k < |dests| && Distinct(dests) && Contained(dests, k)
    ensures o < |dests| && Innermost(dests, k, o, |dests|)
    ensures StagingPlan(dests, stamp, k).Absolute? <==> o < k && StagingPlan(dests, stamp, o).Absolute?
  {
    o :| 0 <= o < |dests| && Innermost(dests, k, o, |dests|);
    PlanAt(dests, stamp, k, o);
  }

  /** A tree is staged at an absolute path exactly when the trees around it are listed outside in. */
  lemma {:induction false} AbsoluteIffChainOrdered(dests: seq<Dest>, stamp: string, k: nat)
    requires k < |dests| && Distinct(dests)
    ensures StagingPlan(dests, stamp, k).Absolute? <==> ChainOrdered(dests, k)
    decreases k
  {
    if Contained(dests, k) {
      var o := PlanUnfolds(dests, stamp, k);
      if o < k {
        AbsoluteIffChainOrdered(dests, stamp, o);
        ChainOrderedStep(dests, k, o);
      } else {
        assert Inside(dests[k].dst, dests[o].dst);
      }
    } else {
      forall j | 0 <= j < |dests| ensures !Inside(dests[k].dst, dests[j].dst) {
        if Inside(dests[k].dst, dests[j].dst) {
          var o := InnermostExists(dests, k, |dests|);
          assert Contained(dests, k);
        }
      }
    }
  }

  ghost predicate AllChainsOrdered(dests: seq<Dest>) {
    forall k :: 0 <= k < |dests| ==> ChainOrdered(dests, k)
  }

  lemma OrderedIffChains(dests: seq<Dest>)
    ensures AllChainsOrdered(dests) <==> Ordered(dests)
  {
    if AllChainsOrdered(dests) {
      forall i, j | 0 <= i < |dests| && 0 <= j < |dests| && Inside(dests[i].dst, dests[j].dst) ensures j < i {
        assert ChainOrdered(dests, i) && Around(dests, i, i);
      }
    }
  }

  ghost predicate AllAbsolute(dests: seq<Dest>, stamp: string)
    requires Distinct(dests)
  {
    forall k :: 0 <= k < |dests| ==> StagingPlan(dests, stamp, k).Absolute?
  }

  /** The whole layout is staged at absolute paths exactly when it is ordered. */
  lemma AllAbsoluteIffOrdered(dests: seq<Dest>, stamp: string)
    requires Distinct(dests)
    ensures AllAbsolute(dests, stamp) <==> Ordered(dests)
  {
    OrderedIffChains(dests);
    if AllAbsolute(dests, stamp) {
      forall k | 0 <= k < |dests| ensures ChainOrdered(dests, k) { AbsoluteIffChainOrdered(dests, stamp, k); }
    }
    if AllChainsOrdered(dests) {
      forall k | 0 <= k < |dests| ensures StagingPlan(dests, stamp, k).Absolute? {
        AbsoluteIffChainOrdered(dests, stamp, k);
      }
    }
  }

  lemma OutermostIffNotContained(dests: seq<Dest>, k: nat)
    requires k < |dests|
    ensures Outermost(dests, dests[k].dst) <==> !Contained(dests, k)
  {
    if exists j :: 0 <= j < |dests| && Inside(dests[k].dst, dests[j].dst) {
      var o := InnermostExists(dests, k, |dests|);
      assert Contained(dests, k);
    }
  }

  lemma Descend(a: Path, r: Path, o: Path, k: Path)
    requires r <= o <= k
    ensures a + o[|r|..] + k[|o|..] == a + k[|r|..]
  {
    assert o[|r|..] + k[|o|..] == k[|r|..];
  }

  /** In an ordered layout every tree is staged below the staging directory of the outermost tree around it,
      where its destination lies below that tree: one rename serves both. */
  lemma {:induction false} PlanBelowRoot(dests: seq<Dest>, stamp: string, k: nat) returns (r: nat)
    requires k < |dests| && Distinct(dests) && Ordered(dests)
    ensures r < |dests| && Outermost(dests, dests[r].dst) && (r == k || Inside(dests[k].dst, dests[r].dst))
    ensures dests[r].dst <= dests[k].dst
    ensures StagingPlan(dests, stamp, k) == Absolute(StagingOf(dests[r].dst, stamp) + dests[k].dst[|dests[r].dst|..])
    decreases k
  {
    OutermostIffNotContained(dests, k);
    if Contained(dests, k) {
      var o :| 0 <= o < |dests| && Innermost(dests, k, o, |dests|);
      r := PlanBelowRoot(dests, stamp, o);
      PlanAt(dests, stamp, k, o);
      RelBelow(dests[o].dst, dests[k].dst);
      Descend(StagingOf(dests[r].dst, stamp), dests[r].dst, dests[o].dst, dests[k].dst);
      PrefixTransitive(dests[r].dst, dests[o].dst, dests[k].dst);
      if r != o { InsideTransitive(dests[k].dst, dests[o].dst, dests[r].dst); }
    } else {
      r := k;
      assert StagingOf(dests[k].dst, stamp) + [] == StagingOf(dests[k].dst, stamp);
    }
  }

  /** A layout the transaction cannot stage: config below state is staged at a relative path. */
  lemma ConfigBelowStateIsRelative(stamp: string)
    ensures var dests := [Dest(Config, ["srv", "siem", "config"]), Dest(State, ["srv", "siem"])];
            Distinct(dests) && StagingPlan(dests, stamp, 0).Relative?
  {
    var dests := [Dest(Config, ["srv", "siem", "config"]), Dest(State, ["srv", "siem"])];
    assert dests[0].dst[2][0] != '.';
    assert Inside(dests[0].dst, dests[1].dst);
    AbsoluteIffChainOrdered(dests, stamp, 0);
  }

  // ---- The assumptions can be met ----

  /** State inside config and logs inside state: the layout nesting is there for. */
  const TwoLevels: seq<Dest> :=
    [Dest(Config, ["siem"]), Dest(State, ["siem", "state"]), Dest(Logs, ["siem", "state", "logs"])]

  lemma SiblingNotAbove(d: Path, e: Path, suffix: string)
    requires d != [] && suffix != "" && (|e| < |d| || e[|d| - 1] == d[|d| - 1])
    ensures !(Sibling(d, suffix) <= e)
  {
    var n := |d| - 1;
    assert Sibling(d, suffix)[n] == d[n] + suffix;
  }

  lemma TwoLevelsFresh(stamp: string, i: nat, j: nat)
    requires i < 3 && j < 3
    ensures var d, e := TwoLevels[i].dst, TwoLevels[j].dst;
            d != [] && !(StagingOf(d, stamp) <= e) && !(PreRestoreOf(d, stamp) <= e)
  {
    SiblingNotAbove(TwoLevels[i].dst, TwoLevels[j].dst, StagingSuffix(stamp));
    SiblingNotAbove(TwoLevels[i].dst, TwoLevels[j].dst, PreRestoreSuffix(stamp));
  }

  lemma TwoLevelsNest(i: nat, j: nat)
    requires i < 3 && j < 3
    ensures Within(TwoLevels[i].dst, TwoLevels[j].dst) <==> j < i
    ensures Inside(TwoLevels[i].dst, TwoLevels[j].dst) <==> j < i
    ensures i != j ==> TwoLevels[i].dst != TwoLevels[j].dst && TwoLevels[i].tree != TwoLevels[j].tree
  {
    var d, e := TwoLevels[i].dst, TwoLevels[j].dst;
    assert |d| == i + 1 && |e| == j + 1;
    assert j <= i ==> e == d[..j + 1];
    assert j < i ==> (d[j + 1] == "state" || d[j + 1] == "logs") && d[j + 1][0] != '.';
  }

  /** On a disk that has none of these trees yet, the two-level layout meets every assumption. */
  lemma TwoLevelLayoutIsValid(stamp: string)
    ensures ValidLayout(TwoLevels, stamp, map[[] := Directory])
  {
    hide Inside, Within;
    forall i, j | 0 <= i < 3 && 0 <= j < 3
      ensures Within(TwoLevels[i].dst, TwoLevels[j].dst) <==> j < i
      ensures Inside(TwoLevels[i].dst, TwoLevels[j].dst) <==> j < i
      ensures i != j ==> TwoLevels[i].dst != TwoLevels[j].dst && TwoLevels[i].tree != TwoLevels[j].tree
    {
      TwoLevelsNest(i, j);
    }
    forall i, j | 0 <= i < 3 && 0 <= j < 3
      ensures var d, e := TwoLevels[i].dst, TwoLevels[j].dst;
              d != [] && !(StagingOf(d, stamp) <= e) && !(PreRestoreOf(d, stamp) <= e)
    {
      TwoLevelsFresh(stamp, i, j);
    }
  }
}

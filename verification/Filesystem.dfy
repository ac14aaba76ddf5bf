/** A filesystem as a finite map from absolute paths (component lists) to nodes,
    with the whole-subtree operations the restore transaction is built from. */
module Filesystem {

  import opened Wrappers

  type Path = seq<string>
  type Content = seq<char>
  datatype Node = Directory | File(content: Content)
  type Fs = map<Path, Node>

  function Get(fs: Fs, p: Path): Option<Node> {
    if p in fs then Some(fs[p]) else None
  }

  /** The root is a directory and every node's parent is a directory. */
  ghost predicate TreeClosed(fs: Fs) {
    && [] in fs && fs[[]].Directory?
    && forall p, q :: q in fs && p <= q && p != q ==> p in fs && fs[p].Directory?
  }

  predicate Incomparable(a: Path, b: Path) {
    !(a <= b) && !(b <= a)
  }

  function Parent(p: Path): Path
    requires p != []
  {
    p[..|p| - 1]
  }

  predicate Within(inner: Path, outer: Path) {
    outer <= inner && outer != inner
  }

  lemma WithinParent(p: Path, a: Path)
    requires Within(p, a)
    ensures a <= Parent(p)
  {
  }

  /** os.RemoveAll */
  function RemoveTree(fs: Fs, root: Path): Fs {
    map p | p in fs && !(root <= p) :: fs[p]
  }

  /** os.Remove: only an empty directory or a file goes away. */
  function RemoveNode(fs: Fs, p: Path): Fs {
    if exists q :: q in fs && Within(q, p) then fs else fs - {p}
  }

  /** What a successful rename of the subtree `a` to the free name `b` leaves behind. */
  function MoveTree(fs: Fs, a: Path, b: Path): Fs {
    var moved := set p | p in fs && a <= p :: b + p[|a|..];
    (map p | p in fs && !(a <= p) :: fs[p]) +
    (map q | q in moved && b <= q && a + q[|b|..] in fs :: fs[a + q[|b|..]])
  }

  /** When a rename is possible at all. */
  predicate CanMove(fs: Fs, a: Path, b: Path) {
    && a in fs && b !in fs && b != []
    && Parent(b) in fs && fs[Parent(b)].Directory?
  }

  /** Two paths with a common extension are prefixes of one another. */
  lemma CommonExtension(a: Path, b: Path, p: Path)
    requires a <= p && b <= p
    ensures a <= b || b <= a
  {
    if |a| <= |b| {
      assert a == p[..|a|] == b[..|a|];
    } else {
      assert b == p[..|b|] == a[..|b|];
    }
  }

  lemma Apart(a: Path, b: Path, p: Path)
    requires Incomparable(a, b)
    ensures !(a <= p && b <= p)
  {
    if a <= p && b <= p { CommonExtension(a, b, p); }
  }

  lemma Rebase(a: Path, b: Path, p: Path)
    requires a <= p
    ensures b <= b + p[|a|..] && (b + p[|a|..])[|b|..] == p[|a|..]
    ensures a + p[|a|..] == p
  {
  }

  /** A rename moves exactly the subtree: nothing else changes, and nothing is lost. */
  lemma GetMoved(fs: Fs, a: Path, b: Path, p: Path)
    requires Incomparable(a, b)
    requires forall q :: q in fs ==> !(b <= q)
    ensures Get(MoveTree(fs, a, b), p) ==
            if b <= p then Get(fs, a + p[|b|..])
            else if a <= p then None
            else Get(fs, p)
  {
    var moved := set q | q in fs && a <= q :: b + q[|a|..];
    if b <= p {
      var src := a + p[|b|..];
      Rebase(b, a, p);
      assert a <= src && src[|a|..] == p[|b|..];
      assert src in fs ==> b + src[|a|..] in moved;
    }
  }

  /** Nothing lives below a name that is free in a well-formed tree. */
  lemma FreeSubtree(fs: Fs, root: Path, p: Path)
    requires TreeClosed(fs) && root !in fs && root <= p
    ensures p !in fs
  {
  }

  lemma SameFs(x: Fs, y: Fs)
    requires forall p :: Get(x, p) == Get(y, p)
    ensures x == y
  {
    forall p ensures p in x <==> p in y {
      assert Get(x, p) == Get(y, p);
    }
    forall p | p in x ensures x[p] == y[p] {
      assert Get(x, p) == Get(y, p);
    }
  }
}

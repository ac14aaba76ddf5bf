/** Archive entry names: slash-separated strings, cleaned lexically, then mapped to a
    destination tree and a path below it. */
module ArchiveNames {

  import opened Filesystem
  import opened RestoreLayout

  /** Splitting at every slash. */
  function Split(s: string): (r: seq<string>)
    ensures r != []
    ensures forall i :: 0 <= i < |r| ==> '/' !in r[i]
  {
    if s == "" then [""]
    else
      var rest := Split(s[1..]);
      if s[0] == '/' then [""] + rest else [[s[0]] + rest[0]] + rest[1..]
  }

  predicate Rooted(s: string) { s != "" && s[0] == '/' }

  /** Lexical cleaning: drop empty and "." components, let ".." cancel the component before it;
      a leading ".." survives only in a relative name. */
  function CleanFrom(rooted: bool, todo: seq<string>, done: seq<string>): (r: seq<string>)
    decreases |todo|
  {
    if todo == [] then done
    else
      var c, rest := todo[0], todo[1..];
      if c == "" || c == "." then CleanFrom(rooted, rest, done)
      else if c != ".." then CleanFrom(rooted, rest, done + [c])
      else if done != [] && done[|done| - 1] != ".." then CleanFrom(rooted, rest, done[..|done| - 1])
      else if rooted then CleanFrom(rooted, rest, done)
      else CleanFrom(rooted, rest, done + [".."])
  }

  function Clean(name: string): (r: seq<string>) {
    CleanFrom(Rooted(name), Split(name), [])
  }

  predicate Proper(c: string) { c != "" && c != "." && c != ".." && '/' !in c }

  /** A cleaned name climbs first and descends afterwards; an absolute one never climbs. */
  ghost predicate NormalForm(rooted: bool, r: seq<string>) {
    exists k: nat :: k <= |r| && Climbs(r, k) && (rooted ==> k == 0)
  }

  ghost predicate Climbs(r: seq<string>, k: nat)
    requires k <= |r|
  {
    && (forall i :: 0 <= i < k ==> r[i] == "..")
    && (forall i :: k <= i < |r| ==> Proper(r[i]))
  }

  lemma {:induction false} CleanFromNormal(rooted: bool, todo: seq<string>, done: seq<string>)
    requires NormalForm(rooted, done)
    requires forall i :: 0 <= i < |todo| ==> '/' !in todo[i]
    ensures NormalForm(rooted, CleanFrom(rooted, todo, done))
    decreases |todo|
  {
    if todo != [] {
      var c, rest := todo[0], todo[1..];
      var k: nat :| k <= |done| && Climbs(done, k) && (rooted ==> k == 0);
      if c == "" || c == "." {
        CleanFromNormal(rooted, rest, done);
      } else if c != ".." {
        assert Climbs(done + [c], k);
        CleanFromNormal(rooted, rest, done + [c]);
      } else if done != [] && done[|done| - 1] != ".." {
        assert Climbs(done[..|done| - 1], k);
        CleanFromNormal(rooted, rest, done[..|done| - 1]);
      } else if rooted {
        CleanFromNormal(rooted, rest, done);
      } else {
        assert Climbs(done + [".."], |done| + 1);
        CleanFromNormal(rooted, rest, done + [".."]);
      }
    }
  }

  /** The normal form of path cleaning, for every name. */
  lemma CleanIsNormal(name: string)
    ensures NormalForm(Rooted(name), Clean(name))
  {
    assert Climbs([], 0);
    CleanFromNormal(Rooted(name), Split(name), []);
  }

  // ---- What cleaning does to a name ----

  ghost predicate AllProper(parts: seq<string>) {
    forall i :: 0 <= i < |parts| ==> Proper(parts[i])
  }

  ghost predicate SlashFree(parts: seq<string>) {
    forall i :: 0 <= i < |parts| ==> '/' !in parts[i]
  }

  /** Components written out with one slash between neighbours. */
  function Slashed(parts: seq<string>): (r: string) {
    if parts == [] then "" else if |parts| == 1 then parts[0] else parts[0] + "/" + Slashed(parts[1..])
  }

  /** A name is its components with slashes between them. */
  lemma {:induction false} SlashedSplit(s: string)
    ensures Slashed(Split(s)) == s
  {
    if s != "" {
      var rest := Split(s[1..]);
      SlashedSplit(s[1..]);
      if s[0] == '/' {
        assert ([""] + rest)[1..] == rest;
      } else {
        var r := [[s[0]] + rest[0]] + rest[1..];
        assert r[1..] == rest[1..];
      }
    }
  }

  /** Conversely, components that hold no slash are what a name splits into. */
  lemma {:induction false} SplitSlashed(parts: seq<string>)
    requires parts != [] && SlashFree(parts)
    ensures Split(Slashed(parts)) == parts
  {
    if |parts| == 1 {
      SplitPlain(parts[0]);
    } else {
      SplitWord(parts[0], Slashed(parts[1..]));
      SplitSlashed(parts[1..]);
    }
  }

  /** Cleaning goes from left to right. */
  lemma {:induction false} CleanInTurn(rooted: bool, a: seq<string>, b: seq<string>, done: seq<string>)
    ensures CleanFrom(rooted, a + b, done) == CleanFrom(rooted, b, CleanFrom(rooted, a, done))
    decreases |a|
  {
    if a == [] {
      assert a + b == b;
    } else {
      var c := a[0];
      assert (a + b)[0] == c && (a + b)[1..] == a[1..] + b;
      if c == "" || c == "." { CleanInTurn(rooted, a[1..], b, done); }
      else if c != ".." { CleanInTurn(rooted, a[1..], b, done + [c]); }
      else if done != [] && done[|done| - 1] != ".." { CleanInTurn(rooted, a[1..], b, done[..|done| - 1]); }
      else if rooted { CleanInTurn(rooted, a[1..], b, done); }
      else { CleanInTurn(rooted, a[1..], b, done + [".."]); }
    }
  }

  /** Empty components and "." drop out, wherever they stand. */
  lemma CleanDropsIdle(rooted: bool, a: seq<string>, x: string, b: seq<string>)
    requires x == "" || x == "."
    ensures CleanFrom(rooted, a + [x] + b, []) == CleanFrom(rooted, a + b, [])
  {
    var done := CleanFrom(rooted, a, []);
    assert a + [x] + b == a + ([x] + b) && ([x] + b)[1..] == b;
    CleanInTurn(rooted, a, [x] + b, []);
    CleanInTurn(rooted, a, b, []);
    assert CleanFrom(rooted, [x] + b, done) == CleanFrom(rooted, b, done);
  }

  /** An ordinary component and the ".." after it drop out together, wherever they stand. */
  lemma CleanCancels(rooted: bool, a: seq<string>, x: string, b: seq<string>)
    requires Proper(x)
    ensures CleanFrom(rooted, a + [x, ".."] + b, []) == CleanFrom(rooted, a + b, [])
  {
    var done := CleanFrom(rooted, a, []);
    assert a + [x, ".."] + b == a + ([x, ".."] + b) && ([x, ".."] + b)[1..] == [".."] + b && ([".."] + b)[1..] == b;
    CleanInTurn(rooted, a, [x, ".."] + b, []);
    CleanInTurn(rooted, a, b, []);
    assert (done + [x])[..|done|] == done;
    assert CleanFrom(rooted, [x, ".."] + b, done) == CleanFrom(rooted, [".."] + b, done + [x]) == CleanFrom(rooted, b, done);
  }

  /** Above the root there is only the root. */
  lemma CleanStopsAtRoot(b: seq<string>)
    ensures CleanFrom(true, [".."] + b, []) == CleanFrom(true, b, [])
  {
    assert ([".."] + b)[1..] == b;
  }

  /** Where none of these applies, every component stays, in order. */
  lemma CleanKeepsNormal(rooted: bool, c: seq<string>)
    requires NormalForm(rooted, c)
    ensures CleanFrom(rooted, c, []) == c
  {
    var k: nat :| k <= |c| && Climbs(c, k) && (rooted ==> k == 0);
    CleanKeepsFrom(rooted, c, k, 0);
    assert c[0..] == c && c[..0] == [];
  }

  lemma {:induction false} CleanKeepsFrom(rooted: bool, c: seq<string>, k: nat, i: nat)
    requires i <= |c| && k <= |c| && Climbs(c, k) && (rooted ==> k == 0)
    ensures CleanFrom(rooted, c[i..], c[..i]) == c
    decreases |c| - i
  {
    if i < |c| {
      assert c[i..][0] == c[i] && c[i..][1..] == c[i + 1..] && c[..i] + [c[i]] == c[..i + 1];
      if i < k { assert i > 0 ==> c[..i][i - 1] == ".."; }
      CleanKeepsFrom(rooted, c, k, i + 1);
    }
  }

  /** A name made of ordinary components is its own cleaned form. */
  lemma CleanProper(parts: seq<string>)
    requires parts != [] && AllProper(parts)
    ensures Clean(Slashed(parts)) == parts && !Rooted(Slashed(parts))
  {
    var s := Slashed(parts);
    assert Proper(parts[0]);
    assert s[0] == parts[0][0] && parts[0][0] in parts[0];
    SplitSlashed(parts);
    assert Climbs(parts, 0);
    CleanKeepsNormal(false, parts);
  }

  // ---- Placing ----

  datatype Placement = Rejected | Ignored | Placed(tree: Tree, rel: Path)

  function TreeName(t: Tree): string {
    match t case Config => "config" case State => "state" case Logs => "logs"
  }

  /** The traversal test: an absolute name, or a cleaned name that still climbs and then continues. */
  predicate Suspicious(name: string) {
    var c := Clean(name);
    || Rooted(name)
    || (|c| >= 2 && c[0] == "..")
    || (exists i :: 0 < i < |c| - 1 && c[i] == "..")
  }

  /** Which staged path a name stands for, given the trees that are being restored. */
  function Place(name: string, trees: set<Tree>): (r: Placement) {
    var c := Clean(name);
    if Suspicious(name) then Rejected
    else if |c| < 2 then Ignored
    else if c[0] == TreeName(Config) && Config in trees then Placed(Config, c[1..])
    else if c[0] == TreeName(State) && State in trees then Placed(State, c[1..])
    else if c[0] == TreeName(Logs) && Logs in trees then Placed(Logs, c[1..])
    else if c[0] == "loose" && Config in trees then Placed(Config, ["_restored_loose"] + c[1..])
    else Ignored
  }

  /** Containment: whatever the name, a placed entry lands strictly below a tree that is being
      restored, along ordinary components only, and that tree is the one its prefix names. */
  lemma PlacedBelowItsTree(name: string, trees: set<Tree>)
    ensures var p := Place(name, trees);
            p.Placed? ==>
              && p.tree in trees && p.rel != []
              && (forall i :: 0 <= i < |p.rel| ==> Proper(p.rel[i]))
              && (|| Clean(name) == [TreeName(p.tree)] + p.rel
                  || (p.tree == Config && |p.rel| >= 2 && p.rel[0] == "_restored_loose" &&
                      Clean(name) == ["loose"] + p.rel[1..]))
  {
    CleanIsNormal(name);
    var c := Clean(name);
    var k: nat :| k <= |c| && Climbs(c, k) && (Rooted(name) ==> k == 0);
    if k == 0 {
      assert forall i :: 1 <= i < |c| ==> Proper(c[i]);
    }
  }

  /** A name is refused exactly when it is absolute, or climbs out and goes on from there. */
  lemma RejectedIff(name: string, trees: set<Tree>)
    ensures Place(name, trees) == Rejected <==>
      Rooted(name) || exists rest :: rest != [] && Clean(name) == [".."] + rest
  {
    var c := Clean(name);
    CleanIsNormal(name);
    if |c| >= 2 && c[0] == ".." { assert c == [".."] + c[1..]; }
  }

  /** A name is placed exactly when it lies below a tree that is being restored, or below loose/ while the
      config tree is. */
  lemma PlacedIff(name: string, trees: set<Tree>, t: Tree, rel: Path)
    ensures Place(name, trees) == Placed(t, rel) <==>
      && !Rooted(name) && t in trees && rel != []
      && (|| Clean(name) == [TreeName(t)] + rel
          || (t == Config && |rel| >= 2 && rel[0] == "_restored_loose" && Clean(name) == ["loose"] + rel[1..]))
  {
    PlacedBelowItsTree(name, trees);
    RejectedIff(name, trees);
    var c := Clean(name);
    if |c| >= 2 && rel != [] && c == ["loose"] + rel[1..] && rel[0] == "_restored_loose" {
      assert c[1..] == rel[1..] && ["_restored_loose"] + c[1..] == rel;
    }
    if c == [TreeName(t)] + rel { assert c[1..] == rel; }
  }

  /** Every other name is passed over: it has fewer than two components, or starts with none of the known
      prefixes. */
  lemma IgnoredIff(name: string, trees: set<Tree>)
    ensures var c := Clean(name);
            Place(name, trees) == Ignored <==>
              && !Rooted(name)
              && (|| |c| < 2
                  || (&& c[0] != ".."
                      && (c[0] == "config" || c[0] == "loose" ==> Config !in trees)
                      && (c[0] == "state" ==> State !in trees)
                      && (c[0] == "logs" ==> Logs !in trees)))
  {
    RejectedIff(name, trees);
    var c := Clean(name);
    if |c| >= 2 && c[0] == ".." { assert c == [".."] + c[1..]; }
  }

  /** The converse of containment: an entry below config/, state/ or logs/ goes to that tree, with the rest
      of its name as it is. */
  lemma EntryFindsItsTree(t: Tree, rel: seq<string>, trees: set<Tree>)
    requires t in trees && rel != [] && AllProper(rel)
    ensures Place(Slashed([match t case Config => "config" case State => "state" case Logs => "logs"] + rel), trees)
            == Placed(t, rel)
  {
    hide Place, Slashed, Clean, Rooted, AllProper;
    TopIsProper(TreeName(t), rel);
    CleanProper([TreeName(t)] + rel);
    PlacedIff(Slashed([TreeName(t)] + rel), trees, t, rel);
  }

  /** An entry below loose/ goes along with the config tree. */
  lemma LooseRidesAlong(rel: seq<string>, trees: set<Tree>)
    requires Config in trees && rel != [] && AllProper(rel)
    ensures Place(Slashed(["loose"] + rel), trees) == Placed(Config, ["_restored_loose"] + rel)
  {
    hide Place, Slashed, Clean, Rooted, AllProper;
    TopIsProper("loose", rel);
    CleanProper(["loose"] + rel);
    var below := ["_restored_loose"] + rel;
    assert below[1..] == rel;
    PlacedIff(Slashed(["loose"] + rel), trees, Config, below);
  }

  lemma TopIsProper(top: string, rel: seq<string>)
    requires Proper(top) && AllProper(rel)
    ensures AllProper([top] + rel)
  {
  }

  lemma {:induction false} SplitWord(w: string, rest: string)
    requires '/' !in w
    ensures Split(w + "/" + rest) == [w] + Split(rest)
  {
    var s := w + "/" + rest;
    if w == "" {
      assert s[1..] == rest;
    } else {
      assert s[1..] == w[1..] + "/" + rest && s[0] == w[0];
      SplitWord(w[1..], rest);
      assert [w[0]] + w[1..] == w;
    }
  }

  lemma {:induction false} SplitPlain(w: string)
    requires '/' !in w
    ensures Split(w) == [w]
  {
    if w != "" {
      SplitPlain(w[1..]);
      assert [w[0]] + w[1..] == w;
    }
  }

  /** An ordinary two-component name is already clean. */
  lemma CleanPair(a: string, b: string)
    requires Proper(a) && Proper(b)
    ensures Clean(a + "/" + b) == [a, b] && !Rooted(a + "/" + b)
  {
    assert Slashed([a, b]) == a + "/" + b by { assert [a, b][1..] == [b]; }
    CleanProper([a, b]);
  }
}

/** Unpacking a bundle into a directory: every entry is staged under a temporary name, and only when the
    whole stream has been read are the temporaries renamed. */
module BundleUnpack {

  import opened Wrappers
  import opened Bytes
  import opened Bundles

  type Path = seq<Byte>
  datatype Node = Directory | File(content: seq<Byte>)
  type Disk = map<Path, Node>

  const SLASH: Byte := 47
  const DOT: Byte := 46

  // ---- Names ----

  function TrimSlashes(p: Path): (r: Path)
    ensures r <= p
  {
    if p != [] && p[|p| - 1] == SLASH then TrimSlashes(p[..|p| - 1]) else p
  }

  /** The part after the last slash. */
  function LastPart(p: Path): (r: Path)
    ensures SLASH !in r
  {
    if p == [] || p[|p| - 1] == SLASH then [] else LastPart(p[..|p| - 1]) + [p[|p| - 1]]
  }

  /** filepath.Base */
  function Base(name: Name): (r: Path) {
    if name == [] then [DOT]
    else
      var t := TrimSlashes(name);
      if t == [] then [SLASH] else LastPart(t)
  }

  /** filepath.Join of a cleaned directory and a base name. */
  function Join(dest: Path, parent: Path, base: Path): (r: Path) {
    if base == [DOT] || base == [SLASH] then dest
    else if base == [DOT, DOT] then parent
    else dest + [SLASH] + base
  }

  /** The destination directory and the directory above it. */
  datatype Target = Target(dest: Path, parent: Path) {
    function Final(name: Name): Path { Join(dest, parent, Base(name)) }
    function Tmp(name: Name): Path { Final(name) + [DOT, 116, 109, 112] }
  }

  /** A name that is its own base name: no slash, and not a dot name. */
  predicate PlainName(name: Name) {
    name != [] && SLASH !in name && name != [DOT] && name != [DOT, DOT]
  }

  lemma {:induction false} LastPartPlain(p: Path)
    requires SLASH !in p
    ensures LastPart(p) == p
  {
    if p != [] {
      LastPartPlain(p[..|p| - 1]);
      assert p == p[..|p| - 1] + [p[|p| - 1]];
    }
  }

  lemma PlainIsBase(name: Name)
    requires PlainName(name)
    ensures Base(name) == name
  {
    LastPartPlain(name);
  }

  predicate AllSlashes(p: Path) { forall i :: 0 <= i < |p| ==> p[i] == SLASH }

  lemma {:induction false} TrimmedIs(p: Path) returns (tail: Path)
    ensures p == TrimSlashes(p) + tail && AllSlashes(tail)
    ensures TrimSlashes(p) == [] || TrimSlashes(p)[|TrimSlashes(p)| - 1] != SLASH
  {
    if p != [] && p[|p| - 1] == SLASH {
      tail := TrimmedIs(p[..|p| - 1]);
      tail := tail + [SLASH];
    } else {
      tail := [];
    }
  }

  lemma {:induction false} LastPartIs(p: Path) returns (head: Path)
    ensures p == head + LastPart(p) && (head == [] || head[|head| - 1] == SLASH)
  {
    if p == [] || p[|p| - 1] == SLASH {
      head := p;
    } else {
      head := LastPartIs(p[..|p| - 1]);
      assert p == p[..|p| - 1] + [p[|p| - 1]];
    }
  }

  /** The base of any name is its last component: what is left of it is empty or ends in a slash, what is
      right of it is slashes only. A name of slashes only gives one slash, the empty name a dot. */
  lemma BaseIsLastComponent(name: Name) returns (head: Path, tail: Path)
    ensures name == [] ==> Base(name) == [DOT]
    ensures name != [] && AllSlashes(name) ==> Base(name) == [SLASH]
    ensures !AllSlashes(name) ==>
      && name == head + Base(name) + tail && Base(name) != [] && SLASH !in Base(name)
      && (head == [] || head[|head| - 1] == SLASH) && AllSlashes(tail)
  {
    tail := TrimmedIs(name);
    head := LastPartIs(TrimSlashes(name));
  }

  /** Containment: whatever the name, an entry goes to the destination directory itself, to the directory
      above it, or to a single component inside the destination directory. */
  lemma FinalStaysClose(t: Target, name: Name)
    ensures var p := t.Final(name);
            p == t.dest || p == t.parent || exists c :: PlainName(c) && p == t.dest + [SLASH] + c
  {
    var head, tail := BaseIsLastComponent(name);
    var base := Base(name);
    if base != [DOT] && base != [SLASH] && base != [DOT, DOT] {
      assert PlainName(base);
    }
  }

  // ---- What staging and promotion leave on disk ----

  function Staged(t: Target, disk: Disk, es: seq<Entry>): (r: Disk) {
    if es == [] then disk
    else Staged(t, disk, es[..|es| - 1])[t.Tmp(es[|es| - 1].name) := File(es[|es| - 1].body)]
  }

  /** os.Rename of a file over whatever file is there. */
  function Moved(disk: Disk, a: Path, b: Path): (r: Disk) {
    if a in disk then (disk - {a})[b := disk[a]] else disk
  }

  function Promoted(t: Target, disk: Disk, es: seq<Entry>): (r: Disk) {
    if es == [] then disk
    else
      var e := es[|es| - 1];
      Moved(Promoted(t, disk, es[..|es| - 1]), t.Tmp(e.name), t.Final(e.name))
  }

  function Tmps(t: Target, es: seq<Entry>): set<Path> { set e | e in es :: t.Tmp(e.name) }
  function Finals(t: Target, es: seq<Entry>): set<Path> { set e | e in es :: t.Final(e.name) }

  /** Outside the given paths the disk is as it was. */
  ghost predicate SameBeyond(disk: Disk, disk': Disk, paths: set<Path>) {
    forall p :: p !in paths ==> (p in disk <==> p in disk') && (p in disk ==> disk[p] == disk'[p])
  }

  /** The operating system is an arbitrary schedule of refusals, numbered by call. */
  class Unpacker {
    const target: Target
    const refuses: nat -> bool
    var disk: Disk
    var calls: nat

    constructor (target: Target, disk: Disk, refuses: nat -> bool)
      ensures this.target == target && this.disk == disk && this.refuses == refuses && calls == 0
    {
      this.target, this.disk, this.refuses, calls := target, disk, refuses, 0;
    }

    /** Some call so far was refused. */
    ghost predicate Faulted()
      reads this
    {
      exists k :: 0 <= k < calls && refuses(k)
    }

    method Attempt() returns (ok: bool)
      modifies this`calls
      ensures calls == old(calls) + 1 && ok == !refuses(old(calls))
    {
      ok := !refuses(calls);
      calls := calls + 1;
    }

    /** os.OpenFile and io.CopyN into a temporary; a failed copy removes it again. */
    method WriteTmp(tmp: Path, body: seq<Byte>) returns (ok: bool, ghost lost: bool)
      modifies this
      ensures ok ==> disk == old(disk)[tmp := File(body)]
      ensures !ok ==> disk == if lost then old(disk) - {tmp} else old(disk)
      ensures !ok ==> Faulted() || IsDir(old(disk), tmp)
    {
      if IsDir(disk, tmp) { return false, false; }
      ok := Attempt();
      if !ok { return false, false; }
      disk := disk[tmp := File([])];
      ok := Attempt();
      lost := true;
      if ok { disk := disk[tmp := File(body)]; } else { disk := disk - {tmp}; }
    }

    /** A copy that runs out of input: the temporary, if it could be opened, is removed again. */
    method AbandonTmp(tmp: Path) returns (ghost lost: bool)
      modifies this
      ensures disk == if lost then old(disk) - {tmp} else old(disk)
    {
      lost := false;
      if IsDir(disk, tmp) { return; }
      var ok := Attempt();
      if ok { disk, lost := disk - {tmp}, true; }
    }

    /** os.Rename: fails without effect, or moves the file; never onto a directory. */
    method Rename(a: Path, b: Path) returns (ok: bool)
      modifies this
      ensures ok ==> a in old(disk) && disk == Moved(old(disk), a, b)
      ensures !ok ==> disk == old(disk) && (Faulted() || a !in disk || IsDir(disk, b))
    {
      if a !in disk || IsDir(disk, b) { return false; }
      ok := Attempt();
      if ok { disk := Moved(disk, a, b); }
    }

    /** Removes the temporaries of these entries. */
    method RemoveTmps(es: seq<Entry>)
      modifies this`disk
      ensures disk == old(disk) - Tmps(target, es)
    {
      for i := 0 to |es|
        invariant disk == old(disk) - Tmps(target, es[..i])
      {
        assert es[..i + 1] == es[..i] + [es[i]];
        assert Tmps(target, es[..i + 1]) == Tmps(target, es[..i]) + {target.Tmp(es[i].name)};
        disk := disk - {target.Tmp(es[i].name)};
      }
      assert es[..|es|] == es;
    }

    method RemoveFinals(es: seq<Entry>)
      modifies this`disk
      ensures disk == old(disk) - Finals(target, es)
    {
      for i := 0 to |es|
        invariant disk == old(disk) - Finals(target, es[..i])
      {
        assert es[..i + 1] == es[..i] + [es[i]];
        assert Finals(target, es[..i + 1]) == Finals(target, es[..i]) + {target.Final(es[i].name)};
        disk := disk - {target.Final(es[i].name)};
      }
      assert es[..|es|] == es;
    }

    /** Reads the stream entry by entry into temporaries; `torn` is a temporary that was opened in vain. */
    method StageAll(body: seq<Byte>) returns (ok: bool, staged: seq<Entry>, ghost torn: Option<Name>)
      modifies this
      ensures ok ==> ReadEntries(body) == Some(staged) && torn == None
      ensures !ok ==> Faulted() || ReadEntries(body).None? || DirInTheWay(target, old(disk), ReadEntries(body).value)
      ensures disk == Lacking(target, Staged(target, old(disk), staged), torn)
      ensures OpenedBy(target, staged, torn) <= TmpsOf(target, Opened(body))
    {
      staged, torn := [], None;
      var rest := body;
      AfterUnits([], ReadEntries(body));
      while true
        invariant torn == None && Reads(body, staged, rest) && OpensSoFar(body, staged, rest)
        invariant disk == Staged(target, old(disk), staged)
        decreases |rest|
      {
        var step := NextEntry(rest);
        OpensNext(target, body, staged, rest);
        match step {
          case End =>
            ReadsToEnd(body, staged, rest);
            return true, staged, None;
          case Broken =>
            return false, staged, None;
          case Short(name) =>
            ghost var lost := AbandonTmp(target.Tmp(name));
            return false, staged, if lost then Some(name) else None;
          case Got(entry, used) =>
            ghost var lost;
            TmpBlocked(target, old(disk), staged, body, rest, entry, used);
            ok, lost := WriteTmp(target.Tmp(entry.name), entry.body);
            if !ok { return false, staged, if lost then Some(entry.name) else None; }
            StagedNext(target, old(disk), staged, entry);
            ReadNext(body, rest, staged, entry, used);
            staged, rest := staged + [entry], rest[used..];
        }
      }
    }

    /** unpackBundle. On success exactly the entries are staged and promoted. A failure takes away the names
        in `touched` and nothing else, and those are among the temporaries it opened and the destinations it
        had promoted. It fails only by a refusal, a stream that does not unbundle, or an obstacle. */
    method Unpack(bundle: seq<Byte>) returns (ok: bool, written: seq<Path>, ghost touched: set<Path>)
      requires calls == 0
      modifies this
      ensures ok ==> Unbundle(bundle).Some? && written == FinalNames(target, Unbundle(bundle).value)
      ensures ok ==> disk == Promoted(target, Staged(target, WithDest(target, old(disk)), Unbundle(bundle).value), Unbundle(bundle).value)
      ensures ok ==> Succeeds(target, Staged(target, WithDest(target, old(disk)), Unbundle(bundle).value), Unbundle(bundle).value)
      ensures !ok ==> written == [] && touched <= AtRisk(target, bundle)
      ensures !ok ==> (disk == old(disk) && touched == {}) || disk == WithDest(target, old(disk)) - touched
      ensures !ok && AtRisk(target, bundle) !! WithDest(target, old(disk)).Keys ==>
        disk == old(disk) || disk == WithDest(target, old(disk))
      ensures !ok ==> Faulted() || Unbundle(bundle).None? || Obstructed(target, old(disk), Unbundle(bundle).value)
    {
      written, touched := [], {};
      if |bundle| < HEADER_SIZE || bundle[..4] != Header()[..4] { return false, [], {}; }
      if target.dest in disk && disk[target.dest].File? { return false, [], {}; }
      ok := Attempt();
      if !ok { return; }
      disk := WithDest(target, disk);
      ghost var start := disk;
      ok, written, touched := UnpackInto(bundle);
      if !ok && AtRisk(target, bundle) !! start.Keys { NothingAtRisk(start, touched, AtRisk(target, bundle)); }
    }

    /** The part of unpackBundle after the destination directory exists. */
    method UnpackInto(bundle: seq<Byte>) returns (ok: bool, written: seq<Path>, ghost touched: set<Path>)
      requires |bundle| >= HEADER_SIZE && bundle[..4] == Header()[..4]
      modifies this
      ensures ok ==> Unbundle(bundle).Some? && written == FinalNames(target, Unbundle(bundle).value)
      ensures ok ==> disk == Promoted(target, Staged(target, old(disk), Unbundle(bundle).value), Unbundle(bundle).value)
      ensures ok ==> Succeeds(target, Staged(target, old(disk), Unbundle(bundle).value), Unbundle(bundle).value)
      ensures !ok ==> written == [] && touched <= AtRisk(target, bundle) && disk == old(disk) - touched
      ensures !ok ==>
        || Faulted() || Unbundle(bundle).None?
        || DirInTheWay(target, old(disk), Unbundle(bundle).value) || !DistinctFinals(target, Unbundle(bundle).value)
    {
      ghost var start := disk;
      var staged: seq<Entry>;
      ghost var torn: Option<Name>;
      ok, staged, torn := StageAll(bundle[HEADER_SIZE..]);
      if !ok {
        RemoveTmps(staged);
        CleanedUp(target, start, staged, torn, disk);
        return false, [], OpenedBy(target, staged, torn);
      }
      StagedBeyond(target, start, staged);
      ok, written, touched := PromoteAll(staged, start);
      if !ok {
        ghost var i :| 0 <= i < |staged| && touched == Tmps(target, staged) + Finals(target, staged[..i]);
        PromotionAtRisk(target, bundle, i);
      }
    }

    /** The first i temporaries of `staged` have been renamed, each found in its place. */
    ghost predicate Promoting(was: Disk, start: Disk, staged: seq<Entry>, i: nat)
      reads this
    {
      && i <= |staged| && disk == Promoted(target, was, staged[..i])
      && SameBeyond(start, disk, Tmps(target, staged) + Finals(target, staged[..i]))
      && forall j :: 0 <= j < i ==> target.Tmp(staged[j].name) in Promoted(target, was, staged[..j])
    }

    /** Renames one temporary; on a failure removes what was promoted and what was not. */
    method PromoteOne(staged: seq<Entry>, i: nat, ghost start: Disk) returns (ok: bool)
      requires i < |staged| && Promoting(Staged(target, start, staged), start, staged, i)
      modifies this
      ensures ok ==> Promoting(Staged(target, start, staged), start, staged, i + 1)
      ensures !ok ==> disk == start - (Tmps(target, staged) + Finals(target, staged[..i]))
      ensures !ok ==> Faulted() || DirInTheWay(target, start, staged) || !DistinctFinals(target, staged)
    {
      hide Join, Moved, Promoted, Staged, DistinctFinals, DirInTheWay;
      ghost var was := Staged(target, start, staged);
      PromotedNext(target, was, staged, i);
      PromotedBeyond(target, start, disk, staged, i);
      PromotionPossible(target, start, staged, i);
      ok := Rename(target.Tmp(staged[i].name), target.Final(staged[i].name));
      if !ok { UndoPromotion(staged, i, start); }
    }

    /** Renames every temporary, or none. */
    method PromoteAll(staged: seq<Entry>, ghost start: Disk) returns (ok: bool, written: seq<Path>, ghost touched: set<Path>)
      requires SameBeyond(start, disk, Tmps(target, staged)) && disk == Staged(target, start, staged)
      modifies this
      ensures ok ==> disk == Promoted(target, old(disk), staged) && written == FinalNames(target, staged)
      ensures ok ==> Succeeds(target, old(disk), staged)
      ensures !ok ==> written == [] && disk == start - touched
      ensures !ok ==> exists i :: 0 <= i < |staged| && touched == Tmps(target, staged) + Finals(target, staged[..i])
      ensures !ok ==> Faulted() || DirInTheWay(target, start, staged) || !DistinctFinals(target, staged)
    {
      hide Join, Moved, Promoted, Staged, DistinctFinals, DirInTheWay;
      written, touched := [], {};
      assert staged[..0] == [] && Tmps(target, staged) + Finals(target, staged[..0]) == Tmps(target, staged);
      PromotedNone(target, disk);
      for i := 0 to |staged|
        invariant Promoting(old(disk), start, staged, i) && written == FinalNames(target, staged[..i])
      {
        ok := PromoteOne(staged, i, start);
        if !ok { return false, [], Tmps(target, staged) + Finals(target, staged[..i]); }
        assert staged[..i + 1][..i] == staged[..i];
        written := written + [target.Final(staged[i].name)];
      }
      assert staged[..|staged|] == staged;
      ok := true;
    }

    /** Rolls back the first i promotions and drops every temporary. */
    method UndoPromotion(staged: seq<Entry>, i: nat, ghost start: Disk)
      requires i <= |staged| && SameBeyond(start, disk, Tmps(target, staged) + Finals(target, staged[..i]))
      modifies this`disk
      ensures disk == start - (Tmps(target, staged) + Finals(target, staged[..i]))
    {
      ghost var was := disk;
      RemoveFinals(staged[..i]);
      RemoveTmps(staged[i..]);
      RemoveTmps(staged);
      assert forall e :: e in staged[i..] ==> e in staged;
      UndoneIsDeleted(target, start, was, disk, staged, i);
    }
  }

  // ---- What a failure may take away ----

  /** The names whose temporaries unpacking opens, in order: of every whole entry, and of one cut short. */
  function Opened(b: seq<Byte>): (r: seq<Name>)
    decreases |b|
  {
    match NextEntry(b)
    case End => []
    case Broken => []
    case Short(name) => [name]
    case Got(e, used) => [e.name] + Opened(b[used..])
  }

  function TmpsOf(t: Target, names: seq<Name>): set<Path> { set n | n in names :: t.Tmp(n) }

  function OpenedBy(t: Target, staged: seq<Entry>, torn: Option<Name>): set<Path> {
    Tmps(t, staged) + (if torn.Some? then {t.Tmp(torn.value)} else {})
  }

  /** Every temporary the bundle opens, and every destination but the last, whose rename completes the unpack. */
  function AtRisk(t: Target, bundle: seq<Byte>): set<Path> {
    if |bundle| < HEADER_SIZE then {}
    else
      TmpsOf(t, Opened(bundle[HEADER_SIZE..])) +
      (if Unbundle(bundle).Some? && Unbundle(bundle).value != []
       then Finals(t, Unbundle(bundle).value[..|Unbundle(bundle).value| - 1]) else {})
  }

  lemma NothingAtRisk(start: Disk, touched: set<Path>, risk: set<Path>)
    requires touched <= risk && risk !! start.Keys
    ensures start - touched == start
  {
  }

  ghost predicate OpensSoFar(body: seq<Byte>, staged: seq<Entry>, rest: seq<Byte>) {
    && (forall e :: e in staged ==> e.name in Opened(body))
    && (forall n :: n in Opened(rest) ==> n in Opened(body))
  }

  lemma OpensNext(t: Target, body: seq<Byte>, staged: seq<Entry>, rest: seq<Byte>)
    requires OpensSoFar(body, staged, rest)
    ensures OpenedBy(t, staged, None) <= TmpsOf(t, Opened(body))
    ensures NextEntry(rest).Short? ==> OpenedBy(t, staged, Some(NextEntry(rest).name)) <= TmpsOf(t, Opened(body))
    ensures NextEntry(rest).Got? ==>
      var (e, used) := (NextEntry(rest).entry, NextEntry(rest).used);
      OpensSoFar(body, staged + [e], rest[used..]) && OpenedBy(t, staged, Some(e.name)) <= TmpsOf(t, Opened(body))
  {
    match NextEntry(rest)
    case Short(name) => assert name in Opened(rest);
    case Got(e, used) => assert e.name in Opened(rest);
    case _ =>
  }

  lemma {:induction false} OpenedAll(b: seq<Byte>)
    requires ReadEntries(b).Some?
    ensures forall e :: e in ReadEntries(b).value ==> e.name in Opened(b)
    decreases |b|
  {
    if NextEntry(b).Got? { OpenedAll(b[NextEntry(b).used..]); }
  }

  lemma PromotionAtRisk(t: Target, bundle: seq<Byte>, i: nat)
    requires Unbundle(bundle).Some? && i < |Unbundle(bundle).value|
    ensures Tmps(t, Unbundle(bundle).value) + Finals(t, Unbundle(bundle).value[..i]) <= AtRisk(t, bundle)
  {
    var es := Unbundle(bundle).value;
    OpenedAll(bundle[HEADER_SIZE..]);
    assert forall e :: e in es[..i] ==> e in es[..|es| - 1] by {
      assert es[..i] == es[..|es| - 1][..i];
    }
  }

  /** Exactly when failures are harmless: whichever promotion fails, undoing it leaves the directory as it
      was, if and only if none of the temporaries and no destination but the last existed before. */
  lemma UndoHarmlessIff(t: Target, start: Disk, es: seq<Entry>)
    requires es != []
    ensures (forall i :: 0 <= i < |es| ==> Undone(t, start, es, i) == start) <==>
            Tmps(t, es) + Finals(t, es[..|es| - 1]) !! start.Keys
  {
    var n := |es| - 1;
    if forall i :: 0 <= i < |es| ==> Undone(t, start, es, i) == start {
      assert Undone(t, start, es, n) == start;
      forall p | p in Tmps(t, es) + Finals(t, es[..n]) ensures p !in start { assert p !in Undone(t, start, es, n); }
    }
    if Tmps(t, es) + Finals(t, es[..n]) !! start.Keys {
      forall i | 0 <= i < |es| ensures Undone(t, start, es, i) == start {
        assert es[..i] == es[..n][..i];
        assert Finals(t, es[..i]) <= Finals(t, es[..n]);
      }
    }
  }

  /** What undoing the first i promotions leaves of the disk staging began with. */
  function Undone(t: Target, start: Disk, es: seq<Entry>, i: nat): Disk
    requires i <= |es|
  {
    start - (Tmps(t, es) + Finals(t, es[..i]))
  }

  /** It is what the undo computes: from the disk after i promotions, removing the promoted names and all
      temporaries. */
  lemma UndoneFromPromoted(t: Target, start: Disk, es: seq<Entry>, i: nat)
    requires i <= |es|
    ensures Promoted(t, Staged(t, start, es), es[..i]) - Finals(t, es[..i]) - Tmps(t, es[i..]) - Tmps(t, es) ==
            Undone(t, start, es, i)
  {
    StagedBeyond(t, start, es);
    PromotedBeyondAll(t, start, Staged(t, start, es), es, i);
    assert forall e :: e in es[i..] ==> e in es;
    var was := Promoted(t, Staged(t, start, es), es[..i]);
    UndoneIsDeleted(t, start, was, was - Finals(t, es[..i]) - Tmps(t, es[i..]) - Tmps(t, es), es, i);
  }

  /** An earlier backup of the same name is the price of a failure: "a" exists, "a" and "b" are unpacked,
      and the second rename fails. */
  lemma FailureDeletesEarlierBackup(t: Target, start: Disk, x: seq<Byte>, y: seq<Byte>)
    requires t.Final([97]) in start
    ensures t.Final([97]) !in Undone(t, start, [Entry([97], x), Entry([98], y)], 1)
  {
    var es := [Entry([97], x), Entry([98], y)];
    assert es[..1] == [es[0]] && es[0] in es[..1];
  }

  // ---- Obstacles ----

  predicate IsDir(disk: Disk, p: Path) { p in disk && disk[p].Directory? }

  /** A directory sits where an entry's file or its temporary should go. */
  ghost predicate DirInTheWay(t: Target, disk: Disk, es: seq<Entry>) {
    exists e :: e in es && (IsDir(disk, t.Tmp(e.name)) || IsDir(disk, t.Final(e.name)))
  }

  ghost predicate Obstructed(t: Target, disk: Disk, es: seq<Entry>) {
    || (t.dest in disk && disk[t.dest].File?)
    || DirInTheWay(t, WithDest(t, disk), es)
    || !DistinctFinals(t, es)
  }

  /** A directory at a temporary's name was there before staging began. */
  lemma TmpBlocked(t: Target, disk: Disk, staged: seq<Entry>, body: seq<Byte>, rest: seq<Byte>, e: Entry, used: nat)
    requires Reads(body, staged, rest) && NextEntry(rest) == Got(e, used)
    ensures IsDir(Staged(t, disk, staged), t.Tmp(e.name)) ==>
      ReadEntries(body).None? || DirInTheWay(t, disk, ReadEntries(body).value)
  {
    DirsAreOld(t, disk, staged, t.Tmp(e.name));
    var more := ReadEntries(rest[used..]);
    if more.Some? { assert e in staged + ([e] + more.value); }
  }

  lemma {:induction false} DirsAreOld(t: Target, disk: Disk, es: seq<Entry>, p: Path)
    ensures IsDir(Staged(t, disk, es), p) ==> IsDir(disk, p)
    ensures IsDir(Staged(t, disk, es), p) ==> p !in Tmps(t, es)
  {
    if es != [] {
      var n := |es| - 1;
      DirsAreOld(t, disk, es[..n], p);
      assert es == es[..n] + [es[n]];
      assert Tmps(t, es) == Tmps(t, es[..n]) + {t.Tmp(es[n].name)};
    }
  }

  lemma MovedDirs(disk: Disk, a: Path, b: Path, p: Path)
    requires !IsDir(disk, a)
    ensures IsDir(Moved(disk, a, b), p) ==> IsDir(disk, p)
  {
  }

  /** Promotion makes no directory out of a file. */
  lemma {:induction false} PromotedDirsAreOld(t: Target, disk: Disk, es: seq<Entry>, n: nat, p: Path)
    requires n <= |es|
    ensures IsDir(Promoted(t, Staged(t, disk, es), es[..n]), p) ==> IsDir(disk, p) && p !in Tmps(t, es)
  {
    hide Join, Staged, Moved, IsDir;
    if n == 0 {
      DirsAreOld(t, disk, es, p);
    } else {
      assert es[..n][..n - 1] == es[..n - 1];
      var e := es[n - 1];
      PromotedDirsAreOld(t, disk, es, n - 1, p);
      PromotedDirsAreOld(t, disk, es, n - 1, t.Tmp(e.name));
      TmpListed(t, es, e);
      MovedDirs(Promoted(t, Staged(t, disk, es), es[..n - 1]), t.Tmp(e.name), t.Final(e.name), p);
    }
  }

  /** With distinct destinations every temporary is still there when its turn comes. */
  lemma {:induction false} TmpStillThere(t: Target, disk: Disk, es: seq<Entry>, n: nat, i: nat)
    requires DistinctFinals(t, es) && n <= i < |es|
    ensures t.Tmp(es[i].name) in Promoted(t, Staged(t, disk, es), es[..n])
  {
    hide Join;
    if n == 0 {
      StagedAt(t, disk, es, |es|, i);
      assert es[..|es|] == es;
    } else {
      assert es[..n][..n - 1] == es[..n - 1];
      TmpStillThere(t, disk, es, n - 1, i);
      TmpsDistinct(t, es[n - 1].name, es[i].name);
    }
  }

  lemma PromotionPossible(t: Target, start: Disk, es: seq<Entry>, i: nat)
    requires i < |es|
    ensures var d := Promoted(t, Staged(t, start, es), es[..i]);
            t.Tmp(es[i].name) !in d || IsDir(d, t.Final(es[i].name)) ==>
              DirInTheWay(t, start, es) || !DistinctFinals(t, es)
  {
    hide Join;
    if DistinctFinals(t, es) { TmpStillThere(t, start, es, i, i); }
    PromotedDirsAreOld(t, start, es, i, t.Final(es[i].name));
  }

  lemma UndoneIsDeleted(t: Target, start: Disk, was: Disk, disk: Disk, es: seq<Entry>, i: nat)
    requires i <= |es| && SameBeyond(start, was, Tmps(t, es) + Finals(t, es[..i]))
    requires disk == was - Finals(t, es[..i]) - Tmps(t, es[i..]) - Tmps(t, es)
    requires forall e :: e in es[i..] ==> e in es
    ensures disk == start - (Tmps(t, es) + Finals(t, es[..i]))
  {
    assert Tmps(t, es[i..]) <= Tmps(t, es);
    assert disk.Keys == (start - (Tmps(t, es) + Finals(t, es[..i]))).Keys;
  }

  lemma TmpListed(t: Target, es: seq<Entry>, e: Entry)
    requires e in es
    ensures t.Tmp(e.name) in Tmps(t, es) && t.Final(e.name) in Finals(t, es)
  {
  }

  lemma FinalsNext(t: Target, es: seq<Entry>, i: nat)
    requires i < |es|
    ensures Finals(t, es[..i + 1]) == Finals(t, es[..i]) + {t.Final(es[i].name)}
  {
    assert es[..i + 1] == es[..i] + [es[i]];
  }

  lemma MovedBeyond(start: Disk, disk: Disk, a: Path, b: Path, paths: set<Path>)
    requires SameBeyond(start, disk, paths) && a in paths
    ensures SameBeyond(start, Moved(disk, a, b), paths + {b})
  {
  }

  /** One more promotion touches one more destination. */
  lemma PromotedBeyond(t: Target, start: Disk, disk: Disk, es: seq<Entry>, i: nat)
    requires i < |es| && SameBeyond(start, disk, Tmps(t, es) + Finals(t, es[..i]))
    ensures SameBeyond(start, Moved(disk, t.Tmp(es[i].name), t.Final(es[i].name)), Tmps(t, es) + Finals(t, es[..i + 1]))
  {
    TmpListed(t, es, es[i]);
    FinalsNext(t, es, i);
    var f := t.Final(es[i].name);
    assert Tmps(t, es) + Finals(t, es[..i]) + {f} == Tmps(t, es) + Finals(t, es[..i + 1]);
    MovedBeyond(start, disk, t.Tmp(es[i].name), f, Tmps(t, es) + Finals(t, es[..i]));
  }

  lemma AfterUnits(staged: seq<Entry>, r: Option<seq<Entry>>)
    ensures After([], r) == r && After(staged, Some([])) == Some(staged)
  {
    if r.Some? { assert [] + r.value == r.value; }
    assert staged + [] == staged;
  }

  /** Dropping the temporaries of a failed read takes away exactly what was opened. */
  lemma CleanedUp(t: Target, start: Disk, staged: seq<Entry>, torn: Option<Name>, disk: Disk)
    requires disk == Lacking(t, Staged(t, start, staged), torn) - Tmps(t, staged)
    ensures disk == start - OpenedBy(t, staged, torn)
  {
    StagedBeyond(t, start, staged);
    assert disk.Keys == (start - OpenedBy(t, staged, torn)).Keys;
  }

  /** Entries read so far, followed by what the rest of the stream reads as. */
  function After(staged: seq<Entry>, rest: Option<seq<Entry>>): (r: Option<seq<Entry>>) {
    match rest case None => None case Some(more) => Some(staged + more)
  }

  function Lacking(t: Target, disk: Disk, torn: Option<Name>): Disk {
    match torn case None => disk case Some(n) => disk - {t.Tmp(n)}
  }

  function FinalNames(t: Target, es: seq<Entry>): (r: seq<Path>) {
    if es == [] then [] else FinalNames(t, es[..|es| - 1]) + [t.Final(es[|es| - 1].name)]
  }

  /** os.MkdirAll on the destination directory. */
  function WithDest(t: Target, disk: Disk): Disk { if t.dest in disk then disk else disk[t.dest := Directory] }

  lemma StagedNext(t: Target, disk: Disk, es: seq<Entry>, e: Entry)
    ensures Staged(t, disk, es + [e]) == Staged(t, disk, es)[t.Tmp(e.name) := File(e.body)]
  {
    assert (es + [e])[..|es|] == es;
  }

  /** The body reads as the entries staged so far followed by what is left. */
  ghost predicate Reads(body: seq<Byte>, staged: seq<Entry>, rest: seq<Byte>) {
    ReadEntries(body) == After(staged, ReadEntries(rest))
  }

  lemma ReadsToEnd(body: seq<Byte>, staged: seq<Entry>, rest: seq<Byte>)
    requires Reads(body, staged, rest) && NextEntry(rest).End?
    ensures ReadEntries(body) == Some(staged)
  {
    AfterUnits(staged, None);
  }

  lemma ReadNext(body: seq<Byte>, rest: seq<Byte>, staged: seq<Entry>, e: Entry, used: nat)
    requires Reads(body, staged, rest) && NextEntry(rest) == Got(e, used)
    ensures Reads(body, staged + [e], rest[used..])
  {
    var more := ReadEntries(rest[used..]);
    if more.Some? {
      assert staged + ([e] + more.value) == (staged + [e]) + more.value;
    }
  }

  lemma {:induction false} StagedBeyond(t: Target, disk: Disk, es: seq<Entry>)
    ensures SameBeyond(disk, Staged(t, disk, es), Tmps(t, es))
  {
    if es != [] {
      var n := |es| - 1;
      StagedBeyond(t, disk, es[..n]);
      assert es == es[..n] + [es[n]];
      assert t.Tmp(es[n].name) in Tmps(t, es) && Tmps(t, es[..n]) <= Tmps(t, es);
    }
  }

  // ---- When a successful unpack really delivers ----

  ghost predicate DistinctFinals(t: Target, es: seq<Entry>) {
    forall i, j :: 0 <= i < j < |es| ==> t.Final(es[i].name) != t.Final(es[j].name)
  }

  /** Entry i's destination is the temporary of a later entry. */
  ghost predicate Clash(t: Target, es: seq<Entry>, i: nat, j: nat)
    requires i < |es| && j < |es|
  {
    i < j && t.Final(es[i].name) == t.Tmp(es[j].name)
  }

  ghost predicate NoClash(t: Target, es: seq<Entry>) {
    forall i, j :: 0 <= i < |es| && 0 <= j < |es| ==> !Clash(t, es, i, j)
  }

  /** Every entry's body is at its destination. */
  ghost predicate InPlace(t: Target, disk: Disk, es: seq<Entry>) {
    forall i :: 0 <= i < |es| ==> At(disk, t.Final(es[i].name), es[i].body)
  }

  ghost predicate At(disk: Disk, p: Path, body: seq<Byte>) { p in disk && disk[p] == File(body) }

  lemma TmpsDistinct(t: Target, a: Name, b: Name)
    ensures t.Tmp(a) == t.Tmp(b) ==> t.Final(a) == t.Final(b)
    ensures t.Tmp(a) != t.Final(a)
  {
    var x, y := t.Final(a), t.Final(b);
    if t.Tmp(a) == t.Tmp(b) {
      assert x == t.Tmp(a)[..|x|] && y == t.Tmp(b)[..|y|];
    }
  }

  /** Staging leaves every body under its temporary name. */
  lemma {:induction false} StagedAt(t: Target, disk: Disk, es: seq<Entry>, n: nat, i: nat)
    requires DistinctFinals(t, es) && i < n <= |es|
    ensures At(Staged(t, disk, es[..n]), t.Tmp(es[i].name), es[i].body)
  {
    hide Join;
    assert es[..n][..n - 1] == es[..n - 1];
    if i < n - 1 {
      StagedAt(t, disk, es, n - 1, i);
      TmpsDistinct(t, es[i].name, es[n - 1].name);
    }
  }

  /** After n promotions: the first n bodies at their destinations, the others still temporary. */
  ghost predicate Midway(t: Target, disk: Disk, es: seq<Entry>, n: nat)
    requires n <= |es|
  {
    && (forall i :: 0 <= i < n ==> At(disk, t.Final(es[i].name), es[i].body))
    && (forall i :: n <= i < |es| ==> At(disk, t.Tmp(es[i].name), es[i].body))
  }

  lemma MovedAt(disk: Disk, a: Path, b: Path, body: seq<Byte>)
    requires At(disk, a, body)
    ensures At(Moved(disk, a, b), b, body)
    ensures forall p, x :: p != a && p != b && At(disk, p, x) ==> At(Moved(disk, a, b), p, x)
  {
  }

  /** No earlier destination and no later temporary is touched by promotion n. */
  lemma PromotionApart(t: Target, es: seq<Entry>, n: nat, i: nat)
    requires DistinctFinals(t, es) && NoClash(t, es) && n < |es| && i < |es|
    ensures i < n ==> t.Final(es[i].name) != t.Tmp(es[n].name) && t.Final(es[i].name) != t.Final(es[n].name)
    ensures i > n ==> t.Tmp(es[i].name) != t.Tmp(es[n].name) && t.Tmp(es[i].name) != t.Final(es[n].name)
  {
    assert !Clash(t, es, i, n) && !Clash(t, es, n, i);
    TmpsDistinct(t, es[i].name, es[n].name);
  }

  lemma PromoteStep(t: Target, disk: Disk, es: seq<Entry>, n: nat)
    requires DistinctFinals(t, es) && NoClash(t, es) && n < |es| && Midway(t, disk, es, n)
    ensures Midway(t, Moved(disk, t.Tmp(es[n].name), t.Final(es[n].name)), es, n + 1)
  {
    hide Join;
    var a, b := t.Tmp(es[n].name), t.Final(es[n].name);
    MovedAt(disk, a, b, es[n].body);
    forall i | 0 <= i < n ensures At(Moved(disk, a, b), t.Final(es[i].name), es[i].body) {
      PromotionApart(t, es, n, i);
    }
    forall i | n < i < |es| ensures At(Moved(disk, a, b), t.Tmp(es[i].name), es[i].body) {
      PromotionApart(t, es, n, i);
    }
  }

  lemma {:induction false} PromotedMidway(t: Target, disk: Disk, es: seq<Entry>, n: nat)
    requires DistinctFinals(t, es) && NoClash(t, es) && n <= |es| && Midway(t, disk, es, 0)
    ensures Midway(t, Promoted(t, disk, es[..n]), es, n)
  {
    hide Join;
    if n > 0 {
      PromotedMidway(t, disk, es, n - 1);
      assert es[..n][..n - 1] == es[..n - 1];
      PromoteStep(t, Promoted(t, disk, es[..n - 1]), es, n - 1);
    }
  }

  /** A path that is neither destination nor present does not appear by promotion. */
  lemma {:induction false} StaysAbsent(t: Target, disk: Disk, es: seq<Entry>, m: nat, n: nat, p: Path)
    requires m <= n <= |es| && p !in Promoted(t, disk, es[..m])
    requires forall k :: m <= k < n ==> t.Final(es[k].name) != p
    ensures p !in Promoted(t, disk, es[..n])
  {
    hide Join, Moved, Promoted;
    if m < n {
      StaysAbsent(t, disk, es, m, n - 1, p);
      PromotedNext(t, disk, es, n - 1);
      MovedAbsent(Promoted(t, disk, es[..n - 1]), t.Tmp(es[n - 1].name), t.Final(es[n - 1].name), p);
    }
  }

  lemma PromotedNone(t: Target, disk: Disk)
    ensures Promoted(t, disk, []) == disk
  {
  }

  lemma PromotedNext(t: Target, disk: Disk, es: seq<Entry>, n: nat)
    requires n < |es|
    ensures Promoted(t, disk, es[..n + 1]) ==
            Moved(Promoted(t, disk, es[..n]), t.Tmp(es[n].name), t.Final(es[n].name))
  {
    assert es[..n + 1][..n] == es[..n];
  }

  lemma MovedAbsent(disk: Disk, a: Path, b: Path, p: Path)
    requires p !in disk && p != b
    ensures p !in Moved(disk, a, b)
  {
  }

  /** After its own promotion a temporary name is gone. */
  lemma TmpGone(t: Target, disk: Disk, es: seq<Entry>, j: nat)
    requires j < |es|
    ensures t.Tmp(es[j].name) !in Promoted(t, disk, es[..j + 1])
  {
    hide Join;
    assert es[..j + 1][..j] == es[..j];
    TmpsDistinct(t, es[j].name, es[j].name);
  }

  lemma NoClashDelivers(t: Target, disk: Disk, es: seq<Entry>)
    requires DistinctFinals(t, es) && NoClash(t, es)
    ensures InPlace(t, Promoted(t, Staged(t, disk, es), es), es)
  {
    var staged := Staged(t, disk, es);
    assert es[..|es|] == es;
    forall i | 0 <= i < |es| ensures At(staged, t.Tmp(es[i].name), es[i].body) { StagedAt(t, disk, es, |es|, i); }
    PromotedMidway(t, staged, es, |es|);
  }

  lemma ClashLoses(t: Target, disk: Disk, es: seq<Entry>, i: nat, j: nat)
    requires DistinctFinals(t, es) && i < |es| && j < |es| && Clash(t, es, i, j)
    ensures t.Final(es[i].name) !in Promoted(t, disk, es)
  {
    hide Join, Promoted;
    assert es[..|es|] == es;
    TmpGone(t, disk, es, j);
    StaysAbsent(t, disk, es, j + 1, |es|, t.Final(es[i].name));
  }

  /** Every rename found its temporary: what a successful promotion shows. */
  ghost predicate Succeeds(t: Target, disk: Disk, es: seq<Entry>) {
    forall i :: 0 <= i < |es| ==> t.Tmp(es[i].name) in Promoted(t, disk, es[..i])
  }

  lemma DistinctSucceeds(t: Target, disk: Disk, es: seq<Entry>)
    requires DistinctFinals(t, es)
    ensures Succeeds(t, Staged(t, disk, es), es)
  {
    forall i | 0 <= i < |es| ensures t.Tmp(es[i].name) in Promoted(t, Staged(t, disk, es), es[..i]) {
      TmpStillThere(t, disk, es, i, i);
    }
  }

  /** A path that is there after n promotions but not after m was a destination in between. */
  lemma CameAsDestination(t: Target, disk: Disk, es: seq<Entry>, m: nat, n: nat, p: Path) returns (k: nat)
    requires m <= n <= |es| && p !in Promoted(t, disk, es[..m]) && p in Promoted(t, disk, es[..n])
    ensures m <= k < n && t.Final(es[k].name) == p
  {
    hide Join, Promoted;
    if forall k :: m <= k < n ==> t.Final(es[k].name) != p { StaysAbsent(t, disk, es, m, n, p); }
    k :| m <= k < n && t.Final(es[k].name) == p;
  }

  /** Two entries with one destination: the second rename finds its temporary only because an entry in between
      was promoted to that name. */
  lemma DuplicateHasClash(t: Target, disk: Disk, es: seq<Entry>, i: nat, k: nat) returns (m: nat)
    requires Succeeds(t, disk, es) && i < k < |es| && t.Final(es[i].name) == t.Final(es[k].name)
    ensures i < m < k && t.Final(es[m].name) == t.Tmp(es[k].name)
  {
    hide Join, Promoted;
    TmpGone(t, disk, es, i);
    assert t.Tmp(es[i].name) == t.Tmp(es[k].name);
    m := CameAsDestination(t, disk, es, i + 1, k, t.Tmp(es[k].name));
  }

  lemma DuplicateBreaksNoClash(t: Target, disk: Disk, es: seq<Entry>, i: nat, k: nat)
    requires Succeeds(t, disk, es) && i < k < |es| && t.Final(es[i].name) == t.Final(es[k].name)
    ensures !NoClash(t, es)
  {
    hide Join, Succeeds;
    var m := DuplicateHasClash(t, disk, es, i, k);
    assert Clash(t, es, m, k);
  }

  function Lengths(t: Target, es: seq<Entry>): (r: seq<nat>)
    ensures |r| == |es| && forall i :: 0 <= i < |es| ==> r[i] == |t.Final(es[i].name)|
  {
    seq(|es|, i requires 0 <= i < |es| => |t.Final(es[i].name)|)
  }

  function Longest(lengths: seq<nat>): (r: nat)
    ensures forall i :: 0 <= i < |lengths| ==> lengths[i] <= r
  {
    if lengths == [] then 0
    else
      var n := |lengths| - 1;
      var r := Longest(lengths[..n]);
      if lengths[n] > r then lengths[n] else r
  }

  /** If two entries have one destination, not every body is in place: from such a pair follows another, for a
      destination that is longer by ".tmp", and so on until one is missing. */
  lemma {:induction false} DuplicateNotInPlace(t: Target, disk: Disk, es: seq<Entry>, i: nat, k: nat)
    requires Succeeds(t, disk, es) && i < k < |es| && t.Final(es[i].name) == t.Final(es[k].name)
    ensures !InPlace(t, Promoted(t, disk, es), es)
    decreases Longest(Lengths(t, es)) - Lengths(t, es)[i]
  {
    hide Join, Promoted, Longest, Lengths, Succeeds;
    var m := DuplicateHasClash(t, disk, es, i, k);
    var p := t.Tmp(es[k].name);
    assert es[..|es|] == es && Lengths(t, es)[m] > Lengths(t, es)[i];
    TmpGone(t, disk, es, k);
    if p in Promoted(t, disk, es) {
      var m' := CameAsDestination(t, disk, es, k + 1, |es|, p);
      DuplicateNotInPlace(t, disk, es, m, m');
    } else {
      assert !At(Promoted(t, disk, es), t.Final(es[m].name), es[m].body);
    }
  }

  lemma ClashNotInPlace(t: Target, disk: Disk, es: seq<Entry>)
    requires Succeeds(t, disk, es) && !NoClash(t, es)
    ensures !InPlace(t, Promoted(t, disk, es), es)
  {
    hide Join, Promoted, Succeeds;
    if i, k :| 0 <= i < k < |es| && t.Final(es[i].name) == t.Final(es[k].name) {
      DuplicateNotInPlace(t, disk, es, i, k);
    } else {
      var i, j :| 0 <= i < |es| && 0 <= j < |es| && Clash(t, es, i, j);
      ClashLoses(t, disk, es, i, j);
      assert !At(Promoted(t, disk, es), t.Final(es[i].name), es[i].body);
    }
  }

  lemma NoClashIsDistinct(t: Target, disk: Disk, es: seq<Entry>)
    requires Succeeds(t, disk, es) && NoClash(t, es)
    ensures DistinctFinals(t, es)
  {
    hide Join, Succeeds, NoClash;
    forall i, k | 0 <= i < k < |es| ensures t.Final(es[i].name) != t.Final(es[k].name) {
      if t.Final(es[i].name) == t.Final(es[k].name) { DuplicateBreaksNoClash(t, disk, es, i, k); }
    }
  }

  /** Exactly when unpacking delivers: after any successful promotion, also of entries whose destinations
      coincide, every body is at its destination if and only if no entry's destination is the temporary name of
      a later entry. */
  lemma DeliversIffNoClash(t: Target, disk: Disk, es: seq<Entry>)
    requires Succeeds(t, Staged(t, disk, es), es)
    ensures InPlace(t, Promoted(t, Staged(t, disk, es), es), es) <==> NoClash(t, es)
  {
    hide Join, Promoted, Staged, Succeeds, InPlace, NoClash;
    var staged := Staged(t, disk, es);
    if NoClash(t, es) {
      NoClashIsDistinct(t, staged, es);
      NoClashDelivers(t, disk, es);
    } else {
      ClashNotInPlace(t, staged, es);
    }
  }

  lemma PlainFinal(t: Target, name: Name)
    requires PlainName(name)
    ensures t.Final(name) == t.dest + [SLASH] + name && t.Tmp(name) == t.dest + [SLASH] + (name + [DOT, 116, 109, 112])
  {
    PlainIsBase(name);
  }

  /** Names of a proper bundle: plain and pairwise distinct. */
  ghost predicate ProperNames(es: seq<Entry>) {
    && (forall i :: 0 <= i < |es| ==> PlainName(es[i].name))
    && (forall i, j :: 0 <= i < j < |es| ==> es[i].name != es[j].name)
  }

  /** No entry is called like a later one with ".tmp" appended. */
  ghost predicate NoTmpNames(es: seq<Entry>) {
    forall i, j :: 0 <= i < j < |es| ==> es[i].name != es[j].name + [DOT, 116, 109, 112]
  }

  lemma PlainTails(t: Target, a: Name, b: Name)
    requires PlainName(a) && PlainName(b)
    ensures t.Final(a) == t.Final(b) <==> a == b
    ensures t.Final(a) == t.Tmp(b) <==> a == b + [DOT, 116, 109, 112]
  {
    PlainFinal(t, a);
    PlainFinal(t, b);
    var d := |t.dest| + 1;
    assert t.Final(a)[d..] == a && t.Final(b)[d..] == b && t.Tmp(b)[d..] == b + [DOT, 116, 109, 112];
  }

  lemma ProperIsDistinct(t: Target, es: seq<Entry>)
    requires ProperNames(es)
    ensures DistinctFinals(t, es)
  {
    forall i, j | 0 <= i < j < |es| ensures t.Final(es[i].name) != t.Final(es[j].name) {
      PlainTails(t, es[i].name, es[j].name);
    }
  }

  lemma ProperClash(t: Target, es: seq<Entry>)
    requires ProperNames(es)
    ensures NoClash(t, es) <==> NoTmpNames(es)
  {
    forall i, j | 0 <= i < |es| && 0 <= j < |es|
      ensures Clash(t, es, i, j) <==> i < j && es[i].name == es[j].name + [DOT, 116, 109, 112]
    {
      PlainTails(t, es[i].name, es[j].name);
    }
  }

  /** The bundle round trip on disk: the encoded entries come out at their destinations exactly when no
      name is that of a later entry with ".tmp" appended. */
  lemma BundleRoundTrip(t: Target, disk: Disk, es: seq<Entry>)
    requires AllEncodable(es) && ProperNames(es)
    ensures Unbundle(Encode(es)) == Some(es)
    ensures InPlace(t, Promoted(t, Staged(t, disk, es), es), es) <==> NoTmpNames(es)
  {
    UnbundleEncode(es);
    ProperIsDistinct(t, es);
    ProperClash(t, es);
    DistinctSucceeds(t, disk, es);
    DeliversIffNoClash(t, disk, es);
  }

  lemma {:induction false} PromotedBeyondAll(t: Target, start: Disk, disk: Disk, es: seq<Entry>, n: nat)
    requires n <= |es| && SameBeyond(start, disk, Tmps(t, es))
    ensures SameBeyond(start, Promoted(t, disk, es[..n]), Tmps(t, es) + Finals(t, es[..n]))
  {
    if n > 0 {
      PromotedBeyondAll(t, start, disk, es, n - 1);
      assert es[..n][..n - 1] == es[..n - 1];
      PromotedBeyond(t, start, Promoted(t, disk, es[..n - 1]), es, n - 1);
    }
  }

  /** A successful unpack touches destinations and temporaries only. */
  lemma UnpackTouchesOnly(t: Target, disk: Disk, es: seq<Entry>)
    ensures SameBeyond(disk, Promoted(t, Staged(t, disk, es), es), Tmps(t, es) + Finals(t, es))
  {
    StagedBeyond(t, disk, es);
    PromotedBeyondAll(t, disk, Staged(t, disk, es), es, |es|);
    assert es[..|es|] == es;
  }

  /** ... and leaves no temporary behind, except where that name is itself a destination. */
  lemma NoTmpLeft(t: Target, disk: Disk, es: seq<Entry>, j: nat)
    requires j < |es| && t.Tmp(es[j].name) !in Finals(t, es)
    ensures t.Tmp(es[j].name) !in Promoted(t, disk, es)
  {
    assert es[..|es|] == es;
    TmpGone(t, disk, es, j);
    forall k | j + 1 <= k < |es| ensures t.Final(es[k].name) != t.Tmp(es[j].name) {
      TmpListed(t, es, es[k]);
    }
    StaysAbsent(t, disk, es, j + 1, |es|, t.Tmp(es[j].name));
  }

  /** The two-entry bundle for which unpacking succeeds and yet loses an entry: "a.tmp", then "a". */
  lemma TmpNameFirstLosesIt(t: Target, disk: Disk, x: seq<Byte>, y: seq<Byte>)
    ensures var es := [Entry([97, DOT, 116, 109, 112], x), Entry([97], y)];
            DistinctFinals(t, es) && !InPlace(t, Promoted(t, Staged(t, disk, es), es), es)
  {
    var a, b := Entry([97, DOT, 116, 109, 112], x), Entry([97], y);
    var es := [a, b];
    PlainFinal(t, a.name);
    PlainFinal(t, b.name);
    assert [97] + [DOT, 116, 109, 112] == a.name;
    assert t.Final(a.name)[|t.dest| + 1..] == a.name && t.Final(b.name)[|t.dest| + 1..] == b.name;
    assert Clash(t, es, 0, 1);
    hide Join, Promoted, Staged;
    DistinctSucceeds(t, disk, es);
    DeliversIffNoClash(t, disk, es);
  }
}

/** Enrolment slots: a server's single collector slot, and a collector's single master slot together with
    its list of realm servers. Each transition is one locked read-modify-write of the configuration, whose
    save may fail and then changes nothing. */
module Enrolment {

  /** Who holds the slot ("" for nobody) and whether the operator has opened it for one enrolment. */
  datatype Slot = Slot(cn: string, pending: bool)

  const EmptySlot := Slot("", false)

  datatype Answer = Added | Unchanged | Taken | Closed | MasterPaired | SaveFailed | Refused | Done

  /** assignCollectorCNToConfig and assignCollectorMasterCN: check and claim in one step. */
  function Assign(s: Slot, cn: string, saved: bool): (r: (Slot, Answer)) {
    if s.cn != "" && s.cn != cn then (s, Taken)
    else if s.cn == "" && !s.pending then (s, Closed)
    else if s.cn == cn then (if saved then s.(pending := false) else s, Unchanged)
    else if saved then (Slot(cn, false), Added)
    else (s, SaveFailed)
  }

  /** accept-next: refused while the slot is held; opening an open slot is a no-op. */
  function AcceptNext(s: Slot, saved: bool): (r: (Slot, Answer)) {
    if s.cn != "" then (s, Refused)
    else if s.pending then (s, Done)
    else if saved then (s.(pending := true), Done)
    else (s, SaveFailed)
  }

  /** revoke, and on the collector also disable: clears both fields. */
  function Revoke(s: Slot, saved: bool): (r: (Slot, Answer)) {
    if saved then (EmptySlot, Done) else (s, SaveFailed)
  }

  /** clearCollectorCNFromConfig: a departing collector frees the slot it holds, and no other. */
  function Depart(s: Slot, cn: string, saved: bool): (r: (Slot, Answer)) {
    if s.cn != cn then (s, Done)
    else if saved then (s.(cn := ""), Done)
    else (s, SaveFailed)
  }

  // ---- The server's configuration ----

  datatype SlotAction = Enrol(cn: string) | Open | Clear | Leave(cn: string)

  function React(s: Slot, a: SlotAction, saved: bool): (r: (Slot, Answer)) {
    match a
    case Enrol(cn) => Assign(s, cn, saved)
    case Open => AcceptNext(s, saved)
    case Clear => Revoke(s, saved)
    case Leave(cn) => Depart(s, cn, saved)
  }

  class ServerConfig {
    var collectorCN: string
    var collectorPending: bool

    constructor ()
      ensures Value() == EmptySlot
    {
      collectorCN, collectorPending := "", false;
    }

    ghost function Value(): Slot
      reads this
    {
      Slot(collectorCN, collectorPending)
    }

    method AssignCollector(cn: string, saved: bool) returns (answer: Answer)
      modifies this
      ensures (Value(), answer) == Assign(old(Value()), cn, saved)
    {
      if collectorCN != "" && collectorCN != cn { return Taken; }
      if collectorCN == "" && !collectorPending { return Closed; }
      if collectorCN == cn {
        if saved { collectorPending := false; }
        return Unchanged;
      }
      if !saved { return SaveFailed; }
      collectorCN, collectorPending := cn, false;
      return Added;
    }

    method AcceptNextCollector(saved: bool) returns (answer: Answer)
      modifies this
      ensures (Value(), answer) == AcceptNext(old(Value()), saved)
    {
      if collectorCN != "" { return Refused; }
      if collectorPending { return Done; }
      if !saved { return SaveFailed; }
      collectorPending := true;
      return Done;
    }

    method RevokeCollector(saved: bool) returns (answer: Answer)
      modifies this
      ensures (Value(), answer) == Revoke(old(Value()), saved)
    {
      if !saved { return SaveFailed; }
      collectorCN, collectorPending := "", false;
      return Done;
    }

    method ClearCollectorCN(cn: string, saved: bool) returns (answer: Answer)
      modifies this
      ensures (Value(), answer) == Depart(old(Value()), cn, saved)
    {
      if collectorCN != cn { return Done; }
      if !saved { return SaveFailed; }
      collectorCN := "";
      return Done;
    }
  }

  // ---- Every interleaving on one slot ----

  /** A slot with the number of enrolments that filled it and of openings by an operator so far. */
  datatype Tracked = Tracked(slot: Slot, fills: nat, openings: nat)

  function Track(t: Tracked, a: SlotAction, saved: bool): (r: Tracked) {
    var (slot, answer) := React(t.slot, a, saved);
    Tracked(slot,
            t.fills + (if answer == Added then 1 else 0),
            t.openings + (if !t.slot.pending && slot.pending then 1 else 0))
  }

  function TrackAll(t: Tracked, acts: seq<(SlotAction, bool)>): (r: Tracked) {
    if acts == [] then t
    else Track(TrackAll(t, acts[..|acts| - 1]), acts[|acts| - 1].0, acts[|acts| - 1].1)
  }

  ghost predicate Exclusive(s: Slot) { s.cn == "" || !s.pending }

  /** Over every interleaving of enrolment, accept-next, revoke, disable and departure: the slot is never
      both held and open, and it has been filled at most once per opening. */
  lemma {:induction false} SlotIsOneShot(acts: seq<(SlotAction, bool)>)
    ensures var t := TrackAll(Tracked(EmptySlot, 0, 0), acts);
            && Exclusive(t.slot)
            && t.fills + (if t.slot.pending then 1 else 0) <= t.openings
  {
    if acts != [] { SlotIsOneShot(acts[..|acts| - 1]); }
  }

  /** No step hands the slot from one holder to another: it is vacated in between. */
  lemma NoDirectHandover(s: Slot, a: SlotAction, saved: bool)
    ensures var s' := React(s, a, saved).0;
            s.cn != "" && s'.cn != "" ==> s'.cn == s.cn
  {
  }

  /** A filled slot was open, and its holder is the one that asked. */
  lemma FillNeedsOpening(s: Slot, a: SlotAction, saved: bool)
    ensures var (s', answer) := React(s, a, saved);
            && (s.cn != s'.cn && s'.cn != "" ==> s.pending && !s'.pending && a == Enrol(s'.cn) && answer == Added)
            && (answer == Added ==> s.cn == "" && s'.cn != "")
  {
  }

  /** Between two different holders the slot was empty at some point of the run. */
  lemma {:induction false} HoldersAreSeparated(t: Tracked, acts: seq<(SlotAction, bool)>)
    requires t.slot.cn != "" && TrackAll(t, acts).slot.cn != "" && TrackAll(t, acts).slot.cn != t.slot.cn
    ensures exists k :: 0 <= k < |acts| && TrackAll(t, acts[..k]).slot.cn == ""
  {
    var n := |acts| - 1;
    var mid := TrackAll(t, acts[..n]).slot;
    NoDirectHandover(mid, acts[n].0, acts[n].1);
    if mid.cn != "" {
      HoldersAreSeparated(t, acts[..n]);
      var k :| 0 <= k < n && TrackAll(t, acts[..n][..k]).slot.cn == "";
      assert acts[..n][..k] == acts[..k];
    }
  }

  /** Which answer a party gets, for every slot: exactly these cases. */
  lemma AnswersExactly(s: Slot, cn: string, saved: bool)
    requires cn != ""
    ensures var (s', answer) := Assign(s, cn, saved);
            && (answer == Taken <==> s.cn != "" && s.cn != cn)
            && (answer == Closed <==> s.cn == "" && !s.pending)
            && (answer == Unchanged <==> s.cn == cn)
            && (answer == Added <==> s.cn == "" && s.pending && saved)
            && (answer == SaveFailed <==> s.cn == "" && s.pending && !saved)
            && (s'.cn == if answer == Added then cn else s.cn)
  {
  }

  /** What each operator action and each departure achieves: a saved revoke leaves the slot empty and closed,
      a saved accept-next on a free slot leaves it open, a holder that leaves frees the slot, nobody else does,
      and whatever is not saved changes nothing. */
  lemma ActionsAchieve(s: Slot, a: SlotAction, saved: bool)
    ensures !saved ==> React(s, a, saved).0 == s
    ensures saved ==> React(s, Clear, saved) == (Slot("", false), Done)
    ensures saved && s.cn == "" ==> React(s, Open, saved) == (Slot("", true), Done)
    ensures s.cn != "" ==> React(s, Open, saved) == (s, Refused)
    ensures forall cn :: cn != s.cn ==> React(s, Leave(cn), saved) == (s, Done)
    ensures saved ==> React(s, Leave(s.cn), saved) == (s.(cn := ""), Done)
  {
  }

  /** Enrolment attempts, each with the outcome of its save. */
  function Asks(cns: seq<string>, saves: seq<bool>): (r: seq<(SlotAction, bool)>)
    requires |cns| == |saves|
    ensures |r| == |cns|
  {
    seq(|cns|, i requires 0 <= i < |cns| => (Enrol(cns[i]), saves[i]))
  }

  /** An open slot goes to the first party that asks and whose enrolment is saved; it keeps the slot however
      many ask afterwards, and each of the others is turned away. */
  lemma {:induction false} FirstToAskHolds(t: Tracked, cns: seq<string>, saves: seq<bool>, first: nat)
    requires t.slot == Slot("", true) && |cns| == |saves| && first < |cns| && saves[first]
    requires (forall i :: 0 <= i < |cns| ==> cns[i] != "") && (forall i :: 0 <= i < first ==> !saves[i])
    ensures TrackAll(t, Asks(cns, saves)) == Tracked(Slot(cns[first], false), t.fills + 1, t.openings)
    ensures forall i :: 0 <= i < |cns| && cns[i] != cns[first] ==>
      Assign(Slot(cns[first], false), cns[i], saves[i]) == (Slot(cns[first], false), Taken)
  {
    var n := |cns| - 1;
    var acts := Asks(cns, saves);
    assert acts[..n] == Asks(cns[..n], saves[..n]);
    if first < n {
      FirstToAskHolds(t, cns[..n], saves[..n], first);
    } else {
      UnsavedKeepOpen(t, cns[..n], saves[..n]);
    }
  }

  lemma {:induction false} UnsavedKeepOpen(t: Tracked, cns: seq<string>, saves: seq<bool>)
    requires t.slot == Slot("", true) && |cns| == |saves|
    requires forall i :: 0 <= i < |cns| ==> cns[i] != "" && !saves[i]
    ensures TrackAll(t, Asks(cns, saves)) == t
  {
    if cns != [] {
      var n := |cns| - 1;
      assert Asks(cns, saves)[..n] == Asks(cns[..n], saves[..n]);
      UnsavedKeepOpen(t, cns[..n], saves[..n]);
    }
  }

  // ---- The collector's configuration ----

  datatype Collector = Collector(master: Slot, servers: seq<string>, open: bool)

  datatype CollectorAction =
    | Master(act: SlotAction)
    | EnrolServer(cn: string)
    | OpenServers
    | RevokeServer(cn: string)

  function Without(list: seq<string>, cn: string): (r: seq<string>)
    ensures cn !in r && (forall x :: x in r <==> x in list && x != cn) && |r| <= |list|
  {
    if list == [] then []
    else
      var rest := Without(list[1..], cn);
      assert list == [list[0]] + list[1..];
      if list[0] == cn then rest else [list[0]] + rest
  }

  lemma WithoutStep(list: seq<string>, i: nat, cn: string, kept: seq<string>)
    requires i < |list| && kept + Without(list[i..], cn) == Without(list, cn)
    ensures (if list[i] == cn then kept else kept + [list[i]]) + Without(list[i + 1..], cn) == Without(list, cn)
  {
    assert list[i..][0] == list[i] && list[i..][1..] == list[i + 1..];
    assert kept + ([list[i]] + Without(list[i + 1..], cn)) == kept + [list[i]] + Without(list[i + 1..], cn);
  }

  function Decide(c: Collector, a: CollectorAction, saved: bool): (r: (Collector, Answer)) {
    match a
    case Master(act) => var (slot, answer) := React(c.master, act, saved); (c.(master := slot), answer)
    case EnrolServer(cn) =>
      if c.master.cn != "" then (c, MasterPaired)
      else if cn in c.servers then (c, Unchanged)
      else if !c.open then (c, Closed)
      else if saved then (c.(servers := c.servers + [cn], open := false), Added)
      else (c, SaveFailed)
    case OpenServers =>
      if c.master.cn != "" then (c, Refused)
      else if saved then (c.(open := true), Done)
      else (c, SaveFailed)
    case RevokeServer(cn) =>
      if cn !in c.servers then (c, Refused)
      else if saved then (c.(servers := Without(c.servers, cn)), Done)
      else (c, SaveFailed)
  }

  class CollectorConfig {
    var master: Slot
    var servers: seq<string>
    var open: bool

    constructor ()
      ensures Value() == Collector(EmptySlot, [], false)
    {
      master, servers, open := EmptySlot, [], false;
    }

    ghost function Value(): Collector
      reads this
    {
      Collector(master, servers, open)
    }

    method AssignRealmServer(cn: string, saved: bool) returns (answer: Answer)
      modifies this
      ensures (Value(), answer) == Decide(old(Value()), EnrolServer(cn), saved)
    {
      if master.cn != "" { return MasterPaired; }
      for i := 0 to |servers|
        invariant servers == old(servers) && open == old(open) && master == old(master)
        invariant cn !in servers[..i]
      {
        if servers[i] == cn { return Unchanged; }
      }
      if !open { return Closed; }
      if !saved { return SaveFailed; }
      servers, open := servers + [cn], false;
      return Added;
    }

    method AcceptNextRealmServer(saved: bool) returns (answer: Answer)
      modifies this
      ensures (Value(), answer) == Decide(old(Value()), OpenServers, saved)
    {
      if master.cn != "" { return Refused; }
      if !saved { return SaveFailed; }
      open := true;
      return Done;
    }

    method RevokeRealmServer(cn: string, saved: bool) returns (answer: Answer)
      modifies this
      ensures (Value(), answer) == Decide(old(Value()), RevokeServer(cn), saved)
    {
      var kept, removed := [], false;
      for i := 0 to |servers|
        invariant servers == old(servers) && open == old(open) && master == old(master)
        invariant kept + Without(servers[i..], cn) == Without(servers, cn)
        invariant removed <==> cn in servers[..i]
      {
        WithoutStep(servers, i, cn, kept);
        if servers[i] == cn { removed := true; } else { kept := kept + [servers[i]]; }
      }
      assert servers[..|servers|] == servers && servers[|servers|..] == [] && kept + [] == kept;
      if !removed { return Refused; }
      if !saved { return SaveFailed; }
      servers := kept;
      return Done;
    }

    method AssignMaster(cn: string, saved: bool) returns (answer: Answer)
      modifies this`master
      ensures (master, answer) == Assign(old(master), cn, saved)
    {
      if master.cn != "" && master.cn != cn { return Taken; }
      if master.cn == "" && !master.pending { return Closed; }
      if master.cn == cn {
        if saved { master := Slot(master.cn, false); }
        return Unchanged;
      }
      if !saved { return SaveFailed; }
      master := Slot(cn, false);
      return Added;
    }

    method AcceptNextMaster(saved: bool) returns (answer: Answer)
      modifies this`master
      ensures (master, answer) == AcceptNext(old(master), saved)
    {
      if master.cn != "" { return Refused; }
      if master.pending { return Done; }
      if !saved { return SaveFailed; }
      master := Slot(master.cn, true);
      return Done;
    }

    /** Revoking the master, and disabling the listener, which clears the same two fields. */
    method RevokeMaster(saved: bool) returns (answer: Answer)
      modifies this`master
      ensures (master, answer) == Revoke(old(master), saved)
    {
      if !saved { return SaveFailed; }
      master := Slot("", false);
      return Done;
    }
  }

  /** A collector with the realm servers added and the accept-next calls made so far. */
  datatype Watched = Watched(c: Collector, added: nat, accepted: nat)

  function Watch(w: Watched, a: CollectorAction, saved: bool): (r: Watched) {
    var (c, answer) := Decide(w.c, a, saved);
    Watched(c,
            w.added + (if a.EnrolServer? && answer == Added then 1 else 0),
            w.accepted + (if a.OpenServers? && answer == Done then 1 else 0))
  }

  function WatchAll(w: Watched, acts: seq<(CollectorAction, bool)>): (r: Watched) {
    if acts == [] then w
    else Watch(WatchAll(w, acts[..|acts| - 1]), acts[|acts| - 1].0, acts[|acts| - 1].1)
  }

  ghost predicate NoDuplicates(list: seq<string>) {
    forall i, j :: 0 <= i < j < |list| ==> list[i] != list[j]
  }

  lemma {:induction false} WithoutKeepsDistinct(list: seq<string>, cn: string)
    requires NoDuplicates(list)
    ensures NoDuplicates(Without(list, cn))
  {
    if list != [] {
      var rest := Without(list[1..], cn);
      WithoutKeepsDistinct(list[1..], cn);
      assert list[0] !in list[1..];
      assert forall i :: 0 <= i < |rest| ==> rest[i] in rest;
    }
  }

  /** Over every interleaving of realm-server and master actions: the list has no duplicates, additions
      never outnumber accept-next calls, and the master slot stays exclusive. */
  lemma {:induction false} RealmServersAreGated(acts: seq<(CollectorAction, bool)>)
    ensures var w := WatchAll(Watched(Collector(EmptySlot, [], false), 0, 0), acts);
            && NoDuplicates(w.c.servers) && Exclusive(w.c.master)
            && w.added + (if w.c.open then 1 else 0) <= w.accepted
            && |w.c.servers| <= w.added
  {
    if acts != [] {
      var n := |acts| - 1;
      RealmServersAreGated(acts[..n]);
      var w := WatchAll(Watched(Collector(EmptySlot, [], false), 0, 0), acts[..n]);
      match acts[n].0
      case RevokeServer(cn) => WithoutKeepsDistinct(w.c.servers, cn);
      case _ =>
    }
  }

  /** The list grows only by an enrolment that found the slot open and no master paired, and by one entry. */
  lemma ListGrowth(c: Collector, a: CollectorAction, saved: bool)
    ensures var c' := Decide(c, a, saved).0;
            |c'.servers| > |c.servers| ==>
              c.master.cn == "" && c.open && !c'.open && a.EnrolServer? && c'.servers == c.servers + [a.cn]
  {
  }

  /** Which answer a realm server gets, for every collector, and that each answer means what it says. */
  lemma ServerAnswersExactly(c: Collector, cn: string, saved: bool)
    ensures var (c', answer) := Decide(c, EnrolServer(cn), saved);
            && (answer == MasterPaired <==> c.master.cn != "")
            && (answer == Unchanged <==> c.master.cn == "" && cn in c.servers)
            && (answer == Closed <==> c.master.cn == "" && cn !in c.servers && !c.open)
            && (answer == Added <==> c.master.cn == "" && cn !in c.servers && c.open && saved)
            && (answer == SaveFailed <==> c.master.cn == "" && cn !in c.servers && c.open && !saved)
            && (answer == Added ==> c' == c.(servers := c.servers + [cn], open := false))
            && (answer != Added ==> c' == c)
  {
  }

  /** A server that enrols, is revoked and asks again: it gets in, it is out, and it needs a new opening. */
  lemma ServerComesAndGoes(c: Collector, cn: string)
    requires c.master.cn == "" && cn !in c.servers
    ensures var ready := Decide(c, OpenServers, true).0;
            var joined := Decide(ready, EnrolServer(cn), true);
            var left := Decide(joined.0, RevokeServer(cn), true);
            && joined == (Collector(c.master, c.servers + [cn], false), Added)
            && left == (Collector(c.master, c.servers, false), Done)
            && Decide(left.0, EnrolServer(cn), true) == (left.0, Closed)
  {
    WithoutLast(c.servers, cn);
  }

  lemma {:induction false} WithoutLast(list: seq<string>, cn: string)
    requires cn !in list
    ensures Without(list + [cn], cn) == list
  {
    if list == [] {
      assert (list + [cn])[1..] == [];
    } else {
      assert (list + [cn])[1..] == list[1..] + [cn] && list[0] in list;
      WithoutLast(list[1..], cn);
      assert [list[0]] + list[1..] == list;
    }
  }
}

/** Ordered-sequence rules: one in-flight sequence per group key, restarted by every step-0 match. */
module Sequences {

  import opened KeyedRuns
  import opened Matchers

  /** At least two steps, as rule parsing insists; the window runs from the first step's match. */
  datatype Plan = Plan(steps: nat, within: int) {
    predicate Valid() { steps >= 2 }
  }

  /** What a rule sees of an event: which steps it matches, and when. */
  datatype Sighting = Sighting(hits: seq<bool>, now: int)

  predicate Hit(e: Sighting, step: nat) { step < |e.hits| && e.hits[step] }

  /** No sequence in flight, or the index of the last matched step and the time of the first. */
  datatype Progress = Waiting | At(step: nat, start: int)

  function Unexpired(plan: Plan, p: Progress, now: int): (r: Progress) {
    if p.At? && now - p.start > plan.within then Waiting else p
  }

  /** One event of a key: a step-0 match starts over, the next expected step advances, the last one fires. */
  function Advance(plan: Plan, p: Progress, e: Sighting): (r: (Progress, bool)) {
    var live := Unexpired(plan, p, e.now);
    if plan.steps > 0 && Hit(e, 0) then (At(0, e.now), false)
    else if live.At? && live.step + 1 < plan.steps && Hit(e, live.step + 1) then
      if live.step + 1 == plan.steps - 1 then (Waiting, true) else (At(live.step + 1, live.start), false)
    else (live, false)
  }

  function Advancing(plan: Plan): Reaction<Progress, Sighting> {
    (p, e) => Advance(plan, p, e)
  }

  // ---- The rule object ----

  datatype SequenceRule = SequenceRule(steps: seq<map<string, Matcher>>, within: int, groupBy: string) {
    function AsPlan(): Plan { Plan(|steps|, within) }
  }

  /** Which steps of the rule an event matches. */
  function SightingOf(env: Env, rule: SequenceRule, logType: string, event: Event, now: int): (r: Sighting)
    ensures r.now == now
    ensures forall i: nat :: Hit(r, i) <==> i < |rule.steps| && MatchAll(env, rule.steps[i], logType, event)
  {
    Sighting(seq(|rule.steps|, i requires 0 <= i < |rule.steps| => MatchAll(env, rule.steps[i], logType, event)), now)
  }

  class SequenceTracker {
    const rule: SequenceRule
    var state: map<string, (nat, int)>

    constructor (rule: SequenceRule)
      ensures this.rule == rule && state == map[]
    {
      this.rule, state := rule, map[];
    }

    ghost function View(k: string): Progress
      reads this
    {
      if k in state then At(state[k].0, state[k].1) else Waiting
    }

    /** The search over steps: step 0, or the step after the one in flight, whichever comes first. */
    method Step(key: string, e: Sighting) returns (fire: bool)
      modifies this
      ensures (View(key), fire) == Advance(rule.AsPlan(), old(View(key)), e)
      ensures forall k :: k != key ==> View(k) == old(View(k))
    {
      if key in state && e.now - state[key].1 > rule.within {
        state := state - {key};
      }
      ghost var live := View(key);
      assert live == Unexpired(rule.AsPlan(), old(View(key)), e.now);
      for i := 0 to |rule.steps|
        invariant View(key) == live && forall k :: k != key ==> View(k) == old(View(k))
        invariant i > 0 ==> !Hit(e, 0)
        invariant live.At? && live.step + 1 < i ==> !Hit(e, live.step + 1)
      {
        if key !in state {
          if i > 0 { continue; }
        } else if i != state[key].0 + 1 && i != 0 {
          continue;
        }
        if !Hit(e, i) { continue; }
        if i == 0 {
          state := state[key := (0, e.now)];
          return false;
        }
        if i == |rule.steps| - 1 {
          state := state - {key};
          return true;
        }
        state := state[key := (i, state[key].1)];
        return false;
      }
      return false;
    }

    /** shouldFireSequence */
    method ShouldFireSequence(env: Env, logType: string, event: Event, now: int) returns (fire: bool)
      modifies this
      ensures var key := FieldString(env, FieldOf(event, rule.groupBy));
              && (View(key), fire) == Advance(rule.AsPlan(), old(View(key)), SightingOf(env, rule, logType, event, now))
              && forall k :: k != key ==> View(k) == old(View(k))
    {
      fire := Step(FieldString(env, FieldOf(event, rule.groupBy)), SightingOf(env, rule, logType, event, now));
    }
  }

  /** Feeding a tracker a whole stream yields the keyed run. */
  method Feed(rule: SequenceRule, evs: seq<Keyed<Sighting>>) returns (fires: seq<bool>)
    ensures fires == Fires(Advancing(rule.AsPlan()), Waiting, evs)
  {
    var t := new SequenceTracker(rule);
    fires := [];
    ghost var step := Advancing(rule.AsPlan());
    for n := 0 to |evs|
      invariant fresh(t) && t.rule == rule
      invariant forall k :: t.View(k) == Lookup(After(step, Waiting, evs[..n]), Waiting, k)
      invariant fires == Fires(step, Waiting, evs[..n])
    {
      var fire := t.Step(evs[n].key, evs[n].ev);
      fires := fires + [fire];
      RunNext(step, Waiting, evs, n);
    }
    assert evs[..|evs|] == evs;
  }

  // ---- One key's run ----

  function Own(plan: Plan, evs: seq<Sighting>): (r: Progress) { Solo(Advancing(plan), Waiting, evs) }

  predicate FiresAt(plan: Plan, evs: seq<Sighting>, n: nat)
    requires n < |evs|
  {
    Advance(plan, Own(plan, evs[..n]), evs[n]).1
  }

  /** An in-order selection of events matching steps 0, 1, 2, ... */
  ghost predicate Chain(evs: seq<Sighting>, idx: seq<nat>) {
    && (forall j :: 0 <= j < |idx| ==> idx[j] < |evs| && Hit(evs[idx[j]], j))
    && (forall i, j :: 0 <= i < j < |idx| ==> idx[i] < idx[j])
  }

  /** Between a and b, and at b itself, no event starts over and none comes after the window that opened
      at a; and nothing has fired from a on up to b. */
  ghost predicate Unbroken(plan: Plan, evs: seq<Sighting>, a: nat, b: nat)
    requires a < |evs| && b <= |evs|
  {
    && (forall m :: a < m < b ==> !Hit(evs[m], 0) && evs[m].now - evs[a].now <= plan.within)
    && (forall m :: a <= m < b ==> !FiresAt(plan, evs, m))
  }

  /** The state in flight is always witnessed by such a selection, which starts at the last step-0 match and
      after the last fire. */
  ghost predicate Witnesses(plan: Plan, evs: seq<Sighting>, n: nat, idx: seq<nat>, p: Progress)
    requires n <= |evs|
  {
    p.At? ==>
      && plan.steps > 0 && Chain(evs, idx) && |idx| == p.step + 1 && p.start == evs[idx[0]].now
      && (forall j :: 0 <= j < |idx| ==> idx[j] < n)
      && Unbroken(plan, evs, idx[0], n)
  }

  lemma {:induction false} InFlightWitnessed(plan: Plan, evs: seq<Sighting>, n: nat) returns (idx: seq<nat>)
    requires n <= |evs|
    ensures Witnesses(plan, evs, n, idx, Own(plan, evs[..n]))
  {
    idx := [];
    if n > 0 {
      idx := InFlightWitnessed(plan, evs, n - 1);
      assert evs[..n][..n - 1] == evs[..n - 1];
      var p, e := Own(plan, evs[..n - 1]), evs[n - 1];
      if plan.steps > 0 && Hit(e, 0) {
        idx := [n - 1];
      } else if Advance(plan, p, e).0 != p {
        idx := idx + [n - 1];
      }
    }
  }

  /** The selection completes at event n: the steps in order, started by the last step-0 match, inside the
      window throughout, and with no fire since its start. */
  ghost predicate Completes(plan: Plan, evs: seq<Sighting>, idx: seq<nat>, n: nat) {
    && plan.Valid() && Chain(evs, idx) && |idx| == plan.steps && idx[|idx| - 1] == n
    && Unbroken(plan, evs, idx[0], n) && !Hit(evs[n], 0) && evs[n].now - evs[idx[0]].now <= plan.within
  }

  /** Soundness: a fire completes such a selection. No assumption on the clock. */
  lemma FireHasChain(plan: Plan, evs: seq<Sighting>, n: nat) returns (idx: seq<nat>)
    requires n < |evs| && FiresAt(plan, evs, n)
    ensures Completes(plan, evs, idx, n)
  {
    idx := InFlightWitnessed(plan, evs, n);
    idx := idx + [n];
  }

  /** Fires use their starts up: between two fires of a key there is a fresh step-0 match. */
  lemma FiresAreApart(plan: Plan, evs: seq<Sighting>, m: nat, n: nat)
    requires m < n < |evs| && FiresAt(plan, evs, m) && FiresAt(plan, evs, n)
    ensures exists i :: m < i < n && Hit(evs[i], 0)
  {
    var idx := FireHasChain(plan, evs, n);
    assert Hit(evs[idx[0]], 0) && idx[0] < idx[|idx| - 1];
  }

  predicate NonDecreasing(evs: seq<Sighting>) {
    forall i, j :: 0 <= i < j < |evs| ==> evs[i].now <= evs[j].now
  }

  ghost predicate FiredIn(plan: Plan, evs: seq<Sighting>, a: nat, b: nat)
    requires b <= |evs|
  {
    exists n :: a < n < b && FiresAt(plan, evs, n)
  }

  /** A completed selection with no later restart, inside the window at every event on the way. */
  ghost predicate Undisturbed(plan: Plan, evs: seq<Sighting>, idx: seq<nat>) {
    && Chain(evs, idx) && |idx| == plan.steps && plan.Valid()
    && forall n :: idx[0] < n <= idx[|idx| - 1] ==> !Hit(evs[n], 0) && evs[n].now - evs[idx[0]].now <= plan.within
  }

  /** Up to event m the rule has fired, or its progress is at least that of the selection. */
  ghost predicate KeepsUp(plan: Plan, evs: seq<Sighting>, idx: seq<nat>, m: nat)
    requires Undisturbed(plan, evs, idx) && m <= |evs|
  {
    var p := Own(plan, evs[..m]);
    || FiredIn(plan, evs, idx[0], m)
    || (p.At? && p.start == evs[idx[0]].now && p.step + 1 < plan.steps &&
        forall j :: 0 <= j < |idx| && idx[j] < m ==> j <= p.step)
  }

  lemma KeepsUpStep(plan: Plan, evs: seq<Sighting>, idx: seq<nat>, m: nat)
    requires Undisturbed(plan, evs, idx) && idx[0] < m <= idx[|idx| - 1] && KeepsUp(plan, evs, idx, m)
    ensures KeepsUp(plan, evs, idx, m + 1)
  {
    var p, e := Own(plan, evs[..m]), evs[m];
    assert evs[..m + 1][..m] == evs[..m];
    if FiredIn(plan, evs, idx[0], m) {
      var n :| idx[0] < n < m && FiresAt(plan, evs, n);
      assert FiredIn(plan, evs, idx[0], m + 1);
    } else {
      assert Unexpired(plan, p, e.now) == p && !Hit(e, 0);
      if FiresAt(plan, evs, m) {
        assert FiredIn(plan, evs, idx[0], m + 1);
      } else {
        forall j | 0 <= j < |idx| && idx[j] < m + 1 ensures j <= Own(plan, evs[..m + 1]).step {
          if idx[j] == m {
            assert Hit(e, j);
            if j > 0 { assert idx[j - 1] < m; }
          }
        }
      }
    }
  }

  lemma {:induction false} KeepsUpTo(plan: Plan, evs: seq<Sighting>, idx: seq<nat>, m: nat)
    requires Undisturbed(plan, evs, idx) && idx[0] < m <= idx[|idx| - 1] + 1
    ensures KeepsUp(plan, evs, idx, m)
    decreases m
  {
    if m == idx[0] + 1 {
      assert evs[..m][..m - 1] == evs[..m - 1];
      assert forall j :: 0 < j < |idx| ==> idx[0] < idx[j];
    } else {
      KeepsUpTo(plan, evs, idx, m - 1);
      KeepsUpStep(plan, evs, idx, m - 1);
    }
  }

  lemma UndisturbedFires(plan: Plan, evs: seq<Sighting>, idx: seq<nat>) returns (n: nat)
    requires Undisturbed(plan, evs, idx)
    ensures idx[0] < n <= idx[|idx| - 1] && FiresAt(plan, evs, n)
  {
    var last := idx[|idx| - 1];
    assert idx[0] < last;
    KeepsUpTo(plan, evs, idx, last + 1);
    assert FiredIn(plan, evs, idx[0], last + 1);
    n :| idx[0] < n < last + 1 && FiresAt(plan, evs, n);
  }

  /** Completeness: on a non-decreasing clock, a step-0 match followed in order by matches of the other
      steps inside the window, with no further step-0 match, has caused a fire no later than the last of them. */
  lemma ChainCausesFire(plan: Plan, evs: seq<Sighting>, idx: seq<nat>)
    requires plan.Valid() && NonDecreasing(evs) && Chain(evs, idx) && |idx| == plan.steps
    requires evs[idx[|idx| - 1]].now - evs[idx[0]].now <= plan.within
    requires forall n :: idx[0] < n <= idx[|idx| - 1] ==> !Hit(evs[n], 0)
    ensures exists n :: idx[0] < n <= idx[|idx| - 1] && FiresAt(plan, evs, n)
  {
    var last := idx[|idx| - 1];
    forall n | idx[0] < n <= last ensures evs[n].now - evs[idx[0]].now <= plan.within {
      assert n < last ==> evs[n].now <= evs[last].now;
    }
    var n := UndisturbedFires(plan, evs, idx);
  }

  /** Exactly when a key's event fires, on any clock: when it completes a selection of all the steps that
      nothing has broken since its start. */
  lemma FiresIff(plan: Plan, evs: seq<Sighting>, n: nat)
    requires plan.Valid() && n < |evs|
    ensures FiresAt(plan, evs, n) <==> exists idx :: Completes(plan, evs, idx, n)
  {
    if FiresAt(plan, evs, n) {
      var idx := FireHasChain(plan, evs, n);
    }
    if idx :| Completes(plan, evs, idx, n) {
      assert Undisturbed(plan, evs, idx);
      var m := UndisturbedFires(plan, evs, idx);
    }
  }

  /** The flags of one key in an interleaved stream are the fires of its own events. */
  lemma FlagsOfKey(plan: Plan, evs: seq<Keyed<Sighting>>, k: string, n: nat)
    requires n < |Only(evs, k)|
    ensures var own := Events(Only(evs, k));
            var flags := FlagsOf(evs, Fires(Advancing(plan), Waiting, evs), k);
            |flags| == |own| && (flags[n] <==> FiresAt(plan, own, n))
  {
    KeyIsolation(Advancing(plan), Waiting, evs, k);
    OnlyHasKey(evs, k);
    SoloRun(Advancing(plan), Waiting, Only(evs, k), k);
  }
}

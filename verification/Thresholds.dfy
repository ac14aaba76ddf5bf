/** Threshold and dedup: when a matching event makes the rule fire, given what its group key has seen. */
module Thresholds {

  import opened Wrappers
  import opened Arithmetic
  import opened KeyedRuns
  import opened Matchers

  datatype Threshold = Threshold(count: nat, window: int)

  /** count is at least two, as rule parsing insists; a non-positive dedup window means no dedup. */
  datatype Settings = Settings(threshold: Option<Threshold>, dedup: int) {
    predicate Valid() { threshold.Some? ==> threshold.value.count >= 2 }
  }

  /** What one group key has accumulated: sample times and the time of the last fire. */
  datatype KeyState = KeyState(samples: seq<int>, last: Option<int>)

  const Fresh := KeyState([], None)

  /** Drops leading samples from before the cutoff. */
  function Prune(list: seq<int>, cutoff: int): (r: seq<int>)
    ensures |r| <= |list|
  {
    if list == [] || list[0] >= cutoff then list else Prune(list[1..], cutoff)
  }

  /** The samples once the current match is added. */
  function Gathered(t: Threshold, samples: seq<int>, now: int): (r: seq<int>) {
    Prune(samples, now - t.window) + [now]
  }

  predicate Crosses(cfg: Settings, s: KeyState, now: int) {
    cfg.threshold.Some? ==> |Gathered(cfg.threshold.value, s.samples, now)| >= cfg.threshold.value.count
  }

  function SamplesAfter(cfg: Settings, s: KeyState, now: int): seq<int> {
    if cfg.threshold.None? then s.samples
    else if Crosses(cfg, s, now) then []
    else Gathered(cfg.threshold.value, s.samples, now)
  }

  predicate Suppressed(cfg: Settings, s: KeyState, now: int) {
    cfg.dedup > 0 && s.last.Some? && now - s.last.value < cfg.dedup
  }

  /** One matching event at time `now`. */
  function React(cfg: Settings, s: KeyState, now: int): (r: (KeyState, bool)) {
    var fires := Crosses(cfg, s, now) && !Suppressed(cfg, s, now);
    (KeyState(SamplesAfter(cfg, s, now), if fires && cfg.dedup > 0 then Some(now) else s.last), fires)
  }

  function Reacting(cfg: Settings): Reaction<KeyState, int> {
    (s, now) => React(cfg, s, now)
  }

  /** One key's state after its first matches. */
  function Own(cfg: Settings, times: seq<int>): (r: KeyState) {
    Solo(Reacting(cfg), Fresh, times)
  }

  // ---- The rule object ----

  /** The rule as written: conditions, keys, and per-key maps that are filled lazily. */
  datatype Rule = Rule(conditions: map<string, Matcher>, settings: Settings, dedupKey: string, groupBy: string)

  /** Dedup key first, then the threshold's group_by, then one common key. */
  function GroupKey(env: Env, rule: Rule, event: Event): string {
    if rule.dedupKey != "" then FieldString(env, FieldOf(event, rule.dedupKey))
    else if rule.settings.threshold.Some? && rule.groupBy != "" then FieldString(env, FieldOf(event, rule.groupBy))
    else ""
  }

  /** Which events a rule counts together: those with the same text in the dedup field, without one those with
      the same text in the threshold's group_by field, and otherwise all of them. */
  lemma SameGroupIff(env: Env, rule: Rule, e: Event, f: Event)
    ensures rule.dedupKey != "" ==>
      (GroupKey(env, rule, e) == GroupKey(env, rule, f) <==>
         FieldString(env, FieldOf(e, rule.dedupKey)) == FieldString(env, FieldOf(f, rule.dedupKey)))
    ensures rule.dedupKey == "" && rule.settings.threshold.Some? && rule.groupBy != "" ==>
      (GroupKey(env, rule, e) == GroupKey(env, rule, f) <==>
         FieldString(env, FieldOf(e, rule.groupBy)) == FieldString(env, FieldOf(f, rule.groupBy)))
    ensures rule.dedupKey == "" && (rule.settings.threshold.None? || rule.groupBy == "") ==>
      GroupKey(env, rule, e) == GroupKey(env, rule, f)
  {
  }

  /** The pruning loop. */
  method PruneSamples(list: seq<int>, cutoff: int) returns (r: seq<int>)
    ensures r == Prune(list, cutoff)
  {
    var i := 0;
    while i < |list| && list[i] < cutoff
      invariant 0 <= i <= |list|
      invariant Prune(list, cutoff) == Prune(list[i..], cutoff)
    {
      assert list[i..][1..] == list[i + 1..];
      i := i + 1;
    }
    r := list[i..];
  }

  class AlertRule {
    const rule: Rule
    var samples: map<string, seq<int>>
    var lastFire: map<string, int>

    constructor (rule: Rule)
      ensures this.rule == rule && samples == map[] && lastFire == map[]
    {
      this.rule, samples, lastFire := rule, map[], map[];
    }

    /** What the two maps hold for a key. */
    ghost function View(k: string): KeyState
      reads this
    {
      KeyState(if k in samples then samples[k] else [], if k in lastFire then Some(lastFire[k]) else None)
    }

    /** Threshold and dedup for a matching event, under the rule's lock. */
    method Count(key: string, now: int) returns (fire: bool)
      modifies this
      ensures (View(key), fire) == React(rule.settings, old(View(key)), now)
      ensures forall k :: k != key ==> View(k) == old(View(k))
    {
      if rule.settings.threshold.Some? {
        var t := rule.settings.threshold.value;
        var list := PruneSamples(if key in samples then samples[key] else [], now - t.window);
        list := list + [now];
        samples := samples[key := list];
        if |list| < t.count { return false; }
        samples := samples - {key};
      }
      if rule.settings.dedup > 0 {
        if key in lastFire && now - lastFire[key] < rule.settings.dedup { return false; }
        lastFire := lastFire[key := now];
      }
      return true;
    }

    /** shouldFire: schedule gate, match, then threshold and dedup. */
    method ShouldFire(env: Env, logType: string, event: Event, now: int, inWindow: bool) returns (fire: bool)
      modifies this
      ensures inWindow && MatchAll(env, rule.conditions, logType, event) ==>
        var key := GroupKey(env, rule, event);
        && (View(key), fire) == React(rule.settings, old(View(key)), now)
        && forall k :: k != key ==> View(k) == old(View(k))
      ensures !(inWindow && MatchAll(env, rule.conditions, logType, event)) ==>
        !fire && samples == old(samples) && lastFire == old(lastFire)
    {
      if !inWindow || !MatchAll(env, rule.conditions, logType, event) { return false; }
      fire := Count(GroupKey(env, rule, event), now);
    }
  }

  /** Feeding a rule a whole stream of matches yields the keyed run. */
  method Feed(rule: Rule, evs: seq<Keyed<int>>) returns (fires: seq<bool>)
    ensures fires == Fires(Reacting(rule.settings), Fresh, evs)
  {
    var r := new AlertRule(rule);
    fires := [];
    ghost var step := Reacting(rule.settings);
    for n := 0 to |evs|
      invariant fresh(r) && r.rule == rule
      invariant forall k :: r.View(k) == Lookup(After(step, Fresh, evs[..n]), Fresh, k)
      invariant fires == Fires(step, Fresh, evs[..n])
    {
      var fire := r.Count(evs[n].key, evs[n].ev);
      fires := fires + [fire];
      RunNext(step, Fresh, evs, n);
    }
    assert evs[..|evs|] == evs;
  }

  // ---- Conservation ----

  /** How many of one key's matches crossed the threshold, and how many samples expired unused. */
  function Crossings(cfg: Settings, times: seq<int>): (r: nat) {
    if times == [] then 0
    else
      var n := |times| - 1;
      Crossings(cfg, times[..n]) + if Crosses(cfg, Own(cfg, times[..n]), times[n]) then 1 else 0
  }

  function Expired(cfg: Settings, times: seq<int>): (r: nat)
    requires cfg.threshold.Some?
  {
    if times == [] then 0
    else
      var n := |times| - 1;
      var had := Own(cfg, times[..n]).samples;
      Expired(cfg, times[..n]) + |had| - |Prune(had, times[n] - cfg.threshold.value.window)|
  }

  /** On any clock: every match is used by a crossing, expired, or still stored, and fewer than `count`
      are ever stored. */
  lemma {:induction false} MatchesConserved(cfg: Settings, times: seq<int>)
    requires cfg.Valid() && cfg.threshold.Some?
    ensures |times| == cfg.threshold.value.count * Crossings(cfg, times) + Expired(cfg, times) + |Own(cfg, times).samples|
    ensures |Own(cfg, times).samples| < cfg.threshold.value.count
  {
    if times != [] {
      var n, t := |times| - 1, cfg.threshold.value;
      MatchesConserved(cfg, times[..n]);
      ConservedStep(cfg, Own(cfg, times[..n]), times[n]);
      OneMore(t.count, Crossings(cfg, times[..n]));
    }
  }

  /** One match: a crossing uses up exactly `count` samples. */
  lemma ConservedStep(cfg: Settings, s: KeyState, now: int)
    requires cfg.Valid() && cfg.threshold.Some? && |s.samples| < cfg.threshold.value.count
    ensures var kept := |Prune(s.samples, now - cfg.threshold.value.window)|;
            var stored := |React(cfg, s, now).0.samples|;
            && stored < cfg.threshold.value.count
            && kept + 1 == stored + if Crosses(cfg, s, now) then cfg.threshold.value.count else 0
  {
  }

  // ---- Exactness on a non-decreasing clock ----

  predicate NonDecreasing(times: seq<int>) {
    forall i, j :: 0 <= i < j < |times| ==> times[i] <= times[j]
  }

  /** How many of times[a..b] are at or after the cutoff. */
  function CountSince(times: seq<int>, a: nat, b: nat, cutoff: int): (r: nat)
    requires a <= b <= |times|
    decreases b - a
  {
    if a == b then 0 else CountSince(times, a, b - 1, cutoff) + if times[b - 1] >= cutoff then 1 else 0
  }

  /** The naive rule: match n crosses when it and the earlier matches of its window, since the last
      crossing, number at least `count`. */
  predicate NaiveCross(t: Threshold, times: seq<int>, n: nat)
    requires n < |times|
    decreases n, 1
  {
    1 + CountSince(times, SinceLast(t, times, n), n, times[n] - t.window) >= t.count
  }

  /** The first match after the last naive crossing before match n. */
  function SinceLast(t: Threshold, times: seq<int>, n: nat): (r: nat)
    requires n <= |times|
    ensures r <= n
    decreases n, 0
  {
    if n == 0 then 0 else if NaiveCross(t, times, n - 1) then n else SinceLast(t, times, n - 1)
  }

  lemma {:induction false} CountNone(times: seq<int>, a: nat, b: nat, cutoff: int)
    requires a <= b <= |times| && forall i :: a <= i < b ==> times[i] < cutoff
    ensures CountSince(times, a, b, cutoff) == 0
    decreases b - a
  {
    if a < b { CountNone(times, a, b - 1, cutoff); }
  }

  lemma {:induction false} CountSplit(times: seq<int>, a: nat, m: nat, b: nat, cutoff: int)
    requires a <= m <= b <= |times|
    requires (forall i :: a <= i < m ==> times[i] < cutoff) && (forall i :: m <= i < b ==> times[i] >= cutoff)
    ensures CountSince(times, a, b, cutoff) == b - m
    decreases b - a
  {
    if m == b { CountNone(times, a, b, cutoff); }
    else { CountSplit(times, a, m, b - 1, cutoff); }
  }

  /** Pruning a sorted stretch keeps exactly its part at or after the cutoff. */
  lemma {:induction false} PruneSorted(times: seq<int>, a: nat, b: nat, cutoff: int) returns (m: nat)
    requires a <= b <= |times| && NonDecreasing(times)
    ensures a <= m <= b && Prune(times[a..b], cutoff) == times[m..b]
    ensures (forall i :: a <= i < m ==> times[i] < cutoff) && (forall i :: m <= i < b ==> times[i] >= cutoff)
    decreases b - a
  {
    if a == b || times[a] >= cutoff {
      m := a;
    } else {
      assert times[a..b][1..] == times[a + 1..b];
      m := PruneSorted(times, a + 1, b, cutoff);
    }
  }

  /** What is stored: the matches since the last crossing, less a prefix already out of the last window. */
  ghost predicate Stores(t: Threshold, times: seq<int>, n: nat, m: nat, samples: seq<int>)
    requires n <= |times|
  {
    && SinceLast(t, times, n) <= m <= n && samples == times[m..n]
    && forall i :: SinceLast(t, times, n) <= i < m ==> times[i] < times[n - 1] - t.window
  }

  /** The length of the gathered list is the naive count. */
  lemma GatheredIsCount(t: Threshold, times: seq<int>, n: nat, m: nat, samples: seq<int>) returns (m': nat)
    requires n < |times| && NonDecreasing(times) && Stores(t, times, n, m, samples)
    ensures m <= m' <= n && Gathered(t, samples, times[n]) == times[m'..n + 1]
    ensures forall i :: SinceLast(t, times, n) <= i < m' ==> times[i] < times[n] - t.window
    ensures n + 1 - m' == 1 + CountSince(times, SinceLast(t, times, n), n, times[n] - t.window)
  {
    var cutoff := times[n] - t.window;
    m' := PruneSorted(times, m, n, cutoff);
    assert times[m'..n] + [times[n]] == times[m'..n + 1];
    forall i | SinceLast(t, times, n) <= i < m' ensures times[i] < cutoff {
      if i < m { assert times[n - 1] <= times[n]; }
    }
    CountSplit(times, SinceLast(t, times, n), m', n, cutoff);
  }

  /** One more match: the stored samples cross exactly when the naive rule does. */
  lemma CrossStep(cfg: Settings, times: seq<int>, n: nat, m: nat, s: KeyState) returns (m': nat)
    requires cfg.threshold.Some? && n < |times| && NonDecreasing(times)
    requires Stores(cfg.threshold.value, times, n, m, s.samples)
    ensures Crosses(cfg, s, times[n]) <==> NaiveCross(cfg.threshold.value, times, n)
    ensures Stores(cfg.threshold.value, times, n + 1, m', React(cfg, s, times[n]).0.samples)
  {
    m' := GatheredIsCount(cfg.threshold.value, times, n, m, s.samples);
    if Crosses(cfg, s, times[n]) { m' := n + 1; }
  }

  lemma {:induction false} StoresAll(cfg: Settings, times: seq<int>, n: nat) returns (m: nat)
    requires cfg.threshold.Some? && n <= |times| && NonDecreasing(times)
    ensures Stores(cfg.threshold.value, times, n, m, Own(cfg, times[..n]).samples)
  {
    if n == 0 {
      m := 0;
    } else {
      m := StoresAll(cfg, times, n - 1);
      assert times[..n][..n - 1] == times[..n - 1];
      m := CrossStep(cfg, times, n - 1, m, Own(cfg, times[..n - 1]));
    }
  }

  /** The sliding window is exact: on a non-decreasing clock the pruned sample list crosses at a match
      exactly when the naive count since the last crossing reaches `count`. */
  lemma CrossesExactly(cfg: Settings, times: seq<int>, n: nat)
    requires cfg.threshold.Some? && n < |times| && NonDecreasing(times)
    ensures Crosses(cfg, Own(cfg, times[..n]), times[n]) <==> NaiveCross(cfg.threshold.value, times, n)
  {
    var m := StoresAll(cfg, times, n);
    m := CrossStep(cfg, times, n, m, Own(cfg, times[..n]));
  }

  // ---- Dedup ----

  /** When one key's matches made the rule fire. */
  function FireTimes(cfg: Settings, times: seq<int>): (r: seq<int>) {
    if times == [] then []
    else
      var n := |times| - 1;
      FireTimes(cfg, times[..n]) + if React(cfg, Own(cfg, times[..n]), times[n]).1 then [times[n]] else []
  }

  lemma {:induction false} LastIsLastFire(cfg: Settings, times: seq<int>)
    requires cfg.dedup > 0
    ensures var f := FireTimes(cfg, times);
            Own(cfg, times).last == if f == [] then None else Some(f[|f| - 1])
  {
    if times != [] {
      LastIsLastFire(cfg, times[..|times| - 1]);
    }
  }

  /** An alert comes at least one dedup window after the one before it. */
  lemma NextFireSpaced(cfg: Settings, times: seq<int>)
    requires cfg.dedup > 0 && times != []
    ensures var g, f := FireTimes(cfg, times[..|times| - 1]), FireTimes(cfg, times);
            |f| > |g| > 0 ==> f[|f| - 1] - g[|g| - 1] >= cfg.dedup
  {
    LastIsLastFire(cfg, times[..|times| - 1]);
  }

  /** On any clock: with dedup on, two alerts of one key that are k alerts apart are k dedup windows apart. */
  lemma {:induction false} FiresSpaced(cfg: Settings, times: seq<int>, i: nat, j: nat)
    requires cfg.dedup > 0 && i <= j < |FireTimes(cfg, times)|
    ensures FireTimes(cfg, times)[j] - FireTimes(cfg, times)[i] >= cfg.dedup * (j - i)
    decreases |times|
  {
    hide React, Own;
    var n := |times| - 1;
    var head := times[..n];
    var g := FireTimes(cfg, head);
    if j < |g| {
      FiresSpaced(cfg, head, i, j);
    } else if i < j {
      FiresSpaced(cfg, head, i, j - 1);
      NextFireSpaced(cfg, times);
      OneMore(cfg.dedup, j - 1 - i);
    }
  }

  /** Alerts i..j of one key that fall in an interval of length L number at most L / dedup + 1. */
  lemma DedupBound(cfg: Settings, times: seq<int>, i: nat, j: nat, length: nat)
    requires cfg.dedup > 0 && i <= j < |FireTimes(cfg, times)|
    requires FireTimes(cfg, times)[j] - FireTimes(cfg, times)[i] <= length
    ensures j - i + 1 <= length / cfg.dedup + 1
  {
    FiresSpaced(cfg, times, i, j);
    QuotientAtLeast(length, cfg.dedup, j - i);
  }

  /** The last alert before match n. */
  ghost predicate LastAlert(flags: seq<bool>, j: int, n: nat)
    requires n <= |flags|
  {
    0 <= j < n && flags[j] && forall i :: j < i < n ==> !flags[i]
  }

  /** One flag per match, set where the rule fires. */
  ghost predicate FlagsAre(cfg: Settings, times: seq<int>, flags: seq<bool>) {
    |flags| == |times| && forall m :: 0 <= m < |times| ==> flags[m] == React(cfg, Own(cfg, times[..m]), times[m]).1
  }

  lemma StartsFresh(cfg: Settings, times: seq<int>)
    ensures Own(cfg, times[..0]) == Fresh
  {
  }

  lemma LastFollows(cfg: Settings, times: seq<int>, n: nat)
    requires cfg.dedup > 0 && n < |times|
    ensures var s := Own(cfg, times[..n]);
            Own(cfg, times[..n + 1]).last == if React(cfg, s, times[n]).1 then Some(times[n]) else s.last
  {
    assert times[..n + 1][..n] == times[..n];
  }

  /** With dedup on, what is remembered is the time of the last alert. */
  lemma {:induction false} RemembersLastAlert(cfg: Settings, times: seq<int>, flags: seq<bool>, n: nat)
    requires cfg.dedup > 0 && FlagsAre(cfg, times, flags) && n <= |times|
    ensures var last := Own(cfg, times[..n]).last;
            && (last.None? <==> forall j :: 0 <= j < n ==> !flags[j])
            && (forall j :: LastAlert(flags, j, n) ==> last == Some(times[j]))
  {
    hide React, Own;
    if n == 0 {
      StartsFresh(cfg, times);
    } else {
      RemembersLastAlert(cfg, times, flags, n - 1);
      LastFollows(cfg, times, n - 1);
      forall j | LastAlert(flags, j, n) ensures Own(cfg, times[..n]).last == Some(times[j]) {
        if j < n - 1 { assert LastAlert(flags, j, n - 1); }
      }
    }
  }

  lemma {:induction false} SomeLastAlert(flags: seq<bool>, n: nat) returns (j: nat)
    requires n <= |flags| && exists i :: 0 <= i < n && flags[i]
    ensures LastAlert(flags, j, n)
  {
    if flags[n - 1] { j := n - 1; } else { j := SomeLastAlert(flags, n - 1); }
  }

  /** Exactly when a match alerts, for one key of an interleaved stream: when there is no threshold or the
      naive rule crosses, and, with dedup on, the last alert of that key, if any, is at least the dedup window
      ago. The clock has to be in order only where there is a threshold. */
  lemma AlertsOfKey(cfg: Settings, evs: seq<Keyed<int>>, k: string, n: nat)
    requires n < |Only(evs, k)| && (cfg.threshold.Some? ==> NonDecreasing(Events(Only(evs, k))))
    ensures var times := Events(Only(evs, k));
            var flags := FlagsOf(evs, Fires(Reacting(cfg), Fresh, evs), k);
            && |flags| == |times|
            && (flags[n] <==>
                  && (cfg.threshold.Some? ==> NaiveCross(cfg.threshold.value, times, n))
                  && (cfg.dedup > 0 ==> forall j :: LastAlert(flags, j, n) ==> times[n] - times[j] >= cfg.dedup))
  {
    var step := Reacting(cfg);
    var own := Only(evs, k);
    var times := Events(own);
    KeyIsolation(step, Fresh, evs, k);
    OnlyHasKey(evs, k);
    SoloRun(step, Fresh, own, k);
    var flags := FlagsOf(evs, Fires(step, Fresh, evs), k);
    assert FlagsAre(cfg, times, flags);
    FlagExactly(cfg, times, flags, n);
  }

  lemma FlagExactly(cfg: Settings, times: seq<int>, flags: seq<bool>, n: nat)
    requires FlagsAre(cfg, times, flags) && n < |times| && (cfg.threshold.Some? ==> NonDecreasing(times))
    ensures flags[n] <==>
      && (cfg.threshold.Some? ==> NaiveCross(cfg.threshold.value, times, n))
      && (cfg.dedup > 0 ==> forall j :: LastAlert(flags, j, n) ==> times[n] - times[j] >= cfg.dedup)
  {
    if cfg.threshold.Some? { CrossesExactly(cfg, times, n); }
    hide NaiveCross, Own;
    if cfg.dedup > 0 {
      RemembersLastAlert(cfg, times, flags, n);
      if exists i :: 0 <= i < n && flags[i] {
        var j := SomeLastAlert(flags, n);
      }
    }
  }
}

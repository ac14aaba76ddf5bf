/** A rule keeps one small state per group key. These are the runs of such a rule over an interleaved
    stream of events, and the fact that keys cannot influence one another. */
module KeyedRuns {

  /** One event, already reduced to its group key and what the rule reads of it. */
  datatype Keyed<E> = Keyed(key: string, ev: E)

  /** How one key's state reacts to one event: the new state and whether the rule fires. */
  type Reaction<!S, !E> = (S, E) -> (S, bool)

  function Lookup<S>(states: map<string, S>, init: S, k: string): S {
    if k in states then states[k] else init
  }

  /** The states after a stream of events. */
  function After<S, E>(step: Reaction<S, E>, init: S, evs: seq<Keyed<E>>): (r: map<string, S>) {
    if evs == [] then map[]
    else
      var before, last := After(step, init, evs[..|evs| - 1]), evs[|evs| - 1];
      before[last.key := step(Lookup(before, init, last.key), last.ev).0]
  }

  /** The fires, one flag per event. */
  function Fires<S, E>(step: Reaction<S, E>, init: S, evs: seq<Keyed<E>>): (r: seq<bool>)
    ensures |r| == |evs|
  {
    if evs == [] then []
    else
      var head, last := evs[..|evs| - 1], evs[|evs| - 1];
      Fires(step, init, head) + [step(Lookup(After(step, init, head), init, last.key), last.ev).1]
  }

  /** One more event of a stream: its key's state moves on, its flag is appended. */
  lemma RunNext<S, E>(step: Reaction<S, E>, init: S, evs: seq<Keyed<E>>, n: nat)
    requires n < |evs|
    ensures var before, e := After(step, init, evs[..n]), evs[n];
            && After(step, init, evs[..n + 1]) == before[e.key := step(Lookup(before, init, e.key), e.ev).0]
            && Fires(step, init, evs[..n + 1]) == Fires(step, init, evs[..n]) + [step(Lookup(before, init, e.key), e.ev).1]
  {
    assert evs[..n + 1][..n] == evs[..n];
  }

  /** The events of one key, in order. */
  function Only<E>(evs: seq<Keyed<E>>, k: string): (r: seq<Keyed<E>>) {
    if evs == [] then []
    else
      var rest := Only(evs[..|evs| - 1], k);
      if evs[|evs| - 1].key == k then rest + [evs[|evs| - 1]] else rest
  }

  /** The flags belonging to one key's events, in order. */
  function FlagsOf<E>(evs: seq<Keyed<E>>, flags: seq<bool>, k: string): (r: seq<bool>)
    requires |flags| == |evs|
  {
    if evs == [] then []
    else
      var n := |evs| - 1;
      var rest := FlagsOf(evs[..n], flags[..n], k);
      if evs[n].key == k then rest + [flags[n]] else rest
  }

  /** No event of a key is left out and none is moved: event i of the stream comes right after the events its
      key has had before, and so does its flag. */
  lemma {:induction false} OwnPosition<E>(evs: seq<Keyed<E>>, flags: seq<bool>, i: nat)
    requires |flags| == |evs| && i < |evs|
    ensures var k := evs[i].key;
            var m := |Only(evs[..i], k)|;
            && m < |Only(evs, k)| == |FlagsOf(evs, flags, k)|
            && Only(evs, k)[m] == evs[i] && FlagsOf(evs, flags, k)[m] == flags[i]
  {
    var n, k := |evs| - 1, evs[i].key;
    SameLength(evs[..n], flags[..n], k);
    if i < n {
      OwnPosition(evs[..n], flags[..n], i);
      assert evs[..n][..i] == evs[..i];
    }
  }

  lemma {:induction false} SameLength<E>(evs: seq<Keyed<E>>, flags: seq<bool>, k: string)
    requires |flags| == |evs|
    ensures |Only(evs, k)| == |FlagsOf(evs, flags, k)|
  {
    if evs != [] { SameLength(evs[..|evs| - 1], flags[..|evs| - 1], k); }
  }

  /** Key isolation: the state and the fires of one key in an interleaved stream are those of running the
      rule on that key's events alone. */
  lemma {:induction false} KeyIsolation<S, E>(step: Reaction<S, E>, init: S, evs: seq<Keyed<E>>, k: string)
    ensures Lookup(After(step, init, evs), init, k) == Lookup(After(step, init, Only(evs, k)), init, k)
    ensures FlagsOf(evs, Fires(step, init, evs), k) == Fires(step, init, Only(evs, k))
  {
    if evs != [] {
      var n := |evs| - 1;
      var head, last := evs[..n], evs[n];
      KeyIsolation(step, init, head, k);
      assert Fires(step, init, evs)[..n] == Fires(step, init, head);
      if last.key == k {
        var own := Only(head, k);
        assert Only(evs, k) == own + [last];
        assert (own + [last])[..|own|] == own;
      }
    }
  }

  /** A single key's run, as a plain sequence of events. */
  function Solo<S, E>(step: Reaction<S, E>, init: S, evs: seq<E>): (r: S) {
    if evs == [] then init else step(Solo(step, init, evs[..|evs| - 1]), evs[|evs| - 1]).0
  }

  function Events<E>(evs: seq<Keyed<E>>): (r: seq<E>)
    ensures |r| == |evs| && forall i :: 0 <= i < |r| ==> r[i] == evs[i].ev
  {
    seq(|evs|, i requires 0 <= i < |evs| => evs[i].ev)
  }

  predicate AllOf<E>(evs: seq<Keyed<E>>, k: string) {
    forall i :: 0 <= i < |evs| ==> evs[i].key == k
  }

  lemma {:induction false} OnlyHasKey<E>(evs: seq<Keyed<E>>, k: string)
    ensures AllOf(Only(evs, k), k)
  {
    if evs != [] { OnlyHasKey(evs[..|evs| - 1], k); }
  }

  /** On one key's events the keyed run is the solo run. */
  lemma {:induction false} SoloRun<S, E>(step: Reaction<S, E>, init: S, evs: seq<Keyed<E>>, k: string)
    requires AllOf(evs, k)
    ensures Lookup(After(step, init, evs), init, k) == Solo(step, init, Events(evs))
    ensures forall n :: 0 <= n < |evs| ==>
      Fires(step, init, evs)[n] == step(Solo(step, init, Events(evs)[..n]), Events(evs)[n]).1
  {
    if evs != [] {
      var m := |evs| - 1;
      var head := evs[..m];
      SoloRun(step, init, head, k);
      assert Events(evs)[..m] == Events(head) && evs[..m + 1] == evs;
      RunNext(step, init, evs, m);
      hide After, Fires;
      forall n | 0 <= n < |evs|
        ensures Fires(step, init, evs)[n] == step(Solo(step, init, Events(evs)[..n]), Events(evs)[n]).1
      {
        if n < m {
          assert Events(head)[..n] == Events(evs)[..n];
        }
      }
    }
  }
}

/** The shipper's own loops, run one at a time: flushing a batch and draining the spool. Each call amounts
    to a run of the step machine, so what holds of every run holds of them. */
module ShipperAgent {

  import opened Spool
  import opened Shipper

  class Agent {
    const limit: int
    var files: seq<File>
    var dropped: nat
    ghost var state: State

    ghost predicate Valid()
      reads this
    {
      && Inv(limit, state) && state.flusher.Idle? && state.drainer.Resting?
      && files == state.files && dropped == state.dropped
    }

    constructor (limit: int, files: seq<File>)
      requires Tidy(files)
      ensures Valid() && this.limit == limit && this.files == files && state == Start(files)
    {
      this.limit, this.files, dropped := limit, files, 0;
      state := Start(files);
    }

    /** The state was reached from an earlier one by these actions. */
    ghost predicate Reached(from: State, acts: seq<Action>)
      reads this
    {
      Runs(limit, from, acts) && state == Outcome(limit, from, acts)
    }

    /** One more step of the machine. */
    ghost method Take(from: State, acts: seq<Action>, a: Action) returns (acts': seq<Action>)
      requires Reached(from, acts) && Inv(limit, state) && Enabled(limit, state, a) && FreshClock(state, a)
      modifies this`state
      ensures Inv(limit, state) && state == Apply(limit, old(state), a)
      ensures acts' == acts + [a] && Reached(from, acts')
    {
      StepKeepsInv(limit, state, a);
      RunsAppend(limit, from, acts, a);
      state := Apply(limit, state, a);
      acts' := acts + [a];
    }

    /** flush: send, and on failure or shutdown spool the batch. */
    method Flush(batch: Batch, shutdown: bool, replies: seq<Reply>, stamp: nat) returns (ghost acts: seq<Action>)
      requires Valid() && batch.id !in state.flushed && stamp !in state.used
      modifies this
      ensures Valid() && Reached(old(state), acts) && batch.id in state.flushed
      ensures !shutdown && SendVerdict(replies) == Accepted ==>
        files == old(files) && dropped == old(dropped) && batch.id in state.delivered
      ensures shutdown || SendVerdict(replies) != Accepted ==>
        Spooled(limit, old(files), files, dropped - old(dropped), File(stamp, false, batch))
    {
      hide Inv;
      acts := Take(state, [], Shipper.Flush(batch, shutdown, replies));
      if !shutdown {
        var ok, _ := Send(replies);
        if ok { return; }
      }
      acts := SpoolBatch(batch, stamp, acts, old(state));
    }

    /** Listing and pruning as the configuration asks: not at all without a limit. */
    method MakeRoom(ghost acts: seq<Action>, ghost from: State) returns (ghost acts': seq<Action>)
      requires Reached(from, acts) && Inv(limit, state) && files == state.files && dropped == state.dropped
      requires state.flusher.Pruning? && state.flusher == Listing(limit, state.flusher.batch, files)
      modifies this
      ensures Reached(from, acts') && Inv(limit, state) && files == state.files && dropped == state.dropped
      ensures RoomMade(limit, old(files), files, dropped - old(dropped))
      ensures state.flusher.Pruning? && state.flusher.batch == old(state).flusher.batch
      ensures Enabled(limit, state, WriteFile(0)) && state.drainer == old(state).drainer
      ensures state.used == old(state).used && state.flushed == old(state).flushed
    {
      hide Inv;
      acts' := acts;
      if limit > 0 {
        acts' := LookUpAll(acts, from);
        acts' := Prune(acts', from);
      } else {
        assert files[0..] == files;
      }
    }

    /** The size of every listed name, on an undisturbed directory. */
    ghost method LookUpAll(acts: seq<Action>, from: State) returns (acts': seq<Action>)
      requires Reached(from, acts) && Inv(limit, state) && files == state.files
      requires state.flusher.Pruning? && state.flusher == Listing(limit, state.flusher.batch, files) && limit > 0
      modifies this`state
      ensures Reached(from, acts') && Inv(limit, state)
      ensures state == old(state).(flusher := old(state).flusher.(names := [], items := files, total := Total(files)))
    {
      acts' := acts;
      var k := 0;
      assert files[..0] == [] && files[0..] == files && files[..|files|] == files;
      while k < |files|
        invariant k <= |files| && Reached(from, acts') && Inv(limit, state)
        invariant state == old(state).(flusher :=
          old(state).flusher.(names := files[k..], items := files[..k], total := Total(files[..k])))
      {
        acts' := LookUp(acts', from, old(state), k);
        k := k + 1;
      }
    }

    ghost method LookUp(acts: seq<Action>, from: State, was: State, k: nat) returns (acts': seq<Action>)
      requires Reached(from, acts) && Inv(limit, state) && files == state.files && k < |files| && was.flusher.Pruning?
      requires state == was.(flusher := was.flusher.(names := files[k..], items := files[..k], total := Total(files[..k])))
      modifies this`state
      ensures Reached(from, acts') && Inv(limit, state)
      ensures state == was.(flusher :=
        was.flusher.(names := files[k + 1..], items := files[..k + 1], total := Total(files[..k + 1])))
    {
      hide Inv, Tidy, Fetch, Total, HasName;
      InvTidy(limit, state);
      var n := files[k];
      assert files[k..][0] == n && files[k..][1..] == files[k + 1..] && files[..k] + [n] == files[..k + 1];
      FetchesItself(files, n);
      TotalNext(files, k);
      acts' := Take(from, acts, StatOne);
    }

    /** spool: prune, then write. */
    method SpoolBatch(batch: Batch, stamp: nat, ghost acts: seq<Action>, ghost from: State) returns (ghost acts': seq<Action>)
      requires Reached(from, acts) && Inv(limit, state) && files == state.files && dropped == state.dropped
      requires state.drainer.Resting? && stamp !in state.used && state.flusher == Listing(limit, batch, files)
      modifies this
      ensures Valid() && Reached(from, acts') && state.flushed == old(state.flushed) + {batch.id}
      ensures Spooled(limit, old(files), files, dropped - old(dropped), File(stamp, false, batch))
    {
      hide Inv, Put, RoomMade;
      acts' := MakeRoom(acts, from);
      files := Put(files, File(stamp, false, batch));
      acts' := Take(from, acts', WriteFile(stamp));
    }

    /** The machine is in the middle of this prune, which so far has left these files. */
    ghost predicate PruningTo(from: State, acts: seq<Action>, was: State)
      reads this
    {
      && Reached(from, acts) && Inv(limit, state) && files == state.files && dropped == state.dropped
      && was.flusher.Pruning? && state.flusher == was.flusher.(items := files, total := Total(files))
      && state.drainer == was.drainer && state.used == was.used && state.flushed == was.flushed
    }

    /** Removes the oldest file. */
    method PruneOldest(ghost acts: seq<Action>, ghost from: State, ghost was: State) returns (ghost acts': seq<Action>)
      requires PruningTo(from, acts, was) && was.flusher.names == [] && files != [] && Total(files) > limit > 0
      modifies this
      ensures PruningTo(from, acts', was) && files == old(files)[1..] && dropped == old(dropped) + 1
    {
      assert files[0] in files && HasName(files, files[0].stamp, files[0].rejected);
      acts' := Take(from, acts, PruneOne);
      files, dropped := files[1..], dropped + 1;
    }

    /** pruneSpool on an undisturbed directory: the shortest oldest-first prefix goes. */
    method Prune(ghost acts: seq<Action>, ghost from: State) returns (ghost acts': seq<Action>)
      requires PruningTo(from, acts, state) && limit > 0 && state.flusher.names == []
      modifies this
      ensures PruningTo(from, acts', old(state))
      ensures dropped >= old(dropped) && dropped - old(dropped) <= |old(files)|
      ensures files == old(files)[dropped - old(dropped)..] && Total(files) <= limit
      ensures forall j :: 0 <= j < dropped - old(dropped) ==> Total(old(files)[j..]) > limit
    {
      hide Inv;
      acts' := acts;
      var total := Sum(files);
      ghost var all, k := files, 0;
      assert all[0..] == all;
      while files != [] && total > limit
        invariant PruningTo(from, acts', old(state))
        invariant k <= |all| && files == all[k..] && total == Total(files) && dropped == old(dropped) + k
        invariant forall j :: 0 <= j < k ==> Total(all[j..]) > limit
        decreases |files|
      {
        assert all[k..][1..] == all[k + 1..];
        total := total - files[0].batch.size;
        acts' := PruneOldest(acts', from, old(state));
        k := k + 1;
      }
    }

    /** drainSpool: every listed batch in order, until a peer is unreachable or undecided, or the agent
        shuts down. */
    method Drain(answers: nat -> seq<Reply>, stop: nat -> bool) returns (ghost acts: seq<Action>)
      requires Valid()
      modifies this
      ensures Valid() && Reached(old(state), acts) && dropped == old(dropped)
      ensures Total(files) <= Total(old(files))
      ensures forall f :: f in files && !f.rejected ==> f in old(files)
      ensures (forall n :: !stop(n) && (FirstAnswer(answers(n), 2) || FirstAnswer(answers(n), 4))) ==>
        forall f :: f in files ==> f.rejected
    {
      hide Inv;
      var names := Pending(files);
      acts := Take(state, [], DrainStart);
      var n := 0;
      while n < |names|
        invariant n <= |names| && Reached(old(state), acts) && Inv(limit, state) && state.flusher.Idle?
        invariant files == state.files && dropped == state.dropped == old(dropped)
        invariant state.drainer == Draining(names[n..]) && Total(files) <= Total(old(files))
        invariant Settled(old(files), files, names[..n])
      {
        if stop(n) { break; }
        InvTidy(limit, state);
        DrainVerdictMeans(answers(n));
        assert names[n..][1..] == names[n + 1..];
        Settles(old(files), files, names[..n], names[n], answers(n));
        var goOn;
        goOn, acts := DrainOne(names[n], answers(n), acts, old(state));
        assert names[..n + 1] == names[..n] + [names[n]];
        if !goOn { return; }
        n := n + 1;
      }
      if n == |names| {
        assert names[..n] == names;
        NothingPending(old(files), files);
      }
      acts := Take(old(state), acts, DrainStop);
    }

    /** One name of the listing: read, post, and act on the first answer. */
    method DrainOne(name: nat, answers: seq<Reply>, ghost acts: seq<Action>, ghost from: State)
      returns (goOn: bool, ghost acts': seq<Action>)
      requires Reached(from, acts) && Inv(limit, state) && state.flusher.Idle?
      requires files == state.files && dropped == state.dropped
      requires state.drainer.Draining? && state.drainer.todo != [] && state.drainer.todo[0] == name
      modifies this
      ensures Reached(from, acts') && Inv(limit, state) && state.flusher.Idle?
      ensures files == state.files && dropped == state.dropped == old(dropped) && Total(files) <= Total(old(files))
      ensures state.drainer == if goOn then Draining(old(state).drainer.todo[1..]) else Resting
      ensures files == DrainedOnce(old(files), name, answers)
      ensures goOn <==> !HasName(old(files), name, false) || DrainVerdict(answers) != Undecided
    {
      var body := Fetch(files, name, false);
      acts' := Take(from, acts, DrainRead);
      if body == [] { return true, acts'; }
      assert body[0] in body && HasName(files, name, false);
      acts' := Take(from, acts', DrainReply(answers));
      match DrainVerdict(answers) {
        case Undecided => return false, acts';
        case Accepted => files := Remove(files, name, false);
        case Refused => files := Reject(files, name);
      }
      OnlyWritesRaise(limit, state, DrainFinish);
      acts' := Take(from, acts', DrainFinish);
      goOn := true;
    }
  }

  /** The prune at its start: every name listed, none looked up. */
  function Listing(limit: int, batch: Batch, files: seq<File>): Flusher {
    Pruning(batch, if limit <= 0 then [] else files, [], 0, 0, 0)
  }

  lemma FetchesItself(files: seq<File>, n: File)
    requires Tidy(files) && n in files
    ensures Fetch(files, n.stamp, n.rejected) == [n]
  {
    var found := Fetch(files, n.stamp, n.rejected);
    assert HasName(files, n.stamp, n.rejected);
    assert found[0] in found;
    StampUnique(files, found[0], n);
  }

  lemma TotalNext(files: seq<File>, k: nat)
    requires k < |files|
    ensures Total(files[..k + 1]) == Total(files[..k]) + files[k].batch.size
  {
    assert files[..k + 1] == files[..k] + [files[k]] && [files[k]][1..] == [];
    GoneConcat(files[..k], [files[k]], []);
  }

  /** What one answer does to one file of the spool: a 2xx removes it, a 4xx sets it aside. */
  function DrainedOnce(files: seq<File>, name: nat, answers: seq<Reply>): seq<File> {
    if !HasName(files, name, false) then files
    else
      match DrainVerdict(answers)
      case Accepted => Remove(files, name, false)
      case Refused => Reject(files, name)
      case Undecided => files
  }

  /** Of these names none is pending any more, and nothing else has become pending. */
  ghost predicate Settled(was: seq<File>, files: seq<File>, names: seq<nat>) {
    forall f :: f in files && !f.rejected ==> f in was && f.stamp !in names
  }

  lemma InvTidy(limit: int, s: State)
    requires Inv(limit, s)
    ensures Tidy(s.files)
  {
  }

  lemma Settles(was: seq<File>, files: seq<File>, names: seq<nat>, name: nat, answers: seq<Reply>)
    requires Tidy(files) && Settled(was, files, names)
    ensures Settled(was, DrainedOnce(files, name, answers), names)
    ensures !HasName(files, name, false) || DrainVerdict(answers) != Undecided ==>
      Settled(was, DrainedOnce(files, name, answers), names + [name])
  {
    RemoveExact(files, name, false);
    RejectExact(files, name);
  }

  lemma NothingPending(was: seq<File>, files: seq<File>)
    requires Settled(was, files, Pending(was))
    ensures forall f :: f in files ==> f.rejected
  {
    forall f | f in files ensures f.rejected {
      PendingIs(was, f.stamp);
    }
  }

  /** The k oldest files are gone, and they are the fewest that bring the rest within the limit. */
  ghost predicate RoomMade(limit: int, before: seq<File>, kept: seq<File>, k: int) {
    && 0 <= k <= |before| && kept == before[k..]
    && (limit > 0 ==> Total(kept) <= limit && forall j :: 0 <= j < k ==> Total(before[j..]) > limit)
    && (limit <= 0 ==> k == 0)
  }

  /** The spool after a failed send: pruned as far as needed, with the new file in its place. */
  ghost predicate Spooled(limit: int, before: seq<File>, after: seq<File>, k: int, f: File) {
    exists kept :: RoomMade(limit, before, kept, k) && after == Put(kept, f)
  }
}

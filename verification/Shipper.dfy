/** The store-and-forward shipper as steps of two concurrent activities over one spool directory: the run
    loop, which flushes batches and prunes, and the drain, which at most one goroutine performs at a time.
    The server is arbitrary. Local storage is on and the disk does not fail. */
module Shipper {

  import opened Spool

  // ---- Talking to the pool of servers ----

  datatype Reply = NetError | Status(code: nat)
  datatype Verdict = Accepted | Refused | Undecided

  /** send: the first 2xx or 4xx decides; network errors and every other status move on to the next peer. */
  function SendVerdict(replies: seq<Reply>): (r: Verdict) {
    if replies == [] then Undecided
    else if replies[0].Status? && replies[0].code / 100 == 2 then Accepted
    else if replies[0].Status? && replies[0].code / 100 == 4 then Refused
    else SendVerdict(replies[1..])
  }

  /** drainSpool: the first peer that answers at all decides. */
  function DrainVerdict(replies: seq<Reply>): (r: Verdict) {
    if replies == [] then Undecided
    else if replies[0].NetError? then DrainVerdict(replies[1..])
    else if replies[0].code / 100 == 2 then Accepted
    else if replies[0].code / 100 == 4 then Refused
    else Undecided
  }

  predicate InClass(r: Reply, hundred: nat) { r.Status? && r.code / 100 == hundred }

  /** The first peer that answers at all does so with a status of this class. */
  predicate FirstAnswer(replies: seq<Reply>, hundred: nat) {
    exists i :: 0 <= i < |replies| && InClass(replies[i], hundred) && forall j :: 0 <= j < i ==> replies[j].NetError?
  }

  /** The first 2xx or 4xx is of this class. */
  predicate FirstDecision(replies: seq<Reply>, hundred: nat) {
    exists i :: 0 <= i < |replies| && InClass(replies[i], hundred) &&
      forall j :: 0 <= j < i ==> !InClass(replies[j], 2) && !InClass(replies[j], 4)
  }

  /** The drain takes a batch for delivered exactly when the first answer is a 2xx, and for refused exactly
      when it is a 4xx; with no answer, or any other, it decides nothing. */
  lemma {:induction false} DrainVerdictMeans(replies: seq<Reply>)
    ensures DrainVerdict(replies) == Accepted <==> FirstAnswer(replies, 2)
    ensures DrainVerdict(replies) == Refused <==> FirstAnswer(replies, 4)
  {
    if replies != [] && replies[0].NetError? {
      DrainVerdictMeans(replies[1..]);
      AnswerAfterError(replies, 2);
      AnswerAfterError(replies, 4);
    }
  }

  lemma AnswerAfterError(replies: seq<Reply>, hundred: nat)
    requires replies != [] && replies[0].NetError?
    ensures FirstAnswer(replies, hundred) <==> FirstAnswer(replies[1..], hundred)
  {
    var rest := replies[1..];
    if FirstAnswer(replies, hundred) {
      var i :| 0 <= i < |replies| && InClass(replies[i], hundred) && forall j :: 0 <= j < i ==> replies[j].NetError?;
      assert InClass(rest[i - 1], hundred) && forall j :: 0 <= j < i - 1 ==> rest[j] == replies[j + 1];
    }
    if FirstAnswer(rest, hundred) {
      var i :| 0 <= i < |rest| && InClass(rest[i], hundred) && forall j :: 0 <= j < i ==> rest[j].NetError?;
      assert InClass(replies[i + 1], hundred);
      assert forall j :: 0 < j < i + 1 ==> replies[j] == rest[j - 1];
    }
  }

  /** A live send succeeds exactly when the first 2xx comes before any 4xx, and is refused exactly when the
      first 4xx comes before any 2xx. */
  lemma {:induction false} SendVerdictMeans(replies: seq<Reply>)
    ensures SendVerdict(replies) == Accepted <==> FirstDecision(replies, 2)
    ensures SendVerdict(replies) == Refused <==> FirstDecision(replies, 4)
  {
    if replies != [] && !InClass(replies[0], 2) && !InClass(replies[0], 4) {
      SendVerdictMeans(replies[1..]);
      DecisionAfterMiss(replies, 2);
      DecisionAfterMiss(replies, 4);
    }
  }

  lemma DecisionAfterMiss(replies: seq<Reply>, hundred: nat)
    requires replies != [] && !InClass(replies[0], 2) && !InClass(replies[0], 4) && (hundred == 2 || hundred == 4)
    ensures FirstDecision(replies, hundred) <==> FirstDecision(replies[1..], hundred)
  {
    hide InClass;
    var rest := replies[1..];
    if FirstDecision(replies, hundred) {
      var i :| 0 <= i < |replies| && InClass(replies[i], hundred) &&
        forall j :: 0 <= j < i ==> !InClass(replies[j], 2) && !InClass(replies[j], 4);
      assert InClass(rest[i - 1], hundred) && forall j :: 0 <= j < i - 1 ==> rest[j] == replies[j + 1];
    }
    if FirstDecision(rest, hundred) {
      var i :| 0 <= i < |rest| && InClass(rest[i], hundred) &&
        forall j :: 0 <= j < i ==> !InClass(rest[j], 2) && !InClass(rest[j], 4);
      assert InClass(replies[i + 1], hundred);
      assert forall j :: 0 < j < i + 1 ==> replies[j] == rest[j - 1];
    }
  }

  /** The peer loop of send, given what each peer would answer. */
  method Send(replies: seq<Reply>) returns (ok: bool, asked: nat)
    ensures ok <==> SendVerdict(replies) == Accepted
    ensures asked <= |replies|
    ensures ok ==> asked > 0 && replies[asked - 1].Status? && replies[asked - 1].code / 100 == 2
    ensures forall i :: 0 <= i < asked - 1 ==>
      replies[i].NetError? || (replies[i].code / 100 != 2 && replies[i].code / 100 != 4)
  {
    asked := 0;
    while asked < |replies|
      invariant asked <= |replies| && SendVerdict(replies) == SendVerdict(replies[asked..])
      invariant forall i :: 0 <= i < asked ==>
        replies[i].NetError? || (replies[i].code / 100 != 2 && replies[i].code / 100 != 4)
    {
      var reply := replies[asked];
      assert replies[asked..][0] == reply && replies[asked..][1..] == replies[asked + 1..];
      asked := asked + 1;
      if reply.Status? {
        if reply.code / 100 == 2 { return true, asked; }
        if reply.code / 100 == 4 { return false, asked; }
      }
    }
    ok := false;
  }

  // ---- States ----

  /** The run loop: idle, or pruning on the way to spooling a batch. The prune lists the names, looks up the
      size of each listed name, and only then removes. `missed` sums the files whose lookup failed because a
      concurrent rejection had renamed them after they were listed, `skipped` those it counted as removed
      although a rejection had renamed them after their lookup. */
  datatype Flusher =
    | Idle
    | Pruning(batch: Batch, names: seq<File>, items: seq<File>, total: nat, missed: nat, skipped: nat)

  /** What a prune still reckons with: the items looked up and the names still to be. */
  function Reckoned(f: Flusher): (r: seq<File>)
    requires f.Pruning?
  {
    f.items + f.names
  }

  /** The drain: at rest, going through a listing, waiting for a reply, or about to act on one. */
  datatype Drainer =
    | Resting
    | Draining(todo: seq<nat>)
    | Posting(file: File, todo: seq<nat>)
    | Removing(file: File, todo: seq<nat>)
    | Renaming(file: File, todo: seq<nat>)

  /** The last four fields record history: batches flushed, accepted by the server, pruned, and every stamp
      ever given to a file. */
  datatype State = State(
    files: seq<File>, flusher: Flusher, drainer: Drainer, dropped: nat,
    flushed: set<nat>, delivered: set<nat>, pruned: set<nat>, used: set<nat>)

  datatype Action =
    | Flush(batch: Batch, shutdown: bool, replies: seq<Reply>)
    | StatOne
    | PruneOne
    | WriteFile(stamp: nat)
    | DrainStart
    | DrainRead
    | DrainReply(answers: seq<Reply>)
    | DrainFinish
    | DrainStop

  function Pending(files: seq<File>): (r: seq<nat>) {
    if files == [] then []
    else (if files[0].rejected then [] else [files[0].stamp]) + Pending(files[1..])
  }

  /** The drain's listing: the files not set aside. */
  lemma {:induction false} PendingIs(files: seq<File>, n: nat)
    ensures n in Pending(files) <==> HasName(files, n, false)
  {
    if files != [] {
      PendingIs(files[1..], n);
      if HasName(files, n, false) {
        var f :| f in files && Named(f, n, false);
        Members(files, f);
      }
      if HasName(files[1..], n, false) {
        var f :| f in files[1..] && Named(f, n, false);
        Members(files, f);
      }
      assert files[0] in files;
    }
  }

  /** The file found under a listed name, if it is still there. */
  function Fetch(files: seq<File>, stamp: nat, rejected: bool): (r: seq<File>)
    ensures |r| <= 1 && forall f :: f in r ==> f in files && Named(f, stamp, rejected)
    ensures r == [] <==> !HasName(files, stamp, rejected)
  {
    if files == [] then []
    else if Named(files[0], stamp, rejected) then [files[0]]
    else
      var r := Fetch(files[1..], stamp, rejected);
      assert files == [files[0]] + files[1..];
      r
  }

  function StampsOf(files: seq<File>): set<nat> { set f | f in files :: f.stamp }

  function IdsOf(files: seq<File>): set<nat> { set f | f in files :: f.batch.id }

  predicate Enabled(limit: int, s: State, a: Action) {
    match a
    case Flush(b, _, _) => s.flusher.Idle? && b.id !in s.flushed
    case StatOne => s.flusher.Pruning? && s.flusher.names != []
    case PruneOne => s.flusher.Pruning? && s.flusher.names == [] && s.flusher.items != [] && s.flusher.total > limit > 0
    case WriteFile(_) => s.flusher.Pruning? && s.flusher.names == [] && (limit <= 0 || s.flusher.total <= limit)
    case DrainStart => s.drainer.Resting?
    case DrainRead => s.drainer.Draining? && s.drainer.todo != []
    case DrainReply(_) => s.drainer.Posting?
    case DrainFinish => s.drainer.Removing? || s.drainer.Renaming?
    case DrainStop => s.drainer.Draining?
  }

  function Apply(limit: int, s: State, a: Action): (r: State)
    requires Enabled(limit, s, a)
  {
    match a
    case Flush(b, shutdown, replies) =>
      if !shutdown && SendVerdict(replies) == Accepted
      then s.(flushed := s.flushed + {b.id}, delivered := s.delivered + {b.id})
      else s.(flusher := Pruning(b, if limit <= 0 then [] else s.files, [], 0, 0, 0))
    case StatOne =>
      var n := s.flusher.names[0];
      var found := Fetch(s.files, n.stamp, n.rejected);
      var fl := s.flusher.(names := s.flusher.names[1..]);
      if found != [] then s.(flusher := fl.(items := fl.items + found, total := fl.total + found[0].batch.size))
      else if HasStamp(s.files, n.stamp) then s.(flusher := fl.(missed := fl.missed + n.batch.size))
      else s.(flusher := fl)
    case PruneOne =>
      var it := s.flusher.items[0];
      var there := HasName(s.files, it.stamp, it.rejected);
      var left := if s.flusher.total >= it.batch.size then s.flusher.total - it.batch.size else 0;
      s.(files := Remove(s.files, it.stamp, it.rejected),
         dropped := s.dropped + 1,
         pruned := if there then s.pruned + {it.batch.id} else s.pruned,
         flusher := s.flusher.(items := s.flusher.items[1..], total := left,
           skipped := s.flusher.skipped + if !there && HasStamp(s.files, it.stamp) then it.batch.size else 0))
    case WriteFile(stamp) =>
      s.(files := Put(s.files, File(stamp, false, s.flusher.batch)), flusher := Idle,
         flushed := s.flushed + {s.flusher.batch.id}, used := s.used + {stamp})
    case DrainStart => s.(drainer := Draining(Pending(s.files)))
    case DrainRead =>
      var n, rest := s.drainer.todo[0], s.drainer.todo[1..];
      var got := Fetch(s.files, n, false);
      s.(drainer := if got == [] then Draining(rest) else Posting(got[0], rest))
    case DrainReply(answers) =>
      (match DrainVerdict(answers)
       case Accepted => s.(drainer := Removing(s.drainer.file, s.drainer.todo),
                           delivered := s.delivered + {s.drainer.file.batch.id})
       case Refused => s.(drainer := Renaming(s.drainer.file, s.drainer.todo))
       case Undecided => s.(drainer := Resting))
    case DrainFinish =>
      var f := s.drainer.file;
      s.(files := if s.drainer.Removing? then Remove(s.files, f.stamp, false) else Reject(s.files, f.stamp),
         drainer := Draining(s.drainer.todo))
    case DrainStop => s.(drainer := Resting)
  }

  // ---- The invariant ----

  /** Every flushed batch is delivered, still on disk (spooled or set aside), or pruned. */
  ghost predicate Accounted(s: State) {
    forall id :: id in s.flushed ==> id in s.delivered || id in IdsOf(s.files) || id in s.pruned
  }

  /** The listed items whose stamp is no longer on disk at all. */
  function Gone(items: seq<File>, files: seq<File>): (r: nat) {
    if items == [] then 0
    else (if HasStamp(files, items[0].stamp) then 0 else items[0].batch.size) + Gone(items[1..], files)
  }

  /** What is on disk under this stamp is this file, or this file rejected since. */
  ghost predicate SameBatch(files: seq<File>, f: File) {
    forall g :: g in files && g.stamp == f.stamp ==> g.batch == f.batch && (f.rejected ==> g.rejected)
  }

  ghost predicate FlusherOk(limit: int, s: State) {
    s.flusher.Pruning? ==>
      && s.flusher.total == Total(s.flusher.items) && s.flusher.batch.id !in s.flushed
      && Books(limit, Reckoned(s.flusher), s.files, s.used, s.flusher.missed + s.flusher.skipped)
  }

  /** The books of a prune that reckons with these files: what is on disk and what the drain has taken away
      add up to what is reckoned with and what rejections have renamed from under the prune. */
  ghost predicate Books(limit: int, items: seq<File>, files: seq<File>, used: set<nat>, lost: nat) {
    && Tidy(items) && (forall it :: it in items ==> it.stamp in used && SameBatch(files, it))
    && (limit > 0 ==> Listed(items, files) && Total(files) + Gone(items, files) == Total(items) + lost)
  }

  /** Every file that is not set aside is still on the prune's list. */
  ghost predicate Listed(items: seq<File>, files: seq<File>) {
    forall g :: g in files && !g.rejected ==> HasStamp(items, g.stamp)
  }

  ghost predicate DrainerOk(s: State) {
    s.drainer.Posting? || s.drainer.Removing? || s.drainer.Renaming? ==>
      && !s.drainer.file.rejected && s.drainer.file.stamp in s.used && SameBatch(s.files, s.drainer.file)
      && (s.drainer.Removing? ==> s.drainer.file.batch.id in s.delivered)
  }

  ghost predicate Inv(limit: int, s: State) {
    && Tidy(s.files) && StampsOf(s.files) <= s.used && Accounted(s)
    && FlusherOk(limit, s) && DrainerOk(s) && |s.pruned| <= s.dropped
  }

  /** The clock hands out a stamp no spool file has had before. */
  predicate FreshClock(s: State, a: Action) { a.WriteFile? ==> a.stamp !in s.used }

  lemma StampKnown(files: seq<File>, used: set<nat>, f: File)
    requires StampsOf(files) <= used && f in files
    ensures f.stamp in used
  {
    assert f.stamp in StampsOf(files);
  }

  lemma IdKnown(files: seq<File>, f: File)
    requires f in files
    ensures f.batch.id in IdsOf(files)
  {
  }

  // ---- Gone ----

  lemma {:induction false} GoneSame(items: seq<File>, files: seq<File>, files': seq<File>)
    requires forall it :: it in items ==> (HasStamp(files, it.stamp) <==> HasStamp(files', it.stamp))
    ensures Gone(items, files') == Gone(items, files)
  {
    if items != [] {
      assert items[0] in items;
      forall it | it in items[1..] ensures it in items { Members(items, it); }
      GoneSame(items[1..], files, files');
    }
  }

  lemma {:induction false} GoneNone(items: seq<File>, files: seq<File>)
    requires forall it :: it in items ==> it in files
    ensures Gone(items, files) == 0
  {
    if items != [] {
      assert items[0] in items;
      forall it | it in items[1..] ensures it in files { Members(items, it); }
      GoneNone(items[1..], files);
    }
  }

  /** Losing one listed stamp from the disk adds exactly that file's size. */
  lemma {:induction false} GoneLoses(items: seq<File>, files: seq<File>, files': seq<File>, f: File)
    requires Tidy(items) && forall it :: it in items && it.stamp == f.stamp ==> it.batch.size == f.batch.size
    requires forall n :: n != f.stamp ==> (HasStamp(files, n) <==> HasStamp(files', n))
    requires HasStamp(items, f.stamp) && HasStamp(files, f.stamp) && !HasStamp(files', f.stamp)
    ensures Gone(items, files') == Gone(items, files) + f.batch.size
  {
    TidyTail(items);
    assert items[0] in items;
    forall it | it in items[1..] ensures it in items { Members(items, it); }
    if items[0].stamp == f.stamp {
      GoneSame(items[1..], files, files');
    } else {
      var it :| it in items && it.stamp == f.stamp;
      Members(items, it);
      GoneLoses(items[1..], files, files', f);
    }
  }

  lemma RemoveStamps(files: seq<File>, stamp: nat, rejected: bool, n: nat)
    requires Tidy(files) && n != stamp
    ensures HasStamp(Remove(files, stamp, rejected), n) <==> HasStamp(files, n)
  {
    RemoveExact(files, stamp, rejected);
    if HasStamp(files, n) {
      var f :| f in files && f.stamp == n;
      assert f in Remove(files, stamp, rejected);
    }
    if HasStamp(Remove(files, stamp, rejected), n) {
      var f :| f in Remove(files, stamp, rejected) && f.stamp == n;
      assert f in files;
    }
  }

  lemma RejectStamps(files: seq<File>, stamp: nat, n: nat)
    requires Tidy(files)
    ensures HasStamp(Reject(files, stamp), n) <==> HasStamp(files, n)
  {
    RejectExact(files, stamp);
    if HasStamp(files, n) {
      var f :| f in files && f.stamp == n;
      if Named(f, stamp, false) { assert f.(rejected := true) in Reject(files, stamp); }
      else { assert f in Reject(files, stamp); }
    }
    if HasStamp(Reject(files, stamp), n) {
      var f :| f in Reject(files, stamp) && f.stamp == n;
      if f !in files { assert f.(rejected := false) in files; }
    }
  }

  // ---- Each step keeps the invariant ----

  lemma FlushKeeps(limit: int, s: State, a: Action)
    requires Inv(limit, s) && a.Flush? && Enabled(limit, s, a)
    ensures Inv(limit, Apply(limit, s, a))
  {
    var s' := Apply(limit, s, a);
    if s'.flusher.Pruning? && limit > 0 {
      assert Reckoned(s'.flusher) == s.files;
      GoneNone(s.files, s.files);
      forall it | it in s.files ensures it.stamp in s.used && SameBatch(s.files, it) {
        StampKnown(s.files, s.used, it);
        forall g | g in s.files && g.stamp == it.stamp ensures g.batch == it.batch && (it.rejected ==> g.rejected) { StampUnique(s.files, g, it); }
      }
    }
  }

  /** A removed file's batch is in the given set, every other batch stays: nothing is lost. */
  lemma RemoveAccounts(s: State, s': State, stamp: nat, rejected: bool)
    requires Tidy(s.files) && Accounted(s) && s'.files == Remove(s.files, stamp, rejected)
    requires s.flushed == s'.flushed && s.delivered <= s'.delivered && s.pruned <= s'.pruned
    requires forall g :: g in s.files && Named(g, stamp, rejected) ==> g.batch.id in s'.delivered + s'.pruned
    ensures Accounted(s')
  {
    RemoveExact(s.files, stamp, rejected);
    forall id | id in s'.flushed ensures id in s'.delivered || id in IdsOf(s'.files) || id in s'.pruned {
      if id in IdsOf(s.files) {
        var g :| g in s.files && g.batch.id == id;
        if !Named(g, stamp, rejected) { assert g in s'.files; IdKnown(s'.files, g); }
      }
    }
  }

  lemma {:induction false} GoneConcat(a: seq<File>, b: seq<File>, files: seq<File>)
    ensures Gone(a + b, files) == Gone(a, files) + Gone(b, files) && Total(a + b) == Total(a) + Total(b)
  {
    if a == [] {
      assert a + b == b;
    } else {
      assert (a + b)[1..] == a[1..] + b;
      GoneConcat(a[1..], b, files);
    }
  }

  lemma DropTidy(items: seq<File>, names: seq<File>)
    requires names != [] && Tidy(items + names)
    ensures Tidy(items + names[1..]) && forall it :: it in items + names[1..] ==> it in items + names
  {
    var all, rest := items + names, items + names[1..];
    forall k | 0 <= k < |rest| ensures rest[k] == all[if k < |items| then k else k + 1] { }
    forall i, j | 0 <= i < j < |rest| ensures rest[i].stamp < rest[j].stamp {
      assert all[if i < |items| then i else i + 1].stamp < all[if j < |items| then j else j + 1].stamp;
    }
  }

  /** A lookup that finds nothing takes its name off the books: either the drain has delivered the file, or a
      rejection has renamed it and it is missed. */
  lemma LookupFails(limit: int, items: seq<File>, names: seq<File>, files: seq<File>, used: set<nat>, lost: nat)
    requires names != [] && Books(limit, items + names, files, used, lost)
    requires !HasName(files, names[0].stamp, names[0].rejected)
    ensures Books(limit, items + names[1..], files, used,
                  lost + if HasStamp(files, names[0].stamp) then names[0].batch.size else 0)
  {
    var n, all, rest := names[0], items + names, items + names[1..];
    assert names == [n] + names[1..] && n in names && n in all;
    DropTidy(items, names);
    GoneConcat(items, names, files);
    GoneConcat(items, names[1..], files);
    forall g | g in files && !g.rejected && HasStamp(all, g.stamp) ensures HasStamp(rest, g.stamp) {
      var x :| x in all && x.stamp == g.stamp;
      assert g.stamp == n.stamp ==> Named(g, n.stamp, n.rejected);
      assert x in rest;
    }
  }

  lemma LookupSucceeds(files: seq<File>, n: File)
    requires Tidy(files) && SameBatch(files, n) && HasName(files, n.stamp, n.rejected)
    ensures Fetch(files, n.stamp, n.rejected) == [n]
  {
    var found := Fetch(files, n.stamp, n.rejected);
    assert found != [] && found[0] in found;
  }

  lemma StatKeeps(limit: int, s: State)
    requires Inv(limit, s) && Enabled(limit, s, StatOne)
    ensures Inv(limit, Apply(limit, s, StatOne))
  {
    var fl := s.flusher;
    var n := fl.names[0];
    assert n in fl.names && n in Reckoned(fl);
    var s' := Apply(limit, s, StatOne);
    if HasName(s.files, n.stamp, n.rejected) {
      LookupSucceeds(s.files, n);
      assert (fl.items + [n]) + fl.names[1..] == fl.items + fl.names;
      GoneConcat(fl.items, [n], s.files);
      assert [n][1..] == [];
    } else {
      LookupFails(limit, fl.items, fl.names, s.files, s.used, fl.missed + fl.skipped);
    }
  }

  /** How the books of the prune in progress change when it removes its next item. */
  lemma PruneBooks(limit: int, items: seq<File>, files: seq<File>, used: set<nat>, lost: nat)
    requires limit > 0 && items != [] && Tidy(files) && Books(limit, items, files, used, lost)
    ensures var it := items[0];
            var files' := Remove(files, it.stamp, it.rejected);
            var there := HasName(files, it.stamp, it.rejected);
            Books(limit, items[1..], files', used, lost + if !there && HasStamp(files, it.stamp) then it.batch.size else 0)
  {
    var it := items[0];
    assert it in items;
    var files' := Remove(files, it.stamp, it.rejected);
    TidyTail(items);
    forall x | x in items[1..] ensures x in items { Members(items, x); }
    forall x | x in items[1..] ensures HasStamp(files, x.stamp) <==> HasStamp(files', x.stamp) {
      RemoveStamps(files, it.stamp, it.rejected, x.stamp);
    }
    GoneSame(items[1..], files, files');
    RemoveExact(files, it.stamp, it.rejected);
    forall g | g in files' && !g.rejected ensures HasStamp(items[1..], g.stamp) {
      assert g.stamp != it.stamp;
      var x :| x in items && x.stamp == g.stamp;
      Members(items, x);
    }
    if HasName(files, it.stamp, it.rejected) {
      var g :| g in files && Named(g, it.stamp, it.rejected);
      RemoveTotal(files, g);
    } else {
      RemoveTotal(files, it);
    }
  }

  lemma PruneKeeps(limit: int, s: State)
    requires Inv(limit, s) && Enabled(limit, s, PruneOne)
    ensures Inv(limit, Apply(limit, s, PruneOne))
  {
    var s' := Apply(limit, s, PruneOne);
    var items := s.flusher.items;
    var it := items[0];
    assert it in items && Reckoned(s.flusher) == items && Reckoned(s'.flusher) == items[1..];
    RemoveExact(s.files, it.stamp, it.rejected);
    RemoveAccounts(s, s', it.stamp, it.rejected);
    PruneBooks(limit, items, s.files, s.used, s.flusher.missed + s.flusher.skipped);
  }

  lemma WriteKeeps(limit: int, s: State, stamp: nat)
    requires Inv(limit, s) && Enabled(limit, s, WriteFile(stamp)) && stamp !in s.used
    ensures Inv(limit, Apply(limit, s, WriteFile(stamp)))
  {
    var s' := Apply(limit, s, WriteFile(stamp));
    var f := File(stamp, false, s.flusher.batch);
    forall g | g in s.files ensures g.stamp != stamp { StampKnown(s.files, s.used, g); }
    PutFresh(s.files, f);
    IdKnown(s'.files, f);
    forall id | id in s.flushed && id in IdsOf(s.files) ensures id in IdsOf(s'.files) {
      var g :| g in s.files && g.batch.id == id;
      IdKnown(s'.files, g);
    }
    forall n | n in StampsOf(s'.files) ensures n in s'.used {
      var g :| g in s'.files && g.stamp == n;
      if g != f { StampKnown(s.files, s.used, g); }
    }
  }

  lemma RemovingKeeps(limit: int, s: State)
    requires Inv(limit, s) && s.drainer.Removing?
    ensures Inv(limit, Apply(limit, s, DrainFinish))
    ensures Total(Apply(limit, s, DrainFinish).files) <= Total(s.files)
  {
    var s', f := Apply(limit, s, DrainFinish), s.drainer.file;
    RemoveExact(s.files, f.stamp, false);
    RemoveAccounts(s, s', f.stamp, false);
    if HasName(s.files, f.stamp, false) {
      var g :| g in s.files && Named(g, f.stamp, false);
      RemoveTotal(s.files, g);
      if s.flusher.Pruning? {
        var items := Reckoned(s.flusher);
        forall n | n != g.stamp ensures HasStamp(s.files, n) <==> HasStamp(s'.files, n) {
          RemoveStamps(s.files, f.stamp, false, n);
        }
        forall h | h in s'.files ensures h.stamp != g.stamp { if h.stamp == g.stamp { StampUnique(s.files, g, h); } }
        if limit > 0 { GoneLoses(items, s.files, s'.files, g); }
      }
    } else {
      RemoveTotal(s.files, f);
    }
  }

  lemma RenamingKeeps(limit: int, s: State)
    requires Inv(limit, s) && s.drainer.Renaming?
    ensures Inv(limit, Apply(limit, s, DrainFinish))
    ensures Total(Apply(limit, s, DrainFinish).files) == Total(s.files)
  {
    var s', f := Apply(limit, s, DrainFinish), s.drainer.file;
    RejectExact(s.files, f.stamp);
    forall g | g in s'.files ensures g.stamp in s.used && g.(rejected := false).batch == g.batch {
      if g in s.files { StampKnown(s.files, s.used, g); }
      else { StampKnown(s.files, s.used, g.(rejected := false)); }
    }
    forall id | id in IdsOf(s.files) ensures id in IdsOf(s'.files) {
      var g :| g in s.files && g.batch.id == id;
      if Named(g, f.stamp, false) {
        assert g.(rejected := true).(rejected := false) == g;
        IdKnown(s'.files, g.(rejected := true));
      } else {
        IdKnown(s'.files, g);
      }
    }
    if s.flusher.Pruning? {
      var items := Reckoned(s.flusher);
      forall it | it in items ensures HasStamp(s.files, it.stamp) <==> HasStamp(s'.files, it.stamp) {
        RejectStamps(s.files, f.stamp, it.stamp);
      }
      GoneSame(items, s.files, s'.files);
      forall it | it in items ensures SameBatch(s'.files, it) {
        forall g | g in s'.files && g.stamp == it.stamp ensures g.batch == it.batch && (it.rejected ==> g.rejected) {
          if g !in s.files { assert g.(rejected := false) in s.files; }
        }
      }
    }
  }

  lemma ReadKeeps(limit: int, s: State)
    requires Inv(limit, s) && Enabled(limit, s, DrainRead)
    ensures Inv(limit, Apply(limit, s, DrainRead))
  {
    var got := Fetch(s.files, s.drainer.todo[0], false);
    if got != [] {
      var f := got[0];
      assert f in got;
      StampKnown(s.files, s.used, f);
      forall g | g in s.files && g.stamp == f.stamp ensures g.batch == f.batch && (f.rejected ==> g.rejected) { StampUnique(s.files, g, f); }
    }
  }

  lemma OthersKeep(limit: int, s: State, a: Action)
    requires Inv(limit, s) && Enabled(limit, s, a) && (a.DrainStart? || a.DrainReply? || a.DrainStop?)
    ensures Inv(limit, Apply(limit, s, a))
  {
  }

  /** Every step of either activity, against any server, keeps the invariant. */
  lemma StepKeepsInv(limit: int, s: State, a: Action)
    requires Inv(limit, s) && Enabled(limit, s, a) && FreshClock(s, a)
    ensures Inv(limit, Apply(limit, s, a))
  {
    hide Inv, Apply;
    match a
    case Flush(_, _, _) => FlushKeeps(limit, s, a);
    case StatOne => StatKeeps(limit, s);
    case PruneOne => PruneKeeps(limit, s);
    case WriteFile(stamp) => WriteKeeps(limit, s, stamp);
    case DrainRead => ReadKeeps(limit, s);
    case DrainFinish => if s.drainer.Removing? { RemovingKeeps(limit, s); } else { RenamingKeeps(limit, s); }
    case _ => OthersKeep(limit, s, a);
  }

  // ---- Whole runs ----

  /** A shipper starting over whatever an earlier run left in the spool. */
  function Start(files: seq<File>): (r: State) {
    State(files, Idle, Resting, 0, IdsOf(files), {}, {}, StampsOf(files))
  }

  /** Each action is possible when its turn comes, and the clock never repeats a stamp. */
  ghost predicate Runs(limit: int, s: State, acts: seq<Action>)
    decreases |acts|
  {
    acts == [] ||
    (Enabled(limit, s, acts[0]) && FreshClock(s, acts[0]) && Runs(limit, Apply(limit, s, acts[0]), acts[1..]))
  }

  ghost function Outcome(limit: int, s: State, acts: seq<Action>): (r: State)
    requires Runs(limit, s, acts)
    decreases |acts|
  {
    if acts == [] then s else Outcome(limit, Apply(limit, s, acts[0]), acts[1..])
  }

  /** A run can be extended at its end. */
  lemma {:induction false} RunsAppend(limit: int, s: State, acts: seq<Action>, a: Action)
    requires Runs(limit, s, acts) && Enabled(limit, Outcome(limit, s, acts), a) && FreshClock(Outcome(limit, s, acts), a)
    ensures Runs(limit, s, acts + [a])
    ensures Outcome(limit, s, acts + [a]) == Apply(limit, Outcome(limit, s, acts), a)
    decreases |acts|
  {
    if acts == [] {
      assert (acts + [a])[1..] == [];
    } else {
      assert (acts + [a])[1..] == acts[1..] + [a];
      RunsAppend(limit, Apply(limit, s, acts[0]), acts[1..], a);
    }
  }

  lemma {:induction false} RunKeepsInv(limit: int, s: State, acts: seq<Action>)
    requires Inv(limit, s) && Runs(limit, s, acts)
    ensures Inv(limit, Outcome(limit, s, acts))
    decreases |acts|
  {
    if acts != [] {
      StepKeepsInv(limit, s, acts[0]);
      RunKeepsInv(limit, Apply(limit, s, acts[0]), acts[1..]);
    }
  }

  // ---- What has happened in a run, told by its actions ----

  /** Some action of the run, in the state it was taken in, is of this kind. */
  ghost predicate Happened(limit: int, s: State, acts: seq<Action>, kind: (State, Action) -> bool)
    requires Runs(limit, s, acts)
    decreases |acts|
  {
    acts != [] && (kind(s, acts[0]) || Happened(limit, Apply(limit, s, acts[0]), acts[1..], kind))
  }

  /** The run loop takes the batch up. */
  function Flushes(id: nat): (State, Action) -> bool {
    (s: State, a: Action) => a.Flush? && a.batch.id == id
  }

  /** A server says 2xx to this very batch, in the place where the agent heeds it. */
  function Confirms(id: nat): (State, Action) -> bool {
    (s: State, a: Action) =>
      || (a.Flush? && a.batch.id == id && !a.shutdown && FirstDecision(a.replies, 2))
      || (a.DrainReply? && s.drainer.Posting? && s.drainer.file.batch.id == id && FirstAnswer(a.answers, 2))
  }

  /** The first answer to the post of this file is of this class. */
  function Answers(f: File, hundred: nat): (State, Action) -> bool {
    (s: State, a: Action) => a.DrainReply? && s.drainer.Posting? && s.drainer.file == f && FirstAnswer(a.answers, hundred)
  }

  /** A prune that is over its limit removes a file of this batch. */
  ghost function PrunesAway(limit: int, id: nat): (State, Action) -> bool {
    (s: State, a: Action) =>
      && a.PruneOne? && s.flusher.Pruning? && s.flusher.items != [] && s.flusher.total > limit > 0
      && var it := s.flusher.items[0]; exists f :: f in s.files && Named(f, it.stamp, it.rejected) && f.batch.id == id
  }

  lemma {:induction false} DeliveredIffConfirmed(limit: int, s: State, acts: seq<Action>, id: nat)
    requires Runs(limit, s, acts)
    ensures id in Outcome(limit, s, acts).delivered <==> id in s.delivered || Happened(limit, s, acts, Confirms(id))
    decreases |acts|
  {
    if acts != [] {
      var a := acts[0];
      if a.Flush? { SendVerdictMeans(a.replies); }
      if a.DrainReply? { DrainVerdictMeans(a.answers); }
      assert id in Apply(limit, s, a).delivered <==> id in s.delivered || Confirms(id)(s, a);
      DeliveredIffConfirmed(limit, Apply(limit, s, a), acts[1..], id);
    }
  }

  lemma PruneStep(limit: int, s: State, a: Action, id: nat)
    requires Inv(limit, s) && Enabled(limit, s, a)
    ensures id in Apply(limit, s, a).pruned <==> id in s.pruned || PrunesAway(limit, id)(s, a)
  {
    if a.PruneOne? {
      var it := s.flusher.items[0];
      assert it in s.flusher.items && Reckoned(s.flusher) == s.flusher.items;
      assert SameBatch(s.files, it);
    }
  }

  lemma {:induction false} PrunedIff(limit: int, s: State, acts: seq<Action>, id: nat)
    requires Inv(limit, s) && Runs(limit, s, acts)
    ensures id in Outcome(limit, s, acts).pruned <==> id in s.pruned || Happened(limit, s, acts, PrunesAway(limit, id))
    decreases |acts|
  {
    if acts != [] {
      PruneStep(limit, s, acts[0], id);
      StepKeepsInv(limit, s, acts[0]);
      hide Inv, Apply, PrunesAway;
      PrunedIff(limit, Apply(limit, s, acts[0]), acts[1..], id);
    }
  }

  /** The run loop has taken this batch up: it is done with it, or still pruning for it. */
  predicate TakenUp(s: State, id: nat) {
    id in s.flushed || (s.flusher.Pruning? && s.flusher.batch.id == id)
  }

  lemma {:induction false} TakenUpIff(limit: int, s: State, acts: seq<Action>, id: nat)
    requires Runs(limit, s, acts)
    ensures TakenUp(Outcome(limit, s, acts), id) <==> TakenUp(s, id) || Happened(limit, s, acts, Flushes(id))
    decreases |acts|
  {
    if acts != [] {
      assert TakenUp(Apply(limit, s, acts[0]), id) <==> TakenUp(s, id) || Flushes(id)(s, acts[0]);
      TakenUpIff(limit, Apply(limit, s, acts[0]), acts[1..], id);
    }
  }

  /** The drain is about to act on an answer of this class. */
  predicate ActsOn(s: State, f: File, hundred: nat) {
    || (hundred == 2 && s.drainer.Removing? && s.drainer.file == f)
    || (hundred == 4 && s.drainer.Renaming? && s.drainer.file == f)
  }

  lemma {:induction false} ActsOnAnswer(limit: int, s: State, acts: seq<Action>, f: File, hundred: nat)
    requires Runs(limit, s, acts) && ActsOn(Outcome(limit, s, acts), f, hundred)
    ensures ActsOn(s, f, hundred) || Happened(limit, s, acts, Answers(f, hundred))
    decreases |acts|
  {
    if acts != [] {
      var a := acts[0];
      if a.DrainReply? { DrainVerdictMeans(a.answers); }
      assert ActsOn(Apply(limit, s, a), f, hundred) ==> ActsOn(s, f, hundred) || Answers(f, hundred)(s, a);
      ActsOnAnswer(limit, Apply(limit, s, a), acts[1..], f, hundred);
    }
  }

  /** No loss, in every run and every interleaving: a batch that was spooled before or is flushed in the run is
      still being made room for, or a server has said 2xx to it, or it is on disk as a spooled or rejected
      file, or a prune over its limit has removed it; and such batches never outnumber the dropped counter. */
  lemma NoBatchLost(limit: int, files: seq<File>, acts: seq<Action>, id: nat)
    requires Tidy(files) && Runs(limit, Start(files), acts)
    ensures var start := Start(files);
            var s := Outcome(limit, start, acts);
            && (id in IdsOf(files) || Happened(limit, start, acts, Flushes(id)) ==>
                  || (s.flusher.Pruning? && s.flusher.batch.id == id)
                  || Happened(limit, start, acts, Confirms(id))
                  || id in IdsOf(s.files)
                  || Happened(limit, start, acts, PrunesAway(limit, id)))
            && (id in s.pruned <==> Happened(limit, start, acts, PrunesAway(limit, id))) && |s.pruned| <= s.dropped
  {
    var start := Start(files);
    StartOk(limit, files);
    RunKeepsInv(limit, start, acts);
    TakenUpIff(limit, start, acts, id);
    DeliveredIffConfirmed(limit, start, acts, id);
    PrunedIff(limit, start, acts, id);
  }

  lemma StartOk(limit: int, files: seq<File>)
    requires Tidy(files)
    ensures Inv(limit, Start(files))
  {
  }

  /** After any run: a file leaves the spool only when the first answer to its own post was a 2xx, when it was
      a 4xx, which sets it aside, or by a prune over its limit that counts it, and then it is the oldest listed. */
  lemma LeavesOnlyBy(limit: int, files: seq<File>, acts: seq<Action>, a: Action, f: File)
    requires Tidy(files) && Runs(limit, Start(files), acts)
    requires Enabled(limit, Outcome(limit, Start(files), acts), a) && FreshClock(Outcome(limit, Start(files), acts), a)
    requires f in Outcome(limit, Start(files), acts).files
    requires f !in Apply(limit, Outcome(limit, Start(files), acts), a).files
    ensures var s := Outcome(limit, Start(files), acts);
            var s' := Apply(limit, s, a);
            || (a.DrainFinish? && Happened(limit, Start(files), acts, Answers(f, 2)))
            || (a.DrainFinish? && Happened(limit, Start(files), acts, Answers(f, 4)) && f.(rejected := true) in s'.files)
            || (PrunesAway(limit, f.batch.id)(s, a) && s'.dropped == s.dropped + 1 &&
                forall it :: it in s.flusher.items ==> f.stamp <= it.stamp)
  {
    var s := Outcome(limit, Start(files), acts);
    StartOk(limit, files);
    RunKeepsInv(limit, Start(files), acts);
    LeavesStep(limit, s, a, f);
    hide Inv, Apply;
    if ActsOn(s, f, 2) { ActsOnAnswer(limit, Start(files), acts, f, 2); }
    if ActsOn(s, f, 4) { ActsOnAnswer(limit, Start(files), acts, f, 4); }
  }

  lemma LeavesStep(limit: int, s: State, a: Action, f: File)
    requires Inv(limit, s) && Enabled(limit, s, a) && FreshClock(s, a)
    requires f in s.files && f !in Apply(limit, s, a).files
    ensures var s' := Apply(limit, s, a);
            || (a.DrainFinish? && ActsOn(s, f, 2))
            || (a.DrainFinish? && ActsOn(s, f, 4) && f.(rejected := true) in s'.files)
            || (PrunesAway(limit, f.batch.id)(s, a) && s'.dropped == s.dropped + 1 &&
                forall it :: it in s.flusher.items ==> f.stamp <= it.stamp)
  {
    match a
    case PruneOne =>
      var items := s.flusher.items;
      var it := items[0];
      assert it in items && Reckoned(s.flusher) == items;
      RemoveExact(s.files, it.stamp, it.rejected);
      TidyTail(items);
      forall x | x in items ensures f.stamp <= x.stamp { Members(items, x); }
    case WriteFile(stamp) =>
      forall g | g in s.files ensures g.stamp != stamp { StampKnown(s.files, s.used, g); }
      PutFresh(s.files, File(stamp, false, s.flusher.batch));
    case DrainFinish =>
      RemoveExact(s.files, s.drainer.file.stamp, false);
      RejectExact(s.files, s.drainer.file.stamp);
      assert f.(rejected := true).(rejected := f.rejected) == f;
    case _ =>
  }

  /** Spool bound, exactly: right after any write the total is what the prune believed to be left, plus the
      files a rejection renamed from under its listing or its removal, less the listed files the drain has
      delivered meanwhile, plus the write. So it is within limit plus write if and only if the renamed files
      fit in the slack. */
  lemma BoundAfterWrite(limit: int, s: State, stamp: nat)
    requires limit > 0 && Inv(limit, s) && Enabled(limit, s, WriteFile(stamp)) && stamp !in s.used
    ensures var after := Total(Apply(limit, s, WriteFile(stamp)).files);
            var left, gone, size := s.flusher.total, Gone(s.flusher.items, s.files), s.flusher.batch.size;
            var renamed := s.flusher.missed + s.flusher.skipped;
            && after == left + renamed - gone + size
            && (after <= limit + size <==> renamed <= limit - left + gone)
            && (renamed == 0 ==> after <= limit + size)
  {
    forall g | g in s.files ensures g.stamp != stamp { StampKnown(s.files, s.used, g); }
    assert Reckoned(s.flusher) == s.flusher.items;
    PutFresh(s.files, File(stamp, false, s.flusher.batch));
  }

  /** In every run and every interleaving: a write after a prune from under which nothing was renamed keeps
      the spool within the limit plus that write. */
  lemma BoundInEveryRun(limit: int, files: seq<File>, acts: seq<Action>, stamp: nat)
    requires limit > 0 && Tidy(files) && Runs(limit, Start(files), acts)
    requires var s := Outcome(limit, Start(files), acts);
             Enabled(limit, s, WriteFile(stamp)) && stamp !in s.used && s.flusher.missed == 0 && s.flusher.skipped == 0
    ensures var s := Outcome(limit, Start(files), acts);
            Total(Apply(limit, s, WriteFile(stamp)).files) <= limit + s.flusher.batch.size
  {
    RunKeepsInv(limit, Start(files), acts);
    BoundAfterWrite(limit, Outcome(limit, Start(files), acts), stamp);
  }

  /** A name on the books is renamed: it was listed as waiting, and is now set aside as rejected. */
  predicate RenamedSince(files: seq<File>, it: File) {
    it.batch.size > 0 && !it.rejected && HasName(files, it.stamp, true)
  }

  lemma GoneOrRenamed(files: seq<File>, it: File)
    requires Tidy(files) && SameBatch(files, it) && it.batch.size > 0
    ensures !HasName(files, it.stamp, it.rejected) && HasStamp(files, it.stamp) <==> RenamedSince(files, it)
  {
    if HasStamp(files, it.stamp) {
      var g :| g in files && g.stamp == it.stamp;
      if HasName(files, it.stamp, it.rejected) {
        var h :| h in files && Named(h, it.stamp, it.rejected);
        StampUnique(files, g, h);
      }
      if HasName(files, it.stamp, true) {
        var h :| h in files && Named(h, it.stamp, true);
        StampUnique(files, g, h);
      }
    }
  }

  /** What the prune skips and misses: an item counts as removed without being removed, and a name is not
      counted although its file is there, precisely when a rejection has renamed it in between. */
  lemma LosesOnlyRenamed(limit: int, s: State)
    requires Inv(limit, s)
    ensures Enabled(limit, s, PruneOne) ==>
      (Apply(limit, s, PruneOne).flusher.skipped > s.flusher.skipped <==> RenamedSince(s.files, s.flusher.items[0]))
    ensures Enabled(limit, s, StatOne) ==>
      (Apply(limit, s, StatOne).flusher.missed > s.flusher.missed <==> RenamedSince(s.files, s.flusher.names[0]))
  {
    if Enabled(limit, s, PruneOne) {
      var it := s.flusher.items[0];
      assert it in s.flusher.items && it in Reckoned(s.flusher);
      if it.batch.size > 0 { GoneOrRenamed(s.files, it); }
    } else if Enabled(limit, s, StatOne) {
      var it := s.flusher.names[0];
      assert it in s.flusher.names && it in Reckoned(s.flusher);
      if it.batch.size > 0 { GoneOrRenamed(s.files, it); }
      if HasName(s.files, it.stamp, it.rejected) { LookupSucceeds(s.files, it); }
    }
  }

  /** No step of the drain, and no prune, ever raises the total. */
  lemma OnlyWritesRaise(limit: int, s: State, a: Action)
    requires Inv(limit, s) && Enabled(limit, s, a) && !a.WriteFile?
    ensures Total(Apply(limit, s, a).files) <= Total(s.files)
  {
    match a
    case PruneOne =>
      var it := s.flusher.items[0];
      assert it in s.flusher.items && it in Reckoned(s.flusher);
      if HasName(s.files, it.stamp, it.rejected) {
        var g :| g in s.files && Named(g, it.stamp, it.rejected);
        RemoveTotal(s.files, g);
      } else {
        RemoveTotal(s.files, it);
      }
    case DrainFinish => if s.drainer.Removing? { RemovingKeeps(limit, s); } else { RenamingKeeps(limit, s); }
    case _ =>
  }

  // ---- A rejection in the middle of a prune ----

  /** Two 8-byte files under a limit of 10; the older is rejected and renamed while a prune is under way. */
  const Old := File(1, false, Batch(0, 8))
  const Young := File(2, false, Batch(1, 8))
  const Extra := Batch(2, 5)

  /** The rejection: the drain reads the older file, the server answers 403, the file is renamed. */
  const Rejection: seq<Action> := [DrainStart, DrainRead, DrainReply([Status(403)]), DrainFinish]

  /** It comes between lookup and removal, or between listing and lookup. */
  function RaceActions(late: bool): seq<Action> {
    if late then [Flush(Extra, true, []), StatOne, StatOne] + Rejection + [PruneOne, WriteFile(3)]
    else [Flush(Extra, true, [])] + Rejection + [StatOne, StatOne, WriteFile(3)]
  }

  const Base := State([Old, Young], Idle, Resting, 0, {0, 1}, {}, {}, {1, 2})
  const Aside: seq<File> := [Old.(rejected := true), Young]

  function RaceFlusher(late: bool): Flusher {
    if late then Pruning(Extra, [], [Old, Young], 16, 0, 0) else Pruning(Extra, [Old, Young], [], 0, 0, 0)
  }

  lemma RaceListing()
    ensures Start([Old, Young]) == Base && Total([Old, Young]) == 16 && Tidy([Old, Young])
    ensures Pending([Old, Young]) == [1, 2]
    ensures Fetch([Old, Young], 1, false) == [Old] && Fetch([Old, Young], 2, false) == [Young]
    ensures Reject([Old, Young], 1) == Aside
    ensures Fetch(Aside, 1, false) == [] && Fetch(Aside, 2, false) == [Young] && HasStamp(Aside, 1)
  {
    var files := [Old, Young];
    assert files[1..] == [Young] && [Young][1..] == [] && Aside[1..] == [Young] && Aside[0] in Aside;
    assert Fetch([Young], 1, false) == Fetch([], 1, false);
    assert Total([Young]) == Young.batch.size + Total([]) && Total(files) == Old.batch.size + Total(files[1..]);
    assert Pending([Young]) == [2] + Pending([]) && Pending(files) == [1] + Pending(files[1..]);
    assert IdsOf([Old, Young]) == {0, 1} && StampsOf([Old, Young]) == {1, 2};
  }

  /** One step of a run, checked against the state it should lead to. */
  lemma RunOn(limit: int, s: State, acts: seq<Action>, a: Action, next: State)
    requires Runs(limit, s, acts) && Enabled(limit, Outcome(limit, s, acts), a) && FreshClock(Outcome(limit, s, acts), a)
    requires Apply(limit, Outcome(limit, s, acts), a) == next
    ensures Runs(limit, s, acts + [a]) && Outcome(limit, s, acts + [a]) == next
  {
    RunsAppend(limit, s, acts, a);
  }

  /** The four steps of the rejection, after any run that has not touched the files. */
  lemma RejectionRuns(acts: seq<Action>, fl: Flusher)
    requires Runs(10, Base, acts) && Outcome(10, Base, acts) == Base.(flusher := fl)
    ensures Runs(10, Base, acts + Rejection)
    ensures Outcome(10, Base, acts + Rejection) == Base.(flusher := fl, files := Aside, drainer := Draining([2]))
  {
    RaceListing();
    var s := Base.(flusher := fl);
    assert [1, 2][1..] == [2];
    RunOn(10, Base, acts, DrainStart, s.(drainer := Draining([1, 2])));
    RunOn(10, Base, acts + [DrainStart], DrainRead, s.(drainer := Posting(Old, [2])));
    RunOn(10, Base, acts + [DrainStart] + [DrainRead], DrainReply([Status(403)]), s.(drainer := Renaming(Old, [2])));
    RunOn(10, Base, acts + [DrainStart] + [DrainRead] + [DrainReply([Status(403)])], DrainFinish,
          s.(files := Aside, drainer := Draining([2])));
    assert acts + [DrainStart] + [DrainRead] + [DrainReply([Status(403)])] + [DrainFinish] == acts + Rejection;
  }

  lemma RaceFlush()
    ensures Runs(10, Base, [Flush(Extra, true, [])])
    ensures Outcome(10, Base, [Flush(Extra, true, [])]) == Base.(flusher := RaceFlusher(false))
  {
    assert [] + [Flush(Extra, true, [])] == [Flush(Extra, true, [])];
    RunOn(10, Base, [], Flush(Extra, true, []), Base.(flusher := RaceFlusher(false)));
  }

  /** Both lookups before the rejection. */
  lemma RaceLookups()
    ensures Runs(10, Base, [Flush(Extra, true, []), StatOne, StatOne])
    ensures Outcome(10, Base, [Flush(Extra, true, []), StatOne, StatOne]) == Base.(flusher := RaceFlusher(true))
  {
    RaceFlush();
    RaceListing();
    var f := Flush(Extra, true, []);
    assert [Old, Young][1..] == [Young] && [Young][1..] == [] && [] + [Old] == [Old] && [Old] + [Young] == [Old, Young];
    RunOn(10, Base, [f], StatOne, Base.(flusher := Pruning(Extra, [Young], [Old], 8, 0, 0)));
    assert [f] + [StatOne] == [f, StatOne];
    RunOn(10, Base, [f, StatOne], StatOne, Base.(flusher := RaceFlusher(true)));
    assert [f, StatOne] + [StatOne] == [f, StatOne, StatOne];
  }

  /** The write at the end of either race. */
  lemma RaceWrite(acts: seq<Action>, fl: Flusher)
    requires Runs(10, Base, acts) && fl.Pruning? && fl.names == [] && fl.total <= 10 && fl.batch == Extra
    requires Outcome(10, Base, acts).files == Aside && Outcome(10, Base, acts).flusher == fl
    requires Outcome(10, Base, acts).used == {1, 2}
    ensures Runs(10, Base, acts + [WriteFile(3)]) && Total(Outcome(10, Base, acts + [WriteFile(3)]).files) == 21
  {
    var f := File(3, false, Extra);
    RunsAppend(10, Base, acts, WriteFile(3));
    assert Aside[1..] == [Young] && [Young][1..] == [];
    assert Put([Young], f) == [Young] + Put([], f) == [Young, f];
    assert Put(Aside, f) == [Aside[0]] + Put([Young], f) == [Aside[0], Young, f];
    assert [Aside[0], Young, f][1..] == [Young, f] && [Young, f][1..] == [f] && [f][1..] == [];
    assert Total([f]) == 5 && Total([Young, f]) == 13 && Total([Aside[0], Young, f]) == 21;
  }

  /** The rejection renames the file after its lookup: the prune counts it as removed. */
  lemma LateRace()
    ensures Runs(10, Base, RaceActions(true)) && Total(Outcome(10, Base, RaceActions(true)).files) == 21
  {
    var start := [Flush(Extra, true, []), StatOne, StatOne];
    RaceLookups();
    RejectionRuns(start, RaceFlusher(true));
    RaceListing();
    var s := Base.(flusher := RaceFlusher(true), files := Aside, drainer := Draining([2]));
    assert !HasName(Aside, 1, false) && [Old, Young][1..] == [Young];
    RemoveTotal(Aside, Old);
    var fl := Pruning(Extra, [], [Young], 8, 0, 8);
    RunOn(10, Base, start + Rejection, PruneOne, s.(flusher := fl, dropped := 1));
    RaceWrite(start + Rejection + [PruneOne], fl);
    assert start + Rejection + [PruneOne] + [WriteFile(3)] == RaceActions(true);
  }

  /** The lookups after the rejection: the first finds nothing, the second the younger file. */
  lemma LookupMisses()
    ensures var s := Base.(files := Aside, drainer := Draining([2]));
            && Enabled(10, s.(flusher := RaceFlusher(false)), StatOne)
            && Apply(10, s.(flusher := RaceFlusher(false)), StatOne) == s.(flusher := Pruning(Extra, [Young], [], 0, 8, 0))
            && Apply(10, s.(flusher := Pruning(Extra, [Young], [], 0, 8, 0)), StatOne) ==
                 s.(flusher := Pruning(Extra, [], [Young], 8, 8, 0))
  {
    RaceListing();
    hide Fetch, HasStamp;
    assert [Old, Young][1..] == [Young] && [Young][1..] == [] && [] + [Young] == [Young];
  }

  lemma LateLookups()
    ensures var acts := [Flush(Extra, true, [])] + Rejection + [StatOne, StatOne];
            && Runs(10, Base, acts)
            && Outcome(10, Base, acts) == Base.(files := Aside, drainer := Draining([2]),
                                                flusher := Pruning(Extra, [], [Young], 8, 8, 0))
  {
    hide Runs, Outcome, Apply;
    var start := [Flush(Extra, true, [])];
    RaceFlush();
    RejectionRuns(start, RaceFlusher(false));
    LookupMisses();
    var s := Base.(files := Aside, drainer := Draining([2]));
    var so := start + Rejection;
    RunOn(10, Base, so, StatOne, s.(flusher := Pruning(Extra, [Young], [], 0, 8, 0)));
    RunOn(10, Base, so + [StatOne], StatOne, s.(flusher := Pruning(Extra, [], [Young], 8, 8, 0)));
    assert so + [StatOne] + [StatOne] == so + [StatOne, StatOne];
  }

  /** The rejection renames the file after it was listed but before its lookup: the prune never sees it. */
  lemma EarlyRace()
    ensures Runs(10, Base, RaceActions(false)) && Total(Outcome(10, Base, RaceActions(false)).files) == 21
  {
    var acts := [Flush(Extra, true, [])] + Rejection + [StatOne, StatOne];
    LateLookups();
    RaceWrite(acts, Pruning(Extra, [], [Young], 8, 8, 0));
    assert acts + [WriteFile(3)] == RaceActions(false);
  }

  /** Either race breaks the bound: 21 bytes are left where limit plus write allow 15, in the second one
      although nothing is skipped (`LateLookups` shows the prune about to write). */
  lemma RejectionDuringPruneBreaksBound(late: bool)
    ensures Tidy([Old, Young]) && Start([Old, Young]) == Base && Runs(10, Start([Old, Young]), RaceActions(late))
    ensures Total(Outcome(10, Start([Old, Young]), RaceActions(late)).files) == 21 > 10 + Extra.size
  {
    RaceListing();
    if late { LateRace(); } else { EarlyRace(); }
  }

  /** Why the clock must not repeat itself: a write keeps every spooled file exactly when no spooled file
      already has the name it picks. */
  lemma WriteKeepsAllIff(files: seq<File>, f: File)
    requires Tidy(files) && f !in files
    ensures (forall g :: g in files ==> g in Put(files, f)) <==> !HasName(files, f.stamp, f.rejected)
  {
    PutOverwrites(files, f);
  }

  lemma {:induction false} PutOverwrites(files: seq<File>, f: File)
    requires Tidy(files) && f !in files
    ensures forall g :: g in files && !SameName(g, f) ==> g in Put(files, f)
    ensures forall g :: g in files && SameName(g, f) ==> g !in Put(files, f)
  {
    if files != [] {
      var head, rest := files[0], files[1..];
      TidyTail(files);
      forall g ensures g in files <==> g == head || g in rest { Members(files, g); }
      if Before(head, f) && !SameName(head, f) { PutOverwrites(rest, f); }
    }
  }
}

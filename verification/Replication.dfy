/** Watermark pull replication: a source serves events newer than a watermark, a collector appends what it
    receives and advances the watermark to the newest received_at it has written. */
module Replication {

  import opened Wrappers

  /** Times are nanoseconds since the zero time, which stands for "no watermark yet". */
  type Time = nat
  const DAY: nat := 86_400_000_000_000

  function Midnight(t: Time): Time { t - t % DAY }

  /** A logged event; `at` is its received_at, if present and well-formed. */
  datatype Event = Event(id: nat, at: Option<Time>)

  /** One log file; `date` is the day in its name, if there is one. */
  datatype LogFile = LogFile(date: Option<Time>, events: seq<Event>)

  // ---- The source ----

  /** handleSyncEvents: a whole file is skipped by its date, a single event by its received_at. */
  predicate SkipsFile(f: LogFile, since: Time) { f.date.Some? && since != 0 && f.date.value < Midnight(since) }

  predicate SkipsEvent(e: Event, since: Time) { e.at.Some? && since != 0 && e.at.value <= since }

  function Unseen(events: seq<Event>, since: Time): (r: seq<Event>) {
    if events == [] then []
    else (if SkipsEvent(events[0], since) then [] else [events[0]]) + Unseen(events[1..], since)
  }

  function Served(files: seq<LogFile>, since: Time): (r: seq<Event>) {
    if files == [] then []
    else (if SkipsFile(files[0], since) then [] else Unseen(files[0].events, since)) + Served(files[1..], since)
  }

  lemma UnseenStep(events: seq<Event>, j: nat, since: Time, out: seq<Event>)
    requires j < |events| && out + Unseen(events[j..], since) == Unseen(events, since)
    ensures (if SkipsEvent(events[j], since) then out else out + [events[j]]) + Unseen(events[j + 1..], since) ==
            Unseen(events, since)
  {
    assert events[j..][0] == events[j] && events[j..][1..] == events[j + 1..];
    assert out + ([events[j]] + Unseen(events[j + 1..], since)) == out + [events[j]] + Unseen(events[j + 1..], since);
  }

  /** The scan of one file. */
  method ServeFile(events: seq<Event>, since: Time) returns (out: seq<Event>)
    ensures out == Unseen(events, since)
  {
    out := [];
    for j := 0 to |events|
      invariant out + Unseen(events[j..], since) == Unseen(events, since)
    {
      UnseenStep(events, j, since, out);
      if SkipsEvent(events[j], since) { continue; }
      out := out + [events[j]];
    }
  }

  /** The walk over files and lines. */
  method HandleSyncEvents(files: seq<LogFile>, since: Time) returns (out: seq<Event>)
    ensures out == Served(files, since)
  {
    out := [];
    for i := 0 to |files|
      invariant out == Served(files[..i], since)
    {
      ServedNext(files, i, since);
      if SkipsFile(files[i], since) { continue; }
      var more := ServeFile(files[i].events, since);
      out := out + more;
    }
    assert files[..|files|] == files;
  }

  lemma {:induction false} ServedConcat(a: seq<LogFile>, b: seq<LogFile>, since: Time)
    ensures Served(a + b, since) == Served(a, since) + Served(b, since)
  {
    if a == [] {
      assert a + b == b;
    } else {
      assert (a + b)[1..] == a[1..] + b;
      ServedConcat(a[1..], b, since);
    }
  }

  lemma ServedNext(files: seq<LogFile>, i: nat, since: Time)
    requires i < |files|
    ensures Served(files[..i + 1], since) ==
            Served(files[..i], since) + if SkipsFile(files[i], since) then [] else Unseen(files[i].events, since)
  {
    assert files[..i + 1] == files[..i] + [files[i]];
    ServedConcat(files[..i], [files[i]], since);
    assert [files[i]][1..] == [];
  }

  /** The day a time falls on. */
  lemma MidnightIs(t: Time)
    ensures Midnight(t) % 86_400_000_000_000 == 0 && Midnight(t) <= t < Midnight(t) + 86_400_000_000_000
  {
    var q := t / DAY;
    assert t == DAY * q + t % DAY;
    assert Midnight(t) == DAY * q;
  }

  lemma {:induction false} UnseenIff(events: seq<Event>, since: Time, e: Event)
    ensures e in Unseen(events, since) <==> e in events && (since == 0 || e.at.None? || e.at.value > since)
  {
    if events != [] {
      UnseenIff(events[1..], since, e);
      assert events == [events[0]] + events[1..];
    }
  }

  /** This file lets the event through. */
  ghost predicate Offers(f: LogFile, since: Time, e: Event) {
    && e in f.events
    && (since == 0 || ((f.date.None? || f.date.value >= Midnight(since)) && (e.at.None? || e.at.value > since)))
  }

  /** Exactly which events are served, for every store: without a watermark all of them; with one, those of
      files not dated before its day that are newer than it or carry no received_at. */
  lemma {:induction false} ServedIff(files: seq<LogFile>, since: Time, e: Event)
    ensures e in Served(files, since) <==> exists i :: 0 <= i < |files| && Offers(files[i], since, e)
  {
    if files != [] {
      ServedIff(files[1..], since, e);
      UnseenIff(files[0].events, since, e);
      assert files == [files[0]] + files[1..];
      if e in Served(files[1..], since) {
        var i :| 0 <= i < |files[1..]| && Offers(files[1..][i], since, e);
        assert Offers(files[i + 1], since, e);
      }
      if i :| 0 < i < |files| && Offers(files[i], since, e) {
        assert Offers(files[1..][i - 1], since, e);
      }
    }
  }

  // ---- The collector ----

  function Newest(events: seq<Event>, since: Time): (r: Time)
    ensures r >= since
  {
    if events == [] then since
    else
      var n := |events| - 1;
      var t := Newest(events[..n], since);
      if events[n].at.Some? && events[n].at.value > t then events[n].at.value else t
  }

  /** The events a pull writes: those received that the local store takes. */
  function Kept(events: seq<Event>, takes: Event -> bool): (r: seq<Event>) {
    if events == [] then []
    else
      var n := |events| - 1;
      Kept(events[..n], takes) + if takes(events[n]) then [events[n]] else []
  }

  /** Exactly the events that the store takes, as often and in the order they came. */
  lemma {:induction false} KeptIff(events: seq<Event>, takes: Event -> bool, e: Event)
    ensures multiset(Kept(events, takes))[e] == if takes(e) then multiset(events)[e] else 0
    ensures (forall x :: x in events ==> takes(x)) ==> Kept(events, takes) == events
  {
    if events != [] {
      var n := |events| - 1;
      KeptIff(events[..n], takes, e);
      assert events == events[..n] + [events[n]];
    }
  }

  /** doSyncEventsPull over the lines that arrived: write, then remember the newest time written. */
  method DoSyncEventsPull(received: seq<Event>, since: Time, takes: Event -> bool, markSaved: bool)
    returns (written: seq<Event>, mark: Time)
    ensures written == Kept(received, takes)
    ensures mark == if markSaved then Newest(written, since) else since
    ensures mark >= since
  {
    var maxSeen := since;
    written := [];
    for i := 0 to |received|
      invariant written == Kept(received[..i], takes) && maxSeen == Newest(written, since)
    {
      var ev := received[i];
      assert received[..i + 1][..i] == received[..i];
      if !takes(ev) { continue; }
      if ev.at.Some? && ev.at.value > maxSeen { maxSeen := ev.at.value; }
      assert (written + [ev])[..|written|] == written;
      written := written + [ev];
    }
    assert received[..|received|] == received;
    mark := since;
    if maxSeen > since && markSaved { mark := maxSeen; }
  }

  // ---- Runs of appends and pulls ----

  datatype Sys = Sys(files: seq<LogFile>, replica: seq<Event>, mark: Time)

  /** A pull may be cut after any number of served events, lose local writes, or fail to save its mark. */
  datatype Action =
    | NewFile(pos: nat, date: Option<Time>)
    | Append(file: nat, ev: Event)
    | Pull(cut: nat, takes: Event -> bool, markSaved: bool)

  predicate Enabled(s: Sys, a: Action) {
    match a
    case NewFile(pos, _) => pos <= |s.files|
    case Append(i, _) => i < |s.files|
    case Pull(cut, _, _) => cut <= |Served(s.files, s.mark)|
  }

  function Apply(s: Sys, a: Action): (r: Sys)
    requires Enabled(s, a)
  {
    match a
    case NewFile(pos, date) => s.(files := s.files[..pos] + [LogFile(date, [])] + s.files[pos..])
    case Append(i, e) => s.(files := s.files[i := s.files[i].(events := s.files[i].events + [e])])
    case Pull(cut, takes, markSaved) =>
      var written := Kept(Served(s.files, s.mark)[..cut], takes);
      s.(replica := s.replica + written, mark := if markSaved then Newest(written, s.mark) else s.mark)
  }

  ghost predicate Runs(s: Sys, acts: seq<Action>)
    decreases |acts|
  {
    acts == [] || (Enabled(s, acts[0]) && Runs(Apply(s, acts[0]), acts[1..]))
  }

  ghost function Outcome(s: Sys, acts: seq<Action>): (r: Sys)
    requires Runs(s, acts)
    decreases |acts|
  {
    if acts == [] then s else Outcome(Apply(s, acts[0]), acts[1..])
  }

  /** The watermark never decreases, whatever is appended, cut, lost or not saved. */
  lemma {:induction false} MarkNeverDecreases(s: Sys, acts: seq<Action>)
    requires Runs(s, acts)
    ensures Outcome(s, acts).mark >= s.mark
    decreases |acts|
  {
    if acts != [] { MarkNeverDecreases(Apply(s, acts[0]), acts[1..]); }
  }

  // ---- Exactly once ----

  /** Everything the source holds, in the order it is walked. */
  function Corpus(files: seq<LogFile>): (r: seq<Event>) {
    if files == [] then [] else files[0].events + Corpus(files[1..])
  }

  predicate Stamped(e: Event) { e.at.Some? && e.at.value > 0 }

  /** Events up to the mark, and events after it. */
  function UpTo(events: seq<Event>, mark: Time): (r: seq<Event>) {
    if events == [] then []
    else (if events[0].at.Some? && events[0].at.value <= mark then [events[0]] else []) + UpTo(events[1..], mark)
  }

  function Since(events: seq<Event>, mark: Time): (r: seq<Event>) {
    if events == [] then []
    else (if events[0].at.Some? && events[0].at.value <= mark then [] else [events[0]]) + Since(events[1..], mark)
  }

  /** Every event has a received_at, and no file is dated before the day of an event it holds. */
  ghost predicate WellDated(f: LogFile) {
    forall e :: e in f.events ==> Stamped(e) && (f.date.Some? ==> f.date.value >= Midnight(e.at.value))
  }

  ghost predicate AllWellDated(files: seq<LogFile>) {
    forall i :: 0 <= i < |files| ==> WellDated(files[i])
  }

  lemma MidnightMonotone(a: Time, b: Time)
    requires a <= b
    ensures Midnight(a) <= Midnight(b)
  {
    var p, q := a / DAY, b / DAY;
    assert a == DAY * p + a % DAY && b == DAY * q + b % DAY;
    assert p <= q;
  }

  lemma {:induction false} UnseenIsSince(events: seq<Event>, mark: Time)
    requires forall e :: e in events ==> Stamped(e)
    ensures Unseen(events, mark) == Since(events, mark)
  {
    if events != [] {
      assert events[0] in events;
      UnseenIsSince(events[1..], mark);
    }
  }

  lemma {:induction false} SkippedHasNothingNew(events: seq<Event>, mark: Time)
    requires forall e :: e in events ==> e.at.Some? && e.at.value <= mark
    ensures Since(events, mark) == []
  {
    if events != [] {
      assert events[0] in events;
      SkippedHasNothingNew(events[1..], mark);
    }
  }

  lemma {:induction false} SinceConcat(a: seq<Event>, b: seq<Event>, mark: Time)
    ensures Since(a + b, mark) == Since(a, mark) + Since(b, mark)
    ensures UpTo(a + b, mark) == UpTo(a, mark) + UpTo(b, mark)
  {
    if a == [] {
      assert a + b == b;
    } else {
      assert (a + b)[1..] == a[1..] + b && (a + b)[0] == a[0];
      SinceConcat(a[1..], b, mark);
      var covered := a[0].at.Some? && a[0].at.value <= mark;
      Regroup(if covered then [a[0]] else [], UpTo(a[1..], mark), UpTo(b, mark));
      Regroup(if covered then [] else [a[0]], Since(a[1..], mark), Since(b, mark));
    }
  }

  lemma Regroup(x: seq<Event>, y: seq<Event>, z: seq<Event>)
    ensures x + (y + z) == x + y + z
  {
  }

  /** Skipping files by date loses nothing: what is served is exactly what is newer than the mark. */
  lemma {:induction false} ServesExactlyNew(files: seq<LogFile>, mark: Time)
    requires AllWellDated(files)
    ensures Served(files, mark) == Since(Corpus(files), mark)
  {
    if files != [] {
      var f := files[0];
      ServesExactlyNew(files[1..], mark);
      SinceConcat(f.events, Corpus(files[1..]), mark);
      assert WellDated(f);
      if SkipsFile(f, mark) {
        forall e | e in f.events ensures e.at.Some? && e.at.value <= mark {
          if e.at.value > mark { MidnightMonotone(mark, e.at.value); }
        }
        SkippedHasNothingNew(f.events, mark);
      } else {
        UnseenIsSince(f.events, mark);
      }
    }
  }

  lemma {:induction false} Partition(events: seq<Event>, mark: Time)
    ensures multiset(UpTo(events, mark)) + multiset(Since(events, mark)) == multiset(events)
  {
    if events != [] {
      Partition(events[1..], mark);
      assert events == [events[0]] + events[1..];
    }
  }

  lemma UpToCons(e: Event, rest: seq<Event>, mark: Time)
    ensures UpTo([e] + rest, mark) ==
            if e.at.Some? && e.at.value <= mark then [e] + UpTo(rest, mark) else UpTo(rest, mark)
    ensures Since([e] + rest, mark) ==
            if e.at.Some? && e.at.value <= mark then Since(rest, mark) else [e] + Since(rest, mark)
  {
    assert ([e] + rest)[1..] == rest;
  }

  lemma Balance(e: Event, all: seq<Event>, low: seq<Event>, mid: seq<Event>)
    requires multiset(all) == multiset(low) + multiset(mid)
    ensures multiset([e] + all) == multiset([e] + low) + multiset(mid)
    ensures multiset([e] + all) == multiset(low) + multiset([e] + mid)
  {
  }

  /** Raising the mark moves exactly the events in between. */
  lemma {:induction false} RaiseMark(events: seq<Event>, low: Time, high: Time)
    requires low <= high
    ensures multiset(UpTo(events, high)) == multiset(UpTo(events, low)) + multiset(UpTo(Since(events, low), high))
  {
    if events != [] {
      var e, rest := events[0], events[1..];
      assert events == [e] + rest;
      RaiseMark(rest, low, high);
      UpToCons(e, rest, low);
      UpToCons(e, rest, high);
      UpToCons(e, Since(rest, low), high);
      Balance(e, UpTo(rest, high), UpTo(rest, low), UpTo(Since(rest, low), high));
    }
  }

  /** What arrived before the cut is at or below the new mark; what did not arrive is above it. */
  ghost predicate CleanCut(served: seq<Event>, cut: nat, mark: Time)
    requires cut <= |served|
  {
    forall j :: cut <= j < |served| ==> served[j].at.Some? && served[j].at.value > Newest(served[..cut], mark)
  }

  lemma {:induction false} NewestBounds(events: seq<Event>, mark: Time)
    ensures forall e :: e in events && e.at.Some? ==> e.at.value <= Newest(events, mark)
  {
    if events != [] {
      var n := |events| - 1;
      NewestBounds(events[..n], mark);
      forall e | e in events && e.at.Some? ensures e.at.value <= Newest(events, mark) {
        assert events == events[..n] + [events[n]];
      }
    }
  }

  /** The new mark is the old one or the time of some event written. */
  lemma {:induction false} NewestAttained(events: seq<Event>, mark: Time)
    ensures Newest(events, mark) == mark || exists e :: e in events && e.at == Some(Newest(events, mark))
  {
    if events != [] {
      var n := |events| - 1;
      NewestAttained(events[..n], mark);
      if e :| e in events[..n] && e.at == Some(Newest(events[..n], mark)) { assert e in events; }
      assert events[n] in events;
    }
  }

  lemma {:induction false} UpToAll(events: seq<Event>, mark: Time)
    requires forall e :: e in events ==> e.at.Some? && e.at.value <= mark
    ensures UpTo(events, mark) == events
  {
    if events != [] {
      assert events[0] in events;
      UpToAll(events[1..], mark);
    }
  }

  lemma {:induction false} UpToNone(events: seq<Event>, mark: Time)
    requires forall e :: e in events ==> e.at.Some? && e.at.value > mark
    ensures UpTo(events, mark) == []
  {
    if events != [] {
      assert events[0] in events;
      UpToNone(events[1..], mark);
    }
  }

  lemma {:induction false} SinceStamped(events: seq<Event>, mark: Time)
    requires forall e :: e in events ==> Stamped(e)
    ensures forall e :: e in Since(events, mark) ==> e in events && Stamped(e) && e.at.value > mark
  {
    if events != [] {
      assert events[0] in events;
      SinceStamped(events[1..], mark);
    }
  }

  lemma {:induction false} CorpusStamped(files: seq<LogFile>)
    requires AllWellDated(files)
    ensures forall e :: e in Corpus(files) ==> Stamped(e)
  {
    if files != [] {
      CorpusStamped(files[1..]);
      assert WellDated(files[0]);
    }
  }

  /** The replica holds, with the right multiplicity, exactly the source events up to the mark. */
  ghost predicate InStep(s: Sys) {
    AllWellDated(s.files) && multiset(s.replica) == multiset(UpTo(Corpus(s.files), s.mark))
  }

  /** The conditions of the exactly-once guarantee: events arrive with times beyond the mark, in files of
      their day or later; pulls write everything they receive, save their mark, and are cut only where
      nothing older is left behind. */
  ghost predicate Orderly(s: Sys, a: Action)
    requires Enabled(s, a)
  {
    match a
    case NewFile(_, _) => true
    case Append(i, e) =>
      Stamped(e) && e.at.value > s.mark && (s.files[i].date.Some? ==> s.files[i].date.value >= Midnight(e.at.value))
    case Pull(cut, takes, markSaved) =>
      markSaved && (forall e :: takes(e)) && CleanCut(Served(s.files, s.mark), cut, s.mark)
  }

  lemma {:induction false} KeptAll(events: seq<Event>, takes: Event -> bool)
    requires forall e :: takes(e)
    ensures Kept(events, takes) == events
  {
    if events != [] {
      var n := |events| - 1;
      KeptAll(events[..n], takes);
      assert events == events[..n] + [events[n]];
    }
  }

  lemma UpToPart(got: seq<Event>, left: seq<Event>, high: Time)
    requires forall e :: e in got ==> e.at.Some? && e.at.value <= high
    requires forall e :: e in left ==> e.at.Some? && e.at.value > high
    ensures UpTo(got + left, high) == got
  {
    UpToAll(got, high);
    UpToNone(left, high);
    SinceConcat(got, left, high);
  }

  /** A clean cut: the replica grows by exactly the events the raised mark now covers. */
  lemma CutCovers(events: seq<Event>, mark: Time, cut: nat)
    requires (forall e :: e in events ==> Stamped(e)) && cut <= |Since(events, mark)|
    requires CleanCut(Since(events, mark), cut, mark)
    ensures var newer := Since(events, mark);
            multiset(UpTo(events, Newest(newer[..cut], mark))) == multiset(UpTo(events, mark)) + multiset(newer[..cut])
  {
    hide Since, UpTo, Newest;
    var newer := Since(events, mark);
    var got, left := newer[..cut], newer[cut..];
    var high := Newest(got, mark);
    SinceStamped(events, mark);
    NewestBounds(got, mark);
    forall e | e in got ensures e.at.Some? && e.at.value <= high { assert e in newer; }
    forall j | 0 <= j < |left| ensures left[j].at.Some? && left[j].at.value > high { assert newer[cut + j] == left[j]; }
    assert newer == got + left;
    UpToPart(got, left, high);
    RaiseMark(events, mark, high);
  }

  lemma PullKeeps(s: Sys, a: Action)
    requires InStep(s) && a.Pull? && Enabled(s, a) && Orderly(s, a)
    ensures InStep(Apply(s, a))
  {
    var events := Corpus(s.files);
    ServesExactlyNew(s.files, s.mark);
    CorpusStamped(s.files);
    KeptAll(Served(s.files, s.mark)[..a.cut], a.takes);
    CutCovers(events, s.mark, a.cut);
  }

  lemma UpToAppend(events: seq<Event>, e: Event, mark: Time)
    requires e.at.Some? && e.at.value > mark
    ensures UpTo(events + [e], mark) == UpTo(events, mark)
  {
    SinceConcat(events, [e], mark);
    assert UpTo([e], mark) == [];
  }

  lemma CorpusUpTo(files: seq<LogFile>, mark: Time)
    requires files != []
    ensures UpTo(Corpus(files), mark) == UpTo(files[0].events, mark) + UpTo(Corpus(files[1..]), mark)
  {
    SinceConcat(files[0].events, Corpus(files[1..]), mark);
  }

  /** An event newer than the mark does not change what the mark covers, wherever it is appended. */
  lemma {:induction false} AppendBeyondMark(files: seq<LogFile>, i: nat, e: Event, mark: Time)
    requires i < |files| && e.at.Some? && e.at.value > mark
    ensures UpTo(Corpus(files[i := files[i].(events := files[i].events + [e])]), mark) == UpTo(Corpus(files), mark)
  {
    hide UpTo, Corpus;
    var files' := files[i := files[i].(events := files[i].events + [e])];
    var rest := files[1..];
    CorpusUpTo(files', mark);
    CorpusUpTo(files, mark);
    if i == 0 {
      assert files'[1..] == rest;
      UpToAppend(files[0].events, e, mark);
    } else {
      assert files'[1..] == rest[i - 1 := rest[i - 1].(events := rest[i - 1].events + [e])];
      AppendBeyondMark(rest, i - 1, e, mark);
    }
  }

  lemma AppendKeeps(s: Sys, a: Action)
    requires InStep(s) && a.Append? && Enabled(s, a) && Orderly(s, a)
    ensures InStep(Apply(s, a))
  {
    AppendBeyondMark(s.files, a.file, a.ev, s.mark);
    assert WellDated(s.files[a.file]);
  }

  function WithFile(files: seq<LogFile>, pos: nat, f: LogFile): seq<LogFile>
    requires pos <= |files|
  {
    files[..pos] + [f] + files[pos..]
  }

  lemma {:induction false} EmptyFileAddsNothing(files: seq<LogFile>, pos: nat, f: LogFile)
    requires pos <= |files| && f.events == []
    ensures Corpus(WithFile(files, pos, f)) == Corpus(files)
  {
    var files' := WithFile(files, pos, f);
    if pos == 0 {
      assert files'[1..] == files;
    } else {
      assert files'[0] == files[0] && files'[1..] == WithFile(files[1..], pos - 1, f);
      EmptyFileAddsNothing(files[1..], pos - 1, f);
    }
  }

  lemma NewFileKeeps(s: Sys, a: Action)
    requires InStep(s) && a.NewFile? && Enabled(s, a)
    ensures InStep(Apply(s, a))
  {
    var f := LogFile(a.date, []);
    EmptyFileAddsNothing(s.files, a.pos, f);
    var files' := Apply(s, a).files;
    assert files' == WithFile(s.files, a.pos, f);
    forall i | 0 <= i < |files'| ensures WellDated(files'[i]) {
      if i < a.pos { assert files'[i] == s.files[i]; }
      else if i > a.pos { assert files'[i] == s.files[i - 1]; }
    }
  }

  /** Every action is possible and orderly when its turn comes. */
  ghost predicate OrderlyRun(s: Sys, acts: seq<Action>)
    decreases |acts|
  {
    acts == [] || (Enabled(s, acts[0]) && Orderly(s, acts[0]) && OrderlyRun(Apply(s, acts[0]), acts[1..]))
  }

  lemma {:induction false} OrderlyRunStaysInStep(s: Sys, acts: seq<Action>)
    requires InStep(s) && OrderlyRun(s, acts)
    ensures Runs(s, acts) && InStep(Outcome(s, acts))
    decreases |acts|
  {
    if acts != [] {
      match acts[0] {
        case NewFile(_, _) => NewFileKeeps(s, acts[0]);
        case Append(_, _) => AppendKeeps(s, acts[0]);
        case Pull(_, _, _) => PullKeeps(s, acts[0]);
      }
      OrderlyRunStaysInStep(Apply(s, acts[0]), acts[1..]);
    }
  }

  /** Exactly once: after any orderly run from an empty source, one complete pull leaves the replica with
      every source event, each as often as the source has it. */
  lemma ReplicatedExactlyOnce(acts: seq<Action>, takes: Event -> bool)
    requires OrderlyRun(Sys([], [], 0), acts) && forall e :: takes(e)
    ensures Runs(Sys([], [], 0), acts)
    ensures var s := Outcome(Sys([], [], 0), acts);
            var pull := Pull(|Served(s.files, s.mark)|, takes, true);
            multiset(Apply(s, pull).replica) == multiset(Corpus(s.files))
  {
    OrderlyRunStaysInStep(Sys([], [], 0), acts);
    var s := Outcome(Sys([], [], 0), acts);
    var served := Served(s.files, s.mark);
    assert served[..|served|] == served;
    KeptAll(served, takes);
    ServesExactlyNew(s.files, s.mark);
    Partition(Corpus(s.files), s.mark);
  }

  // ---- What an unclean cut costs ----

  lemma {:induction false} SinceExcludes(events: seq<Event>, mark: Time, e: Event)
    requires e.at.Some? && 0 < e.at.value <= mark
    ensures e !in Unseen(events, mark)
  {
    if events != [] { SinceExcludes(events[1..], mark, e); }
  }

  lemma {:induction false} ServedExcludes(files: seq<LogFile>, mark: Time, e: Event)
    requires e.at.Some? && 0 < e.at.value <= mark
    ensures e !in Served(files, mark)
  {
    if files != [] {
      SinceExcludes(files[0].events, mark, e);
      ServedExcludes(files[1..], mark, e);
    }
  }

  lemma {:induction false} KeptSubset(events: seq<Event>, takes: Event -> bool, e: Event)
    requires e !in events
    ensures e !in Kept(events, takes)
  {
    if events != [] { KeptSubset(events[..|events| - 1], takes, e); }
  }

  /** An event the mark has overtaken is never replicated again, whatever happens later. */
  lemma {:induction false} OvertakenIsLost(s: Sys, acts: seq<Action>, e: Event)
    requires Runs(s, acts) && e.at.Some? && 0 < e.at.value <= s.mark && e !in s.replica
    ensures e !in Outcome(s, acts).replica
    decreases |acts|
  {
    if acts != [] {
      var s' := Apply(s, acts[0]);
      if acts[0].Pull? {
        ServedExcludes(s.files, s.mark, e);
        var got := Served(s.files, s.mark)[..acts[0].cut];
        KeptSubset(got, acts[0].takes, e);
      }
      OvertakenIsLost(s', acts[1..], e);
    }
  }

  /** The newest time a pull leaves behind. */
  function MarkAfter(s: Sys, cut: nat, takes: Event -> bool, saved: bool): Time
    requires cut <= |Served(s.files, s.mark)|
  {
    if saved then Newest(Kept(Served(s.files, s.mark)[..cut], takes), s.mark) else s.mark
  }

  /** Exactly which events a pull loses, wherever it is cut, whichever local writes fail and whether or not
      its mark is saved, in whatever state an earlier pull has left the replica: those whose time is at or below
      the mark it saves. All others are served by the next pull. */
  lemma PullLosesExactlyOvertaken(s: Sys, cut: nat, takes: Event -> bool, saved: bool, e: Event)
    requires AllWellDated(s.files) && Enabled(s, Pull(cut, takes, saved)) && e in Served(s.files, s.mark)
    ensures e.at.Some?
    ensures var s' := Apply(s, Pull(cut, takes, saved));
            e in Served(s'.files, s'.mark) <==> e.at.value > MarkAfter(s, cut, takes, saved)
  {
    var s' := Apply(s, Pull(cut, takes, saved));
    ServesExactlyNew(s.files, s.mark);
    ServesExactlyNew(s'.files, s'.mark);
    CorpusStamped(s.files);
    SinceStamped(Corpus(s.files), s.mark);
    SinceMember(Corpus(s.files), s'.mark, e);
  }

  /** ... and being served again is what decides: an event that was not written and is not served again is
      in no later replica. */
  lemma NotServedIsLost(s: Sys, cut: nat, takes: Event -> bool, saved: bool, e: Event, acts: seq<Action>)
    requires AllWellDated(s.files) && Enabled(s, Pull(cut, takes, saved)) && e in Served(s.files, s.mark)
    requires var s' := Apply(s, Pull(cut, takes, saved));
             e !in s'.replica && e !in Served(s'.files, s'.mark) && Runs(s', acts)
    ensures e !in Outcome(Apply(s, Pull(cut, takes, saved)), acts).replica
  {
    PullLosesExactlyOvertaken(s, cut, takes, saved, e);
    ServesExactlyNew(s.files, s.mark);
    CorpusStamped(s.files);
    SinceStamped(Corpus(s.files), s.mark);
    OvertakenIsLost(Apply(s, Pull(cut, takes, saved)), acts, e);
  }

  // ---- An instance ----

  /** A source that lists a newer event before an older one, in one undated file. */
  const NewerFirst := Sys([LogFile(None, [Event(1, Some(5)), Event(2, Some(3))])], [], 0)

  lemma NewerFirstServed()
    ensures Served(NewerFirst.files, 0) == [Event(1, Some(5)), Event(2, Some(3))]
  {
    var f := NewerFirst.files[0];
    assert NewerFirst.files[1..] == [] && f.events[1..] == [Event(2, Some(3))] && f.events[1..][1..] == [];
    assert Unseen(f.events[1..], 0) == [Event(2, Some(3))];
  }

  /** The pull that is cut after its first event. */
  function CutPull(): Action { Pull(1, _ => true, true) }

  lemma CutPullOutcome()
    ensures Enabled(NewerFirst, CutPull())
    ensures Apply(NewerFirst, CutPull()) == NewerFirst.(replica := [Event(1, Some(5))], mark := 5)
  {
    NewerFirstServed();
    hide Served;
    var got := Served(NewerFirst.files, 0)[..1];
    assert got == [Event(1, Some(5))] && got[..0] == [];
    KeptAll(got, _ => true);
    assert Newest(got, 0) == 5;
  }

  /** It writes the newer event, and the older one is lost for good. */
  lemma CutPullLosesTheOlder(acts: seq<Action>)
    requires Enabled(NewerFirst, CutPull()) && Runs(Apply(NewerFirst, CutPull()), acts)
    ensures Apply(NewerFirst, CutPull()).replica == [Event(1, Some(5))]
    ensures Event(2, Some(3)) in Corpus(NewerFirst.files)
    ensures Event(2, Some(3)) !in Outcome(Apply(NewerFirst, CutPull()), acts).replica
  {
    CutPullOutcome();
    assert NewerFirst.files[0].events[1] in Corpus(NewerFirst.files);
    hide Apply, Runs, Outcome;
    OvertakenIsLost(Apply(NewerFirst, CutPull()), acts, Event(2, Some(3)));
  }

  lemma {:induction false} SinceMember(events: seq<Event>, mark: Time, e: Event)
    requires e in events && e.at.Some?
    ensures e in Since(events, mark) <==> e.at.value > mark
  {
    if e in events[1..] {
      SinceMember(events[1..], mark, e);
    } else {
      assert e == events[0];
      if e in Since(events[1..], mark) { SinceSubset(events[1..], mark, e); }
    }
  }

  lemma {:induction false} SinceSubset(events: seq<Event>, mark: Time, e: Event)
    requires e in Since(events, mark)
    ensures e in events
  {
    if e != events[0] || e !in [events[0]] {
      if e in Since(events[1..], mark) { SinceSubset(events[1..], mark, e); }
    }
  }
}

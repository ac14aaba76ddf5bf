/** The logger's side of the hash chain: how one log file is written, line by line, and when what it writes
    passes the verifier. Marshalling and the disk may fail at any write. */
module ChainWriter {

  import opened HashChain

  type Word = n: nat | n < WORD

  /** Integers up to this one survive JSON numbers, which are read as 64-bit floats. */
  const EXACT: nat := 0x20_0000_0000_0000

  function Real(n: nat): real { n as real }

  ghost predicate ReadsNumbers(env: Env) {
    forall n: nat :: n <= EXACT ==> env.toUint64(Real(n)) == n
  }

  /** One event to log: whether it can be marshalled, and whether the disk takes the line. */
  datatype Write = Write(event: Record, marshals: bool, stored: bool)

  /** The counter and the head hash kept in memory, and the lines on disk. */
  datatype Log = Log(seqNo: Word, prev: string, lines: seq<Line>)

  const EmptyLog := Log(0, "", [])

  /** The event as it is hashed: numbered, and tied to its predecessor. */
  function Linked(log: Log, event: Record): Record {
    event["_seq" := Num(Real((log.seqNo + 1) % WORD))]["_prev" := Str(log.prev)]
  }

  /** One call: an event that cannot be marshalled still uses up a number, a failed disk write gives it back. */
  function Logged(env: Env, log: Log, w: Write): (r: Log) {
    var pre := Linked(log, w.event);
    var hash := env.digest(pre);
    if !w.marshals then log.(seqNo := (log.seqNo + 1) % WORD)
    else if !w.stored then log
    else Log((log.seqNo + 1) % WORD, hash, log.lines + [Obj(pre["_hash" := Str(hash)])])
  }

  class LogFile {
    var seqNo: Word
    var prevHash: string
    var lines: seq<Line>

    constructor ()
      ensures Value() == EmptyLog
    {
      seqNo, prevHash, lines := 0, "", [];
    }

    ghost function Value(): Log
      reads this
    {
      Log(seqNo, prevHash, lines)
    }

    /** writeNow, from the numbering on. */
    method WriteNow(env: Env, event: Record, marshals: bool, stored: bool)
      modifies this
      ensures Value() == Logged(env, old(Value()), Write(event, marshals, stored))
    {
      seqNo := (seqNo + 1) % WORD;
      var line := event["_seq" := Num(Real(seqNo))]["_prev" := Str(prevHash)];
      if !marshals { return; }
      var hash := env.digest(line);
      line := line["_hash" := Str(hash)];
      if !stored {
        seqNo := (seqNo + WORD - 1) % WORD;
        return;
      }
      lines := lines + [Obj(line)];
      prevHash := hash;
    }
  }

  function LogAll(env: Env, writes: seq<Write>): (r: Log) {
    if writes == [] then EmptyLog else Logged(env, LogAll(env, writes[..|writes| - 1]), writes[|writes| - 1])
  }

  /** How many events could not be marshalled. */
  function Unmarshalled(writes: seq<Write>): (r: nat)
    ensures r <= |writes|
    ensures r == 0 <==> forall i :: 0 <= i < |writes| ==> writes[i].marshals
  {
    if writes == [] then 0
    else Unmarshalled(writes[..|writes| - 1]) + if writes[|writes| - 1].marshals then 0 else 1
  }

  /** No line is on disk after an event that could not be marshalled. */
  ghost predicate NothingAfterFailure(writes: seq<Write>) {
    forall i, j :: 0 <= i < j < |writes| && !writes[i].marshals ==> !(writes[j].marshals && writes[j].stored)
  }

  /** The counter is ahead of the file by the events that could not be marshalled; the head hash is the file's. */
  lemma {:induction false} CounterAndHead(env: Env, writes: seq<Write>)
    requires |writes| < EXACT
    ensures var log := LogAll(env, writes);
            log.seqNo == |log.lines| + Unmarshalled(writes) <= |writes| && log.prev == HeadHash(log.lines)
  {
    if writes != [] {
      var n := |writes| - 1;
      CounterAndHead(env, writes[..n]);
      HeadFollows(env, LogAll(env, writes[..n]), writes[n]);
      hide Logged, HeadHash;
    }
  }

  /** One write: the file grows by a line or not at all, and the head hash stays that of the file. */
  lemma HeadFollows(env: Env, log: Log, w: Write)
    requires log.prev == HeadHash(log.lines) && log.seqNo < EXACT
    ensures var log' := Logged(env, log, w);
            var grows := w.marshals && w.stored;
            && log'.prev == HeadHash(log'.lines)
            && |log'.lines| == |log.lines| + (if grows then 1 else 0)
            && log'.seqNo == log.seqNo + (if grows || !w.marshals then 1 else 0)
  {
  }

  lemma OneMoreLine(env: Env, lines: seq<Line>, line: Line)
    ensures Verifies(env, lines + [line]) <==>
      Verifies(env, lines) && LineOk(env, line, SeqAfter(|lines|), HeadHash(lines))
  {
    var all := lines + [line];
    assert all[..|lines|] == lines;
    assert forall i :: 0 <= i < |lines| ==> all[..i] == lines[..i];
    if Verifies(env, all) {
      forall i | 0 <= i < |lines| ensures LineOk(env, lines[i], SeqAfter(i), HeadHash(lines[..i])) {
        assert LineOk(env, all[i], SeqAfter(i), HeadHash(all[..i]));
      }
      assert LineOk(env, all[|lines|], SeqAfter(|lines|), HeadHash(all[..|lines|]));
    }
  }

  /** A line the logger writes is in order for the verifier exactly when the counter agrees with the file and,
      as far as hashes are recomputed, a `_hash` that the event brought along makes no difference to the digest. */
  lemma LineInOrderIff(env: Env, log: Log, event: Record)
    requires ReadsNumbers(env) && log.seqNo < EXACT && |log.lines| < EXACT
    requires log.prev == HeadHash(log.lines)
    ensures var pre := Linked(log, event);
            LineOk(env, Obj(pre["_hash" := Str(env.digest(pre))]), SeqAfter(|log.lines|), HeadHash(log.lines)) <==>
              log.seqNo == |log.lines| && (|env.digest(pre)| == 96 ==> env.digest(pre - {"_hash"}) == env.digest(pre))
  {
    var pre := Linked(log, event);
    var line := pre["_hash" := Str(env.digest(pre))];
    assert Stripped(line) == pre - {"_hash"};
    assert StoredPrev(line) == log.prev && StoredHash(line) == env.digest(pre);
    assert env.toUint64(Real(log.seqNo + 1)) == log.seqNo + 1;
    assert StoredSeq(env, line) == log.seqNo + 1;
    assert SeqAfter(|log.lines|) == |log.lines| + 1;
  }

  lemma EmptyIsFine(env: Env, writes: seq<Write>)
    requires writes == []
    ensures Verifies(env, []) && NothingAfterFailure(writes)
  {
  }

  lemma NothingStale(log: Log, event: Record)
    requires "_hash" !in event
    ensures Linked(log, event) - {"_hash"} == Linked(log, event)
  {
  }

  /** What the logger writes passes the verifier, whatever the disk refuses, exactly as long as no event that
      cannot be marshalled precedes a written one. */
  lemma {:induction false} WrittenLogVerifiesIff(env: Env, writes: seq<Write>)
    requires ReadsNumbers(env) && |writes| < EXACT
    requires forall i :: 0 <= i < |writes| ==> "_hash" !in writes[i].event
    ensures Verifies(env, LogAll(env, writes).lines) <==> NothingAfterFailure(writes)
  {
    hide Linked, LineOk, NothingAfterFailure;
    if writes == [] {
      EmptyIsFine(env, writes);
    } else {
      var n := |writes| - 1;
      var head, w := writes[..n], writes[n];
      var log := LogAll(env, head);
      WrittenLogVerifiesIff(env, head);
      CounterAndHead(env, head);
      if w.marshals && w.stored {
        LineInOrderIff(env, log, w.event);
        var pre := Linked(log, w.event);
        NothingStale(log, w.event);
        OneMoreLine(env, log.lines, Obj(pre["_hash" := Str(env.digest(pre))]));
      }
      LastWrite(writes);
    }
  }

  /** Two events with one in between that cannot be marshalled: the numbers skip one, and the file that the
      logger itself wrote does not verify. */
  lemma UnmarshalledBreaksChain(env: Env)
    requires ReadsNumbers(env)
    ensures var writes := [Write(map[], true, true), Write(map[], false, true), Write(map[], true, true)];
            !Verifies(env, LogAll(env, writes).lines)
  {
    var writes := [Write(map[], true, true), Write(map[], false, true), Write(map[], true, true)];
    hide LogAll, Verifies;
    WrittenLogVerifiesIff(env, writes);
    assert !writes[1].marshals && writes[2].marshals && writes[2].stored;
  }

  lemma LastWrite(writes: seq<Write>)
    requires writes != []
    ensures var n := |writes| - 1;
            NothingAfterFailure(writes) <==>
              && NothingAfterFailure(writes[..n])
              && (writes[n].marshals && writes[n].stored ==> Unmarshalled(writes[..n]) == 0)
  {
    var n := |writes| - 1;
    var head := writes[..n];
    assert forall i :: 0 <= i < n ==> head[i] == writes[i];
    if NothingAfterFailure(writes) {
      forall i, j | 0 <= i < j < n && !head[i].marshals ensures !(head[j].marshals && head[j].stored) {
        assert !writes[i].marshals;
      }
    }
  }
}

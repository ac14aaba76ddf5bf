/** The streaming writer and reader of the frame codec: buffered, call by call. */
module FrameStreams {

  import opened Bytes
  import opened Frames

  function Concat(parts: seq<seq<Byte>>): (r: seq<Byte>) {
    if parts == [] then [] else Concat(parts[..|parts| - 1]) + parts[|parts| - 1]
  }

  /** Whatever is still to come, the bytes already emitted and the buffer lead to the same stream as
      encoding all the data at once. */
  ghost predicate OnTrack(f: Format, out: seq<Byte>, counter: nat, buf: seq<Byte>, data: seq<Byte>)
    requires |f.base| == 12 && 0 < f.chunk
  {
    forall more: seq<Byte> :: out + Encode(f, counter, buf + more) == Encode(f, 0, data + more)
  }

  lemma OnTrackAppend(f: Format, out: seq<Byte>, counter: nat, buf: seq<Byte>, data: seq<Byte>, p: seq<Byte>)
    requires |f.base| == 12 && 0 < f.chunk && OnTrack(f, out, counter, buf, data)
    ensures OnTrack(f, out, counter, buf + p, data + p)
  {
    forall more: seq<Byte> ensures out + Encode(f, counter, (buf + p) + more) == Encode(f, 0, (data + p) + more) {
      assert (buf + p) + more == buf + (p + more) && (data + p) + more == data + (p + more);
      assert out + Encode(f, counter, buf + (p + more)) == Encode(f, 0, data + (p + more));
    }
  }

  lemma OnTrackFlush(f: Format, out: seq<Byte>, counter: nat, buf: seq<Byte>, data: seq<Byte>)
    requires |f.base| == 12 && 0 < f.chunk && OnTrack(f, out, counter, buf, data) && |buf| == f.chunk
    ensures OnTrack(f, out + Frame(f, counter, buf, false), Next(counter), [], data)
  {
    var frame := Frame(f, counter, buf, false);
    forall more: seq<Byte> ensures (out + frame) + Encode(f, Next(counter), [] + more) == Encode(f, 0, data + more) {
      assert (buf + more)[..f.chunk] == buf && (buf + more)[f.chunk..] == more && [] + more == more;
      assert Encode(f, counter, buf + more) == frame + Encode(f, Next(counter), more);
      assert (out + frame) + Encode(f, Next(counter), more) == out + Encode(f, counter, buf + more);
    }
  }

  class FrameWriter {
    const format: Format
    var out: seq<Byte>
    var counter: nat
    var buf: seq<Byte>
    var closed: bool
    /** Everything accepted so far. */
    ghost var data: seq<Byte>

    ghost predicate Valid()
      reads this
    {
      && format.Valid() && counter < COUNTER_LIMIT && |buf| < format.chunk
      && (if closed then out == Encode(format, 0, data) else OnTrack(format, out, counter, buf, data))
    }

    constructor (format: Format)
      requires format.Valid()
      ensures Valid() && this.format == format && !closed && data == [] && out == []
    {
      this.format := format;
      out, counter, buf, closed, data := [], 0, [], false, [];
      new;
      forall more: seq<Byte> ensures [] + Encode(format, 0, [] + more) == Encode(format, 0, [] + more) { }
    }

    /** Seals and emits the buffer as one frame. */
    method FlushFrame(final: bool)
      requires |format.base| == 12
      modifies this`out, this`counter, this`buf
      ensures out == old(out) + Frame(format, old(counter), old(buf), final)
      ensures counter == Next(old(counter)) && buf == []
    {
      var payload := buf;
      if format.aead.Some? {
        var nonce := MakeFrameNonce(format.base, counter);
        payload := format.aead.value.seal(nonce, buf);
      }
      var hdr := |payload|;
      if final { hdr := hdr + FINAL_BIT; }
      out := out + BigEndian(4, hdr) + payload;
      assert out == old(out) + Frame(format, counter, buf, final);
      counter := Next(counter);
      buf := [];
    }

    /** Moves as much of a non-empty rest into the buffer as fits, emitting a frame if that fills it. */
    method Absorb(rest: seq<Byte>) returns (take: nat)
      requires Valid() && !closed && |rest| > 0
      modifies this
      ensures Valid() && !closed
      ensures 0 < take <= |rest| && data == old(data) + rest[..take]
    {
      take := if |rest| > format.chunk - |buf| then format.chunk - |buf| else |rest|;
      OnTrackAppend(format, out, counter, buf, data, rest[..take]);
      buf := buf + rest[..take];
      data := data + rest[..take];
      if |buf| == format.chunk {
        OnTrackFlush(format, out, counter, buf, data);
        FlushFrame(false);
      }
    }

    /** Takes all of p, emitting a frame each time the buffer fills up. */
    method Write(p: seq<Byte>) returns (written: nat, ok: bool)
      requires Valid()
      modifies this
      ensures Valid() && closed == old(closed)
      ensures ok <==> !old(closed)
      ensures ok ==> written == |p| && data == old(data) + p
      ensures !ok ==> written == 0 && data == old(data) && out == old(out)
    {
      hide OnTrack;
      if closed { return 0, false; }
      written, ok := 0, true;
      while written < |p|
        invariant Valid() && !closed && written <= |p|
        invariant data == old(data) + p[..written]
      {
        var take := Absorb(p[written..]);
        assert p[..written] + p[written..][..take] == p[..written + take];
        written := written + take;
      }
      assert p[..written] == p;
    }

    /** Emits the final frame; a second call does nothing. */
    method Close()
      requires Valid()
      modifies this
      ensures Valid() && closed && data == old(data)
      ensures out == Encode(format, 0, data)
      ensures old(closed) ==> out == old(out)
    {
      if closed { return; }
      closed := true;
      assert buf + [] == buf && data + [] == data;
      assert out + Encode(format, counter, buf + []) == Encode(format, 0, data + []);
      FlushFrame(true);
    }
  }

  /** Independence of the split: whatever the sequence of Write calls, the closed stream is the encoding
      of the bytes written. */
  method WriteAll(format: Format, parts: seq<seq<Byte>>) returns (out: seq<Byte>)
    requires format.Valid()
    ensures out == Encode(format, 0, Concat(parts))
  {
    var w := new FrameWriter(format);
    for i := 0 to |parts|
      invariant fresh(w) && w.Valid() && !w.closed && w.format == format
      invariant w.data == Concat(parts[..i])
    {
      var _, _ := w.Write(parts[i]);
      assert parts[..i + 1][..i] == parts[..i];
    }
    assert parts[..|parts|] == parts;
    w.Close();
    out := w.out;
  }

  /** What one Read call reports. */
  datatype Signal = More | Stop(end: Ending)

  class FrameReader {
    const format: Format
    var input: seq<Byte>
    var counter: nat
    var buf: seq<Byte>
    var cursor: nat
    var doneFinal: bool
    var hitEOF: bool

    ghost predicate Valid()
      reads this
    {
      |format.base| == 12 && cursor <= |buf|
    }

    /** All that is still to be delivered, and how the stream will end. */
    ghost function Pending(): (r: Outcome)
      requires Valid()
      reads this
    {
      var ahead := if doneFinal then Outcome([], Clean)
                   else if hitEOF then Outcome([], Truncated)
                   else Decode(format, counter, input);
      Outcome(buf[cursor..] + ahead.data, ahead.end)
    }

    constructor (format: Format, input: seq<Byte>)
      requires |format.base| == 12
      ensures Valid() && this.format == format && this.input == input && buf == []
      ensures Pending() == Decode(format, 0, input)
    {
      this.format, this.input := format, input;
      counter, buf, cursor, doneFinal, hitEOF := 0, [], 0, false, false;
    }

    /** Consumes one frame. The header goes first, so a bad length or a failed tag leaves the stream
        position inside the frame; only a missing byte is remembered. */
    method FillNextFrame() returns (r: Signal)
      requires Valid() && cursor >= |buf| && !doneFinal && !hitEOF
      modifies this
      ensures Valid()
      ensures r.More? ==> Pending() == old(Pending()) && cursor == 0 && |input| < |old(input)|
      ensures r.Stop? ==> old(Pending()) == Outcome([], r.end)
      ensures r == Stop(Truncated) ==> Pending() == old(Pending()) && hitEOF
      ensures r != Stop(Clean)
      ensures r.Stop? ==> NextFrame(format, old(counter), old(input)) == NoFrame(r.end)
      ensures r.Stop? ==> Pending() == AfterStop(format, old(counter), old(input))
    {
      if |input| < 4 {
        input, hitEOF := [], true;
        return Stop(Truncated);
      }
      ghost var whole := input;
      var hdr := FromBigEndian(input[..4]);
      var final, length := hdr >= FINAL_BIT, hdr % FINAL_BIT;
      input := input[4..];
      if length > format.chunk + 128 { return Stop(BadLength); }
      if |input| < length {
        input, hitEOF := [], true;
        return Stop(Truncated);
      }
      var payload := input[..length];
      assert payload == whole[4..4 + length];
      input := input[length..];
      assert input == whole[4 + length..];
      if format.aead.Some? {
        var nonce := MakeFrameNonce(format.base, counter);
        match format.aead.value.open(nonce, payload)
        case None => return Stop(AuthFailed);
        case Some(p) => buf := p;
      } else {
        buf := payload;
      }
      cursor, counter, doneFinal := 0, Next(counter), final;
      r := More;
    }

    /** io.Reader: hands out at most n bytes of the current frame. */
    method Read(n: nat) returns (p: seq<Byte>, r: Signal)
      requires Valid()
      modifies this
      ensures Valid() && |p| <= n
      ensures r.More? ==> old(Pending()).data == p + Pending().data && old(Pending()).end == Pending().end
      ensures r.More? && n > 0 ==>
        |input| < |old(input)| || (input == old(input) && |buf| - cursor < old(|buf| - cursor))
      ensures r.Stop? ==> p == [] && old(Pending()) == Outcome([], r.end)
      ensures r == Stop(Clean) || r == Stop(Truncated) ==> Pending() == old(Pending())
      ensures r == Stop(BadLength) || r == Stop(AuthFailed) ==>
        NextFrame(format, old(counter), old(input)) == NoFrame(r.end) && Pending() == AfterStop(format, old(counter), old(input))
    {
      if cursor >= |buf| {
        assert buf[cursor..] == [];
        if doneFinal { return [], Stop(Clean); }
        if hitEOF { return [], Stop(Truncated); }
        r := FillNextFrame();
        if r.Stop? { return [], r; }
      }
      p := TakeBuffered(n);
      r := More;
    }

    /** Hands out what is buffered. */
    method TakeBuffered(n: nat) returns (p: seq<Byte>)
      requires Valid()
      modifies this`cursor
      ensures Valid() && |p| <= n && cursor == old(cursor) + |p|
      ensures n > 0 && old(cursor) < |buf| ==> p != []
      ensures old(Pending()).data == p + Pending().data && old(Pending()).end == Pending().end
    {
      var take := if n < |buf| - cursor then n else |buf| - cursor;
      p := buf[cursor..cursor + take];
      assert buf[cursor..] == p + buf[cursor + take..];
      cursor := cursor + take;
    }
  }

  /** Reads to the end with an arbitrary schedule of positive read sizes. */
  method ReadAll(format: Format, input: seq<Byte>, sizes: nat -> nat) returns (got: seq<Byte>, end: Ending)
    requires |format.base| == 12 && forall i :: sizes(i) > 0
    ensures Outcome(got, end) == Decode(format, 0, input)
  {
    var rd := new FrameReader(format, input);
    var calls := 0;
    got := [];
    ghost var left := rd.Pending();
    while true
      invariant fresh(rd) && rd.Valid() && rd.Pending() == left
      invariant Decode(format, 0, input) == Outcome(got + left.data, left.end)
      decreases |rd.input|, |rd.buf| - rd.cursor
    {
      var p, r := rd.Read(sizes(calls));
      if r.Stop? {
        assert got + [] == got;
        return got, r.end;
      }
      Regroup(got, p, left.data, rd.Pending().data);
      left := rd.Pending();
      got := got + p;
      calls := calls + 1;
    }
  }

  lemma Regroup(got: seq<Byte>, p: seq<Byte>, all: seq<Byte>, left: seq<Byte>)
    requires all == p + left
    ensures got + all == (got + p) + left
  {
  }

  /** Frame round trip, end to end: any data, any split into writes, any schedule of reads, and any bytes
      after the final frame. */
  method WriteThenRead(format: Format, parts: seq<seq<Byte>>, tail: seq<Byte>, sizes: nat -> nat)
    returns (got: seq<Byte>, end: Ending)
    requires format.Valid() && forall i :: sizes(i) > 0
    ensures got == Concat(parts) && end == Clean
  {
    var out := WriteAll(format, parts);
    DecodeEncode(format, 0, Concat(parts), tail);
    got, end := ReadAll(format, out + tail, sizes);
  }

  /** Truncation safety, end to end: a stream cut anywhere is never mistaken for a complete one. */
  method WriteThenReadCut(format: Format, parts: seq<seq<Byte>>, n: nat, sizes: nat -> nat)
    returns (got: seq<Byte>, end: Ending)
    requires format.Valid() && forall i :: sizes(i) > 0
    requires n < |Encode(format, 0, Concat(parts))|
    ensures got <= Concat(parts) && |got| == Recovered(format, n) && end == Truncated
  {
    var out := WriteAll(format, parts);
    CutIsTruncated(format, 0, Concat(parts), n);
    got, end := ReadAll(format, out[..n], sizes);
  }
}

/** The chunked frame codec: what a closed frame stream is, what reading any byte stream yields,
    and why the two are inverse. */
module Frames {

  import opened Wrappers
  import opened Bytes
  import opened Arithmetic

  const FINAL_BIT: nat := 0x8000_0000
  const COUNTER_LIMIT: nat := 0x1_0000_0000_0000_0000

  /** Authenticated encryption as section 2 of RFC 5116 describes it, with empty associated data. */
  datatype Aead = Aead(
    seal: (seq<Byte>, seq<Byte>) -> seq<Byte>,
    open: (seq<Byte>, seq<Byte>) -> Option<seq<Byte>>,
    overhead: nat)

  ghost predicate ValidAead(a: Aead) {
    && a.overhead <= 128
    && forall n: seq<Byte>, p: seq<Byte> :: |a.seal(n, p)| == |p| + a.overhead && a.open(n, a.seal(n, p)) == Some(p)
  }

  /** Chunk size, optional encryption, and the twelve-byte nonce base. */
  datatype Format = Format(chunk: nat, aead: Option<Aead>, base: seq<Byte>) {
    ghost predicate Valid() {
      && 0 < chunk && chunk + 128 < FINAL_BIT && |base| == 12
      && (aead.Some? ==> ValidAead(aead.value))
    }

    function Overhead(): nat { if aead.Some? then aead.value.overhead else 0 }
  }

  // ---- Nonces ----

  /** The base with the eight-byte counter folded into its tail. */
  function FrameNonce(base: seq<Byte>, counter: nat): (r: seq<Byte>)
    requires |base| == 12
    ensures |r| == 12 && r[..4] == base[..4]
  {
    var ctr := BigEndian(8, counter);
    seq(12, i requires 0 <= i < 12 => if i < 4 then base[i] else Xor(base[i], ctr[i - 4]))
  }

  /** makeFrameNonce: copy the base, then fold the counter in byte by byte. */
  method MakeFrameNonce(base: seq<Byte>, counter: nat) returns (nonce: seq<Byte>)
    requires |base| == 12
    ensures nonce == FrameNonce(base, counter)
  {
    var out := new Byte[12](i requires 0 <= i < 12 => base[i]);
    var ctr := BigEndian(8, counter);
    for i := 0 to 8
      invariant forall k :: 0 <= k < 4 + i ==> out[k] == FrameNonce(base, counter)[k]
      invariant forall k :: 4 + i <= k < 12 ==> out[k] == base[k]
    {
      out[4 + i] := Xor(out[4 + i], ctr[i]);
    }
    nonce := out[..];
  }

  /** Byte by byte: the last eight bytes are those of the base xored with the counter's, low byte last. */
  lemma NonceBytes(base: seq<Byte>, counter: nat, i: nat)
    requires |base| == 12 && i < 8
    ensures FrameNonce(base, counter)[11 - i] == Xor(base[11 - i], counter / Pow256(i) % 256)
  {
    BigEndianAt(8, counter, 7 - i);
    ShiftIsQuotient(counter, i);
  }

  /** No two frames of one backup share a nonce (section 8 of NIST SP 800-38D). */
  lemma NoncesDistinct(base: seq<Byte>, j: nat, k: nat)
    requires |base| == 12 && j < COUNTER_LIMIT && k < COUNTER_LIMIT && j != k
    ensures FrameNonce(base, j) != FrameNonce(base, k)
  {
    var x, y := BigEndian(8, j), BigEndian(8, k);
    assert Pow256(8) == COUNTER_LIMIT by {
      assert Pow256(2) == 0x1_0000;
      assert Pow256(5) == 256 * (256 * (256 * Pow256(2)));
      assert Pow256(8) == 256 * (256 * (256 * Pow256(5)));
    }
    if FrameNonce(base, j) == FrameNonce(base, k) {
      forall i | 0 <= i < 8 ensures x[i] == y[i] {
        assert FrameNonce(base, j)[4 + i] == FrameNonce(base, k)[4 + i];
        XorInjective(base[4 + i], x[i], y[i]);
      }
      assert x == y;
      BigEndianInjective(8, j, k);
    }
  }

  /** The counter is a 64-bit word. */
  function Next(counter: nat): nat { (counter + 1) % COUNTER_LIMIT }

  // ---- The stream a writer produces ----

  function Payload(f: Format, counter: nat, data: seq<Byte>): (r: seq<Byte>)
    requires |f.base| == 12
  {
    if f.aead.Some? then f.aead.value.seal(FrameNonce(f.base, counter), data) else data
  }

  function Header(length: nat, final: bool): (r: seq<Byte>)
    ensures |r| == 4
  {
    BigEndian(4, length + if final then FINAL_BIT else 0)
  }

  function Frame(f: Format, counter: nat, data: seq<Byte>, final: bool): (r: seq<Byte>)
    requires |f.base| == 12
  {
    var payload := Payload(f, counter, data);
    Header(|payload|, final) + payload
  }

  /** The closed stream for some data: full chunks, then one shorter final frame. */
  function Encode(f: Format, counter: nat, data: seq<Byte>): (r: seq<Byte>)
    requires |f.base| == 12 && 0 < f.chunk
    decreases |data|
  {
    if |data| < f.chunk then Frame(f, counter, data, true)
    else Frame(f, counter, data[..f.chunk], false) + Encode(f, Next(counter), data[f.chunk..])
  }

  function FrameCount(chunk: nat, n: nat): (r: nat)
    requires 0 < chunk
    decreases n
  {
    if n < chunk then 1 else 1 + FrameCount(chunk, n - chunk)
  }

  // ---- What reading yields ----

  datatype Ending = Clean | Truncated | BadLength | AuthFailed
  datatype Outcome = Outcome(data: seq<Byte>, end: Ending)

  datatype Fill = NoFrame(end: Ending) | Filled(data: seq<Byte>, final: bool, used: nat)

  /** One frame off the front of the input: header, bound, payload, authentication, in that order. */
  function NextFrame(f: Format, counter: nat, input: seq<Byte>): (r: Fill)
    requires |f.base| == 12
    ensures r.Filled? ==> 4 <= r.used <= |input|
    ensures r.NoFrame? ==> r.end != Clean
  {
    if |input| < 4 then NoFrame(Truncated)
    else
      var hdr := FromBigEndian(input[..4]);
      var final := hdr >= FINAL_BIT;
      var length := hdr % FINAL_BIT;
      if length > f.chunk + 128 then NoFrame(BadLength)
      else if |input| < 4 + length then NoFrame(Truncated)
      else
        var payload := input[4..4 + length];
        if f.aead.None? then Filled(payload, final, 4 + length)
        else
          match f.aead.value.open(FrameNonce(f.base, counter), payload)
          case None => NoFrame(AuthFailed)
          case Some(p) => Filled(p, final, 4 + length)
  }

  /** Everything a consumer obtains from the stream, and how the stream ends for it. */
  function Decode(f: Format, counter: nat, input: seq<Byte>): (r: Outcome)
    requires |f.base| == 12
    decreases |input|
  {
    match NextFrame(f, counter, input)
    case NoFrame(end) => Outcome([], end)
    case Filled(p, final, used) =>
      if final then Outcome(p, Clean)
      else
        var rest := Decode(f, Next(counter), input[used..]);
        Outcome(p + rest.data, rest.end)
  }

  // ---- Round trip ----

  lemma HeaderReads(length: nat, final: bool)
    requires length < FINAL_BIT
    ensures var hdr := FromBigEndian(Header(length, final));
            (hdr >= FINAL_BIT <==> final) && hdr % FINAL_BIT == length
  {
    assert Pow256(4) == 0x1_0000_0000 by { assert Pow256(2) == 0x1_0000; }
    BigEndianRoundTrip(4, length + if final then FINAL_BIT else 0);
  }

  /** Any four bytes are the header of one length and one final bit. */
  lemma EveryHeader(hdr: seq<Byte>) returns (length: nat, final: bool)
    requires |hdr| == 4
    ensures length < FINAL_BIT && hdr == Header(length, final)
  {
    var v := FromBigEndian(hdr);
    assert Pow256(4) == 0x1_0000_0000 by { assert Pow256(2) == 0x1_0000; }
    FromBigEndianRoundTrip(hdr);
    final := v >= FINAL_BIT;
    length := if final then v - FINAL_BIT else v;
  }

  /** What each input gives, by its header: more than a chunk with its tag is refused outright, less than
      the header announces is a truncation, and a payload that does not open is an authentication failure. */
  lemma FrameByHeader(f: Format, counter: nat, length: nat, final: bool, rest: seq<Byte>)
    requires |f.base| == 12 && length < FINAL_BIT
    ensures var r := NextFrame(f, counter, Header(length, final) + rest);
            && (length > f.chunk + 128 ==> r == NoFrame(BadLength))
            && (|rest| < length <= f.chunk + 128 ==> r == NoFrame(Truncated))
            && (length <= f.chunk + 128 && length <= |rest| ==>
                  var plain := if f.aead.None? then Some(rest[..length])
                                else f.aead.value.open(FrameNonce(f.base, counter), rest[..length]);
                  r == if plain.None? then NoFrame(AuthFailed) else Filled(plain.value, final, 4 + length))
  {
    var input := Header(length, final) + rest;
    HeaderReads(length, final);
    assert input[..4] == Header(length, final);
    if length <= |rest| { assert input[4..4 + length] == rest[..length]; }
  }

  /** A frame at the front of any input is read back whole, under the nonce it was sealed under. */
  lemma FrameReads(f: Format, counter: nat, data: seq<Byte>, final: bool, tail: seq<Byte>)
    requires f.Valid() && |data| <= f.chunk
    ensures |Frame(f, counter, data, final)| == 4 + |data| + f.Overhead()
    ensures NextFrame(f, counter, Frame(f, counter, data, final) + tail) ==
            Filled(data, final, |Frame(f, counter, data, final)|)
  {
    var payload := Payload(f, counter, data);
    var frame := Frame(f, counter, data, final);
    var input := frame + tail;
    HeaderReads(|payload|, final);
    assert input[..4] == Header(|payload|, final);
    assert input[4..4 + |payload|] == payload;
  }

  /** A frame that is not the last contributes its data; the rest is read under the next counter. */
  lemma DecodeFrame(f: Format, counter: nat, data: seq<Byte>, tail: seq<Byte>)
    requires f.Valid() && |data| <= f.chunk
    ensures var rest := Decode(f, Next(counter), tail);
            Decode(f, counter, Frame(f, counter, data, false) + tail) == Outcome(data + rest.data, rest.end)
  {
    var frame := Frame(f, counter, data, false);
    FrameReads(f, counter, data, false, tail);
    assert (frame + tail)[|frame|..] == tail;
  }

  lemma Regroup(frame: seq<Byte>, more: seq<Byte>, tail: seq<Byte>)
    ensures frame + more + tail == frame + (more + tail)
  {
  }

  lemma JoinPrefix(data: seq<Byte>, chunk: nat, k: nat)
    requires chunk + k <= |data|
    ensures data[..chunk] + data[chunk..][..k] == data[..chunk + k]
    ensures chunk + k == |data| ==> data[..chunk] + data[chunk..] == data
  {
  }

  lemma CutAfter(frame: seq<Byte>, more: seq<Byte>, m: nat)
    requires m <= |more|
    ensures (frame + more)[..|frame| + m] == frame + more[..m]
  {
  }

  /** Round trip: decoding the closed stream gives back the data and a clean end, whatever follows it. */
  lemma {:induction false} DecodeEncode(f: Format, counter: nat, data: seq<Byte>, tail: seq<Byte>)
    requires f.Valid()
    ensures Decode(f, counter, Encode(f, counter, data) + tail) == Outcome(data, Clean)
    decreases |data|
  {
    if |data| < f.chunk {
      FrameReads(f, counter, data, true, tail);
    } else {
      var head, rest := data[..f.chunk], data[f.chunk..];
      var frame, more := Frame(f, counter, head, false), Encode(f, Next(counter), rest);
      DecodeFrame(f, counter, head, more + tail);
      Regroup(frame, more, tail);
      DecodeEncode(f, Next(counter), rest, tail);
      JoinPrefix(data, f.chunk, |rest|);
    }
  }

  /** The stream is exactly as long as its data, its frame headers and its tags: ⌊n/chunk⌋ + 1 frames. */
  lemma {:induction false} EncodedLength(f: Format, counter: nat, data: seq<Byte>)
    requires f.Valid()
    ensures |Encode(f, counter, data)| == |data| + (4 + f.Overhead()) * FrameCount(f.chunk, |data|)
    decreases |data|
  {
    var c := 4 + f.Overhead();
    if |data| < f.chunk {
      FrameReads(f, counter, data, true, []);
      assert FrameCount(f.chunk, |data|) == 1;
      assert c * 1 == c;
    } else {
      var head, rest := data[..f.chunk], data[f.chunk..];
      FrameReads(f, counter, head, false, []);
      EncodedLength(f, Next(counter), rest);
      assert |Encode(f, counter, data)| == |Frame(f, counter, head, false)| + |Encode(f, Next(counter), rest)|;
      OneMore(c, FrameCount(f.chunk, |rest|));
    }
  }

  lemma {:induction false} FrameCountIsQuotient(chunk: nat, n: nat)
    requires 0 < chunk
    ensures FrameCount(chunk, n) == n / chunk + 1
    decreases n
  {
    if n >= chunk {
      FrameCountIsQuotient(chunk, n - chunk);
      QuotientStep(n, chunk);
    }
  }

  // ---- Truncation ----

  /** Cutting the input either does not matter to the next frame or makes it missing. */
  lemma NextFramePrefix(f: Format, counter: nat, input: seq<Byte>, n: nat)
    requires |f.base| == 12 && n <= |input|
    ensures var full, cut := NextFrame(f, counter, input), NextFrame(f, counter, input[..n]);
            || cut == full
            || cut == NoFrame(Truncated)
  {
    if n >= 4 {
      assert input[..n][..4] == input[..4];
      var length := FromBigEndian(input[..4]) % FINAL_BIT;
      if 4 + length <= n {
        assert input[..n][4..4 + length] == input[4..4 + length];
      }
    }
  }

  /** For every byte stream, valid or not: reading a prefix of it gives the same outcome as reading all
      of it, or a prefix of the data followed by the truncation error. */
  lemma {:induction false} DecodePrefix(f: Format, counter: nat, input: seq<Byte>, n: nat)
    requires |f.base| == 12 && n <= |input|
    ensures var full, cut := Decode(f, counter, input), Decode(f, counter, input[..n]);
            || cut == full
            || (cut.end == Truncated && cut.data <= full.data)
    decreases n
  {
    NextFramePrefix(f, counter, input, n);
    var fill := NextFrame(f, counter, input[..n]);
    if fill.Filled? && !fill.final {
      assert input[..n][fill.used..] == input[fill.used..][..n - fill.used];
      DecodePrefix(f, Next(counter), input[fill.used..], n - fill.used);
    }
  }

  /** How much of the data a cut after n bytes lets through: the whole chunks before the cut. */
  function Recovered(f: Format, n: nat): (r: nat)
    requires 0 < f.chunk
    decreases n
  {
    var size := 4 + f.chunk + f.Overhead();
    if n < size then 0 else f.chunk + Recovered(f, n - size)
  }

  /** A cut behind the first frame is a cut of what follows it. */
  lemma CutBehindFrame(f: Format, counter: nat, data: seq<Byte>, n: nat)
    requires f.Valid() && |data| >= f.chunk && 4 + f.chunk + f.Overhead() <= n < |Encode(f, counter, data)|
    requires var rest, m := data[f.chunk..], n - (4 + f.chunk + f.Overhead());
             && m < |Encode(f, Next(counter), rest)| && Recovered(f, m) <= |rest|
             && Decode(f, Next(counter), Encode(f, Next(counter), rest)[..m]) == Outcome(rest[..Recovered(f, m)], Truncated)
    ensures Recovered(f, n) <= |data|
    ensures Decode(f, counter, Encode(f, counter, data)[..n]) == Outcome(data[..Recovered(f, n)], Truncated)
  {
    hide Decode, Frame;
    var head, rest := data[..f.chunk], data[f.chunk..];
    var frame, more := Frame(f, counter, head, false), Encode(f, Next(counter), rest);
    var m := n - (4 + f.chunk + f.Overhead());
    FrameReads(f, counter, head, false, []);
    DecodeFrame(f, counter, head, more[..m]);
    CutAfter(frame, more, m);
    JoinPrefix(data, f.chunk, Recovered(f, m));
  }

  /** Truncation safety: a strict prefix of a closed stream never ends cleanly; it yields exactly the
      whole chunks before the cut and then the truncation error. */
  lemma {:induction false} CutIsTruncated(f: Format, counter: nat, data: seq<Byte>, n: nat)
    requires f.Valid() && n < |Encode(f, counter, data)|
    ensures Recovered(f, n) <= |data|
    ensures Decode(f, counter, Encode(f, counter, data)[..n]) == Outcome(data[..Recovered(f, n)], Truncated)
    decreases |data|
  {
    hide Frame, FromBigEndian;
    var all := Encode(f, counter, data);
    if |data| < f.chunk {
      FrameReads(f, counter, data, true, []);
      assert all + [] == all;
      NextFrameNeedsAll(f, counter, data, true, [], n);
    } else {
      var size := 4 + f.chunk + f.Overhead();
      FrameReads(f, counter, data[..f.chunk], false, []);
      if n < size {
        NextFrameNeedsAll(f, counter, data[..f.chunk], false, Encode(f, Next(counter), data[f.chunk..]), n);
      } else {
        CutIsTruncated(f, Next(counter), data[f.chunk..], n - size);
        CutBehindFrame(f, counter, data, n);
      }
    }
  }

  lemma NextFrameNeedsAll(f: Format, counter: nat, data: seq<Byte>, final: bool, tail: seq<Byte>, n: nat)
    requires f.Valid() && |data| <= f.chunk && n < |Frame(f, counter, data, final)|
    ensures NextFrame(f, counter, (Frame(f, counter, data, final) + tail)[..n]) == NoFrame(Truncated)
  {
    var payload := Payload(f, counter, data);
    var input := (Frame(f, counter, data, final) + tail)[..n];
    HeaderReads(|payload|, final);
    if n >= 4 {
      assert input[..4] == Header(|payload|, final);
    }
  }

  // ---- After an error ----

  /** What a consumer obtains that keeps reading after the stream has failed at its next frame. Missing bytes
      are remembered; a bad length has consumed the header only, a failed tag the whole frame, and reading
      goes on behind it under the same counter. */
  function AfterStop(f: Format, counter: nat, input: seq<Byte>): (r: Outcome)
    requires |f.base| == 12 && NextFrame(f, counter, input).NoFrame?
  {
    match NextFrame(f, counter, input).end
    case BadLength => Decode(f, counter, input[4..])
    case AuthFailed => Decode(f, counter, input[4 + FromBigEndian(input[..4]) % FINAL_BIT..])
    case end => Outcome([], end)
  }

  /** Further reading reports this ending again, and nothing else, on every stream that ends so. */
  ghost predicate Sticky(end: Ending) {
    forall f: Format, counter: nat, input: seq<Byte> ::
      |f.base| == 12 && NextFrame(f, counter, input) == NoFrame(end) ==> AfterStop(f, counter, input) == Outcome([], end)
  }

  const Zeros: seq<Byte> := [0, 0, 0, 0, 0, 0, 0, 0, 0, 0, 0, 0]

  /** One-byte chunks, in the clear and under a toy cipher whose tag is one zero byte. */
  const Clear := Format(1, None, Zeros)
  const Toy := Format(1, Some(Aead((n, p) => p + [0], (n, c) => ToyOpen(c), 1)), Zeros)

  function ToyOpen(c: seq<Byte>): Option<seq<Byte>> {
    if c != [] && c[|c| - 1] == 0 then Some(c[..|c| - 1]) else None
  }

  lemma SmallHeaders()
    ensures FromBigEndian([127, 255, 255, 255]) == 0x7fff_ffff && FromBigEndian([128, 0, 0, 0]) == FINAL_BIT
    ensures FromBigEndian([0, 0, 0, 1]) == 1 && FromBigEndian([128, 0, 0, 1]) == FINAL_BIT + 1
  {
    HeaderValue(127, 255, 255, 255);
    HeaderValue(128, 0, 0, 0);
    HeaderValue(0, 0, 0, 1);
    HeaderValue(128, 0, 0, 1);
  }

  lemma HeaderValue(a: Byte, b: Byte, c: Byte, d: Byte)
    ensures FromBigEndian([a, b, c, d]) == ((a * 256 + b) * 256 + c) * 256 + d
  {
    assert [a][..0] == [] && [a, b][..1] == [a] && [a, b, c][..2] == [a, b] && [a, b, c, d][..3] == [a, b, c];
    assert FromBigEndian([]) == 0 && FromBigEndian([a]) == a;
    assert FromBigEndian([a, b]) == a * 256 + b;
    assert FromBigEndian([a, b, c]) == (a * 256 + b) * 256 + c;
  }

  /** A header that announces too much, followed by an empty final frame: an error, then a clean end. */
  lemma ErrsThenEndsCleanly()
    ensures var input: seq<Byte> := [127, 255, 255, 255, 128, 0, 0, 0];
            NextFrame(Clear, 0, input) == NoFrame(BadLength) && AfterStop(Clear, 0, input) == Outcome([], Clean)
  {
    var input: seq<Byte> := [127, 255, 255, 255, 128, 0, 0, 0];
    SmallHeaders();
    assert input[..4] == [127, 255, 255, 255] && input[4..] == [128, 0, 0, 0];
    var rest := input[4..];
    assert rest[..4] == rest && rest[4..4] == [];
  }

  /** A one-byte payload under the toy cipher: an empty frame if it is the tag, a failure otherwise. */
  lemma ToyReads(first: Byte, c: Byte, tail: seq<Byte>)
    requires first == 0 || first == 128
    ensures NextFrame(Toy, 0, [first, 0, 0, 1, c] + tail) ==
            if c == 0 then Filled([], first == 128, 5) else NoFrame(AuthFailed)
    ensures FromBigEndian(([first, 0, 0, 1, c] + tail)[..4]) % FINAL_BIT == 1
  {
    var input := [first, 0, 0, 1, c] + tail;
    SmallHeaders();
    assert input[..4] == [first, 0, 0, 1] && input[4..5] == [c];
    assert ToyOpen([c]) == if c == 0 then Some([c][..0]) else None;
    assert [c][..0] == [];
  }

  /** A frame that does not authenticate, followed by one that does: an error, then a clean end. */
  lemma FailsTagThenEndsCleanly()
    ensures var input: seq<Byte> := [0, 0, 0, 1, 9] + [128, 0, 0, 1, 0];
            NextFrame(Toy, 0, input) == NoFrame(AuthFailed) && AfterStop(Toy, 0, input) == Outcome([], Clean)
  {
    hide NextFrame, FromBigEndian;
    var good: seq<Byte> := [128, 0, 0, 1, 0];
    ToyReads(0, 9, good);
    ToyReads(128, 0, []);
    assert good + [] == good && ([0, 0, 0, 1, 9] + good)[5..] == good;
  }

  /** Which endings repeat on the next call: a clean end and a truncation, and no other. */
  lemma StickyIff(end: Ending)
    ensures Sticky(end) <==> end == Clean || end == Truncated
  {
    hide NextFrame, AfterStop;
    if end == Clean || end == Truncated {
      OthersStick(end);
    } else if end == BadLength {
      ErrsThenEndsCleanly();
    } else {
      FailsTagThenEndsCleanly();
    }
  }

  lemma OthersStick(end: Ending)
    requires end == Clean || end == Truncated
    ensures Sticky(end)
  {
  }

  // ---- Nonces of one stream ----

  /** The counters Encode seals under, frame by frame, for n bytes of data. */
  function CountersUsed(chunk: nat, counter: nat, n: nat): (r: seq<nat>)
    requires 0 < chunk
    decreases n
  {
    [counter] + if n < chunk then [] else CountersUsed(chunk, Next(counter), n - chunk)
  }

  lemma NextShifts(counter: nat, i: nat)
    requires counter < COUNTER_LIMIT
    ensures (Next(counter) + i) % COUNTER_LIMIT == (counter + 1 + i) % COUNTER_LIMIT
  {
    if counter + 1 == COUNTER_LIMIT {
      assert (COUNTER_LIMIT + i) % COUNTER_LIMIT == i % COUNTER_LIMIT;
    }
  }

  lemma {:induction false} CounterAt(chunk: nat, counter: nat, n: nat)
    requires 0 < chunk && counter < COUNTER_LIMIT
    ensures |CountersUsed(chunk, counter, n)| == FrameCount(chunk, n)
    ensures forall i :: 0 <= i < |CountersUsed(chunk, counter, n)| ==>
      CountersUsed(chunk, counter, n)[i] == (counter + i) % COUNTER_LIMIT
    decreases n
  {
    var used := CountersUsed(chunk, counter, n);
    if n >= chunk {
      var rest := CountersUsed(chunk, Next(counter), n - chunk);
      CounterAt(chunk, Next(counter), n - chunk);
      forall i | 0 <= i < |used| ensures used[i] == (counter + i) % COUNTER_LIMIT {
        if i > 0 {
          assert used[i] == rest[i - 1];
          NextShifts(counter, i - 1);
        }
      }
    }
  }

  /** Frames sealed under a given list of counters, one per frame. */
  function Assemble(f: Format, counters: seq<nat>, data: seq<Byte>): (r: seq<Byte>)
    requires |f.base| == 12 && 0 < f.chunk && |counters| == FrameCount(f.chunk, |data|)
    decreases |data|
  {
    if |data| < f.chunk then Frame(f, counters[0], data, true)
    else Frame(f, counters[0], data[..f.chunk], false) + Assemble(f, counters[1..], data[f.chunk..])
  }

  /** Frame i of the stream is sealed under the i-th of these counters. */
  lemma {:induction false} EncodeUsesCounters(f: Format, counter: nat, data: seq<Byte>)
    requires |f.base| == 12 && 0 < f.chunk && counter < COUNTER_LIMIT
    ensures |CountersUsed(f.chunk, counter, |data|)| == FrameCount(f.chunk, |data|)
    ensures Encode(f, counter, data) == Assemble(f, CountersUsed(f.chunk, counter, |data|), data)
    decreases |data|
  {
    CounterAt(f.chunk, counter, |data|);
    if |data| >= f.chunk {
      EncodeUsesCounters(f, Next(counter), data[f.chunk..]);
      assert CountersUsed(f.chunk, counter, |data|)[1..] == CountersUsed(f.chunk, Next(counter), |data| - f.chunk);
    }
  }

  lemma UsedInOrder(chunk: nat, n: nat, i: nat)
    requires 0 < chunk && FrameCount(chunk, n) <= COUNTER_LIMIT && i < |CountersUsed(chunk, 0, n)|
    ensures CountersUsed(chunk, 0, n)[i] == i < COUNTER_LIMIT
  {
    CounterAt(chunk, 0, n);
  }

  /** Within one backup of at most 2^64 frames, all frame nonces differ; each keeps the base's first
      four bytes. */
  lemma NonceDiscipline(base: seq<Byte>, chunk: nat, n: nat, i: nat, j: nat)
    requires |base| == 12 && 0 < chunk && FrameCount(chunk, n) <= COUNTER_LIMIT
    requires i < j < |CountersUsed(chunk, 0, n)|
    ensures FrameNonce(base, CountersUsed(chunk, 0, n)[i]) != FrameNonce(base, CountersUsed(chunk, 0, n)[j])
    ensures FrameNonce(base, CountersUsed(chunk, 0, n)[i])[..4] == base[..4]
  {
    var u, v := CountersUsed(chunk, 0, n)[i], CountersUsed(chunk, 0, n)[j];
    assert u == i && v == j && v < COUNTER_LIMIT by {
      UsedInOrder(chunk, n, i);
      UsedInOrder(chunk, n, j);
    }
    NoncesDistinct(base, u, v);
  }
}

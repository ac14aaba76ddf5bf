/** The multi-file bundle: its byte format, and what any byte string unbundles to. */
module Bundles {

  import opened Wrappers
  import opened Bytes

  type Name = seq<Byte>
  datatype Entry = Entry(name: Name, body: seq<Byte>)

  const HEADER_SIZE: nat := 12
  const MAX_NAME: nat := 1024
  const INT64_LIMIT: nat := 0x8000_0000_0000_0000

  /** "SBKB", version 1, four reserved zero bytes. */
  function Header(): (r: seq<Byte>)
    ensures |r| == HEADER_SIZE
  {
    [83, 66, 75, 66] + BigEndian(4, 1) + [0, 0, 0, 0]
  }

  predicate Encodable(e: Entry) { 1 <= |e.name| <= MAX_NAME && |e.body| < INT64_LIMIT }

  function EntryHeader(name: Name, size: nat): (r: seq<Byte>)
    ensures |r| == 12 + |name|
  {
    BigEndian(4, |name|) + name + BigEndian(8, size)
  }

  function EncodeEntry(e: Entry): (r: seq<Byte>)
    ensures |r| == 12 + |e.name| + |e.body|
  {
    EntryHeader(e.name, |e.body|) + e.body
  }

  function EncodeEntries(es: seq<Entry>): (r: seq<Byte>) {
    if es == [] then [] else EncodeEntry(es[0]) + EncodeEntries(es[1..])
  }

  function Encode(es: seq<Entry>): (r: seq<Byte>) { Header() + EncodeEntries(es) }

  /** streamBundleEntry's header buffer, filled in place. */
  method FillEntryHeader(name: Name, size: nat) returns (out: seq<Byte>)
    ensures out == EntryHeader(name, size)
  {
    var n := |name|;
    var hdr := new Byte[12 + n](_ => 0);
    ghost var want := EntryHeader(name, size);
    for i := 0 to 4
      invariant forall k :: 0 <= k < i ==> hdr[k] == want[k]
    {
      BigEndianAt(4, n, i);
      hdr[i] := ShiftBytes(n, 3 - i) % 256;
    }
    for i := 0 to n
      invariant forall k :: 0 <= k < 4 + i ==> hdr[k] == want[k]
    {
      hdr[4 + i] := name[i];
    }
    for i := 0 to 8
      invariant forall k :: 0 <= k < 4 + n + i ==> hdr[k] == want[k]
    {
      BigEndianAt(8, size, i);
      hdr[4 + n + i] := ShiftBytes(size, 7 - i) % 256;
    }
    out := hdr[..];
  }

  // ---- Reading ----

  datatype Step = End | Broken | Short(name: Name) | Got(entry: Entry, used: nat)

  /** A declared size of 2^63 or more turns negative and copies nothing. */
  function CopyLength(size: nat): nat { if size < INT64_LIMIT then size else 0 }

  /** One entry off the front of the stream: no more, an unreadable header, a body that is cut short, or
      a whole entry. */
  function NextEntry(b: seq<Byte>): (r: Step)
    ensures r.Got? ==> 12 <= r.used <= |b|
  {
    if b == [] then End
    else if |b| < 4 then Broken
    else
      var n := FromBigEndian(b[..4]);
      if n == 0 || n > MAX_NAME then Broken
      else if |b| < 12 + n then Broken
      else
        var length := CopyLength(FromBigEndian(b[4 + n..12 + n]));
        if |b| < 12 + n + length then Short(b[4..4 + n])
        else Got(Entry(b[4..4 + n], b[12 + n..12 + n + length]), 12 + n + length)
  }

  function ReadEntries(b: seq<Byte>): (r: Option<seq<Entry>>)
    decreases |b|
  {
    match NextEntry(b)
    case End => Some([])
    case Broken => None
    case Short(_) => None
    case Got(e, used) =>
      match ReadEntries(b[used..])
      case None => None
      case Some(rest) => Some([e] + rest)
  }

  /** What a byte string unbundles to; only the magic of the header is checked. */
  function Unbundle(b: seq<Byte>): (r: Option<seq<Entry>>) {
    if |b| < HEADER_SIZE || b[..4] != Header()[..4] then None else ReadEntries(b[HEADER_SIZE..])
  }

  // ---- Round trip and prefixes ----

  lemma Limits()
    ensures Pow256(4) == 0x1_0000_0000 && Pow256(8) == 2 * INT64_LIMIT
  {
    assert Pow256(2) == 0x1_0000;
    assert Pow256(5) == 256 * (256 * (256 * Pow256(2)));
    assert Pow256(8) == 256 * (256 * (256 * Pow256(5)));
  }

  /** The header of an encodable entry reads back as its name length, name and body length. */
  lemma HeaderReads(e: Entry, tail: seq<Byte>)
    requires Encodable(e)
    ensures var b := EncodeEntry(e) + tail;
            var n := |e.name|;
            && FromBigEndian(b[..4]) == n && b[4..4 + n] == e.name
            && FromBigEndian(b[4 + n..12 + n]) == |e.body| && b[12 + n..12 + n + |e.body|] == e.body
            && b[12 + n + |e.body|..] == tail
  {
    var b, n := EncodeEntry(e) + tail, |e.name|;
    Limits();
    BigEndianRoundTrip(4, n);
    BigEndianRoundTrip(8, |e.body|);
    assert b[..4] == BigEndian(4, n);
    assert b[4 + n..12 + n] == BigEndian(8, |e.body|);
  }

  /** The twelve header bytes. */
  lemma HeaderBytes()
    ensures Header() == [83, 66, 75, 66, 0, 0, 0, 1, 0, 0, 0, 0]
  {
    assert BigEndian(4, 1) == [0, 0, 0, 1] by {
      assert BigEndian(1, 0) == [0] && BigEndian(2, 0) == [0, 0] && BigEndian(3, 0) == [0, 0, 0];
    }
  }

  /** What each input gives, by the name length it starts with. */
  lemma EntryByNameLength(n: nat, rest: seq<Byte>)
    requires n < Pow256(4)
    ensures NextEntry(BigEndian(4, n) + rest).Broken? <==> n == 0 || n > MAX_NAME || |rest| < n + 8
  {
    BigEndianRoundTrip(4, n);
    var b := BigEndian(4, n) + rest;
    assert b[..4] == BigEndian(4, n);
  }

  /** And once name and size are there: an announced size of 2^63 or more copies nothing, a body shorter than
      announced is cut short, and otherwise exactly the announced bytes are the body. */
  lemma EntryByHeader(name: Name, size: nat, rest: seq<Byte>)
    requires 1 <= |name| <= MAX_NAME && size < Pow256(8)
    ensures var r := NextEntry(EntryHeader(name, size) + rest);
            && (size >= INT64_LIMIT ==> r == Got(Entry(name, []), 12 + |name|))
            && (size < INT64_LIMIT && |rest| < size ==> r == Short(name))
            && (size < INT64_LIMIT && size <= |rest| ==> r == Got(Entry(name, rest[..size]), 12 + |name| + size))
  {
    var b, n := EntryHeader(name, size) + rest, |name|;
    Limits();
    BigEndianRoundTrip(4, n);
    BigEndianRoundTrip(8, size);
    assert b[..4] == BigEndian(4, n) && b[4..4 + n] == name && b[4 + n..12 + n] == BigEndian(8, size);
    assert b[12 + n..] == rest && b[12 + n..12 + n] == [];
    if size <= |rest| { assert b[12 + n..12 + n + size] == rest[..size]; }
  }

  lemma EntryReads(e: Entry, tail: seq<Byte>)
    requires Encodable(e)
    ensures NextEntry(EncodeEntry(e) + tail) == Got(e, |EncodeEntry(e)|)
    ensures (EncodeEntry(e) + tail)[|EncodeEntry(e)|..] == tail
  {
    HeaderReads(e, tail);
  }

  ghost predicate AllEncodable(es: seq<Entry>) {
    forall i :: 0 <= i < |es| ==> Encodable(es[i])
  }

  lemma {:induction false} ReadsBack(es: seq<Entry>)
    requires AllEncodable(es)
    ensures ReadEntries(EncodeEntries(es)) == Some(es)
  {
    if es != [] {
      EntryReads(es[0], EncodeEntries(es[1..]));
      ReadsBack(es[1..]);
      assert [es[0]] + es[1..] == es;
    }
  }

  /** Unpacking an encoded list of entries returns exactly that list. */
  lemma UnbundleEncode(es: seq<Entry>)
    requires AllEncodable(es)
    ensures Unbundle(Encode(es)) == Some(es)
  {
    ReadsBack(es);
    var b := Encode(es);
    assert b[..4] == Header()[..4] && b[HEADER_SIZE..] == EncodeEntries(es);
  }

  /** An entry that is cut short does not read. */
  lemma CutEntryBreaks(e: Entry, tail: seq<Byte>, n: nat)
    requires Encodable(e) && 0 < n < |EncodeEntry(e)|
    ensures var r := NextEntry((EncodeEntry(e) + tail)[..n]); r.Broken? || r.Short?
  {
    var b, len := EncodeEntry(e) + tail, |e.name|;
    HeaderReads(e, tail);
    var c := b[..n];
    if n >= 4 {
      assert c[..4] == b[..4];
      if n >= 12 + len { assert c[4 + len..12 + len] == b[4 + len..12 + len]; }
    }
  }

  /** How many whole entries lie before byte n, and whether n falls between entries. */
  function WholeBefore(es: seq<Entry>, n: nat): (r: (nat, bool))
    ensures r.0 <= |es|
  {
    if n == 0 then (0, true)
    else if es == [] || n < |EncodeEntry(es[0])| then (0, false)
    else var (k, exact) := WholeBefore(es[1..], n - |EncodeEntry(es[0])|); (k + 1, exact)
  }

  lemma NothingReads()
    ensures ReadEntries([]) == Some([])
  {
  }

  /** A prefix reads as the whole entries before the cut if the cut falls between entries, and not at all
      otherwise. */
  lemma {:induction false} CutReads(es: seq<Entry>, n: nat)
    requires AllEncodable(es) && n <= |EncodeEntries(es)|
    ensures var (k, exact) := WholeBefore(es, n);
            ReadEntries(EncodeEntries(es)[..n]) == if exact then Some(es[..k]) else None
  {
    hide NextEntry, EncodeEntry;
    if n == 0 {
      NothingReads();
    } else {
      var e, more := es[0], EncodeEntries(es[1..]);
      var first := EncodeEntry(e);
      if n < |first| {
        CutEntryBreaks(e, more, n);
      } else {
        CutReads(es[1..], n - |first|);
        assert (first + more)[..n] == first + more[..n - |first|];
        EntryReads(e, more[..n - |first|]);
        var (k, exact) := WholeBefore(es[1..], n - |first|);
        assert [e] + es[1..][..k] == es[..k + 1];
      }
    }
  }

  /** Unpacking any prefix of a bundle fails, or yields exactly the first k entries. */
  lemma UnbundlePrefix(es: seq<Entry>, n: nat)
    requires AllEncodable(es) && n <= |Encode(es)|
    ensures var r := Unbundle(Encode(es)[..n]);
            || r.None?
            || exists k :: 0 <= k <= |es| && r == Some(es[..k])
    ensures n < HEADER_SIZE ==> Unbundle(Encode(es)[..n]).None?
    ensures n >= HEADER_SIZE ==>
      var (k, exact) := WholeBefore(es, n - HEADER_SIZE);
      Unbundle(Encode(es)[..n]) == if exact then Some(es[..k]) else None
  {
    if n >= HEADER_SIZE {
      var b := Encode(es)[..n];
      CutReads(es, n - HEADER_SIZE);
      assert b[..4] == Header()[..4] && b[HEADER_SIZE..] == EncodeEntries(es)[..n - HEADER_SIZE];
    }
  }
}

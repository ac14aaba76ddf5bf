/** The hash-chain verifier for archived logs: JSON lines numbered from 1, each naming its predecessor's
    hash and carrying its own. Parsing, canonical marshalling and SHA-384 are the environment. */
module HashChain {

  /** JSON field values, as far as the verifier distinguishes them. */
  datatype Value = Str(s: string) | Num(n: real) | Other(v: int)

  type Record = map<string, Value>

  /** One scanned line: a JSON object, or something that does not parse as one. */
  datatype Line = Invalid | Obj(fields: Record)

  const WORD: nat := 0x1_0000_0000_0000_0000

  /** SHA-384 in hex of the canonical form, and Go's conversion of a JSON number to uint64. */
  datatype Env = Env(digest: Record -> string, toUint64: real -> nat)

  function StringField(r: Record, key: string): (s: string) {
    if key in r && r[key].Str? then r[key].s else ""
  }

  function StoredHash(r: Record): string { StringField(r, "_hash") }
  function StoredPrev(r: Record): string { StringField(r, "_prev") }

  function StoredSeq(env: Env, r: Record): nat {
    if "_seq" in r && r["_seq"].Num? then env.toUint64(r["_seq"].n) else 0
  }

  function Stripped(r: Record): Record { r - {"_hash"} }

  datatype Problem = Clean | BadJson(line: nat) | BadSeq(line: nat) | BadPrev(line: nat) | BadHash(line: nat) | ScanError

  /** What is wrong with one parsed line, given the number and the hash expected of it. */
  function LineProblem(env: Env, line: Line, count: nat, seqNo: nat, prev: string): (p: Problem) {
    if line.Invalid? then BadJson(count)
    else if StoredSeq(env, line.fields) != seqNo then BadSeq(count)
    else if StoredPrev(line.fields) != prev then BadPrev(count)
    else if |StoredHash(line.fields)| == 96 && env.digest(Stripped(line.fields)) != StoredHash(line.fields) then BadHash(count)
    else Clean
  }

  /** A line is in order. */
  predicate LineOk(env: Env, line: Line, seqNo: nat, prev: string) {
    LineProblem(env, line, 0, seqNo, prev) == Clean
  }

  /** The hash expected of the line after these. */
  function HeadHash(lines: seq<Line>): (h: string) {
    if lines == [] || lines[|lines| - 1].Invalid? then "" else StoredHash(lines[|lines| - 1].fields)
  }

  /** The number expected of the line after n lines. */
  function SeqAfter(n: nat): nat { (n + 1) % WORD }

  /** Every line is in order with respect to the lines before it. */
  ghost predicate Verifies(env: Env, lines: seq<Line>) {
    forall i :: 0 <= i < |lines| ==> LineOk(env, lines[i], SeqAfter(i), HeadHash(lines[..i]))
  }

  /** A problem with a particular line. */
  predicate AtLine(p: Problem) { p.BadJson? || p.BadSeq? || p.BadPrev? || p.BadHash? }

  /** Lines 0..n are in order. */
  ghost predicate InOrder(env: Env, lines: seq<Line>, n: nat)
    requires n <= |lines|
  {
    forall i :: 0 <= i < n ==> LineOk(env, lines[i], SeqAfter(i), HeadHash(lines[..i]))
  }

  /** verifyChainStream: scan to the first problem. */
  method VerifyChainStream(env: Env, lines: seq<Line>, scanFails: bool) returns (problem: Problem, count: nat)
    ensures problem == Clean <==> Verifies(env, lines) && !scanFails
    ensures count <= |lines| && (!AtLine(problem) ==> count == |lines| && Verifies(env, lines))
    ensures AtLine(problem) ==>
      && count > 0 && InOrder(env, lines, count - 1)
      && problem == LineProblem(env, lines[count - 1], count, SeqAfter(count - 1), HeadHash(lines[..count - 1]))
  {
    var expectedSeq, expectedPrev := 1, "";
    count := 0;
    while count < |lines|
      invariant count <= |lines| && expectedSeq == SeqAfter(count) && expectedPrev == HeadHash(lines[..count])
      invariant InOrder(env, lines, count)
    {
      var line := lines[count];
      problem := LineProblem(env, line, count + 1, expectedSeq, expectedPrev);
      SameVerdict(env, line, count + 1, expectedSeq, expectedPrev);
      count := count + 1;
      if problem != Clean { return; }
      expectedSeq := (expectedSeq + 1) % WORD;
      expectedPrev := StoredHash(line.fields);
      NextExpected(lines, count);
    }
    problem := if scanFails then ScanError else Clean;
  }

  lemma SameVerdict(env: Env, line: Line, count: nat, seqNo: nat, prev: string)
    ensures LineOk(env, line, seqNo, prev) <==> LineProblem(env, line, count, seqNo, prev) == Clean
    ensures LineProblem(env, line, count, seqNo, prev) == Clean || AtLine(LineProblem(env, line, count, seqNo, prev))
  {
  }

  /** Which problem is reported of a line, and for which line. */
  lemma ProblemExactly(env: Env, line: Line, count: nat, seqNo: nat, prev: string)
    ensures var p := LineProblem(env, line, count, seqNo, prev);
            && (p == BadJson(count) <==> line.Invalid?)
            && (p == BadSeq(count) <==> line.Obj? && StoredSeq(env, line.fields) != seqNo)
            && (p == BadPrev(count) <==>
                  line.Obj? && StoredSeq(env, line.fields) == seqNo && StoredPrev(line.fields) != prev)
            && (p == BadHash(count) <==>
                  && line.Obj? && StoredSeq(env, line.fields) == seqNo && StoredPrev(line.fields) == prev
                  && |StoredHash(line.fields)| == 96 && StoredHash(line.fields) != env.digest(Stripped(line.fields)))
  {
  }

  lemma NextExpected(lines: seq<Line>, count: nat)
    requires 0 < count <= |lines| && lines[count - 1].Obj?
    ensures HeadHash(lines[..count]) == StoredHash(lines[count - 1].fields)
    ensures SeqAfter(count) == (SeqAfter(count - 1) + 1) % WORD
  {
    assert lines[..count][count - 1] == lines[count - 1];
  }

  /** Lines in order up to n make the first n lines verify on their own. */
  lemma PrefixVerifies(env: Env, lines: seq<Line>, n: nat)
    requires n <= |lines|
    requires forall i :: 0 <= i < n ==> LineOk(env, lines[i], SeqAfter(i), HeadHash(lines[..i]))
    ensures Verifies(env, lines[..n])
  {
    forall i | 0 <= i < n ensures LineOk(env, lines[..n][i], SeqAfter(i), HeadHash(lines[..n][..i])) {
      assert lines[..n][..i] == lines[..i];
    }
  }

  /** Every prefix of a verifying stream verifies. */
  lemma EveryPrefixVerifies(env: Env, lines: seq<Line>, n: nat)
    requires Verifies(env, lines) && n <= |lines|
    ensures Verifies(env, lines[..n])
  {
    PrefixVerifies(env, lines, n);
  }

  /** All lines parse and carry full-length hashes. */
  ghost predicate FullHashes(lines: seq<Line>) {
    forall i :: 0 <= i < |lines| ==> lines[i].Obj? && |StoredHash(lines[i].fields)| == 96
  }

  /** No two different records among these lines have the same digest. */
  ghost predicate NoCollision(env: Env, a: seq<Line>, b: seq<Line>) {
    forall i, j :: 0 <= i < |a| && 0 <= j < |b| && a[i].Obj? && b[j].Obj? ==>
      Distinguished(env, Stripped(a[i].fields), Stripped(b[j].fields))
  }

  ghost predicate Distinguished(env: Env, x: Record, y: Record) {
    env.digest(x) == env.digest(y) ==> x == y
  }

  /** A full-length hash pins down its record. */
  lemma HashPinsRecord(env: Env, x: Record, y: Record, n: nat, m: nat, p: string, q: string)
    requires Distinguished(env, Stripped(x), Stripped(y)) && LineOk(env, Obj(x), n, p) && LineOk(env, Obj(y), m, q)
    requires StoredHash(x) == StoredHash(y) && |StoredHash(x)| == 96
    ensures x == y && p == q
  {
    assert Stripped(x) == Stripped(y);
    assert "_hash" in x && "_hash" in y && x["_hash"] == y["_hash"];
    forall k ensures k in x <==> k in y { assert k in Stripped(x) <==> k in Stripped(y); }
    forall k | k in x ensures x[k] == y[k] {
      if k != "_hash" { assert Stripped(x)[k] == x[k] && Stripped(y)[k] == y[k]; }
    }
  }

  /** Only the first line expects an empty predecessor hash. */
  lemma EmptyHeadIsStart(lines: seq<Line>)
    requires FullHashes(lines)
    ensures HeadHash(lines) == "" <==> lines == []
  {
  }

  lemma FullPrefix(lines: seq<Line>, n: nat)
    requires FullHashes(lines) && n <= |lines|
    ensures FullHashes(lines[..n])
  {
  }

  lemma CollisionPrefix(env: Env, a: seq<Line>, b: seq<Line>, m: nat, n: nat)
    requires NoCollision(env, a, b) && m <= |a| && n <= |b|
    ensures NoCollision(env, a[..m], b[..n])
  {
  }

  /** What the second stream must satisfy for its head to pin it down: its own hashes are full-length too,
      or neither stream is so long that line numbers wrap around. */
  ghost predicate Comparable(a: seq<Line>, b: seq<Line>) {
    FullHashes(b) || (a != [] && |a| < WORD && |b| < WORD)
  }

  /** Equal head hashes: the last records agree, and so do the numbers and the hashes before them. */
  lemma SameLastRecord(env: Env, a: seq<Line>, b: seq<Line>)
    requires NoCollision(env, a, b) && Verifies(env, a) && Verifies(env, b) && FullHashes(a)
    requires a != [] && b != [] && HeadHash(a) == HeadHash(b)
    ensures a[|a| - 1] == b[|b| - 1] && HeadHash(a[..|a| - 1]) == HeadHash(b[..|b| - 1])
    ensures SeqAfter(|a| - 1) == SeqAfter(|b| - 1)
  {
    var m, n := |a| - 1, |b| - 1;
    assert LineOk(env, a[m], SeqAfter(m), HeadHash(a[..m])) && LineOk(env, b[n], SeqAfter(n), HeadHash(b[..n]));
    assert Distinguished(env, Stripped(a[m].fields), Stripped(b[n].fields));
    HashPinsRecord(env, a[m].fields, b[n].fields, SeqAfter(m), SeqAfter(n), HeadHash(a[..m]), HeadHash(b[..n]));
  }

  lemma HeadOfFull(a: seq<Line>, b: seq<Line>)
    requires FullHashes(a) && Comparable(a, b) && HeadHash(a) == HeadHash(b)
    ensures a == [] <==> b == []
  {
    EmptyHeadIsStart(a);
    if FullHashes(b) { EmptyHeadIsStart(b); }
  }

  lemma ComparablePrefix(a: seq<Line>, b: seq<Line>)
    requires Comparable(a, b) && a != [] && b != [] && SeqAfter(|a| - 1) == SeqAfter(|b| - 1)
    ensures |a| > 1 || FullHashes(b) ==> Comparable(a[..|a| - 1], b[..|b| - 1])
    ensures !FullHashes(b) ==> |a| == |b|
  {
  }

  /** The chain head determines the log: of two streams that verify and end in the same hash, it is enough
      that one carries full-length hashes for both to be the same, line by line. The head pins the last
      record, hence its number and the hash before it, and so on backwards. */
  lemma {:induction false} HeadDeterminesLog(env: Env, a: seq<Line>, b: seq<Line>)
    requires NoCollision(env, a, b) && Verifies(env, a) && Verifies(env, b)
    requires FullHashes(a) && Comparable(a, b) && HeadHash(a) == HeadHash(b)
    ensures a == b
    decreases |a|
  {
    HeadOfFull(a, b);
    if a != [] {
      var m, n := |a| - 1, |b| - 1;
      SameLastRecord(env, a, b);
      ComparablePrefix(a, b);
      if m > 0 || FullHashes(b) {
        EveryPrefixVerifies(env, a, m);
        EveryPrefixVerifies(env, b, n);
        FullPrefix(a, m);
        CollisionPrefix(env, a, b, m, n);
        HeadDeterminesLog(env, a[..m], b[..n]);
      }
      SameLog(a, b);
    }
  }

  lemma SameLog(a: seq<Line>, b: seq<Line>)
    requires a != [] && b != [] && a[..|a| - 1] == b[..|b| - 1] && a[|a| - 1] == b[|b| - 1]
    ensures a == b
  {
    assert a == a[..|a| - 1] + [a[|a| - 1]] && b == b[..|b| - 1] + [b[|b| - 1]];
  }

  /** Tampering is caught: a stream that differs from a verified one with full-length hashes but still ends
      in its head hash does not verify, whatever the lengths of its own hashes. */
  lemma TamperingCaught(env: Env, a: seq<Line>, b: seq<Line>)
    requires NoCollision(env, a, b) && Verifies(env, a) && FullHashes(a) && Comparable(a, b)
    requires HeadHash(a) == HeadHash(b) && a != b
    ensures !Verifies(env, b)
  {
    if Verifies(env, b) { HeadDeterminesLog(env, a, b); }
  }

  // ---- Hashes of another length ----

  /** What the verifier demands of a stored hash, beyond number and predecessor: nothing at all, unless it
      has exactly 96 characters. */
  lemma OnlyFullHashesAreRecomputed(env: Env, line: Line, seqNo: nat, prev: string)
    ensures LineOk(env, line, seqNo, prev) <==>
      && line.Obj? && StoredSeq(env, line.fields) == seqNo && StoredPrev(line.fields) == prev
      && (env.digest(Stripped(line.fields)) == StoredHash(line.fields) || |StoredHash(line.fields)| != 96)
  {
  }

  /** A line whose hash is made up. */
  function Forged(hash: string): Line {
    Obj(map["_seq" := Num(1.0), "_prev" := Str(""), "_hash" := Str(hash), "event" := Str("made up")])
  }

  /** A stream with a wrong hash passes if and only if the hash does not have 96 characters: whatever the
      digest, a one-line log with any other hash verifies. */
  lemma ForgedLineVerifiesIff(env: Env, hash: string)
    requires env.toUint64(1.0) == 1 && env.digest(Stripped(Forged(hash).fields)) != hash
    ensures Verifies(env, [Forged(hash)]) <==> |hash| != 96
  {
    var lines := [Forged(hash)];
    assert lines[..0] == [];
    assert StoredSeq(env, lines[0].fields) == 1 == SeqAfter(0) && StoredPrev(lines[0].fields) == "" == HeadHash(lines[..0]);
    if Verifies(env, lines) { assert LineOk(env, lines[0], SeqAfter(0), HeadHash(lines[..0])); }
  }

  /** In particular the legacy length: 64 characters of anything. */
  lemma LegacyHashIsNotChecked(env: Env)
    requires env.toUint64(1.0) == 1
    ensures var hash := seq(64, _ => '0');
            env.digest(Stripped(Forged(hash).fields)) != hash ==> Verifies(env, [Forged(hash)])
  {
    var hash := seq(64, _ => '0');
    if env.digest(Stripped(Forged(hash).fields)) != hash { ForgedLineVerifiesIff(env, hash); }
  }
}

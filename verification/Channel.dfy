// One direction of a connection over a whole run: many records, and a reader
// that stops at the first error, as every caller of readRecord does.
module Channel {
  import opened Bytes
  import opened Results
  import opened Primitives
  import opened Record
  import Cbc

  function WriteAll(p: Crypto, d: Direction, recs: seq<Rec>): (w: (bytes, Direction))
    requires d.Valid()
    ensures w.1.Valid() && w.1.active == d.active
    decreases |recs|
  {
    if recs == [] then ([], d)
    else
      var (wire, d1) := WriteRecord(p, d, recs[0]);
      var (more, d2) := WriteAll(p, d1, recs[1..]);
      (wire + more, d2)
  }

  /** All that a reader accepts from a stream, its direction when it stops, and why. */
  datatype Reception = Reception(records: seq<Rec>, dir: Direction, error: Error)

  function Receive(p: Crypto, d: Direction, input: bytes): Reception
    requires d.Valid()
    decreases |input|
  {
    var r := ReadRecord(p, d, input);
    if r.result.Err? then Reception([], r.dir, r.result.error)
    else
      var more := Receive(p, r.dir, r.rest);
      more.(records := [r.result.value] + more.records)
  }

  predicate AllFit(d: Direction, recs: seq<Rec>) {
    forall i :: 0 <= i < |recs| ==> PayloadLen(d, |recs[i].content|) <= MAX_FRAGMENT
  }

  // ---- round trip ----

  /** A mirrored reader gets back exactly what was written, and then goes on
      from the writer's own state: sequence number, IV and keys. */
  lemma {:induction false} RoundTrip(p: Crypto, d: Direction, recs: seq<Rec>, rest: bytes)
    requires d.Valid() && AllFit(d, recs)
    ensures var (wire, d') := WriteAll(p, d, recs);
      var after := Receive(p, d', rest);
      Receive(p, d, wire + rest) == after.(records := recs + after.records)
    decreases |recs|
  {
    hide WriteRecord, ReadRecord, PayloadLen;
    if recs == [] {
      assert [] + rest == rest;
    } else {
      var (wire, d1) := WriteRecord(p, d, recs[0]);
      var (more, d2) := WriteAll(p, d1, recs[1..]);
      assert (wire + more) + rest == wire + (more + rest);
      ReadBack(p, d, recs[0], more + rest);
      SameLimits(d, d1, recs[1..]);
      RoundTrip(p, d1, recs[1..], rest);
      var after := Receive(p, d2, rest);
      assert [recs[0]] + (recs[1..] + after.records) == recs + after.records;
    }
  }

  /** What fits depends only on whether the direction is protected. */
  lemma SameLimits(d: Direction, d': Direction, recs: seq<Rec>)
    requires d.active == d'.active && AllFit(d, recs)
    ensures AllFit(d', recs)
  {
  }

  lemma ReceiveNothing(p: Crypto, d: Direction)
    requires d.Valid()
    ensures Receive(p, d, []) == Reception([], d, Eof)
  {
  }

  /** The wire carries the records in full, so equal streams mean equal records. */
  lemma WriteAllInjective(p: Crypto, d: Direction, a: seq<Rec>, b: seq<Rec>)
    requires d.Valid() && AllFit(d, a) && AllFit(d, b)
    requires WriteAll(p, d, a).0 == WriteAll(p, d, b).0
    ensures a == b
  {
    hide WriteAll, Receive;
    var (wire, da) := WriteAll(p, d, a);
    var (_, db) := WriteAll(p, d, b);
    assert wire + [] == wire && a + [] == a && b + [] == b;
    RoundTrip(p, d, a, []);
    RoundTrip(p, d, b, []);
    ReceiveNothing(p, da);
    ReceiveNothing(p, db);
  }

  // ---- one chain ----

  /** The fragments of a run, and the plaintexts sealed in them. */
  function Ciphertexts(p: Crypto, d: Direction, recs: seq<Rec>): bytes
    requires d.Valid()
    decreases |recs|
  {
    if recs == [] then []
    else
      var (wire, d1) := WriteRecord(p, d, recs[0]);
      wire[5..] + Ciphertexts(p, d1, recs[1..])
  }

  function Plaintexts(p: Crypto, d: Direction, recs: seq<Rec>): (s: bytes)
    requires d.Valid() && d.active
    ensures |s| % BLOCK_LEN == 0
    decreases |recs|
  {
    if recs == [] then []
    else
      hide Plaintext, WriteRecord;
      var first, more := Plaintext(p, d, recs[0]), Plaintexts(p, WriteRecord(p, d, recs[0]).1, recs[1..]);
      WholeBlocks(first, more);
      first + more
  }

  lemma WholeBlocks(a: bytes, b: bytes)
    requires |a| % BLOCK_LEN == 0 && |b| % BLOCK_LEN == 0
    ensures |a + b| % BLOCK_LEN == 0
  {
  }

  /** The records of a run form one CBC chain: their fragments together are the
      encryption of their plaintexts together, from the key block's IV on. */
  lemma {:induction false} RunIsOneChain(p: Crypto, d: Direction, recs: seq<Rec>)
    requires d.Valid() && d.active
    ensures Ciphertexts(p, d, recs) == Cbc.Encrypt(p, d.key, d.iv, Plaintexts(p, d, recs))
    decreases |recs|
  {
    hide WriteRecord, Plaintext, Cbc.Encrypt;
    if recs == [] {
      NothingSealed(p, d);
    } else {
      var (wire, d1) := WriteRecord(p, d, recs[0]);
      var plain := Plaintext(p, d, recs[0]);
      RecordOnWire(p, d, recs[0]);
      RunIsOneChain(p, d1, recs[1..]);
      Cbc.EncryptAppend(p, d.key, d.iv, plain, Plaintexts(p, d1, recs[1..]));
    }
  }

  lemma NothingSealed(p: Crypto, d: Direction)
    requires d.Valid() && d.active
    ensures Cbc.Encrypt(p, d.key, d.iv, []) == []
  {
  }

  // ---- delivery against arbitrary input ----

  /** The data whose MAC the reader checks successfully, in order. */
  function VerifiedInputs(p: Crypto, d: Direction, input: bytes): seq<bytes>
    requires d.Valid()
    decreases |input|
  {
    var r := ReadRecord(p, d, input);
    if r.result.Err? then []
    else [MacInput(d.seqNo, r.result.value)] + VerifiedInputs(p, r.dir, r.rest)
  }

  /** The data for which the writer issues MACs, in order. */
  function IssuedInputs(p: Crypto, d: Direction, recs: seq<Rec>): (s: seq<bytes>)
    requires d.Valid()
    ensures |s| == |recs|
    decreases |recs|
  {
    if recs == [] then []
    else [MacInput(d.seqNo, recs[0])] + IssuedInputs(p, WriteRecord(p, d, recs[0]).1, recs[1..])
  }

  /** The sequence number k records after start. */
  function SeqAt(start: uint64, k: nat): uint64 {
    (start + k) % TWO_64
  }

  lemma {:induction false} IssuedAt(p: Crypto, d: Direction, recs: seq<Rec>, k: nat)
    requires d.Valid() && d.active && k < |recs|
    ensures IssuedInputs(p, d, recs)[k] == MacInput(SeqAt(d.seqNo, k), recs[k])
    decreases |recs|
  {
    hide MacInput, WriteRecord, SeqAt, Next;
    SeqAtNext(d.seqNo, k);
    if k > 0 {
      var d1 := WriteRecord(p, d, recs[0]).1;
      WrittenAdvances(p, d, recs[0]);
      IssuedAt(p, d1, recs[1..], k - 1);
    }
  }

  lemma SeqAtNext(start: uint64, k: nat)
    ensures SeqAt(start, 0) == start
    ensures k > 0 ==> SeqAt(Next(start), k - 1) == SeqAt(start, k)
    ensures Next(SeqAt(start, k)) == SeqAt(start, k + 1)
  {
    ModNext(start + k, TWO_64);
    if k > 0 {
      ModAdd(start + 1, k - 1, TWO_64);
    }
  }

  lemma WrittenAdvances(p: Crypto, d: Direction, r: Rec)
    requires d.Valid() && d.active
    ensures WriteRecord(p, d, r).1.seqNo == Next(d.seqNo)
  {
  }

  /** Nothing was forged: every MAC the reader accepts was issued by the writer. */
  ghost predicate Unforged(p: Crypto, reader: Direction, input: bytes, writer: Direction, written: seq<Rec>)
    requires reader.Valid() && writer.Valid()
  {
    forall x :: x in VerifiedInputs(p, reader, input) ==> x in IssuedInputs(p, writer, written)
  }

  /** An undisturbed stream is not forged: the reader verifies, in order, exactly
      what the writer authenticated. */
  lemma {:induction false} HonestVerifies(p: Crypto, d: Direction, recs: seq<Rec>)
    requires d.Valid() && AllFit(d, recs)
    ensures VerifiedInputs(p, d, WriteAll(p, d, recs).0) == IssuedInputs(p, d, recs)
    decreases |recs|
  {
    hide WriteRecord, ReadRecord, PayloadLen, MacInput;
    if recs == [] {
      EmptyFails(p, d);
    } else {
      var (wire, d1) := WriteRecord(p, d, recs[0]);
      var (more, _) := WriteAll(p, d1, recs[1..]);
      ReadBack(p, d, recs[0], more);
      SameLimits(d, d1, recs[1..]);
      HonestVerifies(p, d1, recs[1..]);
    }
  }

  lemma EmptyFails(p: Crypto, d: Direction)
    requires d.Valid()
    ensures ReadRecord(p, d, []).result == Err(Eof)
  {
  }

  /** In-order, exactly-once delivery over every run: whatever bytes arrive
      (reordered, repeated, cut or made up), what the reader accepts is a prefix
      of what was written, with types and contents intact. Fewer than 2^64
      records are written, so no sequence number is used twice. */
  lemma {:induction false} DeliversPrefix(p: Crypto, reader: Direction, input: bytes,
                                          writer: Direction, written: seq<Rec>)
    requires reader.Valid() && reader.active && writer.Valid() && writer.active
    requires reader.seqNo == writer.seqNo && |written| < TWO_64
    requires Unforged(p, reader, input, writer, written)
    ensures Receive(p, reader, input).records <= written
  {
    SeqAtNext(writer.seqNo, 0);
    DeliversFrom(p, reader, input, writer, written, 0);
    assert written[0..] == written;
  }

  lemma {:induction false} DeliversFrom(p: Crypto, reader: Direction, input: bytes,
                                        writer: Direction, written: seq<Rec>, k: nat)
    requires reader.Valid() && reader.active && writer.Valid() && writer.active
    requires k <= |written| < TWO_64 && reader.seqNo == SeqAt(writer.seqNo, k)
    requires Unforged(p, reader, input, writer, written)
    ensures Receive(p, reader, input).records <= written[k..]
    decreases |input|
  {
    hide MacInput, ReadRecord, SeqAt, Next, IssuedInputs;
    var r := ReadRecord(p, reader, input);
    if r.result.Ok? {
      var rec := r.result.value;
      var issued := IssuedInputs(p, writer, written);
      assert MacInput(reader.seqNo, rec) in VerifiedInputs(p, reader, input);
      var j :| 0 <= j < |issued| && issued[j] == MacInput(reader.seqNo, rec);
      IssuedAt(p, writer, written, j);
      MacInputInjective(reader.seqNo, rec, SeqAt(writer.seqNo, j), written[j]);
      SameSeq(writer.seqNo, j, k);
      SeqAtNext(writer.seqNo, k);
      AcceptedAdvances(p, reader, input);
      DeliversFrom(p, r.dir, r.rest, writer, written, k + 1);
      assert written[k..] == [written[k]] + written[k + 1..];
    }
  }

  lemma SameSeq(start: uint64, j: nat, k: nat)
    requires j < TWO_64 && k < TWO_64 && SeqAt(start, j) == SeqAt(start, k)
    ensures j == k
  {
  }

  /** The sequence number moves on acceptance, and only then. */
  lemma AcceptedAdvances(p: Crypto, d: Direction, input: bytes)
    requires d.Valid() && d.active
    ensures var r := ReadRecord(p, d, input);
      r.dir.seqNo == if r.result.Ok? then Next(d.seqNo) else d.seqNo
  {
  }
}

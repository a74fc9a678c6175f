/**
 * An encoder for the MPS7 layout. The system itself only decodes; the encoder is
 * the reference the decoder is checked against: decoding what it writes gives
 * back the header's count and the records, in order.
 */
module Mps7Encoding {
  import opened Wrappers
  import opened BigEndian
  import opened Mps7
  import opened Mps7Reader

  /** The 9-byte header declaring `count` records. */
  function EncodeHeader(count: nat): (bs: seq<Byte>)
    requires count < Pow256(4)
    ensures |bs| == HEADER_SIZE
  {
    MAGIC_BYTES + [SUPPORTED_VERSION] + ToBytes(count, 4)
  }

  /** One record packed as kind, timestamp, user id and, for Debit and Credit, amount. */
  function EncodeRecord(rec: Record): (bs: seq<Byte>)
    requires WellFormed(rec)
    ensures |bs| == Width(rec.kind)
  {
    [rec.kind.Ordinal()] + ToBytes(rec.timestamp, 4) + ToBytes(rec.userId, 8)
      + (match rec.amount case Some(a) => ToBytes(a, 8) case None => [])
  }

  predicate AllWellFormed(recs: seq<Record>)
  {
    forall i :: 0 <= i < |recs| ==> WellFormed(recs[i])
  }

  /** Records packed back to back. */
  function EncodeRecords(recs: seq<Record>): seq<Byte>
    requires AllWellFormed(recs)
  {
    if |recs| == 0 then [] else EncodeRecord(recs[0]) + EncodeRecords(recs[1..])
  }

  /** A whole log: the header followed by the packed records. */
  function EncodeLog(recs: seq<Record>): seq<Byte>
    requires |recs| < Pow256(4) && AllWellFormed(recs)
  {
    EncodeHeader(|recs|) + EncodeRecords(recs)
  }

  /** An encoded header decodes to its count, with the records starting at offset 9. */
  lemma ReadEncodedHeader(data: seq<Byte>, count: nat)
    requires count < Pow256(4)
    requires |data| >= HEADER_SIZE && data[..HEADER_SIZE] == EncodeHeader(count)
    ensures ReadHeader(data) == Success(Header(count, HEADER_SIZE))
  {
  }

  /** A field whose bytes are the `n`-byte encoding of `v` reads back as `v`, leaving the rest. */
  lemma ReadEncodedInt(data: seq<Byte>, pos: nat, n: nat, v: nat, rest: seq<Byte>)
    requires v < Pow256(n)
    requires pos <= |data| && data[pos..] == ToBytes(v, n) + rest
    ensures ReadInt(data, pos, n) == Field(v, pos + n)
    ensures data[pos + n..] == rest
  {
    assert data[pos..pos + n] == data[pos..][..n];
    assert data[pos + n..] == data[pos..][n..];
  }

  /** An encoded record at `pos` decodes to itself and ends exactly `Width(kind)` bytes later. */
  lemma DecodeEncodedRecord(data: seq<Byte>, pos: nat, rec: Record, rest: seq<Byte>)
    requires WellFormed(rec)
    requires pos <= |data| && data[pos..] == EncodeRecord(rec) + rest
    ensures DecodeRecord(data, pos) == Decoded(Success(rec), pos + Width(rec.kind))
    ensures data[pos + Width(rec.kind)..] == rest
  {
    var kind := ToBytes(rec.kind.Ordinal(), 1);
    var ts := ToBytes(rec.timestamp, 4);
    var uid := ToBytes(rec.userId, 8);
    var amt := match rec.amount case Some(a) => ToBytes(a, 8) case None => [];
    assert kind == [rec.kind.Ordinal()];
    assert data[pos..] == kind + (ts + (uid + (amt + rest)));
    ReadEncodedInt(data, pos, 1, rec.kind.Ordinal(), ts + (uid + (amt + rest)));
    KindRoundTrip(rec.kind);
    ReadEncodedInt(data, pos + 1, 4, rec.timestamp, uid + (amt + rest));
    ReadEncodedInt(data, pos + 5, 8, rec.userId, amt + rest);
    if rec.kind.HasAmount() {
      ReadEncodedInt(data, pos + 13, 8, rec.amount.value, rest);
    }
  }

  /** A reader owing a record, positioned on its encoding, yields it and moves past it. */
  lemma NextOnEncoded(r: Reader, rec: Record, rest: seq<Byte>)
    requires r.Valid() && r.index < r.count && WellFormed(rec)
    requires r.data[r.pos..] == EncodeRecord(rec) + rest
    ensures Next(r) == Step(Yield(rec), r.(index := r.index + 1, pos := r.pos + Width(rec.kind)))
    ensures r.data[r.pos + Width(rec.kind)..] == rest
  {
    DecodeEncodedRecord(r.data, r.pos, rec, rest);
  }

  lemma AllWellFormedTail(recs: seq<Record>)
    requires |recs| > 0 && AllWellFormed(recs)
    ensures WellFormed(recs[0]) && AllWellFormed(recs[1..])
  {
    assert forall i :: 0 <= i < |recs| - 1 ==> recs[1..][i] == recs[i + 1];
  }

  /**
   * One step of a pass over encoded records: the pass from `r` is the first record
   * followed by the pass from a reader positioned on the encoding of the rest.
   */
  lemma DrainEncodedStep(r: Reader, recs: seq<Record>) returns (next: Reader)
    requires r.Valid() && AllWellFormed(recs) && |recs| > 0
    requires r.count - r.index == |recs|
    requires r.data[r.pos..] == EncodeRecords(recs)
    ensures next.Valid() && AllWellFormed(recs[1..])
    ensures next.count - next.index == |recs| - 1
    ensures next.data[next.pos..] == EncodeRecords(recs[1..])
    ensures Drain(r).records == [recs[0]] + Drain(next).records
    ensures Drain(r).error == Drain(next).error
  {
    AllWellFormedTail(recs);
    NextOnEncoded(r, recs[0], EncodeRecords(recs[1..]));
    next := Next(r).next;
    DrainAfterYield(r);
  }

  /** A reader positioned on the encoding of exactly the records it still owes yields them all. */
  lemma {:induction false} DrainEncodedRecords(r: Reader, recs: seq<Record>)
    requires r.Valid() && AllWellFormed(recs)
    requires r.count - r.index == |recs|
    requires r.data[r.pos..] == EncodeRecords(recs)
    ensures Drain(r).records == recs && Drain(r).error == None
    decreases |recs|
  {
    if |recs| > 0 {
      var next := DrainEncodedStep(r, recs);
      DrainEncodedRecords(next, recs[1..]);
      assert recs == [recs[0]] + recs[1..];
    }
  }

  /**
   * Decoding an encoded log opens with the number of records written and a full
   * pass returns exactly those records, in order, without error.
   */
  lemma LogRoundTrip(recs: seq<Record>)
    requires |recs| < Pow256(4) && AllWellFormed(recs)
    ensures Setup(EncodeLog(recs)).Success?
    ensures var r := Setup(EncodeLog(recs)).value;
      && r.count == |recs|
      && r.pos == HEADER_SIZE
      && Drain(r) .records == recs
      && Drain(r).error == None
  {
    var data := EncodeLog(recs);
    assert data[..HEADER_SIZE] == EncodeHeader(|recs|);
    ReadEncodedHeader(data, |recs|);
    var r := Setup(data).value;
    assert r.data[r.pos..] == EncodeRecords(recs);
    DrainEncodedRecords(r, recs);
  }

  /**
   * The sample log: magic, version 1, count 1 and one Debit of 100 (0x64) for user 7
   * at epoch second 100 decodes to exactly that one record.
   */
  lemma SampleLogDecodes(header: seq<Byte>, body: seq<Byte>, rec: Record)
    requires header == [0x4D, 0x50, 0x53, 0x37, 0x01] + Zeros(3) + [0x01]
    requires body == [0x00] + Zeros(3) + [0x64] + Zeros(7) + [0x07] + Zeros(7) + [0x64]
    requires rec == Record(Debit, 100, 7, Some(100))
    ensures Setup(header + body).Success?
    ensures Drain(Setup(header + body).value).records == [rec]
    ensures Drain(Setup(header + body).value).error == None
  {
    SampleHeaderEncodes(header);
    SampleRecordEncodes(body, rec);
    OneRecordLog(rec);
    LogRoundTrip([rec]);
  }

  /** A log of one record is its header followed by the record's encoding. */
  lemma OneRecordLog(rec: Record)
    requires WellFormed(rec)
    ensures 1 < Pow256(4)
    ensures EncodeLog([rec]) == EncodeHeader(1) + EncodeRecord(rec)
  {
    assert [rec][1..] == [];
    assert EncodeRecords([rec]) == EncodeRecord(rec) + EncodeRecords([]);
  }

  lemma SampleHeaderEncodes(header: seq<Byte>)
    requires header == [0x4D, 0x50, 0x53, 0x37, 0x01] + Zeros(3) + [0x01]
    ensures 1 < Pow256(4) && EncodeHeader(1) == header
  {
    ToBytesOfByte(1, 4);
    assert MAGIC_BYTES + [SUPPORTED_VERSION] == [0x4D, 0x50, 0x53, 0x37, 0x01];
  }

  lemma SampleRecordEncodes(body: seq<Byte>, rec: Record)
    requires body == [0x00] + Zeros(3) + [0x64] + Zeros(7) + [0x07] + Zeros(7) + [0x64]
    requires rec == Record(Debit, 100, 7, Some(100))
    ensures WellFormed(rec) && EncodeRecord(rec) == body
  {
    ToBytesOfByte(100, 4);
    ToBytesOfByte(7, 8);
    ToBytesOfByte(100, 8);
    var ts, uid, amt := Zeros(3) + [0x64], Zeros(7) + [0x07], Zeros(7) + [0x64];
    assert EncodeRecord(rec) == [0x00] + ts + uid + amt;
    assert [0x00] + ts == [0x00] + Zeros(3) + [0x64];
    assert [0x00] + ts + uid == [0x00] + Zeros(3) + [0x64] + Zeros(7) + [0x07];
  }
}

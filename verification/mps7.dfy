/**
 * The MPS7 transaction-log format (version 1): record kinds, decoded records,
 * the 9-byte header and the packed record layout. Every integer field is an
 * unsigned big-endian number. A read takes at most the requested number of
 * bytes from what remains, so a short or empty read yields a smaller value or 0
 * instead of an error, exactly as `file.read(n)` followed by `int.from_bytes` does.
 */
module Mps7 {
  import opened Wrappers
  import opened BigEndian

  /** The header's magic token, compared as an ASCII string. */
  const MAGIC_STRING: string := "MPS7"
  /** The bytes of `MAGIC_STRING`. */
  const MAGIC_BYTES: seq<Byte> := [0x4D, 0x50, 0x53, 0x37]
  /** The only format version the reader accepts. */
  const SUPPORTED_VERSION: nat := 1
  /** Magic (4) + version (1) + record count (4). */
  const HEADER_SIZE: nat := 9

  function Min(a: nat, b: nat): nat
  {
    if a <= b then a else b
  }

  /** The four record types, backed by the ordinals 0..3. */
  datatype Kind = Debit | Credit | StartAutopay | EndAutopay {

    /** The byte value that stands for this kind on the wire. */
    function Ordinal(): (v: nat)
      ensures v < 4
    {
      match this
      case Debit => 0
      case Credit => 1
      case StartAutopay => 2
      case EndAutopay => 3
    }

    /** Debit and Credit records carry a dollar amount; autopay records do not. */
    predicate HasAmount()
    {
      this == Debit || this == Credit
    }
  }

  /** The enum lookup `RecordTypes(v)`: `None` where Python raises `ValueError`. */
  function KindFromOrdinal(v: nat): (k: Option<Kind>)
    ensures k.Some? <==> v < 4
    ensures k.Some? ==> k.value.Ordinal() == v
  {
    if v == 0 then Some(Debit)
    else if v == 1 then Some(Credit)
    else if v == 2 then Some(StartAutopay)
    else if v == 3 then Some(EndAutopay)
    else None
  }

  /** Every kind survives the trip to its ordinal and back. */
  lemma KindRoundTrip(k: Kind)
    ensures KindFromOrdinal(k.Ordinal()) == Some(k)
  {
  }

  /** One decoded record; the timestamp is kept as raw epoch seconds. */
  datatype Record = Record(kind: Kind, timestamp: nat, userId: nat, amount: Option<nat>)

  /** What every decoded record satisfies: an amount exactly for Debit and Credit, fields within their widths. */
  predicate WellFormed(r: Record)
  {
    && (r.amount.Some? <==> r.kind.HasAmount())
    && r.timestamp < Pow256(4)
    && r.userId < Pow256(8)
    && (r.amount.Some? ==> r.amount.value < Pow256(8))
  }

  /** Bytes a record of kind `k` occupies: kind (1), timestamp (4), user id (8), amount (8 or 0). */
  function Width(k: Kind): nat
  {
    1 + 4 + 8 + (if k.HasAmount() then 8 else 0)
  }

  /** The exceptions the reader raises. */
  datatype Error =
    | AsciiDecodeError                                  // a magic byte outside US-ASCII
    | UnrecognizedFormat                                // magic is ASCII but not "MPS7"
    | UnsupportedVersion(expected: nat, actual: nat)
    | InvalidRecordType(value: nat)                     // `RecordTypes(value)` failed

  /** A value read from the input together with the position just after it. */
  datatype Field = Field(value: nat, end: nat)

  /** `_int_from_bytes(n)` at offset `pos`: the big-endian value of up to `n` remaining bytes. */
  function ReadInt(data: seq<Byte>, pos: nat, n: nat): (f: Field)
    requires pos <= |data|
    ensures f.end == Min(pos + n, |data|)
    ensures f.value < Pow256(n)
    ensures pos + n <= |data| ==> ToBytes(f.value, n) == data[pos..pos + n]
    ensures pos == |data| ==> f.value == 0
    ensures Encodes(f.value, data[pos..f.end])
  {
    var end := Min(pos + n, |data|);
    var bytes := data[pos..end];
    assert |bytes| == end - pos <= n;
    Pow256Monotone(|bytes|, n);
    ToBytesFromBytes(bytes);
    Field(FromBytes(bytes), end)
  }

  predicate IsAscii(bs: seq<Byte>)
  {
    forall i :: 0 <= i < |bs| ==> bs[i] < 128
  }

  /** `bytes.decode('us-ascii')`: `None` where Python raises `UnicodeDecodeError`. */
  function AsciiDecode(bs: seq<Byte>): (s: Option<string>)
    ensures s.Some? <==> IsAscii(bs)
    ensures s.Some? ==> |s.value| == |bs| && forall i :: 0 <= i < |bs| ==> s.value[i] as int == bs[i]
  {
    if IsAscii(bs) then Some(seq(|bs|, i requires 0 <= i < |bs| => bs[i] as char)) else None
  }

  /** The decoded magic equals "MPS7" exactly when the raw bytes are 4D 50 53 37. */
  lemma MagicMatchesBytes(bs: seq<Byte>)
    requires IsAscii(bs)
    ensures AsciiDecode(bs).value == MAGIC_STRING <==> bs == MAGIC_BYTES
  {
  }

  /** The validated header: the declared record count and the offset where records begin. */
  datatype Header = Header(count: nat, end: nat)

  /**
   * `_read_header`: the magic is checked first, then the version; the record
   * count is read only once both have passed.
   */
  function ReadHeader(data: seq<Byte>): (r: Result<Header, Error>)
    ensures r == Failure(AsciiDecodeError) <==> !IsAscii(data[..Min(4, |data|)])
    ensures r == Failure(UnrecognizedFormat) <==>
      IsAscii(data[..Min(4, |data|)]) && data[..Min(4, |data|)] != MAGIC_BYTES
    ensures (r.Failure? && r.error.UnsupportedVersion?) <==>
      data[..Min(4, |data|)] == MAGIC_BYTES && (|data| == 4 || data[4] != SUPPORTED_VERSION)
    ensures r.Failure? && r.error.UnsupportedVersion? ==>
      r.error == UnsupportedVersion(SUPPORTED_VERSION, if |data| == 4 then 0 else data[4])
    ensures r.Success? <==> |data| >= 5 && data[..4] == MAGIC_BYTES && data[4] == SUPPORTED_VERSION
    ensures r.Success? ==>
      && r.value.end == Min(HEADER_SIZE, |data|)
      && r.value.count < Pow256(4)
      && r.value.count == FromBytes(data[5..r.value.end])
  {
    var magic := data[..Min(4, |data|)];
    match AsciiDecode(magic)
    case None => Failure(AsciiDecodeError)
    case Some(s) =>
      MagicMatchesBytes(magic);
      if s != MAGIC_STRING then Failure(UnrecognizedFormat)
      else
        var version := ReadInt(data, |magic|, 1);
        if version.value != SUPPORTED_VERSION then
          Failure(UnsupportedVersion(SUPPORTED_VERSION, version.value))
        else
          var count := ReadInt(data, version.end, 4);
          Success(Header(count.value, count.end))
  }

  /** The bytes a read of `n` bytes at offset `from` sees: fewer, or none, near the end of `data`. */
  function Window(data: seq<Byte>, from: nat, n: nat): seq<Byte>
  {
    data[Min(from, |data|)..Min(from + n, |data|)]
  }

  /** The outcome of decoding one record and the position the read stopped at. */
  datatype Decoded = Decoded(result: Result<Record, Error>, end: nat)

  /**
   * `next_record` at offset `pos`. An unknown kind byte fails right after that byte
   * was read; otherwise the record takes `Width(kind)` bytes, or whatever remains.
   */
  function DecodeRecord(data: seq<Byte>, pos: nat): (d: Decoded)
    requires pos <= |data|
    ensures pos <= d.end <= |data|
    ensures d.result.Failure? <==> pos < |data| && data[pos] >= 4
    ensures d.result.Failure? ==> d.result.error == InvalidRecordType(data[pos]) && d.end == pos + 1
    ensures d.result.Success? ==>
      && WellFormed(d.result.value)
      && d.end == Min(pos + Width(d.result.value.kind), |data|)
      && (pos < |data| ==> d.result.value.kind.Ordinal() == data[pos])
    ensures pos == |data| ==> d == Decoded(Success(Record(Debit, 0, 0, Some(0))), pos)
  {
    var tag := ReadInt(data, pos, 1);
    assert pos < |data| ==> data[pos..pos + 1] == [data[pos]];
    match KindFromOrdinal(tag.value)
    case None => Decoded(Failure(InvalidRecordType(tag.value)), tag.end)
    case Some(kind) =>
      var timestamp := ReadInt(data, tag.end, 4);
      var userId := ReadInt(data, timestamp.end, 8);
      if kind.HasAmount() then
        var amount := ReadInt(data, userId.end, 8);
        Decoded(Success(Record(kind, timestamp.value, userId.value, Some(amount.value))), amount.end)
      else
        Decoded(Success(Record(kind, timestamp.value, userId.value, None)), userId.end)
  }

  /**
   * Each field of a decoded record is the big-endian value of the bytes its read
   * saw: all of them, or only those left when the record is cut short.
   */
  lemma DecodedFields(data: seq<Byte>, pos: nat)
    requires pos <= |data|
    ensures var d := DecodeRecord(data, pos);
      d.result.Success? ==>
        && d.result.value.timestamp == FromBytes(Window(data, pos + 1, 4))
        && d.result.value.userId == FromBytes(Window(data, pos + 5, 8))
        && (d.result.value.amount.Some? ==> d.result.value.amount.value == FromBytes(Window(data, pos + 13, 8)))
  {
    var tag := ReadInt(data, pos, 1);
    if KindFromOrdinal(tag.value).Some? {
      var kind := KindFromOrdinal(tag.value).value;
      var timestamp := ReadInt(data, tag.end, 4);
      var userId := ReadInt(data, timestamp.end, 8);
      var amount := ReadInt(data, userId.end, 8);
      ReadAtClamped(data, pos + 1, 4);
      ReadAtClamped(data, pos + 5, 8);
      ReadAtClamped(data, pos + 13, 8);
      assert DecodeRecord(data, pos).result.value ==
        Record(kind, timestamp.value, userId.value, if kind.HasAmount() then Some(amount.value) else None);
    }
  }

  /** A read at an offset clamped to the end of the data sees exactly that offset's window. */
  lemma ReadAtClamped(data: seq<Byte>, at: nat, n: nat)
    ensures var f := ReadInt(data, Min(at, |data|), n);
      && f.value == FromBytes(Window(data, at, n))
      && f.end == Min(at + n, |data|)
  {
  }
}

/**
 * The `Reader` cursor over an in-memory MPS7 log: a byte position plus the
 * iterator's `_index` and `_record_count`. The file is read sequentially, so the
 * position only moves forward until `Reset` rewinds it to the start and re-reads
 * the header.
 */
module Mps7Reader {
  import opened Wrappers
  import opened BigEndian
  import opened Mps7

  /** The reader's state: the file contents, the read position, `_index` and `_record_count`. */
  datatype Reader = Reader(data: seq<Byte>, pos: nat, index: nat, count: nat) {
    predicate Valid()
    {
      pos <= |data| && index <= count
    }
  }

  /** What one call of `__next__` does: return a record, raise `StopIteration`, or raise an error. */
  datatype Event = Yield(record: Record) | Stop | Raise(error: Error)

  /** One call of `__next__`: its event and the reader state it leaves behind. */
  datatype Step = Step(event: Event, next: Reader)

  /** `_setup` on a freshly opened file: seek to 0, read the header, set `_index` to 0. */
  function Setup(data: seq<Byte>): (r: Result<Reader, Error>)
    ensures r.Failure? <==> !(|data| >= 5 && data[..4] == MAGIC_BYTES && data[4] == SUPPORTED_VERSION)
    ensures r.Failure? ==> r.error == ReadHeader(data).error
    ensures r.Success? ==>
      && r.value.Valid()
      && r.value.data == data
      && r.value.index == 0
      && r.value.pos == Min(HEADER_SIZE, |data|)
      && r.value.count == FromBytes(data[5..r.value.pos])
  {
    match ReadHeader(data)
    case Failure(e) => Failure(e)
    case Success(h) => Success(Reader(data, h.end, 0, h.count))
  }

  /** `reset`: rewind to the start of the same file and run `_setup` again. */
  function Reset(r: Reader): (r': Result<Reader, Error>)
    ensures r'.Failure? <==> !(|r.data| >= 5 && r.data[..4] == MAGIC_BYTES && r.data[4] == SUPPORTED_VERSION)
    ensures r'.Failure? ==> r'.error == ReadHeader(r.data).error
    ensures r'.Success? ==>
      && r'.value.Valid()
      && r'.value.data == r.data
      && r'.value.index == 0
      && r'.value.pos == Min(HEADER_SIZE, |r.data|)
      && r'.value.count == FromBytes(r.data[5..r'.value.pos])
  {
    Setup(r.data)
  }

  /**
   * `__next__`: while `_index < _record_count` it increments `_index` first and then
   * decodes a record; afterwards it signals the end and leaves the reader as it is.
   */
  function Next(r: Reader): (s: Step)
    requires r.Valid()
    ensures s.next.Valid() && s.next.data == r.data && s.next.count == r.count
    ensures s.event.Stop? <==> r.index == r.count
    ensures s.event.Stop? ==> s.next == r
    ensures !s.event.Stop? ==> s.next.index == r.index + 1
    ensures s.event.Raise? <==> r.index < r.count && r.pos < |r.data| && r.data[r.pos] >= 4
    ensures s.event.Raise? ==> s.event.error == InvalidRecordType(r.data[r.pos]) && s.next.pos == r.pos + 1
    ensures s.event.Yield? ==>
      && WellFormed(s.event.record)
      && s.next.pos == Min(r.pos + Width(s.event.record.kind), |r.data|)
  {
    if r.index < r.count then
      var advanced := r.(index := r.index + 1);
      var d := DecodeRecord(advanced.data, advanced.pos);
      var moved := advanced.(pos := d.end);
      match d.result
      case Success(rec) => Step(Yield(rec), moved)
      case Failure(e) => Step(Raise(e), moved)
    else
      Step(Stop, r)
  }

  /** The outcome of iterating a reader to the end, as a `for` loop does. */
  datatype Pass = Pass(records: seq<Record>, final: Reader, error: Option<Error>)

  /**
   * Calls `Next` until it stops or raises. Without an error the pass yields exactly
   * the records still owed (`_record_count - _index`) and leaves the reader exhausted.
   */
  function Drain(r: Reader): (p: Pass)
    requires r.Valid()
    ensures p.final.Valid() && p.final.data == r.data && p.final.count == r.count
    ensures |p.records| <= r.count - r.index
    ensures p.error.None? ==> |p.records| == r.count - r.index && p.final.index == p.final.count
    decreases r.count - r.index
  {
    var s := Next(r);
    match s.event
    case Stop => Pass([], r, None)
    case Raise(e) => Pass([], s.next, Some(e))
    case Yield(rec) =>
      var rest := Drain(s.next);
      Pass([rec] + rest.records, rest.final, rest.error)
  }

  /**
   * Every record a pass yields is well formed, and a pass without an error leaves
   * the reader exhausted: every later `Next` signals the end and changes nothing.
   */
  lemma {:induction false} PassEndsCleanly(r: Reader)
    requires r.Valid()
    ensures var p := Drain(r);
      && (forall i :: 0 <= i < |p.records| ==> WellFormed(p.records[i]))
      && (p.error.None? ==> Next(p.final) == Step(Stop, p.final))
    decreases r.count - r.index
  {
    var s := Next(r);
    if s.event.Yield? {
      PassEndsCleanly(s.next);
      var rest := Drain(s.next).records;
      var records := Drain(r).records;
      assert records == [s.event.record] + rest;
      assert forall i :: 0 < i < |records| ==> records[i] == rest[i - 1];
    }
  }

  /** A pass whose first call yields a record is that record followed by the pass from the next state. */
  lemma DrainAfterYield(r: Reader)
    requires r.Valid() && Next(r).event.Yield?
    ensures var s := Next(r);
      && Drain(r).records == [s.event.record] + Drain(s.next).records
      && Drain(r).error == Drain(s.next).error
      && Drain(r).final == Drain(s.next).final
  {
    var s := Next(r);
    var rest := Drain(s.next);
    assert Drain(r) == Pass([s.event.record] + rest.records, rest.final, rest.error);
  }

  /**
   * How a pass splits around one call of `Next`: if the records already seen
   * followed by the rest of the pass from `cur` make up the pass from `r`, then
   * after the call the pass from `r` has ended at `cur`, failed at the next
   * reader, or continues from the next reader with one more record seen.
   */
  lemma PassAdvances(r: Reader, cur: Reader, seen: seq<Record>)
    requires r.Valid() && cur.Valid()
    requires Drain(r).records == seen + Drain(cur).records
    requires Drain(r).error == Drain(cur).error
    requires Drain(r).final == Drain(cur).final
    ensures var s := Next(cur);
      && (s.event.Stop? ==> Drain(r) == Pass(seen, cur, None))
      && (s.event.Raise? ==> Drain(r) == Pass(seen, s.next, Some(s.event.error)))
      && (s.event.Yield? ==>
            && Drain(r).records == (seen + [s.event.record]) + Drain(s.next).records
            && Drain(r).error == Drain(s.next).error
            && Drain(r).final == Drain(s.next).final)
  {
    var s := Next(cur);
    if s.event.Yield? {
      DrainAfterYield(cur);
      var rest := Drain(s.next).records;
      assert seen + ([s.event.record] + rest) == (seen + [s.event.record]) + rest;
    } else {
      assert seen + [] == seen;
    }
  }

  /** A pass over a freshly opened reader yields exactly the header's record count, unless it raises. */
  lemma FreshPassYieldsRecordCount(data: seq<Byte>)
    requires Setup(data).Success?
    ensures var p := Drain(Setup(data).value);
      p.error.None? ==> |p.records| == FromBytes(data[5..Min(HEADER_SIZE, |data|)])
  {
  }

  /**
   * Resetting after a complete pass restores the freshly opened reader, so a
   * second pass yields the same records (and the same error, if any) as the first.
   */
  lemma {:induction false} ResetReplaysPass(data: seq<Byte>)
    requires Setup(data).Success?
    ensures var first := Drain(Setup(data).value);
      && Reset(first.final) == Setup(data)
      && Drain(Reset(first.final).value) == first
  {
  }

  /** The only way a pass fails is an unknown kind byte at the start of some record. */
  lemma {:induction false} PassFailsOnlyOnUnknownKind(r: Reader)
    requires r.Valid()
    ensures var p := Drain(r);
      p.error.Some? ==>
        && p.final.pos >= 1
        && p.final.data[p.final.pos - 1] >= 4
        && p.error.value == InvalidRecordType(p.final.data[p.final.pos - 1])
    decreases r.count - r.index
  {
    var s := Next(r);
    if s.event.Yield? {
      PassFailsOnlyOnUnknownKind(s.next);
    }
  }
}

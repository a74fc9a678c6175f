/**
 * The two single-pass consumers of a reader: `aggregates` (totals per record
 * kind) and `get_balance` (one user's credits minus debits). Each is a streaming
 * loop over `Next`; its result is stated against independent recursive sums over
 * the records a full pass yields.
 */
module Mps7Folds {
  import opened Wrappers
  import opened Mps7
  import opened Mps7Reader

  /** The four running values of `aggregates`. */
  datatype Totals = Totals(totalDebits: nat, totalCredits: nat, autopayStarts: nat, autopayEnds: nat)

  /** The amount a record carries, 0 for one without. */
  function AmountOf(rec: Record): nat
  {
    match rec.amount
    case Some(a) => a
    case None => 0
  }

  /** Sum of the amounts of the records of kind `k`. */
  function SumOfKind(recs: seq<Record>, k: Kind): nat
  {
    if |recs| == 0 then 0
    else (if recs[0].kind == k then AmountOf(recs[0]) else 0) + SumOfKind(recs[1..], k)
  }

  /** Number of records of kind `k`. */
  function CountOfKind(recs: seq<Record>, k: Kind): nat
  {
    if |recs| == 0 then 0
    else (if recs[0].kind == k then 1 else 0) + CountOfKind(recs[1..], k)
  }

  /** The records belonging to user `u`, in order. */
  function OfUser(recs: seq<Record>, u: nat): seq<Record>
  {
    if |recs| == 0 then []
    else (if recs[0].userId == u then [recs[0]] else []) + OfUser(recs[1..], u)
  }

  /** User `u`'s balance: the sum of their Credit amounts minus the sum of their Debit amounts. */
  function NetBalance(recs: seq<Record>, u: nat): int
  {
    SumOfKind(OfUser(recs, u), Credit) - SumOfKind(OfUser(recs, u), Debit)
  }

  lemma {:induction false} SumOfKindAppend(a: seq<Record>, b: seq<Record>, k: Kind)
    ensures SumOfKind(a + b, k) == SumOfKind(a, k) + SumOfKind(b, k)
  {
    if |a| > 0 {
      assert (a + b)[1..] == a[1..] + b;
      SumOfKindAppend(a[1..], b, k);
    } else {
      assert a + b == b;
    }
  }

  lemma {:induction false} CountOfKindAppend(a: seq<Record>, b: seq<Record>, k: Kind)
    ensures CountOfKind(a + b, k) == CountOfKind(a, k) + CountOfKind(b, k)
  {
    if |a| > 0 {
      assert (a + b)[1..] == a[1..] + b;
      CountOfKindAppend(a[1..], b, k);
    } else {
      assert a + b == b;
    }
  }

  lemma {:induction false} OfUserAppend(a: seq<Record>, b: seq<Record>, u: nat)
    ensures OfUser(a + b, u) == OfUser(a, u) + OfUser(b, u)
  {
    if |a| > 0 {
      assert (a + b)[1..] == a[1..] + b;
      OfUserAppend(a[1..], b, u);
    } else {
      assert a + b == b;
    }
  }

  lemma SingleRecordSums(rec: Record, k: Kind)
    ensures SumOfKind([rec], k) == if rec.kind == k then AmountOf(rec) else 0
    ensures CountOfKind([rec], k) == if rec.kind == k then 1 else 0
  {
    assert [rec][1..] == [];
  }

  /** The balance of a concatenation is the sum of the balances of its parts. */
  lemma NetBalanceAppend(a: seq<Record>, b: seq<Record>, u: nat)
    ensures NetBalance(a + b, u) == NetBalance(a, u) + NetBalance(b, u)
  {
    OfUserAppend(a, b, u);
    SumOfKindAppend(OfUser(a, u), OfUser(b, u), Credit);
    SumOfKindAppend(OfUser(a, u), OfUser(b, u), Debit);
  }

  /** The balance of a single record: +amount for the user's Credit, -amount for their Debit, else 0. */
  lemma SingleRecordBalance(rec: Record, u: nat)
    ensures NetBalance([rec], u) ==
      if rec.userId != u then 0
      else if rec.kind == Credit then AmountOf(rec)
      else if rec.kind == Debit then -(AmountOf(rec) as int)
      else 0
  {
    assert [rec][1..] == [];
    if rec.userId == u {
      assert OfUser([rec], u) == [rec];
      SingleRecordSums(rec, Credit);
      SingleRecordSums(rec, Debit);
    } else {
      assert OfUser([rec], u) == [];
    }
  }

  /** Autopay records and other users' records never change a user's balance, wherever they occur. */
  lemma IrrelevantRecordKeepsBalance(a: seq<Record>, rec: Record, b: seq<Record>, u: nat)
    requires rec.userId != u || !rec.kind.HasAmount()
    ensures NetBalance(a + [rec] + b, u) == NetBalance(a + b, u)
  {
    NetBalanceAppend(a + [rec], b, u);
    NetBalanceAppend(a, [rec], u);
    NetBalanceAppend(a, b, u);
    SingleRecordBalance(rec, u);
  }

  /** A user with no Debit or Credit records has balance 0. */
  lemma {:induction false} NoTransactionsMeansZero(recs: seq<Record>, u: nat)
    requires forall i :: 0 <= i < |recs| && recs[i].userId == u ==> !recs[i].kind.HasAmount()
    ensures NetBalance(recs, u) == 0
  {
    if |recs| > 0 {
      NoTransactionsMeansZero(recs[1..], u);
      assert recs == [recs[0]] + recs[1..];
      NetBalanceAppend([recs[0]], recs[1..], u);
      SingleRecordBalance(recs[0], u);
    }
  }

  /** The per-kind sums of a record sequence: what `aggregates` should report. */
  function TotalsOf(recs: seq<Record>): Totals
  {
    Totals(SumOfKind(recs, Debit), SumOfKind(recs, Credit),
           CountOfKind(recs, StartAutopay), CountOfKind(recs, EndAutopay))
  }

  /** The body of the `aggregates` loop: one record's contribution to the running totals. */
  function TallyRecord(t: Totals, rec: Record): Totals
    requires rec.kind.HasAmount() ==> rec.amount.Some?
  {
    match rec.kind
    case Debit => t.(totalDebits := t.totalDebits + rec.amount.value)
    case Credit => t.(totalCredits := t.totalCredits + rec.amount.value)
    case StartAutopay => t.(autopayStarts := t.autopayStarts + 1)
    case EndAutopay => t.(autopayEnds := t.autopayEnds + 1)
  }

  /** Tallying one more record keeps the running totals equal to the per-kind sums. */
  lemma TallyRecordExtendsTotals(recs: seq<Record>, rec: Record)
    requires rec.kind.HasAmount() ==> rec.amount.Some?
    ensures TotalsOf(recs + [rec]) == TallyRecord(TotalsOf(recs), rec)
  {
    forall k: Kind ensures SumOfKind(recs + [rec], k) == SumOfKind(recs, k) + SumOfKind([rec], k)
      && CountOfKind(recs + [rec], k) == CountOfKind(recs, k) + CountOfKind([rec], k)
      && SumOfKind([rec], k) == (if rec.kind == k then AmountOf(rec) else 0)
      && CountOfKind([rec], k) == (if rec.kind == k then 1 else 0)
    {
      SumOfKindAppend(recs, [rec], k);
      CountOfKindAppend(recs, [rec], k);
      SingleRecordSums(rec, k);
    }
  }

  /** The body of the `get_balance` loop: skip other users, subtract Debits, add Credits. */
  function ApplyToBalance(balance: int, rec: Record, u: nat): int
    requires rec.kind.HasAmount() ==> rec.amount.Some?
  {
    if rec.userId != u then balance
    else
      match rec.kind
      case Debit => balance - rec.amount.value
      case Credit => balance + rec.amount.value
      case _ => balance
  }

  /** Applying one more record keeps the running balance equal to credits minus debits. */
  lemma ApplyToBalanceExtendsNet(recs: seq<Record>, rec: Record, u: nat)
    requires rec.kind.HasAmount() ==> rec.amount.Some?
    ensures NetBalance(recs + [rec], u) == ApplyToBalance(NetBalance(recs, u), rec, u)
  {
    NetBalanceAppend(recs, [rec], u);
    SingleRecordBalance(rec, u);
  }

  /**
   * `aggregates`: one pass over the reader adding each Debit amount to the total
   * debits, each Credit amount to the total credits and counting the two autopay
   * kinds. An error raised during the pass discards the partial totals.
   */
  method Aggregates(r: Reader) returns (result: Result<Totals, Error>, final: Reader)
    requires r.Valid()
    ensures final == Drain(r).final
    ensures var p := Drain(r);
      && (p.error.Some? ==> result == Failure(p.error.value))
      && (p.error.None? ==> result == Success(TotalsOf(p.records)))
  {
    var totals := Totals(0, 0, 0, 0);
    var cur := r;
    ghost var seen: seq<Record> := [];
    while true
      invariant cur.Valid()
      invariant Drain(r).records == seen + Drain(cur).records
      invariant Drain(r).error == Drain(cur).error
      invariant Drain(r).final == Drain(cur).final
      invariant totals == TotalsOf(seen)
      decreases cur.count - cur.index
    {
      var step := Next(cur);
      PassAdvances(r, cur, seen);
      match step.event {
        case Stop =>
          return Success(totals), cur;
        case Raise(e) =>
          return Failure(e), step.next;
        case Yield(rec) =>
          TallyRecordExtendsTotals(seen, rec);
          totals := TallyRecord(totals, rec);
          seen := seen + [rec];
          cur := step.next;
      }
    }
  }

  /**
   * `get_balance`: one pass over the reader that skips other users' records,
   * subtracts the user's Debit amounts and adds their Credit amounts.
   */
  method GetBalance(r: Reader, userId: nat) returns (result: Result<int, Error>, final: Reader)
    requires r.Valid()
    ensures final == Drain(r).final
    ensures var p := Drain(r);
      && (p.error.Some? ==> result == Failure(p.error.value))
      && (p.error.None? ==> result == Success(NetBalance(p.records, userId)))
  {
    var balance := 0;
    var cur := r;
    ghost var seen: seq<Record> := [];
    while true
      invariant cur.Valid()
      invariant Drain(r).records == seen + Drain(cur).records
      invariant Drain(r).error == Drain(cur).error
      invariant Drain(r).final == Drain(cur).final
      invariant balance == NetBalance(seen, userId)
      decreases cur.count - cur.index
    {
      var step := Next(cur);
      PassAdvances(r, cur, seen);
      match step.event {
        case Stop =>
          return Success(balance), cur;
        case Raise(e) =>
          return Failure(e), step.next;
        case Yield(rec) =>
          ApplyToBalanceExtendsNet(seen, rec, userId);
          balance := ApplyToBalance(balance, rec, userId);
          seen := seen + [rec];
          cur := step.next;
      }
    }
  }
}

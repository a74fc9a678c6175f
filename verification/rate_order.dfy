/**
 * Ordering helpers used by the second-lowest-rate lookup: a stable sort of
 * plans by rate (Python's `sorted(..., key=...)`) and the first-occurrence
 * de-duplication of `toolz.unique`.
 */
module RateOrder {

  /** A plan row of plans.csv; all fields stay strings except the rate, kept as an integer key. */
  datatype Plan = Plan(planId: string, state: string, metalLevel: string, rate: int, rateArea: string)

  predicate SortedByRate(ps: seq<Plan>)
  {
    forall i, j :: 0 <= i < j < |ps| ==> ps[i].rate <= ps[j].rate
  }

  /** Inserts `p` before the first plan with a higher rate and after every plan with a lower one. */
  function InsertByRate(p: Plan, s: seq<Plan>): (r: seq<Plan>)
    requires SortedByRate(s)
    ensures SortedByRate(r)
    ensures multiset(r) == multiset(s) + multiset{p}
  {
    if |s| == 0 || p.rate <= s[0].rate then
      [p] + s
    else
      var tail := InsertByRate(p, s[1..]);
      assert s == [s[0]] + s[1..];
      HeadBoundsTail(s[0], p, s[1..], tail);
      [s[0]] + tail
  }

  /** A sorted head `h` that does not exceed `p` or any of `rest` stays sorted before their merge `tail`. */
  lemma HeadBoundsTail(h: Plan, p: Plan, rest: seq<Plan>, tail: seq<Plan>)
    requires h.rate <= p.rate
    requires forall q :: q in rest ==> h.rate <= q.rate
    requires SortedByRate(tail)
    requires multiset(tail) == multiset(rest) + multiset{p}
    ensures SortedByRate([h] + tail)
  {
    assert forall i :: 0 <= i < |tail| ==> h.rate <= tail[i].rate by {
      forall i | 0 <= i < |tail| ensures h.rate <= tail[i].rate {
        assert tail[i] in multiset(tail);
      }
    }
  }

  /** `sorted(plans, key=rate)`: the same plans, in ascending order of rate. */
  function SortByRate(ps: seq<Plan>): (r: seq<Plan>)
    ensures SortedByRate(r)
    ensures multiset(r) == multiset(ps)
  {
    if |ps| == 0 then []
    else
      assert ps == [ps[0]] + ps[1..];
      InsertByRate(ps[0], SortByRate(ps[1..]))
  }

  /** The rate of each plan, in order. */
  function RatesOf(ps: seq<Plan>): (r: seq<int>)
    ensures |r| == |ps|
    ensures forall i :: 0 <= i < |ps| ==> r[i] == ps[i].rate
  {
    if |ps| == 0 then [] else [ps[0].rate] + RatesOf(ps[1..])
  }

  predicate NonDecreasing(xs: seq<int>)
  {
    forall i, j :: 0 <= i < j < |xs| ==> xs[i] <= xs[j]
  }

  predicate StrictlyIncreasing(xs: seq<int>)
  {
    forall i, j :: 0 <= i < j < |xs| ==> xs[i] < xs[j]
  }

  /** No value occurs twice. */
  predicate NoDuplicates<T(==)>(xs: seq<T>)
  {
    forall i, j :: 0 <= i < j < |xs| ==> xs[i] != xs[j]
  }

  /**
   * `unique` continued with the values already in `seen`: the first occurrence of
   * every value not seen before, in the order of first occurrence.
   */
  function UniqueFrom(xs: seq<int>, seen: set<int>): (r: seq<int>)
    ensures NoDuplicates(r)
    ensures forall x :: x in r <==> x in xs && x !in seen
    ensures NonDecreasing(xs) ==> StrictlyIncreasing(r)
  {
    if |xs| == 0 then []
    else if xs[0] in seen then
      assert forall x :: x in xs <==> x == xs[0] || x in xs[1..];
      UniqueFrom(xs[1..], seen)
    else
      var rest := UniqueFrom(xs[1..], seen + {xs[0]});
      assert forall x :: x in xs <==> x == xs[0] || x in xs[1..];
      assert NonDecreasing(xs) ==> forall i :: 0 <= i < |rest| ==> xs[0] < rest[i] by {
        if NonDecreasing(xs) {
          forall i | 0 <= i < |rest| ensures xs[0] < rest[i] {
            assert rest[i] in xs[1..] && rest[i] != xs[0];
          }
        }
      }
      [xs[0]] + rest
  }

  /** `toolz.unique`: every value of `xs` once, in the order it first occurs. */
  function Unique(xs: seq<int>): (r: seq<int>)
    ensures NoDuplicates(r)
    ensures forall x :: x in r <==> x in xs
    ensures NonDecreasing(xs) ==> StrictlyIncreasing(r)
  {
    UniqueFrom(xs, {})
  }

  /** The rates of plans sorted by rate never decrease. */
  lemma SortedRatesNonDecreasing(ps: seq<Plan>)
    requires SortedByRate(ps)
    ensures NonDecreasing(RatesOf(ps))
  {
  }
}

/**
 * The second-lowest-cost silver plan (SLCSP) lookup: group the zipcode rows by
 * zipcode, resolve a zipcode to its single rate area, keep that area's Silver
 * plans, and return the second lowest distinct rate, or one of four errors.
 * CSV fields stay strings, so every comparison of them is a string comparison.
 */
module Slcsp {
  import opened Wrappers
  import opened RateOrder

  /** A row of zips.csv. */
  datatype ZipRow = ZipRow(zipcode: string, name: string, rateArea: string, state: string, fips: string)

  /** A (rate area number, state) pair. */
  datatype RateArea = RateArea(number: string, state: string)

  /** The metal levels a plan can have. */
  datatype MetalLevel = Bronze | Silver | Gold | Platinum | Catastrophic {
    /** The member's name, the string plans.csv uses for the level. */
    function Name(): string
    {
      match this
      case Bronze => "Bronze"
      case Silver => "Silver"
      case Gold => "Gold"
      case Platinum => "Platinum"
      case Catastrophic => "Catastrophic"
    }
  }

  /** The four exceptions `find_slcsp` raises. */
  datatype SlcspError = NoPlansFound | NoRateAreasFound | InsufficientRatesFound | MultipleRateAreasFound

  /** The rows whose zipcode is `z`, in input order. */
  function RowsWithZip(rows: seq<ZipRow>, z: string): seq<ZipRow>
  {
    if |rows| == 0 then []
    else (if rows[0].zipcode == z then [rows[0]] else []) + RowsWithZip(rows[1..], z)
  }

  lemma {:induction false} RowsWithZipAppend(a: seq<ZipRow>, b: seq<ZipRow>, z: string)
    ensures RowsWithZip(a + b, z) == RowsWithZip(a, z) + RowsWithZip(b, z)
  {
    if |a| > 0 {
      assert (a + b)[1..] == a[1..] + b;
      RowsWithZipAppend(a[1..], b, z);
    } else {
      assert a + b == b;
    }
  }

  function Zipcodes(rows: seq<ZipRow>): set<string>
  {
    set i | 0 <= i < |rows| :: rows[i].zipcode
  }

  /**
   * `zip_county_lookup`: the rows grouped by zipcode. The keys are exactly the
   * zipcodes that occur and each zipcode's list holds its rows in input order.
   */
  function ZipCountyLookup(rows: seq<ZipRow>): (d: map<string, seq<ZipRow>>)
    ensures d.Keys == Zipcodes(rows)
    ensures forall z :: z in d ==> d[z] == RowsWithZip(rows, z)
  {
    if |rows| == 0 then map[]
    else
      var init := rows[..|rows| - 1];
      var r := rows[|rows| - 1];
      var d := ZipCountyLookup(init);
      assert rows == init + [r];
      LookupExtend(init, r, d);
      d[r.zipcode := (if r.zipcode in d then d[r.zipcode] else []) + [r]]
  }

  /** The loop body of `zip_county_lookup` turns the grouping of `init` into that of `init + [r]`. */
  lemma LookupExtend(init: seq<ZipRow>, r: ZipRow, d: map<string, seq<ZipRow>>)
    requires d.Keys == Zipcodes(init)
    requires forall z :: z in d ==> d[z] == RowsWithZip(init, z)
    ensures var d' := d[r.zipcode := (if r.zipcode in d then d[r.zipcode] else []) + [r]];
      && d'.Keys == Zipcodes(init + [r])
      && forall z :: z in d' ==> d'[z] == RowsWithZip(init + [r], z)
  {
    LookupStep(init, r);
  }

  /** What one more row contributes: its zipcode, and itself at the end of that zipcode's rows. */
  lemma LookupStep(init: seq<ZipRow>, r: ZipRow)
    ensures Zipcodes(init + [r]) == Zipcodes(init) + {r.zipcode}
    ensures forall z :: RowsWithZip(init + [r], z) == RowsWithZip(init, z) + (if r.zipcode == z then [r] else [])
    ensures r.zipcode !in Zipcodes(init) ==> RowsWithZip(init, r.zipcode) == []
  {
    var rows := init + [r];
    forall z | z in Zipcodes(rows) ensures z in Zipcodes(init) + {r.zipcode} {
      var i :| 0 <= i < |rows| && rows[i].zipcode == z;
      if i < |init| {
        assert init[i] == rows[i];
      }
    }
    forall z | z in Zipcodes(init) ensures z in Zipcodes(rows) {
      var i :| 0 <= i < |init| && init[i].zipcode == z;
      assert rows[i] == init[i];
    }
    assert rows[|init|] == r;
    forall z ensures RowsWithZip(rows, z) == RowsWithZip(init, z) + (if r.zipcode == z then [r] else []) {
      RowsWithZipAppend(init, [r], z);
      assert [r][1..] == [];
    }
    if r.zipcode !in Zipcodes(init) {
      NoRowsForAbsentZip(init, r.zipcode);
    }
  }

  lemma {:induction false} NoRowsForAbsentZip(rows: seq<ZipRow>, z: string)
    requires z !in Zipcodes(rows)
    ensures RowsWithZip(rows, z) == []
  {
    if |rows| > 0 {
      assert rows[0].zipcode != z;
      assert Zipcodes(rows[1..]) <= Zipcodes(rows) by {
        forall y | y in Zipcodes(rows[1..]) ensures y in Zipcodes(rows) {
          var i :| 0 <= i < |rows[1..]| && rows[1..][i].zipcode == y;
          assert rows[i + 1].zipcode == y;
        }
      }
      NoRowsForAbsentZip(rows[1..], z);
    }
  }

  /** The total length of the lists that `d` holds for the zipcodes `zs`. */
  function ListedRows(d: map<string, seq<ZipRow>>, zs: seq<string>): nat
    requires forall i :: 0 <= i < |zs| ==> zs[i] in d
  {
    if |zs| == 0 then 0 else |d[zs[0]]| + ListedRows(d, zs[1..])
  }

  /** The total number of rows whose zipcode is one of `zs`. */
  function RowsWithZips(rows: seq<ZipRow>, zs: seq<string>): nat
  {
    if |zs| == 0 then 0 else |RowsWithZip(rows, zs[0])| + RowsWithZips(rows, zs[1..])
  }

  lemma {:induction false} RowsWithZipsCons(r: ZipRow, rest: seq<ZipRow>, zs: seq<string>)
    requires NoDuplicates(zs)
    ensures RowsWithZips([r] + rest, zs) == RowsWithZips(rest, zs) + (if r.zipcode in zs then 1 else 0)
  {
    if |zs| > 0 {
      assert ([r] + rest)[1..] == rest;
      RowsWithZipsCons(r, rest, zs[1..]);
      assert r.zipcode in zs <==> r.zipcode == zs[0] || r.zipcode in zs[1..];
      assert zs[0] !in zs[1..];
    }
  }

  lemma {:induction false} RowsWithZipsCoversRows(rows: seq<ZipRow>, zs: seq<string>)
    requires NoDuplicates(zs)
    requires forall i :: 0 <= i < |rows| ==> rows[i].zipcode in zs
    ensures RowsWithZips(rows, zs) == |rows|
  {
    if |rows| == 0 {
      RowsWithZipsEmpty(zs);
    } else {
      assert rows == [rows[0]] + rows[1..];
      RowsWithZipsCons(rows[0], rows[1..], zs);
      RowsWithZipsCoversRows(rows[1..], zs);
    }
  }

  lemma {:induction false} RowsWithZipsEmpty(zs: seq<string>)
    ensures RowsWithZips([], zs) == 0
  {
    if |zs| > 0 {
      RowsWithZipsEmpty(zs[1..]);
    }
  }

  lemma {:induction false} ListedRowsOfLookup(rows: seq<ZipRow>, zs: seq<string>)
    requires forall i :: 0 <= i < |zs| ==> zs[i] in ZipCountyLookup(rows)
    ensures ListedRows(ZipCountyLookup(rows), zs) == RowsWithZips(rows, zs)
  {
    if |zs| > 0 {
      ListedRowsOfLookup(rows, zs[1..]);
    }
  }

  /**
   * Every row is listed exactly once: over any duplicate-free listing of the
   * lookup's zipcodes, the list lengths add up to the number of rows.
   */
  lemma LookupListsEveryRowOnce(rows: seq<ZipRow>, zs: seq<string>)
    requires NoDuplicates(zs)
    requires forall z :: z in zs <==> z in ZipCountyLookup(rows)
    ensures ListedRows(ZipCountyLookup(rows), zs) == |rows|
  {
    var d := ZipCountyLookup(rows);
    forall i | 0 <= i < |rows| ensures rows[i].zipcode in zs {
      assert rows[i].zipcode in Zipcodes(rows);
    }
    ListedRowsOfLookup(rows, zs);
    RowsWithZipsCoversRows(rows, zs);
  }

  /** A plan of the rate area `area` at the metal level named `metal`, compared as strings. */
  predicate PlanMatches(p: Plan, area: RateArea, metal: string)
  {
    p.state == area.state && p.rateArea == area.number && p.metalLevel == metal
  }

  /**
   * `filter_plans`: the plans of `area` at level `metal`, each as often as it
   * occurs in `plans`, and nothing else.
   */
  function FilterPlans(area: RateArea, metal: string, plans: seq<Plan>): (r: seq<Plan>)
    ensures forall i :: 0 <= i < |r| ==> PlanMatches(r[i], area, metal)
    ensures forall p :: PlanMatches(p, area, metal) ==> multiset(r)[p] == multiset(plans)[p]
    ensures forall p :: p in r <==> p in plans && PlanMatches(p, area, metal)
  {
    if |plans| == 0 then []
    else
      assert plans == [plans[0]] + plans[1..];
      (if PlanMatches(plans[0], area, metal) then [plans[0]] else []) + FilterPlans(area, metal, plans[1..])
  }

  /** Filtering keeps the input order: it distributes over concatenation. */
  lemma {:induction false} FilterPlansAppend(area: RateArea, metal: string, a: seq<Plan>, b: seq<Plan>)
    ensures FilterPlans(area, metal, a + b) == FilterPlans(area, metal, a) + FilterPlans(area, metal, b)
  {
    if |a| > 0 {
      assert (a + b)[1..] == a[1..] + b;
      FilterPlansAppend(area, metal, a[1..], b);
    } else {
      assert a + b == b;
    }
  }

  /** The rows listed for `zipcode`, or none for an unknown zipcode (`dict.get(zipcode, [])`). */
  function CountiesFor(zipcode: string, lookup: map<string, seq<ZipRow>>): seq<ZipRow>
  {
    if zipcode in lookup then lookup[zipcode] else []
  }

  function AreaOf(c: ZipRow): RateArea
  {
    RateArea(c.rateArea, c.state)
  }

  /** The distinct rate areas of some rows. */
  function RateAreasOf(counties: seq<ZipRow>): set<RateArea>
  {
    set c | c in counties :: AreaOf(c)
  }

  /** Two of the rows lie in different rate areas. */
  predicate SpansSeveralAreas(counties: seq<ZipRow>)
  {
    exists i, j :: 0 <= i < |counties| && 0 <= j < |counties| && AreaOf(counties[i]) != AreaOf(counties[j])
  }

  /** How many distinct rate areas some rows have, in terms of the rows themselves. */
  lemma RateAreaCount(counties: seq<ZipRow>)
    ensures |RateAreasOf(counties)| == 0 <==> |counties| == 0
    ensures |RateAreasOf(counties)| > 1 <==> SpansSeveralAreas(counties)
    ensures |counties| > 0 && !SpansSeveralAreas(counties) ==> RateAreasOf(counties) == {AreaOf(counties[0])}
  {
    var areas := RateAreasOf(counties);
    if |counties| > 0 {
      assert AreaOf(counties[0]) in areas;
    }
    if SpansSeveralAreas(counties) {
      var i, j :| 0 <= i < |counties| && 0 <= j < |counties| && AreaOf(counties[i]) != AreaOf(counties[j]);
      var a, b := AreaOf(counties[i]), AreaOf(counties[j]);
      assert a in areas && b in areas - {a};
      assert |areas| == |areas - {a}| + 1;
    } else if |counties| > 0 {
      forall x | x in areas ensures x == AreaOf(counties[0]) {
        var c :| c in counties && AreaOf(c) == x;
        var k :| 0 <= k < |counties| && counties[k] == c;
        assert AreaOf(counties[k]) == AreaOf(counties[0]);
      }
      assert areas == {AreaOf(counties[0])};
    }
  }

  /** The distinct rates of the Silver plans of `area`. */
  function SilverRates(area: RateArea, plans: seq<Plan>): set<int>
  {
    set p | p in plans && PlanMatches(p, area, Silver.Name()) :: p.rate
  }

  /** `x` is a rate of `rates` with exactly one lower rate in `rates`. */
  predicate IsSecondLowest(x: int, rates: set<int>)
  {
    && x in rates
    && exists m :: m in rates && m < x && forall y :: y in rates && y < x ==> y == m
  }

  /** The rates of some plans are exactly the values some plan among them has as its rate. */
  lemma RatesOfMembers(ps: seq<Plan>, x: int)
    ensures x in RatesOf(ps) <==> exists p :: p in ps && p.rate == x
  {
    if x in RatesOf(ps) {
      var i :| 0 <= i < |ps| && RatesOf(ps)[i] == x;
      assert ps[i] in ps;
    }
    if exists p :: p in ps && p.rate == x {
      var p :| p in ps && p.rate == x;
      var i :| 0 <= i < |ps| && ps[i] == p;
      assert RatesOf(ps)[i] == x;
    }
  }

  /** The rates of the area's Silver plans are exactly its silver rates. */
  lemma SilverPlanRates(area: RateArea, plans: seq<Plan>, x: int)
    ensures var silver := SortByRate(FilterPlans(area, Silver.Name(), plans));
      x in RatesOf(silver) <==> x in SilverRates(area, plans)
  {
    var filtered := FilterPlans(area, Silver.Name(), plans);
    var silver := SortByRate(filtered);
    RatesOfMembers(silver, x);
    forall p ensures p in silver <==> p in filtered {
      assert p in silver <==> p in multiset(silver);
      assert p in filtered <==> p in multiset(filtered);
    }
  }

  /** The sorted, de-duplicated silver rates are strictly increasing and are exactly the area's silver rates. */
  lemma DistinctSilverRates(area: RateArea, plans: seq<Plan>)
    ensures var rates := Unique(RatesOf(SortByRate(FilterPlans(area, Silver.Name(), plans))));
      && StrictlyIncreasing(rates)
      && forall x :: x in rates <==> x in SilverRates(area, plans)
  {
    var sorted := SortByRate(FilterPlans(area, Silver.Name(), plans));
    SortedRatesNonDecreasing(sorted);
    forall x ensures x in RatesOf(sorted) <==> x in SilverRates(area, plans) {
      SilverPlanRates(area, plans, x);
    }
  }

  /** In a strictly increasing listing of a set, the second element is the set's second lowest value. */
  lemma SecondOfIncreasing(rates: seq<int>, values: set<int>)
    requires StrictlyIncreasing(rates)
    requires forall x :: x in rates <==> x in values
    ensures |rates| == 0 <==> values == {}
    ensures |rates| >= 2 <==> exists x, y :: x in values && y in values && x != y
    ensures |rates| >= 2 ==> IsSecondLowest(rates[1], values)
  {
    if |rates| == 0 {
      forall x ensures x !in values {
        assert x !in rates;
      }
    } else {
      assert rates[0] in rates;
    }
    if |rates| >= 2 {
      assert rates[1] in rates;
      forall y | y in values && y < rates[1] ensures y == rates[0] {
        var k :| 0 <= k < |rates| && rates[k] == y;
        assert k < 1;
      }
    } else if |rates| == 1 {
      forall x | x in values ensures x == rates[0] {
        assert x in rates;
      }
    }
  }

  /**
   * `find_slcsp`: the second lowest distinct Silver rate of the zipcode's single
   * rate area. Several rate areas are reported before none, then a rate area
   * without Silver plans, then fewer than two distinct Silver rates.
   */
  function FindSlcsp(zipcode: string, lookup: map<string, seq<ZipRow>>, plans: seq<Plan>): (r: Result<int, SlcspError>)
    ensures var c := CountiesFor(zipcode, lookup);
      && (r == Failure(MultipleRateAreasFound) <==> SpansSeveralAreas(c))
      && (r == Failure(NoRateAreasFound) <==> |c| == 0)
      && (r == Failure(NoPlansFound) <==>
            |c| > 0 && !SpansSeveralAreas(c) && SilverRates(AreaOf(c[0]), plans) == {})
      && (r == Failure(InsufficientRatesFound) <==>
            && |c| > 0 && !SpansSeveralAreas(c)
            && SilverRates(AreaOf(c[0]), plans) != {}
            && forall x, y :: x in SilverRates(AreaOf(c[0]), plans) && y in SilverRates(AreaOf(c[0]), plans) ==> x == y)
      && (r.Success? ==> |c| > 0 && !SpansSeveralAreas(c) && IsSecondLowest(r.value, SilverRates(AreaOf(c[0]), plans)))
  {
    var counties := CountiesFor(zipcode, lookup);
    var areas := RateAreasOf(counties);
    RateAreaCount(counties);
    if |areas| > 1 then Failure(MultipleRateAreasFound)
    else if |areas| == 0 then Failure(NoRateAreasFound)
    else
      var area := AreaOf(counties[0]);
      var silver := FilterPlans(area, Silver.Name(), plans);
      var rates := Unique(RatesOf(SortByRate(silver)));
      DistinctSilverRates(area, plans);
      SecondOfIncreasing(rates, SilverRates(area, plans));
      assert |silver| == 0 <==> SilverRates(area, plans) == {} by {
        if |silver| > 0 {
          assert silver[0] in silver;
          assert silver[0].rate in SilverRates(area, plans);
        }
        if SilverRates(area, plans) != {} {
          var x :| x in SilverRates(area, plans);
          var p :| p in plans && PlanMatches(p, area, Silver.Name()) && p.rate == x;
          assert p in silver;
        }
      }
      if |silver| == 0 then Failure(NoPlansFound)
      else if |rates| < 2 then Failure(InsufficientRatesFound)
      else Success(rates[1])
  }
}

/**
 * Per-city aggregation: the distinct city listing of the loaded dataset (`all_cities`), and,
 * over a filtered view, the per-city counts (`count_cities`), the group-by-city of heights
 * (`skyscraper_heights`) and the per-city mean (`skyscraper_averages`).
 */
module Aggregator {
  import opened Sequences
  import opened Records

  // ---------------------------------------------------------------------------
  // Distinct values in first-seen order

  /** The values of `s`, each once, in the order of their first occurrence. */
  function Distinct(s: seq<string>): (d: seq<string>)
    ensures NoDup(d)
    ensures forall x :: x in d <==> x in s
  {
    if s == [] then []
    else
      var init, last := s[..|s| - 1], s[|s| - 1];
      assert s == init + [last];
      var d := Distinct(init);
      if last in d then d else d + [last]
  }

  /** `Distinct` lists values by increasing position of first occurrence. */
  lemma {:induction false} DistinctFirstSeenOrder(s: seq<string>)
    ensures forall i, j :: 0 <= i < j < |Distinct(s)| ==> FirstIndex(s, Distinct(s)[i]) < FirstIndex(s, Distinct(s)[j])
  {
    if s != [] {
      var init, last := s[..|s| - 1], s[|s| - 1];
      assert s == init + [last];
      DistinctFirstSeenOrder(init);
      var d := Distinct(init);
      forall x | x in init
        ensures FirstIndex(s, x) == FirstIndex(init, x) < |init|
      {
        FirstIndexOfPrefix(init, [last], x);
      }
      if last !in d {
        assert FirstIndex(s, last) == |init| by {
          assert last !in init;
          assert s[..|init|] == init;
        }
      }
    }
  }

  /**
   * The distinct cities of the loaded dataset in first-seen order, built as the dashboard's
   * `all_cities` does: walk the rows and append a city the list does not hold yet.
   */
  method AllCities(df: seq<Record>) returns (lst: seq<string>)
    ensures lst == Distinct(Cities(df))
    ensures NoDup(lst)
    ensures forall c :: c in lst <==> exists r :: r in df && r.city == c
  {
    var cities := Cities(df);
    lst := [];
    for i := 0 to |df|
      invariant lst == Distinct(cities[..i])
    {
      assert cities[..i + 1] == cities[..i] + [df[i].city];
      if df[i].city !in lst {
        lst := lst + [df[i].city];
      }
    }
    assert cities[..|df|] == cities;
    forall c | c in lst
      ensures exists r :: r in df && r.city == c
    {
      var k :| 0 <= k < |cities| && cities[k] == c;
      assert df[k] in df;
    }
  }

  // ---------------------------------------------------------------------------
  // Counting rows per city

  /** The mask `location.city == c`. */
  function CityMask(c: string): Record -> bool
  {
    (x: Record) => x.city == c
  }

  /** The mask `location.city in cs`. */
  function InCitiesMask(cs: seq<string>): Record -> bool
  {
    (x: Record) => x.city in cs
  }

  /** The rows of city `c`, in row order: `data[data['location.city'] == c]`. */
  function CityRows(rows: seq<Record>, c: string): (r: seq<Record>)
    ensures |r| <= |rows|
    ensures forall i :: 0 <= i < |r| ==> r[i] in rows && r[i].city == c
  {
    SelectMembers(rows, CityMask(c));
    var r := Select(rows, CityMask(c));
    assert forall i :: 0 <= i < |r| ==> r[i] in r;
    r
  }

  /** The number of rows of city `c`: the row count of `df[df.city.isin([c])]`. */
  function CountCity(rows: seq<Record>, c: string): (n: nat)
    ensures n <= |rows|
    ensures n == 0 <==> forall x :: x in rows ==> x.city != c
  {
    SelectMembers(rows, CityMask(c));
    var sel := CityRows(rows, c);
    assert sel != [] ==> sel[0] in sel;
    |sel|
  }

  /** One count per requested city, in the requested order. */
  function CountCities(cities: seq<string>, df: seq<Record>): (counts: seq<nat>)
    ensures |counts| == |cities|
    ensures forall i :: 0 <= i < |cities| ==> counts[i] == CountCity(df, cities[i])
  {
    seq(|cities|, i requires 0 <= i < |cities| => CountCity(df, cities[i]))
  }

  /** Adding a city the list lacks adds exactly that city's rows to the selection. */
  lemma {:induction false} SelectInCitiesSnoc(rows: seq<Record>, cs: seq<string>, c: string)
    requires c !in cs
    ensures |Select(rows, InCitiesMask(cs + [c]))| == |Select(rows, InCitiesMask(cs))| + CountCity(rows, c)
  {
    if rows != [] {
      var init := rows[..|rows| - 1];
      SelectInCitiesSnoc(init, cs, c);
    }
  }

  /** With duplicate-free cities, the counts add up to the number of rows in any of those cities. */
  lemma {:induction false} CountCitiesSumSelected(cities: seq<string>, df: seq<Record>)
    requires NoDup(cities)
    ensures SumInt(CountCities(cities, df)) == |Select(df, InCitiesMask(cities))|
  {
    if cities == [] {
      SelectNone(df, InCitiesMask(cities));
    } else {
      var init, c := cities[..|cities| - 1], cities[|cities| - 1];
      assert cities == init + [c];
      CountCitiesSumSelected(init, df);
      SelectInCitiesSnoc(df, init, c);
      assert CountCities(cities, df)[..|init|] == CountCities(init, df);
    }
  }

  /**
   * With duplicate-free cities that cover every city of the view, the counts add up to the
   * number of rows in the view.
   */
  lemma CountCitiesSum(cities: seq<string>, df: seq<Record>)
    requires NoDup(cities)
    requires forall x :: x in df ==> x.city in cities
    ensures SumInt(CountCities(cities, df)) == |df|
  {
    CountCitiesSumSelected(cities, df);
    SelectAll(df, InCitiesMask(cities));
  }

  // ---------------------------------------------------------------------------
  // Insertion-ordered dictionaries keyed by city

  /** A Python dict with string keys: its keys in insertion order and the key-to-value map. */
  datatype OrderedDict<V> = OrderedDict(keys: seq<string>, values: map<string, V>) {

    /** Every key is listed once, and exactly the mapped keys are listed. */
    ghost predicate Valid()
    {
      NoDup(keys) && forall k :: k in values <==> k in keys
    }

    /** `dict[k] = v`: a new key goes last, an existing key keeps its place and gets the new value. */
    function Put(k: string, v: V): (d: OrderedDict<V>)
      requires Valid()
      ensures d.Valid()
      ensures d.keys == if k in keys then keys else keys + [k]
      ensures d.values == values[k := v]
    {
      OrderedDict(if k in values then keys else keys + [k], values[k := v])
    }
  }

  // ---------------------------------------------------------------------------
  // Grouping heights by city

  /** The heights of city `c`'s rows, in row order. */
  function HeightsOf(rows: seq<Record>, c: string): seq<real>
  {
    Heights(CityRows(rows, c))
  }

  /** The grouping that `skyscraper_heights` builds: distinct cities in first-seen order, each with its heights. */
  function HeightsByCity(rows: seq<Record>): (d: OrderedDict<seq<real>>)
    ensures d.Valid()
  {
    var keys := Distinct(Cities(rows));
    OrderedDict(keys, map c | c in keys :: HeightsOf(rows, c))
  }

  /** Appending a row adds its height to its own city's list and leaves every other list alone. */
  lemma HeightsOfSnoc(rows: seq<Record>, x: Record, c: string)
    ensures HeightsOf(rows + [x], c) == HeightsOf(rows, c) + (if x.city == c then [x.height] else [])
  {
    assert (rows + [x])[..|rows|] == rows;
  }

  /**
   * Builds the grouping as the dashboard's `skyscraper_heights` does: one pass that gives every
   * city an empty list, a second pass that appends each row's height to its city's list.
   */
  method SkyscraperHeights(df: seq<Record>) returns (d: OrderedDict<seq<real>>)
    ensures d == HeightsByCity(df)
  {
    var heights := Heights(df);
    var skyscrapers := Cities(df);
    d := OrderedDict([], map[]);
    for i := 0 to |skyscrapers|
      invariant d.Valid()
      invariant d.keys == Distinct(skyscrapers[..i])
      invariant forall k :: k in d.values ==> d.values[k] == []
    {
      AddEmptyList(skyscrapers, i, d);
      d := d.Put(skyscrapers[i], []);
    }
    assert skyscrapers[..|skyscrapers|] == skyscrapers;
    for i := 0 to |heights|
      invariant d.Valid()
      invariant d.keys == Distinct(skyscrapers)
      invariant forall k :: k in d.values ==> d.values[k] == HeightsOf(df[..i], k)
    {
      var city := skyscrapers[i];
      assert city in d.keys;
      AppendHeight(df, i, d.values);
      d := d.Put(city, d.values[city] + [heights[i]]);
    }
    GroupingComplete(df, d);
  }

  /** One step of the first pass: giving city `i` an empty list lists the distinct cities of the next prefix. */
  lemma AddEmptyList(cities: seq<string>, i: nat, d: OrderedDict<seq<real>>)
    requires i < |cities| && d.Valid()
    requires d.keys == Distinct(cities[..i])
    ensures d.Put(cities[i], []).keys == Distinct(cities[..i + 1])
  {
    assert cities[..i + 1] == cities[..i] + [cities[i]];
  }

  /** After the second pass over all rows, the dict is the grouping. */
  lemma GroupingComplete(df: seq<Record>, d: OrderedDict<seq<real>>)
    requires d.Valid() && d.keys == Distinct(Cities(df))
    requires forall k :: k in d.values ==> d.values[k] == HeightsOf(df[..|df|], k)
    ensures d == HeightsByCity(df)
  {
    assert df[..|df|] == df;
    var spec := HeightsByCity(df);
    assert d.values == spec.values;
  }

  /** One step of the second pass: appending row `i`'s height to its city's list extends every list to the next prefix. */
  lemma AppendHeight(df: seq<Record>, i: nat, values: map<string, seq<real>>)
    requires i < |df|
    requires df[i].city in values
    requires forall k :: k in values ==> values[k] == HeightsOf(df[..i], k)
    ensures var v := values[df[i].city := values[df[i].city] + [df[i].height]];
      forall k :: k in v ==> v[k] == HeightsOf(df[..i + 1], k)
  {
    assert df[..i + 1] == df[..i] + [df[i]];
    forall k | k in values
      ensures HeightsOf(df[..i + 1], k) == HeightsOf(df[..i], k) + (if df[i].city == k then [df[i].height] else [])
    {
      HeightsOfSnoc(df[..i], df[i], k);
    }
  }

  /** Each city's list in the grouping holds that city's heights, one per row, so no list is empty. */
  lemma HeightsByCityGroups(rows: seq<Record>)
    ensures forall c :: c in HeightsByCity(rows).keys ==>
      |HeightsByCity(rows).values[c]| == CountCity(rows, c) > 0
  {
    forall c | c in HeightsByCity(rows).keys
      ensures |HeightsByCity(rows).values[c]| == CountCity(rows, c) > 0
    {
      var k :| 0 <= k < |rows| && Cities(rows)[k] == c;
      assert rows[k] in rows;
    }
  }

  /** The keys of the grouping are the view's cities, listed by increasing position of first occurrence. */
  lemma HeightsByCityOrder(rows: seq<Record>)
    ensures var keys := HeightsByCity(rows).keys;
      forall i, j :: 0 <= i < j < |keys| ==> FirstIndex(Cities(rows), keys[i]) < FirstIndex(Cities(rows), keys[j])
  {
    DistinctFirstSeenOrder(Cities(rows));
  }

  /** The lengths of a grouping's lists, in key order. */
  function GroupSizes(d: OrderedDict<seq<real>>): (sizes: seq<nat>)
    requires d.Valid()
    ensures |sizes| == |d.keys|
  {
    seq(|d.keys|, i requires 0 <= i < |d.keys| => |d.values[d.keys[i]]|)
  }

  /** The lengths of the grouping's lists add up to the number of rows: every row lands in exactly one list. */
  lemma HeightsByCitySizes(rows: seq<Record>)
    ensures SumInt(GroupSizes(HeightsByCity(rows))) == |rows|
  {
    var d := HeightsByCity(rows);
    HeightsByCityGroups(rows);
    forall x | x in rows
      ensures x.city in d.keys
    {
      var k :| 0 <= k < |rows| && rows[k] == x;
      assert Cities(rows)[k] == x.city;
    }
    CountCitiesSum(d.keys, rows);
    assert GroupSizes(d) == CountCities(d.keys, rows);
  }

  // ---------------------------------------------------------------------------
  // Per-city means

  /** The value `np.mean` gives: NaN for an empty list, otherwise the arithmetic mean. */
  datatype Average = NaN | Avg(value: real)

  /** The arithmetic mean of a height list, NaN when the list is empty. */
  function MeanOf(xs: seq<real>): (m: Average)
    ensures m.NaN? <==> xs == []
    ensures |xs| == 1 ==> m == Avg(xs[0])
  {
    assert |xs| == 1 ==> xs[..0] == [] && SumReal(xs) == xs[0];
    if xs == [] then NaN else Avg(SumReal(xs) / (|xs| as real))
  }

  /** A sum of values within [lo, hi] lies within [n * lo, n * hi]. */
  lemma {:induction false} SumRealBounds(xs: seq<real>, lo: real, hi: real)
    requires forall i :: 0 <= i < |xs| ==> lo <= xs[i] <= hi
    ensures (|xs| as real) * lo <= SumReal(xs) <= (|xs| as real) * hi
  {
    if xs != [] {
      SumRealBounds(xs[..|xs| - 1], lo, hi);
    }
  }

  /** The mean of a non-empty list lies between any lower and upper bound of its elements. */
  lemma MeanWithinBounds(xs: seq<real>, lo: real, hi: real)
    requires xs != []
    requires forall i :: 0 <= i < |xs| ==> lo <= xs[i] <= hi
    ensures lo <= MeanOf(xs).value <= hi
  {
    SumRealBounds(xs, lo, hi);
    var n := |xs| as real;
    assert n * lo <= SumReal(xs) <= n * hi;
    assert lo == (n * lo) / n && hi == (n * hi) / n;
  }

  /**
   * The per-city means as the dashboard's `skyscraper_averages` builds them: walk the grouping's
   * keys and store each key's mean. The result has the same keys in the same order.
   */
  method SkyscraperAverages(dictHeights: OrderedDict<seq<real>>) returns (averages: OrderedDict<Average>)
    requires dictHeights.Valid()
    ensures averages.Valid()
    ensures averages.keys == dictHeights.keys
    ensures forall k :: k in averages.values ==> averages.values[k] == MeanOf(dictHeights.values[k])
  {
    averages := OrderedDict([], map[]);
    var keys := dictHeights.keys;
    for i := 0 to |keys|
      invariant averages.Valid()
      invariant averages.keys == keys[..i]
      invariant forall k :: k in averages.values ==> k in dictHeights.values && averages.values[k] == MeanOf(dictHeights.values[k])
    {
      assert keys[..i + 1] == keys[..i] + [keys[i]];
      assert keys[i] !in keys[..i];
      averages := averages.Put(keys[i], MeanOf(dictHeights.values[keys[i]]));
    }
    assert keys[..|keys|] == keys;
  }

  /** Averaging a grouping built from rows never meets an empty list, so every city gets a number. */
  lemma GroupMeansDefined(rows: seq<Record>)
    ensures forall c :: c in HeightsByCity(rows).keys ==> MeanOf(HeightsByCity(rows).values[c]).Avg?
  {
    HeightsByCityGroups(rows);
  }
}

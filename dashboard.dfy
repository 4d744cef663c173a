/** What `main` computes from the data before handing it to the widgets and charts. */
module Dashboard {
  import opened Sequences
  import opened Records
  import Loader
  import Query
  import Aggregator
  import PieChart
  import Ranker

  /** The ranges offered by the height and year sliders. */
  datatype SliderRange = SliderRange(maxHeight: real, minYear: int, maxYear: int)

  /** The ranges used when the selected cities have no rows. */
  const DEFAULT_RANGE := SliderRange(600.0, 1900, 2024)

  /** `Series.max()` of a height column. */
  function MaxReal(xs: seq<real>): (m: real)
    requires xs != []
    ensures m in xs
    ensures forall i :: 0 <= i < |xs| ==> xs[i] <= m
  {
    if |xs| == 1 then xs[0]
    else
      var init := xs[..|xs| - 1];
      var m := MaxReal(init);
      assert xs == init + [xs[|xs| - 1]];
      if xs[|xs| - 1] > m then xs[|xs| - 1] else m
  }

  /** `Series.min()` of a year column. */
  function MinInt(xs: seq<int>): (m: int)
    requires xs != []
    ensures m in xs
    ensures forall i :: 0 <= i < |xs| ==> m <= xs[i]
  {
    if |xs| == 1 then xs[0]
    else
      var init := xs[..|xs| - 1];
      var m := MinInt(init);
      assert xs == init + [xs[|xs| - 1]];
      if xs[|xs| - 1] < m then xs[|xs| - 1] else m
  }

  /** `Series.max()` of a year column. */
  function MaxInt(xs: seq<int>): (m: int)
    requires xs != []
    ensures m in xs
    ensures forall i :: 0 <= i < |xs| ==> xs[i] <= m
  {
    if |xs| == 1 then xs[0]
    else
      var init := xs[..|xs| - 1];
      var m := MaxInt(init);
      assert xs == init + [xs[|xs| - 1]];
      if xs[|xs| - 1] > m then xs[|xs| - 1] else m
  }

  /**
   * The slider ranges for a city selection: over the dataset's rows in the selected cities, the
   * largest height and the earliest and latest completion year; the defaults when there are none.
   */
  function SliderRangeFor(dataset: seq<Record>, cities: seq<string>): (b: SliderRange)
    ensures var sel := Select(dataset, Aggregator.InCitiesMask(cities));
      && (sel == [] ==> b == DEFAULT_RANGE)
      && (sel != [] ==>
            && (exists x :: x in sel && x.height == b.maxHeight)
            && (exists x :: x in sel && x.year == b.minYear)
            && (exists x :: x in sel && x.year == b.maxYear)
            && (forall x :: x in sel ==> x.height <= b.maxHeight && b.minYear <= x.year <= b.maxYear))
  {
    var filtered := Select(dataset, Aggregator.InCitiesMask(cities));
    if filtered == [] then DEFAULT_RANGE
    else
      var b := SliderRange(MaxReal(Heights(filtered)), MinInt(Years(filtered)), MaxInt(Years(filtered)));
      assert forall x :: x in filtered ==> x.height <= b.maxHeight && b.minYear <= x.year <= b.maxYear by {
        forall x | x in filtered
          ensures x.height <= b.maxHeight && b.minYear <= x.year <= b.maxYear
        {
          var k :| 0 <= k < |filtered| && filtered[k] == x;
          assert Heights(filtered)[k] == x.height && Years(filtered)[k] == x.year;
        }
      }
      ghost var h :| 0 <= h < |filtered| && Heights(filtered)[h] == b.maxHeight;
      ghost var lo :| 0 <= lo < |filtered| && Years(filtered)[lo] == b.minYear;
      ghost var hi :| 0 <= hi < |filtered| && Years(filtered)[hi] == b.maxYear;
      assert filtered[h] in filtered && filtered[lo] in filtered && filtered[hi] in filtered;
      b
  }

  /** On the loaded dataset the year slider is never empty and starts after year 0, whatever is selected. */
  lemma SliderYearsOrdered(table: seq<Record>, cities: seq<string>)
    ensures var b := SliderRangeFor(Loader.ReadData(table), cities);
      0 < b.minYear <= b.maxYear
  {
    var dataset := Loader.ReadData(table);
    SelectMembers(dataset, Aggregator.InCitiesMask(cities));
  }

  /**
   * The pie chart's shares: with a duplicate-free city selection, the per-city counts of the
   * filtered view add up to the number of rows it holds.
   */
  lemma PieCountsCoverView(dataset: seq<Record>, cities: seq<string>, maxHeight: real, minYear: int)
    requires NoDup(cities)
    ensures var view := Query.FilterData(dataset, cities, maxHeight, minYear);
      SumInt(Aggregator.CountCities(cities, view)) == |view|
  {
    var view := Query.FilterData(dataset, cities, maxHeight, minYear);
    Aggregator.CountCitiesSum(cities, view);
  }

  /**
   * When the filtered view has rows, the selection is non-empty (so `cities[0]` exists), some city
   * has a non-zero count, and the explode vector emphasises one wedge of non-zero count.
   */
  lemma NonEmptyViewHasWedge(dataset: seq<Record>, cities: seq<string>, maxHeight: real, minYear: int, m: nat)
    requires Query.FilterData(dataset, cities, maxHeight, minYear) != []
    requires PieChart.IsFirstMax(Aggregator.CountCities(cities, Query.FilterData(dataset, cities, maxHeight, minYear)), m)
    ensures cities != []
    ensures Aggregator.CountCities(cities, Query.FilterData(dataset, cities, maxHeight, minYear))[m] > 0
  {
    var view := Query.FilterData(dataset, cities, maxHeight, minYear);
    assert view[0] in view;
    var i :| 0 <= i < |cities| && cities[i] == view[0].city;
    var counts := Aggregator.CountCities(cities, view);
    assert counts[i] > 0;
  }

  /** A worked example: two rows in city A (500 ft, 2000; 300 ft, 1990) and one in B (700 ft, 2010). */
  function ExampleRows(): seq<Record>
  {
    [Record(1, "A1", "A", 36.0, 2000, 500.0), Record(2, "A2", "A", 36.0, 1990, 300.0), Record(3, "B1", "B", 40.0, 2010, 700.0)]
  }

  /** Queried for A and B above 100 ft after 1980, every example row matches. */
  lemma ExampleQuery()
    ensures Query.FilterData(ExampleRows(), ["A", "B"], 100.0, 1980) == ExampleRows()
  {
    var rows := ExampleRows();
    var mask := Query.QueryMask(["A", "B"], 100.0, 1980);
    assert forall x :: x in rows ==> mask(x);
    SelectAll(rows, mask);
  }

  /** The example's counts for the selection [A, B] are [2, 1]. */
  lemma ExampleCounts()
    ensures Aggregator.CountCities(["A", "B"], ExampleRows()) == [2, 1]
  {
    ExampleCityRows();
    var counts := Aggregator.CountCities(["A", "B"], ExampleRows());
    assert counts[0] == 2 && counts[1] == 1;
  }

  /** The example's rows split by city: A holds the first two rows, B the third. */
  lemma ExampleCityRows()
    ensures Aggregator.CityRows(ExampleRows(), "A") == ExampleRows()[..2]
    ensures Aggregator.CityRows(ExampleRows(), "B") == ExampleRows()[2..]
  {
    var rows := ExampleRows();
    var a1, a2, b1 := rows[0], rows[1], rows[2];
    var inA, inB := Aggregator.CityMask("A"), Aggregator.CityMask("B");
    assert rows[..2] == [a1, a2] && rows[2..] == [b1];
    assert Select([a1], inA) == [a1] && Select([a1], inB) == [] by {
      assert [a1][..0] == [];
    }
    assert [a1, a2][..1] == [a1];
    assert Select([a1, a2], inA) == [a1, a2] && Select([a1, a2], inB) == [];
    assert rows[..2] == [a1, a2];
  }

  /** The example's cities in first-seen order are A then B. */
  lemma ExampleKeys()
    ensures Aggregator.Distinct(Cities(ExampleRows())) == ["A", "B"]
  {
    var a, aa, aab := ["A"], ["A", "A"], ["A", "A", "B"];
    assert Cities(ExampleRows()) == aab;
    assert a[..0] == [];
    assert Aggregator.Distinct(a) == a;
    assert aa[..1] == a && aa[1] == "A";
    assert Aggregator.Distinct(aa) == a;
    assert aab[..2] == aa && aab[2] == "B";
  }

  /** The example's height lists: A's rows are 500 and 300 ft, B's row is 700 ft. */
  lemma ExampleHeights()
    ensures Aggregator.HeightsOf(ExampleRows(), "A") == [500.0, 300.0]
    ensures Aggregator.HeightsOf(ExampleRows(), "B") == [700.0]
  {
    ExampleCityRows();
    var rows := ExampleRows();
    assert Heights(rows[..2]) == [500.0, 300.0];
    assert Heights(rows[2..]) == [700.0];
  }

  /** The example's grouping lists A then B, with mean heights 400 and 700. */
  lemma ExampleGroups()
    ensures var groups := Aggregator.HeightsByCity(ExampleRows());
      && groups.keys == ["A", "B"]
      && Aggregator.MeanOf(groups.values["A"]) == Aggregator.Avg(400.0)
      && Aggregator.MeanOf(groups.values["B"]) == Aggregator.Avg(700.0)
  {
    ExampleKeys();
    ExampleHeights();
    var groups := Aggregator.HeightsByCity(ExampleRows());
    assert groups.values["A"] == [500.0, 300.0] && groups.values["B"] == [700.0];
    assert SumReal([500.0, 300.0]) == 800.0 by {
      assert [500.0, 300.0][..1] == [500.0];
      assert [500.0, 300.0][..1][..0] == [];
    }
  }

  /** The example's tallest row is B's 700 ft tower: the heights differ, so the top-1 list is determined. */
  lemma ExampleTallest()
    ensures Ranker.Tallest(ExampleRows(), 1) == [ExampleRows()[2]]
  {
    var rows := ExampleRows();
    var r := Ranker.Tallest(rows, 1);
    assert |r| == 1;
    assert r[0] in multiset(rows);
  }
}

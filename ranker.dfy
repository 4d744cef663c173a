/** Top-N and bottom-N rows by height (`sort_values(...).head(5)`). */
module Ranker {
  import opened Sequences
  import opened Records
  import Aggregator
  import Loader

  /** How many rows `head()` keeps. */
  const HEAD_SIZE: nat := 5

  /** `a` may come before `b` in a sort by height in the given direction. */
  predicate InOrder(a: Record, b: Record, ascending: bool)
  {
    if ascending then a.height <= b.height else a.height >= b.height
  }

  /** Every row of `s` may come before every later row in a sort by height in the given direction. */
  predicate SortedBy(s: seq<Record>, ascending: bool)
  {
    forall i, j :: 0 <= i < j < |s| ==> InOrder(s[i], s[j], ascending)
  }

  /** Inserts `x` into a sorted sequence ahead of the first row it may precede. */
  function Insert(x: Record, s: seq<Record>, ascending: bool): (r: seq<Record>)
    requires SortedBy(s, ascending)
    ensures |r| == |s| + 1
    ensures SortedBy(r, ascending)
    ensures multiset(r) == multiset(s) + multiset{x}
  {
    if s == [] then [x]
    else if InOrder(x, s[0], ascending) then [x] + s
    else
      var t := Insert(x, s[1..], ascending);
      InsertBehindHead(x, s, t, ascending);
      [s[0]] + t
  }

  /** A row that may not precede the head of a sorted sequence can be placed, sorted, behind it. */
  lemma InsertBehindHead(x: Record, s: seq<Record>, t: seq<Record>, ascending: bool)
    requires s != [] && SortedBy(s, ascending) && !InOrder(x, s[0], ascending)
    requires SortedBy(t, ascending) && multiset(t) == multiset(s[1..]) + multiset{x}
    ensures SortedBy([s[0]] + t, ascending)
    ensures multiset([s[0]] + t) == multiset(s) + multiset{x}
  {
    assert s == [s[0]] + s[1..];
    forall k | 0 <= k < |t|
      ensures InOrder(s[0], t[k], ascending)
    {
      assert t[k] in multiset(t);
      if t[k] != x {
        assert t[k] in s[1..];
      }
    }
  }

  /** `sort_values(by = height, ascending)`. Which of several equal rows comes first is not specified. */
  function SortValues(rows: seq<Record>, ascending: bool): (r: seq<Record>)
    ensures |r| == |rows|
    ensures SortedBy(r, ascending)
    ensures multiset(r) == multiset(rows)
  {
    if rows == [] then []
    else
      assert rows == [rows[0]] + rows[1..];
      Insert(rows[0], SortValues(rows[1..], ascending), ascending)
  }

  /** In a sorted sequence, every row from position `k` on may follow every row before `k`. */
  lemma TailFollowsHead(sorted: seq<Record>, k: nat, ascending: bool)
    requires SortedBy(sorted, ascending) && k <= |sorted|
    ensures forall x, i :: x in multiset(sorted[k..]) && 0 <= i < k ==> InOrder(sorted[i], x, ascending)
  {
    forall x, i | x in multiset(sorted[k..]) && 0 <= i < k
      ensures InOrder(sorted[i], x, ascending)
    {
      var j :| 0 <= j < |sorted[k..]| && sorted[k..][j] == x;
      assert sorted[k + j] == x;
    }
  }

  /** Rows drawn from a sub-multiset of `rows` are rows of `rows`. */
  lemma SubMultisetMembers(r: seq<Record>, rows: seq<Record>)
    requires multiset(r) <= multiset(rows)
    ensures forall x :: x in r ==> x in rows
  {
    forall x | x in r
      ensures x in rows
    {
      assert x in multiset(r);
    }
  }

  /**
   * `sort_values(by = height, ascending).head(n)`: min(n, |rows|) of the rows, in order, and
   * no row left out may come before any row kept.
   */
  function SortHead(rows: seq<Record>, ascending: bool, n: nat): (r: seq<Record>)
    ensures |r| == Min(n, |rows|)
    ensures multiset(r) <= multiset(rows)
    ensures SortedBy(r, ascending)
    ensures forall x, i :: x in multiset(rows) - multiset(r) && 0 <= i < |r| ==> InOrder(r[i], x, ascending)
  {
    var sorted := SortValues(rows, ascending);
    HeadOfSorted(sorted, rows, Min(n, |rows|), ascending);
    sorted[..Min(n, |rows|)]
  }

  /** The first `k` rows of a sorted arrangement of `rows` are a sorted selection that no other row may precede. */
  lemma HeadOfSorted(sorted: seq<Record>, rows: seq<Record>, k: nat, ascending: bool)
    requires SortedBy(sorted, ascending) && multiset(sorted) == multiset(rows) && |sorted| == |rows| && k <= |rows|
    ensures |sorted[..k]| == k
    ensures multiset(sorted[..k]) <= multiset(rows)
    ensures SortedBy(sorted[..k], ascending)
    ensures forall x, i :: x in multiset(rows) - multiset(sorted[..k]) && 0 <= i < k ==> InOrder(sorted[..k][i], x, ascending)
  {
    assert sorted == sorted[..k] + sorted[k..];
    assert multiset(rows) == multiset(sorted[..k]) + multiset(sorted[k..]);
    TailFollowsHead(sorted, k, ascending);
  }

  /**
   * `r` lists `n` tallest rows of `rows`, tallest first: min(n, |rows|) of the rows, heights
   * non-increasing, and no row left out is taller than any row kept.
   */
  predicate IsTallest(r: seq<Record>, rows: seq<Record>, n: nat)
  {
    && |r| == Min(n, |rows|)
    && multiset(r) <= multiset(rows)
    && (forall i, j :: 0 <= i < j < |r| ==> r[i].height >= r[j].height)
    && (forall x, i :: x in multiset(rows) - multiset(r) && 0 <= i < |r| ==> x.height <= r[i].height)
  }

  /**
   * `r` lists `n` shortest rows of `rows`, shortest first: min(n, |rows|) of the rows, heights
   * non-decreasing, and no row left out is shorter than any row kept.
   */
  predicate IsShortest(r: seq<Record>, rows: seq<Record>, n: nat)
  {
    && |r| == Min(n, |rows|)
    && multiset(r) <= multiset(rows)
    && (forall i, j :: 0 <= i < j < |r| ==> r[i].height <= r[j].height)
    && (forall x, i :: x in multiset(rows) - multiset(r) && 0 <= i < |r| ==> x.height >= r[i].height)
  }

  /** `sort_values(by = height, ascending = False).head(n)`. */
  function Tallest(rows: seq<Record>, n: nat): (r: seq<Record>)
    ensures IsTallest(r, rows, n)
  {
    SortHead(rows, false, n)
  }

  /** `sort_values(by = height, ascending = True).head(n)`. */
  function Shortest(rows: seq<Record>, n: nat): (r: seq<Record>)
    ensures IsShortest(r, rows, n)
  {
    SortHead(rows, true, n)
  }

  /** What `compare_graphs` charts for one city: nothing when the city has no rows, else its five tallest and five shortest. */
  datatype Comparison = NoData | Comparison(tallest: seq<Record>, shortest: seq<Record>)

  /** `compare_graphs`: the city's rows, then its five tallest and five shortest. */
  function CompareGraphs(data: seq<Record>, city: string): (c: Comparison)
    ensures c.NoData? <==> forall x :: x in data ==> x.city != city
    ensures c.Comparison? ==>
      && IsTallest(c.tallest, Aggregator.CityRows(data, city), HEAD_SIZE)
      && IsShortest(c.shortest, Aggregator.CityRows(data, city), HEAD_SIZE)
    ensures c.Comparison? ==>
      && |c.tallest| == |c.shortest| == Min(HEAD_SIZE, Aggregator.CountCity(data, city))
      && (forall x :: x in c.tallest ==> x in data && x.city == city)
      && (forall x :: x in c.shortest ==> x in data && x.city == city)
  {
    var cityData := Aggregator.CityRows(data, city);
    SelectMembers(data, Aggregator.CityMask(city));
    if cityData == [] then NoData
    else
      assert cityData[0] in cityData;
      var tallest, shortest := Tallest(cityData, HEAD_SIZE), Shortest(cityData, HEAD_SIZE);
      SubMultisetMembers(tallest, cityData);
      SubMultisetMembers(shortest, cityData);
      Comparison(tallest, shortest)
  }

  /** The five tallest completed skyscrapers of the whole loaded table, whatever the query. */
  function AllTimeTallest(table: seq<Record>): (r: seq<Record>)
    ensures IsTallest(r, Loader.ReadData(table), HEAD_SIZE)
    ensures forall x :: x in r ==> x in table && x.year > 0 && x.latitude > 0.0
    ensures forall x, i :: x in Loader.ReadData(table) && x !in r && 0 <= i < |r| ==> x.height <= r[i].height
  {
    var data := Loader.ReadData(table);
    var r := Tallest(data, HEAD_SIZE);
    SubMultisetMembers(r, data);
    forall x | x in data && x !in r
      ensures x in multiset(data) - multiset(r)
    {
      assert multiset(data)[x] > 0 && multiset(r)[x] == 0;
    }
    r
  }
}

/** The per-request query filter (`filter_data`). */
module Query {
  import opened Records

  /** A row matches a query when its city is selected and both numeric bounds are strictly exceeded. */
  predicate Matches(r: Record, selCity: seq<string>, maxHeight: real, minYear: int)
  {
    r.city in selCity && r.height > maxHeight && r.year > minYear
  }

  /** The query as a single mask. */
  function QueryMask(selCity: seq<string>, maxHeight: real, minYear: int): Record -> bool
  {
    x => Matches(x, selCity, maxHeight, minYear)
  }

  /**
   * The filtered view: the dataset's rows whose city is in `selCity`, then those taller than
   * `maxHeight`, then those completed after `minYear`, in row order. A row exactly at either
   * bound is left out, and no city is selected implicitly.
   */
  function FilterData(dataset: seq<Record>, selCity: seq<string>, maxHeight: real, minYear: int): (view: seq<Record>)
    ensures forall x :: x in view <==> x in dataset && x.city in selCity && x.height > maxHeight && x.year > minYear
    ensures selCity == [] ==> view == []
    ensures view == Select(dataset, QueryMask(selCity, maxHeight, minYear))
  {
    var inCity := (x: Record) => x.city in selCity;
    var taller := (x: Record) => x.height > maxHeight;
    var later := (x: Record) => x.year > minYear;
    var cityAndTaller := (x: Record) => x.city in selCity && x.height > maxHeight;
    var byCity := Select(dataset, inCity);
    var byHeight := Select(byCity, taller);
    SelectOfSelect(dataset, inCity, taller, cityAndTaller);
    SelectOfSelect(dataset, cityAndTaller, later, QueryMask(selCity, maxHeight, minYear));
    SelectMembers(dataset, QueryMask(selCity, maxHeight, minYear));
    var view := Select(byHeight, later);
    assert view != [] ==> view[0] in view;
    view
  }

  /** The filtered view is the in-order subsequence of the matching rows: row k of it is the k-th matching row. */
  lemma FilterDataInOrder(dataset: seq<Record>, selCity: seq<string>, maxHeight: real, minYear: int)
    ensures var view, idx := FilterData(dataset, selCity, maxHeight, minYear), Positions(dataset, QueryMask(selCity, maxHeight, minYear));
      |view| == |idx| && forall k :: 0 <= k < |view| ==> view[k] == dataset[idx[k]]
  {
    SelectIsSubsequence(dataset, QueryMask(selCity, maxHeight, minYear));
  }
}

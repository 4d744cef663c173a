/** A skyscraper record and the boolean-mask selection every pipeline stage is built from. */
module Records {

  /** One row of the skyscraper table (the columns the pipeline reads). */
  datatype Record = Record(
    id: int,
    name: string,
    city: string,
    latitude: real,
    year: int,
    height: real)

  /** The rows of `rows` for which `p` holds, in row order: `df[mask]` for the mask `p`. */
  function Select(rows: seq<Record>, p: Record -> bool): (r: seq<Record>)
    ensures |r| <= |rows|
  {
    if rows == [] then []
    else
      var init, last := rows[..|rows| - 1], rows[|rows| - 1];
      assert rows == init + [last];
      Select(init, p) + (if p(last) then [last] else [])
  }

  /** The row positions at which `p` holds, in increasing order. */
  function Positions(rows: seq<Record>, p: Record -> bool): (idx: seq<nat>)
    ensures forall k :: 0 <= k < |idx| ==> idx[k] < |rows| && p(rows[idx[k]])
    ensures forall k, l :: 0 <= k < l < |idx| ==> idx[k] < idx[l]
    ensures forall i :: 0 <= i < |rows| && p(rows[i]) ==> i in idx
  {
    if rows == [] then []
    else
      var n := |rows| - 1;
      var init := Positions(rows[..n], p);
      assert forall k :: 0 <= k < |init| ==> rows[..n][init[k]] == rows[init[k]];
      if p(rows[n]) then init + [n] else init
  }

  /** `Select` keeps exactly the rows at `Positions`, in that order: it is the in-order subsequence of matching rows. */
  lemma {:induction false} SelectIsSubsequence(rows: seq<Record>, p: Record -> bool)
    ensures |Select(rows, p)| == |Positions(rows, p)|
    ensures forall k :: 0 <= k < |Positions(rows, p)| ==> Select(rows, p)[k] == rows[Positions(rows, p)[k]]
  {
    if rows != [] {
      var n := |rows| - 1;
      var init := rows[..n];
      SelectIsSubsequence(init, p);
      var s, idx := Select(init, p), Positions(init, p);
      var s', idx' := Select(rows, p), Positions(rows, p);
      assert s' == s + (if p(rows[n]) then [rows[n]] else []);
      assert idx' == idx + (if p(rows[n]) then [n] else []);
      forall k | 0 <= k < |idx'|
        ensures s'[k] == rows[idx'[k]]
      {
        if k < |idx| {
          assert s'[k] == s[k] == init[idx[k]];
        }
      }
    }
  }

  /** A row is selected exactly when it is in the table and passes the mask. */
  lemma {:induction false} SelectMembers(rows: seq<Record>, p: Record -> bool)
    ensures forall x :: x in Select(rows, p) <==> x in rows && p(x)
  {
    if rows != [] {
      var init, last := rows[..|rows| - 1], rows[|rows| - 1];
      SelectMembers(init, p);
      assert rows == init + [last];
    }
  }

  /** Selecting twice is selecting once by the conjunction of the two masks. */
  lemma {:induction false} SelectOfSelect(rows: seq<Record>, p: Record -> bool, q: Record -> bool, pq: Record -> bool)
    requires forall x :: pq(x) == (p(x) && q(x))
    ensures Select(Select(rows, p), q) == Select(rows, pq)
  {
    if rows != [] {
      var init, last := rows[..|rows| - 1], rows[|rows| - 1];
      SelectOfSelect(init, p, q, pq);
      var s := Select(init, p);
      if p(last) {
        assert Select(rows, p) == s + [last];
        assert (s + [last])[..|s|] == s;
        assert Select(s + [last], q) == Select(s, q) + (if q(last) then [last] else []);
        assert Select(rows, pq) == Select(init, pq) + (if q(last) then [last] else []);
      } else {
        assert Select(rows, p) == s;
        assert Select(rows, pq) == Select(init, pq);
      }
    }
  }

  /** A mask every row passes selects the whole table. */
  lemma {:induction false} SelectAll(rows: seq<Record>, p: Record -> bool)
    requires forall x :: x in rows ==> p(x)
    ensures Select(rows, p) == rows
  {
    if rows != [] {
      var init := rows[..|rows| - 1];
      assert rows == init + [rows[|rows| - 1]];
      SelectAll(init, p);
    }
  }

  /** A mask no row passes selects nothing. */
  lemma {:induction false} SelectNone(rows: seq<Record>, p: Record -> bool)
    requires forall x :: x in rows ==> !p(x)
    ensures Select(rows, p) == []
  {
    if rows != [] {
      var init := rows[..|rows| - 1];
      assert rows == init + [rows[|rows| - 1]];
      SelectNone(init, p);
    }
  }

  /** The `location.city` column. */
  function Cities(rows: seq<Record>): (c: seq<string>)
    ensures |c| == |rows|
    ensures forall i :: 0 <= i < |rows| ==> c[i] == rows[i].city
  {
    seq(|rows|, i requires 0 <= i < |rows| => rows[i].city)
  }

  /** The `statistics.height` column. */
  function Heights(rows: seq<Record>): (h: seq<real>)
    ensures |h| == |rows|
    ensures forall i :: 0 <= i < |rows| ==> h[i] == rows[i].height
  {
    seq(|rows|, i requires 0 <= i < |rows| => rows[i].height)
  }

  /** The `status.completed.year` column. */
  function Years(rows: seq<Record>): (y: seq<int>)
    ensures |y| == |rows|
    ensures forall i :: 0 <= i < |rows| ==> y[i] == rows[i].year
  {
    seq(|rows|, i requires 0 <= i < |rows| => rows[i].year)
  }
}

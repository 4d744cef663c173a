/** The pie-chart adapter's one piece of logic: which wedge to pull out (`generate_pie_chart`). */
module PieChart {
  import opened Sequences

  /** The offset given to the emphasised wedge. */
  const EXPLODE_OFFSET: real := 0.25

  /** Position `m` holds the largest count and no earlier position holds it. */
  predicate IsFirstMax(counts: seq<int>, m: int)
  {
    && 0 <= m < |counts|
    && (forall j :: 0 <= j < |counts| ==> counts[j] <= counts[m])
    && (forall j :: 0 <= j < m ==> counts[j] < counts[m])
  }

  /** `np.max(counts)`: the largest count. */
  method Maximum(counts: seq<int>) returns (mx: int)
    requires counts != []
    ensures mx in counts
    ensures forall j :: 0 <= j < |counts| ==> counts[j] <= mx
  {
    mx := counts[0];
    for i := 1 to |counts|
      invariant mx in counts[..i]
      invariant forall j :: 0 <= j < i ==> counts[j] <= mx
    {
      if counts[i] > mx {
        mx := counts[i];
      }
    }
  }

  /** `counts.index(v)`: the first position holding `v`. */
  method IndexOf(counts: seq<int>, v: int) returns (i: nat)
    requires v in counts
    ensures i < |counts| && counts[i] == v
    ensures forall j :: 0 <= j < i ==> counts[j] != v
    ensures i == FirstIndex(counts, v)
  {
    i := 0;
    while counts[i] != v
      invariant i < |counts| && v in counts[i..]
      invariant forall j :: 0 <= j < i ==> counts[j] != v
      decreases |counts| - i
    {
      assert counts[i..] == [counts[i]] + counts[i + 1..];
      i := i + 1;
    }
  }

  /**
   * The explode vector: one entry per count, the offset at the first position of the largest
   * count and 0 everywhere else. No counts give no entries.
   */
  method Explodes(counts: seq<int>) returns (explodes: seq<real>)
    ensures |explodes| == |counts|
    ensures forall j :: 0 <= j < |counts| ==> explodes[j] == if IsFirstMax(counts, j) then EXPLODE_OFFSET else 0.0
    ensures counts != [] ==> exists m :: 0 <= m < |counts| && explodes[m] == EXPLODE_OFFSET
    ensures forall j, k :: 0 <= j < k < |counts| ==> explodes[j] == 0.0 || explodes[k] == 0.0
  {
    explodes := seq(|counts|, i => 0.0);
    if |counts| > 0 {
      var maximum := Maximum(counts);
      var m := IndexOf(counts, maximum);
      explodes := explodes[m := EXPLODE_OFFSET];
      assert IsFirstMax(counts, m);
    }
  }
}

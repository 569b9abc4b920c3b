/** Live intervals and the order in which the linear scan visits them. */
module Intervals {
  import opened SetFacts

  /** A value is named by the instruction that defines it. */
  type Value = nat

  datatype Interval = Interval(begin: nat, end: nat) {
    predicate Covers(t: nat) { begin <= t < end }

    predicate Overlaps(other: Interval) { begin < other.end && other.begin < end }

    /** LiveInterval::update: the hull of the two intervals. */
    function Hull(other: Interval): (r: Interval)
      ensures forall t :: Covers(t) || other.Covers(t) ==> r.Covers(t)
      ensures r.begin in {begin, other.begin} && r.end in {end, other.end}
    {
      Interval(if other.begin < begin then other.begin else begin,
               if end < other.end then other.end else end)
    }
  }

  type IntervalMap = map<Value, Interval>

  /** The comparator handed to std::sort, branch for branch. */
  predicate SortsBefore(iv: IntervalMap, l: Value, r: Value)
    requires l in iv && r in iv
  {
    if iv[l].begin == iv[r].begin then
      if iv[l].end == iv[r].begin then l < r else iv[l].end < iv[r].end
    else
      iv[l].begin < iv[r].begin
  }

  ghost predicate WellFormed(iv: IntervalMap) {
    forall v :: v in iv ==> iv[v].begin <= iv[v].end
  }

  /** What filtering and sorting leave behind, whatever the hash order was and however std::sort
      breaks ties: every value with a non-empty interval once, with no inversion. */
  ghost predicate IsScanOrder(iv: IntervalMap, data: seq<Value>) {
    && WellFormed(iv)
    && Distinct(data)
    && (forall v :: v in data <==> v in iv && iv[v].begin != iv[v].end)
    && (forall i, j :: 0 <= i < j < |data| ==> !SortsBefore(iv, data[j], data[i]))
  }

  /** The tie-break of the comparator compares an end with a begin; on the non-empty intervals that
      survive the filter it is still the lexicographic order, so the scan goes by begin, then end. */
  lemma ScanOrderIsLexicographic(iv: IntervalMap, data: seq<Value>, i: nat, j: nat)
    requires IsScanOrder(iv, data)
    requires i < j < |data|
    ensures data[i] in iv && data[j] in iv && iv[data[i]].begin < iv[data[i]].end
    ensures iv[data[i]].begin <= iv[data[j]].begin
    ensures iv[data[i]].begin == iv[data[j]].begin ==> iv[data[i]].end <= iv[data[j]].end
  {
    assert data[i] in data && data[j] in data;
    assert !SortsBefore(iv, data[j], data[i]);
  }

  lemma ScanOrderFacts(iv: IntervalMap, data: seq<Value>)
    requires IsScanOrder(iv, data)
    ensures Distinct(data)
    ensures forall v :: v in data ==> v in iv && iv[v].begin < iv[v].end
    ensures forall i, j :: 0 <= i < j < |data| ==> iv[data[i]].begin <= iv[data[j]].begin
  {
    forall i, j | 0 <= i < j < |data| ensures iv[data[i]].begin <= iv[data[j]].begin {
      ScanOrderIsLexicographic(iv, data, i, j);
    }
  }

  /** No two of the values end at the same point. */
  ghost predicate DistinctEndsOf(iv: IntervalMap, data: seq<Value>) {
    forall u, v :: u in data && v in data && u in iv && v in iv && iv[u].end == iv[v].end ==> u == v
  }
}

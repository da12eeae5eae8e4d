/** The query layer of the tracker: nearest-epoch scan, epoch range,
    the offset/limit slice of the /epochs route and the exact-epoch lookup
    of the /epochs/<epoch> route, each over an explicit record list. */
module IssTracker {
  import opened Records

  // ---------------------------------------------------------------------
  // Nearest epoch
  // ---------------------------------------------------------------------

  /** Index k holds a record at least as close to t as every other record. */
  predicate IsNearest(vs: seq<StateVector>, t: int, k: int)
  {
    && 0 <= k < |vs|
    && forall j :: 0 <= j < |vs| ==> Distance(vs[k].epoch, t) <= Distance(vs[j].epoch, t)
  }

  /** Index k is the LAST of the nearest records: every record after it is
      strictly farther from t. */
  predicate IsLastNearest(vs: seq<StateVector>, t: int, k: int)
  {
    && IsNearest(vs, t, k)
    && forall j :: k < j < |vs| ==> Distance(vs[k].epoch, t) < Distance(vs[j].epoch, t)
  }

  /** The index the scan of closest_epoch settles on, defined on prefixes:
      a new record replaces the best so far when it is no farther. */
  function NearestIndex(vs: seq<StateVector>, t: int): (k: nat)
    requires |vs| > 0
    ensures IsLastNearest(vs, t, k)
    decreases |vs|
  {
    if |vs| == 1 then 0
    else
      var k := NearestIndex(vs[..|vs| - 1], t);
      if Distance(vs[k].epoch, t) >= Distance(vs[|vs| - 1].epoch, t) then |vs| - 1 else k
  }

  /** The last-nearest index is unique, so IsLastNearest fully determines
      which record closest_epoch returns. */
  lemma LastNearestIsUnique(vs: seq<StateVector>, t: int, k: int)
    requires IsLastNearest(vs, t, k)
    ensures k == NearestIndex(vs, t)
  {
  }

  /** Ties go to the later record: every index that is as near to t as any
      other lies at or before the one the scan settles on, at the same distance. */
  lemma TieGoesToLaterRecord(vs: seq<StateVector>, t: int, j: int)
    requires vs != [] && IsNearest(vs, t, j)
    ensures j <= NearestIndex(vs, t)
    ensures Distance(vs[j].epoch, t) == Distance(vs[NearestIndex(vs, t)].epoch, t)
  {
  }

  /** closest_epoch: a linear scan keeping the best record so far under a
      `>=` comparison. Fails with ValueError on an empty list. */
  method ClosestEpoch(vs: seq<StateVector>, t: int) returns (r: Result<StateVector>)
    ensures vs == [] <==> r == Err(ValueError)
    ensures vs != [] ==> r == Ok(vs[NearestIndex(vs, t)])
    ensures r.Ok? ==> r.value in vs
    ensures r.Ok? ==> forall j :: 0 <= j < |vs| ==> Distance(r.value.epoch, t) <= Distance(vs[j].epoch, t)
  {
    if |vs| <= 0 {
      return Err(ValueError);
    }
    var closest := vs[0];
    ghost var k := 0;
    for i := 0 to |vs|
      invariant 0 <= k < |vs| && closest == vs[k]
      invariant i == 0 ==> k == 0
      invariant i > 0 ==> k == NearestIndex(vs[..i], t)
    {
      ghost var prefix := vs[..i + 1];
      assert prefix[..i] == vs[..i] && prefix[i] == vs[i];
      assert i > 0 ==> prefix[NearestIndex(vs[..i], t)] == vs[k];
      if Distance(closest.epoch, t) >= Distance(vs[i].epoch, t) {
        closest := vs[i];
        k := i;
      }
    }
    assert vs[..|vs|] == vs;
    return Ok(closest);
  }

  // ---------------------------------------------------------------------
  // Epoch range
  // ---------------------------------------------------------------------

  /** The three values epoch_range returns. */
  datatype Coverage = Coverage(first: int, last: int, span: int)

  /** The epochs of the list, in list order. */
  function Epochs(vs: seq<StateVector>): (es: seq<int>)
    ensures |es| == |vs|
    ensures forall i :: 0 <= i < |vs| ==> es[i] == vs[i].epoch
  {
    if vs == [] then [] else [vs[0].epoch] + Epochs(vs[1..])
  }

  /** The sum of the gaps between consecutive epochs. */
  function SumOfGaps(es: seq<int>): int
  {
    if |es| <= 1 then 0 else (es[1] - es[0]) + SumOfGaps(es[1..])
  }

  /** Epochs never decrease from one record to the next (the order of the feed). */
  predicate Chronological(es: seq<int>)
  {
    forall i :: 0 <= i < |es| - 1 ==> es[i] <= es[i + 1]
  }

  /** epoch_range: the first and last records' epochs, in list order, and
      their difference. Fails with ValueError on an empty list. */
  function EpochRange(vs: seq<StateVector>): (r: Result<Coverage>)
    ensures vs == [] <==> r == Err(ValueError)
    ensures vs != [] ==> r.Ok?
    ensures r.Ok? ==> r.value.first == vs[0].epoch && r.value.last == vs[|vs| - 1].epoch
    ensures r.Ok? ==> r.value.first + r.value.span == r.value.last
  {
    if |vs| <= 0 then Err(ValueError)
    else
      var first := vs[0].epoch;
      var last := vs[|vs| - 1].epoch;
      Ok(Coverage(first, last, last - first))
  }

  /** A one-record list covers no time. */
  lemma SingleRecordHasZeroSpan(v: StateVector)
    ensures EpochRange([v]) == Ok(Coverage(v.epoch, v.epoch, 0))
  {
  }

  /** The span is the total of the intervals between consecutive samples. */
  lemma {:induction false} SpanIsSumOfGaps(vs: seq<StateVector>)
    requires vs != []
    ensures EpochRange(vs).value.span == SumOfGaps(Epochs(vs))
  {
    GapsTelescope(Epochs(vs));
  }

  lemma {:induction false} GapsTelescope(es: seq<int>)
    requires es != []
    ensures SumOfGaps(es) == es[|es| - 1] - es[0]
  {
    if |es| > 1 {
      GapsTelescope(es[1..]);
    }
  }

  /** On a chronological list the first and last epochs are the least and
      the greatest, so the range needs no sorting there and the span is never
      negative. */
  lemma {:induction false} ChronologicalRangeBounds(vs: seq<StateVector>)
    requires vs != [] && Chronological(Epochs(vs))
    ensures forall j :: 0 <= j < |vs| ==>
      EpochRange(vs).value.first <= vs[j].epoch <= EpochRange(vs).value.last
    ensures EpochRange(vs).value.span >= 0
  {
    var es := Epochs(vs);
    forall j | 0 <= j < |vs|
      ensures es[0] <= es[j] <= es[|vs| - 1]
    {
      ChronologicalBetween(es, 0, j);
      ChronologicalBetween(es, j, |vs| - 1);
    }
  }

  lemma {:induction false} ChronologicalBetween(es: seq<int>, i: int, j: int)
    requires Chronological(es) && 0 <= i <= j < |es|
    ensures es[i] <= es[j]
    decreases j - i
  {
    if i < j {
      ChronologicalBetween(es, i + 1, j);
    }
  }

  /** The range takes list order as given: any list whose last record is
      earlier than its first gives a negative span. */
  lemma UnsortedRangeIsNegative(vs: seq<StateVector>)
    requires vs != [] && vs[|vs| - 1].epoch < vs[0].epoch
    ensures EpochRange(vs).Ok? && EpochRange(vs).value.span < 0
  {
  }

  // ---------------------------------------------------------------------
  // Offset/limit slice of the /epochs route
  // ---------------------------------------------------------------------

  /** The slice of get_epochs as written. An offset outside 1 .. |vs|-1 is a
      BadRequest. A limit that is not positive or that reaches the end of the
      list is replaced by |vs|, after which the copy loop reads past the end
      of the list: that branch always ends in an IndexError. Otherwise the
      result is the `limit` records starting at `offset`. */
  method SliceEpochs(vs: seq<StateVector>, limit: int, offset: int) returns (r: Result<seq<StateVector>>)
    ensures offset <= 0 || offset >= |vs| ==> r == Err(BadRequest)
    ensures 0 < offset < |vs| && (limit <= 0 || limit + offset >= |vs|) ==> r == Err(IndexError)
    ensures 0 < offset < |vs| && 0 < limit && limit + offset < |vs| ==>
      r == Ok(vs[offset..offset + limit]) && |r.value| == limit
  {
    var newVector := [];
    if offset <= 0 || offset >= |vs| {
      return Err(BadRequest);
    }
    var lim := limit;
    if lim <= 0 || lim + offset >= |vs| {
      lim := |vs|;
    }
    var i := offset;
    while i < offset + lim
      invariant offset <= i <= offset + lim && i <= |vs|
      invariant newVector == vs[offset..i]
    {
      if i >= |vs| {
        return Err(IndexError);
      }
      newVector := newVector + [vs[i]];
      i := i + 1;
    }
    return Ok(newVector);
  }

  /** The slice as evidently intended: the clamp returns everything from
      `offset` to the end of the list instead of reading past it. */
  method SliceEpochsIntended(vs: seq<StateVector>, limit: int, offset: int) returns (r: Result<seq<StateVector>>)
    ensures offset <= 0 || offset >= |vs| ==> r == Err(BadRequest)
    ensures 0 < offset < |vs| && (limit <= 0 || limit + offset >= |vs|) ==> r == Ok(vs[offset..])
    ensures 0 < offset < |vs| && 0 < limit && limit + offset < |vs| ==>
      r == Ok(vs[offset..offset + limit]) && |r.value| == limit
    ensures r.Ok? ==> 0 < |r.value| <= |vs| - offset
  {
    var newVector := [];
    if offset <= 0 || offset >= |vs| {
      return Err(BadRequest);
    }
    var lim := limit;
    if lim <= 0 || lim + offset >= |vs| {
      lim := |vs| - offset;
    }
    var i := offset;
    while i < offset + lim
      invariant offset <= i <= offset + lim <= |vs|
      invariant newVector == vs[offset..i]
    {
      newVector := newVector + [vs[i]];
      i := i + 1;
    }
    assert vs[offset..|vs|] == vs[offset..];
    return Ok(newVector);
  }

  /** On one concrete three-record list, with limit 0 and offset 1, the
      slice as written raises IndexError while the intended one returns the
      last two records. */
  method SliceClampCounterexample(a: StateVector, b: StateVector, c: StateVector)
    returns (asWritten: Result<seq<StateVector>>, intended: Result<seq<StateVector>>)
    ensures asWritten == Err(IndexError)
    ensures intended == Ok([b, c])
  {
    asWritten := SliceEpochs([a, b, c], 0, 1);
    intended := SliceEpochsIntended([a, b, c], 0, 1);
    assert [a, b, c][1..] == [b, c];
  }

  // ---------------------------------------------------------------------
  // Exact-epoch lookup of the /epochs/<epoch> route
  // ---------------------------------------------------------------------

  /** The nearest record has the requested epoch exactly when that epoch
      occurs, and it is then the last record carrying it. */
  lemma NearestMatchesExactlyWhenOccurs(vs: seq<StateVector>, epoch: int)
    requires vs != []
    ensures vs[NearestIndex(vs, epoch)].epoch == epoch <==> Occurs(vs, epoch)
    ensures Occurs(vs, epoch) ==>
      forall j :: NearestIndex(vs, epoch) < j < |vs| ==> vs[j].epoch != epoch
  {
  }

  /** get_specific_epoch after the epoch has been parsed: the nearest record,
      which must carry the requested epoch exactly, else BadRequest. An empty
      list fails inside closest_epoch with ValueError. */
  method SpecificEpoch(vs: seq<StateVector>, epoch: int) returns (r: Result<StateVector>)
    ensures vs == [] ==> r == Err(ValueError)
    ensures vs != [] && !Occurs(vs, epoch) ==> r == Err(BadRequest)
    ensures Occurs(vs, epoch) ==> r == Ok(vs[NearestIndex(vs, epoch)])
    ensures r.Ok? ==> r.value in vs && r.value.epoch == epoch
    ensures Occurs(vs, epoch) ==>
      forall j :: NearestIndex(vs, epoch) < j < |vs| ==> vs[j].epoch != epoch
  {
    var epochVector := ClosestEpoch(vs, epoch);
    if epochVector.Err? {
      return epochVector;
    }
    NearestMatchesExactlyWhenOccurs(vs, epoch);
    if epochVector.value.epoch != epoch {
      return Err(BadRequest);
    }
    return epochVector;
  }
}

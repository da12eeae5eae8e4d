# ISS tracker query layer

A Dafny model of the query layer of the ISS tracker service. The service reads
a list of orbital state-vector records, each stamped with an epoch, and answers
four kinds of question about that list:

- which record is nearest to a given time (`closest_epoch`);
- which time span the list covers (`epoch_range`);
- which records fall in an offset/limit window (the slice in the `/epochs` route);
- which record has exactly a requested epoch (the lookup in the `/epochs/<epoch>` route).

The model works on an explicit record list and an explicit target time. An
epoch is an integer count of microseconds. Python `datetime` subtraction and
`abs` on a `timedelta` are exact at that resolution, so integer arithmetic
models them exactly. The six position and velocity components are carried in
the record unchanged and are never computed on. Exceptions become values of
`Result`: `ValueError`, `BadRequest` and `IndexError`.

Files:

- `records.dfy` (module `Records`): the record datatype, the error outcomes and the distance `abs(epoch - t)`.
- `iss_tracker.dfy` (module `IssTracker`): the four operations and the lemmas about them.

Where the code and the service's documented behaviour disagree, the model follows the code:

- Ties in `closest_epoch`: the update test is `>=`, so among equally near records the *last* one wins. The documented behaviour says the earliest one wins.
- `epoch_range`: takes the first and last records in list order and does not sort. The documented behaviour says it takes the minimum and the maximum after sorting. `ChronologicalRangeBounds` shows that both readings agree on a chronological list. They differ whenever some epoch lies outside [first, last]. `UnsortedRangeIsNegative` covers one such case: a last epoch earlier than the first gives a negative span.
- The `/epochs` clamp branch: the documented behaviour says it returns the records from `offset` to the end. The code raises `IndexError` instead (see Findings).
- An empty list given to the slice: the documented behaviour names a separate OutOfRange failure. In the code, the `offset >= len` test rejects it as `BadRequest`.

## Model

| member | source | states |
|---|---|---|
| `IssTracker.NearestIndex` | iss_tracker.py:70-73 | The index the scan settles on is nearest to t: no record is closer. It is also the last such index: every later record is strictly farther. |
| `IssTracker.LastNearestIsUnique` | iss_tracker.py:70-73 | Being nearest-and-last pins down one index, so the record returned is fully determined. |
| `IssTracker.TieGoesToLaterRecord` | iss_tracker.py:72 | On any list, every record as near to t as any other sits at or before the chosen one, at the same distance: ties go to the later record. |
| `IssTracker.ClosestEpoch` | iss_tracker.py:59-75 | Fails with ValueError exactly when the list is empty. Otherwise it returns a record of the list that is no farther from t than any record. That record is the last of the nearest ones. |
| `IssTracker.EpochRange` | iss_tracker.py:77-91 | Fails with ValueError exactly when the list is empty, and always succeeds otherwise. It then gives the first and the last record's epoch in list order, with span = last − first. |
| `IssTracker.SingleRecordHasZeroSpan` | iss_tracker.py:87-91 | A one-record list gives that record's epoch as first and as last, with a zero span. |
| `IssTracker.SpanIsSumOfGaps` | iss_tracker.py:87-91 | A reformulation, not something the source states: the span (a single subtraction in the source) equals the sum of the intervals between consecutive records. |
| `IssTracker.ChronologicalRangeBounds` | iss_tracker.py:87-88 | On a list whose epochs never decrease, every epoch lies between first and last, and the span is not negative. |
| `IssTracker.UnsortedRangeIsNegative` | iss_tracker.py:87-91 | The list is not sorted first: every list whose last epoch is earlier than its first gives a successful range with a negative span. |
| `IssTracker.SliceEpochs` | iss_tracker.py:139-148 | An offset ≤ 0 or ≥ len gives BadRequest. This includes offset 0 and the test's offset −1. A limit ≤ 0, or one with offset + limit ≥ len, always ends in IndexError. Otherwise the result is exactly `limit` records, equal in order to list[offset .. offset+limit). |
| `IssTracker.SliceEpochsIntended` | iss_tracker.py:139-148 | The same bounds and BadRequest cases. The clamp branch returns list[offset ..] to the end. Every success is a non-empty run of at most len − offset records. |
| `IssTracker.SliceClampCounterexample` | iss_tracker.py:143-147 | On a three-record list with limit 0 and offset 1, the slice as written gives IndexError. The intended slice gives the last two records. |
| `IssTracker.NearestMatchesExactlyWhenOccurs` | iss_tracker.py:159-160 | The nearest record carries the requested epoch exactly when that epoch occurs in the list. It is then the last record carrying it. |
| `IssTracker.SpecificEpoch` | iss_tracker.py:159-163 | An empty list fails with ValueError (inside closest_epoch). An epoch that occurs gives the nearest record, which carries exactly that epoch and is its last occurrence. An epoch that does not occur gives BadRequest. |

## Left out

- `process_data` (iss_tracker.py:29-56): the HTTP fetch, the XML parsing and the `strptime` epoch parsing are I/O and library calls. The record list is a parameter instead.
- `speed` and `avg_speed` (iss_tracker.py:16-27, 93-108): floating-point square roots and averaging, with no integer content beyond an empty-list guard.
- Flask routing, the `int(...)` parsing of the `limit` and `offset` query arguments, the `strptime` of the path epoch, and the mapping of exceptions to HTTP status codes (iss_tracker.py:112-136, 150-158, 165-184). This is HTTP glue. Both route slices are modelled from the point where the integers and the record list are in hand.
- `main`, argument parsing, `print` and logging (iss_tracker.py:67, 74, 84, 89, 140, 161, 186-210): output only.
- The default target time `datetime.now()` (iss_tracker.py:59) is evaluated once at import. The clock is not modelled; the target time is an explicit parameter.
- The Redis-backed store, `get_iss_data` and `compute_location_astropy`: the tests import them, but they are not part of this model. Geolocation would be a call into an external library.
- That the lookup leaves the list unchanged is not stated as a separate contract. The list is a Dafny `seq`, which is a value, so no operation of the model can modify it.

## Findings

| source | as written | input that shows it | evidently intended | confidence | as-written member | corrected member |
|---|---|---|---|---|---|---|
| iss_tracker.py:143-147 | When `limit <= 0` or `limit + offset >= len`, `limit` is set to `len` and the loop reads indices `offset .. offset+len-1`. Because `offset >= 1`, that range always runs past the end, so the branch always raises IndexError. | three records, `limit=0`, `offset=1` | clamp to the end of the list (`limit = len - offset`), returning list[offset ..] | high; not executed | `IssTracker.SliceEpochs` | `IssTracker.SliceEpochsIntended` |

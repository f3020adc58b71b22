/** Gap filling for the report charts (app.py, `_fill_gaps`): a sparse
    per-day series becomes a dense one with exactly one record per day from
    `start` to `end` inclusive, missing days at 0. */
module GapFilling {
  import opened Daily

  /** True when no record after index `i` has the date of record `i`: the
      record whose value a dict built from `daily` keeps. */
  predicate LastFor(daily: seq<DailyValue>, i: int)
    requires 0 <= i < |daily|
  {
    forall j :: i < j < |daily| ==> daily[j].date != daily[i].date
  }

  /** `{d["date"]: d["value"] for d in daily}`: a later record for the same
      date overwrites an earlier one. */
  function Existing(daily: seq<DailyValue>): (m: map<int, int>)
    ensures forall d :: d in m <==> HasDate(daily, d)
    ensures forall i :: 0 <= i < |daily| ==> daily[i].date in m
    ensures forall i :: 0 <= i < |daily| && LastFor(daily, i) ==> m[daily[i].date] == daily[i].value
    decreases |daily|
  {
    if daily == [] then map[]
    else
      var init, last := daily[..|daily| - 1], daily[|daily| - 1];
      AppendRecord(init, last);
      assert daily == init + [last];
      Existing(init)[last.date := last.value]
  }

  /** What appending a record does to the dates present and to which record
      is the last for its date. */
  lemma AppendRecord(init: seq<DailyValue>, last: DailyValue)
    ensures forall d :: HasDate(init + [last], d) <==> HasDate(init, d) || d == last.date
    ensures forall i :: 0 <= i < |init| && LastFor(init + [last], i) ==> LastFor(init, i)
    ensures forall i :: 0 <= i < |init| ==> (init + [last])[i] == init[i]
  {
    var daily := init + [last];
    forall d | HasDate(init, d) ensures HasDate(daily, d) {
      var i :| 0 <= i < |init| && init[i].date == d;
      assert daily[i] == init[i];
    }
    assert daily[|init|] == last;
    forall d | HasDate(daily, d) && d != last.date ensures HasDate(init, d) {
      var i :| 0 <= i < |daily| && daily[i].date == d;
      assert i < |init| && daily[i] == init[i];
    }
    forall i | 0 <= i < |init| && LastFor(daily, i) ensures LastFor(init, i) {
      forall j | i < j < |init| ensures init[j].date != init[i].date {
        assert daily[j] == init[j] && daily[i] == init[i];
      }
    }
  }

  /** `existing.get(d, 0)`: the value of the last record dated `d`, or 0 when
      there is none. */
  function ValueOn(daily: seq<DailyValue>, d: int): (v: int)
    ensures !HasDate(daily, d) ==> v == 0
    ensures forall i :: 0 <= i < |daily| && daily[i].date == d && LastFor(daily, i) ==> v == daily[i].value
  {
    var existing := Existing(daily);
    if d in existing then existing[d] else 0
  }

  /** The `while cur <= end` loop: one record per day from `start` to `end`,
      in order, each carrying the input's value for that day or 0. */
  method FillGaps(daily: seq<DailyValue>, start: int, end: int) returns (filled: seq<DailyValue>)
    ensures |filled| == if start <= end then end - start + 1 else 0
    ensures forall i :: 0 <= i < |filled| ==> filled[i].date == start + i
    ensures Chronological(filled)
    ensures forall d :: HasDate(filled, d) <==> start <= d <= end
    ensures forall i :: 0 <= i < |filled| ==> filled[i].value == ValueOn(daily, filled[i].date)
  {
    var existing := Existing(daily);
    filled := [];
    var cur := start;
    while cur <= end
      invariant start <= cur <= if start <= end then end + 1 else start
      invariant |filled| == cur - start
      invariant forall i :: 0 <= i < |filled| ==> filled[i].date == start + i
      invariant forall i :: 0 <= i < |filled| ==> filled[i].value == ValueOn(daily, filled[i].date)
      decreases end - cur
    {
      filled := filled + [DailyValue(cur, if cur in existing then existing[cur] else 0)];
      cur := cur + 1;
    }
    forall d | start <= d <= end ensures HasDate(filled, d) {
      assert filled[d - start].date == d;
    }
  }
}

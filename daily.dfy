/** A per-day series as the report endpoints exchange it: a list of
    `{"date", "value"}` records. A calendar date is modelled by its integer
    day index since the Unix epoch (UTC), so ordering ISO `YYYY-MM-DD`
    strings is ordering day indices. */
module Daily {

  datatype DailyValue = DailyValue(date: int, value: int)

  predicate StrictlyIncreasing(s: seq<int>) {
    forall i, j :: 0 <= i < j < |s| ==> s[i] < s[j]
  }

  /** Dates strictly ascending: chronological, and each date at most once. */
  predicate Chronological(daily: seq<DailyValue>) {
    forall i, j :: 0 <= i < j < |daily| ==> daily[i].date < daily[j].date
  }

  /** True when `d` is the date of some record of `daily`. */
  predicate HasDate(daily: seq<DailyValue>, d: int) {
    exists i :: 0 <= i < |daily| && daily[i].date == d
  }

  lemma {:induction false} LeastExists(days: set<int>)
    requires days != {}
    ensures exists m :: m in days && forall d :: d in days ==> m <= d
  {
    assert exists y :: y in days by {
      if forall y :: y !in days { assert false; }
    }
    var x :| x in days;
    if days != {x} {
      var rest := days - {x};
      LeastExists(rest);
      var m :| m in rest && forall d :: d in rest ==> m <= d;
      var least := if x < m then x else m;
      forall d | d in days ensures least <= d {
        if d != x { assert d in rest; }
      }
      assert least in days && forall d :: d in days ==> least <= d;
    } else {
      assert x in days && forall d :: d in days ==> x <= d;
    }
  }

  /** The earliest day of a non-empty set of days. */
  function Least(days: set<int>): (m: int)
    requires days != {}
    ensures m in days && forall d :: d in days ==> m <= d
  {
    LeastExists(days);
    var m :| m in days && forall d :: d in days ==> m <= d;
    m
  }

  /** Python's `sorted` over a set of day keys: every day once, ascending. */
  function SortedDays(days: set<int>): (r: seq<int>)
    ensures StrictlyIncreasing(r)
    ensures forall d :: d in r <==> d in days
    ensures |r| == |days|
    decreases days
  {
    if days == {} then []
    else
      var m := Least(days);
      [m] + SortedDays(days - {m})
  }

  /** One record per day of `days`, carrying that day's total. */
  function Records(days: seq<int>, totals: map<int, int>): (daily: seq<DailyValue>)
    requires forall i :: 0 <= i < |days| ==> days[i] in totals
    ensures |daily| == |days|
    ensures forall i :: 0 <= i < |days| ==> daily[i] == DailyValue(days[i], totals[days[i]])
  {
    if days == [] then [] else [DailyValue(days[0], totals[days[0]])] + Records(days[1..], totals)
  }

  /** `[{"date": d, "value": totals[d]} for d in sorted(totals)]`. */
  function FromTotals(totals: map<int, int>): (daily: seq<DailyValue>)
    ensures Chronological(daily)
    ensures forall d :: HasDate(daily, d) <==> d in totals
    ensures forall i :: 0 <= i < |daily| ==> daily[i].date in totals && daily[i].value == totals[daily[i].date]
  {
    var days := SortedDays(totals.Keys);
    SortedRecords(days, totals);
    Records(days, totals)
  }

  /** The records of strictly increasing days present in `totals` are
      chronological, carry those totals, and have exactly those dates. */
  lemma SortedRecords(days: seq<int>, totals: map<int, int>)
    requires StrictlyIncreasing(days)
    requires forall d :: d in days <==> d in totals
    ensures forall i :: 0 <= i < |days| ==> days[i] in totals
    ensures Chronological(Records(days, totals))
    ensures forall d :: HasDate(Records(days, totals), d) <==> d in totals
    ensures forall i :: 0 <= i < |days| ==> Records(days, totals)[i].date in totals
    ensures forall i :: 0 <= i < |days| ==> Records(days, totals)[i].value == totals[Records(days, totals)[i].date]
  {
    assert forall i :: 0 <= i < |days| ==> days[i] in totals by {
      forall i | 0 <= i < |days| ensures days[i] in totals {
        assert days[i] in days;
      }
    }
    var daily := Records(days, totals);
    forall i, j | 0 <= i < j < |daily| ensures daily[i].date < daily[j].date {
      assert daily[i].date == days[i] && daily[j].date == days[j];
    }
    forall d | d in totals ensures HasDate(daily, d) {
      assert d in days;
      var i :| 0 <= i < |days| && days[i] == d;
      assert daily[i].date == d;
    }
  }
}

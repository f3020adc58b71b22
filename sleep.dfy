/** Per-day sleep totals: each sleep session, a half-open interval of epoch
    milliseconds, is cut at every UTC midnight and the whole minutes of each
    piece are credited to the day the piece lies in (app.py,
    `_daily_sleep_minutes`, the bucketing after the API call). */
module SleepBuckets {
  import opened Daily

  const MsPerDay: int := 86_400_000
  const MsPerMinute: int := 60_000

  /** A sleep session as reported by the fitness API: `[startMs, endMs)`. */
  datatype SleepSession = SleepSession(startMs: int, endMs: int)

  /** One piece `[from, to)` of a session, as the bucketing loop cuts it. */
  datatype Segment = Segment(from: int, to: int)

  /** The first instant of day `d`. */
  function Midnight(d: int): int {
    d * MsPerDay
  }

  /** The UTC calendar day (as a day index) that contains instant `ms`. */
  function DayOf(ms: int): (d: int)
    ensures Midnight(d) <= ms < Midnight(d + 1)
  {
    ms / MsPerDay
  }

  /** Where the piece starting at `cur` ends: at the session's end or at the
      next UTC midnight, whichever comes first. */
  function SegmentEnd(cur: int, sEnd: int): (e: int)
    requires cur < sEnd
    ensures cur < e <= sEnd
    ensures DayOf(e - 1) == DayOf(cur)
    ensures e == sEnd || e == Midnight(DayOf(cur) + 1)
  {
    var nextMidnight := Midnight(DayOf(cur) + 1);
    if sEnd < nextMidnight then sEnd else nextMidnight
  }

  function Last(segs: seq<Segment>): Segment
    requires segs != []
  {
    segs[|segs| - 1]
  }

  /** Piece `i + 1` starts where piece `i` ends, on the next day. */
  predicate Consecutive(segs: seq<Segment>, i: int)
    requires 0 <= i < |segs| - 1
  {
    segs[i].to == segs[i + 1].from && DayOf(segs[i + 1].from) == DayOf(segs[i].from) + 1
  }

  /** The pieces the loop cuts `[cur, sEnd)` into, each inside one UTC day. */
  function Segments(cur: int, sEnd: int): (segs: seq<Segment>)
    ensures segs == [] <==> sEnd <= cur
    ensures forall i :: 0 <= i < |segs| ==>
      cur <= segs[i].from < segs[i].to <= sEnd && DayOf(segs[i].from) == DayOf(segs[i].to - 1)
    decreases sEnd - cur
  {
    if cur < sEnd then
      var e := SegmentEnd(cur, sEnd);
      [Segment(cur, e)] + Segments(e, sEnd)
    else
      []
  }

  /** A piece that stops before the session's end stops at a midnight, so
      the next piece starts on the next day. */
  lemma NextPieceNextDay(cur: int, sEnd: int)
    requires cur < sEnd && SegmentEnd(cur, sEnd) < sEnd
    ensures DayOf(SegmentEnd(cur, sEnd)) == DayOf(cur) + 1
  {
  }

  /** The pieces start at `cur` and end at `sEnd`. */
  lemma {:induction false} SegmentsEndpoints(cur: int, sEnd: int)
    ensures var segs := Segments(cur, sEnd);
      segs != [] ==> segs[0].from == cur && Last(segs).to == sEnd
    decreases sEnd - cur
  {
    if cur < sEnd {
      var e := SegmentEnd(cur, sEnd);
      SegmentsEndpoints(e, sEnd);
      var segs, rest := Segments(cur, sEnd), Segments(e, sEnd);
      assert segs == [Segment(cur, e)] + rest;
      if rest != [] {
        assert Last(segs) == Last(rest);
      }
    }
  }

  /** Each piece starts where the previous one ends, on the next day. */
  lemma SegmentsConsecutive(cur: int, sEnd: int)
    ensures forall i :: 0 <= i < |Segments(cur, sEnd)| - 1 ==> Consecutive(Segments(cur, sEnd), i)
  {
    forall i | 0 <= i < |Segments(cur, sEnd)| - 1 ensures Consecutive(Segments(cur, sEnd), i) {
      ConsecutiveAt(cur, sEnd, i);
    }
  }

  lemma {:induction false} ConsecutiveAt(cur: int, sEnd: int, i: nat)
    requires i < |Segments(cur, sEnd)| - 1
    ensures Consecutive(Segments(cur, sEnd), i)
    decreases i
  {
    var e := SegmentEnd(cur, sEnd);
    var segs, rest := Segments(cur, sEnd), Segments(e, sEnd);
    assert segs == [Segment(cur, e)] + rest;
    if i == 0 {
      SegmentsEndpoints(e, sEnd);
      NextPieceNextDay(cur, sEnd);
    } else {
      ConsecutiveAt(e, sEnd, i - 1);
      assert segs[i] == rest[i - 1] && segs[i + 1] == rest[i];
    }
  }

  /** Distinct pieces never overlap: an earlier piece ends before a later
      one starts. */
  lemma {:induction false} SegmentsOrdered(cur: int, sEnd: int)
    ensures forall i, j :: 0 <= i < j < |Segments(cur, sEnd)| ==>
      Segments(cur, sEnd)[i].to <= Segments(cur, sEnd)[j].from
    decreases sEnd - cur
  {
    if cur < sEnd {
      var e := SegmentEnd(cur, sEnd);
      SegmentsOrdered(e, sEnd);
      var segs, rest := Segments(cur, sEnd), Segments(e, sEnd);
      assert segs == [Segment(cur, e)] + rest;
      forall i, j | 0 <= i < j < |segs| ensures segs[i].to <= segs[j].from {
        assert segs[j] == rest[j - 1];
        if i > 0 { assert segs[i] == rest[i - 1]; }
      }
    }
  }

  predicate Within(seg: Segment, t: int) {
    seg.from <= t < seg.to
  }

  /** Every instant of `[cur, sEnd)` lies in exactly one piece. */
  lemma SegmentsCover(cur: int, sEnd: int, t: int)
    requires cur <= t < sEnd
    ensures exists i :: 0 <= i < |Segments(cur, sEnd)| && Within(Segments(cur, sEnd)[i], t)
    ensures forall i, j :: 0 <= i < j < |Segments(cur, sEnd)| ==>
      !(Within(Segments(cur, sEnd)[i], t) && Within(Segments(cur, sEnd)[j], t))
  {
    var k := PieceAt(cur, sEnd, t);
    SegmentsOrdered(cur, sEnd);
  }

  /** The index of the piece that holds instant `t`. */
  lemma {:induction false} PieceAt(cur: int, sEnd: int, t: int) returns (k: nat)
    requires cur <= t < sEnd
    ensures k < |Segments(cur, sEnd)| && Within(Segments(cur, sEnd)[k], t)
    decreases sEnd - cur
  {
    var segs := Segments(cur, sEnd);
    var e := SegmentEnd(cur, sEnd);
    if t < e {
      k := 0;
    } else {
      var rest := Segments(e, sEnd);
      var j := PieceAt(e, sEnd, t);
      assert segs == [Segment(cur, e)] + rest;
      assert segs[j + 1] == rest[j];
      k := j + 1;
    }
  }

  /** Milliseconds of `[a, b)` that fall on day `d`. */
  function Overlap(a: int, b: int, d: int): nat {
    var lo := if a < Midnight(d) then Midnight(d) else a;
    var hi := if b < Midnight(d + 1) then b else Midnight(d + 1);
    if lo < hi then hi - lo else 0
  }

  function SessionOverlap(s: SleepSession, d: int): nat {
    Overlap(s.startMs, s.endMs, d)
  }

  /** Each piece is exactly the part of the session on its day, so the
      minutes credited for a day are `Overlap / MsPerMinute`. */
  lemma {:induction false} SegmentsMeasureOverlap(a: int, cur: int, sEnd: int)
    requires a <= cur && (cur == a || cur == Midnight(DayOf(cur)))
    ensures forall i :: 0 <= i < |Segments(cur, sEnd)| ==>
      Segments(cur, sEnd)[i].to - Segments(cur, sEnd)[i].from
        == Overlap(a, sEnd, DayOf(Segments(cur, sEnd)[i].from))
    decreases sEnd - cur
  {
    if cur < sEnd {
      var e := SegmentEnd(cur, sEnd);
      if e < sEnd {
        assert DayOf(e) == DayOf(cur) + 1;
        SegmentsMeasureOverlap(a, e, sEnd);
      }
      var segs, rest := Segments(cur, sEnd), Segments(e, sEnd);
      assert segs == [Segment(cur, e)] + rest;
      forall i | 0 <= i < |segs|
        ensures segs[i].to - segs[i].from == Overlap(a, sEnd, DayOf(segs[i].from))
      {
        if i > 0 { assert segs[i] == rest[i - 1]; }
      }
    }
  }

  /** Adding the piece `[cur, e)` of day `DayOf(cur)` grows that day's
      overlap by its length and leaves every other day alone. */
  lemma OverlapStep(a: int, cur: int, e: int, d: int)
    requires a <= cur < e <= Midnight(DayOf(cur) + 1)
    requires cur == a || cur == Midnight(DayOf(cur))
    ensures Overlap(a, e, d) == if d == DayOf(cur) then Overlap(a, cur, d) + (e - cur) else Overlap(a, cur, d)
    ensures Overlap(a, cur, DayOf(cur)) == 0
  {
    var k := DayOf(cur);
    if d < k {
      assert Midnight(d + 1) <= Midnight(k);
    } else if d > k {
      assert Midnight(k + 1) <= Midnight(d);
    }
  }

  /** When the walk stops, it has covered the whole session (or nothing, for
      a session that ends no later than it starts). */
  lemma WholeSession(s: SleepSession, cur: int, d: int)
    requires cur == if s.startMs < s.endMs then s.endMs else s.startMs
    ensures Overlap(s.startMs, cur, d) == SessionOverlap(s, d)
  {
  }

  /** Minutes of sleep credited to day `d` by `sessions`. */
  function MinutesOn(sessions: seq<SleepSession>, d: int): nat
    decreases |sessions|
  {
    if sessions == [] then 0
    else MinutesOn(sessions[..|sessions| - 1], d) + SessionOverlap(sessions[|sessions| - 1], d) / MsPerMinute
  }

  /** Some session has a non-empty piece on day `d`, so the day has a total. */
  predicate Asleep(sessions: seq<SleepSession>, d: int) {
    exists i :: 0 <= i < |sessions| && SessionOverlap(sessions[i], d) > 0
  }

  /** A day on which no session has a piece is credited no minutes. */
  lemma {:induction false} NoSleepNoMinutes(sessions: seq<SleepSession>, d: int)
    requires !Asleep(sessions, d)
    ensures MinutesOn(sessions, d) == 0
    decreases |sessions|
  {
    if sessions != [] {
      var init := sessions[..|sessions| - 1];
      forall i | 0 <= i < |init| ensures SessionOverlap(init[i], d) == 0 {
        assert init[i] == sessions[i];
      }
      NoSleepNoMinutes(init, d);
      assert SessionOverlap(sessions[|sessions| - 1], d) == 0;
    }
  }

  lemma AppendSession(sessions: seq<SleepSession>, s: SleepSession, d: int)
    ensures MinutesOn(sessions + [s], d) == MinutesOn(sessions, d) + SessionOverlap(s, d) / MsPerMinute
    ensures Asleep(sessions + [s], d) <==> Asleep(sessions, d) || SessionOverlap(s, d) > 0
  {
    var all := sessions + [s];
    assert all[..|all| - 1] == sessions;
    if Asleep(sessions, d) {
      var i :| 0 <= i < |sessions| && SessionOverlap(sessions[i], d) > 0;
      assert all[i] == sessions[i];
    }
    if SessionOverlap(s, d) > 0 {
      assert all[|sessions|] == s;
    }
    if Asleep(all, d) && SessionOverlap(s, d) == 0 {
      var i :| 0 <= i < |all| && SessionOverlap(all[i], d) > 0;
      assert i < |sessions| && all[i] == sessions[i];
    }
  }

  /** A session whose end is not after its start credits nothing. */
  lemma InvertedSessionIgnored(sessions: seq<SleepSession>, s: SleepSession, d: int)
    requires s.endMs <= s.startMs
    ensures MinutesOn(sessions + [s], d) == MinutesOn(sessions, d)
    ensures Asleep(sessions + [s], d) <==> Asleep(sessions, d)
  {
    AppendSession(sessions, s, d);
  }

  /** No session credits a day with more than the 1440 minutes of a day. */
  lemma {:induction false} MinutesOnBound(sessions: seq<SleepSession>, d: int)
    ensures MinutesOn(sessions, d) <= 1440 * |sessions|
    decreases |sessions|
  {
    if sessions != [] {
      var s := sessions[|sessions| - 1];
      MinutesOnBound(sessions[..|sessions| - 1], d);
      assert SessionOverlap(s, d) <= Midnight(d + 1) - Midnight(d);
    }
  }

  /** `totals` holds the minutes of the finished sessions `done` plus those
      of the part `[a, b)` already walked of the current session, and has a
      key exactly for the days on which either has sleep. */
  ghost predicate Credited(totals: map<int, int>, done: seq<SleepSession>, a: int, b: int) {
    (forall d :: d in totals <==> Asleep(done, d) || Overlap(a, b, d) > 0) &&
    (forall d :: d in totals ==> totals[d] == MinutesOn(done, d) + Overlap(a, b, d) / MsPerMinute)
  }

  /** Crediting the piece `[cur, e)` to its day extends the walked part of
      the session to `[a, e)`. */
  lemma CreditPiece(totals: map<int, int>, done: seq<SleepSession>, a: int, cur: int, e: int)
    requires a <= cur < e <= Midnight(DayOf(cur) + 1)
    requires cur == a || cur == Midnight(DayOf(cur))
    requires Credited(totals, done, a, cur)
    ensures Credited(totals[DayOf(cur) := (if DayOf(cur) in totals then totals[DayOf(cur)] else 0) + (e - cur) / MsPerMinute],
                     done, a, e)
  {
    var day := DayOf(cur);
    if day !in totals {
      NoSleepNoMinutes(done, day);
    }
    forall d
      ensures Overlap(a, e, d) == if d == day then e - cur else Overlap(a, cur, d)
    {
      OverlapStep(a, cur, e, d);
    }
  }

  /** Once the whole session `s` has been walked, it counts as finished and
      the next session's walk can begin at any instant `b`. */
  lemma CreditSession(totals: map<int, int>, done: seq<SleepSession>, s: SleepSession, cur: int, b: int)
    requires cur == if s.startMs < s.endMs then s.endMs else s.startMs
    requires Credited(totals, done, s.startMs, cur)
    ensures Credited(totals, done + [s], b, b)
  {
    forall d
      ensures MinutesOn(done + [s], d) == MinutesOn(done, d) + Overlap(s.startMs, cur, d) / MsPerMinute
      ensures Asleep(done + [s], d) <==> Asleep(done, d) || Overlap(s.startMs, cur, d) > 0
      ensures Overlap(b, b, d) == 0
    {
      WholeSession(s, cur, d);
      AppendSession(done, s, d);
    }
  }

  /** Between walks, `totals` holds exactly the finished sessions' minutes. */
  lemma CreditedIdle(totals: map<int, int>, done: seq<SleepSession>, b: int)
    ensures Credited(totals, done, b, b) <==>
            (forall d :: d in totals <==> Asleep(done, d)) &&
            (forall d :: d in totals ==> totals[d] == MinutesOn(done, d))
  {
    assert forall d :: Overlap(b, b, d) == 0;
  }

  /** One turn of the walk: crediting the piece that starts at `cur`
      extends the walked part to the piece's end, where the next piece
      starts, at midnight or at the end of the session. */
  lemma CreditStep(totals: map<int, int>, done: seq<SleepSession>, s: SleepSession, cur: int)
    requires s.startMs <= cur < s.endMs
    requires cur == s.startMs || cur == Midnight(DayOf(cur))
    requires Credited(totals, done, s.startMs, cur)
    ensures var e := SegmentEnd(cur, s.endMs);
            var day := DayOf(cur);
            (e == s.endMs || e == Midnight(DayOf(e))) &&
            Credited(totals[day := (if day in totals then totals[day] else 0) + (e - cur) / MsPerMinute],
                     done, s.startMs, e)
  {
    CreditPiece(totals, done, s.startMs, cur, SegmentEnd(cur, s.endMs));
    PieceLands(cur, s.endMs);
  }

  /** Every piece ends at the session's end or at a midnight. */
  lemma PieceLands(cur: int, sEnd: int)
    requires cur < sEnd
    ensures var e := SegmentEnd(cur, sEnd); e == sEnd || e == Midnight(DayOf(e))
  {
    if SegmentEnd(cur, sEnd) < sEnd {
      NextPieceNextDay(cur, sEnd);
    }
  }

  /** `walked` are the pieces a walk from `start` has cut on its way to
      `cur`: each starts where the previous one ended and stops where
      `SegmentEnd` says. */
  ghost predicate Walked(walked: seq<Segment>, start: int, cur: int, sEnd: int)
    decreases |walked|
  {
    if walked == [] then cur == start
    else
      var p := walked[|walked| - 1];
      p.from < sEnd && p.to == SegmentEnd(p.from, sEnd) && p.to == cur &&
      Walked(walked[..|walked| - 1], start, p.from, sEnd)
  }

  /** One turn of the loop cuts off the next piece. */
  lemma WalkStep(walked: seq<Segment>, start: int, cur: int, sEnd: int)
    requires cur < sEnd && Walked(walked, start, cur, sEnd)
    ensures Walked(walked + [Segment(cur, SegmentEnd(cur, sEnd))], start, SegmentEnd(cur, sEnd), sEnd)
  {
    assert (walked + [Segment(cur, SegmentEnd(cur, sEnd))])[..|walked|] == walked;
  }

  /** The pieces walked so far, followed by the pieces of what is left, are
      the pieces of the whole interval. */
  lemma {:induction false} WalkedPrefix(walked: seq<Segment>, start: int, cur: int, sEnd: int)
    requires Walked(walked, start, cur, sEnd)
    ensures walked + Segments(cur, sEnd) == Segments(start, sEnd)
    decreases |walked|
  {
    if walked != [] {
      var p := walked[|walked| - 1];
      var before := walked[..|walked| - 1];
      WalkedPrefix(before, start, p.from, sEnd);
      assert Segments(p.from, sEnd) == [p] + Segments(cur, sEnd);
      assert walked == before + [p];
    }
  }

  /** A walk that has reached the end has cut every piece. */
  lemma WalkDone(walked: seq<Segment>, start: int, cur: int, sEnd: int)
    requires sEnd <= cur && Walked(walked, start, cur, sEnd)
    ensures walked == Segments(start, sEnd)
  {
    WalkedPrefix(walked, start, cur, sEnd);
    assert Segments(cur, sEnd) == [];
  }

  /** What holds at the head of the walk over session `s`: `cur` is the
      session's start, its end, or a midnight inside it; `totals` holds the
      finished sessions plus `[s.startMs, cur)`; `walked` are the pieces cut. */
  ghost predicate Walking(totals: map<int, int>, walked: seq<Segment>, done: seq<SleepSession>, s: SleepSession, cur: int) {
    s.startMs <= cur && (cur == s.startMs || cur <= s.endMs) &&
    (cur == s.startMs || cur == s.endMs || cur == Midnight(DayOf(cur))) &&
    Credited(totals, done, s.startMs, cur) &&
    Walked(walked, s.startMs, cur, s.endMs)
  }

  /** One turn of the loop: credit the piece at `cur` and step past it. */
  lemma WalkTurn(totals: map<int, int>, walked: seq<Segment>, done: seq<SleepSession>, s: SleepSession, cur: int)
    requires cur < s.endMs && Walking(totals, walked, done, s, cur)
    ensures var e := SegmentEnd(cur, s.endMs);
            var day := DayOf(cur);
            Walking(totals[day := (if day in totals then totals[day] else 0) + (e - cur) / MsPerMinute],
                    walked + [Segment(cur, e)], done, s, e)
  {
    CreditStep(totals, done, s, cur);
    WalkStep(walked, s.startMs, cur, s.endMs);
  }

  /** When the walk stops, the session has joined the finished ones and the
      pieces walked are all of its pieces. */
  lemma WalkEnd(totals: map<int, int>, walked: seq<Segment>, done: seq<SleepSession>, s: SleepSession, cur: int)
    requires s.endMs <= cur && Walking(totals, walked, done, s, cur)
    ensures forall d :: d in totals <==> Asleep(done + [s], d)
    ensures forall d :: d in totals ==> totals[d] == MinutesOn(done + [s], d)
    ensures walked == Segments(s.startMs, s.endMs)
  {
    WalkDone(walked, s.startMs, cur, s.endMs);
    CreditSession(totals, done, s, cur, 0);
    CreditedIdle(totals, done + [s], 0);
  }

  /** The inner `while cur < end` loop for one session `s`: walk `cur` from
      the session's start to its end one UTC day at a time, adding the whole
      minutes of each piece to that day's total. */
  method CreditWalk(totals: map<int, int>, done: seq<SleepSession>, s: SleepSession)
    returns (updated: map<int, int>, ghost walked: seq<Segment>)
    requires forall d :: d in totals <==> Asleep(done, d)
    requires forall d :: d in totals ==> totals[d] == MinutesOn(done, d)
    ensures forall d :: d in updated <==> Asleep(done + [s], d)
    ensures forall d :: d in updated ==> updated[d] == MinutesOn(done + [s], d)
    ensures walked == Segments(s.startMs, s.endMs)
  {
    updated := totals;
    walked := [];
    var cur := s.startMs;
    CreditedIdle(updated, done, cur);
    while cur < s.endMs
      invariant Walking(updated, walked, done, s, cur)
      decreases s.endMs - cur
    {
      var day := DayOf(cur);
      var segmentEnd := SegmentEnd(cur, s.endMs);
      var mins := (segmentEnd - cur) / MsPerMinute;
      WalkTurn(updated, walked, done, s, cur);
      updated := updated[day := (if day in updated then updated[day] else 0) + mins];
      walked := walked + [Segment(cur, segmentEnd)];
      cur := segmentEnd;
    }
    WalkEnd(updated, walked, done, s, cur);
  }

  /** The bucketing loop: credit every session in turn, then list the
      totals by ascending date. */
  method DailySleepMinutes(sessions: seq<SleepSession>) returns (daily: seq<DailyValue>)
    ensures Chronological(daily)
    ensures forall d :: HasDate(daily, d) <==> Asleep(sessions, d)
    ensures forall i :: 0 <= i < |daily| ==> daily[i].value == MinutesOn(sessions, daily[i].date)
  {
    var totals: map<int, int> := map[];
    for k := 0 to |sessions|
      invariant forall d :: d in totals <==> Asleep(sessions[..k], d)
      invariant forall d :: d in totals ==> totals[d] == MinutesOn(sessions[..k], d)
    {
      ghost var pieces;
      totals, pieces := CreditWalk(totals, sessions[..k], sessions[k]);
      assert sessions[..k + 1] == sessions[..k] + [sessions[k]];
    }
    assert sessions[..|sessions|] == sessions;
    daily := FromTotals(totals);
  }
}

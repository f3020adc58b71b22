# CLARA fitness reports: sleep buckets, gap filling, OAuth session and `.env` upsert in Dafny

This project models the four pieces of real logic in the CLARA fitness-report
backend and its Vellum setup script, and proves what they promise.

- **Sleep bucketing** (`_daily_sleep_minutes`, module `SleepBuckets`,
  `sleep.dfy`). Every sleep session `[start, end)` in epoch milliseconds is
  cut at each UTC midnight. The whole minutes of each piece are added to
  that day's total, and the totals are listed by ascending date. The outer
  `for s in sessions` loop is `DailySleepMinutes`. The inner
  `while cur < s_end` loop is `CreditWalk`. Both are proved against three
  reference functions:
  - `Overlap(a, b, d)`: the milliseconds of `[a, b)` on day `d`;
  - `MinutesOn(sessions, d)`: the sum, over the sessions, of each
    overlap divided by 60000;
  - `Asleep(sessions, d)`: some session has a non-empty piece on day `d`.

  `Segments` lists the pieces the loop cuts a session into. The lemmas
  beside it prove that the pieces partition the session. `CreditWalk`
  also returns, as a ghost result, the pieces its loop actually walked,
  and proves them equal to `Segments` of the session, so the partition
  facts are facts about the loop.
- **Daily series** (module `Daily`, `daily.dfy`). A series is a list of
  `{date, value}` records. A calendar date is its day index since the
  epoch, so sorting ISO `YYYY-MM-DD` strings is sorting integers.
  `FromTotals` is the closing comprehension
  `[{"date": d, "value": totals[d]} for d in sorted(totals)]`.
- **Gap filling** (`_fill_gaps`, module `GapFilling`, `fill_gaps.dfy`).
  The `while cur <= end` loop builds one record per day from `start` to
  `end`. Each record takes the input's value for that day (the last
  record wins, as in the dict comprehension) or 0.
- **OAuth session** (`authorize`, `oauth2callback`, `tokens`, `logout`,
  module `OAuthSession`, `oauth_session.dfy`). A `Session` class holds the
  Flask session as a string-keyed map. Each route is a method that updates
  it. The provider's consent URL, the state it issues and the outcome of
  the token exchange are parameters.
- **`.env` upsert** (`setup_vellum`, module `EnvUpsert`, `env_upsert.dfy`,
  over the Python string operations in module `Text`, `text.dfy`).
  - The entered key is stripped, and a blank key is refused before
    anything is written.
  - If `VELLUM_API_KEY` occurs anywhere in the file's text, the text is
    split into lines and the first line starting with `VELLUM_API_KEY=` is
    overwritten. The loop stops there, and the lines are joined again.
  - Otherwise the text gets a closing newline if it needs one, then the
    line `VELLUM_API_KEY=<key>` and a newline.

  The method `Upsert` is proved equal to the function `Upserted`. The
  lemmas state each branch line by line and prove idempotence.

What the OAuth code does, and so what the model does:

- The callback never removes `session["state"]` (app.py:189-196); only
  `logout` clears it (app.py:207). A later callback carrying the same
  state therefore passes the guard again, and if its exchange succeeds it
  overwrites the stored credentials (`ReplayAccepted`). A success needs a
  fresh authorization code: section 4.1.2 of RFC 6749 has the provider
  refuse a code that was already exchanged, so resending the very same
  callback URL fails at `fetch_token` with status 500 and leaves the
  credentials as they were.
- Scopes are never checked: `OAUTHLIB_RELAX_TOKEN_SCOPE` is set
  (app.py:52), and the callback stores whatever credentials the exchange
  returns.
- The credentials sit in Flask's signed, unencrypted session.
- A state mismatch is answered with status 400 (app.py:191), and a failed
  exchange raises, which Flask answers with status 500.

## Model

| member | source | states |
|---|---|---|
| SleepBuckets.DayOf | app.py:124 | the day index of an instant is the day whose midnight-to-midnight span holds it (`utcfromtimestamp(...).date()`) |
| SleepBuckets.SegmentEnd | app.py:125-129 | a piece ends strictly after `cur`, no later than the session's end, on the same UTC day as `cur`, and either at the session's end or at the next midnight |
| SleepBuckets.Segments | app.py:122-132 | the pieces are empty exactly for a session with `end <= start`; every piece is non-empty, lies inside the session and inside one UTC day |
| SleepBuckets.NextPieceNextDay | app.py:125-132 | a piece that stops before the session's end stops at midnight, so the next piece starts on the next day |
| SleepBuckets.SegmentsEndpoints | app.py:122-132 | the first piece starts at the session's start and the last one ends at its end |
| SleepBuckets.SegmentsConsecutive | app.py:122-132 | each piece starts exactly where the previous one ended, on the following day (no gap, no overlap) |
| SleepBuckets.ConsecutiveAt | app.py:122-132 | the same for one index: piece `i + 1` starts where piece `i` ends, one day later |
| SleepBuckets.SegmentsOrdered | app.py:122-132 | an earlier piece ends no later than any later one starts |
| SleepBuckets.SegmentsCover | app.py:122-132 | every instant of the session lies in exactly one piece (the pieces partition `[start, end)`) |
| SleepBuckets.PieceAt | app.py:122-132 | every instant of the session lies in some piece, whose index is returned |
| SleepBuckets.SegmentsMeasureOverlap | app.py:129-131 | each piece's length is exactly the session's overlap with that piece's day |
| SleepBuckets.OverlapStep | app.py:129-132 | adding the piece `[cur, e)` grows the overlap of `cur`'s day by `e - cur` and leaves every other day unchanged |
| SleepBuckets.WholeSession | app.py:123 | when the walk stops, it has covered the whole session, or nothing for an inverted one |
| SleepBuckets.NoSleepNoMinutes | app.py:130-131 | a day on which no session has a piece is credited zero minutes |
| SleepBuckets.AppendSession | app.py:120-132 | one more session adds its overlap's whole minutes to each day and makes a day present exactly when it overlaps it |
| SleepBuckets.InvertedSessionIgnored | app.py:123 | a session with `end <= start` changes neither any day's minutes nor which days are present |
| SleepBuckets.MinutesOnBound | app.py:130-131 | each session adds at most the 1440 minutes of one day to a day's total |
| SleepBuckets.CreditPiece | app.py:129-132 | crediting a piece to its day keeps `totals` equal to the finished sessions' minutes plus the walked part's minutes, keyed exactly by the days with sleep |
| SleepBuckets.CreditStep | app.py:124-132 | one turn of the inner loop keeps that accounting and lands `cur` on the session's end or on a midnight |
| SleepBuckets.CreditSession | app.py:120-132 | a fully walked session counts as finished |
| SleepBuckets.CreditedIdle | app.py:119-120 | between sessions, the accounting is exactly: days present iff asleep, each value the finished sessions' minutes |
| SleepBuckets.CreditWalk | app.py:122-132 | the inner loop turns the totals of the sessions before `s` into the totals including `s`: days present iff asleep, each value its whole minutes; the pieces it walks are exactly `Segments` of the session |
| SleepBuckets.PieceLands | app.py:125-132 | every piece ends at the session's end or at a UTC midnight, where the next turn starts |
| SleepBuckets.WalkStep | app.py:125-132 | one turn of the loop adds the piece `[cur, min(s_end, next_midnight))` to the pieces walked, each starting where the last ended |
| SleepBuckets.WalkedPrefix | app.py:122-132 | the pieces the loop has walked, followed by `Segments` of what is left, are `Segments` of the whole session |
| SleepBuckets.WalkDone | app.py:122-132 | once `cur` reaches `s_end`, the pieces walked are exactly `Segments` of the session |
| SleepBuckets.WalkTurn | app.py:125-132 | one turn of the loop keeps the walk's invariant: `cur` on the start, the end or a midnight, totals holding the finished sessions plus `[s_start, cur)`, pieces walked so far |
| SleepBuckets.WalkEnd | app.py:122-132 | when the loop stops, the totals include session `s` (days iff asleep, each value its whole minutes) and the pieces walked are `Segments` of it |
| SleepBuckets.DailySleepMinutes | app.py:119-137 | the result is chronological, lists a date iff some session has sleep on it, and gives each date the sum of the sessions' whole minutes on it |
| Daily.SortedDays | app.py:137 | `sorted` over the day keys: strictly ascending, holding each key once and nothing else |
| Daily.Records | app.py:137 | one record per listed day, in order, carrying that day's total |
| Daily.SortedRecords | app.py:137 | records of strictly ascending days are chronological, carry the totals and have exactly the keys' dates |
| Daily.FromTotals | app.py:137 | the comprehension's result is chronological, lists exactly the keys of `totals`, each with its total |
| GapFilling.Existing | app.py:144 | the dict has exactly the input's dates, and for each date the value of the last record with that date |
| GapFilling.AppendRecord | app.py:144 | appending a record adds its date, keeps the other records, and a record that is last for its date stays last when the new record is removed |
| GapFilling.ValueOn | app.py:144-149 | `existing.get(d, 0)` is 0 for a missing date and otherwise the last record's value |
| GapFilling.FillGaps | app.py:139-151 | exactly `end - start + 1` records when `start <= end` and none otherwise; the dates are `start, start + 1, ...`, so chronological, and cover exactly `[start, end]`; each value is the input's last value for that date or 0 |
| OAuthSession.Get | app.py:189 | `session.get(key)` is `None` exactly when the key is absent, and otherwise the stored value |
| OAuthSession.StateAccepted | app.py:189-191 | the callback's guard passes iff the session holds a non-empty state string and the request carries the same string |
| OAuthSession.Session.Authorize | app.py:175-184 | stores the issued state under `state`, changes nothing else, and redirects to the consent URL |
| OAuthSession.Session.OAuth2Callback | app.py:187-196 | a missing, empty or different state aborts with 400 and leaves the session unchanged; a failed exchange is a 500 with the session unchanged; otherwise the credentials are stored under `tokens` and the browser goes back to the front end |
| OAuthSession.Session.Tokens | app.py:199-202 | returns the stored credentials, or `null`, without changing the session |
| OAuthSession.Session.Logout | app.py:205-208 | empties the session and redirects to the front end |
| OAuthSession.LoginRoundTrip | app.py:175-202 | authorize followed by a callback that carries the issued state and succeeds makes `tokens` return the credentials |
| OAuthSession.ForgedCallback | app.py:187-191 | a callback with a state other than the issued one is refused and leaves the stored credentials unchanged |
| OAuthSession.LogoutClears | app.py:187-208 | after a logout the session is empty, so `tokens` returns `null` and any callback presenting it is refused |
| OAuthSession.ReplayAccepted | app.py:183-196 | the callback does not consume the state: a second callback with the same state passes the guard, and when its exchange succeeds (a fresh code) it overwrites the credentials |
| Text.NewlineAt | setup_vellum.py:45 | the position of the first newline, or the length when there is none |
| Text.BeforeNewline | setup_vellum.py:45 | no newline comes before the first one |
| Text.Split | setup_vellum.py:45 | `split('\n')` yields at least one piece |
| Text.SplitLines | setup_vellum.py:45 | no piece of a split holds a newline |
| Text.JoinSplit | setup_vellum.py:45-50 | `'\n'.join(s.split('\n')) == s` |
| Text.SplitJoin | setup_vellum.py:45-50 | splitting the join of newline-free lines gives those lines back |
| Text.SplitWhole | setup_vellum.py:45 | a string without a newline splits into itself alone |
| Text.SplitFirst | setup_vellum.py:45 | a string splits first at its first newline |
| Text.NewlineAtUnique | setup_vellum.py:45 | a newline with none before it is the first newline |
| Text.SplitConcat | setup_vellum.py:45-55 | splitting `a + "\n" + b` gives the lines of `a` followed by the lines of `b` |
| Text.FirstLine | setup_vellum.py:45 | a text holding a newline is its first line, the newline and the rest, and its lines are the first line followed by the rest's lines |
| Text.StartsWith | setup_vellum.py:47 | `line.startswith(prefix)` holds for the line itself and for the empty prefix, and never for a prefix longer than the line |
| Text.StartsWithAt | setup_vellum.py:47 | `startswith` holds iff the prefix is no longer than the line and agrees with it character by character |
| Text.Contains | setup_vellum.py:43 | `t in s` holds for every prefix of `s` (the empty string included) and never for a string longer than `s` |
| Text.ContainsInPrefix | setup_vellum.py:43 | an occurrence in a prefix is an occurrence in the whole text |
| Text.Join | setup_vellum.py:50 | `'\n'.join(lines)` starts with the first line, followed by a newline when more lines come |
| Text.JoinOffset | setup_vellum.py:50 | every line of a join occurs in the joined text at some offset |
| Text.JoinContains | setup_vellum.py:50 | a join contains whatever one of its lines starts with |
| Text.IsSpace | setup_vellum.py:33 | Python's whitespace set for `strip()`: among ASCII exactly space, TAB to CR and FS to US; nothing above U+3000 |
| Text.StripStart | setup_vellum.py:33 | where `lstrip` stops: everything before it is whitespace and the character there is not |
| Text.StripEnd | setup_vellum.py:33 | where `rstrip` stops: everything after it is whitespace and the character before it is not |
| Text.Strip | setup_vellum.py:33 | the result is empty iff the input is all whitespace, and otherwise neither starts nor ends with whitespace |
| Text.StripInfix | setup_vellum.py:33 | the result is a stretch of the input with only whitespace before and after it |
| EnvUpsert.FirstKeyLine | setup_vellum.py:46-49 | the index of the first line starting with `VELLUM_API_KEY=`, with no such line before it, or none when no line starts so |
| EnvUpsert.FirstKeyLineIs | setup_vellum.py:46-49 | a line starting with `VELLUM_API_KEY=` with none before it is the first key line |
| EnvUpsert.RewriteKeyLine | setup_vellum.py:45-49 | the `enumerate` loop with `break` overwrites exactly the first key line, and changes nothing when there is none |
| EnvUpsert.Upsert | setup_vellum.py:40-55 | the text the script writes equals `Upserted`: the update branch when the marker occurs, the append branch otherwise |
| EnvUpsert.SetupVellum | setup_vellum.py:33-55 | a key that is blank after `strip()` is refused and nothing is written; otherwise the stripped key is upserted into the existing text, or into "" when there is no file |
| EnvUpsert.NoMarkerNoKeyLine | setup_vellum.py:43-47 | when the marker does not occur, no line starts with `VELLUM_API_KEY=` |
| EnvUpsert.KeyLineMeansMarker | setup_vellum.py:43-47 | a text with a line starting with `VELLUM_API_KEY=` contains the marker, so it takes the update branch |
| EnvUpsert.LineOffset | setup_vellum.py:45 | every line of a split starts the text at some offset |
| EnvUpsert.KeyLine | setup_vellum.py:48-55 | `f"VELLUM_API_KEY={key}"` starts with `VELLUM_API_KEY=` (so mentions the marker) and continues with exactly the key |
| EnvUpsert.KeyLineFacts | setup_vellum.py:48-55 | the key line is a single line when the key is |
| EnvUpsert.Upserted | setup_vellum.py:43-55 | whichever branch runs, the text written mentions `VELLUM_API_KEY` |
| EnvUpsert.Updated | setup_vellum.py:43-50 | the update branch keeps the marker: the rewritten key line carries it, and without a key line the text comes back as it was |
| EnvUpsert.Appended | setup_vellum.py:51-55 | the append branch keeps the old text as a prefix and adds a line carrying the marker |
| EnvUpsert.AppendText | setup_vellum.py:51-55 | the append branch writes the old text, a newline only if it was non-empty and unterminated, then the key line and a newline |
| EnvUpsert.AppendBranch | setup_vellum.py:51-55 | the old text is a prefix of the result, which ends with the key line and a newline and grows by at most the key line plus two characters |
| EnvUpsert.AppendBranchLines | setup_vellum.py:51-55 | after an append, the last two lines are the key line and an empty line, and the key line is the first key line |
| EnvUpsert.AppendedSplit | setup_vellum.py:51-55 | the appended text splits into lines without a key line, then the key line and an empty line |
| EnvUpsert.KeyLineSplit | setup_vellum.py:55 | the key line followed by a newline splits into the key line and an empty line |
| EnvUpsert.ClosedHeadSplit | setup_vellum.py:53-55 | a marker-free text closed by a newline, followed by more text, splits into lines without a key line followed by the rest's lines |
| EnvUpsert.UpdateWithoutKeyLine | setup_vellum.py:43-50 | with the marker present but no line starting with `VELLUM_API_KEY=`, the text is written back unchanged |
| EnvUpsert.UpdateBranch | setup_vellum.py:43-50 | the update branch keeps the line count; the first key line becomes `VELLUM_API_KEY=<key>` and every other line is kept |
| EnvUpsert.AlreadySet | setup_vellum.py:43-50 | a text whose first key line already sets `key` is written back unchanged |
| EnvUpsert.Idempotent | setup_vellum.py:43-55 | upserting the same key twice writes the same text as upserting it once |

## Left out

- The Google Fit calls that fetch the sessions (app.py:101-116) are not part of this model; the sessions arrive as a parameter of `DailySleepMinutes`, already converted from `startTimeMillis`/`endTimeMillis` strings to integers.
- Float and time-zone conversions (`utcfromtimestamp(cur / 1000)`, `timestamp() * 1000`) become exact integer arithmetic: a day is `ms / 86_400_000` (floor division), and the next midnight is `(day + 1) * 86_400_000`. Rounding of very large float timestamps is not modelled.
- Dates are day indices rather than ISO strings; sorting the strings and sorting the indices agree for four-digit years.
- Python dates are bounded to years 1 to 9999, but the model's day indices are unbounded: `FillGaps` returns normally where `cur += dt.timedelta(days=1)` (app.py:150) raises `OverflowError` after 9999-12-31, and `DayOf` is total where `utcfromtimestamp` (app.py:124) raises for instants outside those years.
- Logging in `_daily_sleep_minutes` and the routes is left out.
- The OAuth library calls are not part of this model: `build_flow`, `authorization_url`, and `fetch_token` with `request.url`. The consent URL and the issued state are parameters of `Authorize`. The exchange is a parameter of `OAuth2Callback`: the credential record, or a failure that becomes the 500 response.
- Flask's cookie signing, its `redirect`/`abort`/`jsonify` response objects and the request context are not modelled. Responses are the `Response` datatype.
- OAuthSession.LogoutClears and OAuthSession.ForgedCallback: the Flask session is a signed cookie kept by the browser, and the model treats it as one map that the browser always sends back in its latest form. Flask accepts any correctly signed cookie until it expires (31 days by default), so a cookie captured before `logout` and replayed later still yields the credentials from `tokens` and still passes the state guard; nothing in the code revokes it.
- The code neither encrypts the stored credentials, consumes the state, checks scopes nor redirects to a failure page, so neither does the model.
- `input()`, the `print` messages, the check for an existing `.env`, the file write and the generated test script are left out of `setup_vellum`. The prompt's answer is the `entered` parameter, the file's text is an `Option` (`None` when there is no file), and the text to write is the `written` result.
- EnvUpsert.UpdateBranch: requires a key without a newline, which is always true of what `input()` returns.
- EnvUpsert.AppendBranchLines: requires a key without a newline, for the same reason.
- EnvUpsert.AppendedSplit: requires a key without a newline, for the same reason.
- EnvUpsert.Idempotent: requires a key without a newline, for the same reason; a key holding a newline would add lines of its own.
- `proxy_to_frontend`, `_daily_buckets`, the report and chart routes, plotting and file copying (`_write_bar_png`, `_plot_bars`) and test_vellum.py are outside the modelled core.

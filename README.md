# Leitner-box scheduler in Dafny

This project models the Leitner-box spaced-repetition scheduler of
`src/leitner_box/leitner_box.py`. A `Card` sits in a numbered box. Each box
has an interval in days. `LeitnerScheduler.ReviewCard` does four things:

- it rejects a card that is not yet due;
- it logs the review, recording the box the card was in before the review;
- it moves the card between boxes according to the `Rating` (Fail/Pass) and
  the `on_fail` policy;
- it sets the card's next due date. The date is taken from a fixed grid of
  dates that starts at the midnight before the scheduler's start day and
  steps by the new box's interval.

Everything is in one module, `LeitnerBox` (`leitner_box.dfy`). Timestamps
are whole seconds counted from an epoch that falls on a midnight. A day is
86400 seconds, and the midnight at or before `t` is `t - t % 86400`.

The card is a class whose `box` and `due` fields `ReviewCard` updates in
place (`modifies card`). The scheduler's configuration is held in `const`
fields: `boxIntervals`, `startDatetime` and `onFail`. The box transition
and the due-date search loop are written imperatively, as in the source.
Their postconditions refer to pure specification functions. `NextBox` gives
the new box. `NextDue` gives the first grid point after the review. The
postconditions of these functions, and lemmas about them, state what the
scheduler promises:

- the new box under each policy;
- the box staying within `1..len(box_intervals)`;
- the due date falling strictly after the review;
- the due date being exactly the smallest grid point after the review, in
  both directions;
- two reviews between the same two grid points getting the same due date.

`on_fail` is kept as a string, as in the source. `"first_box"` and
`"prev_box"` select a policy. Any other string makes a Fail leave the box
unchanged.

`WorkedExamples` checks two worked examples against `ReviewCard`'s
contract. The first is a new card passed on 2024-01-08 at 09:00, which
becomes due 2024-01-09. The second is a box-3 card failed on 2024-01-10 at
12:00, which becomes due 2024-01-11. It also shows two refusals: an
immediate second review, and a card that is not yet due whose box is out of
range.

## Model

The datatypes carry no contracts of their own, so they have no rows.
`Rating` (`Fail | Pass`) models the `Rating` enum at
src/leitner_box/leitner_box.py:4-7. `ReviewLog` models the `ReviewLog`
record and its constructor at src/leitner_box/leitner_box.py:45-55.
`ReviewError`'s `NotDue(due)` models the error raised at
src/leitner_box/leitner_box.py:102. `GridPoint(begin, step, k)` is the
grid expression `begin_datetime + timedelta(days=interval) * i` at
src/leitner_box/leitner_box.py:122 and 125.

| member | source | states |
|---|---|---|
| `LeitnerBox.Midnight` | src/leitner_box/leitner_box.py:97-98 | The start of the review day is a multiple of a day, at or before the review time and less than a day before it. So a never-reviewed card that gets it as its due date is always due. |
| `LeitnerBox.GridAnchor` | src/leitner_box/leitner_box.py:120 | The grid origin is the midnight one day before the start day's midnight: a day boundary at most `start - 1 day` and within a day of it. |
| `LeitnerBox.NextBox` | src/leitner_box/leitner_box.py:106-116 | Pass: `min(box + 1, len(box_intervals))`. Fail with `first_box`: box 1. Fail with `prev_box`: `max(box - 1, 1)`. Fail with any other policy string: box unchanged. A box in `1..len(box_intervals)` stays in that range, so `box_intervals[box-1]` is in range. |
| `LeitnerBox.GridPointMonotone` | src/leitner_box/leitner_box.py:122-125 | Each later point of the grid `begin + interval*day*k` is at least one interval later than an earlier one. This is why the search loop makes progress. |
| `LeitnerBox.GridIndex` | src/leitner_box/leitner_box.py:121-126 | The index `k >= 1` at which the loop stops: grid point `k` lies after the review time, and either `k == 1` or grid point `k - 1` does not. |
| `LeitnerBox.GridIndexUnique` | src/leitner_box/leitner_box.py:121-126 | Exactly one index satisfies that stopping condition. |
| `LeitnerBox.NextDue` | src/leitner_box/leitner_box.py:118-128 | The new due date is strictly after the review, and at most one interval after the later of the review time and the grid origin. |
| `LeitnerBox.NextDueIsFirstGridPointAfter` | src/leitner_box/leitner_box.py:120-128 | A date equals `NextDue` if and only if it is the smallest `begin + interval*day*k` with `k >= 1` that is strictly after the review time. |
| `LeitnerBox.SameBucketSameDue` | src/leitner_box/leitner_box.py:120-128 | Two reviews that fall between the same two consecutive grid points get the same due date, namely the upper of those two points. |
| `LeitnerBox.Card.constructor` | src/leitner_box/leitner_box.py:14-17 | A card is built with the given box and optional due date. |
| `LeitnerBox.Card.New` | src/leitner_box/leitner_box.py:14-17 | A card built with the default arguments is in box 1 with no due date. |
| `LeitnerBox.LeitnerScheduler.constructor` | src/leitner_box/leitner_box.py:82-90 | A scheduler holds the given intervals, start time and on-fail policy. |
| `LeitnerBox.LeitnerScheduler.ReviewCard` | src/leitner_box/leitner_box.py:92-130 | If the card has a due date after the review time, the call fails with `NotDue(due)` and the card's box and due date are unchanged. Otherwise it returns the same card object and `ReviewLog(rating, review time, box before the review)`. The box becomes `NextBox` of the old box. The due date becomes `NextDue` from the grid origin, with the new box's interval in days, at the review time. That depends only on the start time, the new box and the review time, not on the old due date. The requirements apply only to a card that is due, and only to the box it moves to. A box in range stays in range, and the new due date is strictly after the review. |

## Left out

- `Card.to_dict`/`from_dict`, `ReviewLog.to_dict`/`from_dict` and `LeitnerScheduler.to_dict`/`from_dict` (src/leitner_box/leitner_box.py:19-42, 57-74, 132-149) are not modelled. They wrap ISO-8601 formatting and parsing and enum coercion from the Python library. The rest of what they do is copying fields into a dictionary.
- The `datetime.now()` defaults for the start time and the review time read the clock. Both are required integer parameters here.
- Calendar, time-zone, daylight-saving and sub-second details of `datetime` are not modelled. A timestamp is a whole number of seconds, and a day is always 86400 seconds.
- The scheduler constructor's default arguments (`[1, 2, 7]`, `'first_box'`) are not modelled, so every scheduler is given its configuration explicitly. The aliasing of the shared mutable default list cannot arise, because `boxIntervals` is an immutable sequence.
- The scheduler's fields are `const`. The source never reassigns them after construction.
- LeitnerBox.LeitnerScheduler.ReviewCard: for a card that is due, it requires the box the card moves to (`NextBox` of its box) to be in `1..len(box_intervals)`, with a positive interval. A card that is not yet due has no requirement and is refused whatever its box and intervals. Outside those bounds the source behaves as follows, and none of it is modelled. A new box of 0 or below makes `box_intervals[card.box-1]` read the list from its end, or raise an index error when that reaches past the start. A new box beyond the list raises an index error. When the first grid point `begin + interval days` is at or before the review time, a zero interval makes the loop run forever, and a negative one makes it step back until `begin_datetime + timedelta(days=interval) * i` falls below year 1 and raises `OverflowError`. Otherwise the source returns that first grid point at once (with interval 0 and a review before `begin`, for example, the due date is `begin`).
- Python datetimes are limited to years 1 to 9999. The source raises `OverflowError` when `begin_datetime + timedelta(days=interval) * i` leaves that range, for instance for a review near the upper bound, a huge interval, or a negative interval stepping back past year 1. Timestamps here are unbounded integers, so this error is not modelled.
- The not-due error is modelled as the value `NotDue(due)`. The text of the exception message is not modelled.

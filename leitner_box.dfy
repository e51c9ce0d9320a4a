/**
 A model of a Leitner-box spaced-repetition scheduler.

 A card sits in one of several boxes; every box has a review interval in
 days. Reviewing a card moves it between boxes according to a pass/fail
 rating and the scheduler's on-fail policy, records a review log, and
 schedules the next review on a grid of dates anchored at the scheduler's
 start time.

 Timestamps are whole seconds counted from an epoch that falls on a
 midnight, so a day is `Day` seconds and the midnight at or before `t` is
 `t - t % Day` (Dafny's `%` is Euclidean, which floors like a calendar).
 */
module LeitnerBox {

  datatype Option<T> = None | Some(value: T)

  datatype Result<T, E> = Success(value: T) | Failure(error: E)

  /** Seconds in one day. */
  const Day: int := 86400

  /** The outcome of one review. */
  datatype Rating = Fail | Pass

  /** The single failure of a review: the card is not due until `due`. */
  datatype ReviewError = NotDue(due: int)

  /** An immutable record of one review: the rating, when it happened, and
      the box the card was in before the review moved it. */
  datatype ReviewLog = ReviewLog(rating: Rating, reviewDatetime: int, box: int)

  function Min(a: int, b: int): int { if a <= b then a else b }

  function Max(a: int, b: int): int { if a >= b then a else b }

  /** The start of the day that contains `t`. */
  function Midnight(t: int): (m: int)
    ensures m % Day == 0
    ensures m <= t < m + Day
  {
    t - t % Day
  }

  /** The origin of every box's due-date grid: the midnight of the day
      before the scheduler's start. */
  function GridAnchor(start: int): (b: int)
    ensures b == Midnight(start) - Day
    ensures b % Day == 0 && b <= start - Day < b + Day
  {
    Midnight(start - Day)
  }

  /** The box a card moves to. `onFail` is compared as a string: with
      "first_box" a failed card restarts at box 1, with "prev_box" it drops
      one box (not below 1), and with any other value it stays put. A passed
      card climbs one box, stopping at the last one. */
  function NextBox(box: int, rating: Rating, onFail: string, boxCount: int): (r: int)
    ensures rating == Pass && box <= boxCount ==> r == Min(box + 1, boxCount)
    ensures rating == Fail && onFail == "first_box" ==> r == 1
    ensures rating == Fail && onFail == "prev_box" && box >= 1 ==> r == Max(box - 1, 1)
    ensures rating == Fail && onFail != "first_box" && onFail != "prev_box" ==> r == box
    ensures 1 <= box <= boxCount ==> 1 <= r <= boxCount
  {
    match rating
    case Fail =>
      if onFail == "first_box" then 1
      else if onFail == "prev_box" && box > 1 then box - 1
      else box
    case Pass =>
      if box < boxCount then box + 1 else box
  }

  /** The k-th point of the grid that starts at `begin` with spacing `step`. */
  function GridPoint(begin: int, step: int, k: int): int
  {
    begin + step * k
  }

  /** Grid points further along the grid are later. */
  lemma {:induction false} GridPointMonotone(begin: int, step: int, i: int, j: int)
    requires step > 0 && i < j
    ensures GridPoint(begin, step, i) + step <= GridPoint(begin, step, j)
    decreases j - i
  {
    assert GridPoint(begin, step, j - 1) + step == GridPoint(begin, step, j);
    if i < j - 1 {
      GridPointMonotone(begin, step, i, j - 1);
    }
  }

  /** The index of the first grid point, counting from 1, that lies
      strictly after `t`. */
  function GridIndex(begin: int, step: int, t: int): (k: int)
    requires step > 0
    ensures k >= 1
    ensures GridPoint(begin, step, k) > t
    ensures k == 1 || GridPoint(begin, step, k - 1) <= t
  {
    if t < begin + step then 1
    else
      var q := (t - begin) / step;
      assert step * q + (t - begin) % step == t - begin;
      q + 1
  }

  /** Only one index is the first grid point after `t`. The solver also
      finds this from GridIndex's contract alone; the case split below is
      the argument written out for the reader. */
  lemma GridIndexUnique(begin: int, step: int, t: int, k: int)
    requires step > 0 && k >= 1
    requires GridPoint(begin, step, k) > t
    requires k == 1 || GridPoint(begin, step, k - 1) <= t
    ensures k == GridIndex(begin, step, t)
  {
    var g := GridIndex(begin, step, t);
    if k < g {
      if k < g - 1 { GridPointMonotone(begin, step, k, g - 1); }
    } else if g < k {
      if g < k - 1 { GridPointMonotone(begin, step, g, k - 1); }
    }
  }

  /** The next due date: the first grid point after the review time `t`. */
  function NextDue(begin: int, step: int, t: int): (d: int)
    requires step > 0
    ensures t < d <= Max(t, begin) + step
  {
    GridPoint(begin, step, GridIndex(begin, step, t))
  }

  /** `d` is of the form `begin + step * k` with `k >= 1`, lies after `t`,
      and no such grid point after `t` comes before it. */
  ghost predicate IsFirstGridPointAfter(begin: int, step: int, t: int, d: int)
  {
    && (exists k :: k >= 1 && d == GridPoint(begin, step, k))
    && d > t
    && (forall j :: j >= 1 && GridPoint(begin, step, j) > t ==> d <= GridPoint(begin, step, j))
  }

  /** NextDue is exactly the smallest grid point after the review time. */
  lemma NextDueIsFirstGridPointAfter(begin: int, step: int, t: int, d: int)
    requires step > 0
    ensures IsFirstGridPointAfter(begin, step, t, d) <==> d == NextDue(begin, step, t)
  {
    var g := GridIndex(begin, step, t);
    if d == NextDue(begin, step, t) {
      forall j | j >= 1 && GridPoint(begin, step, j) > t
        ensures d <= GridPoint(begin, step, j)
      {
        if j < g {
          if j < g - 1 { GridPointMonotone(begin, step, j, g - 1); }
        } else if g < j {
          GridPointMonotone(begin, step, g, j);
        }
      }
    }
    if IsFirstGridPointAfter(begin, step, t, d) {
      var k :| k >= 1 && d == GridPoint(begin, step, k);
      if k < g {
        if k < g - 1 { GridPointMonotone(begin, step, k, g - 1); }
      } else if g < k {
        GridPointMonotone(begin, step, g, k);
      }
    }
  }

  /** Reviews that fall between the same two grid points get the same due
      date, whatever their exact times. */
  lemma SameBucketSameDue(begin: int, step: int, t1: int, t2: int, k: int)
    requires step > 0 && k >= 1
    requires t1 < GridPoint(begin, step, k) && t2 < GridPoint(begin, step, k)
    requires k == 1 || (GridPoint(begin, step, k - 1) <= t1 && GridPoint(begin, step, k - 1) <= t2)
    ensures NextDue(begin, step, t1) == NextDue(begin, step, t2) == GridPoint(begin, step, k)
  {
    GridIndexUnique(begin, step, t1, k);
    GridIndexUnique(begin, step, t2, k);
  }

  /** A reviewable item: the box it is in and, once it has been reviewed,
      when it is next due. */
  class Card {
    var box: int
    var due: Option<int>

    constructor (box: int, due: Option<int>)
      ensures this.box == box && this.due == due
    {
      this.box := box;
      this.due := due;
    }

    /** A card that has never been reviewed starts in box 1 with no due date. */
    constructor New()
      ensures box == 1 && due == None
    {
      box := 1;
      due := None;
    }
  }

  /** The scheduler's configuration: the interval in days of each box
      (box `b` uses `boxIntervals[b - 1]`), the start time that anchors the
      due-date grid, and the on-fail policy. */
  class LeitnerScheduler {
    const boxIntervals: seq<int>
    const startDatetime: int
    const onFail: string

    constructor (boxIntervals: seq<int>, startDatetime: int, onFail: string)
      ensures this.boxIntervals == boxIntervals
      ensures this.startDatetime == startDatetime
      ensures this.onFail == onFail
    {
      this.boxIntervals := boxIntervals;
      this.startDatetime := startDatetime;
      this.onFail := onFail;
    }

    /** Reviews `card` at `reviewDatetime`. A card that was never reviewed
        is first given the midnight of the review day as its due date. A card
        that is not yet due is rejected and left as it was. Otherwise the
        review is logged with the card's current box, the card changes box,
        and its new due date is the first point after the review of the grid
        that starts at the anchor and steps by the new box's interval. */
    method ReviewCard(card: Card, rating: Rating, reviewDatetime: int)
      returns (result: Result<(Card, ReviewLog), ReviewError>)
      // Only a card that is due needs the box it moves to to be in range,
      // with a positive interval; a card that is not due is rejected whatever
      // its box and the intervals are.
      requires card.due.None? || card.due.value <= reviewDatetime ==>
        && 1 <= NextBox(card.box, rating, onFail, |boxIntervals|) <= |boxIntervals|
        && boxIntervals[NextBox(card.box, rating, onFail, |boxIntervals|) - 1] > 0
      modifies card
      ensures old(card.due).Some? && reviewDatetime < old(card.due).value ==>
        && result == Failure(NotDue(old(card.due).value))
        && card.box == old(card.box)
        && card.due == old(card.due)
      ensures old(card.due).None? || old(card.due).value <= reviewDatetime ==>
        && result == Success((card, ReviewLog(rating, reviewDatetime, old(card.box))))
        && card.box == NextBox(old(card.box), rating, onFail, |boxIntervals|)
        && card.due == Some(NextDue(GridAnchor(startDatetime), boxIntervals[card.box - 1] * Day, reviewDatetime))
      ensures 1 <= old(card.box) <= |boxIntervals| ==> 1 <= card.box <= |boxIntervals|
      ensures result.Success? ==> card.due.Some? && card.due.value > reviewDatetime
    {
      if card.due.None? {
        card.due := Some(Midnight(reviewDatetime));
      }
      var cardIsDue := reviewDatetime >= card.due.value;
      if !cardIsDue {
        return Failure(NotDue(card.due.value));
      }

      var reviewLog := ReviewLog(rating, reviewDatetime, card.box);

      match rating {
        case Fail =>
          if onFail == "first_box" {
            card.box := 1;
          } else if onFail == "prev_box" && card.box > 1 {
            card.box := card.box - 1;
          }
        case Pass =>
          if card.box < |boxIntervals| {
            card.box := card.box + 1;
          }
      }

      var interval := boxIntervals[card.box - 1];
      var step := interval * Day;
      var beginDatetime := Midnight(startDatetime - Day);
      var i := 1;
      var nextDueDate := beginDatetime + step * i;
      while nextDueDate <= reviewDatetime
        invariant i >= 1
        invariant nextDueDate == GridPoint(beginDatetime, step, if i == 1 then 1 else i - 1)
        invariant i <= 2 || GridPoint(beginDatetime, step, i - 2) <= reviewDatetime
        decreases reviewDatetime - GridPoint(beginDatetime, step, i - 1)
        modifies {}
      {
        if i > 1 { GridPointMonotone(beginDatetime, step, i - 1, i); }
        nextDueDate := beginDatetime + step * i;
        i := i + 1;
      }
      GridIndexUnique(beginDatetime, step, reviewDatetime, if i == 1 then 1 else i - 1);

      card.due := Some(nextDueDate);
      return Success((card, reviewLog));
    }
  }

  /** Two worked examples, with timestamps in seconds since
      1970-01-01T00:00:00: 2024-01-07 is 1704585600, 2024-01-08 is 1704672000. */
  method WorkedExamples()
  {
    var s := new LeitnerScheduler([1, 2, 7], 1704672000, "first_box");

    // A new card passed at 2024-01-08T09:00 moves to box 2, due 2024-01-09.
    var c := new Card.New();
    var r := s.ReviewCard(c, Pass, 1704672000 + 9 * 3600);
    assert r.Success? && r.value.1 == ReviewLog(Pass, 1704672000 + 9 * 3600, 1);
    assert c.box == 2 && c.due == Some(1704758400);

    // Reviewing it again straight away is refused.
    var again := s.ReviewCard(c, Pass, 1704672000 + 9 * 3600);
    assert again == Failure(NotDue(1704758400));

    // A card in box 3 failed at 2024-01-10T12:00 restarts in box 1, due 2024-01-11.
    var d := new Card(3, Some(1704672000));
    var r2 := s.ReviewCard(d, Fail, 1704888000);
    assert r2.Success?;
    assert d.box == 1 && d.due == Some(1704931200);

    // A card that is not yet due is refused even when its box is out of range.
    var e := new Card(9, Some(1704758400));
    var r3 := s.ReviewCard(e, Pass, 1704672000);
    assert r3 == Failure(NotDue(1704758400)) && e.box == 9;
  }
}

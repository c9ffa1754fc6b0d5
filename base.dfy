/** Time bucketing (src/duration2/base.py). Time stamps and interval widths
    are whole seconds since the epoch; a bucket is the half-open range of
    one interval width that holds a time stamp. */
module Base {

  /** A closed-open range [lower, upper) of time stamps. */
  datatype Portion = ClosedOpen(lower: int, upper: int) {

    predicate Contains(t: int)
    {
      lower <= t < upper
    }
  }

  /** An interval width. `seconds` is what `total_seconds()` gives. */
  datatype TimeDelta = TimeDelta(seconds: int) {

    /** The index of the bucket that holds t: `divmod` floors, so this is
        the floor of t / seconds, also before the epoch. */
    function GetIndex(t: int): (index: int)
      requires seconds > 0
      ensures index * seconds <= t < index * seconds + seconds
    {
      t / seconds
    }

    /** The bucket that holds t: t less its remainder, up to one width more. */
    function GetPortion(t: int): (p: Portion)
      requires seconds > 0
      ensures p.Contains(t)
      ensures p.upper == p.lower + seconds
    {
      var remain := t % seconds;
      ClosedOpen(t - remain, t - remain + seconds)
    }
  }

  const OneHour := TimeDelta(3600)

  lemma MulLeftMono(a: int, b: int, w: int)
    requires a <= b && w > 0
    ensures a * w <= b * w
  {
  }

  /** Floor division has exactly one answer: any q whose width-long range
      starting at q * seconds holds t is the index of t. */
  lemma IndexIsFloor(d: TimeDelta, t: int, q: int)
    requires d.seconds > 0
    requires q * d.seconds <= t < q * d.seconds + d.seconds
    ensures d.GetIndex(t) == q
  {
    var w, i := d.seconds, d.GetIndex(t);
    if i < q {
      MulLeftMono(i + 1, q, w);
    } else if q < i {
      MulLeftMono(q + 1, i, w);
    }
  }

  /** The portion of t is the bucket of its index. */
  lemma PortionOfIndex(d: TimeDelta, t: int)
    requires d.seconds > 0
    ensures d.GetPortion(t).lower == d.GetIndex(t) * d.seconds
    ensures d.GetPortion(t).upper == (d.GetIndex(t) + 1) * d.seconds
  {
  }

  /** Bucketing is idempotent: the lower bound of t's portion lies in the
      same bucket as t, and its portion is t's portion. */
  lemma PortionIdempotent(d: TimeDelta, t: int)
    requires d.seconds > 0
    ensures d.GetIndex(d.GetPortion(t).lower) == d.GetIndex(t)
    ensures d.GetPortion(d.GetPortion(t).lower) == d.GetPortion(t)
  {
    var lower := d.GetPortion(t).lower;
    PortionOfIndex(d, t);
    IndexIsFloor(d, lower, d.GetIndex(t));
    PortionOfIndex(d, lower);
  }

  /** Two time stamps share an index exactly when one lies in the other's
      portion, and then they share the portion too. */
  lemma SameBucket(d: TimeDelta, t: int, u: int)
    requires d.seconds > 0
    ensures d.GetIndex(t) == d.GetIndex(u) <==> d.GetPortion(t).Contains(u)
    ensures d.GetIndex(t) == d.GetIndex(u) <==> d.GetPortion(t) == d.GetPortion(u)
  {
    PortionOfIndex(d, t);
    PortionOfIndex(d, u);
    if d.GetPortion(t).Contains(u) {
      IndexIsFloor(d, u, d.GetIndex(t));
    }
    if d.GetPortion(t) == d.GetPortion(u) {
      IndexIsFloor(d, u, d.GetIndex(t));
    }
  }

  /** A later time stamp never falls in an earlier bucket. */
  lemma IndexMonotone(d: TimeDelta, t: int, u: int)
    requires d.seconds > 0 && t <= u
    ensures d.GetIndex(t) <= d.GetIndex(u)
  {
    var i, j := d.GetIndex(t), d.GetIndex(u);
    if j < i {
      MulLeftMono(j + 1, i, d.seconds);
    }
  }

  /** Before the epoch the index rounds toward minus infinity: every
      negative time stamp has a negative index, where truncating division
      would give 0 for the whole first width before the epoch. */
  lemma IndexBeforeEpoch(d: TimeDelta, t: int)
    requires d.seconds > 0 && t < 0
    ensures d.GetIndex(t) < 0
    ensures -d.seconds <= t ==> d.GetIndex(t) == -1 && d.GetPortion(t) == ClosedOpen(-d.seconds, 0)
  {
    if -d.seconds <= t {
      IndexIsFloor(d, t, -1);
      PortionOfIndex(d, t);
    }
    if d.GetIndex(t) >= 0 {
      MulLeftMono(0, d.GetIndex(t), d.seconds);
    }
  }

  /** With a one-hour width the epoch is the lower bound of its own portion. */
  lemma EpochPortion()
    ensures OneHour.GetPortion(0) == ClosedOpen(0, 3600)
  {
  }
}

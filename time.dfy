/** The sliding minimum/maximum normaliser (src/utils/time.rs): it keeps the range of
    recent values and maps each new value to a percentage of that range. Instants are
    milliseconds on a monotonic clock, passed in by the caller. */
module Timers {
  import opened Wrappers

  /** `usize::MAX` on a 64-bit target. */
  const UsizeMax: nat := 0xFFFF_FFFF_FFFF_FFFF

  type usize = x: nat | x <= UsizeMax

  /** The fields of a `Timer`. */
  datatype TimerState = TimerState(lastTimeMin: nat, lastTimeMax: nat, min: usize, max: usize,
                                   lastMax: usize, lastMin: usize, len: nat)

  /** `Timer::new(length)` at instant `now`. */
  function Initial(length: nat, now: nat): (s: TimerState)
    ensures s.min == s.lastMin == UsizeMax && s.max == s.lastMax == 0 && s.len == length
  {
    TimerState(now, now, UsizeMax, 0, 0, UsizeMax, length)
  }

  /** Whole seconds between two instants (`Duration::as_secs`). */
  function Seconds(from: nat, to: nat): nat
    requires from <= to
  {
    (to - from) / 1000
  }

  /** The percentage `(v - min) * 100 / (max - min)`, or `None` where one of the two
      unsigned subtractions underflows (a panic). Equal bounds give 0. */
  function Percent(v: usize, min: usize, max: usize): (r: Option<real>)
    ensures r.Some? <==> min == max || (min <= v && min <= max)
    ensures min == max ==> r == Some(0.0)
  {
    if min == max then Some(0.0)
    else if v < min || max < min then None
    else Some((v - min) as real * 100.0 / (max - min) as real)
  }

  /** The first step of `update_value`, as written: a value above the candidate
      maximum becomes it; only otherwise may it become the candidate minimum. */
  function OfferCandidates(s: TimerState, v: usize): (t: TimerState)
    ensures t.lastMax >= s.lastMax && t.lastMax >= v && t.lastMin <= s.lastMin
    ensures v <= s.lastMax ==> t.lastMin <= v
    ensures v > s.lastMax ==> t.lastMin == s.lastMin
    ensures t.(lastMax := s.lastMax, lastMin := s.lastMin) == s
  {
    if v > s.lastMax then s.(lastMax := v)
    else if v < s.lastMin then s.(lastMin := v)
    else s
  }

  /** The second step: a new extreme replaces the current bound and restarts its
      window. */
  function Track(s: TimerState, v: usize, now: nat): (t: TimerState)
    ensures t.max >= s.max && t.min <= s.min && t.max >= v && t.min <= v
    ensures t.max != s.max ==> t.lastTimeMax == now
    ensures t.min != s.min ==> t.lastTimeMin == now
    ensures t.(lastTimeMin := s.lastTimeMin, lastTimeMax := s.lastTimeMax, min := s.min, max := s.max) == s
  {
    var s := if v > s.max then s.(lastTimeMax := now, max := v) else s;
    if v < s.min then s.(lastTimeMin := now, min := v) else s
  }

  /** The third step: a window that has lasted `len` seconds or more (measured from
      before the call) hands its bound over to the candidate, and the candidate starts
      afresh. */
  function ResetWindows(s: TimerState, elapsedMin: nat, elapsedMax: nat, now: nat): (t: TimerState)
    ensures elapsedMin < s.len ==> t.min == s.min && t.lastMin == s.lastMin && t.lastTimeMin == s.lastTimeMin
    ensures elapsedMin >= s.len ==> t.min == s.lastMin && t.lastMin == UsizeMax && t.lastTimeMin == now
    ensures elapsedMax < s.len ==> t.max == s.max && t.lastMax == s.lastMax && t.lastTimeMax == s.lastTimeMax
    ensures elapsedMax >= s.len ==> t.max == s.lastMax && t.lastMax == 0 && t.lastTimeMax == now
    ensures t.len == s.len
  {
    var s := if elapsedMin >= s.len then s.(min := s.lastMin, lastMin := UsizeMax, lastTimeMin := now) else s;
    if elapsedMax >= s.len then s.(max := s.lastMax, lastMax := 0, lastTimeMax := now) else s
  }

  /** The state after `update_value(v)` at instant `now`, as written. */
  function Update(s: TimerState, v: usize, now: nat): (t: TimerState)
    requires s.lastTimeMin <= now && s.lastTimeMax <= now
    ensures t.lastTimeMin <= now && t.lastTimeMax <= now && t.len == s.len
  {
    ResetWindows(Track(OfferCandidates(s, v), v, now), Seconds(s.lastTimeMin, now), Seconds(s.lastTimeMax, now), now)
  }

  /** The value `update_value(v)` returns, read off the state after the update. */
  function UpdateResult(s: TimerState, v: usize, now: nat): Option<real>
    requires s.lastTimeMin <= now && s.lastTimeMax <= now
  {
    var t := Update(s, v, now);
    Percent(v, t.min, t.max)
  }

  class Timer {
    var lastTimeMin: nat
    var lastTimeMax: nat
    var min: usize
    var max: usize
    var lastMax: usize
    var lastMin: usize
    var len: nat

    function State(): TimerState
      reads this
    {
      TimerState(lastTimeMin, lastTimeMax, min, max, lastMax, lastMin, len)
    }

    /** `Timer::new`. */
    constructor (length: nat, now: nat)
      ensures State() == Initial(length, now)
    {
      lastTimeMin, lastTimeMax := now, now;
      min, max := UsizeMax, 0;
      lastMin, lastMax := UsizeMax, 0;
      len := length;
    }

    /** `update_value`: the fields change step by step as in the source; the result is
        `None` where the source's final subtraction panics. */
    method UpdateValue(v: usize, now: nat) returns (r: Option<real>)
      requires lastTimeMin <= now && lastTimeMax <= now
      modifies this
      ensures State() == Update(old(State()), v, now)
      ensures r == UpdateResult(old(State()), v, now)
    {
      var elapsedMin := (now - lastTimeMin) / 1000;
      var elapsedMax := (now - lastTimeMax) / 1000;
      OfferValue(v);
      TrackValue(v, now);
      CloseWindows(elapsedMin, elapsedMax, now);
      if min == max {
        return Some(0.0);
      }
      if v < min || max < min {
        return None;
      }
      r := Some((v - min) as real * 100.0 / (max - min) as real);
    }

    /** The candidate bounds (lines 31-35 of the source). */
    method OfferValue(v: usize)
      modifies this
      ensures State() == OfferCandidates(old(State()), v)
    {
      if v > lastMax {
        lastMax := v;
      } else if v < lastMin {
        lastMin := v;
      }
    }

    /** The current bounds and the instants they were set. */
    method TrackValue(v: usize, now: nat)
      modifies this
      ensures State() == Track(old(State()), v, now)
    {
      if v > max {
        lastTimeMax := now;
        max := v;
      }
      if v < min {
        lastTimeMin := now;
        min := v;
      }
    }

    /** The window resets. */
    method CloseWindows(elapsedMin: nat, elapsedMax: nat, now: nat)
      modifies this
      ensures State() == ResetWindows(old(State()), elapsedMin, elapsedMax, now)
    {
      if elapsedMin >= len {
        min := lastMin;
        lastMin := UsizeMax;
        lastTimeMin := now;
      }
      if elapsedMax >= len {
        max := lastMax;
        lastMax := 0;
        lastTimeMax := now;
      }
    }
  }

  /** While neither window has run out, the current value lies between the bounds, so
      the result is a percentage in `[0, 100]`. */
  lemma NoResetInRange(s: TimerState, v: usize, now: nat)
    requires s.lastTimeMin <= now && s.lastTimeMax <= now
    requires Seconds(s.lastTimeMin, now) < s.len && Seconds(s.lastTimeMax, now) < s.len
    ensures Update(s, v, now).min <= v <= Update(s, v, now).max
    ensures UpdateResult(s, v, now).Some?
    ensures 0.0 <= UpdateResult(s, v, now).value <= 100.0
  {
    var t := Update(s, v, now);
    if t.min != t.max {
      PercentInRange(v, t.min, t.max);
    }
  }

  lemma PercentInRange(v: usize, min: usize, max: usize)
    requires min <= v <= max
    ensures Percent(v, min, max).Some? && 0.0 <= Percent(v, min, max).value <= 100.0
  {
    if min != max {
      var a, b := (v - min) as real, (max - min) as real;
      assert 0.0 <= a <= b && b > 0.0;
      assert a * 100.0 <= b * 100.0;
      assert a * 100.0 / b <= 100.0;
    }
  }

  /** As written, a one-second window, the value 5 and then one second later the value
      10 make the minimum fall back to `usize::MAX`, and `10 - min` underflows. */
  lemma UnderflowAfterReset()
    ensures var s0 := Initial(1, 0);
            var s1 := Update(s0, 5, 0);
            UpdateResult(s0, 5, 0) == Some(0.0) &&
            s1.lastMax == 5 && s1.lastMin == UsizeMax &&
            Update(s1, 10, 1000).min == UsizeMax && Update(s1, 10, 1000).max == 10 &&
            UpdateResult(s1, 10, 1000).None?
  {
  }

  /** The intended first step: every value is offered both as a candidate maximum and
      as a candidate minimum. */
  function OfferCandidatesCorrected(s: TimerState, v: usize): (t: TimerState)
  {
    var s := if v > s.lastMax then s.(lastMax := v) else s;
    if v < s.lastMin then s.(lastMin := v) else s
  }

  function UpdateCorrected(s: TimerState, v: usize, now: nat): (t: TimerState)
    requires s.lastTimeMin <= now && s.lastTimeMax <= now
    ensures t.lastTimeMin <= now && t.lastTimeMax <= now && t.len == s.len
  {
    ResetWindows(Track(OfferCandidatesCorrected(s, v), v, now), Seconds(s.lastTimeMin, now),
                 Seconds(s.lastTimeMax, now), now)
  }

  /** With the correction the current value always lies between the bounds, reset or
      not, so every call returns a percentage in `[0, 100]` and none panics. */
  lemma CorrectedInRange(s: TimerState, v: usize, now: nat)
    requires s.lastTimeMin <= now && s.lastTimeMax <= now
    ensures UpdateCorrected(s, v, now).min <= v <= UpdateCorrected(s, v, now).max
    ensures var t := UpdateCorrected(s, v, now);
            Percent(v, t.min, t.max).Some? && 0.0 <= Percent(v, t.min, t.max).value <= 100.0
  {
    var t := UpdateCorrected(s, v, now);
    PercentInRange(v, t.min, t.max);
  }

  /** On the same inputs the corrected update gives a percentage where the written one
      panics. */
  lemma CorrectedAvoidsUnderflow()
    ensures var s1 := UpdateCorrected(Initial(1, 0), 5, 0);
            var t := UpdateCorrected(s1, 10, 1000);
            t.min == 5 && t.max == 10 && Percent(10, t.min, t.max) == Some(100.0)
  {
  }
}

/** The frame buffer (src/core/led_sequence.rs): one colour per LED, in wiring order. */
module LedSequences {
  import opened Wrappers
  import opened LedColors

  /** `n` LEDs all showing colour `c`. */
  function Filled(n: nat, c: LedColor): (s: seq<LedColor>)
    ensures |s| == n
    ensures forall i :: 0 <= i < n ==> s[i] == c
  {
    seq(n, _ => c)
  }

  /** A value in the unit interval (`UnitInterval<f64>`). */
  type Level = x: real | 0.0 <= x <= 1.0

  /** The index at which `adjusted_halfs_value` splits a sequence of `n` LEDs. */
  function Mid(n: nat): (m: nat)
    ensures m <= n && n - m <= m + 1 && m <= n - m
  {
    n / 2
  }

  /** The colours of `s` after `adjusted_halfs_value`: the first half (before `Mid`) is
      scaled by `levels.1`, the rest by `levels.0`; `scale` stands for `Mul<f64>`. */
  function ScaledHalves(s: seq<LedColor>, levels: (Level, Level), scale: (LedColor, Level) -> LedColor)
    : (t: seq<LedColor>)
  {
    seq(|s|, i requires 0 <= i < |s| => scale(s[i], if i < Mid(|s|) then levels.1 else levels.0))
  }

  class LedSequence {
    var ledColors: seq<LedColor>

    /** `LedSequence::new(len)`: `len` default (black) LEDs. */
    constructor (len: nat)
      ensures ledColors == Filled(len, Default())
    {
      ledColors := Filled(len, Default());
    }

    /** `from_iter`: the LEDs in the order the iterator yields them. */
    constructor FromIter(colors: seq<LedColor>)
      ensures ledColors == colors
    {
      ledColors := colors;
    }

    /** `set_color`: every LED shows `color`; the length is kept. */
    method SetColor(color: LedColor)
      modifies this
      ensures ledColors == Filled(|old(ledColors)|, color)
    {
      ledColors := Filled(|ledColors|, color);
    }

    /** `set_colors`: the contents become a copy of `colors`; the length becomes
        `|colors|`, whatever it was. */
    method SetColors(colors: seq<LedColor>)
      modifies this
      ensures ledColors == colors
    {
      ledColors := colors;
    }

    /** `set_sequence`: take over the contents of `other` (moved in by the caller). */
    method SetSequence(other: LedSequence)
      modifies this
      ensures ledColors == old(other.ledColors)
    {
      ledColors := other.ledColors;
    }

    /** `adjusted_halfs_value`: scale the two halves in place, one LED at a time. */
    method AdjustedHalfsValue(levels: (Level, Level), scale: (LedColor, Level) -> LedColor)
      modifies this
      ensures ledColors == ScaledHalves(old(ledColors), levels, scale)
    {
      ghost var before := ledColors;
      var mid := |ledColors| / 2;
      var i := 0;
      while i < mid
        invariant 0 <= i <= mid && |ledColors| == |before|
        invariant forall k :: 0 <= k < i ==> ledColors[k] == scale(before[k], levels.1)
        invariant forall k :: i <= k < |before| ==> ledColors[k] == before[k]
      {
        ledColors := ledColors[i := scale(ledColors[i], levels.1)];
        i := i + 1;
      }
      while i < |ledColors|
        invariant mid <= i <= |ledColors| == |before|
        invariant forall k :: 0 <= k < mid ==> ledColors[k] == scale(before[k], levels.1)
        invariant forall k :: mid <= k < i ==> ledColors[k] == scale(before[k], levels.0)
        invariant forall k :: i <= k < |before| ==> ledColors[k] == before[k]
      {
        ledColors := ledColors[i := scale(ledColors[i], levels.0)];
        i := i + 1;
      }
    }

    function Len(): (n: nat)
      reads this
      ensures n == |ledColors|
    {
      |ledColors|
    }

    /** `is_empty`. */
    function IsEmpty(): (e: bool)
      reads this
      ensures e <==> Len() == 0
    {
      ledColors == []
    }

    /** `get`: the colour at `index`, if there is an LED there. */
    function Get(index: nat): (c: Option<LedColor>)
      reads this
      ensures c.Some? <==> index < Len()
      ensures c.Some? ==> c.value == ledColors[index]
    {
      if index < |ledColors| then Some(ledColors[index]) else None
    }
  }

  /** `adjusted_halfs_value` keeps the length, and splits at `len / 2`: the LEDs before
      the middle take the second level, the LEDs from the middle on take the first. */
  lemma ScaledHalvesSplit(s: seq<LedColor>, levels: (Level, Level), scale: (LedColor, Level) -> LedColor, i: nat)
    requires i < |s|
    ensures |ScaledHalves(s, levels, scale)| == |s|
    ensures i < |s| / 2 ==> ScaledHalves(s, levels, scale)[i] == scale(s[i], levels.1)
    ensures i >= |s| / 2 ==> ScaledHalves(s, levels, scale)[i] == scale(s[i], levels.0)
  {
  }

  /** The first half never has more LEDs than the second, and at most one fewer. */
  lemma HalvesBalanced(n: nat)
    ensures Mid(n) <= n - Mid(n) <= Mid(n) + 1
  {
  }
}

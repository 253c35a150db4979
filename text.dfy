/** The standard string operations the driver's parsers rely on: `trim_start_matches`,
    `u8::from_str_radix` in base 16, `split_once` and `replace` of a character by nothing.
    A string is a sequence of characters; every character is taken to occupy one byte,
    as the ASCII text these operations see does. */
module Text {
  import opened Wrappers
  import opened LedColors

  /** `s.trim_start_matches(c)`: `s` without its leading run of `c`. */
  function TrimStart(s: string, c: char): (t: string)
    ensures |t| <= |s| && t == s[|s| - |t|..]
    ensures forall i :: 0 <= i < |s| - |t| ==> s[i] == c
    ensures t == [] || t[0] != c
  {
    if s != [] && s[0] == c then TrimStart(s[1..], c) else s
  }

  /** Only leading characters are removed, and all of them: trimming twice is trimming
      once, and prefixing `c` changes nothing. */
  lemma {:induction false} TrimStartIdempotent(s: string, c: char)
    ensures TrimStart(TrimStart(s, c), c) == TrimStart(s, c)
    ensures TrimStart([c] + s, c) == TrimStart(s, c)
  {
    var t := TrimStart(s, c);
    assert t == [] || t[0] != c;
    assert TrimStart(t, c) == t;
    var cs := [c] + s;
    assert cs != [] && cs[0] == c && cs[1..] == s;
    assert TrimStart(cs, c) == TrimStart(cs[1..], c);
  }

  /** Trimming stops at the first character that is not `c`. */
  lemma {:induction false} TrimStartPrefix(prefix: string, s: string, c: char)
    requires forall i :: 0 <= i < |prefix| ==> prefix[i] == c
    requires s == [] || s[0] != c
    ensures TrimStart(prefix + s, c) == s
  {
    if prefix != [] {
      assert (prefix + s)[1..] == prefix[1..] + s;
      TrimStartPrefix(prefix[1..], s, c);
    }
  }

  /** `char::to_digit(16)`: `0`-`9`, `a`-`f` and `A`-`F`. */
  function DigitValue(c: char): (d: Option<nat>)
    ensures d.Some? ==> d.value < 16
  {
    if '0' <= c <= '9' then Some(c as nat - '0' as nat)
    else if 'a' <= c <= 'f' then Some(c as nat - 'a' as nat + 10)
    else if 'A' <= c <= 'F' then Some(c as nat - 'A' as nat + 10)
    else None
  }

  predicate AllDigits(s: string)
  {
    forall i :: 0 <= i < |s| ==> DigitValue(s[i]).Some?
  }

  /** The number the hexadecimal digits of `s` spell, most significant first. */
  function DigitsValue(s: string): nat
    requires AllDigits(s)
  {
    if s == [] then 0 else 16 * DigitsValue(s[..|s| - 1]) + DigitValue(s[|s| - 1]).value
  }

  /** `u8::from_str_radix(s, 16)`: an optional leading `+` (a lone sign is rejected,
      and so is `-` for an unsigned type), then at least one hexadecimal digit, with a
      value that fits in a byte. */
  function ParseByte(s: string): (r: Option<byte>)
    ensures r.Some? ==> |s| > 0
    ensures r.Some? ==> s[0] == '+' || DigitValue(s[0]).Some?
    ensures r.Some? ==> forall i :: 1 <= i < |s| ==> DigitValue(s[i]).Some?
    ensures r.Some? && s[0] == '+' ==> |s| >= 2
  {
    if s == [] then None
    else if |s| == 1 && (s[0] == '+' || s[0] == '-') then None
    else
      var digits := if s[0] == '+' then s[1..] else s;
      if AllDigits(digits) && DigitsValue(digits) < 256 then Some(DigitsValue(digits)) else None
  }

  /** The lower-case hexadecimal digit for `d`. */
  function HexDigit(d: nat): (c: char)
    requires d < 16
    ensures DigitValue(c) == Some(d)
  {
    if d < 10 then ('0' as nat + d) as char else ('a' as nat + d - 10) as char
  }

  /** A byte written as two hexadecimal digits, `{:02x}`. */
  function FormatByte(b: byte): (s: string)
    ensures |s| == 2
  {
    [HexDigit(b / 16), HexDigit(b % 16)]
  }

  /** Every byte's two-digit rendering parses back to that byte. */
  lemma ParseFormatByte(b: byte)
    ensures ParseByte(FormatByte(b)) == Some(b)
  {
    var s := FormatByte(b);
    assert s[..1] == [HexDigit(b / 16)];
    assert DigitsValue(s[..1]) == b / 16 by {
      assert s[..1][..0] == [];
    }
  }

  /** Two-character pairs the way the colour parsers meet them: two digits give
      `16 * high + low`, a `+` and one digit give that digit, anything else fails. */
  lemma ParsePair(c0: char, c1: char)
    ensures DigitValue(c0).Some? && DigitValue(c1).Some? ==>
              ParseByte([c0, c1]) == Some(16 * DigitValue(c0).value + DigitValue(c1).value)
    ensures c0 == '+' && DigitValue(c1).Some? ==> ParseByte([c0, c1]) == Some(DigitValue(c1).value)
    ensures ParseByte([c0, c1]).Some? <==>
              (DigitValue(c0).Some? || c0 == '+') && DigitValue(c1).Some?
  {
    var s := [c0, c1];
    if DigitValue(c0).Some? && DigitValue(c1).Some? {
      assert s[..1] == [c0] && [c0][..0] == [];
      assert DigitsValue([c0]) == DigitValue(c0).value;
      assert DigitsValue(s) == 16 * DigitValue(c0).value + DigitValue(c1).value;
    }
    if c0 == '+' && DigitValue(c1).Some? {
      assert s[1..] == [c1] && [c1][..0] == [];
      assert DigitsValue([c1]) == DigitValue(c1).value;
    }
    if c0 == '+' && DigitValue(c1).None? {
      assert !AllDigits(s[1..]) by { assert s[1..][0] == c1; }
    }
  }

  /** `c` with a lower-case hexadecimal letter made upper-case. */
  function UpperHex(c: char): (u: char)
  {
    if 'a' <= c <= 'f' then (c as int - 32) as char else c
  }

  /** `s` with every lower-case hexadecimal letter made upper-case. */
  function Upper(s: string): (u: string)
    ensures |u| == |s| && forall i :: 0 <= i < |s| ==> u[i] == UpperHex(s[i])
  {
    seq(|s|, i requires 0 <= i < |s| => UpperHex(s[i]))
  }

  lemma DigitValueUpper(c: char)
    ensures DigitValue(UpperHex(c)) == DigitValue(c)
  {
  }

  /** Upper-casing the letters of a string of digits keeps the number it spells. */
  lemma {:induction false} DigitsValueUpper(s: string)
    requires AllDigits(s)
    ensures AllDigits(Upper(s)) && DigitsValue(Upper(s)) == DigitsValue(s)
  {
    var u := Upper(s);
    forall i | 0 <= i < |s|
      ensures DigitValue(u[i]).Some?
    {
      DigitValueUpper(s[i]);
    }
    if s != [] {
      var k := |s| - 1;
      assert Upper(s[..k]) == u[..k];
      DigitsValueUpper(s[..k]);
      DigitValueUpper(s[k]);
    }
  }

  /** `from_str_radix(_, 16)` does not care about the case of the letters. */
  lemma ParseByteCaseInsensitive(s: string)
    ensures ParseByte(Upper(s)) == ParseByte(s)
  {
    var u := Upper(s);
    if s != [] && !(|s| == 1 && (s[0] == '+' || s[0] == '-')) {
      var digits := if s[0] == '+' then s[1..] else s;
      var udigits := if u[0] == '+' then u[1..] else u;
      assert udigits == Upper(digits);
      if AllDigits(digits) {
        DigitsValueUpper(digits);
      } else {
        var i :| 0 <= i < |digits| && DigitValue(digits[i]).None?;
        DigitValueUpper(digits[i]);
        assert !AllDigits(udigits) by { assert DigitValue(udigits[i]).None?; }
      }
    }
  }

  /** Upper-casing commutes with trimming `#`, which it leaves alone. */
  lemma {:induction false} TrimStartUpper(s: string)
    ensures TrimStart(Upper(s), '#') == Upper(TrimStart(s, '#'))
  {
    if s != [] && s[0] == '#' {
      assert Upper(s)[1..] == Upper(s[1..]);
      TrimStartUpper(s[1..]);
    }
  }

  /** The index of the first occurrence of `pat` in `s` at or after `from`. */
  predicate OccursAt(s: string, pat: string, j: nat)
  {
    j + |pat| <= |s| && s[j..j + |pat|] == pat
  }

  function FindFrom(s: string, pat: string, from: nat): (r: Option<nat>)
    requires from <= |s|
    ensures r.Some? ==> from <= r.value && OccursAt(s, pat, r.value)
    ensures r.Some? ==> forall j :: from <= j < r.value ==> !OccursAt(s, pat, j)
    ensures r.None? ==> forall j :: from <= j ==> !OccursAt(s, pat, j)
    decreases |s| - from
  {
    if OccursAt(s, pat, from) then Some(from)
    else if from + |pat| >= |s| then None
    else FindFrom(s, pat, from + 1)
  }

  /** `s.split_once(pat)`: the text before and after the first occurrence of `pat`. */
  function SplitOnce(s: string, pat: string): (r: Option<(string, string)>)
    ensures r.None? <==> forall j :: !OccursAt(s, pat, j)
    ensures r.Some? ==> s == r.value.0 + pat + r.value.1
    ensures r.Some? ==> forall j :: 0 <= j < |r.value.0| ==> !OccursAt(s, pat, j)
  {
    match FindFrom(s, pat, 0)
    case None => None
    case Some(k) =>
      assert s == s[..k] + pat + s[k + |pat|..];
      Some((s[..k], s[k + |pat|..]))
  }

  /** `s.replace(c, "")` for a one-character pattern: every `c` removed, the rest kept
      in order. */
  function RemoveAll(s: string, c: char): (t: string)
    ensures c !in t
  {
    if s == [] then [] else (if s[0] == c then [] else [s[0]]) + RemoveAll(s[1..], c)
  }

  /** Every other character keeps its number of occurrences. */
  lemma {:induction false} RemoveAllCounts(s: string, c: char)
    ensures multiset(RemoveAll(s, c)) == multiset(s)[c := 0]
  {
    if s != [] {
      RemoveAllCounts(s[1..], c);
      assert s == [s[0]] + s[1..];
    }
  }

  /** Removing a character that does not occur changes nothing, so removing twice is
      removing once. */
  lemma {:induction false} RemoveAllAbsent(s: string, c: char)
    requires c !in s
    ensures RemoveAll(s, c) == s
  {
    if s != [] {
      assert c !in s[1..] by { assert forall x :: x in s[1..] ==> x in s; }
      RemoveAllAbsent(s[1..], c);
    }
  }

  /** Removal distributes over concatenation. */
  lemma {:induction false} RemoveAllAppend(a: string, b: string, c: char)
    ensures RemoveAll(a + b, c) == RemoveAll(a, c) + RemoveAll(b, c)
  {
    if a != [] {
      assert (a + b)[0] == a[0];
      assert (a + b)[1..] == a[1..] + b;
      RemoveAllAppend(a[1..], b, c);
    } else {
      assert a + b == b;
    }
  }
}

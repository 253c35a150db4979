/** The solid-colour mode loop (src/modes/color.rs): send a full strip of the configured
    colour whenever that colour differs from the one sent last. The loop runs over a
    finite prefix of the colours read from the configuration, one per pass. */
module ColorModes {
  import opened LedColors
  import opened LedSequences

  /** The colours the loop sends, starting from `prev`: each configured colour that
      differs from the previous one. */
  function Sent(prev: Rgb, configured: seq<Rgb>): (s: seq<Rgb>)
    ensures |s| <= |configured|
    decreases |configured|
  {
    if configured == [] then []
    else if configured[0] == prev then Sent(prev, configured[1..])
    else [configured[0]] + Sent(configured[0], configured[1..])
  }

  /** `poll_color`, over the configured colours `configured`: the frames handed to the
      strip, each `length` LEDs of one colour. */
  method PollColor(configured: seq<Rgb>, length: nat) returns (frames: seq<seq<Rgb>>)
    ensures |frames| == |Sent(Default(), configured)|
    ensures forall k :: 0 <= k < |frames| ==> frames[k] == Filled(length, Sent(Default(), configured)[k])
  {
    var prevColor := FromArray([0, 0, 0]);
    ghost var sent: seq<Rgb> := [];
    frames := [];
    var i := 0;
    while i < |configured|
      invariant 0 <= i <= |configured|
      invariant Sent(Default(), configured) == sent + Sent(prevColor, configured[i..])
      invariant |frames| == |sent|
      invariant forall k :: 0 <= k < |frames| ==> frames[k] == Filled(length, sent[k])
    {
      var color := configured[i];
      assert configured[i..][1..] == configured[i + 1..];
      i := i + 1;
      if prevColor == color {
        continue;
      }
      prevColor := color;
      var colors := Filled(length, color);
      sent := sent + [color];
      frames := frames + [colors];
    }
    assert configured[i..] == [];
  }

  /** The colour the loop last saw: the last configured one, or `prev` before any. */
  function LastSeen(prev: Rgb, configured: seq<Rgb>): (c: Rgb)
    ensures configured == [] ==> c == prev
    ensures configured != [] ==> c in configured
  {
    if configured == [] then prev else configured[|configured| - 1]
  }

  /** One more pass of the loop: the colour is sent exactly when it differs from the
      colour seen last, and what was sent before is unchanged. */
  lemma {:induction false} SentSnoc(prev: Rgb, configured: seq<Rgb>, c: Rgb)
    ensures Sent(prev, configured + [c]) ==
            Sent(prev, configured) + (if c != LastSeen(prev, configured) then [c] else [])
    decreases |configured|
  {
    if configured == [] {
      assert Sent(prev, [c][1..]) == [];
    } else {
      var next := if configured[0] == prev then prev else configured[0];
      assert (configured + [c])[1..] == configured[1..] + [c];
      SentSnoc(next, configured[1..], c);
      assert LastSeen(next, configured[1..]) == LastSeen(prev, configured);
    }
  }

  /** No colour is sent twice in a row, and the first one sent differs from `prev`:
      starting from black, a black configuration is never sent. */
  lemma {:induction false} SentChanges(prev: Rgb, configured: seq<Rgb>)
    ensures var s := Sent(prev, configured);
            (|s| > 0 ==> s[0] != prev) &&
            (forall k :: 0 < k < |s| ==> s[k] != s[k - 1])
    decreases |configured|
  {
    if configured != [] {
      SentChanges(if configured[0] == prev then prev else configured[0], configured[1..]);
    }
  }

  /** Every colour sent was configured. */
  lemma {:induction false} SentFromConfigured(prev: Rgb, configured: seq<Rgb>)
    ensures forall k :: 0 <= k < |Sent(prev, configured)| ==> Sent(prev, configured)[k] in configured
    decreases |configured|
  {
    if configured != [] {
      SentFromConfigured(if configured[0] == prev then prev else configured[0], configured[1..]);
    }
  }

  /** With a configuration that does not change, the colour is sent once, or never
      when it is black. */
  lemma {:induction false} ConstantColorSentOnce(prev: Rgb, c: Rgb, n: nat)
    ensures Sent(prev, seq(n, _ => c)) == if n > 0 && c != prev then [c] else []
    decreases n
  {
    if n > 0 {
      assert seq(n, _ => c)[1..] == seq(n - 1, _ => c);
      ConstantColorSentOnce(c, c, n - 1);
    }
  }
}

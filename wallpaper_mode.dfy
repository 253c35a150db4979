/** The wallpaper mode loop (src/modes/wallpaper.rs): poll the wallpaper daemon, and
    draw the border colours of the wallpaper each time its answer changes. The loop
    runs over a finite prefix of the daemon's answers. */
module WallpaperModes {
  import opened Wrappers
  import opened LedColors
  import opened Text
  import opened WallpaperSources

  /** What one pass of the loop does with an answer. */
  datatype Iteration =
      /** The answer is the previous one: `continue` before anything else. */
    | Unchanged
      /** The answer has no `image: `: an error message, then `continue`. */
    | NoPath
      /** The wallpaper's colours are drawn. */
    | Drawn(colors: seq<Rgb>)
      /** `open(image_path).expect(..)` fails: the loop panics. */
    | Panicked

  /** One pass, given the previous answer: the previous answer for the next pass and
      what happened. `render` opens the image at a path and reduces it to the ring's
      colours (`None` when opening fails). */
  function Step(prev: string, output: string, render: string -> Option<seq<Rgb>>)
    : (o: (string, Iteration))
    ensures o.0 == output
    ensures o.1.Unchanged? <==> output == prev
    ensures output != prev ==> (o.1.NoPath? <==> ImagePath(output).None?)
    ensures o.1.Drawn? ==> ImagePath(output).Some? && render(ImagePath(output).value) == Some(o.1.colors)
    ensures output != prev && ImagePath(output).Some? ==>
              (o.1.Panicked? <==> render(ImagePath(output).value).None?)
  {
    if output == prev then (prev, Unchanged)
    else
      match ImagePath(output)
      case None => (output, NoPath)
      case Some(path) =>
        match render(path)
        case None => (output, Panicked)
        case Some(colors) => (output, Drawn(colors))
  }

  /** What a run of the loop draws, and whether it ends in a panic. */
  datatype Run = Run(draws: seq<seq<Rgb>>, panicked: bool)

  function RunFrom(prev: string, outputs: seq<string>, render: string -> Option<seq<Rgb>>): (r: Run)
    ensures |r.draws| <= |outputs|
    decreases |outputs|
  {
    if outputs == [] then Run([], false)
    else
      var (next, it) := Step(prev, outputs[0], render);
      match it
      case Panicked => Run([], true)
      case Drawn(colors) =>
        var rest := RunFrom(next, outputs[1..], render);
        Run([colors] + rest.draws, rest.panicked)
      case _ => RunFrom(next, outputs[1..], render)
  }

  /** `poll_wallpaper`, over the answers `outputs`: the colours drawn, in order, and
      whether an image failed to open. */
  method PollWallpaper(outputs: seq<string>, render: string -> Option<seq<Rgb>>)
    returns (draws: seq<seq<Rgb>>, panicked: bool)
    ensures Run(draws, panicked) == RunFrom([], outputs, render)
  {
    var previousOutputStr: string := [];
    draws := [];
    var i := 0;
    while i < |outputs|
      invariant 0 <= i <= |outputs|
      invariant var rest := RunFrom(previousOutputStr, outputs[i..], render);
                RunFrom([], outputs, render) == Run(draws + rest.draws, rest.panicked)
    {
      var outputStr := outputs[i];
      assert outputs[i..][1..] == outputs[i + 1..];
      i := i + 1;
      if outputStr == previousOutputStr {
        continue;
      }
      previousOutputStr := outputStr;
      match SplitOnce(outputStr, ImagePrefix) {
        case None =>
          continue;
        case Some((_, path)) =>
          var imagePath := RemoveAll(path, '\n');
          var image := render(imagePath);
          if image.None? {
            return draws, true;
          }
          assert draws + ([image.value] + RunFrom(previousOutputStr, outputs[i..], render).draws)
              == (draws + [image.value]) + RunFrom(previousOutputStr, outputs[i..], render).draws;
          draws := draws + [image.value];
      }
    }
    assert outputs[i..] == [];
    panicked := false;
  }

  /** A new answer naming an image that opens draws that image's colours, and the run
      goes on from that answer. */
  lemma NewImageDrawn(prev: string, o: string, rest: seq<string>,
                      render: string -> Option<seq<Rgb>>, path: string, colors: seq<Rgb>)
    requires o != prev && ImagePath(o) == Some(path) && render(path) == Some(colors)
    ensures var tail := RunFrom(o, rest, render);
            RunFrom(prev, [o] + rest, render) == Run([colors] + tail.draws, tail.panicked)
  {
    assert ([o] + rest)[1..] == rest;
  }

  /** An answer repeated straight away is skipped: the run is the same as if it had
      come once. */
  lemma RepeatSkipped(prev: string, o: string, rest: seq<string>, render: string -> Option<seq<Rgb>>)
    ensures RunFrom(prev, [o, o] + rest, render) == RunFrom(prev, [o] + rest, render)
  {
    assert ([o, o] + rest)[1..] == [o] + rest;
    assert ([o] + rest)[1..] == rest;
  }

  /** While the daemon keeps giving the same answer, the wallpaper is drawn at most once,
      and not at all when it is the answer already seen. */
  lemma {:induction false} ConstantAnswerDrawsOnce(prev: string, o: string, n: nat,
                                                   render: string -> Option<seq<Rgb>>)
    ensures |RunFrom(prev, seq(n, _ => o), render).draws| <= 1
    ensures o == prev ==> RunFrom(prev, seq(n, _ => o), render) == Run([], false)
    decreases n
  {
    var outputs := seq(n, _ => o);
    if n > 0 {
      assert outputs[1..] == seq(n - 1, _ => o);
      ConstantAnswerDrawsOnce(o, o, n - 1, render);
    }
  }
}

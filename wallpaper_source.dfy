/** The wallpaper colour source (src/modes/sources/wallpaper.rs): it asks the wallpaper
    daemon which image is shown, and re-reads the image only when the answer changes. */
module WallpaperSources {
  import opened Wrappers
  import opened Errors
  import opened LedColors
  import opened Text

  /** `image_prefix`: what precedes the image path in the daemon's answer. */
  const ImagePrefix: string := "image: "

  /** The image path in a daemon answer: the text after the first `image: `, with every
      newline removed; `None` when the answer has no `image: `. */
  function ImagePath(output: string): (p: Option<string>)
    ensures p.None? <==> forall j :: !OccursAt(output, ImagePrefix, j)
    ensures p.Some? ==> '\n' !in p.value
    ensures p.Some? ==> exists before, after ::
              output == before + ImagePrefix + after &&
              (forall j :: 0 <= j < |before| ==> !OccursAt(output, ImagePrefix, j)) &&
              p.value == RemoveAll(after, '\n')
  {
    match SplitOnce(output, ImagePrefix)
    case None => None
    case Some((before, after)) => Some(RemoveAll(after, '\n'))
  }

  /** What one `poll_next` does, given the source's remembered answer and colours: the
      new remembered answer, the new colours and the result. `query` is the daemon's
      answer (`None` when the command fails or its output is not UTF-8); `render`
      opens the image at a path and reduces it to LED colours (`None` when the image
      cannot be opened). */
  function Poll(prev: string, cache: seq<LedColor>, query: Option<string>,
                render: string -> Option<seq<LedColor>>)
    : (o: (string, seq<LedColor>, Result<seq<LedColor>, Error>))
    ensures o.0 == (if query.Some? then query.value else prev)
    ensures o.2.Ok? ==> o.1 == o.2.value
    ensures o.2.Err? ==> o.1 == cache
    ensures query.Some? && query.value == prev ==> o.1 == cache && o.2 == Ok(cache)
    ensures query.None? ==> o.2 == Err(CommandFailed)
  {
    match query
    case None => (prev, cache, Err(CommandFailed))
    case Some(output) =>
      if output == prev then (prev, cache, Ok(cache))
      else
        match ImagePath(output)
        case None => (output, cache, Err(WrongWallpaperPath(output)))
        case Some(path) =>
          match render(path)
          case None => (output, cache, Err(ImageError))
          case Some(colors) => (output, colors, Ok(colors))
  }

  class WallpaperSrc {
    var prevOutputStr: string
    var colors: seq<LedColor>

    /** `WallpaperSrc::new`: nothing remembered yet. */
    constructor ()
      ensures prevOutputStr == [] && colors == []
    {
      prevOutputStr := [];
      colors := [];
    }

    /** `poll_next`. */
    method PollNext(query: Option<string>, render: string -> Option<seq<LedColor>>)
      returns (r: Result<seq<LedColor>, Error>)
      modifies this
      ensures (prevOutputStr, colors, r) == Poll(old(prevOutputStr), old(colors), query, render)
    {
      if query.None? {
        return Err(CommandFailed);
      }
      var outputStr := query.value;
      if outputStr == prevOutputStr {
        return Ok(colors);
      }
      prevOutputStr := outputStr;
      match SplitOnce(outputStr, ImagePrefix) {
        case Some((_, imagePath)) =>
          var path := RemoveAll(imagePath, '\n');
          var image := render(path);
          if image.None? {
            return Err(ImageError);
          }
          colors := image.value;
          r := Ok(colors);
        case None =>
          r := Err(WrongWallpaperPath(outputStr));
      }
    }
  }

  /** An answer equal to the remembered one returns the remembered colours and changes
      nothing, without looking at the answer or the image. */
  lemma SameOutputCached(prev: string, cache: seq<LedColor>, render: string -> Option<seq<LedColor>>)
    ensures Poll(prev, cache, Some(prev), render) == (prev, cache, Ok(cache))
  {
  }

  /** A new answer is remembered before it is parsed, so it is remembered even when it
      has no path or the image fails; the colours change only on success, to exactly
      what the image gave. */
  lemma NewOutputRemembered(prev: string, cache: seq<LedColor>, output: string,
                            render: string -> Option<seq<LedColor>>)
    requires output != prev
    ensures Poll(prev, cache, Some(output), render).0 == output
    ensures var o := Poll(prev, cache, Some(output), render);
            (o.2.Err? ==> o.1 == cache) && (o.2.Ok? ==> o.1 == o.2.value)
    ensures ImagePath(output).None? ==>
              Poll(prev, cache, Some(output), render).2 == Err(WrongWallpaperPath(output))
    ensures ImagePath(output).Some? && render(ImagePath(output).value).Some? ==>
              Poll(prev, cache, Some(output), render).2 == Ok(render(ImagePath(output).value).value)
  {
  }

  /** The errors of a new answer: a failed command is `CommandFailed` and keeps
      everything; an answer with a path whose image cannot be opened is `ImageError`. */
  lemma PollErrors(prev: string, cache: seq<LedColor>, query: Option<string>,
                   render: string -> Option<seq<LedColor>>)
    ensures query.None? ==> Poll(prev, cache, query, render) == (prev, cache, Err(CommandFailed))
    ensures query.Some? && query.value != prev && ImagePath(query.value).Some? &&
            render(ImagePath(query.value).value).None? ==>
              Poll(prev, cache, query, render) == (query.value, cache, Err(ImageError))
    ensures Poll(prev, cache, query, render).2.Err? <==>
              query.None? ||
              (query.value != prev &&
               (ImagePath(query.value).None? || render(ImagePath(query.value).value).None?))
  {
  }

  /** Because the answer is remembered even when parsing fails, asking again with the
      same answer returns the colours from before the failure. */
  lemma StaleAfterFailure(prev: string, cache: seq<LedColor>, output: string,
                          render: string -> Option<seq<LedColor>>)
    requires output != prev
    requires Poll(prev, cache, Some(output), render).2.Err?
    ensures var o := Poll(prev, cache, Some(output), render);
            Poll(o.0, o.1, Some(output), render) == (output, cache, Ok(cache))
  {
  }

  /** A fresh source answers an empty daemon output with no colours. */
  lemma FreshSourceEmptyOutput(render: string -> Option<seq<LedColor>>)
    ensures Poll([], [], Some([]), render) == ([], [], Ok([]))
  {
  }

  /** The path of a typical answer: everything after the first `image: `, newlines
      dropped. */
  lemma ImagePathExample()
    ensures ImagePath("out: image: /w\n") == Some("/w")
  {
    var output := "out: image: /w\n";
    assert output[5..12] == ImagePrefix;
    assert OccursAt(output, ImagePrefix, 5);
    forall j | 0 <= j < 5
      ensures !OccursAt(output, ImagePrefix, j)
    {
      assert output[j] != ImagePrefix[0];
    }
    var r := SplitOnce(output, ImagePrefix);
    var k := |r.value.0|;
    assert output[k..k + |ImagePrefix|] == ImagePrefix by {
      assert output == r.value.0 + ImagePrefix + r.value.1;
    }
    assert OccursAt(output, ImagePrefix, k);
    assert k == 5;
    assert r.value.1 == output[12..];
    assert output[12..] == "/w" + "\n";
    RemoveAllAppend("/w", "\n", '\n');
    RemoveAllAbsent("/w", '\n');
    assert "\n"[1..] == [];
    assert RemoveAll("\n", '\n') == [];
    assert ImagePath(output) == Some(RemoveAll(r.value.1, '\n'));
  }
}

/** The response splitter of app.py: the model's raw text is cut at the
    literal `</think>` marker into a "thinking" part and the caption.  The
    source unpacks `text.split("</think>")` into exactly two names, so a text
    with two or more markers raises `ValueError`; that is the error case here. */
module Response {
  import opened PyStr

  const OpenMarker: string := "<think>"
  const CloseMarker: string := "</think>"

  /** Shown as the thinking part when the text has no closing marker. */
  const NoThoughts: string := "No additional thoughts generated."

  /** The two panels the page fills: the thinking part and the caption. */
  datatype Reply = Reply(thinking: string, caption: string)

  /** Python's `ValueError` from unpacking a split of `parts` pieces into two names. */
  datatype UnpackError = UnpackError(parts: nat)

  datatype Result<T, E> = Ok(value: T) | Err(error: E)

  /** The closing marker's first character does not occur in the rest of it,
      so two markers never overlap. */
  lemma CloseMarkerUnbordered()
    ensures |CloseMarker| > 0 && CloseMarker[0] !in CloseMarker[1..]
  {
  }

  /** The splitting block of app.py.  It succeeds exactly when the text has at
      most one closing marker; otherwise the unpacking fails with the number of
      pieces that `split` produced, which is at least three. */
  function SplitResponse(text: string): (r: Result<Reply, UnpackError>)
    ensures r.Ok? <==> CountOf(text, CloseMarker) <= 1
    ensures r.Err? ==> r.error.parts == CountOf(text, CloseMarker) + 1 >= 3
  {
    ContainsIffCount(text, CloseMarker);
    if Contains(text, CloseMarker) then
      var parts := SplitAll(text, CloseMarker);
      if |parts| == 2 then
        Ok(Reply(Strip(ReplaceAll(parts[0], OpenMarker, "")), Strip(parts[1])))
      else
        Err(UnpackError(|parts|))
    else
      Ok(Reply(NoThoughts, Strip(text)))
  }

  /** No closing marker: the placeholder thought and the whole text, stripped. */
  lemma NoMarkerReply(text: string)
    requires !Contains(text, CloseMarker)
    ensures SplitResponse(text) == Ok(Reply(NoThoughts, Strip(text)))
  {
  }

  /** One closing marker between two marker-free texts: the caption is the text
      after it, stripped, and the thinking part the text before it with every
      `<think>` removed, stripped. */
  lemma OneMarkerReply(before: string, after: string)
    requires !Contains(before, CloseMarker) && !Contains(after, CloseMarker)
    ensures CountOf(before + CloseMarker + after, CloseMarker) == 1
    ensures SplitResponse(before + CloseMarker + after)
         == Ok(Reply(Strip(ReplaceAll(before, OpenMarker, "")), Strip(after)))
  {
    var text := before + CloseMarker + after;
    CloseMarkerUnbordered();
    FreePrefixNoEarlyMatch(before, CloseMarker, after);
    SplitFirst(before, CloseMarker, after);
    SplitNone(after, CloseMarker);
    OccursInMiddle(before, CloseMarker, after);
    ContainsAt(text, CloseMarker, |before|);
    assert SplitAll(text, CloseMarker) == [before, after];
  }

  /** Conversely, a text with exactly one closing marker is of that shape. */
  lemma ExactlyOneMarker(text: string)
    requires CountOf(text, CloseMarker) == 1
    ensures exists before, after ::
      && text == before + CloseMarker + after
      && !Contains(before, CloseMarker) && !Contains(after, CloseMarker)
      && SplitResponse(text) == Ok(Reply(Strip(ReplaceAll(before, OpenMarker, "")), Strip(after)))
  {
    var parts := SplitAll(text, CloseMarker);
    JoinSplit(text, CloseMarker);
    SplitPartsFree(text, CloseMarker);
    assert parts[1..] == [parts[1]];
    assert text == parts[0] + CloseMarker + parts[1];
    assert !Contains(parts[0], CloseMarker) && !Contains(parts[1], CloseMarker);
    OneMarkerReply(parts[0], parts[1]);
  }

  /** Two closing markers anywhere in the text make the unpacking fail. */
  lemma TwoMarkersFail(text: string, i: int, j: int)
    requires OccursAt(text, CloseMarker, i) && OccursAt(text, CloseMarker, j) && i != j
    ensures SplitResponse(text).Err?
    ensures SplitResponse(text).error.parts >= 3
  {
    CloseMarkerUnbordered();
    if i < j {
      CountAtLeastTwo(text, CloseMarker, i, j);
    } else {
      CountAtLeastTwo(text, CloseMarker, j, i);
    }
  }

  /** The caption is always stripped: it has no surrounding whitespace. */
  lemma CaptionStripped(text: string)
    requires SplitResponse(text).Ok?
    ensures var c := SplitResponse(text).value.caption;
      c == Strip(c) && (c == [] || (!IsSpace(c[0]) && !IsSpace(c[|c| - 1])))
  {
    var c := SplitResponse(text).value.caption;
    StripIdempotent(if Contains(text, CloseMarker) then SplitAll(text, CloseMarker)[1] else text);
  }

  /** The reply shape of a reasoning model, `<think>thought</think>caption`:
      the thought and the caption come back stripped. */
  lemma ThinkBlockReply(thought: string, caption: string)
    requires !Contains(thought, OpenMarker)
    requires !Contains(OpenMarker + thought, CloseMarker) && !Contains(caption, CloseMarker)
    ensures SplitResponse(OpenMarker + thought + CloseMarker + caption)
         == Ok(Reply(Strip(thought), Strip(caption)))
  {
    var before := OpenMarker + thought;
    ReplaceAbsent(thought, OpenMarker, "");
    assert StartsWith(before, OpenMarker) && before[|OpenMarker|..] == thought;
    assert ReplaceAll(before, OpenMarker, "") == thought;
    OneMarkerReply(before, caption);
  }

  /** The two example texts have no whitespace to strip. */
  lemma ExampleTextsStripped()
    ensures Strip("reasoning here") == "reasoning here"
    ensures Strip("Final caption!") == "Final caption!"
  {
    StripUnchanged("reasoning here");
    StripUnchanged("Final caption!");
  }

  /** The reasoning example: thinking and caption come apart at the marker.
      The text is a parameter fixed by the precondition, so that the proof
      works on its pieces rather than on one long literal. */
  lemma ThinkingExample(text: string)
    requires text == OpenMarker + "reasoning here" + CloseMarker + "Final caption!"
    ensures SplitResponse(text) == Ok(Reply("reasoning here", "Final caption!"))
  {
    var thought, caption := "reasoning here", "Final caption!";
    assert !Contains(thought, OpenMarker) by { MissingCharNotContained(thought, OpenMarker, 0); }
    assert !Contains(OpenMarker + thought, CloseMarker) by {
      MissingCharNotContained(OpenMarker + thought, CloseMarker, 1);
    }
    assert !Contains(caption, CloseMarker) by { MissingCharNotContained(caption, CloseMarker, 1); }
    ThinkBlockReply(thought, caption);
    ExampleTextsStripped();
  }

  /** The marker-free example: the whole text becomes the caption.  As above,
      the text is a parameter fixed by the precondition. */
  lemma NoMarkerExample(text: string)
    requires text == "Just a caption, no markers."
    ensures SplitResponse(text) == Ok(Reply(NoThoughts, "Just a caption, no markers."))
  {
    MissingCharNotContained(text, CloseMarker, 1);
    NoMarkerReply(text);
    StripUnchanged(text);
  }

  /** A reply that ends at the marker leaves an empty caption: the caption is
      not always non-empty after a successful completion.  As above, the text
      is a parameter fixed by the precondition. */
  lemma EmptyCaptionExample(text: string)
    requires text == OpenMarker + "x" + CloseMarker + ""
    ensures SplitResponse(text) == Ok(Reply("x", ""))
  {
    MissingCharNotContained("x", OpenMarker, 0);
    MissingCharNotContained(OpenMarker + "x", CloseMarker, 1);
    MissingCharNotContained("", CloseMarker, 1);
    ThinkBlockReply("x", "");
    StripUnchanged("x");
    StripUnchanged("");
  }
}

/** TextExtractor.tsx: when the pointer settles on an element (the hover
    delay has passed), the element's text is extracted, recorded in the
    hover history and, together with the texts of the latest hovers,
    posted to `/fastingest`; the component's `onTextExtracted` callback is
    then told the text and the element.

    The posting step reads the history as it was BEFORE this hover's update
    (the state captured by the handler) and reads its first item's element,
    which is not there while that history is empty: the handler then stops
    with a TypeError, after the history update has been queued but before the
    request and the callback. Both behaviours are modelled. */
module TextExtractor {
  import opened Strings
  import opened Dom
  import opened DomText
  import opened HoverHistory

  /** Texts of this length or longer are not recorded. */
  const TooLong := 150
  const DefaultMaxHistoryItems := 5
  const DefaultHistoryDuration := 5000
  /** At most this many recent texts are aggregated into a request. */
  const AggregateLimit := 10

  type Hovered = Item<Pos>

  /** `text` is non-empty and `text.length < 150`, the length counted in
      UTF-16 code units as JavaScript counts it. */
  predicate Accepted(text: string)
    ensures Accepted(text) ==> 0 < |text| < TooLong
    ensures (forall i :: 0 <= i < |text| ==> !IsAstral(text[i])) ==> (Accepted(text) <==> 0 < |text| < TooLong)
    ensures (forall i :: 0 <= i < |text| ==> IsAstral(text[i])) ==> (Accepted(text) <==> 0 < 2 * |text| < TooLong)
  {
    text != [] && Utf16Length(text) < TooLong
  }

  /** The JSON body posted to `/fastingest`. */
  datatype IngestBody = IngestBody(text: string, url: string, documentId: string)

  /** What one settle event produces: the new history, the request that is
      posted (if any) and the text and element reported to `onTextExtracted`
      (if any). */
  datatype Step = Step(items: seq<Hovered>, request: Option<IngestBody>, reported: Option<(string, Pos)>)

  function Texts(items: seq<Hovered>): (r: seq<string>)
    ensures |r| == |items|
    ensures forall i :: 0 <= i < |items| ==> r[i] == items[i].text
  {
    seq(|items|, i requires 0 <= i < |items| => items[i].text)
  }

  /** The aggregated text: the texts of the last min(10, n) items, oldest first, separated by single spaces. */
  function Aggregate(items: seq<Hovered>): (r: string)
    ensures items == [] ==> r == ""
    ensures |items| == 1 ==> r == items[0].text
  {
    var numSlice := if |items| > AggregateLimit then AggregateLimit else |items|;
    Join(Texts(TakeLast(items, numSlice)), " ")
  }

  /** A history of at most ten items is aggregated whole; a longer one
      contributes exactly its ten newest texts. */
  lemma AggregateTakesNewest(items: seq<Hovered>)
    ensures |items| <= AggregateLimit ==> Aggregate(items) == Join(Texts(items), " ")
    ensures |items| > AggregateLimit ==> Aggregate(items) == Join(Texts(items[|items| - AggregateLimit..]), " ")
  {
    if |items| <= AggregateLimit {
      TakeLastBound(items, |items|);
      if items == [] {
        assert TakeLast(items, 0) == items;
      }
    } else {
      TakeLastBound(items, AggregateLimit);
    }
  }

  /** The timeout handler, once `elementFromPoint` has given `target` (None
      when no element is under the pointer). */
  function Settle(items: seq<Hovered>, root: Node, target: Option<Pos>, now: int, max: int, slug: string): (r: Step)
    requires root.Element? && (target.Some? ==> IsElementPos(root, target.value))
    ensures r.request.Some? <==> r.reported.Some?
    ensures r.request.Some? ==> items != [] && r.request.value.url == slug && r.request.value.documentId == ""
    ensures r.reported.Some? ==> target == Some(r.reported.value.1) && Accepted(r.reported.value.0)
    ensures |r.items| <= |items| + 1
  {
    if target.None? then Step(items, None, None)
    else
      var p := target.value;
      var text := ExtractTextSpec(NodeAt(root, p));
      if !Accepted(text) then Step(items, None, None)
      else
        var updated := DedupPush(items, Item(text, p, now), max);
        if items == [] then Step(updated, None, None)
        else Step(updated, Some(IngestBody(Aggregate(items), slug, "")), Some((text, p)))
  }

  /** No element, empty text (the element shows no text at all) or text of
      150 UTF-16 code units or more: nothing is recorded, posted or reported. */
  lemma SettleIgnores(items: seq<Hovered>, root: Node, target: Option<Pos>, now: int, max: int, slug: string)
    requires root.Element? && (target.Some? ==> IsElementPos(root, target.value))
    requires target.None? || IsBlank(TextContent(NodeAt(root, target.value))) || Utf16Length(ExtractTextSpec(NodeAt(root, target.value))) >= TooLong
    ensures Settle(items, root, target, now, max, slug) == Step(items, None, None)
  {
    if target.Some? {
      ExtractTextEmptyIffBlank(NodeAt(root, target.value));
    }
  }

  /** An accepted text always enters the history by the deduplicating push;
      the request and the callback follow exactly when the history read by
      the handler is not empty, and the request carries the aggregate of that
      history, the slug as `url` and an empty `document_id`. */
  lemma SettleRecords(items: seq<Hovered>, root: Node, p: Pos, now: int, max: int, slug: string)
    requires root.Element? && IsElementPos(root, p)
    requires Accepted(ExtractTextSpec(NodeAt(root, p)))
    ensures var text := ExtractTextSpec(NodeAt(root, p));
      var step := Settle(items, root, Some(p), now, max, slug);
      && step.items == DedupPush(items, Item(text, p, now), max)
      && (step.request.Some? <==> items != [])
      && (step.reported.Some? <==> items != [])
      && (items != [] ==> step.request.value == IngestBody(Aggregate(items), slug, "")
                          && step.reported.value == (text, p))
  {
  }

  /** Settle events at non-decreasing times keep the history invariant:
      within the bound, no text twice in a row, oldest first. */
  lemma SettleKeepsInvariant(items: seq<Hovered>, root: Node, target: Option<Pos>, before: int, now: int, max: int, slug: string)
    requires root.Element? && (target.Some? ==> IsElementPos(root, target.value))
    requires Invariant(items, max, before) && before <= now
    ensures Invariant(Settle(items, root, target, now, max, slug).items, max, now)
  {
    var step := Settle(items, root, target, now, max, slug);
    if step.items == items {
      LaterKeepsInvariant(items, max, before, now);
    } else {
      var p := target.value;
      DedupPushKeepsInvariant(items, Item(ExtractTextSpec(NodeAt(root, p)), p, now), max, before);
    }
  }

  /** As written, the first accepted hover of a session is recorded but never
      posted and never reported: the handler stops at the empty history. */
  lemma FirstHoverIsNotPosted(root: Node, p: Pos, now: int, max: int, slug: string)
    requires root.Element? && IsElementPos(root, p) && max >= 0
    requires Accepted(ExtractTextSpec(NodeAt(root, p)))
    ensures var step := Settle([], root, Some(p), now, max, slug);
      step.items == [Item(ExtractTextSpec(NodeAt(root, p)), p, now)] && step.request.None? && step.reported.None?
  {
    var item := Item(ExtractTextSpec(NodeAt(root, p)), p, now);
    assert [] + [item] == [item];
    TakeLastBound([item], max);
  }

  /** The handler as evidently intended: it aggregates the history including
      the text just hovered, so that no hover is lost and there is no empty
      history to stop at. */
  function SettleIntended(items: seq<Hovered>, root: Node, target: Option<Pos>, now: int, max: int, slug: string): Step
    requires root.Element? && (target.Some? ==> IsElementPos(root, target.value))
  {
    if target.None? then Step(items, None, None)
    else
      var p := target.value;
      var text := ExtractTextSpec(NodeAt(root, p));
      if !Accepted(text) then Step(items, None, None)
      else
        var updated := DedupPush(items, Item(text, p, now), max);
        Step(updated, Some(IngestBody(Aggregate(updated), slug, "")), Some((text, p)))
  }

  /** Every accepted hover, the first one included, is posted and reported,
      and the posted aggregate ends with the text just hovered. */
  lemma IntendedPostsEveryHover(items: seq<Hovered>, root: Node, p: Pos, now: int, max: int, slug: string)
    requires root.Element? && IsElementPos(root, p) && max >= 0
    requires Accepted(ExtractTextSpec(NodeAt(root, p)))
    ensures var text := ExtractTextSpec(NodeAt(root, p));
      var step := SettleIntended(items, root, Some(p), now, max, slug);
      && step.request.Some? && step.reported == Some((text, p))
      && EndsWith(step.request.value.text, text)
  {
    var text := ExtractTextSpec(NodeAt(root, p));
    var updated := DedupPush(items, Item(text, p, now), max);
    NewestIsHovered(items, Item(text, p, now), max);
    AggregateEndsWithNewest(updated);
  }

  /** After a push with a bound that is not negative, the newest text is the one pushed. */
  lemma NewestIsHovered(items: seq<Hovered>, item: Hovered, max: int)
    requires max >= 0
    ensures var r := DedupPush(items, item, max); r != [] && r[|r| - 1].text == item.text
  {
    if !IsRepeat(items, item.text) {
      TakeLastBound(items + [item], max);
    }
  }

  lemma AggregateEndsWithNewest(items: seq<Hovered>)
    requires items != []
    ensures EndsWith(Aggregate(items), items[|items| - 1].text)
  {
    var numSlice := if |items| > AggregateLimit then AggregateLimit else |items|;
    var kept := TakeLast(items, numSlice);
    TakeLastKeepsNewest(items, numSlice);
    var texts := Texts(kept);
    assert Aggregate(items) == Join(texts, " ");
    assert texts[|texts| - 1] == items[|items| - 1].text;
    JoinEndsWithLast(texts, " ");
  }
}

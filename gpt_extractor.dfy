/** gptextractor.tsx: a background hover tracker. When the pointer settles
    on an element, its text (the same extraction as TextExtractor.tsx) and its
    DOM path are appended to the item list, with no deduplication, the list
    is cut to the newest `maxItems`, and `onExtract` receives the item. Unlike
    TextExtractor.tsx, a text of exactly 150 code units is kept. */
module GptExtractor {
  import opened Strings
  import opened Dom
  import opened DomText
  import opened DomPath
  import opened HoverHistory

  /** Texts longer than this are dropped. */
  const LongestKept := 150
  const DefaultMaxItems := 10

  /** `elementId` is the DOM path, or None for `null`. */
  datatype ExtractedItem = ExtractedItem(text: string, elementId: Option<string>, timestamp: int)

  /** What one settle event produces: the new item list and the item passed to `onExtract`, if any. */
  datatype Step = Step(items: seq<ExtractedItem>, emitted: Option<ExtractedItem>)

  /** `text` is non-empty and `text.length <= 150`, the length counted in
      UTF-16 code units as JavaScript counts it. */
  predicate Accepted(text: string)
    ensures Accepted(text) ==> 0 < |text| <= LongestKept
    ensures (forall i :: 0 <= i < |text| ==> !IsAstral(text[i])) ==> (Accepted(text) <==> 0 < |text| <= LongestKept)
    ensures (forall i :: 0 <= i < |text| ==> IsAstral(text[i])) ==> (Accepted(text) <==> 0 < 2 * |text| <= LongestKept)
  {
    text != [] && Utf16Length(text) <= LongestKept
  }

  /** The item built for the element at p. */
  function ItemFor(root: Node, p: Pos, now: int): ExtractedItem
    requires root.Element? && IsElementPos(root, p)
  {
    ExtractedItem(ExtractTextSpec(NodeAt(root, p)), NonEmpty(DomPathSpec(root, p)), now)
  }

  /** The timeout handler of `handleHover`, once `elementFromPoint` has given `target`. */
  function Hover(items: seq<ExtractedItem>, root: Node, target: Option<Pos>, now: int, maxItems: int): (r: Step)
    requires root.Element? && (target.Some? ==> IsElementPos(root, target.value))
    ensures r.emitted.Some? ==> target.Some? && r.emitted.value.timestamp == now && Accepted(r.emitted.value.text)
    ensures r.emitted.None? ==> r.items == items
    ensures |r.items| <= |items| + 1
  {
    if target.None? then Step(items, None)
    else
      var p := target.value;
      var item := ItemFor(root, p, now);
      if !Accepted(item.text) then Step(items, None)
      else Step(TakeLast(items + [item], maxItems), Some(item))
  }

  /** An item is produced exactly when there is an element whose extracted
      text is 1 to 150 UTF-16 code units long; otherwise nothing changes. */
  lemma HoverEmitsIff(items: seq<ExtractedItem>, root: Node, target: Option<Pos>, now: int, maxItems: int)
    requires root.Element? && (target.Some? ==> IsElementPos(root, target.value))
    ensures var step := Hover(items, root, target, now, maxItems);
      && (step.emitted.Some? <==> target.Some? && 0 < Utf16Length(ExtractTextSpec(NodeAt(root, target.value))) <= LongestKept)
      && (step.emitted.None? ==> step.items == items)
  {
  }

  /** An accepted item is appended without deduplication: for a
      positive bound the list ends with exactly the item handed to
      `onExtract`, keeps the newest of the earlier items and never holds
      more than `maxItems`. */
  lemma HoverAppends(items: seq<ExtractedItem>, root: Node, p: Pos, now: int, maxItems: int)
    requires root.Element? && IsElementPos(root, p) && maxItems > 0
    requires Accepted(ExtractTextSpec(NodeAt(root, p)))
    ensures var step := Hover(items, root, Some(p), now, maxItems);
      var r := step.items;
      && step.emitted == Some(ItemFor(root, p, now))
      && |r| == Min(|items| + 1, maxItems) <= maxItems
      && r[|r| - 1] == step.emitted.value
      && r[..|r| - 1] == items[|items| - (|r| - 1)..]
  {
    AppendThenCut(items, ItemFor(root, p, now), maxItems);
  }

  /** In a document whose elements all have tag names the path is never the
      empty string, so `elementId` is never `null`: it is always the DOM path. */
  lemma ElementIdIsPath(root: Node, p: Pos, now: int)
    requires root.Element? && IsElementPos(root, p) && WellNamed(root)
    ensures ItemFor(root, p, now).elementId == Some(DomPathSpec(root, p))
  {
    DomPathNonEmpty(root, p);
  }
}

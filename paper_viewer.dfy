/** src/components/PaperViewer.tsx: shows a paper's HTML in a fixed page
    template, and records the text under the pointer in a deduplicated hover
    history whose items also carry a little element metadata. Elements of
    the document skeleton (script, style, head, meta, link, html, body) are
    never recorded, and there is no length limit on the text.

    The HTML parse (`DOMParser`, giving `head.innerHTML` and `body.innerHTML`)
    is a parameter of the loader; the fetch of `paperPath` is an outcome given
    to it. */
module PaperViewer {
  import opened Strings
  import opened Dom
  import opened DomText
  import opened HoverHistory

  /** Tag names (as `tagName` gives them) whose elements are skipped. */
  const SkipTags: seq<string> := ["SCRIPT", "STYLE", "HEAD", "META", "LINK", "HTML", "BODY"]

  /** The `metadata` of a history item. */
  datatype ItemMeta = ItemMeta(tagName: string, id: Option<string>, className: Option<string>)

  type Hovered = Item<(Pos, ItemMeta)>

  /** What one settle event produces: the new history and whether the text modal is shown. */
  datatype Step = Step(items: seq<Hovered>, showModal: bool)

  function MetaOf(el: Node): ItemMeta
    requires el.Element?
  {
    ItemMeta(Lower(el.name), NonEmpty(el.id), NonEmpty(el.className))
  }

  /** The timeout handler of `handleMouseMove`, once `elementFromPoint` has
      given `target`; `showModal` is the modal flag before the event. */
  function Settle(items: seq<Hovered>, showModal: bool, root: Node, target: Option<Pos>, now: int, max: int): (r: Step)
    requires target.Some? ==> IsElementPos(root, target.value)
    ensures r.items != items ==> r.showModal
    ensures !showModal && r.showModal ==> target.Some? && NodeAt(root, target.value).name !in SkipTags
    ensures |r.items| <= |items| + 1
  {
    if target.None? then Step(items, showModal)
    else
      var p := target.value;
      var el := NodeAt(root, p);
      if el.name in SkipTags then Step(items, showModal)
      else
        var text := PreciseTextSpec(el);
        if text == "" then Step(items, showModal)
        else Step(DedupPush(items, Item(text, (p, MetaOf(el)), now), max), true)
  }

  /** Skeleton elements never produce a history item, and neither does an
      element whose extracted text is empty; nothing changes then. */
  lemma SettleSkips(items: seq<Hovered>, showModal: bool, root: Node, p: Pos, now: int, max: int)
    requires IsElementPos(root, p)
    requires NodeAt(root, p).name in SkipTags || PreciseTextSpec(NodeAt(root, p)) == ""
    ensures Settle(items, showModal, root, Some(p), now, max) == Step(items, showModal)
  {
  }

  /** Any other element with non-empty text, however long, is pushed with
      its lower-cased tag name, `id` and `className` (empty ones as absent),
      and the modal is shown. */
  lemma SettleRecords(items: seq<Hovered>, showModal: bool, root: Node, p: Pos, now: int, max: int)
    requires IsElementPos(root, p)
    requires NodeAt(root, p).name !in SkipTags && PreciseTextSpec(NodeAt(root, p)) != ""
    ensures var el := NodeAt(root, p);
      var step := Settle(items, showModal, root, Some(p), now, max);
      && step.showModal
      && step.items == DedupPush(items, Item(PreciseTextSpec(el), (p, ItemMeta(Lower(el.name), NonEmpty(el.id), NonEmpty(el.className))), now), max)
      && (IsRepeat(items, PreciseTextSpec(el)) ==> |step.items| == |items|)
      && (!IsRepeat(items, PreciseTextSpec(el)) && max > 0 ==> step.items[|step.items| - 1].text == PreciseTextSpec(el))
  {
    var el := NodeAt(root, p);
    var item := Item(PreciseTextSpec(el), (p, MetaOf(el)), now);
    if IsRepeat(items, item.text) {
      DedupPushRefreshes(items, item, max);
    } else if max > 0 {
      DedupPushAppends(items, item, max);
    }
  }

  /** Settle events at non-decreasing times keep the history invariant. */
  lemma SettleKeepsInvariant(items: seq<Hovered>, showModal: bool, root: Node, target: Option<Pos>, before: int, now: int, max: int)
    requires target.Some? ==> IsElementPos(root, target.value)
    requires Invariant(items, max, before) && before <= now
    ensures Invariant(Settle(items, showModal, root, target, now, max).items, max, now)
  {
    var step := Settle(items, showModal, root, target, now, max);
    if step.items == items {
      LaterKeepsInvariant(items, max, before, now);
    } else {
      var p := target.value;
      var el := NodeAt(root, p);
      DedupPushKeepsInvariant(items, Item(PreciseTextSpec(el), (p, MetaOf(el)), now), max, before);
    }
  }

  /** The fixed parts of the page template, kept in pieces of at most twelve
      characters (line break and indentation apart): the text before the
      head content, the injected style block, the text from the end of the
      head to the body content, and the text after the body content. */
  function Prefix(): string {
    "\n    " + "<!DOCTYPE ht" + "ml>"
    + "\n    " + "<html>"
    + "\n      " + "<head>"
    + "\n        " + "<meta charse" + "t=\"UTF-8\">"
    + "\n        " + "<meta name=\"" + "viewport\" co" + "ntent=\"width" + "=device-widt" + "h, initial-s" + "cale=1.0\">"
    + "\n        "
  }

  function StyleBlock(): string {
    ("\n        " + "<style>") + StyleRules() + "\n        " + "</style>"
  }

  function StyleRules(): string {
    "\n          " + "html, body {" + " "
    + "\n            " + "margin: 0;"
    + "\n            " + "padding: 0;"
    + "\n            " + "width: 100%;"
    + "\n            " + "max-width: 1" + "00vw;"
    + "\n            " + "overflow-x: " + "hidden;"
    + "\n            " + "box-sizing: " + "border-box;"
    + "\n            " + "background-c" + "olor: white;"
    + "\n          " + "}"
    + "\n          " + "body {"
    + "\n            " + "padding: 20p" + "x;"
    + "\n          " + "}"
    + "\n          " + ".page {"
    + "\n            " + "max-width: 1" + "00%;"
    + "\n            " + "margin: 0 au" + "to;"
    + "\n            " + "box-sizing: " + "border-box;"
    + "\n          " + "}"
    + "\n          " + "* {"
    + "\n            " + "max-width: 1" + "00%;"
    + "\n            " + "box-sizing: " + "border-box;"
    + "\n          " + "}"
  }

  function BodyOpen(): string {
    "\n      " + "</head>"
    + "\n      " + "<body>"
    + "\n        "
  }

  function Suffix(): string {
    "\n      " + "</body>"
    + "\n    " + "</html>"
    + "\n  "
  }

  /** `createSanitizedHtml`. */
  function CreateSanitizedHtml(head: string, body: string): string {
    Prefix() + head + StyleBlock() + BodyOpen() + body + Suffix()
  }

  /** r consists of the six parts, one after the other. */
  predicate Layout(r: string, a: string, b: string, c: string, d: string, e: string, f: string) {
    var i1 := |a|;
    var i2 := i1 + |b|;
    var i3 := i2 + |c|;
    var i4 := i3 + |d|;
    var i5 := i4 + |e|;
    && |r| == i5 + |f|
    && r[..i1] == a && r[i1..i2] == b && r[i2..i3] == c
    && r[i3..i4] == d && r[i4..i5] == e && r[i5..] == f
  }

  lemma ConcatLayout(a: string, b: string, c: string, d: string, e: string, f: string)
    ensures Layout(a + b + c + d + e + f, a, b, c, d, e, f)
  {
    var r := a + b + c + d + e + f;
    assert r == a + b + c + d + e + f;
  }

  /** The page is the fixed prefix, the head content, the `<style>` block,
      the end of the head and the opening `<body>`, the body content and the
      fixed suffix, in this order: the head content always comes before the
      injected style, and the body content after it, inside `<body>`. */
  lemma SanitizedLayout(head: string, body: string)
    ensures Layout(CreateSanitizedHtml(head, body), Prefix(), head, StyleBlock(), BodyOpen(), body, Suffix())
  {
    ConcatLayout(Prefix(), head, StyleBlock(), BodyOpen(), body, Suffix());
  }

  /** The style block opens with `<style>` after a line break and eight spaces. */
  lemma StyleBlockOpens()
    ensures StartsWith(StyleBlock(), "\n        " + "<style>")
  {
    FirstOfFour("\n        " + "<style>", StyleRules(), "\n        ", "</style>");
  }

  lemma FirstOfFour(a: string, b: string, c: string, d: string)
    ensures StartsWith(a + b + c + d, a)
  {
    assert (a + b + c + d)[..|a|] == a;
  }

  /** Head and body content of a given length are recovered from the page:
      two pages are equal only for equal contents. */
  lemma SanitizedInjective(h1: string, b1: string, h2: string, b2: string)
    requires |h1| == |h2| && CreateSanitizedHtml(h1, b1) == CreateSanitizedHtml(h2, b2)
    ensures h1 == h2 && b1 == b2
  {
    SanitizedLayout(h1, b1);
    SanitizedLayout(h2, b2);
    LayoutInjective(CreateSanitizedHtml(h1, b1), Prefix(), h1, StyleBlock(), BodyOpen(), b1, Suffix(), h2, b2);
  }

  lemma LayoutInjective(r: string, a: string, b: string, c: string, d: string, e: string, f: string, b': string, e': string)
    requires Layout(r, a, b, c, d, e, f) && Layout(r, a, b', c, d, e', f) && |b| == |b'|
    ensures b == b' && e == e'
  {
  }

  /** What `parseHtmlContent` gives: `head.innerHTML` and `body.innerHTML`. */
  datatype HeadBody = HeadBody(head: string, body: string)

  /** The outcome of `fetch(paperPath)`: a response, or a rejection with an
      Error's message (None when what was thrown is not an Error). */
  datatype FetchOutcome =
    | Response(ok: bool, statusText: string, text: string)
    | Rejected(message: Option<string>)

  /** The viewer's loading state: `content`, `isLoading` and `error`. */
  datatype ViewState = ViewState(content: string, isLoading: bool, error: Option<string>)

  const Initial := ViewState("", true, None)
  const NoSourceMessage := "No paper content or path provided"

  /** The HTML to show, or the message of the error thrown on the way. */
  function Source(paperContent: string, paperPath: string, fetched: FetchOutcome): (r: PaperSource)
    ensures r.Failed? ==> paperContent == ""
    ensures r.Loaded? && paperContent == "" ==> paperPath != "" && fetched.Response? && fetched.ok && fetched.text == r.html
  {
    if paperContent != "" then Loaded(paperContent)
    else if paperPath != "" then
      match fetched
      case Response(ok, statusText, text) =>
        if !ok then Failed("Failed to fetch paper: " + statusText) else Loaded(text)
      case Rejected(message) =>
        Failed(if message.Some? then message.value else "Failed to load paper")
    else Failed(NoSourceMessage)
  }

  datatype PaperSource = Loaded(html: string) | Failed(message: string)

  /** One run of the loading effect, which runs again whenever `paperContent`
      or `paperPath` changes, from the state `prev` the viewer is in:
      `fetchPaperContent` with its catch and finally. It sets the content on
      success and the error on failure, and leaves the other as it was. An
      absent prop and an empty string are both falsy, so both are given as "". */
  function Load(prev: ViewState, paperContent: string, paperPath: string, fetched: FetchOutcome,
                parse: string -> HeadBody): (r: ViewState)
    ensures !r.isLoading
    ensures r.error != prev.error ==> r.content == prev.content && r.error.Some?
  {
    match Source(paperContent, paperPath, fetched)
    case Loaded(html) =>
      var hb := parse(html);
      ViewState(CreateSanitizedHtml(hb.head, hb.body), false, prev.error)
    case Failed(message) => ViewState(prev.content, false, Some(message))
  }

  /** Every run ends loading. A success sets the page built from
      `paperContent` when that is given, whatever the path and the fetch, and
      otherwise from the fetched text of `paperPath`. A failed response, a
      rejection and a missing source each set their error. The first run, from
      the initial state, ends with either the page or an error, never both. */
  lemma LoadOutcome(prev: ViewState, paperContent: string, paperPath: string, fetched: FetchOutcome,
                    parse: string -> HeadBody)
    ensures var s := Load(prev, paperContent, paperPath, fetched, parse);
      var src := Source(paperContent, paperPath, fetched);
      && !s.isLoading
      && (src.Loaded? ==> s.content == CreateSanitizedHtml(parse(src.html).head, parse(src.html).body) && s.error == prev.error)
      && (src.Failed? ==> s.content == prev.content && s.error == Some(src.message))
      && (prev == Initial ==> (s.error.None? <==> src.Loaded?) && (src.Failed? ==> s.content == ""))
      && (paperContent != "" ==> src == Loaded(paperContent))
      && (paperContent == "" && paperPath == "" ==> src == Failed(NoSourceMessage))
      && (paperContent == "" && paperPath != "" && fetched.Response?
          ==> src == if fetched.ok then Loaded(fetched.text) else Failed("Failed to fetch paper: " + fetched.statusText))
  {
  }

  /** As written, the error of an earlier run is never cleared: a viewer
      first given no paper, then given `paperContent`, sets the new page but
      keeps the error, and the error screen, which is tested before the page
      is shown, hides it. */
  lemma ReloadKeepsStaleError(paperContent: string, fetched: FetchOutcome, parse: string -> HeadBody)
    requires paperContent != ""
    ensures var first := Load(Initial, "", "", fetched, parse);
      var second := Load(first, paperContent, "", fetched, parse);
      && first.error == Some(NoSourceMessage)
      && second.content == CreateSanitizedHtml(parse(paperContent).head, parse(paperContent).body)
      && second.error == Some(NoSourceMessage)
  {
    assert Source("", "", fetched) == Failed(NoSourceMessage);
    assert Source(paperContent, "", fetched) == Loaded(paperContent);
  }

  /** The effect as evidently intended: each run starts by clearing the
      error of the previous one, then loads as before. */
  function LoadIntended(prev: ViewState, paperContent: string, paperPath: string, fetched: FetchOutcome,
                        parse: string -> HeadBody): ViewState
  {
    Load(ViewState(prev.content, prev.isLoading, None), paperContent, paperPath, fetched, parse)
  }

  /** With the error cleared at the start of each run, every run, not only
      the first, ends with an error exactly when that run failed, and a
      successful run shows its own page. */
  lemma IntendedErrorIsCurrent(prev: ViewState, paperContent: string, paperPath: string, fetched: FetchOutcome,
                               parse: string -> HeadBody)
    ensures var s := LoadIntended(prev, paperContent, paperPath, fetched, parse);
      var src := Source(paperContent, paperPath, fetched);
      && !s.isLoading
      && (s.error.None? <==> src.Loaded?)
      && (src.Loaded? ==> s.content == CreateSanitizedHtml(parse(src.html).head, parse(src.html).body))
      && (src.Failed? ==> s.error == Some(src.message))
  {
    LoadOutcome(ViewState(prev.content, prev.isLoading, None), paperContent, paperPath, fetched, parse);
  }
}

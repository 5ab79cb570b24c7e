/** Text extraction from an element under the pointer, in the two forms the
    components use, and the element metadata the paper viewers display.

    - ExtractTextContent is `extractTextContent` of TextExtractor.tsx and
      `extractText` of gptextractor.tsx (the two bodies are the same): the
      direct text children, or the whole `textContent` when those are blank.
    - ExtractPreciseText is `extractPreciseTextContent` of both PaperViewer.tsx
      files (again the same body): the value of a text-like input or a
      textarea, otherwise the direct text children, with a fallback to
      `textContent` only for an element without element children. */
module DomText {
  import opened Strings
  import opened Dom

  /** Concatenation of the data of the direct text-node children, in order. */
  function DirectText(cs: seq<Node>): (r: string)
    ensures (forall i :: 0 <= i < |cs| ==> !cs[i].Text?) ==> r == ""
  {
    if cs == [] then "" else DirectText(cs[..|cs| - 1]) + (if cs[|cs| - 1].Text? then cs[|cs| - 1].data else "")
  }

  /** The children that are not elements: what remains of an element's
      content once every child element (and its whole subtree) is removed. */
  function NonElements(cs: seq<Node>): (r: seq<Node>)
    ensures forall i :: 0 <= i < |r| ==> !r[i].Element?
  {
    if cs == [] then []
    else NonElements(cs[..|cs| - 1]) + (if cs[|cs| - 1].Element? then [] else [cs[|cs| - 1]])
  }

  /** The direct text is exactly the `textContent` of the element's content
      with every child element removed: no text of a descendant element is
      ever part of it. */
  lemma {:induction false} DirectTextIsTextWithoutChildElements(cs: seq<Node>)
    ensures DirectText(cs) == ConcatText(NonElements(cs))
  {
    if cs != [] {
      var init := cs[..|cs| - 1];
      var last := cs[|cs| - 1];
      DirectTextIsTextWithoutChildElements(init);
      var ne := NonElements(cs);
      if !last.Element? {
        assert ne == NonElements(init) + [last];
        assert ne[..|ne| - 1] == NonElements(init);
        assert ConcatText(ne) == ConcatText(NonElements(init)) + TextContent(last);
        assert TextContent(last) == (if last.Text? then last.data else "");
      } else {
        assert ne == NonElements(init);
      }
    }
  }

  /** Without element children, the direct text and `textContent` coincide. */
  lemma {:induction false} DirectTextWithoutElements(cs: seq<Node>)
    requires ElementCount(cs) == 0
    ensures DirectText(cs) == ConcatText(cs)
  {
    if cs != [] {
      DirectTextWithoutElements(cs[..|cs| - 1]);
    }
  }

  /** What `extractTextContent` returns for an element; it is never padded with white space. */
  function ExtractTextSpec(el: Node): (r: string)
    requires el.Element?
    ensures r == [] || (!IsWhite(r[0]) && !IsWhite(r[|r| - 1]))
  {
    var direct := DirectText(el.childNodes);
    Trim(if IsBlank(direct) then TextContent(el) else direct)
  }

  /** The loop over `childNodes` accumulating the text nodes, then the
      fallback to the full `textContent` when the accumulated text is blank. */
  method ExtractTextContent(el: Node) returns (text: string)
    requires el.Element?
    ensures text == ExtractTextSpec(el)
  {
    var acc := "";
    var cs := el.childNodes;
    for i := 0 to |cs|
      invariant acc == DirectText(cs[..i])
    {
      assert cs[..i + 1][..i] == cs[..i];
      if cs[i].Text? {
        acc := acc + cs[i].data;
      }
    }
    assert cs[..|cs|] == cs;
    TrimEmptyIffBlank(acc);
    if Trim(acc) == "" {
      acc := TextContent(el);
    }
    text := Trim(acc);
  }

  /** When the direct text is not blank, it alone is the (non-empty) result:
      the text of descendant elements does not enter it. */
  lemma ExtractTextPrefersDirect(el: Node)
    requires el.Element? && !IsBlank(DirectText(el.childNodes))
    ensures ExtractTextSpec(el) == Trim(DirectText(el.childNodes)) != []
  {
    TrimEmptyIffBlank(DirectText(el.childNodes));
  }

  /** The result is empty exactly when the element holds no visible text at all. */
  lemma ExtractTextEmptyIffBlank(el: Node)
    requires el.Element?
    ensures ExtractTextSpec(el) == [] <==> IsBlank(TextContent(el))
  {
    var direct := DirectText(el.childNodes);
    if IsBlank(direct) {
      TrimEmptyIffBlank(TextContent(el));
    } else {
      ExtractTextPrefersDirect(el);
      BlankConcatHasBlankDirect(el.childNodes);
    }
  }

  /** Blank `textContent` implies blank direct text. */
  lemma {:induction false} BlankConcatHasBlankDirect(cs: seq<Node>)
    ensures IsBlank(ConcatText(cs)) ==> IsBlank(DirectText(cs))
  {
    if cs != [] {
      var init := cs[..|cs| - 1];
      BlankConcatHasBlankDirect(init);
      var whole := ConcatText(cs);
      if IsBlank(whole) {
        assert whole == ConcatText(init) + TextContent(cs[|cs| - 1]);
        assert IsBlank(ConcatText(init)) by {
          forall i | 0 <= i < |ConcatText(init)| ensures IsWhite(ConcatText(init)[i]) {
            assert ConcatText(init)[i] == whole[i];
          }
        }
        var t := TextContent(cs[|cs| - 1]);
        assert IsBlank(t) by {
          forall i | 0 <= i < |t| ensures IsWhite(t[i]) {
            assert t[i] == whole[|ConcatText(init)| + i];
          }
        }
      }
    }
  }

  /** Input types whose `value` is extracted. */
  predicate IsTextInputType(t: string) {
    t == "text" || t == "search" || t == "email"
  }

  /** What `extractPreciseTextContent` returns for an element. */
  function PreciseTextSpec(el: Node): string
    requires el.Element?
  {
    match el.kind
    case Input(t, v) =>
      if IsTextInputType(t) then Trim(v) else PreciseDirect(el)
    case TextArea(v) => Trim(v)
    case Plain => PreciseDirect(el)
  }

  function PreciseDirect(el: Node): string
    requires el.Element?
  {
    var direct := DirectText(el.childNodes);
    Trim(if IsBlank(direct) && ElementCount(el.childNodes) == 0 then TextContent(el) else direct)
  }

  method ExtractPreciseText(el: Node) returns (text: string)
    requires el.Element?
    ensures text == PreciseTextSpec(el)
  {
    if el.kind.Input? && IsTextInputType(el.kind.inputType) {
      return Trim(el.kind.value);
    }
    if el.kind.TextArea? {
      return Trim(el.kind.value);
    }
    var acc := "";
    var cs := el.childNodes;
    var elementChildren := 0;
    for i := 0 to |cs|
      invariant acc == DirectText(cs[..i])
      invariant elementChildren == ElementCount(cs[..i])
    {
      assert cs[..i + 1][..i] == cs[..i];
      if cs[i].Text? {
        acc := acc + cs[i].data;
      }
      if cs[i].Element? {
        elementChildren := elementChildren + 1;
      }
    }
    assert cs[..|cs|] == cs;
    TrimEmptyIffBlank(acc);
    if Trim(acc) == "" && elementChildren == 0 {
      acc := TextContent(el);
    }
    text := Trim(acc);
  }

  /** The fallback of `extractPreciseTextContent` never changes the outcome:
      it is taken only for an element without element children, whose
      `textContent` is then its direct text. So outside text-like inputs and
      textareas the result is always the trimmed direct text; the text of a
      child element is never extracted. */
  lemma {:induction false} PreciseTextIsDirectText(el: Node)
    requires el.Element? && !el.kind.TextArea?
    requires !(el.kind.Input? && IsTextInputType(el.kind.inputType))
    ensures PreciseTextSpec(el) == Trim(DirectText(el.childNodes))
  {
    PreciseDirectIsTrimmedDirect(el);
  }

  lemma {:induction false} PreciseDirectIsTrimmedDirect(el: Node)
    requires el.Element?
    ensures PreciseDirect(el) == Trim(DirectText(el.childNodes))
  {
    var cs := el.childNodes;
    var direct := DirectText(cs);
    var arg := if IsBlank(direct) && ElementCount(cs) == 0 then TextContent(el) else direct;
    assert arg == direct by {
      if ElementCount(cs) == 0 {
        DirectTextWithoutElements(cs);
      }
    }
  }

  /** The attribute list as the `reduce` builds it: name to value, a later
      attribute of the same name overriding an earlier one. */
  function AttrMap(attrs: seq<Attr>): map<string, string> {
    if attrs == [] then map[]
    else AttrMap(attrs[..|attrs| - 1])[attrs[|attrs| - 1].name := attrs[|attrs| - 1].value]
  }

  /** The keys are exactly the attribute names. */
  lemma {:induction false} AttrMapKeys(attrs: seq<Attr>)
    ensures forall i :: 0 <= i < |attrs| ==> attrs[i].name in AttrMap(attrs)
    ensures forall k :: k in AttrMap(attrs) ==> exists i :: 0 <= i < |attrs| && attrs[i].name == k
  {
    if attrs != [] {
      var init := attrs[..|attrs| - 1];
      AttrMapKeys(init);
      assert forall i :: 0 <= i < |init| ==> init[i] == attrs[i];
    }
  }

  /** Every attribute's name maps to the value of the last attribute that
      carries that name (in a DOM, where names are unique, to its own value). */
  lemma {:induction false} AttrMapValues(attrs: seq<Attr>)
    ensures forall i :: 0 <= i < |attrs| && (forall j :: i < j < |attrs| ==> attrs[j].name != attrs[i].name)
              ==> attrs[i].name in AttrMap(attrs) && AttrMap(attrs)[attrs[i].name] == attrs[i].value
  {
    if attrs != [] {
      var init := attrs[..|attrs| - 1];
      AttrMapValues(init);
      AttrMapKeys(init);
      forall i | 0 <= i < |attrs| && (forall j :: i < j < |attrs| ==> attrs[j].name != attrs[i].name)
        ensures attrs[i].name in AttrMap(attrs) && AttrMap(attrs)[attrs[i].name] == attrs[i].value
      {
        if i < |init| {
          assert init[i] == attrs[i];
          assert forall j :: i < j < |init| ==> init[j] == attrs[j];
        }
      }
    }
  }

  /** `getElementMetadata`: lower-cased tag name, `id` and `className` when non-empty,
      the precise text and the attribute map. */
  datatype Metadata = Metadata(tagName: string, id: Option<string>, className: Option<string>,
                               textContent: string, attributes: map<string, string>)

  /** `x || undefined` for a string. */
  function NonEmpty(s: string): (r: Option<string>)
    ensures r == None <==> s == []
    ensures r.Some? ==> r.value == s
  {
    if s == [] then None else Some(s)
  }

  method GetElementMetadata(el: Node) returns (m: Metadata)
    requires el.Element?
    ensures m.tagName == Lower(el.name)
    ensures m.id == NonEmpty(el.id) && m.className == NonEmpty(el.className)
    ensures m.textContent == PreciseTextSpec(el)
    ensures m.attributes == AttrMap(el.attributes)
  {
    var text := ExtractPreciseText(el);
    var acc: map<string, string> := map[];
    var attrs := el.attributes;
    for i := 0 to |attrs|
      invariant acc == AttrMap(attrs[..i])
    {
      assert attrs[..i + 1][..i] == attrs[..i];
      acc := acc[attrs[i].name := attrs[i].value];
    }
    assert attrs[..|attrs|] == attrs;
    m := Metadata(Lower(el.name), NonEmpty(el.id), NonEmpty(el.className), text, acc);
  }
}

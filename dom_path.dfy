/** `getDomPath` of TextExtractor.tsx and gptextractor.tsx (the two bodies are
    the same): a CSS-like path `html > body > div:nth-of-type(2) > p` from the
    document element down to an element. */
module DomPath {
  import opened Strings
  import opened Dom

  /** One path segment: the lower-cased node name and, when the parent has
      more than one child element of that name, the 1-based position among them. */
  datatype Selector = Selector(name: string, nth: Option<nat>)

  /** The segment for the element at p. */
  function SelectorAt(root: Node, p: Pos): Selector
    requires IsElementPos(root, p)
  {
    var el := NodeAt(root, p);
    if p == [] then Selector(Lower(el.name), None)
    else
      ParentOfValid(root, p);
      var siblings := NodeAt(root, Parent(p)).childNodes;
      if CountNamed(siblings, el.name) > 1
      then Selector(Lower(el.name), Some(CountNamed(siblings[..Last(p)], el.name) + 1))
      else Selector(Lower(el.name), None)
  }

  /** The segments of every element from the document element (index 0)
      down to the element at p (index |p|). */
  function Selectors(root: Node, p: Pos): (r: seq<Selector>)
    requires root.Element? && IsElementPos(root, p)
    ensures |r| == |p| + 1
  {
    seq(|p| + 1, j requires 0 <= j <= |p| => AncestorsAreElements(root, p, j); SelectorAt(root, p[..j]))
  }

  function Render(s: Selector): string {
    s.name + (if s.nth.Some? then ":nth-of-type(" + NatToString(s.nth.value) + ")" else "")
  }

  function RenderAll(ss: seq<Selector>): (r: seq<string>)
    ensures |r| == |ss|
    ensures forall i :: 0 <= i < |ss| ==> r[i] == Render(ss[i])
  {
    seq(|ss|, i requires 0 <= i < |ss| => Render(ss[i]))
  }

  const Separator := " > "

  /** The string `getDomPath` returns for the element at p. */
  function DomPathSpec(root: Node, p: Pos): string
    requires root.Element? && IsElementPos(root, p)
  {
    Join(RenderAll(Selectors(root, p)), Separator)
  }

  /** One iteration's segment: the lower-cased node name, with the
      `:nth-of-type` suffix when the parent has same-named siblings. */
  method Segment(root: Node, cur: Pos) returns (selector: string)
    requires IsElementPos(root, cur)
    ensures selector == Render(SelectorAt(root, cur))
  {
    var node := NodeAt(root, cur);
    selector := Lower(node.name);
    if cur != [] {
      ParentOfValid(root, cur);
      var siblings := NodeAt(root, Parent(cur)).childNodes;
      if CountNamed(siblings, node.name) > 1 {
        var index := CountNamed(siblings[..Last(cur)], node.name);
        selector := selector + ":nth-of-type(" + NatToString(index + 1) + ")";
      }
    }
  }

  /** The walk up the `parentElement` chain, putting each segment in front
      (`path.unshift`), until the document element has been visited. */
  method GetDomPath(root: Node, p: Pos) returns (path: string)
    requires root.Element? && IsElementPos(root, p)
    ensures path == DomPathSpec(root, p)
  {
    ghost var all := RenderAll(Selectors(root, p));
    var parts: seq<string> := [];
    var el: Option<Pos> := Some(p);
    while el.Some?
      invariant el.Some? ==> |el.value| <= |p| && el.value == p[..|el.value|]
      invariant el.Some? ==> parts == all[|el.value| + 1..]
      invariant el.None? ==> parts == all
      decreases if el.Some? then |el.value| + 1 else 0
    {
      var cur := el.value;
      RenderedSegment(root, p, |cur|);
      var selector := Segment(root, cur);
      parts := [selector] + parts;
      if cur == [] {
        el := None;
      } else {
        assert Parent(cur) == p[..|cur| - 1];
        el := Some(Parent(cur));
      }
    }
    path := Join(parts, Separator);
  }

  /** The rendered segment of the ancestor at depth j. */
  lemma RenderedSegment(root: Node, p: Pos, j: nat)
    requires root.Element? && IsElementPos(root, p) && j <= |p|
    ensures IsElementPos(root, p[..j])
    ensures RenderAll(Selectors(root, p))[j] == Render(SelectorAt(root, p[..j]))
  {
    AncestorsAreElements(root, p, j);
  }

  /** One segment per element from the document element down to the
      element, each named after that element's lower-cased node name. */
  lemma {:induction false} SegmentsFollowAncestors(root: Node, p: Pos, j: nat)
    requires root.Element? && IsElementPos(root, p) && j <= |p|
    ensures IsElementPos(root, p[..j])
    ensures Selectors(root, p)[j].name == Lower(NodeAt(root, p[..j]).name)
  {
    AncestorsAreElements(root, p, j);
  }

  /** An nth-of-type index appears exactly when the parent has more than one
      child element of that name, and it lies in 1..(that number). */
  lemma {:induction false} NthInRange(root: Node, p: Pos)
    requires IsElementPos(root, p) && p != []
    ensures ParentOfValidFacts(root, p)
    ensures var siblings := NodeAt(root, Parent(p)).childNodes;
            var name := NodeAt(root, p).name;
            var s := SelectorAt(root, p);
            && (s.nth.Some? <==> CountNamed(siblings, name) > 1)
            && (s.nth.Some? ==> 1 <= s.nth.value <= CountNamed(siblings, name))
  {
    ParentOfValid(root, p);
    var siblings := NodeAt(root, Parent(p)).childNodes;
    var name := NodeAt(root, p).name;
    CountNamedPrefix(siblings, Last(p), name);
    CountNamedMonotone(siblings, Last(p) + 1, |siblings|, name);
    assert siblings[..|siblings|] == siblings;
  }

  predicate ParentOfValidFacts(root: Node, p: Pos)
    requires ValidPos(root, p) && p != []
  {
    IsElementPos(root, Parent(p)) && Last(p) < |NodeAt(root, Parent(p)).childNodes|
  }

  /** Two different same-named sibling elements get different indices, so each
      segment designates one element among its parent's children. */
  lemma {:induction false} NthDistinguishesSiblings(root: Node, q: Pos, i: nat, k: nat)
    requires IsElementPos(root, q) && i < k
    requires IsElementPos(root, q + [i]) && IsElementPos(root, q + [k])
    requires NodeAt(root, q + [i]).name == NodeAt(root, q + [k]).name
    ensures SelectorAt(root, q + [i]) != SelectorAt(root, q + [k])
  {
    var a, b := q + [i], q + [k];
    assert Parent(a) == q && Last(a) == i;
    assert Parent(b) == q && Last(b) == k;
    ParentOfValid(root, a);
    ParentOfValid(root, b);
    var siblings := NodeAt(root, q).childNodes;
    var name := NodeAt(root, a).name;
    CountNamedPrefix(siblings, i, name);
    CountNamedMonotone(siblings, i + 1, k, name);
    CountNamedPrefix(siblings, k, name);
    CountNamedMonotone(siblings, k + 1, |siblings|, name);
    assert siblings[..|siblings|] == siblings;
  }

  /** With non-empty tag names the path is never the empty string. */
  lemma {:induction false} DomPathNonEmpty(root: Node, p: Pos)
    requires root.Element? && IsElementPos(root, p) && WellNamed(root)
    ensures DomPathSpec(root, p) != []
  {
    var parts := RenderAll(Selectors(root, p));
    SegmentsFollowAncestors(root, p, 0);
    assert p[..0] == [];
    assert parts[0] == Render(Selectors(root, p)[0]);
    JoinStartsWithFirst(parts, Separator);
  }
}

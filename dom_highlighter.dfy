/** src/components/DOMHighlighter.tsx: highlights the element under the
    pointer and reports hovers and clicks, except on elements that match one
    of the excluded selectors or lie inside one that does.

    Selectors are tag names (the default list is made of those), matched as
    CSS type selectors of HTML elements are: without regard to case. The
    highlight box itself (its position and style) is presentation and is not
    modelled; the callbacks are out-parameters of the handlers. */
module DomHighlighter {
  import opened Strings
  import opened Dom

  const DefaultExcluded: seq<string> :=
    ["script", "style", "head", "meta", "link", "svg", "img", "button", "a", "input", "select", "textarea", "label"]

  /** `excludedSelectors.some(selector => el.matches(selector))`. */
  predicate MatchesAny(el: Node, selectors: seq<string>)
    ensures MatchesAny(el, selectors) ==> el.Element? && selectors != []
    ensures el.Element? && el.name in selectors ==> MatchesAny(el, selectors)
  {
    el.Element? && exists i | 0 <= i < |selectors| :: Lower(el.name) == Lower(selectors[i])
  }

  /** The ancestor of the element at p at depth j (the element itself for
      j == |p|, the document element for j == 0) matches a selector. */
  predicate AncestorMatches(root: Node, p: Pos, j: int, selectors: seq<string>) {
    0 <= j <= |p| && ValidPos(root, p[..j]) && MatchesAny(NodeAt(root, p[..j]), selectors)
  }

  /** The element at p or one of its ancestors matches an excluded selector. */
  predicate Excluded(root: Node, p: Pos, selectors: seq<string>) {
    exists j | 0 <= j <= |p| :: AncestorMatches(root, p, j, selectors)
  }

  /** `isElementExcluded`: the walk up the `parentElement` chain; a missing
      element (`null`) counts as excluded. */
  method IsElementExcluded(root: Node, target: Option<Pos>, selectors: seq<string>) returns (excluded: bool)
    requires root.Element? && (target.Some? ==> IsElementPos(root, target.value))
    ensures excluded <==> target.None? || Excluded(root, target.value, selectors)
  {
    if target.None? {
      return true;
    }
    var p := target.value;
    var current: Option<Pos> := Some(p);
    ghost var depth: int := |p|;
    while current.Some?
      invariant -1 <= depth <= |p|
      invariant current.Some? <==> depth >= 0
      invariant current.Some? ==> current.value == p[..depth]
      invariant forall j :: depth < j <= |p| ==> !AncestorMatches(root, p, j, selectors)
      decreases depth + 1
    {
      var cur := current.value;
      AncestorsAreElements(root, p, depth);
      if MatchesAny(NodeAt(root, cur), selectors) {
        assert AncestorMatches(root, p, depth, selectors);
        return true;
      }
      if cur == [] {
        current := None;
      } else {
        assert Parent(cur) == p[..depth - 1];
        current := Some(Parent(cur));
      }
      depth := depth - 1;
    }
    return false;
  }

  /** The walk read one step at a time: an element is excluded exactly when
      it matches itself or its parent element is excluded. */
  lemma ExcludedStep(root: Node, p: Pos, selectors: seq<string>)
    requires IsElementPos(root, p) && p != []
    ensures Excluded(root, p, selectors) <==> MatchesAny(NodeAt(root, p), selectors) || Excluded(root, Parent(p), selectors)
  {
    var q := Parent(p);
    if Excluded(root, p, selectors) && !MatchesAny(NodeAt(root, p), selectors) {
      var j :| 0 <= j <= |p| && AncestorMatches(root, p, j, selectors);
      assert p[..|p|] == p;
      assert j < |p|;
      assert q[..j] == p[..j];
      assert AncestorMatches(root, q, j, selectors);
    }
    if Excluded(root, q, selectors) {
      var j :| 0 <= j <= |q| && AncestorMatches(root, q, j, selectors);
      assert q[..j] == p[..j];
      assert AncestorMatches(root, p, j, selectors);
    }
    if MatchesAny(NodeAt(root, p), selectors) {
      assert p[..|p|] == p;
      assert AncestorMatches(root, p, |p|, selectors);
    }
  }

  /** Exclusion is inherited: every element inside an excluded element is excluded. */
  lemma ExclusionInherited(root: Node, p: Pos, q: Pos, selectors: seq<string>)
    requires IsElementPos(root, q) && |p| <= |q| && q[..|p|] == p
    requires Excluded(root, p, selectors)
    ensures Excluded(root, q, selectors)
  {
    var j :| 0 <= j <= |p| && AncestorMatches(root, p, j, selectors);
    assert q[..j] == p[..j];
    assert AncestorMatches(root, q, j, selectors);
  }

  /** With no selectors nothing is excluded. */
  lemma NothingExcludedWithoutSelectors(root: Node, p: Pos)
    ensures !Excluded(root, p, [])
  {
  }

  /** The component's state: the `enabled` prop, `hoveredElement`,
      `clickedElement` and the `isInteracting` ref. */
  class Highlighter {
    const root: Node
    const excludedSelectors: seq<string>
    var enabled: bool
    var hovered: Option<Pos>
    var clicked: Option<Pos>
    var interacting: bool

    /** The hovered and the clicked element are never excluded, and a
        disabled highlighter holds neither. */
    ghost predicate Valid()
      reads this
    {
      && root.Element?
      && (hovered.Some? ==> IsElementPos(root, hovered.value) && !Excluded(root, hovered.value, excludedSelectors))
      && (clicked.Some? ==> IsElementPos(root, clicked.value) && !Excluded(root, clicked.value, excludedSelectors))
      && (!enabled ==> hovered.None? && clicked.None?)
    }

    constructor(root: Node, excludedSelectors: seq<string>, enabled: bool)
      requires root.Element?
      ensures Valid()
      ensures this.root == root && this.excludedSelectors == excludedSelectors && this.enabled == enabled
      ensures hovered.None? && clicked.None? && !interacting
    {
      this.root := root;
      this.excludedSelectors := excludedSelectors;
      this.enabled := enabled;
      hovered := None;
      clicked := None;
      interacting := false;
    }

    /** `handleMouseMove`; `notified` is the argument of `onElementHover`
        (None when it is not called, Some(None) for `onElementHover(null)`). */
    method MouseMove(target: Option<Pos>) returns (notified: Option<Option<Pos>>)
      requires Valid() && (target.Some? ==> IsElementPos(root, target.value))
      modifies this
      ensures Valid()
      ensures enabled == old(enabled) && clicked == old(clicked) && interacting == old(interacting)
      ensures !old(enabled) || old(interacting) ==> hovered == old(hovered) && notified.None?
      ensures old(enabled) && !old(interacting) && (target.None? || Excluded(root, target.value, excludedSelectors))
              ==> hovered.None? && notified == (if old(hovered).Some? then Some(None) else None)
      ensures old(enabled) && !old(interacting) && target.Some? && !Excluded(root, target.value, excludedSelectors)
              ==> hovered == target && notified == (if target != old(hovered) then Some(target) else None)
    {
      if !enabled || interacting {
        return None;
      }
      var excluded := IsElementExcluded(root, target, excludedSelectors);
      if excluded {
        if hovered.Some? {
          hovered := None;
          notified := Some(None);
        } else {
          notified := None;
        }
        return;
      }
      if target != hovered {
        hovered := target;
        notified := Some(target);
      } else {
        notified := None;
      }
    }

    /** `handleClick`; `notified` is the argument of `onClick` (None when it is
        not called). Clicks are handled during a press too. */
    method Click(target: Option<Pos>) returns (notified: Option<Option<Pos>>)
      requires Valid() && (target.Some? ==> IsElementPos(root, target.value))
      modifies this
      ensures Valid()
      ensures enabled == old(enabled) && hovered == old(hovered) && interacting == old(interacting)
      ensures !old(enabled) ==> clicked == old(clicked) && notified.None?
      ensures old(enabled) && (target.None? || Excluded(root, target.value, excludedSelectors))
              ==> clicked.None? && notified == Some(None)
      ensures old(enabled) && target.Some? && !Excluded(root, target.value, excludedSelectors)
              ==> clicked == target && notified == Some(target)
    {
      if !enabled {
        return None;
      }
      var excluded := IsElementExcluded(root, target, excludedSelectors);
      if excluded {
        clicked := None;
        return Some(None);
      }
      clicked := target;
      notified := Some(target);
    }

    /** A press: `handleMouseDown` is listening only while the highlighter
        is enabled, so a press while disabled is not heard. */
    method MouseDown()
      requires Valid()
      modifies this
      ensures Valid()
      ensures old(enabled) ==> interacting
      ensures !old(enabled) ==> interacting == old(interacting)
      ensures enabled == old(enabled) && hovered == old(hovered) && clicked == old(clicked)
    {
      if enabled {
        interacting := true;
      }
    }

    /** A release: `handleMouseUp` is listening only while the highlighter
        is enabled, so a release while disabled leaves the press pending. */
    method MouseUp()
      requires Valid()
      modifies this
      ensures Valid()
      ensures old(enabled) ==> !interacting
      ensures !old(enabled) ==> interacting == old(interacting)
      ensures enabled == old(enabled) && hovered == old(hovered) && clicked == old(clicked)
    {
      if enabled {
        interacting := false;
      }
    }

    /** A new `enabled` prop: the listener effect clears both elements when
        the highlighter is disabled. */
    method SetEnabled(e: bool)
      requires Valid()
      modifies this
      ensures Valid()
      ensures enabled == e && interacting == old(interacting)
      ensures !e ==> hovered.None? && clicked.None?
      ensures e ==> hovered == old(hovered) && clicked == old(clicked)
    {
      enabled := e;
      if !e {
        hovered := None;
        clicked := None;
      }
    }
  }
}

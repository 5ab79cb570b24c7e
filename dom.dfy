/** An abstract HTML document: a tree of text, comment and element nodes.
    An element is identified by its position, the list of `childNodes`
    indices that leads to it from the document element; its
    `parentElement` is the position without the last index, and the
    document element itself has no parent element. */
module Dom {
  import opened Strings

  /** What kind of HTML element a node is, as far as the components look at it. */
  datatype Kind =
    | Plain
    | Input(inputType: string, value: string)   // HTMLInputElement: its `type` and current `value`
    | TextArea(value: string)                   // HTMLTextAreaElement: its current `value`

  datatype Attr = Attr(name: string, value: string)

  /** `name` is the node name (`tagName`), upper case for HTML elements. */
  datatype Node =
    | Text(data: string)
    | Comment(data: string)
    | Element(name: string, kind: Kind, id: string, className: string,
              attributes: seq<Attr>, childNodes: seq<Node>)

  type Pos = seq<nat>

  /** `node.textContent` of an element: the text of all descendant text nodes, in document order. */
  function TextContent(n: Node): string
    decreases n, 1
  {
    match n
    case Text(d) => d
    case Comment(_) => ""
    case Element(_, _, _, _, _, cs) => ConcatText(cs)
  }

  function ConcatText(cs: seq<Node>): string
    decreases cs, 0
  {
    if cs == [] then "" else ConcatText(cs[..|cs| - 1]) + TextContent(cs[|cs| - 1])
  }

  /** Number of element children, `element.children.length`. */
  function ElementCount(cs: seq<Node>): nat {
    if cs == [] then 0 else ElementCount(cs[..|cs| - 1]) + (if cs[|cs| - 1].Element? then 1 else 0)
  }

  /** Number of element nodes named `name` in cs. */
  function CountNamed(cs: seq<Node>, name: string): (n: nat)
    ensures n <= |cs|
  {
    if cs == [] then 0
    else CountNamed(cs[..|cs| - 1], name) + (if cs[|cs| - 1].Element? && cs[|cs| - 1].name == name then 1 else 0)
  }

  lemma {:induction false} CountNamedPrefix(cs: seq<Node>, i: nat, name: string)
    requires i < |cs|
    ensures CountNamed(cs[..i + 1], name)
         == CountNamed(cs[..i], name) + (if cs[i].Element? && cs[i].name == name then 1 else 0)
  {
    assert cs[..i + 1][..i] == cs[..i];
  }

  /** Counting over a prefix never exceeds counting over the whole. */
  lemma {:induction false} CountNamedMonotone(cs: seq<Node>, i: nat, j: nat, name: string)
    requires i <= j <= |cs|
    ensures CountNamed(cs[..i], name) <= CountNamed(cs[..j], name)
    decreases j - i
  {
    if i < j {
      var pre := cs[..j];
      assert pre[..|pre| - 1] == cs[..j - 1];
      CountNamedMonotone(cs, i, j - 1, name);
    }
  }

  function Parent(p: Pos): Pos
    requires p != []
  {
    p[..|p| - 1]
  }

  function Last(p: Pos): nat
    requires p != []
  {
    p[|p| - 1]
  }

  /** The node a position leads to, if any. */
  function Lookup(root: Node, p: Pos): Option<Node>
    decreases |p|
  {
    if p == [] then Some(root)
    else match Lookup(root, Parent(p))
      case Some(Element(_, _, _, _, _, cs)) => if Last(p) < |cs| then Some(cs[Last(p)]) else None
      case _ => None
  }

  /** A position that leads to a node of the tree. */
  predicate ValidPos(root: Node, p: Pos) {
    Lookup(root, p).Some?
  }

  function NodeAt(root: Node, p: Pos): Node
    requires ValidPos(root, p)
  {
    Lookup(root, p).value
  }

  /** The parent of a node is an element that has it among its children. */
  lemma ParentOfValid(root: Node, p: Pos)
    requires p != [] && ValidPos(root, p)
    ensures IsElementPos(root, Parent(p))
    ensures Last(p) < |NodeAt(root, Parent(p)).childNodes|
    ensures NodeAt(root, p) == NodeAt(root, Parent(p)).childNodes[Last(p)]
  {
  }

  /** A position of an element (not of a text or comment node). */
  predicate IsElementPos(root: Node, p: Pos) {
    ValidPos(root, p) && NodeAt(root, p).Element?
  }

  /** Every ancestor of an element is an element: the chain of `parentElement`
      from an element reaches the document element through elements only. */
  lemma {:induction false} AncestorsAreElements(root: Node, p: Pos, k: nat)
    requires root.Element? && IsElementPos(root, p) && k <= |p|
    ensures IsElementPos(root, p[..k])
    decreases |p| - k
  {
    if k < |p| {
      ParentOfValid(root, p);
      AncestorsAreElements(root, Parent(p), k);
      assert Parent(p)[..k] == p[..k];
    } else {
      assert p[..k] == p;
    }
  }

  /** A parse in which every element has a non-empty tag name. */
  predicate WellNamed(n: Node)
    decreases n, 1
  {
    match n
    case Element(name, _, _, _, _, cs) => name != [] && AllWellNamed(cs)
    case _ => true
  }

  predicate AllWellNamed(cs: seq<Node>)
    decreases cs, 0
  {
    forall i :: 0 <= i < |cs| ==> WellNamed(cs[i])
  }

  lemma {:induction false} WellNamedAt(root: Node, p: Pos)
    requires WellNamed(root) && ValidPos(root, p)
    ensures WellNamed(NodeAt(root, p))
    decreases |p|
  {
    if p != [] {
      WellNamedAt(root, Parent(p));
      ParentOfValid(root, p);
    }
  }
}

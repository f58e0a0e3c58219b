/**
 * The document tree the converter walks. The parser back-ends are not part
 * of this model: a parsed document is a `Node` value, and a node's identity
 * (the source's `NodeHandle`) is its path of child indices from the root.
 * Text, whitespace-only text and CDATA nodes are one `Text` constructor,
 * because the converter treats the three alike.
 */
module Dom {

  import opened Strings
  import opened Wrappers

  datatype Attr = Attr(name: Str, value: Str)

  datatype Node =
    | Document(children: seq<Node>)
    | Element(tag: Str, attrs: seq<Attr>, children: seq<Node>)
    | Text(text: Str)
    | Comment(text: Str)

  /** A node's identity: child indices from the root. */
  type Path = seq<nat>

  function Children(n: Node): seq<Node>
  {
    if n.Document? || n.Element? then n.children else []
  }

  /** The node at `p`, if `p` names one. */
  function TryAt(root: Node, p: Path): Option<Node>
    decreases |p|
  {
    if p == [] then Some(root)
    else match TryAt(root, p[..|p| - 1])
      case None => None
      case Some(n) => if p[|p| - 1] < |Children(n)| then Some(Children(n)[p[|p| - 1]]) else None
  }

  predicate ValidPath(root: Node, p: Path)
  {
    TryAt(root, p).Some?
  }

  function At(root: Node, p: Path): Node
    requires ValidPath(root, p)
  {
    TryAt(root, p).value
  }

  lemma ChildPath(root: Node, p: Path, i: nat)
    ensures ValidPath(root, p + [i]) <==> ValidPath(root, p) && i < |Children(At(root, p))|
    ensures ValidPath(root, p + [i]) ==> At(root, p + [i]) == Children(At(root, p))[i]
  {
    assert (p + [i])[..|p + [i]| - 1] == p;
  }

  lemma {:induction false} PrefixValid(root: Node, p: Path, k: nat)
    requires ValidPath(root, p) && k <= |p|
    ensures ValidPath(root, p[..k])
    decreases |p|
  {
    if k < |p| {
      PrefixValid(root, p[..|p| - 1], k);
      assert p[..|p| - 1][..k] == p[..k];
    } else {
      assert p[..k] == p;
    }
  }

  /** `tag_name()`: the tag of an element, "" for any other node. */
  function TagName(n: Node): Str
  {
    if n.Element? then n.tag else ""
  }

  predicate HasTag(n: Node, tag: Str)
  {
    n.Element? && n.tag == tag
  }

  /** `text()`: the character data of a text or comment node, "" otherwise. */
  function NodeText(n: Node): Str
  {
    if n.Text? || n.Comment? then n.text else ""
  }

  /** The value of the first attribute called `name`, or "" when there is none. */
  function Attribute(n: Node, name: Str): (v: Str)
    ensures !n.Element? ==> v == []
  {
    if n.Element? then FirstValue(n.attrs, name) else []
  }

  function FirstValue(attrs: seq<Attr>, name: Str): (v: Str)
    ensures (forall k :: 0 <= k < |attrs| ==> attrs[k].name != name) ==> v == []
    ensures forall k :: (0 <= k < |attrs| && attrs[k].name == name
      && (forall j :: 0 <= j < k ==> attrs[j].name != name)) ==> v == attrs[k].value
  {
    if attrs == [] then []
    else if attrs[0].name == name then attrs[0].value
    else FirstValue(attrs[1..], name)
  }

  // Navigation, as the tree adapters expose it; `None` is a null view.

  function Parent(root: Node, p: Path): (r: Option<Path>)
    ensures r.Some? <==> p != []
    ensures r.Some? ==> r.value == p[..|p| - 1]
  {
    if p == [] then None else Some(p[..|p| - 1])
  }

  function NextSibling(root: Node, p: Path): (r: Option<Path>)
    ensures r.Some? ==> p != [] && ValidPath(root, r.value) && r.value == p[..|p| - 1] + [p[|p| - 1] + 1]
  {
    if p == [] then None
    else
      var q := p[..|p| - 1] + [p[|p| - 1] + 1];
      if ValidPath(root, q) then Some(q) else None
  }

  function FirstChild(root: Node, p: Path): (r: Option<Path>)
    ensures r.Some? ==> ValidPath(root, r.value) && r.value == p + [0]
  {
    if ValidPath(root, p + [0]) then Some(p + [0]) else None
  }

  /** No document node in the subtree: documents occur only as a tree's root. */
  predicate NoDocument(n: Node)
    decreases n
  {
    !n.Document? && forall i :: 0 <= i < |Children(n)| ==> NoDocument(Children(n)[i])
  }

  /** Number of nodes in a subtree. */
  function Size(n: Node): nat
    decreases n, 1
  {
    1 + ChildrenSize(n, |Children(n)|)
  }

  /** Total size of the first `k` children of `n`. */
  function ChildrenSize(n: Node, k: nat): nat
    requires k <= |Children(n)|
    decreases n, 0, k
  {
    if k == 0 then 0 else ChildrenSize(n, k - 1) + Size(Children(n)[k - 1])
  }

  /**
   * The whitespace overlay the collapser computes (`CollapsedWhitespace`):
   * replacement text for some text nodes and a set of nodes to skip. The
   * source installs it in a global while converting; here it is passed.
   */
  datatype Collapsed = Collapsed(textReplacements: map<Path, Str>, nodesToOmit: set<Path>)

  const NoOverlay := Collapsed(map[], {})
}

/**
 * `escapeHtml` and `serializeNodeRecursive` of `utilities.cpp`: a node is
 * written back out as HTML, for the rules that keep an element as it is.
 */
module HtmlSerialize {

  import opened Strings
  import opened Dom
  import Utilities
  import TidyAdapter

  // ----- escapeHtml -----

  /** What one byte becomes: `&`, `<` and `>` always, quotes only in an attribute value. */
  function HtmlPiece(c: Byte, attribute: bool): Str
  {
    if c == '&' then "&amp;"
    else if c == '<' then "&lt;"
    else if c == '>' then "&gt;"
    else if c == '"' then (if attribute then "&quot;" else "\"")
    else if c == '\'' then (if attribute then "&#39;" else "'")
    else [c]
  }

  /** The escaped text: each byte's piece, in order. */
  function EscapedHtml(t: Str, attribute: bool): Str
    decreases |t|
  {
    if t == [] then [] else EscapedHtml(t[..|t| - 1], attribute) + HtmlPiece(t[|t| - 1], attribute)
  }

  /** `escapeHtml`: appends each byte's piece to the output. */
  method EscapeHtml(text: Str, attribute: bool) returns (output: Str)
    ensures output == EscapedHtml(text, attribute)
  {
    output := [];
    for i := 0 to |text|
      invariant output == EscapedHtml(text[..i], attribute)
    {
      assert text[..i + 1][..i] == text[..i];
      output := output + HtmlPiece(text[i], attribute);
    }
    assert text[..|text|] == text;
  }

  lemma {:induction false} EscapedHtmlAppend(a: Str, b: Str, attribute: bool)
    ensures EscapedHtml(a + b, attribute) == EscapedHtml(a, attribute) + EscapedHtml(b, attribute)
    decreases |b|
  {
    if b != [] {
      var b' := b[..|b| - 1];
      EscapedHtmlAppend(a, b', attribute);
      var piece := HtmlPiece(b[|b| - 1], attribute);
      assert (a + b)[..|a + b| - 1] == a + b';
      assert (a + b)[|a + b| - 1] == b[|b| - 1];
      assert EscapedHtml(a + b, attribute) == EscapedHtml(a + b', attribute) + piece;
      assert EscapedHtml(b, attribute) == EscapedHtml(b', attribute) + piece;
    } else {
      assert a + b == a;
    }
  }

  lemma EscapedHtmlCons(c: Byte, rest: Str, attribute: bool)
    ensures EscapedHtml([c] + rest, attribute) == HtmlPiece(c, attribute) + EscapedHtml(rest, attribute)
  {
    EscapedHtmlAppend([c], rest, attribute);
    assert [c][..0] == [];
  }

  /**
   * No raw `<` or `>` is left, so escaped text cannot open or close a tag;
   * in an attribute value no quote is left either.
   */
  lemma {:induction false} EscapedHtmlSafe(t: Str, attribute: bool)
    ensures '<' !in EscapedHtml(t, attribute) && '>' !in EscapedHtml(t, attribute)
    ensures attribute ==> '"' !in EscapedHtml(t, attribute) && '\'' !in EscapedHtml(t, attribute)
    decreases |t|
  {
    if t != [] {
      EscapedHtmlSafe(t[..|t| - 1], attribute);
      PieceSafe(t[|t| - 1], attribute);
    }
  }

  lemma PieceSafe(c: Byte, attribute: bool)
    ensures '<' !in HtmlPiece(c, attribute) && '>' !in HtmlPiece(c, attribute)
    ensures attribute ==> '"' !in HtmlPiece(c, attribute) && '\'' !in HtmlPiece(c, attribute)
  {
  }

  /**
   * Text escaped for an element's content is read back exactly by the
   * entity decoder of the tidy back-end; so is an attribute value without an
   * apostrophe (`&#39;` is not among the entities that decoder knows).
   */
  lemma {:induction false} EscapedHtmlRoundTrip(t: Str, attribute: bool)
    requires attribute ==> '\'' !in t
    ensures TidyAdapter.DecodeEntities(EscapedHtml(t, attribute)) == t
    decreases |t|
  {
    if t != [] {
      var rest := EscapedHtml(t[1..], attribute);
      EscapedHtmlRoundTrip(t[1..], attribute);
      assert t == [t[0]] + t[1..];
      EscapedHtmlCons(t[0], t[1..], attribute);
      PieceDecodes(t[0], attribute, rest);
    }
  }

  lemma PieceDecodes(c: Byte, attribute: bool, rest: Str)
    requires attribute ==> c != '\''
    ensures TidyAdapter.DecodeEntities(HtmlPiece(c, attribute) + rest) == [c] + TidyAdapter.DecodeEntities(rest)
  {
    if c == '&' {
      TidyAdapter.DecodeAmpFirst(rest);
    } else if c == '<' {
      TidyAdapter.DecodeLtFirst(rest);
    } else if c == '>' {
      TidyAdapter.DecodeGtFirst(rest);
    } else if c == '"' && attribute {
      TidyAdapter.DecodeQuotFirst(rest);
    } else {
      TidyAdapter.DecodeByteFirst(c, rest);
    }
  }

  // ----- serializeNodeRecursive -----

  /** ` name="value"` for each attribute, in order; names are written as they are. */
  function SerializedAttrs(attrs: seq<Attr>): Str
  {
    if attrs == [] then [] else SerializedAttrs(attrs[..|attrs| - 1]) + SerializedAttr(attrs[|attrs| - 1])
  }

  function SerializedAttr(a: Attr): Str
  {
    " " + a.name + "=\"" + EscapedHtml(a.value, true) + "\""
  }

  /** The HTML for a subtree. A void element gets no closing tag and its children are not written. */
  function Serialized(n: Node): Str
    decreases n, 1
  {
    match n
    case Text(t) => EscapedHtml(t, false)
    case Comment(t) => "<!--" + t + "-->"
    case Document(_) => SerializedChildren(n, |Children(n)|)
    case Element(tag, attrs, _) =>
      "<" + tag + SerializedAttrs(attrs) + ">"
        + (if Utilities.IsVoid(n) then [] else SerializedChildren(n, |Children(n)|) + "</" + tag + ">")
  }

  /** The HTML for the first `k` children of `n`. */
  function SerializedChildren(n: Node, k: nat): Str
    requires k <= |Children(n)|
    decreases n, 0, k
  {
    if k == 0 then [] else SerializedChildren(n, k - 1) + Serialized(Children(n)[k - 1])
  }

  /** `serializeNodeRecursive`: appends the HTML for `n` to `output`. */
  method SerializeInto(n: Node, output: Str) returns (out: Str)
    ensures out == output + Serialized(n)
    decreases n, 1
  {
    match n
    case Text(t) =>
      var escaped := EscapeHtml(t, false);
      out := output + escaped;
    case Comment(t) =>
      out := output + ("<!--" + t + "-->");
    case Document(_) =>
      out := SerializeChildrenInto(n, output);
    case Element(tag, attrs, _) =>
      var startTag := SerializeStartTag(tag, attrs);
      var start := output + startTag;
      var voidElement := Utilities.IsVoid(n);
      if !voidElement {
        var inner := SerializeChildrenInto(n, start);
        out := inner + ("</" + tag + ">");
      } else {
        out := start;
      }
  }

  /** `<`, the tag, its attributes and `>`. */
  method SerializeStartTag(tag: Str, attrs: seq<Attr>) returns (r: Str)
    ensures r == "<" + tag + SerializedAttrs(attrs) + ">"
  {
    r := SerializeAttrsInto(attrs, "<" + tag);
    r := r + ">";
  }

  /** The attribute loop of `serializeNodeRecursive`. */
  method SerializeAttrsInto(attrs: seq<Attr>, output: Str) returns (out: Str)
    ensures out == output + SerializedAttrs(attrs)
  {
    out := output;
    for i := 0 to |attrs|
      invariant out == output + SerializedAttrs(attrs[..i])
    {
      assert attrs[..i + 1][..i] == attrs[..i];
      var attr := SerializeAttr(attrs[i]);
      out := out + attr;
    }
    assert attrs[..|attrs|] == attrs;
  }

  /** One attribute: ` name="value"`, the value escaped for an attribute. */
  method SerializeAttr(a: Attr) returns (r: Str)
    ensures r == SerializedAttr(a)
  {
    var value := EscapeHtml(a.value, true);
    r := " " + a.name + "=\"" + value + "\"";
  }

  /** The loop over the children of a document or an element. */
  method SerializeChildrenInto(n: Node, output: Str) returns (out: Str)
    ensures out == output + SerializedChildren(n, |Children(n)|)
    decreases n, 0
  {
    out := output;
    for i := 0 to |Children(n)|
      invariant out == output + SerializedChildren(n, i)
    {
      out := SerializeInto(Children(n)[i], out);
    }
  }

  /** `serializeNode`. */
  method SerializeNode(n: Node) returns (html: Str)
    ensures html == Serialized(n)
  {
    html := SerializeInto(n, []);
  }

  // ----- Only markup opens with `<` -----

  /** Number of `<` bytes in `s`. */
  function LtCount(s: Str): nat
  {
    multiset(s)['<']
  }

  lemma {:induction false} AttrsLtFree(attrs: seq<Attr>)
    requires forall i :: 0 <= i < |attrs| ==> '<' !in attrs[i].name
    ensures '<' !in SerializedAttrs(attrs)
    decreases |attrs|
  {
    if attrs != [] {
      AttrsLtFree(attrs[..|attrs| - 1]);
      AttrLtFree(attrs[|attrs| - 1]);
    }
  }

  lemma AttrLtFree(a: Attr)
    requires '<' !in a.name
    ensures '<' !in SerializedAttr(a)
  {
    EscapedHtmlSafe(a.value, true);
  }

  /** The `<` bytes the serialiser writes for a subtree: one per tag it emits, plus those inside comments. */
  function Markup(n: Node): nat
    decreases n, 1
  {
    match n
    case Text(_) => 0
    case Comment(t) => 1 + LtCount(t)
    case Document(_) => ChildrenMarkup(n, |Children(n)|)
    case Element(_, _, _) => 1 + (if Utilities.IsVoid(n) then 0 else ChildrenMarkup(n, |Children(n)|) + 1)
  }

  function ChildrenMarkup(n: Node, k: nat): nat
    requires k <= |Children(n)|
    decreases n, 0, k
  {
    if k == 0 then 0 else ChildrenMarkup(n, k - 1) + Markup(Children(n)[k - 1])
  }

  /** No `<` in a tag or attribute name, anywhere in the subtree. */
  predicate PlainNames(n: Node)
    decreases n
  {
    (n.Element? ==> '<' !in n.tag && forall i :: 0 <= i < |n.attrs| ==> '<' !in n.attrs[i].name)
    && forall i :: 0 <= i < |Children(n)| ==> PlainNames(Children(n)[i])
  }

  lemma LtCountLiterals()
    ensures LtCount("<") == 1 && LtCount(">") == 0 && LtCount("</") == 1
    ensures LtCount("<!--") == 1 && LtCount("-->") == 0
  {
    assert "</" == "<" + "/";
    assert "<!--" == "<" + "!--";
    assert '<' !in "!--" && '<' !in "-->" && '<' !in ">" && '<' !in "/";
  }

  /** The `<` count of an element's HTML, from the counts of its parts. */
  lemma ElementLtCount(tag: Str, attrs: Str, inner: Str, isVoid: bool)
    requires '<' !in tag && '<' !in attrs
    ensures LtCount("<" + tag + attrs + ">" + (if isVoid then [] else inner + "</" + tag + ">"))
      == 1 + (if isVoid then 0 else LtCount(inner) + 1)
  {
    LtCountLiterals();
    assert LtCount(tag) == 0 && LtCount(attrs) == 0;
  }

  /**
   * Text and attribute values never contribute a `<`: every `<` of the
   * output opens a tag or a comment, or was inside a comment already.
   */
  lemma {:induction false} SerializedMarkup(n: Node)
    requires PlainNames(n)
    ensures LtCount(Serialized(n)) == Markup(n)
    decreases n, 1
  {
    match n
    case Text(t) =>
      EscapedHtmlSafe(t, false);
    case Comment(t) =>
      LtCountLiterals();
    case Document(_) =>
      SerializedChildrenMarkup(n, |Children(n)|);
    case Element(_, _, _) =>
      SerializedChildrenMarkup(n, |Children(n)|);
      ElementMarkup(n);
  }

  lemma ElementMarkup(n: Node)
    requires n.Element? && PlainNames(n)
    requires LtCount(SerializedChildren(n, |Children(n)|)) == ChildrenMarkup(n, |Children(n)|)
    ensures LtCount(Serialized(n)) == Markup(n)
  {
    AttrsLtFree(n.attrs);
    ElementLtCount(n.tag, SerializedAttrs(n.attrs), SerializedChildren(n, |Children(n)|), Utilities.IsVoid(n));
  }

  lemma {:induction false} SerializedChildrenMarkup(n: Node, k: nat)
    requires PlainNames(n) && k <= |Children(n)|
    ensures LtCount(SerializedChildren(n, k)) == ChildrenMarkup(n, k)
    decreases n, 0, k
  {
    if k > 0 {
      SerializedChildrenMarkup(n, k - 1);
      SerializedMarkup(Children(n)[k - 1]);
    }
  }
}

/**
 * Text and tree helpers shared by the converter: the UTF-8 decoding loop,
 * the whitespace tables, `trimStr`, the element tables and the tree
 * searches, and text collection through the whitespace overlay.
 */
module Utilities {

  import opened Strings
  import opened Wrappers
  import opened Utf8Helpers
  import opened Dom

  /** `decodeUtf8`: the index loop that pushes one decoded slice per step. */
  method DecodeUtf8(text: Str) returns (result: seq<Slice>)
    ensures result == Decode(text)
    ensures Tiling(result, 0, |text|)
  {
    result := [];
    var i := 0;
    while i < |text|
      invariant i <= |text|
      invariant result + DecodeFrom(text, i) == Decode(text)
      decreases |text| - i
    {
      var decoded := DecodeAt(text, i);
      DecodeFromStep(text, i);
      result := result + [decoded];
      i := i + decoded.length;
    }
    DecodeTiles(text);
  }

  /** One iteration of `decodeUtf8` moves one slice from the rest to the result. */
  lemma DecodeFromStep(text: Str, i: nat)
    requires i < |text|
    ensures forall r: seq<Slice> :: (r + DecodeFrom(text, i) ==
      (r + [DecodeAt(text, i)]) + DecodeFrom(text, i + DecodeAt(text, i).length))
  {
  }

  // ----- Whitespace -----

  predicate IsAsciiWhitespaceCodePoint(cp: nat)
  {
    cp == 0x20 || (0x09 <= cp <= 0x0D)
  }

  /** The code points `isUnicodeWhitespace` accepts, as a table. */
  const UnicodeWhitespace: set<nat> :=
    {0x09, 0x0A, 0x0B, 0x0C, 0x0D, 0x20,
     0x0085, 0x00A0, 0x1680, 0x180E,
     0x2000, 0x2001, 0x2002, 0x2003, 0x2004, 0x2005, 0x2006, 0x2007, 0x2008, 0x2009, 0x200A,
     0x2028, 0x2029, 0x202F, 0x205F, 0x3000}

  /** The table and the test agree. */
  lemma UnicodeWhitespaceTable(cp: nat)
    ensures IsUnicodeWhitespace(cp) <==> cp in UnicodeWhitespace
  {
  }

  function IsUnicodeWhitespace(cp: nat): bool
  {
    IsAsciiWhitespaceCodePoint(cp)
    || cp == 0x0085 || cp == 0x00A0 || cp == 0x1680 || cp == 0x180E
    || (0x2000 <= cp <= 0x200A)
    || cp == 0x2028 || cp == 0x2029 || cp == 0x202F || cp == 0x205F || cp == 0x3000
  }

  /** `isAsciiWhitespace`: the four bytes the collapser's `[ \r\n\t]` class matches. */
  predicate IsAsciiWhitespace(c: Byte)
  {
    c == ' ' || c == '\t' || c == '\r' || c == '\n'
  }

  // ----- trimStr -----

  predicate IsWsSlice(s: Slice) { IsUnicodeWhitespace(s.codepoint) }

  /** Index of the first non-whitespace slice, `|cs|` when there is none (`find_if`). */
  function FirstNonWs(cs: seq<Slice>): (k: nat)
    ensures k <= |cs|
    ensures forall j :: 0 <= j < k ==> IsWsSlice(cs[j])
    ensures k < |cs| ==> !IsWsSlice(cs[k])
  {
    if cs == [] || !IsWsSlice(cs[0]) then 0 else 1 + FirstNonWs(cs[1..])
  }

  /** Index of the last non-whitespace slice, -1 when there is none (`find_if` on reverse iterators). */
  function LastNonWs(cs: seq<Slice>): (k: int)
    ensures -1 <= k < |cs|
    ensures forall j :: k < j < |cs| ==> IsWsSlice(cs[j])
    ensures k >= 0 ==> !IsWsSlice(cs[k])
  {
    if cs == [] then -1
    else if !IsWsSlice(cs[|cs| - 1]) then |cs| - 1
    else LastNonWs(cs[..|cs| - 1])
  }

  /** The byte range `trimStr` keeps: from the first non-whitespace code point to the end of the last. */
  function TrimRange(s: Str): (r: (nat, nat))
    ensures r.0 <= r.1 <= |s|
  {
    // A non-empty input always decodes to at least one slice, so the
    // source's test for an empty decoding is subsumed by the next one.
    if s == [] then (0, 0)
    else
      var chars := Decode(s);
      var f := FirstNonWs(chars);
      if f == |chars| then (0, 0)
      else
        var l := LastNonWs(chars);
        TrimBounds(s);
        (chars[f].start, chars[l].start + chars[l].length)
  }

  /** `trimStr`: removes Unicode whitespace from both ends, cutting at byte offsets. */
  function TrimStr(s: Str): (r: Str)
    ensures r == s[TrimRange(s).0..TrimRange(s).1]
  {
    s[TrimRange(s).0..TrimRange(s).1]
  }

  /** The first non-whitespace slice starts before the last one ends, inside `s`. */
  lemma TrimBounds(s: Str)
    requires FirstNonWs(Decode(s)) < |Decode(s)|
    ensures var chars := Decode(s);
      var f := FirstNonWs(chars);
      var l := LastNonWs(chars);
      0 <= f <= l && chars[f].start < chars[l].start + chars[l].length <= |s|
  {
    var chars := Decode(s);
    DecodeTiles(s);
    TilingOrdered(chars, 0, |s|, FirstNonWs(chars), LastNonWs(chars));
  }

  /**
   * `kept` is what `trimStr` keeps of `text` tiled by `cs`: the bytes from
   * the first non-whitespace slice `f` to the end of the last one, `l`.
   */
  predicate CutAt(text: Str, cs: seq<Slice>, f: nat, l: int, kept: Str)
  {
    Tiling(cs, 0, |text|) && f == FirstNonWs(cs) && l == LastNonWs(cs) && f <= l < |cs|
    && cs[f].start < cs[l].start + cs[l].length <= |text|
    && kept == text[cs[f].start..cs[l].start + cs[l].length]
  }

  /** Where `trimStr` cuts a text that is not all whitespace, as slice indices `f` and `l`. */
  lemma TrimCut(s: Str) returns (f: nat, l: nat)
    requires FirstNonWs(Decode(s)) < |Decode(s)|
    ensures CutAt(s, Decode(s), f, l, TrimStr(s))
  {
    TrimCutFacts(s);
    f := FirstNonWs(Decode(s));
    l := LastNonWs(Decode(s));
  }

  lemma TrimCutFacts(s: Str)
    requires FirstNonWs(Decode(s)) < |Decode(s)|
    ensures LastNonWs(Decode(s)) >= 0
    ensures CutAt(s, Decode(s), FirstNonWs(Decode(s)), LastNonWs(Decode(s)), TrimStr(s))
  {
    DecodeIsTiling(s);
    TrimBounds(s);
    TrimRangeAt(s);
  }

  /** Where `trimStr` cuts, when there is something to keep. */
  lemma TrimRangeAt(text: Str)
    requires FirstNonWs(Decode(text)) < |Decode(text)|
    ensures LastNonWs(Decode(text)) >= 0
    ensures TrimRange(text) == (Decode(text)[FirstNonWs(Decode(text))].start,
      Decode(text)[LastNonWs(Decode(text))].start + Decode(text)[LastNonWs(Decode(text))].length)
  {
    assert text != [];
  }

  /** In a tiling, a later slice starts no earlier than an earlier one ends. */
  lemma TilingOrdered(cs: seq<Slice>, from: nat, to: nat, f: nat, l: nat)
    requires Tiling(cs, from, to) && f <= l < |cs|
    ensures from <= cs[f].start <= cs[l].start && cs[l].start + cs[l].length <= to
  {
    TilingBounds(cs, from, to);
    TilingMonotone(cs, from, to, f, l);
  }

  /** Consecutive slices of a decoding are each what the decoder reads at their start. */
  lemma SubDecodes(s: Str, cs: seq<Slice>, ds: seq<Slice>, f: nat, l: nat)
    requires f <= l < |cs| && ds == cs[f..l + 1]
    requires forall k :: 0 <= k < |cs| ==> cs[k].start < |s| && cs[k] == DecodeAt(s, cs[k].start)
    ensures forall m :: 0 <= m < |ds| ==> ds[m].start < |s| && ds[m] == DecodeAt(s, ds[m].start)
  {
    forall m | 0 <= m < |ds|
      ensures ds[m].start < |s| && ds[m] == DecodeAt(s, ds[m].start)
    {
      assert ds[m] == cs[f + m];
    }
  }

  /** Shifting slices keeps their code points. */
  lemma ShiftCodepoints(x: seq<Slice>, ds: seq<Slice>, a: nat)
    requires forall k :: 0 <= k < |ds| ==> a <= ds[k].start
    requires x == ShiftAll(ds, a)
    ensures |x| == |ds| && forall m :: 0 <= m < |x| ==> x[m].codepoint == ds[m].codepoint
  {
  }

  /** Consecutive slices of a tiling tile the bytes they cover. */
  lemma SubTiling(cs: seq<Slice>, from: nat, to: nat, f: nat, l: nat)
    requires Tiling(cs, from, to) && f <= l < |cs|
    ensures Tiling(cs[f..l + 1], cs[f].start, cs[l].start + cs[l].length)
  {
    var ds := cs[f..l + 1];
    forall m | 0 <= m < |ds| - 1
      ensures ds[m + 1].start == ds[m].start + ds[m].length
    {
      assert ds[m] == cs[f + m] && ds[m + 1] == cs[f + m + 1];
    }
  }

  lemma {:induction false} TilingMonotone(cs: seq<Slice>, from: nat, to: nat, f: nat, l: nat)
    requires Tiling(cs, from, to) && f <= l < |cs|
    ensures cs[f].start <= cs[l].start
    decreases l - f
  {
    if f < l {
      TilingMonotone(cs, from, to, f, l - 1);
    }
  }

  /** The kept bytes decode to the code points of the kept slices of the original. */
  lemma TrimWindow(s: Str)
    requires FirstNonWs(Decode(s)) < |Decode(s)|
    ensures var chars := Decode(s);
      var f := FirstNonWs(chars);
      var l := LastNonWs(chars);
      f <= l && |Decode(TrimStr(s))| == l + 1 - f
      && forall m :: 0 <= m < l + 1 - f ==> Decode(TrimStr(s))[m].codepoint == chars[f + m].codepoint
  {
    var chars := Decode(s);
    TrimBounds(s);
    var f := FirstNonWs(chars);
    var l := LastNonWs(chars);
    DecodeSubrange(s, f, l);
    assert TrimStr(s) == s[chars[f].start..chars[l].start + chars[l].length];
  }

  /** The bytes of slices `f..l` of a decoding decode, on their own, to the same code points. */
  lemma DecodeSubrange(s: Str, f: nat, l: nat)
    requires f <= l < |Decode(s)|
    ensures var chars := Decode(s);
      var a := chars[f].start;
      var b := chars[l].start + chars[l].length;
      a < b <= |s| && |Decode(s[a..b])| == l + 1 - f
      && forall m :: 0 <= m < l + 1 - f ==> Decode(s[a..b])[m].codepoint == chars[f + m].codepoint
  {
    DecodeTiles(s);
    var chars := Decode(s);
    TiledSubrange(s, chars, f, l, chars[f].start, chars[l].start + chars[l].length);
  }

  /** `DecodeSubrange` for any tiling of `s` by slices the decoder reads. */
  lemma TiledSubrange(s: Str, chars: seq<Slice>, f: nat, l: nat, a: nat, b: nat)
    requires f <= l < |chars| && Tiling(chars, 0, |s|)
    requires forall k :: 0 <= k < |chars| ==> chars[k].start < |s| && chars[k] == DecodeAt(s, chars[k].start)
    requires a == chars[f].start && b == chars[l].start + chars[l].length
    ensures a < b <= |s|
    ensures |Decode(s[a..b])| == l + 1 - f
    ensures forall m :: 0 <= m < l + 1 - f ==> Decode(s[a..b])[m].codepoint == chars[f + m].codepoint
  {
    TilingOrdered(chars, 0, |s|, f, l);
    var ds := chars[f..l + 1];
    SubTiling(chars, 0, |s|, f, l);
    SubDecodes(s, chars, ds, f, l);
    DecodeWindow(s, a, b, ds);
    var x := Decode(s[a..b]);
    ShiftCodepoints(x, ds, a);
    SliceCodepoints(x, chars, f, l);
  }

  /** Code points that agree with a slice `f..l` of `chars` agree with `chars` shifted by `f`. */
  lemma SliceCodepoints(x: seq<Slice>, chars: seq<Slice>, f: nat, l: nat)
    requires f <= l < |chars|
    requires |x| == l + 1 - f
    requires forall m :: 0 <= m < |x| ==> x[m].codepoint == chars[f..l + 1][m].codepoint
    ensures forall m :: 0 <= m < l + 1 - f ==> x[m].codepoint == chars[f + m].codepoint
  {
    forall m | 0 <= m < l + 1 - f
      ensures x[m].codepoint == chars[f + m].codepoint
    {
      assert chars[f..l + 1][m] == chars[f + m];
    }
  }

  /**
   * `trimStr` returns "" exactly when every code point is whitespace;
   * otherwise its first and last code points are not whitespace.
   */
  lemma TrimStrEnds(s: Str)
    ensures TrimStr(s) == [] <==> forall k :: 0 <= k < |Decode(s)| ==> IsWsSlice(Decode(s)[k])
    ensures TrimStr(s) != [] ==>
      Decode(TrimStr(s)) != []
      && !IsWsSlice(Decode(TrimStr(s))[0])
      && !IsWsSlice(Decode(TrimStr(s))[|Decode(TrimStr(s))| - 1])
  {
    var chars := Decode(s);
    if FirstNonWs(chars) < |chars| {
      DecodeTiles(s);
      TrimBounds(s);
      TrimWindow(s);
      var l := LastNonWs(chars);
      var f := FirstNonWs(chars);
      var ct := Decode(TrimStr(s));
      assert ct[|ct| - 1].codepoint == chars[f + (l - f)].codepoint;
    }
  }

  /** A string whose first and last code points are not whitespace is its own trim. */
  lemma TrimStrOfTrimmed(t: Str)
    requires Decode(t) != []
    requires !IsWsSlice(Decode(t)[0]) && !IsWsSlice(Decode(t)[|Decode(t)| - 1])
    ensures TrimStr(t) == t
  {
    var ct := Decode(t);
    DecodeTiles(t);
    assert FirstNonWs(ct) == 0;
    assert LastNonWs(ct) == |ct| - 1;
    assert TrimRange(t) == (0, |t|);
  }

  /** Trimming twice is trimming once. */
  lemma TrimStrIdempotent(s: Str)
    ensures TrimStr(TrimStr(s)) == TrimStr(s)
  {
    TrimStrEnds(s);
    if TrimStr(s) != [] {
      TrimStrOfTrimmed(TrimStr(s));
    }
  }

  // ----- Element tables -----

  const BlockTags: seq<string> := [
    "address", "article", "aside", "audio", "blockquote", "body", "canvas",
    "center", "dd", "dir", "div", "dl", "dt", "fieldset", "figcaption",
    "figure", "footer", "form", "frameset", "h1", "h2", "h3", "h4", "h5",
    "h6", "header", "hgroup", "hr", "html", "isindex", "li", "main", "menu",
    "nav", "noframes", "noscript", "ol", "output", "p", "pre", "section",
    "table", "tbody", "td", "tfoot", "th", "thead", "tr", "ul"]

  const VoidTags: seq<string> := [
    "area", "base", "br", "col", "command", "embed", "hr",
    "img", "input", "keygen", "link", "meta", "param",
    "source", "track", "wbr"]

  const MeaningfulWhenBlankTags: seq<string> := [
    "a", "table", "thead", "tbody", "tfoot", "th", "td",
    "iframe", "script", "audio", "video"]

  /** `nodeHasTag`: an element whose tag is one of `tags`, compared exactly. */
  predicate NodeHasTag(n: Node, tags: seq<string>)
  {
    n.Element? && n.tag in tags
  }

  /** `hasDescendantWithTag`: some child, or a descendant of a child, has one of `tags`. */
  predicate HasDescendantWithTag(n: Node, tags: seq<string>)
    decreases n
  {
    n.Element? &&
    exists i :: 0 <= i < |n.children| &&
      (NodeHasTag(n.children[i], tags) || HasDescendantWithTag(n.children[i], tags))
  }

  predicate IsBlock(n: Node) { NodeHasTag(n, BlockTags) }

  predicate IsVoid(n: Node) { NodeHasTag(n, VoidTags) }

  predicate IsPre(n: Node) { HasTag(n, "pre") }

  predicate IsMeaningfulWhenBlank(n: Node) { NodeHasTag(n, MeaningfulWhenBlankTags) }

  predicate HasMeaningfulWhenBlank(n: Node) { HasDescendantWithTag(n, MeaningfulWhenBlankTags) }

  predicate HasVoid(n: Node) { HasDescendantWithTag(n, VoidTags) }

  // ----- Descendant searches -----

  /** The node `q` below `n`, with `q` read from the front. */
  lemma {:induction false} TryAtCons(n: Node, i: nat, q: Path)
    ensures TryAt(n, [i] + q) ==
      (if i < |Children(n)| then TryAt(Children(n)[i], q) else None)
    decreases |q|
  {
    if q != [] {
      var q' := q[..|q| - 1];
      TryAtCons(n, i, q');
      assert ([i] + q)[..|[i] + q| - 1] == [i] + q';
    }
  }

  /** `n` has a strict descendant — a node at a non-empty path below it — carrying one of `tags`. */
  ghost predicate SomeStrictDescendantHas(n: Node, tags: seq<string>)
  {
    exists q: Path :: q != [] && ValidPath(n, q) && NodeHasTag(At(n, q), tags)
  }

  /**
   * `hasDescendantWithTag` examines exactly the strict descendants of an
   * element: the element's own tag plays no part, and non-elements have none.
   * (A document node occurs only as the root, so none lies below `n`.)
   */
  lemma HasDescendantWithTagMeans(n: Node, tags: seq<string>)
    requires NoDocument(n)
    ensures HasDescendantWithTag(n, tags) <==> n.Element? && SomeStrictDescendantHas(n, tags)
  {
    if HasDescendantWithTag(n, tags) {
      HasDescendantWithTagSound(n, tags);
    }
    if n.Element? && SomeStrictDescendantHas(n, tags) {
      HasDescendantWithTagComplete(n, tags);
    }
  }

  lemma {:induction false} HasDescendantWithTagSound(n: Node, tags: seq<string>)
    requires HasDescendantWithTag(n, tags)
    ensures n.Element? && SomeStrictDescendantHas(n, tags)
    decreases n
  {
    var i :| 0 <= i < |n.children| &&
      (NodeHasTag(n.children[i], tags) || HasDescendantWithTag(n.children[i], tags));
    var c := n.children[i];
    if NodeHasTag(c, tags) {
      TryAtCons(n, i, []);
      assert ValidPath(n, [i] + []) && At(n, [i] + []) == c;
    } else {
      HasDescendantWithTagSound(c, tags);
      var q: Path :| q != [] && ValidPath(c, q) && NodeHasTag(At(c, q), tags);
      TryAtCons(n, i, q);
      assert ValidPath(n, [i] + q);
    }
  }

  lemma {:induction false} HasDescendantWithTagComplete(n: Node, tags: seq<string>)
    requires NoDocument(n) && n.Element? && SomeStrictDescendantHas(n, tags)
    ensures HasDescendantWithTag(n, tags)
    decreases n
  {
    var q: Path :| q != [] && ValidPath(n, q) && NodeHasTag(At(n, q), tags);
    var i := q[0];
    var rest := q[1..];
    assert q == [i] + rest;
    TryAtCons(n, i, rest);
    var c := n.children[i];
    assert TryAt(n, q) == TryAt(c, rest);
    if rest != [] {
      assert ValidPath(c, rest) && At(c, rest) == At(n, q);
      assert NoDocument(c);
      assert c.Element? by { ValidNonEmptyHasChildren(c, rest); }
      HasDescendantWithTagComplete(c, tags);
    }
  }

  /** A non-empty path descends through a node with children. */
  lemma ValidNonEmptyHasChildren(n: Node, q: Path)
    requires q != [] && ValidPath(n, q)
    ensures |Children(n)| > 0
  {
    TryAtCons(n, q[0], q[1..]);
    assert q == [q[0]] + q[1..];
  }

  /** `isCodeNode`: the node is a `<code>` element or lies inside one. */
  predicate IsCodeNode(root: Node, p: Path)
    requires ValidPath(root, p)
    decreases |p|
  {
    HasTag(At(root, p), "code")
    || (p != [] && (PrefixValid(root, p, |p| - 1); IsCodeNode(root, p[..|p| - 1])))
  }

  lemma IsCodeNodeMeans(root: Node, p: Path)
    requires ValidPath(root, p)
    ensures IsCodeNode(root, p) <==>
      exists k :: 0 <= k <= |p| && ValidPath(root, p[..k]) && HasTag(At(root, p[..k]), "code")
  {
    if IsCodeNode(root, p) {
      var k := CodeNodeWitness(root, p);
    }
    forall k | 0 <= k <= |p| && ValidPath(root, p[..k]) && HasTag(At(root, p[..k]), "code")
      ensures IsCodeNode(root, p)
    {
      CodeNodeFrom(root, p, k);
    }
  }

  /** A `<code>` element on the path makes every node below it a code node. */
  lemma {:induction false} CodeNodeFrom(root: Node, p: Path, k: nat)
    requires ValidPath(root, p) && k <= |p|
    requires ValidPath(root, p[..k]) && HasTag(At(root, p[..k]), "code")
    ensures IsCodeNode(root, p)
    decreases |p|
  {
    if k == |p| {
      assert p[..k] == p;
    } else {
      PrefixValid(root, p, |p| - 1);
      var up := p[..|p| - 1];
      assert up[..k] == p[..k];
      CodeNodeFrom(root, up, k);
    }
  }

  /** A code node has a `<code>` element on its path, the node itself included. */
  lemma {:induction false} CodeNodeWitness(root: Node, p: Path) returns (k: nat)
    requires ValidPath(root, p) && IsCodeNode(root, p)
    ensures k <= |p| && ValidPath(root, p[..k]) && HasTag(At(root, p[..k]), "code")
    decreases |p|
  {
    if HasTag(At(root, p), "code") {
      k := |p|;
      assert p[..k] == p;
    } else {
      PrefixValid(root, p, |p| - 1);
      var up := p[..|p| - 1];
      k := CodeNodeWitness(root, up);
      assert up[..k] == p[..k];
    }
  }

  // ----- Text collection -----

  /**
   * `collectText`: the text of a subtree as seen through the overlay `ov`;
   * `p` is the identity of `n`. Omitted nodes contribute nothing and a text
   * node with a replacement contributes the replacement.
   */
  function CollectText(n: Node, p: Path, ov: Collapsed): (r: Str)
    ensures p in ov.nodesToOmit ==> r == []
    ensures p !in ov.nodesToOmit && n.Text? ==>
      r == (if p in ov.textReplacements then ov.textReplacements[p] else n.text)
    ensures n.Comment? ==> r == []
    decreases n, 1
  {
    if p in ov.nodesToOmit then []
    else match n
      case Text(t) => if p in ov.textReplacements then ov.textReplacements[p] else t
      case Element(_, _, _) => ChildrenText(n, p, ov, 0)
      case Document(_) => ChildrenText(n, p, ov, 0)
      case Comment(_) => []
  }

  /** The collected text of the children of `n` from index `k` on. */
  function ChildrenText(n: Node, p: Path, ov: Collapsed, k: nat): Str
    requires k <= |Children(n)|
    decreases n, 0, |Children(n)| - k
  {
    if k == |Children(n)| then []
    else CollectText(Children(n)[k], p + [k], ov) + ChildrenText(n, p, ov, k + 1)
  }

  /** Without an overlay, the collected text of a subtree does not depend on where the subtree sits. */
  lemma {:induction false} CollectTextPlain(n: Node, p: Path, q: Path)
    ensures CollectText(n, p, NoOverlay) == CollectText(n, q, NoOverlay)
    decreases n, 1
  {
    if n.Element? || n.Document? {
      ChildrenTextPlain(n, p, q, 0);
    }
  }

  lemma {:induction false} ChildrenTextPlain(n: Node, p: Path, q: Path, k: nat)
    requires k <= |Children(n)|
    ensures ChildrenText(n, p, NoOverlay, k) == ChildrenText(n, q, NoOverlay, k)
    decreases n, 0, |Children(n)| - k
  {
    if k < |Children(n)| {
      CollectTextPlain(Children(n)[k], p + [k], q + [k]);
      ChildrenTextPlain(n, p, q, k + 1);
    }
  }
}

/**
 * The whitespace collapser: one pre-order walk over the tree that records,
 * for each text node, its text with whitespace runs collapsed, and the set of
 * nodes the converter must skip. The tree itself is a value and is never
 * changed; everything the walk learns lives in the returned overlay.
 */
module CollapseWhitespace {

  import opened Strings
  import opened Wrappers
  import opened Dom
  import opened Utilities

  // ----- Whitespace runs -----

  /** `t` without its leading run of `[ \r\n\t]`. */
  function SkipRun(t: Str): (r: Str)
    ensures |r| <= |t| && r == t[|t| - |r|..]
    ensures r == [] || !IsAsciiWhitespace(r[0])
    ensures t != [] && IsAsciiWhitespace(t[0]) ==> |r| < |t|
    decreases |t|
  {
    if t != [] && IsAsciiWhitespace(t[0]) then SkipRun(t[1..]) else t
  }

  /** `regex_replace(text, "[ \r\n\t]+", " ")`: every maximal run becomes one space. */
  function CollapseRuns(t: Str): Str
    decreases |t|
  {
    if t == [] then []
    else if IsAsciiWhitespace(t[0]) then " " + CollapseRuns(SkipRun(t))
    else [t[0]] + CollapseRuns(t[1..])
  }

  predicate DoubleSpaceAt(s: Str, i: nat)
  {
    i + 1 < |s| && s[i] == ' ' && s[i + 1] == ' '
  }

  /** No tab, CR or LF and no two spaces in a row. */
  predicate Clean(s: Str)
  {
    '\t' !in s && '\r' !in s && '\n' !in s && forall i :: 0 <= i < |s| ==> !DoubleSpaceAt(s, i)
  }

  lemma CleanJoin(a: Str, b: Str)
    requires Clean(a) && Clean(b)
    requires a != [] && b != [] ==> !(a[|a| - 1] == ' ' && b[0] == ' ')
    ensures Clean(a + b)
  {
    var t := a + b;
    forall i | 0 <= i < |t|
      ensures !DoubleSpaceAt(t, i)
    {
      if i + 1 < |a| {
        assert !DoubleSpaceAt(a, i);
      } else if i >= |a| {
        assert !DoubleSpaceAt(b, i - |a|);
      }
    }
  }

  /** Any slice of a clean text is clean. */
  lemma CleanSlice(s: Str, i: nat, j: nat)
    requires Clean(s) && i <= j <= |s|
    ensures Clean(s[i..j])
  {
    var t := s[i..j];
    forall k | 0 <= k < |t|
      ensures !DoubleSpaceAt(t, k)
    {
      assert !DoubleSpaceAt(s, i + k);
    }
    assert forall c :: c in t ==> c in s;
  }

  /** The collapsed text is clean, and it starts with a space exactly when the text starts with whitespace. */
  lemma {:induction false} CollapseRunsClean(t: Str)
    ensures Clean(CollapseRuns(t))
    ensures t != [] ==> CollapseRuns(t) != [] && CollapseRuns(t)[0] == (if IsAsciiWhitespace(t[0]) then ' ' else t[0])
    decreases |t|
  {
    if t != [] {
      if IsAsciiWhitespace(t[0]) {
        var rest := SkipRun(t);
        CollapseRunsClean(rest);
        CleanJoin(" ", CollapseRuns(rest));
      } else {
        CollapseRunsClean(t[1..]);
        CleanJoin([t[0]], CollapseRuns(t[1..]));
      }
    }
  }

  /** The bytes other than `[ \r\n\t]`, in order. */
  function Words(t: Str): Str
  {
    if t == [] then [] else Word(t[0]) + Words(t[1..])
  }

  /** A byte as `Words` keeps it: dropped when it is whitespace. */
  function Word(c: Byte): Str
  {
    if IsAsciiWhitespace(c) then [] else [c]
  }

  lemma {:induction false} WordsAppend(a: Str, b: Str)
    ensures Words(a + b) == Words(a) + Words(b)
    decreases |a|
  {
    if a == [] {
      assert a + b == b;
    } else {
      WordsAppend(a[1..], b);
      assert (a + b)[0] == a[0];
      assert (a + b)[1..] == a[1..] + b;
      WordsCons(a + b, a[0], a[1..] + b);
    }
  }

  lemma WordsCons(t: Str, c: Byte, rest: Str)
    requires t != [] && t[0] == c && t[1..] == rest
    ensures Words(t) == Word(c) + Words(rest)
  {
  }

  lemma {:induction false} WordsSkipRun(t: Str)
    ensures Words(SkipRun(t)) == Words(t)
    decreases |t|
  {
    if t != [] && IsAsciiWhitespace(t[0]) {
      WordsSkipRun(t[1..]);
    }
  }

  /** Collapsing only touches whitespace: every other byte is kept, in order. */
  lemma {:induction false} CollapseRunsWords(t: Str)
    ensures Words(CollapseRuns(t)) == Words(t)
    decreases |t|
  {
    if t != [] {
      if IsAsciiWhitespace(t[0]) {
        CollapseRunsWords(SkipRun(t));
        WordsSkipRun(t);
        WordsAppend(" ", CollapseRuns(SkipRun(t)));
      } else {
        CollapseRunsWords(t[1..]);
        WordsAppend([t[0]], CollapseRuns(t[1..]));
      }
    }
  }

  /** Clean text is its own collapse, so collapsing twice is collapsing once. */
  lemma {:induction false} CollapseRunsOfClean(t: Str)
    requires Clean(t)
    ensures CollapseRuns(t) == t
    decreases |t|
  {
    if t != [] {
      CleanSlice(t, 1, |t|);
      assert t[1..|t|] == t[1..];
      CollapseRunsOfClean(t[1..]);
      if IsAsciiWhitespace(t[0]) {
        assert t[0] == ' ';
        assert !DoubleSpaceAt(t, 0);
        assert t[1..] == [] || !IsAsciiWhitespace(t[1]);
        assert SkipRun(t[1..]) == t[1..];
      }
      assert t == [t[0]] + t[1..];
    }
  }

  lemma CollapseRunsIdempotent(t: Str)
    ensures CollapseRuns(CollapseRuns(t)) == CollapseRuns(t)
  {
    CollapseRunsClean(t);
    CollapseRunsOfClean(CollapseRuns(t));
  }

  // ----- Per-node bookkeeping -----

  /** `isPreNode`: a `<pre>` element, or `<code>` when code is treated as preformatted. */
  predicate IsPreNode(n: Node, treatCodeAsPre: bool)
  {
    n.Element? && (n.tag == "pre" || (treatCodeAsPre && n.tag == "code"))
  }

  /** The walk's bookkeeping besides its position. */
  datatype CollapseState = CollapseState(prevTextNode: Option<Path>, keepLeadingWhitespace: bool, result: Collapsed)

  predicate EndsWithSpace(t: Str) { t != [] && t[|t| - 1] == ' ' }

  /** The previous retained text has a replacement that ends in a space. */
  predicate PrevEndsWithSpace(s: CollapseState)
  {
    s.prevTextNode.Some? && s.prevTextNode.value in s.result.textReplacements
    && EndsWithSpace(s.result.textReplacements[s.prevTextNode.value])
  }

  /** One trailing space popped from the previous retained text, which is omitted if that empties it. */
  function PopTrailingSpace(s: CollapseState): Collapsed
  {
    if PrevEndsWithSpace(s) then
      var h := s.prevTextNode.value;
      var v := s.result.textReplacements[h];
      var popped := v[..|v| - 1];
      Collapsed(s.result.textReplacements[h := popped],
        if popped == [] then s.result.nodesToOmit + {h} else s.result.nodesToOmit)
    else s.result
  }

  /** The leading space of a text is dropped: nothing retained before it, or that ends in a space, and no void or pre node in between. */
  predicate LeadingStripped(s: CollapseState, text: Str)
  {
    (s.prevTextNode.None? || PrevEndsWithSpace(s)) && !s.keepLeadingWhitespace && text != [] && text[0] == ' '
  }

  /** The outcome of visiting a node: go on with `nextNode`, or the node was omitted and the walk goes on with `afterRemoval`. */
  datatype Visited = Kept(state: CollapseState) | Omitted(state: CollapseState)

  /** The text branch of the loop's body, given the node's collapsed text. */
  function TextVisit(p: Path, s: CollapseState, collapsed: Str): Visited
  {
    var text := if LeadingStripped(s, collapsed) then collapsed[1..] else collapsed;
    if text == [] then Omitted(s.(result := s.result.(nodesToOmit := s.result.nodesToOmit + {p})))
    else Kept(s.(result := s.result.(textReplacements := s.result.textReplacements[p := text]), prevTextNode := Some(p)))
  }

  /** The element branch of the loop's body. */
  function ElementVisit(n: Node, treatCodeAsPre: bool, s: CollapseState): (v: Visited)
    requires n.Element?
    ensures v.Kept?
    ensures v.state.result == s.result || v.state.result == PopTrailingSpace(s)
    ensures v.state.prevTextNode.None? || v.state.prevTextNode == s.prevTextNode
  {
    if IsBlock(n) || n.tag == "br" then Kept(CollapseState(None, false, PopTrailingSpace(s)))
    else if IsVoid(n) || IsPreNode(n, treatCodeAsPre) then Kept(s.(prevTextNode := None, keepLeadingWhitespace := true))
    else if s.prevTextNode.Some? then Kept(s.(keepLeadingWhitespace := false))
    else Kept(s)
  }

  /** The body of the walk's loop for the node at `p`, before the walk moves on. */
  function Visit(root: Node, treatCodeAsPre: bool, p: Path, s: CollapseState): Visited
    requires ValidPath(root, p)
  {
    var n := At(root, p);
    if n.Text? then TextVisit(p, s, CollapseRuns(n.text))
    else if n.Element? then ElementVisit(n, treatCodeAsPre, s)
    else Omitted(s.(result := s.result.(nodesToOmit := s.result.nodesToOmit + {p})))
  }

  /** The popping of a trailing space, as statements: `pop_back` on the stored replacement. */
  method PopPrevTrailingSpace(prevTextNode: Option<Path>, keepLeadingWhitespace: bool, result: Collapsed)
    returns (updated: Collapsed)
    ensures updated == PopTrailingSpace(CollapseState(prevTextNode, keepLeadingWhitespace, result))
  {
    updated := result;
    if prevTextNode.Some? {
      var handle := prevTextNode.value;
      if handle in updated.textReplacements {
        var text := updated.textReplacements[handle];
        if text != [] && text[|text| - 1] == ' ' {
          text := text[..|text| - 1];
          updated := updated.(textReplacements := updated.textReplacements[handle := text]);
          if text == [] {
            updated := updated.(nodesToOmit := updated.nodesToOmit + {handle});
          }
        }
      }
    }
  }

  /** The body of the loop of `collapseWhitespace` up to the move to the next node. */
  method VisitNode(root: Node, treatCodeAsPre: bool, current: Path,
                   prevTextNode: Option<Path>, keepLeadingWhitespace: bool, result: Collapsed)
    returns (omitted: bool, prevText: Option<Path>, keep: bool, updated: Collapsed)
    requires ValidPath(root, current)
    ensures var v := Visit(root, treatCodeAsPre, current, CollapseState(prevTextNode, keepLeadingWhitespace, result));
      omitted == v.Omitted? && v.state == CollapseState(prevText, keep, updated)
  {
    var node := At(root, current);
    if node.Text? {
      omitted, prevText, keep, updated := VisitTextNode(current, node.text, prevTextNode, keepLeadingWhitespace, result);
    } else if node.Element? {
      prevText, keep, updated := VisitElementNode(node, treatCodeAsPre, prevTextNode, keepLeadingWhitespace, result);
      omitted := false;
    } else {
      prevText, keep := prevTextNode, keepLeadingWhitespace;
      updated := result.(nodesToOmit := result.nodesToOmit + {current});
      omitted := true;
    }
  }

  /** The text branch of the loop's body. */
  method VisitTextNode(current: Path, nodeText: Str,
                       prevTextNode: Option<Path>, keepLeadingWhitespace: bool, result: Collapsed)
    returns (omitted: bool, prevText: Option<Path>, keep: bool, updated: Collapsed)
    ensures var v := TextVisit(current, CollapseState(prevTextNode, keepLeadingWhitespace, result), CollapseRuns(nodeText));
      omitted == v.Omitted? && v.state == CollapseState(prevText, keep, updated)
  {
    prevText, keep, updated := prevTextNode, keepLeadingWhitespace, result;
    omitted := false;
    var text := CollapseRuns(nodeText);
    var prevEndedWithSpace := PrevEndedWithSpace(prevText, keep, updated);
    if (prevText.None? || prevEndedWithSpace) && !keep && text != [] && text[0] == ' ' {
      text := text[1..];
    }
    if text == [] {
      updated := updated.(nodesToOmit := updated.nodesToOmit + {current});
      omitted := true;
      return;
    }
    updated := updated.(textReplacements := updated.textReplacements[current := text]);
    prevText := Some(current);
  }

  /** Whether the previous retained text ends with a space. */
  method PrevEndedWithSpace(prevTextNode: Option<Path>, keepLeadingWhitespace: bool, result: Collapsed)
    returns (b: bool)
    ensures b == PrevEndsWithSpace(CollapseState(prevTextNode, keepLeadingWhitespace, result))
  {
    b := false;
    if prevTextNode.Some? {
      var handle := prevTextNode.value;
      if handle in result.textReplacements {
        var replacement := result.textReplacements[handle];
        if replacement != [] && replacement[|replacement| - 1] == ' ' {
          b := true;
        }
      }
    }
  }

  /** The element branch of the loop's body. */
  method VisitElementNode(node: Node, treatCodeAsPre: bool,
                          prevTextNode: Option<Path>, keepLeadingWhitespace: bool, result: Collapsed)
    returns (prevText: Option<Path>, keep: bool, updated: Collapsed)
    requires node.Element?
    ensures ElementVisit(node, treatCodeAsPre, CollapseState(prevTextNode, keepLeadingWhitespace, result)).state
      == CollapseState(prevText, keep, updated)
  {
    prevText, keep, updated := prevTextNode, keepLeadingWhitespace, result;
    var blockLike := IsBlock(node);
    var isBr := node.tag == "br";
    var preNode := IsPreNode(node, treatCodeAsPre);
    var voidNode := IsVoid(node);
    if blockLike || isBr {
      updated := PopPrevTrailingSpace(prevText, keep, updated);
      prevText := None;
      keep := false;
    } else if voidNode || preNode {
      prevText := None;
      keep := true;
    } else if prevText.Some? {
      keep := false;
    }
  }

  /**
   * Visiting a text node: its replacement is the collapsed text, minus the
   * leading space exactly when `LeadingStripped` holds; a text that ends up
   * empty is omitted and does not become the previous text.
   */
  lemma TextVisitMeans(p: Path, s: CollapseState, collapsed: Str)
    requires Clean(collapsed)
    ensures var v := TextVisit(p, s, collapsed);
      var out := if v.Kept? then v.state.result.textReplacements[p] else [];
      (v.Kept? ==> (p in v.state.result.textReplacements && out != [] && Clean(out)
        && v.state.prevTextNode == Some(p) && v.state.result.nodesToOmit == s.result.nodesToOmit))
      && (v.Omitted? ==> (v.state.result.nodesToOmit == s.result.nodesToOmit + {p}
        && v.state.prevTextNode == s.prevTextNode && v.state.result.textReplacements == s.result.textReplacements))
      && (out == collapsed || " " + out == collapsed)
      && (" " + out == collapsed <==> LeadingStripped(s, collapsed))
  {
    if collapsed != [] {
      CleanSlice(collapsed, 1, |collapsed|);
      assert collapsed[1..|collapsed|] == collapsed[1..];
      assert collapsed == [collapsed[0]] + collapsed[1..];
    }
  }

  /** On a text node, the visit works on the node's collapsed text, which is clean. */
  lemma VisitText(root: Node, treatCodeAsPre: bool, p: Path, s: CollapseState)
    requires ValidPath(root, p) && At(root, p).Text?
    ensures Visit(root, treatCodeAsPre, p, s) == TextVisit(p, s, CollapseRuns(At(root, p).text))
    ensures Clean(CollapseRuns(At(root, p).text))
  {
    CollapseRunsClean(At(root, p).text);
  }

  /**
   * Popping the trailing space: when the previous retained text ends in a
   * space, exactly that space goes, and the node is omitted when nothing is
   * left, while its now-empty entry stays; otherwise nothing changes.
   */
  lemma PopTrailingSpaceMeans(s: CollapseState)
    ensures var r := PopTrailingSpace(s);
      PrevEndsWithSpace(s) ==>
        var h := s.prevTextNode.value;
        h in r.textReplacements && r.textReplacements[h] + " " == s.result.textReplacements[h]
        && r.textReplacements == s.result.textReplacements[h := r.textReplacements[h]]
        && r.nodesToOmit == (if r.textReplacements[h] == [] then s.result.nodesToOmit + {h} else s.result.nodesToOmit)
    ensures !PrevEndsWithSpace(s) ==> PopTrailingSpace(s) == s.result
  {
    if PrevEndsWithSpace(s) {
      var v := s.result.textReplacements[s.prevTextNode.value];
      assert v[..|v| - 1] + " " == v;
    }
  }

  // ----- Walking the tree -----

  /** `afterRemoval`: the next sibling, else the parent. */
  function AfterRemoval(root: Node, p: Path): (r: Option<Path>)
    requires ValidPath(root, p)
    ensures r.Some? ==> p != [] && ValidPath(root, r.value)
    ensures r.Some? ==> r.value == p[..|p| - 1] + [p[|p| - 1] + 1] || r.value == p[..|p| - 1]
    ensures r.None? <==> p == []
  {
    match NextSibling(root, p)
    case Some(sibling) => Some(sibling)
    case None => if p == [] then None else (PrefixValid(root, p, |p| - 1); Parent(root, p))
  }

  /**
   * `nextNode`: after coming back up from a child, or at a pre node, move to
   * the next sibling or else the parent; otherwise go down to the first child
   * if there is one.
   */
  function NextNode(root: Node, prev: Option<Path>, current: Option<Path>, treatCodeAsPre: bool): (r: Option<Path>)
    requires current.Some? ==> ValidPath(root, current.value)
    ensures r.Some? ==> ValidPath(root, r.value)
  {
    if current.None? then None
    else
      var c := current.value;
      var prevIsParent := prev.Some? && Parent(root, prev.value) == Some(c);
      if prevIsParent || IsPreNode(At(root, c), treatCodeAsPre) then AfterRemoval(root, c)
      else if FirstChild(root, c).Some? then FirstChild(root, c)
      else AfterRemoval(root, c)
  }

  /** The node lies inside a pre node (strictly below it). */
  predicate BelowPre(root: Node, p: Path, treatCodeAsPre: bool)
    requires ValidPath(root, p)
    decreases |p|
  {
    p != [] &&
      (PrefixValid(root, p, |p| - 1);
       IsPreNode(At(root, p[..|p| - 1]), treatCodeAsPre) || BelowPre(root, p[..|p| - 1], treatCodeAsPre))
  }

  /**
   * What the walk has recorded so far: replacements only for text nodes,
   * all clean, and an empty one only for an omitted node; omissions only of
   * non-elements; nothing inside a pre node.
   */
  predicate OverlayGood(root: Node, treatCodeAsPre: bool, r: Collapsed)
  {
    (forall h :: h in r.textReplacements ==>
      ValidPath(root, h) && At(root, h).Text? && !BelowPre(root, h, treatCodeAsPre)
      && Clean(r.textReplacements[h]) && (r.textReplacements[h] == [] ==> h in r.nodesToOmit))
    && (forall h :: h in r.nodesToOmit ==>
      ValidPath(root, h) && !At(root, h).Element? && !BelowPre(root, h, treatCodeAsPre))
  }

  /** The previous text, if any, is a recorded text node. */
  predicate StateGood(root: Node, treatCodeAsPre: bool, s: CollapseState)
  {
    OverlayGood(root, treatCodeAsPre, s.result)
    && (s.prevTextNode.Some? ==> s.prevTextNode.value in s.result.textReplacements)
  }

  /** The walk's position and bookkeeping. */
  datatype Walk = Walk(prevNode: Option<Path>, currentNode: Option<Path>, state: CollapseState)

  /** The loop stops at a null node or back at the root. */
  predicate Halted(w: Walk)
  {
    w.currentNode.None? || w.currentNode.value == []
  }

  predicate WalkGood(root: Node, treatCodeAsPre: bool, w: Walk)
  {
    (w.currentNode.Some? ==> ValidPath(root, w.currentNode.value) && !BelowPre(root, w.currentNode.value, treatCodeAsPre))
    && StateGood(root, treatCodeAsPre, w.state)
  }

  lemma PopGood(root: Node, treatCodeAsPre: bool, s: CollapseState)
    requires StateGood(root, treatCodeAsPre, s)
    ensures OverlayGood(root, treatCodeAsPre, PopTrailingSpace(s))
  {
    if PrevEndsWithSpace(s) {
      var v := s.result.textReplacements[s.prevTextNode.value];
      CleanSlice(v, 0, |v| - 1);
    }
  }

  lemma TextVisitGood(root: Node, treatCodeAsPre: bool, p: Path, s: CollapseState, collapsed: Str)
    requires ValidPath(root, p) && At(root, p).Text? && !BelowPre(root, p, treatCodeAsPre)
    requires StateGood(root, treatCodeAsPre, s) && Clean(collapsed)
    ensures StateGood(root, treatCodeAsPre, TextVisit(p, s, collapsed).state)
  {
    TextVisitMeans(p, s, collapsed);
    var v := TextVisit(p, s, collapsed);
    if v.Kept? {
      var r := v.state.result;
      forall h | h in r.textReplacements
        ensures ValidPath(root, h) && At(root, h).Text? && !BelowPre(root, h, treatCodeAsPre)
          && Clean(r.textReplacements[h]) && (r.textReplacements[h] == [] ==> h in r.nodesToOmit)
      {
        if h != p {
          assert h in s.result.textReplacements;
        }
      }
    }
  }

  lemma ElementVisitGood(root: Node, treatCodeAsPre: bool, n: Node, s: CollapseState)
    requires n.Element? && StateGood(root, treatCodeAsPre, s)
    ensures StateGood(root, treatCodeAsPre, ElementVisit(n, treatCodeAsPre, s).state)
  {
    PopGood(root, treatCodeAsPre, s);
    var v := ElementVisit(n, treatCodeAsPre, s);
    if v.state.prevTextNode.Some? && v.state.result == PopTrailingSpace(s) {
      assert s.prevTextNode.value in PopTrailingSpace(s).textReplacements;
    }
  }

  /** Visiting a node keeps the recorded overlay well formed. */
  lemma VisitGood(root: Node, treatCodeAsPre: bool, p: Path, s: CollapseState)
    requires ValidPath(root, p) && !BelowPre(root, p, treatCodeAsPre)
    requires StateGood(root, treatCodeAsPre, s)
    ensures StateGood(root, treatCodeAsPre, Visit(root, treatCodeAsPre, p, s).state)
  {
    var n := At(root, p);
    if n.Text? {
      VisitText(root, treatCodeAsPre, p, s);
      TextVisitGood(root, treatCodeAsPre, p, s, CollapseRuns(n.text));
    } else if n.Element? {
      ElementVisitGood(root, treatCodeAsPre, n, s);
    } else {
      var r := Visit(root, treatCodeAsPre, p, s).state.result;
      assert r.nodesToOmit == s.result.nodesToOmit + {p};
    }
  }

  /** The siblings of a node outside every pre node are outside them too, and so is its parent. */
  lemma AfterRemovalOutsidePre(root: Node, treatCodeAsPre: bool, p: Path)
    requires ValidPath(root, p) && !BelowPre(root, p, treatCodeAsPre)
    ensures var r := AfterRemoval(root, p);
      r.Some? ==> !BelowPre(root, r.value, treatCodeAsPre)
  {
    var r := AfterRemoval(root, p);
    if r.Some? {
      var up := p[..|p| - 1];
      PrefixValid(root, p, |p| - 1);
      if r.value != up {
        assert r.value[..|r.value| - 1] == up;
      }
    }
  }

  lemma NextNodeOutsidePre(root: Node, treatCodeAsPre: bool, prev: Option<Path>, p: Path)
    requires ValidPath(root, p) && !BelowPre(root, p, treatCodeAsPre)
    ensures var r := NextNode(root, prev, Some(p), treatCodeAsPre);
      r.Some? ==> !BelowPre(root, r.value, treatCodeAsPre)
  {
    AfterRemovalOutsidePre(root, treatCodeAsPre, p);
    var r := NextNode(root, prev, Some(p), treatCodeAsPre);
    if r == FirstChild(root, p) && r.Some? && r.value == p + [0] {
      assert r.value[..|r.value| - 1] == p;
    }
  }

  /**
   * One turn of the loop. `asWritten` selects the source's behaviour on an
   * omission, which leaves `prevNode` as it was; the corrected walk sets it to
   * the omitted node, as a removal from the tree would have made the
   * difference invisible.
   */
  function Step(root: Node, treatCodeAsPre: bool, w: Walk, asWritten: bool): Walk
    requires WalkGood(root, treatCodeAsPre, w) && !Halted(w)
  {
    var c := w.currentNode.value;
    match Visit(root, treatCodeAsPre, c, w.state)
    case Omitted(s) => Walk(if asWritten then w.prevNode else Some(c), AfterRemoval(root, c), s)
    case Kept(s) => Walk(Some(c), NextNode(root, w.prevNode, w.currentNode, treatCodeAsPre), s)
  }

  lemma StepGood(root: Node, treatCodeAsPre: bool, w: Walk, asWritten: bool)
    requires WalkGood(root, treatCodeAsPre, w) && !Halted(w)
    ensures WalkGood(root, treatCodeAsPre, Step(root, treatCodeAsPre, w, asWritten))
  {
    var c := w.currentNode.value;
    VisitGood(root, treatCodeAsPre, c, w.state);
    AfterRemovalOutsidePre(root, treatCodeAsPre, c);
    NextNodeOutsidePre(root, treatCodeAsPre, w.prevNode, c);
  }

  /** The source returns an empty overlay for a pre root or a root without children. */
  predicate Skips(root: Node, treatCodeAsPre: bool)
  {
    IsPreNode(root, treatCodeAsPre) || FirstChild(root, []).None?
  }

  function Start(root: Node, treatCodeAsPre: bool): (w: Walk)
    requires !Skips(root, treatCodeAsPre)
    ensures WalkGood(root, treatCodeAsPre, w) && w.currentNode == Some([0])
  {
    assert [] + [0] == [0];
    assert [0][..0] == [];
    Walk(None, NextNode(root, None, Some([]), treatCodeAsPre), CollapseState(None, false, NoOverlay))
  }

  // ----- The loop as written -----

  /** The walk as written after `k` turns of the loop (or fewer, when it stopped). */
  function RunAsWritten(root: Node, treatCodeAsPre: bool, k: nat): (w: Walk)
    requires !Skips(root, treatCodeAsPre)
    ensures WalkGood(root, treatCodeAsPre, w)
  {
    if k == 0 then Start(root, treatCodeAsPre)
    else
      var w := RunAsWritten(root, treatCodeAsPre, k - 1);
      if Halted(w) then w
      else (StepGood(root, treatCodeAsPre, w, true); Step(root, treatCodeAsPre, w, true))
  }

  /** Once stopped, the walk stays stopped. */
  lemma {:induction false} RunAsWrittenStable(root: Node, treatCodeAsPre: bool, k: nat, k': nat)
    requires !Skips(root, treatCodeAsPre) && k <= k'
    requires Halted(RunAsWritten(root, treatCodeAsPre, k))
    ensures RunAsWritten(root, treatCodeAsPre, k') == RunAsWritten(root, treatCodeAsPre, k)
    decreases k' - k
  {
    if k < k' {
      RunAsWrittenStable(root, treatCodeAsPre, k, k' - 1);
    }
  }

  /**
   * `collapseWhitespace` as written, run for at most `fuel` turns of its
   * loop: `finished` tells whether the loop stopped within them, and when it
   * did, the overlay is the corrected collapser's.
   */
  method CollapseWhitespaceAsWritten(root: Node, treatCodeAsPre: bool, fuel: nat)
    returns (result: Collapsed, finished: bool)
    ensures Skips(root, treatCodeAsPre) ==> finished && result == NoOverlay
    ensures !Skips(root, treatCodeAsPre) ==>
      var w := RunAsWritten(root, treatCodeAsPre, fuel);
      (finished <==> Halted(w)) && (finished ==> result == PopTrailingSpace(w.state))
    ensures finished ==> result == Collapse(root, treatCodeAsPre)
    ensures OverlayGood(root, treatCodeAsPre, result)
  {
    if IsPreNode(root, treatCodeAsPre) || FirstChild(root, []).None? {
      return NoOverlay, true;
    }
    var prevTextNode: Option<Path> := None;
    var keepLeadingWhitespace := false;
    result := NoOverlay;
    var prevNode: Option<Path> := None;
    var currentNode := NextNode(root, prevNode, Some([]), treatCodeAsPre);
    var steps := 0;
    while steps < fuel && currentNode.Some? && currentNode.value != []
      invariant steps <= fuel
      invariant RunAsWritten(root, treatCodeAsPre, steps)
        == Walk(prevNode, currentNode, CollapseState(prevTextNode, keepLeadingWhitespace, result))
    {
      var omitted;
      omitted, prevTextNode, keepLeadingWhitespace, result :=
        VisitNode(root, treatCodeAsPre, currentNode.value, prevTextNode, keepLeadingWhitespace, result);
      steps := steps + 1;
      if omitted {
        currentNode := AfterRemoval(root, currentNode.value);
        continue;
      }
      var next := NextNode(root, prevNode, currentNode, treatCodeAsPre);
      prevNode := currentNode;
      currentNode := next;
    }
    ghost var w := RunAsWritten(root, treatCodeAsPre, steps);
    finished := currentNode.None? || currentNode.value == [];
    if finished {
      RunAsWrittenStable(root, treatCodeAsPre, steps, fuel);
      AsWrittenAgrees(root, treatCodeAsPre, steps);
    }
    PopGood(root, treatCodeAsPre, w.state);
    if finished {
      result := PopPrevTrailingSpace(prevTextNode, keepLeadingWhitespace, result);
    }
  }

  // ----- The corrected loop, and why it stops -----

  /** Number of nodes before `p` in document order, counted within the subtree `n`. */
  function NodesBefore(n: Node, p: Path): nat
    decreases |p|
  {
    if p == [] || p[0] >= |Children(n)| then 0
    else 1 + ChildrenSize(n, p[0]) + NodesBefore(Children(n)[p[0]], p[1..])
  }

  /** A path read from the front: a child index, then a path inside that child. */
  lemma PathCons(n: Node, p: Path)
    requires p != []
    ensures ValidPath(n, p) <==> p[0] < |Children(n)| && ValidPath(Children(n)[p[0]], p[1..])
    ensures ValidPath(n, p) ==> At(n, p) == At(Children(n)[p[0]], p[1..])
  {
    TryAtCons(n, p[0], p[1..]);
    assert p == [p[0]] + p[1..];
  }

  lemma {:induction false} ChildrenSizeMono(n: Node, i: nat, k: nat)
    requires i <= k <= |Children(n)|
    ensures ChildrenSize(n, i) <= ChildrenSize(n, k)
    decreases k
  {
    if i < k {
      ChildrenSizeMono(n, i, k - 1);
    }
  }

  /** The nodes before `p`, and the subtree at `p`, all lie in `n`. */
  lemma {:induction false} NodesBeforeBound(n: Node, p: Path)
    requires ValidPath(n, p)
    ensures NodesBefore(n, p) + Size(At(n, p)) <= Size(n)
    decreases |p|
  {
    if p != [] {
      PathCons(n, p);
      NodesBeforeBound(Children(n)[p[0]], p[1..]);
      ChildrenSizeMono(n, p[0] + 1, |Children(n)|);
    }
  }

  /** The first child comes right after its parent. */
  lemma {:induction false} NodesBeforeChild(n: Node, p: Path)
    requires ValidPath(n, p + [0])
    ensures NodesBefore(n, p + [0]) == NodesBefore(n, p) + 1
    decreases |p|
  {
    var q := p + [0];
    PathCons(n, q);
    var i := q[0];
    var c := Children(n)[i];
    if p == [] {
      assert q[1..] == [];
    } else {
      assert i == p[0];
      assert q[1..] == p[1..] + [0];
      NodesBeforeChild(c, p[1..]);
      assert NodesBefore(n, q) == 1 + ChildrenSize(n, i) + NodesBefore(c, p[1..] + [0]);
    }
  }

  /** The next sibling comes after everything in the subtree of the node before it. */
  lemma {:induction false} NodesBeforeSibling(n: Node, u: Path, i: nat, x: Path)
    requires ValidPath(n, x) && u + [i] <= x && ValidPath(n, u + [i + 1])
    ensures NodesBefore(n, x) < NodesBefore(n, u + [i + 1])
    decreases |u|
  {
    assert x[0] == (u + [i])[0];
    PathCons(n, x);
    PathCons(n, u + [i + 1]);
    if u == [] {
      NodesBeforeBound(Children(n)[i], x[1..]);
      assert (u + [i + 1])[1..] == [];
    } else {
      assert (u + [i + 1])[1..] == u[1..] + [i + 1];
      assert u[1..] + [i] <= x[1..] by {
        assert (u + [i])[1..] == u[1..] + [i];
      }
      NodesBeforeSibling(Children(n)[u[0]], u[1..], i, x[1..]);
    }
  }

  function Depth(w: Walk): nat
  {
    if w.currentNode.Some? then |w.currentNode.value| else 0
  }

  /**
   * The corrected walk's invariant, beside `WalkGood`: `entered` is the last
   * node the walk moved into (down or sideways); the current node is on the
   * path to it, and is it unless the walk has just come up from a child.
   */
  predicate Tracked(root: Node, treatCodeAsPre: bool, w: Walk, entered: Path)
  {
    WalkGood(root, treatCodeAsPre, w) && ValidPath(root, entered)
    && (w.currentNode.Some? ==>
      w.currentNode.value <= entered
      && (w.currentNode.value != entered ==>
        w.prevNode.Some? && Parent(root, w.prevNode.value) == w.currentNode))
  }

  /** The node last moved into, once the walk has taken one more turn. */
  function EnteredAfter(w: Walk, next: Walk, entered: Path): Path
  {
    if w.currentNode.Some? && next.currentNode.Some? && !(next.currentNode.value < w.currentNode.value)
    then next.currentNode.value else entered
  }

  /** Leaving a node sideways or upwards keeps track of the walk. */
  lemma AfterRemovalTracked(root: Node, c: Path, entered: Path)
    requires ValidPath(root, c) && ValidPath(root, entered) && c != [] && c <= entered
    ensures var r := AfterRemoval(root, c);
      r.Some? &&
      ((!(r.value < c) && NodesBefore(root, entered) < NodesBefore(root, r.value))
       || (r.value < c && r.value <= entered && Parent(root, c) == r))
  {
    var r := AfterRemoval(root, c);
    var up := c[..|c| - 1];
    if r.value == up {
      assert entered[..|up|] == c[..|up|];
    } else {
      assert c == up + [c[|c| - 1]];
      NodesBeforeSibling(root, up, c[|c| - 1], entered);
    }
  }

  /** One turn of the corrected loop keeps its invariant and moves forward in document order or up. */
  lemma StepTracked(root: Node, treatCodeAsPre: bool, w: Walk, entered: Path)
    requires Tracked(root, treatCodeAsPre, w, entered) && !Halted(w)
    ensures var next := Step(root, treatCodeAsPre, w, false);
      var e := EnteredAfter(w, next, entered);
      Tracked(root, treatCodeAsPre, next, e)
      && (NodesBefore(root, entered) < NodesBefore(root, e) || (e == entered && Depth(next) < Depth(w)))
  {
    StepGood(root, treatCodeAsPre, w, false);
    var c := w.currentNode.value;
    var next := Step(root, treatCodeAsPre, w, false);
    AfterRemovalTracked(root, c, entered);
    if next.currentNode != AfterRemoval(root, c) {
      var child := c + [0];
      assert next.currentNode == Some(child);
      assert c == entered;
      NodesBeforeChild(root, c);
      assert !(child < c);
    }
  }

  /** What the corrected walk records from `w` on. */
  function CollapseFrom(root: Node, treatCodeAsPre: bool, w: Walk, entered: Path): (r: Collapsed)
    requires Tracked(root, treatCodeAsPre, w, entered)
    ensures OverlayGood(root, treatCodeAsPre, r)
    decreases Size(root) - NodesBefore(root, entered), Depth(w)
  {
    NodesBeforeBound(root, entered);
    if Halted(w) then (PopGood(root, treatCodeAsPre, w.state); PopTrailingSpace(w.state))
    else
      var next := Step(root, treatCodeAsPre, w, false);
      var e := EnteredAfter(w, next, entered);
      StepTracked(root, treatCodeAsPre, w, entered);
      NodesBeforeBound(root, e);
      CollapseFrom(root, treatCodeAsPre, next, e)
  }

  /**
   * `collapseWhitespace` with the corrected omission step: an empty overlay
   * for a pre root or a root without children; otherwise the walk from the
   * first child. The overlay only replaces text nodes, with clean text, and
   * only omits non-elements, none of them inside a pre node.
   */
  function Collapse(root: Node, treatCodeAsPre: bool): (r: Collapsed)
    ensures Skips(root, treatCodeAsPre) ==> r == NoOverlay
    ensures OverlayGood(root, treatCodeAsPre, r)
  {
    if Skips(root, treatCodeAsPre) then NoOverlay
    else CollapseFrom(root, treatCodeAsPre, Start(root, treatCodeAsPre), [0])
  }

  /** `collapseWhitespace`, with `prevNode` set to the omitted node when one is omitted. */
  method CollapseWhitespace(root: Node, treatCodeAsPre: bool) returns (result: Collapsed)
    ensures result == Collapse(root, treatCodeAsPre)
  {
    if IsPreNode(root, treatCodeAsPre) || FirstChild(root, []).None? {
      return NoOverlay;
    }
    var prevTextNode: Option<Path> := None;
    var keepLeadingWhitespace := false;
    result := NoOverlay;
    var prevNode: Option<Path> := None;
    var currentNode := NextNode(root, prevNode, Some([]), treatCodeAsPre);
    ghost var entered: Path := [0];
    while currentNode.Some? && currentNode.value != []
      invariant Tracked(root, treatCodeAsPre,
        Walk(prevNode, currentNode, CollapseState(prevTextNode, keepLeadingWhitespace, result)), entered)
      invariant CollapseFrom(root, treatCodeAsPre,
        Walk(prevNode, currentNode, CollapseState(prevTextNode, keepLeadingWhitespace, result)), entered)
        == Collapse(root, treatCodeAsPre)
      decreases Size(root) - NodesBefore(root, entered),
        Depth(Walk(prevNode, currentNode, CollapseState(prevTextNode, keepLeadingWhitespace, result)))
    {
      ghost var w := Walk(prevNode, currentNode, CollapseState(prevTextNode, keepLeadingWhitespace, result));
      NodesBeforeBound(root, entered);
      StepTracked(root, treatCodeAsPre, w, entered);
      prevNode, currentNode, prevTextNode, keepLeadingWhitespace, result :=
        CorrectedTurn(root, treatCodeAsPre, prevNode, currentNode, prevTextNode, keepLeadingWhitespace, result);
      ghost var next := Walk(prevNode, currentNode, CollapseState(prevTextNode, keepLeadingWhitespace, result));
      CollapseFromUnfold(root, treatCodeAsPre, w, entered, next, EnteredAfter(w, next, entered));
      entered := EnteredAfter(w, next, entered);
      NodesBeforeBound(root, entered);
    }
    result := PopPrevTrailingSpace(prevTextNode, keepLeadingWhitespace, result);
  }

  /** One turn of the corrected loop: visit the node, then move on from it. */
  method CorrectedTurn(root: Node, treatCodeAsPre: bool, prevNode: Option<Path>, currentNode: Option<Path>,
                       prevTextNode: Option<Path>, keepLeadingWhitespace: bool, result: Collapsed)
    returns (prev': Option<Path>, current': Option<Path>, prevText': Option<Path>, keep': bool, result': Collapsed)
    requires WalkGood(root, treatCodeAsPre, Walk(prevNode, currentNode, CollapseState(prevTextNode, keepLeadingWhitespace, result)))
    requires !Halted(Walk(prevNode, currentNode, CollapseState(prevTextNode, keepLeadingWhitespace, result)))
    ensures Walk(prev', current', CollapseState(prevText', keep', result'))
      == Step(root, treatCodeAsPre, Walk(prevNode, currentNode, CollapseState(prevTextNode, keepLeadingWhitespace, result)), false)
  {
    var omitted;
    omitted, prevText', keep', result' :=
      VisitNode(root, treatCodeAsPre, currentNode.value, prevTextNode, keepLeadingWhitespace, result);
    if omitted {
      prev' := currentNode;
      current' := AfterRemoval(root, currentNode.value);
    } else {
      current' := NextNode(root, prevNode, currentNode, treatCodeAsPre);
      prev' := currentNode;
    }
  }

  // ----- A tree on which the loop as written never stops -----

  const Para: Node := Element("p", [], [Text(" ")])

  /** `<div><p> </p></div>`. */
  const Example: Node := Element("div", [], [Para])

  const BeforeOmission := CollapseState(None, false, NoOverlay)

  const AfterOmission := CollapseState(None, false, Collapsed(map[], {[0, 0]}))

  lemma ExamplePaths()
    ensures ValidPath(Example, [0]) && At(Example, [0]) == Para
    ensures ValidPath(Example, [0, 0]) && At(Example, [0, 0]) == Text(" ")
    ensures !ValidPath(Example, [1]) && !ValidPath(Example, [0, 1]) && !ValidPath(Example, [0, 0, 0])
  {
    assert [0][..0] == [];
    assert [0, 0][..1] == [0];
    assert [1][..0] == [];
    assert [0, 1][..1] == [0];
    assert [0, 0, 0][..2] == [0, 0];
  }

  lemma ParaBlock()
    ensures IsBlock(Para) && !IsPreNode(Para, false)
  {
    assert BlockTags[38] == "p";
  }

  lemma ExampleNotSkipped()
    ensures !Skips(Example, false)
  {
    ExamplePaths();
    assert [] + [0] == [0];
  }

  /** The whitespace-only text is omitted: nothing is retained before it. */
  lemma VisitExampleText(s: CollapseState)
    requires s.prevTextNode.None? && !s.keepLeadingWhitespace
    ensures Visit(Example, false, [0, 0], s)
      == Omitted(s.(result := s.result.(nodesToOmit := s.result.nodesToOmit + {[0, 0]})))
  {
    ExamplePaths();
    SingleSpaceRuns();
    assert TextVisit([0, 0], s, " ") == Omitted(s.(result := s.result.(nodesToOmit := s.result.nodesToOmit + {[0, 0]})));
  }

  lemma SingleSpaceRuns()
    ensures CollapseRuns(" ") == " "
  {
    assert SkipRun(" ") == SkipRun(" "[1..]) == [];
  }

  /** The paragraph is a block, but there is no previous text to trim. */
  lemma VisitExamplePara(s: CollapseState)
    requires s.prevTextNode.None? && !s.keepLeadingWhitespace
    ensures Visit(Example, false, [0], s) == Kept(s)
  {
    ExamplePaths();
    ParaBlock();
    assert PopTrailingSpace(s) == s.result;
  }

  lemma ExampleMoves()
    ensures NextNode(Example, None, Some([0]), false) == Some([0, 0])
    ensures NextNode(Example, Some([0]), Some([0]), false) == Some([0, 0])
    ensures NextNode(Example, Some([0, 0]), Some([0]), false) == Some([])
    ensures AfterRemoval(Example, [0, 0]) == Some([0])
  {
    ExamplePaths();
    assert [0] + [0] == [0, 0];
    assert [0, 0][..1] == [0];
    assert [0][..0] == [];
  }

  const Walk0 := Walk(None, Some([0]), BeforeOmission)
  const Walk1 := Walk(Some([0]), Some([0, 0]), BeforeOmission)
  const WalkUp := Walk(Some([0]), Some([0]), AfterOmission)
  const WalkDown := Walk(Some([0]), Some([0, 0]), AfterOmission)

  /** The walk as written after `k` turns: from the second on it goes back and forth between the paragraph and its text. */
  function ExampleWalk(k: nat): Walk
  {
    if k == 0 then Walk0
    else if k == 1 then Walk1
    else if k % 2 == 0 then WalkUp
    else WalkDown
  }

  lemma ExampleWalksGood(prev: Option<Path>, current: Path, s: CollapseState)
    requires current == [0] || current == [0, 0]
    requires s == BeforeOmission || s == AfterOmission
    ensures WalkGood(Example, false, Walk(prev, Some(current), s))
  {
    ExamplePaths();
    assert [0, 0][..1] == [0];
    assert [0][..0] == [];
  }

  lemma StepAtPara(prev: Option<Path>, s: CollapseState)
    requires prev == None || prev == Some([0])
    requires s == BeforeOmission || s == AfterOmission
    ensures WalkGood(Example, false, Walk(prev, Some([0]), s))
      && Step(Example, false, Walk(prev, Some([0]), s), true) == Walk(Some([0]), Some([0, 0]), s)
  {
    ExampleWalksGood(prev, [0], s);
    ExampleMoves();
    VisitExamplePara(s);
  }

  lemma StepAtText(s: CollapseState)
    requires s == BeforeOmission || s == AfterOmission
    ensures WalkGood(Example, false, Walk(Some([0]), Some([0, 0]), s))
      && Step(Example, false, Walk(Some([0]), Some([0, 0]), s), true) == Walk(Some([0]), Some([0]), AfterOmission)
  {
    ExampleWalksGood(Some([0]), [0, 0], s);
    ExampleMoves();
    VisitExampleText(s);
    assert AfterOmission.result.nodesToOmit + {[0, 0]} == AfterOmission.result.nodesToOmit;
  }

  lemma ExampleStart()
    ensures !Skips(Example, false) && Start(Example, false) == Walk(None, Some([0]), BeforeOmission)
  {
    ExampleNotSkipped();
    assert [] + [0] == [0];
  }

  /**
   * The cycle on any tree whose walk as written takes the four turns that
   * `ExampleWalk` lists: it never gets past them.
   */
  lemma RunAsWrittenNext(root: Node, treatCodeAsPre: bool, k: nat, w: Walk, next: Walk)
    requires !Skips(root, treatCodeAsPre) && RunAsWritten(root, treatCodeAsPre, k) == w
    requires WalkGood(root, treatCodeAsPre, w) && !Halted(w) && Step(root, treatCodeAsPre, w, true) == next
    ensures RunAsWritten(root, treatCodeAsPre, k + 1) == next
  {
  }

  lemma ExampleWalkNext(k: nat)
    ensures ExampleWalk(k) in {Walk0, Walk1, WalkUp, WalkDown}
    ensures ExampleWalk(k) == Walk0 ==> ExampleWalk(k + 1) == Walk1
    ensures ExampleWalk(k) == Walk1 ==> ExampleWalk(k + 1) == WalkUp
    ensures ExampleWalk(k) == WalkUp ==> ExampleWalk(k + 1) == WalkDown
    ensures ExampleWalk(k) == WalkDown ==> ExampleWalk(k + 1) == WalkUp
  {
  }

  lemma {:induction false} CyclesOn(root: Node, k: nat)
    requires !Skips(root, false) && Start(root, false) == Walk0
    requires WalkGood(root, false, Walk0) && Step(root, false, Walk0, true) == Walk1
    requires WalkGood(root, false, Walk1) && Step(root, false, Walk1, true) == WalkUp
    requires WalkGood(root, false, WalkUp) && Step(root, false, WalkUp, true) == WalkDown
    requires WalkGood(root, false, WalkDown) && Step(root, false, WalkDown, true) == WalkUp
    ensures RunAsWritten(root, false, k) == ExampleWalk(k)
  {
    if k > 0 {
      CyclesOn(root, k - 1);
      ExampleWalkNext(k - 1);
      RunAsWrittenNext(root, false, k - 1, ExampleWalk(k - 1), ExampleWalk(k));
    }
  }

  /**
   * On `<div><p> </p></div>` the loop as written never stops: removing the
   * text leads back to the paragraph with `prevNode` still the paragraph, so
   * the paragraph is entered again and again.
   */
  lemma AsWrittenCycles(k: nat)
    ensures !Skips(Example, false) && !Halted(RunAsWritten(Example, false, k))
  {
    ExampleStart();
    StepAtPara(None, BeforeOmission);
    StepAtText(BeforeOmission);
    StepAtPara(Some([0]), AfterOmission);
    StepAtText(AfterOmission);
    CyclesOn(Example, k);
    ExampleWalkNext(k);
  }

  /** The corrected walk stops on the same tree: the text is omitted and nothing else is recorded. */
  lemma CorrectedStops()
    ensures Collapse(Example, false) == Collapsed(map[], {[0, 0]})
  {
    ExampleNotSkipped();
    ExampleStart();
    var w2 := Walk(Some([0, 0]), Some([0]), AfterOmission);
    var w3 := Walk(Some([0]), Some([]), AfterOmission);
    CorrectedFirstStep();
    CorrectedSecondStep(w2);
    CollapseFromUnfold(Example, false, Walk0, [0], Walk1, [0, 0]);
    CollapseFromUnfold(Example, false, Walk1, [0, 0], w2, [0, 0]);
    CorrectedLastStep(w2, w3);
    CollapseFromUnfold(Example, false, w2, [0, 0], w3, [0, 0]);
    CollapseFromHalted(Example, false, w3, [0, 0]);
  }

  /** One turn of the corrected walk, as `CollapseFrom` takes it. */
  lemma CollapseFromUnfold(root: Node, treatCodeAsPre: bool, w: Walk, entered: Path, next: Walk, e: Path)
    requires Tracked(root, treatCodeAsPre, w, entered) && !Halted(w)
    requires next == Step(root, treatCodeAsPre, w, false) && e == EnteredAfter(w, next, entered)
    ensures Tracked(root, treatCodeAsPre, next, e)
    ensures CollapseFrom(root, treatCodeAsPre, w, entered) == CollapseFrom(root, treatCodeAsPre, next, e)
  {
    StepTracked(root, treatCodeAsPre, w, entered);
  }

  /** A stopped walk yields its overlay, the trailing space popped. */
  lemma CollapseFromHalted(root: Node, treatCodeAsPre: bool, w: Walk, entered: Path)
    requires Tracked(root, treatCodeAsPre, w, entered) && Halted(w)
    ensures CollapseFrom(root, treatCodeAsPre, w, entered) == PopTrailingSpace(w.state)
  {
  }

  /** The corrected walk enters the paragraph and keeps it. */
  lemma CorrectedFirstStep()
    ensures Tracked(Example, false, Walk0, [0])
    ensures Step(Example, false, Walk0, false) == Walk1
    ensures EnteredAfter(Walk0, Walk1, [0]) == [0, 0]
  {
    ExamplePaths();
    ExampleWalksGood(None, [0], BeforeOmission);
    ExampleMoves();
    VisitExamplePara(BeforeOmission);
    assert [0] < [0, 0];
  }

  /** Then it enters the text and omits it, going back to the paragraph. */
  lemma CorrectedSecondStep(w2: Walk)
    requires w2 == Walk(Some([0, 0]), Some([0]), AfterOmission)
    ensures Tracked(Example, false, Walk1, [0, 0]) && !Halted(Walk1)
    ensures Step(Example, false, Walk1, false) == w2
    ensures EnteredAfter(Walk1, w2, [0, 0]) == [0, 0]
  {
    ExamplePaths();
    ExampleWalksGood(Some([0]), [0, 0], BeforeOmission);
    OmitExampleText(w2);
    assert [0] < [0, 0];
  }

  /** The corrected step at the text. */
  lemma OmitExampleText(w2: Walk)
    requires w2 == Walk(Some([0, 0]), Some([0]), AfterOmission)
    requires WalkGood(Example, false, Walk1)
    ensures Step(Example, false, Walk1, false) == w2
  {
    VisitExampleText(BeforeOmission);
    ExampleMoves();
    assert NoOverlay.nodesToOmit + {[0, 0]} == AfterOmission.result.nodesToOmit;
  }

  /** Back at the paragraph, the corrected walk moves on to the root and stops. */
  lemma CorrectedLastStep(w2: Walk, w3: Walk)
    requires w2 == Walk(Some([0, 0]), Some([0]), AfterOmission)
    requires w3 == Walk(Some([0]), Some([]), AfterOmission)
    ensures Tracked(Example, false, w2, [0, 0]) && !Halted(w2)
    ensures Step(Example, false, w2, false) == w3
    ensures EnteredAfter(w2, w3, [0, 0]) == [0, 0]
    ensures Halted(w3) && PopTrailingSpace(w3.state) == Collapsed(map[], {[0, 0]})
  {
    ExamplePaths();
    ExampleWalksGood(Some([0, 0]), [0], AfterOmission);
    ExampleMoves();
    VisitExamplePara(AfterOmission);
    assert [0] < [0, 0];
    assert [] < [0];
  }

  // ----- The loop as written, wherever it stops -----

  /** Every node strictly between the root and `p` is an element. */
  predicate ElementsAbove(root: Node, p: Path)
    requires ValidPath(root, p)
    decreases |p|
  {
    |p| <= 1 ||
      (PrefixValid(root, p, |p| - 1);
       At(root, p[..|p| - 1]).Element? && ElementsAbove(root, p[..|p| - 1]))
  }

  /** The bookkeeping once `p` is recorded as omitted. */
  function OmitIn(s: CollapseState, p: Path): CollapseState
  {
    s.(result := s.result.(nodesToOmit := s.result.nodesToOmit + {p}))
  }

  /** Visiting the element `n` once more would leave the bookkeeping as it is. */
  predicate ElementSettled(n: Node, treatCodeAsPre: bool, s: CollapseState)
    requires n.Element?
  {
    ElementVisit(n, treatCodeAsPre, s).state == s
  }

  /** The first `i` children of the node at `c` are omitted when visited with `s`, which has recorded them already. */
  predicate OmittedChildren(root: Node, treatCodeAsPre: bool, c: Path, i: nat, s: CollapseState)
  {
    forall j :: 0 <= j < i ==> ValidPath(root, c + [j]) && Visit(root, treatCodeAsPre, c + [j], s) == Omitted(s)
  }

  /** `prevNode` is a child of the node at `c`: `nextNode` does not go down again. */
  predicate ComesUp(root: Node, prev: Option<Path>, c: Path)
  {
    prev.Some? && Parent(root, prev.value) == Some(c)
  }

  /**
   * The walk as written is back at the element `c` with `prevNode` still `c`,
   * after omitting every child of `c`: from here it goes down into `c` and
   * omits the same children again, for ever.
   */
  predicate Looping(root: Node, treatCodeAsPre: bool, w: Walk)
  {
    w.prevNode.Some? && w.currentNode.Some? &&
    var c := w.prevNode.value;
    var cur := w.currentNode.value;
    c != [] && ValidPath(root, c) && At(root, c).Element? && !IsPreNode(At(root, c), treatCodeAsPre)
    && |Children(At(root, c))| > 0
    && ElementSettled(At(root, c), treatCodeAsPre, w.state)
    && OmittedChildren(root, treatCodeAsPre, c, |Children(At(root, c))|, w.state)
    && (cur == c || (|cur| == |c| + 1 && cur[..|c|] == c && cur[|c|] < |Children(At(root, c))|))
  }

  /** Nothing but omitted nodes since the start, all at the top level. */
  predicate FromStart(w: Walk)
    requires w.currentNode.Some?
  {
    w.prevNode.None? && |w.currentNode.value| == 1
  }

  /** Down from the parent element, then past omitted children only. */
  predicate FromParent(root: Node, treatCodeAsPre: bool, w: Walk)
    requires w.currentNode.Some? && ValidPath(root, w.currentNode.value)
  {
    var cur := w.currentNode.value;
    cur != [] &&
    var c := cur[..|cur| - 1];
    w.prevNode == Some(c) && (PrefixValid(root, cur, |cur| - 1); At(root, c).Element?)
    && ElementSettled(At(root, c), treatCodeAsPre, w.state)
    && OmittedChildren(root, treatCodeAsPre, c, cur[|cur| - 1], w.state)
  }

  /** Across from an earlier sibling, then past omitted siblings only. */
  predicate FromSibling(w: Walk)
    requires w.currentNode.Some?
  {
    var cur := w.currentNode.value;
    w.prevNode.Some? && cur != [] &&
    var q := w.prevNode.value;
    |q| == |cur| && q[..|cur| - 1] == cur[..|cur| - 1] && q[|cur| - 1] < cur[|cur| - 1]
  }

  /** Up from a child of the current node, an element. */
  predicate FromChild(root: Node, w: Walk)
    requires w.currentNode.Some? && ValidPath(root, w.currentNode.value)
  {
    ComesUp(root, w.prevNode, w.currentNode.value) && At(root, w.currentNode.value).Element?
  }

  /** How the walk as written came to its current node, as `prevNode` records it. */
  predicate Shaped(root: Node, treatCodeAsPre: bool, w: Walk)
    requires WalkGood(root, treatCodeAsPre, w)
  {
    Halted(w) ||
      (ElementsAbove(root, w.currentNode.value) &&
       (FromStart(w) || FromParent(root, treatCodeAsPre, w) || FromSibling(w) || FromChild(root, w)))
  }

  /** Two walks at the same node, with the same bookkeeping, that move on from it alike unless they have stopped. */
  predicate Agree(root: Node, wa: Walk, wc: Walk)
  {
    wa.currentNode == wc.currentNode && wa.state == wc.state
    && (!Halted(wa) ==>
      (ComesUp(root, wa.prevNode, wa.currentNode.value) <==> ComesUp(root, wc.prevNode, wc.currentNode.value)))
  }

  /** After a visit, a second visit of the same element changes nothing. */
  lemma ElementVisitSettles(n: Node, treatCodeAsPre: bool, s: CollapseState)
    requires n.Element?
    ensures ElementSettled(n, treatCodeAsPre, ElementVisit(n, treatCodeAsPre, s).state)
  {
  }

  /** Recording an omission does not unsettle an element. */
  lemma SettledOmit(n: Node, treatCodeAsPre: bool, s: CollapseState, p: Path)
    requires n.Element? && ElementSettled(n, treatCodeAsPre, s)
    ensures ElementSettled(n, treatCodeAsPre, OmitIn(s, p))
  {
  }

  /** Whether a node is omitted does not depend on the omissions recorded so far. */
  lemma OmitAgain(root: Node, treatCodeAsPre: bool, q: Path, s: CollapseState, p: Path)
    requires ValidPath(root, q) && Visit(root, treatCodeAsPre, q, s).Omitted?
    ensures Visit(root, treatCodeAsPre, q, s) == Omitted(OmitIn(s, q))
    ensures Visit(root, treatCodeAsPre, q, OmitIn(s, p)) == Omitted(OmitIn(OmitIn(s, p), q))
  {
    var n := At(root, q);
    if n.Text? {
      assert LeadingStripped(OmitIn(s, p), CollapseRuns(n.text)) == LeadingStripped(s, CollapseRuns(n.text));
    }
  }

  lemma OmittedChildrenOmit(root: Node, treatCodeAsPre: bool, c: Path, i: nat, s: CollapseState, p: Path)
    requires OmittedChildren(root, treatCodeAsPre, c, i, s)
    ensures OmittedChildren(root, treatCodeAsPre, c, i, OmitIn(s, p))
  {
    forall j | 0 <= j < i
      ensures Visit(root, treatCodeAsPre, c + [j], OmitIn(s, p)) == Omitted(OmitIn(s, p))
    {
      OmitAgain(root, treatCodeAsPre, c + [j], s, p);
      assert c + [j] in s.result.nodesToOmit by {
        assert OmitIn(s, c + [j]) == s;
      }
      assert OmitIn(OmitIn(s, p), c + [j]) == OmitIn(s, p);
    }
  }

  /** A node omitted with `s` joins the omitted children before it. */
  lemma OmittedChildrenNext(root: Node, treatCodeAsPre: bool, c: Path, i: nat, s: CollapseState)
    requires OmittedChildren(root, treatCodeAsPre, c, i, s)
    requires ValidPath(root, c + [i]) && Visit(root, treatCodeAsPre, c + [i], s).Omitted?
    ensures OmittedChildren(root, treatCodeAsPre, c, i + 1, Visit(root, treatCodeAsPre, c + [i], s).state)
  {
    OmitAgain(root, treatCodeAsPre, c + [i], s, c + [i]);
    OmittedChildrenOmit(root, treatCodeAsPre, c, i, s, c + [i]);
    assert OmitIn(OmitIn(s, c + [i]), c + [i]) == OmitIn(s, c + [i]);
  }

  /** A looping walk never stops, and its next turn loops too. */
  lemma LoopingStep(root: Node, treatCodeAsPre: bool, w: Walk)
    requires WalkGood(root, treatCodeAsPre, w) && Looping(root, treatCodeAsPre, w)
    ensures !Halted(w) && Looping(root, treatCodeAsPre, Step(root, treatCodeAsPre, w, true))
  {
    var c := w.prevNode.value;
    var cur := w.currentNode.value;
    var n := |Children(At(root, c))|;
    var next := Step(root, treatCodeAsPre, w, true);
    if cur == c {
      ChildPath(root, c, 0);
      assert Visit(root, treatCodeAsPre, c, w.state) == Kept(w.state);
      assert c[..|c| - 1] != c;
      assert next == Walk(Some(c), Some(c + [0]), w.state);
      assert (c + [0])[..|c|] == c;
    } else {
      var i := cur[|c|];
      assert cur == c + [i];
      assert Visit(root, treatCodeAsPre, cur, w.state) == Omitted(w.state);
      assert cur[..|cur| - 1] == c;
      ChildPath(root, c, i + 1);
      if i + 1 < n {
        assert next.currentNode == Some(c + [i + 1]);
        assert (c + [i + 1])[..|c|] == c;
      } else {
        assert next.currentNode == Some(c);
      }
    }
  }

  /** A kept node: both walks take the same turn, and the walk as written stays shaped. */
  lemma StepKeptAgrees(root: Node, treatCodeAsPre: bool, wa: Walk, wc: Walk)
    requires WalkGood(root, treatCodeAsPre, wa) && WalkGood(root, treatCodeAsPre, wc) && !Halted(wa)
    requires Agree(root, wa, wc) && Shaped(root, treatCodeAsPre, wa)
    requires Visit(root, treatCodeAsPre, wa.currentNode.value, wa.state).Kept?
    ensures Step(root, treatCodeAsPre, wa, true) == Step(root, treatCodeAsPre, wc, false)
    ensures WalkGood(root, treatCodeAsPre, Step(root, treatCodeAsPre, wa, true))
      && Shaped(root, treatCodeAsPre, Step(root, treatCodeAsPre, wa, true))
  {
    StepGood(root, treatCodeAsPre, wa, true);
    var x := wa.currentNode.value;
    var next := Step(root, treatCodeAsPre, wa, true);
    if next.currentNode.Some? && next.currentNode.value != [] {
      var y := next.currentNode.value;
      if y == x + [0] {
        ChildPath(root, x, 0);
        assert y[..|y| - 1] == x;
        ElementVisitSettles(At(root, x), treatCodeAsPre, wa.state);
        assert FromParent(root, treatCodeAsPre, next);
      } else {
        KeptAway(root, treatCodeAsPre, x, next);
      }
    }
  }

  /** Moving on from a kept node sideways or up. */
  lemma KeptAway(root: Node, treatCodeAsPre: bool, x: Path, next: Walk)
    requires ValidPath(root, x) && x != [] && ElementsAbove(root, x)
    requires WalkGood(root, treatCodeAsPre, next) && next.prevNode == Some(x)
    requires next.currentNode == AfterRemoval(root, x) && next.currentNode.value != []
    ensures Shaped(root, treatCodeAsPre, next)
  {
    var y := next.currentNode.value;
    var u := x[..|x| - 1];
    PrefixValid(root, x, |x| - 1);
    if y == u {
      assert FromChild(root, next);
    } else {
      assert y[..|y| - 1] == u;
      assert FromSibling(next);
    }
  }

  /**
   * An omitted node: the walk as written either starts to loop, or it stays
   * where the corrected walk is and shaped.
   */
  lemma StepOmittedAgrees(root: Node, treatCodeAsPre: bool, wa: Walk, wc: Walk)
    requires WalkGood(root, treatCodeAsPre, wa) && WalkGood(root, treatCodeAsPre, wc) && !Halted(wa)
    requires Agree(root, wa, wc) && Shaped(root, treatCodeAsPre, wa)
    requires Visit(root, treatCodeAsPre, wa.currentNode.value, wa.state).Omitted?
    ensures var na := Step(root, treatCodeAsPre, wa, true);
      WalkGood(root, treatCodeAsPre, na)
      && (Looping(root, treatCodeAsPre, na)
          || (Agree(root, na, Step(root, treatCodeAsPre, wc, false)) && Shaped(root, treatCodeAsPre, na)))
  {
    StepGood(root, treatCodeAsPre, wa, true);
    var x := wa.currentNode.value;
    var s := wa.state;
    OmitAgain(root, treatCodeAsPre, x, s, x);
    var na := Step(root, treatCodeAsPre, wa, true);
    var nc := Step(root, treatCodeAsPre, wc, false);
    assert na == Walk(wa.prevNode, AfterRemoval(root, x), OmitIn(s, x));
    assert nc == Walk(Some(x), AfterRemoval(root, x), OmitIn(s, x));
    var y := AfterRemoval(root, x).value;
    var u := x[..|x| - 1];
    PrefixValid(root, x, |x| - 1);
    if y == [] {
    } else if y == u {
      OmittedToParent(root, treatCodeAsPre, wa, x, na, nc);
    } else {
      OmittedToSibling(root, treatCodeAsPre, wa, x, na, nc);
    }
  }

  /** After the last child is omitted: the loop starts when the walk came down from the parent. */
  lemma OmittedToParent(root: Node, treatCodeAsPre: bool, wa: Walk, x: Path, na: Walk, nc: Walk)
    requires WalkGood(root, treatCodeAsPre, wa) && !Halted(wa) && wa.currentNode == Some(x)
    requires Shaped(root, treatCodeAsPre, wa) && !At(root, x).Element?
    requires Visit(root, treatCodeAsPre, x, wa.state) == Omitted(OmitIn(wa.state, x))
    requires WalkGood(root, treatCodeAsPre, na)
    requires na == Walk(wa.prevNode, AfterRemoval(root, x), OmitIn(wa.state, x))
    requires nc == Walk(Some(x), AfterRemoval(root, x), OmitIn(wa.state, x))
    requires AfterRemoval(root, x) == Some(x[..|x| - 1]) && x[..|x| - 1] != []
    ensures Looping(root, treatCodeAsPre, na) || (Agree(root, na, nc) && Shaped(root, treatCodeAsPre, na))
  {
    var u := x[..|x| - 1];
    var i := x[|x| - 1];
    assert x == u + [i];
    PrefixValid(root, x, |x| - 1);
    ChildPath(root, u, i);
    ChildPath(root, u, i + 1);
    assert !ValidPath(root, u + [i + 1]);
    if FromParent(root, treatCodeAsPre, wa) {
      var s := wa.state;
      SettledOmit(At(root, u), treatCodeAsPre, s, x);
      OmittedChildrenNext(root, treatCodeAsPre, u, i, s);
      assert !IsPreNode(At(root, u), treatCodeAsPre);
      assert Looping(root, treatCodeAsPre, na);
    } else {
      assert FromSibling(wa);
      assert ComesUp(root, na.prevNode, u);
      assert FromChild(root, na);
    }
  }

  /** After a child with a next sibling is omitted: both walks go on to the sibling. */
  lemma OmittedToSibling(root: Node, treatCodeAsPre: bool, wa: Walk, x: Path, na: Walk, nc: Walk)
    requires WalkGood(root, treatCodeAsPre, wa) && !Halted(wa) && wa.currentNode == Some(x)
    requires Shaped(root, treatCodeAsPre, wa) && !At(root, x).Element?
    requires Visit(root, treatCodeAsPre, x, wa.state) == Omitted(OmitIn(wa.state, x))
    requires WalkGood(root, treatCodeAsPre, na)
    requires na == Walk(wa.prevNode, AfterRemoval(root, x), OmitIn(wa.state, x))
    requires nc == Walk(Some(x), AfterRemoval(root, x), OmitIn(wa.state, x))
    requires AfterRemoval(root, x) == Some(x[..|x| - 1] + [x[|x| - 1] + 1])
    ensures Agree(root, na, nc) && Shaped(root, treatCodeAsPre, na)
  {
    var u := x[..|x| - 1];
    var i := x[|x| - 1];
    var y := u + [i + 1];
    assert x == u + [i];
    assert y[..|y| - 1] == u;
    PrefixValid(root, x, |x| - 1);
    if FromParent(root, treatCodeAsPre, wa) {
      var s := wa.state;
      SettledOmit(At(root, u), treatCodeAsPre, s, x);
      OmittedChildrenNext(root, treatCodeAsPre, u, i, s);
      assert FromParent(root, treatCodeAsPre, na);
    } else if FromSibling(wa) {
      assert FromSibling(na);
    } else {
      assert FromStart(na);
    }
  }

  /** The corrected walk after `k` turns (or fewer, when it stopped), with the node it last moved into. */
  function RunCorrected(root: Node, treatCodeAsPre: bool, k: nat): (r: (Walk, Path))
    requires !Skips(root, treatCodeAsPre)
    ensures Tracked(root, treatCodeAsPre, r.0, r.1)
    ensures CollapseFrom(root, treatCodeAsPre, r.0, r.1) == Collapse(root, treatCodeAsPre)
  {
    if k == 0 then (Start(root, treatCodeAsPre), [0])
    else
      var (w, e) := RunCorrected(root, treatCodeAsPre, k - 1);
      if Halted(w) then (w, e)
      else
        var next := Step(root, treatCodeAsPre, w, false);
        CollapseFromUnfold(root, treatCodeAsPre, w, e, next, EnteredAfter(w, next, e));
        (next, EnteredAfter(w, next, e))
  }

  /** The next turn of the walk as written, or the walk itself once it has stopped. */
  function NextAsWritten(root: Node, treatCodeAsPre: bool, w: Walk): Walk
    requires WalkGood(root, treatCodeAsPre, w)
  {
    if Halted(w) then w else Step(root, treatCodeAsPre, w, true)
  }

  /** The next turn of the corrected walk, or the walk itself once it has stopped. */
  function NextCorrected(root: Node, treatCodeAsPre: bool, w: Walk): Walk
    requires WalkGood(root, treatCodeAsPre, w)
  {
    if Halted(w) then w else Step(root, treatCodeAsPre, w, false)
  }

  /** The loop as written is caught in its loop, or is where the corrected walk is. */
  predicate Tracks(root: Node, treatCodeAsPre: bool, wa: Walk, wc: Walk)
  {
    WalkGood(root, treatCodeAsPre, wa)
    && (Looping(root, treatCodeAsPre, wa) || (Agree(root, wa, wc) && Shaped(root, treatCodeAsPre, wa)))
  }

  /** One more turn of both walks keeps the loop as written looping, or agreeing with the corrected walk. */
  lemma TracksStep(root: Node, treatCodeAsPre: bool, wa: Walk, wc: Walk)
    requires WalkGood(root, treatCodeAsPre, wa) && WalkGood(root, treatCodeAsPre, wc)
    requires Tracks(root, treatCodeAsPre, wa, wc)
    ensures WalkGood(root, treatCodeAsPre, NextAsWritten(root, treatCodeAsPre, wa))
    ensures Tracks(root, treatCodeAsPre, NextAsWritten(root, treatCodeAsPre, wa), NextCorrected(root, treatCodeAsPre, wc))
  {
    if Looping(root, treatCodeAsPre, wa) {
      LoopingStep(root, treatCodeAsPre, wa);
      StepGood(root, treatCodeAsPre, wa, true);
    } else if !Halted(wa) {
      if Visit(root, treatCodeAsPre, wa.currentNode.value, wa.state).Kept? {
        StepKeptAgrees(root, treatCodeAsPre, wa, wc);
      } else {
        StepOmittedAgrees(root, treatCodeAsPre, wa, wc);
      }
    }
  }

  lemma RunsNext(root: Node, treatCodeAsPre: bool, k: nat)
    requires !Skips(root, treatCodeAsPre)
    ensures RunAsWritten(root, treatCodeAsPre, k + 1)
      == NextAsWritten(root, treatCodeAsPre, RunAsWritten(root, treatCodeAsPre, k))
    ensures RunCorrected(root, treatCodeAsPre, k + 1).0
      == NextCorrected(root, treatCodeAsPre, RunCorrected(root, treatCodeAsPre, k).0)
  {
  }

  /**
   * At every turn the loop as written is either caught in a loop it never
   * leaves, or at the corrected walk's node with the corrected walk's
   * bookkeeping.
   */
  lemma {:induction false} AsWrittenTracksCorrected(root: Node, treatCodeAsPre: bool, k: nat)
    requires !Skips(root, treatCodeAsPre)
    ensures Tracks(root, treatCodeAsPre, RunAsWritten(root, treatCodeAsPre, k), RunCorrected(root, treatCodeAsPre, k).0)
  {
    if k > 0 {
      var j: nat := k - 1;
      AsWrittenTracksCorrected(root, treatCodeAsPre, j);
      TracksStep(root, treatCodeAsPre, RunAsWritten(root, treatCodeAsPre, j), RunCorrected(root, treatCodeAsPre, j).0);
      RunsNext(root, treatCodeAsPre, j);
    } else {
      TracksAtStart(root, treatCodeAsPre);
    }
  }

  lemma TracksAtStart(root: Node, treatCodeAsPre: bool)
    requires !Skips(root, treatCodeAsPre)
    ensures Tracks(root, treatCodeAsPre, RunAsWritten(root, treatCodeAsPre, 0), RunCorrected(root, treatCodeAsPre, 0).0)
  {
    assert FromStart(Start(root, treatCodeAsPre));
  }

  /** Once caught in the loop, the walk as written never stops. */
  lemma {:induction false} LoopingForever(root: Node, treatCodeAsPre: bool, k: nat, k': nat)
    requires !Skips(root, treatCodeAsPre) && k <= k'
    requires Looping(root, treatCodeAsPre, RunAsWritten(root, treatCodeAsPre, k))
    ensures Looping(root, treatCodeAsPre, RunAsWritten(root, treatCodeAsPre, k'))
    ensures !Halted(RunAsWritten(root, treatCodeAsPre, k'))
    decreases k' - k
  {
    LoopingStep(root, treatCodeAsPre, RunAsWritten(root, treatCodeAsPre, k));
    if k < k' {
      LoopingForever(root, treatCodeAsPre, k + 1, k');
    }
  }

  /** Wherever the loop as written stops, it leaves the overlay of the corrected walk. */
  lemma AsWrittenAgrees(root: Node, treatCodeAsPre: bool, k: nat)
    requires !Skips(root, treatCodeAsPre) && Halted(RunAsWritten(root, treatCodeAsPre, k))
    ensures PopTrailingSpace(RunAsWritten(root, treatCodeAsPre, k).state) == Collapse(root, treatCodeAsPre)
  {
    AsWrittenTracksCorrected(root, treatCodeAsPre, k);
    var wa := RunAsWritten(root, treatCodeAsPre, k);
    if Looping(root, treatCodeAsPre, wa) {
      LoopingStep(root, treatCodeAsPre, wa);
    }
    var (wc, e) := RunCorrected(root, treatCodeAsPre, k);
    CollapseFromHalted(root, treatCodeAsPre, wc, e);
  }
}

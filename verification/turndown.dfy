/**
 * The conversion pipeline and the service of `turndown.cpp`: chunks joined
 * with normalised blank lines, text and element nodes turned into Markdown
 * by the rule engine, NBSP encoding, the rules' appends, the final trim, and
 * the service that rebuilds its rule cache lazily.
 *
 * A conversion is specified by functions that thread the reference store's
 * contents through the walk (`Out.refs`); the methods that run it on a
 * `Rules` object are proved to agree with them.
 */
module Turndown {

  import opened Strings
  import opened Wrappers
  import opened Dom
  import opened Options
  import Utilities
  import NodeAnalysis
  import HtmlSerialize
  import MarkdownEscape
  import CommonMarkRules
  import CollapseWhitespace
  import opened RulesEngine

  // ----- Newline trimming -----

  /** `trimLeadingNewlines`: the index loop over leading CR/LF. */
  method DropLeadingNewlines(text: Str) returns (r: Str)
    ensures r == TrimLeadingNewlines(text)
  {
    var index := 0;
    while index < |text| && IsNewline(text[index])
      invariant index <= |text|
      invariant forall j :: 0 <= j < index ==> IsNewline(text[j])
    {
      index := index + 1;
    }
    NewlineRunEnd(text, index);
    r := text[index..];
  }

  /** The first byte that is not CR/LF is where the leading run ends. */
  lemma NewlineRunEnd(text: Str, index: nat)
    requires index <= |text| && forall j :: 0 <= j < index ==> IsNewline(text[j])
    requires index == |text| || !IsNewline(text[index])
    ensures index == LeadingNewlines(text)
  {
  }

  /** `trimTrailingNewlines`: the index loop over trailing CR/LF. */
  method DropTrailingNewlines(text: Str) returns (r: Str)
    ensures r == TrimTrailingNewlines(text)
  {
    var index := |text|;
    while index > 0 && IsNewline(text[index - 1])
      invariant 0 <= index <= |text|
      invariant forall j :: index <= j < |text| ==> IsNewline(text[j])
    {
      index := index - 1;
    }
    NewlineRunStart(text, index);
    r := text[..index];
  }

  lemma NewlineRunStart(text: Str, index: nat)
    requires index <= |text| && forall j :: index <= j < |text| ==> IsNewline(text[j])
    requires index == 0 || !IsNewline(text[index - 1])
    ensures |text| - index == TrailingNewlines(text)
  {
  }

  // ----- joinChunks -----

  /** `std::max` of the two removed runs, capped at 2. */
  function SeparatorLength(leftRemoved: nat, rightRemoved: nat): (n: nat)
    ensures n <= 2
    ensures n == 2 || n == leftRemoved || n == rightRemoved
    ensures n >= leftRemoved || n == 2
    ensures n >= rightRemoved || n == 2
  {
    var m := if leftRemoved >= rightRemoved then leftRemoved else rightRemoved;
    if m > 2 then 2 else m
  }

  /** `joinChunks`. */
  function Joined(output: Str, addition: Str): Str
  {
    if output == [] then addition
    else if addition == [] then output
    else
      TrimTrailingNewlines(output)
      + Repeat('\n', SeparatorLength(TrailingNewlines(output), LeadingNewlines(addition)))
      + TrimLeadingNewlines(addition)
  }

  /** `joinChunks`, with its two trimming loops. */
  method JoinChunks(output: Str, addition: Str) returns (r: Str)
    ensures r == Joined(output, addition)
  {
    if output == [] {
      return addition;
    }
    if addition == [] {
      return output;
    }
    var left := DropTrailingNewlines(output);
    var right := DropLeadingNewlines(addition);
    var leftRemoved := |output| - |left|;
    var rightRemoved := |addition| - |right|;
    var separatorLength := if leftRemoved >= rightRemoved then leftRemoved else rightRemoved;
    if separatorLength > 2 {
      separatorLength := 2;
    }
    r := left + Repeat('\n', separatorLength) + right;
  }

  /**
   * An empty side leaves the other side as it is, and chunks that do not
   * meet at a CR/LF are simply concatenated.
   */
  lemma JoinedPlain(output: Str, addition: Str)
    ensures Joined([], addition) == addition && Joined(output, []) == output
    ensures (output == [] || !IsNewline(output[|output| - 1])) && (addition == [] || !IsNewline(addition[0]))
      ==> Joined(output, addition) == output + addition
  {
    if output != [] && addition != [] && !IsNewline(output[|output| - 1]) && !IsNewline(addition[0]) {
      assert TrailingNewlines(output) == 0;
      assert LeadingNewlines(addition) == 0;
      assert output[..|output|] == output;
      assert addition[0..] == addition;
    }
  }

  /**
   * At the seam of two non-empty chunks, the left chunk's trailing CR/LF run
   * and the right chunk's leading run give way to as many line feeds as the
   * longer run, at most two; the text on either side is kept byte for byte.
   */
  lemma JoinedSeam(output: Str, addition: Str)
    requires output != [] && addition != []
    ensures var r := Joined(output, addition);
      var keptLeft := |output| - TrailingNewlines(output);
      var keptRight := |addition| - LeadingNewlines(addition);
      var sep := SeparatorLength(TrailingNewlines(output), LeadingNewlines(addition));
      |r| == keptLeft + sep + keptRight
      && r[..keptLeft] == output[..keptLeft]
      && r[keptLeft + sep..] == addition[LeadingNewlines(addition)..]
      && (forall i :: keptLeft <= i < keptLeft + sep ==> r[i] == '\n')
      && (keptLeft == 0 || !IsNewline(r[keptLeft - 1]))
      && (keptRight == 0 || !IsNewline(r[keptLeft + sep]))
  {
    var r := Joined(output, addition);
    var left := TrimTrailingNewlines(output);
    var sep := Repeat('\n', SeparatorLength(TrailingNewlines(output), LeadingNewlines(addition)));
    var right := TrimLeadingNewlines(addition);
    assert r == left + sep + right;
    assert r[..|left|] == left;
    assert r[|left| + |sep|..] == right;
  }

  /** A chunk `"\n\n" + x + "\n\n"` with `x` neither starting nor ending in CR/LF: two newlines at each end. */
  lemma BlockEnds(x: Str)
    requires x != [] && !IsNewline(x[0]) && !IsNewline(x[|x| - 1])
    ensures var b := "\n\n" + x + "\n\n";
      TrailingNewlines(b) == 2 && LeadingNewlines(b) == 2
  {
    var b := "\n\n" + x + "\n\n";
    assert IsNewline(b[0]) && IsNewline(b[1]) && b[2] == x[0];
    assert IsNewline(b[|b| - 1]) && IsNewline(b[|b| - 2]) && b[|b| - 3] == x[|x| - 1];
  }

  /** Two block replacements are joined with exactly one blank line between them. */
  lemma JoinedBlocks(x: Str, y: Str)
    requires x != [] && !IsNewline(x[0]) && !IsNewline(x[|x| - 1])
    requires y != [] && !IsNewline(y[0]) && !IsNewline(y[|y| - 1])
    ensures Joined("\n\n" + x + "\n\n", "\n\n" + y + "\n\n") == "\n\n" + x + "\n\n" + y + "\n\n"
  {
    BlockEnds(x);
    BlockEnds(y);
    var a := "\n\n" + x + "\n\n";
    var b := "\n\n" + y + "\n\n";
    assert TrimTrailingNewlines(a) == "\n\n" + x;
    assert TrimLeadingNewlines(b) == y + "\n\n";
    assert Repeat('\n', 2) == "\n\n";
  }

  // ----- encodeNbsp -----

  /** `std::string::find` of the NBSP pair `C2 A0` from `pos` on. */
  function FindNbsp(t: Str, pos: nat): (r: Option<nat>)
    ensures r.Some? ==>
      pos <= r.value && NodeAnalysis.NbspAt(t, r.value)
      && forall i :: pos <= i < r.value ==> !NodeAnalysis.NbspAt(t, i)
    ensures r.None? ==> forall i :: pos <= i ==> !NodeAnalysis.NbspAt(t, i)
    decreases |t| - pos
  {
    if pos + 1 >= |t| then None
    else if NodeAnalysis.NbspAt(t, pos) then Some(pos)
    else FindNbsp(t, pos + 1)
  }

  /**
   * `encodeNbsp` of `turndown.cpp`: finds each NBSP from the current
   * position, replaces it in place by `&nbsp;` and resumes after the entity.
   * The result is the same encoding the node analysis uses.
   */
  method EncodeNbspInPlace(text: Str) returns (r: Str)
    ensures r == NodeAnalysis.EncodedNbsp(text)
  {
    r := text;
    var pos := 0;
    var found := FindNbsp(r, pos);
    while found.Some?
      invariant pos <= |r|
      invariant found == FindNbsp(r, pos)
      invariant r[..pos] + NodeAnalysis.EncodedNbsp(r[pos..]) == NodeAnalysis.EncodedNbsp(text)
      decreases |r| - pos
    {
      var q := found.value;
      ReplaceNbspStep(r, pos, q);
      r := r[..q] + "&nbsp;" + r[q + 2..];
      pos := q + 6;
      found := FindNbsp(r, pos);
    }
    NoNbspAfter(r, pos);
    NodeAnalysis.EncodedNbspUnchanged(r[pos..]);
    assert r[..pos] + r[pos..] == r;
  }

  /** One replacement keeps the encoded prefix plus the encoding of the rest equal to the whole encoding. */
  lemma ReplaceNbspStep(r: Str, pos: nat, q: nat)
    requires pos <= q && NodeAnalysis.NbspAt(r, q)
    requires forall i :: pos <= i < q ==> !NodeAnalysis.NbspAt(r, i)
    ensures var next := r[..q] + "&nbsp;" + r[q + 2..];
      next[..q + 6] + NodeAnalysis.EncodedNbsp(next[q + 6..])
      == r[..pos] + NodeAnalysis.EncodedNbsp(r[pos..])
  {
    var t := r[pos..];
    var d := q - pos;
    NbspShift(r, pos, q);
    EncodedAt(t, d);
    var next := r[..q] + "&nbsp;" + r[q + 2..];
    var tail := NodeAnalysis.EncodedNbsp(r[q + 2..]);
    assert next[..q + 6] == r[..q] + "&nbsp;";
    assert next[q + 6..] == r[q + 2..];
    assert t[..d] == r[pos..q] && t[d + 2..] == r[q + 2..];
    assert r[..pos] + r[pos..q] == r[..q];
    Regroup(r[..pos], r[pos..q], "&nbsp;", tail);
  }

  lemma Regroup(a: Str, b: Str, c: Str, d: Str)
    ensures a + (b + c + d) == (a + b + c) + d
  {
  }

  /** The NBSP positions of `r` from `pos` on, seen in `r[pos..]`. */
  lemma NbspShift(r: Str, pos: nat, q: nat)
    requires pos <= q && NodeAnalysis.NbspAt(r, q)
    requires forall i :: pos <= i < q ==> !NodeAnalysis.NbspAt(r, i)
    ensures NodeAnalysis.NbspAt(r[pos..], q - pos)
    ensures forall i :: 0 <= i < q - pos ==> !NodeAnalysis.NbspAt(r[pos..], i)
  {
    forall i | 0 <= i < q - pos
      ensures !NodeAnalysis.NbspAt(r[pos..], i)
    {
      assert !NodeAnalysis.NbspAt(r, pos + i);
    }
  }

  /** Encoding text whose first NBSP is at `d`: the bytes before it, the entity, then the encoded rest. */
  lemma {:induction false} EncodedAt(t: Str, d: nat)
    requires NodeAnalysis.NbspAt(t, d)
    requires forall i :: 0 <= i < d ==> !NodeAnalysis.NbspAt(t, i)
    ensures NodeAnalysis.EncodedNbsp(t) == t[..d] + "&nbsp;" + NodeAnalysis.EncodedNbsp(t[d + 2..])
    decreases d
  {
    if d == 0 {
      assert Nbsp <= t;
    } else {
      assert !NodeAnalysis.NbspAt(t, 0);
      assert !(Nbsp <= t);
      var rest := t[1..];
      forall i | 0 <= i < d - 1
        ensures !NodeAnalysis.NbspAt(rest, i)
      {
        assert !NodeAnalysis.NbspAt(t, i + 1);
      }
      assert NodeAnalysis.NbspAt(rest, d - 1);
      EncodedAt(rest, d - 1);
      assert rest[d - 1 + 2..] == t[d + 2..];
      var tail := NodeAnalysis.EncodedNbsp(t[d + 2..]);
      assert NodeAnalysis.EncodedNbsp(t) == [t[0]] + NodeAnalysis.EncodedNbsp(rest);
      assert [t[0]] + rest[..d - 1] == t[..d];
      Regroup([t[0]], rest[..d - 1], "&nbsp;", tail);
    }
  }

  lemma NoNbspAfter(r: Str, pos: nat)
    requires pos <= |r| && forall i :: pos <= i ==> !NodeAnalysis.NbspAt(r, i)
    ensures NodeAnalysis.NoNbsp(r[pos..])
  {
    forall i | 0 <= i < |r| - pos
      ensures !NodeAnalysis.NbspAt(r[pos..], i)
    {
      assert !NodeAnalysis.NbspAt(r, pos + i);
    }
  }

  // ----- Converting nodes -----

  /** What a conversion reads: the options, the rule lists, the tree and its whitespace overlay. */
  datatype Ctx = Ctx(o: TurndownOptions, rules: RuleSet, root: Node, ov: Collapsed)

  /** Markdown produced so far and the references in the store afterwards. */
  datatype Out = Out(text: Str, refs: seq<Str>)

  /** The reference a replacement stores, as a list. */
  function Stored(reference: Option<Str>): seq<Str>
  {
    if reference.Some? then [reference.value] else []
  }

  /** `processTextNode`: empty text gives nothing; text inside code is kept verbatim; other text is escaped. */
  function TextMarkdown(c: Ctx, p: Path): Str
    requires ValidPath(c.root, p)
  {
    var text := Utilities.CollectText(At(c.root, p), p, c.ov);
    if text == [] then []
    else if NodeAnalysis.AnalyzeNode(c.root, p, c.ov, c.o.preformattedCode).isCode then text
    else Escape(c.o, text)
  }

  /**
   * The Markdown of a text node: nothing for empty text, the text itself
   * inside code, and elsewhere an escaping that reads back as the text and,
   * with the minimal escaper, escapes only backslashes and brackets.
   */
  lemma TextMarkdownMeans(c: Ctx, p: Path)
    requires ValidPath(c.root, p)
    ensures var text := Utilities.CollectText(At(c.root, p), p, c.ov);
      var r := TextMarkdown(c, p);
      (text == [] ==> r == [])
      && (Utilities.IsCodeNode(c.root, p) ==> r == text)
      && (!Utilities.IsCodeNode(c.root, p) ==>
            MarkdownEscape.Unescape(r) == text
            && (c.o.escaper == MinimalEscaper ==> MarkdownEscape.EscapesOnly(r, {'\\', '[', ']'})))
  {
    var text := Utilities.CollectText(At(c.root, p), p, c.ov);
    if text == [] {
      assert MarkdownEscape.Unescape([]) == [];
      assert MarkdownEscape.EscapesOnly([], {'\\', '[', ']'});
    }
  }

  /** `processNode`: text, elements and documents; any other node gives nothing. */
  function NodeMarkdown(c: Ctx, n: Node, p: Path, refs: seq<Str>): Result<Out, StoiError>
    requires ValidPath(c.root, p) && At(c.root, p) == n
    decreases n, 2
  {
    match n
    case Text(_) => Ok(Out(TextMarkdown(c, p), refs))
    case Element(_, _, _) => ElementMarkdown(c, n, p, refs)
    case Document(_) => ChildrenMarkdown(c, n, p, 0, [], refs)
    case Comment(_) => Ok(Out([], refs))
  }

  /**
   * `replacementForNode`: a tag in `keepTags` gives the element's own HTML
   * (its children are still converted); otherwise the children's Markdown,
   * trimmed when the node has flanking whitespace, goes through the rule
   * `forNode` selects and is framed by that whitespace.
   */
  function ElementMarkdown(c: Ctx, n: Node, p: Path, refs: seq<Str>): Result<Out, StoiError>
    requires ValidPath(c.root, p) && At(c.root, p) == n && n.Element?
    decreases n, 1
  {
    var children :- ChildrenMarkdown(c, n, p, 0, [], refs);
    if n.tag in c.o.keepTags then Ok(Out(HtmlSerialize.Serialized(n), children.refs))
    else
      var flank := NodeAnalysis.AnalyzeNode(c.root, p, c.ov, c.o.preformattedCode).flankingWhitespace;
      var content := if flank.leading != [] || flank.trailing != [] then Utilities.TrimStr(children.text)
        else children.text;
      var rule := SelectedRule(c.o, c.rules, c.root, p, c.ov);
      var converted :- RuleOutput(rule, c.o, content, c.root, p, c.ov, |children.refs|);
      Ok(Out(flank.leading + converted.text + flank.trailing, children.refs + Stored(converted.reference)))
  }

  /** `processChildren` from child `k` on, with `acc` the Markdown joined so far. */
  function ChildrenMarkdown(c: Ctx, n: Node, p: Path, k: nat, acc: Str, refs: seq<Str>): Result<Out, StoiError>
    requires ValidPath(c.root, p) && At(c.root, p) == n && k <= |Children(n)|
    decreases n, 0, |Children(n)| - k
  {
    if k == |Children(n)| then Ok(Out(acc, refs))
    else
      ChildPath(c.root, p, k);
      var addition :- NodeMarkdown(c, Children(n)[k], p + [k], refs);
      ChildrenMarkdown(c, n, p, k + 1, Joined(acc, addition.text), addition.refs)
  }

  /** Converting a node only ever adds references to the store. */
  lemma {:induction false} NodeRefsGrow(c: Ctx, n: Node, p: Path, refs: seq<Str>)
    requires ValidPath(c.root, p) && At(c.root, p) == n
    requires NodeMarkdown(c, n, p, refs).Ok?
    ensures refs <= NodeMarkdown(c, n, p, refs).value.refs
    decreases n, 2
  {
    match n
    case Text(_) =>
    case Element(_, _, _) => ElementRefsGrow(c, n, p, refs);
    case Document(_) => ChildrenRefsGrow(c, n, p, 0, [], refs);
    case Comment(_) =>
  }

  lemma {:induction false} ElementRefsGrow(c: Ctx, n: Node, p: Path, refs: seq<Str>)
    requires ValidPath(c.root, p) && At(c.root, p) == n && n.Element?
    requires ElementMarkdown(c, n, p, refs).Ok?
    ensures refs <= ElementMarkdown(c, n, p, refs).value.refs
    decreases n, 1
  {
    ChildrenRefsGrow(c, n, p, 0, [], refs);
    var children := ChildrenMarkdown(c, n, p, 0, [], refs).value;
    PrefixAppend(refs, children.refs, ElementMarkdown(c, n, p, refs).value.refs);
  }

  lemma {:induction false} ChildrenRefsGrow(c: Ctx, n: Node, p: Path, k: nat, acc: Str, refs: seq<Str>)
    requires ValidPath(c.root, p) && At(c.root, p) == n && k <= |Children(n)|
    requires ChildrenMarkdown(c, n, p, k, acc, refs).Ok?
    ensures refs <= ChildrenMarkdown(c, n, p, k, acc, refs).value.refs
    decreases n, 0, |Children(n)| - k
  {
    if k < |Children(n)| {
      ChildPath(c.root, p, k);
      NodeRefsGrow(c, Children(n)[k], p + [k], refs);
      var addition := NodeMarkdown(c, Children(n)[k], p + [k], refs).value;
      ChildrenRefsGrow(c, n, p, k + 1, Joined(acc, addition.text), addition.refs);
    }
  }

  lemma PrefixAppend(a: seq<Str>, b: seq<Str>, c: seq<Str>)
    requires a <= b && b <= c
    ensures a <= c
  {
  }

  /** An element whose tag is in `keepTags` is written out as its own HTML, whatever rules exist. */
  lemma KeptTagsSerialized(c: Ctx, n: Node, p: Path, refs: seq<Str>)
    requires ValidPath(c.root, p) && At(c.root, p) == n && n.Element? && n.tag in c.o.keepTags
    requires ElementMarkdown(c, n, p, refs).Ok?
    ensures ElementMarkdown(c, n, p, refs).value.text == HtmlSerialize.Serialized(n)
  {
  }

  // ----- Running the conversion on a `Rules` object -----

  /** A method's result and the store's contents agree with a conversion's specification. */
  predicate Agrees(r: Result<Str, StoiError>, spec: Result<Out, StoiError>, refs: seq<Str>)
  {
    (r.Ok? <==> spec.Ok?)
    && (spec.Err? ==> r.error == spec.error)
    && (spec.Ok? ==> r.value == spec.value.text && refs == spec.value.refs)
  }

  /** The conversion context a `Rules` object gives for a tree and its overlay. */
  function ContextOf(rules: Rules, root: Node, ov: Collapsed): Ctx
    reads rules
  {
    Ctx(rules.options, rules.Snapshot(), root, ov)
  }

  /** `processNode`, on the rules' own reference store. */
  method ProcessNode(rules: Rules, root: Node, n: Node, p: Path, ov: Collapsed) returns (r: Result<Str, StoiError>)
    requires ValidPath(root, p) && At(root, p) == n
    modifies rules.store
    ensures Agrees(r, NodeMarkdown(ContextOf(rules, root, ov), n, p, old(rules.store.references)), rules.store.references)
    decreases n, 3
  {
    match n
    case Text(_) =>
      r := Ok(TextMarkdown(ContextOf(rules, root, ov), p));
    case Element(_, _, _) =>
      r := ReplacementForNode(rules, root, n, p, ov);
    case Document(_) =>
      r := ProcessChildren(rules, root, n, p, ov);
    case Comment(_) =>
      r := Ok([]);
  }

  /** `replacementForNode`, with its scan of `keepTags`. */
  method ReplacementForNode(rules: Rules, root: Node, n: Node, p: Path, ov: Collapsed)
    returns (r: Result<Str, StoiError>)
    requires ValidPath(root, p) && At(root, p) == n && n.Element?
    modifies rules.store
    ensures Agrees(r, ElementMarkdown(ContextOf(rules, root, ov), n, p, old(rules.store.references)), rules.store.references)
    decreases n, 2
  {
    var kept := IsKept(rules.options.keepTags, n.tag);
    if kept {
      var children := ProcessChildren(rules, root, n, p, ov);
      if children.Err? {
        return Err(children.error);
      }
      var html := HtmlSerialize.SerializeNode(n);
      return Ok(html);
    }
    r := ConvertElement(rules, root, n, p, ov);
  }

  /** The scan of `keepTags` in `replacementForNode`. */
  method IsKept(keepTags: seq<Str>, tag: Str) returns (b: bool)
    ensures b <==> tag in keepTags
  {
    for i := 0 to |keepTags|
      invariant tag !in keepTags[..i]
    {
      if keepTags[i] == tag {
        return true;
      }
      assert keepTags[..i + 1] == keepTags[..i] + [keepTags[i]];
    }
    assert keepTags[..|keepTags|] == keepTags;
    return false;
  }

  /** `replacementForNode` for an element whose tag is not kept. */
  method ConvertElement(rules: Rules, root: Node, n: Node, p: Path, ov: Collapsed)
    returns (r: Result<Str, StoiError>)
    requires ValidPath(root, p) && At(root, p) == n && n.Element? && n.tag !in rules.options.keepTags
    modifies rules.store
    ensures Agrees(r, ElementMarkdown(ContextOf(rules, root, ov), n, p, old(rules.store.references)), rules.store.references)
    decreases n, 1
  {
    var meta := NodeAnalysis.AnalyzeNode(root, p, ov, rules.options.preformattedCode);
    var children := ProcessChildren(rules, root, n, p, ov);
    if children.Err? {
      return Err(children.error);
    }
    var content := children.value;
    if meta.flankingWhitespace.leading != [] || meta.flankingWhitespace.trailing != [] {
      content := Utilities.TrimStr(content);
    }
    var rule := rules.ForNode(root, p, ov);
    var converted := rules.RunReplacement(rule, content, root, p, ov);
    if converted.Err? {
      return Err(converted.error);
    }
    r := Ok(meta.flankingWhitespace.leading + converted.value + meta.flankingWhitespace.trailing);
  }

  /** `processChildren`: each child's Markdown joined onto the output; an exception stops the walk. */
  method ProcessChildren(rules: Rules, root: Node, n: Node, p: Path, ov: Collapsed) returns (r: Result<Str, StoiError>)
    requires ValidPath(root, p) && At(root, p) == n
    modifies rules.store
    ensures Agrees(r, ChildrenMarkdown(ContextOf(rules, root, ov), n, p, 0, [], old(rules.store.references)),
                   rules.store.references)
    decreases n, 0
  {
    ghost var c := ContextOf(rules, root, ov);
    ghost var spec := ChildrenMarkdown(c, n, p, 0, [], rules.store.references);
    var output := [];
    var k := 0;
    while k < |Children(n)|
      invariant k <= |Children(n)|
      invariant c == ContextOf(rules, root, ov)
      invariant spec == ChildrenMarkdown(c, n, p, k, output, rules.store.references)
      decreases |Children(n)| - k
    {
      ChildPath(root, p, k);
      var addition := ProcessNode(rules, root, Children(n)[k], p + [k], ov);
      if addition.Err? {
        return Err(addition.error);
      }
      output := JoinChunks(output, addition.value);
      k := k + 1;
    }
    r := Ok(output);
  }

  // ----- Appends -----

  /**
   * `rules.forEach` over the main list, joining each rule's append onto the
   * Markdown: the reference-link append flushes the store.
   */
  function Appended(rules: seq<Rule>, o: TurndownOptions, md: Str, refs: seq<Str>): Out
  {
    if rules == [] then Out(md, refs)
    else
      match rules[0].append
      case NoAppend => Appended(rules[1..], o, md, refs)
      case ReferenceAppend =>
        Appended(rules[1..], o, Joined(md, CommonMarkRules.ReferenceAppendix(refs)), [])
      case CustomAppend(f) => Appended(rules[1..], o, Joined(md, f(o)), refs)
  }

  /** The append loop of `runPipeline`. */
  method RunAppends(rules: Rules, markdown: Str) returns (r: Str)
    modifies rules.store
    ensures Out(r, rules.store.references) == Appended(rules.rulesArray, rules.options, markdown, old(rules.store.references))
  {
    r := markdown;
    var all := rules.rulesArray;
    for i := 0 to |all|
      invariant Appended(all[i..], rules.options, r, rules.store.references)
        == Appended(all, rules.options, markdown, old(rules.store.references))
    {
      assert all[i..][1..] == all[i + 1..];
      match all[i].append
      case NoAppend =>
      case ReferenceAppend =>
        var appendix := rules.store.Flush();
        r := JoinChunks(r, appendix);
      case CustomAppend(f) =>
        r := JoinChunks(r, f(rules.options));
    }
    assert all[|all|..] == [];
  }

  /**
   * After the appends the store is empty exactly when a rule of the list has
   * the reference-link append (or it was empty already); otherwise it is as
   * it was.
   */
  lemma {:induction false} AppendedFlushes(rules: seq<Rule>, o: TurndownOptions, md: Str, refs: seq<Str>)
    ensures HasReferenceAppend(rules) ==> Appended(rules, o, md, refs).refs == []
    ensures !HasReferenceAppend(rules) ==> Appended(rules, o, md, refs).refs == refs
  {
    if rules != [] {
      var rest := Appended(rules, o, md, refs);
      ReferenceAppendTail(rules);
      match rules[0].append
      case NoAppend => AppendedFlushes(rules[1..], o, md, refs);
      case ReferenceAppend =>
        AppendedFlushes(rules[1..], o, Joined(md, CommonMarkRules.ReferenceAppendix(refs)), []);
      case CustomAppend(f) => AppendedFlushes(rules[1..], o, Joined(md, f(o)), refs);
    }
  }

  lemma ReferenceAppendTail(rules: seq<Rule>)
    requires rules != []
    ensures HasReferenceAppend(rules) <==> rules[0].append == ReferenceAppend || HasReferenceAppend(rules[1..])
  {
    if HasReferenceAppend(rules[1..]) {
      var i :| 0 <= i < |rules[1..]| && rules[1..][i].append == ReferenceAppend;
      assert rules[i + 1].append == ReferenceAppend;
    }
    if HasReferenceAppend(rules) && rules[0].append != ReferenceAppend {
      var i :| 0 <= i < |rules| && rules[i].append == ReferenceAppend;
      assert rules[1..][i - 1].append == ReferenceAppend;
    }
  }

  /** A list without appends leaves the Markdown and the store as they are. */
  lemma {:induction false} AppendedNothing(rules: seq<Rule>, o: TurndownOptions, md: Str, refs: seq<Str>)
    requires forall i :: 0 <= i < |rules| ==> rules[i].append == NoAppend
    ensures Appended(rules, o, md, refs) == Out(md, refs)
  {
    if rules != [] {
      AppendedNothing(rules[1..], o, md, refs);
    }
  }

  // ----- Final trim -----

  /** What the final trim strips from the end: space, tab, LF, CR. */
  predicate IsTrailingSpace(c: Byte) { c == ' ' || c == '\t' || c == '\n' || c == '\r' }

  /** The text with its trailing spaces, tabs and newlines removed. */
  function TrimmedTrailingSpace(s: Str): (r: Str)
    ensures r <= s
    ensures r == [] || !IsTrailingSpace(r[|r| - 1])
    ensures forall i :: |r| <= i < |s| ==> IsTrailingSpace(s[i])
    decreases |s|
  {
    if s != [] && IsTrailingSpace(s[|s| - 1]) then TrimmedTrailingSpace(s[..|s| - 1]) else s
  }

  /** The `trimTrailingWhitespace` lambda of `runPipeline`. */
  method DropTrailingSpace(text: Str) returns (r: Str)
    ensures r == TrimmedTrailingSpace(text)
  {
    var end := |text|;
    while end > 0 && IsTrailingSpace(text[end - 1])
      invariant 0 <= end <= |text|
      invariant TrimmedTrailingSpace(text[..end]) == TrimmedTrailingSpace(text)
    {
      assert text[..end][..end - 1] == text[..end - 1];
      end := end - 1;
    }
    assert text[..|text|] == text;
    r := text[..end];
  }

  /** The last steps of `runPipeline`: NBSP encoding, leading newlines dropped, trailing whitespace dropped. */
  function Finished(s: Str): Str
  {
    TrimmedTrailingSpace(TrimLeadingNewlines(NodeAnalysis.EncodedNbsp(s)))
  }

  /**
   * The finished Markdown neither starts with a newline nor ends in
   * whitespace, holds no NBSP byte pair, and keeps leading spaces: it is a
   * prefix of the encoded text with its leading newlines dropped.
   */
  lemma FinishedMeans(s: Str)
    ensures var r := Finished(s);
      (r == [] || (!IsNewline(r[0]) && !IsTrailingSpace(r[|r| - 1])))
      && NodeAnalysis.NoNbsp(r)
      && r <= TrimLeadingNewlines(NodeAnalysis.EncodedNbsp(s))
  {
    var e := NodeAnalysis.EncodedNbsp(s);
    NodeAnalysis.EncodedNbspClean(s);
    NoNbspSuffix(e, LeadingNewlines(e));
    PrefixKeepsEnds(TrimLeadingNewlines(e));
  }

  /** Dropping the trailing whitespace keeps the first byte and adds no NBSP pair. */
  lemma PrefixKeepsEnds(t: Str)
    requires t == [] || !IsNewline(t[0])
    requires NodeAnalysis.NoNbsp(t)
    ensures var r := TrimmedTrailingSpace(t);
      (r == [] || !IsNewline(r[0])) && NodeAnalysis.NoNbsp(r)
  {
    var r := TrimmedTrailingSpace(t);
    NoNbspSlice(t, 0, |r|);
    assert t[0..|r|] == r;
  }

  lemma NoNbspSuffix(t: Str, i: nat)
    requires i <= |t| && NodeAnalysis.NoNbsp(t)
    ensures NodeAnalysis.NoNbsp(t[i..])
  {
    NoNbspSlice(t, i, |t|);
    assert t[i..|t|] == t[i..];
  }

  /** A slice of text without NBSP pairs has none either. */
  lemma NoNbspSlice(t: Str, i: nat, j: nat)
    requires i <= j <= |t| && NodeAnalysis.NoNbsp(t)
    ensures NodeAnalysis.NoNbsp(t[i..j])
  {
    forall k | 0 <= k < j - i
      ensures !NodeAnalysis.NbspAt(t[i..j], k)
    {
      assert !NodeAnalysis.NbspAt(t, i + k);
    }
  }

  // ----- runPipeline -----

  /**
   * `runPipeline` on a tree: whitespace collapsed, the root's children
   * converted, NBSPs encoded, the appends joined on, then the final
   * encoding and trim. `refs` is what the store held before.
   */
  function Converted(o: TurndownOptions, rs: RuleSet, root: Node, refs: seq<Str>): Result<Out, StoiError>
  {
    var ov := CollapseWhitespace.Collapse(root, o.preformattedCode);
    var body :- ChildrenMarkdown(Ctx(o, rs, root, ov), root, [], 0, [], refs);
    var appended := Appended(rs.rulesArray, o, NodeAnalysis.EncodedNbsp(body.text), body.refs);
    Ok(Out(Finished(appended.text), appended.refs))
  }

  /**
   * A successful conversion is trimmed and NBSP-free as `FinishedMeans`
   * says, and with the reference-link rule in the list it leaves the store
   * empty.
   */
  lemma ConvertedMeans(o: TurndownOptions, rs: RuleSet, root: Node, refs: seq<Str>)
    requires Converted(o, rs, root, refs).Ok?
    ensures var r := Converted(o, rs, root, refs).value;
      (r.text == [] || (!IsNewline(r.text[0]) && !IsTrailingSpace(r.text[|r.text| - 1])))
      && NodeAnalysis.NoNbsp(r.text)
      && (HasReferenceAppend(rs.rulesArray) ==> r.refs == [])
  {
    var ov := CollapseWhitespace.Collapse(root, o.preformattedCode);
    var body := ChildrenMarkdown(Ctx(o, rs, root, ov), root, [], 0, [], refs).value;
    var appended := Appended(rs.rulesArray, o, NodeAnalysis.EncodedNbsp(body.text), body.refs);
    FinishedMeans(appended.text);
    AppendedFlushes(rs.rulesArray, o, NodeAnalysis.EncodedNbsp(body.text), body.refs);
  }

  // ----- The service's rule cache -----

  /** Where `registerRuleFactory` files a factory. */
  datatype RulePlacement = BeforeDefaults | AfterDefaults

  /** A rule factory: the calls it makes on the `Rules` object, in order. */
  type Factory = seq<Mutation>

  /** The factories run one after the other. */
  function ApplyFactories(rs: RuleSet, fs: seq<Factory>): RuleSet
  {
    if fs == [] then rs else AppliedAll(ApplyFactories(rs, fs[..|fs| - 1]), fs[|fs| - 1])
  }

  /**
   * What `ensureRules` builds from the rules `defineCommonMarkRules` leaves
   * (`base`): the factories before and after the defaults, then the mutations.
   */
  function BuiltRules(base: RuleSet, pre: seq<Factory>, post: seq<Factory>, muts: seq<Mutation>): RuleSet
  {
    AppliedAll(ApplyFactories(ApplyFactories(base, pre), post), muts)
  }

  /** The rules the factories add to one list, the latest factory's first. */
  function FactoriesAdded(fs: seq<Factory>, which: ListKind): seq<Rule>
  {
    if fs == [] then [] else Added(fs[|fs| - 1], which) + FactoriesAdded(fs[..|fs| - 1], which)
  }

  lemma {:induction false} FactoriesLists(rs: RuleSet, fs: seq<Factory>, which: ListKind)
    ensures ListOf(ApplyFactories(rs, fs), which) == FactoriesAdded(fs, which) + ListOf(rs, which)
    decreases |fs|
  {
    if fs != [] {
      var init := fs[..|fs| - 1];
      var last := fs[|fs| - 1];
      var before := ApplyFactories(rs, init);
      assert ApplyFactories(rs, fs) == AppliedAll(before, last);
      assert FactoriesAdded(fs, which) == Added(last, which) + FactoriesAdded(init, which);
      FactoriesLists(rs, init, which);
      AppliedAllLists(before, last, which);
      Regroup3(Added(last, which), FactoriesAdded(init, which), ListOf(rs, which));
    }
  }

  /**
   * Every rule list `ensureRules` builds holds the mutations' rules, then the
   * after-default factories', then the before-default factories', latest
   * first, and then the list as `defineCommonMarkRules` left it.
   */
  lemma BuiltRulesLists(base: RuleSet, pre: seq<Factory>, post: seq<Factory>, muts: seq<Mutation>, which: ListKind)
    ensures ListOf(BuiltRules(base, pre, post, muts), which)
      == Added(muts, which) + FactoriesAdded(post, which) + FactoriesAdded(pre, which) + ListOf(base, which)
  {
    var afterPre := ApplyFactories(base, pre);
    var afterPost := ApplyFactories(afterPre, post);
    FactoriesLists(base, pre, which);
    FactoriesLists(afterPre, post, which);
    AppliedAllLists(afterPost, muts, which);
    Regroup4(Added(muts, which), FactoriesAdded(post, which), FactoriesAdded(pre, which), ListOf(base, which));
  }

  /**
   * On the CommonMark rules, only the main list holds built-in rules, after
   * all the caller's: every caller rule is tried before every built-in one,
   * whichever placement its factory had.
   */
  lemma CallerRulesFirst(pre: seq<Factory>, post: seq<Factory>, muts: seq<Mutation>, which: ListKind)
    ensures ListOf(BuiltRules(CommonMarkRuleSet(), pre, post, muts), which)
      == Added(muts, which) + FactoriesAdded(post, which) + FactoriesAdded(pre, which)
         + (if which == MainList then CommonMarkRuleList() else [])
  {
    BuiltRulesLists(CommonMarkRuleSet(), pre, post, muts, which);
    CommonMarkLists(which);
  }

  /** Only the main list of the CommonMark rule set is non-empty. */
  lemma CommonMarkLists(which: ListKind)
    ensures ListOf(CommonMarkRuleSet(), which) == if which == MainList then CommonMarkRuleList() else []
  {
  }

  lemma Regroup3(a: seq<Rule>, b: seq<Rule>, c: seq<Rule>)
    ensures a + (b + c) == a + b + c
  {
  }

  lemma Regroup4(a: seq<Rule>, b: seq<Rule>, c: seq<Rule>, d: seq<Rule>)
    ensures a + (b + (c + d)) == a + b + c + d
  {
  }

  /** The reference-link rule survives every rebuild, so each conversion flushes the store. */
  lemma BuiltRulesFlush(base: RuleSet, pre: seq<Factory>, post: seq<Factory>, muts: seq<Mutation>)
    requires HasReferenceAppend(base.rulesArray)
    ensures HasReferenceAppend(BuiltRules(base, pre, post, muts).rulesArray)
  {
    BuiltRulesLists(base, pre, post, muts, MainList);
    var front := Added(muts, MainList) + FactoriesAdded(post, MainList) + FactoriesAdded(pre, MainList);
    var i :| 0 <= i < |base.rulesArray| && base.rulesArray[i].append == ReferenceAppend;
    assert (front + base.rulesArray)[|front| + i] == base.rulesArray[i];
  }

  /**
   * Applying a mutation to the cached rules gives what a rebuild with that
   * mutation queued gives: `enqueueRuleMutation` may apply it at once.
   */
  lemma LazyMutation(base: RuleSet, pre: seq<Factory>, post: seq<Factory>, muts: seq<Mutation>, m: Mutation)
    ensures Applied(BuiltRules(base, pre, post, muts), m) == BuiltRules(base, pre, post, muts + [m])
  {
    assert (muts + [m])[..|muts|] == muts;
  }

  /** `runPipeline` after the walk: NBSP encoding, the appends, then the final encoding and trim. */
  method FinishPipeline(rules: Rules, body: Str) returns (markdown: Str)
    modifies rules.store
    ensures var appended := Appended(rules.rulesArray, rules.options, NodeAnalysis.EncodedNbsp(body),
                                     old(rules.store.references));
      markdown == Finished(appended.text) && rules.store.references == appended.refs
  {
    markdown := EncodeNbspInPlace(body);
    markdown := RunAppends(rules, markdown);
    markdown := EncodeNbspInPlace(markdown);
    markdown := DropLeadingNewlines(markdown);
    markdown := DropTrailingSpace(markdown);
  }

  /**
   * `runPipeline` on a tree with the given rules: the result and the store
   * agree with `Converted`, and with the reference-link rule in the list a
   * successful run leaves the store empty.
   */
  method RunPipeline(rules: Rules, root: Node) returns (r: Result<Str, StoiError>)
    modifies rules.store
    ensures Agrees(r, Converted(rules.options, rules.Snapshot(), root, old(rules.store.references)),
                   rules.store.references)
    ensures r.Ok? && HasReferenceAppend(rules.rulesArray) ==> rules.store.references == []
  {
    ghost var refs := rules.store.references;
    var ov := CollapseWhitespace.CollapseWhitespace(root, rules.options.preformattedCode);
    var body := ProcessChildren(rules, root, root, [], ov);
    if body.Err? {
      return Err(body.error);
    }
    var markdown := FinishPipeline(rules, body.value);
    r := Ok(markdown);
    ConvertedMeans(rules.options, rules.Snapshot(), root, refs);
  }

  /** A fresh `Rules` object holding the CommonMark rules. */
  method NewCommonMarkRules(o: TurndownOptions) returns (r: Rules)
    ensures fresh(r) && fresh(r.store) && r.store.references == []
    ensures r.options == o && r.Snapshot() == CommonMarkRuleSet()
  {
    r := new Rules(o);
    DefineCommonMarkRules(r);
    assert CommonMarkRuleList() + [] == CommonMarkRuleList();
  }

  /** The factory loop of `ensureRules`: each factory's calls made on the rules in turn. */
  method RunFactories(r: Rules, fs: seq<Factory>)
    modifies r
    ensures r.Snapshot() == ApplyFactories(old(r.Snapshot()), fs)
  {
    ghost var start := r.Snapshot();
    assert fs[..0] == [];
    for i := 0 to |fs|
      invariant r.Snapshot() == ApplyFactories(start, fs[..i])
    {
      assert fs[..i + 1][..i] == fs[..i];
      r.ApplyAll(fs[i]);
    }
    assert fs[..|fs|] == fs;
  }

  /** The options after `configureOptions`: the callback's rewrite, or the same options without one. */
  function Reconfigured(fn: Option<TurndownOptions -> TurndownOptions>, o: TurndownOptions): TurndownOptions
  {
    if fn.Some? then fn.value(o) else o
  }

  /** `TurndownService`: options, queued factories and mutations, and the lazily built rules. */
  class TurndownService {
    var options: TurndownOptions
    var preRuleFactories: seq<Factory>
    var postRuleFactories: seq<Factory>
    var ruleMutations: seq<Mutation>
    var rules: Rules?
    /** The rule lists `defineCommonMarkRules` leaves on a new `Rules` object. */
    ghost const defaults: RuleSet

    /** A cached `Rules` object was built from the current options, factories and mutations. */
    ghost predicate Valid()
      reads this, rules
    {
      rules != null ==>
        rules.options == options
        && rules.Snapshot() == BuiltRules(defaults, preRuleFactories, postRuleFactories, ruleMutations)
    }

    /** The defaults are the CommonMark rules; it holds from construction on, whatever else changes. */
    ghost predicate DefaultsAreCommonMark()
    {
      defaults == CommonMarkRuleSet()
    }

    constructor (o: TurndownOptions)
      ensures Valid() && options == o && rules == null
      ensures DefaultsAreCommonMark()
      ensures preRuleFactories == [] && postRuleFactories == [] && ruleMutations == []
    {
      options := o;
      preRuleFactories := [];
      postRuleFactories := [];
      ruleMutations := [];
      rules := null;
      defaults := CommonMarkRuleSet();
    }

    /** The service with default options. */
    constructor WithDefaults()
      ensures Valid() && options == Defaults() && rules == null
      ensures DefaultsAreCommonMark()
      ensures preRuleFactories == [] && postRuleFactories == [] && ruleMutations == []
    {
      options := Defaults();
      preRuleFactories := [];
      postRuleFactories := [];
      ruleMutations := [];
      rules := null;
      defaults := CommonMarkRuleSet();
    }

    /** `invalidateRules`: the cache is dropped. */
    method InvalidateRules()
      modifies this
      ensures rules == null && options == old(options)
      ensures preRuleFactories == old(preRuleFactories) && postRuleFactories == old(postRuleFactories)
      ensures ruleMutations == old(ruleMutations)
      ensures Valid()
    {
      rules := null;
    }

    /** `configureOptions`: a callback rewrites the options and the cache is dropped; no callback, no change. */
    method ConfigureOptions(fn: Option<TurndownOptions -> TurndownOptions>)
      requires Valid()
      modifies this
      ensures Valid()
      ensures options == Reconfigured(fn, old(options))
      ensures rules == (if fn.Some? then null else old(rules))
      ensures preRuleFactories == old(preRuleFactories) && postRuleFactories == old(postRuleFactories)
      ensures ruleMutations == old(ruleMutations)
    {
      if fn.Some? {
        options := Reconfigured(fn, options);
        InvalidateRules();
      }
    }

    /** `registerRuleFactory`: the factory joins the list its placement names and the cache is dropped. */
    method RegisterRuleFactory(factory: Option<Factory>, placement: RulePlacement)
      requires Valid()
      modifies this
      ensures Valid() && options == old(options) && ruleMutations == old(ruleMutations)
      ensures factory.None? ==>
        rules == old(rules)
        && preRuleFactories == old(preRuleFactories) && postRuleFactories == old(postRuleFactories)
      ensures factory.Some? ==> rules == null
      ensures factory.Some? && placement == BeforeDefaults ==>
        preRuleFactories == old(preRuleFactories) + [factory.value] && postRuleFactories == old(postRuleFactories)
      ensures factory.Some? && placement == AfterDefaults ==>
        postRuleFactories == old(postRuleFactories) + [factory.value] && preRuleFactories == old(preRuleFactories)
    {
      if factory.None? {
        return;
      }
      if placement == BeforeDefaults {
        preRuleFactories := preRuleFactories + [factory.value];
      } else {
        postRuleFactories := postRuleFactories + [factory.value];
      }
      InvalidateRules();
    }

    /** `enqueueRuleMutation`: the mutation is queued for rebuilds and applied to the cache if there is one. */
    method EnqueueRuleMutation(m: Option<Mutation>)
      requires Valid()
      modifies this, rules
      ensures Valid() && options == old(options) && rules == old(rules)
      ensures preRuleFactories == old(preRuleFactories) && postRuleFactories == old(postRuleFactories)
      ensures ruleMutations == old(ruleMutations) + (if m.Some? then [m.value] else [])
    {
      if m.None? {
        return;
      }
      if rules != null {
        LazyMutation(defaults, preRuleFactories, postRuleFactories, ruleMutations, m.value);
        rules.Apply(m.value);
      }
      ruleMutations := ruleMutations + [m.value];
    }

    /** `addRule`. */
    method AddRule(key: Str, rule: Rule)
      requires Valid()
      modifies this, rules
      ensures Valid() && options == old(options) && rules == old(rules)
      ensures preRuleFactories == old(preRuleFactories) && postRuleFactories == old(postRuleFactories)
      ensures ruleMutations == old(ruleMutations) + [AddRuleMutation(key, rule)]
    {
      EnqueueRuleMutation(Some(AddRuleMutation(key, rule)));
    }

    /** `keep(tag)`. */
    method Keep(tag: Str)
      requires Valid()
      modifies this, rules
      ensures Valid() && options == old(options) && rules == old(rules)
      ensures preRuleFactories == old(preRuleFactories) && postRuleFactories == old(postRuleFactories)
      ensures ruleMutations == old(ruleMutations) + [KeepTag(tag)]
    {
      EnqueueRuleMutation(Some(KeepTag(tag)));
    }

    /** `keep(tags)`. */
    method KeepAll(tags: seq<Str>)
      requires Valid()
      modifies this, rules
      ensures Valid() && options == old(options) && rules == old(rules)
      ensures preRuleFactories == old(preRuleFactories) && postRuleFactories == old(postRuleFactories)
      ensures ruleMutations == old(ruleMutations) + [KeepTags(tags)]
    {
      EnqueueRuleMutation(Some(KeepTags(tags)));
    }

    /** `keep(filter)`. */
    method KeepWhere(pred: (TurndownOptions, Node, Path) -> bool)
      requires Valid()
      modifies this, rules
      ensures Valid() && options == old(options) && rules == old(rules)
      ensures preRuleFactories == old(preRuleFactories) && postRuleFactories == old(postRuleFactories)
      ensures ruleMutations == old(ruleMutations) + [KeepCustom(pred)]
    {
      EnqueueRuleMutation(Some(KeepCustom(pred)));
    }

    /** `remove(tag)`. */
    method Remove(tag: Str)
      requires Valid()
      modifies this, rules
      ensures Valid() && options == old(options) && rules == old(rules)
      ensures preRuleFactories == old(preRuleFactories) && postRuleFactories == old(postRuleFactories)
      ensures ruleMutations == old(ruleMutations) + [RemoveTag(tag)]
    {
      EnqueueRuleMutation(Some(RemoveTag(tag)));
    }

    /** `remove(tags)`. */
    method RemoveAll(tags: seq<Str>)
      requires Valid()
      modifies this, rules
      ensures Valid() && options == old(options) && rules == old(rules)
      ensures preRuleFactories == old(preRuleFactories) && postRuleFactories == old(postRuleFactories)
      ensures ruleMutations == old(ruleMutations) + [RemoveTags(tags)]
    {
      EnqueueRuleMutation(Some(RemoveTags(tags)));
    }

    /** `remove(filter)`. */
    method RemoveWhere(pred: (TurndownOptions, Node, Path) -> bool)
      requires Valid()
      modifies this, rules
      ensures Valid() && options == old(options) && rules == old(rules)
      ensures preRuleFactories == old(preRuleFactories) && postRuleFactories == old(postRuleFactories)
      ensures ruleMutations == old(ruleMutations) + [RemoveCustom(pred)]
    {
      EnqueueRuleMutation(Some(RemoveCustom(pred)));
    }

    /**
     * `ensureRules`: the cached rules, or new ones built from the CommonMark
     * rules, the before- and after-default factories and the queued mutations.
     */
    method EnsureRules() returns (r: Rules)
      requires Valid() && DefaultsAreCommonMark()
      modifies this
      ensures Valid() && rules == r && options == old(options)
      ensures preRuleFactories == old(preRuleFactories) && postRuleFactories == old(postRuleFactories)
      ensures ruleMutations == old(ruleMutations)
      ensures r.Snapshot() == BuiltRules(CommonMarkRuleSet(), preRuleFactories, postRuleFactories, ruleMutations)
      ensures HasReferenceAppend(r.rulesArray)
      ensures old(rules) != null ==> r == old(rules)
      ensures old(rules) == null ==> fresh(r) && fresh(r.store) && r.store.references == []
    {
      CommonMarkFlushes();
      BuiltRulesFlush(defaults, preRuleFactories, postRuleFactories, ruleMutations);
      if rules != null {
        return rules;
      }
      r := NewCommonMarkRules(options);
      RunFactories(r, preRuleFactories);
      RunFactories(r, postRuleFactories);
      r.ApplyAll(ruleMutations);
      rules := r;
    }

    /**
     * `turndown` on a tree (`runPipeline`): no tree gives empty Markdown;
     * otherwise the result and the store agree with `Converted` on the
     * rules `ensureRules` returns, starting from what the store held, and a
     * successful conversion leaves the store empty.
     */
    method Turndown(root: Option<Node>) returns (r: Result<Str, StoiError>)
      requires Valid() && DefaultsAreCommonMark()
      modifies this, if rules != null then {rules.store} else {}
      ensures Valid() && options == old(options)
      ensures preRuleFactories == old(preRuleFactories) && postRuleFactories == old(postRuleFactories)
      ensures ruleMutations == old(ruleMutations)
      ensures root.None? ==> r == Ok([]) && rules == old(rules)
      ensures root.Some? ==>
        rules != null
        && rules.Snapshot() == BuiltRules(CommonMarkRuleSet(), preRuleFactories, postRuleFactories, ruleMutations)
        && Agrees(r, Converted(options, rules.Snapshot(), root.value,
                               if old(rules) == null then [] else old(rules.store.references)),
                  rules.store.references)
      ensures root.Some? && r.Ok? ==> rules.store.references == []
    {
      if root.None? {
        return Ok([]);
      }
      var rs := EnsureRules();
      r := RunPipeline(rs, root.value);
    }

    /** `escape`: the configured escaper applied to the text. */
    method Escape(text: Str) returns (r: Str)
      ensures r == Options.Escape(options, text)
      ensures MarkdownEscape.Unescape(r) == text
    {
      r := Options.Escape(options, text);
    }
  }
}

/**
 * The built-in CommonMark rules of `commonmark_rules.cpp`: for each rule a
 * filter (which nodes it handles) and a replacement (the Markdown it
 * builds from the node and its already converted content), the element
 * sibling helpers they use, and the reference-link store that the
 * reference-link rule fills and its append step empties.
 */
module CommonMarkRules {

  import opened Strings
  import opened Wrappers
  import opened Dom
  import opened Utilities
  import opened Options
  import MarkdownEscape
  import Utf8Helpers

  // ----- Element siblings -----

  /** The parent of the node at a non-root path; the node is its child number `p[|p| - 1]`. */
  function ParentOf(root: Node, p: Path): (parent: Node)
    requires ValidPath(root, p) && p != []
    ensures p[|p| - 1] < |Children(parent)| && Children(parent)[p[|p| - 1]] == At(root, p)
  {
    var up := p[..|p| - 1];
    PrefixValid(root, p, |p| - 1);
    ChildPath(root, up, p[|p| - 1]);
    assert up + [p[|p| - 1]] == p;
    At(root, up)
  }

  /** Index of the first element in `kids[j..]`. */
  function FirstElementFrom(kids: seq<Node>, j: nat): (r: Option<nat>)
    requires j <= |kids|
    ensures r.Some? ==> j <= r.value < |kids| && kids[r.value].Element?
    ensures r.Some? ==> forall k :: j <= k < r.value ==> !kids[k].Element?
    ensures r.None? ==> forall k :: j <= k < |kids| ==> !kids[k].Element?
    decreases |kids| - j
  {
    if j == |kids| then None
    else if kids[j].Element? then Some(j)
    else FirstElementFrom(kids, j + 1)
  }

  /** `getNextSiblingView`: the first element among the later siblings, by child index. */
  function NextElementSibling(root: Node, p: Path): Option<nat>
    requires ValidPath(root, p)
  {
    if p == [] then None else FirstElementFrom(Children(ParentOf(root, p)), p[|p| - 1] + 1)
  }

  /** The sibling loop of `getNextSiblingView`. */
  method FindNextElementSibling(root: Node, p: Path) returns (r: Option<nat>)
    requires ValidPath(root, p)
    ensures r == NextElementSibling(root, p)
  {
    if p == [] {
      return None;
    }
    var kids := Children(ParentOf(root, p));
    var j := p[|p| - 1] + 1;
    while j < |kids|
      invariant p[|p| - 1] + 1 <= j <= |kids|
      invariant FirstElementFrom(kids, p[|p| - 1] + 1) == FirstElementFrom(kids, j)
    {
      if kids[j].Element? {
        return Some(j);
      }
      j := j + 1;
    }
    return None;
  }

  /** `hasSiblingsView`: the parent is an element with an element child other than the node. */
  predicate HasElementSibling(root: Node, p: Path)
    requires ValidPath(root, p)
  {
    p != [] && ParentOf(root, p).Element?
    && (exists k :: 0 <= k < |Children(ParentOf(root, p))| && k != p[|p| - 1]
         && Children(ParentOf(root, p))[k].Element?)
  }

  /** The child loop of `hasSiblingsView`. */
  method HasSiblings(root: Node, p: Path) returns (r: bool)
    requires ValidPath(root, p)
    ensures r == HasElementSibling(root, p)
  {
    if p == [] || !ParentOf(root, p).Element? {
      return false;
    }
    var kids := Children(ParentOf(root, p));
    var self := p[|p| - 1];
    for k := 0 to |kids|
      invariant forall j :: 0 <= j < k && j != self ==> !kids[j].Element?
    {
      if k == self {
        continue;
      }
      if kids[k].Element? {
        return true;
      }
    }
    return false;
  }

  /** Number of elements in `kids[..k]`. */
  function ElementCount(kids: seq<Node>, k: nat): nat
    requires k <= |kids|
  {
    if k == 0 then 0 else ElementCount(kids, k - 1) + (if kids[k - 1].Element? then 1 else 0)
  }

  /**
   * `getNodeIndexView`: the node's position among its parent's element
   * children, or -1 when the parent is not an element or the node is not
   * one (the loop skips non-elements before comparing).
   */
  function ElementIndex(root: Node, p: Path): int
    requires ValidPath(root, p)
  {
    if p != [] && ParentOf(root, p).Element? && At(root, p).Element?
    then ElementCount(Children(ParentOf(root, p)), p[|p| - 1])
    else -1
  }

  /** The counting loop of `getNodeIndexView`. */
  method NodeIndex(root: Node, p: Path) returns (index: int)
    requires ValidPath(root, p)
    ensures index == ElementIndex(root, p)
  {
    if p == [] || !ParentOf(root, p).Element? {
      return -1;
    }
    var kids := Children(ParentOf(root, p));
    var self := p[|p| - 1];
    var elementIndex := -1;
    for k := 0 to |kids|
      invariant elementIndex == ElementCount(kids, k) - 1
      invariant k > self ==> !kids[self].Element?
    {
      if !kids[k].Element? {
        continue;
      }
      elementIndex := elementIndex + 1;
      if k == self {
        return elementIndex;
      }
    }
    return -1;
  }

  /** Index of the last element in `kids[..k]`. */
  function LastElement(kids: seq<Node>, k: nat): (r: Option<nat>)
    requires k <= |kids|
    ensures r.Some? ==> r.value < k && kids[r.value].Element?
    ensures r.Some? ==> forall j :: r.value < j < k ==> !kids[j].Element?
    ensures r.None? ==> forall j :: 0 <= j < k ==> !kids[j].Element?
  {
    if k == 0 then None
    else if kids[k - 1].Element? then Some(k - 1)
    else LastElement(kids, k - 1)
  }

  /** `isLastElementChildView(parent, node)` for the node's own parent. */
  predicate IsLastElementChild(root: Node, p: Path)
    requires ValidPath(root, p)
  {
    p != [] && ParentOf(root, p).Element?
    && LastElement(Children(ParentOf(root, p)), |Children(ParentOf(root, p))|) == Some(p[|p| - 1])
  }

  /** The loop of `isLastElementChildView`, remembering the last element seen. */
  method LastElementChild(root: Node, p: Path) returns (r: bool)
    requires ValidPath(root, p)
    ensures r == IsLastElementChild(root, p)
  {
    if p == [] || !ParentOf(root, p).Element? {
      return false;
    }
    var kids := Children(ParentOf(root, p));
    var lastElement: Option<nat> := None;
    for k := 0 to |kids|
      invariant lastElement == LastElement(kids, k)
    {
      if kids[k].Element? {
        lastElement := Some(k);
      }
    }
    return lastElement == Some(p[|p| - 1]);
  }

  /**
   * For an element under an element: it is the last element child exactly
   * when no element sibling follows it, and its element index counts the
   * element children before it, so it lies below the number of element
   * children.
   */
  lemma SiblingHelpersAgree(root: Node, p: Path)
    requires ValidPath(root, p) && p != []
    requires ParentOf(root, p).Element? && At(root, p).Element?
    ensures IsLastElementChild(root, p) <==> NextElementSibling(root, p).None?
    ensures 0 <= ElementIndex(root, p) < ElementCount(Children(ParentOf(root, p)), |Children(ParentOf(root, p))|)
  {
    var kids := Children(ParentOf(root, p));
    var self := p[|p| - 1];
    var last := LastElement(kids, |kids|);
    var next := FirstElementFrom(kids, self + 1);
    if next.Some? {
      assert last.Some? && last.value >= next.value;
    }
    if next.None? {
      assert last.Some? && last.value >= self;
    }
    ElementCountGrows(kids, self + 1, |kids|);
  }

  lemma {:induction false} ElementCountGrows(kids: seq<Node>, j: nat, k: nat)
    requires j <= k <= |kids|
    ensures ElementCount(kids, j) <= ElementCount(kids, k)
    decreases k - j
  {
    if j < k {
      ElementCountGrows(kids, j, k - 1);
    }
  }

  /** Index of the first node in `kids[j..]` with tag `tag`. */
  function FirstWithTag(kids: seq<Node>, tag: Str, j: nat): (r: Option<nat>)
    requires j <= |kids|
    ensures r.Some? ==> j <= r.value < |kids| && HasTag(kids[r.value], tag)
    decreases |kids| - j
  {
    if j == |kids| then None
    else if HasTag(kids[j], tag) then Some(j)
    else FirstWithTag(kids, tag, j + 1)
  }

  /** `find_child(tag)`: the first child with the tag, by child index. */
  function FindChild(n: Node, tag: Str): Option<nat>
  {
    FirstWithTag(Children(n), tag, 0)
  }

  // ----- Attribute cleaning -----

  /**
   * `cleanAttribute`: every run of newlines together with the white space
   * after it (what `(\n+\s*)+` matches) becomes one newline.
   */
  function CleanAttribute(s: Str): Str
    decreases |s|
  {
    if s == [] then []
    else if s[0] == '\n' then "\n" + CleanAttribute(s[SkipCSpace(s, 1)..])
    else [s[0]] + CleanAttribute(s[1..])
  }

  /** No newline is followed by white space. */
  predicate Settled(s: Str)
  {
    forall i :: 0 <= i < |s| - 1 && s[i] == '\n' ==> !IsCSpace(s[i + 1])
  }

  /** The bytes that are not white space, in order. */
  function Ink(s: Str): Str
    decreases |s|
  {
    if s == [] then [] else (if IsCSpace(s[0]) then [] else [s[0]]) + Ink(s[1..])
  }

  lemma CleanAttributeFirst(s: Str)
    requires s != [] && !IsCSpace(s[0])
    ensures CleanAttribute(s) != [] && CleanAttribute(s)[0] == s[0]
  {
  }

  lemma {:induction false} InkOfSpaces(s: Str, k: nat)
    requires k <= |s|
    requires forall j :: 0 <= j < k ==> IsCSpace(s[j])
    ensures Ink(s) == Ink(s[k..])
    decreases k
  {
    if k > 0 {
      InkOfSpaces(s[1..], k - 1);
      assert s[1..][k - 1..] == s[k..];
    }
  }

  /**
   * A cleaned attribute has no newline followed by white space, keeps every
   * byte that is not white space in order, and cleaning it again changes
   * nothing.
   */
  lemma {:induction false} CleanAttributeMeans(s: Str)
    ensures Settled(CleanAttribute(s))
    ensures Ink(CleanAttribute(s)) == Ink(s)
    ensures CleanAttribute(CleanAttribute(s)) == CleanAttribute(s)
    decreases |s|
  {
    if s != [] {
      if s[0] == '\n' {
        var k := SkipCSpace(s, 1);
        var rest := s[k..];
        CleanAttributeMeans(rest);
        var r := CleanAttribute(rest);
        if rest != [] {
          CleanAttributeFirst(rest);
        }
        assert ("\n" + r)[1..] == r;
        InkOfSpaces(s, k);
        assert SkipCSpace("\n" + r, 1) == 1;
        assert ("\n" + r)[1..] == r;
      } else {
        var r := CleanAttribute(s[1..]);
        CleanAttributeMeans(s[1..]);
        assert ([s[0]] + r)[1..] == r;
        if s[0] != '\n' && r != [] && |s| >= 2 && s[1] == '\n' {
          assert r[0] == '\n';
        }
      }
    }
  }

  // ----- Newline trimming -----

  /** One final `\n` dropped, as the code-block rules do before writing the code. */
  function DropFinalNewline(s: Str): (r: Str)
    ensures s != [] && s[|s| - 1] == '\n' ==> s == r + "\n"
    ensures !(s != [] && s[|s| - 1] == '\n') ==> r == s
  {
    if s != [] && s[|s| - 1] == '\n' then s[..|s| - 1] else s
  }

  /** Every newline replaced by a newline and four spaces (`regex_replace(s, "\n", "\n    ")`). */
  function Indent(s: Str): Str
  {
    MarkdownEscape.Replace(s, '\n', "\n    ")
  }

  /** Every newline is followed by four spaces. */
  predicate Indented(s: Str)
  {
    forall i :: 0 <= i < |s| && s[i] == '\n' ==> i + 4 < |s| && s[i + 1..i + 5] == "    "
  }

  /** Reads an indented text back: the four spaces after each newline are dropped. */
  function Unindent(s: Str): Str
    decreases |s|
  {
    if s == [] then []
    else if s[0] == '\n' && |s| >= 5 then "\n" + Unindent(s[5..])
    else [s[0]] + Unindent(s[1..])
  }

  lemma IndentCons(c: Byte, rest: Str)
    ensures Indent([c] + rest) == (if c == '\n' then "\n    " else [c]) + Indent(rest)
  {
    MarkdownEscape.ReplaceAppend([c], rest, '\n', "\n    ");
    assert [c][..0] == [];
  }

  /** Indenting leaves every newline followed by four spaces, and unindenting gives the text back. */
  lemma {:induction false} IndentMeans(s: Str)
    ensures Indented(Indent(s))
    ensures Unindent(Indent(s)) == s
    decreases |s|
  {
    if s != [] {
      IndentMeans(s[1..]);
      IndentCons(s[0], s[1..]);
      assert [s[0]] + s[1..] == s;
      if s[0] == '\n' {
        IndentedBreak(Indent(s[1..]));
      } else {
        IndentedPlain(s[0], Indent(s[1..]));
      }
    }
  }

  /** An indented newline in front of an indented text. */
  lemma IndentedBreak(r: Str)
    requires Indented(r)
    ensures Indented("\n    " + r)
    ensures Unindent("\n    " + r) == "\n" + Unindent(r)
  {
    var t := "\n    " + r;
    assert t[5..] == r;
    forall i | 0 <= i < |t| && t[i] == '\n'
      ensures i + 4 < |t| && t[i + 1..i + 5] == "    "
    {
      if i >= 5 {
        assert r[i - 5] == '\n';
        assert t[i + 1..i + 5] == r[i - 4..i];
      }
    }
  }

  /** Any other byte in front of an indented text. */
  lemma IndentedPlain(c: Byte, r: Str)
    requires c != '\n' && Indented(r)
    ensures Indented([c] + r)
    ensures Unindent([c] + r) == [c] + Unindent(r)
  {
    var t := [c] + r;
    assert t[1..] == r;
    forall i | 0 <= i < |t| && t[i] == '\n'
      ensures i + 4 < |t| && t[i + 1..i + 5] == "    "
    {
      assert i >= 1 && r[i - 1] == '\n';
      assert t[i + 1..i + 5] == r[i..i + 4];
    }
  }

  /** An indented text never ends with a newline. */
  lemma IndentedEnd(s: Str)
    requires Indented(s) && s != []
    ensures s[|s| - 1] != '\n'
  {
  }

  // ----- Filters -----

  /** The built-in rules; `Heading(i)` is the rule for `<hi>`. */
  datatype RuleKind =
    | Paragraph | LineBreak | Heading(level: nat) | Blockquote | List | ListItem
    | IndentedCodeBlock | FencedCodeBlock | HorizontalRule | InlineLink | ReferenceLink
    | Emphasis | Strong | Code | Image

  /** The rules in the order `defineCommonMarkRules` adds them. */
  function CommonMarkKinds(): seq<RuleKind>
  {
    [Paragraph, LineBreak, Heading(1), Heading(2), Heading(3), Heading(4), Heading(5), Heading(6),
      Blockquote, List, ListItem, IndentedCodeBlock, FencedCodeBlock, HorizontalRule,
      InlineLink, ReferenceLink, Emphasis, Strong, Code, Image]
  }

  /** `"h" + std::to_string(i)`. */
  function HeadingTag(level: nat): Str
  {
    "h" + NatToString(level)
  }

  /** The key each rule is added under. */
  function RuleKey(kind: RuleKind): Str
  {
    match kind
    case Paragraph => "paragraph"
    case LineBreak => "lineBreak"
    case Heading(level) => HeadingTag(level)
    case Blockquote => "blockquote"
    case List => "list"
    case ListItem => "listItem"
    case IndentedCodeBlock => "indentedCodeBlock"
    case FencedCodeBlock => "fencedCodeBlock"
    case HorizontalRule => "horizontalRule"
    case InlineLink => "inlineLink"
    case ReferenceLink => "referenceLink"
    case Emphasis => "emphasis"
    case Strong => "strong"
    case Code => "code"
    case Image => "image"
  }

  /** A `<code>` whose parent is a `<pre>` with no other element child: a code block, not inline code. */
  predicate IsCodeBlock(root: Node, p: Path)
    requires ValidPath(root, p)
  {
    p != [] && HasTag(ParentOf(root, p), "pre") && !HasElementSibling(root, p)
  }

  /** The filter of each built-in rule, reading the options the rules were built with. */
  predicate Matches(kind: RuleKind, o: TurndownOptions, root: Node, p: Path)
  {
    ValidPath(root, p) &&
    var n := At(root, p);
    match kind
    case Paragraph => HasTag(n, "p")
    case LineBreak => HasTag(n, "br")
    case Heading(level) => HasTag(n, HeadingTag(level))
    case Blockquote => HasTag(n, "blockquote")
    case List => HasTag(n, "ul") || HasTag(n, "ol")
    case ListItem => HasTag(n, "li")
    case IndentedCodeBlock => o.codeBlockStyle == "indented" && HasTag(n, "pre") && FindChild(n, "code").Some?
    case FencedCodeBlock => o.codeBlockStyle == "fenced" && HasTag(n, "pre") && FindChild(n, "code").Some?
    case HorizontalRule => HasTag(n, "hr")
    case InlineLink => o.linkStyle == "inlined" && HasTag(n, "a") && Attribute(n, "href") != []
    case ReferenceLink => o.linkStyle == "referenced" && HasTag(n, "a") && Attribute(n, "href") != []
    case Emphasis => HasTag(n, "em") || HasTag(n, "i")
    case Strong => HasTag(n, "strong") || HasTag(n, "b")
    case Code => HasTag(n, "code") && !IsCodeBlock(root, p)
    case Image => HasTag(n, "img")
  }

  // ----- Headings -----

  function HeadingReplacement(o: TurndownOptions, level: nat, content: Str): Str
  {
    if o.headingStyle == "setext" && level <= 2 then
      "\n\n" + content + "\n" + Repeat(if level == 1 then '=' else '-', |content|) + "\n\n"
    else
      "\n\n" + Repeat('#', level) + " " + content + "\n\n"
  }

  /**
   * A setext heading of level 1 or 2 is the content on its own line over an
   * underline of `=` or `-` exactly as long as the content in bytes; any
   * other heading is `level` hashes, a space and the content. Both stand
   * between blank lines.
   */
  lemma HeadingMeans(o: TurndownOptions, level: nat, content: Str)
    ensures var r := HeadingReplacement(o, level, content);
      var n := |content|;
      r[..2] == "\n\n" && r[|r| - 2..] == "\n\n"
      && if o.headingStyle == "setext" && level <= 2 then
        |r| == 2 * n + 5 && r[2..2 + n] == content && r[2 + n] == '\n'
        && forall i :: 3 + n <= i < 3 + 2 * n ==> r[i] == (if level == 1 then '=' else '-')
      else
        |r| == level + n + 5 && r[2 + level] == ' ' && r[3 + level..3 + level + n] == content
        && forall i :: 2 <= i < 2 + level ==> r[i] == '#'
  {
  }

  // ----- Blockquotes -----

  /** The first newline at or after `i`, or `|s|`. */
  function LineEnd(s: Str, i: nat): (k: nat)
    requires i <= |s|
    ensures i <= k <= |s| && (k < |s| ==> s[k] == '\n')
    decreases |s| - i
  {
    if i == |s| || s[i] == '\n' then i else LineEnd(s, i + 1)
  }

  /** No newline comes before `LineEnd`: the line itself holds none. */
  lemma {:induction false} LineClear(s: Str, i: nat)
    requires i <= |s|
    ensures forall j :: 0 <= j < |s[i..LineEnd(s, i)]| ==> s[i..LineEnd(s, i)][j] != '\n'
    decreases |s| - i
  {
    if i < |s| && s[i] != '\n' {
      LineClear(s, i + 1);
      assert s[i..LineEnd(s, i)] == [s[i]] + s[i + 1..LineEnd(s, i + 1)];
    }
  }

  /** What every newline inside a blockquote becomes. */
  const QuoteBreak: Str := "\n> "

  /** One line of a blockquote. */
  function QuoteLine(line: Str): Str
  {
    "> " + line + "\n"
  }

  /**
   * `QuoteLine` of each line `std::getline` reads from `s[i..]`; a final
   * newline starts no further line.
   */
  function QuotedFrom(s: Str, i: nat): Str
    requires i <= |s|
    decreases |s| - i
  {
    if i == |s| then []
    else QuoteLine(s[i..LineEnd(s, i)]) + QuotedFrom(s, NextLine(s, i))
  }

  /** Where `std::getline` continues after the line at `i`: past its newline, or at the end. */
  function NextLine(s: Str, i: nat): (j: nat)
    requires i < |s|
    ensures i < j <= |s|
  {
    if LineEnd(s, i) < |s| then LineEnd(s, i) + 1 else |s|
  }

  function BlockquoteReplacement(content: Str): Str
  {
    "\n\n" + QuotedFrom(TrimNewlines(content), 0) + "\n\n"
  }

  lemma QuotedFromNext(s: Str, i: nat)
    requires i < |s| && LineEnd(s, i) < |s|
    ensures QuotedFrom(s, i) == QuoteLine(s[i..LineEnd(s, i)]) + QuotedFrom(s, LineEnd(s, i) + 1)
  {
    assert NextLine(s, i) == LineEnd(s, i) + 1;
  }

  lemma QuotedFromLast(s: Str, i: nat)
    requires i < |s| && LineEnd(s, i) == |s|
    ensures QuotedFrom(s, i) == QuoteLine(s[i..])
  {
    assert NextLine(s, i) == |s|;
    assert QuotedFrom(s, |s|) == [];
    assert s[i..LineEnd(s, i)] == s[i..];
    assert QuoteLine(s[i..]) + [] == QuoteLine(s[i..]);
  }

  /** The scan `std::getline` makes for the end of a line. */
  method FindLineEnd(s: Str, pos: nat) returns (end: nat)
    requires pos <= |s|
    ensures end == LineEnd(s, pos)
  {
    end := pos;
    while end < |s| && s[end] != '\n'
      invariant pos <= end <= |s|
      invariant LineEnd(s, end) == LineEnd(s, pos)
    {
      end := end + 1;
    }
  }

  lemma QuoteLoopStep(s: Str, pos: nat, block: Str, end: nat, line: Str)
    requires pos < |s| && end == LineEnd(s, pos) < |s| && line == s[pos..end]
    ensures block + QuotedFrom(s, pos) == (block + QuoteLine(line)) + QuotedFrom(s, end + 1)
  {
    QuotedFromNext(s, pos);
  }

  lemma QuoteLoopLast(s: Str, pos: nat, block: Str, end: nat, line: Str)
    requires pos < |s| && end == LineEnd(s, pos) == |s| && line == s[pos..end]
    ensures block + QuotedFrom(s, pos) == (block + QuoteLine(line)) + QuotedFrom(s, end)
  {
    QuotedFromLast(s, pos);
  }

  /** The `getline` loop of the blockquote rule. */
  method QuoteLines(trimmed: Str) returns (block: Str)
    ensures block == QuotedFrom(trimmed, 0)
  {
    block := [];
    var pos := 0;
    while pos < |trimmed|
      invariant pos <= |trimmed|
      invariant block + QuotedFrom(trimmed, pos) == QuotedFrom(trimmed, 0)
      decreases |trimmed| - pos
    {
      block, pos := QuoteNextLine(trimmed, pos, block);
    }
  }

  /** One turn of the `getline` loop: quote the line at `pos` and step past its newline. */
  method QuoteNextLine(s: Str, pos: nat, block: Str) returns (block': Str, pos': nat)
    requires pos < |s|
    ensures pos < pos' <= |s|
    ensures block' + QuotedFrom(s, pos') == block + QuotedFrom(s, pos)
  {
    var end := FindLineEnd(s, pos);
    var line := s[pos..end];
    if end == |s| {
      QuoteLoopLast(s, pos, block, end, line);
      block', pos' := block + QuoteLine(line), end;
    } else {
      QuoteLoopStep(s, pos, block, end, line);
      block', pos' := block + QuoteLine(line), end + 1;
    }
  }

  /** Replacing in a text whose first line ends with a newline. */
  lemma ReplaceLine(s: Str, i: nat)
    requires i < |s| && LineEnd(s, i) < |s|
    ensures MarkdownEscape.Replace(s[i..], '\n', QuoteBreak)
      == s[i..LineEnd(s, i)] + QuoteBreak + MarkdownEscape.Replace(s[LineEnd(s, i) + 1..], '\n', QuoteBreak)
  {
    LineClear(s, i);
    SplitAt(s, i, LineEnd(s, i));
    ReplaceAround(s[i..], s[i..LineEnd(s, i)], s[LineEnd(s, i)], s[LineEnd(s, i) + 1..]);
  }

  /** The bytes from `i` on are those before `k`, the byte at `k`, and those after it. */
  lemma SplitAt(s: Str, i: nat, k: nat)
    requires i <= k < |s|
    ensures s[i..] == s[i..k] + ([s[k]] + s[k + 1..])
  {
  }

  /** A newline after a line without one becomes `QuoteBreak`; the rest is replaced on its own. */
  lemma ReplaceAround(t: Str, line: Str, c: Byte, rest: Str)
    requires c == '\n' && t == line + ([c] + rest)
    requires forall j :: 0 <= j < |line| ==> line[j] != '\n'
    ensures MarkdownEscape.Replace(t, '\n', QuoteBreak)
      == line + QuoteBreak + MarkdownEscape.Replace(rest, '\n', QuoteBreak)
  {
    MarkdownEscape.ReplaceAbsent(line, '\n', QuoteBreak);
    MarkdownEscape.ReplaceAppend(line, [c] + rest, '\n', QuoteBreak);
    MarkdownEscape.ReplaceCons(c, rest, '\n', QuoteBreak);
  }

  /** Replacing in a text of one line. */
  lemma ReplaceLastLine(s: Str, i: nat)
    requires i < |s| && LineEnd(s, i) == |s|
    ensures MarkdownEscape.Replace(s[i..], '\n', QuoteBreak) == s[i..]
  {
    LineClear(s, i);
    assert s[i..LineEnd(s, i)] == s[i..];
    MarkdownEscape.ReplaceAbsent(s[i..], '\n', QuoteBreak);
  }

  /** A quoted line followed by the quoted rest is the quote of both joined by `\n> `. */
  lemma QuoteJoin(quoted: Str, quotedRest: Str, line: Str, rest: Str, joined: Str)
    requires quoted == QuoteLine(line) + quotedRest && quotedRest == QuoteLine(rest)
    requires joined == line + QuoteBreak + rest
    ensures quoted == QuoteLine(joined)
  {
  }

  lemma {:induction false} QuotedLines(s: Str, i: nat)
    requires i < |s| && s[|s| - 1] != '\n'
    ensures QuotedFrom(s, i) == QuoteLine(MarkdownEscape.Replace(s[i..], '\n', QuoteBreak))
    decreases |s| - i
  {
    if LineEnd(s, i) < |s| {
      BeforeLastByte(s, LineEnd(s, i));
      QuotedLines(s, LineEnd(s, i) + 1);
      QuotedLinesNext(s, i);
    } else {
      QuotedLinesLast(s, i);
    }
  }

  /** A newline is not the last byte of a text that does not end with one. */
  lemma BeforeLastByte(s: Str, k: nat)
    requires k < |s| && s[k] == '\n' && s[|s| - 1] != '\n'
    ensures k + 1 < |s|
  {
  }

  /** `QuotedLines` for the last line. */
  lemma QuotedLinesLast(s: Str, i: nat)
    requires i < |s| && LineEnd(s, i) == |s|
    ensures QuotedFrom(s, i) == QuoteLine(MarkdownEscape.Replace(s[i..], '\n', QuoteBreak))
  {
    QuotedFromLast(s, i);
    ReplaceLastLine(s, i);
  }

  /** The step of `QuotedLines` past a line that ends with a newline. */
  lemma QuotedLinesNext(s: Str, i: nat)
    requires i < |s| && LineEnd(s, i) < |s|
    requires QuotedFrom(s, LineEnd(s, i) + 1)
      == QuoteLine(MarkdownEscape.Replace(s[LineEnd(s, i) + 1..], '\n', QuoteBreak))
    ensures QuotedFrom(s, i) == QuoteLine(MarkdownEscape.Replace(s[i..], '\n', QuoteBreak))
  {
    QuotedFromNext(s, i);
    ReplaceLine(s, i);
    QuoteJoin(QuotedFrom(s, i), QuotedFrom(s, LineEnd(s, i) + 1), s[i..LineEnd(s, i)],
      MarkdownEscape.Replace(s[LineEnd(s, i) + 1..], '\n', QuoteBreak), MarkdownEscape.Replace(s[i..], '\n', QuoteBreak));
  }

  /**
   * The blockquote loop puts `> ` in front of the first line and after every
   * newline of the newline-trimmed content and ends the last line with a
   * newline; content that trims to nothing leaves only the blank lines.
   */
  lemma BlockquoteMeans(content: Str)
    ensures TrimNewlines(content) == [] ==> BlockquoteReplacement(content) == "\n\n\n\n"
    ensures TrimNewlines(content) != [] ==>
      BlockquoteReplacement(content) == "\n\n" + QuoteLine(MarkdownEscape.Replace(TrimNewlines(content), '\n', QuoteBreak)) + "\n\n"
  {
    var t := TrimNewlines(content);
    TrimNewlinesEnds(content);
    if t != [] {
      QuotedLines(t, 0);
      assert t[0..] == t;
    }
  }

  // ----- Lists -----

  /** A nested list that is the last element of its `<li>` is set off by one newline only. */
  function ListReplacement(root: Node, p: Path, content: Str): Str
    requires ValidPath(root, p)
  {
    var inner := TrimNewlines(content);
    if p != [] && HasTag(ParentOf(root, p), "li") && IsLastElementChild(root, p) then "\n" + inner
    else "\n\n" + inner + "\n\n"
  }

  /** The list rule, asking `isLastElementChildView` by its loop. */
  method ListReplace(root: Node, p: Path, content: Str) returns (r: Str)
    requires ValidPath(root, p)
    ensures r == ListReplacement(root, p, content)
  {
    var inner := TrimNewlines(content);
    if p != [] && HasTag(ParentOf(root, p), "li") {
      var last := LastElementChild(root, p);
      if last {
        return "\n" + inner;
      }
    }
    return "\n\n" + inner + "\n\n";
  }

  /** Newlines trimmed from both ends, one newline put back when any were trailing. */
  function ItemText(content: Str): Str
  {
    var result := TrimLeadingNewlines(content);
    var trimmed := TrimTrailingNewlines(result);
    if |trimmed| != |result| then trimmed + "\n" else trimmed
  }

  /** Only white space from `i` on. */
  predicate AllSpaceFrom(s: Str, i: nat)
  {
    forall j :: i <= j < |s| ==> IsCSpace(s[j])
  }

  /** Where `\n\s*$` matches: the first newline from `i` on followed by nothing but white space. */
  function BlankTailFrom(s: Str, i: nat): (r: Option<nat>)
    requires i <= |s|
    ensures r.Some? ==> i <= r.value < |s| && s[r.value] == '\n' && AllSpaceFrom(s, r.value + 1)
    decreases |s| - i
  {
    if i == |s| then None
    else if s[i] == '\n' && AllSpaceFrom(s, i + 1) then Some(i)
    else BlankTailFrom(s, i + 1)
  }

  /** `regex_replace(s, "\n\s*$", "\n    ")`. */
  function ReplaceBlankTail(s: Str): Str
  {
    match BlankTailFrom(s, 0)
    case None => s
    case Some(i) => s[..i] + "\n    "
  }

  lemma BlankTailIndented(s: Str)
    requires Indented(s)
    ensures Indented(ReplaceBlankTail(s))
  {
    match BlankTailFrom(s, 0)
    case None =>
    case Some(i) =>
      var t := s[..i] + "\n    ";
      forall j | 0 <= j < |t| && t[j] == '\n'
        ensures j + 4 < |t| && t[j + 1..j + 5] == "    "
      {
        if j < i {
          assert s[j] == '\n';
          assert s[j + 1..j + 5] == "    ";
          if j + 4 >= i {
            assert s[i] == s[j + 1..j + 5][i - j - 1];
          }
          assert t[j + 1..j + 5] == s[j + 1..j + 5];
        }
      }
  }

  /** The item's marker: the bullet and three spaces, or `start + index` and `.  ` under an `<ol>`. */
  /** The number of an ordered list's first item: its `start` attribute, 1 when that is empty. */
  function ListStart(list: Node): Result<int, StoiError>
  {
    var startAttr := Attribute(list, "start");
    if startAttr == [] then Ok(1) else Stoi(startAttr)
  }

  /** The marker of item `number` of an ordered list. */
  function OrderedMarker(number: int): Str
  {
    IntToString(number) + ".  "
  }

  /** The marker of an item of any other list. */
  function BulletMarker(o: TurndownOptions): Str
  {
    o.bulletListMarker + "   "
  }

  function ListItemPrefix(o: TurndownOptions, root: Node, p: Path): Result<Str, StoiError>
    requires ValidPath(root, p)
  {
    if p != [] && HasTag(ParentOf(root, p), "ol") then OrderedPrefix(ParentOf(root, p), ElementIndex(root, p))
    else Ok(BulletMarker(o))
  }

  /** The marker of the item at element index `index` of the ordered list `list`. */
  function OrderedPrefix(list: Node, index: int): Result<Str, StoiError>
  {
    var start :- ListStart(list);
    Ok(if index >= 0 then OrderedMarker(start + index) else "1.  ")
  }

  /** The item's text after the marker, given whether an element sibling follows. */
  function ItemBody(content: Str, hasNext: bool): Str
  {
    var result := Indent(ItemText(content));
    var result' := if hasNext && '\n' in result then ReplaceBlankTail(result) else result;
    var needsTrailingNewline := hasNext && !(result' != [] && result'[|result'| - 1] == '\n');
    result' + (if needsTrailingNewline then "\n" else "")
  }

  function ListItemReplacement(o: TurndownOptions, root: Node, p: Path, content: Str): Result<Str, StoiError>
    requires ValidPath(root, p)
  {
    var prefix :- ListItemPrefix(o, root, p);
    Ok(prefix + ItemBody(content, NextElementSibling(root, p).Some?))
  }

  /** The marker computation of the list-item rule, with its index loop. */
  method ComputeListItemPrefix(o: TurndownOptions, root: Node, p: Path) returns (r: Result<Str, StoiError>)
    requires ValidPath(root, p)
    ensures r == ListItemPrefix(o, root, p)
  {
    if p != [] && HasTag(ParentOf(root, p), "ol") {
      var index := NodeIndex(root, p);
      r := ComputeOrderedPrefix(ParentOf(root, p), index);
    } else {
      r := Ok(BulletMarker(o));
    }
  }

  method ComputeOrderedPrefix(list: Node, index: int) returns (r: Result<Str, StoiError>)
    ensures r == OrderedPrefix(list, index)
  {
    var start := ListStart(list);
    if start.Err? {
      return Err(start.error);
    }
    if index >= 0 {
      return Ok(OrderedMarker(start.value + index));
    }
    return Ok("1.  ");
  }

  /** The list-item rule, with its sibling loops and `std::stoi` on the `start` attribute. */
  method ListItemReplace(o: TurndownOptions, root: Node, p: Path, content: Str) returns (r: Result<Str, StoiError>)
    requires ValidPath(root, p)
    ensures r == ListItemReplacement(o, root, p, content)
  {
    var prefix := ComputeListItemPrefix(o, root, p);
    if prefix.Err? {
      return Err(prefix.error);
    }
    var next := FindNextElementSibling(root, p);
    return Ok(prefix.value + ItemBody(content, next.Some?));
  }

  /**
   * An item of an `<ol>` is numbered by the list's start plus the number of
   * element siblings before it.
   */
  lemma OrderedItemNumber(o: TurndownOptions, root: Node, p: Path)
    requires ValidPath(root, p) && HasTag(At(root, p), "li")
    requires p != [] && HasTag(ParentOf(root, p), "ol") && ListStart(ParentOf(root, p)).Ok?
    ensures ListItemPrefix(o, root, p)
      == Ok(OrderedMarker(ListStart(ParentOf(root, p)).value + ElementCount(Children(ParentOf(root, p)), p[|p| - 1])))
  {
  }

  /** A `start` attribute that `std::stoi` rejects makes the item, and so the conversion, fail. */
  lemma OrderedItemBadStart(o: TurndownOptions, root: Node, p: Path)
    requires ValidPath(root, p)
    requires p != [] && HasTag(ParentOf(root, p), "ol")
    requires Attribute(ParentOf(root, p), "start") != [] && Stoi(Attribute(ParentOf(root, p), "start")).Err?
    ensures ListItemPrefix(o, root, p) == Err(Stoi(Attribute(ParentOf(root, p), "start")).error)
  {
  }

  /**
   * Without a following element sibling the text after the marker is the
   * newline-trimmed content with every newline followed by four spaces, and
   * it reads back, unindented, as that content.
   */
  lemma ItemBodyLast(content: Str)
    ensures Indented(ItemBody(content, false))
    ensures Unindent(ItemBody(content, false)) == ItemText(content)
  {
    IndentMeans(ItemText(content));
    assert ItemBody(content, false) == Indent(ItemText(content));
  }

  /**
   * With a following element sibling the text after the marker is indented
   * the same way and ends with exactly one added newline (the `\n$` test
   * never fires, since an indented text cannot end with a newline).
   */
  lemma ItemBodyNext(content: Str)
    ensures var body := ItemBody(content, true);
      body != [] && body[|body| - 1] == '\n' && Indented(body[..|body| - 1])
  {
    var result := Indent(ItemText(content));
    IndentMeans(ItemText(content));
    var result' := if '\n' in result then ReplaceBlankTail(result) else result;
    if '\n' in result {
      BlankTailIndented(result);
    }
    if result' != [] {
      IndentedEnd(result');
    }
    var body := result' + "\n";
    assert body == ItemBody(content, true);
    assert body[..|body| - 1] == result';
  }

  // ----- Code blocks -----

  /** The node whose text a code block writes: the first `<code>` child, or the node itself. */
  function CodeSource(root: Node, p: Path): (q: Path)
    requires ValidPath(root, p)
    ensures ValidPath(root, q)
  {
    match FindChild(At(root, p), "code")
    case Some(i) => ChildPath(root, p, i); p + [i]
    case None => p
  }

  function IndentedCodeReplacement(root: Node, p: Path, ov: Collapsed): Str
    requires ValidPath(root, p)
  {
    var q := CodeSource(root, p);
    var code := CollectText(At(root, q), q, ov);
    "\n\n    " + Indent(DropFinalNewline(code)) + "\n\n"
  }

  /**
   * An indented code block stands between blank lines, every line of it,
   * the first included, starts with four spaces, and dropping them gives
   * back the code's text less one final newline.
   */
  lemma IndentedCodeMeans(root: Node, p: Path, ov: Collapsed)
    requires ValidPath(root, p)
    ensures var r := IndentedCodeReplacement(root, p, ov);
      var q := CodeSource(root, p);
      var code := CollectText(At(root, q), q, ov);
      |r| >= 8 && r[..2] == "\n\n" && r[|r| - 2..] == "\n\n"
      && Indented("\n" + r[2..|r| - 2])
      && Unindent("\n" + r[2..|r| - 2]) == "\n" + DropFinalNewline(code)
  {
    var q := CodeSource(root, p);
    IndentedCodeShape(DropFinalNewline(CollectText(At(root, q), q, ov)));
  }

  /** The shape of an indented code block around the text `c`. */
  lemma IndentedCodeShape(c: Str)
    ensures var r := "\n\n    " + Indent(c) + "\n\n";
      |r| >= 8 && r[..2] == "\n\n" && r[|r| - 2..] == "\n\n"
      && Indented("\n" + r[2..|r| - 2])
      && Unindent("\n" + r[2..|r| - 2]) == "\n" + c
  {
    var r := "\n\n    " + Indent(c) + "\n\n";
    IndentCons('\n', c);
    IndentMeans("\n" + c);
    assert "\n" + r[2..|r| - 2] == "\n    " + Indent(c);
  }

  /** Length of the run of `c` starting at `i`. */
  function RunAt(s: Str, i: nat, c: Byte): (k: nat)
    requires i <= |s|
    ensures i + k <= |s|
    ensures forall j :: i <= j < i + k ==> s[j] == c
    ensures i + k == |s| || s[i + k] != c
    decreases |s| - i
  {
    if i < |s| && s[i] == c then 1 + RunAt(s, i + 1, c) else 0
  }

  function Max(a: nat, b: nat): nat { if a >= b then a else b }

  /** The position is the start of a line. */
  predicate LineStart(s: Str, i: nat)
  {
    i == 0 || (i <= |s| && s[i - 1] == '\n')
  }

  /** The longest run of at least three `c` that starts a line at or after `i`, or 0. */
  function LongestFenceRun(s: Str, c: Byte, i: nat): nat
    requires i <= |s|
    decreases |s| - i
  {
    if i == |s| then 0
    else Max(if LineStart(s, i) && RunAt(s, i, c) >= 3 then RunAt(s, i, c) else 0, LongestFenceRun(s, c, i + 1))
  }

  /** The fence length: `max(3, run + 1)` over the matches of `(^|\n)c{3,}`. */
  function FenceSize(s: Str, c: Byte): nat
  {
    Max(3, LongestFenceRun(s, c, 0) + 1)
  }

  /** The match loop of the fenced-code rule: each line-start run of three or more grows the fence. */
  method ComputeFenceSize(code: Str, c: Byte) returns (size: nat)
    ensures size == FenceSize(code, c)
  {
    size := 3;
    var i := 0;
    while i < |code|
      invariant i <= |code| && size >= 3
      invariant Max(size, LongestFenceRun(code, c, i) + 1) == FenceSize(code, c)
    {
      size := FenceStep(code, c, i, size);
      i := i + 1;
    }
  }

  /** One position of the match loop: a line-start run of three or more grows the fence. */
  method FenceStep(code: Str, c: Byte, i: nat, size: nat) returns (next: nat)
    requires i < |code| && size >= 3
    ensures next >= 3
    ensures Max(next, LongestFenceRun(code, c, i + 1) + 1) == Max(size, LongestFenceRun(code, c, i) + 1)
  {
    next := size;
    if i == 0 || code[i - 1] == '\n' {
      var run := RunAt(code, i, c);
      if run >= 3 {
        next := Max(size, run + 1);
      }
    }
  }

  lemma {:induction false} LongestFenceRunMeans(s: Str, c: Byte, i: nat)
    requires i <= |s|
    ensures forall j :: i <= j < |s| && LineStart(s, j) && RunAt(s, j, c) >= 3 ==> RunAt(s, j, c) <= LongestFenceRun(s, c, i)
    ensures LongestFenceRun(s, c, i) == 0
      || exists j :: i <= j < |s| && LineStart(s, j) && RunAt(s, j, c) == LongestFenceRun(s, c, i) >= 3
    decreases |s| - i
  {
    if i < |s| {
      LongestFenceRunMeans(s, c, i + 1);
    }
  }

  /**
   * The fence is at least three characters and longer than every run of the
   * fence character that starts a line of the code, so no line of the code
   * can close it; and it is no longer than that needs: three, or one more
   * than the longest such run.
   */
  lemma FenceSizeMeans(s: Str, c: Byte)
    ensures FenceSize(s, c) >= 3
    ensures forall i :: 0 <= i < |s| && LineStart(s, i) ==> RunAt(s, i, c) < FenceSize(s, c)
    ensures FenceSize(s, c) == 3
      || exists i :: 0 <= i < |s| && LineStart(s, i) && RunAt(s, i, c) == FenceSize(s, c) - 1
  {
    LongestFenceRunMeans(s, c, 0);
  }

  /** The end of the run of non-white-space bytes starting at `i`. */
  function NonSpaceEnd(s: Str, i: nat): (k: nat)
    requires i <= |s|
    ensures i <= k <= |s|
    ensures forall j :: i <= j < k ==> !IsCSpace(s[j])
    ensures k == |s| || IsCSpace(s[k])
    decreases |s| - i
  {
    if i < |s| && !IsCSpace(s[i]) then NonSpaceEnd(s, i + 1) else i
  }

  /** `language-` followed by a byte that is not white space starts at `i`. */
  predicate LanguageAt(cls: Str, i: nat)
  {
    i + 9 < |cls| && cls[i..i + 9] == "language-" && !IsCSpace(cls[i + 9])
  }

  /** The group of the first match of `language-(\S+)` from `i` on, or "". */
  function Language(cls: Str, i: nat): (r: Str)
    requires i <= |cls|
    decreases |cls| - i
  {
    if i + 9 >= |cls| then []
    else if LanguageAt(cls, i) then cls[i + 9..NonSpaceEnd(cls, i + 9)]
    else Language(cls, i + 1)
  }

  /**
   * The language is empty exactly when no `language-` is followed by a byte
   * that is not white space.
   */
  lemma {:induction false} LanguageAbsent(cls: Str, i: nat)
    requires i <= |cls|
    ensures Language(cls, i) == [] <==> forall j :: i <= j < |cls| ==> !LanguageAt(cls, j)
    decreases |cls| - i
  {
    if i + 9 < |cls| && !LanguageAt(cls, i) {
      LanguageAbsent(cls, i + 1);
    }
  }

  /**
   * A non-empty language is the maximal run of bytes that are not white
   * space after the first `language-` that is followed by one.
   */
  lemma {:induction false} LanguageFirst(cls: Str, i: nat)
    requires i <= |cls| && Language(cls, i) != []
    ensures exists j :: (i <= j < |cls| && LanguageAt(cls, j)
      && (forall k :: i <= k < j ==> !LanguageAt(cls, k))
      && Language(cls, i) == cls[j + 9..NonSpaceEnd(cls, j + 9)])
    decreases |cls| - i
  {
    if !LanguageAt(cls, i) {
      LanguageFirst(cls, i + 1);
    }
  }

  /** The fence character: the first byte of `fence`, or a backtick when `fence` is empty. */
  function FenceChar(o: TurndownOptions): Byte
  {
    if o.fence == [] then '`' else o.fence[0]
  }

  /** The `class` attribute of the `<code>` child, or "" when there is none. */
  function CodeClass(root: Node, p: Path): Str
    requires ValidPath(root, p)
  {
    var n := At(root, p);
    match FindChild(n, "code")
    case Some(i) => Attribute(Children(n)[i], "class")
    case None => []
  }

  /** The text of the `<code>` child, or "" when there is none. */
  function CodeText(root: Node, p: Path, ov: Collapsed): Str
    requires ValidPath(root, p)
  {
    var n := At(root, p);
    match FindChild(n, "code")
    case Some(i) => CollectText(Children(n)[i], p + [i], ov)
    case None => []
  }

  /** A fenced block: the fence and language, the code, the fence again. */
  function Fenced(fence: Str, language: Str, code: Str): Str
  {
    "\n\n" + fence + language + "\n" + code + "\n" + fence + "\n\n"
  }

  function FencedCodeReplacement(o: TurndownOptions, root: Node, p: Path, ov: Collapsed): Str
    requires ValidPath(root, p)
  {
    var code := CodeText(root, p, ov);
    var fence := Repeat(FenceChar(o), FenceSize(code, FenceChar(o)));
    Fenced(fence, Language(CodeClass(root, p), 0), DropFinalNewline(code))
  }

  /** The fenced-code rule, with its fence loop. */
  method FencedCodeReplace(o: TurndownOptions, root: Node, p: Path, ov: Collapsed) returns (r: Str)
    requires ValidPath(root, p)
    ensures r == FencedCodeReplacement(o, root, p, ov)
  {
    var language := Language(CodeClass(root, p), 0);
    var code := CodeText(root, p, ov);
    var fenceChar := FenceChar(o);
    var fenceSize := ComputeFenceSize(code, fenceChar);
    var fence := Repeat(fenceChar, fenceSize);
    r := Fenced(fence, language, DropFinalNewline(code));
  }

  // ----- Links and images -----

  /** Each `(` and `)` of the href gets a backslash in front. */
  function EscapedHref(href: Str): Str
    decreases |href|
  {
    if href == [] then []
    else (if href[0] == '(' || href[0] == ')' then ['\\', href[0]] else [href[0]]) + EscapedHref(href[1..])
  }

  /** The `push_back` loop of the inline-link rule. */
  method EscapeHref(href: Str) returns (escaped: Str)
    ensures escaped == EscapedHref(href)
  {
    escaped := [];
    for i := 0 to |href|
      invariant escaped + EscapedHref(href[i..]) == EscapedHref(href)
    {
      assert href[i..][1..] == href[i + 1..];
      var ch := href[i];
      if ch == '(' || ch == ')' {
        escaped := escaped + ['\\'];
      }
      escaped := escaped + [ch];
    }
    assert href[|href|..] == [];
  }

  /** A backslash in front of a parenthesis dropped: how a link destination is read back. */
  function Unparen(s: Str): Str
    decreases |s|
  {
    if s == [] then []
    else if |s| >= 2 && s[0] == '\\' && (s[1] == '(' || s[1] == ')') then [s[1]] + Unparen(s[2..])
    else [s[0]] + Unparen(s[1..])
  }

  /** Every parenthesis has a backslash in front. */
  predicate ParensEscaped(s: Str)
  {
    forall i :: 0 <= i < |s| && (s[i] == '(' || s[i] == ')') ==> i > 0 && s[i - 1] == '\\'
  }

  /**
   * The escaped href leaves no parenthesis that could end the link
   * destination early, and dropping the added backslashes gives the href
   * back.
   */
  lemma {:induction false} EscapedHrefMeans(href: Str)
    ensures ParensEscaped(EscapedHref(href))
    ensures Unparen(EscapedHref(href)) == href
    ensures EscapedHref(href) != [] ==> EscapedHref(href)[0] != '(' && EscapedHref(href)[0] != ')'
    decreases |href|
  {
    if href != [] {
      var rest := EscapedHref(href[1..]);
      EscapedHrefMeans(href[1..]);
      var piece: Str := if href[0] == '(' || href[0] == ')' then ['\\', href[0]] else [href[0]];
      var r := piece + rest;
      assert r == EscapedHref(href);
      assert r[|piece|..] == rest;
      forall i | 0 <= i < |r| && (r[i] == '(' || r[i] == ')')
        ensures i > 0 && r[i - 1] == '\\'
      {
        if i >= |piece| {
          assert rest[i - |piece|] == r[i];
          if i - |piece| > 0 {
            assert r[i - 1] == rest[i - |piece| - 1];
          }
        }
      }
      if |piece| == 2 {
        assert r[2..] == rest;
      } else {
        assert r[1..] == rest;
      }
      assert [href[0]] + href[1..] == href;
    }
  }

  /** ` "title"` with each `"` of the title escaped, or "" for an empty title. */
  function LinkTitle(title: Str): Str
  {
    if title == [] then [] else " \"" + MarkdownEscape.Replace(title, '"', "\\\"") + "\""
  }

  /** Every `"` has a backslash in front. */
  predicate QuotesEscaped(s: Str)
  {
    forall i :: 0 <= i < |s| && s[i] == '"' ==> i > 0 && s[i - 1] == '\\'
  }

  /** Inside the escaped title no `"` can end the title early. */
  lemma {:induction false} TitleQuotesEscaped(title: Str)
    ensures QuotesEscaped(MarkdownEscape.Replace(title, '"', "\\\""))
    decreases |title|
  {
    if title != [] {
      var init := title[..|title| - 1];
      TitleQuotesEscaped(init);
      var a := MarkdownEscape.Replace(init, '"', "\\\"");
      var c := title[|title| - 1];
      var piece: Str := if c == '"' then "\\\"" else [c];
      var r := a + piece;
      assert r == MarkdownEscape.Replace(title, '"', "\\\"");
      forall i | 0 <= i < |r| && r[i] == '"'
        ensures i > 0 && r[i - 1] == '\\'
      {
        if i < |a| {
          assert a[i] == '"';
        } else if c == '"' {
          assert i == |a| + 1;
        }
      }
    }
  }

  function InlineLinkReplacement(root: Node, p: Path, content: Str): Str
    requires ValidPath(root, p)
  {
    var n := At(root, p);
    "[" + content + "](" + EscapedHref(Attribute(n, "href")) + LinkTitle(CleanAttribute(Attribute(n, "title"))) + ")"
  }

  /** The inline-link rule, with its href loop. */
  method InlineLinkReplace(root: Node, p: Path, content: Str) returns (r: Str)
    requires ValidPath(root, p)
    ensures r == InlineLinkReplacement(root, p, content)
  {
    var n := At(root, p);
    var escapedHref := EscapeHref(Attribute(n, "href"));
    var title := CleanAttribute(Attribute(n, "title"));
    r := "[" + content + "](" + escapedHref + LinkTitle(title) + ")";
  }

  /** ` "title"` as written, or "" for an empty title. */
  function TitlePart(title: Str): Str
  {
    if title == [] then [] else " \"" + title + "\""
  }

  /** How a full-style reference starts: `[k]: `. */
  function RefLabel(k: nat): Str
  {
    "[" + NatToString(k) + "]: "
  }

  /** What the reference-link rule returns and what it stores. */
  datatype LinkParts = LinkParts(replacement: Str, reference: Str)

  /** The reference-link rule when `stored` references are already in the store. */
  function ReferenceLinkParts(o: TurndownOptions, root: Node, p: Path, content: Str, stored: nat): LinkParts
    requires ValidPath(root, p)
  {
    var n := At(root, p);
    var href := Attribute(n, "href");
    var title := CleanAttribute(Attribute(n, "title"));
    var target := href + TitlePart(title);
    if o.linkReferenceStyle == "collapsed" then
      LinkParts("[" + content + "][]", "[" + content + "]: " + target)
    else if o.linkReferenceStyle == "shortcut" then
      LinkParts("[" + content + "]", "[" + content + "]: " + target)
    else
      LinkParts("[" + content + "][" + NatToString(stored + 1) + "]", RefLabel(stored + 1) + target)
  }

  /** The `i`-th stored reference (from 0) is labelled `i + 1`. */
  predicate Numbered(refs: seq<Str>)
  {
    forall i :: 0 <= i < |refs| ==> RefLabel(i + 1) <= refs[i]
  }

  /**
   * In the full style each link is labelled by the store's size plus one,
   * so storing its reference keeps the references numbered 1, 2, ... in
   * order, and the link text points at that same label.
   */
  lemma ReferenceNumbering(o: TurndownOptions, root: Node, p: Path, content: Str, refs: seq<Str>)
    requires ValidPath(root, p)
    requires o.linkReferenceStyle != "collapsed" && o.linkReferenceStyle != "shortcut"
    requires Numbered(refs)
    ensures var parts := ReferenceLinkParts(o, root, p, content, |refs|);
      Numbered(refs + [parts.reference])
      && parts.replacement == "[" + content + "][" + NatToString(|refs| + 1) + "]"
  {
    var parts := ReferenceLinkParts(o, root, p, content, |refs|);
    assert RefLabel(|refs| + 1) <= parts.reference;
    NumberedAppend(refs, parts.reference);
  }

  lemma NumberedAppend(refs: seq<Str>, reference: Str)
    requires Numbered(refs) && RefLabel(|refs| + 1) <= reference
    ensures Numbered(refs + [reference])
  {
  }

  /** Each reference on its own line. */
  function ReferenceLines(refs: seq<Str>): Str
  {
    if refs == [] then [] else refs[0] + "\n" + ReferenceLines(refs[1..])
  }

  /** What the reference-link rule's append returns: nothing for an empty store. */
  function ReferenceAppendix(refs: seq<Str>): Str
  {
    if refs == [] then [] else "\n\n" + ReferenceLines(refs) + "\n\n"
  }

  /**
   * The reference store that the reference-link rule's replacement pushes
   * to and its append empties.
   */
  class ReferenceStore {
    var references: seq<Str>

    constructor ()
      ensures references == []
    {
      references := [];
    }

    method Push(reference: Str)
      modifies this
      ensures references == old(references) + [reference]
    {
      references := references + [reference];
    }

    /** The reference-link rule's append: all stored references, then the store is cleared. */
    method Flush() returns (output: Str)
      modifies this
      ensures output == ReferenceAppendix(old(references))
      ensures references == []
    {
      if references == [] {
        return [];
      }
      var refs := references;
      output := "\n\n";
      for i := 0 to |refs|
        invariant output + ReferenceLines(refs[i..]) == "\n\n" + ReferenceLines(refs)
      {
        assert refs[i..][1..] == refs[i + 1..];
        output := output + refs[i] + "\n";
      }
      assert refs[|refs|..] == [];
      output := output + "\n\n";
      references := [];
    }
  }

  // ----- Emphasis, strong, inline code -----

  /** Emphasis and strong: nothing when the content trims to nothing, else the content between delimiters. */
  function Delimited(delimiter: Str, content: Str): Str
  {
    if TrimStr(content) == [] then [] else delimiter + content + delimiter
  }

  /**
   * Emphasis and strong give nothing exactly when every code point of the
   * content is white space; otherwise the content stands whole between two
   * copies of the delimiter.
   */
  lemma DelimitedMeans(delimiter: Str, content: Str)
    ensures var r := Delimited(delimiter, content);
      (r == [] <==> forall k :: 0 <= k < |Utf8Helpers.Decode(content)| ==> IsWsSlice(Utf8Helpers.Decode(content)[k]))
      && (r != [] ==>
            |r| == 2 * |delimiter| + |content| && r[..|delimiter|] == delimiter
            && r[|delimiter|..|delimiter| + |content|] == content && r[|delimiter| + |content|..] == delimiter)
  {
    TrimStrEnds(content);
    if TrimStr(content) != [] {
      assert |content| > 0;
      var r := delimiter + content + delimiter;
      assert r[..|delimiter|] == delimiter;
      assert r[|delimiter|..|delimiter| + |content|] == content;
      assert r[|delimiter| + |content|..] == delimiter;
    }
  }

  /** `regex_replace(s, "\r?\n|\r", " ")`: each CR LF, CR or LF becomes one space. */
  function NormalizeNewlines(s: Str): (r: Str)
    ensures forall i :: 0 <= i < |r| ==> !IsNewline(r[i])
    decreases |s|
  {
    if s == [] then []
    else if s[0] == '\r' && |s| >= 2 && s[1] == '\n' then " " + NormalizeNewlines(s[2..])
    else if IsNewline(s[0]) then " " + NormalizeNewlines(s[1..])
    else [s[0]] + NormalizeNewlines(s[1..])
  }

  /** Where `^`|^ .*?[^ ].* $|`$` matches: a backtick at either end, or spaces around something else. */
  predicate NeedsSpace(n: Str)
  {
    (n != [] && (n[0] == '`' || n[|n| - 1] == '`'))
    || (|n| >= 3 && n[0] == ' ' && n[|n| - 1] == ' ' && exists i :: 1 <= i < |n| - 1 && n[i] != ' ')
  }

  /** The lengths of the backtick runs `` `+ `` matches from `i` on, in order. */
  function TickRunsFrom(n: Str, i: nat): seq<nat>
    requires i <= |n|
    decreases |n| - i
  {
    if i == |n| then []
    else if n[i] == '`' then [RunAt(n, i, '`')] + TickRunsFrom(n, i + RunAt(n, i, '`'))
    else TickRunsFrom(n, i + 1)
  }

  /** Some maximal run of backticks is `len` long. */
  predicate HasTickRun(n: Str, len: nat)
  {
    exists j :: 0 <= j < |n| && MaximalTickRun(n, j, len)
  }

  /** `i` is not inside a run of backticks. */
  predicate RunBoundary(n: Str, i: nat)
  {
    i == 0 || i >= |n| || n[i - 1] != '`' || n[i] != '`'
  }

  /** A maximal run of `len` backticks starts at `i`. */
  predicate MaximalTickRun(n: Str, i: nat, len: nat)
  {
    i < |n| && n[i] == '`' && (i == 0 || n[i - 1] != '`') && RunAt(n, i, '`') == len
  }

  /** Every length the scan reports from a run boundary is that of a maximal run after it. */
  lemma {:induction false} TickRunsSound(n: Str, i: nat, len: nat)
    requires i <= |n| && RunBoundary(n, i) && len in TickRunsFrom(n, i)
    ensures 1 <= len && exists j :: i <= j < |n| && MaximalTickRun(n, j, len)
    decreases |n| - i
  {
    if n[i] == '`' {
      var k := RunAt(n, i, '`');
      if len != k {
        TickRunsSound(n, i + k, len);
      } else {
        assert MaximalTickRun(n, i, len);
      }
    } else {
      TickRunsSound(n, i + 1, len);
    }
  }

  /** Every maximal run after a run boundary is reported by the scan. */
  lemma {:induction false} TickRunsComplete(n: Str, i: nat, j: nat, len: nat)
    requires i <= j && RunBoundary(n, i) && MaximalTickRun(n, j, len)
    ensures len in TickRunsFrom(n, i)
    decreases |n| - i
  {
    if n[i] == '`' {
      var k := RunAt(n, i, '`');
      if j >= i + k {
        TickRunsComplete(n, i + k, j, len);
      }
    } else {
      TickRunsComplete(n, i + 1, j, len);
    }
  }

  /** The largest element, or 0. */
  function MaxOf(xs: seq<nat>): (m: nat)
    ensures forall x :: x in xs ==> x <= m
  {
    if xs == [] then 0
    else
      assert forall x :: x in xs ==> x == xs[0] || x in xs[1..];
      Max(xs[0], MaxOf(xs[1..]))
  }

  /** The least length from `k` on that is not in `runs`. */
  function LeastAbsent(runs: seq<nat>, k: nat): (d: nat)
    ensures d >= k && d !in runs
    ensures forall j :: k <= j < d ==> j in runs
    decreases MaxOf(runs) + 1 - k
  {
    if k in runs then LeastAbsent(runs, k + 1) else k
  }

  /** The `matches` loop of the inline-code rule. */
  method TickRuns(n: Str) returns (runs: seq<nat>)
    ensures runs == TickRunsFrom(n, 0)
  {
    runs := [];
    var i := 0;
    while i < |n|
      invariant i <= |n|
      invariant runs + TickRunsFrom(n, i) == TickRunsFrom(n, 0)
      decreases |n| - i
    {
      if n[i] == '`' {
        var run := RunAt(n, i, '`');
        runs := runs + [run];
        i := i + run;
      } else {
        i := i + 1;
      }
    }
  }

  /** The `while (contains(delimiter))` loop: one more backtick until no run has that length. */
  method CodeDelimiter(runs: seq<nat>) returns (delimiter: Str)
    ensures delimiter == Repeat('`', LeastAbsent(runs, 1))
  {
    var len := 1;
    while len in runs
      invariant 1 <= len <= LeastAbsent(runs, 1)
      invariant LeastAbsent(runs, len) == LeastAbsent(runs, 1)
      decreases MaxOf(runs) + 1 - len
    {
      len := len + 1;
    }
    delimiter := Repeat('`', len);
  }

  function CodeSpan(content: Str): Str
  {
    if content == [] then []
    else
      var n := NormalizeNewlines(content);
      var delimiter := Repeat('`', LeastAbsent(TickRunsFrom(n, 0), 1));
      var pad: Str := if NeedsSpace(n) then " " else "";
      delimiter + pad + n + pad + delimiter
  }

  /** The inline-code rule, with its run and delimiter loops. */
  method CodeReplace(content: Str) returns (r: Str)
    ensures r == CodeSpan(content)
  {
    if content == [] {
      return [];
    }
    var normalized := NormalizeNewlines(content);
    var needsSpace := NeedsSpace(normalized);
    var runs := TickRuns(normalized);
    var delimiter := CodeDelimiter(runs);
    var pad: Str := if needsSpace then " " else "";
    r := delimiter + pad + normalized + pad + delimiter;
  }

  /**
   * Inline code of non-empty content is the newline-free content between
   * two runs of `k` backticks, where `k` is the least length of no maximal
   * backtick run in the content (so the content cannot close the span) and
   * every shorter length is one; one space pads each side exactly when the
   * content starts or ends with a backtick or is spaces around something
   * else.
   */
  lemma CodeSpanMeans(content: Str)
    requires content != []
    ensures var n := NormalizeNewlines(content);
      var k := LeastAbsent(TickRunsFrom(n, 0), 1);
      var pad: Str := if NeedsSpace(n) then " " else "";
      k >= 1
      && !HasTickRun(n, k)
      && (forall len :: 1 <= len < k ==> HasTickRun(n, len))
      && CodeSpan(content) == Repeat('`', k) + pad + n + pad + Repeat('`', k)
  {
    var n := NormalizeNewlines(content);
    var runs := TickRunsFrom(n, 0);
    var k := LeastAbsent(runs, 1);
    if HasTickRun(n, k) {
      var j :| 0 <= j < |n| && MaximalTickRun(n, j, k);
      TickRunsComplete(n, 0, j, k);
    }
    forall len | 1 <= len < k
      ensures HasTickRun(n, len)
    {
      TickRunsSound(n, 0, len);
    }
  }

  function ImageReplacement(root: Node, p: Path): Str
    requires ValidPath(root, p)
  {
    var n := At(root, p);
    var alt := CleanAttribute(Attribute(n, "alt"));
    var src := Attribute(n, "src");
    var title := CleanAttribute(Attribute(n, "title"));
    if src == [] then [] else "![" + alt + "](" + src + TitlePart(title) + ")"
  }

  /** An image gives nothing exactly when its `src` is empty; otherwise it is Markdown image syntax. */
  lemma ImageMeans(root: Node, p: Path)
    requires ValidPath(root, p)
    ensures var r := ImageReplacement(root, p);
      (r == [] <==> Attribute(At(root, p), "src") == [])
      && (r != [] ==> r[..2] == "![" && r[|r| - 1] == ')')
  {
  }

  // ----- Dispatch -----

  /** A replacement's text and, for the reference-link rule, the reference it stores. */
  datatype Replaced = Replaced(text: Str, reference: Option<Str>)

  /**
   * The replacement of a built-in rule when `stored` references are in the
   * store. Only the list item can fail (its `std::stoi`), and only the
   * reference link stores anything.
   */
  function Replacement(kind: RuleKind, o: TurndownOptions, content: Str, root: Node, p: Path, ov: Collapsed, stored: nat)
    : (r: Result<Replaced, StoiError>)
    requires ValidPath(root, p)
    ensures r.Err? ==> kind.ListItem?
    ensures r.Ok? && r.value.reference.Some? ==> kind.ReferenceLink?
  {
    match kind
    case Paragraph => Ok(Replaced("\n\n" + content + "\n\n", None))
    case LineBreak => Ok(Replaced(o.br + "\n", None))
    case Heading(level) => Ok(Replaced(HeadingReplacement(o, level, content), None))
    case Blockquote => Ok(Replaced(BlockquoteReplacement(content), None))
    case List => Ok(Replaced(ListReplacement(root, p, content), None))
    case ListItem =>
      var text :- ListItemReplacement(o, root, p, content);
      Ok(Replaced(text, None))
    case IndentedCodeBlock => Ok(Replaced(IndentedCodeReplacement(root, p, ov), None))
    case FencedCodeBlock => Ok(Replaced(FencedCodeReplacement(o, root, p, ov), None))
    case HorizontalRule => Ok(Replaced("\n\n" + o.hr + "\n\n", None))
    case InlineLink => Ok(Replaced(InlineLinkReplacement(root, p, content), None))
    case ReferenceLink =>
      var parts := ReferenceLinkParts(o, root, p, content, stored);
      Ok(Replaced(parts.replacement, Some(parts.reference)))
    case Emphasis => Ok(Replaced(Delimited(o.emDelimiter, content), None))
    case Strong => Ok(Replaced(Delimited(o.strongDelimiter, content), None))
    case Code => Ok(Replaced(CodeSpan(content), None))
    case Image => Ok(Replaced(ImageReplacement(root, p), None))
  }

  /** Runs a built-in rule's replacement; the reference link pushes its reference to `store`. */
  method Replace(kind: RuleKind, o: TurndownOptions, content: Str, root: Node, p: Path, ov: Collapsed, store: ReferenceStore)
    returns (r: Result<Str, StoiError>)
    requires ValidPath(root, p)
    modifies store
    ensures var spec := Replacement(kind, o, content, root, p, ov, |old(store.references)|);
      (r.Err? <==> spec.Err?)
      && (spec.Err? ==> r.error == spec.error && store.references == old(store.references))
      && (spec.Ok? ==>
            r.value == spec.value.text
            && store.references == old(store.references)
                 + (if spec.value.reference.Some? then [spec.value.reference.value] else []))
  {
    if kind.ReferenceLink? {
      var parts := ReferenceLinkParts(o, root, p, content, |store.references|);
      store.Push(parts.reference);
      r := Ok(parts.replacement);
    } else {
      r := StoreFreeReplace(kind, o, content, root, p, ov, |store.references|);
    }
  }

  /** The replacements that store nothing, computed as the rules' bodies do. */
  method StoreFreeReplace(kind: RuleKind, o: TurndownOptions, content: Str, root: Node, p: Path, ov: Collapsed, stored: nat)
    returns (r: Result<Str, StoiError>)
    requires ValidPath(root, p) && !kind.ReferenceLink?
    ensures var spec := Replacement(kind, o, content, root, p, ov, stored);
      (r.Err? <==> spec.Err?)
      && (spec.Err? ==> r.error == spec.error)
      && (spec.Ok? ==> r.value == spec.value.text && spec.value.reference.None?)
  {
    match kind
    case Blockquote =>
      var block := QuoteLines(TrimNewlines(content));
      r := Ok("\n\n" + block + "\n\n");
    case List =>
      var text := ListReplace(root, p, content);
      r := Ok(text);
    case ListItem =>
      r := ListItemReplace(o, root, p, content);
    case FencedCodeBlock =>
      var text := FencedCodeReplace(o, root, p, ov);
      r := Ok(text);
    case InlineLink =>
      var text := InlineLinkReplace(root, p, content);
      r := Ok(text);
    case Code =>
      var text := CodeReplace(content);
      r := Ok(text);
    case ReferenceLink =>
      assert false;
    case Paragraph | LineBreak | Heading(_) | IndentedCodeBlock | HorizontalRule | Emphasis | Strong | Image =>
      r := Ok(Replacement(kind, o, content, root, p, ov, stored).value.text);
  }
}

/**
 * The two Markdown escape functions of `utilities.cpp`: `advancedEscape`,
 * an ordered series of character substitutions and line-start insertions,
 * and `minimalEscape`, which only escapes backslashes and brackets.
 *
 * Both are specified against `Unescape`, the reading a Markdown renderer
 * gives a backslash: it drops the backslash and keeps the next byte
 * literally. Escaping is undone by that reading, and every backslash the
 * escapers leave in front of a byte comes from a known set.
 */
module MarkdownEscape {

  import opened Strings

  // ----- The reading that escaping must survive -----

  /** A backslash followed by a byte stands for that byte. */
  function Unescape(t: Str): Str
    decreases |t|
  {
    if t == [] then []
    else if t[0] == '\\' && |t| >= 2 then [t[1]] + Unescape(t[2..])
    else [t[0]] + Unescape(t[1..])
  }

  /** Every backslash of `t` escapes a following byte from `escaped`; none is left dangling. */
  predicate EscapesOnly(t: Str, escaped: set<Byte>)
    decreases |t|
  {
    if t == [] then true
    else if t[0] == '\\' then |t| >= 2 && t[1] in escaped && EscapesOnly(t[2..], escaped)
    else EscapesOnly(t[1..], escaped)
  }

  // ----- escape_char -----

  /** Every `needle` of `t` replaced by `replacement`: what the `escape_char` loop builds. */
  function Replace(t: Str, needle: Byte, replacement: Str): Str
    decreases |t|
  {
    if t == [] then []
    else
      Replace(t[..|t| - 1], needle, replacement) + Piece(t[|t| - 1], needle, replacement)
  }

  /** What `Replace` puts in place of one byte. */
  function Piece(c: Byte, needle: Byte, replacement: Str): Str
  {
    if c == needle then replacement else [c]
  }

  /** The `escape_char` helper of `advancedEscape`: one pass over `text`. */
  method EscapeChar(text: Str, needle: Byte, replacement: Str) returns (result: Str)
    ensures result == Replace(text, needle, replacement)
  {
    result := [];
    var i := 0;
    while i < |text|
      invariant i <= |text|
      invariant result == Replace(text[..i], needle, replacement)
    {
      assert text[..i + 1][..i] == text[..i];
      if text[i] == needle {
        result := result + replacement;
      } else {
        result := result + [text[i]];
      }
      i := i + 1;
    }
    assert text[..i] == text;
  }

  lemma {:induction false} ReplaceAppend(a: Str, b: Str, needle: Byte, replacement: Str)
    ensures Replace(a + b, needle, replacement) == Replace(a, needle, replacement) + Replace(b, needle, replacement)
    decreases |b|
  {
    if b != [] {
      var b' := b[..|b| - 1];
      ReplaceAppend(a, b', needle, replacement);
      var c := b[|b| - 1];
      var piece := Piece(c, needle, replacement);
      assert (a + b)[..|a + b| - 1] == a + b';
      assert (a + b)[|a + b| - 1] == c;
      assert Replace(a + b, needle, replacement) == Replace(a + b', needle, replacement) + piece;
      assert Replace(b, needle, replacement) == Replace(b', needle, replacement) + piece;
    } else {
      assert a + b == a;
    }
  }

  /** A byte that does not occur is not replaced. */
  lemma {:induction false} ReplaceAbsent(t: Str, needle: Byte, replacement: Str)
    requires forall i :: 0 <= i < |t| ==> t[i] != needle
    ensures Replace(t, needle, replacement) == t
    decreases |t|
  {
    if t != [] {
      ReplaceAbsent(t[..|t| - 1], needle, replacement);
    }
  }

  /** `Replace` read from the front: the first byte's piece, then the rest. */
  lemma ReplaceCons(c: Byte, rest: Str, needle: Byte, replacement: Str)
    ensures Replace([c] + rest, needle, replacement) ==
      Piece(c, needle, replacement) + Replace(rest, needle, replacement)
  {
    ReplaceAppend([c], rest, needle, replacement);
    assert [c][..0] == [];
  }

  // ----- advancedEscape -----

  /** Length of the run of `c` at the front of `t`. */
  function LeadingRun(t: Str, c: Byte): (n: nat)
    ensures n <= |t|
    decreases |t|
  {
    if t != [] && t[0] == c then 1 + LeadingRun(t[1..], c) else 0
  }

  /** Length of the run of decimal digits at the front of `t`. */
  function LeadingDigits(t: Str): (n: nat)
    ensures n <= |t|
    decreases |t|
  {
    if t != [] && IsAsciiDigit(t[0]) then 1 + LeadingDigits(t[1..]) else 0
  }

  lemma {:induction false} LeadingRunStops(t: Str, c: Byte)
    ensures forall i :: 0 <= i < LeadingRun(t, c) ==> t[i] == c
    ensures LeadingRun(t, c) == |t| || t[LeadingRun(t, c)] != c
    decreases |t|
  {
    if t != [] && t[0] == c {
      LeadingRunStops(t[1..], c);
    }
  }

  lemma {:induction false} LeadingDigitsStop(t: Str)
    ensures forall i :: 0 <= i < LeadingDigits(t) ==> IsAsciiDigit(t[i])
    ensures LeadingDigits(t) == |t| || !IsAsciiDigit(t[LeadingDigits(t)])
    decreases |t|
  {
    if t != [] && IsAsciiDigit(t[0]) {
      LeadingDigitsStop(t[1..]);
    }
  }

  /** The line starts `advancedEscape` puts a backslash in front of. */
  datatype LineRule =
    | Dash      // `-`: a bullet or a thematic break
    | Plus      // `+ `: a bullet
    | Equals    // `=`: a setext underline
    | Heading   // one to six `#` and a space: an ATX heading
    | Fence     // `~~~`: a code fence
    | Quote     // `>`: a block quote

  /** The byte a line-start rule escapes. */
  function LeadByte(rule: LineRule): Byte
  {
    match rule
    case Dash => '-'
    case Plus => '+'
    case Equals => '='
    case Heading => '#'
    case Fence => '~'
    case Quote => '>'
  }

  /** Whether `rule` fires on `t`, exactly as the source tests it. */
  predicate Fires(rule: LineRule, t: Str)
  {
    match rule
    case Dash => t != [] && t[0] == '-'
    case Plus => |t| >= 2 && t[0] == '+' && t[1] == ' '
    case Equals => t != [] && t[0] == '='
    case Heading =>
      t != [] && t[0] == '#'
      && var count := LeadingRun(t, '#');
      1 <= count <= 6 && |t| > count && t[count] == ' '
    case Fence => |t| >= 3 && t[..3] == "~~~"
    case Quote => t != [] && t[0] == '>'
  }

  lemma FiresOnLeadByte(rule: LineRule, t: Str)
    requires Fires(rule, t)
    ensures t != [] && t[0] == LeadByte(rule)
  {
    if rule == Fence {
      assert t[0] == t[..3][0];
    }
  }

  /** Digits, a dot and a space: the dot of an ordered-list marker is escaped. */
  function EscapeOrderedList(t: Str): Str
  {
    if t != [] && IsAsciiDigit(t[0]) then
      var idx := LeadingDigits(t);
      if idx + 1 < |t| && t[idx] == '.' && t[idx + 1] == ' ' then t[..idx] + "\\" + t[idx..] else t
    else t
  }

  /** One step of `advancedEscape`. */
  datatype EscapeStep =
    | Prefix(needle: Byte)      // a backslash before every `needle` (`escape_char`)
    | LineStart(rule: LineRule) // one backslash at the front when `rule` fires
    | OrderedListDot            // a backslash before the dot of a leading `digits. `

  function ApplyStep(step: EscapeStep, t: Str): Str
  {
    match step
    case Prefix(c) => Replace(t, c, ['\\', c])
    case LineStart(rule) => if Fires(rule, t) then "\\" + t else t
    case OrderedListDot => EscapeOrderedList(t)
  }

  /** The result of `advancedEscape`: its thirteen steps, in the source's order. */
  function AdvancedEscaped(s: Str): Str
  {
    LateEscapes(EarlyEscapes(s))
  }

  /** The first six steps: backslashes and `*` doubled, then the bullet, underline and heading tests. */
  function EarlyEscapes(s: Str): Str
  {
    var o1 := ApplyStep(Prefix('\\'), s);
    var o2 := ApplyStep(Prefix('*'), o1);
    var o3 := ApplyStep(LineStart(Dash), o2);
    var o4 := ApplyStep(LineStart(Plus), o3);
    var o5 := ApplyStep(LineStart(Equals), o4);
    ApplyStep(LineStart(Heading), o5)
  }

  /** The last seven steps, from the backtick to the ordered-list dot. */
  function LateEscapes(o6: Str): Str
  {
    var o7 := ApplyStep(Prefix('`'), o6);
    var o8 := ApplyStep(LineStart(Fence), o7);
    var o9 := ApplyStep(Prefix('['), o8);
    var o10 := ApplyStep(Prefix(']'), o9);
    var o11 := ApplyStep(LineStart(Quote), o10);
    var o12 := ApplyStep(Prefix('_'), o11);
    ApplyStep(OrderedListDot, o12)
  }

  /** `advancedEscape`, rewriting `output` step by step as the source does. */
  method AdvancedEscape(input: Str) returns (output: Str)
    ensures output == AdvancedEscaped(input)
  {
    output := input;
    output := EscapeChar(output, '\\', "\\\\");
    output := EscapeChar(output, '*', "\\*");
    output := EscapeLineStart(output, Dash);
    output := EscapeLineStart(output, Plus);
    output := EscapeLineStart(output, Equals);
    output := EscapeLineStart(output, Heading);
    output := EscapeChar(output, '`', "\\`");
    output := EscapeLineStart(output, Fence);
    output := EscapeChar(output, '[', "\\[");
    output := EscapeChar(output, ']', "\\]");
    output := EscapeLineStart(output, Quote);
    output := EscapeChar(output, '_', "\\_");
    output := InsertOrderedListBackslash(output);
  }

  /** One of the line-start tests of `advancedEscape`, inserting a backslash at the front when it holds. */
  method EscapeLineStart(text: Str, rule: LineRule) returns (output: Str)
    ensures output == ApplyStep(LineStart(rule), text)
  {
    output := text;
    match rule {
      case Dash =>
        if output != [] && output[0] == '-' {
          output := "\\" + output;
        }
      case Plus =>
        if |output| >= 2 && output[0] == '+' && output[1] == ' ' {
          output := "\\" + output;
        }
      case Equals =>
        // The source also counts the run of `=` here, but never uses the count.
        if output != [] && output[0] == '=' {
          output := "\\" + output;
        }
      case Heading =>
        if output != [] && output[0] == '#' {
          var count := 0;
          LeadingRunStops(output, '#');
          while count < |output| && output[count] == '#'
            invariant count <= LeadingRun(output, '#')
          {
            count := count + 1;
          }
          if count >= 1 && count <= 6 && |output| > count && output[count] == ' ' {
            output := "\\" + output;
          }
        }
      case Fence =>
        if |output| >= 3 && output[..3] == "~~~" {
          output := "\\" + output;
        }
      case Quote =>
        if output != [] && output[0] == '>' {
          output := "\\" + output;
        }
    }
  }

  /** The ordered-list step of `advancedEscape`: counts the leading digits and escapes the dot. */
  method InsertOrderedListBackslash(text: Str) returns (output: Str)
    ensures output == EscapeOrderedList(text)
  {
    output := text;
    if output != [] && IsAsciiDigit(output[0]) {
      var idx := 0;
      LeadingDigitsStop(output);
      while idx < |output| && IsAsciiDigit(output[idx])
        invariant idx <= LeadingDigits(output)
      {
        idx := idx + 1;
      }
      if idx + 1 < |output| && output[idx] == '.' && output[idx + 1] == ' ' {
        output := output[..idx] + "\\" + output[idx..];
      }
    }
  }

  // ----- Why the escapes can be undone -----

  lemma {:induction false} EscapesOnlyGrow(t: Str, s1: set<Byte>, s2: set<Byte>)
    requires EscapesOnly(t, s1) && s1 <= s2
    ensures EscapesOnly(t, s2)
    decreases |t|
  {
    if t != [] {
      if t[0] == '\\' { EscapesOnlyGrow(t[2..], s1, s2); } else { EscapesOnlyGrow(t[1..], s1, s2); }
    }
  }

  /** Doubling every backslash is undone by the reading, and leaves only escaped backslashes. */
  lemma {:induction false} DoubledBackslashes(s: Str)
    ensures Unescape(Replace(s, '\\', "\\\\")) == s
    ensures EscapesOnly(Replace(s, '\\', "\\\\"), {'\\'})
    decreases |s|
  {
    if s != [] {
      DoubledBackslashes(s[1..]);
      assert s == [s[0]] + s[1..];
      ReplaceCons(s[0], s[1..], '\\', "\\\\");
      if s[0] == '\\' {
        EscapedPair('\\', Replace(s[1..], '\\', "\\\\"), {'\\'});
      } else {
        PlainByte(s[0], Replace(s[1..], '\\', "\\\\"), {'\\'});
      }
    }
  }

  /**
   * Prefixing every `c` with a backslash is undone by the reading, provided
   * no backslash already escapes a `c`; afterwards `c` is escaped too.
   */
  lemma {:induction false} PrefixedChar(t: Str, c: Byte, escaped: set<Byte>)
    requires c != '\\' && c !in escaped && EscapesOnly(t, escaped)
    ensures Unescape(Replace(t, c, ['\\', c])) == Unescape(t)
    ensures EscapesOnly(Replace(t, c, ['\\', c]), escaped + {c})
    decreases |t|
  {
    if t != [] {
      if t[0] == '\\' {
        PrefixedChar(t[2..], c, escaped);
        ReplaceEscaped(t, c);
        EscapedPair(t[1], Replace(t[2..], c, ['\\', c]), escaped + {c});
      } else {
        PrefixedChar(t[1..], c, escaped);
        ReplacePlain(t, c);
        if t[0] == c {
          EscapedPair(c, Replace(t[1..], c, ['\\', c]), escaped + {c});
        } else {
          PlainByte(t[0], Replace(t[1..], c, ['\\', c]), escaped + {c});
        }
      }
    }
  }

  /** An escaped pair at the front of `t` is left alone by prefixing `c`. */
  lemma ReplaceEscaped(t: Str, c: Byte)
    requires |t| >= 2 && t[0] == '\\' && t[1] != c && c != '\\'
    ensures Replace(t, c, ['\\', c]) == ['\\', t[1]] + Replace(t[2..], c, ['\\', c])
  {
    assert t == [t[0]] + ([t[1]] + t[2..]);
    ReplaceCons(t[1], t[2..], c, ['\\', c]);
    ReplaceCons(t[0], [t[1]] + t[2..], c, ['\\', c]);
  }

  /** A plain byte at the front of `t` becomes its piece. */
  lemma ReplacePlain(t: Str, c: Byte)
    requires t != []
    ensures Replace(t, c, ['\\', c]) == Piece(t[0], c, ['\\', c]) + Replace(t[1..], c, ['\\', c])
  {
    assert t == [t[0]] + t[1..];
    ReplaceCons(t[0], t[1..], c, ['\\', c]);
  }

  /** How a backslash pair in front of `r` reads. */
  lemma EscapedPair(x: Byte, r: Str, escaped: set<Byte>)
    ensures Unescape(['\\', x] + r) == [x] + Unescape(r)
    ensures EscapesOnly(['\\', x] + r, escaped) <==> x in escaped && EscapesOnly(r, escaped)
  {
    assert (['\\', x] + r)[2..] == r;
  }

  /** How a plain byte in front of `r` reads. */
  lemma PlainByte(x: Byte, r: Str, escaped: set<Byte>)
    requires x != '\\'
    ensures Unescape([x] + r) == [x] + Unescape(r)
    ensures EscapesOnly([x] + r, escaped) <==> EscapesOnly(r, escaped)
  {
    assert ([x] + r)[1..] == r;
  }

  /** A backslash put in front of a text that starts with `lead` is undone by the reading. */
  lemma LeadingBackslash(t: Str, lead: Byte, escaped: set<Byte>)
    requires lead != '\\' && t != [] && t[0] == lead && EscapesOnly(t, escaped)
    ensures Unescape("\\" + t) == Unescape(t)
    ensures EscapesOnly("\\" + t, escaped + {lead})
  {
    var u := "\\" + t;
    assert u[2..] == t[1..];
    EscapesOnlyGrow(t[1..], escaped, escaped + {lead});
  }

  /** Bytes without a backslash read as themselves, whatever follows. */
  lemma {:induction false} PlainPrefix(a: Str, b: Str, escaped: set<Byte>)
    requires forall i :: 0 <= i < |a| ==> a[i] != '\\'
    ensures Unescape(a + b) == a + Unescape(b)
    ensures EscapesOnly(a + b, escaped) <==> EscapesOnly(b, escaped)
    decreases |a|
  {
    if a == [] {
      assert a + b == b;
    } else {
      PlainPrefix(a[1..], b, escaped);
      assert (a + b)[0] == a[0] != '\\';
      assert (a + b)[1..] == a[1..] + b;
      assert Unescape(a + b) == [a[0]] + Unescape(a[1..] + b);
      assert [a[0]] + (a[1..] + Unescape(b)) == a + Unescape(b);
    }
  }

  /** The backslash put before the dot of an ordered-list marker is undone by the reading. */
  lemma OrderedListBackslash(t: Str, escaped: set<Byte>)
    requires EscapesOnly(t, escaped)
    ensures Unescape(EscapeOrderedList(t)) == Unescape(t)
    ensures EscapesOnly(EscapeOrderedList(t), escaped + {'.'})
  {
    var idx := LeadingDigits(t);
    if t != [] && IsAsciiDigit(t[0]) && idx + 1 < |t| && t[idx] == '.' && t[idx + 1] == ' ' {
      LeadingDigitsStop(t);
      var a := t[..idx];
      var b := t[idx..];
      assert t == a + b;
      assert EscapeOrderedList(t) == a + ("\\" + b);
      PlainPrefix(a, b, escaped);
      LeadingBackslash(b, '.', escaped);
      PlainPrefix(a, "\\" + b, escaped + {'.'});
    } else {
      EscapesOnlyGrow(t, escaped, escaped + {'.'});
    }
  }

  /** The byte a step leaves a backslash in front of. */
  function Escapes(step: EscapeStep): Byte
  {
    match step
    case Prefix(c) => c
    case LineStart(rule) => LeadByte(rule)
    case OrderedListDot => '.'
  }

  lemma StepUndone(step: EscapeStep, t: Str, escaped: set<Byte>)
    requires Escapes(step) != '\\' && (step.Prefix? ==> step.needle !in escaped)
    requires EscapesOnly(t, escaped)
    ensures Unescape(ApplyStep(step, t)) == Unescape(t)
    ensures EscapesOnly(ApplyStep(step, t), escaped + {Escapes(step)})
  {
    match step
    case Prefix(c) =>
      PrefixedChar(t, c, escaped);
    case LineStart(rule) =>
      if Fires(rule, t) {
        FiresOnLeadByte(rule, t);
        LeadingBackslash(t, LeadByte(rule), escaped);
      } else {
        EscapesOnlyGrow(t, escaped, escaped + {LeadByte(rule)});
      }
    case OrderedListDot =>
      OrderedListBackslash(t, escaped);
  }

  /** The bytes `advancedEscape` may leave a backslash in front of. */
  const AdvancedEscapes: set<Byte> :=
    {'\\', '*', '-', '+', '=', '#', '`', '~', '[', ']', '>', '_', '.'}

  /**
   * `advancedEscape` loses nothing: reading its output gives back the input.
   * Backslashes are doubled first, and each later step only prefixes bytes no
   * earlier step escaped, so no inserted backslash is ever doubled.
   */
  lemma AdvancedEscapeRoundTrip(s: Str)
    ensures Unescape(AdvancedEscaped(s)) == s
    ensures EscapesOnly(AdvancedEscaped(s), AdvancedEscapes)
  {
    EarlyUndone(s);
    LateUndone(EarlyEscapes(s));
  }

  /** The bytes the first six steps escape. */
  const EarlyEscapeSet: set<Byte> := {'\\', '*', '-', '+', '=', '#'}

  lemma EarlyUndone(s: Str)
    ensures Unescape(EarlyEscapes(s)) == s
    ensures EscapesOnly(EarlyEscapes(s), EarlyEscapeSet)
  {
    var o1 := ApplyStep(Prefix('\\'), s);
    DoubledBackslashes(s);
    var e1: set<Byte> := {'\\'};
    var o2 := ApplyStep(Prefix('*'), o1);
    StepUndone(Prefix('*'), o1, e1);
    var e2 := e1 + {'*'};
    var o3 := ApplyStep(LineStart(Dash), o2);
    StepUndone(LineStart(Dash), o2, e2);
    var e3 := e2 + {'-'};
    var o4 := ApplyStep(LineStart(Plus), o3);
    StepUndone(LineStart(Plus), o3, e3);
    var e4 := e3 + {'+'};
    var o5 := ApplyStep(LineStart(Equals), o4);
    StepUndone(LineStart(Equals), o4, e4);
    var e5 := e4 + {'='};
    StepUndone(LineStart(Heading), o5, e5);
    assert e5 + {'#'} == EarlyEscapeSet;
  }

  lemma LateUndone(o6: Str)
    requires EscapesOnly(o6, EarlyEscapeSet)
    ensures Unescape(LateEscapes(o6)) == Unescape(o6)
    ensures EscapesOnly(LateEscapes(o6), AdvancedEscapes)
  {
    var e6 := EarlyEscapeSet;
    var o7 := ApplyStep(Prefix('`'), o6);
    StepUndone(Prefix('`'), o6, e6);
    var e7 := e6 + {'`'};
    var o8 := ApplyStep(LineStart(Fence), o7);
    StepUndone(LineStart(Fence), o7, e7);
    var e8 := e7 + {'~'};
    var o9 := ApplyStep(Prefix('['), o8);
    StepUndone(Prefix('['), o8, e8);
    var e9 := e8 + {'['};
    var o10 := ApplyStep(Prefix(']'), o9);
    StepUndone(Prefix(']'), o9, e9);
    var e10 := e9 + {']'};
    var o11 := ApplyStep(LineStart(Quote), o10);
    StepUndone(LineStart(Quote), o10, e10);
    var e11 := e10 + {'>'};
    var o12 := ApplyStep(Prefix('_'), o11);
    StepUndone(Prefix('_'), o11, e11);
    var e12 := e11 + {'_'};
    StepUndone(OrderedListDot, o12, e12);
    assert e12 + {'.'} == AdvancedEscapes;
  }

  /** None of the bytes `escape_char` prefixes: backslash, `*`, backtick, brackets, `_`. */
  predicate Inert(t: Str)
  {
    forall i :: 0 <= i < |t| ==> t[i] !in {'\\', '*', '`', '[', ']', '_'}
  }

  /** None of the bytes prefixed after the first step; a backslash may occur. */
  predicate Quiet(t: Str)
  {
    forall i :: 0 <= i < |t| ==> t[i] !in {'*', '`', '[', ']', '_'}
  }

  lemma QuietPrefixed(s: Str)
    requires Inert(s)
    ensures Quiet(s) && Quiet("\\" + s)
  {
    var t := "\\" + s;
    forall i | 0 <= i < |t|
      ensures t[i] !in {'*', '`', '[', ']', '_'}
    {
      if i > 0 {
        assert t[i] == s[i - 1];
      }
    }
  }

  /** A step other than the first leaves alone text it finds nothing to escape in. */
  lemma Untouched(step: EscapeStep, t: Str)
    requires step != Prefix('\\')
    requires Quiet(t)
    requires step.Prefix? ==> step.needle in {'*', '`', '[', ']', '_'}
    requires step.LineStart? ==> t == [] || t[0] != LeadByte(step.rule)
    requires step == OrderedListDot ==> t == [] || !IsAsciiDigit(t[0])
    ensures ApplyStep(step, t) == t
  {
    match step
    case Prefix(c) =>
      ReplaceAbsent(t, c, ['\\', c]);
    case LineStart(rule) =>
      if Fires(rule, t) {
        FiresOnLeadByte(rule, t);
      }
    case OrderedListDot =>
  }

  /**
   * A text with nothing to escape inside it and no block marker at its front
   * is changed at most by the ordered-list step: plain text passes through,
   * and `1984. by` becomes `1984\. by`. The front is the text's first byte
   * only: a marker after a newline, as in `a\n- b`, gets no backslash.
   */
  lemma AdvancedEscapeNoLineStart(s: Str)
    requires Inert(s)
    requires forall rule: LineRule :: !Fires(rule, s)
    ensures AdvancedEscaped(s) == EscapeOrderedList(s)
  {
    ReplaceAbsent(s, '\\', "\\\\");
    ReplaceAbsent(s, '*', "\\*");
    ReplaceAbsent(s, '`', "\\`");
    ReplaceAbsent(s, '[', "\\[");
    ReplaceAbsent(s, ']', "\\]");
    ReplaceAbsent(s, '_', "\\_");
    assert !Fires(Dash, s) && !Fires(Plus, s) && !Fires(Equals, s);
    assert !Fires(Heading, s) && !Fires(Fence, s) && !Fires(Quote, s);
  }

  /**
   * A line-start step on `s`, or on `s` already prefixed (`done`): only the
   * rule that fires on `s` acts, and only once.
   */
  lemma LineStartOnce(r: LineRule, rule: LineRule, s: Str, done: bool, cur: Str)
    requires Fires(rule, s) && cur == (if done then "\\" + s else s)
    ensures ApplyStep(LineStart(r), cur) == (if !done && r == rule then "\\" + s else cur)
  {
    FiresOnLeadByte(rule, s);
    if Fires(r, cur) {
      FiresOnLeadByte(r, cur);
    }
  }

  /**
   * A text with nothing to escape inside it whose front (its first byte, not
   * one after a newline) is a block marker
   * (a bullet, a setext underline, an ATX heading, a fence, a quote) gets
   * exactly one backslash, at the front: `===` becomes `\===`.
   */
  lemma AdvancedEscapeLineStart(s: Str, rule: LineRule)
    requires Inert(s) && Fires(rule, s)
    ensures AdvancedEscaped(s) == "\\" + s
  {
    var early := rule in {Dash, Plus, Equals, Heading};
    EarlyLineStart(s, rule);
    LateLineStart(s, rule, early);
  }

  /** The first six steps on such a text: the backslash is in front iff `rule` is one of theirs. */
  lemma EarlyLineStart(s: Str, rule: LineRule)
    requires Inert(s) && Fires(rule, s)
    ensures EarlyEscapes(s) == if rule in {Dash, Plus, Equals, Heading} then "\\" + s else s
  {
    FiresOnLeadByte(rule, s);
    QuietPrefixed(s);
    ReplaceAbsent(s, '\\', "\\\\");
    var o2 := ApplyStep(Prefix('*'), s);
    Untouched(Prefix('*'), s);
    var o3 := ApplyStep(LineStart(Dash), o2);
    LineStartOnce(Dash, rule, s, false, o2);
    var d3 := rule == Dash;
    var o4 := ApplyStep(LineStart(Plus), o3);
    LineStartOnce(Plus, rule, s, d3, o3);
    var d4 := d3 || rule == Plus;
    var o5 := ApplyStep(LineStart(Equals), o4);
    LineStartOnce(Equals, rule, s, d4, o4);
    var d5 := d4 || rule == Equals;
    LineStartOnce(Heading, rule, s, d5, o5);
  }

  /** The last seven steps finish the job: exactly one backslash, in front. */
  lemma LateLineStart(s: Str, rule: LineRule, done: bool)
    requires Inert(s) && Fires(rule, s)
    requires done <==> rule in {Dash, Plus, Equals, Heading}
    ensures LateEscapes(if done then "\\" + s else s) == "\\" + s
  {
    FiresOnLeadByte(rule, s);
    var t := "\\" + s;
    QuietPrefixed(s);
    var o6 := if done then t else s;
    var o7 := ApplyStep(Prefix('`'), o6);
    Untouched(Prefix('`'), o6);
    var o8 := ApplyStep(LineStart(Fence), o7);
    LineStartOnce(Fence, rule, s, done, o7);
    var d8 := done || rule == Fence;
    var o9 := ApplyStep(Prefix('['), o8);
    assert o8 == if d8 then t else s;
    Untouched(Prefix('['), o8);
    var o10 := ApplyStep(Prefix(']'), o9);
    Untouched(Prefix(']'), o9);
    var o11 := ApplyStep(LineStart(Quote), o10);
    LineStartOnce(Quote, rule, s, d8, o10);
    assert o11 == t;
    Untouched(Prefix('_'), t);
    Untouched(OrderedListDot, t);
  }

  // ----- minimalEscape -----

  predicate MinimalSpecial(c: Byte) { c == '\\' || c == '[' || c == ']' }

  /** The result of `minimalEscape`: a backslash before every backslash and bracket. */
  function MinimalEscaped(s: Str): Str
    decreases |s|
  {
    if s == [] then []
    else
      var c := s[|s| - 1];
      MinimalEscaped(s[..|s| - 1]) + (if MinimalSpecial(c) then ['\\', c] else [c])
  }

  /** The number of backslashes and brackets in `s`. */
  function MinimalSpecialCount(s: Str): nat
    decreases |s|
  {
    if s == [] then 0
    else MinimalSpecialCount(s[..|s| - 1]) + (if MinimalSpecial(s[|s| - 1]) then 1 else 0)
  }

  /** `minimalEscape`: one pass appending to `output`. */
  method MinimalEscape(input: Str) returns (output: Str)
    ensures output == MinimalEscaped(input)
  {
    output := [];
    var i := 0;
    while i < |input|
      invariant i <= |input|
      invariant output == MinimalEscaped(input[..i])
    {
      assert input[..i + 1][..i] == input[..i];
      var c := input[i];
      if c == '\\' || c == '[' || c == ']' {
        output := output + ['\\'];
      }
      output := output + [c];
      i := i + 1;
    }
    assert input[..i] == input;
  }

  /** `minimalEscape` adds exactly one byte per backslash or bracket. */
  lemma {:induction false} MinimalEscapeLength(s: Str)
    ensures |MinimalEscaped(s)| == |s| + MinimalSpecialCount(s)
    decreases |s|
  {
    if s != [] {
      MinimalEscapeLength(s[..|s| - 1]);
    }
  }

  lemma {:induction false} MinimalEscapedAppend(a: Str, b: Str)
    ensures MinimalEscaped(a + b) == MinimalEscaped(a) + MinimalEscaped(b)
    decreases |b|
  {
    if b != [] {
      var b' := b[..|b| - 1];
      MinimalEscapedAppend(a, b');
      var c := b[|b| - 1];
      var piece := if MinimalSpecial(c) then ['\\', c] else [c];
      assert (a + b)[..|a + b| - 1] == a + b';
      assert (a + b)[|a + b| - 1] == c;
      assert MinimalEscaped(a + b) == MinimalEscaped(a + b') + piece;
      assert MinimalEscaped(b) == MinimalEscaped(b') + piece;
    } else {
      assert a + b == a;
    }
  }

  /** Reading the output of `minimalEscape` gives back its input; only backslashes and brackets are escaped. */
  lemma {:induction false} MinimalEscapeRoundTrip(s: Str)
    ensures Unescape(MinimalEscaped(s)) == s
    ensures EscapesOnly(MinimalEscaped(s), {'\\', '[', ']'})
    decreases |s|
  {
    if s != [] {
      var c := s[0];
      var r := MinimalEscaped(s[1..]);
      MinimalEscapeRoundTrip(s[1..]);
      MinimalEscapedAppend([c], s[1..]);
      assert [c] + s[1..] == s;
      assert [c][..0] == [];
      var piece := if MinimalSpecial(c) then ['\\', c] else [c];
      assert MinimalEscaped([c]) == piece;
      assert MinimalEscaped(s) == piece + r;
      if MinimalSpecial(c) {
        assert (piece + r)[2..] == r;
      } else {
        assert (piece + r)[1..] == r;
      }
    }
  }
}

/**
 * `TurndownOptions`: the settings every rule and the pipeline read. The
 * escape function is one of the two escapers the library ships; the blank,
 * keep and default replacements are the library's own defaults and live
 * with the rule engine.
 */
module Options {

  import opened Strings
  import MarkdownEscape

  /** Which escape function `escapeFunction` holds. */
  datatype Escaper = AdvancedEscaper | MinimalEscaper

  datatype TurndownOptions = TurndownOptions(
    headingStyle: Str,        // "setext" or "atx"
    hr: Str,
    bulletListMarker: Str,
    codeBlockStyle: Str,      // "indented" or "fenced"
    fence: Str,
    emDelimiter: Str,
    strongDelimiter: Str,
    linkStyle: Str,           // "inlined" or "referenced"
    linkReferenceStyle: Str,  // "full", "collapsed" or "shortcut"
    br: Str,
    preformattedCode: bool,
    escaper: Escaper,
    keepTags: seq<Str>)

  /** The defaults the options constructor sets. */
  function Defaults(): TurndownOptions
  {
    TurndownOptions(
      "setext", "* * *", "*", "indented", "```", "_", "**", "inlined", "full", "  ",
      false, AdvancedEscaper, [])
  }

  /**
   * `escapeFunction(text)`. Whichever escaper is chosen, a Markdown reader
   * that takes a backslash as "the next byte literally" reads the text back.
   */
  function Escape(o: TurndownOptions, text: Str): (r: Str)
    ensures MarkdownEscape.Unescape(r) == text
    ensures o.escaper == MinimalEscaper ==> MarkdownEscape.EscapesOnly(r, {'\\', '[', ']'})
    ensures o.escaper == AdvancedEscaper ==> MarkdownEscape.EscapesOnly(r, MarkdownEscape.AdvancedEscapes)
  {
    match o.escaper
    case AdvancedEscaper =>
      MarkdownEscape.AdvancedEscapeRoundTrip(text);
      MarkdownEscape.AdvancedEscaped(text)
    case MinimalEscaper =>
      MarkdownEscape.MinimalEscapeRoundTrip(text);
      MarkdownEscape.MinimalEscaped(text)
  }
}

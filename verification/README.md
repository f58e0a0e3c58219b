# turndown.cpp conversion core, modelled in Dafny

turndown.cpp converts HTML to Markdown. A parser back-end turns the HTML into a tree. Then the converter does the following:

1. It collapses runs of white space in the text of the tree into an overlay: replacement texts and a set of omitted nodes.
2. It walks the tree. Each text node is escaped, and each element is converted by the first rule that claims it. The rule lists are the CommonMark rules plus the caller's own `addRule`, `keep` and `remove` rules.
3. It joins the pieces with newlines normalised between them.
4. It appends whatever the rules have collected, such as link references.
5. It encodes non-breaking spaces and trims the result.

This project models that core, one module per source file:

| module | file | models |
|---|---|---|
| `Strings`, `Wrappers` | strings.dfy, wrappers.dfy | bytes and byte strings; `repeatChar`; the newline trims; `std::to_string` and `std::stoi`; `Option` and `Result` |
| `Dom` | dom.dfy | the node tree the adapters expose, with a node named by its path from the root, plus the whitespace overlay |
| `Utf8Helpers` | utf8_helpers.dfy | the bit tests of `include/utf8_helpers.h` and the lenient UTF-8 decoder |
| `Utilities` | utilities.dfy | `decodeUtf8`; the white-space and tag tables; `trimStr`; the descendant searches; `isCodeNode` and `collectText` |
| `MarkdownEscape` | markdown_escape.dfy | `advancedEscape` and `minimalEscape` |
| `HtmlSerialize` | html_serialize.dfy | `escapeHtml`, `serializeNodeRecursive` and `serializeNode` |
| `NodeAnalysis` | node_analysis.dfy | the whole of `node.cpp`: code points, edge white space, sibling lookup, flanking white space, `isBlank`, `analyzeNode` and `encodeNbsp` |
| `CollapseWhitespace` | collapse_whitespace.dfy | the whitespace collapser: its walk, its loop as written and a corrected loop |
| `RulesEngine` | rules.dfy | the `Rules` class with its three lists, rule selection, and `defineCommonMarkRules` |
| `CommonMarkRules` | commonmark_rules.dfy | every built-in rule's filter and replacement, the sibling helpers and the reference store |
| `Options` | options.dfy | `TurndownOptions`, its defaults and the escape function |
| `Turndown` | turndown.dfy | `joinChunks`; the node walk; `runPipeline`; the `TurndownService` class with its lazily rebuilt rule cache |
| `Libxml2Adapter`, `TidyAdapter`, `GumboAdapter` | libxml2_adapter.dfy, tidy_adapter.dfy, gumbo_adapter.dfy | the string helpers of the back-ends: `<` escaping, entity decoding and the fallback tag-name parser |

The source's code form is kept where it matters:

- A loop in the source is a `method` with a `while` loop. Each such method is proved equal to a specification function, and the properties are proved about that function as lemmas. This covers the UTF-8 decoding, the escapes, the collapser, `findRule`, the blockquote, fence and backtick loops, `encodeNbsp`, `joinChunks` and the node walk.
- Objects whose fields the source updates are classes: `Rules`, the reference store, and `TurndownService`.

Strings are byte strings (`seq` of characters below 256). A node's identity, which is what the collapser's map and set are keyed by, is its path of child indices from the root.

## Model

| member | source | states |
|---|---|---|
| Utf8Helpers.IsAsciiLead | include/utf8_helpers.h:33-35 | true exactly when the byte is below 0x80 |
| Utf8Helpers.ExpectedLength | include/utf8_helpers.h:38-43 | 2 for lead bytes 0xC0–0xDF, 3 for 0xE0–0xEF, 4 for 0xF0–0xF7, and 1 for every other byte (ASCII, continuation bytes, 0xF8–0xFF) |
| Utf8Helpers.IsContinuation | include/utf8_helpers.h:46-48 | true exactly when 0x80 ≤ b ≤ 0xBF |
| Utf8Helpers.IsInvalidCodepoint | include/utf8_helpers.h:51-56 | for n ≤ 4, true exactly when cp is below `kMinValues[n]` (0x80, 0x800, 0x10000 for n = 2, 3, 4), is a surrogate 0xD800–0xDFFF, or is above 0x10FFFF |
| Utf8Helpers.LeadPayload | src/utilities.cpp:86 | the payload a lead byte contributes has 5, 4 or 3 bits for a 2-, 3- or 4-byte sequence |
| Utf8Helpers.ContinuationPayload | src/utilities.cpp:92 | a continuation byte contributes six bits |
| Utf8Helpers.DecodeStage | src/utilities.cpp:69-101 | every decoding step yields a slice that starts at the current byte, is 1 to 4 bytes long and lies inside the text |
| Utf8Helpers.DecodeAt | src/utilities.cpp:69-101 | the character read at byte i starts at i, is 1 to 4 bytes long and lies inside the text |
| Utf8Helpers.DecodeAtFallback | src/utilities.cpp:73-100 | a one-byte slice holds the lead byte as its code point; a longer slice has exactly the length its lead byte announces, is followed by continuation bytes, and holds a valid scalar value (not overlong, not a surrogate, at most 0x10FFFF) |
| Utf8Helpers.DecodeStageFallback | src/utilities.cpp:81-100 | the same fallback property for every stage of the continuation loop |
| Utf8Helpers.DecodeFromTiles | src/utilities.cpp:103-107 | the slices read from byte i on tile the bytes i .. end, and each is what the decoder reads at its own start |
| Utf8Helpers.DecodeTiles | src/utilities.cpp:103-107 | the whole output tiles the input (consecutive starts, lengths 1–4, no byte skipped), is empty exactly for empty input, and each slice is what the decoder reads at its start |
| Utf8Helpers.TilingLength | src/utilities.cpp:103-107 | the slice lengths of a tiling add up to the byte length it covers |
| Utf8Helpers.DecodeTwoByte | src/utilities.cpp:85-100 | a lead byte 0xC2–0xDF followed by a continuation byte decodes to one two-byte character with code point (lead − 0xC0)·64 + (cont − 0x80) |
| Utf8Helpers.DecodeAtLocal | src/utilities.cpp:69-101 | decoding reads only the bytes of the slice: a substring that contains them decodes the same character, shifted |
| Utf8Helpers.DecodesFromUnique | src/utilities.cpp:103-107 | the decoder's output is the only slice sequence in which each slice is what the decoder reads where the previous one ends |
| Utf8Helpers.TilingBounds | src/utilities.cpp:103-107 | every slice of a tiling lies inside the tiled range |
| Utf8Helpers.DecodeWindow | src/utilities.cpp:103-107 | the bytes between two slice boundaries decode on their own to the slices between them, shifted |
| Utilities.DecodeUtf8 | src/utilities.cpp:65-110 | the index loop returns exactly the decoding of the text, and the result tiles the input |
| Utilities.UnicodeWhitespaceTable | src/utilities.cpp:253-280 | `isUnicodeWhitespace` holds exactly for 0x09–0x0D, 0x20 and the twenty listed separators (NEL, NBSP, U+1680, U+2000–U+200A, U+2028, U+2029, U+202F, U+205F, U+3000) |
| Utilities.FirstNonWs | src/utilities.cpp:364-367 | the index of the first non-whitespace code point, or the count when all are whitespace |
| Utilities.LastNonWs | src/utilities.cpp:371-374 | the index of the last non-whitespace code point, or −1 when all are whitespace |
| Utilities.TrimRange | src/utilities.cpp:359-378 | the kept byte range lies inside the text |
| Utilities.TrimStr | src/utilities.cpp:359-378 | the result is the contiguous byte range `TrimRange` names |
| Utilities.TrimBounds | src/utilities.cpp:364-377 | when something is kept, the first kept code point starts before the last kept one ends, inside the text |
| Utilities.TrimRangeAt | src/utilities.cpp:364-377 | the kept bytes run from the start of the first non-whitespace code point to the end of the last one |
| Utilities.TrimWindow | src/utilities.cpp:359-378 | the kept bytes decode to exactly the kept code points of the input |
| Utilities.DecodeSubrange | src/utilities.cpp:359-378 | the bytes of code points f..l of a text decode on their own to those same code points |
| Utilities.TrimStrEnds | src/utilities.cpp:359-378 | `trimStr` returns "" exactly when every code point is whitespace; otherwise its first and last code points are not whitespace |
| Utilities.TrimStrOfTrimmed | src/utilities.cpp:359-378 | a text whose first and last code points are not whitespace is its own trim |
| Utilities.TrimStrIdempotent | src/utilities.cpp:359-378 | trimming twice equals trimming once |
| Utilities.HasDescendantWithTagMeans | src/utilities.cpp:123-129 | `hasDescendantWithTag` holds exactly when the node is an element with a strict descendant carrying one of the tags; the node's own tag plays no part |
| Utilities.HasDescendantWithTagSound | src/utilities.cpp:123-129 | a positive answer names a strict descendant with one of the tags |
| Utilities.HasDescendantWithTagComplete | src/utilities.cpp:123-129 | every element with such a strict descendant gets a positive answer |
| Utilities.IsCodeNodeMeans | src/utilities.cpp:316-323 | `isCodeNode` holds exactly when the node or one of its ancestors is a `<code>` element |
| Utilities.CodeNodeFrom | src/utilities.cpp:316-323 | a `<code>` element on the path makes every node below it a code node |
| Utilities.CodeNodeWitness | src/utilities.cpp:316-323 | a code node has a `<code>` element on its path, itself included |
| Utilities.CollectText | src/utilities.cpp:132-162 | an omitted node gives ""; a text node gives its replacement when it has one and its own text otherwise; a comment gives "" |
| Utilities.CollectTextPlain | src/utilities.cpp:132-162 | without an overlay, the collected text of a subtree does not depend on its position |
| Strings.ToLower | src/gumbo_adapter.cpp:268-270 | `tolower` in the C locale: A–Z move up by 32, every other byte is unchanged |
| Strings.Lower | src/libxml2_adapter.cpp:103-109 | same length, and every byte is the lowered input byte |
| Strings.LowerIdempotent | src/libxml2_adapter.cpp:103-109 | the result has no upper-case letter, so lowering twice is lowering once |
| Strings.LowerInPlace | src/gumbo_adapter.cpp:268-270 | lowering a buffer in place leaves `Lower` of its old contents |
| Strings.Repeat | src/utilities.cpp:471-474 | `repeatChar`: n copies of the byte |
| Strings.LeadingNewlines | src/turndown.cpp:49-55 | the length of the maximal CR/LF run at the front |
| Strings.TrailingNewlines | src/turndown.cpp:58-64 | the length of the maximal CR/LF run at the back |
| Strings.TrimLeadingNewlines | src/turndown.cpp:49-55 | the suffix after the maximal leading CR/LF run; it does not start with CR or LF |
| Strings.TrimTrailingNewlines | src/turndown.cpp:58-64 | the prefix before the maximal trailing CR/LF run; it does not end with CR or LF |
| Strings.TrimNewlinesEnds | src/commonmark_rules.cpp:110-124 | trimming both ends gives a contiguous slice of the input that neither starts nor ends with CR or LF |
| Strings.NatToString | src/commonmark_rules.cpp:230 | `std::to_string` of a natural number is a non-empty run of decimal digits |
| Strings.Stoi | src/commonmark_rules.cpp:229 | `std::stoi` succeeds only with a value inside the 32-bit `int` range |
| Strings.DigitsValueOfNat | src/commonmark_rules.cpp:230 | the digits of a natural number read back as that number |
| Strings.StoiOfIntToString | src/commonmark_rules.cpp:229-230 | `std::stoi(std::to_string(n)) == n` for every `int` |
| Dom.ChildPath | include/dom_adapter.h:74-76 | a child path names a node exactly when its parent does and the index is in range, and it names that child |
| Dom.Attribute | include/dom_adapter.h:86 | a non-element has no attributes |
| Dom.FirstValue | include/dom_adapter.h:86 | the value of the first attribute with the name, or "" when there is none |
| Dom.Parent | include/dom_adapter.h:72-74 | a node has a parent exactly when it is not the root, and the parent drops the last index |
| Dom.NextSibling | include/dom_adapter.h:72-74 | a next sibling, when there is one, is a valid node one index further under the same parent |
| Dom.FirstChild | include/dom_adapter.h:72-74 | a first child, when there is one, is the valid node at index 0 below |
| GumboAdapter.LookupTagName | src/gumbo_adapter.cpp:251-272 | definition: "" for a non-element, the normalized name for a known tag, and for an unknown tag the name parsed from its source text |
| GumboAdapter.GumboHasTag | src/gumbo_adapter.cpp:274-277 | definition: an element whose looked-up name equals the tag exactly |
| GumboAdapter.ParseUnknownTagName | src/gumbo_adapter.cpp:257-271 | the skip loop, the scanning loop and the in-place lowering return exactly the name the specification function gives |
| GumboAdapter.NameStartSkips | src/gumbo_adapter.cpp:259-260 | `find_first_not_of("< /")`: every byte skipped is `<`, space or `/`, and the byte found is none of them |
| GumboAdapter.NameEndScans | src/gumbo_adapter.cpp:261-266 | the name ends at the first whitespace, `/` or `>` |
| GumboAdapter.NameFromOriginalShape | src/gumbo_adapter.cpp:257-271 | the name is lower case and has no whitespace, `/` or `>`; it is empty exactly when nothing but `<`, spaces and `/` is there or the first other byte already ends the name |
| Libxml2Adapter.Lowercase | src/libxml2_adapter.cpp:103-109 | `lowercase` copies and lowers: the result is `Lower` of the input |
| Libxml2Adapter.EscapeNonTagAngleBrackets | src/libxml2_adapter.cpp:115-137 | definition: byte by byte, a `<` not followed by a letter, `/`, `!` or `?` (or at the very end) becomes "&lt;"; every other byte is copied |
| Libxml2Adapter.EscapeAngles | src/libxml2_adapter.cpp:115-137 | the loop returns exactly the specified escaping: a `<` followed by a letter, `/`, `!` or `?` is kept, every other `<` (one at the end included) becomes "&lt;", and every other byte is copied in order |
| Libxml2Adapter.EscapedLength | src/libxml2_adapter.cpp:115-137 | output length = input length + 3 × the number of rewritten `<` |
| Libxml2Adapter.EscapeUndone | src/libxml2_adapter.cpp:115-137 | on input without `&`, decoding the entities of the output gives the input back: nothing is lost or reordered |
| TidyAdapter.Token | src/tidy_adapter.cpp:57-84 | each step consumes 1 to all remaining bytes and produces no more bytes than it consumes |
| TidyAdapter.DecodeEntities | src/tidy_adapter.cpp:53-86 | definition: one left-to-right pass that replaces `&lt;`, `&gt;`, `&amp;`, `&quot;`, `&apos;` and `&nbsp;` (as the UTF-8 NBSP) by what they stand for, never re-reading its own output; any other `&` is kept |
| TidyAdapter.DecodeHtmlEntities | src/tidy_adapter.cpp:53-86 | the index loop returns exactly the specified left-to-right decoding |
| TidyAdapter.ReadEntity | src/tidy_adapter.cpp:58-80 | the entity tests in the source's order; an `&` that starts none of them is kept as one byte |
| TidyAdapter.DecodeShrinks | src/tidy_adapter.cpp:53-86 | the output is never longer than the input |
| TidyAdapter.DecodeWithoutAmpersand | src/tidy_adapter.cpp:78-83 | text without `&` is copied unchanged |
| TidyAdapter.DecodeByteFirst | src/tidy_adapter.cpp:81-83 | a byte other than `&` is copied, whatever follows |
| TidyAdapter.DecodeLtFirst | src/tidy_adapter.cpp:60-62 | `&lt;` decodes to `<` |
| TidyAdapter.DecodeGtFirst | src/tidy_adapter.cpp:63-65 | `&gt;` decodes to `>` |
| TidyAdapter.DecodeAmpFirst | src/tidy_adapter.cpp:66-68 | `&amp;` decodes to `&` |
| TidyAdapter.DecodeQuotFirst | src/tidy_adapter.cpp:69-71 | `&quot;` decodes to `"` |
| TidyAdapter.DecodeAposFirst | src/tidy_adapter.cpp:72-74 | `&apos;` decodes to `'` |
| TidyAdapter.DecodeNbspFirst | src/tidy_adapter.cpp:75-77 | `&nbsp;` decodes to the bytes C2 A0 |
| TidyAdapter.NoRescan | src/tidy_adapter.cpp:57-85 | a single pass with no re-scan: "&amp;lt;" followed by text without `&` gives "&lt;" and that text |
| Options.Escape | src/utilities.cpp:466-468 | whichever escaper is configured, removing each escaping backslash gives the text back; the minimal escaper escapes only `\`, `[` and `]`, the advanced one only its own set |
| MarkdownEscape.EscapeChar | src/utilities.cpp:383-394 | the `escape_char` loop replaces every occurrence of the needle by the replacement and copies every other byte |
| MarkdownEscape.ReplaceAppend | src/utilities.cpp:383-394 | replacing in a concatenation is concatenating the replacements |
| MarkdownEscape.ReplaceAbsent | src/utilities.cpp:383-394 | a byte that does not occur is not replaced |
| MarkdownEscape.LeadingRunStops | src/utilities.cpp:410-411 | the run counted at the front is the maximal run of that byte |
| MarkdownEscape.LeadingDigitsStop | src/utilities.cpp:440-443 | the digit run counted at the front is the maximal run of digits |
| MarkdownEscape.FiresOnLeadByte | src/utilities.cpp:401-434 | a line-start test only fires on text that starts with its marker byte |
| MarkdownEscape.AdvancedEscaped | src/utilities.cpp:382-450 | definition: the thirteen substitutions and front-of-text insertions, in the source's order |
| MarkdownEscape.AdvancedEscape | src/utilities.cpp:382-450 | rewriting `output` step by step gives exactly the thirteen steps in the source's order: backslash, `*`, leading `-`, leading `+ `, leading `=`, 1–6 `#` and a space, backtick, leading `~~~`, `[`, `]`, leading `>`, `_`, then the dot of a leading `digits. ` |
| MarkdownEscape.EscapeLineStart | src/utilities.cpp:401-434 | each line-start test inserts one backslash at the front exactly when its condition holds |
| MarkdownEscape.InsertOrderedListBackslash | src/utilities.cpp:438-447 | a backslash goes before the dot exactly when the text starts with digits followed by ". " |
| MarkdownEscape.DoubledBackslashes | src/utilities.cpp:398 | doubling backslashes first is undone by reading backslash escapes, and leaves only escaped backslashes |
| MarkdownEscape.PrefixedChar | src/utilities.cpp:399-436 | prefixing every occurrence of a byte no earlier step escaped is undone by the reading, so inserted backslashes are never doubled |
| MarkdownEscape.LeadingBackslash | src/utilities.cpp:401-434 | a backslash inserted at the front of a line is undone by the reading |
| MarkdownEscape.OrderedListBackslash | src/utilities.cpp:438-447 | the backslash before the ordered-list dot is undone by the reading |
| MarkdownEscape.StepUndone | src/utilities.cpp:382-450 | every step after the first keeps the reading unchanged and adds its byte to the escaped set |
| MarkdownEscape.AdvancedEscapeRoundTrip | src/utilities.cpp:382-450 | reading the output of `advancedEscape` gives back the input, and every backslash in it escapes one of the bytes the steps handle |
| MarkdownEscape.EarlyUndone | src/utilities.cpp:398-421 | the first six steps are undone by the reading |
| MarkdownEscape.LateUndone | src/utilities.cpp:423-447 | the last seven steps keep the reading unchanged |
| MarkdownEscape.Untouched | src/utilities.cpp:382-450 | a step that finds nothing to escape leaves the text unchanged |
| MarkdownEscape.AdvancedEscapeNoLineStart | src/utilities.cpp:382-450 | a text with no special byte and no block marker at its front (bytes after a newline do not count as a front: "a\n- b" gains no backslash) changes at most by the ordered-list step ("1984. by George Orwell" becomes "1984\. by George Orwell"; "#This is not # a heading" is unchanged) |
| MarkdownEscape.LineStartOnce | src/utilities.cpp:401-434 | only the line-start rule that fires acts, and only once, even after an earlier rule prefixed the text |
| MarkdownEscape.AdvancedEscapeLineStart | src/utilities.cpp:401-434 | a text with no special byte whose front (its first byte, not the first byte after a newline) is a block marker (bullet, `+ `, setext underline, ATX heading, `~~~`, `>`) gets exactly one backslash, at the front ("===" becomes "\===") |
| MarkdownEscape.EarlyLineStart | src/utilities.cpp:398-421 | after the first six steps the backslash is in front exactly when the marker is one theirs handle |
| MarkdownEscape.LateLineStart | src/utilities.cpp:423-447 | the last seven steps leave exactly one backslash in front |
| MarkdownEscape.MinimalEscaped | src/utilities.cpp:454-463 | definition: a backslash before every backslash, `[` and `]`; every other byte is copied |
| MarkdownEscape.MinimalEscape | src/utilities.cpp:454-463 | the loop puts a backslash before every backslash and bracket and copies every other byte |
| MarkdownEscape.MinimalEscapeLength | src/utilities.cpp:454-463 | the added length equals the number of backslashes and brackets |
| MarkdownEscape.MinimalEscapedAppend | src/utilities.cpp:454-463 | minimal escaping of a concatenation is the concatenation of the escapings |
| MarkdownEscape.MinimalEscapeRoundTrip | src/utilities.cpp:454-463 | reading the output gives back the input, and only `\`, `[` and `]` are escaped |
| HtmlSerialize.EscapeHtml | src/utilities.cpp:169-189 | the loop rewrites `&`, `<` and `>` always, rewrites `"` and `'` only in attribute mode, and copies everything else |
| HtmlSerialize.EscapedHtmlAppend | src/utilities.cpp:169-189 | escaping a concatenation is concatenating the escapings |
| HtmlSerialize.EscapedHtmlSafe | src/utilities.cpp:169-189 | no raw `<` or `>` is left, and in attribute mode no quote is left either |
| HtmlSerialize.EscapedHtmlRoundTrip | src/utilities.cpp:169-189 | the tidy back-end's entity decoder reads escaped text back exactly, and attribute values too when they have no apostrophe |
| HtmlSerialize.SerializeInto | src/utilities.cpp:192-243 | appends exactly the HTML of the subtree: escaped text, comments in `<!-- -->`, the children of a document, and for an element the start tag with its escaped attributes, then (unless void) the children and the end tag |
| HtmlSerialize.SerializeStartTag | src/utilities.cpp:215-228 | `<`, the tag, its attributes and `>` |
| HtmlSerialize.SerializeAttrsInto | src/utilities.cpp:219-225 | the attribute loop appends every attribute in order |
| HtmlSerialize.SerializeAttr | src/utilities.cpp:220-224 | ` name="value"` with the value escaped in attribute mode |
| HtmlSerialize.SerializeChildrenInto | src/utilities.cpp:209-211 | the child loop appends the HTML of every child in order |
| HtmlSerialize.SerializeNode | src/utilities.cpp:477-481 | `serializeNode` returns exactly the HTML of the subtree |
| HtmlSerialize.SerializedMarkup | src/utilities.cpp:192-243 | with no `<` in tag or attribute names, every `<` in the output opens a tag or a comment or was inside a comment: text and attribute values never contribute one |
| HtmlSerialize.SerializedChildrenMarkup | src/utilities.cpp:209-211 | the same count for the children of a node |
| NodeAnalysis.DecodeCodepoint | src/node.cpp:24-65 | false exactly past the end of the text; otherwise the slice is the one the decoder reads at that index |
| NodeAnalysis.ToCodepoints | src/node.cpp:68-80 | the loop returns exactly the decoding `decodeUtf8` gives, so it stops only at the end of the input and tiles it the same way |
| NodeAnalysis.EdgeWhitespace | src/node.cpp:93-142 | definition: the leading and trailing runs of Unicode white space of the decoded text, each gathered whole, then only its ASCII code points, then only its non-ASCII ones; no trailing run when the whole text is white space |
| NodeAnalysis.ComputeEdgeWhitespace | src/node.cpp:93-142 | the result is exactly the specified edge split: the leading whitespace run appended from the front, the trailing run prepended from the back, each also sorted into ASCII and non-ASCII parts |
| NodeAnalysis.CollectLeading | src/node.cpp:119-125 | the front loop gathers every byte of the run and its ASCII and non-ASCII parts, in order |
| NodeAnalysis.CollectTrailing | src/node.cpp:133-139 | the back loop gathers every byte of the run and its ASCII and non-ASCII parts, in order |
| NodeAnalysis.GatherTiling | src/node.cpp:121-125 | the bytes of a tiling run are the text between its ends |
| NodeAnalysis.GatherPartition | src/node.cpp:101-112 | the ASCII and non-ASCII parts share out the bytes of the run: the multisets and the byte lengths add up |
| NodeAnalysis.TilingSplit | src/node.cpp:93-142 | a text is the bytes before slice f, the bytes from f to the end of slice l, and the bytes after l |
| NodeAnalysis.EdgeWhitespaceSplit | src/node.cpp:93-142 | leading + `trimStr(text)` + trailing is the text; an all-whitespace text is all leading and has no trailing part; each edge splits into its ASCII and non-ASCII bytes |
| NodeAnalysis.EdgesAllWhitespace | src/node.cpp:127-130 | when every code point is whitespace, the leading part is the whole text and the trailing part is empty |
| NodeAnalysis.EdgesAround | src/node.cpp:118-139 | otherwise the leading run, the trimmed text and the trailing run make up the text, and the trimmed text is not empty |
| NodeAnalysis.WsSliceBytes | src/node.cpp:122-124 | an ASCII whitespace code point is its own single byte; any other whitespace code point is spelled with bytes at or above 0x80 |
| NodeAnalysis.GatherBytes | src/node.cpp:101-112 | the ASCII part holds only ASCII whitespace bytes, and the non-ASCII part no byte below 0x80 |
| NodeAnalysis.EdgeRunsWs | src/node.cpp:118-139 | both edge runs consist of whitespace slices the decoder reads |
| NodeAnalysis.EdgeWhitespaceBytes | src/node.cpp:101-112 | the ASCII parts are ASCII whitespace, and the non-ASCII parts have no byte below 0x80 |
| NodeAnalysis.EncodedNbspStep | src/node.cpp:203-211 | one turn of the loop: an NBSP gives "&nbsp;" and skips two bytes, any other byte is copied |
| NodeAnalysis.EncodedNbsp | src/node.cpp:199-213 | definition: each `C2 A0` byte pair becomes "&nbsp;", scanning from the left; every other byte is copied |
| NodeAnalysis.EncodeNbsp | src/node.cpp:199-213 | the loop returns exactly the specified encoding: every C2 A0 pair becomes "&nbsp;" and every other byte is kept |
| NodeAnalysis.EncodedNbspFirst | src/node.cpp:199-213 | the encoding starts with `&` for an NBSP, and with the first byte otherwise |
| NodeAnalysis.NoNbspJoin | src/node.cpp:199-213 | two NBSP-free texts joined without a split pair at the seam are NBSP-free |
| NodeAnalysis.EncodedNbspClean | src/node.cpp:199-213 | no C2 A0 pair survives the encoding |
| NodeAnalysis.EncodedNbspUnchanged | src/node.cpp:199-213 | text without an NBSP is left as it is |
| NodeAnalysis.EncodedNbspIdempotent | src/node.cpp:199-213 | encoding twice is encoding once |
| NodeAnalysis.EncodedNbspUndone | src/node.cpp:199-213 | on text without `&`, decoding the entities of the encoding gives the text back |
| NodeAnalysis.AdjacentSibling | src/node.cpp:167-188 | a neighbour, when there is one, is a valid node under the same parent as the node |
| NodeAnalysis.FindAdjacentSibling | src/node.cpp:167-188 | the loop with `previous` and `found` returns exactly the neighbour on the requested side, none when the parent is not an element |
| NodeAnalysis.SiblingsInverse | src/node.cpp:167-188 | the right neighbour of the left neighbour is the node, and the other way round |
| NodeAnalysis.IsFlankedByWhitespace | src/node.cpp:264-284 | definition: false with no sibling on that side, for a block element or (with preformatted code) a code element, and for a node other than an element or text; else whether the sibling's text ends (left) or starts (right) with an ASCII space, false for empty text |
| NodeAnalysis.Flanking | src/node.cpp:216-240 | definition: the flanks of the node at `p`, skipped for a block or (with preformatted code) a code node, with the sibling tests of both sides |
| NodeAnalysis.FlankingOf | src/node.cpp:221-239 | definition: nothing when skipped or the text is empty; else the edge runs, each cut to its non-ASCII part when it has ASCII white space and that side is flanked, then NBSP-encoded |
| NodeAnalysis.FlankKept | src/node.cpp:230-238 | a flank keeps all of its edge, or only the non-ASCII part when the neighbour supplies a space; after NBSP encoding it has no NBSP and decodes back to those bytes |
| NodeAnalysis.FlankingMeans | src/node.cpp:216-240 | the flanks have no NBSP and decode to whitespace taken from the node's edges; blocks, and code nodes under `preformattedCode`, get none; a side whose neighbour supplies an ASCII space keeps no ASCII byte; with neither side flanked, the decoded flanks around `trimStr` of the text give the text back |
| NodeAnalysis.FlankingOfMeans | src/node.cpp:216-240 | the same facts for the flanking computation on a given text with given neighbour answers, empty text included |
| NodeAnalysis.IsBlank | src/node.cpp:243-261 | definition: not a void or meaningful-when-blank element, only Unicode white space in the collected text, and no void or meaningful-when-blank descendant |
| NodeAnalysis.CheckBlank | src/node.cpp:243-261 | the scan over the decoded text returns exactly `isBlank` |
| NodeAnalysis.IsBlankMeans | src/node.cpp:243-261 | a node is blank exactly when `trimStr` leaves nothing of its text and neither it nor, for an element, any strict descendant is void or meaningful when blank |
| NodeAnalysis.AnalyzeNode | src/node.cpp:287-299 | a blank node is neither void nor meaningful when blank and has no such descendant; a block, and a code node under `preformattedCode`, has no flanking whitespace; the flanks have no NBSP |
| CollapseWhitespace.CollapseRuns | src/collapse_whitespace.cpp:68 | definition: each maximal run of space, CR, LF and tab becomes one space |
| CollapseWhitespace.SkipRun | src/collapse_whitespace.cpp:68 | dropping a leading run of `[ \r\n\t]` gives a suffix that does not start with one of them, and a shorter one when there was a run |
| CollapseWhitespace.CleanJoin | src/collapse_whitespace.cpp:68 | two clean texts (no tab, CR, LF or double space) joined without two spaces at the seam are clean |
| CollapseWhitespace.CollapseRunsClean | src/collapse_whitespace.cpp:68 | after every run of `[ \r\n\t]+` becomes one space, no tab, CR or LF and no two consecutive spaces remain; the result starts with a space exactly when the text starts with whitespace |
| CollapseWhitespace.WordsAppend | src/collapse_whitespace.cpp:68 | the non-whitespace bytes of a concatenation are those of its parts |
| CollapseWhitespace.CollapseRunsWords | src/collapse_whitespace.cpp:68 | collapsing only touches whitespace: every other byte is kept, in order |
| CollapseWhitespace.CollapseRunsOfClean | src/collapse_whitespace.cpp:68 | clean text is its own collapse |
| CollapseWhitespace.CollapseRunsIdempotent | src/collapse_whitespace.cpp:68 | collapsing twice is collapsing once |
| CollapseWhitespace.IsPreNode | src/collapse_whitespace.cpp:15-20 | definition: a `pre` element, or a `code` element when code counts as preformatted |
| CollapseWhitespace.TextVisit | src/collapse_whitespace.cpp:66-90 | definition: drop the leading space when nothing is retained before it (or what is ends in a space) and leading space is not kept; an empty result omits the node, else it is stored and becomes the previous text |
| CollapseWhitespace.ElementVisit | src/collapse_whitespace.cpp:91-116 | an element is never omitted; its visit at most pops a trailing space, and either clears the previous text or keeps it |
| CollapseWhitespace.PopPrevTrailingSpace | src/collapse_whitespace.cpp:99-108 | the `pop_back` statements give exactly the specified popping of the previous text's trailing space |
| CollapseWhitespace.Visit | src/collapse_whitespace.cpp:66-121 | definition: the text branch for text, the element branch for elements, and an omission for any other node |
| CollapseWhitespace.VisitNode | src/collapse_whitespace.cpp:66-121 | the body of the loop, up to the move, gives exactly the specified visit of the node, omission flag included |
| CollapseWhitespace.VisitTextNode | src/collapse_whitespace.cpp:66-90 | the text branch gives exactly the specified text visit of the collapsed text |
| CollapseWhitespace.PrevEndedWithSpace | src/collapse_whitespace.cpp:70-77 | true exactly when the previous retained text has a replacement that ends in a space |
| CollapseWhitespace.VisitElementNode | src/collapse_whitespace.cpp:91-116 | the element branch gives exactly the specified element visit |
| CollapseWhitespace.TextVisitMeans | src/collapse_whitespace.cpp:66-90 | the stored replacement is the collapsed text, without its leading space exactly when there is no previous retained text (or it ends in a space) and `keepLeadingWhitespace` is false; it is clean and non-empty and becomes the previous text; a text that ends up empty is omitted and leaves the previous text and the replacements alone |
| CollapseWhitespace.VisitText | src/collapse_whitespace.cpp:66-68 | a text node is visited with its own text, collapsed, which is clean |
| CollapseWhitespace.PopTrailingSpaceMeans | src/collapse_whitespace.cpp:98-110 | when the previous retained text ends in a space exactly that space goes, and the node is omitted when nothing is left while its now-empty entry stays; otherwise nothing changes |
| CollapseWhitespace.AfterRemoval | src/collapse_whitespace.cpp:42-48 | the next sibling, else the parent; nothing only at the root |
| CollapseWhitespace.NextNode | src/collapse_whitespace.cpp:23-39 | the node the stepper moves to, when there is one, is a node of the tree |
| CollapseWhitespace.VisitGood | src/collapse_whitespace.cpp:66-121 | a visit keeps the overlay well formed: replacements only for text nodes, all clean, an empty one only for an omitted node, omissions only of non-elements, nothing inside a pre node |
| CollapseWhitespace.AfterRemovalOutsidePre | src/collapse_whitespace.cpp:42-48 | leaving a node outside every pre subtree lands outside them too |
| CollapseWhitespace.NextNodeOutsidePre | src/collapse_whitespace.cpp:23-31 | the stepper never moves into a pre node's subtree, so text inside one never reaches the overlay |
| CollapseWhitespace.Step | src/collapse_whitespace.cpp:65-126 | definition: one turn of the loop; after an omission it moves to `afterRemoval`, keeping `prevNode` as the source does or (corrected) setting it to the omitted node; after a kept node it moves to `nextNode` with `prevNode` the node |
| CollapseWhitespace.StepGood | src/collapse_whitespace.cpp:65-126 | one turn of the loop, as written or corrected, keeps the walk well formed |
| CollapseWhitespace.Start | src/collapse_whitespace.cpp:59-63 | the walk starts at the first child of the root with nothing recorded |
| CollapseWhitespace.RunAsWritten | src/collapse_whitespace.cpp:65-126 | the walk as written stays well formed after any number of turns |
| CollapseWhitespace.RunAsWrittenStable | src/collapse_whitespace.cpp:65 | once the loop has stopped, it stays stopped |
| CollapseWhitespace.CollapseWhitespaceAsWritten | src/collapse_whitespace.cpp:53-140 | the source's loop run for at most a given number of turns: an empty overlay for a null or pre root or one without children; otherwise it reports whether the loop stopped, and when it did, the overlay is the walk's, with the last trailing space popped, and equals the corrected collapser's overlay `Collapse`; the overlay is always well formed |
| CollapseWhitespace.NodesBeforeBound | src/collapse_whitespace.cpp:23-39 | the nodes before a node in document order, and its subtree, all lie in the tree |
| CollapseWhitespace.AfterRemovalTracked | src/collapse_whitespace.cpp:42-48 | leaving a node sideways moves forward in document order, and leaving it upwards goes to its parent |
| CollapseWhitespace.StepTracked | src/collapse_whitespace.cpp:65-126 | with `prevNode` set to the omitted node, each turn moves forward in document order or up the tree: the measure for termination |
| CollapseWhitespace.CollapseFrom | src/collapse_whitespace.cpp:65-138 | the corrected walk terminates and records a well-formed overlay |
| CollapseWhitespace.Collapse | src/collapse_whitespace.cpp:53-140 | an empty overlay for a pre root or one without children; otherwise a well-formed overlay: clean replacements for text nodes only, omissions of non-elements only, nothing inside a pre node |
| CollapseWhitespace.CollapseWhitespace | src/collapse_whitespace.cpp:53-140 | the corrected loop (its `prevNode` set to the omitted node) returns exactly the overlay `Collapse` specifies, and it terminates |
| CollapseWhitespace.CorrectedTurn | src/collapse_whitespace.cpp:65-126 | one turn of the corrected loop, as statements, is exactly one corrected step |
| CollapseWhitespace.VisitExampleText | src/collapse_whitespace.cpp:79-87 | on `<div><p> </p></div>` the whitespace-only text is omitted, since nothing is retained before it |
| CollapseWhitespace.ExampleMoves | src/collapse_whitespace.cpp:23-48 | on that tree, after the omission `afterRemoval` returns the paragraph while `prevNode` is still the paragraph, so the stepper goes down to the text again |
| CollapseWhitespace.CyclesOn | src/collapse_whitespace.cpp:65-126 | on any tree whose walk as written takes those four turns, the walk repeats them forever |
| CollapseWhitespace.AsWrittenCycles | src/collapse_whitespace.cpp:83-87 | on `<div><p> </p></div>` the loop as written never stops |
| CollapseWhitespace.CorrectedStops | src/collapse_whitespace.cpp:83-87 | the corrected walk stops on the same tree, omitting the text and recording nothing else |
| CollapseWhitespace.ElementVisitSettles | src/collapse_whitespace.cpp:91-116 | visiting an element a second time right after the first leaves the bookkeeping as the first visit left it |
| CollapseWhitespace.SettledOmit | src/collapse_whitespace.cpp:79-87 | recording an omission does not change what visiting an element does |
| CollapseWhitespace.OmitAgain | src/collapse_whitespace.cpp:66-90 | a node omitted once is omitted again, with the same bookkeeping, whatever other omissions were recorded in between |
| CollapseWhitespace.OmittedChildrenOmit | src/collapse_whitespace.cpp:79-87 | children that are omitted stay omitted after a further omission is recorded |
| CollapseWhitespace.OmittedChildrenNext | src/collapse_whitespace.cpp:79-87 | an omitted child joins the run of omitted children before it |
| CollapseWhitespace.LoopingStep | src/collapse_whitespace.cpp:23-48 | back at an element with `prevNode` still that element after every child was omitted, the loop has not stopped, and one turn later it is in the same situation: it goes down again and omits the same children |
| CollapseWhitespace.StepKeptAgrees | src/collapse_whitespace.cpp:91-125 | after a kept node the loop as written and the corrected loop take the same turn to the same walk |
| CollapseWhitespace.KeptAway | src/collapse_whitespace.cpp:42-48 | leaving a kept node sideways or upwards keeps the record of how the walk arrived |
| CollapseWhitespace.StepOmittedAgrees | src/collapse_whitespace.cpp:79-87 | after an omitted node the loop as written either starts its endless loop or is at the corrected walk's node with the same bookkeeping; the stale `prevNode` matters only when the omitted node was the last child and all its siblings were omitted |
| CollapseWhitespace.OmittedToParent | src/collapse_whitespace.cpp:42-48 | omitting a last child sends both walks back up to the parent, where the loop as written either loops or agrees with the corrected walk |
| CollapseWhitespace.OmittedToSibling | src/collapse_whitespace.cpp:42-48 | omitting a child with a next sibling sends both walks to that sibling, with the same bookkeeping |
| CollapseWhitespace.RunCorrected | src/collapse_whitespace.cpp:65-126 | after any number of turns the corrected walk is still well tracked, and finishing it from there gives `Collapse` |
| CollapseWhitespace.TracksStep | src/collapse_whitespace.cpp:65-126 | one more turn of both walks keeps the loop as written either looping or agreeing with the corrected walk |
| CollapseWhitespace.RunsNext | src/collapse_whitespace.cpp:65 | running one more turn is one more step of each walk, or no change once it stopped |
| CollapseWhitespace.TracksAtStart | src/collapse_whitespace.cpp:59-63 | at the start the two walks agree |
| CollapseWhitespace.AsWrittenTracksCorrected | src/collapse_whitespace.cpp:65-126 | after any number of turns the loop as written is caught in its endless loop, or is at the corrected walk's node with the corrected walk's bookkeeping |
| CollapseWhitespace.LoopingForever | src/collapse_whitespace.cpp:83-87 | once caught in that loop, the loop as written never stops, after any number of further turns |
| CollapseWhitespace.AsWrittenAgrees | src/collapse_whitespace.cpp:53-140 | wherever the loop as written stops, its overlay with the last trailing space popped is exactly the corrected collapser's overlay `Collapse` |
| CommonMarkRules.ParentOf | src/commonmark_rules.cpp:56-58 | the node is the parent's child at the path's last index |
| CommonMarkRules.FirstElementFrom | src/commonmark_rules.cpp:47-52 | the first element child from a position on, with no element before it; none exactly when no element follows |
| CommonMarkRules.FindNextElementSibling | src/commonmark_rules.cpp:46-53 | the sibling loop returns the first element among the later siblings, or none |
| CommonMarkRules.HasSiblings | src/commonmark_rules.cpp:61-69 | the child loop is true exactly when the parent is an element with an element child other than the node |
| CommonMarkRules.NodeIndex | src/commonmark_rules.cpp:72-84 | the counting loop gives the node's position among the parent's element children, or -1 when the parent or the node is not an element |
| CommonMarkRules.LastElement | src/commonmark_rules.cpp:96-101 | the last element child before a position, with no element after it; none exactly when there is no element |
| CommonMarkRules.LastElementChild | src/commonmark_rules.cpp:94-103 | the loop is true exactly when the parent is an element and its last element child is the node |
| CommonMarkRules.SiblingHelpersAgree | src/commonmark_rules.cpp:46-103 | for an element under an element, being the last element child is having no following element sibling, and the element index lies between 0 and the number of element children |
| CommonMarkRules.ElementCountGrows | src/commonmark_rules.cpp:76-82 | the count of element children never shrinks as the prefix grows |
| CommonMarkRules.FirstWithTag | src/commonmark_rules.cpp:86-88 | a found child carries the tag |
| CommonMarkRules.CleanAttribute | src/commonmark_rules.cpp:105-108 | definition: each run of newlines together with the white space after it becomes one newline |
| CommonMarkRules.CleanAttributeFirst | src/commonmark_rules.cpp:105-108 | cleaning keeps a first byte that is not white space |
| CommonMarkRules.CleanAttributeMeans | src/commonmark_rules.cpp:105-108 | a cleaned attribute has no newline followed by white space, keeps every byte that is not white space, in order, and cleaning again changes nothing |
| CommonMarkRules.DropFinalNewline | src/commonmark_rules.cpp:254-256 | exactly one final newline is removed when there is one; otherwise the text is unchanged |
| CommonMarkRules.IndentMeans | src/commonmark_rules.cpp:222 | after the `\n` to `\n    ` replacement every newline is followed by four spaces, and removing them gives the text back |
| CommonMarkRules.IndentedEnd | src/commonmark_rules.cpp:222 | an indented text never ends with a newline |
| CommonMarkRules.Matches | src/commonmark_rules.cpp:131-465 | definition: each built-in rule's filter: its tags, the code-block and link styles that enable it, a non-empty `href` for links, a `code` child for code blocks, and no code block for inline code |
| CommonMarkRules.HeadingReplacement | src/commonmark_rules.cpp:154-170 | definition: a setext underline as long as the content for levels 1 and 2 in setext style, else `level` hashes and a space; between blank lines |
| CommonMarkRules.HeadingMeans | src/commonmark_rules.cpp:154-170 | a setext heading of level 1 or 2 is the content over an underline of `=` or `-` exactly as long as the content in bytes; any other heading is `level` hashes, a space and the content; both are framed by blank lines |
| CommonMarkRules.LineEnd | src/commonmark_rules.cpp:183 | the end of the line at a position: a newline or the end of the text |
| CommonMarkRules.LineClear | src/commonmark_rules.cpp:183 | a line as `std::getline` reads it holds no newline |
| CommonMarkRules.NextLine | src/commonmark_rules.cpp:183 | `std::getline` always moves forward |
| CommonMarkRules.FindLineEnd | src/commonmark_rules.cpp:183 | the scan stops at the end of the line |
| CommonMarkRules.QuoteLines | src/commonmark_rules.cpp:179-185 | the `getline` loop quotes every line of the trimmed text, a final newline starting no further line |
| CommonMarkRules.QuoteNextLine | src/commonmark_rules.cpp:183-184 | one turn moves forward and keeps the block plus the quote of what is left unchanged |
| CommonMarkRules.QuotedLines | src/commonmark_rules.cpp:179-185 | for a text that does not end in a newline, quoting line by line is prefixing `> ` and replacing each newline with a newline and `> ` |
| CommonMarkRules.BlockquoteReplacement | src/commonmark_rules.cpp:172-190 | definition: the content with outer newlines trimmed, each line quoted, between blank lines |
| CommonMarkRules.BlockquoteMeans | src/commonmark_rules.cpp:172-190 | `> ` goes in front of the first line and after every newline of the newline-trimmed content, the last line ends with a newline, and blank lines frame it; content that trims to nothing gives only the four newlines |
| CommonMarkRules.ListReplacement | src/commonmark_rules.cpp:192-208 | definition: the trimmed content after one newline when the list is the last element child of an `li`, else between blank lines |
| CommonMarkRules.ListReplace | src/commonmark_rules.cpp:192-208 | the list rule with its loop gives the specified replacement: one newline before a list that is the last element of its `<li>`, blank lines around any other |
| CommonMarkRules.BlankTailFrom | src/commonmark_rules.cpp:235 | a match of `\n\s*$` is a newline with only white space after it |
| CommonMarkRules.BlankTailIndented | src/commonmark_rules.cpp:233-236 | replacing the blank tail keeps an indented text indented |
| CommonMarkRules.ComputeListItemPrefix | src/commonmark_rules.cpp:224-231 | the marker, with the index loop: the bullet and three spaces, or `start + index` and `.  ` under an `<ol>`, failing as `std::stoi` does |
| CommonMarkRules.ComputeOrderedPrefix | src/commonmark_rules.cpp:226-231 | an ordered item's marker as specified, `1.  ` for a negative index |
| CommonMarkRules.ListItemReplacement | src/commonmark_rules.cpp:210-242 | definition: the marker (an error when an `ol` start attribute is not a number), then the indented body, with its blank tail replaced and a newline added when another element sibling follows |
| CommonMarkRules.ListItemReplace | src/commonmark_rules.cpp:210-242 | the list-item rule, with its loops, gives the specified replacement or the `std::stoi` error |
| CommonMarkRules.OrderedItemNumber | src/commonmark_rules.cpp:226-230 | an item of an `<ol>` is numbered by the list's start plus the number of element siblings before it |
| CommonMarkRules.OrderedItemBadStart | src/commonmark_rules.cpp:228-229 | a `start` attribute that `std::stoi` rejects makes the item fail with that error |
| CommonMarkRules.ItemBodyLast | src/commonmark_rules.cpp:215-222 | without a following element sibling the body is the trimmed item text, indented, and unindenting gives that text back |
| CommonMarkRules.ItemBodyNext | src/commonmark_rules.cpp:232-238 | with a following element sibling the body ends in exactly one added newline after an indented text, so the `\n$` test never fires |
| CommonMarkRules.CodeSource | src/commonmark_rules.cpp:251-252 | the node a code block reads lies in the tree |
| CommonMarkRules.IndentedCodeReplacement | src/commonmark_rules.cpp:244-262 | definition: the `code` child's text less one final newline, every line indented by four spaces, between blank lines |
| CommonMarkRules.IndentedCodeMeans | src/commonmark_rules.cpp:244-262 | an indented code block is framed by blank lines, every one of its lines starts with four spaces, and removing them gives the code's text less one final newline |
| CommonMarkRules.RunAt | src/commonmark_rules.cpp:285 | the length of the maximal run of a byte from a position |
| CommonMarkRules.ComputeFenceSize | src/commonmark_rules.cpp:284-293 | the match loop computes the specified fence size |
| CommonMarkRules.FenceStep | src/commonmark_rules.cpp:286-293 | one position of the loop keeps the fence at least three and the final size unchanged |
| CommonMarkRules.LongestFenceRunMeans | src/commonmark_rules.cpp:285-293 | the longest run of three or more fence characters at a line start bounds every such run and is one of them, or is 0 |
| CommonMarkRules.FenceSizeMeans | src/commonmark_rules.cpp:284-294 | the fence is at least three long and longer than every run of the fence character at a line start, so no line of the code can close it, and it is three or one more than the longest such run |
| CommonMarkRules.NonSpaceEnd | src/commonmark_rules.cpp:275 | the end of the maximal run of non-white-space bytes from a position |
| CommonMarkRules.LanguageAbsent | src/commonmark_rules.cpp:275-280 | the language is empty exactly when no `language-` is followed by a byte that is not white space |
| CommonMarkRules.LanguageFirst | src/commonmark_rules.cpp:275-280 | a non-empty language is the maximal non-white-space run after the first `language-` followed by one |
| CommonMarkRules.FencedCodeReplacement | src/commonmark_rules.cpp:264-302 | definition: a fence of the fence character, three long or one longer than the longest run of three or more of it at a line start, the language from the class, the code less one final newline, the fence again |
| CommonMarkRules.FencedCodeReplace | src/commonmark_rules.cpp:264-302 | the fenced-code rule, with its loop, gives the specified block |
| CommonMarkRules.EscapeHref | src/commonmark_rules.cpp:322-330 | the `push_back` loop gives the escaped href |
| CommonMarkRules.EscapedHrefMeans | src/commonmark_rules.cpp:325-330 | every parenthesis of the escaped href has a backslash in front, removing those backslashes gives the href back, and it does not start with a parenthesis |
| CommonMarkRules.TitleQuotesEscaped | src/commonmark_rules.cpp:336 | in the escaped title every `"` has a backslash in front |
| CommonMarkRules.InlineLinkReplacement | src/commonmark_rules.cpp:315-341 | definition: `[content](href "title")` with `(` and `)` in the href escaped and the cleaned title quoted with its `"` escaped, or no title part when it is empty |
| CommonMarkRules.InlineLinkReplace | src/commonmark_rules.cpp:315-341 | the inline-link rule, with its href loop, gives the specified link |
| CommonMarkRules.ReferenceLinkParts | src/commonmark_rules.cpp:344-372 | definition: for the collapsed, shortcut and full styles, the link text and the stored reference; in the full style the label is the number of stored references plus one |
| CommonMarkRules.ReferenceNumbering | src/commonmark_rules.cpp:366-371 | in the full style the link is labelled by the store's size plus one, so the stored references stay numbered 1, 2, ... in order and the link points at its own label |
| CommonMarkRules.NumberedAppend | src/commonmark_rules.cpp:367-371 | a reference labelled by the next number keeps the store numbered |
| CommonMarkRules.ReferenceStore.constructor | src/commonmark_rules.cpp:343 | a new store is empty |
| CommonMarkRules.ReferenceStore.Push | src/commonmark_rules.cpp:371 | the reference is added at the end |
| CommonMarkRules.ReferenceStore.Flush | src/commonmark_rules.cpp:374-383 | returns nothing for an empty store, else every reference on its own line between blank lines; the store is then empty |
| CommonMarkRules.NormalizeNewlines | src/commonmark_rules.cpp:419 | no CR or LF remains |
| CommonMarkRules.TickRunsSound | src/commonmark_rules.cpp:424-427 | every length the scan reports is that of a maximal backtick run |
| CommonMarkRules.TickRunsComplete | src/commonmark_rules.cpp:424-427 | every maximal backtick run is reported |
| CommonMarkRules.MaxOf | src/commonmark_rules.cpp:432-434 | bounds every element |
| CommonMarkRules.LeastAbsent | src/commonmark_rules.cpp:428-434 | the least length from `k` on that is not reported, every length before it being reported |
| CommonMarkRules.TickRuns | src/commonmark_rules.cpp:423-427 | the match loop collects the run lengths, in order |
| CommonMarkRules.CodeDelimiter | src/commonmark_rules.cpp:431-434 | the delimiter is as many backticks as the least length of no run |
| CommonMarkRules.CodeReplace | src/commonmark_rules.cpp:417-437 | the inline-code rule, with its loops, gives the specified code span |
| CommonMarkRules.CodeSpan | src/commonmark_rules.cpp:411-440 | definition: nothing for empty content; else newlines become spaces, the delimiter is the shortest run of backticks not in the content, with one space of padding when needed |
| CommonMarkRules.CodeSpanMeans | src/commonmark_rules.cpp:411-440 | inline code of non-empty content is the newline-free content between two runs of `k` backticks, `k` the least length of no maximal run in the content (every shorter length is one), with one space of padding exactly when the content needs it |
| CommonMarkRules.Replacement | src/commonmark_rules.cpp:131-465 | only the list item can fail, and only the reference link stores a reference |
| CommonMarkRules.Replace | src/commonmark_rules.cpp:131-465 | running a built-in replacement returns its text, or its error, and the reference link, and only it, pushes its reference to the store |
| CommonMarkRules.StoreFreeReplace | src/commonmark_rules.cpp:131-465 | every replacement other than the reference link, computed as the rule bodies do, gives the specified text or error and stores nothing |
| CommonMarkRules.Delimited | src/commonmark_rules.cpp:387-409 | definition: nothing when the content trims to nothing, else the content between two delimiters |
| CommonMarkRules.DelimitedMeans | src/commonmark_rules.cpp:387-409 | emphasis and strong give nothing exactly when every code point of the content is white space (what `trimStr(content).empty()` tests); otherwise the whole content stands between two copies of the delimiter |
| CommonMarkRules.ImageReplacement | src/commonmark_rules.cpp:442-464 | definition: nothing without `src`, else `![alt](src "title")` with alt and title cleaned |
| CommonMarkRules.ImageMeans | src/commonmark_rules.cpp:442-464 | an image gives nothing exactly when its `src` is empty; otherwise it is `![`…`)` image syntax |
| RulesEngine.FirstMatchFrom | src/rules.cpp:138-145 | the index of the first rule from `k` on whose filter matches, no rule before it matching; none exactly when no rule from `k` on matches |
| RulesEngine.FirstMatchUnique | src/rules.cpp:138-145 | any matching index with no match before it is the one `findRule` returns |
| RulesEngine.Selection | src/rules.cpp:148-158 | definition: the blank rule for a blank node, else the first matching rule of the main list, then of the keep list, then of the remove list, else the default |
| RulesEngine.SelectedRule | src/rules.cpp:148-158 | definition: the rule `Selection` names, with blankness meaning a non-void blank node |
| RulesEngine.SelectionMeans | src/rules.cpp:148-158 | a blank non-void node gets the blank rule; otherwise the first matching main rule; only when no main rule matches, the first matching keep rule; only when none of those matches, the first matching remove rule; the default rule exactly when nothing matches; the chosen rule always matches |
| RulesEngine.RuleOutput | src/rules.cpp:35-60 | only the list-item replacement can fail, and only the reference-link replacement stores a reference |
| RulesEngine.Normalized | src/rules.cpp:21-28 | every tag name lower-cased, in order |
| RulesEngine.AppliedAllLists | src/rules.cpp:67-105 | mutations only insert at the front: each list becomes the rules they added, latest first, followed by the list as it was |
| RulesEngine.AppliedFront | src/rules.cpp:67-105 | one mutation puts its rules in front of one list and leaves the rest as it was |
| RulesEngine.AddedRuleWins | src/rules.cpp:67-70 | a rule just added wins, under its new key, for every non-blank node it matches |
| RulesEngine.KeepTagKeeps | src/rules.cpp:88-110 | after `keep(tag)` an element with the lower-cased tag that is not blank and that no main rule matches converts to its own HTML |
| RulesEngine.KeptOutput | src/rules.cpp:44-51 | the keep replacement is the node's outer HTML |
| RulesEngine.KeepFirst | src/rules.cpp:88-110 | the new keep rule is the first match for such an element |
| RulesEngine.RemoveTagRemoves | src/rules.cpp:97-125 | after `remove(tag)` an element with the lower-cased tag that is not blank and that no main or keep rule matches converts to nothing |
| RulesEngine.RemovedOutput | src/rules.cpp:101-103 | a remove rule's replacement is empty |
| RulesEngine.RemoveFirst | src/rules.cpp:97-125 | the new remove rule is the first match for such an element |
| RulesEngine.TagFilterMeans | src/rules.cpp:73-85 | a tag filter matches exactly the elements whose tag is one of the names, lower-cased |
| RulesEngine.NormalizedAppend | src/rules.cpp:21-28 | normalising one more name appends it lower-cased |
| RulesEngine.Rules.constructor | src/rules.cpp:33-61 | the options are stored and all three rule lists are empty; the reference store is new and empty |
| RulesEngine.Rules.AddRule | src/rules.cpp:67-70 | the rule, under the key, is at the front of the main list; nothing else changes |
| RulesEngine.Rules.AddKeepRule | src/rules.cpp:88-94 | a keep rule keyed `keep-<suffix>` is at the front of the keep list; nothing else changes |
| RulesEngine.Rules.AddRemoveRule | src/rules.cpp:97-105 | a remove rule keyed `remove-<suffix>` is at the front of the remove list; nothing else changes |
| RulesEngine.Rules.Keep | src/rules.cpp:108-110 | the lists as the keep-tag mutation leaves them |
| RulesEngine.Rules.KeepAll | src/rules.cpp:113-115 | the lists as the keep-tags mutation (`keep-multi`) leaves them |
| RulesEngine.Rules.KeepWhere | src/rules.cpp:118-120 | the lists as the custom keep mutation (`keep-custom`) leaves them |
| RulesEngine.Rules.Remove | src/rules.cpp:123-125 | the lists as the remove-tag mutation leaves them |
| RulesEngine.Rules.RemoveAll | src/rules.cpp:128-130 | the lists as the remove-tags mutation (`remove-multi`) leaves them |
| RulesEngine.Rules.RemoveWhere | src/rules.cpp:133-135 | the lists as the custom remove mutation (`remove-custom`) leaves them |
| RulesEngine.Rules.Apply | src/rules.cpp:67-135 | one mutation, as the specification function applies it |
| RulesEngine.Rules.ApplyAll | src/rules.cpp:67-135 | a sequence of mutations, first to last |
| RulesEngine.Rules.FindRule | src/rules.cpp:138-145 | the loop returns the first matching candidate, or none |
| RulesEngine.Rules.MatchesNode | src/rules.cpp:140 | a filter invoked with the rules' own options |
| RulesEngine.Rules.ForNode | src/rules.cpp:148-158 | the rule the precedence above selects, with blankness computed by `isVoid` and `isBlank` |
| RulesEngine.Rules.Select | src/rules.cpp:153-157 | the list lookups of `forNode` give the chosen rule |
| RulesEngine.Rules.RunReplacement | src/rules.cpp:35-60 | running the rule's replacement returns its text or its error, and only the reference-link replacement pushes to the store |
| RulesEngine.CommonMarkFlushes | src/commonmark_rules.cpp:344-385 | the built-in rules include the reference-link rule, whose append flushes the store |
| RulesEngine.AddBuiltin | src/commonmark_rules.cpp:132-464 | one built-in rule goes to the front of the main list under its key |
| RulesEngine.DefineCommonMarkRules | src/commonmark_rules.cpp:131-465 | the built-in rules go in front of the main list, the last one added first; the keep and remove lists are unchanged |
| RulesEngine.DefineLeading | src/commonmark_rules.cpp:132-152 | the paragraph and line-break rules go in front |
| RulesEngine.DefineHeadings | src/commonmark_rules.cpp:154-170 | the heading loop puts `<h6>` first, down to `<h1>` |
| RulesEngine.DefineBlocks | src/commonmark_rules.cpp:172-313 | the blockquote to horizontal-rule rules go in front |
| RulesEngine.DefineInline | src/commonmark_rules.cpp:315-464 | the inline-link to image rules go in front |
| Turndown.DropLeadingNewlines | src/turndown.cpp:49-55 | the index loop drops exactly the leading CR/LF run |
| Turndown.NewlineRunEnd | src/turndown.cpp:51-53 | where the loop stops is the length of the leading CR/LF run |
| Turndown.DropTrailingNewlines | src/turndown.cpp:58-64 | the index loop drops exactly the trailing CR/LF run |
| Turndown.NewlineRunStart | src/turndown.cpp:60-62 | where the loop stops leaves the trailing CR/LF run behind it |
| Turndown.SeparatorLength | src/turndown.cpp:76-77 | at most 2, one of the two runs or 2, and no shorter than either run unless capped |
| Turndown.Joined | src/turndown.cpp:67-81 | definition: either side when the other is empty; else the two with their newlines at the seam trimmed and joined by the larger newline count of the two sides, at most two |
| Turndown.JoinChunks | src/turndown.cpp:67-81 | the join, with its two trimming loops, is the specified one |
| Turndown.JoinedPlain | src/turndown.cpp:67-81 | an empty side leaves the other as it is; chunks that do not meet at a CR/LF are concatenated |
| Turndown.JoinedSeam | src/turndown.cpp:67-81 | at the seam the left chunk's trailing CR/LF run and the right one's leading run give way to as many line feeds as the longer run, at most two; both sides are otherwise kept byte for byte |
| Turndown.BlockEnds | src/turndown.cpp:67-81 | a block chunk has two newlines at each end |
| Turndown.JoinedBlocks | src/turndown.cpp:67-81 | two block chunks are joined with exactly one blank line between them |
| Turndown.FindNbsp | src/turndown.cpp:94 | the first NBSP pair from a position on, none before it; none exactly when there is none |
| Turndown.EncodeNbspInPlace | src/turndown.cpp:91-98 | the find-and-replace loop, resuming after each entity, gives the NBSP encoding the node analysis uses |
| Turndown.ReplaceNbspStep | src/turndown.cpp:94-97 | one replacement keeps the encoded prefix plus the encoded rest equal to the whole encoding |
| Turndown.EncodedAt | src/turndown.cpp:91-98 | encoding text whose first NBSP is at `d` gives the bytes before it, the entity, and the encoded rest |
| Turndown.NoNbspAfter | src/turndown.cpp:94 | when `find` fails, the rest holds no NBSP pair |
| Turndown.TextMarkdown | src/turndown.cpp:101-110 | definition: nothing for empty text, the text itself inside code, else the escaped text |
| Turndown.TextMarkdownMeans | src/turndown.cpp:101-110 | empty text gives nothing, text inside code is kept as it is, and any other text is escaped so that it reads back as the text; the minimal escaper escapes only backslashes and brackets |
| Turndown.NodeMarkdown | src/turndown.cpp:113-131 | definition: text nodes by `TextMarkdown`, elements by `ElementMarkdown`, documents by their children, nothing for anything else |
| Turndown.ElementMarkdown | src/turndown.cpp:146-162 | definition: a kept tag gives the element's HTML; else the children's Markdown, trimmed when there are flanks, through the selected rule, framed by the flanks; a stored reference is added |
| Turndown.ChildrenMarkdown | src/turndown.cpp:134-143 | definition: the children converted in order and joined onto what came before, the first error ending the conversion |
| Turndown.NodeRefsGrow | src/turndown.cpp:113-131 | converting a node only ever adds references to the store |
| Turndown.ElementRefsGrow | src/turndown.cpp:146-162 | so does converting an element |
| Turndown.ChildrenRefsGrow | src/turndown.cpp:134-143 | and converting children |
| Turndown.KeptTagsSerialized | src/turndown.cpp:147-152 | an element whose tag is in `keepTags` is written out as its own HTML, whatever rules exist |
| Turndown.ProcessNode | src/turndown.cpp:113-131 | the result and the store agree with the specification: text through `processTextNode`, elements through `replacementForNode`, documents through their children, anything else nothing; an error propagates |
| Turndown.ReplacementForNode | src/turndown.cpp:146-162 | the result and the store agree with the specified element conversion |
| Turndown.IsKept | src/turndown.cpp:147-148 | the scan finds the tag exactly when it is in `keepTags` |
| Turndown.ConvertElement | src/turndown.cpp:154-161 | for a tag that is not kept: the children's Markdown, trimmed when there is flanking whitespace, through the selected rule and framed by that whitespace, as specified |
| Turndown.ProcessChildren | src/turndown.cpp:134-143 | each child's Markdown joined on in order, as specified; an error stops the walk |
| Turndown.Appended | src/turndown.cpp:334-338 | definition: the appends of the main list in order, each joined onto the Markdown; the reference append flushes the store |
| Turndown.RunAppends | src/turndown.cpp:334-338 | the append loop joins each rule's append onto the Markdown, as specified |
| Turndown.AppendedFlushes | src/turndown.cpp:334-338 | after the appends the store is empty when a rule of the list has the reference-link append, and unchanged otherwise |
| Turndown.AppendedNothing | src/turndown.cpp:334-338 | a list without appends leaves the Markdown and the store alone |
| Turndown.Finished | src/turndown.cpp:339-356 | definition: NBSPs encoded, leading newlines dropped, trailing white space dropped |
| Turndown.TrimmedTrailingSpace | src/turndown.cpp:343-354 | a prefix of the text, not ending in space, tab, LF or CR, with only those after it |
| Turndown.DropTrailingSpace | src/turndown.cpp:343-355 | the lambda's loop gives that prefix |
| Turndown.FinishedMeans | src/turndown.cpp:339-356 | the finished Markdown neither starts with a newline nor ends in white space, holds no NBSP pair, and keeps its leading spaces: it is a prefix of the encoded text without its leading newlines |
| Turndown.Converted | src/turndown.cpp:322-357 | definition: whitespace collapsed, the root's children converted, NBSPs encoded, appends joined, then finished |
| Turndown.ConvertedMeans | src/turndown.cpp:322-357 | a successful conversion is trimmed and NBSP-free, and with the reference-link rule in the list it leaves the store empty |
| Turndown.FactoriesLists | src/turndown.cpp:299-304 | the factories' rules come first in each list, latest first |
| Turndown.BuiltRules | src/turndown.cpp:295-310 | definition: the factories before the defaults, then those after, applied to the CommonMark rules, then the queued mutations |
| Turndown.BuiltRulesLists | src/turndown.cpp:295-310 | each list `ensureRules` builds holds the mutations' rules, then the after-default factories', then the before-default factories', then the list as the built-in rules left it |
| Turndown.CallerRulesFirst | src/turndown.cpp:295-310 | on the CommonMark rules every caller rule is tried before every built-in one, whichever placement its factory had |
| Turndown.CommonMarkLists | src/commonmark_rules.cpp:131-465 | only the main list of the CommonMark rules is non-empty |
| Turndown.BuiltRulesFlush | src/turndown.cpp:295-310 | the reference-link rule survives every rebuild |
| Turndown.LazyMutation | src/turndown.cpp:313-319 | applying a mutation to the cached rules gives what a rebuild with it queued gives |
| Turndown.FinishPipeline | src/turndown.cpp:332-356 | NBSP encoding, the appends, then the final encoding and trims, as specified |
| Turndown.RunPipeline | src/turndown.cpp:322-357 | the result and the store agree with the specified conversion, and with the reference-link rule in the list a successful run leaves the store empty |
| Turndown.NewCommonMarkRules | src/turndown.cpp:297-298 | a new `Rules` object with the options, an empty store and the CommonMark rules |
| Turndown.RunFactories | src/turndown.cpp:299-304 | the factories run in turn on the rules |
| Turndown.TurndownService.constructor | src/turndown.cpp:169-170 | the options stored, no cache, no factories or mutations |
| Turndown.TurndownService.WithDefaults | src/turndown.cpp:22-46 | the same with the default options |
| Turndown.TurndownService.InvalidateRules | src/turndown.cpp:290-292 | the cache is dropped; nothing else changes |
| Turndown.TurndownService.ConfigureOptions | src/turndown.cpp:173-179 | a callback rewrites the options and drops the cache; without one nothing changes |
| Turndown.TurndownService.RegisterRuleFactory | src/turndown.cpp:198-208 | a factory joins the list its placement names and the cache is dropped; no factory, no change |
| Turndown.TurndownService.EnqueueRuleMutation | src/turndown.cpp:313-319 | the mutation is queued and the cache, if any, stays consistent with the queue |
| Turndown.TurndownService.AddRule | src/turndown.cpp:190-195 | an add-rule mutation is queued |
| Turndown.TurndownService.Keep | src/turndown.cpp:219-224 | a keep-tag mutation is queued |
| Turndown.TurndownService.KeepAll | src/turndown.cpp:227-232 | a keep-tags mutation is queued |
| Turndown.TurndownService.KeepWhere | src/turndown.cpp:211-216 | a custom keep mutation is queued |
| Turndown.TurndownService.Remove | src/turndown.cpp:243-248 | a remove-tag mutation is queued |
| Turndown.TurndownService.RemoveAll | src/turndown.cpp:251-256 | a remove-tags mutation is queued |
| Turndown.TurndownService.RemoveWhere | src/turndown.cpp:235-240 | a custom remove mutation is queued |
| Turndown.TurndownService.EnsureRules | src/turndown.cpp:295-310 | the cached rules, or new ones: the CommonMark rules, then the before- and after-default factories, then the queued mutations; they always hold the reference-link rule |
| Turndown.TurndownService.Turndown | src/turndown.cpp:265-267 | no tree gives empty Markdown; otherwise the result and the store agree with the specified conversion on the rules `ensureRules` returns, and a successful run leaves the store empty |
| Turndown.TurndownService.Escape | src/turndown.cpp:275-277 | the configured escaper applied to the text, which reads back as the text |

## Left out

- The parser back-ends are not part of this model. That covers document parsing, tree navigation, the attribute and text caches and the thread-local document state in `src/gumbo_adapter.cpp`, `src/lexbor_adapter.cpp`, `src/libxml2_adapter.cpp`, `src/tidy_adapter.cpp`, `src/dom_adapter.cpp` and `src/dom_source.cpp`. They are calls into foreign libraries, so the tree is given as a `Dom.Node` value. Only the three string helpers named above are modelled.
- The `turndown` overloads that take an HTML string or a `DomSource`, and the free `turndown(html, options)`, only parse and then call the tree overload, which is modelled as `Turndown.TurndownService.Turndown`.
- A null node view is modelled only where the pipeline can meet one: `Turndown` takes `Option<Node>`. Everywhere else a node is a valid path into the tree, so null checks on navigation results become `Option` results.
- Text, whitespace and CDATA nodes are one `Text` constructor, because every function of the core treats them alike. Comments and any other node kind are `Comment`.
- The `std::regex` engine is not modelled. Each regular expression is replaced by the transformation it performs: the whitespace-run collapse, `cleanAttribute`, the newline indents, `\n\s*$`, the fence and backtick-run scans, `language-(\S+)` and the inline-code padding test.
- `tolower`, `isspace` and `isdigit` use ASCII semantics; locales are not modelled.
- The options' `std::function` callbacks are narrowed to what the converter itself provides:
  - the escape function is the advanced or the minimal escaper;
  - `blankReplacement`, `keepReplacement` and `defaultReplacement` are the defaults the options constructor sets.
- A caller's filters, replacements and appends are Dafny function values: total and pure, and unable to throw or to reach the service.
- A rule factory is modelled as the list of `addRule`/`keep`/`remove` calls it makes on the `Rules` object. A factory that does anything else is not modelled.
- `use(plugin)` is left out: a plugin is arbitrary caller code run on the service. The `options()` accessors are left out because they only expose the field.
- `configureOptions` takes the callback as a function from old options to new ones, not as an in-place mutation.
- The reference store is modelled as a field of `Rules`. In the source it is a `shared_ptr` captured by the reference-link rule's closures. There is one store per rebuild in both.
- Rule selection and the node walk use the options the rules were built with, as the source's captured references do.
- The global `gCollapse` context and its set/clear calls (`src/utilities.cpp`, lines 33-51) are replaced by passing the overlay as a parameter. The exception safety of that context is left out with it.
- Exceptions are modelled only where the core raises them: `std::stoi` on an ordered list's `start` attribute, as a `Result` that stops the conversion. After such an error the model states nothing about what the reference store holds beyond the stored prefix. What the source leaves behind on an exception is not modelled.
- Integers are unbounded. The `int` sum `start + index` of the list-item rule cannot overflow in the model, while in the source that signed overflow is undefined. `std::stoi` range errors are modelled.
- The bit masks of `include/utf8_helpers.h` and of the decoders are written as division and modulo on `nat`.
- `Turndown.TurndownService.Escape`: a null `escapeFunction` (which returns the text unchanged) is not modelled, since the escaper is always one of the two built-in ones.
- `CollapseWhitespace.CollapseWhitespaceAsWritten`: the source's loop is run for at most a given number of turns (fuel). It does not always terminate (see Findings), so the as-written method reports whether it stopped. No general termination is claimed for it. The corrected loop, `CollapseWhitespace.CollapseWhitespace`, is proved to terminate.
- `Turndown.Converted`: whitespace is collapsed by the corrected walk, `CollapseWhitespace.Collapse`, not by the source's loop. Wherever the source's loop stops, its overlay is the same (`CollapseWhitespace.AsWrittenAgrees`), so the conversion is the source's on every tree where the source returns. On a tree with an element whose children are all omitted (`<div> </div>`, `<td> </td>`, `<div><!--x--></div>`; see Findings), the source never returns, while the model gives the corrected Markdown.
- `Turndown.RunPipeline`: it calls the corrected collapser `CollapseWhitespace.CollapseWhitespace`, for the reason given for `Turndown.Converted`; it agrees with the source wherever the source's loop stops.
- `Turndown.TurndownService.Turndown`: it converts through `Turndown.RunPipeline`, so it uses the corrected collapser too; on the trees where the source's loop never stops, the source never returns.
- The command-line tool, the Python bindings, the example program, the declaration-only headers and the tests are not part of this model.

## Findings

| source | as written | input that shows it | evidently intended | confidence | as-written member | corrected member |
|---|---|---|---|---|---|---|
| src/collapse_whitespace.cpp:83-87 | the `continue` after an omission skips `prevNode = currentNode`, so after omitting an only child `prevNode` is still its parent; `afterRemoval` returns that parent, and `nextNode(parent, parent)` finds `prevNode.parent() != currentNode` and descends into the same child again, for ever (lines 117-121 do the same for a lone comment) | `<div><p> </p></div>`: the whitespace-only text in the paragraph is omitted over and over; likewise `<div> </div>`, `<td> </td>` and `<div><!--x--></div>`, and any element below the root, not a pre node, whose children are all omitted (`CollapseWhitespace.LoopingForever`) | the walk moves on past an omitted node, as it does past a kept one (`prevNode` set to the omitted node) | not executed | CollapseWhitespace.AsWrittenCycles | CollapseWhitespace.CorrectedStops |

/**
 * The two string helpers of the libxml2 back-end: `lowercase` and
 * `escape_non_tag_angle_brackets`, which protects a `<` that does not open a
 * tag before the HTML is handed to libxml2's parser.
 */
module Libxml2Adapter {

  import opened Strings
  import TidyAdapter

  /** `lowercase`: copies the name and lowers the copy in place. */
  method Lowercase(s: Str) returns (out: Str)
    ensures out == Lower(s)
  {
    var buffer := new Byte[|s|](i requires 0 <= i < |s| => s[i]);
    assert buffer[..] == s;
    LowerInPlace(buffer);
    out := buffer[..];
  }

  /** A `<` at `i` is kept when the next byte is a letter, `/`, `!` or `?`. */
  predicate TagOpen(html: Str, i: nat)
    requires i < |html|
  {
    i + 1 < |html| && (IsAsciiAlpha(html[i + 1]) || html[i + 1] in {'/', '!', '?'})
  }

  predicate Rewritten(html: Str, i: nat)
    requires i < |html|
  {
    html[i] == '<' && !TagOpen(html, i)
  }

  /** What byte `i` of the input turns into. */
  function Piece(html: Str, i: nat): (r: Str)
    requires i < |html|
  {
    if Rewritten(html, i) then "&lt;" else [html[i]]
  }

  /** The output for the input from byte `i` on. */
  function EscapedFrom(html: Str, i: nat): (r: Str)
    requires i <= |html|
    decreases |html| - i
  {
    if i == |html| then [] else Piece(html, i) + EscapedFrom(html, i + 1)
  }

  function EscapeNonTagAngleBrackets(html: Str): Str
  {
    EscapedFrom(html, 0)
  }

  lemma EscapedFromStep(html: Str, i: nat)
    requires i < |html|
    ensures forall r: Str :: r + EscapedFrom(html, i) == (r + Piece(html, i)) + EscapedFrom(html, i + 1)
  {
  }

  /** `escape_non_tag_angle_brackets`: one pass, appending to `out`. */
  method EscapeAngles(html: Str) returns (out: Str)
    ensures out == EscapeNonTagAngleBrackets(html)
  {
    out := [];
    var i := 0;
    while i < |html|
      invariant i <= |html|
      invariant out + EscapedFrom(html, i) == EscapedFrom(html, 0)
    {
      EscapedFromStep(html, i);
      var c := html[i];
      if c == '<' {
        var next: Byte := if i + 1 < |html| then html[i + 1] else 0 as char;
        var tagOpen := IsAsciiAlpha(next) || next == '/' || next == '!' || next == '?';
        if !tagOpen {
          out := out + "&lt;";
          i := i + 1;
          continue;
        }
      }
      out := out + [c];
      i := i + 1;
    }
  }

  /** Number of rewritten `<` from byte `i` on. */
  function RewrittenFrom(html: Str, i: nat): nat
    requires i <= |html|
    decreases |html| - i
  {
    if i == |html| then 0 else (if Rewritten(html, i) then 1 else 0) + RewrittenFrom(html, i + 1)
  }

  /** Each rewritten `<` adds three bytes, and nothing else changes the length. */
  lemma {:induction false} EscapedLength(html: Str, i: nat)
    requires i <= |html|
    ensures |EscapedFrom(html, i)| == |html| - i + 3 * RewrittenFrom(html, i)
    decreases |html| - i
  {
    if i < |html| {
      EscapedLength(html, i + 1);
    }
  }

  /**
   * Nothing is lost: on input without `&`, decoding entities gives the input
   * back, so every byte is kept in order and every rewritten `<` reads as `<`.
   */
  lemma {:induction false} EscapeUndone(html: Str, i: nat)
    requires i <= |html|
    requires forall j :: 0 <= j < |html| ==> html[j] != '&'
    ensures TidyAdapter.DecodeEntities(EscapedFrom(html, i)) == html[i..]
    decreases |html| - i
  {
    if i < |html| {
      EscapeUndone(html, i + 1);
      var rest := EscapedFrom(html, i + 1);
      if Rewritten(html, i) {
        TidyAdapter.DecodeLtFirst(rest);
      } else {
        TidyAdapter.DecodeByteFirst(html[i], rest);
      }
      assert html[i..] == [html[i]] + html[i + 1..];
    }
  }
}

/**
 * The tag-name lookup of the gumbo back-end. A tag gumbo knows has a
 * normalised name from gumbo's own table; for any other tag the name is
 * parsed out of the tag's original source text.
 */
module GumboAdapter {

  import opened Strings

  /** How gumbo records an element's tag. */
  datatype GumboTag =
    | Known(normalized: Str)   // gumbo's table entry for the tag
    | Unknown(originalTag: Str) // the tag's source text, such as `<my-widget class="x">`

  datatype GumboNode = GumboElement(tag: GumboTag) | GumboOther

  /** Bytes skipped before the name: `<`, space and `/`. */
  predicate Skipped(c: Byte) { c == '<' || c == ' ' || c == '/' }

  /** Bytes that end the name: C-locale whitespace, `/` and `>`. */
  predicate Ends(c: Byte) { IsCSpace(c) || c == '/' || c == '>' }

  /** `find_first_not_of("< /")` from `i` on; `|s|` stands for `npos`. */
  function NameStart(s: Str, i: nat): (k: nat)
    requires i <= |s|
    ensures i <= k <= |s|
    decreases |s| - i
  {
    if i == |s| || !Skipped(s[i]) then i else NameStart(s, i + 1)
  }

  /** The first index from `i` on that ends the name. */
  function NameEnd(s: Str, i: nat): (k: nat)
    requires i <= |s|
    ensures i <= k <= |s|
    decreases |s| - i
  {
    if i == |s| || Ends(s[i]) then i else NameEnd(s, i + 1)
  }

  /** The name parsed out of an unknown tag's source text. */
  function NameFromOriginal(view: Str): Str
  {
    var start := NameStart(view, 0);
    if start == |view| then [] else Lower(view[start..NameEnd(view, start)])
  }

  /** `lookup_tag_name`. */
  function LookupTagName(n: GumboNode): Str
  {
    match n
    case GumboOther => []
    case GumboElement(Known(name)) => name
    case GumboElement(Unknown(view)) => NameFromOriginal(view)
  }

  /** `has_tag`: exact comparison with the looked-up name. */
  predicate GumboHasTag(n: GumboNode, tag: Str)
  {
    n.GumboElement? && LookupTagName(n) == tag
  }

  /** The unknown-tag path of `lookup_tag_name`: skip, scan to the end of the name, lower in place. */
  method ParseUnknownTagName(view: Str) returns (name: Str)
    ensures name == NameFromOriginal(view)
  {
    if view == [] {
      return [];
    }
    var start := 0;
    while start < |view| && Skipped(view[start])
      invariant start <= NameStart(view, 0)
      invariant NameStart(view, start) == NameStart(view, 0)
    {
      start := start + 1;
    }
    if start == |view| {
      return [];
    }
    var end := start;
    while end < |view|
      invariant start <= end <= NameEnd(view, start)
      invariant NameEnd(view, end) == NameEnd(view, start)
    {
      var c := view[end];
      if IsCSpace(c) || c == '/' || c == '>' {
        break;
      }
      end := end + 1;
    }
    var buffer := new Byte[end - start](i requires 0 <= i < end - start => view[start + i]);
    assert buffer[..] == view[start..end];
    LowerInPlace(buffer);
    name := buffer[..];
  }

  lemma {:induction false} NameStartSkips(s: Str, i: nat)
    requires i <= |s|
    ensures forall j :: i <= j < NameStart(s, i) ==> Skipped(s[j])
    ensures NameStart(s, i) == |s| || !Skipped(s[NameStart(s, i)])
    decreases |s| - i
  {
    if i < |s| && Skipped(s[i]) {
      NameStartSkips(s, i + 1);
    }
  }

  lemma {:induction false} NameEndScans(s: Str, i: nat)
    requires i <= |s|
    ensures forall j :: i <= j < NameEnd(s, i) ==> !Ends(s[j])
    ensures NameEnd(s, i) == |s| || Ends(s[NameEnd(s, i)])
    decreases |s| - i
  {
    if i < |s| && !Ends(s[i]) {
      NameEndScans(s, i + 1);
    }
  }

  /**
   * The parsed name is lower case and holds no whitespace, `/` or `>`; it is
   * empty exactly when the text is nothing but `<`, spaces and `/` or the
   * first other byte already ends the name.
   */
  lemma NameFromOriginalShape(view: Str)
    ensures var name := NameFromOriginal(view);
      forall i :: 0 <= i < |name| ==> !Ends(name[i]) && !('A' <= name[i] <= 'Z')
    ensures NameStart(view, 0) == |view| <==> forall i :: 0 <= i < |view| ==> Skipped(view[i])
    ensures NameFromOriginal(view) == [] <==>
      NameStart(view, 0) == |view| || Ends(view[NameStart(view, 0)])
  {
    var start := NameStart(view, 0);
    NameStartSkips(view, 0);
    if start < |view| {
      NameEndScans(view, start);
      var raw := view[start..NameEnd(view, start)];
      forall i | 0 <= i < |raw|
        ensures !Ends(Lower(raw)[i])
      {
        assert raw[i] == view[start + i];
        assert !Ends(raw[i]);
      }
    }
  }
}

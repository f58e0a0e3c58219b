/**
 * `decode_html_entities` of the tidy back-end: tidy re-encodes a few
 * entities in the text it hands back, and this single left-to-right pass
 * turns them into bytes again.
 */
module TidyAdapter {

  import opened Strings

  /** The entity at the front of `t` and its bytes, or the first byte alone. */
  function Token(t: Str): (r: (Str, nat))
    requires t != []
    ensures 1 <= r.1 <= |t| && |r.0| <= r.1
  {
    if t[0] != '&' then ([t[0]], 1)
    else if "&lt;" <= t then ("<", 4)
    else if "&gt;" <= t then (">", 4)
    else if "&amp;" <= t then ("&", 5)
    else if "&quot;" <= t then ("\"", 6)
    else if "&apos;" <= t then ("'", 6)
    else if "&nbsp;" <= t then (Nbsp, 6)
    else ("&", 1)
  }

  /** The decoded text: tokens read from left to right, with no re-scan of what they produce. */
  function DecodeEntities(t: Str): Str
    decreases |t|
  {
    if t == [] then [] else Token(t).0 + DecodeEntities(t[Token(t).1..])
  }

  /** Decoding from `i` is the token there, then decoding from the index after it. */
  lemma DecodeStep(t: Str, i: nat, result: Str, piece: Str, next: nat)
    requires i < |t| && piece == Token(t[i..]).0 && next == i + Token(t[i..]).1
    ensures result + DecodeEntities(t[i..]) == (result + piece) + DecodeEntities(t[next..])
  {
    assert t[i..][Token(t[i..]).1..] == t[next..];
  }

  /** `decode_html_entities`: an index loop that skips the rest of each entity it decodes. */
  method DecodeHtmlEntities(input: Str) returns (result: Str)
    ensures result == DecodeEntities(input)
  {
    result := [];
    var i := 0;
    while i < |input|
      invariant i <= |input|
      invariant result + DecodeEntities(input[i..]) == DecodeEntities(input)
    {
      var piece, next := ReadToken(input, i);
      DecodeStep(input, i, result, piece, next);
      result := result + piece;
      i := next;
    }
    assert input[i..] == [];
  }

  /** One turn of the loop: the bytes for the token at `i`, and the index after it. */
  method ReadToken(input: Str, i: nat) returns (piece: Str, next: nat)
    requires i < |input|
    ensures piece == Token(input[i..]).0 && next == i + Token(input[i..]).1
  {
    if input[i] == '&' {
      piece, next := ReadEntity(input, i);
    } else {
      piece, next := [input[i]], i + 1;
    }
  }

  /** The entity tests, in the order the source makes them; a bare `&` is kept. */
  method ReadEntity(input: Str, i: nat) returns (piece: Str, next: nat)
    requires i < |input| && input[i] == '&'
    ensures piece == Token(input[i..]).0 && next == i + Token(input[i..]).1
  {
    var rest := input[i..];
    if "&lt;" <= rest {
      piece, next := "<", i + 3;
    } else if "&gt;" <= rest {
      piece, next := ">", i + 3;
    } else if "&amp;" <= rest {
      piece, next := "&", i + 4;
    } else if "&quot;" <= rest {
      piece, next := "\"", i + 5;
    } else if "&apos;" <= rest {
      piece, next := "'", i + 5;
    } else if "&nbsp;" <= rest {
      piece, next := Nbsp, i + 5;
    } else {
      piece, next := [input[i]], i;
    }
    next := next + 1;
  }

  /** Decoding never lengthens the text. */
  lemma {:induction false} DecodeShrinks(t: Str)
    ensures |DecodeEntities(t)| <= |t|
    decreases |t|
  {
    if t != [] {
      DecodeShrinks(t[Token(t).1..]);
    }
  }

  /** Text without `&` is left as it is. */
  lemma {:induction false} DecodeWithoutAmpersand(t: Str)
    requires forall i :: 0 <= i < |t| ==> t[i] != '&'
    ensures DecodeEntities(t) == t
    decreases |t|
  {
    if t != [] {
      DecodeWithoutAmpersand(t[1..]);
      assert [t[0]] + t[1..] == t;
    }
  }

  /** A byte other than `&` reads as itself, whatever follows. */
  lemma DecodeByteFirst(c: Byte, rest: Str)
    requires c != '&'
    ensures DecodeEntities([c] + rest) == [c] + DecodeEntities(rest)
  {
    assert ([c] + rest)[1..] == rest;
  }

  /** An entity read as one token is decoded on its own, whatever follows. */
  lemma EntityFirst(e: Str, rest: Str, d: Str)
    requires e != [] && Token(e + rest) == (d, |e|)
    ensures DecodeEntities(e + rest) == d + DecodeEntities(rest)
  {
    assert (e + rest)[|e|..] == rest;
  }

  lemma DecodeLtFirst(rest: Str)
    ensures DecodeEntities("&lt;" + rest) == "<" + DecodeEntities(rest)
  {
    var t := "&lt;" + rest;
    assert t[..4] == "&lt;" && t[1] == 'l';
    EntityFirst("&lt;", rest, "<");
  }

  lemma DecodeGtFirst(rest: Str)
    ensures DecodeEntities("&gt;" + rest) == ">" + DecodeEntities(rest)
  {
    var t := "&gt;" + rest;
    assert t[..4] == "&gt;" && t[1] == 'g';
    EntityFirst("&gt;", rest, ">");
  }

  lemma DecodeAmpFirst(rest: Str)
    ensures DecodeEntities("&amp;" + rest) == "&" + DecodeEntities(rest)
  {
    var t := "&amp;" + rest;
    assert t[..5] == "&amp;" && t[1] == 'a';
    EntityFirst("&amp;", rest, "&");
  }

  lemma DecodeQuotFirst(rest: Str)
    ensures DecodeEntities("&quot;" + rest) == "\"" + DecodeEntities(rest)
  {
    var t := "&quot;" + rest;
    assert t[..6] == "&quot;" && t[1] == 'q';
    EntityFirst("&quot;", rest, "\"");
  }

  lemma DecodeAposFirst(rest: Str)
    ensures DecodeEntities("&apos;" + rest) == "'" + DecodeEntities(rest)
  {
    var t := "&apos;" + rest;
    assert t[..6] == "&apos;" && t[2] == 'p';
    EntityFirst("&apos;", rest, "'");
  }

  lemma DecodeNbspFirst(rest: Str)
    ensures DecodeEntities("&nbsp;" + rest) == Nbsp + DecodeEntities(rest)
  {
    var t := "&nbsp;" + rest;
    assert t[..6] == "&nbsp;" && t[1] == 'n';
    EntityFirst("&nbsp;", rest, Nbsp);
  }

  /**
   * A single pass: the `&` that `&amp;` produces does not start a new entity,
   * so `&amp;lt;` gives `&lt;` and not `<`.
   */
  lemma NoRescan(rest: Str)
    requires forall i :: 0 <= i < |rest| ==> rest[i] != '&'
    ensures DecodeEntities("&amp;" + rest) == "&" + rest
  {
    DecodeAmpFirst(rest);
    DecodeWithoutAmpersand(rest);
  }
}

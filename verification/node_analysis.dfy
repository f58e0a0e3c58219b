/**
 * The per-node analysis the converter runs before a node is replaced: the
 * whitespace at the edges of its text, split into ASCII and non-ASCII parts;
 * whether a neighbour already supplies a space; blankness; and the metadata
 * record that bundles these facts.
 */
module NodeAnalysis {

  import opened Strings
  import opened Wrappers
  import opened Utf8Helpers
  import opened Dom
  import opened Utilities
  import TidyAdapter

  // ----- Decoding -----

  /**
   * `decodeCodepoint`: false past the end; otherwise the slice the decoder
   * reads at `index`, built by the continuation loop.
   */
  method DecodeCodepoint(text: Str, index: nat) returns (ok: bool, slice: Slice)
    ensures ok <==> index < |text|
    ensures ok ==> slice == DecodeAt(text, index)
  {
    if index >= |text| {
      return false, Slice(0, 0, 0);
    }
    var lead := text[index];
    if IsAsciiLead(lead) {
      return true, Slice(lead as nat, index, 1);
    }
    var n := ExpectedLength(lead);
    if n == 1 || index + n > |text| {
      return true, Slice(lead as nat, index, 1);
    }
    var codepoint: nat := LeadPayload(lead, n);
    var j := 1;
    while j < n
      invariant 1 <= j <= n
      invariant DecodeStage(text, index, j, codepoint) == DecodeAt(text, index)
    {
      var cont := text[index + j];
      if !IsContinuation(cont) {
        return true, Slice(lead as nat, index, 1);
      }
      codepoint := codepoint * 64 + ContinuationPayload(cont);
      j := j + 1;
    }
    if IsInvalidCodepoint(codepoint, n) {
      return true, Slice(lead as nat, index, 1);
    }
    return true, Slice(codepoint, index, n);
  }

  /** `toCodepoints`: one slice per step until the text is used up. */
  method ToCodepoints(text: Str) returns (codepoints: seq<Slice>)
    ensures codepoints == Decode(text)
  {
    codepoints := [];
    var index := 0;
    while index < |text|
      invariant index <= |text|
      invariant codepoints + DecodeFrom(text, index) == Decode(text)
      decreases |text| - index
    {
      var ok, slice := DecodeCodepoint(text, index);
      if !ok {
        assert false;
        break;
      }
      DecodeFromStep(text, index);
      codepoints := codepoints + [slice];
      index := index + slice.length;
    }
  }

  // ----- Edge whitespace -----

  datatype EdgeWhitespaceParts = EdgeWhitespaceParts(
    leading: Str, leadingAscii: Str, leadingNonAscii: Str,
    trailing: Str, trailingAscii: Str, trailingNonAscii: Str)

  const NoEdges := EdgeWhitespaceParts([], [], [], [], [], [])

  /** Which slices a gathered part keeps. */
  datatype Part = Every | AsciiOnly | NonAsciiOnly

  predicate Keeps(part: Part, s: Slice)
  {
    match part
    case Every => true
    case AsciiOnly => IsAsciiWhitespaceCodePoint(s.codepoint)
    case NonAsciiOnly => !IsAsciiWhitespaceCodePoint(s.codepoint)
  }

  /** `text.substr(start, length)`. */
  function SliceBytes(text: Str, s: Slice): Str
  {
    if s.start + s.length <= |text| then text[s.start..s.start + s.length]
    else if s.start <= |text| then text[s.start..]
    else []
  }

  /** The bytes of the slices of `cs` that `part` keeps, in order. */
  function Gather(text: Str, cs: seq<Slice>, part: Part): Str
  {
    if cs == [] then []
    else
      var last := cs[|cs| - 1];
      Gather(text, cs[..|cs| - 1], part) + (if Keeps(part, last) then SliceBytes(text, last) else [])
  }

  /** The slices of the leading whitespace run. */
  function LeadingRun(cs: seq<Slice>): seq<Slice>
  {
    cs[..FirstNonWs(cs)]
  }

  /** The slices of the trailing whitespace run; none when every slice is whitespace. */
  function TrailingRun(cs: seq<Slice>): seq<Slice>
  {
    if FirstNonWs(cs) == |cs| then [] else cs[LastNonWs(cs) + 1..]
  }

  /** What `computeEdgeWhitespace` returns for `text`. */
  function EdgeWhitespace(text: Str): EdgeWhitespaceParts
  {
    var cs := Decode(text);
    var lead := LeadingRun(cs);
    var trail := TrailingRun(cs);
    EdgeWhitespaceParts(
      Gather(text, lead, Every), Gather(text, lead, AsciiOnly), Gather(text, lead, NonAsciiOnly),
      Gather(text, trail, Every), Gather(text, trail, AsciiOnly), Gather(text, trail, NonAsciiOnly))
  }

  /** Gathering one more slice at the back. */
  lemma GatherSnoc(text: Str, cs: seq<Slice>, k: nat, part: Part)
    requires k < |cs|
    ensures Gather(text, cs[..k + 1], part)
      == Gather(text, cs[..k], part) + (if Keeps(part, cs[k]) then SliceBytes(text, cs[k]) else [])
  {
    assert cs[..k + 1][..k] == cs[..k];
  }

  /** Gathering one more slice at the front. */
  lemma {:induction false} GatherCons(text: Str, s: Slice, cs: seq<Slice>, part: Part)
    ensures Gather(text, [s] + cs, part) == (if Keeps(part, s) then SliceBytes(text, s) else []) + Gather(text, cs, part)
    decreases |cs|
  {
    if cs != [] {
      var init := cs[..|cs| - 1];
      GatherCons(text, s, init, part);
      assert ([s] + cs)[..|[s] + cs| - 1] == [s] + init;
    }
  }

  /** `computeEdgeWhitespace`: append the leading run from the front, prepend the trailing run from the back. */
  method ComputeEdgeWhitespace(text: Str) returns (parts: EdgeWhitespaceParts)
    ensures parts == EdgeWhitespace(text)
  {
    parts := NoEdges;
    var codepoints := ToCodepoints(text);
    if codepoints == [] {
      return;
    }
    var leadingEnd := FirstNonWs(codepoints);
    var leading, leadingAscii, leadingNonAscii := CollectLeading(text, codepoints, leadingEnd);
    parts := parts.(leading := leading, leadingAscii := leadingAscii, leadingNonAscii := leadingNonAscii);
    if leadingEnd == |codepoints| {
      return;
    }
    var trailingStart := LastNonWs(codepoints) + 1;
    var trailing, trailingAscii, trailingNonAscii := CollectTrailing(text, codepoints, trailingStart);
    parts := parts.(trailing := trailing, trailingAscii := trailingAscii, trailingNonAscii := trailingNonAscii);
  }

  /** The `for_each` over the leading run: `appendLeading` for each slice. */
  method CollectLeading(text: Str, cs: seq<Slice>, end: nat) returns (all: Str, ascii: Str, nonAscii: Str)
    requires end <= |cs|
    ensures all == Gather(text, cs[..end], Every)
    ensures ascii == Gather(text, cs[..end], AsciiOnly)
    ensures nonAscii == Gather(text, cs[..end], NonAsciiOnly)
  {
    all, ascii, nonAscii := [], [], [];
    for k := 0 to end
      invariant all == Gather(text, cs[..k], Every)
      invariant ascii == Gather(text, cs[..k], AsciiOnly)
      invariant nonAscii == Gather(text, cs[..k], NonAsciiOnly)
    {
      var slice := cs[k];
      var bytes := SliceBytes(text, slice);
      GatherSnoc(text, cs, k, Every);
      GatherSnoc(text, cs, k, AsciiOnly);
      GatherSnoc(text, cs, k, NonAsciiOnly);
      all := all + bytes;
      if IsAsciiWhitespaceCodePoint(slice.codepoint) {
        ascii := ascii + bytes;
      } else {
        nonAscii := nonAscii + bytes;
      }
    }
  }

  /** The `for_each` over the trailing run from the back: `prependTrailing` for each slice. */
  method CollectTrailing(text: Str, cs: seq<Slice>, start: nat) returns (all: Str, ascii: Str, nonAscii: Str)
    requires start <= |cs|
    ensures all == Gather(text, cs[start..], Every)
    ensures ascii == Gather(text, cs[start..], AsciiOnly)
    ensures nonAscii == Gather(text, cs[start..], NonAsciiOnly)
  {
    all, ascii, nonAscii := [], [], [];
    var k := |cs|;
    while k > start
      invariant start <= k <= |cs|
      invariant all == Gather(text, cs[k..], Every)
      invariant ascii == Gather(text, cs[k..], AsciiOnly)
      invariant nonAscii == Gather(text, cs[k..], NonAsciiOnly)
    {
      k := k - 1;
      var slice := cs[k];
      var bytes := SliceBytes(text, slice);
      assert cs[k..] == [slice] + cs[k + 1..];
      GatherCons(text, slice, cs[k + 1..], Every);
      GatherCons(text, slice, cs[k + 1..], AsciiOnly);
      GatherCons(text, slice, cs[k + 1..], NonAsciiOnly);
      all := bytes + all;
      if IsAsciiWhitespaceCodePoint(slice.codepoint) {
        ascii := bytes + ascii;
      } else {
        nonAscii := bytes + nonAscii;
      }
    }
  }

  /** The bytes of a tiling run are the text between its ends. */
  lemma {:induction false} GatherTiling(text: Str, cs: seq<Slice>, from: nat, to: nat)
    requires Tiling(cs, from, to) && to <= |text|
    ensures from <= to
    ensures Gather(text, cs, Every) == text[from..to]
    decreases |cs|
  {
    if cs != [] {
      var last := cs[|cs| - 1];
      var init := cs[..|cs| - 1];
      TilingBounds(cs, from, to);
      assert Tiling(init, from, last.start) by {
        if init != [] {
          assert init[|init| - 1] == cs[|cs| - 2];
        }
      }
      GatherTiling(text, init, from, last.start);
      assert text[from..last.start] + text[last.start..to] == text[from..to];
    }
  }

  /** Every slice of a tiling lies between its ends. */
  lemma TilingBounds(cs: seq<Slice>, from: nat, to: nat)
    requires Tiling(cs, from, to) && cs != []
    ensures from <= cs[|cs| - 1].start && cs[|cs| - 1].start + cs[|cs| - 1].length == to
  {
    TilingOrdered(cs, from, to, 0, |cs| - 1);
  }

  /** The ASCII and non-ASCII parts share out the bytes of the whole run. */
  lemma {:induction false} GatherPartition(text: Str, cs: seq<Slice>)
    ensures multiset(Gather(text, cs, Every)) == multiset(Gather(text, cs, AsciiOnly)) + multiset(Gather(text, cs, NonAsciiOnly))
    ensures |Gather(text, cs, Every)| == |Gather(text, cs, AsciiOnly)| + |Gather(text, cs, NonAsciiOnly)|
    decreases |cs|
  {
    if cs != [] {
      GatherPartition(text, cs[..|cs| - 1]);
    }
  }

  /** The bytes before slice `f` of a tiling of the whole text. */
  lemma BytesBefore(text: Str, cs: seq<Slice>, f: nat)
    requires Tiling(cs, 0, |text|) && f < |cs|
    ensures cs[f].start <= |text|
    ensures Gather(text, cs[..f], Every) == text[..cs[f].start]
  {
    TilingOrdered(cs, 0, |text|, f, f);
    if f > 0 {
      SubTiling(cs, 0, |text|, 0, f - 1);
      assert cs[..f] == cs[0..f - 1 + 1];
      GatherTiling(text, cs[..f], 0, cs[f].start);
    } else {
      assert cs[..f] == [];
    }
  }

  /** The slices after slice `l` of a tiling tile the rest of the bytes. */
  lemma TailTiling(cs: seq<Slice>, to: nat, l: nat)
    requires Tiling(cs, 0, to) && l < |cs|
    ensures Tiling(cs[l + 1..], cs[l].start + cs[l].length, to)
  {
    var rest := cs[l + 1..];
    forall m | 0 <= m < |rest| - 1
      ensures rest[m + 1].start == rest[m].start + rest[m].length
    {
      assert rest[m] == cs[l + 1 + m] && rest[m + 1] == cs[l + 1 + m + 1];
    }
    if rest != [] {
      assert rest[0] == cs[l + 1];
      assert rest[|rest| - 1] == cs[|cs| - 1];
    }
  }

  /** The bytes after slice `l` of a tiling of the whole text. */
  lemma BytesAfter(text: Str, cs: seq<Slice>, l: nat)
    requires Tiling(cs, 0, |text|) && l < |cs|
    ensures cs[l].start + cs[l].length <= |text|
    ensures Gather(text, cs[l + 1..], Every) == text[cs[l].start + cs[l].length..]
  {
    TailTiling(cs, |text|, l);
    GatherTiling(text, cs[l + 1..], cs[l].start + cs[l].length, |text|);
  }

  /** A tiling of the whole text: the bytes before slice `f`, from `f` to the end of `l`, and after `l`. */
  lemma TilingSplit(text: Str, cs: seq<Slice>, f: nat, l: nat)
    requires Tiling(cs, 0, |text|) && f <= l < |cs|
    ensures cs[f].start <= cs[l].start + cs[l].length <= |text|
    ensures Gather(text, cs[..f], Every) + text[cs[f].start..cs[l].start + cs[l].length]
      + Gather(text, cs[l + 1..], Every) == text
  {
    TilingOrdered(cs, 0, |text|, f, l);
    BytesBefore(text, cs, f);
    BytesAfter(text, cs, l);
    ThreeParts(text, cs[f].start, cs[l].start + cs[l].length);
  }

  lemma ThreeParts(t: Str, a: nat, b: nat)
    requires a <= b <= |t|
    ensures t[..a] + t[a..b] + t[b..] == t
  {
  }

  /**
   * The text is its leading whitespace, then what `trimStr` keeps, then its
   * trailing whitespace; text that is all whitespace is all leading
   * whitespace. Each edge splits into its ASCII and non-ASCII bytes.
   */
  lemma EdgeWhitespaceSplit(text: Str)
    ensures var e := EdgeWhitespace(text);
      e.leading + TrimStr(text) + e.trailing == text
    ensures TrimStr(text) == [] ==> EdgeWhitespace(text).leading == text && EdgeWhitespace(text).trailing == []
    ensures var e := EdgeWhitespace(text);
      multiset(e.leading) == multiset(e.leadingAscii) + multiset(e.leadingNonAscii)
      && multiset(e.trailing) == multiset(e.trailingAscii) + multiset(e.trailingNonAscii)
  {
    var cs := Decode(text);
    GatherPartition(text, LeadingRun(cs));
    GatherPartition(text, TrailingRun(cs));
    if FirstNonWs(cs) == |cs| {
      EdgesAllWhitespace(text);
    } else {
      EdgesAround(text);
    }
  }

  lemma EdgesAllWhitespace(text: Str)
    requires FirstNonWs(Decode(text)) == |Decode(text)|
    ensures Gather(text, LeadingRun(Decode(text)), Every) == text
    ensures TrailingRun(Decode(text)) == [] && TrimStr(text) == []
  {
    var cs := Decode(text);
    DecodeTiles(text);
    assert LeadingRun(cs) == cs;
    GatherTiling(text, cs, 0, |text|);
    assert TrimRange(text) == (0, 0);
  }

  lemma EdgesAround(text: Str)
    requires FirstNonWs(Decode(text)) < |Decode(text)|
    ensures Gather(text, LeadingRun(Decode(text)), Every) + TrimStr(text)
      + Gather(text, TrailingRun(Decode(text)), Every) == text
    ensures TrimStr(text) != []
  {
    var f, l := TrimCut(text);
    EdgesAroundOf(text, Decode(text), f, l, TrimStr(text));
  }

  /** `EdgesAround` for any tiling of `text`, cut between slices `f` and `l`. */
  lemma EdgesAroundOf(text: Str, cs: seq<Slice>, f: nat, l: nat, kept: Str)
    requires CutAt(text, cs, f, l, kept)
    ensures Gather(text, LeadingRun(cs), Every) + kept + Gather(text, TrailingRun(cs), Every) == text
    ensures kept != []
  {
    TilingSplit(text, cs, f, l);
    assert LeadingRun(cs) == cs[..f];
    assert TrailingRun(cs) == cs[l + 1..];
  }

  /**
   * The bytes of a whitespace slice: an ASCII whitespace code point is its
   * own single byte; any other whitespace code point is spelled with bytes at
   * or above 0x80.
   */
  lemma WsSliceBytes(text: Str, s: Slice)
    requires s.start < |text| && s == DecodeAt(text, s.start) && IsWsSlice(s)
    ensures IsAsciiWhitespaceCodePoint(s.codepoint) ==>
      SliceBytes(text, s) == [text[s.start]] && text[s.start] as nat == s.codepoint
    ensures !IsAsciiWhitespaceCodePoint(s.codepoint) ==> forall c :: c in SliceBytes(text, s) ==> c as int >= 0x80
  {
    DecodeAtFallback(text, s.start);
    var bytes := SliceBytes(text, s);
    if s.length > 1 {
      forall c | c in bytes
        ensures c as int >= 0x80
      {
        var i :| 0 <= i < |bytes| && bytes[i] == c;
        assert bytes[i] == text[s.start + i];
      }
    }
  }

  /** Slices the decoder reads, all of them whitespace. */
  predicate WsDecodes(text: Str, cs: seq<Slice>)
  {
    forall k :: 0 <= k < |cs| ==> cs[k].start < |text| && cs[k] == DecodeAt(text, cs[k].start) && IsWsSlice(cs[k])
  }

  /** The ASCII part is ASCII whitespace bytes; the non-ASCII part holds no byte below 0x80. */
  lemma {:induction false} GatherBytes(text: Str, cs: seq<Slice>)
    requires WsDecodes(text, cs)
    ensures forall c :: c in Gather(text, cs, AsciiOnly) ==> IsAsciiWhitespaceCodePoint(c as nat)
    ensures forall c :: c in Gather(text, cs, NonAsciiOnly) ==> c as int >= 0x80
    decreases |cs|
  {
    if cs != [] {
      var last := cs[|cs| - 1];
      GatherBytes(text, cs[..|cs| - 1]);
      WsSliceBytes(text, last);
    }
  }

  /** A run of whitespace slices of a decoding. */
  lemma RunDecodes(text: Str, cs: seq<Slice>, a: nat, b: nat)
    requires a <= b <= |cs|
    requires forall k :: 0 <= k < |cs| ==> cs[k].start < |text| && cs[k] == DecodeAt(text, cs[k].start)
    requires forall k :: a <= k < b ==> IsWsSlice(cs[k])
    ensures WsDecodes(text, cs[a..b])
  {
    forall k | 0 <= k < b - a
      ensures cs[a..b][k] == cs[a + k]
    {
    }
  }

  /** Both edge runs consist of whitespace slices the decoder reads. */
  lemma EdgeRunsWs(text: Str)
    ensures WsDecodes(text, LeadingRun(Decode(text)))
    ensures WsDecodes(text, TrailingRun(Decode(text)))
  {
    DecodeTiles(text);
    LeadingRunWs(text, Decode(text));
    TrailingRunWs(text, Decode(text));
  }

  lemma LeadingRunWs(text: Str, cs: seq<Slice>)
    requires forall k :: 0 <= k < |cs| ==> cs[k].start < |text| && cs[k] == DecodeAt(text, cs[k].start)
    ensures WsDecodes(text, LeadingRun(cs))
  {
    var f := FirstNonWs(cs);
    RunDecodes(text, cs, 0, f);
    assert LeadingRun(cs) == cs[0..f];
  }

  lemma TrailingRunWs(text: Str, cs: seq<Slice>)
    requires forall k :: 0 <= k < |cs| ==> cs[k].start < |text| && cs[k] == DecodeAt(text, cs[k].start)
    ensures WsDecodes(text, TrailingRun(cs))
  {
    if FirstNonWs(cs) < |cs| {
      var l := LastNonWs(cs);
      RunDecodes(text, cs, l + 1, |cs|);
      assert TrailingRun(cs) == cs[l + 1..|cs|];
    }
  }

  /** The ASCII parts are ASCII whitespace; the non-ASCII parts have no byte below 0x80. */
  lemma EdgeWhitespaceBytes(text: Str)
    ensures var e := EdgeWhitespace(text);
      (forall c :: c in e.leadingAscii ==> IsAsciiWhitespaceCodePoint(c as nat))
      && (forall c :: c in e.leadingNonAscii ==> c as int >= 0x80)
      && (forall c :: c in e.trailingAscii ==> IsAsciiWhitespaceCodePoint(c as nat))
      && (forall c :: c in e.trailingNonAscii ==> c as int >= 0x80)
  {
    EdgeRunsWs(text);
    GatherBytes(text, LeadingRun(Decode(text)));
    GatherBytes(text, TrailingRun(Decode(text)));
  }

  // ----- NBSP encoding -----

  /** `encodeNbsp`: each UTF-8 NBSP (`C2 A0`) becomes `&nbsp;`; every other byte is kept. */
  function EncodedNbsp(t: Str): Str
    decreases |t|
  {
    if t == [] then []
    else if Nbsp <= t then "&nbsp;" + EncodedNbsp(t[2..])
    else [t[0]] + EncodedNbsp(t[1..])
  }

  /** The bytes `i ..` of `t` start with an NBSP. */
  predicate NbspAt(t: Str, i: nat)
  {
    i + 1 < |t| && t[i] == Nbsp[0] && t[i + 1] == Nbsp[1]
  }

  lemma EncodedNbspStep(t: Str, i: nat)
    requires i < |t|
    ensures NbspAt(t, i) ==> forall r: Str ::
      r + EncodedNbsp(t[i..]) == (r + "&nbsp;") + EncodedNbsp(t[i + 2..])
    ensures !NbspAt(t, i) ==> forall r: Str ::
      r + EncodedNbsp(t[i..]) == (r + [t[i]]) + EncodedNbsp(t[i + 1..])
  {
    assert t[i..][1..] == t[i + 1..];
    if NbspAt(t, i) {
      assert t[i..][2..] == t[i + 2..];
      assert Nbsp <= t[i..];
    } else {
      assert !(Nbsp <= t[i..]);
    }
  }

  /** `encodeNbsp` in `node.cpp`: an index loop that compares two bytes at a time. */
  method EncodeNbsp(text: Str) returns (result: Str)
    ensures result == EncodedNbsp(text)
  {
    result := [];
    var i := 0;
    while i < |text|
      invariant i <= |text|
      invariant result + EncodedNbsp(text[i..]) == EncodedNbsp(text)
    {
      EncodedNbspStep(text, i);
      if i + 1 < |text| && text[i] == Nbsp[0] && text[i + 1] == Nbsp[1] {
        result := result + "&nbsp;";
        i := i + 2;
      } else {
        result := result + [text[i]];
        i := i + 1;
      }
    }
    assert text[i..] == [];
  }

  /** No NBSP is left in the text. */
  predicate NoNbsp(t: Str)
  {
    forall i :: 0 <= i < |t| ==> !NbspAt(t, i)
  }

  /** The first byte of an encoding: `&` for an NBSP, the byte itself otherwise. */
  lemma EncodedNbspFirst(t: Str)
    requires t != []
    ensures EncodedNbsp(t) != []
    ensures EncodedNbsp(t)[0] == (if NbspAt(t, 0) then '&' else t[0])
  {
    assert NbspAt(t, 0) <==> Nbsp <= t;
  }

  lemma NoNbspJoin(a: Str, b: Str)
    requires NoNbsp(a) && NoNbsp(b)
    requires a != [] && b != [] ==> !(a[|a| - 1] == Nbsp[0] && b[0] == Nbsp[1])
    ensures NoNbsp(a + b)
  {
    var t := a + b;
    forall i | 0 <= i < |t|
      ensures !NbspAt(t, i)
    {
      if i + 1 < |a| {
        assert !NbspAt(a, i);
      } else if i >= |a| {
        assert !NbspAt(b, i - |a|);
      }
    }
  }

  /** Every NBSP is encoded: none survives. */
  lemma {:induction false} EncodedNbspClean(t: Str)
    ensures NoNbsp(EncodedNbsp(t))
    decreases |t|
  {
    if t != [] {
      if Nbsp <= t {
        EncodedNbspClean(t[2..]);
        NoNbspJoin("&nbsp;", EncodedNbsp(t[2..]));
      } else {
        var rest := t[1..];
        EncodedNbspClean(rest);
        if rest != [] {
          EncodedNbspFirst(rest);
          assert t[1] == rest[0];
          assert !(|t| >= 2 && t[0] == Nbsp[0] && t[1] == Nbsp[1]);
        }
        NoNbspJoin([t[0]], EncodedNbsp(rest));
      }
    }
  }

  /** Text without an NBSP is left as it is. */
  lemma {:induction false} EncodedNbspUnchanged(t: Str)
    requires NoNbsp(t)
    ensures EncodedNbsp(t) == t
    decreases |t|
  {
    if t != [] {
      assert !NbspAt(t, 0);
      assert !(Nbsp <= t);
      var rest := t[1..];
      assert NoNbsp(rest) by {
        forall i | 0 <= i < |rest|
          ensures !NbspAt(rest, i)
        {
          assert !NbspAt(t, i + 1);
        }
      }
      EncodedNbspUnchanged(rest);
      assert [t[0]] + rest == t;
    }
  }

  /** Encoding twice is encoding once. */
  lemma EncodedNbspIdempotent(t: Str)
    ensures EncodedNbsp(EncodedNbsp(t)) == EncodedNbsp(t)
  {
    EncodedNbspClean(t);
    EncodedNbspUnchanged(EncodedNbsp(t));
  }

  /** On text without `&`, decoding entities undoes the encoding. */
  lemma {:induction false} EncodedNbspUndone(t: Str)
    requires '&' !in t
    ensures TidyAdapter.DecodeEntities(EncodedNbsp(t)) == t
    decreases |t|
  {
    if t != [] {
      if Nbsp <= t {
        var rest := t[2..];
        assert t == Nbsp + rest;
        EncodedNbspUndone(rest);
        TidyAdapter.DecodeNbspFirst(EncodedNbsp(rest));
      } else {
        var rest := t[1..];
        assert t == [t[0]] + rest;
        EncodedNbspUndone(rest);
        TidyAdapter.DecodeByteFirst(t[0], EncodedNbsp(rest));
      }
    }
  }

  // ----- Siblings -----

  datatype FlankSide = Left | Right

  /** `startsWithAsciiSpace`. */
  predicate StartsWithAsciiSpace(t: Str) { t != [] && t[0] == ' ' }

  /** `endsWithAsciiSpace`. */
  predicate EndsWithAsciiSpace(t: Str) { t != [] && t[|t| - 1] == ' ' }

  /**
   * `adjacentSibling`: the neighbour on `side` among the children of the
   * node's parent; none when the parent is not an element.
   */
  function AdjacentSibling(root: Node, p: Path, side: FlankSide): (r: Option<Path>)
    requires ValidPath(root, p)
    ensures r.Some? ==> p != [] && ValidPath(root, r.value) && |r.value| == |p| && r.value[..|p| - 1] == p[..|p| - 1]
  {
    if p == [] then None
    else
      var up := p[..|p| - 1];
      var i := p[|p| - 1];
      PrefixValid(root, p, |p| - 1);
      ChildPath(root, up, i);
      assert p == up + [i];
      var parent := At(root, up);
      if !parent.Element? then None
      else if side == Left then
        if i == 0 then None else (ChildPath(root, up, i - 1); Some(up + [i - 1]))
      else if i + 1 < |parent.children| then (ChildPath(root, up, i + 1); Some(up + [i + 1]))
      else None
  }

  /** The scan of `adjacentSibling`: walk the parent's children, remembering the previous one. */
  method FindAdjacentSibling(root: Node, p: Path, side: FlankSide) returns (r: Option<Path>)
    requires ValidPath(root, p)
    ensures r == AdjacentSibling(root, p, side)
  {
    if p == [] {
      return None;
    }
    var up := p[..|p| - 1];
    var i := p[|p| - 1];
    PrefixValid(root, p, |p| - 1);
    ChildPath(root, up, i);
    assert p == up + [i];
    var parent := At(root, up);
    if !parent.Element? {
      return None;
    }
    var previous: Option<Path> := None;
    var found := false;
    var j := 0;
    while j < |parent.children|
      invariant j <= |parent.children|
      invariant !found ==> j <= i && previous == (if j == 0 then None else Some(up + [j - 1]))
      invariant found ==> j == i + 1 && side == Right
    {
      if found {
        return Some(up + [j]);
      }
      if j == i {
        if side == Left {
          return previous;
        }
        found := true;
      } else {
        previous := Some(up + [j]);
      }
      j := j + 1;
    }
    return None;
  }

  /** Left and right neighbours are inverse to each other. */
  lemma SiblingsInverse(root: Node, p: Path)
    requires ValidPath(root, p)
    ensures var l := AdjacentSibling(root, p, Left);
      l.Some? ==> AdjacentSibling(root, l.value, Right) == Some(p)
    ensures var r := AdjacentSibling(root, p, Right);
      r.Some? ==> AdjacentSibling(root, r.value, Left) == Some(p)
  {
    if p != [] {
      var up := p[..|p| - 1];
      assert p == up + [p[|p| - 1]];
      var l := AdjacentSibling(root, p, Left);
      if l.Some? {
        assert l.value[..|l.value| - 1] == up;
      }
      var r := AdjacentSibling(root, p, Right);
      if r.Some? {
        assert r.value[..|r.value| - 1] == up;
      }
    }
  }

  /**
   * `isFlankedByWhitespace`: the neighbour on `side` is inline text whose
   * collected text has an ASCII space on the side facing the node. A block
   * element, a code element when code is preformatted, and any node other
   * than an element or text do not count.
   */
  predicate IsFlankedByWhitespace(side: FlankSide, root: Node, p: Path, ov: Collapsed, preformattedCode: bool)
    requires ValidPath(root, p)
  {
    match AdjacentSibling(root, p, side)
    case None => false
    case Some(q) =>
      var sibling := At(root, q);
      if sibling.Element? && ((preformattedCode && IsCodeNode(root, q)) || IsBlock(sibling)) then false
      else if !sibling.Element? && !sibling.Text? then false
      else
        var text := CollectText(sibling, q, ov);
        if side == Left then EndsWithAsciiSpace(text) else StartsWithAsciiSpace(text)
  }

  // ----- Flanking whitespace -----

  datatype FlankingWhitespace = FlankingWhitespace(leading: Str, trailing: Str)

  /** `getNodeText`. */
  function NodeTextAt(root: Node, p: Path, ov: Collapsed): Str
    requires ValidPath(root, p)
  {
    CollectText(At(root, p), p, ov)
  }

  /**
   * The whitespace a flank keeps before NBSP encoding: all of the edge, or
   * only its non-ASCII part when the edge has ASCII whitespace and the
   * neighbour already supplies a space.
   */
  function FlankBytes(all: Str, ascii: Str, nonAscii: Str, flanked: bool): Str
  {
    if ascii != [] && flanked then nonAscii else all
  }

  /** `flankingWhitespace`. */
  function Flanking(root: Node, p: Path, ov: Collapsed, preformattedCode: bool): FlankingWhitespace
    requires ValidPath(root, p)
  {
    var n := At(root, p);
    FlankingOf(IsBlock(n) || (preformattedCode && IsCodeNode(root, p)), NodeTextAt(root, p, ov),
      IsFlankedByWhitespace(Left, root, p, ov, preformattedCode),
      IsFlankedByWhitespace(Right, root, p, ov, preformattedCode))
  }

  /**
   * The flanks of a node with text `text`: none when `skipped` (a block, or
   * code when code is preformatted) or when there is no text; otherwise the
   * edges, NBSP-encoded, each reduced to its non-ASCII part when the
   * neighbour on that side supplies a space.
   */
  function FlankingOf(skipped: bool, text: Str, left: bool, right: bool): FlankingWhitespace
  {
    if skipped || text == [] then FlankingWhitespace([], [])
    else
      var e := EdgeWhitespace(text);
      FlankingWhitespace(
        EncodedNbsp(FlankBytes(e.leading, e.leadingAscii, e.leadingNonAscii, left)),
        EncodedNbsp(FlankBytes(e.trailing, e.trailingAscii, e.trailingNonAscii, right)))
  }

  /** What one flank keeps: the facts `flankingWhitespace` relies on, for either side. */
  lemma FlankKept(all: Str, ascii: Str, nonAscii: Str, flanked: bool)
    requires multiset(all) == multiset(ascii) + multiset(nonAscii)
    requires forall c :: c in ascii ==> IsAsciiWhitespaceCodePoint(c as nat)
    requires forall c :: c in nonAscii ==> c as int >= 0x80
    ensures var raw := FlankBytes(all, ascii, nonAscii, flanked);
      TidyAdapter.DecodeEntities(EncodedNbsp(raw)) == raw && NoNbsp(EncodedNbsp(raw))
      && multiset(raw) <= multiset(all)
      && (flanked ==> forall c :: c in raw ==> c as int >= 0x80)
      && (!flanked ==> raw == all)
  {
    var raw := FlankBytes(all, ascii, nonAscii, flanked);
    forall c | c in all
      ensures c in ascii || c in nonAscii
    {
      assert c in multiset(all);
    }
    forall c | c in nonAscii
      ensures c in all
    {
      assert c in multiset(nonAscii);
      assert c in multiset(all);
    }
    EncodedNbspUndone(raw);
    EncodedNbspClean(raw);
  }

  /**
   * The flanks hold no NBSP, only `&nbsp;`, and decode to whitespace taken
   * from the edges of the node's text. A flank whose neighbour already
   * supplies a space keeps no ASCII byte; when neither neighbour does, the
   * decoded flanks around `trimStr` of the text give the text back. Blocks and
   * (with preformatted code) code nodes have empty flanks.
   */
  lemma FlankingMeans(root: Node, p: Path, ov: Collapsed, preformattedCode: bool)
    requires ValidPath(root, p)
    ensures var w := Flanking(root, p, ov, preformattedCode);
      NoNbsp(w.leading) && NoNbsp(w.trailing)
    ensures var n := At(root, p);
      IsBlock(n) || (preformattedCode && IsCodeNode(root, p)) ==>
        Flanking(root, p, ov, preformattedCode) == FlankingWhitespace([], [])
    ensures var w := Flanking(root, p, ov, preformattedCode);
      var e := EdgeWhitespace(NodeTextAt(root, p, ov));
      multiset(TidyAdapter.DecodeEntities(w.leading)) <= multiset(e.leading)
      && multiset(TidyAdapter.DecodeEntities(w.trailing)) <= multiset(e.trailing)
    ensures var lead := TidyAdapter.DecodeEntities(Flanking(root, p, ov, preformattedCode).leading);
      IsFlankedByWhitespace(Left, root, p, ov, preformattedCode) ==> forall c :: c in lead ==> c as int >= 0x80
    ensures var trail := TidyAdapter.DecodeEntities(Flanking(root, p, ov, preformattedCode).trailing);
      IsFlankedByWhitespace(Right, root, p, ov, preformattedCode) ==> forall c :: c in trail ==> c as int >= 0x80
    ensures var n := At(root, p);
      var text := NodeTextAt(root, p, ov);
      var w := Flanking(root, p, ov, preformattedCode);
      !IsBlock(n) && !(preformattedCode && IsCodeNode(root, p))
      && !IsFlankedByWhitespace(Left, root, p, ov, preformattedCode)
      && !IsFlankedByWhitespace(Right, root, p, ov, preformattedCode) ==>
        TidyAdapter.DecodeEntities(w.leading) + TrimStr(text) + TidyAdapter.DecodeEntities(w.trailing) == text
  {
    var n := At(root, p);
    FlankingOfMeans(IsBlock(n) || (preformattedCode && IsCodeNode(root, p)), NodeTextAt(root, p, ov),
      IsFlankedByWhitespace(Left, root, p, ov, preformattedCode),
      IsFlankedByWhitespace(Right, root, p, ov, preformattedCode));
  }

  lemma FlankingOfMeans(skipped: bool, text: Str, left: bool, right: bool)
    ensures var w := FlankingOf(skipped, text, left, right);
      NoNbsp(w.leading) && NoNbsp(w.trailing)
    ensures skipped ==> FlankingOf(skipped, text, left, right) == FlankingWhitespace([], [])
    ensures var w := FlankingOf(skipped, text, left, right);
      var e := EdgeWhitespace(text);
      multiset(TidyAdapter.DecodeEntities(w.leading)) <= multiset(e.leading)
      && multiset(TidyAdapter.DecodeEntities(w.trailing)) <= multiset(e.trailing)
    ensures var lead := TidyAdapter.DecodeEntities(FlankingOf(skipped, text, left, right).leading);
      left ==> forall c :: c in lead ==> c as int >= 0x80
    ensures var trail := TidyAdapter.DecodeEntities(FlankingOf(skipped, text, left, right).trailing);
      right ==> forall c :: c in trail ==> c as int >= 0x80
    ensures var w := FlankingOf(skipped, text, left, right);
      !skipped && !left && !right ==>
        TidyAdapter.DecodeEntities(w.leading) + TrimStr(text) + TidyAdapter.DecodeEntities(w.trailing) == text
  {
    var e := EdgeWhitespace(text);
    EdgeWhitespaceSplit(text);
    EdgeWhitespaceBytes(text);
    FlankKept(e.leading, e.leadingAscii, e.leadingNonAscii, left);
    FlankKept(e.trailing, e.trailingAscii, e.trailingNonAscii, right);
    assert TidyAdapter.DecodeEntities([]) == [];
    if text == [] {
      assert TrimStr(text) == [];
    }
  }

  // ----- Blankness -----

  /** Every slice is whitespace. */
  predicate AllWhitespace(cs: seq<Slice>)
  {
    forall k :: 0 <= k < |cs| ==> IsWsSlice(cs[k])
  }

  /**
   * `isBlank`: not a void or meaningful-when-blank element, nothing but
   * whitespace in its collected text, and no void or meaningful-when-blank
   * descendant.
   */
  predicate IsBlank(n: Node, p: Path, ov: Collapsed)
  {
    !(n.Element? && (IsVoid(n) || IsMeaningfulWhenBlank(n)))
    && AllWhitespace(Decode(CollectText(n, p, ov)))
    && !(n.Element? && (HasVoid(n) || HasMeaningfulWhenBlank(n)))
  }

  /** `isBlank` with its scan over the decoded text. */
  method CheckBlank(n: Node, p: Path, ov: Collapsed) returns (blank: bool)
    ensures blank == IsBlank(n, p, ov)
  {
    if n.Element? && (IsVoid(n) || IsMeaningfulWhenBlank(n)) {
      return false;
    }
    var text := CollectText(n, p, ov);
    var codepoints := ToCodepoints(text);
    for k := 0 to |codepoints|
      invariant forall j :: 0 <= j < k ==> IsWsSlice(codepoints[j])
    {
      if !IsUnicodeWhitespace(codepoints[k].codepoint) {
        return false;
      }
    }
    if n.Element? && (HasVoid(n) || HasMeaningfulWhenBlank(n)) {
      return false;
    }
    return true;
  }

  /**
   * A node is blank exactly when `trimStr` leaves nothing of its text and
   * neither it nor, for an element, any node below it is void or meaningful
   * when blank.
   */
  lemma IsBlankMeans(n: Node, p: Path, ov: Collapsed)
    requires NoDocument(n)
    ensures IsBlank(n, p, ov) <==>
      TrimStr(CollectText(n, p, ov)) == []
      && !IsVoid(n) && !IsMeaningfulWhenBlank(n)
      && !(n.Element? && SomeStrictDescendantHas(n, VoidTags))
      && !(n.Element? && SomeStrictDescendantHas(n, MeaningfulWhenBlankTags))
  {
    TrimStrEnds(CollectText(n, p, ov));
    HasDescendantWithTagMeans(n, VoidTags);
    HasDescendantWithTagMeans(n, MeaningfulWhenBlankTags);
  }

  // ----- Metadata -----

  datatype NodeMetadata = NodeMetadata(
    isBlock: bool, isCode: bool, isBlank: bool, isVoid: bool,
    isMeaningfulWhenBlank: bool, hasMeaningfulWhenBlank: bool, hasVoidDescendant: bool,
    flankingWhitespace: FlankingWhitespace)

  /**
   * `analyzeNode`. A blank node is neither void nor meaningful when blank and
   * has no such descendant; a block node, and a code node when code is
   * preformatted, has no flanking whitespace.
   */
  function AnalyzeNode(root: Node, p: Path, ov: Collapsed, preformattedCode: bool): (m: NodeMetadata)
    requires ValidPath(root, p)
    ensures m.isBlank ==> !m.isVoid && !m.isMeaningfulWhenBlank && !m.hasVoidDescendant && !m.hasMeaningfulWhenBlank
    ensures m.isBlock || (preformattedCode && m.isCode) ==> m.flankingWhitespace == FlankingWhitespace([], [])
    ensures NoNbsp(m.flankingWhitespace.leading) && NoNbsp(m.flankingWhitespace.trailing)
  {
    var n := At(root, p);
    FlankingMeans(root, p, ov, preformattedCode);
    NodeMetadata(
      IsBlock(n), IsCodeNode(root, p), IsBlank(n, p, ov), IsVoid(n),
      IsMeaningfulWhenBlank(n), HasMeaningfulWhenBlank(n), HasVoid(n),
      Flanking(root, p, ov, preformattedCode))
  }
}

/**
 * UTF-8 lead/continuation byte tests and the lenient decoder they drive.
 * A byte that does not start a well-formed, minimal, non-surrogate scalar
 * value decodes on its own, as a one-byte slice whose code point is the byte.
 */
module Utf8Helpers {

  import opened Strings

  /** The byte as the source's `unsigned char`, for the bit-mask tests. */
  function Bits(b: Byte): bv8 { b as int as bv8 }

  /** `kMinValues`: the smallest code point a sequence of each length may encode. */
  const MinValues: seq<nat> := [0, 0, 0x80, 0x800, 0x10000]
  const SurrogateStart: nat := 0xD800
  const SurrogateEnd: nat := 0xDFFF
  const UnicodeMax: nat := 0x10FFFF

  function IsAsciiLead(lead: Byte): (r: bool)
    ensures r <==> lead as int < 0x80
  {
    Bits(lead) & 0x80 == 0
  }

  function ExpectedLength(lead: Byte): (n: nat)
    ensures 0xC0 <= lead as int <= 0xDF ==> n == 2
    ensures 0xE0 <= lead as int <= 0xEF ==> n == 3
    ensures 0xF0 <= lead as int <= 0xF7 ==> n == 4
    ensures !(0xC0 <= lead as int <= 0xF7) ==> n == 1
  {
    if Bits(lead) & 0xE0 == 0xC0 then 2
    else if Bits(lead) & 0xF0 == 0xE0 then 3
    else if Bits(lead) & 0xF8 == 0xF0 then 4
    else 1
  }

  function IsContinuation(b: Byte): (r: bool)
    ensures r <==> 0x80 <= b as int <= 0xBF
  {
    Bits(b) & 0xC0 == 0x80
  }

  function IsInvalidCodepoint(cp: nat, n: nat): (r: bool)
    requires n <= 4
    ensures r <==> cp < MinValues[n] || (0xD800 <= cp <= 0xDFFF) || cp > 0x10FFFF
  {
    var overlong := cp < MinValues[n];
    var surrogate := cp >= SurrogateStart && cp <= SurrogateEnd;
    var tooLarge := cp > UnicodeMax;
    overlong || surrogate || tooLarge
  }

  /**
   * `lead & (kLeadPayloadMask >> n)`: the payload bits of a lead byte of an
   * `n`-byte sequence. Masking the low 5, 4 or 3 bits of a byte is taking it
   * modulo 32, 16 or 8, which is how it is written here.
   */
  function LeadPayload(lead: Byte, n: nat): (p: nat)
    requires 2 <= n <= 4
    ensures n == 2 ==> p < 0x20
    ensures n == 3 ==> p < 0x10
    ensures n == 4 ==> p < 0x08
  {
    if n == 2 then lead as int % 0x20
    else if n == 3 then lead as int % 0x10
    else lead as int % 0x08
  }

  /** `cont & kContinuationPayload`: the low six bits, taken modulo 64. */
  function ContinuationPayload(b: Byte): (p: nat)
    ensures p < 0x40
  {
    b as int % 0x40
  }

  /** A decoded character: its code point and the byte span it came from. */
  datatype Slice = Slice(codepoint: nat, start: nat, length: nat)

  predicate ContinuationsFollow(text: Str, i: nat, k: nat, n: nat)
    requires i + n <= |text|
  {
    forall j :: i + k <= j < i + n ==> IsContinuation(text[j])
  }

  /**
   * The decoder at byte `i`. Stage `k == 0` reads the lead byte; stage
   * `k >= 1` is the continuation loop, where `cp` holds the code point built
   * from the lead byte and continuation bytes `1 .. k-1`. An invalid or
   * truncated lead, a byte without the continuation signature, or an invalid
   * result falls back to the lead byte alone.
   */
  function DecodeStage(text: Str, i: nat, k: nat, cp: nat): (s: Slice)
    requires i < |text|
    requires k > 0 ==> 2 <= ExpectedLength(text[i]) && i + ExpectedLength(text[i]) <= |text| && k <= ExpectedLength(text[i])
    ensures s.start == i && 1 <= s.length <= 4 && i + s.length <= |text|
    decreases if k == 0 then 5 else 4 - k
  {
    var lead := text[i];
    if k == 0 then
      if IsAsciiLead(lead) then Slice(lead as nat, i, 1)
      else
        var n := ExpectedLength(lead);
        if n == 1 || i + n > |text| then Slice(lead as nat, i, 1)
        else DecodeStage(text, i, 1, LeadPayload(lead, n))
    else
      var n := ExpectedLength(lead);
      if k == n then
        if IsInvalidCodepoint(cp, n) then Slice(lead as nat, i, 1) else Slice(cp, i, n)
      else if !IsContinuation(text[i + k]) then Slice(lead as nat, i, 1)
      else DecodeStage(text, i, k + 1, cp * 64 + ContinuationPayload(text[i + k]))
  }

  /** What the decoder reads at byte `i`. */
  function DecodeAt(text: Str, i: nat): (s: Slice)
    requires i < |text|
    ensures s.start == i && 1 <= s.length <= 4 && i + s.length <= |text|
  {
    DecodeStage(text, i, 0, 0)
  }

  /**
   * A malformed sequence (invalid lead, truncation, missing continuation
   * byte, overlong form, surrogate or value above U+10FFFF) yields a one-byte
   * slice holding the lead byte; a longer slice is always a valid scalar value
   * spelled with the length its lead byte announces.
   */
  lemma DecodeAtFallback(text: Str, i: nat)
    requires i < |text|
    ensures var s := DecodeAt(text, i);
      (s.length == 1 ==> s.codepoint == text[i] as nat)
      && (s.length > 1 ==>
            s.length == ExpectedLength(text[i]) && ContinuationsFollow(text, i, 1, s.length)
            && MinValues[s.length] <= s.codepoint <= 0x10FFFF && !(0xD800 <= s.codepoint <= 0xDFFF))
  {
    DecodeStageFallback(text, i, 0, 0);
  }

  lemma {:induction false} DecodeStageFallback(text: Str, i: nat, k: nat, cp: nat)
    requires i < |text|
    requires k > 0 ==> 2 <= ExpectedLength(text[i]) && i + ExpectedLength(text[i]) <= |text| && k <= ExpectedLength(text[i])
    ensures var s := DecodeStage(text, i, k, cp);
      (s.length == 1 ==> s.codepoint == text[i] as nat)
      && (s.length > 1 ==>
            s.length == ExpectedLength(text[i]) && ContinuationsFollow(text, i, if k == 0 then 1 else k, s.length)
            && !IsInvalidCodepoint(s.codepoint, s.length))
    decreases if k == 0 then 5 else 4 - k
  {
    var lead := text[i];
    var n := ExpectedLength(lead);
    if k == 0 {
      if !IsAsciiLead(lead) && n != 1 && i + n <= |text| {
        DecodeStageFallback(text, i, 1, LeadPayload(lead, n));
      }
    } else if k < n && IsContinuation(text[i + k]) {
      DecodeStageFallback(text, i, k + 1, cp * 64 + ContinuationPayload(text[i + k]));
    }
  }

  /** The slices of `text` from byte `i` on. */
  function DecodeFrom(text: Str, i: nat): seq<Slice>
    requires i <= |text|
    decreases |text| - i
  {
    if i == |text| then [] else
      var s := DecodeAt(text, i);
      [s] + DecodeFrom(text, i + s.length)
  }

  /** The slices of the whole of `text`: the result of `decodeUtf8` and of `toCodepoints`. */
  function Decode(text: Str): seq<Slice>
  {
    DecodeFrom(text, 0)
  }

  /** Slices that cover the bytes `from .. to` exactly, in order, each 1 to 4 bytes long. */
  predicate Tiling(s: seq<Slice>, from: nat, to: nat)
  {
    (forall k :: 0 <= k < |s| ==> 1 <= s[k].length <= 4)
    && (forall k :: 0 <= k < |s| - 1 ==> s[k + 1].start == s[k].start + s[k].length)
    && (if s == [] then from == to else s[0].start == from && s[|s| - 1].start + s[|s| - 1].length == to)
  }

  lemma {:induction false} DecodeFromTiles(text: Str, i: nat)
    requires i <= |text|
    ensures Tiling(DecodeFrom(text, i), i, |text|)
    ensures forall k :: 0 <= k < |DecodeFrom(text, i)| ==>
      i <= DecodeFrom(text, i)[k].start < |text| && DecodeFrom(text, i)[k] == DecodeAt(text, DecodeFrom(text, i)[k].start)
    decreases |text| - i
  {
    if i < |text| {
      var s := DecodeAt(text, i);
      DecodeFromTiles(text, i + s.length);
      DecodeFromUnfold(text, i);
      ConsTiles(text, i, s, DecodeFrom(text, i + s.length), DecodeFrom(text, i));
    }
  }

  /** A slice read at `i` followed by a tiling of the bytes after it tiles from `i`. */
  lemma ConsTiles(text: Str, i: nat, s: Slice, rest: seq<Slice>, all: seq<Slice>)
    requires i < |text| && s == DecodeAt(text, i) && all == [s] + rest
    requires Tiling(rest, i + s.length, |text|)
    requires forall k :: 0 <= k < |rest| ==>
      i + s.length <= rest[k].start < |text| && rest[k] == DecodeAt(text, rest[k].start)
    ensures Tiling(all, i, |text|)
    ensures forall k :: 0 <= k < |all| ==>
      i <= all[k].start < |text| && all[k] == DecodeAt(text, all[k].start)
  {
    ConsTiling(s, rest, all, i, |text|);
    forall k | 0 < k < |all|
      ensures i <= all[k].start < |text| && all[k] == DecodeAt(text, all[k].start)
    {
      assert all[k] == rest[k - 1];
    }
  }

  /** A slice of one to four bytes at `from` followed by a tiling from its end. */
  lemma ConsTiling(s: Slice, rest: seq<Slice>, all: seq<Slice>, from: nat, to: nat)
    requires 1 <= s.length <= 4 && s.start == from && all == [s] + rest
    requires Tiling(rest, from + s.length, to)
    ensures Tiling(all, from, to)
  {
    forall k | 0 <= k < |all|
      ensures 1 <= all[k].length <= 4
    {
      if k > 0 { assert all[k] == rest[k - 1]; }
    }
    forall k | 0 <= k < |all| - 1
      ensures all[k + 1].start == all[k].start + all[k].length
    {
      assert all[k + 1] == rest[k];
    }
    if rest != [] {
      assert all[|all| - 1] == rest[|rest| - 1];
    }
  }

  /**
   * The decoder never skips or overlaps a byte: the slices tile the input,
   * their lengths sum to the byte length, and each is what the decoder reads
   * at its start.
   */
  lemma DecodeTiles(text: Str)
    ensures Tiling(Decode(text), 0, |text|)
    ensures Decode(text) == [] <==> text == []
    ensures forall k :: 0 <= k < |Decode(text)| ==>
      Decode(text)[k].start < |text| && Decode(text)[k] == DecodeAt(text, Decode(text)[k].start)
  {
    DecodeFromTiles(text, 0);
  }

  /** The tiling part of `DecodeTiles` alone. */
  lemma DecodeIsTiling(text: Str)
    ensures Tiling(Decode(text), 0, |text|)
  {
    DecodeTiles(text);
  }

  /** Sum of the slice lengths. */
  function TotalLength(s: seq<Slice>): nat
  {
    if s == [] then 0 else s[0].length + TotalLength(s[1..])
  }

  lemma {:induction false} TilingLength(s: seq<Slice>, from: nat, to: nat)
    requires Tiling(s, from, to)
    ensures from + TotalLength(s) == to
  {
    if s != [] {
      assert Tiling(s[1..], from + s[0].length, to);
      TilingLength(s[1..], from + s[0].length, to);
    }
  }

  /** A valid two-byte sequence is decoded as one character (completeness for the shortest case). */
  lemma DecodeTwoByte(text: Str, i: nat)
    requires i + 2 <= |text|
    requires 0xC2 <= text[i] as int <= 0xDF && IsContinuation(text[i + 1])
    ensures DecodeAt(text, i).length == 2
    ensures DecodeAt(text, i).codepoint == (text[i] as int - 0xC0) * 64 + (text[i + 1] as int - 0x80)
  {
    LeadPayloadTwo(text[i]);
    ContinuationPayloadValue(text[i + 1]);
    var cp := LeadPayload(text[i], 2) * 64 + ContinuationPayload(text[i + 1]);
    assert DecodeStage(text, i, 2, cp) == Slice(cp, i, 2);
  }

  lemma LeadPayloadTwo(lead: Byte)
    requires 0xC0 <= lead as int <= 0xDF
    ensures LeadPayload(lead, 2) == lead as int - 0xC0
  {
  }

  lemma ContinuationPayloadValue(b: Byte)
    requires IsContinuation(b)
    ensures ContinuationPayload(b) == b as int - 0x80
  {
  }

  /**
   * Decoding is local: inside a byte range `a .. b` whose end does not cut
   * the slice at `i`, the substring decodes at `i - a` to the same slice,
   * shifted.
   */
  lemma DecodeAtLocal(text: Str, a: nat, b: nat, i: nat)
    requires a <= i < b <= |text|
    requires i + DecodeAt(text, i).length <= b
    ensures DecodeAt(text[a..b], i - a) == Shift(DecodeAt(text, i), a)
  {
    DecodeStageLocal(text, a, b, i, 0, 0);
  }

  lemma {:induction false} DecodeStageLocal(text: Str, a: nat, b: nat, i: nat, k: nat, cp: nat)
    requires a <= i < b <= |text|
    requires k > 0 ==> 2 <= ExpectedLength(text[i]) && i + ExpectedLength(text[i]) <= b && k <= ExpectedLength(text[i])
    requires k == 0 ==> i + DecodeStage(text, i, 0, cp).length <= b
    ensures DecodeStage(text[a..b], i - a, k, cp) == Shift(DecodeStage(text, i, k, cp), a)
    decreases if k == 0 then 5 else 4 - k
  {
    var t := text[a..b];
    assert t[i - a] == text[i];
    var n := ExpectedLength(text[i]);
    if k == 0 {
      if IsAsciiLead(text[i]) || n == 1 {
      } else if i + n <= b {
        DecodeStageLocal(text, a, b, i, 1, LeadPayload(text[i], n));
      } else {
        DecodeStageFallback(text, i, 0, cp);
      }
    } else if k < n {
      assert t[i - a + k] == text[i + k];
      DecodeStageLocal(text, a, b, i, k + 1, cp * 64 + ContinuationPayload(text[i + k]));
    }
  }

  function Shift(s: Slice, a: nat): Slice
    requires a <= s.start
  {
    s.(start := s.start - a)
  }

  function ShiftAll(s: seq<Slice>, a: nat): (r: seq<Slice>)
    requires forall k :: 0 <= k < |s| ==> a <= s[k].start
    ensures |r| == |s|
    ensures forall k :: 0 <= k < |s| ==> r[k] == Shift(s[k], a)
  {
    if s == [] then [] else [Shift(s[0], a)] + ShiftAll(s[1..], a)
  }

  /** `ds` is what the decoder reads from byte `j` of `x` to its end. */
  predicate DecodesFrom(x: Str, j: nat, ds: seq<Slice>)
  {
    j <= |x| && Tiling(ds, j, |x|)
    && forall m :: 0 <= m < |ds| ==> ds[m].start < |x| && ds[m] == DecodeAt(x, ds[m].start)
  }

  /** The decoder's output is the only sequence of slices with that description. */
  lemma {:induction false} DecodesFromUnique(x: Str, j: nat, ds: seq<Slice>)
    requires DecodesFrom(x, j, ds)
    ensures ds == DecodeFrom(x, j)
    decreases |x| - j
  {
    if ds != [] {
      DecodesFromTail(x, j, ds);
      DecodesFromUnique(x, j + ds[0].length, ds[1..]);
      DecodeFromUnfold(x, j);
      ConsEqual(ds, DecodeFrom(x, j), DecodeFrom(x, j + ds[0].length));
    }
  }

  /** A non-empty sequence is its head followed by its tail. */
  lemma ConsEqual(ds: seq<Slice>, whole: seq<Slice>, tail: seq<Slice>)
    requires ds != [] && ds[1..] == tail && whole == [ds[0]] + tail
    ensures ds == whole
  {
    assert ds == [ds[0]] + ds[1..];
  }

  lemma DecodeFromUnfold(text: Str, i: nat)
    requires i < |text|
    ensures DecodeFrom(text, i) == [DecodeAt(text, i)] + DecodeFrom(text, i + DecodeAt(text, i).length)
  {
  }

  lemma DecodesFromTail(x: Str, j: nat, ds: seq<Slice>)
    requires DecodesFrom(x, j, ds) && ds != []
    ensures j < |x| && ds[0] == DecodeAt(x, j)
    ensures DecodesFrom(x, j + ds[0].length, ds[1..])
  {
    if |ds| > 1 {
      assert ds[1..][0] == ds[1];
    }
    assert Tiling(ds[1..], j + ds[0].length, |x|);
  }

  /** Every slice of a tiling lies inside the tiled range. */
  lemma {:induction false} TilingBounds(ds: seq<Slice>, from: nat, to: nat)
    requires Tiling(ds, from, to)
    ensures forall m :: 0 <= m < |ds| ==> from <= ds[m].start && ds[m].start + ds[m].length <= to
    decreases |ds|
  {
    if ds != [] {
      assert Tiling(ds[1..], ds[0].start + ds[0].length, to);
      TilingBounds(ds[1..], ds[0].start + ds[0].length, to);
      forall m | 0 <= m < |ds|
        ensures from <= ds[m].start && ds[m].start + ds[m].length <= to
      {
        if m > 0 { assert ds[m] == ds[1..][m - 1]; }
      }
    }
  }

  /**
   * Decoding is local: the bytes between two slice boundaries of `text`
   * decode to the slices of `text` between them, shifted to the substring.
   */
  lemma DecodeWindow(text: Str, a: nat, b: nat, ds: seq<Slice>)
    requires a <= b <= |text| && Tiling(ds, a, b)
    requires forall m :: 0 <= m < |ds| ==> ds[m].start < |text| && ds[m] == DecodeAt(text, ds[m].start)
    ensures forall m :: 0 <= m < |ds| ==> a <= ds[m].start
    ensures Decode(text[a..b]) == ShiftAll(ds, a)
  {
    TilingBounds(ds, a, b);
    var t := text[a..b];
    var r := ShiftAll(ds, a);
    forall m | 0 <= m < |r|
      ensures r[m].start < |t| && r[m] == DecodeAt(t, r[m].start)
    {
      DecodeAtLocal(text, a, b, ds[m].start);
    }
    assert Tiling(r, 0, |t|);
    DecodesFromUnique(t, 0, r);
  }
}

/**
 * Byte strings. A C++ `std::string` holds bytes; here a string is a sequence
 * of characters whose code is below 256, so that Dafny string literals can be
 * used for the ASCII text the converter emits.
 */
module Strings {

  import opened Wrappers

  type Byte = c: char | c as int < 256

  type Str = seq<Byte>

  /** The UTF-8 encoding of U+00A0 NO-BREAK SPACE. */
  const Nbsp: Str := [0xC2 as char, 0xA0 as char]

  predicate IsNewline(c: Byte) { c == '\n' || c == '\r' }

  predicate IsAsciiDigit(c: Byte) { '0' <= c <= '9' }

  predicate IsAsciiAlpha(c: Byte) { ('A' <= c <= 'Z') || ('a' <= c <= 'z') }

  /** `std::isspace` in the "C" locale. */
  predicate IsCSpace(c: Byte) { c == ' ' || c == '\t' || c == '\n' || c == '\U{0B}' || c == '\U{0C}' || c == '\r' }

  /** `std::tolower` in the "C" locale. */
  function ToLower(c: Byte): (r: Byte)
    ensures 'A' <= c <= 'Z' ==> r as int == c as int + 32
    ensures !('A' <= c <= 'Z') ==> r == c
  {
    if 'A' <= c <= 'Z' then (c as int + 32) as char else c
  }

  /** Applies `ToLower` to every byte, as `std::transform(..., ::tolower)` does. */
  function Lower(s: Str): (r: Str)
    ensures |r| == |s|
    ensures forall i :: 0 <= i < |s| ==> r[i] == ToLower(s[i])
  {
    if s == [] then [] else [ToLower(s[0])] + Lower(s[1..])
  }

  /** No upper-case ASCII letter is left, so lowering twice is lowering once. */
  lemma LowerIdempotent(s: Str)
    ensures forall i :: 0 <= i < |s| ==> !('A' <= Lower(s)[i] <= 'Z')
    ensures Lower(Lower(s)) == Lower(s)
  {
  }

  /** `std::transform(b, e, b, tolower)`: lowers a buffer in place. */
  method LowerInPlace(a: array<Byte>)
    modifies a
    ensures a[..] == Lower(old(a[..]))
  {
    for i := 0 to a.Length
      invariant forall j :: 0 <= j < i ==> a[j] == ToLower(old(a[j]))
      invariant forall j :: i <= j < a.Length ==> a[j] == old(a[j])
    {
      a[i] := ToLower(a[i]);
    }
  }

  /** `std::string(count, c)`, the source's `repeatChar`. */
  function Repeat(c: Byte, n: nat): (r: Str)
    ensures |r| == n
    ensures forall i :: 0 <= i < n ==> r[i] == c
  {
    if n == 0 then [] else [c] + Repeat(c, n - 1)
  }

  /** Number of leading CR/LF bytes: the index the source's trimming loops stop at. */
  function LeadingNewlines(s: Str): (k: nat)
    ensures k <= |s|
    ensures forall i :: 0 <= i < k ==> IsNewline(s[i])
    ensures k == |s| || !IsNewline(s[k])
  {
    if s != [] && IsNewline(s[0]) then 1 + LeadingNewlines(s[1..]) else 0
  }

  /** Number of trailing CR/LF bytes. */
  function TrailingNewlines(s: Str): (k: nat)
    ensures k <= |s|
    ensures forall i :: |s| - k <= i < |s| ==> IsNewline(s[i])
    ensures k == |s| || !IsNewline(s[|s| - k - 1])
  {
    if s != [] && IsNewline(s[|s| - 1]) then 1 + TrailingNewlines(s[..|s| - 1]) else 0
  }

  /** Drops the maximal run of CR/LF at the front. */
  function TrimLeadingNewlines(s: Str): (r: Str)
    ensures r == s[LeadingNewlines(s)..]
    ensures r == [] || !IsNewline(r[0])
  {
    s[LeadingNewlines(s)..]
  }

  /** Drops the maximal run of CR/LF at the back. */
  function TrimTrailingNewlines(s: Str): (r: Str)
    ensures r == s[..|s| - TrailingNewlines(s)]
    ensures r == [] || !IsNewline(r[|r| - 1])
  {
    s[..|s| - TrailingNewlines(s)]
  }

  /** Both ends: `rtrimNewlines(ltrimNewlines(text))`. */
  function TrimNewlines(s: Str): Str
  {
    TrimTrailingNewlines(TrimLeadingNewlines(s))
  }

  lemma {:induction false} TrimNewlinesEnds(s: Str)
    ensures var r := TrimNewlines(s);
      (r == [] || (!IsNewline(r[0]) && !IsNewline(r[|r| - 1])))
      && exists i, j :: 0 <= i <= j <= |s| && r == s[i..j]
  {
    var t := TrimLeadingNewlines(s);
    var r := TrimTrailingNewlines(t);
    var i := LeadingNewlines(s);
    var j := |t| - TrailingNewlines(t);
    assert t == s[i..];
    assert r == s[i..i + j];
    if r != [] {
      assert r[0] == t[0];
    }
  }

  /** Decimal digits of a natural number, most significant first. */
  function NatToString(n: nat): (r: Str)
    ensures |r| >= 1
    ensures forall i :: 0 <= i < |r| ==> IsAsciiDigit(r[i])
    decreases n
  {
    var d := ('0' as int + n % 10) as char;
    if n < 10 then [d] else NatToString(n / 10) + [d]
  }

  /** `std::to_string` for an `int`. */
  function IntToString(n: int): Str
  {
    if n < 0 then "-" + NatToString(-n) else NatToString(n)
  }

  /** Value of a string of decimal digits. */
  function DigitsValue(s: Str): int
    requires forall i :: 0 <= i < |s| ==> IsAsciiDigit(s[i])
  {
    if s == [] then 0 else DigitsValue(s[..|s| - 1]) * 10 + (s[|s| - 1] as int - '0' as int)
  }

  /** Length of the run of decimal digits starting at `i`. */
  function DigitRun(s: Str, i: nat): (n: nat)
    requires i <= |s|
    ensures i + n <= |s|
    ensures forall k :: i <= k < i + n ==> IsAsciiDigit(s[k])
    ensures i + n == |s| || !IsAsciiDigit(s[i + n])
    decreases |s| - i
  {
    if i < |s| && IsAsciiDigit(s[i]) then 1 + DigitRun(s, i + 1) else 0
  }

  /** Index of the first byte at or after `i` that `std::isspace` rejects. */
  function SkipCSpace(s: Str, i: nat): (k: nat)
    requires i <= |s|
    ensures i <= k <= |s|
    ensures forall j :: i <= j < k ==> IsCSpace(s[j])
    ensures k == |s| || !IsCSpace(s[k])
    decreases |s| - i
  {
    if i < |s| && IsCSpace(s[i]) then SkipCSpace(s, i + 1) else i
  }

  datatype StoiError = InvalidArgument | OutOfRange

  const IntMin: int := -0x8000_0000
  const IntMax: int := 0x7FFF_FFFF

  /**
   * `std::stoi(s)`: leading white space, an optional sign and at least one
   * decimal digit; anything after the digits is ignored. No digit throws
   * `invalid_argument`; a value outside `int` throws `out_of_range`.
   */
  function Stoi(s: Str): (r: Result<int, StoiError>)
    ensures r.Ok? ==> IntMin <= r.value <= IntMax
  {
    var i := SkipCSpace(s, 0);
    var neg := i < |s| && s[i] == '-';
    var j := if i < |s| && (s[i] == '-' || s[i] == '+') then i + 1 else i;
    var n := DigitRun(s, j);
    if n == 0 then Err(InvalidArgument)
    else
      var v := DigitsValue(s[j..j + n]);
      var value: int := if neg then -v else v;
      if value < IntMin || value > IntMax then Err(OutOfRange) else Ok(value)
  }

  lemma {:induction false} DigitsValueOfNat(n: nat)
    ensures DigitsValue(NatToString(n)) == n
    decreases n
  {
    var s := NatToString(n);
    if n >= 10 {
      DigitsValueOfNat(n / 10);
      assert s[..|s| - 1] == NatToString(n / 10);
    }
  }

  lemma DigitRunWhole(s: Str, i: nat)
    requires i <= |s|
    requires forall k :: i <= k < |s| ==> IsAsciiDigit(s[k])
    ensures DigitRun(s, i) == |s| - i
    decreases |s| - i
  {
    if i < |s| { DigitRunWhole(s, i + 1); }
  }

  /** `std::to_string` and `std::stoi` are inverse on every `int` value. */
  lemma {:induction false} StoiOfIntToString(n: int)
    requires IntMin <= n <= IntMax
    ensures Stoi(IntToString(n)) == Ok(n)
  {
    var s := IntToString(n);
    var d := if n < 0 then NatToString(-n) else NatToString(n);
    var j := if n < 0 then 1 else 0;
    assert s[j..] == d;
    assert SkipCSpace(s, 0) == 0;
    DigitRunWhole(s, j);
    assert s[j..j + DigitRun(s, j)] == d;
    DigitsValueOfNat(if n < 0 then -n else n);
  }
}

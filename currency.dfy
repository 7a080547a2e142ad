/**
 * The `convertCurrency` normaliser of the currency text field
 * (src/components/Input/CurrencyInput.tsx, lines 57-69).
 *
 * The source is a chain of `replace`/`split`/`join` calls. Each regular
 * expression is written here as a hand-made scan that follows the
 * JavaScript global-replace semantics (anchors and look-arounds are judged
 * against the string BEFORE any deletion), and each scan is paired with an
 * independent reference definition and a lemma connecting the two.
 */
module Currency {

  datatype Option<+T> = None | Some(value: T)

  // ---------------------------------------------------------------------
  // Character classes
  // ---------------------------------------------------------------------

  predicate IsDigit(c: char) { '0' <= c <= '9' }

  /** `[０-９．]`: the full-width digits U+FF10..U+FF19 and the full-width full stop U+FF0E. */
  predicate IsFullWidthNumeric(c: char) { '\U{FF10}' <= c <= '\U{FF19}' || c == '\U{FF0E}' }

  /** `[−ー]`: U+2212 MINUS SIGN and U+30FC KATAKANA-HIRAGANA PROLONGED SOUND MARK. */
  predicate IsWideMinus(c: char) { c == '\U{2212}' || c == '\U{30FC}' }

  /** `[0-9.-]`: the characters the strip step does not delete for their class alone. */
  predicate IsNumericChar(c: char) { IsDigit(c) || c == '.' || c == '-' }

  /** The characters a formatted amount may contain. */
  predicate IsOutputChar(c: char) { IsNumericChar(c) || c == ',' }

  predicate AllDigits(s: string) { forall i | 0 <= i < |s| :: IsDigit(s[i]) }

  /** What the strip step leaves: only `[0-9.-]`, and a `-` only at index 0. */
  predicate Shaped(t: string) {
    && (forall i | 0 <= i < |t| :: IsNumericChar(t[i]))
    && (forall i | 0 < i < |t| :: t[i] != '-')
  }

  // ---------------------------------------------------------------------
  // Step 1 (line 62): full-width digits and full stop to ASCII
  // ---------------------------------------------------------------------

  /** The distance between a full-width form and its ASCII counterpart. */
  const FullWidthOffset: int := 0xFEE0

  /** A full-width digit becomes the ASCII digit of the same value, `．` becomes `.`, anything else is kept. */
  function ToHalfWidth(c: char): (h: char)
    ensures !IsFullWidthNumeric(h)
    ensures '\U{FF10}' <= c <= '\U{FF19}' ==> IsDigit(h) && h as int - '0' as int == c as int - 0xFF10
    ensures c == '\U{FF0E}' ==> h == '.'
    ensures !IsFullWidthNumeric(c) ==> h == c
  {
    if IsFullWidthNumeric(c) then (c as int - FullWidthOffset) as char else c
  }

  /** `replace(/[０-９．]/g, ...)`: every match is shifted down by 0xFEE0. */
  function HalfWidth(s: string): (r: string)
    ensures |r| == |s|
    ensures forall i | 0 <= i < |r| :: !IsFullWidthNumeric(r[i])
    ensures forall i | 0 <= i < |r| :: !IsFullWidthNumeric(s[i]) ==> r[i] == s[i]
    ensures forall i | 0 <= i < |r| :: r[i] == ToHalfWidth(s[i])
  {
    seq(|s|, i requires 0 <= i < |s| => ToHalfWidth(s[i]))
  }

  // ---------------------------------------------------------------------
  // Step 2 (line 63): the FIRST wide minus becomes '-' (no `g` flag)
  // ---------------------------------------------------------------------

  /** The index of the first `−` or `ー`, or |s| when there is none. */
  function FirstWideMinus(s: string): (k: nat)
    ensures k <= |s|
    ensures forall j | 0 <= j < k :: !IsWideMinus(s[j])
    ensures k < |s| ==> IsWideMinus(s[k])
  {
    if s == [] || IsWideMinus(s[0]) then 0 else 1 + FirstWideMinus(s[1..])
  }

  /** `replace(/[−ー]/, '-')`: scans for the first match and replaces it only. */
  function ReplaceFirstMinus(s: string): (r: string)
    ensures |r| == |s|
    ensures forall i | 0 <= i < |s| :: r[i] == (if i == FirstWideMinus(s) then '-' else s[i])
  {
    if s == [] then []
    else if IsWideMinus(s[0]) then ['-'] + s[1..]
    else [s[0]] + ReplaceFirstMinus(s[1..])
  }

  // ---------------------------------------------------------------------
  // Step 3 (line 64): replace(/[^0-9.-]|(?!^)-|^\.+|\.+$/g, '')
  // ---------------------------------------------------------------------

  /** The end of the run of '.' that starts at index i. */
  function DotRunEnd(t: string, i: nat): (e: nat)
    requires i <= |t|
    ensures i <= e <= |t|
    ensures forall j | i <= j < e :: t[j] == '.'
    ensures e < |t| ==> t[e] != '.'
    decreases |t| - i
  {
    if i < |t| && t[i] == '.' then DotRunEnd(t, i + 1) else i
  }

  /**
   * The global replace, scanning from index i: at each position the four
   * alternatives are tried in order; a match is deleted and the scan goes on
   * after it, otherwise the character is kept and the scan moves one on.
   */
  function StripFrom(t: string, i: nat): (r: string)
    requires i <= |t|
    ensures |r| <= |t| - i
    ensures forall k | 0 <= k < |r| :: IsNumericChar(r[k])
    decreases |t| - i
  {
    if i == |t| then []
    else if !IsNumericChar(t[i]) then StripFrom(t, i + 1)              // [^0-9.-]
    else if i != 0 && t[i] == '-' then StripFrom(t, i + 1)              // (?!^)-
    else if i == 0 && t[i] == '.' then StripFrom(t, DotRunEnd(t, 0))    // ^\.+
    else if t[i] == '.' && DotRunEnd(t, i) == |t| then []               // \.+$
    else [t[i]] + StripFrom(t, i + 1)
  }

  function Strip(t: string): (r: string)
    ensures |r| <= |t|
    ensures forall k | 0 <= k < |r| :: IsNumericChar(r[k])
  {
    StripFrom(t, 0)
  }

  /** Index i lies in the run of '.' at the start of t. */
  predicate LeadingDot(t: string, i: nat)
    requires i < |t|
  {
    forall j | 0 <= j <= i :: t[j] == '.'
  }

  /** Index i lies in the run of '.' at the end of t. */
  predicate TrailingDot(t: string, i: nat)
    requires i < |t|
  {
    forall j | i <= j < |t| :: t[j] == '.'
  }

  /** Reference meaning of the strip step: whether the character at index i survives. */
  predicate Kept(t: string, i: nat)
    requires i < |t|
  {
    || IsDigit(t[i])
    || (t[i] == '-' && i == 0)
    || (t[i] == '.' && !LeadingDot(t, i) && !TrailingDot(t, i))
  }

  /** The characters of t[lo..hi] that are Kept, in order. */
  function KeptIn(t: string, lo: nat, hi: nat): string
    requires lo <= hi <= |t|
    decreases hi - lo
  {
    if lo == hi then [] else KeptIn(t, lo, hi - 1) + (if Kept(t, hi - 1) then [t[hi - 1]] else [])
  }

  // ---------------------------------------------------------------------
  // The comma removal of the focus handler (line 28): replace(/,/g, '')
  // ---------------------------------------------------------------------

  function RemoveCommas(s: string): (r: string)
    ensures |r| <= |s|
    ensures forall c :: c in r <==> c in s && c != ','
  {
    if s == [] then [] else (if s[0] == ',' then [] else [s[0]]) + RemoveCommas(s[1..])
  }

  // ---------------------------------------------------------------------
  // Step 5 (line 66): replace(/(\d)(?=(\d{3})+(?!\d))/g, '$1,') on piece 0
  // ---------------------------------------------------------------------

  /** The number of consecutive digits starting at index j. */
  function DigitRun(p: string, j: nat): (n: nat)
    requires j <= |p|
    ensures j + n <= |p|
    ensures forall k | j <= k < j + n :: IsDigit(p[k])
    ensures j + n < |p| ==> !IsDigit(p[j + n])
    decreases |p| - j
  {
    if j < |p| && IsDigit(p[j]) then 1 + DigitRun(p, j + 1) else 0
  }

  /**
   * `(\d)(?=(\d{3})+(?!\d))` matches at i: a digit followed by some positive
   * number of three-digit groups and then no digit, which holds exactly when
   * the digit run after i has a length that is a positive multiple of three.
   */
  predicate CommaAfter(p: string, i: nat)
    requires i < |p|
  {
    IsDigit(p[i]) && var n := DigitRun(p, i + 1); n > 0 && n % 3 == 0
  }

  /** The global replace, scanning from index i (the look-ahead consumes nothing). */
  function GroupFrom(p: string, i: nat): (r: string)
    requires i <= |p|
    ensures |r| >= |p| - i
    ensures forall c | c != ',' :: c in r <==> c in p[i..]
    decreases |p| - i
  {
    if i == |p| then [] else
      assert p[i..] == [p[i]] + p[i + 1..];
      (if CommaAfter(p, i) then [p[i], ','] else [p[i]]) + GroupFrom(p, i + 1)
  }

  function GroupInteger(p: string): string {
    GroupFrom(p, 0)
  }

  /**
   * Reference grouping of a digit string, read digit by digit: a ',' follows
   * a digit exactly when a positive multiple of three digits remains after it.
   */
  function GroupDigits(d: string): string {
    if d == [] then [] else [d[0]] + (if |d| > 1 && (|d| - 1) % 3 == 0 then [','] else []) + GroupDigits(d[1..])
  }

  // ---------------------------------------------------------------------
  // Steps 4 and 6 (lines 65-68): split on '.', rewrite piece 0, join with '.'
  // ---------------------------------------------------------------------

  /** The index of the first '.', or |t| when there is none. */
  function FirstDot(t: string): (k: nat)
    ensures k <= |t|
    ensures forall j | 0 <= j < k :: t[j] != '.'
    ensures k < |t| ==> t[k] == '.'
  {
    if t == [] || t[0] == '.' then 0 else 1 + FirstDot(t[1..])
  }

  /** `split('.')`: the pieces between the dots, in order; always at least one. */
  function Split(t: string): (pieces: seq<string>)
    ensures |pieces| >= 1
  {
    if t == [] then [[]]
    else
      var rest := Split(t[1..]);
      if t[0] == '.' then [[]] + rest else [[t[0]] + rest[0]] + rest[1..]
  }

  /** `join('.')`. */
  function Join(pieces: seq<string>): string
    requires |pieces| >= 1
  {
    if |pieces| == 1 then pieces[0] else pieces[0] + "." + Join(pieces[1..])
  }

  /** Lines 65-68: split, write the grouped integer part into slot 0, join. */
  function Format(shaped: string): string {
    var pieces := Split(shaped);
    Join(pieces[0 := GroupInteger(pieces[0])])
  }

  // ---------------------------------------------------------------------
  // convertCurrency (lines 57-69)
  // ---------------------------------------------------------------------

  /** Lines 61-64: the `shaped` string. */
  function Shape(s: string): string {
    Strip(ReplaceFirstMinus(HalfWidth(s)))
  }

  function ConvertCurrency(value: Option<string>): (r: string)
    ensures value.None? || value == Some("") ==> r == ""
  {
    if value.None? || value.value == "" then "" else Format(Shape(value.value))
  }
}

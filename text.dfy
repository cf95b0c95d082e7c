/**
 * ASCII string operations used by the site: whitespace trimming, case
 * mapping, substring search, and the decimal parsing behind
 * `Number.parseFloat` and `Number(...)`.
 *
 * Only ASCII is modelled: `toUpperCase`/`toLowerCase` change the letters
 * a-z/A-Z and nothing else, and "whitespace" is the six ASCII characters
 * that `\s` and `String.prototype.trim` both treat as white space.
 */
module Text {

  datatype Option<T> = None | Some(value: T)

  /** ASCII white space: space, tab, line feed, vertical tab, form feed, carriage return. */
  predicate IsSpace(c: char) {
    c == ' ' || c == '\t' || c == '\n' || c == '\r' || c == '\U{000B}' || c == '\U{000C}'
  }

  predicate IsLower(c: char) { 'a' <= c <= 'z' }
  predicate IsUpper(c: char) { 'A' <= c <= 'Z' }
  predicate IsDigit(c: char) { '0' <= c <= '9' }

  /** The string has no white space at either end. */
  predicate IsTrimmed(s: string) {
    s == [] || (!IsSpace(s[0]) && !IsSpace(s[|s| - 1]))
  }

  predicate AllSpace(s: string) {
    forall i :: 0 <= i < |s| ==> IsSpace(s[i])
  }

  // ---------------------------------------------------------------------------
  // trim()

  /** The number of white-space characters at the start of `s`. */
  function LeadingSpaces(s: string): (n: nat)
    ensures n <= |s| && AllSpace(s[..n])
    ensures n == |s| || !IsSpace(s[n])
  {
    if s != [] && IsSpace(s[0]) then
      var n := 1 + LeadingSpaces(s[1..]);
      assert s[..n] == [s[0]] + s[1..][..n - 1];
      n
    else 0
  }

  /** The number of white-space characters at the end of `s`. */
  function TrailingSpaces(s: string): (n: nat)
    ensures n <= |s| && AllSpace(s[|s| - n..])
    ensures n == |s| || !IsSpace(s[|s| - n - 1])
  {
    if s != [] && IsSpace(s[|s| - 1]) then
      var m := TrailingSpaces(s[..|s| - 1]);
      TrailingStep(s, m);
      m + 1
    else 0
  }

  /** White space in front of text that does not start with white space is
      exactly what `LeadingSpaces` counts. */
  lemma {:induction false} LeadingSpacesConcat(w: string, s: string)
    requires AllSpace(w) && (s == [] || !IsSpace(s[0]))
    ensures LeadingSpaces(w + s) == |w|
    decreases |w|
  {
    if w == [] {
      assert w + s == s;
    } else {
      assert (w + s)[0] == w[0] && (w + s)[1..] == w[1..] + s;
      LeadingSpacesConcat(w[1..], s);
    }
  }

  lemma TrailingStep(s: string, m: nat)
    requires m < |s| && IsSpace(s[|s| - 1]) && AllSpace(s[..|s| - 1][|s| - 1 - m..])
    ensures AllSpace(s[|s| - m - 1..])
  {
    var t, u := s[|s| - m - 1..], s[..|s| - 1][|s| - 1 - m..];
    forall i | 0 <= i < m
      ensures IsSpace(t[i])
    {
      assert t[i] == u[i];
    }
  }

  /** Drops the leading white space: the result is the longest suffix of `s` that
      does not start with white space. */
  function TrimStart(s: string): (r: string)
    ensures |r| <= |s| && r == s[|s| - |r|..]
    ensures AllSpace(s[..|s| - |r|])
    ensures r == [] || !IsSpace(r[0])
  {
    s[LeadingSpaces(s)..]
  }

  /** Drops the trailing white space: the result is the longest prefix of `s` that
      does not end with white space. */
  function TrimEnd(s: string): (r: string)
    ensures |r| <= |s| && r == s[..|r|]
    ensures AllSpace(s[|r|..])
    ensures r == [] || !IsSpace(r[|r| - 1])
  {
    s[..|s| - TrailingSpaces(s)]
  }

  /** `s.trim()`: the contiguous middle part of `s` left after removing white space
      from both ends. */
  function Trim(s: string): (r: string)
    ensures IsTrimmed(r)
    ensures var k := LeadingSpaces(s);
      k + |r| <= |s| && r == s[k..k + |r|] && AllSpace(s[..k]) && AllSpace(s[k + |r|..])
    ensures Contains(s, r)
  {
    var t := TrimStart(s);
    var r := TrimEnd(t);
    var k := LeadingSpaces(s);
    assert r == [] || r[0] == t[0];
    assert r == s[k..][..|r|] == s[k..k + |r|];
    assert s[k + |r|..] == t[|r|..];
    assert OccursAt(s, r, k);
    r
  }

  lemma {:induction false} TrimStartOfTrimmed(s: string)
    requires s == [] || !IsSpace(s[0])
    ensures TrimStart(s) == s
  {
  }

  lemma {:induction false} TrimEndOfTrimmed(s: string)
    requires s == [] || !IsSpace(s[|s| - 1])
    ensures TrimEnd(s) == s
  {
  }

  /** Trimming a string that has no white space at its ends changes nothing. */
  lemma TrimOfTrimmed(s: string)
    requires IsTrimmed(s)
    ensures Trim(s) == s
  {
    TrimStartOfTrimmed(s);
    TrimEndOfTrimmed(s);
  }

  /** `trim()` is idempotent. */
  lemma TrimIdempotent(s: string)
    ensures Trim(Trim(s)) == Trim(s)
  {
    TrimOfTrimmed(Trim(s));
  }

  /** `s.trim()` is empty exactly when `s` is all white space, which is how the
      site detects a blank search term. */
  lemma {:induction false} TrimEmptyIffAllSpace(s: string)
    ensures Trim(s) == [] <==> AllSpace(s)
  {
    var t := TrimStart(s);
    var r := TrimEnd(t);
    assert s == s[..|s| - |t|] + t;
    if r == [] {
      assert t[|r|..] == t;
      assert AllSpace(s);
    } else {
      assert t[0] == s[|s| - |t|];
    }
  }

  // ---------------------------------------------------------------------------
  // toUpperCase() / toLowerCase()

  function UpperChar(c: char): (u: char)
    ensures IsLower(c) ==> IsUpper(u) && u as int == c as int - 32
    ensures !IsLower(c) ==> u == c
    ensures !IsLower(u) && (IsSpace(u) <==> IsSpace(c))
  {
    if IsLower(c) then (c as int - 32) as char else c
  }

  function LowerChar(c: char): (l: char)
    ensures IsUpper(c) ==> IsLower(l) && l as int == c as int + 32
    ensures !IsUpper(c) ==> l == c
  {
    if IsUpper(c) then (c as int + 32) as char else c
  }

  /** `s.toUpperCase()` on ASCII: same length, letter by letter. */
  function ToUpper(s: string): (r: string)
    ensures |r| == |s|
    ensures forall i :: 0 <= i < |s| ==> r[i] == UpperChar(s[i])
  {
    if s == [] then [] else [UpperChar(s[0])] + ToUpper(s[1..])
  }

  /** `s.toLowerCase()` on ASCII: same length, letter by letter. */
  function ToLower(s: string): (r: string)
    ensures |r| == |s|
    ensures forall i :: 0 <= i < |s| ==> r[i] == LowerChar(s[i])
  {
    if s == [] then [] else [LowerChar(s[0])] + ToLower(s[1..])
  }

  lemma ToUpperIdempotent(s: string)
    ensures ToUpper(ToUpper(s)) == ToUpper(s)
  {
  }

  lemma ToLowerIdempotent(s: string)
    ensures ToLower(ToLower(s)) == ToLower(s)
  {
  }

  lemma ToLowerConcat(a: string, b: string)
    ensures ToLower(a + b) == ToLower(a) + ToLower(b)
  {
  }

  // ---------------------------------------------------------------------------
  // The resolver's key normalisation: `code.trim().toUpperCase()`

  function Normalize(s: string): string {
    ToUpper(Trim(s))
  }

  /** A code in normal form: trimmed, and no lower-case letter. */
  predicate IsNormal(s: string) {
    IsTrimmed(s) && forall i :: 0 <= i < |s| ==> !IsLower(s[i])
  }

  /** Every normalised code is in normal form ... */
  lemma NormalizeIsNormal(s: string)
    ensures IsNormal(Normalize(s))
  {
    var t := Trim(s);
    var u := ToUpper(t);
    if u != [] {
      assert u[0] == UpperChar(t[0]) && u[|u| - 1] == UpperChar(t[|t| - 1]);
    }
  }

  /** ... and normalising a code already in normal form changes nothing. */
  lemma NormalizeOfNormal(s: string)
    requires IsNormal(s)
    ensures Normalize(s) == s
  {
    TrimOfTrimmed(s);
  }

  /** `trim().toUpperCase()` is idempotent, so applying it to record codes,
      prerequisite codes and the query alike is consistent. */
  lemma NormalizeIdempotent(s: string)
    ensures Normalize(Normalize(s)) == Normalize(s)
  {
    NormalizeIsNormal(s);
    NormalizeOfNormal(Normalize(s));
  }

  // ---------------------------------------------------------------------------
  // includes()

  predicate OccursAt(s: string, t: string, i: int) {
    0 <= i && i + |t| <= |s| && s[i..i + |t|] == t
  }

  /** `s.includes(t)`: `t` occurs in `s` as a contiguous substring. */
  predicate Contains(s: string, t: string) {
    exists i :: 0 <= i <= |s| - |t| && OccursAt(s, t, i)
  }

  // ---------------------------------------------------------------------------
  // Decimal numbers

  function DigitValue(c: char): nat
    requires IsDigit(c)
  {
    c as int - '0' as int
  }

  predicate AllDigits(s: string) {
    forall i :: 0 <= i < |s| ==> IsDigit(s[i])
  }

  /** The value of a string of decimal digits, most significant first. */
  function DigitsValue(s: string): nat
    requires AllDigits(s)
  {
    if s == [] then 0 else 10 * DigitsValue(s[..|s| - 1]) + DigitValue(s[|s| - 1])
  }

  /** The digits at the start of `s` read as the digits after a decimal point:
      ".d1d2...dn" is (d1 + ".d2...dn") / 10; reading stops at the first
      character that is not a digit. */
  function FractionValue(s: string): (v: real)
    ensures 0.0 <= v <= 1.0
  {
    if s != [] && IsDigit(s[0]) then (DigitValue(s[0]) as real + FractionValue(s[1..])) / 10.0 else 0.0
  }

  /** An unsigned decimal literal: digits, or digits, '.' and digits where one of
      the two runs may be empty ("5", "5.", ".5", "5.25"); a '.' alone is not one. */
  function ParseUnsigned(s: string): (r: Option<real>)
    ensures r.Some? ==> r.value >= 0.0
    ensures r.Some? ==> s != [] && (IsDigit(s[0]) || (|s| >= 2 && s[0] == '.' && IsDigit(s[1])))
  {
    if s == [] then None
    else if AllDigits(s) then Some(DigitsValue(s) as real)
    else
      var k := IndexOfDot(s);
      if k < |s| && |s| >= 2 && AllDigits(s[..k]) && AllDigits(s[k + 1..]) then
        assert k > 0 ==> s[0] == s[..k][0];
        assert k == 0 ==> s[1] == s[k + 1..][0];
        Some(DigitsValue(s[..k]) as real + FractionValue(s[k + 1..]))
      else None
  }

  /** Position of the first '.', or |s| when there is none. */
  function IndexOfDot(s: string): (k: nat)
    ensures k <= |s|
    ensures k < |s| ==> s[k] == '.'
    ensures forall i :: 0 <= i < k ==> s[i] != '.'
  {
    if s == [] then 0 else if s[0] == '.' then 0 else 1 + IndexOfDot(s[1..])
  }

  /** The strict reading of `Number(...)` on trimmed text: an optional '+' or '-'
      followed by an unsigned decimal literal. Any other text is not a number (NaN). */
  function ParseDecimal(s: string): (r: Option<real>)
    ensures r.Some? && (s == [] || s[0] != '-') ==> r.value >= 0.0
  {
    if |s| > 0 && s[0] == '-' then
      match ParseUnsigned(s[1..])
      case Some(v) => Some(-v)
      case None => None
    else if |s| > 0 && s[0] == '+' then ParseUnsigned(s[1..])
    else ParseUnsigned(s)
  }

  /** A non-empty string of digits is a number, and its value is the value of its digits. */
  lemma ParseDigits(s: string)
    requires s != [] && AllDigits(s)
    ensures ParseDecimal(s) == Some(DigitsValue(s) as real)
  {
  }

  /** A number written with a leading '-' is the negation of the number without it. */
  lemma ParseNegative(s: string)
    requires s != [] && s[0] != '-' && s[0] != '+'
    ensures ParseDecimal(['-'] + s) == match ParseDecimal(s) case Some(v) => Some(-v) case None => None
  {
    assert (['-'] + s)[1..] == s;
  }

  // ---------------------------------------------------------------------------
  // Number.parseFloat

  /** The scan of `parseFloat` after the sign: `acc` is the value of the digits
      read so far and `seen` says whether there was one. Digits extend `acc`; a
      '.' followed by a digit ends the number with its fraction; anything else
      ends it, and with no digit read the result is NaN (None). */
  function ScanNumber(s: string, acc: nat, seen: bool): (r: Option<real>)
    ensures r.None? <==>
      !seen && !(s != [] && IsDigit(s[0])) && !(|s| >= 2 && s[0] == '.' && IsDigit(s[1]))
    ensures r.Some? ==> r.value >= 0.0
    decreases |s|
  {
    if s != [] && IsDigit(s[0]) then ScanNumber(s[1..], 10 * acc + DigitValue(s[0]), true)
    else if |s| >= 2 && s[0] == '.' && IsDigit(s[1]) then Some(acc as real + FractionValue(s[1..]))
    else if seen then Some(acc as real)
    else None
  }

  /** `Number.parseFloat(s)`: leading white space is skipped, an optional sign is
      read, then the longest numeric prefix; the text after it is ignored. */
  function ParseFloat(s: string): (r: Option<real>)
    decreases |s|
  {
    if s != [] && IsSpace(s[0]) then ParseFloat(s[1..])
    else if s != [] && s[0] == '-' then
      match ScanNumber(s[1..], 0, false)
      case Some(v) => Some(-v)
      case None => None
    else if s != [] && s[0] == '+' then ScanNumber(s[1..], 0, false)
    else ScanNumber(s, 0, false)
  }

  /** The value of digits read onto an accumulator, as `ScanNumber` reads them. */
  function Accumulate(acc: nat, ds: string): nat
    requires AllDigits(ds)
    decreases |ds|
  {
    if ds == [] then acc else Accumulate(10 * acc + DigitValue(ds[0]), ds[1..])
  }

  lemma {:induction false} AccumulateSnoc(acc: nat, ds: string, c: char)
    requires AllDigits(ds) && IsDigit(c)
    ensures AllDigits(ds + [c])
    ensures Accumulate(acc, ds + [c]) == 10 * Accumulate(acc, ds) + DigitValue(c)
    decreases |ds|
  {
    if ds != [] {
      assert (ds + [c])[0] == ds[0] && (ds + [c])[1..] == ds[1..] + [c];
      AccumulateSnoc(10 * acc + DigitValue(ds[0]), ds[1..], c);
    }
  }

  /** Reading digits from the front computes the same value as `DigitsValue`. */
  lemma {:induction false} AccumulateIsDigitsValue(ds: string)
    requires AllDigits(ds)
    ensures Accumulate(0, ds) == DigitsValue(ds)
    decreases |ds|
  {
    if ds != [] {
      var init := ds[..|ds| - 1];
      AccumulateIsDigitsValue(init);
      AccumulateSnoc(0, init, ds[|ds| - 1]);
      assert init + [ds[|ds| - 1]] == ds;
    }
  }

  /** A run of digits is read onto the accumulator and the scan goes on after it. */
  lemma {:induction false} ScanDigits(ds: string, rest: string, acc: nat, seen: bool)
    requires AllDigits(ds)
    ensures ScanNumber(ds + rest, acc, seen) == ScanNumber(rest, Accumulate(acc, ds), seen || ds != [])
    decreases |ds|
  {
    if ds == [] {
      assert ds + rest == rest;
    } else {
      var s := ds + rest;
      assert s[0] == ds[0] && s[1..] == ds[1..] + rest;
      ScanDigits(ds[1..], rest, 10 * acc + DigitValue(ds[0]), true);
    }
  }

  /** `parseFloat` ignores white space in front of the number. */
  lemma {:induction false} ParseFloatSkipsSpace(w: string, s: string)
    requires AllSpace(w)
    ensures ParseFloat(w + s) == ParseFloat(s)
    decreases |w|
  {
    if w == [] {
      assert w + s == s;
    } else {
      assert (w + s)[0] == w[0] && (w + s)[1..] == w[1..] + s;
      ParseFloatSkipsSpace(w[1..], s);
    }
  }

  /** An unsigned literal's digits and fraction are scanned as the strict reading values them. */
  lemma ScanUnsigned(s: string)
    requires ParseUnsigned(s).Some?
    ensures ScanNumber(s, 0, false) == ParseUnsigned(s)
  {
    if AllDigits(s) {
      ScanDigits(s, [], 0, false);
      assert s + [] == s;
      AccumulateIsDigitsValue(s);
    } else {
      var k := IndexOfDot(s);
      var ds, rest := s[..k], s[k..];
      assert ds + rest == s;
      ScanDigits(ds, rest, 0, false);
      AccumulateIsDigitsValue(ds);
      assert rest[0] == '.' && rest[1..] == s[k + 1..];
      if |rest| == 1 {
        assert FractionValue(rest[1..]) == 0.0;
      } else {
        assert rest[1] == s[k + 1..][0];
      }
    }
  }

  /** `parseFloat` agrees with the strict reading on every decimal literal. */
  lemma ParseFloatExtendsDecimal(s: string)
    requires ParseDecimal(s).Some?
    ensures ParseFloat(s) == ParseDecimal(s)
  {
    if s[0] == '-' || s[0] == '+' {
      ScanUnsigned(s[1..]);
    } else {
      ScanUnsigned(s);
    }
  }

  /** Text after the number is ignored: digits followed by anything that cannot
      continue a number read as those digits, so `parseFloat("4 units")` is 4. */
  lemma ParseFloatIgnoresSuffix(ds: string, rest: string)
    requires ds != [] && AllDigits(ds)
    requires rest == [] || (!IsDigit(rest[0]) && rest[0] != '.')
    ensures ParseFloat(ds + rest) == Some(DigitsValue(ds) as real)
  {
    var s := ds + rest;
    assert s[0] == ds[0];
    ScanDigits(ds, rest, 0, false);
    AccumulateIsDigitsValue(ds);
  }

  /** Text that starts with a digit reads as a non-negative number. */
  lemma DigitTextNonNegative(v: string)
    requires v != [] && IsDigit(v[0])
    ensures ParseFloat(v).Some? && ParseFloat(v).value >= 0.0
  {
  }

  /** `Number(s) || 0`: the value of the trimmed text when it is a number, and 0
      otherwise (NaN, and also the empty string, become 0). */
  function NumberOrZero(s: string): (r: real)
    ensures r != 0.0 ==> ParseDecimal(Trim(s)) == Some(r)
    ensures ParseDecimal(Trim(s)).None? ==> r == 0.0
    ensures r < 0.0 ==> Trim(s)[0] == '-'
  {
    match ParseDecimal(Trim(s))
    case Some(v) => v
    case None => 0.0
  }
}

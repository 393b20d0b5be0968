/**
 * The .NET string operations the handlers rely on: white-space trimming,
 * case mapping, `int.ToString()`, `int.TryParse` and `string.Join`.
 * Case mapping covers ASCII letters only (see README, "Left out").
 */
module Text {
  import opened Wrappers

  /** `char.IsWhiteSpace`: the Unicode space separators, line and paragraph
    * separators, U+0009..U+000D, U+0085 and U+00A0. */
  predicate IsWhiteSpace(c: char) {
    || c == ' '
    || ('\t' <= c <= '\r')
    || c == '\U{0085}' || c == '\U{00A0}' || c == '\U{1680}'
    || ('\U{2000}' <= c <= '\U{200A}')
    || c == '\U{2028}' || c == '\U{2029}' || c == '\U{202F}' || c == '\U{205F}' || c == '\U{3000}'
  }

  /** `string.IsNullOrWhiteSpace`. */
  predicate IsNullOrWhiteSpace(s: Option<string>) {
    s.None? || forall i :: 0 <= i < |s.value| ==> IsWhiteSpace(s.value[i])
  }

  /** `string.TrimStart()`: drops the leading white space (see `TrimStartShape`). */
  function TrimStart(s: string): (r: string)
    ensures |r| <= |s|
    decreases |s|
  {
    if s != [] && IsWhiteSpace(s[0]) then TrimStart(s[1..]) else s
  }

  /** `TrimStart` drops white space, then stops at the first other character. */
  lemma {:induction false} TrimStartShape(s: string)
    ensures TrimStart(s) == s[|s| - |TrimStart(s)|..]
    ensures forall i :: 0 <= i < |s| - |TrimStart(s)| ==> IsWhiteSpace(s[i])
    ensures TrimStart(s) == [] || !IsWhiteSpace(TrimStart(s)[0])
    decreases |s|
  {
    if s != [] && IsWhiteSpace(s[0]) {
      TrimStartShape(s[1..]);
      assert s[1..][|s| - 1 - |TrimStart(s)|..] == s[|s| - |TrimStart(s)|..];
      forall i | 1 <= i < |s| - |TrimStart(s)|
        ensures IsWhiteSpace(s[i])
      {
        assert s[i] == s[1..][i - 1];
      }
    }
  }

  /** `string.TrimEnd()`: drops the trailing white space (see `TrimEndShape`). */
  function TrimEnd(s: string): (r: string)
    ensures |r| <= |s|
    decreases |s|
  {
    if s != [] && IsWhiteSpace(s[|s| - 1]) then TrimEnd(s[..|s| - 1]) else s
  }

  /** `TrimEnd` drops white space from the end, then stops at the last other character. */
  lemma {:induction false} TrimEndShape(s: string)
    ensures TrimEnd(s) == s[..|TrimEnd(s)|]
    ensures forall i :: |TrimEnd(s)| <= i < |s| ==> IsWhiteSpace(s[i])
    ensures TrimEnd(s) == [] || !IsWhiteSpace(TrimEnd(s)[|TrimEnd(s)| - 1])
    decreases |s|
  {
    if s != [] && IsWhiteSpace(s[|s| - 1]) {
      TrimEndShape(s[..|s| - 1]);
      assert s[..|s| - 1][..|TrimEnd(s)|] == s[..|TrimEnd(s)|];
      forall i | |TrimEnd(s)| <= i < |s| - 1
        ensures IsWhiteSpace(s[i])
      {
        assert s[i] == s[..|s| - 1][i];
      }
    }
  }

  /** Every character is white space. */
  predicate AllWhiteSpace(s: string) {
    forall i :: 0 <= i < |s| ==> IsWhiteSpace(s[i])
  }

  /** `r` is a stretch of `s` with nothing but white space before and after it. */
  ghost predicate CutFrom(s: string, r: string) {
    exists i :: 0 <= i <= |s| - |r| && s[i..i + |r|] == r && AllWhiteSpace(s[..i]) && AllWhiteSpace(s[i + |r|..])
  }

  /**
   * `string.Trim()`: cuts the white space off both ends, so the result
   * neither starts nor ends with white space (`TrimCut` shows it is the
   * stretch of `s` in between).
   */
  function Trim(s: string): (r: string)
    ensures |r| <= |s|
    ensures Trimmed(r)
  {
    TrimStartShape(s);
    TrimEndShape(TrimStart(s));
    TrimEnd(TrimStart(s))
  }

  /** What `Trim` keeps is a stretch of `s` with only white space cut before and after it. */
  lemma TrimCut(s: string)
    ensures CutFrom(s, Trim(s))
  {
    TrimStartShape(s);
    TrimEndShape(TrimStart(s));
    var t := TrimStart(s);
    var r := TrimEnd(t);
    var i := |s| - |t|;
    var j := i + |r|;
    assert s[i..j] == r;
    assert AllWhiteSpace(s[j..]) by {
      forall k | 0 <= k < |s| - j
        ensures IsWhiteSpace(s[j..][k])
      {
        assert s[j..][k] == t[|r| + k];
      }
    }
    assert 0 <= i <= |s| - |r| && s[i..i + |r|] == r && AllWhiteSpace(s[..i]) && AllWhiteSpace(s[i + |r|..]);
  }

  /** Neither starts nor ends with white space: what `Trim` returns. */
  predicate Trimmed(s: string) {
    s == [] || (!IsWhiteSpace(s[0]) && !IsWhiteSpace(s[|s| - 1]))
  }

  /** `Trim` returns a trimmed string unchanged. */
  lemma TrimTrimmed(s: string)
    requires Trimmed(s)
    ensures Trim(s) == s
  {
    assert TrimStart(s) == s;
  }

  /** Trimming twice trims nothing more. */
  lemma TrimIdempotent(s: string)
    ensures Trim(Trim(s)) == Trim(s)
  {
    var t := Trim(s);
    assert TrimStart(t) == t;
    assert TrimEnd(t) == t;
  }

  /** `s?.Trim()`: a present string is trimmed, an absent one stays absent. */
  function TrimNullable(s: Option<string>): Option<string> {
    if s.Some? then Some(Trim(s.value)) else None
  }

  function UpperChar(c: char): char {
    if 'a' <= c <= 'z' then (c as int - 32) as char else c
  }

  function LowerChar(c: char): char {
    if 'A' <= c <= 'Z' then (c as int + 32) as char else c
  }

  /** `string.ToUpper()` on ASCII letters. */
  function ToUpper(s: string): (r: string)
    ensures |r| == |s|
    ensures forall i :: 0 <= i < |s| ==> r[i] == UpperChar(s[i])
  {
    seq(|s|, i requires 0 <= i < |s| => UpperChar(s[i]))
  }

  /** `string.ToLower()` on ASCII letters. */
  function ToLower(s: string): (r: string)
    ensures |r| == |s|
    ensures forall i :: 0 <= i < |s| ==> r[i] == LowerChar(s[i])
  {
    seq(|s|, i requires 0 <= i < |s| => LowerChar(s[i]))
  }

  /** Case-insensitive equality (`StringComparison.InvariantCultureIgnoreCase`). */
  predicate EqualsIgnoreCase(a: string, b: string) {
    ToUpper(a) == ToUpper(b)
  }

  lemma {:induction false} TrimStartUpper(s: string)
    ensures TrimStart(ToUpper(s)) == ToUpper(TrimStart(s))
    decreases |s|
  {
    if s != [] && IsWhiteSpace(s[0]) {
      assert ToUpper(s)[1..] == ToUpper(s[1..]);
      TrimStartUpper(s[1..]);
    }
  }

  lemma {:induction false} TrimEndUpper(s: string)
    ensures TrimEnd(ToUpper(s)) == ToUpper(TrimEnd(s))
    decreases |s|
  {
    if s != [] && IsWhiteSpace(s[|s| - 1]) {
      assert ToUpper(s)[..|s| - 1] == ToUpper(s[..|s| - 1]);
      TrimEndUpper(s[..|s| - 1]);
    }
  }

  /**
   * Upper-casing and trimming commute, so comparing a stored name with
   * `request.Name.ToUpper().Trim()` is comparing it with the upper-cased
   * form of the name that would be stored (`request.Name.Trim()`).
   */
  lemma UpperTrimCommute(s: string)
    ensures Trim(ToUpper(s)) == ToUpper(Trim(s))
  {
    TrimStartUpper(s);
    TrimEndUpper(TrimStart(s));
  }

  // ---------------------------------------------------------------- numbers

  const Int32Min: int := -0x8000_0000
  const Int32Max: int := 0x7FFF_FFFF

  predicate InInt32(n: int) {
    Int32Min <= n <= Int32Max
  }

  predicate IsDigit(c: char) {
    '0' <= c <= '9'
  }

  predicate AllDigits(s: string) {
    forall i :: 0 <= i < |s| ==> IsDigit(s[i])
  }

  function DigitChar(d: int): char
    requires 0 <= d < 10
  {
    ('0' as int + d) as char
  }

  /** The decimal digits of `n`, most significant first, without leading zeros. */
  function NatToString(n: nat): (r: string)
    decreases n
  {
    if n < 10 then [DigitChar(n)] else NatToString(n / 10) + [DigitChar(n % 10)]
  }

  /** `int.ToString()` with the invariant culture's "-" sign. */
  function IntToString(n: int): string {
    if n < 0 then "-" + NatToString(-n) else NatToString(n)
  }

  function DigitsValue(ds: string): nat
    requires AllDigits(ds)
  {
    if ds == [] then 0 else DigitsValue(ds[..|ds| - 1]) * 10 + (ds[|ds| - 1] as int - '0' as int)
  }

  /** The white space `NumberStyles.Integer` allows around a number. */
  predicate IsNumberWhite(c: char) {
    c == ' ' || ('\t' <= c <= '\r')
  }

  function TrimNumberStart(s: string): string
    decreases |s|
  {
    if s != [] && IsNumberWhite(s[0]) then TrimNumberStart(s[1..]) else s
  }

  function TrimNumberEnd(s: string): string
    decreases |s|
  {
    if s != [] && IsNumberWhite(s[|s| - 1]) then TrimNumberEnd(s[..|s| - 1]) else s
  }

  /** Only the white space `NumberStyles.Integer` allows. */
  predicate AllNumberWhite(s: string) {
    forall i :: 0 <= i < |s| ==> IsNumberWhite(s[i])
  }

  /** At least one decimal digit, after an optional '-' or '+'. */
  predicate SignedDigits(t: string) {
    || (t != [] && AllDigits(t))
    || (|t| >= 2 && (t[0] == '-' || t[0] == '+') && AllDigits(t[1..]))
  }

  /** The value of a run of digits, negated after a '-'. */
  function SignedValue(t: string): int
    requires SignedDigits(t)
  {
    if AllDigits(t) then DigitsValue(t)
    else if t[0] == '-' then -(DigitsValue(t[1..]) as int)
    else DigitsValue(t[1..])
  }

  /**
   * `int.TryParse(s, out var n)`: optional surrounding white space, an
   * optional leading sign and at least one decimal digit; values outside the
   * 32-bit range are refused.
   */
  function ParseInt32(s: string): (r: Option<int>)
    ensures r.Some? ==> InInt32(r.value)
    ensures var t := TrimNumberEnd(TrimNumberStart(s));
            && (r.Some? <==> SignedDigits(t) && InInt32(SignedValue(t)))
            && (r.Some? ==> r.value == SignedValue(t))
  {
    var t := TrimNumberEnd(TrimNumberStart(s));
    var signed := t != [] && (t[0] == '-' || t[0] == '+');
    var digits := if signed then t[1..] else t;
    if digits == [] || !AllDigits(digits) then None
    else
      var magnitude: int := DigitsValue(digits);
      var v := if signed && t[0] == '-' then -magnitude else magnitude;
      if InInt32(v) then Some(v) else None
  }

  lemma {:induction false} NatToStringDigits(n: nat)
    ensures NatToString(n) != []
    ensures AllDigits(NatToString(n))
    ensures DigitsValue(NatToString(n)) == n
    decreases n
  {
    if n >= 10 {
      NatToStringDigits(n / 10);
      var ds := NatToString(n);
      assert ds[..|ds| - 1] == NatToString(n / 10);
    }
  }

  /** Every 32-bit integer is read back from its own decimal text. */
  lemma ParseIntToString(n: int)
    requires InInt32(n)
    ensures ParseInt32(IntToString(n)) == Some(n)
  {
    var t := IntToString(n);
    if n < 0 {
      NatToStringDigits(-n);
      assert t[1..] == NatToString(-n);
    } else {
      NatToStringDigits(n);
    }
    assert TrimNumberStart(t) == t;
    assert TrimNumberEnd(t) == t;
  }

  /** Leading white space before a character that is not white space is dropped. */
  lemma {:induction false} TrimNumberStartWhite(w: string, t: string)
    requires AllNumberWhite(w)
    requires t == [] || !IsNumberWhite(t[0])
    ensures TrimNumberStart(w + t) == t
    decreases |w|
  {
    if w != [] {
      assert (w + t)[1..] == w[1..] + t;
      TrimNumberStartWhite(w[1..], t);
    }
  }

  /** Trailing white space after a character that is not white space is dropped. */
  lemma {:induction false} TrimNumberEndWhite(t: string, w: string)
    requires AllNumberWhite(w)
    requires t == [] || !IsNumberWhite(t[|t| - 1])
    ensures TrimNumberEnd(t + w) == t
    decreases |w|
  {
    if w != [] {
      assert (t + w)[..|t + w| - 1] == t + w[..|w| - 1];
      TrimNumberEndWhite(t, w[..|w| - 1]);
    } else {
      assert t + w == t;
    }
  }

  /**
   * A signed run of digits between white space reads as its value when that
   * fits in 32 bits, and is refused otherwise.
   */
  lemma ParseSurrounded(lead: string, t: string, trail: string)
    requires AllNumberWhite(lead) && AllNumberWhite(trail)
    requires SignedDigits(t)
    ensures ParseInt32(lead + t + trail) == if InInt32(SignedValue(t)) then Some(SignedValue(t)) else None
  {
    assert lead + t + trail == lead + (t + trail);
    assert !IsNumberWhite(t[0]);
    TrimNumberStartWhite(lead, t + trail);
    assert !IsNumberWhite(t[|t| - 1]);
    TrimNumberEndWhite(t, trail);
  }

  /** `string.Join(", ", ids)`. */
  function JoinInts(ids: seq<int>): string
    decreases |ids|
  {
    if ids == [] then ""
    else if |ids| == 1 then IntToString(ids[0])
    else IntToString(ids[0]) + ", " + JoinInts(ids[1..])
  }
}

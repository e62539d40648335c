/** Printing and reading decimals (src/decimal.cpp), with the library conversions they use: `sprintf` of a whole
  number and of six zero-padded digits, and `strtol`, including its blanks, sign and saturation. */
module DecimalText {
  import opened Arithmetic
  import opened Decimal
  import opened Text

  const INT64_MIN := -0x8000_0000_0000_0000

  predicate IsDigit(c: char) {
    '0' <= c <= '9'
  }

  function DigitValue(c: char): (d: nat)
    requires IsDigit(c)
    ensures d < 10
  {
    c as int - '0' as int
  }

  function DigitChar(d: nat): (c: char)
    requires d < 10
    ensures IsDigit(c) && DigitValue(c) == d
  {
    ('0' as int + d) as char
  }

  // ---------------------------------------------------------------------------------------------
  // Library conversions
  // ---------------------------------------------------------------------------------------------

  ghost predicate AllDigits(s: string) {
    forall i :: 0 <= i < |s| ==> IsDigit(s[i])
  }

  /** `%lld` of a non-negative number. */
  function Digits(n: nat): (s: string)
    ensures s != [] && AllDigits(s)
  {
    if n < 10 then [DigitChar(n)] else Digits(n / 10) + [DigitChar(n % 10)]
  }

  /** The last `k` digits, as `%06lld` prints them for `k` = 6 and a number below 10^6. */
  function Padded(n: nat, k: nat): (s: string)
    ensures |s| == k && AllDigits(s)
  {
    if k == 0 then [] else Padded(n / 10, k - 1) + [DigitChar(n % 10)]
  }

  function ValueOf(s: string): nat
    requires AllDigits(s)
  {
    if s == [] then 0 else ValueOf(s[..|s| - 1]) * 10 + DigitValue(s[|s| - 1])
  }

  function SkipBlanks(s: string, i: nat): (j: nat)
    requires i <= |s|
    ensures i <= j <= |s|
    decreases |s| - i
  {
    if i < |s| && IsSpace(s[i]) then SkipBlanks(s, i + 1) else i
  }

  function SkipDigits(s: string, i: nat): (j: nat)
    requires i <= |s|
    ensures i <= j <= |s| && AllDigits(s[i..j])
    decreases |s| - i
  {
    if i < |s| && IsDigit(s[i]) then
      var j := SkipDigits(s, i + 1);
      assert s[i..j] == [s[i]] + s[i + 1..j];
      j
    else i
  }

  function Saturated(v: int): int {
    if v > INT64_MAX then INT64_MAX else if v < INT64_MIN then INT64_MIN else v
  }

  /** `strtol` in base ten from position `i`: the number and where it ends, which is `i` if there is none. */
  function Strtol(s: string, i: nat): (r: (int, nat))
    requires i <= |s|
    ensures i <= r.1 <= |s|
  {
    var j := SkipBlanks(s, i);
    var negative := j < |s| && s[j] == '-';
    var k := if j < |s| && (s[j] == '-' || s[j] == '+') then j + 1 else j;
    var end := SkipDigits(s, k);
    if end == k then (0, i)
    else
      var v: int := ValueOf(s[k..end]);
      (Saturated(if negative then -v else v), end)
  }

  // ---------------------------------------------------------------------------------------------
  // Printing and reading
  // ---------------------------------------------------------------------------------------------

  /** What `sprintf` leaves in the buffer. */
  function Formatted(v: int): (s: string)
    ensures |s| >= 8
  {
    (if v < 0 then "-" else "") + Digits(Abs(v) / PRECISION) + "." + Padded(Abs(v) % PRECISION, PLACES)
  }

  /** Zeros at the end go, except directly after the point. */
  function WithoutZeros(s: string): string {
    if |s| >= 2 && s[|s| - 1] == '0' && s[|s| - 2] != '.' then WithoutZeros(s[..|s| - 1]) else s
  }

  function Print(v: int): string {
    WithoutZeros(Formatted(v))
  }

  /** The fraction brought to six places, from the distance between its end and the end of the whole part. */
  function Aligned(m: int, dist: nat): int
    decreases if dist > PLACES + 1 then dist - PLACES else PLACES + 1 - dist
  {
    if dist > PLACES + 1 then Aligned(Truncated(m, 10), dist - 1)
    else if dist < PLACES + 1 then Aligned(m * 10, dist + 1)
    else m
  }

  /** There must be a character after the whole part: it is taken for the point, unread. */
  predicate HasPoint(s: string) {
    Strtol(s, if s != [] && s[0] == '-' then 1 else 0).1 < |s|
  }

  function Parse(s: string): int
    requires HasPoint(s)
  {
    var negative := s != [] && s[0] == '-';
    var (n, end) := Strtol(s, if negative then 1 else 0);
    var (m, enddec) := Strtol(s, end + 1);
    var k := Aligned(m, enddec - end);
    if negative then -n * PRECISION + -k else n * PRECISION + k
  }

  // ---------------------------------------------------------------------------------------------
  // Round trip
  // ---------------------------------------------------------------------------------------------

  lemma {:induction false} ValueOfDigits(n: nat)
    ensures ValueOf(Digits(n)) == n
  {
    if n >= 10 {
      ValueOfDigits(n / 10);
      assert Digits(n)[..|Digits(n)| - 1] == Digits(n / 10);
    } else {
      assert Digits(n)[..0] == [];
    }
  }

  lemma {:induction false} ValueOfPadded(n: nat, k: nat)
    requires n < Pow10(k)
    ensures ValueOf(Padded(n, k)) == n
  {
    if k == 0 {
      assert Pow10(0) == 1;
    } else {
      LastDigit(n, k);
      ValueOfPadded(n / 10, k - 1);
      assert Padded(n, k)[..k - 1] == Padded(n / 10, k - 1);
    }
  }

  lemma LastDigit(n: nat, k: nat)
    requires k > 0 && n < Pow10(k)
    ensures n == n / 10 * 10 + n % 10 && n / 10 < Pow10(k - 1)
  {
  }

  /** Digits that stand at `i` and are not followed by another one are all skipped. */
  lemma {:induction false} SkipsExactly(s: string, i: nat, d: string)
    requires i + |d| <= |s| && s[i..i + |d|] == d && AllDigits(d)
    requires i + |d| < |s| ==> !IsDigit(s[i + |d|])
    ensures SkipDigits(s, i) == i + |d|
    decreases |d|
  {
    if d != [] {
      assert s[i] == d[0];
      assert s[i + 1..i + |d|] == d[1..];
      SkipsExactly(s, i + 1, d[1..]);
    }
  }

  lemma StartsWithDigit(s: string, i: nat, d: string)
    requires i + |d| <= |s| && s[i..i + |d|] == d && d != [] && AllDigits(d)
    ensures SkipBlanks(s, i) == i && s[i] != '-' && s[i] != '+'
  {
    assert s[i] == d[0];
  }

  /** Digits are read as their value, or as the largest number if that is larger. */
  lemma StrtolReadsDigits(s: string, i: nat, d: string)
    requires i + |d| <= |s| && s[i..i + |d|] == d && d != [] && AllDigits(d)
    requires i + |d| < |s| ==> !IsDigit(s[i + |d|])
    ensures Strtol(s, i) == (Min(ValueOf(d), INT64_MAX), i + |d|)
  {
    hide SkipBlanks, SkipDigits, ValueOf, AllDigits, IsDigit;
    StartsWithDigit(s, i, d);
    SkipsExactly(s, i, d);
    var end := i + |d|;
    assert SkipDigits(s, i) == end && s[i..end] == d;
    assert ValueOf(s[i..end]) == ValueOf(d);
  }

  /** Blanks from `i` to `j` and one sign before `k` are read over, the sign counts, and so do the digits up to `end`;
      the number is brought within 64 bits. */
  lemma StrtolReadsSigned(s: string, i: nat, j: nat, k: nat, end: nat)
    requires i <= j <= k < end <= |s| && AllBlank(s[i..j]) && AllDigits(s[k..end])
    requires k == j || (k == j + 1 && (s[j] == '-' || s[j] == '+'))
    requires end < |s| ==> !IsDigit(s[end])
    ensures var v: int := ValueOf(s[k..end]);
      var signed: int := if k > j && s[j] == '-' then -v else v;
      Strtol(s, i) == (Max(-0x8000_0000_0000_0000, Min(signed, 0x7fff_ffff_ffff_ffff)), end)
  {
    hide Strtol, ValueOf, SkipDigits, SkipBlanks, AllBlank, Saturated, Min, Max;
    var v: int := ValueOf(s[k..end]);
    SaturatedByValue(if k > j && s[j] == '-' then -v else v);
    assert s[k] == s[k..end][0];
    SkipsBlanksExactly(s, i, s[i..j]);
    SkipsExactly(s, k, s[k..end]);
    StrtolAt(s, i, j, k, end);
  }

  lemma SaturatedByValue(v: int)
    ensures Saturated(v) == Max(-0x8000_0000_0000_0000, Min(v, 0x7fff_ffff_ffff_ffff))
  {
  }

  lemma StrtolAt(s: string, i: nat, j: nat, k: nat, end: nat)
    requires i <= |s| && SkipBlanks(s, i) == j <= k < end <= |s| && SkipDigits(s, k) == end && IsDigit(s[k])
    requires k == j || (k == j + 1 && (s[j] == '-' || s[j] == '+'))
    requires AllDigits(s[k..end])
    ensures var v: int := ValueOf(s[k..end]);
      Strtol(s, i) == (Saturated(if k > j && s[j] == '-' then -v else v), end)
  {
    hide ValueOf, SkipDigits, SkipBlanks, Saturated, AllDigits;
  }

  /** Without a digit there is no number, and nothing has been read. */
  lemma StrtolReadsNothing(s: string, i: nat)
    requires i <= |s| && (i < |s| ==> !IsDigit(s[i]) && !IsSpace(s[i]))
    requires i + 1 < |s| ==> !IsDigit(s[i + 1])
    ensures Strtol(s, i) == (0, i)
  {
  }

  lemma {:induction false} SkipsBlanksExactly(s: string, i: nat, blanks: string)
    requires i + |blanks| < |s| && s[i..i + |blanks|] == blanks && AllBlank(blanks) && !IsSpace(s[i + |blanks|])
    ensures SkipBlanks(s, i) == i + |blanks|
    decreases |blanks|
  {
    if blanks != [] {
      assert s[i] == blanks[0];
      assert s[i + 1..i + |blanks|] == blanks[1..];
      SkipsBlanksExactly(s, i + 1, blanks[1..]);
    }
  }

  lemma {:induction false} TrailingZeros(f: string, j: nat)
    requires j <= |f| && AllDigits(f) && forall k :: j <= k < |f| ==> f[k] == '0'
    ensures ValueOf(f) == ValueOf(f[..j]) * Pow10(|f| - j)
  {
    if j == |f| {
      assert f[..j] == f;
    } else {
      var shorter := f[..|f| - 1];
      TrailingZeros(shorter, j);
      assert shorter[..j] == f[..j];
      Associate(ValueOf(f[..j]), Pow10(|shorter| - j), 10);
    }
  }

  /** Stripping stops inside the fraction: at least one digit stays, and what goes are zeros. */
  lemma {:induction false} StrippedFraction(pre: string, f: string) returns (j: nat)
    requires f != [] && AllDigits(f)
    ensures 1 <= j <= |f|
    ensures WithoutZeros(pre + "." + f) == pre + "." + f[..j]
    ensures forall k :: j <= k < |f| ==> f[k] == '0'
  {
    var s := pre + "." + f;
    assert s[|s| - 1] == f[|f| - 1];
    if |f| >= 2 && f[|f| - 1] == '0' {
      var shorter := f[..|f| - 1];
      assert s[..|s| - 1] == pre + "." + shorter;
      assert s[|s| - 2] == f[|f| - 2];
      j := StrippedFraction(pre, shorter);
      assert shorter[..j] == f[..j];
    } else {
      j := |f|;
      assert f[..j] == f;
      assert |f| == 1 ==> s[|s| - 2] == '.';
    }
  }

  lemma {:induction false} AlignedShortFraction(m: nat, digits: nat)
    requires digits <= PLACES
    ensures Aligned(m, digits + 1) == m * Pow10(PLACES - digits)
    decreases PLACES - digits
  {
    if digits < PLACES {
      AlignedShortFraction(m * 10, digits + 1);
    }
  }

  lemma {:induction false} ShortFractionIsSmall(d: string)
    requires AllDigits(d)
    ensures ValueOf(d) < Pow10(|d|)
  {
    if d != [] {
      ShortFractionIsSmall(d[..|d| - 1]);
    }
  }

  /** The first loop drops digits one by one. */
  lemma {:induction false} AlignedLongFraction(m: nat, digits: nat)
    requires digits >= PLACES
    ensures Aligned(m, digits + 1) == m / Pow10(digits - PLACES)
    decreases digits
  {
    if digits > PLACES {
      AlignedLongFraction(m / 10, digits - 1);
      DivTwice(m, 10, Pow10(digits - 1 - PLACES));
    }
  }

  /** The digits in front are what is left of a number when the others are divided off. */
  lemma {:induction false} PrefixIsQuotient(f: string, j: nat)
    requires AllDigits(f) && j <= |f|
    ensures AllDigits(f[..j]) && ValueOf(f[..j]) == ValueOf(f) / Pow10(|f| - j)
    decreases |f|
  {
    if j == |f| {
      assert f[..j] == f && Pow10(0) == 1;
    } else {
      var shorter := f[..|f| - 1];
      assert shorter[..j] == f[..j];
      PrefixIsQuotient(shorter, j);
      assert ValueOf(f) / 10 == ValueOf(shorter);
      DivTwice(ValueOf(f), 10, Pow10(|shorter| - j));
    }
  }

  lemma StrtolReadsFraction(s: string, i: nat, f: string)
    requires i + |f| == |s| && s[i..] == f && AllDigits(f)
    ensures Strtol(s, i) == (Min(ValueOf(f), INT64_MAX), |s|)
  {
    hide ValueOf;
    if f == [] {
      NothingHasNoValue();
    } else {
      hide Strtol;
      assert s[i..i + |f|] == f;
      StrtolReadsDigits(s, i, f);
    }
  }

  lemma NothingHasNoValue()
    ensures ValueOf([]) == 0
  {
  }

  /** What digits behind the point are read as: in millionths, and no more of them than fit 64 bits. */
  function SixPlaces(f: string): int
    requires AllDigits(f)
  {
    var m: int := Min(ValueOf(f), INT64_MAX);
    if |f| <= PLACES then m * Pow10(PLACES - |f|) else m / Pow10(|f| - PLACES)
  }

  /** Up to six places are read exactly. */
  lemma ShortFractionIsExact(f: string)
    requires AllDigits(f) && |f| <= PLACES
    ensures SixPlaces(f) == ValueOf(f) * Pow10(PLACES - |f|)
  {
    hide ValueOf, Pow10;
    ShortFractionIsSmall(f);
    SmallPowers(|f|);
  }

  /** A longer fraction is cut to its first six digits, exactly if those are no more than the largest number of 64 bits
      has in their place: a fraction whose digits overflow is read as that number. */
  lemma LongFractionIsCutExactly(f: string)
    requires AllDigits(f) && |f| > PLACES
    ensures AllDigits(f[..PLACES])
    ensures SixPlaces(f) == ValueOf(f[..PLACES]) <==> ValueOf(f[..PLACES]) <= INT64_MAX / Pow10(|f| - PLACES)
  {
    hide ValueOf, Pow10, AllDigits;
    PrefixIsQuotient(f, PLACES);
    var v, t := ValueOf(f), Pow10(|f| - PLACES);
    if v <= INT64_MAX {
      DivMono(v, INT64_MAX, t);
    } else {
      DivMono(INT64_MAX, v, t);
    }
  }

  lemma {:induction false} NinesValue(f: string)
    requires forall k :: 0 <= k < |f| ==> f[k] == '9'
    ensures AllDigits(f) && ValueOf(f) == Pow10(|f|) - 1
  {
    if f != [] {
      NinesValue(f[..|f| - 1]);
    }
  }

  /** Twenty nines overflow, so that they are read as 92233 millionths and not as 999999. */
  lemma TwentyNinesOverflow()
    ensures var f := "99999999999999999999";
      AllDigits(f) && AllDigits(f[..PLACES]) && ValueOf(f[..PLACES]) == 999_999 && SixPlaces(f) == 92_233
  {
    hide ValueOf, Pow10;
    var f := "99999999999999999999";
    NinesValue(f);
    NinesValue(f[..PLACES]);
    PowerOfPlaces();
    SmallPowersOfTen();
  }

  lemma SmallPowersOfTen()
    ensures Pow10(14) == 100_000_000_000_000 && Pow10(20) == 100_000_000_000_000_000_000
  {
    hide Pow10;
    TwelveZeros();
    PowerOfPlaces();
    TwoZeros();
    Pow10Sum(12, 2);
    Pow10Sum(14, 6);
  }

  lemma TwoZeros()
    ensures Pow10(2) == 100
  {
  }

  /** Up to 18 digits behind the point are always cut to six. */
  lemma EighteenDigitsAreCut(f: string)
    requires AllDigits(f) && PLACES < |f| <= 18
    ensures AllDigits(f[..PLACES]) && SixPlaces(f) == ValueOf(f[..PLACES])
  {
    hide ValueOf, AllDigits, SixPlaces;
    LongFractionIsCutExactly(f);
    ShortFractionIsSmall(f[..PLACES]);
    PowerOfPlaces();
    FewDigitsFit(|f|);
  }

  lemma FewDigitsFit(k: nat)
    requires PLACES < k <= 18
    ensures INT64_MAX / Pow10(k - PLACES) >= PRECISION
  {
    hide Pow10;
    assert Pow10(12) == 1_000_000_000_000 by {
      TwelveZeros();
    }
    Pow10Sum(k - PLACES, 18 - k);
    MulMono(1, Pow10(18 - k), Pow10(k - PLACES));
    DivUnder(INT64_MAX, Pow10(k - PLACES), Pow10(12));
  }

  lemma TwelveZeros()
    ensures Pow10(12) == 1_000_000_000_000
  {
    PowerOfPlaces();
    Pow10Sum(6, 6);
  }

  lemma DivUnder(x: nat, d: nat, e: nat)
    requires 0 < d <= e
    ensures x / e <= x / d
  {
    DivBounds(x, d);
    DivBounds(x, e);
    if x / d < x / e {
      MulMono(x / d + 1, x / e, d);
      MulMono(d, e, x / e);
    }
  }

  lemma PartsInPlace(sign: string, whole: string, fraction: string)
    requires |sign| <= 1 && whole != []
    ensures var s, end := sign + whole + "." + fraction, |sign| + |whole|;
      && |s| == end + 1 + |fraction|
      && s[|sign|..end] == whole && s[end] == '.' && s[end + 1..] == fraction
      && s[0] == if sign == [] then whole[0] else sign[0]
  {
  }

  /** A sign, a whole part and any number of places behind the point are read as their value, each part within 64
      bits. */
  lemma ParseOfParts(negative: bool, whole: string, fraction: string)
    requires whole != [] && AllDigits(whole) && AllDigits(fraction)
    ensures var s := (if negative then "-" else "") + whole + "." + fraction;
      && HasPoint(s)
      && var v := Min(ValueOf(whole), INT64_MAX) * PRECISION + SixPlaces(fraction);
         Parse(s) == if negative then -v else v
  {
    hide Strtol, ValueOf, Aligned, Pow10;
    var sign := if negative then "-" else "";
    var s := sign + whole + "." + fraction;
    PartsInPlace(sign, whole, fraction);
    StrtolReadsDigits(s, |sign|, whole);
    StrtolReadsFraction(s, |sign| + |whole| + 1, fraction);
    if |fraction| <= PLACES {
      AlignedShortFraction(Min(ValueOf(fraction), INT64_MAX), |fraction|);
    } else {
      AlignedLongFraction(Min(ValueOf(fraction), INT64_MAX), |fraction|);
    }
  }

  lemma SmallPowers(k: nat)
    requires k <= PLACES
    ensures Pow10(k) <= PRECISION
  {
    assert Pow10(6) == PRECISION;
    if k < 6 {
      Pow10Sum(k, 6 - k);
    }
  }

  /** Reading what was printed gives the value back, for every raw value but the least 64-bit one. */
  lemma PrintParseRoundTrip(v: int)
    requires INT64_MIN < v <= INT64_MAX
    ensures HasPoint(Print(v)) && Parse(Print(v)) == v
  {
    hide Parse, HasPoint, Pow10, ValueOf, Digits, Padded, WithoutZeros, AllDigits;
    var sign := if v < 0 then "-" else "";
    var whole, fraction := Digits(Abs(v) / PRECISION), Padded(Abs(v) % PRECISION, PLACES);
    ValueOfDigits(Abs(v) / PRECISION);
    PowerOfPlaces();
    ValueOfPadded(Abs(v) % PRECISION, PLACES);
    var j := StrippedFraction(sign + whole, fraction);
    TrailingZeros(fraction, j);
    PrefixOfDigits(fraction, j);
    ShortFractionIsExact(fraction[..j]);
    ParseOfParts(v < 0, whole, fraction[..j]);
  }

  lemma {:induction false} DigitsHaveNoZeroInFront(n: nat)
    ensures Digits(n)[0] == '0' ==> n == 0 && Digits(n) == "0"
  {
    if n >= 10 {
      DigitsHaveNoZeroInFront(n / 10);
    } else {
      assert DigitValue(DigitChar(n)) == n;
    }
  }

  /** What is printed: a minus sign for negative values, the whole part without needless zeros in front, a point, and
      one to six places, the last of which is not a zero unless it is the only one. */
  lemma PrintIsCanonical(v: int) returns (whole: string, fraction: string)
    ensures Print(v) == (if v < 0 then "-" else "") + whole + "." + fraction
    ensures AllDigits(whole) && AllDigits(fraction) && whole != [] && 1 <= |fraction| <= 6
    ensures whole[0] == '0' ==> |whole| == 1
    ensures fraction[|fraction| - 1] == '0' ==> |fraction| == 1
    ensures ValueOf(whole) * 1_000_000 + ValueOf(fraction) * Pow10(6 - |fraction|) == Abs(v)
  {
    hide Pow10, ValueOf, Digits, Padded, WithoutZeros, AllDigits;
    whole := Digits(Abs(v) / PRECISION);
    var all := Padded(Abs(v) % PRECISION, PLACES);
    ValueOfDigits(Abs(v) / PRECISION);
    DigitsHaveNoZeroInFront(Abs(v) / PRECISION);
    PowerOfPlaces();
    ValueOfPadded(Abs(v) % PRECISION, PLACES);
    var pre := (if v < 0 then "-" else "") + whole;
    var j := StrippedFraction(pre, all);
    fraction := all[..j];
    TrailingZeros(all, j);
    PrefixOfDigits(all, j);
    StrippedEndsInDigit(pre, all, fraction);
    if |fraction| > 1 {
      DigitIsNoPoint(fraction, |fraction| - 2);
    }
  }

  lemma DigitIsNoPoint(d: string, i: nat)
    requires AllDigits(d) && i < |d|
    ensures d[i] != '.'
  {
  }

  lemma StrippedEndsInDigit(pre: string, f: string, fraction: string)
    requires WithoutZeros(pre + "." + f) == pre + "." + fraction && fraction != []
    ensures fraction[|fraction| - 1] == '0' ==> |fraction| == 1 || fraction[|fraction| - 2] == '.'
  {
    NothingMoreToStrip(pre + "." + f);
    var s := pre + "." + fraction;
    assert s[|s| - 1] == fraction[|fraction| - 1];
    if |fraction| > 1 {
      assert s[|s| - 2] == fraction[|fraction| - 2];
    }
  }

  lemma {:induction false} NothingMoreToStrip(s: string)
    ensures var r := WithoutZeros(s); |r| >= 2 && r[|r| - 1] == '0' ==> r[|r| - 2] == '.'
  {
    if |s| >= 2 && s[|s| - 1] == '0' && s[|s| - 2] != '.' {
      NothingMoreToStrip(s[..|s| - 1]);
    }
  }

  lemma PowerOfPlaces()
    ensures Pow10(PLACES) == PRECISION
  {
  }

  lemma PrefixOfDigits(f: string, j: nat)
    requires AllDigits(f) && j <= |f|
    ensures AllDigits(f[..j])
  {
  }

  /** Printing is one to one, and prints at least one and at most six places, the last not a needless zero. */
  lemma PrintIsInjective(v: int, w: int)
    requires INT64_MIN < v <= INT64_MAX && INT64_MIN < w <= INT64_MAX && Print(v) == Print(w)
    ensures v == w
  {
    PrintParseRoundTrip(v);
    PrintParseRoundTrip(w);
  }

  // ---------------------------------------------------------------------------------------------
  // The two loops
  // ---------------------------------------------------------------------------------------------

  /** Division towards zero prints its own minus sign, except for a whole part of zero. */
  lemma FormattedByDivision(v: int)
    ensures var minus := if v < 0 && v > -PRECISION then "-" else "";
      var whole := Truncated(v, PRECISION);
      Formatted(v) == minus + (if whole < 0 then "-" + Digits(-whole) else Digits(whole)) + "."
                      + Padded((if v > 0 then v else -v) % PRECISION, PLACES)
  {
    hide Digits, Padded;
  }

  /** The loop at the end of `operator<<`, on a buffer with a point that is not its last character. */
  method StripZeros(buf: string, ghost point: nat) returns (s: string)
    requires point + 1 < |buf| && buf[point] == '.'
    ensures s == WithoutZeros(buf)
  {
    var ptr := |buf| - 1;
    assert buf[..ptr + 1] == buf;
    while buf[ptr] == '0' && buf[ptr - 1] != '.'
      invariant point < ptr < |buf|
      invariant WithoutZeros(buf[..ptr + 1]) == WithoutZeros(buf)
      decreases ptr
    {
      assert buf[..ptr + 1][..ptr] == buf[..ptr];
      ptr := ptr - 1;
    }
    s := buf[..ptr + 1];
  }

  /** `operator<<`: a minus sign of its own for values between -1 and 0, then zeros stripped from the end. */
  method PrintDecimal(v: int) returns (s: string)
    requires INT64_MIN < v <= INT64_MAX
    ensures s == Print(v)
  {
    hide Digits, Padded, WithoutZeros;
    var minus := "";
    if v < 0 && v > -PRECISION {
      minus := "-";
    }
    var whole := Truncated(v, PRECISION);
    var buf := minus + (if whole < 0 then "-" + Digits(-whole) else Digits(whole)) + "."
               + Padded((if v > 0 then v else -v) % PRECISION, PLACES);
    FormattedByDivision(v);
    s := StripZeros(buf, |buf| - PLACES - 1);
  }

  /** The two loops of `from_string`. */
  method AlignFraction(fraction: int, digits: nat) returns (m: int)
    ensures m == Aligned(fraction, digits)
  {
    m := fraction;
    var dist := digits;
    while dist > PLACES + 1
      invariant dist >= 0 && Aligned(m, dist) == Aligned(fraction, digits)
    {
      m := Truncated(m, 10);
      dist := dist - 1;
    }
    while dist < PLACES + 1
      invariant 0 <= dist <= PLACES + 1 && Aligned(m, dist) == Aligned(fraction, digits)
    {
      m := m * 10;
      dist := dist + 1;
    }
  }

  method ParseDecimal(s: string) returns (r: int)
    requires HasPoint(s)
    ensures r == Parse(s)
  {
    hide Strtol, Aligned;
    var negative := false;
    var ptr := 0;
    if s != [] && s[0] == '-' {
      negative := true;
      ptr := 1;
    }
    var (n, endptr) := Strtol(s, ptr);
    var (m, enddec) := Strtol(s, endptr + 1);
    m := AlignFraction(m, enddec - endptr);
    if negative {
      n := -n;
      m := -m;
    }
    r := n * PRECISION + m;
  }
}

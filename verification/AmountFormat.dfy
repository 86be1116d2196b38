/** The exact decimal printers of the SDK: an integer amount in units of 10^-decimals. */
module AmountFormat {
  import opened Wrappers
  import opened Arithmetic

  // ----- Digits -----

  predicate IsDigit(c: char) {
    '0' <= c <= '9'
  }

  function Digit(n: nat): (c: char)
    requires n < 10
    ensures IsDigit(c) && DigitValue(c) == n
  {
    '0' + n as char
  }

  function DigitValue(c: char): (n: nat)
    requires IsDigit(c)
    ensures n < 10
  {
    (c - '0') as int
  }

  /** The digit's character code. */
  lemma DigitMeaning(n: nat)
    requires n < 10
    ensures Digit(n) as int == 48 + n
  {
  }

  predicate AllDigits(s: string) {
    forall i :: 0 <= i < |s| ==> IsDigit(s[i])
  }

  /** What a string of digits stands for; no digits stand for 0. */
  function Value(s: string): nat
    requires AllDigits(s)
  {
    if s == [] then 0 else 10 * Value(s[..|s| - 1]) + DigitValue(s[|s| - 1])
  }

  /** `toString()` of a non-negative bigint. */
  function Text(n: nat): (s: string)
    ensures s != [] && AllDigits(s)
  {
    if n < 10 then [Digit(n)] else Text(n / 10) + [Digit(n % 10)]
  }

  function Zeros(k: nat): (s: string)
    ensures |s| == k && AllDigits(s)
  {
    if k == 0 then [] else ['0'] + Zeros(k - 1)
  }

  /** `padStart(width, '0')` */
  function PadStart(s: string, width: nat): string {
    if |s| >= width then s else Zeros(width - |s|) + s
  }

  /** `replace(/0+$/, '')` */
  function TrimZeros(s: string): string {
    if s != [] && s[|s| - 1] == '0' then TrimZeros(s[..|s| - 1]) else s
  }

  // ----- The printers -----

  /** `divisor` is `BigInt(10 ** decimals)`. */
  function FormatTokenAmount(amount: nat, decimals: nat, divisor: nat): string
    requires divisor > 0
  {
    if decimals == 0 then Text(amount)
    else
      var whole := FloorDiv(amount, divisor);
      var fraction := Remainder(amount, divisor);
      var fractionStr := PadStart(Text(fraction), decimals);
      var trimmed := TrimZeros(fractionStr);
      if trimmed == "" then Text(whole) else Text(whole) + "." + trimmed
  }

  function FormatLpAmount(amount: nat, decimals: nat, divisor: nat): string
    requires divisor > 0
  {
    var whole := FloorDiv(amount, divisor);
    var fraction := Remainder(amount, divisor);
    var fractionStr := TrimZeros(PadStart(Text(fraction), decimals));
    if fractionStr == "" then Text(whole) else Text(whole) + "." + fractionStr
  }

  // ----- Reading -----

  /** The position of the decimal point, or the length if there is none. */
  function PointAt(s: string): (i: nat)
    ensures i <= |s|
    ensures forall j :: 0 <= j < i ==> s[j] != '.'
    ensures i < |s| ==> s[i] == '.'
  {
    if s == [] || s[0] == '.' then 0 else 1 + PointAt(s[1..])
  }

  /** The amount written as these digits on both sides of the point. */
  function Amount(whole: string, fraction: string, decimals: nat): nat
    requires AllDigits(whole) && AllDigits(fraction) && |fraction| <= decimals
  {
    Value(whole) * Pow10(decimals) + Value(fraction) * Pow10(decimals - |fraction|)
  }

  /** A decimal number read in units of 10^-decimals: digits, and possibly a point followed
      by at most that many digits. */
  function Read(s: string, decimals: nat): Option<nat> {
    var i := PointAt(s);
    var whole := s[..i];
    var fraction := if i < |s| then s[i + 1..] else [];
    if whole == [] || !AllDigits(whole) || !AllDigits(fraction) || |fraction| > decimals || (i < |s| && fraction == [])
    then None
    else Some(Amount(whole, fraction, decimals))
  }

  /** No leading zero but a lone one, no trailing zero after a point. */
  predicate Canonical(s: string) {
    var i := PointAt(s);
    && (i > 1 ==> s[0] != '0')
    && (i < |s| ==> s[|s| - 1] != '0')
  }

  // ----- Digits and values -----

  lemma {:induction false} TextValue(n: nat)
    ensures Value(Text(n)) == n
    ensures |Text(n)| > 1 ==> Text(n)[0] != '0'
    decreases n
  {
    if n >= 10 {
      TextValue(n / 10);
      assert Text(n)[..|Text(n)| - 1] == Text(n / 10);
      if |Text(n / 10)| == 1 {
        assert Text(n / 10) == [Digit(n / 10)];
      }
    }
  }

  lemma {:induction false} TextLength(n: nat, k: nat)
    requires n < Pow10(k) && k > 0
    ensures |Text(n)| <= k
    decreases k
  {
    if n >= 10 {
      TextLength(n / 10, k - 1);
    }
  }

  lemma {:induction false} ValueBound(s: string)
    requires AllDigits(s)
    ensures Value(s) < Pow10(|s|)
  {
    if s != [] {
      ValueBound(s[..|s| - 1]);
    }
  }

  lemma {:induction false} ValueConcat(a: string, b: string)
    requires AllDigits(a) && AllDigits(b)
    ensures AllDigits(a + b)
    ensures Value(a + b) == Value(a) * Pow10(|b|) + Value(b)
    decreases |b|
  {
    if b == [] {
      assert a + b == a;
    } else {
      var init := b[..|b| - 1];
      ValueConcat(a, init);
      assert (a + b)[..|a + b| - 1] == a + init;
      TenTimes(Value(a), |b|);
    }
  }

  lemma {:induction false} ZerosValue(k: nat)
    ensures Value(Zeros(k)) == 0
  {
    if k > 0 {
      ZerosValue(k - 1);
      ValueConcat(['0'], Zeros(k - 1));
      assert Value(['0']) == 10 * Value([]) + 0;
    }
  }

  /** Digits of one length are determined by their value. */
  lemma {:induction false} ValueInjective(a: string, b: string)
    requires AllDigits(a) && AllDigits(b) && |a| == |b| && Value(a) == Value(b)
    ensures a == b
  {
    if a != [] {
      var n := |a| - 1;
      SameDigits(Value(a[..n]), Value(b[..n]), DigitValue(a[n]), DigitValue(b[n]));
      SameDigit(a[n], b[n]);
      ValueInjective(a[..n], b[..n]);
      assert a == a[..n] + [a[n]] && b == b[..n] + [b[n]];
    }
  }

  lemma SameDigit(c: char, d: char)
    requires IsDigit(c) && IsDigit(d) && DigitValue(c) == DigitValue(d)
    ensures c == d
  {
  }

  lemma SameDigits(x: nat, y: nat, d: nat, e: nat)
    requires d < 10 && e < 10 && 10 * x + d == 10 * y + e
    ensures x == y && d == e
  {
  }

  /** Digits without a leading zero are the printed form of their value. */
  lemma {:induction false} TextOfValue(s: string)
    requires AllDigits(s) && s != [] && (|s| > 1 ==> s[0] != '0')
    ensures Text(Value(s)) == s
  {
    var n := |s| - 1;
    if n == 0 {
      assert Value(s[..0]) == 0;
    } else {
      TextOfValue(s[..n]);
      FirstDigit(s[..n]);
      assert s == s[..n] + [s[n]];
    }
  }

  lemma {:induction false} FirstDigit(s: string)
    requires AllDigits(s) && s != [] && s[0] != '0'
    ensures Value(s) > 0
  {
    if |s| > 1 {
      FirstDigit(s[..|s| - 1]);
    }
  }

  lemma PadValue(s: string, width: nat)
    requires AllDigits(s) && |s| <= width
    ensures |PadStart(s, width)| == width && AllDigits(PadStart(s, width))
    ensures Value(PadStart(s, width)) == Value(s)
  {
    if |s| < width {
      ZerosValue(width - |s|);
      ValueConcat(Zeros(width - |s|), s);
    }
  }

  lemma PadMeaning(n: nat, width: nat)
    requires n < Pow10(width) && width > 0
    ensures |PadStart(Text(n), width)| == width && AllDigits(PadStart(Text(n), width))
    ensures Value(PadStart(Text(n), width)) == n
  {
    var s := Text(n);
    TextLength(n, width);
    TextValue(n);
    PadValue(s, width);
  }

  lemma {:induction false} TrimMeaning(s: string)
    requires AllDigits(s)
    ensures
      var t := TrimZeros(s);
      && |t| <= |s| && AllDigits(t) && (t != [] ==> t[|t| - 1] != '0')
      && Value(s) == Value(t) * Pow10(|s| - |t|)
  {
    if s != [] && s[|s| - 1] == '0' {
      TrimMeaning(s[..|s| - 1]);
      var t := TrimZeros(s);
      TenTimes(Value(t), |s| - |t|);
    } else {
      assert Value(s) * Pow10(0) == Value(s);
    }
  }

  lemma {:induction false} TrimPadded(s: string, k: nat)
    requires s != [] ==> s[|s| - 1] != '0'
    ensures TrimZeros(s + Zeros(k)) == s
    decreases k
  {
    var t := s + Zeros(k);
    if k == 0 {
      assert t == s;
    } else {
      var n := |t| - 1;
      ZerosEnd(k);
      assert t[n] == '0' && t[..n] == s + Zeros(k - 1);
      TrimPadded(s, k - 1);
    }
  }

  lemma {:induction false} ZerosEnd(k: nat)
    requires k > 0
    ensures Zeros(k) == Zeros(k - 1) + ['0']
  {
    if k > 1 {
      ZerosEnd(k - 1);
    }
  }

  // ----- Main results -----

  /** The two printers agree whenever `10 ** 0` is 1. */
  lemma PrintersAgree(amount: nat, decimals: nat, divisor: nat)
    requires divisor > 0 && (decimals == 0 ==> divisor == 1)
    ensures FormatTokenAmount(amount, decimals, divisor) == FormatLpAmount(amount, decimals, divisor)
  {
    if decimals == 0 {
      assert TrimZeros("0") == TrimZeros("");
      assert Text(0) == "0";
    }
  }

  /** A whole part, and a fraction if there is one. */
  function Joined(whole: string, fraction: string): string {
    if fraction == "" then whole else whole + "." + fraction
  }

  /** The digits of the fraction that are printed. */
  function Shown(fraction: nat, decimals: nat): string {
    TrimZeros(PadStart(Text(fraction), decimals))
  }

  lemma ShownMeaning(fraction: nat, decimals: nat)
    requires fraction < Pow10(decimals)
    ensures
      var t := Shown(fraction, decimals);
      && |t| <= decimals && AllDigits(t) && (t != [] ==> t[|t| - 1] != '0')
      && Value(t) * Pow10(decimals - |t|) == fraction
  {
    if decimals == 0 {
      assert TrimZeros("0") == TrimZeros("");
    } else {
      PadMeaning(fraction, decimals);
      TrimMeaning(PadStart(Text(fraction), decimals));
    }
  }

  /** What is shown is the only fraction of that value that does not end in a zero. */
  lemma ShownUnique(fraction: string, decimals: nat)
    requires AllDigits(fraction) && |fraction| <= decimals && (fraction != [] ==> fraction[|fraction| - 1] != '0')
    ensures Value(fraction) * Pow10(decimals - |fraction|) < Pow10(decimals)
    ensures Shown(Value(fraction) * Pow10(decimals - |fraction|), decimals) == fraction
  {
    var k := decimals - |fraction|;
    var low := Value(fraction) * Pow10(k);
    FractionFits(fraction, decimals);
    if decimals == 0 {
      assert TrimZeros("0") == TrimZeros("");
    } else {
      PadMeaning(low, decimals);
      ZerosValue(k);
      ValueConcat(fraction, Zeros(k));
      ValueInjective(PadStart(Text(low), decimals), fraction + Zeros(k));
      TrimPadded(fraction, k);
    }
  }

  lemma {:induction false} PointAfterDigits(whole: string, rest: string)
    requires AllDigits(whole) && (rest != [] ==> rest[0] == '.')
    ensures PointAt(whole + rest) == |whole|
  {
    if whole == [] {
      assert whole + rest == rest;
    } else {
      assert (whole + rest)[1..] == whole[1..] + rest;
      PointAfterDigits(whole[1..], rest);
    }
  }

  lemma ReadJoined(whole: string, fraction: string, decimals: nat)
    requires whole != [] && AllDigits(whole) && AllDigits(fraction) && |fraction| <= decimals
    requires (|whole| > 1 ==> whole[0] != '0') && (fraction != [] ==> fraction[|fraction| - 1] != '0')
    ensures Canonical(Joined(whole, fraction))
    ensures Read(Joined(whole, fraction), decimals)
            == Some(Amount(whole, fraction, decimals))
  {
    var s := Joined(whole, fraction);
    if fraction == "" {
      assert s == whole + "" && s[..|whole|] == whole;
      PointAfterDigits(whole, "");
    } else {
      assert s == whole + ("." + fraction);
      PointAfterDigits(whole, "." + fraction);
      assert s[..|whole|] == whole && s[|whole| + 1..] == fraction;
    }
  }

  lemma FormatParts(amount: nat, decimals: nat, divisor: nat)
    requires divisor > 0 && (decimals == 0 ==> divisor == 1)
    ensures FormatTokenAmount(amount, decimals, divisor)
            == Joined(Text(FloorDiv(amount, divisor)), Shown(Remainder(amount, divisor), decimals))
  {
    PrintersAgree(amount, decimals, divisor);
  }

  lemma PartsAmount(q: nat, r: nat, decimals: nat)
    requires r < Pow10(decimals) && |Shown(r, decimals)| <= decimals && AllDigits(Shown(r, decimals))
    ensures Amount(Text(q), Shown(r, decimals), decimals) == q * Pow10(decimals) + r
  {
    ShownMeaning(r, decimals);
    TextValue(q);
  }

  lemma PartsRead(q: nat, r: nat, decimals: nat)
    requires r < Pow10(decimals)
    ensures |Shown(r, decimals)| <= decimals && AllDigits(Shown(r, decimals))
    ensures Read(Joined(Text(q), Shown(r, decimals)), decimals)
            == Some(Amount(Text(q), Shown(r, decimals), decimals))
    ensures Canonical(Joined(Text(q), Shown(r, decimals)))
  {
    TextValue(q);
    ShownMeaning(r, decimals);
    ReadJoined(Text(q), Shown(r, decimals), decimals);
  }

  /** The printed string is canonical and reads back as exactly the amount. */
  lemma FormatReads(amount: nat, decimals: nat)
    ensures Read(FormatTokenAmount(amount, decimals, Pow10(decimals)), decimals) == Some(amount)
    ensures Canonical(FormatTokenAmount(amount, decimals, Pow10(decimals)))
  {
    var d := Pow10(decimals);
    var q, r := FloorDiv(amount, d), Remainder(amount, d);
    var printed := Joined(Text(q), Shown(r, decimals));
    assert FormatTokenAmount(amount, decimals, d) == printed by {
      FormatParts(amount, decimals, d);
    }
    assert Read(printed, decimals) == Some(amount) && Canonical(printed) by {
      PartsRead(q, r, decimals);
      PartsAmount(q, r, decimals);
      SplitExactly(amount, d);
    }
  }

  /** What a string that reads as an amount is made of. */
  lemma ReadParts(s: string, amount: nat, decimals: nat) returns (whole: string, fraction: string)
    requires Read(s, decimals) == Some(amount) && Canonical(s)
    ensures s == Joined(whole, fraction)
    ensures whole != [] && AllDigits(whole) && AllDigits(fraction) && |fraction| <= decimals
    ensures (|whole| > 1 ==> whole[0] != '0') && (fraction != [] ==> fraction[|fraction| - 1] != '0')
    ensures amount == Amount(whole, fraction, decimals)
  {
    var i := PointAt(s);
    whole := s[..i];
    fraction := if i < |s| then s[i + 1..] else [];
    if i < |s| {
      assert s == s[..i] + [s[i]] + s[i + 1..];
    }
  }

  /** It is the only canonical string that reads as the amount. */
  lemma FormatUnique(s: string, amount: nat, decimals: nat)
    requires Read(s, decimals) == Some(amount) && Canonical(s)
    ensures s == FormatTokenAmount(amount, decimals, Pow10(decimals))
  {
    var whole, fraction := ReadParts(s, amount, decimals);
    JoinedUnique(whole, fraction, amount, decimals);
  }

  lemma JoinedUnique(whole: string, fraction: string, amount: nat, decimals: nat)
    requires whole != [] && AllDigits(whole) && AllDigits(fraction) && |fraction| <= decimals
    requires (|whole| > 1 ==> whole[0] != '0') && (fraction != [] ==> fraction[|fraction| - 1] != '0')
    requires amount == Amount(whole, fraction, decimals)
    ensures FormatTokenAmount(amount, decimals, Pow10(decimals)) == Joined(whole, fraction)
  {
    var d := Pow10(decimals);
    FormatParts(amount, decimals, d);
    ShownUnique(fraction, decimals);
    SplitUnique(amount, Value(whole), Value(fraction) * Pow10(decimals - |fraction|), d);
    TextOfValue(whole);
  }

  lemma SplitUnique(x: nat, q: nat, r: nat, d: nat)
    requires x == q * d + r && r < d
    ensures FloorDiv(x, d) == q && Remainder(x, d) == r
  {
    DivModUnique(x, q, r, d);
  }

  lemma FractionFits(fraction: string, decimals: nat)
    requires AllDigits(fraction) && |fraction| <= decimals
    ensures Value(fraction) * Pow10(decimals - |fraction|) < Pow10(decimals)
  {
    ValueBound(fraction);
    PowSum(|fraction|, decimals - |fraction|);
    ScaleStrict(Value(fraction), Pow10(|fraction|), Pow10(decimals - |fraction|));
  }

  /** Different amounts print differently. */
  lemma FormatInjective(a: nat, b: nat, decimals: nat)
    requires FormatTokenAmount(a, decimals, Pow10(decimals)) == FormatTokenAmount(b, decimals, Pow10(decimals))
    ensures a == b
  {
    FormatReads(a, decimals);
    FormatReads(b, decimals);
  }

  /** With any divisor, the printer is exact for all amounts exactly when the divisor is the
      power of ten itself. */
  lemma ExactDivisorIff(decimals: nat, divisor: nat)
    requires decimals > 0 && divisor > 0
    ensures (forall a: nat :: Read(FormatTokenAmount(a, decimals, divisor), decimals) == Some(a))
            <==> divisor == Pow10(decimals)
  {
    if divisor == Pow10(decimals) {
      forall a: nat
        ensures Read(FormatTokenAmount(a, decimals, divisor), decimals) == Some(a)
      {
        FormatReads(a, decimals);
      }
    } else {
      OneReads(decimals, divisor);
    }
  }

  // ----- The double 10 ** decimals -----

  function Pow(b: nat, k: nat): nat {
    if k == 0 then 1 else b * Pow(b, k - 1)
  }

  /** 2^53: the significand of a double is below it. */
  const SIGNIFICANDS: nat := 0x20_0000_0000_0000

  function Float(m: nat, e: nat): nat {
    m * Pow(2, e)
  }

  /** An integer that a double can hold, exponent range apart. */
  ghost predicate IsDouble(x: nat) {
    exists m: nat, e: nat :: m < SIGNIFICANDS && Float(m, e) == x
  }

  /** What `10 ** decimals` may be: some double, and the power itself if it is one. */
  ghost predicate IsDoublePower(divisor: nat, decimals: nat) {
    divisor > 0 && IsDouble(divisor) && (IsDouble(Pow10(decimals)) ==> divisor == Pow10(decimals))
  }

  lemma Associative(a: nat, b: nat, c: nat)
    ensures a * (b * c) == a * b * c
  {
  }

  lemma {:induction false} PowAdd(b: nat, i: nat, j: nat)
    ensures Pow(b, i + j) == Pow(b, i) * Pow(b, j)
  {
    if i > 0 {
      var low, high := Pow(b, i - 1), Pow(b, j);
      PowAdd(b, i - 1, j);
      assert Pow(b, i + j) == b * (low * high);
      Associative(b, low, high);
    }
  }

  lemma {:induction false} TenIsTwoFives(k: nat)
    ensures Pow10(k) == Pow(5, k) * Pow(2, k)
  {
    if k > 0 {
      TenIsTwoFives(k - 1);
      assert Pow10(k) == 10 * (Pow(5, k - 1) * Pow(2, k - 1));
      assert Pow(5, k) * Pow(2, k) == (5 * Pow(5, k - 1)) * (2 * Pow(2, k - 1));
    }
  }

  lemma {:induction false} FivesOdd(k: nat)
    ensures Pow(5, k) % 2 == 1
  {
    if k > 0 {
      FivesOdd(k - 1);
    }
  }

  lemma {:induction false} PowGrows(b: nat, i: nat, j: nat)
    requires b > 0 && i <= j
    ensures 0 < Pow(b, i) <= Pow(b, j)
    decreases j
  {
    if i < j {
      PowGrows(b, i, j - 1);
      Scale(1, b, Pow(b, j - 1));
    } else if i > 0 {
      PowGrows(b, i - 1, j - 1);
      Scale(1, b, Pow(b, j - 1));
    }
  }

  /** The last power of five with a significand, and the first without. */
  lemma FiveBounds()
    ensures Pow(5, 22) < SIGNIFICANDS < Pow(5, 23)
  {
    var k: nat := 11;
    assert Pow(5, k) == 48828125;
    PowAdd(5, k, k);
    assert Pow(5, k + k) == 2384185791015625;
    assert Pow(5, k + k + 1) == 5 * Pow(5, k + k);
  }

  lemma FloatTwice(m: nat, e: nat)
    requires e > 0
    ensures Float(m, e) == 2 * Float(m, e - 1)
  {
    var p := Pow(2, e - 1);
    assert m * (2 * p) == 2 * (m * p);
  }

  lemma {:induction false} CommonTwos(f: nat, m: nat, i: nat, e: nat)
    requires i <= e && Float(f, i) == Float(m, e)
    ensures f == Float(m, e - i)
    decreases i
  {
    if i > 0 {
      FloatTwice(f, i);
      FloatTwice(m, e);
      CommonTwos(f, m, i - 1, e - 1);
    }
  }

  lemma EvenFloat(m: nat, k: nat)
    requires k > 0
    ensures Float(m, k) % 2 == 0
  {
    FloatTwice(m, k);
  }

  /** However a power of ten is written, its odd part stays in the significand. */
  lemma OddPartStays(d: nat, m: nat, e: nat)
    requires Float(m, e) == Float(Pow(5, d), d)
    ensures m >= Pow(5, d)
  {
    if e > d {
      CommonTwos(Pow(5, d), m, d, e);
      EvenFloat(m, e - d);
      FivesOdd(d);
    } else {
      CommonTwos(m, Pow(5, d), e, d);
      PowGrows(2, 0, d - e);
      Scale(1, Pow(2, d - e), Pow(5, d));
    }
  }

  /** The power of ten is a double exactly up to 22. */
  lemma PowerIsDoubleIff(d: nat)
    ensures IsDouble(Pow10(d)) <==> d <= 22
  {
    FiveBounds();
    TenIsTwoFives(d);
    assert Pow10(d) == Float(Pow(5, d), d);
    if d <= 22 {
      PowGrows(5, d, 22);
    } else {
      PowGrows(5, 23, d);
      forall m: nat, e: nat | Float(m, e) == Pow10(d)
        ensures m >= SIGNIFICANDS
      {
        OddPartStays(d, m, e);
      }
    }
  }

  /** The printer is exact for all amounts exactly up to 22 decimals. */
  lemma ExactIff(decimals: nat, divisor: nat)
    requires IsDoublePower(divisor, decimals)
    ensures (forall a: nat :: Read(FormatTokenAmount(a, decimals, divisor), decimals) == Some(a))
            <==> decimals <= 22
  {
    PowerIsDoubleIff(decimals);
    if decimals == 0 {
      forall a: nat
        ensures Read(FormatTokenAmount(a, decimals, divisor), decimals) == Some(a)
      {
        FormatReads(a, decimals);
      }
    } else {
      ExactDivisorIff(decimals, divisor);
    }
  }

  /** The divisor itself prints as "1". */
  lemma OneReads(decimals: nat, divisor: nat)
    requires decimals > 0 && divisor > 0
    ensures Read(FormatTokenAmount(divisor, decimals, divisor), decimals) == Some(Pow10(decimals))
  {
    var printed := Joined(Text(1), Shown(0, decimals));
    assert FormatTokenAmount(divisor, decimals, divisor) == printed by {
      FormatParts(divisor, decimals, divisor);
      SplitUnique(divisor, 1, 0, divisor);
    }
    assert Read(printed, decimals) == Some(Pow10(decimals)) by {
      PartsRead(1, 0, decimals);
      PartsAmount(1, 0, decimals);
    }
  }
}

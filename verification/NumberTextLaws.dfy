/** What the classification of numeric texts promises, and exactly where its
    string comparison departs from it. */
module NumberTextLaws {
  import opened Decimal
  import opened Machine
  import opened NumberText

  // ------------------------------------------------- trimming keeps the value

  lemma {:induction false} FractionTrims(fp: string)
    requires AllDigits(fp)
    ensures var k := ZerosTrimmed(fp);
            Denotes(fp) as real / Pow10(|fp|) as real == Denotes(fp[..k]) as real / Pow10(k) as real
  {
    if fp != "" && fp[|fp| - 1] == '0' {
      var shorter := fp[..|fp| - 1];
      FractionTrims(shorter);
      assert shorter[..ZerosTrimmed(fp)] == fp[..ZerosTrimmed(fp)];
      CancelTen(Denotes(shorter), Pow10(|shorter|));
    } else {
      assert fp[..|fp|] == fp;
    }
  }

  lemma CancelTen(n: nat, p: nat)
    requires p >= 1
    ensures (10 * n) as real / (10 * p) as real == n as real / p as real
  {
    var x := n as real / p as real;
    assert x * p as real == n as real;
    assert x * (10 * p) as real == (10 * n) as real;
  }

  /** Trimming never changes the number a text denotes. */
  lemma TrimmingKeepsValue(s: string)
    requires IsDecimal(s)
    ensures IsDecimal(Trimmed(s)) && Value(Trimmed(s)) == Value(s)
  {
    TrimmedIsDecimal(s);
    FractionTrims(FracPart(s));
  }

  /** What is cut off: nothing without a point, otherwise all zeros at the end,
      and the point if nothing but zeros came after it. */
  lemma TrimmedIs(s: string)
    requires IsDecimal(s)
    ensures var t := Trimmed(s);
            && t <= s
            && ('.' !in s ==> t == s)
            && ('.' in t ==> t[|t| - 1] != '0' && t[|t| - 1] != '.' && forall i | |t| <= i < |s| :: s[i] == '0')
            && ('.' in s && '.' !in t ==>
                  |t| < |s| && s[|t|] == '.' && forall i | |t| < i < |s| :: s[i] == '0')
  {
    var t := Trimmed(s);
    if '.' in s {
      PointLeft(s);
      PointSplits(s);
    }
  }

  /** After trimming, a remaining fraction is not zero: a text is free of a
      point exactly when it denotes an integer. */
  lemma PointFreeIffIntegral(s: string)
    requires IsDecimal(s)
    ensures '.' !in Trimmed(s) <==> Value(s).Floor as real == Value(s)
  {
    TrimmedIsDecimal(s);
    TrimmingKeepsValue(s);
    var fp := FracPart(s);
    if fp[..ZerosTrimmed(fp)] != "" {
      LastDigitKept(fp);
    }
    SignedIntegral(Negative(s), IntPart(s), fp[..ZerosTrimmed(fp)]);
  }

  lemma SignedIntegral(negative: bool, ip: string, fp: string)
    requires AllDigits(ip) && AllDigits(fp) && (fp != "" ==> Denotes(fp) > 0)
    ensures fp == "" <==> Signed(negative, ip, fp).Floor as real == Signed(negative, ip, fp)
    ensures fp == "" ==> Signed(negative, ip, fp) == (if negative then 0 - Denotes(ip) else Denotes(ip)) as real
  {
    if fp != "" {
      DenotesBound(fp);
      ProperFraction(Denotes(fp), Pow10(|fp|));
      NotIntegral(negative, Denotes(ip), Denotes(fp) as real / Pow10(|fp|) as real);
    } else {
      Integral(negative, Denotes(ip));
    }
  }

  lemma ProperFraction(n: nat, p: nat)
    requires 0 < n < p
    ensures 0.0 < n as real / p as real < 1.0
  {
    var f := n as real / p as real;
    assert f * p as real == n as real;
  }

  lemma FloorIs(x: real, n: int)
    requires n as real <= x < n as real + 1.0
    ensures x.Floor == n
  {
    var f := x.Floor;
    assert f as real <= x < f as real + 1.0;
  }

  lemma NotIntegral(negative: bool, whole: nat, f: real)
    requires 0.0 < f < 1.0
    ensures var v := if negative then -(whole as real + f) else whole as real + f;
            v.Floor as real != v
  {
    var w: int := whole;
    var n := if negative then -w - 1 else w;
    FloorIs(if negative then -(whole as real + f) else whole as real + f, n);
  }

  lemma Integral(negative: bool, whole: nat)
    ensures var v := if negative then -(whole as real + 0.0) else whole as real + 0.0;
            v.Floor as real == v == (if negative then 0 - whole else whole) as real
  {
    var n := if negative then 0 - whole else whole;
    FloorIs(n as real, n);
  }

  lemma LastDigitKept(fp: string)
    requires AllDigits(fp)
    requires fp[..ZerosTrimmed(fp)] != ""
    ensures Denotes(fp[..ZerosTrimmed(fp)]) > 0
  {
    var k := ZerosTrimmed(fp);
    assert fp[..k][k - 1] == fp[k - 1] != '0';
  }

  // -------------------------------------------- string order and number order

  /** For digit strings of equal length, `strcmp` compares the numbers. */
  lemma {:induction false} StrcmpIsNumericOrder(a: string, b: string)
    requires |a| == |b| && AllDigits(a) && AllDigits(b)
    ensures Strcmp(a, b) < 0 <==> Denotes(a) < Denotes(b)
    ensures Strcmp(a, b) == 0 <==> Denotes(a) == Denotes(b)
  {
    if a != "" {
      DenotesLeadingDigit(a);
      DenotesLeadingDigit(b);
      DenotesBound(a[1..]);
      DenotesBound(b[1..]);
      var p := Pow10(|a| - 1);
      if DigitValue(a[0]) < DigitValue(b[0]) {
        DigitGap(DigitValue(a[0]), DigitValue(b[0]), p);
      } else if DigitValue(b[0]) < DigitValue(a[0]) {
        DigitGap(DigitValue(b[0]), DigitValue(a[0]), p);
      } else {
        StrcmpIsNumericOrder(a[1..], b[1..]);
      }
    }
  }

  lemma DigitGap(m: nat, n: nat, p: nat)
    requires m < n
    ensures m * p + p <= n * p
  {
    if m + 1 < n {
      DigitGap(m, n - 1, p);
      assert n * p == (n - 1) * p + p;
    } else {
      assert n == m + 1 && n * p == m * p + p;
    }
  }

  lemma PrefixDenotes(s: string, k: nat, n: nat)
    requires k < |s| && AllDigits(s) && Denotes(s[..k]) == n
    ensures Denotes(s[..k + 1]) == 10 * n + DigitValue(s[k])
  {
    assert s[..k + 1][..k] == s[..k];
  }

  lemma NineDigits(s: string)
    requires |s| == 19 && AllDigits(s)
    requires s[0] == '9' && s[1] == '2' && s[2] == '2' && s[3] == '3' && s[4] == '3'
    requires s[5] == '7' && s[6] == '2' && s[7] == '0' && s[8] == '3'
    ensures Denotes(s[..9]) == 922337203
  {
    assert s[..0] == "";
    PrefixDenotes(s, 0, 0);
    PrefixDenotes(s, 1, 9);
    PrefixDenotes(s, 2, 92);
    PrefixDenotes(s, 3, 922);
    PrefixDenotes(s, 4, 9223);
    PrefixDenotes(s, 5, 92233);
    PrefixDenotes(s, 6, 922337);
    PrefixDenotes(s, 7, 9223372);
    PrefixDenotes(s, 8, 92233720);
  }

  lemma BoundDenotes(s: string)
    requires |s| == 19 && AllDigits(s)
    requires s[0] == '9' && s[1] == '2' && s[2] == '2' && s[3] == '3' && s[4] == '3'
    requires s[5] == '7' && s[6] == '2' && s[7] == '0' && s[8] == '3' && s[9] == '6'
    requires s[10] == '8' && s[11] == '5' && s[12] == '4' && s[13] == '7' && s[14] == '7'
    requires s[15] == '5' && s[16] == '8' && s[17] == '0'
    ensures Denotes(s) == 9223372036854775800 + DigitValue(s[18])
  {
    NineDigits(s);
    PrefixDenotes(s, 9, 922337203);
    PrefixDenotes(s, 10, 9223372036);
    PrefixDenotes(s, 11, 92233720368);
    PrefixDenotes(s, 12, 922337203685);
    PrefixDenotes(s, 13, 9223372036854);
    PrefixDenotes(s, 14, 92233720368547);
    PrefixDenotes(s, 15, 922337203685477);
    PrefixDenotes(s, 16, 9223372036854775);
    PrefixDenotes(s, 17, 92233720368547758);
    PrefixDenotes(s, 18, 922337203685477580);
    assert s[..19] == s;
  }

  lemma MaxTextDenotes()
    ensures |MAX_TEXT| == 19 && AllDigits(MAX_TEXT) && Denotes(MAX_TEXT) == TWO_63 - 1
  {
    BoundDenotes(MAX_TEXT);
  }

  lemma MinTextDenotes()
    ensures |MIN_TEXT| == 20 && MIN_TEXT[0] == '-' && AllDigits(MIN_TEXT[1..]) && Denotes(MIN_TEXT[1..]) == TWO_63
  {
    BoundDenotes(MIN_TEXT[1..]);
  }

  /** The two literals of the comparison are the 64-bit bounds. */
  lemma BoundTexts()
    ensures |MAX_TEXT| == 19 && AllDigits(MAX_TEXT) && Denotes(MAX_TEXT) == TWO_63 - 1
    ensures |MIN_TEXT| == 20 && MIN_TEXT[0] == '-' && AllDigits(MIN_TEXT[1..]) && Denotes(MIN_TEXT[1..]) == TWO_63
  {
    MaxTextDenotes();
    MinTextDenotes();
  }

  lemma PowersOfTen()
    ensures Pow10(9) == 1000000000
    ensures Pow10(10) == 10000000000
    ensures Pow10(18) == 1000000000000000000
    ensures Pow10(19) == 10000000000000000000
  {
    assert Pow10(3) == 1000;
    assert Pow10(6) == 1000000;
    assert Pow10(12) == 1000000000000;
    assert Pow10(15) == 1000000000000000;
  }

  /** A leading nonzero digit puts a number at or above the power of ten. */
  lemma NoLeadingZeroBound(s: string)
    requires s != "" && AllDigits(s) && s[0] != '0'
    ensures Denotes(s) >= Pow10(|s| - 1)
  {
    DenotesLeadingDigit(s);
    DigitGap(0, DigitValue(s[0]), Pow10(|s| - 1));
  }

  // --------------------------------------------------------- the optimal mode

  /** What optimal mode is for: an integer is returned exactly when the text
      denotes one that fits 64 bits, and then it is that integer. */
  predicate OptimalCorrect(s: string)
    requires IsDecimal(s)
  {
    TrimmedIsDecimal(s);
    var r := Classify(Trimmed(s), Optimal);
    var v := Value(s);
    && (r.Integer? <==> v.Floor as real == v && -TWO_63 <= v.Floor < TWO_63)
    && (r.Integer? ==> r.value as real == v)
  }

  lemma StrcmpSameHead(a: string, b: string)
    requires a != "" && b != "" && a[0] == b[0]
    ensures Strcmp(a, b) == Strcmp(a[1..], b[1..])
  {
  }

  /** Which texts become integers, and which integer, by digit count. */
  lemma IntegerRule(s: string)
    requires IsDecimal(s)
    ensures IsDecimal(Trimmed(s))
    ensures var r := Classify(Trimmed(s), Optimal);
            var n: int := Denotes(IntPart(s));
            var d := |IntPart(s)|;
            && (r.Integer? <==> '.' !in Trimmed(s)
                                && (d < 19 || (d == 19 && (if Negative(s) then n >= TWO_63 else n < TWO_63))))
            && (r.Integer? ==> r.value == if !Negative(s) then n else if n <= TWO_63 then -n else -TWO_63)
            && (r.Number? ==> r.text == Trimmed(s))
  {
    TrimmedIsDecimal(s);
    var t := Trimmed(s);
    var n: int := Denotes(IntPart(s));
    if '.' !in t {
      PointFree(t);
      DenotesBound(IntPart(s));
      PowersOfTen();
      if |IntPart(s)| < 19 {
        Pow10Monotone(|IntPart(s)|, 18);
      } else if |IntPart(s)| == 19 {
        BoundTexts();
        if Negative(t) {
          StrcmpSameHead(t, MIN_TEXT);
          StrcmpIsNumericOrder(Body(t), MIN_TEXT[1..]);
        } else {
          StrcmpIsNumericOrder(t, MAX_TEXT);
        }
      }
    }
  }

  /** How the digit count of a number without leading zeros bounds it. */
  lemma MagnitudeByLength(ip: string)
    requires AllDigits(ip) && (|ip| > 1 ==> ip[0] != '0')
    ensures |ip| < 19 ==> Denotes(ip) < TWO_63
    ensures |ip| > 19 ==> Denotes(ip) > TWO_63
  {
    DenotesBound(ip);
    PowersOfTen();
    if |ip| < 19 {
      Pow10Monotone(|ip|, 18);
    } else if |ip| > 19 {
      NoLeadingZeroBound(ip);
      Pow10Monotone(19, |ip| - 1);
    }
  }

  /** Without leading zeros, optimal mode is correct for every text but the
      19-digit negative integers other than -2^63 itself: the comparison in
      that branch has the wrong direction. */
  lemma OptimalCorrectIff(s: string)
    requires IsDecimal(s) && NoLeadingZero(s)
    ensures OptimalCorrect(s)
       <==> !(Negative(s) && |IntPart(s)| == 19 && '.' !in Trimmed(s) && Denotes(IntPart(s)) != TWO_63)
  {
    IntegerRule(s);
    PointFreeIffIntegral(s);
    MagnitudeByLength(IntPart(s));
    if '.' !in Trimmed(s) {
      IntegralValue(s);
    }
  }

  lemma IntegralValue(s: string)
    requires IsDecimal(s) && '.' !in Trimmed(s)
    ensures Value(s) == (if Negative(s) then 0 - Denotes(IntPart(s)) else Denotes(IntPart(s))) as real
  {
    TrimmedIsDecimal(s);
    TrimmingKeepsValue(s);
    SignedIntegral(Negative(s), IntPart(s), "");
  }

  /** What does happen to the 19-digit negative integers: those that fit are
      not turned into integers, those that do not fit are turned into -2^63. */
  lemma NineteenDigitNegatives(s: string)
    requires IsDecimal(s) && NoLeadingZero(s)
    requires Negative(s) && |IntPart(s)| == 19 && '.' !in Trimmed(s)
    ensures IsDecimal(Trimmed(s))
    ensures var r := Classify(Trimmed(s), Optimal);
            && (r.Integer? <==> Value(s) <= -(TWO_63 as real))
            && (r.Integer? ==> r.value == -TWO_63)
            && (r.Number? ==> r.text == Trimmed(s) && Value(r.text) == Value(s))
  {
    IntegerRule(s);
    TrimmingKeepsValue(s);
    IntegralValue(s);
  }

  /** An input on which the promise fails: a number well within range whose
      absolute value has 19 digits. */
  lemma OptimalFails()
    ensures var s := "-1000000000000000000";
            IsDecimal(s) && NoLeadingZero(s) && !OptimalCorrect(s)
  {
    FailsOn("-1000000000000000000");
  }

  lemma FailsOn(s: string)
    requires |s| == 20 && s[0] == '-' && s[1] == '1'
    requires forall i | 2 <= i < 20 :: s[i] == '0'
    ensures IsDecimal(s) && NoLeadingZero(s) && !OptimalCorrect(s)
  {
    assert '.' !in s[1..];
    PointFree(s);
    PowerText(s[1..]);
    OptimalCorrectIff(s);
  }

  lemma PowerText(ip: string)
    requires |ip| == 19 && AllDigits(ip) && ip[0] == '1'
    requires forall i | 1 <= i < 19 :: ip[i] == '0'
    ensures Denotes(ip) == 1000000000000000000
  {
    DenotesLeadingDigit(ip);
    AllZeros(ip[1..]);
    PowersOfTen();
  }

  lemma {:induction false} AllZeros(s: string)
    requires forall i | 0 <= i < |s| :: s[i] == '0'
    ensures AllDigits(s) && Denotes(s) == 0
  {
    if s != "" {
      AllZeros(s[..|s| - 1]);
    }
  }

  /** In numeric mode the trimmed text is always kept, with its value. */
  lemma NumericModeKeeps(s: string)
    requires IsDecimal(s)
    ensures IsDecimal(Trimmed(s))
    ensures Classify(Trimmed(s), Numeric) == Number(Trimmed(s)) && Value(Trimmed(s)) == Value(s)
  {
    TrimmingKeepsValue(s);
  }
}

/**
 Numeric and decimal column texts (`command::getNumber`, src/command.cpp):
 zeros after the decimal point are trimmed in the buffer, and in "optimal" mode
 a text without a fraction becomes an integer when a string comparison says it
 fits 64 bits.
 */
module NumberText {
  import opened Decimal
  import opened Machine

  const NUL: char := '\0'
  const MAX_TEXT := "9223372036854775807"
  const MIN_TEXT := "-9223372036854775808"

  datatype NumericMode = Optimal | Numeric

  datatype QoreNumber = Integer(value: int64) | Number(text: string)

  // ------------------------------------------------------------ decimal texts

  predicate Negative(s: string) {
    s != "" && s[0] == '-'
  }

  function Body(s: string): string {
    if Negative(s) then s[1..] else s
  }

  /** Index of the first occurrence, or the length (`strchr`). */
  function IndexOf(s: string, c: char): (i: nat)
    ensures i <= |s|
    ensures c !in s[..i]
    ensures i < |s| ==> s[i] == c
  {
    if s == "" then 0
    else if s[0] == c then 0
    else
      var k := IndexOf(s[1..], c);
      assert s[..k + 1] == [s[0]] + s[1..][..k];
      k + 1
  }

  function IntPart(s: string): string {
    Body(s)[..IndexOf(Body(s), '.')]
  }

  function FracPart(s: string): string {
    var i := IndexOf(Body(s), '.');
    if i < |Body(s)| then Body(s)[i + 1..] else ""
  }

  /** An optional sign, digits, and optionally a point and more digits. */
  predicate IsDecimal(s: string) {
    AllDigits(IntPart(s)) && AllDigits(FracPart(s))
  }

  predicate NoLeadingZero(s: string) {
    |IntPart(s)| > 1 ==> IntPart(s)[0] != '0'
  }

  /** The real number a sign, integer digits and fraction digits denote. */
  function Signed(negative: bool, ip: string, fp: string): real
    requires AllDigits(ip) && AllDigits(fp)
  {
    var magnitude := Denotes(ip) as real + Denotes(fp) as real / Pow10(|fp|) as real;
    if negative then -magnitude else magnitude
  }

  /** The real number a decimal text denotes. */
  function Value(s: string): real
    requires IsDecimal(s)
  {
    Signed(Negative(s), IntPart(s), FracPart(s))
  }

  // ----------------------------------------------------------------- trimming

  /** Length of `s` without its trailing zeros. */
  function ZerosTrimmed(s: string): (n: nat)
    ensures n <= |s|
    ensures n > 0 ==> s[n - 1] != '0'
    ensures forall i | n <= i < |s| :: s[i] == '0'
  {
    if s != "" && s[|s| - 1] == '0' then ZerosTrimmed(s[..|s| - 1]) else |s|
  }

  /** What the trimming loop leaves: only a text with a point is touched. */
  function Trimmed(s: string): string {
    if '.' !in s then s
    else if EndsWithPoint(s) then s[..ZerosTrimmed(s) - 1]
    else s[..ZerosTrimmed(s)]
  }

  predicate EndsWithPoint(s: string) {
    ZerosTrimmed(s) > 0 && s[ZerosTrimmed(s) - 1] == '.'
  }

  // ------------------------------------------------------------- C primitives

  /** `strcmp` on strings without embedded NULs. */
  function Strcmp(a: string, b: string): int {
    if a == "" && b == "" then 0
    else if a == "" then -1
    else if b == "" then 1
    else if a[0] != b[0] then (if a[0] < b[0] then -1 else 1)
    else Strcmp(a[1..], b[1..])
  }

  /** `strtoll` on a signed digit string: saturates at the 64-bit bounds. */
  function Strtoll(s: string): int64
    requires AllDigits(Body(s))
  {
    var n: int := Denotes(Body(s));
    var n := if Negative(s) then -n else n;
    if n >= TWO_63 then TWO_63 - 1 else if n < -TWO_63 then -TWO_63 else n
  }

  // ---------------------------------------------------------------- the method

  /** The classification of a trimmed text. */
  function Classify(t: string, mode: NumericMode): QoreNumber
    requires IsDecimal(t)
  {
    var len := |Body(t)|;
    if mode == Optimal && '.' !in t
       && (len < 19
           || (len == 19 && ((!Negative(t) && Strcmp(t, MAX_TEXT) <= 0)
                             || (Negative(t) && Strcmp(t, MIN_TEXT) >= 0))))
    then
      PointFree(t);
      Integer(Strtoll(t))
    else Number(t)
  }

  lemma PointFree(t: string)
    requires IsDecimal(t) && '.' !in t
    ensures IntPart(t) == Body(t) && FracPart(t) == "" && AllDigits(Body(t))
  {
    assert IndexOf(Body(t), '.') == |Body(t)|;
  }

  /** The loop that cuts zeros off the end of a text with a point. */
  method TrimZeros(buf: array<char>, length: nat) returns (len: nat)
    requires length < buf.Length && buf[length] == NUL && '.' in buf[..length]
    modifies buf
    ensures 0 < len == ZerosTrimmed(old(buf[..length])) <= length
    ensures buf[..len] == old(buf[..length])[..len]
    ensures buf[len] == NUL
  {
    ghost var text := buf[..length];
    ghost var point := IndexOf(text, '.');
    IndexOfFound(text, '.');
    len := length;
    assert text[..length] == text;
    while len > 0 && buf[len - 1] == '0'
      invariant point < len <= length
      invariant buf[..len] == text[..len]
      invariant buf[len] == NUL
      invariant ZerosTrimmed(text[..len]) == ZerosTrimmed(text)
    {
      assert text[..len][..len - 1] == text[..len - 1];
      assert text[len - 1] == buf[..len][len - 1];
      len := len - 1;
      buf[len] := NUL;
      assert buf[..len] == text[..len];
    }
    assert text[len - 1] == buf[..len][len - 1];
  }

  /** The loop that trims the NUL-terminated buffer in place, and the point it
      may leave at the end. */
  method TrimBuffer(buf: array<char>, length: nat) returns (len: nat, hasDecimal: bool)
    requires length < buf.Length && buf[length] == NUL
    modifies buf
    ensures len == |Trimmed(old(buf[..length]))| <= length
    ensures buf[..len] == Trimmed(old(buf[..length]))
    ensures buf[len] == NUL
    ensures '.' !in old(buf[..length]) ==> !hasDecimal
    ensures '.' in old(buf[..length]) ==>
              hasDecimal == !EndsWithPoint(old(buf[..length]))
  {
    ghost var text := buf[..length];
    len := length;
    hasDecimal := '.' in buf[..len];
    if hasDecimal {
      len := TrimZeros(buf, length);
      assert text[len - 1] == buf[..len][len - 1];
      if buf[len - 1] == '.' {
        len := len - 1;
        buf[len] := NUL;
        hasDecimal := false;
        assert buf[..len] == text[..len];
      }
    }
  }

  /** The conversion on the NUL-terminated buffer. */
  method GetNumber(buf: array<char>, length: nat, mode: NumericMode) returns (r: QoreNumber)
    requires length < buf.Length && buf[length] == NUL
    requires IsDecimal(buf[..length])
    modifies buf
    ensures IsDecimal(Trimmed(old(buf[..length])))
    ensures r == Classify(Trimmed(old(buf[..length])), mode)
    ensures |Trimmed(old(buf[..length]))| <= length
    ensures buf[..|Trimmed(old(buf[..length]))|] == Trimmed(old(buf[..length]))
    ensures buf[|Trimmed(old(buf[..length]))|] == NUL
  {
    ghost var text := buf[..length];
    TrimmedIsDecimal(text);
    if '.' in text {
      PointLeft(text);
    }
    var len, hasDecimal := TrimBuffer(buf, length);
    var str := buf[..len];
    assert str == Trimmed(text);
    if mode == Optimal && !hasDecimal {
      var sign := str != "" && str[0] == '-';
      if sign {
        len := len - 1;
      }
      assert len == |Body(str)|;
      if '.' !in str
         && (len < 19
             || (len == 19 && ((!sign && Strcmp(str, MAX_TEXT) <= 0)
                               || (sign && Strcmp(str, MIN_TEXT) >= 0)))) {
        PointFree(str);
        return Integer(Strtoll(str));
      }
    }
    return Number(str);
  }

  // --------------------------------------------------- the shape of a decimal

  function Sign(s: string): string {
    if Negative(s) then "-" else ""
  }

  lemma {:induction false} IndexOfAfter(a: string, c: char, rest: string)
    requires c !in a
    ensures IndexOf(a + [c] + rest, c) == |a|
    ensures IndexOf(a, c) == |a|
  {
    if a == "" {
      assert a + [c] + rest == [c] + rest;
    } else {
      assert (a + [c] + rest)[1..] == a[1..] + [c] + rest;
      IndexOfAfter(a[1..], c, rest);
    }
  }

  lemma IndexOfFound(s: string, c: char)
    requires c in s
    ensures IndexOf(s, c) < |s|
  {
    assert s[..|s|] == s;
  }

  lemma CutAt(sign: string, b: string, i: nat)
    requires i < |b| && b[i] == '.'
    ensures sign + b == sign + b[..i] + "." + b[i + 1..]
  {
    assert b == b[..i] + [b[i]] + b[i + 1..];
  }

  lemma SignAndBody(s: string)
    ensures s == Sign(s) + Body(s)
  {
  }

  /** A text with a point is its sign, integer part, point and fraction. */
  lemma PointSplits(s: string)
    requires IsDecimal(s) && '.' in s
    ensures s == Sign(s) + IntPart(s) + "." + FracPart(s)
    ensures '.' !in IntPart(s) && '.' !in FracPart(s)
  {
    assert '.' in Body(s);
    IndexOfFound(Body(s), '.');
    SignAndBody(s);
    CutAt(Sign(s), Body(s), IndexOf(Body(s), '.'));
  }

  lemma PointJoins(negative: bool, ip: string, fp: string)
    requires AllDigits(ip) && AllDigits(fp)
    ensures var s := (if negative then "-" else "") + ip + "." + fp;
            IsDecimal(s) && Negative(s) == negative && IntPart(s) == ip && FracPart(s) == fp
    ensures var s := (if negative then "-" else "") + ip;
            IsDecimal(s) && Negative(s) == negative && IntPart(s) == ip && FracPart(s) == ""
            && '.' !in s
  {
    var s := (if negative then "-" else "") + ip + "." + fp;
    var t := (if negative then "-" else "") + ip;
    assert Body(s) == ip + ['.'] + fp;
    assert Body(t) == ip;
    IndexOfAfter(ip, '.', fp);
  }

  lemma {:induction false} ZerosTrimmedTail(a: string, c: char, b: string)
    requires c != '0'
    ensures ZerosTrimmed(a + [c] + b) == |a| + 1 + ZerosTrimmed(b)
  {
    var s := a + [c] + b;
    if b != "" && b[|b| - 1] == '0' {
      assert s[..|s| - 1] == a + [c] + b[..|b| - 1];
      ZerosTrimmedTail(a, c, b[..|b| - 1]);
    } else if b == "" {
      assert s[|s| - 1] == c;
    } else {
      assert s[|s| - 1] == b[|b| - 1];
    }
  }

  lemma Slices(a: string, c: char, b: string, k: nat)
    requires k <= |b|
    ensures (a + [c] + b)[..|a|] == a
    ensures (a + [c] + b)[|a|] == c
    ensures (a + [c] + b)[..|a| + 1 + k] == a + [c] + b[..k]
    ensures k > 0 ==> (a + [c] + b)[|a| + k] == b[k - 1]
  {
  }

  lemma TrimmedJoined(a: string, fp: string)
    requires AllDigits(fp)
    ensures var k := ZerosTrimmed(fp);
            var s := a + ['.'] + fp;
            Trimmed(s) == (if k == 0 then a else a + ['.'] + fp[..k]) && (EndsWithPoint(s) <==> k == 0)
  {
    var k := ZerosTrimmed(fp);
    ZerosTrimmedTail(a, '.', fp);
    Slices(a, '.', fp, k);
    if k > 0 {
      assert IsDigit(fp[k - 1]);
    }
  }

  lemma TrimmedDecimal(s: string)
    requires IsDecimal(s) && '.' in s
    ensures var a, k := Sign(s) + IntPart(s), ZerosTrimmed(FracPart(s));
            Trimmed(s) == (if k == 0 then a else a + ['.'] + FracPart(s)[..k]) && (EndsWithPoint(s) <==> k == 0)
  {
    PointSplits(s);
    TrimmedJoined(Sign(s) + IntPart(s), FracPart(s));
  }

  lemma TrimmedIsDecimal(s: string)
    requires IsDecimal(s)
    ensures IsDecimal(Trimmed(s)) && Negative(Trimmed(s)) == Negative(s)
    ensures IntPart(Trimmed(s)) == IntPart(s)
    ensures FracPart(Trimmed(s)) == FracPart(s)[..ZerosTrimmed(FracPart(s))]
    ensures '.' in Trimmed(s) <==> FracPart(Trimmed(s)) != ""
  {
    if '.' in s {
      TrimmedDecimal(s);
      var neg, ip, fp := Negative(s), IntPart(s), FracPart(s)[..ZerosTrimmed(FracPart(s))];
      PointJoins(neg, ip, fp);
      assert ((if neg then "-" else "") + ip + "." + fp)[|(if neg then "-" else "") + ip|] == '.';
    } else {
      PointFree(s);
    }
  }

  /** The method's flag `has_decimal` after trimming says whether a point is
      left in the buffer. */
  lemma PointLeft(s: string)
    requires IsDecimal(s) && '.' in s
    ensures '.' in Trimmed(s) <==> !EndsWithPoint(s)
  {
    TrimmedDecimal(s);
    TrimmedIsDecimal(s);
  }
}

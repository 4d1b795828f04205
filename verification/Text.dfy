/** Numbers as text: positional printing in a base up to 16, and the value a digit string stands for. */
module Text {
  const DIGITS := "0123456789abcdef"

  function DigitValue(c: char): int {
    if '0' <= c <= '9' then c as int - '0' as int
    else if 'a' <= c <= 'f' then 10 + c as int - 'a' as int
    else -1
  }

  ghost predicate IsDigit(c: char, base: nat) { 0 <= DigitValue(c) < base }

  ghost predicate AllDigits(s: string, base: nat) { forall i :: 0 <= i < |s| ==> IsDigit(s[i], base) }

  predicate IsDecimal(c: char) { '0' <= c <= '9' }

  /** `isspace` in the C locale. */
  predicate IsSpace(c: char) { c == ' ' || '\t' <= c <= '\r' }

  /** The shortest digit string of `n`, as `std::to_string` (base 10) and `std::hex` (base 16) print it. */
  function Print(n: nat, base: nat): (s: string)
    requires 2 <= base <= 16
    ensures s != []
    decreases n
  {
    if n < base then [DIGITS[n]]
    else
      QuotientSmaller(n, base);
      Print(n / base, base) + [DIGITS[n % base]]
  }

  lemma QuotientSmaller(n: nat, base: nat)
    requires n >= base >= 2
    ensures 0 <= n / base < n && 0 <= n % base < base
  {
    var q := n / base;
    assert q * base == q + q * (base - 1);
    assert n == q * base + n % base;
  }

  function Value(s: string, base: nat): int {
    if s == [] then 0 else Value(s[..|s| - 1], base) * base + DigitValue(s[|s| - 1])
  }

  lemma DigitOf(d: nat)
    requires d < 16
    ensures DigitValue(DIGITS[d]) == d
  {
  }

  lemma ValueAppend(s: string, c: char, base: nat)
    ensures Value(s + [c], base) == Value(s, base) * base + DigitValue(c)
  {
    assert (s + [c])[..|s|] == s;
  }

  lemma PrintStep(n: nat, base: nat) returns (q: nat, d: nat)
    requires 2 <= base <= 16 && n >= base
    ensures q < n && d < base && q * base + d == n && Print(n, base) == Print(q, base) + [DIGITS[d]]
  {
    q, d := n / base, n % base;
  }

  lemma {:induction false} PrintValue(n: nat, base: nat)
    requires 2 <= base <= 16
    ensures AllDigits(Print(n, base), base) && Value(Print(n, base), base) == n
    decreases n, 1
  {
    hide DigitValue, Value;
    if n < base {
      DigitOf(n);
      ValueOne(DIGITS[n], base);
    } else {
      var q, d := PrintStep(n, base);
      PrintMore(q, d, n, base);
    }
  }

  lemma PrintMore(q: nat, d: nat, n: nat, base: nat)
    requires 2 <= base <= 16 && q < n && d < base && q * base + d == n && Print(n, base) == Print(q, base) + [DIGITS[d]]
    ensures AllDigits(Print(n, base), base) && Value(Print(n, base), base) == n
    decreases n, 0
  {
    hide DigitValue, Value, Print;
    PrintValue(q, base);
    DigitOf(d);
    ValueAppend(Print(q, base), DIGITS[d], base);
  }

  lemma ValueOne(c: char, base: nat)
    ensures Value([c], base) == DigitValue(c)
  {
    assert Value([c], base) == Value([], base) * base + DigitValue(c);
  }

  lemma PrintIsDecimal(n: nat)
    ensures forall i :: 0 <= i < |Print(n, 10)| ==> IsDecimal(Print(n, 10)[i])
  {
    hide Print;
    PrintValue(n, 10);
    forall i | 0 <= i < |Print(n, 10)| ensures IsDecimal(Print(n, 10)[i]) { assert IsDigit(Print(n, 10)[i], 10); }
  }

  /** A 64-bit value has at most 16 hexadecimal digits. */
  lemma {:induction false} PrintLength(n: nat, k: nat)
    requires n < Power16(k) && k >= 1
    ensures |Print(n, 16)| <= k
    decreases k
  {
    if n >= 16 {
      PrintLength(n / 16, k - 1);
    }
  }

  function Power16(k: nat): nat { if k == 0 then 1 else 16 * Power16(k - 1) }

  function ZeroDigits(k: nat): string { seq(k, i => '0') }

  lemma {:induction false} LeadingZeros(k: nat, s: string, base: nat)
    ensures Value(ZeroDigits(k) + s, base) == Value(s, base)
    decreases k + |s|
  {
    if s != [] {
      LeadingZeros(k, s[..|s| - 1], base);
      assert (ZeroDigits(k) + s)[..k + |s| - 1] == ZeroDigits(k) + s[..|s| - 1];
    } else if k > 0 {
      LeadingZeros(k - 1, s, base);
      assert (ZeroDigits(k) + s)[..k - 1] == ZeroDigits(k - 1) + s;
    }
  }

  /** `std::setw(16) << std::setfill('0') << std::hex`. */
  function Hex16(h: nat): string {
    var s := Print(h, 16);
    if |s| >= 16 then s else ZeroDigits(16 - |s|) + s
  }

  lemma Hex16Value(h: nat)
    ensures Value(Hex16(h), 16) == h
  {
    PrintValue(h, 16);
    if |Print(h, 16)| < 16 { LeadingZeros(16 - |Print(h, 16)|, Print(h, 16), 16); }
  }

  lemma Hex16Digits(h: nat)
    ensures AllDigits(Hex16(h), 16)
  {
    PrintValue(h, 16);
  }

  lemma Hex16Length(h: nat)
    requires h < 0x1_0000_0000_0000_0000
    ensures |Hex16(h)| == 16
  {
    assert Power16(4) == 0x1_0000;
    assert Power16(8) == 0x1_0000_0000;
    assert Power16(12) == 0x1_0000_0000_0000;
    assert Power16(16) == 0x1_0000_0000_0000_0000;
    PrintLength(h, 16);
  }

  /** No leading zero, except for zero itself. */
  lemma {:induction false} PrintShortest(n: nat, base: nat)
    requires 2 <= base <= 16
    ensures if n == 0 then Print(n, base) == "0" else Print(n, base)[0] != '0'
    decreases n
  {
    hide Print;
    if n >= base {
      var q, d := PrintStep(n, base);
      StepPositive(q, d, base);
      PrintShortest(q, base);
    } else {
      OneDigit(n, base);
    }
  }

  lemma StepPositive(q: nat, d: nat, base: nat)
    requires 2 <= base <= 16 && d < base && q * base + d >= base
    ensures q > 0
  {
  }

  lemma OneDigit(n: nat, base: nat)
    requires n < base <= 16 && base >= 2
    ensures if n == 0 then Print(n, base) == "0" else Print(n, base)[0] != '0'
  {
  }

  /** Digit strings of one length with one value are the same. */
  lemma {:induction false} FixedWidth(x: string, y: string, base: nat)
    requires |x| == |y| && AllDigits(x, base) && AllDigits(y, base) && Value(x, base) == Value(y, base)
    ensures x == y
  {
    hide DigitValue, Value;
    if x != [] {
      var n := |x| - 1;
      assert x == x[..n] + [x[n]] && y == y[..n] + [y[n]];
      assert IsDigit(x[n], base) && IsDigit(y[n], base);
      ValueAppend(x[..n], x[n], base);
      ValueAppend(y[..n], y[n], base);
      LastDigit(Value(x[..n], base), DigitValue(x[n]), Value(y[..n], base), DigitValue(y[n]), base);
      SameDigit(x[n], y[n]);
      FixedWidth(x[..n], y[..n], base);
    }
  }

  lemma LastDigit(p: int, c: int, q: int, d: int, base: nat)
    requires 0 <= c < base && 0 <= d < base && p * base + c == q * base + d
    ensures p == q && c == d
  {
    assert q * base == p * base + (q - p) * base;
    assert p * base == q * base + (p - q) * base;
    if p < q { Times(q - p, base); }
    if q < p { Times(p - q, base); }
  }

  lemma Times(k: nat, base: nat)
    requires k >= 1
    ensures k * base >= base
  {
    assert k * base == base + (k - 1) * base;
  }

  lemma SameDigit(c: char, d: char)
    requires DigitValue(c) == DigitValue(d) >= 0
    ensures c == d
  {
  }

  lemma PrintInjective(m: nat, n: nat, base: nat)
    requires 2 <= base <= 16 && Print(m, base) == Print(n, base)
    ensures m == n
  {
    PrintValue(m, base);
    PrintValue(n, base);
  }
}

/** The number printer of the kernel's log (`src/common.c`), and the meaning of the text it emits. */
module PrintUnsigned {
  import opened Bits

  const NUM_BUF_LEN: nat := 20
  const MAX_DIGITS: nat := 16
  const DIGITS: string := "0123456789ABCDEFGHIJKLMNOPQRSTUVWXYZ"

  function Pow(base: nat, n: nat): (p: nat)
    ensures base > 0 ==> p > 0
  {
    if n == 0 then 1 else base * Pow(base, n - 1)
  }

  // ----- Numerals

  function DigitChar(d: nat): char
    requires d < 36
  {
    if d < 10 then '0' + d as char else (d - 10) as char + 'A'
  }

  function DigitValue(c: char): int {
    if '0' <= c <= '9' then (c - '0') as int
    else if 'A' <= c <= 'Z' then (c - 'A') as int + 10
    else -1
  }

  predicate IsDigit(c: char, base: nat) {
    0 <= DigitValue(c) < base
  }

  predicate AllDigits(text: string, base: nat) {
    forall k :: 0 <= k < |text| ==> IsDigit(text[k], base)
  }

  /** The number a text stands for, most significant digit first. */
  function Parse(text: string, base: nat): nat
    requires AllDigits(text, base)
  {
    if text == "" then 0
    else Parse(text[..|text| - 1], base) * base + DigitValue(text[|text| - 1])
  }

  /** At least one digit, and no leading zero unless the text is "0". */
  predicate IsNumeral(text: string, base: nat) {
    text != "" && AllDigits(text, base) && (|text| > 1 ==> text[0] != '0')
  }

  lemma DigitRoundTrip(d: nat, base: nat)
    requires d < base <= 36
    ensures IsDigit(DigitChar(d), base) && DigitValue(DigitChar(d)) == d
    ensures DigitChar(d) == '0' <==> d == 0
  {
  }

  lemma Distribute(a: nat, p: nat, q: nat, d: nat, base: nat)
    ensures (a * p + q) * base + d == a * (base * p) + (q * base + d)
  {
  }

  lemma {:induction false} ParsePrepend(c: char, text: string, base: nat)
    requires IsDigit(c, base) && AllDigits(text, base)
    ensures AllDigits([c] + text, base)
    ensures Parse([c] + text, base) == DigitValue(c) * Pow(base, |text|) + Parse(text, base)
  {
    if text == "" {
      assert [c] + text == [c];
      assert Parse([c][..0], base) == 0;
    } else {
      var n := |text| - 1;
      assert ([c] + text)[..n + 1] == [c] + text[..n];
      ParsePrepend(c, text[..n], base);
      Distribute(DigitValue(c), Pow(base, n), Parse(text[..n], base), DigitValue(text[n]), base);
    }
  }

  /** A numeral of more than one digit stands for at least the base. */
  lemma {:induction false} ManyDigits(text: string, base: nat)
    requires IsNumeral(text, base) && |text| > 1
    ensures Parse(text, base) >= base
  {
    var front := text[..|text| - 1];
    if |text| > 2 {
      ManyDigits(front, base);
    } else {
      assert Parse(front[..0], base) == 0;
    }
    AtLeastOnce(Parse(front, base), base);
  }

  lemma AtLeastOnce(q: nat, base: nat)
    requires q >= 1
    ensures q * base >= base
  {
  }

  lemma SplitUnique(q: nat, d: nat, q': nat, d': nat, base: nat)
    requires d < base && d' < base && q * base + d == q' * base + d'
    ensures q == q' && d == d'
  {
    if q < q' { AtLeastOnce(q' - q, base); }
    if q' < q { AtLeastOnce(q - q', base); }
  }

  lemma SameDigit(c: char, c': char)
    requires DigitValue(c) == DigitValue(c') >= 0
    ensures c == c'
  {
  }

  /** Texts of the same value end in the same digit and their fronts have the same value. */
  lemma SameLast(text: string, text': string, base: nat)
    requires text != "" && text' != "" && AllDigits(text, base) && AllDigits(text', base)
    requires Parse(text, base) == Parse(text', base)
    ensures text[|text| - 1] == text'[|text'| - 1]
    ensures Parse(text[..|text| - 1], base) == Parse(text'[..|text'| - 1], base)
  {
    var c, c' := text[|text| - 1], text'[|text'| - 1];
    SplitUnique(Parse(text[..|text| - 1], base), DigitValue(c), Parse(text'[..|text'| - 1], base), DigitValue(c'), base);
    SameDigit(c, c');
  }

  lemma SingleDigit(text: string, base: nat)
    requires |text| == 1 && AllDigits(text, base)
    ensures Parse(text, base) < base
  {
  }

  /** A number has one numeral, so the number and the absence of leading zeros determine the text. */
  lemma {:induction false} NumeralUnique(text: string, text': string, base: nat)
    requires IsNumeral(text, base) && IsNumeral(text', base) && Parse(text, base) == Parse(text', base)
    ensures text == text'
    decreases |text|
  {
    var n, n' := |text| - 1, |text'| - 1;
    if n == 0 { SingleDigit(text, base); } else { ManyDigits(text, base); }
    if n' == 0 { SingleDigit(text', base); } else { ManyDigits(text', base); }
    SameLast(text, text', base);
    if n > 0 { NumeralUnique(text[..n], text'[..n'], base); }
    assert text == text[..n] + [text[n]] && text' == text'[..n'] + [text'[n']];
  }

  /** Each digit, counted from the right, is the one of its place. */
  lemma {:induction false} DigitAt(text: string, base: nat, k: nat)
    requires 2 <= base <= 36 && AllDigits(text, base) && k < |text|
    ensures text[|text| - 1 - k] == DIGITS[Parse(text, base) / Pow(base, k) % base]
  {
    var n := |text| - 1;
    LastDigit(Parse(text[..n], base), DigitValue(text[n]), base);
    if k == 0 {
      DigitNamed(text[n]);
      FirstPlace(Parse(text, base), base);
    } else {
      DigitAt(text[..n], base, k - 1);
      NextPlace(Parse(text, base), Parse(text[..n], base), base, k);
    }
  }

  lemma FirstPlace(v: nat, base: nat)
    ensures Pow(base, 0) == 1 && v / Pow(base, 0) == v
  {
  }

  lemma NextPlace(v: nat, q: nat, base: nat, k: nat)
    requires base > 0 && k > 0 && q == v / base
    ensures q / Pow(base, k - 1) == v / Pow(base, k)
  {
    DivideTwice(v, base, Pow(base, k - 1));
  }

  lemma LastDigit(q: nat, d: nat, base: nat)
    requires d < base
    ensures (q * base + d) / base == q && (q * base + d) % base == d
  {
    QuotientOf(q * base + d, base, q, d);
    ModOf(q * base + d, q, base, d);
  }

  lemma DivideTwice(v: nat, a: nat, b: nat)
    requires a > 0 && b > 0
    ensures b * a > 0 && v / a / b == v / (b * a)
  {
    Division(v, a);
    Division(v / a, b);
    OneDigit(v, v / a / b, v / a % b, b, a, v % a);
    QuotientOf(v, b * a, v / a / b, v / a % b * a + v % a);
  }

  lemma DigitNamed(c: char)
    requires 0 <= DigitValue(c)
    ensures DigitValue(c) < 36 && DIGITS[DigitValue(c)] == c
  {
  }

  // ----- The printer

  lemma PowGrows(base: nat, i: nat, n: nat)
    requires base > 0 && i <= n
    ensures 0 < Pow(base, i) <= Pow(base, n)
    decreases n
  {
  }

  lemma ModOf(value: nat, q: nat, p: nat, r: nat)
    requires p > 0 && value == q * p + r && r < p
    ensures value % p == r
  {
    SplitUnique(value / p, value % p, q, r, p);
  }

  lemma {:induction false} LeadingZeros(text: string, base: nat, k: nat)
    requires base > 0 && k <= |text| && AllDigits(text, base) && forall j :: 0 <= j < k ==> text[j] == '0'
    ensures AllDigits(text[k..], base) && Parse(text[k..], base) == Parse(text, base)
    decreases k
  {
    if k == 0 {
      assert text[0..] == text;
    } else {
      ParsePrepend(text[0], text[1..], base);
      assert [text[0]] + text[1..] == text;
      LeadingZeros(text[1..], base, k - 1);
      assert text[1..][k - 1..] == text[k..];
    }
  }

  /** Rounds so far have printed `digits`, and `v` is what is left of the value. */
  ghost predicate Printed(value: nat, v: nat, base: nat, digits: string) {
    && AllDigits(digits, base)
    && value == v * Pow(base, |digits|) + Parse(digits, base)
    && Parse(digits, base) < Pow(base, |digits|)
  }

  lemma OneDigit(value: nat, q: nat, d: nat, base: nat, p: nat, r: nat)
    requires d < base && value == (q * base + d) * p + r && r < p
    ensures value == q * (base * p) + (d * p + r)
    ensures d * p + r < base * p
  {
    assert (q * base + d) * p == q * (base * p) + d * p;
    AtLeastOnce(base - d, p);
    assert base * p == (base - d) * p + d * p;
  }

  /** One round: the digit `d` goes in front. */
  lemma PrintedNext(value: nat, v: nat, base: nat, digits: string, q: nat, d: nat)
    requires 2 <= base <= 36 && Printed(value, v, base, digits) && v == q * base + d && d < base
    ensures Printed(value, q, base, [DigitChar(d)] + digits)
    ensures DigitChar(d) == '0' <==> d == 0
  {
    DigitRoundTrip(d, base);
    ParsePrepend(DigitChar(d), digits, base);
    OneDigit(value, q, d, base, Pow(base, |digits|), Parse(digits, base));
  }

  lemma Division(v: nat, base: nat)
    requires base > 0
    ensures v / base >= 0 && v == v / base * base + v % base
  {
  }

  /** When the rounds end, dropping the `k` leading zeros leaves the numeral of the value's last sixteen digits. */
  lemma PrintedAll(value: nat, v: nat, base: nat, digits: string, k: nat)
    requires 2 <= base && Printed(value, v, base, digits)
    requires |digits| <= MAX_DIGITS && (|digits| == MAX_DIGITS || v == 0)
    requires k <= |digits| && forall j :: 0 <= j < k ==> digits[j] == '0'
    ensures AllDigits(digits[k..], base) && Parse(digits[k..], base) == value % Pow(base, MAX_DIGITS)
  {
    PowGrows(base, |digits|, MAX_DIGITS);
    LeadingZeros(digits, base, k);
    ModOf(value, v, Pow(base, MAX_DIGITS), Parse(digits, base));
  }

  lemma Suffix(s: string, from: nat, to: nat, k: nat)
    requires from <= k <= to <= |s|
    ensures s[k..to] == s[from..to][k - from..]
  {
  }

  lemma Zero(base: nat)
    requires base > 0
    ensures AllDigits("0", base) && Parse("0", base) == 0
  {
  }

  /**
    `print_unsigned`. The text handed to the writer is the numeral of value mod base^16: digits past the
    sixteenth are lost, and so are the zeros this leaves in front.
   */
  method PrintUnsigned(value: nat, base: nat) returns (text: string)
    requires value < TWO64 && 2 <= base <= 36
    ensures IsNumeral(text, base) && |text| <= MAX_DIGITS
    ensures Parse(text, base) == value % Pow(base, MAX_DIGITS)
  {
    var buf := new char[NUM_BUF_LEN + 1](_ => '\0');
    buf[NUM_BUF_LEN - 1] := '0';
    buf[NUM_BUF_LEN] := '\0';
    ghost var digits := "";
    var start := NUM_BUF_LEN - 1;
    var v: nat, i: nat := value, 0;
    while i < MAX_DIGITS && v != 0
      invariant 0 <= i <= MAX_DIGITS && i == |digits|
      invariant Printed(value, v, base, digits)
      invariant buf[NUM_BUF_LEN - i..NUM_BUF_LEN] == digits
      invariant i == 0 ==> start == NUM_BUF_LEN - 1 && buf[start] == '0' && v == value
      invariant i > 0 ==> NUM_BUF_LEN - i <= start < NUM_BUF_LEN
      invariant start < NUM_BUF_LEN - 1 ==> buf[start] != '0'
      invariant forall k :: 0 <= k < i && NUM_BUF_LEN - i + k < start ==> digits[k] == '0'
    {
      var d := v % base;
      var at := NUM_BUF_LEN - 1 - i;
      Division(v, base);
      PrintedNext(value, v, base, digits, v / base, d);
      if d < 10 {
        buf[at] := d as char + '0';
      } else {
        buf[at] := (d - 10) as char + 'A';
      }
      digits := [DigitChar(d)] + digits;
      if d != 0 {
        start := at;
      }
      v := v / base;
      i := i + 1;
    }
    text := buf[start..NUM_BUF_LEN];
    if i == 0 {
      Zero(base);
      assert text == "0";
      ModOf(value, 0, Pow(base, MAX_DIGITS), 0);
    } else {
      Suffix(buf[..], NUM_BUF_LEN - i, NUM_BUF_LEN, start);
      PrintedAll(value, v, base, digits, start - (NUM_BUF_LEN - i));
    }
  }

  /** The text is an exact round trip if and only if the value has at most sixteen digits. */
  lemma PrintedExactly(value: nat, base: nat, text: string)
    requires 2 <= base && IsNumeral(text, base) && Parse(text, base) == value % Pow(base, MAX_DIGITS)
    ensures Parse(text, base) == value <==> value < Pow(base, MAX_DIGITS)
  {
    Remainder(value, Pow(base, MAX_DIGITS));
  }

  lemma Remainder(value: nat, p: nat)
    requires p > 0
    ensures value % p == value <==> value < p
  {
  }

  /** Hexadecimal prints every 64-bit value exactly; decimal prints exactly the values below 10^16. */
  lemma SixteenDigits()
    ensures Pow(16, MAX_DIGITS) == TWO64
    ensures Pow(10, MAX_DIGITS) == 10_000_000_000_000_000 < TWO64
  {
    assert Pow(16, 4) == 0x1_0000;
    assert Pow(16, 8) == 0x1_0000_0000;
    assert Pow(16, 12) == 0x1_0000_0000_0000;
    assert Pow(10, 8) == 100_000_000;
  }
}

/** Decimal text: Rust's `{n}`, `{n:0w}` and `str::parse`. */
module Decimal {
  import opened Text

  predicate AllDigits(s: string) {
    forall i :: 0 <= i < |s| ==> IsDigit(s[i])
  }

  function DigitChar(d: int): (c: char)
    requires 0 <= d < 10
    ensures IsDigit(c) && DigitValue(c) == d
  {
    (d + 48) as char
  }

  function DigitValue(c: char): int {
    c as int - 48
  }

  /** The digits of `n`, without leading zeros. */
  function Dec(n: nat): (s: string)
    ensures |s| >= 1 && AllDigits(s)
  {
    if n < 10 then [DigitChar(n)] else Dec(n / 10) + [DigitChar(n % 10)]
  }

  function Zeros(k: nat): (s: string)
    ensures |s| == k && AllDigits(s)
  {
    seq(k, i => '0')
  }

  /** `{n:0w}`. */
  function Pad(n: nat, w: nat): (s: string)
    ensures |s| >= 1 && |s| >= w && AllDigits(s)
  {
    var s := Dec(n);
    if |s| >= w then s else Zeros(w - |s|) + s
  }

  function ValueOf(s: string): (v: nat)
    requires AllDigits(s)
  {
    if s == [] then 0 else 10 * ValueOf(s[..|s| - 1]) + DigitValue(s[|s| - 1])
  }

  const I64_MAX := 0x7FFF_FFFF_FFFF_FFFF
  const U64_MAX := 0xFFFF_FFFF_FFFF_FFFF

  /** `str::parse::<i64>`: an optional sign, then digits, within range. */
  function ParseI64(s: string): Option<int> {
    var negative := s != [] && s[0] == '-';
    var digits := if s != [] && (s[0] == '-' || s[0] == '+') then s[1..] else s;
    if digits == [] || !AllDigits(digits) then None
    else
      var v: int := ValueOf(digits);
      var v := if negative then -v else v;
      if -I64_MAX - 1 <= v <= I64_MAX then Some(v) else None
  }

  /** `str::parse` for an unsigned integer no larger than `max`. */
  function ParseUnsigned(s: string, max: nat): Option<nat> {
    var digits := if s != [] && s[0] == '+' then s[1..] else s;
    if digits == [] || !AllDigits(digits) then None
    else if ValueOf(digits) <= max then Some(ValueOf(digits)) else None
  }

  function Pow10(w: nat): (p: nat)
    ensures p >= 1
  {
    if w == 0 then 1 else 10 * Pow10(w - 1)
  }

  // ---------- printing then reading ----------

  lemma {:induction false} ValueOfDec(n: nat)
    ensures ValueOf(Dec(n)) == n
  {
    if n < 10 {
      assert Dec(n)[..0] == [];
    } else {
      ValueOfDec(n / 10);
      assert Dec(n)[..|Dec(n)| - 1] == Dec(n / 10);
    }
  }

  lemma {:induction false} LeadingZeros(k: nat, s: string)
    requires AllDigits(s)
    ensures ValueOf(Zeros(k) + s) == ValueOf(s)
  {
    if s != [] {
      assert (Zeros(k) + s)[..k + |s| - 1] == Zeros(k) + s[..|s| - 1];
      LeadingZeros(k, s[..|s| - 1]);
    } else if k > 0 {
      assert Zeros(k) + s == Zeros(k - 1) + [] + ['0'];
      assert (Zeros(k) + s)[..k - 1] == Zeros(k - 1) + s;
      LeadingZeros(k - 1, s);
    } else {
      assert Zeros(0) + s == s;
    }
  }

  lemma ValueOfPad(n: nat, w: nat)
    ensures ValueOf(Pad(n, w)) == n
  {
    ValueOfDec(n);
    if |Dec(n)| < w { LeadingZeros(w - |Dec(n)|, Dec(n)); }
  }

  /** Reading back what was printed. */
  lemma ParsePad(n: nat, w: nat)
    requires n <= I64_MAX
    ensures ParseI64(Pad(n, w)) == Some(n)
  {
    ValueOfPad(n, w);
  }

  /** Digits with a sign or without are a signed 64-bit number while they fit, and without
      a minus sign an unsigned one. */
  lemma NumbersRead(d: string)
    requires d != "" && AllDigits(d)
    ensures ParseI64(d) == (if ValueOf(d) <= 9_223_372_036_854_775_807 then Some(ValueOf(d)) else None)
    ensures ParseI64("+" + d) == ParseI64(d)
    ensures var v: int := ValueOf(d); ParseI64("-" + d) == if v <= 9_223_372_036_854_775_808 then Some(-v) else None
    ensures ParseUnsigned(d, U64_MAX) == if ValueOf(d) <= 18_446_744_073_709_551_615 then Some(ValueOf(d)) else None
    ensures ParseUnsigned("+" + d, U64_MAX) == ParseUnsigned(d, U64_MAX) && ParseUnsigned("-" + d, U64_MAX) == None
  {
    hide ValueOf;
    assert IsDigit(d[0]) && ("+" + d)[1..] == d && ("-" + d)[1..] == d;
    assert ("-" + d)[0] == '-';
  }

  /** Any other text is no number. */
  lemma OthersRefused(s: string)
    requires || s in {"", "+", "-"}
             || (exists i :: 0 < i < |s| && !IsDigit(s[i]))
             || (s != "" && !IsDigit(s[0]) && s[0] !in {'+', '-'})
    ensures ParseI64(s) == None && ParseUnsigned(s, U64_MAX) == None
  {
    hide ValueOf;
    if i :| 0 < i < |s| && !IsDigit(s[i]) { assert s[1..][i - 1] == s[i]; }
  }

  lemma ParseDec(n: nat, max: nat)
    requires n <= max
    ensures ParseUnsigned(Dec(n), max) == Some(n)
  {
    ValueOfDec(n);
  }

  lemma {:induction false} DecWidth(n: nat, w: nat)
    requires w >= 1
    ensures n < Pow10(w) <==> |Dec(n)| <= w
    decreases w
  {
    if n < 10 {
      assert Pow10(w) == 10 * Pow10(w - 1);
    } else if w > 1 {
      DecWidth(n / 10, w - 1);
    } else {
      assert Pow10(1) == 10 * Pow10(0);
    }
  }

  lemma {:induction false} SameWidthOrder(a: string, b: string)
    requires |a| == |b| && AllDigits(a) && AllDigits(b)
    ensures LexLess(a, b) <==> ValueOf(a) < ValueOf(b)
    ensures a == b <==> ValueOf(a) == ValueOf(b)
    decreases |a|
  {
    if a != [] {
      var a0, b0 := a[..|a| - 1], b[..|b| - 1];
      var x, y := [a[|a| - 1]], [b[|b| - 1]];
      SameWidthOrder(a0, b0);
      assert a == a0 + x && b == b0 + y;
      LexAppend(a0, b0, x, y);
      assert LexLess(x, y) <==> x[0] < y[0];
    }
  }

  /** Zero-padded numbers of one width compare as text the way they compare as
      numbers. */
  lemma PadOrder(a: nat, b: nat, w: nat)
    requires w >= 1 && a < Pow10(w) && b < Pow10(w)
    ensures |Pad(a, w)| == w && |Pad(b, w)| == w
    ensures LexLess(Pad(a, w), Pad(b, w)) <==> a < b
    ensures Pad(a, w) == Pad(b, w) <==> a == b
  {
    DecWidth(a, w);
    DecWidth(b, w);
    ValueOfPad(a, w);
    ValueOfPad(b, w);
    SameWidthOrder(Pad(a, w), Pad(b, w));
  }
}

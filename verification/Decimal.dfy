/**
 Decimal printing as the contract's runtime code does it: a seven-stage logarithm sizes the buffer,
 and a loop fills the buffer from its last byte backwards.
 */
module Decimal {
  import opened Words

  function Pow10(k: nat): (p: nat)
    ensures p > 0
  {
    if k == 0 then 1 else 10 * Pow10(k - 1)
  }

  lemma {:induction false} Pow10Plus(a: nat, b: nat)
    ensures Pow10(a + b) == Pow10(a) * Pow10(b)
  {
    if a > 0 {
      Pow10Plus(a - 1, b);
      assert 10 * (Pow10(a - 1) * Pow10(b)) == Pow10(a) * Pow10(b);
    }
  }

  /** The seven constants of the ladder, as the code spells them. */
  const TEN_64: nat := 0x184f03e93ff9f4daa797ed6e38ed64bf6a1f010000000000000000
  const TEN_32: nat := 0x04ee2d6d415b85acef8100000000
  const TEN_16: nat := 0x2386f26fc10000
  const TEN_8: nat := 0x05f5e100

  /** The literals are the powers of ten they stand for; `Doubled` squares one into the next. */
  lemma Doubled(k: nat, p: nat)
    requires Pow10(k) == p
    ensures Pow10(2 * k) == p * p
  {
    Pow10Plus(k, k);
  }

  lemma LadderConstants()
    ensures Pow10(1) == 10 && Pow10(2) == 100 && Pow10(4) == 10000
    ensures Pow10(8) == TEN_8 && Pow10(16) == TEN_16 && Pow10(32) == TEN_32 && Pow10(64) == TEN_64
    ensures TWO_256 < Pow10(128)
  {
    assert Pow10(4) == 10000;
    Doubled(4, 10000);
    Doubled(8, TEN_8);
    Doubled(16, TEN_16);
    Doubled(32, TEN_32);
    Doubled(64, TEN_64);
  }

  /** `v` is `v0` with its last `r` digits cut off, and has at most `n` digits left. */
  ghost predicate CutTo(v0: nat, v: nat, r: nat, n: nat) {
    Pow10(r) * v <= v0 < Pow10(r) * (v + 1) && v < Pow10(n) && (v0 > 0 ==> v > 0)
  }

  lemma MulMonotone(p: nat, a: nat, b: nat)
    requires a <= b
    ensures p * a <= p * b
  {
  }

  lemma MulAssociative(p: nat, d: nat, q: nat)
    ensures p * (d * q) == (p * d) * q
  {
  }

  lemma SmallerFactor(d: nat, a: nat, b: nat)
    requires d * a < d * b
    ensures a < b
  {
  }

  lemma CutMore(v0: nat, v: nat, p: nat, d: nat, q: nat)
    requires p * v <= v0 < p * (v + 1)
    requires d * q <= v < d * (q + 1)
    ensures (p * d) * q <= v0 < (p * d) * (q + 1)
  {
    MulMonotone(p, d * q, v);
    MulMonotone(p, v + 1, d * (q + 1));
    MulAssociative(p, d, q);
    MulAssociative(p, d, q + 1);
  }

  lemma Quotient(v: nat, d: nat)
    requires d > 0
    ensures d * (v / d) <= v < d * (v / d + 1)
  {
  }

  lemma CutQuotient(v0: nat, v: nat, p: nat, d: nat) returns (q: nat)
    requires p * v <= v0 < p * (v + 1)
    requires 0 < d <= v < d * d
    ensures q == v / d && 0 < q < d
    ensures (p * d) * q <= v0 < (p * d) * (q + 1)
  {
    q := v / d;
    Quotient(v, d);
    CutMore(v0, v, p, d, q);
    SmallerFactor(d, q, d);
    assert d * 1 == d;
    SmallerFactor(d, 1, q + 1);
  }

  /** One rung of the ladder: if `v` has more than `k` digits, cut `k` more off. */
  lemma Rung(v0: nat, v: nat, r: nat, k: nat)
    requires CutTo(v0, v, r, 2 * k)
    ensures v >= Pow10(k) ==> CutTo(v0, v / Pow10(k), r + k, k)
    ensures v < Pow10(k) ==> CutTo(v0, v, r, k)
  {
    if v >= Pow10(k) {
      Doubled(k, Pow10(k));
      Pow10Plus(r, k);
      var q := CutQuotient(v0, v, Pow10(r), Pow10(k));
    }
  }

  lemma OneDigitLeft(v0: nat, v: nat, r: nat)
    requires CutTo(v0, v, r, 1)
    ensures v0 > 0 ==> Pow10(r) <= v0 < Pow10(r + 1)
  {
  }

  lemma NothingCut(v: Word)
    ensures CutTo(v, v, 0, 128)
  {
    LadderConstants();
    assert Pow10(0) == 1;
  }

  /** One comparison of the ladder, against the constant `d` for `k` digits. */
  method CutIfLonger(ghost v0: nat, v: nat, r: nat, d: nat, k: nat) returns (v': nat, r': nat)
    requires d == Pow10(k) && CutTo(v0, v, r, 2 * k)
    ensures CutTo(v0, v', r', k)
    ensures v == 0 ==> v' == 0 && r' == r
  {
    Rung(v0, v, r, k);
    v', r' := v, r;
    if v >= d {
      v' := v / d;
      r' := r + k;
    }
  }

  /** The ladder: every 256-bit word, in seven comparisons. */
  method Log10(v0: Word) returns (r: nat)
    ensures v0 == 0 ==> r == 0
    ensures v0 > 0 ==> Pow10(r) <= v0 < Pow10(r + 1)
  {
    hide Pow10, CutTo;
    LadderConstants();
    var v: nat := v0;
    r := 0;
    NothingCut(v0);
    v, r := CutIfLonger(v0, v, r, TEN_64, 64);
    v, r := CutIfLonger(v0, v, r, TEN_32, 32);
    v, r := CutIfLonger(v0, v, r, TEN_16, 16);
    v, r := CutIfLonger(v0, v, r, TEN_8, 8);
    v, r := CutIfLonger(v0, v, r, 10000, 4);
    v, r := CutIfLonger(v0, v, r, 100, 2);
    Rung(v0, v, r, 1);
    if v >= 10 {
      OneDigitLeft(v0, v / 10, r + 1);
      r := r + 1;
    } else {
      OneDigitLeft(v0, v, r);
    }
  }

  // ---------------------------------------------------------------------------------------------
  // Printing
  // ---------------------------------------------------------------------------------------------

  const HEX_DIGITS := "0123456789abcdef"

  /** The decimal numeral of a number by repeated division. */
  function Digits(v: nat): (s: string)
    ensures |s| > 0
  {
    if v < 10 then [HEX_DIGITS[v]] else Digits(v / 10) + [HEX_DIGITS[v % 10]]
  }

  function Parse(s: string): int {
    if s == "" then 0 else 10 * Parse(s[..|s| - 1]) + (s[|s| - 1] as int - '0' as int)
  }

  predicate IsNumeral(s: string) {
    && |s| > 0
    && (forall c :: c in s ==> '0' <= c <= '9')
    && (s[0] == '0' ==> |s| == 1)
  }

  lemma DigitChars(d: nat)
    requires d < 10
    ensures '0' <= HEX_DIGITS[d] <= '9' && HEX_DIGITS[d] as int - '0' as int == d
  {
  }

  /** The logarithm is the number of digits repeated division finds, less one. */
  lemma {:induction false} LogCountsDigits(v: nat, r: nat)
    requires if v == 0 then r == 0 else Pow10(r) <= v < Pow10(r + 1)
    ensures |Digits(v)| == r + 1
  {
    if v >= 10 {
      assert Pow10(1) == 10;
      LogCountsDigits(v / 10, r - 1);
    }
  }

  /** The numeral parses back, and its first digit is a zero only for zero itself. */
  lemma {:induction false} DigitsParse(v: nat)
    ensures Parse(Digits(v)) == v
    ensures IsNumeral(Digits(v))
    ensures Digits(v)[0] == '0' <==> v == 0
  {
    DigitChars(v % 10);
    if v >= 10 {
      DigitsParse(v / 10);
      assert Digits(v)[..|Digits(v)| - 1] == Digits(v / 10);
    } else {
      assert Digits(v)[..0] == "";
    }
  }

  /** Every numeral without a leading zero is the printed form of the number it parses to. */
  lemma {:induction false} ParseDigits(s: string)
    requires IsNumeral(s)
    ensures Parse(s) >= 0 && Digits(Parse(s)) == s
    ensures s[0] != '0' ==> Parse(s) > 0
  {
    var init, c := s[..|s| - 1], s[|s| - 1];
    assert c in s && s == init + [c];
    DigitChars(c as int - '0' as int);
    if |s| > 1 {
      assert init[0] == s[0];
      assert forall x :: x in init ==> x in s;
      ParseDigits(init);
      assert Parse(s) / 10 == Parse(init) && Parse(s) % 10 == c as int - '0' as int;
    }
  }

  lemma PowersOfZeroAndOne()
    ensures Pow10(0) == 1 && Pow10(1) == 10
  {
  }

  lemma LastDigit(v: nat)
    ensures Digits(v) == (if v < 10 then "" else Digits(v / 10)) + [HEX_DIGITS[v % 10]]
  {
  }

  /** Strings.toString: the loop stops exactly when it has filled byte 0 of a buffer sized by Log10. */
  method ToString(value: Word) returns (s: string)
    ensures s == Digits(value)
  {
    hide Pow10, Digits;
    var log := Log10(value);
    PowersOfZeroAndOne();
    LogCountsDigits(value, log);
    var length := log + 1;
    var buffer := new char[length];
    var ptr, v: nat := length, value;
    while true
      invariant 0 < ptr <= length
      invariant Digits(v) + buffer[ptr..] == Digits(value)
      decreases ptr
    {
      ptr := ptr - 1;
      buffer[ptr] := HEX_DIGITS[v % 10];
      LastDigit(v);
      v := v / 10;
      if v == 0 {
        break;
      }
    }
    assert ptr == 0 && buffer[..] == Digits(value);
    return buffer[..];
  }
}

/**
 * The numeral layer of the digit list, on unbounded naturals: a digit
 * sequence is read most-significant digit first (Horner's rule), a natural is
 * expanded into its digits in a base, digits are rendered as characters, and
 * two naturals are combined by bitwise AND.  These functions stand in for the
 * arbitrary-precision integer library the list is built on.
 */
module Numerals {
  import opened DigitSequences

  /** The smallest and largest bases a list may carry. */
  const MIN_BASE: nat := 2
  const MAX_BASE: nat := 16

  // ---------------------------------------------------------------------------
  // Digit sequences and their values
  // ---------------------------------------------------------------------------

  /** The value of `ds`, most significant digit first, in base `b` (Horner's rule). */
  function Value(ds: seq<nat>, b: nat): nat
  {
    if ds == [] then 0 else Value(ds[..|ds| - 1], b) * b + ds[|ds| - 1]
  }

  /** `ds` is the canonical expansion of a number: digits below `b` and no leading zero. */
  predicate Canonical(ds: seq<nat>, b: nat)
  {
    InBase(ds, b) && (|ds| > 0 ==> ds[0] != 0)
  }

  /** The digits of `n` in base `b`, most significant first; zero has no digits. */
  function Digits(n: nat, b: nat): seq<nat>
    requires MIN_BASE <= b
    decreases n
  {
    if n == 0 then [] else Digits(n / b, b) + [n % b]
  }

  /** The digits BigInteger-style `toString(b)` prints: like Digits, but zero prints as one `0`. */
  function Positional(n: nat, b: nat): (ds: seq<nat>)
    requires MIN_BASE <= b
    ensures |ds| > 0
  {
    if n == 0 then [0] else DigitsNonEmpty(n, b); Digits(n, b)
  }

  lemma DigitsNonEmpty(n: nat, b: nat)
    requires MIN_BASE <= b && n > 0
    ensures |Digits(n, b)| > 0
  {
  }

  /** A natural is its quotient times the divisor plus its remainder. */
  lemma Euclid(n: nat, b: nat)
    requires b > 0
    ensures (n / b) * b + n % b == n
  {
  }

  /** Horner's rule read on an appended digit. */
  lemma ValueSnoc(ds: seq<nat>, d: nat, b: nat)
    ensures Value(ds + [d], b) == Value(ds, b) * b + d
  {
    assert (ds + [d])[..|ds + [d]| - 1] == ds;
  }

  /** Expanding a number into digits and evaluating them gives the number back. */
  lemma {:induction false} ValueOfDigits(n: nat, b: nat)
    requires MIN_BASE <= b
    ensures Value(Digits(n, b), b) == n
    decreases n
  {
    if n > 0 {
      ValueOfDigits(n / b, b);
      DigitsStep(n, b);
    }
  }

  /** One digit of the expansion: the value of `n`'s digits, given that of `n / b`'s. */
  lemma DigitsStep(n: nat, b: nat)
    requires MIN_BASE <= b && n > 0
    requires Value(Digits(n / b, b), b) == n / b
    ensures Value(Digits(n, b), b) == n
  {
    var q, r := n / b, n % b;
    ValueSnoc(Digits(q, b), r, b);
    Euclid(n, b);
  }

  /** The expansion of a number is canonical: every digit is below the base, and there is no leading zero. */
  lemma {:induction false} DigitsCanonical(n: nat, b: nat)
    requires MIN_BASE <= b
    ensures Canonical(Digits(n, b), b)
    decreases n
  {
    if n > 0 {
      DigitsCanonical(n / b, b);
      CanonicalStep(n, b);
    }
  }

  /** One digit of the expansion keeps it canonical. */
  lemma CanonicalStep(n: nat, b: nat)
    requires MIN_BASE <= b && n > 0
    requires Canonical(Digits(n / b, b), b)
    ensures Canonical(Digits(n, b), b)
  {
    var ds := Digits(n / b, b);
    assert Digits(n, b) == ds + [n % b];
    if n / b == 0 {
      assert ds == [];
      assert n % b != 0;
    } else {
      DigitsNonEmpty(n / b, b);
      assert (ds + [n % b])[0] == ds[0];
    }
  }

  /** A canonical digit sequence with a leading digit has a positive value. */
  lemma {:induction false} CanonicalValuePositive(ds: seq<nat>, b: nat)
    requires MIN_BASE <= b && Canonical(ds, b) && |ds| > 0
    ensures Value(ds, b) > 0
    decreases |ds|
  {
    if |ds| > 1 {
      var init := ds[..|ds| - 1];
      CanonicalValuePositive(init, b);
      assert Value(ds, b) >= Value(init, b) * b;
    }
  }

  /** Canonical digit sequences are exactly the expansions: evaluating and re-expanding is the identity. */
  lemma {:induction false} DigitsOfValue(ds: seq<nat>, b: nat)
    requires MIN_BASE <= b && Canonical(ds, b)
    ensures Digits(Value(ds, b), b) == ds
    decreases |ds|
  {
    if ds != [] {
      var init, last := ds[..|ds| - 1], ds[|ds| - 1];
      assert ds == init + [last];
      var v := Value(ds, b);
      CanonicalValuePositive(ds, b);
      assert v == Value(init, b) * b + last;
      DivModHorner(Value(init, b), last, b);
      DigitsOfValue(init, b);
    }
  }

  /** Division by the base undoes one Horner step. */
  lemma DivModHorner(q: nat, r: nat, b: nat)
    requires r < b
    ensures (q * b + r) / b == q && (q * b + r) % b == r
  {
    var v := q * b + r;
    var q', r' := v / b, v % b;
    assert v == q' * b + r' && 0 <= r' < b;
    if q' < q {
      MulDifference(q, q', b);
    } else if q < q' {
      MulDifference(q', q, b);
    }
  }

  /** Multiplying a larger factor by the base adds at least the base. */
  lemma MulDifference(x: nat, y: nat, b: nat)
    requires y < x
    ensures x * b >= y * b + b
  {
    var k: nat := x - y - 1;
    assert x * b == (y + k + 1) * b == y * b + k * b + b;
  }

  /** The printed digits are all below the base. */
  lemma PositionalInRange(n: nat, b: nat)
    requires MIN_BASE <= b
    ensures InBase(Positional(n, b), b)
  {
    DigitsCanonical(n, b);
  }

  /** A number at least the base prints with at least two digits, and one below it with exactly one. */
  lemma PositionalLength(n: nat, b: nat)
    requires MIN_BASE <= b
    ensures |Positional(n, b)| >= 2 <==> n >= b
  {
    if n >= b {
      assert n / b > 0;
      DigitsNonEmpty(n / b, b);
      assert Digits(n, b) == Digits(n / b, b) + [n % b];
    } else if n > 0 {
      assert n / b == 0;
      assert Digits(n, b) == [n % b];
    }
  }

  /** Evaluating the printed digits gives the number back, zero included. */
  lemma ValueOfPositional(n: nat, b: nat)
    requires MIN_BASE <= b
    ensures Value(Positional(n, b), b) == n
  {
    if n == 0 {
      assert Value([0], b) == Value([], b) * b + 0;
    } else {
      ValueOfDigits(n, b);
    }
  }

  // ---------------------------------------------------------------------------
  // Characters
  // ---------------------------------------------------------------------------

  /** How a digit is printed: '0'..'9', then upper-case 'A'.. for ten and above. */
  function DigitChar(d: nat): char
    requires d < MAX_BASE
  {
    if d < 10 then ('0' as int + d) as char else ('A' as int + (d - 10)) as char
  }

  /** How a printed upper-case digit is read back: '0'..'9' by offset from '0', anything else as ten plus its offset from 'A'. */
  function CharValue(ch: char): int
  {
    if '0' <= ch <= '9' then ch as int - '0' as int else 10 + (ch as int - 'A' as int)
  }

  /** The string made of the printed digits of `ds`, one character per digit. */
  function Render(ds: seq<nat>): (s: string)
    requires InBase(ds, MAX_BASE)
    ensures |s| == |ds|
  {
    if ds == [] then "" else Render(ds[..|ds| - 1]) + [DigitChar(ds[|ds| - 1])]
  }

  lemma {:induction false} RenderAt(ds: seq<nat>, i: nat)
    requires InBase(ds, MAX_BASE) && i < |ds|
    ensures Render(ds)[i] == DigitChar(ds[i])
    decreases |ds|
  {
    if i < |ds| - 1 {
      RenderAt(ds[..|ds| - 1], i);
    }
  }

  /** Printing one more digit appends its character. */
  lemma RenderSnoc(ds: seq<nat>, i: nat)
    requires InBase(ds, MAX_BASE) && i < |ds|
    ensures InBase(ds[..i + 1], MAX_BASE)
    ensures Render(ds[..i + 1]) == Render(ds[..i]) + [DigitChar(ds[i])]
  {
    assert ds[..i + 1][..i] == ds[..i];
  }

  /** Reading a printed digit back gives the digit. */
  lemma CharValueOfDigitChar(d: nat)
    requires d < MAX_BASE
    ensures CharValue(DigitChar(d)) == d
  {
  }

  /** Reading every character of a rendering back gives the digits that were rendered. */
  lemma ReadRender(ds: seq<nat>, i: nat)
    requires InBase(ds, MAX_BASE) && i < |ds|
    ensures CharValue(Render(ds)[i]) == ds[i]
  {
    RenderAt(ds, i);
  }

  /** `n` printed in base `b`, as BigInteger's `toString(b).toUpperCase()` prints it. */
  function RadixText(n: nat, b: nat): (s: string)
    requires MIN_BASE <= b <= MAX_BASE
    ensures |s| > 0
  {
    PositionalInRange(n, b);
    Render(Positional(n, b))
  }

  // ---------------------------------------------------------------------------
  // Decimal text
  // ---------------------------------------------------------------------------

  predicate IsDecimalChar(ch: char)
  {
    '0' <= ch <= '9'
  }

  /** A non-negative decimal literal: non-empty, no leading minus, only '0'..'9'. */
  predicate IsDecimal(s: string)
  {
    |s| > 0 && s[0] != '-' && forall i :: 0 <= i < |s| ==> IsDecimalChar(s[i])
  }

  /** The digit values of the characters of a decimal literal. */
  function DecimalDigits(s: string): (ds: seq<nat>)
    requires forall i :: 0 <= i < |s| ==> IsDecimalChar(s[i])
    ensures |ds| == |s| && InBase(ds, 10)
    ensures forall i :: 0 <= i < |s| ==> ds[i] == CharValue(s[i])
  {
    if s == [] then []
    else
      assert IsDecimalChar(s[0]);
      var d: nat := s[0] as int - '0' as int;
      [d] + DecimalDigits(s[1..])
  }

  /** The number a decimal literal denotes (leading zeros allowed). */
  function DecimalValue(s: string): nat
    requires IsDecimal(s)
  {
    Value(DecimalDigits(s), 10)
  }

  /** `n` in decimal, as BigInteger's `toString(10)` prints it; zero is "0". */
  function DecimalText(n: nat): string
  {
    RadixText(n, 10)
  }

  /** Decimal text is a valid decimal literal that denotes the number it was printed from. */
  lemma DecimalRoundTrip(n: nat)
    ensures IsDecimal(DecimalText(n))
    ensures DecimalValue(DecimalText(n)) == n
  {
    var ds := Positional(n, 10);
    var s := DecimalText(n);
    PositionalInRange(n, 10);
    forall i | 0 <= i < |s| ensures IsDecimalChar(s[i]) && CharValue(s[i]) == ds[i] {
      RenderAt(ds, i);
    }
    assert DecimalDigits(s) == ds;
    ValueOfPositional(n, 10);
  }

  /** A decimal literal without a redundant leading zero is exactly the decimal text of what it denotes. */
  lemma DecimalTextOfValue(s: string)
    requires IsDecimal(s) && (s[0] == '0' ==> s == "0")
    ensures DecimalText(DecimalValue(s)) == s
  {
    if s == "0" {
      DecimalTextOfZero();
    } else {
      DecimalTextOfPositive(s);
    }
  }

  /** The literal "0" denotes zero, which prints as "0". */
  lemma DecimalTextOfZero()
    ensures IsDecimal("0") && DecimalText(DecimalValue("0")) == "0"
  {
    assert DecimalDigits("0") == [0];
    assert Value([0], 10) == Value([], 10) * 10 + 0;
  }

  /** A literal with a non-zero leading digit is the decimal text of its value. */
  lemma DecimalTextOfPositive(s: string)
    requires IsDecimal(s) && s[0] != '0'
    ensures DecimalText(DecimalValue(s)) == s
  {
    var ds := DecimalDigits(s);
    assert Canonical(ds, 10);
    DigitsOfValue(ds, 10);
    CanonicalValuePositive(ds, 10);
    var r := DecimalText(DecimalValue(s));
    forall i | 0 <= i < |s| ensures r[i] == s[i] {
      RenderAt(ds, i);
    }
  }

  /**
   * Printing the number a canonical digit sequence denotes in decimal and
   * reading that text back into the same base gives the same digits.
   */
  lemma DecimalRoundTripOfDigits(ds: seq<nat>, b: nat)
    requires MIN_BASE <= b && Canonical(ds, b)
    ensures IsDecimal(DecimalText(Value(ds, b)))
    ensures Digits(DecimalValue(DecimalText(Value(ds, b))), b) == ds
  {
    DecimalRoundTrip(Value(ds, b));
    DigitsOfValue(ds, b);
  }

  // ---------------------------------------------------------------------------
  // Whitespace trimming, as Java's String.trim: every character at or below
  // U+0020 is stripped from both ends.
  // ---------------------------------------------------------------------------

  predicate IsTrimmable(ch: char)
  {
    ch <= ' '
  }

  function TrimStart(s: string): (r: string)
    ensures |r| <= |s| && r == s[|s| - |r|..]
    ensures r != [] ==> !IsTrimmable(r[0])
    ensures forall i :: 0 <= i < |s| - |r| ==> IsTrimmable(s[i])
  {
    if s != [] && IsTrimmable(s[0]) then TrimStart(s[1..]) else s
  }

  function TrimEnd(s: string): (r: string)
    ensures |r| <= |s| && r == s[..|r|]
    ensures r != [] ==> !IsTrimmable(r[|r| - 1])
    ensures forall i :: |r| <= i < |s| ==> IsTrimmable(s[i])
  {
    if s != [] && IsTrimmable(s[|s| - 1]) then TrimEnd(s[..|s| - 1]) else s
  }

  /** Every character of `s` is at or below U+0020. */
  predicate AllTrimmable(s: string)
  {
    forall k :: 0 <= k < |s| ==> IsTrimmable(s[k])
  }

  /** `s` without its leading and trailing characters at or below U+0020: empty exactly when every character is one. */
  function Trim(s: string): (r: string)
    ensures |r| <= |s|
    ensures r != [] ==> !IsTrimmable(r[0]) && !IsTrimmable(r[|r| - 1])
    ensures r == [] <==> forall i :: 0 <= i < |s| ==> IsTrimmable(s[i])
  {
    var t := TrimStart(s);
    assert t == [] ==> forall i :: 0 <= i < |s| ==> IsTrimmable(s[i]);
    assert t != [] ==> !IsTrimmable(s[|s| - |t|]);
    TrimEnd(t)
  }

  /**
   * `Trim` cuts nothing but characters at or below U+0020, and only from the
   * two ends: the result is the slice of `s` between two runs of them.
   */
  lemma TrimIsSlice(s: string)
    ensures exists p, q :: s == p + Trim(s) + q && AllTrimmable(p) && AllTrimmable(q)
  {
    TrimCut(s, Trim(s));
  }

  /** The cut `TrimIsSlice` names, for the composition `Trim` is defined as. */
  lemma TrimCut(s: string, r: string)
    requires r == TrimEnd(TrimStart(s))
    ensures exists p, q :: s == p + r + q && AllTrimmable(p) && AllTrimmable(q)
  {
    var t := TrimStart(s);
    TrimSlices(s);
    Bracketed(s, s[..|s| - |t|], r, t[|r|..]);
  }

  /** Where `Trim` cuts `s`: after the run `TrimStart` skips and before the run `TrimEnd` drops. */
  lemma TrimSlices(s: string)
    ensures var t := TrimStart(s); var r := TrimEnd(t);
            s == s[..|s| - |t|] + r + t[|r|..] &&
            AllTrimmable(s[..|s| - |t|]) && AllTrimmable(t[|r|..])
  {
    var t := TrimStart(s);
    var r := TrimEnd(t);
    var p, q := s[..|s| - |t|], t[|r|..];
    assert AllTrimmable(q) by {
      forall k | 0 <= k < |q| ensures IsTrimmable(q[k]) {
        assert q[k] == t[|r| + k];
      }
    }
    SplitAt(s, |p|);
    SplitAt(t, |r|);
    AppendAssociative(p, r, q);
  }

  /** `r` sits in `s` between two trimmable runs `p` and `q`. */
  lemma Bracketed(s: string, p: string, r: string, q: string)
    requires s == p + r + q && AllTrimmable(p) && AllTrimmable(q)
    ensures exists p', q' :: s == p' + r + q' && AllTrimmable(p') && AllTrimmable(q')
  {
  }

  lemma SplitAt<T>(s: seq<T>, i: int)
    requires 0 <= i <= |s|
    ensures s == s[..i] + s[i..]
  {
  }

  lemma AppendAssociative<T>(a: seq<T>, b: seq<T>, c: seq<T>)
    ensures a + (b + c) == a + b + c
  {
  }

  /** A decimal literal has nothing to trim. */
  lemma TrimDecimal(s: string)
    requires IsDecimal(s)
    ensures Trim(s) == s
  {
    assert !IsTrimmable(s[0]) && !IsTrimmable(s[|s| - 1]);
  }

  // ---------------------------------------------------------------------------
  // Bitwise AND of unbounded naturals
  // ---------------------------------------------------------------------------

  /** Bit `k` of `n` (bit 0 is the least significant). */
  function Bit(n: nat, k: nat): bool
  {
    if k == 0 then n % 2 == 1 else Bit(n / 2, k - 1)
  }

  /** Bitwise AND, one low bit at a time. */
  function And(a: nat, b: nat): nat
    decreases a
  {
    if a == 0 || b == 0 then 0
    else 2 * And(a / 2, b / 2) + (if a % 2 == 1 && b % 2 == 1 then 1 else 0)
  }

  lemma {:induction false} BitOfZero(k: nat)
    ensures !Bit(0, k)
  {
    if k > 0 {
      BitOfZero(k - 1);
    }
  }

  /** And is bitwise conjunction: each bit of the result is set exactly when it is set in both operands. */
  lemma {:induction false} AndBit(a: nat, b: nat, k: nat)
    ensures Bit(And(a, b), k) == (Bit(a, k) && Bit(b, k))
    decreases k
  {
    if a == 0 || b == 0 {
      BitOfZero(k);
    } else if k > 0 {
      AndBit(a / 2, b / 2, k - 1);
    }
  }

  /** Two naturals that agree on every bit are equal. */
  lemma {:induction false} BitsDetermine(m: nat, n: nat)
    requires forall k: nat :: Bit(m, k) == Bit(n, k)
    ensures m == n
    decreases m + n
  {
    if m != n {
      assert Bit(m, 0) == Bit(n, 0);
      forall k: nat ensures Bit(m / 2, k) == Bit(n / 2, k) {
        assert Bit(m, k + 1) == Bit(n, k + 1);
      }
      BitsDetermine(m / 2, n / 2);
    }
  }

  /** And is commutative. */
  lemma AndCommutative(a: nat, b: nat)
    ensures And(a, b) == And(b, a)
  {
    forall k: nat ensures Bit(And(a, b), k) == Bit(And(b, a), k) {
      AndBit(a, b, k);
      AndBit(b, a, k);
    }
    BitsDetermine(And(a, b), And(b, a));
  }

  /** And of a number with itself is that number. */
  lemma AndIdempotent(a: nat)
    ensures And(a, a) == a
  {
    forall k: nat ensures Bit(And(a, a), k) == Bit(a, k) {
      AndBit(a, a, k);
    }
    BitsDetermine(And(a, a), a);
  }

  /** And never exceeds either operand. */
  lemma {:induction false} AndBounded(a: nat, b: nat)
    ensures And(a, b) <= a && And(a, b) <= b
    decreases a
  {
    if a != 0 && b != 0 {
      AndBounded(a / 2, b / 2);
    }
  }
}

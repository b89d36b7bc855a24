/** Subtraction, multiplication and division of vectors (binary_operation.py: sub, mult, div). */
module Arithmetic {
  import opened Results
  import opened Bits
  import opened Adder
  import opened Widths
  import opened Conversions

  // ---------------------------------------------------------------- arithmetic mod 2^w

  /** Two integers with the same remainder mod 2^w have the same w bits. */
  lemma {:induction false} ToBitsCongruent(x: int, y: int, w: nat)
    requires x % Pow2(w) == y % Pow2(w)
    ensures ToBits(x, w) == ToBits(y, w)
  {
    ToBitsValue(x, w);
    ToBitsValue(y, w);
    ValInjective(ToBits(x, w), ToBits(y, w));
  }

  lemma {:induction false} ModSum(x: int, y: int, m: int)
    requires m > 0
    ensures (x % m + y % m) % m == (x + y) % m
  {
    var u := x % m + y % m;
    assert x + y == (x / m + y / m + u / m) * m + u % m;
    DivModUnique(x + y, m, x / m + y / m + u / m, u % m);
  }

  lemma {:induction false} ModProduct(x: int, y: int, m: int)
    requires m > 0
    ensures ((x % m) * (y % m)) % m == (x * y) % m
  {
    var qx, rx, qy, ry := x / m, x % m, y / m, y % m;
    var u := rx * ry;
    var k := qx * ry + qy * rx + qx * qy * m;
    assert x * y == (qx * m + rx) * (qy * m + ry);
    assert x * y == u + k * m;
    assert x * y == (k + u / m) * m + u % m;
    DivModUnique(x * y, m, k + u / m, u % m);
  }

  /** An unsigned resize is the value's bits at the new width. */
  lemma {:induction false} ResizeUnsignedBits(s: seq<Bit>, w: nat)
    ensures Resize(s, w, false) == ToBits(Val(s), w)
  {
    ResizeUnsignedValue(s, w);
    ToBitsValue(Val(s), w);
    ValInjective(Resize(s, w, false), ToBits(Val(s), w));
  }

  // ---------------------------------------------------------------- sub

  /** The result of sub(num1, num2, width): num1 plus the two's complement of num2, both first
      brought to the width without sign extension. */
  function Difference(a: seq<Bit>, b: seq<Bit>, w: nat): (r: seq<Bit>)
    ensures |r| == w
  {
    Sum(Resize(a, w, false), TwosComplement(Resize(b, w, false)), w)
  }

  /** sub computes a - b modulo 2^width. */
  lemma {:induction false} DifferenceBits(a: seq<Bit>, b: seq<Bit>, w: nat)
    ensures Difference(a, b, w) == ToBits(Val(a) - Val(b), w)
    ensures Val(Difference(a, b, w)) == (Val(a) - Val(b)) % Pow2(w)
  {
    DifferenceOfResized(a, b, w);
    ResizeUnsignedValue(b, w);
    ToBitsMinusMod(Val(a), Val(b), w);
    ToBitsValue(Val(a) - Val(b), w);
  }

  /** The resized operands' sum is the bits of a minus the resized b. */
  lemma {:induction false} DifferenceOfResized(a: seq<Bit>, b: seq<Bit>, w: nat)
    ensures Difference(a, b, w) == ToBits(Val(a) - Val(Resize(b, w, false)), w)
  {
    var rb := Resize(b, w, false);
    ResizeUnsignedBits(a, w);
    TwosComplementBits(rb);
    SumOfBits(Val(a), -(Val(rb) as int), w);
  }

  lemma {:induction false} ToBitsMinusMod(x: int, y: int, w: nat)
    ensures ToBits(x - y % Pow2(w), w) == ToBits(x - y, w)
  {
    var p := Pow2(w);
    RemainderShift(x, y, p);
    ToBitsPeriodic(x - y, y / p, w);
  }

  lemma {:induction false} RemainderShift(x: int, y: int, m: int)
    requires m > 0
    ensures x - y % m == x - y + (y / m) * m
  {
  }

  /** Adding num2 back to sub(num1, num2, width) gives num1 at that width. */
  lemma {:induction false} DifferenceInverse(a: seq<Bit>, b: seq<Bit>, w: nat)
    ensures Sum(Difference(a, b, w), Resize(b, w, false), w) == Resize(a, w, false)
  {
    var d, rb := Difference(a, b, w), Resize(b, w, false);
    DifferenceBits(a, b, w);
    ResizeUnsignedBits(b, w);
    ResizeUnsignedBits(a, w);
    SumOfBits(Val(a) - Val(b), Val(b), w);
    assert Val(a) - Val(b) + Val(b) == Val(a);
  }

  // ---------------------------------------------------------------- mult

  /** The partial product mult adds for bit i of the multiplier: the multiplicand's low w - i
      bits above i zeros. At i = w - 1 the source takes the two's complement of that one-bit
      slice, which leaves it unchanged. */
  function PartialProduct(a: seq<Bit>, i: nat): (r: seq<Bit>)
    requires i < |a|
    ensures |r| == |a|
  {
    var w := |a|;
    Zeros(i) + (if i != w - 1 then a[..w - i] else TwosComplement(a[..w - i]))
  }

  /** The partial product is the multiplicand shifted left by i, modulo 2^w. */
  lemma {:induction false} PartialProductBits(a: seq<Bit>, i: nat)
    requires i < |a|
    ensures PartialProduct(a, i) == ToBits(Pow2(i) * Val(a), |a|)
  {
    var w := |a|;
    if i == w - 1 {
      TwosComplementOneBit(a[..w - i]);
    }
    PrefixIsToBits(a, w - i);
    ToBitsShift(Val(a), i, w);
  }

  /** Adding the bits of x and of y gives the bits of x + y. */
  lemma {:induction false} SumOfBits(x: int, y: int, w: nat)
    ensures Sum(ToBits(x, w), ToBits(y, w), w) == ToBits(x + y, w)
  {
    SumBits(ToBits(x, w), ToBits(y, w), w);
    ToBitsValue(x, w);
    ToBitsValue(y, w);
    ModSum(x, y, Pow2(w));
    ToBitsCongruent(Val(ToBits(x, w)) + Val(ToBits(y, w)), x + y, w);
  }

  lemma {:induction false} Distribute(v: int, x: int, c: int, p: int)
    ensures v * (x + c * p) == v * x + c * (p * v)
  {
  }

  /** One step of mult's loop: adding the partial product for a set bit i. */
  lemma {:induction false} MultStep(a: seq<Bit>, b: seq<Bit>, i: nat, acc: seq<Bit>)
    requires |a| == |b| && i < |a| && acc == ToBits(Val(a) * Val(b[..i]), |a|)
    ensures b[i] == 1 ==> Sum(acc, PartialProduct(a, i), |a|) == ToBits(Val(a) * Val(b[..i + 1]), |a|)
    ensures b[i] == 0 ==> acc == ToBits(Val(a) * Val(b[..i + 1]), |a|)
  {
    PrefixSnoc(b, i);
    ProductSnoc(Val(a), Val(b[..i]), Val(b[..i + 1]), b[i], Pow2(i));
    if b[i] == 1 {
      PartialProductBits(a, i);
      SumOfBits(Val(a) * Val(b[..i]), Pow2(i) * Val(a), |a|);
    }
  }

  lemma {:induction false} PrefixSnoc(b: seq<Bit>, i: nat)
    requires i < |b|
    ensures Val(b[..i + 1]) == Val(b[..i]) + b[i] * Pow2(i)
  {
    assert b[..i + 1] == b[..i] + [b[i]];
    ValSnoc(b[..i], b[i]);
  }

  lemma {:induction false} ProductSnoc(v: int, x: int, x': int, c: Bit, p: int)
    requires x' == x + c * p
    ensures c == 1 ==> v * x' == v * x + p * v
    ensures c == 0 ==> v * x' == v * x
  {
    Distribute(v, x, c, p);
  }

  /** The library's mult (unsigned only): both operands resized to the width without sign
      extension, then for each set bit i of the multiplier the partial product is added. The
      result is the product modulo 2^width. */
  method Mult(num1: seq<Bit>, num2: seq<Bit>, w: nat) returns (r: seq<Bit>)
    ensures r == ToBits(Val(num1) * Val(num2), w)
    ensures Val(r) == (Val(num1) * Val(num2)) % Pow2(w)
  {
    var a := Resize(num1, w, false);
    var b := Resize(num2, w, false);
    var acc := Zeros(w);
    ToBitsZero(w);
    assert b[..0] == [];
    var i := 0;
    while i < w
      invariant 0 <= i <= w
      invariant acc == ToBits(Val(a) * Val(b[..i]), w)
    {
      MultStep(a, b, i, acc);
      if b[i] == 1 {
        var tmp := PartialProduct(a, i);
        acc := Add(acc, tmp, w);
      }
      i := i + 1;
    }
    assert b[..w] == b;
    r := acc;
    ProductOfResized(num1, num2, w);
    ToBitsValue(Val(num1) * Val(num2), w);
  }

  lemma {:induction false} ProductOfResized(x: seq<Bit>, y: seq<Bit>, w: nat)
    ensures ToBits(Val(Resize(x, w, false)) * Val(Resize(y, w, false)), w) == ToBits(Val(x) * Val(y), w)
  {
    var p := Pow2(w);
    ResizeUnsignedValue(x, w);
    ResizeUnsignedValue(y, w);
    ModProduct(Val(x), Val(y), p);
    var u := Val(Resize(x, w, false)) * Val(Resize(y, w, false));
    assert u == (Val(x) % p) * (Val(y) % p);
    ToBitsCongruent(u, Val(x) * Val(y), w);
  }

  // ---------------------------------------------------------------- div

  /** den.sum() == 0: every bit of the denominator is zero. */
  predicate AllZero(s: seq<Bit>)
  {
    forall i :: 0 <= i < |s| ==> s[i] == 0
  }

  lemma {:induction false} AllZeroValue(s: seq<Bit>)
    ensures AllZero(s) <==> Val(s) == 0
  {
    if |s| > 0 {
      AllZeroValue(s[1..]);
      assert AllZero(s) <==> s[0] == 0 && AllZero(s[1..]) by {
        assert forall i :: 1 <= i < |s| ==> s[i] == s[1..][i - 1];
      }
    }
  }

  /** Subtracting the divisor from a remainder at least as large takes nothing modulo 2^w. */
  lemma {:induction false} SubtractStep(n: seq<Bit>, d: seq<Bit>)
    requires |n| == |d| && Val(n) >= Val(d)
    ensures Val(Sum(n, TwosComplement(d), |n|)) == Val(n) - Val(d)
  {
    var w := |n|;
    SumValue(n, TwosComplement(d), w);
    TwosComplementValue(d);
    ValBound(n);
    ValBound(d);
    var p := Pow2(w);
    SplitArith(p - Val(d), p, if Val(d) == 0 then 1 else 0, if Val(d) == 0 then 0 else p - Val(d));
    if Val(d) == 0 {
      SplitArith(Val(n), p, 0, Val(n));
    } else {
      SplitArith(Val(n) + (p - Val(d)), p, 1, Val(n) - Val(d));
    }
  }

  /** The library's div (unsigned only): the denominator may not be all zeros; both operands are
      resized to the width; the divisor is subtracted from the numerator while what is left is
      at least the divisor (the comparison is bin2dec, which at fixed point 0 unsigned is the
      value, and which fails on a zero-width vector), counting the subtractions; the count is
      converted with dec2bin. The source only returns when the resized divisor is nonzero or the
      denominator is zero (DivDivisorVanishes), which the precondition states. */
  method Div(num: seq<Bit>, den: seq<Bit>, w: nat) returns (r: Result<(seq<Bit>, seq<Bit>)>)
    requires w == 0 || Val(den) == 0 || Val(den) % Pow2(w) != 0
    ensures Val(den) == 0 ==> r == Err(DivisionByZero)
    ensures Val(den) != 0 && w == 0 ==> r == Err(EmptyVector)
    ensures r.Ok? <==> Val(den) != 0 && w > 0
    ensures r.Ok? ==> |r.value.0| == w && |r.value.1| == w
    ensures r.Ok? ==> Val(r.value.0) == (Val(num) % Pow2(w)) / (Val(den) % Pow2(w))
    ensures r.Ok? ==> Val(r.value.1) == (Val(num) % Pow2(w)) % (Val(den) % Pow2(w))
  {
    AllZeroValue(den);
    if AllZero(den) {
      return Err(DivisionByZero);
    }
    var n := Resize(num, w, false);
    var d := Resize(den, w, false);
    ResizeUnsignedValue(num, w);
    ResizeUnsignedValue(den, w);
    if w == 0 {
      return Err(EmptyVector);
    }
    var quot, rem := Reduce(n, d);
    ValBound(n);
    var q := QuotientBits(quot, w);
    r := Ok((q, rem));
  }

  /** div's loop: repeated subtraction of the divisor, counting the subtractions. */
  method Reduce(num: seq<Bit>, d: seq<Bit>) returns (quot: nat, n: seq<Bit>)
    requires |num| == |d| && Val(d) > 0
    ensures |n| == |num| && quot == Val(num) / Val(d) && Val(n) == Val(num) % Val(d)
    ensures quot <= Val(num)
  {
    var w := |num|;
    n := num;
    quot := 0;
    while Val(n) >= Val(d)
      invariant |n| == w
      invariant Val(num) == Val(n) + quot * Val(d)
      decreases Val(n)
    {
      ghost var before := Val(n);
      n := Subtract(n, d);
      CountStep(before, Val(d), quot);
      quot := quot + 1;
    }
    ReduceDone(Val(num), Val(d), quot, Val(n));
  }

  /** When div's loop stops, the count and what is left are the quotient and the remainder. */
  lemma {:induction false} ReduceDone(x: nat, dv: nat, q: nat, rest: nat)
    requires dv > 0 && x == rest + q * dv && rest < dv
    ensures q == x / dv && rest == x % dv && q <= x
  {
    DivModUnique(x, dv, q, rest);
    MulAtLeast(dv, q);
  }

  /** One pass of div's loop body: add(num, neg(den)) while num is at least den. */
  method Subtract(n: seq<Bit>, d: seq<Bit>) returns (m: seq<Bit>)
    requires |n| == |d| && Val(n) >= Val(d)
    ensures |m| == |n| && Val(m) == Val(n) - Val(d)
  {
    SubtractStep(n, d);
    m := Add(n, TwosComplement(d), |n|);
  }

  lemma {:induction false} CountStep(n: int, d: int, q: int)
    ensures (n - d) + (q + 1) * d == n + q * d
  {
  }

  /** dec2bin(quot, width) for a count below 2^width: its bits. */
  method QuotientBits(quot: nat, w: nat) returns (q: seq<Bit>)
    requires quot < Pow2(w)
    ensures |q| == w && Val(q) == quot
  {
    var res := Dec2Bin(quot as real, w, 0, false);
    DecToBitsNonNegative(quot as real, w, 0, false);
    assert Scale(quot as real, 0) == quot as real;
    q := res.value;
  }

  /** A nonzero denominator whose set bits all lie at or above the width becomes an all-zero
      divisor: div's loop condition then always holds and its body leaves the remainder
      unchanged, so the call never returns. */
  lemma {:induction false} DivDivisorVanishes(den: seq<Bit>, w: nat, n: seq<Bit>)
    requires Val(den) % Pow2(w) == 0 && |n| == w
    ensures Val(Resize(den, w, false)) == 0
    ensures Val(n) >= Val(Resize(den, w, false))
    ensures Sum(n, TwosComplement(Resize(den, w, false)), w) == n
  {
    var d := Resize(den, w, false);
    ResizeUnsignedValue(den, w);
    SubtractStep(n, d);
    ValInjective(Sum(n, TwosComplement(d), w), n);
  }

  /** For instance den = 100 (the value 4) at width 2. */
  lemma DivDivisorVanishesExample()
    ensures Val([0, 0, 1]) == 4 && Val([0, 0, 1]) % Pow2(2) == 0
  {
    assert Val([0, 0, 1]) == 4 by {
      assert [0, 0, 1][1..] == [0, 1];
      assert [0, 1][1..] == [1];
      assert [1][1..] == [];
    }
  }
}

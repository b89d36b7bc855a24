/** Bit vectors held least significant bit first, and the numbers they stand for. */
module Bits {

  /** One element of a bit vector. */
  type Bit = b: int | 0 <= b <= 1

  function Pow2(n: nat): (p: nat)
    ensures p >= 1
  {
    if n == 0 then 1 else 2 * Pow2(n - 1)
  }

  function Min(a: int, b: int): int
  {
    if a <= b then a else b
  }

  /** The unsigned value of a vector: the sum of s[i] * 2^i. */
  function Val(s: seq<Bit>): nat
  {
    if |s| == 0 then 0 else s[0] + 2 * Val(s[1..])
  }

  /** The two's-complement value of a vector: the top bit weighs -2^(n-1). */
  function SignedVal(s: seq<Bit>): int
  {
    if |s| > 0 && s[|s| - 1] == 1 then Val(s) - Pow2(|s|) else Val(s)
  }

  /** The n low bits of v; for negative v these are its two's-complement bits. */
  function ToBits(v: int, n: nat): (r: seq<Bit>)
    ensures |r| == n
    decreases n
  {
    if n == 0 then [] else [v % 2] + ToBits(v / 2, n - 1)
  }

  function Fill(b: Bit, n: nat): (r: seq<Bit>)
    ensures |r| == n && forall i :: 0 <= i < n ==> r[i] == b
  {
    seq(n, _ => b)
  }

  function Zeros(n: nat): (r: seq<Bit>)
    ensures |r| == n && forall i :: 0 <= i < n ==> r[i] == 0
  {
    Fill(0, n)
  }

  /** The magnitude bits that the decimal-to-binary conversion chooses for a scaled magnitude x:
      from the top position n-1 down to 0, a bit is set when what remains of x covers 2^position,
      and that power is then taken off. */
  function Greedy(x: real, n: nat): (r: seq<Bit>)
    ensures |r| == n
  {
    if n == 0 then []
    else if x >= Pow2(n - 1) as real then Greedy(x - Pow2(n - 1) as real, n - 1) + [1]
    else Greedy(x, n - 1) + [0]
  }

  // ---------------------------------------------------------------- arithmetic helpers

  lemma {:induction false} Pow2Add(a: nat, b: nat)
    ensures Pow2(a + b) == Pow2(a) * Pow2(b)
  {
    if a > 0 {
      Pow2Add(a - 1, b);
    }
  }

  lemma {:induction false} Pow2Monotone(a: nat, b: nat)
    requires a <= b
    ensures Pow2(a) <= Pow2(b)
  {
    Pow2Add(a, b - a);
  }

  lemma {:induction false} MulAtLeast(a: int, m: int)
    requires a >= 1 && m >= 0
    ensures a * m >= m
    decreases a
  {
    if a > 1 {
      MulAtLeast(a - 1, m);
      assert a * m == (a - 1) * m + m;
    }
  }

  /** Euclidean division is unique. */
  lemma {:induction false} DivModUnique(x: int, m: int, q: int, r: int)
    requires m > 0 && 0 <= r < m && x == q * m + r
    ensures x % m == r && x / m == q
  {
    var q', r' := x / m, x % m;
    assert x == q' * m + r';
    var d := q' - q;
    assert d * m == q' * m - q * m;
    assert d * m == r - r';
    if d >= 1 {
      MulAtLeast(d, m);
    } else if d <= -1 {
      MulAtLeast(-d, m);
    }
  }

  /** Adding the modulus does not change the remainder. */
  lemma {:induction false} ModShift(x: int, m: int)
    requires m > 0
    ensures (x + m) % m == x % m
  {
    DivModUnique(x + m, m, x / m + 1, x % m);
  }

  /** A number plus the remainder of its negation is a multiple of the modulus. */
  lemma {:induction false} NegMod(x: int, m: int)
    requires m > 0
    ensures x + (-x) % m == (-((-x) / m)) * m
    ensures -((-x) % m) == x + ((-x) / m) * m
  {
  }

  /** Adding one low bit under a doubling keeps the remainder in step. */
  lemma {:induction false} ModDouble(s: int, x: int, m: int)
    requires 0 <= s <= 1 && m > 0
    ensures (s + 2 * x) % (2 * m) == s + 2 * (x % m)
    ensures (s + 2 * x) / (2 * m) == x / m
  {
    var q, r := x / m, x % m;
    assert s + 2 * x == q * (2 * m) + (s + 2 * r);
    DivModUnique(s + 2 * x, 2 * m, q, s + 2 * r);
  }

  // ---------------------------------------------------------------- value of a vector

  lemma {:induction false} ValBound(s: seq<Bit>)
    ensures Val(s) < Pow2(|s|)
  {
    if |s| > 0 {
      ValBound(s[1..]);
    }
  }

  /** The second part of a concatenation holds the higher bits. */
  lemma {:induction false} ValConcat(a: seq<Bit>, b: seq<Bit>)
    ensures Val(a + b) == Val(a) + Pow2(|a|) * Val(b)
  {
    if |a| > 0 {
      assert (a + b)[1..] == a[1..] + b;
      ValConcat(a[1..], b);
      DoubleShift(a[0], Val(a[1..]), Pow2(|a| - 1), Val(b));
    } else {
      assert a + b == b;
    }
  }

  lemma {:induction false} DoubleShift(c: int, x: int, p: int, v: int)
    ensures c + 2 * (x + p * v) == (c + 2 * x) + (2 * p) * v
  {
  }

  lemma {:induction false} ValSnoc(s: seq<Bit>, b: Bit)
    ensures Val(s + [b]) == Val(s) + b * Pow2(|s|)
  {
    ValConcat(s, [b]);
    assert [b][1..] == [];
    assert Val([b]) == b;
    var p := Pow2(|s|);
    assert p * Val([b]) == b * p;
  }

  /** The low k bits stand for the value reduced mod 2^k, the rest for the quotient. */
  lemma {:induction false} ValSplit(s: seq<Bit>, k: nat)
    requires k <= |s|
    ensures Val(s[..k]) == Val(s) % Pow2(k)
    ensures Val(s[k..]) == Val(s) / Pow2(k)
  {
    var lo, hi := s[..k], s[k..];
    assert s == lo + hi;
    ValConcat(lo, hi);
    ValBound(lo);
    SplitArith(Val(s), Pow2(k), Val(hi), Val(lo));
  }

  lemma {:induction false} SplitArith(x: int, m: int, q: int, r: int)
    requires m > 0 && 0 <= r < m && x == r + m * q
    ensures x % m == r && x / m == q
  {
    DivModUnique(x, m, q, r);
  }

  lemma {:induction false} ToBitsValue(v: int, n: nat)
    ensures Val(ToBits(v, n)) == v % Pow2(n)
    decreases n
  {
    if n > 0 {
      ToBitsValue(v / 2, n - 1);
      assert ToBits(v, n)[1..] == ToBits(v / 2, n - 1);
      ModDouble(v % 2, v / 2, Pow2(n - 1));
    }
  }

  /** A vector is determined by its length and its value. */
  lemma {:induction false} ValInjective(a: seq<Bit>, b: seq<Bit>)
    requires |a| == |b| && Val(a) == Val(b)
    ensures a == b
  {
    if |a| > 0 {
      ModDouble(a[0], Val(a[1..]), 1);
      ModDouble(b[0], Val(b[1..]), 1);
      assert a[0] == b[0];
      ValInjective(a[1..], b[1..]);
      assert a == [a[0]] + a[1..] && b == [b[0]] + b[1..];
    }
  }

  lemma {:induction false} ToBitsOfVal(s: seq<Bit>)
    ensures ToBits(Val(s), |s|) == s
  {
    ToBitsValue(Val(s), |s|);
    ValBound(s);
    SplitArith(Val(s), Pow2(|s|), 0, Val(s));
    ValInjective(ToBits(Val(s), |s|), s);
  }

  lemma {:induction false} FillValue(b: Bit, n: nat)
    ensures Val(Fill(b, n)) == b * (Pow2(n) - 1)
  {
    if n > 0 {
      assert Fill(b, n)[1..] == Fill(b, n - 1);
      FillValue(b, n - 1);
    }
  }

  lemma {:induction false} ZerosValue(n: nat)
    ensures Val(Zeros(n)) == 0
  {
    FillValue(0, n);
  }

  /** The top bit is set exactly when the value reaches half the range. */
  lemma {:induction false} TopBit(s: seq<Bit>)
    requires |s| > 0
    ensures s[|s| - 1] == 1 <==> Val(s) >= Pow2(|s| - 1)
  {
    var n := |s|;
    assert s == s[..n - 1] + [s[n - 1]];
    ValSnoc(s[..n - 1], s[n - 1]);
    ValBound(s[..n - 1]);
  }

  /** What the greedy choice yields: the integer part of x, saturated at all ones. */
  lemma {:induction false} GreedyValue(x: real, n: nat)
    requires x >= 0.0
    ensures Val(Greedy(x, n)) == Min(x.Floor, Pow2(n) - 1)
    decreases n, 1
  {
    if n > 0 {
      if x >= Pow2(n - 1) as real {
        GreedyValueSet(x, n);
      } else {
        GreedyValueClear(x, n);
      }
    }
  }

  /** The top bit is set when x covers its weight p, and the rest is the value of x - p. */
  lemma {:induction false} GreedyValueSet(x: real, n: nat)
    requires n > 0 && x >= Pow2(n - 1) as real
    ensures Val(Greedy(x, n)) == Min(x.Floor, Pow2(n) - 1)
    decreases n, 0
  {
    var p := Pow2(n - 1);
    var low := Greedy(x - p as real, n - 1);
    assert Greedy(x, n) == low + [1];
    GreedyValue(x - p as real, n - 1);
    ValSnoc(low, 1);
    FloorShift(x, p);
  }

  lemma {:induction false} GreedyValueClear(x: real, n: nat)
    requires n > 0 && 0.0 <= x < Pow2(n - 1) as real
    ensures Val(Greedy(x, n)) == Min(x.Floor, Pow2(n) - 1)
    decreases n, 0
  {
    var p := Pow2(n - 1);
    var low := Greedy(x, n - 1);
    assert Greedy(x, n) == low + [0];
    GreedyValue(x, n - 1);
    ValSnoc(low, 0);
    FloorBelow(x, p);
  }

  /** Taking the top weight off: the capped floor of x - p, plus p, is x's floor capped at 2p - 1. */
  lemma {:induction false} FloorShift(x: real, p: nat)
    requires x >= p as real
    ensures Min((x - p as real).Floor, p - 1) + p == Min(x.Floor, 2 * p - 1)
  {
    assert (x - p as real).Floor == x.Floor - p;
  }

  lemma {:induction false} FloorBelow(x: real, p: nat)
    requires 0.0 <= x < p as real
    ensures Min(x.Floor, p - 1) == Min(x.Floor, 2 * p - 1) == x.Floor
  {
  }

  /** For x that fits, the greedy bits are the binary digits of its integer part. */
  lemma {:induction false} GreedyIsToBits(x: real, n: nat)
    requires 0.0 <= x
    ensures Greedy(x, n) == ToBits(Min(x.Floor, Pow2(n) - 1), n)
  {
    var v := Min(x.Floor, Pow2(n) - 1);
    GreedyValue(x, n);
    ToBitsValue(v, n);
    SplitArith(v, Pow2(n), 0, v);
    ValInjective(Greedy(x, n), ToBits(v, n));
  }

  // ---------------------------------------------------------------- ToBits as arithmetic mod 2^n

  lemma {:induction false} ToBitsZero(n: nat)
    ensures ToBits(0, n) == Zeros(n)
  {
    if n > 0 {
      ToBitsZero(n - 1);
      assert Zeros(n) == [0] + Zeros(n - 1);
    }
  }

  /** ToBits only sees x mod 2^n. */
  lemma {:induction false} ToBitsPeriodic(x: int, k: int, n: nat)
    ensures ToBits(x + k * Pow2(n), n) == ToBits(x, n)
    decreases n
  {
    if n > 0 {
      var m := k * Pow2(n - 1);
      assert k * Pow2(n) == 2 * m;
      assert (x + 2 * m) % 2 == x % 2;
      assert (x + 2 * m) / 2 == x / 2 + m;
      ToBitsPeriodic(x / 2, k, n - 1);
    }
  }

  /** Shifting left by i positions at width n: i zeros below the low n - i bits. */
  lemma {:induction false} ToBitsShift(x: int, i: nat, n: nat)
    requires i <= n
    ensures Zeros(i) + ToBits(x, n - i) == ToBits(Pow2(i) * x, n)
  {
    if i > 0 {
      var y := Pow2(i - 1) * x;
      assert Pow2(i) * x == 2 * y;
      assert (2 * y) % 2 == 0 && (2 * y) / 2 == y;
      ToBitsShift(x, i - 1, n - 1);
      assert Zeros(i) == [0] + Zeros(i - 1);
    }
  }

  /** A vector prefix stands for the value's bits at that width. */
  lemma {:induction false} PrefixIsToBits(s: seq<Bit>, k: nat)
    requires k <= |s|
    ensures s[..k] == ToBits(Val(s), k)
  {
    ValSplit(s, k);
    ToBitsOfVal(s[..k]);
    ToBitsValue(Val(s), k);
    ToBitsValue(Val(s[..k]), k);
    ValBound(s[..k]);
    ValInjective(s[..k], ToBits(Val(s), k));
  }
}

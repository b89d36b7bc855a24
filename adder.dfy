/** The full adder, the ripple-carry adder, bitwise inversion and two's-complement negation
    (binary_operation.py: full_add, add, inv, twos_comp, neg). */
module Adder {
  import opened Bits

  function Xor(x: Bit, y: Bit): Bit
  {
    if x != y then 1 else 0
  }

  /** One-bit full adder; the pair is (carry, sum), carry first, as in the library. */
  function FullAdd(a: Bit, b: Bit, c: Bit): (r: (Bit, Bit))
    ensures r.1 + 2 * r.0 == a + b + c
  {
    var carry := if (a == 1 && b == 1) || (c == 1 && (b == 1 || a == 1)) then 1 else 0;
    (carry, Xor(Xor(a, b), c))
  }

  /** The w sum bits the ripple-carry chain produces from the low w bits of a and b and the
      incoming carry c; the carry out of the top position is dropped. */
  function Ripple(a: seq<Bit>, b: seq<Bit>, c: Bit, w: nat): (r: seq<Bit>)
    requires |a| >= w && |b| >= w
    ensures |r| == w
  {
    if w == 0 then []
    else
      var t := FullAdd(a[0], b[0], c);
      [t.1] + Ripple(a[1..], b[1..], t.0, w - 1)
  }

  /** The result of add(a, b, w). */
  function Sum(a: seq<Bit>, b: seq<Bit>, w: nat): (r: seq<Bit>)
    requires |a| >= w && |b| >= w
    ensures |r| == w
  {
    Ripple(a, b, 0, w)
  }

  /** The ripple chain computes the low w bits of the sum of its inputs. */
  lemma {:induction false} RippleBits(a: seq<Bit>, b: seq<Bit>, c: Bit, w: nat)
    requires |a| >= w && |b| >= w
    ensures Ripple(a, b, c, w) == ToBits(Val(a) + Val(b) + c, w)
  {
    if w > 0 {
      var t := FullAdd(a[0], b[0], c);
      RippleBits(a[1..], b[1..], t.0, w - 1);
      var x := Val(a[1..]) + Val(b[1..]) + t.0;
      var total := Val(a) + Val(b) + c;
      assert total == t.1 + 2 * x;
      SplitArith(total, 2, x, t.1);
    }
  }

  /** Addition is modular: the result is the low w bits of the sum of the operands' values
      (only their low w bits matter), the carry out of the top being dropped. */
  lemma {:induction false} SumBits(a: seq<Bit>, b: seq<Bit>, w: nat)
    requires |a| >= w && |b| >= w
    ensures Sum(a, b, w) == ToBits(Val(a) + Val(b), w)
  {
    RippleBits(a, b, 0, w);
  }

  /** In numbers: the value of the sum is the operands' sum mod 2^w. */
  lemma {:induction false} SumValue(a: seq<Bit>, b: seq<Bit>, w: nat)
    requires |a| >= w && |b| >= w
    ensures Val(Sum(a, b, w)) == (Val(a) + Val(b)) % Pow2(w)
  {
    SumBitsVal(a, b, w);
    ToBitsValue(Val(a) + Val(b), w);
  }

  /** SumBits read through Val; kept apart so that the sequence equality stays out of SumValue's proof. */
  lemma {:induction false} SumBitsVal(a: seq<Bit>, b: seq<Bit>, w: nat)
    requires |a| >= w && |b| >= w
    ensures Val(Sum(a, b, w)) == Val(ToBits(Val(a) + Val(b), w))
  {
    SumBits(a, b, w);
  }

  /** The library's add: a carry loop writing one sum bit per position into a fresh array.
      Both operands must have at least w bits (the loop indexes them). */
  method Add(a: seq<Bit>, b: seq<Bit>, w: nat) returns (r: seq<Bit>)
    requires |a| >= w && |b| >= w
    ensures r == Sum(a, b, w)
    ensures r == ToBits(Val(a) + Val(b), w)
  {
    var sum := new Bit[w];
    var carry: Bit := 0;
    var i := 0;
    while i < w
      invariant 0 <= i <= w
      invariant sum[..i] + Ripple(a[i..], b[i..], carry, w - i) == Sum(a, b, w)
    {
      var t := FullAdd(a[i], b[i], carry);
      ghost var done := sum[..i];
      AddStep(done, a, b, i, carry, w);
      carry, sum[i] := t.0, t.1;
      assert sum[..i + 1] == done + [t.1];
      i := i + 1;
    }
    assert Ripple(a[w..], b[w..], carry, 0) == [];
    r := sum[..w];
    SumBits(a, b, w);
  }

  /** add's loop body keeps its invariant: the bits written so far, then the rest of the chain. */
  lemma {:induction false} AddStep(done: seq<Bit>, a: seq<Bit>, b: seq<Bit>, i: nat, c: Bit, w: nat)
    requires i < w <= |a| && w <= |b|
    requires done + Ripple(a[i..], b[i..], c, w - i) == Sum(a, b, w)
    ensures (done + [FullAdd(a[i], b[i], c).1])
      + Ripple(a[i + 1..], b[i + 1..], FullAdd(a[i], b[i], c).0, w - i - 1) == Sum(a, b, w)
  {
    RippleStep(a, b, i, c, w);
  }

  /** One position of the carry chain: its sum bit, then the chain from the next position on. */
  lemma {:induction false} RippleStep(a: seq<Bit>, b: seq<Bit>, i: nat, c: Bit, w: nat)
    requires i < w <= |a| && w <= |b|
    ensures Ripple(a[i..], b[i..], c, w - i)
      == [FullAdd(a[i], b[i], c).1] + Ripple(a[i + 1..], b[i + 1..], FullAdd(a[i], b[i], c).0, w - i - 1)
  {
    assert a[i..][1..] == a[i + 1..] && b[i..][1..] == b[i + 1..];
  }

  /** Bitwise NOT. */
  function Inverted(s: seq<Bit>): (r: seq<Bit>)
    ensures |r| == |s|
  {
    if |s| == 0 then [] else [1 - s[0]] + Inverted(s[1..])
  }

  lemma {:induction false} InvertedAt(s: seq<Bit>, i: nat)
    requires i < |s|
    ensures Inverted(s)[i] == 1 - s[i]
  {
    if i > 0 {
      InvertedAt(s[1..], i - 1);
    }
  }

  /** Inversion complements the value within the width: v + inv(v) = 2^n - 1. */
  lemma {:induction false} InvertedValue(s: seq<Bit>)
    ensures Val(Inverted(s)) == Pow2(|s|) - 1 - Val(s)
  {
    if |s| > 0 {
      assert Inverted(s)[1..] == Inverted(s[1..]);
      InvertedValue(s[1..]);
    }
  }

  /** The library's inv: copy the vector and flip every element in place. */
  method Inv(a: seq<Bit>) returns (r: seq<Bit>)
    ensures |r| == |a| && forall i :: 0 <= i < |a| ==> r[i] == 1 - a[i]
    ensures r == Inverted(a)
  {
    var v := new Bit[|a|](i requires 0 <= i < |a| => a[i]);
    var i := 0;
    while i < v.Length
      invariant 0 <= i <= v.Length
      invariant forall k :: 0 <= k < i ==> v[k] == 1 - a[k]
      invariant forall k :: i <= k < v.Length ==> v[k] == a[k]
    {
      v[i] := if v[i] == 1 then 0 else 1;
      i := i + 1;
    }
    r := v[..];
    forall k | 0 <= k < |a|
      ensures r[k] == Inverted(a)[k]
    {
      InvertedAt(a, k);
    }
  }

  /** dec2bin(1, n), the constant the library adds when negating, is the number one at width n. */
  lemma {:induction false} GreedyOne(n: nat)
    ensures Greedy(1.0, n) == ToBits(1, n)
  {
    GreedyIsToBits(1.0, n);
    if n > 0 {
      Pow2Monotone(1, n);
    }
  }

  /** Two's-complement negation: invert, then add one (dec2bin(1, n), see GreedyOne) at the same width. */
  function TwosComplement(s: seq<Bit>): (r: seq<Bit>)
    ensures |r| == |s|
  {
    Sum(Inverted(s), ToBits(1, |s|), |s|)
  }

  lemma {:induction false} OneValue(n: nat)
    requires n > 0
    ensures Val(ToBits(1, n)) == 1
  {
    assert ToBits(1, n)[1..] == ToBits(0, n - 1);
    ToBitsZero(n - 1);
    ZerosValue(n - 1);
  }

  /** Negation gives the two's-complement bits of minus the value. */
  lemma {:induction false} TwosComplementBits(s: seq<Bit>)
    ensures TwosComplement(s) == ToBits(-(Val(s) as int), |s|)
  {
    var n := |s|;
    if n > 0 {
      var x := Val(Inverted(s)) + Val(ToBits(1, n));
      NegationSum(s);
      assert TwosComplement(s) == ToBits(x, n) by {
        SumBits(Inverted(s), ToBits(1, n), n);
      }
      ToBitsPeriodic(-(Val(s) as int), 1, n);
    }
  }

  /** The number the negating addition adds up: inv(v) + 1 = 2^n - v. */
  lemma {:induction false} NegationSum(s: seq<Bit>)
    requires |s| > 0
    ensures Val(Inverted(s)) + Val(ToBits(1, |s|)) == -(Val(s) as int) + 1 * Pow2(|s|)
  {
    InvertedValue(s);
    OneValue(|s|);
  }

  /** In numbers: the value is (2^n - v) mod 2^n. */
  lemma {:induction false} TwosComplementValue(s: seq<Bit>)
    ensures Val(TwosComplement(s)) == (Pow2(|s|) - Val(s)) % Pow2(|s|)
  {
    TwosComplementValueOfBits(s);
    ToBitsValue(-(Val(s) as int), |s|);
    ModShift(-(Val(s) as int), Pow2(|s|));
  }

  lemma {:induction false} TwosComplementValueOfBits(s: seq<Bit>)
    ensures Val(TwosComplement(s)) == Val(ToBits(-(Val(s) as int), |s|))
  {
    TwosComplementBits(s);
  }

  /** Adding a vector to its negation at its own width gives all zeros. */
  lemma {:induction false} AddNegationIsZero(a: seq<Bit>)
    ensures Sum(a, TwosComplement(a), |a|) == Zeros(|a|)
  {
    var n := |a|;
    var t := TwosComplement(a);
    assert Val(t) == (-(Val(a) as int)) % Pow2(n) by {
      TwosComplementValueOfBits(a);
      ToBitsValue(-(Val(a) as int), n);
    }
    var q := -(Val(a) as int) / Pow2(n);
    NegMod(Val(a), Pow2(n));
    assert Sum(a, t, n) == ToBits(Val(a) + Val(t), n) by {
      SumBits(a, t, n);
    }
    ToBitsPeriodic(0, -q, n);
    ToBitsZero(n);
  }

  /** Negating twice gives the vector back. */
  lemma {:induction false} TwosComplementInvolutive(s: seq<Bit>)
    ensures TwosComplement(TwosComplement(s)) == s
  {
    var n := |s|;
    var t := TwosComplement(s);
    TwosComplementValue(s);
    var v: int := Val(t);
    assert v == (Pow2(n) - Val(s)) % Pow2(n);
    TwosComplementBits(t);
    assert TwosComplement(t) == ToBits(-v, n);
    NegNegBits(Val(s), n);
    ToBitsOfVal(s);
  }

  /** Negating a number's residue mod 2^n and reading n bits gives the number's bits back. */
  lemma {:induction false} NegNegBits(v: int, n: nat)
    ensures ToBits(-((Pow2(n) - v) % Pow2(n)), n) == ToBits(v, n)
  {
    var p := Pow2(n);
    var q := (p - v) / p;
    assert -((p - v) % p) == v + (q - 1) * p;
    ToBitsPeriodic(v, q - 1, n);
  }

  /** On a single bit negation changes nothing, since -b == b mod 2. */
  lemma {:induction false} TwosComplementOneBit(s: seq<Bit>)
    requires |s| == 1
    ensures TwosComplement(s) == s
  {
    TwosComplementInvolutive(s);
    TwosComplementBits(s);
    assert Val(s) == s[0];
    if s[0] == 0 {
      assert TwosComplement(s) == ToBits(2, 1);
    } else {
      assert TwosComplement(s) == ToBits(1, 1);
    }
  }
}

/** Conversions between decimal values and bit vectors (binary_operation.py: dec2bin, bin2dec).
    At fixed point f bit i weighs 2^(i - f); decimal values are exact reals, and scaling by 2^f
    is written as f doublings (or halvings), so that every step stays linear. */
module Conversions {
  import opened Results
  import opened Bits
  import opened Adder

  function Abs(x: real): (r: real)
    ensures r >= 0.0 && (r == x || r == -x)
  {
    if x < 0.0 then -x else x
  }

  // ---------------------------------------------------------------- scaling by powers of two

  /** x * 2^f. */
  function Scale(x: real, f: nat): real
  {
    if f == 0 then x else 2.0 * Scale(x, f - 1)
  }

  /** x / 2^f. */
  function Unscale(x: real, f: nat): real
  {
    if f == 0 then x else Unscale(x, f - 1) / 2.0
  }

  /** 2^e for an integer exponent, as 2**power evaluates for a negative power too. */
  function Power(e: int): (p: real)
  {
    if e >= 0 then Pow2(e) as real else Unscale(1.0, -e)
  }

  lemma {:induction false} ScaleLinear(a: real, b: real, f: nat)
    ensures Scale(a - b, f) == Scale(a, f) - Scale(b, f)
    ensures Scale(-a, f) == -Scale(a, f)
  {
    if f > 0 {
      ScaleLinear(a, b, f - 1);
    }
  }

  /** Scaling keeps the order of two values. */
  lemma {:induction false} ScaleOrder(a: real, b: real, f: nat)
    ensures a >= b <==> Scale(a, f) >= Scale(b, f)
  {
    if f > 0 {
      ScaleOrder(a, b, f - 1);
    }
  }

  lemma {:induction false} ScaleAdd(x: real, a: nat, b: nat)
    ensures Scale(x, a + b) == Scale(Scale(x, a), b)
  {
    if b > 0 {
      ScaleAdd(x, a, b - 1);
    }
  }

  lemma {:induction false} ScalePow2(k: nat, f: nat)
    ensures Scale(Pow2(k) as real, f) == Pow2(k + f) as real
  {
    if f > 0 {
      ScalePow2(k, f - 1);
    }
  }

  lemma {:induction false} ScaleHalf(y: real, f: nat)
    ensures Scale(y / 2.0, f) == Scale(y, f) / 2.0
  {
    if f > 0 {
      ScaleHalf(y, f - 1);
    }
  }

  lemma {:induction false} UnscaleDouble(y: real, f: nat)
    ensures Unscale(2.0 * y, f) == 2.0 * Unscale(y, f)
  {
    if f > 0 {
      UnscaleDouble(y, f - 1);
    }
  }

  lemma {:induction false} UnscaleLinear(a: real, b: real, f: nat)
    ensures Unscale(a + b, f) == Unscale(a, f) + Unscale(b, f)
    ensures Unscale(-a, f) == -Unscale(a, f)
  {
    if f > 0 {
      UnscaleLinear(a, b, f - 1);
    }
  }

  /** Halving undoes doubling. */
  lemma {:induction false} UnscaleScale(x: real, f: nat)
    ensures Unscale(Scale(x, f), f) == x
    ensures Scale(Unscale(x, f), f) == x
  {
    if f > 0 {
      UnscaleScale(x, f - 1);
      UnscaleDouble(Scale(x, f - 1), f - 1);
      ScaleHalf(Unscale(x, f - 1), f - 1);
    }
  }

  /** The weight of bit i at fixed point f, scaled by 2^f, is 2^i. */
  lemma {:induction false} ScalePower(i: nat, f: nat)
    ensures Scale(Power(i - f), f) == Pow2(i) as real
    ensures Unscale(Pow2(i) as real, f) == Power(i - f)
  {
    if i >= f {
      ScalePow2(i - f, f);
    } else {
      ScaleAdd(Unscale(1.0, f - i), f - i, i);
      UnscaleScale(1.0, f - i);
      ScalePow2(0, i);
    }
    UnscaleScale(Power(i - f), f);
  }

  // ---------------------------------------------------------------- dec2bin

  /** The result of dec2bin(num, width, fixed_point, signed): the greedy magnitude bits of |num|
      in units of 2^-fixed_point, negated in two's complement unless num is positive; a negative
      num is refused when signed is false. */
  function DecToBits(num: real, w: nat, fp: nat, signed: bool): (r: Result<seq<Bit>>)
    ensures r.Err? <==> num < 0.0 && !signed
    ensures r.Err? ==> r.error == SignMismatch
    ensures r.Ok? ==> |r.value| == w
  {
    if num < 0.0 && !signed then Err(SignMismatch)
    else
      var b := Greedy(Scale(Abs(num), fp), w);
      Ok(if num > 0.0 then b else TwosComplement(b))
  }

  /** The library's dec2bin: refuse a negative value when unsigned, run the greedy loop on |num|,
      and negate the result unless num is positive. */
  method Dec2Bin(num: real, w: nat, fp: nat, signed: bool) returns (r: Result<seq<Bit>>)
    ensures r == DecToBits(num, w, fp, signed)
  {
    if num < 0.0 && !signed {
      return Err(SignMismatch);
    }
    var b := GreedyLoop(Abs(num), w, fp);
    if num > 0.0 {
      r := Ok(b);
    } else {
      var n := TwosComplement(b);
      r := Ok(n);
    }
  }

  /** dec2bin's loop: from the top index down, set a bit and take its weight 2^(idx - fixed_point)
      off the remaining magnitude whenever the magnitude covers it. */
  method GreedyLoop(magnitude: real, w: nat, fp: nat) returns (b: seq<Bit>)
    ensures b == Greedy(Scale(magnitude, fp), w)
  {
    var val := magnitude;
    var binary := new Bit[w](_ => 0);
    var idx: int := w - 1;
    ghost var done: seq<Bit> := [];
    assert binary[..] == Zeros(w) + done;
    while idx >= 0
      invariant -1 <= idx < w
      invariant binary[..] == Zeros(idx + 1) + done
      invariant Greedy(Scale(val, fp), idx + 1) + done == Greedy(Scale(magnitude, fp), w)
    {
      var bit;
      bit, val := TakeBit(val, idx, fp);
      SetTop(binary, idx, bit, done);
      done := [bit] + done;
      idx := idx - 1;
    }
    b := binary[..];
  }

  /** The body of dec2bin's loop for index idx: the bit is set, and its weight 2^(idx - fixed_point)
      taken off, exactly when the remaining magnitude covers the weight. */
  method TakeBit(val: real, idx: nat, fp: nat) returns (bit: Bit, rest: real)
    ensures bit == 1 <==> val >= Power(idx - fp)
    ensures rest == if bit == 1 then val - Power(idx - fp) else val
    ensures Greedy(Scale(val, fp), idx + 1) == Greedy(Scale(rest, fp), idx) + [bit]
  {
    var power := idx - fp;
    GreedyStep(val, idx, fp);
    bit, rest := 0, val;
    if val >= Power(power) {
      bit, rest := 1, val - Power(power);
    }
  }

  /** binary[idx] = bit over the zeros still below the bits already set. */
  method SetTop(binary: array<Bit>, idx: nat, bit: Bit, ghost done: seq<Bit>)
    requires binary[..] == Zeros(idx + 1) + done
    modifies binary
    ensures binary[..] == Zeros(idx) + ([bit] + done)
  {
    binary[idx] := bit;
    assert binary[..] == Zeros(idx) + ([bit] + done) by {
      forall k | 0 <= k < binary.Length
        ensures binary[k] == (Zeros(idx) + ([bit] + done))[k]
      {
        if k > idx {
          assert binary[k] == old(binary[..])[k];
        }
      }
    }
  }

  /** One iteration of dec2bin's loop is one unfolding of Greedy on the scaled magnitude. */
  lemma {:induction false} GreedyStep(val: real, idx: nat, fp: nat)
    ensures val >= Power(idx - fp) ==>
      Greedy(Scale(val, fp), idx + 1) == Greedy(Scale(val - Power(idx - fp), fp), idx) + [1]
    ensures val < Power(idx - fp) ==>
      Greedy(Scale(val, fp), idx + 1) == Greedy(Scale(val, fp), idx) + [0]
  {
    ScalePower(idx, fp);
    ScaleOrder(val, Power(idx - fp), fp);
    ScaleLinear(val, Power(idx - fp), fp);
  }

  /** dec2bin(0) is all zeros: the negation of the all-zero vector is itself. */
  lemma {:induction false} DecToBitsZero(w: nat, fp: nat, signed: bool)
    ensures DecToBits(0.0, w, fp, signed) == Ok(Zeros(w))
  {
    ScaleLinear(0.0, 0.0, fp);
    assert Greedy(0.0, w) == ToBits(0, w) by {
      GreedyIsToBits(0.0, w);
    }
    ToBitsZero(w);
    NegateZeros(w);
  }

  lemma {:induction false} NegateZeros(n: nat)
    ensures TwosComplement(Zeros(n)) == Zeros(n)
  {
    TwosComplementBits(Zeros(n));
    ZerosValue(n);
    ToBitsZero(n);
  }

  lemma {:induction false} DecToBitsPositive(num: real, w: nat, fp: nat, signed: bool)
    requires num > 0.0
    ensures DecToBits(num, w, fp, signed) == Ok(Greedy(Scale(num, fp), w))
  {
    assert Abs(num) == num;
  }

  /** No wrap-around for non-negative values: the result is the floor of the scaled magnitude,
      saturated at the all-ones pattern 2^w - 1. */
  lemma {:induction false} DecToBitsNonNegative(num: real, w: nat, fp: nat, signed: bool)
    requires num >= 0.0
    ensures Val(DecToBits(num, w, fp, signed).value) == Min(Scale(num, fp).Floor, Pow2(w) - 1)
  {
    if num == 0.0 {
      DecToBitsZero(w, fp, signed);
      ZerosValue(w);
      ScaleLinear(0.0, 0.0, fp);
    } else {
      DecToBitsPositive(num, w, fp, signed);
      ScaleOrder(num, 0.0, fp);
      ScaleLinear(0.0, 0.0, fp);
      GreedyValue(Scale(num, fp), w);
    }
  }

  /** An integer at or beyond 2^w - 1 saturates to all ones. */
  lemma {:induction false} DecToBitsSaturates(num: int, w: nat)
    requires num >= Pow2(w) - 1
    ensures DecToBits(num as real, w, 0, false) == Ok(Fill(1, w))
  {
    var b := DecToBits(num as real, w, 0, false).value;
    DecToBitsNonNegative(num as real, w, 0, false);
    FillValue(1, w);
    ValInjective(b, Fill(1, w));
  }

  /** A negative value gives the two's-complement pattern of minus its (saturated) magnitude. */
  lemma {:induction false} DecToBitsNegative(num: real, w: nat, fp: nat)
    requires num < 0.0
    ensures DecToBits(num, w, fp, true).value == ToBits(-Min(Scale(-num, fp).Floor, Pow2(w) - 1), w)
  {
    assert Abs(num) == -num;
    var x := Scale(-num, fp);
    ScaleOrder(-num, 0.0, fp);
    ScaleLinear(0.0, 0.0, fp);
    GreedyValue(x, w);
    NegatedPattern(Greedy(x, w), Min(x.Floor, Pow2(w) - 1), w);
  }

  lemma {:induction false} NegatedPattern(s: seq<Bit>, m: int, w: nat)
    requires |s| == w && Val(s) == m
    ensures TwosComplement(s) == ToBits(-m, w)
  {
    TwosComplementBits(s);
  }

  // ---------------------------------------------------------------- bin2dec

  /** The result of bin2dec(num, fixed_point, signed): the weighted sum of the bits, where a
      signed vector with top bit 1 is negated first and the sum then negated. An empty vector
      has no top bit to read and is refused. */
  function BitsToDec(s: seq<Bit>, fp: nat, signed: bool): (r: Result<real>)
    ensures r.Err? <==> |s| == 0
    ensures r.Err? ==> r.error == EmptyVector
  {
    if |s| == 0 then Err(EmptyVector)
    else
      var negative := signed && s[|s| - 1] == 1;
      var b := if negative then TwosComplement(s) else s;
      var v := Unscale(Val(b) as real, fp);
      Ok(if negative then -v else v)
  }

  /** One step of bin2dec's sum: adding the weight of bit i extends the prefix's value. */
  lemma {:induction false} SumStep(b: seq<Bit>, i: nat, fp: nat)
    requires i < |b|
    ensures Unscale(Val(b[..i + 1]) as real, fp)
      == Unscale(Val(b[..i]) as real, fp) + (if b[i] == 1 then Power(i - fp) else 0.0)
  {
    assert b[..i + 1] == b[..i] + [b[i]];
    ValSnoc(b[..i], b[i]);
    var bit := if b[i] == 1 then Pow2(i) else 0;
    assert Val(b[..i + 1]) == Val(b[..i]) + bit;
    UnscaleLinear(Val(b[..i]) as real, bit as real, fp);
    ScalePower(i, fp);
    UnscaleLinear(0.0, 0.0, fp);
  }

  /** The library's bin2dec: negate first when signed and the top bit is 1, then add up
      2^(i - fixed_point) for every set bit. */
  method Bin2Dec(s: seq<Bit>, fp: nat, signed: bool) returns (r: Result<real>)
    ensures r == BitsToDec(s, fp, signed)
  {
    var width := |s|;
    if width == 0 {
      return Err(EmptyVector);
    }
    var negative := s[width - 1] == 1 && signed;
    var b := if negative then TwosComplement(s) else s;
    var value := 0.0;
    UnscaleLinear(0.0, 0.0, fp);
    var i := 0;
    while i < |b|
      invariant 0 <= i <= |b|
      invariant value == Unscale(Val(b[..i]) as real, fp)
    {
      SumStep(b, i, fp);
      value := value + (if b[i] == 1 then Power(i - fp) else 0.0);
      i := i + 1;
    }
    assert b[..i] == b;
    r := Ok(if negative then -1.0 * value else value);
  }

  /** bin2dec reads the vector as an unsigned or a two's-complement number, divided by
      2^fixed_point. */
  lemma {:induction false} BitsToDecValue(s: seq<Bit>, fp: nat, signed: bool)
    requires |s| > 0
    ensures BitsToDec(s, fp, signed).value
      == Unscale((if signed then SignedVal(s) else Val(s)) as real, fp)
  {
    var n := |s|;
    if signed && s[n - 1] == 1 {
      TopBit(s);
      ValBound(s);
      TwosComplementValue(s);
      SplitArith(Pow2(n) - Val(s), Pow2(n), 0, Pow2(n) - Val(s));
      UnscaleLinear((Pow2(n) - Val(s)) as real, 0.0, fp);
    }
  }

  // ---------------------------------------------------------------- round trips

  /** num is a whole number of units 2^-fixed_point. */
  predicate Representable(num: real, fp: nat)
  {
    Scale(num, fp).Floor as real == Scale(num, fp)
  }

  /** dec2bin then bin2dec truncates an unsigned value that fits to a whole number of units, and
      so gives back every value that is such a whole number. */
  lemma {:induction false} UnsignedRoundTrip(num: real, w: nat, fp: nat)
    requires w > 0 && num >= 0.0 && Scale(num, fp) < Pow2(w) as real
    ensures DecToBits(num, w, fp, false).Ok?
    ensures BitsToDec(DecToBits(num, w, fp, false).value, fp, false)
      == Ok(Unscale(Scale(num, fp).Floor as real, fp))
    ensures Representable(num, fp) ==> BitsToDec(DecToBits(num, w, fp, false).value, fp, false) == Ok(num)
  {
    var b := DecToBits(num, w, fp, false).value;
    DecToBitsNonNegative(num, w, fp, false);
    BitsToDecValue(b, fp, false);
    UnscaleScale(num, fp);
  }

  /** A signed value whose scaled magnitude lies in [-2^(w-1), 2^(w-1)) and is a whole number
      comes back unchanged from dec2bin then bin2dec. */
  lemma {:induction false} SignedRoundTrip(num: real, w: nat, fp: nat)
    requires w > 0 && Representable(num, fp)
    requires -(Pow2(w - 1) as real) <= Scale(num, fp) < Pow2(w - 1) as real
    ensures DecToBits(num, w, fp, true).Ok?
    ensures BitsToDec(DecToBits(num, w, fp, true).value, fp, true) == Ok(num)
  {
    var b := DecToBits(num, w, fp, true).value;
    SignedDecToBits(num, w, fp);
    BitsToDecValue(b, fp, true);
    UnscaleScale(num, fp);
  }

  /** In range, the two's-complement value of dec2bin's pattern is the scaled value itself. */
  lemma {:induction false} SignedDecToBits(num: real, w: nat, fp: nat)
    requires w > 0 && Representable(num, fp)
    requires -(Pow2(w - 1) as real) <= Scale(num, fp) < Pow2(w - 1) as real
    ensures SignedVal(DecToBits(num, w, fp, true).value) as real == Scale(num, fp)
  {
    var b := DecToBits(num, w, fp, true).value;
    var m := Scale(num, fp).Floor;
    assert Pow2(w) == 2 * Pow2(w - 1);
    if num >= 0.0 {
      DecToBitsNonNegative(num, w, fp, true);
      TopBit(b);
    } else {
      DecToBitsNegative(num, w, fp);
      ScaleLinear(num, 0.0, fp);
      assert Scale(-num, fp).Floor == -m;
      ScaleOrder(num, 0.0, fp);
      ScaleLinear(0.0, 0.0, fp);
      NegativePattern(b, m, w);
    }
  }

  /** The w-bit pattern of a negative m >= -2^(w-1) has top bit 1 and two's-complement value m. */
  lemma {:induction false} NegativePattern(b: seq<Bit>, m: int, w: nat)
    requires w > 0 && -(Pow2(w - 1) as int) <= m < 0 && Pow2(w) == 2 * Pow2(w - 1)
    requires b == ToBits(m, w)
    ensures SignedVal(b) == m
  {
    ToBitsValue(m, w);
    SplitArith(m, Pow2(w), -1, m + Pow2(w));
    TopBit(b);
  }
}

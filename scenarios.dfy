/** The outputs the example scripts print (Ex01_BasicOperations.py, Ex02_Arithmetic.py). */
module Scenarios {
  import opened Results
  import opened Bits
  import opened Conversions
  import opened Text
  import opened Arithmetic
  import opened Variables

  /** An integer-valued number at fixed point 0 that fits is stored as its bits. */
  lemma {:induction false} WholeNumberBits(n: nat, w: nat, signed: bool)
    requires 0 < n < Pow2(w)
    ensures DecToBits(n as real, w, 0, signed) == Ok(ToBits(n, w))
  {
    assert Scale(n as real, 0) == n as real;
    assert Abs(n as real) == n as real;
    GreedyIsToBits(n as real, w);
  }

  /** The digits of short vectors, most significant first. */
  lemma Digits1(a: Bit)
    ensures MsbDigits([a]) == [BitChar(a)]
  {
    assert [a][1..] == [];
  }

  lemma Digits3(a: Bit, b: Bit, c: Bit)
    ensures MsbDigits([a, b, c]) == [BitChar(c), BitChar(b), BitChar(a)]
  {
    assert [a, b, c][1..] == [b, c];
    assert [b, c][1..] == [c];
    Digits1(c);
  }

  lemma Digits4(a: Bit, b: Bit, c: Bit, d: Bit)
    ensures MsbDigits([a, b, c, d]) == [BitChar(d), BitChar(c), BitChar(b), BitChar(a)]
  {
    assert [a, b, c, d][1..] == [b, c, d];
    Digits3(b, c, d);
  }

  /** Between five and eight bits print as the top group, a separator and the low four digits. */
  lemma {:induction false} GroupedTwo(s: seq<Bit>)
    requires 4 < |s| <= 8
    ensures Grouped(s) == MsbDigits(s[4..]) + "_" + MsbDigits(s[..4])
  {
    assert Grouped(s[4..]) == MsbDigits(s[4..]);
  }

  /** The bits and the printed forms of the vectors in the examples. */
  lemma TenBits()
    ensures ToBits(10, 5) == [0, 1, 0, 1, 0]
  {
    assert ToBits(0, 0) == [];
    assert ToBits(1, 1) == [1];
    assert ToBits(2, 2) == [0, 1];
    assert ToBits(5, 3) == [1, 0, 1];
    assert ToBits(10, 4) == [0, 1, 0, 1];
    assert ToBits(10, 5) == [0] + ToBits(5, 4);
    assert ToBits(5, 4) == [1] + ToBits(2, 3);
    assert ToBits(2, 3) == [0] + ToBits(1, 2);
    assert ToBits(1, 2) == [1] + ToBits(0, 1);
    assert ToBits(0, 1) == [0];
  }

  lemma RenderTen()
    ensures Render(ToBits(10, 5), true) == "5'b0_1010"
  {
    TenBits();
    var u: seq<Bit> := [0, 1, 0, 1, 0];
    GroupedTwo(u);
    assert u[4..] == [0] && u[..4] == [0, 1, 0, 1];
    Digits1(0);
    Digits4(0, 1, 0, 1);
    assert DecimalString(5) == "5";
  }

  lemma SumNarrowBits()
    ensures ToBits(18, 5) == [0, 1, 0, 0, 1]
  {
    assert ToBits(0, 0) == [] && ToBits(0, 1) == [0];
    assert ToBits(1, 1) == [1] && ToBits(2, 2) == [0, 1];
    assert ToBits(4, 3) == [0] + ToBits(2, 2);
    assert ToBits(9, 4) == [1] + ToBits(4, 3);
    assert ToBits(18, 5) == [0] + ToBits(9, 4);
  }

  lemma RenderSumNarrow()
    ensures Render(ToBits(18, 5), true) == "5'b1_0010"
  {
    SumNarrowBits();
    var u: seq<Bit> := [0, 1, 0, 0, 1];
    GroupedTwo(u);
    assert u[4..] == [1] && u[..4] == [0, 1, 0, 0];
    Digits1(1);
    Digits4(0, 1, 0, 0);
    assert DecimalString(5) == "5";
  }

  lemma SumWideBits()
    ensures ToBits(18, 8) == [0, 1, 0, 0, 1, 0, 0, 0]
  {
    assert ToBits(0, 0) == [] && ToBits(0, 1) == [0] && ToBits(0, 2) == [0, 0];
    assert ToBits(0, 3) == [0, 0, 0];
    assert ToBits(1, 4) == [1] + ToBits(0, 3);
    assert ToBits(2, 5) == [0] + ToBits(1, 4);
    assert ToBits(4, 6) == [0] + ToBits(2, 5);
    assert ToBits(9, 7) == [1] + ToBits(4, 6);
    assert ToBits(18, 8) == [0] + ToBits(9, 7);
  }

  lemma RenderSumWide()
    ensures Render(ToBits(18, 8), true) == "8'b0001_0010"
  {
    SumWideBits();
    var v: seq<Bit> := [0, 1, 0, 0, 1, 0, 0, 0];
    GroupedTwo(v);
    assert v[4..] == [1, 0, 0, 0] && v[..4] == [0, 1, 0, 0];
    Digits4(0, 1, 0, 0);
    Digits4(1, 0, 0, 0);
    assert DecimalString(8) == "8";
  }

  lemma DifferenceNarrowBits()
    ensures ToBits(2, 5) == [0, 1, 0, 0, 0]
  {
    assert ToBits(0, 0) == [] && ToBits(0, 1) == [0] && ToBits(0, 2) == [0, 0];
    assert ToBits(0, 3) == [0, 0, 0];
    assert ToBits(1, 4) == [1] + ToBits(0, 3);
    assert ToBits(2, 5) == [0] + ToBits(1, 4);
  }

  lemma RenderDifferenceNarrow()
    ensures Render(ToBits(2, 5), true) == "5'b0_0010"
  {
    DifferenceNarrowBits();
    var u: seq<Bit> := [0, 1, 0, 0, 0];
    GroupedTwo(u);
    assert u[4..] == [0] && u[..4] == [0, 1, 0, 0];
    Digits1(0);
    Digits4(0, 1, 0, 0);
    assert DecimalString(5) == "5";
  }

  lemma MinusOneBits()
    ensures ToBits(-1, 7) == [1, 1, 1, 1, 1, 1, 1]
  {
    assert ToBits(-1, 0) == [];
    assert ToBits(-1, 1) == [1];
    assert ToBits(-1, 2) == [1] + ToBits(-1, 1);
    assert ToBits(-1, 3) == [1] + ToBits(-1, 2);
    assert ToBits(-1, 4) == [1] + ToBits(-1, 3);
    assert ToBits(-1, 5) == [1] + ToBits(-1, 4);
    assert ToBits(-1, 6) == [1] + ToBits(-1, 5);
    assert ToBits(-1, 7) == [1] + ToBits(-1, 6);
  }

  lemma DifferenceWideBits()
    ensures ToBits(-2, 8) == [0, 1, 1, 1, 1, 1, 1, 1]
  {
    MinusOneBits();
    assert ToBits(-2, 8) == [0] + ToBits(-1, 7);
  }

  lemma RenderDifferenceWide()
    ensures Render(ToBits(-2, 8), true) == "8'b1111_1110"
  {
    DifferenceWideBits();
    var v: seq<Bit> := [0, 1, 1, 1, 1, 1, 1, 1];
    GroupedTwo(v);
    assert v[4..] == [1, 1, 1, 1] && v[..4] == [0, 1, 1, 1];
    Digits4(0, 1, 1, 1);
    Digits4(1, 1, 1, 1);
    assert DecimalString(8) == "8";
  }

  lemma ProductBits()
    ensures ToBits(80, 7) == [0, 0, 0, 0, 1, 0, 1]
  {
    assert ToBits(0, 0) == [];
    assert ToBits(1, 1) == [1];
    assert ToBits(2, 2) == [0, 1];
    assert ToBits(5, 3) == [1, 0, 1];
    assert ToBits(10, 4) == [0] + ToBits(5, 3);
    assert ToBits(20, 5) == [0] + ToBits(10, 4);
    assert ToBits(40, 6) == [0] + ToBits(20, 5);
    assert ToBits(80, 7) == [0] + ToBits(40, 6);
  }

  lemma RenderProduct()
    ensures Render(ToBits(80, 7), true) == "7'b101_0000"
  {
    ProductBits();
    var u: seq<Bit> := [0, 0, 0, 0, 1, 0, 1];
    GroupedTwo(u);
    assert u[4..] == [1, 0, 1] && u[..4] == [0, 0, 0, 0];
    Digits3(1, 0, 1);
    Digits4(0, 0, 0, 0);
    assert DecimalString(7) == "7";
  }

  lemma OneBits()
    ensures ToBits(1, 7) == [1, 0, 0, 0, 0, 0, 0]
  {
    assert ToBits(0, 0) == [] && ToBits(0, 1) == [0] && ToBits(0, 2) == [0, 0];
    assert ToBits(0, 3) == [0, 0, 0];
    assert ToBits(0, 4) == [0] + ToBits(0, 3);
    assert ToBits(0, 5) == [0] + ToBits(0, 4);
    assert ToBits(0, 6) == [0] + ToBits(0, 5);
    assert ToBits(1, 7) == [1] + ToBits(0, 6);
  }

  lemma RenderQuotient()
    ensures Render(ToBits(1, 7), true) == "7'b000_0001"
  {
    OneBits();
    var v: seq<Bit> := [1, 0, 0, 0, 0, 0, 0];
    GroupedTwo(v);
    assert v[4..] == [0, 0, 0] && v[..4] == [1, 0, 0, 0];
    Digits3(0, 0, 0);
    Digits4(1, 0, 0, 0);
    assert DecimalString(7) == "7";
  }

  /** A seven-bit vector with the value 1 is the bits of 1. */
  lemma {:induction false} SevenBitOne(q: seq<Bit>)
    requires |q| == 7 && Val(q) == 1
    ensures q == ToBits(1, 7)
  {
    ToBitsOfVal(q);
  }

  /** binary(10, width=5, signed=True, prefix=True) prints 5'b0_1010 and reads back as 10. */
  method DeclareSigned() returns (text: string, dec: real)
    ensures text == "5'b0_1010" && dec == 10.0
  {
    var r := New(Number(10.0), Some(5), 0, true, true);
    WholeNumberBits(10, 5, true);
    var v := r.value;
    text := v.Str();
    RenderTen();
    var d := v.Dec();
    BitsToDecValue(v.bits, 0, true);
    ToBitsValue(10, 5);
    dec := d.value;
  }

  /** 0.25 at fixed point 3 in four unsigned bits is 0010, which reads back as 0.25. */
  lemma FractionBits()
    ensures DecToBits(0.25, 4, 3, false) == Ok([0, 1, 0, 0])
    ensures Render([0, 1, 0, 0], false) == "0010"
    ensures BitsToDec([0, 1, 0, 0], 3, false) == Ok(0.25)
  {
    assert Scale(0.25, 3) == 2.0;
    assert Abs(0.25) == 0.25;
    GreedyIsToBits(2.0, 4);
    assert ToBits(2, 4) == [0, 1, 0, 0] by {
      assert ToBits(0, 2) == [0, 0];
      assert ToBits(1, 3) == [1] + ToBits(0, 2);
      assert ToBits(2, 4) == [0] + ToBits(1, 3);
    }
    Digits4(0, 1, 0, 0);
    BitsToDecValue([0, 1, 0, 0], 3, false);
    ToBitsValue(2, 4);
    assert Unscale(2.0, 3) == 0.25;
  }

  /** binary(0.25, width=4, fixed_point=3) prints 0010 and reads back as 0.25. */
  method DeclareFraction() returns (text: string, dec: real)
    ensures text == "0010" && dec == 0.25
  {
    FractionBits();
    var r := New(Number(0.25), Some(4), 3, false, false);
    var v := r.value;
    text := v.Str();
    var d := v.Dec();
    dec := d.value;
  }

  /** binary(n, width=w, signed=signed, prefix=True) for a whole number that fits. */
  method Whole(n: nat, w: nat, signed: bool) returns (v: Binary)
    requires 0 < n < Pow2(w)
    ensures fresh(v) && v.width == w && v.signed == signed && v.prefix && v.bits == ToBits(n, w)
  {
    WholeNumberBits(n, w, signed);
    var r := New(Number(n as real), Some(w), 0, signed, true);
    v := r.value;
  }

  lemma OperandValues()
    ensures Val(ToBits(10, 5)) == 10 && SignedVal(ToBits(10, 5)) == 10 && Val(ToBits(8, 8)) == 8
  {
    TenBits();
    EightBits();
  }

  lemma EightBits()
    ensures ToBits(8, 8) == [0, 0, 0, 1, 0, 0, 0, 0] && Val(ToBits(8, 8)) == 8
  {
    EightBitsLiteral();
    ToBitsValue(8, 8);
    assert Pow2(8) == 256;
  }

  lemma EightBitsLiteral()
    ensures ToBits(8, 8) == [0, 0, 0, 1, 0, 0, 0, 0]
  {
    assert ToBits(0, 0) == [] && ToBits(0, 1) == [0] && ToBits(0, 2) == [0, 0];
    assert ToBits(0, 3) == [0, 0, 0];
    assert ToBits(0, 4) == [0, 0, 0, 0];
    assert ToBits(1, 5) == [1] + ToBits(0, 4);
    assert ToBits(2, 6) == [0] + ToBits(1, 5);
    assert ToBits(4, 7) == [0] + ToBits(2, 6);
    assert ToBits(8, 8) == [0] + ToBits(4, 7);
  }

  /** The two variables of the arithmetic example: 10 at width 5, signed, and 8 at width 8. */
  method Operands() returns (a: Binary, b: Binary)
    ensures fresh(a) && fresh(b)
    ensures a.width == 5 && a.signed && a.prefix && a.bits == ToBits(10, 5)
    ensures b.width == 8 && !b.signed && b.prefix && b.bits == ToBits(8, 8)
    ensures Val(a.bits) == 10 && SignedVal(a.bits) == 10 && Val(b.bits) == 8
  {
    assert Pow2(5) == 32 && Pow2(8) == 256;
    a := Whole(10, 5, true);
    b := Whole(8, 8, false);
    OperandValues();
  }

  /** var1 + var2 prints 5'b1_0010 and var2 + var1 prints 8'b0001_0010. */
  method Addition() returns (left: string, right: string)
    ensures left == "5'b1_0010" && right == "8'b0001_0010"
  {
    var a, b := Operands();
    var s := a.Plus(b);
    var t := b.Plus(a);
    left := s.value.Str();
    right := t.value.Str();
    RenderSumNarrow();
    RenderSumWide();
  }

  /** var1 - var2 prints 5'b0_0010 and var2 - var1 prints 8'b1111_1110 (the comments in the
      example script repeat the sums instead). */
  method Subtraction() returns (left: string, right: string)
    ensures left == "5'b0_0010" && right == "8'b1111_1110"
  {
    var a, b := Operands();
    var s := a.Minus(b);
    var t := b.Minus(a);
    left := s.value.Str();
    right := t.value.Str();
    RenderDifferenceNarrow();
    RenderDifferenceWide();
  }

  /** mult(var1.bin, var2.bin, 7) is 7'b101_0000, that is 80. */
  method Multiplication() returns (text: string)
    ensures text == "7'b101_0000"
  {
    var a, b := Operands();
    var p := Mult(a.bits, b.bits, 7);
    text := Render(p, true);
    RenderProduct();
  }

  /** div(var1.bin, var2.bin, 7)[0] is 7'b000_0001: 10 / 8 gives 1, remainder 2. */
  method Division() returns (text: string, remainder: nat)
    ensures text == "7'b000_0001" && remainder == 2
  {
    var a, b := Operands();
    assert Pow2(7) == 128;
    var r := Div(a.bits, b.bits, 7);
    var q := r.value.0;
    assert Val(q) == 1 && Val(r.value.1) == 2 by {
      assert 10 % 128 == 10 && 8 % 128 == 8 && 10 / 8 == 1 && 10 % 8 == 2;
    }
    SevenBitOne(q);
    text := Render(q, true);
    RenderQuotient();
    remainder := Val(r.value.1);
  }

  lemma FourBitValues()
    ensures ToBits(10, 4) == [0, 1, 0, 1] && ToBits(4, 4) == [0, 0, 1, 0]
  {
    assert ToBits(0, 0) == [] && ToBits(0, 1) == [0] && ToBits(1, 1) == [1];
    assert ToBits(2, 2) == [0, 1] && ToBits(5, 3) == [1, 0, 1];
    assert ToBits(1, 2) == [1, 0] && ToBits(2, 3) == [0, 1, 0];
    assert ToBits(10, 4) == [0] + ToBits(5, 3);
    assert ToBits(4, 4) == [0] + ToBits(2, 3);
  }

  lemma RenderFourBits()
    ensures Render(ToBits(10, 4), false) == "1010" && Render(ToBits(4, 4), false) == "0100"
  {
    FourBitValues();
    Digits4(0, 1, 0, 1);
    Digits4(0, 0, 1, 0);
  }

  /** binary(10, width=4) prints 1010; after var.dec = 4 it prints 0100 and reads back as 4. */
  method DeclareBasic() returns (first: string, second: string, dec: real)
    ensures first == "1010" && second == "0100" && dec == 4.0
  {
    var v;
    v, first := DeclareTen();
    second, dec := AssignFour(v);
  }

  /** binary(10, width=4), printed. */
  method DeclareTen() returns (v: Binary, text: string)
    ensures fresh(v) && v.width == 4 && !v.signed && v.fixedPoint == 0 && !v.prefix
    ensures text == "1010"
  {
    WholeNumberBits(10, 4, false);
    var r := New(Number(10.0), Some(4), 0, false, false);
    v := r.value;
    text := v.Str();
    RenderFourBits();
  }

  /** var.dec = 4 on a four-bit unsigned variable at fixed point 0, then printed and read back. */
  method AssignFour(v: Binary) returns (text: string, dec: real)
    requires v.width == 4 && !v.signed && v.fixedPoint == 0 && !v.prefix
    modifies v
    ensures text == "0100" && dec == 4.0
  {
    WholeNumberBits(4, 4, false);
    var status := v.SetDec(4.0);
    text := v.Str();
    RenderFourBits();
    var d := v.Dec();
    BitsToDecValue(v.bits, 0, false);
    ToBitsValue(4, 4);
    dec := d.value;
  }

  /** var2.bin = var1.bin[0:4] stores the low four bits of 10 in a four-bit variable: 4'b1010. */
  method SliceAssign() returns (text: string)
    ensures text == "4'b1010"
  {
    var a := Whole(10, 5, true);
    DecToBitsZero(4, 0, false);
    var r := New(Number(0.0), Some(4), 0, false, true);
    var b := r.value;
    TenBits();
    var status := b.SetBin(a.bits[0..4]);
    text := b.Str();
    assert b.bits == [0, 1, 0, 1];
    Digits4(0, 1, 0, 1);
    assert DecimalString(4) == "4";
  }

  lemma ElevenBits()
    ensures ToBits(11, 5) == [1, 1, 0, 1, 0]
  {
    assert ToBits(0, 0) == [] && ToBits(0, 1) == [0] && ToBits(1, 2) == [1, 0];
    assert ToBits(2, 3) == [0] + ToBits(1, 2);
    assert ToBits(5, 4) == [1] + ToBits(2, 3);
    assert ToBits(11, 5) == [1] + ToBits(5, 4);
  }

  lemma RenderEleven()
    ensures Render(ToBits(11, 5), true) == "5'b0_1011"
  {
    ElevenBits();
    var u: seq<Bit> := [1, 1, 0, 1, 0];
    GroupedTwo(u);
    assert u[4..] == [0] && u[..4] == [1, 1, 0, 1];
    Digits1(0);
    Digits4(1, 1, 0, 1);
    assert DecimalString(5) == "5";
  }

  /** binary(10, width=5, signed) + binary(1, width=5, signed) prints 5'b0_1011. */
  method Increment() returns (text: string)
    ensures text == "5'b0_1011"
  {
    assert Pow2(5) == 32;
    var a := Whole(10, 5, true);
    var b := Whole(1, 5, true);
    TenBits();
    ToBitsValue(10, 5);
    ToBitsValue(1, 5);
    var c := a.Plus(b);
    text := c.value.Str();
    RenderEleven();
  }
}

/** The binary variable (binary_operation.py: class binary, binary_resize). */
module Variables {
  import opened Results
  import opened Bits
  import opened Adder
  import opened Widths
  import opened Conversions
  import opened Hex
  import opened Text
  import opened Arithmetic

  /** What a variable can be set from; the library tells these apart by their Python type.
      Other is another binary variable, of which set_value reads the width and the decimal value. */
  datatype Input =
    | Number(x: real)
    | Array(v: seq<Bit>)
    | HexText(text: string)
    | Other(width: nat, bits: seq<Bit>, fixedPoint: nat, signed: bool)

  /** How an assignment ended: normally, or with the exception the library raises. */
  datatype Status = Done | Failed(error: Error)

  /** The value another variable shows through its dec property. */
  function OtherDec(value: Input): Result<real>
    requires value.Other?
  {
    BitsToDec(value.bits, value.fixedPoint, value.signed)
  }

  /** The width the constructor settles on: the given one, else that of an array or another
      variable; any other value without a width is refused. */
  function ChosenWidth(value: Input, width: Option<nat>): (r: Result<nat>)
    ensures r.Err? <==> width.None? && !(value.Array? || value.Other?)
    ensures r.Ok? && width.Some? ==> r.value == width.value
    ensures r.Ok? && width.None? && value.Array? ==> r.value == |value.v|
    ensures r.Ok? && width.None? && value.Other? ==> r.value == value.width
  {
    match width
    case Some(w) => Ok(w)
    case None =>
      if value.Array? then Ok(|value.v|)
      else if value.Other? then Ok(value.width)
      else Err(InvalidArgument)
  }

  class Binary {
    var width: nat
    var signed: bool
    var fixedPoint: nat
    var prefix: bool
    var bits: seq<Bit>

    /** The metadata the constructor stores before it assigns a value. */
    constructor Init(w: nat, s: bool, fp: nat, p: bool)
      ensures width == w && signed == s && fixedPoint == fp && prefix == p && bits == []
    {
      width, signed, fixedPoint, prefix, bits := w, s, fp, p, [];
    }

    /** The dec property: bin2dec of the bits with the variable's fixed point and sign. */
    function Dec(): (r: Result<real>)
      reads this
      ensures r.Err? <==> |bits| == 0
    {
      BitsToDec(bits, fixedPoint, signed)
    }

    /** The hex property. */
    function HexString(): (r: string)
      reads this
      ensures ShowsHex(r, bits, prefix)
    {
      BitsToHexShows(bits, prefix);
      BitsToHex(bits, prefix)
    }

    /** str(var): binary_string of the variable. */
    function Str(): (r: string)
      reads this
      ensures Shows(r, bits, prefix)
    {
      RenderShows(bits, prefix);
      Render(bits, prefix)
    }

    /** round(var, width): rnd of the bits. */
    function Round(w: nat): (r: Result<seq<Bit>>)
      reads this
      ensures r.Err? <==> w >= |bits|
    {
      Rnd(bits, w)
    }

    /** set_value: stores the bits for the value, then recomputes the decimal cache, which fails
        on a zero-width vector (and, for hexadecimal text, always, after the bits are stored). */
    method SetValue(value: Input) returns (status: Status)
      modifies this
      ensures width == old(width) && signed == old(signed) && fixedPoint == old(fixedPoint)
      ensures prefix == old(prefix)
      ensures value.Other? && OtherDec(value).Err? ==> status == Failed(EmptyVector) && bits == old(bits)
      ensures value.Other? && OtherDec(value).Ok? && OtherDec(value).value < 0.0 && !signed ==>
                status == Failed(SignMismatch) && bits == old(bits)
      ensures value.Other? && OtherDec(value).Ok? && !(OtherDec(value).value < 0.0 && !signed) ==>
                bits == DecToBits(OtherDec(value).value, width, fixedPoint, signed).value &&
                status == (if width == 0 then Failed(EmptyVector) else Done)
      ensures value.Number? && value.x < 0.0 && !signed ==> status == Failed(SignMismatch) && bits == old(bits)
      ensures value.Number? && !(value.x < 0.0 && !signed) ==>
                bits == DecToBits(value.x, width, fixedPoint, signed).value &&
                status == (if width == 0 then Failed(EmptyVector) else Done)
      ensures value.Array? && !ResizeDefined(value.v, width, signed) ==>
                status == Failed(EmptyVector) && bits == old(bits)
      ensures value.Array? && ResizeDefined(value.v, width, signed) ==>
                bits == Resize(value.v, width, signed) &&
                status == (if |value.v| == 0 then Failed(EmptyVector) else Done)
      ensures value.HexText? && HexToBits(value.text, width).Err? ==>
                status == Failed(InvalidArgument) && bits == old(bits)
      ensures value.HexText? && HexToBits(value.text, width).Ok? ==>
                bits == HexToBits(value.text, width).value && status == Failed(NotAnArray)
      ensures status == Done ==> |bits| == width
    {
      match value
      case Other(_, b, fp, s) =>
        var d := Bin2Dec(b, fp, s);
        if d.Err? {
          return Failed(d.error);
        }
        if d.value < 0.0 && !signed {
          return Failed(SignMismatch);
        }
        var r := Dec2Bin(d.value, width, fixedPoint, signed);
        bits := r.value;
        status := DecCache();
      case Number(x) =>
        var r := Dec2Bin(x, width, fixedPoint, signed);
        if r.Err? {
          return Failed(r.error);
        }
        bits := r.value;
        status := DecCache();
      case Array(v) =>
        if signed && |v| < width && |v| == 0 {
          return Failed(EmptyVector);
        }
        bits := Resize(v, width, signed);
        var d := Bin2Dec(v, fixedPoint, signed);
        status := if d.Err? then Failed(d.error) else Done;
      case HexText(t) =>
        var r := Hex2Bin(t, width);
        if r.Err? {
          return Failed(r.error);
        }
        bits := r.value;
        status := Failed(NotAnArray);
    }

    /** The bin2dec that refreshes the decimal cache after the bits are stored. */
    method DecCache() returns (status: Status)
      ensures status == (if |bits| == 0 then Failed(EmptyVector) else Done)
    {
      var d := Bin2Dec(bits, fixedPoint, signed);
      status := if d.Err? then Failed(d.error) else Done;
    }

    /** __call__: every metadata argument that is given replaces the stored one, then the value
        is assigned with set_value. */
    method Reset(value: Input, w: Option<nat>, fp: Option<nat>, s: Option<bool>, p: Option<bool>)
      returns (status: Status)
      modifies this
      ensures width == (if w.Some? then w.value else old(width))
      ensures fixedPoint == (if fp.Some? then fp.value else old(fixedPoint))
      ensures signed == (if s.Some? then s.value else old(signed))
      ensures prefix == (if p.Some? then p.value else old(prefix))
      ensures status == Done ==> |bits| == width
      ensures value.Other? && OtherDec(value).Err? ==> status == Failed(EmptyVector) && bits == old(bits)
      ensures value.Other? && OtherDec(value).Ok? && OtherDec(value).value < 0.0 && !signed ==>
                status == Failed(SignMismatch) && bits == old(bits)
      ensures value.Other? && OtherDec(value).Ok? && !(OtherDec(value).value < 0.0 && !signed) ==>
                bits == DecToBits(OtherDec(value).value, width, fixedPoint, signed).value &&
                status == (if width == 0 then Failed(EmptyVector) else Done)
      ensures value.Number? && value.x < 0.0 && !signed ==> status == Failed(SignMismatch) && bits == old(bits)
      ensures value.Number? && !(value.x < 0.0 && !signed) ==>
                bits == DecToBits(value.x, width, fixedPoint, signed).value &&
                status == (if width == 0 then Failed(EmptyVector) else Done)
      ensures value.Array? && !ResizeDefined(value.v, width, signed) ==>
                status == Failed(EmptyVector) && bits == old(bits)
      ensures value.Array? && ResizeDefined(value.v, width, signed) ==>
                bits == Resize(value.v, width, signed) &&
                status == (if |value.v| == 0 then Failed(EmptyVector) else Done)
      ensures value.HexText? && HexToBits(value.text, width).Err? ==>
                status == Failed(InvalidArgument) && bits == old(bits)
      ensures value.HexText? && HexToBits(value.text, width).Ok? ==>
                bits == HexToBits(value.text, width).value && status == Failed(NotAnArray)
    {
      width := if w.Some? then w.value else width;
      signed := if s.Some? then s.value else signed;
      fixedPoint := if fp.Some? then fp.value else fixedPoint;
      prefix := if p.Some? then p.value else prefix;
      status := SetValue(value);
    }

    /** The dec setter: dec2bin of the number with the variable's metadata. */
    method SetDec(x: real) returns (status: Status)
      modifies this
      ensures width == old(width) && signed == old(signed) && fixedPoint == old(fixedPoint)
      ensures prefix == old(prefix)
      ensures x < 0.0 && !signed ==> status == Failed(SignMismatch) && bits == old(bits)
      ensures !(x < 0.0 && !signed) ==> bits == DecToBits(x, width, fixedPoint, signed).value
      ensures !(x < 0.0 && !signed) ==> status == (if width == 0 then Failed(EmptyVector) else Done)
    {
      var r := Dec2Bin(x, width, fixedPoint, signed);
      if r.Err? {
        return Failed(r.error);
      }
      bits := r.value;
      status := DecCache();
    }

    /** The bin setter: the array is stored as it is, whatever its length. */
    method SetBin(v: seq<Bit>) returns (status: Status)
      modifies this
      ensures width == old(width) && signed == old(signed) && fixedPoint == old(fixedPoint)
      ensures prefix == old(prefix) && bits == v
      ensures status == (if |v| == 0 then Failed(EmptyVector) else Done)
    {
      bits := v;
      status := DecCache();
    }

    /** The prefix setter. */
    method SetPrefix(p: bool)
      modifies this
      ensures width == old(width) && signed == old(signed) && fixedPoint == old(fixedPoint)
      ensures bits == old(bits) && prefix == p
    {
      prefix := p;
    }

    /** __add__: add the other variable, resized without sign extension to this width; the
        result is a new variable with this variable's metadata. Neither operand changes. */
    method Plus(num: Binary) returns (r: Result<Binary>)
      requires |bits| >= width
      ensures r.Err? <==> width == 0
      ensures r.Err? ==> r.error == EmptyVector
      ensures r.Ok? ==> fresh(r.value)
      ensures r.Ok? ==> r.value.width == width && r.value.signed == signed
      ensures r.Ok? ==> r.value.fixedPoint == fixedPoint && r.value.prefix == prefix
      ensures r.Ok? ==> r.value.bits == Sum(bits, Resize(num.bits, width, false), width)
      ensures r.Ok? ==> r.value.bits == ToBits(Val(bits) + Val(num.bits), width)
    {
      var tmp := Add(bits, Resize(num.bits, width, false), width);
      SumWrapped(bits, num.bits, width);
      r := New(Array(tmp), Some(width), fixedPoint, signed, prefix);
    }

    /** __sub__: add the two's complement of the other variable, resized to this width with the
        other variable's own sign; a new variable with this variable's metadata. */
    method Minus(num: Binary) returns (r: Result<Binary>)
      requires |bits| >= width && ResizeDefined(num.bits, width, num.signed)
      ensures r.Err? <==> width == 0
      ensures r.Err? ==> r.error == EmptyVector
      ensures r.Ok? ==> fresh(r.value)
      ensures r.Ok? ==> r.value.width == width && r.value.signed == signed
      ensures r.Ok? ==> r.value.fixedPoint == fixedPoint && r.value.prefix == prefix
      ensures r.Ok? ==> r.value.bits == Sum(bits, TwosComplement(Resize(num.bits, width, num.signed)), width)
      ensures r.Ok? ==> r.value.bits == ToBits(Val(bits) - ReadAs(num.bits, num.signed), width)
    {
      var tmp := Add(bits, TwosComplement(Resize(num.bits, width, num.signed)), width);
      DifferenceWrapped(bits, num.bits, width, num.signed);
      r := New(Array(tmp), Some(width), fixedPoint, signed, prefix);
    }
  }

  /** The integer a vector stands for under a signedness. */
  function ReadAs(s: seq<Bit>, signed: bool): int
  {
    if signed then SignedVal(s) else Val(s)
  }

  /** binary(value, width, fixed_point, signed, prefix): the width is settled, the metadata
      stored, and the value assigned; any failure of set_value fails the construction. */
  method New(value: Input, width: Option<nat>, fp: nat, signed: bool, prefix: bool)
    returns (r: Result<Binary>)
    ensures ChosenWidth(value, width).Err? ==> r == Err(InvalidArgument)
    ensures r.Ok? ==> ChosenWidth(value, width).Ok? && fresh(r.value)
    ensures r.Ok? ==> r.value.width == ChosenWidth(value, width).value
    ensures r.Ok? ==> r.value.signed == signed && r.value.fixedPoint == fp && r.value.prefix == prefix
    ensures r.Ok? ==> |r.value.bits| == r.value.width
    ensures value.Array? && r.Err? && ChosenWidth(value, width).Ok? ==> r.error == EmptyVector
    ensures value.HexText? ==> r.Err?
    ensures value.Array? && ChosenWidth(value, width).Ok? ==>
              (r.Ok? <==> ResizeDefined(value.v, ChosenWidth(value, width).value, signed) && |value.v| > 0)
    ensures value.Array? && r.Ok? ==> r.value.bits == Resize(value.v, r.value.width, signed)
    ensures value.Number? && ChosenWidth(value, width).Ok? ==>
              (r.Ok? <==> !(value.x < 0.0 && !signed) && ChosenWidth(value, width).value > 0)
    ensures value.Number? && r.Ok? ==> r.value.bits == DecToBits(value.x, r.value.width, fp, signed).value
    ensures value.Other? && OtherDec(value).Err? ==> r == Err(EmptyVector)
    ensures value.Other? && OtherDec(value).Ok? && OtherDec(value).value < 0.0 && !signed ==>
              r == Err(SignMismatch)
    ensures value.Other? && OtherDec(value).Ok? && !(OtherDec(value).value < 0.0 && !signed) ==>
              (r.Ok? <==> ChosenWidth(value, width).value > 0)
    ensures value.Other? && r.Ok? ==>
              r.value.bits == DecToBits(OtherDec(value).value, r.value.width, fp, signed).value
    ensures value.HexText? && ChosenWidth(value, width).Ok? ==>
              r.error == (if HexToBits(value.text, ChosenWidth(value, width).value).Err?
                          then InvalidArgument else NotAnArray)
  {
    var w := ChosenWidth(value, width);
    if w.Err? {
      return Err(w.error);
    }
    var b := new Binary.Init(w.value, signed, fp, prefix);
    var status := b.SetValue(value);
    if status.Failed? {
      return Err(status.error);
    }
    r := Ok(b);
  }

  /** binary_resize: a new variable holding the bits resized with the variable's own sign, its
      width taken from the resized array, the other metadata copied. */
  method BinaryResize(num: Binary, width: nat) returns (r: Result<Binary>)
    requires ResizeDefined(num.bits, width, num.signed)
    ensures r.Err? <==> width == 0
    ensures r.Ok? ==> fresh(r.value) && r.value.width == width && r.value.signed == num.signed
    ensures r.Ok? ==> r.value.fixedPoint == num.fixedPoint && r.value.prefix == num.prefix
    ensures r.Ok? ==> r.value.bits == Resize(num.bits, width, num.signed)
    ensures r.Ok? && 0 < |num.bits| <= width ==> r.value.Dec() == num.Dec()
  {
    var tmp := Resize(num.bits, width, num.signed);
    r := New(Array(tmp), None, num.fixedPoint, num.signed, num.prefix);
    if r.Ok? && 0 < |num.bits| <= width {
      ResizeKeepsReading(num.bits, width, num.signed, num.fixedPoint);
    }
  }

  /** Growing a vector with its own sign leaves what bin2dec reads from it unchanged. */
  lemma {:induction false} ResizeKeepsReading(s: seq<Bit>, w: nat, signed: bool, fp: nat)
    requires 0 < |s| <= w
    ensures BitsToDec(Resize(s, w, signed), fp, signed) == BitsToDec(s, fp, signed)
  {
    var t := Resize(s, w, signed);
    BitsToDecValue(s, fp, signed);
    BitsToDecValue(t, fp, signed);
    if signed {
      ResizeSignedValue(s, w);
    } else {
      ResizeKeepsValue(s, w, false);
    }
  }

  /** __add__'s bits are the sum of the two values modulo 2^width. */
  lemma {:induction false} SumWrapped(a: seq<Bit>, b: seq<Bit>, w: nat)
    requires |a| >= w
    ensures Sum(a, Resize(b, w, false), w) == ToBits(Val(a) + Val(b), w)
  {
    var rb := Resize(b, w, false);
    SumBits(a, rb, w);
    ResizeUnsignedValue(b, w);
    SumMod(Val(a), Val(b), Pow2(w));
    ToBitsCongruent(Val(a) + Val(rb), Val(a) + Val(b), w);
  }

  lemma {:induction false} SumMod(x: int, y: int, m: int)
    requires m > 0
    ensures (x + y % m) % m == (x + y) % m
  {
    DivModUnique(x + y, m, (x + y % m) / m + y / m, (x + y % m) % m);
  }

  /** A resized vector and the vector read with the same sign agree modulo 2^width. */
  lemma {:induction false} ResizeCongruent(s: seq<Bit>, w: nat, signed: bool)
    requires ResizeDefined(s, w, signed)
    ensures Val(Resize(s, w, signed)) % Pow2(w) == ReadAs(s, signed) % Pow2(w)
  {
    if w <= |s| {
      TruncateCongruent(s, w, signed);
    } else if signed && |s| > 0 {
      var t := Resize(s, w, signed);
      ResizeSignedValue(s, w);
      ModMinusMultiple(Val(t), if t[w - 1] == 1 then 1 else 0, Pow2(w));
    } else {
      ResizeKeepsValue(s, w, signed);
    }
  }

  lemma {:induction false} TruncateCongruent(s: seq<Bit>, w: nat, signed: bool)
    requires w <= |s|
    ensures Val(Resize(s, w, signed)) % Pow2(w) == ReadAs(s, signed) % Pow2(w)
  {
    var p, v := Pow2(w), Val(s) as int;
    ResizeUnsignedOrTruncated(s, w, signed);
    DivModUnique(v % p, p, 0, v % p);
    if signed && |s| > 0 && s[|s| - 1] == 1 {
      var k := Pow2(|s| - w);
      Pow2Add(w, |s| - w);
      assert SignedVal(s) == v - k * p;
      ModMinusMultiple(v, k, p);
    }
  }

  lemma {:induction false} ResizeUnsignedOrTruncated(s: seq<Bit>, w: nat, signed: bool)
    requires w <= |s|
    ensures Val(Resize(s, w, signed)) == Val(s) % Pow2(w)
  {
    ResizeTruncates(s, w, signed);
    ToBitsValue(Val(s), w);
  }

  lemma {:induction false} ModMinusMultiple(x: int, k: int, m: int)
    requires m > 0
    ensures (x - k * m) % m == x % m
  {
    DivModUnique(x - k * m, m, x / m - k, x % m);
  }

  /** __sub__'s bits are this value minus the other, read with its own sign, modulo 2^width. */
  lemma {:induction false} DifferenceWrapped(a: seq<Bit>, b: seq<Bit>, w: nat, signed: bool)
    requires |a| >= w && ResizeDefined(b, w, signed)
    ensures Sum(a, TwosComplement(Resize(b, w, signed)), w) == ToBits(Val(a) - ReadAs(b, signed), w)
  {
    var rb := Resize(b, w, signed);
    var nb := TwosComplement(rb);
    SumBits(a, nb, w);
    TwosComplementBits(rb);
    ToBitsValue(-(Val(rb) as int), w);
    ResizeCongruent(b, w, signed);
    SubCongruent(Val(a), Val(rb), ReadAs(b, signed), Pow2(w));
    ToBitsCongruent(Val(a) + Val(nb), Val(a) - ReadAs(b, signed), w);
  }

  lemma {:induction false} SubCongruent(x: int, y: int, z: int, m: int)
    requires m > 0 && y % m == z % m
    ensures (x + (-y) % m) % m == (x - z) % m
  {
    SumMod(x, -y, m);
    var q1, q2, q3 := (x - z) / m, z / m, y / m;
    assert x - z == q1 * m + (x - z) % m;
    assert z - y == (q2 - q3) * m;
    assert x - y == (q1 + q2 - q3) * m + (x - z) % m;
    DivModUnique(x - y, m, q1 + q2 - q3, (x - z) % m);
  }
}

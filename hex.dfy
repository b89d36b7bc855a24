/** Hexadecimal conversions (binary_operation.py: hex2bin, hex2dec, bin2hex). */
module Hex {
  import opened Results
  import opened Bits
  import opened Text
  import opened Conversions
  import Widths

  // ---------------------------------------------------------------- digits

  predicate IsHexChar(c: char)
  {
    '0' <= c <= '9' || 'a' <= c <= 'f' || 'A' <= c <= 'F'
  }

  predicate AllHex(t: string)
  {
    forall i :: 0 <= i < |t| ==> IsHexChar(t[i])
  }

  /** The value of one hexadecimal digit; a-f and A-F both stand for 10-15. */
  function HexValue(c: char): (d: nat)
    requires IsHexChar(c)
    ensures d < 16
  {
    if '0' <= c <= '9' then c as int - '0' as int
    else if 'a' <= c <= 'f' then c as int - 'a' as int + 10
    else c as int - 'A' as int + 10
  }

  /** The digit bin2hex writes for 0-15: decimal digits, then upper-case A-F. */
  function HexChar(d: nat): (c: char)
    requires d < 16
    ensures IsHexChar(c) && HexValue(c) == d
    ensures !('a' <= c <= 'f')
  {
    if d < 10 then DigitChar(d) else ('A' as int + (d - 10)) as char
  }

  function UpperChar(c: char): char
  {
    if 'a' <= c <= 'f' then (c as int - 'a' as int + 'A' as int) as char else c
  }

  /** The text with a-f turned into A-F, one character at a time. */
  function Upper(t: string): (r: string)
    ensures |r| == |t|
  {
    if |t| == 0 then "" else Upper(t[..|t| - 1]) + [UpperChar(t[|t| - 1])]
  }

  /** The number a hexadecimal numeral denotes, most significant digit first. */
  function HexNumber(t: string): nat
    requires AllHex(t)
  {
    if |t| == 0 then 0
    else
      assert IsHexChar(t[|t| - 1]);
      16 * HexNumber(t[..|t| - 1]) + HexValue(t[|t| - 1])
  }

  // ---------------------------------------------------------------- hex2bin

  /** The four bits hex2bin writes for one digit, least significant first. */
  function Nibble(c: char): (r: seq<Bit>)
    requires IsHexChar(c)
    ensures |r| == 4
  {
    ToBits(HexValue(c), 4)
  }

  /** The digits' nibbles, the last digit in the lowest four bits. */
  function Nibbles(t: string): (r: seq<Bit>)
    requires AllHex(t)
    ensures |r| == 4 * |t|
  {
    if |t| == 0 then []
    else
      assert IsHexChar(t[|t| - 1]);
      Nibble(t[|t| - 1]) + Nibbles(t[..|t| - 1])
  }

  /** The result of hex2bin(hex_str, width): the nibbles of the digits, zero above them; a width
      below four bits per digit, or a character that is not a hexadecimal digit, is refused. */
  function HexToBits(t: string, w: nat): (r: Result<seq<Bit>>)
    ensures r.Err? <==> w < 4 * |t| || !AllHex(t)
    ensures r.Err? ==> r.error == InvalidArgument
    ensures r.Ok? ==> |r.value| == w
  {
    if w < 4 * |t| then Err(InvalidArgument)
    else if !AllHex(t) then Err(InvalidArgument)
    else Ok(Nibbles(t) + Zeros(w - 4 * |t|))
  }

  /** Putting a digit in front of the text puts its nibble on top. */
  lemma {:induction false} NibblesCons(c: char, u: string)
    requires IsHexChar(c) && AllHex(u)
    ensures AllHex([c] + u)
    ensures Nibbles([c] + u) == Nibbles(u) + Nibble(c)
    decreases |u|
  {
    var t := [c] + u;
    AllHexCons(c, u);
    if |u| == 0 {
      assert t[..0] == "";
    } else {
      var front := u[..|u| - 1];
      var last := u[|u| - 1];
      AllHexPrefix(u, |u| - 1);
      NibblesCons(c, front);
      assert t[..|t| - 1] == [c] + front;
      assert t[|t| - 1] == last;
      assert Nibbles(t) == Nibble(last) + Nibbles([c] + front);
      assert Nibbles(u) == Nibble(last) + Nibbles(front);
    }
  }

  lemma {:induction false} AllHexCons(c: char, u: string)
    requires IsHexChar(c) && AllHex(u)
    ensures AllHex([c] + u)
  {
    var t := [c] + u;
    forall i | 0 <= i < |t|
      ensures IsHexChar(t[i])
    {
      if i > 0 {
        assert t[i] == u[i - 1];
      }
    }
  }

  lemma {:induction false} AllHexPrefix(u: string, k: nat)
    requires AllHex(u) && k <= |u|
    ensures AllHex(u[..k])
  {
    forall i | 0 <= i < k
      ensures IsHexChar(u[..k][i])
    {
      assert u[..k][i] == u[i];
    }
  }

  /** Digit k from the right fills bits 4k .. 4k+3. */
  lemma {:induction false} NibblePlacement(t: string, k: nat)
    requires AllHex(t) && k < |t|
    ensures Nibbles(t)[4 * k..4 * k + 4] == Nibble(t[|t| - 1 - k])
    decreases |t|
  {
    var front := t[..|t| - 1];
    assert AllHex(front) by {
      assert forall i :: 0 <= i < |front| ==> front[i] == t[i];
    }
    assert IsHexChar(t[|t| - 1]);
    var low := Nibble(t[|t| - 1]);
    assert Nibbles(t) == low + Nibbles(front);
    if k > 0 {
      NibblePlacement(front, k - 1);
      assert front[|front| - 1 - (k - 1)] == t[|t| - 1 - k];
      SliceAfter(low, Nibbles(front), 4 * k, 4 * k + 4);
    }
  }

  lemma {:induction false} SliceAfter(a: seq<Bit>, b: seq<Bit>, i: nat, j: nat)
    requires |a| <= i <= j <= |a| + |b|
    ensures (a + b)[i..j] == b[i - |a|..j - |a|]
  {
  }

  /** hex2bin's result: every digit in its nibble, and zero in every bit above 4 * |hex_str|. */
  lemma {:induction false} HexToBitsLayout(t: string, w: nat)
    requires AllHex(t) && 4 * |t| <= w
    ensures forall k :: 0 <= k < |t| ==> HexToBits(t, w).value[4 * k..4 * k + 4] == Nibble(t[|t| - 1 - k])
    ensures forall i :: 4 * |t| <= i < w ==> HexToBits(t, w).value[i] == 0
  {
    var r := HexToBits(t, w).value;
    forall k | 0 <= k < |t|
      ensures r[4 * k..4 * k + 4] == Nibble(t[|t| - 1 - k])
    {
      NibblePlacement(t, k);
      assert r[4 * k..4 * k + 4] == Nibbles(t)[4 * k..4 * k + 4];
    }
  }

  /** The vector hex2bin builds has the numeral's value. */
  lemma {:induction false} NibblesValue(t: string)
    requires AllHex(t)
    ensures Val(Nibbles(t)) == HexNumber(t)
    decreases |t|
  {
    if |t| > 0 {
      var front := t[..|t| - 1];
      assert AllHex(front) by {
        assert forall i :: 0 <= i < |front| ==> front[i] == t[i];
      }
      assert IsHexChar(t[|t| - 1]);
      NibblesValue(front);
      NibbleValue(t[|t| - 1]);
      ValConcat(Nibble(t[|t| - 1]), Nibbles(front));
    }
  }

  lemma {:induction false} NibbleValue(c: char)
    requires IsHexChar(c)
    ensures Val(Nibble(c)) == HexValue(c) && Pow2(|Nibble(c)|) == 16
  {
    Pow2Four();
    SmallToBitsValue(HexValue(c), 4);
  }

  lemma {:induction false} Pow2Four()
    ensures Pow2(4) == 16
  {
    assert Pow2(1) == 2;
    assert Pow2(2) == 4;
    assert Pow2(3) == 8;
  }

  /** The bits of a number below 2^n read back as the number. */
  lemma {:induction false} SmallToBitsValue(v: nat, n: nat)
    requires v < Pow2(n)
    ensures Val(ToBits(v, n)) == v
  {
    ToBitsValue(v, n);
    DivModUnique(v, Pow2(n), 0, v);
  }

  lemma {:induction false} HexToBitsValue(t: string, w: nat)
    requires AllHex(t) && 4 * |t| <= w
    ensures Val(HexToBits(t, w).value) == HexNumber(t)
  {
    NibblesValue(t);
    ValConcat(Nibbles(t), Zeros(w - 4 * |t|));
    ZerosValue(w - 4 * |t|);
  }

  /** The library's hex2bin: a zero array of the width, then one pass over the digits from the
      right, writing the four bits of digit i into positions 4i .. 4i+3. */
  method Hex2Bin(t: string, w: nat) returns (r: Result<seq<Bit>>)
    ensures r == HexToBits(t, w)
  {
    if w < |t| * 4 {
      return Err(InvalidArgument);
    }
    var ok, bits := HexFill(t, w);
    r := if ok then Ok(bits) else Err(InvalidArgument);
  }

  /** hex2bin's loop: false at the first character that is not a digit, else the filled array. */
  method HexFill(t: string, w: nat) returns (ok: bool, bits: seq<Bit>)
    requires 4 * |t| <= w
    ensures ok <==> AllHex(t)
    ensures ok ==> AllHex(t) && bits == Nibbles(t) + Zeros(w - 4 * |t|)
  {
    var length := |t|;
    var binary := ZeroArray(w);
    var i := 0;
    FilledStart(t, w, binary[..]);
    while i < length
      invariant 0 <= i <= length && binary.Length == w
      invariant Filled(t, i, binary[..], w)
    {
      var good := FillDigit(t, i, binary);
      if !good {
        return false, [];
      }
      i := i + 1;
    }
    FilledEnd(t, w, binary[..]);
    ok, bits := true, binary[..];
  }

  /** After the first i digits from the right: they are hex digits, and their nibbles are in
      place over zeros. */
  predicate Filled(t: string, i: nat, bits: seq<Bit>, w: nat)
  {
    i <= |t| && 4 * i <= w && AllHex(t[|t| - i..]) && bits == Nibbles(t[|t| - i..]) + Zeros(w - 4 * i)
  }

  lemma {:induction false} FilledStart(t: string, w: nat, bits: seq<Bit>)
    requires bits == Zeros(w)
    ensures Filled(t, 0, bits, w)
  {
    assert t[|t|..] == "";
  }

  lemma {:induction false} FilledEnd(t: string, w: nat, bits: seq<Bit>)
    requires Filled(t, |t|, bits, w)
    ensures AllHex(t) && bits == Nibbles(t) + Zeros(w - 4 * |t|)
  {
    assert t[|t| - |t|..] == t;
  }

  /** np.zeros(width): a fresh array of w zero bits. */
  method ZeroArray(w: nat) returns (a: array<Bit>)
    ensures fresh(a) && a[..] == Zeros(w)
  {
    a := new Bit[w](_ => 0);
    assert a[..] == Zeros(w) by {
      assert forall i :: 0 <= i < w ==> a[i] == 0;
    }
  }

  /** One pass of hex2bin's loop: digit i from the right, when it is a hex digit, fills bits
      4i .. 4i+3; any other character ends the conversion. */
  method FillDigit(t: string, i: nat, binary: array<Bit>) returns (ok: bool)
    requires i < |t| && 4 * |t| <= binary.Length && Filled(t, i, binary[..], binary.Length)
    modifies binary
    ensures ok <==> IsHexChar(t[|t| - i - 1])
    ensures !ok ==> !AllHex(t)
    ensures ok ==> Filled(t, i + 1, binary[..], binary.Length)
  {
    var c := t[|t| - i - 1];
    if !IsHexChar(c) {
      NotAllHex(t, |t| - i - 1);
      return false;
    }
    HexStep(t, i);
    HexPlace(binary, i, Nibbles(t[|t| - i..]), Nibble(c));
    ok := true;
  }

  lemma {:induction false} NotAllHex(t: string, j: nat)
    requires j < |t| && !IsHexChar(t[j])
    ensures !AllHex(t)
  {
  }

  /** Writing digit i's nibble over the zeros above the first i digits. */
  method HexPlace(binary: array<Bit>, i: nat, low: seq<Bit>, d: seq<Bit>)
    requires |low| == 4 * i && |d| == 4 && 4 * i + 4 <= binary.Length
    requires binary[..] == low + Zeros(binary.Length - 4 * i)
    modifies binary
    ensures binary[..] == low + d + Zeros(binary.Length - 4 * (i + 1))
  {
    ghost var before := binary[..];
    Widths.Place(binary, 4 * i, d);
    assert before[..4 * i] == low;
    assert before[4 * i + 4..] == Zeros(binary.Length - 4 * (i + 1));
  }

  /** Extending the processed suffix by one digit to the left puts its nibble on top. */
  lemma {:induction false} HexStep(t: string, i: nat)
    requires i < |t| && AllHex(t[|t| - i..]) && IsHexChar(t[|t| - i - 1])
    ensures AllHex(t[|t| - i - 1..])
    ensures Nibbles(t[|t| - i - 1..]) == Nibbles(t[|t| - i..]) + Nibble(t[|t| - i - 1])
  {
    assert t[|t| - i - 1..] == [t[|t| - i - 1]] + t[|t| - i..];
    NibblesCons(t[|t| - i - 1], t[|t| - i..]);
  }

  /** The result of hex2dec: bin2dec of hex2bin. */
  function HexToDec(t: string, w: nat, fp: nat, signed: bool): (r: Result<real>)
    ensures !(AllHex(t) && 4 * |t| <= w) ==> r == Err(InvalidArgument)
    ensures AllHex(t) && 4 * |t| <= w ==> (r.Err? <==> w == 0)
    ensures AllHex(t) && 4 * |t| <= w && r.Err? ==> r.error == EmptyVector
  {
    match HexToBits(t, w)
    case Err(e) => Err(e)
    case Ok(b) => BitsToDec(b, fp, signed)
  }

  /** An unsigned reading of hex text is its numeral's value scaled by 2^-fixed_point; a zero
      width has no top bit for bin2dec to read. */
  lemma {:induction false} HexToDecValue(t: string, w: nat, fp: nat)
    requires AllHex(t) && 4 * |t| <= w
    ensures w == 0 ==> HexToDec(t, w, fp, false) == Err(EmptyVector)
    ensures w > 0 ==> HexToDec(t, w, fp, false) == Ok(Unscale(HexNumber(t) as real, fp))
  {
    if w > 0 {
      HexToBitsValue(t, w);
      BitsToDecValue(HexToBits(t, w).value, fp, false);
    }
  }

  // ---------------------------------------------------------------- bin2hex

  /** The digits bin2hex writes: one per group of four bits from the least significant end (the
      top group may be shorter), the lowest group's digit last. */
  function HexDigits(s: seq<Bit>): (r: string)
    ensures |r| == (|s| + 3) / 4
    decreases |s|
  {
    if |s| == 0 then ""
    else
      var k := Min(4, |s|);
      LowGroupBound(s, k);
      HexDigits(s[k..]) + [HexChar(Val(s[..k]))]
  }

  lemma {:induction false} LowGroupBound(s: seq<Bit>, k: nat)
    requires k <= 4 && k <= |s|
    ensures Val(s[..k]) < 16
  {
    ValBound(s[..k]);
    Pow2Monotone(k, 4);
    Pow2Four();
  }

  /** How bin2hex shows a vector: the "<n>'h" header when prefix is set, then one hex digit per
      group of four bits, together worth the vector's value. */
  predicate ShowsHex(r: string, s: seq<Bit>, prefix: bool)
  {
    var h := if prefix then DecimalString(|s|) + "'h" else "";
    |h| <= |r| && r[..|h|] == h &&
    var d := r[|h|..]; |d| == (|s| + 3) / 4 && AllHex(d) && HexNumber(d) == Val(s)
  }

  /** The result of bin2hex(num, prefix). */
  function BitsToHex(s: seq<Bit>, prefix: bool): string
  {
    if prefix then DecimalString(|s|) + "'h" + HexDigits(s) else HexDigits(s)
  }

  /** bin2hex shows the header, then ceil(n / 4) hex digits worth the vector's value. */
  lemma {:induction false} BitsToHexShows(s: seq<Bit>, prefix: bool)
    ensures ShowsHex(BitsToHex(s, prefix), s, prefix)
  {
    HexDigitsValue(s);
    assert (DecimalString(|s|) + "'h" + HexDigits(s))[|DecimalString(|s|) + "'h"|..] == HexDigits(s);
  }

  /** Every digit bin2hex writes is 0-9 or A-F. */
  lemma {:induction false} HexDigitsUpper(s: seq<Bit>)
    ensures AllHex(HexDigits(s))
    ensures forall i :: 0 <= i < |HexDigits(s)| ==> !('a' <= HexDigits(s)[i] <= 'f')
    decreases |s|
  {
    if |s| > 0 {
      HexDigitsUpper(s[Min(4, |s|)..]);
    }
  }

  /** Read back as a hexadecimal numeral, bin2hex's digits give the vector's value. */
  lemma {:induction false} HexDigitsValue(s: seq<Bit>)
    ensures AllHex(HexDigits(s))
    ensures HexNumber(HexDigits(s)) == Val(s)
    decreases |s|
  {
    HexDigitsUpper(s);
    if |s| > 0 {
      var k := Min(4, |s|);
      HexDigitsValue(s[k..]);
      var h := HexDigits(s);
      assert h[..|h| - 1] == HexDigits(s[k..]);
      LowGroupBound(s, k);
      assert s == s[..k] + s[k..];
      ValConcat(s[..k], s[k..]);
      if k == 4 {
        Pow2Four();
      } else {
        assert s[k..] == [];
      }
    }
  }

  /** hex2bin then bin2hex gives back the digits, in upper case. */
  lemma {:induction false} HexRoundTrip(t: string)
    requires AllHex(t)
    ensures HexToBits(t, 4 * |t|) == Ok(Nibbles(t))
    ensures BitsToHex(Nibbles(t), false) == Upper(t)
    decreases |t|
  {
    assert Nibbles(t) + Zeros(0) == Nibbles(t);
    if |t| > 0 {
      var front := t[..|t| - 1];
      var c := t[|t| - 1];
      assert AllHex(front) by {
        assert forall i :: 0 <= i < |front| ==> front[i] == t[i];
      }
      assert IsHexChar(c);
      HexRoundTrip(front);
      var s := Nibbles(t);
      assert s == Nibble(c) + Nibbles(front);
      assert s[4..] == Nibbles(front) && s[..4] == Nibble(c);
      NibbleValue(c);
      HexCharOfValue(c);
      assert HexDigits(s) == HexDigits(s[4..]) + [HexChar(Val(s[..4]))];
    }
  }

  lemma {:induction false} HexCharOfValue(c: char)
    requires IsHexChar(c)
    ensures HexChar(HexValue(c)) == UpperChar(c)
  {
  }

  /** The value of the group of bits bin2hex reads at lo: up to four bits, fewer at the top. */
  method GroupValue(s: seq<Bit>, lo: nat) returns (dec: nat)
    requires lo < |s|
    ensures dec == Val(s[lo..][..Min(4, |s| - lo)])
  {
    dec := 0;
    var j := 0;
    while j < 4
      invariant 0 <= j <= 4 && lo + j <= |s|
      invariant dec == Val(s[lo..lo + j])
    {
      if lo + j == |s| {
        break;
      }
      assert s[lo..lo + j + 1] == s[lo..lo + j] + [s[lo + j]];
      ValSnoc(s[lo..lo + j], s[lo + j]);
      dec := dec + (if s[lo + j] == 1 then Pow2(j) else 0);
      j := j + 1;
    }
    assert j == Min(4, |s| - lo);
    assert s[lo..][..j] == s[lo..lo + j];
  }

  /** The library's bin2hex: one digit per group of four bits (the last group may be short,
      its loop stopping at the end of the vector), each digit put in front of the text so far. */
  method Bin2Hex(s: seq<Bit>, prefix: bool) returns (r: string)
    ensures r == BitsToHex(s, prefix)
  {
    var hex := HexLoop(s);
    r := if prefix then DecimalString(|s|) + "'h" + hex else hex;
  }

  /** bin2hex's loop over the groups of four bits, from the least significant one, putting each
      group's digit in front of the text so far. */
  method HexLoop(s: seq<Bit>) returns (hex: string)
    ensures hex == HexDigits(s)
  {
    var n := |s|;
    var length := n / 4;
    if n % 4 != 0 {
      length := length + 1;
    }
    GroupCount(n, length);
    hex := "";
    var i := 0;
    assert s[Min(0, n)..] == s;
    while i < length
      invariant 0 <= i <= length
      invariant HexDigits(s) == HexDigits(s[Min(4 * i, n)..]) + hex
    {
      assert 4 * i < n;
      var dec := GroupValue(s, 4 * i);
      HexDigitsStep(s, 4 * i, hex);
      hex := [HexChar(dec)] + hex;
      i := i + 1;
    }
    assert s[Min(4 * i, n)..] == [];
  }

  /** bin2hex's digit count: a digit per four bits, one more for a partial top group. */
  lemma {:induction false} GroupCount(n: nat, length: nat)
    requires length == n / 4 + (if n % 4 != 0 then 1 else 0)
    ensures 4 * length - 4 < n <= 4 * length
  {
  }

  /** Reading the group at lo takes it off the front of what is left and puts its digit before
      the text so far. */
  lemma {:induction false} HexDigitsStep(s: seq<Bit>, lo: nat, hex: string)
    requires lo < |s| && HexDigits(s) == HexDigits(s[lo..]) + hex
    ensures Val(s[lo..][..Min(4, |s| - lo)]) < 16
    ensures HexDigits(s) == HexDigits(s[Min(lo + 4, |s|)..]) + ([HexChar(Val(s[lo..][..Min(4, |s| - lo)]))] + hex)
  {
    var rest := s[lo..];
    LowGroupBound(rest, Min(4, |rest|));
    assert rest[Min(4, |rest|)..] == s[Min(lo + 4, |s|)..];
  }
}

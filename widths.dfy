/** Width primitives: concatenation, extension and truncation, and rounding to the top bits
    (binary_operation.py: cat, resize, rnd). */
module Widths {
  import opened Results
  import opened Bits
  import opened Adder

  // ---------------------------------------------------------------- cat

  /** An element of the list given to cat: a bit vector, or a plain integer that must be 0 or 1. */
  datatype Item = Scalar(v: int) | Vector(bits: seq<Bit>)

  predicate Accepted(it: Item)
  {
    it.Vector? || it.v == 0 || it.v == 1
  }

  predicate AllAccepted(items: seq<Item>)
  {
    forall k :: 0 <= k < |items| ==> Accepted(items[k])
  }

  /** The number of bits an item contributes: a scalar counts as one. */
  function ItemWidth(it: Item): nat
  {
    if it.Vector? then |it.bits| else 1
  }

  function ItemBits(it: Item): (r: seq<Bit>)
    requires Accepted(it)
    ensures |r| == ItemWidth(it)
  {
    if it.Vector? then it.bits else [it.v as Bit]
  }

  /** The total width of the parts, accumulated from the front as cat's first loop does. */
  function TotalWidth(items: seq<Item>): nat
  {
    if |items| == 0 then 0 else TotalWidth(items[..|items| - 1]) + ItemWidth(items[|items| - 1])
  }

  /** The concatenated bits: the last item takes the lowest positions, the first the highest. */
  function Flatten(items: seq<Item>): (r: seq<Bit>)
    requires AllAccepted(items)
  {
    if |items| == 0 then []
    else ItemBits(items[|items| - 1]) + Flatten(items[..|items| - 1])
  }

  /** The result of cat(arr). */
  function Concat(items: seq<Item>): (r: Result<seq<Bit>>)
    ensures r.Ok? <==> AllAccepted(items)
    ensures r.Err? ==> r.error == InvalidArgument
  {
    if AllAccepted(items) then Ok(Flatten(items)) else Err(InvalidArgument)
  }

  lemma {:induction false} FlattenLength(items: seq<Item>)
    requires AllAccepted(items)
    ensures |Flatten(items)| == TotalWidth(items)
    decreases |items|
  {
    if |items| > 0 {
      FlattenLength(items[..|items| - 1]);
    }
  }

  /** Concatenating two lists of parts puts the second list below the first. */
  lemma {:induction false} FlattenAppend(a: seq<Item>, b: seq<Item>)
    requires AllAccepted(a) && AllAccepted(b)
    ensures AllAccepted(a + b)
    ensures Flatten(a + b) == Flatten(b) + Flatten(a)
    ensures TotalWidth(a + b) == TotalWidth(a) + TotalWidth(b)
    decreases |b|
  {
    AllAcceptedConcat(a, b);
    if |b| == 0 {
      assert a + b == a;
    } else {
      var m := |b| - 1;
      AllAcceptedPrefix(b, m);
      FlattenAppend(a, b[..m]);
      var ab := a + b;
      assert ab[..|ab| - 1] == a + b[..m];
      assert ab[|ab| - 1] == b[m];
      assert Flatten(ab) == ItemBits(b[m]) + Flatten(a + b[..m]);
      assert TotalWidth(ab) == TotalWidth(a + b[..m]) + ItemWidth(b[m]);
    }
  }

  lemma {:induction false} AllAcceptedConcat(a: seq<Item>, b: seq<Item>)
    requires AllAccepted(a) && AllAccepted(b)
    ensures AllAccepted(a + b)
  {
    forall k | 0 <= k < |a + b|
      ensures Accepted((a + b)[k])
    {
      if k >= |a| {
        assert (a + b)[k] == b[k - |a|];
      }
    }
  }

  /** The result has as many bits as the parts together, a scalar counting as one. */
  lemma {:induction false} ConcatLength(items: seq<Item>)
    requires AllAccepted(items)
    ensures |Concat(items).value| == TotalWidth(items)
  {
    FlattenLength(items);
  }

  /** Item k sits just above the bits of the items after it: items[0] is the most significant part. */
  lemma {:induction false} ConcatPlacement(items: seq<Item>, k: nat)
    requires AllAccepted(items) && k < |items|
    ensures var r := Concat(items).value;
      var lo := TotalWidth(items[k + 1..]);
      lo + ItemWidth(items[k]) <= |r| && r[lo..lo + ItemWidth(items[k])] == ItemBits(items[k])
  {
    FlattenSplit(items, k);
    FlattenLength(items[k + 1..]);
    MiddleSlice(Flatten(items[k + 1..]), ItemBits(items[k]), Flatten(items[..k]));
  }

  /** The bits of the items after k, then item k, then the items before it. */
  lemma {:induction false} FlattenSplit(items: seq<Item>, k: nat)
    requires AllAccepted(items) && k < |items|
    ensures AllAccepted(items[..k]) && AllAccepted(items[k + 1..])
    ensures Flatten(items) == Flatten(items[k + 1..]) + ItemBits(items[k]) + Flatten(items[..k])
  {
    var front, mid, back := items[..k], [items[k]], items[k + 1..];
    AllAcceptedPrefix(items, k);
    AllAcceptedSuffix(items, k + 1);
    assert AllAccepted(mid) by { assert mid[0] == items[k]; }
    FlattenAppend(front, mid);
    FlattenAppend(front + mid, back);
    assert front + mid + back == items;
    assert Flatten(mid) == ItemBits(items[k]) by {
      assert mid[..0] == [];
    }
  }

  lemma {:induction false} MiddleSlice<T>(x: seq<T>, y: seq<T>, z: seq<T>)
    ensures (x + y + z)[|x|..|x| + |y|] == y
  {
  }

  lemma {:induction false} AllAcceptedSuffix(items: seq<Item>, k: nat)
    requires AllAccepted(items) && k <= |items|
    ensures AllAccepted(items[k..])
  {
    assert forall j :: 0 <= j < |items| - k ==> items[k..][j] == items[k + j];
  }

  /** cat of two vectors in numbers: the first is shifted above the second. */
  lemma {:induction false} ConcatTwoValue(hi: seq<Bit>, lo: seq<Bit>)
    ensures Concat([Vector(hi), Vector(lo)]) == Ok(lo + hi)
    ensures Val(lo + hi) == Val(lo) + Pow2(|lo|) * Val(hi)
  {
    var items := [Vector(hi), Vector(lo)];
    assert AllAccepted(items);
    assert items[..1] == [Vector(hi)];
    assert [Vector(hi)][..0] == [];
    assert Flatten([Vector(hi)]) == hi;
    assert Flatten(items) == lo + hi;
    ValConcat(lo, hi);
  }

  lemma {:induction false} AllAcceptedPrefix(items: seq<Item>, k: nat)
    requires AllAccepted(items) && k <= |items|
    ensures AllAccepted(items[..k])
  {
    assert forall j :: 0 <= j < k ==> items[..k][j] == items[j];
  }

  /** The library's cat: a first loop adds up the widths and rejects any scalar other than 0 or 1;
      a second loop writes the parts into a fresh array from the top index down. */
  method Cat(items: seq<Item>) returns (r: Result<seq<Bit>>)
    ensures r == Concat(items)
  {
    var width := CatWidth(items);
    if width.Err? {
      return Err(width.error);
    }
    var bits := CatFill(items, width.value);
    r := Ok(bits);
  }

  /** cat's first loop: the total width, or the error for a part that is neither a vector nor 0/1. */
  method CatWidth(items: seq<Item>) returns (r: Result<nat>)
    ensures r.Ok? <==> AllAccepted(items)
    ensures r.Ok? ==> r.value == TotalWidth(items)
    ensures r.Err? ==> r.error == InvalidArgument
  {
    var width := 0;
    var k := 0;
    while k < |items|
      invariant 0 <= k <= |items|
      invariant AllAccepted(items[..k])
      invariant width == TotalWidth(items[..k])
    {
      var it := items[k];
      assert items[..k + 1][..k] == items[..k];
      if it.Vector? {
        width := width + |it.bits|;
      } else if it.v == 1 || it.v == 0 {
        width := width + 1;
      } else {
        assert !Accepted(items[k]);
        return Err(InvalidArgument);
      }
      AllAcceptedStep(items, k);
      k := k + 1;
    }
    assert items[..k] == items;
    r := Ok(width);
  }

  /** cat's second loop: idx counts down from the top index, each part filling the positions
      just below those of the parts before it. */
  method CatFill(items: seq<Item>, width: nat) returns (r: seq<Bit>)
    requires AllAccepted(items) && width == TotalWidth(items)
    ensures r == Flatten(items)
  {
    var arr := new Bit[width];
    var idx: int := width - 1;
    var k := 0;
    while k < |items|
      invariant 0 <= k <= |items|
      invariant AllAccepted(items[..k])
      invariant idx + 1 == width - TotalWidth(items[..k]) >= 0
      invariant arr[idx + 1..] == Flatten(items[..k])
    {
      var it := items[k];
      ghost var done := Flatten(items[..k]);
      RestWidth(items, k);
      AllAcceptedStep(items, k);
      FlattenStep(items, k);
      if it.Vector? {
        var n := |it.bits|;
        Place(arr, idx + 1 - n, it.bits);
        idx := idx - n;
      } else {
        Place(arr, idx, [it.v]);
        idx := idx - 1;
      }
      assert arr[idx + 1..] == ItemBits(it) + done;
      k := k + 1;
    }
    assert items[..k] == items;
    assert arr[..] == arr[idx + 1..];
    r := arr[..];
  }

  /** Slice assignment arr[lo : lo + |v|] = v. */
  method Place(arr: array<Bit>, lo: nat, v: seq<Bit>)
    requires lo + |v| <= arr.Length
    modifies arr
    ensures arr[..] == old(arr[..lo]) + v + old(arr[lo + |v|..])
    ensures arr[lo..] == v + old(arr[lo + |v|..])
  {
    forall j | 0 <= j < |v| {
      arr[lo + j] := v[j];
    }
    assert arr[..] == old(arr[..lo]) + v + old(arr[lo + |v|..]);
  }

  lemma {:induction false} FlattenStep(items: seq<Item>, k: nat)
    requires k < |items| && AllAccepted(items[..k + 1])
    ensures AllAccepted(items[..k])
    ensures Flatten(items[..k + 1]) == ItemBits(items[k]) + Flatten(items[..k])
  {
    assert items[..k + 1][..k] == items[..k];
    AllAcceptedPrefix(items[..k + 1], k);
  }

  lemma {:induction false} AllAcceptedStep(items: seq<Item>, k: nat)
    requires k < |items| && AllAccepted(items[..k]) && Accepted(items[k])
    ensures AllAccepted(items[..k + 1])
  {
    assert forall j :: 0 <= j < k ==> items[..k + 1][j] == items[..k][j];
  }

  /** What is left of the width after the first k parts is at least the width of part k. */
  lemma {:induction false} RestWidth(items: seq<Item>, k: nat)
    requires k < |items|
    ensures TotalWidth(items[..k + 1]) == TotalWidth(items[..k]) + ItemWidth(items[k])
    ensures TotalWidth(items[..k + 1]) <= TotalWidth(items)
  {
    assert items[..k + 1][..k] == items[..k];
    PrefixWidth(items, k + 1);
  }

  lemma {:induction false} PrefixWidth(items: seq<Item>, k: nat)
    requires k <= |items|
    ensures TotalWidth(items[..k]) <= TotalWidth(items)
    decreases |items|
  {
    if k < |items| {
      var m := |items| - 1;
      assert items[..m][..k] == items[..k];
      PrefixWidth(items[..m], k);
    } else {
      assert items[..k] == items;
    }
  }

  // ---------------------------------------------------------------- resize

  /** resize reads the top bit to choose the padding when a signed vector grows; on an empty
      vector that read fails (index -1 of an empty array). */
  predicate ResizeDefined(s: seq<Bit>, w: nat, signed: bool)
  {
    signed && |s| < w ==> |s| > 0
  }

  /** The bit a growing vector is padded with: 1 only for a signed vector whose top bit is 1. */
  function PadBit(s: seq<Bit>, signed: bool): Bit
  {
    if signed && |s| > 0 && s[|s| - 1] == 1 then 1 else 0
  }

  /** The result of resize(num, width, signed): unchanged at equal width, padded at the top when
      growing, cut to the low bits when shrinking. */
  function Resize(s: seq<Bit>, w: nat, signed: bool): (r: seq<Bit>)
    requires ResizeDefined(s, w, signed)
    ensures |r| == w
    ensures forall i :: 0 <= i < Min(|s|, w) ==> r[i] == s[i]
    ensures forall i :: |s| <= i < w ==> r[i] == PadBit(s, signed)
  {
    if |s| == w then s
    else if |s| < w then s + Fill(PadBit(s, signed), w - |s|)
    else s[..w]
  }

  /** Growing (or keeping) a vector and cutting it back to its own width gives the vector back;
      at equal width resize is the identity. */
  lemma {:induction false} ResizeRestores(s: seq<Bit>, w: nat, signed: bool)
    requires ResizeDefined(s, w, signed) && |s| <= w
    ensures Resize(s, |s|, signed) == s
    ensures Resize(Resize(s, w, signed), |s|, signed) == s
  {
    var t := Resize(Resize(s, w, signed), |s|, signed);
    assert forall i :: 0 <= i < |s| ==> t[i] == s[i];
  }

  /** The scalars resize places in front of the vector when it grows. */
  function Pads(b: Bit, n: nat): (r: seq<Item>)
    ensures |r| == n && AllAccepted(r)
  {
    if n == 0 then [] else [Scalar(b)] + Pads(b, n - 1)
  }

  lemma {:induction false} FlattenPads(b: Bit, n: nat)
    ensures Flatten(Pads(b, n)) == Fill(b, n)
  {
    if n > 0 {
      FlattenPads(b, n - 1);
      FlattenAppend([Scalar(b)], Pads(b, n - 1));
      assert [Scalar(b)][..0] == [];
      assert Flatten([Scalar(b)]) == [b];
      assert Fill(b, n) == Fill(b, n - 1) + [b];
    }
  }

  /** Growing is the cat of width - |num| copies of the pad bit in front of the vector, as the
      library writes it. */
  lemma {:induction false} ResizeIsCat(s: seq<Bit>, w: nat, signed: bool)
    requires ResizeDefined(s, w, signed) && |s| < w
    ensures Concat(Pads(PadBit(s, signed), w - |s|) + [Vector(s)]) == Ok(Resize(s, w, signed))
  {
    var b := PadBit(s, signed);
    var v := [Vector(s)];
    assert AllAccepted(v);
    FlattenAppend(Pads(b, w - |s|), v);
    FlattenPads(b, w - |s|);
    assert v[..0] == [];
    assert Flatten(v) == s;
  }

  /** Without sign extension, resizing takes the value mod 2^width: growing keeps it, shrinking
      keeps the low bits. */
  lemma {:induction false} ResizeUnsignedValue(s: seq<Bit>, w: nat)
    ensures Val(Resize(s, w, false)) == Val(s) % Pow2(w)
  {
    if |s| <= w {
      ResizeKeepsValue(s, w, false);
      ValBound(s);
      Pow2Monotone(|s|, w);
      SplitArith(Val(s), Pow2(w), 0, Val(s));
    } else {
      ValSplit(s, w);
    }
  }

  /** Zero extension, and sign extension of a non-negative vector, keep the unsigned value. */
  lemma {:induction false} ResizeKeepsValue(s: seq<Bit>, w: nat, signed: bool)
    requires ResizeDefined(s, w, signed) && |s| <= w && PadBit(s, signed) == 0
    ensures Val(Resize(s, w, signed)) == Val(s)
  {
    if |s| < w {
      ValConcat(s, Zeros(w - |s|));
      ZerosValue(w - |s|);
    }
  }

  /** Sign extension keeps the two's-complement value. */
  lemma {:induction false} ResizeSignedValue(s: seq<Bit>, w: nat)
    requires 0 < |s| <= w
    ensures SignedVal(Resize(s, w, true)) == SignedVal(s)
  {
    var n, m := |s|, w - |s|;
    if m > 0 {
      var r := Resize(s, w, true);
      if s[n - 1] == 1 {
        ValConcat(s, Fill(1, m));
        FillValue(1, m);
        Pow2Add(n, m);
        assert r[w - 1] == 1;
        SignExtendArith(Val(s), Pow2(n), Pow2(m));
      } else {
        ResizeKeepsValue(s, w, true);
        assert r[w - 1] == 0;
      }
    }
  }

  lemma {:induction false} SignExtendArith(v: int, p: int, q: int)
    ensures v + p * (q - 1) - p * q == v - p
  {
  }

  /** Shrinking keeps the low bits: the result is the w-bit pattern of the value. */
  lemma {:induction false} ResizeTruncates(s: seq<Bit>, w: nat, signed: bool)
    requires w <= |s|
    ensures Resize(s, w, signed) == ToBits(Val(s), w)
  {
    PrefixIsToBits(s, w);
    if |s| == w {
      assert s[..w] == s;
    }
  }

  // ---------------------------------------------------------------- rnd

  /** The result of rnd(num, width): the top width bits of num, plus one (mod 2^width) exactly
      when num[width] is 1; a width that is not less than |num| is refused. */
  function Rnd(s: seq<Bit>, w: nat): (r: Result<seq<Bit>>)
    ensures r.Err? <==> w >= |s|
    ensures r.Err? ==> r.error == InvalidArgument
    ensures r.Ok? ==> |r.value| == w
  {
    if w >= |s| then Err(InvalidArgument)
    else
      var kept := s[|s| - w..];
      if s[w] == 1 then Ok(Sum(kept, Greedy(1.0, w), w)) else Ok(kept)
  }

  /** The rounded vector is the w-bit pattern of the top bits' value plus num[width]. */
  lemma {:induction false} RndBits(s: seq<Bit>, w: nat)
    requires w < |s|
    ensures Rnd(s, w).value == ToBits(Val(s[|s| - w..]) + s[w], w)
  {
    var kept := s[|s| - w..];
    if s[w] == 1 {
      GreedyOne(w);
      SumBits(kept, ToBits(1, w), w);
      if w > 0 {
        OneValue(w);
      }
    } else {
      ToBitsOfVal(kept);
    }
  }

  /** In numbers: rnd gives (num / 2^(n - width) + num[width]) mod 2^width. */
  lemma {:induction false} RndValue(s: seq<Bit>, w: nat)
    requires w < |s|
    ensures Val(Rnd(s, w).value) == (Val(s) / Pow2(|s| - w) + s[w]) % Pow2(w)
  {
    RndBitsVal(s, w);
    ValSplit(s, |s| - w);
    ToBitsValue(Val(s[|s| - w..]) + s[w], w);
  }

  lemma {:induction false} RndBitsVal(s: seq<Bit>, w: nat)
    requires w < |s|
    ensures Val(Rnd(s, w).value) == Val(ToBits(Val(s[|s| - w..]) + s[w], w))
  {
    RndBits(s, w);
  }
}

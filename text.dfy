/** Text forms of a vector (binary_operation.py: binary_string, and the str(width) of the
    "<n>'b" / "<n>'h" prefixes). */
module Text {
  import opened Bits

  // ---------------------------------------------------------------- decimal numerals

  predicate IsDigit(c: char)
  {
    '0' <= c <= '9'
  }

  function DigitChar(d: nat): (c: char)
    requires d < 10
    ensures IsDigit(c) && c as int - '0' as int == d
  {
    ('0' as int + d) as char
  }

  /** str(n) for a non-negative integer: its decimal numeral, most significant digit first. */
  function DecimalString(n: nat): (r: string)
    ensures |r| > 0 && forall i :: 0 <= i < |r| ==> IsDigit(r[i])
  {
    if n < 10 then [DigitChar(n)] else DecimalString(n / 10) + [DigitChar(n % 10)]
  }

  /** The number a decimal numeral denotes. */
  function DecimalValue(t: string): nat
    requires forall i :: 0 <= i < |t| ==> IsDigit(t[i])
  {
    if |t| == 0 then 0
    else
      assert IsDigit(t[|t| - 1]);
      10 * DecimalValue(t[..|t| - 1]) + (t[|t| - 1] as int - '0' as int)
  }

  /** The numeral reads back as the number, and has no leading zero. */
  lemma {:induction false} DecimalStringValue(n: nat)
    ensures DecimalValue(DecimalString(n)) == n
    ensures DecimalString(n)[0] != '0' || n == 0
  {
    if n >= 10 {
      var t := DecimalString(n);
      DecimalStringValue(n / 10);
      assert t[..|t| - 1] == DecimalString(n / 10);
    }
  }

  // ---------------------------------------------------------------- binary_string

  function BitChar(b: Bit): char
  {
    if b == 1 then '1' else '0'
  }

  /** The bits as text, most significant first. */
  function MsbDigits(s: seq<Bit>): (r: string)
    ensures |r| == |s|
  {
    if |s| == 0 then "" else MsbDigits(s[1..]) + [BitChar(s[0])]
  }

  /** Character i of the text is bit |s| - 1 - i. */
  lemma {:induction false} MsbDigitsAt(s: seq<Bit>, i: nat)
    requires i < |s|
    ensures MsbDigits(s)[i] == BitChar(s[|s| - 1 - i])
  {
    if i < |s| - 1 {
      MsbDigitsAt(s[1..], i);
    }
  }

  lemma {:induction false} MsbDigitsSnoc(t: seq<Bit>, b: Bit)
    ensures MsbDigits(t + [b]) == [BitChar(b)] + MsbDigits(t)
  {
    if |t| > 0 {
      assert (t + [b])[1..] == t[1..] + [b];
      MsbDigitsSnoc(t[1..], b);
    } else {
      assert (t + [b])[1..] == [];
    }
  }

  /** The digits most significant first, with '_' between groups of four counted from the least
      significant bit. */
  function Grouped(s: seq<Bit>): (r: string)
    decreases |s|
  {
    if |s| <= 4 then MsbDigits(s) else Grouped(s[4..]) + "_" + MsbDigits(s[..4])
  }

  /** The separator binary_string puts in front before adding bit i. */
  function Separator(i: nat): string
  {
    if i % 4 == 0 && i != 0 then "_" else ""
  }

  /** Adding a bit at the top puts its digit (and a separator when a group is full) in front. */
  lemma {:induction false} GroupedSnoc(t: seq<Bit>, b: Bit)
    ensures Grouped(t + [b]) == [BitChar(b)] + Separator(|t|) + Grouped(t)
    decreases |t|
  {
    var u := t + [b];
    if |t| < 4 {
      MsbDigitsSnoc(t, b);
    } else if |t| == 4 {
      assert u[4..] == [b] && u[..4] == t;
      assert MsbDigits([b]) == [BitChar(b)] by {
        assert [b][1..] == [];
      }
    } else {
      assert u[4..] == t[4..] + [b] && u[..4] == t[..4];
      GroupedSnoc(t[4..], b);
    }
  }

  /** Without the separators the text is the plain digit string. */
  function Strip(t: string): string
  {
    if |t| == 0 then "" else (if t[0] == '_' then "" else [t[0]]) + Strip(t[1..])
  }

  lemma {:induction false} StripAppend(a: string, b: string)
    ensures Strip(a + b) == Strip(a) + Strip(b)
  {
    if |a| > 0 {
      assert (a + b)[1..] == a[1..] + b;
      StripAppend(a[1..], b);
    } else {
      assert a + b == b;
    }
  }

  lemma {:induction false} StripDigits(s: seq<Bit>)
    ensures Strip(MsbDigits(s)) == MsbDigits(s)
  {
    if |s| > 0 {
      StripDigits(s[1..]);
      StripAppend(MsbDigits(s[1..]), [BitChar(s[0])]);
      assert Strip([BitChar(s[0])]) == [BitChar(s[0])] by {
        assert [BitChar(s[0])][1..] == [];
      }
    }
  }

  /** The grouped text carries exactly the bits, most significant first, and one separator per
      full group below the top group. */
  lemma {:induction false} GroupedContents(s: seq<Bit>)
    ensures Strip(Grouped(s)) == MsbDigits(s)
    ensures |s| > 0 ==> |Grouped(s)| == |s| + (|s| - 1) / 4
    decreases |s|
  {
    if |s| <= 4 {
      StripDigits(s);
    } else {
      GroupedContents(s[4..]);
      GroupedStrip(s);
      GroupedLength(|s|, |Grouped(s[4..])|);
    }
  }

  /** One step of GroupedContents: stripping the lowest group and its separator. */
  lemma {:induction false} GroupedStrip(s: seq<Bit>)
    requires |s| > 4 && Strip(Grouped(s[4..])) == MsbDigits(s[4..])
    ensures Strip(Grouped(s)) == MsbDigits(s)
  {
    StripAppend(Grouped(s[4..]) + "_", MsbDigits(s[..4]));
    StripAppend(Grouped(s[4..]), "_");
    StripDigits(s[..4]);
    assert Strip("_") == "" by {
      assert "_"[1..] == "";
    }
    MsbDigitsConcat(s[..4], s[4..]);
    assert s[..4] + s[4..] == s;
  }

  lemma {:induction false} GroupedLength(n: nat, upper: nat)
    requires n > 4 && upper == n - 4 + (n - 5) / 4
    ensures upper + 5 == n + (n - 1) / 4
  {
  }

  lemma {:induction false} MsbDigitsConcat(a: seq<Bit>, b: seq<Bit>)
    ensures MsbDigits(a + b) == MsbDigits(b) + MsbDigits(a)
  {
    if |a| > 0 {
      assert (a + b)[1..] == a[1..] + b;
      MsbDigitsConcat(a[1..], b);
    } else {
      assert a + b == b;
    }
  }

  /** How binary_string shows a vector: the "<n>'b" header when prefix is set, then text that
      reads, once the separators are taken out, as the digits most significant first. */
  predicate Shows(r: string, s: seq<Bit>, prefix: bool)
  {
    var h := if prefix then DecimalString(|s|) + "'b" else "";
    |h| <= |r| && r[..|h|] == h && Strip(r[|h|..]) == MsbDigits(s)
  }

  /** The result of binary_string: the grouped digits, after "<n>'b" when prefix is set. */
  function Render(s: seq<Bit>, prefix: bool): string
  {
    if prefix then DecimalString(|s|) + "'b" + Grouped(s) else Grouped(s)
  }

  /** binary_string shows the header, then the digits most significant first. */
  lemma {:induction false} RenderShows(s: seq<Bit>, prefix: bool)
    ensures Shows(Render(s, prefix), s, prefix)
  {
    GroupedContents(s);
    assert (DecimalString(|s|) + "'b" + Grouped(s))[|DecimalString(|s|) + "'b"|..] == Grouped(s);
  }

  /** The library's binary_string: one pass from the least significant bit, putting each digit
      (and a '_' before every fifth, ninth, ... digit) in front of the text built so far. */
  method BinaryString(s: seq<Bit>, prefix: bool) returns (r: string)
    ensures r == Render(s, prefix)
  {
    var text := "";
    var i := 0;
    while i < |s|
      invariant 0 <= i <= |s|
      invariant text == Grouped(s[..i])
    {
      if i % 4 == 0 && i != 0 {
        text := "_" + text;
      }
      text := [BitChar(s[i])] + text;
      assert s[..i + 1] == s[..i] + [s[i]];
      GroupedSnoc(s[..i], s[i]);
      i := i + 1;
    }
    assert s[..i] == s;
    r := if prefix then DecimalString(|s|) + "'b" + text else text;
  }
}

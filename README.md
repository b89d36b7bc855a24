# Fixed-width binary arithmetic, modelled in Dafny

This project models the core of a small Python library for fixed-width binary numbers. The
library holds a number as an array of bits, least significant bit first: index 0 is worth 2^0.
It provides:

- a full adder and a ripple-carry adder that drops the final carry;
- bitwise inversion and two's-complement negation;
- subtraction, shift-and-add multiplication, and division by repeated subtraction (the last two
  unsigned only);
- concatenation, resizing by zero- or sign-extension or truncation, and rounding to the top bits;
- conversions between bit arrays and decimal numbers (with a fixed point), hexadecimal text, and
  the grouped display string `<n>'b0001_0010`;
- the `binary` variable class, which stores a width, a signedness, a fixed point, a display-prefix
  flag and the bits, and whose assignment methods overwrite those fields.

A vector is a `seq<Bit>` with `Bit = 0..1`. `Val(s)` is its unsigned value, `SignedVal(s)` its
two's-complement value and `ToBits(v, n)` the n low bits of an integer. Every arithmetic contract
is stated in those terms, modulo `Pow2(w)`. Decimal values are exact `real`s, and the fixed point
is a scaling by `2^fixed_point` (`Scale`/`Unscale`). The exceptions the library raises are, with the exceptions listed
under "Left out" as preconditions, an `Err` of the `Result` type or a `Failed` status from the
class's assignment methods:

- `InvalidArgument` for the ValueErrors of `cat`, `rnd`, `hex2bin` and a missing width;
- `SignMismatch` for a negative value assigned to an unsigned variable;
- `DivisionByZero` for `div` by an all-zero denominator;
- `EmptyVector` for the IndexError of reading the top bit of a zero-width vector;
- `NotAnArray` for `bin2dec` called on text.

Modules follow the library's structure:

- `Bits`: vectors, their values, helper arithmetic;
- `Adder`: `full_add`, `add`, `inv`, `twos_comp`/`neg`;
- `Widths`: `cat`, `resize`, `rnd`;
- `Conversions`: `dec2bin`, `bin2dec`;
- `Text`: `binary_string`;
- `Hex`: `hex2bin`, `hex2dec`, `bin2hex`;
- `Arithmetic`: `sub`, `mult`, `div`;
- `Variables`: class `binary`, `binary_resize`;
- `Scenarios`: the outputs of the two example scripts.

The loop-based functions of the library are methods with loops. Each method is proved
equal to a specification function, and the properties are lemmas about that function.

## Model

| member | source | states |
|---|---|---|
| Adder.FullAdd | binary_operation.py:141-148 | the sum bit plus twice the carry is a + b + c; the pair is (carry, sum) |
| Adder.Sum | binary_operation.py:150-163 | add(a, b, w): the w bits the ripple-carry chain writes from carry 0 (their value is stated by SumBits) |
| Adder.RippleBits | binary_operation.py:160-162 | the carry chain from carry-in c gives the low w bits of Val(a) + Val(b) + c |
| Adder.SumBits | binary_operation.py:150-163 | add(a, b, w) is ToBits(Val(a) + Val(b), w): modular, the top carry dropped |
| Adder.SumValue | binary_operation.py:150-163 | the value of add(a, b, w) is (Val(a) + Val(b)) mod 2^w |
| Adder.Add | binary_operation.py:150-163 | the carry loop writing one sum bit per index returns Sum(a, b, w), that is ToBits(Val(a) + Val(b), w) |
| Adder.Inv | binary_operation.py:175-179 | the copy-and-flip loop returns a vector of the same length with every bit flipped |
| Adder.InvertedValue | binary_operation.py:175-179 | inv(s) has the value 2^n - 1 - Val(s) |
| Adder.TwosComplement | binary_operation.py:169-173 | twos_comp and neg: add of inv(s) and dec2bin(1) at the length of s, of that length (value in TwosComplementBits) |
| Adder.GreedyOne | binary_operation.py:170 | dec2bin(1, n) is the bits of 1 |
| Adder.TwosComplementBits | binary_operation.py:169-173 | twos_comp(s) (and neg, its alias) is ToBits(-Val(s), \|s\|) |
| Adder.TwosComplementValue | binary_operation.py:169-173 | twos_comp(s) has length \|s\| and value (2^\|s\| - Val(s)) mod 2^\|s\| |
| Adder.AddNegationIsZero | binary_operation.py:150-173 | add(a, twos_comp(a), \|a\|) is all zeros |
| Adder.TwosComplementInvolutive | binary_operation.py:169-173 | negating twice gives the vector back |
| Adder.TwosComplementOneBit | binary_operation.py:190 | on a one-bit slice twos_comp is the identity, so mult's negated top partial product is the plain one |
| Widths.Concat | binary_operation.py:220-241 | cat succeeds exactly when every item is a vector or the scalar 0 or 1, and fails with InvalidArgument otherwise |
| Widths.ConcatLength | binary_operation.py:222-229 | the result's length is the sum of the part lengths, a scalar counting as one |
| Widths.ConcatPlacement | binary_operation.py:231-239 | item k sits just above the bits of the items after it, so the first item is most significant |
| Widths.ConcatTwoValue | binary_operation.py:220-241 | cat([hi, lo]) is lo followed by hi, with value Val(lo) + 2^\|lo\| * Val(hi) |
| Widths.Cat | binary_operation.py:220-241 | the two loops (widths, then filling from the top index down) return Concat(items) |
| Widths.CatWidth | binary_operation.py:222-229 | the first loop returns the total width exactly when every part is accepted, else InvalidArgument |
| Widths.CatFill | binary_operation.py:231-241 | the second loop fills the array with the flattened parts |
| Widths.Place | binary_operation.py:235 | the slice assignment writes v at lo and leaves the rest of the array as it was |
| Widths.Resize | binary_operation.py:256-265 | w bits; the low min(\|s\|, w) bits copied; the added top bits are the sign bit when signed, else 0 |
| Widths.ResizeIsCat | binary_operation.py:259-263 | growing is cat of the padding scalars in front of the vector |
| Widths.ResizeRestores | binary_operation.py:256-265 | resize at the same width is the identity; growing then cutting back restores the vector |
| Widths.ResizeUnsignedValue | binary_operation.py:256-265 | an unsigned resize has the value Val(s) mod 2^w |
| Widths.ResizeKeepsValue | binary_operation.py:257-263 | growing with zero padding keeps the unsigned value |
| Widths.ResizeSignedValue | binary_operation.py:257-261 | sign extension keeps the two's-complement value |
| Widths.ResizeTruncates | binary_operation.py:264-265 | shrinking keeps the low bits: ToBits(Val(s), w) |
| Widths.Rnd | binary_operation.py:244-253 | rnd fails with InvalidArgument exactly when w >= \|s\|, else gives w bits |
| Widths.RndBits | binary_operation.py:252-253 | the top w bits num[\|s\| - w..], plus 1 mod 2^w exactly when num[w] is 1 |
| Widths.RndValue | binary_operation.py:252-253 | the value is (Val(s) div 2^(\|s\| - w) + num[w]) mod 2^w |
| Conversions.DecToBits | binary_operation.py:273-283 | dec2bin fails with SignMismatch exactly for a negative value when unsigned; otherwise w bits |
| Conversions.Dec2Bin | binary_operation.py:273-283 | the method with the greedy loop returns DecToBits |
| Conversions.GreedyLoop | binary_operation.py:275-282 | the loop from the top index down gives the greedy bits of the magnitude scaled by 2^fixed_point |
| Conversions.TakeBit | binary_operation.py:278-281 | a bit is set, and its weight 2^(idx - fixed_point) taken off, exactly when the remainder covers the weight |
| Conversions.DecToBitsZero | binary_operation.py:283 | dec2bin(0) is all zeros (twos_comp of zeros) |
| Conversions.DecToBitsNonNegative | binary_operation.py:273-283 | for num >= 0 the value is min(floor(num * 2^fixed_point), 2^w - 1) |
| Conversions.DecToBitsSaturates | binary_operation.py:276-282 | an integer at or above 2^w - 1 gives all ones: the loop saturates, it does not wrap |
| Conversions.DecToBitsNegative | binary_operation.py:283 | for num < 0 (signed) the result is the two's complement of the capped magnitude |
| Conversions.BitsToDec | binary_operation.py:286-292 | bin2dec fails with EmptyVector exactly on a zero-width vector |
| Conversions.Bin2Dec | binary_operation.py:286-292 | the accumulation loop (after negating a negative signed vector) returns BitsToDec |
| Conversions.BitsToDecValue | binary_operation.py:286-292 | the value is the unsigned or two's-complement value divided by 2^fixed_point |
| Conversions.UnsignedRoundTrip | binary_operation.py:273-292 | for 0 <= v and v * 2^fp < 2^w, dec2bin succeeds and bin2dec reads back v truncated to the fixed point, so exactly v when v is a multiple of 2^-fp |
| Conversions.SignedRoundTrip | binary_operation.py:273-292 | bin2dec(dec2bin(v, signed), signed) == v for -2^(w-1) <= v * 2^fp < 2^(w-1) |
| Conversions.SignedDecToBits | binary_operation.py:273-283 | the signed bits of such a v have the two's-complement value v * 2^fp |
| Text.DecimalStringValue | binary_operation.py:416 | the width's numeral in the prefix reads back as the width and has no leading zero |
| Text.MsbDigitsAt | binary_operation.py:413-415 | character i of the digits is bit \|s\| - 1 - i: most significant first |
| Text.GroupedSnoc | binary_operation.py:413-415 | adding a bit on top puts its digit, and a '_' when a group of four is full, in front |
| Text.GroupedContents | binary_operation.py:412-415 | without the '_' the text is the digits, and there is one '_' per full group below the top |
| Text.RenderShows | binary_operation.py:401-416 | binary_string shows "<n>'b" when prefix is set, then text that reads, without its '_' separators, as the digits most significant first |
| Text.BinaryString | binary_operation.py:401-416 | the loop returns the grouped digits, after "<n>'b" when prefix is set |
| Hex.HexChar | binary_operation.py:354-360 | the digit for 0-15 is a hex digit worth that value, never lower-case |
| Hex.HexToBits | binary_operation.py:295-335 | hex2bin fails with InvalidArgument exactly when w < 4 * \|t\| or a character is not hex; otherwise w bits |
| Hex.NibblePlacement | binary_operation.py:299-331 | the k-th digit from the right fills bits 4k .. 4k+3 of the nibbles |
| Hex.HexToBitsLayout | binary_operation.py:297-331 | in hex2bin's result digit k from the right is at bits 4k .. 4k+3, and every higher bit is 0 |
| Hex.NibblesValue | binary_operation.py:299-331 | the nibbles have the numeral's value |
| Hex.HexToBitsValue | binary_operation.py:295-335 | the value of hex2bin(t, w) is the number the hex text denotes |
| Hex.Hex2Bin | binary_operation.py:295-335 | the method with the width check and the digit loop returns HexToBits |
| Hex.HexFill | binary_operation.py:299-335 | the digit loop succeeds exactly when every character is hex, and fills the nibbles over zeros |
| Hex.FillDigit | binary_operation.py:299-334 | one pass of the digit loop: it goes on exactly when the character is a hex digit, whose nibble then lands at bits 4i .. 4i+3; any other character means the text is not hex |
| Hex.HexToDec | binary_operation.py:338-339 | hex2dec fails with InvalidArgument when the text is not hex or does not fit the width, and otherwise fails (with EmptyVector) exactly at width 0 |
| Hex.HexToDecValue | binary_operation.py:338-339 | hex2dec unsigned is the numeral's value divided by 2^fixed_point; a zero width fails with EmptyVector |
| Hex.HexDigits | binary_operation.py:343-360 | bin2hex emits ceil(n / 4) digits |
| Hex.HexDigitsUpper | binary_operation.py:354-360 | every digit bin2hex emits is a hex digit and upper-case |
| Hex.HexDigitsValue | binary_operation.py:342-361 | the emitted numeral has the vector's value |
| Hex.HexRoundTrip | binary_operation.py:295-361 | hex2bin(t, 4 * \|t\|) succeeds, and bin2hex of it is t in upper case |
| Hex.HexCharOfValue | binary_operation.py:300-360 | bin2hex writes digit c's value back as c in upper case |
| Hex.GroupValue | binary_operation.py:349-353 | the inner loop (stopping at the end of the vector) sums the group's weights |
| Hex.BitsToHexShows | binary_operation.py:342-361 | bin2hex shows "<n>'h" when prefix is set, then ceil(n / 4) hex digits worth the vector's value |
| Hex.Bin2Hex | binary_operation.py:342-361 | the loop returns the digits, after "<n>'h" when prefix is set |
| Hex.HexLoop | binary_operation.py:343-360 | the loop over the groups returns the digits HexDigits(s), most significant first |
| Arithmetic.Difference | binary_operation.py:165-167 | sub(a, b, w): add of a resized to w and the negation of b resized to w, w bits |
| Arithmetic.DifferenceBits | binary_operation.py:165-167 | sub(a, b, w) is ToBits(Val(a) - Val(b), w), value (Val(a) - Val(b)) mod 2^w |
| Arithmetic.DifferenceInverse | binary_operation.py:150-167 | adding b (resized to w) back to sub(a, b, w) gives a resized to w |
| Arithmetic.PartialProduct | binary_operation.py:189-190 | mult's tmp for bit i: a shifted up by i within the width, the top bit through twos_comp; of the operand's length |
| Arithmetic.PartialProductBits | binary_operation.py:187-190 | the partial product for bit i is ToBits(2^i * Val(a), w) |
| Arithmetic.MultStep | binary_operation.py:186-191 | adding the partial product for a set bit i keeps the accumulator at a times the low i + 1 bits of b |
| Arithmetic.Mult | binary_operation.py:181-193 | mult's loop returns ToBits(Val(num1) * Val(num2), w), value the product mod 2^w |
| Arithmetic.ProductOfResized | binary_operation.py:183-184 | resizing the operands to w first does not change the product's low w bits |
| Arithmetic.AllZeroValue | binary_operation.py:208 | the denominator check den.sum() == 0 holds exactly when its value is 0 |
| Arithmetic.SubtractStep | binary_operation.py:214 | while n >= d, add(n, neg(d)) has the value n - d |
| Arithmetic.Subtract | binary_operation.py:214 | the loop body yields a vector of the same width with the value n - d |
| Arithmetic.Reduce | binary_operation.py:212-215 | the subtraction loop ends with quot = n div d and the rest n mod d |
| Arithmetic.QuotientBits | binary_operation.py:217 | dec2bin of the count gives w bits with that value |
| Arithmetic.Div | binary_operation.py:195-217 | DivisionByZero for an all-zero denominator; EmptyVector at width 0; otherwise w-bit quotient and remainder of the resized operands |
| Arithmetic.DivDivisorVanishes | binary_operation.py:208-215 | a denominator whose value is a multiple of 2^width resizes to zero, so the loop condition always holds and its body leaves n unchanged |
| Variables.ChosenWidth | binary_operation.py:22-28 | the width is the given one, else an array's length or the other variable's width, else InvalidArgument |
| Variables.Binary.Init | binary_operation.py:29-32 | the constructor stores the metadata |
| Variables.Binary.Dec | binary_operation.py:47-50 | dec fails exactly when the bits are empty |
| Variables.Binary.HexString | binary_operation.py:56-58 | the hex property shows bin2hex of the bits: the header when prefix is set, then digits worth the bits' value |
| Variables.Binary.Str | binary_operation.py:84-85 | str(var) shows the header when prefix is set, then the bits' digits most significant first |
| Variables.Binary.Round | binary_operation.py:87-88 | round(var, w) fails exactly when w >= width of the bits |
| Variables.Binary.SetValue | binary_operation.py:116-138 | per kind of value: the bits stored, the error raised, and that nothing else changes; a negative value for an unsigned variable is refused |
| Variables.Binary.DecCache | binary_operation.py:127-133 | the cache refresh fails exactly on a zero-width vector |
| Variables.Binary.Reset | binary_operation.py:78-82 | each given argument replaces the stored one; then, as set_value does under the new metadata, per kind of value the bits stored and the error raised |
| Variables.Binary.SetDec | binary_operation.py:98-102 | the bits become dec2bin of the number with the stored metadata |
| Variables.Binary.SetBin | binary_operation.py:104-108 | the array is stored as given, of any length |
| Variables.Binary.SetPrefix | binary_operation.py:110-113 | only the prefix changes |
| Variables.Binary.Plus | binary_operation.py:90-92 | a new variable with the left operand's metadata and bits ToBits(Val(a) + Val(b), width) |
| Variables.Binary.Minus | binary_operation.py:94-96 | a new variable with the left operand's metadata and bits ToBits(Val(a) - b read with its own sign, width) |
| Variables.New | binary_operation.py:11-33 | construction fails with InvalidArgument when no width can be chosen, and otherwise succeeds or fails per kind of value as set_value does, storing the bits it computes (dec2bin of another variable's dec, for another variable) |
| Variables.BinaryResize | binary_operation.py:268-270 | a new variable with the resized bits; growing keeps its dec |
| Variables.ResizeKeepsReading | binary_operation.py:268-270 | growing a vector with its own sign leaves bin2dec's reading unchanged |
| Variables.SumWrapped | binary_operation.py:91 | __add__'s bits are the sum of the two values mod 2^width |
| Variables.DifferenceWrapped | binary_operation.py:95 | __sub__'s bits are the left value minus the right one, read with its sign, mod 2^width |
| Variables.ResizeCongruent | binary_operation.py:256-265 | a resized vector agrees with the vector read with its sign, mod 2^width |
| Scenarios.DeclareBasic | Ex01_BasicOperations.py:9-14 | binary(10, width=4) prints 1010; after var.dec = 4 it prints 0100 and reads back as 4 |
| Scenarios.DeclareSigned | Ex01_BasicOperations.py:19-20 | binary(10, width=5, signed, prefix) prints 5'b0_1010 and reads back as 10 |
| Scenarios.DeclareFraction | Ex01_BasicOperations.py:23-24 | binary(0.25, width=4, fixed_point=3) prints 0010 and reads back as 0.25 |
| Scenarios.SliceAssign | Ex01_BasicOperations.py:29-32 | assigning the low four bits of 10 to a four-bit variable prints 4'b1010 |
| Scenarios.Increment | Ex01_BasicOperations.py:35-38 | 10 + 1 in five signed bits prints 5'b0_1011 |
| Scenarios.Operands | Ex02_Arithmetic.py:9-12 | var1 holds 10 in 5 signed bits and var2 holds 8 in 8 bits |
| Scenarios.Addition | Ex02_Arithmetic.py:17-18 | var1 + var2 prints 5'b1_0010 and var2 + var1 prints 8'b0001_0010 |
| Scenarios.Subtraction | Ex02_Arithmetic.py:21-22 | var1 - var2 prints 5'b0_0010 and var2 - var1 prints 8'b1111_1110 |
| Scenarios.Multiplication | Ex02_Arithmetic.py:27-28 | mult(var1, var2, 7) prints 7'b101_0000 |
| Scenarios.Division | Ex02_Arithmetic.py:31-32 | div(var1, var2, 7) gives quotient 7'b000_0001 and remainder 2 |

## Left out

- `read_dat_file` (file input) is not modelled. Its per-line decoding is `hex2dec`, which is.
- `str2bin` and `dec2hex` are unfinished stubs that return nothing, so they are not modelled.
- The `print` before `hex2bin`'s error is console output and is left out.
- Python `type(...)` dispatch and the TypeErrors of the setters are left out. The kind of value is the `Input` datatype, so a value of the wrong type cannot be written.
- Floating point is left out: decimal values are exact reals. `2**power` with a negative power is an exact `1 / 2^k`.
- The `__dec` cache is left out. `dec` always recomputes it, so `Binary.Dec` is a function of the bits. The methods that refresh the cache keep only the error that the refresh can raise.
- numpy aliasing is left out and vectors are values. `resize` at equal width returns the same array, and the `bin` getter hands out the stored array. A caller that mutates either would change the other, which the model does not capture.
- Adder.Add: requires both operands to have at least w bits. The source indexes them and raises IndexError otherwise.
- Adder.Sum: requires the same, for the same reason.
- Arithmetic.Difference: takes the width as a required argument. `sub` with no width passes None to `resize` and fails.
- Arithmetic.Div: requires that a nonzero denominator stays nonzero once resized to the width. Otherwise the source's zero check, made on the un-resized denominator, passes, and the loop never ends. `DivDivisorVanishes` states that case, and `DivDivisorVanishesExample` gives one (the denominator 4 at width 2).
- Arithmetic.Reduce: the loop's comparison is bin2dec at fixed point 0, unsigned. It is modelled as the comparison of `Val`, which is what that bin2dec returns on a non-empty vector.
- Variables.Binary.Plus: requires the stored bits to be at least as long as the width. `add` indexes them. The `bin` setter can store a shorter array, and the source then raises IndexError.
- Variables.Binary.Minus: requires the same, and that the right operand can be resized with its sign. A signed empty vector has no top bit to read.
- Variables.BinaryResize: requires the variable's bits to be resizable with its own sign, for the same reason.
- Widths.Resize: requires `ResizeDefined`: a signed empty vector that grows has no top bit, and `num[num.shape[0] - 1]` raises IndexError (binary_operation.py:260).
- Default arguments are left out: `add`'s `width=None` (the longer operand's length, binary_operation.py:159), the `width=32` of `dec2bin` and `hex2bin`, and `__call__`'s `value=0.0`. Every width is an explicit argument of the model.
- `fixed_point` is a `nat`. The library accepts any integer; a negative fixed point is not modelled.
- `rnd` keeps the top `width` bits (`num[n-width:]`) and adds one when `num[width]` is 1; that bit is not the one next to the kept bits (binary_operation.py:252-253). The model follows the code (`Widths.RndBits`).
- The `bin` setter stores an array of any length (binary_operation.py:104-108), so `Binary.SetBin` accepts any length. For hexadecimal text, `set_value` stores the bits and then fails in `bin2dec`, which is given the text (binary_operation.py:135-136); `Binary.SetValue` on `HexText` stores the bits and returns `Failed(NotAnArray)`.
- The subtraction comments in the arithmetic example script repeat the sums. The printed results are the ones `Scenarios.Subtraction` proves.

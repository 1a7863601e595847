# ip_calc converters in Dafny

This project models the two textual converters of the `ip_calc` IPv4 subnet
calculator (`ip_calc.py`), which work on the dotted-binary form of addresses
and masks:

- `bin_to_decimal_address` splits a dotted string of bit blocks on `.`, reads
  every block as an unsigned binary number (adding `2**power` for each `'1'`,
  the power counted from the rightmost character as 0), prints each value with
  `str` and joins the numerals with `.`;
- `invert_bin_address` swaps every `'0'` and `'1'` through
  `str.translate(str.maketrans("01", "10"))` and leaves every other character,
  the dots included, as it is.

Files:

- `pystr.dfy`, module `PyStr`: the Python built-ins the converters call,
  modelled by their observable effect: `s.split(sep)` with an explicit
  separator (`Split`), `sep.join(parts)` (`Join`), `str(n)` of a non-negative
  int (`Str`), `str.maketrans(from, to)` (`MakeTrans`) and `s.translate(table)`
  (`Translate`). Strings are `seq<char>`.
- `ip_calc.dfy`, module `IpCalc`: the block value `BinValue` and the
  specification `BinToDecimal` of `bin_to_decimal_address`; the method
  `BinToDecimalAddress`, which keeps the source's two nested loops (the outer
  one appends to the list of decimal blocks, the inner one accumulates
  `2**power` from the right) and is proved equal to `BinToDecimal`; the pure
  `Invert` for `invert_bin_address`; and the lemmas relating them.

Like the source, the model accepts any string: blocks of any length and any
characters, where a character is a Unicode scalar value. A character other than `'1'` adds nothing to a block's value,
and an empty block has value 0 and prints as `"0"`. The code does not check
the number of blocks, their length or their alphabet, and the model follows
the code.

## Model

| member | source | states |
|---|---|---|
| `PyStr.Split` | ip_calc.py:13 | `split('.')` yields at least one piece and no piece contains the separator |
| `PyStr.JoinSplit` | ip_calc.py:13 | joining the pieces of a split with the separator gives the original string back |
| `PyStr.Join` | ip_calc.py:22 | `'.'.join(parts)` starts with the first part; with `PyStr.Split` it round-trips both ways (`PyStr.JoinSplit`, `PyStr.SplitJoin`), and `IpCalc.JoinQuad` spells out the four-block case |
| `PyStr.JoinChars` | ip_calc.py:22 | every character of a join is the separator or a character of one of the parts |
| `PyStr.SplitJoin` | ip_calc.py:22 | splitting a join of separator-free parts gives exactly those parts, in order |
| `PyStr.Str` | ip_calc.py:21 | `str(n)` is a non-empty string of decimal digits, has no leading zero unless it is `"0"` for 0, and its decimal value is `n` |
| `PyStr.MakeTrans` | ip_calc.py:33 | `str.maketrans(from, to)` maps exactly the characters of `from`, and the last occurrence of a character in `from` decides its image |
| `PyStr.Translate` | ip_calc.py:33 | `s.translate(table)` keeps the length; for the one table the source uses, `IpCalc.Invert` states the per-character effect and `IpCalc.BitSwapIsMakeTrans` ties that table to `maketrans` |
| `IpCalc.BitSwapIsMakeTrans` | ip_calc.py:33 | `str.maketrans("01", "10")` is the table `{'0': '1', '1': '0'}` |
| `IpCalc.BinValue` | ip_calc.py:16-20 | the positional sum of a block is below `2^len` |
| `IpCalc.BinValueIsHorner` | ip_calc.py:16-20 | the sum of `2**power` over the `'1'` positions, counted from the right, equals the ordinary most-significant-first reading of the binary numeral |
| `IpCalc.BinValueAppend` | ip_calc.py:16-20 | appending one character to a block doubles its value and adds 1 exactly when the character is `'1'` |
| `IpCalc.BinValueOnlyOnes` | ip_calc.py:19-20 | two blocks of equal length with `'1'` in the same positions have the same value: other characters add nothing |
| `IpCalc.BinValueOnes` | ip_calc.py:17-20 | a block of `n` ones is worth `2^n - 1` |
| `IpCalc.OctetRange` | ip_calc.py:16-20 | a block of at most 8 characters has a value in [0, 255], and eight `'1'`s give 255 |
| `IpCalc.BinToDecimal` | ip_calc.py:7-22 | the reference definition of `bin_to_decimal_address`: its result holds only decimal digits and dots; `IpCalc.SplitBinToDecimal` and `IpCalc.BinToDecimalBlock` state its blocks, and `IpCalc.BinToDecimalAddress` is proved equal to it |
| `IpCalc.JoinQuad` | ip_calc.py:22 | joining four blocks with dots gives the blocks with a dot between neighbours |
| `IpCalc.BinToDecimalAddress` | ip_calc.py:7-22 | the nested loops return exactly `BinToDecimal(binAddress)`: the per-block decimal numerals of the split input, joined with dots |
| `IpCalc.SplitBinToDecimal` | ip_calc.py:13-22 | splitting the output on `.` gives the decimal numerals of the input blocks, one per block, in the same order |
| `IpCalc.BinToDecimalBlock` | ip_calc.py:13-22 | the output has as many blocks as the input; output block `i` is a decimal numeral without leading zeros whose value is the bit sum of input block `i`; a block of value 0 (empty, or without a `'1'`) gives `"0"`, so no output block is empty |
| `IpCalc.AllOnesAddress` | ip_calc.py:10-11 | the documented example: `11111111.11111111.11111111.11111111` gives `255.255.255.255` |
| `IpCalc.Invert` | ip_calc.py:25-34 | the result has the same length; `'0'` becomes `'1'`, `'1'` becomes `'0'`, and every other character, dots included, is unchanged |
| `IpCalc.InvertInvolution` | ip_calc.py:33 | inverting twice returns the original string |
| `IpCalc.InvertConcat` | ip_calc.py:33 | inversion distributes over concatenation |
| `IpCalc.InvertBinValue` | ip_calc.py:33 | for a block of `'0'`s and `'1'`s, the inverted block is worth `2^len - 1` minus the original |
| `IpCalc.InvertKeepsDots` | ip_calc.py:33 | a string holds a dot exactly when its inversion does |
| `IpCalc.InvertJoin` | ip_calc.py:33 | inverting a dot-joined string gives the dot-join of the inverted pieces |
| `IpCalc.InvertSplit` | ip_calc.py:33 | inversion keeps the dots in place: the blocks of the inverted address are the inverted blocks of the address |
| `IpCalc.InvertedToDecimal` | ip_calc.py:7-34 | converting an inverted address of bit blocks gives, per block, `2^len - 1` minus the original value, which is `255` minus it for 8-bit blocks |
| `IpCalc.InvertExampleMask21` | ip_calc.py:28-29 | the first documented example: `11111111.11111000.00000000.00000000` inverts to `00000000.00000111.11111111.11111111` |
| `IpCalc.InvertExampleMask28` | ip_calc.py:30-31 | the second documented example: `11111111.11111111.11111111.11110000` inverts to `00000000.00000000.00000000.00001111` |

## Left out

- The rest of the subnet calculator is not part of this model: the mask from a prefix length, the network and broadcast addresses, the usable range, the host count, and the class and private-address checks. Only the two converters are modelled.
- The module docstring (ip_calc.py:1-4) is documentation. The doctest examples in the two function docstrings (ip_calc.py:10-11, 28-31) are stated as lemmas instead: `IpCalc.AllOnesAddress`, `IpCalc.InvertExampleMask21` and `IpCalc.InvertExampleMask28`.
- Python's `reversed` and `enumerate` are not modelled as iterators. The inner loop reads the character at index `len - 1 - power`, which has the same effect.
- `PyStr.Split` models only `split` with an explicit one-character separator, the form the source uses. The whitespace-splitting form without an argument is not modelled.
- `PyStr.Translate` models only tables that map characters to characters, the kind `maketrans` builds from two strings. Tables that delete characters or map them to longer strings are not modelled.
- `IpCalc.Invert` uses the literal table `BitSwap` for `str.maketrans("01", "10")` rather than evaluating `MakeTrans` on each call. `IpCalc.BitSwapIsMakeTrans` proves the two tables are equal.
- A Python `str` can also hold lone surrogates (U+D800 to U+DFFF), which a Dafny `char` cannot represent. Such a character would behave like any other character that is not `'0'` or `'1'`: it adds nothing to a block's value and `invert_bin_address` keeps it.
- Python's integers are unbounded, and so are Dafny's `nat`. The source does no fixed-width arithmetic, so no width or overflow is modelled.
- `PyStr.Str`: the interpreter's limit on converting an int to a decimal string is not modelled. Since Python 3.11 (and the 3.7-3.10 security releases), `str()` raises `ValueError` for a value of more than 4300 digits by default (`sys.set_int_max_str_digits`). So `bin_to_decimal_address` raises at ip_calc.py:21 for a block whose value is 10^4300 or more, where the model returns a numeral. The value decides this, not the number of `'1'`s: every block with a `'1'` at power 14,285 or higher raises, and so do some blocks whose highest `'1'` is at power 14,284, such as 14,285 consecutive `'1'`s.

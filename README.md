# Hex-listing formatter of the basic SoC firmware

The firmware of the basic system-on-chip is built into `firmware.hex`, one
32-bit instruction per line. The script `basic_soc/beautify_hex.py` turns that
dump into a listing: line `i` (counted from 0) holds the instruction at byte
address `4 * i`, so it is printed as that address in lowercase hexadecimal,
zero-padded to at least eight digits, then `": "`, then the line with its
surrounding whitespace removed.

The model has three modules:

- `HexFormat` (`hex_format.dfy`): the `08x` conversion. `ToHex` gives the
  shortest lowercase spelling of a natural number, `PadZeros` pads on the left
  with `'0'`, and `Format08x` combines the two. `HexValue` and `ParseHex` read
  such a field back; they are the inverse used to state the round trip.
- `Whitespace` (`whitespace.dfy`): Python's `str.strip()` with no argument, as
  `TrimStart`, `TrimEnd` and `Strip`, with lemmas that characterise it
  completely: the result is a slice of the input with only whitespace cut off
  on both sides, it has no whitespace at either end, and it is the only string
  with those properties.
- `BeautifyHex` (`beautify_hex.dfy`): `FormatLine` assembles one output line.
  The method `Beautify` is the `enumerate` loop, appending one output line per
  input line. `ParseLine` splits an output line back into its address and its
  content and serves as the partner of `FormatLine`.

Addresses are unbounded naturals, as Python integers are. Nothing wraps at
2^32; a larger address prints with more than eight digits, and
`Format08xWidth` proves both directions of that.

## Model

| member | source | states |
|---|---|---|
| HexFormat.ToHex | basic_soc/beautify_hex.py:7 | the hex spelling of the address is non-empty, uses only `0-9a-f`, and starts with `'0'` only when the address is zero |
| HexFormat.PadZeros | basic_soc/beautify_hex.py:7 | zero padding gives length `max(width, len)`, keeps the digits as the suffix, and adds only `'0'` characters on the left |
| HexFormat.DigitValue | basic_soc/beautify_hex.py:7 | every lowercase hex digit has a value below 16 that spells back to the same digit |
| HexFormat.HexValueToHex | basic_soc/beautify_hex.py:7 | decoding the shortest hex spelling of `n` gives `n` |
| HexFormat.HexValueLeadingZeros | basic_soc/beautify_hex.py:7 | leading `'0'` padding does not change the value a field denotes |
| HexFormat.ToHexLength | basic_soc/beautify_hex.py:7 | the shortest spelling of `n` has at most `k` digits exactly when `n < 16^k` |
| HexFormat.Format08x | basic_soc/beautify_hex.py:7 | the address field has only lowercase hex digits and at least 8 of them, and is padded with `'0'` only on the left, so a field wider than 8 does not start with `'0'` |
| HexFormat.Format08xWidth | basic_soc/beautify_hex.py:7 | the address field is exactly 8 characters if and only if the address is below 2^32 |
| HexFormat.Format08xRoundTrip | basic_soc/beautify_hex.py:6-7 | parsing the address field as hexadecimal gives back the address |
| HexFormat.Format08xInjective | basic_soc/beautify_hex.py:6-7 | two different addresses never print as the same field |
| Whitespace.TrimStartSuffix | basic_soc/beautify_hex.py:7 | removing leading whitespace keeps a suffix of the line that does not start with whitespace, and removes only whitespace |
| Whitespace.TrimEndPrefix | basic_soc/beautify_hex.py:7 | removing trailing whitespace keeps a prefix of the line that does not end with whitespace, and removes only whitespace |
| Whitespace.StripSlice | basic_soc/beautify_hex.py:7 | the stripped line is a slice `s[a..b]` of the input, so the interior is unchanged; only whitespace lies before `a` and after `b`; and it has no leading or trailing whitespace |
| Whitespace.StripUnique | basic_soc/beautify_hex.py:7 | for every split of a line into whitespace, a middle with no whitespace at either end, and whitespace, the middle is the stripped line |
| Whitespace.StripIdempotent | basic_soc/beautify_hex.py:7 | stripping an already stripped line changes nothing |
| Whitespace.StripAllSpace | basic_soc/beautify_hex.py:7 | a line of only whitespace (such as an empty trailing line) strips to the empty string |
| BeautifyHex.ParseLineOf | basic_soc/beautify_hex.py:7 | a hex field followed by `": "` and any content parses back into that field's value and exactly that content |
| BeautifyHex.FormatLineRoundTrip | basic_soc/beautify_hex.py:6-7 | parsing output line `i` gives the address `4*i` and the stripped input line, so the line is the address field, `": "` and the content with nothing else |
| BeautifyHex.FormatLineAddressField | basic_soc/beautify_hex.py:6-7 | output line `i` is a field, `": "` and the stripped line; the field has only lowercase hex digits, is at least 8 wide, is exactly 8 wide if and only if `4*i < 2^32`, and decodes to `4*i` |
| BeautifyHex.Beautify | basic_soc/beautify_hex.py:5-7 | the loop emits exactly one output line per input line, in input order; line `i` is the formatted line `i`, decodes to address `4*i` and the stripped input line, and addresses of lines `i` and `j` differ by `4*(j-i)` (so consecutive lines step by 4 and addresses strictly increase) |

## Left out

- Reading `firmware.hex` (basic_soc/beautify_hex.py:2-3) is file I/O. The input is a given sequence of lines. The universal-newline translation that Python's text mode does while reading is not modelled.
- Printing each line to standard output (basic_soc/beautify_hex.py:7) is console I/O. `Beautify` returns the output lines in printing order instead.
- The whitespace set of `Whitespace.IsSpace` is that of current Python 3 `str.isspace`, fixed in the model. It is the ASCII controls 9 to 13 and 28 to 31, the space, U+0085, U+00A0, U+1680, U+2000 to U+200A, U+2028, U+2029, U+202F, U+205F and U+3000. The model does not follow changes in Python's Unicode database.
- Dafny's `char` is a Unicode scalar value, so lone surrogate code points, which a Python string can hold, cannot appear in a modelled line.
- `basic_soc/main.c` is not part of this model. Its memory-mapped UART store at address 0x100 and the stack-pointer setup in inline assembly are hardware effects. Its `while (1)` loop never terminates. Its volatile busy-wait exists only for timing. The bytes it sends, "SHAKTI\n\r", are a fixed constant.

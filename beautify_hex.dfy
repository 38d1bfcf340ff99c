/** The hex-listing formatter: line `i` of a firmware hex dump holds one
    32-bit instruction, so it is printed as its byte address `4 * i` in the
    `08x` format, then ": ", then the line without surrounding whitespace. */
module BeautifyHex {
  import opened HexFormat
  import opened Whitespace

  /** Bytes per line: one 32-bit instruction. */
  const InstructionBytes: nat := 4

  const Separator: string := ": "

  /** The byte address of the instruction on line `i`. */
  function LineAddress(i: nat): nat {
    i * InstructionBytes
  }

  /** Output line `i`: the address field of its byte address, the
      separator, then the input line stripped of surrounding whitespace. */
  function FormatLine(i: nat, line: string): string {
    Format08x(LineAddress(i)) + Separator + Strip(line)
  }

  /** The length of the longest prefix of `s` made of hex digits. */
  function HexPrefixLength(s: string): (n: nat)
    ensures n <= |s|
    ensures AllHexDigits(s[..n])
    ensures n < |s| ==> !IsHexDigit(s[n])
  {
    if s != [] && IsHexDigit(s[0]) then
      var n := 1 + HexPrefixLength(s[1..]);
      assert s[..n] == [s[0]] + s[1..][..n - 1];
      n
    else 0
  }

  /** Reads an output line back into its address and its content: a
      non-empty run of hex digits, then ": ", then the rest. */
  function ParseLine(s: string): Option<(nat, string)> {
    var k := HexPrefixLength(s);
    if k >= 1 && k + |Separator| <= |s| && s[k..k + |Separator|] == Separator then
      Some((HexValue(s[..k]), s[k + |Separator|..]))
    else None
  }

  lemma {:induction false} HexPrefixLengthOf(f: string, u: string)
    requires AllHexDigits(f)
    requires u != [] && !IsHexDigit(u[0])
    ensures HexPrefixLength(f + u) == |f|
  {
    if f != [] {
      assert (f + u)[1..] == f[1..] + u;
      HexPrefixLengthOf(f[1..], u);
    } else {
      assert f + u == u;
    }
  }

  /** A hex field, the separator and any content read back as that field's
      value and that content. */
  lemma ParseLineOf(f: string, c: string)
    requires |f| >= 1 && AllHexDigits(f)
    ensures ParseLine(f + Separator + c) == Some((HexValue(f), c))
  {
    var s := f + Separator + c;
    assert s == f + (Separator + c);
    assert (Separator + c)[0] == ':';
    HexPrefixLengthOf(f, Separator + c);
    assert s[..|f|] == f;
    assert s[|f|..|f| + |Separator|] == Separator;
    assert s[|f| + |Separator|..] == c;
  }

  /** Reading an output line back gives the address `4 * i` and the stripped
      input line. */
  lemma FormatLineRoundTrip(i: nat, line: string)
    ensures ParseLine(FormatLine(i, line)) == Some((4 * i, Strip(line)))
  {
    var n := LineAddress(i);
    Format08xRoundTrip(n);
    ParseLineOf(Format08x(n), Strip(line));
  }

  /** The address field of line `i`: only lowercase hex digits, at least
      eight wide, exactly eight while the address is below 2^32. */
  lemma FormatLineAddressField(i: nat, line: string) returns (f: string)
    ensures FormatLine(i, line) == f + Separator + Strip(line)
    ensures AllHexDigits(f) && |f| >= 8
    ensures |f| == 8 <==> 4 * i < 0x1_0000_0000
    ensures ParseHex(f) == Some(4 * i)
  {
    f := Format08x(LineAddress(i));
    Format08xWidth(LineAddress(i));
    Format08xRoundTrip(LineAddress(i));
  }

  /** The whole listing: one output line per input line, in order. */
  method Beautify(lines: seq<string>) returns (out: seq<string>)
    ensures |out| == |lines|
    ensures forall i :: 0 <= i < |lines| ==> out[i] == FormatLine(i, lines[i])
    ensures forall i :: 0 <= i < |lines| ==> ParseLine(out[i]) == Some((4 * i, Strip(lines[i])))
    ensures forall i, j :: 0 <= i < |lines| && 0 <= j < |lines| ==>
      ParseLine(out[j]).value.0 - ParseLine(out[i]).value.0 == 4 * (j - i)
  {
    out := [];
    for i := 0 to |lines|
      invariant |out| == i
      invariant forall k :: 0 <= k < i ==> out[k] == FormatLine(k, lines[k])
    {
      var addr := i * 4;
      out := out + [Format08x(addr) + Separator + Strip(lines[i])];
    }
    forall i | 0 <= i < |lines|
      ensures ParseLine(out[i]) == Some((4 * i, Strip(lines[i])))
    {
      FormatLineRoundTrip(i, lines[i]);
    }
  }
}

/** Python's `format(n, "08x")` for a non-negative integer: the shortest
    lowercase hexadecimal spelling of `n`, left-padded with '0' to at least
    eight characters. `HexValue` and `ParseHex` read such a field back. */
module HexFormat {

  /** The minimum field width of the `08x` format specification. */
  const MinWidth: nat := 8

  datatype Option<T> = None | Some(value: T)

  function Pow16(k: nat): (r: nat)
    ensures r >= 1
  {
    if k == 0 then 1 else 16 * Pow16(k - 1)
  }

  predicate IsHexDigit(c: char) {
    '0' <= c <= '9' || 'a' <= c <= 'f'
  }

  predicate AllHexDigits(s: string) {
    forall k :: 0 <= k < |s| ==> IsHexDigit(s[k])
  }

  /** The lowercase digit for a value below 16. */
  function HexDigit(d: nat): (c: char)
    requires d < 16
    ensures IsHexDigit(c)
  {
    if d < 10 then '0' + d as char else 'a' + (d - 10) as char
  }

  /** The value of one lowercase hexadecimal digit. */
  function DigitValue(c: char): (d: nat)
    requires IsHexDigit(c)
    ensures d < 16
    ensures HexDigit(d) == c
  {
    if c <= '9' then (c - '0') as nat else (c - 'a') as nat + 10
  }

  /** The shortest hexadecimal spelling of `n`: "0" for zero, otherwise
      no leading '0'. */
  function ToHex(n: nat): (r: string)
    ensures |r| >= 1
    ensures AllHexDigits(r)
    ensures r[0] == '0' ==> n == 0
    decreases n
  {
    if n < 16 then [HexDigit(n)] else ToHex(n / 16) + [HexDigit(n % 16)]
  }

  /** `s` left-padded with '0' up to `width` characters; unchanged when it is
      already that long. */
  function PadZeros(s: string, width: nat): (r: string)
    ensures |r| == if |s| >= width then |s| else width
    ensures r[|r| - |s|..] == s
    ensures forall k :: 0 <= k < |r| - |s| ==> r[k] == '0'
  {
    if |s| >= width then s else seq(width - |s|, _ => '0') + s
  }

  /** The address field the listing prints: `n` in the `08x` format. Only
      lowercase hex digits, at least eight of them, and '0' padding only on
      the left, so a field wider than eight does not start with '0'. */
  function Format08x(n: nat): (r: string)
    ensures AllHexDigits(r)
    ensures |r| >= MinWidth
    ensures |r| > MinWidth ==> r[0] != '0'
  {
    PadZeros(ToHex(n), MinWidth)
  }

  /** The number a string of lowercase hexadecimal digits denotes (most
      significant digit first); the empty string denotes 0. */
  function HexValue(s: string): nat
    requires AllHexDigits(s)
  {
    if s == [] then 0 else 16 * HexValue(s[..|s| - 1]) + DigitValue(s[|s| - 1])
  }

  /** Reads a non-empty field of lowercase hexadecimal digits. */
  function ParseHex(s: string): (r: Option<nat>)
    ensures r.Some? <==> |s| >= 1 && AllHexDigits(s)
  {
    if |s| >= 1 && AllHexDigits(s) then Some(HexValue(s)) else None
  }

  /** Decoding the shortest spelling gives the number back. */
  lemma {:induction false} HexValueToHex(n: nat)
    ensures HexValue(ToHex(n)) == n
    decreases n
  {
    var r := ToHex(n);
    if n < 16 {
      assert r[..0] == [];
    } else {
      HexValueToHex(n / 16);
      assert r[..|r| - 1] == ToHex(n / 16);
    }
  }

  /** A field of '0' characters denotes zero. */
  lemma {:induction false} HexValueZeros(z: string)
    requires forall k :: 0 <= k < |z| ==> z[k] == '0'
    ensures AllHexDigits(z) && HexValue(z) == 0
  {
    if z != [] {
      HexValueZeros(z[..|z| - 1]);
    }
  }

  /** Leading zeros do not change the value of a field. */
  lemma {:induction false} HexValueLeadingZeros(z: string, s: string)
    requires forall k :: 0 <= k < |z| ==> z[k] == '0'
    requires AllHexDigits(s)
    ensures AllHexDigits(z + s) && HexValue(z + s) == HexValue(s)
  {
    if s == [] {
      assert z + s == z;
      HexValueZeros(z);
    } else {
      var s' := s[..|s| - 1];
      HexValueLeadingZeros(z, s');
      assert (z + s)[..|z + s| - 1] == z + s';
    }
  }

  /** The shortest spelling fits in `k` digits exactly when `n < 16^k`. */
  lemma {:induction false} ToHexLength(n: nat, k: nat)
    requires k >= 1
    ensures |ToHex(n)| <= k <==> n < Pow16(k)
    decreases n
  {
    if n >= 16 {
      if k == 1 {
        assert Pow16(1) == 16;
      } else {
        ToHexLength(n / 16, k - 1);
        assert n / 16 < Pow16(k - 1) <==> n < 16 * Pow16(k - 1);
      }
    } else {
      Pow16AtLeast16(k);
    }
  }

  lemma {:induction false} Pow16AtLeast16(k: nat)
    requires k >= 1
    ensures Pow16(k) >= 16
  {
    if k > 1 {
      Pow16AtLeast16(k - 1);
    }
  }

  lemma Pow16Of8()
    ensures Pow16(8) == 0x1_0000_0000
  {
    assert Pow16(2) == 0x100;
    assert Pow16(4) == 0x1_0000;
    assert Pow16(6) == 0x100_0000;
  }

  /** Every address below 2^32 prints as exactly eight digits; every larger
      one needs more. */
  lemma Format08xWidth(n: nat)
    ensures |Format08x(n)| == MinWidth <==> n < 0x1_0000_0000
  {
    ToHexLength(n, MinWidth);
    Pow16Of8();
  }

  /** Decoding the address field gives the address back. */
  lemma Format08xRoundTrip(n: nat)
    ensures ParseHex(Format08x(n)) == Some(n)
  {
    var f := Format08x(n);
    var h := ToHex(n);
    var z := f[..|f| - |h|];
    assert f == z + h;
    HexValueLeadingZeros(z, h);
    HexValueToHex(n);
  }

  /** Distinct addresses print as distinct fields. */
  lemma Format08xInjective(m: nat, n: nat)
    requires Format08x(m) == Format08x(n)
    ensures m == n
  {
    Format08xRoundTrip(m);
    Format08xRoundTrip(n);
  }
}

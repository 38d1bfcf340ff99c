/** Python's `str.strip()` with no argument: remove every leading and every
    trailing whitespace character, keep the rest as it is. */
module Whitespace {

  /** The characters Python 3's `str.isspace` accepts: the ASCII controls
      TAB, LF, VT, FF, CR and the separators FS, GS, RS, US, the space, and
      the non-ASCII separators and spaces. */
  predicate IsSpace(c: char) {
    || '\t' <= c <= '\r'
    || '\U{1C}' <= c <= '\U{1F}'
    || c == ' '
    || c == '\U{85}'
    || c == '\U{A0}'
    || c == '\U{1680}'
    || '\U{2000}' <= c <= '\U{200A}'
    || c == '\U{2028}'
    || c == '\U{2029}'
    || c == '\U{202F}'
    || c == '\U{205F}'
    || c == '\U{3000}'
  }

  predicate AllSpace(s: string) {
    forall k :: 0 <= k < |s| ==> IsSpace(s[k])
  }

  /** Neither starts nor ends with whitespace. */
  predicate Trimmed(s: string) {
    s == [] || (!IsSpace(s[0]) && !IsSpace(s[|s| - 1]))
  }

  /** `s` without its leading whitespace. */
  function TrimStart(s: string): string {
    if s != [] && IsSpace(s[0]) then TrimStart(s[1..]) else s
  }

  /** `s` without its trailing whitespace. */
  function TrimEnd(s: string): string {
    if s != [] && IsSpace(s[|s| - 1]) then TrimEnd(s[..|s| - 1]) else s
  }

  function Strip(s: string): string {
    TrimEnd(TrimStart(s))
  }

  /** TrimStart keeps a suffix of `s` that does not start with whitespace,
      and cuts off only whitespace. */
  lemma {:induction false} TrimStartSuffix(s: string)
    ensures |TrimStart(s)| <= |s| && TrimStart(s) == s[|s| - |TrimStart(s)|..]
    ensures AllSpace(s[..|s| - |TrimStart(s)|])
    ensures TrimStart(s) == [] || !IsSpace(TrimStart(s)[0])
  {
    if s != [] && IsSpace(s[0]) {
      TrimStartSuffix(s[1..]);
      var r := TrimStart(s);
      assert s[1..][|s| - 1 - |r|..] == s[|s| - |r|..];
      forall k | 0 <= k < |s| - |r|
        ensures IsSpace(s[k])
      {
        if k > 0 {
          assert s[k] == s[1..][..|s| - 1 - |r|][k - 1];
        }
      }
    }
  }

  /** TrimEnd keeps a prefix of `s` that does not end with whitespace, and
      cuts off only whitespace. */
  lemma {:induction false} TrimEndPrefix(s: string)
    ensures |TrimEnd(s)| <= |s| && TrimEnd(s) == s[..|TrimEnd(s)|]
    ensures AllSpace(s[|TrimEnd(s)|..])
    ensures TrimEnd(s) == [] || !IsSpace(TrimEnd(s)[|TrimEnd(s)| - 1])
  {
    if s != [] && IsSpace(s[|s| - 1]) {
      var s' := s[..|s| - 1];
      TrimEndPrefix(s');
      var r := TrimEnd(s);
      assert s'[..|r|] == s[..|r|];
      forall k | |r| <= k < |s|
        ensures IsSpace(s[k])
      {
        if k < |s| - 1 {
          assert s[k] == s'[|r|..][k - |r|];
        }
      }
    }
  }

  /** The stripped line is a contiguous slice `s[a..b]` of the input, its
      interior unchanged, with only whitespace cut off on either side, and it
      has no leading or trailing whitespace. */
  lemma StripSlice(s: string) returns (a: nat, b: nat)
    ensures a <= b <= |s|
    ensures Strip(s) == s[a..b]
    ensures AllSpace(s[..a]) && AllSpace(s[b..])
    ensures Trimmed(Strip(s))
  {
    var t := TrimStart(s);
    var r := TrimEnd(t);
    TrimStartSuffix(s);
    TrimEndPrefix(t);
    a := |s| - |t|;
    b := a + |r|;
    assert t == s[a..];
    assert r == t[..|r|];
    assert s[a..b] == r;
    assert s[b..] == t[|r|..];
    assert AllSpace(t[|r|..]);
    if r != [] {
      assert r[0] == t[0];
      assert !IsSpace(r[0]) && !IsSpace(r[|r| - 1]);
    }
  }

  /** Strip is determined by that description: whatever way `s` splits into
      whitespace, a trimmed middle and whitespace, the middle is `Strip(s)`. */
  lemma {:induction false} StripUnique(s: string, p: string, t: string, q: string)
    requires s == p + t + q
    requires AllSpace(p) && AllSpace(q) && Trimmed(t)
    ensures Strip(s) == t
  {
    if t == [] {
      assert s == (p + q) + [];
      TrimStartOf(p + q, []);
    } else {
      assert s == p + (t + q);
      TrimStartOf(p, t + q);
      TrimEndOf(t, q);
    }
  }

  lemma {:induction false} TrimStartOf(p: string, u: string)
    requires AllSpace(p)
    requires u == [] || !IsSpace(u[0])
    ensures TrimStart(p + u) == u
  {
    if p != [] {
      assert (p + u)[1..] == p[1..] + u;
      TrimStartOf(p[1..], u);
    } else {
      assert p + u == u;
    }
  }

  lemma {:induction false} TrimEndOf(t: string, q: string)
    requires AllSpace(q)
    requires t == [] || !IsSpace(t[|t| - 1])
    ensures TrimEnd(t + q) == t
  {
    if q != [] {
      assert (t + q)[..|t + q| - 1] == t + q[..|q| - 1];
      TrimEndOf(t, q[..|q| - 1]);
    } else {
      assert t + q == t;
    }
  }

  /** Stripping twice is stripping once. */
  lemma StripIdempotent(s: string)
    ensures Strip(Strip(s)) == Strip(s)
  {
    var _, _ := StripSlice(s);
    var t := Strip(s);
    assert t == [] + t + [];
    StripUnique(t, [], t, []);
  }

  /** A line of whitespace only strips to the empty string. */
  lemma StripAllSpace(s: string)
    requires AllSpace(s)
    ensures Strip(s) == []
  {
    assert s == s + [] + [];
    StripUnique(s, s, [], []);
  }
}

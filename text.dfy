/** The few pieces of Python's `str` behaviour that both scripts rely on:
    whitespace stripping, `sep.join(parts)`, `str(n)` for integers and the
    zero-padded decimal fields that `strftime` writes. */
module Text {

  // ---------------------------------------------------------------------------
  // Whitespace and str.strip()
  // ---------------------------------------------------------------------------

  /** Python's `str.isspace()` on one character: the characters `str.strip()`
      removes and the regular-expression class `\s` matches. */
  predicate IsSpace(c: char) {
    || ('\t' <= c <= '\r')
    || ('\U{1C}' <= c <= ' ')
    || c == '\U{85}' || c == '\U{A0}' || c == '\U{1680}'
    || ('\U{2000}' <= c <= '\U{200A}')
    || c == '\U{2028}' || c == '\U{2029}' || c == '\U{202F}' || c == '\U{205F}'
    || c == '\U{3000}'
  }

  predicate AllSpace(s: string) {
    forall k :: 0 <= k < |s| ==> IsSpace(s[k])
  }

  /** `s.lstrip()`: a suffix of `s` (see `TrimStartSpec`). */
  function TrimStart(s: string): (r: string)
    ensures |r| <= |s|
  {
    if |s| > 0 && IsSpace(s[0]) then TrimStart(s[1..]) else s
  }

  /** `s.lstrip()` removes whitespace only, and all of it: what remains does
      not start with whitespace. */
  lemma {:induction false} TrimStartSpec(s: string)
    ensures var r := TrimStart(s); r == s[|s| - |r|..]
    ensures var r := TrimStart(s); AllSpace(s[..|s| - |r|])
    ensures var r := TrimStart(s); r == [] || !IsSpace(r[0])
  {
    if |s| > 0 && IsSpace(s[0]) {
      TrimStartSpec(s[1..]);
      var r := TrimStart(s);
      assert r == TrimStart(s[1..]);
      assert s[..|s| - |r|] == [s[0]] + s[1..][..|s| - 1 - |r|];
    }
  }

  /** `s.rstrip()`: a prefix of `s` (see `TrimEndSpec`). */
  function TrimEnd(s: string): (r: string)
    ensures |r| <= |s|
  {
    if |s| > 0 && IsSpace(s[|s| - 1]) then TrimEnd(s[..|s| - 1]) else s
  }

  /** `s.rstrip()` removes whitespace only, and all of it: what remains does
      not end with whitespace. */
  lemma {:induction false} TrimEndSpec(s: string)
    ensures var r := TrimEnd(s); r == s[..|r|]
    ensures var r := TrimEnd(s); AllSpace(s[|r|..])
    ensures var r := TrimEnd(s); r == [] || !IsSpace(r[|r| - 1])
  {
    if |s| > 0 && IsSpace(s[|s| - 1]) {
      TrimEndSpec(s[..|s| - 1]);
      var r := TrimEnd(s);
      assert r == TrimEnd(s[..|s| - 1]);
      assert s[|r|..] == s[..|s| - 1][|r|..] + [s[|s| - 1]];
    }
  }

  /** `s.strip()`. */
  function Strip(s: string): string
  {
    TrimEnd(TrimStart(s))
  }

  /** `strip` leaves a text that neither starts nor ends with whitespace, and
      leaves nothing exactly when the text is all whitespace. */
  lemma StripSpec(s: string)
    ensures var r := Strip(s); r == [] || (!IsSpace(r[0]) && !IsSpace(r[|r| - 1]))
    ensures Strip(s) == [] <==> AllSpace(s)
  {
    var t := TrimStart(s);
    TrimStartSpec(s);
    var r := TrimEnd(t);
    TrimEndSpec(t);
    if r == [] {
      assert AllSpace(t) by { assert t[|r|..] == t; }
      assert s == s[..|s| - |t|] + t;
    } else {
      assert r[0] == t[0] == s[|s| - |t|];
    }
  }

  /** A text is all whitespace exactly when its stripped form is. */
  lemma StripAllSpace(s: string)
    ensures AllSpace(Strip(s)) <==> AllSpace(s)
  {
    StripSpec(s);
    var r := Strip(s);
    if r != [] {
      assert !IsSpace(r[0]);
    }
  }

  /** Stripping leading whitespace from `lead + core` gives `core` when `core`
      does not start with whitespace. */
  lemma {:induction false} TrimStartOfPadded(lead: string, core: string)
    requires AllSpace(lead)
    requires core == [] || !IsSpace(core[0])
    ensures TrimStart(lead + core) == core
  {
    if lead != [] {
      assert (lead + core)[1..] == lead[1..] + core;
      TrimStartOfPadded(lead[1..], core);
    }
  }

  lemma {:induction false} TrimEndOfPadded(core: string, trail: string)
    requires AllSpace(trail)
    requires core == [] || !IsSpace(core[|core| - 1])
    ensures TrimEnd(core + trail) == core
  {
    if trail != [] {
      var s := core + trail;
      assert s[..|s| - 1] == core + trail[..|trail| - 1];
      TrimEndOfPadded(core, trail[..|trail| - 1]);
    }
  }

  /** A non-empty text that neither starts nor ends with whitespace. */
  predicate Trimmed(s: string) {
    s != [] && !IsSpace(s[0]) && !IsSpace(s[|s| - 1])
  }

  /** `strip` is characterised by its result: whatever whitespace surrounds a
      core that neither starts nor ends with whitespace is exactly what goes. */
  lemma StripOfPadded(lead: string, core: string, trail: string)
    requires AllSpace(lead) && AllSpace(trail)
    requires Trimmed(core)
    ensures Strip(lead + core + trail) == core
  {
    assert lead + core + trail == lead + (core + trail);
    TrimStartOfPadded(lead, core + trail);
    TrimEndOfPadded(core, trail);
  }

  /** A text that neither starts nor ends with whitespace is its own `strip`. */
  lemma StripOfTrimmed(s: string)
    requires Trimmed(s)
    ensures Strip(s) == s
  {
    assert [] + s + [] == s;
    StripOfPadded([], s, []);
  }

  /** `strip` is idempotent. */
  lemma StripIdempotent(s: string)
    ensures Strip(Strip(s)) == Strip(s)
  {
    StripSpec(s);
    if Strip(s) != [] {
      StripOfTrimmed(Strip(s));
    }
  }

  // ---------------------------------------------------------------------------
  // sep.join(parts)
  // ---------------------------------------------------------------------------

  /** `sep.join(parts)`. */
  function Join(sep: string, parts: seq<string>): string
  {
    if |parts| == 0 then ""
    else if |parts| == 1 then parts[0]
    else parts[0] + sep + Join(sep, parts[1..])
  }

  /** With a whitespace separator, the joined text is all whitespace exactly
      when every part is. */
  lemma {:induction false} JoinAllSpace(sep: string, parts: seq<string>)
    requires AllSpace(sep)
    ensures AllSpace(Join(sep, parts)) <==> forall i :: 0 <= i < |parts| ==> AllSpace(parts[i])
  {
    if |parts| > 1 {
      JoinAllSpace(sep, parts[1..]);
      var j := Join(sep, parts[1..]);
      var whole := parts[0] + sep + j;
      assert AllSpace(whole) <==> AllSpace(parts[0]) && AllSpace(j) by {
        if AllSpace(whole) {
          assert forall k :: 0 <= k < |parts[0]| ==> whole[k] == parts[0][k];
          assert forall k :: 0 <= k < |j| ==> whole[|parts[0]| + |sep| + k] == j[k];
        }
      }
      if AllSpace(whole) {
        forall i | 0 <= i < |parts| ensures AllSpace(parts[i]) {
          if i > 0 { assert parts[i] == parts[1..][i - 1]; }
        }
      }
      if forall i :: 0 <= i < |parts| ==> AllSpace(parts[i]) {
        assert forall i :: 0 <= i < |parts| - 1 ==> parts[1..][i] == parts[i + 1];
      }
    }
  }

  /** Joining parts that neither start nor end with whitespace gives a text that
      neither starts nor ends with whitespace. */
  lemma {:induction false} JoinOfTrimmed(sep: string, parts: seq<string>)
    requires |parts| > 0
    requires forall i :: 0 <= i < |parts| ==> Trimmed(parts[i])
    ensures Trimmed(Join(sep, parts))
  {
    if |parts| > 1 {
      JoinOfTrimmed(sep, parts[1..]);
      var j := Join(sep, parts[1..]);
      var r := parts[0] + sep + j;
      assert r[0] == parts[0][0];
      assert r[|r| - 1] == j[|j| - 1];
    }
  }

  // ---------------------------------------------------------------------------
  // Decimal digits: str(n), int(s) and zero-padded fields
  // ---------------------------------------------------------------------------

  predicate IsDigit(c: char) { '0' <= c <= '9' }

  predicate AllDigits(s: string) {
    forall k :: 0 <= k < |s| ==> IsDigit(s[k])
  }

  function DigitChar(d: nat): (c: char)
    requires d < 10
    ensures IsDigit(c) && c as int - '0' as int == d
  {
    (d + '0' as int) as char
  }

  function DigitValue(c: char): (d: nat)
    requires IsDigit(c)
    ensures d < 10 && DigitChar(d) == c
  {
    c as int - '0' as int
  }

  /** `int(s)` for a string of ASCII digits. */
  function DigitsValue(s: string): nat
    requires AllDigits(s)
  {
    if s == [] then 0 else 10 * DigitsValue(s[..|s| - 1]) + DigitValue(s[|s| - 1])
  }

  /** `str(n)` for a non-negative integer: decimal digits, no leading zero. */
  function NatToString(n: nat): (r: string)
    ensures r != [] && AllDigits(r)
    ensures |r| == 1 || r[0] != '0'
  {
    if n < 10 then [DigitChar(n)] else NatToString(n / 10) + [DigitChar(n % 10)]
  }

  /** `str(i)` for any Python integer. */
  function IntToString(i: int): (r: string)
    ensures r != []
    ensures forall k :: 0 <= k < |r| ==> r[k] == '-' || IsDigit(r[k])
  {
    if i < 0 then "-" + NatToString(-i) else NatToString(i)
  }

  lemma {:induction false} NatToStringValue(n: nat)
    ensures DigitsValue(NatToString(n)) == n
  {
    if n >= 10 {
      var r := NatToString(n);
      assert r[..|r| - 1] == NatToString(n / 10);
      NatToStringValue(n / 10);
    }
  }

  /** Distinct naturals print differently. */
  lemma NatToStringInjective(a: nat, b: nat)
    requires NatToString(a) == NatToString(b)
    ensures a == b
  {
    NatToStringValue(a);
    NatToStringValue(b);
  }

  /** `int(str(i)) == i`: distinct integers print differently. */
  lemma IntToStringInjective(a: int, b: int)
    requires IntToString(a) == IntToString(b)
    ensures a == b
  {
    var s := IntToString(a);
    if a < 0 {
      assert b < 0 by { assert s[0] == '-' && !IsDigit('-'); }
      assert NatToString(-a) == s[1..] == NatToString(-b);
      NatToStringInjective(-a, -b);
    } else {
      assert b >= 0 by { assert IsDigit(s[0]); }
      NatToStringInjective(a, b);
    }
  }

  function Pow10(w: nat): (p: nat)
    ensures p >= 1
  {
    if w == 0 then 1 else 10 * Pow10(w - 1)
  }

  lemma {:induction false} DigitsValueBound(s: string)
    requires AllDigits(s)
    ensures DigitsValue(s) < Pow10(|s|)
  {
    if s != [] {
      DigitsValueBound(s[..|s| - 1]);
    }
  }

  /** The `w`-digit zero-padded decimal of `n` (`%02d`, `%04d`). */
  function ZeroPad(n: nat, w: nat): (r: string)
    requires n < Pow10(w)
    ensures |r| == w && AllDigits(r)
  {
    if w == 0 then "" else ZeroPad(n / 10, w - 1) + [DigitChar(n % 10)]
  }

  lemma {:induction false} ZeroPadValue(n: nat, w: nat)
    requires n < Pow10(w)
    ensures DigitsValue(ZeroPad(n, w)) == n
  {
    if w > 0 {
      var r := ZeroPad(n, w);
      assert r[..|r| - 1] == ZeroPad(n / 10, w - 1);
      ZeroPadValue(n / 10, w - 1);
    }
  }

  // ---------------------------------------------------------------------------
  // Splitting at a delimiter
  // ---------------------------------------------------------------------------

  /** The text before the first `c`, or all of `s` when there is none. */
  function TakeUntil(s: string, c: char): (r: string)
    ensures |r| <= |s| && r == s[..|r|] && c !in r
    ensures |r| < |s| ==> s[|r|] == c
  {
    if s == [] || s[0] == c then [] else [s[0]] + TakeUntil(s[1..], c)
  }

  lemma {:induction false} TakeUntilOf(a: string, c: char, b: string)
    requires c !in a
    ensures TakeUntil(a + [c] + b, c) == a
  {
    if a != [] {
      assert (a + [c] + b)[1..] == a[1..] + [c] + b;
      TakeUntilOf(a[1..], c, b);
      assert [a[0]] + a[1..] == a;
    }
  }

  /** A text split at the first occurrence of a delimiter that the first part
      does not contain determines both parts. */
  lemma SplitAtFirst(a1: string, b1: string, a2: string, b2: string, c: char)
    requires c !in a1 && c !in a2
    requires a1 + [c] + b1 == a2 + [c] + b2
    ensures a1 == a2 && b1 == b2
  {
    TakeUntilOf(a1, c, b1);
    TakeUntilOf(a2, c, b2);
    var s := a1 + [c] + b1;
    assert s[|a1| + 1..] == b1;
    assert (a2 + [c] + b2)[|a2| + 1..] == b2;
  }
}

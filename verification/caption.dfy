/** The caption rule of the game: a photo or video counts as a claim for the
    number `n` when its caption, once surrounding whitespace is stripped,
    starts with the decimal digits of `n` immediately followed by `!`.
    Anything may follow the `!`. The rule is the pattern `(\d+)!` applied with
    a match anchored at the start of the stripped caption only. */
module Caption {
  import opened Wrappers

  /** The characters Python's `str.isspace` accepts, i.e. those `str.strip()`
      removes when it is called without arguments. None of them is a digit
      or `!`, so stripping never eats into a claim. */
  predicate IsSpace(c: char): (b: bool)
    ensures b ==> !IsDigit(c) && c != '!'
  {
    || ('\t' <= c <= '\r')
    || ('\U{1C}' <= c <= ' ')
    || c == '\U{85}' || c == '\U{A0}' || c == '\U{1680}'
    || ('\U{2000}' <= c <= '\U{200A}')
    || c == '\U{2028}' || c == '\U{2029}' || c == '\U{202F}'
    || c == '\U{205F}' || c == '\U{3000}'
  }

  /** An ASCII decimal digit. */
  predicate IsDigit(c: char) {
    '0' <= c <= '9'
  }

  /** Every character of `s` is a digit. */
  predicate AllDigits(s: string) {
    forall i :: 0 <= i < |s| ==> IsDigit(s[i])
  }

  /** The value of one digit. */
  function DigitValue(c: char): (d: nat)
    requires IsDigit(c)
    ensures d < 10
  {
    (c as int) - ('0' as int)
  }

  /** The digit for a value below ten. */
  function DigitChar(d: nat): (c: char)
    requires d < 10
    ensures IsDigit(c) && DigitValue(c) == d
  {
    ('0' as int + d) as char
  }

  /** Drops leading whitespace. */
  function TrimStart(s: string): (r: string)
    ensures |r| <= |s| && r == s[|s| - |r|..]
    ensures forall i :: 0 <= i < |s| - |r| ==> IsSpace(s[i])
    ensures r == [] || !IsSpace(r[0])
  {
    if |s| > 0 && IsSpace(s[0]) then TrimStart(s[1..]) else s
  }

  /** Drops trailing whitespace. */
  function TrimEnd(s: string): (r: string)
    ensures |r| <= |s| && r == s[..|r|]
    ensures forall i :: |r| <= i < |s| ==> IsSpace(s[i])
    ensures r == [] || !IsSpace(r[|r| - 1])
  {
    if |s| > 0 && IsSpace(s[|s| - 1]) then TrimEnd(s[..|s| - 1]) else s
  }

  /** `r` is `s` with the `i` characters in front of it and everything
      after it being whitespace. */
  predicate SpaceAround(s: string, i: nat, r: string) {
    && i + |r| <= |s|
    && r == s[i..i + |r|]
    && (forall j :: 0 <= j < i ==> IsSpace(s[j]))
    && (forall j :: i + |r| <= j < |s| ==> IsSpace(s[j]))
  }

  /** Length of the longest prefix of `s` made of whitespace. */
  function LeadingSpaces(s: string): (k: nat)
    ensures k <= |s|
    ensures forall j :: 0 <= j < k ==> IsSpace(s[j])
    ensures k == |s| || !IsSpace(s[k])
  {
    if |s| > 0 && IsSpace(s[0]) then
      var k := 1 + LeadingSpaces(s[1..]);
      assert forall j :: 1 <= j < k ==> s[j] == s[1..][j - 1];
      k
    else 0
  }

  /** Python's `str.strip()` with no arguments: what follows the leading
      whitespace, up to the trailing whitespace; the result neither starts
      nor ends with whitespace, and whitespace alone strips to the empty
      string. */
  function Strip(s: string): (r: string)
    ensures SpaceAround(s, LeadingSpaces(s), r)
    ensures r == [] || (!IsSpace(r[0]) && !IsSpace(r[|r| - 1]))
  {
    TrimmedAround(s, TrimStart(s), TrimEnd(TrimStart(s)));
    TrimStartIsLeadingSpaces(s);
    TrimEnd(TrimStart(s))
  }

  /** A whitespace prefix dropped from `s` to give `t`, then a whitespace
      suffix dropped from `t` to give `r`, leave `r` with whitespace on both
      sides within `s`. */
  lemma TrimmedAround(s: string, t: string, r: string)
    requires |t| <= |s| && t == s[|s| - |t|..] && forall j :: 0 <= j < |s| - |t| ==> IsSpace(s[j])
    requires |r| <= |t| && r == t[..|r|] && forall j :: |r| <= j < |t| ==> IsSpace(t[j])
    requires t == [] || !IsSpace(t[0])
    requires r == [] || !IsSpace(r[|r| - 1])
    ensures SpaceAround(s, |s| - |t|, r)
    ensures r == [] || (!IsSpace(r[0]) && !IsSpace(r[|r| - 1]))
  {
    var i := |s| - |t|;
    assert r == s[i..i + |r|];
    forall j | i + |r| <= j < |s|
      ensures IsSpace(s[j])
    {
      assert s[j] == t[j - i];
      assert IsSpace(t[j - i]);
    }
    assert SpaceAround(s, i, r);
    assert r == [] || r[0] == t[0];
  }

  /** `TrimStart` drops exactly the leading whitespace run. */
  lemma {:induction false} TrimStartIsLeadingSpaces(s: string)
    ensures |s| - |TrimStart(s)| == LeadingSpaces(s)
  {
    if |s| > 0 && IsSpace(s[0]) {
      TrimStartIsLeadingSpaces(s[1..]);
    }
  }

  /** Length of the longest prefix of `s` made of digits. */
  function LeadingDigits(s: string): (k: nat)
    ensures k <= |s|
    ensures AllDigits(s[..k])
    ensures k == |s| || !IsDigit(s[k])
  {
    if |s| > 0 && IsDigit(s[0]) then
      var k := 1 + LeadingDigits(s[1..]);
      assert s[..k] == [s[0]] + s[1..][..k - 1];
      k
    else 0
  }

  /** Ten to the power `e`. */
  function Pow10(e: nat): (p: nat)
    ensures p >= 1
  {
    if e == 0 then 1 else 10 * Pow10(e - 1)
  }

  /** The value of a string of decimal digits, most significant first, as
      Python's `int` reads it (leading zeros allowed; empty string is 0).
      `L` digits are worth less than `10^L`, and at least `10^(L-1)` when
      the first of them is not `0`. */
  function Decimal(ds: string): (n: nat)
    requires AllDigits(ds)
    ensures n < Pow10(|ds|)
    ensures |ds| > 0 && ds[0] != '0' ==> Pow10(|ds| - 1) <= n
  {
    if ds == [] then 0
    else
      var init := ds[..|ds| - 1];
      assert |init| > 0 ==> init[0] == ds[0];
      10 * Decimal(init) + DigitValue(ds[|ds| - 1])
  }

  /** The shortest decimal spelling of `n`: the inverse of `Decimal`. */
  function Show(n: nat): (ds: string)
    ensures |ds| > 0 && AllDigits(ds)
    ensures Decimal(ds) == n
    ensures ds[0] != '0' || n == 0
  {
    if n < 10 then [DigitChar(n)]
    else
      var ds := Show(n / 10) + [DigitChar(n % 10)];
      assert ds[..|ds| - 1] == Show(n / 10);
      ds
  }

  /** The pattern's semantics, independent of how the matcher scans: the
      stripped caption `s` splits at `k` into a non-empty run of digits
      worth `n`, then `!`. */
  ghost predicate MatchesAt(s: string, k: nat, n: nat) {
    && 0 < k < |s|
    && AllDigits(s[..k])
    && s[k] == '!'
    && n == Decimal(s[..k])
  }

  /** The anchored match of `(\d+)!` and the `int` of its group: the
      digit run is greedy, and `!` is not a digit, so backtracking into the
      run can never succeed and only the maximal run needs trying. The
      matcher yields `n` exactly when the pattern admits a split worth `n`,
      and nothing when it admits none. */
  function MatchNumber(s: string): (r: Option<nat>)
    ensures r.Some? ==> exists k: nat :: MatchesAt(s, k, r.value)
    ensures forall k: nat, n: nat :: MatchesAt(s, k, n) ==> r == Some(n)
  {
    var k := LeadingDigits(s);
    assert forall j: nat, n: nat :: MatchesAt(s, j, n) ==> j == k by {
      forall j: nat, n: nat | MatchesAt(s, j, n)
        ensures j == k
      {
        MatchesAtIsMaximalRun(s, j, n);
      }
    }
    if 0 < k < |s| && s[k] == '!' then
      assert MatchesAt(s, k, Decimal(s[..k]));
      Some(Decimal(s[..k]))
    else None
  }

  /** The number a caption claims, or `None` when it claims none: it claims
      `n` exactly when its stripped text starts with a digit run worth `n`
      followed by `!`. */
  function ParseCaption(caption: string): (r: Option<nat>)
    ensures r.Some? ==> exists k: nat :: MatchesAt(Strip(caption), k, r.value)
    ensures forall k: nat, n: nat :: MatchesAt(Strip(caption), k, n) ==> r == Some(n)
  {
    MatchNumber(Strip(caption))
  }

  /** Every split the pattern admits is the one the matcher finds. */
  lemma MatchesAtIsMaximalRun(s: string, k: nat, n: nat)
    requires MatchesAt(s, k, n)
    ensures k == LeadingDigits(s)
  {
    assert !IsDigit(s[k]);
  }

  /** Leading whitespace in front of a non-space is exactly what `TrimStart` drops. */
  lemma {:induction false} TrimStartSkipsSpaces(ws: string, t: string)
    requires forall i :: 0 <= i < |ws| ==> IsSpace(ws[i])
    requires t != [] && !IsSpace(t[0])
    ensures TrimStart(ws + t) == t
  {
    if ws != [] {
      assert (ws + t)[1..] == ws[1..] + t;
      TrimStartSkipsSpaces(ws[1..], t);
    }
  }

  /** Trailing-whitespace removal never reaches past a non-space. */
  lemma TrimEndKeeps(t: string, p: nat)
    requires p < |t| && !IsSpace(t[p])
    ensures p < |TrimEnd(t)| && TrimEnd(t)[..p + 1] == t[..p + 1]
  {
  }

  /** A text whose first characters are a digit string worth `n` and then `!` matches `n`. */
  lemma ShowThenBang(ds: string, n: nat, s: string, t: string)
    requires AllDigits(ds) && |ds| > 0 && Decimal(ds) == n
    requires |ds| < |t| && t[..|ds|] == ds && t[|ds|] == '!'
    requires |ds| < |s| && s[..|ds| + 1] == t[..|ds| + 1]
    ensures MatchNumber(s) == Some(n)
  {
    assert s[..|ds|] == ds by {
      assert s[..|ds| + 1][..|ds|] == s[..|ds|];
      assert t[..|ds| + 1][..|ds|] == t[..|ds|];
    }
    assert s[|ds|] == '!' by {
      assert s[..|ds| + 1][|ds|] == s[|ds|];
      assert t[..|ds| + 1][|ds|] == t[|ds|];
    }
    assert MatchesAt(s, |ds|, n);
  }

  /** Leading whitespace before a non-space never changes what a caption claims. */
  lemma ParseAfterSpaces(ws: string, t: string)
    requires forall i :: 0 <= i < |ws| ==> IsSpace(ws[i])
    requires t != [] && !IsSpace(t[0])
    ensures ParseCaption(ws + t) == MatchNumber(TrimEnd(t))
  {
    TrimStartSkipsSpaces(ws, t);
  }

  /** The decimal spelling of `n`, `!` and any tail match `n` once trailing whitespace is gone. */
  lemma ShownClaim(n: nat, rest: string)
    ensures MatchNumber(TrimEnd(Show(n) + "!" + rest)) == Some(n)
  {
    var ds := Show(n);
    var t := ds + "!" + rest;
    assert t[..|ds|] == ds;
    assert t[|ds|] == '!';
    TrimEndKeeps(t, |ds|);
    ShowThenBang(ds, n, TrimEnd(t), t);
  }

  /** Writing `n` in decimal, then `!`, then anything, behind any leading
      whitespace, is a caption that claims `n`. */
  lemma CaptionRoundTrip(ws: string, n: nat, rest: string)
    requires forall i :: 0 <= i < |ws| ==> IsSpace(ws[i])
    ensures ParseCaption(ws + Show(n) + "!" + rest) == Some(n)
  {
    var t := Show(n) + "!" + rest;
    assert ws + Show(n) + "!" + rest == ws + t;
    assert !IsSpace(t[0]) by {
      assert t[0] == Show(n)[0];
      assert IsDigit(Show(n)[0]);
    }
    ParseAfterSpaces(ws, t);
    ShownClaim(n, rest);
  }

  /** Appending a digit to `a` in decimal: dividing by ten gives `a` back. */
  lemma SplitLastDigit(a: nat, d: nat)
    requires d < 10
    ensures (10 * a + d) / 10 == a && (10 * a + d) % 10 == d
  {
  }

  /** Spelling `a` followed by the digit `d` spells `10 * a + d`. */
  lemma ShowAppend(a: nat, d: nat)
    requires d < 10 && a >= 1
    ensures Show(10 * a + d) == Show(a) + [DigitChar(d)]
  {
    SplitLastDigit(a, d);
  }

  /** Printing the value of a digit string without a leading zero gives the
      string back: `Show` and `Decimal` are inverse both ways. */
  lemma {:induction false} DecimalThenShow(ds: string)
    requires AllDigits(ds) && |ds| > 0 && (ds[0] != '0' || |ds| == 1)
    ensures Show(Decimal(ds)) == ds
  {
    if |ds| == 1 {
      assert DigitChar(DigitValue(ds[0])) == ds[0];
    } else {
      var init := ds[..|ds| - 1];
      assert init[0] == ds[0];
      DecimalThenShow(init);
      ShowLastDigit(ds);
    }
  }

  /** A leading zero does not change what `int` reads: `int("007") == 7`. */
  lemma {:induction false} LeadingZero(ds: string)
    requires AllDigits(ds)
    ensures Decimal(['0'] + ds) == Decimal(ds)
  {
    if ds != [] {
      var init := ds[..|ds| - 1];
      assert (['0'] + ds)[..|ds|] == ['0'] + init;
      LeadingZero(init);
    }
  }

  /** A non-empty string is its prefix without the last character, then that character. */
  lemma InitThenLast(s: string)
    requires |s| > 0
    ensures s[..|s| - 1] + [s[|s| - 1]] == s
  {
  }

  /** If the digits before the last one print back, so does the whole string. */
  lemma ShowLastDigit(ds: string)
    requires AllDigits(ds) && |ds| > 1 && ds[0] != '0'
    requires Show(Decimal(ds[..|ds| - 1])) == ds[..|ds| - 1]
    ensures Show(Decimal(ds)) == ds
  {
    var init, last := ds[..|ds| - 1], ds[|ds| - 1];
    var a, d := Decimal(init), DigitValue(last);
    assert a >= 1 by {
      assert init[0] == ds[0];
      assert Pow10(|init| - 1) <= a;
    }
    calc {
      Show(Decimal(ds));
      Show(10 * a + d);
      { ShowAppend(a, d); }
      Show(a) + [DigitChar(d)];
      { assert DigitChar(d) == last; }
      init + [last];
      { InitThenLast(ds); }
      ds;
    }
  }

  /** A caption that claims a number is not empty. */
  lemma ClaimHasText(caption: string)
    requires ParseCaption(caption).Some?
    ensures caption != ""
  {
    var k: nat :| MatchesAt(Strip(caption), k, ParseCaption(caption).value);
  }

  /** An empty caption and a whitespace-only caption claim nothing. */
  lemma BlankClaimsNothing(caption: string)
    requires forall i :: 0 <= i < |caption| ==> IsSpace(caption[i])
    ensures ParseCaption(caption) == None
  {
    assert Strip(caption) == [];
  }
}

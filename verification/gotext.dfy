/**
 The few pieces of Go's string handling that the scraper relies on, over
 strings seen as sequences of runes: `strings.Contains`, `strings.TrimSpace`
 (with `unicode.IsSpace`) and the `%d` verb of `fmt` for an `int`.
 */
module GoText {

  /** `unicode.IsSpace`: the Latin-1 spaces plus the other runes with the
      Unicode White_Space property. */
  predicate IsSpace(c: char) {
    || c == '\t' || c == '\n' || c == '\U{B}' || c == '\U{C}' || c == '\r' || c == ' '
    || c == '\U{85}' || c == '\U{A0}' || c == '\U{1680}'
    || ('\U{2000}' <= c <= '\U{200A}')
    || c == '\U{2028}' || c == '\U{2029}' || c == '\U{202F}' || c == '\U{205F}' || c == '\U{3000}'
  }

  predicate AllSpace(s: string) {
    forall k :: 0 <= k < |s| ==> IsSpace(s[k])
  }

  /** `sub` occurs in `s` starting at position `i`. */
  ghost predicate OccursAt(s: string, sub: string, i: int) {
    0 <= i && i + |sub| <= |s| && s[i..i + |sub|] == sub
  }

  /** `strings.Contains`: a substring test (the empty string occurs everywhere). */
  function Contains(s: string, sub: string): (b: bool)
    ensures b <==> exists i :: OccursAt(s, sub, i)
  {
    if sub <= s then
      assert OccursAt(s, sub, 0);
      true
    else if |s| == 0 then
      false
    else
      var b := Contains(s[1..], sub);
      assert b ==> exists i :: OccursAt(s, sub, i) by {
        if b {
          var i :| OccursAt(s[1..], sub, i);
          assert s[1..][i..i + |sub|] == s[i + 1..i + 1 + |sub|];
          assert OccursAt(s, sub, i + 1);
        }
      }
      assert (exists i :: OccursAt(s, sub, i)) ==> b by {
        if exists i :: OccursAt(s, sub, i) {
          var i :| OccursAt(s, sub, i);
          assert i > 0;
          assert s[1..][i - 1..i - 1 + |sub|] == s[i..i + |sub|];
          assert OccursAt(s[1..], sub, i - 1);
        }
      }
      b
  }

  /** Drops the leading white space. */
  function TrimLeft(s: string): (r: string)
    ensures |r| <= |s| && r == s[|s| - |r|..]
    ensures AllSpace(s[..|s| - |r|])
    ensures |r| > 0 ==> !IsSpace(r[0])
  {
    if |s| > 0 && IsSpace(s[0]) then TrimLeft(s[1..]) else s
  }

  /** Drops the trailing white space. */
  function TrimRight(s: string): (r: string)
    ensures |r| <= |s| && r == s[..|r|]
    ensures AllSpace(s[|r|..])
    ensures |r| > 0 ==> !IsSpace(r[|r| - 1])
  {
    if |s| > 0 && IsSpace(s[|s| - 1]) then TrimRight(s[..|s| - 1]) else s
  }

  /** No white space at either end. */
  predicate Trimmed(s: string) {
    |s| > 0 ==> !IsSpace(s[0]) && !IsSpace(s[|s| - 1])
  }

  /** `r` is the slice of `s` at `i` with nothing but white space around it. */
  ghost predicate SpaceAround(s: string, r: string, i: int) {
    0 <= i <= |s| - |r| && r == s[i..i + |r|] && AllSpace(s[..i]) && AllSpace(s[i + |r|..])
  }

  /** `strings.TrimSpace`: `r` is a slice of `s` with only white space
      around it, and has no white space at either end. */
  function TrimSpace(s: string): (r: string)
    ensures Trimmed(r)
    ensures exists i :: SpaceAround(s, r, i)
  {
    var l := TrimLeft(s);
    var r := TrimRight(l);
    var i := |s| - |l|;
    assert r == s[i..i + |r|];
    assert l[|r|..] == s[i + |r|..];
    assert SpaceAround(s, r, i);
    r
  }

  /** The slice view, restated as a decomposition of `s`. */
  lemma SpaceAroundSplits(s: string, r: string, i: int)
    requires SpaceAround(s, r, i)
    ensures s == s[..i] + r + s[i + |r|..]
    ensures forall c :: c in r ==> c in s
  {
    assert s == s[..i] + s[i..i + |r|] + s[i + |r|..];
  }

  /** Any decomposition `lead + m + trail` with white-space `lead` and
      `trail` and a trimmed middle determines `TrimSpace`: the middle is
      what it returns. */
  lemma {:induction false} TrimSpaceUnique(lead: string, m: string, trail: string)
    requires AllSpace(lead) && AllSpace(trail) && Trimmed(m)
    ensures TrimSpace(lead + m + trail) == m
  {
    if |m| == 0 {
      assert lead + m + trail == (lead + trail) + [];
      TrimLeftOf(lead + trail, []);
    } else {
      assert lead + m + trail == lead + (m + trail);
      TrimLeftOf(lead, m + trail);
      TrimRightOf(m, trail);
    }
  }

  lemma {:induction false} TrimLeftOf(lead: string, rest: string)
    requires AllSpace(lead)
    requires |rest| > 0 ==> !IsSpace(rest[0])
    ensures TrimLeft(lead + rest) == rest
  {
    if |lead| > 0 {
      assert (lead + rest)[1..] == lead[1..] + rest;
      TrimLeftOf(lead[1..], rest);
    } else {
      assert lead + rest == rest;
    }
  }

  lemma {:induction false} TrimRightOf(rest: string, trail: string)
    requires AllSpace(trail)
    requires |rest| > 0 ==> !IsSpace(rest[|rest| - 1])
    ensures TrimRight(rest + trail) == rest
  {
    if |trail| > 0 {
      assert (rest + trail)[..|rest + trail| - 1] == rest + trail[..|trail| - 1];
      TrimRightOf(rest, trail[..|trail| - 1]);
    } else {
      assert rest + trail == rest;
    }
  }

  /** A trimmed string is left alone. */
  lemma TrimSpaceFixesTrimmed(s: string)
    requires Trimmed(s)
    ensures TrimSpace(s) == s
  {
    TrimSpaceUnique([], s, []);
    assert [] + s + [] == s;
  }

  /** Trimming leaves nothing exactly when the string is all white space. */
  lemma TrimSpaceEmpty(s: string)
    ensures TrimSpace(s) == [] <==> AllSpace(s)
  {
    var r := TrimSpace(s);
    var i :| SpaceAround(s, r, i);
    SpaceAroundSplits(s, r, i);
    if r == [] {
      assert forall k :: 0 <= k < |s| ==> if k < i then s[k] == s[..i][k] else s[k] == s[i..][k - i];
    }
  }

  // ---- the %d verb ----

  function DigitChar(d: nat): (c: char)
    requires d < 10
  {
    "0123456789"[d]
  }

  function DigitValue(c: char): (d: nat)
    requires IsDigit(c)
    ensures d < 10
  {
    (c as int - '0' as int) as nat
  }

  predicate IsDigit(c: char) {
    '0' <= c <= '9'
  }

  /** Decimal digits of a natural number, most significant first, with no
      leading zero. */
  function Digits(n: nat): (s: string)
    ensures |s| > 0
    ensures forall k :: 0 <= k < |s| ==> IsDigit(s[k])
    ensures |s| > 1 ==> s[0] != '0'
    decreases n
  {
    if n < 10 then [DigitChar(n)] else Digits(n / 10) + [DigitChar(n % 10)]
  }

  /** The value of a string of decimal digits. */
  function DigitsValue(s: string): nat
    requires forall k :: 0 <= k < |s| ==> IsDigit(s[k])
  {
    if |s| == 0 then 0 else DigitsValue(s[..|s| - 1]) * 10 + DigitValue(s[|s| - 1])
  }

  /** Reading back the digits gives the number. */
  lemma {:induction false} DigitsRoundTrip(n: nat)
    ensures DigitsValue(Digits(n)) == n
    decreases n
  {
    var s := Digits(n);
    if n < 10 {
      assert s[..0] == [];
    } else {
      DigitsRoundTrip(n / 10);
      assert s[..|s| - 1] == Digits(n / 10);
    }
  }

  /** `fmt.Sprintf("%d", n)`: a minus sign for negative numbers, then the
      digits of the magnitude. */
  function Decimal(n: int): string {
    if n < 0 then "-" + Digits(-n) else Digits(n)
  }

  /** Distinct numbers are printed differently. */
  lemma DecimalInjective(a: int, b: int)
    requires Decimal(a) == Decimal(b)
    ensures a == b
  {
    SignShows(a);
    SignShows(b);
    var m, n := if a < 0 then -a else a, if b < 0 then -b else b;
    assert a < 0 <==> b < 0;
    assert Digits(m) == Digits(n) by {
      if a < 0 {
        assert Digits(m) == Decimal(a)[1..];
        assert Digits(n) == Decimal(b)[1..];
      }
    }
    DigitsRoundTrip(m);
    DigitsRoundTrip(n);
  }

  /** The printed form starts with '-' exactly for negative numbers. */
  lemma SignShows(n: int)
    ensures Decimal(n)[0] == '-' <==> n < 0
  {
    if n >= 0 {
      assert IsDigit(Digits(n)[0]);
    }
  }
}

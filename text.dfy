/** The JavaScript string operations the request-shaping code relies on:
    `indexOf`, `replace` with a string pattern, decimal rendering of numbers and `Array.prototype.join`. */
module Text {
  import opened Wrappers

  /** `pat` occurs in `s` starting at index `i`. */
  ghost predicate OccursAt(s: string, pat: string, i: int)
  {
    0 <= i && i + |pat| <= |s| && s[i..i + |pat|] == pat
  }

  /** `pat` occurs somewhere in `s`. */
  ghost predicate ContainsText(s: string, pat: string)
  {
    exists i :: OccursAt(s, pat, i)
  }

  /** An occurrence at `j >= 1` is an occurrence at `j - 1` of the tail. */
  lemma OccursInTail(s: string, pat: string)
    requires |s| > 0
    ensures forall j :: j >= 1 ==> (OccursAt(s, pat, j) <==> OccursAt(s[1..], pat, j - 1))
  {
    forall j | j >= 1
      ensures OccursAt(s, pat, j) <==> OccursAt(s[1..], pat, j - 1)
    {
      if j + |pat| <= |s| {
        assert s[1..][j - 1..j - 1 + |pat|] == s[j..j + |pat|];
      }
    }
  }

  /** `s.indexOf(pat)`: `None` stands for -1. */
  function IndexOf(s: string, pat: string): (r: Option<nat>)
    ensures r.Some? ==> r.value + |pat| <= |s|
    decreases |s|
  {
    if |s| < |pat| then None
    else if s[..|pat|] == pat then Some(0)
    else
      match IndexOf(s[1..], pat)
      case None => None
      case Some(k) => Some(k + 1)
  }

  /** `indexOf` finds the first occurrence, and finds none exactly when there is none. */
  lemma {:induction false} IndexOfMeaning(s: string, pat: string)
    ensures IndexOf(s, pat).Some? ==> OccursAt(s, pat, IndexOf(s, pat).value)
    ensures IndexOf(s, pat).Some? ==> forall j :: 0 <= j < IndexOf(s, pat).value ==> !OccursAt(s, pat, j)
    ensures IndexOf(s, pat).None? <==> !ContainsText(s, pat)
    decreases |s|
  {
    if |s| >= |pat| && s[..|pat|] != pat {
      IndexOfMeaning(s[1..], pat);
      OccursInTail(s, pat);
      assert !OccursAt(s, pat, 0);
      if ContainsText(s, pat) {
        var j :| OccursAt(s, pat, j);
        assert OccursAt(s[1..], pat, j - 1);
      }
      if ContainsText(s[1..], pat) {
        var j :| OccursAt(s[1..], pat, j);
        assert OccursAt(s, pat, j + 1);
      }
    } else if |s| >= |pat| {
      assert OccursAt(s, pat, 0);
    }
  }

  /** `s.replace(pat, r)` with a string pattern, scanning from the left. */
  function ReplaceFirst(s: string, pat: string, r: string): string
    decreases |s|
  {
    if |s| < |pat| then s
    else if s[..|pat|] == pat then r + s[|pat|..]
    else [s[0]] + ReplaceFirst(s[1..], pat, r)
  }

  /** Only the first occurrence of `pat` is replaced, and `s` comes back unchanged when `pat`
      does not occur. */
  lemma {:induction false} ReplaceFirstMeaning(s: string, pat: string, r: string)
    ensures IndexOf(s, pat).None? ==> ReplaceFirst(s, pat, r) == s
    ensures IndexOf(s, pat).Some? ==>
              var i := IndexOf(s, pat).value; ReplaceFirst(s, pat, r) == s[..i] + r + s[i + |pat|..]
    decreases |s|
  {
    if |s| >= |pat| && s[..|pat|] != pat {
      ReplaceFirstMeaning(s[1..], pat, r);
      match IndexOf(s[1..], pat)
      case None =>
      case Some(k) =>
        assert [s[0]] + s[1..][..k] == s[..k + 1];
        assert s[1..][k + |pat|..] == s[k + 1 + |pat|..];
    }
  }

  lemma OccursAtSuffix(s: string, pat: string, j: nat)
    requires j <= |s|
    ensures OccursAt(s, pat, j) <==> OccursAt(s[j..], pat, 0)
  {
    if j + |pat| <= |s| {
      assert s[j..][..|pat|] == s[j..j + |pat|];
    }
  }

  lemma ConsTail(p: string, x: string)
    requires |p| > 0
    ensures [p[0]] + (p[1..] + x) == p + x
  {
    assert [p[0]] + p[1..] == p;
  }

  /** A pattern does not occur where its first character is missing. */
  lemma NotOccursAtMismatch(s: string, pat: string, j: int)
    requires 0 <= j < |s| && |pat| > 0 && s[j] != pat[0]
    ensures !OccursAt(s, pat, j)
  {
    if j + |pat| <= |s| {
      assert s[j..j + |pat|][0] == s[j];
    }
  }

  /** Replacing skips a prefix in which no occurrence of the pattern starts. */
  lemma {:induction false} ReplaceFirstSkips(a: string, b: string, pat: string, r: string)
    requires forall j :: 0 <= j < |a| ==> !OccursAt(a + b, pat, j)
    ensures ReplaceFirst(a + b, pat, r) == a + ReplaceFirst(b, pat, r)
    decreases |a|
  {
    if a != [] {
      var s := a + b;
      assert !OccursAt(s, pat, 0);
      if |s| >= |pat| {
        assert s[..|pat|] != pat;
        assert s[1..] == a[1..] + b;
        OccursInTail(s, pat);
        forall j | 0 <= j < |a| - 1
          ensures !OccursAt(a[1..] + b, pat, j)
        {
          assert !OccursAt(s, pat, j + 1);
        }
        ReplaceFirstSkips(a[1..], b, pat, r);
        calc {
          ReplaceFirst(s, pat, r);
          [s[0]] + ReplaceFirst(s[1..], pat, r);
          [a[0]] + (a[1..] + ReplaceFirst(b, pat, r));
          { assert [a[0]] + a[1..] == a; }
          a + ReplaceFirst(b, pat, r);
        }
      } else {
        assert ReplaceFirst(b, pat, r) == b;
      }
    } else {
      assert a + b == b;
    }
  }

  /** A pattern that does not open with the first character of `s` leaves that character first. */
  lemma ReplaceFirstKeepsHead(s: string, pat: string, r: string)
    ensures |s| > 0 && |pat| > 0 && s[0] != pat[0] ==>
              |ReplaceFirst(s, pat, r)| > 0 && ReplaceFirst(s, pat, r)[0] == s[0]
  {
    if |s| > 0 && |pat| > 0 && s[0] != pat[0] && |s| >= |pat| {
      assert s[..|pat|][0] == s[0];
    }
  }

  /** A pattern at the very start is the one replaced. */
  lemma ReplaceFirstAtStart(pat: string, c: string, r: string)
    ensures ReplaceFirst(pat + c, pat, r) == r + c
  {
    assert (pat + c)[..|pat|] == pat;
    assert (pat + c)[|pat|..] == c;
  }

  /** No occurrence of a pattern that opens with `ch` starts inside a prefix free of `ch`. */
  lemma NoOccurrenceBefore(a: string, b: string, pat: string, ch: char)
    requires |pat| > 0 && pat[0] == ch
    requires ch !in a
    ensures forall j :: 0 <= j < |a| ==> !OccursAt(a + b, pat, j)
  {
    forall j | 0 <= j < |a|
      ensures !OccursAt(a + b, pat, j)
    {
      assert (a + b)[j] == a[j];
      assert a[j] in a;
    }
  }

  predicate IsDigit(c: char)
  {
    '0' <= c <= '9'
  }

  function DigitChar(d: nat): (c: char)
    requires d < 10
    ensures IsDigit(c) && c as int - '0' as int == d
  {
    ('0' as int + d) as char
  }

  /** The decimal rendering of a non-negative integer, as a template literal `${n}` prints it. */
  function NatToString(n: nat): (s: string)
    ensures |s| >= 1 && forall i :: 0 <= i < |s| ==> IsDigit(s[i])
    decreases n
  {
    if n < 10 then [DigitChar(n)] else NatToString(n / 10) + [DigitChar(n % 10)]
  }

  /** The value of a string of decimal digits. */
  function DigitsValue(s: string): nat
    requires forall i :: 0 <= i < |s| ==> IsDigit(s[i])
    decreases |s|
  {
    if s == [] then 0
    else
      assert IsDigit(s[|s| - 1]);
      DigitsValue(s[..|s| - 1]) * 10 + (s[|s| - 1] as int - '0' as int)
  }

  lemma {:induction false} DigitsValueOfNatToString(n: nat)
    ensures DigitsValue(NatToString(n)) == n
    decreases n
  {
    if n >= 10 {
      var s := NatToString(n);
      assert s[..|s| - 1] == NatToString(n / 10);
      DigitsValueOfNatToString(n / 10);
    }
  }

  /** The number of leading digit characters of `s`. */
  function LeadingDigits(s: string): (k: nat)
    ensures k <= |s|
    ensures forall i :: 0 <= i < k ==> IsDigit(s[i])
    ensures k == |s| || !IsDigit(s[k])
    decreases |s|
  {
    if s == [] || !IsDigit(s[0]) then 0 else 1 + LeadingDigits(s[1..])
  }

  /** Reads a leading decimal number and returns it with the text that follows it. */
  function ParseNat(s: string): Option<(nat, string)>
  {
    var k := LeadingDigits(s);
    if k == 0 then None else Some((DigitsValue(s[..k]), s[k..]))
  }

  /** A rendered number is read back exactly, whatever non-digit text follows it. */
  lemma ParseNatRoundTrip(n: nat, rest: string)
    requires rest == [] || !IsDigit(rest[0])
    ensures ParseNat(NatToString(n) + rest) == Some((n, rest))
  {
    var d := NatToString(n);
    var s := d + rest;
    var k := LeadingDigits(s);
    assert forall i :: 0 <= i < |d| ==> IsDigit(s[i]);
    assert |s| == |d| || !IsDigit(s[|d|]);
    assert k == |d|;
    assert s[..k] == d && s[k..] == rest;
    DigitsValueOfNatToString(n);
  }

  /** The text after `prefix`, when `s` starts with it. */
  function StripPrefix(s: string, prefix: string): (r: Option<string>)
    ensures r.Some? <==> |prefix| <= |s| && s[..|prefix|] == prefix
    ensures r.Some? ==> s == prefix + r.value
  {
    if |prefix| <= |s| && s[..|prefix|] == prefix then Some(s[|prefix|..]) else None
  }

  /** The text before `suffix`, when `s` ends with it. */
  function StripSuffix(s: string, suffix: string): (r: Option<string>)
    ensures r.Some? <==> |suffix| <= |s| && s[|s| - |suffix|..] == suffix
    ensures r.Some? ==> s == r.value + suffix
  {
    if |suffix| <= |s| && s[|s| - |suffix|..] == suffix then Some(s[..|s| - |suffix|]) else None
  }

  lemma StripPrefixOfConcat(prefix: string, rest: string)
    ensures StripPrefix(prefix + rest, prefix) == Some(rest)
  {
    assert (prefix + rest)[..|prefix|] == prefix;
  }

  lemma StripSuffixOfConcat(front: string, suffix: string)
    ensures StripSuffix(front + suffix, suffix) == Some(front)
  {
    var s := front + suffix;
    assert s[|s| - |suffix|..] == suffix;
  }

  /** `xs.join(sep)` over strings. */
  function Join(xs: seq<string>, sep: string): string
    decreases |xs|
  {
    if |xs| == 0 then "" else if |xs| == 1 then xs[0] else xs[0] + sep + Join(xs[1..], sep)
  }

  /** `String.prototype.toLowerCase` on one character, for ASCII letters. */
  function ToLowerAscii(c: char): (l: char)
    ensures 'A' <= c <= 'Z' ==> 'a' <= l <= 'z' && l as int == c as int + 32
    ensures !('A' <= c <= 'Z') ==> l == c
  {
    if 'A' <= c <= 'Z' then (c as int + 32) as char else c
  }
}

/** The few .NET string operations the dialogue system relies on, with ordinal
    (character-by-character) comparison throughout. */
module Strings {

  /** `t` occurs in `s` starting at index `i`. */
  predicate OccursAt(s: string, t: string, i: nat) {
    i + |t| <= |s| && s[i..i + |t|] == t
  }

  /** `t` occurs somewhere in `s`. */
  ghost predicate Contains(s: string, t: string) {
    exists i: nat :: OccursAt(s, t, i)
  }

  /** `String.Replace(oldValue, newValue)`: scans left to right and replaces every
      non-overlapping occurrence of `oldValue`; the text a replacement produces is
      not scanned again. .NET rejects an empty `oldValue`, hence the precondition. */
  function Replace(s: string, oldValue: string, newValue: string): (r: string)
    requires |oldValue| > 0
    ensures |newValue| == |oldValue| ==> |r| == |s|
    ensures |newValue| >= |oldValue| ==> |r| >= |s|
    ensures |newValue| <= |oldValue| ==> |r| <= |s|
    decreases |s|
  {
    if |s| < |oldValue| then s
    else if s[..|oldValue|] == oldValue then newValue + Replace(s[|oldValue|..], oldValue, newValue)
    else [s[0]] + Replace(s[1..], oldValue, newValue)
  }

  /** An occurrence in the tail of `s` is an occurrence in `s`, one place later. */
  lemma ContainsTail(s: string, t: string)
    requires |s| > 0
    requires Contains(s[1..], t)
    ensures Contains(s, t)
  {
    var i: nat :| OccursAt(s[1..], t, i);
    assert s[1..][i..i + |t|] == s[i + 1..i + 1 + |t|];
    assert OccursAt(s, t, i + 1);
  }

  /** Text without any occurrence of the token comes back unchanged. */
  lemma {:induction false} ReplaceAbsent(s: string, oldValue: string, newValue: string)
    requires |oldValue| > 0
    requires !Contains(s, oldValue)
    ensures Replace(s, oldValue, newValue) == s
    decreases |s|
  {
    if |s| >= |oldValue| {
      assert !OccursAt(s, oldValue, 0);
      if Contains(s[1..], oldValue) {
        ContainsTail(s, oldValue);
      }
      ReplaceAbsent(s[1..], oldValue, newValue);
      assert [s[0]] + s[1..] == s;
    }
  }

  /** Replacing a token by itself changes nothing. */
  lemma {:induction false} ReplaceIdentity(s: string, token: string)
    requires |token| > 0
    ensures Replace(s, token, token) == s
    decreases |s|
  {
    if |s| >= |token| {
      if s[..|token|] == token {
        ReplaceIdentity(s[|token|..], token);
        assert token + s[|token|..] == s;
      } else {
        ReplaceIdentity(s[1..], token);
        assert [s[0]] + s[1..] == s;
      }
    }
  }

  /** A leading occurrence of the token is replaced and scanning resumes after it. */
  lemma ReplaceLeadingToken(t: string, oldValue: string, newValue: string)
    requires |oldValue| > 0
    ensures Replace(oldValue + t, oldValue, newValue) == newValue + Replace(t, oldValue, newValue)
  {
    assert (oldValue + t)[..|oldValue|] == oldValue;
    assert (oldValue + t)[|oldValue|..] == t;
  }

  /** A prefix that never contains the token's first character passes through verbatim. */
  lemma {:induction false} ReplacePlainPrefix(p: string, t: string, oldValue: string, newValue: string)
    requires |oldValue| > 0
    requires oldValue[0] !in p
    ensures Replace(p + t, oldValue, newValue) == p + Replace(t, oldValue, newValue)
    decreases |p|
  {
    if |p| > 0 {
      var s := p + t;
      assert s[0] == p[0];
      assert s[1..] == p[1..] + t;
      if |s| >= |oldValue| {
        assert s[..|oldValue|][0] == p[0];
      }
      ReplacePlainPrefix(p[1..], t, oldValue, newValue);
      assert [p[0]] + (p[1..] + Replace(t, oldValue, newValue)) == p + Replace(t, oldValue, newValue);
    } else {
      assert p + t == t;
    }
  }

  /** Text without the token's first character is left unchanged. */
  lemma ReplaceWithoutLead(s: string, oldValue: string, newValue: string)
    requires |oldValue| > 0
    requires oldValue[0] !in s
    ensures Replace(s, oldValue, newValue) == s
  {
    ReplacePlainPrefix(s, [], oldValue, newValue);
    assert s + [] == s;
  }

  /** `String.LastIndexOf(t, StringComparison.Ordinal)`: the greatest index at which
      `t` occurs, or -1 when it does not occur. */
  function LastIndexOf(s: string, t: string): (r: int)
    requires |t| > 0
    ensures -1 <= r
    ensures r >= 0 ==> OccursAt(s, t, r)
    ensures forall i: nat :: r < i ==> !OccursAt(s, t, i)
  {
    LastIndexAtOrBefore(s, t, |s| - |t|)
  }

  /** An occurrence with none after it is the last one. */
  lemma LastIndexOfIs(s: string, t: string, i: nat)
    requires |t| > 0 && OccursAt(s, t, i)
    requires forall j: nat :: i < j ==> !OccursAt(s, t, j)
    ensures LastIndexOf(s, t) == i
  {
  }

  /** The greatest index at most `i` at which `t` occurs, or -1. */
  function LastIndexAtOrBefore(s: string, t: string, i: int): (r: int)
    requires |t| > 0
    requires i <= |s| - |t|
    ensures -1 <= r && (r >= 0 ==> r <= i)
    ensures r >= 0 ==> OccursAt(s, t, r)
    ensures forall k: nat :: r < k <= i ==> !OccursAt(s, t, k)
    decreases i + 1
  {
    if i < 0 then -1
    else if OccursAt(s, t, i) then i
    else LastIndexAtOrBefore(s, t, i - 1)
  }

  /** The decimal digit for `d`. */
  function DigitChar(d: nat): (c: char)
    requires d < 10
    ensures '0' <= c <= '9'
    ensures c as int - '0' as int == d
  {
    (48 + d) as char
  }

  /** `int.ToString()` for a non-negative value: decimal digits, no leading zeros. */
  function NatToString(n: nat): (r: string)
    ensures |r| > 0
    ensures forall i :: 0 <= i < |r| ==> '0' <= r[i] <= '9'
    ensures n > 0 ==> r[0] != '0'
    decreases n
  {
    if n < 10 then [DigitChar(n)] else NatToString(n / 10) + [DigitChar(n % 10)]
  }

  /** Reads a string of decimal digits back as a number. */
  function ParseDigits(s: string): nat
    requires forall i :: 0 <= i < |s| ==> '0' <= s[i] <= '9'
  {
    if |s| == 0 then 0
    else 10 * ParseDigits(s[..|s| - 1]) + (s[|s| - 1] as int - '0' as int)
  }

  /** The decimal rendering loses nothing: reading it back gives the number. */
  lemma {:induction false} NatToStringRoundTrip(n: nat)
    ensures ParseDigits(NatToString(n)) == n
    decreases n
  {
    if n >= 10 {
      var r := NatToString(n);
      assert r[..|r| - 1] == NatToString(n / 10);
      NatToStringRoundTrip(n / 10);
    }
  }
}

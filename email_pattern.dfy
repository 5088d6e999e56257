/**
  The email format check of the form, `^[^\s@]+@[^\s@]+\.[^\s@]+$`, written by
  hand: `MatchesPattern` is the regular expression read structurally (three
  non-empty runs free of whitespace and '@', joined by '@' and '.'), and
  `IsValidEmail` is the character-counting test the form relies on. The two
  are proved to agree on every string.
 */
module EmailPattern {
  import opened Text

  /** A character of the class `[^\s@]`. */
  predicate IsPlain(c: char)
  {
    !IsJsWhitespace(c) && c != '@'
  }

  /** A string all of whose characters are in `[^\s@]` (the `+` adds non-emptiness). */
  ghost predicate PlainRun(t: string)
  {
    forall j :: 0 <= j < |t| ==> IsPlain(t[j])
  }

  /**
    The anchored regular expression, read as a decomposition
    `s == local + "@" + host + "." + tld` with the three parts non-empty runs
    of `[^\s@]`; `i` is the position of the '@' and `k` that of the '.'.
   */
  ghost predicate MatchesAt(s: string, i: int, k: int)
  {
    && 0 < i && i + 1 < k && k + 1 < |s|
    && s[i] == '@' && s[k] == '.'
    && PlainRun(s[..i]) && PlainRun(s[i + 1..k]) && PlainRun(s[k + 1..])
  }

  ghost predicate MatchesPattern(s: string)
  {
    exists i, k :: MatchesAt(s, i, k)
  }

  /** The position of the first occurrence of `c` in `s`. */
  function IndexOf(s: string, c: char): (i: nat)
    requires c in s
    ensures i < |s| && s[i] == c && c !in s[..i]
  {
    if s[0] == c then 0 else 1 + IndexOf(s[1..], c)
  }

  /**
    The email test: no whitespace anywhere, exactly one '@', something before
    it, and a '.' after it that is neither the first nor the last character of
    the part after the '@'.
   */
  predicate IsValidEmail(s: string)
  {
    && (forall j :: 0 <= j < |s| ==> !IsJsWhitespace(s[j]))
    && multiset(s)['@'] == 1
    && var i := IndexOf(s, '@');
       i > 0 && i + 3 <= |s| && '.' in s[i + 2..|s| - 1]
  }

  lemma FirstIndexUnique(s: string, c: char, i: int)
    requires 0 <= i < |s| && s[i] == c && c !in s[..i]
    ensures IndexOf(s, c) == i
  {
  }

  lemma NoAtInPlainRun(t: string)
    requires PlainRun(t)
    ensures multiset(t)['@'] == 0
  {
  }

  lemma PatternImpliesValid(s: string, i: int, k: int)
    requires MatchesAt(s, i, k)
    ensures IsValidEmail(s)
  {
    var local, host, tld := s[..i], s[i + 1..k], s[k + 1..];
    assert s == local + ['@'] + host + ['.'] + tld;
    NoAtInPlainRun(local);
    NoAtInPlainRun(host);
    NoAtInPlainRun(tld);
    assert multiset(s)['@'] == 1;
    forall j | 0 <= j < |s| ensures !IsJsWhitespace(s[j]) {
      if j < i {
        assert s[j] == local[j];
      } else if i < j < k {
        assert s[j] == host[j - i - 1];
      } else if k < j {
        assert s[j] == tld[j - k - 1];
      }
    }
    assert '@' !in local by { assert multiset(local)['@'] == 0; }
    FirstIndexUnique(s, '@', i);
    assert s[i + 2..|s| - 1][k - i - 2] == '.';
  }

  lemma ValidImpliesPattern(s: string) returns (i: int, k: int)
    requires IsValidEmail(s)
    ensures MatchesAt(s, i, k)
  {
    i := IndexOf(s, '@');
    var mid := s[i + 2..|s| - 1];
    var m :| 0 <= m < |mid| && mid[m] == '.';
    k := i + 2 + m;
    var local, domain := s[..i], s[i + 1..];
    assert s == local + [s[i]] + domain;
    assert multiset(domain)['@'] == 0;
    forall j | 0 <= j < |local| ensures IsPlain(local[j]) {
      assert local[j] == s[j];
    }
    var host, tld := s[i + 1..k], s[k + 1..];
    forall j | 0 <= j < |host| ensures IsPlain(host[j]) {
      assert host[j] == domain[j];
      assert domain[j] in multiset(domain);
    }
    forall j | 0 <= j < |tld| ensures IsPlain(tld[j]) {
      assert tld[j] == domain[k - i + j];
      assert domain[k - i + j] in multiset(domain);
    }
  }

  /** The hand-written test accepts exactly the strings the regular expression matches. */
  lemma ValidIffPattern(s: string)
    ensures IsValidEmail(s) <==> MatchesPattern(s)
  {
    if IsValidEmail(s) {
      var i, k := ValidImpliesPattern(s);
    }
    if MatchesPattern(s) {
      var i, k :| MatchesAt(s, i, k);
      PatternImpliesValid(s, i, k);
    }
  }

}

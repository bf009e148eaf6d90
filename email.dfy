/**
 * The e-mail pattern `/^[^\s@]+@[^\s@]+\.[^\s@]+$/` used by the footer's
 * newsletter form and by the client extension's form validation.
 */
module EmailPattern {
  import opened Text

  /** A character of the class `[^\s@]`. */
  predicate PlainChar(c: char)
  {
    !IsWhitespace(c) && c != '@'
  }

  /** A non-empty run of `[^\s@]`. */
  predicate PlainRun(s: string)
  {
    |s| >= 1 && forall k :: 0 <= k < |s| ==> PlainChar(s[k])
  }

  /** The pattern matches `s` with the `@` at index `i` and the literal `.`
      at index `j`. */
  ghost predicate MatchesWith(s: string, i: int, j: int)
  {
    0 <= i < j < |s|
    && PlainRun(s[..i]) && s[i] == '@'
    && PlainRun(s[i + 1..j]) && s[j] == '.'
    && PlainRun(s[j + 1..])
  }

  /** What `emailRegex.test(s)` answers, read off the regular expression. */
  ghost predicate MatchesRegex(s: string)
  {
    exists i, j :: MatchesWith(s, i, j)
  }

  function CountChar(s: string, c: char): nat
  {
    if s == [] then 0 else (if s[0] == c then 1 else 0) + CountChar(s[1..], c)
  }

  function IndexOf(s: string, c: char): (i: nat)
    requires c in s
    ensures i < |s| && s[i] == c && c !in s[..i]
  {
    if s[0] == c then 0 else 1 + IndexOf(s[1..], c)
  }

  /** The first occurrence is the one with none before it. */
  lemma {:induction false} IndexOfFirst(s: string, c: char, i: nat)
    requires i < |s| && s[i] == c && c !in s[..i]
    ensures IndexOf(s, c) == i
  {
    if i > 0 {
      assert s[0] == s[..i][0];
      assert s[1..][..i - 1] == s[..i][1..];
      IndexOfFirst(s[1..], c, i - 1);
    }
  }

  /** A `.` in `d` that is neither its first nor its last character. */
  predicate HasInnerDot(d: string)
  {
    exists k :: 0 < k < |d| - 1 && d[k] == '.'
  }

  /** The pattern in plain terms: no white space anywhere, exactly one
      `@`, something before it, and after it a domain with a `.` that is
      neither its first nor its last character. */
  predicate IsValidEmail(s: string)
  {
    && (forall k :: 0 <= k < |s| ==> !IsWhitespace(s[k]))
    && '@' in s && CountChar(s, '@') == 1
    && IndexOf(s, '@') > 0
    && HasInnerDot(s[IndexOf(s, '@') + 1..])
  }

  lemma {:induction false} CountZeroIff(s: string, c: char)
    ensures CountChar(s, c) == 0 <==> c !in s
  {
    if s != [] {
      CountZeroIff(s[1..], c);
      assert s == [s[0]] + s[1..];
    }
  }

  lemma {:induction false} CountSplit(a: string, b: string, c: char)
    ensures CountChar(a + b, c) == CountChar(a, c) + CountChar(b, c)
  {
    if a != [] {
      var ab := a + b;
      assert ab[0] == a[0] && ab[1..] == a[1..] + b;
      CountSplit(a[1..], b, c);
      assert CountChar(ab, c) == (if a[0] == c then 1 else 0) + CountChar(a[1..] + b, c);
    } else {
      assert a + b == b;
    }
  }

  lemma PlainRunNoAt(s: string)
    requires PlainRun(s)
    ensures '@' !in s
  {
  }

  /** The plain reading agrees with the regular expression, both ways. */
  lemma IsValidEmailMatchesRegex(s: string)
    ensures IsValidEmail(s) <==> MatchesRegex(s)
  {
    if IsValidEmail(s) {
      ValidImpliesMatch(s);
    }
    if MatchesRegex(s) {
      var i, j :| MatchesWith(s, i, j);
      MatchImpliesValid(s, i, j);
    }
  }

  lemma ValidImpliesMatch(s: string)
    requires IsValidEmail(s)
    ensures MatchesRegex(s)
  {
    var i := IndexOf(s, '@');
    var d := s[i + 1..];
    var k :| 0 < k < |d| - 1 && d[k] == '.';
    var j := i + 1 + k;
    assert s == s[..i] + [s[i]] + d;
    CountSplit(s[..i] + [s[i]], d, '@');
    CountSplit(s[..i], [s[i]], '@');
    CountZeroIff(d, '@');
    assert s[..i] == s[..i];
    assert PlainRun(s[..i]) by {
      forall t | 0 <= t < i ensures PlainChar(s[..i][t]) {
        assert s[..i][t] == s[t];
        assert s[t] in s[..i];
      }
    }
    var b, c := s[i + 1..j], s[j + 1..];
    assert PlainRun(b) by {
      forall t | 0 <= t < |b| ensures PlainChar(b[t]) {
        assert b[t] == d[t];
        assert d[t] in d;
      }
    }
    assert PlainRun(c) by {
      forall t | 0 <= t < |c| ensures PlainChar(c[t]) {
        assert c[t] == d[k + 1 + t];
        assert d[k + 1 + t] in d;
      }
    }
    assert MatchesWith(s, i, j);
  }

  lemma MatchImpliesValid(s: string, i: int, j: int)
    requires MatchesWith(s, i, j)
    ensures IsValidEmail(s)
  {
    var a, b, c := s[..i], s[i + 1..j], s[j + 1..];
    assert s == a + ['@'] + (b + ['.'] + c);
    PlainRunNoAt(a);
    PlainRunNoAt(b);
    PlainRunNoAt(c);
    CountZeroIff(a, '@');
    CountZeroIff(b, '@');
    CountZeroIff(c, '@');
    CountSplit(b + ['.'], c, '@');
    CountSplit(b, ['.'], '@');
    CountSplit(a + ['@'], b + ['.'] + c, '@');
    CountSplit(a, ['@'], '@');
    assert s[..i] == a;
    IndexOfFirst(s, '@', i);
    forall k | 0 <= k < |s| ensures !IsWhitespace(s[k]) {
      if k < i {
        assert s[k] == a[k];
      } else if i < k < j {
        assert s[k] == b[k - (i + 1)];
      } else if k > j {
        assert s[k] == c[k - (j + 1)];
      }
    }
    var d := s[i + 1..];
    assert d[j - (i + 1)] == '.';
    assert HasInnerDot(d);
  }
}

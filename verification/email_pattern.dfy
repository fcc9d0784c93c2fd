/**
 * The e-mail format check of the person form, the regular expression
 * `^[^\s@]+@[^\s@]+\.[^\s@]+$` applied to the whole (untrimmed) input.
 *
 * `RegexMatch` states what the expression accepts, one run of the character
 * class per `+`. `EmailFormat` is this model's own restatement of the
 * expression as a hand-coded check: it splits at the single `@` and looks for
 * an inner dot in the domain. `EmailFormatIsRegex` proves the two agree on
 * every string, so the validator may use either.
 */
module EmailPattern {
  import opened Text

  /** The character class `[^\s@]`. */
  predicate WordChar(c: char)
  {
    !IsWhitespace(c) && c != '@'
  }

  /** The repetition `[^\s@]+`. */
  predicate Word(t: string)
  {
    |t| > 0 && forall i | 0 <= i < |t| :: WordChar(t[i])
  }

  /** The strings the anchored expression accepts: a word, `@`, a word, a
      literal `.`, a word, and nothing else. */
  predicate RegexMatch(s: string)
  {
    exists at, dot | 0 < at < dot < |s| ::
      && s[at] == '@' && s[dot] == '.'
      && Word(s[..at]) && Word(s[at + 1..dot]) && Word(s[dot + 1..])
  }

  /** Position of the first `c` in `s`, or -1 when there is none. */
  function IndexOf(s: string, c: char): (i: int)
    ensures i == -1 <==> c !in s
    ensures i == -1 || (0 <= i < |s| && s[i] == c && c !in s[..i])
  {
    if |s| == 0 then -1
    else if s[0] == c then 0
    else
      var j := IndexOf(s[1..], c);
      if j == -1 then -1
      else
        assert s[..j + 1] == [s[0]] + s[1..][..j];
        j + 1
  }

  /** The domain holds a `.` with at least one character on each side. */
  predicate HasInnerDot(domain: string)
  {
    exists k | 0 < k < |domain| - 1 :: domain[k] == '.'
  }

  /** The split-based check: no whitespace anywhere, exactly one `@`, a
      non-empty part before it and an inner dot in the part after it. */
  predicate EmailFormat(s: string)
  {
    && (forall i | 0 <= i < |s| :: !IsWhitespace(s[i]))
    && var at := IndexOf(s, '@');
       && 0 < at
       && '@' !in s[at + 1..]
       && HasInnerDot(s[at + 1..])
  }

  lemma IndexOfFirst(s: string, c: char, i: int)
    requires 0 <= i < |s| && s[i] == c && c !in s[..i]
    ensures IndexOf(s, c) == i
  {
  }

  /** Splitting at the `@` and finding the inner dot yields the three words. */
  lemma EmailFormatMatches(s: string)
    requires EmailFormat(s)
    ensures RegexMatch(s)
  {
  }

  /** Every string the expression accepts passes the split-based check. */
  lemma RegexMatchPassesFormat(s: string)
    requires RegexMatch(s)
    ensures EmailFormat(s)
  {
    var at, dot :| 0 < at < dot < |s| && s[at] == '@' && s[dot] == '.'
      && Word(s[..at]) && Word(s[at + 1..dot]) && Word(s[dot + 1..]);
    assert !IsWhitespace('@') && !IsWhitespace('.');
    forall i | 0 <= i < |s| ensures !IsWhitespace(s[i]) && (i != at ==> s[i] != '@') {
      if i < at {
        assert s[i] == s[..at][i];
      } else if at < i < dot {
        assert s[i] == s[at + 1..dot][i - at - 1];
      } else if dot < i {
        assert s[i] == s[dot + 1..][i - dot - 1];
      }
    }
    assert '@' !in s[..at];
    IndexOfFirst(s, '@', at);
    var domain := s[at + 1..];
    assert domain[dot - at - 1] == '.';
    assert forall j | 0 <= j < |domain| :: domain[j] == s[at + 1 + j];
  }

  lemma EmailFormatIsRegex(s: string)
    ensures EmailFormat(s) <==> RegexMatch(s)
  {
    if EmailFormat(s) {
      EmailFormatMatches(s);
    }
    if RegexMatch(s) {
      RegexMatchPassesFormat(s);
    }
  }

  /** An address that carries whitespace at either end never matches, however
      much non-whitespace it holds: `trim` does not apply to the format check. */
  lemma PaddedEmailNeverMatches(s: string)
    requires |s| > 0 && (IsWhitespace(s[0]) || IsWhitespace(s[|s| - 1]))
    ensures !RegexMatch(s)
  {
  }
}

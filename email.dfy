/**
 * The email shape that the score update demands of every item: the whole string
 * must match the regular expression `.+@.+\..+` (Java `String.matches`, which
 * anchors at both ends).
 */
module EmailPattern {

  /** The characters that the regex `.` does not match (java.util.regex line terminators). */
  predicate LineTerminator(c: char)
  {
    c == '\n' || c == '\r' || c == '\U{0085}' || c == '\U{2028}' || c == '\U{2029}'
  }

  /** No character of `s` is a line terminator: `.` matches each of them. */
  predicate NoLineTerminator(s: string)
  {
    forall i :: 0 <= i < |s| ==> !LineTerminator(s[i])
  }

  /** `.+`: one or more characters, none a line terminator. */
  predicate AnyChars(s: string)
  {
    |s| > 0 && NoLineTerminator(s)
  }

  /** Joining two strings without line terminators gives one without. */
  lemma NoLineTerminatorConcat(a: string, b: string)
    requires NoLineTerminator(a) && NoLineTerminator(b)
    ensures NoLineTerminator(a + b)
  {
    forall i | 0 <= i < |a + b| ensures !LineTerminator((a + b)[i]) {
      if i < |a| {
        assert (a + b)[i] == a[i];
      } else {
        assert (a + b)[i] == b[i - |a|];
      }
    }
  }

  /**
   * The check as the endpoint runs it: no line terminator anywhere, an '@' that is
   * not the first character, and a later '.' with at least one character on each side.
   */
  predicate IsValidEmail(s: string)
  {
    && NoLineTerminator(s)
    && exists at, dot | 0 < at < |s| && 0 < dot < |s| ::
         at + 1 < dot && dot + 1 < |s| && s[at] == '@' && s[dot] == '.'
  }

  /** The regular expression read as a grammar: `s` splits into `.+`, '@', `.+`, '.', `.+`. */
  ghost predicate MatchesPattern(s: string)
  {
    exists user, host, tld ::
      s == user + "@" + host + "." + tld && AnyChars(user) && AnyChars(host) && AnyChars(tld)
  }

  /** A string the check accepts splits into the three parts the expression demands. */
  lemma ValidEmailMatches(s: string)
    requires IsValidEmail(s)
    ensures MatchesPattern(s)
  {
    var at, dot :| 0 < at < |s| && 0 < dot < |s| && at + 1 < dot && dot + 1 < |s|
                    && s[at] == '@' && s[dot] == '.';
    var user, host, tld := s[..at], s[at + 1..dot], s[dot + 1..];
    assert s == user + "@" + host + "." + tld;
    assert AnyChars(user) && AnyChars(host) && AnyChars(tld);
  }

  /** A string built from the three parts passes the check, at the '@' and '.' between them. */
  lemma MatchesValidEmail(s: string)
    requires MatchesPattern(s)
    ensures IsValidEmail(s)
  {
    var user, host, tld :| s == user + "@" + host + "." + tld
                           && AnyChars(user) && AnyChars(host) && AnyChars(tld);
    var at, dot := |user|, |user| + 1 + |host|;
    assert s[at] == '@' && s[dot] == '.';
    NoLineTerminatorConcat(user, "@");
    NoLineTerminatorConcat(user + "@", host);
    NoLineTerminatorConcat(user + "@" + host, ".");
    NoLineTerminatorConcat(user + "@" + host + ".", tld);
    assert 0 < at < |s| && 0 < dot < |s| && at + 1 < dot && dot + 1 < |s|;
  }

  /** The executable check accepts exactly the strings the regular expression matches. */
  lemma IsValidEmailIffMatches(s: string)
    ensures IsValidEmail(s) <==> MatchesPattern(s)
  {
    if IsValidEmail(s) {
      ValidEmailMatches(s);
    }
    if MatchesPattern(s) {
      MatchesValidEmail(s);
    }
  }

  /** The inputs the score-update tests send pass; a string without a dot after '@' does not. */
  lemma EmailExamples()
    ensures IsValidEmail("sam@csumb.edu")
    ensures !IsValidEmail("sam@csumb")
  {
    assert "sam@csumb.edu"[3] == '@' && "sam@csumb.edu"[9] == '.';
  }
}

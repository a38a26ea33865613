/** The sign-up and login input checks: the school e-mail address and the
    password rule, each a regular expression anchored at both ends. */
module Credentials {
  import opened Text

  /** `[a-zA-Z0-9._%+-]`: a character of the local part. */
  predicate LocalChar(c: char) {
    ('a' <= c <= 'z') || ('A' <= c <= 'Z') || ('0' <= c <= '9') ||
    c == '.' || c == '_' || c == '%' || c == '+' || c == '-'
  }

  /** The one accepted domain, with its `@`. */
  const Domain := "@mju.ac.kr"

  /** `strictEmailRegex.test(s)`, `/^[a-zA-Z0-9._%+-]+@mju\.ac\.kr$/`: a non-empty
      local part over the allowed characters, then exactly the domain, matched
      case-sensitively. */
  predicate StrictEmail(s: string) {
    |s| > |Domain| && s[|s| - |Domain|..] == Domain &&
    forall i :: 0 <= i < |s| - |Domain| ==> LocalChar(s[i])
  }

  /** The expression's own reading: some non-empty local part followed by the domain. */
  lemma {:induction false} StrictEmailSplit(s: string)
    ensures StrictEmail(s) <==>
      exists local :: s == local + Domain && |local| >= 1 && forall i :: 0 <= i < |local| ==> LocalChar(local[i])
  {
    if StrictEmail(s) {
      var local := s[..|s| - |Domain|];
      assert s == local + Domain;
    }
    if exists local :: s == local + Domain && |local| >= 1 && forall i :: 0 <= i < |local| ==> LocalChar(local[i]) {
      var local :| s == local + Domain && |local| >= 1 && forall i :: 0 <= i < |local| ==> LocalChar(local[i]);
      assert s[|s| - |Domain|..] == Domain;
      assert forall i :: 0 <= i < |s| - |Domain| ==> s[i] == local[i];
    }
  }

  /** An accepted address holds exactly one `@`, the one that starts the domain. */
  lemma {:induction false} StrictEmailOneAt(s: string)
    requires StrictEmail(s)
    ensures s[|s| - |Domain|] == '@'
    ensures forall i :: 0 <= i < |s| && s[i] == '@' ==> i == |s| - |Domain|
  {
    var d := |s| - |Domain|;
    assert forall k :: 0 <= k < |Domain| ==> s[d + k] == Domain[k];
    assert forall k :: 1 <= k < |Domain| ==> Domain[k] != '@';
  }

  /** The address must end with the domain exactly: an upper-case domain fails. */
  lemma {:induction false} StrictEmailCaseSensitive(local: string)
    ensures !StrictEmail(local + "@MJU.AC.KR")
  {
    var s := local + "@MJU.AC.KR";
    assert s[|s| - 9] == 'M';
  }

  /** One of the special characters `!@#$%^&*()_+-=[]{};':"\|,.<>/?`. */
  predicate SpecialChar(c: char) {
    c == '!' || c == '@' || c == '#' || c == '$' || c == '%' || c == '^' || c == '&' || c == '*' ||
    c == '(' || c == ')' || c == '_' || c == '+' || c == '-' || c == '=' || c == '[' || c == ']' ||
    c == '{' || c == '}' || c == ';' || c == '\'' || c == ':' || c == '"' || c == '\\' || c == '|' ||
    c == ',' || c == '.' || c == '<' || c == '>' || c == '/' || c == '?'
  }

  predicate Letter(c: char) {
    ('a' <= c <= 'z') || ('A' <= c <= 'Z')
  }

  /** A character of the body `[A-Za-z\d<specials>]`. */
  predicate PasswordChar(c: char) {
    Letter(c) || IsDigit(c) || SpecialChar(c)
  }

  /** `passwordRegex.test(s)`, which `isValidPassword` returns: at least eight
      characters, all letters, digits or specials, with at least one of each of
      the three kinds. */
  predicate ValidPassword(s: string) {
    |s| >= 8 &&
    (forall i :: 0 <= i < |s| ==> PasswordChar(s[i])) &&
    (exists i :: 0 <= i < |s| && Letter(s[i])) &&
    (exists i :: 0 <= i < |s| && IsDigit(s[i])) &&
    (exists i :: 0 <= i < |s| && SpecialChar(s[i]))
  }

  /** A password with any white space in it is rejected. */
  lemma PasswordRejectsSpace(s: string, k: int)
    requires 0 <= k < |s| && IsSpace(s[k])
    ensures !ValidPassword(s)
  {
    assert !PasswordChar(s[k]);
  }

  /** Letters and digits alone never make a password. */
  lemma PasswordNeedsSpecial(s: string)
    requires forall i :: 0 <= i < |s| ==> Letter(s[i]) || IsDigit(s[i])
    ensures !ValidPassword(s)
  {
    forall i | 0 <= i < |s| ensures !SpecialChar(s[i]) {
      assert Letter(s[i]) || IsDigit(s[i]);
    }
  }

  /** Characters outside the listed specials, such as `~` and the backtick, are
      rejected as well. */
  lemma PasswordRejectsTilde(s: string, k: int)
    requires 0 <= k < |s| && (s[k] == '~' || s[k] == '`')
    ensures !ValidPassword(s)
  {
    assert !PasswordChar(s[k]);
  }

  /** Any string of at least eight allowed characters with a letter, a digit and
      a special somewhere passes, in any order. */
  lemma PasswordAccepted(s: string, i: int, j: int, k: int)
    requires |s| >= 8 && forall n :: 0 <= n < |s| ==> PasswordChar(s[n])
    requires 0 <= i < |s| && Letter(s[i])
    requires 0 <= j < |s| && IsDigit(s[j])
    requires 0 <= k < |s| && SpecialChar(s[k])
    ensures ValidPassword(s)
  {
  }

  /** Appending or prepending allowed characters keeps a password valid. */
  lemma PasswordExtends(s: string, t: string)
    requires ValidPassword(s) && forall n :: 0 <= n < |t| ==> PasswordChar(t[n])
    ensures ValidPassword(s + t) && ValidPassword(t + s)
  {
    var i :| 0 <= i < |s| && Letter(s[i]);
    var j :| 0 <= j < |s| && IsDigit(s[j]);
    var k :| 0 <= k < |s| && SpecialChar(s[k]);
    assert (s + t)[i] == s[i] && (s + t)[j] == s[j] && (s + t)[k] == s[k];
    assert (t + s)[|t| + i] == s[i] && (t + s)[|t| + j] == s[j] && (t + s)[|t| + k] == s[k];
    forall n | 0 <= n < |s + t| ensures PasswordChar((s + t)[n]) {
      if n < |s| { assert (s + t)[n] == s[n]; } else { assert (s + t)[n] == t[n - |s|]; }
    }
    forall n | 0 <= n < |t + s| ensures PasswordChar((t + s)[n]) {
      if n < |t| { assert (t + s)[n] == t[n]; } else { assert (t + s)[n] == s[n - |t|]; }
    }
  }

  /** An instance: eight characters with one of each kind. */
  lemma PasswordExample()
    ensures ValidPassword("abcdef1!")
  {
    var s := "abcdef1!";
    assert Letter(s[0]) && IsDigit(s[6]) && SpecialChar(s[7]);
  }
}

/**
 * The credential service: password digests and their verification, and the
 * field rules the login, forgot-password, change-password and reset-password
 * forms apply before any table is read.
 */
module Credentials {

  /**
   * A value of a `*_hash` column. `Salted` is what the hashing routine writes:
   * the salt it drew and, abstractly, the secret it was computed from. Any
   * other text found in the column is `Malformed` and verifies nothing.
   */
  datatype Digest = Salted(salt: nat, secret: string) | Malformed(text: string)

  /** Does `password` match `digest`? A malformed digest verifies nothing. */
  predicate Verify(password: string, digest: Digest)
  {
    digest.Salted? && digest.secret == password
  }

  /**
   * Hashing with a caller-supplied random salt. Whatever the salt, the digest
   * accepts the password it was made from and no other.
   */
  function Hash(password: string, salt: nat): (d: Digest)
    ensures Verify(password, d)
    ensures forall other :: Verify(other, d) ==> other == password
  {
    Salted(salt, password)
  }

  /** Python's `str.isspace` for one code point. */
  predicate IsSpace(c: char)
  {
    || ('\t' <= c <= '\r')
    || ('\U{1C}' <= c <= ' ')
    || c == '\U{85}' || c == '\U{A0}' || c == '\U{1680}'
    || ('\U{2000}' <= c <= '\U{200A}')
    || c == '\U{2028}' || c == '\U{2029}' || c == '\U{202F}'
    || c == '\U{205F}' || c == '\U{3000}'
  }

  /** The `DataRequired` field rule: the value is neither empty nor only whitespace. */
  predicate Present(s: string)
  {
    exists i :: 0 <= i < |s| && !IsSpace(s[i])
  }

  /** Python's `str.lstrip()`: drop leading whitespace. */
  function StripLeading(s: string): string
  {
    if |s| > 0 && IsSpace(s[0]) then StripLeading(s[1..]) else s
  }

  /** Python's `str.rstrip()`: drop trailing whitespace. */
  function StripTrailing(s: string): string
  {
    if |s| > 0 && IsSpace(s[|s| - 1]) then StripTrailing(s[..|s| - 1]) else s
  }

  /** Python's `str.strip()`, which `DataRequired` applies before testing for emptiness. */
  function Strip(s: string): string
  {
    StripTrailing(StripLeading(s))
  }

  /** Stripping the front leaves nothing exactly for a blank value, and otherwise starts at a non-space. */
  lemma {:induction false} StripLeadingBlank(s: string)
    ensures StripLeading(s) == [] <==> !Present(s)
    ensures StripLeading(s) != [] ==> !IsSpace(StripLeading(s)[0])
    decreases |s|
  {
    if |s| > 0 && IsSpace(s[0]) {
      StripLeadingBlank(s[1..]);
      if Present(s) {
        var i :| 0 <= i < |s| && !IsSpace(s[i]);
        assert s[1..][i - 1] == s[i];
      }
      if Present(s[1..]) {
        var i :| 0 <= i < |s[1..]| && !IsSpace(s[1..][i]);
        assert s[i + 1] == s[1..][i];
      }
    } else if |s| > 0 {
      assert !IsSpace(s[0]);
    }
  }

  /** Stripping the back of a value that starts at a non-space keeps that first character. */
  lemma {:induction false} StripTrailingKeepsHead(s: string)
    requires |s| > 0 && !IsSpace(s[0])
    ensures |StripTrailing(s)| > 0 && StripTrailing(s)[0] == s[0]
    decreases |s|
  {
    if IsSpace(s[|s| - 1]) {
      StripTrailingKeepsHead(s[..|s| - 1]);
    }
  }

  /** `DataRequired` as the form library states it: the value is non-empty once stripped. */
  lemma StripEmptyIffBlank(s: string)
    ensures Strip(s) != [] <==> Present(s)
  {
    StripLeadingBlank(s);
    if StripLeading(s) != [] {
      StripTrailingKeepsHead(StripLeading(s));
    }
  }

  /** The `Length(min=6)` rule on a new password. */
  const MinPasswordLength: nat := 6

  /**
   * The rules shared by the change-password and reset-password forms on the
   * new password and its confirmation: both present, the new one at least
   * `MinPasswordLength` code points, and the confirmation equal to it.
   */
  predicate NewPasswordAccepted(newPassword: string, confirmation: string)
  {
    && Present(newPassword)
    && |newPassword| >= MinPasswordLength
    && Present(confirmation)
    && confirmation == newPassword
  }

  /**
   * The new-password rules, stated with Python's `strip()` as the form
   * library tests them: long enough, confirmed, and non-empty once stripped.
   * In particular a password of six spaces is turned away although its length
   * passes.
   */
  lemma NewPasswordRules(newPassword: string, confirmation: string)
    ensures NewPasswordAccepted(newPassword, confirmation)
        <==> |newPassword| >= MinPasswordLength && confirmation == newPassword && Strip(newPassword) != []
    ensures !NewPasswordAccepted("      ", "      ")
  {
    StripEmptyIffBlank(newPassword);
  }
}

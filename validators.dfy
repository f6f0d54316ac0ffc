/** The Bean Validation checks on a user's credentials
    (annotation/validator/PasswordValidator.java and UsernameValidator.java).
    A null field is `None`. Java's `String.length()` counts UTF-16 code
    units: a character outside the Basic Multilingual Plane counts twice. */
module Validators {
  import opened Wrappers

  /** The first code point that needs a surrogate pair in UTF-16. */
  const SupplementaryStart: int := 0x1_0000

  /** The UTF-16 code units one character takes. */
  function CodeUnits(c: char): nat {
    if c as int < SupplementaryStart then 1 else 2
  }

  /** `String.length()`: the number of UTF-16 code units of `s`, which lies
      between its number of characters and twice that. */
  function Utf16Length(s: string): (n: nat)
    ensures |s| <= n <= 2 * |s|
    decreases |s|
  {
    if s == [] then 0 else CodeUnits(s[0]) + Utf16Length(s[1..])
  }

  /** `PasswordValidator.isValid`. Counted in characters, a valid password
      has 4 to 27: characters outside the Basic Multilingual Plane count
      twice towards the limits. */
  predicate IsValidPassword(password: Option<string>): (valid: bool)
    ensures valid ==> password.Some? && 4 <= |password.value| <= 27
  {
    password.Some? && Utf16Length(password.value) > 6 && Utf16Length(password.value) < 28
  }

  /** `UsernameValidator.isValid`. Counted in characters, a valid username
      has 4 to 15. */
  predicate IsValidUsername(username: Option<string>): (valid: bool)
    ensures valid ==> username.Some? && 4 <= |username.value| <= 15
  {
    username.Some? && Utf16Length(username.value) > 6 && Utf16Length(username.value) < 16
  }

  /** The length of a concatenation is the sum of the lengths. */
  lemma {:induction false} Utf16LengthConcat(a: string, b: string)
    ensures Utf16Length(a + b) == Utf16Length(a) + Utf16Length(b)
    decreases |a|
  {
    if a == [] {
      assert a + b == b;
    } else {
      assert (a + b)[1..] == a[1..] + b;
      Utf16LengthConcat(a[1..], b);
    }
  }

  /** Text made only of characters of the Basic Multilingual Plane has as
      many code units as characters. */
  lemma {:induction false} BmpLengthIsCharCount(s: string)
    requires forall i | 0 <= i < |s| :: s[i] as int < SupplementaryStart
    ensures Utf16Length(s) == |s|
    decreases |s|
  {
    if s != [] {
      BmpLengthIsCharCount(s[1..]);
    }
  }

  /** A password is valid exactly when it is present and has 7 to 27
      UTF-16 code units. */
  lemma PasswordLengthRule(password: Option<string>)
    ensures password.None? ==> !IsValidPassword(password)
    ensures password.Some? && Utf16Length(password.value) <= 6 ==> !IsValidPassword(password)
    ensures password.Some? && Utf16Length(password.value) >= 28 ==> !IsValidPassword(password)
    ensures password.Some? && 7 <= Utf16Length(password.value) <= 27 ==> IsValidPassword(password)
  {
  }

  /** A username is valid exactly when it is present and has 7 to 15
      UTF-16 code units. */
  lemma UsernameLengthRule(username: Option<string>)
    ensures username.None? ==> !IsValidUsername(username)
    ensures username.Some? && Utf16Length(username.value) <= 6 ==> !IsValidUsername(username)
    ensures username.Some? && Utf16Length(username.value) >= 16 ==> !IsValidUsername(username)
    ensures username.Some? && 7 <= Utf16Length(username.value) <= 15 ==> IsValidUsername(username)
  {
  }

  /** Which characters a credential holds matters only through its number
      of code units. */
  lemma ValidityIgnoresCharacters(a: string, b: string)
    requires Utf16Length(a) == Utf16Length(b)
    ensures IsValidPassword(Some(a)) == IsValidPassword(Some(b))
    ensures IsValidUsername(Some(a)) == IsValidUsername(Some(b))
  {
  }

  /** Appending one character outside the Basic Multilingual Plane adds two
      code units, so it can take a password of 26 code units past the
      upper limit. */
  lemma SupplementaryCharCountsTwice(s: string, c: char)
    requires c as int >= SupplementaryStart
    ensures Utf16Length(s + [c]) == Utf16Length(s) + 2
    ensures Utf16Length(s) == 26 ==> IsValidPassword(Some(s)) && !IsValidPassword(Some(s + [c]))
  {
    Utf16LengthConcat(s, [c]);
    assert Utf16Length([c]) == CodeUnits(c) + Utf16Length([c][1..]);
  }
}

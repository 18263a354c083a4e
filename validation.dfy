/**
 * The three field validators of the directory. A name is letters and spaces,
 * a phone number is ten digits, and an e-mail address must have its first
 * '@' after position 0 and before its last '.', with something after that '.'.
 *
 * `isalpha` and `isdigit` are taken in the "C" locale: ASCII letters and
 * ASCII decimal digits.
 */
module Validation {
  import opened Contacts

  predicate IsAlpha(c: char)
  {
    'A' <= c <= 'Z' || 'a' <= c <= 'z'
  }

  predicate IsDigit(c: char)
  {
    '0' <= c <= '9'
  }

  /** What a valid name is: non-empty, and nothing but letters and spaces. */
  predicate ValidName(s: string)
  {
    |s| > 0 && forall k :: 0 <= k < |s| ==> IsAlpha(s[k]) || s[k] == ' '
  }

  /** What a valid phone number is: exactly ten decimal digits. */
  predicate ValidPhone(s: string)
  {
    |s| == 10 && forall k :: 0 <= k < |s| ==> IsDigit(s[k])
  }

  /**
   * What a valid e-mail address is, stated without searching: there is an '@'
   * at some position a > 0 with no '@' before it, a '.' at some later position
   * d with no '.' after it, and d is not the last position.
   */
  ghost predicate ValidEmailShape(s: string)
  {
    exists a, d :: 0 < a < d < |s| - 1 && s[a] == '@' && s[d] == '.'
      && '@' !in s[..a] && '.' !in s[d + 1..]
  }

  /** The character scan of isValidName: reject the empty name, then stop at the first bad character. */
  method IsValidName(name: string) returns (ok: bool)
    ensures ok <==> ValidName(name)
  {
    if |name| == 0 {
      return false;
    }
    var i := 0;
    while i < |name|
      invariant 0 <= i <= |name|
      invariant forall k :: 0 <= k < i ==> IsAlpha(name[k]) || name[k] == ' '
    {
      if !IsAlpha(name[i]) && name[i] != ' ' {
        return false;
      }
      i := i + 1;
    }
    return true;
  }

  /** The scan of isValidPhone: reject any length but 10, then stop at the first non-digit. */
  method IsValidPhone(phone: string) returns (ok: bool)
    ensures ok <==> ValidPhone(phone)
  {
    if |phone| != 10 {
      return false;
    }
    var i := 0;
    while i < |phone|
      invariant 0 <= i <= |phone|
      invariant forall k :: 0 <= k < i ==> IsDigit(phone[k])
    {
      if !IsDigit(phone[i]) {
        return false;
      }
      i := i + 1;
    }
    return true;
  }

  /** strchr: the position of the first occurrence of `ch` in `s`, if any. */
  function StrChr(s: string, ch: char): (r: Option<nat>)
    ensures r.Some? ==> r.value < |s| && s[r.value] == ch && ch !in s[..r.value]
    ensures r.None? ==> ch !in s
  {
    if |s| == 0 then None
    else if s[0] == ch then Some(0)
    else
      match StrChr(s[1..], ch)
      case None => None
      case Some(i) =>
        assert s[..i + 1] == [s[0]] + s[1..][..i];
        Some(i + 1)
  }

  /** strrchr: the position of the last occurrence of `ch` in `s`, if any. */
  function StrRChr(s: string, ch: char): (r: Option<nat>)
    ensures r.Some? ==> r.value < |s| && s[r.value] == ch && ch !in s[r.value + 1..]
    ensures r.None? ==> ch !in s
  {
    if |s| == 0 then None
    else if s[|s| - 1] == ch then Some(|s| - 1)
    else
      var r := StrRChr(s[..|s| - 1], ch);
      assert r.Some? ==> s[r.value + 1..] == s[..|s| - 1][r.value + 1..] + [s[|s| - 1]];
      assert r.None? ==> s == s[..|s| - 1] + [s[|s| - 1]];
      r
  }

  /**
   * isValidEmail: find the first '@' and the last '.'; both must exist, the
   * '@' must not open the address, it must come before the '.', and the '.'
   * must not be the final character.
   */
  function IsValidEmail(email: string): (ok: bool)
    ensures ok <==> ValidEmailShape(email)
  {
    var at, dot := StrChr(email, '@'), StrRChr(email, '.');
    var ok := at.Some? && dot.Some? && 0 < at.value < dot.value && dot.value + 1 < |email|;
    EmailShapeOfScans(email, at, dot);
    ok
  }

  /** Any '@' with none before it is the one strchr finds; any '.' with none after it is the one strrchr finds. */
  lemma EmailShapeOfScans(s: string, at: Option<nat>, dot: Option<nat>)
    requires at == StrChr(s, '@') && dot == StrRChr(s, '.')
    ensures ValidEmailShape(s) <==>
      at.Some? && dot.Some? && 0 < at.value < dot.value && dot.value + 1 < |s|
  {
    if at.Some? && dot.Some? && 0 < at.value < dot.value && dot.value + 1 < |s| {
      assert s[at.value] == '@' && s[dot.value] == '.';
    }
    if ValidEmailShape(s) {
      var a, d :| 0 < a < d < |s| - 1 && s[a] == '@' && s[d] == '.'
        && '@' !in s[..a] && '.' !in s[d + 1..];
      assert at.Some? by { assert s[a] in s; }
      assert dot.Some? by { assert s[d] in s; }
      NoneBefore(s, '@', a);
      NoneBefore(s, '@', at.value);
      NoneAfter(s, '.', d);
      NoneAfter(s, '.', dot.value);
    }
  }

  /** `ch` not in the prefix of length `n`, position by position. */
  lemma NoneBefore(s: string, ch: char, n: nat)
    requires n <= |s| && ch !in s[..n]
    ensures forall k :: 0 <= k < n ==> s[k] != ch
  {
    forall k | 0 <= k < n ensures s[k] != ch {
      assert s[..n][k] == s[k];
    }
  }

  /** `ch` not after position `n`, position by position. */
  lemma NoneAfter(s: string, ch: char, n: nat)
    requires n < |s| && ch !in s[n + 1..]
    ensures forall k :: n < k < |s| ==> s[k] != ch
  {
    forall k | n < k < |s| ensures s[k] != ch {
      assert s[n + 1..][k - n - 1] == s[k];
    }
  }

  /** Examples of the e-mail rule on short addresses. */
  lemma EmailExamples()
    ensures IsValidEmail("a@b.c")
    ensures !IsValidEmail("@b.c")
    ensures !IsValidEmail("ab.c")
    ensures !IsValidEmail("a@b.")
    ensures !IsValidEmail("a.b@c")
    ensures IsValidEmail("a@b.c.d")
  {
  }

  /**
   * A record the input loops of the add and update commands can produce: each
   * field passes its validator and fits its `char` array with the terminator.
   */
  predicate ValidContact(c: Contact)
  {
    ValidName(c.name) && |c.name| < NAME_LENGTH
    && ValidPhone(c.phone) && |c.phone| < PHONE_LENGTH
    && IsValidEmail(c.email) && |c.email| < EMAIL_LENGTH
  }
}

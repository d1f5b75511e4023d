/**
 * The input validators of `backend/utils/validators.py`. Each returns
 * `Accepted` (Python `(True, None)`) or `Rejected(message)` (Python
 * `(False, message)`). `validate_email` delegates to the `email_validator`
 * package and is a parameter wherever it is used.
 */
module Validators {
  import opened Common

  datatype Verdict = Accepted | Rejected(message: string)

  // ---------------------------------------------------------------------------
  // validate_email
  // ---------------------------------------------------------------------------

  /**
   * `validate_email`: the `email_validator` package decides. `check` gives the
   * text of the `EmailNotValidError` it raises, or `None` when it accepts.
   */
  function ValidateEmail(email: string, check: string -> Option<string>): (v: Verdict)
    ensures v.Accepted? <==> check(email).None?
    ensures v.Rejected? ==> v.message == check(email).value
  {
    match check(email)
    case None => Accepted
    case Some(m) => Rejected(m)
  }

  // ---------------------------------------------------------------------------
  // validate_password
  // ---------------------------------------------------------------------------

  predicate HasUpper(s: string) {
    exists i :: 0 <= i < |s| && 'A' <= s[i] <= 'Z'
  }

  predicate HasLower(s: string) {
    exists i :: 0 <= i < |s| && 'a' <= s[i] <= 'z'
  }

  predicate HasDigit(s: string) {
    exists i :: 0 <= i < |s| && IsDigit(s[i])
  }

  const PasswordTooShort := "Password must be at least 8 characters long"
  const PasswordNoUpper := "Password must contain at least one uppercase letter"
  const PasswordNoLower := "Password must contain at least one lowercase letter"
  const PasswordNoDigit := "Password must contain at least one digit"

  /**
   * `validate_password`: accepted iff at least 8 characters with an
   * upper-case letter, a lower-case letter and a digit; otherwise the message
   * of the first rule that fails, in the order length, upper, lower, digit.
   */
  function ValidatePassword(pw: string): (v: Verdict)
    ensures v.Accepted? <==> |pw| >= 8 && HasUpper(pw) && HasLower(pw) && HasDigit(pw)
    ensures |pw| < 8 ==> v == Rejected(PasswordTooShort)
    ensures |pw| >= 8 && !HasUpper(pw) ==> v == Rejected(PasswordNoUpper)
    ensures |pw| >= 8 && HasUpper(pw) && !HasLower(pw) ==> v == Rejected(PasswordNoLower)
    ensures |pw| >= 8 && HasUpper(pw) && HasLower(pw) && !HasDigit(pw) ==> v == Rejected(PasswordNoDigit)
  {
    if |pw| < 8 then Rejected(PasswordTooShort)
    else if !HasUpper(pw) then Rejected(PasswordNoUpper)
    else if !HasLower(pw) then Rejected(PasswordNoLower)
    else if !HasDigit(pw) then Rejected(PasswordNoDigit)
    else Accepted
  }

  // ---------------------------------------------------------------------------
  // validate_isbn
  // ---------------------------------------------------------------------------

  predicate IsSeparator(c: char) {
    c == '-' || c == ' '
  }

  predicate KeepChar(c: char) {
    !IsSeparator(c)
  }

  /** `s.replace('-', '').replace(' ', '')`. */
  function RemoveSeparators(s: string): (r: string)
    ensures forall c :: c in r <==> c in s && !IsSeparator(c)
    ensures forall i :: 0 <= i < |r| ==> !IsSeparator(r[i])
    ensures (forall i :: 0 <= i < |s| ==> !IsSeparator(s[i])) ==> r == s
    ensures |r| <= |s|
  {
    FilterKeepsAll(s, KeepChar);
    Filter(s, KeepChar)
  }

  /** Removing separators piecewise is removing them from the whole. */
  lemma RemoveSeparatorsAppend(a: string, b: string)
    ensures RemoveSeparators(a + b) == RemoveSeparators(a) + RemoveSeparators(b)
  {
    FilterAppend(a, b, KeepChar);
  }

  /** Removing separators a second time changes nothing. */
  lemma RemoveSeparatorsIdempotent(s: string)
    ensures RemoveSeparators(RemoveSeparators(s)) == RemoveSeparators(s)
  {
  }

  /** Σ (i+1)·dᵢ over the first `n` characters, the weights of `_validate_isbn10`. */
  function AscendingSum(s: string, n: nat): int
    requires n <= |s| && AllDigits(s[..n])
  {
    if n == 0 then 0
    else
      assert s[..n - 1] == s[..n][..n - 1];
      AscendingSum(s, n - 1) + n * DigitValue(s[n - 1])
  }

  /** Σ (10-i)·dᵢ over the first `n` characters, the ISO 2108 weights of an ISBN-10. */
  function DescendingSum(s: string, n: nat): int
    requires n <= |s| && AllDigits(s[..n])
  {
    if n == 0 then 0
    else
      assert s[..n - 1] == s[..n][..n - 1];
      DescendingSum(s, n - 1) + (11 - n) * DigitValue(s[n - 1])
  }

  function DigitSum(s: string, n: nat): int
    requires n <= |s| && AllDigits(s[..n])
  {
    if n == 0 then 0
    else
      assert s[..n - 1] == s[..n][..n - 1];
      DigitSum(s, n - 1) + DigitValue(s[n - 1])
  }

  /** The check character `str(check)`, or `'X'` for 10. */
  function CheckChar(check: nat): char
    requires check <= 10
  {
    if check == 10 then 'X' else DigitChar(check)
  }

  /** The value of an ISBN-10 check character (`'X'` is 10). */
  function CheckValue(c: char): int {
    if c == 'X' then 10 else if IsDigit(c) then DigitValue(c) else -1
  }

  /**
   * `_validate_isbn10` on the ten separator-free characters: the first nine
   * must be digits and the last must be `(11 - Σ(i+1)·dᵢ mod 11) mod 11`,
   * written `X` (upper case only) for 10.
   */
  function ValidateIsbn10(s: string): (v: Verdict)
    requires |s| == 10
    ensures v.Accepted? <==> AllDigits(s[..9]) && s[9] == CheckChar((11 - AscendingSum(s, 9) % 11) % 11)
    ensures !AllDigits(s[..9]) ==> v == Rejected("Invalid ISBN-10 format")
    ensures AllDigits(s[..9]) && !v.Accepted? ==> v == Rejected("Invalid ISBN-10 checksum")
  {
    if !AllDigits(s[..9]) then Rejected("Invalid ISBN-10 format")
    else
      var check := (11 - AscendingSum(s, 9) % 11) % 11;
      if s[9] != CheckChar(check) then Rejected("Invalid ISBN-10 checksum") else Accepted
  }

  /** A well-formed ISBN-10 by ISO 2108: Σ (10-i)·dᵢ over all ten characters is 0 mod 11. */
  predicate IsoIsbn10(s: string) {
    && |s| == 10 && AllDigits(s[..9]) && (IsDigit(s[9]) || s[9] == 'X')
    && (DescendingSum(s, 9) + CheckValue(s[9])) % 11 == 0
  }

  lemma {:induction false} WeightsComplement(s: string, n: nat)
    requires n <= |s| && AllDigits(s[..n])
    ensures AscendingSum(s, n) + DescendingSum(s, n) == 11 * DigitSum(s, n)
  {
    if n > 0 {
      assert s[..n - 1] == s[..n][..n - 1];
      WeightsComplement(s, n - 1);
    }
  }

  /**
   * The two check-digit rules differ: on a well-formed ISO 2108 ISBN-10 the
   * code's formula holds exactly when the check digit is 0.
   */
  lemma Isbn10DivergesFromIso(s: string)
    requires IsoIsbn10(s)
    ensures ValidateIsbn10(s).Accepted? <==> s[9] == '0'
  {
    WeightsComplement(s, 9);
    var a, c := AscendingSum(s, 9), CheckValue(s[9]);
    assert 0 <= c <= 10;
    // ISO: (11·D - a + c) ≡ 0, so c ≡ a (mod 11); the code wants c ≡ -a (mod 11).
    assert (c - a) % 11 == 0;
    assert c == a % 11;
    var check := (11 - a % 11) % 11;
    assert CheckChar(check) == s[9] <==> check == c by {
      if s[9] == 'X' {
        assert c == 10;
      } else {
        assert DigitChar(c) == s[9];
      }
    }
  }

  /** ISBN 0-306-40615-2 is a valid ISO 2108 ISBN-10, and the code rejects it. */
  lemma Isbn10RejectsValidIsbn()
    ensures IsoIsbn10("0306406152")
    ensures ValidateIsbn10("0306406152").Rejected?
  {
    var s := "0306406152";
    assert AllDigits(s[..9]) && IsDigit(s[9]);
    assert DescendingSum(s, 9) == 130 by {
      assert DescendingSum(s, 0) == 0;
    }
    Isbn10DivergesFromIso(s);
  }

  /** The ISO 2108 ISBN-10 check: the last character is Σ(i+1)·dᵢ mod 11, `X` for 10. */
  function ValidateIsbn10Iso(s: string): (v: Verdict)
    requires |s| == 10
    ensures v.Accepted? <==> IsoIsbn10(s)
  {
    if !AllDigits(s[..9]) then Rejected("Invalid ISBN-10 format")
    else
      WeightsComplement(s, 9);
      var check := AscendingSum(s, 9) % 11;
      assert s[9] == CheckChar(check) <==> (IsDigit(s[9]) || s[9] == 'X') && CheckValue(s[9]) == check by {
        if IsDigit(s[9]) && CheckValue(s[9]) == check && check < 10 {
          assert DigitChar(check) == s[9];
        }
      }
      if s[9] != CheckChar(check) then Rejected("Invalid ISBN-10 checksum") else Accepted
  }

  /** Σ wᵢ·dᵢ over the first `n` characters, weights 1,3,1,3,… from index 0. */
  function Isbn13Sum(s: string, n: nat): int
    requires n <= |s| && AllDigits(s[..n])
  {
    if n == 0 then 0
    else
      assert s[..n - 1] == s[..n][..n - 1];
      Isbn13Sum(s, n - 1) + (if (n - 1) % 2 == 1 then 3 else 1) * DigitValue(s[n - 1])
  }

  /**
   * `_validate_isbn13`: all thirteen characters digits and the last equal to
   * `(10 - Σ wᵢ·dᵢ mod 10) mod 10`. This is the ISO 2108 ISBN-13 rule: the
   * weighted sum of all thirteen digits is a multiple of 10.
   */
  function ValidateIsbn13(s: string): (v: Verdict)
    requires |s| == 13
    ensures v.Accepted? <==> AllDigits(s) && DigitValue(s[12]) == (10 - Isbn13Sum(s, 12) % 10) % 10
    ensures v.Accepted? <==> AllDigits(s) && Isbn13Sum(s, 13) % 10 == 0
    ensures !AllDigits(s) ==> v == Rejected("Invalid ISBN-13 format")
    ensures AllDigits(s) && !v.Accepted? ==> v == Rejected("Invalid ISBN-13 checksum")
  {
    if !AllDigits(s) then Rejected("Invalid ISBN-13 format")
    else
      assert s[..13] == s;
      assert s[..12] == s[..13][..12];
      var check := (10 - Isbn13Sum(s, 12) % 10) % 10;
      if DigitValue(s[12]) != check then Rejected("Invalid ISBN-13 checksum") else Accepted
  }

  /** `validate_isbn`: separators dropped, then the 10- or 13-character rule. */
  function ValidateIsbn(isbn: string): (v: Verdict)
    ensures var s := RemoveSeparators(isbn);
      && (|s| != 10 && |s| != 13 ==> v == Rejected("ISBN must be 10 or 13 digits"))
      && (|s| == 10 ==> v == ValidateIsbn10(s))
      && (|s| == 13 ==> v == ValidateIsbn13(s))
  {
    var s := RemoveSeparators(isbn);
    if |s| == 10 then ValidateIsbn10(s)
    else if |s| == 13 then ValidateIsbn13(s)
    else Rejected("ISBN must be 10 or 13 digits")
  }

  /** Where the hyphens and spaces go does not matter: only the remaining characters are checked. */
  lemma SeparatorsIgnored(a: string, sep: char, b: string)
    requires IsSeparator(sep)
    ensures RemoveSeparators(a + [sep] + b) == RemoveSeparators(a + b)
    ensures ValidateIsbn(a + [sep] + b) == ValidateIsbn(a + b)
  {
    var x := a + [sep];
    assert Filter([sep], KeepChar) == [] by {
      assert [sep][1..] == [];
    }
    FilterAppend(a, [sep], KeepChar);
    assert Filter(x, KeepChar) == Filter(a, KeepChar);
    FilterAppend(x, b, KeepChar);
    FilterAppend(a, b, KeepChar);
  }

  /** The ISBN-13 of ISO 2108's worked example is accepted. */
  lemma Isbn13Example()
    ensures ValidateIsbn13("9780306406157").Accepted?
  {
    var s := "9780306406157";
    assert AllDigits(s);
    assert Isbn13Sum(s, 4) == 38;
    assert Isbn13Sum(s, 8) == 59;
    assert Isbn13Sum(s, 13) == 100;
  }

  // ---------------------------------------------------------------------------
  // validate_phone
  // ---------------------------------------------------------------------------

  predicate DigitRun(t: string) {
    9 <= |t| <= 15 && AllDigits(t)
  }

  /** `1?\d{9,15}` */
  predicate PhoneBody(t: string) {
    DigitRun(t) || (|t| >= 1 && t[0] == '1' && DigitRun(t[1..]))
  }

  /** `\+?1?\d{9,15}` */
  predicate PhoneCore(t: string) {
    PhoneBody(t) || (|t| >= 1 && t[0] == '+' && PhoneBody(t[1..]))
  }

  /** `re.match(r'^\+?1?\d{9,15}$', t)`: Python's `$` also matches before one final newline. */
  predicate PhonePattern(t: string) {
    PhoneCore(t) || (|t| >= 1 && t[|t| - 1] == '\n' && PhoneCore(t[..|t| - 1]))
  }

  /** `validate_phone`: separators dropped, then the pattern. */
  function ValidatePhone(phone: string): (v: Verdict)
    ensures v.Accepted? <==> PhonePattern(RemoveSeparators(phone))
    ensures v.Rejected? ==> v.message == "Invalid phone number format"
  {
    if PhonePattern(RemoveSeparators(phone)) then Accepted else Rejected("Invalid phone number format")
  }

  /**
   * Without `+` or a trailing newline, a phone number is accepted iff it is
   * 9 to 15 digits, or a `1` followed by 15 digits.
   */
  lemma PhoneDigitCount(t: string)
    requires |t| >= 1 && t[0] != '+' && t[|t| - 1] != '\n'
    ensures PhonePattern(t) <==> AllDigits(t) && (9 <= |t| <= 15 || (|t| == 16 && t[0] == '1'))
  {
    if AllDigits(t) && |t| == 16 && t[0] == '1' {
      assert AllDigits(t[1..]) by {
        forall i | 0 <= i < |t[1..]| ensures IsDigit(t[1..][i]) {
          assert t[1..][i] == t[i + 1];
        }
      }
    }
    if |t| >= 1 && t[0] == '1' && DigitRun(t[1..]) {
      assert AllDigits(t) by {
        forall i | 0 <= i < |t| ensures IsDigit(t[i]) {
          if i > 0 {
            assert t[i] == t[1..][i - 1];
          }
        }
      }
    }
  }

  // ---------------------------------------------------------------------------
  // validate_role
  // ---------------------------------------------------------------------------

  const ValidRoles := ["admin", "librarian", "student"]

  /** `validate_role`: accepted iff exactly one of the three role names. */
  function ValidateRole(role: string): (v: Verdict)
    ensures v.Accepted? <==> role == "admin" || role == "librarian" || role == "student"
    ensures v.Rejected? ==> v.message == "Role must be one of: admin, librarian, student"
  {
    if role !in ValidRoles then Rejected("Role must be one of: admin, librarian, student") else Accepted
  }
}

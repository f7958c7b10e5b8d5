/** `LoginRegisterForm`: the mock account checks of `handleSubmit`, made in a
    fixed order and ending at the first that fails, and the key file text a
    registration generates. The stored account is the form's own record
    shape, keyed by `email`. */
module LoginRegisterForm {
  import opened Wrappers
  import opened JsString

  datatype FormMode = Login | Register

  /** The account `getMockUser` hands the form. */
  datatype StoredUser = StoredUser(email: string, passwordHash: string, keyFileData: string)

  /** The chosen key file, as its `FileReader` ends: with the text, or with
      `onerror`. */
  datatype KeyFile = Readable(text: string) | Unreadable

  /** How a submission ends: an error shown in the form, `onLoginSuccess`
      called with the entered email, or `onRegisterSuccess` called with the
      email and the text of the generated key `Blob`. */
  datatype SubmitOutcome =
    | Rejected(message: string)
    | LoggedIn(email: string)
    | Registered(email: string, keyText: string)

  const FieldsRequired: string := "Email and password are required."
  const KeyFileRequired: string := "Key file is required for login."
  const NoRegisteredUser: string := "No registered user found. Please register first."
  const InvalidEmail: string := "Invalid email."
  const InvalidPassword: string := "Invalid password."
  const KeyReadFailed: string := "Failed to read key file."
  const InvalidKeyContent: string := "Invalid key file content."
  const EmailExists: string := "Email already exists. Please choose another or log in."
  const InvalidEmailFormat: string := "Please enter a valid email address."
  const KeyPrefix: string := "USER_KEY_FOR_"

  predicate NoWhitespace(t: string) {
    forall i :: 0 <= i < |t| ==> !IsWhitespace(t[i])
  }

  /** `\S+@\S+\.\S+` matches `s[a..d]`, with the `@` at `b` and the `.` at `c`. */
  predicate PatternAt(s: string, a: int, b: int, c: int, d: int) {
    && 0 <= a < b && b + 1 < c && c + 1 < d <= |s|
    && s[b] == '@' && s[c] == '.'
    && NoWhitespace(s[a..b]) && NoWhitespace(s[b + 1..c]) && NoWhitespace(s[c + 1..d])
  }

  /** `/\S+@\S+\.\S+/.test(s)`: the pattern is not anchored, so a match
      anywhere in `s` is enough. */
  predicate MatchesEmailPattern(s: string) {
    exists a, b, c, d | 0 <= a < |s| && 0 <= b < |s| && 0 <= c < |s| && 0 <= d <= |s| :: PatternAt(s, a, b, c, d)
  }

  /** The same test by its shortest matches: an `@` with a non-blank
      character before it, then a `.` with no blank between the two and a
      non-blank character after it. */
  predicate HasEmailShape(s: string) {
    exists p, q | 0 <= p < |s| && 0 <= q < |s| :: ShapeAt(s, p, q)
  }

  predicate ShapeAt(s: string, p: int, q: int) {
    && 1 <= p && p + 1 < q && q + 1 < |s|
    && s[p] == '@' && s[q] == '.'
    && !IsWhitespace(s[p - 1]) && NoWhitespace(s[p + 1..q]) && !IsWhitespace(s[q + 1])
  }

  lemma EmailPatternIff(s: string)
    ensures MatchesEmailPattern(s) <==> HasEmailShape(s)
  {
    if MatchesEmailPattern(s) {
      var a, b, c, d :| 0 <= a < |s| && 0 <= b < |s| && 0 <= c < |s| && 0 <= d <= |s| && PatternAt(s, a, b, c, d);
      assert s[b - 1] == s[a..b][b - 1 - a];
      assert s[c + 1] == s[c + 1..d][0];
      assert ShapeAt(s, b, c);
    }
    if HasEmailShape(s) {
      var p, q :| 0 <= p < |s| && 0 <= q < |s| && ShapeAt(s, p, q);
      assert s[p - 1..p] == [s[p - 1]];
      assert s[q + 1..q + 2] == [s[q + 1]];
      assert PatternAt(s, p - 1, p, q, q + 2);
    }
  }

  /** A string holding a match anywhere matches: the test does not check
      that the whole string is an address. */
  lemma PatternUnanchored(s: string, before: string, after: string)
    requires MatchesEmailPattern(s)
    ensures MatchesEmailPattern(before + s + after)
  {
    var a, b, c, d :| 0 <= a < |s| && 0 <= b < |s| && 0 <= c < |s| && 0 <= d <= |s| && PatternAt(s, a, b, c, d);
    var t := before + s + after;
    var k := |before|;
    assert t[k..k + |s|] == s;
    PatternShifts(s, t, k, a, b, c, d);
  }

  /** A match inside a copy of `s` at offset `k`. */
  lemma PatternShifts(s: string, t: string, k: nat, a: int, b: int, c: int, d: int)
    requires k + |s| <= |t| && t[k..k + |s|] == s
    requires PatternAt(s, a, b, c, d)
    ensures PatternAt(t, k + a, k + b, k + c, k + d)
  {
    SliceOfCopy(s, t, k, a, b);
    SliceOfCopy(s, t, k, b + 1, c);
    SliceOfCopy(s, t, k, c + 1, d);
    assert t[k + b] == s[b] && t[k + c] == s[c];
  }

  lemma SliceOfCopy(s: string, t: string, k: nat, i: int, j: int)
    requires k + |s| <= |t| && t[k..k + |s|] == s && 0 <= i <= j <= |s|
    ensures t[k + i..k + j] == s[i..j]
  {
    forall m | 0 <= m < j - i ensures t[k + i..k + j][m] == s[i..j][m] {
      assert t[k + i + m] == t[k..k + |s|][i + m];
    }
  }

  /** `hashed_${email}_password`. */
  function SimulatedHash(email: string): (h: string)
    ensures |h| == |email| + 16 && h[7..7 + |email|] == email
  {
    "hashed_" + email + "_password"
  }

  /** The simulated password check compares the two emails exactly. */
  lemma SimulatedHashInjective(e1: string, e2: string)
    ensures SimulatedHash(e1) == SimulatedHash(e2) <==> e1 == e2
  {
    if SimulatedHash(e1) == SimulatedHash(e2) {
      assert |e1| == |e2|;
      assert e1 == SimulatedHash(e1)[7..7 + |e1|];
      assert e2 == SimulatedHash(e2)[7..7 + |e2|];
    }
  }

  /** `email.toLowerCase() === other.toLowerCase()`. */
  predicate SameEmailIgnoringCase(e1: string, e2: string) {
    ToLower(e1) == ToLower(e2)
  }

  /** The generated key text: `USER_KEY_FOR_<EMAIL>_<stamp>`, where `stamp`
      stands for `${Date.now()}_${random}`. */
  function KeyFileContent(email: string, stamp: string): (keyText: string)
    ensures StartsWith(keyText, KeyPrefix + ToUpper(email) + "_")
    ensures |keyText| == |KeyPrefix| + |email| + 1 + |stamp|
  {
    var keyText := KeyPrefix + ToUpper(email) + "_" + stamp;
    assert keyText[..|KeyPrefix + ToUpper(email) + "_"|] == KeyPrefix + ToUpper(email) + "_";
    keyText
  }

  /** Emails that differ only in case get the same key prefix. */
  lemma KeyPrefixIgnoresCase(e1: string, e2: string, stamp: string)
    requires SameEmailIgnoringCase(e1, e2)
    ensures KeyFileContent(e1, stamp) == KeyFileContent(e2, stamp)
  {
    forall i | 0 <= i < |e1| ensures UpperChar(e1[i]) == UpperChar(e2[i]) {
      assert LowerChar(e1[i]) == ToLower(e1)[i] == ToLower(e2)[i] == LowerChar(e2[i]);
    }
    assert ToUpper(e1) == ToUpper(e2);
  }

  /** The login branch after the shared checks. */
  function LoginChecks(email: string, keyFile: KeyFile, stored: Option<StoredUser>): (o: SubmitOutcome)
    ensures o.LoggedIn? <==>
      stored.Some? && email == stored.value.email && keyFile.Readable?
      && Trim(keyFile.text) == Trim(stored.value.keyFileData)
    ensures o.LoggedIn? ==> o.email == email
    ensures !o.Registered?
    ensures stored.None? ==> o == Rejected(NoRegisteredUser)
    ensures stored.Some? && !SameEmailIgnoringCase(email, stored.value.email) ==> o == Rejected(InvalidEmail)
    ensures stored.Some? && SameEmailIgnoringCase(email, stored.value.email) && email != stored.value.email
            ==> o == Rejected(InvalidPassword)
    ensures stored.Some? && email == stored.value.email && keyFile.Unreadable? ==> o == Rejected(KeyReadFailed)
    ensures (stored.Some? && email == stored.value.email && keyFile.Readable?
             && Trim(keyFile.text) != Trim(stored.value.keyFileData)) ==> o == Rejected(InvalidKeyContent)
  {
    if stored.None? then Rejected(NoRegisteredUser)
    else if ToLower(email) != ToLower(stored.value.email) then Rejected(InvalidEmail)
    else if SimulatedHash(email) != SimulatedHash(stored.value.email) then
      SimulatedHashInjective(email, stored.value.email);
      Rejected(InvalidPassword)
    else
      SimulatedHashInjective(email, stored.value.email);
      match keyFile
      case Unreadable => Rejected(KeyReadFailed)
      case Readable(text) =>
        if Trim(text) == Trim(stored.value.keyFileData) then LoggedIn(email)
        else Rejected(InvalidKeyContent)
  }

  /** The register branch after the shared checks. */
  function RegisterChecks(email: string, stored: Option<StoredUser>, stamp: string): (o: SubmitOutcome)
    ensures o.Registered? <==>
      !(stored.Some? && stored.value.email != "" && SameEmailIgnoringCase(stored.value.email, email))
      && HasEmailShape(email)
    ensures o.Registered? ==> o.email == email && o.keyText == KeyFileContent(email, stamp)
    ensures !o.LoggedIn?
    ensures stored.Some? && stored.value.email != "" && SameEmailIgnoringCase(stored.value.email, email)
            ==> o == Rejected(EmailExists)
    ensures (!(stored.Some? && stored.value.email != "" && SameEmailIgnoringCase(stored.value.email, email))
             && !HasEmailShape(email)) ==> o == Rejected(InvalidEmailFormat)
  {
    EmailPatternIff(email);
    if stored.Some? && stored.value.email != "" && ToLower(stored.value.email) == ToLower(email) then
      Rejected(EmailExists)
    else if !MatchesEmailPattern(email) then Rejected(InvalidEmailFormat)
    else Registered(email, KeyFileContent(email, stamp))
  }

  /** Where `handleSubmit` ends for the form's state and the stored account. */
  function Submit(mode: FormMode, email: string, password: string, keyFile: Option<KeyFile>,
                  stored: Option<StoredUser>, stamp: string): (o: SubmitOutcome)
    ensures email == "" || password == "" ==> o == Rejected(FieldsRequired)
    ensures email != "" && password != "" && mode == Login && keyFile.None? ==> o == Rejected(KeyFileRequired)
    ensures o.LoggedIn? <==>
      mode == Login && email != "" && password != ""
      && stored.Some? && email == stored.value.email
      && keyFile.Some? && keyFile.value.Readable?
      && Trim(keyFile.value.text) == Trim(stored.value.keyFileData)
    ensures o.Registered? <==>
      mode == Register && email != "" && password != ""
      && !(stored.Some? && stored.value.email != "" && SameEmailIgnoringCase(stored.value.email, email))
      && HasEmailShape(email)
    ensures o.LoggedIn? ==> o.email == email
    ensures o.Registered? ==> o.email == email && o.keyText == KeyFileContent(email, stamp)
    ensures email != "" && password != "" && mode == Login && keyFile.Some? ==> o == LoginChecks(email, keyFile.value, stored)
    ensures email != "" && password != "" && mode == Register ==> o == RegisterChecks(email, stored, stamp)
  {
    if email == "" || password == "" then Rejected(FieldsRequired)
    else if mode == Login && keyFile.None? then Rejected(KeyFileRequired)
    else if mode == Login then LoginChecks(email, keyFile.value, stored)
    else
      var o := RegisterChecks(email, stored, stamp);
      assert mode == Register;
      o
  }

  /** An email that matches the stored one only up to case passes the email
      check and then fails the simulated password check. */
  lemma CaseOnlyDifferenceFailsPassword(email: string, password: string, keyFile: KeyFile,
                                        stored: StoredUser, stamp: string)
    requires email != "" && password != ""
    requires SameEmailIgnoringCase(email, stored.email) && email != stored.email
    ensures Submit(Login, email, password, Some(keyFile), Some(stored), stamp) == Rejected(InvalidPassword)
  {
    SimulatedHashInjective(email, stored.email);
  }

  /** Without a stored account every login with both fields and a key file
      fails with `No registered user found`. */
  lemma NoStoredUserRejected(email: string, password: string, keyFile: KeyFile, stamp: string)
    requires email != "" && password != ""
    ensures Submit(Login, email, password, Some(keyFile), None, stamp) == Rejected(NoRegisteredUser)
  {
  }

  /** An email that differs from the stored one beyond case fails with
      `Invalid email.`, whatever the password and key file. */
  lemma OtherEmailRejected(email: string, password: string, keyFile: KeyFile, stored: StoredUser, stamp: string)
    requires email != "" && password != ""
    requires !SameEmailIgnoringCase(email, stored.email)
    ensures Submit(Login, email, password, Some(keyFile), Some(stored), stamp) == Rejected(InvalidEmail)
  {
  }

  /** A registration is refused for a taken email before the format is
      looked at, so a malformed email that is taken reports `Email already
      exists`. */
  lemma DuplicateCheckedFirst(email: string, password: string, keyFile: Option<KeyFile>,
                              stored: StoredUser, stamp: string)
    requires email != "" && password != "" && stored.email != ""
    requires SameEmailIgnoringCase(stored.email, email)
    ensures Submit(Register, email, password, keyFile, Some(stored), stamp) == Rejected(EmailExists)
  {
  }

  /** The password plays no part beyond being non-empty. */
  lemma PasswordIgnored(mode: FormMode, email: string, p1: string, p2: string, keyFile: Option<KeyFile>,
                        stored: Option<StoredUser>, stamp: string)
    requires p1 != "" && p2 != ""
    ensures Submit(mode, email, p1, keyFile, stored, stamp) == Submit(mode, email, p2, keyFile, stored, stamp)
  {
  }

  /** The key text a registration generates logs the same email in again,
      also when the file read back carries whitespace around it. */
  lemma RegisterThenLogin(email: string, password: string, stored: Option<StoredUser>, stamp: string,
                          passwordHash: string, left: string, right: string)
    requires Submit(Register, email, password, None, stored, stamp).Registered?
    requires AllWhitespace(left) && AllWhitespace(right)
    ensures var keyText := Submit(Register, email, password, None, stored, stamp).keyText;
            Submit(Login, email, password, Some(Readable(left + keyText + right)),
                   Some(StoredUser(email, passwordHash, keyText)), stamp) == LoggedIn(email)
  {
    var keyText := Submit(Register, email, password, None, stored, stamp).keyText;
    TrimPadded(left, keyText, right);
  }

  /** The form's state. */
  class Form {
    var mode: FormMode
    var email: string
    var password: string
    var keyFile: Option<KeyFile>
    var isLoading: bool
    var error: Option<string>

    constructor ()
      ensures mode == Login && email == "" && password == "" && keyFile.None?
      ensures !isLoading && error.None?
    {
      mode := Login;
      email := "";
      password := "";
      keyFile := None;
      isLoading := false;
      error := None;
    }

    predicate IsReset()
      reads this
    {
      email == "" && password == "" && keyFile.None? && !isLoading && error.None?
    }

    /** `handleFileChange`: the first chosen file, and the error cleared. */
    method HandleFileChange(files: seq<KeyFile>)
      modifies this
      ensures keyFile == (if |files| > 0 then Some(files[0]) else None)
      ensures error.None?
      ensures mode == old(mode) && email == old(email) && password == old(password)
      ensures isLoading == old(isLoading)
    {
      keyFile := if |files| > 0 then Some(files[0]) else None;
      error := None;
    }

    /** `resetForm`. */
    method ResetForm()
      modifies this
      ensures IsReset() && mode == old(mode)
    {
      email := "";
      password := "";
      keyFile := None;
      isLoading := false;
      error := None;
    }

    /** `handleTabChange`: the new tab, with an empty form. */
    method HandleTabChange(value: FormMode)
      modifies this
      ensures mode == value && IsReset()
    {
      mode := value;
      ResetForm();
    }

    /** `handleSubmit`, run to its end (including the `FileReader`
        callback): the callback it makes, if any, and the form's state. A
        failed check leaves its message and the fields as entered; a
        success resets the form. */
    method HandleSubmit(stored: Option<StoredUser>, stamp: string) returns (outcome: SubmitOutcome)
      modifies this
      ensures outcome == Submit(old(mode), old(email), old(password), old(keyFile), stored, stamp)
      ensures mode == old(mode) && !isLoading
      ensures outcome.Rejected? ==>
        error == Some(outcome.message)
        && email == old(email) && password == old(password) && keyFile == old(keyFile)
      ensures !outcome.Rejected? ==> IsReset()
    {
      isLoading := true;
      error := None;
      if email == "" || password == "" {
        error := Some(FieldsRequired);
        isLoading := false;
        return Rejected(FieldsRequired);
      }
      if mode == Login && keyFile.None? {
        error := Some(KeyFileRequired);
        isLoading := false;
        return Rejected(KeyFileRequired);
      }
      if mode == Login {
        outcome := LoginChecks(email, keyFile.value, stored);
      } else {
        outcome := RegisterChecks(email, stored, stamp);
      }
      if outcome.Rejected? {
        error := Some(outcome.message);
        isLoading := false;
      } else {
        ResetForm();
      }
    }
  }
}

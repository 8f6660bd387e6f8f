/**
 * The validator lists of social_insecurity/forms.py, written as predicates
 * over the raw request fields. A field is `None` when the request does not
 * carry it. Validators of one field all run in order and collect their
 * messages, except that a failing "required" validator stops the chain.
 */
module Forms {
  import opened Wrappers
  import opened Text

  /** What the request carries for one field. */
  type RawField = Option<string>

  const RequiredMessage := "This field is required."
  const LengthMessage := "Password must be at least 8 characters"
  const UpperMessage := "Password must contain at least one uppercase letter"
  const DigitMessage := "Password must contain at least one number"
  const SpecialMessage :=
    "Password must contain at least one special character (e.g., ! @ # $ % ^ & * ( ) - _ = + \\ | [ ] { } ; : / ? . < >)."

  /** The minimum password length of the registration form. */
  const MinPasswordLength: nat := 8

  /** The special characters the registration form's last pattern lists. */
  const SpecialChars := "!@#$%^&*()-_=+\\|[]{};:/?.><"

  predicate IsUpperAscii(c: char) { 'A' <= c <= 'Z' }
  predicate IsDigit(c: char) { '0' <= c <= '9' }
  predicate IsSpecial(c: char) { c in SpecialChars }

  /*
   * The three patterns have the shape `.*[X].*` and are applied with a match
   * anchored at the start; since `.` does not match a line feed, the wanted
   * character has to occur before the first line feed.
   */
  predicate HasUpper(s: string) { exists c :: c in FirstLine(s) && IsUpperAscii(c) }
  predicate HasDigit(s: string) { exists c :: c in FirstLine(s) && IsDigit(c) }
  predicate HasSpecial(s: string) { exists c :: c in FirstLine(s) && IsSpecial(c) }

  /** `InputRequired`: the field was sent and its raw text is not empty. */
  predicate InputGiven(raw: RawField)
  {
    raw.Some? && raw.value != ""
  }

  /** `DataRequired`: the field was sent and holds something besides whitespace. */
  predicate DataGiven(raw: RawField)
  {
    raw.Some? && exists c :: c in raw.value && !IsSpace(c)
  }

  /** The messages the registration form's password validators produce, in order. */
  function PasswordErrors(raw: RawField): (errs: seq<string>)
    ensures errs == [] <==>
      raw.Some? && |raw.value| >= MinPasswordLength
      && HasUpper(raw.value) && HasDigit(raw.value) && HasSpecial(raw.value)
    ensures !InputGiven(raw) ==> errs == [RequiredMessage]
    ensures InputGiven(raw) ==>
      (LengthMessage in errs <==> |raw.value| < MinPasswordLength)
      && (UpperMessage in errs <==> !HasUpper(raw.value))
      && (DigitMessage in errs <==> !HasDigit(raw.value))
      && (SpecialMessage in errs <==> !HasSpecial(raw.value))
    ensures |errs| <= 4
  {
    if !InputGiven(raw) then [RequiredMessage]
    else
      var p := raw.value;
      (if |p| < MinPasswordLength then [LengthMessage] else [])
      + (if HasUpper(p) then [] else [UpperMessage])
      + (if HasDigit(p) then [] else [DigitMessage])
      + (if HasSpecial(p) then [] else [SpecialMessage])
  }

  /** The registration form's fields. */
  datatype RegisterForm = RegisterForm(
    firstName: RawField,
    lastName: RawField,
    username: RawField,
    password: RawField,
    confirmPassword: RawField)

  /** Whether `RegisterForm` validates: every field given, the password passing all its rules. */
  predicate RegisterFormValid(form: RegisterForm)
  {
    InputGiven(form.firstName) && InputGiven(form.lastName) && InputGiven(form.username)
    && PasswordErrors(form.password) == [] && InputGiven(form.confirmPassword)
  }

  /** The login form's fields. */
  datatype LoginForm = LoginForm(username: RawField, password: RawField, rememberMe: bool)

  /** Whether `LoginForm` validates: username and password hold more than whitespace. */
  predicate LoginFormValid(form: LoginForm)
  {
    DataGiven(form.username) && DataGiven(form.password)
  }

  /** Each field of the registration form is required. */
  lemma RegisterFieldsRequired(form: RegisterForm)
    requires RegisterFormValid(form)
    ensures form.firstName.Some? && form.lastName.Some? && form.username.Some?
    ensures form.password.Some? && form.confirmPassword.Some?
    ensures form.firstName.value != "" && form.lastName.value != "" && form.username.value != ""
    ensures form.confirmPassword.value != "" && |form.password.value| >= MinPasswordLength
  {
  }

  /** A password meeting all four rules. */
  lemma StrongPasswordAccepted()
    ensures PasswordErrors(Some("Passw0rd!")) == []
  {
    var line := "Passw0rd!";
    assert '\n' !in line;
    FirstLineWithoutBreak(line);
    assert IsUpperAscii(line[0]) && IsDigit(line[5]) && IsSpecial(line[8]);
    assert HasUpper(line) && HasDigit(line) && HasSpecial(line);
  }

  /** A string without a line feed is its own first line. */
  lemma {:induction false} FirstLineWithoutBreak(s: string)
    requires '\n' !in s
    ensures FirstLine(s) == s
  {
    if s != [] {
      assert '\n' !in s[1..] by {
        forall k | 0 <= k < |s| - 1 ensures s[1..][k] != '\n' {
          assert s[1..][k] == s[k + 1];
        }
      }
      FirstLineWithoutBreak(s[1..]);
    }
  }

  /**
   * An upper-case letter, a digit and a special character after a line feed
   * do not count: this eleven-character password is rejected.
   */
  lemma RulesStopAtLineFeed()
    ensures PasswordErrors(Some("abcdefg\nA1!")) != []
  {
    var p := "abcdefg\nA1!";
    var line := p[..7];
    assert forall k :: 0 <= k < |line| ==> 'a' <= line[k] <= 'g';
    FirstLineEndsAt(p, 7);
    assert !HasUpper(p);
  }

  /** A valid login has a username and a password, each holding a non-whitespace character. */
  lemma LoginFieldsRequired(form: LoginForm)
    requires LoginFormValid(form)
    ensures form.username.Some? && form.password.Some?
    ensures exists i :: 0 <= i < |form.username.value| && !IsSpace(form.username.value[i])
    ensures exists i :: 0 <= i < |form.password.value| && !IsSpace(form.password.value[i])
  {
    var u :| u in form.username.value && !IsSpace(u);
    var p :| p in form.password.value && !IsSpace(p);
    var i :| 0 <= i < |form.username.value| && form.username.value[i] == u;
    var j :| 0 <= j < |form.password.value| && form.password.value[j] == p;
  }

  /**
   * No rule compares the confirmation with the password: any non-empty
   * confirmation validates exactly when repeating the password would.
   */
  lemma ConfirmationNotCompared(form: RegisterForm, confirm: string)
    requires confirm != ""
    ensures RegisterFormValid(form.(confirmPassword := Some(confirm)))
        == RegisterFormValid(form.(confirmPassword := form.password))
  {
  }

  /** A registration whose confirmation differs from its password validates. */
  lemma MismatchedConfirmationValidates()
    ensures var form := RegisterForm(Some("Ada"), Some("Lovelace"), Some("ada"), Some("Passw0rd!"), Some("other"));
      RegisterFormValid(form) && form.password != form.confirmPassword
  {
    StrongPasswordAccepted();
    assert "Passw0rd!" != "other" by { assert |"Passw0rd!"| == 9; }
  }

  /** A whitespace-only username is "given" for registration but not for login. */
  lemma BlankUsernameDiffersBetweenForms()
    ensures InputGiven(Some(" "))
    ensures !LoginFormValid(LoginForm(Some(" "), Some("secret"), false))
  {
    assert forall c :: c in " " ==> IsSpace(c);
  }
}

/** The password-strength rule of the registration form and the guard that enforces it before the
    form calls `register`. */
module Auth {
  import opened Wrappers
  import JsString
  import SessionService
  import MockApi

  const WeakPasswordMessage: string := "Please fulfill all password requirements."
  const RegistrationFailedMessage: string := "Registration failed."

  /** The characters of the class `[!@#$%^&*(),.?":{}|<>]`, wider than the label's `!@#$%^&*`. */
  const SpecialCharacters: string := "!@#$%^&*(),.?\":{}|<>"

  /** `pass.length >= 8`, counted in UTF-16 code units. */
  predicate HasMinLength(pass: string) {
    JsString.Utf16Length(pass) >= 8
  }

  /** `/[0-9]/.test(pass)` */
  predicate HasDigit(pass: string) {
    exists i :: 0 <= i < |pass| && '0' <= pass[i] <= '9'
  }

  /** `/[A-Z]/.test(pass)`: ASCII upper case only; nothing asks for a lower-case letter. */
  predicate HasUppercase(pass: string) {
    exists i :: 0 <= i < |pass| && 'A' <= pass[i] <= 'Z'
  }

  /** `/[!@#$%^&*(),.?":{}|<>]/.test(pass)` */
  predicate HasSpecial(pass: string) {
    exists i :: 0 <= i < |pass| && pass[i] in SpecialCharacters
  }

  /** One line of the checklist shown under the password field. */
  datatype Requirement = Requirement(text: string, met: bool)

  /** `passwordRequirements`, in the order the form lists them. */
  function PasswordRequirements(pass: string): seq<Requirement> {
    [ Requirement("At least 8 characters", HasMinLength(pass)),
      Requirement("Contains a number", HasDigit(pass)),
      Requirement("Contains uppercase letter", HasUppercase(pass)),
      Requirement("Contains special character (!@#$%^&*)", HasSpecial(pass)) ]
  }

  /** `Array.prototype.every` over the `met` flags. */
  function AllMet(reqs: seq<Requirement>): (all: bool)
    ensures all <==> forall i :: 0 <= i < |reqs| ==> reqs[i].met
  {
    reqs == [] || (reqs[0].met && AllMet(reqs[1..]))
  }

  /** `isPasswordStrong`: every requirement of the checklist is met. */
  function IsPasswordStrong(pass: string): (strong: bool)
    ensures strong <==> HasMinLength(pass) && HasDigit(pass) && HasUppercase(pass) && HasSpecial(pass)
  {
    var reqs := PasswordRequirements(pass);
    assert reqs[0].met == HasMinLength(pass) && reqs[1].met == HasDigit(pass);
    assert reqs[2].met == HasUppercase(pass) && reqs[3].met == HasSpecial(pass);
    AllMet(reqs)
  }

  /** Adding characters to a password never takes a requirement back. */
  lemma RequirementsMonotone(pass: string, more: string)
    ensures HasMinLength(pass) ==> HasMinLength(pass + more)
    ensures HasDigit(pass) ==> HasDigit(pass + more)
    ensures HasUppercase(pass) ==> HasUppercase(pass + more)
    ensures HasSpecial(pass) ==> HasSpecial(pass + more)
  {
    JsString.Utf16LengthAppend(pass, more);
    assert forall i :: 0 <= i < |pass| ==> (pass + more)[i] == pass[i];
  }

  lemma StrengthMonotone(pass: string, more: string)
    ensures IsPasswordStrong(pass) ==> IsPasswordStrong(pass + more)
  {
    RequirementsMonotone(pass, more);
  }

  /** An example: `ABCDEFG1(` (seven upper-case letters, a digit and an opening parenthesis) is
      strong, although it has no lower-case letter and its special character is not one the
      checklist label lists. */
  lemma NoLowercaseNeeded(pass: string)
    requires pass == "ABCDEFG1("
    ensures IsPasswordStrong(pass)
  {
    assert '0' <= pass[7] <= '9';
    assert 'A' <= pass[0] <= 'Z';
    assert pass[8] == SpecialCharacters[8];
    assert JsString.Utf16Length(pass) >= |pass|;
  }

  /** The fields of the registration form. */
  datatype RegisterForm = RegisterForm(name: string, email: string, password: string, governmentId: string)

  /** The submit button is disabled while a request is pending and whenever the password is not
      strong. */
  function SubmitDisabled(loading: bool, pass: string): (disabled: bool)
    ensures !disabled <==>
      !loading && HasMinLength(pass) && HasDigit(pass) && HasUppercase(pass) && HasSpecial(pass)
  {
    loading || !IsPasswordStrong(pass)
  }

  /** `handleSubmit` of the registration form: a weak password sets the error and returns before
      `register` is called, so the table is untouched; otherwise `register` runs and its error
      message, if any, becomes the form's error. */
  method HandleSubmit(store: MockApi.UserStore, form: RegisterForm, createdAt: string)
    returns (error: Option<string>)
    requires store.Valid()
    modifies store
    ensures store.Valid()
    ensures !IsPasswordStrong(form.password) ==>
      error == Some(WeakPasswordMessage) && store.users == old(store.users)
    ensures IsPasswordStrong(form.password) ==>
      match SessionService.Register(old(store.users), form.name, form.email, form.password, form.governmentId, createdAt)
      case Ok(db) => error == None && store.users == db
      case Err(m) => error == Some(m) && store.users == old(store.users)
  {
    if !IsPasswordStrong(form.password) {
      return Some(WeakPasswordMessage);
    }
    error := None;
    var r := store.Register(form.name, form.email, form.password, form.governmentId, createdAt);
    if r.Err? {
      error := Some(if r.message != "" then r.message else RegistrationFailedMessage);
    }
  }
}

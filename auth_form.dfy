/**
 * The sign-in and registration form: the password strength hint, the field
 * checks run before submitting, and the form's state as typing and submitting
 * change it.
 */
module AuthForm {

  import opened Wrappers
  import opened Strings

  // ---------------------------------------------------------------------------
  // getPasswordStrength

  datatype Strength = Weak | Medium | Strong

  /** The order of the hint: Weak below Medium below Strong. */
  function Level(s: Strength): nat {
    match s
    case Weak => 0
    case Medium => 1
    case Strong => 2
  }

  /** `/[A-Z]/.test(p)`. */
  predicate HasUpper(p: string) {
    exists i :: 0 <= i < |p| && IsAsciiUpper(p[i])
  }

  /** `/\d/.test(p)`. */
  predicate HasDigit(p: string) {
    exists i :: 0 <= i < |p| && IsDigit(p[i])
  }

  /** `/[^A-Za-z0-9]/.test(p)`: some character that is not an ASCII letter or digit. */
  predicate HasSymbol(p: string) {
    exists i :: 0 <= i < |p| && !IsAsciiLetter(p[i]) && !IsDigit(p[i])
  }

  /** `getPasswordStrength(p)`. */
  function PasswordStrength(p: string): (s: Strength)
  {
    if |p| > 8 && HasUpper(p) && HasDigit(p) && HasSymbol(p) then Strong
    else if |p| >= 6 then Medium
    else Weak
  }

  /**
   * The hint reads Weak exactly below six characters, and Strong exactly from
   * nine characters with an upper-case letter, a digit and a symbol; a long
   * password missing any of the three reads Medium.
   */
  lemma PasswordStrengthExactly(p: string)
    ensures PasswordStrength(p) == Weak <==> |p| < 6
    ensures PasswordStrength(p) == Strong <==> |p| >= 9 && HasUpper(p) && HasDigit(p) && HasSymbol(p)
    ensures |p| >= 9 && !(HasUpper(p) && HasDigit(p) && HasSymbol(p)) ==> PasswordStrength(p) == Medium
  {
  }

  /** Typing more characters never lowers the hint. */
  lemma StrengthGrows(p: string, more: string)
    ensures Level(PasswordStrength(p)) <= Level(PasswordStrength(p + more))
  {
    var q := p + more;
    assert forall i :: 0 <= i < |p| ==> q[i] == p[i];
    if HasUpper(p) {
      var i :| 0 <= i < |p| && IsAsciiUpper(p[i]);
      assert IsAsciiUpper(q[i]);
    }
    if HasDigit(p) {
      var i :| 0 <= i < |p| && IsDigit(p[i]);
      assert IsDigit(q[i]);
    }
    if HasSymbol(p) {
      var i :| 0 <= i < |p| && !IsAsciiLetter(p[i]) && !IsDigit(p[i]);
      assert !IsAsciiLetter(q[i]) && !IsDigit(q[i]);
    }
  }

  // ---------------------------------------------------------------------------
  // validate

  /**
   * `/\S+@\S+\.\S+/.test(s)`: somewhere in `s` an `@` follows a non-space, and
   * after it, past at least one more non-space and nothing but non-spaces, a `.`
   * is followed by a non-space.
   */
  predicate EmailShaped(s: string) {
    exists a :: 1 <= a < |s| && s[a] == '@' && !IsSpace(s[a - 1]) && DotAfter(s, a)
  }

  /** A `.` past `a + 1`, with only non-spaces since `a` and a non-space after it. */
  predicate DotAfter(s: string, a: nat) {
    exists d :: a + 1 < d && d + 1 < |s| && s[d] == '.' && !IsSpace(s[d + 1]) && NoSpaceBetween(s, a, d)
  }

  /** No space strictly between `a` and `d`. */
  predicate NoSpaceBetween(s: string, a: nat, d: nat)
    requires d <= |s|
    decreases d
  {
    d <= a + 1 || (!IsSpace(s[d - 1]) && NoSpaceBetween(s, a, d - 1))
  }

  /** A space between `a` and `d` rules out `NoSpaceBetween`. */
  lemma {:induction false} SpaceBlocks(s: string, a: nat, d: nat, k: nat)
    requires d <= |s| && a < k < d && IsSpace(s[k])
    ensures !NoSpaceBetween(s, a, d)
    decreases d
  {
    if k < d - 1 {
      SpaceBlocks(s, a, d - 1, k);
    }
  }

  /** A space right after the `@` leaves no `.` for it. */
  lemma SpaceAfterAtBlocks(s: string, a: nat)
    requires a + 1 < |s| && IsSpace(s[a + 1])
    ensures !DotAfter(s, a)
  {
    forall d | a + 1 < d <= |s|
      ensures !NoSpaceBetween(s, a, d)
    {
      SpaceBlocks(s, a, d, a + 1);
    }
  }

  /** An address that passes has at least five characters, an `@` and a `.` after it. */
  lemma EmailShapedNeeds(s: string)
    requires EmailShaped(s)
    ensures |s| >= 5 && '@' in s && '.' in s
  {
    var a :| 1 <= a < |s| && s[a] == '@' && !IsSpace(s[a - 1]) && DotAfter(s, a);
    var d :| a + 1 < d && d + 1 < |s| && s[d] == '.' && !IsSpace(s[d + 1]) && NoSpaceBetween(s, a, d);
    assert s[a] in s && s[d] in s;
  }

  /** A usual address passes. */
  lemma EmailAccepted()
    ensures EmailShaped("reader@example.com")
  {
    var s := "reader@example.com";
    assert NoSpaceBetween(s, 6, 14) by {
      assert NoSpaceBetween(s, 6, 7);
      assert NoSpaceBetween(s, 6, 8);
      assert NoSpaceBetween(s, 6, 9);
      assert NoSpaceBetween(s, 6, 10);
      assert NoSpaceBetween(s, 6, 11);
      assert NoSpaceBetween(s, 6, 12);
      assert NoSpaceBetween(s, 6, 13);
    }
    assert 6 + 1 < 14 && 14 + 1 < |s| && s[14] == '.' && !IsSpace(s[15]);
    assert DotAfter(s, 6);
    assert 1 <= 6 < |s| && s[6] == '@' && !IsSpace(s[5]);
  }

  /** The only `@` of `s` is the one at `a`. */
  predicate SingleAt(s: string, a: nat) {
    a < |s| && s[a] == '@' && forall k :: 0 <= k < |s| && k != a ==> s[k] != '@'
  }

  /** An address whose only `@` has no `.` after it fails. */
  lemma EmailWithoutDot(s: string, a: nat)
    requires SingleAt(s, a) && forall k :: a < k < |s| ==> s[k] != '.'
    ensures !EmailShaped(s)
  {
  }

  /** An address whose only `@` starts it or has a space right before it fails. */
  lemma EmailSpaceBeforeAt(s: string, a: nat)
    requires SingleAt(s, a) && (a == 0 || IsSpace(s[a - 1]))
    ensures !EmailShaped(s)
  {
  }

  /** An address whose only `@` has a space right after it fails. */
  lemma EmailSpaceAfterAt(s: string, a: nat)
    requires SingleAt(s, a) && a + 1 < |s| && IsSpace(s[a + 1])
    ensures !EmailShaped(s)
  {
    SpaceAfterAtBlocks(s, a);
  }

  datatype Mode = Login | Register

  /** The form's inputs, and `general` for the server's message. */
  datatype Field = Name | Email | Password | ConfirmPassword | Role | General

  /** The form's values; the role starts as `user`. */
  datatype Form = Form(name: string, email: string, password: string, confirmPassword: string, role: string)

  const EmptyForm: Form := Form("", "", "", "", "user")

  /** The name's error: required when registering. */
  function NameError(mode: Mode, name: string): Option<string> {
    if mode == Register && name == "" then Some("Full name is required") else None
  }

  /** The email's error: required, then shaped like an address. */
  function EmailError(email: string): Option<string> {
    if email == "" then Some("Email is required")
    else if !EmailShaped(email) then Some("Invalid email address")
    else None
  }

  /** The password's error: required, then at least six characters. */
  function PasswordError(password: string): Option<string> {
    if password == "" then Some("Password is required")
    else if |password| < 6 then Some("Password must be at least 6 characters")
    else None
  }

  /** The confirmation's error, when registering: required, then equal to the password. */
  function ConfirmError(mode: Mode, form: Form): Option<string> {
    if mode != Register then None
    else if form.confirmPassword == "" then Some("Please confirm your password")
    else if form.password != form.confirmPassword then Some("Passwords do not match")
    else None
  }

  /** The role's error, when registering: one must be selected. */
  function RoleError(mode: Mode, role: string): Option<string> {
    if mode == Register && role == "" then Some("Select a role") else None
  }

  /** `errs.field = e` when there is an error `e`. */
  function Put(errs: map<Field, string>, field: Field, e: Option<string>): map<Field, string> {
    if e.Some? then errs[field := e.value] else errs
  }

  /** `validate()`: the error of each field that fails, checked in the order of the form. */
  function Validation(mode: Mode, form: Form): (errs: map<Field, string>)
  {
    var named := Put(map[], Name, NameError(mode, form.name));
    var mailed := Put(named, Email, EmailError(form.email));
    var passed := Put(mailed, Password, PasswordError(form.password));
    var confirmed := Put(passed, ConfirmPassword, ConfirmError(mode, form));
    Put(confirmed, Role, RoleError(mode, form.role))
  }

  /** The check of one field. */
  function ErrorOf(mode: Mode, form: Form, field: Field): Option<string> {
    match field
    case Name => NameError(mode, form.name)
    case Email => EmailError(form.email)
    case Password => PasswordError(form.password)
    case ConfirmPassword => ConfirmError(mode, form)
    case Role => RoleError(mode, form.role)
    case General => None
  }

  /** After one `Put`, a field has an entry when it was just set or already had one. */
  lemma PutEntry(errs: map<Field, string>, f: Field, e: Option<string>, g: Field)
    ensures g in Put(errs, f, e) <==> (g == f && e.Some?) || g in errs
    ensures g in Put(errs, f, e) ==> Put(errs, f, e)[g] == if g == f && e.Some? then e.value else errs[g]
  {
  }

  /** Each field has an entry exactly when its own check fails, with that check's message. */
  lemma ValidationFields(mode: Mode, form: Form, field: Field)
    ensures field in Validation(mode, form) <==> ErrorOf(mode, form, field).Some?
    ensures field in Validation(mode, form) ==> Validation(mode, form)[field] == ErrorOf(mode, form, field).value
  {
    var named := Put(map[], Name, NameError(mode, form.name));
    var mailed := Put(named, Email, EmailError(form.email));
    var passed := Put(mailed, Password, PasswordError(form.password));
    var confirmed := Put(passed, ConfirmPassword, ConfirmError(mode, form));
    assert Validation(mode, form) == Put(confirmed, Role, RoleError(mode, form.role));
    PutEntry(map[], Name, NameError(mode, form.name), field);
    PutEntry(named, Email, EmailError(form.email), field);
    PutEntry(mailed, Password, PasswordError(form.password), field);
    PutEntry(passed, ConfirmPassword, ConfirmError(mode, form), field);
    PutEntry(confirmed, Role, RoleError(mode, form.role), field);
  }

  /**
   * The email must be present and shaped like an address, and the password
   * needs six characters, so a password that passes never reads Weak; these
   * two are checked in both modes.
   */
  lemma ValidationCredentials(mode: Mode, form: Form)
    ensures var errs := Validation(mode, form);
      && (Email in errs <==> !EmailShaped(form.email))
      && (Email in errs ==> errs[Email] == if form.email == "" then "Email is required" else "Invalid email address")
      && (Password in errs <==> |form.password| < 6)
      && (Password !in errs ==> PasswordStrength(form.password) != Weak)
  {
    ValidationFields(mode, form, Email);
    ValidationFields(mode, form, Password);
    if form.email == "" {
      assert !EmailShaped(form.email);
    }
  }

  /**
   * A name, a role and a confirmation equal to the password are asked for only
   * when registering, and no check ever reports a general error; a sign-in
   * therefore checks only the email and the password.
   */
  lemma ValidationRegistration(mode: Mode, form: Form)
    ensures var errs := Validation(mode, form);
      && General !in errs
      && (Name in errs <==> mode == Register && form.name == "")
      && (ConfirmPassword in errs <==> mode == Register && (form.confirmPassword == "" || form.confirmPassword != form.password))
      && (Role in errs <==> mode == Register && form.role == "")
      && (mode == Login ==> errs.Keys <= {Email, Password})
  {
    ValidationFields(mode, form, General);
    ValidationFields(mode, form, Name);
    ValidationFields(mode, form, ConfirmPassword);
    ValidationFields(mode, form, Role);
    if mode == Login {
      forall f | f in Validation(mode, form) ensures f in {Email, Password} {
        ValidationFields(mode, form, f);
      }
    }
  }

  // ---------------------------------------------------------------------------
  // The form's state: handleChange, handleSubmit

  /** `form[field]`. */
  function Value(form: Form, field: Field): string {
    match field
    case Name => form.name
    case Email => form.email
    case Password => form.password
    case ConfirmPassword => form.confirmPassword
    case Role => form.role
    case General => ""
  }

  /** `{ ...form, [field]: value }`. */
  function SetValue(form: Form, field: Field, value: string): (f: Form)
    requires field != General
    ensures Value(f, field) == value
    ensures forall g :: g != field ==> Value(f, g) == Value(form, g)
  {
    match field
    case Name => form.(name := value)
    case Email => form.(email := value)
    case Password => form.(password := value)
    case ConfirmPassword => form.(confirmPassword := value)
    case Role => form.(role := value)
  }

  /** How the `POST` to the login or register route ends. */
  datatype AuthResponse = Accepted | Rejected(message: Option<string>) | NetworkError

  /** A `POST` of the form to a route. */
  datatype Request = Request(url: string, body: Form)

  /** The route a submission goes to. */
  function Endpoint(mode: Mode): string {
    if mode == Login then "http://localhost:5000/api/auth/login" else "http://localhost:5000/api/auth/register"
  }

  const Inputs: set<Field> := {Name, Email, Password, ConfirmPassword, Role}

  class AuthFormState {
    var mode: Mode
    var form: Form
    var errors: map<Field, string>
    var touched: set<Field>
    var submitted: bool
    var loading: bool

    /** Only inputs are ever marked as touched. */
    predicate Valid()
      reads this
    {
      touched <= Inputs
    }

    /** The form as first drawn: sign-in mode, empty fields, role `user`. */
    constructor ()
      ensures Valid()
      ensures mode == Login && form == EmptyForm && errors == map[] && touched == {}
      ensures !submitted && !loading
    {
      mode := Login;
      form := EmptyForm;
      errors := map[];
      touched := {};
      submitted := false;
      loading := false;
    }

    /** The Register and Login links. */
    method SwitchMode(m: Mode)
      modifies this
      ensures mode == m
      ensures form == old(form) && errors == old(errors) && touched == old(touched)
      ensures submitted == old(submitted) && loading == old(loading)
    {
      mode := m;
    }

    /** `handleChange(e)` for the input `field`: its value is set, its error cleared, and it is marked touched. */
    method HandleChange(field: Field, value: string)
      requires Valid() && field != General
      modifies this
      ensures Valid()
      ensures form == SetValue(old(form), field, value)
      ensures errors == old(errors)[field := ""] && touched == old(touched) + {field}
      ensures mode == old(mode) && submitted == old(submitted) && loading == old(loading)
    {
      form := SetValue(form, field, value);
      errors := errors[field := ""];
      touched := touched + {field};
    }

    /**
     * `handleSubmit(e)`: the request is sent, with the form as it is, exactly when
     * the form validates; otherwise the errors are shown and every input is
     * marked touched. The server's answer then either marks the form submitted
     * or shows a general error.
     */
    method HandleSubmit(response: AuthResponse) returns (sent: Option<Request>)
      requires Valid()
      modifies this
      ensures Valid()
      ensures sent.Some? <==> Validation(old(mode), old(form)) == map[]
      ensures sent.Some? ==> sent.value == Request(Endpoint(mode), form)
      ensures touched == Inputs && mode == old(mode) && form == old(form)
      ensures sent.None? ==> errors == Validation(mode, form) && submitted == old(submitted) && loading == old(loading)
      ensures sent.Some? ==> !loading
      ensures sent.Some? && response.Accepted? ==> submitted && errors == map[]
      ensures sent.Some? && response.Rejected? ==>
        && submitted == old(submitted)
        && errors == map[General := if response.message.Some? && response.message.value != "" then response.message.value else "Authentication failed"]
      ensures sent.Some? && response.NetworkError? ==>
        && submitted == old(submitted)
        && errors == map[General := "Network error. Please check if the server is running."]
    {
      var errs := Validation(mode, form);
      errors := errs;
      touched := Inputs;
      if errs.Keys != {} {
        return None;
      }
      assert errs == map[];
      loading := true;
      errors := map[];
      sent := Some(Request(Endpoint(mode), form));
      match response {
        case Accepted =>
          submitted := true;
        case Rejected(message) =>
          errors := map[General := if message.Some? && message.value != "" then message.value else "Authentication failed"];
        case NetworkError =>
          errors := map[General := "Network error. Please check if the server is running."];
      }
      loading := false;
    }
  }

  /**
   * A form that has been sent had, in either mode, a well-shaped email and a
   * password that is not Weak; a registration also had a name, a role and a
   * matching confirmation.
   */
  lemma SentFormsAreSound(mode: Mode, form: Form)
    requires Validation(mode, form) == map[]
    ensures EmailShaped(form.email) && PasswordStrength(form.password) != Weak
    ensures mode == Register ==> form.name != "" && form.role != "" && form.confirmPassword == form.password
  {
    ValidationCredentials(mode, form);
    ValidationRegistration(mode, form);
  }
}

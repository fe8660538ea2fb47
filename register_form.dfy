/** The registration page (`Register.jsx`): `validateForm`, which fills an error
    dictionary field by field, and the payload `handleSubmit` passes on. */
module RegisterForm {
  import opened Common
  import UserController

  /** The form state. */
  datatype FormData = FormData(
    name: string, username: string, email: string, password: string,
    confirmPassword: string, role: string, area: string)

  /** The keys of the error dictionary. */
  datatype Field = NameField | UsernameField | EmailField | PasswordField | ConfirmField | AreaField

  /** `isAreaRequired`. */
  predicate AreaRequired(f: FormData) {
    f.role == "volunteer"
  }

  /** `/\S+@\S+\.\S+/` matched with `@` at `at` and `.` at `dot`: a non-space
      character before the `@`, only non-space characters (at least one) between
      the two, and a non-space character after the `.`. */
  predicate EmailAt(s: string, at: int, dot: int) {
    1 <= at && at + 1 < dot && dot + 1 < |s| &&
    s[at] == '@' && s[dot] == '.' && !IsSpace(s[at - 1]) && !IsSpace(s[dot + 1]) &&
    forall k :: at < k < dot ==> !IsSpace(s[k])
  }

  /** `.test` of the unanchored pattern: a match anywhere in the text. */
  predicate EmailShaped(s: string) {
    exists at, dot :: 0 <= at < |s| && 0 <= dot < |s| && EmailAt(s, at, dot)
  }

  /** A match in `s` is a match, shifted, in any text that contains `s`. */
  lemma EmailAtShifted(s: string, before: string, after: string, at: int, dot: int)
    requires EmailAt(s, at, dot)
    ensures EmailAt(before + s + after, |before| + at, |before| + dot)
  {
    var t, n := before + s + after, |before|;
    assert forall k :: 0 <= k < |s| ==> t[n + k] == s[k];
    assert forall k :: n + at < k < n + dot ==> t[k] == s[k - n];
  }

  /** The pattern asks for at least five characters, and because it is not
      anchored, text around a match does not matter. */
  lemma EmailShapeFacts(s: string, before: string, after: string)
    ensures EmailShaped(s) ==> |s| >= 5
    ensures EmailShaped(s) ==> EmailShaped(before + s + after)
  {
    if EmailShaped(s) {
      var at, dot :| 0 <= at < |s| && 0 <= dot < |s| && EmailAt(s, at, dot);
      EmailAtShifted(s, before, after, at, dot);
      var t := before + s + after;
      assert 0 <= |before| + at < |t| && 0 <= |before| + dot < |t|;
    }
  }

  /** Spaces outside the match are accepted, and an address without a dot after
      the `@` is refused. */
  lemma EmailShapeExamples()
    ensures EmailShaped("a@b.c")
    ensures EmailShaped("my name a@b.c")
    ensures !EmailShaped("a@bc")
  {
    assert EmailAt("a@b.c", 1, 3);
    assert EmailAt("my name a@b.c", 9, 11);
    var s := "a@bc";
    forall at, dot | 0 <= at < |s| && 0 <= dot < |s|
      ensures !EmailAt(s, at, dot)
    {
      if s[dot] == '.' {
        assert false;
      }
    }
  }

  /** The rules `validateForm` applies: the form passes exactly when each holds. */
  predicate FormValid(f: FormData) {
    f.name != "" && |f.username| >= 3 && f.email != "" && EmailShaped(f.email) &&
    |f.password| >= 6 && f.confirmPassword != "" && f.password == f.confirmPassword &&
    (AreaRequired(f) ==> f.area != "")
  }

  /** The messages `validateForm` records. */
  const NameRequired := "Name is required"
  const UsernameRequired := "Username is required"
  const UsernameTooShort := "Username must be at least 3 characters"
  const EmailRequired := "Email is required"
  const EmailInvalid := "Email address is invalid"
  const PasswordRequired := "Password is required"
  const PasswordTooShort := "Password must be at least 6 characters"
  const ConfirmRequired := "Confirm password is required"
  const PasswordsDiffer := "Passwords do not match"
  const AreaRequiredMessage := "Area is required for volunteers"

  /** The message `validateForm` records for each field: the first of the
      field's rules that fails, or None when they all hold. */
  function NameMessage(f: FormData): (m: Option<string>)
    ensures m.Some? <==> f.name == ""
  {
    if f.name == "" then Some(NameRequired) else None
  }

  function UsernameMessage(f: FormData): (m: Option<string>)
    ensures m.Some? <==> |f.username| < 3
  {
    if f.username == "" then Some(UsernameRequired)
    else if |f.username| < 3 then Some(UsernameTooShort)
    else None
  }

  function EmailMessage(f: FormData): (m: Option<string>)
    ensures m.Some? <==> f.email == "" || !EmailShaped(f.email)
  {
    if f.email == "" then Some(EmailRequired)
    else if !EmailShaped(f.email) then Some(EmailInvalid)
    else None
  }

  function PasswordMessage(f: FormData): (m: Option<string>)
    ensures m.Some? <==> |f.password| < 6
  {
    if f.password == "" then Some(PasswordRequired)
    else if |f.password| < 6 then Some(PasswordTooShort)
    else None
  }

  function ConfirmMessage(f: FormData): (m: Option<string>)
    ensures m.Some? <==> f.confirmPassword == "" || f.password != f.confirmPassword
  {
    if f.confirmPassword == "" then Some(ConfirmRequired)
    else if f.password != f.confirmPassword then Some(PasswordsDiffer)
    else None
  }

  function AreaMessage(f: FormData): (m: Option<string>)
    ensures m.Some? <==> AreaRequired(f) && f.area == ""
  {
    if AreaRequired(f) && f.area == "" then Some(AreaRequiredMessage) else None
  }

  /** The dictionary's entry for `k`. */
  function Entry(errors: map<Field, string>, k: Field): Option<string> {
    if k in errors then Some(errors[k]) else None
  }

  /** `newErrors[k] = message` when the field's rule fails: only the entry for
      `k` changes. */
  function Record(errors: map<Field, string>, k: Field, m: Option<string>): (r: map<Field, string>)
    requires k !in errors
    ensures Entry(r, k) == m
    ensures r.Keys <= errors.Keys + {k}
    ensures forall j :: j != k ==> Entry(r, j) == Entry(errors, j)
  {
    if m.Some? then errors[k := m.value] else errors
  }

  /** The dictionary holds, for every field, exactly that field's message. */
  predicate Recorded(f: FormData, errors: map<Field, string>) {
    Entry(errors, NameField) == NameMessage(f) && Entry(errors, UsernameField) == UsernameMessage(f) &&
    Entry(errors, EmailField) == EmailMessage(f) && Entry(errors, PasswordField) == PasswordMessage(f) &&
    Entry(errors, ConfirmField) == ConfirmMessage(f) && Entry(errors, AreaField) == AreaMessage(f)
  }

  /** `validateForm`: one message per failing field; true exactly when no key was
      set, which is exactly when every rule holds. */
  method ValidateForm(f: FormData) returns (errors: map<Field, string>, ok: bool)
    ensures Recorded(f, errors)
    ensures ok <==> FormValid(f)
    ensures ok <==> errors == map[]
  {
    errors := map[];
    errors := Record(errors, NameField, NameMessage(f));
    errors := Record(errors, UsernameField, UsernameMessage(f));
    errors := Record(errors, EmailField, EmailMessage(f));
    errors := Record(errors, PasswordField, PasswordMessage(f));
    errors := Record(errors, ConfirmField, ConfirmMessage(f));
    errors := Record(errors, AreaField, AreaMessage(f));
    ok := |errors.Keys| == 0;
    NoErrorsIffValid(f, errors);
  }

  /** The dictionary has no key exactly when every rule holds. */
  lemma NoErrorsIffValid(f: FormData, errors: map<Field, string>)
    requires Recorded(f, errors)
    ensures |errors.Keys| == 0 <==> FormValid(f)
    ensures |errors.Keys| == 0 <==> errors == map[]
  {
    if errors.Keys == {} {
      assert errors == map[];
    } else {
      var k :| k in errors.Keys;
      assert |errors.Keys| > 0;
      match k
      case NameField =>
      case UsernameField =>
      case EmailField =>
      case PasswordField =>
      case ConfirmField =>
      case AreaField =>
    }
  }

  /** The payload of `handleSubmit`: the form without `confirmPassword`, and
      without `area` unless the role is volunteer. */
  method SubmitPayload(f: FormData) returns (payload: map<string, string>)
    ensures "confirmPassword" !in payload
    ensures "area" in payload <==> AreaRequired(f)
    ensures "area" in payload ==> payload["area"] == f.area
    ensures payload.Keys == {"name", "username", "email", "password", "role"} + (if AreaRequired(f) then {"area"} else {})
    ensures payload["name"] == f.name && payload["username"] == f.username && payload["email"] == f.email
    ensures payload["password"] == f.password && payload["role"] == f.role
  {
    var formData := map["name" := f.name, "username" := f.username, "email" := f.email,
                        "password" := f.password, "confirmPassword" := f.confirmPassword,
                        "role" := f.role, "area" := f.area];
    payload := formData - {"confirmPassword"};
    if !AreaRequired(f) {
      payload := payload - {"area"};
    }
  }

  /** The body the server reads from a payload; an absent key reads as empty. */
  function Body(payload: map<string, string>): UserController.RegisterBody {
    UserController.RegisterBody(
      Get(payload, "name"), Get(payload, "username"), Get(payload, "email"),
      Get(payload, "password"), Get(payload, "role"), Get(payload, "area"))
  }

  function Get(m: map<string, string>, k: string): string {
    if k in m then m[k] else ""
  }

  /** A form that passes `validateForm` never meets the server's "Area is required
      for volunteers" refusal, and its password meets the schema's minimum
      length.  Its name may still trim to empty, which only the server refuses. */
  lemma ValidFormPassesServerAreaCheck(f: FormData, payload: map<string, string>)
    requires FormValid(f)
    requires "confirmPassword" !in payload
    requires "area" in payload <==> AreaRequired(f)
    requires "area" in payload ==> payload["area"] == f.area
    requires "password" in payload && payload["password"] == f.password
    requires "role" in payload && payload["role"] == f.role
    ensures !(Body(payload).role == "volunteer" && Body(payload).area == "")
    ensures |Body(payload).password| >= 6
  {
  }
}

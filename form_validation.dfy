/** The client-side form checks: each builds a map from field name to the
    message shown under that field. A field the form does not send is
    `None`; JavaScript treats it and the empty string alike as missing. */
module FormValidation {
  import opened Basics
  import FieldValidation

  const EmailRequired := "Email là bắt buộc"
  const EmailInvalid := "Email không hợp lệ"
  const PasswordRequired := "Mật khẩu là bắt buộc"
  const PasswordTooShort := "Mật khẩu phải có ít nhất 6 ký tự"
  const UsernameRequired := "Tên người dùng là bắt buộc"
  const UsernameLength := "Tên người dùng phải có ít nhất 3 ký tự và tối đa 30 ký tự"
  const ConfirmMismatch := "Mật khẩu xác nhận không khớp"

  /** JavaScript's `!value` for a form field. */
  predicate Missing(f: Option<string>)
  {
    f.None? || f.value == ""
  }

  /** `isPassword`: six characters or more. Every password the server's
      strength check accepts passes it. */
  function IsPassword(s: string): (r: bool)
    ensures r <==> |s| >= 6
    ensures FieldValidation.IsStrongPassword(s) ==> r
  {
    |s| >= 6
  }

  /** `isUsername`: between three and thirty characters. Every name the
      server's username check accepts passes it. */
  function IsUsername(s: string): (r: bool)
    ensures r <==> 3 <= |s| <= 30
    ensures FieldValidation.IsValidUsername(s) ==> r
  {
    3 <= |s| <= 30
  }

  /** The error for a required field with a format check: the "required"
      message when it is missing, the format message when it is present but
      malformed, none otherwise. */
  function FieldError(f: Option<string>, wellFormed: string -> bool, required: string, malformed: string): (e: Option<string>)
    ensures Missing(f) ==> e == Some(required)
    ensures !Missing(f) ==> (e.Some? <==> !wellFormed(f.value))
    ensures e.Some? ==> e.value == required || e.value == malformed
  {
    if Missing(f) then Some(required)
    else if !wellFormed(f.value) then Some(malformed)
    else None
  }

  /** `loginValidation`; `isEmail` is the client's email expression, applied
      to the lower-cased address, taken as given. */
  method LoginValidation(email: Option<string>, password: Option<string>, isEmail: string -> bool)
    returns (errors: map<string, string>)
    ensures errors.Keys <= {"email", "password"}
    ensures "email" in errors <==> Missing(email) || !isEmail(email.value)
    ensures "email" in errors ==> errors["email"] == (if Missing(email) then EmailRequired else EmailInvalid)
    ensures "password" in errors <==> Missing(password)
    ensures "password" in errors ==> errors["password"] == PasswordRequired
    ensures errors == map[] <==> !Missing(email) && isEmail(email.value) && !Missing(password)
  {
    errors := map[];
    if Missing(email) {
      errors := errors["email" := EmailRequired];
    } else if !isEmail(email.value) {
      errors := errors["email" := EmailInvalid];
    }
    if Missing(password) {
      errors := errors["password" := PasswordRequired];
    }
  }

  /** `registerValidation`: one message at most per field, "required" before
      the format check, and a `confirmPassword` error exactly when the two
      passwords differ, whatever the other fields hold. */
  method RegisterValidation(username: Option<string>, email: Option<string>, password: Option<string>,
                            confirmPassword: Option<string>, isEmail: string -> bool)
    returns (errors: map<string, string>)
    ensures errors.Keys <= {"username", "email", "password", "confirmPassword"}
    ensures ("username" in errors) == FieldError(username, IsUsername, UsernameRequired, UsernameLength).Some?
    ensures "username" in errors ==> errors["username"] == FieldError(username, IsUsername, UsernameRequired, UsernameLength).value
    ensures ("email" in errors) == FieldError(email, isEmail, EmailRequired, EmailInvalid).Some?
    ensures "email" in errors ==> errors["email"] == FieldError(email, isEmail, EmailRequired, EmailInvalid).value
    ensures ("password" in errors) == FieldError(password, IsPassword, PasswordRequired, PasswordTooShort).Some?
    ensures "password" in errors ==> errors["password"] == FieldError(password, IsPassword, PasswordRequired, PasswordTooShort).value
    ensures "confirmPassword" in errors <==> password != confirmPassword
    ensures "confirmPassword" in errors ==> errors["confirmPassword"] == ConfirmMismatch
    ensures errors == map[] <==>
              && !Missing(username) && IsUsername(username.value)
              && !Missing(email) && isEmail(email.value)
              && !Missing(password) && IsPassword(password.value)
              && confirmPassword == password
  {
    errors := map[];
    if Missing(username) {
      errors := errors["username" := UsernameRequired];
    } else if !IsUsername(username.value) {
      errors := errors["username" := UsernameLength];
    }
    ghost var u := FieldError(username, IsUsername, UsernameRequired, UsernameLength);
    assert errors == if u.Some? then map["username" := u.value] else map[];
    if Missing(email) {
      errors := errors["email" := EmailRequired];
    } else if !isEmail(email.value) {
      errors := errors["email" := EmailInvalid];
    }
    ghost var e := FieldError(email, isEmail, EmailRequired, EmailInvalid);
    assert errors == (if u.Some? then map["username" := u.value] else map[])
                     + (if e.Some? then map["email" := e.value] else map[]);
    if Missing(password) {
      errors := errors["password" := PasswordRequired];
    } else if !IsPassword(password.value) {
      errors := errors["password" := PasswordTooShort];
    }
    if password != confirmPassword {
      errors := errors["confirmPassword" := ConfirmMismatch];
    }
    if errors == map[] {
      assert "username" !in errors && "email" !in errors && "password" !in errors;
    }
  }

  /** The client accepts passwords the server refuses: six lower-case
      letters pass `isPassword` but not `isStrongPassword`. */
  lemma ClientPasswordIsWeaker()
    ensures IsPassword("abcdef") && !FieldValidation.IsStrongPassword("abcdef")
  {
    var s := "abcdef";
    assert forall i :: 0 <= i < |s| ==> FieldValidation.IsLower(s[i]);
  }
}

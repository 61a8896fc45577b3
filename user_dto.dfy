/** Request bodies of sign-up and sign-in. Sign-up strips every string field
    before checking it; sign-in checks the raw strings. A body that fails any
    check is answered with 422. */
module UserDto {
  import opened Tables
  import opened Text

  datatype SignUp = SignUp(name: string, role: Role, username: string, password: string)
  datatype SignIn = SignIn(username: string, password: string)

  /** The role enum accepts exactly its two values; a missing role is rejected. */
  function ParseRole(raw: Option<string>): (r: Result<Role>)
    ensures r.Err? ==> r.status == Unprocessable
  {
    if raw == Some("student") then Ok(Student)
    else if raw == Some("admin") then Ok(Admin)
    else Err(Unprocessable)
  }

  predicate IsNameChar(c: char) { IsAsciiLetter(c) || IsHangulSyllable(c) || IsAsciiDigit(c) }

  predicate IsUsernameChar(c: char) { IsAsciiLetter(c) || IsAsciiDigit(c) }

  /** The class `a-zA-Z0-9~!@#$%^&*()-_+=`: inside it `)-_` is the range
      U+0029..U+005F, so `<`, `[`, `:` and the like are accepted too. */
  predicate IsPasswordSymbol(c: char) {
    IsAsciiLetter(c) || IsAsciiDigit(c)
    || c == '~' || c == '!' || c == '@' || c == '#' || c == '$' || c == '%' || c == '^' || c == '&' || c == '*'
    || c == '(' || (')' <= c <= '_') || c == '+' || c == '='
  }

  /** Sign-up adds `\s` to the password class. */
  predicate IsSignUpPasswordChar(c: char) { IsPasswordSymbol(c) || IsWhitespace(c) }

  predicate NameOk(v: string) { 1 <= |v| <= 10 && AllIn(v, IsNameChar) }

  predicate UsernameOk(v: string) { 4 <= |v| <= 20 && AllIn(v, IsUsernameChar) }

  predicate SignUpPasswordOk(v: string) { 4 <= |v| <= 30 && AllIn(v, IsSignUpPasswordChar) }

  predicate SignInPasswordOk(v: string) { 4 <= |v| <= 30 && AllIn(v, IsPasswordSymbol) }

  /** What a validated sign-up body holds: stripped fields that pass their rules. */
  predicate ValidSignUp(d: SignUp) {
    NameOk(d.name) && UsernameOk(d.username) && Stripped(d.password) && SignUpPasswordOk(d.password)
  }

  predicate ValidSignIn(d: SignIn) {
    UsernameOk(d.username) && SignInPasswordOk(d.password)
  }

  function ParseSignUp(name: Option<string>, role: Option<string>, username: Option<string>, password: Option<string>): (r: Result<SignUp>)
    ensures r.Ok? ==> ValidSignUp(r.value)
    ensures r.Ok? ==> role == Some(RoleName(r.value.role))
    ensures r.Err? ==> r.status == Unprocessable
  {
    if name.None? || username.None? || password.None? then Err(Unprocessable)
    else match ParseRole(role)
      case Err(e) => Err(e)
      case Ok(ro) =>
        var n := Strip(name.value);
        var u := Strip(username.value);
        var p := Strip(password.value);
        if NameOk(n) && UsernameOk(u) && SignUpPasswordOk(p) then Ok(SignUp(n, ro, u, p)) else Err(Unprocessable)
  }

  /** Sign-in as written: no stripping, and no whitespace in the password class. */
  function ParseSignIn(username: Option<string>, password: Option<string>): (r: Result<SignIn>)
    ensures r.Ok? ==> ValidSignIn(r.value) && username == Some(r.value.username) && password == Some(r.value.password)
    ensures r.Err? ==> r.status == Unprocessable
  {
    if username.None? || password.None? then Err(Unprocessable)
    else if UsernameOk(username.value) && SignInPasswordOk(password.value) then Ok(SignIn(username.value, password.value))
    else Err(Unprocessable)
  }

  /** Sign-in validated as sign-up validates the same fields. */
  function ParseSignInCorrected(username: Option<string>, password: Option<string>): (r: Result<SignIn>)
    ensures r.Ok? ==> UsernameOk(r.value.username) && Stripped(r.value.password) && SignUpPasswordOk(r.value.password)
    ensures r.Err? ==> r.status == Unprocessable
  {
    if username.None? || password.None? then Err(Unprocessable)
    else
      var u := Strip(username.value);
      var p := Strip(password.value);
      if UsernameOk(u) && SignUpPasswordOk(p) then Ok(SignIn(u, p)) else Err(Unprocessable)
  }

  // ---- Properties ----

  /** The role round trip: its stored name parses back to it, and only its
      stored name parses to it. */
  lemma RoleRoundTrip(r: Role, raw: Option<string>)
    ensures ParseRole(Some(RoleName(r))) == Ok(r)
    ensures ParseRole(raw) == Ok(r) ==> raw == Some(RoleName(r))
    ensures ParseRole(None).Err?
  {
  }

  /** A sign-up body is accepted exactly when every field is present, the
      role is one of the two, and the stripped name, username and password
      pass their rules; the account gets the stripped values. */
  lemma SignUpRule(name: Option<string>, role: Option<string>, username: Option<string>, password: Option<string>)
    ensures ParseSignUp(name, role, username, password).Ok? <==>
              && name.Some? && username.Some? && password.Some? && ParseRole(role).Ok?
              && NameOk(Strip(name.value)) && UsernameOk(Strip(username.value)) && SignUpPasswordOk(Strip(password.value))
    ensures ParseSignUp(name, role, username, password).Ok? ==>
              ParseSignUp(name, role, username, password).value ==
              SignUp(Strip(name.value), ParseRole(role).value, Strip(username.value), Strip(password.value))
  {
  }

  /** Sign-in as written accepts exactly the bodies whose raw username and
      password pass the sign-in rules, and keeps them unstripped. */
  lemma SignInRule(username: Option<string>, password: Option<string>)
    ensures ParseSignIn(username, password).Ok? <==>
              username.Some? && password.Some? && UsernameOk(username.value) && SignInPasswordOk(password.value)
    ensures ParseSignIn(username, password).Ok? ==>
              ParseSignIn(username, password).value == SignIn(username.value, password.value)
  {
  }

  /** Corrected sign-in accepts exactly the raw credentials whose stripped
      forms pass the sign-up rules, and signs in with those stripped forms. */
  lemma SignInCorrectedRule(username: Option<string>, password: Option<string>)
    ensures ParseSignInCorrected(username, password).Ok? <==>
              username.Some? && password.Some? && UsernameOk(Strip(username.value)) && SignUpPasswordOk(Strip(password.value))
    ensures ParseSignInCorrected(username, password).Ok? ==>
              ParseSignInCorrected(username, password).value == SignIn(Strip(username.value), Strip(password.value))
  {
  }

  /** A validated sign-up body is its own validation. */
  lemma SignUpRoundTrip(d: SignUp)
    requires ValidSignUp(d)
    ensures ParseSignUp(Some(d.name), Some(RoleName(d.role)), Some(d.username), Some(d.password)) == Ok(d)
  {
    assert Stripped(d.name) && Stripped(d.username);
    StripStripped(d.name);
    StripStripped(d.username);
    StripStripped(d.password);
    RoleRoundTrip(d.role, None);
  }

  /** Validated values fit the columns they are stored in. */
  lemma SignUpFitsColumns(d: SignUp)
    requires ValidSignUp(d)
    ensures |d.username| <= UsernameWidth && |d.name| <= NameWidth
  {
  }

  /** The sign-up test's rejected bodies: a username with symbols and a
      40-character password. */
  lemma SignUpRejections()
    ensures ParseSignUp(Some("테스트사용자"), Some("student"), Some("testuser%!@#"), Some("test1234!@")).Err?
    ensures ParseSignUp(Some("테스트사용자"), Some("student"), Some("testuser"), Some("1234^a235325sadkjfaasd#$adw324sdfsd3243%")).Err?
    ensures ParseSignUp(Some("테스트사용자"), None, Some("testuser"), Some("test1234!@")).Err?
  {
    var u := "testuser%!@#";
    StripStripped(u);
    assert !IsUsernameChar(u[8]);
    var p := "1234^a235325sadkjfaasd#$adw324sdfsd3243%";
    StripStripped(p);
  }

  /** Characters outside the listed symbols but inside `)`..`_` pass both
      password checks. */
  lemma WidePasswordClass()
    ensures ParseSignIn(Some("testuser"), Some("ab<[cd")) == Ok(SignIn("testuser", "ab<[cd"))
    ensures ParseSignUp(Some("tester"), Some("admin"), Some("testuser"), Some("ab<[cd")) == Ok(SignUp("tester", Admin, "testuser", "ab<[cd"))
  {
    var p := "ab<[cd";
    assert forall i :: 0 <= i < |p| ==> IsPasswordSymbol(p[i]);
    assert forall i :: 0 <= i < |"testuser"| ==> IsUsernameChar("testuser"[i]);
    assert forall i :: 0 <= i < |"tester"| ==> IsNameChar("tester"[i]);
    SignUpRoundTrip(SignUp("tester", Admin, "testuser", p));
  }

  /** As written, a password that sign-up accepts can be refused by sign-in:
      "test 1234" has an inner space. */
  lemma SignInRefusesSignUpPassword()
    ensures ParseSignUp(Some("tester"), Some("student"), Some("testuser"), Some("test 1234")).Ok?
    ensures ParseSignIn(Some("testuser"), Some("test 1234")).Err?
  {
    var p := "test 1234";
    assert !IsPasswordSymbol(p[4]);
    assert forall i :: 0 <= i < |p| ==> IsSignUpPasswordChar(p[i]);
    assert forall i :: 0 <= i < |"testuser"| ==> IsUsernameChar("testuser"[i]);
    assert forall i :: 0 <= i < |"tester"| ==> IsNameChar("tester"[i]);
    SignUpRoundTrip(SignUp("tester", Student, "testuser", p));
  }

  /** Corrected: whatever raw credentials sign-up accepts, corrected sign-in
      accepts too, and it yields the very username and password sign-up stored. */
  lemma SignUpCredentialsSignIn(name: Option<string>, role: Option<string>, username: Option<string>, password: Option<string>)
    requires ParseSignUp(name, role, username, password).Ok?
    ensures var d := ParseSignUp(name, role, username, password).value;
            ParseSignInCorrected(username, password) == Ok(SignIn(d.username, d.password))
  {
  }
}

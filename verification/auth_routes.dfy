/** The authentication blueprint (app/auth/routes.py): its two pure
    validators and the state transitions of register, forgot-password,
    verify-reset-otp, reset-password and logout.  Each flow maps a store and
    a decoded request to the committed store and the response; on every
    error path the store is left as it was (the handler rolls back). */
module AuthRoutes {
  import opened Wrappers
  import Text
  import Json
  import Http
  import Otp
  import Blocklist
  import Accounts

  // ---------------------------------------------------------------------
  // Validators
  // ---------------------------------------------------------------------

  predicate IsAsciiUpper(c: char) { 'A' <= c <= 'Z' }
  predicate IsAsciiLower(c: char) { 'a' <= c <= 'z' }
  predicate IsAsciiDigit(c: char) { '0' <= c <= '9' }

  /** `re.search` with a one-character class: scans left to right for a
      character of the class. */
  function Search(s: string, cls: char -> bool): (found: bool)
    ensures found <==> exists i :: 0 <= i < |s| && cls(s[i])
  {
    if s == [] then false
    else
      assert forall i :: 1 <= i < |s| ==> s[i] == s[1..][i - 1];
      cls(s[0]) || Search(s[1..], cls)
  }

  const MinPasswordLength := 8
  const MaxPasswordLength := 30

  /** `validate_password`: 8 to 30 characters with an upper-case letter,
      a lower-case letter and a digit. */
  function ValidatePassword(password: string): (ok: bool)
    ensures ok <==>
      && MinPasswordLength <= |password| <= MaxPasswordLength
      && (exists i :: 0 <= i < |password| && IsAsciiUpper(password[i]))
      && (exists i :: 0 <= i < |password| && IsAsciiLower(password[i]))
      && (exists i :: 0 <= i < |password| && IsAsciiDigit(password[i]))
  {
    if |password| < MinPasswordLength || |password| > MaxPasswordLength then false
    else if !Search(password, IsAsciiUpper) then false
    else if !Search(password, IsAsciiLower) then false
    else if !Search(password, IsAsciiDigit) then false
    else true
  }

  /** Python truthiness of the optional `max_length` argument. */
  predicate Truthy(maxLength: Option<int>) {
    maxLength.Some? && maxLength.value != 0
  }

  /** `sanitize_input` on a string: strip, escape, then cut to `max_length`
      when it is truthy. */
  function SanitizeString(s: string, maxLength: Option<int>): (r: string)
    // the result is always a prefix of the escaped, stripped input
    ensures r <= Text.Escape(Text.Strip(s))
    // without a truthy bound nothing is cut, so nothing is lost
    ensures !Truthy(maxLength) ==> Text.Unescape(r) == Text.Strip(s)
    ensures !Truthy(maxLength) ==> |r| == |Text.Escape(Text.Strip(s))|
    // a positive bound caps the length
    ensures Truthy(maxLength) && maxLength.value > 0 ==>
              |r| == if maxLength.value < |Text.Escape(Text.Strip(s))| then maxLength.value
                      else |Text.Escape(Text.Strip(s))|
    // a negative bound drops that many characters from the end
    ensures Truthy(maxLength) && maxLength.value < 0 ==>
              |r| == if |Text.Escape(Text.Strip(s))| + maxLength.value > 0
                     then |Text.Escape(Text.Strip(s))| + maxLength.value else 0
    ensures forall i :: 0 <= i < |r| ==> r[i] != '<' && r[i] != '>' && r[i] != '"' && r[i] != '\''
  {
    var escaped := Text.Escape(Text.Strip(s));
    Text.EscapeRoundTrip(Text.Strip(s));
    if Truthy(maxLength) then Text.PrefixSlice(escaped, maxLength.value) else escaped
  }

  /** `sanitize_input(value, max_length)`: anything but a string is returned
      unchanged. */
  function SanitizeInput(value: Json.Value, maxLength: Option<int>): (r: Json.Value)
    ensures !value.Str? ==> r == value
    ensures value.Str? ==> r == Json.Str(SanitizeString(value.s, maxLength))
  {
    match value
    case Str(s) => Json.Str(SanitizeString(s, maxLength))
    case _ => value
  }

  // ---------------------------------------------------------------------
  // Responses
  // ---------------------------------------------------------------------

  datatype Outcome = Outcome(db: Accounts.Db, response: Http.Response)

  const PasswordRuleText := "Password must be 8-30 characters with uppercase, lowercase, and number"
  const NewPasswordRuleText := "New password must be 8-30 characters with uppercase, lowercase, and number"
  const ForgotPasswordText := "If an account with this email exists, a password reset code has been sent."
  const NoValidOtpText := "No valid OTP found. Please request a new one."
  const InvalidOtpText := "Invalid OTP code"
  const ResetTokenExpiresInMinutes := 15

  function ForgotPasswordReply(): Http.Response {
    Http.Message(200, ForgotPasswordText)
  }

  function OtpVerifiedReply(): Http.Response {
    Http.Response(200, Json.Object([
      ("message", Json.Str("OTP verified successfully")),
      ("reset_token_expires_in_minutes", Json.Num(ResetTokenExpiresInMinutes))]))
  }

  // ---------------------------------------------------------------------
  // register
  // ---------------------------------------------------------------------

  /** The JSON fields register reads; `None` is a missing field. */
  datatype RegisterForm = RegisterForm(
    nickname: Option<string>,
    email: Option<string>,
    password: Option<string>,
    firstName: Option<string>,
    lastName: Option<string>)

  const MinNicknameLength := 3
  const MaxNicknameLength := 50
  const MaxNameLength := 100

  /** The pre-insert duplicate query: same email OR same nickname, compared
      with the raw request values. */
  predicate EmailOrNicknameTaken(users: seq<Accounts.User>, email: string, nickname: string) {
    exists i :: 0 <= i < |users| && (users[i].email == email || users[i].nickname == nickname)
  }

  /** The unique columns the insert itself must respect. */
  predicate ViolatesUnique(users: seq<Accounts.User>, u: Accounts.User) {
    exists i :: 0 <= i < |users| &&
      (users[i].ulid == u.ulid || users[i].email == u.email || users[i].nickname == u.nickname)
  }

  /** The row register builds from the sanitized form.  `escapePassword`
      selects whether the password is passed through `sanitize_input`
      before hashing (as the source does) or hashed as typed. */
  function NewUser(form: RegisterForm, ulid: string, now: nat, escapePassword: bool): (u: Accounts.User)
    requires form.nickname.Some? && form.email.Some? && form.password.Some?
    requires form.firstName.Some? && form.lastName.Some?
    ensures u.ulid == ulid && u.createdAt == now && u.updatedAt == now
    // the email is stored stripped and lower-cased
    ensures u.email == Text.Lower(Text.Strip(form.email.value))
    // the text columns are escaped and capped, so they carry no markup
    ensures u.nickname == SanitizeString(form.nickname.value, Some(MaxNicknameLength))
    ensures u.firstName == SanitizeString(form.firstName.value, Some(MaxNameLength))
    ensures u.lastName == SanitizeString(form.lastName.value, Some(MaxNameLength))
    ensures |u.nickname| <= MaxNicknameLength && |u.firstName| <= MaxNameLength && |u.lastName| <= MaxNameLength
    ensures forall i :: 0 <= i < |u.nickname| ==> u.nickname[i] != '<' && u.nickname[i] != '>'
    // the hash accepts the typed password exactly when it was not escaped
    // first, or escaping did not change it
    ensures Accounts.CheckPasswordHash(u.passwordHash, form.password.value) <==>
              !escapePassword || SanitizeString(form.password.value, None) == form.password.value
  {
    var password := if escapePassword then SanitizeString(form.password.value, None) else form.password.value;
    Accounts.User(
      ulid,
      SanitizeString(form.nickname.value, Some(MaxNicknameLength)),
      Text.Lower(Text.Strip(form.email.value)),
      SanitizeString(form.firstName.value, Some(MaxNameLength)),
      SanitizeString(form.lastName.value, Some(MaxNameLength)),
      Accounts.GeneratePasswordHash(password),
      now, now)
  }

  predicate RegisterFormComplete(form: RegisterForm) {
    form.nickname.Some? && form.email.Some? && form.password.Some? &&
    form.firstName.Some? && form.lastName.Some?
  }

  /** The steps of `register` shared by the as-written and the corrected
      definitions.  `emailValid` is the email validator's verdict, `ulid`
      the identifier the store assigns, `token` the access token minted. */
  function RegisterWith(
    db: Accounts.Db, form: RegisterForm, emailValid: bool, ulid: string, token: string, now: nat,
    escapePassword: bool): (o: Outcome)
    ensures o.response.status == 201 <==>
      && RegisterFormComplete(form)
      && emailValid
      && ValidatePassword(form.password.value)
      && MinNicknameLength <= |form.nickname.value| <= MaxNicknameLength
      && !EmailOrNicknameTaken(db.users, form.email.value, form.nickname.value)
      && !ViolatesUnique(db.users, NewUser(form, ulid, now, escapePassword))
    ensures o.response.status == 201 ==>
      o.db == db.(users := db.users + [NewUser(form, ulid, now, escapePassword)])
    ensures o.response.status != 201 ==> o.db == db
  {
    if !RegisterFormComplete(form) then Outcome(db, Http.Error(400, "Missing required fields"))
    else if !emailValid then Outcome(db, Http.Error(400, "Invalid email format"))
    else if !ValidatePassword(form.password.value) then Outcome(db, Http.Error(400, PasswordRuleText))
    else if |form.nickname.value| < MinNicknameLength || |form.nickname.value| > MaxNicknameLength then
      Outcome(db, Http.Error(400, "Nickname must be 3-50 characters"))
    else if EmailOrNicknameTaken(db.users, form.email.value, form.nickname.value) then
      Outcome(db, Http.Error(409, "User with this email or nickname already exists"))
    else
      var user := NewUser(form, ulid, now, escapePassword);
      if ViolatesUnique(db.users, user) then
        Outcome(db, Http.Error(400, "Registration failed. Please try again."))
      else
        Outcome(db.(users := db.users + [user]),
                Http.Response(201, Json.Object([
                  ("message", Json.Str("User registered successfully")),
                  ("token", Json.Str(token))])))
  }

  /** `register` exactly as written: the password is stripped and
      HTML-escaped before it is hashed. */
  function RegisterAsWritten(
    db: Accounts.Db, form: RegisterForm, emailValid: bool, ulid: string, token: string, now: nat): (o: Outcome)
    ensures o.response.status == 201 ==>
      && RegisterFormComplete(form)
      && |o.db.users| == |db.users| + 1
      && o.db.users[|db.users|].passwordHash ==
           Accounts.GeneratePasswordHash(SanitizeString(form.password.value, None))
  {
    RegisterWith(db, form, emailValid, ulid, token, now, true)
  }

  /** `register` with the password hashed as typed, which is what login,
      change-password and reset-password check against. */
  function Register(
    db: Accounts.Db, form: RegisterForm, emailValid: bool, ulid: string, token: string, now: nat): (o: Outcome)
    ensures o.response.status == 201 ==>
      && RegisterFormComplete(form)
      && |o.db.users| == |db.users| + 1
      && o.db.users[|db.users|].ulid == ulid
      && Accounts.CheckPasswordHash(o.db.users[|db.users|].passwordHash, form.password.value)
    ensures o.db.otps == db.otps && o.db.ledger == db.ledger
  {
    RegisterWith(db, form, emailValid, ulid, token, now, false)
  }

  /** The credential check of `login`: the first user with this email and a
      hash accepting the password. */
  function LoginAccepted(db: Accounts.Db, email: string, password: string): (accepted: bool)
    // somebody with that email holds a hash accepting the password ...
    ensures accepted ==> exists i :: 0 <= i < |db.users| && db.users[i].email == email &&
                                    Accounts.CheckPasswordHash(db.users[i].passwordHash, password)
    // ... and it is the first such user: a later account with the same
    // email cannot be logged into
    ensures accepted <==> exists i :: 0 <= i < |db.users| && db.users[i].email == email &&
                                     (forall j :: 0 <= j < i ==> db.users[j].email != email) &&
                                     Accounts.CheckPasswordHash(db.users[i].passwordHash, password)
  {
    var k := Accounts.FindUserByEmail(db.users, email);
    k.Some? && Accounts.CheckPasswordHash(db.users[k.value].passwordHash, password)
  }

  /** After a successful registration an email lookup for the stored email
      finds the new user. */
  lemma RegisteredUserIsFound(
    db: Accounts.Db, form: RegisterForm, emailValid: bool, ulid: string, token: string, now: nat,
    escapePassword: bool)
    requires RegisterWith(db, form, emailValid, ulid, token, now, escapePassword).response.status == 201
    ensures
      var o := RegisterWith(db, form, emailValid, ulid, token, now, escapePassword);
      var u := NewUser(form, ulid, now, escapePassword);
      && |o.db.users| == |db.users| + 1
      && o.db.users[|db.users|] == u
      && Accounts.FindUserByEmail(o.db.users, u.email) == Some(|db.users|)
  {
    var o := RegisterWith(db, form, emailValid, ulid, token, now, escapePassword);
    var u := NewUser(form, ulid, now, escapePassword);
    assert o.db.users == db.users + [u];
    assert !ViolatesUnique(db.users, u);
    Accounts.FindUserByEmailAppend(db.users, u);
  }

  /** Finding: when the password contains a character `html.escape`
      rewrites, register stores the hash of a different string, so logging
      in with the password just registered is refused. */
  lemma RegisterAsWrittenRejectsOwnPassword(
    db: Accounts.Db, form: RegisterForm, emailValid: bool, ulid: string, token: string, now: nat)
    requires RegisterAsWritten(db, form, emailValid, ulid, token, now).response.status == 201
    requires Text.Lower(Text.Strip(form.email.value)) == form.email.value
    requires Text.Strip(form.password.value) == form.password.value
    requires exists i :: 0 <= i < |form.password.value| && Text.IsHtmlSpecial(form.password.value[i])
    ensures !LoginAccepted(RegisterAsWritten(db, form, emailValid, ulid, token, now).db, form.email.value, form.password.value)
  {
    RegisteredUserIsFound(db, form, emailValid, ulid, token, now, true);
    var p := form.password.value;
    assert SanitizeString(p, None) == Text.Escape(p);
    assert |Text.Escape(p)| != |p|;
  }

  /** A password that exhibits the finding: `validate_password` accepts it,
      it has no surrounding whitespace, and it contains '<'. */
  lemma LockedOutPasswordExists()
    ensures ValidatePassword("Secret1<pw")
    ensures Text.Strip("Secret1<pw") == "Secret1<pw"
    ensures Text.IsHtmlSpecial("Secret1<pw"[7])
  {
    var p := "Secret1<pw";
    assert IsAsciiUpper(p[0]) && IsAsciiLower(p[1]) && IsAsciiDigit(p[6]);
    assert Text.LeadingSpaces(p) == 0;
    assert Text.TrailingSpaces(p) == 0;
  }

  /** With the corrected definition, registering and then logging in with
      the same email and password succeeds whenever the email is stored as
      given (already lower-case, no surrounding whitespace). */
  lemma RegisterThenLogin(
    db: Accounts.Db, form: RegisterForm, emailValid: bool, ulid: string, token: string, now: nat)
    requires Register(db, form, emailValid, ulid, token, now).response.status == 201
    requires Text.Lower(Text.Strip(form.email.value)) == form.email.value
    ensures LoginAccepted(Register(db, form, emailValid, ulid, token, now).db, form.email.value, form.password.value)
  {
    RegisteredUserIsFound(db, form, emailValid, ulid, token, now, false);
  }

  // ---------------------------------------------------------------------
  // forgot-password
  // ---------------------------------------------------------------------

  /** The single unit of work of forgot-password: invalidate every unused
      code of the user, then add one fresh code. */
  function IssueOtp(otps: seq<Otp.OtpRow>, user: Otp.UserId, code: string, now: nat): (r: seq<Otp.OtpRow>)
    ensures |r| == |otps| + 1
    ensures r[|otps|] == Otp.NewOtp(user, code, now, Otp.DefaultExpiryMinutes)
    // the new row is the only unused row of the user
    ensures forall i :: 0 <= i < |otps| && r[i].userId == user ==> r[i].isUsed
    // previously unused rows of the user are stamped used now; nothing else changes
    ensures forall i :: 0 <= i < |otps| && otps[i].userId == user && !otps[i].isUsed ==>
              r[i] == Otp.MarkAsUsed(otps[i], now)
    ensures forall i :: 0 <= i < |otps| && (otps[i].userId != user || otps[i].isUsed) ==> r[i] == otps[i]
    // and it is the row verify and reset will find from now on
    ensures Otp.GetLatestValidOtp(r, user, now) == Some(|otps|)
    ensures Otp.ActiveCount(r, user, now) == 1
  {
    var r := Otp.InvalidateAllUserOtps(otps, user, now) + [Otp.NewOtp(user, code, now, Otp.DefaultExpiryMinutes)];
    Otp.ActiveCountInvalidate(otps, user, user, now);
    Otp.ActiveCountAppend(Otp.InvalidateAllUserOtps(otps, user, now), [Otp.NewOtp(user, code, now, Otp.DefaultExpiryMinutes)], user, now);
    assert Otp.ActiveCount([Otp.NewOtp(user, code, now, Otp.DefaultExpiryMinutes)], user, now) == 1;
    var latest := Otp.GetLatestValidOtp(r, user, now);
    assert Otp.Candidate(r[|otps|], user, now);
    assert latest.Some?;
    assert forall i :: 0 <= i < |otps| ==> !Otp.Candidate(r[i], user, now);
    r
  }

  /** `forgot_password`.  `emailConfigured` is the mail service's
      `is_configured()`, `draws` the six secure-random digits. */
  function ForgotPassword(
    db: Accounts.Db, email: Option<string>, emailConfigured: bool, draws: Otp.OtpDraws, now: nat): (o: Outcome)
    ensures email.None? ==> o == Outcome(db, Http.Error(400, "Email required"))
    // the same reply whether or not the account exists
    ensures email.Some? ==> o.response == ForgotPasswordReply()
    // nothing is issued unless the account exists and mail is configured
    ensures email.Some? && (Accounts.FindUserByEmail(db.users, email.value).None? || !emailConfigured) ==> o.db == db
    ensures email.Some? && Accounts.FindUserByEmail(db.users, email.value).Some? && emailConfigured ==>
      o.db == db.(otps := IssueOtp(db.otps, db.users[Accounts.FindUserByEmail(db.users, email.value).value].ulid,
                                   Otp.GenerateOtp(draws), now))
  {
    if email.None? then Outcome(db, Http.Error(400, "Email required"))
    else
      var k := Accounts.FindUserByEmail(db.users, email.value);
      if k.Some? && emailConfigured then
        var user := db.users[k.value].ulid;
        Outcome(db.(otps := IssueOtp(db.otps, user, Otp.GenerateOtp(draws), now)), ForgotPasswordReply())
      else Outcome(db, ForgotPasswordReply())
  }

  // ---------------------------------------------------------------------
  // verify-reset-otp
  // ---------------------------------------------------------------------

  /** The user and code a verify or reset request is checked against. */
  predicate CodeMatches(db: Accounts.Db, email: string, code: string, now: nat) {
    var k := Accounts.FindUserByEmail(db.users, email);
    && k.Some?
    && var latest := Otp.GetLatestValidOtp(db.otps, db.users[k.value].ulid, now);
    && latest.Some?
    && db.otps[latest.value].code == code
  }

  /** `verify_reset_otp`: checks the submitted code against the latest valid
      code of the user, and never writes. */
  function VerifyResetOtp(
    db: Accounts.Db, email: Option<string>, code: Option<string>, emailValid: bool, now: nat): (o: Outcome)
    ensures o.db == db
    ensures o.response.status == 200 <==>
      email.Some? && code.Some? && emailValid && CodeMatches(db, email.value, code.value, now)
    ensures o.response.status == 200 ==> o.response == OtpVerifiedReply()
  {
    if email.None? || code.None? then Outcome(db, Http.Error(400, "Email and OTP code required"))
    else if !emailValid then Outcome(db, Http.Error(400, "Invalid email format"))
    else
      var k := Accounts.FindUserByEmail(db.users, email.value);
      if k.None? then Outcome(db, Http.Error(404, "User not found"))
      else
        var latest := Otp.GetLatestValidOtp(db.otps, db.users[k.value].ulid, now);
        if latest.None? then Outcome(db, Http.Error(400, NoValidOtpText))
        else if db.otps[latest.value].code != code.value then Outcome(db, Http.Error(400, InvalidOtpText))
        else Outcome(db, OtpVerifiedReply())
  }

  // ---------------------------------------------------------------------
  // reset-password
  // ---------------------------------------------------------------------

  datatype ResetForm = ResetForm(email: Option<string>, otpCode: Option<string>, newPassword: Option<string>)

  /** `reset_password`: validates the new password and the user before it
      looks at codes; on success marks the matched code used and replaces
      the password hash, in one commit. */
  function ResetPassword(db: Accounts.Db, form: ResetForm, emailValid: bool, now: nat): (o: Outcome)
    ensures o.response.status == 200 <==>
      && form.email.Some? && form.otpCode.Some? && form.newPassword.Some?
      && emailValid && ValidatePassword(form.newPassword.value)
      && CodeMatches(db, form.email.value, form.otpCode.value, now)
    ensures o.response.status != 200 ==> o.db == db
    // the user table keeps its shape; the ledger is untouched
    ensures |o.db.users| == |db.users| && |o.db.otps| == |db.otps| && o.db.ledger == db.ledger
    ensures forall i :: 0 <= i < |db.users| ==> o.db.users[i].email == db.users[i].email && o.db.users[i].ulid == db.users[i].ulid
    ensures o.response.status == 200 ==>
      var k := Accounts.FindUserByEmail(db.users, form.email.value).value;
      var j := Otp.GetLatestValidOtp(db.otps, db.users[k].ulid, now).value;
      && o.db.otps == db.otps[j := Otp.MarkAsUsed(db.otps[j], now)]
      && Accounts.CheckPasswordHash(o.db.users[k].passwordHash, form.newPassword.value)
      && o.db.users[k].updatedAt == now
      // only the hash and `updated_at` of that user change
      && o.db.users[k] == db.users[k].(passwordHash := Accounts.GeneratePasswordHash(form.newPassword.value), updatedAt := now)
      && (forall i :: 0 <= i < |db.users| && i != k ==> o.db.users[i] == db.users[i])
  {
    if form.email.None? || form.otpCode.None? || form.newPassword.None? then
      Outcome(db, Http.Error(400, "Email, OTP code, and new password required"))
    else if !emailValid then Outcome(db, Http.Error(400, "Invalid email format"))
    else if !ValidatePassword(form.newPassword.value) then Outcome(db, Http.Error(400, NewPasswordRuleText))
    else
      var k := Accounts.FindUserByEmail(db.users, form.email.value);
      if k.None? then Outcome(db, Http.Error(404, "User not found"))
      else
        var user := db.users[k.value];
        var latest := Otp.GetLatestValidOtp(db.otps, user.ulid, now);
        if latest.None? then Outcome(db, Http.Error(400, NoValidOtpText))
        else if db.otps[latest.value].code != form.otpCode.value then Outcome(db, Http.Error(400, InvalidOtpText))
        else
          var otps := db.otps[latest.value := Otp.MarkAsUsed(db.otps[latest.value], now)];
          var updated := user.(passwordHash := Accounts.GeneratePasswordHash(form.newPassword.value), updatedAt := now);
          Outcome(db.(users := db.users[k.value := updated], otps := otps),
                  Http.Message(200, "Password reset successfully"))
  }

  // ---------------------------------------------------------------------
  // logout
  // ---------------------------------------------------------------------

  /** The decoded claims of the bearer token (`get_jwt()` and
      `get_jwt_identity()`); `exp` is in seconds since the epoch. */
  datatype TokenClaims = TokenClaims(jti: string, tokenType: string, exp: nat, identity: string)

  /** The steps of `logout` given the `expires_at` value to store. */
  function LogoutStoring(db: Accounts.Db, claims: TokenClaims, expiresAt: nat, now: nat): (o: Outcome)
    ensures o.response.status == 200 <==> !Blocklist.IsJtiBlocklisted(db.ledger, claims.jti)
    ensures o.response.status == 200 ==>
      o.db == db.(ledger := db.ledger + [Blocklist.RevokedToken(claims.jti, claims.tokenType, claims.identity, now, expiresAt)])
    // an insert the store refuses is rolled back and reported as 400
    ensures o.response.status != 200 ==> o == Outcome(db, Http.Error(400, "Logout failed"))
  {
    match Blocklist.AddTokenToBlocklist(db.ledger, claims.jti, claims.tokenType, claims.identity, expiresAt, now)
    case Failure(_) => Outcome(db, Http.Error(400, "Logout failed"))
    case Success(ledger) => Outcome(db.(ledger := ledger), Http.Message(200, "Successfully logged out"))
  }

  /** `datetime.fromtimestamp(exp)` on a host whose local clock is
      `utcOffset` seconds ahead of UTC: a naive local-time reading. */
  function LocalReading(exp: nat, utcOffset: int): nat
    requires exp + utcOffset >= 0
  {
    exp + utcOffset
  }

  /** `logout` exactly as written: `expires_at` is the local-time reading
      of `exp`, later compared with UTC by the sweep. */
  function LogoutAsWritten(db: Accounts.Db, claims: TokenClaims, utcOffset: int, now: nat): (o: Outcome)
    requires claims.exp + utcOffset >= 0
    ensures o.response.status == 200 ==>
      |o.db.ledger| == |db.ledger| + 1 && o.db.ledger[|db.ledger|].expiresAt == claims.exp + utcOffset
  {
    LogoutStoring(db, claims, LocalReading(claims.exp, utcOffset), now)
  }

  /** `logout` storing the UTC instant of `exp`, the clock the sweep uses. */
  function Logout(db: Accounts.Db, claims: TokenClaims, now: nat): (o: Outcome)
    ensures o.response.status == 200 ==>
      && Blocklist.IsJtiBlocklisted(o.db.ledger, claims.jti)
      && |o.db.ledger| == |db.ledger| + 1
      && o.db.ledger[|db.ledger|].expiresAt == claims.exp
      && o.db.users == db.users && o.db.otps == db.otps
    ensures o.response.status != 200 ==> o.db == db
  {
    LogoutStoring(db, claims, claims.exp, now)
  }
}

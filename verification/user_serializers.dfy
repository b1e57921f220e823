/**
 * The request validators and state updates of users/serializers.py: signup
 * normalisation and uniqueness, the profile form and its field rule, the
 * photo step, the login gate, and password reset.
 */
module UserSerializers {
  import opened Wrappers
  import opened Text
  import opened Errors
  import opened Utility
  import opened UserModels

  /**
   * The first user satisfying `p`, in the order the table returns them: for
   * an unordered query, primary-key order.
   */
  function First(users: seq<User>, p: User -> bool): (r: Option<User>)
    ensures r.None? <==> forall i :: 0 <= i < |users| ==> !p(users[i])
    ensures r.Some? ==>
      (exists k :: 0 <= k < |users| && users[k] == r.value && p(r.value) && forall j :: 0 <= j < k ==> !p(users[j]))
  {
    if |users| == 0 then None
    else if p(users[0]) then Some(users[0])
    else
      var r := First(users[1..], p);
      if r.Some? then
        var k :| 0 <= k < |users[1..]| && users[1..][k] == r.value && p(r.value)
          && forall j :: 0 <= j < k ==> !p(users[1..][j]);
        assert users[k + 1] == r.value;
        r
      else
        r
  }

  /** A message to the notifier: where a code goes (absent when the account has no address) and the code. */
  datatype Notice = Notice(destination: Option<string>, code: string)

  // ------------------------------------------------------------------ signup

  predicate EmailRegistered(users: seq<User>, v: string) {
    exists i :: 0 <= i < |users| && users[i].email == Some(v)
  }

  predicate PhoneRegistered(users: seq<User>, v: string) {
    exists i :: 0 <= i < |users| && users[i].phone == Some(v)
  }

  /**
   * `SignUpSerializer.validate_email_phone_number`: the lower-cased value is
   * refused when an account already has it as email (checked first) or as
   * phone number; otherwise the lower-cased value replaces the input.
   */
  function ValidateEmailPhoneNumber(users: seq<User>, value: string): (r: Result<string, Error>)
    ensures r.Success? ==> r.value == Lower(value)
    ensures r.Failure? <==>
      Lower(value) != "" && (EmailRegistered(users, Lower(value)) || PhoneRegistered(users, Lower(value)))
    ensures r.Failure? && EmailRegistered(users, Lower(value)) ==> r.error == ValidationError(EmailTaken)
    ensures r.Failure? && !EmailRegistered(users, Lower(value)) ==> r.error == ValidationError(PhoneTaken)
  {
    var v := Lower(value);
    if v != "" && EmailRegistered(users, v) then Failure(ValidationError(EmailTaken))
    else if v != "" && PhoneRegistered(users, v) then Failure(ValidationError(PhoneTaken))
    else Success(v)
  }

  /** The data signup keeps: exactly one identifier, and the channel it implies. */
  datatype SignupData = SignupData(email: Option<string>, phone: Option<string>, authType: Tag)

  /** Python's `str(x)` of the submitted field: `"None"` when it was not sent. */
  function PythonStr(input: Option<string>): string {
    match input
    case None => "None"
    case Some(s) => s
  }

  /** `"none"` is neither an email nor a phone number. */
  lemma NoneIsNoIdentifier()
    ensures !EmailPattern(Lower("None")) && !IsPhone(Lower("None"))
  {
    var s := Lower("None");
    EmailRecogniserMatchesPattern(s);
    assert '@' !in s;
    assert !IsPhoneChar(s[0]);
    if IsPhone(s) {
      PhoneShape(s);
    }
  }

  /**
   * `SignUpSerializer.auth_validate`: lower-case the submitted text, classify
   * it, and keep `{email, VIA_EMAIL}` or `{phone_number, VIA_PHONE}` and
   * nothing else.
   */
  function AuthValidate(input: Option<string>): (r: Result<SignupData, Error>)
    ensures var v := Lower(PythonStr(input));
      && (r.Success? <==> EmailPattern(v) || IsPhone(v))
      && (r.Failure? ==> r.error == ValidationError(BadEmailOrPhone))
      && (EmailPattern(v) ==> r == Success(SignupData(Some(v), None, ViaEmail)))
      && (IsPhone(v) ==> r == Success(SignupData(None, Some(v), ViaPhone)))
    ensures input.None? ==> r.Failure?
  {
    NoneIsNoIdentifier();
    var v := Lower(PythonStr(input));
    var kind :- CheckEmailOrPhone(v);
    match kind
    case EmailInput => Success(SignupData(Some(v), None, ViaEmail))
    case PhoneInput => Success(SignupData(None, Some(v), ViaPhone))
  }

  /** What a successful signup produces: the new account, the ledger with its first code, the notice. */
  datatype Registration = Registration(user: User, ledger: seq<Confirmation>, notice: Notice)

  /** Some account already has exactly this username: the column is unique. */
  predicate UsernameTaken(users: seq<User>, name: string) {
    exists i :: 0 <= i < |users| && users[i].username == name
  }

  /** The checks signup makes before anything is stored. */
  ghost predicate SignUpValid(users: seq<User>, input: Option<string>) {
    && input.Some?
    && ValidateEmailPhoneNumber(users, input.value).Success?
    && (EmailPattern(Lower(input.value)) || IsPhone(Lower(input.value)))
  }

  /**
   * Signup end to end: the optional field's own checks when it was sent (a
   * blank value is refused, then `validate_email_phone_number`), then
   * `auth_validate`, then `SignUpSerializer.create`, which stores the new
   * account and issues one code on its channel, sent to its identifier.
   * `username` is the name the new row is stored with: `create` sets none,
   * so as written it is the column's default `""`. The unique constraint on
   * the column refuses a name already taken with an `IntegrityError`.
   */
  function SignUp(users: seq<User>, ledger: seq<Confirmation>, input: Option<string>, id: UserId,
                  username: string, draws: seq<int>, now: Time): (r: Result<Registration, Error>)
    requires ValidDraws(draws)
    ensures r.Success? <==> SignUpValid(users, input) && !UsernameTaken(users, username)
    ensures SignUpValid(users, input) && UsernameTaken(users, username) ==> r == Failure(IntegrityError)
    ensures input.None? ==> r == Failure(ValidationError(BadEmailOrPhone))
    ensures input == Some("") ==> r == Failure(ValidationError(FieldBlank))
    ensures input.Some? && input.value != "" && ValidateEmailPhoneNumber(users, input.value).Failure? ==>
      r == Failure(ValidateEmailPhoneNumber(users, input.value).error)
    ensures input.Some? && ValidateEmailPhoneNumber(users, input.value).Success?
      && !EmailPattern(Lower(input.value)) && !IsPhone(Lower(input.value)) && input.value != ""
      ==> r == Failure(ValidationError(BadEmailOrPhone))
    ensures r.Success? ==>
      var v := Lower(input.value);
      var u := r.value.user;
      && u.id == id && u.authStatus == New && u.userType == OrdinaryUser && u.username == username
      && (EmailPattern(v) <==> u.email == Some(v) && u.phone == None && u.authType == ViaEmail)
      && (IsPhone(v) <==> u.phone == Some(v) && u.email == None && u.authType == ViaPhone)
      && r.value.notice.destination == Some(v)
    ensures r.Success? ==>
      var l := r.value.ledger;
      && |l| == |ledger| + 1 && l[..|ledger|] == ledger
      && l[|ledger|] == Create(id, r.value.user.authType, r.value.notice.code, now)
      && |r.value.notice.code| == 4 && AllDigits(r.value.notice.code)
  {
    var value: Option<string> :-
      match input
      case None => Success(None)
      case Some(s) =>
        if s == "" then Failure(ValidationError(FieldBlank)) else
        match ValidateEmailPhoneNumber(users, s)
        case Success(v) => Success(Some(v))
        case Failure(e) => Failure(e);
    LowerIdempotent(PythonStr(input));
    var data :- AuthValidate(value);
    EmailPhoneDisjoint(Lower(PythonStr(input)));
    EmailRecogniserMatchesPattern(Lower(PythonStr(input)));
    if UsernameTaken(users, username) then Failure(IntegrityError) else
    var user := DefaultUser(id).(username := username, email := data.email, phone := data.phone, authType := data.authType);
    var issued := CreateVerifyType(id, ledger, data.authType, draws, now);
    var destination := if data.authType == ViaEmail then user.email else user.phone;
    Success(Registration(user, issued.1, Notice(destination, issued.0)))
  }

  /** An account added to the table holds its address, and its non-empty address counts as registered. */
  lemma NewAccountHoldsAddress(users: seq<User>, ledger: seq<Confirmation>, input: Option<string>, id: UserId,
                               username: string, draws: seq<int>, now: Time)
    requires ValidDraws(draws)
    requires SignUpValid(users, input) && !UsernameTaken(users, username)
    ensures var reg := SignUp(users, ledger, input, id, username, draws, now).value;
      var v := Lower(input.value);
      && v != ""
      && (EmailRegistered(users + [reg.user], v) || PhoneRegistered(users + [reg.user], v))
      && UsernameTaken(users + [reg.user], username)
  {
    var reg := SignUp(users, ledger, input, id, username, draws, now).value;
    var all := users + [reg.user];
    var v := Lower(input.value);
    assert all[|users|] == reg.user;
    if EmailPattern(v) {
      assert reg.user.email == Some(v);
      assert EmailRegistered(all, v);
    } else {
      assert reg.user.phone == Some(v);
      assert PhoneRegistered(all, v);
    }
    assert v != "" by {
      if v == "" {
        EmailRecogniserMatchesPattern(v);
        if IsPhone(v) { PhoneShape(v); }
      }
    }
  }

  /**
   * Once an address has signed up, signing it up again is refused, in any
   * mix of upper and lower case: the new account holds the lower-cased
   * address, so `validate_email_phone_number` finds it.
   */
  lemma SignUpTwiceRefused(users: seq<User>, ledger: seq<Confirmation>, input: Option<string>, id: UserId,
                           username: string, draws: seq<int>, now: Time,
                           input2: Option<string>, id2: UserId, username2: string, draws2: seq<int>, later: Time)
    requires ValidDraws(draws) && ValidDraws(draws2)
    requires SignUpValid(users, input) && !UsernameTaken(users, username)
    requires input2.Some? && Lower(input2.value) == Lower(input.value)
    ensures var reg := SignUp(users, ledger, input, id, username, draws, now).value;
      SignUp(users + [reg.user], reg.ledger, input2, id2, username2, draws2, later).Failure?
  {
    NewAccountHoldsAddress(users, ledger, input, id, username, draws, now);
  }

  /**
   * As written, every account is stored with the username `""`, so once one
   * account exists every further signup that passes validation fails on the
   * unique username.
   */
  lemma BlankUsernameBlocksSecondSignUp(users: seq<User>, ledger: seq<Confirmation>, input: Option<string>, id: UserId,
                                        draws: seq<int>, now: Time,
                                        input2: Option<string>, id2: UserId, draws2: seq<int>, later: Time)
    requires ValidDraws(draws) && ValidDraws(draws2)
    requires SignUpValid(users, input) && !UsernameTaken(users, "")
    ensures var reg := SignUp(users, ledger, input, id, "", draws, now).value;
      var again := SignUp(users + [reg.user], reg.ledger, input2, id2, "", draws2, later);
      && again.Failure?
      && (SignUpValid(users + [reg.user], input2) ==> again == Failure(IntegrityError))
  {
    NewAccountHoldsAddress(users, ledger, input, id, "", draws, now);
  }

  /**
   * With a fresh username per account, the first signup leaves the door open:
   * any other address that passes validation signs up next.
   */
  lemma FreshUsernameSignUpSucceeds(users: seq<User>, ledger: seq<Confirmation>, input: Option<string>, id: UserId,
                                    username: string, draws: seq<int>, now: Time,
                                    input2: Option<string>, id2: UserId, username2: string, draws2: seq<int>, later: Time)
    requires ValidDraws(draws) && ValidDraws(draws2)
    requires SignUpValid(users, input) && !UsernameTaken(users, username)
    requires username2 != username && !UsernameTaken(users, username2)
    ensures var reg := SignUp(users, ledger, input, id, username, draws, now).value;
      var again := SignUp(users + [reg.user], reg.ledger, input2, id2, username2, draws2, later);
      again.Success? <==> SignUpValid(users + [reg.user], input2)
  {
  }

  // ------------------------------------------------------------ profile form

  /** `ChangeUserInfoSerializer.check`: 5 to 30 characters, and not digits only. */
  predicate ValidName(s: string) { 5 <= |s| <= 30 && !IsNumeric(s) }

  /** `ChangeUserInfoSerializer.check`: length first, then the all-digits test; a valid value comes back unchanged. */
  function CheckName(data: string): (r: Result<string, Error>)
    ensures r.Success? <==> ValidName(data)
    ensures r.Success? ==> r.value == data
    ensures (|data| < 5 || |data| > 30) ==> r == Failure(ValidationError(FieldLength))
    ensures 5 <= |data| <= 30 && IsNumeric(data) ==> r == Failure(ValidationError(EntirelyNumeric))
  {
    if 5 > |data| || |data| > 30 then Failure(ValidationError(FieldLength))
    else if IsNumeric(data) then Failure(ValidationError(EntirelyNumeric))
    else Success(data)
  }

  /** The profile form as sent; a field that was not sent is `None`. */
  datatype InfoForm = InfoForm(
    firstName: Option<string>,
    lastName: Option<string>,
    username: Option<string>,
    password: Option<string>,
    confirmPassword: Option<string>)

  /** Text fields refuse the empty string before the form's own validation runs. */
  predicate HasBlank(f: InfoForm) {
    || f.firstName == Some("") || f.lastName == Some("") || f.username == Some("")
    || f.password == Some("") || f.confirmPassword == Some("")
  }

  /** Some field was not sent. */
  predicate HasMissing(f: InfoForm) {
    || f.firstName.None? || f.lastName.None? || f.username.None?
    || f.password.None? || f.confirmPassword.None?
  }

  predicate OptionalName(o: Option<string>) { o.None? || ValidName(o.value) }

  /**
   * `ChangeUserInfoSerializer` on a `PUT` (`partial` false) or a `PATCH`
   * (`partial` true). The field checks run first: on a `PUT` every field is
   * required, and no sent field may be blank. Then `validate` runs: the
   * password must equal its confirmation before anything else is looked at;
   * a sent password must pass the strength policy (`passwordAccepted` is its
   * verdict); each sent name must pass `check`.
   */
  function ValidateInfo(f: InfoForm, partial: bool, passwordAccepted: bool): (r: Result<InfoForm, Error>)
    ensures !partial && HasMissing(f) ==> r == Failure(ValidationError(FieldRequired))
    ensures (partial || !HasMissing(f)) && HasBlank(f) ==> r == Failure(ValidationError(FieldBlank))
    ensures (partial || !HasMissing(f)) && !HasBlank(f) && f.password != f.confirmPassword
      ==> r == Failure(ValidationError(PasswordMismatch))
    ensures r.Success? <==>
      && (partial || !HasMissing(f))
      && !HasBlank(f) && f.password == f.confirmPassword
      && (f.password.Some? ==> passwordAccepted)
      && OptionalName(f.firstName) && OptionalName(f.lastName) && OptionalName(f.username)
    ensures r.Success? ==> r.value == f
  {
    if !partial && HasMissing(f) then Failure(ValidationError(FieldRequired))
    else if HasBlank(f) then Failure(ValidationError(FieldBlank))
    else if f.password != f.confirmPassword then Failure(ValidationError(PasswordMismatch))
    else if f.password.Some? && !passwordAccepted then Failure(ValidationError(PasswordRejected))
    else
      var _ :- if f.firstName.Some? then CheckName(f.firstName.value) else Success("");
      var _ :- if f.lastName.Some? then CheckName(f.lastName.value) else Success("");
      var _ :- if f.username.Some? then CheckName(f.username.value) else Success("");
      Success(f)
  }

  /** The status change a completed profile makes: `VERIFY_CODE` becomes `DONE`, nothing else moves. */
  function AfterProfile(s: AuthStatus): (r: AuthStatus)
    ensures s == VerifyCode ==> r == Done
    ensures s != VerifyCode ==> r == s
    ensures Rank(s) <= Rank(r)
  {
    if s == VerifyCode then Done else s
  }

  /**
   * `ChangeUserInfoSerializer.update`: sent fields replace stored ones, a sent
   * password is stored hashed, and the status advances from `VERIFY_CODE`.
   */
  function UpdateInfo(u: User, f: InfoForm): (r: User)
    ensures r.id == u.id && r.email == u.email && r.phone == u.phone && r.authType == u.authType
    ensures r.images == u.images && r.userType == u.userType
    ensures r.firstName == f.firstName.GetOr(u.firstName) && r.lastName == f.lastName.GetOr(u.lastName)
    ensures r.username == f.username.GetOr(u.username)
    ensures r.password == (if f.password.Some? then Hashed(f.password.value) else u.password)
    ensures r.authStatus == AfterProfile(u.authStatus)
  {
    u.(firstName := f.firstName.GetOr(u.firstName),
       lastName := f.lastName.GetOr(u.lastName),
       username := f.username.GetOr(u.username),
       password := if f.password.Some? then Hashed(f.password.value) else u.password,
       authStatus := AfterProfile(u.authStatus))
  }

  /**
   * The profile request (`PUT` or, with `partial`, `PATCH`): validate the form,
   * then apply it. The serializer has no uniqueness check of its own, so a
   * username already held by one of the `others` (every account but `u`)
   * passes validation and is refused by the unique column when `save` runs,
   * with nothing stored.
   */
  function ChangeUserInfo(u: User, others: seq<User>, f: InfoForm, partial: bool, passwordAccepted: bool)
    : (r: Result<User, Error>)
    ensures r.Success? <==>
      ValidateInfo(f, partial, passwordAccepted).Success? && !UsernameTaken(others, f.username.GetOr(u.username))
    ensures ValidateInfo(f, partial, passwordAccepted).Success? && UsernameTaken(others, f.username.GetOr(u.username))
      ==> r == Failure(IntegrityError)
    ensures ValidateInfo(f, partial, passwordAccepted).Failure?
      ==> r == Failure(ValidateInfo(f, partial, passwordAccepted).error)
    ensures !partial && HasMissing(f) ==> r == Failure(ValidationError(FieldRequired))
    ensures r.Success? ==> r.value == UpdateInfo(u, f)
    ensures r.Success? && u.authStatus == VerifyCode ==> r.value.authStatus == Done
    ensures r.Success? && u.authStatus != VerifyCode ==> r.value.authStatus == u.authStatus
  {
    var form :- ValidateInfo(f, partial, passwordAccepted);
    var updated := UpdateInfo(u, form);
    if UsernameTaken(others, updated.username) then Failure(IntegrityError) else Success(updated)
  }

  // ------------------------------------------------------------------- photo

  const UserImageExtensions: seq<string> := ["jpg", "jpeg", "png", "heic", "heif"]

  /**
   * `ChangeUserPhotoSerializer.update`: with an image the status becomes
   * `PHOTO_DONE` from any status. The image is assigned to an attribute
   * `image`, while the stored field is `images`, so the stored image does not
   * change.
   */
  function UpdatePhoto(u: User, image: Option<string>): (r: User)
    ensures image.Some? ==> r.authStatus == PhotoDone
    ensures image.None? ==> r == u
    ensures r == u.(authStatus := r.authStatus)
  {
    if image.Some? then u.(authStatus := PhotoDone) else u
  }

  /** The photo request: the image is required and its extension must be allowed. */
  function ChangeUserImage(u: User, image: Option<string>): (r: Result<User, Error>)
    ensures r.Success? <==> image.Some? && FileExtension(image.value) in UserImageExtensions
    ensures image.None? ==> r == Failure(ValidationError(ImageRequired))
    ensures r.Success? ==> r.value == u.(authStatus := PhotoDone)
  {
    match image
    case None => Failure(ValidationError(ImageRequired))
    case Some(name) =>
      if FileExtension(name) in UserImageExtensions then Success(UpdatePhoto(u, image))
      else Failure(ValidationError(BadExtension))
  }

  // ------------------------------------------------------------------- login

  /** The verdict of the username/email/phone classifier login relies on. */
  datatype LoginKind = ByUsername | ByEmail | ByPhone | Unrecognised

  datatype LoginGrant = LoginGrant(user: UserId, status: AuthStatus)

  predicate Unfinished(s: AuthStatus) { s == New || s == VerifyCode }

  predicate MayLogIn(s: AuthStatus) { s == Done || s == PhotoDone }

  /** The account whose username equals `name` ignoring case, first in table order. */
  function FindByUsernameIExact(users: seq<User>, name: string): Option<User> {
    First(users, (u: User) => Lower(u.username) == Lower(name))
  }

  /** The account whose username is exactly `name`: the one `authenticate` checks. */
  function FindByUsername(users: seq<User>, name: string): Option<User> {
    First(users, (u: User) => u.username == name)
  }

  /** `email__iexact`: the account's email equals `email` ignoring case. */
  predicate EmailIs(u: User, email: string) { u.email.Some? && Lower(u.email.value) == Lower(email) }

  function FindByEmailIExact(users: seq<User>, email: string): Option<User> {
    First(users, (u: User) => EmailIs(u, email))
  }

  function FindByPhone(users: seq<User>, phone: string): Option<User> {
    First(users, (u: User) => u.phone == Some(phone))
  }

  /**
   * The username login goes on with, resolved from the input by its kind: a
   * username is used as given; an email or phone number is looked up
   * (`get_user`), and the first matching account's username is used.
   */
  function ResolveUsername(users: seq<User>, input: string, kind: LoginKind): (r: Result<string, Error>)
    ensures kind == ByUsername ==> r == Success(input)
    ensures kind == Unrecognised ==> r == Failure(ValidationError(NeedIdentifier))
    ensures kind == ByEmail ==>
      && (r.Failure? <==> forall i :: 0 <= i < |users| ==> !EmailIs(users[i], input))
      && (r.Failure? ==> r.error == ValidationError(NoActiveAccount))
      && (r.Success? ==>
            exists k :: 0 <= k < |users| && EmailIs(users[k], input)
              && r.value == users[k].username && (forall j :: 0 <= j < k ==> !EmailIs(users[j], input)))
    ensures kind == ByPhone ==>
      && (r.Failure? <==> forall i :: 0 <= i < |users| ==> users[i].phone != Some(input))
      && (r.Failure? ==> r.error == ValidationError(NoActiveAccount))
      && (r.Success? ==>
            exists k :: 0 <= k < |users| && users[k].phone == Some(input)
              && r.value == users[k].username && (forall j :: 0 <= j < k ==> users[j].phone != Some(input)))
  {
    match kind
    case ByUsername => Success(input)
    case ByEmail =>
      (match FindByEmailIExact(users, input)
       case None => Failure(ValidationError(NoActiveAccount))
       case Some(u) => Success(u.username))
    case ByPhone =>
      (match FindByPhone(users, input)
       case None => Failure(ValidationError(NoActiveAccount))
       case Some(u) => Success(u.username))
    case Unrecognised => Failure(ValidationError(NeedIdentifier))
  }

  /**
   * `LoginSerializer.validate`: resolve the username; refuse an account that
   * has not finished registration before the password is looked at; then
   * authenticate (the account with exactly that username, for which
   * `passwordMatches` holds) and refuse every status but `DONE` and
   * `PHOTO_DONE`.
   */
  function Login(users: seq<User>, input: string, kind: LoginKind, passwordMatches: User -> bool)
    : (r: Result<LoginGrant, Error>)
    ensures r.Success? ==> MayLogIn(r.value.status)
    ensures r.Success? ==>
      (exists i :: 0 <= i < |users| && users[i].id == r.value.user
        && users[i].authStatus == r.value.status && passwordMatches(users[i]))
  {
    var username :- ResolveUsername(users, input, kind);
    var current := FindByUsernameIExact(users, username);
    if current.Some? && Unfinished(current.value.authStatus) then
      Failure(ValidationError(NotFullyRegistered))
    else
      match FindByUsername(users, username)
      case None => Failure(ValidationError(BadCredentials))
      case Some(u) =>
        if !passwordMatches(u) then Failure(ValidationError(BadCredentials))
        else if !MayLogIn(u.authStatus) then Failure(PermissionDenied)
        else Success(LoginGrant(u.id, u.authStatus))
  }

  /** An unfinished account is refused whatever password is given. */
  lemma UnfinishedRefusedBeforePassword(users: seq<User>, name: string, p: User -> bool, q: User -> bool)
    requires FindByUsernameIExact(users, name).Some?
    requires Unfinished(FindByUsernameIExact(users, name).value.authStatus)
    ensures Login(users, name, ByUsername, p) == Failure(ValidationError(NotFullyRegistered))
    ensures Login(users, name, ByUsername, p) == Login(users, name, ByUsername, q)
  {
  }

  /** No two accounts have usernames equal ignoring case. */
  ghost predicate UsernamesDistinct(users: seq<User>) {
    forall i, j :: 0 <= i < |users| && 0 <= j < |users| && Lower(users[i].username) == Lower(users[j].username)
      ==> i == j
  }

  /** A finished account with the right password logs in by username, and gets its own status back. */
  lemma FinishedAccountLogsIn(users: seq<User>, k: nat, p: User -> bool)
    requires UsernamesDistinct(users)
    requires k < |users| && MayLogIn(users[k].authStatus) && p(users[k])
    ensures Login(users, users[k].username, ByUsername, p) == Success(LoginGrant(users[k].id, users[k].authStatus))
  {
    var u := users[k];
    var current := FindByUsernameIExact(users, u.username);
    assert current == Some(u);
    var found := FindByUsername(users, u.username);
    assert found == Some(u);
  }

  // --------------------------------------------------------- forgot password

  predicate HasEmailOrPhone(u: User, input: string) {
    || (u.phone.Some? && Lower(u.phone.value) == Lower(input))
    || (u.email.Some? && Lower(u.email.value) == Lower(input))
  }

  /**
   * `ForgetPasswordSerializer`: the field is required and may not be blank,
   * which the field itself enforces before `validate` runs (so the
   * `validate`'s own test for a missing value never fires); the account is
   * the first whose phone number or email equals the input ignoring case.
   */
  function ForgetPasswordLookup(users: seq<User>, input: Option<string>): (r: Result<User, Error>)
    ensures input.None? ==> r == Failure(ValidationError(FieldRequired))
    ensures input == Some("") ==> r == Failure(ValidationError(FieldBlank))
    ensures r.Success? ==> input.Some? && r.value in users && HasEmailOrPhone(r.value, input.value)
    ensures r == Failure(NotFound) <==>
      input.Some? && input.value != "" && forall i :: 0 <= i < |users| ==> !HasEmailOrPhone(users[i], input.value)
  {
    if input.None? then Failure(ValidationError(FieldRequired))
    else if input.value == "" then Failure(ValidationError(FieldBlank))
    else
      match First(users, (u: User) => HasEmailOrPhone(u, input.value))
      case None => Failure(NotFound)
      case Some(u) => Success(u)
  }

  // ---------------------------------------------------------- reset password

  const MinPasswordLength: nat := 8

  /**
   * `ResetPasswordSerializer`: both fields non-blank (a `CharField` refuses a
   * blank value before its `min_length` validator runs), at least 8
   * characters, equal to each other, accepted by the strength policy; the
   * password is stored hashed and nothing else, the status included, changes.
   */
  function ResetPassword(u: User, password: string, confirmPassword: string, passwordAccepted: bool)
    : (r: Result<User, Error>)
    ensures r.Success? <==>
      |password| >= MinPasswordLength && |confirmPassword| >= MinPasswordLength
      && password == confirmPassword && passwordAccepted
    ensures password == "" || confirmPassword == "" ==> r == Failure(ValidationError(FieldBlank))
    ensures password != "" && confirmPassword != ""
      && (|password| < MinPasswordLength || |confirmPassword| < MinPasswordLength)
      ==> r == Failure(ValidationError(PasswordTooShort))
    ensures |password| >= MinPasswordLength && |confirmPassword| >= MinPasswordLength && password != confirmPassword
      ==> r == Failure(ValidationError(PasswordMismatch))
    ensures r.Success? ==> r.value == u.(password := Hashed(password))
    ensures r.Success? ==> r.value.authStatus == u.authStatus
  {
    if password == "" || confirmPassword == "" then Failure(ValidationError(FieldBlank))
    else if |password| < MinPasswordLength || |confirmPassword| < MinPasswordLength then
      Failure(ValidationError(PasswordTooShort))
    else if password != confirmPassword then Failure(ValidationError(PasswordMismatch))
    else if !passwordAccepted then Failure(ValidationError(PasswordRejected))
    else Success(u.(password := Hashed(password)))
  }
}

/**
 * The code-verification views of users/views.py: verifying a submitted code,
 * refusing or issuing a new one, and the forgot-password code; plus the
 * properties that tie them to the record and serializer layers.
 */
module UserViews {
  import opened Wrappers
  import opened Text
  import opened Errors
  import opened Utility
  import opened UserModels
  import opened UserSerializers

  /** A record `check_verify` accepts: this user's, this code, not yet confirmed, expiring at or after `now`. */
  predicate Redeemable(c: Confirmation, owner: UserId, code: string, now: Time) {
    c.owner == owner && c.code == code && !c.isConfirmed && c.expiration.Some? && c.expiration.value >= now
  }

  /** A record that blocks a resend: this user's, not yet confirmed, expiring at or after `now`. */
  predicate Outstanding(c: Confirmation, owner: UserId, now: Time) {
    c.owner == owner && !c.isConfirmed && c.expiration.Some? && c.expiration.value >= now
  }

  predicate HasRedeemable(ledger: seq<Confirmation>, owner: UserId, code: string, now: Time) {
    exists i :: 0 <= i < |ledger| && Redeemable(ledger[i], owner, code, now)
  }

  predicate HasOutstanding(ledger: seq<Confirmation>, owner: UserId, now: Time) {
    exists i :: 0 <= i < |ledger| && Outstanding(ledger[i], owner, now)
  }

  /** `verifies.update(is_confirmed=True)`: every redeemable record is confirmed, every other one is kept. */
  function ConfirmMatching(ledger: seq<Confirmation>, owner: UserId, code: string, now: Time)
    : (r: seq<Confirmation>)
    ensures |r| == |ledger|
    ensures forall i :: 0 <= i < |ledger| && Redeemable(ledger[i], owner, code, now) ==>
      r[i] == ledger[i].(isConfirmed := true)
    ensures forall i :: 0 <= i < |ledger| && !Redeemable(ledger[i], owner, code, now) ==> r[i] == ledger[i]
    ensures !HasRedeemable(r, owner, code, now)
  {
    if |ledger| == 0 then []
    else
      var head := if Redeemable(ledger[0], owner, code, now) then ledger[0].(isConfirmed := true) else ledger[0];
      var rest := ConfirmMatching(ledger[1..], owner, code, now);
      assert forall i :: 1 <= i <= |rest| ==> ([head] + rest)[i] == rest[i - 1];
      [head] + rest
  }

  /**
   * `VerifyAPIView.check_verify`: with no redeemable record the request fails
   * and nothing changes; otherwise every redeemable record is confirmed and a
   * `NEW` account moves to `VERIFY_CODE`.
   */
  function CheckVerify(u: User, ledger: seq<Confirmation>, code: string, now: Time)
    : (r: Result<(User, seq<Confirmation>), Error>)
    ensures r.Failure? <==> !HasRedeemable(ledger, u.id, code, now)
    ensures r.Failure? ==> r.error == ValidationError(CodeInvalidOrExpired)
    ensures r.Success? ==> |r.value.1| == |ledger|
    ensures r.Success? ==> forall i :: 0 <= i < |ledger| ==>
      r.value.1[i] == (if Redeemable(ledger[i], u.id, code, now) then ledger[i].(isConfirmed := true) else ledger[i])
    ensures r.Success? ==> r.value.0 == u.(authStatus := if u.authStatus == New then VerifyCode else u.authStatus)
  {
    if !HasRedeemable(ledger, u.id, code, now) then Failure(ValidationError(CodeInvalidOrExpired))
    else
      var status := if u.authStatus == New then VerifyCode else u.authStatus;
      Success((u.(authStatus := status), ConfirmMatching(ledger, u.id, code, now)))
  }

  /** A consumed code cannot be used again, now or later. */
  lemma CodeCannotBeReplayed(u: User, ledger: seq<Confirmation>, code: string, now: Time, later: Time)
    requires CheckVerify(u, ledger, code, now).Success?
    requires now <= later
    ensures var after := CheckVerify(u, ledger, code, now).value;
      CheckVerify(after.0, after.1, code, later) == Failure(ValidationError(CodeInvalidOrExpired))
  {
    var after := CheckVerify(u, ledger, code, now).value;
    forall i | 0 <= i < |after.1| ensures !Redeemable(after.1[i], u.id, code, later) {
      if Redeemable(after.1[i], u.id, code, later) {
        assert Redeemable(ledger[i], u.id, code, now);
      }
    }
  }

  /**
   * A freshly issued code verifies at every moment up to and including its
   * expiry: the comparison is `expiration_time >= now`.
   */
  lemma IssuedCodeVerifiesUntilExpiry(u: User, ledger: seq<Confirmation>, tag: Tag, draws: seq<int>,
                                      issuedAt: Time, now: Time)
    requires ValidDraws(draws)
    requires now <= issuedAt + LifetimeSeconds(tag)
    ensures var issued := CreateVerifyType(u.id, ledger, tag, draws, issuedAt);
      CheckVerify(u, issued.1, issued.0, now).Success?
  {
    var issued := CreateVerifyType(u.id, ledger, tag, draws, issuedAt);
    assert Redeemable(issued.1[|ledger|], u.id, issued.0, now);
  }

  /** Past its expiry the issued code is refused, unless an older record still redeems it. */
  lemma ExpiredCodeRefused(u: User, ledger: seq<Confirmation>, tag: Tag, draws: seq<int>,
                           issuedAt: Time, now: Time)
    requires ValidDraws(draws)
    requires now > issuedAt + LifetimeSeconds(tag)
    requires !HasRedeemable(ledger, u.id, CreateVerifyType(u.id, ledger, tag, draws, issuedAt).0, now)
    ensures var issued := CreateVerifyType(u.id, ledger, tag, draws, issuedAt);
      CheckVerify(u, issued.1, issued.0, now) == Failure(ValidationError(CodeInvalidOrExpired))
  {
    var issued := CreateVerifyType(u.id, ledger, tag, draws, issuedAt);
    forall i | 0 <= i < |issued.1| ensures !Redeemable(issued.1[i], u.id, issued.0, now) {
      if i < |ledger| {
        assert issued.1[i] == ledger[i];
      }
    }
  }

  /**
   * As written, a record created through `objects.create` is stored without
   * an expiry, so its code never verifies and it never blocks a resend.
   */
  lemma AsWrittenRecordIsInert(u: User, ledger: seq<Confirmation>, tag: Tag, code: string,
                               issuedAt: Time, now: Time)
    requires !HasRedeemable(ledger, u.id, code, now)
    requires !HasOutstanding(ledger, u.id, now)
    ensures CheckVerify(u, ledger + [CreateAsWritten(u.id, tag, code, issuedAt)], code, now).Failure?
    ensures !HasOutstanding(ledger + [CreateAsWritten(u.id, tag, code, issuedAt)], u.id, now)
  {
    var l := ledger + [CreateAsWritten(u.id, tag, code, issuedAt)];
    forall i | 0 <= i < |l| ensures !Redeemable(l[i], u.id, code, now) && !Outstanding(l[i], u.id, now) {
      if i < |ledger| {
        assert l[i] == ledger[i];
      }
    }
  }

  /** The address a code for this account's channel goes to. */
  function ChannelAddress(u: User): Option<string> {
    if u.authType == ViaEmail then u.email else u.phone
  }

  /**
   * `GetNewVerificationAPIView.get`: refused while an unconfirmed record
   * expiring at or after `now` exists; otherwise one code is issued on the
   * account's channel and sent to its address.
   */
  function GetNewVerification(u: User, ledger: seq<Confirmation>, draws: seq<int>, now: Time)
    : (r: Result<(seq<Confirmation>, Notice), Error>)
    requires ValidDraws(draws)
    ensures HasOutstanding(ledger, u.id, now) ==> r == Failure(ValidationError(CodeStillActive))
    ensures !HasOutstanding(ledger, u.id, now) && u.authType != ViaEmail && u.authType != ViaPhone
      ==> r == Failure(ValidationError(UnknownAuthType))
    ensures r.Success? <==>
      !HasOutstanding(ledger, u.id, now) && (u.authType == ViaEmail || u.authType == ViaPhone)
    ensures r.Success? ==>
      var (l, n) := r.value;
      && |l| == |ledger| + 1 && l[..|ledger|] == ledger
      && l[|ledger|] == Create(u.id, u.authType, n.code, now)
      && |n.code| == 4 && AllDigits(n.code)
      && n.destination == ChannelAddress(u)
    ensures r.Success? ==> HasOutstanding(r.value.0, u.id, now)
  {
    if HasOutstanding(ledger, u.id, now) then Failure(ValidationError(CodeStillActive))
    else if u.authType == ViaEmail || u.authType == ViaPhone then
      var issued := CreateVerifyType(u.id, ledger, u.authType, draws, now);
      assert Outstanding(issued.1[|ledger|], u.id, now);
      Success((issued.1, Notice(ChannelAddress(u), issued.0)))
    else
      Failure(ValidationError(UnknownAuthType))
  }

  /** Right after a resend, a second resend is refused. */
  lemma ResendTwiceRefused(u: User, ledger: seq<Confirmation>, draws: seq<int>, now: Time, again: seq<int>)
    requires ValidDraws(draws) && ValidDraws(again)
    requires GetNewVerification(u, ledger, draws, now).Success?
    ensures GetNewVerification(u, GetNewVerification(u, ledger, draws, now).value.0, again, now)
      == Failure(ValidationError(CodeStillActive))
  {
  }

  /** What the forgot-password request produces: the account, the ledger with the new code, the notice. */
  datatype Reissue = Reissue(user: User, ledger: seq<Confirmation>, notice: Notice)

  /**
   * `ForgetPasswordView.post`: find the account by email or phone, then
   * classify the submitted text (not the account's auth type) to pick the
   * channel, issue one code on it and send it to the submitted text.
   */
  function ForgetPassword(users: seq<User>, ledger: seq<Confirmation>, input: Option<string>,
                          draws: seq<int>, now: Time): (r: Result<Reissue, Error>)
    requires ValidDraws(draws)
    ensures ForgetPasswordLookup(users, input).Failure? ==> r == Failure(ForgetPasswordLookup(users, input).error)
    ensures ForgetPasswordLookup(users, input).Success? && !EmailPattern(input.value) && !IsPhone(input.value)
      ==> r == Failure(ValidationError(BadEmailOrPhone))
    ensures r.Success? <==>
      ForgetPasswordLookup(users, input).Success? && (EmailPattern(input.value) || IsPhone(input.value))
    ensures r.Success? ==> r.value.user == ForgetPasswordLookup(users, input).value
    ensures r.Success? ==>
      && input.Some? && r.value.user in users && HasEmailOrPhone(r.value.user, input.value)
      && |r.value.ledger| == |ledger| + 1 && r.value.ledger[..|ledger|] == ledger
      && r.value.ledger[|ledger|]
        == Create(r.value.user.id, if IsPhone(input.value) then ViaPhone else ViaEmail, r.value.notice.code, now)
      && r.value.notice.destination == Some(input.value)
  {
    var user :- ForgetPasswordLookup(users, input);
    var kind :- CheckEmailOrPhone(input.value);
    var tag := if kind == PhoneInput then ViaPhone else ViaEmail;
    var issued := CreateVerifyType(user.id, ledger, tag, draws, now);
    Success(Reissue(user, issued.1, Notice(Some(input.value), issued.0)))
  }

  /** An account registered by email that submits a phone number gets a phone-channel code. */
  lemma ForgetPasswordChannelFollowsInput(users: seq<User>, ledger: seq<Confirmation>, input: string,
                                          draws: seq<int>, now: Time)
    requires ValidDraws(draws)
    requires IsPhone(input)
    requires ForgetPasswordLookup(users, Some(input)).Success?
    ensures var r := ForgetPassword(users, ledger, Some(input), draws, now);
      r.Success? && r.value.ledger[|ledger|].verifyType == ViaPhone
  {
  }

  /** No operation moves the status backwards along NEW, VERIFY_CODE, DONE, PHOTO_DONE. */
  lemma StatusNeverMovesBackward(u: User, others: seq<User>, ledger: seq<Confirmation>, code: string, now: Time,
                                 f: InfoForm, partial: bool, accepted: bool, image: Option<string>,
                                 password: string, confirmPassword: string)
    ensures CheckVerify(u, ledger, code, now).Success? ==>
      Rank(u.authStatus) <= Rank(CheckVerify(u, ledger, code, now).value.0.authStatus)
    ensures ChangeUserInfo(u, others, f, partial, accepted).Success? ==>
      Rank(u.authStatus) <= Rank(ChangeUserInfo(u, others, f, partial, accepted).value.authStatus)
    ensures Rank(u.authStatus) <= Rank(UpdatePhoto(u, image).authStatus)
    ensures ResetPassword(u, password, confirmPassword, accepted).Success? ==>
      ResetPassword(u, password, confirmPassword, accepted).value.authStatus == u.authStatus
  {
  }

  /**
   * The photo step has no guard on the prior status: a `NEW` account that
   * uploads a photo reaches `PHOTO_DONE` and may log in without ever
   * verifying a code.
   */
  lemma PhotoUploadSkipsVerification(u: User, name: string, p: User -> bool)
    requires u.authStatus == New
    requires FileExtension(name) in UserImageExtensions
    requires p(u.(authStatus := PhotoDone))
    ensures ChangeUserImage(u, Some(name)).Success?
    ensures var v := ChangeUserImage(u, Some(name)).value;
      Login([v], v.username, ByUsername, p) == Success(LoginGrant(u.id, PhotoDone))
  {
    var v := ChangeUserImage(u, Some(name)).value;
    FinishedAccountLogsIn([v], 0, p);
  }

  // The registration walkthrough below and its steps, one concrete run of
  // every stage; each step is a lemma of its own so that each proof stays small.

  /** The form of the walkthrough: every name valid, passwords equal. */
  function WalkthroughForm(): InfoForm {
    InfoForm(Some("Alice"), Some("Smith"), Some("alice"), Some("secret123"), Some("secret123"))
  }

  /** `a@b.com` is an email address, already in lower case. */
  lemma SampleAddressIsEmail()
    ensures Lower("a@b.com") == "a@b.com" && EmailPattern("a@b.com")
  {
    var s := "a@b.com";
    LowerUnchanged(s);
    assert s[..1] == "a" && s[2..3] == "b" && s[4..] == "com";
    assert EmailSplit(s, 1, 3);
  }

  /** Signing up `a@b.com` on empty tables creates a `NEW` email account and its first code. */
  lemma SampleSignUp(id: UserId, handle: string, draws: seq<int>, t0: Time)
    requires ValidDraws(draws)
    ensures var reg := SignUp([], [], Some("a@b.com"), id, handle, draws, t0);
      && reg.Success?
      && reg.value.user == DefaultUser(id).(username := handle, email := Some("a@b.com"), authType := ViaEmail)
      && reg.value.ledger == [Create(id, ViaEmail, reg.value.notice.code, t0)]
  {
    var s := "a@b.com";
    SampleAddressIsEmail();
    EmailRecogniserMatchesPattern(s);
    EmailPhoneDisjoint(s);
    assert ValidateEmailPhoneNumber([], s) == Success(s);
    assert AuthValidate(Some(s)) == Success(SignupData(Some(s), None, ViaEmail));
    assert !UsernameTaken([], handle);
  }

  /**
   * The walkthrough form completes the profile of an account waiting in
   * `VERIFY_CODE`, when no other account holds the username `alice`.
   */
  lemma SampleProfile(u: User, others: seq<User>)
    requires u.authStatus == VerifyCode
    requires !UsernameTaken(others, "alice")
    ensures ChangeUserInfo(u, others, WalkthroughForm(), false, true)
      == Success(u.(firstName := "Alice", lastName := "Smith", username := "alice",
                    password := Hashed("secret123"), authStatus := Done))
  {
    assert !IsDigit("Alice"[0]) && !IsDigit("Smith"[0]) && !IsDigit("alice"[0]);
  }

  /** A finished account with the matching password logs in as its only row. */
  lemma SampleLogin(u: User)
    requires u.username == "alice" && u.password == Hashed("secret123") && u.authStatus == Done
    ensures Login([u], "alice", ByUsername, (w: User) => w.password == Hashed("secret123"))
      == Success(LoginGrant(u.id, Done))
  {
    FinishedAccountLogsIn([u], 0, (w: User) => w.password == Hashed("secret123"));
  }

  /** `png` has no slash, no dot and no capital letter. */
  lemma PngIsPlain()
    ensures '/' !in "png" && '.' !in "png"
    ensures Lower("png") == "png"
  {
    var png := "png";
    assert png[0] == 'p' && png[1] == 'n' && png[2] == 'g';
    LowerUnchanged(png);
  }

  /** A file named `<stem>.png` has extension `png`. */
  lemma PngExtension(stem: string)
    requires stem != [] && '/' !in stem
    ensures FileExtension(stem + ".png") == "png"
  {
    PngIsPlain();
    ExtensionOfJoinedName(stem, "png");
    assert stem + "." + "png" == stem + ".png";
  }

  /** A photo named `<stem>.png` is accepted and moves the account to `PHOTO_DONE`. */
  lemma PngPhotoAccepted(u: User, stem: string)
    requires stem != [] && '/' !in stem
    ensures ChangeUserImage(u, Some(stem + ".png")) == Success(u.(authStatus := PhotoDone))
  {
    PngExtension(stem);
    assert UserImageExtensions[2] == "png";
  }

  /**
   * The whole registration: signing up `a@b.com` creates a `NEW` account on
   * the email channel; its code verifies a minute later and moves it to
   * `VERIFY_CODE`; the profile moves it to `DONE`; it can then log in, and
   * its photo moves it to `PHOTO_DONE`.
   */
  lemma RegistrationWalkthrough(id: UserId, handle: string, draws: seq<int>, t0: Time, stem: string)
    requires ValidDraws(draws)
    requires stem != [] && '/' !in stem
    ensures
      var reg := SignUp([], [], Some("a@b.com"), id, handle, draws, t0);
      && reg.Success? && reg.value.user.authStatus == New
      && var verified := CheckVerify(reg.value.user, reg.value.ledger, reg.value.notice.code, t0 + 60);
         && verified.Success? && verified.value.0.authStatus == VerifyCode
         && var profiled := ChangeUserInfo(verified.value.0, [], WalkthroughForm(), false, true);
            && profiled.Success? && profiled.value.authStatus == Done
            && Login([profiled.value], "alice", ByUsername, (w: User) => w.password == Hashed("secret123"))
               == Success(LoginGrant(id, Done))
            && ChangeUserImage(profiled.value, Some(stem + ".png")) == Success(profiled.value.(authStatus := PhotoDone))
  {
    SampleSignUp(id, handle, draws, t0);
    var reg := SignUp([], [], Some("a@b.com"), id, handle, draws, t0).value;
    var code := reg.notice.code;
    assert Redeemable(reg.ledger[0], id, code, t0 + 60);
    var verified := CheckVerify(reg.user, reg.ledger, code, t0 + 60).value;
    SampleProfile(verified.0, []);
    var u := ChangeUserInfo(verified.0, [], WalkthroughForm(), false, true).value;
    SampleLogin(u);
    PngPhotoAccepted(u, stem);
  }
}

/**
 * The account and one-time-code records of users/models.py.
 *
 * The model declares `AUTH_TYPE`/`VERIFY_TYPE` choices `EMAIL` and `PHONE`,
 * while every caller stores `VIA_EMAIL` or `VIA_PHONE`; `Tag` keeps all four
 * stored strings apart so that the lifetime rule, which tests for `EMAIL`
 * only, is modelled on the tag actually stored. The status names used by the
 * callers (`NEW`, `VERIFY_CODE`, `DONE`, `PHOTO_DONE`) differ from the
 * declared ones (`VERIFIED_CODE`, `PHOTO_STEP`); `AuthStatus` is the one
 * enumeration they all mean.
 */
module UserModels {
  import opened Wrappers
  import opened Text

  type UserId = nat

  /** A point in time, in seconds. */
  type Time = int

  datatype UserType = Admin | Manager | OrdinaryUser

  /** The strings stored in `auth_type` and `verify_type`. */
  datatype Tag = Email | Phone | ViaEmail | ViaPhone

  datatype AuthStatus = New | VerifyCode | Done | PhotoDone

  /** A password as stored: never set, or hashed from a plain text. */
  datatype Secret = Unset | Hashed(plain: string)

  datatype User = User(
    id: UserId,
    userType: UserType,
    authType: Tag,
    authStatus: AuthStatus,
    username: string,
    firstName: string,
    lastName: string,
    email: Option<string>,
    phone: Option<string>,
    password: Secret,
    images: Option<string>)

  /** Position of a status in the registration progression. */
  function Rank(s: AuthStatus): nat {
    match s
    case New => 0
    case VerifyCode => 1
    case Done => 2
    case PhotoDone => 3
  }

  /** A freshly created user: every field at its declared default. */
  function DefaultUser(id: UserId): User {
    User(id, OrdinaryUser, Email, New, "", "", "", None, None, Unset, None)
  }

  // ------------------------------------------------------------ confirmations

  const PhoneExpireMinutes: nat := 2
  const EmailExpireMinutes: nat := 5
  const SecondsPerMinute: nat := 60

  /**
   * How long a code stays valid: 5 minutes for a record whose stored tag is
   * `EMAIL`, 2 minutes for any other tag, `VIA_EMAIL` included.
   */
  function LifetimeSeconds(tag: Tag): nat {
    (if tag == Email then EmailExpireMinutes else PhoneExpireMinutes) * SecondsPerMinute
  }

  /** An email-channel code as the callers store it lives 2 minutes, not 5. */
  lemma EmailChannelCodeLivesTwoMinutes()
    ensures LifetimeSeconds(ViaEmail) == 120
    ensures LifetimeSeconds(ViaEmail) < LifetimeSeconds(Email)
  {
  }

  datatype Confirmation = Confirmation(
    owner: UserId,
    code: string,
    verifyType: Tag,
    expiration: Option<Time>,
    isConfirmed: bool)

  /** A record as constructed, before it is saved: no expiry, not confirmed. */
  function Draft(owner: UserId, tag: Tag, code: string): Confirmation {
    Confirmation(owner, code, tag, None, false)
  }

  /**
   * `save` as written: the expiry is stamped only when the record has no
   * primary key. The key is a UUID assigned by default when the record is
   * constructed, so `objects.create` saves a record that already has one.
   */
  function SaveAsWritten(c: Confirmation, hasPk: bool, now: Time): (r: Confirmation)
    ensures !hasPk ==> r.expiration == Some(now + LifetimeSeconds(c.verifyType))
    ensures hasPk ==> r == c
  {
    if !hasPk then c.(expiration := Some(now + LifetimeSeconds(c.verifyType))) else c
  }

  /** `UserConfirmation.objects.create(...)` as written: the key exists before the first save. */
  function CreateAsWritten(owner: UserId, tag: Tag, code: string, now: Time): (c: Confirmation)
    ensures c.expiration == None
  {
    SaveAsWritten(Draft(owner, tag, code), true, now)
  }

  /**
   * `save` as intended: the expiry is stamped when the record is being
   * inserted, and a later save of a stored record keeps the expiry it has.
   */
  function Save(c: Confirmation, inserting: bool, now: Time): (r: Confirmation)
    ensures inserting ==> r == c.(expiration := Some(now + LifetimeSeconds(c.verifyType)))
    ensures !inserting ==> r == c
  {
    if inserting then c.(expiration := Some(now + LifetimeSeconds(c.verifyType))) else c
  }

  /** A stored record saved again keeps its expiry, whatever the clock says. */
  lemma ResaveKeepsExpiry(c: Confirmation, now: Time, later: Time)
    ensures Save(Save(c, true, now), false, later).expiration == Some(now + LifetimeSeconds(c.verifyType))
  {
  }

  /** Creating a record: construct it, then insert it. */
  function Create(owner: UserId, tag: Tag, code: string, now: Time): (c: Confirmation)
    ensures c.owner == owner && c.code == code && c.verifyType == tag
    ensures !c.isConfirmed
    ensures c.expiration == Some(now + LifetimeSeconds(tag))
  {
    Save(Draft(owner, tag, code), true, now)
  }

  // ------------------------------------------------------------ code generation

  /** Four results of `random.randint(0, 100)`, each between 0 and 100 inclusive. */
  predicate ValidDraws(draws: seq<int>) {
    |draws| == 4 && forall i :: 0 <= i < 4 ==> 0 <= draws[i] <= 100
  }

  function DigitChar(d: nat): (c: char)
    requires d < 10
    ensures IsDigit(c)
  {
    ('0' as int + d) as char
  }

  function DigitValue(c: char): nat
    requires IsDigit(c)
  {
    c as int - '0' as int
  }

  /** The code `create_verify_type` builds: `str(randint(0, 100) % 10)` four times. */
  function CodeFromDraws(draws: seq<int>): (code: string)
    requires ValidDraws(draws)
    ensures |code| == 4 && AllDigits(code)
    ensures forall i :: 0 <= i < 4 ==> DigitValue(code[i]) == draws[i] % 10
  {
    seq(4, i requires 0 <= i < 4 => DigitChar(draws[i] % 10))
  }

  /**
   * `User.create_verify_type`: builds a four-digit code from the draws,
   * appends one confirmation record for this user with that code and the
   * given tag, and returns the code.
   */
  function CreateVerifyType(owner: UserId, ledger: seq<Confirmation>, tag: Tag, draws: seq<int>, now: Time)
    : (r: (string, seq<Confirmation>))
    requires ValidDraws(draws)
    ensures |r.0| == 4 && AllDigits(r.0)
    ensures forall i :: 0 <= i < 4 ==> DigitValue(r.0[i]) == draws[i] % 10
    ensures |r.1| == |ledger| + 1 && r.1[..|ledger|] == ledger
    ensures var c := r.1[|ledger|];
      && c.owner == owner && c.code == r.0 && c.verifyType == tag
      && !c.isConfirmed && c.expiration == Some(now + LifetimeSeconds(tag))
  {
    var code := CodeFromDraws(draws);
    (code, ledger + [Create(owner, tag, code, now)])
  }
}

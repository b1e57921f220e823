# instagram_clone core, modelled in Dafny

This project models the core of the `instagram_clone` Django REST service and
proves properties of the model. The core has four parts.

- **The identifier classifier** (`shared/utility.py`) decides whether a
  submitted string is an email address or a phone number. Each regular
  expression becomes a recogniser over `seq<char>`.
  - The email recogniser is proved equal to the language of its pattern.
  - An accepted email is proved to hold a single `@`.
  - A phone number is proved to be made of phone characters with 8 to 14
    digits.
  - No string is both an email and a phone number.
- **The verification-code ledger** (`users/models.py`, `users/views.py`). It
  covers:
  - four-digit codes drawn from `random.randint`
  - records with an expiry stamped on save
  - redeeming a code
  - re-sending a code
  - the forgot-password re-issue
- **The registration state machine and its validators**
  (`users/serializers.py`). An account moves through `NEW`, `VERIFY_CODE`,
  `DONE` and `PHOTO_DONE` via:
  - signup
  - code verification
  - the profile form
  - the photo upload

  The model also covers login, the forgot-password lookup and password reset.
- **Posts, comments and likes** (`post/models.py`, `post/views.py`,
  `post/serializers.py`). It covers:
  - the one-like-per-author constraints
  - the like toggles and their response codes
  - comment creation, and listing scoped to a post
  - the cascades that follow foreign keys and reply chains
  - the read-only fields the serializers compute

The database is a record of sequences of rows. Time is an integer number of
seconds, passed in as `now`. Randomness, the password-strength policy and
the password check are parameters; the module that uses each one says which.

The modules follow the source files:

- `Wrappers` in `wrappers.dfy`: option and result types
- `Errors` in `errors.dfy`: the raised errors
- `Text` in `text.dfy`: character classes, lower-casing, search, file extensions
- `Utility` in `utility.dfy`: `shared/utility.py`
- `UserModels` in `user_models.dfy`: `users/models.py`
- `UserSerializers` in `user_serializers.dfy`: `users/serializers.py`
- `UserViews` in `user_views.dfy`: `users/views.py`
- `PostModels` in `post_models.dfy`: `post/models.py`
- `PostViews` in `post_views.dfy`: `post/views.py`
- `PostSerializers` in `post_serializers.dfy`: `post/serializers.py`

## Where the code and its design disagree

Four places in the code could not run as written. The model takes the
evident intent in each.

- **Enum names.** The serializers and views name `User.AuthType.VIA_EMAIL` /
  `VIA_PHONE` and `User.AuthStatus.NEW`, `VERIFY_CODE`, `DONE` and
  `PHOTO_DONE` (for example users/serializers.py:41-45 and 168). But
  `users/models.py` declares neither `AuthType` nor `AuthStatus`; it
  declares `AUTH_TYPE` with `EMAIL` / `PHONE` and `AUTH_STATUS` with
  `VERIFIED_CODE` and `PHOTO_STEP` (stored as `"PHONE_STEP"`). As written,
  the first such reference raises `AttributeError`.

  The model gives statuses one enum, named as the callers name them. It keeps
  all four channel tags, because the migration stores `VIA_EMAIL` and
  `VIA_PHONE`.
- **Two imported helpers are missing.** `users/serializers.py:12` imports
  `send_email` and `check_user_type` from `shared/utility.py`, which defines
  neither. As written, loading the module raises `ImportError`. Neither
  helper is part of this model:
  - a sent message is an output `Notice(destination, code)`
  - the login identifier's kind is the parameter `LoginKind`
- **Codes never get an expiry.** As written, `save` never stamps an
  expiry, so no code can be redeemed (see "## Findings"). The model's ledger
  uses the corrected save.
- **No author can be rendered.** `UserSerializer` (post/serializers.py:7-12)
  lists the field `image`, but `User` declares `images`
  (users/models.py:39). Django REST framework therefore raises
  `ImproperlyConfigured` whenever it renders an author. Every post and
  comment response fails, and so does the like views' response body
  (post/views.py:116-123 and 147-154). As written, a like insert stores its
  row and then answers with a server error. Removing a post like answers
  204 without a body, so it still works. The model takes the intent: the
  like views answer 201 or 200, and the projections render.

The remaining differences below are in code that runs. The model follows
the code in each.

- **Only the first account can sign up.** `create` (users/serializers.py:37-38)
  stores the account without a username, so it gets the column's default
  `""`. The column is unique, so while any account still has that name,
  every later signup fails with `IntegrityError`. `UserSerializers.SignUp`
  takes the stored username as a parameter: `""` models the code as written,
  and a fresh name models the evident intent. See "## Findings".

- **Email codes would expire after two minutes, not five.** This holds under
  the corrected save. `UserConfirmation.save` gives five minutes only to the
  tag `EMAIL`. Every caller stores `VIA_EMAIL` instead, so email codes get
  the phone lifetime of two minutes. See
  `UserModels.EmailChannelCodeLivesTwoMinutes`.
- **The photo upload does not store the photo.** It assigns
  `instance.image`, but the column is `images`, so the stored image does not
  change.
- **The photo upload skips verification.** It moves any account to
  `PHOTO_DONE`, whatever its status. A `NEW` account that uploads a photo may
  therefore log in without ever verifying a code. See
  `UserViews.PhotoUploadSkipsVerification`.
- **`comment_like_count` counts comments.** It returns the number of
  comments on the post, not the likes on them.
- **Comment creation under a post takes the post from the URL.** The
  comment serializer still requires a `post` field in the body, and checks it
  names a post. The stored comment then takes the post id from the URL
  instead.
- **A reply's post is not checked.** A reply may name a parent comment on
  another post. Deleting a post therefore follows reply chains into other
  posts.
- **The forgot-password view never sees a missing input.** `validate` tests
  for a missing input, but the field is required, so the field's own check
  refuses that request first.

## Model

| member | source | states |
|---|---|---|
| `Text.LowerIdempotent` | users/serializers.py:63-85 | Lower-casing the identifier twice (field validation, then `auth_validate`) gives the same string as lower-casing it once. |
| `Text.ExtensionOfJoinedName` | users/serializers.py:176-180 | The extension an upload validator reads from `stem.ext` is `ext`, lower-cased, for any stem without a slash. |
| `Utility.EmailRecogniserMatchesPattern` | shared/utility.py:5-7 | The email recogniser accepts exactly the strings that split at an `@` and a later `.` into a local part, a domain and a top-level domain of two or more letters. |
| `Utility.EmailHasSingleAt` | shared/utility.py:5-7 | Every accepted email contains exactly one `@`. |
| `Utility.PhoneShape` | shared/utility.py:9-11 | Every accepted phone number consists of digits, spaces, `+().-` only, and has between 8 and 14 digits. |
| `Utility.EmailPhoneDisjoint` | shared/utility.py:14-18 | No string is both an email and a phone number, so which branch runs does not depend on the order of the tests. |
| `Utility.UnbalancedParenthesisAccepted` | shared/utility.py:10 | The two parentheses of the phone pattern are independent, so `(123 456 7890` is accepted. |
| `Utility.CheckEmailOrPhone` | shared/utility.py:14-26 | Classifies as email exactly the strings in the email pattern's language, and as phone exactly those in the phone pattern's. Anything else raises the validation error. The contract also carries the single-`@` and phone-shape facts. |
| `UserModels.EmailChannelCodeLivesTwoMinutes` | users/models.py:80-85 | A record stored with the `VIA_EMAIL` tag expires after 120 seconds, less than the 5 minutes meant for email. |
| `UserModels.SaveAsWritten` | users/models.py:80-87 | `save` as written stamps the expiry only on a record without a primary key, and leaves any other record untouched. |
| `UserModels.CreateAsWritten` | users/models.py:54-58 | A confirmation created through `objects.create` already has its UUID primary key, so it is saved with no expiry. |
| `UserModels.Save` | users/models.py:80-87 | The corrected save stamps `now` plus the tag's lifetime when the row is inserted. Saving an existing row changes nothing. |
| `UserModels.ResaveKeepsExpiry` | users/models.py:80-87 | Saving a record again later keeps the expiry stamped at insertion. |
| `UserModels.Create` | users/models.py:54-58 | A created confirmation belongs to the owner and carries the code and tag it was given. It is unconfirmed and expires at `now` plus the tag's lifetime. |
| `UserModels.CodeFromDraws` | users/models.py:53 | A code has four decimal digits, and digit `i` is draw `i` modulo 10. |
| `UserModels.CreateVerifyType` | users/models.py:52-59 | Issuing a code returns a four-digit code and appends exactly one record to the ledger. That record is for that owner, code and tag, unconfirmed, with its expiry set. Every earlier record is kept. |
| `UserSerializers.First` | users/serializers.py:254-262 | A query's `first()` finds nothing exactly when no row matches; otherwise it returns the matching row that comes first in the table's order. For an unordered query that is primary-key order, and the keys are random UUIDs. |
| `UserSerializers.ValidateEmailPhoneNumber` | users/serializers.py:84-101 | The lower-cased value is refused exactly when it is non-empty and already some account's email or phone. The email check is made first. |
| `UserSerializers.NoneIsNoIdentifier` | users/serializers.py:63-64 | A missing identifier becomes the string `none`, which is neither an email nor a phone number. |
| `UserSerializers.AuthValidate` | users/serializers.py:61-82 | Signup data is accepted exactly when the lower-cased input is an email or a phone. It records that address and the matching channel; a missing input always fails. |
| `UserSerializers.SignUp` | users/serializers.py:37-59 | Signup succeeds exactly when an identifier was sent, is not already some account's email or phone, lower-cases to an email or a phone number, and the stored username is not taken. A valid identifier with a taken username fails with an integrity error. A blank, taken or unclassifiable identifier gets its own error. A success creates a `NEW` ordinary account with that username, holding the address on the matching channel, appends one record to the ledger and sends its four-digit code to that address. |
| `UserSerializers.SignUpTwiceRefused` | users/serializers.py:84-101 | After an address signs up, a second signup with any input that lower-cases to the same address is refused, because the new account already holds it. |
| `UserSerializers.NewAccountHoldsAddress` | users/serializers.py:37-54 | The account a signup adds holds its non-empty lower-cased address as its email or phone, and its username is taken from then on. |
| `UserSerializers.BlankUsernameBlocksSecondSignUp` | users/serializers.py:37-38 | With the username left at `""`, every signup after a successful one fails, and one that passes validation fails with an integrity error. |
| `UserSerializers.FreshUsernameSignUpSucceeds` | users/serializers.py:37-54 | When each account gets a fresh username, a signup after a successful one succeeds exactly when its identifier passes validation. |
| `UserSerializers.CheckName` | users/serializers.py:141-155 | A name is accepted exactly when it has 5 to 30 characters and is not all digits. The length error comes first. |
| `UserSerializers.ValidateInfo` | users/serializers.py:109-139 | On a `PUT` a form missing any of the five fields is refused as required; on a `PATCH` any field may be left out. Otherwise the form is accepted exactly when no sent field is blank and the two passwords match. A sent password must also pass the policy, and every sent name must be valid. |
| `UserSerializers.AfterProfile` | users/serializers.py:168-169 | The profile step moves `VERIFY_CODE` to `DONE` and leaves every other status. It never moves a status backwards. |
| `UserSerializers.UpdateInfo` | users/serializers.py:157-172 | A profile update replaces exactly the submitted names and hashes a submitted password. Email, phone, channel, photo and user type stay as they were. |
| `UserSerializers.ChangeUserInfo` | users/serializers.py:109-172 | The profile request (`PUT`, or `PATCH` as a partial update) succeeds exactly when the form validates and the username the account would be saved with is not held by another account. A `PUT` missing a field fails, a form error is reported as such, and a taken username passes validation and then fails with an integrity error at `save`. Only a `VERIFY_CODE` account changes status, and it changes to `DONE`. |
| `UserSerializers.UpdatePhoto` | users/serializers.py:182-188 | With an image the status becomes `PHOTO_DONE`, and nothing else about the account changes. |
| `UserSerializers.ChangeUserImage` | users/serializers.py:175-188 | The photo request succeeds exactly when an image with an allowed extension is sent. It then moves the account to `PHOTO_DONE` from any status. |
| `UserSerializers.ResolveUsername` | users/serializers.py:198-215 | A username input is used as given; an input of no recognised kind is refused. An email input resolves to the username of the first account whose email matches ignoring case, and a phone input to that of the first account with that phone. Either fails with "no active account" exactly when no account matches. |
| `UserSerializers.Login` | users/serializers.py:191-252 | A granted login is for an existing account whose password matches, and whose status is `DONE` or `PHOTO_DONE`. |
| `UserSerializers.UnfinishedRefusedBeforePassword` | users/serializers.py:222-229 | An account still `NEW` or `VERIFY_CODE` is refused as not fully registered, whatever password is given. |
| `UserSerializers.FinishedAccountLogsIn` | users/serializers.py:198-252 | When usernames are unique, a `DONE` or `PHOTO_DONE` account with the right password logs in by username, and gets its own status back. |
| `UserSerializers.ForgetPasswordLookup` | users/serializers.py:280-300 | A missing input is refused as required and an empty one as blank. Otherwise the lookup fails with `NotFound` exactly when no account has that email or phone (case-insensitively). A success returns such an account. |
| `UserSerializers.ResetPassword` | users/serializers.py:303-336 | A reset succeeds exactly when both passwords have at least 8 characters, are equal, and pass the policy. A blank field is reported as blank, and a non-blank one under 8 characters as too short. It changes only the password hash. |
| `UserViews.ConfirmMatching` | users/views.py:43-51 | Confirming marks exactly the records that are redeemable now, and leaves the rest alone. Afterwards none of them is redeemable. |
| `UserViews.CheckVerify` | users/views.py:41-55 | Verification fails exactly when no unconfirmed, unexpired record of the user has the code. On success those records are confirmed, and a `NEW` account moves to `VERIFY_CODE`. |
| `UserViews.CodeCannotBeReplayed` | users/views.py:43-51 | A code that verified once is refused at any later time. |
| `UserViews.IssuedCodeVerifiesUntilExpiry` | users/views.py:43 | An issued code verifies at any time up to its expiry, the expiry instant included. |
| `UserViews.ExpiredCodeRefused` | users/views.py:43-50 | After its expiry an issued code is refused, unless an older record with the same code is still live. |
| `UserViews.AsWrittenRecordIsInert` | users/views.py:43-92 | A record without an expiry never verifies, and never blocks a resend. |
| `UserViews.GetNewVerification` | users/views.py:61-92 | A resend is refused exactly while an unconfirmed, unexpired code is outstanding, or when the channel is unknown. Otherwise one record on the account's channel is appended, and its code goes to the channel's address. |
| `UserViews.ResendTwiceRefused` | users/views.py:83-92 | A second resend at the same instant is refused. |
| `UserViews.ForgetPassword` | users/views.py:179-202 | A reset request succeeds exactly when the lookup finds an account and the input is an email or a phone number. The request is for that account, and appends one record for it. Its channel is phone when the input is a phone number and email otherwise, and the code goes to the input as typed. Lookup failures pass through. |
| `UserViews.ForgetPasswordChannelFollowsInput` | users/views.py:186-188 | A phone-number input always issues a phone-channel code. |
| `UserViews.StatusNeverMovesBackward` | users/views.py:52-54 | Verification, the profile step and the photo step never move an account to an earlier status. A password reset never changes it. |
| `UserViews.PhotoUploadSkipsVerification` | users/serializers.py:182-188 | A `NEW` account that uploads an allowed photo becomes `PHOTO_DONE`, and can then log in. |
| `UserViews.RegistrationWalkthrough` | users/views.py:19-55 | The sequence signup, verify, profile, login, photo works, reaching `NEW`, `VERIFY_CODE`, `DONE`, a granted login, then `PHOTO_DONE`. |
| `PostModels.PostImageOfJoinedName` | post/models.py:13-14 | A post image named `stem.ext` is accepted exactly when `ext`, lower-cased, is `jpg`, `jpeg` or `png`. |
| `PostModels.CheckText` | post/models.py:15-26 | A required text column accepts exactly a present, non-empty value within its maximum length. It reports missing, blank and too long as separate errors. |
| `PostModels.Filter` | post/views.py:64-66 | A filtered query keeps exactly the rows that satisfy the condition, each as often as it occurs. |
| `PostModels.FilterAppend` | post/views.py:64-66 | Filtering rows added after existing ones yields the old result followed by the new matches. |
| `PostModels.UniqueIsDistinctRows` | post/models.py:40-46 | The uniqueness constraint on likes, stated over row counts, is equivalent to "no two positions hold the same `(author, target)` pair". |
| `PostModels.Descendants` | post/models.py:27-33 | The rows a cascade along `parent` removes include the roots, are closed under replies, and are existing comments. |
| `PostModels.DescendantsLeast` | post/models.py:27-33 | Those rows are the least such set: every reply-closed set holding the roots holds all of them. |
| `PostModels.DeletePost` | post/models.py:23-51 | Deleting a post removes exactly it, its likes, its comments, every reply below them (wherever posted) and the likes on those comments. Every other post, comment and like survives. |
| `PostModels.DeleteComment` | post/models.py:27-51 | Deleting a comment removes exactly it, its descendants and their likes. Posts and post likes are untouched. |
| `PostModels.WithoutCommentsWellFormed` | post/models.py:27-51 | Removing a reply-closed set of comments with their likes leaves no dangling reference. |
| `PostModels.DeletePostWellFormed` | post/models.py:12-51 | After deleting a post, every comment, reply and like still points at an existing row, and the like tables stay unique. |
| `PostModels.DeleteCommentWellFormed` | post/models.py:27-60 | After deleting a comment the store is still well formed. |
| `PostViews.CreatePost` | post/views.py:20-21 | A post is created exactly when its caption is present, non-blank and at most 2000 characters. Its image stays empty, because the serializer has no image field. |
| `PostViews.CreatePostWellFormed` | post/views.py:20-21 | Creating a post keeps the store well formed and makes the new id known. |
| `PostViews.UpdatePost` | post/views.py:29-41 | Updating an unknown post is `NotFound`. Otherwise only the caption of that post changes, subject to the caption rules. |
| `PostViews.UpdatePostWellFormed` | post/views.py:29-41 | A caption update changes no post id, so the store stays well formed. |
| `PostViews.DestroyPost` | post/views.py:43-52 | Deleting an unknown post is `NotFound`. Otherwise exactly the post, its likes, the comments going with it and their likes are removed, and every other row survives. |
| `PostViews.ValidateComment` | post/serializers.py:49-68 | A comment body is accepted exactly when its text is valid, any parent names an existing comment, and its `post` names an existing post. |
| `PostViews.PostComments` | post/views.py:64-66 | The listing under a post holds exactly the comments on that post, each once per stored row. |
| `PostViews.CreatePostComment` | post/views.py:60-62 | A comment created under a post is stored with the URL's post id, whatever post the body named. The body must still validate, and the URL's post must exist. |
| `PostViews.CreateComment` | post/views.py:75-76 | A comment created at the general endpoint is stored under the post its body names. |
| `PostViews.CreatedCommentListedUnderUrlPost` | post/views.py:60-66 | After creation the new comment is the last entry of its URL post's listing. Every other post's listing is unchanged. |
| `PostViews.CreatePostCommentWellFormed` | post/views.py:60-62 | Creating a comment keeps every reference valid. |
| `PostViews.DestroyComment` | post/views.py:84-93 | Deleting an unknown comment is `NotFound`. Otherwise exactly the comment, every reply below it and the likes on all of them are removed. Posts and post likes are unchanged. |
| `PostViews.ToggleLike` | post/views.py:98-115 | A toggle flips whether the pair is liked and keeps every other like row's count. It preserves the uniqueness constraint. |
| `PostViews.ToggleTwiceRestores` | post/views.py:98-115 | Toggling the same pair twice restores the like rows as a multiset, and exactly when the pair started unliked. |
| `PostViews.PostLikeToggle` | post/views.py:97-124 | The post-like view removes an existing like and answers 204, or inserts one and answers 201. Only the post-like table changes. Liking a missing post is an integrity error, and a well-formed store stays well formed. |
| `PostViews.CommentLikeToggle` | post/views.py:129-154 | The comment-like view flips the like in the same way, and answers 200 either way. |
| `PostViews.PostLikeToggleTwice` | post/views.py:98-124 | Two post-like requests in a row both succeed, answer 201 and 204 in some order, and restore the like rows. |
| `PostViews.CommentLikeToggleTwice` | post/views.py:130-146 | Two comment-like requests in a row both succeed and restore the like rows. |
| `PostSerializers.CountTarget` | post/serializers.py:31-32 | A like count is zero exactly when no like row is on the target. |
| `PostSerializers.CountIsLikers` | post/serializers.py:31-32 | Under the uniqueness constraint, a like count equals the number of distinct users who liked the target. |
| `PostSerializers.PostLikeCount` | post/serializers.py:31-32 | `post_like_count` is zero exactly when nobody liked the post. |
| `PostSerializers.CommentLikeCount` | post/serializers.py:35-36 | `comment_like_count` is zero exactly when the post has no comment. |
| `PostSerializers.CommentLikeCountFollowsComments` | post/serializers.py:35-36 | `comment_like_count` rises by one when a comment is created under the post. Liking or unliking a comment leaves it unchanged. |
| `PostSerializers.PostMeLiked` | post/serializers.py:38-46 | `me_liked` on a post is false without a request or for an anonymous user. Otherwise it is whether the user is among the post's likers. |
| `PostSerializers.PostLikeToggleProjection` | post/serializers.py:31-46 | After a post-like toggle the user's `me_liked` flips, and `post_like_count` moves by one in the matching direction. Every other post's count stays. |
| `PostSerializers.ToggledCount` | post/serializers.py:31-32 | When two like tables differ only in one pair's membership, the count on that pair's target differs by one, and every other target's count is equal. |
| `PostSerializers.Replies` | post/serializers.py:70-75 | `replies` is `None` exactly when nothing replies to the comment. Otherwise it lists each reply row once. |
| `PostSerializers.RepliesAreDeletedWithParent` | post/serializers.py:70-75 | Every listed reply goes when its parent comment is deleted. |
| `PostSerializers.CommentLikesCount` | post/serializers.py:84-86 | `likes_count` on a comment is zero exactly when nobody liked it. |
| `PostSerializers.CommentMeLiked` | post/serializers.py:77-82 | `me_liked` on a comment is whether the signed-in user is among its likers, and false for an anonymous user. |
| `PostSerializers.CommentLikeToggleProjection` | post/serializers.py:77-86 | After a comment-like toggle the user's `me_liked` flips, and `likes_count` moves by one in the matching direction. |

## Left out

- Email delivery. `send_email` is an output `Notice(destination, code)`: the model records what would be sent, not the sending.
- Tokens. These are opaque library calls:
  - `user.token()` and its access/refresh pair
  - the refresh view and `update_last_login`
  - the logout view, including its reference to an undefined `serializer_classes`
- Randomness. The four `random.randint(0, 100)` draws are a parameter constrained to `0..100`.
- Password policy and password check. Both are Django internals:
  - `validate_password` is a boolean verdict
  - `authenticate`'s password check is a predicate over the account
- Login identifier kind. `check_user_type` is not defined in `shared/utility.py`, so the kind of the login input is the parameter `LoginKind`.
- Clock and time zones. `datetime.now()` is the parameter `now`. Time zones are not modelled.
- Character sets. Regular-expression `\d` and `\s`, `str.isdigit` and `str.lower` are modelled on their ASCII members only. On a `str`, Python also applies them beyond ASCII, for example to `\x85`, `\xa0` and the other Unicode digits and spaces.
- Whitespace trimming. The REST framework trims surrounding whitespace from text fields; the model treats only the empty string as blank.
- Error reporting. The REST framework reports every failing field of a request together; the model reports one. Missing fields come before blank ones, blank ones before other field checks, and field checks before the form's own validation.
- Image content. `ImageField` checks the file's content; the model checks only the file name's extension.
- Unique addresses. The unique constraints on `email` and `phone_number` are not modelled beyond the check in `validate_email_phone_number`, which refuses a taken address first. The unique `username` column is modelled where a username is written: at signup and in the profile update.
- Primary keys. Ids are UUIDs the database assigns, and here are parameters; well-formedness does not track that ids are unique.
- Anonymous users. The like views, and the permission classes generally, assume an authenticated user. An anonymous request is not modelled.
- Pagination, routing and response bodies. The delete views answer HTTP 200 with `"code": 204` in the body; the model returns only the new store.
- User deletion. No view deletes a user, so the cascades along each `author` foreign key are not modelled.
- Concurrency. Requests are modelled one at a time. Two simultaneous like requests can race between the lookup and the insert. Two simultaneous resend requests can both pass `check_verification` (users/views.py:61 and 83-92) and both issue a code.
- Nested replies. `replies` renders each reply with the same serializer; the model returns the direct reply rows, whose own replies are the same function applied again.
- `UserSerializers.Login`: the contract states what a granted login implies. The refusals are stated by `UnfinishedRefusedBeforePassword`, and the success case for unique usernames by `FinishedAccountLogsIn`, not by `Login` itself.
- `UserSerializers.ResetPassword`: both fields are taken as sent. On a `PATCH` without `password`, `update`'s `pop("password")` raises `KeyError`; that path is not modelled.

## Findings

| source | as written | input that shows it | evidently intended | confidence | as-written member | corrected member |
|---|---|---|---|---|---|---|
| users/models.py:80-87 | `save` stamps `expiration_time` only when `self.pk` is empty. But `BaseModel.id` (shared/models.py:7) defaults to a fresh UUID when the object is built, so a record made by `objects.create` in `create_verify_type` always has a key and is saved with a NULL expiry. | Any signup: the record's `expiration_time` is NULL, so `expiration_time__gte=now` never matches. `check_verify` then refuses the code just sent, and `check_verification` never blocks a resend. | Stamp the expiry when the row is first inserted. | high; not executed | `UserModels.CreateAsWritten`, `UserViews.AsWrittenRecordIsInert` | `UserModels.Save`, `UserModels.Create` (used by `CreateVerifyType` and every view) |
| users/serializers.py:37-38 | `create` stores the account without a username, so it gets the column's default `""`, and `username` is unique. | Two signups, on empty tables, of two different valid addresses: the second insert repeats the username `""` and fails with `IntegrityError`. | Give each new account a fresh username when it is created. | high; not executed | `UserSerializers.BlankUsernameBlocksSecondSignUp` (`SignUp` with username `""`) | `UserSerializers.SignUp` given a fresh username, with `UserSerializers.FreshUsernameSignUpSucceeds` |

/**
 * The exceptions the request handlers raise, after the REST framework's taxonomy:
 * a `ValidationError` carries the reason its message names; `PermissionDenied`
 * and `NotFound` carry nothing the model needs; `IntegrityError` is the
 * database refusing a row whose foreign key names no row.
 */
module Errors {

  datatype Reason =
    | BadEmailOrPhone       // the identifier matches neither the email nor the phone pattern
    | EmailTaken            // signup: the email already belongs to an account
    | PhoneTaken            // signup: the phone number already belongs to an account
    | FieldBlank            // a submitted text field is empty
    | FieldLength           // a name field is shorter than 5 or longer than 30 characters
    | EntirelyNumeric       // a name field consists of digits only
    | PasswordMismatch      // password and its confirmation differ
    | PasswordRejected      // the password-strength policy refused the password
    | PasswordTooShort      // a reset password is shorter than 8 characters
    | NotFullyRegistered    // login by an account that has not finished registration
    | NoActiveAccount       // login: no account has the given email or phone
    | NeedIdentifier        // login: the input is neither username, email nor phone
    | BadCredentials        // login: authentication failed
    | CodeInvalidOrExpired  // verification: no matching, unconfirmed, unexpired code
    | CodeStillActive       // resend: an unconfirmed, unexpired code is outstanding
    | UnknownAuthType       // the account's auth type names no delivery channel
    | ImageRequired         // photo upload without an image
    | BadExtension          // an uploaded file's extension is not allowed
    | TooLong               // a caption or comment exceeds its maximum length
    | FieldRequired         // a required field is missing from the request body
    | DoesNotExist          // a submitted primary key names no row

  datatype Error =
    | ValidationError(reason: Reason)
    | PermissionDenied
    | NotFound
    | IntegrityError
}

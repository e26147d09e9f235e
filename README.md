# Account service: a verified Dafny model

This project models the core logic of a small Django account service. The
service handles registration, email verification, re-sending the
verification email, login validation and password change. The model covers
four parts:

- **Credential validators** (`serializer.dfy`, module `Serializers`). The
  password pattern is modelled as the regex engine runs it: three lookaheads,
  then a run of at least eight class characters, then `$`. The pattern
  matched against the whole string is proved equal to a
  character-by-character statement of the policy; `re.match` with `$`, as
  the source calls it, is proved to accept those strings and, besides them,
  exactly those strings followed by one newline. The module also holds
  the registration, login and password-change validators, their error order,
  the serializer's output and its `update`.
- **The user table** (`models.dfy`, module `Models`). `UserManager` is a class
  holding the rows as a `map<int, User>` and the next auto-increment key. It
  carries the create_user guard chain and the flag defaults, and
  create_superuser's overrides. Its invariant `Valid()` states that username
  and email are unique and that the four name and address columns
  (username, email, first name, last name) hold at most 50 characters. It also defines `full_name`.
- **Utilities** (`utils.dfy`, module `Utils`): `format_response`, an abstract
  signed token with its 3600-second lifetime, and `generate_random_string`'s
  length and alphabet.
- **Handlers** (`views.dfy`, module `Views`). `AccountService` owns the user
  table and an outbox of queued verification emails. Its methods are the
  request handlers, each specified by the new table, the new outbox and the
  reply.

`base.dfy` holds the shared `Option`, `Result`, a JSON-like value and Python
truthiness.

Abstractions:

- **Password hashing.** A hash is an opaque value with
  `CheckPassword(MakePassword(p), q)` exactly when `p == q`. Its encoded column
  text always carries an algorithm prefix.
- **Tokens.** A token is `(user_id, issued_at, authentic)`. `authentic` stands
  for the signature check.
- **Parameters.** The clock (`now`), the task queue's failure (`brokerFailure`)
  and the database's row order (`order`) are passed in as parameters.

The error message at `accounts/serializer.py:17` says lower-case letters are
required, but the pattern does not require one. The model follows the
pattern, and `NoLowercaseRequired` exhibits `ABCDEFG1@` as accepted.

## Model

| member | source | states |
|---|---|---|
| `Utils.GenerateRandomString` | accounts/utils.py:9-10 | the result has `length` characters (none for a length of zero or less), each a lower-case ASCII letter or digit |
| `Utils.EveryAlphabetStringIsReachable` | accounts/utils.py:9-10 | every string over `a-z0-9` is a possible result for its length, so the alphabet is exactly lowercase plus digits |
| `Utils.AlphabetCharIsLiteral` | accounts/utils.py:10 | the k-th alphabet character is the k-th character of `ascii_lowercase + digits` |
| `Utils.VerifyToken` | accounts/utils.py:17-22 | returns the payload's user id exactly when the signature checks and the token is at most 3600 s old, otherwise None, never an exception |
| `Utils.GenerateToken` | accounts/utils.py:12-15 | a generated token verifies to the user id it was made for at every whole-second time up to 3600 s after signing, and to None at every later time |
| `Utils.TokenRoundTrip` | accounts/utils.py:12-20 | verifying a generated token within 3600 s returns the id it was generated for |
| `Utils.TokenRejected` | accounts/utils.py:17-22 | a bad signature or an age over 3600 s gives None |
| `Utils.FormatResponse` | accounts/utils.py:24-33 | the body always has `message` and `status` (equal to the response status); it has `error` exactly when the error is truthy and `data` exactly when it is not, and no other key |
| `Utils.ExactlyOneOfErrorOrData` | accounts/utils.py:29-32 | every response body has exactly one of `error` and `data`, and three keys in all |
| `Utils.EmptyErrorTakesDataBranch` | accounts/utils.py:29 | an empty error string is falsy, so the body carries `data` and no `error` |
| `Models.CheckPasswordIffSameRaw` | accounts/models.py:30 | a password set with set_password checks for exactly the raw password it was set from |
| `Models.FullName` | accounts/models.py:62-64 | the full name is the first name, one space, then the last name |
| `Models.FullNameDeterminesParts` | accounts/models.py:62-64 | when first names contain no space, equal full names mean equal first and last names |
| `Models.GetFullName` | accounts/views.py:57 | the name the handlers add is the full name with its leading and trailing whitespace removed: a run of the full name with only whitespace before and after it, which neither starts nor ends with whitespace |
| `Models.GetFullNameIsFullName` | accounts/views.py:57 | for non-empty names without surrounding whitespace, the stripped `get_full_name` the handlers use equals `full_name` |
| `Models.FirstMissing` | accounts/models.py:16-25 | reports the first empty argument in the order email, username, first name, last name, password, and none exactly when all are non-empty |
| `Models.NewUser` | accounts/models.py:48-50 | a created user has the given fields, a password that checks for the given password only, and `is_active`, `is_staff`, `is_superuser` all false |
| `Models.Promoted` | accounts/models.py:34-40 | a superuser has all three flags true and every other field as created |
| `Models.FindByEmail` | accounts/serializer.py:51 | in a table with unique emails, returns the one row with that email, or None exactly when no row has it |
| `Models.SaveError` | accounts/models.py:43-46 | the table admits a row exactly when its four text columns fit in 50 characters and no other row has its username or email |
| `Models.SavePreservesUnique` | accounts/models.py:43-44 | storing an admitted row keeps usernames and emails unique |
| `Models.SameKeysPreserveUnique` | accounts/models.py:43-44 | changing a row without changing its username or email keeps the table unique |
| `Models.UserManager.CreateUser` | accounts/models.py:15-32 | the first empty argument raises its error and changes nothing; otherwise exactly one new inactive row under the next key is added if the table admits it, and the table's `DataError` or `IntegrityError` comes back with nothing changed if it does not; the next key advances only on success; the invariant is kept |
| `Models.UserManager.CreateSuperuser` | accounts/models.py:34-40 | same guards and the same database errors as create_user; on success the one new row, under the next key, has all three flags true |
| `Serializers.LookaheadFindsIff` | accounts/serializer.py:15 | the lookahead `(?=.*X)` succeeds exactly when some X character has no newline before it |
| `Serializers.ClassRunIff` | accounts/serializer.py:15 | the class run matches exactly the strings all of whose characters are in `A-Za-z0-9@$!%*?&` |
| `Serializers.PolicyIff` | accounts/serializer.py:15 | the pattern matched against the whole string is the character-level policy: at least 8 characters, all in the class, with an upper-case letter, a digit and one of `@$!%*?&` |
| `Serializers.LookaheadIgnoresFinalNewline` | accounts/serializer.py:15 | a trailing newline does not change a lookahead's result |
| `Serializers.MatchesAsWritten` | accounts/serializer.py:15-16 | a string `re.match` accepts has at least 8 characters, meets the three lookaheads, and has every character in the class except possibly one final newline |
| `Serializers.AsWrittenAcceptsPolicyPlusNewline` | accounts/serializer.py:15-16 | `re.match` with `$` accepts exactly the policy's passwords and those passwords followed by one newline |
| `Serializers.AsWrittenIsPolicyWithoutFinalNewline` | accounts/serializer.py:15-16 | for strings not ending in a newline the pattern as written is the policy |
| `Serializers.TrailingNewlineSlipsThrough` | accounts/serializer.py:15-18 | `Abcdefg1@` followed by a newline is accepted as written although its last character is outside the class |
| `Serializers.ValidatePassword` | accounts/serializer.py:14-18 | accepts exactly the passwords that satisfy the policy, returns them unchanged, and otherwise reports a weak password on the password field |
| `Serializers.ValidateNewPassword` | accounts/serializer.py:70-74 | the same acceptance as validate_password, with the error on the new-password field |
| `Serializers.SamePasswordPolicy` | accounts/serializer.py:71 | validate_new_password and validate_password accept the same strings |
| `Serializers.AcceptedPasswordShape` | accounts/serializer.py:15-16 | an accepted password has length at least 8, only class characters, an upper-case letter, a digit and a special character |
| `Serializers.NoLowercaseRequired` | accounts/serializer.py:15-17 | `ABCDEFG1@`, which has no lower-case letter, is accepted |
| `Serializers.ValidateRegistration` | accounts/serializer.py:20-23 | fails exactly when password and confirmation differ, and otherwise returns the data unchanged |
| `Serializers.CheckRegistration` | accounts/serializer.py:7-23 | the form passes exactly when username and email are non-blank, fit in 50 characters and are not yet taken, the names are non-blank and fit, the password satisfies the policy and equals its confirmation; a password mismatch always fails |
| `Serializers.RegistrationAdmitted` | accounts/serializer.py:25-33 | data that passed the form passes create_user's guards, and the table admits the new row |
| `Serializers.Serialize` | accounts/serializer.py:7-12 | the serialised user has exactly id, username, email, first and last name, and never the write-only passwords |
| `Serializers.UpdatedAsWritten` | accounts/serializer.py:35-42 | each of username, email, first and last name is replaced exactly when its key is given; the new password checks for the given password, or, without one, for the stored encoded hash; the flags are kept |
| `Serializers.UpdateWithoutPasswordLocksOut` | accounts/serializer.py:40 | as written, an update without a password re-hashes the stored hash, and the user's own password stops checking |
| `Serializers.Updated` | accounts/serializer.py:35-42 | username, email, first and last name are replaced when their key is present and unchanged when absent; the password is set from the given one, or left as it was when absent; the flags are untouched |
| `Serializers.UpdatedAgreesWithPassword` | accounts/serializer.py:40 | when a password is given, the corrected update is the update as written |
| `Serializers.Update` | accounts/serializer.py:35-42 | the row becomes the updated instance if the table admits it, and otherwise stays as it was with the database's error returned; the invariant is kept |
| `Serializers.ValidateLogin` | accounts/serializer.py:48-59 | an unknown email gives the email error; an inactive user gives "verify your email" whatever the password; an active user with a wrong password gives the password error; otherwise the data is returned unchanged |
| `Serializers.ValidatePasswordChange` | accounts/serializer.py:76-81 | new equal to old is reported first, then new differing from its confirmation; success means new differs from old and equals the confirmation |
| `Serializers.CheckPasswordChange` | accounts/serializer.py:65-81 | the form passes exactly when the old password is non-blank, the new one satisfies the policy, differs from the old one and equals the confirmation |
| `Views.Verified` | accounts/views.py:99-107 | after verification, only the token's user, when the token is valid, is set active; every other row and the key set are unchanged |
| `Views.VerifyIdempotent` | accounts/views.py:100-107 | verifying twice with the same token leaves the table as verifying once |
| `Views.RegisterVerifyLogin` | accounts/views.py:88-111 | a newly registered user is refused at login as unverified whatever the password; after their token is used within 3600 s, their password logs in |
| `Views.PasswordChangeTakesEffect` | accounts/views.py:204-211 | after a password change the new password logs in and the old one is refused as incorrect |
| `Views.AddFullName` | accounts/views.py:73-74 | adds the `fullname` key with the user's full name and keeps every other key of the serialised user |
| `Views.AccountService.Register` | accounts/views.py:16-47 | an invalid form changes nothing and the next key stays; otherwise exactly one inactive user is added under the next key; if the task queue accepts, exactly one email to the new user with a token for the new id is queued and the answer is 201 with the user's data; if it fails, the user stays, nothing is queued and the answer is 400 with the error |
| `Views.AccountService.Get` | accounts/views.py:50-86 | an unknown id answers 400; a known id answers that user with `fullname`; without an id, one entry per row in the database's order, each with `fullname` |
| `Views.AccountService.VerifyEmail` | accounts/views.py:88-116 | an invalid or expired token answers 400; an unknown id raises; an active user answers 200 "already verified"; in each of these the table is unchanged; otherwise only that user becomes active |
| `Views.AccountService.ResendVerificationEmail` | accounts/views.py:118-148 | an unknown or missing email raises; an active user answers "already verified" and nothing is queued; an inactive user gets exactly one email to the given address with a token for their id; the table never changes |
| `Views.AccountService.UpdatePassword` | accounts/views.py:197-222 | an invalid form answers 400 with its errors; a wrong old password answers 400 and the password is unchanged; otherwise only that user's password is replaced by the new one |

## Findings

| source | as written | input that shows it | evidently intended | confidence | as-written member | corrected member |
|---|---|---|---|---|---|---|
| accounts/serializer.py:15-16 | the pattern is applied with `re.match` and ends in `$`, which also matches just before a final newline (the same holds at line 71) | `Abcdefg1@` followed by a newline is accepted and returned with the newline | only strings made entirely of class characters pass (a full match) | not executed; medium: the framework's text fields strip surrounding whitespace by default before this validator runs, so the HTTP path may not reach it | `Serializers.TrailingNewlineSlipsThrough` | `Serializers.ValidatePassword` |
| accounts/serializer.py:40 | when `validated_data` has no `password`, `set_password` is given the stored encoded hash, so it hashes the hash | updating a user whose password is `Abcdefg1@` with only a new first name; afterwards `Abcdefg1@` no longer checks | the password stays unchanged when none is given | not executed; high for the method itself, though no handler in the repository calls it | `Serializers.UpdateWithoutPasswordLocksOut` | `Serializers.Updated` |

## Left out

- accounts/email.py (the Celery task, template rendering and SMTP): a queued email is one `VerificationEmail` appended to the outbox; the task queue's failure is the `brokerFailure` parameter.
- accounts/urls.py, tcc/urls.py and accounts/admin.py: routing and admin configuration. The emailed link (accounts/views.py:25) uses `/accounts/verify-email/?token=`, while the route is `api/account/verify-email/<token>/`. This wiring mismatch is not modelled.
- The internals of signing (HMAC, serialisation, salt from the environment): a token is an opaque `(user_id, issued_at, authentic)`.
- `UserLoginAPIView` and `GetAccessToken` (accounts/views.py:150-191): they mint JWTs through a foreign library. Only the login serializer is modelled.
- Password hashing: an abstract injective hash, so hash collisions are not modelled.
- `normalize_email` and `validate_email` (accounts/models.py:8-13, 27-28), and the serializer's email-format check: library behaviour not shown. The model stores the email as given and treats every non-empty email as valid.
- ORM persistence, `print` logging and response objects: the table is a map, responses are `(status, body)` values, and exceptions are `Reply` cases.
- Randomness of `generate_random_string`: the choice of each character is the parameter `draw`.
- Utils.GenerateToken: the clock is whole seconds. Django stamps a token with the truncated `int(time.time())` but compares the real elapsed time against `max_age`, so a real token can expire up to one second before the model's 3600; that truncation is not modelled.
- `created_at`, `updated_at` and `__str__` of the user model.
- Python's `\d` also matches non-ASCII decimal digits. The model's digit class is `0-9` only, and likewise `strip()` is modelled over ASCII whitespace only.
- Framework field checks: the model reports only the first failing check of each field, in the order blank, too long, already taken, then the custom validator. The framework stops at a blank value but otherwise collects the error of every validator on the field, runs the uniqueness check before the length check on model-derived fields, and rejects NUL characters in every text field; none of that is modelled, so a taken username over 50 characters gets one error in the model and two in the program. The framework's messages and its whitespace trimming are not modelled either.
- Serializers.CheckRegistration: its error list holds at most one error per field (the first failing check above), which is fewer than the framework reports when several validators of one field fail; whether the form passes is as the framework decides, apart from the simplifications listed above (no email-format check, no whitespace trimming, NUL characters admitted).
- Serializers.CheckPasswordChange: the same one-error-per-field simplification.
- Views.AccountService.Register: an invalid form's reply carries the error list of `CheckRegistration`, with the simplification above.
- Validation error texts: an error is its field and its `Problem`; the message strings serializer.py attaches to them are not carried.
- The database is assumed to enforce `max_length` (a `DataError`) as well as uniqueness (an `IntegrityError`).
- The catch-all `except Exception` branches fire only for failures the model has no counterpart for: a database error while listing, a failure while saving a password, or a malformed token payload. The task-queue failure is the exception and is modelled.
- The `user_id` query parameter is an `Option<int>`: absent or empty is `None`. A non-numeric value, which makes the lookup raise, is not modelled.
- `UpdatePasswordAPIView`'s authentication: the method requires the authenticated user's id to be in the table.
- `Serializers.Updated` keeps the stored hash when `password` is absent, where accounts/serializer.py:40 hands the encoded hash to `set_password` and so re-hashes it; the as-written behaviour is `Serializers.UpdatedAsWritten`.
- `Serializers.Update` uses the corrected update of the Findings table; the update as written is `Serializers.UpdatedAsWritten`.
- `Serializers.ValidatePassword` and `Serializers.ValidateNewPassword` use the corrected full-match pattern of the Findings table; the pattern as written is `Serializers.MatchesAsWritten`.

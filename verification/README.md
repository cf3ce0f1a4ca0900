# Image-hosting backend: account and upload rules in Dafny

This project models the decision rules of a small image-hosting backend: its
account service (registration, login, profile update, deletion) and its image
upload checks. The model is purely functional. A user is an immutable record.
The user table is a map from primary key to record. Every handler is a total
function from the request, the table and the outcomes of the abstract
collaborators (password hashing, authentication, token issuance) to a response
and a new table.

Modules, following the source files:

- `Results`: `Option` and `Result`, for missing request fields and validator errors.
- `Chars`: ASCII character classes, `Any` and `All` over strings, and `Strip`, Python's `str.strip()` over ASCII whitespace.
- `Api`: JSON bodies, HTTP responses, per-field error lists, and `Checked`. `Checked` is the outcome of `is_valid()`: data, collected errors, or an exception that is not a validation error.
- `EmailPattern`: the language of the email regular expression. It is defined declaratively (`SplitsAt`, `MatchesBody`, `Matches`) and decided by a verified scanner (`ScanBody`, `ScanEmail`).
- `UserValidations`: `validate_email`, `validate_password`, `validate_name`.
- `ImageValidations`: `validate_image_type`, `validate_image_size`.
- `Accounts`: the `User` record, the abstract `Hasher`, and the table with its invariant. The invariant says each row sits under its own key and no two rows share an email.
- `UserSerializers`: the registration serializer and the partial profile-update serializer.
- `ImageSerializers`: the upload serializer's validation order and owner rule.
- `UserViews`: the login, registration and delete handlers.

Points where the code's behaviour is easy to misread:

- The domain-body class of the email pattern is written `[a-zA0-9.-]`. It admits lower-case letters, the single upper-case letter `A`, digits, `.` and `-`. So `ann@Example.com` is rejected, while `ann@Aexample.com` and `ann@example.COM` are accepted.
- Python's `re.match` with `$` also accepts one trailing newline, and the model accepts it too.
- `updated_at` is declared `auto_now` (backend/users/models.py:12). Every save therefore stamps it with the current day, so a successful update sets it to `today`. The client cannot set it (backend/users/serializers.py:18), but it does change. `user_id` and `created_at` never change.
- Registration's cross-field check indexes `attrs['first_name']` directly (backend/users/serializers.py:82). A request without a first or last name therefore raises a lookup error, and the view answers it with the generic 500 (backend/users/views.py:62-68) rather than a 400.
- The image owner is attached only for a signed-in requester. The model states which arguments the image row is created with. It does not claim that a row without an owner can be stored, because `owner` is a non-nullable foreign key in backend/image_management/models.py:10.
- Every text field of both user serializers trims surrounding whitespace before any check: the blank test, the field's validators, the cross-field check and the stored value all see the stripped text. So `ann@example.com\n` collides with `ann@example.com`, `" Passw0r "` fails the length rule, and a name of spaces is empty. Login does not strip (backend/users/views.py:91-92). A password registered with surrounding whitespace is therefore stored stripped and is refused when typed as registered (`UserViews.PaddedPasswordLocksOut`).
- The update serializer does not apply `validate_email`. Its `email` field is derived from the model field (backend/users/models.py:10), so its checks are the framework's blank test, `max_length`, uniqueness and Django's email validator. The model keeps the blank test and uniqueness (see "Left out"), so `UpdateEmailField` checks those two only.

## Model

| member | source | states |
|---|---|---|
| `UserValidations.ValidateEmail` | backend/users/validations.py:4-9 | accepts exactly the strings the pattern matches and returns them unchanged; every rejection is the single invalid-email error |
| `EmailPattern.ScanEmail` | backend/users/validations.py:6-7 | a left-to-right scan decides exactly the declarative language of the anchored pattern, including the one trailing newline that `$` tolerates |
| `EmailPattern.ScanBody` | backend/users/validations.py:6 | locating the first `@` and the last `.` and checking the three character classes decides exactly `MatchesBody` |
| `EmailPattern.Matched` | backend/users/validations.py:6-7 | an accepted string is either a sentence of the pattern body or such a sentence followed by one newline |
| `EmailPattern.SplitIsUnique` | backend/users/validations.py:6 | the pattern is unambiguous: the `@` and the final `.` of a match are determined by the string |
| `EmailPattern.AcceptedHasOneAt` | backend/users/validations.py:6-7 | every accepted string contains exactly one `@`, because neither character class contains it |
| `UserValidations.AcceptedEmailHasOneAt` | backend/users/validations.py:6-9 | an email that `validate_email` accepts has exactly one `@` |
| `UserValidations.DomainAdmitsCapitalA` | backend/users/validations.py:6 | the domain body admits the upper-case `A` |
| `UserValidations.AddressSplitsOnlyAtJoints` | backend/users/validations.py:6 | when the local part has only local characters and the final label only letters, the pattern can split `local@body.label` only at its own `@` and its last `.` |
| `UserValidations.DomainRejectsOtherCapitals` | backend/users/validations.py:6-8 | for any local part, domain body and all-letter label, an upper-case letter other than `A` anywhere in the domain body makes the address invalid |
| `UserValidations.LabelAdmitsUpperCase` | backend/users/validations.py:6 | any non-empty local part and domain body followed by a final label of at least two ASCII letters, in any case, form an accepted address |
| `UserValidations.TrailingNewlineAccepted` | backend/users/validations.py:6-7 | every sentence of the pattern body stays accepted when one newline is appended |
| `UserValidations.ValidatePassword` | backend/users/validations.py:11-21 | accepts exactly when the length is at least 8 and there is a digit, an upper-case and a lower-case letter, and then returns the input unchanged; any password shorter than 8 gets the length error whatever its contents; every error names a check the password fails |
| `UserValidations.FirstViolated` | backend/users/validations.py:13-20 | finds the first check, in list order, that the password fails, or none when all pass |
| `UserValidations.PasswordErrorIsFirstViolated` | backend/users/validations.py:13-20 | the error is the first failed check in the order length, digit, upper case, lower case |
| `UserValidations.ScanAny` | backend/users/validations.py:15-19 | the early-exit scan `any(...)` finds a character of the class exactly when one exists |
| `UserValidations.CheckPassword` | backend/users/validations.py:11-21 | running the checks as the source does (a length test, then one scan per class) gives the same result as the rule, and its error is the first failed check |
| `UserValidations.ValidateName` | backend/users/validations.py:23-27 | rejects with the names-required error exactly when either name is empty; otherwise returns true |
| `ImageValidations.ValidateImageType` | backend/image_management/validations.py:4-9 | accepts exactly the four content types `image/jpeg`, `image/png`, `image/jpg`, `image/gif` and returns the file unchanged |
| `ImageValidations.ContentTypeMatchIsExact` | backend/image_management/validations.py:6-7 | matching is exact and case sensitive: `image/JPEG`, `application/pdf` and `image/png ` are rejected |
| `ImageValidations.ValidateImageSize` | backend/image_management/validations.py:13-17 | accepts exactly the sizes up to and including the limit and returns the file unchanged; a rejection carries the limit |
| `ImageValidations.DefaultMaxSizeIsFiveMiB` | backend/image_management/validations.py:13 | the default limit is 5 * 1024 * 1024 = 5,242,880 bytes |
| `ImageValidations.SizeAcceptanceDownwardClosed` | backend/image_management/validations.py:15-16 | a file no larger than an accepted one is accepted |
| `ImageSerializers.ValidateUpload` | backend/image_management/serializers.py:29-35 | when `validate` receives no file it reports "No file provided." before anything else; size is checked before type, and a type error carries the unsupported-type message; success returns the attributes unchanged |
| `ImageSerializers.SizeCheckedBeforeType` | backend/image_management/serializers.py:33-34 | an oversized file reports the size error whatever its type |
| `ImageSerializers.UploadExamples` | backend/image_management/serializers.py:29-35 | a PDF is rejected, a 6 MiB JPEG is rejected, and a 100 KiB PNG is accepted by `validate` under any file name |
| `ImageSerializers.CreateImage` | backend/image_management/serializers.py:37-44 | the owner is set, to the requester, exactly when a requester is present and signed in |
| `ImageSerializers.Upload` | backend/image_management/serializers.py:29-44 | `create` is called exactly when validation passes, with the arguments the owner rule gives |
| `Accounts.EmailSelectsAtMostOne` | backend/users/models.py:10-26 | in a table with unique emails, a lookup by email finds at most one row, and exactly one when the email is taken |
| `Accounts.Insert` | backend/users/models.py:8-26 | an insert succeeds exactly when neither the key nor the email is present; it adds only the new row and keeps the table's invariant |
| `Accounts.Save` | backend/users/models.py:10-26 | saving a row succeeds exactly when no other row has its email; it changes only that row and keeps the invariant |
| `Accounts.Remove` | backend/users/views.py:214 | removes exactly the row under the key, keeps every other row and the invariant |
| `Chars.TrimStartDropsSpace` | backend/users/serializers.py:66 | the result is a suffix of the input, everything cut off is whitespace, and it does not start with whitespace |
| `Chars.TrimEndDropsSpace` | backend/users/serializers.py:66 | the result is a prefix of the input, everything cut off is whitespace, and it does not end with whitespace |
| `Chars.Strip` | backend/users/serializers.py:11-13 | the stripped text is no longer than the input and neither starts nor ends with whitespace |
| `Chars.StripKeepsMiddle` | backend/users/serializers.py:66 | the stripped text is a middle part of the input with only whitespace before and after it |
| `Chars.StripBlank` | backend/users/serializers.py:66 | stripping leaves nothing exactly when the input is whitespace only |
| `Chars.StripIdempotent` | backend/users/serializers.py:66 | stripping a stripped text changes nothing |
| `Chars.StripFixed` | backend/users/serializers.py:66 | a text is its own strip exactly when it neither starts nor ends with whitespace |
| `UserSerializers.Collect` | backend/users/serializers.py:64-83 | the collected field errors are empty exactly when every field check passes, and hold each failed check's message under its field name |
| `UserSerializers.CollectOnlyFailures` | backend/users/serializers.py:64-83 | every collected field error is the message of a failed check, under that check's field name |
| `UserSerializers.RegistrationEmailField` | backend/users/serializers.py:72-74 | the email field strips its value; it passes exactly when the value is present, the stripped text is non-blank, not already in the table and accepted by the email rule, and then hands on the stripped text; a missing value is "required", a value of only whitespace is "blank", and a taken one gets the uniqueness message |
| `UserSerializers.RegistrationPasswordField` | backend/users/serializers.py:66-78 | the password field passes exactly when it is present and its stripped text is strong, and hands on the stripped text; whitespace only is "blank", and a stripped text shorter than 8 gets the length message |
| `UserSerializers.RegistrationFieldErrors` | backend/users/serializers.py:66-78 | the registration's field errors are empty exactly when the email and password fields pass, and list each failing field's message under its name |
| `UserSerializers.ValidateRegistration` | backend/users/serializers.py:72-83 | a field failure is reported under its field name; without field errors, a missing name raises and a name that is empty once stripped fails the cross-field check with the names message as the only error; validation passes exactly when every rule holds, and yields the request's fields stripped |
| `UserSerializers.CreateUser` | backend/users/serializers.py:85-91 | the new row stores the hash of the password, never the plaintext |
| `UserSerializers.Register` | backend/users/serializers.py:72-91 | registration adds exactly one row, holding the request's stripped names and email and the hash of its stripped password, exactly when validation passes and the key is fresh; other rows are untouched and the invariant is kept |
| `UserSerializers.UpdateEmailField` | backend/users/serializers.py:17 | a supplied email must be non-blank once stripped and its stripped text must belong to no other row; the stripped text is handed on |
| `UserSerializers.OldPasswordField` | backend/users/serializers.py:11-25 | a supplied old password must be non-blank once stripped, and the stripped text must verify against the serializer's user |
| `UserSerializers.NewPasswordField` | backend/users/serializers.py:12-31 | a supplied new password's stripped text must be strong, and that text is handed on |
| `UserSerializers.ConfirmField` | backend/users/serializers.py:13 | a supplied confirmation must not be whitespace only, and its stripped text is handed on |
| `UserSerializers.ProfileFieldErrors` | backend/users/serializers.py:11-31 | the update's field errors are empty exactly when the email, old-password, new-password and confirmation fields all pass |
| `UserSerializers.ValidateProfile` | backend/users/serializers.py:20-37 | validation passes exactly when every supplied field passes and the stripped new password and confirmation are equal, both absent included; it raises exactly when there is no serializer user and the old password is non-blank once stripped; accepted data is the request stripped |
| `UserSerializers.ApplyFields` | backend/users/serializers.py:59-60 | supplied names and email replace the old values, unsupplied fields keep theirs, key, creation time and credential are kept, and the save stamps the day |
| `UserSerializers.ApplyProfile` | backend/users/serializers.py:39-60 | a new password needs a non-empty old password that verifies; on success the credential becomes the hash of the new password, and without a new password it is unchanged |
| `UserSerializers.UpdateProfile` | backend/users/serializers.py:17-60 | an update succeeds exactly when every rule holds on the stripped fields; mismatched, weak or unverified passwords are rejected; success keeps the key and creation time, applies exactly the supplied fields stripped, sets the hash of the stripped new password, and keeps the table's invariant |
| `UserSerializers.UpdateWith` | backend/users/serializers.py:11-60 | `is_valid()` then `save()` for any context: it fails with an attribute error exactly when there is no context user and the stripped old password is non-blank; mismatched passwords never update; an update keeps the key and creation time, stamps `updated_at`, applies exactly the supplied fields stripped, sets the hash of the stripped new password, writes only that row and keeps the table's invariant |
| `UserSerializers.UpdateWithUserSucceeds` | backend/users/serializers.py:17-60 | with the signed-in user as context, `is_valid()` then `save()` stores a row exactly when the request is acceptable, and the stored table keeps its invariant |
| `UserSerializers.ReadOnlyFieldsIgnored` | backend/users/serializers.py:18 | whatever the request puts in `user_id`, `created_at` and `updated_at`, the update is the same |
| `UserSerializers.UpdateThroughView` | backend/users/views.py:183-189 | as the detail view builds the serializer, without a context user, any old password that is non-blank once stripped raises an attribute error; otherwise the outcome is the one with the user |
| `UserSerializers.PasswordChangeNeedsContextUser` | backend/users/serializers.py:20-25 | a well-formed password change (stripped old password verifies, stripped new password strong) raises through the view but succeeds, storing the hash of the stripped new password, when the serializer is given the user |
| `UserViews.PublicUser` | backend/users/views.py:38-43 | the user payload has exactly the keys `user_id`, `first_name`, `last_name`, `email` and never a password |
| `UserViews.Login` | backend/users/views.py:91-145 | missing or empty fields give 400 before any lookup; an unknown email or a failed authentication gives 401 with the same body; otherwise 200 with both tokens and the public user fields |
| `UserViews.NoAccountExistenceLeak` | backend/users/views.py:104-123 | an unknown email and a known email with a wrong password produce equal responses |
| `UserViews.RegisterView` | backend/users/views.py:28-68 | 201 with the public fields of the new row, built from the stripped request, exactly when registration is acceptable and the key is fresh; 400 with the serializer errors exactly when validation fails; otherwise 500 with the generic message; only a 201 changes the table |
| `UserViews.DuplicateEmailRejected` | backend/users/models.py:10 | registering an email whose stripped text is already in the table answers 400 with the uniqueness error on `email` and leaves the table unchanged |
| `UserViews.MissingFirstNameIsServerError` | backend/users/views.py:62-68 | a request whose fields pass but that lacks a first name gets the generic 500 and changes nothing |
| `UserViews.DeleteView` | backend/users/views.py:209-222 | deletion removes exactly the user's row and answers 200 "User deleted successfully." |
| `UserViews.RegisterThenLogin` | backend/users/views.py:28-145 | after a successful registration whose email and password carry no surrounding whitespace, logging in with the same email and password answers 200 with that user's fields, given a sound hasher and the email backend |
| `UserViews.LoginAcceptsStoredPassword` | backend/users/views.py:91-145 | with the email backend and a sound hasher, a row's email and the password its credential was made from log in as that row, with its tokens and public fields |
| `UserViews.LoginChecksStoredPassword` | backend/users/views.py:91-123 | with the email backend and a hasher that accepts exactly the password a credential was made from, a row's email logs in with that password and is refused with any other |
| `UserViews.PaddedPasswordLocksOut` | backend/users/views.py:91-115 | a password registered with surrounding whitespace is refused (401) when sent as registered, and only its stripped text logs in |
| `UserViews.AnnLeeIsStripped` | backend/users/views.py:34-52 | none of the sample's fields carries surrounding whitespace |
| `UserViews.AnnLeeRegisters` | backend/users/views.py:34-52 | registering Ann Lee with `ann@example.com` and `Passw0rd1` answers 201 and stores her email |

## Left out

- Hashing, authentication and token issuance are parameters. `Hasher` abstracts `set_password` and `check_password`; the random salt is not modelled. Authentication is a function from email and password to an optional user. Tokens are a function from a user to a token pair (backend/users/tokens.py).
- `managers.py` (`CustomUserManager.create_user`) is not part of this model. The stored email is the validated one; any normalisation the manager performs is not modelled.
- Framework field checks beyond required, blank, whitespace trimming and email uniqueness are not modelled: Django's own email validator, `max_length`, and the null-character and surrogate-character validators every text field runs (so a strong password containing `\0` passes `RegistrationPasswordField` here, while the source answers "Null characters are not allowed."). Each field is modelled with at most one error message.
- Chars.Strip: strips the ASCII whitespace Python's `str.strip()` removes; the non-ASCII whitespace it also removes (such as U+00A0 and U+2003) is not modelled, like the other character classes.
- UserSerializers.RegistrationEmailField: the source also runs Django's email validator on the stripped value, before `validate_email`. That validator is not modelled, so addresses such as `a..b@example.com` and `ann@b..com` pass this field here but not in the source.
- ImageValidations.ValidateImageSize: the rejection carries the limit instead of the message text, because the text renders `max_size / 1048576` as a Python float.
- UserValidations.ValidatePassword: the digit, upper-case and lower-case tests are ASCII only. Python's `str.isdigit`, `str.isupper` and `str.islower` also accept other Unicode characters.
- UserSerializers.UpdateEmailField: accepts any non-blank email no other row holds. The source also runs Django's email validator on this field, and that validator is not modelled.
- ImageSerializers.ValidateUpload: models the serializer's `validate` method only. The `original` field is a required image field (backend/image_management/serializers.py:17-20), so through `is_valid()` a request without a file fails at field level with the framework's "No file was submitted." and `validate` is never called without one; "No file provided." is reached only by calling `validate` directly. Django's falsy-file rule (an empty file name) and field-level image decoding are not modelled either. That decoding does two things the model does not: it runs the image-extension validator on the file name, so a PNG named `notes.txt` gets a field error; and it overwrites the file's `content_type` with the MIME type of the format it detects, so `validate_image_type` never sees the type the client declared (a PNG sent as `application/octet-stream` is accepted, and `image/jpg` or `image/JPEG` can never reach the allow-list).
- UserViews.Login: requires a table with unique emails. The store's constraint guarantees this, and it means the lookup by email never sees two rows.
- UserViews.DeleteView: always answers 200. The handler's 404 branch catches a not-found exception that deleting an already loaded row does not raise.
- The update view's HTTP response is not modelled. Errors raised by `update` after validation (old password required or incorrect) are not caught by the view, so they are modelled as `UpdateRefused` results, not status codes.
- `REQUIRED_FIELDS = []` (backend/users/models.py:16) only affects the framework's superuser command, which is not modelled. The absence of a username column is reflected in the shape of `User`.
- Image metadata extraction (`Image.save`) is left out: it fetches the file over the network and decodes it.
- Deleting a user cascades to that user's images, which are not modelled.
- Pagination (page size 20, maximum 100) is framework code, so it is left out.
- The empty logout view has no behaviour.
- Retrieval and listing views are left out, along with routing, logging, the task queue and the fake-data commands.
- Inactive accounts and the other `AbstractUser` columns are left out.

## Findings

| source | as written | input that shows it | evidently intended | confidence | as-written member | corrected member |
|---|---|---|---|---|---|---|
| backend/users/views.py:186 with backend/users/serializers.py:22-23 | the detail view builds the update serializer without a `user` in its context, so `validate_old_password` calls `check_password` on `None` | a PUT with `old_password` set to the current password, `new_password` and `confirm_new_password` both `Passw0rd2` | the serializer checks the old password against the signed-in user | high (not executed) | `UserSerializers.UpdateThroughView` (shown by `UserSerializers.PasswordChangeNeedsContextUser`) | `UserSerializers.UpdateProfile` (shown by `UserSerializers.PasswordChangeNeedsContextUser`) |

# Account login helper and account serializer, in Dafny

This project models two pieces of an account-management backend:

- **The login helper** (`helper/Get_Username_Object.py`). A user types one identifier and a password. A regular expression decides whether the identifier is an e-mail address. An e-mail address is looked up in the user table's `mail` column; anything else is looked up in the `username` column. On success the helper returns the *stored* username and the typed password, and records the found row in its `user` field. On any failure it returns `(None, None)` and leaves `user` as it was.
- **The account serializer** (`accounts_app/serializers.py`). It declares the field constraints that a request body is checked against. It renders a stored account without its write-only password. Its `create` inserts the validated data unchanged, `update` merges the supplied fields into a model instance in place and saves it, and `delete` removes the row.

Modules:

- `Wrappers` (`wrappers.dfy`): `Option` and `Result`.
- `EmailPattern` (`email_pattern.dfy`): the pattern `^[a-zA-Z0-9_.+-]+@[a-zA-Z0-9-]+\.[a-zA-Z0-9-.]+$` as a character-class scanner (`Step`, `Run`, `IsEmail`). It is proved to accept exactly the strings `L '@' D '.' R`, optionally followed by one `'\n'`, because Python's `$` also matches before a final newline.
- `GetUsernameObject` (`get_username_object.dfy`): the user rows the helper reads, the ORM `get` (it succeeds only when exactly one row matches), the specification function `Resolve` of a login, and the class `GetUserObject` with its mutable `user` field.
- `Serializers` (`serializers.dfy`): the stored record, request bodies and `validated_data`, validation against the declared bounds, `Merge` (the record `update` produces), `NewRecord` (the row `create` inserts), `Serialize`, the classes `Account` (the model instance) and `Table` (the user table), and the methods `Create`, `Update` and `Delete`.

Facts about the code that a reader might not expect (the model follows the code):

- `create` passes the password to the store as it was sent. Nothing in the serializer hashes it (`CreateFromValidPayload`).
- `update` ignores a supplied password. It does not re-hash it (`MergeSpec`).
- First name, last name and birthdate are declared optional, not required.
- The login view shows different messages for an unknown user and a wrong password (`accounts_app/views.py:25-27` and `:33-35`). The helper's `(None, None)` result is what tells the view that the user was not found. The model makes no claim that the two cases look alike.
- The helper looks up the column `mail`, and the serializer writes a field `email`. The model file of the `User` table is not part of this model, so the two are kept as separate columns (`GetUsernameObject.User.mail` and `Serializers.AccountRecord.email`).

## Model

| member | source | states |
|---|---|---|
| EmailPattern.Characterization | helper/Get_Username_Object.py:6 | the pattern accepts a string exactly when it is `L '@' D '.' R` with optionally one final `'\n'`, where L is a non-empty run of `[A-Za-z0-9_.+-]`, D of `[A-Za-z0-9-]` and R of `[A-Za-z0-9.-]` |
| EmailPattern.Complete | helper/Get_Username_Object.py:6 | every string of that shape, with or without the final newline, is classified as an e-mail address |
| EmailPattern.ReachedInvariant | helper/Get_Username_Object.py:6 | after any prefix the scanner's state describes that prefix exactly (the soundness half of the characterization) |
| EmailPattern.ExactlyOneAt | helper/Get_Username_Object.py:6 | an accepted string contains exactly one `'@'` |
| EmailPattern.NoAtIsNotEmail | helper/Get_Username_Object.py:6 | a string without `'@'` is never classified as an e-mail address |
| EmailPattern.ScenarioAddress | helper/Get_Username_Object.py:6 | `alice@x.com` is an e-mail address, and so is `alice@x.com` followed by one newline |
| GetUsernameObject.Filter | helper/Get_Username_Object.py:29-31 | the rows a `get` filters to are exactly the table rows whose chosen column equals the key |
| GetUsernameObject.FilterSingleton | helper/Get_Username_Object.py:29-31 | the filter yields just row i exactly when row i is the only matching row |
| GetUsernameObject.GetSpec | helper/Get_Username_Object.py:29-31 | `get` returns a row exactly when one and only one row matches, and then it returns that row; no match or several matches give None |
| GetUsernameObject.NoAtMeansUsernameLookup | helper/Get_Username_Object.py:28-31 | an identifier without `'@'` is looked up by `username` |
| GetUsernameObject.ResolveSpec | helper/Get_Username_Object.py:22-36 | a login succeeds exactly when one row matches in the column the pattern selects (`mail` for an e-mail address, `username` otherwise), and then returns that row's stored username with the typed password unchanged |
| GetUsernameObject.EmailLoginYieldsStoredUsername | helper/Get_Username_Object.py:28-36 | a login by e-mail address returns the matching account's username, not the typed text |
| GetUsernameObject.EmailNeverFallsBackToUsername | helper/Get_Username_Object.py:27-34 | an e-mail identifier that matches no `mail` or several fails, whatever the usernames are |
| GetUsernameObject.FailureIsBothNone | helper/Get_Username_Object.py:27-34 | a failed lookup, including a missing identifier, returns None for both parts, never for only one |
| GetUsernameObject.GetUserObject.constructor | helper/Get_Username_Object.py:9-11 | a new helper object has no user recorded |
| GetUsernameObject.GetUserObject.GetUserObjectFromMail | helper/Get_Username_Object.py:13-20 | returns the one row whose `mail` equals the argument, or None when no row or several rows match |
| GetUsernameObject.GetUserObject.GetUserFromForm | helper/Get_Username_Object.py:22-36 | returns what `Resolve` specifies; after success `user` is the found row, after failure `user` keeps its previous value |
| Serializers.Validate | accounts_app/serializers.py:6-15 | validation succeeds exactly when no non-null field is null, every present field meets its declared bound (username 1-150, first name up to 30, last name up to 150, phone number 1-20, e-mail and password non-blank, e-mail valid, no null character in any text field, wallet within 12 digits) and, in a full validation, username, email, password and phonenumber are present; the result is the body without `id`; a failure names at least one field |
| Serializers.NullCharacterRejected | accounts_app/serializers.py:7 | a username holding a null character fails validation, partial or full, and the failure names the username |
| Serializers.MissingRequiredFails | accounts_app/serializers.py:7-14 | a full validation without username, email, password or phonenumber fails and names that field |
| Serializers.IdIsIgnored | accounts_app/serializers.py:6 | the `id` sent in a body has no effect on validation, so it never reaches the store |
| Serializers.MergeSpec | accounts_app/serializers.py:20-28 | every supplied field replaces the old value, every other field keeps it, and `id` and `password` never change |
| Serializers.MergeIdempotent | accounts_app/serializers.py:21-28 | applying the same data twice gives the same record as applying it once |
| Serializers.MergeNoChanges | accounts_app/serializers.py:21-28 | an update with no fields supplied leaves the record unchanged |
| Serializers.EmptyPartialUpdate | accounts_app/serializers.py:20-28 | a partial update with an empty body validates to no changes and leaves the record unchanged |
| Serializers.PartialUpdateFromPayload | accounts_app/serializers.py:20-28 | after a partial validation the fields sent are the new values, the others are kept, and the password stays as it was |
| Serializers.CreateFromValidPayload | accounts_app/serializers.py:17-18 | after a full validation the new row holds the sent values and the sent password verbatim; its id is the store's; unsent optional fields take their defaults |
| Serializers.Serialize | accounts_app/serializers.py:6-15 | the output has every declared field except `password` |
| Serializers.SerializeHidesOnlyPassword | accounts_app/serializers.py:11 | two accounts render alike exactly when they differ at most in their password |
| Serializers.Table.Save | accounts_app/serializers.py:29 | saving replaces the row under the instance's id with the instance's values and keeps every other row |
| Serializers.Table.Insert | accounts_app/serializers.py:18 | the new row gets an id not yet in use and holds the data merged over the defaults; other rows are kept |
| Serializers.Table.Remove | accounts_app/serializers.py:33 | deleting removes the instance's row only and reports whether a row was removed |
| Serializers.Create | accounts_app/serializers.py:17-18 | `create` inserts one fresh row built from the validated data unchanged and returns its instance |
| Serializers.Update | accounts_app/serializers.py:20-30 | `update` leaves the instance equal to the merge of its old values with the data, saves exactly that row, and returns the same instance |
| Serializers.Delete | accounts_app/serializers.py:32-33 | `delete` removes the instance's row and nothing else |

## Left out

- The login and registration views, the API views and the URL routes: they hand every decision to the web framework (authentication, sessions, templates, messages, HTTP responses).
- Token issuance, refresh and expiry, rate limiting and password hashing: none of them has code in these files.
- Logging and the `print` calls: they do not affect any result.
- The ORM is modelled as an abstract table. `get` is a filter that succeeds only on exactly one match. Transactions, database cascades on delete, and unique constraints are not modelled, because the model file that would declare them is not part of this model.
- The defaults a new row takes for unsent fields (empty text, null birthdate and national id, zero wallet) are assumed from the framework's conventions. The model file that declares them is not part of this model.
- `Serializers.Table.Insert`: ids come from a counter that never reuses a value; the database's own id sequence is not modelled.
- The framework's own field checks are taken as given: the e-mail validator is the parameter `emailValid` (the null-character check of every text field is modelled; its surrogate check holds of every Dafny `char`), a birthdate arrives already parsed as a `Date`, and a wallet arrives as whole cents. Decimal rounding and the rejection of more than two decimal places are not modelled.
- Text fields strip surrounding whitespace before validation by default, and non-string input is converted to text. Neither is modelled: values are taken as already trimmed strings.
- `GetUsernameObject.GetUserObject.GetUserObjectFromMail`: the argument is always a string. A None argument, which the ORM turns into a null test, is not modelled.
- Whether the database compares strings case-sensitively depends on its collation. The model compares them exactly.
- Concurrency between requests is not modelled.

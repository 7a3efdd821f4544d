# Twitter API (FastAPI) — a Dafny model of the record handling

The service keeps two collections, users and tweets, each as a JSON array in its own file
(`users.json`, `tweets.json`). Its route handlers read a whole collection, scan it or append
one record, and write the whole collection back. This project models that record handling:

- `Models` (`models.dfy`): the request models `UserBase`, `UserLogin`, `User`, `Tweet` and
  `UserRegister`, and the length constraints their fields declare (password at least 8
  characters, first and last name 1 to 50, tweet content 1 to 256). The web framework checks
  these before a handler runs; the model computes the list of violations it reports and proves
  that the list is empty exactly when every bound holds.
- `Records` (`records.dfy`): the rows the files hold. Signup stores the registration with
  `user_id` and `birth_date` turned into strings and every other field, the password included,
  as given. Post stores the tweet with `tweet_id`, `created_at`, `updated_at`, `by.user_id` and
  `by.birth_date` turned into strings. An absent optional value is stored as the string `"None"`.
  The string conversions of UUIDs, dates and datetimes (Python's `str`) are library behaviour:
  they are a parameter, `Canon`, and `Lossless(c)` states what the model assumes of them where a
  lemma needs it. This module also holds the reference definitions of the two scans
  (`FindByEmail`, `HasCredentials`) and the lemmas about them.
- `Api` (`api.dfy`): a `Store` class whose `users` and `tweets` fields are the decoded file
  contents. Each handler is a method. `Signup` and `Post` append one row and keep the
  invariant that every stored row meets its bounds. `Login` and `ShowAUser` are the source's
  `for` loops with early return, proved against the reference definitions. `ShowAllUsers` and
  `Home` return the stored collection. The read handlers have no `modifies` clause, so they
  change nothing, and two listings with no write between them are equal.
- `Scenario` (`scenario.dfy`): a client that runs, on fresh collections, two signups under one
  e-mail, a lookup, logins and a post. It is proved from the handlers' contracts alone.

Points where the code's behaviour deserves stating:

- Signup performs no e-mail uniqueness check. A second registration with the same e-mail is
  stored too (`DuplicateEmailIsStored`), and the lookup by e-mail keeps returning the earlier
  row (`FindByEmailAfterAppend`).
- `show_a_user` is bound to `POST /users/{user_id}`. It looks the user up by the e-mail in the
  request body and ignores both the path's `user_id` and the body's `user_id`.
- Login succeeds when any row matches both e-mail and password. A row with the right e-mail and
  a wrong password does not stop the scan. On success it returns every stored tweet, unfiltered.
- Passwords are stored and compared in plain text.

## Model

| member | source | states |
|---|---|---|
| `Models.CheckLength` | main.py:27-31 | a field with a minimum and an optional maximum length passes exactly when its length lies within them; otherwise it gets one violation at its own location, and that violation names the bound broken with its value: the minimum when the string is too short, else the maximum |
| `Models.UserLoginViolations` | main.py:22-23 | a login request is accepted exactly when its password has at least 8 characters; the only violation it can get concerns the password's minimum length |
| `Models.UserViolations` | main.py:26-36 | a User is accepted exactly when first and last name are both 1 to 50 characters long; violations concern only those two fields |
| `Models.UserRegisterViolations` | main.py:52-53 | a registration is accepted exactly when both names are 1 to 50 characters long and the password has at least 8; violations concern only those three fields |
| `Models.TweetViolations` | main.py:40-49 | a tweet is accepted exactly when its content is 1 to 256 characters long and the embedded user's names are 1 to 50; violations are located at `content` or under `by` |
| `Records.OptionalText` | main.py:90 | an absent value becomes the string "None", a present one its own string; when no value prints as "None", that string marks exactly the absent value |
| `Records.UserRow` | main.py:88-90 | the stored user row has `user_id` and `birth_date` converted, a missing birth date stored as "None", and every other field, the password included, as given; without the password it is the row post embeds for the same user |
| `Records.AuthorRow` | main.py:278-279 | the user snapshot stored in a tweet has `user_id` and `birth_date` converted as signup converts them, a missing birth date stored as "None", and e-mail and names as given |
| `Records.TweetRow` | main.py:274-279 | the stored tweet row has `tweet_id` and `created_at` converted, a missing `updated_at` stored as "None", the content as given, and the posting user converted as `AuthorRow` states |
| `Records.FindByEmail` | main.py:184-191 | the lookup returns a stored row carrying the e-mail, or fails with UserNotExists, and then no row carries it |
| `Records.HasCredentials` | main.py:123-126 | whenever some row matches both e-mail and password, the lookup by that e-mail succeeds |
| `Records.UserRowLossless` | main.py:88-90 | with one-to-one string conversions that never print "None", two registrations that give the same stored row are equal: storing loses nothing, a missing birth date included |
| `Records.TweetRowLossless` | main.py:274-279 | the same for posted tweets, including the embedded user's converted id and birth date |
| `Records.AcceptedRegistrationStoredValid` | main.py:88-91 | the row stored for an accepted registration keeps the name and password bounds |
| `Records.AcceptedTweetStoredValid` | main.py:274-280 | the row stored for an accepted tweet keeps the content and name bounds |
| `Records.FindByEmailAt` | main.py:184-186 | when row i is the first row with the e-mail, the lookup returns row i |
| `Records.FindByEmailMissing` | main.py:184-191 | when no row has the e-mail, the lookup fails with "This user not exists" |
| `Records.FindByEmailIsFirstMatch` | main.py:184-191 | the lookup succeeds exactly when some row has the e-mail, and then returns the first such row in file order; otherwise it fails with UserNotExists |
| `Records.FindByEmailAfterAppend` | main.py:86-94 | after a signup appends a row, the lookup by e-mail returns the earlier match if there was one, else the new row if its e-mail matches, else fails |
| `Records.CredentialsAfterAppend` | main.py:123-126 | after a row is appended, an e-mail/password pair matches exactly when it matched before or matches the new row |
| `Records.CountWithEmailAppend` | main.py:91 | appending a row adds one to the number of rows with its e-mail and leaves the count for every other e-mail unchanged |
| `Records.DuplicateEmailIsStored` | main.py:86-94 | appending a row whose e-mail is already present leaves at least two rows with that e-mail: no uniqueness is enforced |
| `Api.Store.Signup` | main.py:86-94 | the user collection becomes the old one plus exactly the converted registration at the end, whatever e-mails are already stored; tweets are unchanged; the request is returned; when every stored row met its bounds before, every row still does |
| `Api.Store.Login` | main.py:117-130 | succeeds exactly when some user row has both the request's e-mail and its password, and then returns the full tweet collection; otherwise fails with WrongEmailOrPassword; changes nothing |
| `Api.Store.ShowAllUsers` | main.py:155-157 | returns the user collection as stored and changes nothing; when every stored row meets its bounds, so does every returned row |
| `Api.Store.ShowAUser` | main.py:179-191 | returns the result of the first-match lookup by the request's e-mail (see `FindByEmailIsFirstMatch`); a row it returns meets its bounds when every stored row does; changes nothing |
| `Api.Store.Home` | main.py:241-243 | returns the tweet collection as stored and changes nothing; when every stored row meets its bounds, so does every returned row |
| `Api.Store.Post` | main.py:272-283 | the tweet collection becomes the old one plus exactly the converted tweet at the end; users are unchanged; when every stored row met its bounds before, every row still does; the request is returned |
| `Scenario.DuplicateSignupThenPost` | main.py:67-283 | on fresh collections, two signups under one e-mail store two rows, the lookup returns the first, an unused password is refused with status 400, the second password is accepted, the posted tweet is the whole feed, and two listings agree |

## Left out

- File I/O: opening, reading, `seek(0)` and writing the files, and JSON encoding and decoding.
  The collections are in-memory sequences of typed rows. A file that holds rows of another shape,
  such as a user row without a password, or that is not valid JSON is not modelled. Nor are the
  bytes left over when a shorter array is written over a longer file without truncation.
- Routing, decorators, status-code wiring and the transport of `HTTPException`. Errors are the
  `ApiError` values, which carry their status and detail text.
- The framework's response models. It would strip the password from the returned registration
  and re-parse the stored string fields when it answers. The handlers here return what the
  source's functions return. A stored "None" is not a valid date or datetime. So the responses of
  GET /users, POST /users/{user_id}, GET / and a successful POST /login would fail that check
  whenever a returned row has a missing `birth_date` or `updated_at`. This follows from reading
  main.py:99, 136, 162 and 220, not from running the service.
- The format check of `EmailStr` and the actual text of `str` for UUID, date and datetime. Both
  are library behaviour: e-mails are plain strings and the conversions are the `Canon` parameter.
  `EmailStr` also normalises an address: it strips surrounding whitespace, lowercases the domain
  and reduces "Name <addr>" to the address. An `Email` value is read as the address after that
  normalisation, so equality in `FindByEmail` and `HasCredentials` is equality of normalised
  addresses.
- The model's `Store` starts from empty collections, while the source expects both files to exist
  already. Signup and post keep the length bounds of the stored rows only when those held before.
- The default of `created_at`, which is `datetime.now()` evaluated once when the module is
  loaded. It depends on the clock; the model takes `created_at` as part of the request.
- The handlers `delete_a_user`, `update_a_user`, `show_a_tweet`, `delete_a_tweet` and
  `update_a_tweet`. Their bodies are empty, so there is no behaviour to model.
- Concurrency. The source takes no lock, and each handler is modelled as one atomic step.

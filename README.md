# Authentication core of alx-backend-user-data, in Dafny

This project models the authentication logic of a small family of Python
web APIs, and proves properties of that model. It has four parts:

- **Route exemption and request accessors** (`auth.dfy`, module `Auth`).
  `require_auth` decides whether a route needs authentication: it puts the
  path in slash-tolerant form and tests whether the exclusion list contains
  it. The module also has the `Authorization` header, `current_user` and
  session-cookie accessors that the Basic and the Session strategies share.
- **The Basic credential pipeline** (`base64.dfy`, `basic_auth.dfy`). It
  takes the encoded part of an `Authorization: Basic …` header, decodes it
  from base64 (RFC 4648, section 4) to UTF-8 text, splits the text into a
  user-id and a password at the first `:` (RFC 7617, section 2), and looks
  the user up by email.
- **The session registry with lazy expiry** (`session_exp_auth.dfy`,
  `session_db_auth.dfy`). A class holds a map from session id to an entry
  with the user id, the creation time and, in the persisted variant, a
  linked user-session record. Sessions are created, looked up and destroyed.
  An expired entry no longer resolves, but it stays in the map.
- **The user table and registration** (`user.dfy`, `db.dfy`,
  `user_auth.dfy`). A five-column `user` table has insertion, lookup by
  keyword criteria and column-by-column update. Registration keeps emails
  unique and stores a bcrypt hash of the password.

Python's `None` is `Option.None`. An exception the code raises is an
`Err(…)` of `Result`, named after the Python exception (`IndexError`,
`KeyError`, `UnicodeDecodeError`, `ValueError`, `InvalidRequestError`,
`NoResultFound`). Some services are outside the code, and each becomes a
parameter:

- the clock, as an integer count of seconds `now`;
- the configuration (`SESSION_DURATION`, `SESSION_NAME`), as optional
  strings;
- the session id the parent strategy generates;
- UTF-8 decoding, as a partial function from bytes to text;
- bcrypt and its salt;
- the user store of the Basic exercise, and its `is_valid_password`.

## Model

| member | source | states |
|---|---|---|
| Auth.SlashPath | 0x01-Basic_authentication/api/v1/auth/auth.py:29-30 | the normalised path ends in `/` and equals the path once one trailing `/` is dropped from each |
| Auth.RequireAuth | 0x01-Basic_authentication/api/v1/auth/auth.py:11-35 | a missing path, or a missing or empty list, needs auth; `IndexError` exactly for an empty path against a non-empty list; a waiver implies some entry ends in `/` |
| Auth.RequireAuthIsNotExempt | 0x02-Session_authentication/api/v1/auth/auth.py:30-36 | for a non-empty path and list, auth is waived exactly when some entry ending in `/` equals the path up to one trailing slash |
| Auth.SlashTolerant | 0x02-Session_authentication/api/v1/auth/auth.py:30-31 | a non-empty path without a trailing `/` and the same path with `/` appended get the same answer |
| Auth.SlashEntries | 0x02-Session_authentication/api/v1/auth/auth.py:15-16 | the entries of the list that end in `/`, and only those |
| Auth.UnslashedEntriesInert | 0x01-Basic_authentication/api/v1/auth/auth.py:14-15 | dropping every entry that does not end in `/` changes no answer for a non-empty path |
| Auth.AuthorizationHeader | 0x02-Session_authentication/api/v1/auth/auth.py:47-50 | `None` exactly for a missing request or a missing or empty header value; otherwise that value unchanged |
| Auth.CurrentUser | 0x02-Session_authentication/api/v1/auth/auth.py:52-54 | the base strategy resolves no user from any request |
| Auth.SessionCookie | 0x02-Session_authentication/api/v1/auth/auth.py:65-71 | `None` for a missing request or session name, or an absent cookie; otherwise the cookie's value, an empty one included |
| Auth.RequireAuthExamples | 0x01-Basic_authentication/main_4.py:8-14 | the seven answers the driver script expects |
| Base64.Encode | 0x01-Basic_authentication/main_100.py:28-30 | the base64 text is a whole number of 4-character groups of alphabet characters and `=`, and is empty exactly when the bytes are |
| Base64.Decode | 0x01-Basic_authentication/api/v1/auth/basic_auth.py:59-63 | a decodable text is a whole number of groups and yields at most 3 bytes per group; DecodeShape gives the exact shape and byte count |
| Base64.DecodeEncode | 0x01-Basic_authentication/api/v1/auth/basic_auth.py:60 | decoding inverts encoding for every byte string |
| Base64.DecodeShape | 0x01-Basic_authentication/api/v1/auth/basic_auth.py:59-63 | a decodable text has alphabet characters everywhere but its last two positions, a `=` in the next-to-last position only with a `=` after it, and yields exactly 3 bytes per group less one per trailing `=` |
| Base64.MisplacedPadRejected | 0x01-Basic_authentication/api/v1/auth/basic_auth.py:59-63 | a `=` before the last two positions makes decoding fail |
| Base64.MidPadExample | 0x01-Basic_authentication/api/v1/auth/basic_auth.py:59-63 | "Y=Q=" is not base64, as Python's incorrect-padding error says |
| Base64.ForeignCharRejected | 0x01-Basic_authentication/api/v1/auth/basic_auth.py:59-63 | one character outside the alphabet and `=` makes decoding fail |
| BasicAuth.Strip | 0x01-Basic_authentication/api/v1/auth/basic_auth.py:38 | the result is no longer than the input and neither starts nor ends with a character of the strip set |
| BasicAuth.StripCharacterized | 0x01-Basic_authentication/api/v1/auth/basic_auth.py:38 | stripping a run of strip-set characters, a core, and another run gives exactly the core |
| BasicAuth.ExtractBase64AsWritten | 0x01-Basic_authentication/api/v1/auth/basic_auth.py:28-39 | a result exactly when the header starts with `Basic `; the result is no longer than the text after it, and has no strip-set character at either end |
| BasicAuth.ExtractAsWrittenKeepsPayload | 0x01-Basic_authentication/api/v1/auth/basic_auth.py:35-39 | as written, the text after `Basic ` comes back unchanged exactly when it neither starts nor ends with a strip-set character |
| BasicAuth.EncodeColonExample | 0x01-Basic_authentication/main_100.py:28-30 | "YTpi" is the base64 text of the bytes of "a:b" |
| BasicAuth.AsWrittenLosesPayload | 0x01-Basic_authentication/api/v1/auth/basic_auth.py:38-39 | as written, the header "Basic YTpi" yields "YTp", and that decodes to no text |
| BasicAuth.ExtractBase64 | 0x01-Basic_authentication/api/v1/auth/basic_auth.py:23-24 | corrected extraction: a result exactly when the header starts with `Basic `, and the header is `Basic ` followed by the result |
| BasicAuth.IntendedKeepsPayload | 0x01-Basic_authentication/api/v1/auth/basic_auth.py:23-24 | the corrected extraction returns "YTpi" from "Basic YTpi" |
| BasicAuth.DecodeBase64Header | 0x01-Basic_authentication/api/v1/auth/basic_auth.py:51-65 | empty or missing input gives `None`; `ValueError` exactly when the text has a non-ASCII character; `UnicodeDecodeError` exactly when an ASCII text is base64 but its bytes are not UTF-8; no other error; an ASCII base64 text whose bytes are UTF-8 gives exactly their text, and any text result is that |
| BasicAuth.NonCanonicalAccepted | 0x01-Basic_authentication/api/v1/auth/basic_auth.py:59-65 | "YR==", whose unused bits are not zero, still decodes to the text "a" |
| BasicAuth.NonAsciiUndecodable | 0x01-Basic_authentication/api/v1/auth/basic_auth.py:59-63 | a text with a non-ASCII character is never base64, and decoding it raises `ValueError` |
| BasicAuth.NonAsciiRaises | 0x01-Basic_authentication/api/v1/auth/basic_auth.py:59-63 | the text "YWJjé" raises `ValueError` |
| BasicAuth.TruncatedRejected | 0x01-Basic_authentication/api/v1/auth/basic_auth.py:59-63 | "YTp" is ASCII but not base64, so decoding gives `None` without an exception |
| BasicAuth.DecodeHeaderRoundTrip | 0x01-Basic_authentication/api/v1/auth/basic_auth.py:60-61 | the base64 encoding of non-empty UTF-8 bytes decodes back to the text they encode |
| BasicAuth.ExtractUserCredentials | 0x01-Basic_authentication/api/v1/auth/basic_auth.py:78-92 | a pair exactly when the text contains `:`; the user-id has no `:`, and user-id, `:` and password rebuild the text |
| BasicAuth.CredentialsSplitUnique | 0x01-Basic_authentication/api/v1/auth/basic_auth.py:75-92 | a user-id without `:`, a `:` and any password split back into exactly that user-id and password |
| BasicAuth.CredentialsWithoutColon | 0x01-Basic_authentication/main_9.py:8-10 | no input, empty text and text without `:` give a bare `None` |
| BasicAuth.CredentialsExamples | 0x01-Basic_authentication/main_100.py:9-10 | "Holberton:School" and a password with several `:` split at the first `:` only |
| BasicAuth.PipelineRoundTrip | 0x01-Basic_authentication/main_100.py:28-34 | a header built from a user-id without `:` and any password gives back that user-id and password through the corrected extraction, decoding and splitting |
| BasicAuth.Search | 0x01-Basic_authentication/api/v1/auth/basic_auth.py:108 | the accounts with that email and no others, the first of them at the head |
| BasicAuth.UserObjectFromCredentials | 0x01-Basic_authentication/api/v1/auth/basic_auth.py:102-118 | an account exactly when email and password are non-empty and the first account with the email accepts the password; the account returned is that first account |
| SessionExp.ParseInt | 0x02-Session_authentication/api/v1/auth/session_exp_auth.py:17 | an integer exactly for a non-empty run of digits, optionally after one `+` or `-`; its value is the digits' value, negated after `-` |
| SessionExp.ParseIntRejects | 0x02-Session_authentication/api/v1/auth/session_exp_auth.py:16-19 | "1.5", "12a", "-", "+" and "+-1" are not integers, and the setting "1.5" gives duration 0 |
| SessionExp.DurationSetting | 0x02-Session_authentication/api/v1/auth/session_exp_auth.py:15-19 | a missing or non-integer setting gives 0; an integer setting gives its value |
| SessionExp.ParseDecimal | 0x02-Session_authentication/api/v1/auth/session_exp_auth.py:15-17 | every integer written in decimal, negatives included, is read back as itself |
| SessionExp.SessionExpAuth.constructor | 0x02-Session_authentication/api/v1/auth/session_exp_auth.py:12-19 | the duration is read from the setting, and the registry starts empty |
| SessionExp.SessionExpAuth.CreateSession | 0x02-Session_authentication/api/v1/auth/session_exp_auth.py:21-38 | no id from the parent: `None`, with the map unchanged; otherwise only that id's entry changes, to the user and `now`, and it resolves at `now` |
| SessionExp.SessionExpAuth.UserIdForSessionId | 0x02-Session_authentication/api/v1/auth/session_exp_auth.py:40-71 | a user id exactly for a non-empty, stored and unexpired session id, and it is the stored user id |
| SessionExp.NeverExpires | 0x02-Session_authentication/api/v1/auth/session_exp_auth.py:56-57 | with a non-positive duration a stored session resolves at any time |
| SessionExp.DeadlineBoundary | 0x02-Session_authentication/api/v1/auth/session_exp_auth.py:64-69 | a session still resolves at its deadline instant, and not one second later |
| SessionExp.ExpiryIsFinal | 0x02-Session_authentication/api/v1/auth/session_exp_auth.py:63-69 | once a lookup fails it fails at every later time |
| SessionDB.SessionDBAuth.constructor | 0x02-Session_authentication/api/v1/auth/session_exp_auth.py:12-19 | the persisted registry starts empty, with the duration from the setting |
| SessionDB.SessionDBAuth.CreateSession | 0x02-Session_authentication/api/v1/auth/session_db_auth.py:15-38 | `None`, with the map unchanged, when the parent gives no id; otherwise only that id's entry changes, linked to a record naming the user and the id, and a non-empty user resolves at `now` |
| SessionDB.SessionDBAuth.UserIdForSessionId | 0x02-Session_authentication/api/v1/auth/session_db_auth.py:40-61 | a user id exactly when the expiring lookup gives a non-empty one and a record is linked; it is the record's user id |
| SessionDB.PersistedAgreesWithExpiring | 0x02-Session_authentication/api/v1/auth/session_db_auth.py:49-61 | where a record is linked and the user id is non-empty, the persisted and the expiring lookups agree |
| SessionDB.SessionDBAuth.DestroySession | 0x02-Session_authentication/api/v1/auth/session_db_auth.py:63-78 | no cookie value: `false` and no change; a stored value: `true` and only that entry removed; an unknown value: `KeyError` and no change |
| UserModel.AttrNamed | 0x03-user_authentication_service/user.py:15-19 | a keyword names a column exactly when it is one of the five column names, and the column spells it |
| UserModel.AttrNamedNameOf | 0x03-user_authentication_service/user.py:15-19 | the five names are distinct and each names its own column |
| UserModel.Get | 0x03-user_authentication_service/user.py:15-19 | `id` is an integer; `email` and `hashed_password` are always strings; `session_id` and `reset_token` are strings or null |
| UserModel.RowsFit | 0x03-user_authentication_service/user.py:15-19 | every row holds a fitting value in every column |
| UserModel.Set | 0x03-user_authentication_service/db.py:95-96 | the column gets the value, and every other column keeps its own |
| UserModel.SetOwnValue | 0x03-user_authentication_service/db.py:95-96 | a row's own value fits its column, and assigning it back leaves the row unchanged |
| UserModel.RowDeterminedByColumns | 0x03-user_authentication_service/user.py:11-19 | rows agreeing on the five columns are equal |
| Db.NextId | 0x03-user_authentication_service/user.py:15 | a new id is greater than every id in use |
| Db.FirstMatch | 0x03-user_authentication_service/db.py:69 | the position of the first row matching every criterion, or the table's length when none does |
| Db.FirstUnknown | 0x03-user_authentication_service/db.py:94-98 | the position of the first keyword that names no column, every keyword before it naming one |
| Db.ApplyUpdatesUntouched | 0x03-user_authentication_service/db.py:94-96 | a column no keyword names keeps its value |
| Db.ApplyUpdatesLastWins | 0x03-user_authentication_service/db.py:94-96 | a column named by keywords ends with the value of the last of them |
| Db.IdFilter | 0x03-user_authentication_service/db.py:90 | the criterion `id=…` is valid and matches exactly the rows with that id |
| Db.NoIdUpdateKeepsIds | 0x03-user_authentication_service/user.py:15 | updates that assign no `id` keep the ids unique |
| Db.DB.constructor | 0x03-user_authentication_service/db.py:19-25 | a fresh database has an empty table |
| Db.DB.AddUser | 0x03-user_authentication_service/db.py:36-52 | exactly one row is appended, with the email, the hash, a fresh id and no session or reset token; ids stay unique; no duplicate check |
| Db.DB.FindUserBy | 0x03-user_authentication_service/db.py:54-73 | `InvalidRequestError` exactly for no criteria or one naming no column; otherwise the first matching row, or `NoResultFound` |
| Db.DB.UpdateUser | 0x03-user_authentication_service/db.py:75-103 | a non-integer id: `ValueError`; an unknown id: `NoResultFound`; both leave the table unchanged; otherwise only the matched row changes, by the keywords before the first unknown one, which raises `ValueError` |
| Db.DB.AssignColumns | 0x03-user_authentication_service/db.py:94-98 | the row becomes the row updated by the keywords before the first unknown one; success exactly when there is none |
| UserAuth.Auth.constructor | 0x03-user_authentication_service/auth.py:37-38 | registration starts from an empty table |
| UserAuth.Auth.RegisterUser | 0x03-user_authentication_service/auth.py:40-71 | empty email or password, or a registered email: `ValueError` with the table unchanged; otherwise exactly one row, with the email and the hash of the password, is added and returned; emails stay unique |
| UserAuth.MatchesByEmail | 0x03-user_authentication_service/auth.py:63 | the criterion `email=…` is valid and matches exactly the rows with that email |
| UserAuth.EmailLookup | 0x03-user_authentication_service/auth.py:62-67 | the email lookup finds a row exactly when some row has that email |

## Left out

- The Flask applications and views are out of scope: routing, `abort`, response cookies, CORS and the bootstrap driven by environment variables.
- The driver scripts (`main_*.py`) print results and write a file-backed store. Only their expected outputs appear, as example lemmas.
- `session_auth.py` declares `SessionAuth` with an empty body, so the `create_session` and `user_id_by_session_id` that the session variants inherit are not in the code. Here the generated id is a parameter (`parentId`), and the map is a field of the registry class.
- The model keeps one registry per object. It does not model the map shared across the process, or concurrent access to it.
- `models/base.py`, `models/user.py` and the persistence of `UserSession` records are not part of this model. The record is folded into the session entry. `User.search` is a search over a sequence of accounts, and `is_valid_password` is a parameter.
- SessionExp.SessionExpAuth.UserIdForSessionId: integers are unbounded. In Python, a duration so large that `created_at` plus it passes `datetime.max` (around 2.5e11 seconds) raises `OverflowError` on every lookup; the model returns the user id instead.
- Time is an integer count of seconds. Sub-second `datetime` and `timedelta` precision is not modelled.
- Base64.Decode: it is strict, and Python's default decoder (`validate=False`) is lenient in two ways the model does not follow. First, it discards ASCII characters outside the alphabet, so "YW Jj" decodes in Python while the model gives `None`. Second, it stops at the first complete padding, so "YQ==YQ==" gives the bytes of "a" while the model gives `None`. Non-ASCII text is modelled as it behaves: it raises `ValueError` (`BasicAuth.DecodeBase64Header`).
- UTF-8 decoding is a parameter. The model does not define which byte strings are valid UTF-8.
- SessionExp.ParseInt: it reads an optional sign followed by ASCII digits. Python's `int` also accepts surrounding whitespace, `_` separators and non-ASCII digits; the model reads those as "not an integer", which gives duration 0.
- Python's `isinstance` checks are enforced by the types, so the branches they guard (returning `None`, or raising `TypeError` in registration) do not arise.
- Auth.SlashTolerant: stated only for a non-empty path that does not end in `/`. An empty path raises where `/` does not, and `p/` is normalised to `p/` while `p//` stays `p//`.
- Auth.AuthorizationHeader: the Session copy reads the header with `request.headers.get`, and the model follows it: a lookup in the request's header map by exact name. Werkzeug's `headers.get` ignores case, so a header sent as `authorization` (HTTP/2 always sends lower-case names) is found in Python but not in the model; header names are taken to arrive in the canonical spelling `Authorization`. The Basic copy (0x01-Basic_authentication/api/v1/auth/auth.py:40-43) calls `request.get` instead, as if the request were a mapping; its only caller (0x01-Basic_authentication/api/v1/app.py:47) passes Flask's request object, which has no `get`, so that copy raises `AttributeError` on every request to a protected route. The model gives both copies the Session copy's behaviour and does not model that `AttributeError`.
- BasicAuth.ExtractUserCredentials: the comments in `main_9.py` expect `(None, None)`, but the code returns a bare `None`. The model follows the code.
- Db.DB.FindUserBy: Python's `hasattr(User, key)` also accepts names of other class attributes (for example `metadata`), which SQLAlchemy's `filter_by` then handles. Here only the five column names are accepted.
- Db.DB.FindUserBy: values are compared exactly. SQLite's type affinity converts a value to its column's type first, so in Python `find_user_by(id="1")` finds the row with id 1, while the model gives `NoResultFound`.
- Db.DB.FindUserBy: a query without `ORDER BY` is taken to return rows in insertion order.
- Db.DB.UpdateUser: `hasattr(user, key)` checks the row object, so Python also assigns a keyword that names a non-column attribute (for example `metadata` or `__tablename__`) and carries on. The model (`Db.DB.AssignColumns`) raises `ValueError` at any keyword that is not one of the five columns.
- Db.DB.UpdateUser: requires values that fit their columns (`WellTyped`). Python accepts any value until SQLAlchemy flushes it.
- Db.DB.UpdateUser: ids are promised to stay unique only when no keyword is `id`. The SQLite primary-key failure at commit, when an `id` update duplicates another row's id, is not modelled.
- Db.DB.UpdateUser: assignments made before an unknown keyword are treated as stored. The session's uncommitted state and the commit itself are not modelled.
- Db.NextId: SQLite's row-id choice (largest id plus one, 1 in an empty table) is modelled without its 64-bit limit.
- The SQLAlchemy engine and session, `commit`, and dropping and creating tables are not modelled.
- `_hash_password` (`UserAuth.HashPassword`) applies the bcrypt parameter to the password and a salt that is passed in; `gensalt`'s randomness is that parameter. It has no contract of its own. A password that cannot be encoded as UTF-8 (`UnicodeEncodeError`) is not modelled, and the bytes result is modelled as a string.
- Wildcard exemption rules, reset tokens, login validation and session tokens on user records are not in the code modelled here.
- Client methods `SessionDB.DestroyTwiceRaises` and `UserAuth.RegisterTwice` state in assertions that a second destroy raises `KeyError`, and that a second registration raises `ValueError` while keeping the first hash.

## Findings

| source | as written | input that shows it | evidently intended | confidence | as-written member | corrected member |
|---|---|---|---|---|---|---|
| 0x01-Basic_authentication/api/v1/auth/basic_auth.py:38 | `strip('Basic ')` removes every leading and trailing `B`, `a`, `s`, `i`, `c` and space, not the prefix `Basic ` | the header `Basic YTpi` (base64 of `a:b`) gives `YTp`, which is not base64, so the credentials are lost | remove the `Basic ` prefix and keep the rest unchanged | high, not executed | BasicAuth.AsWrittenLosesPayload | BasicAuth.PipelineRoundTrip |

# Credential lifecycle of the NETCRAFT backend, in Dafny

This project models the credential lifecycle of the NETCRAFT Flask backend as a
sequential state machine over an abstract store. It has four parts.

- **Revocation ledger.** This is the `token_blocklist` table. Logout adds a row keyed by the
  token's unique `jti`. Every protected request asks whether its `jti` is in the
  ledger. An hourly sweep deletes the rows whose `expires_at` is earlier than now.
- **Password-reset codes.** This is the `password_reset_otps` table. A code is six
  decimal digits and is *valid* while it is unused and now is strictly before its
  expiry. forgot-password marks every unused code of the user as used and adds
  one fresh code, in a single commit. verify-reset-otp checks the code and writes
  nothing. reset-password checks the code, then consumes it and replaces the
  password hash. A strict-inequality sweep deletes expired codes.
- **Request flows and validators.** These are `register`, `forgot_password`,
  `verify_reset_otp`, `reset_password`, `logout`, `validate_password` and
  `sanitize_input`. Each request flow is a pure function from the store and the
  request to a new store and a response `(status, JSON body)`, with the same
  branches, status codes and messages as the handlers. On every error path the
  store is unchanged.
- **Application wiring.** This covers the revocation hook and the 401 it produces, one
  iteration of the background sweep with its failure behaviour, the hourly loop as any
  finite prefix of its iterations, and the start-up table creation with retries.

The project endpoints are modelled too: the recursive `sanitize_project_input`,
the project-name rule, and the ownership checks of `get_project` and
`delete_project`.

The model uses these conventions.
- Time is a `nat` number of seconds in UTC.
- Whatever comes from outside the modelled code is a parameter:
  - the six random digits of a code;
  - the primary key the database assigns;
  - the minted access token;
  - the email validator's verdict;
  - the mail service's `is_configured()`;
  - the length of `json.dumps(...)`;
  - where, if anywhere, the store raises during a sweep.

Files:
- `wrappers.dfy`: `Option` and `Result`.
- `text.dfy`: Python's `str.strip()`, `html.escape` with a reference
  `Unescape`, ASCII `lower()`, and the slice `s[:m]`.
- `json.dfy`: decoded JSON values and HTTP responses.
- `expiry.dfy`: the delete-where-`expires_at < now` sweep, shared by both tables.
- `blocklist.dfy`, `otp.dfy`, `accounts.dfy`: the three tables.
- `auth_routes.dfy`: the validators and request flows of app/auth/routes.py.
- `reset_protocol.dfy`: multi-request properties of password reset.
- `app.dfy`: app/__init__.py.
- `projects.dfy`: app/projects/routes.py.

## Model

| member | source | states |
|---|---|---|
| Text.Strip | app/auth/routes.py:21 | `strip()` removes exactly the maximal leading and trailing whitespace, where whitespace is Python's `isspace` set; the result neither starts nor ends with whitespace |
| Text.StripIdempotent | app/auth/routes.py:21 | stripping an already stripped string changes nothing |
| Text.StripEmpty | app/projects/routes.py:65-66 | `strip()` gives the empty string exactly when the input is all whitespace |
| Text.Escape | app/auth/routes.py:21 | `html.escape` never shortens a string, keeps its length exactly when none of `& < > " '` occurs, and leaves none of `< > " '` in its output |
| Text.EscapeRoundTrip | app/auth/routes.py:21 | decoding the five entities recovers the input of `html.escape`, so escaping loses no information |
| Text.EscapeInjective | app/projects/routes.py:18 | two different strings never escape to the same string |
| Text.Lower | app/auth/routes.py:76 | ASCII `lower()`: keeps the length, turns each capital `A`-`Z` into its own lower-case letter and changes no other character |
| Text.LowerIdempotent | app/auth/routes.py:76 | lower-casing an already lower-cased email changes nothing |
| Text.LowerIgnoresCase | app/auth/routes.py:76 | two strings that differ only in the case of their ASCII letters are lower-cased to the same string |
| Text.PrefixSlice | app/auth/routes.py:23-24 | `s[:m]` is a prefix of `s`, of length `min(m, len)` for `m >= 0` and `max(len + m, 0)` for negative `m` |
| Expiry.Live | app/common/models.py:101-103 | a row survives the sweep exactly when its `expires_at` is not earlier than now, so the boundary is strict |
| Expiry.Partition | app/common/models.py:98-109 | the kept rows and the deleted rows are together exactly the old table, as a multiset |
| Expiry.Sweep | app/common/models.py:98-109 | the sweep returns the kept rows and the number deleted, which is the old size minus the kept size |
| Expiry.LiveLater | app/common/models.py:101-103 | sweeping at an earlier time and then at a later time leaves what the later sweep alone leaves |
| Expiry.SweepIdempotent | app/common/models.py:164-175 | a second sweep at the same time deletes nothing |
| Expiry.LiveAppend | app/common/models.py:98-109 | the sweep treats each row on its own: sweeping a concatenation is concatenating the sweeps |
| Blocklist.IsJtiBlocklisted | app/common/models.py:80-84 | true exactly when some ledger row carries the `jti` |
| Blocklist.AddTokenToBlocklist | app/common/models.py:86-96 | fails exactly when the `jti` is already present, because the column is unique; on success it appends one row with `revoked_at = now`, the `jti` is revoked, every earlier revocation stays, and `jti`s stay unique |
| Blocklist.CleanupExpiredTokens | app/common/models.py:98-109 | keeps exactly the rows with `expires_at >= now`, returns how many it deleted, and keeps `jti`s unique |
| Blocklist.LiveKeepsUniqueJtis | app/common/models.py:71 | deleting rows cannot create a duplicate `jti` |
| Blocklist.RevocationSurvivesSweep | app/common/models.py:98-109 | a revocation whose expiry is not earlier than the sweep time is still reported after the sweep |
| Blocklist.RevocationPurgedAfterExpiry | app/common/models.py:98-109 | in a ledger with unique `jti`s, a sweep after a row's expiry forgets that revocation |
| Otp.GenerateOtp | app/common/models.py:127-130 | a generated code has six characters, all decimal digits |
| Otp.GenerateOtpRoundTrip | app/common/models.py:127-130 | the random draws can be read back from the code, so different draws give different codes |
| Otp.EveryCodeIsGenerated | app/common/models.py:127-130 | every six-digit string is the code of some draws, so generation covers the whole code space |
| Otp.IsValid | app/common/models.py:132-134 | a used code is never valid; an unused code is valid strictly before its `expires_at` and already invalid at that instant |
| Otp.ValidityOnlyEnds | app/common/models.py:132-134 | a code that is valid at some time was valid at every earlier time, and once it is invalid it stays invalid |
| Otp.NewOtp | app/common/models.py:122-125 | a new code belongs to the user, is unused with no `used_at`, and is valid exactly for `t < now + 60 * expiry_minutes`, so it is already invalid at its expiry |
| Otp.MarkAsUsed | app/common/models.py:136-139 | sets `is_used` and stamps `used_at = now`; the code is never valid again; no other field changes |
| Otp.MarkAsUsedTwice | app/common/models.py:136-139 | marking twice leaves the row used, stamped with the second time |
| Otp.GetLatestValidOtp | app/common/models.py:141-151 | none exactly when the user has no unused row with `expires_at > now`; otherwise it returns such a row, which is valid, with the greatest `created_at` |
| Otp.InvalidateAllUserOtps | app/common/models.py:153-162 | every unused row of the user becomes used, expired rows included; afterwards the user has no unused row; rows of other users and rows already used are unchanged |
| Otp.CleanupExpiredOtps | app/common/models.py:164-175 | deletes exactly the rows with `expires_at < now`, used or not, and returns how many |
| Otp.ActiveCountZero | app/common/models.py:132-134 | a user's count of valid codes is zero exactly when none of their rows is valid |
| Otp.ActiveCountLater | app/common/models.py:132-134 | as time passes a user's count of valid codes can only fall |
| Otp.AtMostOneActiveLater | app/common/models.py:132-134 | if at most one code per user is valid at some time, the same holds at every later time |
| Otp.ActiveCountUpdate | app/common/models.py:136-139 | consuming a row removes exactly that row's contribution to its user's count |
| Otp.ActiveCountInvalidate | app/common/models.py:153-162 | after invalidation the user has no valid code, and every other user keeps their count |
| Otp.ActiveCountSweep | app/common/models.py:164-175 | an earlier sweep never removes a code that is still valid |
| Otp.AtMostOneActiveAfterCleanup | app/common/models.py:164-175 | the sweep preserves "at most one valid code per user" |
| Accounts.CheckPasswordHash | app/common/models.py:25-29 | a stored hash accepts exactly the password it was generated from |
| Accounts.FindUserByEmail | app/auth/routes.py:167 | `filter_by(email).first()`: none when no user has the email, otherwise the first user who has it |
| AuthRoutes.Search | app/auth/routes.py:32-37 | `re.search` with a one-character class finds a match exactly when some character is in the class |
| AuthRoutes.ValidatePassword | app/auth/routes.py:28-38 | accepted exactly when the length is 8 to 30 and there are an uppercase letter, a lowercase letter and a digit |
| AuthRoutes.SanitizeString | app/auth/routes.py:15-26 | the result is a prefix of the escaped, stripped input; when `max_length` is `None` or 0 it is that whole string, which unescapes to the stripped input; a positive bound `m` keeps the first `m` characters and a negative one drops `-m` from the end, as `s[:m]` does; no `< > " '` survives |
| AuthRoutes.SanitizeInput | app/auth/routes.py:15-18 | a value that is not a string is returned unchanged; a string is sanitized as above |
| AuthRoutes.NewUser | app/auth/routes.py:72-86 | the new row has the assigned identifier, `created_at = updated_at = now`, and the stripped, lower-cased email; the nickname and the two names are `sanitize_input` of the submitted values with bounds 50 and 100, hence capped at those lengths; the hash accepts the typed password exactly when the password was not escaped first or escaping left it unchanged |
| AuthRoutes.LoginAccepted | app/auth/routes.py:112-114 | login's credential check accepts exactly when the first user with that email has a hash accepting the password, so a later account with the same email cannot be logged into |
| AuthRoutes.RegisterWith | app/auth/routes.py:40-102 | 201 exactly when all fields are present, the email is valid, the password passes the rule, the nickname has 3 to 50 characters, no user has that email or nickname, and the insert respects the unique columns; then exactly one user is appended; on every refusal the store is unchanged |
| AuthRoutes.RegisterAsWritten | app/auth/routes.py:72-89 | the hash stored by register is that of the stripped, HTML-escaped password |
| AuthRoutes.Register | app/auth/routes.py:72-89 | corrected register: the new user has the given identifier and a hash that accepts the password as typed; no code or revocation changes |
| AuthRoutes.RegisteredUserIsFound | app/auth/routes.py:76 | after registering, an email lookup for the stored, lower-cased email finds the new user |
| AuthRoutes.RegisterAsWrittenRejectsOwnPassword | app/auth/routes.py:77 | if the password contains one of `& < > " '`, logging in with the password just registered is refused |
| AuthRoutes.LockedOutPasswordExists | app/auth/routes.py:28-38 | "Secret1<pw" passes the password rule, has no surrounding whitespace, and contains `<` |
| AuthRoutes.RegisterThenLogin | app/auth/routes.py:104-115 | with the corrected register, logging in with the registered email and password is accepted |
| AuthRoutes.IssueOtp | app/auth/routes.py:169-174 | the new code is appended, every earlier unused code of the user is consumed now, other rows are unchanged, the new code is the one later lookups find, and it is the user's only valid code |
| AuthRoutes.ForgotPassword | app/auth/routes.py:158-190 | the same 200 reply whether or not the account exists; a code is issued only for an existing user with mail configured; nothing changes otherwise |
| AuthRoutes.VerifyResetOtp | app/auth/routes.py:192-228 | never changes the store; 200 exactly when both fields are present, the email is valid, the user exists and the latest valid code equals the submitted code |
| AuthRoutes.ResetPassword | app/auth/routes.py:230-276 | 200 exactly when the fields are present, the email is valid, the new password passes the rule and the code matches the latest valid one; then only that code is consumed, and the user's row changes only in its hash, which accepts the new password, and in `updated_at = now`; the store is unchanged on every refusal |
| AuthRoutes.LogoutStoring | app/auth/routes.py:278-304 | 200 exactly when the `jti` is not yet revoked, and then exactly one ledger row with the claims is appended; otherwise the insert is rolled back with 400 "Logout failed" |
| AuthRoutes.LogoutAsWritten | app/auth/routes.py:288-297 | the row stored by logout carries the local-time reading `exp + offset` |
| AuthRoutes.Logout | app/auth/routes.py:288-297 | corrected logout: the token is revoked with `expires_at = exp`, and users and codes are untouched |
| ResetProtocol.ForgotPasswordKeepsOneActive | app/auth/routes.py:169-174 | forgot-password preserves "at most one valid code per user" |
| ResetProtocol.ResetPasswordKeepsOneActive | app/auth/routes.py:262-269 | reset-password preserves "at most one valid code per user" |
| ResetProtocol.ResetTwiceFails | app/auth/routes.py:254-269 | in a store where each user has at most one valid code (`Otp.AtMostOneActive`, which every operation preserves), repeating a successful reset, then or later, is refused with "No valid OTP found" |
| ResetProtocol.ReissueSupersedes | app/auth/routes.py:169-217 | after two requests only the second code verifies; the first is an invalid code |
| ResetProtocol.CodeLifetime | app/common/models.py:122-151 | a code issued at `t0` verifies at every `t < t0 + 900` and yields "No valid OTP found" from `t0 + 900` on |
| App.CheckIfTokenRevoked | app/__init__.py:23-26 | the hook reports a token revoked exactly when its `jti` is in the ledger |
| App.Authorize | app/__init__.py:29-31 | a request is refused exactly when its token is revoked, and the refusal is 401 "Token has been revoked" |
| App.GuardedLogout | app/auth/routes.py:278-299 | the endpoint as written, behind its guard: a revoked token gets the 401 and changes nothing, a live token is logged out with the local-time reading of `exp`, and the 400 duplicate path is never reached |
| App.GuardedLogoutCorrected | app/auth/routes.py:278-299 | the same endpoint with the corrected logout storing `exp` in UTC: the same 401, no change on refusal, and no reachable 400 |
| App.LogoutThenRefused | app/__init__.py:23-31 | after a successful logout, on a host in any time zone, the token is refused, and a second logout gets the 401 and changes nothing |
| App.CleanupExpiredData | app/__init__.py:62-77 | the token sweep runs first and commits alone; if it raises, nothing changes and only the error is logged; if the code sweep raises, the token sweep stays committed; a count is logged exactly when it is positive |
| App.ScheduleSpacing | app/__init__.py:81-84 | the sweeps of `run_cleanup` run at least an hour apart, so the `j`-th sweep (from 0) runs no earlier than `start + 3600 (j + 1)` |
| App.ExactHoursSchedule | app/__init__.py:81-84 | sweeps at exactly `start + 3600 i`, as if sweeping took no time, form one admissible schedule |
| App.RunCleanup | app/__init__.py:81-84 | after `k` iterations whose sweeps run at least an hour apart, at instants given by the schedule, only rows were deleted; nothing live at the last sweep was deleted; if the last iteration succeeded, nothing expired before it remains |
| App.RunCleanupWithoutFaults | app/__init__.py:81-84 | without faults, `k` iterations leave exactly what one sweep at the last sweep instant leaves |
| App.RevocationOutlivesSweeps | app/common/models.py:98-109 | with the corrected logout, every sweep that runs no later than the token's `exp` keeps it revoked |
| App.LogoutAsWrittenRevocationLapses | app/auth/routes.py:289 | on a host five hours behind UTC, a sweep before the token's `exp` deletes the revocation, and the token is accepted again |
| App.CreateTablesWithRetry | app/__init__.py:91-105 | at most `max_retries` attempts; returns success on the first successful attempt after all earlier ones failed; sleeps `delay` between attempts but not after the last; re-raises after `max_retries` failures; returns False only when `max_retries <= 0` |
| Projects.SanitizeMember | app/projects/routes.py:17-27 | a string value is escaped; a dict value is sanitized recursively by `sanitize_project_input`; a list value has its string items escaped and every other item kept; any other value is kept |
| Projects.EscapeStringItems | app/projects/routes.py:21-25 | in a list, string items are escaped and every other item, a dict included, is kept as it is |
| Projects.SanitizeProjectInput | app/projects/routes.py:12-29 | a non-dict is returned unchanged; a dict keeps its members in order, each key escaped and each value sanitized by the member rule in its own slot |
| Projects.SanitizeRoundTrip | app/projects/routes.py:12-29 | the reference inverse recovers the submitted document from the sanitized one |
| Projects.SanitizeMemberRoundTrip | app/projects/routes.py:17-27 | the same for a single member value: string, dict, list or other |
| Projects.SanitizeInjective | app/projects/routes.py:12-29 | two different documents are never sanitized to the same one |
| Projects.SanitizeKeepsDistinctKeys | app/projects/routes.py:16-27 | escaped keys never collide, so no entry overwrites another |
| Projects.SanitizeKeepsWellFormed | app/projects/routes.py:12-29 | a document with distinct keys in every object, at every depth, is sanitized into one with the same property |
| Projects.SanitizeMemberKeepsWellFormed | app/projects/routes.py:17-27 | the same for a single member value |
| Projects.SanitizedIsClean | app/projects/routes.py:12-29 | every key, string value, string list item and nested-dict string the sanitizer reaches is free of `< > " '` |
| Projects.SanitizedMemberIsClean | app/projects/routes.py:17-27 | the same for a single member value |
| Projects.DictInListKeepsMarkup | app/projects/routes.py:21-25 | a dict inside a list, and a top-level string, come out with their markup intact |
| Projects.ProjectNameRule | app/projects/routes.py:65-67 | a name is accepted exactly when it is not all whitespace and has at most 100 characters after stripping |
| Projects.Lookup | app/projects/routes.py:65 | `d[key]` returns the value of a member with that key, and no earlier member has the key |
| Projects.LookupIsTheDictValue | app/projects/routes.py:65 | with distinct keys, the value found is that of the only member with the key, which is the value a decoded dict holds |
| Projects.NatText | app/projects/routes.py:65 | `str(n)` of a natural number is decimal digits with no leading zero, and reading them back gives `n` |
| Projects.PyStr | app/projects/routes.py:65 | `str(data['name'])` is the string itself for a string, the decimal numeral, with a minus sign when negative, for an integer, and the given repr for a list or dict |
| Projects.NamePresent | app/projects/routes.py:61 | a falsy body never passes; a dict passes exactly when it has the key `name`, a list exactly when it holds the string `name`, and a string exactly when `name` occurs in it |
| Projects.SaveProject | app/projects/routes.py:54-99 | a falsy body or one without a name gives "name is required"; a name on a non-dict gives the generic failure; 201 exactly when the name rule holds, the encoded data fits in 1048576 characters and the new key is free; then one row is added with the escaped stripped name and the sanitized `data` (default `{}`); no existing row changes |
| Projects.SavedDataWellFormed | app/projects/routes.py:71-86 | the `data` stored by a successful save has distinct keys in every object, like the document it came from |
| Projects.EscapedBracketsLength | app/projects/routes.py:65-70 | escaping after the length check makes a name of `n` angle brackets `4n` characters long |
| Projects.ToDict | app/common/models.py:55-65 | `to_dict()` is a dict with distinct keys, under which the identifier, name, owner, both timestamps and the data are read back |
| Projects.GetProject | app/projects/routes.py:101-123 | a malformed identifier gives 400; 200 with the row exactly for the owner of an existing project; 404 "Project not found" otherwise |
| Projects.ForeignProjectLooksMissing | app/projects/routes.py:111-117 | someone else's project gets the same response as a project that does not exist |
| Projects.DeleteProject | app/projects/routes.py:134-156 | 404 for a missing project; 403 for someone else's, with nothing deleted; 200 exactly for the owner, and then only that project is removed |
| Projects.SaveGetDelete | app/projects/routes.py:54-156 | after a save, the owner reads back the row, whose data restores to what was submitted; a stranger gets 404 and cannot delete it; the owner's delete restores the old store, after which reads and deletes give 404 |

## Notable behaviour

- A consumed reset code has no separate "already used" answer. It drops out of the latest-valid-code query, so a second reset gets 400 "No valid OTP found" (`ResetProtocol.ResetTwiceFails`).
- The submitted code is compared with the stored one using plain `!=`, not a constant-time comparison. The model states the equality that this decides.
- A failing token sweep also skips that hour's code sweep, and a failing code sweep keeps the token sweep that already committed (`App.CleanupExpiredData`). The loop goes on in both cases.

## Left out

- Flask plumbing is not modelled: routing, `request.get_json()`, `jsonify`, and JWT encoding and signature checks. A handler sees the decoded claims and fields. A missing field is `None`. A request with no JSON body at all, which makes `register` fail with a different message, is not modelled.
- Non-string values in the auth forms are not modelled: every form field is a string or missing. Most handlers call `len`, `strip` or `validate_email` on their fields, which raise on a non-string, and the handler turns that into its generic 400. Two paths do not raise:
  - A numeric `otp_code` in verify-reset-otp or reset-password (app/auth/routes.py:216, 259) never equals the stored string code. Once a valid code exists, the answer is 400 "Invalid OTP code".
  - forgot-password (app/auth/routes.py:161-185) checks nothing on the email. It hands a non-string email straight to the user query.
- Password hashing is a foreign call. It is modelled by its observable contract: a hash accepts exactly the password it was made from.
- `secrets.choice`, ULID generation and token minting are random or foreign. Their results are parameters.
- `validate_email`, `is_valid_ulid` and `json.dumps` are library calls. Their verdicts, or the encoded length, are parameters. The `TypeError`/`ValueError` branch of `save_project` needs data that JSON could not have produced, so it is not modelled.
- Outbound email (app/common/email_service.py) is I/O. Only `is_configured()` is kept, as a boolean.
- The clock is a parameter `now`, in whole seconds. `datetime` microseconds are not modelled.
- The database is a sequence of rows per table, plus a map for projects. Surrogate integer ids are not modelled. MySQL's case-insensitive collation is not modelled: string equality is exact. Column lengths such as `String(100)` are not enforced. Foreign keys and cascades are not modelled.
- Store failures in the handlers are not modelled beyond the unique-key conflicts. A failing sweep is a `fault` parameter.
- Concurrency is not modelled: the daemon thread, racing requests and transaction isolation. `time.sleep` does nothing; the retry loop adds up the time it would sleep.
- App.RunCleanup: the loop never ends; the model covers every finite prefix of its iterations. Within one iteration the code sweep reads the clock again after the token sweep has committed; the model gives both sweeps the iteration's single instant.
- Otp.GetLatestValidOtp: the source leaves the order of rows with equal `created_at` to the database; the model takes the first in table order.
- AuthRoutes.ValidatePassword: the character classes are ASCII. Python's `\d` also matches other Unicode decimal digits.
- Text.Lower: only `A`-`Z` are lowered. Python's `lower()` also lowers non-ASCII capitals (`Ä` becomes `ä`) and can lengthen a string (`İ` becomes two characters), which the model does not do.
- Json.Value: JSON numbers are integers only. Non-integer numbers, whose `str()` is a float's repr (`1.5`) and whose truthiness is their value (`0.0` is falsy), are not modelled.
- Json.WellFormed: a decoded dict keeps the last value of a repeated key, so duplicate keys are not modelled; `save_project` is only given documents whose objects have distinct keys.
- AuthRoutes.LogoutAsWritten: a local reading before the epoch (`exp + offset < 0`) is excluded, because timestamps are naturals.
- Projects.SaveProject: `str()` of a list or dict name is Python's repr, which is not modelled. It is the parameter `containerText`.
- Projects.GetProject: `to_dict` renders timestamps with `isoformat()`; the model renders them as seconds.
- `get_my_projects` (app/projects/routes.py:31-52) is an ordered listing query with no rule beyond `owner_ulid` filtering. `login` is modelled only through its credential check (`AuthRoutes.LoginAccepted`). `change_password` is not modelled. app/users/routes.py is a field projection. None of these is part of this model.
- app/config.py holds environment settings and is not part of this model.

## Findings

| source | as written | input that shows it | evidently intended | confidence | as-written member | corrected member |
|---|---|---|---|---|---|---|
| app/auth/routes.py:77 | register hashes `sanitize_input(password)`, the stripped and HTML-escaped password. Login, change-password and reset-password check the password as typed. | register with password `Secret1<pw`, then log in with `Secret1<pw`: the stored hash is of `Secret1&lt;pw`, so login gets 401 | hash the password as typed | not executed; high | AuthRoutes.RegisterAsWritten (shown by AuthRoutes.RegisterAsWrittenRejectsOwnPassword and AuthRoutes.LockedOutPasswordExists) | AuthRoutes.Register (proved by AuthRoutes.RegisterThenLogin) |
| app/auth/routes.py:289 | logout stores `datetime.fromtimestamp(exp)`, a naive local time. The sweep compares `expires_at` with `datetime.utcnow()`. | host at UTC-5, token with `exp = 100000`, logout at 10000: the row stores 82000, a sweep at 96400 deletes it, and the token is accepted again before it expires | store the UTC instant of `exp` | not executed; medium, because it depends on the host's time zone | AuthRoutes.LogoutAsWritten (shown by App.LogoutAsWrittenRevocationLapses) | AuthRoutes.Logout (proved by App.RevocationOutlivesSweeps) |

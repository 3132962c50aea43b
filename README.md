# Baby Growth Record — account flow, baby profile, thumbnails and content models in Dafny

This project models the core of a Django site where parents keep a growth record for their
babies and share articles. The model covers:

- **Accounts** (`users/views.py`, `users/froms.py`, `users/models.py`). A visitor registers
  and gets an inactive account. The site emails a link carrying the user's id, encrypted and
  then signed with a timestamp. Following the link within six minutes activates the account.
  The user can then log in by username or email, change the password, and change the
  username and avatar. The forms' validation rules and the ORM lookups behind them are
  modelled, including the `-id` ordering that decides which row `.first()` returns.
  The registration form is a model form. Django therefore normalises the username and the
  email before the row is stored, and checks the normalised username against the unique
  column.
- **Baby profile** (`users/models.py`). The age in days, the age in calendar months, and the
  two `clean` rules: the birthday may not be in the future, and the birth weight may not be
  over 20 kg.
- **Thumbnails** (`main/signals.py`). The `post_save` handler that gives an uploaded photo a
  thumbnail. The model covers the guard, where the thumbnail file is written, the relative
  name the photo stores, and the handler's own save, which fires the handler once more. It
  rests on a model of the `os.path` functions involved (`PosixPath`).
- **Content models** (`main/models.py`):
  - the `unique_together` and `unique` constraints on likes, collections, parent links,
    measurements, the vaccine dictionary and categories;
  - the article review states and their default;
  - the defaults and content rule of a comment;
  - the display text (`__str__`) of comments, records and photos;
  - a category's `children`.

Modules, one per file: `Wrappers` (Option), `Uuid`, `Signing`, `UserModels`, `UserForms`,
`AccountFlow`, `UserViews`, `Dates`, `Babies`, `PosixPath`, `Thumbnails`, `Decimal` and
`MainModels`.

Where the code as written is imperative, the model is too:

- `UserViews.Site` is a class holding the user table and the session. Each of its methods
  performs a view's steps and promises exactly the transition `AccountFlow` defines.
- `Thumbnails.Photo` is a class. Its `Save` and `GenerateThumbnail` methods call each other,
  as the handler and `instance.save` do.

The rest is functions and lemmas.

Some things are outside the model and are passed in instead:

- The cipher (`utils/encryption_decryption.py`, Fernet over base64url), the signer's
  keyed HMAC and Django's password hasher are fields of `Signing.Env`. All the model relies
  on about them is `Env.Sound()`: decryption undoes encryption, and a password checks
  against its own hash.
- Django's username normalisation (Unicode NFKC) and email normalisation (lower-case
  domain) are also fields of `Signing.Env`. The model assumes nothing about them.
- The clock is a `now` parameter, in seconds.
- The UUID the primary key draws is a `freshId` parameter.
- The captcha result is a boolean in the form input.
- `imageOpens` says whether PIL can open and write the image.

In `active`, a link whose payload does not decrypt, or decrypts to text that is not a UUID, is
not answered as an invalid link. `decryption` raises Fernet's `InvalidToken`, and the id
lookup raises a validation error. Neither is `BadSignature`, so nothing catches them, and the
model answers `ServerError`.

## Model

| member | source | states |
|---|---|---|
| Uuid.Parse | users/views.py:150-151 | a parsed id is a UUID (below 16^32) |
| Uuid.Text | users/views.py:61 | `str(user.id)` has 36 characters, with dashes exactly at positions 8, 13, 18 and 23 and lower-case hex digits everywhere else |
| Uuid.ParseText | users/views.py:61 | reading back `str(user.id)` gives the id |
| Uuid.TextInjective | users/views.py:61 | different ids have different texts |
| Signing.Sign | users/views.py:62 | the token carries the value, a whole-second stamp within the last second, and the signature of both |
| Signing.Unsign | users/views.py:149 | a value comes back only from a correctly signed token no older than max_age, and it is the token's own value; only a correctly signed token is reported as expired |
| Signing.UnsignSign | users/views.py:149 | an issued token gives its value back exactly while its age is at most max_age, and is expired after that |
| Signing.FreshTokenAccepted | users/views.py:149 | a token checked at least a second before its window closes is accepted |
| Signing.LateTokenExpired | users/views.py:149 | a token checked after its window is expired, whatever its fractional stamp |
| Signing.TamperedTokenRefused | users/views.py:149 | a token with a wrong signature is bad at any time, and never reported as expired |
| UserModels.First | users/models.py:27 | `.first()` under `-id` ordering: none for no rows, otherwise the matching row with the largest id |
| UserModels.FirstByUsername | users/views.py:84 | none exactly when no user has the username; otherwise a user holding it |
| UserModels.FirstByEmail | users/views.py:84 | none exactly when no user has the email; otherwise the newest-id user holding it |
| UserModels.FindAccount | users/views.py:84 | the lookup tries the username first, then the email; none exactly when neither matches; a matching username always wins |
| UserModels.FindAccountByOwnUsername | users/views.py:84 | under the unique username constraint, a username finds exactly its holder |
| UserForms.CleanRegister | users/froms.py:71-133 | a rejected registration carries at least one error, only on the form's five fields, and at most one per field |
| UserForms.CleanRegisterAsWritten | users/froms.py:71-133 | validation as written raises only for a password under 6 characters with a confirmation typed; when it answers, its errors name only the form's fields, one per field |
| UserForms.RegisterAsWrittenCrashes | users/froms.py:129-133 | the input "abc"/"abc" makes `clean_password2` read a password that was dropped, so validation raises |
| UserForms.RegisterAsWrittenAgrees | users/froms.py:129-133 | validation as written raises exactly when the password was rejected and a confirmation was typed; otherwise it agrees with the corrected form |
| UserForms.RegisterValidIff | users/froms.py:71-133 | registration is valid exactly when the username is given and unused both as typed and as normalised, the email is unused, the password has at least 6 characters, the confirmation equals it, and the captcha passes |
| UserForms.RegisterRejectsTakenUsername | users/froms.py:113-117 | a username some user has is reported as "账号已存在" |
| UserForms.RegisterRejectsNormalisedTakenUsername | users/froms.py:71-117 | a username no user holds as typed, but whose normalised form a user holds, passes `clean_username` and is refused by the model's unique check |
| UserForms.RegisterRejectsTakenEmail | users/froms.py:118-122 | an email some user has is reported as "该邮箱已注册！！！" |
| UserForms.RegisterPasswordLength | users/froms.py:124-128 | a password of 1 to 5 characters is reported as short; a password of 6 or more raises no password error |
| UserForms.RegisterPassword2Mismatch | users/froms.py:129-133 | a kept password with a different confirmation gives "确认密码错误" on the confirmation |
| UserForms.CleanLogin | users/froms.py:136-151 | a rejected login form carries at least one error, only on username and password, at most one each |
| UserForms.LoginUsernameAcceptedIff | users/froms.py:147-151 | a login name is accepted exactly when some user has it as username or as email |
| UserForms.LoginValidIff | users/froms.py:136-151 | the login form is valid exactly when the name is known and at most 100 characters, and a password was typed |
| UserForms.CleanPasswordChange | users/froms.py:153-200 | a rejected change carries at least one error, only on the three password fields, at most one each |
| UserForms.PasswordChangeValidIff | users/froms.py:153-200 | a change is valid exactly when the old password checks against the stored hash, and the new one has at least 6 characters and is confirmed |
| UserForms.PasswordChangeRejectsWrongOld | users/froms.py:182-186 | an old password that does not check is reported as "旧密码输入错误" |
| UserForms.PasswordChangeNewPasswordRules | users/froms.py:188-200 | a short new password is reported; the mismatch error appears exactly when both new passwords survived their own checks and differ |
| UserForms.SaveNewPassword | users/froms.py:202-205 | only the password column changes, and the new password checks against it |
| UserForms.CleanUserCenterChange | users/froms.py:208-210 | a rejected profile form carries at least one error, only on username and image, at most one each |
| UserForms.UserCenterChangeValidIff | users/froms.py:208-210 | the profile form is valid exactly when a username of at most 100 characters and an image are given |
| AccountFlow.ActivationToken | users/views.py:61-62 | the emailed token's payload decrypts to the text of the user's id |
| AccountFlow.Register | users/views.py:51-77 | registration never changes an existing user; it adds the fresh id, inactive, exactly when it answers with the redirect to login and issues a token |
| AccountFlow.RegisterOutcome | users/views.py:51-77 | registration succeeds exactly when the form is valid and the id is fresh; it then stores one inactive row with the normalised username and email and the password hash, and returns the signed, encrypted id; otherwise it stores nothing and issues no token |
| AccountFlow.RegisterKeepsUniqueUsernames | users/views.py:51-77 | registration keeps usernames unique |
| AccountFlow.Active | users/views.py:147-161 | the reply is "已过期" exactly for a correctly signed link past 360 seconds, "激活链接无效" exactly for a bad signature, a server error exactly when an accepted payload does not decrypt to a UUID's text, and otherwise the redirect to login when that id is a user, who alone becomes active, or the bare login page when it is not; no other outcome changes the table |
| AccountFlow.ActiveChangesOnlyOnSuccess | users/views.py:147-161 | every activation outcome except the redirect to login leaves the table as it was |
| AccountFlow.ActiveExpired | users/views.py:158-159 | a correctly signed token past six minutes answers "已过期" and changes nothing |
| AccountFlow.ActiveBadSignature | users/views.py:160-161 | a token with a wrong signature answers "激活链接无效" and changes nothing |
| AccountFlow.ActiveGenuineToken | users/views.py:147-157 | a token the site issued, followed in time, activates exactly its user; if that user is gone, nothing changes and the login page is rendered |
| AccountFlow.ActiveIdempotent | users/views.py:147-155 | following the same link twice leaves the table as following it once |
| AccountFlow.ActiveKeepsUniqueUsernames | users/views.py:147-161 | activation keeps usernames unique |
| AccountFlow.Login | users/views.py:80-105 | the session changes only to an existing, active user whose password checks |
| AccountFlow.LoginSucceedsIff | users/views.py:80-99 | login succeeds exactly when the form is valid and the user found is active with the right password; the session is then that user and the redirect goes to `next` or the index; otherwise the session is unchanged |
| AccountFlow.LoginFailureReasons | users/views.py:85-99 | no active user found gives "账号不存在or账号已被封禁"; an active user with a wrong password gives "密码错误" |
| AccountFlow.LoginPrefersUsername | users/views.py:84 | when a name is one user's username and another's email, login picks the username's owner |
| AccountFlow.PasswordChange | users/views.py:111-123 | no column but the password changes, only the authenticated session user's row can change, and the session is kept or cleared |
| AccountFlow.PasswordChangeOutcome | users/views.py:111-123 | a valid change by a logged-in user replaces only that user's password hash, logs out and redirects to login; any other outcome changes nothing |
| AccountFlow.PasswordChangeKeepsUniqueUsernames | users/views.py:111-123 | a password change keeps usernames unique |
| AccountFlow.UserCenterChange | users/views.py:125-140 | only the username and avatar change, only on the authenticated session user's row, and the session stays |
| AccountFlow.UserCenterChangeOutcome | users/views.py:125-140 | a valid change by a logged-in user rewrites only that user's username and avatar (under "user/avatars/"), unless another user holds the name; the session never changes |
| AccountFlow.UserCenterChangeKeepsUniqueUsernames | users/views.py:125-140 | a profile change keeps usernames unique |
| AccountFlow.RegisterThenActivate | users/views.py:51-72 | registering and following the link at least a second before the window closes leaves the new user active, holding the normalised username and email and the chosen password's hash, and every other user as before |
| AccountFlow.RegisterActivateLogin | users/views.py:51-99 | after registering and activating, logging in with the username as stored and the chosen password logs in the new user |
| UserViews.Site.constructor | users/views.py:46 | the site starts with the given table and no session |
| UserViews.Site.Register | users/views.py:51-77 | the view's steps perform exactly the registration transition and keep the site's invariant |
| UserViews.Site.Login | users/views.py:80-105 | the view's steps perform exactly the login transition; the modelled columns of the table are unchanged (`last_login` is not modelled) |
| UserViews.Site.Logout | users/views.py:107-109 | the session is cleared, the table unchanged, and the answer is a redirect to the index |
| UserViews.Site.PasswordChange | users/views.py:111-123 | the view's steps perform exactly the password-change transition |
| UserViews.Site.UserCenterChange | users/views.py:125-140 | the view's steps perform exactly the profile-change transition |
| UserViews.Site.Active | users/views.py:147-161 | the view's steps perform exactly the activation transition; the session is unchanged |
| UserViews.RegisterActivateAndLogIn | users/views.py:51-161 | register, follow the link twice, and log in under the stored username: the new user ends up active and logged in |
| Dates.DaysBetweenSign | users/models.py:91 | a date difference is negative exactly when the first date is earlier, and zero exactly for the same date |
| Dates.OrdinalOrder | users/models.py:105 | day numbers order dates as the calendar does |
| Babies.AgeInDays | users/models.py:87-92 | none exactly without a birthday; otherwise non-negative exactly when the birthday is not in the future, and zero exactly on the birthday |
| Babies.AgeInMonths | users/models.py:94-100 | none exactly without a birthday |
| Babies.AgeInMonthsIgnoresDay | users/models.py:94-100 | the day of the month plays no part in the month age |
| Babies.AgeInMonthsZeroIff | users/models.py:94-100 | the month age is zero exactly within the birth month |
| Babies.AgeInMonthsNextMonth | users/models.py:94-100 | moving today on by one calendar month, across a year's end too, adds one to the month age |
| Babies.AgesOfBirthdayNotInFuture | users/models.py:87-105 | a birthday not after today, the condition `clean` enforces, gives non-negative ages in days and months |
| Babies.Clean | users/models.py:102-110 | the birthday error is raised exactly for a future birthday; the weight error exactly for a weight over 20 kg when the birthday passes |
| Babies.CleanBoundaries | users/models.py:102-110 | a birthday of today and a weight of exactly 20 kg are allowed; one gram more is refused |
| Babies.CleanBirthdayFirst | users/models.py:102-107 | when both rules fail, only the birthday error is raised |
| PosixPath.BasenameHasNoSeparator | main/signals.py:18 | a base name holds no separator |
| PosixPath.JoinThenSplit | main/signals.py:15-20 | for a name and a directory-shaped head, `basename(join(a, b))` is `b` and `dirname` gives back `a` |
| PosixPath.ComponentsOfDirname | main/signals.py:15 | a path's components are its directory's, then its base name |
| PosixPath.ComponentsJoin | main/signals.py:14-20 | joining a relative path appends its components |
| PosixPath.ComponentsJoinAll | main/signals.py:27 | joining separator-free names gives exactly those names back as components |
| PosixPath.CommonPrefixIsLongest | main/signals.py:27 | `commonprefix` is the longest common prefix |
| PosixPath.RelPath | main/signals.py:27 | `relpath` fails exactly on an empty path, and never returns an empty name |
| PosixPath.RelPathBelow | main/signals.py:27 | a path inside `start` is named relative to it by the components beyond `start`'s |
| PosixPath.SplitExtParts | main/signals.py:19 | `splitext` cuts the name in two; the second part is empty or a dot-led extension without a separator |
| Thumbnails.ThumbFilenameShape | main/signals.py:18-19 | the thumbnail's file name is one name: the original base name without its extension, then "_thumb.jpg" |
| Thumbnails.ThumbPathLocation | main/signals.py:15-20 | the thumbnail lies in the "thumbs" directory beside the original, under the derived file name |
| Thumbnails.ThumbnailNameUnderMediaRoot | main/signals.py:14-28 | for a file stored by a relative name, the stored thumbnail name is that name's directory, then "thumbs", then the derived file name, whatever MEDIA_ROOT is |
| Thumbnails.ThumbnailName | main/signals.py:27-28 | the relative name of a generated thumbnail always exists and is not empty |
| Thumbnails.GuardClosesAfterGeneration | main/signals.py:13-29 | once the thumbnail name is stored, the guard fails, so the handler's own save generates nothing |
| Thumbnails.Photo.constructor | main/signals.py:10-13 | a new photo has no thumbnail and no recorded effects |
| Thumbnails.Photo.Save | main/signals.py:29 | a save records itself; when the guard passes and the image opens, it also records the handler's thumbnail save, one 300-pixel, quality-80 image job and the stored name; the thumbs directory is made whenever the guard passes; a photo that had a thumbnail writes no image |
| Thumbnails.Photo.GenerateThumbnail | main/signals.py:10-32 | the handler has exactly the effects above, with a failed image open caught and nothing stored |
| Thumbnails.UploadAndResave | main/signals.py:10-32 | an upload then a resave: three saves and one image when the image opens; no thumbnail and no image when it does not |
| Decimal.ValueOfText | main/models.py:546 | `str(n)` reads back as `n` |
| MainModels.UniqueIffAtMostOne | main/models.py:49 | a uniqueness constraint holds exactly when every key is carried by at most one row |
| MainModels.Insert | main/models.py:49 | an insert succeeds exactly when the primary key and the constrained key are free; it then adds the one row and keeps the constraint |
| MainModels.OneLikePerUserAndArticle | main/models.py:487 | a user likes an article at most once |
| MainModels.OneCollectPerUserAndArticle | main/models.py:475 | a user collects an article at most once |
| MainModels.OneLinkPerBabyAndUser | main/models.py:49 | a user is linked to a baby at most once, whatever the role |
| MainModels.OneMeasurementPerDay | main/models.py:181 | a baby has at most one measurement per day |
| MainModels.InsertVaccine | main/models.py:196-225 | a vaccine entry is added exactly when its id, its (name, dose) pair and its code are all new; both constraints are kept |
| MainModels.OneEntryPerVaccineDose | main/models.py:225 | each dose of a vaccine has one entry |
| MainModels.StateFromCode | main/models.py:421-428 | a stored state is one of the three choices exactly when it is -1, 0 or 1, and decodes to the choice with that code |
| MainModels.StateCodeRoundTrip | main/models.py:421-428 | every review state decodes back from its code |
| MainModels.NewArticle | main/models.py:445 | a new article keeps its fields and awaits review (state 0) |
| MainModels.NewComment | main/models.py:531-541 | a new comment keeps its fields, has no likes and is not deleted |
| MainModels.CheckCommentContent | main/models.py:515-520 | a comment's content is accepted exactly at 1 to 500 characters, and refused as required exactly when empty |
| MainModels.CommentSummary | main/models.py:545 | content of up to 20 characters is shown whole; longer content is cut to 20 characters followed by "..." |
| MainModels.SummaryBounds | main/models.py:545 | a summary has at most 23 characters and begins with as much of the content as it holds |
| MainModels.SummaryIdempotent | main/models.py:545 | summarising a summary changes nothing |
| MainModels.CommentLabel | main/models.py:543-546 | a comment's text opens with its id in brackets and ends with its summary |
| MainModels.CommentLabelsDistinguish | main/models.py:543-546 | comments with different ids never have equal text |
| MainModels.CategoryFromCode | main/models.py:60-67 | a decoded record category has the code it was read from |
| MainModels.CategoryCodeRoundTrip | main/models.py:60-67 | every record category decodes back from its code |
| MainModels.CategoryDisplay | main/models.py:107 | an undeclared category code is shown as stored |
| MainModels.RecordHeadline | main/models.py:107 | a record shows its title, or without one at most the first 20 characters of its content |
| MainModels.RecordLabel | main/models.py:106-107 | a record's text is the baby's, "的", the category's display name, ": " and then the title, or without one the first 20 characters of the content |
| MainModels.MediaTypeFromCode | main/models.py:113-116 | a decoded media type has the code it was read from |
| MainModels.MediaTypeCodeRoundTrip | main/models.py:113-116 | every media type decodes back from its code |
| MainModels.MediaTypeDisplay | main/models.py:145 | an undeclared media type is shown as stored |
| MainModels.PhotoName | main/models.py:145 | a photo shows its description, or "未命名" without one, and never an empty name |
| MainModels.PhotoLabel | main/models.py:144-145 | a photo's text is the type's display name, ": " and then the description, or "未命名" without one |
| MainModels.Children | main/models.py:408-409 | the children of a category are exactly the categories whose parent it is |
| MainModels.OneCategoryPerName | main/models.py:405 | a category name belongs to at most one category |
| MainModels.ChildOfOneParent | main/models.py:406-409 | a category is a child of its own parent and of no other category |
| MainModels.ChildrenDisjoint | main/models.py:406-409 | children of different categories never overlap, and a top-level category is nobody's child |

## Left out

- Rendering, templates, redirect URLs and the GET branches of the views: each POST outcome is reduced to a `Response` value.
- The activation email (`email_user`): its sending and its HTML are left out; the token it links to is returned.
- Sessions: the session is a single optional user id; `@login_required` is modelled only as a check that the session user exists and is active.
- AccountFlow.Login: Django's `login()` also writes `last_login`, and `check_password` may re-hash and save the password under a newer hasher. Neither column is in the model, so the login views leave the table unchanged here.
- The cryptography: Fernet, base64url, the signer's HMAC and the password hasher are passed in (`Signing.Env`); key handling and salts are not modelled.
- Signing.Unsign: the signed string's text format (value, colon, base62 stamp, signature) is not modelled; the token is a record of its three parts.
- Uuid.Parse: the braces and `urn:uuid:` prefix that `uuid.UUID` accepts are not modelled. Neither are the sign, whitespace, underscores or `0x` that `int(hex, 16)` also tolerates. Dashes may stand anywhere, and digits may be in either case.
- Django's built-in field validation beyond what the repository writes is not modelled. This covers the username character set, email syntax, whitespace stripping of CharField, and the model's field validators that the model form runs (the 150-character username, the password and email columns' max_lengths).
- The captcha's internals: its verdict is an input.
- UserViews.Site.UserCenterChange: a uniqueness failure of the username column is a `ServerError`; Django's own unique validation of a model form does not apply, because this is a plain form.
- AccountFlow.UserCenterChange: `request.POST['username']` raises MultiValueDictKeyError (a server error) when the key is absent, before the form runs. The input here cannot express an absent key; an empty username is answered by the form instead.
- AccountFlow.PasswordChange: the success redirect reverses `'user:login'`, while every other call uses the `users` namespace. Whether that name resolves depends on the root URLconf, which is not part of this model. The model takes it to resolve and answers the redirect to login.
- PosixPath.RelPath: `abspath` and `normpath` are not applied, so `.` and `..` components and relative roots are not normalised; MEDIA_ROOT is taken as given.
- Thumbnails.FilePath: the storage's `safe_join` check that the file stays under MEDIA_ROOT is not modelled; the path is a plain join.
- PIL imaging: resampling and JPEG encoding are left out; only the job handed to PIL (source, target, box, quality) is recorded. `imageOpens` stands for any exception PIL raises, all of which the handler catches.
- The `print` in the handler's `except` branch: it is console output only.
- The `created` flag and other `post_save` arguments: the handler ignores them.
- The `__str__` of BabyParent, Measurement, Vaccine and the other models outside the core, and the uniqueness of Tag and MilestoneType names, are not modelled.
- MainModels.RecordLabel: the baby's own text (`{self.baby}`) is a parameter.
- MainModels.CommentLabel: the comment's id is assumed saved (a number), so the unsaved `None` case is not modelled.
- Deletion cascades (`on_delete`), time stamps (`auto_now`, `default=timezone.now`), indexes and Meta orderings other than the user table's `-id`.
- The other views, forms and models of the repository (baby CRUD views, user management, articles, reactions, medical and milestone records).

## Findings

| source | as written | input that shows it | evidently intended | confidence | as-written member | corrected member |
|---|---|---|---|---|---|---|
| users/froms.py:129-133 | `clean_password2` reads `self.cleaned_data['password']`, but `clean_password` has already removed that key when it rejected the password, so a KeyError escapes `is_valid()` and the page fails | username "alice", email "a@x.com", password "abc", password2 "abc", captcha passing | compare the confirmation only when the password was kept, and report "密码短" as a form error | not executed | UserForms.RegisterAsWrittenCrashes | UserForms.RegisterValidIff |

# Dayang API service layer, modelled in Dafny

This project models the service layer of the Dayang Transport REST backend (NestJS + TypeORM).
Each TypeORM repository becomes a sequence of records held in a class. The classes are
`AuthService` (admins), `PagesService`, `PostsService`, `MessagesService` and `SettingsService`.
Each mutating service operation is a method of that class. Its postcondition ties the reply and
the new store to a pure transition function `ApplyX(store, …)` of the old store. The read-only
operations (`login`, `findAll`, `findOne`, …) are functions over the store. The properties are
proved as lemmas about those functions.

The centre of the model is the admin credential and password-reset life cycle of
`src/auth/auth.service.ts`:

- `login` fails with the one message "Identifiants invalides" whether the email is unknown or the
  password is wrong. On success it returns a token signed over `{ email, sub: id }` and the user's
  id and email only.
- `createAdmin` refuses a taken email.
- `forgotPassword` gives the same reply whatever the email. For a known email it stores a token
  of 64 lower-case hex digits and an expiry of now + 1 h.
- `resetPassword` rejects an unknown token and an expiry before now; a token still works at its
  exact expiry instant. On success it stores the new hash and clears the token and its expiry
  together, so the token works once.

Around it sit smaller rules:

- **Pages:** only the slugs home, about, services and contact are accepted. A page is created on
  first read, and reading is idempotent.
- **Settings:** the latest record is returned, or a default one named "Dayang Transport" is
  created once.
- **Posts:** new posts default to DRAFT; the listing and the carousel are filtered and sorted
  newest first.
- **Messages:** `markAsRead` is idempotent.
- **Uploads:** a file is checked for presence, then MIME type, then size (inclusive limit), and
  is named `timestamp-random.ext` under `/uploads/`.

Collaborators the services call are inputs of the model:

- bcrypt is an ideal hash (`Bcrypt.Hash`), whose digest matches exactly its own password; its salt
  is a parameter.
- JWT signing is a function parameter `sign`.
- `randomBytes(32)` is a parameter of type `ResetEntropy` (exactly 32 bytes).
- The clock is an integer of milliseconds.
- The UUID of a new row is a parameter. Methods require it to be fresh, as a primary key is.
- `Math.random()`'s text, `path.extname` and the rendering of the size limit in MB are strings
  passed in.

Three facts about the code shape the auth model:

- An expired reset token is rejected and nothing is saved (src/auth/auth.service.ts:177-179): the
  token and its expiry stay stored, and the store is left as it was.
- An unknown token and an expired one get two different messages: "Token de réinitialisation
  invalide ou expiré" (src/auth/auth.service.ts:173) and "Token de réinitialisation expiré"
  (src/auth/auth.service.ts:178).
- The objects returned by `createAdmin`, `findAllAdmins` and `findOneAdmin` come from an object
  spread that drops only `password` (src/auth/auth.service.ts:83-87, 97-100, 112-117).

The entity class `Admin` (src/auth/entities/admin.entity.ts:5-23) declares no reset-token
columns, and `AdminResponseDto` (src/auth/dto/admin-response.dto.ts:3-22) lists none either. The
model nevertheless treats `reset_password_token` and `reset_password_expires` as columns of the
admin row, because `forgotPassword` and `resetPassword` write and query them
(src/auth/auth.service.ts:151-152, 169, 186-187). Under that assumption the spread copies them
too, so `createAdmin`, `findAllAdmins` and `findOneAdmin` return them (`Auth.View`).

## Model

| member | source | states |
|---|---|---|
| Sequences.FirstIndex | src/posts/posts.service.ts:42 | `findOne({ where })` yields the first matching record, and none exactly when no record matches |
| Sequences.Filter | src/posts/posts.service.ts:24-28 | `find({ where })` yields exactly the matching records, each as often as stored |
| Sequences.SortNewest | src/posts/posts.service.ts:27 | `order: { created_at: 'DESC' }` yields a permutation of the records with `created_at` never increasing |
| Text.Join | src/pages/pages.service.ts:19 | `ALLOWED_SLUGS.join(', ')`: the parts separated by the separator, used in the invalid-slug message |
| Text.NatToString | src/upload/upload.service.ts:42 | a timestamp renders as a non-empty string of decimal digits |
| Text.ParseNatToString | src/upload/upload.service.ts:42 | the decimal rendering reads back to the same number |
| Text.Hex | src/auth/auth.service.ts:146 | `toString('hex')` gives two lower-case hex digits per byte |
| Text.UnhexHex | src/auth/auth.service.ts:146 | the hex rendering decodes back to the random bytes |
| Text.HexInjective | src/auth/auth.service.ts:146 | different random bytes give different reset tokens |
| Bcrypt.Hash | src/auth/entities/admin.entity.ts:16-22 | a digest has cost 10 and `compare` accepts exactly the password it was made from |
| Auth.View | src/auth/auth.service.ts:83-87 | the `{ password, ...rest }` spread: every column of the admin row except `password` |
| Auth.Login | src/auth/auth.service.ts:26-51 | every failure is Unauthorized("Identifiants invalides"); success is for a stored admin with that email whose hash matches, with the token signed over `{email, sub: id}` and user `{id, email}` only |
| Auth.LoginSucceedsIff | src/auth/auth.service.ts:27-39 | with unique emails, login succeeds if and only if some admin has that email and a hash matching the password |
| Auth.ValidateUser | src/auth/auth.service.ts:53-63 | returns the admin with that id; a bare Unauthorized exactly when there is none |
| Auth.FindOneAdmin | src/auth/auth.service.ts:103-118 | returns that admin without its password; NotFound with the id in the message exactly when there is none |
| Auth.FindAllAdmins | src/auth/auth.service.ts:91-101 | every admin appears, without its password, one entry per admin, newest first |
| Auth.ApplyCreateAdmin | src/auth/auth.service.ts:65-88 | `createAdmin` as a transition of the admins table: Conflict on a taken email, otherwise one appended admin holding the hash; specified by CreateAdminOutcome |
| Auth.ApplyRemoveAdmin | src/auth/auth.service.ts:120-130 | `removeAdmin` as a transition: NotFound, or the table without that admin; specified by RemoveAdminOnlyTarget |
| Auth.ApplyForgotPassword | src/auth/auth.service.ts:132-165 | `forgotPassword` as a transition: the generic reply, and for a known email a token and expiry; specified by ForgotPasswordDoesNotRevealEmail and ForgotPasswordIssuesToken |
| Auth.ApplyResetPassword | src/auth/auth.service.ts:167-193 | `resetPassword` as a transition: the two BadRequests, or the new hash with the token cleared; specified by ResetPasswordSucceedsIff |
| Auth.CreateAdminOutcome | src/auth/auth.service.ts:65-88 | Conflict exactly when the email is taken, the store unchanged; otherwise exactly one admin appended with that email and a hash of the password, returned without password and with a null image |
| Auth.CreateAdminKeepsValid | src/auth/auth.service.ts:66-80 | with a fresh id, ids and emails stay unique and the token fields stay paired; distinct tokens stay distinct |
| Auth.CreateThenLogin | src/auth/auth.service.ts:74-80 | a created admin logs in with its password and is refused with any other |
| Auth.RemoveAdminOnlyTarget | src/auth/auth.service.ts:120-130 | NotFound exactly for an unknown id, the store unchanged; otherwise exactly the admin with that id is deleted and every other admin stays |
| Auth.RemoveAdminKeepsInvariants | src/auth/auth.service.ts:120-130 | removal keeps ids and emails unique, and keeps distinct tokens distinct |
| Auth.ForgotPasswordDoesNotRevealEmail | src/auth/auth.service.ts:137-143 | the reply is the same generic message in every case, and the store is unchanged when no admin has the email |
| Auth.ForgotPasswordIssuesToken | src/auth/auth.service.ts:145-153 | for a known email, that admin's token becomes the 64 hex digits of the random bytes and its expiry now + 3600000 ms; every other admin and field is unchanged |
| Auth.ForgotPasswordKeepsValid | src/auth/auth.service.ts:150-153 | the store invariant (unique ids and emails, token and expiry set together) is kept |
| Auth.ForgotPasswordKeepsTokensDistinct | src/auth/auth.service.ts:146-153 | tokens stay distinct when no other admin holds the new one |
| Auth.EarlierTokenRevoked | src/auth/auth.service.ts:151-152 | after a new request, the earlier token (from other random bytes) matches no admin |
| Auth.ResetPasswordSucceedsIff | src/auth/auth.service.ts:167-193 | reset succeeds if and only if some admin holds the token with an expiry not before now; failures are BadRequest with the store unchanged; success replaces that admin's hash and clears token and expiry together |
| Auth.ResetPasswordSingleUse | src/auth/auth.service.ts:184-188 | after a successful reset, the same token is rejected as invalid, whatever the password and time |
| Auth.ResetPasswordKeepsInvariants | src/auth/auth.service.ts:184-188 | reset keeps the store invariant, and keeps distinct tokens distinct |
| Auth.ResetThenLogin | src/auth/auth.service.ts:181-188 | after a reset the admin logs in with the new password and not with the old one |
| Auth.ForgotThenReset | src/auth/auth.service.ts:146-179 | the issued token resets the password up to and including issue time + 1 h and is rejected as expired after |
| Auth.AuthService.CreateAdmin | src/auth/auth.service.ts:65-88 | the reply and the new store are those of ApplyCreateAdmin; the store invariant is kept, and distinct tokens stay distinct |
| Auth.AuthService.RemoveAdmin | src/auth/auth.service.ts:120-130 | the reply and the new store are those of ApplyRemoveAdmin; the store invariant is kept, and distinct tokens stay distinct |
| Auth.AuthService.ForgotPassword | src/auth/auth.service.ts:132-165 | the fields are assigned in place; the reply and new store are those of ApplyForgotPassword; the store invariant is kept, and distinct tokens stay distinct when no other admin holds the new token |
| Auth.AuthService.ResetPassword | src/auth/auth.service.ts:167-193 | the fields are assigned in place; the reply and new store are those of ApplyResetPassword; the store invariant is kept, and distinct tokens stay distinct |
| Pages.NewPage | src/pages/pages.service.ts:27 | `create({ slug })`: a page with only its slug set, every content field null |
| Pages.ApplyFindBySlug | src/pages/pages.service.ts:16-32 | `findBySlug` as a transition of the pages table: BadRequest for a slug outside the four, the stored page, or a new page appended; specified by FindBySlugGetOrCreate |
| Pages.ApplyUpdate | src/pages/pages.service.ts:34-38 | `update` as a transition: findBySlug, then the merge saved over that page; specified by UpdateIsFindThenMerge |
| Pages.Merge | src/pages/pages.service.ts:36 | fields present in the DTO overwrite, absent ones, the id and the slug keep their values |
| Pages.OnlyAllowedSlugs | src/pages/pages.service.ts:16-21 | reading and updating fail if and only if the slug is not one of the four, with BadRequest and the store unchanged |
| Pages.FindBySlugGetOrCreate | src/pages/pages.service.ts:23-31 | a stored page is returned without insertion; a missing one is created with only its slug and appended |
| Pages.FindBySlugIdempotent | src/pages/pages.service.ts:23-31 | a second read returns the same page and leaves the store as the first read left it |
| Pages.FindBySlugKeepsValid | src/pages/entities/page.entity.ts:5-8 | reading keeps at most one page per slug, and afterwards an allowed slug has its page |
| Pages.UpdateIsFindThenMerge | src/pages/pages.service.ts:34-38 | update is findBySlug, then the merge saved over exactly the page with that slug |
| Pages.PagesService.FindBySlug | src/pages/pages.service.ts:16-32 | the reply and new store are those of ApplyFindBySlug; one page per slug kept |
| Pages.PagesService.Update | src/pages/pages.service.ts:34-38 | calls FindBySlug, then saves the merged page in place; the result is that of ApplyUpdate |
| Posts.NewPost | src/posts/posts.service.ts:16-19 | `create({ ...dto, status: dto.status \|\| DRAFT })`: the DTO copied, the status defaulting to DRAFT, the carousel flag to false |
| Posts.ApplyCreate | src/posts/posts.service.ts:15-21 | `create` as a transition: the new post appended; specified by CreateOutcome |
| Posts.ApplyUpdate | src/posts/posts.service.ts:49-53 | `update` as a transition: NotFound, or the merge saved over that post; specified by UpdateOutcome |
| Posts.ApplyRemove | src/posts/posts.service.ts:55-58 | `remove` as a transition: NotFound, or the table without that post; specified by RemoveOnlyTarget |
| Posts.Merge | src/posts/posts.service.ts:51 | fields present in the DTO overwrite, absent ones, the id and the creation time keep their values |
| Posts.FindAll | src/posts/posts.service.ts:23-29 | exactly the posts with the given status (all posts when none is given), each once, newest first |
| Posts.FindCarousel | src/posts/posts.service.ts:31-39 | exactly the published posts flagged for the carousel, each once, newest first |
| Posts.FindOne | src/posts/posts.service.ts:41-47 | the post with that id; NotFound exactly when there is none |
| Posts.CreateOutcome | src/posts/posts.service.ts:15-21 | status is the given one or DRAFT, the carousel flag false unless given, the DTO copied; exactly that post is added and every existing post stays (multiset); the post is then found by id and listed under its status |
| Posts.UpdateOutcome | src/posts/posts.service.ts:49-53 | NotFound exactly for an unknown id; otherwise only that post changes, to its merge with the DTO, keeping its id |
| Posts.RemoveOnlyTarget | src/posts/posts.service.ts:55-58 | NotFound exactly for an unknown id; otherwise exactly that post is deleted |
| Posts.CarouselIsPublished | src/posts/posts.service.ts:31-39 | every carousel post is in the published listing |
| Posts.PostsService.Create | src/posts/posts.service.ts:15-21 | the post and the new store are those of ApplyCreate |
| Posts.PostsService.Update | src/posts/posts.service.ts:49-53 | looks the post up, merges and saves in place; result as ApplyUpdate |
| Posts.PostsService.Remove | src/posts/posts.service.ts:55-58 | looks the post up and deletes it; result as ApplyRemove |
| Messages.NewMessage | src/messages/messages.service.ts:15 | `create(dto)`: the DTO's name, email and text, with `is_read` false by the column default (src/messages/entities/message.entity.ts:16-17) |
| Messages.ApplyCreate | src/messages/messages.service.ts:14-17 | `create` as a transition: an unread message built from the DTO appended; specified by CreateOutcome |
| Messages.ApplyMarkAsRead | src/messages/messages.service.ts:33-37 | `markAsRead` as a transition: NotFound, or that message with `is_read` set; specified by MarkAsReadOutcome |
| Messages.FindAll | src/messages/messages.service.ts:19-23 | every message once, newest first |
| Messages.FindOne | src/messages/messages.service.ts:25-31 | the message with that id; NotFound exactly when there is none |
| Messages.CreateOutcome | src/messages/messages.service.ts:14-17 | exactly one message is added, built from the DTO and unread, and is then found by its id |
| Messages.MarkAsReadOutcome | src/messages/messages.service.ts:33-37 | NotFound exactly for an unknown id; otherwise only `is_read` of that message becomes true |
| Messages.MarkAsReadIdempotent | src/messages/messages.service.ts:33-37 | marking twice gives the reply and store of marking once |
| Messages.MessagesService.Create | src/messages/messages.service.ts:14-17 | the message and new store are those of ApplyCreate |
| Messages.MessagesService.MarkAsRead | src/messages/messages.service.ts:33-37 | sets the flag in place; result as ApplyMarkAsRead |
| Settings.DefaultSetting | src/settings/settings.service.ts:20-22 | `create({ site_name: 'Dayang Transport' })`: the site name set, every other field null |
| Settings.ApplyFindOne | src/settings/settings.service.ts:14-27 | `findOne` as a transition: the latest record, or the default created and stored; specified by FindOneOutcome |
| Settings.ApplyUpdate | src/settings/settings.service.ts:29-33 | `update` as a transition: findOne, then the merge saved over that record with every other record unchanged; specified by UpdateOutcome |
| Settings.LatestIndex | src/settings/settings.service.ts:15-17 | picks a record whose `created_at` is the greatest |
| Settings.Merge | src/settings/settings.service.ts:31 | fields present in the DTO overwrite (social links as a whole), absent ones keep their values |
| Settings.FindOneOutcome | src/settings/settings.service.ts:14-26 | with records, returns one with the greatest `created_at` and changes nothing; with none, creates the default named "Dayang Transport" as the only record |
| Settings.FindOneCreatesOnce | src/settings/settings.service.ts:19-26 | a second findOne returns the same record and creates nothing |
| Settings.LatestIndexByCreation | src/settings/settings.service.ts:15-17 | the latest record depends only on the creation times |
| Settings.UpdateLeavesOthers | src/settings/settings.service.ts:30-32 | with records present, only the latest record is replaced, by its merge with the DTO; every other record stays |
| Settings.UpdateOutcome | src/settings/settings.service.ts:29-33 | update merges the DTO into the record findOne yields (the default when empty), saves it in that record's place with every other record unchanged, and a later findOne returns the updated settings |
| Settings.UpdateKeepsValid | src/settings/settings.service.ts:29-33 | ids stay unique |
| Settings.SettingsService.FindOne | src/settings/settings.service.ts:14-27 | the record and new store are those of ApplyFindOne |
| Settings.SettingsService.Update | src/settings/settings.service.ts:29-33 | calls FindOne, merges and saves in place; result as ApplyUpdate |
| Upload.MaxFileSize | src/upload/upload.service.ts:33 | `configService.get('MAX_FILE_SIZE', 5242880)`: the configured limit, or 5242880 bytes when none is set |
| Upload.FileName | src/upload/upload.service.ts:39-42 | `${timestamp}-${randomString}${extension}`; its shape is stated by FileNameRecordsTimestamp |
| Upload.SaveFile | src/upload/upload.service.ts:21-51 | on success the filename is `FileName(timestamp, random, extension)` and the URL is "/uploads/" followed by it, so it ends with the filename |
| Upload.SaveFileChecksInOrder | src/upload/upload.service.ts:22-36 | accepted if and only if present, of an allowed MIME type and not larger than the limit; otherwise the first failing check's BadRequest |
| Upload.DefaultLimitIsInclusive | src/upload/upload.service.ts:33-36 | with the default limit, 5242880 bytes pass and 5242881 are refused |
| Upload.FileNameRecordsTimestamp | src/upload/upload.service.ts:39-42 | the name is the timestamp's digits, a '-', then the random text and the extension; the timestamp reads back from before the first '-' |

## Left out

- Controllers, Swagger decorators, guards and Nest module wiring: routing and framework glue.
- `pagesService.findAll/create/remove` and `uploadService.uploadProfileImage/getProfileImage/deleteProfileImage`: the controllers call them, but no implementation exists in the services, so they are not modelled.
- `changePassword`: only its DTO exists, so no service operation is modelled.
- class-validator constraints on DTOs: used only as preconditions (password length at least 6 on `CreateAdmin` and `ResetPassword`).
- The JWT's secret, expiry and encoding: `sign` is an opaque function parameter.
- bcrypt internals: the digest is an ideal one-way value, so two different passwords never match the same digest.
- `randomBytes`, `Date.now`, `Math.random` and the UUIDs of new rows are parameters; their randomness is not modelled.
- The expiry is `now + 3600000` ms. `setHours(getHours() + 1)` on local time across a daylight-saving change is not modelled.
- `updated_at` and the base entity's columns other than `id` and `created_at`: the base entity file is not part of this model.
- Ties in `created_at`: the database leaves their order unspecified, and so do the model's contracts.
- DTO fields sent as explicit `null`: a DTO field is either absent or carries a value.
- `update-post.dto.ts` is not part of this model; `UpdatePostDto` is taken as every create-DTO field made optional.
- The directory creation and file write of `UploadService`, and the upload path configuration: file-system I/O.
- Upload.SaveFile: the size-limit message contains the JavaScript rendering of `maxSize / 1024 / 1024`. It is passed in as a string rather than computed, because it is floating-point formatting.
- Upload.SaveFile: `path.extname(originalname)` is passed in as the extension rather than computed.
- Email delivery of the reset token and the console logging of the token: I/O.
- Concurrency: operations are modelled one at a time, as the source takes no locks.
- Settings.ApplyFindOne: takes `findOne({ order: { created_at: 'DESC' } })` (src/settings/settings.service.ts:15-17) to return the newest record, or none when the table is empty. test/app.e2e-spec.ts:121-127 expects a settings record back. Whether the ORM version in use accepts a `findOne` without a `where` condition, or throws instead, is not modelled.
- Bcrypt.Hash: `Compare` accepts exactly the password the digest was made from. The `bcrypt` library compares only the first 72 bytes of a password, and neither src/auth/dto/create-admin.dto.ts:20 nor src/auth/dto/reset-password.dto.ts:20-21 caps the length, so in the program a different password sharing those 72 bytes also matches. The negative halves of `Auth.CreateThenLogin` ("refused with any other") and `Auth.ResetThenLogin` ("not with the old one") rely on the ideal comparison.
- Auth.ResetPasswordSucceedsIff: holds under the hypothesis `TokensDistinct`, that no two admins hold the same reset token. The source does not enforce it; with duplicate tokens, which row `findOne` returns is unspecified. Random 256-bit tokens make a clash negligible, and `ForgotPasswordKeepsTokensDistinct` shows when issuing a token keeps it.
- Auth.ResetPasswordSingleUse: needs the same distinct-tokens hypothesis.
- Auth.ResetThenLogin: needs the same distinct-tokens hypothesis.
- Auth.ForgotThenReset: needs the same distinct-tokens hypothesis, and that no other admin already holds the new token.
- Auth.EarlierTokenRevoked: needs the same distinct-tokens hypothesis.
- Auth.AuthService.CreateAdmin: requires only the store invariant, and promises distinct tokens afterwards only when they were distinct before.
- Auth.AuthService.RemoveAdmin: requires only the store invariant, and promises distinct tokens afterwards only when they were distinct before.
- Auth.AuthService.ForgotPassword: requires only the store invariant, and promises distinct tokens afterwards only when they were distinct before and no other admin holds the new token.
- Auth.AuthService.ResetPassword: requires only the store invariant, and promises distinct tokens afterwards only when they were distinct before.

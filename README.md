# File manager and password recovery, modelled in Dafny

The system is a small NestJS back end that stores users' files in an object store and lets
users sign up, sign in and reset their password with an emailed code. This project models its
four working parts and proves properties of them:

- **File payloads.** An upload arrives as a `data:` URL (RFC 2397, section 2) with a base64
  body (RFC 4648, section 4). The service reads the media type and the extension out of it
  with a regular expression, strips the prefix with another one and decodes the rest. It then
  uploads the bytes under the key `folder/token.extension`. The folder loses one trailing `/`.
- **File records and access.** Each stored file has a record with its name, key, media type,
  URL and owner. A record can be opened, downloaded, renamed or deleted by its owner or by an
  ADMIN, and by nobody else. The listing shows an ADMIN every record and anyone else their own.
- **Credentials.** Sign-up stores a bcrypt digest under a unique email. Validation answers the
  email only when the password matches the digest. Sign-in turns that answer into a token
  payload.
- **Password recovery.** A request issues a decimal code from a fixed range, valid for a fixed
  number of hours, in the one recovery row the email has; the row is created or overwritten.
  An update redeems the code. It looks up a valid row for the email and code, marks it used
  *before* checking expiry ("now strictly after expiration" means expired), and only then sets
  the password.

Layout, one module per file:

- **`entities.dfy`** holds the table rows, the roles, the failure kinds, the `Option` and
  `Result` types, and the first-match search every `findOne` is modelled by.
- **`text.dfy`** holds JavaScript string behaviour the core relies on: greedy regex runs,
  `indexOf`, `split` on one character, and `toString` of a number.
- **`base64.dfy`** is the RFC 4648 codec, with both round trips proved.
- **`payload.dfy`** holds the pure string functions of the file service: the folder, the key,
  the media type, the extension, the prefix strip and the decoding.
- **`object_store.dfy`** is the object store as a class with a map of objects.
- **`file_catalog.dfy`** is the files table and its repository, a class over a sequence of rows.
- **`file_access.dfy`** is the file service, a class over the repository and the store.
- **`credentials.dfy`** is the users table and its repository.
- **`auth.dfy`** holds the recovery state machine and the auth service:
  - `Request` and `Redeem` are functions on the two tables, and the lemmas are about them;
  - `AuthService` is a class whose methods are proved to act as those functions on its
    repositories.

Clock, randomness, salts, the uuid token and failures of the outside systems are parameters:

| parameter | stands for |
|---|---|
| `now` | UTC milliseconds |
| `entropy` | the random source of `randomInt` |
| `salt` | the salt from `genSalt` |
| `token` | the uuid |
| `uploadFails` | a failing upload |
| `queryFails` | a failing query |
| `saveFails` | a failing insert |

## Model

| member | source | states |
|---|---|---|
| Entities.FirstIndex | src/auth/user.repository.ts:28 | a `findOne` on a table finds the first row meeting its condition, and none only when no row meets it |
| Text.Run | src/files/files.service.ts:147 | a greedy character class consumes the maximal run: every character in it satisfies the class and the next one does not (or the text ends) |
| Text.Split | src/files/files.service.ts:155 | `split` on one character gives at least one part, no part contains the separator, and joining the parts with it gives the text back |
| Text.DecimalString | src/auth/auth.service.ts:63 | `toString` of a non-negative number is a non-empty string of digits with no leading zero |
| Text.DecimalRoundTrip | src/auth/auth.service.ts:63 | the digits of the code denote exactly the number drawn |
| Text.DecimalStringInjective | src/auth/auth.service.ts:63 | different numbers give different codes |
| Base64.Encode | src/files/files.service.ts:130 | encoded text has a length that is a multiple of four and is empty only for no bytes |
| Base64.DecodeEncode | src/files/files.service.ts:130 | decoding the encoding of any bytes gives those bytes back |
| Base64.EncodeDecode | src/files/files.service.ts:130 | whatever text the decoder accepts is the encoding of its result, so only canonical text is accepted |
| Payload.SanitizeFolder | src/files/files.service.ts:117-126 | the result is the folder without one trailing `/`, and equals the folder exactly when the folder does not end in `/` |
| Payload.SanitizeFolderStripsOneSlash | src/files/files.service.ts:117-126 | only one `/` is removed: `folder + "/"` gives `folder` back, so `"a//"` gives `"a/"` |
| Payload.GenerateFilePath | src/files/files.service.ts:158-163 | the key is the sanitized folder, `/`, the token, `.` and the extension, located by length |
| Payload.GeneratedKeysDistinct | src/files/files.service.ts:158-163 | two keys for the same folder and extension are equal only when their tokens are |
| Payload.UploadKeyShape | src/files/files.service.ts:158-163 | with the folder constant of line 37 every key starts with `file-manager/` and ends with `.` and the extension |
| Payload.MimetypeSplit | src/files/files.service.ts:155 | a media type `t/u` of the accepted shape has exactly one `/`, so splitting it gives `[t, u]` |
| Payload.CommaAhead | src/files/files.service.ts:147 | `.*,` can match from a position exactly when a `,` follows with no line terminator before it |
| Payload.MimetypeAt | src/files/files.service.ts:147 | a match of the media-type pattern captures `t/u`, with `t` alphanumeric and `u` made of `[a-zA-Z0-9-.+]`, both non-empty; `MimetypeAtLocates` says where in the text it is, and `MimetypeAtMatches` that every position laid out as the pattern demands matches |
| Payload.MimetypeAtLocates | src/files/files.service.ts:147 | a media type found at a position is the text right after `data:` there, it ends at the first character outside `[a-zA-Z0-9-.+]`, and a `,` follows on the same line |
| Payload.MimetypeAtMatches | src/files/files.service.ts:147 | conversely, wherever `data:` is followed by a non-empty alphanumeric type, a `/` and a non-empty subtype of `[a-zA-Z0-9-.+]`, with a `,` ahead on the same line, the pattern matches at that position, whatever follows the subtype |
| Payload.FirstMatchFrom | src/files/files.service.ts:147 | `exec` reports the first start position that matches, and none when no position does |
| Payload.MimetypeFromBase64 | src/files/files.service.ts:146-150 | there is no media type exactly when no position matches (the source then throws); otherwise it has the shape `t/u` |
| Payload.FileExtension | src/files/files.service.ts:152-156 | an extension exists exactly when a media type does, and it is the subtype after the only `/` |
| Payload.DataUrlMatchesAtStart | src/files/files.service.ts:147 | in a data URL the pattern matches at position 0 and captures `t/u` |
| Payload.DataUrlMimetype | src/files/files.service.ts:146-156 | `data:t/u;base64,...` has media type `t/u` and extension `u` |
| Payload.PngExtension | src/files/files.service.ts:152-156 | a `data:image/png;base64,` payload has extension `png` |
| Payload.DataPrefixLength | src/files/files.service.ts:129 | a prefix match anchored at the start never extends past the content; `StrippedPrefixIsMatch` gives its shape |
| Payload.StripDataPrefix | src/files/files.service.ts:129 | what remains is a suffix of the content, and content not starting with `data:` is unchanged; `StrippedPrefixIsMatch` says what was removed |
| Payload.StrippedPrefixIsMatch | src/files/files.service.ts:129 | whatever the replace removes is one whole match `data:t/w;base64,`, with `t` alphanumeric and possibly empty and `w` a non-empty run of `\w` characters |
| Payload.PlainDataUrlNotStripped | src/files/files.service.ts:129 | a data URL without `;base64,`, such as `data:image/png,AAAA`, is left whole |
| Payload.StripWordSubtype | src/files/files.service.ts:129 | a prefix whose subtype is made of `\w` characters is removed, leaving exactly the body |
| Payload.SymbolSubtypeKeepsPrefix | src/files/files.service.ts:129 | when the subtype has a character outside `\w`, the anchored strip pattern does not match at all |
| Payload.SymbolSubtypeNotStripped | src/files/files.service.ts:128-150 | a subtype with `-`, `.` or `+` is accepted as media type but the prefix is not stripped |
| Payload.SvgPrefixNotStripped | src/files/files.service.ts:128-150 | a `data:image/svg+xml;base64,` payload keeps its prefix although its media type is `image/svg+xml` |
| Payload.BufferFromBase64 | src/files/files.service.ts:130 | canonical base64 text decodes to the bytes whose encoding it is |
| Payload.ConvertBase64FileToReadableStream | src/files/files.service.ts:128-144 | the reported size is the byte count, and a canonical body decodes to the bytes whose encoding it is |
| Payload.DataUrlDecodes | src/files/files.service.ts:128-131 | a strippable prefix followed by the encoding of bytes `b` yields exactly `b`, and the size is the length of `b` |
| ObjectStore.Bucket.Upload | src/files/files.service.ts:48-57 | a successful upload stores the body, media type, length and public-read flag under the key and answers the key and its location; a failed one stores nothing |
| ObjectStore.Bucket.GetObject | src/files/files.service.ts:95-100 | the object under the key, and nothing when there is none |
| FileCatalog.OwnedBy | src/files/file.repository.ts:16 | the rows kept are exactly the rows of the table with the user's id, each as many times as the table holds it |
| FileCatalog.OwnedByKeepsOrder | src/files/file.repository.ts:16 | the selection keeps table order: selecting from two stretches of the table gives the two selections one after the other |
| FileCatalog.FilesFor | src/files/file.repository.ts:15-17 | an ADMIN gets the whole table, anyone else exactly their own rows, each as many times as the table holds it; either way exactly the rows the user may access |
| FileCatalog.IndexOfId | src/files/files.service.ts:79 | the lookup by primary key finds a row with that key, and finds none only when no row has it |
| FileCatalog.FileRepository.GetFiles | src/files/file.repository.ts:12-26 | an ADMIN gets every row, another user exactly the rows with their id, each as many times as the table holds it, every returned row is in the table; a failing query is InternalServerError |
| FileCatalog.FileRepository.Insert | src/files/file.repository.ts:31-36 | one row is appended with a fresh key, the owner's id, and no owner relation, and keys stay distinct |
| FileCatalog.FileRepository.CreateFile | src/files/file.repository.ts:28-44 | the inserted row has the name and the owner's id and is answered without the owner; a failing save is InternalServerError and inserts nothing |
| FileCatalog.FileRepository.Save | src/files/files.service.ts:113 | writing back a row replaces only that row |
| FileCatalog.FileRepository.Delete | src/files/files.service.ts:106 | deleting a row removes only it and keeps the order of the rest |
| FileAccess.FilesService.CreateFile | src/files/files.service.ts:40-72 | no media type throws before anything is stored; a failed upload throws before anything is recorded; otherwise the decoded bytes are stored under the generated key with media type, size and public read, and one record with name, key, media type, location and owner is added and answered without the owner |
| FileAccess.FilesService.GetFileById | src/files/files.service.ts:78-90 | NotFound exactly when no record has the id, Forbidden exactly when the record is neither the user's nor the user an ADMIN, otherwise the stored record |
| FileAccess.FilesService.DownloadFile | src/files/files.service.ts:92-101 | the same NotFound and Forbidden cases; for an accessible record the stored object under its key, or the store's error when there is none |
| FileAccess.FilesService.UpdateFile | src/files/files.service.ts:109-115 | the call succeeds exactly when a record with the id exists and is the user's or the user is an ADMIN; on NotFound or Forbidden the table is unchanged; otherwise only the name of that record changes and the renamed record is answered |
| FileAccess.FilesService.DeleteFile | src/files/files.service.ts:103-107 | the call succeeds exactly when a record with the id exists and is the user's or the user is an ADMIN; on NotFound or Forbidden the table is unchanged; otherwise only that record is removed, no record with the id remains, and the store is not touched |
| Credentials.FindUserByEmail | src/auth/user.repository.ts:28 | the lookup finds the first user with the email, and none only when no user has it |
| Credentials.ValidateUserPassword | src/auth/user.repository.ts:26-35 | an answer is the email itself, of a user whose digest the password matches; an unknown email gives null |
| Credentials.ValidateUserPasswordIff | src/auth/user.repository.ts:26-35 | with unique emails, validation succeeds exactly when the user with that email has a digest the password matches |
| Credentials.SignedUpUserValidates | src/auth/user.repository.ts:9-35 | a user just signed up with a password validates with that password, for every salt |
| Credentials.UserRepository.SignUp | src/auth/user.repository.ts:9-24 | a taken email is a Conflict and adds nothing; another save error is swallowed and adds nothing; otherwise one user with the email, the digest of the password (never the plaintext) and role USER is added |
| Credentials.UserRepository.SavePassword | src/auth/auth.service.ts:94-95 | only the password column of that user changes |
| Auth.RandomInt | src/auth/auth.service.ts:63 | the drawn number lies in `[min, max)` |
| Auth.RandomIntCovers | src/auth/auth.service.ts:63 | every number of `[min, max)` can be drawn |
| Auth.IssuedCode | src/auth/auth.service.ts:63 | the code is a string of digits denoting a number in `[minCode, maxCode)` |
| Auth.FindRecovery | src/auth/auth.service.ts:66 | the lookup finds the first recovery row of the email, and none only when there is none |
| Auth.FindValidCode | src/auth/auth.service.ts:77 | the lookup finds the first unused row with the email and code, and none only when there is none |
| Auth.Request | src/auth/auth.service.ts:55-71 | NotFound exactly when no user has the email, and then nothing changes; users never change; after a successful request the new code is redeemable |
| Auth.Redeem | src/auth/auth.service.ts:73-96 | "not valid" exactly when no unused row matches, and then nothing changes; otherwise the matched row is marked used; "already expired" exactly when now is strictly after its expiration; failures leave passwords alone; success sets only that user's password |
| Auth.RequestPreservesValid | src/auth/auth.service.ts:55-71 | a request keeps emails and keys unique |
| Auth.RedeemPreservesValid | src/auth/auth.service.ts:73-96 | an update keeps emails and keys unique |
| Auth.RequestUpserts | src/auth/auth.service.ts:66-68 | the email's row keeps its key and takes the new code, expiration and validity, or exactly one row is appended; other emails' rows are untouched |
| Auth.RedeemIsSingleUse | src/auth/auth.service.ts:77-91 | redeeming the same email and code a second time fails "not valid", whether the first call succeeded or found the code expired |
| Auth.FreshCodeSetsPassword | src/auth/auth.service.ts:86-95 | a code redeemed at or before its expiration succeeds, and the new password then passes credential validation |
| Auth.OwnedRedeemFindsUser | src/auth/auth.service.ts:93-94 | when every recovery row belongs to a user, the update never meets a missing user |
| Auth.RequestPreservesOwned | src/auth/auth.service.ts:57-68 | a request only writes a row for an email that has a user |
| Auth.RedeemPreservesOwned | src/auth/auth.service.ts:83-95 | an update keeps every recovery row's email registered |
| Auth.ReissueInvalidatesEarlierCode | src/auth/auth.service.ts:66-81 | after a new request, an earlier different code of the same email fails "not valid" |
| Auth.RequestThenRedeem | src/auth/auth.service.ts:63-95 | the code a request issues sets the password when redeemed no later than its expiration |
| Auth.RecoverPasswordRepository.Save | src/auth/auth.service.ts:84 | writing back a row replaces only that row |
| Auth.RecoverPasswordRepository.Insert | src/auth/auth.service.ts:68 | inserting appends one row under a fresh key |
| Auth.AuthService.SignIn | src/auth/auth.service.ts:41-53 | Unauthorized unless the email is non-empty and a user with it has a digest the password matches; otherwise the payload holds exactly that email |
| Auth.AuthService.RequestPasswordRecovery | src/auth/auth.service.ts:55-71 | the tables after the call and its answer are those of `Request` with the issued code and the expiration `now` plus the policy's hours |
| Auth.AuthService.UpdatePassword | src/auth/auth.service.ts:73-96 | the tables after the call and its answer are those of `Redeem` with the digest of the new password |

## Left out

- **Object-store transport.** The bucket name, credentials, region and the streaming of the
  body are left out. `Bucket` keeps a map from keys to objects, and a failing upload is the
  flag `uploadFails`. The location of a key is an abstract function.
- **Streams.** The `Readable` stream and `getReadableStream` are left out. Only the bytes and
  their count are modelled.
- **The uuid token.** `v5(name, v4())` is the parameter `token`. That tokens differ is not
  modelled; `GeneratedKeysDistinct` says what follows when they do.
- **bcrypt.** `hash` and `compare` are uninterpreted, and the salt from `genSalt` is a
  parameter. `Sound` (a password matches its own digests) is a premise of the lemmas that
  need it.
- **Random codes and the clock.** `randomInt` draws with `entropy`. `moment.utc()` is `now`, in
  milliseconds. The recovery constants are the abstract `RecoveryPolicy`, and its codes are
  taken to be non-negative.
- **Email.** The recovery email and its fire-and-forget call are not modelled.
- **JWT and Passport.** `SignIn` answers the payload it would sign.
- **The parallel user lookup in `updatePassword`.** It is modelled as a lookup after the
  expiry check; nothing else writes the users table in between.
- **Controllers, modules, bootstrap and configuration.** Not modelled.
- **Pure delegations.** `FilesService.getFiles` and `AuthService.signUp` only delegate. They
  are modelled by `FileRepository.GetFiles` and `UserRepository.SignUp`.
- **Database errors the source does not catch.** These are the saves in the service's
  `createFile`, `updateFile` and `deleteFile`, and the recovery and password saves. The model's
  writes always succeed.
- Payload.BufferFromBase64: states only what canonical text decodes to. Node's lenient
  decoding of other text (skipped characters, missing padding) is the abstract parameter
  `lenient`.
- Credentials.ValidateUserPassword: without unique emails it only states soundness. The
  exact condition needs the unique constraint and is `ValidateUserPasswordIff`.
- FileCatalog.FileRepository.CreateFile: the path, media type and URL columns are left unset
  and shown as empty strings. What the database does with unset columns is not modelled.
  src/files/file.entity.ts:17, :21 and :25 declare these columns with a bare `@Column()`,
  which in TypeORM makes them NOT NULL with no default. A database that enforces this would
  reject every insert of src/files/file.repository.ts:31-36, so each real call would take the
  `saveFails` branch and answer InternalServerError. The success branch, with its empty
  strings, is then not reachable against such a database; the model keeps it because the
  database's constraints are outside it.
- FileAccess.FilesService.CreateFile: the answered record is the stored row, with its key and
  owner id. Which generated columns TypeORM copies back onto the object is not modelled.
- FileAccess.FilesService.DeleteFile: `delete(file)` with the record as criteria is modelled
  as removing that row by its position. Keys are unique, so no other row matches.
- Auth.AuthService.UpdatePassword: a user missing at the last step is the uncaught
  `MissingUser` error.
  - `RecoveriesOwned` is not part of `AuthService.Valid`, because users can be removed outside
    this core.
  - `OwnedRedeemFindsUser` shows that the case cannot arise while every recovery row's email
    is registered.
- **Number widths.** Keys and sizes are unbounded naturals. JavaScript number limits are not
  modelled.

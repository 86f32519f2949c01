# Sentinel Prime vault backend, modelled in Dafny

Sentinel Prime is a password vault. Its backend stores each user's credentials
encrypted with AES-256-CBC under a key derived from the `ENCRYPTION_KEY`
environment variable. Every record has its own random IV. The backend serves
create, list, reveal, update and delete operations, each scoped to the
authenticated owner.

This project models three parts of the backend:

- **The secret cipher** (`backend/utils/encryption.js`). The modules involved:
  - `Hex`: Node's lower-case hex encoding, and its lenient decoding.
  - `Utf8`: UTF-8 encoding, and decoding with replacement characters.
  - `Cbc`: CBC chaining and PKCS#7 padding over an abstract AES-256 block cipher.
  - `Encryption`: `getKey`, `encrypt`, `decrypt` and `generateSecurePassword`.
- **The vault record store.** `VaultSecretModel` models the schema in
  `backend/models/VaultSecret.js`:
  - the trim setters, and the required/maxlength/enum validators with their messages;
  - the `save` step, and the collection invariant that every stored record passes the schema.

  `VaultController` models the six handlers of
  `backend/controllers/vaultController.js`. `Replies` models the status and body each handler sends.
- **The account rules** (`backend/controllers/authController.js`), in `AuthController`:
  - registration with its uniqueness check;
  - login outcomes;
  - account deletion that cascades into the vault.

The primitives the code only calls are parameters:

- **AES-256** is any block cipher whose decryption inverts its encryption (the type `Cbc.Aes256`).
- **SHA-256** is any function from bytes to a 32-byte key.
- **`crypto.randomBytes`** is an input byte sequence.
- **The User model's bcrypt hook** is any hasher that recognises its own hashes (`AuthController.PasswordHasher`).
- **`generateToken`** (JWT signing) is any function from a user id to a string.
- **The clock** Mongoose uses for timestamps is an input.

Mongoose collections are classes holding a sequence of records. Every
handler that changes the store is a module-level method that takes the
collection and names it in its `modifies` clause; the collection's own
`Insert` is the store's one primitive for adding a record. Responses cannot leak
secrets by construction: the views `Created`, `Listed` and `Updated` have no
password, ciphertext or IV field, and `Registered` has no token.

Where the code and its design notes differ, the model follows the code:

- `decrypt` never fails on malformed UTF-8. Node's `'utf8'` decoder replaces
  each ill-formed subsequence by U+FFFD (`Utf8.DecodeOne`).
- An IV argument that is not valid hex does not fail by itself.
  `Buffer.from(ivHex, 'hex')` stops at the first pair that is not hex and drops
  an odd last digit (`Hex.Decode`); the failure then comes from the IV length
  check. The ciphertext goes through `decipher.update(text, 'hex', ...)`,
  which rejects a string of odd length outright; an even-length string is
  decoded by the same lenient rule, and OpenSSL's final block and padding
  checks decide the rest.
- The catch blocks send `res.statusCode || 500`, and Express starts every
  response at 200. A failed encryption, decryption or schema validation is
  thrown before any `res.status` call, so the handlers here answer it with
  status 200 and the error message, as the code does (see "## Findings").

## Model

| member | source | states |
|---|---|---|
| Hex.Encode | backend/utils/encryption.js:29-34 | the hex text has two lower-case digits per byte |
| Hex.DecodeEncode | backend/utils/encryption.js:50-53 | decoding the hex text of any bytes gives back the same bytes |
| Hex.DecodeLength | backend/utils/encryption.js:50 | well-formed lower-case hex of even length decodes to half as many bytes |
| Hex.Decode | backend/utils/encryption.js:50 | Node's lenient decoding never yields more than one byte per two digits |
| Utf8.Encode | backend/utils/encryption.js:29 | each character takes one to four bytes |
| Utf8.DecodeOne | backend/utils/encryption.js:53-54 | each decoding step consumes between one byte and what is left, so decoding never fails |
| Utf8.Decode | backend/utils/encryption.js:53-54 | decoding yields at most one character per byte |
| Utf8.DecodeOneEncodeChar | backend/utils/encryption.js:53-54 | the decoder reads one encoded character back, together with the exact number of bytes it took |
| Utf8.DecodeEncode | backend/utils/encryption.js:29-54 | decoding the UTF-8 bytes of any string gives back the string |
| Cbc.XorCancel | backend/utils/encryption.js:27-30 | xoring a block twice with the same block restores it, which is what CBC chaining relies on |
| Cbc.EncryptBlocks | backend/utils/encryption.js:27-30 | CBC encryption maps whole blocks to the same number of whole blocks |
| Cbc.DecryptBlocks | backend/utils/encryption.js:51-54 | CBC decryption maps whole blocks to the same number of whole blocks |
| Cbc.DecryptEncryptBlocks | backend/utils/encryption.js:24-61 | under any AES-256, CBC decryption with the same key and IV inverts CBC encryption |
| Cbc.Pad | backend/utils/encryption.js:29-30 | PKCS#7 padding keeps the message as a prefix and adds 1 to 16 bytes up to a block multiple |
| Cbc.Unpad | backend/utils/encryption.js:54 | OpenSSL's final check rejects an empty or ragged input and a bad pad byte |
| Cbc.UnpadIsInverseOfPad | backend/utils/encryption.js:29-54 | unpadding accepts a plaintext and yields `m` exactly when that plaintext is the padding of `m` |
| Encryption.GetKey | backend/utils/encryption.js:10-17 | fails with "ENCRYPTION_KEY not set" exactly when the variable is absent or empty; otherwise gives the 32-byte SHA-256 of its UTF-8 bytes |
| Encryption.Encrypt | backend/utils/encryption.js:24-40 | succeeds exactly when the key is set; any failure is "Failed to encrypt data"; the IV is the hex of the 16 fresh random bytes (32 lower-case digits); the ciphertext is lower-case hex of one more block than the whole blocks of the plaintext |
| Encryption.Decrypt | backend/utils/encryption.js:48-61 | every failure is the single "Failed to decrypt data" with no plaintext. Decryption succeeds exactly when the key is set, the IV decodes to 16 bytes, the ciphertext text has even length and decodes to a non-empty whole number of blocks, and the last decrypted block carries valid PKCS#7 padding; so an unset key, a short IV, an odd-length, empty or ragged ciphertext and a bad pad all fail |
| Encryption.EncryptDecrypt | backend/utils/encryption.js:24-61 | decrypting what `encrypt` returned gives back the plaintext, for every string including the empty one |
| Encryption.PasswordChar | backend/utils/encryption.js:74 | the character a random byte selects is in the 88-character alphabet |
| Encryption.GenerateSecurePassword | backend/utils/encryption.js:68-78 | the password has exactly the requested length (24 by default), and its character `i` is `charset[bytes[i] % 88]` |
| VaultSecretModel.TrimStart | backend/models/VaultSecret.js:14 | removes exactly the leading JavaScript white space and keeps a suffix |
| VaultSecretModel.TrimEnd | backend/models/VaultSecret.js:14 | removes exactly the trailing JavaScript white space and keeps a prefix |
| VaultSecretModel.TrimKeepsCore | backend/models/VaultSecret.js:11-38 | trimming keeps one contiguous piece of the input, with white space only outside it and none at its ends |
| VaultSecretModel.TrimIsSlice | backend/models/VaultSecret.js:11-38 | the trimmed value is the slice of the input that starts right after the leading white space |
| VaultSecretModel.TrimLeavesNoSpaceAtEnds | backend/models/VaultSecret.js:11-38 | the trimmed value neither starts nor ends with white space |
| VaultSecretModel.TrailingSpaceIsSpace | backend/models/VaultSecret.js:11-38 | everything after the trimmed value in the input is white space |
| VaultSecretModel.TrimFixedPoint | backend/models/VaultSecret.js:11-38 | a string is left unchanged by trimming if and only if it has no white space at either end |
| VaultSecretModel.TrimIdempotent | backend/models/VaultSecret.js:11-38 | trimming twice is trimming once |
| VaultSecretModel.Normalize | backend/models/VaultSecret.js:11-38 | title, websiteUrl and username become exactly their trimmed values, and every other field is unchanged |
| VaultSecretModel.Validate | backend/models/VaultSecret.js:5-42 | no violation is reported exactly when title, encryptedPassword and iv are present, title is at most 100 characters, category is in the enum and notes are at most 500 characters; an empty title, a category outside the enum and over-long notes each report their own violation. The violations are listed path by path, in schema order (title, encryptedPassword, iv, category, notes) |
| VaultSecretModel.SaveAccepts | backend/models/VaultSecret.js:5-42 | saving succeeds exactly when the trimmed title is non-empty and at most 100 characters, encryptedPassword and iv are non-empty, category is in the enum and notes are at most 500 characters |
| VaultSecretModel.SameValidatedFieldsSameViolations | backend/models/VaultSecret.js:5-42 | two documents that agree on title, category and notes, and on whether encryptedPassword and iv are empty, get the same violations, hence the same message |
| VaultSecretModel.Save | backend/models/VaultSecret.js:3-47 | a save succeeds exactly when the normalised draft passes the validators; it then stores that normalised record, which satisfies the schema; otherwise it reports every failing path |
| VaultSecretModel.SaveValidIsIdentity | backend/models/VaultSecret.js:3-47 | saving a record that already satisfies the schema stores it unchanged |
| VaultSecretModel.FindOwned | backend/controllers/vaultController.js:66-69 | finds a record matching both the id and the owner, and finds none exactly when no record matches both |
| VaultSecretModel.OwnedBy | backend/controllers/vaultController.js:50 | keeps exactly the owner's records |
| VaultSecretModel.NotOwnedBy | backend/controllers/authController.js:156 | keeps exactly the records of other users |
| VaultSecretModel.PartitionCount | backend/controllers/authController.js:156-165 | the owner's records and the others' add up to the whole collection |
| VaultSecretModel.NotOwnedByKeepsDistinct | backend/controllers/authController.js:156 | removing one owner's records keeps record ids distinct |
| VaultSecretModel.NotOwnedByKeepsValid | backend/controllers/authController.js:156 | removing one owner's records keeps the collection invariant |
| VaultSecretModel.AppendKeepsValid | backend/controllers/vaultController.js:19-29 | creating a valid record under a fresh id keeps the collection invariant |
| VaultSecretModel.SecretCollection.Insert | backend/controllers/vaultController.js:19-29 | the insert behind `create` appends exactly the given valid record under the next id, advances the id generator by one and keeps the collection invariant |
| VaultSecretModel.ReplaceKeepsValid | backend/controllers/vaultController.js:126 | saving a valid record over one with the same id keeps the collection invariant |
| VaultSecretModel.RemoveKeepsValid | backend/controllers/vaultController.js:157 | deleting one record keeps the collection invariant |
| Replies.CatchStatusAsWritten | backend/controllers/vaultController.js:41 | the catch block keeps any non-zero status the response already holds, so the preset 400 or 404 and the default 200 all pass through |
| Replies.CatchStatus | backend/controllers/vaultController.js:40-42 | the intended rule: the preset status if there is one, otherwise 500 |
| Replies.CaughtErrorsAreErrors | backend/controllers/vaultController.js:40-42 | under the intended rule every caught error is sent as 4xx or 5xx, which the code as written does not do |
| VaultController.Listings | backend/controllers/vaultController.js:51 | lists every record, in order, without its ciphertext and IV |
| VaultController.NewestFirstTail | backend/controllers/vaultController.js:52 | under the head of a newest-first listing, every entry is at most as new as the head |
| VaultController.InsertByDate | backend/controllers/vaultController.js:52 | inserting adds exactly the one entry and loses none |
| VaultController.InsertByDateKeepsOrder | backend/controllers/vaultController.js:52 | inserting into a newest-first listing keeps it newest first |
| VaultController.SortNewestFirst | backend/controllers/vaultController.js:52 | the sorted listing is newest first and a permutation of its input |
| VaultController.DraftAccepted | backend/controllers/vaultController.js:19-29 | creating the defaulted draft succeeds exactly when the trimmed title, the category (Other when falsy) and the notes pass the validators |
| VaultController.NewSecret | backend/controllers/vaultController.js:17-29 | succeeds exactly when the key is set and the defaulted, trimmed fields pass the validators (`CreateAccepted`); every failure is sent with the default status 200, "Failed to encrypt data" when the key is unset and otherwise the validation message of the defaulted draft. On success the record satisfies the schema and has: the given id; the caller as owner; a ciphertext that decrypts to the password under IV `hex(random)`; the trimmed title; the defaults Other, `[]` and `''` for falsy fields; both timestamps `now` |
| VaultController.CreateSecret | backend/controllers/vaultController.js:7-43 | 400 "Title and password are required" exactly when the title or password is falsy. Otherwise the create succeeds exactly when the key is set and the fields pass the validators, and any other failure is sent with status 200: "Failed to encrypt data" when the key is unset, otherwise the validation message of the defaulted draft. A failure stores nothing. A success appends exactly the record `NewSecret` describes under a fresh id, replies 201 without password, ciphertext or IV, and keeps the invariant |
| VaultController.PersonalCategoryAnsweredAsSuccess | backend/controllers/vaultController.js:7-43 | a create with category "Personal" and otherwise valid fields is answered with an error body under status 200, and stores nothing |
| VaultController.GetSecrets | backend/controllers/vaultController.js:48-59 | lists exactly the caller's records, without ciphertext and IV, newest first |
| VaultController.GetSecretById | backend/controllers/vaultController.js:64-94 | 404 "Secret not found" exactly when the caller owns no record with that id. For an owned record: when its pair decrypts, 200 with that record and its decrypted password; when it does not, "Failed to decrypt data" with status 200, and only then |
| VaultController.AssignFields | backend/controllers/vaultController.js:111-124 | fails exactly when a truthy password meets an unset key. Otherwise the document carries the assigned fields (`\|\|` for title and category, any array for tags, `!== undefined` for websiteUrl, username and notes) and a non-empty pair that decrypts to a truthy new password, or the stored pair |
| VaultController.MergedDocumentAccepted | backend/models/VaultSecret.js:3-47 | saving the assigned document succeeds exactly when the merged title, category and notes pass the validators (`UpdateAccepted`) |
| VaultController.Stamp | backend/models/VaultSecret.js:45 | only `updatedAt` can change; it stays when the saved document equals the stored one and becomes `now` otherwise |
| VaultController.SavedAsUpdated | backend/controllers/vaultController.js:111-126 | the saved and stamped document satisfies the schema and is exactly the update `UpdatedFrom` describes |
| VaultController.ApplyUpdate | backend/controllers/vaultController.js:111-126 | succeeds exactly when (the password is falsy or the key is set) and the merged record passes the validators; every failure is sent with status 200, and a validation failure carries the merged record's validation message. The saved record keeps id, owner and createdAt. A truthy title or category replaces the old one, and any array replaces the tags. websiteUrl, username and notes are replaced whenever present. A truthy password is re-encrypted so that it decrypts back, otherwise the pair is kept. updatedAt moves to `now` only if something changed |
| VaultController.EmptyValuesInUpdate | backend/controllers/vaultController.js:113-118 | `''` for title or category keeps the stored value, while `''` for websiteUrl, username or notes and `[]` for tags clear the field |
| VaultController.EmptyUpdateKeepsRecord | backend/controllers/vaultController.js:113-126 | an update with none of the fields leaves a valid record exactly as it was, updatedAt included |
| VaultController.UpdateSecret | backend/controllers/vaultController.js:99-140 | 404 and no change exactly when the caller owns no such record. For an owned record the update succeeds exactly when `ApplyUpdate` does, and every failure is sent with the default status 200, a validation failure with the merged record's validation message; a failed update changes nothing; a successful one replies 200, rewrites that record in place as `ApplyUpdate` describes, and leaves every other record and the invariant intact |
| VaultController.DeleteSecret | backend/controllers/vaultController.js:145-162 | 404 and no change exactly when the caller owns no such record; otherwise the reply is 200 "Secret deleted successfully", exactly that record is removed and the invariant kept |
| VaultController.PasswordLength | backend/controllers/vaultController.js:170 | the requested length when it lies in 12..64, 24 otherwise |
| VaultController.GeneratePassword | backend/controllers/vaultController.js:167-178 | a password of the clamped length, between 12 and 64 characters, all from the alphabet |
| VaultController.PersonalIsNotACategory | backend/models/VaultSecret.js:25-29 | the category enum does not hold "Personal" |
| VaultController.PersonalCategoryIsRejected | backend/models/VaultSecret.js:25-29 | a record with category "Personal" fails validation with an enum violation on `category` |
| AuthController.FindByEmail | backend/controllers/authController.js:80 | the first user with that email, and none exactly when no user has it |
| AuthController.FindByEmailOrUsername | backend/controllers/authController.js:25 | a user sharing the email or the username, and none exactly when no user shares either |
| AuthController.FindById | backend/controllers/authController.js:160 | a user with that id, and none exactly when no user has it |
| AuthController.AppendUserKeepsValid | backend/controllers/authController.js:24-36 | adding a user whose email and username nobody has, under a fresh id, keeps ids, emails and usernames distinct |
| AuthController.RemoveUserKeepsValid | backend/controllers/authController.js:160 | removing one user keeps the invariant and removes exactly the users with that id |
| AuthController.RegisterUser | backend/controllers/authController.js:14-54 | 400 "Please provide all fields" exactly when one of the three fields is falsy. Otherwise 400 "User already exists" exactly when an existing user shares the email or the username, and nothing is created. Otherwise the registration succeeds: one user is appended: a fresh id, the hashed password (which matches the given one) and the default role. The reply is 201 with id, username, email and role and no token |
| AuthController.Login | backend/controllers/authController.js:59-125 | 400 MISSING_CREDENTIALS exactly when email or password is missing; 401 USER_NOT_FOUND for an unknown email; 401 INVALID_PASSWORD for a known email whose stored hash the password does not match; both 401 refusals carry "Invalid email or password"; a session with token `sign(id)` exactly when the password matches the hash of the user found by email |
| AuthController.RegisteredUserCanLogIn | backend/controllers/authController.js:32-110 | a user who has just registered logs in with the same email and password and gets their own id, name, role and token |
| AuthController.RemovedUserCannotLogIn | backend/controllers/authController.js:87-93 | once a user is removed, their email gets 401 USER_NOT_FOUND |
| AuthController.DeleteAccount | backend/controllers/authController.js:148-171 | every secret the user owns is removed and every other secret kept; the user, and only that user, is removed; the reported count is the number of secrets removed |
| AuthController.NothingLeftOwned | backend/controllers/authController.js:156 | after the cascade the user owns no secret |

## Left out

- The AES-256 block function, SHA-256 and `crypto.randomBytes` are library code that is not shown. They are parameters: a cipher whose decryption inverts encryption, any 32-byte hash, and input bytes. IV uniqueness is probabilistic and is not stated.
- Tamper detection is not modelled. CBC has no authentication, so a corrupted ciphertext with valid padding decrypts to other text, as in the code.
- `Utf8.Encode`: lone surrogates cannot occur, because a Dafny `char` is a Unicode scalar value. JavaScript would encode a lone surrogate as U+FFFD.
- `maxlength` counts `char`s (code points). JavaScript counts UTF-16 units, so a title with characters beyond the BMP may pass here and fail there.
- JSON bodies are modelled as optional strings (or an optional string array for tags). Numbers, objects, booleans and `null` in those fields, and the casts Mongoose would attempt, are not modelled.
- `VaultController.PasswordLength` takes the length as an optional integer. A string, fractional or other JSON length is not modelled.
- Ids are naturals. A malformed ObjectId (a CastError) and database or network failures are not modelled, nor is the `catch` that answers them.
- `VaultController.GetSecrets` fixes one order for records with equal `createdAt`, collection order. The database may return ties in any order, so the contract states only newest-first and a permutation.
- The User schema (backend/models/User.js) is not part of this model. User field validation, unique indexes, e-mail normalisation and the concrete default role are unknown, so the role is a parameter of `AuthController.UserCollection` and `User.create` always succeeds. For that reason the "Invalid user data" branch (authController.js:47-50) is unreachable here.
- `getUserProfile` (authController.js:130-143) is outside the modelled core, as are the routes, `server.js`, the database connection, the seed script and the whole frontend. That includes the tag-splitting helper in the dashboard form.
- The login `catch` (authController.js:118-124) answers errors thrown by the database, bcrypt or JWT signing. None of these can fail here, so the 500 SERVER_ERROR reply is not modelled.
- Logging (`console.log`) and the token's seven-day expiry are not modelled.
- `async`/`await` and concurrent requests are not modelled: each handler runs as one atomic step on the store.

## Findings

| source | as written | input that shows it | evidently intended | confidence | as-written member | corrected member |
|---|---|---|---|---|---|---|
| backend/controllers/vaultController.js:41 | `res.status(res.statusCode \|\| 500)`. Express's `statusCode` is already 200 when nothing set it, so an error thrown before any `res.status` call is sent with status 200 | create a secret with category "Personal", which the dashboard form offers (frontend/src/pages/Dashboard.jsx:621). Validation throws, the reply is 200 with the validation message, and nothing is stored. The same happens for an encryption or decryption failure, and in the catch blocks at lines 92, 138 and 160 and authController.js:52 | unexpected errors are sent as 500 | not executed | Replies.CatchStatusAsWritten, VaultController.PersonalCategoryAnsweredAsSuccess, VaultController.UpdateSecret | Replies.CatchStatus, Replies.CaughtErrorsAreErrors |

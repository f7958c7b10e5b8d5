# MediCrypt core in Dafny

MediCrypt is a Next.js demo that "encrypts" medical images in the browser,
keeps each file's key in a mock user profile and guards the app with a mock
login. This project models the parts of it that compute something exactly,
and proves what they do:

- **The Rubik container** (`medi-crypt-app.tsx`). `encryptImageRubik` writes
  the UTF-8 text header `encrypted-<name>-type:<mime>-` in front of the file's
  bytes. Each byte is XORed with the low byte of a key character and with
  `rotationLayers % 256`. `decryptImageRubik` reads the header from the first
  2048 bytes, re-encodes it to find its byte length, cuts off the payload and
  XORs it again. The byte loops are array methods proved against the
  functions `Scramble`, `Container` and `Decrypt`. `TextEncoder` and the
  non-fatal `TextDecoder` are modelled byte by byte in `Utf8`.
- **The app's decisions around it.** Which key is saved after encryption,
  how the entered key is checked against the saved one, how a download is
  named, and when an error message is about e-mail.
- **The accept rule of `ImageUpload`**, and the label shown under the drop
  zone.
- **The mock account checks of `LoginRegisterForm.handleSubmit`.** A chain of
  checks that stops at the first failure, plus the key text that
  registration generates. The form's state is a class.
- **The account store of the `Home` page** (`page.tsx`). A class holding the
  stored account, the signed-in account and `isAuthenticated`, with its
  handlers as methods and a preserved invariant.

Some properties are behaviours of the code as written, not of its intent.
They are stated as lemmas:

- nothing authenticates the key;
- a `-` in the MIME type cuts it short and shifts the payload;
- a name starting with `type:` decodes as `-`;
- an invalid UTF-8 byte in the name moves the payload offset (only in a
  corrupted or crafted container: `encryptImageRubik` always writes valid
  UTF-8);
- a name of 2038 ASCII characters or more is rejected;
- `*/*` inside a longer accept list is not a wildcard;
- an email that matches the stored one only up to case passes the email
  check and fails as `Invalid password.`

Each source file is modelled against its own record shape. The form's
account has `email`. The page's account has `username` and an optional map
of keys.

Files:

- `wrappers.dfy`: `Option`, `Result`.
- `js_string.dfy`: the JavaScript string operations used (`indexOf`,
  `substring`, `split`, `join`, `trim`, `startsWith`, `charCodeAt`).
- `utf8.dfy`: the encoder and decoder.
- `rubik_container.dfy`: the container functions and methods.
- `rubik_properties.dfy`: lemmas about the container.
- `medi_crypt_app.dfy`: the app's handlers.
- `image_upload.dfy`: the accept rule and the label.
- `login_register_form.dfy`: the form's checks and state.
- `home_page.dfy`: the account store.

## Model

| member | source | states |
|---|---|---|
| RubikContainer.XorBits | src/components/medi-crypt-app.tsx:55 | the bitwise XOR of the low `n` bits is below `2^n`, so `^` of two bytes is a byte |
| RubikContainer.KeyByte | src/components/medi-crypt-app.tsx:55 | an empty key gives 0 (`charCodeAt` on an empty string is `NaN`, which `^` treats as 0); otherwise the byte is the low byte of one of the key's UTF-16 code units |
| RubikContainer.Scramble | src/components/medi-crypt-app.tsx:54-56 | the XOR pass keeps the payload's length |
| RubikContainer.ScrambleInPlace | src/components/medi-crypt-app.tsx:54-56 | the `DataView` loop leaves byte `i` as the old byte XOR the key byte at `i` XOR the layer byte, for every `i` |
| RubikContainer.SetBytes | src/components/medi-crypt-app.tsx:61-62 | `set(source, offset)` writes `source` at `offset` and keeps the bytes before and after it |
| RubikContainer.MetadataPrefix | src/components/medi-crypt-app.tsx:57 | the header text is `encrypted-`, the name, `-type:`, the type and `-`, so its length is the sum of theirs (where each piece sits: `RubikProperties.PrefixLayout`) |
| RubikContainer.Container | src/components/medi-crypt-app.tsx:57-62 | the container is as long as the encoded header plus the payload |
| RubikContainer.EncryptImageRubik | src/components/medi-crypt-app.tsx:45-68 | the output is a fresh array holding UTF-8 of `encrypted-<name>-type:<mime>-` followed by the scrambled payload |
| RubikContainer.HeaderText | src/components/medi-crypt-app.tsx:93-96 | the text searched is decoded from at most the first 2048 bytes, so it has at most that many characters |
| RubikContainer.ParseMetadata | src/components/medi-crypt-app.tsx:103-124 | a parsed header starts with `encrypted-`, has a non-empty name and a type without `-` |
| RubikContainer.NormalizeBlobType | src/components/medi-crypt-app.tsx:147 | a `Blob` type of printable ASCII is lower-cased character by character; any other becomes empty |
| RubikContainer.BlobType | src/components/medi-crypt-app.tsx:147 | an empty type gives `application/octet-stream`; a lower-case printable type is kept; a non-printable one becomes empty |
| RubikContainer.Decrypt | src/components/medi-crypt-app.tsx:81-151 | on success the name is non-empty, the type has no `-`, the `Blob` type follows the type, and the payload is as long as the buffer minus the rebuilt header's byte length |
| RubikContainer.DecryptImageRubik | src/components/medi-crypt-app.tsx:81-151 | the in-place method returns exactly what `Decrypt` specifies, error or file |
| Utf8.Encode | src/components/medi-crypt-app.tsx:58 | `TextEncoder` gives at least one byte per character; decoding gives the string back (`Utf8.DecodeEncode`) |
| Utf8.Decode | src/components/medi-crypt-app.tsx:87-96 | `TextDecoder` with `fatal: false` gives at most one character per byte, replacing ill-formed input and dropping a leading byte order mark; it inverts `Encode` (`Utf8.DecodeEncode`) |
| Utf8.EncodeAppend | src/components/medi-crypt-app.tsx:58 | encoding distributes over concatenation |
| Utf8.DecodeEncodePrefix | src/components/medi-crypt-app.tsx:96 | decoding an encoded string followed by any bytes gives the string back, then the decoding of those bytes |
| Utf8.DecodeEncode | src/components/medi-crypt-app.tsx:96 | `decode(encode(s)) == s` exactly when `s` does not begin with U+FEFF, which the decoder drops as a byte order mark |
| JsString.Substring | src/components/medi-crypt-app.tsx:112 | `substring` between two positions in range is the slice between them, in either order |
| JsString.IndexOf | src/components/medi-crypt-app.tsx:107-119 | `indexOf` returns the first occurrence at or after the clamped position, and -1 exactly when there is none |
| JsString.NoCharBeforeIndex | src/components/medi-crypt-app.tsx:119-124 | the text from the search position up to the first `-` found after it holds no `-` |
| JsString.Split | src/components/image-upload.tsx:87 | `split` on one character gives at least one piece and no piece holds the separator; splitting back a join gives the pieces (`JsString.SplitJoin`) |
| JsString.SplitJoin | src/components/image-upload.tsx:87 | splitting a join of pieces without the separator gives the pieces back |
| JsString.JoinSplit | src/components/medi-crypt-app.tsx:598-601 | joining the pieces of a split with the separator gives the string back |
| JsString.Trim | src/components/image-upload.tsx:87 | `trim` gives a contiguous part of the string with only whitespace cut off on each side, and neither end of the result is whitespace |
| JsString.TrimPadded | src/components/image-upload.tsx:87 | whitespace added around a string does not change its trim |
| JsString.CodeUnitsOfBmp | src/components/medi-crypt-app.tsx:55 | a key of BMP characters has one code unit per character |
| RubikProperties.XorCommutes | src/components/medi-crypt-app.tsx:55 | byte XOR is commutative |
| RubikProperties.XorAssociates | src/components/medi-crypt-app.tsx:55 | byte XOR is associative |
| RubikProperties.XorSelf | src/components/medi-crypt-app.tsx:55 | a byte XOR itself is 0 |
| RubikProperties.XorZero | src/components/medi-crypt-app.tsx:55 | 0 is the identity of byte XOR |
| RubikProperties.ScrambleTwice | src/components/medi-crypt-app.tsx:54-56 | two passes XOR each byte with the XOR of the two key bytes and of the two layer bytes |
| RubikProperties.ScrambleInvolution | src/components/medi-crypt-app.tsx:143-145 | the decrypt loop undoes the encrypt loop with the same key and layers |
| RubikProperties.KeyByteOfBmpKey | src/components/medi-crypt-app.tsx:55 | for a BMP key the key byte is the low byte of the key character at `i` modulo the key length |
| RubikProperties.PrefixLayout | src/components/medi-crypt-app.tsx:57 | where the marker, name, type marker, type and closing `-` sit in the header text |
| RubikProperties.NoEarlyTypeMarker | src/components/medi-crypt-app.tsx:107 | for a name without `-type:` that does not start with `type:`, no type marker starts before the one written after the name |
| RubikProperties.ParseFramed | src/components/medi-crypt-app.tsx:103-124 | a header written for such a name and a type without `-` parses back to that name and type, whatever text follows |
| RubikProperties.HeaderTextFramed | src/components/medi-crypt-app.tsx:93-96 | a header that fits in 2048 bytes is decoded intact at the start of the searched text |
| RubikProperties.DecryptParsed | src/components/medi-crypt-app.tsx:135-147 | once the header parses and the buffer is long enough, the result is the scrambled rest of the buffer |
| RubikProperties.DecryptShort | src/components/medi-crypt-app.tsx:135-137 | a parsed header longer than the buffer gives the too-short error |
| RubikProperties.DecryptRejected | src/components/medi-crypt-app.tsx:103-122 | a header that fails to parse gives that parse error |
| RubikProperties.DecryptFramed | src/components/medi-crypt-app.tsx:81-151 | a buffer starting with a well-formed header decrypts to its name, its type and the scrambled rest |
| RubikProperties.RoundTrip | src/components/medi-crypt-app.tsx:93-145 | with the same key and layers, decryption returns the original bytes, name and type, given a non-empty name free of `-type:` and not starting with `type:`, a type without `-`, and a header within 2048 bytes |
| RubikProperties.DecryptChecksInOrder | src/components/medi-crypt-app.tsx:103-137 | missing prefix, missing type marker, empty name, missing end marker, too short: each error is reported exactly when the earlier checks pass and its own fails, and decryption succeeds exactly when all pass |
| RubikProperties.EmptyTypeOnlyWarns | src/components/medi-crypt-app.tsx:126-128 | an empty type is no error: the file decrypts with `Blob` type `application/octet-stream` |
| RubikProperties.NoKeyAuthentication | src/components/medi-crypt-app.tsx:139-145 | success, the error, the name, the type and the payload length do not depend on the key or the layers |
| RubikProperties.WrongLayers | src/components/medi-crypt-app.tsx:143-145 | decrypting with layers `l2` instead of `l1` XORs every byte with `(l1 % 256) ^ (l2 % 256)` |
| RubikProperties.WrongKeyStillDecrypts | src/components/medi-crypt-app.tsx:139-145 | any key and layers "succeed" on a well-formed container, giving the original bytes XORed with the key and layer differences |
| RubikProperties.ContainerOfSplitType | src/components/medi-crypt-app.tsx:57-62 | the container for type `t1-t2` is the header for `t1` followed by `t2-` and the payload |
| RubikProperties.HyphenInTypeTruncates | src/components/medi-crypt-app.tsx:119-139 | a type `t1-t2` is read back as `t1`, and `t2-` is taken as the start of the payload |
| RubikProperties.ParseTypeColonName | src/components/medi-crypt-app.tsx:107-116 | a header whose name starts with `type:` parses to the name `-`, because `substring` swaps reversed ends |
| RubikProperties.NameStartingWithTypeColon | src/components/medi-crypt-app.tsx:107-139 | such a container decrypts to name `-`, the rest of the name as type, and a payload beginning with `pe:<type>-` |
| RubikProperties.ParseEmptyName | src/components/medi-crypt-app.tsx:112-116 | `encrypted--type:` followed by anything fails with the empty-name error |
| RubikProperties.EmptyNameRejected | src/components/medi-crypt-app.tsx:112-116 | a container made from a file with an empty name is always rejected with the empty-name error |
| RubikProperties.LongNameRejected | src/components/medi-crypt-app.tsx:93-110 | with an ASCII name of 2038 characters or more, the type marker lies past the 2048-byte window and the container is rejected |
| RubikProperties.InvalidNameByte | src/components/medi-crypt-app.tsx:96-139 | a name byte that is not UTF-8 becomes U+FFFD, which re-encodes to three bytes: the payload starts two bytes late, and a rest under two bytes is too short |
| MediCryptApp.SaveKey | src/components/medi-crypt-app.tsx:431-435 | the key is saved under the file name only when both are non-empty; every other name keeps its presence and its stored key |
| MediCryptApp.CheckStoredKey | src/components/medi-crypt-app.tsx:509-525 | the check reports a match, a mismatch or no saved key, each exactly when the saved key is non-empty and equal, non-empty and different, or missing or empty |
| MediCryptApp.HandleDecrypt | src/components/medi-crypt-app.tsx:476-531 | no file and no key end early; otherwise the outcome is `Decrypt`'s error, or its file with the stored-key check (match, possible mismatch, not verified) for the decrypted name |
| MediCryptApp.MismatchOnlyWarns | src/components/medi-crypt-app.tsx:509-527 | the saved keys change only the warning, never the decrypted file or the error |
| MediCryptApp.EncryptSaveDecrypt | src/components/medi-crypt-app.tsx:421-432 | encrypting, saving the key and decrypting with it gives the file back and reports that the key matches |
| MediCryptApp.ConstructEncryptedFilename | src/components/medi-crypt-app.tsx:597-605 | the new name is the old one lengthened by `.encrypted` |
| MediCryptApp.EncryptedFilenameWithExtension | src/components/medi-crypt-app.tsx:597-601 | `stem.ext` with `ext` free of `.` becomes `stem.encrypted.ext` (so `a.b.c` becomes `a.b.encrypted.c`) |
| MediCryptApp.EncryptedFilenameWithoutDot | src/components/medi-crypt-app.tsx:602-604 | a name without `.` gets `.encrypted` appended |
| MediCryptApp.LastDot | src/components/medi-crypt-app.tsx:598-600 | every name with a `.` is a stem, a `.` and a last piece without `.`, so the two lemmas above cover every name |
| MediCryptApp.ExtensionFor | src/components/medi-crypt-app.tsx:572-583 | a known type gets its own extension from `knownExtensions`, an unknown type `.bin`; the result is one of the five |
| MediCryptApp.FallbackBase | src/components/medi-crypt-app.tsx:570 | the fallback base name has no `.` |
| MediCryptApp.HandleDownload | src/components/medi-crypt-app.tsx:558-584 | no blob means no download; decrypt mode uses the decrypted name; encrypt mode uses the constructed encrypted name; otherwise the fallback base plus the type's extension |
| MediCryptApp.FallbackNameSplits | src/components/medi-crypt-app.tsx:569-583 | a fallback name carries exactly one `.`, between the base and the extension |
| MediCryptApp.ErrorMessageIncludesEmail | src/components/medi-crypt-app.tsx:977-979 | the test as written, with its `emailjs` alternative; what it amounts to is stated by `MediCryptApp.ErrorMessageIncludesEmailIff` |
| MediCryptApp.ErrorMessageIncludesEmailIff | src/components/medi-crypt-app.tsx:977-979 | the predicate holds exactly when there is a message whose lower-case form contains `email` |
| ImageUpload.AcceptedTypes | src/components/image-upload.tsx:87 | one entry per comma-separated piece, each the trimmed piece |
| ImageUpload.EntryAccepts | src/components/image-upload.tsx:89-92 | the test one trimmed entry makes; what it accepts is stated by `ImageUpload.FamilyWildcard`, `ImageUpload.ExactEntry` and `ImageUpload.WildcardEntry` |
| ImageUpload.IsFileTypeAccepted | src/components/image-upload.tsx:88-93 | a present file whose type the whole list `*/*` or some entry accepts; stated by `ImageUpload.WildcardAcceptsAll` and `ImageUpload.RejectedByEveryEntry` |
| ImageUpload.HandleDrop | src/components/image-upload.tsx:79-97 | `onFileChange` gets the dropped file exactly when the zone is enabled and the file is present and accepted |
| ImageUpload.HandleFileChange | src/components/image-upload.tsx:33-37 | a disabled zone calls nothing; otherwise the first chosen file, or `null` |
| ImageUpload.WildcardAcceptsAll | src/components/image-upload.tsx:88 | `*/*` as the whole list lets every file through |
| ImageUpload.FamilyWildcard | src/components/image-upload.tsx:89-90 | `<family>/*` accepts exactly the types `<family>/<anything>` |
| ImageUpload.ExactEntry | src/components/image-upload.tsx:92 | any other entry accepts only the identical, case-sensitive type |
| ImageUpload.WildcardEntry | src/components/image-upload.tsx:89-90 | the entry `*/*` accepts exactly the types starting with `*/` |
| ImageUpload.WildcardInsideList | src/components/image-upload.tsx:87-93 | `image/png, */*` rejects a `text/plain` file |
| ImageUpload.TwoEntryList | src/components/image-upload.tsx:87 | `image/png, */*` splits and trims to `image/png` and `*/*` |
| ImageUpload.PaddingIgnored | src/components/image-upload.tsx:87 | whitespace around the commas does not change the entries |
| ImageUpload.PaddingKeepsAcceptance | src/components/image-upload.tsx:87-93 | so it does not change which files are accepted |
| ImageUpload.LabelPiece | src/components/image-upload.tsx:180 | a piece's label is empty only for an empty piece |
| ImageUpload.Labels | src/components/image-upload.tsx:180 | one label per piece, each that piece's label |
| ImageUpload.AcceptLabel | src/components/image-upload.tsx:180 | the list `*/*` is labelled `Any file type` |
| ImageUpload.LabelOfTypedPiece | src/components/image-upload.tsx:180 | the label of `<family>/<sub>` is the upper-cased `<sub>` |
| ImageUpload.LabelOfUntypedPiece | src/components/image-upload.tsx:180 | a piece without `/` is its own label |
| ImageUpload.LabelOfTypedList | src/components/image-upload.tsx:180 | a list of `<family>/<sub>` entries is labelled with the upper-cased subtypes, joined by `, ` |
| LoginRegisterForm.MatchesEmailPattern | src/components/auth/login-register-form.tsx:132 | the regular expression as a search for a match anywhere; its shape is stated by `LoginRegisterForm.EmailPatternIff` |
| LoginRegisterForm.EmailPatternIff | src/components/auth/login-register-form.tsx:132 | the unanchored `\S+@\S+\.\S+` matches exactly when there is an `@` with a non-blank character before it, then a `.` with no blank in between and a non-blank character after it |
| LoginRegisterForm.PatternUnanchored | src/components/auth/login-register-form.tsx:132 | text around a match does not stop it matching, so `not an@email.x at all` passes |
| LoginRegisterForm.SimulatedHash | src/components/auth/login-register-form.tsx:93-94 | the simulated hash is the email with a fixed 7-character prefix and 9-character suffix around it |
| LoginRegisterForm.SimulatedHashInjective | src/components/auth/login-register-form.tsx:93-94 | the two simulated hashes are equal exactly when the two emails are equal, case included |
| LoginRegisterForm.KeyFileContent | src/components/auth/login-register-form.tsx:138 | the key text starts with `USER_KEY_FOR_`, the upper-cased email and `_` |
| LoginRegisterForm.KeyPrefixIgnoresCase | src/components/auth/login-register-form.tsx:138 | emails equal up to case get the same key text |
| LoginRegisterForm.LoginChecks | src/components/auth/login-register-form.tsx:83-120 | login succeeds exactly when there is a stored account with the identical email and the key file reads to text whose trim equals the stored key's trim; otherwise, in this order: no stored account gives `No registered user found`, an email different beyond case `Invalid email.`, a case-only difference `Invalid password.`, an unread file the read error, other key text `Invalid key file content.` |
| LoginRegisterForm.RegisterChecks | src/components/auth/login-register-form.tsx:125-142 | registration succeeds exactly when no stored account has the email up to case and the email has the pattern's shape, and it produces the generated key text; a taken email gives `Email already exists`, and otherwise a malformed one the format error |
| LoginRegisterForm.Submit | src/components/auth/login-register-form.tsx:60-154 | empty fields are reported first, then a missing key file for login; after that the outcome is the login or the register branch, with every error above; success in each mode exactly under the conditions above |
| LoginRegisterForm.NoStoredUserRejected | src/components/auth/login-register-form.tsx:83-86 | without a stored account a login fails with `No registered user found` |
| LoginRegisterForm.CaseOnlyDifferenceFailsPassword | src/components/auth/login-register-form.tsx:87-96 | an email equal to the stored one only up to case passes the email check and fails with `Invalid password.` |
| LoginRegisterForm.OtherEmailRejected | src/components/auth/login-register-form.tsx:87-89 | an email different beyond case fails with `Invalid email.` |
| LoginRegisterForm.DuplicateCheckedFirst | src/components/auth/login-register-form.tsx:125-134 | a taken email is refused as existing even when it is malformed |
| LoginRegisterForm.PasswordIgnored | src/components/auth/login-register-form.tsx:66-96 | any two non-empty passwords give the same outcome |
| LoginRegisterForm.RegisterThenLogin | src/components/auth/login-register-form.tsx:104-138 | the generated key text, stored and read back with whitespace around it, logs the same email in |
| LoginRegisterForm.Form.HandleFileChange | src/components/auth/login-register-form.tsx:36-40 | the first chosen file is kept and the error cleared; nothing else changes |
| LoginRegisterForm.Form.ResetForm | src/components/auth/login-register-form.tsx:42-53 | fields, file, loading flag and error are cleared; the tab stays |
| LoginRegisterForm.Form.HandleTabChange | src/components/auth/login-register-form.tsx:55-58 | the new tab with a cleared form |
| LoginRegisterForm.Form.HandleSubmit | src/components/auth/login-register-form.tsx:60-155 | the callback made is `Submit`'s outcome; a failure leaves its message and the entered fields, a success resets the form, and loading always ends |
| HomePage.WithFileKey | src/app/page.tsx:83-89 | the new record maps the file to the key, keeps every other entry and keeps username, password hash and key data |
| HomePage.WithFileKeyOverwrites | src/app/page.tsx:85-88 | a second key for the same file replaces the first |
| HomePage.WithFileKeyCommutes | src/app/page.tsx:85-88 | keys for two different files can be saved in either order |
| HomePage.WithFilesDefaulted | src/app/page.tsx:117 | the record gets its own map, or `{}` when it has none |
| HomePage.KeyDownloadName | src/app/page.tsx:148 | the key file's name ends in `_medicrypt_key.txt` |
| HomePage.NewUser | src/app/page.tsx:130-141 | a new account holds the username, the key text, the hash `hashed_<username>_password` and an empty map |
| HomePage.SavedKeyMatchesApp | src/app/page.tsx:81-90 | the page stores a key exactly as the app's `SaveKey` computes it |
| HomePage.Home.constructor | src/app/page.tsx:25-29 | signed out, no accounts, loading |
| HomePage.Home.LoadStoredUser | src/app/page.tsx:33-53 | a stored account is loaded with `encryptedFiles` defaulted to `{}`; unparsable data is removed; loading ends |
| HomePage.Home.SaveMockUser | src/app/page.tsx:61-73 | the account, or none, is set in state and in storage; `Valid()` is kept when the saved account has a map |
| HomePage.Home.UpdateUserEncryptedFiles | src/app/page.tsx:81-107 | with a stored account, it and its stored copy get the key, and the signed-in account follows only when its username is identical; without one nothing changes and the error toast is shown |
| HomePage.Home.HandleLoginSuccess | src/app/page.tsx:110-125 | signs in, with the map defaulted, exactly when the stored account's username matches up to case; otherwise nothing changes |
| HomePage.Home.HandleRegisterSuccess | src/app/page.tsx:127-170 | an empty or unread key saves nothing; otherwise the new account is saved and the key downloaded, and a failed download clears the account again |
| HomePage.Home.HandleLogout | src/app/page.tsx:172-179 | signed out, with the stored account kept |

`Valid()` says the page is signed in exactly when there is a current
account, and every account it holds has a map. The constructor establishes
it and every other `Home` method keeps it, except `SaveMockUser`. That one
keeps it only when the account it saves has a map, and every caller in the
page saves such an account.

## Left out

- Timing, `setTimeout`, `performance.now` and the reported times. They do
  not affect any value modelled.
- `generateKeySM4` and `Date.now`/`Math.random`. The encryption key is a
  parameter. The `${Date.now()}_${random}` tail of the registration key is
  the parameter `stamp`.
- `analyzeSecurity`, e-mail sending through EmailJS, `mailto` links, the
  clipboard, toasts' descriptions, and the DOM steps of a download. These
  are I/O or foreign calls. Only the toast titles of `page.tsx` are
  returned.
- React effects, preview URLs, and the status and progress setters of
  `handleEncrypt` and `handleDecrypt`. State updates in React are
  asynchronous, so only the final state of each handler is modelled.
  `handleEncrypt` is reduced to the key it saves (`MediCryptApp.SaveKey`).
- `handleModeChange`, `handleReset`, `handleCopyKey` and the drag, click and
  clear handlers of `ImageUpload`. They only touch UI state. So does
  `isDragging`.
- `localStorage` and `JSON.parse`. Storage is the field `Home.storage`, and
  a parse failure is the value `Unparsable`. Stored JSON whose fields are not
  strings is not modelled.
- `FileReader`. A read is its result: the text, or a failure.
- Property lookups on plain objects. `encryptedFiles[name]` for names such
  as `constructor`, and `knownExtensions[mimeType]` in the `handleDownload`
  fallback for a `Blob` type such as `constructor`, would find inherited
  members. Maps here hold only their own entries.
- The container has no authentication tag and no length field;
  `RubikProperties.NoKeyAuthentication` states the consequence.
- JavaScript strings are UTF-16 code units; the model's strings are Unicode
  scalar values. The key byte is taken from the real code units
  (`JsString.CodeUnits`). The header search uses ASCII markers, so it finds
  the same substrings on either view.
- JsString.ToLower and JsString.ToUpper: map ASCII letters only.
  `toLowerCase` and `toUpperCase` also map other letters. So the
  case-insensitive email comparisons, `LoginRegisterForm.KeyFileContent` and
  `MediCryptApp.ErrorMessageIncludesEmail` are exact for ASCII text only.
  `Blob` types are lower-cased as ASCII by the File API itself, so
  `RubikContainer.NormalizeBlobType` is exact.
- The `catch` around the `TextDecoder` call (`medi-crypt-app.tsx` lines
  98-101) cannot fire with `fatal: false`. It has no counterpart.
- The login branch's `Key file is required.` (`login-register-form.tsx`
  line 119) is unreachable after the check at line 71. It has no
  counterpart.
- `rotationLayers` is an integer. Non-integer or NaN values from outside the
  slider are not modelled.
- `ImageUpload.LabelOfTypedList`: proved for any list of `<family>/<sub>`
  entries. The label of the default `accept` list is an instance of it and
  is not stated as a literal.
- `src/components/admin/admin-dashboard.tsx`, `src/components/ui/input.tsx`
  and `src/app/layout.tsx` render UI only. `src/types/user.ts` is a type
  with no behaviour.

# SecureNotes front end: the field cipher and the note pages, in Dafny

SecureNotes stores each note's title and content encrypted. The browser front end encrypts each
field separately before it sends it and decrypts it for display. This project models that front-end
logic and proves its properties:

- **The field cipher** (`EncryptionService`). A key comes from PBKDF2-HMAC-SHA-256 over the
  password, a static salt and 100,000 iterations. A field's *envelope* is the base64 string
  (section 4 of RFC 4648) of a 12-byte random IV followed by the AES-GCM output.
  - `encrypt` fills the IV and the sealed bytes into one buffer in place, then encodes it.
  - `decrypt` is a chain of gates, and any of them may return the input unchanged: empty input,
    the base64 probe, fewer than 12 decoded bytes, and any failure caught around key derivation
    and AES-GCM.
  - The model keeps the bare-string `decrypt` and also a tagged outcome,
    `Recovered(text) | KeptAsIs(text, gate)`. It proves that the string is the outcome's text.
  - The source decodes the recovered bytes with the default `new TextDecoder()`, which drops a
    leading U+FEFF (the BOM). That form is `EncryptionService.DecryptAsWritten`. The corrected
    form, `EncryptionService.Decrypt`, decodes with the BOM kept, as
    `new TextDecoder('utf-8', { ignoreBOM: true })` does. The pages use the corrected form
    (see Findings below).
- **The encodings underneath**:
  - `btoa`;
  - `atob`, which is the WHATWG "forgiving base64" decode;
  - the Latin-1 "binary string" bridge of `String.fromCharCode` and `charCodeAt`;
  - `Uint8Array` truncation to bytes.
- **The WebCrypto primitives** (PBKDF2, AES-GCM, `TextEncoder`, `TextDecoder`). These are
  function-valued fields of `WebCrypto.Primitives`, so they are deterministic by construction.
  `WebCrypto.Lawful` states the laws the round trip depends on:
  - AES-GCM opens what it sealed under the same key and IV, and adds a 16-byte tag;
  - UTF-8 decoding that keeps a leading U+FEFF undoes encoding (the default decoder is that
    decoding followed by `WebCrypto.DropBom`);
  - UTF-8 takes at least one byte per character.

  A concrete instance shows that these laws can all hold at once.
- **The registration wizard** (`register.ts`):
  - the four-class password strength validator and the confirmation validator;
  - the three-step `step` counter;
  - the password error message with its fixed priority and ordering.
- **The note pages** (`note-item.ts`, `edit-note.ts`, `create-note.ts`):
  - the content preview, which strips `<[^>]*>` tags and caps the length at 150 characters plus `...`;
  - the word counter, which applies `trim` and then `split(/\s+/)`;
  - the "both fields blank" save guard;
  - the unsaved-changes bookkeeping of the editor;
  - the `isLoading` and `isLoadingNote` flags;
  - the request bodies the pages send, which hold the encrypted fields.

  `trim()` and `\s` share one white-space predicate, `JsText.IsWhiteSpace`: the ECMAScript
  WhiteSpace and LineTerminator code points.

The components are classes whose fields are the component's fields and signals. A request sent
to the notes API is appended to an `outbox` field. The `subscribe` callbacks that run when the
response arrives are separate methods (`OnNoteLoaded`, `OnUpdateSettled`, `OnCreateSettled`, ...).
Randomness enters as parameters:

- The IV from `getRandomValues` is an `EncryptionService.Nonce` parameter (a 12-byte sequence).
- The owner id read from `localStorage` is an `ownerId` parameter.
- The user's answer to `confirm` is a `confirmed` parameter.

Source behaviour modelled as written:

- `saveNote` in `create-note.ts` has no `catch`. When an encryption throws there, the call
  rejects with `isLoading` still set and nothing sent (`CreateNotePage.CreateNote.SaveNote`).
- `updateNote` in `edit-note.ts` clears `isLoading` in that case (`EditNotePage.EditNote.UpdateNote`).
- Content made only of tags, such as `<b></b>`, is not empty, so its preview is `""` and not the
  "no content" placeholder (`NoteItemView.TagsOnlyPreviewEmpty`).

Modules and files:

| file | module |
|---|---|
| `wrappers.dfy` | `Wrappers` (Option, Result) |
| `binary_string.dfy` | `BinaryString` |
| `base64.dfy` | `Base64` |
| `webcrypto.dfy` | `WebCrypto` |
| `encryption_service.dfy` | `EncryptionService` |
| `js_text.dfy` | `JsText` |
| `notes.dfy` | `NoteModel` |
| `note_item.dfy` | `NoteItemView` |
| `register.dfy` | `RegisterPage` |
| `edit_note.dfy` | `EditNotePage` |
| `create_note.dfy` | `CreateNotePage` |

## Model

| member | source | states |
|---|---|---|
| EncryptionService.Encrypt | secure-notes-front/src/app/services/encryption-service.ts:42-65 | The result is `EncryptResult`. For `""` that is `""`, with no key derived. A failed key derivation, seal or `btoa` gives the encryption error. Otherwise it is `btoa` of the binary string of a buffer filled in place with the IV, then the sealed bytes at offset 12. |
| EncryptionService.SetBytes | secure-notes-front/src/app/services/encryption-service.ts:56-58 | `Uint8Array.set(source, offset)`: the cells from `offset` on hold `source`, and every other cell keeps its old value. |
| EncryptionService.DecryptSync | secure-notes-front/src/app/services/encryption-service.ts:120-122 | `text \|\| ''` returns the text itself, empty or not. |
| EncryptionService.DecryptIsOutcomeText | secure-notes-front/src/app/services/encryption-service.ts:68-104 | The bare string `decrypt` returns is the text of the tagged outcome `Recovered(text) \| KeptAsIs(text, gate)`. |
| EncryptionService.EmptyField | secure-notes-front/src/app/services/encryption-service.ts:43 | `encrypt("")` is `""` and `decrypt("")` is kept as `""` at the first gate, whatever the primitives. |
| EncryptionService.IsBase64Iff | secure-notes-front/src/app/services/encryption-service.ts:107-116 | The probe accepts exactly the non-empty strings that are the base64 encoding of some bytes. It rejects every length that is not a multiple of 4. |
| EncryptionService.EncodingPassesProbe | secure-notes-front/src/app/services/encryption-service.ts:107-113 | The encoding of any non-empty byte sequence passes the probe, and `atob` followed by `charCodeAt` gives the bytes back. |
| EncryptionService.EnvelopeLayout | secure-notes-front/src/app/services/encryption-service.ts:46-60 | A non-empty field's envelope is the base64 of IV ‖ sealed bytes, with 12 + \|sealed\| bytes. The sealed bytes are the AES-GCM output for the derived key. Its length is a multiple of 4, it passes the probe, and it decodes to exactly those bytes. |
| EncryptionService.EnvelopeSize | secure-notes-front/src/app/services/encryption-service.ts:49-58 | With lawful primitives, an envelope decodes to 12 + \|UTF-8 text\| + 16 bytes. |
| EncryptionService.EnvelopeConceals | secure-notes-front/src/app/services/encryption-service.ts:42-65 | With lawful primitives, a non-empty field's envelope is strictly longer than the text, so it is never the text itself. |
| EncryptionService.RoundTrip | secure-notes-front/src/app/services/encryption-service.ts:87-98 | With lawful primitives, the corrected decrypt (BOM kept) gives back every string: `Decrypt(encrypt(s, p), p) == s`. The source's decrypt gives back `s` without a leading U+FEFF (`AsWrittenRoundTrip`). A non-empty one is `Recovered` by the final gate. Both calls to `getKey` derive the same key. |
| EncryptionService.DecryptKeepsOrAuthenticates | secure-notes-front/src/app/services/encryption-service.ts:99-103 | `decrypt` returns its input unchanged unless all of these hold: the input passed the probe, it decoded to at least 12 bytes, the key was derived, and AES-GCM authenticated the rest. |
| EncryptionService.WrongKeyKeepsEnvelope | secure-notes-front/src/app/services/encryption-service.ts:90-103 | When the other password's key derivation fails, or AES-GCM rejects under its key, `decrypt` returns the envelope itself. It is caught at the last gate and nothing is thrown. |
| EncryptionService.FreshNonceFreshEnvelope | secure-notes-front/src/app/services/encryption-service.ts:47 | Two encryptions of one text under different IVs give different envelopes, and the corrected decrypt reads both back as the text. |
| EncryptionService.AsWrittenDiffersOnlyByBom | secure-notes-front/src/app/services/encryption-service.ts:68-104 | The source's decrypt equals the corrected one on every gate that keeps the input. On a recovered text it is the corrected result with a leading U+FEFF dropped. The two agree on every text that does not start with U+FEFF. |
| EncryptionService.AsWrittenIsDecryptOrDropped | secure-notes-front/src/app/services/encryption-service.ts:68-104 | Whatever the input, the source's decrypt returns either the corrected result or that result with a leading U+FEFF dropped. |
| EncryptionService.AsWrittenRoundTrip | secure-notes-front/src/app/services/encryption-service.ts:68-98 | With lawful primitives, the source's decrypt of an envelope gives back the encrypted text with a leading U+FEFF dropped. |
| EncryptionService.BomIsLost | secure-notes-front/src/app/services/encryption-service.ts:98 | With lawful primitives, a text starting with U+FEFF comes back from the source's decrypt one character short, so not as itself. |
| EncryptionService.ToyEncryptionSucceeds | secure-notes-front/src/app/services/encryption-service.ts:42-65 | On the toy primitives, every encryption succeeds. |
| EncryptionService.LoneBomReadsBackEmpty | secure-notes-front/src/app/services/encryption-service.ts:98 | Counterexample on lawful primitives: the field `"\uFEFF"` encrypts, the source's decrypt reads it back as `""`, and the corrected one reads it back as `"\uFEFF"`. |
| EncryptionService.UnalignedTextPassesThrough | secure-notes-front/src/app/services/encryption-service.ts:73-76 | Any non-empty text whose length is not a multiple of 4 fails the probe (gate `NotBase64`) and is returned as it is. |
| EncryptionService.PlainTextPassesThrough | secure-notes-front/src/app/services/encryption-service.ts:73-76 | Example: `decrypt("hello world")` is `"hello world"`. |
| EncryptionService.ShortEncodingPassesThrough | secure-notes-front/src/app/services/encryption-service.ts:83-85 | `"QUJD"` passes the probe but decodes to 3 bytes, so it is kept as is at the length gate. |
| Base64.Encode | secure-notes-front/src/app/services/encryption-service.ts:60 | The `btoa` output has 4·⌈n/3⌉ characters: a multiple of 4, and empty exactly for no bytes. |
| Base64.DecodeEncode | secure-notes-front/src/app/services/encryption-service.ts:78-80 | Forgiving-base64 decoding of an encoding gives back exactly the bytes. |
| Base64.FromSextetsToSextets | secure-notes-front/src/app/services/encryption-service.ts:79 | Regrouping the 6-bit groups of any byte sequence into bytes recovers the sequence. The zero bits that fill the last group are discarded. |
| Base64.AtobBtoa | secure-notes-front/src/app/services/encryption-service.ts:112 | On the binary string of any bytes, `btoa` succeeds with their encoding, and `atob` of that encoding gives the binary string back. |
| Base64.EncodeInjective | secure-notes-front/src/app/services/encryption-service.ts:112 | Different byte sequences have different encodings. |
| Base64.RemoveAsciiWhitespace | secure-notes-front/src/app/services/encryption-service.ts:79 | `atob`'s first step leaves no ASCII white space, and leaves a string without any unchanged. |
| Base64.Atob | secure-notes-front/src/app/services/encryption-service.ts:79 | A successful `atob` is a binary string: every character code is below 256. |
| Base64.EncodeHasNoWhitespace | secure-notes-front/src/app/services/encryption-service.ts:60 | An encoding holds no ASCII white space, so `atob` reads it as it is. |
| BinaryString.FromCharCodes | secure-notes-front/src/app/services/encryption-service.ts:60 | `String.fromCharCode(...bytes)` has one character per byte, whose code is that byte. |
| BinaryString.FromCharCodesIsBinary | secure-notes-front/src/app/services/encryption-service.ts:60 | That string is a binary string, so `btoa` accepts it. |
| BinaryString.ToUint8Array | secure-notes-front/src/app/services/encryption-service.ts:78-80 | `new Uint8Array(codes)` keeps the length and takes each code modulo 256. |
| BinaryString.BytesOfFromCharCodes | secure-notes-front/src/app/services/encryption-service.ts:78-80 | `charCodeAt` over `fromCharCode(bytes)` gives the bytes back. |
| BinaryString.FromCharCodesBytesOf | secure-notes-front/src/app/services/encryption-service.ts:78-80 | On a binary string, the bytes rebuild the same string: the bridge is a bijection. |
| WebCrypto.LawfulPrimitivesExist | secure-notes-front/src/app/services/encryption-service.ts:49-53 | The laws assumed of PBKDF2, AES-GCM and UTF-8 are consistent: some primitives satisfy them all. |
| JsText.Or | secure-notes-front/src/app/components/note-item/note-item.ts:42-43 | `s \|\| fallback` is one of its two operands, `s` unless `s` is empty, and it is empty (falsy) only when both operands are. |
| JsText.TrimStart | secure-notes-front/src/app/pages/edit-note/edit-note.ts:124 | It removes the longest white-space prefix: the result is a suffix that does not start with white space, and everything removed is white space. |
| JsText.TrimEnd | secure-notes-front/src/app/pages/edit-note/edit-note.ts:124 | It removes the longest white-space suffix, symmetrically. |
| JsText.TrimIsBlankIff | secure-notes-front/src/app/pages/edit-note/edit-note.ts:153 | `s.trim()` is empty exactly when every character of `s` is white space. |
| JsText.WordRunsTrim | secure-notes-front/src/app/pages/edit-note/edit-note.ts:124 | Trimming does not change the number of maximal non-white-space runs. |
| JsText.SplitCountsWords | secure-notes-front/src/app/pages/edit-note/edit-note.ts:125 | On a string with no white space at either end, `split(/\s+/)` yields one piece per maximal non-white-space run. |
| NoteModel.WordCountIsWordRuns | secure-notes-front/src/app/pages/edit-note/edit-note.ts:123-126 | `getWordCount` is the number of maximal non-white-space runs of `title + ' ' + content`. |
| NoteModel.WordCountZeroIff | secure-notes-front/src/app/pages/create-note/create-note.ts:49-52 | The word count is 0 exactly when both fields trim to empty, which is when the save guard refuses. |
| NoteModel.WordCountAdds | secure-notes-front/src/app/pages/create-note/create-note.ts:50 | The separating space keeps the fields' words apart, so the count is the sum of each field's words. |
| NoteModel.BlankFieldsCountNothing | secure-notes-front/src/app/pages/create-note/create-note.ts:51 | Example: `" "` and `"\n"` count 0 words. |
| NoteModel.EncryptedBodyRoundTrip | secure-notes-front/src/app/pages/edit-note/edit-note.ts:161-170 | With lawful primitives, the corrected decrypt reads the body the pages send back as the two fields, and the body carries the owner id. A non-empty field is never sent as its plaintext. |
| NoteModel.EncryptedBodyAsWrittenRoundTrip | secure-notes-front/src/app/pages/edit-note/edit-note.ts:161-170 | With lawful primitives, the source's decrypt reads the body the pages send back as the two fields, each with a leading U+FEFF dropped. |
| NoteItemView.Displayed | secure-notes-front/src/app/components/note-item/note-item.ts:37-43 | A settled decryption is shown as it is. On a rejection, each field shows the note's own value, or, when that value is empty, `'Titre indisponible'` for the title and `'Contenu indisponible'` for the content. |
| NoteItemView.NoteItem.constructor | secure-notes-front/src/app/components/note-item/note-item.ts:20-22 | The card starts with empty decrypted fields and `isDecrypting` set. |
| NoteItemView.NoteItem.DecryptNoteData | secure-notes-front/src/app/components/note-item/note-item.ts:28-47 | The card shows the corrected `decrypt` of the note's title and content, and `isDecrypting` ends false. |
| NoteItemView.NoteItem.Decrypt | secure-notes-front/src/app/components/note-item/note-item.ts:50-52 | The synchronous `decrypt` hands the message back unchanged. |
| NoteItemView.NoteItem.GetContentPreview | secure-notes-front/src/app/components/note-item/note-item.ts:54-63 | Empty content previews as `'Aucun contenu...'`. The preview never contains a tag and never exceeds 153 characters. |
| NoteItemView.StripTagsKeepsChars | secure-notes-front/src/app/components/note-item/note-item.ts:59 | Stripping only removes characters: it never lengthens the text or introduces a character. |
| NoteItemView.StripTagsLeavesNoTag | secure-notes-front/src/app/components/note-item/note-item.ts:59 | After `replace(/<[^>]*>/g, '')`, no `<` is followed anywhere later by a `>`. |
| NoteItemView.StripTagsKeepsUntagged | secure-notes-front/src/app/components/note-item/note-item.ts:59 | Text in which no `<` is followed by a `>` goes through unchanged. |
| NoteItemView.StripTagsIdempotent | secure-notes-front/src/app/components/note-item/note-item.ts:59 | Stripping twice is stripping once. |
| NoteItemView.PreviewHasNoTag | secure-notes-front/src/app/components/note-item/note-item.ts:59-62 | Neither the placeholder, nor the stripped text, nor its truncation with `...` contains a tag. |
| NoteItemView.PreviewBounded | secure-notes-front/src/app/components/note-item/note-item.ts:60-62 | The preview has at most 150 + 3 characters. |
| NoteItemView.PreviewOfContent | secure-notes-front/src/app/components/note-item/note-item.ts:60-62 | Non-empty content previews as its stripped text when that fits in 150 characters. Otherwise it is 153 characters: the first 150 of the stripped text, then `...`. |
| NoteItemView.TagsOnlyPreviewEmpty | secure-notes-front/src/app/components/note-item/note-item.ts:56-59 | The emptiness test comes before stripping, so `"<b></b>"` previews as `""`, not as the placeholder. |
| RegisterPage.PasswordStrength | secure-notes-front/src/app/pages/register/register.ts:32-48 | An empty value has no error. A non-empty value has none exactly when it contains an upper-case letter, a lower-case letter, a digit and one of the special characters. The error object flags exactly the missing classes. |
| RegisterPage.PasswordMatch | secure-notes-front/src/app/pages/register/register.ts:51-58 | There is no error when either control is absent. Otherwise there is none exactly when the two values are equal, and `passwordMismatch` when they differ. |
| RegisterPage.Register.constructor | secure-notes-front/src/app/pages/register/register.ts:18-29 | The wizard starts at step 0, both passwords hidden and every field empty. |
| RegisterPage.Register.CanGoToNextStep | secure-notes-front/src/app/pages/register/register.ts:67-78 | False outside steps 0..2. Step 0 needs a name. Step 1 needs a well-formed e-mail address. Step 2 needs a password of 8 or more characters with all four classes, equal to its confirmation. |
| RegisterPage.Register.NextStep | secure-notes-front/src/app/pages/register/register.ts:88-92 | `step` goes up by one only when the current step is valid and below 2, and is otherwise unchanged. 0 ≤ step ≤ 2 is preserved. Leaving step 0 or 1 implies that its field was valid. |
| RegisterPage.Register.PreviousStep | secure-notes-front/src/app/pages/register/register.ts:94-98 | `step` goes down by one only above 0, and 0 ≤ step ≤ 2 is preserved. |
| RegisterPage.Register.TogglePasswordVisibility | secure-notes-front/src/app/pages/register/register.ts:80-82 | `showPassword` flips. |
| RegisterPage.Register.ToggleConfirmPasswordVisibility | secure-notes-front/src/app/pages/register/register.ts:84-86 | `showConfirmPassword` flips. |
| RegisterPage.Register.GetPasswordErrorMessage | secure-notes-front/src/app/pages/register/register.ts:130-143 | The first error wins: required, then minimum length, then strength. The strength message is the prefix followed by the labels of the missing classes, in the fixed order, joined by `", "`. The message is empty exactly when the password control is valid. |
| RegisterPage.SelectedIff | secure-notes-front/src/app/pages/register/register.ts:135-139 | Among distinct labels, a label is listed exactly when its flag is set. |
| RegisterPage.StrengthMessageNamesMissing | secure-notes-front/src/app/pages/register/register.ts:133-141 | The strength message names a class exactly when the password lacks it, and names at least one. |
| RegisterPage.LowerCaseOnly | secure-notes-front/src/app/pages/register/register.ts:36-45 | Any non-empty password made only of lower-case letters gets exactly the upper-case, digit and special-character flags. |
| RegisterPage.LowerCaseOnlyStrength | secure-notes-front/src/app/pages/register/register.ts:36-45 | Example: `"motdepasse"` lacks the upper-case, digit and special classes only. |
| RegisterPage.MissingThreeMessage | secure-notes-front/src/app/pages/register/register.ts:140 | Example: those three are listed in the fixed order, "une majuscule", "un chiffre", "un caractère spécial", joined by `", "`. |
| RegisterPage.StrongPasswordPasses | secure-notes-front/src/app/pages/register/register.ts:47 | Example: `"Secur1ty!"` has no strength error. |
| EditNotePage.LoadedFields | secure-notes-front/src/app/pages/edit-note/edit-note.ts:73-94 | After the note arrives, the displayed fields and the originals are the decrypted pair. When decryption rejects, they are the note's raw fields. |
| EditNotePage.EditNote.constructor | secure-notes-front/src/app/pages/edit-note/edit-note.ts:24-34 | The editor starts empty, with `isLoadingNote` set, `isLoading` clear and nothing sent. |
| EditNotePage.EditNote.GetWordCount | secure-notes-front/src/app/pages/edit-note/edit-note.ts:123-126 | The editor's word count is the number of word runs of `title + ' ' + content`. It is 0 exactly when both fields are blank. |
| EditNotePage.EditNote.LoadNote | secure-notes-front/src/app/pages/edit-note/edit-note.ts:55-61 | Without an id (absent or 0) nothing happens. Otherwise `isLoadingNote` is set and the note is requested. |
| EditNotePage.EditNote.OnNoteLoaded | secure-notes-front/src/app/pages/edit-note/edit-note.ts:62-87 | The fields show the note as the corrected `decrypt` reads it, the originals equal them, so `hasChanges()` is false, and `isLoadingNote` is cleared. |
| EditNotePage.EditNote.OnNoteLoadFailed | secure-notes-front/src/app/pages/edit-note/edit-note.ts:98-102 | A failed load clears `isLoadingNote`. |
| EditNotePage.EditNote.UpdateNote | secure-notes-front/src/app/pages/edit-note/edit-note.ts:151-191 | Without an id, or with both fields blank, nothing changes, `isLoading` included. Otherwise, when both encryptions succeed, one update carrying the two encrypted fields is sent and `isLoading` is set. If either fails, nothing is sent and `isLoading` is clear. |
| EditNotePage.EditNote.OnUpdateSettled | secure-notes-front/src/app/pages/edit-note/edit-note.ts:175-184 | Either response clears `isLoading`. |
| EditNotePage.EditNote.CanDeactivate | secure-notes-front/src/app/pages/edit-note/edit-note.ts:194-200 | Without changes the page may be left without asking. With changes, the user's answer decides. |
| CreateNotePage.CreateNote.constructor | secure-notes-front/src/app/pages/create-note/create-note.ts:22-24 | The composer starts empty, with `isLoading` clear and nothing sent. |
| CreateNotePage.CreateNote.GetWordCount | secure-notes-front/src/app/pages/create-note/create-note.ts:49-52 | The composer's word count is the number of word runs of `title + ' ' + content`. It is 0 exactly when both fields are blank. |
| CreateNotePage.CreateNote.SaveNote | secure-notes-front/src/app/pages/create-note/create-note.ts:72-100 | With both fields blank, nothing changes. Otherwise `isLoading` is set. When both encryptions succeed, exactly one new note is sent, carrying the two encrypted fields and the owner id. Otherwise nothing is sent. |
| CreateNotePage.CreateNote.OnCreateSettled | secure-notes-front/src/app/pages/create-note/create-note.ts:89-98 | A success or an error response clears `isLoading`. |

## Left out

- HTTP and RxJS: the notes, user and auth services are not part of this model. A request is an entry in `outbox`, and a response is a call to an `On...` method.
- Routing and the DOM are not modelled: `router.navigate`, `focus`, `setTimeout`, `autoResize`, `console` logging and `alert`.
- Dates are left out because they depend on the clock and the locale: `lastModified`, `getLastModified`, `getFormattedDate`, `getFullDate` and the `created_at` field of a note.
- `localStorage.getItem("userId")` and its `+` conversion are left out. The owner id enters as an `ownerId` parameter, so a missing or non-numeric value (`NaN`) is not modelled.
- The route's `+id` conversion is left out. `noteId` is an optional integer, so a `NaN` id (falsy, like `null`) is not modelled separately.
- Asynchrony is not modelled. `encrypt` and `decrypt` are synchronous, and the two calls of `Promise.all` run one after the other. They share no state, so nothing observable changes.
- The WebCrypto internals are not modelled: PBKDF2, AES-GCM, `TextEncoder` and `TextDecoder` are abstract functions with the laws in `WebCrypto.Lawful`. `getRandomValues` is the `iv` parameter. The `SECRET_KEY` default password is a field of `EncryptionService.Service`.
- `EncryptionService.Encrypt`: the message of the thrown `Error('Échec du chiffrement')` is not modelled. Every failure is the single value `EncryptionFailed`.
- `String.fromCharCode(...combined)` passes one argument per byte. The engine's limit on the number of arguments, which a very large field would exceed, is not modelled.
- JavaScript strings are modelled as sequences of Unicode scalar values, not UTF-16 code units. Lengths therefore differ for characters outside the Basic Multilingual Plane. Three places are affected: the 8-character minimum, the 150-character preview cut and `substring`. Lone surrogates, which `TextEncoder` would replace, cannot occur.
- Angular's `Validators.email` pattern is the `isEmailAddress` parameter of `RegisterPage.Register`. Controls hold strings, so a `null` control value is not modelled.
- `onSubmit`, `getNameErrorMessage`, `getEmailErrorMessage` and `getConfirmPasswordErrorMessage` of `register.ts` are form plumbing over Angular's validators and are not modelled.
- The note fields are strings, so `note.title || ''` is the identity. A `null` title or content coming from the API is not modelled.
- `NoteItemView.NoteItem.DecryptNoteData`: `decrypt` never rejects, so the method always takes the settled branch. The catch branch's fallback values, the note's own fields or `'Titre indisponible'` and `'Contenu indisponible'` for empty ones, are stated by `NoteItemView.Displayed` on `None` instead.
- `NoteItemView.NoteItem.DecryptNoteData`: the card shows the fields as the corrected decrypt reads them, not as the source's `decrypt` does. The corrected form is the one the rest of the model builds on (see Findings). The source's card differs only on a field whose plaintext starts with U+FEFF, which it shows without that character (`EncryptionService.AsWrittenIsDecryptOrDropped`).
- `EditNotePage.EditNote.OnNoteLoaded`: `decrypt` never rejects, so the catch branch of `loadNote` is stated by `EditNotePage.LoadedFields` on `None`. That branch shows and remembers the raw fields, so it too leaves `hasChanges()` false.
- `EditNotePage.EditNote.OnNoteLoaded`: the editor shows and remembers the fields as the corrected decrypt reads them, not as the source's `decrypt` does. They differ only on a field whose plaintext starts with U+FEFF, which the source drops (`EncryptionService.AsWrittenIsDecryptOrDropped`). The source then shows and remembers the same dropped text, so `hasChanges()` is false there too.
- `hasChanges` is the predicate `EditNotePage.EditNote.HasChanges`, which states exactly its body. Its use is proved through `OnNoteLoaded` and `CanDeactivate`.

## Findings

| source | as written | input that shows it | evidently intended | confidence | as-written member | corrected member |
|---|---|---|---|---|---|---|
| secure-notes-front/src/app/services/encryption-service.ts:98 | `decrypt` decodes with the default `new TextDecoder()` (line 9), which strips a leading U+FEFF | a title or content of `"\uFEFF"` is encrypted and then read back as `""`; `"\uFEFFabc"` comes back as `"abc"` | `decrypt(encrypt(s)) == s` for every field, for example with `new TextDecoder('utf-8', { ignoreBOM: true })` | not executed; medium | EncryptionService.LoneBomReadsBackEmpty | EncryptionService.RoundTrip |

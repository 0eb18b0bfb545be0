# Secretly: a model of the one-time secret exchange

Secretly shares a text secret through a link that opens once. The browser
encrypts the secret with AES-GCM under a fresh 256-bit key and a fresh 96-bit
IV. It POSTs only the base64 ciphertext and IV to the backend and puts the
base64 key in the link's fragment. The backend stores the bytes in a `secrets`
table and releases a row to at most one GET. The viewer's page imports the key
from the fragment before it makes its one fetch, then decodes and decrypts.

The Dafny modules follow the source files:

| module | file | models |
|---|---|---|
| `Base64` | `base64.dfy` | standard padded base64 (section 4 of RFC 4648): the encoder behind `btoa`/`b64encode` and the strict decoder |
| `LenientBase64` | `lenient_base64.dfy` | the browser's `atob` (forgiving-base64 of the WHATWG Infra standard), shown equal to the strict decoder on well-formed text; the backend's `b64decode(v, validate=True)` is strict and is `Base64.Decode` itself |
| `Crypto` | `crypto.dfy` | `frontend/src/lib/crypto.ts`: the codec wrappers, key export/import and the error collapsing around an abstract AES-GCM |
| `SecretSchemas` | `secret_schemas.dfy` | `backend/app/routers/schemas/secrets.py`: field bounds and the two validators |
| `SecretModel` | `secret_model.dfy` | `backend/app/models/secret.py`: the row and its defaults; the table is a map keyed by `id` |
| `SecretRouter` | `secret_router.dfy` | `backend/app/routers/secrets.py`: `create_secret` and `get_secret` as pure steps, a `SecretStore` class whose methods are proved against them, and the at-most-once theorem over any sequence of requests |
| `ApiClient` | `api_client.dfy` | the outcomes of `frontend/src/api/client.ts` as the pages see them |
| `ViewSecret` | `view_secret.dfy` | the `hasLoadedRef` guard and `loadSecret` of `ViewSecret.tsx`, as a class over the page's state cells |
| `CreateSecret` | `create_secret.dfy` | `handleSubmit` and the submit-enabled condition of `CreateSecret.tsx`, as a class over the page's state cells |
| `Protocol` | `protocol.dfy` | the whole exchange end to end |
| `Wrappers` | `wrappers.dfy` | `Option` and `Result` |

AES-GCM and the TextEncoder/TextDecoder pair are parameters (the `Platform`
datatype). Their laws are the predicates `Crypto.Correct` (decrypting a sealed
message under the same key and a 12-byte IV gives it back, see NIST SP 800-38D)
and `Crypto.Inverse` (UTF-8 decoding inverts encoding). Lemmas that need these
laws take them as `requires`. Each random draw (`getRandomValues` and
`generateKey`) is an `Entropy` input. The `nanoid` id, the clock, the database
failure and each HTTP reply are inputs too. So is the set of raw AES key
lengths the browser's `importKey` accepts (`Platform.keySizes`); lemmas that
import a key require `Crypto.KeySizesAllowed`, a subset of {16, 24, 32} that
holds 32.

Facts about the code that shape the model:
- `importKeyFromBase64` passes the decoded bytes to `subtle.importKey("raw", …)`
  whatever `length` says. The Web Crypto standard accepts 16-, 24- and 32-byte
  AES keys there; Chromium, which the end-to-end script drives, refuses
  24-byte keys. `Crypto.ImportKey` therefore accepts exactly the platform's
  key sizes, and on Chromium a key text of 24 bytes gives "Invalid encryption
  key." before any fetch (`Crypto.MiddleKeySizeDependsOnBrowser`).
- The codec uses the standard alphabet with `'='` padding.
  `Base64.EncodeAlphabet` shows the encoder emits only alphabet characters and
  `'='`, so no `'#'` can appear in the link's fragment.
- A row expires one hour after its insert (the `expires_at` default), and
  `get_secret` checks that time.
- The link is `FRONTEND_URL + "/s/" + id + "#" + key`, as `CreateSecret.tsx`
  writes it. `App.tsx` routes `/secret/:id`. The router is not part of this
  model.
- The backend decodes with `base64.b64decode(v, validate=True)`. The backend
  needs Python 3.13 or later, because `backend/app/database.py:19` gives
  `typing.AsyncGenerator` a single argument. Since Python 3.11 this call is
  strict: it accepts exactly the well-formed padded texts and refuses
  `"AAAA="`, `"AAA=="` and `"AA="` (`SecretSchemas.StrayPadsRefused`,
  `SecretRouter.StrayPadNotStored`). Like `atob`, it ignores the unused bits
  before the padding.
- `atob` is lenient: it skips ASCII whitespace and accepts missing padding.
- The table stores bytes and `get_secret` re-encodes them. The texts returned
  equal the texts submitted exactly when those were canonical
  (`SecretRouter.CreateThenGetTwice`, `SecretRouter.StoredAsBytes`).

## Model

| member | source | states |
|---|---|---|
| `Base64.Encode` | frontend/src/lib/crypto.ts:105-107 | the encoding has 4·⌈n/3⌉ characters |
| `Base64.Decode` | frontend/src/lib/crypto.ts:115-126 | a text that decodes has a length divisible by 4, and its byte count is 3 per group minus the pads |
| `Base64.DecodeEncode` | frontend/src/lib/crypto.ts:105-126 | decoding the encoding of any byte sequence gives back the same bytes |
| `Base64.DecodeAcceptsWellFormed` | frontend/src/lib/crypto.ts:115-126 | the strict decoder accepts a text if and only if it is well-formed padded base64 (length a multiple of 4, alphabet characters, then at most two pads) |
| `Base64.EncodeIsCanonical` | frontend/src/lib/crypto.ts:105-107 | every encoding is canonical: well formed, with the bits left unused by the pads equal to zero |
| `Base64.EncodeDecode` | backend/app/routers/secrets.py:93-98 | re-encoding what a canonical text decodes to gives back the text |
| `Base64.ReencodeExactlyCanonical` | backend/app/routers/secrets.py:93-98 | a decodable text comes back unchanged from decode-then-encode if and only if it is canonical |
| `Base64.KnownVector` | frontend/tests/lib/crypto.test.ts:34-41 | `[1,2,3,250,255]` encodes to `"AQID+v8="`, and that text decodes back to those bytes |
| `Base64.NonCanonicalAccepted` | frontend/src/lib/crypto.ts:117 | `"AB=="` decodes to `[0]` although `[0]` encodes to `"AA=="`: the decoder drops the unused bits |
| `Base64.EncodeAlphabet` | frontend/src/lib/crypto.ts:39-43 | the encoder emits only alphabet characters and `'='` |
| `LenientBase64.StripWhitespace` | frontend/src/lib/crypto.ts:117 | the result has no ASCII whitespace, is no longer than the input, and is the input when the input has none |
| `LenientBase64.StripWhitespaceChar` | frontend/src/lib/crypto.ts:117 | a single character is kept if and only if it is not ASCII whitespace |
| `LenientBase64.StripWhitespaceConcat` | frontend/src/lib/crypto.ts:117 | stripping a concatenation is stripping each part and concatenating, so whitespace is removed wherever it stands and every other character is kept in order |
| `LenientBase64.ForgivingDecode` | frontend/src/lib/crypto.ts:117 | when `atob` succeeds its byte count is ⌊3·(remaining characters)/4⌋ |
| `LenientBase64.ForgivingAgrees` | frontend/src/lib/crypto.ts:117 | on well-formed text `atob` gives the strict decoder's result |
| `LenientBase64.ForgivingDecodeAccepts` | frontend/src/lib/crypto.ts:116-125 | `atob` succeeds if and only if, once whitespace and the padding are dropped, what is left is alphabet characters whose count is not 1 more than a multiple of 4 |
| `LenientBase64.AtobTakesUnpadded` | frontend/src/lib/crypto.ts:117 | `"AAA"` decodes to `[0,0]` without its padding |
| `LenientBase64.AtobSkipsSpaces` | frontend/src/lib/crypto.ts:117 | `"AA AA"` decodes as `"AAAA"` |
| `LenientBase64.AtobRefusesLeftovers` | frontend/src/lib/crypto.ts:117 | `"AAAAA"` and `"AAAA="` are refused |
| `Crypto.EncryptSecret` | frontend/src/lib/crypto.ts:7-31 | the IV has 12 bytes and the key 32 bytes, and both are this call's draw |
| `Crypto.DecryptSecret` | frontend/src/lib/crypto.ts:78-97 | it succeeds exactly when AES-GCM opens the message, and every failure is the one error "Unable to decrypt the secret." |
| `Crypto.EncryptThenDecrypt` | frontend/tests/lib/crypto.test.ts:11-21 | decrypting what `encryptSecret` produced, with its IV and key, returns the plaintext |
| `Crypto.Latin1Injective` | frontend/src/lib/crypto.ts:41 | `String.fromCharCode(...bytes)` of two byte sequences gives the same string if and only if the sequences are equal, so the character codes recover the bytes |
| `Crypto.AtobOfEncoding` | frontend/src/lib/crypto.ts:41-42 | `atob` of the encoding of any bytes gives back the binary string `String.fromCharCode(...bytes)` that `btoa` was given |
| `Crypto.DecodeBytes` | frontend/src/lib/crypto.ts:115-126 | it succeeds if and only if `atob` accepts the text, and every failure is "Invalid data format."; on well-formed text it is the strict decode; on success the byte count is ⌊3·(data characters)/4⌋ and the bytes re-encode to the text exactly when the text is canonical |
| `Crypto.Base64ToUint8Array` | frontend/src/lib/crypto.ts:115-126 | the copying procedure returns `DecodeBytes`, and byte i is character i's code in `atob`'s binary string |
| `Crypto.CharCodes` | frontend/src/lib/crypto.ts:118-121 | the loop fills one byte per character, holding that character's code |
| `Crypto.AtobIsDecodeBytes` | frontend/src/lib/crypto.ts:116-125 | `atob` throws exactly when `base64ToUint8Array` fails, and the failure is "Invalid data format." |
| `Crypto.ExportKeyToBase64` | frontend/src/lib/crypto.ts:39-43 | the exported text is canonical base64 and decodes to the raw key bytes |
| `Crypto.ImportKey` | frontend/src/lib/crypto.ts:51-68 | every failure, bad base64 or a rejected key size, is "Invalid encryption key."; the import succeeds if and only if `atob` accepts the text and its byte count is one the browser accepts; the imported key's bytes are the decoded text, and, on a browser within the standard, of an AES key size |
| `Crypto.ImportKeyFromBase64` | frontend/src/lib/crypto.ts:51-68 | the procedure returns what `ImportKey` states |
| `Crypto.KeyRoundTrip` | frontend/src/lib/crypto.ts:39-68 | importing an exported key of a size the browser accepts gives the same key |
| `Crypto.UnpaddedKeyAccepted` | frontend/src/lib/crypto.ts:55 | a 32-byte key's text is 44 characters, and the text without its final `'='` still imports to the same key |
| `Crypto.ExportedKeyDecrypts` | frontend/tests/lib/crypto.test.ts:23-32 | the key of `encryptSecret`, exported and imported again, decrypts what it encrypted |
| `Crypto.ShortKeyRejected` | frontend/src/lib/crypto.ts:54-67 | on any browser the text of a 31-byte key is refused with "Invalid encryption key." |
| `Crypto.MiddleKeySizeDependsOnBrowser` | frontend/src/lib/crypto.ts:54-67 | the text of a 24-byte key imports if and only if the browser accepts 24-byte keys, and is otherwise refused with "Invalid encryption key." |
| `SecretSchemas.BoundConstants` | backend/app/routers/schemas/secrets.py:21-28 | the max_length bounds are ⌈MAX·4/3⌉ = 13,981,014 and ⌈12·4/3⌉ = 16 |
| `SecretSchemas.ValidateCiphertextBase64` | backend/app/routers/schemas/secrets.py:32-43 | it accepts if and only if the text is well-formed padded base64 of at most 10 MiB; it fails as bad base64 exactly when the text is not well formed, and well-formed text of more than 10 MiB fails as too large; on success it returns the input |
| `SecretSchemas.ValidateIvBase64` | backend/app/routers/schemas/secrets.py:45-56 | it accepts if and only if the text is well-formed padded base64 of exactly 12 bytes; it fails as bad base64 exactly when the text is not well formed, and well-formed text of another length fails as the wrong length; on success it returns the input |
| `SecretSchemas.StrayPadsRefused` | backend/app/routers/schemas/secrets.py:36-43 | `"AAAA="`, `"AAA=="` and `"AA="` fail the ciphertext validator as bad base64, and the first two fail the IV validator too |
| `SecretSchemas.OutsideAlphabetRejected` | backend/tests/test_secrets.py:81-93 | `"invalid-base64"` fails both validators as bad base64 |
| `SecretSchemas.EncodedIvOfWrongLengthRejected` | backend/tests/test_secrets.py:96-105 | the encoding of any byte string other than a 12-byte one fails as an IV of the wrong length |
| `SecretSchemas.IvFieldAcceptsExactly` | backend/app/routers/schemas/secrets.py:24-56 | with its 16-character bound, the IV field accepts exactly the well-formed texts of 12 bytes and returns them unchanged |
| `SecretSchemas.CiphertextFieldLimitAsWritten` | backend/app/routers/schemas/secrets.py:17-43 | as written, the field accepts exactly the well-formed texts of at most MAX − 1 bytes, unchanged |
| `SecretSchemas.MaxSizeCiphertextRejected` | backend/app/routers/schemas/secrets.py:21 | the encoding of a ciphertext of exactly 10 MiB passes the validator but is refused by max_length |
| `SecretSchemas.CiphertextFieldIntendedAcceptsExactly` | backend/app/routers/schemas/secrets.py:10 | with the bound 4·⌈MAX/3⌉, the field accepts exactly the well-formed texts of at most 10 MiB, unchanged |
| `SecretSchemas.ValidateRequest` | backend/app/routers/schemas/secrets.py:16-56 | as written, a body is accepted if and only if the ciphertext is well formed and stands for fewer than 10 MiB bytes and the IV is well formed and stands for exactly 12 bytes; it is then returned unchanged; otherwise one or two errors are reported, including a bad-base64 error for each field within its max_length that is not well formed |
| `SecretSchemas.ValidateRequestIntended` | backend/app/routers/schemas/secrets.py:10-56 | with the corrected ciphertext bound, a body is accepted if and only if the ciphertext is well formed and stands for at most 10 MiB and the IV is well formed and stands for exactly 12 bytes; it is then returned unchanged |
| `SecretSchemas.EncodedRequestAccepted` | backend/app/routers/schemas/secrets.py:16-56 | the encodings of a ciphertext and an IV make a valid body, as written, if and only if the ciphertext has fewer than 10 MiB bytes and the IV has 12; with the corrected bound, if and only if the ciphertext has at most 10 MiB |
| `SecretRouter.CreateStep` | backend/app/routers/secrets.py:29-58 | a create succeeds if and only if the body is valid, the commit does not fail and the id is new; then exactly one row is added under that id, holding the strictly decoded bytes of both fields with one view and a one-hour expiry, the other rows are unchanged, and the id is returned; a failure leaves the table unchanged |
| `SecretRouter.GetStep` | backend/app/routers/secrets.py:67-104 | the envelope is returned if and only if the row exists, has a view left and has not expired; absent, used-up and expired rows give the same not-found; a success takes exactly one view from that row only and returns the encodings of the stored bytes, which decode back to them; every failure leaves the table unchanged |
| `SecretRouter.SecretStore.constructor` | backend/app/models/secret.py:11-14 | the table starts empty and keeps every row at 0 or 1 views left |
| `SecretRouter.SecretStore.CreateSecret` | backend/app/routers/secrets.py:29-58 | the new table and the outcome are those of `CreateStep`, and the store invariant is preserved |
| `SecretRouter.SecretStore.GetSecret` | backend/app/routers/secrets.py:67-104 | the new table and the outcome are those of `GetStep`, and the store invariant is preserved |
| `SecretRouter.StepWithinBudget` | backend/app/routers/secrets.py:79-89 | one request never raises an id's remaining views, a retrieval lowers them by one, and no count goes negative |
| `SecretRouter.RetrievalsWithinBudget` | backend/app/routers/secrets.py:79-89 | over any sequence of requests, the successful retrievals of an id plus its views left at the end never exceed its views at the start |
| `SecretRouter.AtMostOneRetrieval` | backend/app/routers/secrets.py:79-89 | from a table where every row has 0 or 1 views, any sequence of requests retrieves each id at most once |
| `SecretRouter.ConsumedStaysConsumed` | backend/app/routers/secrets.py:79-89 | a row with no views left is never retrieved again and stays at zero |
| `SecretRouter.RowsPersist` | backend/app/routers/secrets.py:43-89 | no request removes a row |
| `SecretRouter.CreateThenGetTwice` | backend/tests/test_secrets.py:27-56 | a new row is retrieved once within the hour, with texts that decode to what the submitted texts decoded to (the submitted texts themselves when canonical), and a second GET is not found |
| `SecretRouter.StoredAsBytes` | backend/app/routers/secrets.py:34-98 | a ciphertext sent as the non-canonical `"AB=="` is accepted, stored as bytes and comes back as `"AA=="` |
| `SecretRouter.StrayPadNotStored` | backend/app/routers/secrets.py:29-58 | a body whose ciphertext is `"AAAA="` is answered with a bad-base64 validation error and leaves the table unchanged, whatever the IV, id, time or database |
| `ApiClient.CreateSecret` | frontend/src/api/client.ts:17-33 | it gives the id exactly on a 2xx reply, and otherwise "Failed to create secret: " with the status text; a network failure gives its own message |
| `ApiClient.GetSecret` | frontend/src/api/client.ts:35-47 | it gives the body exactly on a 2xx reply; a 404 gives "Secret not found or no longer available", and any other failing status gives "Failed to retrieve secret: " with the status text; a network failure gives its own message |
| `ViewSecret.Fetched` | frontend/src/pages/ViewSecret.tsx:50-53 | an API-client error is passed through with its message; when the reply is received but a field does not decode, the error is "Invalid data format."; when both decode, the result is their decryption under the key, so a cipher failure is "Unable to decrypt the secret." |
| `ViewSecret.DecryptFailureShown` | frontend/tests/pages/ViewSecret.test.tsx:103-121 | with a key that imports, a reply of encoded fields that the cipher does not open makes the page show "Unable to decrypt the secret." |
| `ViewSecret.Load` | frontend/src/pages/ViewSecret.tsx:40-54 | an empty fragment fails with "Encryption key not found in URL" and makes no call; otherwise the key import comes first; the one fetch happens if and only if the import succeeded, and a failed import gives "Invalid encryption key." |
| `ViewSecret.LoadFetchesOnce` | frontend/src/pages/ViewSecret.tsx:46-50 | one load fetches exactly once when the key imports, and never otherwise |
| `ViewSecret.ViewSecretPage.constructor` | frontend/src/pages/ViewSecret.tsx:14-18 | the page starts with no secret, loading, no error and nothing loaded |
| `ViewSecret.ViewSecretPage.FetchAndDecrypt` | frontend/src/pages/ViewSecret.tsx:40-54 | the procedure's result and the calls it logs are those of `Load` |
| `ViewSecret.ViewSecretPage.RunEffect` | frontend/src/pages/ViewSecret.tsx:20-65 | a repeated run for the loaded id changes nothing; a missing id ends with "Invalid secret ID", loading false and no call; otherwise the id is marked loaded, loading ends false, and the secret or the error message is set from `Load` |
| `ViewSecret.EffectRunTwice` | frontend/src/pages/ViewSecret.tsx:21-38 | running the effect twice for the same id and fragment fetches at most once, and exactly once when the id is present and the key imports |
| `CreateSecret.TrimStart` | frontend/src/pages/CreateSecret.tsx:121 | it drops exactly the leading whitespace |
| `CreateSecret.TrimEnd` | frontend/src/pages/CreateSecret.tsx:121 | it drops exactly the trailing whitespace |
| `CreateSecret.TrimEmptyIffBlank` | frontend/src/pages/CreateSecret.tsx:121 | the trimmed text is empty if and only if every character is whitespace |
| `CreateSecret.RequestBody` | frontend/src/pages/CreateSecret.tsx:26-34 | the body holds only the canonical base64 of the ciphertext and of this draw's IV; it has no field for the key |
| `CreateSecret.FreshDrawPerSubmission` | frontend/src/pages/CreateSecret.tsx:26 | submissions with different draws send different IV texts and put different key texts in their links |
| `CreateSecret.Submission` | frontend/src/pages/CreateSecret.tsx:25-39 | it succeeds exactly when the API client does, and on failure gives its message; the link is `FRONTEND_URL/s/<id>#<text>`, where the text is canonical base64 of this draw's key |
| `CreateSecret.CreateSecretPage.constructor` | frontend/src/pages/CreateSecret.tsx:14-17 | the page starts with empty text, not loading, no error and no link |
| `CreateSecret.CreateSecretPage.SubmitEnabled` | frontend/src/pages/CreateSecret.tsx:121 | submit is enabled if and only if the page is not loading and the text has a non-whitespace character |
| `CreateSecret.CreateSecretPage.Edit` | frontend/src/pages/CreateSecret.tsx:94 | the textarea's change sets the text |
| `CreateSecret.CreateSecretPage.HandleSubmit` | frontend/src/pages/CreateSecret.tsx:20-43 | one body is sent, holding only the ciphertext and IV, while loading is true and the error is cleared; on success the link is set and the text cleared; on failure the error is set and the link and text are unchanged; loading ends false |
| `Protocol.HashOfLink` | frontend/src/pages/ViewSecret.tsx:13 | the hash of a URL whose only `'#'` starts a non-empty fragment is `'#'` followed by that fragment |
| `Protocol.LinkCarriesKey` | frontend/src/pages/CreateSecret.tsx:36 | the viewer reads from the creator's link exactly the key text that was exported |
| `Protocol.LinkHashIsKey` | frontend/src/pages/CreateSecret.tsx:36 | a created secret's link is made, and the key text in its hash is the exported key of this draw |
| `Protocol.EnvelopeDecrypts` | frontend/src/pages/ViewSecret.tsx:50-53 | the key imported from the exported text decodes and decrypts the envelope of the encoded ciphertext and IV to the plaintext |
| `Protocol.ViewerDecrypts` | frontend/src/pages/ViewSecret.tsx:40-54 | the view page, given the link's id and hash, shows the plaintext when the GET returns the encoded ciphertext and IV, and "Secret not found or no longer available" on a 404 |
| `Protocol.OneTimeExchange` | backend/tests/test_secrets.py:44-56 | end to end, for a ciphertext under the limit the validation enforces as written (fewer than 10 MiB bytes): the create succeeds, the first read within the hour makes the view page, given the link's id and hash, show the creator's plaintext, and a second read is not found, which that page shows as "Secret not found or no longer available" |

## Findings

| source | as written | input that shows it | evidently intended | confidence | as-written member | corrected member |
|---|---|---|---|---|---|---|
| backend/app/routers/schemas/secrets.py:21 | the ciphertext text is capped at `ceil(MAX_CIPHERTEXT_LEN * 4 / 3)` = 13,981,014 characters | any ciphertext of exactly 10,485,760 bytes: its padded base64 has 13,981,016 characters and the 422 comes from max_length, although the validator at line 37 allows that size | a cap of 4·⌈MAX/3⌉ = 13,981,016, the length of the padded encoding of MAX bytes | high (not executed) | `SecretSchemas.MaxSizeCiphertextRejected` | `SecretSchemas.CiphertextFieldIntendedAcceptsExactly` |

`SecretSchemas.ValidateCiphertextField` is the field as written.
`SecretSchemas.ValidateCiphertextFieldIntended` uses the corrected bound.
`SecretSchemas.ValidateRequest` uses the field as written, and so do the
router model and the end-to-end lemma: they accept ciphertexts of fewer than
10 MiB bytes. `SecretSchemas.ValidateRequestIntended` is the body with the
corrected field.

## Left out

- AES-GCM, key generation, `getRandomValues` and TextEncoder/TextDecoder are foreign Web Crypto and browser calls. They are parameters whose laws are hypotheses (`Crypto.Correct`, `Crypto.Inverse`). Tag checking, tamper detection and wrong-key failure are not modelled beyond the cipher's `open` returning nothing.
- The `String.fromCharCode(...bytes)` argument-count limit is left out. The encoder is modelled for every length.
- The row lock (`with_for_update`), the async session and concurrent requests are left out. Each request is one atomic step on the table.
- The `nanoid` id is an input. A create with an id already in the table fails like a failed commit, which is how the primary key would refuse it.
- The clock is an integer count of seconds shared by the database and the router. Time zones and sub-second times are left out.
- FastAPI and SQLAlchemy plumbing, the `Cache-Control` headers and the status codes beyond created/ok, not found, validation error and server error are left out. So are `database.py`, `main.py`, `config.py`, `health.py` and the migrations.
- `frontend/src/api/client.ts` is modelled only by its outcomes. A reply is an input: a network failure with its message, or a status, its status text and its parsed body. Malformed JSON is left out.
- Any exception is treated as an `Error` object. The fallbacks "Failed to decrypt secret" and "An error occurred" for non-`Error` throws are left out.
- `Crypto.EncryptSecret`: does not model a failure of `encrypt`, `generateKey` or `exportKey`. On valid inputs the platform does not fail.
- `CreateSecret.CreateSecretPage.HandleSubmit`: does not model a failure of encryption or key export, for the same reason. Its error path covers failures of the API client only.
- `loadSecret` runs asynchronously after the effect returns. The model runs it to completion inside `RunEffect`, so interleavings with other renders are left out.
- JSX rendering, routing (including the `/secret/:id` route that `App.tsx` declares), the clipboard, the copy timers and the end-to-end scripts are left out.
- A ciphertext or IV text with a non-ASCII character makes `b64decode` raise `ValueError`, not `binascii.Error`, so the validator's `except` does not wrap it. The reply is still 422, but with the bare message instead of "Invalid base64 format: …". The model gives it the bad-base64 error, and messages are not modelled.
- Garbage collection of expired rows does not exist in the code and is not modelled.

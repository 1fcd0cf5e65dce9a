# Waitlist signup endpoint — a verified Dafny model

The repository is one Cloudflare Pages function, `functions/api/waitlist.js`.
It answers the CORS preflight (`onRequestOptions`) and a `POST` carrying a JSON
body `{ "email": ... }` (`onRequestPost`). The POST handler works through a
fixed chain of gates in order:

1. the body must parse as JSON;
2. the trimmed, lower-cased address must match `^[^@\s]+@[^@\s]+\.[^@\s]+$`;
3. the `WAITLIST_DB` binding must be present.

Then it hashes the address (SHA-256, lower-case hex), creates the `waitlist`
table if it is missing, and inserts one row. A storage error whose text
contains `unique` (case-insensitively) becomes 409. Any other storage error
becomes 500.

The model has one module per concern:

- `Wrappers`: an `Option` type.
- `JsStrings`: the ECMAScript whitespace class shared by `\s` and `trim()`, with `trim`, `toLowerCase` on ASCII letters, `includes`, and occurrence counting.
- `Email`: the pattern as a predicate over characters, its plain-words characterisation, and normalisation.
- `Hex`: `toString(16)`, `padStart`, the byte-to-hex encoder, and its decoder, used to prove the round trip.
- `Http`: the `json()` helper and the preflight response.
- `WaitlistTable`: the `waitlist` table as a class `Database`. It holds the rows, the AUTOINCREMENT counter and whether the table exists. It keeps the invariant that `email_hash` is unique.
- `SignupHandler`: the gates as a function and `onRequestPost` as a method that changes the `Database`.

Some inputs come from outside the handler and are parameters here:

- SHA-256, together with the UTF-8 encoding of the address, is `sha256: string -> Digest`, where `Digest` is 32 bytes.
- The result of `request.json()` is a `Payload`.
- The timestamp and the `CF-Connecting-IP` header are plain arguments.
- Storage failures other than the uniqueness constraint come in as an error text.

## Model

| member | source | states |
|---|---|---|
| `JsStrings.IsJsSpace` | functions/api/waitlist.js:11 | The characters `\s` matches, which are also those `trim()` strips, are the ECMAScript WhiteSpace and LineTerminator code points. None of them is `@`, `.` or an ASCII letter. |
| `JsStrings.Trim` | functions/api/waitlist.js:39 | `trim()` returns the slice of its input that starts after the leading whitespace. Only whitespace follows the slice, and neither end of the result is whitespace. |
| `JsStrings.TrimUnique` | functions/api/waitlist.js:39 | Only one slice of a string has those properties, so any such slice is the result of `trim()`. |
| `JsStrings.TrimSurrounding` | functions/api/waitlist.js:39 | Trimming gives the same string whatever whitespace surrounds the input. |
| `JsStrings.TrimIdempotent` | functions/api/waitlist.js:39 | Trimming twice is the same as trimming once. |
| `JsStrings.TrimLowerCommute` | functions/api/waitlist.js:39 | Trimming and lower-casing commute, because lower-casing neither creates nor removes whitespace. |
| `JsStrings.ToLower` | functions/api/waitlist.js:39 | `toLowerCase` keeps the length. It moves each ASCII upper-case letter up by 32 code points, to its lower-case form, and leaves every other character as it is. |
| `JsStrings.ToLowerProperties` | functions/api/waitlist.js:39 | Lower-casing keeps the length. It keeps whether each character is whitespace, `@` or `.`. It leaves no upper-case ASCII letter and is idempotent. |
| `Email.MatchesEmailPattern` | functions/api/waitlist.js:11 | A string the pattern accepts has at least five characters, contains an `@` and has no whitespace. |
| `Email.PatternIsWellFormedAddress` | functions/api/waitlist.js:11 | The pattern accepts a string exactly when it has one `@`, no whitespace, a non-empty part before the `@`, and a `.` in the part after the `@` with at least one character on each side. |
| `Email.EmptyIsRejected` | functions/api/waitlist.js:39-41 | The empty string, which a missing or non-string `email` becomes, fails the pattern. |
| `Email.Normalize` | functions/api/waitlist.js:39 | The normalised address is no longer than the input. It has no surrounding whitespace and no upper-case ASCII letter. |
| `Email.NormalizeIdempotent` | functions/api/waitlist.js:39 | Normalising a normalised address changes nothing. |
| `Email.NormalizeIgnoresCaseAndSurroundingSpace` | functions/api/waitlist.js:39 | Inputs that differ only in ASCII case and in surrounding whitespace normalise to the same string. |
| `Email.PatternIgnoresCase` | functions/api/waitlist.js:39-40 | Lower-casing does not change whether the pattern matches. |
| `Hex.DigitValue` | functions/api/waitlist.js:27 | A character has a digit value exactly when it is a lower-case hex digit, and `HexDigit` of that value gives the character back. |
| `Hex.ToHexString` | functions/api/waitlist.js:27 | `n.toString(16)` is a non-empty string of lower-case hex digits, with one digit exactly when `n < 16`. |
| `Hex.PadStart` | functions/api/waitlist.js:27 | `padStart` keeps the input as the suffix, fills the front with the fill character, and reaches the requested width. |
| `Hex.ByteToHex` | functions/api/waitlist.js:27 | `b.toString(16).padStart(2, "0")` is always exactly two digits: the high nibble, then the low nibble. |
| `Hex.HexEncode` | functions/api/waitlist.js:26-28 | Encoding n bytes yields 2n characters, all in `0-9a-f`. |
| `Hex.HexDecode` | functions/api/waitlist.js:26-28 | A successful decode returns half as many bytes as the string has characters. |
| `Hex.DecodeEncode` | functions/api/waitlist.js:26-28 | Decoding the encoding of any byte sequence gives back that sequence. |
| `Hex.EncodeDecode` | functions/api/waitlist.js:26-28 | Every string the decoder accepts is the encoding of the bytes it returns. |
| `Hex.EncodeInjective` | functions/api/waitlist.js:26-28 | Different byte sequences have different encodings. |
| `Hex.DigestHexShape` | functions/api/waitlist.js:25-28 | A 32-byte digest encodes to 64 lower-case hex digits. |
| `Http.JsonResponse` | functions/api/waitlist.js:13-20 | `json(status, body)` keeps the status and body. Its only headers are `Content-Type: application/json` and `Access-Control-Allow-Origin: *`. |
| `Http.OnRequestOptions` | functions/api/waitlist.js:1-9 | The preflight is 204 with a null body and no `Content-Type`. It allows any origin, the methods `POST, OPTIONS` and the header `Content-Type`. |
| `WaitlistTable.AppendKeepsInvariant` | functions/api/waitlist.js:54 | Appending a row whose hash is new, with the next id, keeps hashes unique and ids increasing. |
| `WaitlistTable.Database.constructor` | functions/api/waitlist.js:54 | A fresh database has no table and no rows, and its first id will be 1. |
| `WaitlistTable.Database.CreateTableIfNotExists` | functions/api/waitlist.js:52-56 | Table creation fails only on a storage fault. Afterwards the table exists, and the rows and id counter are untouched, however often it runs. |
| `WaitlistTable.Database.Insert` | functions/api/waitlist.js:58-63 | The insert succeeds exactly when there is no fault, the table exists and the hash is new. It then appends exactly one row with the next id. A duplicate hash gives the SQLite uniqueness error. Any failure leaves the table unchanged. |
| `SignupHandler.FieldEmail` | functions/api/waitlist.js:39 | A missing or non-string `email` becomes a string that fails the pattern. Any address read has no surrounding whitespace and no upper-case ASCII letter. |
| `SignupHandler.PayloadEmailAsWritten` | functions/api/waitlist.js:39 | As written, reading the address throws exactly for a `null` body. |
| `SignupHandler.PayloadEmail` | functions/api/waitlist.js:39 | Agrees with the as-written read wherever that does not throw. A `null` body reads as the empty string. |
| `SignupHandler.NonStringEmailRejected` | functions/api/waitlist.js:39-41 | A body whose `email` is missing or not a string never passes the address gate. |
| `SignupHandler.ScreenAsWritten` | functions/api/waitlist.js:33-45 | As written, the gate chain gives no response exactly for a `null` body. |
| `SignupHandler.NullBodyIsUncaught` | functions/api/waitlist.js:39 | For a `null` body the gate chain as written gives no response, whether or not the database is bound. |
| `SignupHandler.Screen` | functions/api/waitlist.js:33-45 | The gates apply in a fixed order. A JSON failure gives 400 "Invalid JSON payload." before anything else. A bad address gives 400 before the binding is consulted. A missing binding then gives 500. Only requests that pass all three go on, each carrying a well-formed normalised address. Every rejection is a JSON/CORS response with status 400 or 500. |
| `SignupHandler.EmailHash` | functions/api/waitlist.js:23-28 | The stored hash is 64 lower-case hex digits. |
| `SignupHandler.HashIdentifiesDigest` | functions/api/waitlist.js:47 | Two addresses get equal stored hashes exactly when their digests are equal. |
| `SignupHandler.SourceIp` | functions/api/waitlist.js:49 | The stored `source_ip` is the header value when it is present and non-empty, and `null` otherwise. |
| `JsStrings.Contains` | functions/api/waitlist.js:68 | `includes` can only find a part no longer than the string. It always finds the empty string and the string itself. |
| `SignupHandler.StorageFailure` | functions/api/waitlist.js:66-71 | A caught error gives 409 "Already registered." exactly when its lower-cased text contains `unique`, and 500 "Unable to save right now." otherwise. The error text is never echoed. |
| `SignupHandler.UniqueViolationIsDuplicate` | functions/api/waitlist.js:66-69 | The store's uniqueness error is classified as 409. |
| `SignupHandler.OnRequestPost` | functions/api/waitlist.js:31-73 | Every response has status 200, 400, 409 or 500, is JSON with CORS, and carries only `{ok: true}` or one of five fixed messages. A rejected request leaves the database unchanged. Otherwise the request succeeds exactly when there is no fault and the hash is new. On success it is 200 `{ok: true}`, and the table gains exactly the row (next id, normalised address, its hash, timestamp, source IP). A duplicate gives 409 and any failure leaves the rows unchanged. The id counter advances by one exactly on success. The table exists afterwards unless table creation failed, in which case its existence is unchanged. The table invariant is kept. |
| `SignupHandler.SubmitTwice` | functions/api/waitlist.js:58-69 | The same address sent twice, differing only in case or surrounding whitespace, gives 200 and then 409. The table then exists and has gained exactly one row: the next id, the normalised address, its hash, the first timestamp and the source IP. The id counter advances by one. |
| `SignupHandler.ExampleAddressesCoincide` | functions/api/waitlist.js:39-41 | ` User@Example.com ` and `user@example.com` both normalise to `user@example.com`, which passes the pattern. |

## Findings

| source | as written | input that shows it | evidently intended | confidence | as-written member | corrected member |
|---|---|---|---|---|---|---|
| functions/api/waitlist.js:39 | `payload.email` is read outside every `try`. For a body that parses to `null`, the read throws a TypeError that nothing catches, so the runtime answers with its own error instead of a JSON response with CORS headers. | request body `null` | Treat the body like one without a string `email`, which gives 400 "A valid email address is required." | not executed; high (reading a property of `null` always throws in JavaScript) | `SignupHandler.ScreenAsWritten` (with `SignupHandler.NullBodyIsUncaught`) | `SignupHandler.Screen` (used by `SignupHandler.OnRequestPost`) |

Every other path of `onRequestPost` ends in a `json(...)` response with CORS
headers, because the JSON parse and the storage calls sit inside `try`. A
`null` body is the one request that gets no such response.

## Left out

- SHA-256 (`crypto.subtle.digest`) and the UTF-8 encoding by `TextEncoder` are one opaque parameter, `sha256: string -> Digest`. Nothing is proved about the digest beyond its 32-byte length.
- `toLowerCase` is modelled for the ASCII letters only. Unicode case mapping is not modelled: other letters, and mappings that change the length such as `İ`, are left alone. The whitespace set of `trim()` and `\s` is modelled in full.
- `request.json()` and `JSON.stringify` are not modelled. The parse result is the `Payload` datatype, and response bodies are the three abstract `Body` shapes.
- The D1 binding is modelled as an in-memory `Database`, with no SQL text and no asynchronous execution. Error texts are foreign except the SQLite uniqueness message, whose exact wording is an assumption. Other storage failures are the inputs `createFault` and `insertFault`. An injected insert fault takes precedence over the uniqueness check.
- `String(error)` is the error text parameter itself.
- `new Date().toISOString()` is the `now` argument and is stored verbatim. The `CF-Connecting-IP` header is the `ipHeader` argument. Header names are compared exactly, not case-insensitively.
- The `Response` object, the promise scheduling and concurrent requests racing on one hash are not modelled. The store settles such races, not the handler.
- The default `body = {}` of `json()` is not modelled, because no call relies on it.

# Bike rental: a verified model of the catalogue service and the browser-side store

The application has two halves. `server.js` is a small REST service over two JSON files. One file
holds the bike catalogue: list, create, update and delete bikes. The other holds at most two
administrator accounts: list, register and log in. `app.js` is the browser client. It keeps an
in-memory cache of the catalogue, patched after every remote call. It also keeps users, rentals,
payment transactions and contact messages in the browser's local storage, together with the
signed-in user.

This project states that behaviour in Dafny and proves what it promises.

- `Catalog` (catalog.dfy) models the service's handlers.
  - Each handler is a pure step function over the collection, such as `CreateBike`, `UpdateBike`,
    `DeleteBike`, `RegisterAdmin` and `LoginAdmin`.
  - Each error response is an `ApiError`, carrying the exact status code and message.
  - The two collections are the classes `BikeStore` and `AdminStore`. Their methods change the
    stored sequence as the handlers change the file.
- `ClientSync` (clientsync.dfy) models the client's `bikesCache`.
  - The patching rules are functions.
  - The cache itself is the class `BikeCache`.
  - A remote call enters as the reply it produced. This lets the lemmas show that the cache stays
    equal to the server's collection.
- `ClientStore` (clientstore.dfy) models the local-storage lists and their rules: signup, login,
  `updateUserInList`, rentals, the mock mobile payment, messages and replies, and the admin's
  delete-user cascade. The lists live in the class `LocalStore`.
- Helper modules:
  - `Html`: `escapeHtml`, proved lossless against an entity decoder.
  - `Validators`: the email, phone and PIN regular expressions, written as string predicates.
  - `Text`: ECMAScript `trim`, `toLowerCase` and `\s`, and decimal rendering.
  - `Ids`: next id = max + 1, or 1.
  - `Base64`: section 4 of RFC 4648, with the forgiving decoder `atob` uses.
  - `Seqs`: `filter` and `findIndex`.
  - `Wrappers`: `Option` and `Result`.

Clock readings (`Date.now()`, ISO timestamps) and the random draw of a transaction id are
parameters.

## Model

| member | source | states |
|---|---|---|
| Ids.Max | server.js:91 | the maximum bounds every id in the list and is one of them |
| Ids.NextId | app.js:52 | an empty list gives 1; otherwise the id is larger than every id present and one more than one of them, so it is never a duplicate |
| Html.EscapeCharIsSafe | app.js:51 | none of the five entities contains a raw `<`, `>`, `"` or `'` |
| Html.EscapeHtml | app.js:51 | the escaped text contains no raw `<`, `>`, `"` or `'` and is never shorter than the input |
| Html.EscapeHtmlConcat | app.js:51 | escaping works character by character: it distributes over concatenation |
| Html.EscapeHtmlKeepsPlain | app.js:51 | text without any of the five special characters is left unchanged |
| Html.UnescapeStep | app.js:51 | each character's replacement reads back as that character, whatever follows it |
| Html.UnescapeEscapeHtml | app.js:51 | reading the entities back gives exactly the original text, so escaping loses nothing |
| Validators.ValidateEmailMatchesPattern | app.js:53 | the position check accepts exactly the language of `^[^\s@]+@[^\s@]+\.[^\s@]+$` (both directions) |
| Validators.ValidatePhoneForms | app.js:54 | a phone is accepted iff, once whitespace is removed, it is "0" or "+254" followed by a digit 1-9 and eight digits |
| Validators.ValidatePhoneIgnoresSpaces | app.js:54 | removing whitespace first does not change the verdict |
| Validators.ValidateEmail | app.js:53 | `validateEmail` as a check on positions: one '@', not first, no whitespace, a '.' after the '@' with a character on each side; its language is stated by `ValidateEmailMatchesPattern` |
| Validators.ValidatePhone | app.js:54 | `validatePhone`: after removing whitespace, "+254" or "0" followed by a national number; its forms are stated by `ValidatePhoneForms` |
| Validators.IsPinFormat | app.js:210 | `/^\d{4,6}$/`: four to six ASCII digits |
| Text.Trim | app.js:68 | the trimmed text neither starts nor ends with whitespace |
| Text.TrimIsSliceWithinSpaces | app.js:68 | `trim` returns a slice of its input, and everything it cuts off is whitespace at the two ends |
| Text.NormalizeIdempotent | app.js:74 | trimming and lower-casing an email a second time changes nothing |
| Text.StripSpacesIdempotent | app.js:218 | removing all whitespace twice is the same as removing it once |
| Text.NatToString | app.js:192 | a timestamp renders as a non-empty string of decimal digits with no leading zero (only 0 itself starts with "0"); that those digits spell the number is `DigitsValueOfNatToString` |
| Text.DigitsValueOfNatToString | app.js:192 | reading the rendered digits back in decimal, most significant first, gives the number itself: the rendering is decimal notation |
| Text.NatToStringInjective | app.js:192 | different numbers render as different strings |
| Text.NatToStringLength | app.js:216 | a number of k decimal digits renders as exactly k characters |
| Text.Normalize | app.js:68 | the email normalisation `trim()` then `toLowerCase()` |
| ClientStore.NormalizedEmail | app.js:68 | `(email \|\| '').toString().trim().toLowerCase()`, used by signup and by login (app.js:94): an absent email normalises to "", and the result is already normalised |
| Text.StripSpaces | app.js:218 | `replace(/\s/g, '')`: the input with every whitespace character removed, the rest in order |
| Base64.Encode | server.js:185 | an encoding of n bytes has 4 * ceil(n / 3) characters, so the padding always completes the last group of four |
| Base64.EncodeAlphabet | server.js:185 | every character of an encoding is from the alphabet or is '=' padding |
| Base64.DecodeEncode | server.js:214 | decoding a stored encoding gives back exactly the encoded bytes |
| Base64.AtobBtoa | app.js:100 | whatever `btoa` accepts, `atob` restores exactly |
| Base64.Decode | server.js:214 | the forgiving decode: whitespace and final padding dropped, failure on a length of 1 modulo 4 or a character outside the alphabet; it inverts `Encode` (`DecodeEncode`) |
| Base64.Btoa | app.js:80 | `btoa`: fails on a character above U+00FF, otherwise the encoding of the Latin-1 bytes |
| Base64.Atob | app.js:100 | `atob`: the decoded bytes as characters U+0000 to U+00FF, or failure |
| Seqs.Filter | server.js:138 | `Array.prototype.filter`: every element kept satisfies the predicate and comes from the input, and every satisfying element is kept (their order is stated by `FilterConcat`) |
| Seqs.FirstIndex | server.js:118 | `Array.prototype.findIndex`: the first index satisfying the predicate, or -1 when none does |
| Catalog.ApiError.Status | server.js:87-216 | the handlers' status codes: 404 exactly for an unknown bike (server.js:121), 401 exactly for bad credentials (server.js:211, 216), 400 for every other rejected request (server.js:87, 167, 174, 179, 204) |
| Catalog.ApiError.Message | server.js:87-216 | the `error` texts of the rejections (server.js:87, 121, 167, 174, 179, 211, 216); none is empty |
| Catalog.ApiErrorMessagesDiffer | server.js:87-216 | different rejections carry different `error` texts |
| Catalog.MissingRequired | server.js:86 | the create guard: the name or type is falsy, or the price is absent |
| Catalog.CreateBike | server.js:84-102 | rejected with "Missing required fields" iff the name or type is falsy or the price is absent (a price of 0 passes); otherwise the new bike gets id 1 in an empty catalogue and max + 1 otherwise, the given name, type and price, image "default.png" and description "" when falsy, and is available unless the request says `false` |
| Catalog.CreateOnEmptyCatalog | server.js:90-102 | a concrete create in an empty catalogue stores bike 1 with the defaults |
| Catalog.CreateKeepsIdsUnique | server.js:90-104 | appending the created bike keeps bike ids unique |
| Catalog.Merge | server.js:124 | the shallow merge: each field the body carries (name, type, price, image, description, available, createdAt) replaces the stored one, each field it omits keeps the stored value; the id is the path id even if the body names another, and the update time is stamped |
| Catalog.UpdateBike | server.js:116-127 | 404 "Bike not found" with no change iff no bike has the id; otherwise the first bike with the id is replaced by its merge with the body, the length is kept and no other bike changes |
| Catalog.UpdateKeepsIdsUnique | server.js:124 | an update keeps bike ids unique |
| Catalog.MergeOverlay | server.js:124 | merging two bodies in turn is merging their overlay (the later field wins) |
| Catalog.TwoUpdatesCompose | server.js:118-124 | two successive partial updates of one bike equal one update with both bodies overlaid |
| Catalog.TwoPartialUpdates | server.js:118-124 | updating bike 5 with `{available: false}` and then `{price: 75}` leaves it unavailable at price 75 with its other fields unchanged, and no other bike changes |
| Catalog.DeleteBike | server.js:136-141 | no bike with the id remains; every other bike stays; an absent id leaves the catalogue as it was |
| Catalog.DeleteKeepsOthersInOrder | server.js:138 | deleting distributes over concatenation, so the survivors keep their order, and each other bike keeps its multiplicity |
| Catalog.DeleteIdempotent | server.js:138 | deleting an id twice is deleting it once |
| Catalog.DeleteKeepsIdsUnique | server.js:138 | deleting keeps bike ids unique |
| Catalog.RegisterAdmin | server.js:164-187 | the checks in order: missing email or password, then two admins already registered, then an admin with the very same email (iff); success iff all three checks pass, and then the stored password is the base64 of its bytes |
| Catalog.RegisterKeepsInvariant | server.js:172-189 | a successful registration adds exactly one admin, never takes the count above two and keeps emails unique |
| Catalog.LoginAdmin | server.js:201-219 | missing fields give 400; any other failure is the one 401 "Invalid credentials"; a success is the id and email of an admin with exactly that email whose stored password decodes to the given one |
| Catalog.LoginSucceedsIff | server.js:208-217 | with unique emails, login succeeds iff an admin has exactly that email and its stored password decodes to the given one |
| Catalog.RegisterThenLogin | server.js:182-219 | a just-registered email and password (as UTF-8 bytes, so a valid UTF-16 password) always log in, returning the new admin's id and email |
| Catalog.AdminViews | server.js:154 | one entry per admin, in order, with that admin's id, email and creation time |
| Catalog.AdminViewsIgnorePasswords | server.js:153-154 | the admin listing does not depend on the stored passwords |
| Catalog.BikeStore.constructor | server.js:74 | the store holds the collection read from the file |
| Catalog.BikeStore.List | server.js:72-79 | `GET /api/bikes` returns the whole collection in stored order |
| Catalog.BikeStore.Create | server.js:82-111 | the reply is `CreateBike`'s; on success exactly that bike is appended at the end, on rejection nothing changes; unique ids stay unique |
| Catalog.BikeStore.Update | server.js:114-131 | reply and new collection are `UpdateBike`'s; the length is kept; unique ids stay unique |
| Catalog.BikeStore.Delete | server.js:134-145 | the new collection is `DeleteBike`'s; unique ids stay unique |
| Catalog.AdminStore.constructor | server.js:152 | the store holds the admins read from the file, at most two with unique emails |
| Catalog.AdminStore.List | server.js:150-159 | the listing, entry by entry, carries each admin's id and email |
| Catalog.AdminStore.Register | server.js:162-196 | on an error nothing changes; on success exactly the new admin is appended and the reply is its id and email; it succeeds iff both fields are present, fewer than two admins exist and none has the email; at most two admins with unique emails is preserved |
| Catalog.AdminStore.Login | server.js:199-223 | the reply is `LoginAdmin`'s, and it is a success iff an admin has that email and a stored password decoding to the given one |
| ClientSync.AsReply | app.js:29-34 | a success reaches the client unchanged; an error reaches it as the server's message text |
| ClientSync.AfterFetch | app.js:141-149 | a successful fetch replaces the cache; a failed one keeps the previous cache |
| ClientSync.ClientError.Message | app.js:156-157 | the two pre-check texts "Bike name and type required" and "Invalid price"; a remote failure passes the server's `error` text through unchanged, as `apiCall` throws it (app.js:31) |
| ClientSync.AddPrecheck | app.js:156-157 | "Bike name and type required" iff the name or type is falsy; "Invalid price" iff both are present and the price is negative; nothing otherwise |
| ClientSync.AfterAdd | app.js:155-166 | a failed pre-check or remote error leaves the cache; a success appends exactly the created bike |
| ClientSync.AfterUpdate | app.js:168-178 | a failed PUT leaves the cache; a success replaces only the first cached bike with that id, and an uncached id changes nothing |
| ClientSync.AfterRemove | app.js:180-186 | a successful DELETE drops every cached bike with the id and keeps the rest as the server's delete does |
| ClientSync.AddKeepsCacheInSync | app.js:159-164 | a cache equal to the server's collection stays equal to it across an add |
| ClientSync.UpdateKeepsCacheInSync | app.js:169-175 | a cache equal to the server's collection stays equal to it across an update, found or not |
| ClientSync.RemoveKeepsCacheInSync | app.js:181-185 | a cache equal to the server's collection stays equal to it across a delete |
| ClientSync.FetchShowsServer | app.js:143-147 | a successful fetch shows the server's collection; a failed one keeps the previous view |
| ClientSync.BikeCache.constructor | app.js:139 | the cache starts empty |
| ClientSync.BikeCache.GetBikes | app.js:141-149 | the new cache and the returned list are `AfterFetch`'s |
| ClientSync.BikeCache.AddBike | app.js:155-166 | outcome and new cache are `AfterAdd`'s |
| ClientSync.BikeCache.UpdateBike | app.js:168-178 | outcome and new cache are `AfterUpdate`'s |
| ClientSync.BikeCache.RemoveBike | app.js:180-186 | outcome and new cache are `AfterRemove`'s |
| ClientStore.SignupError.Message | app.js:69-74 | the texts signup throws for each failed check; none is empty |
| ClientStore.SignupErrorMessagesDiffer | app.js:69-74 | each failed signup check has its own text |
| ClientStore.LoginError.Message | app.js:96-101 | the one text "Invalid email or password", thrown for an unknown email (app.js:96) and a wrong password (app.js:101) alike |
| ClientStore.SignupUser | app.js:66-85 | the checks in order: name of 3 or more characters, email format of the normalised email, password of 6 or more characters, phone format only when a phone is given, then the duplicate check (iff some stored email normalises the same); when all pass and `btoa` rejects the password, the `btoa` error; success iff all pass and `btoa` accepts it; the stored record has the normalised email and the encoded password |
| ClientStore.StoredPassword | app.js:98-100 | the password login compares against: the stored value decoded by `atob`, or the stored value itself when it does not decode |
| ClientStore.PlainPasswordLogsIn | app.js:94-101 | a user whose stored password is not base64 logs in with that stored text, under any spelling of the email that normalises the same |
| ClientStore.SignupSession | app.js:88 | the signed-in record after signup: the user without password and without rental count |
| ClientStore.LoginSession | app.js:103 | the signed-in record after login: the user without password, with its rental count |
| ClientStore.SignupKeepsEmailsUnique | app.js:74-86 | appending the new user keeps normalised emails unique |
| ClientStore.LoginUser | app.js:92-101 | no matching email means failure; a success is the first user whose email normalises the same, with a matching stored password; every failure is the one "Invalid email or password" |
| ClientStore.LoginSucceedsIff | app.js:94-101 | with unique emails, login succeeds iff some user's email normalises like the given one and that user's stored password matches |
| ClientStore.SignupThenLogin | app.js:68-101 | a just-signed-up user logs in with the same password and any spelling of the email that normalises like the one given at signup (another case, other surrounding spaces) |
| ClientStore.WithUserUpdated | app.js:60-64 | the first user with exactly the record's email is replaced by it and nothing else changes; no such user means no change |
| ClientStore.UpdateUserKeepsEmailsUnique | app.js:62-63 | replacing a user keeps normalised emails unique |
| ClientStore.UpdateUserIdempotent | app.js:62-63 | saving the same record twice is saving it once |
| ClientStore.RentalId | app.js:192 | a rental id is "RNT" followed by decimal digits that read back as the clock reading, with no leading zero, so the digits are exactly `String(Date.now())` |
| ClientStore.RentalIdsDiffer | app.js:192 | rentals saved at different milliseconds get different ids (a consequence of `RentalId`'s contract) |
| ClientStore.NewRental | app.js:190-193 | the saved rental keeps the draft's email and fields and gets its id and creation time |
| ClientStore.TransactionId | app.js:216 | a transaction id is "TXN" followed by six decimal digits that read back as 100000 + the draw |
| ClientStore.PaymentError.Message | app.js:209-213 | the texts the mock payment throws for missing details, a malformed PIN and the declined "0000"; none is empty |
| ClientStore.PaymentErrorMessagesDiffer | app.js:209-213 | the three payment rejections read differently |
| ClientStore.PaymentOutcome | app.js:207-224 | missing provider, mobile or PIN is rejected first, then a PIN that is not 4 to 6 digits; "0000" passes the format and is declined; success iff none of these, with status "success", the mobile number free of whitespace, and the two clock readings as `timestamp` and `createdAt` |
| ClientStore.NewMessage | app.js:232-238 | a saved message has the clock as id, the given details, status "pending", the save time as `createdAt`, no response and no reply time |
| ClientStore.SaveMessage | app.js:237 | the new message goes in front, followed by all older messages |
| ClientStore.MessageStatus.Name | app.js:235 | the stored status text: "pending" exactly for a new message (app.js:235), "replied" exactly for an answered one (app.js:248) |
| ClientStore.WithReply | app.js:243-253 | the reply reports true iff some message has the id; if none does, nothing changes; otherwise only the first message with the id gets the response, status replied and reply time |
| ClientStore.SecondReplyOverwrites | app.js:245-249 | the prior status is not checked: a second reply overwrites the first |
| ClientStore.SaveThenReply | app.js:232-249 | replying by the id of the message just saved answers that message, even if an older one has the same id |
| ClientStore.WithoutUser | app.js:375-380 | no user with the email and no rental with that userEmail remains; every other user and rental is kept |
| ClientStore.DeleteUserKeepsOthers | app.js:376-379 | the cascade distributes over concatenation, so survivors keep their order, and counts of others are kept |
| ClientStore.DeleteUserKeepsEmailsUnique | app.js:376 | deleting a user keeps normalised emails unique |
| ClientStore.LocalStore.constructor | app.js:42-47 | a fresh browser has every list empty and nobody signed in |
| ClientStore.LocalStore.UpdateUserInList | app.js:60-64 | the users list becomes `WithUserUpdated`'s; unique emails are kept |
| ClientStore.LocalStore.Signup | app.js:66-90 | outcome is `SignupUser`'s; on success exactly the new user is appended and becomes the signed-in user, otherwise nothing changes; unique emails are kept |
| ClientStore.LocalStore.Login | app.js:92-105 | outcome is `LoginUser`'s on the stored users; on success the user, with rental count, becomes the signed-in user |
| ClientStore.LocalStore.SaveRental | app.js:190-198 | exactly one rental, the one returned, is appended |
| ClientStore.LocalStore.ProcessMobilePayment | app.js:200-228 | outcome is `PaymentOutcome`'s; exactly one transaction is appended on success and none otherwise |
| ClientStore.LocalStore.SaveMessage | app.js:232-241 | the returned message is put in front of the stored ones |
| ClientStore.LocalStore.ReplyToMessage | app.js:243-253 | result and new list are `WithReply`'s |
| ClientStore.LocalStore.DeleteUser | app.js:375-380 | users and rentals become `WithoutUser`'s; unique emails are kept |

## Left out

- HTTP and Express wiring are not modelled: CORS, request logging, the health check, the 404 and
  global error handlers, and `app.listen`. They are framework plumbing. Each handler's outcome is a
  `Result` with an `ApiError` instead.
- The 500 responses are not modelled. Request fields are taken to be strings, with numbers for
  prices and booleans for `available`. So a password sent as a JSON number or object, which makes
  `Buffer.from` throw and the register handler answer 500 "Failed to register admin", is not
  modelled. Neither is a failing file write. An unreadable or missing data file reads as an empty
  collection (server.js:44-50, 58-64), so it never gives a 500. The model covers that case as a
  store that starts empty.
- Reading and writing `bikes.json` and `admins.json` is not modelled, and neither is seeding them.
  The stored sequence is the state. The lost update between two concurrent read-modify-write
  requests is a concurrency issue and is not modelled.
- `fetch`, local storage's JSON encoding, the cross-tab `storage` events and the
  `rentals_update_ts`/`messages_update_ts` markers are not modelled; they are I/O. A remote call
  enters as its reply, and local storage is the fields of `LocalStore`.
- `apiCall`'s fallback text "API Error: <status>" is not modelled, because every server error
  response carries an `error` text.
- All DOM, rendering and form code is view glue and is not modelled. This includes the admin
  tables, the rent page, the auth forms, profile editing, the photo upload and the notification bar.
- The signup-then-admin shortcut in the auth form handler is not modelled. It does not wait for the
  registration it starts and reads a storage key nothing writes.
- `setBikes` is unused and is not modelled.
- validate.js is not part of this model. It is a setup script that checks that files exist and
  contain given texts.
- The 1.2 s `setTimeout` of the mock payment is not modelled.
- Clocks and randomness are parameters:
  - `Date.now()` and the ISO timestamps are parameters;
  - so is `Math.floor(Math.random() * 900000)`, as `draw`.
  - As a result, nothing guarantees that two records saved in the same millisecond get different
    ids.
- Catalog.CreateBike: prices are integers. The `Number(price)` coercion of strings and floating
  point are not modelled. A request's price is an already-numeric optional value.
- Request and patch bodies hold only the bike fields, and `null` values are not modelled. The
  spread at server.js:124 copies a `PUT` body field that is not a bike field into the stored
  record; the model's patch has no place for such a field.
- The id of `PUT /api/bikes/:id` is an integer. `Number` of a non-numeric path is `NaN` and matches
  no bike, which is the not-found case the model already has.
- Text.ToLower: only ASCII letters are lower-cased. Full Unicode case mapping is not modelled.
- String lengths count code points, not UTF-16 units. The two differ only for characters outside
  the Basic Multilingual Plane, in the name and password length checks.
- Catalog.RegisterAdmin: the server's passwords are byte strings. The UTF-8 conversion of the
  JavaScript string is not modelled. One consequence is lost: `Buffer.from` stores a password
  holding an unpaired surrogate (such as "\ud800") as the bytes of U+FFFD, so login decodes
  a different string and answers 401. Such an admin cannot log in after registering, and
  Catalog.RegisterThenLogin speaks only of passwords that are valid UTF-16.
- Catalog.LoginAdmin: `Buffer`'s base64 decoding is modelled by the forgiving decoder. The two
  differ only on malformed stored values, which registration never writes.
- Rental and message fields other than the ones the rules touch are not modelled individually.
  They are an opaque map carried unchanged.
- ClientSync.BikeCache.GetBikes, AddBike and UpdateBike: the cache is a value. `getBikes`
  returns the cache array itself, and the admin page's toggle and edit handlers change a cached
  record through that array before calling `updateBike` (app.js:397-402, 411-422). So in the
  source a failed PUT still leaves the edit in the cache. The model does not capture this aliasing
  or in-place change of cached records.
- ClientStore.SignupError: `PasswordNotEncodable` carries the exception's name
  "InvalidCharacterError". The text the page shows is the browser's own message for that
  exception, which differs from browser to browser and is not modelled.
- The callers of `updateUserInList` are not modelled: profile editing and the photo upload. They
  pass the signed-in user record, which has no password. The model takes whatever record is given.
- ClientStore.PaymentError: the declined-payment message begins with U+274C (a red cross), the
  character the authors evidently meant. The file holds the UTF-8 bytes of U+201A U+00F9 U+00E5
  ("‚ùå") there instead, a red cross mis-decoded once, so the program as written emits those three
  characters. The model deliberately uses the intended U+274C.
- The server does not check the sign of a bike's price, and neither does the model. Only the
  client's pre-check rejects a negative price.

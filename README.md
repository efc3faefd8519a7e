# Device registry: request validation, store and broadcast

This project models the core of a small device registry: the HTTP routes in
`backend/routes/devices.js` that create a device, list devices and toggle a
device's status, and the `Device` table declared in `backend/models/Device.js`.

- **Validation** (`validation.dfy`, module `DeviceValidation`): `sanitizeInput`
  (trim, then delete `< > " ' &`; non-strings become `""`), the MAC address
  regular expression `^([0-9A-Fa-f]{2}[:-]){5}([0-9A-Fa-f]{2})$` written group by
  group and proved equal to a position-by-position description, upper-casing of
  the accepted address, the raw-length check on the name (1 to 100, before
  sanitising, counted as the validation library counts), the `^\d+$` check on the path id, and the whole validation
  chain of the create request with its error list.
- **JavaScript string primitives** (`js_string.dfy`, module `JsString`):
  `String.prototype.trim` with ECMAScript's whitespace and line-terminator set,
  and `toUpperCase` on ASCII text.
- **The table** (`device_model.dfy`, module `DeviceModel`): the `Device` record
  (`id`, `name`, `mac`, `status` in {`ATIVO`, `INATIVO`}, `created_at`, nullable
  `description`), the column constraints as a predicate (positive ids below the
  auto-increment counter and ascending, so never shared or reused; unique mac;
  name within 100 characters as the create route counts them), and the class `DeviceStore` holding the rows, the
  next id and a log of effects. The log records each write of a record
  (`Persisted`) and each socket broadcast (`Emitted`). Its invariant says that
  every broadcast directly follows the write of the record it carries.
- **The routes** (`device_routes.dfy`, module `DeviceRoutes`): `Post` and
  `Patch` are spec functions from a store snapshot to the response and the next
  snapshot. The handler methods `CreateDevice`, `ListDevices` and `ToggleStatus`
  run the source's steps in the source's order against `DeviceStore` and are
  proved to agree with them. The lemmas state what each route promises. The
  generated description is an input: `Some(text)` when the generator answered,
  `None` when it failed in any way.

Where the system's written design and the code disagree, the model follows
the code:
- The design asks for uniform separators, but the regular expression accepts
  `:` or `-` independently at each position, so `aa:BB-cc:DD-ee:FF` is accepted
  (`MixedSeparatorsAccepted`).
- The design says stored addresses are separator-normalised, but only case is
  normalised. `AA:BB:CC:DD:EE:FF` and `AA-BB-CC-DD-EE-FF` are different
  addresses and both can be created (`SeparatorsDistinguishAddresses`).
- The design's fallback description and status names are in English. The code
  uses `Dispositivo <name> com MAC <mac>` and `ATIVO`/`INATIVO`.
- The design says a stored name has 1 to 100 characters. The length is checked
  before sanitising, so a name such as `<>` is stored as the empty string
  (`MarkupOnlyNameStoredEmpty`).
- The generator's text is trimmed before it is stored
  (`backend/routes/devices.js:52`).

`sanitizeInput` is not idempotent: `"< a"` becomes `" a"`, which a second pass
turns into `"a"` (`SanitizeNotIdempotent`).

## Model

| member | source | states |
|---|---|---|
| JsString.Trim | backend/routes/devices.js:16 | `trim` returns the infix left after removing whitespace at both ends: what was removed is whitespace, the result starts and ends with non-whitespace, every non-whitespace character of the input is in it, and it is empty exactly when the input is all whitespace |
| JsString.TrimKeepsTrimmed | backend/routes/devices.js:16 | `trim` leaves text that neither starts nor ends with whitespace unchanged |
| JsString.AsciiUpperCase | backend/routes/devices.js:28 | upper-casing keeps the length, turns every lower-case ASCII letter into its own capital (same position in the alphabet) and changes no other character |
| DeviceValidation.RemoveMarkup | backend/routes/devices.js:16 | deleting `< > " ' &` leaves no such character, a character is in the result iff it is in the input and is not markup, clean text is returned as it is and text made of markup alone becomes empty |
| DeviceValidation.RemoveMarkupCounts | backend/routes/devices.js:16 | every character that is not markup occurs in the result exactly as many times as in the input, and markup occurs zero times |
| DeviceValidation.RemoveMarkupAppend | backend/routes/devices.js:16 | deleting markup from a concatenation is the concatenation of the deletions, so the kept characters keep their order |
| DeviceValidation.RemoveMarkupCountsNoMore | backend/routes/devices.js:16 | deleting markup never increases the length the name check measures |
| DeviceValidation.Sanitize | backend/routes/devices.js:14-17 | `sanitizeInput` gives `""` for a non-string; for a string the result is no longer than the input, also in counted length, holds no markup character, holds only characters of the input, and keeps every input character that is neither whitespace nor markup |
| DeviceValidation.SanitizeNotIdempotent | backend/routes/devices.js:16 | sanitising `"< a"` twice differs from sanitising it once, because deletion happens after trimming |
| DeviceValidation.MacRegexIsShape | backend/routes/devices.js:11 | the MAC regular expression accepts exactly the 17-character strings with a `:` or `-` at every third position and a hex digit everywhere else |
| DeviceValidation.MatchesMacRegex | backend/routes/devices.js:11 | the regular expression as written, group by group; what it accepts is stated by `MacRegexIsShape` |
| DeviceValidation.MixedSeparatorsAccepted | backend/routes/devices.js:11 | an address mixing `:` and `-` is accepted |
| DeviceValidation.UpperCaseKeepsMacShape | backend/routes/devices.js:25-28 | upper-casing an accepted address keeps it accepted and leaves every separator unchanged |
| DeviceValidation.CaseVariantsCollide | backend/routes/devices.js:28 | `aa:bb:cc:dd:ee:ff` and `AA:BB:CC:DD:EE:FF` are stored as the same text `AA:BB:CC:DD:EE:FF`, so the uniqueness check treats them as one address |
| DeviceValidation.ValidateCreate | backend/routes/devices.js:20-34 | a create request is accepted iff the raw name's counted length is 1 to 100 and the mac is a string matching the MAC pattern |
| DeviceValidation.NameLengthOk | backend/routes/devices.js:21-23 | the name check: the counted length of the raw value lies between 1 and 100; its consequences are stated by `ValidateCreate`, `RejectedErrors` and `SelectorsPassLengthCheck` |
| DeviceValidation.CountedLength | backend/routes/devices.js:22 | the length the name check measures is at most the number of code points, equals it exactly when the text holds no U+FE0E/U+FE0F, and is zero on text made of those alone |
| DeviceValidation.TrimCountsNoMore | backend/routes/devices.js:16 | trimming never increases the counted length |
| DeviceValidation.SelectorsPassLengthCheck | backend/routes/devices.js:22 | a name of 1 to 100 ordinary code points still passes the check with any number of variation selectors appended, so a name longer than 100 code points can be accepted |
| DeviceValidation.AcceptedFields | backend/routes/devices.js:21-28 | an accepted request carries the sanitised name (counted length at most 100) and the upper-cased mac, which still has the accepted shape and is its own upper-case form |
| DeviceValidation.RejectedErrors | backend/routes/devices.js:21-33 | a rejected request reports exactly one error per failed check, in chain order: the name error (with its message) first when the name failed, the mac error (with its message) last when the mac failed |
| DeviceValidation.MarkupOnlyNameStoredEmpty | backend/routes/devices.js:21-24 | any name of 1 to 100 markup characters, with an accepted address, passes the length check and is stored as the empty string |
| DeviceValidation.CanonicalBodyAccepted | backend/routes/devices.js:20-28 | a name of 1 to 100 characters without whitespace, markup or variation selectors, with an already canonical address, is accepted unchanged |
| DeviceValidation.DecimalString | backend/routes/devices.js:85 | every id has a decimal text that passes the `^\d+$` check and denotes that id again |
| DeviceValidation.IsDecimalId | backend/routes/devices.js:85 | the `^\d+$` test on the path id; `PatchOutcomes` states that it alone decides the 400 answer |
| DeviceValidation.DecimalValue | backend/routes/devices.js:91 | the integer a digit string names when the store looks it up; `DecimalString` states that every id is named by some digit string and `LeadingZeroIgnored` that leading zeros do not change it |
| DeviceValidation.LeadingZeroIgnored | backend/routes/devices.js:91 | a leading zero does not change the id a path names, so `007` finds record 7 |
| DeviceModel.Status.Toggled | backend/routes/devices.js:97 | the toggled status differs from the current one |
| DeviceModel.LookupMac | backend/routes/devices.js:40 | the lookup by mac finds a row holding that mac, and finds none iff no row holds it |
| DeviceModel.LookupId | backend/routes/devices.js:91 | the lookup by primary key finds a row with that id, and finds none iff no row has it |
| DeviceModel.LookupIdUnique | backend/models/Device.js:5-9 | under the column constraints the lookup by a row's id finds exactly that row |
| DeviceModel.RowsConsistent | backend/models/Device.js:5-23 | the column constraints: positive ascending ids below the counter, unique mac, name within 100 as the create route counts it; kept by `InsertKeepsConsistent`, `ToggleKeepsConsistent`, `PostKeepsInvariant` and `PatchKeepsInvariant` |
| DeviceModel.ToggleAt | backend/routes/devices.js:97 | flipping one row's status keeps the number of rows; its other properties are stated by `ToggleAtInvolution` |
| DeviceModel.ToggleAtInvolution | backend/routes/devices.js:97-98 | flipping one row's status changes that row's status and nothing else, and flipping twice restores the rows |
| DeviceModel.InsertKeepsConsistent | backend/models/Device.js:5-18 | appending a row with the counter's id, an unused mac and a name of counted length at most 100 keeps the column constraints for the advanced counter |
| DeviceModel.ToggleKeepsConsistent | backend/models/Device.js:19-23 | flipping a status keeps the column constraints |
| DeviceModel.WriteThenEmitKeepsOrder | backend/routes/devices.js:58-60 | a write followed by the broadcast of the same record keeps every broadcast preceded by the write of its record |
| DeviceModel.DeviceStore.constructor | backend/models/Device.js:4-36 | a new store is empty, its first id is 1, and it satisfies the column constraints |
| DeviceModel.DeviceStore.Create | backend/models/Device.js:5-28 | insertion gives the counter's id and status `ATIVO`, appends the row, advances the counter and logs the write, keeping the constraints; it requires an unused mac, as the unique column does, and a name the create route accepted |
| DeviceModel.DeviceStore.SaveToggled | backend/routes/devices.js:97-98 | saving a flipped status replaces that row only, keeps the counter and logs the write |
| DeviceModel.DeviceStore.Emit | backend/routes/devices.js:60 | a broadcast is allowed only right after the write of the record it carries; it appends to the log and changes no row |
| DeviceRoutes.CreateDevice | backend/routes/devices.js:20-66 | the create handler's response and new store state are those of `Post` on the old state, and the store invariant is kept |
| DeviceRoutes.Post | backend/routes/devices.js:29-61 | create answers 201, or 400 with the table and log unchanged; the full behaviour is stated by `PostOutcomes`, `PostAppendsRecord`, `PostKeepsInvariant` and `DescriptionNeverFailsCreate` |
| DeviceRoutes.PostChecked | backend/routes/devices.js:30-61 | once the validation chain has run, create answers 201 iff the request was accepted and its mac is unused; otherwise 400 with nothing changed |
| DeviceRoutes.ResolveDescription | backend/routes/devices.js:47-56 | the generator's text is trimmed, so never longer than what it answered; on failure the fallback text is used |
| DeviceRoutes.FallbackDescription | backend/routes/devices.js:55 | the fallback text is `Dispositivo ` then the name, ` com MAC `, then the mac: 21 characters more than the name and mac, which it contains in place |
| DeviceRoutes.ListDevices | backend/routes/devices.js:69-78 | listing answers 200 with every record in store order; the ids are ascending and no two records share a mac |
| DeviceRoutes.ToggleStatus | backend/routes/devices.js:81-107 | the toggle handler's response and new store state are those of `Patch` on the old state, and the store invariant is kept |
| DeviceRoutes.Patch | backend/routes/devices.js:81-102 | toggle answers 200, 400 or 404, changes nothing unless it answers 200, and never changes the number of records or the counter; the full behaviour is stated by `PatchOutcomes`, `PatchFlipsOneRecord`, `PatchKeepsInvariant` and `PatchTwiceRestores` |
| DeviceRoutes.PostRejectsInvalid | backend/routes/devices.js:30-34 | a request failing validation is answered 400 with a non-empty error list that depends on the request alone, and the table and log are unchanged |
| DeviceRoutes.PostOutcomes | backend/routes/devices.js:30-61 | create answers 201 iff the request is valid and its mac is unused, answers 400 "MAC address must be unique" iff it is valid and the mac is taken, and only 201 changes the table or log |
| DeviceRoutes.PostAppendsRecord | backend/routes/devices.js:47-61 | a successful create appends one record with an id no existing record has, status `ATIVO`, the sanitised name, the upper-cased mac, the resolved description and the given time, then logs its write and its broadcast |
| DeviceRoutes.PostKeepsInvariant | backend/models/Device.js:14-18 | create keeps the column constraints (unique mac, fresh ids), the write-before-broadcast order and canonical stored addresses |
| DeviceRoutes.DescriptionNeverFailsCreate | backend/routes/devices.js:47-56 | the generator's outcome never changes the answer's status; on failure the description is `Dispositivo <name> com MAC <mac>` from the stored name and mac, on success the trimmed text |
| DeviceRoutes.DuplicateMacRejected | backend/routes/devices.js:40-44 | after a create, a second valid create whose mac upper-cases to the same text is answered 400 "MAC address must be unique" and changes nothing |
| DeviceRoutes.PatchOutcomes | backend/routes/devices.js:84-95 | toggle answers 400 "Invalid device ID" iff the id is not a digit string (whatever the table holds), 404 iff no record has that id, 200 iff one does; only 200 changes the table or log |
| DeviceRoutes.PatchFlipsOneRecord | backend/routes/devices.js:97-102 | a successful toggle flips the status of the record with that id only, keeps every other field and record, answers 200 with the updated record, and logs its write then its `device:status` broadcast |
| DeviceRoutes.PatchKeepsInvariant | backend/models/Device.js:19-23 | toggle keeps the column constraints, the write-before-broadcast order and canonical stored addresses |
| DeviceRoutes.PatchTwiceRestores | backend/routes/devices.js:97 | toggling the same id twice restores every record and gives the same status code both times |
| DeviceRoutes.EveryRecordAddressable | backend/routes/devices.js:85-102 | the decimal text of any stored record's id passes the id check and toggles exactly that record: 200 with it, the row flipped, the write and `device:status` broadcast logged |
| DeviceRoutes.CreateThenToggle | backend/routes/devices.js:58-101 | right after a create, toggling the next id answers 200 with the new record set to `INATIVO` |
| DeviceRoutes.RouterScenario | backend/routes/devices.js:20-107 | creating "Router" with AA:BB:CC:DD:EE:FF answers 201 with an `ATIVO` record; toggling its id answers 200 with `INATIVO`, and the listing then holds that record with `INATIVO` |
| DeviceRoutes.SensorFallbackScenario | backend/routes/devices.js:53-61 | with the generator failing, creating "Sensor1" with 00:11:22:33:44:55 answers 201 with description `Dispositivo Sensor1 com MAC 00:11:22:33:44:55` |
| DeviceRoutes.SeparatorsDistinguishAddresses | backend/routes/devices.js:28 | an address written with `:` and the same octets written with `-` are both created: separators are not normalised |

## Left out

- The description generator (`GoogleGenerativeAI`, `generateContent`, the prompt text) is a network call. Only its outcome is modelled, as the input `ai` of `Post`.
- The socket broadcast and the logger are I/O. Broadcasts are entries of the store's log; log messages are not modelled.
- Express routing, the validation library's plumbing, helmet, rate limiting, CORS and JSON parsing are framework code. Only the predicates they apply are modelled.
- Sequelize and SQLite are replaced by the in-memory `DeviceStore`. In it a write cannot fail, so the 500 answers of all three routes are not modelled. The same holds for the unique-constraint rejection at insert, which a sequential run never reaches because of the preceding lookup.
- The race between the mac lookup and the insert of two concurrent creates is a concurrency matter; the model is sequential.
- `created_at` comes from the clock; it is the parameter `now`, fixed at insert.
- `DeviceValidation.ValidateCreate`: a non-string `mac`, most often a missing one, is reported with the format error and the answer is 400. In the source the upper-casing sanitiser (`backend/routes/devices.js:28`) runs on such a value too, and `value.toUpperCase()` throws (on `undefined` when the field is missing), so the request does not get that 400; what the validation library and Express then answer is outside this model.
- Array-valued body fields, which the validation library checks element by element, are not modelled.
- The name length follows the counting of the validation library's `isLength`: one per code point, a surrogate pair counting once, U+FE0E and U+FE0F not counted. validator.js is not part of this model; the rule is taken from its `isLength`. Strings are sequences of code points, so lone surrogates are not modelled. The declared `STRING(100)` of the `name` column is not enforced by SQLite: a name with variation selectors can be stored with more than 100 code points (`SelectorsPassLengthCheck`), and the table constraint is the route's bound in that count.
- `JsString.AsciiUpperCase` upper-cases ASCII letters only. `toUpperCase` also maps non-ASCII letters, but its result matters only for addresses that matched the pattern, which are ASCII.
- Path ids are unbounded integers. An id beyond SQLite's 64-bit integer range is not modelled.
- The declared length 32 of the `mac` column is not enforced by SQLite and is not modelled; accepted addresses have 17 characters.

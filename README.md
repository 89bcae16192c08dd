# Eisenhower-matrix task board: a verified model of its state and persistence

The app keeps items in four fixed quadrants (important and urgent,
important and not urgent, not important and urgent, not important and not
urgent). Each quadrant holds an ordered sequence of strings. Adding appends
a prompted text to one quadrant. Deleting filters one position out of one
quadrant. The whole record is saved to the browser's local storage under the
key `"quadrants"`. A dirty flag (`updateLocalStorage`) controls when that
save happens. The stored document can be exported as `tasks_<timestamp>.json`.
A file can be imported to replace the record.

This project models all of that in Dafny:

- `Matrix` (`matrix.dfy`): the four-quadrant record and the two pure transforms, `Append` (the spread at lines 145-148) and `RemoveAt`. `RemoveAt` is the `filter` on positions, defined by recursion on the last position; the result is the filter's.
- `Timestamp` (`timestamp.dfy`): `formatTimestamp`. Covers integer `toString`, `padStart` with `'0'`, the `-`-joined template and the export file name. It also proves that sorting tokens as strings sorts them by local date and time for years 0 to 9999.
- `Persistence` (`persistence.dfy`): the protocol as pure step functions on a state value `State(quadrants, dirty, storage)`. Steps covered: start-up, the save effect, add, delete, import and export. The lemmas state what each step does to the record, the flag and the storage slot.
- `AppComponent` (`app.dfy`): class `App` with the mutable fields `quadrants`, `dirty` and `storage`. Its methods are the handlers, written step by step. Each handler that replaces the record then runs the save effect. Each method's `ensures` equates the new state with the matching `Persistence` step.
- `Wrappers` (`wrappers.dfy`): `Option`.

JSON is abstract. A document (the stored text, or the text of an import
file) is one of three kinds:
- `Snapshot(q)`: any text `JSON.parse` reads as the record `q`; what `JSON.stringify` writes for `q` is one such text.
- `Blank`: the empty string, the one text JavaScript treats as false.
- `Unparsable`: text on which `JSON.parse` throws.

What the code does at its edges:
- A stored document that does not parse stops the app in the load effect (`Persistence.StartupOutcomes`).
- Import does not set the dirty flag. The imported record reaches storage only with the next add or delete (`Persistence.ImportKeepsStorage`, `Persistence.ExportAfterImport`).
- Decoding does no structural check; see "Left out".
- An out-of-range delete keeps every item, but the flag is set and the record is written (`Persistence.DeleteStepOutOfRange`).
- The year is not limited to four digits. `padStart` never truncates, so from the year 10000 on the token grows (`Timestamp.FormatTimestampWideYear`).

## Model

| member | source | states |
|---|---|---|
| `Matrix.Quadrants.With` | src/App.tsx:145-148 | the spread replaces exactly quadrant `q` with the new items and copies the other three |
| `Matrix.Empty` | src/App.tsx:119-124 | the initial record has all four quadrants present and empty |
| `Matrix.Append` | src/App.tsx:145-148 | the new item list of `q` is one longer, starts with the old list and ends with the item; the other quadrants are unchanged |
| `Matrix.KeepOtherPositions` | src/App.tsx:155-157 | the filter drops exactly one element when the index is a position of the sequence and none otherwise |
| `Matrix.RemoveAt` | src/App.tsx:155-161 | the delete shortens quadrant `q` by one for an in-range index, keeps its length otherwise, and leaves the other quadrants unchanged |
| `Matrix.AppendSpec` | src/App.tsx:145-148 | adding makes `q` the old sequence plus the item: one longer, with the item last; the other quadrants are unchanged |
| `Matrix.KeepOtherPositionsInRange` | src/App.tsx:155-157 | filtering out an in-range position `i` gives `s[..i] + s[i+1..]` |
| `Matrix.KeepOtherPositionsOutOfRange` | src/App.tsx:155-157 | filtering out a position outside the sequence keeps every element |
| `Matrix.RemoveAtInRange` | src/App.tsx:155-161 | deleting in-range index `i` removes that item: length one less, items before `i` in place, items after `i` moved down one, other quadrants unchanged |
| `Matrix.RemoveAtOutOfRange` | src/App.tsx:155-161 | deleting an index outside `[0, |q|)` leaves the whole record unchanged |
| `Matrix.RemoveAtUndoesAppend` | src/App.tsx:145-161 | deleting the position of the item just added restores the record |
| `Timestamp.NatToDecimal` | src/App.tsx:109-114 | `toString` of a non-negative integer is a non-empty digit string denoting it, with no leading zero |
| `Timestamp.IntToString` | src/App.tsx:109-114 | `toString` of a non-negative integer is a non-empty digit string denoting it with no leading zero; of a negative one, a minus sign followed by such a string denoting its absolute value |
| `Timestamp.PadStart` | src/App.tsx:109-114 | `padStart` gives `max(|s|, width)` characters |
| `Timestamp.PadStartShape` | src/App.tsx:109-114 | the padded string ends with the original and is filled before it |
| `Timestamp.Field` | src/App.tsx:109-114 | one component, `toString` padded with `'0'`: at least `width` characters (its digits are stated by `Timestamp.FieldDigits`) |
| `Timestamp.Template` | src/App.tsx:115 | the six components joined by five `-`: the length is their sum plus five (the full layout is `Timestamp.TemplateLayout`) |
| `Timestamp.FieldDigits` | src/App.tsx:109-114 | a field below 10^width is exactly `width` digits denoting its value |
| `Timestamp.FormatTimestamp` | src/App.tsx:108-116 | the token is at least 19 characters, since `padStart` never shortens a component |
| `Timestamp.FormatTimestampLayout` | src/App.tsx:108-116 | for in-range fields the token is 19 characters with `-` at 4, 7, 10, 13 and 16; between them are the padded decimals of the year, the month plus one, the day, the hours, the minutes and the seconds |
| `Timestamp.FormatTimestampWideYear` | src/App.tsx:109 | from the year 10000 on the year component is longer than four characters and the token grows with it |
| `Timestamp.FormatTimestampOrder` | src/App.tsx:108-116 | for in-range times, one token is less than another as a string exactly when its local date and time is earlier |
| `Timestamp.ExportFileName` | src/App.tsx:177 | the download name is at least 30 characters, starts with `tasks_` and ends with `.json` |
| `Timestamp.ExportFileNameLayout` | src/App.tsx:175-178 | the download is named `tasks_`, then the 19-character token, then `.json` |
| `Persistence.Encode` | src/App.tsx:137 | what `JSON.stringify` writes is never empty and parses back to the record |
| `Persistence.Decode` | src/App.tsx:131 | `JSON.parse` (here and at line 192) yields a record exactly for a snapshot, and that record is the snapshot's; it throws on the empty and on unparsable text |
| `Persistence.Initial` | src/App.tsx:119-126 | the first state has all four quadrants empty, the flag clear, and storage as the browser holds it |
| `Persistence.HasStoredDocument` | src/App.tsx:130 | the truthiness test (also at line 168) accepts exactly a present slot holding a parsable or an unparsable text, not the empty string |
| `Persistence.SaveStep` | src/App.tsx:135-140 | the save effect leaves the flag clear and the record as it was; with the flag set, storage is the record; with it clear, nothing changes |
| `Persistence.LoadStep` | src/App.tsx:128-133 | the load effect fails exactly when the stored document does not parse; otherwise it keeps storage, keeps a clear flag clear, and leaves a present non-empty document in sync with the record |
| `Persistence.Startup` | src/App.tsx:119-133 | start-up fails exactly on an unparsable document; otherwise the flag is clear, storage is kept, and with no document or an empty one the record is empty |
| `Persistence.AddStep` | src/App.tsx:142-151 | quadrant `q` grows by one exactly when the answer is non-empty, the others are unchanged, a clear flag stays clear, and a non-empty answer leaves storage in sync |
| `Persistence.DeleteStep` | src/App.tsx:153-164 | quadrant `q` shrinks by one for an in-range index and keeps its length otherwise, the others are unchanged, and storage ends in sync with the flag clear |
| `Persistence.ImportStep` | src/App.tsx:186-196 | a parsable file becomes the record; storage is either kept or in sync; with the flag clear storage is kept and the flag stays clear |
| `Persistence.ExportStep` | src/App.tsx:166-184 | a download exists exactly when storage holds a non-empty document; it carries that document under a name starting with `tasks_` |
| `Persistence.SaveStepIdempotent` | src/App.tsx:135-140 | running the save twice is running it once; with the flag clear storage is untouched |
| `Persistence.AddStepAppends` | src/App.tsx:142-151 | adding non-empty text appends it to `q`, keeps the other quadrants, writes the new record to storage and clears the flag |
| `Persistence.AddStepNoOpIff` | src/App.tsx:143-144 | the add step leaves the whole state (record, flag, storage) unchanged exactly when the prompt was cancelled or answered with the empty string |
| `Persistence.DeleteStepInRange` | src/App.tsx:153-164 | an in-range delete removes exactly that item, keeps the other quadrants, and leaves storage equal to the new record with the flag clear |
| `Persistence.DeleteStepOutOfRange` | src/App.tsx:153-164 | an out-of-range delete keeps the record, but the flag was set, so the record is written to storage |
| `Persistence.EditsPersist` | src/App.tsx:135-164 | after a non-empty add and after any delete, storage holds the live record |
| `Persistence.StepsClearFlag` | src/App.tsx:126-164 | every step leaves the flag clear, so it is clear whenever a user event arrives |
| `Persistence.ImportKeepsStorage` | src/App.tsx:186-196 | with the flag clear, import sets the record to the parsed file and leaves storage and the flag as they were; no file, or a file that does not parse, changes nothing |
| `Persistence.ExportEmitsStoredDocument` | src/App.tsx:166-184 | export emits a download exactly when storage holds a non-empty document; the download is that document, named after the current time |
| `Persistence.ExportIgnoresLiveState` | src/App.tsx:166-168 | two states with the same storage export the same thing, whatever their live records and flags |
| `Persistence.ExportAfterImport` | src/App.tsx:166-196 | an export right after an import emits what it would have emitted before it |
| `Persistence.ExportThenImport` | src/App.tsx:166-196 | when storage holds the live record, its export imported into any state gives back that record |
| `Persistence.StartupOutcomes` | src/App.tsx:119-133 | at start-up, no document or an empty one gives the empty record; a parsable one gives its record; an unparsable one stops the app; storage is kept and the flag is clear |
| `Persistence.SavedStateReloads` | src/App.tsx:128-140 | a slot the app wrote is read back as the same record by the next start-up |
| `AppComponent.App.constructor` | src/App.tsx:119-126 | the first render has the empty record, the flag clear, and storage as the browser holds it |
| `AppComponent.App.Save` | src/App.tsx:135-140 | the method performs the save step on the fields |
| `AppComponent.App.Load` | src/App.tsx:128-133 | the method performs the load step; it reports failure, and changes nothing, when the stored document does not parse |
| `AppComponent.App.AddItem` | src/App.tsx:142-151 | the handler performs the add step and keeps the flag clear between events |
| `AppComponent.App.DeleteItem` | src/App.tsx:153-164 | the handler performs the delete step and keeps the flag clear between events |
| `AppComponent.App.ImportData` | src/App.tsx:186-196 | the handler performs the import step; storage is unchanged |
| `AppComponent.App.ExportData` | src/App.tsx:166-184 | the handler returns the stored document named `tasks_<token>.json` when storage holds a non-empty document, and nothing otherwise |

## Left out

- Rendering, styled-components CSS and JSX markup (src/App.tsx:18-106, 198-254): presentation only. `QUADRANT_BUILDERS` only maps titles to keys.
- `prompt`, `FileReader` and the hidden-anchor download: browser I/O. The model receives their outcomes: an optional answer, an optional file text, and an optional download.
- The `data:text/plain;charset=utf-8,` URL and `encodeURIComponent` (src/App.tsx:170-174): a foreign encoding. The download carries the stored document itself.
- The grammar of `JSON.stringify` and `JSON.parse`: foreign library calls. A document is one of `Snapshot`, `Blank` and `Unparsable`, and the round trip through the library is taken as given by construction.
- Persistence.Decode: text that parses to something other than a four-key record of string arrays (such as `null` or `42`) is not modelled. The code does not validate it. Such a value becomes the state. Most (`null`, a number, a missing key, an object item) make the next render throw; some (number items, extra keys) render and are saved back.
- Persistence.Encode: different texts that parse to the same record (reordered keys, extra whitespace) are one `Snapshot`, so the model does not tell the exact stored text apart from the record it denotes.
- Timestamp.IntToString: models `toString` for integers only as decimal digits; JavaScript writes values of 10^21 and more in exponent form, which the `Date` getters never return (years lie within ±275760), so that form is not modelled.
- Timestamp.Before: it orders local wall-clock readings; when clocks fall back, the same local hour occurs twice, so token order is not always the order of real moments.
- The `Date` getters: the local date fields are passed in as integers.
- React effect scheduling, update batching and the asynchronous `onload`: each handler is one atomic step followed by the save effect.
- Other keys of local storage, and storage errors such as quota: the app uses only the one slot.
- vite.config.ts: build configuration with no logic.

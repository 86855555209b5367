# Checklistfleet in Dafny

Checklistfleet is a mobile and web app for vehicle inspections. A driver or inspector fills in a
checklist: plate, odometer reading, driver, date and time, sections of rated items, two photos and
signatures. The record is stored through a small repository. That repository writes to a Firestore
collection when Firebase is configured and to one local key-value blob otherwise. This project
models the app's non-visual core as pure Dafny functions over immutable datatypes and proves what
each operation promises.

| module | file | models |
|---|---|---|
| `Wrappers` | `wrappers.dfy` | `Option`, `Result`, `Outcome` |
| `Text` | `text.dfy` | JavaScript string helpers: the `trim` whitespace set, ASCII classes, decimal rendering |
| `Seqs` | `seqs.dfy` | filter, first match and flatten over sequences |
| `Checklist` | `checklist.dfy` | the `VehicleChecklist` record, its sections and items, and the signed-in user |
| `Validate` | `validate.dfy` | the field validators of `utils/validateData.ts` |
| `Images` | `images.dfy` | `ensureImagesAreDataUrls` of `hooks/useChecklistStorage.ts` |
| `Firestore` | `firestore.dfy` | the Firestore helpers of `utils/firebase.ts`, over a map keyed by document id |
| `Storage` | `storage.dfy` | the repository `useChecklistStorage`: local blob, remote store, per-call dispatch |
| `Form` | `form.dfy` | the data logic of `ChecklistForm.tsx` |
| `ListScreen` | `listscreen.dfy` | the data logic of `ChecklistList.tsx` |
| `ViewImages` | `viewimages.dfy` | the photo list and download name of `app/view-images.tsx` |
| `DotEnv` | `dotenv.dfy` | `parseDotEnv` of `scripts/generate-env.js` |

Things the platform supplies become parameters:

- The byte reader that turns a photo reference into a data URL is an oracle `convert: string -> Option<string>`.
- Whether the remote service or the local `setItem` answers a call is a `Platform` value.
- The order in which the service enumerates documents is a sequence of document ids.
- The JavaScript `Date` parser is an oracle `parses: string -> bool`.
- Clock readings and random draws are explicit arguments.

Each write returns the stores afterwards together with an `Outcome`: `Pass` when the promise
resolves and `Fail` when it rejects. Each read returns the stores afterwards together with the
value it read.

Behaviours of the code worth knowing:

- **New records are saved un-normalised.** A new local record is appended exactly as the caller
  passed it; its photos are not normalised (`hooks/useChecklistStorage.ts:106`). So a record saved
  locally for the first time keeps every image it was given, possibly more than two, and
  `Storage.SaveThenLoad` returns it unchanged. Only an update stores the normalised record.
- **"Three letters plus four digits" is rejected.** The form's placeholder and its auto-fill both
  produce this plate shape, but none of the three accepted patterns matches it
  (`Validate.ThreeLettersFourDigitsRejected`).
- **Reads swallow errors.** `getAllChecklists` turns every failure into an empty list and
  `loadChecklist` turns every failure into `null`. Only save and delete reject.
- **`uploadChecklists` does no configuration check.** It initialises the SDK and writes whatever
  the configuration.
- **No calendar claim.** Whether a date such as `2024-02-30` is accepted is left to the
  engine's `Date` parser.

## Model

| member | source | states |
|---|---|---|
| Text.Trim | utils/validateData.ts:56 | `trim` keeps the slice between the leading and trailing whitespace; the slice neither starts nor ends with whitespace; it is empty exactly when the whole string is whitespace |
| Text.TrimUnique | utils/validateData.ts:56 | whitespace around a core that neither starts nor ends with whitespace trims to exactly that core |
| Validate.CleanPlate | utils/validateData.ts:42 | the cleaned plate holds only capitals and digits and is no longer than the input |
| Validate.CleanPlateAppend | utils/validateData.ts:42 | cleaning a concatenation is concatenating the cleaned parts |
| Validate.CleanPlateOfAlnum | utils/validateData.ts:42 | cleaning a string of letters and digits keeps its length and upper-cases each character |
| Validate.CleanPlateOfClean | utils/validateData.ts:42 | capitals and digits are already clean |
| Validate.ValidatePlate | utils/validateData.ts:39-48 | only a string is accepted, and every accepted plate's cleaned residue has exactly seven symbols |
| Validate.PlateIgnoresSeparator | utils/validateData.ts:40-42 | inserting any character other than a letter or digit anywhere never changes the verdict |
| Validate.PlateIgnoresCase | utils/validateData.ts:40-42 | writing any character in lower case never changes the verdict |
| Validate.ThreeLettersFourDigitsRejected | utils/validateData.ts:44-47 | three letters, a separator and four digits (the form's advertised shape) match none of the three patterns and are rejected |
| Validate.MercosulExample | utils/validateData.ts:44 | `ABC1D23` is accepted |
| Validate.FourLettersExample | utils/validateData.ts:45 | `ABCD123` is accepted |
| Validate.MachineryExample | utils/validateData.ts:46 | `PMM00XX` is accepted |
| Validate.TooFewLettersExample | utils/validateData.ts:44-47 | `AB1234` is rejected |
| Validate.CleanKmOfCompact | utils/validateData.ts:15 | without whitespace, cleaning only replaces the first comma by a dot |
| Validate.CleanKmOfDigitsAndDots | utils/validateData.ts:15 | cleaning leaves a string of digits and dots unchanged |
| Validate.ReplaceFirstCommaAfter | utils/validateData.ts:15 | the comma replaced is the first one, the one after a comma-free prefix |
| Validate.CleanKmOfCommaDecimal | utils/validateData.ts:15 | cleaning turns the comma between two digit runs into a dot |
| Validate.DecimalDigits | utils/validateData.ts:17 | a well-shaped reading with its dot dropped is all digits |
| Validate.DecimalOfParts | utils/validateData.ts:17 | two non-empty digit runs joined by a dot are well-shaped, and their digits are the two runs |
| Validate.CommaIsNotDecimal | utils/validateData.ts:17 | no string holding a comma is well-shaped |
| Validate.DecimalDigitsNonZero | utils/validateData.ts:17-19 | dropping the dot neither adds nor removes a non-zero digit |
| Validate.ValidateKm | utils/validateData.ts:14-19 | a reading is accepted if and only if its cleaned form has the digits-and-optional-decimal shape and has a digit other than `0` |
| Validate.KmCommaIsDecimalPoint | utils/validateData.ts:15-19 | `a,b` is judged like `a.b`, and both are accepted if and only if some digit is not `0` (so `12,5` and `12.5` pass, `0.0` does not) |
| Validate.WholeKmAccepted | utils/validateData.ts:17-19 | a whole number is accepted if and only if some digit is not `0` (`50000` passes; `0` and `00` do not) |
| Validate.TrailingPointRejected | utils/validateData.ts:17 | digits followed by a dot with nothing after it (`1.`) are rejected |
| Validate.KmSecondCommaRejected | utils/validateData.ts:15-17 | only the first comma is converted, so a reading with two commas (`1,5,5`) is rejected |
| Validate.ZeroKmExample | utils/validateData.ts:17-19 | `00` is rejected |
| Validate.NegativeKmExample | utils/validateData.ts:17 | `-5` is rejected |
| Validate.EmptyKmExample | utils/validateData.ts:17 | the empty reading is rejected |
| Validate.DateShapeThenEngine | utils/validateData.ts:56-59 | the trimmed `YYYY-MM-DD` shape is necessary; given the shape, the engine's parse of the text at local midnight decides |
| Validate.ValidateDateString | utils/validateData.ts:55-59 | an accepted date trims to ten characters that the engine parses at local midnight |
| Validate.TwoDigits | utils/validateData.ts:67 | a number below 100 renders as two digits |
| Validate.ClockIsTime | utils/validateData.ts:67 | every hour 00-23 with every minute 00-59 forms an accepted time |
| Validate.TimeIsClock | utils/validateData.ts:67 | every accepted time is such an hour and minute, and reads back as them |
| Validate.ValidateTimeString | utils/validateData.ts:65-68 | only a string is accepted, and its trimmed text is an hour below 24 and a minute below 60 |
| Validate.LateMidnightExample | utils/validateData.ts:65-68 | `24:00` is rejected |
| Validate.SingleDigitHourExample | utils/validateData.ts:65-68 | `7:30` is rejected |
| Validate.SixtyMinutesExample | utils/validateData.ts:65-68 | `12:60` is rejected |
| Validate.ValidateText | utils/validateData.ts:75-79 | text is accepted if and only if it is a string in which some character is not whitespace and no character is a digit |
| Images.Present | hooks/useChecklistStorage.ts:45 | empty references are dropped; the kept ones come from the input and all of them are kept when none is empty |
| Images.FirstTwo | hooks/useChecklistStorage.ts:44 | a prefix of the input of length at most two; the whole input when it is that short |
| Images.Resolve | hooks/useChecklistStorage.ts:46-59 | an embedded image passes unchanged; any other becomes the converter's non-empty output or stays as it was; a non-empty reference never becomes empty |
| Images.ResolveAll | hooks/useChecklistStorage.ts:44-60 | one result per non-empty reference, in order, each the resolved reference |
| Images.EnsureImagesAreDataUrls | hooks/useChecklistStorage.ts:41-62 | `[]` for an absent or empty list; at most two entries and at most the input length; entry `i` is the `i`-th non-empty reference among the first two, resolved |
| Images.OnlyFirstTwoExamined | hooks/useChecklistStorage.ts:44 | inputs that agree on their first two references, with converters that agree on those, give the same result |
| Images.EmbeddedPassThrough | hooks/useChecklistStorage.ts:44-48 | when the examined references are all embedded or empty, the result is those references minus the empty ones, in order |
| Images.FailedConversionsKeepOriginals | hooks/useChecklistStorage.ts:51-59 | a converter that always fails drops nothing and aborts nothing: every non-empty examined reference is kept verbatim |
| Images.NormaliseEmbeddedIsIdentity | hooks/useChecklistStorage.ts:44-48 | normalising at most two embedded images is the identity |
| Images.NormaliseIdempotentWhenEmbedded | hooks/useChecklistStorage.ts:41-62 | a result whose entries all came out embedded is a fixed point of normalisation |
| Firestore.PlaceholderIsNotConfigured | utils/firebase.ts:52-59 | a `<placeholder>`, missing or empty project id or api key switches the remote store off |
| Firestore.IsFirebaseConfigured | utils/firebase.ts:52-59 | the remote store is on only when the project id and the api key are both present, non-empty and free of `<` |
| Firestore.InitFirebase | utils/firebase.ts:24-31 | initialisation sets the flag and leaves the documents alone |
| Firestore.EnsureInit | utils/firebase.ts:61-65 | reports the configuration check and initialises only when it passes |
| Firestore.SaveChecklistFirestore | utils/firebase.ts:81-86 | unconfigured: fails with "not configured" and touches nothing; otherwise succeeds exactly when the service answers, and then overwrites the document under the record's id |
| Firestore.LoadChecklistFirestore | utils/firebase.ts:88-93 | the same configuration failure; on success returns the document under the id, or none when it is absent; never changes documents |
| Firestore.DeleteChecklistFirestore | utils/firebase.ts:95-99 | the same configuration failure; on success the id's document is gone and every other document is unchanged |
| Firestore.Listing | utils/firebase.ts:73-78 | lists only documents of the collection, at most one per enumerated id |
| Firestore.ListingOfEnumeration | utils/firebase.ts:73-78 | listing ids that all name documents yields one entry per id and misses none of them |
| Firestore.FetchAllChecklists | utils/firebase.ts:67-79 | the same configuration failure; on success every listed record is a document, and a full enumeration lists every document |
| Firestore.LastWithId | utils/firebase.ts:40-44 | the position of the last checklist with an id, or none when no checklist has it |
| Firestore.PutAllLastWins | utils/firebase.ts:40-44 | after sequential writes, an uploaded id holds the LAST checklist with it, and every other document is as before |
| Firestore.UploadChecklists | utils/firebase.ts:33-47 | writes in input order with no configuration check; the first failing write rejects and the earlier writes stay; on success reports the input length |
| Firestore.SaveThenLoad | utils/firebase.ts:81-93 | a successful save is read back exactly |
| Firestore.DeleteThenLoad | utils/firebase.ts:88-99 | after a successful delete the id reads as absent |
| Firestore.SaveKeepsKeyedById | utils/firebase.ts:84-85 | saving keeps every document under its own id |
| Firestore.DeleteKeepsKeyedById | utils/firebase.ts:98 | deleting keeps every document under its own id |
| Firestore.PutAllKeepsKeyedById | utils/firebase.ts:40-44 | uploading keeps every document under its own id |
| Firestore.ListingOfKeyed | utils/firebase.ts:73-78 | in a collection keyed by id, no listed record carries an id that has no document |
| Storage.ReadLocal | hooks/useChecklistStorage.ts:77-78 | a missing or unreadable blob reads as `[]`; a stored one reads as its list |
| Storage.GetAllChecklists | hooks/useChecklistStorage.ts:69-83 | never changes a store; reads the local list when Firebase is off, the remote listing when it is on and answers, and `[]` on any error |
| Storage.LocalUpsert | hooks/useChecklistStorage.ts:100-108 | a known id: the first record with it is replaced in place by the normalised record, everything else unchanged; a new id: the ORIGINAL record is appended |
| Storage.LocalDelete | hooks/useChecklistStorage.ts:139-140 | the kept records are those of the stored list with another id: each survivor as often as it was stored and in stored order, no record with the id remains, and deleting an absent id changes nothing |
| Storage.LocalDeleteKeepsOrder | hooks/useChecklistStorage.ts:139-140 | any order the stored records were in, the survivors are still in |
| Storage.Prepare | hooks/useChecklistStorage.ts:90-93 | the caller's record with only its images replaced, and at most two of them |
| Storage.SaveChecklist | hooks/useChecklistStorage.ts:85-114 | touches only the selected store; succeeds exactly when that store answers; on failure changes nothing; remotely writes the normalised record under its id; locally writes the upserted list |
| Storage.LoadChecklist | hooks/useChecklistStorage.ts:116-130 | never changes a store; remotely the document or none; locally the first record with the id, none exactly when no record has it |
| Storage.DeleteChecklist | hooks/useChecklistStorage.ts:132-146 | touches only the selected store; succeeds exactly when it answers; on failure changes nothing; otherwise removes the id there |
| Storage.ReadsIgnoreInactiveStore | hooks/useChecklistStorage.ts:71-78 | replacing the store the configuration does not select by anything changes no read |
| Storage.UpsertThenFind | hooks/useChecklistStorage.ts:100-108 | after an upsert the first record with the id is the one just written: normalised for a known id, the original for a new one |
| Storage.SaveThenLoad | hooks/useChecklistStorage.ts:85-130 | a successful save is found by the next load: normalised remotely or for a known local id, unchanged for a new local id |
| Storage.DeleteThenLoad | hooks/useChecklistStorage.ts:132-146 | after a successful delete no load finds the id |
| Storage.SaveLocalLength | hooks/useChecklistStorage.ts:100-109 | a local save adds one record for a new id and keeps the length for a known one |
| Storage.SaveOverUnreadableBlob | hooks/useChecklistStorage.ts:100-109 | an unreadable blob counts as empty, so a local save over it stores just the saved record |
| Storage.NewLocalRecordKeepsAllImages | hooks/useChecklistStorage.ts:103-107 | a new local record is stored last and as given, so more than two images survive |
| Form.BlankSections | components/checklist/ChecklistForm.tsx:90-93 | the template sections in order, each with its notes cleared |
| Form.InitialChecklist | components/checklist/ChecklistForm.tsx:82-100 | id is the given id or else the timestamp's digits, never empty; owner is the user's id or `''`; fields blank; no images; template sections with empty notes; both stamps the current time |
| Form.OnFocus | components/checklist/ChecklistForm.tsx:103-115 | with an id, the record the repository loads replaces the form state, and a miss keeps it; without one nothing happens |
| Form.ApplyToItem | components/checklist/ChecklistForm.tsx:304 | an item edit sets its one field and keeps id, name and the other field |
| Form.ApplyToSection | components/checklist/ChecklistForm.tsx:290 | a section edit sets its notes and keeps id, title and items |
| Form.UpdateSection | components/checklist/ChecklistForm.tsx:286-293 | a section with the id becomes that section with the new notes and nothing else changed; any other section is untouched; count and order are kept |
| Form.UpdateItems | components/checklist/ChecklistForm.tsx:302-306 | only items with the id get the edit; count, order and ids are kept |
| Form.UpdateItem | components/checklist/ChecklistForm.tsx:295-311 | only items matching both ids get the edit; section and item counts, order, ids, titles and notes are kept |
| Form.ItemEditsCommute | components/checklist/ChecklistForm.tsx:295-311 | edits of two different items commute |
| Form.LaterItemEditWins | components/checklist/ChecklistForm.tsx:295-311 | setting a status twice keeps only the second |
| Form.RemoveImage | components/checklist/ChecklistForm.tsx:279-284 | the length drops by one exactly for an in-range index, and every later photo shifts down one place |
| Form.RemoveImageIsCut | components/checklist/ChecklistForm.tsx:279-284 | an in-range index cuts exactly that photo; any other index changes nothing |
| Form.AddImage | components/checklist/ChecklistForm.tsx:262 | appending then truncating: appended below two photos, otherwise the first two kept |
| Form.AlnumRun | components/checklist/ChecklistForm.tsx:258 | the maximal run of letters and digits from a position |
| Form.FindExtension | components/checklist/ChecklistForm.tsx:258 | the leftmost position where a dot, a letters-and-digits run and then `?` or the end match, or none |
| Form.MimeTag | components/checklist/ChecklistForm.tsx:258-259 | never empty and never `jpg`; `jpeg` when no extension matches |
| Form.MimeTagOfFileName | components/checklist/ChecklistForm.tsx:258-259 | a file name in which no earlier dot starts an extension, then a letters-and-digits extension and an optional query, yields that extension, with `jpg` spelled `jpeg` |
| Form.MimeTagOfDotlessBase | components/checklist/ChecklistForm.tsx:258-259 | in particular a base name with no dot at all |
| Form.DataUrl | components/checklist/ChecklistForm.tsx:259 | the built URL is embedded (`data:`) and ends with the payload |
| Form.PickedPhotoIsEmbedded | components/checklist/ChecklistForm.tsx:256-263 | a picked photo passes the repository's normaliser untouched |
| Form.HandlePickImage | components/checklist/ChecklistForm.tsx:178-277 | with two photos nothing changes; otherwise at most one photo is appended; on the web only an admin adds; a refused permission adds nothing; a native pick adds the data URL, or the URI without a payload |
| Form.FirstInvalid | components/checklist/ChecklistForm.tsx:117-146 | the alert names the first failing field in the order plate, driver, km, date, time, and none exactly when all five pass |
| Form.SavedRecord | components/checklist/ChecklistForm.tsx:148-152 | the form state with only the owner and `updatedAt` changed; the owner is the form's own, else the user's id, else `''` |
| Form.HandleSave | components/checklist/ChecklistForm.tsx:117-161 | an invalid field stops before the repository is touched; otherwise the saved record is stored, and the outcome is `Saved` exactly when all fields pass and the save resolves |
| Form.SavedFormReloadsValid | components/checklist/ChecklistForm.tsx:117-161 | a saved record has five valid fields, and the next load of its id returns such a record |
| ListScreen.Visible | components/checklist/ChecklistList.tsx:124-127 | an admin sees everything; anyone else sees exactly their own records, each as often as stored and in the given order |
| ListScreen.VisibleKeepsNewestFirst | components/checklist/ChecklistList.tsx:124-127 | what a user sees of a newest-first list is newest first |
| ListScreen.InsertNewest | components/checklist/ChecklistList.tsx:140-144 | inserting adds exactly the one record |
| ListScreen.InsertNewestBounded | components/checklist/ChecklistList.tsx:140-144 | inserting keeps every stamp under a common bound |
| ListScreen.InsertNewestSorted | components/checklist/ChecklistList.tsx:140-144 | inserting into a newest-first list keeps it newest first |
| ListScreen.SortNewestFirst | components/checklist/ChecklistList.tsx:139-145 | a permutation of the input ordered by `createdAt`, newest first |
| ListScreen.InsertNewestStable | components/checklist/ChecklistList.tsx:140-144 | inserting never reorders records with equal stamps |
| ListScreen.SortIsStable | components/checklist/ChecklistList.tsx:140-144 | for every stamp, its records keep their input order (stable sort) |
| ListScreen.LoadChecklists | components/checklist/ChecklistList.tsx:135-152 | shows a permutation of what the repository returned, newest first |
| ListScreen.DisplayedNewestFirst | components/checklist/ChecklistList.tsx:124-152 | the list on screen, the loaded records filtered for the user, is newest first |
| ListScreen.HandleDelete | components/checklist/ChecklistList.tsx:154-171 | nothing happens without confirmation; a confirmed delete either fails with its error or reloads the list newest first |
| ListScreen.DeletedIsNotShown | components/checklist/ChecklistList.tsx:154-171 | after a confirmed successful delete the refreshed list has no record with that id |
| ListScreen.ShownAfterDelete | components/checklist/ChecklistList.tsx:163-165 | the list reloaded after a successful delete has no record with that id |
| ListScreen.ListedAfterDelete | components/checklist/ChecklistList.tsx:163-165 | after a successful delete neither store lists a record with that id |
| ListScreen.SortKeepsAbsence | components/checklist/ChecklistList.tsx:139-145 | sorting never brings in a record that was not there |
| ListScreen.GeneratedSections | components/checklist/ChecklistList.tsx:188-197 | the template sections with empty notes, each item with its drawn status |
| ListScreen.Generated | components/checklist/ChecklistList.tsx:181-204 | record `i` has id `<stamp>-<i>`, plate `TEST-<i padded>`, no images, the user's id as owner, and both stamps the creation time |
| ListScreen.HandleGenerate | components/checklist/ChecklistList.tsx:173-218 | nothing without confirmation; at most ten sequential saves, all those counted having succeeded; success means all ten; the first failing save stops the batch and the earlier ones stay saved |
| ListScreen.GeneratedIdSeparator | components/checklist/ChecklistList.tsx:182 | the first `-` of a generated id sits right after the stamp's digits |
| ListScreen.GeneratedIdsDistinct | components/checklist/ChecklistList.tsx:182 | different indices give different ids, whatever the clocks read |
| ListScreen.GeneratedPlateDigits | components/checklist/ChecklistList.tsx:183 | the ten plates are `TEST-` followed by the index in three digits |
| ListScreen.FourLettersDashDigits | components/checklist/ChecklistList.tsx:183 | four capitals, a separator and three digits pass the plate validator |
| ListScreen.GeneratedPlateIsValid | components/checklist/ChecklistList.tsx:183 | every generated plate passes the plate validator |
| ViewImages.PositionName | app/view-images.tsx:49 | position 0 is `Frente`, 1 is `Trás`, and positions from the third on are named `Imagem <idx+1>` |
| ViewImages.Label | app/view-images.tsx:49 | the caption is the plate, then ` - `, then the position name |
| ViewImages.PositionNamesDistinct | app/view-images.tsx:49 | different positions get different names |
| ViewImages.AllEntries | app/view-images.tsx:52-58 | the page has one entry per photo of the records |
| ViewImages.LabelsDistinct | app/view-images.tsx:49 | the photos of one record carry pairwise different captions |
| ViewImages.EntriesOf | app/view-images.tsx:48-50 | one entry per photo of the record, in order, each with its caption |
| ViewImages.AllEntriesIsFlattening | app/view-images.tsx:52-58 | the page has as many entries as the records have photos, and its URIs are the photos concatenated in order |
| ViewImages.PageEntries | app/view-images.tsx:42-58 | without an id, every visible record's photos; with one, the photos of the first visible record with it, or nothing |
| ViewImages.NarrowedToOneRecord | app/view-images.tsx:45-51 | with an id the page shows the photos of one visible record with that id or none, and none when no visible record has it |
| ViewImages.Load | app/view-images.tsx:39-64 | the page is built from what the repository returns |
| ViewImages.Sanitize | app/view-images.tsx:84 | keeps the length and every safe character, and replaces every other character by `_` |
| ViewImages.SanitizeIdempotent | app/view-images.tsx:84 | sanitising twice is sanitising once; a safe name is left alone |
| ViewImages.DownloadName | app/view-images.tsx:84-85 | the sanitised caption, or `image` for an empty one, with `.jpg` appended; every character safe |
| DotEnv.SplitLines | scripts/generate-env.js:8 | at least one line, and no line holds a `\n` |
| DotEnv.SplitOnNewline | scripts/generate-env.js:8 | the reference split at `\n` alone has at least one line, and no line holds a `\n` |
| DotEnv.SplitOnNewlineCons | scripts/generate-env.js:8 | a first line free of breaks is split off at the break after it |
| DotEnv.JoinOfSplit | scripts/generate-env.js:8 | joining the split lines with `\n` gives the text back |
| DotEnv.SplitOfJoin | scripts/generate-env.js:8 | lines free of breaks come back from splitting their join |
| DotEnv.SplitsAgreeUpToCarriageReturn | scripts/generate-env.js:8 | the `\r?\n` split and the `\n` split give as many lines, and the lines trim alike |
| DotEnv.FirstLinesTrimAlike | scripts/generate-env.js:8 | a line with or without its trailing `\r` trims alike |
| DotEnv.Unquote | scripts/generate-env.js:17-19 | one pair of matching surrounding `"` or `'` is stripped; a mismatched or missing quote is kept |
| DotEnv.LineEntry | scripts/generate-env.js:11-19 | no entry exactly when the trimmed line is blank, starts with `#` or has no `=` |
| DotEnv.LineEntryAtFirstEquals | scripts/generate-env.js:13-16 | the key is the trimmed text before the FIRST `=`; the value is the unquoted, trimmed rest |
| DotEnv.Entries | scripts/generate-env.js:10-20 | one entry per line, in order |
| DotEnv.AssignSnoc | scripts/generate-env.js:20 | one more entry assigns its binding over the map so far |
| DotEnv.AssignLastWins | scripts/generate-env.js:10-21 | a key is bound exactly when some line defines it, and to the value of the LAST line that does |
| DotEnv.ParseLines | scripts/generate-env.js:10-22 | the keys are exactly those some line defines, each bound to the value of the last line defining it |
| DotEnv.ParseDotEnv | scripts/generate-env.js:7-23 | the keys are exactly those some line of the file defines |
| DotEnv.LaterLineWins | scripts/generate-env.js:20 | a later line with the same key overwrites the earlier value |
| DotEnv.IgnoredLineChangesNothing | scripts/generate-env.js:12-14 | a blank, comment or `=`-less line leaves the map as it was |
| DotEnv.ParseLinesByTrim | scripts/generate-env.js:11 | lines that trim alike parse alike |
| DotEnv.CarriageReturnsIgnored | scripts/generate-env.js:7-23 | `\r\n` and `\n` end lines alike |
| DotEnv.ParseJoinedLines | scripts/generate-env.js:7-23 | a file written as given break-free lines parses as those lines |
| DotEnv.SingleLine | scripts/generate-env.js:7-23 | a text without line breaks yields at most its one line's binding |
| DotEnv.AssignmentLine | scripts/generate-env.js:13-19 | `k=w` with a clean key splits at the separator into `k` and the unquoted `w` |
| DotEnv.KeyValueRoundTrip | scripts/generate-env.js:7-23 | a clean unquoted `k=v` line parses to exactly `{k: v}` |
| DotEnv.QuotedValueRoundTrip | scripts/generate-env.js:7-23 | a quoted value comes back without its quotes and with its inner blanks intact |

## Left out

- Rendering, styling, scrolling, navigation, alerts and dialogs: the screens are modelled only by the data they compute. A dialog's answer is a `confirmed` argument.
- Platform byte reading (`expo-file-system`, `fetch` plus `FileReader`), the image picker and the DOM file input and download: each becomes an oracle argument or a `PickerRun` value.
- The Firestore SDK, `getApps` and environment lookup: the collection is a map keyed by document id, initialisation is one flag, and the configuration is two optional strings.
- AsyncStorage and `JSON.stringify`/`JSON.parse`: serialisation is taken to round-trip exactly, and a blob that cannot be read or parsed is `Unreadable`.
- Concurrency: interleaved read-modify-write cycles on the local blob are not modelled; every call runs alone.
- Validate.ValidateKm: models the string branch only. The number branch (`typeof value === 'number'`) is left out because the form always passes a string. `Number()` is computed exactly instead of as a double, so underflow and overflow are ignored.
- Validate.ValidateDateString: models the string branch only, not the `Date` instance branch. The calendar check is the oracle `parses`.
- `validatePositiveNumber`, `validateBoolean` and `validateDate`: no screen in the core calls them.
- `generateRandomData` and `handleAutoFill`: they only draw random values. The plate shape they produce is covered by `Validate.ThreeLettersFourDigitsRejected`.
- `Math.random`, `Date.now()`, `toISOString` and `toTimeString`: these become explicit draws and strings. Timestamps are integers instead of ISO-8601 text, so the `createdAt` sort compares integers.
- `INITIAL_SECTIONS`: the template sections are a parameter, because `types/checklist.ts` is not part of this model.
- Form.UpdateItem: the `updates: any` spread is narrowed to typed updates (set status, set item notes, set section notes), the edits the section component sends. An arbitrary patch could also overwrite ids.
- ListScreen.Visible: a missing `user?.id` is modelled as the empty string, so a signed-out user sees no records. In the source, `undefined === undefined` also shows such a user the records whose `userId` is undefined, which are the ones `handleGenerate` writes while signed out.
- ViewImages.Sanitize: works on Dafny characters, whereas the JavaScript regular expression without the `u` flag works on UTF-16 code units. A character outside the Basic Multilingual Plane, such as an emoji, is two code units and becomes `__` in the source but one `_` in the model.
- Form.InitialChecklist: the source reads the clock separately for the id, `createdAt` and `updatedAt`. The model takes one reading `now` for all three, so the stamps agree here, but in the source they can differ by a millisecond.
- ListScreen.HandleGenerate: states the stores and the count of successful saves. The reload and the alerts after the batch are left out.
- ListScreen.DeletedIsNotShown: the remote case assumes that every document sits under its own id (`Firestore.KeyedById`). The model's save, delete and upload keep that invariant, but documents written by other clients are outside the model.
- Firestore.FetchAllChecklists: the service's enumeration order and its completeness are the `order` argument, because the code does not fix them.
- Storage.GetAllChecklists: an empty string in the blob reads as `Missing`, like a missing item.
- The `scripts/generate-env.js` file I/O and `generateFile`. Keys such as `__proto__` are taken as plain map keys, and object key order is not modelled.

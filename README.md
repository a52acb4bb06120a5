# Registration intake: a verified model of its decision logic

The application collects a registration form with a photo, stores each
registration, and gives administrators a dashboard. The dashboard has a search
and a category filter, a spreadsheet export and a zip download of every photo.
This project models the decision logic beneath that plumbing and proves what
it does.

- **Photo ingest** (`upload.dfy`, module `Upload`): which file parts are
  admitted, the name `<timestamp>-<suffix>-<original name>` a stored photo
  gets, and the path recorded for it.
- **Submission and schema** (`registrations.dfy`, module `Registrations`): the
  record built from the form body and the upload, and the schema's
  `required`/`enum` rules that decide whether it is stored.
- **Export details** (`export.dfy`, module `Export`): the nine-column row of
  each record and its category-specific "details" text.
- **Photo archive** (`archive.dfy`, module `Archive`): which records
  contribute a file to the zip, and each entry's name.
- **Registration form** (`form.dfy`, module `Form`): the client-side
  validator (trim, email shape, mobile digits, error messages after fields)
  and the category switch that toggles which field group is required. The
  page is a class, `Form.RegistrationForm`, whose methods update its controls.
- **Admin dashboard** (`admin.dfy`, module `Admin`): the search/category
  filter, the photo-path rewrite, header labels, the `-` placeholder, and the
  table drawing. The page state is a class, `Admin.AdminView`.
- **End to end** (`pipeline.dfy`, module `Pipeline`): one upload followed
  through to its archive entry name and its dashboard link.

Shared pieces are `wrappers.dfy` (`Option`, `Result`) and `text.dfy`. The
latter models the JavaScript string semantics the scripts rely on: whitespace
and line terminators, ASCII case mapping, `includes`, `indexOf` and
number-to-text.

Conventions of the model:

- A server record field is `Option<string>`, and `None` is an unset path.
- The form body is a `map<string, string>`.
- A record as the dashboard receives it is a `JsObject`, a list of key/value
  pairs. Lookup returns the first match, and `Undefined` when the key is
  absent.
- The clock, the random draw, `__dirname`, the path separator, file existence,
  date parsing and `toLocaleDateString` are parameters.

Behaviours of the code a reader might not expect:

- The form body can set `createdAt`. Mongoose applies the `Date.now` default
  only when the path is unset (`Registrations.BodyCreatedAtKept`).
- The form body can also set `_id`, because the body is spread into the new
  document. A 24-hex-digit `_id` becomes the stored record's identity, so the
  client chooses it (`Registrations.BodyIdKept`). Any other `_id` fails the
  ObjectId cast, and nothing is stored (`Registrations.BadIdRefused`).
- The stored photo path is multer's absolute `file.path`, not a relative
  path.
- Switching category only toggles `required` (public/script.js:153-162).
  Error messages left on fields of the group just hidden stay in place.
- A required email of only spaces passes nothing: it first gets the
  "required" message, and the format check then replaces that message
  (`Form.BlankEmailGetsFormatMessage`).
- The dashboard's search tests the name text first, then the email, then the
  category, and stops at the first match. It throws a TypeError when it
  reaches a field that is not a string: a record whose name does not match
  and whose `email` is not a string, or one whose name and email both miss
  and whose `whoareyou` is not a string. A record whose email matches never
  reads `whoareyou`, so a missing category does not throw there. The model
  returns `None` when the search throws, and the table is left as it was
  (`Admin.MatchSearch`).

## Model

| member | source | states |
|---|---|---|
| Upload.Admit | server.js:45-56 | A file part is refused as not an image exactly when its MIME type lacks the case-sensitive `image/` prefix. It is refused as too large exactly when it is an image over 5 MiB. It is admitted exactly when it is an image of at most 5·1024·1024 bytes. The type check comes first. |
| Upload.AdmitExamples | server.js:47-54 | A 6 MiB PNG is refused for its size. A PNG of exactly 5 MiB is admitted. A PDF and an `IMAGE/PNG` part are refused as non-images. |
| Upload.RandomSuffix | server.js:40 | `Math.round(Math.random() * 1E9)` lies between 0 and 10^9. |
| Upload.ParseStoredNameRoundTrip | server.js:38-42 | The timestamp, the random suffix and the original name can all be read back from a stored file name. |
| Upload.StoredNameEndsWithOriginal | server.js:41 | A stored name always ends with the uploader's original file name. |
| Upload.StoredNameInjective | server.js:38-42 | Two uploads differing in timestamp, suffix or original name get different stored names. |
| Upload.Receive | server.js:30-56 | Receiving fails exactly when admission refuses, and with the same reason. Otherwise the path is `<root>/uploads/<timestamp>-<suffix>-<original name>` for a suffix of at most 10^9. |
| Registrations.BuildRecord | server.js:97-100 | The record's `photo` is always the upload path. Every other text path of the schema (names, contact, `dob`, address, category and the nine category-specific fields) is the body's field of that name, unset when the body lacks it. `createdAt` is the body's value when present, otherwise the clock. `_id` is the body's value when present, otherwise a generated identity. |
| Registrations.RegisteredKeepsBody | server.js:92-103 | A stored record holds every text path other than `photo` exactly as the form sent it. |
| Registrations.StudentRoundTrip | server.js:97-103 | A stored student's category, degree and institution come back as entered. |
| Registrations.SchemaReportsEveryMissingField | server.js:59-68 | Every required path (`firstName`, `lastName`, `mobile`, `email`, `dob`, `address`, `photo`, `whoareyou`) is reported exactly when its value is unset or empty. All violations are reported together. |
| Registrations.RequiredAmongErrors | server.js:59-68 | A `required` error names one of the eight required paths, and only when that path's value is unset or empty. |
| Registrations.SchemaAcceptsIff | server.js:59-86 | The schema reports no error exactly when all of these hold: every required path is non-empty; `dob` and any `createdAt` parse as dates; `whoareyou` is one of student, employee or business; and any body-supplied `_id` casts to an ObjectId. |
| Registrations.RegisteredPhotoIsUpload | server.js:92-100 | A stored record required an admitted file. Its `photo` is that file's stored path. |
| Registrations.BodyPhotoIgnored | server.js:97-100 | A `photo` field in the form body never changes the outcome of a submission. |
| Registrations.NoFileNoRecord | server.js:92-102 | A submission without a file is refused, and the refusal names the `photo` path. |
| Registrations.RefusedUploadNoRecord | server.js:45-56 | A refused upload produces no record, whatever the body holds, and the refusal carries the upload's reason. |
| Registrations.RegisteredRecordIsComplete | server.js:59-68 | Every stored record has all required paths set and non-empty, and a category from the enum. |
| Registrations.BodyCreatedAtKept | server.js:85-100 | A stored record's creation time is the body's `createdAt` whenever the body supplies one. |
| Registrations.BodyIdKept | server.js:97-103 | A stored record's identity is the body's `_id` whenever the body supplies one. |
| Registrations.BadIdRefused | server.js:97-103 | A body `_id` that is not 24 hexadecimal digits means no record is stored. When the upload was admitted, the refusal names the `_id` cast. |
| Export.OrDash | server.js:146-150 | `v \|\| '-'` is never empty. It is `-` for an unset or empty value, and otherwise the value itself. |
| Export.StudentDetailsAreSlots | server.js:145-146 | Student details are `Degree: <degree>, Institution: <institution>`, each value defaulting to `-`. |
| Export.EmployeeDetailsAreSlots | server.js:147-148 | Employee details list Degree, Profession, Company, Designation in that order, each defaulting to `-`. |
| Export.BusinessDetailsAreSlots | server.js:149-150 | Business details list Degree, Business Type, Business Name in that order, each defaulting to `-`. |
| Export.DetailsAreLabelledSlots | server.js:144-151 | The three templates are one rule: the category's labels in fixed order, each followed by `: ` and its value or `-`, joined by `, `. |
| Export.SlotsNeverBlank | server.js:144-151 | No details slot is ever empty. A slot shows `-` exactly when its field is unset, empty or itself `-`. |
| Export.DetailsEmptyIffUnknownCategory | server.js:144-151 | The details text is empty exactly when the category is not student, employee or business. |
| Export.BusinessNameOnly | server.js:149-150 | A business record with only a business name gives `Degree: -, Business Type: -, Business Name: <name>`. |
| Export.BuildRows | server.js:143-164 | The export loop yields one row per record, in the listed order. Each row holds the record's fields, the formatted date and the labelled details text. |
| Archive.StripTrailingSeparators | server.js:202 | `path.basename` first drops trailing separators: the result is a prefix that does not end in one. |
| Archive.StripRemovesOnlySeparators | server.js:202 | Everything the strip removes is a separator, so the kept prefix is the longest one that does not end in a separator. |
| Archive.AfterLastSeparator | server.js:202 | The last path component is a suffix of the path and contains no separator. |
| Archive.AfterLastSeparatorIsWholeComponent | server.js:202 | The component is the whole path, or a separator comes right before it: it is the entire last component. |
| Archive.BasenameOfJoin | server.js:202 | The base name of `<dir><sep><name>` is `name` when `name` is non-empty and has no separator. |
| Archive.EntryName | server.js:203 | An entry name starts with `<firstName>-<lastName>-` (unset names print as `undefined`), ends with the photo's base name, and has nothing in between. |
| Archive.EligibleIndices | server.js:200-201 | The contributing records, in increasing order, are exactly those with a non-empty photo whose file exists. |
| Archive.ArchivePlanExact | server.js:200-205 | The archive holds exactly one entry per contributing record, in record order. The k-th entry is the k-th such record's photo under its entry name. All other records are skipped. |
| Archive.AddPhotos | server.js:200-205 | The archive loop produces exactly that plan and never more entries than records. |
| Form.TrimStartSpec | public/script.js:90 | `trim` removes leading ECMAScript whitespace only: the result is a suffix that does not start with whitespace, and all that was removed is whitespace. |
| Form.TrimEndSpec | public/script.js:90 | The same at the other end: a prefix not ending in whitespace, with only whitespace removed. |
| Form.BlankIff | public/script.js:90 | `value.trim() === ''` holds exactly when the value is all whitespace. |
| Form.TrimmedEndsAreNotWhitespace | public/script.js:90 | A non-blank value trims to text that starts and ends with a non-whitespace character. |
| Form.IsValidEmailIff | public/script.js:116-119 | The email check holds exactly when the text splits as `<local>@<domain>.<tld>`, with all three parts non-empty and free of whitespace and `@`. The check itself reads: no whitespace, exactly one `@`, a non-empty local part, and a `.` after the `@` that is neither the first nor the last character there. |
| Form.EmailExamples | public/script.js:116-119 | `a@x.com` passes. `a@x`, the empty text and `@x.com` fail. |
| Form.StripSeparators | public/script.js:123 | Removing `-`, space and `+` leaves no such character and never lengthens the text. |
| Form.StripConcat | public/script.js:123 | Separator removal distributes over concatenation. |
| Form.InsertSeparatorInvariant | public/script.js:121-124 | Inserting a `-`, space or `+` anywhere never changes whether a mobile number is valid. |
| Form.StripIdempotent | public/script.js:121-124 | Checking an already stripped number gives the same verdict as checking the original. |
| Form.HighlightError | public/script.js:126-140 | The field gets the error class and exactly one message right after it: an existing message is reused with the new text, otherwise one is inserted. Nothing else about the field changes. |
| Form.RemoveError | public/script.js:142-150 | The error class is removed, and so is a message element directly after the field. Nothing else changes. |
| Form.HighlightTwice | public/script.js:130-139 | Highlighting twice equals highlighting once with the later message: the text is replaced, not duplicated. |
| Form.RemoveAfterHighlight | public/script.js:126-150 | Removing an error right after highlighting leaves the field as removing alone would. |
| Form.MessagesStaySingle | public/script.js:126-150 | With at most one message after a field, highlighting and removing keep it that way, and removing leaves none. |
| Form.FindById | public/script.js:99-106 | `getElementById` finds the first control with the id, or reports that none has it. |
| Form.SweepOne | public/script.js:89-96 | A required field is marked with the error class exactly when its value is blank. Fields that are not required are untouched. |
| Form.ValidatedSteps | public/script.js:85-113 | Validation is the required-field sweep, then the email format check, then the mobile format check, each on the result of the previous step. |
| Form.EveryBlankRequiredFieldFlagged | public/script.js:89-96 | Every blank required field ends up marked and followed by an error message, even after an earlier field failed. |
| Form.EmptyContactOnlyRequired | public/script.js:98-110 | An empty required email or mobile gets the "This field is required" message only, never a format message. |
| Form.BlankEmailGetsFormatMessage | public/script.js:89-103 | A required email of one space ends up showing the format message. |
| Form.AcceptsIffNoRequiredFieldMarked | public/script.js:85-113 | When the email and mobile fields are required, as the form marks them, the form is accepted exactly when no required field ends up marked as an error. |
| Form.CategoryGroupsExclusive | public/script.js:12-37 | After choosing a category, exactly that category's detail fields are required and the other two groups' fields are not. |
| Form.CategoryChangeIdempotent | public/script.js:12-37 | Choosing the same category twice has the effect of choosing it once. |
| Form.Initial | public/script.js:165-166 | At start-up, no employee or business field is required. |
| Form.RegistrationForm.constructor | public/script.js:164-166 | The page starts with the start-up requirement applied. |
| Form.RegistrationForm.ResetFieldsRequirement | public/script.js:153-162 | The loop sets or clears `required` on every control of the group and on nothing else. |
| Form.RegistrationForm.OnCategoryChange | public/script.js:12-37 | All groups are hidden first. Then only the chosen category's group is shown and required, and the others are not required. An unknown value shows nothing. |
| Form.RegistrationForm.CheckRequiredFields | public/script.js:86-96 | The sweep marks every required field and reports whether all of them were filled. It does not stop at the first failure. |
| Form.RegistrationForm.ValidateForm | public/script.js:85-113 | The result is true exactly when the form passes every check. The controls afterwards carry exactly the messages that validation produces. |
| Admin.GetFindsEntry | public/admin-script.js:68 | `reg[key]` is `undefined` for an absent key; a defined value comes from an entry with that key. |
| Admin.Keys | public/admin-script.js:50 | `Object.keys` lists the record's keys in order. |
| Admin.JsString | public/admin-script.js:79-103 | A string prints as itself, `undefined` as `undefined` and `null` as `null`. |
| Admin.KeepAgreesWithSpec | public/admin-script.js:101-109 | A record is kept exactly when the lower-cased term is in the lower-cased name text, the email or the category, and the filter is empty or equals the category. |
| Admin.FilterMeetsSpec | public/admin-script.js:101-110 | When filtering completes, its result is that selection from the full set. |
| Admin.FilterDefinedOnWellFormed | public/admin-script.js:101-110 | Filtering never throws when every record's email and category are strings. |
| Admin.FilterThrowsOnMissingEmail | public/admin-script.js:102-105 | It throws when some record's name misses the term and its email is not a string. |
| Admin.SpecFilterIsOrderedSelection | public/admin-script.js:101 | The result is an order-preserving subsequence of the fetched records. A record is in it exactly when it is in the set and passes the filter. |
| Admin.FilterKeepsAllKept | public/admin-script.js:101-110 | When every record passes, the whole set is returned unchanged. |
| Admin.FilterResultIsKept | public/admin-script.js:101-110 | Every record in a filter result passes the filter. |
| Admin.FilterIdempotent | public/admin-script.js:97-113 | Filtering a filter result again changes nothing. |
| Admin.EmptySearchKeepsAll | public/admin-script.js:103-107 | An empty search with no category filter keeps every record. |
| Admin.RewriteWithoutMatch | public/admin-script.js:71 | With no `\uploads\` on the first line the path is unchanged. |
| Admin.RewriteIsGreedyMatch | public/admin-script.js:71 | When the pattern matches, the path up to and including the last `\uploads\` on the first line becomes `uploads/`, the effect of a greedy `^.*` that does not cross line terminators. |
| Admin.RewriteWindowsUpload | public/admin-script.js:71 | A path `<dir>\uploads\<name>` becomes `uploads/<name>` for a one-line `dir` and a `name` without `\`. |
| Admin.ScriptRewriteKeepsPosixPath | public/admin-script.js:71 | A path without any `\` is left whole by the script's rewrite. |
| Admin.PortableRewriteUpload | public/admin-script.js:71 | The intended rewrite maps `<dir><sep>uploads<sep><name>` to `uploads/<name>` for `sep` either `/` or `\`. |
| Admin.PortableAgreesWithoutSlash | public/admin-script.js:71 | On a path without `/` the intended rewrite and the script's agree. |
| Admin.PhotoFilePath | public/admin-script.js:71 | A falsy photo shows `profilePhoto.png`, and a non-empty string is rewritten. A truthy non-string throws. |
| Admin.CellFor | public/admin-script.js:66-88 | Every key other than `photo` gives a text cell. A falsy value shows `-`. A truthy `dob` or `createdAt` shows its locale date, and any other truthy value shows as its string. The photo cell exists exactly when the photo path can be computed, and then links `/` followed by that path, with the script's alt text. |
| Admin.PhotoCellOf | public/admin-script.js:70-80 | A non-empty photo path gives a thumbnail linked to `/` plus the rewritten path, with the name-based alt text. |
| Admin.TextCellsNeverBlank | public/admin-script.js:86-87 | A text cell is never blank. It shows `-` exactly when the value is falsy or is itself `-`. |
| Admin.SpaceBeforeUpperSpaced | public/admin-script.js:56 | After the split, the text does not start with a capital, and every capital follows a space. |
| Admin.SpaceBeforeUpperRoundTrip | public/admin-script.js:56 | Removing the inserted spaces gives back the key: the split loses nothing. |
| Admin.SpaceBeforeUpperLength | public/admin-script.js:56 | The split adds one character per capital letter. |
| Admin.CapitalizeFirstLetter | public/admin-script.js:115-117 | Only the first character is upper-cased; the length and the rest are kept. |
| Admin.SpaceBeforeOneCapital | public/admin-script.js:56 | A key with one capital gets exactly one space, before that capital. |
| Admin.SpaceBeforeUpperPlain | public/admin-script.js:56 | A prefix without capitals passes through the split unchanged. |
| Admin.SpaceBeforeNoCapital | public/admin-script.js:56 | A key without capitals is left unchanged by the split. |
| Admin.CreatedAtLabel | public/admin-script.js:54-58 | `createdAt` is labelled `Created At`. |
| Admin.OneCapitalLabel | public/admin-script.js:115-117 | A camel-case key with one capital is labelled with its first letter upper-cased and a space before the capital. |
| Admin.PlainKeyLabel | public/admin-script.js:54-58 | A key without capitals is labelled with its first letter upper-cased. |
| Admin.Labels | public/admin-script.js:54-58 | There is one label per header, in order. |
| Admin.MapOrThrowSpec | public/admin-script.js:63-94 | Each `forEach` that builds the table yields one result per element, in order, and throws exactly when one of its steps throws. |
| Admin.RowCellsSpec | public/admin-script.js:64-91 | A row has one cell per header, in order. It throws exactly when some cell does. |
| Admin.BodyRowsSpec | public/admin-script.js:63-94 | The body has one row per record, in order. It throws exactly when some row does. |
| Admin.BuildHeaderLabels | public/admin-script.js:54-58 | The header loop produces exactly the labels. |
| Admin.BuildRow | public/admin-script.js:64-91 | The cell loop produces exactly the row, or stops at the first cell that throws. |
| Admin.MapBeforeThrowSpec | public/admin-script.js:63-94 | When a `forEach` step throws, the results already produced are those of the steps before it, one per step and in order. When none throws they are the whole result. |
| Admin.DrawnRowsSpec | public/admin-script.js:63-94 | The rows on screen are those of the records before the first record whose row throws, in order. Drawing throws exactly when such a record exists; otherwise the rows are the whole body. |
| Admin.BuildBody | public/admin-script.js:63-94 | The row loop leaves exactly the rows of the records before the first row that throws, and reports whether one threw. |
| Admin.RenderedInterrupted | public/admin-script.js:49-94 | A drawing that throws has already replaced the header row. The body holds the rows of the records before the one that threw. |
| Admin.RenderedShape | public/admin-script.js:39-95 | A non-empty list whose photos are strings or falsy draws a full table without throwing: one header per key of the first record, and one row per record. |
| Admin.ScriptSearchNameOfStoredRecord | public/admin-script.js:79-103 | For a record sent with camel-case names, the script's search text (line 103) is `undefined  undefined` and its alt text (line 79) is `undefined undefined`. |
| Admin.ScriptKeysMissAnn | public/admin-script.js:101-109 | With the script's keys, the record of Ann Lee is not kept for the search `ann`. |
| Admin.ScriptKeysMissName | public/admin-script.js:101-110 | With the script's keys, searching `ann` over [Ann Lee, Bob Roy] finds nobody. |
| Admin.ScriptKeysFindUndefined | public/admin-script.js:103 | With the script's keys, the search `undefined` keeps any record lacking `first_name`. |
| Admin.ScriptKeysMatchUndefined | public/admin-script.js:101-110 | With the script's keys, the search `undefined` keeps every record the server sends. |
| Admin.StoredKeysFindFirstName | public/admin-script.js:103 | Reading the stored keys, a record whose first name contains the term is kept. |
| Admin.StoredKeysFindAnnRecord | public/admin-script.js:101-109 | Reading the stored keys, Ann Lee's record is kept for `ann`. |
| Admin.StoredKeysFindAnn | public/admin-script.js:101-110 | Reading the stored keys, searching `ann` over [Ann Lee, Bob Roy] finds exactly Ann. |
| Admin.NobodyElseIsAnn | public/admin-script.js:101-109 | Under either reading, Bob Roy's record is not kept for `ann`. |
| Admin.CategoryFilterPicksBob | public/admin-script.js:107 | The category filter `employee` alone selects exactly Bob, whichever keys are read. |
| Admin.AdminView.constructor | public/admin-script.js:15 | The page starts with no records, no header row drawn, a loading body and the filters disabled. |
| Admin.AdminView.RenderRegistrations | public/admin-script.js:39-95 | The header row and body become the drawing of the given records. An empty list keeps the old header row above the "No registration data found" body. A row that throws leaves the new header row and the rows drawn so far. The record set and the filter state are untouched. |
| Admin.AdminView.OnFetched | public/admin-script.js:17-36 | The fetched data becomes the full set and is drawn, and the filters are enabled. A drawing that throws ends in the `catch`: the header row it drew stays, the body becomes the error row, and the filters stay as they were. |
| Admin.AdminView.OnFetchFailed | public/admin-script.js:29-36 | A failed fetch replaces the body by the error row and changes nothing else, the header row included. |
| Admin.AdminView.FilterRegistrations | public/admin-script.js:97-113 | Filtering always starts from the full fetched set with the lower-cased term, and draws the result from the current header row. When the callback throws, the header row and body are left as they were; the record set never changes. |
| Pipeline.StoredNameHasNoChar | server.js:40-41 | A stored name contains a character other than a digit or `-` only if the original name does. |
| Pipeline.RegisteredPhoto | server.js:92-100 | A stored record's photo is its upload's stored path, which is never empty. |
| Pipeline.ArchiveEntryOfUpload | server.js:200-205 | The zip entry of a stored record is `<firstName>-<lastName>-<timestamp>-<suffix>-<original name>`. |
| Pipeline.ScriptLinkOnWindows | public/admin-script.js:70-73 | On Windows, the script links a stored photo at `/uploads/<stored name>`, the route the server serves uploads under. |
| Pipeline.ScriptLinkOnPosix | public/admin-script.js:70-73 | On a POSIX server, the script links a stored photo at `/` followed by its absolute path, which starts with `//`. |
| Pipeline.CorrectedLinkIsServed | public/admin-script.js:70-73 | With the intended rewrite, the link is `/uploads/<stored name>` on either platform. |

## Left out

- HTTP routing, CORS, static serving and the server start-up. These are framework plumbing.
- The database connection, the write itself and the listing query. The model takes the listed records as input, in the order the store returns them.
- Multer's disk writes, creating the uploads directory, and `fs.existsSync`. File existence is a predicate parameter.
- `Date.now()`, `Math.random()` and `__dirname`. They are parameters, as is the platform separator set of `path.basename`.
- Windows drive letters and UNC prefixes in `path.basename`.
- Spreadsheet styling and serialisation, including the worksheet's column captions and widths (server.js:130-140), and zip compression and streaming. The rows and the entry list are modelled; a row's fields are in column order.
- `toLocaleDateString` and Mongoose's Date cast. Both depend on the locale or on a date parser, so both are parameters.
- Full Unicode case mapping. `toLowerCase`/`toUpperCase` are modelled on ASCII letters only.
- Numbers in records other than integers, and duplicate keys in JSON.
- The photo preview, form submission through `fetch`, the alerts, the modals and the export/download buttons. These are UI and asynchronous I/O.
- Hiding and showing groups is modelled as the set of shown groups, not as CSS.
- The regular expressions are restated as string predicates. `Form.IsValidEmailIff` and `Admin.RewriteWithoutMatch` with `Admin.RewriteIsGreedyMatch` prove those predicates match the patterns.
- Admin.AdminView.constructor: the dashboard's HTML markup is not part of this model, so the header row is taken to start empty and the body to start as the loading state.
- Registrations.BuildRecord: the version key `__v`, which the body can also set through the spread, is not modelled. A `__v` that does not cast to a number would make the save fail as well.
- Registrations.SchemaAcceptsIff: the `__v` cast is not part of the equivalence, and an ObjectId is taken to be its 24-hexadecimal-digit text form. Other forms some BSON versions accept, such as a 12-character string, are not modelled.
- Upload.Receive: states only that a suffix of at most 10^9 exists. `Registrations.RegisteredPhotoIsUpload` names the actual suffix.

## Findings

| source | as written | input that shows it | evidently intended | confidence | as-written member | corrected member |
|---|---|---|---|---|---|---|
| public/admin-script.js:79, 103 | The search text and the photo alt text read `first_name`, `middle_name` and `last_name`. The server stores and sends `firstName`, `middleName` and `lastName` (server.js:60-62). | Records of Ann Lee and Bob Roy as the server sends them, search `ann`: nobody is found. The search `undefined` matches every record. | Names read from the keys the server sends, so `ann` finds exactly Ann Lee. | high, not executed | Admin.ScriptKeysMissName | Admin.StoredKeysFindAnn |
| public/admin-script.js:71 | Only a path containing `\uploads\` is rewritten. | On a POSIX server with root `/srv/app`, the stored path `/srv/app/uploads/1-2-me.png` is kept whole, so the link is `//srv/app/uploads/1-2-me.png`, a link to another host. | Either separator normalised, giving the link `/uploads/1-2-me.png` on every platform. | medium, not executed | Pipeline.ScriptLinkOnPosix | Pipeline.CorrectedLinkIsServed |

The dashboard model is parametric in `Admin.Reading`. `Admin.ScriptReading`
is the script as written. `Admin.CorrectedReading` reads the stored name keys
and uses `Admin.PortableRewritePhotoPath`.

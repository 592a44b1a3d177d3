# Barangayan EMS core in Dafny

Barangayan EMS is a desktop application for a barangay (a Philippine
village-level government office). Residents sign up and sign in, file
document requests (clearances, certificates, permits), file blotter reports
(incident complaints), and leave feedback. Staff list, search, update and
delete those records. The data lives in a SQLite database behind four
repositories; the forms validate input before anything reaches them.

This project models that core as pure Dafny functions over immutable values
and proves what the code promises:

- **Data access.** Each table is a sequence of rows in insertion order; SQLite's
  row id is a parameter.
  - `UserRepository`: email normalisation, sign-up with its three refusals, and
    sign-in.
  - `FeedbackRepository`: an append-only log with a newest-first, limited listing.
  - `DocumentRequestRepository`: `REQ-nnnn` numbering, lookup, detail and status
    updates, and deletion.
  - `BlotterRepository`: `BL-nnnn` numbering, listing and deletion.

  The round trips are proved: insert then read back, update then look up,
  delete then miss.
- **`PasswordHasher`.** Salted PBKDF2 hashing and constant-time comparison. The
  key derivation and Base64 coding are function parameters, and their
  well-behavedness is a stated assumption.
- **The forms.**
  - Sign-up (`CreateAccountForm`) and feedback (`FeedbackForm`).
  - Blotter filing (`SubmitBlotterForm`) and the demo blotter list
    (`BlotterReportForm`).
  - The document request listing and entry dialogs (`DocumentRequestForms`).
  - The dashboard's sidebar navigation (`DashboardNavigation`).

  Validation messages come in their order. Placeholders are never read as
  input. Filters keep exactly the matching items, in order. Navigation keeps
  at most one panel active, and exactly one after a click on a registered
  panel.

Supporting modules:

- `Text`: white space, `Trim`, lower-casing, search and numerals as .NET defines them.
- `Calendar`: dates and the two text forms the application writes.
- `Codes`: prefixed zero-padded identifiers.
- `Seqs`: filtering, mapping and sorting.
- `Wrappers`: `Option`.

Every file is verified together; there is no executable entry point.


## Model

| member | source | states |
|---|---|---|
| Text.Trim | Barangayan-Ralph-main/2/BarangayanEMS/BarangayanEMS/Data/UserRepository.cs:138 | `Trim` removes the leading and trailing white space and nothing else: the result is a slice of the input with blank text on both sides, it is trimmed, and it is empty exactly for blank input |
| Text.TrimIdempotent | Barangayan-Ralph-main/2/BarangayanEMS/BarangayanEMS/Data/UserRepository.cs:138 | trimming twice is trimming once |
| Text.TrimPadding | Barangayan-Ralph-main/2/BarangayanEMS/BarangayanEMS/Data/UserRepository.cs:136-138 | white space added around a string does not change its trimmed form or its blankness |
| Text.ToLower | Barangayan-Ralph-main/2/BarangayanEMS/BarangayanEMS/Data/UserRepository.cs:138 | `ToLowerInvariant` maps each character on its own and keeps the length |
| Text.ToLowerOfTrim | Barangayan-Ralph-main/2/BarangayanEMS/BarangayanEMS/Data/UserRepository.cs:138 | lower-casing and trimming commute |
| Text.IndexOf | Barangayan-Ralph-main/2/BarangayanEMS/BarangayanEMS/Blotter/BlotterReportForm.cs:165-167 | `IndexOf` is -1 exactly when the text does not occur, and otherwise the first position where it occurs |
| Text.ParseFormatNumber | Barangayan-Ralph-main/2/BarangayanEMS/BarangayanEMS/Data/DocumentRequestRepository.cs:106 | a number written with `D4` zero padding reads back as the same number |
| Text.DecimalDigitsLength | Barangayan-Ralph-main/2/BarangayanEMS/BarangayanEMS/Data/DocumentRequestRepository.cs:106 | a number's decimal form fits in w digits exactly when it is below 10^w |
| Text.FormatNumberWidth | Barangayan-Ralph-main/2/BarangayanEMS/BarangayanEMS/Data/DocumentRequestRepository.cs:106 | zero padding to width w gives exactly w characters for numbers below 10^w |
| Calendar.DatePart | Barangayan-Ralph-main/2/BarangayanEMS/BarangayanEMS/Blotter/SubmitBlotterForm.cs:223 | `.Date` keeps the year, month and day and zeroes the time of day |
| Calendar.ParseFormatDate | Barangayan-Ralph-main/2/BarangayanEMS/BarangayanEMS/Data/BlotterRepo.cs:90 | a date written as `yyyy-MM-dd` parses back to that day at midnight |
| Calendar.ParseFormatTimestamp | Barangayan-Ralph-main/2/BarangayanEMS/BarangayanEMS/Data/FeedbackRepository.cs:53 | a time written as `yyyy-MM-dd HH:mm:ss` parses back to the same time |
| Codes.FormatCode | Barangayan-Ralph-main/2/BarangayanEMS/BarangayanEMS/Data/BlotterRepo.cs:76 | a code is its prefix followed by only digits, at least four of them, and exactly four, zero-padded, below 10000 |
| Codes.CodeNumberOfFormat | Barangayan-Ralph-main/2/BarangayanEMS/BarangayanEMS/Data/BlotterRepo.cs:76 | the number is recovered from the formatted code, so distinct numbers give distinct codes |
| PasswordHasher.ConstantTimeEquals | Barangayan-Ralph-main/2/BarangayanEMS/BarangayanEMS/Data/PasswordHasher.cs:39-53 | the length check followed by OR-ing the byte XORs is zero exactly when the two arrays are equal |
| PasswordHasher.AccumulateZero | Barangayan-Ralph-main/2/BarangayanEMS/BarangayanEMS/Data/PasswordHasher.cs:46-52 | the OR of the XORs over the first n bytes is zero exactly when the first n bytes agree |
| PasswordHasher.AreEqual | Barangayan-Ralph-main/2/BarangayanEMS/BarangayanEMS/Data/PasswordHasher.cs:39-53 | the loop returns true exactly when the arrays are equal, and for equal lengths it visits every byte (no early exit) |
| PasswordHasher.HashWithSalt | Barangayan-Ralph-main/2/BarangayanEMS/BarangayanEMS/Data/PasswordHasher.cs:30-37 | hashing fails exactly when the salt is not Base64; otherwise the result is the Base64 of the 32-byte PBKDF2 key (100000 iterations) of the password over the decoded salt |
| PasswordHasher.HashPassword | Barangayan-Ralph-main/2/BarangayanEMS/BarangayanEMS/Data/PasswordHasher.cs:12-22 | the salt returned is the Base64 of the 16 random bytes, and the hash decodes to the 32-byte key derived from the password and those bytes |
| PasswordHasher.Verify | Barangayan-Ralph-main/2/BarangayanEMS/BarangayanEMS/Data/PasswordHasher.cs:24-28 | verification fails only when the salt or the hash is not Base64, and otherwise says whether the re-derived key equals the stored one |
| PasswordHasher.HashThenVerify | Barangayan-Ralph-main/2/BarangayanEMS/BarangayanEMS/Data/PasswordHasher.cs:12-28 | a password always verifies against the hash and salt produced for it |
| PasswordHasher.VerifyRejectsOtherKey | Barangayan-Ralph-main/2/BarangayanEMS/BarangayanEMS/Data/PasswordHasher.cs:24-28 | a password whose derived key differs from the stored one is rejected |
| UserRepository.NormalizeEmail | Barangayan-Ralph-main/2/BarangayanEMS/BarangayanEMS/Data/UserRepository.cs:134-139 | the normal form is empty exactly for a null or blank address; otherwise it is trimmed and has no upper-case letters |
| UserRepository.NormalizeEmailIdempotent | Barangayan-Ralph-main/2/BarangayanEMS/BarangayanEMS/Data/UserRepository.cs:134-139 | normalising a normalised address changes nothing |
| UserRepository.NormalizeEmailByTrim | Barangayan-Ralph-main/2/BarangayanEMS/BarangayanEMS/Data/UserRepository.cs:134-139 | addresses with the same trimmed text normalise alike |
| UserRepository.NormalizeEmailOfTrim | Barangayan-Ralph-main/2/BarangayanEMS/BarangayanEMS/Data/UserRepository.cs:134-139 | trimming before normalising changes nothing |
| UserRepository.NormalizeEmailIgnoresPadding | Barangayan-Ralph-main/2/BarangayanEMS/BarangayanEMS/Data/UserRepository.cs:134-139 | white space around an address does not change its normal form |
| UserRepository.NormalizeEmailIgnoresCase | Barangayan-Ralph-main/2/BarangayanEMS/BarangayanEMS/Data/UserRepository.cs:134-139 | an address and its lower-cased form normalise alike |
| UserRepository.NormalizeEmailIgnoresCaseAndPadding | Barangayan-Ralph-main/2/BarangayanEMS/BarangayanEMS/Data/UserRepository.cs:134-139 | case and surrounding white space together do not change the normal form |
| UserRepository.EmailExists | Barangayan-Ralph-main/2/BarangayanEMS/BarangayanEMS/Data/UserRepository.cs:72-85 | true exactly when some stored row has that email |
| UserRepository.SelectByEmail | Barangayan-Ralph-main/2/BarangayanEMS/BarangayanEMS/Data/UserRepository.cs:100-113 | a row is found exactly when one has the email; the row returned has it, and in a valid table it is the only one |
| UserRepository.MapUser | Barangayan-Ralph-main/2/BarangayanEMS/BarangayanEMS/Data/UserRepository.cs:118-132 | every column is copied; `CreatedAt` is the parsed stored time, or the current UTC time when it does not parse |
| UserRepository.GetByEmail | Barangayan-Ralph-main/2/BarangayanEMS/BarangayanEMS/Data/UserRepository.cs:87-116 | nothing for a blank address; otherwise a user is found exactly when the normalised address is stored, and it carries that address |
| UserRepository.InsertRow | Barangayan-Ralph-main/2/BarangayanEMS/BarangayanEMS/Data/DatabaseBootstrapper.cs:57-65 | the `UNIQUE` email column refuses a second row with the same email; otherwise the row is appended and nothing else changes |
| UserRepository.InsertRowKeepsValid | Barangayan-Ralph-main/2/BarangayanEMS/BarangayanEMS/Data/DatabaseBootstrapper.cs:57-65 | appending a row with a fresh id keeps ids and emails unique |
| UserRepository.TryCreateUser | Barangayan-Ralph-main/2/BarangayanEMS/BarangayanEMS/Data/UserRepository.cs:11-53 | the three refusals in order (a missing name, then a blank address, then a stored address); otherwise exactly one row is appended with trimmed names, the normalised email and the new hash and salt |
| UserRepository.CreateNormalized | Barangayan-Ralph-main/2/BarangayanEMS/BarangayanEMS/Data/UserRepository.cs:13-53 | the same decision, stated over the already normalised inputs |
| UserRepository.CreateDependsOnNormalized | Barangayan-Ralph-main/2/BarangayanEMS/BarangayanEMS/Data/UserRepository.cs:11-53 | the outcome depends only on the names' blankness and trimmed text and on the normalised email |
| UserRepository.CreateKeepsValid | Barangayan-Ralph-main/2/BarangayanEMS/BarangayanEMS/Data/UserRepository.cs:11-53 | a successful sign-up keeps the table valid |
| UserRepository.TryAuthenticate | Barangayan-Ralph-main/2/BarangayanEMS/BarangayanEMS/Data/UserRepository.cs:55-70 | signs in, with the stored user, exactly when a user has the address and the password verifies against its hash and salt; denied exactly when no user has the address or the password does not verify; faulted exactly when the stored hash or salt cannot be decoded |
| UserRepository.FoundByAddress | Barangayan-Ralph-main/2/BarangayanEMS/BarangayanEMS/Data/UserRepository.cs:87-116 | any spelling that normalises to a stored address finds that row |
| UserRepository.CreatedRowIsFound | Barangayan-Ralph-main/2/BarangayanEMS/BarangayanEMS/Data/UserRepository.cs:87-116 | a new row is found by its address typed in other case and with white space around it |
| UserRepository.CreatedRow | Barangayan-Ralph-main/2/BarangayanEMS/BarangayanEMS/Data/UserRepository.cs:33-53 | the row a successful sign-up appends: its id, trimmed names, normalised non-empty email, creation time, and a hash the password verifies against |
| UserRepository.CreateThenAuthenticate | Barangayan-Ralph-main/2/BarangayanEMS/BarangayanEMS/Data/UserRepository.cs:11-70 | signing up and then signing in with the same address and password succeeds and returns the new user |
| UserRepository.DuplicateEmailRejected | Barangayan-Ralph-main/2/BarangayanEMS/BarangayanEMS/Data/UserRepository.cs:27-31 | a second sign-up with the same address, in any case and padding, is refused as taken |
| UserRepository.WrongPasswordDenied | Barangayan-Ralph-main/2/BarangayanEMS/BarangayanEMS/Data/UserRepository.cs:55-70 | after signing up, a password with a different derived key is denied |
| FeedbackRepository.EnsureTable | Barangayan-Ralph-main/2/BarangayanEMS/BarangayanEMS/Data/FeedbackRepository.cs:23-40 | `CREATE TABLE IF NOT EXISTS`: an existing table is kept as it is, a missing one is created empty |
| FeedbackRepository.EnsureTableIdempotent | Barangayan-Ralph-main/2/BarangayanEMS/BarangayanEMS/Data/FeedbackRepository.cs:18-40 | constructing the repository twice changes nothing |
| FeedbackRepository.NewRow | Barangayan-Ralph-main/2/BarangayanEMS/BarangayanEMS/Data/FeedbackRepository.cs:49-54 | the row stores the type or `General`, the message or empty, the user name or empty, and a UTC time that parses back |
| FeedbackRepository.Insert | Barangayan-Ralph-main/2/BarangayanEMS/BarangayanEMS/Data/FeedbackRepository.cs:42-58 | exactly one row is appended and the earlier rows are unchanged |
| FeedbackRepository.InsertKeepsValid | Barangayan-Ralph-main/2/BarangayanEMS/BarangayanEMS/Data/FeedbackRepository.cs:42-58 | an insert with a fresh id keeps ids unique |
| FeedbackRepository.MapRow | Barangayan-Ralph-main/2/BarangayanEMS/BarangayanEMS/Data/FeedbackRepository.cs:74-81 | columns are copied, a null user name reads as empty, and an unparsable time reads as the current UTC time |
| FeedbackRepository.MapRows | Barangayan-Ralph-main/2/BarangayanEMS/BarangayanEMS/Data/FeedbackRepository.cs:72-82 | every row is read, in order |
| FeedbackRepository.LimitLength | Barangayan-Ralph-main/2/BarangayanEMS/BarangayanEMS/Data/FeedbackRepository.cs:68-69 | SQLite `LIMIT`: a negative count means no limit, otherwise at most count rows |
| FeedbackRepository.Listing | Barangayan-Ralph-main/2/BarangayanEMS/BarangayanEMS/Data/FeedbackRepository.cs:68 | `ORDER BY Id DESC`: all rows, by descending id |
| FeedbackRepository.GetLatest | Barangayan-Ralph-main/2/BarangayanEMS/BarangayanEMS/Data/FeedbackRepository.cs:60-87 | the listing cut to the limit: newest first, only stored rows, and every row newer than a listed one is listed too |
| FeedbackRepository.DefaultListsFifty | Barangayan-Ralph-main/2/BarangayanEMS/BarangayanEMS/Data/FeedbackRepository.cs:60 | with the default count, fifty entries when there are that many, otherwise all of them |
| FeedbackRepository.NewestHeadsListing | Barangayan-Ralph-main/2/BarangayanEMS/BarangayanEMS/Data/FeedbackRepository.cs:68 | the most recently inserted row comes first |
| FeedbackRepository.LatestHead | Barangayan-Ralph-main/2/BarangayanEMS/BarangayanEMS/Data/FeedbackRepository.cs:60-87 | any non-zero count lists the newest row first |
| FeedbackRepository.InsertThenGetLatest | Barangayan-Ralph-main/2/BarangayanEMS/BarangayanEMS/Data/FeedbackRepository.cs:42-87 | after an insert, the latest entry is the one just inserted |
| FeedbackRepository.LatestPrefix | Barangayan-Ralph-main/2/BarangayanEMS/BarangayanEMS/Data/FeedbackRepository.cs:60-87 | a smaller count lists a prefix of what a larger count lists |
| FeedbackRepository.NewerInPrefix | Barangayan-Ralph-main/2/BarangayanEMS/BarangayanEMS/Data/FeedbackRepository.cs:68 | in a list sorted by descending id, anything newer than an entry of a prefix is in that prefix |
| DocumentRequestRepository.ParseInt32Or | Barangayan-Ralph-main/2/BarangayanEMS/BarangayanEMS/Data/DocumentRequestRepository.cs:50 | `int.TryParse` with fallback: the value `TryParseInt32` reads (white space around, an optional sign, digits, within Int32), otherwise the fallback; a plain numeral within Int32 reads as itself |
| DocumentRequestRepository.ParseInt32OrSignedPadded | Barangayan-Ralph-main/2/BarangayanEMS/BarangayanEMS/Data/DocumentRequestRepository.cs:50 | a minus sign and digits with white space around read back as the negative number when it fits in Int32, otherwise the fallback |
| Text.TryParseInt32 | Barangayan-Ralph-main/2/BarangayanEMS/BarangayanEMS/Data/DocumentRequestRepository.cs:50 | `int.TryParse` under `NumberStyles.Integer`: any value it reads lies within Int32, and a plain numeral reads as its value exactly when that value fits |
| Text.TryParseSigned | Barangayan-Ralph-main/2/BarangayanEMS/BarangayanEMS/Data/DocumentRequestRepository.cs:50 | `+` or `-` followed by a numeral reads as the signed value when it fits in Int32, and fails otherwise |
| Text.TryParsePadding | Barangayan-Ralph-main/2/BarangayanEMS/BarangayanEMS/Data/DocumentRequestRepository.cs:50 | white space (tab to carriage return, and space) around the text does not change what is read |
| Text.NumberCorePadding | Barangayan-Ralph-main/2/BarangayanEMS/BarangayanEMS/Data/DocumentRequestRepository.cs:50 | the white space `int.TryParse` skips can be added around a text without changing the part it reads |
| DocumentRequestRepository.FormatRequestId | Barangayan-Ralph-main/2/BarangayanEMS/BarangayanEMS/Data/DocumentRequestRepository.cs:106 | request ids are `REQ-` followed by at least four digits, and are exactly eight characters below 10000 |
| DocumentRequestRepository.RequestNumberOfFormat | Barangayan-Ralph-main/2/BarangayanEMS/BarangayanEMS/Data/DocumentRequestRepository.cs:102-106 | the number is recovered from the request id, so distinct numbers give distinct ids |
| DocumentRequestRepository.ValidUniqueRequestIds | Barangayan-Ralph-main/2/BarangayanEMS/BarangayanEMS/Data/DocumentRequestRepository.cs:102-106 | in a valid table no two rows share a request id |
| DocumentRequestRepository.MapRow | Barangayan-Ralph-main/2/BarangayanEMS/BarangayanEMS/Data/DocumentRequestRepository.cs:39-52 | the id, request id and status are copied; an unparsable filing date reads as today, a missing pickup date as none, and unparsable copies as 1 |
| DocumentRequestRepository.MapRows | Barangayan-Ralph-main/2/BarangayanEMS/BarangayanEMS/Data/DocumentRequestRepository.cs:37-53 | every row is read, in order |
| DocumentRequestRepository.GetAll | Barangayan-Ralph-main/2/BarangayanEMS/BarangayanEMS/Data/DocumentRequestRepository.cs:24-58 | all rows, newest first, each read by `MapRow` |
| DocumentRequestRepository.ListedComesFromTable | Barangayan-Ralph-main/2/BarangayanEMS/BarangayanEMS/Data/DocumentRequestRepository.cs:24-58 | every listed request is some stored row |
| DocumentRequestRepository.TableRowIsListed | Barangayan-Ralph-main/2/BarangayanEMS/BarangayanEMS/Data/DocumentRequestRepository.cs:24-58 | every stored row is listed |
| DocumentRequestRepository.GetByRequestId | Barangayan-Ralph-main/2/BarangayanEMS/BarangayanEMS/Data/DocumentRequestRepository.cs:60-91 | nothing for a blank id; otherwise a request is found exactly when a row has that id, and it is that row |
| DocumentRequestRepository.FoundByRequestId | Barangayan-Ralph-main/2/BarangayanEMS/BarangayanEMS/Data/DocumentRequestRepository.cs:60-91 | every stored row is found by its own request id |
| DocumentRequestRepository.PickupText | Barangayan-Ralph-main/2/BarangayanEMS/BarangayanEMS/Data/DocumentRequestRepository.cs:121 | a pickup date is stored as its day and reads back as that day; a missing one is stored as NULL |
| DocumentRequestRepository.CopiesText | Barangayan-Ralph-main/2/BarangayanEMS/BarangayanEMS/Data/DocumentRequestRepository.cs:122 | the stored copies read back as the count, or 1 when the count is not positive |
| DocumentRequestRepository.NextNumber | Barangayan-Ralph-main/2/BarangayanEMS/BarangayanEMS/Data/DocumentRequestRepository.cs:100-105 | `IFNULL(MAX(Id),0)+1`: 1 on an empty table, otherwise one more than the largest id, so above every id |
| DocumentRequestRepository.NewRow | Barangayan-Ralph-main/2/BarangayanEMS/BarangayanEMS/Data/DocumentRequestRepository.cs:110-123 | the inserted row has the new request id, and `Pending` when the status is blank |
| DocumentRequestRepository.Insert | Barangayan-Ralph-main/2/BarangayanEMS/BarangayanEMS/Data/DocumentRequestRepository.cs:93-128 | exactly one row is appended; the returned id is `REQ-{n:D4}` of the next number |
| DocumentRequestRepository.FirstInsertIsOne | Barangayan-Ralph-main/2/BarangayanEMS/BarangayanEMS/Data/DocumentRequestRepository.cs:100-106 | the first request filed into an empty table is `REQ-0001` |
| DocumentRequestRepository.InsertAfterDenseIds | Barangayan-Ralph-main/2/BarangayanEMS/BarangayanEMS/Data/DocumentRequestRepository.cs:100-106 | while ids run 1..N the next request id is `REQ-` and the four-digit N+1, eight characters long below 9999 rows |
| DocumentRequestRepository.InsertedIdIsFresh | Barangayan-Ralph-main/2/BarangayanEMS/BarangayanEMS/Data/DocumentRequestRepository.cs:100-106 | the new request id differs from every stored one |
| DocumentRequestRepository.InsertKeepsValid | Barangayan-Ralph-main/2/BarangayanEMS/BarangayanEMS/Data/DocumentRequestRepository.cs:93-128 | an insert with a fresh row id keeps ids and request ids unique |
| DocumentRequestRepository.InsertThenGet | Barangayan-Ralph-main/2/BarangayanEMS/BarangayanEMS/Data/DocumentRequestRepository.cs:60-128 | the request just inserted is found by the returned id, with its fields as written |
| DocumentRequestRepository.Edited | Barangayan-Ralph-main/2/BarangayanEMS/BarangayanEMS/Data/DocumentRequestRepository.cs:138-153 | an update keeps the row's id, request id, filing date and status |
| DocumentRequestRepository.UpdateDetails | Barangayan-Ralph-main/2/BarangayanEMS/BarangayanEMS/Data/DocumentRequestRepository.cs:130-158 | nothing happens for a null record or a blank id; otherwise exactly the rows with that request id are rewritten and the rest are unchanged |
| DocumentRequestRepository.UpdateStatus | Barangayan-Ralph-main/2/BarangayanEMS/BarangayanEMS/Data/DocumentRequestRepository.cs:160-173 | only rows with that request id change, and only their status (`Pending` for null) |
| DocumentRequestRepository.Delete | Barangayan-Ralph-main/2/BarangayanEMS/BarangayanEMS/Data/DocumentRequestRepository.cs:175-187 | exactly the rows with that request id are removed and the rest keep their order |
| DocumentRequestRepository.UpdateDetailsKeepsValid | Barangayan-Ralph-main/2/BarangayanEMS/BarangayanEMS/Data/DocumentRequestRepository.cs:130-158 | updating details keeps the table valid |
| DocumentRequestRepository.UpdateStatusKeepsValid | Barangayan-Ralph-main/2/BarangayanEMS/BarangayanEMS/Data/DocumentRequestRepository.cs:160-173 | updating a status keeps the table valid |
| DocumentRequestRepository.FilterKeepsValid | Barangayan-Ralph-main/2/BarangayanEMS/BarangayanEMS/Data/DocumentRequestRepository.cs:182 | removing any rows keeps the table valid |
| DocumentRequestRepository.DeleteKeepsValid | Barangayan-Ralph-main/2/BarangayanEMS/BarangayanEMS/Data/DocumentRequestRepository.cs:175-187 | deleting keeps the table valid |
| DocumentRequestRepository.UpdateStatusThenGet | Barangayan-Ralph-main/2/BarangayanEMS/BarangayanEMS/Data/DocumentRequestRepository.cs:160-173 | after a status update, looking the id up gives the new status (`Pending` for null) |
| DocumentRequestRepository.UpdateStatusIdempotent | Barangayan-Ralph-main/2/BarangayanEMS/BarangayanEMS/Data/DocumentRequestRepository.cs:167-170 | applying the same status update twice is applying it once |
| DocumentRequestRepository.UpdateDetailsThenGet | Barangayan-Ralph-main/2/BarangayanEMS/BarangayanEMS/Data/DocumentRequestRepository.cs:130-158 | after an update, looking the id up gives the new details with the old status and filing date |
| DocumentRequestRepository.DeleteThenGet | Barangayan-Ralph-main/2/BarangayanEMS/BarangayanEMS/Data/DocumentRequestRepository.cs:175-187 | after deleting an id it is no longer found |
| BlotterRepository.FormatCaseNo | Barangayan-Ralph-main/2/BarangayanEMS/BarangayanEMS/Data/BlotterRepo.cs:76 | case numbers are `BL-` followed by at least four digits, and are exactly seven characters below 10000 |
| BlotterRepository.CaseNumber | Barangayan-Ralph-main/2/BarangayanEMS/BarangayanEMS/Data/BlotterRepo.cs:76 | a number is read only from text that starts with `BL-` |
| BlotterRepository.ValidUniqueCaseNos | Barangayan-Ralph-main/2/BarangayanEMS/BarangayanEMS/Data/BlotterRepo.cs:72-76 | in a valid table no two rows share a case number |
| BlotterRepository.MapRow | Barangayan-Ralph-main/2/BarangayanEMS/BarangayanEMS/Data/BlotterRepo.cs:42-54 | the id, case number and status are copied; unparsable incident and report dates read as today |
| BlotterRepository.MapRows | Barangayan-Ralph-main/2/BarangayanEMS/BarangayanEMS/Data/BlotterRepo.cs:40-55 | every row is read, in order |
| BlotterRepository.GetAll | Barangayan-Ralph-main/2/BarangayanEMS/BarangayanEMS/Data/BlotterRepo.cs:27-61 | all rows, newest first, each read by `MapRow` |
| BlotterRepository.ListedComesFromTable | Barangayan-Ralph-main/2/BarangayanEMS/BarangayanEMS/Data/BlotterRepo.cs:27-61 | every listed report is some stored row |
| BlotterRepository.TableRowIsListed | Barangayan-Ralph-main/2/BarangayanEMS/BarangayanEMS/Data/BlotterRepo.cs:27-61 | every stored row is listed |
| BlotterRepository.NextNumber | Barangayan-Ralph-main/2/BarangayanEMS/BarangayanEMS/Data/BlotterRepo.cs:72-75 | `IFNULL(MAX(Id),0)+1`: 1 on an empty table, otherwise one more than the largest id, so above every id |
| BlotterRepository.NewRow | Barangayan-Ralph-main/2/BarangayanEMS/BarangayanEMS/Data/BlotterRepo.cs:84-94 | the inserted row has the new case number, the incident's day, `Other` and `Low` for a missing type and priority, and `Pending` for a blank status |
| BlotterRepository.Insert | Barangayan-Ralph-main/2/BarangayanEMS/BarangayanEMS/Data/BlotterRepo.cs:63-99 | exactly one row is appended; the returned case number is `BL-{n:D4}` of the next number |
| BlotterRepository.FirstInsertIsOne | Barangayan-Ralph-main/2/BarangayanEMS/BarangayanEMS/Data/BlotterRepo.cs:72-76 | the first report filed into an empty table is `BL-0001` |
| BlotterRepository.InsertAfterDenseIds | Barangayan-Ralph-main/2/BarangayanEMS/BarangayanEMS/Data/BlotterRepo.cs:72-76 | while ids run 1..N the next case number is `BL-` and the four-digit N+1, seven characters long below 9999 rows |
| BlotterRepository.InsertedCaseNoIsFresh | Barangayan-Ralph-main/2/BarangayanEMS/BarangayanEMS/Data/BlotterRepo.cs:72-76 | the new case number differs from every stored one |
| BlotterRepository.InsertKeepsValid | Barangayan-Ralph-main/2/BarangayanEMS/BarangayanEMS/Data/BlotterRepo.cs:63-99 | an insert with a fresh row id keeps ids and case numbers unique |
| BlotterRepository.InsertThenGetAll | Barangayan-Ralph-main/2/BarangayanEMS/BarangayanEMS/Data/BlotterRepo.cs:27-99 | after an insert, the listing starts with the new report as written |
| BlotterRepository.NewestHeadsList | Barangayan-Ralph-main/2/BarangayanEMS/BarangayanEMS/Data/BlotterRepo.cs:35 | the most recently inserted row comes first |
| BlotterRepository.Delete | Barangayan-Ralph-main/2/BarangayanEMS/BarangayanEMS/Data/BlotterRepo.cs:101-113 | exactly the rows with that case number are removed and the rest keep their order |
| BlotterRepository.DeleteRemovesOne | Barangayan-Ralph-main/2/BarangayanEMS/BarangayanEMS/Data/BlotterRepo.cs:108-110 | in a valid table, deleting a stored case number removes exactly one row |
| CreateAccountForm.CreateClick | Barangayan-Ralph-main/2/BarangayanEMS/BarangayanEMS/CreateAccount/CreateAccountForm.cs:18-81 | the three form warnings in order (a blank field, then different passwords, then terms not accepted); then the account is created exactly when the repository accepts it, and otherwise its message is shown |
| CreateAccountForm.ShowOutcome | Barangayan-Ralph-main/2/BarangayanEMS/BarangayanEMS/CreateAccount/CreateAccountForm.cs:61-80 | success shows the grown table and a refusal shows the repository's own message |
| CreateAccountForm.TrimmedInputs | Barangayan-Ralph-main/2/BarangayanEMS/BarangayanEMS/CreateAccount/CreateAccountForm.cs:20-22 | trimming the inputs first, as the form does, does not change the repository's decision |
| CreateAccountForm.SignUpThenSignIn | Barangayan-Ralph-main/2/BarangayanEMS/BarangayanEMS/CreateAccount/CreateAccountForm.cs:18-81 | after the form creates an account, signing in with the typed address and password succeeds |
| FeedbackForm.DisplayName | Barangayan-Ralph-main/2/BarangayanEMS/BarangayanEMS/Feedback/FeedbackForm.cs:31 | `Resident` for a blank name, otherwise the name trimmed; never blank |
| FeedbackForm.DisplayNameIdempotent | Barangayan-Ralph-main/2/BarangayanEMS/BarangayanEMS/Feedback/FeedbackForm.cs:31 | reopening the dialog with the name it signed with keeps that name |
| FeedbackForm.GotFocus | Barangayan-Ralph-main/2/BarangayanEMS/BarangayanEMS/Feedback/FeedbackForm.cs:172-179 | a grey box is emptied and turns dark; a dark box is unchanged |
| FeedbackForm.LostFocus | Barangayan-Ralph-main/2/BarangayanEMS/BarangayanEMS/Feedback/FeedbackForm.cs:180-187 | a blank box shows the grey placeholder again; otherwise it is unchanged |
| FeedbackForm.Typed | Barangayan-Ralph-main/2/BarangayanEMS/BarangayanEMS/Feedback/FeedbackForm.cs:161-171 | typing into the focused box makes its text the input, in dark text |
| FeedbackForm.FocusRoundTrip | Barangayan-Ralph-main/2/BarangayanEMS/BarangayanEMS/Feedback/FeedbackForm.cs:170-187 | entering and leaving an untouched box puts the placeholder back |
| FeedbackForm.LeftBoxIsPlaceholderOrText | Barangayan-Ralph-main/2/BarangayanEMS/BarangayanEMS/Feedback/FeedbackForm.cs:180-187 | after losing the focus the box is grey or holds some non-blank text |
| FeedbackForm.MessageOf | Barangayan-Ralph-main/2/BarangayanEMS/BarangayanEMS/Feedback/FeedbackForm.cs:226 | empty while grey, otherwise the trimmed text; blank exactly when grey or the text is blank |
| FeedbackForm.PlaceholderIsNoMessage | Barangayan-Ralph-main/2/BarangayanEMS/BarangayanEMS/Feedback/FeedbackForm.cs:226 | the placeholder is never read as a message |
| FeedbackForm.SelectedType | Barangayan-Ralph-main/2/BarangayanEMS/BarangayanEMS/Feedback/FeedbackForm.cs:225 | no type while the prompt item is selected; otherwise the selected item, which is not blank |
| FeedbackForm.Submit | Barangayan-Ralph-main/2/BarangayanEMS/BarangayanEMS/Feedback/FeedbackForm.cs:223-252 | the type is checked first, then the message; it saves exactly when both are present and the store does not fail, and then appends the type, trimmed message and display name |
| FeedbackForm.SubmitThenLatest | Barangayan-Ralph-main/2/BarangayanEMS/BarangayanEMS/Feedback/FeedbackForm.cs:223-252 | after a successful submit, the latest feedback entry has the chosen type, the trimmed message and the display name |
| SubmitBlotterForm.Errors | Barangayan-Ralph-main/2/BarangayanEMS/BarangayanEMS/Blotter/SubmitBlotterForm.cs:198-207 | one message per missing field in field order: each message appears exactly when its field is missing |
| SubmitBlotterForm.MissingMeans | Barangayan-Ralph-main/2/BarangayanEMS/BarangayanEMS/Blotter/SubmitBlotterForm.cs:200-206 | which field each validation message is about |
| SubmitBlotterForm.ErrorsEmptyIffComplete | Barangayan-Ralph-main/2/BarangayanEMS/BarangayanEMS/Blotter/SubmitBlotterForm.cs:198-213 | no messages exactly when every required field is filled |
| SubmitBlotterForm.BuildRecord | Barangayan-Ralph-main/2/BarangayanEMS/BarangayanEMS/Blotter/SubmitBlotterForm.cs:216-229 | the record holds the chosen items, the trimmed text, the incident's day and status `Pending` |
| SubmitBlotterForm.HandleSubmit | Barangayan-Ralph-main/2/BarangayanEMS/BarangayanEMS/Blotter/SubmitBlotterForm.cs:195-253 | the messages joined by newlines when anything is missing; otherwise the error box on a failed insert, or one insert and a cleared form |
| SubmitBlotterForm.ClearedFormListsEverything | Barangayan-Ralph-main/2/BarangayanEMS/BarangayanEMS/Blotter/SubmitBlotterForm.cs:198-207 | submitting the cleared form lists all seven messages in order |
| SubmitBlotterForm.SubmitThenList | Barangayan-Ralph-main/2/BarangayanEMS/BarangayanEMS/Blotter/SubmitBlotterForm.cs:215-233 | after a submit, the listing starts with the new report carrying the chosen items, the trimmed complainant, the incident's day and `Pending` |
| BlotterReportForm.SeedStatus | Barangayan-Ralph-main/2/BarangayanEMS/BarangayanEMS/Blotter/BlotterReportForm.cs:152 | every seeded status is `Under Investigation`, `For Pickup` or `Pending` |
| BlotterReportForm.Seed | Barangayan-Ralph-main/2/BarangayanEMS/BarangayanEMS/Blotter/BlotterReportForm.cs:139-159 | 25 reports numbered `BL-1001` onwards with types from the four listed; every fifth is under investigation, otherwise every seventh is for pickup, otherwise pending |
| BlotterReportForm.SeedCaseNumbersDiffer | Barangayan-Ralph-main/2/BarangayanEMS/BarangayanEMS/Blotter/BlotterReportForm.cs:148 | no two seeded reports share a case number |
| BlotterReportForm.SeedEnds | Barangayan-Ralph-main/2/BarangayanEMS/BarangayanEMS/Blotter/BlotterReportForm.cs:144-148 | the seeded case numbers run from `BL-1001` to `BL-1025` |
| BlotterReportForm.Digits1001 | Barangayan-Ralph-main/2/BarangayanEMS/BarangayanEMS/Blotter/BlotterReportForm.cs:148 | the first seeded case number is written `BL-1001` |
| BlotterReportForm.Digits1025 | Barangayan-Ralph-main/2/BarangayanEMS/BarangayanEMS/Blotter/BlotterReportForm.cs:148 | the last seeded case number is written `BL-1025` |
| BlotterReportForm.SeedStatuses | Barangayan-Ralph-main/2/BarangayanEMS/BarangayanEMS/Blotter/BlotterReportForm.cs:152 | report 5 is under investigation, report 7 is for pickup, report 1 is pending |
| BlotterReportForm.ApplyFilter | Barangayan-Ralph-main/2/BarangayanEMS/BarangayanEMS/Blotter/BlotterReportForm.cs:161-168 | all items for a blank query; otherwise, in order, exactly the items whose case number, type or complainant contains the query ignoring case |
| BlotterReportForm.ApplyFilterIdempotent | Barangayan-Ralph-main/2/BarangayanEMS/BarangayanEMS/Blotter/BlotterReportForm.cs:161-168 | filtering the filtered list again with the same query changes nothing |
| BlotterReportForm.CaseNumberFindsReport | Barangayan-Ralph-main/2/BarangayanEMS/BarangayanEMS/Blotter/BlotterReportForm.cs:165 | searching for a report's own case number keeps it |
| BlotterReportForm.Query | Barangayan-Ralph-main/2/BarangayanEMS/BarangayanEMS/Blotter/BlotterReportForm.cs:86-88 | the text the list is filtered by: nothing while the grey placeholder shows |
| BlotterReportForm.Initial | Barangayan-Ralph-main/2/BarangayanEMS/BarangayanEMS/Blotter/BlotterReportForm.cs:82-88 | the opened screen shows every item under the placeholder |
| BlotterReportForm.TextChanged | Barangayan-Ralph-main/2/BarangayanEMS/BarangayanEMS/Blotter/BlotterReportForm.cs:88 | the list is re-filtered by the box text unless the box is unfocused and shows `Search` |
| BlotterReportForm.SetText | Barangayan-Ralph-main/2/BarangayanEMS/BarangayanEMS/Blotter/BlotterReportForm.cs:86-88 | assigning the same text raises no `TextChanged`; assigning different text does |
| BlotterReportForm.Focus | Barangayan-Ralph-main/2/BarangayanEMS/BarangayanEMS/Blotter/BlotterReportForm.cs:86 | focusing clears the placeholder and keeps the list matching the query |
| BlotterReportForm.Blur | Barangayan-Ralph-main/2/BarangayanEMS/BarangayanEMS/Blotter/BlotterReportForm.cs:87 | leaving a blank box shows the placeholder and keeps the list matching the query |
| BlotterReportForm.Type | Barangayan-Ralph-main/2/BarangayanEMS/BarangayanEMS/Blotter/BlotterReportForm.cs:88 | typing keeps the list matching the query |
| BlotterReportForm.ClearingSearchShowsAll | Barangayan-Ralph-main/2/BarangayanEMS/BarangayanEMS/Blotter/BlotterReportForm.cs:86-88 | erasing the query and leaving the box shows every item under the placeholder |
| BlotterReportForm.DeleteSelectedAsWritten | Barangayan-Ralph-main/2/BarangayanEMS/BarangayanEMS/Blotter/BlotterReportForm.cs:200-205 | as written: the selected item is removed and the list is re-filtered by the box's raw text, placeholder included |
| BlotterReportForm.DeleteUnderPlaceholderHidesRest | Barangayan-Ralph-main/2/BarangayanEMS/BarangayanEMS/Blotter/BlotterReportForm.cs:200-205 | a two-item screen under the placeholder: deleting one leaves the other stored but the list empty |
| BlotterReportForm.PlaceholderMisses | Barangayan-Ralph-main/2/BarangayanEMS/BarangayanEMS/Blotter/BlotterReportForm.cs:165-167 | the text `Search` matches no field of an ordinary report |
| BlotterReportForm.DeleteSelected | Barangayan-Ralph-main/2/BarangayanEMS/BarangayanEMS/Blotter/BlotterReportForm.cs:200-205 | no selection changes nothing; otherwise exactly the selected item is removed and the list still matches the query |
| BlotterReportForm.DeleteAgreesWithoutPlaceholder | Barangayan-Ralph-main/2/BarangayanEMS/BarangayanEMS/Blotter/BlotterReportForm.cs:200-205 | when the placeholder is not showing, the corrected delete and the delete as written agree |
| BlotterReportForm.DeleteFromSeedShowsRest | Barangayan-Ralph-main/2/BarangayanEMS/BarangayanEMS/Blotter/BlotterReportForm.cs:200-205 | deleting from the opened screen shows every remaining item |
| DashboardNavigation.Lookup | Barangayan-Ralph-main/2/BarangayanEMS/BarangayanEMS/Dashboard/DashboardForm.cs:1267 | `_navMap[nav]`: a page exactly for registered panels, and it is the page the panel was registered with |
| DashboardNavigation.FirstPanelFor | Barangayan-Ralph-main/2/BarangayanEMS/BarangayanEMS/Dashboard/DashboardForm.cs:1352 | `FirstOrDefault`: a panel exactly when some panel is registered for the page, and it is one of those |
| DashboardNavigation.LookupOfEntry | Barangayan-Ralph-main/2/BarangayanEMS/BarangayanEMS/Dashboard/DashboardForm.cs:1230-1231 | with distinct panels, each registered panel looks up its own page |
| DashboardNavigation.FirstPanelOpensPage | Barangayan-Ralph-main/2/BarangayanEMS/BarangayanEMS/Dashboard/DashboardForm.cs:1352 | the first panel found for a page looks up that page |
| DashboardNavigation.SetNavActive | Barangayan-Ralph-main/2/BarangayanEMS/BarangayanEMS/Dashboard/DashboardForm.cs:1538-1545 | a null panel changes nothing; otherwise only that panel's active flag is set or cleared |
| DashboardNavigation.RegisterNavPanel | Barangayan-Ralph-main/2/BarangayanEMS/BarangayanEMS/Dashboard/DashboardForm.cs:1226-1259 | a null or already registered panel is ignored; otherwise it is appended, and it becomes active only when nothing is active and it is the Dashboard panel; the invariant is kept |
| DashboardNavigation.PageFromEnum | Barangayan-Ralph-main/2/BarangayanEMS/BarangayanEMS/Dashboard/DashboardForm.cs:1361-1372 | every page has a view, and only Dashboard maps to the dashboard view |
| DashboardNavigation.PageFromEnumInjective | Barangayan-Ralph-main/2/BarangayanEMS/BarangayanEMS/Dashboard/DashboardForm.cs:1361-1372 | different pages have different views |
| DashboardNavigation.SyncActiveNavToPage | Barangayan-Ralph-main/2/BarangayanEMS/BarangayanEMS/Dashboard/DashboardForm.cs:1349-1359 | the first panel registered for the page becomes the only active one; with none, nothing changes |
| DashboardNavigation.ShowPage | Barangayan-Ralph-main/2/BarangayanEMS/BarangayanEMS/Dashboard/DashboardForm.cs:1324-1347 | the page becomes current and shown, and its first panel becomes active |
| DashboardNavigation.NavClick | Barangayan-Ralph-main/2/BarangayanEMS/BarangayanEMS/Dashboard/DashboardForm.cs:1261-1277 | an unregistered sender changes nothing; otherwise the panel's page is shown and at most one panel stays active |
| DashboardNavigation.ClickLeavesOneActive | Barangayan-Ralph-main/2/BarangayanEMS/BarangayanEMS/Dashboard/DashboardForm.cs:1269-1276 | after a click exactly one panel is flagged active, and it belongs to the page shown |
| DashboardNavigation.ClickOnFirstPanelKeepsIt | Barangayan-Ralph-main/2/BarangayanEMS/BarangayanEMS/Dashboard/DashboardForm.cs:1261-1277 | clicking the first panel registered for its page leaves that panel active |
| DashboardNavigation.Setup | Barangayan-Ralph-main/2/BarangayanEMS/BarangayanEMS/Dashboard/DashboardForm.cs:83-100 | after construction the dashboard page is shown and the invariant holds |
| DashboardNavigation.SetupActivatesDashboardPanel | Barangayan-Ralph-main/2/BarangayanEMS/BarangayanEMS/Dashboard/DashboardForm.cs:1209-1259 | when the Dashboard panel exists, it is the only active panel after construction |
| DocumentRequestForms.ContainsText | Barangayan-Ralph-main/2/BarangayanEMS/BarangayanEMS/Dashboard/DashboardForm.cs:2042-2043 | `Contains` holds exactly when the text occurs |
| DocumentRequestForms.ApplyFilter | Barangayan-Ralph-main/2/BarangayanEMS/BarangayanEMS/Dashboard/DashboardForm.cs:2036-2046 | all requests for a blank query or `Search`; otherwise, in order, exactly those whose requester name or request id contains the trimmed, lower-cased query |
| DocumentRequestForms.FilterIgnoresCaseAndPadding | Barangayan-Ralph-main/2/BarangayanEMS/BarangayanEMS/Dashboard/DashboardForm.cs:2039-2043 | queries with the same trimmed, lower-cased text filter alike |
| DocumentRequestForms.ApplyFilterIdempotent | Barangayan-Ralph-main/2/BarangayanEMS/BarangayanEMS/Dashboard/DashboardForm.cs:2036-2046 | filtering the filtered list again with the same query changes nothing |
| DocumentRequestForms.RequestIdFindsRequest | Barangayan-Ralph-main/2/BarangayanEMS/BarangayanEMS/Dashboard/DashboardForm.cs:2041-2043 | searching for a request id, in any case and with spaces around it, keeps that request |
| DocumentRequestForms.StatusIndex | Barangayan-Ralph-main/2/BarangayanEMS/BarangayanEMS/Dashboard/DashboardForm.cs:2073-2074 | the status's position in the list, or -1 when it is not listed |
| DocumentRequestForms.StatusOptionsNotBlank | Barangayan-Ralph-main/2/BarangayanEMS/BarangayanEMS/Dashboard/DashboardForm.cs:1661-1668 | no listed status is blank |
| DocumentRequestForms.SaveChanges | Barangayan-Ralph-main/2/BarangayanEMS/BarangayanEMS/Dashboard/DashboardForm.cs:2077-2101 | writes only with a selection, a picked status different from the current one, and a Yes; then the status is stored and shown; the panel toggles except after a No |
| DocumentRequestForms.UntouchedStatusWritesNothing | Barangayan-Ralph-main/2/BarangayanEMS/BarangayanEMS/Dashboard/DashboardForm.cs:2073-2086 | saving with the status the selection put in the drop-down writes nothing |
| DocumentRequestForms.SaveTwiceWritesOnce | Barangayan-Ralph-main/2/BarangayanEMS/BarangayanEMS/Dashboard/DashboardForm.cs:2077-2101 | saving the same status a second time writes nothing more |
| DocumentRequestForms.SaveThenGet | Barangayan-Ralph-main/2/BarangayanEMS/BarangayanEMS/Dashboard/DashboardForm.cs:2094-2097 | after a confirmed save, the request reads back with the new status |
| DocumentRequestForms.WithPlaceholder | Barangayan-Ralph-main/2/BarangayanEMS/BarangayanEMS/Dashboard/DashboardForm.cs:2428-2432 | a box given a placeholder shows it in grey and keeps it in its tag |
| DocumentRequestForms.GotFocus | Barangayan-Ralph-main/2/BarangayanEMS/BarangayanEMS/Dashboard/DashboardForm.cs:2434-2441 | text equal to the placeholder is cleared and turns dark; any other text is unchanged |
| DocumentRequestForms.LostFocus | Barangayan-Ralph-main/2/BarangayanEMS/BarangayanEMS/Dashboard/DashboardForm.cs:2443-2450 | blank text becomes the grey placeholder; any other text is unchanged |
| DocumentRequestForms.ReadInput | Barangayan-Ralph-main/2/BarangayanEMS/BarangayanEMS/Dashboard/DashboardForm.cs:2453-2463 | the trimmed text, except empty when the grey box shows its non-empty placeholder |
| DocumentRequestForms.LeftBlankReadsEmpty | Barangayan-Ralph-main/2/BarangayanEMS/BarangayanEMS/Dashboard/DashboardForm.cs:2443-2463 | a box left blank reads as empty after it loses the focus |
| DocumentRequestForms.DarkPlaceholderTextIsInput | Barangayan-Ralph-main/2/BarangayanEMS/BarangayanEMS/Dashboard/DashboardForm.cs:2453-2463 | dark text that equals the placeholder is read as input |
| DocumentRequestForms.NewForm | Barangayan-Ralph-main/2/BarangayanEMS/BarangayanEMS/Dashboard/DashboardForm.cs:2242-2310 | a new dialog selects no type, counts one copy, and its copy count is in range |
| DocumentRequestForms.ValidateForm | Barangayan-Ralph-main/2/BarangayanEMS/BarangayanEMS/Dashboard/DashboardForm.cs:2538-2566 | accepted exactly when a type is chosen, the applicant is given, the contact has text and at least nine digits, and the purpose is given; otherwise the first failing check's message |
| DocumentRequestForms.UntouchedFormNeedsApplicant | Barangayan-Ralph-main/2/BarangayanEMS/BarangayanEMS/Dashboard/DashboardForm.cs:2546-2549 | choosing only a type in a new dialog fails on the applicant, since the placeholder is not a name |
| DocumentRequestForms.NewRecord | Barangayan-Ralph-main/2/BarangayanEMS/BarangayanEMS/Dashboard/DashboardForm.cs:2474-2485 | a new request holds the inputs as read, today, `Pending`, the pickup day and the copy count |
| DocumentRequestForms.EditedRecord | Barangayan-Ralph-main/2/BarangayanEMS/BarangayanEMS/Dashboard/DashboardForm.cs:2502-2508 | an edit replaces the inputs and keeps the id, request id, filing date and status |
| DocumentRequestForms.Submit | Barangayan-Ralph-main/2/BarangayanEMS/BarangayanEMS/Dashboard/DashboardForm.cs:2465-2525 | nothing is written unless validation passes; a new request is inserted and its new id remembered; an edit updates the details and remembers its own id |
| DocumentRequestForms.SubmitNewThenGet | Barangayan-Ralph-main/2/BarangayanEMS/BarangayanEMS/Dashboard/DashboardForm.cs:2472-2487 | after filing, the saved id finds a `Pending` request filed today with the inputs and copy count |
| DocumentRequestForms.TypeIndex | Barangayan-Ralph-main/2/BarangayanEMS/BarangayanEMS/Dashboard/DashboardForm.cs:2387 | the type's position in the list, or -1 exactly when it is missing or not listed |
| DocumentRequestForms.Prefilled | Barangayan-Ralph-main/2/BarangayanEMS/BarangayanEMS/Dashboard/DashboardForm.cs:2388-2397 | a prefilled box holds the value (null as empty) in dark text |
| DocumentRequestForms.Prefill | Barangayan-Ralph-main/2/BarangayanEMS/BarangayanEMS/Dashboard/DashboardForm.cs:2379-2398 | no dialog opens when the pickup date (or today) lies outside the date picker's range 1753-01-01..9998-12-31 or the stored count is above 20; otherwise the type, text, pickup date (or today) and a count of at least 1 are filled in |
| DocumentRequestForms.PrefillRefusesEarlyPickup | Barangayan-Ralph-main/2/BarangayanEMS/BarangayanEMS/Dashboard/DashboardForm.cs:2394 | a request stored with a pickup day in 1700 opens no edit dialog, because the picker's setter throws |
| DocumentRequestForms.PrefilledReadsBack | Barangayan-Ralph-main/2/BarangayanEMS/BarangayanEMS/Dashboard/DashboardForm.cs:2388-2397 | a trimmed stored value reads back unchanged |
| DocumentRequestForms.EditUntouchedKeepsRecord | Barangayan-Ralph-main/2/BarangayanEMS/BarangayanEMS/Dashboard/DashboardForm.cs:2379-2511 | opening a request and saving it untouched stores the same record |

## Left out

- **Persistence and effects.**
  - SQLite connections, commands and readers: tables are sequences of rows.
  - The id SQLite assigns (`AUTOINCREMENT`) is a parameter, with freshness as a precondition where needed.
  - Two inserts racing for `MAX(Id)+1` are not modelled.
- **Parameters instead of effects.**
  - The clock (`DateTime.Today`, `DateTime.UtcNow`), `Random` in the blotter seed (`SeedRoll`), and the salt from `RandomNumberGenerator` are parameters.
  - So are the answers to Yes/No message boxes (`confirmed`) and exceptions thrown by the store (`failure`).
  - Message boxes, focus changes, `DialogResult` and closing dialogs are not modelled.
- **Cryptography.**
  - PBKDF2-SHA256 and Base64 are function parameters (`PasswordHasher.Primitives`).
  - Lemmas that need them assume `WellBehaved`: decoding inverts encoding and the derived key has the requested length.
- **Column defaults.**
  - The `DocumentRequests` and `BlotterReports` table definitions are not part of this model.
  - `BlotterRepository.Insert` leaves `DateReported` to the column default, whose text is the `dateReportedDefault` parameter.
  - `DatabaseBootstrapper.cs` (other than the `UNIQUE` email column) and `Program.cs` are not part of this model.
- **Text and numbers.**
  - Text.ToLower: lower-cases ASCII letters only. `ToLowerInvariant` and `OrdinalIgnoreCase` also fold other letters.
  - Text.CountDigits: counts ASCII digits only. `char.IsDigit` also accepts other Unicode decimal digits.
  - Calendar.ParseDateTime: reads only the `yyyy-MM-dd` and `yyyy-MM-dd HH:mm:ss` forms the application writes. `DateTime.TryParse` accepts more.
  - UserRepository.MapUser: reads the stored `CreatedAt` text as the time itself, without the `AdjustToUniversal` conversion.
  - 64-bit id overflow is not modelled.
  - `NumericUpDown` rounding is not modelled. The copy count is an integer in 1..20.
  - Calendar.FormatDate: writes the Gregorian year. The source's `ToString("yyyy-MM-dd")` uses the current culture's calendar, which may differ (the Thai Buddhist one, say); the current culture is not part of the model.
  - Calendar.FormatTimestamp: writes the Gregorian year and a literal `:`. The source's `ToString("yyyy-MM-dd HH:mm:ss")` uses the current culture's calendar and time separator, which may differ.
  - Text.TryParseInt32: reads only the invariant culture's `+` and `-` signs, and not the trailing NUL characters .NET also skips. The current culture is not part of the model.
- **Visual behaviour.** Painting, hover colours, slide animations, drag-to-move, owner-drawn lists and control layout carry no logic the core depends on.
- **Controls.** A control that may be missing (`FindPanel`, `GetNavPanelFromSender`) is an `Option` of a panel number.
- **Dashboard navigation.**
  - `HookServicesNavFallback` finds its panel by a label search. It is modelled as an optional `fallback` panel registered for Services.
  - `ShowPage` returns early when a page or the host is null. That never happens after `BuildPages`, so it is not modelled.
  - DashboardNavigation.PageFromEnum: the `default` arm is unreachable for the five enum values, so only the five cases are modelled.
- **Document request listing.** `RefreshRequests`, `SelectRowByRequestId`, `DeleteSelected`, `OpenPreviewEdit` and `ToggleStatusPanel`'s focus change are outside the modelled core. `UpdateSelection` appears only as `StatusIndex`.
  - DocumentRequestForms.SaveChanges: the selected record that takes the new status is the same object the listing shows. The model returns it as `selected` but does not update the listing sequence, and `ResetBindings` (the grid refresh) is not modelled.
- **Document request entry dialog.** `ResetFormFields` and the Save Draft button (which only closes the dialog) are left out.
- **Blotter list.** `NewReport`, `EditSelected` and `ViewSelected` only open dialogs or message boxes. `UpdateSelection` is the `selected` index parameter.

## Findings

| source | as written | input that shows it | evidently intended | confidence | as-written member | corrected member |
|---|---|---|---|---|---|---|
| Barangayan-Ralph-main/2/BarangayanEMS/BarangayanEMS/Blotter/BlotterReportForm.cs:200-205 | after removing the selected report, `DeleteSelected` re-filters by the search box's raw text, which is the grey placeholder `Search` when no search is typed | open the list (placeholder showing, box not focused) with reports `BL-1001` and `BL-1002` (Theft, Complainant 42) and delete `BL-1001`: `BL-1002` is still stored but the grid shows nothing, because no field contains "search" | re-apply the filter the screen is showing, which is no filter while the placeholder shows, so every remaining report stays listed (the same guard the `TextChanged` handler applies) | not executed | BlotterReportForm.DeleteSelectedAsWritten, BlotterReportForm.DeleteUnderPlaceholderHidesRest | BlotterReportForm.DeleteSelected |

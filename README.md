# Announcements router: a verified model

The router in `src/backend/routers/announcements.py` manages time-bounded announcements. Each one is a document in the
announcements collection with a message, an optional start date, a required expiration date, a
creation timestamp and the teacher who created it. Five endpoints cover it:

- list every announcement, sorted by expiration date;
- list the announcements active today;
- create, update and delete an announcement, each gated by a lookup of the caller in the teacher directory.

This project is a Dafny model of that router and of the date handling it depends on. It has these modules:

- Strings: the order of strings by code point. Python's `sort` and MongoDB's `sort` both order the
  expiration dates this way.
- Dates: calendar dates. It covers their order, the `YYYY-MM-DD` text form that `date.isoformat()` writes,
  and a parser for that form. The form is the ISO 8601 complete calendar date in extended format,
  section 5.2.1.1 of ISO 8601:2004. Two lemmas relate text and dates. Parsing a formatted date gives the
  date back. For formatted dates, string order and date order agree.
- ObjectIds: the announcement id. The model accepts exactly the texts of 24 hex digits, in either case.
  A stored key is its lower-case form.
- Announcements: the pure parts. It holds the document, the view `_to_dict` returns, and the errors with
  their HTTP status codes. It also holds the active-window decision, the sort by expiration date, and the
  validation steps of create, update and delete. Each validation step is a function that returns the
  first failing check, in the endpoint's order, or else the document or change to write.
- Store: the collection as a class. Its `docs` field is a map from key to document. Its `teachers`
  field holds the directory's usernames. Each endpoint is a method proved against the functions above.
  A failure leaves `docs` unchanged. A create adds exactly the new key, an update rewrites exactly one
  document, and a delete removes exactly one key. Two client methods show a double delete and a
  create followed by a listing.

The clock and the id generator are inputs rather than ambient state:

- `today` is the date the active filter compares against.
- `createdAt` is the stored creation timestamp.
- `newId` is the id the store assigns to a new document. The model requires it to be unused.

At creation the code tests `start_date` for truthiness, so an empty start is not validated and is
stored as the empty string. An update tests `is not None`, so there an empty start is validated and
refused with 400.

The `created_by` fallback `"unknown"` is modelled as written. `NewAnnouncement` proves that it is never
used, because an empty or missing username has already been refused with 401.

## Model

| member | source | states |
|---|---|---|
| `Strings.Cmp` | src/backend/routers/announcements.py:69 | three-way comparison of strings by code point, always -1, 0 or 1 |
| `Strings.CmpZero` | src/backend/routers/announcements.py:69 | the comparison reports equal exactly for equal strings |
| `Strings.CmpFlip` | src/backend/routers/announcements.py:69 | swapping the operands negates the comparison, so the order is total |
| `Strings.CmpTrans` | src/backend/routers/announcements.py:69 | the string order is transitive |
| `Strings.CmpAppend` | src/backend/routers/announcements.py:69 | for two concatenations whose first parts have equal length, the first parts decide unless they are equal |
| `Dates.DaysInMonth` | src/backend/routers/announcements.py:48 | months have 28 to 31 days; 29 exactly for February of a Gregorian leap year |
| `Dates.Pad` | src/backend/routers/announcements.py:104 | the zero-padded decimal field is exactly `w` digits long |
| `Dates.DigitsValue` | src/backend/routers/announcements.py:48 | a string of `w` digits denotes a number below 10^w |
| `Dates.DigitsOfPad` | src/backend/routers/announcements.py:104 | reading a padded number gives the number back |
| `Dates.PadOfDigits` | src/backend/routers/announcements.py:48 | padding the value of a digit string to its length gives the string back |
| `Dates.PadCmp` | src/backend/routers/announcements.py:69 | padded numbers of one width compare as strings as the numbers compare |
| `Dates.Format` | src/backend/routers/announcements.py:104 | `isoformat()` output is ten characters with hyphens at positions 4 and 7 |
| `Dates.Parse` | src/backend/routers/announcements.py:48 | every date `fromisoformat` accepts exists: year 1 to 9999, month 1 to 12, day within the month |
| `Dates.ParseFormat` | src/backend/routers/announcements.py:104 | the normalised expiration date stored at creation or update parses back to the same date |
| `Dates.FormatParse` | src/backend/routers/announcements.py:89 | every accepted date text is already in normal form: re-formatting the parsed date gives the text back |
| `Dates.FormatCmp` | src/backend/routers/announcements.py:69 | the string comparison of two formatted dates equals their date comparison |
| `Dates.FormatOrder` | src/backend/routers/announcements.py:69 | for formatted dates, `<=` on strings holds iff `<=` on dates holds, and equal texts mean equal dates |
| `ObjectIds.LowerHex` | src/backend/routers/announcements.py:118 | a hex digit maps to a lower-case hex digit |
| `ObjectIds.ParseId` | src/backend/routers/announcements.py:117-120 | an id text is accepted iff it is 24 hex digits, and then names a key in ObjectId form |
| `ObjectIds.ParseIdOfKey` | src/backend/routers/announcements.py:109 | the id returned for a document, passed back, names that same document |
| `ObjectIds.ParseIdIgnoresCase` | src/backend/routers/announcements.py:118 | id texts that differ only in letter case name the same key |
| `Announcements.StatusCode` | src/backend/routers/announcements.py:75 | Unauthorized is 401, BadRequest is 400, NotFound is 404, and nothing else maps to those codes |
| `Announcements.IsActive` | src/backend/routers/announcements.py:44-51 | a record with a missing, empty or unparseable expiration date is never active |
| `Announcements.ActiveOnBothBounds` | src/backend/routers/announcements.py:62-66 | both ends of the window are inclusive: active on its start day and its expiration day, inactive before and after |
| `Announcements.InvertedWindowNeverActive` | src/backend/routers/announcements.py:131-136 | a record whose start lies after its expiration is never active; an update can create one (`UpdateMayInvertWindow`) |
| `Announcements.ActiveExampleCurrent` | src/backend/routers/announcements.py:62-66 | on 2024-06-15 a record running 2024-06-01 to 2024-06-30 is active |
| `Announcements.ActiveExampleExpired` | src/backend/routers/announcements.py:65 | on 2024-06-15 a record that expired on 2024-06-10 is not active |
| `Announcements.ActiveExampleNotStarted` | src/backend/routers/announcements.py:62-63 | on 2024-06-15 a record starting 2024-07-01 is not active |
| `Announcements.ActiveByStrings` | src/backend/routers/announcements.py:36-39 | for records in stored form, being active is `start <= today <= exp` as string comparison of `YYYY-MM-DD` texts, start optional |
| `Announcements.KeyLeTotal` | src/backend/routers/announcements.py:69 | any two sort keys are ordered one way or the other |
| `Announcements.KeyLeTrans` | src/backend/routers/announcements.py:69 | the sort-key order is transitive |
| `Announcements.SortedIsChronological` | src/backend/routers/announcements.py:29 | a listing sorted by expiration string is sorted by expiration date when its records are in stored form |
| `Announcements.InsertByExpiration` | src/backend/routers/announcements.py:69 | inserting into a sorted list keeps it sorted and adds exactly that element |
| `Announcements.SortedSplice` | src/backend/routers/announcements.py:69 | placing an element between keys not above it and keys not below it keeps the list sorted |
| `Announcements.SortByExpiration` | src/backend/routers/announcements.py:69 | the sorted list is sorted by expiration string and is a permutation of the input |
| `Announcements.RequireTeacher` | src/backend/routers/announcements.py:73-79 | the caller passes iff the username is non-empty and in the directory; a missing or empty one is reported as missing credentials |
| `Announcements.NewAnnouncement` | src/backend/routers/announcements.py:85-107 | 401 iff not a teacher; then 400 iff the expiration date does not parse; then 400 iff a non-empty start does not parse; then 400 iff the start is after the expiration; never 404; and success iff all of these checks pass. On success the document holds the message, the raw start, the normalised expiration that parses back to the submitted date, and the username as author |
| `Announcements.CreateRejectsImpossibleDate` | src/backend/routers/announcements.py:88-91 | creating with expiration `2024-13-40` is refused with 400 for an invalid expiration date |
| `Announcements.CreateRejectsInvertedWindow` | src/backend/routers/announcements.py:98-99 | creating with start 2024-07-01 and expiration 2024-06-01 is refused with 400 because the start is after the expiration |
| `Announcements.Merge` | src/backend/routers/announcements.py:141 | `$set` never touches the creation timestamp or author |
| `Announcements.MergeIdempotent` | src/backend/routers/announcements.py:141 | applying the same update twice equals applying it once |
| `Announcements.NormalisedExpirationParses` | src/backend/routers/announcements.py:126-128 | a supplied expiration that parses is stored normalised, and the stored text parses to the same date |
| `Announcements.UpdateMayInvertWindow` | src/backend/routers/announcements.py:131-141 | the update does not re-check the window: moving the start of a record expiring 2024-06-01 to 2024-07-01 is accepted and leaves a record that is never active |
| `Announcements.UpdatePlan` | src/backend/routers/announcements.py:115-139 | 401 iff not a teacher; then 400 iff the id is not 24 hex digits; then 400 iff a supplied expiration does not parse; then 400 iff a supplied start does not parse; then 400 iff no field is supplied; never 404; and success iff all of these checks pass, so there is no check of start against expiration. On success the change sets exactly the supplied fields, with the expiration normalised and the start raw, and keeps records in stored form |
| `Announcements.DeleteTarget` | src/backend/routers/announcements.py:151-156 | 401 iff not a teacher, then 400 iff the id is malformed; otherwise the key the id names |
| `Store.AnnouncementStore.constructor` | src/backend/routers/announcements.py:8 | a store over the given documents and teacher directory |
| `Store.AnnouncementStore.ListAll` | src/backend/routers/announcements.py:26-31 | lists every document exactly once and no other view, sorted by expiration string (missing ones first); every listed id, passed back, names that document |
| `Store.AnnouncementStore.ListActive` | src/backend/routers/announcements.py:35-70 | lists exactly the documents active today, each once, sorted by expiration string; none lacks a readable expiration date; every listed id, passed back, names that document |
| `Store.AnnouncementStore.Create` | src/backend/routers/announcements.py:83-110 | on any failure, the error from `NewAnnouncement` and no change; on success, exactly one document is added under the fresh key and returned with that id; stored form is preserved |
| `Store.AnnouncementStore.Update` | src/backend/routers/announcements.py:114-146 | on a validation failure, that error and no change; an unknown key gives 404 and no change; otherwise only that document is rewritten, with the supplied fields merged, and it is returned; keys and stored form are preserved |
| `Store.AnnouncementStore.Delete` | src/backend/routers/announcements.py:150-162 | on a validation failure, that error and no change; an unknown key gives 404 and no change; otherwise exactly that key is removed |
| `Store.DeleteTwice` | src/backend/routers/announcements.py:158-160 | a second delete of the same id never succeeds, and after a successful first delete it reports 404 |
| `Store.CreateThenList` | src/backend/routers/announcements.py:101-110 | a created document appears in the full listing with its message and the normalised expiration date, which reads back as the submitted date |

## Left out

- HTTP routing, `HTTPException` detail texts and response models are not modelled. Errors are the `Error` datatype, and `StatusCode` gives each its code.
- MongoDB I/O is not modelled. The collection is the `docs` map. `insert_one`'s generated id is the `newId` input, which must be an unused ObjectId. Update returns the merged document directly and does not re-read it with `find_one`. The model is sequential, so the two agree.
- Store.AnnouncementStore.Create: the requirement that `newId` is unused stands for the id generator's uniqueness. A collision, which would raise a duplicate-key error, is not modelled.
- Documents whose `_id` is not an ObjectId are not modelled: `Valid()` keys every document by one. Stored values of types other than strings are not modelled either; for example, an expiration stored as a BSON date.
- The clock is not modelled. `datetime.utcnow()` becomes the `today` and `createdAt` inputs, and the text form of `created_at` is not modelled.
- Dates.Parse: accepts only the `YYYY-MM-DD` calendar date. Python's `fromisoformat` also accepts date-time texts, which `.date()` truncates, and newer versions accept further ISO 8601 forms. Those inputs are refused by the model and accepted by the source. So in the model normalisation never changes an accepted text (`Dates.FormatParse`), whereas in the source it can.
- ObjectIds.ParseId: does not model that `bytes.fromhex` skips whitespace between digit pairs. A 24-character id with such whitespace yields an ObjectId shorter than 12 bytes, and what the database then does with it is not modelled.
- `_to_dict` is the `View` constructor. Its `{}` branch for an empty document is not modelled: it cannot be reached, because the collection only yields documents. Document fields beyond the five the router writes are not modelled.
- Store.AnnouncementStore.ListAll: does not say how documents with equal expiration strings are ordered. MongoDB leaves that order unspecified. For `ListActive`, the order of the collection scan is arbitrary, so the order of ties is not stated either.
- Concurrency and last-write-wins between requests are not modelled. They are delegated to the database.

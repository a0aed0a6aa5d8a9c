# Document-upload gateway: a Dafny model

This project models the decision logic of a small HubSpot document-upload gateway:

- the form-field validators (tax file number, email, amount, required text, select lists);
- the multipart file filter, which accepts or rejects each uploaded part by its form field and
  its file-name extension, checked against a content-type table; and its size and count limits
  (`UploadFilter.MaxFileSize`, `UploadFilter.MaxFiles`);
- the portal link: a contact's id and email, serialised, Base64-encoded (section 4 of RFC 4648),
  percent-encoded (section 2.1 of RFC 3986 as `encodeURIComponent` applies it) and put in the
  `data` parameter of the upload page's address, and the decoder that reverses it;
- the HubSpot client helpers: contact lookup by id (with its 404 mapping) and by email,
  sequential file upload that stops at the first failure, and the note engagement that
  attaches the uploads to the contact;
- the webhook that resolves a contact by id, falls back to email on a 404 and answers with the
  portal link;
- the upload handler that checks the contact id, takes the first file of each of the slots
  `document1` .. `document5` in slot order, uploads them and creates the note.

The remote service is the class `HubSpot.HubSpotApi`. It records every request it receives in
`log`, in order, and answers each from a fixed reply function of the request and of the
request's position in that record. The controllers are methods over such an object, so their
contracts state exactly which requests were sent, in which order, and what the response is.

Modules: `Wrappers` (Option, Result, JavaScript truthiness of a string), `Regex` (the two
regular expressions as a small pattern language with full-match semantics), `Validators`,
`UploadFilter`, `Base64`, `PercentEncoding`, `HubSpot`, `Portal`, `Webhook`, `Documents`.

## Model

| member | source | states |
|---|---|---|
| Validators.ValidateTFN | src/utils/validators.js:1-6 | an absent or empty TFN gives "TFN is required" before any format check; otherwise valid iff 8 or 9 characters, all `0`-`9`, else "TFN must be 8-9 digits only"; valid results carry no message and invalid ones always do |
| Validators.EmailPatternShape | src/utils/validators.js:10 | a string fully matches `^[^\s@]+@[^\s@]+\.[^\s@]+$` iff it has no whitespace, exactly one `@` with a non-empty part before it, and a `.` in the domain that is neither its first nor its last character |
| Validators.ValidateEmail | src/utils/validators.js:8-13 | absent or empty gives "Email is required"; otherwise valid iff the email shape above holds, else "Please enter a valid email address" |
| Validators.ValidateAmount | src/utils/validators.js:15-20 | absent or empty gives "Amount is required" before the numeric check; otherwise valid iff the (abstract) non-negative-number test holds, else "Amount must be a positive number" |
| Validators.TrimEmptyIffBlank | src/utils/validators.js:23 | `trim()` gives the empty string iff every character is JavaScript whitespace |
| Validators.ValidateRequired | src/utils/validators.js:22-25 | valid iff the value is present and has a non-whitespace character; otherwise the message is `<fieldName> is required` |
| Validators.ValidateSelect | src/utils/validators.js:27-31 | an absent or empty value is "required" even when `''` is an option; otherwise valid iff an exact member of the options, else `Invalid <fieldName> selection` |
| UploadFilter.FieldNamesRoundTrip | src/utils/multerConfig.js:11-23 | each of the eleven field names of the table is recognised as its own field |
| UploadFilter.MimeTableCoversAllowedExtensions | src/utils/multerConfig.js:11-40 | every extension some field allows has an entry in the content-type table |
| UploadFilter.OnlyPdfListed | src/utils/multerConfig.js:15-22 | the statement fields list no extension but `.pdf` |
| UploadFilter.PayslipsListNoPng | src/utils/multerConfig.js:18-21 | no payslip field lists `.png` |
| UploadFilter.SegmentExt | src/utils/multerConfig.js:30 | a segment's extension is its suffix from its last `.`; it is empty exactly when no `.` follows the first character or the segment is `..`, and otherwise is shorter than the segment and starts with `.` |
| UploadFilter.ExtName | src/utils/multerConfig.js:30 | `path.extname` is a suffix of the last path segment, trailing slashes ignored; it is empty exactly when that segment has no `.` after its first character or is `..`, and otherwise starts with `.` and is not the whole segment |
| UploadFilter.ExtNameWithinSegment | src/utils/multerConfig.js:30 | after its leading `.`, `path.extname` holds neither `.` nor `/` |
| UploadFilter.FileFilter | src/utils/multerConfig.js:25-51 | an unknown field is rejected with `Invalid field name: <fieldname>` first; the file is accepted iff the field is known, the lower-cased extension is in its list and the lookup finds a type and it equals the table's type for that extension; an unlisted extension gives the message listing the allowed ones; every other rejection is the type-mismatch message |
| UploadFilter.PdfOnlyFields | src/utils/multerConfig.js:15-22 | `bankStatements` and `centrelinkStatement` accept nothing but `.pdf` |
| UploadFilter.PayslipsRejectPng | src/utils/multerConfig.js:18-21 | `payslip1`-`payslip4` reject every `.png` |
| UploadFilter.DecisionIgnoresDeclaredType | src/utils/multerConfig.js:25-31 | the decision depends on the field name and the original name only, not on the declared content type or encoding |
| UploadFilter.ExtensionCaseIgnored | src/utils/multerConfig.js:30 | two names whose extensions differ only in letter case (and look up to the same type) are judged alike |
| UploadFilter.ExtNameLower | src/utils/multerConfig.js:30 | `path.extname` of the lower-cased name is the lower-cased `path.extname`, since lower-casing moves no `/` or `.` |
| UploadFilter.LowerExtIgnoresCase | src/utils/multerConfig.js:30 | names equal up to letter case have the same lower-cased extension |
| UploadFilter.UpperCasePdfName | src/utils/multerConfig.js:30 | `X.PDF` and `x.pdf` have the same compared extension |
| UploadFilter.NameCaseIgnored | src/utils/multerConfig.js:25-51 | parts on the same field whose original names differ only in letter case, and look up to the same type, get the same decision |
| UploadFilter.FileFilterAsWritten | src/utils/multerConfig.js:25-28 | the filter as written agrees with `FileFilter` on every field name except the members a plain object inherits, where it throws |
| UploadFilter.ConstructorFieldThrows | src/utils/multerConfig.js:25-44 | a part whose field is `constructor` makes the filter as written throw, where the corrected filter rejects it as an invalid field |
| Base64.Base64Encode | src/utils/hubspot_utils.js:61 | the encoding has length 4 * ceil(n / 3) and uses only the alphabet and `=` |
| Base64.SextetRoundTrip | src/utils/hubspot_utils.js:61-67 | each 6-bit value maps to an alphabet character that decodes back to it |
| Base64.GroupRoundTrip | src/utils/hubspot_utils.js:61-67 | a full group of three bytes decodes back from its four characters |
| Base64.DecodeGroup | src/utils/hubspot_utils.js:67 | a group of four characters gives one to three bytes, and exactly three unless it is the last group |
| Base64.Base64Decode | src/utils/hubspot_utils.js:67 | only a text of whole four-character groups decodes, to three bytes per group less at most two for the padding; `Base64RoundTrip` shows it inverts the encoder |
| Base64.Base64RoundTrip | src/utils/hubspot_utils.js:60-68 | decoding the Base64 encoding of any byte string gives that byte string back |
| Base64.NoPercentInBase64 | src/utils/hubspot_utils.js:67-77 | no `%` occurs in a Base64 encoding |
| PercentEncoding.HexRoundTrip | src/utils/hubspot_utils.js:67-77 | each hex digit written by the encoder reads back as its value |
| PercentEncoding.EncodeURIComponent | src/utils/hubspot_utils.js:77 | the encoding is ASCII, and a string of unreserved characters is left unchanged |
| PercentEncoding.DecodeURIComponent | src/utils/hubspot_utils.js:67 | a successful decoding is shorter than its input by exactly two characters per `%` in it; `DecodeWithoutPercent` and `ComponentRoundTrip` relate it to the encoder |
| PercentEncoding.DecodeWithoutPercent | src/utils/hubspot_utils.js:67 | `decodeURIComponent` is the identity on a string without `%` |
| PercentEncoding.ComponentRoundTrip | src/utils/hubspot_utils.js:67-77 | decoding the percent-encoding of an ASCII string gives it back |
| Portal.EncodePortalPayload | src/utils/hubspot_utils.js:60-61 | the encoding is ASCII text without `%` that Base64-decodes to the serialised payload |
| Portal.DecodePortalPayload | src/utils/hubspot_utils.js:66-69 | a payload is returned only for a parameter that percent-decodes and then Base64-decodes; `PortalPayloadRoundTrip` shows it inverts `EncodePortalPayload` |
| Portal.BuildPortalLink | src/utils/hubspot_utils.js:74-78 | the link starts with `<PORTAL_BASE_URL>/upload-documents?data=` and the rest is ASCII; `PortalLinkCarriesPayload` shows the rest decodes to the contact's payload |
| Portal.PercentEncodingTransparent | src/utils/hubspot_utils.js:67-77 | the decoder gives the same result for Base64 text and for its percent-encoded form |
| Portal.PortalPayloadRoundTrip | src/utils/hubspot_utils.js:60-68 | for a JSON codec whose parse inverts its serialiser, decoding an encoded payload, raw or percent-encoded, gives it back |
| Portal.LinkPayload | src/utils/hubspot_utils.js:75 | the link payload carries the contact's id and `properties.email`, falling back to the top-level `email` when that is absent or empty |
| Portal.PortalLinkCarriesPayload | src/utils/hubspot_utils.js:74-78 | the link is `<PORTAL_BASE_URL>/upload-documents?data=` followed by a parameter that decodes to the contact's payload |
| HubSpot.ContactLookupError | src/utils/hubspot_utils.js:35-40 | a 404 becomes a 404 "Contact not found"; every other error is rethrown unchanged |
| HubSpot.FirstResult | src/utils/hubspot_utils.js:54 | the first search result, or nothing when there are none |
| HubSpot.FirstFailure | src/utils/hubspot_utils.js:86-98 | every file before the returned position uploads successfully, and the one at it fails |
| HubSpot.UploadResult | src/utils/hubspot_utils.js:83-101 | success iff every upload succeeds, then with exactly one id per file in input order; otherwise the error of the first failing upload |
| HubSpot.UploadsMade | src/utils/hubspot_utils.js:86-98 | all files are sent when all succeed; otherwise exactly those up to and including the first failure |
| HubSpot.UploadsAllSucceed | src/utils/hubspot_utils.js:86-100 | when every upload succeeds, the collected ids are the result and every file was sent |
| HubSpot.UploadStopsAt | src/utils/hubspot_utils.js:86-97 | when upload `i` is the first to fail, its error is the result and exactly files `0 .. i` were sent |
| HubSpot.NotePayloadFor | src/utils/hubspot_utils.js:106-112 | an active `NOTE` with the fixed body, associated with exactly `[contactId]`, whose attachments are the ids in order, none by default |
| HubSpot.HubSpotApi.constructor | src/utils/hubspot_utils.js:1-24 | a fresh service has received no request |
| HubSpot.HubSpotApi.GetContactById | src/utils/hubspot_utils.js:29-41 | one GET is sent; a found contact is returned and a failure goes through the 404 mapping |
| HubSpot.HubSpotApi.SearchContactByEmail | src/utils/hubspot_utils.js:46-55 | one search with limit 1 is sent; it returns the first result or nothing, or propagates the failure |
| HubSpot.HubSpotApi.UploadFiles | src/utils/hubspot_utils.js:83-101 | returns what `UploadResult` describes and sends exactly the files `UploadsMade` counts, in order |
| HubSpot.HubSpotApi.CreateNoteWithAttachments | src/utils/hubspot_utils.js:106-116 | one engagement with `NotePayloadFor`'s payload is sent and its reply returned |
| Webhook.Respond | src/controllers/webhookController.js:20-23 | no contact gives 404 "Contact not found in HubSpot"; otherwise the answer carries the found contact's id, the email from the request body, and the contact's portal link |
| Webhook.SearchResponse | src/controllers/webhookController.js:17-23 | after a search by email: its failure propagates; no result gives 404 "Contact not found in HubSpot"; otherwise the answer is the first result's id, the request's email and that contact's portal link |
| Webhook.HandleWebhook | src/controllers/webhookController.js:3-27 | found by id: no search; a non-404 failure of the id lookup propagates with no search; a 404 or an absent id falls back to the email search only when an email is given; with neither the answer is 404 and nothing is sent |
| Documents.DocumentFieldName | src/controllers/documentsController.js:29-45 | slot `i`'s field is `document` followed by the digit of `i`, and distinct slots have distinct fields |
| Documents.Slots | src/controllers/documentsController.js:44-45 | position `i - 1` holds the files parsed for field `document<i>`, none when the field was not sent |
| Documents.Collected | src/controllers/documentsController.js:43-47 | after looking at slots `1 .. n` the loop has pushed at most `n` files |
| Documents.FilledSlots | src/controllers/documentsController.js:44-46 | the slots among `1 .. n` that hold a file, each in range and non-empty |
| Documents.FilledSlotsIncreasing | src/controllers/documentsController.js:44 | the filled slots are listed in strictly increasing slot order |
| Documents.FilledSlotsComplete | src/controllers/documentsController.js:44-46 | no slot that holds a file is left out |
| Documents.FirstFilesSnoc | src/controllers/documentsController.js:46 | one more filled slot appends its first file |
| Documents.CollectedInSlotOrder | src/controllers/documentsController.js:43-47 | what the loop collects is the first file of each filled slot, in slot order |
| Documents.SelectedDocuments | src/controllers/documentsController.js:43-47 | the handler uploads at most five files; `SelectionInSlotOrder` shows they are one per filled slot |
| Documents.SelectionInSlotOrder | src/controllers/documentsController.js:43-47 | the uploaded files are exactly the first file of each filled slot among `document1` .. `document5`, one per slot, slots in increasing order |
| Documents.SelectionBounds | src/controllers/documentsController.js:44-48 | at most five files are selected, and none exactly when no slot holds a file |
| Documents.CollectDocuments | src/controllers/documentsController.js:43-47 | the loop's result is `SelectedDocuments` |
| Documents.HandleDocumentUpload | src/controllers/documentsController.js:36-62 | a missing contact id gives 400 "Missing contactId"; then a request without parsed files (`req.files` unset) throws the TypeError of reading `document1` from `undefined`; an empty selection gives 400 "No files uploaded"; none of these sends anything; an upload failure propagates before any note; otherwise all files are sent, then one note carrying exactly the returned ids, and the answer is the created note |

## Left out

- HTTP transport: the axios clients, their headers and base URLs, the form-data body of each
  upload, and the note's `timestamp` (the clock). Remote calls are the reply functions of
  `HubSpot.HubSpotApi`; the module-load check of the environment variables is not modelled.
- `JSON.stringify`/`JSON.parse` and the string/UTF-8 conversion are one abstract codec
  (`Portal.JsonCodec`); the round trip requires that its parse inverts its serialiser.
- `mime.lookup` is an abstract function of the original name; the mime-types database is not
  part of this model.
- Validators.ValidateAmount: the numeric branch (`parseFloat`, `isNaN`, `< 0`) is an abstract
  predicate, because it rests on floating-point prefix parsing.
- Multer itself: stream parsing, the enforcement of `fileSize` and `files` (only the two
  constants are modelled), and how the route stacks the `.any()` filter before the handler's
  own `.fields(...)` parser; the handler receives the parsed files as a map from field name
  to files, or nothing when the request was not multipart.
- `showUploadPage`, the Express routes, EJS rendering and server start-up; the SMS helper
  `src/utils/sendOtp.js` is not part of this model.
- UploadFilter.ExtensionCaseIgnored: lower-casing is modelled on ASCII letters only; no other
  character lower-cases into a letter of any allowed extension except the Kelvin sign, which
  none contains, so the decision is unaffected.
- Base64.Base64Decode: decoding is strict (wrong length, stray characters or misplaced padding
  give nothing), whereas Node's decoder skips invalid characters; only the round trip is
  claimed, and it holds for both.
- PercentEncoding.DecodeURIComponent: an escape of a byte at or above `%80` gives nothing
  instead of being decoded as UTF-8; every text the portal link produces is ASCII.
- Concurrency between requests: handlers share no state beyond the remote service.

## Findings

| source | as written | input that shows it | evidently intended | confidence | as-written member | corrected member |
|---|---|---|---|---|---|---|
| src/utils/multerConfig.js:25-28 | `allowedTypes[file.fieldname]` reads inherited members of the object literal, which are truthy, so they pass the field check and `fieldAllowedTypes.includes` then throws a TypeError | a part whose field name is `constructor` (or `toString`, `__proto__`, ...) | reject the part with `Invalid field name: <fieldname>` | high; not executed | UploadFilter.FileFilterAsWritten, UploadFilter.ConstructorFieldThrows | UploadFilter.FileFilter |

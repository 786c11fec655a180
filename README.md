# Travel registration form to PDF — a verified model

The application is a browser form in which a guest fills in a travel
registration (identity, travel document, travel details, accommodation, contact)
and attaches photos of their documents. It then generates a bilingual PDF:
Portuguese labels first, with the guest's own language beneath. A host can also
produce a link that pre-fills the accommodation part of the form.

This project models the logic of that application in Dafny:

- **PDF layout** (`pdf_layout.dfy`, `pdf_writer.dfy`, `pdf_names.dfy`).
  `generatePdf` becomes a `Writer` class. Its cursor `yPos`, its page count and
  the marks drawn so far are updated step by step. Every method is proved to
  perform exactly the step a pure function of `PdfLayout` describes, and the
  layout guarantees are proved about those functions. This covers the page-break
  rule, the two-column rows, the attachment loop with its image fit, and the
  footer pass. The label maps, `canonicalize` and the filename are pure functions.
- **Form-side rules** (`form_sanitize.dfy`, `form_prefill.dfy`,
  `form_validate.dfy`, `form_autofill.dfy`).
  - `sanitizeInput` and `sanitizeDate`.
  - The prefill loop, with its `prefilledFields` set.
  - `validateForm`.
  - The country auto-fill state machine, including the way its own `change`
    events clear the flag while the copy loop is still running.
- **Attachment store** (`attachments.dfy`). A class over an ordered list, with
  append, remove-by-id, update-type-by-id, the projection `getAttachments`, and
  the MIME filter of `handleFileUpload`.
- **Prefill link builder** (`prefill_url.dfy`). `generatePrefillUrl`, and the fact
  that its parameter names are exactly the keys the guest form reads back.

Shared pieces:
- `strings.dfy` holds the JavaScript string operations the code relies on:
  `trim` with its whitespace set, ASCII lowercasing, and `substring` as `Take`.
- `strings.dfy` also holds `Subseq`, meaning "obtained by deleting characters".
- `wrappers.dfy` holds `Option`.
- `form_data.dfy` holds the form record: a map from field name to value, where a
  missing field reads as `""`.

Calls into code that is not part of this model become parameters:
- the Portuguese label table, `t`, `getCountryName`, date formatting and
  `splitTextToSize` (the `Services` record);
- `decodeURIComponent` (`UriDecoder`, with `None` where it throws);
- `URLSearchParams` percent-encoding (`Encoder`);
- the outcome of decoding an image (`Loaded(width, height)` or `Failed`);
- the clock (`now`, `today`) and attachment identifiers.

Three behaviours of the code that a reader might not expect, all modelled as written:
- The footer carries only the page number. `addFooter` receives `totalPages` but
  does not print it (src/js/pdf.js:73-78).
- `checkinDate` goes into the filename whenever it is non-empty. It is not
  checked to be a well-formed date (src/js/pdf.js:314).
- `canonicalize("São João")` is `"sojoo"`, not `"soojoo"`. After lowercasing,
  both `ã` are deleted, because they lie outside `[a-z0-9]`
  (`PdfNames.CanonicalizeDropsAccents`).

## Model

| member | source | states |
|---|---|---|
| PdfNames.PurposeLabelKeyRenamesOnlyOther | src/js/pdf.js:22-30 | `other` maps to `otherPurpose`; every other value, known or not, is passed through unchanged; mapping twice is mapping once |
| PdfNames.DocTypeLabelKeyRenamesOnlyOther | src/js/pdf.js:33-40 | `other` maps to `otherDoc`; every other value is passed through; the map is idempotent |
| PdfNames.SexLabelKeyIsIdentity | src/js/pdf.js:43-50 | the sex map returns every value unchanged |
| PdfNames.KeepAlnum | src/js/pdf.js:310 | the result holds only ASCII letters and digits and is no longer than the input |
| PdfNames.KeepAlnumOfAlnum | src/js/pdf.js:310 | a string made only of ASCII letters and digits is kept whole |
| PdfNames.KeepAlnumOfNone | src/js/pdf.js:310 | a string with no ASCII letter or digit becomes empty |
| PdfNames.KeepAlnumOfLowered | src/js/pdf.js:309-310 | on a string without upper-case letters the filter leaves only characters of `[a-z0-9]` |
| PdfNames.KeepAlnumAppend | src/js/pdf.js:310 | the filter works character by character: filtering a concatenation is concatenating the filtered parts |
| PdfNames.Canonicalize | src/js/pdf.js:306-312 | the result has at most `maxLen` characters, all in `[a-z0-9]`; an already canonical string is returned unchanged |
| PdfNames.CanonicalizeIdempotent | src/js/pdf.js:306-312 | canonicalising twice equals canonicalising once |
| PdfNames.CanonicalizeNoAlnum | src/js/pdf.js:307-311 | a string with no ASCII letter or digit canonicalises to `""` |
| PdfNames.CanonicalizeDeletesOther | src/js/pdf.js:306-312 | a character outside `[A-Za-z0-9]` anywhere in a non-empty argument is deleted: the result equals that of the argument without it |
| PdfNames.CanonicalizeDropsAccents | src/js/pdf.js:306-312 | an `ã` anywhere in a non-empty argument is deleted, not folded to `a` |
| PdfNames.FilenameFrame | src/js/pdf.js:318 | the filename is the check-in part, `-`, the place part, `-`, the name part and `.pdf`, with exactly six extra characters |
| PdfNames.FilenameShape | src/js/pdf.js:314-318 | the filename is `checkinDate` (or today when it is empty) followed by the two canonical parts and ends in `.pdf` |
| PdfNames.FilenameOfFallbacks | src/js/pdf.js:314-318 | the three fallbacks together give `today-place-guest.pdf` |
| PdfNames.FilenameFallbacks | src/js/pdf.js:314-318 | a record with no check-in, city, accommodation or name yields `today-place-guest.pdf` |
| PdfNames.PlaceFallback | src/js/pdf.js:315 | without city and accommodation name the place part is `place` |
| PdfNames.NameFallback | src/js/pdf.js:316 | without first and last name the name part is `guest` |
| PdfNames.SymbolCityLeavesPlaceEmpty | src/js/pdf.js:315 | a non-empty city with no letter or digit gives an empty place part, because the fallback is chosen before canonicalisation |
| PdfLayout.ContentWidth | src/js/pdf.js:69 | the content width of any page wider than the margins is positive |
| PdfLayout.ReserveFits | src/js/pdf.js:81-88 | after reserving `h`, the block fits above the bottom reserve; a new page is started exactly when `yPos + h > pageHeight - 25`, and otherwise nothing changes; nothing is drawn |
| PdfLayout.ReserveAdvances | src/js/pdf.js:81-88 | a page break never moves back to an earlier page, and on the same page never moves up |
| PdfLayout.TitleAdvances | src/js/pdf.js:90-100 | the title moves the cursor down by at least 10 and keeps the document well formed |
| PdfLayout.SectionHeadingAdvances | src/js/pdf.js:108-124 | the section heading keeps the document well formed and only adds marks |
| PdfLayout.AttachmentsHeadingAdvances | src/js/pdf.js:219-237 | the attachments heading keeps the document well formed and only adds marks |
| PdfLayout.RowEndBounds | src/js/pdf.js:133-163 | a row with n ≥ 1 wrapped lines ends at `max(labelBottom, startY + 4(n-1)) + 5`, strictly below its start and at least `4(n-1) + 5` lower |
| PdfLayout.AddRowAdvances | src/js/pdf.js:129-164 | an empty value draws nothing and leaves the cursor; a non-empty one reserves the row height, draws exactly one row mark and moves the cursor down on its page |
| PdfLayout.AddRowsAdvances | src/js/pdf.js:129-164 | the row loop keeps the document well formed and only adds marks |
| PdfLayout.AddSectionAdvances | src/js/pdf.js:107-167 | a section keeps the document well formed and only adds marks |
| PdfLayout.NonEmpty | src/js/pdf.js:130 | the fields kept are those with a value, taken from the section's list |
| PdfLayout.EmptyFieldsTakeNoSpace | src/js/pdf.js:129-130 | laying out a section's rows equals laying out only its non-empty fields |
| PdfLayout.RowsDrawNonEmptyFields | src/js/pdf.js:129-164 | the row loop draws one row per non-empty field, in order, with that field's label and value, after the existing marks |
| PdfLayout.LongValueAdvance | src/js/pdf.js:155-163 | a value wrapped into n lines moves the cursor at least `4n` below where the row starts |
| PdfLayout.LongValueCanPassTheBottom | src/js/pdf.js:133-163 | the break check reserves only the fixed row height, so a long wrapped value can run past the bottom of the page without a break |
| PdfLayout.FitImage | src/js/pdf.js:258-275 | the fitted image is at most content-width wide and 100 high, keeps the natural width-to-height ratio, and one of the two limits is met exactly |
| PdfLayout.FitByWidth | src/js/pdf.js:267-270 | when the width limits, the height `maxWidth / aspect` is below 100 and the ratio is kept |
| PdfLayout.FitByHeight | src/js/pdf.js:271-274 | when the height limits, the width `100 * aspect` is within the content width and the ratio is kept |
| PdfLayout.FitImageCases | src/js/pdf.js:267-275 | the result is `(maxWidth, maxWidth*h/w)` when `w/maxWidth > h/100`, and `(100*w/h, 100)` otherwise |
| PdfLayout.FitImageExample | src/js/pdf.js:258-275 | a 2000×1000 image with content width 170 is drawn 170×85 |
| PdfLayout.PlaceAttachmentStep | src/js/pdf.js:239-286 | each attachment reserves 120, draws its caption and then the image or the error marker; the cursor moves by 5 + height + 10, or by 5 + 10 on failure |
| PdfLayout.PlaceAttachmentAdvances | src/js/pdf.js:239-286 | one attachment keeps the document well formed and only adds marks |
| PdfLayout.EveryAttachmentPlaced | src/js/pdf.js:239-286 | every attachment, in order, leaves a caption and then an image or an error marker; a failed image does not end the loop |
| PdfLayout.PlaceAttachmentsAdvances | src/js/pdf.js:239-286 | the attachment loop keeps the document well formed and only adds marks |
| PdfLayout.AttachmentBlockAdvances | src/js/pdf.js:219-287 | the attachments block (absent when there are none) keeps the document well formed |
| PdfLayout.FooterMarksAt | src/js/pdf.js:73-78 | the footer of page i carries the number i |
| PdfLayout.ContentHasNoFooters | src/js/pdf.js:90-287 | content drawn before the footer pass holds no footer and no stamp |
| PdfLayout.FooterMarksFiltered | src/js/pdf.js:292-295 | the footer loop draws only footers |
| PdfLayout.StampFootersOnEveryPage | src/js/pdf.js:289-302 | after the footer pass each page 1..N has exactly one footer with its number, the single "generated" stamp is on page N, and the cursor and page count are unchanged |
| PdfLayout.FormatDate | src/js/pdf.js:11-19 | an empty date is shown as nothing |
| PdfLayout.ChoiceValue | src/js/pdf.js:173 | an enumerated choice shows nothing exactly when it is unset, otherwise the two labels joined by ` / ` |
| PdfLayout.PersonalInfo | src/js/pdf.js:170-178 | the seven fields in order, each labelled by the record entry it shows, wrapped, and showing nothing when that entry is unset |
| PdfLayout.TravelDocument | src/js/pdf.js:181-187 | the five fields in order, with the same guarantees |
| PdfLayout.TravelDetails | src/js/pdf.js:190-195 | the four fields in order, with the same guarantees |
| PdfLayout.Accommodation | src/js/pdf.js:198-205 | the six fields in order, with the same guarantees |
| PdfLayout.Contact | src/js/pdf.js:209-212 | phone and e-mail, with the same guarantees |
| PdfLayout.UnsetFieldsDrawNoRow | src/js/pdf.js:129-130 | every row drawn for a section shows a record entry that is set |
| PdfLayout.ContactOnlyWithPhoneOrEmail | src/js/pdf.js:207-213 | without phone and e-mail nothing is drawn for the contact section; with either, its heading is the next mark |
| PdfLayout.LayoutContentWf | src/js/pdf.js:90-287 | the content of every generated document is well formed: at least one page and marks on existing pages only |
| PdfLayout.LayoutFooters | src/js/pdf.js:53-302 | every generated document has at least one page, one footer per page carrying its number, and one "generated" stamp, on the last page |
| PdfWriter.Writer.constructor | src/js/pdf.js:60-70 | a fresh document: page 1, cursor at the margin, nothing drawn |
| PdfWriter.Writer.CheckPageBreak | src/js/pdf.js:81-88 | returns true exactly when `yPos + h > pageHeight - 25`, and then adds a page and resets the cursor to 20 |
| PdfWriter.Writer.AddTitle | src/js/pdf.js:90-100 | draws the title and moves the cursor by 10, plus 6 for a second language |
| PdfWriter.Writer.AddRow | src/js/pdf.js:129-164 | performs the row step `PdfLayout.AddRow`, including the per-line loop over the wrapped value |
| PdfWriter.Writer.AddSection | src/js/pdf.js:107-167 | performs the section heading, then one row step per field, then the gap of 3 |
| PdfWriter.Writer.AddAttachment | src/js/pdf.js:240-285 | performs the placement of one attachment |
| PdfWriter.Writer.AddAttachments | src/js/pdf.js:219-287 | performs the attachments block, one placement per attachment in order |
| PdfWriter.Writer.AddFooters | src/js/pdf.js:289-302 | draws the footers of pages 1..N and the stamp on page N, without changing cursor or page count |
| PdfWriter.GeneratePdf | src/js/pdf.js:53-318 | the document produced is `Layout` of the record and attachments, so `LayoutFooters` holds of it; the filename is the derived one |
| Strings.Trim | src/js/form.js:36 | the trimmed string is no longer than the input and has no whitespace at either end |
| Strings.TrimSubseq | src/js/form.js:36 | trimming only deletes characters |
| Strings.BlankIffAllWhitespace | src/js/form.js:115-116 | a value trims to empty exactly when every character is whitespace |
| Strings.TrimFixesTrimmed | src/js/form.js:36 | trimming a string with no whitespace at either end changes nothing |
| FormSanitize.StripTags | src/js/form.js:26 | removing tags never lengthens the string |
| FormSanitize.StripTagsSubseq | src/js/form.js:26 | tag removal only deletes characters |
| FormSanitize.StripTagsLeavesNoTag | src/js/form.js:26 | after tag removal no `<` has a `>` anywhere after it |
| FormSanitize.NoTagSubseq | src/js/form.js:29-36 | deleting characters cannot create a `<`…`>` pair, so later steps keep the property |
| FormSanitize.StripTagsWithoutOpen | src/js/form.js:26 | text without `<` passes tag removal unchanged |
| FormSanitize.RemoveFolded | src/js/form.js:29 | removing `javascript:` never lengthens the string |
| FormSanitize.RemoveFoldedSubseq | src/js/form.js:29 | removing `javascript:` only deletes characters |
| FormSanitize.MixedCaseSchemeRemoved | src/js/form.js:29 | `javascript:` in any mix of cases is deleted where it starts and the pass goes on after it |
| FormSanitize.RemoveFoldedNoMatch | src/js/form.js:29 | text with no case-insensitive occurrence passes unchanged |
| FormSanitize.SchemeMatches | src/js/form.js:29 | `javascript:` in lower case is matched |
| FormSanitize.RemoveFoldedCopiesPrefix | src/js/form.js:29 | the pass copies text before the first match unchanged |
| FormSanitize.RemoveFoldedIsSinglePass | src/js/form.js:29 | with the scheme cut after `java` into two pieces, one left-to-right pass over piece + scheme + piece (`javajavascript:script:`) leaves `javascript:` |
| FormSanitize.SecondPassRemovesScheme | src/js/form.js:29 | a second pass would remove it |
| FormSanitize.WordRun | src/js/form.js:30 | the run of `\w` characters at the start of a string is maximal |
| FormSanitize.HandlerAt | src/js/form.js:30 | a handler match is `on`, at least one word character and `=` |
| FormSanitize.RemoveHandlers | src/js/form.js:30 | removing `on\w+=` never lengthens the string |
| FormSanitize.RemoveHandlersSubseq | src/js/form.js:30 | removing handlers only deletes characters |
| FormSanitize.HandlerAtAttribute | src/js/form.js:30 | a handler attribute `on<word chars>=`, in any case, is matched over its whole length where it starts |
| FormSanitize.RemoveHandlersAtAttribute | src/js/form.js:30 | a handler attribute at the start is deleted and the pass goes on after it |
| FormSanitize.RemoveHandlersDeletesAttribute | src/js/form.js:30 | text without `o`/`O` before a handler attribute is copied, the attribute deleted and the rest processed |
| FormSanitize.RemoveHandlersWithoutO | src/js/form.js:30 | text without `o`/`O` passes unchanged |
| FormSanitize.Clean | src/js/form.js:26-36 | the cleaned value is at most `maxLength` long and has no whitespace at either end, since truncation comes before the trim |
| FormSanitize.CleanOnlyDeletes | src/js/form.js:26-36 | the whole pipeline only deletes characters and leaves no tag |
| FormSanitize.SanitizeInput | src/js/form.js:18-43 | `""` for a non-string or an undecodable value; otherwise at most `maxLength` (default 200) characters with no whitespace at either end |
| FormSanitize.SanitizeInputNoTag | src/js/form.js:18-43 | no tag survives, and the result only deletes characters from the decoded value |
| FormSanitize.SanitizeInputLetsNestedSchemeThrough | src/js/form.js:18-43 | with the scheme cut after `java`, piece + scheme + piece (`javajavascript:script:`) comes out of `sanitizeInput` as `javascript:` |
| FormSanitize.SanitizeDate | src/js/form.js:46-60 | the result is `""` or a string of the shape `DDDD-DD-DD` |
| FormSanitize.SanitizeDateKeepsOnlyDates | src/js/form.js:46-60 | the decoded value is returned exactly when it has the date shape; otherwise, and when decoding fails, `""` |
| FormSanitize.SanitizeDateHasNoCalendarCheck | src/js/form.js:52-54 | `2024-99-99` is accepted |
| FormPrefill.PrefillMapDistinct | src/js/form.js:8-15 | no field identifier appears twice in `PREFILL_MAP` |
| FormPrefill.SanitizedFor | src/js/form.js:67-79 | a value is written only if its parameter is present and non-empty and the field exists; a date field gets a `DDDD-DD-DD` value, any other field at most 200 characters without a tag |
| FormPrefill.WritesOnlyNamedFields | src/js/form.js:67-95 | the loop writes only fields named by some entry |
| FormPrefill.WritesExactly | src/js/form.js:67-95 | with distinct field identifiers, each entry's field holds that entry's value exactly when the value is non-empty |
| FormPrefill.FillsExactly | src/js/form.js:67-95 | each mapped field holds its own entry's sanitised value exactly when that value is non-empty, and no other field is written |
| FormPrefill.OverlayWrites | src/js/form.js:67-95 | the values, the marked fields and `hasPrefill` after the first n entries are the initial values and marks overlaid with what those entries wrote, and whether they wrote anything |
| FormPrefill.NoValueWithoutField | src/js/form.js:68-71 | an entry whose parameter is missing or empty, or whose field does not exist, writes nothing |
| FormPrefill.SanitizeEntry | src/js/form.js:72-77 | a present parameter for an existing field is sanitised as that entry's value: by `sanitizeDate` for a date input, by `sanitizeInput` otherwise |
| FormPrefill.PrefillForm.PrefillEntries | src/js/form.js:65-95 | the loop writes each entry's non-empty sanitised value into its field and marks it, leaving the notice alone; the result says whether anything was written |
| FormPrefill.PrefillForm.constructor | src/js/form.js:5 | nothing is prefilled and the notice is hidden |
| FormPrefill.PrefillForm.ParsePrefillParams | src/js/form.js:63-104 | the values and the prefilled set gain exactly the fields written, and the notice is shown iff one was written and the page has the notice |
| FormPrefill.PrefillForm.OnUserInput | src/js/form.js:87-91 | the first edit removes the field from the prefilled set |
| FormPrefill.PrefillForm.IsPrefilled | src/js/form.js:169-171 | a field is reported prefilled exactly when it is in `prefilledFields`; `PrefillThenEdit` shows that this means written by the prefill and not edited since |
| FormPrefill.PrefillThenEdit | src/js/form.js:63-104 | on a fresh page a field is marked prefilled iff its parameter yields a non-empty sanitised value, and the guest's edit clears the mark |
| FormValidate.BlankControls | src/js/form.js:114-116 | the controls reported are blank and among the required ones |
| FormValidate.Errors | src/js/form.js:117-120 | one error per blank control, carrying its id and `label - required`, with the label text or else the control's name |
| FormValidate.BlankControlsInOrder | src/js/form.js:114-122 | the blank controls keep query order |
| FormValidate.BlankControlsComplete | src/js/form.js:114-122 | every blank required control is reported |
| FormValidate.BlankControlsEmptyIff | src/js/form.js:107-125 | nothing is reported iff every required control is non-blank |
| FormValidate.ErrorsAppend | src/js/form.js:113-122 | one more control adds its error at the end exactly when it is blank |
| FormValidate.ErrorsEmptyIff | src/js/form.js:107-125 | the error list is empty iff every required control is non-blank |
| FormValidate.ErrorsReportEveryBlank | src/js/form.js:107-125 | every blank required control has its error in the list |
| FormValidate.ValidateForm | src/js/form.js:107-125 | the error list is empty iff every required field is non-blank, and it has an entry for every blank one, in query order |
| FormAutoFill.Fill | src/js/form.js:208-215 | the copy loop keeps the number of targets |
| FormAutoFill.FillUpToIsFill | src/js/form.js:208-215 | running the copy loop in place over the first n targets leaves the copied prefix followed by the untouched rest, with the flag as the copy leaves it |
| FormAutoFill.FillExactly | src/js/form.js:208-225 | the loop writes exactly the empty present targets and, with the flag set, the first present one; each write clears the flag through the form listener |
| FormAutoFill.AfterCountryOfBirthCases | src/js/form.js:200-218 | an empty choice changes nothing; with an empty target or the flag set the targets are filled and the flag ends set; otherwise nothing changes; absent targets stay absent |
| FormAutoFill.NoEmptyTargetAfterChoice | src/js/form.js:200-218 | after a non-empty choice no present target is empty |
| FormAutoFill.CorrectionReachesFirstTargetOnly | src/js/form.js:208-225 | in correction mode with all three targets filled, only the first is overwritten |
| FormAutoFill.CountryAutoFill.constructor | src/js/form.js:190 | the flag starts cleared |
| FormAutoFill.CountryAutoFill.OnFormChange | src/js/form.js:221-225 | a change to any field but the country of birth clears the flag; the targets are untouched |
| FormAutoFill.CountryAutoFill.OnCountryOfBirthChange | src/js/form.js:200-218 | performs the listener as `AfterCountryOfBirth` describes, including the flag being cleared during the loop |
| Attachments.FirstIndex | src/js/attachments.js:25 | the index found is that of the first entry with the identifier; `None` when there is no such entry |
| Attachments.FirstIndexFinds | src/js/attachments.js:25-26 | an entry is found exactly when one carries the identifier |
| Attachments.CutKeepsOthers | src/js/attachments.js:27 | `splice(index, 1)` removes that one entry and keeps the rest in order |
| Attachments.RemovedDeletesFirstMatch | src/js/attachments.js:24-30 | removal deletes the first matching entry and keeps the others in order; without a match the list is unchanged |
| Attachments.RemoveUndoesAdd | src/js/attachments.js:11-30 | removing a freshly added attachment restores the list |
| Attachments.RetypedChangesOnlyFirstMatch | src/js/attachments.js:33-38 | only the type of the first matching entry changes; identifiers, files and images stay |
| Attachments.RetypedAcceptsAnyType | src/js/attachments.js:33-38 | a type outside `DOCUMENT_TYPES` is stored as given |
| Attachments.ViewsProject | src/js/attachments.js:164-170 | the projection keeps length and order, copies image and type and labels each with the translated type; a new attachment appears last |
| Attachments.Store.constructor | src/js/attachments.js:5 | the store starts empty |
| Attachments.Store.AddAttachment | src/js/attachments.js:11-21 | appends exactly one entry with type `otherDocument` and returns its identifier |
| Attachments.Store.RemoveAttachment | src/js/attachments.js:24-30 | the list becomes the one `Removed` describes |
| Attachments.Store.UpdateAttachmentType | src/js/attachments.js:33-38 | the list becomes the one `Retyped` describes |
| Attachments.Store.GetAttachments | src/js/attachments.js:164-170 | one view per entry, in order, with its image, type and translated label |
| Attachments.Images | src/js/attachments.js:89-90 | only images are read, and never more files than were chosen |
| Attachments.ImagesCount | src/js/attachments.js:89-90 | each image is read exactly as many times as it was chosen; other files are not read |
| Attachments.ImagesInOrder | src/js/attachments.js:89-90 | the images are read in the order they were chosen |
| Attachments.HandleFileUpload | src/js/attachments.js:88-98 | the loop reads exactly the files `Images` describes |
| PrefillUrl.EncodePair | src/js/prefill.js:25-29 | an encoded `name=value` pair is never empty |
| PrefillUrl.SerializeEmptyIff | src/js/prefill.js:29-30 | the query string is empty exactly when no parameter was appended |
| PrefillUrl.ParamsComplete | src/js/prefill.js:22-27 | every field on the page with a non-blank value contributes its parameter with the trimmed value |
| PrefillUrl.ParamsSound | src/js/prefill.js:22-27 | nothing else is appended |
| PrefillUrl.ParamsInOrder | src/js/prefill.js:8-27 | parameters appear in `HOST_FIELDS` order |
| PrefillUrl.ParamsAreTrimmed | src/js/prefill.js:24-25 | every value sent is non-empty, with no whitespace at either end |
| PrefillUrl.HostNamesArePrefillKeys | src/js/prefill.js:8-15 | the host parameter names are the guest form's `PREFILL_MAP` keys, in the same order |
| PrefillUrl.GeneratedParamsAreRead | src/js/prefill.js:8-15 | every parameter of a generated link is one the guest form reads back |
| PrefillUrl.GeneratePrefillUrl | src/js/prefill.js:18-31 | the base URL alone when no field contributes; otherwise base, `?` and the query |

## Left out

- jsPDF rendering is not modelled: fonts, colours, lines, `addImage` and `save`. A drawn item is recorded as a `Mark`. Only its page, position and content are kept.
- `splitTextToSize` is not modelled. The number of lines a value wraps into is an input (`Services.wrap`).
- Image decoding is asynchronous (`new Image`/`onload`, src/js/pdf.js:251-256). The model takes its outcome and natural size as input.
- `FileReader` in `handleFileUpload` is asynchronous. `HandleFileUpload` returns the files that are read; completions may arrive in any order, so the order in which they are appended is not modelled.
- Date and locale formatting is not modelled (`toLocaleDateString`, `toLocaleString`, `toISOString`). Neither are `Date.now`/`Math.random` identifiers. These are parameters.
- `t`, the Portuguese label table and `getCountryName` are not part of this model. They are functions in `Services`.
- `decodeURIComponent` is abstract (`UriDecoder`). So is the percent-encoding of `URLSearchParams` (`Encoder`), and `URLSearchParams.get` becomes a map lookup.
- Floating point is replaced by exact `real` arithmetic. This matters for the image fit and the cursor.
- The DOM is not modelled: CSS classes (`prefilled`, `error`), focus, scrolling and event wiring. Neither are the camera, the clipboard, the modals, the loading overlay or the build configuration.
- A date input's own rejection of an impossible date is not modelled. The browser's `<input type=date>` may refuse a value such as `2024-99-99` that `sanitizeDate` lets through.
- JS property lookup on the label maps is not modelled. A key such as `constructor` would find an inherited property.
- PdfNames.Canonicalize: lowercasing is ASCII-only, whereas `toLowerCase` applies full Unicode case mapping. Two characters differ because their lower case is ASCII: `İ` (U+0130) becomes `i` followed by U+0307, and the Kelvin sign (U+212A) becomes `k`. The source keeps them as `i` and `k`; the model deletes them.
- PdfNames.CanonicalizeNoAlnum: holds in the source for every string without ASCII letters and digits except those containing U+0130 or U+212A.
- PdfNames.CanonicalizeDeletesOther: for U+0130 and U+212A the source keeps `i` or `k` where the model deletes the character.
- PdfNames.SymbolCityLeavesPlaceEmpty: a city made of U+0130 or U+212A gives a place part of `i`s and `k`s in the source, not an empty one.
- FormSanitize.SanitizeInput: lengths count Unicode scalar values, not UTF-16 code units. A value with characters outside the Basic Multilingual Plane may be cut at a different place than `substring` cuts it.
- FormValidate.Errors: a label's text is taken as given. The ` *` that `markRequiredFields` appends to required labels is not added.

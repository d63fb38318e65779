# DAR extraction and audit-register model

This project models, in Dafny, the deterministic core of a GST audit
tracking application. An audit group uploads a Departmental Audit Report
(DAR) as a PDF. The application turns the PDF into page text. A language
model turns that text into a header and a list of audit paras, with
retries and back-off. The result is flattened into editor rows. Those rows
are validated and then appended to a master spreadsheet. Around this
pipeline sit the helpers the same application relies on:

- the Indian digit grouping and index page numbering of the meeting agenda;
- the Drive file-id extraction;
- the allocation register with its GSTIN check, financial year, upload
  validation, reassignment and deletions;
- the Sheets read, write and delete-request helpers;
- the login activity report.

The modules follow the source files:

| module | file | content |
|---|---|---|
| `Basics` | (shared) | `Option`, `Result`, and the string operations the code uses: `strip`, `startswith`, `replace`, `int()` on text, `str()` of integers |
| `Frames` | (shared) | a pandas-like `Cell`/`Row`/`Table`, with NA semantics; a `DataFrame` class for tables updated in place |
| `Sorting` | (shared) | sorted de-duplication of messages, and a descending sort by key |
| `Models` | `models.py` | the extraction records and their `model_dump()` |
| `PageText` | `dar_processor.py` | page-text assembly |
| `Extraction` | `gemini_utils.py`, `dar_processor.py` | the retry loop with the model call as a sequence of replies, and the single-shot variant |
| `Validation` | `validation_utils.py` | validation of a table before it is written |
| `AuditGroup` | `ui_audit_group.py` | the group-to-circle map, flattening, the submission and delete selection |
| `Agenda` | `ui_mcm_agenda.py` | the agenda helpers |
| `Allocation` | `ui_smart_audit_tracker.py` | the allocation register |
| `Sheets` | `google_utils.py` | the Drive and Sheets helpers; the spreadsheet is a class whose cell grid the writes replace |
| `LoginReport` | `reports_utils.py` | the login report |

In two places the code does something other than what its comments or
its pattern suggest; the model follows the code.

- `validate_gstin` uses `re.match` with a pattern ending in `$`. That also
  accepts a sixteenth character when it is a final newline, so
  `Allocation.ValidGstin` accepts it as well.
- A reply starting with a single-backtick "`json" is cut by six
  characters, one more than the five of the prefix, so the character that
  follows is lost (`Extraction.SingleBacktickFenceSlicesSix`).

## Model

| member | source | states |
|---|---|---|
| Models.FailedReportRoundTrip | models.py:20-23 | a failure report has no header, no paras and only the error note, and gives back exactly the note it was built from |
| Models.HeaderDump | models.py:12-18 | dumping a header gives exactly the six header columns |
| Models.ParaDump | models.py:5-10 | dumping a para gives exactly the five para columns |
| Models.DumpMarksAbsentFields | models.py:5-18 | a dumped column holds a missing value exactly when its optional field is absent |
| Models.Flatten | models.py:26-37 | a flattened record dumps to the header's columns together with the para's columns |
| Models.FlattenedDump | models.py:26-37 | a flattened record has exactly the six header plus five para columns |
| PageText.ErrorText | dar_processor.py:34-37 | every failure text starts with the pdfplumber error prefix |
| PageText.FirstRaisedFrom | dar_processor.py:16-23 | finds the first page whose extraction raises, and every page before it extracted |
| PageText.PreprocessPdfText | dar_processor.py:9-37 | the loop builds the in-order concatenation of page markers and page texts: the info line for a page without text, "None" removed from the others; an unopenable file or a raising page gives the error text |
| PageText.JoinedPagesStart | dar_processor.py:28-30 | joined pages are empty for zero pages and otherwise start with the first page marker |
| PageText.Preprocessed | dar_processor.py:9-37 | the text the step returns: the error text of an unopenable file or of the first raising page, otherwise the joined pages |
| PageText.SuccessAndFailureDistinct | dar_processor.py:16-37 | the output starts with the error prefix exactly when preprocessing failed; a success is empty or starts with "\n--- PAGE 1 ---\n" |
| PageText.SinglePassMayLeaveNone | dar_processor.py:26 | one left-to-right pass of `replace` can leave a "None" behind ("NNoneone" gives "None") |
| Extraction.StripFencesRoundTrip | gemini_utils.py:67-72 | stripping a "```json … ```" block gives back exactly its body |
| Extraction.SingleBacktickFenceSlicesSix | gemini_utils.py:70-71 | after a leading "`json" the following character is dropped as well |
| Extraction.StripFencesUnfenced | gemini_utils.py:67-72 | an already clean reply without fences passes unchanged |
| Extraction.StripFences | gemini_utils.py:67-72 | the cleaned reply is never longer than the stripped reply, nor that than the raw reply |
| Extraction.EmptyMessage | gemini_utils.py:75 | the empty-reply message names the attempt number |
| Extraction.KeylessMessage | gemini_utils.py:83 | the missing-keys message names the attempt number |
| Extraction.NotJsonMessage | gemini_utils.py:93 | the invalid-JSON message names the attempt number |
| Extraction.OtherMessage | gemini_utils.py:99 | the generic error message names the attempt number |
| Extraction.KeyMissing | gemini_utils.py:9-10 | the key counts as missing exactly when it is None, empty or the placeholder "YOUR_API_KEY_HERE" |
| Extraction.IsPreprocessError | gemini_utils.py:11-13 | the text is a preprocessing failure exactly when it starts with the pdfplumber error prefix or "Error in preprocess_pdf_text_" |
| Extraction.HandledOutcome | gemini_utils.py:97-102 | the generic handler never accepts; it lets an exception out exactly when reading the bound response's text raises, and otherwise retries after 2*attempt seconds with a message naming the attempt |
| Extraction.AcceptedDecodes | gemini_utils.py:65-102 | an attempt accepts only a reply whose cleaned text decodes with both keys present and builds the report it returns |
| Extraction.LastResponse | gemini_utils.py:66-98 | the response an error handler reads is the latest call that returned one, and there is none exactly when every call so far raised |
| Extraction.LastResponseSnoc | gemini_utils.py:66 | a raising call leaves the previous response bound; a returning call rebinds it |
| Extraction.RetriedExtend | gemini_utils.py:63-102 | one more retried attempt extends the record of retries by its pause |
| Extraction.GetStructuredDataWithGemini | gemini_utils.py:8-104 | a missing or placeholder key, or error-prefixed text, returns the failure report with no call; otherwise 1 to max_retries+1 calls, every attempt before the last retried with its pause, and the last returns the report, fails with its message after the final attempt, or lets its exception out |
| Extraction.RetryLoop | gemini_utils.py:61-104 | the loop makes at most max_retries+1 calls, stops at the first report that parses with both keys, pauses only between attempts, and after the last retryable failure returns that attempt's message |
| Extraction.HandledFailure | gemini_utils.py:97-102 | a handled exception that is retried names the attempt in its message and pauses between attempt+1 and 2*attempt seconds |
| Extraction.RepliedFailure | gemini_utils.py:74-96 | a retried reply (empty, keyless, unparseable or failing to build) names the attempt and pauses between attempt+1 and 2*attempt seconds |
| Extraction.FailedAttempt | gemini_utils.py:74-102 | every retried attempt n names n in its message and pauses between n+1 and 2n seconds |
| Extraction.ExtractOnceFacts | dar_processor.py:40-146 | the single-shot variant calls the model exactly when the text lacks the pdfplumber error prefix, passes that text on as the failure note, and returns a non-failure report only when the reply decoded to it |
| Extraction.ExtractOnce | dar_processor.py:40-146 | at most one call; the only exception that escapes is a non-AttributeError raised while reading the reply text |
| Extraction.UnreadablePdfMakesNoCall | dar_processor.py:44-45 | a PDF that preprocessing cannot read never reaches the model |
| Validation.FieldMsgs | validation_utils.py:34-46 | at most one message per mandatory field |
| Validation.Entry | validation_utils.py:72-75 | a row enters the consistency map exactly when its trade name and category are present and the category is valid |
| Validation.Entries | validation_utils.py:71-75 | one entry per row, in row order |
| Validation.Validation | validation_utils.py:25-82 | the messages come back sorted without repeats |
| Validation.ValidateDataForSheet | validation_utils.py:25-82 | the validator as written: AttributeError when a row's heading cell holds something other than text, and otherwise exactly the sorted, de-duplicated messages of the table |
| Validation.CheckRows | validation_utils.py:30-65 | the row loop raises exactly when some row's heading is present but not text, and otherwise gives every row's messages in row order |
| Validation.AllRowMsgsStep | validation_utils.py:30-65 | the row loop adds each row's messages after the earlier rows' |
| Validation.CheckRow | validation_utils.py:30-65 | the messages for one row: mandatory fields, category, status |
| Validation.CheckFields | validation_utils.py:34-46 | the mandatory-field loop gives the field messages in dictionary order |
| Validation.CheckCategory | validation_utils.py:49-52 | the category check for one row |
| Validation.CheckStatus | validation_utils.py:56-65 | the status check for one row |
| Validation.CheckConsistency | validation_utils.py:68-80 | the two consistency loops give the conflict messages |
| Validation.ReportConflicts | validation_utils.py:77-80 | one message per trade name with more than one category, in first-seen order |
| Validation.ConflictMsgsStep | validation_utils.py:77-80 | each trade name adds its message after the earlier ones' |
| Validation.GroupEntries | validation_utils.py:70-75 | `setdefault(...).add` builds each trade name's categories in first-seen order |
| Validation.ValidateAsWritten | validation_utils.py:43-58 | the code raises exactly when the table is non-empty and some row's heading is present but not a string; otherwise it gives the validation |
| Validation.NullHeadingCrashes | validation_utils.py:43-58 | a row whose heading is None makes the code raise, where the missing-heading message was due |
| Validation.KeyOrderInGroup | validation_utils.py:70-77 | the iteration order lists exactly the keys of the map |
| Validation.EmptyTableMessage | validation_utils.py:27-28 | an empty table gives exactly ["No data to validate."] |
| Validation.RowMsgsInValidation | validation_utils.py:30-82 | every message of every row is in the result |
| Validation.AllRowMsgsContains | validation_utils.py:30-65 | the row loop keeps every row's messages |
| Validation.ValidationElems | validation_utils.py:82 | the result holds exactly the row messages and the consistency messages |
| Validation.ValidationIdempotent | validation_utils.py:82 | sorting and de-duplicating the result again changes nothing |
| Validation.MissingMsgInjective | validation_utils.py:46 | different field names give different missing messages |
| Validation.FieldMsgsMembers | validation_utils.py:34-46 | every field message is for a missing field that is not exempt |
| Validation.FieldMsgsContains | validation_utils.py:34-46 | every missing, non-exempt field gets its message |
| Validation.NameIndexOf | validation_utils.py:4-17 | the display names of the mandatory fields are distinct |
| Validation.MissingFieldReported | validation_utils.py:34-46 | a field's message is reported exactly when the field is None, blank or NaN, and is not a para field on a header-only row |
| Validation.CategoryRule | validation_utils.py:49-52 | at most one category message, present exactly when the category is present, non-blank and not Large, Medium or Small |
| Validation.StatusRule | validation_utils.py:56-65 | header-only rows get no status message; on other rows a status outside the five values is reported invalid, and a missing status adds "missing for a data para" to the generic message |
| Validation.GroupDistinct | validation_utils.py:75 | each trade name's category set holds each category once |
| Validation.GroupComplete | validation_utils.py:75 | every counted row's category is in its trade name's set |
| Validation.GroupSound | validation_utils.py:75 | every category in a set comes from a counted row with that trade name |
| Validation.ConflictMsgsContains | validation_utils.py:77-80 | a trade name with more than one category gets its message |
| Validation.ConflictMsgsMembers | validation_utils.py:77-80 | every conflict message is for a trade name with more than one category |
| Validation.CatsMapMeaning | validation_utils.py:70-75 | the categories listed for a trade name are exactly those of its counted rows |
| Validation.GroupConflict | validation_utils.py:75-78 | two rows with one key and different values give that key more than one value |
| Validation.GroupConflictSource | validation_utils.py:75-78 | a key with more than one value has two rows that disagree |
| Validation.ConsistencyInValidation | validation_utils.py:77-82 | every consistency message is in the result |
| Validation.ConflictReported | validation_utils.py:69-82 | two counted rows with one trade name and different categories make that trade name's consistency message appear |
| Validation.ConflictOnlyForTwoCategories | validation_utils.py:69-80 | a consistency message appears only for a trade name seen with two different valid categories |
| Validation.ConflictSource | validation_utils.py:69-80 | names the two rows behind a consistency message |
| Validation.EntryOfRow | validation_utils.py:72-75 | an entry holds its row's trade name and category |
| Validation.IsHeaderOnly | validation_utils.py:43-58 | a row is header-only exactly when its heading is text starting with "N/A - Header Info Only" and its para number is missing |
| Validation.RowId | validation_utils.py:31 | "Row <index+1> (Para: <para number, or N/A without that column>)" |
| Validation.RowMsgs | validation_utils.py:30-65 | one row's messages: the missing fields in dictionary order, then the category, then the status |
| AuditGroup.ParaColumns | ui_audit_group.py:32-37 | every para column is an editor column, and not a header or session column |
| AuditGroup.HeaderColumns | ui_audit_group.py:32-37 | every header column is an editor column and not a para column |
| AuditGroup.EditorColumnsCovered | ui_audit_group.py:32-37 | the editor columns are the two session columns, the header columns and the para columns |
| AuditGroup.CalculateAuditCircle | ui_audit_group.py:39-44 | a circle exactly for an integer group in 1..30; it is in 1..10, and the group lies in 3c-2..3c |
| AuditGroup.CircleCoversThreeGroups | ui_audit_group.py:39-44 | circle c is exactly the circle of groups 3c-2, 3c-1 and 3c |
| AuditGroup.BaseInfo | ui_audit_group.py:114-119 | the base row holds the session group's circle |
| AuditGroup.FlattenRows | ui_audit_group.py:113-128 | the loop builds one row per para, each the base row updated with the para, or the base row alone when there are no paras |
| AuditGroup.EditorRows | ui_audit_group.py:113-128 | one row per para, or exactly one row when there are none |
| AuditGroup.MissingColumns | ui_audit_group.py:130-131 | lists exactly the selected columns that no row holds |
| AuditGroup.FlattenForEditor | ui_audit_group.py:113-131 | the column selection fails exactly when some editor column is in no row, naming the columns it misses; otherwise the table is `pd.DataFrame` of the rows, with pandas' column types |
| AuditGroup.FlattenForEditorIntended | ui_audit_group.py:113-131 | the editor table has the editor columns, one row per para or one template row, and pandas' column types |
| AuditGroup.NoHeaderMissesColumns | ui_audit_group.py:114-131 | without a header the "gstin" column is missing |
| AuditGroup.SessionOnlyBase | ui_audit_group.py:114-119 | without a header the base row holds only the session group and circle |
| AuditGroup.ParaDumpKeys | ui_audit_group.py:123-124 | a para does not overwrite the GSTIN or the session columns |
| AuditGroup.NoParasMissesColumns | ui_audit_group.py:126-131 | without paras the "status_of_para" column is missing |
| AuditGroup.NoMissingColumns | ui_audit_group.py:130-131 | nothing is missing when the first row holds every selected column |
| AuditGroup.FullReportHasAllColumns | ui_audit_group.py:113-131 | a header and at least one para leave no column missing |
| AuditGroup.FlattenFailsWithoutHeaderOrParas | ui_audit_group.py:113-131 | the selection fails exactly when the header or the paras are absent, and otherwise gives the intended table |
| AuditGroup.FailedExtractionBreaksEditor | ui_audit_group.py:113-131 | a failed extraction makes the selection fail, where one template row was intended |
| AuditGroup.EditorRowPerPara | ui_audit_group.py:121-130 | editor row i holds para i's fields: missing exactly where the para's field is, the same number (an int possibly widened to a float by its column), and text unchanged |
| AuditGroup.ParaNumberWidened | ui_audit_group.py:121-130 | a para numbered n beside an unnumbered para shows n as the float n.0, and the unnumbered one NaN |
| AuditGroup.EditorRowHeaderFields | ui_audit_group.py:114-130 | every editor row holds the header's fields unchanged, since a header column holds one value in every row |
| AuditGroup.EditorRowSessionFields | ui_audit_group.py:115-119 | every editor row holds the session circle, and without a header the session group |
| AuditGroup.EditorCell | ui_audit_group.py:113-131 | each editor cell is NaN where the base-plus-para row lacks the column; otherwise it is missing exactly where that value is and holds the same number, and it is widened to a float exactly when its column, over all rows, is float64 |
| AuditGroup.TemplateRow | ui_audit_group.py:126-128 | with no paras there is one row, with the session circle and empty para fields |
| AuditGroup.SetColumn | ui_audit_group.py:152-153 | assigning a column sets it in every row and adds it once to the columns |
| AuditGroup.InsertFirst | ui_audit_group.py:149 | inserting "MCM Period" puts it first and sets it in every row |
| AuditGroup.Prepared | ui_audit_group.py:146-153 | the prepared table has the sheet's column order and the editor's row count |
| AuditGroup.PreparedRow | ui_audit_group.py:149-153 | every prepared row has the period, the session group and its circle, and the editor's other cells |
| AuditGroup.PreparedRowUpdates | ui_audit_group.py:149-153 | a prepared row is the edited row with the period, group and circle overwritten |
| AuditGroup.SheetRow | ui_audit_group.py:167-172 | an appended row lists the final columns in order, None where absent |
| AuditGroup.SheetRows | ui_audit_group.py:163-172 | one appended row per prepared row: the sheet columns, then the PDF URL ("URL Missing" when absent) and the creation time |
| AuditGroup.ShapeForSheet | ui_audit_group.py:163-172 | the shaping loop gives exactly those rows |
| AuditGroup.AddMissingColumns | ui_audit_group.py:168-170 | every final column becomes present, existing cells are kept, and added cells are None |
| AuditGroup.MasterSheet.constructor | ui_audit_group.py:175 | the sheet starts with the given rows |
| AuditGroup.MasterSheet.Append | ui_audit_group.py:175 | a successful append adds the rows at the end; a failed one changes nothing |
| AuditGroup.Submit | ui_audit_group.py:145-175 | the outcome is the validator as written on the prepared table, AttributeError included; rows are appended only when it returns no message, and then exactly the shaped rows; otherwise the sheet is unchanged |
| AuditGroup.EmptyEditorRejected | ui_audit_group.py:155-159 | an empty editor table is refused with "No data to validate.", and nothing raises |
| AuditGroup.RowsWithUrl | ui_audit_group.py:231-235 | selects, in order, exactly the rows whose PDF URL equals the given one |
| AuditGroup.DeleteSelection | ui_audit_group.py:231-235 | the chosen upload's own row is selected exactly when its URL is not missing; a missing URL selects nothing |
| Agenda.PairGroups | ui_mcm_agenda.py:514-520 | the leading digits split into a first group of one or two and then pairs, which concatenate back to the digits |
| Agenda.GroupDigits | ui_mcm_agenda.py:511-523 | the loop gives the grouped digits joined by commas |
| Agenda.FormatInr | ui_mcm_agenda.py:492-524 | a value that `int()` rejects gives "0"; a negative one gives "-" and the grouping of its absolute value |
| Agenda.InrShortNumbers | ui_mcm_agenda.py:504-509 | 0 and numbers of at most three digits are unchanged |
| Agenda.InrGroupSizes | ui_mcm_agenda.py:511-524 | the last group has three digits, middle groups two, the first one or two |
| Agenda.InrDigits | ui_mcm_agenda.py:504-524 | removing the commas gives back the plain decimal digits |
| Agenda.InrText | ui_mcm_agenda.py:507-523 | the Indian grouping of a natural number's digits joined by commas |
| Agenda.GroupsAreDigits | ui_mcm_agenda.py:511-520 | no group holds a comma |
| Agenda.SchemeLength | ui_mcm_agenda.py:529 | a scheme ends at a colon |
| Agenda.ParseUrl | ui_mcm_agenda.py:529 | a simplified `urlparse`: fragment and query cut off, scheme dropped, host taken after "//" up to the next slash |
| Agenda.QueryValue | ui_mcm_agenda.py:536-538 | a query value found is never empty, as `parse_qs` drops blank values |
| Agenda.FileIdFromDriveUrl | ui_mcm_agenda.py:526-539 | a non-string or empty URL gives nothing, and an id comes only from a drive.google.com host |
| Agenda.HttpsScheme | ui_mcm_agenda.py:529 | "https:" is read as the scheme |
| Agenda.HttpsUrlParts | ui_mcm_agenda.py:529 | an https URL splits into its host and path |
| Agenda.DriveFileIdOfParts | ui_mcm_agenda.py:530-533 | a path "/file/d/…" gives the text up to the next slash |
| Agenda.FileLinkGivesId | ui_mcm_agenda.py:530-533 | "https://<drive host>/file/d/<id>/…" gives `<id>` |
| Agenda.QueryIdGivesId | ui_mcm_agenda.py:536-538 | without a file path, the "id" query value is the id |
| Agenda.SingleIdQuery | ui_mcm_agenda.py:536-538 | a query "id=v" gives v |
| Agenda.OtherHostGivesNothing | ui_mcm_agenda.py:530-539 | any other host gives nothing |
| Agenda.CircleForAgenda | ui_mcm_agenda.py:620-625 | the circle is in 0..10, is 0 exactly outside integer groups 1..30, and otherwise covers the group |
| Agenda.GroupsOfCircle | ui_mcm_agenda.py:716-718 | a circle lists three consecutive groups starting at 3(c-1)+1 |
| Agenda.GroupsOfCircleAgree | ui_mcm_agenda.py:716-718 | the groups listed for circle c are exactly those whose circle is c |
| Agenda.CleanNumericText | ui_mcm_agenda.py:678 | the cleaned text holds only digits and '.', and text made only of those is unchanged |
| Agenda.CleanupDropsSign | ui_mcm_agenda.py:678 | a negative number loses its minus sign |
| Agenda.DecisionDefaultIndex | ui_mcm_agenda.py:824-826 | the default is an index into the three options, non-zero only when the stored decision is that option |
| Agenda.DecisionPreselected | ui_mcm_agenda.py:824-826 | a stored option is preselected when the decision column exists, and the first option otherwise |
| Agenda.PagesOf | ui_mcm_agenda.py:929-945 | a DAR counts as at least one page, and as its page count when fetched with pages |
| Agenda.IndexStartPages | ui_mcm_agenda.py:994-1005 | the first DAR starts two pages after those before the index, and each next one after the pages of all earlier DARs |
| Agenda.StartPagesStep | ui_mcm_agenda.py:1002-1005 | each start page is the previous start plus the previous DAR's pages, and strictly increases |
| Allocation.StrippedGstinHasFifteen | ui_smart_audit_tracker.py:40-45 | after stripping, an accepted GSTIN has exactly fifteen characters of the required shape |
| Allocation.TemplateGstinValid | ui_smart_audit_tracker.py:32-45 | the template's GSTIN passes; the empty text and a fourteen-character one do not |
| Allocation.ValidGstin | ui_smart_audit_tracker.py:40-45 | the GSTIN pattern with `re.match` and `$`: fifteen characters of the required shape, or those followed by one final newline |
| Allocation.FinancialYearStart | ui_smart_audit_tracker.py:47-53 | the year starts in the current year from April on, and in the previous year before |
| Allocation.FinancialYearIdentifies | ui_smart_audit_tracker.py:47-53 | two dates have the same financial year text exactly when their start years agree |
| Allocation.StartYearText | ui_smart_audit_tracker.py:51-53 | the financial year text starts with its first year |
| Allocation.FinancialYearSpansNewYear | ui_smart_audit_tracker.py:47-53 | January to March belong to the year begun the April before |
| Allocation.FinancialYear | ui_smart_audit_tracker.py:47-53 | the text "Y-(Y+1)" for the year Y the financial year starts in |
| Allocation.MissingColumnErrors | ui_smart_audit_tracker.py:573-582 | one error per missing required column, none exactly when all are present |
| Allocation.TradeNameCheckAsWritten | ui_smart_audit_tracker.py:590 | `not row.get("Trade Name")` lets NaN through, and agrees with the intended check elsewhere |
| Allocation.RowMessage | ui_smart_audit_tracker.py:588-613 | every row error starts with its row label |
| Allocation.TradeNameProblems | ui_smart_audit_tracker.py:590-591 | the intended check: a problem exactly when the trade name is None, NaN or falsy |
| Allocation.TradeNameProblemsAsWritten | ui_smart_audit_tracker.py:590-591 | the check the upload runs: a problem exactly when the cell is falsy, so NaN passes |
| Allocation.CategoryProblems | ui_smart_audit_tracker.py:592-593 | a problem exactly when the category is not Large, Medium or Small |
| Allocation.CircleProblems | ui_smart_audit_tracker.py:595-600 | a problem exactly when the circle is not an integer in 1..10 |
| Allocation.GroupProblems | ui_smart_audit_tracker.py:602-608 | a problem exactly when the group column exists and holds a value that is not an integer in 1..30 |
| Allocation.DuplicateProblems | ui_smart_audit_tracker.py:566-614 | a problem exactly when duplicates can be checked and the GSTIN is registered for the year |
| Allocation.RowProblems | ui_smart_audit_tracker.py:584-614 | at most five problems per row, the trade name checked as written |
| Allocation.RowAccepted | ui_smart_audit_tracker.py:584-620 | a row has no problem exactly when its GSTIN passes, its trade name is truthy (NaN included), its category, circle and group pass, and it is not a duplicate |
| Allocation.BlankTradeNamePasses | ui_smart_audit_tracker.py:584-620 | an otherwise valid row with a blank (NaN) trade name has no problem, where the intended check reports it |
| Allocation.Labelled | ui_smart_audit_tracker.py:588-613 | one labelled message per problem, in order |
| Allocation.RowErrorsNameTheRow | ui_smart_audit_tracker.py:588-613 | a row's errors are its problems, each labelled with the row number (index+2) |
| Allocation.UploadPassesOnlyIfEveryRowPasses | ui_smart_audit_tracker.py:584-626 | no upload errors means no row has an error |
| Allocation.AnyStartsWith | ui_smart_audit_tracker.py:618 | no message starts with anything when there are none |
| Allocation.CheckRequiredColumns | ui_smart_audit_tracker.py:573-578 | the column loop gives exactly the missing-column errors |
| Allocation.RowsErrorsSnoc | ui_smart_audit_tracker.py:584-620 | each row adds its errors after the earlier rows' |
| Allocation.UploadErrors | ui_smart_audit_tracker.py:573-622 | the missing-column errors when there are any, and otherwise the errors of every row in order |
| Allocation.CheckRows | ui_smart_audit_tracker.py:584-620 | the row loop gives exactly the rows' errors (trade name checked as written), and keeps every row when there are none |
| Allocation.ValidateUpload | ui_smart_audit_tracker.py:566-626 | the upload errors are the missing columns, or else the rows' errors as the code checks them; without errors every row is valid |
| Allocation.SavedRows | ui_smart_audit_tracker.py:638-645 | each saved row is its uploaded row with the allocation fields set |
| Allocation.RegisterWithUpload | ui_smart_audit_tracker.py:638-648 | the register after an upload holds one row more per uploaded row |
| Allocation.UploadAppendsRows | ui_smart_audit_tracker.py:638-648 | the register keeps its rows and then holds the saved upload rows, in order |
| Allocation.UploadColumns | ui_smart_audit_tracker.py:638-648 | the register keeps its columns first, and then gains the allocation fields and the upload's columns |
| Allocation.SavedRowFields | ui_smart_audit_tracker.py:638-645 | a saved row is not reassigned, has no old group, has the year, and keeps its other cells |
| Allocation.ProcessAllocationUpload | ui_smart_audit_tracker.py:551-655 | any error (as the code checks rows, so a NaN trade name is none) or a failed PDF upload leaves the sheet unchanged; otherwise the sheet is written with the register plus the saved rows |
| Allocation.FirstMatch | ui_smart_audit_tracker.py:758-763 | finds the first row with the GSTIN and year, or shows there is none |
| Allocation.Reassigned | ui_smart_audit_tracker.py:775-781 | reassignment keeps the row count |
| Allocation.ReassignKeepsOtherRows | ui_smart_audit_tracker.py:775-781 | every other row is unchanged |
| Allocation.ReassignedRowFields | ui_smart_audit_tracker.py:775-781 | the row is flagged, its old group and circle are recorded, the new group, circle and PDF are set, and its other cells are kept |
| Allocation.ReassignedRow | ui_smart_audit_tracker.py:775-781 | the reassigned row: flagged, the old group and circle recorded, the new group, circle, date and PDF set |
| Allocation.ProcessReassignment | ui_smart_audit_tracker.py:749-793 | a missing key column fails, no match changes nothing, a failed upload changes nothing; otherwise the first match is rewritten in place and the table written back |
| Allocation.RewriteRow | ui_smart_audit_tracker.py:775-781 | the seven `.loc` assignments give the reassigned table |
| Allocation.RecordOldAllocation | ui_smart_audit_tracker.py:775-777 | sets the flag and records the old group and circle |
| Allocation.AssignNewAllocation | ui_smart_audit_tracker.py:778-781 | sets the new group, circle, date and PDF path |
| Allocation.ReassignAddsFields | ui_smart_audit_tracker.py:775-781 | the table gains exactly the reassignment columns it lacked |
| Allocation.WithoutBatch | ui_smart_audit_tracker.py:283 | keeps exactly the rows whose upload time differs from the batch's |
| Allocation.WithoutBatchIsMask | ui_smart_audit_tracker.py:283 | the kept rows are the masked rows: in their order, repeats kept |
| Allocation.BatchDeletionMatchesTimeOnly | ui_smart_audit_tracker.py:283 | every row uploaded at the batch's time goes, whatever its year or PDF |
| Allocation.WithoutGstin | ui_smart_audit_tracker.py:312-314 | keeps exactly the rows not matching the GSTIN and year, and all rows when none match |
| Allocation.WithoutGstinIsMask | ui_smart_audit_tracker.py:312-314 | the rows written back are those not dropped, in their order, repeats kept |
| Allocation.DeleteGstin | ui_smart_audit_tracker.py:310-316 | nothing happens without a GSTIN and year or without a match; otherwise the sheet is written without the matching rows |
| Allocation.KeptSameLength | ui_smart_audit_tracker.py:313 | when nothing is dropped the rows are unchanged |
| Frames.Trunc | ui_mcm_agenda.py:498 | `int()` of a float truncates toward zero |
| Frames.ToInt | ui_audit_group.py:41 | `int()` keeps an integer and rejects a missing value |
| Frames.Truthy | ui_smart_audit_tracker.py:590 | Python truthiness of a cell: None, False, zero and "" are false; NaN is true |
| Frames.PdEq | ui_smart_audit_tracker.py:612 | element-wise `==`: a missing value never compares equal |
| Frames.MaskPositions | ui_smart_audit_tracker.py:283 | the positions a boolean mask selects: ascending, and exactly those whose row passes |
| Frames.Select | ui_smart_audit_tracker.py:283 | the rows at the given positions, in that order |
| Frames.AsFloat | ui_audit_group.py:130 | storing a cell in a float64 column keeps whether it is missing and the number it holds, turns a number into a float and leaves other values alone |
| Frames.FromRecords | ui_audit_group.py:130 | `pd.DataFrame(records)[cols]` has the selected columns in every row and one row per record |
| Frames.RecordCellKeepsValue | ui_audit_group.py:130 | a cell is NaN where its record lacks the key; otherwise it is missing exactly where the record's value is, holds the same number, and any other value unchanged |
| Frames.RecordCellTyped | ui_audit_group.py:130 | a cell is widened exactly when its column over all records is float64: numbers and missing values only, at least one number, not all ints |
| Frames.UniformColumnKept | ui_audit_group.py:130 | a column holding one value in every record keeps it |
| Frames.IntColumnKept | ui_audit_group.py:130 | a column of ints with none missing stays int |
| Frames.IntColumnWithNoneWidens | ui_audit_group.py:130 | a column of ints and Nones holding both becomes float64: each int is widened, each None becomes NaN |
| AuditGroup.ParaColumnCells | ui_audit_group.py:121-125 | each editor row holds its own para's fields |
| Frames.IntBesideNoneWidens | ui_audit_group.py:130 | an int beside a None becomes a float, and the None becomes NaN |
| Frames.AddColumnKeeps | ui_smart_audit_tracker.py:775 | assigning a new column appends it after the existing ones |
| Frames.Union | ui_smart_audit_tracker.py:648 | concatenation keeps the first table's columns first and adds the others |
| Frames.DataFrame.constructor | ui_smart_audit_tracker.py:752 | a data frame starts as the table read |
| Frames.DataFrame.SetAt | ui_smart_audit_tracker.py:775 | `.loc[i, col] = v` changes that one cell and adds the column when new |
| Sorting.SortedUnique | validation_utils.py:82 | `sorted(set(...))` is strictly sorted with the same elements |
| Sorting.SortedUniqueCanonical | validation_utils.py:82 | the result depends only on the set of messages |
| Sorting.SortedUniqueIdempotent | validation_utils.py:82 | sorting and de-duplicating twice is the same as once |
| Sorting.SortDesc | reports_utils.py:47 | the sort by count is descending and a permutation |
| Basics.Strip | ui_smart_audit_tracker.py:585 | `str.strip()`: the result is no longer than the text and neither starts nor ends with whitespace |
| Basics.StripSlice | ui_smart_audit_tracker.py:585 | `str.strip()` returns a contiguous slice of the text, and everything it cuts off on either side is whitespace |
| Basics.ParseInt | ui_smart_audit_tracker.py:596 | `int()` on text: surrounding whitespace, an optional sign, then decimal digits |
| Basics.ParseIntOfIntToString | ui_smart_audit_tracker.py:596 | `int(str(i)) == i` for every integer |
| Basics.ReplaceAll | dar_processor.py:26 | `str.replace`: one left-to-right pass over non-overlapping occurrences |
| Basics.ReplaceAllAbsent | dar_processor.py:26 | a text without the pattern is unchanged |
| Basics.ReplaceAllByEmptyShrinks | dar_processor.py:26 | removing a pattern never lengthens the text |
| Sheets.DriveQuery | google_utils.py:48-52 | the query starts with the name clause and ends with the parent clause when given, or else with the mime clause when given |
| Sheets.QueryWithBothClauses | google_utils.py:48-52 | with both given the query is name, mime, parent clauses in that order |
| Sheets.QueryWithOneClause | google_utils.py:48-52 | with only the parent given the query is the name clause then the parent clause; with only the MIME type, the name clause then the MIME clause |
| Sheets.CreatedSpreadsheet | google_utils.py:611-619 | an id and URL exactly when the service returned a non-empty id, the URL under the spreadsheets prefix |
| Sheets.SpreadsheetUrlNamesId | google_utils.py:615 | the URL holds the id right after the prefix |
| Sheets.PadRow | google_utils.py:740-746 | a row is padded with None or cut to exactly the header width, and a row of that width is unchanged |
| Sheets.ReadGrid | google_utils.py:727-748 | no values gives an empty table; otherwise the header is the first row and each data row has its width |
| Sheets.ReadKeepsRowOrder | google_utils.py:739-746 | data row i is sheet row i+1 padded or cut |
| Sheets.ReadFromSpreadsheet | google_utils.py:720-756 | the loop gives exactly the read grid |
| Sheets.Filled | google_utils.py:769 | `fillna('')` leaves no missing value and keeps the others |
| Sheets.HeaderRow | google_utils.py:770 | the first written row is the column names |
| Sheets.DataRow | google_utils.py:769-770 | a written row lists the row's cells in column order, filled |
| Sheets.PreparedValues | google_utils.py:769-770 | the values written are the header row and then one row per table row |
| Sheets.ReadBackWritten | google_utils.py:720-770 | reading back written values gives the header and every filled row |
| Sheets.Spreadsheet.constructor | google_utils.py:720 | a sheet starts with the given values |
| Sheets.Spreadsheet.UpdateFromTable | google_utils.py:758-787 | a successful write replaces the values with the prepared values; a failed one leaves them |
| Sheets.AfterWrite | google_utils.py:758-787 | a write leaves the prepared values; a failure before the clear leaves the old values, one after it an empty sheet |
| Sheets.Spreadsheet.DeleteRows | google_utils.py:884-916 | no indices succeed with no request; otherwise the requests are built and applied only when the batch succeeds |
| Sheets.Descending | google_utils.py:890 | `sorted(..., reverse=True)` is descending and a permutation |
| Sheets.DeleteRequests | google_utils.py:888-903 | one request per index, in descending order, each deleting sheet row idx+1 alone |
| Sheets.BuildDeleteRequests | google_utils.py:888-903 | the loop builds exactly those requests |
| Sheets.BottomUpDeletion | google_utils.py:888-909 | deleting from the bottom up removes exactly the requested rows |
| Sheets.DeleteRequestsRemoveSelectedRows | google_utils.py:884-909 | the requests remove exactly the selected data rows and keep the header |
| Sheets.RequestsBottomUp | google_utils.py:890-900 | for distinct in-range indices the requests go strictly bottom up, below the header |
| Sheets.RequestStartsShifted | google_utils.py:893 | the rows requested are the data indices shifted by one |
| LoginReport.GetLogData | reports_utils.py:18-27 | the log table always has the three log columns; it is the sheet as read or empty, and empty without an id or with other columns |
| LoginReport.WellShapedLogKept | reports_utils.py:21-27 | a non-empty sheet with exactly the log columns is returned as read |
| LoginReport.WithParsedTimestamps | reports_utils.py:35 | every row's timestamp is parsed, and is missing where it cannot be |
| LoginReport.WithoutMissing | reports_utils.py:36 | keeps exactly the rows whose timestamp is present |
| LoginReport.WithoutMissingIsMask | reports_utils.py:36 | `dropna` keeps the rows with a value, in their order, repeats kept |
| LoginReport.CleaningKeepsParsedRows | reports_utils.py:35-36 | a row survives cleaning exactly when its timestamp parses, and every survivor holds a parsed time |
| LoginReport.CleanTimestamps | reports_utils.py:35-36 | the log is cleaned in place, keeping its columns |
| LoginReport.Recent | reports_utils.py:39-40 | keeps exactly the rows at or after the cutoff |
| LoginReport.RecentIsMask | reports_utils.py:40 | the recent rows are the masked rows: in their order, repeats kept |
| LoginReport.KeysOf | reports_utils.py:46 | the grouping keys of the rows whose username and role are both present |
| LoginReport.TallyFacts | reports_utils.py:46 | one count per distinct key, each the key's number of logins, summing to the number of logins |
| LoginReport.LoginCountsFacts | reports_utils.py:46-47 | the counts are sorted descending, one per (username, role), each exactly that key's logins, and they sum to the logins counted |
| LoginReport.LoginCounts | reports_utils.py:46-47 | the per-(username, role) tallies sorted by count, most first |
| LoginReport.ReportOf | reports_utils.py:42-47 | no recent login gives an empty report; otherwise the report columns and one row per count |
| LoginReport.ReportCountsLogins | reports_utils.py:46 | every report row counts exactly the recent logins of its username and role |
| LoginReport.ReportDescending | reports_utils.py:46-47 | counts never increase down the report, and no username and role has two rows |
| LoginReport.LoginCountsOrdered | reports_utils.py:47 | an earlier count is at least a later one, for a different key |
| LoginReport.ReportCoversLogins | reports_utils.py:46 | every username and role with a recent login has a row |
| LoginReport.ReportRowAt | reports_utils.py:46-47 | report row i is the i-th count with its key and count |
| LoginReport.GenerateLoginReport | reports_utils.py:29-49 | an empty log gives an empty report and stays unchanged; otherwise the log is cleaned in place and the report counts its recent logins |

## Left out

- Streamlit, the Google Drive and Sheets clients, pdfplumber and the
  Gemini client are not modelled. Each call's result is a parameter:
  - page extraction is a sequence of page outcomes;
  - the model's replies are a sequence, and JSON decoding with pydantic
    building is an abstract `decode` function;
  - a sheet read is a table or grid given as input;
  - a write, append or batch update is a success flag.
- The clock (`datetime.now`, `time.time`) and `time.sleep` are not
  modelled. Times are parameters, and pauses are recorded as numbers of
  seconds.
- Extraction.GetStructuredDataWithGemini: requires more scripted replies
  than retries. A reply sequence cannot run out, so the oracle must cover
  every call.
- Extraction.RetryLoop: requires the same of its reply sequence.
- Extraction.RetryLoop: states the retries one attempt at a time (through
  `RetriedBefore`) rather than as a closed formula for the pauses.
- Floats keep the text Python would print, and no arithmetic is done on
  them.
- Cross-type numeric equality (`1 == 1.0`) is not modelled.
- Agenda.FileIdFromDriveUrl: uses a simplified `urlparse` and `parse_qs`
  (`Agenda.ParseUrl`, `Agenda.QueryValue`). Left out are:
  - percent-decoding, and `;` as a query separator;
  - `parse_qs` turning '+' into a space;
  - `urlsplit` stripping leading whitespace and C0 control characters, and
    removing tabs and newlines anywhere in the URL;
  - the ValueError `urlsplit` raises for a malformed IPv6 host;
  - `urlparse` splitting `;params` off the last path segment, so
    "https://drive.google.com/file/d/ABC;x" gives "ABC" in Python and
    "ABC;x" here.
- Validation.RowId and Allocation.RowLabel: take the row's position as its
  pandas index label. The code reads the label from `iterrows()`, and a
  table whose index is not 0, 1, 2, … would give other row numbers.
- Basics.ParseInt: does not accept underscores in `int()` text.
- Letters and digits are ASCII. `\d`, `str.strip` and
  `str.isdigit` are not modelled beyond that.
- LoginReport.LoginCountsFacts: fixes one order for equal counts, where
  pandas leaves ties unspecified. The key sort that `groupby` performs
  first is not modelled.
- Timestamps are whole seconds. Parsing (`pd.to_datetime`) is a
  parameter.
- Sheets.ReadBackWritten: assumes the service returns the grid exactly
  as written. The Sheets API leaves out trailing empty cells of a row, so
  a written "" at the end of a row would come back as padding (None from
  `PadRow`).
- Frames.FromRecords: pandas' type choice is modelled for columns that
  hold at least one number. A column holding only missing values keeps
  its cells. The exponent form that `str()` gives a float of 10^16 or
  more is not modelled (`Frames.IntAsFloat` prints "n.0"). Nullable
  and int64 overflow types are not modelled.
- Sheets.Spreadsheet.DeleteRows: treats the sheet as one grid and ignores
  the gid.
- The USER_ENTERED value conversion of a write is not modelled.
- The `to_numeric` conversion after the agenda cleanup is not modelled.
  Neither are the defaults given to absent columns (ui_mcm_agenda.py:679-681).
- The conversion of a read grid into a data frame is not modelled: the
  register operations take the table as read. Duplicate header names are
  not modelled.
- The PDF file names built from the financial year and the clock are not
  modelled.
- Allocation.WithoutGstin: a register lacking the GSTIN or Financial Year
  column, where the code raises KeyError, is modelled as matching no row.
- Some call sites in ui_audit_group.py (lines 175 and 238) pass fewer
  arguments than the last definitions of `append_to_spreadsheet` and
  `delete_spreadsheet_rows` in google_utils.py take. The model follows what
  the call sites evidently mean: append the rows, delete the selected rows.
- The batch list that the deletion screen groups (ui_smart_audit_tracker.py:272-281)
  is display code and is not modelled; only the filter at line 283 is.
- The dead code in the source files is not modelled: commented-out blocks,
  and definitions shadowed by later ones. Nor are the other screens
  (app.py, ui_login.py, ui_pco.py, ui_pco_reports.py) or config.py.

## Findings

The operations follow the code as written. `Validation.ValidateDataForSheet`
and `AuditGroup.Submit` raise on a heading that is not text. The upload
check (`Allocation.RowProblems`, and the loops and the upload built on it)
lets a NaN trade name through. The corrected definitions stand beside them,
with the intended property proved of each.

| source | as written | input that shows it | evidently intended | confidence | as-written member | corrected member |
|---|---|---|---|---|---|---|
| validation_utils.py:43,58 | `row.get('audit_para_heading', "").startswith(...)` is called on whatever the cell holds | a table with one row whose "audit_para_heading" is None | report "'Audit Para Heading' is missing or empty." for that row | not executed | Validation.NullHeadingCrashes | Validation.Validation |
| ui_audit_group.py:131 | `df_extracted[DISPLAY_COLUMN_ORDER_EDITOR]` selects columns the rows may not have | a report with no paras, such as any failed extraction | one template row holding the base fields, as the warning at line 127 announces | not executed | AuditGroup.FlattenFailsWithoutHeaderOrParas | AuditGroup.FlattenForEditorIntended |
| ui_smart_audit_tracker.py:590 | `not row.get("Trade Name")` is false for NaN | an uploaded row whose Trade Name cell is blank, read by pandas as NaN | report "'Trade Name' cannot be empty." | not executed | Allocation.BlankTradeNamePasses | Allocation.TradeNameProblems |

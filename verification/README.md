# AI consultation notes analyzer: analysis task and upload text extraction

This project models two parts of a Django/Celery service that summarises
professional notes with a language model.

- **The analysis record and its lifecycle.** A `NoteAnalysis` row holds the
  submitted text, the four analysis outputs (summary, key points, missing
  information, next actions), a status and an error text. The status is a
  closed four-value enumeration.
- **The background task `analyze_note_task`.** The task loads the record and
  marks it `processing`. It then calls the model and decodes the output as
  JSON. Last it writes the outputs and `completed`, or `failed` with an error
  text. Celery's `autoretry_for` re-runs the task for every `Exception` that
  escapes, up to `max_retries` times.
- **Upload text extraction.** The lower-cased file name picks the PDF or the
  DOCX extractor, or the upload is refused. Each extractor joins the page or
  paragraph texts with line breaks and strips whitespace from both ends.

Files:

- `wrappers.dfy`: `Option` and `Result`.
- `json.dfy`: decoded JSON values, Python type names, and `dict.get`.
- `models.dfy`: module `Notes`. It holds the status, the record, the defaults
  of a new row, and the `__str__` rendering together with a parser that
  inverts it.
- `tasks.dfy`: module `AnalysisTask`. It holds one attempt as a pure step
  (the saves issued, the final record, the escaping exception), the table
  the saves go to, and the bounded retry driver.
- `services.dfy`: module `TextExtraction`. It holds suffix routing, Python's
  `str.strip`, and the two extractors.

Two things are parameters of the model rather than part of it:

- **The model call plus `json.loads`.** One attempt's result is an
  `LlmOutcome`: `Parsed(value)`, `DecodeError`, or `OtherError(message)`.
- **The model across a whole dispatch.** The driver receives
  `respond(attempt, raw_text)`. The answers may differ from attempt to
  attempt, because sampling makes them vary.

Two behaviours of the code are worth knowing:

- A missing record is retried like any other exception. The lookup raises
  outside the `try`, and the queue retries it until the cap, so a missing
  record costs four attempts (`MissingRecordExhaustsRetries`).
- The success branch never clears `error`. A record that failed once and then
  succeeded is `completed` and still carries the old error text
  (`StaleErrorSurvivesRecovery`).

A failing branch also leaves the four output fields as they were, so a
completed record that is re-run and fails keeps its earlier outputs.

## Model

| member | source | states |
|---|---|---|
| Notes.Status.Text | core/models.py:4-28 | Each status is stored as its lower-case name, one to twenty letters, which fits the status column's max_length of 20. |
| Notes.Status.Label | core/models.py:9-14 | Each choice label is its stored value with the first letter capitalised. |
| Notes.StatusFromText | core/models.py:4-14 | Only the four stored values "pending", "processing", "completed" and "failed" read back as a status; any other text is rejected. |
| Notes.StatusTextRoundTrip | core/models.py:4-14 | Each status survives being stored as text and read back, and distinct statuses are stored as distinct texts. |
| Notes.StatusChoices | core/models.py:9-14 | The choices list has exactly four entries. It pairs every status's stored value with its label, and each stored value in it is a legal status. |
| Notes.NewNoteAnalysis | core/models.py:16-32 | A new row is pending. Its summary and error are empty text, and key points, missing info and next actions are null rather than empty lists. The supplied identity fields are kept. |
| Notes.Decimal | core/models.py:34-35 | The id is rendered in decimal: non-empty, digits only, no leading zero, and it reads back as the id. |
| Notes.Describe | core/models.py:34-35 | The rendering is "NoteAnalysis #", the id as a decimal numeral without leading zeros, " - ", then the stored status value. It determines the record's id and status: parsing it back yields exactly them. |
| AnalysisTask.Step | core/tasks.py:18-55 | On a found record there are two saves: first status-only to `processing`, then the full record. The record ends `completed` or `failed`, never `processing`, for every outcome the model call can have short of the worker dying or an exception outside Python's `Exception` class (see "## Left out"). It is `completed` exactly for a decoded JSON object. Only a decode failure or success is absorbed; every other error escapes. A failure leaves the four output fields as they were. |
| AnalysisTask.CopyPayload | core/tasks.py:39-43 | The success branch reads each of the four keys as `dict.get` does. The stored value is copied even when it is null or of an unexpected type, and an absent key gives "" for `summary` and an empty list for the others. The status becomes `completed`, while the error text and identity fields are kept. |
| AnalysisTask.Attempt | core/tasks.py:16-55 | A missing record raises from the lookup before any save and escapes. A found record goes through `Step`. |
| AnalysisTask.SuccessCopiesPayload | core/tasks.py:37-44 | A decoded object completes the record. `summary`, `key_points`, `missing_information` and `suggested_next_actions` are copied verbatim into the four output fields. An absent key gives "" or []. The error text is kept, and nothing escapes. |
| AnalysisTask.SuccessIgnoresPriorOutputs | core/tasks.py:39-44 | Given the same decoded object, any record, completed or not, ends with the same four output fields. |
| AnalysisTask.DecodeErrorIsAbsorbed | core/tasks.py:46-49 | On a decode failure the record becomes `failed` with the error "Invalid JSON returned from AI". No other field changes and nothing escapes. |
| AnalysisTask.OtherErrorIsReraised | core/tasks.py:39-55 | On any other exception the record becomes `failed` with error = the exception's text, and the exception is re-raised. This includes a decoded non-object, whose `.get` raises "'<type>' object has no attribute 'get'" before any field is set. No other field changes. |
| AnalysisTask.ApplyWriteEffects | core/tasks.py:19-54 | A status-only save (`update_fields=["status"]`) of an existing row changes that row's status column alone. A full `save()` makes the row exactly the in-memory record. Neither save touches any other row. |
| AnalysisTask.InFlightRowOnlyChangesStatus | core/tasks.py:18-19 | While the model is being called, the stored row equals the loaded row except that its status is `processing`. No other row changes. |
| AnalysisTask.AttemptPersistsFinalRecord | core/tasks.py:17-55 | After an attempt's saves, the row holds exactly the attempt's final record and no other row changes. An attempt on a missing record changes nothing. |
| AnalysisTask.RunFrom | core/tasks.py:10-27 | Attempts continue only while an exception escapes and retries remain. Every attempt but the last raised. A recorded failure means the cap was reached. Only the task's row changes, and only in its output fields, status and error. The last attempt's record stands, as `completed` or `failed`. For a stored record every attempt is the task's own: `Step` on the row the previous attempt saved (the stored row for the first), with the model's answer for that attempt number on the unchanged note text. |
| AnalysisTask.Run | core/tasks.py:10-16 | One dispatch runs between 1 and 4 attempts (`max_retries` = 3). Attempts continue only while an exception escapes: every attempt but the last raised, and the recorded failure is the last attempt's exception. Four attempts are used up whenever the queue ends with a failure. For a stored record the last attempt's record stands, `completed` or `failed`, and no other row changes. Attempt k is `Step` on the row the previous attempt left (the stored row for the first) with the model's answer to attempt k. |
| AnalysisTask.MissingRecordExhaustsRetries | core/tasks.py:10-17 | A missing record is retried to the cap: four attempts, none of which writes, with the lookup error as the final failure. |
| AnalysisTask.DecodeFailureIsNotRetried | core/tasks.py:46-49 | A first-attempt decode failure ends the dispatch after one attempt. The row is `failed` with the fixed message and the queue records no failure. |
| AnalysisTask.FirstAttemptSuccess | core/tasks.py:37-44 | A first-attempt decoded object ends the dispatch after one attempt. The row is `completed` with the payload copied in and its error text unchanged. |
| AnalysisTask.PersistentErrorExhaustsRetries | core/tasks.py:10-15 | An error that recurs on every attempt uses all four attempts. The row ends `failed` with that error and the queue records it. |
| AnalysisTask.StaleErrorSurvivesRecovery | core/tasks.py:39-44 | If the first attempt raises and the retry decodes an object, the dispatch takes two attempts. The row ends `completed` and still carries the first attempt's error text. |
| TextExtraction.Route | core/services.py:5-13 | A name routes to PDF exactly when its lower-cased form ends in ".pdf", and to DOCX exactly when it ends in ".docx". Every other name is refused with "Unsupported file type". |
| TextExtraction.RouteIgnoresCase | core/services.py:6 | A name and its upper-cased form route identically. |
| TextExtraction.UnsupportedExamples | core/services.py:12-13 | "notes.DOC", "notes.txt" and "README" are refused. |
| TextExtraction.RouteBySuffix | core/services.py:6-11 | Any name whose suffix is ".pdf" or ".docx", written in any mix of upper and lower case, reaches that extractor, whatever stem comes before the suffix. |
| TextExtraction.Strip | core/services.py:21 | The stripped text has no whitespace at either end and is never longer than the input. It is empty exactly when the input is all whitespace. |
| TextExtraction.StripSplit | core/services.py:21 | The input is an all-whitespace head, then the stripped text, then an all-whitespace tail. |
| TextExtraction.StripUnique | core/services.py:21 | Take any split of the input into a whitespace head, a non-empty piece without whitespace at its ends, and a whitespace tail. The stripped text is that piece. |
| TextExtraction.StripIdempotent | core/services.py:21 | Stripping a stripped text changes nothing. |
| TextExtraction.StripIgnoresTrailingSpace | core/services.py:21 | Whitespace appended to a text does not change its stripped form. |
| TextExtraction.PageConcatAppends | core/services.py:17-20 | The PDF text accumulates in page order. No pages give "", and each further page extends the text of the pages before it by that page's text and one line break. |
| TextExtraction.PageConcatIsJoinPlusBreak | core/services.py:17-20 | For a non-empty page list, appending each page plus a line break equals joining the pages with line breaks and adding one final break. |
| TextExtraction.ExtractPdf | core/services.py:16-21 | PDF text is the page texts joined by line breaks with whitespace stripped from both ends: the line break the loop adds after the last page is stripped away. It has no whitespace at either end, and an empty page list gives "". |
| TextExtraction.ExtractDocx | core/services.py:24-26 | DOCX text has no whitespace at either end. An empty paragraph list gives "", and one paragraph gives that paragraph stripped. For any list, the result is the paragraphs joined by line breaks and then stripped: this follows from `PdfAndDocxAgree` and `ExtractPdf`'s contract. |
| TextExtraction.PdfAndDocxAgree | core/services.py:16-26 | Given the same list of texts, the PDF extractor and the DOCX extractor return the same string. |
| TextExtraction.ExtractTextFromFile | core/services.py:5-13 | An upload fails exactly when its name is refused by the routing, and then with "Unsupported file type". Otherwise it gives the chosen extractor's text, which has no whitespace at either end. |

## Left out

- The model client call (core/tasks.py:7, 22-32) is a network call. Its model name, token cap and temperature are not modelled. Its result appears only as an `LlmOutcome`, chosen by the `respond` parameter.
- The instruction template (core/prompts.py) is a fixed text wrapped around the raw note text. `respond` receives the raw text, which is the only part of the request that varies.
- `json.loads` is a library parser. Only its three kinds of result are modelled.
- Retry timing (`retry_backoff=10`, Celery's jitter) is left out. Only the attempt count is modelled.
- Broker and application wiring (config/celery.py) is left out, and so are URL routing, views, serializers and the admin (core/urls.py, core/views.py, core/serializers.py, core/admin.py).
- Save failures are left out: every save is assumed to succeed. For example, a decoded `"summary": null` would make the full save fail on the non-null text column, and that path is not modelled.
- Database coercion of field values is left out. A non-string summary stored in the text column comes back from the database as its string form. The model keeps the value exactly as assigned.
- An exception outside Python's `Exception` class (`KeyboardInterrupt`, `SystemExit`), or a worker that dies during the model call (for example at a hard time limit set through the Celery settings), is not modelled. Such an exception passes both `except` clauses and is outside `autoretry_for`, so the row stays `processing` and the queue does not retry it.
- Concurrent attempts on the same record are left out. The code does not guard against them, and the last writer wins.
- pdfplumber and python-docx are left out. An upload carries the page and paragraph texts they would report. A page whose `extract_text()` returns `None`, and a file those libraries cannot open, are not modelled.
- Lower and Upper map only the ASCII letters, unlike Python's full Unicode case mapping. For routing this changes nothing. The only non-ASCII characters whose lower-case form is ASCII are the Kelvin sign (to "k") and the dotted capital I (to "i" plus a combining dot). Neither can produce a character of ".pdf" or ".docx".
- Notes.Describe: an unsaved record, whose id is `None` and which renders as "NoteAnalysis #None - …", is not modelled. Ids are natural numbers.
- `created_at` (auto-set on insert) and the uploaded file reference are opaque values supplied by the caller.

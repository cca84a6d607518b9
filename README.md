# Question bank and exam layout, verified in Dafny

This project models the logic of a small exam generator for teachers. A
teacher uploads a comma-separated question bank, filters it by topic, asks an
AI service to reword a question, deletes questions or empties the bank, and
exports an exam. The exam is a PDF: a header block, the numbered questions
filled greedily down the pages, `Pág. i / N` footers on the question pages,
and an answer key on pages of its own.

Modules, one per concern:

- `Wrappers`: `Option` and `Result`.
- `Strings`: the JavaScript string operations the code relies on, with their
  laws. These are `trim` (the full ECMAScript whitespace set), ASCII
  `toLowerCase`/`toUpperCase`, `includes`, `split` on one character with
  `join` as its inverse, and decimal rendering of numbers.
- `Questions`: the records `Question`, `ExamConfig` and `GeneratedExam`. A
  question is an identifier plus a map from header name to value, because
  ingest sets every header as a key.
- `Csv`: the ingest in `handleFileUpload`, from the decoded text on.
- `Bank`: the topic filter, delete, the AI rewrite, the export checks and the
  random draw. The class `QuestionBank` holds the page's state slots (bank,
  rewrite in flight, error) and its methods replace them as the handlers do.
- `ExamPdf`: `generateExamPdf`, i.e. the header fallbacks, the two greedy page
  fills as loops over a page/y cursor, the footer loop and the file name. Each
  loop is proved equal to a specification function (`Flow`), and the layout
  properties are proved about that function.

Behaviour the code has and a reader might not expect, all modelled as the
code has it:

- Rows whose `pregunta` is empty are kept.
- Lines are split on `'\n'` only. A trailing `'\r'` disappears because every
  value is trimmed.
- A byte-order mark at the start of the file is removed from the first header
  by `trim`, since U+FEFF is whitespace for `trim`.
- A comma inside quotes still splits the field.
- A header literally named `id` overwrites the numeric identifier with that
  column's text.
- A repeated header keeps the value of its last column.
- The count of questions is not clamped, and an empty topic pool does not
  fall back to the whole bank. Export is refused instead.
- Two consecutive questions taller than a page leave an empty page between
  them (`ExamPdf.QuestionTallPairSkipsPage`).

A reader might also expect a CSV importer to detect `;` as the separator,
strip quotes around fields, drop rows whose question is empty, fall back to
column positions when the headers are unusual, clamp the requested count and
fall back to the whole bank when no question matches the topic. `App.tsx`
does none of these, and the model does not either.

## Model

| member | source | states |
|---|---|---|
| Strings.TrimIsSlice | App.tsx:48 | `trim` removes a leading and a trailing run of whitespace and nothing else; the result neither starts nor ends with whitespace |
| Strings.TrimEmptyIff | App.tsx:56 | `row.trim() !== ''` holds exactly when the line has a character other than whitespace |
| Strings.TrimIdempotent | App.tsx:58 | trimming a trimmed value changes nothing |
| Strings.LowerIdempotent | App.tsx:48 | lower-casing is idempotent and leaves no ASCII capital |
| Strings.ContainsIff | App.tsx:81-82 | `includes` holds exactly when the term occurs at some position, in both directions |
| Strings.JoinSplit | App.tsx:47 | joining the pieces of `split` with the separator gives back the text |
| Strings.SplitJoin | services/pdfService.ts:99 | splitting a join of separator-free pieces gives back the pieces |
| Strings.DigitsValueOfNatToString | services/pdfService.ts:70 | the decimal text of a page number reads back as that number |
| Csv.Cells | App.tsx:58 | a data line's values are its comma-separated pieces, each trimmed (the trim laws are `Strings.TrimIsSlice` and `Strings.TrimIdempotent`) |
| Csv.Headers | App.tsx:47-48 | there is always a header line with at least one header |
| Csv.HeadersNormalized | App.tsx:48 | every header is trimmed, lower-cased and free of commas |
| Csv.NonBlank | App.tsx:55-56 | the data lines that are not blank under `trim`, in file order, never more than there are lines (characterised by `Csv.NonBlankMembers` and `Csv.NonBlankAppend`) |
| Csv.NonBlankMembers | App.tsx:55-56 | a data line is kept exactly when it is an input line that is not blank |
| Csv.NonBlankAppend | App.tsx:55-56 | blank-line filtering keeps file order |
| Csv.Fields | App.tsx:59-62 | the `forEach` over the headers as a fold: each header in turn is set to its column's value, so later columns overwrite earlier ones (its contract is `Csv.FieldsSpec`) |
| Csv.FieldsSpec | App.tsx:60-62 | every header becomes a key; its value is the trimmed field of the header's last column, or `''` when the line is shorter |
| Csv.Record | App.tsx:57-63 | the record of the `idx`-th line has exactly the headers as keys, and its id is `idx` when no column is headed `id` |
| Csv.BuildRecord | App.tsx:57-63 | the row builder's loop produces exactly the specified record, with a column headed `id` overwriting the number |
| Csv.Ingest | App.tsx:47-64 | fails with the missing-columns message exactly when `pregunta` or `respuesta` is not a header; otherwise one well-formed record per non-blank data line |
| Csv.IngestRecord | App.tsx:57-62 | record i has exactly the headers as keys and the value of each header's last column; without an `id` column its id is i |
| Csv.IngestIdsIncrease | App.tsx:55-59 | without an `id` column the ids are distinct and increase in file order |
| Csv.Records | App.tsx:55-63 | one record per non-blank data line, numbered by position |
| Csv.BuildRecords | App.tsx:55-63 | the map over the non-blank data lines builds one record per line, in order, each line numbered by its position |
| Csv.ParseCsv | App.tsx:47-64 | the header check followed by the row builder over the data lines computes `Ingest` |
| Bank.Matches | App.tsx:80-83 | the filter test: the lower-cased term occurs in the lower-cased `tema`, when there is one, or in the lower-cased `pregunta` (its use is characterised by `Bank.FilterMembers`) |
| Bank.Matching | App.tsx:80-83 | `filter` with that test: never longer than the bank and only well-formed questions (members: `Bank.FilterMembers`; order: `Bank.FilterAppend`) |
| Bank.Filter | App.tsx:78-84 | for an empty term the pool is the bank itself; it is never longer than the bank and holds only well-formed questions |
| Bank.FilterMembers | App.tsx:78-84 | a question is in the pool exactly when it is in the bank and, for a non-empty term, its lower-cased `tema` or `pregunta` contains the lower-cased term |
| Bank.FilterAppend | App.tsx:80-83 | the filter is stable: filtering a concatenation concatenates the filtered parts |
| Bank.FilterIdempotent | App.tsx:78-84 | filtering the pool again with the same term changes nothing |
| Bank.RemoveId | App.tsx:126 | the bank without the questions whose id is `===` the given one, never longer than the bank (characterised by `Bank.RemoveIdMembers` and `Bank.RemoveIdAppend`) |
| Bank.RemoveIdMembers | App.tsx:126 | after delete no question has the id and every other question remains |
| Bank.RemoveIdAppend | App.tsx:126 | delete keeps the remaining questions in order |
| Bank.RemoveIdAbsent | App.tsx:126 | deleting an id nobody carries leaves the bank unchanged |
| Bank.RemoveIdIdempotent | App.tsx:125-127 | deleting twice is deleting once |
| Bank.FindIndex | App.tsx:113-114 | the result is the first position holding the id, or none when no question has it |
| Bank.WithPregunta | App.tsx:120 | the spread copy keeps the id and every other field, sets `pregunta` to the new text, and is well-formed exactly when the old question had `respuesta` |
| Bank.Rewritten | App.tsx:112-123 | an unknown id leaves the bank unchanged; otherwise only `pregunta` of the first question with the id changes, to the rewrite of its old text, and length, order, id, other fields and other questions stay |
| Bank.ErrorMessage | App.tsx:86-95 | the two refusal messages, the second reporting the pool size in decimal |
| Bank.ErrorMessagesDistinct | App.tsx:86-95 | different refusals give different messages: the empty bank and a short pool differ, and so do short pools of different sizes |
| Bank.PrepareExam | App.tsx:86-99 | export succeeds exactly when the bank is non-empty and the pool holds at least the requested count; it fails for an empty bank, and fails reporting the pool size when the pool is smaller than the count; otherwise exactly the requested number of questions, drawn from the pool, none more often than the pool holds it |
| Bank.SliderMax | App.tsx:244 | the slider's upper end is the pool size for pools of 1 to 50, 50 for larger pools, and 20 for an empty pool |
| Bank.QuestionBank.constructor | App.tsx:21-25 | the page starts with an empty bank, no rewrite in flight and no error |
| Bank.QuestionBank.LoadCsv | App.tsx:40-73 | the error is cleared; a successful parse replaces the whole bank, a failed one leaves it unchanged and sets the message |
| Questions.IdText | App.tsx:116 | `id.toString()`: decimal digits for a number, the text itself otherwise; it is empty exactly for the empty text id |
| Bank.QuestionBank.BeginImprove | App.tsx:113-116 | the id's text is marked in flight before the call, only when the id is found; the mark disables the rewrite buttons (App.tsx:339) exactly when the id is not the empty text |
| Bank.QuestionBank.FinishImprove | App.tsx:119-122 | a copy with the new `pregunta` at the found position replaces the bank and the in-flight mark is cleared |
| Bank.QuestionBank.Improve | App.tsx:112-123 | the bank becomes `Rewritten` of the old bank, and the in-flight mark ends cleared when the id was found |
| Bank.QuestionBank.Remove | App.tsx:125-127 | the bank becomes the old bank without the id |
| Bank.QuestionBank.Clear | App.tsx:296 | the bank becomes empty |
| Bank.QuestionBank.GeneratePdf | App.tsx:86-110 | export is refused, with the matching message and no document, exactly for an empty bank or a too-small pool, the message then reporting the pool size; otherwise the exam carries the given settings and date, has the requested count drawn from the pool, and the document is its rendering; the bank is never modified |
| ExamPdf.Slot | services/pdfService.ts:43-59 | where one item goes from a cursor: a new page when y is past the early-break line, another when the item would cross the bottom, then the top of the last page begun (its contract is `ExamPdf.SlotSpec`) |
| ExamPdf.SlotSpec | services/pdfService.ts:43-59 | a page is begun exactly when y > 275 or the item would cross 285, at most two per item; a moved item is drawn at y=15; a placed item fits above the bottom unless it was moved to a fresh top |
| ExamPdf.Flow | services/pdfService.ts:42-63 | one place per item; the last page is at most two pages per item beyond the first |
| ExamPdf.FlowSteps | services/pdfService.ts:42-63 | each item is placed by the break rule from the cursor the previous item left, and the cursor advances by exactly the item's height |
| ExamPdf.FlowPagesOrdered | services/pdfService.ts:43-63 | pages never decrease along the fill |
| ExamPdf.FlowPlacement | services/pdfService.ts:54-62 | no item is placed above the top line; an item either fits above the bottom or sits at the top of a newly begun page |
| ExamPdf.FlowFits | services/pdfService.ts:54-62 | when every item fits on an empty page, no item crosses the bottom limit |
| ExamPdf.QuestionTallPairSkipsPage | services/pdfService.ts:44-59 | two consecutive questions taller than 270 put two page breaks between them, and the page in between stays empty |
| ExamPdf.FooterText | services/pdfService.ts:70 | the footer `Pág. i / N` (distinct per page by `ExamPdf.FooterTextsDistinct`) |
| ExamPdf.FooterTextsDistinct | services/pdfService.ts:70 | different pages get different footers |
| ExamPdf.InstitutionLine | services/pdfService.ts:18 | the institution line is never empty, has no small ASCII letter, is the upper-cased given name when one is given and "INSTITUCIÓN EDUCATIVA" otherwise |
| ExamPdf.TeacherName | services/pdfService.ts:22 | the teacher's name is the given name when one is given and "Verónica Vila Bordó" otherwise |
| ExamPdf.TopicLine | services/pdfService.ts:30 | the topic is the configured topic, else the first question's non-empty `tema`, else "General"; it is never empty |
| ExamPdf.HeaderOf | services/pdfService.ts:18-30 | the header block: institution line, teacher, date, subject, course and topic line (their fallbacks are the contracts of `ExamPdf.InstitutionLine`, `ExamPdf.TeacherName` and `ExamPdf.TopicLine`) |
| ExamPdf.FileName | services/pdfService.ts:99 | `Examen_<asignatura>_<curso>_<date>.pdf` (read back by `ExamPdf.FileNameParts`) |
| ExamPdf.FileNameParts | services/pdfService.ts:99 | the file name ends in ".pdf", and cutting the rest at underscores gives "Examen", subject, course and date |
| ExamPdf.Render | services/pdfService.ts:6-100 | the whole document: question fill from y=62 on page 1, footers on pages 1..N, the key from y=25 on page N+1, the file name (its properties: `ExamPdf.RenderItem` and `ExamPdf.RenderFooters`) |
| ExamPdf.QuestionItem | services/pdfService.ts:42-63 | each question lies on a question page, between y=15 and y=275, and ends above y=285 unless moved to a fresh top |
| ExamPdf.AnswerItem | services/pdfService.ts:79-97 | each answer lies on the key page or later, not above y=20, and ends above y=280 unless moved to a fresh top |
| ExamPdf.RenderItem | services/pdfService.ts:51-95 | question j and answer j both carry `j+1. ` and their own text; questions come before the key page, answers on or after it |
| ExamPdf.RenderFooters | services/pdfService.ts:66-77 | every question page 1..N, N ≥ 1, has the footer `Pág. i / N`; the key starts on page N+1, so its pages have none |
| ExamPdf.RenderSides | services/pdfService.ts:41-97 | the key page is the page after the last footered question page; every question lies before it and every answer on or after it |
| ExamPdf.Place | services/pdfService.ts:43-59 | the two page-break checks before an item leave the cursor where `Slot` puts the item, so every property `SlotSpec` proves holds of each drawn question and answer |
| ExamPdf.LayoutQuestions | services/pdfService.ts:41-63 | the question loop from y=62 on page 1 yields exactly the specified fill, with numbers 1..n in order |
| ExamPdf.NumberPages | services/pdfService.ts:66-71 | the footer loop writes `Pág. i / N` on pages 1..N, in order |
| ExamPdf.LayoutAnswers | services/pdfService.ts:79-97 | the answer loop from y=25 on the key page yields exactly the specified fill |
| ExamPdf.GenerateExamPdf | services/pdfService.ts:6-100 | the exporter yields the specified document; its key page follows the footered pages, questions precede it and answers follow it |

## Left out

- The React rendering, banners, `setTimeout` dismissals, the loading flag and the config form setters: presentation only. The config is a parameter.
- `FileReader`: the model starts from the decoded text.
- The `Math.random` comparator shuffle: the draw is from any reordering of the pool, chosen nondeterministically. Its distribution is not modelled.
- The AI service: `improveQuestion` is imported from a module that does not export it. It is foreign code either way, so it is a function parameter. The Gemini service module is not part of this model.
- The `await` inside the rewrite and the disabled-button guard against concurrent rewrites: the rewrite is one atomic step between `BeginImprove` and `FinishImprove`.
- Bank.QuestionBank.BeginImprove: the mark is `id.toString()`, so an empty text id marks nothing that disables the buttons, as in the code. The pulsing animation it also drives is presentation and is not modelled.
- Bank.QuestionBank.Improve: the rewrite is a total function. The code has no `try`/`catch` around the call, so a rejected call leaves the mark set and the bank unchanged with no error shown; that state is the one `BeginImprove` leaves, and the model has no step for the rejection itself.
- Bank.Matches: case-insensitive for ASCII letters only; Unicode case mapping is not modelled.
- Csv.Headers: lower-cases ASCII letters only, so a header `TÉMA` becomes `tÉma`, where `toLowerCase` gives `téma`.
- ExamPdf.InstitutionLine: upper-cases ASCII letters only; `toUpperCase` also maps non-ASCII letters.
- jsPDF drawing: fonts, colours, the frame, x-coordinates, the fixed header y-coordinates, the student line and the section titles. `splitTextToSize` is a given line-count function with result at least 1.
- `toLocaleDateString`: the date is a given string.
- Object-key corner cases of JavaScript: a header named `__proto__` or another inherited property name.
- `cantidadPreguntas` is a natural number. The slider only produces integers from 1 up.

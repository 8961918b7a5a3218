# Tenders scraper: a Dafny model of its text handling and scan scheduling

The repository scrapes public tender notices from a procurement portal. A scanner
walks the notice listing and schedules one scraping task per notice that the
database does not hold yet. A scraper then reads one notice page, normalises its
fields and stores the notice, its items and its attachments.

Almost all of that is browser, network, cloud and database I/O. This project models
the deterministic logic inside it and proves what that logic promises:

- `Optional`, `PyText`: the Python string built-ins the scripts rely on, with
  Python's own semantics. This covers `find`, `rfind`, `split`, `join`, `replace`,
  `strip` (the full `str.isspace` set), slicing with negative and clamped bounds,
  `int()` on text (sign, surrounding whitespace, single underscores between digits)
  and `str()` on integers.
- `Calendar`: `datetime` validity, `strftime("%Y-%m-%d %H:%M")`, and
  `strptime` with the same format, modelled as the regular expression Python builds
  for it.
- `Transliteration`: `convert_characters`, the 18-letter Polish diacritic table.
- `Pem`: `create_pem`, which re-wraps a PEM body at 64 columns. The scraper and the
  scanner carry the same copy.
- `Deadlines`: the three split-and-`int()` deadline parsers.
- `NoticeFields`: the framework-agreement flag, the bid-bond percentage and the
  item-page address template.
- `Attachments`: the storage key and the download and upload loops.
- `Scanner`: the listing scan. It extracts the id, checks the store, staggers the
  delays, builds the task address and accumulates `notices`.

The outside world becomes parameters:

- the page text is a string argument;
- download and upload outcomes are one boolean per element;
- the store is a set of known ids;
- `time.mktime` is a function from the date to whole seconds.

A closing deadline wrapped in parentheses, `(YYYY-MM-DD HH:MM)`, gives None. The
text is cut at the first `(` and only what precedes it is read, which is empty there
(`Deadlines.WrappedDeadlineNone`).

## Model

| member | source | states |
|---|---|---|
| `Transliteration.ConvertCharacters` | scraper.py:74-81 | the output is the input with each character mapped through the table |
| `Transliteration.TableIsZip` | scraper.py:75-77 | the table pairs the i-th diacritic with the i-th ASCII letter; it has 18 entries |
| `Transliteration.Transliterated` | scraper.py:78-81 | the output has the length of the input |
| `Transliteration.TransliteratedAt` | scraper.py:79-80 | each output character is the table image of the input character at the same place; characters outside the table are copied |
| `Transliteration.NoDiacriticLeft` | scraper.py:74-81 | no character of the table survives the conversion |
| `Transliteration.Idempotent` | scraper.py:74-81 | converting a converted name changes nothing |
| `Transliteration.PlainNameUnchanged` | scraper.py:74-81 | a name without table letters comes back unchanged |
| `Pem.CreatePem` | scraper.py:47-60 | the text written is the header, a newline, the body wrapped into lines, then the footer |
| `Pem.WrapBody` | scraper.py:52-55 | the loop writes the body as its 64-character lines, each followed by a newline |
| `Pem.ChunksConcat` | scraper.py:51-55 | joining the lines without their newlines gives back the body slice |
| `Pem.ChunksShape` | scraper.py:52-55 | there are ceil(n/64) lines; all but the last have 64 characters; the last has n mod 64 characters when that is not 0, else 64 |
| `Pem.Header` | scraper.py:49 | the header is a prefix of the input; when a "-----" occurs from index 1 on, it ends with that "-----" |
| `Pem.Body` | scraper.py:51 | when the header end is not after the last "-----END", header, body and footer put back together give the input |
| `Pem.Footer` | scraper.py:57 | the footer is a suffix of the input and, when "-----END" occurs, starts with it |
| `Pem.LinesLength` | scraper.py:52-55 | writing lines each followed by a newline adds one character per line |
| `Pem.PemText` | scraper.py:47-57 | the text written is as long as header, body and footer plus one newline per written line and one after the header |
| `Pem.PemTextShape` | scanner.py:54-64 | the output starts with the header slice and a newline, ends with the footer slice unchanged, and in between is exactly the body written as its 64-character lines |
| `Pem.BlockHeaderEnd` | scraper.py:49 | in a BEGIN/END block the first "-----" from index 1 on closes the BEGIN line |
| `Pem.BlockFooterStart` | scraper.py:57 | the last "-----END" is the start of the END line, even if the body holds dashes |
| `Pem.BlockRewrapped` | scraper.py:49-57 | a one-line PEM block keeps its BEGIN and END lines and gets its body wrapped at 64 columns |
| `Pem.MissingEndMarker` | scraper.py:51-57 | without "-----END", rfind gives -1: the body stops one character short and the footer is the last character |
| `Calendar.MakeDateTime` | scraper.py:312-313 | the constructor gives a value exactly when the five numbers form a valid date-time, and then that date-time |
| `Calendar.Strftime` | scraper.py:109-110 | the formatted date of a four-digit year has 16 characters |
| `Calendar.Strptime` | scraper.py:233-234 | a parsed date-time is always valid |
| `Calendar.StrptimeStrftime` | scraper.py:109-110 | reading the formatted publication date back with the same format gives the same date-time |
| `Deadlines.ParseStamp` | scraper.py:317-326 | the shared parse gives only valid date-times |
| `Deadlines.FromFields` | scraper.py:318-324 | reading three date fields and two time fields gives only valid date-times; a missing index gives None, and so does a field `int()` rejects |
| `Deadlines.ParseDeadline` | scraper.py:306-315 | the closing deadline, cut before the first "(" and stripped, gives only valid date-times |
| `Deadlines.ParseOfferDeadline` | scraper.py:317-326 | the offer deadline gives only valid date-times |
| `Deadlines.ParseQuestionsDeadline` | scraper.py:328-337 | the questions deadline gives only valid date-times |
| `Deadlines.ParseStampFields` | scraper.py:317-326 | five digit fields, given with their values, give exactly the date-time of their values when it exists, and None otherwise |
| `Deadlines.ParseStampStrftime` | scraper.py:317-337 | the offer and questions parsers read a "%Y-%m-%d %H:%M" text back to its date-time |
| `Deadlines.SecondsIgnored` | scraper.py:321-322 | a ":ss" after the minutes does not change the result |
| `Deadlines.TrailingWordIgnored` | scraper.py:318-322 | text after a second space does not change the result |
| `Deadlines.NoTimeNone` | scraper.py:321-326 | text without a space, such as "N/A", gives None |
| `Deadlines.ShortDateNone` | scraper.py:318-320 | a date with only two "-"-separated fields gives None |
| `Deadlines.ParseDeadlineFields` | scraper.py:306-315 | a closing deadline of five digit fields is exactly the date-time of their values when it exists, and None otherwise |
| `Deadlines.ParseDeadlineRemarkFields` | scraper.py:307-315 | the same with a " (remark" after the date-time |
| `Deadlines.NonexistentDayNone` | scraper.py:312-315 | "2021-02-30 10:00" names a day that does not exist: the deadline is None |
| `Deadlines.ShortFieldsWithRemark` | scraper.py:307-315 | "2021-3-5 9:05 (uwaga)" gives 2021-03-05 09:05: one-digit fields are read, the remark is dropped |
| `Deadlines.ExtraDateFieldIgnored` | scraper.py:318-320 | a fourth "-"-separated date field does not change the result |
| `Deadlines.DeadlineRemarkIgnored` | scraper.py:306-315 | the closing deadline ignores a " (remark" after the date-time |
| `Deadlines.DeadlinePlain` | scraper.py:306-315 | the closing deadline reads a plain date-time as the other two parsers do |
| `Deadlines.WrappedDeadlineNone` | scraper.py:307-315 | a text starting with "(" gives None |
| `NoticeFields.IsFrameworkAgreement` | scraper.py:304 | the flag is False exactly when "nie" occurs in the text |
| `NoticeFields.NieAnywhere` | scraper.py:304 | "nie" anywhere in the text gives False |
| `NoticeFields.EmptyIsFramework` | scraper.py:304 | the empty text gives True |
| `NoticeFields.CapitalisedNie` | scraper.py:304 | the test is case-sensitive: "Nie" gives True |
| `NoticeFields.ParseDecimal` | scraper.py:446 | an accepted literal has digit runs and at least one digit; it is negative exactly when the text starts with "-" |
| `NoticeFields.BidBondPercent` | scraper.py:443-444 | the empty text gives 0 |
| `NoticeFields.TruncateTowardZero` | scraper.py:446 | the integer kept is the truncation toward zero of the decimal value |
| `NoticeFields.BidBondTruncates` | scraper.py:443-446 | a non-empty accepted text gives the truncation toward zero of its value, read with commas as points |
| `NoticeFields.BidBondComma` | scraper.py:446 | "a,b" gives the whole part a ("12,5" gives 12) |
| `NoticeFields.SignedDecimal` | scraper.py:446 | "a.b" with an optional sign is read as that decimal, negative exactly with "-" |
| `NoticeFields.SignedWhole` | scraper.py:446 | a digit run with an optional sign is read as that whole number |
| `NoticeFields.BidBondSignedComma` | scraper.py:443-446 | "-a,b" gives -a and "a,b" gives a: truncation toward zero for both signs |
| `NoticeFields.BidBondWhole` | scraper.py:446 | a whole number gives itself ("7" gives 7) |
| `NoticeFields.BidBondTwoCommas` | scraper.py:446 | every comma is replaced, so "a,b,c" is rejected |
| `NoticeFields.FirstReplace` | scraper.py:417-419 | the position field of the template is replaced once, after the fixed part |
| `NoticeFields.SecondReplace` | scraper.py:420-421 | the round field is replaced once, after the inserted position |
| `NoticeFields.ItemLink` | scraper.py:416-421 | for a numeric item id the address is the fixed page, then "iRequestPosition=", the stripped item id, "&iRfxRound=" and the notice id |
| `NoticeFields.ItemLinkRoundTrip` | scraper.py:416-421 | splitting the address at "iRfxRound=" gives back a numeric notice id |
| `Attachments.DownloadAttachments` | scraper.py:225-256 | the name list is the converted names of the downloaded attachments, in page order |
| `Attachments.UploadAttachments` | scraper.py:261-276 | the URL list is the storage keys of the uploaded names, in order |
| `Attachments.Kept` | scraper.py:253-255 | a filter never returns more elements than it is given |
| `Attachments.KeptCount` | scraper.py:253-255 | one element is kept per success |
| `Attachments.KeptAppend` | scraper.py:262-276 | filtering a concatenation filters each part in turn, so order is preserved |
| `Attachments.KeptFrom` | scraper.py:273-275 | every kept element comes from a position that succeeded |
| `Attachments.KeptAll` | scraper.py:253-255 | when everything succeeds nothing is dropped |
| `Attachments.AttachmentsEndToEnd` | scraper.py:225-276 | there are never more URLs than names or links, one per successful upload; each URL is the key of a converted name whose download succeeded, at a position whose upload succeeded |
| `Attachments.DatePath` | scraper.py:233-235 | a date path is "year-month" of some valid date-time |
| `Attachments.DatePathOfStrftime` | scraper.py:233-235 | the scraper's own publication date always gives a path, with the month not zero-padded |
| `Attachments.DatePathReadsBack` | scraper.py:235 | the path splits at "-" into the year and the month, which `int()` reads back |
| `Attachments.StorageKey` | scraper.py:267 | the key splits at "/" back into date path, id and name when none holds a "/" |
| `Attachments.DatePathNoSlash` | scraper.py:235 | a date path never holds a "/" |
| `Scanner.Scan` | scanner.py:154-225 | the loop returns the tasks, the notices and completion of the row-by-row scan; `in_seconds` is 15 times one more than the task count |
| `Scanner.ScanRow` | scanner.py:157-225 | the loop body for one row computes exactly one step of the row-by-row scan |
| `Scanner.StepShape` | scanner.py:156-225 | a row raises exactly when it is linked and its date is unreadable; otherwise tasks and notices keep their earlier entries, at most one task is added with its notice, exactly when the row is linked and its id is new, and `in_seconds` moves on by 15 per task |
| `Scanner.RowDate` | scanner.py:171-172 | a date read from the row is a valid date-time |
| `Scanner.RowDateReadsSixteen` | scanner.py:171-172 | only the first 16 characters of the date cell are read |
| `Scanner.AbortStays` | scanner.py:171-172 | after an uncaught strptime error later rows change nothing |
| `Scanner.ScanConsistent` | scanner.py:177-225 | the k-th task fires 15(k+1) seconds from now; its address is BASEURL, the id, "/" and the notice's timestamp; there are as many notices as tasks |
| `Scanner.CompletesIff` | scanner.py:156-172 | the scan goes through the listing exactly when every linked row has a date strptime accepts |
| `Scanner.NoticesAreNewIds` | scanner.py:156-225 | on completion the notice ids are exactly the linked rows' ids missing from the store, in listing order |
| `Scanner.NoticesRecordRows` | scanner.py:156-225 | when every linked row is readable, `notices` is, in listing order, one entry per linked row whose id is not in the store, holding that id and the timestamp of that row's own date |
| `Scanner.KnownNeverScheduled` | scanner.py:164-175 | an id already in the store never gets a task |
| `Scanner.KnownRowWithBadDateAborts` | scanner.py:164-172 | a row whose id is stored still has its date read, so a malformed date ends the scan |
| `Scanner.NewRowScheduled` | scanner.py:174-219 | a linked, readable, new row adds exactly one task |
| `Scanner.DuplicateScheduledTwice` | scanner.py:164-165 | the store is only read, so a new id listed twice gets two tasks |
| `Scanner.TimestampText` | scanner.py:177 | dropping ".0" leaves the whole-second value |
| `Scanner.RowId` | scanner.py:159 | the id is the text after the last "iRfxRound=", or the whole link without one |
| `Scanner.RowIdOfLink` | scanner.py:159 | a numeric id at the end of the link is read back as it is |
| `Scanner.SingleNewRow` | scanner.py:155-225 | one new row gives one task fired 15 s from now, addressed to BASEURL, the id, "/" and its timestamp |

## Left out

- Browser driving, XPath extraction, `time.sleep`, HTTP downloads, uploads to the bucket, Cloud Tasks, Secret Manager and the database are I/O. Their results are parameters: texts, success flags, a set of known ids.
- The clock and time zone are left out: `time.localtime`, `time.mktime` and `datetime.utcnow`. The model uses a date-time argument and a function argument. A task's delay is kept as seconds from now.
- The PEM file write and `os.chmod` are left out; `Pem.CreatePem` returns the text it would write.
- The `payload` and `task_name` branches of the scanner are left out, because both values are always None there.
- Logging, `uuid1` ids, directory creation, the database inserts and their error handling are left out, and so is `main.py` (routing and the shell call).
- Attachments.DownloadAttachments: the date path is computed once, outside the loop, rather than in every iteration. It depends only on the publication date. For the dates the scraper formats itself it always exists (`Attachments.DatePathOfStrftime`).
- Calendar.Strptime: the digit fields take ASCII digits only; Python's `\d` also matches other Unicode decimal digits.
- Calendar.Strftime: only years from 1000 on are formatted; the zero padding of smaller years depends on the C library.
- Deadlines.ParseStamp: `int()` is modelled for ASCII digits only. Python also reads other Unicode decimal digits, which the model rejects.
- NoticeFields.BidBondPercent: only plain decimal literals are read (sign, digits, one point). Python's `float()` also accepts exponents, underscores, "inf" and "nan", which the model rejects. Rounding of literals with more than 15 significant digits is not modelled.
- Scanner.TimestampText: `str()` of a float is modelled for whole values below 10^16. Above that Python switches to exponent notation.

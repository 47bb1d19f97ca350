# sample-lambda in Dafny

A model of `app/lambda_function.py`, the AWS Lambda handler of the
sample-lambda repository. The handler takes SQS messages, each carrying a
link to a court judgement PDF. For each message, `process_record`:

1. downloads the PDF;
2. stores it in the `judgement-pdfs` bucket under `judgements/<filename>`;
3. posts a job to the DS API, naming the stored object and its output
   location in `judgement-jsons`;
4. upserts an item into `judgements-table`. The item is keyed by a unique id
   derived from the file name and gets status `pending ocr` and the returned
   job id.

`lambda_handler` itself raises before it looks at the event.

The project has six modules:

- `Wrappers` (`wrappers.dfy`): `Option` and `Result`.
- `Text` (`text.dfy`): the Python string operations the handler uses. These
  are `str.split`, the last piece of a split (which is also
  `os.path.basename`), `endswith` and `s[:-4]`.
- `Url` (`url.dfy`): `urlparse(url).path`. It follows `urlsplit`: first the
  leading C0 control characters and spaces are stripped and every tab,
  carriage return and line feed is deleted; then come the scheme, the
  `//netloc`, the query and fragment, and the `;parameters` of the last
  segment.
- `Dates` (`dates.dfy`): `format_date`. This is
  `strptime(s, "%d-%b-%Y")`, then the `datetime` range checks, then
  `strftime("%Y-%m-%d")`.
- `Naming` (`naming.dfy`): the names derived from the link. These are the file
  name and S3 key, the two `s3://` job paths, and `get_unique_id_from_url`.
- `Pipeline` (`pipeline.dfy`): one message, and the handler.
  - `Process` is the specification of `process_record`. It is a function from
    the two stores, the decoded message and the answers of the outside world
    to how the call ends, the calls made in order, and the new stores.
  - The class `Services` holds the S3 objects and the table as map fields.
    Its method `ProcessRecord` carries out the steps one by one, and its
    postcondition ties the result and the new fields to `Process`.
  - The answers of the GET, the S3 write, the POST and the table write are
    parameters (`Replies`). That way every property holds for any behaviour
    of the network and the AWS services.

## Model

| member | source | states |
|---|---|---|
| Text.Split | app/lambda_function.py:176 | `str.split`: at least one part, no part holds the separator, a single part exactly when the separator is absent |
| Text.DropLast | app/lambda_function.py:178 | `s[:-4]` is the prefix of `s` four characters shorter, or empty when `s` is shorter than that |
| Text.LastSegment | app/lambda_function.py:175 | `url.split("/")[-1]` is the tail of the string after its last separator (all of it when there is none) and contains no separator |
| Text.JoinSplit | app/lambda_function.py:176 | splitting on `_` loses nothing: joining the parts with `_` gives back the file name |
| Text.SplitJoin | app/lambda_function.py:176 | separator-free parts joined with `_` split back into exactly those parts |
| Dates.ParseMonth | app/lambda_function.py:192 | `%b` accepts a string exactly when, lower-cased, it is one of the twelve abbreviations, and yields that month's number |
| Dates.ParseDay | app/lambda_function.py:192 | `%d` yields a day 1-31, and the field is one of that day's spellings (`dd`, `d`, ` d`) |
| Dates.DaySpellingParses | app/lambda_function.py:192 | every spelling `dd`, `d` or ` d` of a day 1-31 is read as that day |
| Dates.ParseYear | app/lambda_function.py:192 | `%Y` accepts exactly four ASCII digits, yields their value, and that value zero-padded to four digits is the field |
| Dates.PaddedYearParses | app/lambda_function.py:192 | every year 0-9999 written in four digits is read as itself |
| Dates.ParseDate | app/lambda_function.py:192 | an accepted string has `-` at its ninth- and fifth-last characters, a day 1-31 that the day field spells, a month 1-12 matching the abbreviation, and a year 0-9999 that the last four characters spell |
| Dates.ParsedSpelling | app/lambda_function.py:192 | conversely, an accepted string is a spelling of the day, `-`, the month's abbreviation up to ASCII case, `-`, and the year in four digits |
| Dates.IsoFormat | app/lambda_function.py:193 | `%Y-%m-%d` has the shape `dddd-dd-dd`, and its three fields read back as the year, month and day |
| Dates.FormatDate | app/lambda_function.py:182-193 | `format_date` succeeds exactly when the string parses and the date exists; the result is `dddd-dd-dd` and its three fields read back as the parsed year, month and day |
| Dates.PadDigitsValue | app/lambda_function.py:193 | `%Y`/`%m`/`%d` zero-padding reads back as the number written |
| Dates.DigitsValuePad | app/lambda_function.py:192 | a digit string is the zero-padded spelling of its own value |
| Dates.CanonicalParses | app/lambda_function.py:192 | the canonical spelling `dd-Mon-yyyy` of any day 1-31, month 1-12 and year 0-9999 parses back to that date |
| Dates.FormatDateAcceptsValid | app/lambda_function.py:182-193 | every existing date, written `dd-Mon-yyyy`, becomes `yyyy-mm-dd` of the same date |
| Dates.FormatDateRejectsInvalid | app/lambda_function.py:182-193 | a well-spelled date that does not exist (day past the month's end, or year 0) raises |
| Dates.LeapDay | app/lambda_function.py:192 | `29-Feb-y` is accepted exactly when `y` is a Gregorian leap year |
| Dates.ExampleJanuary | app/lambda_function.py:182-193 | `07-Jan-2023` becomes `2023-01-07` |
| Dates.ExampleFebruary | app/lambda_function.py:182-193 | `29-Feb-2024` becomes `2024-02-29`; `29-Feb-2023` and `30-Feb-2023` raise |
| Dates.ExampleYearZero | app/lambda_function.py:182-193 | `01-Jan-0000` raises |
| Url.StripParamsLastSegment | app/lambda_function.py:95 | removing `;parameters` only cuts the last path segment at its first `;` |
| Url.StripLeading | app/lambda_function.py:95 | the left-stripped URL is a suffix, everything cut off is a control character or space, and it starts with neither |
| Url.RemoveTabsAndNewlines | app/lambda_function.py:95 | the cleaned URL holds no tab, carriage return or line feed, and is no longer than the original |
| Url.RemoveTabsAndNewlinesAppend | app/lambda_function.py:95 | deleting those characters from a concatenation deletes them from each part |
| Url.RemoveTabsAndNewlinesKeeps | app/lambda_function.py:95 | a string without those characters is left as it is |
| Url.Sanitized | app/lambda_function.py:95 | the string that is split starts with a visible character (or is empty) and holds no tab or newline |
| Url.SanitizedKeeps | app/lambda_function.py:95 | a URL that already starts with a visible character and holds no tab or newline is split as it is |
| Url.SanitizedIdempotent | app/lambda_function.py:95 | sanitizing twice is sanitizing once |
| Url.SanitizedAfterBlanks | app/lambda_function.py:95 | control characters and spaces in front of a URL make no difference to what is split |
| Url.SanitizedDeletes | app/lambda_function.py:95 | a tab or newline between two clean parts is deleted and the parts are joined |
| Url.UrlPath | app/lambda_function.py:95 | the path holds no `?`, `#`, tab, carriage return or line feed |
| Url.UrlPathOfSanitized | app/lambda_function.py:95 | a URL and its sanitized form have the same path |
| Url.OrdinaryUrlPath | app/lambda_function.py:95 | for `scheme://host/path` followed by nothing, a query or a fragment, `urlparse(url).path` is exactly the path |
| Naming.WithPdfSuffix | app/lambda_function.py:96-97 | the result ends in `.pdf`; it is the name unchanged exactly when the name already ends in `.pdf`, and the name plus `.pdf` otherwise |
| Naming.WithPdfSuffixIdempotent | app/lambda_function.py:96-97 | adding the suffix twice is the same as once |
| Naming.ObjectFilename | app/lambda_function.py:95-97 | the file name contains no `/` and ends in `.pdf` |
| Naming.ObjectKey | app/lambda_function.py:99 | the key is `judgements/` followed by a `/`-free name ending in `.pdf` |
| Naming.SegmentsOfOrdinaryUrl | app/lambda_function.py:95-99 | for `scheme://host/dirs/name?query` with no tab, carriage return or line feed anywhere, the key is `judgements/` plus `name` (with `.pdf` only if missing), while the raw last `/` segment used for the unique id still carries the query |
| Naming.KeyOfSanitizedUrl | app/lambda_function.py:95-99 | the key of a URL is the key of its sanitized form |
| Naming.KeyOfSanitizedOrdinaryUrl | app/lambda_function.py:95-99 | a URL that is ordinary once sanitized gets the key of that ordinary URL |
| Naming.ControlCharInName | app/lambda_function.py:95-99 | a tab, carriage return or line feed inside the file name is dropped from the key |
| Naming.KeyAfterBlanks | app/lambda_function.py:95-99 | control characters and spaces in front of the URL do not change its key |
| Naming.BlanksBeforeBareHost | app/lambda_function.py:95-99 | ` https://host`, say, gets the degenerate key `judgements/.pdf` |
| Naming.BareHostUrl | app/lambda_function.py:95-99 | a URL without a path gives the key `judgements/.pdf`, and its raw last segment is the host |
| Naming.S3UriRoundTrip | app/lambda_function.py:110-112 | an `s3://bucket/key` path reads back as its bucket and key |
| Naming.InputPath | app/lambda_function.py:110 | the input path names `judgements/<filename>` in the input bucket |
| Naming.OutputPath | app/lambda_function.py:112 | the output path names the same `judgements/<filename>` in the output bucket |
| Naming.JobPathsDistinct | app/lambda_function.py:110-112 | a job's input and output paths never coincide, and each determines the file name |
| Naming.UniqueId | app/lambda_function.py:162-179 | `get_unique_id_from_url` raises IndexError exactly when the raw last segment has no `_`; a result is a `_`-free prefix, `_`, and a `dddd-dd-dd` date |
| Naming.UniqueIdOfLongName | app/lambda_function.py:175-179 | for `a_b_rest` with any number of further parts, the id is `ab_` plus the date of the last part of `rest`, and `BadDate` exactly when that date is rejected |
| Naming.UniqueIdOfTwoParts | app/lambda_function.py:175-179 | for `a_b`, the second part is both half of the diary number and the date |
| Naming.UniqueIdOfTwoDatedParts | app/lambda_function.py:175-179 | `a_dd-Mon-yyyy.ext` gets `a` followed by the whole second part, `_`, and `yyyy-mm-dd`, whenever the date exists |
| Naming.ExampleTwoParts | app/lambda_function.py:162-179 | `.../CR_07-Jan-2023.pdf` gets `CR07-Jan-2023.pdf_2023-01-07` |
| Naming.UniqueIdOfName | app/lambda_function.py:175-179 | a file name `a_b_<date><ext>`, with a four-character extension, gets the id `ab_<format_date(date)>` |
| Naming.UniqueIdOfDatedName | app/lambda_function.py:162-179 | `a_b_dd-Mon-yyyy.ext` gets `ab_yyyy-mm-dd` whenever the date exists |
| Naming.ExampleUniqueId | app/lambda_function.py:162-179 | `.../CRLA1_2345_07-Jan-2023.pdf` gets `CRLA12345_2023-01-07` |
| Naming.ExampleIdsCollide | app/lambda_function.py:177 | `CR_100_…` and `CR1_00_…` get the same id, because the first two parts are run together without a separator |
| Naming.ExampleMissingPart | app/lambda_function.py:176-177 | a file name without `_` raises IndexError |
| Pipeline.Upsert | app/lambda_function.py:136-150 | the update creates the item if missing and sets exactly `status = "pending ocr"` and `jobId`; other attributes and other items are unchanged, and every item stays keyed by its own `uniqueId` |
| Pipeline.UpsertOverrides | app/lambda_function.py:136-150 | a second update of the same item leaves what the second alone would |
| Pipeline.UpsertIdempotent | app/lambda_function.py:136-150 | applying the same update twice leaves the state of applying it once |
| Pipeline.Process | app/lambda_function.py:69-159 | a message is skipped (no call) exactly when its link is absent or empty; the calls follow the order GET, PUT, POST, UPDATE, and their number is fixed by the failing step; an undecodable body, a skip, or a failed download or S3 write changes no store; only a recorded message changes the table |
| Pipeline.StoreDocument | app/lambda_function.py:89-105 | the first block fails exactly when the download or the S3 write does, and then changes nothing |
| Pipeline.RequestJob | app/lambda_function.py:107-129 | the POST stage never writes an object and writes the table only when it ends recorded |
| Pipeline.RecordJob | app/lambda_function.py:131-159 | the table stage fails on an id error before any call, or on the update itself; it never touches the objects |
| Pipeline.DocumentKeptUnderItsKey | app/lambda_function.py:89-129 | once downloaded and written, the object stays under its key whatever happens afterwards (failed POST, bad file name, failed table write) |
| Pipeline.RecordedExactlyWhenAllSucceed | app/lambda_function.py:69-159 | a message is recorded exactly when all four calls succeed and the id can be read; the table then equals the upsert of that id and job |
| Pipeline.CallsCarryDerivedNames | app/lambda_function.py:91-150 | the GET is of the link; the PUT writes the downloaded body under the object key; the POST goes to the DS API and names that key in the input and output buckets, with job id `1234`; the update is keyed by the unique id |
| Pipeline.IdFailureAfterUpload | app/lambda_function.py:131-159 | a file name with no unique id fails only after the object is stored and the job posted, and leaves the table alone |
| Pipeline.MissingJobIdStoredAsNull | app/lambda_function.py:123-147 | a POST answer without `job_id` still records the item, with a null `jobId` |
| Pipeline.StagesLeaveStoresAfter | app/lambda_function.py:89-159 | the stores after the three blocks are those of a direct reference definition |
| Pipeline.RedeliveryChangesNothing | app/lambda_function.py:69-159 | handling the same message again, with the same answers, leaves the stores as the first delivery did |
| Pipeline.SuccessfulRetryOverridesEarlierAttempt | app/lambda_function.py:69-159 | after any earlier attempt, a successful one leaves the stores exactly as if it had been the only one |
| Pipeline.Services.ProcessRecord | app/lambda_function.py:69-159 | the step-by-step handler makes the calls, ends and leaves the two stores exactly as `Process` says |
| Pipeline.Services.LambdaHandler | app/lambda_function.py:47-67 | the handler raises for every event, so no record is processed |

## Left out

- The wrapper modules `app/s3_client.py`, `app/dynamodb_client.py`,
  `app/http_client.py` and `app/pdf_downloader.py` are not part of this
  model. The handler does not call them.
- Real HTTP, S3 and DynamoDB traffic, the 5-second timeouts and the boto3
  clients are left out. Their answers are the `Replies` parameter, and a
  timeout is one more way for a call to fail.
- Real JSON decoding is left out. A `body` that is missing or is not a JSON
  object is `Undecodable`. A `judgementPdfLink` that is not a string (a
  number, say) is not modelled. A POST answer whose JSON cannot be read, or
  is not an object, counts as a failed POST. A `job_id` value is a string, an
  integer, a boolean or null; floats, lists and objects are not modelled.
- A DynamoDB write whose outcome is unknown (the write lands, then the reply
  is lost) is not modelled. Each write either happens and succeeds, or fails
  and changes nothing.
- Url.UrlPath: the `ValueError`s of `urlsplit` are not modelled. These are
  raised for a netloc with an unbalanced `[` or `]`, and for a non-ASCII
  netloc that NFKC normalisation changes. For such URLs the model gives a
  path where Python raises, and the handler would fail at the download
  block.
- Dates.ParseDay: `%d` accepts only ASCII digits, while CPython's `\d` in
  `[12]\d` also matches other Unicode digits. A day CPython would read
  through those digits is rejected here.
- Dates.ParseYear: `%Y` accepts only four ASCII digits, while CPython's
  `\d\d\d\d` also matches other Unicode digits. Such a year is rejected
  here.
- Dates.ParseDate: the day and year are limited to ASCII digits, as for
  `ParseDay` and `ParseYear`. `%b` uses the C locale's English
  abbreviations. A string CPython would accept through non-ASCII digits is
  rejected here.
- Dates.FormatDate: `%Y` is always written with four digits. For years below
  1000, glibc's `strftime` writes fewer; the model states the padded form.
- `print` logging is left out. So is concurrency between invocations: each
  message is handled alone, on the stores as they are.
- The loop over `event['Records']` in `lambda_handler` (lines 63-67) follows
  an unconditional `raise`. It is unreachable, so only the raise is
  modelled.

## Quirks of the code

- A POST answer without `job_id` is not an error. `.get("job_id")` yields
  `None` (line 123), and that is written to the item as its `jobId`
  (`Pipeline.MissingJobIdStoredAsNull`).
- The unique id is read from the raw `url.split("/")[-1]` (line 175). The
  S3 key comes from the `urlparse` path instead. A query string therefore
  reaches the id's last part, but not the key (`Naming.SegmentsOfOrdinaryUrl`).
- The unique id is computed only after the S3 write and the POST (line
  133). A file name without an id therefore fails after both side effects
  (`Pipeline.IdFailureAfterUpload`).

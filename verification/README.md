# File-upload pipeline: a Dafny model of its three Lambda handlers

The system accepts client uploads into an S3 bucket and handles them with
three AWS Lambda functions:

- **processing** (`lambda_code/processing_function.py`) runs for each batch
  of object-created notifications. It takes the extension of each object
  key, lower-cased. Objects whose extension is not `pdf`, `jpg` or `png` get
  one "File Upload Error" notification. Every other object gets a metadata
  row (extension, upload time as `isoformat` text, size, name) written to
  the DynamoDB table, then a "File Upload Success" notification.
- **query** (`lambda_code/query_function.py`) answers an HTTP request that
  names an extension. It reads the rows with that extension and renders one
  line per file. The size is shown in a readable unit with two decimals, and
  the upload date in day-first form.
- **cleanup** (`lambda_code/cleanup_function.py`) runs every thirty minutes.
  It lists the bucket and deletes each object last modified more than thirty
  minutes before the moment the object is examined.

## How the model is built

- Each handler is a `method` that returns its HTTP-style `Response` together
  with a log of the service calls it makes, in order. The calls are `Put`
  (table write), `Publish` (notification), `Query` (table read), `List`
  (bucket listing) and `Delete` (object removal).
- Each handler is proved equal to a specification function over its inputs:
  `ProcessingFunction.BatchEffects`, `QueryFunction.Respond`,
  `QueryFunction.SizeText` and `CleanupFunction.Deletions`. The lemmas
  state what the system promises about those functions.
- Inputs stand in for what the handlers get from outside:
  - The clock is a sequence of readings, one per record or object.
  - The query result is a function from extension to outcome.
  - The listing is the `Contents` of the response, or none.
- Module `Dates` models `datetime.isoformat`, `datetime.fromisoformat` and
  `strftime('%d.%m.%Y at %H:%M')`.
- Module `Pipeline` connects the handlers. Rows written by the processing
  handler always render in the query handler: status 200, one line per row.
- Shared machinery:
  - `Seqs`: zip, prefixes, counting.
  - `Strings`: split, join, ASCII `lower`, decimal text.
  - `Effects`: the call log, the `Result` type, and `Collect`, which models
    a loop that stops at the first exception.

## Model

| member | source | states |
|---|---|---|
| ProcessingFunction.LambdaHandler | lambda_code/processing_function.py:11-52 | The call log is the batch's specified effects, record by record. There is one notification per record and one table write per accepted record. The response is 200 "Metadata stored successfully". |
| ProcessingFunction.ExtensionIsLowerCasedSuffix | lambda_code/processing_function.py:22 | The extension (`ProcessingFunction.Extension`) is the lower-cased text after the key's last dot, with no dot in it. A key without a dot is its own extension. |
| ProcessingFunction.ExtensionIgnoresCase | lambda_code/processing_function.py:22 | Keys that agree up to letter case have the same extension. |
| ProcessingFunction.ExtensionOfLowered | lambda_code/processing_function.py:22 | Lower-casing the key first does not change the extension. |
| ProcessingFunction.UpperCasePdfIsAccepted | lambda_code/processing_function.py:22-25 | "report.PDF" has extension "pdf" and is accepted. |
| ProcessingFunction.RejectedRecord | lambda_code/processing_function.py:25-32 | For a disallowed extension, the record's calls (`ProcessingFunction.RecordEffects`) are exactly one: an error publish on the topic that names the key and the extension. Nothing is written. |
| ProcessingFunction.SuccessMessageNamesFile | lambda_code/processing_function.py:48 | The success message contains the key, the size in decimal, the extension and the upload date. |
| ProcessingFunction.AcceptedRecord | lambda_code/processing_function.py:34-50 | For an allowed extension, the record's calls (`ProcessingFunction.RecordEffects`) are exactly two. The first writes the row (extension, clock text, size, key). The second publishes success naming the key. |
| ProcessingFunction.BatchAppend | lambda_code/processing_function.py:18-50 | The effects of two batches in a row are the first batch's effects followed by the second's. Records are handled in order and independently. |
| ProcessingFunction.BatchCounts | lambda_code/processing_function.py:18-50 | A batch publishes once per record and writes once per accepted record. |
| ProcessingFunction.WritesAnnouncedAppend | lambda_code/processing_function.py:36-50 | The property "each write is immediately followed by its success publish" survives concatenation of logs. |
| ProcessingFunction.PutThenPublish | lambda_code/processing_function.py:36-50 | In the whole batch log, every table write is immediately followed by the success publish for that same row. |
| ProcessingFunction.WritesAreAcceptedRecords | lambda_code/processing_function.py:23-43 | The table is written a row exactly for the accepted records, in both directions. Each row holds that record's extension, clock text, size and key. |
| QueryFunction.UnitFor | lambda_code/query_function.py:19-26 | The chosen unit index is below six, and 1024^k <= bytes < 1024^(k+1), except at the ends (Bytes and PB). |
| QueryFunction.RoundHalfEven | lambda_code/query_function.py:28 | The rounded value is within one half of the input, and an exact half goes to the even neighbour. |
| QueryFunction.ConvertBytesToUnits | lambda_code/query_function.py:12-28 | The division loop returns the specified size text: the count divided by 1024 per unit step, then rendered with two decimals and the unit name. |
| QueryFunction.UnitIsUnique | lambda_code/query_function.py:24-26 | Any unit index satisfying the loop's exit bracket is the one chosen. |
| QueryFunction.ScaledRange | lambda_code/query_function.py:24-28 | The number shown is at least 1 unless the unit is Bytes, and below 1024 unless the unit is PB. |
| QueryFunction.RoundHalfEvenNearest | lambda_code/query_function.py:28 | No other integer is strictly nearer than the rounded value. At an exact half, the even neighbour is the one chosen. |
| QueryFunction.FormatFixed2Denotes | lambda_code/query_function.py:28 | The text is digits (no leading zero), a point and two digits. Its value in hundredths is the nearest, ties to even, to 100 times the input. |
| QueryFunction.TieRoundsToEven | lambda_code/query_function.py:28 | 1152 bytes is shown as "1.12 KB". |
| QueryFunction.JustBelowMegabyte | lambda_code/query_function.py:24-28 | 1048575 bytes is shown as "1024.00 KB". |
| QueryFunction.LambdaHandler | lambda_code/query_function.py:31-62 | The extension asked for is `QueryFunction.RequestedExtension`. A missing or empty one gives 400 with the fixed message and no query. Otherwise there is exactly one query for that extension, and the response is `QueryFunction.Respond` of its outcome: 500 with the error text if the query raised, else the rendered items. |
| QueryFunction.RenderItems | lambda_code/query_function.py:47-62 | The item loop gives the specified response, `QueryFunction.Respond` of the items: 200 with the header and one line per item when every date parses, else 500 with the first date error. |
| QueryFunction.ParsedItemLine | lambda_code/query_function.py:50-53 | The line for an item (`QueryFunction.ItemLine`) whose stored date parses is "- name with size S and uploaded on " followed by the stored text's own day.month.year and " at " hour:minute ("00:00" for a date alone). S is the item's size text. |
| QueryFunction.LinesSucceedIff | lambda_code/query_function.py:49-62 | Rendering succeeds exactly when every item's date parses. Then there is one line per item, in order. |
| QueryFunction.StoredItemsAreListed | lambda_code/query_function.py:49-57 | Items whose dates are `isoformat` text of valid date-times all render, each with its own size and date. |
| QueryFunction.BodyLines | lambda_code/query_function.py:48-57 | A 200 body split at newlines gives back the header followed by the item lines, provided no file name contains a newline. |
| QueryFunction.SizeTextHasNoNewline | lambda_code/query_function.py:28 | Size text never contains a newline. |
| QueryFunction.DisplayDateHasNoNewline | lambda_code/query_function.py:51 | A displayed date never contains a newline. |
| QueryFunction.LineHasNoNewline | lambda_code/query_function.py:52-53 | A rendered line has no newline when the file name has none. |
| QueryFunction.NoItemsGiveHeaderOnly | lambda_code/query_function.py:47-57 | No matching items give 200 with the header alone. |
| Dates.CheckRanges | lambda_code/query_function.py:51 | The range check succeeds exactly on valid date-times and then returns them unchanged. |
| Dates.FromIsoFormat | lambda_code/query_function.py:51 | Parsing succeeds exactly on well-formed text whose fields are in range, and a parsed value is always valid. |
| Dates.FractionValue | lambda_code/query_function.py:51 | One to six fraction digits denote fewer than a million microseconds. |
| Dates.IsoFormatReadBack | lambda_code/processing_function.py:35 | `isoformat` text (`Dates.IsoFormat`) is well-formed, its fields read back as the original ones, and parsing it fails only on out-of-range fields. |
| Dates.IsoFormatRoundTrip | lambda_code/processing_function.py:35 | Parsing the `isoformat` text (`Dates.IsoFormat`) of a valid date-time gives back that date-time. |
| Dates.IsoTimeParts | lambda_code/processing_function.py:35 | The time part `isoformat` writes is well-formed and reads back as hour, minute, second and microsecond. |
| Dates.DisplayRearrangesText | lambda_code/query_function.py:51 | For text that parses, the displayed date (`Dates.DisplayDate`, the `strftime` call) is the text's day, month and year, then hour and minute ("00:00" for a date alone), rearranged. |
| Dates.DisplayFormIsNotIsoText | lambda_code/query_function.py:51 | Text already in display form, "05.03.2024", is rejected with the invalid-format error. |
| Pipeline.WrittenRowsRender | lambda_code/processing_function.py:35-43 | Every accepted upload, stamped with a valid clock reading, is written. The query renders that row with the file's name, size text and the reading in display form. |
| Pipeline.WrittenRowsList | lambda_code/query_function.py:49-57 | Any rows the processing handler wrote render without a date error: 200, one line per row. |
| CleanupFunction.LambdaHandler | lambda_code/cleanup_function.py:5-18 | The bucket is listed once. With no `Contents` nothing else happens. Otherwise the deletes are the specified deletions, in listing order. The response is 200 "Cleanup successfully". |
| CleanupFunction.AsWrittenLookupFails | lambda_code/cleanup_function.py:7 | In the deployed environment (`DeployedEnvironment`), the variable the handler reads is missing, so `Lookup`, the model of `os.environ[...]`, raises `KeyError`. |
| CleanupFunction.InvokeAsWritten | lambda_code/cleanup_function.py:5-18 | As written, an invocation raises `KeyError: 'uploaded-by-client'` exactly when that variable is unset, before listing or deleting anything. Otherwise it lists and deletes in the named bucket. |
| CleanupFunction.Invoke | lambda_code/cleanup_function.py:5-18 | Reading the bucket from `BUCKET_NAME` with `Lookup`, an invocation raises exactly when the variable is unset. Otherwise it lists and deletes in that bucket as the handler specifies. |
| CleanupFunction.DeployedLookupFindsBucket | aws_essentials_exam/aws_essentials_exam_stack.py:170-172 | The deployed environment holds `BUCKET_NAME`, and `Lookup` of it gives the bucket. |
| CleanupFunction.DeletionsAreStaleKeys | lambda_code/cleanup_function.py:13-16 | The deletes are exactly one per stale object, for its key in this bucket, in listing order. |
| CleanupFunction.DeletedIff | lambda_code/cleanup_function.py:13-16 | A key is in the deletes (`CleanupFunction.Deletions`) if and only if some listed object with that key was older than thirty minutes when examined. |
| CleanupFunction.OnlyDeletes | lambda_code/cleanup_function.py:16 | Every call in the loop is a delete in the listed bucket. |
| CleanupFunction.DeleteCount | lambda_code/cleanup_function.py:13-16 | The number of deletes equals the number of stale objects, and so never exceeds the number listed. |
| CleanupFunction.DeletionsAppend | lambda_code/cleanup_function.py:13-17 | Deletes follow the listing order: those for a listing split in two are the first part's, then the second's. |
| CleanupFunction.RetentionBoundary | lambda_code/cleanup_function.py:8-15 | The age test (`CleanupFunction.IsStale`) is strict. An object exactly thirty minutes old is kept, and one a microsecond older is deleted. |

## Findings

| source | as written | input that shows it | evidently intended | confidence | as-written member | corrected member |
|---|---|---|---|---|---|---|
| lambda_code/cleanup_function.py:7 | The bucket name is read from the environment variable `uploaded-by-client`. The deployment (aws_essentials_exam/aws_essentials_exam_stack.py:170-172) sets only `BUCKET_NAME` for this function. | Any scheduled invocation in the deployed environment: the lookup raises `KeyError` before the bucket is listed, so nothing is ever deleted. | Read `BUCKET_NAME`, as the processing handler does. | high; not executed | CleanupFunction.InvokeAsWritten | CleanupFunction.Invoke |

## Left out

- I/O and services:
  - The AWS clients, the environment lookups of the processing and query handlers, and the `print` after each delete are not modelled.
  - Service calls appear only as entries of the call log.
  - Service failures other than the query's are not modelled; a failed put, publish, list or delete would end the invocation with an exception.
- Concurrency, retries and redelivery of notifications are not modelled. Each invocation is modelled alone.
- Clock: the clock is an input. The processing handler reads it only for accepted records, but the model takes one reading per record and ignores the rejected records' readings.
- Pagination: cleanup sees only the first page of the listing (up to 1000 keys), which is also all the source looks at.
- CleanupFunction.LambdaHandler: times are whole microseconds on one UTC scale, and `LastModified` is taken to be timezone-aware as the service returns it.
- QueryFunction.LambdaHandler: these cases are not modelled:
  - `queryStringParameters` present but `null`, which raises outside the `try`.
  - A non-string parameter value.
  - Rows missing `file_size`, `file_name` or `upload_date`.
  - Any other exception inside the `try` besides the query's own error and a date that does not parse.
- QueryFunction.ConvertBytesToUnits: sizes are computed on exact rationals, not binary floats. The two agree while the byte count is below 2^53, because dividing by 1024 is exact in binary floating point. `.2f` is modelled as rounding the exact value half to even, which is what formatting an exactly representable float does.
- Dates.FromIsoFormat: only these forms are accepted:
  - a date `YYYY-MM-DD`;
  - a date, any single separator, then `HH:MM`, `HH:MM:SS`, or `HH:MM:SS` followed by `.` or `,` and one to six digits.
  
  Python's other accepted forms (hour only, basic format, week dates, UTC offsets, more fraction digits) are rejected by the model. The error text quotes the input plainly rather than by `repr`.
- Dates.CheckRanges: the contract does not state which message a failure carries. The order of the checks and the wording of each message are fixed by the definition only.
- Dates.DisplayDate: `%Y` is written zero-padded to four digits.
- Strings.Lower: lower-casing covers ASCII letters only. Non-ASCII keys are not lower-cased as Python's `str.lower` would.

# Mock-data importer of student_life_app, modelled in Dafny

`assets/mock_data/import.js` seeds the app's Firestore database. It has a list
of import tasks (a JSON file, a target collection, and whether to normalise
dates). For each task whose file exists, it does three things:

- it rewrites every record's `date` with `convertDateString` (`"14 March 1990"`
  becomes `"1990-03-14T00:00:00.000Z"`), when the task asks for it;
- it picks each document's key: a truthy `id`, else a truthy `email`, else a
  key the store generates;
- it writes the records in batches of at most 499 `set` operations, committing
  each full batch and then the non-empty remainder.

The tasks run one after another.

The model has six modules:

- `JsonValues` (`json_values.dfy`): parsed JSON values, property access
  (`undefined` is `None`) and JavaScript truthiness.
- `DateNormalizer` (`date_normalizer.dfy`): `convertDateString` as a total
  function. It covers:
  - `split(' ')`;
  - `parseInt` with leading white space, a sign, the `0x` prefix and a digit
    prefix (so `"14th"` reads as 14);
  - the case-sensitive twelve-entry month table;
  - `Date.UTC`, including day and month roll-over, the 1900 offset for the
    years 0 to 99, and the range of time values;
  - `toISOString`'s Date Time String Format from section 21.4 of ECMA-262,
    including the six-digit years;
  - the `try`/`catch` fall-back to the input.

  The result is the datatype `Null | Unchanged(original) | Iso(date)`, and
  `IsoText` renders `Iso`.
- `DocumentKeys` (`document_keys.dfy`): the id/email/generated key priority.
- `Batching` (`batching.dfy`): the writes of one upload as pure functions.
  `Assign` gives each record's key, drawing generated keys in order from a
  counter. `Chunks` cuts the writes into batches of 499.
- `Firestore` (`firestore.dfy`): an in-memory store. The class `Store` holds
  the log of committed batches and the counter behind `colRef.doc()`. The
  class `WriteBatch` stages `set`s and appends them to the log on `commit`.
  The store's invariant `Valid` says that no generated key is used twice.
- `Importer` (`importer.dfy`):
  - `IMPORT_TASKS`, with files given as a map from path to parsed records;
  - the date rewrite of `data.map`;
  - `uploadFile`: the key block is `DocumentRef`, the batching loop is
    `UploadRecords`, and the whole function is `UploadFile`;
  - `runAllImports`, which is `RunAllImports` over the loop `RunImports`.

  Each method is proved against a function: `TaskCommits` for one task and
  `Plan` for a task list.

In these cases the model follows the code rather than the usual reading of
the date format:

- Any falsy `date` gives `null`, not only an empty or missing one: `0`,
  `false` and `null` count too.
- An impossible day such as `"31 February 2021"` rolls over to 3 March instead
  of being returned unchanged.
- A two-digit year such as `"14 March 90"` means 1990.
- A truthy date that is not a string makes `split` throw. The `catch` then
  returns it unchanged, except when the warning inside the `catch` itself
  throws (see `DateNormalizer.ConvertDateString` under "## Left out").

## Model

| member | source | states |
|---|---|---|
| DateNormalizer.Split | assets/mock_data/import.js:39 | `split(' ')` gives one more part than there are spaces, and no part contains a space |
| DateNormalizer.SplitJoin | assets/mock_data/import.js:39 | joining the parts of `split` with the separator gives back the input |
| DateNormalizer.SplitThree | assets/mock_data/import.js:39-40 | three space-free tokens joined by single spaces split into exactly those three tokens |
| DateNormalizer.TrimStart | assets/mock_data/import.js:42 | `parseInt` reads the rest of the input after its leading JavaScript white space, which starts with a character that is not white space |
| DateNormalizer.DigitPrefix | assets/mock_data/import.js:42 | the digits `parseInt` reads are the longest prefix of digits in the radix |
| DateNormalizer.ParseInt | assets/mock_data/import.js:42-44 | `parseInt`: leading white space, a sign, the `0x` prefix and the longest digit prefix, NaN when there is no digit; its properties are stated by `TrimStart`, `DigitPrefix`, `ParseIntDecimalPrefix` and `ParseIntDecimal` |
| DateNormalizer.MonthIndex | assets/mock_data/import.js:43 | `months[parts[1]]` is a number exactly for the twelve case-sensitive month names, and then it is that name's index below 12 |
| DateNormalizer.NoLeadingDigit | assets/mock_data/import.js:42-44 | a token that does not start with white space, a sign or a digit, such as `"abc"`, makes `parseInt` give NaN |
| DateNormalizer.ParseIntDecimalPrefix | assets/mock_data/import.js:42 | `parseInt` of decimal digits followed by a non-digit (not `x`) is the value of the digits, so `"14th"` is 14 |
| DateNormalizer.ParseIntDecimal | assets/mock_data/import.js:42-44 | `parseInt` of a non-empty decimal numeral is its value |
| DateNormalizer.MonthIndicesBelowTwelve | assets/mock_data/import.js:33-36 | every month in the table has an index from 0 to 11 |
| DateNormalizer.DaysInMonth | assets/mock_data/import.js:46 | every Gregorian month has 28 to 31 days |
| DateNormalizer.MakeDay | assets/mock_data/import.js:46 | the day roll-over of `Date.UTC` always lands on a valid calendar date |
| DateNormalizer.MakeDayOfValidDate | assets/mock_data/import.js:46 | a day within its month is not moved |
| DateNormalizer.MakeDaySucc | assets/mock_data/import.js:46 | one more day of the month argument is the next calendar day, across month and year ends |
| DateNormalizer.DateUtc | assets/mock_data/import.js:46 | a date exists only for three numbers, is valid and inside the time-value range, and for years 100 to 9999 is exactly the given year, month index plus one and day |
| DateNormalizer.DateUtcBeyondRange | assets/mock_data/import.js:46 | a valid date after 13 September 275760 is outside TimeClip's range, so `Date.UTC` gives NaN |
| DateNormalizer.DayAfterLatestDate | assets/mock_data/import.js:46 | `Date.UTC(275760, 8, 14)`, the day after the last representable date, is NaN |
| DateNormalizer.DateUtcTwoDigitYear | assets/mock_data/import.js:46 | a year from 0 to 99 means 1900 plus that year |
| DateNormalizer.Pad | assets/mock_data/import.js:47 | a padded field has exactly the requested width and only digits |
| DateNormalizer.PadRoundTrip | assets/mock_data/import.js:47 | reading a padded field back gives the number that was padded |
| DateNormalizer.YearText | assets/mock_data/import.js:47 | the year field of `toISOString`: four digits for the years 0 to 9999, otherwise a sign and six digits; `ParseYearText` reads it back |
| DateNormalizer.IsoText | assets/mock_data/import.js:47 | the text of `toISOString` at midnight UTC; `IsoRoundTrip` and `IsoTextHasNoSpace` state its properties |
| DateNormalizer.ParseYearText | assets/mock_data/import.js:47 | the four-digit or signed six-digit year field reads back as the year |
| DateNormalizer.IsoRoundTrip | assets/mock_data/import.js:47 | the ISO text of every valid date in the time-value range parses back to that date, so distinct dates give distinct text |
| DateNormalizer.IsoTextHasNoSpace | assets/mock_data/import.js:47 | the ISO text is a single non-empty token |
| DateNormalizer.DateValue | assets/mock_data/import.js:30-51 | the value `convertDateString` returns: `null`, the input itself, or the ISO text; `ConvertDateString` and `WellFormedDate` state which |
| DateNormalizer.ConvertString | assets/mock_data/import.js:38-51 | a string is never mapped to null; when unchanged the result is that string; a date is valid and in range |
| DateNormalizer.FromTokens | assets/mock_data/import.js:42-50 | the original string comes back exactly when `Date.UTC` cannot make a date of the tokens (NaN day or year, unknown month, out of range); a converted date is valid and in range |
| DateNormalizer.ConvertDateString | assets/mock_data/import.js:30-52 | null exactly when the input is falsy; an unchanged result is the input itself; a date comes only from a string and is valid and in range |
| DateNormalizer.ThreeTokens | assets/mock_data/import.js:39-46 | a string of three space-free tokens is converted from what `parseInt` and the month table make of them |
| DateNormalizer.NotThreeTokens | assets/mock_data/import.js:39-40 | a non-empty string without exactly two spaces comes back unchanged |
| DateNormalizer.UnknownMonth | assets/mock_data/import.js:33-50 | a middle token that is not one of the twelve month names gives the input back unchanged, and nothing is thrown |
| DateNormalizer.InvalidDate | assets/mock_data/import.js:42-50 | three tokens that `Date.UTC` cannot make a date of give the input back unchanged, and nothing is thrown |
| DateNormalizer.NotANumber | assets/mock_data/import.js:42-50 | a day or year token that `parseInt` reads as NaN gives the input back unchanged |
| DateNormalizer.DecimalTokens | assets/mock_data/import.js:42-44 | for decimal day and year and a known month, conversion is `Date.UTC` of their numeric values |
| DateNormalizer.WellFormedDate | assets/mock_data/import.js:42-47 | `"D Month YYYY"` with a valid day and a year from 100 to 9999 gives exactly `YYYY-MM-DDT00:00:00.000Z` for that date |
| DateNormalizer.TwoDigitYear | assets/mock_data/import.js:42-47 | `"D Month YY"` gives the date in 19YY |
| DateNormalizer.YearBeyondTimeRange | assets/mock_data/import.js:42-50 | a decimal year after 275760 is past the time-value range, so the input comes back unchanged |
| DateNormalizer.ConvertIdempotent | assets/mock_data/import.js:30-52 | converting the output again changes nothing |
| JsonValues.Get | assets/mock_data/import.js:88-93 | property access `item.id`, `item.email` and `item.date`: `undefined` when the record has no such field |
| JsonValues.Truthy | assets/mock_data/import.js:88-93 | JavaScript ToBoolean of a JSON value: `undefined`, `null`, `false`, zero and the empty string are falsy, everything else (empty arrays and objects included) is truthy; `ChooseKeySpec` and `ConvertDateString` are stated in terms of it |
| DocumentKeys.ChooseKey | assets/mock_data/import.js:88-97 | the priority rule `id`, then `email`, then a generated key; `ChooseKeySpec` and `ChooseKeyIsFirstTruthy` state what it picks |
| DocumentKeys.ChooseKeySpec | assets/mock_data/import.js:88-97 | a field is used only when it is truthy, and a generated key is used exactly when neither `id` nor `email` is truthy |
| DocumentKeys.ChooseKeyIsFirstTruthy | assets/mock_data/import.js:88-97 | the key is the first truthy of `id`, `email`, and a generated key when there is none |
| DocumentKeys.IdTakesPriority | assets/mock_data/import.js:88-90 | a truthy `id` is the key verbatim whatever the other fields hold |
| DocumentKeys.EmailIsSecond | assets/mock_data/import.js:91-93 | without a truthy `id`, a truthy `email` is the key verbatim whatever the other fields hold |
| Batching.KeyFor | assets/mock_data/import.js:88-97 | the key a record gets when the store's next generated key would be the given counter value; `DocumentRef` is proved to pick exactly this key |
| Batching.Assign | assets/mock_data/import.js:84-100 | one write per record, so as many writes as records; `AssignWrites` and `AssignAt` state their contents |
| Batching.AssignWrites | assets/mock_data/import.js:84-100 | each record is written once, in order, to the collection, under its priority key; generated keys are pairwise distinct and drawn from the counter's next values |
| Batching.AssignAt | assets/mock_data/import.js:84-100 | the write for record i depends only on that record and how many generated keys the records before it used |
| Batching.Chunks | assets/mock_data/import.js:100-114 | the commits of the 499-batch loop; `ChunkSizes`, `FlattenChunks` and `ChunkCount` state their sizes, contents and number |
| Batching.ChunkSizes | assets/mock_data/import.js:100-114 | no batch is empty or larger than 499, and every batch but the last holds exactly 499 |
| Batching.FlattenChunks | assets/mock_data/import.js:100-114 | the batches together are every write exactly once, in order |
| Batching.ChunkCount | assets/mock_data/import.js:100-114 | there are ⌈n/499⌉ commits, so no records give no commit |
| Batching.ChunksSnoc | assets/mock_data/import.js:105-114 | committing one more batch after full ones appends exactly that batch |
| Batching.ThousandRecords | assets/mock_data/import.js:100-114 | 1000 records go out as three commits of 499, 499 and 2 writes |
| Firestore.FreshAfterAppend | assets/mock_data/import.js:94-97 | committing writes whose generated keys are fresh keeps every generated key in the store unique |
| Firestore.Store.NewDocumentKey | assets/mock_data/import.js:96 | `colRef.doc()` hands out the counter's value and advances it; nothing is committed; in a valid store no committed write carries that key, and the store stays valid |
| Firestore.Store.NewBatch | assets/mock_data/import.js:80 | `db.batch()` is a fresh, empty batch on this store |
| Firestore.WriteBatch.Set | assets/mock_data/import.js:100 | `batch.set` stages one more write at the end |
| Firestore.WriteBatch.Commit | assets/mock_data/import.js:105-114 | `batch.commit` appends the staged writes to the log as one batch and uses no key |
| Importer.WithConvertedDate | assets/mock_data/import.js:69-74 | `{...item, date: convertDateString(item.date)}` for one record; `ConvertDates` states its effect |
| Importer.ConvertDates | assets/mock_data/import.js:67-75 | same length and order; every record gets a `date` holding the converter's value of the old one, and every other field is unchanged |
| Importer.FalsyDateBecomesNull | assets/mock_data/import.js:67-75 | a missing or falsy date becomes `null` |
| Importer.AutoCountSameKeys | assets/mock_data/import.js:67-97 | records with the same key choices use the same number of generated keys |
| Importer.ConvertDatesIdempotent | assets/mock_data/import.js:67-75 | rewriting the dates twice is rewriting them once |
| Importer.Prepared | assets/mock_data/import.js:64-75 | the records a task uploads: the parsed file, with the date rewrite when the task asks for it |
| Importer.TaskCommits | assets/mock_data/import.js:54-114 | the batches one task commits: none for a missing file, otherwise the batches of its prepared records; `TaskCommitsShape` states their shape and `UploadFile` is proved against it |
| Importer.TaskCommitsShape | assets/mock_data/import.js:79-114 | a task commits each of its records once and in order, under its priority key, with distinct generated keys, in ⌈n/499⌉ batches of 499 but a non-empty last one |
| Importer.Plan | assets/mock_data/import.js:119-124 | the batches of a task list run in order; `PlanAppend`, `PlanStep`, `SkipMissingFile` and `ImportTasksOrder` state its properties and `RunImports` is proved against it |
| Importer.InOrderAppend | assets/mock_data/import.js:119-124 | running two task lists in turn commits the first's batches, then the second's, with the key counter where the first left it |
| Importer.PlanAppend | assets/mock_data/import.js:119-124 | the same for the import plan |
| Importer.PlanSingle | assets/mock_data/import.js:120-122 | a list of one task commits that task's batches |
| Importer.PlanStep | assets/mock_data/import.js:120-122 | running one more task appends that task's batches |
| Importer.SkipMissingFile | assets/mock_data/import.js:57-60 | a task whose file is missing adds nothing, uses no key, and leaves every later task's batches as they were |
| Importer.ImportTasks | assets/mock_data/import.js:7-18 | `IMPORT_TASKS`: events from `./event_mock.json` with dates converted, then users from `./MOCK_DATA.json` without |
| Importer.ImportTasksOrder | assets/mock_data/import.js:7-18 | the configured run commits the events batches, then the users batches |
| Importer.DocumentRef | assets/mock_data/import.js:86-97 | the key follows the priority rule; a generated key advances the counter, the others do not |
| Importer.UploadRecords | assets/mock_data/import.js:79-114 | the upload loop commits exactly `Chunks` of the keyed writes, advances the counter by the generated keys used, and counts every record |
| Importer.UploadFile | assets/mock_data/import.js:54-114 | a missing file commits nothing; otherwise the task's batches are committed and `totalUploaded` is the number of records; key uniqueness is kept |
| Importer.RunImports | assets/mock_data/import.js:119-124 | the tasks' batches are committed in list order, and key uniqueness is kept |
| Importer.RunAllImports | assets/mock_data/import.js:119-124 | `runAllImports` commits the plan of the configured tasks, and key uniqueness is kept |

## Left out

- Firebase initialisation, the credential file and `admin.firestore()` are SDK calls. The store is an in-memory log.
- `fs.existsSync`, `fs.readFileSync` and `JSON.parse` are I/O and a library parser. Files are a map from path to already-parsed records, and a missing file is a missing key.
- `console.log`, `console.warn` and `console.error` are left out because they have no effect on the data, except for the one case of `console.warn` described in the next line.
- DateNormalizer.ConvertDateString: a truthy date that is not a string and cannot be converted to a string is returned unchanged by the model. Such a date is a JSON object with its own non-callable `toString` property, or an array holding such an object. In the code, the template literal of the `console.warn` in the `catch` throws a `TypeError` for it. The error escapes `convertDateString`, so `uploadFile` is rejected before it writes anything for that task, and `runAllImports` stops without running the later tasks. The model does not capture that abort.
- `async`/`await`, and network failure or atomicity of `batch.commit()`, are left out. A commit is a synchronous append that does not fail, so the abort of the remaining tasks after a failed commit is not modelled.
- Store keys are not validated, and their meaning as paths is not modelled. The model keeps the `id` or `email` value verbatim as the key. The SDK's `colRef.doc` throws for a truthy `id` or `email` that is not a string, or whose `/`-separated path is malformed (an empty segment, or an odd number of segments in all). In the code, that rejects `uploadFile` after the earlier full batches of that task were committed, and `runAllImports` stops without running the later tasks; the model does not capture that abort. A well-formed key with `/` in it, such as `"a/b/c"`, names a document in a subcollection, which the model does not distinguish either.
- Generated keys are random 20-character strings in the store. The model uses a counter, since only freshness matters here.
- Property order within a record, and records that are not JSON objects, are not modelled.
- DateNormalizer.DateUtc: assumes whole numbers fit in a double. It does not model rounding of `parseInt` results beyond 2^53, or engine limits on intermediate values such as a day count near 10^308.
- Strings are sequences of Unicode scalar values, not UTF-16 code units. Every JavaScript white-space and line-terminator character lies in the Basic Multilingual Plane, so `parseInt`'s trimming and `split(' ')` are exact on such strings. A JSON string holding a lone surrogate (such as the escape `\ud800`) has no counterpart in the model.
- JSON numbers are exact decimals. Rounding to doubles, and thus numbers that parse to 0 only after rounding, are left out of truthiness.

# UK news feed: fetch, extract and date formatting

A Dafny model of the data path of the News-App Android client for the
Guardian content API. `QueryUtils` fetches the JSON text of a search
response, turns every element of `response.results` into a `UKNews`
record (title, section name, display date, web URL) and rewrites each
publication timestamp such as `1984-03-03T10:00:00Z` into the display form
`Mar 3, 1984`. `UKNews` is the immutable record.

Modules, one per concern:

- `Optional` (optional.dfy): `Option`, which stands for Java's `null` and for a call that throws.
- `Json` (json.dfy): the document tree the JSON library produces, and the three
  lookups `getJSONObject`, `getJSONArray` and `getString`, each `None` where the library throws.
- `News` (news.dfy): the `UKNews` record and its four getters.
- `DateFormat` (dates.dfy): `formatDate`, from yyyy-MM-dd'T'HH:mm:ss'Z' to "MMM d, yyy".
- `StreamText` (streams.dfy): `readFromStream`, the `readLine` loop.
- `QueryUtils` (query_utils.dfy): `extractFeatureFromJson` (the loop), the outcome of
  `makeHttpRequest` over an abstract connection, and `fetchNewsData`.

Inputs the model takes as parameters:

- The JSON tokeniser (`new JSONObject(text)`): a function from text to an optional tree.
- The twelve abbreviated month names of the locale.
- The outcome of the connection: connect failure, status code, body, read failure, close failure.
- The result of `createUrl`: `None` for a malformed URL.

A malformed element of `results` ends the loop, and the records collected
so far are returned (QueryUtils.java:191-202), so extraction is not
all-or-nothing.

## Model

| member | source | states |
|---|---|---|
| QueryUtils.ExtractFeatureFromJson | app/src/main/java/com/example/android/myuknews/QueryUtils.java:144-203 | The method returns the extraction outcome: null for null or empty text, an empty list for a document of the wrong shape, otherwise the records collected before the first element that throws |
| QueryUtils.CollectRecords | app/src/main/java/com/example/android/myuknews/QueryUtils.java:167-192 | The for loop over results, appending one record per element and stopping at the first element that throws, returns exactly the list Harvest characterises |
| QueryUtils.ReadRecord | app/src/main/java/com/example/android/myuknews/QueryUtils.java:170-188 | One loop iteration (getJSONObject, then getString of webTitle, sectionName, webPublicationDate, formatDate, getString of webUrl) gives the record of that element, or nothing where any step throws |
| QueryUtils.ToNews | app/src/main/java/com/example/android/myuknews/QueryUtils.java:170-188 | An element yields a record exactly when it is an object with string values under all four keys; the record holds those strings, with the date passed through formatDate |
| QueryUtils.Harvest | app/src/main/java/com/example/android/myuknews/QueryUtils.java:167-192 | The collected list is no longer than results; record i comes from element i, in order; if the list is shorter, the element at its length is one that throws |
| QueryUtils.HarvestUnique | app/src/main/java/com/example/android/myuknews/QueryUtils.java:167-192 | The three properties of Harvest determine exactly one list |
| QueryUtils.ResponseResults | app/src/main/java/com/example/android/myuknews/QueryUtils.java:159-164 | The results array is found exactly when the document is an object holding a response object holding a results array, and it is that array |
| QueryUtils.ExtractionNullIffEmptyText | app/src/main/java/com/example/android/myuknews/QueryUtils.java:146-148 | Null is returned exactly for null or empty text, and never for non-empty text, however malformed |
| QueryUtils.ExtractionEmptyOnWrongShape | app/src/main/java/com/example/android/myuknews/QueryUtils.java:151-202 | Non-empty text that does not tokenise, or whose top level is not an object, lacks a response object, or lacks a results array, gives a non-null empty list |
| QueryUtils.ExtractionAllWellFormed | app/src/main/java/com/example/android/myuknews/QueryUtils.java:167-192 | N well-formed elements give exactly N records, record i built from element i's four strings, its date formatted |
| QueryUtils.ExtractionStopsAtMalformed | app/src/main/java/com/example/android/myuknews/QueryUtils.java:167-202 | A malformed element k after k well-formed ones gives exactly the k records of the elements before it |
| QueryUtils.HarvestStopsAt | app/src/main/java/com/example/android/myuknews/QueryUtils.java:167-202 | The loop stops at the first malformed element k, with the k records before it |
| QueryUtils.ExtractionIsPrefix | app/src/main/java/com/example/android/myuknews/QueryUtils.java:167-202 | For any results array, the list is a prefix of the element-wise mapping and never longer than the array |
| QueryUtils.HarvestIgnoresRestAfterFailure | app/src/main/java/com/example/android/myuknews/QueryUtils.java:167-194 | Elements after the first one that throws never affect the list |
| QueryUtils.HarvestAppend | app/src/main/java/com/example/android/myuknews/QueryUtils.java:167-192 | When all of a leading block of elements is well formed, the records of what follows are appended after the block's records |
| QueryUtils.MakeHttpRequest | app/src/main/java/com/example/android/myuknews/QueryUtils.java:81-120 | An IOException escapes (None) exactly when a 200 response's stream was opened and closing it throws; any non-empty text returned is the 200 body read cleanly, without its line terminators |
| QueryUtils.FetchNewsData | app/src/main/java/com/example/android/myuknews/QueryUtils.java:46-63 | fetchNewsData returns null exactly when makeHttpRequest throws (the catch leaves the response null) or returns the empty string |
| QueryUtils.FetchNullWithoutSuccessStatus | app/src/main/java/com/example/android/myuknews/QueryUtils.java:46-105 | No URL, a failed connection or a status other than 200 make makeHttpRequest return "" and so fetchNewsData return null |
| QueryUtils.FetchNullIffNoText | app/src/main/java/com/example/android/myuknews/QueryUtils.java:46-148 | fetchNewsData returns null exactly when there is no URL, the connection fails, the status is not 200, reading or closing the stream throws, or the body holds nothing but line terminators |
| QueryUtils.FetchExtractsBody | app/src/main/java/com/example/android/myuknews/QueryUtils.java:46-138 | A 200 response read and closed cleanly is extracted from its body with the line terminators removed |
| Json.GetObject | app/src/main/java/com/example/android/myuknews/QueryUtils.java:160 | The lookup succeeds exactly when the key holds an object, and returns that object's members |
| Json.GetArray | app/src/main/java/com/example/android/myuknews/QueryUtils.java:164 | The lookup succeeds exactly when the key holds an array, and returns its elements |
| Json.GetString | app/src/main/java/com/example/android/myuknews/QueryUtils.java:173-184 | The lookup succeeds exactly when the key holds a string, and returns it |
| StreamText.ReadFromStream | app/src/main/java/com/example/android/myuknews/QueryUtils.java:126-138 | The while loop returns "" for a null stream, otherwise the lines readLine yields joined together, which is the body without its carriage returns and line feeds |
| StreamText.ReadLine | app/src/main/java/com/example/android/myuknews/QueryUtils.java:131-134 | readLine returns null exactly at the end of the stream; otherwise the text up to the first "\n" or "\r", and it continues after "\r\n" when that is the terminator, after the single terminator otherwise, and at the end of the data when there is none |
| StreamText.ReadLineConsumes | app/src/main/java/com/example/android/myuknews/QueryUtils.java:131-135 | What one readLine consumes beyond its line consists of terminators only |
| StreamText.ConcatLines | app/src/main/java/com/example/android/myuknews/QueryUtils.java:127-137 | Joining all lines readLine yields drops exactly the terminator characters of the body |
| StreamText.UnterminatedAppend | app/src/main/java/com/example/android/myuknews/QueryUtils.java:132-135 | Removing terminators distributes over concatenation |
| StreamText.ReadFromStreamExample | app/src/main/java/com/example/android/myuknews/QueryUtils.java:126-138 | "a\r\nb\n" is read as "ab" |
| DateFormat.FormatDate | app/src/main/java/com/example/android/myuknews/QueryUtils.java:208-223 | formatDate returns "" exactly when the input does not parse (the ParseException path) |
| DateFormat.ParseStamp | app/src/main/java/com/example/android/myuknews/QueryUtils.java:210-215 | An accepted input has at least the 20 characters of the pattern, and the timestamp read from it is a real calendar date and time of day |
| DateFormat.Display | app/src/main/java/com/example/android/myuknews/QueryUtils.java:216-218 | The output of "MMM d, yyy" starts with the month's abbreviated name and has at least seven characters after it (a space, the day, ", " and three year digits) |
| DateFormat.FormatDateText | app/src/main/java/com/example/android/myuknews/QueryUtils.java:208-218 | For a parsed input, the output is the month name of the month digits, a space, the day digits without a leading zero, ", ", and the year digits without one leading zero (at least three digits) |
| DateFormat.FormatDateOfStamp | app/src/main/java/com/example/android/myuknews/QueryUtils.java:208-218 | A valid timestamp written in the input pattern, followed by any text, formats as its month name, the day in decimal, ", " and the year with at least three digits |
| DateFormat.FormatDateIgnoresTime | app/src/main/java/com/example/android/myuknews/QueryUtils.java:210-218 | Two parsable inputs with the same first ten characters (the date) format identically, whatever their hours, minutes and seconds |
| DateFormat.ParseRender | app/src/main/java/com/example/android/myuknews/QueryUtils.java:210-215 | Writing a valid timestamp in the input pattern and parsing it back, with any text after it, gives the timestamp |
| DateFormat.ParseSound | app/src/main/java/com/example/android/myuknews/QueryUtils.java:210-215 | Every parsed timestamp is a real calendar date and time, and the input starts with exactly that timestamp written in the pattern |
| DateFormat.YearText | app/src/main/java/com/example/android/myuknews/QueryUtils.java:216-218 | The year prints with exactly three digits, zero padded, below 100, and otherwise without a leading zero; the digits always denote the year |
| DateFormat.Decimal | app/src/main/java/com/example/android/myuknews/QueryUtils.java:216-218 | The day prints in decimal without a leading zero, denoting the day |
| DateFormat.DaysInMonth | app/src/main/java/com/example/android/myuknews/QueryUtils.java:215 | Months have 28 to 31 days, 29 exactly for February of a leap year |
| DateFormat.FormatDateExampleMarch1984 | app/src/main/java/com/example/android/myuknews/QueryUtils.java:205-218 | "1984-03-03T10:00:00Z" formats as "Mar 3, 1984" with English month names |
| DateFormat.FormatDateExampleEarlyYear | app/src/main/java/com/example/android/myuknews/QueryUtils.java:216-218 | "0042-12-31T23:59:59Z" formats as "Dec 31, 042" |
| DateFormat.FormatDateExamplesRejected | app/src/main/java/com/example/android/myuknews/QueryUtils.java:219-222 | "not-a-date" and "2023-02-28T10:00:00", which lacks the closing 'Z', format as "" |
| News.AccessorsReturnConstructorArguments | app/src/main/java/com/example/android/myuknews/UKNews.java:37-70 | getTitle, getSectionName, getDates and getUrl return exactly the constructor's title, sectionName, date and url, the date unchanged |
| News.RecordDeterminedByAccessors | app/src/main/java/com/example/android/myuknews/UKNews.java:12-70 | A record is its four fields and nothing else: records agree exactly when their accessors agree, and rebuilding from the accessors gives the same record |

## Left out

- Network I/O in makeHttpRequest: opening the connection, the 10 s read and 15 s connect timeouts, the GET method and `disconnect`. The connection's outcome is an input.
- createUrl: URL syntax is checked by `java.net.URL`, which is not part of this model; its outcome is the optional URL given to FetchNewsData.
- Tokenising JSON text is library code; it is the `Tokeniser` parameter.
- Json.GetString: Android's `getString` turns every present value into text, including numbers, booleans, null, nested objects and arrays, so it throws only for a missing key; the model treats any value other than a string as a failing lookup, so an element with a non-string value under one of the four keys ends the loop in the model, where the source keeps going.
- DateFormat.FormatDate: `SimpleDateFormat` is lenient by default and would roll an out-of-range field over (February 30 becomes March 2) and accept digit runs of other widths; the model accepts only the fixed 20-character layout with in-range fields and gives "" for everything else.
- DateFormat.FormatDate: the time zone, the Julian calendar before 1582 and years beyond 9999 are not modelled; the date is taken as written.
- The spellings of Locale.UK's month abbreviations belong to the platform; they are the `MonthNames` parameter.
- StreamText.ReadFromStream: UTF-8 decoding of the response bytes is left to the stream; the body is a sequence of characters.
- Logging (`Log.e`) has no effect on any result.
- UKNewsAdapter, which binds records to list views, is user-interface code and is not part of this model.
- UKNewsLoader, an AsyncTaskLoader that runs fetchNewsData on a background thread after its own null-URL check, is background-loading code and is not part of this model.

# JIRA REST export client — a Dafny model

This project models the core of a command-line tool that exports the issues
matching a JQL query from a JIRA server. The model covers two parts:

- **The configuration.** It normalises the server URL (one trailing '/' is
  dropped) and turns the optional `--fields` option into a set of field names,
  using the splitting rules of Java's `String.split`.
- **The REST client.** It builds the HTTP Basic `Authorization` value once, from
  `username:password`: UTF-8, then the Base 64 of section 4 of RFC 4648, as
  section 2 of RFC 7617 describes. It then runs these steps:
  1. It sends a probe search with `startAt=0&maxResults=0` to learn the total
     number of matches.
  2. A counting loop plans one search for each window of 100 results.
  3. It sends the searches one by one. Each request has the same
     `Authorization` and `Content-Type: application/json` headers.
  4. It emits the issues of each page in request order. Any status other
     than 200 ends the run with an error. For a status of 400 or more with
     error data, the error names the URL, the status and the server's error
     body. For any other status (204 No Content, say, or a redirect that
     `HttpURLConnection` does not follow by itself, such as one from http to
     https), reading the missing error stream throws a
     `NullPointerException` first, and that error has no message.

The JIRA server is a parameter of the model: a function from a GET request to
its response. A response with status 200 carries the decoded search-results
envelope: the total and the page of issues. Any other response carries the
error data the server sent, if it sent any. `HttpURLConnection.getErrorStream`
hands that data out only for a status of 400 or more. What the run produces is an
`Outcome`. It holds three things:

- the issues emitted;
- the URLs requested, in order;
- the error that ended the run, if any.

The counting loop of `stream()` is the method `RestClient.PlanPages`. It is
proved to build the URLs of the planned offsets. `RestClient.Stream` runs the
probe, the loop and the page fetches. It is proved equal to the specification
function `RestClient.Export`. The
properties of `Export` are proved as lemmas:

- The plan asks for ceil(total / 100) pages at offsets 0, 100, 200, ...
- A failure stops the run at the failing page.
- A server that serves one result list consistently gets exactly that list
  back, in order.

Modules, one file each:

- `Wrappers`: Option and Result.
- `Text`: how `Integer.toString` writes numbers, the digit grouping that
  `MessageFormat` uses for numbers, `String.join`, and `String.split`.
- `Utf8`: UTF-8 encoding and decoding.
- `Base64`: the Base 64 encoding of section 4 of RFC 4648.
- `FormEncoding`: `URLEncoder` form encoding.
- `Config`: the parsed options, `getServer` and `getFields`.
- `RestClient`: everything else.

The search URL is built from these encodings: the JQL is form-encoded, the offset goes through `Integer.toString` and the window size through the grouping.
When no field name holds '&', the query string splits back into its four
parameters (`RestClient.QueryParameters`).

The run sends the probe first, then one GET per page: 237 results take four
requests, three of them for pages (`RestClient.Example237`).

## Model

| member | source | states |
|---|---|---|
| Text.Digits | src/main/java/uk/org/gencoreoperative/jira/rest/RESTClient.java:105 | the decimal digits of a natural number are all digit characters, and there is exactly one of them iff the number is below 10 |
| Text.Decimal | src/main/java/uk/org/gencoreoperative/jira/rest/RESTClient.java:105 | `Integer.toString`: at least one character, a leading '-' exactly for a negative number, and digits everywhere else; `Text.DecimalRoundTrip` proves that parsing gives the number back |
| Text.DigitsRoundTrip | src/main/java/uk/org/gencoreoperative/jira/rest/RESTClient.java:105 | reading back the digits written for n gives n |
| Text.DecimalRoundTrip | src/main/java/uk/org/gencoreoperative/jira/rest/RESTClient.java:105 | `Integer.toString` is inverted by decimal parsing, the sign included |
| Text.DecimalInjective | src/main/java/uk/org/gencoreoperative/jira/rest/RESTClient.java:105 | different offsets are written as different strings |
| Text.GroupDigits | src/main/java/uk/org/gencoreoperative/jira/rest/RESTClient.java:106 | inserting ',' every three digits from the right turns n digits into n + (n - 1) / 3 characters, each a ',' or one of the digits; `Text.GroupDigitsUngroup` proves that deleting the commas gives the digits back |
| Text.Grouped | src/main/java/uk/org/gencoreoperative/jira/rest/RESTClient.java:106 | the `MessageFormat` rendering of an int: a leading '-' exactly for a negative number, otherwise only digits and ','; `Text.GroupedUngroup` relates it to `Integer.toString` |
| Text.GroupDigitsUngroup | src/main/java/uk/org/gencoreoperative/jira/rest/RESTClient.java:106 | inserting ',' every three digits from the right and deleting the commas again gives the digits back |
| Text.GroupedUngroup | src/main/java/uk/org/gencoreoperative/jira/rest/RESTClient.java:106 | the `MessageFormat` rendering of an int, with the grouping commas deleted, is `Integer.toString` of it |
| Text.GroupedSmall | src/main/java/uk/org/gencoreoperative/jira/rest/RESTClient.java:106 | numbers of at most three digits (every window size and HTTP status used) are rendered without grouping |
| Text.Join | src/main/java/uk/org/gencoreoperative/jira/rest/RESTClient.java:104 | `String.join`: every character is the separator or a character of one of the parts; `Text.SplitAllJoin` proves that splitting gives the parts back |
| Text.SplitAll | src/main/java/uk/org/gencoreoperative/jira/config/Config.java:96 | splitting on a separator yields at least one piece and no piece holds the separator |
| Text.JoinSplitAll | src/main/java/uk/org/gencoreoperative/jira/rest/RESTClient.java:104 | joining the pieces of a split with the separator rebuilds the string |
| Text.SplitAllJoin | src/main/java/uk/org/gencoreoperative/jira/rest/RESTClient.java:104 | splitting a join of separator-free parts gives back exactly those parts |
| Text.DropTrailingEmpty | src/main/java/uk/org/gencoreoperative/jira/config/Config.java:96 | `String.split` keeps a prefix of the pieces, ending in a non-empty piece, and drops only empty trailing pieces |
| Text.JavaSplit | src/main/java/uk/org/gencoreoperative/jira/config/Config.java:96 | `String.split`: no piece holds the separator; a string without the separator is one piece; otherwise the last piece is non-empty, and joining the pieces gives a prefix of the string followed only by separators |
| Text.JoinOfPrefix | src/main/java/uk/org/gencoreoperative/jira/config/Config.java:96 | joining the first k pieces gives a prefix of joining them all, and only separators follow when the remaining pieces are empty |
| Utf8.EncodeChar | src/main/java/uk/org/gencoreoperative/jira/rest/RESTClient.java:149 | a character takes 1 to 4 bytes, one exactly when it is ASCII (then the byte is its code), and every byte after the first is a continuation byte |
| Utf8.Encode | src/main/java/uk/org/gencoreoperative/jira/rest/RESTClient.java:149 | `getBytes(UTF_8)` takes one to four bytes per character; `Utf8.DecodeEncode` proves that decoding gives the string back |
| Utf8.DecodeEncodeChar | src/main/java/uk/org/gencoreoperative/jira/rest/RESTClient.java:149 | decoding the bytes of one character, followed by anything, yields that character and its length |
| Utf8.DecodeEncode | src/main/java/uk/org/gencoreoperative/jira/rest/RESTClient.java:149 | UTF-8 decoding inverts `getBytes(UTF_8)` |
| Utf8.EncodeAscii | src/main/java/uk/org/gencoreoperative/jira/rest/RESTClient.java:149 | an ASCII string's bytes are its character codes, one per character |
| Utf8.EncodeAppend | src/main/java/uk/org/gencoreoperative/jira/rest/RESTClient.java:149 | the encoding of a concatenation is the concatenation of the encodings |
| Base64.IndexChar | src/main/java/uk/org/gencoreoperative/jira/rest/RESTClient.java:149 | the Base 64 alphabet lookup inverts the 6-bit character table |
| Base64.DecodeEncode | src/main/java/uk/org/gencoreoperative/jira/rest/RESTClient.java:149 | decoding the Base 64 text of any byte string returns those bytes (padding included) |
| Base64.EncodeGroups | src/main/java/uk/org/gencoreoperative/jira/rest/RESTClient.java:149 | Base 64 works three bytes at a time: the first three bytes give the first four characters |
| Base64.Encode | src/main/java/uk/org/gencoreoperative/jira/rest/RESTClient.java:149 | the Base 64 text of n bytes has 4 * ceil(n / 3) characters; `Base64.DecodeEncode` proves that decoding gives the bytes back |
| Base64.EncodingAlphabet | src/main/java/uk/org/gencoreoperative/jira/rest/RESTClient.java:149 | the encoding uses only the 64-character alphabet, with '=' only in the last two places |
| FormEncoding.EncodeByte | src/main/java/uk/org/gencoreoperative/jira/rest/RESTClient.java:103 | a byte becomes an unreserved character, '+' for a space, or a '%' escape |
| FormEncoding.EncodeBytes | src/main/java/uk/org/gencoreoperative/jira/rest/RESTClient.java:103 | each byte becomes one or three characters; `FormEncoding.DecodeEncodeBytes` proves that form decoding inverts it |
| FormEncoding.Encode | src/main/java/uk/org/gencoreoperative/jira/rest/RESTClient.java:103 | `URLEncoder.encode` of the JQL takes one to three characters per UTF-8 byte and never holds a space, '&', '=' or '#', so it cannot break the query string; `FormEncoding.DecodeEncode` recovers the JQL |
| FormEncoding.DecodeEncodeBytes | src/main/java/uk/org/gencoreoperative/jira/rest/RESTClient.java:103 | form decoding inverts form encoding on any byte string |
| FormEncoding.DecodeEncode | src/main/java/uk/org/gencoreoperative/jira/rest/RESTClient.java:103 | the JQL text is recovered from its form-encoded UTF-8 bytes |
| FormEncoding.EncodedAlphabet | src/main/java/uk/org/gencoreoperative/jira/rest/RESTClient.java:103 | the encoding holds only unreserved characters, '+' and '%' |
| Config.GetServer | src/main/java/uk/org/gencoreoperative/jira/config/Config.java:86-88 | a server URL ending in '/' loses exactly that one character; any other URL is kept as it is |
| Config.GetServerStripsOnlyOne | src/main/java/uk/org/gencoreoperative/jira/config/Config.java:87 | a server URL ending in "//" still ends in '/' after normalisation, one character shorter |
| Config.GetFields | src/main/java/uk/org/gencoreoperative/jira/config/Config.java:95-97 | an absent or empty `--fields` gives the empty set; otherwise no field name contains a comma |
| Config.KeptAreFirst | src/main/java/uk/org/gencoreoperative/jira/config/Config.java:96 | the pieces `String.split` keeps are exactly the first pieces of the full split: the ones before the trailing empty pieces |
| Config.FieldsAreKeptPieces | src/main/java/uk/org/gencoreoperative/jira/config/Config.java:96 | a name is a field iff it is a comma-separated piece that is non-empty or followed by a non-empty piece (trailing empty pieces are dropped, others kept) |
| Config.GetFieldsOfJoin | src/main/java/uk/org/gencoreoperative/jira/config/Config.java:96 | non-empty comma-free names joined with ',' in any order are read back as exactly that set |
| RestClient.BasicAuth | src/main/java/uk/org/gencoreoperative/jira/rest/RESTClient.java:147-151 | the header is "Basic " followed by 4 * ceil(n / 3) characters for the n UTF-8 bytes of `username:password` |
| RestClient.BasicAuthRoundTrip | src/main/java/uk/org/gencoreoperative/jira/rest/RESTClient.java:147-151 | a server splitting the decoded credentials at the first ':' recovers the user name (if it holds no ':') and the password exactly |
| RestClient.BasicAuthExample | src/main/java/uk/org/gencoreoperative/jira/rest/RESTClient.java:147-151 | user "bob" with password "secret" gives "Basic Ym9iOnNlY3JldA==" |
| RestClient.NewClient | src/main/java/uk/org/gencoreoperative/jira/rest/RESTClient.java:64-67 | the constructor keeps the configuration and the field order; when the user name holds no ':', the user name and password are read back from the header it computes |
| RestClient.SearchUrl | src/main/java/uk/org/gencoreoperative/jira/rest/RESTClient.java:99-110 | the URL starts with the normalised server, the search path and '?'; `RestClient.UrlAroundOffset` and `RestClient.SearchUrlInjective` state what follows |
| RestClient.Query | src/main/java/uk/org/gencoreoperative/jira/rest/RESTClient.java:101-106 | the query string opens with the form-encoded JQL parameter and '&'; `RestClient.QueryParameters` proves that it splits into its four parameters |
| RestClient.QueryParts | src/main/java/uk/org/gencoreoperative/jira/rest/RESTClient.java:101-106 | the parameters are exactly four: jql, fields, startAt and maxResults; `RestClient.ParametersAvoidAmpersand` proves that only the field names can bring a '&' into them |
| RestClient.ParametersAvoidAmpersand | src/main/java/uk/org/gencoreoperative/jira/rest/RESTClient.java:103-106 | the encoded JQL, the offset and the grouped window size never hold '&', and the fields parameter holds none when no field name does |
| RestClient.QueryParameters | src/main/java/uk/org/gencoreoperative/jira/rest/RESTClient.java:99-110 | when no field name holds '&', the query string splits on '&' into exactly the jql, fields, startAt and maxResults parameters |
| RestClient.PageSizesArePlainDecimal | src/main/java/uk/org/gencoreoperative/jira/rest/RESTClient.java:81 | the window sizes 100 and 0 are written "100" and "0", the same with and without grouping |
| RestClient.ProbeUrl | src/main/java/uk/org/gencoreoperative/jira/rest/RESTClient.java:94 | the probe (startAt 0, maxResults 0) is never the URL of a page request |
| RestClient.ProbeIsShorter | src/main/java/uk/org/gencoreoperative/jira/rest/RESTClient.java:94 | the probe URL is shorter than every page URL, because "0" is shorter than "100" |
| RestClient.UrlAroundOffset | src/main/java/uk/org/gencoreoperative/jira/rest/RESTClient.java:101-106 | a search URL is a fixed prefix, the decimal offset and a suffix that depends only on the window size |
| RestClient.SearchUrlInjective | src/main/java/uk/org/gencoreoperative/jira/rest/RESTClient.java:99-110 | two search URLs for the same window size are equal only for equal offsets |
| RestClient.RequestFor | src/main/java/uk/org/gencoreoperative/jira/rest/RESTClient.java:122-124 | every request is a GET of the given URL with the client's `Authorization` header and `Content-Type: application/json` |
| RestClient.PerformQuery | src/main/java/uk/org/gencoreoperative/jira/rest/RESTClient.java:120-134 | the GET succeeds iff the status is 200, then with the decoded body; otherwise it fails as `RestClient.Failure` describes |
| RestClient.Failure | src/main/java/uk/org/gencoreoperative/jira/rest/RESTClient.java:129-130 | a failed query carries the URL, the status and the error body exactly when the status is 400 or more and the server sent error data; otherwise it is the `NullPointerException` of `readStream` |
| RestClient.ErrorMessage | src/main/java/uk/org/gencoreoperative/jira/rest/RESTClient.java:129-130 | the exception has a message iff it is the one built at :129; that message contains the URL, the server's error body and, for any status of at most three digits, the status in parentheses as `Integer.toString` writes it |
| RestClient.StatusBelow400FailsWithoutMessage | src/main/java/uk/org/gencoreoperative/jira/rest/RESTClient.java:129-130 | a status other than 200 and below 400 ends the query with the exception that has no message, whatever the server sent |
| RestClient.ErrorStatusNamesQuery | src/main/java/uk/org/gencoreoperative/jira/rest/RESTClient.java:129-130 | a status of 400 or more with error data ends the query with a message that names the URL and carries the error body |
| RestClient.CountResults | src/main/java/uk/org/gencoreoperative/jira/rest/RESTClient.java:93-97 | the probe succeeds exactly when its query does, and yields the total the server reports |
| RestClient.PageCount | src/main/java/uk/org/gencoreoperative/jira/rest/RESTClient.java:80-82 | the number of pages is 0 for a total of at most 0, and otherwise the least n with n * 100 >= total |
| RestClient.Offsets | src/main/java/uk/org/gencoreoperative/jira/rest/RESTClient.java:80 | there is one planned offset per page, PageCount(total) of them; `RestClient.OffsetsArePlanned` states which offsets they are |
| RestClient.OffsetsArePlanned | src/main/java/uk/org/gencoreoperative/jira/rest/RESTClient.java:80-82 | the loop plans ceil(total / 100) offsets 0, 100, 200, ..., all below the total, strictly increasing, none for total <= 0 |
| RestClient.WindowsCoverTotal | src/main/java/uk/org/gencoreoperative/jira/rest/RESTClient.java:80-82 | every result index lies in exactly one planned window, the one numbered index / 100 |
| RestClient.PageUrls | src/main/java/uk/org/gencoreoperative/jira/rest/RESTClient.java:80-82 | one URL per offset; `RestClient.PageUrlsAt` proves that the k-th asks for a window of 100 from the k-th offset |
| RestClient.PageUrlsAt | src/main/java/uk/org/gencoreoperative/jira/rest/RESTClient.java:80-82 | the k-th page URL is the search for a window of 100 from the k-th offset, so the URLs follow the offsets in order |
| RestClient.PlanPages | src/main/java/uk/org/gencoreoperative/jira/rest/RESTClient.java:79-82 | the counting loop collects exactly one search URL per planned offset, in order, each for a window of 100 |
| RestClient.FetchAll | src/main/java/uk/org/gencoreoperative/jira/rest/RESTClient.java:83-86 | pages are requested in order, and a failing page is the last one requested; the run ends with no error iff every page succeeded |
| RestClient.Export | src/main/java/uk/org/gencoreoperative/jira/rest/RESTClient.java:77-87 | the probe is the first request; a failed probe ends the run with its error and no issues; a total of at most 0 requests no page |
| RestClient.Stream | src/main/java/uk/org/gencoreoperative/jira/rest/RESTClient.java:77-87 | the probe, the counting loop and the page fetches produce exactly the outcome `Export` specifies |
| RestClient.FetchAllSucceeds | src/main/java/uk/org/gencoreoperative/jira/rest/RESTClient.java:83-86 | when every page answers 200, the run emits all pages' issues concatenated in order and requests every URL |
| RestClient.FetchAllStopsAtFailure | src/main/java/uk/org/gencoreoperative/jira/rest/RESTClient.java:83-86 | when page j fails first, the issues of the pages before it are emitted, nothing after it is requested, and the run ends with that page's failure |
| RestClient.ExportAllPages | src/main/java/uk/org/gencoreoperative/jira/rest/RESTClient.java:77-87 | after a successful probe with only successful pages, the requests are the probe and then the ceil(total / 100) planned pages |
| RestClient.ExportFailsOnPage | src/main/java/uk/org/gencoreoperative/jira/rest/RESTClient.java:77-87 | a failure on page j after the probe: the earlier pages are emitted, the URL at offset j * 100 is the last request, and the run ends with the failure of that request |
| RestClient.ExportOfConsistentServer | src/main/java/uk/org/gencoreoperative/jira/rest/RESTClient.java:77-97 | a server serving one fixed result list consistently gets exactly that list back, in order, with no error; the requests are the probe and then the URLs of the planned offsets, 1 + ceil(n / 100) in all |
| RestClient.Example237 | src/main/java/uk/org/gencoreoperative/jira/rest/RESTClient.java:77-87 | 237 results are fetched with the probe and pages at offsets 0, 100 and 200, and all 237 issues are emitted in order |
| RestClient.ThreePages | src/main/java/uk/org/gencoreoperative/jira/rest/RESTClient.java:80 | a total between 201 and 300 plans pages at offsets 0, 100 and 200 |
| RestClient.AddInt | src/main/java/uk/org/gencoreoperative/jira/rest/RESTClient.java:80 | Java `int` addition: the result lies in the int range, differs from the true sum by 0 or 2^32, and is the true sum when that fits |
| RestClient.AsWrittenIndex | src/main/java/uk/org/gencoreoperative/jira/rest/RESTClient.java:80 | the loop variable after n increments, computed with Java `int` addition, always lies in the int range |
| RestClient.AsWrittenAgrees | src/main/java/uk/org/gencoreoperative/jira/rest/RESTClient.java:80 | while no increment overflows, the loop variable after n increments is n * 100 |
| RestClient.AsWrittenLoopMatchesPlan | src/main/java/uk/org/gencoreoperative/jira/rest/RESTClient.java:80-82 | for totals up to 2147483600 the loop as written visits exactly the planned offsets and then stops |
| RestClient.AsWrittenIndexIsMultipleOfFour | src/main/java/uk/org/gencoreoperative/jira/rest/RESTClient.java:80 | the loop variable as written is always a multiple of four |
| RestClient.AsWrittenLoopNeverEnds | src/main/java/uk/org/gencoreoperative/jira/rest/RESTClient.java:80 | the loop variable as written never reaches Integer.MAX_VALUE, and the increment after 2147483600 wraps to -2147483596 |

## Left out

- Network I/O (opening the connection, `getResponseCode`, reading the body line by line) is not modelled. The server is a function from request to response.
- An `IOException` becomes a "Failed to connect" error in the source. The model has no connection failures, so this path is not modelled.
- JSON decoding with Gson is not modelled. A 200 response carries the decoded `SearchResults`, and malformed JSON or a missing `total` is not modelled.
- The issue's fields are a string map here. The source's nested `Field` type is not part of this model.
- Laziness is not modelled. The source's `Stream` fetches a page only when the consumer reaches it. The model fetches pages eagerly but in the same order, and it stops at the same failure, so the emitted prefix is the same.
- Reading the password file (`getPassword`) is left out. The password is a parameter of `RestClient.NewClient`.
- Command-line parsing and the option validators are left out. So is `Main`, which prints each issue as JSON.
- `new URI` and `new URL` are left out. They raise an exception on a malformed server URL, and the model keeps the URL as text.
- `UnsupportedEncodingException` is not modelled. The source always asks for UTF-8.
- Iteration order of the field set is not modelled. The source joins a `HashSet`, so the order depends on the hash table. The order is a client parameter that must list the set, each name once.
- Text.Grouped: the model assumes a default locale with ASCII digits and ',' grouping of three digits. Other locales are not modelled. A locale with other digits (Persian, for example) would write even the window size 100 differently.
- Utf8.EncodeChar: characters are Unicode scalar values. Java's replacement of an unpaired UTF-16 surrogate by '?' is not modelled.
- RestClient.PlanPages: the loop counter is an unbounded integer, which is the intended behaviour. Java's 32-bit wrap-around of the same loop is modelled separately, by `RestClient.AsWrittenIndex` (see Findings).

## Findings

| source | as written | input that shows it | evidently intended | confidence | as-written member | corrected member |
|---|---|---|---|---|---|---|
| src/main/java/uk/org/gencoreoperative/jira/rest/RESTClient.java:80 | `i += WINDOW` on a Java `int` wraps past Integer.MAX_VALUE. For a total above 2147483600, the loop goes on at negative offsets, and it never ends when the total is Integer.MAX_VALUE. | a probe reporting a total of 2147483647: `i` stays a multiple of four, so `i < count` always holds; after 2147483600 the next offset is -2147483596 | one page per window of the total, at offsets 0, 100, ..., all below the total, and then the loop stops | not executed | RestClient.AsWrittenLoopNeverEnds | RestClient.OffsetsArePlanned |

# FileDownloader in Dafny

This is a model of the console HTTP/1.1 file downloader `FileDownloader` and proofs about it.
The downloader is given a host (the "index"), the path of an index file and an optional size
window `[lowerBound, upperBound]`. It fetches the index file with a GET and keeps the lines that
start with the host name, minus the host and the separator character after it. For each remaining
path it sends a HEAD probe, reads the status line and the `Content-Length` header, and then does
one of four things:

- reports the file as not found;
- downloads it whole with a plain GET;
- downloads bytes `lowerBound-upperBound` with a ranged GET;
- skips it as too small.

Every line of the GET's answer (status line, headers, the empty line and the body lines) is
written, each followed by "\n", to a local file named after the last segment of the path.

The model has four modules:

- `JavaText`: the parts of `java.lang.String` and `Integer` the downloader relies on, with Java's
  own edge cases: `contains`, `trim`, `split` with a one-character separator (trailing empty
  strings dropped, and a string without the separator giving itself), `parseInt`, and `toString`.
- `HttpRequest`: the three request heads exactly as printed (HEAD probe, GET, ranged GET). Each is
  proved equal to the serialisation of a structured request: request line, header lines in order,
  and an empty line.
- `HttpResponse`: the success test on the status line, the `Content-Length` scan and its loop, and
  the text the save loop builds from the received lines.
- `Downloader`: the size policy, the decision for one entry, the local file name, the index
  filtering, the whole run, and the class `FileDownloader` with its constructor and its three loops
  (`RetrieveIndexList`, `DownloadFile`, `Run`). Each loop is proved equal to a specification
  function that the lemmas are about.

Java exceptions on these paths are values `Err(Exception)` of a `Result`. The data attached to
each exception (an index and a length, or the unparsable input) is the model's own choice; JDK
versions differ in what their messages carry. The exceptions arise in these cases:

- a listing line equal to the host makes `substring` run past its end;
- a `Content-Length` line with nothing but `:` after its first `:`, such as `Content-Length:`,
  makes `split(":")[1]` fail;
- a field that is not a decimal int makes `parseInt` fail;
- a path made only of `/` splits into nothing, so `get(-1)` fails.

An exception ends the run, because nothing in the class catches it. The files of the entries
handled before it are already written, so the run's result keeps their exchanges next to the
exception.

The server is an input: the function `server` gives the lines, without their terminators, that
come back for each request string written to a connection. The index listing is
`server(GetRequest(initialPath, index))`, the HEAD answer for a path is
`server(HeadRequest(path, index))`, and the answer saved for a download is `server` of the GET
that was sent.

A malformed `Content-Length` is not treated as an unknown size. `Integer.parseInt` throws
`NumberFormatException`, or `split(":")[1]` throws `ArrayIndexOutOfBoundsException`, out of
`DownloadFile`; `ContentLengthFails` states exactly when. The scan throws on the first bad line
even when the status line is not `200 OK`, because the scan runs before the status is checked.

## Model

| member | source | states |
|---|---|---|
| JavaText.StartsWith | src/FileDownloader.java:76 | `startsWith` holds exactly when the prefix occurs at position 0, and the string then contains the prefix |
| JavaText.Contains | src/FileDownloader.java:93 | `contains` is true exactly when the text occurs at some position of the line |
| JavaText.LacksFirstChar | src/FileDownloader.java:67 | a line without the first character of the text does not contain the text |
| JavaText.Trim | src/FileDownloader.java:94 | `trim` is no longer than its input, keeps no character `<= ' '` at either end, and is empty exactly when every character is `<= ' '` |
| JavaText.TrimUnpadded | src/FileDownloader.java:94 | `trim` removes exactly the padding around a text that neither starts nor ends with a trimmable character |
| JavaText.Pieces | src/FileDownloader.java:94 | cutting a string at every separator gives at least one piece, and no piece holds the separator |
| JavaText.JoinPieces | src/FileDownloader.java:94 | joining the pieces with the separator gives back the original string |
| JavaText.PiecesAppend | src/FileDownloader.java:98 | a separator between two strings ends the last piece of the first |
| JavaText.PiecesAllEmpty | src/FileDownloader.java:98 | all pieces are empty exactly when the string consists only of separators |
| JavaText.DropTrailingEmpty | src/FileDownloader.java:98 | removing trailing empty strings gives a prefix that does not end in an empty string, and everything it drops is empty |
| JavaText.Split | src/FileDownloader.java:94 | `split` of a single-character separator: the string itself when the separator is absent, otherwise the pieces without trailing empty ones; no field holds the separator |
| JavaText.SinglePiece | src/FileDownloader.java:98 | a string without the separator is a single piece |
| JavaText.ParseInt | src/FileDownloader.java:94 | `parseInt` succeeds exactly on an optional sign followed by one or more decimal digits whose signed value fits in an int, and then returns that value; otherwise it throws NumberFormatException for the input |
| JavaText.ParseIntEdges | src/FileDownloader.java:94 | a bare "+" or "-" throws; a leading '+' or leading zeros do not change the value |
| JavaText.ZeroDigitsValue | src/FileDownloader.java:94 | a leading zero adds nothing to the value of a numeral |
| JavaText.NatToString | src/FileDownloader.java:181 | a natural number prints as a non-empty string of digits without leading zeros |
| JavaText.IntToString | src/FileDownloader.java:181 | an int prints as a '-' exactly when it is negative, then one or more digits without a leading zero, whose signed value is the int |
| JavaText.NatToStringValue | src/FileDownloader.java:181 | the printed digits have the printed number as their value |
| JavaText.ParseIntToString | src/FileDownloader.java:94 | `parseInt` reads back every int that `%s` printed |
| JavaText.IntToStringUnpadded | src/FileDownloader.java:181 | a printed int has no trimmable character at either end |
| HttpRequest.HeadRequest | src/FileDownloader.java:144-150 | the printed HEAD probe is the serialised HEAD request for the path, with the five headers Host, User-Agent, Accept, Accept-Language and Connection in that order |
| HttpRequest.GetRequest | src/FileDownloader.java:165-167 | the printed GET is the serialised GET request for the path with the single header Host |
| HttpRequest.RangeGetRequest | src/FileDownloader.java:179-182 | the printed ranged GET is the serialised GET request for the path with Host and then `Range: bytes=lower-upper` |
| HttpRequest.RequestLineKeepsPath | src/FileDownloader.java:144 | every request begins with its method, a '/', the path exactly as given and `HTTP/1.1` |
| HttpRequest.RequestEndsWithBlankLine | src/FileDownloader.java:150 | every request ends with CRLF CRLF, the empty line that closes the head |
| HttpRequest.HeaderLinesAppend | src/FileDownloader.java:179-182 | header lines are written in the order of the headers |
| HttpRequest.RangeGetInsertsRange | src/FileDownloader.java:179-182 | the ranged GET is the plain GET with the Range line inserted before the closing empty line |
| HttpResponse.CheckResponseCode | src/FileDownloader.java:66-68 | the status line is a success exactly when "200 OK" occurs at some position of it |
| HttpResponse.NoTwoNoSuccess | src/FileDownloader.java:66-68 | a status line without the character '2', such as a 404, is not a success |
| HttpResponse.SuccessAnywhere | src/FileDownloader.java:66-68 | a status line holding "200 OK" at any position is a success |
| HttpResponse.HeaderNumber | src/FileDownloader.java:94 | a line without ':' throws ArrayIndexOutOfBounds for index 1 of a one-element array; a number is read only from a line with ':'; the only exceptions are that one and NumberFormat |
| HttpResponse.HeaderNumberNoValue | src/FileDownloader.java:94 | a line with a name and nothing but ':' after it, such as `Content-Length:`, splits into the name alone and throws ArrayIndexOutOfBounds for index 1 of a one-element array |
| HttpResponse.ContentLength | src/FileDownloader.java:90-96 | the scan can only throw NumberFormat or ArrayIndexOutOfBounds |
| HttpResponse.ContentLengthStep | src/FileDownloader.java:92-95 | one more line replaces the size with its own number when it contains "Content-Length:", and keeps it otherwise |
| HttpResponse.ScanContentLength | src/FileDownloader.java:90-96 | the scan loop ends with the size of the specification `ContentLength`, or with its exception |
| HttpResponse.ContentLengthErrorStays | src/FileDownloader.java:92-96 | once a line has thrown, the lines after it do not change the outcome |
| HttpResponse.NoContentLengthLine | src/FileDownloader.java:90-96 | without any Content-Length line the size stays at the sentinel -1 |
| HttpResponse.LastContentLengthWins | src/FileDownloader.java:92-95 | when several lines carry Content-Length, the last one decides the size |
| HttpResponse.ContentLengthFails | src/FileDownloader.java:92-96 | the scan throws exactly when some Content-Length line does not hold a parsable number |
| HttpResponse.HeaderNumberField | src/FileDownloader.java:94 | for a line `name:value` or `name:value:...` with a non-empty `value`, the number read is `parseInt(trim(value))` |
| HttpResponse.ContentLengthLine | src/FileDownloader.java:94 | the line `Content-Length: n` reads back as `n` |
| HttpResponse.Saved | src/FileDownloader.java:197-201 | the saved text has at least one character per line and, when there is a line, ends with "\n" |
| HttpResponse.SaveAsFile | src/FileDownloader.java:195-201 | the save loop builds every received line, in order, each followed by "\n" |
| HttpResponse.SavedAppend | src/FileDownloader.java:197-199 | one more received line appends that line and "\n" to the saved text |
| HttpResponse.SavedSplitsBack | src/FileDownloader.java:197-201 | cutting the saved text at "\n" gives back the received lines followed by one empty piece |
| Downloader.Decide | src/FileDownloader.java:101-114 | only a "200 OK" answer with a known size leads to a download or a skip; a range carries the policy's bounds and needs a bounded policy; a skip needs a bounded policy and a size below the lower bound |
| Downloader.DecideCases | src/FileDownloader.java:101-114 | for each of the four decisions, the exact condition on the status, the size and the window that leads to it, with the policy's bounds in the range |
| Downloader.RangeBeforeSkip | src/FileDownloader.java:104-108 | the range test is made first, so a size above the upper bound is fetched as a range even when it is also below the lower bound |
| Downloader.UnboundedNeverPartial | src/FileDownloader.java:104-111 | without a size window every file is either not found or downloaded whole |
| Downloader.FileName | src/FileDownloader.java:98-99 | the local file name never contains '/' |
| Downloader.FileNameFails | src/FileDownloader.java:98-99 | the name lookup throws exactly for a non-empty path made only of '/' |
| Downloader.FileNameLastSegment | src/FileDownloader.java:98-99 | the name is the segment after the last '/' |
| Downloader.FileNameTrailingSlash | src/FileDownloader.java:98-99 | a trailing '/' does not change the name of a non-empty path |
| Downloader.FileNamePlain | src/FileDownloader.java:98-99 | a path without '/' is its own file name |
| Downloader.FollowUpFor | src/FileDownloader.java:104-113 | no GET follows NotFound or SkippedTooSmall; every GET sent saves all lines of its answer to the named file |
| Downloader.DownloadOutcome | src/FileDownloader.java:83-116 | a handled entry always carries the HEAD probe for its path, and NotFound never sends a GET |
| Downloader.EmptyResponseNotFound | src/FileDownloader.java:86-88 | an empty HEAD answer is NotFound under every policy, with no follow-up request |
| Downloader.UnsuccessfulResponseNotFound | src/FileDownloader.java:101-102 | a status line without "200 OK", or an answer without Content-Length, is NotFound with no follow-up |
| Downloader.DownloadOutcomeFails | src/FileDownloader.java:86-99 | an entry throws exactly when the answer is non-empty and the scan or the name lookup throws |
| Downloader.FollowUpMatchesDecision | src/FileDownloader.java:101-114 | the probe is the HEAD request; no GET follows NotFound or SkippedTooSmall; the range GET uses the policy's bounds; the full GET is the plain GET; the path's file name receives every line of that GET's answer, each followed by "\n" |
| Downloader.Kept | src/FileDownloader.java:75-78 | the kept lines are exactly the listing lines that start with the host, never more than the listing |
| Downloader.KeptAppend | src/FileDownloader.java:75-78 | filtering keeps the order of the listing |
| Downloader.KeptLonger | src/FileDownloader.java:76-77 | without a line equal to the host, every kept line is longer than the host |
| Downloader.KeptStep | src/FileDownloader.java:76-77 | one more listing line is kept exactly when it starts with the host |
| Downloader.Stripped | src/FileDownloader.java:77 | `substring(n)` gives one entry per line, and each line is its first `n` characters followed by its entry |
| Downloader.StrippedAppend | src/FileDownloader.java:77 | one more kept line adds its own `substring` at the end |
| Downloader.IndexEntries | src/FileDownloader.java:71-80 | the listing throws exactly when a line equals the host, and otherwise gives one entry per kept line |
| Downloader.IndexEntriesStep | src/FileDownloader.java:75-78 | one more line adds its stripped entry when it starts with the host, and changes nothing otherwise |
| Downloader.IndexLineTooShort | src/FileDownloader.java:76-77 | a line that starts with the host and has nothing after it makes the listing throw the substring exception |
| Downloader.IndexEntriesStrip | src/FileDownloader.java:75-78 | each entry is its kept line with the host and one more character removed, one entry per kept line |
| Downloader.IndexExample | src/FileDownloader.java:71-80 | a listing with lines of another host keeps only this host's entries, in order, without the prefix |
| Downloader.DownloadAll | src/FileDownloader.java:61-63 | a completed run has one exchange per entry; a run stopped by an exception has fewer exchanges than entries |
| Downloader.RunOutcome | src/FileDownloader.java:48-64 | an index listing that throws gives that exception and no exchanges; otherwise the run has at most one exchange per index entry, and exactly one each when nothing threw |
| Downloader.DownloadAllErrorStays | src/FileDownloader.java:61-63 | once an entry has thrown, no later entry is handled |
| Downloader.DownloadAllStep | src/FileDownloader.java:61-63 | an entry handled without an exception extends the run by its exchange |
| Downloader.DownloadAllStepFails | src/FileDownloader.java:61-63 | an entry that throws ends the run with its exception, keeping the exchanges of the entries before it |
| Downloader.DownloadAllEntries | src/FileDownloader.java:61-63 | the i-th exchange of a run is the i-th entry's own outcome; a run that stopped did so at the entry after its last exchange, with that entry's exception |
| Downloader.DownloadAllFails | src/FileDownloader.java:61-63 | the run stops with an exception exactly when some entry throws |
| Downloader.FileDownloader.constructor | src/FileDownloader.java:33-45 | both bounds -1 means unbounded with bounds stored as 0; any other pair is bounded and kept as given |
| Downloader.FileDownloader.RetrieveIndexList | src/FileDownloader.java:71-80 | the index GET for the initial path and the filtering loop over its answer return the specification `IndexEntries`: the stripped kept lines, or the substring exception when a line equals the host |
| Downloader.FileDownloader.DownloadFile | src/FileDownloader.java:83-116 | the method returns the specification `DownloadOutcome` of the server's HEAD answer: the probe, the decision and the follow-up GET with the text saved from its answer, or the exception of the scan or the name lookup |
| Downloader.FileDownloader.Run | src/FileDownloader.java:48-64 | the run returns the specification `RunOutcome`: the index fetched and filtered, then every entry handled in index order until the first exception, which ends the run with the exchanges completed before it |

## Left out

- Sockets, streams and the fixed port 80 are not modelled. Every exchange is a request string and
  the sequence of response lines that the input `server` gives for it.
- The `server` input is a function: the same request always gets the same answer, so a path listed
  twice is probed and fetched with identical answers. A server whose answers change between
  connections is not modelled.
- `BufferedReader.readLine` is not modelled: the line splitting, the terminators and UTF-8 decoding
  belong to the library. Responses are already sequences of lines.
- The writing of `FileOutputStream` is left out, as are the `./` prefix of the local file name and
  the UTF-8 encoding of the saved text. `SaveAsFile` stops at the text the loop builds.
- The `printf` console messages of `Run` and `DownloadFile` are left out. The decision that selects
  each message is modelled.
- `main` is left out. It parses the command line into host, path and bounds, and it can throw on a
  malformed argument. The model starts at the constructor.
- Text is modelled as sequences of Unicode scalar values, and Java counts `length()` and
  `substring` positions in UTF-16 code units. The model therefore does not capture the index
  arithmetic on text beyond U+FFFF. On such text `substring(index.length() + 1)` in
  `RetrieveIndexList` may leave half of a surrogate pair in Java, and the lengths carried by
  `StringIndexOutOfBounds` may differ.
- JavaText.ParseInt: accepts only ASCII digits. Java's `parseInt` also accepts the other Unicode
  decimal digits.
- IOExceptions from the network and the file system are not modelled.

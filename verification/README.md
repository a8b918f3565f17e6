# A verified model of a small HTTP/1.1 file server's request handling

The server reads one request line from a client, such as `GET /index.html`,
and answers over the same connection from files under a document root. Two
generations of the handler exist side by side:

- `Responder` (the extended version) serves HEAD, GET and DELETE. It labels
  each file with a content type derived from its extension (`text/html`,
  `gif`, `jpg`, `png` or nothing). DELETE really removes the file. Unknown
  methods get a bare 501 header.
- `Response` (the earlier version) leaves the Content-Type line out when the
  type is empty. HEAD always answers 200 without looking at any file. GET
  always labels the body `TEXT_HTML`. DELETE only answers and never deletes.
  The 404 and 501 replies carry an HTML page built by `getHTMLPage`.

Both dispatch through string-to-enum tables whose `convert` returns the first
constant whose text equals the code. `FileType` and `constants.RequestCode`
fall back to `NONE`. `ResponseCode` and the default-package `RequestCode`
throw.

How the model stands in for the world:

- **Files.** A `map<string, seq<byte>>` keyed by document root + requested
  name. Only `Responder`'s DELETE changes it.
- **Socket.** A trace `sent: seq<Chunk>`. `println(line)` appends
  `Text(line + newline)`; `newline` is the platform line separator, fixed
  when the handler is built. The file copy appends `Bytes` chunks.
- **Nondeterminism.** How many bytes each `read` returns is chosen
  arbitrarily between 1 and 1500. Whether `File.delete()` succeeds is a
  parameter `osDeletes`.
- **Reference definitions.** Each handler's `processRequest` is proved
  against a pure `Dispatch` function. `Dispatch` gives either the reply (the
  printed lines and the body bytes) and the files afterwards, or the
  exception the Java code throws.
- **Page lengths.** The Content-Length of an HTML page is the page's length
  in UTF-16 code units (`Text.Utf16Length`), as Java's `String.length()`
  measures it: a character above U+FFFF, which a requested name may contain,
  counts 2.
- **Properties.** They are stated for a client. A header is read back with an
  independent parser, `Headers.Parse`. `Transmits(before, after, reply,
  newline)` says the socket received the reply's lines and then its body in
  chunks of 1 to 1500 bytes, in order and verbatim.

Modules:

- `Results`: `Option`, `Result` and the two exceptions that can escape.
- `Lookup`: the first-match search behind every `convert`.
- `FileTypes`, `RequestCodes`, `ResponseCodes`, `DefaultRequestCodes`: the
  four enum tables.
- `Text`: decimal rendering of a length, `indexOf`/`lastIndexOf`, substring
  containment, and a string's length in UTF-16 code units as Java's
  `String.length()` counts it.
- `JavaSplit`: `String.split("\\s+")`.
- `Headers`: the client-side header reader.
- `Http`: what both handlers share: the file map, the three status texts, the
  page prefix, and the shape of a request line (`Asks`, `TargetOf`).
- `Transfer`: bytes, the socket trace and the chunked copy loop.
- `Responder` and `Response`: the two handlers, each a pure reference
  (`Dispatch`) plus a class whose methods update `sent` (and `files`) step by
  step.

## Model

| member | source | states |
|---|---|---|
| `Lookup.FirstMatch` | src/constants/FileType.java:49-55 | The index found is the first constant whose text equals the code, or -1 when none does; every `convert` is built on it |
| `FileTypes.Convert` | src/constants/FileType.java:49-56 | The result's text equals the code, or the result is NONE and no constant has that text; never an error |
| `FileTypes.ConvertRoundTrip` | src/constants/FileType.java:38-54 | Converting a constant's text gives that constant back |
| `FileTypes.NamesDistinct` | src/constants/FileType.java:10-30 | The texts "html", "gif", "jpg", "png" and "" are pairwise distinct, so the first match is the only match |
| `FileTypes.ConvertRecognises` | src/constants/FileType.java:10-25 | "html", "gif", "jpg" and "png" map to HTML, GIF, JPEG and PNG; every other code maps to NONE |
| `FileTypes.ConvertIsExact` | src/constants/FileType.java:51 | Matching is exact and case-sensitive: "HTML", "jpeg" and "Gif" give NONE |
| `FileTypes.ValuesComplete` | src/constants/FileType.java:6-30 | The search runs over every constant of the enum |
| `FileTypes.Name` | src/constants/FileType.java:10-41 | The text each constant carries (`toString`); no contract of its own. `FileTypes.NamesDistinct` and `FileTypes.ConvertRoundTrip` state that it is injective and that `convert` inverts it |
| `FileTypes.Values` | src/constants/FileType.java:6-30 | `values()` in declaration order; no contract of its own. `FileTypes.ValuesComplete` states that it lists every constant |
| `RequestCodes.Convert` | src/constants/RequestCode.java:41-48 | The result's text equals the code, or the result is NONE and no constant has that text |
| `RequestCodes.ConvertRoundTrip` | src/constants/RequestCode.java:31-46 | Converting each of the four constants' texts gives it back; "" gives NONE by matching |
| `RequestCodes.NamesDistinct` | src/constants/RequestCode.java:6-22 | The four texts are pairwise distinct |
| `RequestCodes.ConvertRecognises` | src/constants/RequestCode.java:10-22 | A code is recognised exactly when it is "GET", "HEAD" or "DELETE", each mapping to its constant |
| `RequestCodes.ConvertIsExact` | src/constants/RequestCode.java:43-47 | "OPTIONS" (no such constant), "get" and "Head" give NONE |
| `RequestCodes.ValuesComplete` | src/constants/RequestCode.java:6-22 | The search runs over every constant of the enum |
| `RequestCodes.Name` | src/constants/RequestCode.java:10-33 | The text each constant carries (`toString`); no contract of its own. `RequestCodes.NamesDistinct` and `RequestCodes.ConvertRoundTrip` state that it is injective and that `convert` inverts it |
| `RequestCodes.Values` | src/constants/RequestCode.java:6-22 | `values()` in declaration order; no contract of its own. `RequestCodes.ValuesComplete` states that it lists every constant |
| `ResponseCodes.Convert` | src/constants/ResponseCode.java:37-45 | A success has exactly the code's text; it throws RuntimeException("RESPONSE CODE IS NOT FOUND") exactly when no constant has that text |
| `ResponseCodes.ConvertRoundTrip` | src/constants/ResponseCode.java:26-42 | Converting "200 OK", "404 Not Found" or "501 Not Implemented" gives the matching constant |
| `ResponseCodes.NamesDistinct` | src/constants/ResponseCode.java:10-20 | The three status texts are pairwise distinct |
| `ResponseCodes.ConvertSucceedsIff` | src/constants/ResponseCode.java:37-45 | Conversion succeeds exactly for the three status texts |
| `ResponseCodes.ConvertIsExact` | src/constants/ResponseCode.java:39-44 | "200", "200 ok" and "404" throw |
| `ResponseCodes.ValuesComplete` | src/constants/ResponseCode.java:6-20 | The search runs over every constant of the enum |
| `ResponseCodes.Name` | src/constants/ResponseCode.java:10-29 | The text each constant carries (`toString`); no contract of its own. `ResponseCodes.NamesDistinct` and `ResponseCodes.ConvertRoundTrip` state that it is injective and that `convert` inverts it |
| `ResponseCodes.Values` | src/constants/ResponseCode.java:6-18 | `values()` in declaration order; no contract of its own. `ResponseCodes.ValuesComplete` states that it lists every constant |
| `DefaultRequestCodes.Convert` | src/RequestCode.java:22-29 | A success has exactly the code's text; it throws RuntimeException("REQUEST CODE IS NOT FOUND") exactly when no constant has that text |
| `DefaultRequestCodes.ConvertRoundTrip` | src/RequestCode.java:11-27 | Converting "GET" or "HEAD" gives that constant back |
| `DefaultRequestCodes.NamesDistinct` | src/RequestCode.java:1-3 | The two texts are distinct |
| `DefaultRequestCodes.ConvertSucceedsIff` | src/RequestCode.java:22-28 | Conversion succeeds exactly for "GET" and "HEAD"; "DELETE" and "get" throw |
| `DefaultRequestCodes.ValuesComplete` | src/RequestCode.java:1-3 | The search runs over both constants |
| `DefaultRequestCodes.Name` | src/RequestCode.java:2-14 | The text each constant carries (`toString`); no contract of its own. `DefaultRequestCodes.NamesDistinct` and `DefaultRequestCodes.ConvertRoundTrip` state that it is injective and that `convert` inverts it |
| `DefaultRequestCodes.Values` | src/RequestCode.java:1-3 | `values()` in declaration order; no contract of its own. `DefaultRequestCodes.ValuesComplete` states that it lists every constant |
| `JavaSplit.SplitIsWords` | src/Responder.java:232 | `split("\\s+")` gives the whitespace-free words of the line. A line starting with whitespace gets a leading "" token. An empty line gives [""] and an all-whitespace line gives no tokens |
| `JavaSplit.SplitTwoTokens` | src/Responder.java:232 | "METHOD target" splits into exactly those two tokens |
| `JavaSplit.SplitOneToken` | src/Response.java:170 | A line without whitespace is its only token |
| `JavaSplit.Split` | src/Responder.java:232 | `split("\\s+")` as Java defines it (pieces between whitespace runs, trailing empty pieces dropped); no contract of its own. `JavaSplit.SplitIsWords` relates it to an independent word reading of the line |
| `JavaSplit.SplitRequestLine` | src/Responder.java:232-233 | "METHOD target" followed by whitespace and anything else (a protocol version, more tokens, blanks) still has METHOD and target as its first two tokens |
| `JavaSplit.SplitTokenThenBlanks` | src/Response.java:170 | A token followed only by whitespace splits into that token alone, because trailing empty tokens are dropped |
| `Http.RequestLineAsks` | src/Responder.java:232-245 | A line "VERB target ..." asks for VERB with that target, whatever follows the target after whitespace |
| `Text.Decimal` | src/Responder.java:58 | A length renders as decimal digits with no leading zero |
| `Text.DecimalRoundTrip` | src/Responder.java:58 | The rendered digits read back as the same number |
| `Text.LastIndexOf` | src/Responder.java:115-116 | The index is the last occurrence of the character, or -1 when there is none |
| `Text.Utf16Length` | src/Responder.java:201 | The length Java's `String.length()` gives: one unit per character below U+10000 and two for one above, so between the character count and twice it |
| `Text.Utf16LengthAppend` | src/Responder.java:196-199 | The UTF-16 length of a concatenation is the sum of the parts' lengths |
| `Text.Utf16LengthOfBasic` | src/Response.java:140 | Text with no character above U+FFFF has as many UTF-16 units as characters |
| `Text.SurrogatePairCountsTwice` | src/Response.java:154 | One character above U+FFFF is one `char` of the model and two UTF-16 units |
| `Transfer.CopyInChunks` | src/Responder.java:66-84 | The loop that refills a 1500-byte buffer writes the whole file as chunks of 1 to 1500 bytes whose concatenation is the file. The copy in src/Response.java:63-83 is the same loop |
| `Transfer.ChunkedLength` | src/Responder.java:71-75 | The chunks written add up to the file's length |
| `Responder.GetHeader` | src/Responder.java:55-59 | The three-line header; no contract of its own. `Responder.GetHeaderRoundTrip` states what a client reads back from it |
| `Responder.GetHeaderRoundTrip` | src/Responder.java:55-59 | The header is a status line, a Content-Type line (present even when the type is empty) and a Content-Length line, each ended by CRLF; a client reads back the same status, type and length |
| `Responder.ExtensionText` | src/Responder.java:112-120 | The extension is empty or the suffix after a '.' that holds no '.', '/' or '\\' |
| `Responder.ExtensionOfDotted` | src/Responder.java:115-119 | Any name ending in '.' and such a suffix has exactly that suffix as its extension |
| `Responder.DottedDirectoryHasNoExtension` | src/Responder.java:105-118 | "/path/to.a/file" has no extension because its last '.' comes before its last '/' |
| `Responder.GetFileExtension` | src/Responder.java:112-133 | The content type is always "text/html", "gif", "jpg", "png" or "" |
| `Responder.FileExtensionTable` | src/Responder.java:122-132 | An "html" extension gives "text/html". A "gif", "jpg" or "png" extension is returned verbatim. Anything else gives "" |
| `Responder.NotFoundPage` | src/Responder.java:196-199 | The 404 page contains "The requested URL " followed by the requested name |
| `Responder.NotFoundReply` | src/Responder.java:195-206 | The 404 reply; no contract of its own. `Responder.NotFoundReplyReadable` states what a client reads from it |
| `Responder.HeadReply` | src/Responder.java:91-101 | The HEAD reply; no contract of its own. `Responder.HeadIsGetWithoutBody` and `Responder.MissingFileNotFound` state what it is |
| `Responder.GetReply` | src/Responder.java:141-152 | The GET reply; no contract of its own. `Responder.GetServesFile` and `Responder.MissingFileNotFound` state what it is |
| `Responder.DeleteReply` | src/Responder.java:160-171 | The DELETE reply; no contract of its own. `Responder.DeleteRemovesFile` and `Responder.MissingFileNotFound` state what it is |
| `Responder.AfterDelete` | src/Responder.java:163-167 | The files after DELETE; no contract of its own. `Responder.DeleteRemovesFile` and `Responder.OnlyDeleteRemoves` state what changes |
| `Responder.OptionsReply` | src/Responder.java:176-187 | The OPTIONS reply; no contract of its own. `Responder.Responder.RespondOptions` sends exactly it |
| `Responder.NotImplementedReply` | src/Responder.java:214-219 | The bare 501 reply; no contract of its own. `Responder.UnknownMethodNotImplemented` states what a client reads from it |
| `Responder.Dispatch` | src/Responder.java:229-251 | The request throws exactly when its line splits into no tokens, or into HEAD, GET or DELETE alone; the index error names the token read and the array's length |
| `Responder.GetServesFile` | src/Responder.java:141-148 | GET of an existing file, whatever follows the target on the line, gives 200 with the file's content type and its length, then exactly its bytes; the files are unchanged |
| `Responder.HeadIsGetWithoutBody` | src/Responder.java:91-101 | HEAD sends exactly the header lines GET sends for the same target, and no body, whatever else either line holds |
| `Responder.DeleteOfExisting` | src/Responder.java:160-171 | `respondDELETE` on an existing file: one 200 header with the file's content type and length 0, no body; the file is absent afterwards exactly when the delete succeeded, and every other file is kept unchanged |
| `Responder.DeleteRemovesFile` | src/Responder.java:160-171 | DELETE of an existing file gives 200 with length 0 and no body, whatever the delete did. The file is absent afterwards exactly when the delete succeeded. No other file changes |
| `Responder.PageReplyReadable` | src/Responder.java:182-184 | A header followed by a page: a client reads back the status, the type and the page's UTF-16 length, then the page itself, with no body |
| `Responder.NotFoundReplyReadable` | src/Responder.java:195-206 | The 404 reply is a header with status 404, the content type of the requested name and the page's length in UTF-16 units, then the page, with no body |
| `Responder.MissingFileNotFound` | src/Responder.java:91-171 | HEAD, GET or DELETE of a missing file is answered with the 404 reply, and the files are unchanged |
| `Responder.UnknownMethodNotImplemented` | src/Responder.java:214-219 | Any first token other than GET, HEAD and DELETE gets a single 501 header with type "text/html", length 0 and no body; the files are unchanged |
| `Responder.LeadingSpaceNotImplemented` | src/Responder.java:232-250 | An empty line, or one that starts with whitespace, is answered 501 even when a valid request follows, because its first token is "" |
| `Responder.BlankLineThrows` | src/Responder.java:232-233 | A line of whitespace only throws an index error on token 0 |
| `Responder.TrailingTokensIgnored` | src/Responder.java:232-245 | Only the first two tokens are read: two lines that agree on them are answered alike |
| `Responder.VersionIgnored` | src/Responder.java:232-245 | "VERB target HTTP/1.1" is answered exactly as "VERB target" |
| `Responder.MissingTargetThrows` | src/Responder.java:237-245 | HEAD, GET or DELETE with no target, bare or followed by blanks only, throws an index error on token 1 instead of answering |
| `Responder.OnlyDeleteRemoves` | src/Responder.java:229-254 | For any request, files are only ever removed, never added or altered, and only a DELETE removes one |
| `Responder.Responder.constructor` | src/Responder.java:41-45 | A handler starts over its document root and files with nothing sent |
| `Responder.Responder.Println` | src/Responder.java:95 | `println` sends the line followed by the line separator |
| `Responder.Responder.SendResource` | src/Responder.java:66-84 | An existing file is sent as its body in chunks of at most 1500 bytes; a missing one sends nothing |
| `Responder.Responder.RespondHead` | src/Responder.java:91-101 | Sends exactly the HEAD reply |
| `Responder.Responder.RespondGet` | src/Responder.java:141-152 | Sends exactly the GET reply: header, then the file in chunks |
| `Responder.Responder.RespondDelete` | src/Responder.java:160-171 | Sends exactly the DELETE reply, and the files afterwards are those with the file removed when it existed and was deleted |
| `Responder.Responder.RespondOptions` | src/Responder.java:176-187 | Sends a 200 text/html header with the method page's UTF-16 length, then the page |
| `Responder.Responder.RespondNotFound` | src/Responder.java:195-206 | Sends exactly the 404 reply |
| `Responder.Responder.RespondNotImplemented` | src/Responder.java:214-219 | Sends exactly the bare 501 header |
| `Responder.Responder.ProcessRequest` | src/Responder.java:229-254 | Either throws what `Dispatch` throws and changes nothing, or sends `Dispatch`'s reply and leaves `Dispatch`'s files |
| `Response.GetHeader` | src/Response.java:30-40 | The header with an optional Content-Type line; no contract of its own. `Response.GetHeaderRoundTrip` states what a client reads back from it |
| `Response.GetHeaderRoundTrip` | src/Response.java:30-40 | A client reads back the status and the length; the Content-Type line is present, with the given type, exactly when the type is non-empty |
| `Response.GetHTMLPage` | src/Response.java:47-58 | A page is produced exactly for "200 OK", "404 Not Found" and "501 Not Implemented"; any other status throws RuntimeException("RESPONSE CODE IS NOT FOUND") |
| `Response.NotFoundPageNamesResource` | src/Response.java:50-51 | The 404 page contains "The requested URL " followed by the name |
| `Response.NotImplementedPageNamesCode` | src/Response.java:52-53 | The 501 page contains "The request code " followed by the code |
| `Response.OkPageIsGeneric` | src/Response.java:56-57 | The 200 page is the generic one and does not depend on the name |
| `Response.UnknownStatusThrows` | src/Response.java:49 | "200" and "404 not found" are not statuses and throw |
| `Response.HeadReply` | src/Response.java:88-92 | The HEAD reply; no contract of its own. `Response.HeadAlwaysOk` states what a client reads from it |
| `Response.NotFoundReply` | src/Response.java:138-144 | The 404 reply; no contract of its own. `Response.NotFoundReplyReadable` states what a client reads from it |
| `Response.NotImplementedReply` | src/Response.java:152-158 | The 501 reply; no contract of its own. `Response.NotImplementedReplyReadable` states what a client reads from it |
| `Response.GetReply` | src/Response.java:100-111 | The GET reply; no contract of its own. `Response.GetServesFile` and `Response.MissingFileNotFound` state what it is |
| `Response.DeleteReply` | src/Response.java:119-130 | The DELETE reply; no contract of its own. `Response.DeleteOnlyAnswers` and `Response.MissingFileNotFound` state what it is |
| `Response.Dispatch` | src/Response.java:167-187 | The request throws exactly when its line splits into no tokens, or into GET or DELETE alone (a bare HEAD is answered); the index error names the token read and the array's length |
| `Response.HeadAlwaysOk` | src/Response.java:88-92 | HEAD gives 200 with no Content-Type line, length 0 and no body, whatever exists |
| `Response.HeadNeedsNoTarget` | src/Response.java:176-177 | "HEAD" alone, or followed by blanks only, is answered rather than throwing |
| `Response.GetServesFile` | src/Response.java:100-107 | GET of an existing file, whatever follows the target on the line, gives 200 labelled "TEXT_HTML" whatever its extension, with its length, then exactly its bytes |
| `Response.DeleteOnlyAnswers` | src/Response.java:119-126 | DELETE of an existing file, whatever follows the target on the line, gives 200 with no Content-Type line, length 0 and no body |
| `Response.NotFoundReplyReadable` | src/Response.java:138-144 | The 404 reply is a "TEXT_HTML" header carrying the page's length in UTF-16 units, then the 404 page |
| `Response.MissingFileNotFound` | src/Response.java:100-130 | GET or DELETE of a missing file is answered with the 404 reply |
| `Response.NotImplementedReplyReadable` | src/Response.java:152-158 | The 501 reply is a "TEXT_HTML" header carrying the page's length in UTF-16 units, then the 501 page |
| `Response.UnknownMethodNotImplemented` | src/Response.java:185-186 | Any first token other than GET, HEAD and DELETE gets the 501 reply naming that token |
| `Response.OptionsNotImplemented` | src/Response.java:175-186 | A line whose first token is OPTIONS, with or without a target, is answered with the 501 reply naming OPTIONS |
| `Response.MissingTargetThrows` | src/Response.java:179-183 | GET or DELETE with no target, bare or followed by blanks only, throws an index error on token 1 |
| `Response.BlankLineThrows` | src/Response.java:170-171 | A line of whitespace only throws an index error on token 0 |
| `Response.TrailingTokensIgnored` | src/Response.java:170-184 | Only the first two tokens are read: two lines that agree on them are answered alike |
| `Response.VersionIgnored` | src/Response.java:170-184 | "VERB target HTTP/1.1" is answered exactly as "VERB target" |
| `Response.Response.constructor` | src/Response.java:24-28 | A handler starts over its document root and files with nothing sent |
| `Response.Response.Println` | src/Response.java:89 | `println` sends the line followed by the line separator |
| `Response.Response.SendResource` | src/Response.java:63-83 | An existing file is sent as its body in chunks of at most 1500 bytes; a missing one sends nothing |
| `Response.Response.RespondHead` | src/Response.java:88-92 | Sends the 200 header with no type and length 0 |
| `Response.Response.RespondGet` | src/Response.java:100-111 | Sends exactly the GET reply: header, then the file in chunks |
| `Response.Response.RespondDelete` | src/Response.java:119-130 | Sends exactly the DELETE reply; the files cannot change |
| `Response.Response.SendNotFound` | src/Response.java:138-144 | Sends exactly the 404 reply |
| `Response.Response.SendNotImplemented` | src/Response.java:152-158 | Sends exactly the 501 reply |
| `Response.Response.ProcessRequest` | src/Response.java:167-190 | Either throws what `Dispatch` throws and sends nothing, or sends `Dispatch`'s reply |

## Left out

- Logging (`LogFile`) is a no-op here. Nothing a request does depends on it.
- Sockets are left out: opening the `PrintWriter` and the closes of `out`,
  `in` and `print_writer`. Once the file copy closes the output stream, the
  connection is finished; the model does not represent a closed stream.
- I/O errors during the copy are left out: the `IOException` path that only
  logs.
- The real filesystem is a map. `File.exists()` holding for a directory is
  not modelled: the map holds only readable files. `File.length()` is the
  byte count of the entry.
- The platform line separator is an arbitrary string fixed per handler.
  Content-Length counts the page's characters, not the separator `println`
  adds after it, exactly as the source does.
- Lengths are unbounded naturals. The Java `long` of `getHeader` and the
  `int` of `String.length()` cannot overflow for files of realistic size.
- `Responder.Responder.RespondOptions` is modelled but never called from
  `ProcessRequest`. The switch in src/Responder.java:247 names an `OPTIONS`
  constant that src/constants/RequestCode.java does not declare, so the file
  does not compile as written. The model dispatches over the four constants
  that exist, and "OPTIONS" falls to the 501 reply. Had the constant existed,
  the missing `break` at src/Responder.java:248 would follow the OPTIONS page
  with a 501 header; that path is not modelled.
- The server loop, the connection handler, the clients and the command-line
  entry points are not part of this model (`WebServer`, `ConnectionHandler`,
  `Client`, `WebServerMain`, `ExtendedWebServerMain`, `WebSeverMain`). They
  are concurrency and blocking I/O around the handlers.
- `DisconnectedException` is not part of this model. It carries no logic.
- `constants.ContentType` is inlined: `TEXT_HTML` is "TEXT_HTML" and `NONE`
  is "".
- The content types follow the code. `getFileExtension` returns "jpg"
  verbatim for a JPEG file, not "image/jpeg". Likewise, `Response`'s GET
  labels every body "TEXT_HTML".

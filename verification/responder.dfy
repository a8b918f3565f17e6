/**
 * The extended request handler (Responder.java): one request line in, one
 * response out, over a document root held in a map from paths to file
 * contents and a socket modelled as a trace of writes.
 */
module Responder {
  import opened Results
  import opened Transfer
  import Text
  import Headers
  import FileTypes
  import RequestCodes
  import JavaSplit
  import opened Http

  const TEXT_HTML := "text/html"
  const CR_LF := Headers.CRLF

  /** `getHeader`: status line, Content-Type line and Content-Length line, each ended by CRLF. */
  function GetHeader(responseCode: string, contentType: string, resourceLength: nat): string
  {
    "HTTP/1.1 " + responseCode + CR_LF
    + "Content-Type: " + contentType + CR_LF
    + "Content-Length: " + Text.Decimal(resourceLength) + CR_LF
  }

  /**
   * A client reading the header gets back exactly the status, the content
   * type (present even when empty) and the length it was built from.
   */
  lemma GetHeaderRoundTrip(responseCode: string, contentType: string, resourceLength: nat)
    requires '\r' !in responseCode && '\r' !in contentType
    ensures Headers.Parse(GetHeader(responseCode, contentType, resourceLength))
         == Some(Headers.HeaderFields(responseCode, Some(contentType), resourceLength))
  {
    Headers.ParseWithType(responseCode, contentType, resourceLength);
  }

  /** No '.', '/' or '\' in the text. */
  predicate Plain(s: string)
  {
    '.' !in s && '/' !in s && '\\' !in s
  }

  /**
   * The extension `getFileExtension` looks up: the text after the last '.',
   * taken only when that dot comes after the last '/' and the last '\'.
   */
  function ExtensionText(fileName: string): (extension: string)
    ensures extension == "" || (
      && |extension| < |fileName|
      && fileName[|fileName| - |extension| - 1] == '.'
      && fileName[|fileName| - |extension|..] == extension
      && Plain(extension))
  {
    var i := Text.LastIndexOf(fileName, '.');
    var p := Max(Text.LastIndexOf(fileName, '/'), Text.LastIndexOf(fileName, '\\'));
    if i > p then fileName[i + 1..] else ""
  }

  function Max(a: int, b: int): int
  {
    if a < b then b else a
  }

  /** A name that ends in '.' and a plain extension has that extension, whatever comes before. */
  lemma ExtensionOfDotted(stem: string, extension: string)
    requires Plain(extension)
    ensures ExtensionText(stem + "." + extension) == extension
  {
    var name := stem + "." + extension;
    var k := |stem|;
    assert name[k] == '.';
    assert forall j :: k < j < |name| ==> name[j] == extension[j - k - 1];
    assert Text.LastIndexOf(name, '.') == k;
    assert name[k + 1..] == extension;
  }

  /** A dot inside a directory name gives no extension. */
  lemma DottedDirectoryHasNoExtension()
    ensures ExtensionText("/path/to.a/file") == ""
  {
    var name := "/path/to.a/file";
    assert name[10] == '/';
    assert Text.LastIndexOf(name, '/') == 10;
  }

  /**
   * `getFileExtension`: the Content-Type for a requested name, "text/html"
   * for html, the extension itself for gif, jpg and png, "" otherwise.
   */
  function GetFileExtension(fileName: string): (contentType: string)
    ensures contentType in {TEXT_HTML, "gif", "jpg", "png", ""}
  {
    var extension := ExtensionText(fileName);
    match FileTypes.Convert(extension)
    case HTML => TEXT_HTML
    case GIF => extension
    case JPEG => extension
    case PNG => extension
    case NONE => ""
  }

  /** The content type is chosen by the extension through the FileType table. */
  lemma FileExtensionTable(fileName: string)
    ensures var extension := ExtensionText(fileName);
      GetFileExtension(fileName) ==
        if extension == "html" then TEXT_HTML
        else if extension in {"gif", "jpg", "png"} then extension
        else ""
  {
    FileTypes.ConvertRecognises(ExtensionText(fileName));
  }

  /** No content type holds a carriage return, so the Content-Type line stays one line. */
  lemma ContentTypeHasNoCR(fileName: string)
    ensures '\r' !in GetFileExtension(fileName)
  {
    FileExtensionTable(fileName);
    var extension := ExtensionText(fileName);
    if extension == "html" {
      assert TEXT_HTML == "text/html";
    } else if extension in {"gif", "jpg", "png"} {
      assert extension == "gif" || extension == "jpg" || extension == "png";
    }
  }

  /** The page `respondNotFound` sends; it names the resource that was asked for. */
  function NotFoundPage(resourceName: string): (page: string)
    ensures Text.Contains(page, "The requested URL " + resourceName)
  {
    var before := DOCTYPE + "<head><title>" + NOT_FOUND + "</title></head>" + "<body><h1>" + NOT_FOUND + "</h1><p>";
    var named := "The requested URL " + resourceName;
    var after := " was not found on this server.</p></body>" + "</html>";
    Text.ContainsSpliced(before, named, after);
    before + named + after
  }

  /** The page `respondOPTIONS` sends. */
  const OptionsPage := DOCTYPE
    + "<head><title> Server-Supported HTTP Methods</title></head>"
    + "<body><h1>HTTP methods which the server serves</h1><p>HEAD</p><p>GET</p><p>DELETE</p><p>OPTIONS</p></body>"
    + "</html>"

  /** What `respondNotFound` sends for a name. */
  function NotFoundReply(resourceName: string): Reply
  {
    var page := NotFoundPage(resourceName);
    Reply([GetHeader(NOT_FOUND, GetFileExtension(resourceName), Text.Utf16Length(page)), page], [])
  }

  /** What `respondHEAD` sends: the header GET would send, or the 404 reply. */
  function HeadReply(documentRoot: string, files: Files, resourceName: string): Reply
  {
    var key := documentRoot + resourceName;
    if key in files then Reply([GetHeader(OK, GetFileExtension(resourceName), |files[key]|)], [])
    else NotFoundReply(resourceName)
  }

  /** What `respondGET` sends: the header and the file's bytes, or the 404 reply. */
  function GetReply(documentRoot: string, files: Files, resourceName: string): Reply
  {
    var key := documentRoot + resourceName;
    if key in files then Reply([GetHeader(OK, GetFileExtension(resourceName), |files[key]|)], files[key])
    else NotFoundReply(resourceName)
  }

  /** What `respondDELETE` sends: a header with length 0, or the 404 reply. */
  function DeleteReply(documentRoot: string, files: Files, resourceName: string): Reply
  {
    var key := documentRoot + resourceName;
    if key in files then Reply([GetHeader(OK, GetFileExtension(resourceName), 0)], [])
    else NotFoundReply(resourceName)
  }

  /** The files after `respondDELETE`: the file is gone when it existed and the system agreed to delete it. */
  function AfterDelete(documentRoot: string, files: Files, resourceName: string, osDeletes: bool): Files
  {
    var key := documentRoot + resourceName;
    if key in files && osDeletes then files - {key} else files
  }

  /** What `respondOPTIONS` sends. */
  function OptionsReply(): Reply
  {
    Reply([GetHeader(OK, TEXT_HTML, Text.Utf16Length(OptionsPage)), OptionsPage], [])
  }

  /** What `respondNotImplemented` sends: a bare 501 header. */
  function NotImplementedReply(): Reply
  {
    Reply([GetHeader(NOT_IMPLEMENTED, TEXT_HTML, 0)], [])
  }

  /** A handled request: what was sent, and the files afterwards. */
  datatype Outcome = Outcome(reply: Reply, files: Files)

  /**
   * `processRequest`: split the line on whitespace, convert the first token
   * and dispatch; HEAD, GET and DELETE read the second token, which throws
   * when there is none.
   */
  function Dispatch(documentRoot: string, files: Files, request: string, osDeletes: bool): (r: Result<Outcome>)
    ensures var tokens := JavaSplit.Split(request);
      r.Throws? <==> tokens == [] || (|tokens| == 1 && tokens[0] in {"GET", "HEAD", "DELETE"})
    ensures r.Throws? ==> r.exception == ArrayIndexOutOfBounds(|JavaSplit.Split(request)|, |JavaSplit.Split(request)|)
  {
    var requestHeader := JavaSplit.Split(request);
    if |requestHeader| == 0 then Throws(ArrayIndexOutOfBounds(0, 0))
    else
      RequestCodes.ConvertRecognises(requestHeader[0]);
      match RequestCodes.Convert(requestHeader[0])
      case HEAD =>
        if |requestHeader| < 2 then Throws(ArrayIndexOutOfBounds(1, |requestHeader|))
        else Ok(Outcome(HeadReply(documentRoot, files, requestHeader[1]), files))
      case GET =>
        if |requestHeader| < 2 then Throws(ArrayIndexOutOfBounds(1, |requestHeader|))
        else Ok(Outcome(GetReply(documentRoot, files, requestHeader[1]), files))
      case DELETE =>
        if |requestHeader| < 2 then Throws(ArrayIndexOutOfBounds(1, |requestHeader|))
        else
          var name := requestHeader[1];
          Ok(Outcome(DeleteReply(documentRoot, files, name), AfterDelete(documentRoot, files, name, osDeletes)))
      case NONE => Ok(Outcome(NotImplementedReply(), files))
  }

  /**
   * GET of an existing file, whatever follows the target: 200, its content
   * type and length, then exactly its bytes; nothing changes.
   */
  lemma GetServesFile(documentRoot: string, files: Files, request: string, osDeletes: bool)
    requires Asks(request, "GET") && documentRoot + TargetOf(request) in files
    ensures var data := files[documentRoot + TargetOf(request)];
      var r := Dispatch(documentRoot, files, request, osDeletes);
      && r.Ok?
      && r.value.files == files
      && |r.value.reply.lines| == 1
      && Headers.Parse(r.value.reply.lines[0])
         == Some(Headers.HeaderFields(OK, Some(GetFileExtension(TargetOf(request))), |data|))
      && r.value.reply.body == data
  {
    var name := TargetOf(request);
    RequestCodes.ConvertRecognises("GET");
    assert Dispatch(documentRoot, files, request, osDeletes) == Ok(Outcome(GetReply(documentRoot, files, name), files));
    StatusesHaveNoCR();
    ContentTypeHasNoCR(name);
    GetHeaderRoundTrip(OK, GetFileExtension(name), |files[documentRoot + name]|);
  }

  /** HEAD sends exactly the header GET sends for the same target, and no body. */
  lemma HeadIsGetWithoutBody(documentRoot: string, files: Files, head: string, get: string, osDeletes: bool)
    requires Asks(head, "HEAD") && Asks(get, "GET") && TargetOf(head) == TargetOf(get)
    ensures var h := Dispatch(documentRoot, files, head, osDeletes);
      var g := Dispatch(documentRoot, files, get, osDeletes);
      && h.Ok? && g.Ok?
      && h.value.reply.lines == g.value.reply.lines
      && h.value.reply.body == []
      && h.value.files == files
  {
    RequestCodes.ConvertRecognises("GET");
    RequestCodes.ConvertRecognises("HEAD");
    var name := TargetOf(get);
    assert Dispatch(documentRoot, files, get, osDeletes) == Ok(Outcome(GetReply(documentRoot, files, name), files));
    assert Dispatch(documentRoot, files, head, osDeletes) == Ok(Outcome(HeadReply(documentRoot, files, name), files));
  }

  /**
   * `respondDELETE` on an existing file: 200 with length 0 and no body; the
   * file is gone exactly when the system deleted it, and every other file is kept.
   */
  lemma DeleteOfExisting(documentRoot: string, files: Files, name: string, osDeletes: bool)
    requires documentRoot + name in files
    ensures |DeleteReply(documentRoot, files, name).lines| == 1
    ensures Headers.Parse(DeleteReply(documentRoot, files, name).lines[0])
         == Some(Headers.HeaderFields(OK, Some(GetFileExtension(name)), 0))
    ensures DeleteReply(documentRoot, files, name).body == []
    ensures documentRoot + name in AfterDelete(documentRoot, files, name, osDeletes) <==> !osDeletes
    ensures forall other :: other != documentRoot + name ==>
      (other in AfterDelete(documentRoot, files, name, osDeletes) <==> other in files)
    ensures forall other :: other in AfterDelete(documentRoot, files, name, osDeletes) ==>
      AfterDelete(documentRoot, files, name, osDeletes)[other] == files[other]
  {
    assert DeleteReply(documentRoot, files, name) == Reply([GetHeader(OK, GetFileExtension(name), 0)], []);
    StatusesHaveNoCR();
    ContentTypeHasNoCR(name);
    GetHeaderRoundTrip(OK, GetFileExtension(name), 0);
  }

  /**
   * DELETE of an existing file, whatever follows the target: 200 with length
   * 0 and no body; the file is gone exactly when the system deleted it, and
   * every other file is kept.
   */
  lemma DeleteRemovesFile(documentRoot: string, files: Files, request: string, osDeletes: bool)
    requires Asks(request, "DELETE") && documentRoot + TargetOf(request) in files
    ensures var key := documentRoot + TargetOf(request);
      var r := Dispatch(documentRoot, files, request, osDeletes);
      && r.Ok?
      && |r.value.reply.lines| == 1
      && Headers.Parse(r.value.reply.lines[0])
         == Some(Headers.HeaderFields(OK, Some(GetFileExtension(TargetOf(request))), 0))
      && r.value.reply.body == []
      && (key in r.value.files <==> !osDeletes)
      && (forall other :: other != key ==> (other in r.value.files <==> other in files))
      && (forall other :: other in r.value.files ==> r.value.files[other] == files[other])
  {
    var name := TargetOf(request);
    RequestCodes.ConvertRecognises("DELETE");
    assert Dispatch(documentRoot, files, request, osDeletes)
        == Ok(Outcome(DeleteReply(documentRoot, files, name), AfterDelete(documentRoot, files, name, osDeletes)));
    DeleteOfExisting(documentRoot, files, name, osDeletes);
  }

  /** A reply of a header and a page: a client reads the status, the type and the page's UTF-16 length, then the page. */
  lemma PageReplyReadable(responseCode: string, contentType: string, page: string)
    requires '\r' !in responseCode && '\r' !in contentType
    ensures var reply := Reply([GetHeader(responseCode, contentType, Text.Utf16Length(page)), page], []);
      && |reply.lines| == 2
      && reply.lines[1] == page
      && Headers.Parse(reply.lines[0])
         == Some(Headers.HeaderFields(responseCode, Some(contentType), Text.Utf16Length(page)))
      && reply.body == []
  {
    GetHeaderRoundTrip(responseCode, contentType, Text.Utf16Length(page));
  }

  /**
   * The 404 reply: a header carrying the content type of the name and the
   * page's length as Java measures it, then the page.
   */
  lemma NotFoundReplyReadable(name: string)
    ensures |NotFoundReply(name).lines| == 2
    ensures NotFoundReply(name).lines[1] == NotFoundPage(name)
    ensures Headers.Parse(NotFoundReply(name).lines[0])
         == Some(Headers.HeaderFields(NOT_FOUND, Some(GetFileExtension(name)), Text.Utf16Length(NotFoundPage(name))))
    ensures NotFoundReply(name).body == []
  {
    var page := NotFoundPage(name);
    assert NotFoundReply(name) == Reply([GetHeader(NOT_FOUND, GetFileExtension(name), Text.Utf16Length(page)), page], []);
    StatusesHaveNoCR();
    ContentTypeHasNoCR(name);
    PageReplyReadable(NOT_FOUND, GetFileExtension(name), page);
  }

  /** HEAD, GET or DELETE of a missing file is answered with the 404 reply; nothing changes. */
  lemma MissingFileNotFound(documentRoot: string, files: Files, request: string, osDeletes: bool)
    requires Asks(request, "GET") || Asks(request, "HEAD") || Asks(request, "DELETE")
    requires documentRoot + TargetOf(request) !in files
    ensures Dispatch(documentRoot, files, request, osDeletes) == Ok(Outcome(NotFoundReply(TargetOf(request)), files))
  {
    RequestCodes.ConvertRecognises(JavaSplit.Split(request)[0]);
  }

  /** A first token other than GET, HEAD and DELETE gets a bare 501 header; nothing changes. */
  lemma UnknownMethodNotImplemented(documentRoot: string, files: Files, request: string, osDeletes: bool)
    requires |JavaSplit.Split(request)| > 0 && JavaSplit.Split(request)[0] !in {"GET", "HEAD", "DELETE"}
    ensures var r := Dispatch(documentRoot, files, request, osDeletes);
      && r.Ok?
      && r.value.files == files
      && |r.value.reply.lines| == 1
      && Headers.Parse(r.value.reply.lines[0]) == Some(Headers.HeaderFields(NOT_IMPLEMENTED, Some(TEXT_HTML), 0))
      && r.value.reply.body == []
  {
    RequestCodes.ConvertRecognises(JavaSplit.Split(request)[0]);
    GetHeaderRoundTrip(NOT_IMPLEMENTED, TEXT_HTML, 0);
  }

  /**
   * An empty line, or one that starts with whitespace, has "" as its first
   * token and so is answered 501, even when a valid request follows.
   */
  lemma LeadingSpaceNotImplemented(documentRoot: string, files: Files, request: string, osDeletes: bool)
    requires request == "" || (JavaSplit.IsSpace(request[0]) && !JavaSplit.AllSpace(request))
    ensures Dispatch(documentRoot, files, request, osDeletes) == Ok(Outcome(NotImplementedReply(), files))
  {
    JavaSplit.SplitIsWords(request);
    RequestCodes.ConvertRecognises("");
  }

  /** Only the first two tokens are read: lines that agree on them are answered alike. */
  lemma TrailingTokensIgnored(documentRoot: string, files: Files, request: string, other: string, osDeletes: bool)
    requires |JavaSplit.Split(request)| >= 2 && |JavaSplit.Split(other)| >= 2
    requires JavaSplit.Split(request)[..2] == JavaSplit.Split(other)[..2]
    ensures Dispatch(documentRoot, files, request, osDeletes) == Dispatch(documentRoot, files, other, osDeletes)
  {
    var tokens, others := JavaSplit.Split(request), JavaSplit.Split(other);
    assert tokens[0] == tokens[..2][0] == others[0];
    assert tokens[1] == tokens[..2][1] == others[1];
  }

  /** "VERB target HTTP/1.1" is answered as "VERB target": the protocol version is ignored. */
  lemma VersionIgnored(documentRoot: string, files: Files, verb: string, name: string, version: string, osDeletes: bool)
    requires Target(verb) && Target(name) && Target(version)
    ensures Dispatch(documentRoot, files, verb + " " + name + " " + version, osDeletes)
         == Dispatch(documentRoot, files, verb + " " + name, osDeletes)
  {
    var line, bare := verb + " " + name + " " + version, verb + " " + name;
    assert line == verb + " " + name + (" " + version);
    assert bare == verb + " " + name + "";
    RequestLineAsks(verb, name, " " + version);
    RequestLineAsks(verb, name, "");
    JavaSplit.SplitTwoTokens(verb, name);
    TrailingTokensIgnored(documentRoot, files, line, bare, osDeletes);
  }

  /** A line of whitespace only splits into no tokens, and reading the method throws. */
  lemma BlankLineThrows(documentRoot: string, files: Files, request: string, osDeletes: bool)
    requires request != "" && JavaSplit.AllSpace(request)
    ensures Dispatch(documentRoot, files, request, osDeletes) == Throws(ArrayIndexOutOfBounds(0, 0))
  {
    JavaSplit.SplitIsWords(request);
  }

  /**
   * HEAD, GET or DELETE with no target, bare or followed by blanks only,
   * throws when the target is read.
   */
  lemma MissingTargetThrows(documentRoot: string, files: Files, verb: string, blanks: string, osDeletes: bool)
    requires verb in {"GET", "HEAD", "DELETE"} && JavaSplit.AllSpace(blanks)
    ensures Dispatch(documentRoot, files, verb + blanks, osDeletes) == Throws(ArrayIndexOutOfBounds(1, 1))
  {
    JavaSplit.SplitTokenThenBlanks(verb, blanks);
  }

  /**
   * Whatever the request, files are only ever removed, never added or
   * altered, and only a DELETE removes one.
   */
  lemma OnlyDeleteRemoves(documentRoot: string, files: Files, request: string, osDeletes: bool)
    ensures var r := Dispatch(documentRoot, files, request, osDeletes);
      r.Ok? ==>
        && r.value.files.Keys <= files.Keys
        && (forall key :: key in r.value.files ==> r.value.files[key] == files[key])
        && (r.value.files != files ==> JavaSplit.Split(request)[0] == "DELETE")
  {
    var tokens := JavaSplit.Split(request);
    if |tokens| > 0 {
      RequestCodes.ConvertRecognises(tokens[0]);
    }
  }

  class Responder {
    const documentRoot: string
    /** The platform line separator that `println` appends. */
    const newline: string
    var files: Files
    /** Everything written to the connection's socket so far. */
    var sent: seq<Chunk>

    constructor (documentRoot: string, files: Files, newline: string)
      ensures this.documentRoot == documentRoot && this.files == files && this.newline == newline
      ensures sent == []
    {
      this.documentRoot := documentRoot;
      this.files := files;
      this.newline := newline;
      sent := [];
    }

    /** `print_writer.println(line)`. */
    method Println(line: string)
      modifies this`sent
      ensures Transmits(old(sent), sent, Reply([line], []), newline)
    {
      sent := sent + [Text(line + newline)];
    }

    /**
     * `sendResource`: copy the file to the socket in chunks; a file that
     * cannot be opened is only logged.
     */
    method SendResource(resourcePath: string)
      modifies this`sent
      ensures resourcePath in files ==> Transmits(old(sent), sent, Reply([], files[resourcePath]), newline)
      ensures resourcePath !in files ==> sent == old(sent)
    {
      if resourcePath in files {
        var writes := CopyInChunks(files[resourcePath]);
        sent := sent + writes;
        assert sent[|old(sent)|..] == writes;
      }
    }

    method RespondHead(resourceName: string)
      modifies this`sent
      ensures Transmits(old(sent), sent, HeadReply(documentRoot, files, resourceName), newline)
    {
      var key := documentRoot + resourceName;
      if key in files {
        Println(GetHeader(OK, GetFileExtension(resourceName), |files[key]|));
      } else {
        RespondNotFound(resourceName);
      }
    }

    method RespondGet(resourceName: string)
      modifies this`sent
      ensures Transmits(old(sent), sent, GetReply(documentRoot, files, resourceName), newline)
    {
      var key := documentRoot + resourceName;
      if key in files {
        ghost var before := sent;
        Println(GetHeader(OK, GetFileExtension(resourceName), |files[key]|));
        ghost var middle := sent;
        SendResource(key);
        TransmitsThen(before, middle, sent, [GetHeader(OK, GetFileExtension(resourceName), |files[key]|)], files[key], newline);
      } else {
        RespondNotFound(resourceName);
      }
    }

    /** `respondDELETE`; `osDeletes` is the answer of `File.delete()`. */
    method RespondDelete(resourceName: string, osDeletes: bool)
      modifies this`sent, this`files
      ensures Transmits(old(sent), sent, DeleteReply(documentRoot, old(files), resourceName), newline)
      ensures files == AfterDelete(documentRoot, old(files), resourceName, osDeletes)
    {
      var key := documentRoot + resourceName;
      if key in files {
        ghost var reply := DeleteReply(documentRoot, files, resourceName);
        Println(GetHeader(OK, GetFileExtension(resourceName), 0));
        assert Transmits(old(sent), sent, reply, newline);
        if osDeletes {
          files := files - {key};
        }
      } else {
        RespondNotFound(resourceName);
      }
    }

    method RespondOptions()
      modifies this`sent
      ensures Transmits(old(sent), sent, OptionsReply(), newline)
    {
      ghost var before := sent;
      Println(GetHeader(OK, TEXT_HTML, Text.Utf16Length(OptionsPage)));
      ghost var middle := sent;
      Println(OptionsPage);
      TransmitsMore(before, middle, sent, [GetHeader(OK, TEXT_HTML, Text.Utf16Length(OptionsPage))], [OptionsPage], newline);
    }

    method RespondNotFound(resourceName: string)
      modifies this`sent
      ensures Transmits(old(sent), sent, NotFoundReply(resourceName), newline)
    {
      var page := NotFoundPage(resourceName);
      ghost var before := sent;
      Println(GetHeader(NOT_FOUND, GetFileExtension(resourceName), Text.Utf16Length(page)));
      ghost var middle := sent;
      Println(page);
      TransmitsMore(before, middle, sent, [GetHeader(NOT_FOUND, GetFileExtension(resourceName), Text.Utf16Length(page))], [page], newline);
    }

    /** `respondNotImplemented`: the unrecognised code only goes to the log. */
    method RespondNotImplemented(unrecognisedCode: string)
      modifies this`sent
      ensures Transmits(old(sent), sent, NotImplementedReply(), newline)
    {
      Println(GetHeader(NOT_IMPLEMENTED, TEXT_HTML, 0));
    }

    /**
     * `processRequest`: answers one request line. An exception leaves the
     * socket and the files as they were.
     */
    method ProcessRequest(request: string, osDeletes: bool) returns (thrown: Option<Exception>)
      modifies this`sent, this`files
      ensures match Dispatch(documentRoot, old(files), request, osDeletes)
        case Throws(e) => thrown == Some(e) && sent == old(sent) && files == old(files)
        case Ok(o) => thrown == None && files == o.files && Transmits(old(sent), sent, o.reply, newline)
    {
      thrown := None;
      var requestHeader := JavaSplit.Split(request);
      if |requestHeader| == 0 {
        return Some(ArrayIndexOutOfBounds(0, 0));
      }
      var requestCode := requestHeader[0];
      match RequestCodes.Convert(requestCode)
      case HEAD =>
        if |requestHeader| < 2 {
          return Some(ArrayIndexOutOfBounds(1, |requestHeader|));
        }
        RespondHead(requestHeader[1]);
      case GET =>
        if |requestHeader| < 2 {
          return Some(ArrayIndexOutOfBounds(1, |requestHeader|));
        }
        RespondGet(requestHeader[1]);
      case DELETE =>
        if |requestHeader| < 2 {
          return Some(ArrayIndexOutOfBounds(1, |requestHeader|));
        }
        RespondDelete(requestHeader[1], osDeletes);
      case NONE =>
        RespondNotImplemented(requestCode);
    }
  }
}

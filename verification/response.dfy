/**
 * The earlier request handler (Response.java): same request line and
 * socket trace as the extended one, but the header leaves out an empty
 * Content-Type, HEAD never looks at the files, GET always labels the body
 * "TEXT_HTML", DELETE only answers, and the 404 and 501 replies carry a
 * page built by `getHTMLPage`.
 */
module Response {
  import opened Results
  import opened Transfer
  import Text
  import Headers
  import RequestCodes
  import ResponseCodes
  import JavaSplit
  import opened Http

  const CR_LF := Headers.CRLF
  /** The two content types of this version: ContentType.TEXT_HTML and ContentType.NONE. */
  const TEXT_HTML := "TEXT_HTML"
  const NO_TYPE := ""

  /** `getHeader`: the Content-Type line is written only for a non-empty content type. */
  function GetHeader(responseCode: string, contentType: string, resourceLength: nat): string
  {
    var status := "HTTP/1.1 " + responseCode + CR_LF;
    var typed := if |contentType| > 0 then status + "Content-Type: " + contentType + CR_LF else status;
    typed + "Content-Length: " + Text.Decimal(resourceLength) + CR_LF
  }

  /**
   * A client reading the header gets back the status and length, and a
   * content type exactly when a non-empty one was given.
   */
  lemma GetHeaderRoundTrip(responseCode: string, contentType: string, resourceLength: nat)
    requires '\r' !in responseCode && '\r' !in contentType
    ensures Headers.Parse(GetHeader(responseCode, contentType, resourceLength))
         == Some(Headers.HeaderFields(responseCode, if contentType == "" then None else Some(contentType), resourceLength))
  {
    if contentType == "" {
      Headers.ParseWithoutType(responseCode, resourceLength);
    } else {
      Headers.ParseWithType(responseCode, contentType, resourceLength);
    }
  }

  /**
   * `getHTMLPage`: the page for a status; 404 names the URL, 501 names the
   * request code, 200 gets a page with an empty paragraph, and any other
   * status fails in `ResponseCode.convert`.
   */
  function GetHTMLPage(respondCode: string, name: string): (page: Result<string>)
    ensures page.Ok? <==> respondCode in {OK, NOT_FOUND, NOT_IMPLEMENTED}
    ensures page.Throws? ==> page.exception == RuntimeException(ResponseCodes.NotFoundMessage)
  {
    ResponseCodes.ConvertSucceedsIff(respondCode);
    var head := DOCTYPE + "<head><title>" + respondCode + "</title></head><body><h1>" + respondCode + "</h1>";
    match ResponseCodes.Convert(respondCode)
    case Throws(e) => Throws(e)
    case Ok(code) =>
      match code
      case NOT_FOUND => Ok(head + "<p>The requested URL " + name + " was not found on this server.</p></body></html>")
      case NOT_IMPLEMENTED => Ok(head + "<p>The request code " + name + " was not found on this server.</p></body></html>")
      case WORKING_OKAY => Ok(head + "<p></p></body></html>")
  }

  /** The 404 page names the requested URL. */
  lemma NotFoundPageNamesResource(name: string)
    ensures GetHTMLPage(NOT_FOUND, name).Ok?
    ensures Text.Contains(GetHTMLPage(NOT_FOUND, name).value, "The requested URL " + name)
  {
    ResponseCodes.ConvertRoundTrip(ResponseCodes.NOT_FOUND);
    var head := DOCTYPE + "<head><title>" + NOT_FOUND + "</title></head><body><h1>" + NOT_FOUND + "</h1>";
    var part := "The requested URL " + name;
    var tail := " was not found on this server.</p></body></html>";
    assert GetHTMLPage(NOT_FOUND, name).value == (head + "<p>") + part + tail;
    Text.ContainsSpliced(head + "<p>", part, tail);
  }

  /** The 501 page names the request code it was given. */
  lemma NotImplementedPageNamesCode(name: string)
    ensures GetHTMLPage(NOT_IMPLEMENTED, name).Ok?
    ensures Text.Contains(GetHTMLPage(NOT_IMPLEMENTED, name).value, "The request code " + name)
  {
    ResponseCodes.ConvertRoundTrip(ResponseCodes.NOT_IMPLEMENTED);
    var head := DOCTYPE + "<head><title>" + NOT_IMPLEMENTED + "</title></head><body><h1>" + NOT_IMPLEMENTED + "</h1>";
    var part := "The request code " + name;
    var tail := " was not found on this server.</p></body></html>";
    assert GetHTMLPage(NOT_IMPLEMENTED, name).value == (head + "<p>") + part + tail;
    Text.ContainsSpliced(head + "<p>", part, tail);
  }

  /** The 200 page is the generic one: it does not depend on the name. */
  lemma OkPageIsGeneric(name: string, other: string)
    ensures GetHTMLPage(OK, name).Ok?
    ensures GetHTMLPage(OK, name) == GetHTMLPage(OK, other)
  {
    ResponseCodes.ConvertRoundTrip(ResponseCodes.WORKING_OKAY);
  }

  /** A status outside the table fails, whatever its likeness to one inside it. */
  lemma UnknownStatusThrows(name: string)
    ensures GetHTMLPage("200", name) == Throws(RuntimeException(ResponseCodes.NotFoundMessage))
    ensures GetHTMLPage("404 not found", name) == Throws(RuntimeException(ResponseCodes.NotFoundMessage))
  {
  }

  /** What `respondHEAD` sends: 200, no content type, length 0, whatever was asked for. */
  function HeadReply(): Reply
  {
    Reply([GetHeader(OK, NO_TYPE, 0)], [])
  }

  /** What `sendNotFound` sends: a header with the page's length in UTF-16 units, then the 404 page. */
  function NotFoundReply(resourceName: string): Reply
  {
    var page := GetHTMLPage(NOT_FOUND, resourceName).value;
    Reply([GetHeader(NOT_FOUND, TEXT_HTML, Text.Utf16Length(page)), page], [])
  }

  /** What `sendNotImplemented` sends: a header with the page's length in UTF-16 units, then the 501 page. */
  function NotImplementedReply(code: string): Reply
  {
    var page := GetHTMLPage(NOT_IMPLEMENTED, code).value;
    Reply([GetHeader(NOT_IMPLEMENTED, TEXT_HTML, Text.Utf16Length(page)), page], [])
  }

  /** What `respondGET` sends: header labelled TEXT_HTML and the file's bytes, or the 404 reply. */
  function GetReply(documentRoot: string, files: Files, resourceName: string): Reply
  {
    var key := documentRoot + resourceName;
    if key in files then Reply([GetHeader(OK, TEXT_HTML, |files[key]|)], files[key])
    else NotFoundReply(resourceName)
  }

  /** What `respondDELETE` sends: a bare 200 header when the file exists, or the 404 reply. */
  function DeleteReply(documentRoot: string, files: Files, resourceName: string): Reply
  {
    var key := documentRoot + resourceName;
    if key in files then Reply([GetHeader(OK, NO_TYPE, 0)], [])
    else NotFoundReply(resourceName)
  }

  /**
   * `processRequest`: HEAD ignores the rest of the line; GET and DELETE read
   * the second token, which throws when there is none.
   */
  function Dispatch(documentRoot: string, files: Files, request: string): (r: Result<Reply>)
    ensures var tokens := JavaSplit.Split(request);
      r.Throws? <==> tokens == [] || (|tokens| == 1 && tokens[0] in {"GET", "DELETE"})
    ensures r.Throws? ==> r.exception == ArrayIndexOutOfBounds(|JavaSplit.Split(request)|, |JavaSplit.Split(request)|)
  {
    var requestHeader := JavaSplit.Split(request);
    if |requestHeader| == 0 then Throws(ArrayIndexOutOfBounds(0, 0))
    else
      RequestCodes.ConvertRecognises(requestHeader[0]);
      match RequestCodes.Convert(requestHeader[0])
      case HEAD => Ok(HeadReply())
      case GET =>
        if |requestHeader| < 2 then Throws(ArrayIndexOutOfBounds(1, |requestHeader|))
        else Ok(GetReply(documentRoot, files, requestHeader[1]))
      case DELETE =>
        if |requestHeader| < 2 then Throws(ArrayIndexOutOfBounds(1, |requestHeader|))
        else Ok(DeleteReply(documentRoot, files, requestHeader[1]))
      case NONE => Ok(NotImplementedReply(requestHeader[0]))
  }

  /** HEAD is answered 200 with no Content-Type line, length 0 and no body, whether or not anything exists. */
  lemma HeadAlwaysOk(documentRoot: string, files: Files, request: string)
    requires |JavaSplit.Split(request)| > 0 && JavaSplit.Split(request)[0] == "HEAD"
    ensures var r := Dispatch(documentRoot, files, request);
      && r.Ok?
      && |r.value.lines| == 1
      && Headers.Parse(r.value.lines[0]) == Some(Headers.HeaderFields(OK, None, 0))
      && r.value.body == []
  {
    RequestCodes.ConvertRecognises("HEAD");
    StatusesHaveNoCR();
    GetHeaderRoundTrip(OK, NO_TYPE, 0);
  }

  /** HEAD alone, or followed by blanks only, does not throw: the target is never read. */
  lemma HeadNeedsNoTarget(documentRoot: string, files: Files, blanks: string)
    requires JavaSplit.AllSpace(blanks)
    ensures Dispatch(documentRoot, files, "HEAD" + blanks) == Ok(HeadReply())
  {
    JavaSplit.SplitTokenThenBlanks("HEAD", blanks);
    RequestCodes.ConvertRecognises("HEAD");
  }

  /**
   * GET of an existing file, whatever follows the target: 200 labelled
   * TEXT_HTML whatever the file, its length, then exactly its bytes.
   */
  lemma GetServesFile(documentRoot: string, files: Files, request: string)
    requires Asks(request, "GET") && documentRoot + TargetOf(request) in files
    ensures var data := files[documentRoot + TargetOf(request)];
      var r := Dispatch(documentRoot, files, request);
      && r.Ok?
      && |r.value.lines| == 1
      && Headers.Parse(r.value.lines[0]) == Some(Headers.HeaderFields(OK, Some(TEXT_HTML), |data|))
      && r.value.body == data
  {
    var name := TargetOf(request);
    RequestCodes.ConvertRecognises("GET");
    assert Dispatch(documentRoot, files, request) == Ok(GetReply(documentRoot, files, name));
    StatusesHaveNoCR();
    GetHeaderRoundTrip(OK, TEXT_HTML, |files[documentRoot + name]|);
  }

  /**
   * DELETE of an existing file, whatever follows the target: a bare 200
   * header with length 0 and no body (the files stay as they are).
   */
  lemma DeleteOnlyAnswers(documentRoot: string, files: Files, request: string)
    requires Asks(request, "DELETE") && documentRoot + TargetOf(request) in files
    ensures var r := Dispatch(documentRoot, files, request);
      && r.Ok?
      && |r.value.lines| == 1
      && Headers.Parse(r.value.lines[0]) == Some(Headers.HeaderFields(OK, None, 0))
      && r.value.body == []
  {
    var name := TargetOf(request);
    RequestCodes.ConvertRecognises("DELETE");
    assert Dispatch(documentRoot, files, request) == Ok(DeleteReply(documentRoot, files, name));
    StatusesHaveNoCR();
    GetHeaderRoundTrip(OK, NO_TYPE, 0);
  }

  /** The 404 reply: a TEXT_HTML header carrying the page's length as Java measures it, then the page. */
  lemma NotFoundReplyReadable(name: string)
    ensures |NotFoundReply(name).lines| == 2
    ensures NotFoundReply(name).lines[1] == GetHTMLPage(NOT_FOUND, name).value
    ensures Headers.Parse(NotFoundReply(name).lines[0])
         == Some(Headers.HeaderFields(NOT_FOUND, Some(TEXT_HTML), Text.Utf16Length(GetHTMLPage(NOT_FOUND, name).value)))
    ensures NotFoundReply(name).body == []
  {
    var page := GetHTMLPage(NOT_FOUND, name).value;
    assert NotFoundReply(name) == Reply([GetHeader(NOT_FOUND, TEXT_HTML, Text.Utf16Length(page)), page], []);
    StatusesHaveNoCR();
    GetHeaderRoundTrip(NOT_FOUND, TEXT_HTML, Text.Utf16Length(page));
  }

  /** GET or DELETE of a missing file, whatever follows the target, is answered with the 404 reply. */
  lemma MissingFileNotFound(documentRoot: string, files: Files, request: string)
    requires Asks(request, "GET") || Asks(request, "DELETE")
    requires documentRoot + TargetOf(request) !in files
    ensures Dispatch(documentRoot, files, request) == Ok(NotFoundReply(TargetOf(request)))
  {
    RequestCodes.ConvertRecognises(JavaSplit.Split(request)[0]);
  }

  /** The 501 reply: a TEXT_HTML header carrying the page's length as Java measures it, then the page naming the code. */
  lemma NotImplementedReplyReadable(code: string)
    ensures |NotImplementedReply(code).lines| == 2
    ensures NotImplementedReply(code).lines[1] == GetHTMLPage(NOT_IMPLEMENTED, code).value
    ensures Headers.Parse(NotImplementedReply(code).lines[0])
         == Some(Headers.HeaderFields(NOT_IMPLEMENTED, Some(TEXT_HTML), Text.Utf16Length(GetHTMLPage(NOT_IMPLEMENTED, code).value)))
    ensures NotImplementedReply(code).body == []
  {
    var page := GetHTMLPage(NOT_IMPLEMENTED, code).value;
    assert NotImplementedReply(code) == Reply([GetHeader(NOT_IMPLEMENTED, TEXT_HTML, Text.Utf16Length(page)), page], []);
    StatusesHaveNoCR();
    GetHeaderRoundTrip(NOT_IMPLEMENTED, TEXT_HTML, Text.Utf16Length(page));
  }

  /** A first token other than GET, HEAD and DELETE, OPTIONS among them, gets the 501 reply naming it. */
  lemma UnknownMethodNotImplemented(documentRoot: string, files: Files, request: string)
    requires |JavaSplit.Split(request)| > 0 && JavaSplit.Split(request)[0] !in {"GET", "HEAD", "DELETE"}
    ensures Dispatch(documentRoot, files, request) == Ok(NotImplementedReply(JavaSplit.Split(request)[0]))
  {
    RequestCodes.ConvertRecognises(JavaSplit.Split(request)[0]);
  }

  /** OPTIONS is not a request code of this version, so it is answered 501, with or without a target. */
  lemma OptionsNotImplemented(documentRoot: string, files: Files, request: string)
    requires |JavaSplit.Split(request)| > 0 && JavaSplit.Split(request)[0] == "OPTIONS"
    ensures Dispatch(documentRoot, files, request) == Ok(NotImplementedReply("OPTIONS"))
  {
    RequestCodes.ConvertRecognises("OPTIONS");
  }

  /** GET or DELETE with no target, bare or followed by blanks only, throws when the target is read. */
  lemma MissingTargetThrows(documentRoot: string, files: Files, verb: string, blanks: string)
    requires verb in {"GET", "DELETE"} && JavaSplit.AllSpace(blanks)
    ensures Dispatch(documentRoot, files, verb + blanks) == Throws(ArrayIndexOutOfBounds(1, 1))
  {
    JavaSplit.SplitTokenThenBlanks(verb, blanks);
  }

  /** Only the first two tokens are read: lines that agree on them are answered alike. */
  lemma TrailingTokensIgnored(documentRoot: string, files: Files, request: string, other: string)
    requires |JavaSplit.Split(request)| >= 2 && |JavaSplit.Split(other)| >= 2
    requires JavaSplit.Split(request)[..2] == JavaSplit.Split(other)[..2]
    ensures Dispatch(documentRoot, files, request) == Dispatch(documentRoot, files, other)
  {
    var tokens, others := JavaSplit.Split(request), JavaSplit.Split(other);
    assert tokens[0] == tokens[..2][0] == others[0];
    assert tokens[1] == tokens[..2][1] == others[1];
  }

  /** "VERB target HTTP/1.1" is answered as "VERB target": the protocol version is ignored. */
  lemma VersionIgnored(documentRoot: string, files: Files, verb: string, name: string, version: string)
    requires Target(verb) && Target(name) && Target(version)
    ensures Dispatch(documentRoot, files, verb + " " + name + " " + version)
         == Dispatch(documentRoot, files, verb + " " + name)
  {
    var line, bare := verb + " " + name + " " + version, verb + " " + name;
    assert line == verb + " " + name + (" " + version);
    assert bare == verb + " " + name + "";
    RequestLineAsks(verb, name, " " + version);
    RequestLineAsks(verb, name, "");
    JavaSplit.SplitTwoTokens(verb, name);
    TrailingTokensIgnored(documentRoot, files, line, bare);
  }

  /** A line of whitespace only splits into no tokens, and reading the method throws. */
  lemma BlankLineThrows(documentRoot: string, files: Files, request: string)
    requires request != "" && JavaSplit.AllSpace(request)
    ensures Dispatch(documentRoot, files, request) == Throws(ArrayIndexOutOfBounds(0, 0))
  {
    JavaSplit.SplitIsWords(request);
  }

  class Response {
    const documentRoot: string
    /** The platform line separator that `println` appends. */
    const newline: string
    /** This version never changes the files. */
    const files: Files
    /** Everything written to the connection's socket so far. */
    var sent: seq<Chunk>

    constructor (documentRoot: string, files: Files, newline: string)
      ensures this.documentRoot == documentRoot && this.files == files && this.newline == newline
      ensures sent == []
    {
      this.documentRoot := documentRoot;
      this.files := files;
      this.newline := newline;
      sent := [];
    }

    /** `print_writer.println(line)`. */
    method Println(line: string)
      modifies this`sent
      ensures Transmits(old(sent), sent, Reply([line], []), newline)
    {
      sent := sent + [Text(line + newline)];
    }

    /** `sendResource`: the file in chunks of at most 1500 bytes; a file that cannot be opened is only logged. */
    method SendResource(resourcePath: string)
      modifies this`sent
      ensures resourcePath in files ==> Transmits(old(sent), sent, Reply([], files[resourcePath]), newline)
      ensures resourcePath !in files ==> sent == old(sent)
    {
      if resourcePath in files {
        var writes := CopyInChunks(files[resourcePath]);
        sent := sent + writes;
        assert sent[|old(sent)|..] == writes;
      }
    }

    method RespondHead()
      modifies this`sent
      ensures Transmits(old(sent), sent, HeadReply(), newline)
    {
      Println(GetHeader(OK, NO_TYPE, 0));
    }

    method RespondGet(resourceName: string)
      modifies this`sent
      ensures Transmits(old(sent), sent, GetReply(documentRoot, files, resourceName), newline)
    {
      var key := documentRoot + resourceName;
      if key in files {
        ghost var before := sent;
        Println(GetHeader(OK, TEXT_HTML, |files[key]|));
        ghost var middle := sent;
        SendResource(key);
        TransmitsThen(before, middle, sent, [GetHeader(OK, TEXT_HTML, |files[key]|)], files[key], newline);
      } else {
        SendNotFound(resourceName);
      }
    }

    method RespondDelete(resourceName: string)
      modifies this`sent
      ensures Transmits(old(sent), sent, DeleteReply(documentRoot, files, resourceName), newline)
    {
      var key := documentRoot + resourceName;
      if key in files {
        Println(GetHeader(OK, NO_TYPE, 0));
      } else {
        SendNotFound(resourceName);
      }
    }

    method SendNotFound(resourceName: string)
      modifies this`sent
      ensures Transmits(old(sent), sent, NotFoundReply(resourceName), newline)
    {
      var page := GetHTMLPage(NOT_FOUND, resourceName).value;
      ghost var before := sent;
      Println(GetHeader(NOT_FOUND, TEXT_HTML, Text.Utf16Length(page)));
      ghost var middle := sent;
      Println(page);
      TransmitsMore(before, middle, sent, [GetHeader(NOT_FOUND, TEXT_HTML, Text.Utf16Length(page))], [page], newline);
    }

    method SendNotImplemented(notImplementedCode: string)
      modifies this`sent
      ensures Transmits(old(sent), sent, NotImplementedReply(notImplementedCode), newline)
    {
      var page := GetHTMLPage(NOT_IMPLEMENTED, notImplementedCode).value;
      ghost var before := sent;
      Println(GetHeader(NOT_IMPLEMENTED, TEXT_HTML, Text.Utf16Length(page)));
      ghost var middle := sent;
      Println(page);
      TransmitsMore(before, middle, sent, [GetHeader(NOT_IMPLEMENTED, TEXT_HTML, Text.Utf16Length(page))], [page], newline);
    }

    /** `processRequest`: answers one request line; an exception leaves the socket as it was. */
    method ProcessRequest(request: string) returns (thrown: Option<Exception>)
      modifies this`sent
      ensures match Dispatch(documentRoot, files, request)
        case Throws(e) => thrown == Some(e) && sent == old(sent)
        case Ok(reply) => thrown == None && Transmits(old(sent), sent, reply, newline)
    {
      thrown := None;
      var requestHeader := JavaSplit.Split(request);
      if |requestHeader| == 0 {
        return Some(ArrayIndexOutOfBounds(0, 0));
      }
      var requestCode := requestHeader[0];
      match RequestCodes.Convert(requestCode)
      case HEAD =>
        RespondHead();
      case GET =>
        if |requestHeader| < 2 {
          return Some(ArrayIndexOutOfBounds(1, |requestHeader|));
        }
        RespondGet(requestHeader[1]);
      case DELETE =>
        if |requestHeader| < 2 {
          return Some(ArrayIndexOutOfBounds(1, |requestHeader|));
        }
        RespondDelete(requestHeader[1]);
      case NONE =>
        SendNotImplemented(requestCode);
    }
  }
}

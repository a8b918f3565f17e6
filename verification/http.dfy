/** What both request handlers share: the files they serve, the status texts and the request shape. */
module Http {
  import ResponseCodes
  import JavaSplit
  import Transfer

  /** The files under the document root, keyed by document root + requested name. */
  type Files = map<string, seq<Transfer.byte>>

  const OK := ResponseCodes.Name(ResponseCodes.WORKING_OKAY)
  const NOT_FOUND := ResponseCodes.Name(ResponseCodes.NOT_FOUND)
  const NOT_IMPLEMENTED := ResponseCodes.Name(ResponseCodes.NOT_IMPLEMENTED)

  /** No status text holds a carriage return, so each stays on its header line. */
  lemma StatusesHaveNoCR()
    ensures '\r' !in OK && '\r' !in NOT_FOUND && '\r' !in NOT_IMPLEMENTED
  {
    assert OK == "200 OK";
    assert NOT_FOUND == "404 Not Found";
    assert NOT_IMPLEMENTED == "501 Not Implemented";
  }

  /** The document-type prefix every HTML page of both handlers starts with. */
  const DOCTYPE := "<!DOCTYPE HTML PUBLIC \"-//IETF//DTD HTML 2.0//EN\"><html>"

  /** A token a client can put on a request line: non-empty and without whitespace. */
  predicate Target(name: string)
  {
    name != "" && JavaSplit.NoSpace(name)
  }

  /** `request` splits into `verb`, a target and possibly more tokens, which are ignored. */
  predicate Asks(request: string, verb: string)
  {
    var tokens := JavaSplit.Split(request);
    |tokens| >= 2 && tokens[0] == verb
  }

  /** The target such a request names: its second token. */
  function TargetOf(request: string): string
    requires |JavaSplit.Split(request)| >= 2
  {
    JavaSplit.Split(request)[1]
  }

  /**
   * "VERB target", alone or followed by whitespace and anything else (a
   * protocol version, further tokens, trailing blanks), asks for that target.
   */
  lemma RequestLineAsks(verb: string, name: string, rest: string)
    requires Target(verb) && Target(name)
    requires rest == "" || JavaSplit.IsSpace(rest[0])
    ensures Asks(verb + " " + name + rest, verb)
    ensures TargetOf(verb + " " + name + rest) == name
  {
    JavaSplit.SplitRequestLine(verb, name, rest);
  }
}

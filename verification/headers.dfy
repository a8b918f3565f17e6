/**
 * How a client reads the header block both servers send: CRLF-terminated
 * lines holding the status line, an optional Content-Type field and the
 * Content-Length field. This reader is the reference against which the
 * servers' header builders are proved.
 */
module Headers {
  import opened Results
  import Text

  const CRLF := "\r\n"
  const StatusPrefix := "HTTP/1.1 "
  const TypePrefix := "Content-Type: "
  const LengthPrefix := "Content-Length: "

  datatype HeaderFields = HeaderFields(status: string, contentType: Option<string>, contentLength: nat)

  /** Cuts text made of CRLF-terminated lines into those lines; None when the text is not of that shape. */
  function Lines(s: string): Option<seq<string>>
    decreases |s|
  {
    if s == [] then Some([])
    else
      var i := Text.IndexOf(s, '\r');
      if i < 0 || i + 1 >= |s| || s[i + 1] != '\n' then None
      else
        match Lines(s[i + 2..])
        case None => None
        case Some(rest) => Some([s[..i]] + rest)
  }

  /** A line without carriage return, its CRLF and more text: the line, then the lines of the rest. */
  lemma LinesCons(line: string, rest: string)
    requires '\r' !in line
    ensures Lines(line + CRLF + rest) ==
      match Lines(rest)
      case None => None
      case Some(ls) => Some([line] + ls)
  {
    var s := line + CRLF + rest;
    assert s[|line|] == '\r';
    assert forall j :: 0 <= j < |line| ==> s[j] == line[j];
    assert Text.IndexOf(s, '\r') == |line|;
    assert s[..|line|] == line;
    assert s[|line| + 2..] == rest;
  }

  /** The text of a field line after its name, when the line has that name. */
  function FieldValue(line: string, prefix: string): Option<string>
  {
    if Text.StartsWith(line, prefix) then Some(line[|prefix|..]) else None
  }

  /** The number a Content-Length line states. */
  function LengthValue(line: string): Option<nat>
  {
    match FieldValue(line, LengthPrefix)
    case None => None
    case Some(digits) => if Text.IsDigits(digits) then Some(Text.DigitsValue(digits)) else None
  }

  /** Reads a header block back into its fields. */
  function Parse(header: string): Option<HeaderFields>
  {
    match Lines(header)
    case None => None
    case Some(ls) =>
      if |ls| == 3 then
        match (FieldValue(ls[0], StatusPrefix), FieldValue(ls[1], TypePrefix), LengthValue(ls[2]))
        case (Some(status), Some(ctype), Some(n)) => Some(HeaderFields(status, Some(ctype), n))
        case _ => None
      else if |ls| == 2 then
        match (FieldValue(ls[0], StatusPrefix), LengthValue(ls[1]))
        case (Some(status), Some(n)) => Some(HeaderFields(status, None, n))
        case _ => None
      else None
  }

  /** A field line reads back as the value that was appended to its name. */
  lemma FieldValueOf(prefix: string, value: string)
    ensures FieldValue(prefix + value, prefix) == Some(value)
  {
    assert (prefix + value)[..|prefix|] == prefix;
    assert (prefix + value)[|prefix|..] == value;
  }

  /** A Content-Length line written in decimal reads back as its number. */
  lemma LengthValueOf(n: nat)
    ensures LengthValue(LengthPrefix + Text.Decimal(n)) == Some(n)
  {
    FieldValueOf(LengthPrefix, Text.Decimal(n));
    Text.DecimalRoundTrip(n);
  }

  /** A last line without carriage return, with its CRLF, reads back as that line. */
  lemma LinesOfOne(line: string)
    requires '\r' !in line
    ensures Lines(line + CRLF) == Some([line])
  {
    assert Lines([]) == Some([]);
    LinesCons(line, []);
    assert line + CRLF + [] == line + CRLF;
    assert [line] + [] == [line];
  }

  /** Two lines without carriage return, each with its CRLF, read back as those lines. */
  lemma LinesOfTwo(a: string, b: string)
    requires '\r' !in a && '\r' !in b
    ensures Lines(a + CRLF + b + CRLF) == Some([a, b])
  {
    var rest := b + CRLF;
    LinesOfOne(b);
    LinesCons(a, rest);
    assert a + CRLF + b + CRLF == a + CRLF + rest;
    assert [a] + [b] == [a, b];
  }

  /** Three lines without carriage return, each with its CRLF, read back as those lines. */
  lemma LinesOfThree(a: string, b: string, c: string)
    requires '\r' !in a && '\r' !in b && '\r' !in c
    ensures Lines(a + CRLF + b + CRLF + c + CRLF) == Some([a, b, c])
  {
    var rest := b + CRLF + c + CRLF;
    LinesOfTwo(b, c);
    LinesCons(a, rest);
    assert a + CRLF + b + CRLF + c + CRLF == a + CRLF + rest;
    assert [a] + [b, c] == [a, b, c];
  }

  /** A block with a Content-Type line reads back as its three fields. */
  lemma ParseWithType(status: string, contentType: string, n: nat)
    requires '\r' !in status && '\r' !in contentType
    ensures Parse(StatusPrefix + status + CRLF + TypePrefix + contentType + CRLF + LengthPrefix + Text.Decimal(n) + CRLF)
         == Some(HeaderFields(status, Some(contentType), n))
  {
    var a, b, c := StatusPrefix + status, TypePrefix + contentType, LengthPrefix + Text.Decimal(n);
    DecimalHasNoCR(n);
    assert '\r' !in a && '\r' !in b && '\r' !in c;
    LinesOfThree(a, b, c);
    assert StatusPrefix + status + CRLF + TypePrefix + contentType + CRLF + LengthPrefix + Text.Decimal(n) + CRLF
        == a + CRLF + b + CRLF + c + CRLF;
    FieldValueOf(StatusPrefix, status);
    FieldValueOf(TypePrefix, contentType);
    LengthValueOf(n);
  }

  /** A block without a Content-Type line reads back with no content type. */
  lemma ParseWithoutType(status: string, n: nat)
    requires '\r' !in status
    ensures Parse(StatusPrefix + status + CRLF + LengthPrefix + Text.Decimal(n) + CRLF)
         == Some(HeaderFields(status, None, n))
  {
    var a, c := StatusPrefix + status, LengthPrefix + Text.Decimal(n);
    DecimalHasNoCR(n);
    assert '\r' !in a && '\r' !in c;
    LinesOfTwo(a, c);
    assert StatusPrefix + status + CRLF + LengthPrefix + Text.Decimal(n) + CRLF == a + CRLF + c + CRLF;
    FieldValueOf(StatusPrefix, status);
    LengthValueOf(n);
  }

  /** Decimal digits hold no carriage return. */
  lemma DecimalHasNoCR(n: nat)
    ensures '\r' !in Text.Decimal(n)
  {
  }
}

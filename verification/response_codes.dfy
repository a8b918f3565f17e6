/** The status lines the servers answer with (constants.ResponseCode). */
module ResponseCodes {
  import Lookup
  import opened Results

  datatype ResponseCode = WORKING_OKAY | NOT_FOUND | NOT_IMPLEMENTED

  /** `toString()`: the status code and reason phrase of each constant. */
  function Name(c: ResponseCode): string
  {
    match c
    case WORKING_OKAY => "200 OK"
    case NOT_FOUND => "404 Not Found"
    case NOT_IMPLEMENTED => "501 Not Implemented"
  }

  /** `values()`, in declaration order. */
  function Values(): seq<ResponseCode>
  {
    [WORKING_OKAY, NOT_FOUND, NOT_IMPLEMENTED]
  }

  /** Every constant is listed by `values()`. */
  lemma ValuesComplete(c: ResponseCode)
    ensures c in Values()
  {
  }

  const NotFoundMessage := "RESPONSE CODE IS NOT FOUND"

  /**
   * `convert`: the constant whose status line equals `code` exactly; when
   * none does it throws a RuntimeException.
   */
  function Convert(code: string): (r: Result<ResponseCode>)
    ensures r.Ok? ==> Name(r.value) == code
    ensures r.Throws? ==> r.exception == RuntimeException(NotFoundMessage)
    ensures r.Throws? <==> forall e :: e in Values() ==> Name(e) != code
  {
    var i := Lookup.FirstMatch(Values(), Name, code);
    if i < 0 then Throws(RuntimeException(NotFoundMessage)) else Ok(Values()[i])
  }

  lemma NamesDistinct()
    ensures Lookup.Distinct(Values(), Name)
  {
  }

  /** Converting the status line of a constant gives that constant back. */
  lemma ConvertRoundTrip(c: ResponseCode)
    ensures Convert(Name(c)) == Ok(c)
  {
    NamesDistinct();
    var k := match c case WORKING_OKAY => 0 case NOT_FOUND => 1 case NOT_IMPLEMENTED => 2;
    Lookup.FirstMatchOfName(Values(), Name, k);
  }

  /** Only the three full status lines convert; any other string throws. */
  lemma ConvertSucceedsIff(code: string)
    ensures Convert(code).Ok? <==> code in {"200 OK", "404 Not Found", "501 Not Implemented"}
  {
    ConvertRoundTrip(WORKING_OKAY);
    ConvertRoundTrip(NOT_FOUND);
    ConvertRoundTrip(NOT_IMPLEMENTED);
  }

  /** Matching is exact: a bare number or a different case throws. */
  lemma ConvertIsExact()
    ensures Convert("200").Throws? && Convert("200 ok").Throws? && Convert("404").Throws?
  {
    ConvertSucceedsIff("200");
    ConvertSucceedsIff("200 ok");
    ConvertSucceedsIff("404");
  }
}

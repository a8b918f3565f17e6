/** The two-method request table of the first server generation (RequestCode in the default package). */
module DefaultRequestCodes {
  import Lookup
  import opened Results

  datatype RequestCode = GET | HEAD

  /** `toString()`: the method token of each constant. */
  function Name(c: RequestCode): string
  {
    match c
    case GET => "GET"
    case HEAD => "HEAD"
  }

  /** `values()`, in declaration order. */
  function Values(): seq<RequestCode>
  {
    [GET, HEAD]
  }

  /** Every constant is listed by `values()`. */
  lemma ValuesComplete(c: RequestCode)
    ensures c in Values()
  {
  }

  const NotFoundMessage := "REQUEST CODE IS NOT FOUND"

  /**
   * `convert`: the constant whose token equals `code` exactly; when none
   * does it throws a RuntimeException.
   */
  function Convert(code: string): (r: Result<RequestCode>)
    ensures r.Ok? ==> Name(r.value) == code
    ensures r.Throws? ==> r.exception == RuntimeException(NotFoundMessage)
    ensures r.Throws? <==> forall e :: e in Values() ==> Name(e) != code
  {
    var i := Lookup.FirstMatch(Values(), Name, code);
    if i < 0 then Throws(RuntimeException(NotFoundMessage)) else Ok(Values()[i])
  }

  lemma NamesDistinct()
    ensures Lookup.Distinct(Values(), Name)
  {
  }

  /** Converting the token of a constant gives that constant back. */
  lemma ConvertRoundTrip(c: RequestCode)
    ensures Convert(Name(c)) == Ok(c)
  {
    NamesDistinct();
    var k := match c case GET => 0 case HEAD => 1;
    Lookup.FirstMatchOfName(Values(), Name, k);
  }

  /** Only "GET" and "HEAD" convert; anything else, DELETE and lower case included, throws. */
  lemma ConvertSucceedsIff(code: string)
    ensures Convert(code).Ok? <==> code in {"GET", "HEAD"}
    ensures Convert("DELETE").Throws? && Convert("get").Throws?
  {
    ConvertRoundTrip(GET);
    ConvertRoundTrip(HEAD);
  }
}

/** The request methods the extended server dispatches on (constants.RequestCode). */
module RequestCodes {
  import Lookup

  datatype RequestCode = GET | HEAD | DELETE | NONE

  /** `toString()`: the method token of each constant; NONE stands for the empty string. */
  function Name(c: RequestCode): string
  {
    match c
    case GET => "GET"
    case HEAD => "HEAD"
    case DELETE => "DELETE"
    case NONE => ""
  }

  /** `values()`, in declaration order. */
  function Values(): seq<RequestCode>
  {
    [GET, HEAD, DELETE, NONE]
  }

  /** Every constant is listed by `values()`. */
  lemma ValuesComplete(c: RequestCode)
    ensures c in Values()
  {
  }

  /**
   * `convert`: the constant whose token equals `code` exactly, or NONE when
   * no constant has that token. It never fails.
   */
  function Convert(code: string): (c: RequestCode)
    ensures Name(c) == code || (c == NONE && forall e :: e in Values() ==> Name(e) != code)
  {
    var i := Lookup.FirstMatch(Values(), Name, code);
    if i < 0 then NONE else Values()[i]
  }

  lemma NamesDistinct()
    ensures Lookup.Distinct(Values(), Name)
  {
  }

  /** Converting the token of a constant gives that constant back; "" gives NONE by matching it. */
  lemma ConvertRoundTrip(c: RequestCode)
    ensures Convert(Name(c)) == c
  {
    NamesDistinct();
    var k := match c case GET => 0 case HEAD => 1 case DELETE => 2 case NONE => 3;
    Lookup.FirstMatchOfName(Values(), Name, k);
  }

  /** Exactly GET, HEAD and DELETE are recognised; any other token is NONE. */
  lemma ConvertRecognises(code: string)
    ensures Convert(code) != NONE <==> code in {"GET", "HEAD", "DELETE"}
    ensures code == "GET" ==> Convert(code) == GET
    ensures code == "HEAD" ==> Convert(code) == HEAD
    ensures code == "DELETE" ==> Convert(code) == DELETE
  {
    ConvertRoundTrip(GET);
    ConvertRoundTrip(HEAD);
    ConvertRoundTrip(DELETE);
  }

  /** There is no OPTIONS constant, and matching is case-sensitive. */
  lemma ConvertIsExact()
    ensures Convert("OPTIONS") == NONE && Convert("get") == NONE && Convert("Head") == NONE
  {
    ConvertRecognises("OPTIONS");
    ConvertRecognises("get");
    ConvertRecognises("Head");
  }
}

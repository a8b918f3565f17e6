/** The resource extensions recognised for the Content-Type field (constants.FileType). */
module FileTypes {
  import Lookup

  datatype FileType = HTML | GIF | JPEG | PNG | NONE

  /** `toString()`: the extension each constant stands for; NONE stands for the empty string. */
  function Name(t: FileType): string
  {
    match t
    case HTML => "html"
    case GIF => "gif"
    case JPEG => "jpg"
    case PNG => "png"
    case NONE => ""
  }

  /** `values()`, in declaration order. */
  function Values(): seq<FileType>
  {
    [HTML, GIF, JPEG, PNG, NONE]
  }

  /** Every constant is listed by `values()`. */
  lemma ValuesComplete(t: FileType)
    ensures t in Values()
  {
  }

  /**
   * `convert`: the constant whose name equals `code` exactly, or NONE when
   * no constant has that name. It never fails.
   */
  function Convert(code: string): (t: FileType)
    ensures Name(t) == code || (t == NONE && forall e :: e in Values() ==> Name(e) != code)
  {
    var i := Lookup.FirstMatch(Values(), Name, code);
    if i < 0 then
      NONE
    else Values()[i]
  }

  lemma NamesDistinct()
    ensures Lookup.Distinct(Values(), Name)
  {
  }

  /** Converting the name of a constant gives that constant back. */
  lemma ConvertRoundTrip(t: FileType)
    ensures Convert(Name(t)) == t
  {
    NamesDistinct();
    var k := match t case HTML => 0 case GIF => 1 case JPEG => 2 case PNG => 3 case NONE => 4;
    Lookup.FirstMatchOfName(Values(), Name, k);
  }

  /** Exactly the four extensions html, gif, jpg and png are recognised; everything else is NONE. */
  lemma ConvertRecognises(code: string)
    ensures Convert(code) != NONE <==> code in {"html", "gif", "jpg", "png"}
    ensures code == "html" ==> Convert(code) == HTML
    ensures code == "gif" ==> Convert(code) == GIF
    ensures code == "jpg" ==> Convert(code) == JPEG
    ensures code == "png" ==> Convert(code) == PNG
  {
    ConvertRoundTrip(HTML);
    ConvertRoundTrip(GIF);
    ConvertRoundTrip(JPEG);
    ConvertRoundTrip(PNG);
  }

  /** Matching is exact and case-sensitive: near misses fall back to NONE. */
  lemma ConvertIsExact()
    ensures Convert("HTML") == NONE && Convert("jpeg") == NONE && Convert("Gif") == NONE
  {
    ConvertRecognises("HTML");
    ConvertRecognises("jpeg");
    ConvertRecognises("Gif");
  }
}

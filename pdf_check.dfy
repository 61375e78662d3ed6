/**
 * Whether a candidate URL is accepted as a PDF. The HEAD request itself
 * (redirects followed, ten-second timeout) is an oracle: what it yields is
 * an input, and only the decision taken on it is modelled.
 */
module PdfCheck {
  import opened Base
  import opened Text

  /** The outcome of a HEAD request: the final response, or an exception of any kind. */
  datatype HeadResult =
    | Response(status: int, contentType: Option<string>)
    | RequestFailed

  /** The `content-type` header, or the empty string when the response has none. */
  function ContentTypeOf(h: HeadResult): string
    requires h.Response?
  {
    if h.contentType.Some? then h.contentType.value else ""
  }

  /** The acceptance rule: status 200 and a lower-cased content type mentioning `pdf`. */
  predicate IsPdfResponse(h: HeadResult)
  {
    match h
    case RequestFailed => false
    case Response(status, _) => status == 200 && Contains(Lower(ContentTypeOf(h)), "pdf")
  }

  /** Validation of one URL against the HEAD oracle. */
  predicate CheckPdfUrlExists(head: string -> HeadResult, url: string)
  {
    IsPdfResponse(head(url))
  }

  /**
   * A response is accepted exactly when it is a 200 whose content type
   * contains `pdf` in any mix of letter case; a failed request never is.
   */
  lemma PdfResponseIff(h: HeadResult)
    ensures IsPdfResponse(h) <==>
      h.Response? && h.status == 200 &&
      exists i :: OccursAtIgnoringCase(ContentTypeOf(h), "pdf", i)
  {
    if h.Response? {
      var ct := ContentTypeOf(h);
      if IsPdfResponse(h) {
        var i := IndexOf(Lower(ct), "pdf").value;
        LowerSlice(ct, i, i + 3);
        assert OccursAtIgnoringCase(ct, "pdf", i);
      }
      if exists i :: OccursAtIgnoringCase(ct, "pdf", i) {
        var i :| OccursAtIgnoringCase(ct, "pdf", i);
        LowerSlice(ct, i, i + 3);
        assert OccursAt(Lower(ct), "pdf", i);
      }
    }
  }

  /** The acceptance rule on typical responses: PDF types pass, HTML, 404 and errors do not. */
  lemma ValidationExamples()
    ensures IsPdfResponse(Response(200, Some("application/pdf")))
    ensures IsPdfResponse(Response(200, Some("Application/PDF; charset=binary")))
    ensures !IsPdfResponse(Response(200, Some("text/html")))
    ensures !IsPdfResponse(Response(404, Some("application/pdf")))
    ensures !IsPdfResponse(Response(200, None))
    ensures !IsPdfResponse(RequestFailed)
  {
    assert OccursAt(Lower("application/pdf"), "pdf", 12);
    var mixed := "Application/PDF; charset=binary";
    assert mixed[12..15] == "PDF";
    LowerSlice(mixed, 12, 15);
    assert OccursAt(Lower(mixed), "pdf", 12);
    var html := Lower("text/html");
    assert html == "text/html";
    assert forall k :: 0 <= k < |html| ==> html[k] != 'p';
    assert forall j :: !OccursAt(html, "pdf", j) by {
      forall j ensures !OccursAt(html, "pdf", j) {
        if 0 <= j && j + 3 <= |html| {
          assert html[j..j + 3][0] == html[j];
        }
      }
    }
    assert Lower("") == "";
  }
}

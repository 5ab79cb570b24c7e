/** What the two `/api/pdfparser` routes exchange: the request body, the
    PDF.co conversion response and the JSON reply, with JavaScript's
    truthiness written out where the routes test a value. */
module PdfCoApi {
  import opened Strings

  /** The `pdfUrl` member of the request body. */
  datatype UrlField =
    | Absent                     // missing, or a falsy value such as `null`, `0` or `false`
    | Text(s: string)            // a string, possibly empty (and then falsy)
    | NonString                  // a truthy value that is not a string (a number, an object, ...)

  /** `await req.json()`: it throws on a body that is not JSON. A JSON
      `null` body, whose destructuring into `pdfUrl` throws as well and is
      answered the same way, is given as InvalidJson too. */
  datatype Body = InvalidJson | Json(pdfUrl: UrlField)

  /** `!pdfUrl`. */
  predicate MissingUrl(f: UrlField) {
    f.Absent? || f == Text("")
  }

  /** The parsed PDF.co response (`PDFcoResponse`); absent members are None. */
  datatype PdfCoResponse = PdfCoResponse(
    error: bool, url: Option<string>, jobId: Option<string>, status: Option<string>,
    html: Option<string>, message: Option<string>)

  /** The call to PDF.co: it rejects, or its body is not JSON (both throw),
      or it replies with an HTTP status and a parsed body. */
  datatype Upstream = Thrown | Replied(ok: bool, httpStatus: int, data: PdfCoResponse)

  /** The JSON reply and its HTTP status (200 unless another is given). */
  datatype Reply = Reply(
    httpStatus: int, error: bool, message: Option<string>,
    html: Option<string>, url: Option<string>, jobId: Option<string>, jobStatus: Option<string>)

  function Failure(httpStatus: int, message: string): Reply {
    Reply(httpStatus, true, Some(message), None, None, None, None)
  }

  const InternalError := "Internal server error"
  const KeyMissing := "PDF.co API key is not configured"

  /** `process.env.PDFCO_API_KEY` is set to a non-empty value. */
  predicate HasKey(apiKey: Option<string>) {
    Truthy(apiKey)
  }
}

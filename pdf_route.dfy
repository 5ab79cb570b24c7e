/** src/app/api/pdfparser/route.ts: checks the request, asks PDF.co for an
    inline conversion and dispatches on what comes back, in a fixed order of
    priority: an error flag, inline HTML, a URL of the HTML (which is then
    downloaded), a job id. Unlike the frontend route, the URL is passed on as
    given and PDF.co's HTTP status is not looked at. */
module PdfRoute {
  import opened Strings
  import opened PdfCoApi

  const UrlRequired := "PDF URL is required"
  const ApiError := "PDF.co API error"
  const Started := "Conversion started"
  const Unexpected := "Unexpected response format from PDF.co API"

  /** The download of `data.url`: it throws, or gives the body text. */
  datatype Download = DownloadThrown | Downloaded(text: string)

  /** `POST`. The API key, PDF.co's outcome and the download are inputs; the
      result tells whether PDF.co was called. */
  function Post(body: Body, apiKey: Option<string>, upstream: Upstream, download: Download): (r: (Reply, bool))
    ensures r.1 ==> body.Json? && !MissingUrl(body.pdfUrl) && HasKey(apiKey)
    ensures !r.0.error ==> r.1 && upstream.Replied?
  {
    if body.InvalidJson? then (Failure(500, InternalError), false)
    else if MissingUrl(body.pdfUrl) then (Failure(400, UrlRequired), false)
    else if !HasKey(apiKey) then (Failure(500, KeyMissing), false)
    else match upstream
      case Thrown => (Failure(500, InternalError), true)
      case Replied(_, _, data) => (Dispatch(data, download), true)
  }

  /** The reply chosen from PDF.co's parsed response. */
  function Dispatch(data: PdfCoResponse, download: Download): (r: Reply)
    ensures data.error ==> r.error
    ensures !r.error ==> r.httpStatus == 200 && (r.html.Some? || r.jobId == data.jobId)
  {
    if data.error then Failure(500, ApiError)
    else if Truthy(data.html) then Reply(200, false, None, data.html, None, None, None)
    else if Truthy(data.url) then
      match download
      case DownloadThrown => Failure(500, InternalError)
      case Downloaded(text) => Reply(200, false, None, Some(text), data.url, None, None)
    else if Truthy(data.jobId) then Reply(200, false, Some(Started), None, None, data.jobId, data.status)
    else Failure(500, Unexpected)
  }

  /** A missing URL is a 400 and a missing key a 500, in that order, and
      PDF.co is called exactly when both are there. */
  lemma PostChecksInputFirst(pdfUrl: UrlField, apiKey: Option<string>, upstream: Upstream, download: Download)
    ensures var (r, called) := Post(Json(pdfUrl), apiKey, upstream, download);
      && (MissingUrl(pdfUrl) ==> r == Failure(400, UrlRequired))
      && (!MissingUrl(pdfUrl) && !HasKey(apiKey) ==> r == Failure(500, KeyMissing))
      && (called <==> !MissingUrl(pdfUrl) && HasKey(apiKey))
  {
  }

  /** The dispatch in order of priority: the error flag wins over every other
      member, then inline HTML, then the downloaded URL, then the job, and
      nothing of these is a 500. */
  lemma DispatchPriority(data: PdfCoResponse, download: Download)
    ensures var r := Dispatch(data, download);
      && (data.error ==> r == Failure(500, ApiError))
      && (!data.error && Truthy(data.html) ==> !r.error && r.html == data.html && r.url.None?)
      && (!data.error && !Truthy(data.html) && Truthy(data.url) ==>
            (download.Downloaded? ==> !r.error && r.html == Some(download.text) && r.url == data.url)
            && (download.DownloadThrown? ==> r == Failure(500, InternalError)))
      && (!data.error && !Truthy(data.html) && !Truthy(data.url) && Truthy(data.jobId) ==>
            !r.error && r.message == Some(Started) && r.jobId == data.jobId && r.jobStatus == data.status)
      && (!data.error && !Truthy(data.html) && !Truthy(data.url) && !Truthy(data.jobId) ==>
            r == Failure(500, Unexpected))
  {
  }

  /** Every reply: `error: false` exactly on the success paths, which answer
      200 with HTML or a started job; every failure answers 400 or 500 with
      `error: true` and a message. */
  lemma ReplyErrorIffFailure(body: Body, apiKey: Option<string>, upstream: Upstream, download: Download)
    ensures var r := Post(body, apiKey, upstream, download).0;
      && (r.error <==> r.httpStatus != 200)
      && (r.error ==> (r.httpStatus == 400 || r.httpStatus == 500) && r.message.Some?)
      && (!r.error ==> r.html.Some? || r.message == Some(Started))
  {
  }
}

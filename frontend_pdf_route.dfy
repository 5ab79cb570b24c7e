/** frontend/src/app/api/pdfparser/route.ts: checks the request, normalises
    the PDF's URL and asks PDF.co to convert it; the reply passes PDF.co's job
    on, or its error. No conversion is awaited here. */
module FrontendPdfRoute {
  import opened Strings
  import opened PdfCoApi

  const UrlNeeded := "A valid PDF URL needed"
  const ApiError := "PDF.co API error"

  /** The URL given to PDF.co: "https://" in front unless the URL starts with
      "http", then every comma replaced by a slash. */
  function NormaliseUrl(pdfUrl: string): (r: string)
    ensures ',' !in r
    ensures |pdfUrl| <= |r| <= |pdfUrl| + 8
  {
    var url := if StartsWith(pdfUrl, "http") then pdfUrl else "https://" + pdfUrl;
    ReplaceChar(url, ',', '/')
  }

  /** The normalised URL has no commas, starts with "http", keeps every other
      character in place, and gets its "https://" only when it lacks "http". */
  lemma NormaliseUrlShape(pdfUrl: string)
    ensures var n := NormaliseUrl(pdfUrl);
      && ',' !in n
      && StartsWith(n, "http")
      && (StartsWith(pdfUrl, "http") ==>
            |n| == |pdfUrl| && forall i :: 0 <= i < |pdfUrl| && pdfUrl[i] != ',' ==> n[i] == pdfUrl[i])
      && (!StartsWith(pdfUrl, "http") ==>
            |n| == |pdfUrl| + 8 && n[..8] == "https://" && forall i :: 0 <= i < |pdfUrl| && pdfUrl[i] != ',' ==> n[i + 8] == pdfUrl[i])
  {
    var url := if StartsWith(pdfUrl, "http") then pdfUrl else "https://" + pdfUrl;
    var n := NormaliseUrl(pdfUrl);
    assert url[..4] == "http";
    assert n[..4] == "http";
    if !StartsWith(pdfUrl, "http") {
      assert url[..8] == "https://";
      assert n[..8] == "https://";
    }
  }

  /** Normalising twice changes nothing. */
  lemma NormaliseUrlIdempotent(pdfUrl: string)
    ensures NormaliseUrl(NormaliseUrl(pdfUrl)) == NormaliseUrl(pdfUrl)
  {
    var n := NormaliseUrl(pdfUrl);
    NormaliseUrlShape(pdfUrl);
    assert ReplaceChar(n, ',', '/') == n;
  }

  /** What the handler does: the reply, and the URL it sent to PDF.co (if it got that far). */
  datatype Handled = Handled(reply: Reply, sent: Option<string>)

  /** `POST`. The API key and PDF.co's outcome are inputs. */
  function Post(body: Body, apiKey: Option<string>, upstream: Upstream): (r: Handled)
    ensures r.sent.Some? ==> body.Json? && body.pdfUrl.Text? && r.sent == Some(NormaliseUrl(body.pdfUrl.s)) && HasKey(apiKey)
    ensures !r.reply.error ==> r.reply.httpStatus == 200 && r.sent.Some? && upstream.Replied?
  {
    if body.InvalidJson? then Handled(Failure(500, InternalError), None)
    else if MissingUrl(body.pdfUrl) then Handled(Failure(400, UrlNeeded), None)
    else if !HasKey(apiKey) then Handled(Failure(500, KeyMissing), None)
    // `startsWith` of a value that is not a string throws
    else if body.pdfUrl.NonString? then Handled(Failure(500, InternalError), None)
    else
      var sent := Some(NormaliseUrl(body.pdfUrl.s));
      match upstream
      case Thrown => Handled(Failure(500, InternalError), sent)
      case Replied(ok, httpStatus, data) =>
        if !ok || data.error then
          Handled(Failure(if httpStatus != 0 then httpStatus else 500, OrElse(data.message, ApiError)), sent)
        else
          Handled(Reply(200, false, None, None, data.url, data.jobId, Some(OrElse(data.status, "working"))), sent)
  }

  /** The request is checked before the key, and both before anything is sent. */
  lemma PostChecksInputFirst(body: Body, apiKey: Option<string>, upstream: Upstream)
    requires body.Json?
    ensures var h := Post(body, apiKey, upstream);
      && (MissingUrl(body.pdfUrl) ==> h == Handled(Failure(400, UrlNeeded), None))
      && (!MissingUrl(body.pdfUrl) && !HasKey(apiKey) ==> h == Handled(Failure(500, KeyMissing), None))
      && (h.sent.Some? <==> body.pdfUrl.Text? && body.pdfUrl.s != "" && HasKey(apiKey))
      && (h.sent.Some? ==> h.sent.value == NormaliseUrl(body.pdfUrl.s))
  {
  }

  /** Once sent: a failed or erroring conversion gives an error with PDF.co's
      status (500 for none) and message (or 'PDF.co API error'); otherwise the
      job is passed on with `status` defaulting to 'working'. */
  lemma PostPassesUpstreamOn(url: string, apiKey: Option<string>, ok: bool, httpStatus: int, data: PdfCoResponse)
    requires url != "" && HasKey(apiKey)
    ensures var r := Post(Json(Text(url)), apiKey, Replied(ok, httpStatus, data)).reply;
      && (r.error <==> !ok || data.error)
      && (r.error ==> r.httpStatus == (if httpStatus == 0 then 500 else httpStatus)
                      && r.message == Some(if Truthy(data.message) then data.message.value else ApiError))
      && (!r.error ==> r.httpStatus == 200 && r.jobId == data.jobId && r.url == data.url
                       && r.jobStatus == Some(if Truthy(data.status) then data.status.value else "working"))
  {
  }

  /** Every error reply has `error: true` and carries a message, every other
      reply has `error: false`, status 200 and no message. */
  lemma PostReplyShape(body: Body, apiKey: Option<string>, upstream: Upstream)
    ensures var r := Post(body, apiKey, upstream).reply;
      && (r.error ==> r.message.Some? && r.html.None?)
      && (!r.error ==> r.httpStatus == 200 && r.message.None? && r.jobStatus.Some?)
      && (upstream.Thrown? ==> r.error && r.httpStatus != 200)
  {
  }
}

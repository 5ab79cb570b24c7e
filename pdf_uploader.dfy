/** src/components/PDFUploader.tsx: checks the chosen file, reads it as a
    data URL, uploads its base64 payload to PDF.co, asks for its conversion
    to HTML, downloads the HTML and hands a blob URL of it to the parent.

    The file reader, the three HTTP exchanges and `URL.createObjectURL` are
    inputs: an outcome for each, and a function for the blob URL. A thrown
    value is taken to be an Error with a message. The API key headers are
    not modelled. */
module PdfUploader {
  import opened Strings

  const MaxFileSize := 10 * 1024 * 1024
  const PdfMime := "application/pdf"
  const NotPdf := "Please upload a valid PDF file"
  const TooLarge := "File size exceeds 10MB limit"
  const ReadFailed := "Failed to read file"
  const UploadFailed := "Failed to upload file"
  const ConvertFailed := "Failed to convert PDF to HTML"

  /** The selected `File`: its MIME type, size in bytes and name. */
  datatype FileInfo = FileInfo(mime: string, size: int, name: string)

  /** `file.type` and `file.size` checks; the message set on a rejection. */
  function Validate(file: FileInfo): (r: Option<string>)
    ensures r.Some? ==> r.value == NotPdf || r.value == TooLarge
  {
    if file.mime != PdfMime then Some(NotPdf)
    else if file.size > MaxFileSize then Some(TooLarge)
    else None
  }

  /** Exactly PDF files of at most 10 MiB pass, the type being checked first. */
  lemma ValidateAccepts(file: FileInfo)
    ensures Validate(file).None? <==> file.mime == PdfMime && file.size <= 10485760
    ensures file.mime != PdfMime ==> Validate(file) == Some(NotPdf)
    ensures file.mime == PdfMime && file.size > 10485760 ==> Validate(file) == Some(TooLarge)
  {
  }

  /** `result.split(',')[1]`: None (`undefined`) when there is no comma. */
  function Base64Segment(dataUrl: string): (r: Option<string>)
    ensures r.Some? ==> ',' !in r.value
  {
    var parts := Split(dataUrl, ',');
    if |parts| > 1 then Some(parts[1]) else None
  }

  /** A data URL `header,payload` with no comma in either part gives exactly
      the payload; a string with no comma gives none. */
  lemma Base64SegmentOfDataUrl(header: string, payload: string)
    requires ',' !in header && ',' !in payload
    ensures Base64Segment(header + [','] + payload) == Some(payload)
    ensures Base64Segment(header) == None
  {
    var parts := [header, payload];
    assert Join(parts, [',']) == header + [','] + payload;
    SplitOfJoin(parts, ',');
    SplitOfJoin([header], ',');
  }

  /** The segment lies between the first comma and the next one (or the end). */
  lemma Base64SegmentFollowsFirstComma(dataUrl: string)
    requires ',' in dataUrl
    ensures var k := IndexOf(dataUrl, ',');
      k < |dataUrl| && Base64Segment(dataUrl).Some?
      && StartsWith(dataUrl[k + 1..], Base64Segment(dataUrl).value)
      && ',' !in Base64Segment(dataUrl).value
  {
    var k := IndexOf(dataUrl, ',');
    var parts := Split(dataUrl, ',');
    SplitJoin(dataUrl, ',');
    assert |parts| > 1;
    var rest := Join(parts[1..], [',']);
    assert dataUrl == parts[0] + [','] + rest;
    IndexOfPrefix(parts[0], rest, ',');
    assert dataUrl[k + 1..] == rest;
    JoinStartsWithFirst(parts[1..], [',']);
  }

  /** The uploaded `file` member. */
  function UploadedFile(segment: Option<string>): string {
    "data:application/pdf;base64," + (if segment.Some? then segment.value else "undefined")
  }

  /** `name.replace(/\.pdf$/i, '.html')`. */
  function OutputName(name: string): (r: string)
    ensures |r| == |name| || |r| == |name| + 1
  {
    if EndsWithPdf(name) then name[..|name| - 4] + ".html" else name
  }

  predicate EndsWithPdf(name: string) {
    |name| >= 4 && Lower(name[|name| - 4..]) == ".pdf"
  }

  /** A trailing ".pdf", in any case, becomes ".html" and the rest of the
      name is kept; any other name is unchanged. Renaming twice is renaming once. */
  lemma OutputNameRewrites(name: string)
    ensures EndsWithPdf(name) ==> OutputName(name) == name[..|name| - 4] + ".html" && EndsWith(OutputName(name), ".html")
    ensures !EndsWithPdf(name) ==> OutputName(name) == name
    ensures OutputName(OutputName(name)) == OutputName(name)
  {
    var out := OutputName(name);
    if EndsWithPdf(name) {
      assert out[|out| - 5..] == ".html";
      assert out[|out| - 4..] == "html";
      assert Lower("html") == "html";
    }
  }

  /** The answer of a PDF.co call: it throws (with a message), or replies. */
  datatype ApiOutcome = ApiThrown(error: string) | ApiReplied(ok: bool, url: Option<string>, message: Option<string>)

  /** The download of the HTML: it throws (a network error, the 30 s abort), or replies. */
  datatype Download = DownloadThrown(error: string) | DownloadReplied(ok: bool, statusText: string, text: string)

  /** How the `try` block ends, and what it sent on the way. */
  datatype Outcome = Outcome(result: Result, uploadedFile: Option<string>, convertName: Option<string>)
  datatype Result = Processed(htmlUrl: string) | Failed(message: string)

  /** The `try` block of `handleFileChange`; `read` is the data URL, or None
      when the reader fails. */
  function Process(file: FileInfo, read: Option<string>, upload: ApiOutcome, convert: ApiOutcome,
                   download: Download, objectUrl: string -> string): (r: Outcome)
    ensures r.result.Processed? ==> r.uploadedFile.Some? && r.convertName == Some(OutputName(file.name))
    ensures r.convertName.Some? ==> r.uploadedFile.Some?
    ensures r.uploadedFile.None? <==> read.None?
  {
    if read.None? then Outcome(Failed(ReadFailed), None, None)
    else
      var sentFile := Some(UploadedFile(Base64Segment(read.value)));
      match upload
      case ApiThrown(e) => Outcome(Failed(e), sentFile, None)
      case ApiReplied(ok, url, message) =>
        if !ok || !Truthy(url) then Outcome(Failed(OrElse(message, UploadFailed)), sentFile, None)
        else
          var sentName := Some(OutputName(file.name));
          match convert
          case ApiThrown(e) => Outcome(Failed(e), sentFile, sentName)
          case ApiReplied(ok', url', message') =>
            if !ok' || !Truthy(url') then Outcome(Failed(OrElse(message', ConvertFailed)), sentFile, sentName)
            else
              match download
              case DownloadThrown(e) => Outcome(Failed("Failed to process HTML: " + e), sentFile, sentName)
              case DownloadReplied(ok'', statusText, text) =>
                if !ok'' then Outcome(Failed("Failed to process HTML: " + ("Failed to download HTML: " + statusText)), sentFile, sentName)
                else Outcome(Processed(objectUrl(text)), sentFile, sentName)
  }

  /** The upload and the conversion each fail when the reply is not ok or
      has no `url`, with the reply's message or their own; only when all three
      exchanges succeed is the blob URL of the downloaded HTML handed on. */
  lemma ProcessSucceedsIff(file: FileInfo, read: Option<string>, upload: ApiOutcome, convert: ApiOutcome,
                           download: Download, objectUrl: string -> string)
    ensures var o := Process(file, read, upload, convert, download, objectUrl);
      && (o.result.Processed? <==>
            read.Some? && upload.ApiReplied? && upload.ok && Truthy(upload.url)
            && convert.ApiReplied? && convert.ok && Truthy(convert.url)
            && download.DownloadReplied? && download.ok)
      && (o.result.Processed? ==> o.result.htmlUrl == objectUrl(download.text))
      && (read.Some? && upload.ApiReplied? && !(upload.ok && Truthy(upload.url)) ==>
            o.result == Failed(OrElse(upload.message, UploadFailed)) && o.convertName.None?)
      && (read.Some? && upload.ApiReplied? && upload.ok && Truthy(upload.url) ==>
            o.convertName == Some(OutputName(file.name)))
      && (read.Some? ==> o.uploadedFile == Some(UploadedFile(Base64Segment(read.value))))
  {
  }

  /** The component's `isUploading` and `error` state. */
  class Uploader {
    var isUploading: bool
    var error: Option<string>

    constructor()
      ensures !isUploading && error.None?
    {
      isUploading := false;
      error := None;
    }

    /** `handleFileChange`; `processed` is the argument of `onFileProcessed`,
        if it is called. */
    method HandleFileChange(file: Option<FileInfo>, read: Option<string>, upload: ApiOutcome, convert: ApiOutcome,
                            download: Download, objectUrl: string -> string) returns (processed: Option<string>)
      modifies this
      ensures file.None? ==> isUploading == old(isUploading) && error == old(error) && processed.None?
      ensures file.Some? && Validate(file.value).Some? ==>
              isUploading == old(isUploading) && error == Validate(file.value) && processed.None?
      ensures file.Some? && Validate(file.value).None? ==>
              var r := Process(file.value, read, upload, convert, download, objectUrl).result;
              && !isUploading
              && (r.Processed? ==> error.None? && processed == Some(r.htmlUrl))
              && (r.Failed? ==> error == Some(r.message) && processed.None?)
    {
      if file.None? {
        return None;
      }
      var f := file.value;
      if f.mime != PdfMime {
        error := Some(NotPdf);
        return None;
      }
      if f.size > MaxFileSize {
        error := Some(TooLarge);
        return None;
      }
      isUploading := true;
      error := None;
      var outcome := Process(f, read, upload, convert, download, objectUrl);
      match outcome.result {
        case Processed(htmlUrl) =>
          processed := Some(htmlUrl);
        case Failed(message) =>
          error := Some(message);
          processed := None;
      }
      isUploading := false;
    }
  }
}

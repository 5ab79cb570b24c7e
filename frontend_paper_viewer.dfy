/** frontend/src/components/PaperViewer.tsx: the same page template and text
    extraction as src/components/PaperViewer.tsx (the two definitions are
    identical, so the model shares them), but `fetchPaperContent` has no
    catch: an error thrown on the way rejects the promise and no state is
    set, so the viewer stays in its initial loading state. */
module FrontendPaperViewer {
  import opened Strings
  import PaperViewer

  /** One run of the loading effect from the state `prev`, with
      `fetchPaperContent` as written: the content and the end of loading are
      set only when a page was assembled; a failure changes nothing. */
  function Load(prev: PaperViewer.ViewState, paperContent: string, paperPath: string,
                fetched: PaperViewer.FetchOutcome, parse: string -> PaperViewer.HeadBody): (r: PaperViewer.ViewState)
    ensures r.error == prev.error
    ensures r != prev ==> !r.isLoading
  {
    match PaperViewer.Source(paperContent, paperPath, fetched)
    case Loaded(html) =>
      var hb := parse(html);
      PaperViewer.ViewState(PaperViewer.CreateSanitizedHtml(hb.head, hb.body), false, prev.error)
    case Failed(_) => prev
  }

  /** Loading ends only once the assembled page has been set, and the error
      is never set: `paperContent` takes precedence, and a missing source or
      a failed fetch leaves the state untouched. From the initial state the
      error therefore stays unset. */
  lemma LoadSetsContentFirst(prev: PaperViewer.ViewState, paperContent: string, paperPath: string,
                             fetched: PaperViewer.FetchOutcome, parse: string -> PaperViewer.HeadBody)
    ensures var s := Load(prev, paperContent, paperPath, fetched, parse);
      var src := PaperViewer.Source(paperContent, paperPath, fetched);
      && s.error == prev.error
      && (src.Loaded? ==> !s.isLoading && s.content == PaperViewer.CreateSanitizedHtml(parse(src.html).head, parse(src.html).body))
      && (src.Failed? ==> s == prev)
      && (prev == PaperViewer.Initial ==> s.error.None? && (!s.isLoading <==> src.Loaded?))
      && (paperContent != "" ==> src == PaperViewer.Loaded(paperContent))
  {
  }

  /** As written, a viewer given neither content nor path, or whose fetch
      fails, shows the loading spinner for ever and no error. */
  lemma FailureKeepsSpinner(paperContent: string, paperPath: string, fetched: PaperViewer.FetchOutcome,
                            parse: string -> PaperViewer.HeadBody)
    requires paperContent == "" && (paperPath == "" || fetched.Rejected? || !fetched.ok)
    ensures Load(PaperViewer.Initial, paperContent, paperPath, fetched, parse) == PaperViewer.ViewState("", true, None)
  {
    assert PaperViewer.Source(paperContent, paperPath, fetched).Failed?;
  }

  /** The loader with the catch and finally of src/components/PaperViewer.tsx
      ends loading on every path, and on the same failures shows the error. */
  lemma IntendedShowsError(paperContent: string, paperPath: string, fetched: PaperViewer.FetchOutcome,
                           parse: string -> PaperViewer.HeadBody)
    requires paperContent == "" && (paperPath == "" || fetched.Rejected? || !fetched.ok)
    ensures var s := PaperViewer.Load(PaperViewer.Initial, paperContent, paperPath, fetched, parse);
      !s.isLoading && s.error.Some? && s.content == ""
  {
    assert PaperViewer.Source(paperContent, paperPath, fetched).Failed?;
  }

  /** Where the page is assembled, both loaders agree, from any state. */
  lemma AgreesOnSuccess(prev: PaperViewer.ViewState, paperContent: string, paperPath: string,
                        fetched: PaperViewer.FetchOutcome, parse: string -> PaperViewer.HeadBody)
    requires PaperViewer.Source(paperContent, paperPath, fetched).Loaded?
    ensures Load(prev, paperContent, paperPath, fetched, parse) == PaperViewer.Load(prev, paperContent, paperPath, fetched, parse)
  {
  }
}

/** backend/server.py: `/ingest` splits the text of a page into fixed-width
    chunks and stores one row per chunk; `/query` takes the rows nearest to
    the question and joins their contents into the context of the prompt.

    The HTML-to-text step (BeautifulSoup), the embeddings, the chat
    completion and the database are external: the extracted text is a
    function given to `Ingest`, and the rows the database ranks by embedding
    distance are given to `Query` in that order. */
module Backend {
  import opened Strings

  const ChunkSize := 500
  const TopK := 5
  const ContextSeparator := "\n---\n"
  const NotFoundMessage := "No similar content found."

  /** Python's `s[a:b]` for non-negative a and b: both ends are clamped to the length. */
  function PySlice(s: string, a: nat, b: nat): (r: string)
    ensures |r| <= |s|
  {
    var lo := Min(a, |s|);
    s[lo..Max(lo, Min(b, |s|))]
  }

  /** The length of `range(0, n, size)` for a positive step: one index per
      started block of `size`. */
  function ChunkCount(n: nat, size: nat): nat
    requires size > 0
    decreases n
  {
    if n == 0 then 0 else if n <= size then 1 else 1 + ChunkCount(n - size, size)
  }

  /** `chunk_text`: `[text[i:i+size] for i in range(0, len(text), size)]`. A
      negative step gives an empty range; a zero step raises, which callers
      must avoid. */
  function ChunkText(text: string, chunkSize: int): (r: seq<string>)
    requires chunkSize != 0
    ensures text == [] || chunkSize < 0 ==> r == []
    ensures forall i :: 0 <= i < |r| ==> |r[i]| <= |text|
  {
    if chunkSize < 0 then []
    else seq(ChunkCount(|text|, chunkSize), i requires 0 <= i => PySlice(text, i * chunkSize, i * chunkSize + chunkSize))
  }

  /** ceil, characterised: the count is the least number of chunks of that
      size that cover the text. */
  lemma {:induction false} ChunkCountBounds(n: nat, size: nat)
    requires size > 0
    ensures var q := ChunkCount(n, size); q * size >= n && (q - 1) * size < n
    ensures n == 0 <==> ChunkCount(n, size) == 0
    decreases n
  {
    if n > size {
      ChunkCountBounds(n - size, size);
      var q := ChunkCount(n - size, size);
      assert (q + 1) * size == q * size + size;
      assert q * size == (q - 1) * size + size;
    }
  }

  lemma MulMonotone(i: int, j: int, s: nat)
    requires i <= j
    ensures i * s <= j * s
  {
    assert j * s - i * s == (j - i) * s;
  }

  /** One chunk per `chunkSize` characters, rounded up, so that an empty
      text has no chunks. */
  lemma ChunkTextCount(text: string, chunkSize: int)
    requires chunkSize > 0
    ensures var r := ChunkText(text, chunkSize);
      && |r| * chunkSize >= |text| && (|r| - 1) * chunkSize < |text|
      && (r == [] <==> text == [])
  {
    ChunkCountBounds(|text|, chunkSize);
  }

  /** Every chunk but the last has exactly `chunkSize` characters; the last
      one has between 1 and `chunkSize`. The i-th chunk starts at i * chunkSize. */
  lemma ChunkTextSizes(text: string, chunkSize: int, i: nat)
    requires chunkSize > 0 && i < |ChunkText(text, chunkSize)|
    ensures var r := ChunkText(text, chunkSize);
      && i * chunkSize < |text|
      && (i < |r| - 1 ==> |r[i]| == chunkSize && r[i] == text[i * chunkSize..i * chunkSize + chunkSize])
      && (i == |r| - 1 ==> 0 < |r[i]| <= chunkSize && r[i] == text[i * chunkSize..])
  {
    var r := ChunkText(text, chunkSize);
    var q := |r|;
    ChunkCountBounds(|text|, chunkSize);
    MulMonotone(i, q - 1, chunkSize);
    if i < q - 1 {
      MulMonotone(i + 1, q - 1, chunkSize);
    }
    assert (i + 1) * chunkSize == i * chunkSize + chunkSize;
    assert (q - 1) * chunkSize + chunkSize == q * chunkSize;
  }

  /** The chunks of a text are its first chunk followed by the chunks of the rest. */
  lemma ChunkTextUnfold(text: string, chunkSize: int)
    requires chunkSize > 0 && text != []
    ensures var k := Min(chunkSize, |text|);
      ChunkText(text, chunkSize) == [text[..k]] + ChunkText(text[k..], chunkSize)
  {
    var k := Min(chunkSize, |text|);
    var r := ChunkText(text, chunkSize);
    var rest := ChunkText(text[k..], chunkSize);
    assert |r| == |rest| + 1;
    assert r[0] == text[..k];
    forall i | 0 <= i < |rest|
      ensures r[i + 1] == rest[i]
    {
      ShiftedSlice(text, chunkSize, i);
    }
    assert r == [text[..k]] + rest;
  }

  /** Chunk i + 1 of a long text is chunk i of the text without its first chunk. */
  lemma ShiftedSlice(text: string, size: nat, i: nat)
    requires 0 < size < |text|
    ensures PySlice(text, (i + 1) * size, (i + 1) * size + size) == PySlice(text[size..], i * size, i * size + size)
  {
    assert (i + 1) * size == i * size + size;
  }

  /** Joining the chunks in order gives back the text exactly. */
  lemma {:induction false} ChunkTextRoundTrip(text: string, chunkSize: int)
    requires chunkSize > 0
    ensures Join(ChunkText(text, chunkSize), "") == text
    decreases |text|
  {
    if text != [] {
      var k := Min(chunkSize, |text|);
      ChunkTextUnfold(text, chunkSize);
      ChunkTextRoundTrip(text[k..], chunkSize);
      var rest := ChunkText(text[k..], chunkSize);
      if rest == [] {
        assert text[k..] == [];
        assert text == text[..k];
      } else {
        assert text == text[..k] + "" + text[k..];
      }
    }
  }

  datatype IngestRequest = IngestRequest(html: string, url: string, documentId: string)

  /** A row of `vector_data` (the embedding is not modelled). */
  datatype Row = Row(url: string, content: string, documentId: string)

  datatype IngestResult = IngestResult(rows: seq<Row>, status: string, chunks: nat)

  /** `ingest`: one row per chunk of the extracted text, then the report. */
  function Ingest(req: IngestRequest, extract: string -> string): (r: IngestResult)
    ensures r.status == "success" && r.chunks == |r.rows|
  {
    var chunks := ChunkText(extract(req.html), ChunkSize);
    IngestResult(seq(|chunks|, i requires 0 <= i < |chunks| => Row(req.url, chunks[i], req.documentId)), "success", |chunks|)
  }

  function Contents(rows: seq<Row>): (r: seq<string>)
    ensures |r| == |rows|
    ensures forall i :: 0 <= i < |rows| ==> r[i] == rows[i].content
  {
    seq(|rows|, i requires 0 <= i < |rows| => rows[i].content)
  }

  /** The reported count is the number of rows stored, one per chunk of the
      extracted text, all with the request's url and document id; their
      contents, in order, make up the extracted text. */
  lemma IngestReportsChunks(req: IngestRequest, extract: string -> string)
    ensures var res := Ingest(req, extract);
      && res.status == "success"
      && res.chunks == |res.rows| == |ChunkText(extract(req.html), ChunkSize)|
      && (forall i :: 0 <= i < |res.rows| ==> res.rows[i].url == req.url && res.rows[i].documentId == req.documentId)
      && Join(Contents(res.rows), "") == extract(req.html)
      && (extract(req.html) == [] <==> res.chunks == 0)
  {
    var chunks := ChunkText(extract(req.html), ChunkSize);
    var res := Ingest(req, extract);
    assert Contents(res.rows) == chunks;
    ChunkTextRoundTrip(extract(req.html), ChunkSize);
    ChunkTextCount(extract(req.html), ChunkSize);
  }

  datatype QueryResult =
    | NotFound(statusCode: int, message: string)
    | Answered(context: seq<string>, prompt: string)

  /** The prompt sent to the chat completion. */
  function Prompt(context: string, question: string): (r: string)
    ensures |r| > |context| + |question|
    ensures EndsWith(r, "\nAnswer:")
  {
    "Answer the f" + "ollowing que" + "stion using " + "the provided" + " context." + "\nContext:\n"
    + context + "\n\nQuestion: " + question + "\nAnswer:"
  }

  /** `query`: the database gives back the first `TOP_K` rows of `ranked`;
      none gives a 404, otherwise their contents are the context. */
  function Query(question: string, ranked: seq<Row>): (r: QueryResult)
    ensures r.NotFound? <==> ranked == []
    ensures r.Answered? ==> 0 < |r.context| <= TopK
  {
    var data := ranked[..Min(TopK, |ranked|)];
    if data == [] then NotFound(404, NotFoundMessage)
    else
      var topChunks := Contents(data);
      Answered(topChunks, Prompt(Join(topChunks, ContextSeparator), question))
  }

  /** The answer's context is the contents of the nearest min(5, n) rows in
      rank order, and an empty result is exactly the 404. */
  lemma QueryUsesTopK(question: string, ranked: seq<Row>)
    ensures var res := Query(question, ranked);
      && (res.NotFound? <==> ranked == [])
      && (res.NotFound? ==> res.statusCode == 404 && res.message == NotFoundMessage)
      && (res.Answered? ==> |res.context| == Min(TopK, |ranked|) <= TopK
                            && forall i :: 0 <= i < |res.context| ==> res.context[i] == ranked[i].content)
  {
  }

  /** The joined context opens with the nearest row's content and closes with
      the last kept row's content. */
  lemma ContextOrder(question: string, ranked: seq<Row>)
    requires ranked != []
    ensures var chunks := Contents(ranked[..Min(TopK, |ranked|)]);
      StartsWith(Join(chunks, ContextSeparator), ranked[0].content)
      && EndsWith(Join(chunks, ContextSeparator), ranked[Min(TopK, |ranked|) - 1].content)
  {
    var chunks := Contents(ranked[..Min(TopK, |ranked|)]);
    JoinStartsWithFirst(chunks, ContextSeparator);
    JoinEndsWithLast(chunks, ContextSeparator);
  }
}

/** Answering a question over the two File Search stores
    (core/query_engine.py): the conversation handed to the model, the list of
    stores it searches, the answer and citations taken from its response, and
    the session title. The model is an oracle: `respond` maps the contents and
    store names to a response, or to None when `generate_content` raises; a
    title reply is None when the call
    raises or its text is None. */
module QueryEngine {
  import opened Common
  import Config
  import StoreManager

  // ---- conversation ----

  /** A stored message as `history` holds it: `{"role", "content"}`. */
  datatype HistoryEntry = HistoryEntry(role: string, content: string)

  /** `types.Content(role=..., parts=[types.Part(text=...)])`. */
  datatype Content = Content(role: string, text: string)

  /** `_build_conversation_contents`: one entry per history message, in
      order, then the new message as a `user` entry. */
  method BuildConversationContents(history: seq<HistoryEntry>, message: string) returns (contents: seq<Content>)
    ensures |contents| == |history| + 1
    ensures forall i :: 0 <= i < |history| ==> contents[i] == Content(history[i].role, history[i].content)
    ensures contents[|history|] == Content("user", message)
  {
    contents := [];
    for i := 0 to |history|
      invariant |contents| == i
      invariant forall k :: 0 <= k < i ==> contents[k] == Content(history[k].role, history[k].content)
    {
      contents := contents + [Content(history[i].role, history[i].content)];
    }
    contents := contents + [Content("user", message)];
  }

  // ---- citations ----

  /** An attribute of an SDK object: missing, present but None, or a string. */
  datatype Attr = Missing | Null | Value(s: string)

  /** `chunk.retrieved_context`: its `title` and `uri`. A context that is
      present but None has neither attribute. */
  datatype RetrievedContext = RetrievedContext(title: Attr, uri: Attr)

  /** A grounding chunk: its `retrieved_context` (None when the attribute is
      missing) and its `text`. */
  datatype Chunk = Chunk(context: Option<RetrievedContext>, text: Attr)

  /** `metadata.grounding_chunks`: absent, None, or a list. */
  datatype ChunkList = NoChunksAttribute | NullChunks | Chunks(chunks: seq<Chunk>)

  /** A candidate and its `grounding_metadata` (None when missing). */
  datatype Candidate = Candidate(metadata: Option<ChunkList>)

  /** The model's response: its `text` and its `candidates` (None when missing). */
  datatype Response = Response(text: Option<string>, candidates: Option<seq<Candidate>>)

  /** A value stored in a citation dictionary: a string or None (JSON `null`). */
  datatype Field = NullField | Text(s: string)

  /** A citation dictionary: for each key, absent (None) or its value. */
  datatype Citation = Citation(title: Option<Field>, uri: Option<Field>, text: Option<Field>)

  /** `_parse_citations`'s outcome: the list, or the exception that escapes
      its `except (AttributeError, IndexError)` (iterating over None or
      indexing None raises `TypeError`). */
  datatype CitationsOutcome = Parsed(citations: seq<Citation>) | Raised

  /** `getattr(ctx, name, "")`: the default only when the attribute is
      missing; a None attribute is copied as None. */
  function GetAttrOr(a: Attr, default: string): (r: Field)
    ensures a.Missing? ==> r == Text(default)
    ensures a.Null? <==> r == NullField
    ensures a.Value? ==> r == Text(a.s)
  {
    match a
    case Missing => Text(default)
    case Null => NullField
    case Value(s) => Text(s)
  }

  /** `citation["text"] = chunk.text` under `hasattr(chunk, "text")`: no key
      for a missing attribute; otherwise its value, None included. */
  function TextEntry(a: Attr): (r: Option<Field>)
    ensures r.None? <==> a.Missing?
    ensures a.Null? ==> r == Some(NullField)
    ensures a.Value? ==> r == Some(Text(a.s))
  {
    match a
    case Missing => None
    case Null => Some(NullField)
    case Value(s) => Some(Text(s))
  }

  /** The dictionary built for one chunk: `title` and `uri` exactly when it
      has a retrieved context, `text` exactly when it has that attribute. */
  function CitationOf(chunk: Chunk): (r: Citation)
    ensures r.title.Some? <==> chunk.context.Some?
    ensures r.uri.Some? <==> chunk.context.Some?
    ensures r.text.Some? <==> !chunk.text.Missing?
    ensures chunk.context.Some? ==>
              r.title == Some(GetAttrOr(chunk.context.value.title, "")) && r.uri == Some(GetAttrOr(chunk.context.value.uri, ""))
    ensures r.text == TextEntry(chunk.text)
  {
    match chunk.context
    case Some(ctx) => Citation(Some(GetAttrOr(ctx.title, "")), Some(GetAttrOr(ctx.uri, "")), TextEntry(chunk.text))
    case None => Citation(None, None, TextEntry(chunk.text))
  }

  /** `if citation:` — a dictionary with at least one key. */
  predicate NonEmpty(c: Citation)
  {
    c.title.Some? || c.uri.Some? || c.text.Some?
  }

  /** The citations of a chunk list: one per chunk that yields a non-empty dictionary. */
  function ChunkCitations(chunks: seq<Chunk>): (r: seq<Citation>)
    decreases |chunks|
    ensures |r| <= |chunks|
  {
    if chunks == [] then []
    else
      var n := |chunks| - 1;
      var c := CitationOf(chunks[n]);
      ChunkCitations(chunks[..n]) + if NonEmpty(c) then [c] else []
  }

  /** Which chunks `_parse_citations` walks: none when there is no first
      candidate (IndexError caught), no metadata or no chunk attribute; a
      `TypeError` when the list or the chunks are None. */
  function ChunksOf(resp: Response): Option<seq<Chunk>>
  {
    match resp.candidates
    case None => None
    case Some(cands) =>
      if cands == [] then Some([])
      else match cands[0].metadata
           case None => Some([])
           case Some(NoChunksAttribute) => Some([])
           case Some(NullChunks) => None
           case Some(Chunks(cs)) => Some(cs)
  }

  /** `_parse_citations`. */
  method ParseCitations(resp: Response) returns (r: CitationsOutcome)
    ensures ChunksOf(resp).None? ==> r == Raised
    ensures ChunksOf(resp).Some? ==> r == Parsed(ChunkCitations(ChunksOf(resp).value))
  {
    var chunks := ChunksOf(resp);
    if chunks.None? {
      return Raised;
    }
    var cs := chunks.value;
    var citations := [];
    for i := 0 to |cs|
      invariant citations == ChunkCitations(cs[..i])
    {
      var c := CitationOf(cs[i]);
      assert cs[..i + 1][..i] == cs[..i];
      if NonEmpty(c) {
        citations := citations + [c];
      }
    }
    assert cs[..|cs|] == cs;
    return Parsed(citations);
  }

  /** Every collected citation is non-empty, and the citations are exactly
      the non-empty dictionaries built from the chunks. */
  lemma {:induction false} ChunkCitationsSpec(chunks: seq<Chunk>)
    decreases |chunks|
    ensures forall c :: c in ChunkCitations(chunks) ==> NonEmpty(c)
    ensures forall c :: c in ChunkCitations(chunks) <==> exists i :: 0 <= i < |chunks| && c == CitationOf(chunks[i]) && NonEmpty(c)
  {
    if chunks != [] {
      var n := |chunks| - 1;
      ChunkCitationsSpec(chunks[..n]);
      assert forall i :: 0 <= i < n ==> chunks[..n][i] == chunks[i];
    }
  }

  /** A chunk that has a retrieved context always yields a citation, with
      its title and uri defaulting to `""`; so when every chunk has one,
      there is one citation per chunk. */
  lemma {:induction false} ContextChunksCited(chunks: seq<Chunk>)
    requires forall i :: 0 <= i < |chunks| ==> chunks[i].context.Some?
    decreases |chunks|
    ensures |ChunkCitations(chunks)| == |chunks|
  {
    if chunks != [] {
      var n := |chunks| - 1;
      ContextChunksCited(chunks[..n]);
      assert NonEmpty(CitationOf(chunks[n]));
    }
  }

  // ---- the query ----

  const NoAnswer: string := "답변을 생성할 수 없습니다."

  /** `response.text if response.text else "답변을 생성할 수 없습니다."` */
  function AnswerText(text: Option<string>): (r: string)
    ensures r == NoAnswer <==> text.None? || text.value == "" || text.value == NoAnswer
    ensures r != ""
  {
    match text
    case Some(t) => if t != "" then t else NoAnswer
    case None => NoAnswer
  }

  /** The dictionary `query` returns. */
  datatype QueryResult = QueryResult(answer: string, citations: seq<Citation>, model: string)

  /** The store lookups of `query`: the primary store first, then the
      correction store when `useCorrectionStore`. `created*` are the names the
      service would give a store it has to create. */
  method StoreNames(service: StoreManager.StoreService, useCorrectionStore: bool,
                    createdPrimary: string, createdCorrection: string)
    returns (names: seq<string>)
    modifies service
    ensures service.stores == StoreListAfter(old(service.stores), useCorrectionStore, createdPrimary, createdCorrection)
    ensures |names| == if useCorrectionStore then 2 else 1
    ensures StoreManager.FindStore(service.stores, Config.PrimaryStoreDisplayName).Some?
    ensures names[0] == service.stores[StoreManager.FindStore(service.stores, Config.PrimaryStoreDisplayName).value].name
    ensures useCorrectionStore ==>
              && StoreManager.FindStore(service.stores, Config.CorrectionStoreDisplayName).Some?
              && names[1] == service.stores[StoreManager.FindStore(service.stores, Config.CorrectionStoreDisplayName).value].name
  {
    var primary := service.GetOrCreateStore(Config.PrimaryStoreDisplayName, createdPrimary);
    names := [primary];
    if useCorrectionStore {
      ghost var before := service.stores;
      var correction := service.GetOrCreateStore(Config.CorrectionStoreDisplayName, createdCorrection);
      PrimaryStillFound(before, service.stores, createdCorrection);
      names := names + [correction];
    }
  }

  /** The store list after the lookups of `query`: the primary store looked
      up or created, then the correction store when it is asked for. Only
      missing configured stores are appended; existing stores stay in place. */
  function StoreListAfter(stores: seq<StoreManager.StoreRecord>, useCorrectionStore: bool,
                          createdPrimary: string, createdCorrection: string): (r: seq<StoreManager.StoreRecord>)
    ensures |stores| <= |r| <= |stores| + 2
    ensures r[..|stores|] == stores
    ensures StoreManager.FindStore(stores, Config.PrimaryStoreDisplayName).Some? &&
            (!useCorrectionStore || StoreManager.FindStore(stores, Config.CorrectionStoreDisplayName).Some?) ==>
              r == stores
  {
    var p := StoreManager.WithStore(stores, Config.PrimaryStoreDisplayName, createdPrimary);
    if useCorrectionStore then
      var c := StoreManager.WithStore(p, Config.CorrectionStoreDisplayName, createdCorrection);
      assert c[..|stores|] == c[..|p|][..|stores|];
      c
    else p
  }

  /** Creating the correction store does not move the primary store. */
  lemma PrimaryStillFound(before: seq<StoreManager.StoreRecord>, after: seq<StoreManager.StoreRecord>, created: string)
    requires StoreManager.FindStore(before, Config.PrimaryStoreDisplayName).Some?
    requires after == before ||
             (StoreManager.FindStore(before, Config.CorrectionStoreDisplayName).None?
              && after == before + [StoreManager.StoreRecord(created, Some(Config.CorrectionStoreDisplayName), [])])
    ensures StoreManager.FindStore(after, Config.PrimaryStoreDisplayName) == StoreManager.FindStore(before, Config.PrimaryStoreDisplayName)
  {
    if after != before {
      assert Config.PrimaryStoreDisplayName[5] != Config.CorrectionStoreDisplayName[5];
      StoreManager.FindAfterCreate(before, Config.CorrectionStoreDisplayName, created, Config.PrimaryStoreDisplayName);
    }
  }

  /** `query`: the store names, the conversation, then the answer and the
      citations of the response. None when `query` raises: the model call is
      not guarded, and `_parse_citations` can raise `TypeError`. */
  method Query(service: StoreManager.StoreService, message: string, history: Option<seq<HistoryEntry>>,
               useCorrectionStore: bool, createdPrimary: string, createdCorrection: string,
               modelName: string, respond: (seq<Content>, seq<string>) -> Option<Response>)
    returns (result: Option<QueryResult>, contents: seq<Content>, names: seq<string>)
    modifies service
    ensures service.stores == StoreListAfter(old(service.stores), useCorrectionStore, createdPrimary, createdCorrection)
    ensures var h := if history.Some? then history.value else [];
            && |contents| == |h| + 1
            && (forall i :: 0 <= i < |h| ==> contents[i] == Content(h[i].role, h[i].content))
            && contents[|h|] == Content("user", message)
    ensures |names| == if useCorrectionStore then 2 else 1
    ensures StoreManager.FindStore(service.stores, Config.PrimaryStoreDisplayName).Some?
    ensures names[0] == service.stores[StoreManager.FindStore(service.stores, Config.PrimaryStoreDisplayName).value].name
    ensures useCorrectionStore ==>
              && StoreManager.FindStore(service.stores, Config.CorrectionStoreDisplayName).Some?
              && names[1] == service.stores[StoreManager.FindStore(service.stores, Config.CorrectionStoreDisplayName).value].name
    ensures respond(contents, names).None? ==> result.None?
    ensures respond(contents, names).Some? ==>
            var resp := respond(contents, names).value;
            && (ChunksOf(resp).None? ==> result.None?)
            && (ChunksOf(resp).Some? ==>
                  result == Some(QueryResult(AnswerText(resp.text), ChunkCitations(ChunksOf(resp).value), modelName)))
  {
    var h := if history.Some? then history.value else [];
    names := StoreNames(service, useCorrectionStore, createdPrimary, createdCorrection);
    contents := BuildConversationContents(h, message);
    var reply := respond(contents, names);
    if reply.None? {
      return None, contents, names;
    }
    var resp := reply.value;
    var answer := AnswerText(resp.text);
    var citations := ParseCitations(resp);
    if citations.Raised? {
      return None, contents, names;
    }
    result := Some(QueryResult(answer, citations.citations, modelName));
  }

  // ---- session title ----

  const TitleLimit: nat := 30
  const FallbackLimit: nat := 20

  /** `response.text.strip().strip('"').strip("'")`, cut to 30 characters. */
  function TitleFromReply(text: string): (r: string)
    ensures |r| <= TitleLimit
  {
    var title := StripChars(StripChars(Strip(text), {'"'}), {'\''});
    if |title| > TitleLimit then title[..TitleLimit] else title
  }

  /** `first_message[:20] + "..."` for a message longer than 20 characters. */
  function FallbackTitle(first: string): (r: string)
    ensures |first| <= FallbackLimit ==> r == first
    ensures |first| > FallbackLimit ==> r == first[..FallbackLimit] + "..." && |r| == FallbackLimit + 3
  {
    if |first| > FallbackLimit then first[..FallbackLimit] + "..." else first
  }

  /** `generate_session_title`: the cleaned reply, or the fallback when the
      call fails. */
  function GenerateSessionTitle(first: string, reply: Option<string>): (r: string)
    ensures reply.Some? ==> r == TitleFromReply(reply.value)
    ensures reply.None? ==> r == FallbackTitle(first)
  {
    match reply
    case Some(text) => TitleFromReply(text)
    case None => FallbackTitle(first)
  }

  /** A title is never longer than 30 characters, whichever path made it. */
  lemma TitleBounded(first: string, reply: Option<string>)
    ensures |GenerateSessionTitle(first, reply)| <= TitleLimit
  {
  }

  /** A reply that needs no cleaning and fits is the title as given. */
  lemma CleanReplyKept(text: string)
    requires |text| <= TitleLimit
    requires text == [] || (!IsPySpace(text[0]) && !IsPySpace(text[|text| - 1]))
    requires text == [] || (text[0] !in {'"', '\''} && text[|text| - 1] !in {'"', '\''})
    ensures TitleFromReply(text) == text
  {
    StripNothing(text, IsPySpace);
    StripCharsNothing(text, {'"'});
    StripCharsNothing(text, {'\''});
  }
}

/**
 * The small decisions of a turn: whether a turn is dropped, which remote service a query goes
 * to, which grounding chunks become web sources, and the status shown to the user.
 */
module Routing {
  import opened Wrappers
  import opened Text

  const VisualKeywords: seq<string> := ["see", "look at", "what is this", "describe this", "analyze this image"]
  const SearchKeywords: seq<string> := ["search for", "look up", "what's the latest", "who won", "news about"]

  /** `keywords.some(kw => lowerText.includes(kw))`. */
  predicate AnyIn(lowerText: string, keywords: seq<string>) {
    exists i :: 0 <= i < |keywords| && Contains(lowerText, keywords[i])
  }

  /** The service a turn that passed the guard goes to. */
  datatype Route = Visual | Search | Chat

  /** A visual query goes to the camera only when a camera is present; otherwise a search
      query goes to grounded search, and anything else to the chat session. */
  function RouteOf(text: string, hasCamera: bool): (r: Route)
    ensures r == Visual <==> AnyIn(Lower(text), VisualKeywords) && hasCamera
    ensures r == Search <==> AnyIn(Lower(text), SearchKeywords) && !(AnyIn(Lower(text), VisualKeywords) && hasCamera)
  {
    var lowerText := Lower(text);
    if AnyIn(lowerText, VisualKeywords) && hasCamera then Visual
    else if AnyIn(lowerText, SearchKeywords) then Search
    else Chat
  }

  /** Upper-case letters do not stop a keyword from matching. */
  lemma CaseBlindRouting(text: string, hasCamera: bool)
    ensures RouteOf(Lower(text), hasCamera) == RouteOf(text, hasCamera)
  {
    LowerLower(text);
  }

  /** Visual words win over search words only with a camera: a text holding both goes to the
      camera when there is one and to search when there is none. */
  lemma VisualBeatsSearchOnlyWithCamera(text: string)
    requires AnyIn(Lower(text), VisualKeywords) && AnyIn(Lower(text), SearchKeywords)
    ensures RouteOf(text, true) == Visual && RouteOf(text, false) == Search
  {
  }

  /** `!text.trim() || isLoading || !chatRef.current`: the turn is dropped (after recall missed)
      when its text is blank, a reply is pending or there is no chat session. */
  predicate Dropped(text: string, isLoading: bool, chatReady: bool)
  {
    Trim(text) == "" || isLoading || !chatReady
  }

  /** A turn is dropped exactly when its text is all white space (the empty text included),
      a reply is pending or there is no chat session. */
  lemma DroppedExactly(text: string, isLoading: bool, chatReady: bool)
    ensures Dropped(text, isLoading, chatReady) <==>
      (forall i :: 0 <= i < |text| ==> IsSpace(text[i])) || isLoading || !chatReady
  {
    TrimEmpty(text);
  }

  /** The status the assistant shows; App never derives `Idle`. */
  datatype Status = Listening | Thinking | Speaking | Idle

  function DeriveStatus(isLoading: bool, isSpeaking: bool): (r: Status)
    ensures r != Idle
    ensures r == Thinking <==> isLoading
    ensures r == Speaking <==> !isLoading && isSpeaking
    ensures r == Listening <==> !isLoading && !isSpeaking
  {
    if isLoading then Thinking
    else if isSpeaking then Speaking
    else Listening
  }

  // ---- web sources of a grounded answer

  datatype WebRef = WebRef(uri: Option<string>, title: Option<string>)

  /** A grounding chunk as the service returns it. */
  datatype Chunk = Chunk(web: Option<WebRef>)

  /** A source shown to the user. */
  datatype WebSource = WebSource(uri: string, title: string)

  /** `source.web && source.web.uri`. */
  predicate HasUri(c: Chunk) {
    c.web.Some? && c.web.value.uri.Some? && c.web.value.uri.value != ""
  }

  /** The shown source of a chunk with a URI; the title falls back to the URI when missing or empty. */
  function SourceOf(c: Chunk): (w: WebSource)
    requires HasUri(c)
    ensures w.uri == c.web.value.uri.value && w.uri != "" && w.title != ""
  {
    var web := c.web.value;
    var title := if web.title.Some? && web.title.value != "" then web.title.value else web.uri.value;
    WebSource(web.uri.value, title)
  }

  /** `sources.filter(...).map(...)`. */
  function FilterSources(cs: seq<Chunk>): (r: seq<WebSource>)
    ensures |r| <= |cs|
    ensures forall w :: w in r ==> w.uri != "" && w.title != ""
  {
    if |cs| == 0 then []
    else if HasUri(cs[0]) then [SourceOf(cs[0])] + FilterSources(cs[1..])
    else FilterSources(cs[1..])
  }

  /** Filtering works chunk by chunk: the sources of two runs of chunks are the sources of the
      first followed by those of the second, so order is kept and nothing is merged. */
  lemma {:induction false} FilterSourcesAppend(a: seq<Chunk>, b: seq<Chunk>)
    ensures FilterSources(a + b) == FilterSources(a) + FilterSources(b)
  {
    if |a| > 0 {
      assert (a + b)[1..] == a[1..] + b;
      FilterSourcesAppend(a[1..], b);
    } else {
      assert a + b == b;
    }
  }

  /** A chunk with a URI yields its source and a chunk without one yields nothing; with
      `FilterSourcesAppend` this fixes the result of any list of chunks. */
  lemma FilterSourcesOne(c: Chunk)
    ensures FilterSources([c]) == if HasUri(c) then [SourceOf(c)] else []
  {
    assert [c][1..] == [];
  }
}

/** `ai_client.py`: the retry loop of `AIClient.generate_text` and the
    response-shape dispatch of `AIClient.embed_text`. The HTTP endpoint is a
    parameter: the reply to each request is given, already decoded from
    JSON when it is JSON. */
module AiClient {
  import opened Outcomes

  /** A decoded JSON value. */
  datatype Json =
    | JNull
    | JBool(b: bool)
    | JNum(r: real)
    | JStr(s: string)
    | JArr(items: seq<Json>)
    | JObj(fields: map<string, Json>)

  /** The exceptions the client raises. */
  datatype ApiError =
    | GenerationFailed(status: int, body: string)
    | RetriesExhausted
    | EmbeddingFailed(status: int, body: string)
    | UnknownFormat
    | MissingKey
    | NotJson
    | NoVectors

  // ---------------------------------------------------------------------
  // generate_text
  // ---------------------------------------------------------------------

  /** One HTTP reply of the generation endpoint; `json` is `None` when the
      body is not valid JSON. */
  datatype GenReply = GenReply(status: int, text: string, json: Option<Json>)

  /** What `generate_text` returns: the text at the expected place in the
      response, or, when the response does not have that shape, the whole
      decoded response (returned as `str(data)`). */
  datatype Generated = Answer(text: Json) | Dump(data: Json)

  /** The maximum number of requests `generate_text` makes. */
  const MaxAttempts: nat := 4

  /** `data[key]` on a JSON object holding `key`; anything else raises. */
  function Field(j: Json, key: string): Option<Json>
  {
    if j.JObj? && key in j.fields then Some(j.fields[key]) else None
  }

  /** `data[0]` followed by a key lookup: only a non-empty array gives an
      element that can be looked up further (a string's first character is
      a string, and indexing a string by a key raises). */
  function Head(j: Json): Option<Json>
  {
    if j.JArr? && j.items != [] then Some(j.items[0]) else None
  }

  /** `data["candidates"][0]["content"]["parts"][0]["text"]`, or `None` when
      any step raises. */
  function CandidateText(data: Json): (t: Option<Json>)
    ensures t.Some? ==> data.JObj? && "candidates" in data.fields
  {
    var candidates := Field(data, "candidates");
    if candidates.None? then None else
    var first := Head(candidates.value);
    if first.None? then None else
    var content := Field(first.value, "content");
    if content.None? then None else
    var parts := Field(content.value, "parts");
    if parts.None? then None else
    var part := Head(parts.value);
    if part.None? then None else
    Field(part.value, "text")
  }

  /** `j[key]` is `v`. */
  predicate At(j: Json, key: string, v: Json) {
    j.JObj? && key in j.fields && j.fields[key] == v
  }

  /** `j[0]` is `v`. */
  predicate FirstItem(j: Json, v: Json) {
    j.JArr? && j.items != [] && j.items[0] == v
  }

  /** The text is found in every response that has it at
      `candidates[0].content.parts[0].text`, whatever other keys and items
      the response holds at any level. */
  lemma CandidateTextFound(data: Json, candidates: Json, candidate: Json, content: Json,
                           parts: Json, part: Json, t: Json)
    requires At(data, "candidates", candidates) && FirstItem(candidates, candidate)
    requires At(candidate, "content", content) && At(content, "parts", parts)
    requires FirstItem(parts, part) && At(part, "text", t)
    ensures CandidateText(data) == Some(t)
  {
  }

  /** A response that is not a JSON object never yields a text. */
  lemma CandidateTextNeedsObject(data: Json)
    requires !data.JObj?
    ensures CandidateText(data) == None
  {
  }

  /** A status that `generate_text` retries after waiting. */
  predicate Transient(status: int) {
    status == 503 || status == 429
  }

  /** How `generate_text` ends on a reply it does not retry. */
  function Settle(reply: GenReply): (r: Result<Generated, ApiError>)
    ensures r.Ok? <==> reply.status == 200 && reply.json.Some?
    ensures reply.status != 200 ==> r.Err? && r.error.GenerationFailed? && r.error.status == reply.status
    ensures r.Ok? ==> (r.value.Answer? <==> CandidateText(reply.json.value).Some?)
    ensures r.Ok? && r.value.Answer? ==> Some(r.value.text) == CandidateText(reply.json.value)
    ensures r.Ok? && r.value.Dump? ==> r.value.data == reply.json.value
  {
    if reply.status == 200 then
      match reply.json
      case None => Err(NotJson)
      case Some(data) =>
        var t := CandidateText(data);
        if t.Some? then Ok(Answer(t.value)) else Ok(Dump(data))
    else Err(GenerationFailed(reply.status, reply.text))
  }

  /** The first request, from `i` on and below `MaxAttempts`, whose reply is
      not retried; `MaxAttempts` when every reply is. */
  function FirstSettled(server: nat -> GenReply, i: nat): (k: nat)
    requires i <= MaxAttempts
    ensures i <= k <= MaxAttempts
    ensures forall j :: i <= j < k ==> Transient(server(j).status)
    ensures k < MaxAttempts ==> !Transient(server(k).status)
    decreases MaxAttempts - i
  {
    if i == MaxAttempts || !Transient(server(i).status) then i
    else FirstSettled(server, i + 1)
  }

  function Pow2(j: nat): nat
  {
    if j == 0 then 1 else 2 * Pow2(j - 1)
  }

  /** `generate_text(prompt)`: request `server(0)`, `server(1)`, ... until a
      reply is not 429/503, at most `MaxAttempts` times, sleeping 1, 2, 4, ...
      seconds after each retried reply. The ghost results count the requests
      and log the sleeps. */
  method GenerateText(server: nat -> GenReply)
    returns (r: Result<Generated, ApiError>, ghost requests: nat, ghost waits: seq<nat>)
    ensures r == (if FirstSettled(server, 0) < MaxAttempts
                  then Settle(server(FirstSettled(server, 0)))
                  else Err(RetriesExhausted))
    ensures r == Err(RetriesExhausted) <==> forall j :: 0 <= j < MaxAttempts ==> Transient(server(j).status)
    ensures var k := FirstSettled(server, 0);
      && requests == (if k < MaxAttempts then k + 1 else MaxAttempts)
      && |waits| == k
      && (forall j :: 0 <= j < k ==> waits[j] == Pow2(j))
  {
    var backoff: nat := 1;
    requests := 0;
    waits := [];
    for attempt := 0 to MaxAttempts
      invariant requests == attempt && |waits| == attempt && backoff == Pow2(attempt)
      invariant forall j :: 0 <= j < attempt ==> Transient(server(j).status) && waits[j] == Pow2(j)
      invariant FirstSettled(server, 0) == FirstSettled(server, attempt)
    {
      var resp := server(attempt);
      requests := requests + 1;
      if resp.status == 200 {
        match resp.json {
          case None =>
            r := Err(NotJson);
          case Some(data) =>
            var t := CandidateText(data);
            if t.Some? {
              r := Ok(Answer(t.value));
            } else {
              r := Ok(Dump(data));
            }
        }
        return;
      } else {
        if resp.status == 503 || resp.status == 429 {
          waits := waits + [backoff];
          backoff := backoff * 2;
          continue;
        }
        r := Err(GenerationFailed(resp.status, resp.text));
        return;
      }
    }
    r := Err(RetriesExhausted);
  }

  /** When all four replies are 429 or 503, no reply settles the call, so
      `generate_text` sleeps 1, 2, 4 and 8 seconds and raises
      `RetriesExhausted`. */
  lemma AllTransient(server: nat -> GenReply)
    requires forall j :: 0 <= j < MaxAttempts ==> Transient(server(j).status)
    ensures FirstSettled(server, 0) == MaxAttempts
    ensures seq(MaxAttempts, (j: nat) => Pow2(j)) == [1, 2, 4, 8]
  {
  }

  /** A reply of status 200 ends the call at the first request, whatever
      comes after it. */
  lemma FirstOkSettles(server: nat -> GenReply)
    requires server(0).status == 200
    ensures FirstSettled(server, 0) == 0
  {
  }

  // ---------------------------------------------------------------------
  // embed_text
  // ---------------------------------------------------------------------

  /** One element of an embedding response's list, with the two keys it may
      hold. */
  datatype Entry = Entry(values: Option<Vector>, embedding: Option<Vector>)

  /** A decoded embedding response: the two top-level keys it may hold. */
  datatype EmbedBody = EmbedBody(embeddings: Option<seq<Entry>>, data: Option<seq<Entry>>)

  /** One HTTP reply of the embedding endpoint; `body` is `None` when it is
      not valid JSON. */
  datatype EmbedReply = EmbedReply(status: int, text: string, body: Option<EmbedBody>)

  /** The vector an entry gives: under `"embeddings"` its `"values"`, else its
      `"embedding"`; under `"data"` only its `"embedding"`. */
  function Pick(e: Entry, gemini: bool): Option<Vector>
  {
    if gemini && e.values.Some? then e.values else e.embedding
  }

  /** The list comprehension over the entries: one vector per entry, in
      order, or `MissingKey` when some entry lacks the key it needs. */
  function DecodeEntries(es: seq<Entry>, gemini: bool): (r: Result<seq<Vector>, ApiError>)
    ensures r.Ok? <==> forall i :: 0 <= i < |es| ==> Pick(es[i], gemini).Some?
    ensures r.Ok? ==> |r.value| == |es| && forall i :: 0 <= i < |es| ==> r.value[i] == Pick(es[i], gemini).value
    ensures r.Err? ==> r.error == MissingKey
  {
    if es == [] then Ok([])
    else
      var v := Pick(es[0], gemini);
      var rest := DecodeEntries(es[1..], gemini);
      if v.None? then Err(MissingKey)
      else if rest.Err? then
        assert forall i :: 1 <= i < |es| ==> es[i] == es[1..][i - 1];
        rest
      else
        assert forall i :: 1 <= i < |es| ==> es[i] == es[1..][i - 1];
        Ok([v.value] + rest.value)
  }

  /** The response-shape dispatch: `"embeddings"` first, then `"data"`,
      otherwise `UnknownFormat`. */
  function DecodeBody(b: EmbedBody): (r: Result<seq<Vector>, ApiError>)
    ensures r.Err? ==> r.error == UnknownFormat || r.error == MissingKey
    ensures r.Ok? && b.embeddings.Some? ==> |r.value| == |b.embeddings.value|
    ensures r.Ok? && b.embeddings.None? ==> b.data.Some? && |r.value| == |b.data.value|
  {
    if b.embeddings.Some? then DecodeEntries(b.embeddings.value, true)
    else if b.data.Some? then DecodeEntries(b.data.value, false)
    else Err(UnknownFormat)
  }

  /** `embed_text(texts)` for a list of texts, given the endpoint's reply. */
  function EmbedMany(reply: EmbedReply): (r: Result<seq<Vector>, ApiError>)
    ensures reply.status != 200 ==> r == Err(EmbeddingFailed(reply.status, reply.text))
    ensures reply.status == 200 && reply.body.None? ==> r == Err(NotJson)
  {
    if reply.status != 200 then Err(EmbeddingFailed(reply.status, reply.text))
    else if reply.body.None? then Err(NotJson)
    else DecodeBody(reply.body.value)
  }

  /** `embed_text(text)` for a single text: the first vector of the reply. */
  function EmbedOne(reply: EmbedReply): (r: Result<Vector, ApiError>)
    ensures EmbedMany(reply).Ok? && EmbedMany(reply).value != [] <==> r.Ok?
    ensures r.Ok? ==> r.value == EmbedMany(reply).value[0]
    ensures EmbedMany(reply).Err? ==> r == Err(EmbedMany(reply).error)
  {
    var many := EmbedMany(reply);
    if many.Err? then Err(many.error)
    else if many.value == [] then Err(NoVectors)
    else Ok(many.value[0])
  }

  /** The `"embeddings"` key wins: whatever `"data"` holds is ignored. */
  lemma EmbeddingsFirst(es: seq<Entry>, d1: Option<seq<Entry>>, d2: Option<seq<Entry>>)
    ensures DecodeBody(EmbedBody(Some(es), d1)) == DecodeBody(EmbedBody(Some(es), d2))
  {
  }

  /** A body with neither top-level key is rejected, and one with either key
      is not rejected for its format. */
  lemma UnknownFormatExactly(b: EmbedBody)
    ensures DecodeBody(b) == Err(UnknownFormat) <==> b.embeddings.None? && b.data.None?
  {
  }

  function GeminiEntries(vs: seq<Vector>): (es: seq<Entry>)
    ensures |es| == |vs|
    ensures forall i :: 0 <= i < |vs| ==> es[i] == Entry(Some(vs[i]), None)
  {
    if vs == [] then [] else [Entry(Some(vs[0]), None)] + GeminiEntries(vs[1..])
  }

  function DataEntries(vs: seq<Vector>): (es: seq<Entry>)
    ensures |es| == |vs|
    ensures forall i :: 0 <= i < |vs| ==> es[i] == Entry(None, Some(vs[i]))
  {
    if vs == [] then [] else [Entry(None, Some(vs[0]))] + DataEntries(vs[1..])
  }

  /** Vectors sent back in either response shape are read back unchanged and
      in order. */
  lemma DecodeRoundTrip(vs: seq<Vector>)
    ensures DecodeBody(EmbedBody(Some(GeminiEntries(vs)), None)) == Ok(vs)
    ensures DecodeBody(EmbedBody(None, Some(DataEntries(vs)))) == Ok(vs)
  {
    var g := DecodeEntries(GeminiEntries(vs), true);
    assert g.Ok? && |g.value| == |vs|;
    assert g.value == vs;
    var d := DecodeEntries(DataEntries(vs), false);
    assert d.Ok? && |d.value| == |vs|;
    assert d.value == vs;
  }
}

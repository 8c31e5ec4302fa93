/** `rag_utils.py`: cutting chunks into pieces small enough for the
    embedding endpoint, and the retrieval helper that embeds them into a
    vector store and searches it. */
module RagUtils {
  import opened PyText
  import opened Outcomes
  import opened EmbeddingsUtils
  import AiClient

  /** `MAX_EMBED_CHARS`: the default piece length, in characters. */
  const MaxEmbedChars: int := 600

  // ---------------------------------------------------------------------
  // split_for_embedding
  // ---------------------------------------------------------------------

  /** Where `split_for_embedding` cuts a text longer than `maxChars`: at the
      last `' '` among the first `maxChars` characters, or at `maxChars` when
      there is none. A text that starts with a visible character is always
      cut after at least one character. */
  function CutPos(t: string, maxChars: int): (p: int)
    requires 1 <= maxChars < |t|
    requires !IsSpace(t[0])
    ensures 1 <= p <= maxChars
    ensures p < maxChars ==> t[p] == ' ' && forall j :: p < j < maxChars ==> t[j] != ' '
    ensures p == maxChars ==> forall j :: 0 <= j < maxChars ==> t[j] != ' '
  {
    var head := t[..maxChars];
    var i := RFind(head, ' ');
    assert forall j :: 0 <= j < maxChars ==> head[j] == t[j];
    if i == -1 then maxChars else i
  }

  /** The pieces `split_for_embedding` produces from a text `t` that has no
      leading whitespace: cut at `CutPos`, strip what is left, repeat while
      the rest is longer than `maxChars`, and keep a non-empty remainder.
      With `maxChars == 0` only the empty text ends the loop, with no
      pieces; with a negative `maxChars` the loop never ends. */
  function EmbedParts(t: string, maxChars: int): (parts: seq<string>)
    requires maxChars >= 1 || (maxChars == 0 && t == [])
    requires t == [] || !IsSpace(t[0])
    decreases |t|
  {
    if |t| > maxChars then
      var p := CutPos(t, maxChars);
      [t[..p]] + EmbedParts(Strip(t[p..]), maxChars)
    else if t == [] then []
    else [t]
  }

  /** One cut of the splitter. */
  lemma EmbedPartsStep(t: string, maxChars: int)
    requires 1 <= maxChars < |t| && !IsSpace(t[0])
    ensures var p := CutPos(t, maxChars);
      EmbedParts(t, maxChars) == [t[..p]] + EmbedParts(Strip(t[p..]), maxChars)
  {
  }

  /** `split_for_embedding(text, max_chars)`. */
  method SplitForEmbedding(text: string, maxChars: int) returns (chunks: seq<string>)
    requires maxChars >= 1 || (maxChars == 0 && Strip(text) == [])
    ensures chunks == EmbedParts(Strip(text), maxChars)
  {
    chunks := [];
    var t := Strip(text);
    while |t| > maxChars
      invariant t == [] || !IsSpace(t[0])
      invariant maxChars >= 1 || (maxChars == 0 && t == [])
      invariant chunks + EmbedParts(t, maxChars) == EmbedParts(Strip(text), maxChars)
      decreases |t|
    {
      assert maxChars >= 1;
      var splitPos := RFind(t[..maxChars], ' ');
      if splitPos == -1 {
        splitPos := maxChars;
      }
      assert splitPos == CutPos(t, maxChars);
      SplitStep(chunks, t, maxChars, splitPos);
      chunks := chunks + [t[..splitPos]];
      t := Strip(t[splitPos..]);
    }
    EmbedPartsLast(t, maxChars);
    if t != [] {
      chunks := chunks + [t];
    } else {
      assert chunks + [] == chunks;
    }
  }

  /** One turn of the loop: the piece cut off, followed by the pieces of
      the stripped rest, are the pieces of the text. */
  lemma SplitStep(chunks: seq<string>, t: string, maxChars: int, splitPos: int)
    requires 1 <= maxChars < |t| && !IsSpace(t[0])
    requires splitPos == CutPos(t, maxChars)
    ensures var rest := Strip(t[splitPos..]);
      && (rest == [] || !IsSpace(rest[0]))
      && (chunks + [t[..splitPos]]) + EmbedParts(rest, maxChars) == chunks + EmbedParts(t, maxChars)
  {
    var rest := Strip(t[splitPos..]);
    StripShape(t[splitPos..]);
    EmbedPartsStep(t, maxChars);
    ConcatAssoc(chunks, [t[..splitPos]], EmbedParts(rest, maxChars));
  }

  /** What is left once it fits in `maxChars` is the last piece, if any. */
  lemma EmbedPartsLast(t: string, maxChars: int)
    requires maxChars >= 1 || (maxChars == 0 && t == [])
    requires t == [] || !IsSpace(t[0])
    requires |t| <= maxChars
    ensures EmbedParts(t, maxChars) == if t == [] then [] else [t]
  {
  }

  /** A piece as `split_for_embedding` emits it: non-empty, at most
      `maxChars` characters, starting with a visible character. */
  predicate GoodPiece(piece: string, maxChars: int) {
    1 <= |piece| <= maxChars && !IsSpace(piece[0])
  }

  /** Every piece is non-empty, no longer than `maxChars` and starts with a
      visible character. */
  lemma {:induction false} EmbedPartsShape(t: string, maxChars: int)
    requires maxChars >= 1 && (t == [] || !IsSpace(t[0]))
    ensures forall k :: 0 <= k < |EmbedParts(t, maxChars)| ==> GoodPiece(EmbedParts(t, maxChars)[k], maxChars)
    decreases |t|
  {
    if |t| > maxChars {
      var p := CutPos(t, maxChars);
      var rest := EmbedParts(Strip(t[p..]), maxChars);
      EmbedPartsShape(Strip(t[p..]), maxChars);
      EmbedPartsStep(t, maxChars);
      ConsIndex(t[..p], rest);
    }
  }

  /** The visible characters of the pieces after one cut: those of the
      first piece, then those of the pieces of the stripped rest. */
  lemma EmbedPartsVisibleStep(t: string, maxChars: int)
    requires 1 <= maxChars < |t| && !IsSpace(t[0])
    ensures var p := CutPos(t, maxChars);
      Visible(Join("", EmbedParts(t, maxChars)))
        == Visible(t[..p]) + Visible(Join("", EmbedParts(Strip(t[p..]), maxChars)))
  {
    var p := CutPos(t, maxChars);
    var rest := EmbedParts(Strip(t[p..]), maxChars);
    EmbedPartsStep(t, maxChars);
    ConcatCons(t[..p], rest);
    VisibleAppend(t[..p], Join("", rest));
  }

  /** Cutting a text in two loses no visible character. */
  lemma VisibleCut(t: string, p: nat)
    requires p <= |t|
    ensures Visible(t) == Visible(t[..p]) + Visible(t[p..])
  {
    var a, b := t[..p], t[p..];
    assert a + b == t;
    VisibleAppend(a, b);
  }

  /** The pieces hold exactly the visible characters of the text, in order:
      only whitespace is lost at the cuts. */
  lemma {:induction false} EmbedPartsVisible(t: string, maxChars: int)
    requires maxChars >= 1 && (t == [] || !IsSpace(t[0]))
    ensures Visible(Join("", EmbedParts(t, maxChars))) == Visible(t)
    decreases |t|
  {
    if |t| > maxChars {
      var p := CutPos(t, maxChars);
      EmbedPartsVisibleStep(t, maxChars);
      EmbedPartsVisible(Strip(t[p..]), maxChars);
      VisibleCut(t, p);
      VisibleStrip(t[p..]);
    } else if t != [] {
      assert Join("", [t]) == t;
    }
  }

  /** The pieces of a text hold exactly its visible characters, in order. */
  lemma SplitForEmbeddingVisible(text: string, maxChars: int)
    requires maxChars >= 1
    ensures Visible(Join("", EmbedParts(Strip(text), maxChars))) == Visible(text)
  {
    EmbedPartsVisible(Strip(text), maxChars);
    VisibleStrip(text);
  }

  /** A text that is empty or all whitespace gives no pieces, and any other
      text gives at least one. */
  lemma SplitForEmbeddingBlank(text: string, maxChars: int)
    requires maxChars >= 1 || (maxChars == 0 && Strip(text) == [])
    ensures EmbedParts(Strip(text), maxChars) == [] <==> AllSpace(text)
  {
    StripShape(text);
  }

  /** A text whose stripped form fits in `maxChars` gives that stripped form
      as its single piece. */
  lemma SplitForEmbeddingShort(text: string, maxChars: int)
    requires maxChars >= 1 && !AllSpace(text) && |Strip(text)| <= maxChars
    ensures EmbedParts(Strip(text), maxChars) == [Strip(text)]
  {
    StripShape(text);
  }

  /** A text longer than `maxChars` is first cut just before the last `' '`
      among its first `maxChars` characters; only when there is no such
      space is it cut at exactly `maxChars`. */
  lemma SplitForEmbeddingFirstCut(t: string, maxChars: int)
    requires 1 <= maxChars < |t| && !IsSpace(t[0])
    ensures var first := EmbedParts(t, maxChars)[0];
      var p := |first|;
      && p <= |t| && first == t[..p]
      && ((p < maxChars && t[p] == ' ' && forall j :: p < j < maxChars ==> t[j] != ' ')
          || (p == maxChars && forall j :: 0 <= j < maxChars ==> t[j] != ' '))
  {
    EmbedPartsStep(t, maxChars);
  }

  // ---------------------------------------------------------------------
  // RAGHelper.build_index and RAGHelper.retrieve
  // ---------------------------------------------------------------------

  /** `BATCH`: the number of pieces sent to the embedding endpoint at once. */
  const Batch: nat := 3

  /** The pieces of one large chunk, as `build_index` cuts it. */
  function Pieces(chunk: string): seq<string>
  {
    EmbedParts(Strip(chunk), MaxEmbedChars)
  }

  /** The pieces of every chunk, one list per chunk. */
  function PieceLists(chunks: seq<string>): (pl: seq<seq<string>>)
    ensures |pl| == |chunks|
    ensures forall i :: 0 <= i < |chunks| ==> pl[i] == Pieces(chunks[i])
  {
    seq(|chunks|, i requires 0 <= i < |chunks| => Pieces(chunks[i]))
  }

  /** The lists one after the other. */
  function Flatten(pl: seq<seq<string>>): seq<string>
  {
    if pl == [] then [] else pl[0] + Flatten(pl[1..])
  }

  lemma {:induction false} FlattenSnoc(pl: seq<seq<string>>, last: seq<string>)
    ensures Flatten(pl + [last]) == Flatten(pl) + last
  {
    if pl == [] {
      assert pl + [last] == [last];
    } else {
      assert (pl + [last])[1..] == pl[1..] + [last];
      FlattenSnoc(pl[1..], last);
    }
  }

  /** The metadata of one chunk's pieces: each piece with the chunk's position. */
  function TagPieces(chunkId: int, parts: seq<string>): (ms: seq<Meta>)
    ensures |ms| == |parts|
    ensures forall j :: 0 <= j < |parts| ==> ms[j] == Meta(chunkId, parts[j])
  {
    if parts == [] then [] else [Meta(chunkId, parts[0])] + TagPieces(chunkId, parts[1..])
  }

  lemma TagPiecesSnoc(chunkId: int, parts: seq<string>, part: string)
    ensures TagPieces(chunkId, parts + [part]) == TagPieces(chunkId, parts) + [Meta(chunkId, part)]
  {
  }

  /** Every piece of every list with the position of its list. */
  function Tag(pl: seq<seq<string>>): seq<Meta>
  {
    if pl == [] then [] else Tag(pl[..|pl| - 1]) + TagPieces(|pl| - 1, pl[|pl| - 1])
  }

  /** `all_embed_texts`: the pieces of all chunks, chunk after chunk. */
  function AllPieces(chunks: seq<string>): seq<string>
  {
    Flatten(PieceLists(chunks))
  }

  /** `all_metas`: the metadata of all chunks' pieces, chunk after chunk. */
  function Tagged(chunks: seq<string>): seq<Meta>
  {
    Tag(PieceLists(chunks))
  }

  /** The tags carry the pieces in order: the `j`-th tag's text is the
      `j`-th piece. */
  lemma {:induction false} TagTexts(pl: seq<seq<string>>)
    ensures |Tag(pl)| == |Flatten(pl)|
    ensures forall j :: 0 <= j < |Tag(pl)| ==> Tag(pl)[j].text == Flatten(pl)[j]
    decreases |pl|
  {
    if pl != [] {
      var init := pl[..|pl| - 1];
      var last := pl[|pl| - 1];
      TagTexts(init);
      assert pl == init + [last];
      FlattenSnoc(init, last);
    }
  }

  /** Where the pieces of list `i` start in the flattened list: after the
      pieces of all lists before it. */
  function Offset(pl: seq<seq<string>>, i: nat): nat
    requires i <= |pl|
  {
    |Flatten(pl[..i])|
  }

  /** Piece `k` of list `i` sits at `Offset(pl, i) + k` among the tags,
      tagged with `i`. */
  predicate TaggedAt(pl: seq<seq<string>>, i: nat, k: nat)
    requires i < |pl| && k < |pl[i]|
  {
    Offset(pl, i) + k < |Tag(pl)| && Tag(pl)[Offset(pl, i) + k] == Meta(i, pl[i][k])
  }

  lemma {:induction false} TagAt(pl: seq<seq<string>>, i: nat, k: nat)
    requires i < |pl| && k < |pl[i]|
    ensures TaggedAt(pl, i, k)
    decreases |pl|
  {
    var n := |pl| - 1;
    var init, last := pl[..n], pl[n];
    assert Tag(pl) == Tag(init) + TagPieces(n, last);
    TagTexts(init);
    if i < n {
      TagAt(init, i, k);
      assert init[..i] == pl[..i];
    } else {
      assert pl[..i] == init;
    }
  }

  /** Every piece is tagged with the position of its own list, even when an
      equal piece occurs in another list. */
  lemma TagPositions(pl: seq<seq<string>>)
    ensures forall i: nat, k: nat :: i < |pl| && k < |pl[i]| ==> TaggedAt(pl, i, k)
  {
    forall i: nat, k: nat | i < |pl| && k < |pl[i]| ensures TaggedAt(pl, i, k) {
      TagAt(pl, i, k);
    }
  }

  /** Each tag names its list by position, the positions never decrease,
      and the tag's text is an element of the list it names; element `k` of
      list `i` is tagged with `i` itself. */
  lemma {:induction false} TagIds(pl: seq<seq<string>>)
    ensures forall j :: 0 <= j < |Tag(pl)| ==> 0 <= Tag(pl)[j].chunkId < |pl| && Tag(pl)[j].text in pl[Tag(pl)[j].chunkId]
    ensures forall j, l :: 0 <= j <= l < |Tag(pl)| ==> Tag(pl)[j].chunkId <= Tag(pl)[l].chunkId
    ensures forall i: nat, k: nat :: i < |pl| && k < |pl[i]| ==> TaggedAt(pl, i, k)
    decreases |pl|
  {
    TagPositions(pl);
    if pl != [] {
      var init := pl[..|pl| - 1];
      TagIds(init);
      var a := Tag(init);
      var b := TagPieces(|pl| - 1, pl[|pl| - 1]);
      var ms := Tag(pl);
      assert ms == a + b;
      forall j | 0 <= j < |ms|
        ensures 0 <= ms[j].chunkId < |pl| && ms[j].text in pl[ms[j].chunkId]
      {
        if j < |a| {
          assert ms[j] == a[j];
          assert pl[a[j].chunkId] == init[a[j].chunkId];
        } else {
          assert ms[j] == b[j - |a|];
        }
      }
    }
  }

  /** In `build_index`, `metas[j].text == parts[j]`; `metas[j].chunk_id` is
      the position of a chunk that `parts[j]` is a piece of, and the ids never
      decrease along the list. Piece `k` of chunk `i` is tagged with `i`. */
  lemma TaggedChunks(chunks: seq<string>)
    ensures |Tagged(chunks)| == |AllPieces(chunks)|
    ensures forall j :: 0 <= j < |Tagged(chunks)| ==> Tagged(chunks)[j].text == AllPieces(chunks)[j]
    ensures forall j :: 0 <= j < |Tagged(chunks)| ==>
      0 <= Tagged(chunks)[j].chunkId < |chunks| && Tagged(chunks)[j].text in Pieces(chunks[Tagged(chunks)[j].chunkId])
    ensures forall j, l :: 0 <= j <= l < |Tagged(chunks)| ==> Tagged(chunks)[j].chunkId <= Tagged(chunks)[l].chunkId
    ensures forall i: nat, k: nat :: i < |chunks| && k < |PieceLists(chunks)[i]| ==> TaggedAt(PieceLists(chunks), i, k)
  {
    TagTexts(PieceLists(chunks));
    TagIds(PieceLists(chunks));
  }

  /** The consecutive slices `texts[i:i+BATCH]` for `i` in
      `range(0, len(texts), BATCH)`. */
  function Batches(texts: seq<string>): seq<seq<string>>
  {
    if texts == [] then []
    else if |texts| <= Batch then [texts]
    else [texts[..Batch]] + Batches(texts[Batch..])
  }

  /** The batches in order make up the pieces again, each piece exactly once. */
  lemma {:induction false} BatchesCover(texts: seq<string>)
    ensures Flatten(Batches(texts)) == texts
    decreases |texts|
  {
    if |texts| > Batch {
      BatchesCover(texts[Batch..]);
      assert texts[..Batch] + texts[Batch..] == texts;
    }
  }

  /** Every batch holds one to `BATCH` pieces, and there are
      `ceil(len(texts) / BATCH)` of them. */
  lemma {:induction false} BatchesSizes(texts: seq<string>)
    ensures forall k :: 0 <= k < |Batches(texts)| ==> 1 <= |Batches(texts)[k]| <= Batch
    ensures (|Batches(texts)| - 1) * Batch < |texts| <= |Batches(texts)| * Batch
    ensures texts == [] <==> Batches(texts) == []
    decreases |texts|
  {
    if |texts| > Batch {
      BatchesSizes(texts[Batch..]);
      var rest := Batches(texts[Batch..]);
      ConsIndex(texts[..Batch], rest);
    }
  }

  /** The vectors of all batches in order, each batch sent to the endpoint
      `post`; the first batch whose reply fails or holds no vector ends it
      (`vecs[0]` on an empty list raises). */
  function EmbedAll(post: seq<string> -> AiClient.EmbedReply, bs: seq<seq<string>>): Result<seq<Vector>, AiClient.ApiError>
  {
    if bs == [] then Ok([])
    else
      var v := AiClient.EmbedMany(post(bs[0]));
      if v.Err? then Err(v.error)
      else if v.value == [] then Err(AiClient.NoVectors)
      else
        var rest := EmbedAll(post, bs[1..]);
        if rest.Err? then rest else Ok(v.value + rest.value)
  }

  /** `texts[i:]`, empty once `i` is past the end. */
  function Drop(texts: seq<string>, i: nat): seq<string>
  {
    if i <= |texts| then texts[i..] else []
  }

  /** One iteration of the batching loop. */
  lemma BatchesStep(texts: seq<string>, i: nat)
    requires i < |texts|
    ensures Batches(Drop(texts, i)) == [texts[i..Min(i + Batch, |texts|)]] + Batches(Drop(texts, i + Batch))
  {
    var s := texts[i..];
    if |s| > Batch {
      assert s[..Batch] == texts[i..i + Batch];
      assert s[Batch..] == texts[i + Batch..];
    } else {
      assert Drop(texts, i + Batch) == [];
      assert s == texts[i..|texts|];
    }
  }

  /** The vectors gathered so far followed by those still to come, unless
      a later batch fails. */
  function Then(done: seq<Vector>, later: Result<seq<Vector>, AiClient.ApiError>): Result<seq<Vector>, AiClient.ApiError>
  {
    if later.Err? then later else Ok(done + later.value)
  }

  /** Gathering `a` and then `b` before what is still to come is gathering
      `a + b` before it. */
  lemma ThenThen(a: seq<Vector>, b: seq<Vector>, later: Result<seq<Vector>, AiClient.ApiError>)
    ensures Then(a, Then(b, later)) == Then(a + b, later)
  {
    if later.Ok? {
      ConcatAssoc(a, b, later.value);
    }
  }

  /** The exceptions `build_index` and `retrieve` let through. */
  datatype HelperError = Api(api: AiClient.ApiError) | Store(store: StoreError)

  /** A search result as `retrieve` returns it: score, text and chunk id. */
  datatype Context = Context(score: real, text: string, chunkId: int)

  /** The results of a search as `retrieve` reshapes them, in search order. */
  function Contexts(hits: seq<Hit>): (cs: seq<Context>)
    ensures |cs| == |hits|
    ensures forall j :: 0 <= j < |hits| ==> cs[j] == Context(hits[j].score, hits[j].meta.text, hits[j].meta.chunkId)
  {
    if hits == [] then [] else [Context(hits[0].score, hits[0].meta.text, hits[0].meta.chunkId)] + Contexts(hits[1..])
  }

  /** The loop of `retrieve` over the search results. */
  method CollectContexts(hits: seq<Hit>) returns (contexts: seq<Context>)
    ensures contexts == Contexts(hits)
  {
    contexts := [];
    for j := 0 to |hits|
      invariant |contexts| == j
      invariant forall l :: 0 <= l < j ==> contexts[l] == Context(hits[l].score, hits[l].meta.text, hits[l].meta.chunkId)
    {
      var h := hits[j];
      contexts := contexts + [Context(h.score, h.meta.text, h.meta.chunkId)];
    }
  }

  /** The inner loop of step 1 of `build_index`: append each piece of chunk
      `chunkId` to the texts, and its metadata to the metadata. */
  method AppendPieces(texts: seq<string>, metas: seq<Meta>, chunkId: int, smallParts: seq<string>)
    returns (texts': seq<string>, metas': seq<Meta>)
    ensures texts' == texts + smallParts
    ensures metas' == metas + TagPieces(chunkId, smallParts)
  {
    texts', metas' := texts, metas;
    for k := 0 to |smallParts|
      invariant texts' == texts + smallParts[..k]
      invariant metas' == metas + TagPieces(chunkId, smallParts[..k])
    {
      var part := smallParts[k];
      TakeSnoc(smallParts, k);
      ConcatAssoc(texts, smallParts[..k], [part]);
      TagPiecesSnoc(chunkId, smallParts[..k], part);
      ConcatAssoc(metas, TagPieces(chunkId, smallParts[..k]), [Meta(chunkId, part)]);
      texts' := texts' + [part];
      metas' := metas' + [Meta(chunkId, part)];
    }
    assert smallParts[..|smallParts|] == smallParts;
  }

  /** Step 1 of `build_index`: the pieces of every chunk, chunk after
      chunk, and beside each piece its metadata. */
  method CollectPieces(largeChunks: seq<string>) returns (allEmbedTexts: seq<string>, allMetas: seq<Meta>)
    ensures allEmbedTexts == AllPieces(largeChunks)
    ensures allMetas == Tagged(largeChunks)
  {
    allEmbedTexts := [];
    allMetas := [];
    ghost var all := PieceLists(largeChunks);
    ghost var lists: seq<seq<string>> := [];
    for chunkId := 0 to |largeChunks|
      invariant lists == all[..chunkId]
      invariant allEmbedTexts == Flatten(lists)
      invariant allMetas == Tag(lists)
    {
      var smallParts := SplitForEmbedding(largeChunks[chunkId], MaxEmbedChars);
      allEmbedTexts, allMetas := AppendPieces(allEmbedTexts, allMetas, chunkId, smallParts);
      FlattenSnoc(lists, smallParts);
      assert (lists + [smallParts])[..chunkId] == lists;
      assert smallParts == all[chunkId];
      TakeSnoc(all, chunkId);
      lists := lists + [smallParts];
    }
    assert lists == all;
  }

  /** Step 2 of `build_index`: send the texts to the endpoint `post` in
      consecutive batches of `BATCH` and gather the vectors in batch order.
      The ghost result `sent` logs the batches sent: all of them, unless a
      reply fails first. */
  method EmbedBatches(post: seq<string> -> AiClient.EmbedReply, texts: seq<string>)
    returns (r: Result<seq<Vector>, AiClient.ApiError>, ghost sent: seq<seq<string>>)
    ensures r == EmbedAll(post, Batches(texts))
    ensures |sent| <= |Batches(texts)| && sent == Batches(texts)[..|sent|]
    ensures r.Ok? ==> sent == Batches(texts)
  {
    var vectors: seq<Vector> := [];
    ghost var bs := Batches(texts);
    sent := [];
    var i: nat := 0;
    assert Drop(texts, 0) == texts;
    assert [] + bs == bs;
    assert EmbedAll(post, bs).Ok? ==> [] + EmbedAll(post, bs).value == EmbedAll(post, bs).value;
    while i < |texts|
      invariant sent + Batches(Drop(texts, i)) == bs
      invariant EmbedAll(post, bs) == Then(vectors, EmbedAll(post, Batches(Drop(texts, i))))
      decreases |texts| - i
    {
      var batchTexts := texts[i..Min(i + Batch, |texts|)];
      BatchesStep(texts, i);
      ghost var later := Batches(Drop(texts, i + Batch));
      ConcatAssoc(sent, [batchTexts], later);
      sent := sent + [batchTexts];
      var vecs := AiClient.EmbedMany(post(batchTexts));
      if vecs.Err? {
        return Err(vecs.error), sent;
      }
      if vecs.value == [] {
        return Err(AiClient.NoVectors), sent;
      }
      assert EmbedAll(post, [batchTexts] + later) == Then(vecs.value, EmbedAll(post, later));
      ThenThen(vectors, vecs.value, EmbedAll(post, later));
      vectors := vectors + vecs.value;
      i := i + Batch;
    }
    assert Batches(Drop(texts, i)) == [];
    assert vectors + [] == vectors;
    r := Ok(vectors);
  }

  /** `RAGHelper`: an embedding endpoint and the vector store it fills. */
  class RagHelper {
    /** The embedding endpoint of `self.client`: its reply to a list of texts. */
    const post: seq<string> -> AiClient.EmbedReply
    /** The similarity the store ranks by. */
    const sim: (Vector, Vector) -> real
    /** `self.store`. */
    const store: VectorStore

    ghost predicate Valid()
      reads this, store
    {
      store.Valid()
    }

    /** `RAGHelper(client)`: a helper with a fresh, empty store. */
    constructor(post: seq<string> -> AiClient.EmbedReply, sim: (Vector, Vector) -> real)
      ensures this.post == post && this.sim == sim
      ensures fresh(store) && store.vectors == None && store.metadatas == []
      ensures Valid()
    {
      this.post := post;
      this.sim := sim;
      store := new VectorStore();
    }

    /** `build_index(large_chunks)`: cut every chunk into pieces tagged with
        the chunk's position, embed the pieces in batches of `BATCH`, and add
        the vectors and the metadata to the store in one call. The ghost
        result `sent` logs the batches sent. */
    method BuildIndex(largeChunks: seq<string>)
      returns (r: Result<(), HelperError>, ghost sent: seq<seq<string>>)
      requires Valid()
      modifies store
      ensures Valid()
      ensures |sent| <= |Batches(AllPieces(largeChunks))|
      ensures sent == Batches(AllPieces(largeChunks))[..|sent|]
      ensures EmbedAll(post, Batches(AllPieces(largeChunks))).Ok? ==> sent == Batches(AllPieces(largeChunks))
      ensures r.Ok? <==>
        && EmbedAll(post, Batches(AllPieces(largeChunks))).Ok?
        && Accepts(old(store.vectors), EmbedAll(post, Batches(AllPieces(largeChunks))).value)
      ensures r.Ok? ==>
        && store.vectors == Some(Stack(old(store.vectors), EmbedAll(post, Batches(AllPieces(largeChunks))).value))
        && store.metadatas == old(store.metadatas) + Tagged(largeChunks)
      ensures r.Err? ==> store.vectors == old(store.vectors) && store.metadatas == old(store.metadatas)
    {
      var allEmbedTexts, allMetas := CollectPieces(largeChunks);
      var vectors;
      vectors, sent := EmbedBatches(post, allEmbedTexts);
      if vectors.Err? {
        return Err(Api(vectors.error)), sent;
      }
      var added := store.Add(vectors.value, allMetas);
      if added.Err? {
        return Err(Store(added.error)), sent;
      }
      r := Ok(());
    }

    /** `retrieve(question, top_k)`: embed the question and search the store
        with it; one `(score, text, chunk_id)` per search result, in search
        order. The ghost results are the search's own result and ranking. */
    method Retrieve(question: string, topK: int)
      returns (r: Result<seq<Context>, HelperError>, ghost hits: Result<seq<Hit>, StoreError>, ghost picked: seq<int>)
      requires Valid()
      ensures var q := AiClient.EmbedOne(post([question]));
        && (q.Err? ==> r == Err(Api(q.error)))
        && (q.Ok? ==>
              && Searched(store.vectors, store.metadatas, sim, q.value, topK, hits, picked)
              && (hits.Err? ==> r == Err(Store(hits.error)))
              && (hits.Ok? ==> r == Ok(Contexts(hits.value))))
    {
      hits := Ok([]);
      picked := [];
      var qvec := AiClient.EmbedOne(post([question]));
      if qvec.Err? {
        return Err(Api(qvec.error)), hits, picked;
      }
      var results;
      results, picked := store.Search(sim, qvec.value, topK);
      hits := results;
      if results.Err? {
        return Err(Store(results.error)), hits, picked;
      }
      var contexts := CollectContexts(results.value);
      r := Ok(contexts);
    }
  }
}

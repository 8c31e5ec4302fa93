/** `embeddings_utils.py`: `InMemoryVectorStore`, an append-only table of
    vectors and their metadata with a top-k similarity search. The
    similarity (cosine similarity in the source) is a parameter. */
module EmbeddingsUtils {
  import opened Outcomes

  /** The metadata stored beside each vector: the chunk it came from and
      the text that was embedded. */
  datatype Meta = Meta(chunkId: int, text: string)

  /** One search result: the similarity score and the record's metadata. */
  datatype Hit = Hit(score: real, meta: Meta)

  /** The exceptions `add` and `search` raise (from numpy, scikit-learn or
      list indexing). */
  datatype StoreError =
    | RaggedRows        // `np.array` of rows of different lengths
    | WidthMismatch     // `np.vstack` of rows of different widths
    | BadQuery          // `cosine_similarity` rejects the shapes
    | MissingMetadata   // `self.metadatas[i]` past the end of the list

  /** All rows have the same length, so they form a matrix. */
  predicate Rectangular(rows: seq<Vector>) {
    forall i :: 0 <= i < |rows| ==> |rows[i]| == |rows[0]|
  }

  /** The rows of the stored array; none before the first `add`. A stored
      `Some([])` is the one-dimensional array of shape (0,) that
      `np.array([])` makes: a matrix `add` stores always has a row. */
  function Rows(vectors: Option<seq<Vector>>): seq<Vector>
  {
    if vectors.Some? then vectors.value else []
  }

  /** The length of `xs[:k]` for a list of length `n`: Python's slice
      clamps a non-negative `k` to `n`, and a negative `k` drops that many
      items from the end. */
  function SliceLen(n: nat, k: int): nat
  {
    if k >= 0 then (if k <= n then k else n)
    else if n + k >= 0 then n + k
    else 0
  }

  /** The score of every row against the query, in row order. */
  function Scores(sim: (Vector, Vector) -> real, query: Vector, rows: seq<Vector>): (s: seq<real>)
    ensures |s| == |rows|
    ensures forall i :: 0 <= i < |rows| ==> s[i] == sim(query, rows[i])
  {
    if rows == [] then [] else [sim(query, rows[0])] + Scores(sim, query, rows[1..])
  }

  /** `idx` ranks records by score: its entries are distinct record
      positions, their scores do not increase, and no record left out
      scores above a record taken. */
  predicate RankedByScore(scores: seq<real>, idx: seq<int>) {
    && (forall j :: 0 <= j < |idx| ==> 0 <= idx[j] < |scores|)
    && (forall j, l :: 0 <= j < l < |idx| ==> idx[j] != idx[l])
    && (forall j, l :: 0 <= j < l < |idx| ==> scores[idx[j]] >= scores[idx[l]])
    && (forall u, j :: 0 <= u < |scores| && u !in idx && 0 <= j < |idx| ==> scores[u] <= scores[idx[j]])
  }

  /** `s` with every occurrence of `x` removed. */
  function Without(s: seq<int>, x: int): (r: seq<int>)
    ensures |r| <= |s|
    ensures x in s ==> |r| < |s|
    ensures forall y :: y in r <==> y in s && y != x
  {
    if s == [] then []
    else (if s[0] == x then [] else [s[0]]) + Without(s[1..], x)
  }

  /** Pigeonhole: a list that holds every position below `n` has at least
      `n` entries. */
  lemma {:induction false} HoldsAllPositions(s: seq<int>, n: nat)
    requires forall u :: 0 <= u < n ==> u in s
    ensures |s| >= n
    decreases n
  {
    if n > 0 {
      var r := Without(s, n - 1);
      forall u | 0 <= u < n - 1 ensures u in r {
        assert u in s;
      }
      HoldsAllPositions(r, n - 1);
    }
  }

  /** The record order `sims.argsort()[::-1][:top_k]` gives: `count`
      records, best first. Records of equal score may come in any order. */
  method TopIndices(scores: seq<real>, count: nat) returns (idx: seq<int>)
    requires count <= |scores|
    ensures |idx| == count && RankedByScore(scores, idx)
  {
    idx := [];
    while |idx| < count
      invariant |idx| <= count && RankedByScore(scores, idx)
      decreases count - |idx|
    {
      var best := -1;
      for i := 0 to |scores|
        invariant best == -1 ==> forall u :: 0 <= u < i ==> u in idx
        invariant best != -1 ==> 0 <= best < i && best !in idx
        invariant best != -1 ==> forall u :: 0 <= u < i && u !in idx ==> scores[u] <= scores[best]
      {
        if i !in idx && (best == -1 || scores[i] > scores[best]) {
          best := i;
        }
      }
      if best == -1 {
        HoldsAllPositions(idx, |scores|);
        assert false;
      }
      idx := idx + [best];
    }
  }

  /** The number of columns `np.vstack` sees in `np.array(vs)`: an empty
      list gives the shape (0,), which `vstack` reads as one row of width 0. */
  function Width(vs: seq<Vector>): nat
  {
    if vs == [] then 0 else |vs[0]|
  }

  /** The rows `np.vstack` takes from `np.array(vs)`: the rows themselves,
      or a single row of width 0 for the array of shape (0,). */
  function AsRows(vs: seq<Vector>): (rows: seq<Vector>)
    ensures rows != [] && Width(rows) == Width(vs)
  {
    if vs == [] then [[]] else vs
  }

  /** Whether `add` accepts `vs`: `np.array` makes a matrix of the rows, and
      `np.vstack` finds it as wide as what is stored. */
  predicate Accepts(vectors: Option<seq<Vector>>, vs: seq<Vector>) {
    && Rectangular(vs)
    && (vectors.Some? ==> Width(vectors.value) == Width(vs))
  }

  /** `self.vectors` after an accepted `add(vs)`: the new array on the first
      call, and `np.vstack([self.vectors, vecs])` after that. */
  function Stack(vectors: Option<seq<Vector>>, vs: seq<Vector>): seq<Vector>
  {
    if vectors.None? then vs else AsRows(vectors.value) + AsRows(vs)
  }

  /** Adding rows to a stored matrix appends them after the stored rows,
      which stay in place. */
  lemma StackAppends(rows: seq<Vector>, vs: seq<Vector>)
    requires rows != [] && vs != []
    ensures Stack(Some(rows), vs) == rows + vs
    ensures Stack(Some(rows), vs)[..|rows|] == rows
  {
  }

  /** `np.vstack` rejects every non-empty matrix with columns after a first
      `add([])`, and rejects `add([])` after a matrix with columns: the
      shape (0,) stacks as a row of width 0. */
  lemma EmptyAddMismatch(rows: seq<Vector>, vs: seq<Vector>)
    requires rows != [] && |rows[0]| > 0
    ensures !Accepts(Some([]), rows)
    ensures !Accepts(Some(rows), [])
  {
  }

  /** What `search` may return on a store holding `vectors` and `metadatas`:
      no results on an empty store; `BadQuery` when the query does not fit
      the matrix; otherwise the records of a ranking `picked` of the
      `top_k`-slice length, best first, or `MissingMetadata` when a picked
      record has no metadata. */
  predicate Searched(vectors: Option<seq<Vector>>, metadatas: seq<Meta>,
                     sim: (Vector, Vector) -> real, query: Vector, topK: int,
                     r: Result<seq<Hit>, StoreError>, picked: seq<int>)
  {
    if vectors.None? || metadatas == [] then r == Ok([])
    else
      var rows := vectors.value;
      if rows == [] || |rows[0]| == 0 || |query| != |rows[0]| then r == Err(BadQuery)
      else
        var scores := Scores(sim, query, rows);
        && |picked| == SliceLen(|rows|, topK)
        && RankedByScore(scores, picked)
        && (r.Ok? <==> forall j :: 0 <= j < |picked| ==> picked[j] < |metadatas|)
        && (r.Err? ==> r.error == MissingMetadata)
        && (r.Ok? ==>
              && |r.value| == |picked|
              && forall j :: 0 <= j < |picked| ==>
                   r.value[j] == Hit(scores[picked[j]], metadatas[picked[j]]))
  }

  /** The results loop of `search`: the score and metadata of each chosen
      record, in the chosen order; `MissingMetadata` when a chosen record has
      no metadata. */
  method CollectHits(sims: seq<real>, idx: seq<int>, metadatas: seq<Meta>)
    returns (r: Result<seq<Hit>, StoreError>)
    requires forall j :: 0 <= j < |idx| ==> 0 <= idx[j] < |sims|
    ensures r.Ok? <==> forall j :: 0 <= j < |idx| ==> idx[j] < |metadatas|
    ensures r.Err? ==> r.error == MissingMetadata
    ensures r.Ok? ==> |r.value| == |idx|
    ensures r.Ok? ==> forall j :: 0 <= j < |idx| ==> r.value[j] == Hit(sims[idx[j]], metadatas[idx[j]])
  {
    var results := [];
    for j := 0 to |idx|
      invariant |results| == j
      invariant forall l :: 0 <= l < j ==> idx[l] < |metadatas|
      invariant forall l :: 0 <= l < j ==> results[l] == Hit(sims[idx[l]], metadatas[idx[l]])
    {
      var i := idx[j];
      if i >= |metadatas| {
        return Err(MissingMetadata);
      }
      results := results + [Hit(sims[i], metadatas[i])];
    }
    r := Ok(results);
  }

  /** `InMemoryVectorStore`. */
  class VectorStore {
    /** `self.vectors`: `None` until the first `add`, then the matrix rows. */
    var vectors: Option<seq<Vector>>
    /** `self.metadatas`, one entry per added record. */
    var metadatas: seq<Meta>

    /** The stored rows always form a matrix. */
    ghost predicate Valid()
      reads this
    {
      Rectangular(Rows(vectors))
    }

    /** `InMemoryVectorStore()`: an empty store. */
    constructor()
      ensures vectors == None && metadatas == []
      ensures Valid()
    {
      vectors := None;
      metadatas := [];
    }

    /** `add(vectors, metadatas)`: stacks the rows under the stored array
        and appends the metadata to the list. Ragged rows, or an array whose
        width `np.vstack` reads differently from the stored one's, raise
        before anything changes; an empty list counts as one row of width 0.
        The two lists are not required to have the same length. */
    method Add(vs: seq<Vector>, ms: seq<Meta>) returns (r: Result<(), StoreError>)
      requires Valid()
      modifies this
      ensures Valid()
      ensures r.Ok? <==> Accepts(old(vectors), vs)
      ensures r.Ok? ==> vectors == Some(Stack(old(vectors), vs)) && metadatas == old(metadatas) + ms
      ensures r.Err? ==> vectors == old(vectors) && metadatas == old(metadatas)
    {
      if !(forall i :: 0 <= i < |vs| ==> |vs[i]| == |vs[0]|) {
        return Err(RaggedRows);
      }
      match vectors {
        case None =>
          vectors := Some(vs);
        case Some(rows) =>
          if Width(rows) != Width(vs) {
            return Err(WidthMismatch);
          }
          vectors := Some(AsRows(rows) + AsRows(vs));
      }
      metadatas := metadatas + ms;
      r := Ok(());
    }

    /** `search(query_vector, top_k)`: the `top_k` best-scoring records, best
        first, with their scores. An empty store gives no results. The ghost
        result `picked` is the record order chosen; records of equal score
        may come in any order. Nothing in the store changes. */
    method Search(sim: (Vector, Vector) -> real, query: Vector, topK: int)
      returns (r: Result<seq<Hit>, StoreError>, ghost picked: seq<int>)
      requires Valid()
      ensures Searched(vectors, metadatas, sim, query, topK, r, picked)
    {
      picked := [];
      if vectors.None? || |metadatas| == 0 {
        r := Ok([]);
        return;
      }
      var rows := vectors.value;
      if rows == [] || |rows[0]| == 0 || |query| != |rows[0]| {
        r := Err(BadQuery);
        return;
      }
      var sims := Scores(sim, query, rows);
      var idx := TopIndices(sims, SliceLen(|rows|, topK));
      picked := idx;
      r := CollectHits(sims, idx, metadatas);
    }
  }

  /** What a caller of `search` sees: an empty store gives no results; a
      successful search on a non-empty store gives the `top_k`-slice length
      of results, their scores never increase, and each carries metadata
      from the store. */
  lemma SearchedResult(vectors: Option<seq<Vector>>, metadatas: seq<Meta>,
                       sim: (Vector, Vector) -> real, query: Vector, topK: int,
                       r: Result<seq<Hit>, StoreError>, picked: seq<int>)
    requires Searched(vectors, metadatas, sim, query, topK, r, picked)
    ensures vectors.None? || metadatas == [] ==> r == Ok([])
    ensures r.Ok? && vectors.Some? && metadatas != [] ==> |r.value| == SliceLen(|vectors.value|, topK)
    ensures r.Ok? ==> forall j, l :: 0 <= j < l < |r.value| ==> r.value[j].score >= r.value[l].score
    ensures r.Ok? ==> forall j :: 0 <= j < |r.value| ==> r.value[j].meta in metadatas
  {
  }

  /** How many records a successful search of a non-empty store returns:
      `min(top_k, n)` for a non-negative `top_k`; a negative `top_k` leaves
      out that many of the lowest-ranked records, and all of them once it
      reaches `n`. */
  lemma SearchCount(vectors: Option<seq<Vector>>, metadatas: seq<Meta>,
                    sim: (Vector, Vector) -> real, query: Vector, topK: int,
                    r: Result<seq<Hit>, StoreError>, picked: seq<int>)
    requires Searched(vectors, metadatas, sim, query, topK, r, picked)
    requires r.Ok? && vectors.Some? && metadatas != []
    ensures topK >= 0 ==> |r.value| == (if topK <= |vectors.value| then topK else |vectors.value|)
    ensures topK < 0 ==> |r.value| == (if |vectors.value| + topK >= 0 then |vectors.value| + topK else 0)
  {
  }

  /** The records a ranking takes are the best ones: any record scoring
      strictly above a taken one is taken too. */
  lemma RankedTopScores(scores: seq<real>, idx: seq<int>, u: int, j: int)
    requires RankedByScore(scores, idx) && 0 <= u < |scores| && 0 <= j < |idx|
    requires scores[u] > scores[idx[j]]
    ensures u in idx
  {
  }
}

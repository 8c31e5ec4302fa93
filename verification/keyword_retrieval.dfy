/** The keyword retrieval of the question-answering panel in `app.py`: the
    question's long words are looked up in every chunk, the chunks that hold
    any of them are ranked by how many they hold, and the best five are
    written out as numbered contexts for the answer prompt. */
module KeywordRetrieval {
  import opened PyText

  /** `(score, i, c)`: a chunk's score, its position and its text. */
  datatype Match = Match(score: nat, idx: nat, text: string)

  /** How many matches are kept. */
  const TopCount: nat := 5

  // ---------------------------------------------------------------------
  // Keywords and scores
  // ---------------------------------------------------------------------

  /** The words longer than two characters, in order, repeats kept. */
  function LongWords(ws: seq<string>): (kw: seq<string>)
    ensures |kw| <= |ws|
    ensures forall w :: w in kw <==> w in ws && |w| > 2
    ensures forall w :: multiset(kw)[w] == if |w| > 2 then multiset(ws)[w] else 0
  {
    if ws == [] then []
    else
      assert ws == [ws[0]] + ws[1..];
      (if |ws[0]| > 2 then [ws[0]] else []) + LongWords(ws[1..])
  }

  /** The keywords of a question are the keywords of its parts, in order:
      with the one-word case, `LongWords` keeps each long word where it
      stands and drops each short one. */
  lemma {:induction false} LongWordsAppend(a: seq<string>, b: seq<string>)
    ensures LongWords(a + b) == LongWords(a) + LongWords(b)
  {
    if a == [] {
      assert a + b == b;
    } else {
      assert (a + b)[0] == a[0];
      assert (a + b)[1..] == a[1..] + b;
      LongWordsAppend(a[1..], b);
      ConcatAssoc(if |a[0]| > 2 then [a[0]] else [], LongWords(a[1..]), LongWords(b));
    }
  }

  /** A single word is kept exactly when it is longer than two characters. */
  lemma LongWordsOne(w: string)
    ensures LongWords([w]) == if |w| > 2 then [w] else []
  {
    assert [w][1..] == [];
  }

  /** `kw`: the lowercased question's whitespace-separated words that are
      longer than two characters. (`w.strip()` leaves a word unchanged.) */
  function Keywords(question: string): (kw: seq<string>)
    ensures |kw| <= |Split(Lower(question))|
    ensures forall w :: w in kw ==> |w| > 2 && w in Split(Lower(question))
  {
    LongWords(Split(Lower(question)))
  }

  /** `sum(1 for w in kw if w in text)`. */
  function CountIn(kw: seq<string>, text: string): (n: nat)
    ensures n <= |kw|
    ensures n == 0 <==> forall w :: w in kw ==> !Contains(text, w)
    ensures n == |kw| <==> forall w :: w in kw ==> Contains(text, w)
  {
    if kw == [] then 0
    else
      var rest := CountIn(kw[1..], text);
      assert forall w :: w in kw <==> w == kw[0] || w in kw[1..];
      (if Contains(text, kw[0]) then 1 else 0) + rest
  }

  /** A chunk's score: how many keyword entries, repeats counted, occur in
      the lowercased chunk. */
  function Score(kw: seq<string>, chunk: string): (n: nat)
    ensures n <= |kw|
    ensures n == 0 <==> forall w :: w in kw ==> !Contains(Lower(chunk), w)
  {
    CountIn(kw, Lower(chunk))
  }

  /** Counting over a list of keywords is counting over its two parts. */
  lemma {:induction false} CountInAppend(a: seq<string>, b: seq<string>, text: string)
    ensures CountIn(a + b, text) == CountIn(a, text) + CountIn(b, text)
  {
    if a != [] {
      assert (a + b)[0] == a[0];
      assert (a + b)[1..] == a[1..] + b;
      CountInAppend(a[1..], b, text);
    } else {
      assert a + b == b;
    }
  }

  lemma {:induction false} NoLongWords(ws: seq<string>)
    requires forall w :: w in ws ==> |w| <= 2
    ensures LongWords(ws) == []
  {
    if ws != [] {
      assert ws[0] in ws;
      forall w | w in ws[1..] ensures |w| <= 2 {
        assert w in ws;
      }
      NoLongWords(ws[1..]);
    }
  }

  /** A question with no word longer than two characters finds nothing. */
  lemma ShortWordsScoreZero(question: string, chunk: string)
    requires forall w :: w in Split(Lower(question)) ==> |w| <= 2
    ensures Keywords(question) == []
    ensures Score(Keywords(question), chunk) == 0
  {
    NoLongWords(Split(Lower(question)));
  }

  // ---------------------------------------------------------------------
  // The matches
  // ---------------------------------------------------------------------

  /** The chunks from position `from` on that score above zero, in order. */
  function MatchesFrom(kw: seq<string>, chunks: seq<string>, from: nat): seq<Match>
    decreases |chunks| - from
  {
    if from >= |chunks| then []
    else
      var score := Score(kw, chunks[from]);
      (if score > 0 then [Match(score, from, chunks[from])] else []) + MatchesFrom(kw, chunks, from + 1)
  }

  /** `matches` before sorting. */
  function Matches(kw: seq<string>, chunks: seq<string>): seq<Match>
  {
    MatchesFrom(kw, chunks, 0)
  }

  /** A match as the loop records it: the chunk at its position, with its
      score, which is positive. */
  predicate Recorded(m: Match, kw: seq<string>, chunks: seq<string>) {
    m.idx < |chunks| && m.text == chunks[m.idx] && m.score == Score(kw, chunks[m.idx]) && m.score > 0
  }

  /** Every match is a recorded chunk at position `from` or later. */
  lemma {:induction false} MatchesFromRecorded(kw: seq<string>, chunks: seq<string>, from: nat)
    ensures forall j :: 0 <= j < |MatchesFrom(kw, chunks, from)| ==>
      Recorded(MatchesFrom(kw, chunks, from)[j], kw, chunks) && from <= MatchesFrom(kw, chunks, from)[j].idx
    decreases |chunks| - from
  {
    if from < |chunks| {
      MatchesFromRecorded(kw, chunks, from + 1);
      var rest := MatchesFrom(kw, chunks, from + 1);
      var score := Score(kw, chunks[from]);
      if score > 0 {
        ConsIndex(Match(score, from, chunks[from]), rest);
      }
    }
  }

  /** The positions of the matches strictly increase. */
  lemma {:induction false} MatchesFromOrdered(kw: seq<string>, chunks: seq<string>, from: nat)
    ensures forall j, l :: 0 <= j < l < |MatchesFrom(kw, chunks, from)| ==>
      MatchesFrom(kw, chunks, from)[j].idx < MatchesFrom(kw, chunks, from)[l].idx
    decreases |chunks| - from
  {
    if from < |chunks| {
      MatchesFromOrdered(kw, chunks, from + 1);
      MatchesFromRecorded(kw, chunks, from + 1);
      var rest := MatchesFrom(kw, chunks, from + 1);
      var score := Score(kw, chunks[from]);
      if score > 0 {
        ConsIndex(Match(score, from, chunks[from]), rest);
      }
    }
  }

  /** Every chunk from position `from` on that scores above zero is matched. */
  lemma {:induction false} MatchesFromComplete(kw: seq<string>, chunks: seq<string>, from: nat)
    ensures forall i :: from <= i < |chunks| && Score(kw, chunks[i]) > 0 ==>
      Match(Score(kw, chunks[i]), i, chunks[i]) in MatchesFrom(kw, chunks, from)
    decreases |chunks| - from
  {
    if from < |chunks| {
      MatchesFromComplete(kw, chunks, from + 1);
    }
  }

  /** `for i, c in enumerate(document_chunks): ... matches.append((score, i, c))`. */
  method CollectMatches(kw: seq<string>, chunks: seq<string>) returns (matches: seq<Match>)
    ensures matches == Matches(kw, chunks)
  {
    matches := [];
    for i := 0 to |chunks|
      invariant matches + MatchesFrom(kw, chunks, i) == Matches(kw, chunks)
    {
      var textLower := Lower(chunks[i]);
      var score := CountIn(kw, textLower);
      ghost var later := MatchesFrom(kw, chunks, i + 1);
      if score > 0 {
        ConcatAssoc(matches, [Match(score, i, chunks[i])], later);
        matches := matches + [Match(score, i, chunks[i])];
      } else {
        assert MatchesFrom(kw, chunks, i) == later;
      }
    }
    assert matches + [] == matches;
  }

  /** Without keywords no chunk scores, so there are no matches. */
  lemma {:induction false} NoKeywordsNoMatches(chunks: seq<string>, from: nat)
    ensures MatchesFrom([], chunks, from) == []
    decreases |chunks| - from
  {
    if from < |chunks| {
      NoKeywordsNoMatches(chunks, from + 1);
    }
  }

  // ---------------------------------------------------------------------
  // sorted(matches, key=score, reverse=True)[:5]
  // ---------------------------------------------------------------------

  /** Puts `m` before the first match that scores no higher, so it stays
      after every match that scores strictly higher and before those that
      score the same. */
  function Insert(m: Match, sorted: seq<Match>): (r: seq<Match>)
    ensures |r| == |sorted| + 1
    ensures multiset(r) == multiset(sorted) + multiset{m}
  {
    if sorted == [] || sorted[0].score <= m.score then [m] + sorted
    else
      assert sorted == [sorted[0]] + sorted[1..];
      [sorted[0]] + Insert(m, sorted[1..])
  }

  /** Python's `sorted(matches, key=lambda x: x[0], reverse=True)`: by score,
      highest first; a stable sort, so matches of equal score keep their
      order. */
  function SortByScore(ms: seq<Match>): (r: seq<Match>)
    ensures |r| == |ms|
    ensures multiset(r) == multiset(ms)
  {
    if ms == [] then []
    else
      assert ms == [ms[0]] + ms[1..];
      Insert(ms[0], SortByScore(ms[1..]))
  }

  /** Scores highest first, and among equal scores positions in increasing
      order. */
  predicate Ranked(ms: seq<Match>) {
    forall j, l :: 0 <= j < l < |ms| ==>
      ms[j].score > ms[l].score || (ms[j].score == ms[l].score && ms[j].idx < ms[l].idx)
  }

  /** `m` comes before every element of `s` in that order. */
  predicate Precedes(m: Match, s: seq<Match>) {
    forall x :: x in s ==> m.score > x.score || (m.score == x.score && m.idx < x.idx)
  }

  /** A ranked list with a match in front that precedes all of it is ranked. */
  lemma RankedCons(h: Match, s: seq<Match>)
    requires Ranked(s) && Precedes(h, s)
    ensures Ranked([h] + s)
  {
    var r := [h] + s;
    forall j, l | 0 <= j < l < |r|
      ensures r[j].score > r[l].score || (r[j].score == r[l].score && r[j].idx < r[l].idx)
    {
      assert r[l] == s[l - 1];
      if j > 0 {
        assert r[j] == s[j - 1];
      }
    }
  }

  /** The head of a ranked list precedes its tail, which is ranked. */
  lemma RankedHead(s: seq<Match>)
    requires Ranked(s) && s != []
    ensures Ranked(s[1..]) && Precedes(s[0], s[1..])
  {
    forall x | x in s[1..] ensures s[0].score > x.score || (s[0].score == x.score && s[0].idx < x.idx) {
      var k :| 0 <= k < |s[1..]| && s[1..][k] == x;
      assert s[k + 1] == x;
    }
  }

  /** Inserting keeps the order when `m`'s position is below that of every
      element of equal score. */
  lemma {:induction false} InsertKeepsRanked(m: Match, sorted: seq<Match>)
    requires Ranked(sorted)
    requires forall x :: x in sorted ==> m.idx < x.idx
    ensures Ranked(Insert(m, sorted))
  {
    if sorted == [] {
      RankedCons(m, sorted);
    } else {
      var rest := sorted[1..];
      RankedHead(sorted);
      if sorted[0].score <= m.score {
        forall x | x in sorted ensures m.score > x.score || (m.score == x.score && m.idx < x.idx) {
          assert x == sorted[0] || x in rest;
        }
        RankedCons(m, sorted);
      } else {
        forall x | x in rest ensures m.idx < x.idx {
          assert x in sorted;
        }
        InsertKeepsRanked(m, rest);
        var ins := Insert(m, rest);
        forall x | x in ins ensures sorted[0].score > x.score || (sorted[0].score == x.score && sorted[0].idx < x.idx) {
          assert x in multiset(ins);
          assert x == m || x in multiset(rest);
        }
        RankedCons(sorted[0], ins);
      }
    }
  }

  /** Sorting matches whose positions strictly increase orders them by score,
      highest first, and equal scores by position: the order a stable sort
      gives. */
  lemma {:induction false} SortRanked(ms: seq<Match>)
    requires forall j, l :: 0 <= j < l < |ms| ==> ms[j].idx < ms[l].idx
    ensures Ranked(SortByScore(ms))
  {
    if ms != [] {
      var rest := ms[1..];
      SortRanked(rest);
      var sorted := SortByScore(rest);
      forall x | x in sorted ensures ms[0].idx < x.idx {
        assert x in multiset(sorted);
        assert x in multiset(rest);
        var k :| 0 <= k < |rest| && rest[k] == x;
        assert ms[k + 1] == x;
      }
      InsertKeepsRanked(ms[0], sorted);
    }
  }

  /** `sorted(...)[:5]`. */
  function Top(ms: seq<Match>): (r: seq<Match>)
  {
    var sorted := SortByScore(ms);
    sorted[..Min(TopCount, |sorted|)]
  }

  /** A prefix of a ranked list is ranked. */
  lemma RankedPrefix(s: seq<Match>, n: nat)
    requires Ranked(s) && n <= |s|
    ensures Ranked(s[..n])
  {
    forall j, l | 0 <= j < l < n
      ensures s[..n][j].score > s[..n][l].score || (s[..n][j].score == s[..n][l].score && s[..n][j].idx < s[..n][l].idx)
    {
      assert s[..n][j] == s[j] && s[..n][l] == s[l];
    }
  }

  /** What the first `n` entries of a ranked list leave out scores no higher
      than anything they keep. */
  lemma RankedPrefixBest(s: seq<Match>, n: nat)
    requires Ranked(s) && n <= |s|
    ensures forall m, t :: m in s && m !in s[..n] && t in s[..n] ==> m.score <= t.score
  {
    forall m, t | m in s && m !in s[..n] && t in s[..n] ensures m.score <= t.score {
      var k :| 0 <= k < |s| && s[k] == m;
      var i :| 0 <= i < n && s[..n][i] == t;
      assert forall q :: 0 <= q < n ==> s[..n][q] == s[q];
      assert k >= n;
      assert s[i] == t;
    }
  }

  /** The kept matches are the best: at most five, ranked, each one a match,
      and no match left out scores above a kept one. */
  lemma TopBest(ms: seq<Match>)
    requires forall j, l :: 0 <= j < l < |ms| ==> ms[j].idx < ms[l].idx
    ensures |Top(ms)| == Min(TopCount, |ms|)
    ensures Ranked(Top(ms))
    ensures forall t :: t in Top(ms) ==> t in ms
    ensures forall m, t :: m in ms && m !in Top(ms) && t in Top(ms) ==> m.score <= t.score
  {
    var sorted := SortByScore(ms);
    var n := Min(TopCount, |sorted|);
    SortRanked(ms);
    RankedPrefix(sorted, n);
    RankedPrefixBest(sorted, n);
    assert Top(ms) == sorted[..n];
    forall t | t in sorted[..n] ensures t in ms {
      assert t in multiset(sorted);
    }
    forall m | m in ms ensures m in sorted {
      assert m in multiset(ms);
    }
  }

  /** The keyword ranking as a whole: at most five entries, each a chunk
      with its positive score, ranked by score and then position, and no
      chunk that scores above zero but is left out scores above one that is
      kept. */
  lemma RetrievalBest(kw: seq<string>, chunks: seq<string>)
    ensures |Top(Matches(kw, chunks))| <= TopCount
    ensures Ranked(Top(Matches(kw, chunks)))
    ensures forall t :: t in Top(Matches(kw, chunks)) ==> Recorded(t, kw, chunks)
    ensures forall i, t ::
      (0 <= i < |chunks| && Score(kw, chunks[i]) > 0 && t in Top(Matches(kw, chunks)) &&
       Match(Score(kw, chunks[i]), i, chunks[i]) !in Top(Matches(kw, chunks)))
      ==> Score(kw, chunks[i]) <= t.score
  {
    var ms := Matches(kw, chunks);
    MatchesFromRecorded(kw, chunks, 0);
    MatchesFromOrdered(kw, chunks, 0);
    MatchesFromComplete(kw, chunks, 0);
    TopBest(ms);
    forall t | t in Top(ms) ensures Recorded(t, kw, chunks) {
      assert t in ms;
      var k :| 0 <= k < |ms| && ms[k] == t;
    }
  }

  // ---------------------------------------------------------------------
  // The prompt contexts
  // ---------------------------------------------------------------------

  /** `f"CONTEXT #{idx} (score {score}):\n{text}\n\n"`. */
  function ContextBlock(m: Match): string
  {
    "CONTEXT #" + ShowNat(m.idx) + " (score " + ShowNat(m.score) + "):\n" + m.text + "\n\n"
  }

  /** The blocks of all matches, one after the other. */
  function ContextsText(ms: seq<Match>): string
  {
    if ms == [] then [] else ContextsText(ms[..|ms| - 1]) + ContextBlock(ms[|ms| - 1])
  }

  /** `contexts_text += ...` over the matches. */
  method BuildContexts(matches: seq<Match>) returns (contextsText: string)
    ensures contextsText == ContextsText(matches)
  {
    contextsText := "";
    for j := 0 to |matches|
      invariant contextsText == ContextsText(matches[..j])
    {
      assert matches[..j + 1][..j] == matches[..j];
      contextsText := contextsText + ContextBlock(matches[j]);
    }
    assert matches[..|matches|] == matches;
  }

  /** The contexts of two lists of matches are the contexts of the first
      followed by those of the second. */
  lemma {:induction false} ContextsTextAppend(a: seq<Match>, b: seq<Match>)
    ensures ContextsText(a + b) == ContextsText(a) + ContextsText(b)
    decreases |b|
  {
    if b == [] {
      assert a + b == a;
    } else {
      var init := b[..|b| - 1];
      ContextsTextAppend(a, init);
      assert (a + b)[..|a + b| - 1] == a + init;
      ConcatAssoc(ContextsText(a), ContextsText(init), ContextBlock(b[|b| - 1]));
    }
  }

  /** Each block starts with `CONTEXT #`, followed by a run of digits that
      ends at a space and reads back as the chunk's position. */
  lemma ContextBlockHeader(m: Match)
    ensures |ContextBlock(m)| > 9 + |ShowNat(m.idx)|
    ensures ContextBlock(m)[..9] == "CONTEXT #"
    ensures ContextBlock(m)[9..9 + |ShowNat(m.idx)|] == ShowNat(m.idx)
    ensures ContextBlock(m)[9 + |ShowNat(m.idx)|] == ' '
    ensures ReadNat(ContextBlock(m)[9..9 + |ShowNat(m.idx)|]) == m.idx
  {
    var d := ShowNat(m.idx);
    var b := ContextBlock(m);
    var rest := " (score " + ShowNat(m.score) + "):\n" + m.text + "\n\n";
    assert b == "CONTEXT #" + d + rest;
    assert b[9..9 + |d|] == d;
    ShowNatRoundTrip(m.idx);
  }

  // ---------------------------------------------------------------------
  // The Ask button
  // ---------------------------------------------------------------------

  /** What the panel does: warn about a blank question, report that nothing
      matched, or pass the ranked matches and their contexts to the answer
      prompt. */
  datatype Answer = Blank | NoMatches | Prompt(matches: seq<Match>, contexts: string)

  /** The keyword retrieval behind the Ask button, for the chunks of the
      document. */
  method Ask(question: string, documentChunks: seq<string>) returns (a: Answer)
    ensures a == Blank <==> AllSpace(question)
    ensures !AllSpace(question) ==>
      var top := Top(Matches(Keywords(question), documentChunks));
      && (top == [] ==> a == NoMatches)
      && (top != [] ==> a == Prompt(top, ContextsText(top)))
  {
    if question == [] || Strip(question) == [] {
      assert AllSpace(question) by {
        StripShape(question);
      }
      return Blank;
    }
    assert !AllSpace(question) by {
      StripShape(question);
    }
    var kw := Keywords(question);
    var matches := CollectMatches(kw, documentChunks);
    matches := Top(matches);
    if matches == [] {
      return NoMatches;
    }
    var contextsText := BuildContexts(matches);
    a := Prompt(matches, contextsText);
  }
}

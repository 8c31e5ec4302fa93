/** `pdf_utils.py`: the clean-up applied to the text extracted from the pages
    of a PDF, and the word-window chunker `chunk_text`. */
module PdfUtils {
  import opened PyText

  // ---------------------------------------------------------------------
  // Text clean-up (extract_text_from_pdf after the pages are read)
  // ---------------------------------------------------------------------

  /** The pages whose extracted text is non-empty, in page order. */
  function NonEmptyPages(pages: seq<string>): (r: seq<string>)
    ensures forall i :: 0 <= i < |r| ==> r[i] != []
    ensures forall p :: multiset(r)[p] == if p != [] then multiset(pages)[p] else 0
  {
    if pages == [] then []
    else
      var init := NonEmptyPages(pages[..|pages| - 1]);
      var last := pages[|pages| - 1];
      assert pages == pages[..|pages| - 1] + [last];
      if last != [] then init + [last] else init
  }

  /** The pages kept from two runs of pages are those of the first run
      followed by those of the second: with the one-page case, every
      non-empty page is kept, in page order, and every empty one dropped. */
  lemma {:induction false} NonEmptyPagesAppend(a: seq<string>, b: seq<string>)
    ensures NonEmptyPages(a + b) == NonEmptyPages(a) + NonEmptyPages(b)
    decreases |b|
  {
    if b == [] {
      assert a + b == a;
    } else {
      var b' := b[..|b| - 1];
      var last := b[|b| - 1];
      assert (a + b)[..|a + b| - 1] == a + b';
      assert (a + b)[|a + b| - 1] == last;
      NonEmptyPagesAppend(a, b');
      if last != [] {
        ConcatAssoc(NonEmptyPages(a), NonEmptyPages(b'), [last]);
      }
    }
  }

  /** A single page is kept exactly when its text is non-empty. */
  lemma NonEmptyPagesOne(p: string)
    ensures NonEmptyPages([p]) == if p != [] then [p] else []
  {
    assert [p][..0] == [];
  }

  /** Every whitespace character is a plain space, and no two whitespace
      characters are adjacent. */
  predicate SingleSpaced(r: string) {
    && (forall i :: 0 <= i < |r| && IsSpace(r[i]) ==> r[i] == ' ')
    && (forall i :: 0 <= i < |r| - 1 ==> !(IsSpace(r[i]) && IsSpace(r[i + 1])))
  }

  lemma SingleSpacedCons(x: char, c: string)
    requires SingleSpaced(c)
    requires IsSpace(x) ==> x == ' ' && (c == [] || !IsSpace(c[0]))
    ensures SingleSpaced([x] + c)
  {
    var r := [x] + c;
    forall i | 0 <= i < |r| && IsSpace(r[i]) ensures r[i] == ' ' {
      if i > 0 {
        assert r[i] == c[i - 1];
      }
    }
    forall i | 0 <= i < |r| - 1 ensures !(IsSpace(r[i]) && IsSpace(r[i + 1])) {
      assert r[i + 1] == c[i];
      if i > 0 {
        assert r[i] == c[i - 1];
      }
    }
  }

  /** `re.sub(r"\s+", " ", s)`: each maximal run of whitespace becomes a single space. */
  function Collapse(s: string): (r: string)
    ensures |r| <= |s|
    ensures r == [] <==> s == []
    ensures r != [] ==> (IsSpace(r[0]) <==> IsSpace(s[0]))
    ensures SingleSpaced(r)
    decreases |s|
  {
    if s == [] then []
    else if IsSpace(s[0]) then
      assert LStrip(s) == LStrip(s[1..]);
      var c := Collapse(LStrip(s));
      SingleSpacedCons(' ', c);
      [' '] + c
    else
      var c := Collapse(s[1..]);
      SingleSpacedCons(s[0], c);
      [s[0]] + c
  }

  /** The shape of the cleaned text: its only whitespace characters are single
      spaces, each between two non-whitespace characters (so none at either end). */
  predicate Normalized(r: string) {
    forall i :: 0 <= i < |r| && IsSpace(r[i]) ==>
      r[i] == ' ' && 0 < i < |r| - 1 && !IsSpace(r[i - 1]) && !IsSpace(r[i + 1])
  }

  lemma {:induction false} CollapseWord(w: string, rest: string)
    requires NoSpace(w)
    ensures Collapse(w + rest) == w + Collapse(rest)
  {
    if w != [] {
      var s := w + rest;
      assert s[0] == w[0] && !IsSpace(s[0]);
      assert s[1..] == w[1..] + rest;
      assert Collapse(s) == [w[0]] + Collapse(w[1..] + rest);
      CollapseWord(w[1..], rest);
      ConcatAssoc([w[0]], w[1..], Collapse(rest));
      assert [w[0]] + w[1..] == w;
    } else {
      assert w + rest == rest;
    }
  }

  lemma LStripNoLead(s: string)
    requires s == [] || !IsSpace(s[0])
    ensures LStrip(s) == s
  {
  }

  /** `WordLen` stops right after a whitespace-free prefix that is followed by whitespace. */
  lemma {:induction false} WordLenPrefix(w: string, rest: string)
    requires NoSpace(w) && (rest == [] || IsSpace(rest[0]))
    ensures WordLen(w + rest) == |w|
  {
    if w != [] {
      assert (w + rest)[1..] == w[1..] + rest;
      WordLenPrefix(w[1..], rest);
    } else {
      assert w + rest == rest;
    }
  }

  /** Splitting after the leading whitespace is removed gives the same words. */
  lemma SplitLStrip(s: string)
    ensures Split(LStrip(s)) == Split(s)
  {
    var t := LStrip(s);
    LStripNoLead(t);
  }

  /** Joining a non-empty list of words with single spaces gives a text whose
      last character is the last character of the last word. */
  lemma {:induction false} JoinLast(ws: seq<string>)
    requires ws != [] && ws[|ws| - 1] != []
    ensures var j := Join(" ", ws); var w := ws[|ws| - 1];
      j != [] && j[|j| - 1] == w[|w| - 1]
  {
    if |ws| > 1 {
      JoinLast(ws[1..]);
    }
  }

  lemma {:induction false} JoinFirst(ws: seq<string>)
    requires ws != [] && ws[0] != []
    ensures var j := Join(" ", ws); j != [] && j[0] == ws[0][0]
  {
  }

  lemma Regroup(a: string, b: string, c: string, d: string)
    ensures a + (b + (c + d)) == (a + b + c) + d
  {
  }

  /** One space when the text ends in whitespace, nothing otherwise. */
  function Trail(s: string): string {
    if s != [] && IsSpace(s[|s| - 1]) then " " else ""
  }

  lemma TrailAppend(w: string, rest: string)
    requires rest != []
    ensures Trail(w + rest) == Trail(rest)
  {
    assert (w + rest)[|w + rest| - 1] == rest[|rest| - 1];
  }

  lemma TrailLStrip(s: string)
    requires LStrip(s) != []
    ensures Trail(LStrip(s)) == Trail(s)
  {
    var u := LStrip(s);
    assert u[|u| - 1] == s[|s| - 1];
  }

  /** The first step of `split()` on text without leading whitespace. */
  lemma SplitFirstWord(s: string)
    requires s != [] && !IsSpace(s[0])
    ensures var k := WordLen(s);
      && 1 <= k && s == s[..k] + s[k..] && NoSpace(s[..k])
      && (s[k..] == [] || IsSpace(s[k..][0]))
      && Split(s) == [s[..k]] + Split(s[k..])
  {
    LStripNoLead(s);
  }

  /** For text without leading whitespace, collapsing the whitespace runs gives
      the words joined by single spaces, plus one space when the text ends in
      whitespace. */
  lemma {:induction false} CollapseNoLead(s: string)
    requires s == [] || !IsSpace(s[0])
    ensures Collapse(s) == Join(" ", Split(s)) + Trail(s)
    decreases |s|
  {
    if s != [] {
      SplitFirstWord(s);
      var k := WordLen(s);
      var w, rest := s[..k], s[k..];
      if rest == [] {
        CollapseOneWord(s, w, rest);
      } else if LStrip(rest) == [] {
        CollapseWordBlank(s, w, rest);
      } else {
        CollapseNoLead(LStrip(rest));
        CollapseWordMore(s, w, rest);
      }
    }
  }

  lemma CollapseOneWord(s: string, w: string, rest: string)
    requires s == w + rest && rest == [] && w != [] && NoSpace(w)
    requires Split(s) == [w] + Split(rest)
    ensures Collapse(s) == Join(" ", Split(s)) + Trail(s)
  {
    CollapseWord(w, rest);
    assert Split(rest) == [];
    assert s[|s| - 1] == w[|w| - 1];
    assert s == w;
  }

  lemma CollapseWordBlank(s: string, w: string, rest: string)
    requires s == w + rest && rest != [] && IsSpace(rest[0]) && LStrip(rest) == []
    requires w != [] && NoSpace(w)
    requires Split(s) == [w] + Split(rest)
    ensures Collapse(s) == Join(" ", Split(s)) + Trail(s)
  {
    CollapseWord(w, rest);
    assert Collapse(rest) == " " by {
      assert Collapse(rest) == [' '] + Collapse(LStrip(rest));
    }
    assert Join(" ", Split(s)) == w by {
      SplitEmpty(rest);
      assert Split(s) == [w];
    }
    assert Trail(s) == " " by {
      TrailAppend(w, rest);
      assert IsSpace(rest[|rest| - 1]);
    }
  }

  lemma CollapseWordMore(s: string, w: string, rest: string)
    requires s == w + rest && rest != [] && IsSpace(rest[0]) && LStrip(rest) != []
    requires w != [] && NoSpace(w)
    requires Split(s) == [w] + Split(rest)
    requires var u := LStrip(rest); Collapse(u) == Join(" ", Split(u)) + Trail(u)
    ensures Collapse(s) == Join(" ", Split(s)) + Trail(s)
  {
    var u := LStrip(rest);
    CollapseWord(w, rest);
    assert Collapse(rest) == [' '] + Collapse(u);
    SplitLStrip(rest);
    TrailAppend(w, rest);
    TrailLStrip(rest);
    SplitEmpty(u);
    JoinAppend(" ", [w], Split(u));
    assert Join(" ", [w]) == w;
    var ju := Join(" ", Split(u));
    assert Join(" ", [w] + Split(u)) == w + " " + ju;
    Regroup(w, " ", ju, Trail(u));
    calc {
      Collapse(s);
      w + Collapse(rest);
      w + ([' '] + Collapse(u));
      w + (" " + (ju + Trail(u)));
      (w + " " + ju) + Trail(u);
      Join(" ", [w] + Split(u)) + Trail(u);
      Join(" ", Split(s)) + Trail(s);
    }
  }

  /** The clean-up `re.sub(r"\s+", " ", s).strip()` yields exactly the words of
      `s` joined by single spaces, the same as `" ".join(s.split())`. */
  lemma CollapseStrip(s: string)
    ensures Strip(Collapse(s)) == Join(" ", Split(s))
  {
    var t := LStrip(s);
    var lead: string := if s != [] && IsSpace(s[0]) then " " else "";
    var trail := Trail(t);
    assert trail == [] || trail == " ";
    assert Collapse(s) == lead + (Join(" ", Split(s)) + trail) by {
      CollapseLead(s);
      SplitLStrip(s);
      CollapseNoLead(t);
    }
    SplitWords(s);
    PaddedJoinStrip(lead, Split(s), trail);
  }

  /** Stripping one optional space on each side of words joined by spaces. */
  lemma PaddedJoinStrip(lead: string, ws: seq<string>, trail: string)
    requires lead == [] || lead == " "
    requires trail == [] || trail == " "
    requires AreWords(ws)
    ensures Strip(lead + (Join(" ", ws) + trail)) == Join(" ", ws)
  {
    var j := Join(" ", ws);
    if ws == [] {
      assert lead + (j + trail) == lead + trail;
      StripSpaces(lead, trail);
    } else {
      var first, last := ws[0], ws[|ws| - 1];
      assert first != [] && NoSpace(first) && last != [] && NoSpace(last);
      assert !IsSpace(first[0]) && !IsSpace(last[|last| - 1]);
      JoinFirst(ws);
      JoinLast(ws);
      StripPadded(lead, j, trail);
    }
  }

  lemma CollapseLead(s: string)
    ensures Collapse(s) == (if s != [] && IsSpace(s[0]) then " " else "") + Collapse(LStrip(s))
  {
    if s == [] || !IsSpace(s[0]) {
      LStripNoLead(s);
    }
  }

  /** Words joined by single spaces are in normal form. */
  lemma {:induction false} JoinNormalized(ws: seq<string>)
    requires AreWords(ws)
    ensures Normalized(Join(" ", ws))
  {
    if |ws| > 1 {
      var w, rest := ws[0], ws[1..];
      assert AreWords(rest) by {
        forall i | 0 <= i < |rest| ensures rest[i] != [] && NoSpace(rest[i]) {
          assert rest[i] == ws[i + 1];
        }
      }
      JoinNormalized(rest);
      var rj := Join(" ", rest);
      JoinFirst(rest);
      var r := w + " " + rj;
      assert Join(" ", ws) == r;
      assert forall i :: 0 <= i < |w| ==> r[i] == w[i];
      forall i | 0 <= i < |r| && IsSpace(r[i])
        ensures r[i] == ' ' && 0 < i < |r| - 1 && !IsSpace(r[i - 1]) && !IsSpace(r[i + 1])
      {
        if i > |w| {
          assert r[i] == rj[i - |w| - 1];
          assert r[i - 1] == rj[i - |w| - 2];
          assert r[i + 1] == rj[i - |w|];
        }
      }
    } else if |ws| == 1 {
      assert Join(" ", ws) == ws[0];
    }
  }

  /** `split()` undoes `" ".join(...)` on a list of words. */
  lemma {:induction false} SplitJoin(ws: seq<string>)
    requires AreWords(ws)
    ensures Split(Join(" ", ws)) == ws
  {
    if ws != [] {
      var w, rest := ws[0], ws[1..];
      HeadTail(ws);
      assert AreWords(rest) by {
        forall i | 0 <= i < |rest| ensures rest[i] != [] && NoSpace(rest[i]) {
          assert rest[i] == ws[i + 1];
        }
      }
      if rest == [] {
        SplitOneWord(w);
      } else {
        SplitJoinStep(w, rest);
        SplitJoin(rest);
      }
    }
  }

  lemma SplitOneWord(w: string)
    requires w != [] && NoSpace(w)
    ensures Split(Join(" ", [w])) == [w]
  {
    assert Join(" ", [w]) == w + [];
    WordLenPrefix(w, []);
    LStripNoLead(w);
    assert Split(w) == [w] + Split([]);
  }

  lemma SplitJoinStep(w: string, rest: seq<string>)
    requires w != [] && NoSpace(w) && rest != [] && rest[0] != [] && !IsSpace(rest[0][0])
    ensures Split(Join(" ", [w] + rest)) == [w] + Split(Join(" ", rest))
  {
    var rj := Join(" ", rest);
    var j := w + (" " + rj);
    assert ([w] + rest)[1..] == rest;
    assert Join(" ", [w] + rest) == j;
    WordLenPrefix(w, " " + rj);
    assert j[..|w|] == w && j[|w|..] == " " + rj;
    LStripNoLead(j);
    assert Split(j) == [w] + Split(" " + rj);
    JoinFirst(rest);
    LStripNoLead(rj);
    LStripSpaceCons(' ', rj);
    SplitLStrip(" " + rj);
  }

  /** `extract_text_from_pdf` once the page texts are in hand: keep the
      non-empty page texts, join them with newlines, collapse each whitespace
      run to one space and strip the ends. */
  method CleanPages(pages: seq<string>) returns (text: string)
    ensures text == Join(" ", Split(Join("\n", NonEmptyPages(pages))))
    ensures Split(text) == Split(Join("\n", NonEmptyPages(pages)))
    ensures Normalized(text)
  {
    var texts: seq<string> := [];
    for i := 0 to |pages|
      invariant texts == NonEmptyPages(pages[..i])
    {
      assert pages[..i + 1][..i] == pages[..i];
      if pages[i] != [] {
        texts := texts + [pages[i]];
      }
    }
    assert pages[..|pages|] == pages;
    var joined := Join("\n", texts);
    text := Strip(Collapse(joined));
    CollapseStrip(joined);
    SplitWords(joined);
    SplitJoin(Split(joined));
    JoinNormalized(Split(joined));
  }

  // ---------------------------------------------------------------------
  // chunk_text: windows of at most maxTokens words
  // ---------------------------------------------------------------------

  /** The word positions `[lo, hi)` one chunk covers. */
  datatype Window = Window(lo: nat, hi: nat)

  /** Where `chunk_text` starts the window that follows `[start, end)`: back by
      `overlap` words when that still moves forward, otherwise at `end`. The
      start always moves forward, which is why the loop ends. */
  function NextStart(start: nat, end: nat, overlap: int): (next: nat)
    requires start < end
    ensures start < next
  {
    if end - overlap > start then end - overlap else end
  }

  /** With a non-negative overlap the next window never starts past the end
      of the current one, so no word is skipped; it starts exactly at the end
      when the overlap is zero or would not move the start forward. */
  lemma NextStartBounds(start: nat, end: nat, overlap: int)
    requires start < end
    ensures overlap >= 0 ==> NextStart(start, end, overlap) <= end
    ensures NextStart(start, end, overlap) == end <==> (overlap == 0 || end - overlap <= start)
  {
  }

  /** The windows `chunk_text` emits over `n` words, the loop started at `start`. */
  function WindowsFrom(n: nat, maxTokens: int, overlap: int, start: nat): (ws: seq<Window>)
    requires maxTokens >= 1
    ensures ws == [] <==> start >= n
    decreases n - start
  {
    if start >= n then []
    else
      var end := Min(start + maxTokens, n);
      [Window(start, end)] + WindowsFrom(n, maxTokens, overlap, NextStart(start, end, overlap))
  }

  /** The windows of `chunk_text` over `n` words. */
  function Windows(n: nat, maxTokens: int, overlap: int): seq<Window>
    requires maxTokens >= 1
  {
    WindowsFrom(n, maxTokens, overlap, 0)
  }

  /** The chunk text for window `w`: its words joined by single spaces. */
  function ChunkOf(words: seq<string>, w: Window): string
  {
    Join(" ", if w.lo <= w.hi <= |words| then words[w.lo..w.hi] else [])
  }

  /** The chunk text of every window, in order. */
  function ChunksOf(words: seq<string>, ws: seq<Window>): (cs: seq<string>)
    ensures |cs| == |ws|
    ensures forall k :: 0 <= k < |ws| ==> cs[k] == ChunkOf(words, ws[k])
  {
    if ws == [] then [] else [ChunkOf(words, ws[0])] + ChunksOf(words, ws[1..])
  }

  /** Window `w` lies in `[start, n)`, holds at least one and at most
      `maxTokens` words, and is cut short only by the end of the text. */
  predicate WellSized(w: Window, start: nat, n: nat, maxTokens: int) {
    && start <= w.lo < w.hi <= n
    && w.hi - w.lo <= maxTokens
    && (w.hi == n || w.hi - w.lo == maxTokens)
  }

  /** Every window lies in `[start, n)`, holds at least one and at most
      `maxTokens` words, and is cut short only by the end of the text. */
  lemma {:induction false} WindowsBounds(n: nat, maxTokens: int, overlap: int, start: nat)
    requires maxTokens >= 1
    ensures var ws := WindowsFrom(n, maxTokens, overlap, start);
      forall k :: 0 <= k < |ws| ==> WellSized(ws[k], start, n, maxTokens)
    decreases n - start
  {
    if start < n {
      var end := Min(start + maxTokens, n);
      var next := NextStart(start, end, overlap);
      WindowsFromStep(n, maxTokens, overlap, start);
      WindowsBounds(n, maxTokens, overlap, next);
      var ws := WindowsFrom(n, maxTokens, overlap, start);
      var rest := WindowsFrom(n, maxTokens, overlap, next);
      assert ws[0] == Window(start, end);
      forall k | 1 <= k < |ws| ensures ws[k] == rest[k - 1] {
      }
    }
  }

  /** Each window starts where `NextStart` puts it after the one before, so
      the starts strictly increase. */
  lemma {:induction false} WindowsChain(n: nat, maxTokens: int, overlap: int, start: nat)
    requires maxTokens >= 1
    ensures var ws := WindowsFrom(n, maxTokens, overlap, start);
      forall k :: 0 <= k < |ws| - 1 ==>
        && ws[k].lo < ws[k].hi
        && ws[k + 1].lo == NextStart(ws[k].lo, ws[k].hi, overlap)
        && ws[k].lo < ws[k + 1].lo
    decreases n - start
  {
    if start < n {
      var end := Min(start + maxTokens, n);
      var next := NextStart(start, end, overlap);
      WindowsFromStep(n, maxTokens, overlap, start);
      WindowsChain(n, maxTokens, overlap, next);
      var ws := WindowsFrom(n, maxTokens, overlap, start);
      var rest := WindowsFrom(n, maxTokens, overlap, next);
      assert ws[0] == Window(start, end);
      forall k | 1 <= k < |ws| ensures ws[k] == rest[k - 1] {
      }
      if next < n {
        WindowsFromStep(n, maxTokens, overlap, next);
        assert ws[1] == rest[0] && rest[0].lo == next;
      }
    }
  }

  /** With a non-negative overlap the first window starts at `start`, the
      last one ends at `n`, and no window starts past the end of the one
      before it. */
  lemma {:induction false} WindowsEnds(n: nat, maxTokens: int, overlap: int, start: nat)
    requires maxTokens >= 1 && overlap >= 0 && start < n
    ensures var ws := WindowsFrom(n, maxTokens, overlap, start);
      && ws[0].lo == start
      && ws[|ws| - 1].hi == n
      && forall k :: 0 <= k < |ws| - 1 ==> ws[k + 1].lo <= ws[k].hi
    decreases n - start
  {
    var end := Min(start + maxTokens, n);
    var next := NextStart(start, end, overlap);
    NextStartBounds(start, end, overlap);
    WindowsFromStep(n, maxTokens, overlap, start);
    var ws := WindowsFrom(n, maxTokens, overlap, start);
    var rest := WindowsFrom(n, maxTokens, overlap, next);
    assert ws[0] == Window(start, end);
    if next < n {
      WindowsFromStep(n, maxTokens, overlap, next);
      assert ws[1] == rest[0] && rest[0].lo == next;
      WindowsEnds(n, maxTokens, overlap, next);
      forall k | 1 <= k < |ws| ensures ws[k] == rest[k - 1] {
      }
      assert ws[|ws| - 1] == rest[|rest| - 1];
    } else {
      assert end == n;
    }
  }

  /** With a non-negative overlap every word position in `[start, n)` lies in
      some window. */
  lemma {:induction false} WindowsCover(n: nat, maxTokens: int, overlap: int, start: nat, i: nat)
    requires maxTokens >= 1 && overlap >= 0 && start <= i < n
    ensures var ws := WindowsFrom(n, maxTokens, overlap, start);
      exists k :: 0 <= k < |ws| && ws[k].lo <= i < ws[k].hi
    decreases n - start
  {
    var end := Min(start + maxTokens, n);
    var next := NextStart(start, end, overlap);
    NextStartBounds(start, end, overlap);
    WindowsFromStep(n, maxTokens, overlap, start);
    var ws := WindowsFrom(n, maxTokens, overlap, start);
    if i < end {
      assert ws[0].lo <= i < ws[0].hi;
    } else {
      WindowsCover(n, maxTokens, overlap, next, i);
      var rest := WindowsFrom(n, maxTokens, overlap, next);
      var k :| 0 <= k < |rest| && rest[k].lo <= i < rest[k].hi;
      assert ws[k + 1] == rest[k];
    }
  }

  /** When the overlap is zero or at least `maxTokens`, every window starts
      where the previous one ended. */
  lemma {:induction false} WindowsAdjacent(n: nat, maxTokens: int, overlap: int, start: nat)
    requires maxTokens >= 1 && (overlap == 0 || overlap >= maxTokens)
    ensures var ws := WindowsFrom(n, maxTokens, overlap, start);
      forall k :: 0 <= k < |ws| - 1 ==> ws[k + 1].lo == ws[k].hi
    decreases n - start
  {
    if start < n {
      var end := Min(start + maxTokens, n);
      var next := NextStart(start, end, overlap);
      assert next == end;
      WindowsFromStep(n, maxTokens, overlap, start);
      WindowsAdjacent(n, maxTokens, overlap, next);
      var ws := WindowsFrom(n, maxTokens, overlap, start);
      var rest := WindowsFrom(n, maxTokens, overlap, next);
      assert ws[0] == Window(start, end);
      forall k | 1 <= k < |ws| ensures ws[k] == rest[k - 1] {
      }
      if next < n {
        WindowsFromStep(n, maxTokens, overlap, next);
        assert ws[1] == rest[0] && rest[0].lo == next;
      }
    }
  }

  /** When the overlap is zero or at least `maxTokens`, the number of windows
      is `ceil((n - start) / maxTokens)`: the fewest windows of `maxTokens`
      words that hold the `n - start` words. */
  lemma {:induction false} WindowsCount(n: nat, maxTokens: int, overlap: int, start: nat)
    requires maxTokens >= 1 && (overlap == 0 || overlap >= maxTokens) && start <= n
    ensures var c := |WindowsFrom(n, maxTokens, overlap, start)|;
      (c - 1) * maxTokens < n - start <= c * maxTokens
    decreases n - start
  {
    if start < n {
      var end := Min(start + maxTokens, n);
      assert NextStart(start, end, overlap) == end;
      WindowsFromStep(n, maxTokens, overlap, start);
      WindowsCount(n, maxTokens, overlap, end);
      var c := |WindowsFrom(n, maxTokens, overlap, end)|;
      assert (c + 1) * maxTokens == c * maxTokens + maxTokens;
      assert c * maxTokens == (c - 1) * maxTokens + maxTokens;
    }
  }

  /** Slicing a list of words at a middle point and joining both halves with
      a space gives the join of the whole slice. */
  lemma JoinSplitAt(words: seq<string>, a: nat, b: nat, c: nat)
    requires a < b < c <= |words|
    ensures Join(" ", words[a..c]) == Join(" ", words[a..b]) + " " + Join(" ", words[b..c])
  {
    assert words[a..c] == words[a..b] + words[b..c];
    JoinAppend(" ", words[a..b], words[b..c]);
  }

  /** When the overlap is zero or at least `maxTokens`, the chunks partition
      the words: joining them with a space gives the words from `start` on,
      joined with a space. */
  lemma {:induction false} ChunksPartition(words: seq<string>, maxTokens: int, overlap: int, start: nat)
    requires maxTokens >= 1 && (overlap == 0 || overlap >= maxTokens) && start <= |words|
    ensures Join(" ", ChunksOf(words, WindowsFrom(|words|, maxTokens, overlap, start)))
      == Join(" ", words[start..])
    decreases |words| - start
  {
    var n := |words|;
    if start < n {
      var end := Min(start + maxTokens, n);
      assert NextStart(start, end, overlap) == end;
      var ws := WindowsFrom(n, maxTokens, overlap, start);
      var rest := WindowsFrom(n, maxTokens, overlap, end);
      ChunksPartition(words, maxTokens, overlap, end);
      var c := ChunkOf(words, Window(start, end));
      assert ws == [Window(start, end)] + rest;
      assert ChunksOf(words, ws) == [c] + ChunksOf(words, rest);
      if end == n {
        assert words[start..] == words[start..end];
      } else {
        JoinAppend(" ", [c], ChunksOf(words, rest));
        JoinSplitAt(words, start, end, n);
        assert words[start..] == words[start..n];
        assert words[end..] == words[end..n];
      }
    }
  }

  /** A text of at most `maxTokens` words gives one chunk, except that a
      positive overlap smaller than the word count adds a second one made of
      the last `overlap` words. */
  lemma ShortTextWindows(n: nat, maxTokens: int, overlap: int)
    requires maxTokens >= 1 && 1 <= n <= maxTokens
    ensures Windows(n, maxTokens, overlap) ==
      if 0 < overlap < n then [Window(0, n), Window(n - overlap, n)] else [Window(0, n)]
  {
    assert Min(maxTokens, n) == n;
    if 0 < overlap < n {
      assert Min(n - overlap + maxTokens, n) == n;
      assert WindowsFrom(n, maxTokens, overlap, n - overlap) == [Window(n - overlap, n)];
    }
  }

  /** 100 words with `maxTokens` 50 and overlap 10 give four windows. */
  lemma HundredWordsWindows()
    ensures Windows(100, 50, 10) == [Window(0, 50), Window(40, 90), Window(80, 100), Window(90, 100)]
  {
    assert WindowsFrom(100, 50, 10, 90) == [Window(90, 100)];
    assert WindowsFrom(100, 50, 10, 80) == [Window(80, 100), Window(90, 100)];
    assert WindowsFrom(100, 50, 10, 40) == [Window(40, 90), Window(80, 100), Window(90, 100)];
  }

  /** 30 words with `maxTokens` 100 and overlap 200 give one window. */
  lemma ThirtyWordsWideOverlap()
    ensures Windows(30, 100, 200) == [Window(0, 30)]
  {
    ShortTextWindows(30, 100, 200);
  }

  /** As written, a positive overlap smaller than the last full-length
      window makes the loop emit one more window, `[n - overlap, n)`, whose
      words all lie in the window before it: 30 words with `maxTokens` 100
      and overlap 10 give the windows `[0, 30)` and `[20, 30)`. */
  lemma TrailingWindowRepeats()
    ensures var ws := Windows(30, 100, 10);
      && |ws| == 2
      && ws[0].lo <= ws[1].lo && ws[1].hi <= ws[0].hi
  {
    ShortTextWindows(30, 100, 10);
  }

  /** The windows with the loop stopped once a window reaches the last word,
      which is what the overlap is for: a window that reaches `n` leaves no
      word for a later one. */
  function WindowsToEnd(n: nat, maxTokens: int, overlap: int, start: nat): (ws: seq<Window>)
    requires maxTokens >= 1
    ensures ws == [] <==> start >= n
    decreases n - start
  {
    if start >= n then []
    else
      var end := Min(start + maxTokens, n);
      [Window(start, end)] + (if end == n then [] else WindowsToEnd(n, maxTokens, overlap, NextStart(start, end, overlap)))
  }

  /** With the loop stopped at the last word, every window ends past the end
      of the one before it, so each chunk brings at least one new word, and
      with a non-negative overlap the windows still cover `[start, n)`: the
      first starts at `start`, the last ends at `n`, and none starts past
      the end of the one before it. */
  lemma {:induction false} WindowsToEndAdvance(n: nat, maxTokens: int, overlap: int, start: nat)
    requires maxTokens >= 1 && overlap >= 0 && start < n
    ensures var ws := WindowsToEnd(n, maxTokens, overlap, start);
      && ws[0].lo == start
      && ws[|ws| - 1].hi == n
      && forall k :: 0 <= k < |ws| - 1 ==> ws[k].hi < ws[k + 1].hi && ws[k + 1].lo <= ws[k].hi
    decreases n - start
  {
    var end := Min(start + maxTokens, n);
    var ws := WindowsToEnd(n, maxTokens, overlap, start);
    assert ws[0] == Window(start, end);
    if end < n {
      var next := NextStart(start, end, overlap);
      NextStartBounds(start, end, overlap);
      WindowsToEndAdvance(n, maxTokens, overlap, next);
      var rest := WindowsToEnd(n, maxTokens, overlap, next);
      assert ws == [Window(start, end)] + rest;
      forall k | 1 <= k < |ws| ensures ws[k] == rest[k - 1] {
      }
      assert rest[0].lo == next;
      assert rest[0].hi == Min(next + maxTokens, n);
      assert ws[|ws| - 1] == rest[|rest| - 1];
    }
  }

  /** Stopped at the last word, 30 words with `maxTokens` 100 and overlap 10
      give the single window `[0, 30)`. */
  lemma ThirtyWordsToEnd()
    ensures WindowsToEnd(30, 100, 10, 0) == [Window(0, 30)]
  {
  }

  /** One step of the window recursion. */
  lemma WindowsFromStep(n: nat, maxTokens: int, overlap: int, start: nat)
    requires maxTokens >= 1 && start < n
    ensures var end := Min(start + maxTokens, n);
      WindowsFrom(n, maxTokens, overlap, start)
        == [Window(start, end)] + WindowsFrom(n, maxTokens, overlap, NextStart(start, end, overlap))
  {
  }

  /** Adding a window adds its chunk at the end. */
  lemma ChunksOfSnoc(words: seq<string>, ws: seq<Window>, w: Window)
    ensures ChunksOf(words, ws + [w]) == ChunksOf(words, ws) + [ChunkOf(words, w)]
  {
    var l, r := ChunksOf(words, ws + [w]), ChunksOf(words, ws) + [ChunkOf(words, w)];
    assert |l| == |r|;
    forall k | 0 <= k < |l| ensures l[k] == r[k] {
      assert (ws + [w])[k] == if k < |ws| then ws[k] else w;
    }
  }

  /** The window loop of `chunk_text` over the words of the text. */
  method ChunkWords(words: seq<string>, maxTokens: int, overlap: int) returns (chunks: seq<string>)
    requires maxTokens >= 1
    ensures chunks == ChunksOf(words, Windows(|words|, maxTokens, overlap))
  {
    var n := |words|;
    chunks := [];
    var start: nat := 0;
    ghost var done: seq<Window> := [];
    while start < n
      invariant done + WindowsFrom(n, maxTokens, overlap, start) == Windows(n, maxTokens, overlap)
      invariant chunks == ChunksOf(words, done)
      decreases n - start
    {
      var end := Min(start + maxTokens, n);
      ghost var w := Window(start, end);
      ghost var later := WindowsFrom(n, maxTokens, overlap, NextStart(start, end, overlap));
      assert WindowsFrom(n, maxTokens, overlap, start) == [w] + later;
      ConcatAssoc(done, [w], later);
      ChunksOfSnoc(words, done, w);
      chunks := chunks + [Join(" ", words[start..end])];
      done := done + [w];
      start := if end - overlap > start then end - overlap else end;
    }
    assert done + [] == done;
  }

  /** `chunk_text(text, max_tokens, overlap)`: one chunk per window over the
      words of `text`, each holding between one and `maxTokens` words; there
      are none exactly when the text is all whitespace. */
  method ChunkText(text: string, maxTokens: int, overlap: int) returns (chunks: seq<string>)
    requires maxTokens >= 1
    ensures var words := Split(text);
      chunks == ChunksOf(words, Windows(|words|, maxTokens, overlap))
    ensures chunks == [] <==> AllSpace(text)
    ensures forall k :: 0 <= k < |chunks| ==> 1 <= |Split(chunks[k])| <= maxTokens
  {
    var words := Split(text);
    chunks := ChunkWords(words, maxTokens, overlap);
    ChunkTextBlank(text, maxTokens, overlap);
    ChunkTextSizes(text, maxTokens, overlap);
  }

  /** A text has no chunks exactly when it is all whitespace. */
  lemma ChunkTextBlank(text: string, maxTokens: int, overlap: int)
    requires maxTokens >= 1
    ensures ChunksOf(Split(text), Windows(|Split(text)|, maxTokens, overlap)) == [] <==> AllSpace(text)
  {
    SplitEmpty(text);
  }

  /** Every chunk of a text holds between one and `maxTokens` words. */
  lemma ChunkTextSizes(text: string, maxTokens: int, overlap: int)
    requires maxTokens >= 1
    ensures forall k :: 0 <= k < |ChunksOf(Split(text), Windows(|Split(text)|, maxTokens, overlap))| ==>
      1 <= |Split(ChunksOf(Split(text), Windows(|Split(text)|, maxTokens, overlap))[k])| <= maxTokens
  {
    SplitWords(text);
    ChunkWordCounts(Split(text), maxTokens, overlap);
  }

  /** A chunk splits back into the words of its window. */
  lemma ChunkSplit(words: seq<string>, w: Window)
    requires AreWords(words) && w.lo <= w.hi <= |words|
    ensures Split(ChunkOf(words, w)) == words[w.lo..w.hi]
  {
    var part := words[w.lo..w.hi];
    assert AreWords(part) by {
      forall i | 0 <= i < |part| ensures part[i] != [] && NoSpace(part[i]) {
        assert part[i] == words[w.lo + i];
      }
    }
    SplitJoin(part);
  }

  /** Every chunk holds between one and `maxTokens` words. */
  lemma ChunkWordCounts(words: seq<string>, maxTokens: int, overlap: int)
    requires maxTokens >= 1 && AreWords(words)
    ensures forall k :: 0 <= k < |ChunksOf(words, Windows(|words|, maxTokens, overlap))| ==>
      1 <= |Split(ChunksOf(words, Windows(|words|, maxTokens, overlap))[k])| <= maxTokens
  {
    var ws := WindowsFrom(|words|, maxTokens, overlap, 0);
    WindowsBounds(|words|, maxTokens, overlap, 0);
    forall k | 0 <= k < |ws| ensures 1 <= |Split(ChunkOf(words, ws[k]))| <= maxTokens {
      assert WellSized(WindowsFrom(|words|, maxTokens, overlap, 0)[k], 0, |words|, maxTokens);
      ChunkSizeBounds(words, ws[k], |words|, maxTokens);
    }
  }

  lemma ChunkSizeBounds(words: seq<string>, w: Window, n: nat, maxTokens: int)
    requires AreWords(words) && n == |words| && WellSized(w, 0, n, maxTokens)
    ensures 1 <= |Split(ChunkOf(words, w))| <= maxTokens
  {
    ChunkSplit(words, w);
  }
}

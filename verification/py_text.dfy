/** The Python built-in string operations the core relies on, over `seq<char>`:
    `str.isspace`, `strip`, `lstrip`, `rstrip`, `split()` without a separator,
    `sep.join`, ASCII `lower`, the substring test `w in t` and `str(n)` for a
    natural number. */
module PyText {

  /** The characters CPython's `str.isspace()` accepts. `str.split()`,
      `str.strip()` and the regular-expression class `\s` all use this set. */
  const Whitespace: set<char> := {
    ' ', '\t', '\n', '\r', '\U{B}', '\U{C}', '\U{1C}', '\U{1D}', '\U{1E}', '\U{1F}',
    '\U{85}', '\U{A0}', '\U{1680}',
    '\U{2000}', '\U{2001}', '\U{2002}', '\U{2003}', '\U{2004}', '\U{2005}',
    '\U{2006}', '\U{2007}', '\U{2008}', '\U{2009}', '\U{200A}',
    '\U{2028}', '\U{2029}', '\U{202F}', '\U{205F}', '\U{3000}'
  }

  predicate IsSpace(c: char) {
    c in Whitespace
  }

  predicate NoSpace(s: string) {
    forall i :: 0 <= i < |s| ==> !IsSpace(s[i])
  }

  predicate AllSpace(s: string) {
    forall i :: 0 <= i < |s| ==> IsSpace(s[i])
  }

  /** `min(a, b)`. */
  function Min(a: int, b: int): int {
    if a <= b then a else b
  }

  /** `s.lstrip()`: drops the leading whitespace, and only that. */
  function LStrip(s: string): (r: string)
    ensures |r| <= |s| && r == s[|s| - |r|..]
    ensures r == [] || !IsSpace(r[0])
    ensures r == [] <==> AllSpace(s)
  {
    if s != [] && IsSpace(s[0]) then
      assert forall i :: 1 <= i < |s| ==> s[i] == s[1..][i - 1];
      LStrip(s[1..])
    else s
  }

  /** `s.rstrip()`: drops the trailing whitespace, and only that. */
  function RStrip(s: string): (r: string)
    ensures |r| <= |s| && r == s[..|r|]
    ensures r == [] || !IsSpace(r[|r| - 1])
    ensures r == [] <==> AllSpace(s)
  {
    if s != [] && IsSpace(s[|s| - 1]) then
      assert forall i :: 0 <= i < |s| - 1 ==> s[i] == s[..|s| - 1][i];
      RStrip(s[..|s| - 1])
    else s
  }

  /** `s.strip()`: the text between the leading and the trailing whitespace. */
  function Strip(s: string): (r: string)
    ensures r == [] || (!IsSpace(r[0]) && !IsSpace(r[|r| - 1]))
  {
    var l := LStrip(s);
    var r := RStrip(l);
    assert r != [] ==> r[0] == l[0];
    r
  }

  lemma LStripSpaceCons(c: char, x: string)
    requires IsSpace(c)
    ensures LStrip([c] + x) == LStrip(x)
  {
    assert ([c] + x)[1..] == x;
  }

  lemma RStripSpaceSnoc(x: string, c: char)
    requires IsSpace(c)
    ensures RStrip(x + [c]) == RStrip(x)
  {
    assert (x + [c])[..|x|] == x;
  }

  /** Stripping removes one optional space on either side of a text that
      has no whitespace at its ends. */
  lemma StripPadded(lead: string, j: string, trail: string)
    requires lead == [] || lead == " "
    requires trail == [] || trail == " "
    requires j != [] && !IsSpace(j[0]) && !IsSpace(j[|j| - 1])
    ensures Strip(lead + (j + trail)) == j
  {
    var jt := j + trail;
    assert jt[0] == j[0];
    if lead != [] {
      LStripSpaceCons(' ', jt);
      assert lead + jt == [' '] + jt;
    } else {
      assert lead + jt == jt;
    }
    assert LStrip(lead + jt) == jt;
    assert RStrip(j) == j;
    if trail != [] {
      RStripSpaceSnoc(j, ' ');
      assert jt == j + [' '];
    } else {
      assert jt == j;
    }
    assert RStrip(jt) == j;
  }

  lemma StripSpaces(lead: string, trail: string)
    requires lead == [] || lead == " "
    requires trail == [] || trail == " "
    ensures Strip(lead + trail) == []
  {
    if lead == [] && trail == [] {
      assert lead + trail == [];
    } else if lead == [] || trail == [] {
      assert lead + trail == " ";
    } else {
      assert lead + trail == "  ";
    }
  }

  /** Whatever `s` is, its strip is no longer than `s`, has no whitespace at
      either end and is empty exactly when `s` is all whitespace. */
  lemma StripShape(s: string)
    ensures var r := Strip(s);
      && |r| <= |s|
      && (r == [] || (!IsSpace(r[0]) && !IsSpace(r[|r| - 1])))
      && (r == [] <==> AllSpace(s))
  {
    var l := LStrip(s);
    var r := RStrip(l);
    if r != [] {
      assert r[0] == l[0];
    }
  }

  /** Stripping text that has no whitespace at either end changes nothing. */
  lemma StripTrimmed(s: string)
    requires s == [] || (!IsSpace(s[0]) && !IsSpace(s[|s| - 1]))
    ensures Strip(s) == s
  {
  }

  /** Length of the leading run of non-whitespace characters. */
  function WordLen(s: string): (k: nat)
    ensures k <= |s| && NoSpace(s[..k]) && (k == |s| || IsSpace(s[k]))
  {
    if s == [] || IsSpace(s[0]) then 0
    else
      var k := 1 + WordLen(s[1..]);
      assert s[..k] == [s[0]] + s[1..][..k - 1];
      k
  }

  /** `s.split()` without a separator: the maximal runs of non-whitespace
      characters, in order. */
  function Split(s: string): seq<string>
    decreases |s|
  {
    var t := LStrip(s);
    if t == [] then []
    else
      var k := WordLen(t);
      assert k >= 1;
      [t[..k]] + Split(t[k..])
  }

  /** The words of a split: each is non-empty and holds no whitespace. */
  predicate AreWords(ws: seq<string>) {
    forall i :: 0 <= i < |ws| ==> ws[i] != [] && NoSpace(ws[i])
  }

  /** Every word `split()` returns is non-empty and holds no whitespace. */
  lemma {:induction false} SplitWords(s: string)
    ensures AreWords(Split(s))
    decreases |s|
  {
    var t := LStrip(s);
    if t != [] {
      var k := WordLen(t);
      var w := t[..k];
      var rest := Split(t[k..]);
      SplitWords(t[k..]);
      assert Split(s) == [w] + rest;
      assert w != [] && NoSpace(w);
      AreWordsCons(w, rest);
    }
  }

  lemma AreWordsCons(w: string, rest: seq<string>)
    requires w != [] && NoSpace(w) && AreWords(rest)
    ensures AreWords([w] + rest)
  {
    var ws := [w] + rest;
    forall i | 0 <= i < |ws| ensures ws[i] != [] && NoSpace(ws[i]) {
      if i > 0 {
        assert rest[i - 1] != [] && NoSpace(rest[i - 1]);
      }
    }
  }

  /** `split()` finds no words exactly when the text is all whitespace. */
  lemma SplitEmpty(s: string)
    ensures Split(s) == [] <==> AllSpace(s)
  {
  }

  lemma HeadTail<T>(s: seq<T>)
    requires s != []
    ensures s == [s[0]] + s[1..]
  {
  }

  lemma ConcatAssoc<T>(a: seq<T>, b: seq<T>, c: seq<T>)
    ensures a + (b + c) == (a + b) + c
  {
  }

  lemma ConsIndex<T>(a: T, rest: seq<T>)
    ensures forall k :: 1 <= k <= |rest| ==> ([a] + rest)[k] == rest[k - 1]
  {
  }

  lemma TakeSnoc<T>(s: seq<T>, k: nat)
    requires k < |s|
    ensures s[..k + 1] == s[..k] + [s[k]]
  {
  }

  /** `sep.join(xs)`. */
  function Join(sep: string, xs: seq<string>): string
  {
    if xs == [] then [] else if |xs| == 1 then xs[0] else xs[0] + sep + Join(sep, xs[1..])
  }

  /** Joining two non-empty lists is joining their joins. */
  lemma {:induction false} JoinAppend(sep: string, a: seq<string>, b: seq<string>)
    requires a != [] && b != []
    ensures Join(sep, a + b) == Join(sep, a) + sep + Join(sep, b)
  {
    if |a| == 1 {
      assert a + b == [a[0]] + b;
    } else {
      assert (a + b)[1..] == a[1..] + b;
      JoinAppend(sep, a[1..], b);
    }
  }

  /** `"".join([a] + rest)` is `a` followed by `"".join(rest)`. */
  lemma ConcatCons(a: string, rest: seq<string>)
    ensures Join("", [a] + rest) == a + Join("", rest)
  {
    if rest != [] {
      JoinAppend("", [a], rest);
    } else {
      assert [a] + rest == [a];
    }
  }

  /** The text with every whitespace character removed. */
  function Visible(s: string): string
  {
    if s == [] then [] else (if IsSpace(s[0]) then [] else [s[0]]) + Visible(s[1..])
  }

  lemma {:induction false} VisibleAppend(a: string, b: string)
    ensures Visible(a + b) == Visible(a) + Visible(b)
  {
    if a != [] {
      assert (a + b)[1..] == a[1..] + b;
      VisibleAppend(a[1..], b);
    } else {
      assert a + b == b;
    }
  }

  lemma {:induction false} VisibleAllSpace(s: string)
    requires AllSpace(s)
    ensures Visible(s) == []
  {
    if s != [] {
      VisibleAllSpace(s[1..]);
    }
  }

  lemma {:induction false} VisibleLStrip(s: string)
    ensures Visible(LStrip(s)) == Visible(s)
  {
    if s != [] && IsSpace(s[0]) {
      VisibleLStrip(s[1..]);
    }
  }

  lemma {:induction false} VisibleRStrip(s: string)
    ensures Visible(RStrip(s)) == Visible(s)
  {
    if s != [] && IsSpace(s[|s| - 1]) {
      var p := s[..|s| - 1];
      VisibleRStrip(p);
      assert s == p + [s[|s| - 1]];
      VisibleAppend(p, [s[|s| - 1]]);
    }
  }

  /** Stripping never removes a visible character. */
  lemma VisibleStrip(s: string)
    ensures Visible(Strip(s)) == Visible(s)
  {
    VisibleLStrip(s);
    VisibleRStrip(LStrip(s));
  }

  /** `c.lower()` for the ASCII letters; every other character is kept. */
  function LowerChar(c: char): char
  {
    if 'A' <= c <= 'Z' then (c as int - 'A' as int + 'a' as int) as char else c
  }

  /** `s.lower()`, character by character. */
  function Lower(s: string): (r: string)
    ensures |r| == |s|
  {
    if s == [] then [] else [LowerChar(s[0])] + Lower(s[1..])
  }

  /** Whether `w` starts `t`. */
  predicate IsPrefix(w: string, t: string) {
    |w| <= |t| && t[..|w|] == w
  }

  /** `w` occurs in `t` starting at position `i`. */
  predicate OccursAt(w: string, t: string, i: int) {
    0 <= i && i + |w| <= |t| && t[i..i + |w|] == w
  }

  /** Python's `w in t` for two strings: a scan over the start positions. */
  function Contains(t: string, w: string): (b: bool)
    ensures b <==> exists i :: OccursAt(w, t, i)
  {
    if IsPrefix(w, t) then
      assert OccursAt(w, t, 0);
      true
    else if t == [] then
      false
    else
      var b := Contains(t[1..], w);
      if b then
        var i :| OccursAt(w, t[1..], i);
        assert t[i + 1..i + 1 + |w|] == t[1..][i..i + |w|];
        assert OccursAt(w, t, i + 1);
        true
      else
        assert forall i :: !OccursAt(w, t, i) by {
          forall i ensures !OccursAt(w, t, i) {
            if 1 <= i && i + |w| <= |t| {
              assert t[1..][i - 1..i - 1 + |w|] == t[i..i + |w|];
              assert !OccursAt(w, t[1..], i - 1);
            }
          }
        }
        false
  }

  /** `s.rfind(c)` for a single character: the last position holding `c`,
      or -1 when there is none. */
  function RFind(s: string, c: char): (i: int)
    ensures -1 <= i < |s|
    ensures i >= 0 ==> s[i] == c
    ensures forall j :: i < j < |s| ==> s[j] != c
  {
    if s == [] then -1
    else if s[|s| - 1] == c then |s| - 1
    else RFind(s[..|s| - 1], c)
  }

  function DigitChar(d: nat): char
    requires d < 10
  {
    ('0' as int + d) as char
  }

  /** `str(n)` for a natural number: its decimal digits, most significant first. */
  function ShowNat(n: nat): (s: string)
    ensures s != []
    ensures forall i :: 0 <= i < |s| ==> '0' <= s[i] <= '9'
    ensures s[0] == '0' ==> n == 0
  {
    if n < 10 then [DigitChar(n)] else ShowNat(n / 10) + [DigitChar(n % 10)]
  }

  /** Reads back a string of decimal digits. */
  function ReadNat(s: string): nat
    requires forall i :: 0 <= i < |s| ==> '0' <= s[i] <= '9'
  {
    if s == [] then 0 else ReadNat(s[..|s| - 1]) * 10 + (s[|s| - 1] as int - '0' as int)
  }

  /** `str(n)` loses nothing: its digits read back as `n`. */
  lemma {:induction false} ShowNatRoundTrip(n: nat)
    ensures ReadNat(ShowNat(n)) == n
  {
    if n >= 10 {
      ShowNatRoundTrip(n / 10);
      var s := ShowNat(n);
      assert s[..|s| - 1] == ShowNat(n / 10);
    }
  }
}

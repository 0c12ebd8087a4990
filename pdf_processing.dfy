/**
  * Page text to retrieval chunks (pdf_processing.py): the regex sentence
  * split, the buffer-and-flush chunker `chunk_text` and the first-match
  * section-label search `extract_section_info`.
  *
  * The chunker is specified by spans over a page's non-blank sentences: span
  * `Span(lo, hi)` stands for the chunk whose content is the single-space join
  * of sentences `lo` up to (not including) `hi`.
  */
module PdfProcessing {
  import opened Text
  import opened Wrappers

  /** CHUNK_SIZE and OVERLAP of config.py, the defaults of `chunk_text`. */
  const DefaultChunkSize: int := 900
  const DefaultOverlap: int := 40

  const PlaceholderContent := "No processable text found in document."

  /** One parsed page, in the order the parser stored it. */
  datatype Page = Page(number: int, text: string, section: string)

  datatype Chunk = Chunk(content: string, page: int, section: string)

  /** The chunk emitted when no page yields text. */
  const Placeholder := Chunk(PlaceholderContent, 1, "")

  datatype Span = Span(lo: nat, hi: nat)

  // ---------------------------------------------------------------------------
  // Sentence split: re.split(r'(?<=[.!?])\s+(?=[A-Z0-9])', text)

  predicate EndsSentence(c: char) {
    c == '.' || c == '!' || c == '?'
  }

  predicate StartsSentence(c: char) {
    ('A' <= c <= 'Z') || IsDigit(c)
  }

  /** The separator matches at `i`: it follows sentence-ending punctuation and
      its (greedy, maximal) whitespace run is followed by a capital or a digit.
      A shorter run never helps: it would be followed by whitespace. */
  predicate BreakAt(s: string, i: nat)
    requires i < |s|
  {
    0 < i && EndsSentence(s[i - 1]) && IsSpace(s[i]) &&
    SpaceRunEnd(s, i) < |s| && StartsSentence(s[SpaceRunEnd(s, i)])
  }

  /** Pieces of `s` from `start`, the next separator searched from `i`. After a
      match the search resumes at its end, as `re.split` does. */
  function SplitFrom(s: string, start: nat, i: nat): (pieces: seq<string>)
    requires start <= i <= |s|
    ensures |pieces| >= 1
    decreases |s| - i
  {
    if i == |s| then [s[start..]]
    else if BreakAt(s, i) then
      var j := SpaceRunEnd(s, i);
      [s[start..i]] + SplitFrom(s, j, j)
    else SplitFrom(s, start, i + 1)
  }

  function SplitSentences(text: string): (pieces: seq<string>)
  {
    SplitFrom(text, 0, 0)
  }

  /** The separators `SplitFrom(s, start, i)` removes, in order. */
  function SeparatorsFrom(s: string, start: nat, i: nat): seq<string>
    requires start <= i <= |s|
    decreases |s| - i
  {
    if i == |s| then []
    else if BreakAt(s, i) then
      var j := SpaceRunEnd(s, i);
      [s[i..j]] + SeparatorsFrom(s, j, j)
    else SeparatorsFrom(s, start, i + 1)
  }

  /** The pieces with the separators put back between them. */
  function Rejoin(pieces: seq<string>, seps: seq<string>): string
    requires |pieces| == |seps| + 1
  {
    if seps == [] then pieces[0] else pieces[0] + seps[0] + Rejoin(pieces[1..], seps[1..])
  }

  /** Separator `k` is a non-empty whitespace run after a piece that ends
      with '.', '!' or '?' and before one that starts with a capital or a
      digit. */
  predicate SeparatedAt(pieces: seq<string>, seps: seq<string>, k: nat)
    requires |pieces| == |seps| + 1 && k < |seps|
  {
    && seps[k] != [] && IsBlank(seps[k])
    && pieces[k] != [] && EndsSentence(pieces[k][|pieces[k]| - 1])
    && pieces[k + 1] != [] && StartsSentence(pieces[k + 1][0])
  }

  predicate Separated(pieces: seq<string>, seps: seq<string>)
    requires |pieces| == |seps| + 1
  {
    forall k :: 0 <= k < |seps| ==> SeparatedAt(pieces, seps, k)
  }

  /** No separator matches inside `p`. */
  predicate Unbroken(p: string) {
    forall m :: 0 <= m < |p| ==> !BreakAt(p, m)
  }

  /** Putting the separators back between the pieces gives the text. */
  lemma {:induction false} SplitFromRejoin(s: string, start: nat, i: nat)
    requires start <= i <= |s|
    ensures |SplitFrom(s, start, i)| == |SeparatorsFrom(s, start, i)| + 1
    ensures Rejoin(SplitFrom(s, start, i), SeparatorsFrom(s, start, i)) == s[start..]
    decreases |s| - i
  {
    if i < |s| {
      if BreakAt(s, i) {
        var j := SpaceRunEnd(s, i);
        SplitFromRejoin(s, j, j);
        var rest, restSeps := SplitFrom(s, j, j), SeparatorsFrom(s, j, j);
        var pieces := [s[start..i]] + rest;
        var seps := [s[i..j]] + restSeps;
        assert SplitFrom(s, start, i) == pieces && SeparatorsFrom(s, start, i) == seps;
        assert pieces[1..] == rest && seps[1..] == restSeps;
        assert Rejoin(pieces, seps) == s[start..i] + s[i..j] + s[j..];
        assert s[i..] == s[i..j] + s[j..];
        assert s[start..] == s[start..i] + s[i..];
      } else {
        SplitFromRejoin(s, start, i + 1);
      }
    }
  }

  /** The first piece is a slice of the text from `start`, reaching at least
      to `i`; it is not empty when the text has a non-whitespace character
      at `start`. */
  lemma {:induction false} SplitFromFirst(s: string, start: nat, i: nat)
    requires start <= i <= |s|
    ensures var p := SplitFrom(s, start, i)[0];
      i - start <= |p| <= |s| - start && p == s[start..start + |p|]
    ensures start < |s| && !IsSpace(s[start]) ==> SplitFrom(s, start, i)[0] != []
    decreases |s| - i
  {
    if i < |s| && !BreakAt(s, i) {
      SplitFromFirst(s, start, i + 1);
    }
  }

  /** Each separator is a non-empty whitespace run between a piece that ends
      with '.', '!' or '?' and a piece that starts with a capital or a digit. */
  lemma {:induction false} SplitFromSeparators(s: string, start: nat, i: nat)
    requires start <= i <= |s|
    requires start < i || start == 0 || (start < |s| && !IsSpace(s[start]))
    ensures |SplitFrom(s, start, i)| == |SeparatorsFrom(s, start, i)| + 1
    ensures Separated(SplitFrom(s, start, i), SeparatorsFrom(s, start, i))
    decreases |s| - i
  {
    SplitFromRejoin(s, start, i);
    if i < |s| {
      if BreakAt(s, i) {
        var j := SpaceRunEnd(s, i);
        SplitFromSeparators(s, j, j);
        SplitFromFirst(s, j, j);
        var pieces, seps := SplitFrom(s, start, i), SeparatorsFrom(s, start, i);
        var rest, restSeps := SplitFrom(s, j, j), SeparatorsFrom(s, j, j);
        assert pieces[1..] == rest && seps[1..] == restSeps;
        assert rest[0][0] == s[j];
        forall k | 0 <= k < |seps| ensures SeparatedAt(pieces, seps, k) {
          if k == 0 {
            assert seps[0] == s[i..j] && s[i..j][0] == s[i];
            assert pieces[0] == s[start..i] && i > start;
            assert pieces[0][i - start - 1] == s[i - 1];
            assert pieces[1] == rest[0];
          } else {
            assert SeparatedAt(rest, restSeps, k - 1);
            assert seps[k] == restSeps[k - 1] && pieces[k] == rest[k - 1] && pieces[k + 1] == rest[k];
          }
        }
      } else {
        SplitFromSeparators(s, start, i + 1);
      }
    }
  }

  /** The whitespace run from `i` ends at `j` when it does. */
  lemma {:induction false} SpaceRunEndAt(s: string, i: nat, j: nat)
    requires i <= j <= |s|
    requires forall k :: i <= k < j ==> IsSpace(s[k])
    requires j == |s| || !IsSpace(s[j])
    ensures SpaceRunEnd(s, i) == j
    decreases j - i
  {
    if i < j {
      SpaceRunEndAt(s, i + 1, j);
    }
  }

  /** A separator match inside a slice is one in the whole text. */
  lemma BreakInSlice(s: string, a: nat, b: nat, m: nat)
    requires a <= b <= |s| && m < b - a && BreakAt(s[a..b], m)
    ensures BreakAt(s, a + m)
  {
    var p := s[a..b];
    var e := SpaceRunEnd(p, m);
    forall k | a + m <= k < a + e ensures IsSpace(s[k]) {
      assert s[k] == p[k - a];
    }
    assert s[a + e] == p[e];
    SpaceRunEndAt(s, a + m, a + e);
  }

  /** No piece holds a separator match: the split cuts at every match. */
  lemma {:induction false} SplitFromUnbroken(s: string, start: nat, i: nat)
    requires start <= i <= |s|
    requires forall q :: start < q < i ==> !BreakAt(s, q)
    ensures forall k :: 0 <= k < |SplitFrom(s, start, i)| ==> Unbroken(SplitFrom(s, start, i)[k])
    decreases |s| - i
  {
    var pieces := SplitFrom(s, start, i);
    var e := if i == |s| then |s| else i;
    if i == |s| || BreakAt(s, i) {
      forall m | 0 <= m < e - start ensures !BreakAt(s[start..e], m) {
        if BreakAt(s[start..e], m) {
          BreakInSlice(s, start, e, m);
        }
      }
      assert pieces[0] == s[start..e];
      if i < |s| {
        var j := SpaceRunEnd(s, i);
        SplitFromUnbroken(s, j, j);
        assert pieces[1..] == SplitFrom(s, j, j);
        forall k | 0 < k < |pieces| ensures Unbroken(pieces[k]) {
          assert pieces[k] == SplitFrom(s, j, j)[k - 1];
        }
      }
    } else {
      SplitFromUnbroken(s, start, i + 1);
    }
  }

  /** `re.split` round trip: the text is its pieces with the removed
      separators put back between them. */
  lemma SplitRejoin(text: string)
    ensures |SplitSentences(text)| == |SeparatorsFrom(text, 0, 0)| + 1
    ensures Rejoin(SplitSentences(text), SeparatorsFrom(text, 0, 0)) == text
  {
    SplitFromRejoin(text, 0, 0);
  }

  /** Each removed separator is a non-empty whitespace run, preceded by '.',
      '!' or '?' and followed by a capital letter or a digit. */
  lemma SplitSeparators(text: string)
    ensures |SplitSentences(text)| == |SeparatorsFrom(text, 0, 0)| + 1
    ensures Separated(SplitSentences(text), SeparatorsFrom(text, 0, 0))
  {
    SplitFromSeparators(text, 0, 0);
  }

  /** Every match of the separator is cut: no piece holds one. */
  lemma SplitUnbroken(text: string)
    ensures forall k :: 0 <= k < |SplitSentences(text)| ==> Unbroken(SplitSentences(text)[k])
  {
    SplitFromUnbroken(text, 0, 0);
  }

  /** No non-whitespace character is lost by the split. */
  lemma {:induction false} SplitFromKeepsText(s: string, start: nat, i: nat, k: nat)
    requires start <= i <= |s| && start <= k < |s| && !IsSpace(s[k])
    ensures exists p :: p in SplitFrom(s, start, i) && !IsBlank(p)
    decreases |s| - i
  {
    var pieces := SplitFrom(s, start, i);
    if i == |s| {
      assert pieces == [s[start..]];
      assert s[start..][k - start] == s[k];
      assert pieces[0] in pieces && !IsBlank(pieces[0]);
    } else if BreakAt(s, i) {
      var j := SpaceRunEnd(s, i);
      if k < i {
        assert pieces[0] == s[start..i];
        assert s[start..i][k - start] == s[k];
        assert pieces[0] in pieces && !IsBlank(pieces[0]);
      } else {
        SplitFromKeepsText(s, j, j, k);
        var p :| p in SplitFrom(s, j, j) && !IsBlank(p);
        assert p in pieces;
      }
    } else {
      SplitFromKeepsText(s, start, i + 1, k);
    }
  }

  /** A page with text has a sentence with text. */
  lemma SplitKeepsText(text: string)
    requires !IsBlank(text)
    ensures exists p :: p in SplitSentences(text) && !IsBlank(p)
  {
    var k :| 0 <= k < |text| && !IsSpace(text[k]);
    SplitFromKeepsText(text, 0, 0, k);
  }

  // ---------------------------------------------------------------------------
  // Sentences the chunker keeps, and their word counts

  /** The sentences that survive `if not sentence.strip(): continue`. */
  function NonBlank(ss: seq<string>): (r: seq<string>)
    ensures |r| <= |ss|
  {
    if ss == [] then []
    else NonBlank(ss[..|ss| - 1]) + (if IsBlank(ss[|ss| - 1]) then [] else [ss[|ss| - 1]])
  }

  lemma {:induction false} NonBlankAppend(a: seq<string>, b: seq<string>)
    ensures NonBlank(a + b) == NonBlank(a) + NonBlank(b)
    decreases |b|
  {
    if b != [] {
      var b' := b[..|b| - 1];
      assert (a + b)[..|a + b| - 1] == a + b';
      NonBlankAppend(a, b');
    } else {
      assert a + b == a;
    }
  }

  /** Every sentence with text is kept. */
  lemma {:induction false} NonBlankKeeps(ss: seq<string>, p: string)
    requires p in ss && !IsBlank(p)
    ensures p in NonBlank(ss)
  {
    var last := ss[|ss| - 1];
    if p != last {
      assert p in ss[..|ss| - 1] by {
        var k :| 0 <= k < |ss| && ss[k] == p;
        assert ss[..|ss| - 1][k] == p;
      }
      NonBlankKeeps(ss[..|ss| - 1], p);
    }
  }

  /** The non-blank sentences of a page, in order. */
  function Sentences(text: string): seq<string>
  {
    NonBlank(SplitSentences(text))
  }

  /** `len(s.split())` of each sentence: all the chunker's decisions look at. */
  function Counts(xs: seq<string>): (ws: seq<nat>)
    ensures |ws| == |xs|
  {
    seq(|xs|, k requires 0 <= k < |xs| => WordCount(xs[k]))
  }

  function Sum(ws: seq<nat>): nat
  {
    if ws == [] then 0 else Sum(ws[..|ws| - 1]) + ws[|ws| - 1]
  }

  /** `sum(len(s.split()) for s in xs)` */
  function Words(xs: seq<string>): nat
  {
    Sum(Counts(xs))
  }

  /** The counts of a run of sentences are that run of the counts. */
  lemma CountsSlice(xs: seq<string>, lo: nat, hi: nat)
    requires lo <= hi <= |xs|
    ensures Counts(xs[lo..hi]) == Counts(xs)[lo..hi]
    ensures Words(xs[lo..hi]) == Sum(Counts(xs)[lo..hi])
  {
    assert Counts(xs[lo..hi]) == Counts(xs)[lo..hi];
  }

  lemma {:induction false} SumSnoc(ws: seq<nat>, lo: nat, hi: nat)
    requires lo <= hi < |ws|
    ensures Sum(ws[lo..hi + 1]) == Sum(ws[lo..hi]) + ws[hi]
  {
    assert ws[lo..hi + 1][..hi - lo] == ws[lo..hi];
  }

  /** `min(overlap, n)` when positive, else 0: how many sentences are kept. */
  function Kept(n: nat, overlap: int): (k: nat)
    ensures k <= n
    ensures k == 0 <==> overlap <= 0 || n == 0
    ensures 0 < overlap <= n ==> k == overlap
    ensures n < overlap ==> k == n
  {
    if overlap <= 0 then 0 else if overlap < n then overlap else n
  }

  /** `Kept` is `min(overlap, n)` for a positive overlap: no more than
      either, and equal to one of them; nothing is kept otherwise. */
  lemma KeptIsMin(n: nat, overlap: int)
    ensures overlap <= 0 ==> Kept(n, overlap) == 0
    ensures 0 < overlap ==> Kept(n, overlap) <= overlap && Kept(n, overlap) <= n
    ensures 0 < overlap ==> Kept(n, overlap) == overlap || Kept(n, overlap) == n
  {
  }

  // ---------------------------------------------------------------------------
  // The chunking specification, over spans

  /** Chunk spans of one page whose sentences have the word counts `ws`,
      from the state where the buffer holds sentences `st` up to `i` and
      sentence `i` comes next. */
  function PackFrom(ws: seq<nat>, st: nat, i: nat, size: int, overlap: int): (r: seq<Span>)
    requires st <= i <= |ws|
    ensures r == [] <==> st == i == |ws|
    ensures r != [] ==> r[0].lo == st && i <= r[0].hi && r[|r| - 1].hi == |ws|
    decreases |ws| - i
  {
    if i == |ws| then
      if st < i then [Span(st, i)] else []
    else if st < i && Sum(ws[st..i]) + ws[i] > size then
      [Span(st, i)] + PackFrom(ws, i - Kept(i - st, overlap), i + 1, size, overlap)
    else
      PackFrom(ws, st, i + 1, size, overlap)
  }

  function Pack(ws: seq<nat>, size: int, overlap: int): (r: seq<Span>)
  {
    PackFrom(ws, 0, 0, size, overlap)
  }

  /** Every span of `r` is a non-empty run of sentences starting at `st` or
      later and ending at `i` or later. */
  predicate Bounded(r: seq<Span>, st: nat, i: nat, n: nat) {
    forall j :: 0 <= j < |r| ==> st <= r[j].lo < r[j].hi <= n && i <= r[j].hi
  }

  lemma BoundedCons(a: Span, r: seq<Span>, st: nat, i: nat, n: nat)
    requires st <= a.lo < a.hi <= n && i <= a.hi
    requires Bounded(r, st, i, n)
    ensures Bounded([a] + r, st, i, n)
  {
    var r' := [a] + r;
    forall j | 0 < j < |r'| ensures st <= r'[j].lo < r'[j].hi <= n && i <= r'[j].hi {
      assert r'[j] == r[j - 1];
    }
  }

  lemma {:induction false} PackFromBounds(ws: seq<nat>, st: nat, i: nat, size: int, overlap: int)
    requires st <= i <= |ws|
    ensures Bounded(PackFrom(ws, st, i, size, overlap), st, i, |ws|)
    decreases |ws| - i
  {
    var r := PackFrom(ws, st, i, size, overlap);
    if i == |ws| {
    } else if st < i && Sum(ws[st..i]) + ws[i] > size {
      var st' := i - Kept(i - st, overlap);
      var r' := PackFrom(ws, st', i + 1, size, overlap);
      PackFromBounds(ws, st', i + 1, size, overlap);
      assert r == [Span(st, i)] + r';
      BoundedCons(Span(st, i), r', st, i, |ws|);
    } else {
      PackFromBounds(ws, st, i + 1, size, overlap);
    }
  }

  /** The spans of the whole page are non-empty runs of its sentences. */
  lemma PackBounds(ws: seq<nat>, size: int, overlap: int)
    ensures Bounded(Pack(ws, size, overlap), 0, 0, |ws|)
  {
    PackFromBounds(ws, 0, 0, size, overlap);
  }

  /** Span `b` follows span `a`: it starts `Kept` sentences before the end of
      `a` and reaches further, and `a` was flushed because the sentence right
      after it did not fit. */
  predicate Follows(ws: seq<nat>, a: Span, b: Span, size: int, overlap: int) {
    && a.lo <= a.hi < |ws|
    && b.lo == a.hi - Kept(a.hi - a.lo, overlap)
    && a.hi < b.hi
    && Sum(ws[a.lo..a.hi]) + ws[a.hi] > size
  }

  /** Span `j + 1` of `r` follows span `j`. */
  predicate Linked(ws: seq<nat>, r: seq<Span>, j: nat, size: int, overlap: int)
    requires j + 1 < |r|
  {
    Follows(ws, r[j], r[j + 1], size, overlap)
  }

  predicate Chained(ws: seq<nat>, r: seq<Span>, size: int, overlap: int) {
    forall j :: 0 <= j < |r| - 1 ==> Linked(ws, r, j, size, overlap)
  }

  lemma ChainedCons(ws: seq<nat>, a: Span, r: seq<Span>, size: int, overlap: int)
    requires r != []
    requires Follows(ws, a, r[0], size, overlap)
    requires Chained(ws, r, size, overlap)
    ensures Chained(ws, [a] + r, size, overlap)
  {
    var r' := [a] + r;
    forall j | 0 <= j < |r'| - 1 ensures Linked(ws, r', j, size, overlap) {
      if j > 0 {
        assert Linked(ws, r, j - 1, size, overlap);
        assert r'[j] == r[j - 1] && r'[j + 1] == r[j];
      }
    }
  }

  lemma {:induction false} PackFromLinks(ws: seq<nat>, st: nat, i: nat, size: int, overlap: int)
    requires st <= i <= |ws|
    ensures Chained(ws, PackFrom(ws, st, i, size, overlap), size, overlap)
    decreases |ws| - i
  {
    var r := PackFrom(ws, st, i, size, overlap);
    if i == |ws| {
    } else if st < i && Sum(ws[st..i]) + ws[i] > size {
      var st' := i - Kept(i - st, overlap);
      var r' := PackFrom(ws, st', i + 1, size, overlap);
      assert r == [Span(st, i)] + r';
      PackFromLinks(ws, st', i + 1, size, overlap);
      assert Follows(ws, Span(st, i), r'[0], size, overlap);
      ChainedCons(ws, Span(st, i), r', size, overlap);
    } else {
      PackFromLinks(ws, st, i + 1, size, overlap);
    }
  }

  /** Sentence `m` lies in some span of `r`. */
  predicate Covered(r: seq<Span>, m: nat) {
    exists j :: 0 <= j < |r| && r[j].lo <= m < r[j].hi
  }

  /** Every sentence from `st` on lies in some span. */
  lemma {:induction false} PackFromCovers(ws: seq<nat>, st: nat, i: nat, size: int, overlap: int, m: nat)
    requires st <= i <= |ws| && st <= m < |ws|
    ensures Covered(PackFrom(ws, st, i, size, overlap), m)
    decreases |ws| - i
  {
    var r := PackFrom(ws, st, i, size, overlap);
    if i == |ws| {
      assert r == [Span(st, i)];
      assert r[0].lo <= m < r[0].hi;
      assert Covered(r, m);
    } else if st < i && Sum(ws[st..i]) + ws[i] > size {
      var st' := i - Kept(i - st, overlap);
      var r' := PackFrom(ws, st', i + 1, size, overlap);
      assert r == [Span(st, i)] + r';
      if m < i {
        assert r[0].lo <= m < r[0].hi;
        assert Covered(r, m);
      } else {
        PackFromCovers(ws, st', i + 1, size, overlap, m);
        var j :| 0 <= j < |r'| && r'[j].lo <= m < r'[j].hi;
        assert r[j + 1] == r'[j];
        assert Covered(r, m);
      }
    } else {
      PackFromCovers(ws, st, i + 1, size, overlap, m);
    }
  }

  /** Span `sp` fits the word budget, or holds exactly one sentence from `base` on. */
  predicate WithinBudget(ws: seq<nat>, sp: Span, base: nat, size: int) {
    sp.lo <= sp.hi <= |ws| && (Sum(ws[sp.lo..sp.hi]) <= size || sp.hi == base + 1)
  }

  /** Every span of `r` is within budget; the first one's base is `b`. */
  predicate AllWithinBudget(ws: seq<nat>, r: seq<Span>, b: nat, size: int) {
    && (r != [] ==> WithinBudget(ws, r[0], b, size))
    && forall j :: 0 < j < |r| ==> FitsAfter(ws, r, j, size)
  }

  /** Span `j` of `r` fits the budget, its base the end of span `j - 1`. */
  predicate FitsAfter(ws: seq<nat>, r: seq<Span>, j: nat, size: int)
    requires 0 < j < |r|
  {
    WithinBudget(ws, r[j], r[j - 1].hi, size)
  }

  lemma BudgetCons(ws: seq<nat>, a: Span, b: nat, r: seq<Span>, size: int)
    requires WithinBudget(ws, a, b, size) && AllWithinBudget(ws, r, a.hi, size)
    ensures AllWithinBudget(ws, [a] + r, b, size)
  {
    var r' := [a] + r;
    forall j | 0 < j < |r'| ensures FitsAfter(ws, r', j, size) {
      assert r'[j] == r[j - 1];
      if j > 1 {
        assert FitsAfter(ws, r, j - 1, size);
        assert r'[j - 1] == r[j - 2];
      }
    }
  }

  /** The word budget. In the state `ws[st..i]`, `b` is where the sentences
      added since the last flush begin (the buffer before `b` is the carried
      overlap). A span fits the budget, or holds exactly one sentence beyond
      its base: the first span's base is its start, a later span's base is the
      end of the span before it. */
  lemma {:induction false} PackFromBudget(ws: seq<nat>, st: nat, i: nat, b: nat, size: int, overlap: int)
    requires st <= b <= i <= |ws|
    requires st == i || i == b + 1 || Sum(ws[st..i]) <= size
    ensures AllWithinBudget(ws, PackFrom(ws, st, i, size, overlap), b, size)
    decreases |ws| - i
  {
    var r := PackFrom(ws, st, i, size, overlap);
    if i == |ws| {
      if st < i {
        assert r == [Span(st, i)];
        assert WithinBudget(ws, r[0], b, size);
      }
    } else if st < i && Sum(ws[st..i]) + ws[i] > size {
      var st' := i - Kept(i - st, overlap);
      var r' := PackFrom(ws, st', i + 1, size, overlap);
      PackFromBudget(ws, st', i + 1, i, size, overlap);
      assert r == [Span(st, i)] + r';
      assert WithinBudget(ws, Span(st, i), b, size);
      BudgetCons(ws, Span(st, i), b, r', size);
    } else {
      if st < i {
        SumSnoc(ws, st, i);
      }
      assert st == i + 1 || i + 1 == b + 1 || Sum(ws[st..i + 1]) <= size;
      PackFromBudget(ws, st, i + 1, b, size, overlap);
    }
  }

  // ---------------------------------------------------------------------------
  // Chunks of a page and of a document

  /** Every span is a non-empty run of the first `n` sentences. */
  predicate SpansWithin(spans: seq<Span>, n: nat) {
    forall j :: 0 <= j < |spans| ==> spans[j].lo < spans[j].hi <= n
  }

  /** The sentences of span `sp`. */
  function Run(xs: seq<string>, sp: Span): seq<string>
    requires sp.lo <= sp.hi <= |xs|
  {
    xs[sp.lo..sp.hi]
  }

  /** One chunk per span: the single-space join of its sentences, tagged with
      the page number and section. */
  function Tag(xs: seq<string>, spans: seq<Span>, number: int, section: string): seq<Chunk>
    requires SpansWithin(spans, |xs|)
  {
    seq(|spans|, j requires 0 <= j < |spans| => Chunk(JoinSpace(Run(xs, spans[j])), number, section))
  }

  lemma {:induction false} TagSnoc(xs: seq<string>, spans: seq<Span>, sp: Span, number: int, section: string)
    requires SpansWithin(spans + [sp], |xs|)
    ensures SpansWithin(spans, |xs|) && sp.lo < sp.hi <= |xs|
    ensures Tag(xs, spans + [sp], number, section)
         == Tag(xs, spans, number, section) + [Chunk(JoinSpace(Run(xs, sp)), number, section)]
  {
    assert forall j :: 0 <= j < |spans| ==> (spans + [sp])[j] == spans[j];
    assert (spans + [sp])[|spans|] == sp;
  }

  /** The spans of a page: none for a blank page. */
  function PageSpans(p: Page, size: int, overlap: int): (r: seq<Span>)
    ensures SpansWithin(r, |Sentences(p.text)|)
  {
    PackBounds(Counts(Sentences(p.text)), size, overlap);
    if IsBlank(p.text) then [] else Pack(Counts(Sentences(p.text)), size, overlap)
  }

  function PageChunks(p: Page, size: int, overlap: int): seq<Chunk>
  {
    Tag(Sentences(p.text), PageSpans(p, size, overlap), p.number, p.section)
  }

  /** The chunks of all pages, page after page. */
  function ChunkPages(pages: seq<Page>, size: int, overlap: int): seq<Chunk>
  {
    if pages == [] then []
    else ChunkPages(pages[..|pages| - 1], size, overlap) + PageChunks(pages[|pages| - 1], size, overlap)
  }

  /** What `chunk_text` returns: the chunks of all pages, or the placeholder
      when there are none. */
  function ChunksOf(pages: seq<Page>, size: int, overlap: int): seq<Chunk>
  {
    var cs := ChunkPages(pages, size, overlap);
    if cs == [] then [Placeholder] else cs
  }

  // ---------------------------------------------------------------------------
  // Properties of the chunks

  /** Every piece of a blank text is blank. */
  lemma {:induction false} SplitFromBlank(s: string, start: nat, i: nat)
    requires start <= i <= |s| && IsBlank(s)
    ensures forall k :: 0 <= k < |SplitFrom(s, start, i)| ==> IsBlank(SplitFrom(s, start, i)[k])
    decreases |s| - i
  {
    var pieces := SplitFrom(s, start, i);
    if i == |s| {
      assert forall c :: 0 <= c < |s[start..]| ==> s[start..][c] == s[start + c];
    } else {
      assert !BreakAt(s, i) by {
        if 0 < i { assert IsSpace(s[i - 1]); }
      }
      SplitFromBlank(s, start, i + 1);
    }
  }

  lemma {:induction false} NonBlankOfBlanks(ss: seq<string>)
    requires forall k :: 0 <= k < |ss| ==> IsBlank(ss[k])
    ensures NonBlank(ss) == []
  {
    if ss != [] {
      NonBlankOfBlanks(ss[..|ss| - 1]);
    }
  }

  /** Every kept sentence has text. */
  lemma {:induction false} NonBlankHasText(ss: seq<string>)
    ensures forall k :: 0 <= k < |NonBlank(ss)| ==> !IsBlank(NonBlank(ss)[k])
  {
    if ss != [] {
      NonBlankHasText(ss[..|ss| - 1]);
    }
  }

  /** A page keeps a sentence exactly when it has text. */
  lemma SentencesEmptyIffBlank(text: string)
    ensures Sentences(text) == [] <==> IsBlank(text)
  {
    if IsBlank(text) {
      SplitFromBlank(text, 0, 0);
      NonBlankOfBlanks(SplitSentences(text));
    } else {
      SplitKeepsText(text);
      var q :| q in SplitSentences(text) && !IsBlank(q);
      NonBlankKeeps(SplitSentences(text), q);
    }
  }

  /** A page yields chunks exactly when it has text. */
  lemma PageChunksEmptyIffBlank(p: Page, size: int, overlap: int)
    ensures PageChunks(p, size, overlap) == [] <==> IsBlank(p.text)
  {
    SentencesEmptyIffBlank(p.text);
  }

  /** Each chunk of a page carries the page's number and section, and its
      content has text (it joins a non-empty run of sentences with text). */
  lemma PageChunkShape(p: Page, size: int, overlap: int, k: nat)
    requires k < |PageChunks(p, size, overlap)|
    ensures PageChunks(p, size, overlap)[k].page == p.number
    ensures PageChunks(p, size, overlap)[k].section == p.section
    ensures !IsBlank(PageChunks(p, size, overlap)[k].content)
  {
    var xs := Sentences(p.text);
    var sp := PageSpans(p, size, overlap)[k];
    var run := Run(xs, sp);
    assert run[0] == xs[sp.lo];
    NonBlankHasText(SplitSentences(p.text));
    JoinSpaceHasPart(run, 0);
    ContainsNonBlank(JoinSpace(run), run[0]);
  }

  /** No text is lost: every kept sentence of a page occurs, whole, in the
      content of some chunk of that page. */
  lemma PageChunksCover(p: Page, size: int, overlap: int, m: nat)
    requires m < |Sentences(p.text)|
    ensures exists k :: 0 <= k < |PageChunks(p, size, overlap)|
                     && Contains(PageChunks(p, size, overlap)[k].content, Sentences(p.text)[m])
  {
    var xs := Sentences(p.text);
    SentencesEmptyIffBlank(p.text);
    var r := Pack(Counts(xs), size, overlap);
    PackBounds(Counts(xs), size, overlap);
    PackFromCovers(Counts(xs), 0, 0, size, overlap, m);
    var j :| 0 <= j < |r| && r[j].lo <= m < r[j].hi;
    var run := Run(xs, r[j]);
    assert run[m - r[j].lo] == xs[m];
    JoinSpaceHasPart(run, m - r[j].lo);
    assert PageChunks(p, size, overlap)[j].content == JoinSpace(run);
  }

  /** Chunk `b` follows chunk `a` on a page: it starts with the last `Kept`
      sentences of `a`, then the sentence that did not fit into `a`. */
  predicate Overlapping(xs: seq<string>, a: Span, b: Span, size: int, overlap: int)
    requires a.lo <= a.hi <= |xs| && b.lo <= b.hi <= |xs|
  {
    var k := Kept(a.hi - a.lo, overlap);
    && k < |Run(xs, b)|
    && Run(xs, b)[..k] == Run(xs, a)[|Run(xs, a)| - k..]
    && a.hi < |xs| && Run(xs, b)[k] == xs[a.hi]
    && Words(Run(xs, a)) + WordCount(xs[a.hi]) > size
  }

  lemma PackOverlap(xs: seq<string>, size: int, overlap: int, j: nat)
    requires j + 1 < |Pack(Counts(xs), size, overlap)|
    ensures Bounded(Pack(Counts(xs), size, overlap), 0, 0, |xs|)
    ensures Overlapping(xs, Pack(Counts(xs), size, overlap)[j], Pack(Counts(xs), size, overlap)[j + 1], size, overlap)
  {
    var ws := Counts(xs);
    var r := Pack(ws, size, overlap);
    PackBounds(ws, size, overlap);
    PackFromLinks(ws, 0, 0, size, overlap);
    var a, b := r[j], r[j + 1];
    assert Linked(ws, r, j, size, overlap);
    CountsSlice(xs, a.lo, a.hi);
    assert ws[a.hi] == WordCount(xs[a.hi]);
    var k := Kept(a.hi - a.lo, overlap);
    assert b.lo == a.hi - k && a.hi < b.hi;
    assert Run(xs, b)[..k] == xs[a.hi - k..a.hi];
    assert Run(xs, a)[|Run(xs, a)| - k..] == xs[a.hi - k..a.hi];
    assert Run(xs, b)[k] == xs[a.hi];
  }

  /** Without overlap, a chunk stays within the word budget unless it is a
      single sentence. */
  lemma NoOverlapWithinBudget(xs: seq<string>, size: int, overlap: int, j: nat)
    requires overlap <= 0 && j < |Pack(Counts(xs), size, overlap)|
    ensures Bounded(Pack(Counts(xs), size, overlap), 0, 0, |xs|)
    ensures Words(Run(xs, Pack(Counts(xs), size, overlap)[j])) <= size || |Run(xs, Pack(Counts(xs), size, overlap)[j])| == 1
  {
    var ws := Counts(xs);
    var r := Pack(ws, size, overlap);
    PackBounds(ws, size, overlap);
    PackFromLinks(ws, 0, 0, size, overlap);
    PackFromBudget(ws, 0, 0, 0, size, overlap);
    if j > 0 {
      assert Linked(ws, r, j - 1, size, overlap);
      assert FitsAfter(ws, r, j, size);
    } else {
      assert WithinBudget(ws, r[0], 0, size);
    }
    CountsSlice(xs, r[j].lo, r[j].hi);
  }

  /** "x y z." has three words. */
  lemma ThreeWords(x: char, y: char, z: char)
    requires !IsSpace(x) && !IsSpace(y) && !IsSpace(z)
    ensures WordCount([x, ' ', y, ' ', z, '.']) == 3
  {
    var s := [x, ' ', y, ' ', z, '.'];
    assert WordCount(s[5..]) == 1;
    assert s[4..][1..] == s[5..];
    assert WordCount(s[4..]) == 1;
    assert s[3..][1..] == s[4..];
    assert s[2..][1..] == s[3..];
    assert WordCount(s[2..]) == 2;
    assert s[1..][1..] == s[2..];
    assert s[1..] == [' ', y, ' ', z, '.'];
  }

  /** Two three-word sentences under a 5-word budget and an overlap of 1:
      the second chunk repeats the first sentence and adds the second. */
  lemma TwoSentencePack()
    ensures Pack([3, 3], 5, 1) == [Span(0, 1), Span(0, 2)]
  {
    assert Kept(1, 1) == 1;
    assert PackFrom([3, 3], 0, 2, 5, 1) == [Span(0, 2)];
    assert PackFrom([3, 3], 0, 1, 5, 1) == [Span(0, 1)] + PackFrom([3, 3], 0, 2, 5, 1);
  }

  /** "a b c." and "D e f." have three words each. */
  lemma ExampleCounts()
    ensures Counts(["a b c.", "D e f."]) == [3, 3]
  {
    ThreeWords('a', 'b', 'c');
    ThreeWords('D', 'e', 'f');
  }

  /** With overlap the budget can be exceeded by more than one sentence: the
      carried sentence and the one that did not fit make a 6-word chunk
      under a 5-word budget. */
  lemma OverlapCanExceedBudget()
    ensures Pack(Counts(["a b c.", "D e f."]), 5, 1) == [Span(0, 1), Span(0, 2)]
    ensures Words(Run(["a b c.", "D e f."], Span(0, 2))) == 6
  {
    var xs := ["a b c.", "D e f."];
    ExampleCounts();
    TwoSentencePack();
    assert Run(xs, Span(0, 2)) == xs;
    assert Sum([3, 3]) == 6 by {
      assert [3, 3][..1] == [3];
    }
  }

  /** No page yields a chunk exactly when every page is blank. */
  lemma {:induction false} ChunkPagesEmptyIffAllBlank(pages: seq<Page>, size: int, overlap: int)
    ensures ChunkPages(pages, size, overlap) == [] <==> forall k :: 0 <= k < |pages| ==> IsBlank(pages[k].text)
  {
    if pages != [] {
      var init, last := pages[..|pages| - 1], pages[|pages| - 1];
      ChunkPagesEmptyIffAllBlank(init, size, overlap);
      PageChunksEmptyIffBlank(last, size, overlap);
      assert ChunkPages(pages, size, overlap) == ChunkPages(init, size, overlap) + PageChunks(last, size, overlap);
      if forall k :: 0 <= k < |pages| ==> IsBlank(pages[k].text) {
        forall k | 0 <= k < |init| ensures IsBlank(init[k].text) {
          assert init[k] == pages[k];
        }
      } else {
        var k :| 0 <= k < |pages| && !IsBlank(pages[k].text);
        if k < |init| {
          assert init[k] == pages[k];
        }
      }
    }
  }

  /** The placeholder is returned exactly when every page is blank. */
  lemma ChunksOfPlaceholder(pages: seq<Page>, size: int, overlap: int)
    ensures (forall k :: 0 <= k < |pages| ==> IsBlank(pages[k].text)) ==> ChunksOf(pages, size, overlap) == [Placeholder]
    ensures (exists k :: 0 <= k < |pages| && !IsBlank(pages[k].text)) ==>
              ChunksOf(pages, size, overlap) == ChunkPages(pages, size, overlap) != []
  {
    ChunkPagesEmptyIffAllBlank(pages, size, overlap);
  }

  /** Every chunk comes from a page with text, and carries that page's
      number and section. */
  lemma {:induction false} ChunkProvenance(pages: seq<Page>, size: int, overlap: int, c: Chunk)
    requires c in ChunkPages(pages, size, overlap)
    ensures !IsBlank(c.content)
    ensures exists k :: 0 <= k < |pages| && !IsBlank(pages[k].text)
                     && c.page == pages[k].number && c.section == pages[k].section
  {
    var init := pages[..|pages| - 1];
    var last := pages[|pages| - 1];
    if c in ChunkPages(init, size, overlap) {
      ChunkProvenance(init, size, overlap, c);
      var k :| 0 <= k < |init| && !IsBlank(init[k].text) && c.page == init[k].number && c.section == init[k].section;
      assert init[k] == pages[k];
    } else {
      var i :| 0 <= i < |PageChunks(last, size, overlap)| && PageChunks(last, size, overlap)[i] == c;
      PageChunkShape(last, size, overlap, i);
      PageChunksEmptyIffBlank(last, size, overlap);
    }
  }

  // ---------------------------------------------------------------------------
  // chunk_text

  lemma {:induction false} NonBlankStep(ss: seq<string>, i: nat)
    requires i < |ss|
    ensures NonBlank(ss[..i + 1]) == NonBlank(ss[..i]) + (if IsBlank(ss[i]) then [] else [ss[i]])
    ensures |NonBlank(ss[..i + 1])| <= |NonBlank(ss)|
    ensures NonBlank(ss[..i + 1]) == NonBlank(ss)[..|NonBlank(ss[..i + 1])|]
  {
    assert ss[..i + 1][..i] == ss[..i];
    assert ss == ss[..i + 1] + ss[i + 1..];
    NonBlankAppend(ss[..i + 1], ss[i + 1..]);
  }

  /** A flush: the buffer, sentences `st` up to `j`, becomes a span and is
      re-seeded with its last `Kept` sentences, to which sentence `j` is added. */
  lemma {:induction false} FlushStep(ws: seq<nat>, st: nat, j: nat, size: int, overlap: int)
    requires st < j < |ws| && Sum(ws[st..j]) + ws[j] > size
    ensures PackFrom(ws, st, j, size, overlap)
         == [Span(st, j)] + PackFrom(ws, j - Kept(j - st, overlap), j + 1, size, overlap)
  {
  }

  lemma {:induction false} NoFlushStep(ws: seq<nat>, st: nat, j: nat, size: int, overlap: int)
    requires st <= j < |ws| && !(st < j && Sum(ws[st..j]) + ws[j] > size)
    ensures PackFrom(ws, st, j, size, overlap) == PackFrom(ws, st, j + 1, size, overlap)
  {
  }

  /** `current_chunk[-overlap_count:] if overlap_count > 0 else []`, with
      `overlap_count = min(overlap, len(current_chunk))`, keeps the last `Kept`
      sentences of the buffer. */
  lemma {:induction false} Reseed(xs: seq<string>, st: nat, j: nat, cur: seq<string>, overlapCount: int, overlap: int)
    requires st <= j <= |xs| && cur == xs[st..j]
    requires overlapCount == if overlap < |cur| then overlap else |cur|
    ensures (if overlapCount > 0 then cur[|cur| - overlapCount..] else []) == KeptTail(cur, overlap)
    ensures KeptTail(cur, overlap) == xs[j - Kept(j - st, overlap)..j]
  {
  }

  /** The loop state of `chunk_text` on one page, whose non-blank sentences
      are `xs` with word counts `ws`: the buffer `cur` is `xs[st..j]`, `len`
      its word count, and the chunks emitted so far are those of the spans
      `emitted`, which the spans still to come from this state complete to
      the page's spans. */
  ghost predicate Buffered(xs: seq<string>, ws: seq<nat>, st: nat, j: nat, cur: seq<string>, len: int,
                           emitted: seq<Span>, chunks: seq<Chunk>, page: Page, size: int, overlap: int)
  {
    && |ws| == |xs| && st <= j <= |xs| && cur == xs[st..j] && len == Sum(ws[st..j])
    && SpansWithin(emitted, |xs|)
    && emitted + PackFrom(ws, st, j, size, overlap) == Pack(ws, size, overlap)
    && chunks == Tag(xs, emitted, page.number, page.section)
  }

  /** The state right before sentence `j` is added to the buffer
      unconditionally (after a flush, or when it fits). */
  ghost predicate Seeded(xs: seq<string>, ws: seq<nat>, st: nat, j: nat, cur: seq<string>, len: int,
                         emitted: seq<Span>, chunks: seq<Chunk>, page: Page, size: int, overlap: int)
  {
    && |ws| == |xs| && st <= j < |xs| && cur == xs[st..j] && len == Sum(ws[st..j])
    && SpansWithin(emitted, |xs|)
    && emitted + PackFrom(ws, st, j + 1, size, overlap) == Pack(ws, size, overlap)
    && chunks == Tag(xs, emitted, page.number, page.section)
  }

  lemma {:induction false} FlushKeeps(xs: seq<string>, ws: seq<nat>, st: nat, j: nat, cur: seq<string>, len: int,
                                      emitted: seq<Span>, chunks: seq<Chunk>, page: Page, size: int, overlap: int)
    requires Buffered(xs, ws, st, j, cur, len, emitted, chunks, page, size, overlap)
    requires st < j < |xs| && len + ws[j] > size
    ensures var st' := j - Kept(j - st, overlap);
      Seeded(xs, ws, st', j, xs[st'..j], Sum(ws[st'..j]), emitted + [Span(st, j)],
             chunks + [Chunk(JoinSpace(cur), page.number, page.section)], page, size, overlap)
  {
    FlushStep(ws, st, j, size, overlap);
    var rest := PackFrom(ws, j - Kept(j - st, overlap), j + 1, size, overlap);
    assert (emitted + [Span(st, j)]) + rest == Pack(ws, size, overlap);
    assert SpansWithin(emitted + [Span(st, j)], |xs|) by {
      PackBounds(ws, size, overlap);
      assert Pack(ws, size, overlap)[|emitted|] == Span(st, j);
    }
    TagSnoc(xs, emitted, Span(st, j), page.number, page.section);
  }

  /** The flush in terms of the buffer: the carried sentences are its
      `KeptTail`, with their word count. */
  lemma FlushSeeded(xs: seq<string>, ws: seq<nat>, st: nat, j: nat, cur: seq<string>, len: int,
                    emitted: seq<Span>, chunks: seq<Chunk>, page: Page, size: int, overlap: int)
    requires ws == Counts(xs)
    requires Buffered(xs, ws, st, j, cur, len, emitted, chunks, page, size, overlap)
    requires st < j < |xs| && len + ws[j] > size
    ensures Seeded(xs, ws, j - Kept(j - st, overlap), j, KeptTail(cur, overlap), Words(KeptTail(cur, overlap)),
                   emitted + [Span(st, j)], chunks + [Chunk(JoinSpace(cur), page.number, page.section)], page, size, overlap)
  {
    FlushKeeps(xs, ws, st, j, cur, len, emitted, chunks, page, size, overlap);
    var st' := j - Kept(j - st, overlap);
    Reseed(xs, st, j, cur, if overlap < |cur| then overlap else |cur|, overlap);
    CountsSlice(xs, st', j);
  }

  lemma {:induction false} FitKeeps(xs: seq<string>, ws: seq<nat>, st: nat, j: nat, cur: seq<string>, len: int,
                                    emitted: seq<Span>, chunks: seq<Chunk>, page: Page, size: int, overlap: int)
    requires Buffered(xs, ws, st, j, cur, len, emitted, chunks, page, size, overlap)
    requires j < |xs| && !(len + ws[j] > size && cur != [])
    ensures Seeded(xs, ws, st, j, cur, len, emitted, chunks, page, size, overlap)
  {
    NoFlushStep(ws, st, j, size, overlap);
  }

  lemma {:induction false} AppendKeeps(xs: seq<string>, ws: seq<nat>, st: nat, j: nat, cur: seq<string>, len: int,
                                       emitted: seq<Span>, chunks: seq<Chunk>, page: Page, size: int, overlap: int)
    requires Seeded(xs, ws, st, j, cur, len, emitted, chunks, page, size, overlap)
    ensures Buffered(xs, ws, st, j + 1, cur + [xs[j]], len + ws[j], emitted, chunks, page, size, overlap)
  {
    SumSnoc(ws, st, j);
  }

  /** The sentences a flush carries into the next chunk: the last
      `min(overlap, len(current_chunk))` of the buffer, none for a
      non-positive overlap. */
  function KeptTail(cur: seq<string>, overlap: int): (t: seq<string>)
    ensures |t| == Kept(|cur|, overlap) && t == cur[|cur| - |t|..]
  {
    cur[|cur| - Kept(|cur|, overlap)..]
  }

  /** One non-blank sentence added to the buffer: when it does not fit a
      non-empty buffer, the buffer is emitted as a chunk and only its kept
      tail stays; then the sentence and its words join the buffer. */
  predicate Added(sentence: string, cur: seq<string>, len: int, chunks: seq<Chunk>,
                  page: Page, size: int, overlap: int,
                  cur': seq<string>, len': int, chunks': seq<Chunk>)
  {
    if len + WordCount(sentence) > size && cur != [] then
      && chunks' == chunks + [Chunk(JoinSpace(cur), page.number, page.section)]
      && cur' == KeptTail(cur, overlap) + [sentence]
      && len' == Words(KeptTail(cur, overlap)) + WordCount(sentence)
    else
      chunks' == chunks && cur' == cur + [sentence] && len' == len + WordCount(sentence)
  }

  /** The flush of `chunk_text`: the buffer becomes a chunk and is re-seeded
      with its last `min(overlap, len(current_chunk))` sentences, whose words
      are counted afresh. */
  method FlushBuffer(ghost xs: seq<string>, ghost ws: seq<nat>, ghost st: nat, ghost j: nat, ghost emitted: seq<Span>,
                     cur: seq<string>, len: int, chunks: seq<Chunk>,
                     page: Page, chunkSize: int, overlap: int)
    returns (ghost st': nat, ghost emitted': seq<Span>, cur': seq<string>, len': int, chunks': seq<Chunk>)
    requires ws == Counts(xs)
    requires Buffered(xs, ws, st, j, cur, len, emitted, chunks, page, chunkSize, overlap)
    requires j < |xs| && len + ws[j] > chunkSize && cur != []
    ensures chunks' == chunks + [Chunk(JoinSpace(cur), page.number, page.section)]
    ensures cur' == KeptTail(cur, overlap) && len' == Words(cur')
    ensures Seeded(xs, ws, st', j, cur', len', emitted', chunks', page, chunkSize, overlap)
  {
    FlushSeeded(xs, ws, st, j, cur, len, emitted, chunks, page, chunkSize, overlap);
    chunks' := chunks + [Chunk(JoinSpace(cur), page.number, page.section)];
    emitted' := emitted + [Span(st, j)];
    var overlapCount := if overlap < |cur| then overlap else |cur|;
    Reseed(xs, st, j, cur, overlapCount, overlap);
    cur' := if overlapCount > 0 then cur[|cur| - overlapCount..] else [];
    len' := Words(cur');
    st' := j - Kept(j - st, overlap);
  }

  /** One non-blank sentence through the loop body of `chunk_text`: flush the
      buffer if the sentence would push it over the budget, then add it. */
  method AddSentence(ghost xs: seq<string>, ghost ws: seq<nat>, ghost st: nat, ghost j: nat, ghost emitted: seq<Span>,
                     sentence: string, cur: seq<string>, len: int, chunks: seq<Chunk>,
                     page: Page, chunkSize: int, overlap: int)
    returns (ghost st': nat, ghost emitted': seq<Span>, cur': seq<string>, len': int, chunks': seq<Chunk>)
    requires ws == Counts(xs)
    requires Buffered(xs, ws, st, j, cur, len, emitted, chunks, page, chunkSize, overlap)
    requires j < |xs| && xs[j] == sentence
    ensures Added(sentence, cur, len, chunks, page, chunkSize, overlap, cur', len', chunks')
    ensures Buffered(xs, ws, st', j + 1, cur', len', emitted', chunks', page, chunkSize, overlap)
  {
    var tokenCount := WordCount(sentence);
    assert tokenCount == ws[j];
    if len + tokenCount > chunkSize && cur != [] {
      st', emitted', cur', len', chunks' := FlushBuffer(xs, ws, st, j, emitted, cur, len, chunks, page, chunkSize, overlap);
    } else {
      FitKeeps(xs, ws, st, j, cur, len, emitted, chunks, page, chunkSize, overlap);
      st', emitted', cur', len', chunks' := st, emitted, cur, len, chunks;
    }
    AppendKeeps(xs, ws, st', j, cur', len', emitted', chunks', page, chunkSize, overlap);
    cur' := cur' + [sentence];
    len' := len' + tokenCount;
  }

  lemma BufferedStart(xs: seq<string>, page: Page, size: int, overlap: int)
    ensures Buffered(xs, Counts(xs), 0, 0, [], 0, [], [], page, size, overlap)
  {
    assert Tag(xs, [], page.number, page.section) == [];
  }

  /** The flush after the last sentence completes the page's chunks. */
  lemma {:induction false} FinalFlush(xs: seq<string>, st: nat, cur: seq<string>, len: int,
                                      emitted: seq<Span>, chunks: seq<Chunk>, page: Page, size: int, overlap: int)
    requires Buffered(xs, Counts(xs), st, |xs|, cur, len, emitted, chunks, page, size, overlap)
    requires xs == Sentences(page.text) && !IsBlank(page.text)
    ensures (if cur != [] then chunks + [Chunk(JoinSpace(cur), page.number, page.section)] else chunks)
         == PageChunks(page, size, overlap)
  {
    var ws := Counts(xs);
    PackBounds(ws, size, overlap);
    if cur != [] {
      assert emitted + [Span(st, |xs|)] == Pack(ws, size, overlap);
      assert Pack(ws, size, overlap)[|emitted|] == Span(st, |xs|);
      TagSnoc(xs, emitted, Span(st, |xs|), page.number, page.section);
    } else {
      assert emitted == Pack(ws, size, overlap);
    }
  }

  /** What the loop has seen of the split: the kept sentences so far are the
      first `j` of the page's. */
  lemma {:induction false} SeenStep(ss: seq<string>, i: nat, xs: seq<string>, j: nat)
    requires xs == NonBlank(ss) && i < |ss| && j <= |xs| && NonBlank(ss[..i]) == xs[..j]
    ensures IsBlank(ss[i]) ==> NonBlank(ss[..i + 1]) == xs[..j]
    ensures !IsBlank(ss[i]) ==> j < |xs| && xs[j] == ss[i] && NonBlank(ss[..i + 1]) == xs[..j + 1]
  {
    NonBlankStep(ss, i);
    if !IsBlank(ss[i]) {
      var n := NonBlank(ss[..i + 1]);
      assert n == xs[..j] + [ss[i]];
      assert n[j] == ss[i];
    }
  }

  /** One sentence of the split through the loop body of `chunk_text`: a
      blank one is skipped, any other is added. */
  method ScanSentence(ghost xs: seq<string>, sentences: seq<string>, i: nat, ghost st: nat, ghost j: nat,
                      ghost emitted: seq<Span>, cur: seq<string>, len: int, chunks: seq<Chunk>,
                      page: Page, chunkSize: int, overlap: int)
    returns (ghost st': nat, ghost j': nat, ghost emitted': seq<Span>, cur': seq<string>, len': int, chunks': seq<Chunk>)
    requires xs == NonBlank(sentences) && i < |sentences| && j <= |xs| && NonBlank(sentences[..i]) == xs[..j]
    requires Buffered(xs, Counts(xs), st, j, cur, len, emitted, chunks, page, chunkSize, overlap)
    ensures j' <= |xs| && NonBlank(sentences[..i + 1]) == xs[..j']
    ensures IsBlank(sentences[i]) ==> cur' == cur && len' == len && chunks' == chunks
    ensures !IsBlank(sentences[i]) ==> Added(sentences[i], cur, len, chunks, page, chunkSize, overlap, cur', len', chunks')
    ensures Buffered(xs, Counts(xs), st', j', cur', len', emitted', chunks', page, chunkSize, overlap)
  {
    var sentence := sentences[i];
    SeenStep(sentences, i, xs, j);
    if !IsBlank(sentence) {
      st', emitted', cur', len', chunks' :=
        AddSentence(xs, Counts(xs), st, j, emitted, sentence, cur, len, chunks, page, chunkSize, overlap);
      j' := j + 1;
    } else {
      st', j', emitted', cur', len', chunks' := st, j, emitted, cur, len, chunks;
    }
  }

  /** The chunks of one page: the inner loop of `chunk_text`. */
  method ChunkPage(page: Page, chunkSize: int, overlap: int) returns (chunks: seq<Chunk>)
    requires !IsBlank(page.text)
    ensures chunks == PageChunks(page, chunkSize, overlap)
  {
    var sentences := SplitSentences(page.text);
    ghost var xs := NonBlank(sentences);
    ghost var emitted: seq<Span> := [];
    ghost var st: nat := 0;
    ghost var j: nat := 0;
    chunks := [];
    var currentChunk: seq<string> := [];
    var currentLength := 0;
    BufferedStart(xs, page, chunkSize, overlap);
    for i := 0 to |sentences|
      invariant j <= |xs| && NonBlank(sentences[..i]) == xs[..j]
      invariant Buffered(xs, Counts(xs), st, j, currentChunk, currentLength, emitted, chunks, page, chunkSize, overlap)
    {
      st, j, emitted, currentChunk, currentLength, chunks :=
        ScanSentence(xs, sentences, i, st, j, emitted, currentChunk, currentLength, chunks, page, chunkSize, overlap);
    }
    assert sentences[..|sentences|] == sentences;
    assert xs == Sentences(page.text);
    FinalFlush(xs, st, currentChunk, currentLength, emitted, chunks, page, chunkSize, overlap);
    if currentChunk != [] {
      chunks := chunks + [Chunk(JoinSpace(currentChunk), page.number, page.section)];
    }
  }

  /** `chunk_text(text_content, chunk_size, overlap)`: pages in the order the
      parser stored them, blank pages skipped, the placeholder when nothing
      was produced. */
  method ChunkText(pages: seq<Page>, chunkSize: int := DefaultChunkSize, overlap: int := DefaultOverlap) returns (chunks: seq<Chunk>)
    ensures chunks == ChunksOf(pages, chunkSize, overlap)
    ensures |chunks| >= 1
  {
    chunks := [];
    for n := 0 to |pages|
      invariant chunks == ChunkPages(pages[..n], chunkSize, overlap)
    {
      assert pages[..n + 1][..n] == pages[..n];
      var page := pages[n];
      if !IsBlank(page.text) {
        var pageChunks := ChunkPage(page, chunkSize, overlap);
        chunks := chunks + pageChunks;
      }
    }
    assert pages[..|pages|] == pages;
    if chunks == [] {
      chunks := [Placeholder];
    }
  }
}

/**
  * What `query_index` does with the answer of the vector search, and
  * `format_context_from_results` (retrieval.py).
  *
  * The embedding of the query and the nearest-neighbour search itself are
  * foreign: their answer is an input, `Some(Hits(...))` when the search
  * returned and `None` when it raised. Distances are reals.
  */
module Retrieval {
  import opened Text
  import opened Wrappers
  import PdfProcessing

  type Chunk = PdfProcessing.Chunk

  /** The section shown for a chunk without one. */
  const NotAvailable := "N/A"
  /** The whole context when nothing was retrieved. */
  const NoInformation := "No relevant information found in the document."
  const Header := "CONTEXT FROM PDF DOCUMENT:\n\n"
  const Footer := "END OF CONTEXT\n\n"

  /** One retrieved chunk, with its distance to the query as `score`. */
  datatype SearchResult = SearchResult(content: string, page: int, section: string, score: real, source: string)

  /** The nearest neighbours of the query: their distances and their
      positions in the chunk list (-1 when there are fewer neighbours than
      asked for). */
  datatype Hits = Hits(distances: seq<real>, indices: seq<int>)

  // ---------------------------------------------------------------------------
  // Result assembly

  /** `chunk.get("section", "") or "N/A"` */
  function SectionLabel(section: string): (s: string)
    ensures s != ""
    ensures section != "" ==> s == section
    ensures section == "" ==> s == NotAvailable
  {
    if section == "" then NotAvailable else section
  }

  /** "PDF Page P", followed by ", Section: S" unless the section is "N/A". */
  function SourceLabel(page: int, section: string): (src: string)
    ensures var head := "PDF Page " + IntToString(page);
      |head| <= |src| && src[..|head|] == head
    ensures section != NotAvailable ==> |section| <= |src| && src[|src| - |section|..] == section
    ensures |src| == |"PDF Page " + IntToString(page)| <==> section == NotAvailable
  {
    "PDF Page " + IntToString(page) + (if section != NotAvailable then ", Section: " + section else "")
  }

  /** The result built for a chunk found at distance `score`. */
  function ResultOf(chunk: Chunk, score: real): SearchResult
  {
    var section := SectionLabel(chunk.section);
    SearchResult(chunk.content, chunk.page, section, score, SourceLabel(chunk.page, section))
  }

  /** Only positions inside the chunk list produce a result. */
  predicate ValidIndex(idx: int, chunks: seq<Chunk>) {
    0 <= idx < |chunks|
  }

  /** The results of the first `n` hits, in search order; `None` when the
      distance of a valid hit is missing, which raises in the code. */
  function Assemble(chunks: seq<Chunk>, hits: Hits, n: nat): (r: Option<seq<SearchResult>>)
    requires n <= |hits.indices|
    ensures r.Some? ==> |r.value| <= n
  {
    if n == 0 then Some([])
    else
      match Assemble(chunks, hits, n - 1)
      case None => None
      case Some(rs) =>
        var idx := hits.indices[n - 1];
        if !ValidIndex(idx, chunks) then Some(rs)
        else if n - 1 >= |hits.distances| then None
        else Some(rs + [ResultOf(chunks[idx], hits.distances[n - 1])])
  }

  /** Insert `r` before the first result whose score is greater. */
  function Insert(sorted: seq<SearchResult>, r: SearchResult): (s: seq<SearchResult>)
    ensures |s| == |sorted| + 1
  {
    if sorted == [] then [r]
    else if r.score < sorted[0].score then [r] + sorted
    else [sorted[0]] + Insert(sorted[1..], r)
  }

  /** `results.sort(key=lambda x: x["score"])`: a stable sort by score. */
  function SortByScore(rs: seq<SearchResult>): (s: seq<SearchResult>)
    ensures |s| == |rs|
  {
    if rs == [] then [] else Insert(SortByScore(rs[..|rs| - 1]), rs[|rs| - 1])
  }

  /** `query_index`, from the answer of the search on. */
  function QueryIndexOf(chunks: seq<Chunk>, hits: Option<Hits>): seq<SearchResult>
  {
    match hits
    case None => []
    case Some(h) =>
      match Assemble(chunks, h, |h.indices|)
      case None => []
      case Some(rs) => SortByScore(rs)
  }

  /** Sorting the results in place. */
  method SortResults(results: seq<SearchResult>) returns (sorted: seq<SearchResult>)
    ensures sorted == SortByScore(results)
  {
    sorted := [];
    for i := 0 to |results|
      invariant sorted == SortByScore(results[..i])
    {
      var r := results[i];
      var j := 0;
      while j < |sorted| && sorted[j].score <= r.score
        invariant j <= |sorted|
        invariant forall k :: 0 <= k < j ==> sorted[k].score <= r.score
      {
        j := j + 1;
      }
      InsertAt(sorted, r, j);
      assert results[..i + 1][..i] == results[..i];
      sorted := sorted[..j] + [r] + sorted[j..];
    }
    assert results[..|results|] == results;
  }

  /** `query_index` after the search. */
  method QueryIndex(chunks: seq<Chunk>, hits: Option<Hits>) returns (results: seq<SearchResult>)
    ensures results == QueryIndexOf(chunks, hits)
  {
    if hits.None? {
      return [];
    }
    var distances, indices := hits.value.distances, hits.value.indices;
    results := [];
    for i := 0 to |indices|
      invariant Assemble(chunks, hits.value, i) == Some(results)
    {
      var idx := indices[i];
      if idx < |chunks| && idx >= 0 {
        var chunk := chunks[idx];
        var sectionInfo := if chunk.section != "" then chunk.section else NotAvailable;
        if i >= |distances| {
          AssembleFailureStays(chunks, hits.value, i + 1, |indices|);
          return [];
        }
        var source := "PDF Page " + IntToString(chunk.page)
          + (if sectionInfo != NotAvailable then ", Section: " + sectionInfo else "");
        results := results + [SearchResult(chunk.content, chunk.page, sectionInfo, distances[i], source)];
      }
    }
    results := SortResults(results);
  }

  // ---------------------------------------------------------------------------
  // Formatting

  function Min(a: real, b: real): real {
    if a <= b then a else b
  }

  /** `1.0 - min(1.0, score / 100.0)`: distance turned into similarity. */
  function Relevance(score: real): (r: real)
    ensures 0.0 <= r
    ensures r <= 1.0 <==> 0.0 <= score
    ensures 100.0 <= score ==> r == 0.0
  {
    1.0 - Min(1.0, score / 100.0)
  }

  /** `x` in hundredths, rounded half up. */
  function Hundredths(x: real): (h: nat)
    requires 0.0 <= x
  {
    (x * 100.0 + 0.5).Floor
  }

  /** `f"{x:.2f}"` for a non-negative `x`. */
  function Fixed2(x: real): (s: string)
    requires 0.0 <= x
    ensures |s| >= 4
  {
    var h := Hundredths(x);
    NatToString(h / 100) + "." + [DigitChar(h / 10 % 10), DigitChar(h % 10)]
  }

  /** ", Section: S" when the section is non-empty and not "N/A". */
  function SectionPart(section: string): string
  {
    if section != "" && section != NotAvailable then ", Section: " + section else ""
  }

  /** "[EXCERPT n - Page p" */
  function ExcerptHead(n: nat, page: int): string
  {
    "[EXCERPT " + NatToString(n) + " - Page " + IntToString(page)
  }

  /** ", Relevance: x.xx]" and a line break. */
  function RelevancePart(score: real): string
  {
    ", Relevance: " + Fixed2(Relevance(score)) + "]\n"
  }

  /** The `n`-th excerpt of the context: the head, the section when it is
      shown, the relevance line, then the content and a blank line. */
  function Excerpt(n: nat, r: SearchResult): (e: string)
    ensures |ExcerptHead(n, r.page)| <= |e| && e[..|ExcerptHead(n, r.page)|] == ExcerptHead(n, r.page)
    ensures |r.content| + 2 <= |e| && e[|e| - |r.content| - 2..] == r.content + "\n\n"
    ensures var rel := ", Relevance: " + Fixed2(Relevance(r.score)) + "]\n";
      var tail := |rel| + |r.content| + 2;
      && |ExcerptHead(n, r.page)| + tail <= |e| && e[|e| - tail..|e| - tail + |rel|] == rel
      && (r.section != "" && r.section != NotAvailable ==>
            e[|ExcerptHead(n, r.page)|..|e| - tail] == ", Section: " + r.section)
      && (r.section == "" || r.section == NotAvailable ==> |e| == |ExcerptHead(n, r.page)| + tail)
  {
    ExcerptHead(n, r.page) + SectionPart(r.section) + RelevancePart(r.score) + (r.content + "\n\n")
  }

  /** The excerpts of `rs`, numbered from 1 in list order. */
  function Excerpts(rs: seq<SearchResult>): string
  {
    if rs == [] then "" else Excerpts(rs[..|rs| - 1]) + Excerpt(|rs|, rs[|rs| - 1])
  }

  /** `format_context_from_results(results)` */
  function FormatContextOf(results: seq<SearchResult>): string
  {
    if results == [] then NoInformation else Header + Excerpts(results) + Footer
  }

  /** `format_context_from_results`, accumulating the context excerpt by
      excerpt. */
  method FormatContext(results: seq<SearchResult>) returns (context: string)
    ensures context == FormatContextOf(results)
  {
    if results == [] {
      return NoInformation;
    }
    context := Header;
    for i := 0 to |results|
      invariant context == Header + Excerpts(results[..i])
    {
      context := AddExcerpt(context, i + 1, results[i]);
      ExcerptsSnoc(results, i);
      Associative(Header, Excerpts(results[..i]), Excerpt(i + 1, results[i]));
    }
    assert results[..|results|] == results;
    context := context + Footer;
  }

  /** One iteration of `format_context_from_results`: the excerpt is
      appended to the context piece by piece. */
  method AddExcerpt(context: string, i: nat, result: SearchResult) returns (context': string)
    ensures context' == context + Excerpt(i, result)
  {
    context' := context;
    var head := "[EXCERPT " + NatToString(i) + " - Page " + IntToString(result.page);
    context' := context' + head;
    var section := "";
    if result.section != "" && result.section != NotAvailable {
      section := ", Section: " + result.section;
      context' := context' + section;
    } else {
      assert context' + section == context';
    }
    var score := Relevance(result.score);
    var relevance := ", Relevance: " + Fixed2(score) + "]\n";
    context' := context' + relevance;
    var body := result.content + "\n\n";
    context' := context' + body;
    AppendExcerpt(context, i, result, head, section, relevance, body);
  }

  lemma ExcerptsSnoc(rs: seq<SearchResult>, i: nat)
    requires i < |rs|
    ensures Excerpts(rs[..i + 1]) == Excerpts(rs[..i]) + Excerpt(i + 1, rs[i])
  {
    assert rs[..i + 1][..i] == rs[..i];
  }

  lemma Associative(a: string, b: string, c: string)
    ensures a + b + c == a + (b + c)
  {
  }

  /** Appending the parts of an excerpt one by one appends the excerpt. */
  lemma AppendExcerpt(before: string, n: nat, r: SearchResult, head: string, section: string, relevance: string, body: string)
    requires head == ExcerptHead(n, r.page) && section == SectionPart(r.section)
    requires relevance == RelevancePart(r.score) && body == r.content + "\n\n"
    ensures before + head + section + relevance + body == before + Excerpt(n, r)
  {
    assert before + head + section + relevance + body == before + (head + section + relevance + body);
  }

  // ---------------------------------------------------------------------------
  // Properties of result assembly

  /** The sort finds its insertion point by a forward scan. */
  lemma {:induction false} InsertAt(sorted: seq<SearchResult>, r: SearchResult, j: nat)
    requires j <= |sorted|
    requires forall k :: 0 <= k < j ==> sorted[k].score <= r.score
    requires j == |sorted| || r.score < sorted[j].score
    ensures Insert(sorted, r) == sorted[..j] + [r] + sorted[j..]
  {
    if sorted != [] && j > 0 {
      InsertAt(sorted[1..], r, j - 1);
      assert sorted[..j] == [sorted[0]] + sorted[1..][..j - 1];
    }
  }

  /** A failed read stays failed. */
  lemma {:induction false} AssembleFailureStays(chunks: seq<Chunk>, hits: Hits, n: nat, m: nat)
    requires n <= m <= |hits.indices|
    requires 0 < n && ValidIndex(hits.indices[n - 1], chunks) && n - 1 >= |hits.distances|
    ensures Assemble(chunks, hits, m) == None
    decreases m
  {
    if m > n {
      AssembleFailureStays(chunks, hits, n, m - 1);
    }
  }

  /** A valid hit without a distance, among the first `n` hits. */
  predicate MissingDistance(chunks: seq<Chunk>, hits: Hits, n: nat)
    requires n <= |hits.indices|
  {
    exists i :: 0 <= i < n && ValidIndex(hits.indices[i], chunks) && i >= |hits.distances|
  }

  /** The result the `i`-th hit gives. */
  function HitResult(chunks: seq<Chunk>, hits: Hits, i: nat): SearchResult
    requires i < |hits.indices| && ValidIndex(hits.indices[i], chunks) && i < |hits.distances|
  {
    ResultOf(chunks[hits.indices[i]], hits.distances[i])
  }

  /** The positions among the first `n` hits whose index is valid: all of
      them, each once, in search order. */
  function ValidHits(chunks: seq<Chunk>, hits: Hits, n: nat): (ps: seq<nat>)
    requires n <= |hits.indices|
    ensures forall k :: 0 <= k < |ps| ==> ps[k] < n && ValidIndex(hits.indices[ps[k]], chunks)
    ensures forall k, l :: 0 <= k < l < |ps| ==> ps[k] < ps[l]
    ensures forall i :: 0 <= i < n && ValidIndex(hits.indices[i], chunks) ==> i in ps
  {
    if n == 0 then []
    else ValidHits(chunks, hits, n - 1) + (if ValidIndex(hits.indices[n - 1], chunks) then [n - 1] else [])
  }

  /** The results the hits at positions `ps` give, in that order. */
  function HitResults(chunks: seq<Chunk>, hits: Hits, ps: seq<nat>): (rs: seq<SearchResult>)
    requires forall k :: 0 <= k < |ps| ==>
      ps[k] < |hits.indices| && ValidIndex(hits.indices[ps[k]], chunks) && ps[k] < |hits.distances|
    ensures |rs| == |ps|
    ensures forall k :: 0 <= k < |ps| ==> rs[k] == HitResult(chunks, hits, ps[k])
  {
    seq(|ps|, k requires 0 <= k < |ps| => HitResult(chunks, hits, ps[k]))
  }

  /** The assembly fails exactly when a valid hit has no distance. */
  lemma {:induction false} AssembleFails(chunks: seq<Chunk>, hits: Hits, n: nat)
    requires n <= |hits.indices|
    ensures Assemble(chunks, hits, n).None? <==> MissingDistance(chunks, hits, n)
  {
    if n > 0 {
      AssembleFails(chunks, hits, n - 1);
      if MissingDistance(chunks, hits, n - 1) {
        var i :| 0 <= i < n - 1 && ValidIndex(hits.indices[i], chunks) && i >= |hits.distances|;
        assert 0 <= i < n;
      }
      if MissingDistance(chunks, hits, n) {
        var i :| 0 <= i < n && ValidIndex(hits.indices[i], chunks) && i >= |hits.distances|;
        if i < n - 1 {
          assert MissingDistance(chunks, hits, n - 1);
        }
      }
    }
  }

  /** A successful assembly holds, in search order, the result of each valid
      hit exactly once, and nothing else. */
  lemma {:induction false} AssembleSound(chunks: seq<Chunk>, hits: Hits, n: nat)
    requires n <= |hits.indices| && Assemble(chunks, hits, n).Some?
    ensures !MissingDistance(chunks, hits, n)
    ensures Assemble(chunks, hits, n).value == HitResults(chunks, hits, ValidHits(chunks, hits, n))
    ensures forall r :: r in Assemble(chunks, hits, n).value ==>
      exists i :: 0 <= i < n && ValidIndex(hits.indices[i], chunks) && i < |hits.distances| && r == HitResult(chunks, hits, i)
  {
    AssembleFails(chunks, hits, n);
    AssembleExact(chunks, hits, n);
    var rs := Assemble(chunks, hits, n).value;
    var ps := ValidHits(chunks, hits, n);
    forall r | r in rs
      ensures exists i :: 0 <= i < n && ValidIndex(hits.indices[i], chunks) && i < |hits.distances| && r == HitResult(chunks, hits, i)
    {
      var k :| 0 <= k < |rs| && rs[k] == r;
      assert r == HitResult(chunks, hits, ps[k]);
    }
  }

  lemma {:induction false} AssembleExact(chunks: seq<Chunk>, hits: Hits, n: nat)
    requires n <= |hits.indices| && !MissingDistance(chunks, hits, n)
    ensures Assemble(chunks, hits, n) == Some(HitResults(chunks, hits, ValidHits(chunks, hits, n)))
  {
    if n > 0 {
      assert !MissingDistance(chunks, hits, n - 1);
      AssembleExact(chunks, hits, n - 1);
      var prev := ValidHits(chunks, hits, n - 1);
      if ValidIndex(hits.indices[n - 1], chunks) {
        assert n - 1 < |hits.distances|;
        assert ValidHits(chunks, hits, n) == prev + [n - 1];
        assert HitResults(chunks, hits, prev + [n - 1])
            == HitResults(chunks, hits, prev) + [HitResult(chunks, hits, n - 1)];
      } else {
        assert ValidHits(chunks, hits, n) == prev;
      }
    }
  }

  /** Every valid hit gives a result. */
  lemma {:induction false} AssembleComplete(chunks: seq<Chunk>, hits: Hits, n: nat)
    requires n <= |hits.indices| && Assemble(chunks, hits, n).Some?
    ensures forall i :: 0 <= i < n && ValidIndex(hits.indices[i], chunks) ==>
      i < |hits.distances| && HitResult(chunks, hits, i) in Assemble(chunks, hits, n).value
  {
    if n > 0 {
      AssembleComplete(chunks, hits, n - 1);
    }
  }

  /** Results in ascending order of score. */
  predicate SortedByScore(rs: seq<SearchResult>) {
    forall i, j :: 0 <= i < j < |rs| ==> rs[i].score <= rs[j].score
  }

  /** The results of `rs` whose score is `v`, in order. */
  function WithScore(rs: seq<SearchResult>, v: real): seq<SearchResult>
  {
    if rs == [] then []
    else (if rs[0].score == v then [rs[0]] else []) + WithScore(rs[1..], v)
  }

  lemma {:induction false} WithScoreAppend(a: seq<SearchResult>, b: seq<SearchResult>, v: real)
    ensures WithScore(a + b, v) == WithScore(a, v) + WithScore(b, v)
  {
    if a == [] {
      assert a + b == b;
    } else {
      var ab := a + b;
      assert ab[0] == a[0] && ab[1..] == a[1..] + b;
      var x := if a[0].score == v then [a[0]] else [];
      WithScoreAppend(a[1..], b, v);
      assert WithScore(ab, v) == x + (WithScore(a[1..], v) + WithScore(b, v));
      SeqAssociative(x, WithScore(a[1..], v), WithScore(b, v));
    }
  }

  lemma SeqAssociative(a: seq<SearchResult>, b: seq<SearchResult>, c: seq<SearchResult>)
    ensures a + (b + c) == a + b + c
  {
  }

  lemma {:induction false} WithScoreNone(rs: seq<SearchResult>, v: real)
    requires forall k :: 0 <= k < |rs| ==> v < rs[k].score
    ensures WithScore(rs, v) == []
  {
    if rs != [] {
      WithScoreNone(rs[1..], v);
    }
  }

  lemma {:induction false} InsertMultiset(sorted: seq<SearchResult>, r: SearchResult)
    ensures multiset(Insert(sorted, r)) == multiset(sorted) + multiset{r}
  {
    if sorted != [] && r.score >= sorted[0].score {
      InsertMultiset(sorted[1..], r);
      assert sorted == [sorted[0]] + sorted[1..];
    }
  }

  lemma {:induction false} InsertSorted(sorted: seq<SearchResult>, r: SearchResult)
    requires SortedByScore(sorted)
    ensures SortedByScore(Insert(sorted, r))
  {
    if sorted != [] && r.score >= sorted[0].score {
      var rest := sorted[1..];
      InsertSorted(rest, r);
      InsertAbove(rest, r, sorted[0].score);
      var s := Insert(sorted, r);
      assert s[1..] == Insert(rest, r);
      forall j | 0 < j < |s| ensures s[0].score <= s[j].score {
        assert s[j] == Insert(rest, r)[j - 1];
      }
    }
  }

  /** Inserting keeps a lower bound on the scores. */
  lemma {:induction false} InsertAbove(sorted: seq<SearchResult>, r: SearchResult, b: real)
    requires forall k :: 0 <= k < |sorted| ==> b <= sorted[k].score
    requires b <= r.score
    ensures forall k :: 0 <= k < |sorted| + 1 ==> b <= Insert(sorted, r)[k].score
  {
    if sorted != [] && r.score >= sorted[0].score {
      InsertAbove(sorted[1..], r, b);
      var s := Insert(sorted, r);
      forall k | 0 < k < |s| ensures b <= s[k].score {
        assert s[k] == Insert(sorted[1..], r)[k - 1];
      }
    }
  }

  lemma {:induction false} InsertWithScore(sorted: seq<SearchResult>, r: SearchResult, v: real)
    requires SortedByScore(sorted)
    ensures WithScore(Insert(sorted, r), v) == WithScore(sorted, v) + (if r.score == v then [r] else [])
  {
    if sorted == [] {
    } else if r.score < sorted[0].score {
      assert ([r] + sorted)[1..] == sorted;
      if r.score == v {
        WithScoreNone(sorted, v);
      }
    } else {
      InsertWithScore(sorted[1..], r, v);
      assert Insert(sorted, r)[1..] == Insert(sorted[1..], r);
    }
  }

  /** The sort orders by score, keeps every result, and keeps results of
      equal score in their original order (it is stable). */
  lemma SortByScoreSpec(rs: seq<SearchResult>)
    ensures SortedByScore(SortByScore(rs))
    ensures multiset(SortByScore(rs)) == multiset(rs)
    ensures forall v :: WithScore(SortByScore(rs), v) == WithScore(rs, v)
  {
    SortSorted(rs);
    SortMultiset(rs);
    forall v ensures WithScore(SortByScore(rs), v) == WithScore(rs, v) {
      SortStable(rs, v);
    }
  }

  lemma {:induction false} SortSorted(rs: seq<SearchResult>)
    ensures SortedByScore(SortByScore(rs))
  {
    if rs != [] {
      SortSorted(rs[..|rs| - 1]);
      InsertSorted(SortByScore(rs[..|rs| - 1]), rs[|rs| - 1]);
    }
  }

  lemma {:induction false} SortMultiset(rs: seq<SearchResult>)
    ensures multiset(SortByScore(rs)) == multiset(rs)
  {
    if rs != [] {
      var init, last := rs[..|rs| - 1], rs[|rs| - 1];
      SortMultiset(init);
      InsertMultiset(SortByScore(init), last);
      assert rs == init + [last];
    }
  }

  lemma {:induction false} SortStable(rs: seq<SearchResult>, v: real)
    ensures WithScore(SortByScore(rs), v) == WithScore(rs, v)
  {
    if rs != [] {
      var init, last := rs[..|rs| - 1], rs[|rs| - 1];
      SortStable(init, v);
      SortSorted(init);
      InsertWithScore(SortByScore(init), last, v);
      assert rs == init + [last];
      WithScoreAppend(init, [last], v);
      assert WithScore([last], v) == (if last.score == v then [last] else []);
    }
  }

  /** A failing search gives no results. */
  lemma SearchFailureEmpty(chunks: seq<Chunk>)
    ensures QueryIndexOf(chunks, None) == []
  {
  }

  /** `query_index`: at most one result per hit; each result is built from a
      valid hit; when a valid hit has no distance there are no results at
      all; otherwise the results are the valid hits' results, each valid hit
      exactly once, rearranged into ascending order of score. */
  lemma QueryIndexSpec(chunks: seq<Chunk>, h: Hits)
    ensures var out := QueryIndexOf(chunks, Some(h));
      && |out| <= |h.indices|
      && SortedByScore(out)
      && (forall r :: r in out ==>
            exists i :: 0 <= i < |h.indices| && ValidIndex(h.indices[i], chunks) && i < |h.distances|
              && r == HitResult(chunks, h, i))
      && (MissingDistance(chunks, h, |h.indices|) <==> out == [] && Assemble(chunks, h, |h.indices|).None?)
      && (!MissingDistance(chunks, h, |h.indices|) ==>
            forall i :: 0 <= i < |h.indices| && ValidIndex(h.indices[i], chunks) ==>
              i < |h.distances| && HitResult(chunks, h, i) in out)
      && (!MissingDistance(chunks, h, |h.indices|) ==>
            multiset(out) == multiset(HitResults(chunks, h, ValidHits(chunks, h, |h.indices|))))
  {
    AssembleFails(chunks, h, |h.indices|);
    var a := Assemble(chunks, h, |h.indices|);
    if a.Some? {
      AssembleSound(chunks, h, |h.indices|);
      AssembleComplete(chunks, h, |h.indices|);
      SortSorted(a.value);
      SortMultiset(a.value);
      var out := SortByScore(a.value);
      forall r | r in out ensures r in a.value {
        assert r in multiset(out);
      }
      forall r | r in a.value ensures r in out {
        assert r in multiset(a.value);
      }
    }
  }

  /** Results with the same score come out in search order. */
  lemma QueryIndexStable(chunks: seq<Chunk>, h: Hits, v: real)
    requires !MissingDistance(chunks, h, |h.indices|)
    ensures WithScore(QueryIndexOf(chunks, Some(h)), v)
         == WithScore(HitResults(chunks, h, ValidHits(chunks, h, |h.indices|)), v)
  {
    AssembleFails(chunks, h, |h.indices|);
    AssembleSound(chunks, h, |h.indices|);
    SortByScoreSpec(Assemble(chunks, h, |h.indices|).value);
  }

  /** A result carries its chunk's content and page, the chunk's section or
      "N/A", and a source label that names the section exactly when it is
      not "N/A". */
  lemma ResultOfSpec(chunk: Chunk, score: real)
    ensures var r := ResultOf(chunk, score);
      var page := "PDF Page " + IntToString(chunk.page);
      && r.content == chunk.content && r.page == chunk.page && r.score == score
      && r.section == (if chunk.section == "" then NotAvailable else chunk.section)
      && |page| <= |r.source| && r.source[..|page|] == page
      && (|r.source| == |page| <==> r.section == NotAvailable)
      && (r.section != NotAvailable ==> r.source == page + ", Section: " + r.section)
      && (r.section == NotAvailable ==> r.source == page)
  {
  }

  // ---------------------------------------------------------------------------
  // Properties of formatting

  /** The relevance falls as the distance grows. */
  lemma RelevanceMonotone(s: real, t: real)
    requires s <= t
    ensures Relevance(t) <= Relevance(s)
  {
  }

  /** The rendered relevance is `x` to the nearest hundredth: reading the
      digits before and after the point back gives the hundredths, which lie
      within half a hundredth of `x`. */
  lemma Fixed2Spec(x: real)
    requires 0.0 <= x
    ensures var s := Fixed2(x);
      var h := Hundredths(x);
      && s[|s| - 3] == '.'
      && (forall k :: 0 <= k < |s| && k != |s| - 3 ==> IsDigit(s[k]))
      && DigitsValue(s[..|s| - 3]) * 100 + DigitsValue(s[|s| - 2..]) == h
      && h as real - 0.5 <= x * 100.0 < h as real + 0.5
  {
    var h := Hundredths(x);
    var s := Fixed2(x);
    assert s[..|s| - 3] == NatToString(h / 100);
    NatToStringRoundTrip(h / 100);
    assert s[|s| - 2..] == [DigitChar(h / 10 % 10), DigitChar(h % 10)];
    TwoDigits(h / 10 % 10, h % 10);
    Hundreds(h);
  }

  lemma TwoDigits(d: nat, e: nat)
    requires d < 10 && e < 10
    ensures DigitsValue([DigitChar(d), DigitChar(e)]) == 10 * d + e
  {
    var s := [DigitChar(d), DigitChar(e)];
    assert s[..1] == [DigitChar(d)];
    assert s[..1][..0] == [];
    assert DigitsValue(s[..1]) == d;
    assert DigitsValue(s) == 10 * DigitsValue(s[..1]) + (s[1] as int - '0' as int);
  }

  lemma Hundreds(h: nat)
    ensures h / 100 * 100 + (10 * (h / 10 % 10) + h % 10) == h
  {
    var q := h / 10;
    assert h == 10 * q + h % 10;
    assert q == 10 * (q / 10) + q % 10;
    assert h / 100 == q / 10;
  }

  /** The context is the fixed sentence exactly when there are no results. */
  lemma FormatEmptyIff(results: seq<SearchResult>)
    ensures FormatContextOf(results) == NoInformation <==> results == []
  {
    if results != [] {
      assert FormatContextOf(results)[0] == 'C';
    }
  }

  /** A non-empty context opens with the header and closes with the footer. */
  lemma FormatFrame(results: seq<SearchResult>)
    requires results != []
    ensures var c := FormatContextOf(results);
      && |Header| + |Footer| <= |c|
      && c[..|Header|] == Header && c[|c| - |Footer|..] == Footer
  {
  }

  lemma {:induction false} ExcerptsPrefix(rs: seq<SearchResult>, k: nat)
    requires k <= |rs|
    ensures Excerpts(rs[..k]) <= Excerpts(rs)
    decreases |rs| - k
  {
    if k < |rs| {
      ExcerptsPrefix(rs, k + 1);
      ExcerptsSnoc(rs, k);
      PrefixOfAppend(Excerpts(rs[..k]), Excerpt(k + 1, rs[k]), Excerpts(rs));
    } else {
      assert rs[..k] == rs;
    }
  }

  lemma PrefixOfAppend(a: string, b: string, c: string)
    requires a + b <= c
    ensures a <= c
  {
    assert c[..|a|] == (a + b)[..|a|];
  }

  lemma PrefixSplit(p: string, s: string)
    requires p <= s
    ensures s == p + s[|p|..]
  {
  }

  /** The middle part of a concatenation occurs after the parts before it. */
  lemma OccursInMiddle(a: string, b: string, e: string, rest: string, d: string)
    ensures OccursAt(a + (b + e + rest) + d, e, |a| + |b|)
  {
    var s := a + (b + e + rest) + d;
    assert s[|a| + |b|..|a| + |b| + |e|] == e;
  }

  /** Result `k` appears as excerpt number `k + 1`, right after the
      excerpts of the results before it. */
  lemma ExcerptAt(results: seq<SearchResult>, k: nat)
    requires k < |results|
    ensures OccursAt(FormatContextOf(results), Excerpt(k + 1, results[k]), |Header| + |Excerpts(results[..k])|)
  {
    ExcerptsPrefix(results, k + 1);
    ExcerptsSnoc(results, k);
    var before := Excerpts(results[..k]);
    var e := Excerpt(k + 1, results[k]);
    var all := Excerpts(results);
    PrefixSplit(before + e, all);
    var rest := all[|before + e|..];
    OccursInMiddle(Header, before, e, rest, Footer);
  }

  /** An excerpt written out: "[EXCERPT n - Page p", then ", Section: s"
      exactly when the section is non-empty and not "N/A", then
      ", Relevance: x.xx]", a line break, the content and a blank line. */
  lemma ExcerptShape(n: nat, r: SearchResult)
    ensures var head := "[EXCERPT " + NatToString(n) + " - Page " + IntToString(r.page);
      var rel := ", Relevance: " + Fixed2(Relevance(r.score)) + "]\n";
      && (r.section != "" && r.section != NotAvailable ==>
            Excerpt(n, r) == head + ", Section: " + r.section + rel + r.content + "\n\n")
      && (r.section == "" || r.section == NotAvailable ==>
            Excerpt(n, r) == head + rel + r.content + "\n\n")
  {
    var head, rel := ExcerptHead(n, r.page), RelevancePart(r.score);
    var body := r.content + "\n\n";
    var front := head + SectionPart(r.section);
    assert Excerpt(n, r) == front + rel + body;
    Associative(front + rel, r.content, "\n\n");
    if r.section != "" && r.section != NotAvailable {
      Associative(head, ", Section: ", r.section);
    } else {
      assert front == head;
    }
  }

  /** In a context built from `query_index`'s results, relevance never
      increases from one excerpt to the next. */
  lemma RelevanceDescending(chunks: seq<Chunk>, hits: Option<Hits>, i: nat, j: nat)
    requires i < j < |QueryIndexOf(chunks, hits)|
    ensures var out := QueryIndexOf(chunks, hits);
      Relevance(out[j].score) <= Relevance(out[i].score)
  {
    var h := hits.value;
    QueryIndexSpec(chunks, h);
    var out := QueryIndexOf(chunks, hits);
    RelevanceMonotone(out[i].score, out[j].score);
  }
}

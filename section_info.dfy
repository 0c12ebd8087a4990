/**
  * Section labels of a page (`extract_section_info` in pdf_processing.py):
  * four heading patterns are searched in priority order in the first 200
  * characters of the page; the first that matches gives the label.
  *
  * Each pattern is modelled as the match Python's backtracking `re.search`
  * finds: the leftmost position where it matches and, there, the groups of
  * the greedy match. `\s` is `IsSpace`, `\d` an ASCII digit (the only decimal
  * digits of Latin-1) and `.` any character but a newline.
  */
module SectionInfo {
  import opened Text
  import opened Wrappers

  /** Only this many leading characters of a page are searched. */
  const Window: nat := 200

  /** The groups of a match; `second` is `None` when group 2 did not take part. */
  datatype Groups = Groups(first: string, second: Option<string>)

  /** The heading patterns, in the order they are tried. */
  datatype Pattern =
    | ChapterHeading   // "Chapter"/"CHAPTER", spaces, a number or Roman numeral, optional ":"/"." title
    | SectionHeading   // "Section"/"SECTION", spaces, a dotted number, optional ":"/"." title
    | DottedHeading    // at the very start: spaces, a dotted number, spaces, a title
    | NumberedHeading  // at the very start: spaces, a number, spaces, a title

  const Patterns: seq<Pattern> := [ChapterHeading, SectionHeading, DottedHeading, NumberedHeading]

  // ---------------------------------------------------------------------------
  // Greedy runs

  predicate IsRoman(c: char) {
    c == 'I' || c == 'V' || c == 'X'
  }

  /** End of the maximal run of digits from `i` (`\d+` or `\d*`). */
  function DigitRunEnd(t: string, i: nat): (j: nat)
    requires i <= |t|
    ensures i <= j <= |t|
    ensures forall k :: i <= k < j ==> IsDigit(t[k])
    ensures j == |t| || !IsDigit(t[j])
    decreases |t| - i
  {
    if i < |t| && IsDigit(t[i]) then DigitRunEnd(t, i + 1) else i
  }

  /** End of the maximal run of Roman-numeral letters from `i` (`[IVX]+`). */
  function RomanRunEnd(t: string, i: nat): (j: nat)
    requires i <= |t|
    ensures i <= j <= |t|
    ensures forall k :: i <= k < j ==> IsRoman(t[k])
    ensures j == |t| || !IsRoman(t[j])
    decreases |t| - i
  {
    if i < |t| && IsRoman(t[i]) then RomanRunEnd(t, i + 1) else i
  }

  /** End of the line from `i`: what `.+` or `.*` consumes greedily. */
  function LineEnd(t: string, i: nat): (j: nat)
    requires i <= |t|
    ensures i <= j <= |t|
    ensures forall k :: i <= k < j ==> t[k] != '\n'
    ensures j == |t| || t[j] == '\n'
    decreases |t| - i
  {
    if i < |t| && t[i] != '\n' then LineEnd(t, i + 1) else i
  }

  // ---------------------------------------------------------------------------
  // Dotted numbers: \d+\.\d+(?:\.\d+)*

  /** Digit groups separated by single dots, at least two groups. */
  predicate IsDotted(s: string) {
    && |s| >= 3 && IsDigit(s[0]) && IsDigit(s[|s| - 1])
    && (exists k :: 0 < k < |s| - 1 && s[k] == '.')
    && forall k :: 0 <= k < |s| ==> DigitOrInnerDot(s, k)
  }

  /** Position `k` of `s` holds a digit, or a dot between two digits. */
  predicate DigitOrInnerDot(s: string, k: nat)
    requires k < |s|
  {
    IsDigit(s[k]) || (s[k] == '.' && 0 < k < |s| - 1 && IsDigit(s[k - 1]) && IsDigit(s[k + 1]))
  }

  /** The starred part `(?:\.\d+)*` from `i`: repeated while a dot is followed by a digit. */
  function MoreDots(t: string, i: nat): (j: nat)
    requires i <= |t|
    ensures i <= j <= |t|
    ensures j == |t| || !(t[j] == '.' && j + 1 < |t| && IsDigit(t[j + 1]))
    decreases |t| - i
  {
    if i + 1 < |t| && t[i] == '.' && IsDigit(t[i + 1]) then MoreDots(t, DigitRunEnd(t, i + 1)) else i
  }

  /** End of the dotted number at `i`, if one starts there. No backtracking
      into it ever helps the patterns that use it, so it is the greedy one. */
  function DottedEnd(t: string, i: nat): (r: Option<nat>)
    requires i <= |t|
  {
    var d := DigitRunEnd(t, i);
    if i < d && d + 1 < |t| && t[d] == '.' && IsDigit(t[d + 1]) then Some(MoreDots(t, DigitRunEnd(t, d + 1)))
    else None
  }

  /** `MoreDots` extends a dotted number by whole `.digits` groups. */
  lemma {:induction false} MoreDotsDotted(t: string, i: nat, j: nat)
    requires i < j <= |t| && IsDotted(t[i..j])
    ensures IsDotted(t[i..MoreDots(t, j)])
    decreases |t| - j
  {
    if j + 1 < |t| && t[j] == '.' && IsDigit(t[j + 1]) {
      var e := DigitRunEnd(t, j + 1);
      var s, s' := t[i..j], t[i..e];
      assert forall k :: 0 <= k < |s| ==> s[k] == t[i + k];
      assert forall k :: 0 <= k < |s'| ==> s'[k] == t[i + k];
      forall k | 0 <= k < |s'|
        ensures DigitOrInnerDot(s', k)
      {
        if k < |s| {
          assert DigitOrInnerDot(s, k);
          if k > 0 { assert s'[k - 1] == s[k - 1]; }
          if k + 1 < |s| { assert s'[k + 1] == s[k + 1]; }
        } else if k == |s| {
          assert s'[k - 1] == s[|s| - 1];
        }
      }
      var k :| 0 < k < |s| - 1 && s[k] == '.';
      assert s'[k] == '.';
      MoreDotsDotted(t, i, e);
    }
  }

  /** The dotted number found is a dotted number, and it cannot be extended. */
  lemma DottedEndSound(t: string, i: nat)
    requires i <= |t| && DottedEnd(t, i).Some?
    ensures i < DottedEnd(t, i).value <= |t|
    ensures IsDotted(t[i..DottedEnd(t, i).value])
    ensures var e := DottedEnd(t, i).value;
      !(e < |t| && IsDigit(t[e])) && !(e + 1 < |t| && t[e] == '.' && IsDigit(t[e + 1]))
  {
    var d := DigitRunEnd(t, i);
    var e := DigitRunEnd(t, d + 1);
    TwoGroupsDotted(t, i, d, e);
    MoreDotsDotted(t, i, e);
    MoreDotsStops(t, e);
  }

  /** Digits, one dot, digits: the shortest dotted number. */
  lemma TwoGroupsDotted(t: string, i: nat, d: nat, e: nat)
    requires i < d && d + 1 < e <= |t| && t[d] == '.'
    requires forall k :: i <= k < d ==> IsDigit(t[k])
    requires forall k :: d + 1 <= k < e ==> IsDigit(t[k])
    ensures IsDotted(t[i..e])
  {
    var s := t[i..e];
    forall k | 0 <= k < |s|
      ensures DigitOrInnerDot(s, k)
    {
      assert s[k] == t[i + k];
    }
    assert s[d - i] == '.';
  }

  /** `MoreDots` stops right after a digit or where it started. */
  lemma {:induction false} MoreDotsStops(t: string, i: nat)
    requires 0 < i <= |t| && IsDigit(t[i - 1]) && (i == |t| || !IsDigit(t[i]))
    ensures var e := MoreDots(t, i); 0 < e && IsDigit(t[e - 1]) && (e == |t| || !IsDigit(t[e]))
    decreases |t| - i
  {
    if i + 1 < |t| && t[i] == '.' && IsDigit(t[i + 1]) {
      MoreDotsStops(t, DigitRunEnd(t, i + 1));
    }
  }

  /** No dotted number starts at `i` when none is found there. */
  lemma DottedEndComplete(t: string, i: nat, e: nat)
    requires i < e <= |t| && IsDotted(t[i..e])
    ensures DottedEnd(t, i).Some?
  {
    var s := t[i..e];
    var d := DigitRunEnd(t, i);
    var k :| 0 < k < |s| - 1 && s[k] == '.';
    // The first dot of `s` ends the leading digit run.
    assert forall j :: 0 <= j < |s| ==> s[j] == t[i + j];
    assert i < d;
    assert !IsDigit(t[i + k]);
    assert d <= i + k;
    assert s[d - i] == t[d] && !IsDigit(s[d - i]);
    var m := d - i;
    assert DigitOrInnerDot(s, m);
    assert t[d + 1] == s[d - i + 1];
  }

  // ---------------------------------------------------------------------------
  // A title: `\s*(.+)` or `\s+(.+)`

  /** The last position in `[lo, hi)` that is not a newline. */
  function LastOffNewline(t: string, lo: nat, hi: nat): (r: Option<nat>)
    requires lo <= hi <= |t|
    ensures r.Some? ==> lo <= r.value < hi && t[r.value] != '\n' && forall k :: r.value < k < hi ==> t[k] == '\n'
    ensures r.None? ==> forall k :: lo <= k < hi ==> t[k] == '\n'
    decreases hi - lo
  {
    if hi == lo then None
    else if t[hi - 1] != '\n' then Some(hi - 1)
    else LastOffNewline(t, lo, hi - 1)
  }

  /** Where group `(.+)` starts when `\s*(.+)` (`atLeast` 0) or `\s+(.+)`
      (`atLeast` 1) is matched at `q`: the whitespace run is taken whole when
      text follows it; at the end of the text the engine backs off to the last
      whitespace character that is not a newline. */
  function TitleStart(t: string, q: nat, atLeast: nat): (r: Option<nat>)
    requires q <= |t|
    ensures r.Some? ==> q + atLeast <= r.value < |t| && t[r.value] != '\n'
    ensures r.Some? ==> forall k :: q <= k < r.value ==> IsSpace(t[k])
  {
    var w := SpaceRunEnd(t, q);
    if w < |t| then
      if q + atLeast <= w then Some(w) else None
    else if q + atLeast <= w then LastOffNewline(t, q + atLeast, w)
    else None
  }

  /** The group `(.+)`: from its start to the end of the line. */
  function Title(t: string, q: nat, atLeast: nat): (r: Option<string>)
    requires q <= |t|
    ensures r.Some? ==> r.value != [] && forall k :: 0 <= k < |r.value| ==> r.value[k] != '\n'
  {
    match TitleStart(t, q, atLeast)
    case None => None
    case Some(s) => Some(t[s..LineEnd(t, s)])
  }

  /** The optional tail `(?:\s*[:\.]\s*(.+))?` at `e`: the whitespace run, a
      colon or dot, then a title; group 2 is absent when any of it fails. */
  function OptionalTitle(t: string, e: nat): (r: Option<string>)
    requires e <= |t|
    ensures r.Some? ==> r.value != [] && forall k :: 0 <= k < |r.value| ==> r.value[k] != '\n'
  {
    var w := SpaceRunEnd(t, e);
    if w < |t| && (t[w] == ':' || t[w] == '.') then Title(t, w + 1, 0) else None
  }

  // ---------------------------------------------------------------------------
  // Matching one pattern

  /** The keyword `kw` starts at `p`. */
  predicate KeywordAt(t: string, p: nat, kw: string) {
    p + |kw| <= |t| && t[p..p + |kw|] == kw
  }

  /** A `Chapter`/`CHAPTER` heading at `p`: whitespace, then a number or,
      failing that, a Roman numeral, then an optional title. */
  function ChapterAt(t: string, p: nat): (r: Option<Groups>)
    requires p <= |t|
    ensures r.Some? ==> (KeywordAt(t, p, "Chapter") || KeywordAt(t, p, "CHAPTER")) && p + 7 < |t| && IsSpace(t[p + 7])
    ensures r.Some? ==> r.value.first != []
  {
    if !(KeywordAt(t, p, "Chapter") || KeywordAt(t, p, "CHAPTER")) then None
    else
      var w := SpaceRunEnd(t, p + 7);
      if w == p + 7 || w == |t| then None
      else if IsDigit(t[w]) then
        var e := DigitRunEnd(t, w);
        Some(Groups(t[w..e], OptionalTitle(t, e)))
      else if IsRoman(t[w]) then
        var e := RomanRunEnd(t, w);
        Some(Groups(t[w..e], OptionalTitle(t, e)))
      else None
  }

  /** A `Section`/`SECTION` heading at `p`: whitespace, a dotted number, an
      optional title. */
  function SectionAt(t: string, p: nat): (r: Option<Groups>)
    requires p <= |t|
    ensures r.Some? ==> (KeywordAt(t, p, "Section") || KeywordAt(t, p, "SECTION")) && p + 7 < |t| && IsSpace(t[p + 7])
    ensures r.Some? ==> r.value.first != []
  {
    if !(KeywordAt(t, p, "Section") || KeywordAt(t, p, "SECTION")) then None
    else
      var w := SpaceRunEnd(t, p + 7);
      if w == p + 7 then None
      else
        match DottedEnd(t, w)
        case None => None
        case Some(e) => Some(Groups(t[w..e], OptionalTitle(t, e)))
  }

  /** A dotted-number heading at the start of the text: optional whitespace,
      a dotted number, whitespace, a title. */
  function DottedAt(t: string, p: nat): (r: Option<Groups>)
    requires p <= |t|
    ensures r.Some? ==> p == 0 && r.value.first != [] && r.value.second.Some?
  {
    if p != 0 then None
    else
      var w := SpaceRunEnd(t, 0);
      match DottedEnd(t, w)
      case None => None
      case Some(e) =>
        match Title(t, e, 1)
        case None => None
        case Some(title) => Some(Groups(t[w..e], Some(title)))
  }

  /** A numbered heading at the start of the text: optional whitespace, a
      number, whitespace, a title. */
  function NumberedAt(t: string, p: nat): (r: Option<Groups>)
    requires p <= |t|
    ensures r.Some? ==> p == 0 && r.value.first != [] && r.value.second.Some?
  {
    if p != 0 then None
    else
      var w := SpaceRunEnd(t, 0);
      var e := DigitRunEnd(t, w);
      if e == w then None
      else
        match Title(t, e, 1)
        case None => None
        case Some(title) => Some(Groups(t[w..e], Some(title)))
  }

  /** The match of `pat` starting at `p`, if there is one. */
  function MatchAt(pat: Pattern, t: string, p: nat): (r: Option<Groups>)
    requires p <= |t|
  {
    match pat
    case ChapterHeading => ChapterAt(t, p)
    case SectionHeading => SectionAt(t, p)
    case DottedHeading => DottedAt(t, p)
    case NumberedHeading => NumberedAt(t, p)
  }

  /** What group 1 of each pattern consists of. */
  predicate FirstGroupShape(pat: Pattern, g: string) {
    match pat
    case ChapterHeading =>
      g != [] && ((forall k :: 0 <= k < |g| ==> IsDigit(g[k])) || (forall k :: 0 <= k < |g| ==> IsRoman(g[k])))
    case SectionHeading => IsDotted(g)
    case DottedHeading => IsDotted(g)
    case NumberedHeading => g != [] && forall k :: 0 <= k < |g| ==> IsDigit(g[k])
  }

  /** A title never spans lines and is never empty. */
  predicate TitleShape(g: Option<string>) {
    g.Some? ==> g.value != [] && forall k :: 0 <= k < |g.value| ==> g.value[k] != '\n'
  }

  lemma ChapterShape(t: string, p: nat)
    requires p <= |t| && ChapterAt(t, p).Some?
    ensures FirstGroupShape(ChapterHeading, ChapterAt(t, p).value.first)
    ensures TitleShape(ChapterAt(t, p).value.second)
  {
    var g := ChapterAt(t, p).value;
    var w := SpaceRunEnd(t, p + 7);
    var e := if IsDigit(t[w]) then DigitRunEnd(t, w) else RomanRunEnd(t, w);
    assert g.first == t[w..e];
    assert forall k :: 0 <= k < |g.first| ==> g.first[k] == t[w + k];
  }

  lemma SectionShape(t: string, p: nat)
    requires p <= |t| && SectionAt(t, p).Some?
    ensures FirstGroupShape(SectionHeading, SectionAt(t, p).value.first)
    ensures TitleShape(SectionAt(t, p).value.second)
  {
    DottedEndSound(t, SpaceRunEnd(t, p + 7));
  }

  lemma DottedShape(t: string, p: nat)
    requires p <= |t| && DottedAt(t, p).Some?
    ensures FirstGroupShape(DottedHeading, DottedAt(t, p).value.first)
    ensures TitleShape(DottedAt(t, p).value.second) && DottedAt(t, p).value.second.Some?
    ensures p == 0
  {
    DottedEndSound(t, SpaceRunEnd(t, 0));
  }

  lemma NumberedShape(t: string, p: nat)
    requires p <= |t| && NumberedAt(t, p).Some?
    ensures FirstGroupShape(NumberedHeading, NumberedAt(t, p).value.first)
    ensures TitleShape(NumberedAt(t, p).value.second) && NumberedAt(t, p).value.second.Some?
    ensures p == 0
  {
    var g := NumberedAt(t, p).value;
    var w := SpaceRunEnd(t, 0);
    assert forall k :: 0 <= k < |g.first| ==> g.first[k] == t[w + k];
  }

  /** The groups of a match have the shape the pattern prescribes; the last
      two patterns always have a title, and only match at the start. */
  lemma MatchAtShape(pat: Pattern, t: string, p: nat)
    requires p <= |t| && MatchAt(pat, t, p).Some?
    ensures FirstGroupShape(pat, MatchAt(pat, t, p).value.first)
    ensures TitleShape(MatchAt(pat, t, p).value.second)
    ensures pat == DottedHeading || pat == NumberedHeading ==> p == 0 && MatchAt(pat, t, p).value.second.Some?
  {
    match pat
    case ChapterHeading => ChapterShape(t, p);
    case SectionHeading => SectionShape(t, p);
    case DottedHeading => DottedShape(t, p);
    case NumberedHeading => NumberedShape(t, p);
  }

  // ---------------------------------------------------------------------------
  // re.search and the pattern list

  /** The outcome of trying `pat` at every position of `t`, end included,
      which is what `re.search` does, left to right. */
  function Attempts(pat: Pattern, t: string): (a: seq<Option<Groups>>)
    ensures |a| == |t| + 1
    ensures forall q :: 0 <= q <= |t| ==> a[q] == MatchAt(pat, t, q)
  {
    seq(|t| + 1, q requires 0 <= q <= |t| => MatchAt(pat, t, q))
  }

  /** The first successful attempt from `p` on. */
  function Leftmost(attempts: seq<Option<Groups>>, p: nat): (r: Option<nat>)
    requires p <= |attempts|
    ensures r.Some? ==> p <= r.value < |attempts| && attempts[r.value].Some?
    ensures r.Some? ==> forall q :: p <= q < r.value ==> attempts[q].None?
    ensures r.None? ==> forall q :: p <= q < |attempts| ==> attempts[q].None?
    decreases |attempts| - p
  {
    if p == |attempts| then None
    else if attempts[p].Some? then Some(p)
    else Leftmost(attempts, p + 1)
  }

  /** `re.search(pattern, t)`: the groups of the leftmost match. */
  function Search(pat: Pattern, t: string): (r: Option<Groups>)
  {
    var a := Attempts(pat, t);
    match Leftmost(a, 0)
    case None => None
    case Some(p) => a[p]
  }

  /** The match found is the one at the leftmost position where the pattern
      matches; there is none only when it matches nowhere. */
  lemma SearchLeftmost(pat: Pattern, t: string)
    ensures Search(pat, t).Some? <==> exists p :: 0 <= p <= |t| && MatchAt(pat, t, p).Some?
    ensures Search(pat, t).Some? ==>
      exists p :: 0 <= p <= |t| && Search(pat, t) == MatchAt(pat, t, p)
        && forall q :: 0 <= q < p ==> MatchAt(pat, t, q).None?
  {
    var a := Attempts(pat, t);
    match Leftmost(a, 0)
    case None =>
    case Some(p) =>
      assert a[p] == MatchAt(pat, t, p);
  }

  /** `f"{g1}: {g2}"` when group 2 is a non-empty string, else `g1`. */
  function Label(g: Groups): string
  {
    if g.second.Some? && g.second.value != [] then g.first + ": " + g.second.value else g.first
  }

  /** The first pattern of `pats` that matches `t`, and its groups. */
  function FirstMatch(pats: seq<Pattern>, t: string): (r: Option<(nat, Groups)>)
    ensures r.Some? ==> r.value.0 < |pats| && Search(pats[r.value.0], t) == Some(r.value.1)
    ensures r.Some? ==> forall k :: 0 <= k < r.value.0 ==> Search(pats[k], t).None?
    ensures r.None? ==> forall k :: 0 <= k < |pats| ==> Search(pats[k], t).None?
  {
    if pats == [] then None
    else match Search(pats[0], t)
      case Some(g) => Some((0, g))
      case None =>
        match FirstMatch(pats[1..], t)
        case None => None
        case Some((k, g)) => Some((k + 1, g))
  }

  /** `text[:200]` */
  function Prefix(text: string): (r: string)
    ensures |r| <= Window && |r| <= |text| && r == text[..|r|]
    ensures |text| <= Window ==> r == text
  {
    if |text| <= Window then text else text[..Window]
  }

  /** `extract_section_info(text)` */
  function ExtractSectionInfo(text: string): (r: string)
    ensures r == "" <==> forall k :: 0 <= k < |Patterns| ==> Search(Patterns[k], Prefix(text)).None?
  {
    match FirstMatch(Patterns, Prefix(text))
    case None => ""
    case Some((_, g)) => Label(g)
  }

  // ---------------------------------------------------------------------------
  // Properties

  /** The label is empty exactly when no pattern matches the first 200
      characters; otherwise it is the first matching pattern's number,
      followed by ": " and the title when the match has one. */
  lemma ExtractSectionInfoSpec(text: string)
    ensures ExtractSectionInfo(text) == "" <==> forall k :: 0 <= k < |Patterns| ==> Search(Patterns[k], Prefix(text)).None?
    ensures ExtractSectionInfo(text) != "" ==>
      exists k :: 0 <= k < |Patterns| && Search(Patterns[k], Prefix(text)).Some?
        && (forall k' :: 0 <= k' < k ==> Search(Patterns[k'], Prefix(text)).None?)
        && FirstGroupShape(Patterns[k], Search(Patterns[k], Prefix(text)).value.first)
        && ExtractSectionInfo(text) == Label(Search(Patterns[k], Prefix(text)).value)
  {
    var t := Prefix(text);
    var r := FirstMatch(Patterns, t);
    if r.Some? {
      var k := r.value.0;
      var a := Attempts(Patterns[k], t);
      var p := Leftmost(a, 0).value;
      MatchAtShape(Patterns[k], t, p);
      assert |Label(r.value.1)| >= |r.value.1.first| > 0;
    }
  }

  /** Only the first 200 characters of a page decide its label. */
  lemma WindowOnly(a: string, b: string)
    requires a[..if |a| < Window then |a| else Window] == b[..if |b| < Window then |b| else Window]
    ensures ExtractSectionInfo(a) == ExtractSectionInfo(b)
  {
    assert Prefix(a) == Prefix(b);
  }

  /** The title runs to the end of the line, past the end of the sentence. */
  lemma ChapterMatchExample()
    ensures MatchAt(ChapterHeading, "Chapter 1: A. B", 0) == Some(Groups("1", Some("A. B")))
  {
    var t := "Chapter 1: A. B";
    assert t[0..7] == "Chapter";
    assert SpaceRunEnd(t, 7) == 8;
    assert DigitRunEnd(t, 8) == 9;
    assert SpaceRunEnd(t, 9) == 9;
    assert SpaceRunEnd(t, 10) == 11;
    assert LineEnd(t, 11) == 15;
    assert t[8..9] == "1" && t[11..15] == "A. B";
  }

  lemma ChapterExample()
    ensures ExtractSectionInfo("Chapter 1: A. B") == "1" + ": " + "A. B"
  {
    var t := "Chapter 1: A. B";
    var g := Groups("1", Some("A. B"));
    ChapterMatchExample();
    assert Attempts(ChapterHeading, t)[0] == Some(g);
    assert Search(ChapterHeading, t) == Some(g);
    assert FirstMatch(Patterns, t) == Some((0, g));
  }

  /** A Roman chapter number whose next line is not a title. */
  lemma RomanMatchExample()
    ensures MatchAt(ChapterHeading, "CHAPTER IV\nA", 0) == Some(Groups("IV", None))
  {
    var t := "CHAPTER IV\nA";
    assert t[0..7] == "CHAPTER";
    assert SpaceRunEnd(t, 7) == 8;
    assert RomanRunEnd(t, 8) == 10;
    assert SpaceRunEnd(t, 10) == 11;
    assert t[8..10] == "IV";
  }

  lemma RomanExample()
    ensures ExtractSectionInfo("CHAPTER IV\nA") == "IV"
  {
    RomanMatchExample();
    assert Attempts(ChapterHeading, "CHAPTER IV\nA")[0].Some?;
  }

  /** A bare leading number and a title. */
  lemma NumberedMatchExample()
    ensures MatchAt(NumberedHeading, "12 Aim", 0) == Some(Groups("12", Some("Aim")))
    ensures MatchAt(DottedHeading, "12 Aim", 0).None?
  {
    var t := "12 Aim";
    assert SpaceRunEnd(t, 0) == 0;
    assert DigitRunEnd(t, 0) == 2;
    assert SpaceRunEnd(t, 2) == 3;
    assert LineEnd(t, 3) == 6;
    assert t[0..2] == "12" && t[3..6] == "Aim";
  }

  /** No keyword occurs in the text. */
  lemma NoKeywordExample()
    ensures Search(ChapterHeading, "12 Aim").None? && Search(SectionHeading, "12 Aim").None?
  {
    var t := "12 Aim";
    forall q | 0 <= q <= |t|
      ensures MatchAt(ChapterHeading, t, q).None? && MatchAt(SectionHeading, t, q).None?
    {
    }
  }

  lemma NumberedExample()
    ensures ExtractSectionInfo("12 Aim") == "12" + ": " + "Aim"
  {
    var t := "12 Aim";
    NoKeywordExample();
    NumberedMatchExample();
    assert Search(DottedHeading, t).None?;
    assert Attempts(NumberedHeading, t)[0].Some?;
  }
}

/**
  * String helpers shared by the components: Python's notion of whitespace,
  * `str.strip()`, `len(str.split())`, `' '.join(...)` and decimal rendering of
  * integers. Character classes follow Python's definitions exactly on Latin-1
  * (U+0000..U+00FF).
  */
module Text {

  /** `c.isspace()` on Latin-1: tab..carriage return, the four separators
      U+001C..U+001F, space, NEL and no-break space. */
  predicate IsSpace(c: char) {
    ('\t' <= c <= '\r') || ('\U{001C}' <= c <= '\U{001F}') || c == ' ' || c == '\U{0085}' || c == '\U{00A0}'
  }

  /** `not s.strip()`: the string has no non-whitespace character. */
  predicate IsBlank(s: string) {
    forall i :: 0 <= i < |s| ==> IsSpace(s[i])
  }

  predicate IsDigit(c: char) {
    '0' <= c <= '9'
  }

  /** `c.isalnum()` on Latin-1: ASCII letters and digits, the Latin-1 letters
      (ª, µ, º, À..Ö, Ø..ö, ø..ÿ) and the Latin-1 numerics (², ³, ¹, ¼, ½, ¾). */
  predicate IsAlnum(c: char) {
    || ('a' <= c <= 'z') || ('A' <= c <= 'Z') || IsDigit(c)
    || c == '\U{00AA}' || c == '\U{00B5}' || c == '\U{00BA}'
    || c == '\U{00B2}' || c == '\U{00B3}' || c == '\U{00B9}' || ('\U{00BC}' <= c <= '\U{00BE}')
    || ('\U{00C0}' <= c <= '\U{00D6}') || ('\U{00D8}' <= c <= '\U{00F6}') || ('\U{00F8}' <= c <= '\U{00FF}')
  }

  /** `c.lower()` for the characters whose lower case is one character of Latin-1. */
  function LowerChar(c: char): (l: char)
    ensures IsSpace(l) <==> IsSpace(c)
  {
    if ('A' <= c <= 'Z') || ('\U{00C0}' <= c <= '\U{00D6}') || ('\U{00D8}' <= c <= '\U{00DE}')
    then (c as int + 32) as char
    else c
  }

  function Lower(s: string): (r: string)
    ensures |r| == |s|
    ensures forall i :: 0 <= i < |s| ==> r[i] == LowerChar(s[i])
  {
    seq(|s|, i requires 0 <= i < |s| => LowerChar(s[i]))
  }

  /** End of the maximal whitespace run that starts at `i` (what a greedy
      `\s*` consumes there). */
  function SpaceRunEnd(s: string, i: nat): (j: nat)
    requires i <= |s|
    ensures i <= j <= |s|
    ensures forall k :: i <= k < j ==> IsSpace(s[k])
    ensures j == |s| || !IsSpace(s[j])
    decreases |s| - i
  {
    if i < |s| && IsSpace(s[i]) then SpaceRunEnd(s, i + 1) else i
  }

  // ---------------------------------------------------------------------------
  // str.strip()

  /** Start of the maximal whitespace run that ends at `j` (what `rstrip`
      removes when the text ends at `j`). */
  function SpaceRunStart(s: string, j: nat): (i: nat)
    requires j <= |s|
    ensures i <= j
    ensures forall k :: i <= k < j ==> IsSpace(s[k])
    ensures i == 0 || !IsSpace(s[i - 1])
  {
    if 0 < j && IsSpace(s[j - 1]) then SpaceRunStart(s, j - 1) else j
  }

  /** `s.strip()`: what lies between the leading whitespace run and the
      trailing one; nothing when they meet. */
  function Strip(s: string): (r: string)
    ensures |r| <= |s|
    ensures r == [] || (!IsSpace(r[0]) && !IsSpace(r[|r| - 1]))
    ensures r == [] <==> IsBlank(s)
  {
    var a := SpaceRunEnd(s, 0);
    var b := SpaceRunStart(s, |s|);
    assert a < |s| ==> a < b;
    if a < b then s[a..b] else []
  }

  /** `r` is `s[a..b]`, and `s` has only whitespace before `a` and from `b` on. */
  predicate TrimmedSlice(s: string, r: string, a: nat, b: nat) {
    a <= b <= |s| && r == s[a..b] && IsBlank(s[..a]) && IsBlank(s[b..])
  }

  /** What `strip` keeps is a slice of the input, with only whitespace
      removed before and after it. */
  lemma StripSlice(s: string)
    ensures exists a, b :: TrimmedSlice(s, Strip(s), a, b)
  {
    var a := SpaceRunEnd(s, 0);
    var b := SpaceRunStart(s, |s|);
    if a < b {
      assert TrimmedSlice(s, Strip(s), a, b);
    } else {
      assert s[..|s|] == s;
      assert TrimmedSlice(s, Strip(s), |s|, |s|);
    }
  }

  lemma StripIdempotent(s: string)
    ensures Strip(Strip(s)) == Strip(s)
  {
    var r := Strip(s);
    if r != [] {
      assert SpaceRunEnd(r, 0) == 0;
      assert SpaceRunStart(r, |r|) == |r|;
      assert r[0..|r|] == r;
    }
  }

  // ---------------------------------------------------------------------------
  // len(s.split())

  /** Number of maximal runs of non-whitespace characters, counted at the
      character that ends each run: at most one per character. */
  function WordCount(s: string): (n: nat)
    ensures n <= |s|
  {
    if s == [] then 0
    else if !IsSpace(s[0]) && (|s| == 1 || IsSpace(s[1])) then 1 + WordCount(s[1..])
    else WordCount(s[1..])
  }

  /** A string has no word exactly when it is blank. */
  lemma {:induction false} WordCountZeroIffBlank(s: string)
    ensures WordCount(s) == 0 <==> IsBlank(s)
  {
    if s != [] {
      WordCountZeroIffBlank(s[1..]);
      assert IsBlank(s) <==> IsSpace(s[0]) && IsBlank(s[1..]) by {
        if IsSpace(s[0]) && IsBlank(s[1..]) {
          forall i | 0 <= i < |s| ensures IsSpace(s[i]) {
            if i > 0 { assert s[i] == s[1..][i - 1]; }
          }
        }
      }
      if !IsSpace(s[0]) && !(|s| == 1 || IsSpace(s[1])) {
        assert !IsSpace(s[1..][0]);
      }
    }
  }

  // ---------------------------------------------------------------------------
  // ' '.join(parts)

  function JoinSpace(parts: seq<string>): string
  {
    if parts == [] then ""
    else if |parts| == 1 then parts[0]
    else parts[0] + " " + JoinSpace(parts[1..])
  }

  /** Where part `k` starts in `JoinSpace(parts)`. */
  function JoinOffset(parts: seq<string>, k: nat): nat
    requires k < |parts|
  {
    if k == 0 then 0 else |parts[0]| + 1 + JoinOffset(parts[1..], k - 1)
  }

  /** Every part appears in the joined text, whole, at its offset. */
  lemma {:induction false} JoinSpaceContains(parts: seq<string>, k: nat)
    requires k < |parts|
    ensures JoinOffset(parts, k) + |parts[k]| <= |JoinSpace(parts)|
    ensures JoinSpace(parts)[JoinOffset(parts, k)..JoinOffset(parts, k) + |parts[k]|] == parts[k]
  {
    var j := JoinSpace(parts);
    if k == 0 {
      assert j[0..|parts[0]|] == parts[0];
    } else {
      JoinSpaceContains(parts[1..], k - 1);
      var t := JoinSpace(parts[1..]);
      var a := JoinOffset(parts[1..], k - 1);
      var off := |parts[0]| + 1;
      assert j == parts[0] + " " + t;
      assert j[off + a..off + a + |parts[k]|] == t[a..a + |parts[k]|];
    }
  }

  /** `t in s` for strings: `t` occurs in `s` as a substring. */
  ghost predicate Contains(s: string, t: string) {
    exists o: nat :: OccursAt(s, t, o)
  }

  /** `t` occurs in `s` at offset `o`. */
  predicate OccursAt(s: string, t: string, o: nat) {
    o + |t| <= |s| && s[o..o + |t|] == t
  }

  /** Each part of a join occurs in the joined text. */
  lemma JoinSpaceHasPart(parts: seq<string>, k: nat)
    requires k < |parts|
    ensures Contains(JoinSpace(parts), parts[k])
  {
    JoinSpaceContains(parts, k);
    assert OccursAt(JoinSpace(parts), parts[k], JoinOffset(parts, k));
  }

  /** A text that contains a non-blank text is not blank. */
  lemma ContainsNonBlank(s: string, t: string)
    requires Contains(s, t) && !IsBlank(t)
    ensures !IsBlank(s)
  {
    var o: nat :| OccursAt(s, t, o);
    var k :| 0 <= k < |t| && !IsSpace(t[k]);
    assert s[o + k] == t[k];
  }

  // ---------------------------------------------------------------------------
  // Decimal rendering of integers (`f"{n}"`)

  function DigitChar(d: nat): (c: char)
    requires d < 10
    ensures IsDigit(c)
  {
    ('0' as int + d) as char
  }

  function NatToString(n: nat): (s: string)
    ensures |s| >= 1
    ensures forall i :: 0 <= i < |s| ==> IsDigit(s[i])
  {
    if n < 10 then [DigitChar(n)] else NatToString(n / 10) + [DigitChar(n % 10)]
  }

  function IntToString(i: int): (s: string)
    ensures |s| >= 1
  {
    if i < 0 then "-" + NatToString(-i) else NatToString(i)
  }

  /** The value of a string of decimal digits: the reading side of NatToString. */
  function DigitsValue(s: string): nat
    requires forall i :: 0 <= i < |s| ==> IsDigit(s[i])
  {
    if s == [] then 0
    else
      assert IsDigit(s[|s| - 1]);
      10 * DigitsValue(s[..|s| - 1]) + (s[|s| - 1] as int - '0' as int)
  }

  /** Reading back a rendered number gives the number. */
  lemma {:induction false} NatToStringRoundTrip(n: nat)
    ensures DigitsValue(NatToString(n)) == n
  {
    if n >= 10 {
      NatToStringRoundTrip(n / 10);
      var s := NatToString(n);
      assert s[..|s| - 1] == NatToString(n / 10);
    }
  }

  /** Distinct numbers render differently. */
  lemma NatToStringInjective(m: nat, n: nat)
    requires NatToString(m) == NatToString(n)
    ensures m == n
  {
    NatToStringRoundTrip(m);
    NatToStringRoundTrip(n);
  }
}

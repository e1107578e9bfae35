/**
 * The two README image patterns of the metadata scripts, read as JavaScript
 * `RegExp.prototype.exec` reads them (no flags):
 *   Markdown  !\[.*\]\((.*?)\)
 *   HTML      <\s*img\s*src="(.*?)".*?>
 * Each is written as a scanner, and each scanner is proved to return the
 * match the regular expression prefers: the leftmost start, then the longest
 * greedy `.*`, then the shortest lazy `.*?`. A `.` never crosses a line
 * terminator; `\s` is any whitespace, line terminators included.
 */
module ImageRegex {
  import opened Wrappers
  import opened Strings

  // ---------------------------------------------------------------------------
  // Scanning helpers

  /** The first line terminator at or after `i`, or the end of `t`. */
  function LineEnd(t: string, i: nat): (e: nat)
    requires i <= |t|
    ensures i <= e <= |t|
    decreases |t| - i
  {
    if i == |t| || IsLineTerminator(t[i]) then i else LineEnd(t, i + 1)
  }

  /** No line terminator before `LineEnd`, and one at it unless it is the end. */
  lemma {:induction false} LineEndSpec(t: string, i: nat)
    requires i <= |t|
    ensures forall m :: i <= m < LineEnd(t, i) ==> !IsLineTerminator(t[m])
    ensures LineEnd(t, i) < |t| ==> IsLineTerminator(t[LineEnd(t, i)])
    decreases |t| - i
  {
    if i < |t| && !IsLineTerminator(t[i]) {
      LineEndSpec(t, i + 1);
    }
  }

  /** The first non-whitespace position at or after `i`, or the end of `t`. */
  function SkipWhitespace(t: string, i: nat): (r: nat)
    requires i <= |t|
    ensures i <= r <= |t|
    decreases |t| - i
  {
    if i < |t| && IsWhitespace(t[i]) then SkipWhitespace(t, i + 1) else i
  }

  /** Only whitespace is skipped, and all of it. */
  lemma {:induction false} SkipWhitespaceSpec(t: string, i: nat)
    requires i <= |t|
    ensures forall m :: i <= m < SkipWhitespace(t, i) ==> IsWhitespace(t[m])
    ensures SkipWhitespace(t, i) < |t| ==> !IsWhitespace(t[SkipWhitespace(t, i)])
    decreases |t| - i
  {
    if i < |t| && IsWhitespace(t[i]) {
      SkipWhitespaceSpec(t, i + 1);
    }
  }

  /** The first position in [lo, hi) holding `c`. */
  function FirstOf(t: string, c: char, lo: nat, hi: nat): (r: Option<nat>)
    requires lo <= hi <= |t|
    ensures r.Some? ==> lo <= r.value < hi && t[r.value] == c
    decreases hi - lo
  {
    if lo == hi then None else if t[lo] == c then Some(lo) else FirstOf(t, c, lo + 1, hi)
  }

  /** Nothing before the position found holds `c`; nothing at all when none is found. */
  lemma {:induction false} FirstOfSpec(t: string, c: char, lo: nat, hi: nat)
    requires lo <= hi <= |t|
    ensures FirstOf(t, c, lo, hi).Some? ==> forall m :: lo <= m < FirstOf(t, c, lo, hi).value ==> t[m] != c
    ensures FirstOf(t, c, lo, hi).None? ==> forall m :: lo <= m < hi ==> t[m] != c
    decreases hi - lo
  {
    if lo < hi && t[lo] != c {
      FirstOfSpec(t, c, lo + 1, hi);
    }
  }

  /** The first position from `lo` holding `c`, when one is known to exist at `known`. */
  function FirstOfUpTo(t: string, c: char, lo: nat, known: nat): (r: nat)
    requires lo <= known < |t| && t[known] == c
    ensures lo <= r <= known && t[r] == c
    ensures forall m :: lo <= m < r ==> t[m] != c
    decreases known - lo
  {
    if t[lo] == c then lo else FirstOfUpTo(t, c, lo + 1, known)
  }

  /** The last position in [lo, hi) holding `c`. */
  function LastOf(t: string, c: char, lo: nat, hi: nat): (r: Option<nat>)
    requires lo <= hi <= |t|
    ensures r.Some? ==> lo <= r.value < hi && t[r.value] == c
    ensures r.Some? ==> forall m :: r.value < m < hi ==> t[m] != c
    ensures r.None? ==> forall m :: lo <= m < hi ==> t[m] != c
    decreases hi - lo
  {
    if lo == hi then None else if t[hi - 1] == c then Some(hi - 1) else LastOf(t, c, lo, hi - 1)
  }

  predicate CloseOpenAt(t: string, j: nat) {
    j + 1 < |t| && t[j] == ']' && t[j + 1] == '('
  }

  /** The last `](` starting in [lo, hi). */
  function LastCloseOpen(t: string, lo: nat, hi: nat): (r: Option<nat>)
    requires lo <= hi < |t|
    ensures r.Some? ==> lo <= r.value < hi && CloseOpenAt(t, r.value)
    ensures r.Some? ==> forall j :: r.value < j < hi ==> !CloseOpenAt(t, j)
    ensures r.None? ==> forall j :: lo <= j < hi ==> !CloseOpenAt(t, j)
    decreases hi - lo
  {
    if lo == hi then None
    else if CloseOpenAt(t, hi - 1) then Some(hi - 1)
    else LastCloseOpen(t, lo, hi - 1)
  }

  // ---------------------------------------------------------------------------
  // Markdown: !\[.*\]\((.*?)\)

  /** A match of the Markdown pattern at `s`, with its `](` at `j` and the
      closing `)` at `k`; the captured source is t[j+2..k]. */
  predicate MdCandidate(t: string, s: nat, j: nat, k: nat) {
    && s + 2 <= j && j + 2 <= k < |t|
    && t[s] == '!' && t[s + 1] == '['
    && t[j] == ']' && t[j + 1] == '(' && t[k] == ')'
    && (forall m :: s + 2 <= m < k ==> !IsLineTerminator(t[m]))
  }

  datatype MdMatch = MdMatch(bracket: nat, close: nat)

  /** The match the Markdown pattern prefers at `s`: the `](` furthest to the
      right that still has a `)` after it on the same line, and the first such
      `)`. None when the pattern cannot match at `s` at all. */
  function MdMatchAt(t: string, s: nat): (r: Option<MdMatch>)
    ensures r.Some? ==> MdCandidate(t, s, r.value.bracket, r.value.close)
    ensures r.Some? ==> forall j: nat, k: nat :: MdCandidate(t, s, j, k) ==>
      j <= r.value.bracket && (j == r.value.bracket ==> r.value.close <= k)
    ensures r.None? ==> forall j: nat, k: nat :: !MdCandidate(t, s, j, k)
  {
    if !(s + 2 <= |t| && t[s] == '!' && t[s + 1] == '[') then None
    else
      var e := LineEnd(t, s + 2);
      var lp := LastOf(t, ')', s + 2, e);
      if lp.None? || lp.value < s + 4 then
        MdNoCloseParen(t, s, e, lp);
        None
      else
        var j := LastCloseOpen(t, s + 2, lp.value - 1);
        if j.None? then
          MdNoBracket(t, s, e, lp.value);
          None
        else
          var k := FirstOfUpTo(t, ')', j.value + 2, lp.value);
          MdBest(t, s, e, lp.value, j.value, k);
          Some(MdMatch(j.value, k))
  }

  /** Every candidate closes before the end of its line. */
  lemma MdCloseOnLine(t: string, s: nat, e: nat, j: nat, k: nat)
    requires s + 2 <= |t| && e == LineEnd(t, s + 2)
    requires MdCandidate(t, s, j, k)
    ensures k < e
  {
    LineEndSpec(t, s + 2);
    assert e < |t| ==> IsLineTerminator(t[e]);
  }

  lemma MdNoCloseParen(t: string, s: nat, e: nat, lp: Option<nat>)
    requires s + 2 <= |t| && e == LineEnd(t, s + 2)
    requires lp == LastOf(t, ')', s + 2, e)
    requires lp.None? || lp.value < s + 4
    ensures forall j: nat, k: nat :: !MdCandidate(t, s, j, k)
  {
    forall j: nat, k: nat | MdCandidate(t, s, j, k) ensures false {
      MdCloseOnLine(t, s, e, j, k);
    }
  }

  lemma MdNoBracket(t: string, s: nat, e: nat, lp: nat)
    requires s + 2 <= |t| && e == LineEnd(t, s + 2)
    requires LastOf(t, ')', s + 2, e) == Some(lp) && s + 4 <= lp
    requires LastCloseOpen(t, s + 2, lp - 1).None?
    ensures forall j: nat, k: nat :: !MdCandidate(t, s, j, k)
  {
    forall j: nat, k: nat | MdCandidate(t, s, j, k) ensures false {
      MdCloseOnLine(t, s, e, j, k);
      assert CloseOpenAt(t, j);
    }
  }

  lemma MdBest(t: string, s: nat, e: nat, lp: nat, j0: nat, k0: nat)
    requires s + 2 <= |t| && t[s] == '!' && t[s + 1] == '['
    requires e == LineEnd(t, s + 2)
    requires LastOf(t, ')', s + 2, e) == Some(lp) && s + 4 <= lp
    requires LastCloseOpen(t, s + 2, lp - 1) == Some(j0)
    requires k0 == FirstOfUpTo(t, ')', j0 + 2, lp)
    ensures MdCandidate(t, s, j0, k0)
    ensures forall j: nat, k: nat :: MdCandidate(t, s, j, k) ==> j <= j0 && (j == j0 ==> k0 <= k)
  {
    LineEndSpec(t, s + 2);
    forall j: nat, k: nat | MdCandidate(t, s, j, k) ensures j <= j0 && (j == j0 ==> k0 <= k) {
      MdCloseOnLine(t, s, e, j, k);
      assert CloseOpenAt(t, j);
    }
  }

  /** The leftmost start at or after `from` where the Markdown pattern matches. */
  function FirstMdMatch(t: string, from: nat): (r: Option<(nat, MdMatch)>)
    requires from <= |t|
    ensures r.Some? ==> from <= r.value.0 <= |t| && MdMatchAt(t, r.value.0) == Some(r.value.1)
    ensures r.Some? ==> forall s :: from <= s < r.value.0 ==> MdMatchAt(t, s).None?
    ensures r.None? ==> forall s :: from <= s <= |t| ==> MdMatchAt(t, s).None?
    decreases |t| - from
  {
    var here := MdMatchAt(t, from);
    if here.Some? then Some((from, here.value))
    else if from == |t| then None
    else
      var r := FirstMdMatch(t, from + 1);
      assert r.Some? ==> forall s :: from < s < r.value.0 ==> MdMatchAt(t, s).None?;
      r
  }

  /** Without a `!` the Markdown pattern cannot match. */
  lemma NoBangNoMarkdown(t: string)
    requires '!' !in t
    ensures MarkdownSource(t).None?
  {
    forall s: nat, j: nat, k: nat | s <= |t| ensures !MdCandidate(t, s, j, k) {
      assert s < |t| ==> t[s] in t;
    }
  }

  /** The capture is the one a regular-expression engine reports: at the
      leftmost start where the pattern can match, the `](` furthest right and
      then the first `)` after it. */
  lemma MarkdownSourceIs(t: string, s: nat, j: nat, k: nat)
    requires MdCandidate(t, s, j, k)
    requires forall s0: nat, j0: nat, k0: nat :: s0 < s ==> !MdCandidate(t, s0, j0, k0)
    requires forall j0: nat, k0: nat :: MdCandidate(t, s, j0, k0) ==> j0 <= j && (j0 == j ==> k <= k0)
    ensures MarkdownSource(t) == Some(t[j + 2..k])
  {
    var r := FirstMdMatch(t, 0);
    assert MdMatchAt(t, s).Some?;
    assert r.Some?;
    var s0 := r.value.0;
    var mm := r.value.1;
    assert s0 <= s;
    assert MdCandidate(t, s0, mm.bracket, mm.close);
    assert s0 == s;
    assert mm.bracket == j && mm.close == k;
  }

  /** A README line holding one Markdown image: `pre ![alt](src) post`. With
      no `!` before it, no `]` in the alt text, the source or what follows,
      and no `)` or line break in the source, the capture is `src`. */
  lemma MarkdownSourceOfImage(pre: string, alt: string, src: string, post: string)
    requires '!' !in pre && ']' !in alt && ']' !in src && ']' !in post && ')' !in src
    requires forall i :: 0 <= i < |alt| ==> !IsLineTerminator(alt[i])
    requires forall i :: 0 <= i < |src| ==> !IsLineTerminator(src[i])
    ensures MarkdownSource(pre + "![" + alt + "](" + src + ")" + post) == Some(src)
  {
    var t := pre + "![" + alt + "](" + src + ")" + post;
    var s := |pre|;
    var j := s + 2 + |alt|;
    var k := j + 2 + |src|;
    assert t[s] == '!' && t[s + 1] == '[' && t[j] == ']' && t[j + 1] == '(' && t[k] == ')';
    forall m | s + 2 <= m < k ensures !IsLineTerminator(t[m]) {
      if m < j {
        assert t[m] == alt[m - s - 2];
      } else if m >= j + 2 {
        assert t[m] == src[m - j - 2];
      }
    }
    assert MdCandidate(t, s, j, k);
    forall s0: nat | s0 < s ensures t[s0] != '!' {
      assert t[s0] == pre[s0] && pre[s0] in pre;
    }
    forall m: nat | j < m < |t| ensures t[m] != ']' {
      if m < j + 2 {
      } else if m < k {
        assert t[m] == src[m - j - 2] && src[m - j - 2] in src;
      } else if m > k {
        assert t[m] == post[m - k - 1] && post[m - k - 1] in post;
      }
    }
    forall m: nat | s + 2 <= m < j ensures t[m] != ']' {
      assert t[m] == alt[m - s - 2] && alt[m - s - 2] in alt;
    }
    forall m: nat | j + 2 <= m < k ensures t[m] != ')' {
      assert t[m] == src[m - j - 2] && src[m - j - 2] in src;
    }
    assert t[j + 2..k] == src;
    MarkdownSourceIs(t, s, j, k);
  }

  /** Group 1 of `IMG_REGEX_MD.exec(t)`, or None when `exec` returns null. */
  function MarkdownSource(t: string): (r: Option<string>)
    ensures r.None? <==> forall s: nat, j: nat, k: nat :: s <= |t| ==> !MdCandidate(t, s, j, k)
  {
    match FirstMdMatch(t, 0)
    case None =>
      MdNowhere(t);
      None
    case Some((s, mm)) =>
      assert MdCandidate(t, s, mm.bracket, mm.close);
      Some(t[mm.bracket + 2..mm.close])
  }

  lemma MdNowhere(t: string)
    requires FirstMdMatch(t, 0).None?
    ensures forall s: nat, j: nat, k: nat :: s <= |t| ==> !MdCandidate(t, s, j, k)
  {
    forall s: nat, j: nat, k: nat | s <= |t| ensures !MdCandidate(t, s, j, k) {
      assert MdMatchAt(t, s).None?;
    }
  }

  // ---------------------------------------------------------------------------
  // HTML: <\s*img\s*src="(.*?)".*?>

  /** `img` at `p`. */
  predicate ImgAt(t: string, p: nat) {
    p + 3 <= |t| && t[p] == 'i' && t[p + 1] == 'm' && t[p + 2] == 'g'
  }

  /** `src="` at `q`. */
  predicate SrcAt(t: string, q: nat) {
    q + 5 <= |t| && t[q] == 's' && t[q + 1] == 'r' && t[q + 2] == 'c' && t[q + 3] == '=' && t[q + 4] == '"'
  }

  /** `<\s*img\s*src="` read from `s`: `<` at `s`, whitespace, `img` at `p`,
      whitespace, `src="` at `q`. */
  predicate HtmlOpen(t: string, s: nat, p: nat, q: nat) {
    && s < p && p + 3 <= q && q + 5 <= |t|
    && t[s] == '<'
    && (forall m :: s < m < p ==> IsWhitespace(t[m]))
    && ImgAt(t, p)
    && (forall m :: p + 3 <= m < q ==> IsWhitespace(t[m]))
    && SrcAt(t, q)
  }

  /** A match of the HTML pattern at `s`, with the closing `"` at `k` and
      the `>` at `m`; the captured source is t[q+5..k]. */
  predicate HtmlCandidate(t: string, s: nat, p: nat, q: nat, k: nat, m: nat) {
    && HtmlOpen(t, s, p, q)
    && q + 5 <= k < m < |t|
    && t[k] == '"' && t[m] == '>'
    && (forall i :: q + 5 <= i < m ==> !IsLineTerminator(t[i]))
  }

  datatype HtmlMatch = HtmlMatch(img: nat, src: nat, quote: nat, close: nat)

  /** The match the HTML pattern prefers at `s`: the whitespace runs are
      forced, then the first `"` and the first `>` after it on the line. */
  function HtmlMatchAt(t: string, s: nat): Option<HtmlMatch> {
    if !(s < |t| && t[s] == '<') then None
    else
      var p := SkipWhitespace(t, s + 1);
      if !ImgAt(t, p) then None
      else
        var q := SkipWhitespace(t, p + 3);
        if !SrcAt(t, q) then None
        else
          var e := LineEnd(t, q + 5);
          var k := FirstOf(t, '"', q + 5, e);
          if k.None? then None
          else
            var m := FirstOf(t, '>', k.value + 1, e);
            if m.None? then None
            else Some(HtmlMatch(p, q, k.value, m.value))
  }

  /** What `HtmlMatchAt` finds is a candidate, and the one the pattern
      prefers; when it finds nothing there is no candidate at `s`. */
  lemma HtmlMatchAtSpec(t: string, s: nat)
    ensures var r := HtmlMatchAt(t, s);
      && (r.Some? ==> HtmlCandidate(t, s, r.value.img, r.value.src, r.value.quote, r.value.close))
      && (r.Some? ==> forall p: nat, q: nat, k: nat, m: nat :: HtmlCandidate(t, s, p, q, k, m) ==>
            p == r.value.img && q == r.value.src && r.value.quote <= k && (k == r.value.quote ==> r.value.close <= m))
      && (r.None? ==> forall p: nat, q: nat, k: nat, m: nat :: !HtmlCandidate(t, s, p, q, k, m))
  {
    if s < |t| && t[s] == '<' {
      var p := SkipWhitespace(t, s + 1);
      if !ImgAt(t, p) {
        assert HtmlMatchAt(t, s) == None;
        HtmlNoImg(t, s, p);
      } else {
        var q := SkipWhitespace(t, p + 3);
        if !SrcAt(t, q) {
          assert HtmlMatchAt(t, s) == None;
          HtmlNoSrc(t, s, p, q);
        } else {
          HtmlMatchAtTail(t, s, p, q);
        }
      }
    }
  }

  lemma HtmlMatchAtTail(t: string, s: nat, p: nat, q: nat)
    requires s < |t| && t[s] == '<' && p == SkipWhitespace(t, s + 1)
    requires ImgAt(t, p) && q == SkipWhitespace(t, p + 3) && SrcAt(t, q)
    ensures var r := HtmlMatchAt(t, s);
      && (r.Some? ==> HtmlCandidate(t, s, r.value.img, r.value.src, r.value.quote, r.value.close))
      && (r.Some? ==> forall p: nat, q: nat, k: nat, m: nat :: HtmlCandidate(t, s, p, q, k, m) ==>
            p == r.value.img && q == r.value.src && r.value.quote <= k && (k == r.value.quote ==> r.value.close <= m))
      && (r.None? ==> forall p: nat, q: nat, k: nat, m: nat :: !HtmlCandidate(t, s, p, q, k, m))
  {
    var e := LineEnd(t, q + 5);
    var k := FirstOf(t, '"', q + 5, e);
    if k.None? {
      assert HtmlMatchAt(t, s) == None;
      HtmlNoQuote(t, s, p, q, e);
    } else {
      var m := FirstOf(t, '>', k.value + 1, e);
      if m.None? {
        assert HtmlMatchAt(t, s) == None;
        HtmlNoClose(t, s, p, q, e, k.value);
      } else {
        assert HtmlMatchAt(t, s) == Some(HtmlMatch(p, q, k.value, m.value));
        HtmlBest(t, s, p, q, e, k.value, m.value);
      }
    }
  }

  /** `img` can only start where the first whitespace run after `<` ends. */
  lemma HtmlImgForced(t: string, s: nat, p0: nat)
    requires s < |t| && p0 == SkipWhitespace(t, s + 1)
    ensures forall p: nat, q: nat, k: nat, m: nat :: HtmlCandidate(t, s, p, q, k, m) ==> p == p0
  {
    SkipWhitespaceSpec(t, s + 1);
    forall p: nat, q: nat, k: nat, m: nat | HtmlCandidate(t, s, p, q, k, m) ensures p == p0 {
      assert t[p] == 'i';
      assert !IsWhitespace(t[p]);
      assert p0 < |t| ==> !IsWhitespace(t[p0]);
    }
  }

  /** `src="` can only start where the whitespace run after `img` ends. */
  lemma HtmlSrcForced(t: string, s: nat, p0: nat, q0: nat)
    requires p0 + 3 <= |t| && q0 == SkipWhitespace(t, p0 + 3)
    ensures forall p: nat, q: nat, k: nat, m: nat :: HtmlCandidate(t, s, p, q, k, m) && p == p0 ==> q == q0
  {
    SkipWhitespaceSpec(t, p0 + 3);
    forall p: nat, q: nat, k: nat, m: nat | HtmlCandidate(t, s, p, q, k, m) && p == p0 ensures q == q0 {
      assert t[q] == 's';
      assert !IsWhitespace(t[q]);
      assert q0 < |t| ==> !IsWhitespace(t[q0]);
    }
  }

  /** Every candidate ends before the end of its line. */
  lemma HtmlCloseOnLine(t: string, s: nat, p0: nat, q0: nat, e: nat)
    requires q0 + 5 <= |t| && e == LineEnd(t, q0 + 5)
    ensures forall p: nat, k: nat, m: nat :: HtmlCandidate(t, s, p, q0, k, m) ==> m < e
  {
    LineEndSpec(t, q0 + 5);
    assert e < |t| ==> IsLineTerminator(t[e]);
  }

  lemma HtmlNoImg(t: string, s: nat, p0: nat)
    requires s < |t| && p0 == SkipWhitespace(t, s + 1)
    requires !ImgAt(t, p0)
    ensures forall p: nat, q: nat, k: nat, m: nat :: !HtmlCandidate(t, s, p, q, k, m)
  {
    forall p: nat, q: nat, k: nat, m: nat | HtmlCandidate(t, s, p, q, k, m) ensures false {
      HtmlImgForced(t, s, p0);
    }
  }

  lemma HtmlNoSrc(t: string, s: nat, p0: nat, q0: nat)
    requires s < |t| && p0 == SkipWhitespace(t, s + 1)
    requires p0 + 3 <= |t| && q0 == SkipWhitespace(t, p0 + 3)
    requires !SrcAt(t, q0)
    ensures forall p: nat, q: nat, k: nat, m: nat :: !HtmlCandidate(t, s, p, q, k, m)
  {
    forall p: nat, q: nat, k: nat, m: nat | HtmlCandidate(t, s, p, q, k, m) ensures false {
      HtmlImgForced(t, s, p0);
      HtmlSrcForced(t, s, p0, q0);
    }
  }

  lemma HtmlNoQuote(t: string, s: nat, p0: nat, q0: nat, e: nat)
    requires s < |t| && p0 == SkipWhitespace(t, s + 1)
    requires p0 + 3 <= |t| && q0 == SkipWhitespace(t, p0 + 3)
    requires q0 + 5 <= |t| && e == LineEnd(t, q0 + 5)
    requires FirstOf(t, '"', q0 + 5, e).None?
    ensures forall p: nat, q: nat, k: nat, m: nat :: !HtmlCandidate(t, s, p, q, k, m)
  {
    FirstOfSpec(t, '"', q0 + 5, e);
    forall p: nat, q: nat, k: nat, m: nat | HtmlCandidate(t, s, p, q, k, m) ensures false {
      HtmlImgForced(t, s, p0);
      HtmlSrcForced(t, s, p0, q0);
      HtmlCloseOnLine(t, s, p0, q0, e);
    }
  }

  lemma HtmlNoClose(t: string, s: nat, p0: nat, q0: nat, e: nat, k0: nat)
    requires s < |t| && p0 == SkipWhitespace(t, s + 1)
    requires p0 + 3 <= |t| && q0 == SkipWhitespace(t, p0 + 3)
    requires q0 + 5 <= |t| && e == LineEnd(t, q0 + 5)
    requires FirstOf(t, '"', q0 + 5, e) == Some(k0)
    requires FirstOf(t, '>', k0 + 1, e).None?
    ensures forall p: nat, q: nat, k: nat, m: nat :: !HtmlCandidate(t, s, p, q, k, m)
  {
    FirstOfSpec(t, '"', q0 + 5, e);
    FirstOfSpec(t, '>', k0 + 1, e);
    forall p: nat, q: nat, k: nat, m: nat | HtmlCandidate(t, s, p, q, k, m) ensures false {
      HtmlImgForced(t, s, p0);
      HtmlSrcForced(t, s, p0, q0);
      HtmlCloseOnLine(t, s, p0, q0, e);
    }
  }

  lemma HtmlBest(t: string, s: nat, p0: nat, q0: nat, e: nat, k0: nat, m0: nat)
    requires s < |t| && t[s] == '<' && p0 == SkipWhitespace(t, s + 1)
    requires ImgAt(t, p0) && q0 == SkipWhitespace(t, p0 + 3)
    requires SrcAt(t, q0) && e == LineEnd(t, q0 + 5)
    requires FirstOf(t, '"', q0 + 5, e) == Some(k0)
    requires FirstOf(t, '>', k0 + 1, e) == Some(m0)
    ensures HtmlCandidate(t, s, p0, q0, k0, m0)
    ensures forall p: nat, q: nat, k: nat, m: nat :: HtmlCandidate(t, s, p, q, k, m) ==>
      p == p0 && q == q0 && k0 <= k && (k == k0 ==> m0 <= m)
  {
    HtmlFound(t, s, p0, q0, e, k0, m0);
    forall p: nat, q: nat, k: nat, m: nat | HtmlCandidate(t, s, p, q, k, m)
      ensures p == p0 && q == q0 && k0 <= k && (k == k0 ==> m0 <= m)
    {
      HtmlImgForced(t, s, p0);
      HtmlSrcForced(t, s, p0, q0);
      HtmlFirstQuoteClose(t, s, p0, q0, e, k0, m0, k, m);
    }
  }

  /** What the scan finds is a candidate. */
  lemma HtmlFound(t: string, s: nat, p0: nat, q0: nat, e: nat, k0: nat, m0: nat)
    requires s < |t| && t[s] == '<' && p0 == SkipWhitespace(t, s + 1)
    requires ImgAt(t, p0) && q0 == SkipWhitespace(t, p0 + 3)
    requires SrcAt(t, q0) && e == LineEnd(t, q0 + 5)
    requires FirstOf(t, '"', q0 + 5, e) == Some(k0)
    requires FirstOf(t, '>', k0 + 1, e) == Some(m0)
    ensures HtmlCandidate(t, s, p0, q0, k0, m0)
  {
    SkipWhitespaceSpec(t, s + 1);
    SkipWhitespaceSpec(t, p0 + 3);
    LineEndSpec(t, q0 + 5);
  }

  /** Once `img` and `src="` are fixed, the first `"` and then the first `>` on
      the line are the least ones a candidate can use. */
  lemma HtmlFirstQuoteClose(t: string, s: nat, p0: nat, q0: nat, e: nat, k0: nat, m0: nat, k: nat, m: nat)
    requires q0 + 5 <= |t| && e == LineEnd(t, q0 + 5)
    requires FirstOf(t, '"', q0 + 5, e) == Some(k0)
    requires FirstOf(t, '>', k0 + 1, e) == Some(m0)
    requires HtmlCandidate(t, s, p0, q0, k, m)
    ensures k0 <= k && (k == k0 ==> m0 <= m)
  {
    HtmlCloseOnLine(t, s, p0, q0, e);
    FirstOfSpec(t, '"', q0 + 5, e);
    FirstOfSpec(t, '>', k0 + 1, e);
  }

  /** The leftmost start at or after `from` where the HTML pattern matches. */
  function FirstHtmlMatch(t: string, from: nat): (r: Option<(nat, HtmlMatch)>)
    requires from <= |t|
    ensures r.Some? ==> from <= r.value.0 <= |t| && HtmlMatchAt(t, r.value.0) == Some(r.value.1)
    ensures r.Some? ==> forall s :: from <= s < r.value.0 ==> HtmlMatchAt(t, s).None?
    ensures r.None? ==> forall s :: from <= s <= |t| ==> HtmlMatchAt(t, s).None?
    decreases |t| - from
  {
    var hm := HtmlMatchAt(t, from);
    if hm.Some? then Some((from, hm.value))
    else if from == |t| then None
    else FirstHtmlMatch(t, from + 1)
  }

  /** The capture is the one a regular-expression engine reports: at the
      leftmost `<` where the pattern can match, the first `"` that still has a
      `>` after it on the line. */
  lemma HtmlSourceIs(t: string, s: nat, p: nat, q: nat, k: nat, m: nat)
    requires HtmlCandidate(t, s, p, q, k, m)
    requires forall s0: nat, p0: nat, q0: nat, k0: nat, m0: nat :: s0 < s ==> !HtmlCandidate(t, s0, p0, q0, k0, m0)
    requires forall p0: nat, q0: nat, k0: nat, m0: nat :: HtmlCandidate(t, s, p0, q0, k0, m0) ==> k <= k0
    ensures HtmlSource(t) == Some(t[q + 5..k])
  {
    forall s0: nat | s0 < s ensures HtmlMatchAt(t, s0).None? {
      HtmlMatchAtSpec(t, s0);
    }
    HtmlMatchAtSpec(t, s);
    var at := HtmlMatchAt(t, s).value;
    assert at.src == q && at.quote == k;
    HtmlFirstAt(t, s);
  }

  /** The scan stops at the first start where the pattern matches. */
  lemma HtmlFirstAt(t: string, s: nat)
    requires s <= |t| && HtmlMatchAt(t, s).Some?
    requires forall s0: nat :: s0 < s ==> HtmlMatchAt(t, s0).None?
    ensures FirstHtmlMatch(t, 0) == Some((s, HtmlMatchAt(t, s).value))
  {
    var r := FirstHtmlMatch(t, 0);
    assert r.Some?;
    assert r.value.0 <= s;
  }

  /** The text of one HTML image tag with what stands around it. */
  function HtmlImageText(pre: string, w1: string, w2: string, src: string, mid: string, post: string): (t: string)
    ensures |t| == |pre| + |w1| + |w2| + |src| + |mid| + |post| + 11
  {
    (pre + "<" + w1 + "img" + w2) + "src=\"" + (src + "\"" + mid + ">" + post)
  }

  lemma HtmlImageHead(pre: string, w1: string, w2: string, src: string, mid: string, post: string)
    requires '<' !in pre && AllWhitespace(w1) && AllWhitespace(w2)
    ensures HtmlOpen(HtmlImageText(pre, w1, w2, src, mid, post), |pre|, |pre| + 1 + |w1|, |pre| + 4 + |w1| + |w2|)
    ensures forall s0: nat :: s0 < |pre| ==> HtmlImageText(pre, w1, w2, src, mid, post)[s0] != '<'
  {
    var head := pre + "<" + w1 + "img" + w2;
    var tail := src + "\"" + mid + ">" + post;
    var t := HtmlImageText(pre, w1, w2, src, mid, post);
    assert t == head + "src=\"" + tail;
    var s := |pre|;
    var p := s + 1 + |w1|;
    var q := p + 3 + |w2|;
    assert t[..q] == head;
    assert t[q] == 's' && t[q + 1] == 'r' && t[q + 2] == 'c' && t[q + 3] == '=' && t[q + 4] == '"';
    assert head[s] == '<' && head[p] == 'i' && head[p + 1] == 'm' && head[p + 2] == 'g';
    forall i | s < i < p ensures IsWhitespace(t[i]) {
      assert t[i] == head[i] == w1[i - s - 1];
    }
    forall i | p + 3 <= i < q ensures IsWhitespace(t[i]) {
      assert t[i] == head[i] == w2[i - p - 3];
    }
    forall s0: nat | s0 < s ensures t[s0] != '<' {
      assert t[s0] == head[s0] == pre[s0] && pre[s0] in pre;
    }
  }

  lemma HtmlImageTail(pre: string, w1: string, w2: string, src: string, mid: string, post: string)
    requires '"' !in src
    requires forall i :: 0 <= i < |src| ==> !IsLineTerminator(src[i])
    requires forall i :: 0 <= i < |mid| ==> !IsLineTerminator(mid[i])
    ensures var t := HtmlImageText(pre, w1, w2, src, mid, post);
      var q := |pre| + 4 + |w1| + |w2|;
      var k := q + 5 + |src|;
      && t[k] == '"' && t[k + 1 + |mid|] == '>' && t[q + 5..k] == src
      && (forall i :: q + 5 <= i < k + 1 + |mid| ==> !IsLineTerminator(t[i]))
      && (forall i: nat :: q + 5 <= i < k ==> t[i] != '"')
  {
    var head := pre + "<" + w1 + "img" + w2 + "src=\"";
    var tail := src + "\"" + mid + ">" + post;
    var t := HtmlImageText(pre, w1, w2, src, mid, post);
    assert t == head + tail;
    var b := |head|;
    assert b == |pre| + 4 + |w1| + |w2| + 5;
    assert t[b..] == tail;
    var k := b + |src|;
    assert tail[|src|] == '"' && tail[|src| + 1 + |mid|] == '>';
    assert tail[..|src|] == src;
    forall i | b <= i < k + 1 + |mid| ensures !IsLineTerminator(t[i]) {
      if i < k {
        assert t[i] == tail[i - b] == src[i - b];
      } else if i > k {
        assert t[i] == tail[i - b] == mid[i - k - 1];
      }
    }
    forall i: nat | b <= i < k ensures t[i] != '"' {
      assert t[i] == tail[i - b] == src[i - b] && src[i - b] in src;
    }
  }

  /** A README line holding one HTML image:
      `pre <w1 img w2 src="src"mid> post`. With no `<` before it, only
      whitespace in `w1` and `w2`, no `"` in the source and no line break in
      the source or in `mid`, the capture is `src`. */
  lemma HtmlSourceOfImage(pre: string, w1: string, w2: string, src: string, mid: string, post: string)
    requires '<' !in pre && '"' !in src
    requires AllWhitespace(w1) && AllWhitespace(w2)
    requires forall i :: 0 <= i < |src| ==> !IsLineTerminator(src[i])
    requires forall i :: 0 <= i < |mid| ==> !IsLineTerminator(mid[i])
    ensures HtmlSource(HtmlImageText(pre, w1, w2, src, mid, post)) == Some(src)
  {
    var t := HtmlImageText(pre, w1, w2, src, mid, post);
    var s := |pre|;
    var p := s + 1 + |w1|;
    var q := p + 3 + |w2|;
    var k := q + 5 + |src|;
    var m := k + 1 + |mid|;
    HtmlImageHead(pre, w1, w2, src, mid, post);
    HtmlImageTail(pre, w1, w2, src, mid, post);
    assert HtmlCandidate(t, s, p, q, k, m);
    HtmlMatchAtSpec(t, s);
    var at := HtmlMatchAt(t, s);
    assert at.Some? && at.value.src == q;
    HtmlSourceIs(t, s, p, q, k, m);
  }

  /** Group 1 of `IMG_REGEX_HTML.exec(t)`, or None when `exec` returns null. */
  function HtmlSource(t: string): (r: Option<string>)
    ensures r.None? <==> forall s: nat, p: nat, q: nat, k: nat, m: nat :: s <= |t| ==> !HtmlCandidate(t, s, p, q, k, m)
  {
    match FirstHtmlMatch(t, 0)
    case None =>
      HtmlNowhere(t);
      None
    case Some((s, hm)) =>
      HtmlMatchAtSpec(t, s);
      assert HtmlCandidate(t, s, hm.img, hm.src, hm.quote, hm.close);
      Some(t[hm.src + 5..hm.quote])
  }

  lemma HtmlNowhere(t: string)
    requires FirstHtmlMatch(t, 0).None?
    ensures forall s: nat, p: nat, q: nat, k: nat, m: nat :: s <= |t| ==> !HtmlCandidate(t, s, p, q, k, m)
  {
    forall s: nat, p: nat, q: nat, k: nat, m: nat | s <= |t| ensures !HtmlCandidate(t, s, p, q, k, m) {
      HtmlMatchAtSpec(t, s);
      assert HtmlMatchAt(t, s).None?;
    }
  }
}

/**
 * The string operations the registry scripts take from JavaScript and from
 * Node's libraries: `trim`, `split`/`join`, `indexOf`, `url-join` and
 * `path.basename`.
 */
module Strings {

  /** What JavaScript's `\s` matches and `String.prototype.trim` removes:
      the WhiteSpace and LineTerminator code points. */
  predicate IsWhitespace(c: char) {
    || c == ' ' || c == '\t' || c == '\n' || c == '\r' || c == '\U{000B}' || c == '\U{000C}'
    || c == '\U{00A0}' || c == '\U{1680}' || ('\U{2000}' <= c <= '\U{200A}')
    || c == '\U{2028}' || c == '\U{2029}' || c == '\U{202F}' || c == '\U{205F}'
    || c == '\U{3000}' || c == '\U{FEFF}'
  }

  /** What a regular-expression `.` refuses when the `s` flag is absent. */
  predicate IsLineTerminator(c: char) {
    c == '\n' || c == '\r' || c == '\U{2028}' || c == '\U{2029}'
  }

  lemma LineTerminatorIsWhitespace(c: char)
    ensures IsLineTerminator(c) ==> IsWhitespace(c)
  {
  }

  predicate IsPrefix(p: string, s: string) {
    |p| <= |s| && s[..|p|] == p
  }

  predicate IsSuffix(p: string, s: string) {
    |p| <= |s| && s[|s| - |p|..] == p
  }

  // ---------------------------------------------------------------------------
  // trim

  /** `s.trimStart()`: drops the whitespace run at the front and nothing else. */
  function TrimStart(s: string): (r: string)
    ensures IsSuffix(r, s)
    ensures forall i :: 0 <= i < |s| - |r| ==> IsWhitespace(s[i])
    ensures r == [] || !IsWhitespace(r[0])
  {
    if |s| > 0 && IsWhitespace(s[0]) then TrimStart(s[1..]) else s
  }

  /** `s.trimEnd()`: drops the whitespace run at the back and nothing else. */
  function TrimEnd(s: string): (r: string)
    ensures IsPrefix(r, s)
    ensures forall i :: |r| <= i < |s| ==> IsWhitespace(s[i])
    ensures r == [] || !IsWhitespace(r[|r| - 1])
  {
    if |s| > 0 && IsWhitespace(s[|s| - 1]) then TrimEnd(s[..|s| - 1]) else s
  }

  /** `s.trim()`. */
  function Trim(s: string): (r: string)
    ensures |r| <= |s|
    ensures r == [] || (!IsWhitespace(r[0]) && !IsWhitespace(r[|r| - 1]))
  {
    TrimEnd(TrimStart(s))
  }

  /** Trimming only removes characters: one absent from `s` is absent from `trim(s)`. */
  lemma TrimAddsNothing(s: string, c: char)
    requires c !in s
    ensures c !in Trim(s)
  {
    var t := TrimStart(s);
    var r := TrimEnd(t);
    forall i | 0 <= i < |r| ensures r[i] != c {
      assert r[i] == t[i];
      assert t[i] == s[|s| - |t| + i];
    }
  }

  predicate AllWhitespace(w: string) {
    forall i :: 0 <= i < |w| ==> IsWhitespace(w[i])
  }

  lemma {:induction false} TrimStartPadded(w: string, x: string)
    requires AllWhitespace(w)
    requires x == [] || !IsWhitespace(x[0])
    ensures TrimStart(w + x) == x
    decreases |w|
  {
    if w != [] {
      assert (w + x)[1..] == w[1..] + x;
      TrimStartPadded(w[1..], x);
    } else {
      assert w + x == x;
    }
  }

  lemma {:induction false} TrimEndPadded(x: string, w: string)
    requires AllWhitespace(w)
    requires x == [] || !IsWhitespace(x[|x| - 1])
    ensures TrimEnd(x + w) == x
    decreases |w|
  {
    if w != [] {
      assert (x + w)[..|x + w| - 1] == x + w[..|w| - 1];
      TrimEndPadded(x, w[..|w| - 1]);
    } else {
      assert x + w == x;
    }
  }

  /** Reference characterisation of `trim`: a string with whitespace padding
      on both sides trims to exactly its unpadded core, whatever the padding. */
  lemma TrimOfPadded(w1: string, x: string, w2: string)
    requires AllWhitespace(w1) && AllWhitespace(w2)
    requires x == [] || (!IsWhitespace(x[0]) && !IsWhitespace(x[|x| - 1]))
    ensures Trim(w1 + x + w2) == x
  {
    if x == [] {
      assert w1 + x + w2 == w1 + w2;
      assert AllWhitespace(w1 + w2);
      TrimStartPadded(w1 + w2, []);
      assert w1 + w2 + [] == w1 + w2;
    } else {
      assert w1 + x + w2 == w1 + (x + w2);
      TrimStartPadded(w1, x + w2);
      TrimEndPadded(x, w2);
    }
  }

  /** Trimming twice changes nothing more. */
  lemma TrimIdempotent(s: string)
    ensures Trim(Trim(s)) == Trim(s)
  {
    var r := Trim(s);
    assert r == [] + r + [];
    TrimOfPadded([], r, []);
  }

  // ---------------------------------------------------------------------------
  // split and join

  /** `parts.join(sep)`. */
  function Join(parts: seq<string>, sep: char): string {
    if |parts| == 0 then ""
    else if |parts| == 1 then parts[0]
    else parts[0] + [sep] + Join(parts[1..], sep)
  }

  /** `s.split(sep)` for a one-character separator: the pieces between the
      separators, at least one, none holding the separator, and joining them
      again gives back `s`. */
  function Split(s: string, sep: char): (parts: seq<string>)
    ensures |parts| >= 1
    ensures forall i :: 0 <= i < |parts| ==> sep !in parts[i]
    ensures Join(parts, sep) == s
  {
    if |s| == 0 then [""]
    else
      var rest := Split(s[1..], sep);
      if s[0] == sep then
        assert ([""] + rest)[1..] == rest;
        [""] + rest
      else
        var parts := [[s[0]] + rest[0]] + rest[1..];
        assert parts[1..] == rest[1..];
        assert |rest| > 1 ==> Join(rest, sep) == rest[0] + [sep] + Join(rest[1..], sep);
        parts
  }

  /** Joining two non-empty lists of pieces puts one separator between them. */
  lemma {:induction false} JoinConcat(p: seq<string>, q: seq<string>, sep: char)
    requires |p| >= 1 && |q| >= 1
    ensures Join(p + q, sep) == Join(p, sep) + [sep] + Join(q, sep)
    decreases |p|
  {
    assert (p + q)[0] == p[0];
    assert (p + q)[1..] == p[1..] + q;
    if |p| > 1 {
      JoinConcat(p[1..], q, sep);
    }
  }

  /** Splitting undoes joining: pieces free of the separator are recovered. */
  lemma {:induction false} SplitJoin(parts: seq<string>, sep: char)
    requires |parts| >= 1
    requires forall i :: 0 <= i < |parts| ==> sep !in parts[i]
    ensures Split(Join(parts, sep), sep) == parts
    decreases |parts|, |parts[0]|
  {
    var p := parts[0];
    if |parts| == 1 {
      if p != [] {
        SplitJoin([p[1..]], sep);
        assert Join([p[1..]], sep) == p[1..];
        assert p[0] != sep by { assert p[0] in p; }
      }
    } else if p == [] {
      var tail := parts[1..];
      SplitJoin(tail, sep);
      assert Join(parts, sep) == [sep] + Join(tail, sep);
      assert (Join(parts, sep))[1..] == Join(tail, sep);
      assert [""] + tail == parts;
    } else {
      var shorter := [p[1..]] + parts[1..];
      assert forall i :: 0 <= i < |shorter| ==> sep !in shorter[i] by {
        forall i | 0 <= i < |shorter| ensures sep !in shorter[i] {
          if i == 0 {
            assert forall c :: c in p[1..] ==> c in p;
          } else {
            assert shorter[i] == parts[i];
          }
        }
      }
      SplitJoin(shorter, sep);
      assert shorter[1..] == parts[1..];
      assert Join(parts, sep) == [p[0]] + Join(shorter, sep);
      assert (Join(parts, sep))[1..] == Join(shorter, sep);
      assert p[0] != sep by { assert p[0] in p; }
      assert [p[0]] + shorter[0] == p;
      assert [p] + parts[1..] == parts;
    }
  }

  /** Joining a tail of the pieces gives a suffix of the whole. */
  lemma {:induction false} JoinTailIsSuffix(parts: seq<string>, sep: char, k: nat)
    requires k < |parts|
    ensures IsSuffix(Join(parts[k..], sep), Join(parts, sep))
    decreases k
  {
    if k > 0 {
      JoinTailIsSuffix(parts[1..], sep, k - 1);
      assert parts[1..][k - 1..] == parts[k..];
      assert Join(parts, sep) == parts[0] + [sep] + Join(parts[1..], sep);
    }
  }

  /** Splitting at a separator splits each side separately. */
  lemma SplitConcat(a: string, b: string, sep: char)
    ensures Split(a + [sep] + b, sep) == Split(a, sep) + Split(b, sep)
  {
    var pa := Split(a, sep);
    var pb := Split(b, sep);
    var parts := pa + pb;
    JoinConcat(pa, pb, sep);
    assert Join(parts, sep) == a + [sep] + b;
    FreeConcat(pa, pb, sep);
    SplitJoin(parts, sep);
  }

  lemma FreeConcat(pa: seq<string>, pb: seq<string>, sep: char)
    requires forall i :: 0 <= i < |pa| ==> sep !in pa[i]
    requires forall i :: 0 <= i < |pb| ==> sep !in pb[i]
    ensures forall i :: 0 <= i < |pa + pb| ==> sep !in (pa + pb)[i]
  {
    forall i | 0 <= i < |pa + pb| ensures sep !in (pa + pb)[i] {
      if i < |pa| {
        assert (pa + pb)[i] == pa[i];
      } else {
        assert (pa + pb)[i] == pb[i - |pa|];
      }
    }
  }

  /** `s.split(sep)[0]`: the text before the first separator. */
  function Before(s: string, sep: char): (r: string)
    ensures IsPrefix(r, s)
    ensures sep !in r
    ensures |r| < |s| ==> s[|r|] == sep
  {
    var parts := Split(s, sep);
    if |parts| == 1 then parts[0]
    else
      assert Join(parts, sep) == parts[0] + [sep] + Join(parts[1..], sep);
      parts[0]
  }

  /** `Before` stops at the first separator: if `s[k]` is the first `sep`
      (or `s` has none and `k` is its length), the text before it is `s[..k]`. */
  lemma BeforeUpTo(s: string, sep: char, k: nat)
    requires k <= |s| && (k < |s| ==> s[k] == sep)
    requires forall i :: 0 <= i < k ==> s[i] != sep
    ensures Before(s, sep) == s[..k]
  {
    var b := Before(s, sep);
    assert forall i :: 0 <= i < |b| ==> b[i] == s[i] && b[i] != sep by {
      forall i | 0 <= i < |b| ensures b[i] == s[i] && b[i] != sep {
        assert b[i] in b;
      }
    }
    if |b| < k {
      assert false;
    }
    if |b| > k {
      assert false;
    }
  }

  /** Where `sub` stands between `a` and `b`, it occurs at `|a|`. */
  lemma OccursAfter(a: string, sub: string, b: string)
    ensures OccursAt(a + sub + b, sub, |a|)
    ensures Contains(a + sub + b, sub)
  {
    assert (a + sub + b)[|a|..|a| + |sub|] == sub;
    assert OccursAt(a + sub + b, sub, |a|);
  }

  // ---------------------------------------------------------------------------
  // indexOf

  predicate OccursAt(s: string, sub: string, i: nat) {
    i + |sub| <= |s| && s[i..i + |sub|] == sub
  }

  /** `s.indexOf(sub, from)`: the first position at or after `from` where
      `sub` occurs, or -1 when there is none. */
  function IndexOfFrom(s: string, sub: string, from: nat): (r: int)
    requires from <= |s|
    ensures r == -1 || (from <= r && OccursAt(s, sub, r))
    ensures r == -1 ==> forall i :: from <= i <= |s| ==> !OccursAt(s, sub, i)
    ensures r != -1 ==> forall i :: from <= i < r ==> !OccursAt(s, sub, i)
    decreases |s| - from
  {
    if from + |sub| > |s| then -1
    else if OccursAt(s, sub, from) then from
    else IndexOfFrom(s, sub, from + 1)
  }

  function IndexOf(s: string, sub: string): int {
    IndexOfFrom(s, sub, 0)
  }

  /** `s.indexOf(sub) !== -1`. */
  predicate Contains(s: string, sub: string) {
    IndexOf(s, sub) != -1
  }

  /** What `s` contains, `s` followed by more text contains too. */
  lemma ContainsExtended(s: string, b: string, sub: string)
    requires Contains(s, sub)
    ensures Contains(s + b, sub)
  {
    var i := IndexOf(s, sub);
    assert (s + b)[i..i + |sub|] == s[i..i + |sub|];
    assert OccursAt(s + b, sub, i);
  }

  /** `s.indexOf(sub) === 0` holds exactly when `s` starts with `sub`. */
  lemma IndexOfZeroIffPrefix(s: string, sub: string)
    ensures IndexOf(s, sub) == 0 <==> IsPrefix(sub, s)
  {
    assert OccursAt(s, sub, 0) <==> IsPrefix(sub, s);
  }

  // ---------------------------------------------------------------------------
  // url-join and path.basename

  function StripTrailingSlashes(s: string): (r: string)
    ensures IsPrefix(r, s)
    ensures forall i :: |r| <= i < |s| ==> s[i] == '/'
    ensures r == [] || r[|r| - 1] != '/'
  {
    if |s| > 0 && s[|s| - 1] == '/' then StripTrailingSlashes(s[..|s| - 1]) else s
  }

  function StripLeadingSlashes(s: string): (r: string)
    ensures IsSuffix(r, s)
    ensures forall i :: 0 <= i < |s| - |r| ==> s[i] == '/'
    ensures r == [] || r[0] != '/'
  {
    if |s| > 0 && s[0] == '/' then StripLeadingSlashes(s[1..]) else s
  }

  /** `urlJoin(base, part)`: the two pieces with exactly one `/` between them. */
  function UrlJoin(base: string, part: string): string {
    StripTrailingSlashes(base) + "/" + StripLeadingSlashes(part)
  }

  /** The joined URL keeps the base (less its trailing slashes) in front,
      puts a single `/` after it, and ends with the part (less its leading
      slashes); a part that does not start with `/` is kept whole. */
  lemma UrlJoinShape(base: string, part: string)
    ensures IsPrefix(StripTrailingSlashes(base) + "/", UrlJoin(base, part))
    ensures IsSuffix(StripLeadingSlashes(part), UrlJoin(base, part))
    ensures (part == [] || part[0] != '/') ==> UrlJoin(base, part) == StripTrailingSlashes(base) + "/" + part
  {
    if part == [] || part[0] != '/' {
      assert StripLeadingSlashes(part) == part;
    }
  }

  /** A part that does not start with `/` ends the joined URL, right after a `/`. */
  lemma UrlJoinEndsWithPart(base: string, part: string)
    requires part == [] || part[0] != '/'
    ensures IsSuffix("/" + part, UrlJoin(base, part))
  {
    assert StripLeadingSlashes(part) == part;
    var b := StripTrailingSlashes(base);
    var u := b + ("/" + part);
    assert UrlJoin(base, part) == u;
    assert u[|u| - |"/" + part|..] == "/" + part;
  }

  /** A base that does not end in `/` and a part that does not start with
      one are joined with a single `/` and nothing dropped. */
  lemma UrlJoinPlain(base: string, part: string)
    requires base == [] || base[|base| - 1] != '/'
    requires part == [] || part[0] != '/'
    ensures UrlJoin(base, part) == base + "/" + part
  {
    assert StripTrailingSlashes(base) == base;
    assert StripLeadingSlashes(part) == part;
  }

  lemma PrefixOfConcat(a: string, b: string)
    ensures IsPrefix(a, a + b)
  {
    assert (a + b)[..|a|] == a;
  }

  /** Joining one base with two different parts (neither starting with `/`)
      gives two different URLs. */
  lemma UrlJoinInjective(base: string, p1: string, p2: string)
    requires p1 == [] || p1[0] != '/'
    requires p2 == [] || p2[0] != '/'
    requires UrlJoin(base, p1) == UrlJoin(base, p2)
    ensures p1 == p2
  {
    UrlJoinShape(base, p1);
    UrlJoinShape(base, p2);
    var b := StripTrailingSlashes(base) + "/";
    assert UrlJoin(base, p1)[|b|..] == p1;
    assert UrlJoin(base, p2)[|b|..] == p2;
  }

  /** Joining in two steps is joining once with the two parts glued by `/`:
      `urlJoin(urlJoin(a, b), c) == urlJoin(a, b + '/' + c)`. */
  lemma UrlJoinTwice(a: string, b: string, c: string)
    requires b != [] && b[0] != '/' && b[|b| - 1] != '/'
    requires c == [] || c[0] != '/'
    ensures UrlJoin(UrlJoin(a, b), c) == UrlJoin(a, b + "/" + c)
  {
    var sa := StripTrailingSlashes(a);
    var bc := b + "/" + c;
    assert StripLeadingSlashes(b) == b;
    var ab := sa + "/" + b;
    assert UrlJoin(a, b) == ab;
    assert ab[|ab| - 1] == b[|b| - 1];
    UrlJoinPlain(ab, c);
    assert bc[0] == b[0];
    assert StripLeadingSlashes(bc) == bc;
    assert UrlJoin(a, bc) == sa + "/" + bc;
    assert ab + "/" + c == sa + "/" + bc;
  }

  /** The last `/`-separated piece: the whole string when it holds no `/`,
      and otherwise everything after its last `/`. */
  function LastSegment(s: string): (r: string)
    ensures '/' !in r
    ensures IsSuffix(r, s)
    ensures r == s || (|r| < |s| && s[|s| - |r| - 1] == '/')
  {
    var parts := Split(s, '/');
    var n := |parts|;
    if n == 1 then parts[0]
    else
      var r := parts[n - 1];
      JoinConcat(parts[..n - 1], [r], '/');
      assert parts[..n - 1] + [r] == parts;
      assert Join([r], '/') == r;
      assert s == Join(parts[..n - 1], '/') + ['/'] + r;
      r
  }

  /** `path.basename(p)` (POSIX, no extension argument): the last piece of
      the path once trailing slashes are dropped. */
  function Basename(p: string): (r: string)
    ensures '/' !in r
    ensures IsSuffix(r, StripTrailingSlashes(p))
    ensures var q := StripTrailingSlashes(p);
      r == q || (|r| < |q| && q[|q| - |r| - 1] == '/')
  {
    LastSegment(StripTrailingSlashes(p))
  }

  /** A name without `/` is its own base name. */
  lemma BasenameOfName(name: string)
    requires '/' !in name
    ensures Basename(name) == name
  {
    assert forall i :: 0 <= i < |name| ==> name[i] != '/' by {
      forall i | 0 <= i < |name| ensures name[i] != '/' {
        assert name[i] in name;
      }
    }
    assert StripTrailingSlashes(name) == name;
  }

  /** Trailing slashes make no difference to the base name. */
  lemma BasenameTrailingSlash(p: string)
    ensures Basename(p + "/") == Basename(p)
  {
    assert (p + "/")[..|p + "/"| - 1] == p;
  }

  /** `s.split(sep)` of a string without `sep` is `[s]`. */
  lemma SplitWithoutSep(s: string, sep: char)
    ensures sep !in s ==> Split(s, sep) == [s]
  {
    if sep !in s {
      SplitJoin([s], sep);
    }
  }

  /** The base name of `dir/name` is `name`. */
  lemma BasenameOfPath(dir: string, name: string)
    requires '/' !in name && name != []
    ensures Basename(dir + "/" + name) == name
  {
    var p := dir + "/" + name;
    assert p[|p| - 1] == name[|name| - 1] && name[|name| - 1] in name;
    assert StripTrailingSlashes(p) == p;
    assert p == dir + ['/'] + name;
    SplitConcat(dir, name, '/');
    SplitJoin([name], '/');
    assert Join([name], '/') == name;
  }

  /** Leading slashes of the part make no difference to the joined URL. */
  lemma UrlJoinLeadingSlash(base: string, part: string)
    ensures UrlJoin(base, "/" + part) == UrlJoin(base, part)
  {
    assert ("/" + part)[1..] == part;
  }

  /** A string lacking a character of `sub` does not contain `sub`. */
  lemma MissingCharNotContained(s: string, sub: string, c: char)
    requires c in sub && c !in s
    ensures !Contains(s, sub)
  {
    var i :| 0 <= i < |sub| && sub[i] == c;
    forall r: nat ensures !OccursAt(s, sub, r) {
      assert r + |sub| <= |s| ==> s[r..r + |sub|][i] == s[r + i] && s[r + i] in s;
    }
  }
}

/**
 * The string operations of JavaScript that the pages rely on: `trim`,
 * `split` on a character, `indexOf` / `includes`, `replace` of a literal
 * string, and the character classes of regular expressions.
 * A string is a sequence of Unicode scalar values, one `char` each. A
 * JavaScript string counts UTF-16 code units instead, so positions and
 * lengths agree with JavaScript's only for text without characters beyond
 * U+FFFF, and a lone surrogate has no counterpart here.
 */
module Text {
  import opened Wrappers

  /** White space as `trim` and the regular-expression class `\s` see it:
      ECMAScript's WhiteSpace and LineTerminator characters. */
  predicate IsSpace(c: char) {
    || c == ' ' || c == '\t' || c == '\n' || c == '\r' || c == '\U{B}' || c == '\U{C}'
    || c == '\U{A0}' || c == '\U{1680}' || ('\U{2000}' <= c <= '\U{200A}')
    || c == '\U{2028}' || c == '\U{2029}' || c == '\U{202F}' || c == '\U{205F}'
    || c == '\U{3000}' || c == '\U{FEFF}'
  }

  /** The characters the regular-expression `.` does not match. */
  predicate IsLineTerminator(c: char) {
    c == '\n' || c == '\r' || c == '\U{2028}' || c == '\U{2029}'
  }

  predicate NotLineTerminator(c: char) {
    !IsLineTerminator(c)
  }

  /** The regular-expression class `\d` (without the `u` flag). */
  predicate IsDigit(c: char) {
    '0' <= c <= '9'
  }

  predicate AllSpace(s: string) {
    forall k :: 0 <= k < |s| ==> IsSpace(s[k])
  }

  /** The end of the longest run of characters satisfying `p` that starts at
      `from`: the greedy `p*` of a regular expression. */
  function RunEnd(s: string, from: nat, p: char -> bool): (r: nat)
    requires from <= |s|
    ensures from <= r <= |s|
    ensures forall k :: from <= k < r ==> p(s[k])
    ensures r == |s| || !p(s[r])
    decreases |s| - from
  {
    if from == |s| || !p(s[from]) then from else RunEnd(s, from + 1, p)
  }

  /** A run measured inside the slice `s[lo..hi]` ends where the run in `s`
      ends, cut off at `hi`. */
  lemma {:induction false} RunEndSlice(s: string, lo: nat, hi: nat, i: nat, p: char -> bool)
    requires lo + i <= hi <= |s|
    ensures RunEnd(s[lo..hi], i, p) + lo == if RunEnd(s, lo + i, p) < hi then RunEnd(s, lo + i, p) else hi
    decreases hi - lo - i
  {
    var t := s[lo..hi];
    if i == |t| || !p(t[i]) {
    } else {
      RunEndSlice(s, lo, hi, i + 1, p);
    }
  }

  /** The start of the white-space run that ends at `hi`: scanning backwards. */
  function SpaceRunStart(s: string, hi: nat): (r: nat)
    requires hi <= |s|
    ensures r <= hi
    ensures forall k :: r <= k < hi ==> IsSpace(s[k])
    ensures r == 0 || !IsSpace(s[r - 1])
  {
    if hi == 0 || !IsSpace(s[hi - 1]) then hi else SpaceRunStart(s, hi - 1)
  }

  /** `s.trim()`: `s` without the white space around it. */
  function Trim(s: string): (r: string)
  {
    var lo := RunEnd(s, 0, IsSpace);
    var hi := SpaceRunStart(s, |s|);
    if lo < hi then s[lo..hi] else []
  }

  /** What `Trim` keeps has no white space at either end, and what it drops
      is all white space. */
  lemma TrimShape(s: string)
    ensures var r := Trim(s); r == [] || (!IsSpace(r[0]) && !IsSpace(r[|r| - 1]))
    ensures Trim(s) == [] <==> AllSpace(s)
  {
  }

  /** `Trim` removes exactly the white space around a string with non-space
      ends. */
  lemma {:induction false} TrimOf(pre: string, m: string, post: string)
    requires AllSpace(pre) && AllSpace(post)
    requires m == [] || (!IsSpace(m[0]) && !IsSpace(m[|m| - 1]))
    ensures Trim(pre + m + post) == m
  {
    var s := pre + m + post;
    var lo := RunEnd(s, 0, IsSpace);
    var hi := SpaceRunStart(s, |s|);
    if m == [] {
      assert AllSpace(s) by {
        forall k | 0 <= k < |s| ensures IsSpace(s[k]) {
          if k < |pre| { assert s[k] == pre[k]; } else { assert s[k] == post[k - |pre|]; }
        }
      }
    } else {
      assert s[|pre|] == m[0];
      assert s[|pre| + |m| - 1] == m[|m| - 1];
      assert forall k :: 0 <= k < |pre| ==> s[k] == pre[k];
      assert forall k :: |pre| + |m| <= k < |s| ==> s[k] == post[k - |pre| - |m|];
      assert lo == |pre|;
      assert hi == |pre| + |m|;
      assert s[lo..hi] == m;
    }
  }

  /** Trimming a trimmed string changes nothing. */
  lemma TrimTwice(s: string)
    ensures Trim(Trim(s)) == Trim(s)
  {
    var r := Trim(s);
    TrimShape(s);
    TrimOf([], r, []);
    assert [] + r + [] == r;
  }

  /** `indexOf` finds an occurrence with none before it. */
  lemma IndexOfFirst(s: string, pat: string, i: nat)
    requires OccursAt(s, pat, i)
    requires forall j :: 0 <= j < i ==> !OccursAt(s, pat, j)
    ensures IndexOf(s, pat, 0) == Some(i)
  {
  }

  /** `replace` of a string that occurs cuts out its first occurrence. */
  lemma RemoveFirstAt(s: string, pat: string, i: nat)
    requires IndexOf(s, pat, 0) == Some(i)
    ensures i + |pat| <= |s| && RemoveFirst(s, pat) == s[..i] + s[i + |pat|..]
  {
  }

  /** `replace` of a string that does not occur changes nothing. */
  lemma RemoveFirstAbsent(s: string, pat: string)
    requires IndexOf(s, pat, 0).None?
    ensures RemoveFirst(s, pat) == s
  {
  }

  /** `r` is the trimmed string `s` with the first occurrence of `pat` cut
      out and the rest trimmed again, or `s` itself when `pat` does not
      occur in it. */
  predicate CutFirst(s: string, pat: string, r: string) {
    && (IndexOf(s, pat, 0).Some? ==>
          var i := IndexOf(s, pat, 0).value;
          i + |pat| <= |s| && r == Trim(s[..i] + s[i + |pat|..]))
    && (IndexOf(s, pat, 0).None? ==> r == s)
  }

  /** `s.trim().replace(pat, '').trim()`, spelled out. */
  lemma ReplaceInTrimmed(raw: string, pat: string)
    ensures CutFirst(Trim(raw), pat, Trim(RemoveFirst(Trim(raw), pat)))
  {
    var s := Trim(raw);
    if IndexOf(s, pat, 0).None? {
      RemoveFirstAbsent(s, pat);
      TrimTwice(raw);
    } else {
      RemoveFirstAt(s, pat, IndexOf(s, pat, 0).value);
    }
  }

  /** The first index at or after `from` that holds `c`. */
  function FindChar(s: string, c: char, from: nat): (r: Option<nat>)
    ensures r.Some? ==> from <= r.value < |s| && s[r.value] == c
    ensures forall k :: from <= k < (if r.Some? then r.value else |s|) ==> s[k] != c
    decreases |s| - from
  {
    if from >= |s| then None
    else if s[from] == c then Some(from)
    else FindChar(s, c, from + 1)
  }

  /** `FindChar` reports the first `c` at or after `from`. */
  lemma {:induction false} FindCharIs(s: string, c: char, from: nat, x: nat)
    requires from <= x < |s| && s[x] == c
    requires forall k :: from <= k < x ==> s[k] != c
    ensures FindChar(s, c, from) == Some(x)
    decreases x - from
  {
    if from < x {
      FindCharIs(s, c, from + 1, x);
    }
  }

  /** The pieces joined back with the separator between them. */
  function Join(parts: seq<string>, sep: char): string {
    if |parts| == 0 then []
    else if |parts| == 1 then parts[0]
    else parts[0] + [sep] + Join(parts[1..], sep)
  }

  /** `s.split(sep)` for a one-character separator. */
  function Split(s: string, sep: char): (parts: seq<string>)
    ensures |parts| >= 1
    ensures forall k :: 0 <= k < |parts| ==> sep !in parts[k]
    ensures Join(parts, sep) == s
    decreases |s|
  {
    match FindChar(s, sep, 0)
    case None => [s]
    case Some(i) =>
      var rest := Split(s[i + 1..], sep);
      assert s == s[..i] + [sep] + s[i + 1..];
      [s[..i]] + rest
  }

  /** The pieces written one after another. */
  function Concat(ss: seq<string>): string {
    if |ss| == 0 then [] else ss[0] + Concat(ss[1..])
  }

  /** `pat` occurs in `s` starting at index `i`. */
  predicate OccursAt(s: string, pat: string, i: nat) {
    i + |pat| <= |s| && s[i..i + |pat|] == pat
  }

  /** `s.indexOf(pat, from)`, with `None` for -1. */
  function IndexOf(s: string, pat: string, from: nat): (r: Option<nat>)
    ensures r.Some? ==> from <= r.value && OccursAt(s, pat, r.value)
    ensures forall j :: from <= j < (if r.Some? then r.value else |s| + 1) ==> !OccursAt(s, pat, j)
    decreases |s| + 1 - from
  {
    if from + |pat| > |s| then None
    else if s[from..from + |pat|] == pat then Some(from)
    else IndexOf(s, pat, from + 1)
  }

  /** `s.includes(pat)` */
  predicate Contains(s: string, pat: string) {
    IndexOf(s, pat, 0).Some?
  }

  lemma ContainsIff(s: string, pat: string)
    ensures Contains(s, pat) <==> exists i :: OccursAt(s, pat, i)
  {
    if r: nat :| OccursAt(s, pat, r) {
      assert r < |s| + 1;
    }
  }

  /** `s.replace(pat, '')` with a literal string pattern: the first
      occurrence of `pat` is removed, and nothing happens without one. */
  function RemoveFirst(s: string, pat: string): (r: string)
  {
    match IndexOf(s, pat, 0)
    case None => s
    case Some(i) => s[..i] + s[i + |pat|..]
  }

  /** The leftmost index at or after `from` where the recogniser `at`
      matches, with what it captured: how `String.prototype.match` searches
      for a pattern without the `g` flag (none of the patterns modelled here
      matches the empty string, so no match starts at `|s|`). */
  function FirstMatch<T>(s: string, at: (string, nat) -> Option<T>, from: nat): (r: Option<(nat, T)>)
    ensures r.Some? ==> from <= r.value.0 < |s| && at(s, r.value.0) == Some(r.value.1)
    decreases |s| - from
  {
    if from >= |s| then None
    else match at(s, from)
      case Some(v) => Some((from, v))
      case None => FirstMatch(s, at, from + 1)
  }

  /** No position before the one `FirstMatch` reports matches. */
  lemma {:induction false} FirstMatchLeftmost<T>(s: string, at: (string, nat) -> Option<T>, from: nat)
    ensures var r := FirstMatch(s, at, from);
      forall j :: from <= j < (if r.Some? then r.value.0 else |s|) ==> at(s, j).None?
    decreases |s| - from
  {
    if from < |s| && at(s, from).None? {
      FirstMatchLeftmost(s, at, from + 1);
    }
  }
}

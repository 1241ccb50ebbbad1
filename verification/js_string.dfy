/** The string operations of the ECMAScript standard library that the front end
    relies on: `trim`, `toUpperCase` on ASCII text, `includes`, and `replace` with a
    string pattern (which replaces the first match only). */
module JsString {
  import opened Wrappers

  /** The code points `String.prototype.trim` strips: the WhiteSpace and
      LineTerminator productions of sections 12.2 and 12.3 of ECMA-262. */
  predicate IsWhitespace(c: char) {
    var n := c as int;
    || n == 0x09 || n == 0x0A || n == 0x0B || n == 0x0C || n == 0x0D || n == 0x20
    || n == 0xA0 || n == 0x1680 || (0x2000 <= n <= 0x200A)
    || n == 0x2028 || n == 0x2029 || n == 0x202F || n == 0x205F
    || n == 0x3000 || n == 0xFEFF
  }

  predicate AllWhitespace(s: string) {
    forall i :: 0 <= i < |s| ==> IsWhitespace(s[i])
  }

  /** A string with no whitespace at either end: what `trim` returns. */
  predicate Unpadded(s: string) {
    |s| == 0 || (!IsWhitespace(s[0]) && !IsWhitespace(s[|s| - 1]))
  }

  /** The first index at or after `from` that does not hold whitespace. */
  function SkipWhitespace(s: string, from: nat): (n: nat)
    requires from <= |s|
    ensures from <= n <= |s|
    ensures forall i :: from <= i < n ==> IsWhitespace(s[i])
    ensures n < |s| ==> !IsWhitespace(s[n])
    decreases |s| - from
  {
    if from == |s| || !IsWhitespace(s[from]) then from else SkipWhitespace(s, from + 1)
  }

  /** The least `n` in `[lo, hi]` such that `s[n..hi]` is all whitespace. */
  function SkipWhitespaceBack(s: string, lo: nat, hi: nat): (n: nat)
    requires lo <= hi <= |s|
    ensures lo <= n <= hi
    ensures forall i :: n <= i < hi ==> IsWhitespace(s[i])
    ensures lo < n ==> !IsWhitespace(s[n - 1])
    decreases hi
  {
    if hi == lo || !IsWhitespace(s[hi - 1]) then hi else SkipWhitespaceBack(s, lo, hi - 1)
  }

  /** `s.trim()`: `s` with leading and trailing whitespace removed. */
  function Trim(s: string): (r: string)
    ensures Unpadded(r)
    ensures |r| == 0 <==> AllWhitespace(s)
    ensures exists w1, w2 :: AllWhitespace(w1) && AllWhitespace(w2) && s == w1 + r + w2
  {
    var a := SkipWhitespace(s, 0);
    var b := SkipWhitespaceBack(s, a, |s|);
    TrimParts(s, a, b);
    s[a..b]
  }

  /** What the two scans of `Trim` leave between them. */
  lemma TrimParts(s: string, a: nat, b: nat)
    requires a <= b <= |s|
    requires forall i :: 0 <= i < a ==> IsWhitespace(s[i])
    requires forall i :: b <= i < |s| ==> IsWhitespace(s[i])
    requires a < |s| ==> !IsWhitespace(s[a])
    requires a < b ==> !IsWhitespace(s[b - 1])
    ensures Unpadded(s[a..b])
    ensures |s[a..b]| == 0 <==> AllWhitespace(s)
    ensures AllWhitespace(s[..a]) && AllWhitespace(s[b..]) && s == s[..a] + s[a..b] + s[b..]
  {
    assert s == s[..a] + s[a..b] + s[b..];
    if a < b {
      assert s[a..b][0] == s[a] && s[a..b][b - a - 1] == s[b - 1];
    }
  }

  /** Trimming is determined by the padding: any whitespace-padded unpadded string
      trims back to its core. Together with Trim's contract this pins `Trim` down. */
  lemma TrimOfPadded(w1: string, x: string, w2: string)
    requires AllWhitespace(w1) && AllWhitespace(w2) && Unpadded(x)
    ensures Trim(w1 + x + w2) == x
  {
    var s := w1 + x + w2;
    var a := SkipWhitespace(s, 0);
    var b := SkipWhitespaceBack(s, a, |s|);
    if |x| == 0 {
      assert AllWhitespace(s) by {
        forall i | 0 <= i < |s| ensures IsWhitespace(s[i]) {
          if i < |w1| { assert s[i] == w1[i]; } else { assert s[i] == w2[i - |w1|]; }
        }
      }
    } else {
      assert s[|w1|] == x[0];
      assert s[|w1| + |x| - 1] == x[|x| - 1];
      assert a == |w1|;
      assert b == |w1| + |x|;
      assert s[a..b] == x;
    }
  }

  predicate IsAscii(s: string) {
    forall i :: 0 <= i < |s| ==> s[i] as int < 128
  }

  /** `toUpperCase` on one ASCII character. */
  function UpperChar(c: char): char {
    if 'a' <= c <= 'z' then (c as int - 32) as char else c
  }

  /** `s.toUpperCase()`, exact on ASCII strings. */
  function ToUpper(s: string): (r: string)
    ensures |r| == |s|
    ensures forall i :: 0 <= i < |s| ==> r[i] == UpperChar(s[i])
  {
    seq(|s|, i requires 0 <= i < |s| => UpperChar(s[i]))
  }

  /** `p` occurs in `s` starting at index `i`. */
  predicate OccursAt(s: string, p: string, i: int) {
    0 <= i && i + |p| <= |s| && s[i..i + |p|] == p
  }

  /** `i` is the index of the leftmost occurrence of `p` in `s`. */
  predicate FirstOccurrence(s: string, p: string, i: int) {
    OccursAt(s, p, i) && forall j :: 0 <= j < i ==> !OccursAt(s, p, j)
  }

  function IndexFrom(s: string, p: string, from: nat): (r: Option<nat>)
    requires from <= |s|
    ensures r.Some? ==> from <= r.value && OccursAt(s, p, r.value)
    ensures r.Some? ==> forall j :: from <= j < r.value ==> !OccursAt(s, p, j)
    ensures r.None? ==> forall j :: from <= j ==> !OccursAt(s, p, j)
    decreases |s| - from
  {
    if from + |p| > |s| then None
    else if s[from..from + |p|] == p then Some(from)
    else IndexFrom(s, p, from + 1)
  }

  /** `s.indexOf(p)`, with `None` for -1. */
  function IndexOf(s: string, p: string): (r: Option<nat>)
    ensures r.Some? ==> FirstOccurrence(s, p, r.value)
    ensures r.None? ==> forall j :: !OccursAt(s, p, j)
  {
    IndexFrom(s, p, 0)
  }

  /** `s.includes(p)`. */
  function Contains(s: string, p: string): (b: bool)
    ensures b <==> exists j :: OccursAt(s, p, j)
  {
    IndexOf(s, p).Some?
  }

  /** `s.replace(p, rep)` with a string pattern: only the leftmost occurrence of `p`
      is replaced; without an occurrence `s` comes back unchanged. The replacement
      is inserted literally: JavaScript's `$&`, `$$`, `` $` `` and `$'` patterns are
      not expanded, and none of the callers' replacements contains a `$`. */
  function ReplaceFirst(s: string, p: string, rep: string): (r: string)
    ensures !Contains(s, p) ==> r == s
    ensures forall i :: FirstOccurrence(s, p, i) ==> r == s[..i] + rep + s[i + |p|..]
  {
    match IndexOf(s, p)
    case None => s
    case Some(i) => s[..i] + rep + s[i + |p|..]
  }

  /** A replacement changes the length by the difference in length between the
      replacement and the pattern when the pattern occurs, and not at all otherwise. */
  lemma ReplaceFirstLength(s: string, p: string, rep: string)
    ensures Contains(s, p) ==> |ReplaceFirst(s, p, rep)| == |s| - |p| + |rep|
    ensures !Contains(s, p) ==> |ReplaceFirst(s, p, rep)| == |s|
  {
    if Contains(s, p) {
      var i := IndexOf(s, p).value;
      assert FirstOccurrence(s, p, i);
    }
  }

  /** Only the first match is replaced: a later, non-overlapping occurrence of the
      pattern is still there afterwards, shifted by the change in length. */
  lemma ReplaceFirstKeepsLaterOccurrence(s: string, p: string, rep: string, i: nat, j: nat)
    requires FirstOccurrence(s, p, i) && OccursAt(s, p, j) && i + |p| <= j
    ensures OccursAt(ReplaceFirst(s, p, rep), p, j - |p| + |rep|)
  {
    ShiftedOccurrence(s, p, rep, i, j);
    ReplaceAtFirst(s, p, rep, i);
  }

  lemma ReplaceAtFirst(s: string, p: string, rep: string, i: nat)
    requires FirstOccurrence(s, p, i)
    ensures ReplaceFirst(s, p, rep) == s[..i] + rep + s[i + |p|..]
  {
  }

  lemma ShiftedOccurrence(s: string, p: string, rep: string, i: nat, j: nat)
    requires i + |p| <= j && OccursAt(s, p, j)
    ensures OccursAt(s[..i] + rep + s[i + |p|..], p, j - |p| + |rep|)
  {
    ShiftedSlice(s, rep, i, |p|, j);
  }

  /** After `s[i..i + n]` is swapped for `rep`, the span `s[j..j + n]` lying past it
      has moved by `|rep| - n`. */
  lemma ShiftedSlice(s: string, rep: string, i: nat, n: nat, j: nat)
    requires i + n <= j && j + n <= |s|
    ensures var r := s[..i] + rep + s[i + n..];
      j - n + |rep| + n <= |r| && r[j - n + |rep|..j + |rep|] == s[j..j + n]
  {
    var a := s[..i] + rep;
    var b := s[i + n..];
    assert |a| == i + |rep|;
    SliceRight(a, b, j - n + |rep|, j + |rep|);
    SliceOfSuffix(s, i + n, j - i - n, j - i);
  }

  /** A slice lying wholly in the right operand of a concatenation. */
  lemma SliceRight(a: string, b: string, lo: nat, hi: nat)
    requires |a| <= lo <= hi <= |a| + |b|
    ensures (a + b)[lo..hi] == b[lo - |a|..hi - |a|]
  {
  }

  /** A slice of a suffix is a slice of the whole. */
  lemma SliceOfSuffix(s: string, m: nat, lo: nat, hi: nat)
    requires m <= |s| && lo <= hi <= |s| - m
    ensures s[m..][lo..hi] == s[m + lo..m + hi]
  {
  }

  /** A replacement by a string of the same length changes nothing outside the
      replaced span. */
  lemma ReplaceFirstSameLength(s: string, p: string, rep: string, i: nat)
    requires |rep| == |p| && FirstOccurrence(s, p, i)
    ensures |ReplaceFirst(s, p, rep)| == |s|
    ensures forall k :: 0 <= k < |s| && !(i <= k < i + |p|) ==> ReplaceFirst(s, p, rep)[k] == s[k]
  {
    ReplaceAtFirst(s, p, rep, i);
    SpliceSameLength(s, rep, i, |p|);
  }

  /** Swapping `s[i..i + n]` for a string of the same length leaves every other
      position alone. */
  lemma SpliceSameLength(s: string, rep: string, i: nat, n: nat)
    requires i + n <= |s| && |rep| == n
    ensures |s[..i] + rep + s[i + n..]| == |s|
    ensures forall k :: 0 <= k < |s| && !(i <= k < i + n) ==> (s[..i] + rep + s[i + n..])[k] == s[k]
  {
  }

  /** If `s` is `pre + txt` and no occurrence of `p` starts inside `pre`, then `s`
      contains `p` exactly when `txt` does. */
  lemma ContainsPastPrefix(pre: string, txt: string, p: string)
    requires forall i :: 0 <= i < |pre| ==> !OccursAt(pre + txt, p, i)
    ensures Contains(pre + txt, p) <==> Contains(txt, p)
  {
    var s := pre + txt;
    if Contains(txt, p) {
      var j :| OccursAt(txt, p, j);
      assert s[|pre| + j..|pre| + j + |p|] == txt[j..j + |p|];
      assert OccursAt(s, p, |pre| + j);
    }
    if Contains(s, p) {
      var j :| OccursAt(s, p, j);
      assert j >= |pre|;
      assert txt[j - |pre|..j - |pre| + |p|] == s[j..j + |p|];
      assert OccursAt(txt, p, j - |pre|);
    }
  }
}

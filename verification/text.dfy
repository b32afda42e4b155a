/**
 The JavaScript string primitives the post-processors are built from:
 `search` with a literal, `slice` with possibly negative indices,
 `replace` with a string pattern, `split(' ')` / `join(' ')`, and the
 two character classes the regular expressions use (`\s` and the line
 terminators that `.` refuses).
 */
module Text {
  import opened Wrappers

  /** ECMAScript LineTerminator: exactly the characters `.` does not match. */
  predicate IsLineTerminator(c: char) {
    c == '\n' || c == '\r' || c == '\U{2028}' || c == '\U{2029}'
  }

  /** ECMAScript `\s`: WhiteSpace plus LineTerminator. */
  predicate IsSpace(c: char) {
    || c == '\t' || c == '\U{000B}' || c == '\U{000C}' || c == ' '
    || c == '\U{00A0}' || c == '\U{FEFF}' || c == '\U{1680}'
    || ('\U{2000}' <= c <= '\U{200A}')
    || c == '\U{202F}' || c == '\U{205F}' || c == '\U{3000}'
    || IsLineTerminator(c)
  }

  predicate NoLineTerminator(s: string) {
    forall k :: 0 <= k < |s| ==> !IsLineTerminator(s[k])
  }

  /** `pat` occurs in `s` starting at index `i`. */
  predicate OccursAt(s: string, pat: string, i: nat) {
    i + |pat| <= |s| && s[i..i + |pat|] == pat
  }

  /** `t` ends with `suffix`. */
  predicate EndsWith(t: string, suffix: string) {
    |suffix| <= |t| && t[|t| - |suffix|..] == suffix
  }

  /** No occurrence of a pattern free of line terminators spans a line terminator. */
  lemma NoOccurrenceAcrossBreak(s: string, pat: string, j: nat, b: nat)
    requires NoLineTerminator(pat)
    requires j <= b < j + |pat| && b < |s| && IsLineTerminator(s[b])
    ensures !OccursAt(s, pat, j)
  {
    if OccursAt(s, pat, j) {
      SliceIndex(s, j, j + |pat|, b - j);
      assert false;
    }
  }

  /** Indexing into a slice. */
  lemma SliceIndex(s: string, i: int, j: int, k: int)
    ensures 0 <= i <= j <= |s| && 0 <= k < j - i ==> s[i..j][k] == s[i + k]
  {
  }

  /** An occurrence in a suffix is an occurrence in the whole text, shifted. */
  lemma OccursAtShift(s: string, pat: string, j: nat, m: nat)
    requires j <= |s|
    ensures OccursAt(s[j..], pat, m) <==> OccursAt(s, pat, j + m)
  {
    if j + m + |pat| <= |s| {
      assert s[j..][m..m + |pat|] == s[j + m..j + m + |pat|];
    }
  }

  ghost predicate Contains(s: string, pat: string) {
    exists i: nat :: OccursAt(s, pat, i)
  }

  /** `i` is the first occurrence of `pat` in `s`. */
  ghost predicate IsFirst(s: string, pat: string, i: nat) {
    OccursAt(s, pat, i) && forall j: nat :: j < i ==> !OccursAt(s, pat, j)
  }

  /** The first occurrence of `pat` at or after `from`, scanning left to right. */
  function IndexOfFrom(s: string, pat: string, from: nat): (r: Option<nat>)
    ensures r.Some? ==> from <= r.value && OccursAt(s, pat, r.value)
    ensures r.Some? ==> forall j: nat :: from <= j < r.value ==> !OccursAt(s, pat, j)
    ensures r.None? ==> forall j: nat :: from <= j ==> !OccursAt(s, pat, j)
    decreases |s| - from
  {
    if from + |pat| > |s| then None
    else if s[from..from + |pat|] == pat then Some(from)
    else IndexOfFrom(s, pat, from + 1)
  }

  function IndexOf(s: string, pat: string): (r: Option<nat>)
    ensures r.Some? <==> Contains(s, pat)
    ensures r.Some? ==> IsFirst(s, pat, r.value)
  {
    IndexOfFrom(s, pat, 0)
  }

  /** `String.prototype.search` with a pattern free of regular-expression metacharacters. */
  function Search(s: string, pat: string): (r: int)
    ensures -1 <= r < |s| + 1
    ensures r == -1 <==> !Contains(s, pat)
    ensures r >= 0 ==> IsFirst(s, pat, r)
  {
    match IndexOf(s, pat)
    case Some(i) => i
    case None => -1
  }

  /** How `slice` resolves one index: negatives count back from the end, then clamp to `[0, len]`. */
  function ResolveIndex(len: nat, x: int): (r: nat)
    ensures r <= len
    ensures 0 <= x <= len ==> r == x
    ensures x < 0 ==> r == if len + x < 0 then 0 else len + x
    ensures x > len ==> r == len
  {
    if x < 0 then (if len + x < 0 then 0 else len + x)
    else if x > len then len
    else x
  }

  /** `s.slice(start, end)`. */
  function Slice(s: string, start: int, end: int): (r: string)
    ensures 0 <= start <= end <= |s| ==> r == s[start..end]
    ensures -|s| <= start < 0 && 0 <= end <= |s| && |s| + start <= end ==> r == s[|s| + start..end]
    ensures 0 <= start <= |s| && -|s| <= end < 0 && start <= |s| + end ==> r == s[start..|s| + end]
    ensures -|s| <= start <= end < 0 ==> r == s[|s| + start..|s| + end]
    ensures start < -|s| && 0 <= end <= |s| ==> r == s[..end]
    ensures 0 <= start <= |s| < end ==> r == s[start..]
    ensures 0 <= end <= start ==> r == []
    ensures start <= -|s| && |s| <= end ==> r == s
    ensures ResolveIndex(|s|, end) <= ResolveIndex(|s|, start) ==> r == []
    ensures ResolveIndex(|s|, start) < ResolveIndex(|s|, end) ==>
      r == s[ResolveIndex(|s|, start)..ResolveIndex(|s|, end)]
    ensures |r| <= |s|
  {
    var a := ResolveIndex(|s|, start);
    var b := ResolveIndex(|s|, end);
    if a < b then s[a..b] else []
  }

  /** `s.slice(start)`. */
  function SliceFrom(s: string, start: int): (r: string)
    ensures 0 <= start <= |s| ==> r == s[start..]
    ensures -|s| <= start < 0 ==> r == s[|s| + start..]
    ensures start < -|s| ==> r == s
    ensures start > |s| ==> r == []
  {
    Slice(s, start, |s|)
  }

  /**
   `s.replace(pat, rep)` with a string pattern: only the first occurrence is
   replaced (the replacement strings used here contain no `$` patterns).
   */
  function ReplaceFirst(s: string, pat: string, rep: string): (r: string)
    ensures !Contains(s, pat) ==> r == s
    ensures forall i: nat {:trigger IsFirst(s, pat, i)} :: IsFirst(s, pat, i) ==>
      r == s[..i] + rep + s[i + |pat|..]
    ensures Contains(s, pat) ==> |r| == |s| - |pat| + |rep|
  {
    match IndexOf(s, pat)
    case None => s
    case Some(i) =>
      FirstIsUnique(s, pat, i);
      s[..i] + rep + s[i + |pat|..]
  }

  lemma FirstIsUnique(s: string, pat: string, i: nat)
    requires IsFirst(s, pat, i)
    ensures forall j: nat {:trigger IsFirst(s, pat, j)} :: IsFirst(s, pat, j) ==> j == i
  {
  }

  /** `pieces.join('')`. */
  function Concat(pieces: seq<string>): (r: string)
    ensures |pieces| == 0 ==> r == []
  {
    if |pieces| == 0 then [] else pieces[0] + Concat(pieces[1..])
  }

  /** `s.split(sep)` for a one-character separator: always at least one token. */
  function Split(s: string, sep: char): (r: seq<string>)
    ensures |r| >= 1
    ensures forall k :: 0 <= k < |r| ==> sep !in r[k]
  {
    if |s| == 0 then [[]]
    else
      var rest := Split(s[1..], sep);
      if s[0] == sep then [[]] + rest
      else [[s[0]] + rest[0]] + rest[1..]
  }

  /** `tokens.join(sep)`. */
  function Join(tokens: seq<string>, sep: char): string
  {
    if |tokens| == 0 then []
    else if |tokens| == 1 then tokens[0]
    else tokens[0] + [sep] + Join(tokens[1..], sep)
  }

  /** Joining what was split gives back the original text. */
  lemma {:induction false} JoinSplit(s: string, sep: char)
    ensures Join(Split(s, sep), sep) == s
    decreases |s|
  {
    hide Split, Join;
    SplitUnfold(s, sep);
    if |s| == 0 {
      JoinUnfold([[]], sep);
    } else {
      var rest := Split(s[1..], sep);
      JoinSplit(s[1..], sep);
      JoinUnfold(rest, sep);
      assert [s[0]] + s[1..] == s;
      if s[0] == sep {
        var ts := [[]] + rest;
        JoinUnfold(ts, sep);
        assert ts[1..] == rest;
      } else {
        var ts := [[s[0]] + rest[0]] + rest[1..];
        JoinUnfold(ts, sep);
        assert ts[1..] == rest[1..];
      }
    }
  }

  /** One step of the split: the first character either ends a token or joins the first one. */
  lemma SplitUnfold(s: string, sep: char)
    ensures |s| == 0 ==> Split(s, sep) == [[]]
    ensures |s| > 0 && s[0] == sep ==> Split(s, sep) == [[]] + Split(s[1..], sep)
    ensures |s| > 0 && s[0] != sep ==>
      Split(s, sep) == [[s[0]] + Split(s[1..], sep)[0]] + Split(s[1..], sep)[1..]
  {
  }

  /** Splitting what was joined gives back the tokens, provided none holds the separator. */
  lemma {:induction false} SplitJoin(tokens: seq<string>, sep: char)
    requires |tokens| >= 1
    requires forall k :: 0 <= k < |tokens| ==> sep !in tokens[k]
    ensures Split(Join(tokens, sep), sep) == tokens
    decreases |tokens|, |tokens[0]|
  {
    var t := tokens[0];
    if |t| == 0 {
      if |tokens| > 1 {
        SplitJoin(tokens[1..], sep);
        assert Join(tokens, sep) == [sep] + Join(tokens[1..], sep);
        assert ([sep] + Join(tokens[1..], sep))[1..] == Join(tokens[1..], sep);
        assert [[]] + tokens[1..] == tokens;
      }
    } else {
      var shorter := [t[1..]] + tokens[1..];
      assert shorter[1..] == tokens[1..];
      SplitJoin(shorter, sep);
      var j := Join(tokens, sep);
      if |tokens| == 1 {
        assert j == t;
        assert j[1..] == Join(shorter, sep);
      } else {
        assert j == t + [sep] + Join(tokens[1..], sep);
        assert j[1..] == t[1..] + [sep] + Join(tokens[1..], sep);
        assert j[1..] == Join(shorter, sep);
      }
      assert j[0] == t[0];
      assert t[0] != sep;
      assert [t[0]] + t[1..] == t;
      assert [[t[0]] + t[1..]] + tokens[1..] == tokens;
    }
  }

  /** Joining one token, and joining a token in front of at least one more. */
  lemma JoinUnfold(tokens: seq<string>, sep: char)
    ensures |tokens| == 1 ==> Join(tokens, sep) == tokens[0]
    ensures |tokens| >= 2 ==> Join(tokens, sep) == tokens[0] + [sep] + Join(tokens[1..], sep)
  {
  }

  /** Joining splices a token between its neighbours' joins. */
  lemma {:induction false} JoinAround(tokens: seq<string>, sep: char, k: nat)
    requires k < |tokens|
    ensures Join(tokens, sep) == JoinBefore(tokens, sep, k) + tokens[k] + JoinAfter(tokens, sep, k)
    decreases k
  {
    hide Join;
    var rest := tokens[1..];
    JoinUnfold(tokens, sep);
    if k == 0 {
      if |tokens| >= 2 {
        assert JoinAfter(tokens, sep, 0) == [sep] + Join(rest, sep);
      }
    } else {
      JoinAround(rest, sep, k - 1);
      assert rest[k - 1] == tokens[k];
      assert rest[k..] == tokens[k + 1..];
      var jb := JoinBefore(rest, sep, k - 1);
      var ja := JoinAfter(tokens, sep, k);
      assert JoinAfter(rest, sep, k - 1) == ja;
      assert Join(rest, sep) == jb + tokens[k] + ja;
      JoinBeforeStep(tokens, sep, k);
      calc {
        Join(tokens, sep);
        tokens[0] + [sep] + Join(rest, sep);
        tokens[0] + [sep] + (jb + tokens[k] + ja);
        (tokens[0] + [sep] + jb) + tokens[k] + ja;
      }
    }
  }

  /** What comes before token `k` is the first token, a separator, and what comes before it among the rest. */
  lemma JoinBeforeStep(tokens: seq<string>, sep: char, k: nat)
    requires 0 < k < |tokens|
    ensures JoinBefore(tokens, sep, k) == tokens[0] + [sep] + JoinBefore(tokens[1..], sep, k - 1)
  {
    hide Join;
    var before := tokens[..k];
    JoinUnfold(before, sep);
    if k > 1 {
      assert before[1..] == tokens[1..][..k - 1];
    }
  }

  /** Deleting `n` characters inside token `k` deletes the same characters of the joined text. */
  lemma JoinDropInside(tokens: seq<string>, sep: char, k: nat, q: nat, n: nat)
    requires k < |tokens| && q + n <= |tokens[k]|
    ensures var s := Join(tokens, sep);
            var p := |JoinBefore(tokens, sep, k)| + q;
            && p + n <= |s|
            && s[p..p + n] == tokens[k][q..q + n]
            && Join(tokens[k := tokens[k][..q] + tokens[k][q + n..]], sep) == s[..p] + s[p + n..]
  {
    hide Join;
    var t := tokens[k];
    var ts := tokens[k := t[..q] + t[q + n..]];
    JoinAround(tokens, sep, k);
    JoinAround(ts, sep, k);
    assert ts[..k] == tokens[..k];
    assert ts[k + 1..] == tokens[k + 1..];
    assert JoinBefore(ts, sep, k) == JoinBefore(tokens, sep, k);
    assert JoinAfter(ts, sep, k) == JoinAfter(tokens, sep, k);
    SpliceMiddle(JoinBefore(tokens, sep, k), t, JoinAfter(tokens, sep, k), q, n);
  }

  /** Deleting inside the middle piece of a three-piece text. */
  lemma SpliceMiddle(pre: string, t: string, post: string, q: nat, n: nat)
    requires q + n <= |t|
    ensures var s := pre + t + post;
            var p := |pre| + q;
            && p + n <= |s|
            && s[p..p + n] == t[q..q + n]
            && pre + (t[..q] + t[q + n..]) + post == s[..p] + s[p + n..]
  {
    var s := pre + t + post;
    var p := |pre| + q;
    assert s[..p] == pre + t[..q];
    assert s[p + n..] == t[q + n..] + post;
  }

  /** The text joined before token `k`, separator included. */
  function JoinBefore(tokens: seq<string>, sep: char, k: nat): string
    requires k < |tokens|
  {
    if k == 0 then [] else Join(tokens[..k], sep) + [sep]
  }

  /** The text joined after token `k`, separator included. */
  function JoinAfter(tokens: seq<string>, sep: char, k: nat): string
    requires k < |tokens|
  {
    if k == |tokens| - 1 then [] else [sep] + Join(tokens[k + 1..], sep)
  }

  /** `a` is a subsequence of `b`: `b` with some characters deleted. */
  predicate IsSubseq(a: string, b: string)
    decreases |b|
  {
    |a| == 0 || (|b| > 0 && ((a[0] == b[0] && IsSubseq(a[1..], b[1..])) || IsSubseq(a, b[1..])))
  }

  /** Deleting a block in front keeps a subsequence a subsequence. */
  lemma {:induction false} SubseqSkip(a: string, x: string, b: string)
    requires IsSubseq(a, b)
    ensures IsSubseq(a, x + b)
    decreases |x|
  {
    if |x| > 0 && |a| > 0 {
      SubseqSkip(a, x[1..], b);
      var xb := x + b;
      assert xb[1..] == x[1..] + b;
      assert IsSubseq(a, xb[1..]);
      assert |xb| > 0;
    } else if |x| == 0 {
      assert x + b == b;
    }
  }

  /** Keeping a block in front keeps a subsequence a subsequence. */
  lemma {:induction false} SubseqKeep(x: string, a: string, b: string)
    requires IsSubseq(a, b)
    ensures IsSubseq(x + a, x + b)
    decreases |x|
  {
    if |x| > 0 {
      SubseqKeep(x[1..], a, b);
      var xa, xb := x + a, x + b;
      assert xa[1..] == x[1..] + a;
      assert xb[1..] == x[1..] + b;
      assert xa[0] == xb[0];
      assert IsSubseq(xa[1..], xb[1..]);
    } else {
      assert x + a == a && x + b == b;
    }
  }
}

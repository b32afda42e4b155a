/**
 The earlier post-processor, `scripts/clean_out_from_scripts_tags.tsx`: the
 global replace of `/<script.+<\/script>/g` by the empty string.

 `.` refuses line terminators, so a match never leaves its line. `.+` is
 greedy, so from a `<script` the match runs to the LAST `</script>` of the
 line that begins at least eight characters after it (`.+` needs one
 character after the seven of `<script`). Matching is case-sensitive.
 */
module GreedyScript {
  import opened Wrappers
  import opened Text

  const Open: string := "<script"
  const Close: string := "</script>"

  /** The first line terminator at or after `i`, or the end of the text. */
  function LineEnd(s: string, i: nat): (r: nat)
    requires i <= |s|
    ensures i <= r <= |s|
    ensures NoLineTerminator(s[i..r])
    ensures r < |s| ==> IsLineTerminator(s[r])
    decreases |s| - i
  {
    if i < |s| && !IsLineTerminator(s[i]) then
      var r := LineEnd(s, i + 1);
      assert s[i..r] == [s[i]] + s[i + 1..r];
      r
    else i
  }

  /** The last `</script>` starting in `[lo, hi)`, searching down from `hi - 1` as the greedy backtracking does. */
  function LastCloseBelow(s: string, lo: nat, hi: nat): (r: Option<nat>)
    ensures r.Some? ==> lo <= r.value < hi && OccursAt(s, Close, r.value)
    ensures r.Some? ==> forall j :: r.value < j < hi ==> !OccursAt(s, Close, j)
    ensures r.None? ==> forall j :: lo <= j < hi ==> !OccursAt(s, Close, j)
    decreases hi
  {
    if hi <= lo then None
    else if OccursAt(s, Close, hi - 1) then Some(hi - 1)
    else LastCloseBelow(s, lo, hi - 1)
  }

  /** The end of the match starting at `s[0]`, if there is one. */
  function GreedyMatchAt(s: string): (r: Option<nat>)
    ensures r.Some? ==> OccursAt(s, Open, 0)
    ensures r.Some? ==> 17 <= r.value <= |s| && OccursAt(s, Close, r.value - 9)
    ensures r.Some? ==> NoLineTerminator(s[..r.value])
  {
    if OccursAt(s, Open, 0) then
      var l := LineEnd(s, 7);
      match LastCloseBelow(s, 8, l)
      case None => None
      case Some(k) =>
        CloseInsideLine(s, 7, l, k);
        assert s[..k + 9] == s[..7] + s[7..k + 9];
        assert NoLineTerminator(Open);
        Some(k + 9)
    else None
  }

  /** A `</script>` that starts before the end of a line also ends before it. */
  lemma CloseInsideLine(s: string, i: nat, l: nat, k: nat)
    requires i <= k < l <= |s|
    requires NoLineTerminator(s[i..l]) && (l < |s| ==> IsLineTerminator(s[l]))
    requires OccursAt(s, Close, k)
    ensures k + 9 <= l
    ensures NoLineTerminator(s[i..k + 9])
  {
    assert NoLineTerminator(Close);
    assert s[i..k + 9] == s[i..l][..k + 9 - i];
  }

  /** The global replace, as a scan over suffixes. */
  function Strip(s: string): (r: string)
    ensures IsSubseq(r, s)
    decreases |s|
  {
    if |s| == 0 then []
    else
      match GreedyMatchAt(s)
      case Some(e) =>
        var t := Strip(s[e..]);
        SubseqSkip(t, s[..e], s[e..]);
        assert s[..e] + s[e..] == s;
        t
      case None =>
        var t := Strip(s[1..]);
        SubseqKeep([s[0]], t, s[1..]);
        assert [s[0]] + s[1..] == s;
        [s[0]] + t
  }

  lemma StripEmpty(s: string)
    requires |s| == 0
    ensures Strip(s) == []
  {
  }

  /** One step of the scan where no match starts. */
  lemma StripKeep(t: string)
    requires 0 < |t| && GreedyMatchAt(t).None?
    ensures Strip(t) == [t[0]] + Strip(t[1..])
  {
  }

  /** One step of the scan where a match starts. */
  lemma StripCut(t: string, e: nat)
    requires GreedyMatchAt(t) == Some(e)
    ensures Strip(t) == Strip(t[e..])
  {
  }

  /** The first step of the scan: one character kept, or a whole single-line match dropped. */
  lemma StripStep(s: string) returns (e: nat, kept: bool)
    requires 0 < |s|
    ensures 0 < e <= |s|
    ensures kept ==> e == 1 && Strip(s) == [s[0]] + Strip(s[1..])
    ensures !kept ==> Strip(s) == Strip(s[e..]) && NoLineTerminator(s[..e])
  {
    match GreedyMatchAt(s)
    case Some(m) =>
      e, kept := m, false;
    case None =>
      e, kept := 1, true;
  }

  /** The line terminators of a text, in order. */
  function Terminators(s: string): (r: string)
  {
    if |s| == 0 then []
    else if IsLineTerminator(s[0]) then [s[0]] + Terminators(s[1..])
    else Terminators(s[1..])
  }

  lemma {:induction false} TerminatorsAppend(a: string, b: string)
    ensures Terminators(a + b) == Terminators(a) + Terminators(b)
    decreases |a|
  {
    if |a| > 0 {
      TerminatorsAppend(a[1..], b);
      assert (a + b)[1..] == a[1..] + b;
    } else {
      assert a + b == b;
    }
  }

  lemma {:induction false} TerminatorsNone(a: string)
    requires NoLineTerminator(a)
    ensures Terminators(a) == []
    decreases |a|
  {
    if |a| > 0 {
      TerminatorsNone(a[1..]);
    }
  }

  /** Removal never deletes a line terminator: the output has the same line breaks, so the same number of lines. */
  lemma {:induction false} StripKeepsLineBreaks(s: string)
    ensures Terminators(Strip(s)) == Terminators(s)
    decreases |s|
  {
    if |s| > 0 {
      var e, kept := StripStep(s);
      StripKeepsLineBreaks(s[e..]);
      if kept {
        TerminatorsAppend([s[0]], Strip(s[1..]));
        TerminatorsAppend([s[0]], s[1..]);
        assert [s[0]] + s[1..] == s;
      } else {
        TerminatorsNone(s[..e]);
        TerminatorsAppend(s[..e], s[e..]);
        assert s[..e] + s[e..] == s;
      }
    }
  }

  /** A text without `</script>` holds no match, so the replace leaves it unchanged. */
  lemma {:induction false} NoCloseNoMatch(s: string)
    requires NoClose(s)
    ensures Strip(s) == s
    decreases |s|
  {
    if |s| > 0 {
      forall j: nat
        ensures !OccursAt(s[1..], Close, j)
      {
        assert !OccursAt(s, Close, j + 1);
      }
      NoCloseNoMatch(s[1..]);
      assert [s[0]] + s[1..] == s;
    }
  }

  /** A text with no `<script` at all (in particular one with only `<SCRIPT`) comes out unchanged. */
  lemma {:induction false} NoOpenUnchanged(s: string)
    requires forall j: nat :: !OccursAt(s, Open, j)
    ensures Strip(s) == s
    decreases |s|
  {
    if |s| > 0 {
      assert !OccursAt(s, Open, 0);
      forall j: nat
        ensures !OccursAt(s[1..], Open, j)
      {
        assert !OccursAt(s, Open, j + 1);
      }
      NoOpenUnchanged(s[1..]);
      assert [s[0]] + s[1..] == s;
    }
  }

  /** `LineEnd` is the first line terminator: any position with that property is it. */
  lemma LineEndUnique(s: string, i: nat, r: nat)
    requires i <= r <= |s|
    requires NoLineTerminator(s[i..r]) && (r < |s| ==> IsLineTerminator(s[r]))
    ensures LineEnd(s, i) == r
  {
  }

  /** `LastCloseBelow` only depends on where `</script>` occurs in the range. */
  lemma {:induction false} LastCloseBelowAgree(s: string, t: string, lo: nat, hi: nat)
    requires forall j :: lo <= j < hi ==> (OccursAt(s, Close, j) <==> OccursAt(t, Close, j))
    ensures LastCloseBelow(s, lo, hi) == LastCloseBelow(t, lo, hi)
    decreases hi
  {
    if hi > lo {
      LastCloseBelowAgree(s, t, lo, hi - 1);
    }
  }

  /** Whether a match starts at `s[0]` is decided on the first line alone. */
  lemma MatchStaysOnLine(a: string, c: char, rest: string)
    requires NoLineTerminator(a) && IsLineTerminator(c)
    ensures GreedyMatchAt(a + [c] + rest) == GreedyMatchAt(a)
  {
    var s := a + [c] + rest;
    assert NoLineTerminator(Open) && NoLineTerminator(Close);
    if |a| < 7 {
      if |s| >= 7 {
        NoOccurrenceAcrossBreak(s, Open, 0, |a|);
      }
    } else {
      assert s[..7] == a[..7];
      assert s[7..|a|] == a[7..];
      assert s[|a|] == c;
      LineEndUnique(s, 7, |a|);
      LineEndUnique(a, 7, |a|);
      forall j | 8 <= j < |a|
        ensures OccursAt(s, Close, j) <==> OccursAt(a, Close, j)
      {
        if j + 9 <= |a| {
          assert s[j..j + 9] == a[j..j + 9];
        } else if j + 9 <= |s| {
          NoOccurrenceAcrossBreak(s, Close, j, |a|);
        }
      }
      LastCloseBelowAgree(s, a, 8, |a|);
    }
  }

  /** The replace works line by line: a line break splits the output exactly where it split the input. */
  lemma {:induction false} StripLineByLine(a: string, c: char, rest: string)
    requires NoLineTerminator(a) && IsLineTerminator(c)
    ensures Strip(a + [c] + rest) == Strip(a) + [c] + Strip(rest)
    decreases |a|
  {
    hide GreedyMatchAt, Strip;
    var s := a + [c] + rest;
    if |a| == 0 {
      assert s == [c] + rest;
      StripEmpty(a);
      StripAtBreak(c, rest);
    } else {
      var e, kept := StripLineStep(a, c, rest);
      var tail := a[e..];
      SuffixOfLine(a, c, rest, e);
      StripLineByLine(tail, c, rest);
      if kept {
        assert Strip(s) == [a[0]] + (Strip(tail) + [c] + Strip(rest));
      } else {
        assert Strip(s) == Strip(tail) + [c] + Strip(rest);
      }
    }
  }

  lemma StripAtBreak(c: char, rest: string)
    requires IsLineTerminator(c)
    ensures Strip([c] + rest) == [c] + Strip(rest)
  {
    var s := [c] + rest;
    assert s[1..] == rest;
    if |s| >= 7 {
      assert s[..7][0] == s[0];
    }
    assert !OccursAt(s, Open, 0);
    StripKeep(s);
  }

  lemma SuffixOfLine(a: string, c: char, rest: string, e: nat)
    requires NoLineTerminator(a) && e <= |a|
    ensures (a + [c] + rest)[e..] == a[e..] + [c] + rest
    ensures NoLineTerminator(a[e..])
  {
    assert forall j :: 0 <= j < |a| - e ==> a[e..][j] == a[e + j];
  }

  /** The first step of the scan on a line followed by more text is the step on the line alone. */
  lemma StripLineStep(a: string, c: char, rest: string) returns (e: nat, kept: bool)
    requires NoLineTerminator(a) && IsLineTerminator(c) && 0 < |a|
    ensures 0 < e <= |a|
    ensures kept ==> e == 1 && Strip(a) == [a[0]] + Strip(a[1..]) &&
                     Strip(a + [c] + rest) == [a[0]] + Strip((a + [c] + rest)[1..])
    ensures !kept ==> Strip(a) == Strip(a[e..]) && Strip(a + [c] + rest) == Strip((a + [c] + rest)[e..])
  {
    var s := a + [c] + rest;
    MatchStaysOnLine(a, c, rest);
    match GreedyMatchAt(a)
    case Some(m) =>
      StripCut(s, m);
      StripCut(a, m);
      e, kept := m, false;
    case None =>
      StripKeep(s);
      StripKeep(a);
      assert s[0] == a[0];
      e, kept := 1, true;
  }

  /** A `<script` at `i` that has a `</script>` starting eight or more characters later. */
  ghost predicate Opener(line: string, i: nat) {
    OccursAt(line, Open, i) && exists k: nat :: i + 8 <= k && OccursAt(line, Close, k)
  }

  ghost predicate IsFirstOpener(line: string, i: nat) {
    Opener(line, i) && forall j: nat :: j < i ==> !Opener(line, j)
  }

  ghost predicate IsLastClose(line: string, k: nat) {
    OccursAt(line, Close, k) && forall j: nat :: k < j ==> !OccursAt(line, Close, j)
  }

  /** No `</script>` anywhere in `t`. */
  ghost predicate NoClose(t: string) {
    forall m: nat :: !OccursAt(t, Close, m)
  }

  /** On a single line, a match starts at `j` exactly at an opener, and runs to the end of the last `</script>`. */
  lemma MatchOnLine(line: string, j: nat)
    requires NoLineTerminator(line) && j <= |line|
    ensures GreedyMatchAt(line[j..]).Some? <==> Opener(line, j)
    ensures forall k: nat {:trigger IsLastClose(line, k)} :: GreedyMatchAt(line[j..]).Some? && IsLastClose(line, k) ==>
      GreedyMatchAt(line[j..]).value == k + 9 - j
  {
    var t := line[j..];
    OccursAtShift(line, Open, j, 0);
    assert NoLineTerminator(t) by {
      assert forall m :: 0 <= m < |t| ==> t[m] == line[j + m];
    }
    if OccursAt(t, Open, 0) {
      assert t[7..] == t[7..|t|];
      LineEndUnique(t, 7, |t|);
      assert LineEnd(t, 7) == |t|;
      var last := LastCloseBelow(t, 8, |t|);
      if last.Some? {
        OccursAtShift(line, Close, j, last.value);
        assert Opener(line, j);
        forall k: nat | IsLastClose(line, k)
          ensures k == last.value + j
        {
          OccursAtShift(line, Close, j, k - j);
        }
      }
      if Opener(line, j) {
        var k: nat :| j + 8 <= k && OccursAt(line, Close, k);
        OccursAtShift(line, Close, j, k - j);
        assert last.Some?;
      }
    }
  }

  /** Positions before `i` that start no match are kept as they are. */
  lemma {:induction false} StripKeepsPrefix(s: string, j: nat, i: nat)
    requires j <= i <= |s|
    requires forall m :: j <= m < i ==> GreedyMatchAt(s[m..]).None?
    ensures Strip(s[j..]) == s[j..i] + Strip(s[i..])
    decreases i - j
  {
    hide GreedyMatchAt, Strip;
    if j < i {
      StripKeep(s[j..]);
      assert s[j..][1..] == s[j + 1..];
      StripKeepsPrefix(s, j + 1, i);
      assert s[j..i] == [s[j]] + s[j + 1..i];
    }
  }

  /** After the last `</script>` of a line nothing closes a script any more. */
  lemma NothingAfterLastClose(line: string, k: nat)
    requires IsLastClose(line, k)
    ensures k + 9 <= |line|
    ensures NoClose(line[k + 9..])
  {
    var rest := line[k + 9..];
    forall m: nat
      ensures !OccursAt(rest, Close, m)
    {
      OccursAtShift(line, Close, k + 9, m);
    }
  }

  /** A line with no opener comes out unchanged. */
  lemma StripLineWithoutOpener(line: string)
    requires NoLineTerminator(line)
    requires forall i: nat :: !Opener(line, i)
    ensures Strip(line) == line
  {
    forall m | 0 <= m <= |line|
      ensures GreedyMatchAt(line[m..]).None?
    {
      MatchOnLine(line, m);
    }
    StripKeepsPrefix(line, 0, |line|);
    assert line[0..] == line;
    assert line[|line|..] == [];
  }

  /** A line with an opener loses exactly the span from its first opener to the end of its last `</script>`. */
  lemma StripLineCut(line: string, i: nat, k: nat)
    requires NoLineTerminator(line)
    requires IsFirstOpener(line, i) && IsLastClose(line, k)
    ensures i + 8 <= k && k + 9 <= |line|
    ensures Strip(line) == line[..i] + line[k + 9..]
    ensures NoClose(line[k + 9..])
  {
    var k0: nat :| i + 8 <= k0 && OccursAt(line, Close, k0);
    assert k0 <= k;
    forall m | 0 <= m < i
      ensures GreedyMatchAt(line[m..]).None?
    {
      MatchOnLine(line, m);
    }
    StripKeepsPrefix(line, 0, i);
    assert line[0..] == line;
    StripFromOpener(line, i, k);
  }

  lemma StripFromOpener(line: string, i: nat, k: nat)
    requires NoLineTerminator(line)
    requires Opener(line, i) && IsLastClose(line, k)
    ensures i + 8 <= k && k + 9 <= |line|
    ensures Strip(line[i..]) == line[k + 9..]
    ensures NoClose(line[k + 9..])
  {
    var k0: nat :| i + 8 <= k0 && OccursAt(line, Close, k0);
    assert k0 <= k;
    hide GreedyMatchAt, Strip;
    MatchOnLine(line, i);
    var t := line[i..];
    assert GreedyMatchAt(t) == Some(k + 9 - i);
    StripCut(t, k + 9 - i);
    assert t[k + 9 - i..] == line[k + 9..];
    NothingAfterLastClose(line, k);
    NoCloseNoMatch(line[k + 9..]);
  }
}

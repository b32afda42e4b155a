/**
 The two global regular expressions of the post-processor,
 `/<\s*NAME[^>]*>(.*?)<\s*\/\s*NAME>/g` with NAME `script` or `style`,
 as a dedicated leftmost, non-overlapping matcher.

 The expression is deterministic up to the lazy body: `\s*` is followed
 by a letter or `/`, neither of which is a space, so it always takes the
 longest run; `[^>]*` is followed by `>`, so it always stops at the first
 `>`. The body `(.*?)` grows one non-line-terminator at a time until the
 closing tag matches. A match found at a position only reads the text
 from that position on, so the global scan is a recursion on suffixes.
 */
module TagPattern {
  import opened Wrappers
  import opened Text

  /** The end of the longest run of `\s` starting at `i`. */
  function SkipSpaces(s: string, i: nat): (r: nat)
    requires i <= |s|
    ensures i <= r <= |s|
    ensures forall k :: i <= k < r ==> IsSpace(s[k])
    ensures r < |s| ==> !IsSpace(s[r])
    decreases |s| - i
  {
    if i < |s| && IsSpace(s[i]) then SkipSpaces(s, i + 1) else i
  }

  /** Every character of `s[i..j]` is `\s`. */
  ghost predicate Spaces(s: string, i: nat, j: nat) {
    i <= j <= |s| && forall k :: i <= k < j ==> IsSpace(s[k])
  }

  /** A run of spaces that ends before a non-space is the run `SkipSpaces` finds. */
  lemma {:induction false} SkipSpacesStops(s: string, i: nat, m: nat)
    requires Spaces(s, i, m)
    requires m < |s| ==> !IsSpace(s[m])
    ensures SkipSpaces(s, i) == m
    decreases m - i
  {
    if i < m {
      SkipSpacesStops(s, i + 1, m);
    }
  }

  /**
   `<\s*\/\s*NAME>` written out: `<` at `k`, spaces, `/` at `a`, spaces,
   then `NAME>` ending at `e`.
   */
  ghost predicate ClosingTag(s: string, name: string, k: nat, a: nat, e: nat) {
    && k < a && a + |name| + 2 <= e <= |s|
    && s[k] == '<' && s[a] == '/'
    && Spaces(s, k + 1, a) && Spaces(s, a + 1, e - |name| - 1)
    && s[e - |name| - 1..e] == name + ">"
  }

  /**
   `<\s*NAME[^>]*>` written out: `<`, spaces, `NAME` at `a`, then no `>`
   until the `>` at `g`.
   */
  ghost predicate OpeningTag(s: string, name: string, a: nat, g: nat) {
    && 0 < a && a + |name| <= g < |s|
    && s[0] == '<' && Spaces(s, 1, a)
    && s[a..a + |name|] == name && s[g] == '>'
    && forall j :: a + |name| <= j < g ==> s[j] != '>'
  }

  /** `<\s*\/\s*NAME>` at `k`: the end of the closing tag if it matches there. */
  function CloseAt(s: string, name: string, k: nat): (r: Option<nat>)
    ensures r.Some? ==> k < r.value <= |s| && s[k] == '<' && EndsWith(s[..r.value], name + ">")
  {
    if k < |s| && s[k] == '<' then
      var a := SkipSpaces(s, k + 1);
      if a < |s| && s[a] == '/' then
        var b := SkipSpaces(s, a + 1);
        if OccursAt(s, name + ">", b) then
          assert s[..b + |name| + 1][b..] == name + ">";
          Some(b + |name| + 1)
        else None
      else None
    else None
  }

  /**
   The lazy body `(.*?)` from `k`: the first position at or after `k` where
   the closing tag matches, provided no line terminator is crossed first.
   */
  function LazyBody(s: string, name: string, k: nat): (r: Option<nat>)
    requires k <= |s|
    ensures r.Some? ==> k < r.value <= |s| && EndsWith(s[..r.value], name + ">")
    decreases |s| - k
  {
    match CloseAt(s, name, k)
    case Some(e) => Some(e)
    case None =>
      if k < |s| && !IsLineTerminator(s[k]) then LazyBody(s, name, k + 1) else None
  }

  /** Where the opening tag `<\s*NAME[^>]*>` ends (just past its `>`), if `s` starts with one. */
  function OpenEnd(s: string, name: string): (r: Option<nat>)
    ensures r.Some? ==> 0 < r.value <= |s| && s[0] == '<' && s[r.value - 1] == '>'
  {
    if 0 < |s| && s[0] == '<' then
      var a := SkipSpaces(s, 1);
      if OccursAt(s, name, a) then
        match IndexOfFrom(s, ">", a + |name|)
        case None => None
        case Some(g) => Some(g + 1)
      else None
    else None
  }

  /** The end of the match that starts at `s[0]`, if the expression matches there. */
  function MatchAt(s: string, name: string): (r: Option<nat>)
    ensures r.Some? ==> 0 < r.value <= |s| && s[0] == '<'
    ensures r.Some? ==> EndsWith(s[..r.value], name + ">")
  {
    match OpenEnd(s, name)
    case None => None
    case Some(g) => LazyBody(s, name, g)
  }

  /** The body of a match is the shortest one: no earlier closing tag, no line terminator. */
  ghost predicate LazyShape(s: string, name: string, g: nat, k: nat, e: nat) {
    && g <= k <= |s|
    && NoLineTerminator(s[g..k])
    && CloseAt(s, name, k) == Some(e)
    && forall j :: g <= j < k ==> CloseAt(s, name, j).None?
  }

  lemma {:induction false} LazyBodyShape(s: string, name: string, g: nat, k: nat)
    requires g <= k <= |s|
    requires NoLineTerminator(s[g..k])
    requires forall j :: g <= j < k ==> CloseAt(s, name, j).None?
    ensures LazyBody(s, name, k).Some? ==>
      exists c: nat :: LazyShape(s, name, g, c, LazyBody(s, name, k).value)
    ensures LazyBody(s, name, k).None? ==>
      forall c: nat, e: nat :: !LazyShape(s, name, g, c, e)
    decreases |s| - k
  {
    match CloseAt(s, name, k)
    case Some(e) =>
      assert LazyShape(s, name, g, k, e);
      forall c: nat, e': nat | LazyShape(s, name, g, c, e')
        ensures c == k
      {
      }
    case None =>
      if k < |s| && !IsLineTerminator(s[k]) {
        assert s[g..k + 1] == s[g..k] + [s[k]];
        LazyBodyShape(s, name, g, k + 1);
      } else {
        forall c: nat, e: nat | LazyShape(s, name, g, c, e)
          ensures false
        {
        }
      }
  }

  /** The lazy body stops at the first position where the closing tag matches. */
  lemma {:induction false} LazyBodyReaches(s: string, name: string, k: nat, c: nat, e: nat)
    requires k <= c <= |s|
    requires NoLineTerminator(s[k..c])
    requires forall j :: k <= j < c ==> CloseAt(s, name, j).None?
    requires CloseAt(s, name, c) == Some(e)
    ensures LazyBody(s, name, k) == Some(e)
    decreases c - k
  {
    if k < c {
      assert s[k..c][0] == s[k];
      assert s[k + 1..c] == s[k..c][1..];
      LazyBodyReaches(s, name, k + 1, c, e);
    }
  }

  /**
   A match at `s[0]` is exactly an opening tag followed by the shortest
   single-line body after which the closing tag matches.
   */
  lemma MatchAtShape(s: string, name: string)
    ensures MatchAt(s, name).Some? <==>
      OpenEnd(s, name).Some? && exists c: nat, e: nat :: LazyShape(s, name, OpenEnd(s, name).value, c, e)
    ensures MatchAt(s, name).Some? ==>
      exists c: nat :: LazyShape(s, name, OpenEnd(s, name).value, c, MatchAt(s, name).value)
  {
    if OpenEnd(s, name).Some? {
      var g := OpenEnd(s, name).value;
      assert s[g..g] == [];
      LazyBodyShape(s, name, g, g);
    }
  }

  /** A script whose body reaches a line terminator before any closing tag is not matched. */
  lemma {:induction false} MultiLineBodyNotMatched(s: string, name: string, t: nat)
    requires OpenEnd(s, name).Some? && OpenEnd(s, name).value <= t < |s|
    requires IsLineTerminator(s[t])
    requires forall j :: OpenEnd(s, name).value <= j <= t ==> CloseAt(s, name, j).None?
    ensures MatchAt(s, name).None?
  {
    MatchAtShape(s, name);
  }

  /** One step of the global scan: a character left in place, or a whole match. */
  datatype Chunk = Kept(c: char) | Matched(text: string)

  /**
   `cs` is a leftmost, non-overlapping scan of `s`: at each position where the
   scan resumes the expression is tried; when it matches, the whole match is
   the next chunk and the scan resumes right after it, otherwise the character
   there is kept and the scan moves on by one.
   */
  ghost predicate IsLeftmostScan(s: string, name: string, cs: seq<Chunk>)
    decreases |cs|
  {
    if |cs| == 0 then |s| == 0
    else
      && 0 < |s|
      && match cs[0]
         case Kept(c) =>
           c == s[0] && MatchAt(s, name).None? && IsLeftmostScan(s[1..], name, cs[1..])
         case Matched(t) =>
           MatchAt(s, name) == Some(|t|) && t == s[..|t|] && IsLeftmostScan(s[|t|..], name, cs[1..])
  }

  /**
   The global scan: at each position try the expression; on a match emit it
   and resume after it, otherwise keep one character and move on.
   */
  function Scan(s: string, name: string): (r: seq<Chunk>)
    ensures IsLeftmostScan(s, name, r)
    decreases |s|
  {
    if |s| == 0 then []
    else
      match MatchAt(s, name)
      case Some(e) =>
        var r := [Matched(s[..e])] + Scan(s[e..], name);
        assert r[1..] == Scan(s[e..], name);
        r
      case None =>
        var r := [Kept(s[0])] + Scan(s[1..], name);
        assert r[1..] == Scan(s[1..], name);
        r
  }

  /** The leftmost scan of a text is unique: it is the one `Scan` computes. */
  lemma {:induction false} LeftmostScanIsScan(s: string, name: string, cs: seq<Chunk>)
    requires IsLeftmostScan(s, name, cs)
    ensures cs == Scan(s, name)
    decreases |cs|
  {
    hide MatchAt, Scan;
    if |cs| == 0 {
      ScanEmpty(s, name);
    } else {
      var c, e := ScanStep(s, name);
      LeftmostScanIsScan(s[e..], name, cs[1..]);
      assert cs == [cs[0]] + cs[1..];
    }
  }

  /** Every leftmost scan of `s` is `Scan(s, name)`. */
  lemma LeftmostScanUnique(s: string, name: string)
    ensures forall cs :: IsLeftmostScan(s, name, cs) ==> cs == Scan(s, name)
  {
    forall cs | IsLeftmostScan(s, name, cs)
      ensures cs == Scan(s, name)
    {
      LeftmostScanIsScan(s, name, cs);
    }
  }

  /** The text of the chunks laid end to end. */
  function Flatten(cs: seq<Chunk>): string
  {
    if |cs| == 0 then []
    else
      match cs[0]
      case Kept(c) => [c] + Flatten(cs[1..])
      case Matched(t) => t + Flatten(cs[1..])
  }

  /** What `replace(re, '')` leaves: the kept characters in order. */
  function KeptText(cs: seq<Chunk>): string
  {
    if |cs| == 0 then []
    else
      match cs[0]
      case Kept(c) => [c] + KeptText(cs[1..])
      case Matched(_) => KeptText(cs[1..])
  }

  /** What the replacer callback pushes: the matches, left to right. */
  function Matches(cs: seq<Chunk>): seq<string>
  {
    if |cs| == 0 then []
    else
      match cs[0]
      case Kept(_) => Matches(cs[1..])
      case Matched(t) => [t] + Matches(cs[1..])
  }

  /** The first chunk of the scan: a whole match, or one kept character. */
  lemma ScanStep(s: string, name: string) returns (c: Chunk, e: nat)
    requires |s| > 0
    ensures 0 < e <= |s| && Scan(s, name) == [c] + Scan(s[e..], name)
    ensures c.Matched? ==> c.text == s[..e] && MatchAt(s, name) == Some(e)
    ensures c.Kept? ==> e == 1 && c.c == s[0] && s[..e] == [c.c] && MatchAt(s, name).None?
  {
    match MatchAt(s, name)
    case Some(m) =>
      c, e := Matched(s[..m]), m;
    case None =>
      c, e := Kept(s[0]), 1;
  }

  lemma ScanEmpty(s: string, name: string)
    requires |s| == 0
    ensures Scan(s, name) == []
  {
  }

  /** The three views of a chunk list, one chunk at a time. */
  lemma ChunksCons(c: Chunk, cs: seq<Chunk>)
    ensures c.Kept? ==> Flatten([c] + cs) == [c.c] + Flatten(cs)
    ensures c.Matched? ==> Flatten([c] + cs) == c.text + Flatten(cs)
    ensures c.Kept? ==> KeptText([c] + cs) == [c.c] + KeptText(cs)
    ensures c.Matched? ==> KeptText([c] + cs) == KeptText(cs)
    ensures c.Kept? ==> Matches([c] + cs) == Matches(cs)
    ensures c.Matched? ==> Matches([c] + cs) == [c.text] + Matches(cs)
  {
    assert ([c] + cs)[1..] == cs;
  }

  /** Laying the kept gaps and the captured matches back in order rebuilds the input. */
  lemma {:induction false} ScanFlatten(s: string, name: string)
    ensures Flatten(Scan(s, name)) == s
    decreases |s|
  {
    hide MatchAt, Scan;
    if |s| == 0 {
      ScanEmpty(s, name);
    } else {
      var c, e := ScanStep(s, name);
      ChunksCons(c, Scan(s[e..], name));
      ScanFlatten(s[e..], name);
      assert s[..e] + s[e..] == s;
    }
  }

  /** Every captured match starts with `<` and ends with the closing `NAME>`. */
  lemma {:induction false} ScanMatchesAreTags(s: string, name: string)
    ensures forall m :: m in Matches(Scan(s, name)) ==>
      0 < |m| && m[0] == '<' && EndsWith(m, name + ">")
    decreases |s|
  {
    hide MatchAt, Scan;
    if |s| == 0 {
      ScanEmpty(s, name);
    } else {
      var c, e := ScanStep(s, name);
      ChunksCons(c, Scan(s[e..], name));
      ScanMatchesAreTags(s[e..], name);
      if c.Matched? {
        assert c.text[0] == s[0];
      }
    }
  }

  /** Removing the matches leaves a subsequence of the input. */
  lemma {:induction false} ScanKeptIsSubseq(s: string, name: string)
    ensures IsSubseq(KeptText(Scan(s, name)), s)
    decreases |s|
  {
    hide MatchAt, Scan;
    if |s| == 0 {
      ScanEmpty(s, name);
    } else {
      var c, e := ScanStep(s, name);
      var rest := KeptText(Scan(s[e..], name));
      ChunksCons(c, Scan(s[e..], name));
      ScanKeptIsSubseq(s[e..], name);
      if c.Matched? {
        SubseqSkip(rest, s[..e], s[e..]);
      } else {
        SubseqKeep([s[0]], rest, s[1..]);
      }
      assert s[..e] + s[e..] == s;
    }
  }

  /** A match at the start is removed whole; the scan resumes right after it. */
  lemma ScanAfterMatch(s: string, name: string, e: nat)
    requires 0 < e <= |s| && MatchAt(s, name) == Some(e)
    ensures KeptText(Scan(s, name)) == KeptText(Scan(s[e..], name))
    ensures Matches(Scan(s, name)) == [s[..e]] + Matches(Scan(s[e..], name))
  {
    var cs := Scan(s, name);
    assert cs == [Matched(s[..e])] + Scan(s[e..], name);
    assert cs[1..] == Scan(s[e..], name);
  }

  /** A text without `<` has nothing to match: the scan keeps it all. */
  lemma {:induction false} ScanWithoutTagsKeepsAll(s: string, name: string)
    requires '<' !in s
    ensures KeptText(Scan(s, name)) == s
    ensures Matches(Scan(s, name)) == []
    decreases |s|
  {
    hide MatchAt, Scan;
    if |s| == 0 {
      ScanEmpty(s, name);
    } else {
      var c, e := ScanStep(s, name);
      assert s[0] in s;
      assert forall x :: x in s[1..] ==> x in s;
      ChunksCons(c, Scan(s[e..], name));
      ScanWithoutTagsKeepsAll(s[1..], name);
      assert [s[0]] + s[1..] == s;
    }
  }

  /** Where no match starts inside `p`, the scan keeps all of `p` and then goes on as on `x` alone. */
  lemma {:induction false} ScanKeepsPrefix(p: string, x: string, name: string)
    requires forall i :: 0 <= i < |p| ==> MatchAt((p + x)[i..], name).None?
    ensures KeptText(Scan(p + x, name)) == p + KeptText(Scan(x, name))
    ensures Matches(Scan(p + x, name)) == Matches(Scan(x, name))
    decreases |p|
  {
    hide MatchAt, Scan;
    var s := p + x;
    if |p| == 0 {
      assert s == x;
    } else {
      assert s[0..] == s;
      var c, e := ScanStep(s, name);
      assert s[1..] == p[1..] + x;
      forall i | 0 <= i < |p[1..]|
        ensures MatchAt((p[1..] + x)[i..], name).None?
      {
        assert (p[1..] + x)[i..] == s[i + 1..];
      }
      ChunksCons(c, Scan(s[1..], name));
      ScanKeepsPrefix(p[1..], x, name);
      assert [p[0]] + (p[1..] + KeptText(Scan(x, name))) == p + KeptText(Scan(x, name));
    }
  }

  /**
   `CloseAt` finds a closing tag exactly when one is written at `k`, and
   reports where it ends.
   */
  lemma CloseAtShape(s: string, name: string, k: nat)
    ensures CloseAt(s, name, k).Some? ==> exists a: nat :: ClosingTag(s, name, k, a, CloseAt(s, name, k).value)
    ensures forall a: nat, e: nat {:trigger ClosingTag(s, name, k, a, e)} ::
      ClosingTag(s, name, k, a, e) && !IsSpace((name + ">")[0]) ==> CloseAt(s, name, k) == Some(e)
  {
    if CloseAt(s, name, k).Some? {
      var a := SkipSpaces(s, k + 1);
      var b := SkipSpaces(s, a + 1);
      assert s[b..b + |name| + 1] == name + ">";
      assert ClosingTag(s, name, k, a, CloseAt(s, name, k).value);
    }
    forall a: nat, e: nat | ClosingTag(s, name, k, a, e) && !IsSpace((name + ">")[0])
      ensures CloseAt(s, name, k) == Some(e)
    {
      CloseAtFromShape(s, name, k, a, e);
    }
  }

  lemma CloseAtFromShape(s: string, name: string, k: nat, a: nat, e: nat)
    requires ClosingTag(s, name, k, a, e) && !IsSpace((name + ">")[0])
    ensures CloseAt(s, name, k) == Some(e)
  {
    var b := e - |name| - 1;
    var tag := name + ">";
    assert s[b..e] == tag;
    assert s[b] == tag[0] by {
      assert s[b..e][0] == s[b];
    }
    SkipSpacesStops(s, k + 1, a);
    assert SkipSpaces(s, k + 1) == a && a < |s| && s[a] == '/';
    SkipSpacesStops(s, a + 1, b);
    assert SkipSpaces(s, a + 1) == b;
    assert OccursAt(s, tag, b) && b + |tag| == e;
  }

  /**
   `OpenEnd` finds an opening tag exactly when one is written at the start,
   and reports the position just past its first `>`.
   */
  lemma OpenEndShape(s: string, name: string)
    ensures OpenEnd(s, name).Some? ==>
      exists a: nat, g: nat :: g + 1 == OpenEnd(s, name).value && OpeningTag(s, name, a, g)
    ensures forall a: nat, g: nat {:trigger OpeningTag(s, name, a, g)} ::
      OpeningTag(s, name, a, g) && 0 < |name| && !IsSpace(name[0]) ==> OpenEnd(s, name) == Some(g + 1)
  {
    if OpenEnd(s, name).Some? {
      var a := SkipSpaces(s, 1);
      var g := OpenEnd(s, name).value - 1;
      var found := IndexOfFrom(s, ">", a + |name|);
      assert found == Some(g);
      forall j | a + |name| <= j < g
        ensures s[j] != '>'
      {
        assert !OccursAt(s, ">", j);
        assert s[j..j + 1] == [s[j]];
      }
      assert s[g..g + 1][0] == s[g];
      assert OpeningTag(s, name, a, g);
    }
    forall a: nat, g: nat | OpeningTag(s, name, a, g) && 0 < |name| && !IsSpace(name[0])
      ensures OpenEnd(s, name) == Some(g + 1)
    {
      OpenEndFromShape(s, name, a, g);
    }
  }

  lemma OpenEndFromShape(s: string, name: string, a: nat, g: nat)
    requires OpeningTag(s, name, a, g) && 0 < |name| && !IsSpace(name[0])
    ensures OpenEnd(s, name) == Some(g + 1)
  {
    assert s[a] == name[0] by {
      assert s[a..a + |name|][0] == s[a];
    }
    SkipSpacesStops(s, 1, a);
    assert OccursAt(s, name, a);
    assert OccursAt(s, ">", g) by {
      assert s[g..g + 1] == [s[g]];
    }
    var found := IndexOfFrom(s, ">", a + |name|);
    assert found.Some?;
    var h := found.value;
    assert s[h] == '>' by {
      assert s[h..h + 1][0] == s[h];
    }
  }
}

/**
 The post-processor of `scripts/clean_out_from_scripts_tags.ts`: a fixed
 pipeline of text stages that turns the exported page into e-mail markup.
 Each stage is a total function on the document text; `CleanOut` composes
 them in the order the script applies them.
 */
module CleanOut {
  import opened Wrappers
  import opened Text
  import opened TagPattern

  const Html5Doctype: string := "<!DOCTYPE html>"
  /** Copied character for character, including the missing space in `htmlPUBLIC`. */
  const XhtmlDoctype: string :=
    "<!DOCTYPE htmlPUBLIC \"-//W3C//DTD XHTML 1.0 Transitional//EN\" \"http://www.w3.org/TR/xhtml1/DTD/xhtml1-transitional.dtd\">"
  const HtmlOpen: string := "<html"
  const HtmlOpenWithNamespace: string := "<html xmlns=\"http://www.w3.org/1999/xhtml\" "
  const ScriptName: string := "script"
  const StyleName: string := "style"
  /** The framework's mount point; the script cuts a hard-coded 17 characters. */
  const NextMarker: string := "<div id=\"__next\">"
  const MarkerCut: int := 17
  const HeadClose: string := "</head>"
  const DivClose: string := "</div>"

  /** Stage 1: the first HTML5 doctype becomes the XHTML 1.0 Transitional one. */
  function ReplaceDoctype(s: string): (r: string)
    ensures !Contains(s, Html5Doctype) ==> r == s
    ensures forall i: nat {:trigger IsFirst(s, Html5Doctype, i)} :: IsFirst(s, Html5Doctype, i) ==>
      r == s[..i] + XhtmlDoctype + s[i + |Html5Doctype|..]
  {
    ReplaceFirst(s, Html5Doctype, XhtmlDoctype)
  }

  /** Stage 2: the first `<html` gains the XHTML namespace attribute. */
  function AddNamespace(s: string): (r: string)
    ensures !Contains(s, HtmlOpen) ==> r == s
    ensures forall i: nat {:trigger IsFirst(s, HtmlOpen, i)} :: IsFirst(s, HtmlOpen, i) ==>
      r == s[..i] + HtmlOpenWithNamespace + s[i + |HtmlOpen|..]
  {
    ReplaceFirst(s, HtmlOpen, HtmlOpenWithNamespace)
  }

  /** Stage 3: every leftmost single-line `<script …>…</script>` match is deleted. */
  function RemoveScripts(s: string): (r: string)
    ensures exists cs :: IsLeftmostScan(s, ScriptName, cs) && KeptText(cs) == r
    ensures forall cs :: IsLeftmostScan(s, ScriptName, cs) ==> KeptText(cs) == r
    ensures IsSubseq(r, s)
    ensures exists cs :: Flatten(cs) == s && KeptText(cs) == r &&
                         forall m :: m in Matches(cs) ==> 0 < |m| && m[0] == '<' && EndsWith(m, ScriptName + ">")
  {
    var cs := Scan(s, ScriptName);
    LeftmostScanUnique(s, ScriptName);
    ScanKeptIsSubseq(s, ScriptName);
    ScanFlatten(s, ScriptName);
    ScanMatchesAreTags(s, ScriptName);
    KeptText(cs)
  }

  /** The buffer left by the style stage and the styles its callback pushed. */
  datatype Extracted = Extracted(rest: string, styles: seq<string>)

  /**
   Stage 4: every `<style …>…</style>` match is pushed onto `styles` and
   deleted; the kept gaps interleaved with the pushed matches rebuild the input.
   */
  function ExtractStyles(s: string): (r: Extracted)
    ensures exists cs :: IsLeftmostScan(s, StyleName, cs) && KeptText(cs) == r.rest && Matches(cs) == r.styles
    ensures forall cs :: IsLeftmostScan(s, StyleName, cs) ==> KeptText(cs) == r.rest && Matches(cs) == r.styles
    ensures IsSubseq(r.rest, s)
    ensures exists cs :: Flatten(cs) == s && KeptText(cs) == r.rest && Matches(cs) == r.styles
    ensures forall m :: m in r.styles ==> 0 < |m| && m[0] == '<' && EndsWith(m, StyleName + ">")
  {
    var cs := Scan(s, StyleName);
    LeftmostScanUnique(s, StyleName);
    ScanKeptIsSubseq(s, StyleName);
    ScanFlatten(s, StyleName);
    ScanMatchesAreTags(s, StyleName);
    Extracted(KeptText(cs), Matches(cs))
  }

  /**
   Stage 5: `slice(0, i) + slice(i + 17)` with `i = search(marker)`. When the
   marker is absent `i` is -1, and the text is mangled rather than kept
   (a text of exactly 17 characters happens to come back whole).
   */
  function CutMarker(s: string): (r: string)
    ensures forall i: nat {:trigger IsFirst(s, NextMarker, i)} :: IsFirst(s, NextMarker, i) ==>
      r == s[..i] + s[i + |NextMarker|..]
    ensures Contains(s, NextMarker) ==> |r| == |s| - |NextMarker|
    ensures !Contains(s, NextMarker) && |s| >= 16 ==> r == s[..|s| - 1] + s[16..]
    ensures !Contains(s, NextMarker) && 0 < |s| < 16 ==> r == s[..|s| - 1]
    ensures |s| == 0 ==> r == []
  {
    var i := Search(s, NextMarker);
    Slice(s, 0, i) + SliceFrom(s, i + MarkerCut)
  }

  /** Without the marker, a page of 18 characters or more comes out longer than it went in. */
  lemma MarkerAbsentMangles(s: string)
    requires !Contains(s, NextMarker)
    requires |s| >= 18
    ensures |CutMarker(s)| == 2 * |s| - 17
    ensures CutMarker(s) != s
  {
  }

  /**
   Stage 6: the captured styles, joined with nothing between them, go in as
   one block just before the first `</head>`; before the last character when
   there is none (`search` gives -1).
   */
  function InsertStyles(s: string, styles: seq<string>): (r: string)
    ensures exists p :: 0 <= p <= |s| && r == s[..p] + Concat(styles) + s[p..]
    ensures forall i: nat {:trigger IsFirst(s, HeadClose, i)} :: IsFirst(s, HeadClose, i) ==>
      r == s[..i] + Concat(styles) + s[i..]
    ensures !Contains(s, HeadClose) && |s| > 0 ==> r == s[..|s| - 1] + Concat(styles) + s[|s| - 1..]
    ensures Concat(styles) == [] ==> r == s
  {
    var i := Search(s, HeadClose);
    var r := Slice(s, 0, i) + Concat(styles) + SliceFrom(s, i);
    if i >= 0 then
      r
    else if |s| > 0 then
      assert r == s[..|s| - 1] + Concat(styles) + s[|s| - 1..];
      r
    else
      assert r == s[..0] + Concat(styles) + s[0..];
      r
  }

  /** The backward loop: the last token at or before `i` that contains `pat`. */
  function LastWith(tokens: seq<string>, pat: string, i: int): (r: Option<nat>)
    requires i < |tokens|
    ensures r.Some? ==> r.value <= i && Contains(tokens[r.value], pat)
    ensures r.Some? ==> forall j :: r.value < j <= i ==> !Contains(tokens[j], pat)
    ensures r.None? ==> forall j :: 0 <= j <= i ==> !Contains(tokens[j], pat)
    decreases i + 1
  {
    if i < 0 then None
    else if IndexOf(tokens[i], pat).Some? then Some(i)
    else LastWith(tokens, pat, i - 1)
  }

  /** `tokens[k]` is the last token holding a `</div>`. */
  ghost predicate IsLastDivToken(tokens: seq<string>, k: nat) {
    k < |tokens| && Contains(tokens[k], DivClose) &&
    forall j :: k < j < |tokens| ==> !Contains(tokens[j], DivClose)
  }

  /**
   The token list after the orphan-closing-div step, before it is joined
   again: the last token holding a `</div>` loses its first one, and every
   other token is kept.
   */
  function OrphanTokens(tokens: seq<string>): (r: seq<string>)
    requires |tokens| >= 1
    ensures |r| == |tokens|
    ensures forall k: nat {:trigger IsLastDivToken(tokens, k)} :: IsLastDivToken(tokens, k) ==>
      r[k] == ReplaceFirst(tokens[k], DivClose, []) &&
      forall j :: 0 <= j < |tokens| && j != k ==> r[j] == tokens[j]
    ensures (forall k :: 0 <= k < |tokens| ==> !Contains(tokens[k], DivClose)) ==> r == tokens
  {
    match LastWith(tokens, DivClose, |tokens| - 1)
    case None => tokens
    case Some(k) => tokens[k := ReplaceFirst(tokens[k], DivClose, [])]
  }

  /**
   Stage 7: split on single spaces, drop the first `</div>` of the last token
   holding one, join with single spaces again.
   */
  function RemoveOrphanDiv(s: string): (r: string)
    ensures r == s || (|r| == |s| - |DivClose| && exists p: nat :: OccursAt(s, DivClose, p) && r == s[..p] + s[p + |DivClose|..])
    ensures (forall k :: 0 <= k < |Split(s, ' ')| ==> !Contains(Split(s, ' ')[k], DivClose)) ==> r == s
    ensures |Split(r, ' ')| == |Split(s, ' ')|
    ensures (exists k :: 0 <= k < |Split(s, ' ')| && Contains(Split(s, ' ')[k], DivClose)) ==> |r| == |s| - |DivClose|
  {
    var tokens := Split(s, ' ');
    var r := Join(OrphanTokens(tokens), ' ');
    OrphanDivTokens(s);
    OrphanDivSpan(s);
    r
  }

  /** Removing a `</div>` from a token never brings in a space. */
  lemma DropDivKeepsNoSpace(t: string)
    requires ' ' !in t
    ensures ' ' !in ReplaceFirst(t, DivClose, [])
  {
    if Contains(t, DivClose) {
      var q := IndexOf(t, DivClose).value;
      assert ReplaceFirst(t, DivClose, []) == t[..q] + t[q + 6..];
      assert forall c :: c in t[..q] + t[q + 6..] ==> c in t;
    }
  }

  /**
   The split of the result is the split of the input with only the last
   `</div>`-holding token changed, by losing its first `</div>`; with no such
   token the text comes back unchanged.
   */
  lemma OrphanDivTokens(s: string)
    ensures Split(Join(OrphanTokens(Split(s, ' ')), ' '), ' ') == OrphanTokens(Split(s, ' '))
    ensures |OrphanTokens(Split(s, ' '))| == |Split(s, ' ')|
    ensures LastWith(Split(s, ' '), DivClose, |Split(s, ' ')| - 1).None? ==>
      Join(OrphanTokens(Split(s, ' ')), ' ') == s
  {
    var tokens := Split(s, ' ');
    var ts := OrphanTokens(tokens);
    OrphanTokensKeepNoSpace(tokens);
    SplitJoin(ts, ' ');
    if LastWith(tokens, DivClose, |tokens| - 1).None? {
      assert ts == tokens;
      JoinSplit(s, ' ');
    }
  }

  /** The orphan step keeps the token count and brings no space into any token. */
  lemma OrphanTokensKeepNoSpace(tokens: seq<string>)
    requires |tokens| >= 1
    requires forall k :: 0 <= k < |tokens| ==> ' ' !in tokens[k]
    ensures |OrphanTokens(tokens)| == |tokens|
    ensures forall k :: 0 <= k < |tokens| ==> ' ' !in OrphanTokens(tokens)[k]
  {
    match LastWith(tokens, DivClose, |tokens| - 1)
    case None =>
    case Some(k) =>
      DropDivKeepsNoSpace(tokens[k]);
  }

  /** When some token holds `</div>`, exactly one occurrence of it leaves the text. */
  lemma OrphanDivSpan(s: string)
    ensures LastWith(Split(s, ' '), DivClose, |Split(s, ' ')| - 1).Some? ==>
      exists p: nat :: OccursAt(s, DivClose, p) && Join(OrphanTokens(Split(s, ' ')), ' ') == s[..p] + s[p + |DivClose|..]
  {
    hide Split, Join, ReplaceFirst;
    var tokens := Split(s, ' ');
    match LastWith(tokens, DivClose, |tokens| - 1)
    case None =>
    case Some(k) =>
      JoinSplit(s, ' ');
      DropDivInToken(s, tokens, k);
  }

  lemma DropDivInToken(s: string, tokens: seq<string>, k: nat)
    requires k < |tokens| && Join(tokens, ' ') == s
    requires Contains(tokens[k], DivClose)
    ensures exists p: nat :: OccursAt(s, DivClose, p) &&
                             Join(tokens[k := ReplaceFirst(tokens[k], DivClose, [])], ' ') == s[..p] + s[p + |DivClose|..]
  {
    hide Join, ReplaceFirst;
    var t := tokens[k];
    var q := IndexOf(t, DivClose).value;
    assert ReplaceFirst(t, DivClose, []) == t[..q] + t[q + |DivClose|..];
    JoinDropInside(tokens, ' ', k, q, |DivClose|);
    assert OccursAt(s, DivClose, |JoinBefore(tokens, ' ', k)| + q);
  }

  /** A script block with bare tags whose body is exactly one style block with bare tags. */
  function ScriptAroundStyle(css: string): string {
    "<script>" + "<style>" + css + "</style>" + "</script>"
  }

  lemma OpensScript(s: string)
    requires 8 <= |s| && s[..8] == "<script>"
    ensures OpenEnd(s, ScriptName) == Some(8)
  {
    var t := s[..8];
    assert s[0] == t[0] == '<' && s[1] == t[1] == 's';
    assert s[1..7] == t[1..7];
    assert s[7..8] == s[..8][7..8];
  }

  lemma ClosesScript(s: string, c: nat)
    requires c + 9 <= |s| && s[c..c + 9] == "</script>"
    ensures CloseAt(s, ScriptName, c) == Some(c + 9)
  {
    var t := s[c..c + 9];
    assert s[c] == t[0] == '<' && s[c + 1] == t[1] == '/' && s[c + 2] == t[2] == 's';
    assert s[c + 2..c + 9] == t[2..];
  }

  /** No closing script tag starts inside `<style>` or `</style>`. */
  lemma NoCloseInStyleTag(s: string, t: nat, tag: string, j: nat)
    requires tag == "<style>" || tag == "</style>"
    requires t <= j < t + |tag| <= |s| && s[t..t + |tag|] == tag
    ensures CloseAt(s, ScriptName, j).None?
  {
    assert s[j] == tag[j - t];
    if j == t {
      assert s[j + 1] == tag[1];
      if tag == "</style>" {
        assert s[j + 2] == tag[2] && s[j + 3] == tag[3];
        assert SkipSpaces(s, j + 1) == j + 1;
        assert SkipSpaces(s, j + 2) == j + 2;
        assert !OccursAt(s, ScriptName + ">", j + 2) by {
          assert j + 9 <= |s| ==> s[j + 2..j + 9][1] == s[j + 3];
        }
      }
    }
  }

  /** The script expression matches the whole block at its start, and no further. */
  lemma ScriptBlockMatches(s: string, n: nat)
    requires 32 + n <= |s|
    requires s[..8] == "<script>" && s[8..15] == "<style>" && s[15 + n..23 + n] == "</style>"
    requires s[23 + n..32 + n] == "</script>"
    requires '<' !in s[15..15 + n] && NoLineTerminator(s[15..15 + n])
    ensures MatchAt(s, ScriptName) == Some(32 + n)
  {
    OpensScript(s);
    ClosesScript(s, 23 + n);
    forall j | 8 <= j < 23 + n
      ensures CloseAt(s, ScriptName, j).None?
    {
      if j < 15 {
        NoCloseInStyleTag(s, 8, "<style>", j);
      } else if j < 15 + n {
        assert s[j] == s[15..15 + n][j - 15];
      } else {
        NoCloseInStyleTag(s, 15 + n, "</style>", j);
      }
    }
    assert NoLineTerminator(s[8..23 + n]) by {
      forall j | 8 <= j < 23 + n
        ensures !IsLineTerminator(s[j])
      {
        if j < 15 {
          assert s[j] == s[8..15][j - 8];
        } else if j < 15 + n {
          assert s[j] == s[15..15 + n][j - 15];
        } else {
          assert s[j] == s[15 + n..23 + n][j - 15 - n];
        }
      }
    }
    LazyBodyReaches(s, ScriptName, 8, 23 + n, 32 + n);
  }

  /** A bare script block holding a bare style block, at the start of the text, goes whole. */
  lemma ScriptBlockRemoved(css: string, rest: string)
    requires '<' !in css && NoLineTerminator(css)
    ensures RemoveScripts(ScriptAroundStyle(css) + rest) == RemoveScripts(rest)
  {
    var n := |css|;
    var s := ScriptAroundStyle(css) + rest;
    assert s[..8] == "<script>";
    assert s[8..15] == "<style>";
    assert s[15..15 + n] == css;
    assert s[15 + n..23 + n] == "</style>";
    assert s[23 + n..32 + n] == "</script>";
    assert s[32 + n..] == rest;
    ScriptBlockMatches(s, n);
    ScanAfterMatch(s, ScriptName, 32 + n);
  }

  /**
   Scripts go before styles: a style block inside a single-line script block
   leaves with the script wherever the block stands, so the style stage never
   sees it. `pre` is the text before the block, in which no script match starts.
   */
  lemma StyleInsideScriptNotCaptured(pre: string, css: string, rest: string)
    requires '<' !in css && NoLineTerminator(css)
    requires forall i :: 0 <= i < |pre| ==> MatchAt((pre + (ScriptAroundStyle(css) + rest))[i..], ScriptName).None?
    ensures RemoveScripts(pre + ScriptAroundStyle(css) + rest) == pre + RemoveScripts(rest)
    ensures ExtractStyles(RemoveScripts(pre + ScriptAroundStyle(css) + rest)) == ExtractStyles(pre + RemoveScripts(rest))
  {
    var block := ScriptAroundStyle(css) + rest;
    assert pre + ScriptAroundStyle(css) + rest == pre + block;
    ScanKeepsPrefix(pre, block, ScriptName);
    ScriptBlockRemoved(css, rest);
  }

  /** The whole post-processor: string in, string out. */
  function CleanOut(data: string): (r: string)
  {
    var namespaced := AddNamespace(ReplaceDoctype(data));
    var scriptless := RemoveScripts(namespaced);
    var extracted := ExtractStyles(scriptless);
    var unmounted := CutMarker(extracted.rest);
    var styled := InsertStyles(unmounted, extracted.styles);
    RemoveOrphanDiv(styled)
  }

  /**
   When `</head>` comes before the mount point, cutting the mount point does
   not move that `</head>`, so the styles land right before it.
   */
  lemma StylesBeforeHead(t: string, styles: seq<string>, h: nat, m: nat)
    requires IsFirst(t, HeadClose, h) && IsFirst(t, NextMarker, m) && h + |HeadClose| <= m
    ensures InsertStyles(CutMarker(t), styles) == t[..h] + Concat(styles) + t[h..m] + t[m + |NextMarker|..]
  {
    hide InsertStyles, CutMarker;
    var u := CutMarker(t);
    assert u == t[..m] + t[m + |NextMarker|..];
    assert u[h..h + |HeadClose|] == t[h..h + |HeadClose|];
    forall j: nat | j < h
      ensures !OccursAt(u, HeadClose, j)
    {
      assert !OccursAt(t, HeadClose, j);
      assert u[j..j + |HeadClose|] == t[j..j + |HeadClose|];
    }
    assert IsFirst(u, HeadClose, h);
    assert u[..h] == t[..h];
    assert u[h..] == t[h..m] + t[m + |NextMarker|..];
  }

  /**
   The whole pipeline on a page whose `</head>` comes before the mount point
   once scripts and styles are gone (`x` is that stage-4 result): the mount
   point is cut, the captured styles go in right before that first
   `</head>`, and then one orphan `</div>` is dropped.
   */
  lemma CleanOutHeadBeforeMarker(data: string, x: Extracted, h: nat, m: nat)
    requires x == ExtractStyles(RemoveScripts(AddNamespace(ReplaceDoctype(data))))
    requires IsFirst(x.rest, HeadClose, h) && IsFirst(x.rest, NextMarker, m) && h + |HeadClose| <= m
    ensures CleanOut(data) == RemoveOrphanDiv(x.rest[..h] + Concat(x.styles) + x.rest[h..m] + x.rest[m + |NextMarker|..])
  {
    hide ReplaceDoctype, AddNamespace, RemoveScripts, ExtractStyles, CutMarker, InsertStyles, RemoveOrphanDiv, CleanOut;
    CleanOutStages(data);
    StylesBeforeHead(x.rest, x.styles, h, m);
  }

  /** The pipeline as its last three stages applied to the stage-4 result. */
  lemma CleanOutStages(data: string)
    ensures var x := ExtractStyles(RemoveScripts(AddNamespace(ReplaceDoctype(data))));
      CleanOut(data) == RemoveOrphanDiv(InsertStyles(CutMarker(x.rest), x.styles))
  {
    hide ReplaceDoctype, AddNamespace, RemoveScripts, ExtractStyles, CutMarker, InsertStyles, RemoveOrphanDiv;
  }

  /** A tag pattern starts with `<`, so a text without `<` holds none. */
  lemma NoTagWithoutLt(s: string, pat: string)
    requires '<' !in s && |pat| > 0 && pat[0] == '<'
    ensures !Contains(s, pat)
  {
    forall i: nat | i + |pat| <= |s|
      ensures !OccursAt(s, pat, i)
    {
      assert s[i..i + |pat|][0] == s[i];
      assert s[i] in s;
    }
  }

  /** Without `<`, the stages that look for tags leave the text alone. */
  lemma PlainTextStages(s: string)
    requires '<' !in s
    ensures ReplaceDoctype(s) == s && AddNamespace(s) == s
    ensures RemoveScripts(s) == s && ExtractStyles(s) == Extracted(s, [])
    ensures RemoveOrphanDiv(s) == s
  {
    hide ReplaceDoctype, AddNamespace, RemoveOrphanDiv;
    NoTagWithoutLt(s, Html5Doctype);
    NoTagWithoutLt(s, HtmlOpen);
    NoTagWithoutLt(s, DivClose);
    ScanWithoutTagsKeepsAll(s, ScriptName);
    ScanWithoutTagsKeepsAll(s, StyleName);
  }

  /**
   A page without any markup goes through every stage untouched except the
   marker cut, which finds no mount point and so drops the last character
   and repeats the text from index 16 on.
   */
  lemma CleanOutPlainText(s: string)
    requires '<' !in s && |s| >= 16
    ensures CleanOut(s) == s[..|s| - 1] + s[16..]
  {
    hide ReplaceDoctype, AddNamespace, RemoveScripts, ExtractStyles, CutMarker, InsertStyles, RemoveOrphanDiv;
    PlainTextStages(s);
    PlainTextCut(s);
    var cut := CutMarker(s);
    assert InsertStyles(cut, []) == cut by {
      assert Concat([]) == [];
    }
    PlainTextStages(cut);
  }

  lemma PlainTextCut(s: string)
    requires '<' !in s && |s| >= 16
    ensures CutMarker(s) == s[..|s| - 1] + s[16..]
    ensures '<' !in CutMarker(s)
  {
    hide CutMarker;
    NoTagWithoutLt(s, NextMarker);
    var cut := s[..|s| - 1] + s[16..];
    assert forall c :: c in cut ==> c in s;
  }
}

# Static e-mail export: post-processing and layout helpers, modelled in Dafny

This project models the logic that turns a Next.js static export into an
HTML e-mail. It has three parts.

- **The post-processor** (`scripts/clean_out_from_scripts_tags.ts`). It applies a fixed pipeline of seven text
  stages to the exported page:
  - swap the HTML5 doctype for the XHTML 1.0 Transitional one;
  - add the XHTML namespace to the first `<html`;
  - delete single-line `<script>` blocks;
  - capture and delete `<style>` blocks, in order;
  - cut the framework's `<div id="__next">` mount point;
  - re-insert the captured styles before `</head>`;
  - drop one orphan `</div>`.

  Module `CleanOut` has one function per stage and composes them in `CleanOut.CleanOut`.
  The two global regular expressions are modelled by a dedicated leftmost, non-overlapping matcher (module `TagPattern`).
  The JavaScript string primitives the script relies on are in module `Text`:
  - `search` with a plain literal;
  - `slice` with negative indices;
  - `replace` with a string pattern;
  - `split(' ')` and `join`.
- **The earlier post-processor** (`scripts/clean_out_from_scripts_tags.tsx`): one greedy global
  replace `/<script.+<\/script>/g`. This is module `GreedyScript`.
- **The page components.** Both work on one abstract element tree, module `Element`, which has the cases null, text, boolean, element and array.
  - Module `Document` covers the custom document (`pages/_document.tsx`): the head rewrite that removes every `<link rel="preload">`, and the rule that leaves the client script out of pages rendered without React.
  - Module `Layout` covers the table-layout helpers of `pages/index.tsx`: `Table`, `Trs`, `Tr`, `Image`, `Link` and `Paragraph`.

Strings are `seq<char>`. The ECMAScript `\s` set and the line-terminator set are written out character by character.

The `child.type` read in `Table`'s and `Trs`'s `children.map` throws on a `null` array entry. `Table` and `Trs` therefore return an `Option`, and `None` stands for that `TypeError`.

**Where the code differs from its evident intent.** A missing mount point or a missing `</head>` is not a no-op in the code. In both cases `search` returns -1.
- The marker cut then computes `slice(0, -1) + slice(16)`. This drops the last character and repeats the text from index 16 on.
- The style insertion puts the styles before the last character.

The model follows the code. `CleanOut.CutMarker`, `CleanOut.MarkerAbsentMangles`, `CleanOut.InsertStyles` and `CleanOut.CleanOutPlainText` state this behaviour.

## Model

| member | source | states |
|---|---|---|
| `CleanOut.ReplaceDoctype` | scripts/clean_out_from_scripts_tags.ts:14-18 | The first `<!DOCTYPE html>` is replaced by the XHTML doctype literal (including its `htmlPUBLIC`), with the text before and after kept. A page without it is unchanged. |
| `CleanOut.AddNamespace` | scripts/clean_out_from_scripts_tags.ts:19 | Only the first `<html` gains the namespace attribute. Everything before and after that occurrence, later `<html` included, is untouched. A page without `<html` is unchanged. |
| `CleanOut.RemoveScripts` | scripts/clean_out_from_scripts_tags.ts:23 | The output is exactly the kept text of the leftmost, non-overlapping scan for the script expression, and that scan is unique: every match the global replace meets is deleted, and nothing else is. The output is a subsequence of the input. Every removed match starts with `<` and ends with `script>`. |
| `TagPattern.Scan` | scripts/clean_out_from_scripts_tags.ts:23-30 | The chunk list is a leftmost, non-overlapping scan: at each resume position the expression is tried; a match becomes one chunk and the scan resumes after it, otherwise one character is kept. |
| `TagPattern.LeftmostScanIsScan` | scripts/clean_out_from_scripts_tags.ts:23-30 | Any chunk list that is a leftmost, non-overlapping scan of the text is the one `Scan` computes, so the scan is determined by the text. |
| `TagPattern.ScanKeepsPrefix` | scripts/clean_out_from_scripts_tags.ts:23-30 | A prefix at none of whose positions the expression matches is kept whole, and the scan of the rest proceeds as if the prefix were absent. |
| `TagPattern.MatchAt` | scripts/clean_out_from_scripts_tags.ts:23 | A match found at the start of a text ends within it, starts with `<` and ends with the closing `NAME>`. |
| `TagPattern.OpenEnd` | scripts/clean_out_from_scripts_tags.ts:23 | A found opening tag starts with `<` and ends with `>`. |
| `TagPattern.OpenEndShape` | scripts/clean_out_from_scripts_tags.ts:23 | An opening tag is found exactly when the text starts with `<`, optional white space, the name, and then characters up to the first `>`; its end is just past that `>`. |
| `TagPattern.CloseAt` | scripts/clean_out_from_scripts_tags.ts:23 | A found closing tag lies after `k`, starts with `<` and ends with `NAME>`. |
| `TagPattern.CloseAtShape` | scripts/clean_out_from_scripts_tags.ts:23 | A closing tag is found at `k` exactly when `<`, optional white space, `/`, optional white space and `NAME>` occur there; its end is just past that `>`. |
| `TagPattern.LazyBody` | scripts/clean_out_from_scripts_tags.ts:23 | A body end, when found, is past the body's start and just after a closing `NAME>`. |
| `TagPattern.MatchAtShape` | scripts/clean_out_from_scripts_tags.ts:23 | A match at a position happens exactly when an opening tag is followed by a body with no line terminator and the closing tag. The body is the shortest one after which the closing tag matches. |
| `TagPattern.LazyBodyShape` | scripts/clean_out_from_scripts_tags.ts:23 | The lazy body search finds an end exactly when a shortest single-line body exists, and it finds that one. |
| `TagPattern.MultiLineBodyNotMatched` | scripts/clean_out_from_scripts_tags.ts:23 | When the body after an opening tag reaches a line terminator before any closing tag, no match starts at that opening tag's `<`. |
| `TagPattern.ScanFlatten` | scripts/clean_out_from_scripts_tags.ts:23-30 | Laying the kept characters and the matches back in scan order rebuilds the input exactly. |
| `TagPattern.ScanKeptIsSubseq` | scripts/clean_out_from_scripts_tags.ts:23-30 | What a global replace-with-nothing leaves is a subsequence of its input. |
| `TagPattern.ScanMatchesAreTags` | scripts/clean_out_from_scripts_tags.ts:23-30 | Every match starts with `<` and ends with the closing `NAME>`. |
| `TagPattern.ScanWithoutTagsKeepsAll` | scripts/clean_out_from_scripts_tags.ts:23-30 | A text without `<` is kept whole and yields no match. |
| `CleanOut.ExtractStyles` | scripts/clean_out_from_scripts_tags.ts:24-30 | The remaining text and the captured styles are exactly the kept text and the matches of the unique leftmost, non-overlapping scan for the style expression, so every match the global replace meets is captured, in left-to-right order. Interleaving them with the kept gaps rebuilds the stage's input. Each capture is a whole `<style …>…</style>` block. |
| `CleanOut.ScriptBlockMatches` | scripts/clean_out_from_scripts_tags.ts:23 | The exact text `<script><style>` + css + `</style></script>`, with bare tags and a css free of `<` and line terminators, is matched whole, from its `<script>` to its own `</script>`. |
| `CleanOut.ScriptBlockRemoved` | scripts/clean_out_from_scripts_tags.ts:23 | The exact text `<script><style>` + css + `</style></script>`, with bare tags and a css free of `<` and line terminators, at the start of the text, is deleted whole and the rest goes through the stage on its own. |
| `CleanOut.StyleInsideScriptNotCaptured` | scripts/clean_out_from_scripts_tags.ts:23-30 | Scripts are removed before styles are captured. A single-line script block holding a style block, after any prefix in which no script match starts, is deleted with its style, so the style stage sees the prefix followed by the processed rest and the style never reaches the captured styles. |
| `Text.Search` | scripts/clean_out_from_scripts_tags.ts:32-38 | `search` with a literal gives -1 exactly when the literal does not occur, and otherwise its first index. |
| `CleanOut.CutMarker` | scripts/clean_out_from_scripts_tags.ts:32-36 | If the marker occurs, exactly its first 17-character occurrence is removed and the length drops by 17. If it is absent, the result is `s[..|s|-1] + s[16..]` (or `s[..|s|-1]` for texts shorter than 16). That differs from `s` for every non-empty text except one of exactly 17 characters, where it equals `s`. |
| `CleanOut.MarkerAbsentMangles` | scripts/clean_out_from_scripts_tags.ts:32-36 | Without the marker, a page of at least 18 characters comes out `2|s| - 17` long, so it differs from the input. |
| `CleanOut.InsertStyles` | scripts/clean_out_from_scripts_tags.ts:38-43 | The joined styles are inserted at one position. With `</head>` present, that position is immediately before its first occurrence. Without it, the position is before the last character. With no styles the stage is the identity. |
| `CleanOut.LastWith` | scripts/clean_out_from_scripts_tags.ts:46-52 | The backward loop finds the last token at or before the start index that contains the pattern, or reports that none does. |
| `CleanOut.OrphanTokens` | scripts/clean_out_from_scripts_tags.ts:46-52 | The backward scan edits only the last token that holds `</div>`, removing that token's first `</div>`. Every other token is kept and the count is unchanged. With no such token, the list is unchanged. |
| `CleanOut.RemoveOrphanDiv` | scripts/clean_out_from_scripts_tags.ts:44-54 | Either nothing changes, or exactly one `</div>` occurrence is cut. When some token holds `</div>`, the length drops by exactly 6. With no token holding it, the text is unchanged. The space-separated token count is preserved. |
| `CleanOut.OrphanDivTokens` | scripts/clean_out_from_scripts_tags.ts:44-54 | Re-splitting the joined result gives back exactly the edited token list, so no token is merged or split. That list is as long as the input's split. Without a `</div>`-holding token, the split/join round trip returns the input. |
| `CleanOut.OrphanDivSpan` | scripts/clean_out_from_scripts_tags.ts:44-54 | When some token holds `</div>`, the result is the input with one six-character `</div>` occurrence cut out. |
| `CleanOut.StylesBeforeHead` | scripts/clean_out_from_scripts_tags.ts:32-43 | When the first `</head>` ends at or before the first mount-point marker, cutting the marker and inserting the styles gives the text before `</head>`, the joined styles, the text from `</head>` up to the marker, and the text after the marker. |
| `CleanOut.CleanOutHeadBeforeMarker` | scripts/clean_out_from_scripts_tags.ts:13-54 | On any page whose processed text has `</head>` ending at or before the mount-point marker, the whole pipeline is the orphan-div stage applied to that text with the marker cut out and the captured styles placed right before `</head>`. |
| `Text.Slice` | scripts/clean_out_from_scripts_tags.ts:34-43 | `slice(start, end)` for any pair of indices: each index is resolved on its own (a negative one counts back from the end, and then it is clamped to `[0, len]`). The result is the text between the two resolved indices, or empty when the resolved end does not lie after the resolved start. The common in-range and negative cases, and the whole-text case `start <= -len`, `end >= len`, are also stated directly. |
| `Text.SliceFrom` | scripts/clean_out_from_scripts_tags.ts:36-43 | `slice(start)` is the suffix from `start`, from `len + start` for a negative `start`, the whole text below `-len`, and empty past the end. |
| `Text.ReplaceFirst` | scripts/clean_out_from_scripts_tags.ts:49 | `replace` with a string pattern replaces only the first occurrence, and the length changes accordingly. |
| `Text.JoinSplit` | scripts/clean_out_from_scripts_tags.ts:44-54 | Joining the space-split tokens with spaces gives back the text. |
| `Text.SplitJoin` | scripts/clean_out_from_scripts_tags.ts:44-54 | Splitting a join of space-free tokens gives back the tokens. |
| `CleanOut.CleanOutPlainText` | scripts/clean_out_from_scripts_tags.ts:13-54 | The whole pipeline on a page of 16 or more characters without `<` returns `s[..|s|-1] + s[16..]`. So a page with no markup is mangled unless it has exactly 17 characters, where it comes back unchanged. |
| `CleanOut.PlainTextStages` | scripts/clean_out_from_scripts_tags.ts:14-54 | On a text without `<`, the doctype, namespace, script and orphan-div stages return it unchanged. The style stage captures nothing. Every pattern they look for starts with `<`. |
| `GreedyScript.GreedyMatchAt` | scripts/clean_out_from_scripts_tags.tsx:14 | A match starts with `<script` and ends with a `</script>` that begins at least 8 characters later. It contains no line terminator. |
| `GreedyScript.MatchOnLine` | scripts/clean_out_from_scripts_tags.tsx:14 | On a line, a match starts at `j` exactly when a `<script` there has a `</script>` at least 8 characters later. It runs to the end of the line's last `</script>`. |
| `GreedyScript.StripLineByLine` | scripts/clean_out_from_scripts_tags.tsx:14 | The replace works line by line. The output splits at each line terminator exactly where the input did. |
| `GreedyScript.StripKeepsLineBreaks` | scripts/clean_out_from_scripts_tags.tsx:14 | No line terminator is ever removed, so the sequence of line breaks and the number of lines are preserved. |
| `GreedyScript.Strip` | scripts/clean_out_from_scripts_tags.tsx:14 | The output is a subsequence of the input. |
| `GreedyScript.NoOpenUnchanged` | scripts/clean_out_from_scripts_tags.tsx:14 | A text without `<script` is unchanged. Matching is case-sensitive, so `<SCRIPT` is left alone. |
| `GreedyScript.NoCloseNoMatch` | scripts/clean_out_from_scripts_tags.tsx:14 | A text without `</script>` is unchanged. |
| `GreedyScript.StripLineWithoutOpener` | scripts/clean_out_from_scripts_tags.tsx:14 | A line in which no `<script` has a `</script>` 8 or more characters later comes out unchanged. |
| `GreedyScript.StripLineCut` | scripts/clean_out_from_scripts_tags.tsx:14 | A line with an opener loses exactly one span, from its first opener to the end of its last `</script>`. No `</script>` remains after the cut. |
| `GreedyScript.StripFromOpener` | scripts/clean_out_from_scripts_tags.tsx:14 | The replace applied from any opener on the line leaves exactly the text after the line's last `</script>`, and that text holds no `</script>`. |
| `Document.Transform` | pages/_document.tsx:10-44 | A preload link becomes an empty fragment whatever its children. A non-preload element with truthy children keeps its type and props, and array children keep their count. A bare array becomes a fragment of the same length. Falsy nodes, text, booleans and elements without truthy children are returned unchanged. |
| `Document.TransformIsPositional` | pages/_document.tsx:20-41 | Array children and bare arrays are rewritten position by position: the i-th output is the rewrite of the i-th input. A single child is rewritten in place. |
| `Document.TransformRemovesPreloads` | pages/_document.tsx:10-44 | No preload link is reachable in the output through children or array entries. |
| `Document.TransformIdempotent` | pages/_document.tsx:10-44 | Rewriting an already rewritten head changes nothing. |
| `Document.TransformKeepsTruthy` | pages/_document.tsx:12-43 | The rewrite of a truthy node is truthy, so a rewritten child is rewritten again on a second pass. |
| `Document.StaticBody` | pages/_document.tsx:82-106 | The body always has `<Main />`. It has `<NextScript />` exactly when the page is not `/`. |
| `Layout.MergeStyle` | pages/index.tsx:44-49 | A merged style has the keys of both maps. The caller's value wins on every key it sets, and the default fills every other key. |
| `Layout.TableBody` | pages/index.tsx:51-109 | The body is `None` exactly when the array branch meets a `null` child. Otherwise it is a table section, or comes from the array branch. |
| `Layout.Table` | pages/index.tsx:35-120 | The result is a `<table>` whose body is the chosen body. `cellSpacing` and `cellPadding` default to 0 when falsy. The style is the zero margin, padding and border overridden key by key by the caller's style. Every remaining prop is spread last and wins. |
| `Layout.BodyRow` | pages/index.tsx:55-66 | An array entry is always a row or a style. Rows and styles pass unchanged, and only they do. Anything else becomes a row with no attributes holding a cell: the child itself when it is a `td` and `trs` is set, otherwise a new attribute-less `td` around it. |
| `Layout.WrapInTr` | pages/index.tsx:71-86 | The children come back unchanged, or inside one row carrying the `tr` attributes. They are wrapped exactly when `tr` is truthy and they are not a `tr` or `style` element. With a truthy `tr` the result is always a row or a style. |
| `Layout.TableArrayRows` | pages/index.tsx:52-69 | Array children with a falsy `tr` give one `tbody` with one entry per child, in order. `tr` and `style` children pass through unchanged. A `td` child is placed directly in a row only when `trs` is set. Any other child is wrapped in `tr > td`. |
| `Layout.TableScalarCell` | pages/index.tsx:88-100 | Missing, text, number and boolean children give exactly `tbody > tr > td(children)`. The row carries the `tr` attributes. |
| `Layout.TableSectionPassesThrough` | pages/index.tsx:102-106 | A lone `thead`, `tfoot` or `tbody` is returned without extra wrapping. |
| `Layout.TableWrapsOther` | pages/index.tsx:71-108 | Any other child goes into a `tbody`. A `tr` or `style` element goes in as is. Anything else gets one row when `tr` is truthy, so an array with a truthy `tr` becomes one row holding every entry. |
| `Layout.TableBodyStable` | pages/index.tsx:51-109 | A body that `Table` rendered, handed to another `Table` with any `tr` and `trs`, comes back unchanged. It is never wrapped twice. |
| `Layout.Tr` | pages/index.tsx:140-157 | The result is one row whose entries match the children one for one and in order. A `td` child is kept as is. Every other child is wrapped in a `td` carrying the shared `td` attributes. |
| `Layout.TrIdempotent` | pages/index.tsx:140-157 | Every entry of a `Tr` is a cell, so feeding its entries back into `Tr` changes nothing. |
| `Layout.Trs` | pages/index.tsx:122-138 | The result is a fragment with one row per child, in order. A `tr` child passes, a `td` child gets a row, and anything else gets `tr > td`. It is `None` exactly when a child is `null`. |
| `Layout.TrsIdempotent` | pages/index.tsx:122-138 | Every entry of a `Trs` is a row, so feeding its entries back into `Trs` changes nothing. |
| `Layout.ImageSrcRelativeGrows` | pages/index.tsx:169 | A non-empty `src` not starting with `http` gains `./`, even when it already starts with `./`. Applying the rule twice gives `././src`. |
| `Layout.Image` | pages/index.tsx:160-176 | `src` follows the rewrite rule, with an empty `src` becoming `''`. `alt` defaults to `''` and a caller's `alt` wins. The style is `maxWidth: 100%` overridden by the caller's style, and it wins over every prop. The attributes are exactly `src`, `alt`, `style` and the caller's props. |
| `Layout.Link` | pages/index.tsx:179-191 | The result is an `<a>` around the children. Its style is `textDecoration: none`, `color: inherit` and `fontSize: inherit`, overridden by the caller's style. The caller's props are kept. |
| `Layout.Paragraph` | pages/index.tsx:194-205 | The result is a `<p>` around the children. Its style is `margin: 0` and `padding: 0`, overridden by the caller's style. The caller's props are kept. |
| `Layout.DefaultStylesApply` | pages/index.tsx:179-205 | Without a caller style, `Link` and `Paragraph` carry exactly their default styles. |

## Left out

- File I/O and error handling are not modelled: path joining, the `readFile` callback, `writeFileSync`, and the `throw`/`catch`. The model runs from string in to string out.
- `replace` replacement patterns (`$&`, `$1`, …) are not modelled, because none of the replacement strings used contain `$`.
- Full regular-expression semantics are not modelled. Only the three concrete patterns are modelled, by dedicated matchers.
- JavaScript numbers as children are modelled as text. Number `0` is falsy in JavaScript but a text leaf is falsy only when empty, so a numeric `0` child is not distinguished.
- React keys are not modelled, because they do not change what is rendered. This covers `key={child?.key || index}` in `Table`, `Trs` and `Tr`.
- `Document.Transform`: `Head.render()`, `<Main />` and the `NODE_ENV` switch between the custom and the default document are framework behaviour. They are not modelled. The transform is modelled on any tree passed to it.
- `Document.StaticBody`: the other document children (the `<html>` shell and the `meta`/`link` head entries) are static markup with no logic, so they are not modelled.
- The page content components of `pages/index.tsx` (`EmailWrapper` and its CSS, the section components, `Home`) are not modelled. They are static markup.
- `Layout.Table`: `rest` is not constrained to exclude `style`, `cellSpacing` and `cellPadding`, which the source's destructuring removes from it. The default-value ensures are therefore stated only for a `rest` without those keys, and a `rest` holding one of them overrides the computed value.
- `CleanOut.CleanOut` (the composition) carries no contract of its own. Its whole-pipeline behaviour is stated by `CleanOut.CleanOutPlainText` for pages without markup and by `CleanOut.CleanOutHeadBeforeMarker` for pages whose `</head>` precedes the mount point. Pages where the marker comes first, or is absent, are covered stage by stage only.
- `CleanOut.ScriptBlockMatches`: stated only for the bare block `<script><style>` + css + `</style></script>` with a css free of `<` and line terminators. Attributes, other script content, or a `</script>` inside the style body are not covered; in the last case the lazy body stops at that inner `</script>`.
- `CleanOut.ScriptBlockRemoved`: stated only for the same bare block at the start of the text.
- `CleanOut.StyleInsideScriptNotCaptured`: stated for bare `<script>` and `<style>` tags without attributes and a style body free of `<` and line terminators. Other shapes follow from the same scan lemmas but are not stated.
- JavaScript strings are sequences of UTF-16 code units, while a Dafny `char` is a Unicode scalar value. On a page with characters outside the Basic Multilingual Plane, `slice(0, -1)`, `slice(16)` and the `+ 17` offset count surrogate halves in the source and whole characters in the model, so the missing-marker and missing-`</head>` cases can differ by a code unit. Such characters are not modelled.
- `pages/_app.tsx` and `next.config.js` are not part of this model. They are configuration with no logic.

# ixfx-highlight scanner, modelled in Dafny

ixfx-highlight is an editor extension. It is meant to highlight uses of two ixfx state managers, `state` and `settings`, in the open document:

- the manager's own aliases (`state`, `useState`, `updateState`, …), which `src/find.ts:4-5` exports as tables;
- the local variables destructured from it (`const { a, b } = state`).

As the code stands, neither kind reaches the editor. The one caller (`src/extension.ts:13-17`) is meant to pass the destructured names to `rangesMatching`, but it obtains them through `identifiersDestructuredFrom`, a name `src/find.ts` does not export. Nothing in the source uses the alias tables.

Its core is the lexical scanner in `src/find.ts`. This project models that scanner and proves what it computes.

The scanner rests on three JavaScript regular expressions. Two run with `matchAll`; the brace re-match runs with `String.prototype.match`, whose element 0 is its first match. Here each one becomes an explicit scanner over `string`:

- **Site regex** (`destructuringFrom`). `Destructuring.SiteAt` is its match at one offset. Each starred part of the regex is followed by a character outside its class, so a match is unique and needs no backtracking. `Destructuring.ScanSites` is the global scan: leftmost match first, then the scan resumes at the end of that match.
- **Brace re-match** (`\{.*\}`). `Destructuring.BraceMatch` models it. The greedy `.` stops at a line terminator.
- **Identifier regex** (`[a-zA-Z]([a-zA-Z]|\d)*`). `Identifier.Tokens` is its global scan.

The alternation that `concatOrRegex` builds from the identifiers is `Alternation.AlternationAt`, tried in list order; its global scan is `Alternation.ScanMatches`. `positionAt` is `Positions.PositionAt`: the line is the number of `'\n'` before the offset, the character is the distance from the last `'\n'`, and offsets past the end are clamped.

The two exported functions are imperative in the source, so they are methods with loops:

- `Find.VariablesDestructuredFrom` adds names to a set inside nested loops. Its inner loop is `Find.AddEach`.
- `Find.RangesMatching` pushes ranges onto a sequence and skips a match with `continue`.

Each method is proved equal to a specification function. The properties the source promises are then proved about that function: every result is a bound name and every bound name is a result; ranges are sound, ordered and complete.

The editor is replaced by its text; `getText()` is the only thing the code reads from it. `vscode.Range` and `vscode.Position` become the datatypes `Positions.Range` and `Positions.Position`.

The code behaves in these ways that its names and comments do not make obvious; the model follows the code:

- There is no guard for an empty identifier list. The empty alternation matches everywhere, so `RangesMatching` requires a non-empty list.
- A match at offset 0 is dropped, because `if (!match.index)` treats 0 as missing (see Findings).
- No caller passes the alias tables (`Managers.Aliases`) to `rangesMatching`, so the aliases are highlighted only where they coincide with a destructured name; `Managers.Aliases` models the tables as exported.
- The character after an identifier must come from the fixed list `: . , [ { ; (` or white space. Other non-word characters, such as `)`, `=` or `+`, do not end a match.
- Nothing is checked before an identifier, or after the manager name. `xstate.` and `= stateful` both match.
- A brace list that spans a line break contributes no names. The brace re-match `\{.*\}` cannot cross a line terminator, so it fails on such a site (`Find.LineBreakExample`), and variables destructured over several lines are never found.
- The ranges never overlap, even for identifiers that overlap in the text. The global scan resumes after each match, so an occurrence inside another identifier's match yields no range of its own (`Alternation.RangesOrdered`). With the identifiers `useState` and `State`, the text ` useState(` yields one range, for `useState`, and none for the `State` inside it.

## Model

| member | source | states |
|---|---|---|
| Find.VariablesDestructuredFrom | src/find.ts:18-31 | the returned set is exactly the names the text binds to destructurings of the manager (`BoundNames`): each is a token between the braces of a site whose braces sit on one line, and every such token is returned; it also equals the union over the scanned sites |
| Find.AddEach | src/find.ts:27 | adding each identifier of a site to the set yields the old set plus exactly those identifiers |
| Find.ScanBindsExactly | src/find.ts:21-27 | the names collected from the global site scan are exactly the names bound by some site anywhere in the text, in both directions |
| Find.NamesAreIdentifiers | src/find.ts:26-27 | every collected name has identifier shape: an ASCII letter, then letters or digits |
| Find.NoSiteNoNames | src/find.ts:19-30 | a text with no destructuring site of the manager yields the empty set |
| Find.SiteNamesOfSite | src/find.ts:23-27 | a site contributes the identifier tokens of its brace list when the list holds no line terminator, and nothing otherwise |
| Find.DestructuringExample | src/find.ts:13 | `const { a, b } = state` is matched as one site covering the whole statement |
| Find.DestructuringExampleNames | src/find.ts:23-27 | that site yields the names `a` and `b` |
| Find.RenamingExample | src/find.ts:13 | a renaming `const {a: b} = state` is not a site, so it contributes nothing |
| Find.LineBreakExample | src/find.ts:23-24 | `let {a,\nb} = state` is a site, yet the brace re-match fails on it and it contributes no names |
| Find.RangesMatching | src/find.ts:45-57 | the returned ranges are, in order, the editor ranges of the matches of the global alternation scan away from offset 0, from `match.index` to `match.index + match[0].length - 1`; through `Find.ToRanges`, range `i` is the editor range of emitted offset range `i` |
| Find.SiteNames | src/find.ts:23-27 | a site match whose brace re-match fails contributes no names; every name it contributes has identifier shape |
| Find.ToRange | src/find.ts:51-53 | the editor range of offsets in order has its start no later than its end |
| Find.ToRanges | src/find.ts:53 | one editor range per offset range, range `i` being the editor range of offset range `i` |
| Find.RangesOnOneLine | src/find.ts:51-53 | each range covers one of the identifiers exactly and lies on one line: its end is its start moved right by the identifier's length |
| Find.RangesInDocumentOrder | src/find.ts:48-54 | a later range starts no earlier in the document than an earlier range ends |
| Alternation.AlternationAt | src/find.ts:37-40 | when the alternation matches at an offset, the identifier it reports occurs there followed by a boundary character; `Alternation.AlternationAtIn` shows it is one of the identifiers, `Alternation.AlternationAtNone` that no identifier matches when it fails |
| Alternation.AlternationAtIn | src/find.ts:38 | the identifier the alternation reports is one of the list |
| Alternation.AlternationAtNone | src/find.ts:38 | when the alternation fails at an offset, no identifier of the list occurs there followed by a boundary character |
| Alternation.ScanMatches | src/find.ts:48 | every match of the global scan lies at or after the offset the scan starts from |
| Alternation.RangeOf | src/find.ts:51-52 | a match's range starts at `match.index` and ends at its boundary character, as many offsets later as the identifier is long |
| Alternation.EmittedRanges | src/find.ts:49-53 | at most one range per match, and no range starts at offset 0 |
| Alternation.RangesSound | src/find.ts:48-52 | every emitted offset range starts after offset 0; the text it covers is one of the identifiers; the character at its end exists and is a boundary character |
| Alternation.RangesOrdered | src/find.ts:48-54 | emitted ranges are disjoint and in strictly increasing order, each ending before the next starts |
| Alternation.RangesComplete | src/find.ts:48-50 | every offset where an identifier followed by a boundary occurs lies in an emitted range, unless it lies in a match at offset 0 |
| Alternation.AlternationIgnoresOrder | src/find.ts:37-40 | the alternation gives the same match at every offset whatever the order of the identifiers |
| Alternation.ScanIgnoresOrder | src/find.ts:37-48 | the global scan yields the same matches whatever the order of the identifiers |
| Alternation.AlternativesAgree | src/find.ts:38 | at most one identifier can match at an offset, since the boundary is never a letter or digit |
| Alternation.ScanCoversEveryMatch | src/find.ts:48-49 | the scan is complete and leftmost: every offset where the alternation matches starts a match of the scan or lies inside one |
| Alternation.ScanMatchesSound | src/find.ts:38-48 | every match of the scan is where the alternation matches, with the identifier it matches |
| Alternation.ScanInOrder | src/find.ts:48-49 | matches come in order, each starting after the boundary character of the one before |
| Alternation.EmittedRangesAre | src/find.ts:49-53 | the emitted ranges are exactly the ranges of the matches away from offset 0 |
| Alternation.OffsetZeroDropped | src/find.ts:50 | in `state.x` the identifier `state` matches at offset 0, yet no range is emitted |
| Alternation.AllRangesComplete | src/find.ts:48-53 | without the offset-0 exception, every occurrence of an identifier followed by a boundary lies in a range |
| Alternation.AllRangesSound | src/find.ts:51-52 | without the exception, every range still spans an identifier followed by a boundary |
| Destructuring.SiteAt | src/find.ts:13 | a site-regex match at an offset starts there and ends within the text; `Destructuring.SiteAtIsSite` and `Destructuring.SiteAtFindsEveryShape` tie it to the regex in both directions |
| Destructuring.ScanSites | src/find.ts:21 | every site of the global scan starts at or after the scan's start offset and ends after it starts, within the text |
| Destructuring.BraceMatch | src/find.ts:23 | a re-match of `\{.*\}` starts at a `{`, ends just after a `}`, and holds no line terminator |
| Destructuring.BraceMatchIsGreedy | src/find.ts:8 | the greedy `.*` ends the re-match at the last `}` before the line ends |
| Destructuring.SiteAtFindsEveryShape | src/find.ts:13 | whenever the text has the shape of the site regex at an offset, `SiteAt` finds exactly that match |
| Destructuring.SiteAtIsSite | src/find.ts:13 | what `SiteAt` finds has the shape of the site regex |
| Destructuring.ScanFindsEverySite | src/find.ts:21 | the global scan misses no site of a manager name without `l`, `c` or `v` |
| Destructuring.ScanSitesSound | src/find.ts:21 | every match of the global scan is the site-regex match at its start |
| Destructuring.NoSiteInside | src/find.ts:13 | no site starts strictly inside another, so the scan's resumption skips none |
| Destructuring.BraceMatchOfSite | src/find.ts:23-24 | re-matching `\{.*\}` in a site's text gives its brace list with both braces when the list holds no line terminator, and no match otherwise |
| Identifier.Tokens | src/find.ts:26 | every token of the global identifier scan has identifier shape |
| Identifier.TokensAreTokenSet | src/find.ts:26 | the global identifier scan yields exactly the tokens that start at a letter with no letter earlier in its letter-and-digit run and extend to the end of that run |
| Identifier.TokensExamples | src/find.ts:7 | `a_b` yields `a` and `b`; `1a2` yields `a2` |
| Managers.Aliases | src/find.ts:4-5 | each manager's alias table has three entries, the first being the manager's name, and is valid input to the alternation |
| Managers.AliasesFollowNaming | src/find.ts:4-5 | the second and third entries are `use` and `update` followed by the manager name with its first letter in upper case (the helper `Managers.Capitalized`, which has no counterpart in the source) |
| Managers.Name | src/shared-types.ts:3 | the manager names are `state` and `settings`, identifiers without `l`, `c` or `v` |
| Positions.PositionAt | src/find.ts:51-52 | line and character are bounded by the clamped offset |
| Positions.PositionAtCharacter | src/find.ts:51-52 | the character counts back from the offset to the start of its line: no `'\n'` in between, and a `'\n'` or the start of the text just before |
| Positions.PositionAtMonotone | src/find.ts:51-52 | positions follow the order of offsets |
| Positions.PositionAtSameLine | src/find.ts:51-52 | text without a line break stays on one line and advances the character by its length |
| Positions.PositionAtNewline | src/find.ts:51-52 | a line break moves to character 0 of the next line |

## Left out

- src/decorate.ts: it builds editor decoration styles and colour strings for a foreign API. It also reuses the light colours for the dark theme (src/decorate.ts:40-41).
- src/extension.ts: command registration and the per-manager loop are glue to the editor. It calls `find.identifiersDestructuredFrom` (src/extension.ts:15), which does not exist; the exported function is `variablesDestructuredFrom`. It also captures the active editor once, at activation (src/extension.ts:22).
- `dotAccessFrom` (src/find.ts:12): it is unused and marked TODO. It interpolates a RegExp object into a template string, so its pattern has no meaningful behaviour.
- The JavaScript regex engine itself. Each pattern is replaced by the deterministic scanner that computes its matches; the pattern strings are not built.
- Highlighting or dimming the whole document: no function of src/find.ts computes such a range, so none is modelled.
- Text is a sequence of code points. JavaScript offsets count UTF-16 code units, which differ for characters outside the Basic Multilingual Plane.
- `Positions.PositionAt`: counts only `'\n'` as a line break; the editor's handling of `\r\n` and of other line terminators is not modelled.
- `Find.RangesMatching`: requires a non-empty list of non-empty letter-and-digit identifiers. The source interpolates identifiers without escaping, and the empty list gives the empty regex, which matches at every offset; neither is modelled. The empty list is the usual case, not a rare one: the set of destructured names is empty for every document without a site of the manager. From reading the source, the empty regex would then yield, for each offset `i` from 1 to the text's length, a range between `positionAt(i - 1)` and `positionAt(i)`, one per character.
- `Find.RangesMatching`: takes the identifiers as a sequence. `Array.from` fixes an iteration order of the `Iterable`, and `Alternation.ScanIgnoresOrder` shows the order does not change the result.
- `Destructuring.ScanFindsEverySite`: proved only for manager names with no `l`, `c` or `v`. With such a name a site cannot start inside another site. Both real managers qualify, but a name like `xlet` could make the scan skip a site.
- The editor APIs `getText`, `positionAt` and `vscode.Range` are replaced by the text, a pure position function and a datatype.

## Findings

| source | as written | input that shows it | evidently intended | confidence | as-written member | corrected member |
|---|---|---|---|---|---|---|
| src/find.ts:50 | `if (!match.index) continue;` skips a match whose index is 0, since 0 is falsy | the text `state.x` with the `state` aliases: `state` matches at offset 0 and no range is emitted | the guard skips only a missing index, as its comment says, so a match at offset 0 yields a range | not executed | Alternation.OffsetZeroDropped | Alternation.AllRangesComplete |

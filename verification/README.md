# undertone template compiler, modelled in Dafny

undertone compiles HTML templates into custom-element definitions
(`window.customElements.define(...)`). Its compiler, `src/compiler.js`,
does the following:

- it resolves the template's directive blocks: `%each (b in xs): … %end`,
  and `%if (c): … %else: … %end`;
- it escapes backticks;
- it fills a fixed skeleton with each top-level element's parts: its
  lower-cased tag name, its base class, an `observedAttributes` getter
  built from the `observe` attribute, its inline scripts and its markup;
- it works out the line and column of script text, which the source-map
  path uses.

This project models that compiler as pure functions over `string` and
proves what they do.

Modules, from the bottom up:

- `Errors`: the thrown errors (`SyntaxError`, `ReferenceError`, `TypeError`)
  as a `Result`, and `Option`.
- `Text`: the JavaScript whitespace and line-terminator classes,
  `String.prototype.trim`, `indexOf`, ASCII lower-casing, concatenation of
  string lists.
- `Markers`: the regular expressions of `compile`.
  - The marker pattern `(%end)|(%\w+\s+.*?\s*:)` is modelled with its lazy,
    backtracking matches worked out.
  - The call pattern `%(\w+)\s+(?:\((.*?)\))?(?=\s*:)` reads a name and an
    optional parameter list.
- `Directives`: the two handlers, `cmd._each` and `cmd._if`, including the
  `%else` / `%else if (c):` scan of `_if`.
- `Resolver`: the block structure, in two forms.
  - `Nest` is a recursive reading of the nesting.
  - `RollUp`, `Flatten` and `Finish` are the compiler's own stack of
    `[level, text]` nodes.
  - The two are proved to agree.
- `Compiler`: `compile` itself. `Tokenize` is the marker scan; the method
  `Compile` runs the stack algorithm and is proved equal to `Compiled`.
- `Positions`: `disassemble`'s line split, and the line/column pair
  computed for a script's text.
- `Replace`: `String.prototype.replace` with a literal pattern, global and
  first-only, and `Weave`, a skeleton of fixed parts with slots.
- `Generator`: `generate` on the path without a source map.
  - It covers the backtick escape, the `observe` split and its
    `JSON.stringify`, and the placeholder substitution.
  - It also covers the script collection and the fold over the top-level
    elements.
- `Cases`: the directive examples of `tests/compiler.js`.

The model follows the code where it departs from the obvious reading:

- The opener's node is pushed at the current level, like the text before
  it. Only the nodes after it are one level deeper. The error for an
  unclosed block therefore names the outermost opener still open.
- An unknown directive throws `SyntaxError` with the directive's name, not
  the whole marker.
- A `%end` with no open block throws `SyntaxError("%end")`.
- The call pattern is searched for anywhere in the opener's text, and
  its parameter list is optional. So `%if :` calls `_if` with `undefined`
  as its condition, and `%foo x %if (c):` calls `_if` with `c`. An
  opener that holds no call, such as `%foo bar:`, is not dispatched. The
  opener, its body and the `%end` then stay in the output as written.
  That happens when:
  - the opener has no `%` besides its first character;
  - the next character after the name and its whitespace is neither `(`
    nor `:`.
- `cmd['_' + name]` also finds members `Object.prototype` inherits, such
  as `__proto__` and `__defineGetter__`. These are modelled as a
  `TypeError`, since they are not callable as handlers.
- `%each` with no parameters fails on `undefined.trim()`. `%if` with no
  parameters prints `undefined` as its condition.
- The line count `(scope.match(/^|\r?\n/g) || []).length` does not count a
  line feed at index 0. The zero-width `^` match takes that position.
- The column pattern `(?<=^|\r?\n).*?$` fails when the last line holds a
  lone carriage return or U+2028/U+2029. `[0]` of `null` then throws a
  `TypeError`, and so does `disassemble` when its line pattern matches
  nothing.
- The line pattern of `disassemble` splits only at `\n` and `\r\n`. Before a
  lone `\r` it drops text.
- `disassemble` can fail (see above).
- The snippet is overwritten for each element that has content. The name,
  class and attribute placeholders of the first such element therefore
  stay for good. The code is set again at every element.

## Model

| member | source | states |
|---|---|---|
| `Markers.LazyColon` | src/compiler.js:70 | the lazy `.*?\s*:` tail ends just after a colon, at or after where it starts |
| `Markers.MarkerAt` | src/compiler.js:70 | a marker match at `i` starts with `%`, spans at least four characters, and is an `%end` marker exactly when `%end` is written there |
| `Markers.FindMarker` | src/compiler.js:70 | the found marker is the leftmost one: it matches where it is found, and no position before it matches |
| `Markers.LazyClose` | src/compiler.js:85 | the lazy `\((.*?)\)` group closes at the first `)` followed by the colon, with no line terminator before it |
| `Markers.CallAt` | src/compiler.js:85 | a call has a non-empty `\w+` name, and its parameters hold no line terminator |
| `Markers.FindCall` | src/compiler.js:85 | the call pattern finds a call exactly when one matches at some position, and the one it returns matches there |
| `Markers.BlockCall` | src/compiler.js:85 | the parameters read from an opener hold no line terminator |
| `Markers.EndMarkerAt` | src/compiler.js:70 | `%end` in the text is read as an end marker four characters long |
| `Markers.OpenerMarker` | src/compiler.js:70 | `%name (params):` with a word name and one-line, colon-free parameters is read whole as an opener |
| `Markers.CallOfOpener` | src/compiler.js:85 | from `%name (params):` the call pattern reads back exactly `name` and `params` |
| `Markers.BareMarker` | src/compiler.js:70 | `%name text:` without parentheses is still read whole as an opener |
| `Markers.BareNoCall` | src/compiler.js:85-91 | `%name text:` names no call when `text` is one line, starts with neither `(` nor whitespace, and holds no `%` or `:` |
| `Markers.NoCallWithoutParens` | src/compiler.js:85 | a marker whose name is followed by something other than `(` or `:` yields no call |
| `Markers.FirstMarker` | src/compiler.js:70-71 | after plain text `c`, the first marker is the one right after `c` |
| `Markers.PlainNone` | src/compiler.js:70 | plain text holds no marker |
| `Markers.NoPercentPlain` | src/compiler.js:70 | text without `%` is plain |
| `Markers.PercentWordPlain` | src/compiler.js:70 | a `%word` followed by neither a space nor a word character is not a marker |
| `Directives.FirstIn` | src/compiler.js:35 | the search for the binding end returns the first position where `\s+in\s+` can follow a non-empty binding |
| `Directives.SourceStart` | src/compiler.js:35 | the iterated expression starts after the `in` and before the end of the text |
| `Directives.Each` | src/compiler.js:34-45 | `_each` fails exactly when the trimmed parameters have no `b in e` split, and then with `ReferenceError` of the untrimmed parameters; otherwise the output maps `e` with a function of the shortest binding `b` |
| `Directives.BindingUnique` | src/compiler.js:35 | the lazy binding capture ends at one position only |
| `Directives.EachAt` | src/compiler.js:34-43 | at the binding end `m`, `_each` gives the map expression of `t[..m]` over the rest after `in` |
| `Directives.EachRoundTrip` | src/compiler.js:34-43 | for a space-free binding and a trimmed expression, `_each("b in e", B)` gives the map expression of exactly `b` and `e` |
| `Directives.LineEnd` | src/compiler.js:56 | the end of a line is the first line terminator or the end of the text |
| `Directives.LastClose` | src/compiler.js:56 | the greedy `\((.+)\)` group closes at the last `)` that can close it |
| `Directives.ElseIfGroup` | src/compiler.js:56 | an `%else if` condition is non-empty, on one line, and closed by a `)` before the end |
| `Directives.ElseAt` | src/compiler.js:56 | an `%else` match spans at least six characters; a condition it captures is non-empty and on one line |
| `Directives.FindElse` | src/compiler.js:56 | the `%else` found is the leftmost match, and no position before it matches |
| `Directives.ElseMarkerAt` | src/compiler.js:56 | `%else:` is a final `%else` without a condition |
| `Directives.ElseIfAt` | src/compiler.js:56 | `%else if (c):` at the end of a line is an `%else` whose condition is `c` |
| `Directives.NoPercentNoElse` | src/compiler.js:56 | text without `%` holds no `%else` |
| `Directives.IfRestAt` | src/compiler.js:56-61 | each `%else` closes the trimmed branch before it, adds `c?` for a condition, and switches the empty fallback off for a bare `%else` |
| `Directives.IfPlain` | src/compiler.js:52-62 | without `%else` the output is the trimmed body followed by an empty final branch |
| `Directives.IfRestElse` | src/compiler.js:56-62 | `a%else:b` gives the branches `a` and `b`, both trimmed, with no empty fallback |
| `Directives.IfRestElseIf` | src/compiler.js:56-61 | `a%else if (c):` gives the trimmed branch `a`, then `c?`, then the rest |
| `Directives.IfRestChain` | src/compiler.js:56-62 | a chain of `%else if` arms and an optional final `%else` gives the conditions left to right, each branch trimmed |
| `Directives.IfChain` | src/compiler.js:52-63 | `_if(c, chain)` is `${c?` followed by the chained branches |
| `Resolver.Dispatch` | src/compiler.js:87-89 | a name other than `each`/`if` throws `SyntaxError(name)`, and every `SyntaxError` of a handler call names the directive; inherited property names fail with `TypeError` |
| `Resolver.Nest` | src/compiler.js:70-105 | a resolved block ends after its opener and within the segments; at top level resolution reaches the end and never stops unterminated |
| `Resolver.NestNested` | src/compiler.js:79-96 | a resolved block closes as many `%end` markers as it opens, plus its own, and never drops below its level |
| `Resolver.ResolvedIsBalanced` | src/compiler.js:79-105 | a successful resolution has as many `%end` markers as openers, and every prefix closes no more than it opens |
| `Resolver.NoEndStaysOpen` | src/compiler.js:100-105 | inside a block, with only openers left, resolution runs off the end unterminated |
| `Resolver.UnclosedOpener` | src/compiler.js:100-105 | an opener never closed throws `SyntaxError` with the opener's text |
| `Resolver.StrayEnd` | src/compiler.js:79-94 | an `%end` with no open block throws `SyntaxError("%end")` |
| `Resolver.OneBlock` | src/compiler.js:79-95 | one block gives the text before it, the handler's output, then the tail, or the handler's error |
| `Resolver.InnerFirst` | src/compiler.js:79-95 | the inner block is resolved first, and its output is spliced in order into the outer block's body |
| `Resolver.MissingEnd` | src/compiler.js:100-105 | two openers and one `%end` throw `SyntaxError` with the outer opener, once the inner block resolves |
| `Resolver.ExcessEnd` | src/compiler.js:79-94 | two openers and three `%end` markers throw `SyntaxError("%end")`, once both blocks resolve |
| `Resolver.Reduce` | src/compiler.js:85-91 | the reduction of an opener's block fails exactly when the handler fails, and its two texts together are the handler's output; an opener with no call keeps its text |
| `Resolver.PopStep` | src/compiler.js:79-93 | each pop shortens the stack while the texts still join to the block's body, until the opener takes the handler's output one level down |
| `Resolver.CloseOpener` | src/compiler.js:81-93 | at the opener, the stack becomes the block's resolution, with its last node one level down |
| `Resolver.RollUp` | src/compiler.js:79-95 | the `%end` loop leaves the stack as the block's resolution: the outer nodes with the handler's output appended |
| `Resolver.Flatten` | src/compiler.js:102-105 | the final loop joins the nodes when all are at level 0, and otherwise throws `SyntaxError` with the text before the first raised node |
| `Resolver.Finish` | src/compiler.js:100-105 | at the end of the input, with no open block the output is everything joined with the tail; otherwise `SyntaxError` with the outermost open opener |
| `Compiler.TokenizeRoundTrip` | src/compiler.js:70-98 | the segments and the tail of the marker scan spell the input back |
| `Compiler.UntokenizeRoundTrip` | src/compiler.js:70-98 | plain text between markers that the scanner reads whole scans back to the same segments |
| `Compiler.Compile` | src/compiler.js:66-107 | the stack algorithm computes `Compiled(html)`, the block reading of the scanned markers |
| `Compiler.NoMarkerUnchanged` | src/compiler.js:70-106 | text with no marker comes back unchanged |
| `Compiler.PlainUnchanged` | src/compiler.js:70-106 | plain text comes back unchanged |
| `Compiler.CompiledSegments` | src/compiler.js:66-107 | compiling written-out readable segments resolves those same segments |
| `Compiler.CompiledIsBalanced` | src/compiler.js:79-105 | compiled text has balanced markers that never close more than they open |
| `Compiler.LeadingEnd` | src/compiler.js:94 | an `%end` before any opener throws `SyntaxError("%end")` |
| `Compiler.OneBlockCompiled` | src/compiler.js:70-106 | `c%name (p):body%end d` compiles to `c`, the handler's output and `d`, or to the handler's error |
| `Compiler.UnknownDirective` | src/compiler.js:87-88 | an opener naming no handler throws `SyntaxError(name)` |
| `Compiler.KeptBlock` | src/compiler.js:85-93 | a block opened by `%name text:` is kept verbatim, `%end` included, when `text` is one line, starts with neither `(` nor whitespace, and holds no `%` or `:` |
| `Compiler.UnclosedCompiled` | src/compiler.js:100-105 | an opener with no `%end` throws `SyntaxError` with the opener's text |
| `Compiler.NestedCompiled` | src/compiler.js:79-106 | nested blocks resolve innermost first; the outer handler receives its text with the inner output in place |
| `Compiler.MissingEndCompiled` | src/compiler.js:100-105 | a missing `%end` after nested openers names the outer opener |
| `Compiler.ExcessEndCompiled` | src/compiler.js:79-94 | an extra `%end` after nested blocks throws `SyntaxError("%end")` |
| `Compiler.CloseBlock` | src/compiler.js:79-96 | an `%end` step either fails as the block reading does or moves the stack one level down in step with it |
| `Compiler.Advance` | src/compiler.js:71-98 | one scan step either fails as the block reading does or keeps the stack in step with it |
| `Cases.EachParams` | src/compiler.js:34-43 | `b in e` is valid parameter text and dispatches to the map expression of `b` and `e` |
| `Cases.EachBlock` | src/compiler.js:34-107 | an `%each (b in e):` block compiles to the map expression in place |
| `Cases.IfDispatch` | src/compiler.js:87-89 | `%if` dispatches to `_if` with its parameters as the condition |
| `Cases.IfBlock` | src/compiler.js:52-107 | an `%if` block with an optional `%else:` compiles to the ternary expression in place |
| `Cases.IfWithoutParams` | src/compiler.js:85-89 | `%if :`, with no parameter list, still calls `_if`, which prints `undefined` as the condition |
| `Cases.EachCase` | tests/compiler.js:105-112 | the `%each` example compiles to the expected map expression |
| `Cases.IfCase` | tests/compiler.js:113-119 | the `%if` example compiles to the ternary with the empty fallback |
| `Cases.IfElseCase` | tests/compiler.js:120-126 | the `%if`/`%else` example compiles to the two-branch ternary |
| `Cases.ExcessEndCase` | tests/compiler.js:127-136 | the excess-`%end` example throws `SyntaxError` |
| `Cases.MissingEndCase` | tests/compiler.js:137-146 | the missing-`%end` example throws `SyntaxError` |
| `Cases.TypoCase` | tests/compiler.js:147-155 | the misspelled directive throws `SyntaxError("eac")` |
| `Cases.ExcessEachIf` | src/compiler.js:79-94 | an `%each` around an `%if` followed by three `%end`s throws `SyntaxError("%end")` |
| `Cases.MissingEachIf` | src/compiler.js:100-105 | an `%each` around an `%if` with one `%end` throws `SyntaxError` with the `%each` opener |
| `Positions.LazyEnd` | src/compiler.js:129 | the lazy line match ends at or after its start, and advances whenever text is left |
| `Positions.LazyEndSafe` | src/compiler.js:129 | in text without lone line terminators a line runs to just past the next line feed, or to the end |
| `Positions.LineMatchesSafe` | src/compiler.js:129 | the line matches from a line start spell the rest of the text and are shaped as lines |
| `Positions.LinesSpell` | src/compiler.js:129 | the lines join back to the text; all but the last end in a line feed, and the last holds none |
| `Positions.LinesCount` | src/compiler.js:129 | there is one line more than there are line feeds |
| `Positions.LoneReturnDropsText` | src/compiler.js:129 | a lone carriage return loses the text before the next line start |
| `Positions.LoneReturnNoMatch` | src/compiler.js:129 | a lone carriage return with no line feed after it leaves no match |
| `Positions.Disassemble` | src/compiler.js:127-143 | the nodes carry the lines in order, the file name, line `pos.line + k`, and column `pos.col` for the first and 0 after; a `TypeError` exactly when nothing matches |
| `Positions.DisassembleSpells` | src/compiler.js:127-143 | the chunks join back to the source, one per line, each but the last ending in a line feed |
| `Positions.BreakMatchesCount` | src/compiler.js:211 | past the start, each line feed is one match of the line-break pattern |
| `Positions.LineCountSpec` | src/compiler.js:211 | the line is one more than the line feeds before the script, minus a line feed at index 0 |
| `Positions.LeadingBreakUncounted` | src/compiler.js:211 | a prefix of a single line feed counts one line, not two |
| `Positions.LastBreakBefore` | src/compiler.js:212 | the start of the last line follows the last line feed, with no line feed after it |
| `Text.Utf16Length` | src/compiler.js:212 | a string's `length` lies between its number of characters and twice that |
| `Text.Utf16Append` | src/compiler.js:212 | the `length` of a concatenation is the sum of the lengths |
| `Text.Utf16Plain` | src/compiler.js:212 | text without astral characters has one code unit per character |
| `Text.Utf16Astral` | src/compiler.js:212 | a character outside the Basic Multilingual Plane takes two code units |
| `Positions.LastLineFrom` | src/compiler.js:212 | a column match starts inside the text |
| `Positions.ColumnSpec` | src/compiler.js:212 | the column is the `length`, in UTF-16 code units, of the text after the last line feed; it fails exactly when that text holds a line terminator |
| `Positions.ColumnOneLine` | src/compiler.js:212 | on a single line the column is the line's length in code units |
| `Positions.AstralColumnCase` | src/compiler.js:212 | an emoji counts two columns: after it and `<script>` the column is 10 |
| `Positions.BeforeSpec` | src/compiler.js:209 | the scope is the text before the first occurrence of the script, or empty when there is none |
| `Positions.SpanPositionSpec` | src/compiler.js:209-213 | the position succeeds exactly when the last line is clean; its line is as `LineCountSpec` says and its column is the code-unit length of the last line; failures are `TypeError` |
| `Replace.ReplaceAllInert` | src/compiler.js:191-201 | the global replacement passes over text with no `%` and over other placeholders |
| `Replace.ReplaceAllToken` | src/compiler.js:191-201 | an occurrence at the front is replaced, and the scan goes on after it |
| `Replace.ReplaceFirstInert` | src/compiler.js:260-261 | the first-only replacement passes over inert text in front |
| `Replace.ReplaceFirstToken` | src/compiler.js:260-261 | the first-only replacement replaces an occurrence at the front and keeps the rest as it is |
| `Replace.ReplaceAllIdle` | src/compiler.js:191-201 | text without `%` has nothing to replace |
| `Replace.WeaveIdle` | src/compiler.js:191-201 | a skeleton without the placeholder is left as it is |
| `Replace.WeaveReplaceAll` | src/compiler.js:188-201 | replacing the placeholder of one slot fills that slot and changes nothing else |
| `Replace.WeaveReplaceFirst` | src/compiler.js:258-262 | with inert text before it, the first occurrence fills its slot and changes nothing else |
| `Generator.EscapeRoundTrip` | src/compiler.js:169 | unescaping the escaped template gives it back |
| `Generator.EscapeLength` | src/compiler.js:169 | escaping adds one character per backtick |
| `Generator.EscapeGuards` | src/compiler.js:169 | every backtick of the result follows a backslash |
| `Generator.SeparatorAt` | src/compiler.js:198 | a match of the separator pattern (a comma and spaces, or spaces) advances and stays in the text |
| `Generator.SplitNames` | src/compiler.js:198 | the pieces of the split hold no comma and no whitespace |
| `Generator.SplitJoin` | src/compiler.js:198 | names joined by any separator split back to the same names |
| `Generator.HexValue` | src/compiler.js:198 | a hexadecimal digit's value is below 16 |
| `Generator.HexDigitValue` | src/compiler.js:198 | a written hexadecimal digit reads back as its value |
| `Generator.ParseQuoteChar` | src/compiler.js:198 | each character as `JSON.stringify` quotes it reads back as that character |
| `Generator.ParseQuoted` | src/compiler.js:198 | a quoted string reads back up to its closing quote |
| `Generator.ParseQuotedItems` | src/compiler.js:198 | the items of a JSON list read back in order |
| `Generator.JsonRoundTrip` | src/compiler.js:198 | the JSON list of any strings parses back to those strings |
| `Generator.ClassName` | src/compiler.js:192 | the base class is never empty |
| `Generator.SkeletonText` | src/compiler.js:149-161 | the skeleton with its slots filled is the custom-element definition spelled out, with the literal `true`/`false` of `!!options.scoped` |
| `Generator.PlaceholdersDistinct` | src/compiler.js:149-161 | the five placeholders are `%`-words with distinct first letters |
| `Generator.FillHeadSlots` | src/compiler.js:188-201 | the three global replacements put the name, class and getter into their slots and leave `%JS` and `%HTML` |
| `Generator.FillBodySlots` | src/compiler.js:258-262 | the two first-only replacements put the markup and the scripts into their slots |
| `Generator.AttrTextSpec` | src/compiler.js:163-167 | a non-empty `observe` gives the getter returning the JSON list of its split |
| `Generator.AttrTextUnmarked` | src/compiler.js:193-200 | the getter text holds no `%` when `observe` holds none |
| `Generator.TrimEnd` | src/compiler.js:182 | the trimmed body is a prefix, only whitespace is cut, and it does not end in whitespace |
| `Generator.ScriptEntries` | src/compiler.js:204-216 | every collected script is non-empty and sits at the line and column its entry records |
| `Generator.ScriptEntriesOk` | src/compiler.js:204-216 | collecting fails exactly when some script's position cannot be computed |
| `Generator.ScriptsConcatenate` | src/compiler.js:204-216 | the JS slot holds the trimmed scripts in order, the empty ones adding nothing |
| `Generator.RenderIdle` | src/compiler.js:181-183 | elements without content leave the code as it is |
| `Generator.RenderOne` | src/compiler.js:181-262 | with one element with content, the code is the snippet with its head filled from that element, then its markup and scripts |
| `Generator.RenderFails` | src/compiler.js:209-213 | an element with content whose script position fails makes the generation fail |
| `Generator.RenderSkeleton` | src/compiler.js:149-262 | with one element with content, the code is the skeleton filled with that element's parts |
| `Generator.GenerateEmpty` | src/compiler.js:146-148 | a missing, empty or blank template gives empty code |
| `Generator.GenerateCompileError` | src/compiler.js:169-178 | a directive error of the escaped template makes the generation throw it |
| `Generator.GenerateNoContent` | src/compiler.js:181-183 | a template whose elements all have blank bodies gives empty code |
| `Generator.GenerateOne` | src/compiler.js:146-262 | a template with one element with content gives the skeleton filled with its lower-cased tag, the class, the getter, the trimmed scripts and the rendered markup |
| `Generator.ObserveSplitCase` | tests/compiler.js:98-104 | `height, width` splits into `height` and `width` |
| `Generator.JsonPairCase` | tests/compiler.js:98-104 | two lower-case names are listed as `["a","b"]` |
| `Generator.ObserveCase` | tests/compiler.js:98-104 | `observe="height, width"` gives the getter returning `["height","width"]` |

## Left out

- `%else if (c):` written inside a template never reaches `_if` through
  `compile`. The marker pattern already reads it as a block opener, so
  `compile` fails or keeps it. Else-if chains are proved of `_if` alone,
  in `Directives.IfRestChain` and `Directives.IfChain`.
- Replacement strings are inserted literally. The `$$`, `$&`, `` $` `` and
  `$'` patterns of `String.prototype.replace` are not expanded. For
  example, a script `$$('a')` comes out of the source as `$('a')`, and
  out of the model unchanged.
- The DOM (jsdom) is left out:
  - the template element and `innerHTML`;
  - `children` and `querySelectorAll('script:not([src])')`;
  - `script.remove()`.

  `generate` takes a `parse` function parameter that turns the compiled
  markup into `Element` records, each holding a tag, `observe`, the inner
  text, the scripts' text and the rendered markup.
- The source-map path, taken when `options.filename` is set, is left out:
  `SourceNode`, `setSourceContent`, `toStringWithSourceMap` and the JSON
  parse of the map. They belong to the `source-map` library. This model
  keeps only the positions and line splits that path hands it.
- The UMD loader wrapper, `src/undertone.js` and `src/cli.js` are left
  out. They are environment plumbing, DOM side effects and file I/O.
- Output for several elements with content is modelled by `Render`, but
  no lemma states it. The source takes the name, class and attributes
  from the first such element and the markup and scripts from the last.
- `Text.Lower`: `toLowerCase` is modelled for ASCII letters only.
- `Text.IsSpace` follows the whitespace and line-terminator sets of
  ECMAScript. Strings are sequences of Unicode scalar values, so lone
  surrogates cannot occur. Columns are counted in UTF-16 code units, as `length`
  counts them. The other indices, from `indexOf` and `substring`, only
  cut text, and there characters and code units give the same pieces.
- `Generator.ParseList`: `JSON.parse` is modelled only for arrays of
  strings without whitespace, which is the form `JSON.stringify` writes.
- `Generator.GenerateOne`: stated for exactly one element with content.
  It also requires that the tag, the class and `observe` hold no `%`, so
  that no substitution creates a placeholder.
- `Generator.RenderSkeleton`: the same hypotheses as `GenerateOne`.
- `Positions.LinesSpell`: the line split is proved to spell the text only
  when the text has no lone carriage return and no U+2028/U+2029. The
  behaviour with them is shown by `LoneReturnDropsText` and
  `LoneReturnNoMatch`.
- `Positions.DisassembleSpells`: the same restriction as `LinesSpell`.
- `Resolver.Dispatch`: the inherited `Object.prototype` members give a
  `TypeError` whose message is not the engine's exact text.

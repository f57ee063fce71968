# markdown2text, modelled in Dafny

`markdown2text.py` turns Markdown into plain text. Its core is
`convert_markdown_to_text`, which does the following:

- It unwraps JSON-like input of the form `"key": "value"`.
- It then runs sixteen fixed removal steps, in order:
  1. fenced code blocks;
  2. inline code;
  3. hash and underline (setext) headers;
  4. emphasis;
  5. reference links and their definitions;
  6. images and links;
  7. task lists;
  8. bullet and numbered lists;
  9. backslash escapes, in two rounds;
  10. blockquotes;
  11. horizontal rules;
  12. table separator rows;
  13. HTML tags;
  14. strikethrough;
  15. footnote references and definitions;
  16. whitespace clean-up.
- Each step records what it removes in a `StrippedContentLogger`. The logger is a
  dictionary from a category name to the list of removed fragments, kept in the order the
  categories were first used. It records only when it is enabled and the fragment is not
  blank.

The model has these parts:

- **Logger.** `StrippedContentLogger` is a class with a `sections` field and a `Log`
  method. The dictionary it holds is the value `Sections`: a key order plus a map. A
  sequence of `log` calls is described by the function `Replay`.
- **Regular expressions.** Every regular expression the converter uses is written out as a
  matcher at one position (`Patterns.MatchAt`). One leftmost, non-overlapping scan
  (`Patterns.ScanFrom`) serves both `re.findall` and `re.sub`. A match is cut into three
  parts: the text before the kept group, the kept group, and the text after it. The
  rewrite keeps the group. What is logged depends on the step:
  - most steps log the whole match;
  - hash headers log the match of a wider pattern, which runs to the end of the line;
  - reference links log their text inside `[...][]`, without the reference;
  - list items log the part of the match before the kept text;
  - the image and link loop logs the line's first match once per match.
- **Steps that are one `findall` and one `sub` over the whole text.** These are pure
  functions returning a `Pass`: the new text plus the ledger entries logged, in order.
- **Steps that loop in the source.** These are methods over a logger, with loop
  invariants:
  - the code-block scan;
  - the underline-header loop;
  - the per-line loops for emphasis, links, blockquotes and HTML;
  - the line filters for rules and tables;
  - the two escape rounds.

  Each method is proved against a specification function. It ensures that its result is
  that function's text. It also ensures that the logger's new `sections` is the old one
  with that function's entries replayed.
- **The whole conversion.** `Pipeline.ConvertMarkdownToText` chains all the steps against
  one logger. It is proved equal to the function `Pipeline.Convert`.

The code-block scan is a two-state machine. It is proved against an independent
reference, `CodeBlocks.Segments`. The reference cuts the lines into three kinds of
segment:

- a prose line;
- a closed block, from an opening fence to the next fence;
- an unclosed block, from an opening fence to the end of the text.

The output renders each block as `[CODE BLOCK]`. The ledger gets one entry per block. The
warning names the line of the fence left open.

Two behaviours of the source are kept as written:

- The image and link loop logs a line's first match once for every match, because the
  source calls `re.search` on the unchanged line.
- The JSON unwrap strips every quote off the end of the value. A value ending in an
  escaped quote therefore loses that quote and keeps its backslash.

Both are stated as lemmas, in `Links.FirstImageLoggedTwice` and `Json.TrailingQuoteLost`.

## Model

| member | source | states |
|---|---|---|
| Ledger.StrippedContentLogger.constructor | markdown2text.py:39-47 | a new logger has the given `enabled` flag and an empty dictionary |
| Ledger.StrippedContentLogger.Log | markdown2text.py:49-66 | the dictionary afterwards is `Logged(...)`: unchanged when the logger is disabled or the content strips to nothing; otherwise the content is appended to its category's list, and a category used for the first time is created at the end of the key order |
| Ledger.LoggedAppendsOnlyWhenRecorded | markdown2text.py:61-66 | one `log` call appends exactly its content to its own category when it records, and leaves every other category as it was |
| Ledger.LoggedWellFormed | markdown2text.py:64-66 | `log` keeps the dictionary well formed (each key once in the order, the order's keys are the map's keys, no empty list) and only extends the key order |
| Ledger.ReplayGet | markdown2text.py:49-66 | after any run of `log` calls, each category holds its old list followed by exactly the recorded contents logged under it, in order |
| Ledger.ReplayWellFormed | markdown2text.py:64-66 | any run of `log` calls keeps the dictionary well formed, and categories keep their first-seen order |
| Ledger.ReplayDisabled | markdown2text.py:61-62 | a disabled logger never changes, whatever is logged |
| Ledger.ReplayConcat | markdown2text.py:49-66 | logging one list of entries and then another is logging their concatenation |
| Ledger.LogEach | markdown2text.py:327-328 | a `for match in matches: logger.log(...)` loop leaves the dictionary as `Replay` of those entries |
| Patterns.InlineCodeAt | markdown2text.py:326 | a match of `` `([^`\n]+)` `` found at a position lies inside the text, is non-empty and keeps a slice of itself |
| Patterns.DelimitedAt | markdown2text.py:182-209 | a match of a delimited emphasis or strikethrough span lies inside the text, is non-empty and keeps a slice of itself |
| Patterns.HashHeaderAt | markdown2text.py:334-337 | a match of `^#{1,6}\s+` (or of the logged `^(#{1,6}\s+.*)$`) lies inside the text and is non-empty |
| Patterns.ReferenceDefinitionAt | markdown2text.py:373-376 | a match of a `[label]: target` line lies inside the text and is non-empty |
| Patterns.ReferenceLinkAt | markdown2text.py:379-382 | a match of `[text][ref]` lies inside the text, is non-empty and keeps its text |
| Patterns.LabelTargetAt | markdown2text.py:394-405 | a match of `[label](target)` lies inside the text, is non-empty and keeps its label |
| Patterns.ImageAt | markdown2text.py:394-398 | a match of `![alt](url)` lies inside the text, is non-empty and keeps a slice of itself |
| Patterns.LinkAt | markdown2text.py:401-405 | a match of `[text](url)` lies inside the text, is non-empty and keeps a slice of itself |
| Patterns.ContentToLineEnd | markdown2text.py:414-432 | a list item's `(.+)` is kept; it starts at the last non-newline position the preceding `\s*` or `\s+` can give back, holds no newline, is non-empty, and ends at a newline or the end of the text; when no position qualifies there is no match |
| Patterns.TaskItemAt | markdown2text.py:414-417 | a match of a task-list item lies inside the text and keeps a slice of itself |
| Patterns.BulletItemAt | markdown2text.py:423-426 | a match of a bullet item lies inside the text and keeps a slice of itself |
| Patterns.NumberedItemAt | markdown2text.py:429-432 | a match of a numbered item lies inside the text and keeps a slice of itself |
| Patterns.EscapeAt | markdown2text.py:446 | a match of a backslash escape lies inside the text and keeps a slice of itself |
| Patterns.HtmlTagAt | markdown2text.py:487-490 | a match of `<[^>\n]{0,125}>` lies inside the text and is non-empty |
| Patterns.FootnoteReferenceAt | markdown2text.py:506-509 | a match of `[^ref]` not followed by `:` lies inside the text and is non-empty |
| Patterns.FootnoteDefinitionAt | markdown2text.py:512-515 | a match of a `[^ref]: text` line lies inside the text and is non-empty |
| Patterns.BlankRunAt | markdown2text.py:521-526 | a match of `\n{3,}` lies inside the text, is non-empty and keeps a slice of itself |
| Patterns.MatchAt | markdown2text.py:326-526 | whatever the pattern, a match at `i` is non-empty, lies inside the text, and keeps a contiguous slice of itself |
| Patterns.PieceAt | markdown2text.py:329 | the piece the scan takes at `i` covers exactly the text from `i` to where the scan resumes, and is a match exactly when the pattern matches at `i` |
| Patterns.NextAt | markdown2text.py:329 | the scan always moves forward, and never past the end of the text |
| Patterns.ScanStep | markdown2text.py:329 | the scan from `i` is the piece at `i` followed by the scan from where that piece ends |
| Patterns.MatchLog | markdown2text.py:327-328 | the log holds one entry per match, in order, each holding the whole matched text |
| Patterns.ScanLossless | markdown2text.py:329 | the pieces of a scan put back together are the scanned text |
| Patterns.CutsHold | markdown2text.py:327-329 | a property of every match the scan can take at any position holds of every match `findall` reports |
| Patterns.NoMatchNoChange | markdown2text.py:329 | where no match starts, `re.sub` changes nothing and `findall` finds nothing |
| Patterns.RewrittenWithin | markdown2text.py:329 | a rewrite never lengthens the text and never introduces a character that was not in it |
| Patterns.SubKeepsOut | markdown2text.py:329 | a character absent from the input is absent from the output of `re.sub` |
| Patterns.MatchWithinLine | markdown2text.py:326 | a match of a pattern whose classes exclude `\n` contains no newline |
| Patterns.LineLocalStaysInLine | markdown2text.py:497 | such a pattern's matcher never takes a newline into a match |
| Patterns.LineLocalKeepsNewlines | markdown2text.py:497-500 | rewriting with such a pattern keeps the number of newlines, hence of lines |
| Patterns.DelimitedErasesOnlyMarks | markdown2text.py:497-500 | removing delimited spans deletes delimiter characters and nothing else |
| Patterns.DelimitedNeedsMark | markdown2text.py:497-500 | a text without the delimiter comes through a delimited rewrite verbatim and logs nothing |
| Lines.MappedLines | markdown2text.py:177-213 | one rewritten line per input line: line `k` of the result is line `k` rewritten |
| Lines.MapPassLines | markdown2text.py:390-409 | when the rewriter never introduces a newline, splitting the joined result gives back exactly the rewritten lines, as many as the input had |
| Lines.MapPassIdentity | markdown2text.py:453-461 | when every line is left alone, the text comes through verbatim |
| Lines.RewriteLines | markdown2text.py:486-492 | the per-line loop returns the lines rewritten and joined, and logs each line's entries in line order |
| Lines.FilterConcat | markdown2text.py:469-474 | filtering distributes over concatenation, so kept and dropped lines each keep their relative order |
| Lines.FilterPartition | markdown2text.py:469-474 | every kept line fails the test, every dropped line passes it, and together they are the input lines (as a multiset) |
| Lines.FilterLogged | markdown2text.py:469-474 | an entry is logged exactly when it is under the filter's category and holds a line the test picks out; entries and kept lines together number the lines |
| Lines.DroppedExactly | markdown2text.py:469-474 | a line is dropped exactly when it is one of the lines and the test picks it out |
| Lines.FilterKeepsAll | markdown2text.py:469-474 | where the test picks no line, every line is kept verbatim and nothing is logged |
| Lines.DropLines | markdown2text.py:466-474 | the filter loop returns the kept lines joined, and logs every dropped line in order |
| CodeBlocks.NextFence | markdown2text.py:125 | the fence found is at or after the start, inside the text, and is a fence line |
| CodeBlocks.NextFenceRun | markdown2text.py:125-142 | no line before the fence found (or before the end, when none is found) is a fence |
| CodeBlocks.Render | markdown2text.py:131 | the output has one line per segment |
| CodeBlocks.FlattenSegments | markdown2text.py:118-144 | the segments together cover exactly the text's lines, in order, none lost or repeated |
| CodeBlocks.SegmentsShape | markdown2text.py:124-144 | each prose line is no fence; each block starts at its recorded line with a fence, holds no fence inside, and ends with a fence exactly when closed; only the last segment can be an unclosed block |
| CodeBlocks.NoFenceUnchanged | markdown2text.py:144 | a text without a fence line comes through verbatim and logs nothing |
| CodeBlocks.RunToClose | markdown2text.py:132-142 | inside a block, the scan reads to the next fence, logs the block with that fence under `code_blocks`, and leaves block mode |
| CodeBlocks.RunToEnd | markdown2text.py:140-142 | inside a block with no fence left, the scan takes the rest of the text into the block |
| CodeBlocks.RunOutside | markdown2text.py:124-151 | from any state outside a block, the scan produces the rendered segments, one log entry per block, and the warning of the reference |
| CodeBlocks.ScanMatchesSegments | markdown2text.py:118-152 | the two-state scan agrees with the segment reference: output, entries and unclosed-block warning |
| CodeBlocks.RemoveCodeBlocks | markdown2text.py:99-152 | the method returns the rendered segments joined, logs closed blocks under `code_blocks` and a final open one under `code_blocks_unclosed`, and returns the 1-based line of an unclosed fence as the warning |
| Document.LineLocalKeepsLines | markdown2text.py:326-329 | a pass whose matches stay within a line keeps the number of lines |
| Document.InlinePassesKeepLines | markdown2text.py:326-509 | inline code, strikethrough and footnote references never join or split lines |
| Document.StrikethroughErasesOnlyTildes | markdown2text.py:496-500 | strikethrough removal deletes `~` and nothing else; text without `~` comes through verbatim and logs nothing |
| Document.InlineCodePiece | markdown2text.py:329 | an inline-code match loses its two backticks and keeps what is between them |
| Document.InlineCodeErasesOnlyBackticks | markdown2text.py:326-329 | inline-code removal deletes backticks and nothing else |
| Document.ListItemSplits | markdown2text.py:423-432 | a list match is the logged marker followed by the kept item text, which is non-empty |
| Document.ListEntries | markdown2text.py:423-432 | each list pass logs one entry per item, holding the part of the match before the kept text; that part followed by the kept text is the whole match, and the kept text is not empty |
| Document.HashHeaderMatch | markdown2text.py:334-337 | a header match starts a line with one to six `#` followed by its whole whitespace run (which may cross the line's end), and all of it is deleted; the logging pattern matches at the same place, and what it logs runs on to the end of a line |
| Document.NoHashUnchanged | markdown2text.py:334-337 | a text without `#` comes through the header pass verbatim and logs nothing |
| Document.ReferenceDefinitionMatch | markdown2text.py:373-376 | a definition match starts a line with `[`, a label of one or more characters other than `]`, then `]:`, and ends at a newline or the end of the text; all of it is deleted and logged |
| Document.DefinitionTakesNextLine | markdown2text.py:373-376 | `[a]:` with nothing after the colon takes the next line with it: `[a]:\nfoo\nbar` becomes `\nbar` and logs `[a]:\nfoo` |
| Document.ReferenceLinkMatch | markdown2text.py:379-382 | a reference link match is `[`, a label of one or more characters other than `]`, `][`, a reference without `]`, and `]`; only the label is kept |
| Document.ReferenceLinkEntries | markdown2text.py:379-382 | every reference link found has that shape, keeps its label, and is logged as the label inside `[...][]` |
| Document.TaskItemMatch | markdown2text.py:413-417 | a task match starts a line: optional whitespace, `-`, `*` or `+`, whitespace, `[ ]`, `[x]` or `[X]`, optional whitespace, then non-empty text without a newline up to the end of a line; only that text is kept and the whole match is logged |
| Document.FootnoteDefinitionMatch | markdown2text.py:512-515 | a footnote definition match starts a line with `[^`, a label of one or more characters other than `]`, then `]:`, and ends at the end of a line with non-empty text before it; all of it is deleted and logged |
| Document.NoBracketNoChange | markdown2text.py:373-515 | a text without `[` comes through the reference-definition, reference-link, task-list and footnote-definition passes verbatim, and they log nothing |
| Setext.RemoveUnderlines | markdown2text.py:341-362 | the loop keeps every line but the underlines it drops, and logs each dropped underline, in order |
| Setext.HeaderKept | markdown2text.py:346-356 | the first line is always kept; a dropped line is an underline whose line above is kept |
| Setext.UnderlineRun | markdown2text.py:347-356 | in a run of underlines under a kept line, every other one is dropped: the first, third, and so on |
| Setext.DroppedAreUnderlines | markdown2text.py:354 | only lines of `=` or `-` (then whitespace) are ever dropped |
| Setext.SetextPartition | markdown2text.py:346-360 | kept and dropped lines together are the input lines |
| Setext.KeptOutnumbersDropped | markdown2text.py:346-360 | at least as many lines are kept as dropped, and a non-empty text keeps a line |
| Setext.NoUnderlineUnchanged | markdown2text.py:352-360 | a text without underlines comes through verbatim and logs nothing |
| Emphasis.SafeRemoveEmphasis | markdown2text.py:155-213 | the loop returns each line with its five emphasis rounds applied, and logs every round's matches in line order |
| Emphasis.StagesErase | markdown2text.py:181-209 | delimited rounds delete only their markers, never add a character, never lengthen the text |
| Emphasis.StagesWithoutMarks | markdown2text.py:181-209 | rounds over marks absent from the text change nothing and log nothing |
| Emphasis.EmphasisStagesDelimited | markdown2text.py:181-209 | every one of the five rounds is a span delimited by `*` or `_` |
| Emphasis.EmphasisErasesOnlyMarkers | markdown2text.py:177-211 | emphasis removal on a line deletes `*` and `_` and nothing else, and never adds a newline |
| Emphasis.EmphasisWithoutMarkers | markdown2text.py:177-211 | a line without `*` and `_` comes through verbatim and logs nothing |
| Emphasis.EmphasisKeepsLine | markdown2text.py:211 | emphasis removal never introduces a newline into a line |
| Emphasis.EmphasisLines | markdown2text.py:174-213 | the result has as many lines as the input, and line `k` is line `k` with its emphasis removed |
| Links.FirstImageLoggedTwice | markdown2text.py:394-398 | the line `![a](x)![b](y)` becomes `ab` and logs `![a](x)` twice under `images`: the first image is logged once per match |
| Links.RemoveLinksAndImages | markdown2text.py:385-409 | the loop returns each line with images, then links, replaced by their text, and logs them in line order |
| Links.BracketStartsMatch | markdown2text.py:394-405 | an image match starts with `![`, a link match with `[` |
| Links.NoBracketUnchanged | markdown2text.py:390-407 | a line without `[` comes through verbatim and logs nothing |
| Links.LinkLineBounds | markdown2text.py:398-405 | the rewrite never lengthens a line nor introduces a newline |
| Links.LinkKeepsLine | markdown2text.py:390-409 | the pass yields one line per line |
| Escapes.ResolveEscapes | markdown2text.py:435-446 | the loop runs exactly two substitution rounds, logging each resolved escape |
| Escapes.EscapeAll | markdown2text.py:438-442 | escaping a text never shortens it |
| Escapes.EscapedPiece | markdown2text.py:438-446 | a backslash before a character of the class is one match, replaced by that character |
| Escapes.PlainPiece | markdown2text.py:446 | any character but a backslash is copied |
| Escapes.ResolveEscaped | markdown2text.py:446 | one round resolves one level of escaping, wherever the escaped text starts |
| Escapes.TwoRounds | markdown2text.py:445-446 | the step is the substitution applied twice |
| Escapes.RoundUndoesEscape | markdown2text.py:446 | one round undoes one level of escaping |
| Escapes.TwoRoundsTwoLevels | markdown2text.py:444-446 | two rounds resolve text escaped twice, and text escaped three times keeps one level |
| Escapes.PlainOrPair | markdown2text.py:446 | a match is a backslash followed by a character of the class |
| Escapes.RoundWithoutPairs | markdown2text.py:446 | with no such pair, one round finds no match and changes nothing |
| Escapes.NothingToResolve | markdown2text.py:444-446 | with no such pair (`\q`, a trailing backslash), both rounds change nothing and log nothing |
| Blockquotes.QuoteRunEnd | markdown2text.py:456 | the `(?:>\s*)+` run spans only `>` and whitespace, and stops at the first other character |
| Blockquotes.QuotePrefixEnd | markdown2text.py:456 | a match of the prefix is non-empty and holds a `>` |
| Blockquotes.RemoveBlockquotes | markdown2text.py:449-461 | the loop returns each line requoted and logs each removed prefix in line order |
| Blockquotes.LStripAfterSpaces | markdown2text.py:458 | `lstrip` of the inserted spaces and what follows the prefix removes exactly those spaces |
| Blockquotes.QuotedChanges | markdown2text.py:457 | replacing a prefix holding a `>` always changes the line |
| Blockquotes.QuoteLineSpec | markdown2text.py:454-460 | a quoted line loses exactly its prefix, which is logged, and gains one more space than it has `>` (on the whole line); other lines are untouched and log nothing |
| Blockquotes.QuoteLineIdempotent | markdown2text.py:454-460 | requoting a line a second time changes nothing and logs nothing |
| Blockquotes.NoMarkUnchanged | markdown2text.py:455-457 | a line without `>` is left alone |
| Blockquotes.QuoteKeepsLine | markdown2text.py:456-460 | the rewrite never introduces a newline |
| Rules.RemoveHorizontalRules | markdown2text.py:464-475 | the loop drops and logs exactly the rule lines, keeping the rest in order |
| Rules.RuleRestIff | markdown2text.py:470 | the tail `(\s*[-*_])*\s*$` matches exactly a mix of whitespace and marks |
| Rules.RuleIff | markdown2text.py:470 | a line is a rule exactly when it is only whitespace and `-`, `*`, `_` marks, with at least one mark |
| Tables.Cells | markdown2text.py:250 | no cell is empty |
| Tables.CellsOfParts | markdown2text.py:250 | a text is a cell exactly when it is not empty and is some part stripped; there are no more cells than parts |
| Tables.CellsConcat | markdown2text.py:250 | the cells of two runs of parts are the cells of the first followed by those of the second, so cells keep the parts' order |
| Tables.ConservativeRemoveTables | markdown2text.py:216-260 | the loop drops and logs exactly the separator rows, keeping the rest in order |
| Tables.SeparatorShape | markdown2text.py:240-252 | a separator row holds only whitespace, `-`, `:` and `|`, and at least one `-` |
| Tables.DataRowKept | markdown2text.py:240-258 | a line holding any other character is kept |
| Html.RemoveHtmlTags | markdown2text.py:482-493 | the loop returns each line without its tags, logging each tag in line order |
| Html.TagKeepsNothing | markdown2text.py:490 | a tag starts with `<` and is deleted whole |
| Html.PieceGoesOneWay | markdown2text.py:487-490 | each piece of a line goes either to the output or, as a tag, to the log |
| Html.TagsPartition | markdown2text.py:487-490 | the output and the logged tags are together exactly as long as the line: nothing is dropped unlogged |
| Html.NoTagUnchanged | markdown2text.py:486-491 | a line without `<` comes through verbatim and logs nothing |
| Html.HtmlKeepsLine | markdown2text.py:490 | the rewrite never introduces a newline |
| Json.AfterFirstColon | markdown2text.py:306 | what follows the first colon is shorter than the text |
| Json.ReplacePair | markdown2text.py:307 | replacing a two-character pair by one character never lengthens the text |
| Json.Unwrap | markdown2text.py:304-311 | a text starting with `"` and holding `:` unwraps to something shorter; any other text is kept as it is |
| Json.ReplaceLeavesNoPair | markdown2text.py:307 | after replacing a pair by a character that is neither of its two, no such pair is left |
| Json.ReplaceKeepsNoPair | markdown2text.py:307 | replacing `\"` by `"` does not bring a `\n` back |
| Json.UnwrapLeavesNoEscapedNewline | markdown2text.py:304-307 | an unwrapped value holds no literal `\n` |
| Json.JsonEscape | markdown2text.py:307 | escaping newlines and quotes never shortens a text |
| Json.NewlinesBack | markdown2text.py:307 | the first replacement turns escaped newlines back and leaves escaped quotes |
| Json.QuotesBack | markdown2text.py:307 | the second replacement turns escaped quotes back |
| Json.UnwrapKeyValue | markdown2text.py:304-307 | what `"key": v` unwraps to, for a key without a colon |
| Json.UnwrapRoundTrip | markdown2text.py:304-307 | `"key": "value"` with the value JSON-escaped unwraps to the value, for a key without a colon and a value without a backslash that does not end with a quote |
| Json.TrailingQuoteLost | markdown2text.py:306-307 | `"k": "a\""` unwraps to `a\`: stripping quotes takes the escaped one too |
| Whitespace.Decimal | markdown2text.py:523 | `str(n)` is never empty |
| Whitespace.CollapseFrom | markdown2text.py:526 | the collapse from any position writes no three newlines in a row |
| Whitespace.CollapseLeavesNoTriple | markdown2text.py:521-526 | right after the collapse there is no run of three or more newlines |
| Whitespace.TrimTidy | markdown2text.py:528-535 | dropping blank lines at both ends keeps every line stripped and without a newline |
| Whitespace.NormalizedLines | markdown2text.py:518-535 | the result is the stripped lines of the collapsed text without blank lines at either end, joined; every line of it is stripped and it is its own `strip()` |
| Pipeline.Apply | markdown2text.py:325-329 | a step's entries are logged and its text returned |
| Pipeline.RemoveFormatting | markdown2text.py:324-433 | steps 2 to 8 run in order against the logger, which ends holding their entries in order |
| Pipeline.RemoveDecoration | markdown2text.py:435-516 | steps 9 to 15 run in order against the logger, which ends holding their entries in order |
| Pipeline.ConvertMarkdownToText | markdown2text.py:263-535 | the conversion returns `Convert`'s text and warning, and a given logger ends holding all the entries in step order; without one, a disabled logger is used |
| Pipeline.ConvertIsClean | markdown2text.py:518-535 | whatever the input, every line of the result is stripped and the result is its own `strip()` |

## Left out

- `main`, the command-line interface, file reading and writing, and
  `StrippedContentLogger.save_to_file` are I/O and are not modelled.
- The `debug` flag, `debug_step` and the progress prints are diagnostics and are not
  modelled.
- The stderr warning about an unclosed code block is not printed. Its line number is
  returned as an `Option<int>` by `CodeBlocks.RemoveCodeBlocks` and
  `Pipeline.ConvertMarkdownToText`.
- The `except` branch of the JSON unwrap is not modelled. `split(":", 1)` on a text that
  holds a colon always yields two parts, so the branch cannot be reached.
- The escape callback's fallback, which puts a backslash back in front, is not modelled.
  It applies only to a character outside the pattern's class, and such a character never
  matches.
- `\d` is modelled as the ASCII digits `0`-`9`. Python's `str` patterns also accept other
  Unicode decimal digits.
- `\s` and `str.strip()` use Python's `str.isspace()` set. Characters outside the Basic
  Multilingual Plane are not treated specially.
- Patterns.MatchAt: its contract states only where a match lies; what each pattern accepts
  is stated by the matcher lemmas named below, and not at all for the others.
- Patterns.InlineCodeAt: its contract states only where a match lies; that a match loses
  its two backticks is proved in `Document.InlineCodePiece`.
- Patterns.DelimitedAt: its contract states only where a match lies; that a match loses
  only its delimiters is proved in `Patterns.DelimitedErasesOnlyMarks`.
- Patterns.HashHeaderAt: its contract states only where a match lies; what a match deletes
  and logs is proved in `Document.HashHeaderMatch`.
- Patterns.ReferenceDefinitionAt: its contract states only where a match lies; the match's
  shape is proved in `Document.ReferenceDefinitionMatch`.
- Patterns.ReferenceLinkAt: its contract states only where a match lies; the match's shape
  is proved in `Document.ReferenceLinkMatch`.
- Patterns.TaskItemAt: its contract states only where a match lies; the match's shape is
  proved in `Document.TaskItemMatch`.
- Patterns.FootnoteDefinitionAt: its contract states only where a match lies; the match's
  shape is proved in `Document.FootnoteDefinitionMatch`.
- Patterns.BulletItemAt: its contract states only where a match lies; the split into
  marker and kept text is proved in `Document.ListItemSplits`, not the marker's shape.
- Patterns.NumberedItemAt: likewise, through `Document.ListItemSplits`.
- Patterns.LabelTargetAt: its contract states only where a match lies.
- Patterns.ImageAt: its contract states only where a match lies; only its leading `![` is
  proved, in `Links.BracketStartsMatch`.
- Patterns.LinkAt: its contract states only where a match lies; only its leading `[` is
  proved, in `Links.BracketStartsMatch`.
- Patterns.EscapeAt: its contract states only where a match lies; the match's shape is
  proved in `Escapes.PlainOrPair`.
- Patterns.HtmlTagAt: its contract states only where a match lies; that a tag starts with
  `<` and is deleted whole is proved in `Html.TagKeepsNothing`.
- Patterns.FootnoteReferenceAt: its contract states only where a match lies; only that a
  match stays inside one line is proved, in `Document.InlinePassesKeepLines`.
- Patterns.BlankRunAt: its contract states only where a match lies; that the collapse
  leaves no three newlines in a row is proved in `Whitespace.CollapseLeavesNoTriple`.
- Whitespace.CollapseLeavesNoTriple: this holds right after the `\n{3,}` collapse only.
  Lines made only of whitespace can still produce three newlines in a row once every line
  is stripped, and the model does not claim otherwise.

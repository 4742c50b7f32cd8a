# snowflake-multisql in Dafny

snowflake-multisql runs a script of several SQL statements on Snowflake. The Snowflake
driver runs one statement per call, so the library works in these steps:

- It strips comments from the script (`removeComments`).
- It flattens the whitespace outside quoted literals (`minifySQL`).
- It cuts the script into chunks at every `;` (`getChunks`).
- In each chunk it rewrites the named placeholders `{%name%}` into the driver's positional
  binds `:1`, `:2`, … and collects the bind values from the caller's tags (`tagsToBinds`).
- It sends the chunks to the driver one after the other, timing each (`executeAll`).

A helper in `utils.ts` recognises SQL files by their extension (`isSql`) and joins the SQL
files of a folder into one script (`loadFiles`).

The model follows each of these in Dafny:

- **`Wrappers`** (`wrappers.dfy`): `Option` and `Result`.
- **`JsStrings`** (`js_strings.dfy`): the JavaScript string operations the code relies on:
  - `trim`;
  - `split` and `join` on one character;
  - `indexOf` and `replace` with a string pattern, which replaces the first occurrence only;
  - ASCII lower-casing;
  - `String(n)` of a natural number.
- **`Sanitizer`** (`sanitizer.dfy`): the three global regular-expression replacements of
  `removeComments` and `minifySQL`. Each is a left-to-right scanner, and at every position
  it takes the leftmost alternative of the regular expression that matches:
  - A quoted literal is the longest prefix of the form `q (qq | non-q)* q`. It is copied
    unchanged.
  - When no such prefix exists, the quote is ordinary text.
  - A `--` comment runs up to the next line break, which is kept.
  - A `/*` comment ends at the first `*/`. A `/*` without a later `*/` stays in the text.
- **`Chunks`** (`chunks.dfy`): `getChunks`. The script is sanitised, split at every `;`,
  each piece loses its first line feed and is trimmed, and empty pieces are dropped.
- **`TagBinds`** (`tag_binds.dfy`): `tagsToBinds`.
  - Its specification is `ResolveTags`, a single scan that numbers the placeholders.
  - The method `TagsToBinds` keeps the structure of the code: it collects the matches,
    checks them against the tags, then replaces the first remaining copy of each match,
    one by one.
  - The method is proved equal to the specification.
- **`MultiSql`** (`multi_sql.dfy`): `executeAll`, as a method of the class
  `SnowflakeMultiSql`.
  - The class keeps the statements sent on its connection.
  - The driver's answers and the clock are functions the connection is built with.
  - The loop is proved against `Run`, a fold of the loop body `Step` over the chunks.
- **`Utils`** (`utils.dfy`): `isSql`, and `loadFiles`.
  - In `loadFiles`, the folder listing is a parameter and the file system is a map from
    path to text.

The model follows the code where it departs from what its comments and documentation
suggest:

- A `/*` that is never closed is kept.
- When a chunk names a tag that is missing, `executeAll` rejects its promise. In a run that
  is not a preview, the chunks before it have already been sent to the driver.
- A `;` inside a quoted literal still splits the script (`Chunks.SemicolonInLiteralSplits`).
- The first line feed of a chunk is deleted even when it sits inside a quoted literal
  (`Chunks.LineFeedInLiteralLost`).
- Sanitising is not idempotent: `//*c*/*x*/` becomes `/*x*/`, which sanitises to nothing
  (`Sanitizer.RemoveCommentsJoinsOpener`, `Chunks.SanitizeNotIdempotent`).
- A file named just `sql` counts as a SQL file (`Utils.IsSqlIff`).

## Model

| member | source | states |
|---|---|---|
| JsStrings.Trim | src/snowflake-multisql.ts:171 | the trimmed text has no whitespace at either end and is no longer than the input |
| JsStrings.TrimSlice | src/snowflake-multisql.ts:171 | the trimmed text is a contiguous piece of the input, with only whitespace cut off before and after it |
| JsStrings.TrimKeepsTrimmed | src/snowflake-multisql.ts:171 | a text with no whitespace at either end is its own trim |
| JsStrings.TrimChars | src/snowflake-multisql.ts:171 | trimming keeps only characters of the input |
| JsStrings.TrimEmptyIff | src/snowflake-multisql.ts:41 | `trim()` of a text is empty exactly when the text is all whitespace |
| JsStrings.TrimIdempotent | src/snowflake-multisql.ts:197 | trimming twice is trimming once |
| JsStrings.IndexOfSpec | src/snowflake-multisql.ts:110 | the index found is an occurrence with no earlier one; no index means no occurrence |
| JsStrings.IndexOfFirst | src/snowflake-multisql.ts:110 | an occurrence with no earlier one is the index `indexOf` finds |
| JsStrings.IndexOf | src/snowflake-multisql.ts:110 | the definition; its own contract says only that a found index leaves room for the pattern, and `IndexOfSpec` and `IndexOfFirst` state that it is the first occurrence |
| JsStrings.ReplaceFirst | src/snowflake-multisql.ts:146-149 | the definition, with no contract of its own; `ReplaceFirstIndexOf`, `ReplaceFirstAtStart`, `ReplaceFirstSkips`, `ReplaceFirstCons` and `ReplaceFirstChars` describe it |
| JsStrings.ReplaceFirstAtStart | src/snowflake-multisql.ts:146-149 | a text that starts with the pattern has exactly that copy replaced |
| JsStrings.ReplaceFirstSkips | src/snowflake-multisql.ts:146-149 | replacing the first occurrence leaves a prefix that cannot start the pattern untouched |
| JsStrings.ReplaceFirstIndexOf | src/snowflake-multisql.ts:146-149 | `replace` splices the replacement in at the index `indexOf` finds, and leaves the text unchanged when it finds none |
| JsStrings.ReplaceFirstCons | src/snowflake-multisql.ts:146-149 | a first character where the pattern does not start is kept in front of the replaced rest |
| JsStrings.ReplaceFirstChars | src/snowflake-multisql.ts:146-149 | the result holds only characters of the text or of the replacement |
| JsStrings.Split | src/snowflake-multisql.ts:170 | `split` gives at least one piece, and no piece holds the separator |
| JsStrings.JoinSplit | src/snowflake-multisql.ts:170 | joining the pieces of a split with the separator gives the text back |
| JsStrings.SplitJoin | src/snowflake-multisql.ts:170 | splitting a join of separator-free pieces gives the pieces back |
| JsStrings.SplitPrefix | src/snowflake-multisql.ts:170 | a prefix without the separator is glued onto the first piece |
| JsStrings.SplitAt | src/snowflake-multisql.ts:170 | a separator between two texts splits them into the pieces of each, in order |
| JsStrings.SplitLast | src/utils.ts:36-37 | the last piece of a split is the suffix after the last separator (the whole text when there is none) |
| JsStrings.JoinSnoc | src/utils.ts:30-32 | joining one more text appends the separator and that text |
| JsStrings.Join | src/utils.ts:30-32 | the definition, with no contract of its own; `JoinSplit`, `SplitJoin` and `JoinSnoc` describe it |
| JsStrings.ToLowerAscii | src/utils.ts:37 | the definition; its contract only keeps the length and lowers each character, and `Utils.LowerCaseIsSql` states what it means for `isSql` |
| JsStrings.DecimalString | src/snowflake-multisql.ts:148 | `String(n)` is a non-empty run of digits without a leading zero |
| JsStrings.DecimalRoundTrip | src/snowflake-multisql.ts:148 | reading `String(n)` back as a decimal gives `n` |
| Sanitizer.LiteralLength | src/snowflake-multisql.ts:202 | a quoted-literal match is at least two characters long and ends with its opening quote |
| Sanitizer.LiteralTailIsEscaped | src/snowflake-multisql.ts:202 | the inside of a literal match is the escaped form of some content (quotes doubled) |
| Sanitizer.LiteralIsQuoted | src/snowflake-multisql.ts:202 | each literal match is a quoting of its content, quotes doubled |
| Sanitizer.LiteralTailLongest | src/snowflake-multisql.ts:202 | the scan of a literal's inside goes at least as far as any closing quote |
| Sanitizer.LiteralLongest | src/snowflake-multisql.ts:202 | a literal at the start of the text is matched, at least as far as its own closing quote |
| Sanitizer.LiteralTailExact | src/snowflake-multisql.ts:202 | the scan of a literal's inside stops at its closing quote when no quote follows |
| Sanitizer.LiteralExact | src/snowflake-multisql.ts:202 | a literal not followed by its quote character is matched exactly |
| Sanitizer.LineLength | src/snowflake-multisql.ts:202 | a `--` comment body stops at a CR or LF, or at the end of the text |
| Sanitizer.LineLengthSpec | src/snowflake-multisql.ts:202 | a `--` comment body holds no CR or LF, so it runs up to the first one |
| Sanitizer.LineLengthOf | src/snowflake-multisql.ts:202 | a line without breaks, followed by a break or the end, is the whole comment body |
| Sanitizer.BlockCommentLength | src/snowflake-multisql.ts:202 | a block-comment match starts with `/*`, ends with `*/`, is at least four long, and closes at the first `*/` after the opener; there is none when no `*/` follows |
| Sanitizer.RemoveComments | src/snowflake-multisql.ts:200-215 | removing comments never lengthens the text |
| Sanitizer.RemoveCommentsKeepsLiteral | src/snowflake-multisql.ts:201-213 | a quoted literal is copied verbatim, `--` and `/*` inside it included |
| Sanitizer.RemoveCommentsDropsLineComment | src/snowflake-multisql.ts:201-213 | a `--` comment is deleted up to the line break, which stays |
| Sanitizer.RemoveCommentsDropsBlockComment | src/snowflake-multisql.ts:201-213 | a `/* … */` comment is deleted up to the first `*/` |
| Sanitizer.RemoveCommentsKeepsUnterminated | src/snowflake-multisql.ts:201-213 | a `/*` with no later `*/` stays in the text |
| Sanitizer.RemoveCommentsKeepsPlain | src/snowflake-multisql.ts:201-213 | text with no quote, `-` or `/` is copied unchanged |
| Sanitizer.RemoveCommentsKeepsSlash | src/snowflake-multisql.ts:201-213 | a `/` not followed by `*` is ordinary text |
| Sanitizer.UnmatchedQuote | src/snowflake-multisql.ts:202 | a quote with no quote of its kind after it starts no literal match |
| Sanitizer.RemoveCommentsKeepsUnmatchedQuote | src/snowflake-multisql.ts:201-213 | a quote that starts no literal is ordinary text: it is kept and the scan goes on after it |
| Sanitizer.RemoveCommentsKeepsLoneDash | src/snowflake-multisql.ts:201-213 | a `-` not followed by another `-` is ordinary text |
| Sanitizer.RemoveCommentsKeepsSubtraction | src/snowflake-multisql.ts:201-213 | a subtraction `a-b` between operands with no quote, `-` or `/` comes back unchanged (`a - b` among them) |
| Sanitizer.LiteralThenComment | src/snowflake-multisql.ts:201-213 | after a literal the scan resumes and still removes the comments that follow |
| Sanitizer.CommentAfterLiteral | src/snowflake-multisql.ts:201-213 | a `--` after a literal on the same line is removed while the literal stays |
| Sanitizer.RemoveCommentsJoinsOpener | src/snowflake-multisql.ts:201-213 | removing `/*c*/` out of `//*c*/*x*/` forms a new comment `/*x*/` |
| Sanitizer.EscapeConcat | src/snowflake-multisql.ts:202 | doubling quotes works on each part of a text on its own |
| Sanitizer.EscapeWithoutQuote | src/snowflake-multisql.ts:202 | content without the quote character is its own escaped form |
| Sanitizer.BreaksToSpacesSpec | src/snowflake-multisql.ts:177-185 | length is kept; each character stays or is a tab/CR/LF turned into a space |
| Sanitizer.BreaksToSpacesKeepsLiteral | src/snowflake-multisql.ts:177-185 | a quoted literal passes unchanged, line breaks inside included |
| Sanitizer.BreaksToSpacesWithoutQuotes | src/snowflake-multisql.ts:177-185 | without quotes, every tab/CR/LF becomes a space and nothing else changes |
| Sanitizer.BreaksToSpacesPlain | src/snowflake-multisql.ts:177-185 | a prefix without quotes or line breaks is copied unchanged |
| Sanitizer.BreaksToSpaces | src/snowflake-multisql.ts:177-185 | the definition; its own contract keeps the length, and `BreaksToSpacesSpec`, `BreaksToSpacesKeepsLiteral` and `BreaksToSpacesWithoutQuotes` describe it |
| Sanitizer.BreaksToSpacesKeepsUnmatchedQuote | src/snowflake-multisql.ts:177-185 | a quote that starts no literal is ordinary text: it is kept and the scan goes on after it |
| Sanitizer.BreaksToSpacesAfterApostrophe | src/snowflake-multisql.ts:177-185 | `it's` followed by a line feed becomes `it's` followed by a space |
| Sanitizer.SpaceRun | src/snowflake-multisql.ts:188 | the run of spaces at the start ends at a character that is not a space |
| Sanitizer.SpaceRunSpec | src/snowflake-multisql.ts:188 | the run counted holds only spaces, so it is the longest one |
| Sanitizer.CollapseSpaces | src/snowflake-multisql.ts:188-196 | collapsing spaces never lengthens the text |
| Sanitizer.CollapseSpacesRun | src/snowflake-multisql.ts:188-196 | a run of one or more spaces at the start, ending before a non-space or at the end, becomes exactly one space |
| Sanitizer.CollapseSpacesRunAfter | src/snowflake-multisql.ts:188-196 | after plain text, such a run of spaces becomes exactly one space (`select  *` gives `select *`) |
| Sanitizer.CollapseSpacesKeepsLiteral | src/snowflake-multisql.ts:188-196 | a quoted literal passes unchanged, runs of spaces inside included |
| Sanitizer.CollapseSpacesOnlyDropsSpaces | src/snowflake-multisql.ts:188-196 | apart from spaces, the text is unchanged in content and order |
| Sanitizer.NonSpacesConcat | src/snowflake-multisql.ts:188-196 | the non-space characters of two texts together are those of each, in order |
| Sanitizer.CollapseSpacesFirst | src/snowflake-multisql.ts:188-196 | a first character that is not a space is kept first |
| Sanitizer.CollapseSpacesNoDoubleSpace | src/snowflake-multisql.ts:188-196 | without quotes, no two spaces remain side by side |
| Sanitizer.CollapseSpacesNoTabsOrBreaks | src/snowflake-multisql.ts:188-196 | collapsing spaces introduces no tab or line break |
| Sanitizer.CollapseSpacesPlain | src/snowflake-multisql.ts:188-196 | a prefix with no quotes and no double space is copied unchanged |
| Sanitizer.CollapseSpacesKeepsUnmatchedQuote | src/snowflake-multisql.ts:188-196 | a quote that starts no literal is ordinary text: it is kept and the scan goes on after it |
| Sanitizer.TrimKeepsLayout | src/snowflake-multisql.ts:197 | trimming keeps the text free of tabs, line breaks and double spaces |
| Sanitizer.MinifySql | src/snowflake-multisql.ts:175-198 | the minified text has no whitespace at either end and is no longer than the input; `MinifyWithoutQuotes` and `Chunks.MinifyNormal` describe it further |
| Sanitizer.MinifyWithoutQuotes | src/snowflake-multisql.ts:175-198 | without quotes, `minifySQL` leaves no tab/CR/LF, no double space and no outer whitespace |
| Chunks.CleanChunk | src/snowflake-multisql.ts:171 | a cleaned piece is trimmed and holds only characters of the piece |
| Chunks.Sanitize | src/snowflake-multisql.ts:168 | the sanitised script has no whitespace at either end and is no longer than the script; `SanitizeNormal`, `SanitizeKeepsLiteral` and `SanitizeClosedComment` describe it further |
| Chunks.CleanAll | src/snowflake-multisql.ts:171 | one cleaned piece per piece |
| Chunks.CleanAllConcat | src/snowflake-multisql.ts:171 | each piece is cleaned on its own, whatever its neighbours |
| Chunks.DropEmpty | src/snowflake-multisql.ts:172 | the pieces kept are non-empty pieces of the input |
| Chunks.DropEmptyConcat | src/snowflake-multisql.ts:172 | filtering keeps the order of the pieces |
| Chunks.DropEmptyKeeps | src/snowflake-multisql.ts:172 | nothing is dropped when no piece is empty |
| Chunks.SplitChunks | src/snowflake-multisql.ts:169-172 | every chunk is non-empty, trimmed and free of `;` |
| Chunks.GetChunks | src/snowflake-multisql.ts:167-173 | every chunk of a script is non-empty, trimmed and free of `;` |
| Chunks.CleanChunkDropsFirstLineFeed | src/snowflake-multisql.ts:171 | the first line feed of a piece is deleted, then the piece is trimmed |
| Chunks.CleanChunkKeeps | src/snowflake-multisql.ts:171 | a trimmed piece with no line feed is kept as it is |
| Chunks.CleanChunkJoinsAtLineFeed | src/snowflake-multisql.ts:171 | deleting the first line feed joins the text on both sides of it |
| Chunks.SplitChunksAt | src/snowflake-multisql.ts:169-172 | a `;` cuts: the chunks of the left part come first, then those of the right part |
| Chunks.SplitChunksOne | src/snowflake-multisql.ts:169-172 | a text with no `;` and some content is one chunk |
| Chunks.MinifyNormal | src/snowflake-multisql.ts:175-198 | already-minified text without quotes is left unchanged by `minifySQL` |
| Chunks.SanitizeNormal | src/snowflake-multisql.ts:168 | normalised text is unchanged by sanitising |
| Chunks.JoinNormal | src/snowflake-multisql.ts:168 | statements in normal form joined by `;` are in normal form |
| Chunks.SplitChunksOfStatements | src/snowflake-multisql.ts:169-172 | splitting statements joined by `;` gives the statements back, in order |
| Chunks.GetChunksOfStatements | src/snowflake-multisql.ts:167-173 | normalised statements joined by `;` come back as the chunks, in order |
| Chunks.SanitizeKeepsLiteral | src/snowflake-multisql.ts:168 | sanitising keeps a trailing quoted literal verbatim |
| Chunks.QuoteAroundSemicolon | src/snowflake-multisql.ts:169-170 | a literal holding `;` reads as text ending inside the literal, `;`, and text starting inside it |
| Chunks.SemicolonInLiteralSplits | src/snowflake-multisql.ts:167-173 | a `;` inside a literal cuts the literal into two chunks |
| Chunks.QuoteAroundLineFeed | src/snowflake-multisql.ts:169-171 | a literal holding a line feed and no quote or `;` reads as text on each side of that line feed |
| Chunks.LineFeedInLiteralLost | src/snowflake-multisql.ts:167-173 | a line feed inside a literal is deleted from the chunk |
| Chunks.SanitizeNotIdempotent | src/snowflake-multisql.ts:168 | sanitising a sanitised script can change it again |
| Chunks.MinifyClosedComment | src/snowflake-multisql.ts:175-198 | `minifySQL` leaves a block comment around plain text unchanged |
| Chunks.SanitizeClosedComment | src/snowflake-multisql.ts:168 | a block comment around plain text sanitises to nothing |
| TagBinds.WordRun | src/snowflake-multisql.ts:99 | `\w+` takes the longest run of word characters |
| TagBinds.WordRunExact | src/snowflake-multisql.ts:99 | `\w+` on a word followed by a non-word character takes exactly that word |
| TagBinds.PlaceholderLength | src/snowflake-multisql.ts:99 | a placeholder match is `{%name%}` with a non-empty word as name |
| TagBinds.PlaceholdersAreNames | src/snowflake-multisql.ts:99-104 | every name found is a word |
| TagBinds.PlaceholderAtRaw | src/snowflake-multisql.ts:99 | `{%name%}` at the start of the text is matched whole |
| TagBinds.PlaceholdersAreOccurrences | src/snowflake-multisql.ts:99-104 | a name is found exactly when it is a word and `{%name%}` occurs in the text |
| TagBinds.PlaceholderOccurs | src/snowflake-multisql.ts:99-104 | each name found is a word whose placeholder occurs in the text |
| TagBinds.OccursIsPlaceholder | src/snowflake-multisql.ts:99-104 | each occurrence of `{%name%}` is found by the scan |
| TagBinds.ScanPlain | src/snowflake-multisql.ts:99-104 | text without `{` adds no placeholders and is left as it is |
| TagBinds.ScanRaw | src/snowflake-multisql.ts:99-104 | a placeholder is found first and becomes the next marker |
| TagBinds.ScanWeave | src/snowflake-multisql.ts:99-104 | text made of plain gaps and placeholders yields exactly those names, each replaced by markers numbered in order |
| TagBinds.WeaveNames | src/snowflake-multisql.ts:99-104 | the names found in plain gaps woven with placeholders are the placeholders' names, in order |
| TagBinds.WeavePositional | src/snowflake-multisql.ts:145-153 | the rewrite of such a text puts markers numbered from `next` where the placeholders were |
| TagBinds.CleanTagOfRaw | src/snowflake-multisql.ts:110 | cleaning a raw match gives back its name |
| TagBinds.CloseOfRaw | src/snowflake-multisql.ts:110 | the first `%}` of a raw match is its closing one |
| TagBinds.CleanMatches | src/snowflake-multisql.ts:104-111 | the clean names of the matches are the names found, in order |
| TagBinds.FindTagSpec | src/snowflake-multisql.ts:151 | `find` gives the first tag of the name when one exists, nothing exactly when none exists |
| TagBinds.FindTag | src/snowflake-multisql.ts:151 | a tag found is one of the tags and has exactly the name asked for; `FindTagSpec` adds that it is the first such tag and that none is found only when none exists |
| TagBinds.Dedup | src/snowflake-multisql.ts:121-123 | the unique names are the same names, each once |
| TagBinds.CheckTags | src/snowflake-multisql.ts:117-138 | the check passes exactly when every name found has a tag |
| TagBinds.PositionalWithout | src/snowflake-multisql.ts:145-153 | with no placeholder the text is unchanged |
| TagBinds.PartlyPositionalAll | src/snowflake-multisql.ts:145-153 | after every occurrence is done, the text is fully rewritten |
| TagBinds.Positional | src/snowflake-multisql.ts:145-153 | the definition, with no contract of its own; `PositionalWithout`, `PartlyPositionalAll`, `WeavePositional` and `ResolveWeave` describe it |
| TagBinds.MarkerSkips | src/snowflake-multisql.ts:146-149 | a marker already written is never matched again |
| TagBinds.NoRawWithoutMatch | src/snowflake-multisql.ts:146-149 | where no placeholder starts, no raw placeholder starts either |
| TagBinds.NoRawAfterCharacter | src/snowflake-multisql.ts:146-149 | a character where no placeholder starts cannot begin a raw placeholder once the rest is partly rewritten |
| TagBinds.NoBraceInsideMatch | src/snowflake-multisql.ts:99 | no `{` occurs inside a placeholder match after its first character |
| TagBinds.StepAtMatchFirst | src/snowflake-multisql.ts:146-149 | the first replacement rewrites the first occurrence |
| TagBinds.StepAtMatchLater | src/snowflake-multisql.ts:146-149 | replacement k rewrites occurrence k even after the first has been rewritten |
| TagBinds.StepPastCharacter | src/snowflake-multisql.ts:146-149 | replacement k leaves text before occurrence k unchanged |
| TagBinds.ReplaceNextPlaceholder | src/snowflake-multisql.ts:145-149 | replacing the first copy of occurrence k's raw text by `:k` rewrites exactly occurrence k |
| TagBinds.BindsForStep | src/snowflake-multisql.ts:151-152 | each occurrence appends the value of its tag, when there is one |
| TagBinds.BindsForAllTagged | src/snowflake-multisql.ts:151-152 | with every name tagged, there is one bind per occurrence, the value of the first tag of that name |
| TagBinds.ReplaceEach | src/snowflake-multisql.ts:144-153 | the loop's text is the single-scan rewrite `:1`, `:2`, … and its binds are the tag values in order |
| TagBinds.TagsToBinds | src/snowflake-multisql.ts:94-160 | the method computes `ResolveTags`: `###` on a missing tag, the rewrite and binds otherwise |
| TagBinds.ResolveWithoutPlaceholders | src/snowflake-multisql.ts:94-160 | text in which no `{%name%}` with a word name occurs (other `{%…%}` text may) comes back unchanged with no binds, whatever the tags |
| TagBinds.ResolveFailsIff | src/snowflake-multisql.ts:117-138 | the call throws exactly when some placeholder in the text has no tag of the same name |
| TagBinds.ResolveWeave | src/snowflake-multisql.ts:94-160 | the placeholders become `:1` … `:n` in place and the binds are the tag values, one per occurrence |
| TagBinds.ResolveTags | src/snowflake-multisql.ts:94-160 | the definition, with no contract of its own; `ResolveFailsIff`, `ResolveWithoutPlaceholders`, `ResolveWeave` and the method `TagsToBinds` describe it |
| MultiSql.HasText | src/snowflake-multisql.ts:41 | a chunk is used exactly when it is not all whitespace |
| MultiSql.ChunksNeverBlank | src/snowflake-multisql.ts:36-41 | no chunk that `getChunks` produces is blank |
| MultiSql.StepGoesThrough | src/snowflake-multisql.ts:41-67 | a chunk that goes through adds its record and, unless previewing, its statement and duration |
| MultiSql.StepKeepsRecords | src/snowflake-multisql.ts:41-67 | the records and statements of the earlier chunks stay in place when a chunk goes through, and its own follow |
| MultiSql.Step | src/snowflake-multisql.ts:41-67 | the definition, with no contract of its own; `StepGoesThrough`, `StepKeepsRecords`, `StepFailsOnTag` and `StepFailsOnDriver` describe it |
| MultiSql.RunGoesThrough | src/snowflake-multisql.ts:36-71 | one record per chunk in order, `chunkOrder` i+1, `chunksTotal` the count, running `totalDuration`, data only with `includeResults`; each chunk sent once in order, none in preview |
| MultiSql.RunStaysFailed | src/snowflake-multisql.ts:43-55 | once the call has failed, the later chunks change nothing |
| MultiSql.RunFailsOnTag | src/snowflake-multisql.ts:40-55 | a missing tag rejects the call with its error after the earlier chunks were sent |
| MultiSql.RunFailsOnDriver | src/snowflake-multisql.ts:54-55 | a statement the driver rejects rejects the call after it and the earlier chunks were sent |
| MultiSql.PreviewSendsNothing | src/snowflake-multisql.ts:51-53 | a preview sends nothing, and none of its records carries a duration, a running total or data |
| MultiSql.Run | src/snowflake-multisql.ts:40-71 | the definition, with no contract of its own; `RunGoesThrough`, `RunStaysFailed`, `RunFailsOnTag`, `RunFailsOnDriver` and `PreviewSendsNothing` describe it |
| MultiSql.SnowflakeMultiSql.constructor | src/snowflake-multisql.ts:19-21 | a new connection has sent nothing |
| MultiSql.SnowflakeMultiSql.Execute | src/snowflake-multisql.ts:55 | a statement is sent once, answered and timed as the next on the connection |
| MultiSql.SnowflakeMultiSql.ExecuteChunk | src/snowflake-multisql.ts:41-68 | one turn of the loop does what `Step` prescribes |
| MultiSql.SnowflakeMultiSql.ExecuteChunks | src/snowflake-multisql.ts:40-71 | the loop sends what `Run` sends and returns its outcome |
| MultiSql.SnowflakeMultiSql.ExecuteAll | src/snowflake-multisql.ts:22-72 | `executeAll` sends the statements of `Run` over the chunks of the script and returns its outcome |
| Utils.ExtensionAfterDot | src/utils.ts:36-37 | the last segment of `stem.ext` is `ext` when `ext` has no dot |
| Utils.ExtensionWithoutDot | src/utils.ts:36-37 | a name without a dot is its own last segment |
| Utils.IsSql | src/utils.ts:35-38 | the definition, with no contract of its own; `IsSqlIff`, `LowerCaseIsSql` and `IsSqlOnTestNames` describe it |
| Utils.NoDotInSqlEnding | src/utils.ts:36-37 | a name ending in `sql` in any case has no dot in its last three characters |
| Utils.LowerCaseIsSql | src/utils.ts:37 | the lower-cased extension equals `sql` exactly when it is `sql` spelled in any mix of upper and lower case |
| Utils.IsSqlIff | src/utils.ts:35-38 | a name is SQL exactly when it ends in `s`, `q`, `l`, each in either case, preceded by a dot or nothing |
| Utils.IsSqlOnTestNames | src/utils.ts:35-38 | `x.sql` and `x.SQL` are SQL files; `x.sql.old` is not |
| Utils.SqlFiles | src/utils.ts:24-28 | filtering never adds names |
| Utils.SqlFilesFilter | src/utils.ts:24-28 | a name is kept exactly when it is listed and passes `isSql` |
| Utils.SqlFilesAppend | src/utils.ts:24-28 | filtering keeps the order of the list |
| Utils.ReadAllStaysFailed | src/utils.ts:26-29 | once a file cannot be read, further files do not change the rejection |
| Utils.ReadAllSucceeds | src/utils.ts:26-29 | the reads succeed exactly when every path exists, giving the texts in order |
| Utils.ReadAllStep | src/utils.ts:26-29 | once the first files have been read, reading one more adds its text when it is a readable SQL file, rejects when it is an unreadable one, and otherwise changes nothing |
| Utils.ReadAllStopsAt | src/utils.ts:26-29 | a read that fails among the first files rejects the whole list with the same error |
| Utils.ReadAll | src/utils.ts:26-29 | the definition, with no contract of its own; `ReadAllSucceeds`, `ReadAllStep`, `ReadAllStopsAt` and `ReadAllStaysFailed` describe it |
| Utils.LoadFailsIff | src/utils.ts:8-33 | the load fails exactly when no SQL file is listed or some SQL file cannot be read |
| Utils.Load | src/utils.ts:8-33 | the definition, with no contract of its own; `LoadFailsIff`, `LoadJoinsTexts`, `LoadSplitsIntoFiles`, `LoadIgnoresListing` and the method `LoadFiles` describe it |
| Utils.LoadJoinsTexts | src/utils.ts:24-32 | when the promise resolves there is a SQL file, every SQL file can be read, and the script is their texts in list order, joined by line feeds |
| Utils.LoadSplitsIntoFiles | src/utils.ts:24-32 | when no file text holds a line feed, splitting the script at line feeds gives back the texts of the SQL files, in list order |
| Utils.LoadIgnoresListing | src/utils.ts:16-20 | given names, the folder listing plays no part |
| Utils.ReadSqlFiles | src/utils.ts:23-29 | the loop reads the SQL files in order and stops at the first one missing |
| Utils.JoinLines | src/utils.ts:30-32 | the `reduce` joins the texts with line feeds |
| Utils.LoadFiles | src/utils.ts:8-33 | `loadFiles` resolves to or is rejected with what `Load` gives |

## Left out

- The Snowflake connection, its options and the network are not modelled.
  - The driver's `execute` is the function `reply` the connection is built with. It answers
    the n-th statement on the connection and can fail.
  - The values it returns are the type parameter `D`.
  - The statements it was sent are kept in the field `sent`.
- Wall-clock time is not modelled. `new Date()` before and after each statement becomes the
  function `elapsed`, the duration of the n-th statement on the connection.
- `await` is not modelled. `executeAll` is modelled as running to the end, and a rejected
  promise is a `Failure` result.
- Asynchronous reads are not modelled: `readdir` becomes the parameter `listing`, `readFile`
  becomes the map `disk` from path to text, and UTF-8 decoding and `Buffer.from(…).toString()`
  are taken as the identity.
- `Promise.all` is not modelled. A missing file rejects with the first missing SQL file in
  list order, whereas the source rejects with whichever read fails first.
- `console.dir` logging (src/snowflake-multisql.ts:155, src/utils.ts:21) has no effect on
  the results and is left out.
- `replaceTags` is not modelled. Its only call is commented out, so `executeAll` never
  uses it.
- The `binds` argument of `executeAll` is accepted and ignored, as in the source.
- An omitted `tags` argument behaves as an empty list, which is the default of
  `tagsToBinds`.
- Unicode is not modelled.
  - Strings are sequences of `char`, without UTF-16 surrogate pairs.
  - `toLowerCase` lowers ASCII only. Only the comparison with `sql` is affected, and no other
    character lowercases to `s`, `q` or `l`.
  - `trim` strips a fixed list of whitespace characters.
- Tag and bind values are the opaque type parameter `V`. The source's `any` values (strings,
  numbers, dates) are not distinguished.
- The "progress" event named in the repository's tests is not emitted by the source, so
  there is nothing to model.
- src/index.ts only re-exports and is not part of this model.

# MLC configuration: a verified model

MonkeysLegion-Mlc reads `.mlc` configuration files. They hold `key = value` or
`key value` lines, `name {` … `}` sections and JSON arrays that may span
several lines. The library parses each file into a nested PHP array and merges
several files with `array_replace_recursive`, later files winning. It wraps the
result in a read-only `Config` that answers dot-path queries such as
`database.dsn`.

This project models that core in Dafny:

- `values.dfy`: the value tree, which holds booleans, integers, floats, strings, null and arrays keyed by strings. It also has the walk along a key path, and JSON lists as arrays keyed `"0"`, `"1"`, ….
- `text.dfy`: the PHP string primitives the core uses. These are `trim` with a character list, `strcasecmp` against a word, `str_starts_with`, `str_ends_with`, and `explode` with its inverse.
- `parser.dfy`: `Parser::parseValue`, the three line patterns as matchers proved against declarative descriptions of the regular expressions, and `Parser::parseFile`.
  - The loop is a pure step function (`Step`, folded by `RunFrom` into `ParseSpec`).
  - It is also an imperative method `ParseFile` with the source's own loop variables (`$data`, `$stack`, `$inArray`, `$arrayKey`, `$arrayRaw`), proved to compute `ParseSpec`.
- `config.dfy`: the class `Config` with `get`, `has` and `all`, and the lookup they share.
- `loader.dfy`: `array_replace_recursive`, the fold `load` performs, and the imperative `Load` method proved against it.

The directory of `.mlc` files is a map from name to the lines `file()` returns. Those lines have newlines removed and empty lines dropped. `is_file` becomes map membership. `is_numeric`, the `(int)` cast and `json_decode` are PHP built-ins whose definitions are not part of this model. They are the three function fields of `Runtime`, and every result is stated in terms of them.

Where the code departs from what a reader might expect, the model follows the code:

- A `}` with no open section is not an error. `array_pop` removes `$data` itself from the stack, and nothing written afterwards reaches the result (`StrayCloserFreezesResult`).
- A section still open at the end of the file is not an error. Its entries are already in the tree (`Tree`).
- The string fallback strips every leading and trailing `"` and `'` with `trim`, not one matching pair (`StringFallbackStripped`, `QuotedWordIsString`).
- Merging `[1, 2]` then `[3]` yields `[3, 2]`, not `[3]`. `array_replace_recursive` merges lists index by index (`ListsMergeByIndex`, `ShorterListKeepsTail`).
- A value is numeric exactly when `is_numeric` says so, not by a narrower integer-or-decimal pattern.

## Model

| member | source | states |
|---|---|---|
| MlcText.Trim | src/Parser.php:42 | `trim` returns a contiguous piece of the line. Only characters from the list are removed before and after it, and it neither starts nor ends with one. |
| MlcText.TrimIdempotent | src/Parser.php:127 | Trimming an already trimmed text changes nothing, so `parseValue` trimming the trimmed value again is harmless. |
| MlcText.SplitJoin | src/Config.php:18 | `explode` undoes `implode` on pieces without the separator. |
| MlcText.SplitConcat | src/Config.php:18 | Exploding `p.q` gives the pieces of `p`, then the pieces of `q`. |
| MlcText.Split | src/Config.php:18 | `explode` gives at least one piece. No piece contains the separator, and joining the pieces with it gives back the text. |
| MlcText.SameIgnoringCase | src/Parser.php:130-131 | `strcasecmp(...) === 0`: same length, and equal after folding ASCII capitals. |
| MlcValues.ListValue | src/Parser.php:138 | A decoded JSON list is an array whose keys are exactly the indices `0`, `1`, … in decimal, each holding its element. |
| MlcValues.DecimalRoundTrip | src/Parser.php:138 | The decimal key of an index reads back as that index, so distinct list positions have distinct keys. |
| MlcValues.Walk | src/Config.php:18-24 | The node reached by following the keys one by one, or nothing once a key is missing or a non-array is reached. |
| MlcValues.UpdateAt | src/Parser.php:90-91 | `$current[$k] = $v` seen from the root: the key set in the array a path leads to. |
| MlcValues.UpdateAtReaches | src/Parser.php:90-91 | After the update, the array at the path is the old one with the key set. |
| MlcValues.UpdateAtOffPath | src/Parser.php:90-91 | Every path that leaves the updated key's path reads the same before and after. |
| MlcValues.UpdateAtNested | src/Parser.php:66-68 | Setting a key inside the array just written under a section key is writing the updated array under that key, which is what the reference `$stack[] = &$current[$section]` makes true. |
| MlcParser.ParseValue | src/Parser.php:125-143 | The value is trimmed first. It is a boolean exactly when it equals `true`/`false` ignoring case, and carries which one. It is Int or Float exactly when it is not a boolean and `is_numeric` accepts it: Float when it contains `.`, else the `(int)` cast. It is an array exactly when it is bracketed and `json_decode` succeeds, and a `MalformedArray` error exactly when decoding fails. Otherwise it is the text with quotes trimmed. It is never null. |
| MlcParser.StringFallbackStripped | src/Parser.php:142 | A string result neither begins nor ends with a quote, and stripping quotes again changes nothing. |
| MlcParser.UpperCaseTrue | src/Parser.php:130 | ` TRUE ` coerces to the boolean true. |
| MlcParser.MixedCaseFalse | src/Parser.php:131 | `False` coerces to the boolean false. |
| MlcParser.QuotedWordIsString | src/Parser.php:133-142 | `"true"` (quoted) coerces to the string `true`, not a boolean, when `is_numeric` rejects it. |
| MlcParser.MatchTail | src/Parser.php:79 | Models the tail `\s*(.+)$` / `\s+(.+)$` of the patterns. When it matches, the characters before the capture are white space and the capture is nonempty with no newline. Every possible capture start is at or before the one returned, so the greedy `\s` gives back only what `.+` needs. |
| MlcParser.MatchSection | src/Parser.php:64 | A match has the shape `^([A-Za-z0-9_]+)\s*\{$` with the returned name as its group. |
| MlcParser.MatchSectionComplete | src/Parser.php:64 | Every line of that shape matches, and the name is its only possible group. |
| MlcParser.MatchKeyEqSound | src/Parser.php:79 | A match of the `=` pattern has the shape `^([A-Za-z0-9_]+)\s*=\s*(.+)$` with the returned key and value. |
| MlcParser.MatchKeyEq | src/Parser.php:79 | The `=` pattern: the word characters, then blanks, `=` and the capture `MatchTail` finds (`MatchKeyEqSound`, `MatchKeyEqComplete`). |
| MlcParser.MatchKeyEqComplete | src/Parser.php:79 | Every line of that shape matches, with the only possible key and the shortest possible value. |
| MlcParser.MatchKeyWs | src/Parser.php:96 | A match has the shape `^([A-Za-z0-9_]+)\s+(.+)$` with the returned key and value. |
| MlcParser.MatchKeyWsComplete | src/Parser.php:96 | Every line of that shape matches, with the only possible key and the shortest possible value. |
| MlcParser.MatchKeyValue | src/Parser.php:79-110 | A match always starts with a key character. |
| MlcParser.EqShapeReadByEqPattern | src/Parser.php:79-96 | Every line of the `=` shape is read by the `=` pattern, with its key, before the white-space pattern is tried. |
| MlcParser.OtherLinesReadByWsPattern | src/Parser.php:79-96 | A line of no `=` shape gets whatever the white-space pattern makes of it. |
| MlcParser.EqualsSignTakesPrecedence | src/Parser.php:79-96 | `a = b` assigns `b` to `a`. |
| MlcParser.BareEqualsIsTheValue | src/Parser.php:79-96 | `key =` fails the `=` pattern. The white-space pattern then assigns the text `=` to `key`. |
| MlcParser.Put | src/Parser.php:90-91 | Writing to the innermost scope sets that scope's key and keeps its other keys. The stack of open sections keeps its shape. |
| MlcParser.PutKeepsEnclosing | src/Parser.php:90-91 | With a section open, the write leaves `$data` and every enclosing section as they were. |
| MlcParser.TreePut | src/Parser.php:90-91 | In the tree `$data` holds, writing to the innermost scope is setting the key in the array the open sections lead to, and nothing else (`UpdateAt`). |
| MlcParser.Pop | src/Parser.php:74 | Closing a section drops the last key from the path of open sections. |
| MlcParser.Tree | src/Parser.php:115 | `$data`: the root with every open section written back under its key (`InnermostAtPath`, `TreePut`). |
| MlcParser.OpenSection | src/Parser.php:64-69 | Pushes an empty section, unless the root has been popped (`StepOpensSection`). |
| MlcParser.CloseSection | src/Parser.php:73-75 | Pops the innermost section, or detaches at the root (`StepClosesSection`). |
| MlcParser.AssignValue | src/Parser.php:81-91 | Starts an array or assigns the coerced value (`StepAssigns`). |
| MlcParser.Step | src/Parser.php:42-112 | One iteration of the loop, in the order of the source's branches (`StepSkipsBlankAndComments` through `StepCompletesArray`). |
| MlcParser.RunFrom | src/Parser.php:41-113 | The loop over the lines, stopping at the first error (`RunAppend`, `RunStopsAtError`). |
| MlcParser.ParseSpec | src/Parser.php:41-115 | `parseFile` on the lines: the tree when the loop ends, or the first error (`ParseFile`). |
| MlcParser.InnermostAtPath | src/Parser.php:66-68 | The innermost scope is the node that the open sections' keys lead to in the tree `$data` holds, so `$stack` holds references into `$data`. |
| MlcParser.PopLeadsBack | src/Parser.php:74 | Closing the innermost section writes its entries under its key in the enclosing scope, shortens the path by that key and leaves the tree unchanged. |
| MlcParser.RunAppend | src/Parser.php:41-113 | Running the loop over two runs of lines is running it over the first, then over the second from where it stopped. |
| MlcParser.RunStopsAtError | src/Parser.php:112 | The first failing line ends the parse. No tree is returned. |
| MlcParser.StepSkipsBlankAndComments | src/Parser.php:59-61 | Outside an array, blank lines and `#` comments change nothing. |
| MlcParser.StepRejectsUnknownLine | src/Parser.php:112 | Outside an array, a line of none of the recognised shapes is a syntax error carrying the trimmed line. |
| MlcParser.StepOpensSection | src/Parser.php:64-69 | `name {` extends the path by `name` and the new innermost scope is empty. The parser stays attached and out of array mode. The tree is the old tree with an empty array set under `name` in the enclosing scope, and nothing else changes. |
| MlcParser.StepClosesSection | src/Parser.php:73-75 | `}` leaves the tree unchanged and the parser out of array mode. It moves the innermost scope out one level, or detaches the stack when only the root is left. |
| MlcParser.StepAssigns | src/Parser.php:79-110 | A value beginning `[` but not ending `]` starts a multi-line array under that key. Otherwise the coercion error is returned, or the parser stays attached and out of array mode and the tree is the old tree with the coerced value set under the key in the innermost scope, nothing else changed. |
| MlcParser.PutOverwrites | src/Parser.php:91 | A later assignment to a key in the same scope replaces the earlier one. |
| MlcParser.DetachedRunKeepsTree | src/Parser.php:74 | Once the root has been popped, no later line changes the tree. |
| MlcParser.StepKeepsDetached | src/Parser.php:74 | Once the root has been popped, one more line leaves the stack empty, the state detached and `$data` unchanged. |
| MlcParser.StepKeepsConsistent | src/Parser.php:73-75 | One line never leaves a section open on a detached stack. |
| MlcParser.RunConsistent | src/Parser.php:41-113 | Every state the loop reaches from the start has an empty stack once detached, so `StepClosesSection` applies to every state of a run. |
| MlcParser.StrayCloserFreezesResult | src/Parser.php:73-75 | After a `}` that pops the root, a successful parse returns the tree as it stood then. |
| MlcParser.ArrayLinesCollected | src/Parser.php:45-56 | Inside a multi-line array, lines not ending in `]` are only appended: a space, then the trimmed line. This holds whatever their shape, including `}`, `name {` and comments. |
| MlcParser.StepCompletesArray | src/Parser.php:45-53 | The line ending an array appends itself after a space and ends the array mode. The collected text is coerced and set under the pending key in the innermost scope, the rest of the tree unchanged, or its decoding error is returned. |
| MlcParser.UnfinishedArrayDropped | src/Parser.php:45-56 | An array still being collected when the lines run out is dropped. Its key is never assigned. |
| MlcParser.TreeIgnoresPending | src/Parser.php:115 | The returned tree does not depend on an array still being collected. |
| MlcParser.ContinueArray | src/Parser.php:45-56 | One line read inside a multi-line array takes the loop state exactly where `Step` takes it. |
| MlcParser.ReadDirective | src/Parser.php:58-112 | One line read outside an array takes the loop state exactly where `Step` takes it. |
| MlcParser.ParseFile | src/Parser.php:41-115 | The loop returns exactly what `ParseSpec` specifies for the same lines, including the same error. |
| MlcConfig.Config.constructor | src/Config.php:9 | The configuration holds the tree it is given. |
| MlcConfig.Lookup | src/Config.php:17-24 | The walk along the pieces of the exploded path (`LookupSingleKey`, `LookupDotted`, `Config.Get`). |
| MlcConfig.Config.Get | src/Config.php:15-25 | Returns the node the dot-path leads to, of any kind. Returns the default as soon as a key is missing or a non-array is reached. |
| MlcConfig.Config.Has | src/Config.php:30-33 | True exactly when the path leads to a value other than null. A stored null reads as absent. |
| MlcConfig.Config.All | src/Config.php:38-41 | Returns the tree unchanged. |
| MlcConfig.LookupSingleKey | src/Config.php:18-22 | A path without dots, including the empty path, reads one key of the root. |
| MlcConfig.LookupDotted | src/Config.php:18-24 | Looking up `p.q` continues the lookup of `p` along the pieces of `q`. A missing `p` gives nothing. |
| MlcConfig.LookupStopsBelowScalar | src/Config.php:19-20 | Nothing is found below a scalar or a missing key. |
| MlcConfig.NestedLeafFound | src/Config.php:15-25 | In `{a: {b: {c: v}}}`, over any keys without dots, `a.b.c` is `v`. |
| MlcConfig.NestedSectionFound | src/Config.php:15-25 | In the same tree, `a.b` is the inner array `{c: v}`. |
| MlcConfig.NestedMissingKey | src/Config.php:15-25 | In the same tree, `a.x.y` is absent when `x` is not `b`. |
| MlcConfig.NestedMissingLeaf | src/Config.php:15-25 | In the same tree, `a.b.z` is absent when `z` is not `c`. |
| MlcLoader.ReplaceRecursive | src/Loader.php:74 | The keys are the union of both sides. Where both sides hold arrays, the result is the recursive merge of the two arrays. Otherwise the later value replaces the earlier one, whole, and keys only the earlier side has keep their value. |
| MlcLoader.ReplaceIntoEmpty | src/Loader.php:67-74 | Merging a tree into the empty `$merged` gives that tree. |
| MlcLoader.ReplaceWithEmpty | src/Loader.php:74 | Merging an empty tree in leaves the tree as it was. |
| MlcLoader.ReplaceIdempotent | src/Loader.php:74 | Merging a tree over itself gives the same tree. |
| MlcLoader.LoadSpec | src/Loader.php:65-77 | The fold of the merge over the named files, or the first missing or unparsable file (`LoadOkIff`, `Load`). |
| MlcLoader.ListsMergeByIndex | src/Loader.php:74 | Two lists whose paired elements are not both arrays merge position by position: the later list, then the earlier list's surplus. |
| MlcLoader.ShorterListKeepsTail | src/Loader.php:74 | `[1, 2]` then `[3]` gives `[3, 2]`. |
| MlcLoader.LaterScalarWins | src/Loader.php:74 | What the later tree holds at a path is what the merged tree holds there, unless both trees hold arrays at that path. This covers an array replacing a scalar at any depth. |
| MlcLoader.UntouchedPathKept | src/Loader.php:74 | What the earlier tree holds at a path the later tree does not reach is kept. |
| MlcLoader.LoadStopsAtError | src/Loader.php:70-73 | Once a file is missing or fails to parse, the load ends with that error. |
| MlcLoader.LoadOkIff | src/Loader.php:65-77 | Loading succeeds exactly when every named file exists and parses. |
| MlcLoader.MissingFileReported | src/Loader.php:70-72 | The first missing file is reported by name. |
| MlcLoader.LoadOneFile | src/Loader.php:67-74 | Loading one file gives that file's parse. |
| MlcLoader.LastFileWins | src/Loader.php:74 | What the last file holds at a path is what the load returns there, unless the files before it also hold an array at that path. |
| MlcLoader.LoadKeepsKeys | src/Loader.php:74 | No top-level key of any loaded file is lost. |
| MlcLoader.Load | src/Loader.php:65-77 | The loop succeeds exactly when `LoadSpec` does. It returns a new `Config` over `LoadSpec`'s tree, or `LoadSpec`'s error. |

## Left out

- File access: the check at src/Parser.php:28-30 and the `file()` call. The parser starts from the lines `file()` returned.
- The `Loader` constructor, which loads `.env` files through Dotenv and reads `APP_ENV`. It does not affect `load`.
- `is_numeric`, the `(int)` cast and `json_decode`: these are parameters in `Runtime`. So is the question whether a one-line and a multi-line array decode to the same value.
- Floats are kept as their literal text, because floating-point conversion is not modelled.
- PHP turns decimal-integer keys into integers. The model keeps every key as text. PHP converts both sides of a lookup or merge the same way, so the same keys match.
- The order of keys in a PHP array: the model's maps are unordered.
- Exception messages: errors carry the offending line or file name, not the formatted message or the file path.
- `$` also matching before a final newline: lines are trimmed, so none ends in one.

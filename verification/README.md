# dip: verified models of its self-contained algorithms

`dip` is a command-line tool for containerized projects. Around its plumbing
(containers, sockets, certificates, prompts) it has a number of algorithms of
its own. This project models them in Dafny and proves what they are for.

| files | what they model |
|---|---|
| `YamlScan`, `YamlFlow`, `YamlBlock`, `YamlParser` | the YAML-subset parser: scanners, flow parser, block parser and its line rewriting |
| `YamlScalars` | what the line-level helpers make of a text, in terms of its characters, and scalars in three styles |
| `YamlPrint`, `YamlFlowRoundTrip`, `YamlFlowText`, `YamlBlockRoundTrip`, `YamlDocuments`, `YamlLiteral` | a printer for documents and for block scalars, and the round trips |
| `YamlFlowScan`, `YamlErrors` | the bracket scanner against the flow parser, on every text; the errors and their lines |
| `YamlProgress`, `YamlMerge` | what a node consumes, and which value a key has under merge keys |
| `StartOrder` | the depth-first search that orders the services of a compose project |
| `ExecArgs` | the argument vectors of `exec` and the parser that takes them apart |
| `SqlText`, `Migration` | the text of the INSERT statements, and whole migrations between MySQL and PostgreSQL |
| `Dns` | the two name walkers, the response builder and the test for the local domains |
| `Calendar` | the day-to-date formula against a Gregorian calendar defined year by year and month by month |
| `Spinner` | the ticker thread, the handles and their locks as interleaved steps |
| `Proxy` | route lookup, the names of the certificate, and the changing route table |
| `ContextFix`, `StageAlias` | the two repairs of `dip validate`, one of them against the program's own Dockerfile reader |
| `Wrappers`, `Text`, `TextLines`, `Labels` | optional results, and the string operations of the standard library that all of these rely on |

Loops and objects of the program are methods and classes here. Each is proved
to compute a function on the text, lines or state that is left to it; the
results below are lemmas about these functions.

Some properties one would expect do not hold. Each of the following is stated
as an exact condition or a condition for all inputs, with an input that shows
the failure:

- A text written as a literal block scalar with `|+` is parsed back to itself
  exactly if its first line with content is not indented further, it has such a
  line, and no line is of blanks only (`YamlLiteral.LiteralRoundTripExactly`;
  `YamlLiteral.ClippedRoundTripExactly` and `YamlLiteral.StrippedRoundTripExactly`
  for the other headers).
  Blanks on a line of their own are lost (`YamlLiteral.BlanksAreLost`), a text
  of blank lines gains one (`YamlLiteral.BlankTextGrows`), and a first line
  loses its indentation (`YamlLiteral.IndentedTextFails`).
- An apostrophe in a plain token of a flow collection, as in `[it's]`, hides the
  closing bracket from the scanner, which then asks for more lines. On all text
  whose plain tokens hold no quote and no opening bracket the scanner and the
  parser agree (`YamlFlowScan.AcceptedIsBalanced`,
  `YamlFlowScan.ApostropheMisleads`).
- An apostrophe in a plain scalar hides the comment behind it
  (`YamlScalars.QuoteFreeCrossed`, `YamlScalars.ApostropheHidesComments`).
- A flow mapping behind an anchor on a line of its own, as in `- &a {x: 1}`, is
  taken for a mapping entry; any node behind an anchor is, exactly if it holds a
  `:` in front of a space or at its end (`YamlBlockRoundTrip.AnchoredNodeExactly`,
  `YamlBlockRoundTrip.AnchoredFlowIsEntry`).
- `parse_exec_service` removes `--env=` from the front of an argument as often
  as it stands there, so `--env=--env=X=1` loses a part of its value
  (`ExecArgs.CommandLineParses`, `ExecArgs.RepeatedPrefix`).
- A text cell with a NUL character, which MySQL can hold, is refused by
  PostgreSQL, and with it the batch (`SqlText.InsertReads`,
  `SqlText.NulIsRefused`).
- A migration to PostgreSQL conserves a table exactly if no foreign key that was
  there before leads from it to a table loaded later, or it has no rows
  (`Migration.ConservedExactly`, `Migration.CascadeLosesRows`).
- A negative timestamp inside a day is shown as the following day, because
  `secs / 86_400` truncates: -1 is shown as 1970-01-01
  (`Calendar.FormatTsCorrect`, `Calendar.SecondBeforeEpoch`).
- A sync keeps one route per domain exactly if the discovered domains are
  distinct (`Proxy.SyncKeepsExactly`, `Proxy.SyncDoubles`).
- A derived wildcard stands above at least two labels, but one of them is empty
  for a domain with a dot at its end: `a.test.` gives `*.test.`
  (`Proxy.NoBareTldWildcard`, `Proxy.TrailingDotWildcard`).
- Repairing a compose file twice gives the same text exactly if no line that is
  kept ends in a carriage return in front of its line break
  (`ContextFix.FixTwiceExactly`, `ContextFix.StrayCrGoes`). A second repair
  reports a change although it makes none when a repaired line carries a
  comment (`ContextFix.ChangesAgainExactly`, `ContextFix.CommentReportsAgain`).
- A stage alias is added behind an `AS` that dangles at the end of the FROM
  line, and is then not the name that the reader sees
  (`StageAlias.AliasIsOnlyStage`, `StageAlias.DanglingAs`).

In `days_to_ymd` the division in line 164 applies to the whole `if`; with the
shift by 146 096 it is floor division (`Calendar.EraIsFloor`).

## Model

| member | source | states |
|---|---|---|
| YamlScan.QuoteAgreement | src/utils/yaml.rs:424-560 | whenever the quote reader accepts a leading scalar, the comment scanner and the depth scanner are both outside quotes right behind it, cut no comment in it and counted no bracket |
| YamlScan.StripComment | src/utils/yaml.rs:424-445 | the loop keeps exactly the text in front of the first `#` outside quotes that starts the text or follows a blank |
| YamlScan.ComputeFlowDepth | src/utils/yaml.rs:536-560 | the loop gives the net bracket depth outside quotes, and fails at the first place where it drops below zero |
| YamlScan.ReadQuoted | src/utils/yaml.rs:487-533 | both loops give the content and the text behind the closing quote, or the error for an unknown escape or a missing quote |
| YamlScan.QuotedSuffix | src/utils/yaml.rs:487-533 | what the quote reader leaves is the end of its text |
| YamlScan.ComputeSplitKey | src/utils/yaml.rs:450-475 | the scan for `:` finds the first one that ends a key, for plain and quoted keys |
| YamlScalars.QuoteFreeKept | src/utils/yaml.rs:424-445 | without quotes, a text is kept exactly up to its first `#` at the start or behind a space or tab |
| YamlScalars.QuoteFreeCrossed | src/utils/yaml.rs:424-445 | such a text lets the scanner pass to what follows it if and only if it holds no comment |
| YamlScalars.NoHashKept | src/utils/yaml.rs:424-445 | a text without `#` is kept as a whole, quotes or not |
| YamlScalars.ApostropheHidesComments | src/utils/yaml.rs:430-436 | behind an apostrophe in a plain text no comment is cut |
| YamlScalars.QuoteFreeDepth | src/utils/yaml.rs:536-560 | without quotes, the depth is the number of opening minus closing brackets, and an error exactly if that is negative for some prefix |
| YamlScalars.ScalarReads | src/utils/yaml.rs:487-533 | every text in double quotes with the six escapes, or in single quotes with doubled apostrophes, is read back to itself, and what follows is left |
| YamlScalars.UnterminatedFails | src/utils/yaml.rs:529-532 | without its closing quote it is refused |
| YamlScalars.UnknownEscapeFails | src/utils/yaml.rs:517-522 | so is a backslash in front of any other character |
| YamlScalars.QuotedTokenExactly | src/utils/yaml.rs:563-575 | as a token a quoted scalar is its text if only white space follows, and refused otherwise |
| YamlScalars.IntegerReads | src/utils/yaml.rs:586-588 | digits with an optional sign and any zeros in front are that integer if it fits 64 bits, and a float otherwise |
| YamlScalars.FloatReads | src/utils/yaml.rs:590-596 | a decimal literal with a point or an exponent is a float |
| YamlScalars.FloatParts | src/utils/yaml.rs:590-596 | nothing but sign, digits with an optional point and optional exponent is one |
| YamlScalars.StringTextReads | src/utils/yaml.rs:585-599 | every other text that does not start like a number, or holds a character no number has, is a string |
| YamlScalars.PlainSplits | src/utils/yaml.rs:464-474 | without quotes a line is split at the first `:` in front of a space or the end, key trimmed, and is no entry if there is none or no key in front of it |
| YamlScalars.PlainKeySplits | src/utils/yaml.rs:464-474 | a plain key and `:` with nothing or a space behind it is split into that key and the trimmed rest |
| YamlScalars.QuotedKeySplits | src/utils/yaml.rs:454-463 | so is a quoted key, white space in front of the colon included |
| YamlScalars.QuotedIsNoEntry | src/utils/yaml.rs:454-463 | a quoted scalar without a colon behind it is no entry |
| YamlScalars.PortsAreNoEntry | src/utils/yaml.rs:464-474 | `8080:80` is no entry, and a string |
| YamlScalars.WordSplits | src/utils/yaml.rs:478-483 | a word is cut at the first space, and the rest is trimmed |
| YamlFlow.FlowValue | src/utils/yaml.rs:627-652 | what a flow value leaves is the same text or a shorter one, so that the mutually recursive flow parser ends |
| YamlFlow.FlowParser.Token | src/utils/yaml.rs:655-673 | takes the token up to the next flow separator; a `:` in a token stays unless a separator follows |
| YamlFlow.FlowParser.ParseValue | src/utils/yaml.rs:627-652 | value, error and new position are those of the specification on the remaining characters |
| YamlFlow.FlowParser.ParseSeq | src/utils/yaml.rs:675-700 | the loop ends, and gives the items in order up to the closing bracket, or the first error |
| YamlFlow.FlowParser.ParseMap | src/utils/yaml.rs:702-742 | the loop ends, and gives the fields, later ones overriding earlier ones, or the first error |
| YamlFlowRoundTrip.TokenIs | src/utils/yaml.rs:655-673 | a token is what stands in front of the first comma, closing bracket, or colon in front of one of these, a space or the end |
| YamlBlock.Virtual | src/utils/yaml.rs:216-228 | the rewritten line of `- content` has non-empty, shorter text at a deeper indentation, and its text is still a trimmed prefix of its raw content |
| YamlBlockRoundTrip.VirtualIs | src/utils/yaml.rs:216-228 | that line is the content at its column, with the number of its line and what stood behind it |
| YamlBlock.ParseNode | src/utils/yaml.rs:133-150 | a node on a sufficiently indented line consumes at least one line or fails; the recursion ends although sequences rewrite a line without advancing |
| YamlBlock.ParseItems | src/utils/yaml.rs:206-233 | a sequence that starts at its indentation consumes a line |
| YamlBlock.ParseEntries | src/utils/yaml.rs:152-204 | a mapping that starts at its indentation consumes a line |
| YamlProgress.NodeConsumes | src/utils/yaml.rs:133-150 | the lines left by a node are the end of the lines it was given: nothing behind the node was changed or dropped |
| YamlParser.OrInsertAll | src/utils/yaml.rs:189-191 | merging adds the keys that are missing and overrides none |
| YamlParser.MergeAll | src/utils/yaml.rs:175-192 | among several merge sources earlier ones win; a source that is no mapping is an error |
| YamlParser.Lex | src/utils/yaml.rs:56-81 | every source line becomes one line with its indentation and its text without comment, or a tab in the indentation is reported |
| YamlParser.Parser.ParseNode | src/utils/yaml.rs:133-150 | the object's method answers, moves and learns anchors as specified, and ends |
| YamlParser.Parser.ParseMapping | src/utils/yaml.rs:152-204 | the loop over entries with `own` and `merged` answers and moves as specified |
| YamlParser.Parser.ParseSequence | src/utils/yaml.rs:206-233 | the loop that rewrites the current line in place answers and moves as specified, and ends |
| YamlParser.Parser.EnterItem | src/utils/yaml.rs:212-228 | a bare dash is passed; otherwise the line at the position is replaced by its own content and nothing else changes |
| YamlParser.Parser.ParseValueAfterKey | src/utils/yaml.rs:237-263 | inline values, nested blocks, block scalars and anchors behind a key |
| YamlParser.Parser.ParseInlineValue | src/utils/yaml.rs:267-316 | aliases, anchors, flow collections over several lines, and scalars |
| YamlParser.Parser.ParseBlockScalar | src/utils/yaml.rs:318-411 | literal and folded scalars with the three ways of chomping |
| YamlParser.Parse | src/utils/yaml.rs:35-37 | the whole parser ends on every input and gives the specified value or error |
| YamlPrint.AddAllHolds | src/utils/yaml.rs:194 | with distinct keys an object holds exactly the entries inserted into it |
| YamlFlowRoundTrip.FlowReads | src/utils/yaml.rs:609-742 | flow text of any value, with any spaces around its brackets, commas and colons, trailing commas, plain and quoted scalars and keys, and known aliases, is read to that value, and nothing behind it is |
| YamlFlowText.FlowCrosses | src/utils/yaml.rs:424-560 | such text passes comment stripping unchanged, leaves the bracket depth as it was and never drops below it |
| YamlFlowText.OpenUntilEnd | src/utils/yaml.rs:536-560 | the bracket depth of a flow collection is zero at its end and positive at every earlier place |
| YamlBlockRoundTrip.GatherReads | src/utils/yaml.rs:284-301 | lines are gathered, blank ones skipped and each behind one space, until the brackets are closed |
| YamlBlockRoundTrip.NodeReads | src/utils/yaml.rs:133-316 | the rows of a tree, with blank lines between them and in front of lines that are indented less, are read to its value and its anchors, and leave those lines |
| YamlBlockRoundTrip.EntriesPass | src/utils/yaml.rs:152-204 | the entries of a mapping are read to their values and the anchors behind them, merge keys included, whatever follows |
| YamlBlockRoundTrip.InlineAnchorReads | src/utils/yaml.rs:278-286 | on a line without a key an anchor names the value behind it |
| YamlBlockRoundTrip.InlineAnchorFails | src/utils/yaml.rs:278-282 | there it must have a name and be given a value |
| YamlBlockRoundTrip.AnchoredNodeExactly | src/utils/yaml.rs:140-145 | a node behind an anchor is taken for a mapping entry if and only if a `:` in front of a space or the end stands behind the anchor |
| YamlBlockRoundTrip.AnchoredFlowIsEntry | src/utils/yaml.rs:464-474 | so `&a {x: 1}` is the entry `&a {x` |
| YamlDocuments.BlockRoundTrip | src/utils/yaml.rs:35-316 | every document of mappings, sequences, plain and quoted keys and scalars, flow collections on one or more lines, nulls, anchors, aliases and merge keys is parsed to exactly its value, at any indentation, with or without document markers, blank lines, comments, trailing blanks and carriage returns |
| YamlDocuments.ImageParses | src/utils/yaml.rs:450-475 | `image: nginx # web` is the object with `nginx` under `image` |
| YamlDocuments.LettersArePlain | src/utils/yaml.rs:450-475 | words of letters can be plain keys, and plain values unless they are core-schema words |
| YamlDocuments.PortsArePlain | src/utils/yaml.rs:464-474 | so can `8080:80` |
| YamlDocuments.EmptyRoundTrip | src/utils/yaml.rs:133-136 | nothing but blank lines and comments is null |
| YamlDocuments.TabsExactly | src/utils/yaml.rs:56-81 | the lines are accepted if and only if none is indented by a tab, and the first such line is reported |
| YamlDocuments.DirectiveFails | src/utils/yaml.rs:104-111 | a directive is refused with its line |
| YamlDocuments.ContentBehindFails | src/utils/yaml.rs:112-131 | a second document, or any text behind the end of the first, is refused with its line |
| YamlLiteral.CollectsExactly | src/utils/yaml.rs:347-368 | the lines of a block scalar are collected as written, and nothing behind them, if and only if the first one with content shows the base indentation |
| YamlLiteral.LiteralText | src/utils/yaml.rs:369-410 | keeping gives all lines with their line breaks, clipping those up to the last one with content, stripping the same without the last line break |
| YamlLiteral.BlankText | src/utils/yaml.rs:396-410 | a scalar of blank lines only is empty, but keeping gives one line break more than it has lines |
| YamlLiteral.FoldParagraph | src/utils/yaml.rs:376-392 | folding joins the lines of a paragraph by spaces up to the next blank line |
| YamlLiteral.LiteralRoundTripExactly | src/utils/yaml.rs:318-411 | a text written under the keeping header is parsed back to itself, trailing blank lines included, if and only if its first line with content shows the indentation, it has such a line, and no line is of blanks only |
| YamlLiteral.ClippedRoundTripExactly | src/utils/yaml.rs:318-411 | under the plain header, if and only if it also has no blank line at its end |
| YamlLiteral.StrippedRoundTripExactly | src/utils/yaml.rs:318-411 | under the stripping header a text without line break at its end is, on the same condition |
| YamlLiteral.FoldedParagraphs | src/utils/yaml.rs:376-411 | paragraphs under a folding header are parsed to one line each, with the line break the chomping gives |
| YamlLiteral.HeaderReads | src/utils/yaml.rs:318-345 | each of the six headers folds and chomps what is collected as it says |
| YamlLiteral.HeaderFails | src/utils/yaml.rs:337-345 | a header with a digit or anything else behind its indicators is refused |
| YamlLiteral.ScalarParses | src/utils/yaml.rs:347-411 | otherwise lines of blanks become empty ones: under every header the value is the text of the lines so changed |
| YamlLiteral.BlanksAreLost | src/utils/yaml.rs:352-356 | the text `a`, two blanks, `b` is parsed to `a`, an empty line, `b` |
| YamlLiteral.BlankTextGrows | src/utils/yaml.rs:403-408 | a text of one empty line is parsed to two |
| YamlLiteral.IndentedTextFails | src/utils/yaml.rs:360-367 | a text of one indented line is not parsed to itself |
| YamlFlowScan.ValueScans | src/utils/yaml.rs:536-742 | on every text that the flow parser accepts and whose plain tokens hold no quote and no opening bracket, the scanner sees what the parser leaves as a scan that starts there |
| YamlFlowScan.AcceptedIsBalanced | src/utils/yaml.rs:290-309 | such text, accepted as a whole, has bracket depth zero, so no further line is gathered for it |
| YamlFlowScan.ApostropheMisleads | src/utils/yaml.rs:536-560 | `[it's]` is accepted by the parser and has depth one for the scanner |
| YamlErrors.BadValueRowFails | src/utils/yaml.rs:152-263 | a mapping whose last line is an entry with a refused value is refused with that error and line |
| YamlErrors.DeeperRowFails | src/utils/yaml.rs:161-165 | a line deeper than the entries in front of it is refused |
| YamlErrors.NoKeyRowFails | src/utils/yaml.rs:168-170 | so is a line without a key |
| YamlErrors.BadMergeFails | src/utils/yaml.rs:175-188 | a merge key is refused if it is not given mappings |
| YamlErrors.UnknownAliasFails | src/utils/yaml.rs:268-277 | an alias without an anchor is refused |
| YamlErrors.ContentBehindAliasFails | src/utils/yaml.rs:268-272 | so is anything behind an alias |
| YamlErrors.EmptyNameFails | src/utils/yaml.rs:248-251 | so is an anchor without a name |
| YamlErrors.TagFails | src/utils/yaml.rs:311-313 | so is a tag |
| YamlErrors.QuotedFails | src/utils/yaml.rs:563-573 | so is content behind a quoted scalar |
| YamlErrors.OpenQuoteFails | src/utils/yaml.rs:529-532 | so is a quoted scalar without its end |
| YamlErrors.EscapeFails | src/utils/yaml.rs:517-522 | so is an unknown escape |
| YamlErrors.ExtraBracketFails | src/utils/yaml.rs:551-556 | a flow collection with a bracket too many is refused |
| YamlErrors.OpenFlowFails | src/utils/yaml.rs:291-293 | one that is cut anywhere before its end, with no more lines, is refused as unclosed |
| YamlErrors.ContentBehindFlowFails | src/utils/yaml.rs:306-309 | one with content behind it is refused |
| YamlErrors.ItemEndFails | src/utils/yaml.rs:687-698 | an item in front of the wrong bracket is refused |
| YamlErrors.FieldEndFails | src/utils/yaml.rs:730-740 | so is a field |
| YamlErrors.MissingColonFails | src/utils/yaml.rs:724-726 | so is a key without a colon |
| YamlErrors.NothingFails | src/utils/yaml.rs:650-716 | nothing where a value, an item or a field must be is refused |
| YamlMerge.MergePriority | src/utils/yaml.rs:152-204 | in every mapping that parses a key has its last explicit value, and without one its value in the first merge source that has it |
| YamlMerge.FieldsAddUp | src/utils/yaml.rs:152-204 | accepted entries add up to the object with exactly these values |
| YamlMerge.DistinctEntries | src/utils/yaml.rs:193-203 | without merge keys and with distinct keys that object holds exactly the entries |
| YamlDocuments.FlowRoundTrip | src/utils/yaml.rs:35-37 | flow text of any value is a document of its own and parsed to it |
| StartOrder.VisitKeeps | src/runtime/apple.rs:866-886 | a visit keeps the search invariant: no service twice, every dependency of a finished service before it or on a cycle with it |
| StartOrder.StartOrderCorrect | src/runtime/apple.rs:845-886 | on every graph, cycles included: without a service all configured services, with one exactly those it reaches over dependencies, each once, dependencies first unless on a cycle; an error exactly for a service that is not configured |
| StartOrder.StartOrderTopological | src/runtime/apple.rs:856-886 | without cycles every configured dependency precedes its dependents |
| StartOrder.EarlierNamesFirst | src/runtime/apple.rs:853-864 | without a service, what the first names need is listed before all others |
| StartOrder.Walk.VisitService | src/runtime/apple.rs:866-886 | the recursive method that extends `seen` and `order` ends and makes the specified visit; an unknown service is an error |
| StartOrder.ComputeStartOrder | src/runtime/apple.rs:856-864 | the loop over the roots gives the specified order |
| ExecArgs.ParseExecService | src/runtime/apple.rs:894-949 | the loop over the arguments finds what the specification says, with every spelling of an option |
| ExecArgs.DirectorySplits | src/runtime/apple.rs:930-935 | cutting `--workdir=` and `--cwd=` arguments at the first `=` gives all of the value |
| ExecArgs.TranslatedExactly | src/runtime/apple.rs:920-929 | the options come out as they were meant if and only if no assigned environment value repeats its option |
| ExecArgs.CommandLineParses | src/runtime/apple.rs:894-949 | for any options, any service without leading dash and any command: service, translated options in order, and the command as the untouched rest |
| ExecArgs.ParsedIsCommandLine | src/runtime/apple.rs:894-949 | the parser accepts nothing but such command lines |
| ExecArgs.PlainTranslates | src/runtime/apple.rs:456-471 | the vector that is run is `exec`, the options as meant, the container and the command |
| ExecArgs.BuildExecArgs | src/commands/shell.rs:69-82 | the vector is a command line with `-i`, the directory if there is one, and the command, a single word with white space becoming a shell line |
| ExecArgs.BuiltCommandTranslates | src/commands/shell.rs:69-82 | what `dip exec` builds reaches the container with the same command and directory |
| ExecArgs.ShellLines | src/commands/shell.rs:69-82 | one word with white space is run by a shell, everything else as it is |
| ExecArgs.BuildConsoleArgs | src/commands/db.rs:196-208 | the loop over the pairs builds a command line with one `-e` a pair, and `-it` |
| ExecArgs.BuiltConsoleTranslates | src/commands/db.rs:196-208 | the console gets every pair in order and unchanged, both streams, and its command |
| ExecArgs.RepeatedPrefix | src/runtime/apple.rs:920-924 | a value that repeats `--env=` is not handed on as written |
| SqlText.FiveReplacesAreOnePass | src/db/migrate.rs:1279-1285 | the five successive replacements escape each character once, as one pass would |
| SqlText.LiteralReads | src/db/migrate.rs:1181-1217 | the literal of a null, boolean, integer, text or bytes cell is read by the target as that cell; it is refused exactly if the target is PostgreSQL and the text holds a NUL character |
| SqlText.HexReads | src/db/migrate.rs:1259-1261 | the hexadecimal text of any bytes is read back to them |
| SqlText.IdentReads | src/db/migrate.rs:1267-1277 | a quoted identifier is read back to its name, quotes in it included |
| SqlText.IdentIs | src/db/migrate.rs:1267-1277 | PostgreSQL quotes names with quotation marks, MySQL with backticks |
| SqlText.LiteralIs | src/db/migrate.rs:1181-1217 | the spelling of null, booleans, plain text and bytes in each dialect |
| SqlText.ValuesRead | src/db/migrate.rs:808-819 | the VALUES text of any batch is read back to the same matrix of cells, and refused exactly if one of them is |
| SqlText.InsertReads | src/db/migrate.rs:820-825 | the whole statement is read back to its table, columns and rows, in both dialects, unless a cell is refused |
| SqlText.PostgresInsertIs | src/db/migrate.rs:820-825 | one statement for PostgreSQL, character by character |
| SqlText.MySqlInsertIs | src/db/migrate.rs:820-825 | the same statement for MySQL |
| SqlText.NulIsRefused | src/db/migrate.rs:1271-1273 | the one character NUL has no literal in PostgreSQL, and one in MySQL |
| Migration.ChunksShape | src/db/migrate.rs:770-796 | the batches are the rows in order; all but the last have 500 rows, and none is empty or longer |
| Migration.InsertBatch | src/db/migrate.rs:799-831 | an accepted batch is appended as the server reads its text; a refused one changes nothing |
| Migration.TransferTable | src/db/migrate.rs:747-797 | at every outcome the target holds a prefix of the source rows in full batches; on success all of them, and their number is returned |
| Migration.ReferencingIsRefers | src/db/migrate.rs:754-762 | what a cascading truncation empties are exactly the tables that refer to it over a chain of foreign keys |
| Migration.CreateAndLoad | src/db/migrate.rs:161-189 | all tables are created before any is loaded; after a success each holds what the later truncations left; after a failure in a table, those before it hold what the truncations up to there left, it holds a prefix of its rows in full batches, those behind it are not loaded, and no key has changed |
| Migration.TotalRowsAdd | src/db/migrate.rs:161-189 | the number that is reported counts the rows of every table once |
| Migration.MigrateMysqlToPg | src/db/migrate.rs:161-237 | on a target without foreign keys, with the truncations accepted, every selected table holds exactly its source rows in order; what is sent is, in order, the tables, the data, one index per declared index, one sequence per declared sequence and one key per declared reference, or a beginning of that at a failure; the keys are those of before and exactly the declared ones that were accepted, child first; other tables keep their rows unless a cascade reaches them; a failed run leaves a known state |
| Migration.CascadeLosesRows | src/db/migrate.rs:754-762 | with a key from `a` to `b`, loading `a` and then `b` leaves `a` empty |
| Migration.MigratePgToMysql | src/db/migrate.rs:240-322 | the same for MySQL, whatever foreign keys the target has, statements in their order and keys included |
| Migration.ConservedExactly | src/db/migrate.rs:754-762 | over foreign keys that were there before, a table is conserved if and only if it is empty or no chain of keys leads from it to a table loaded later |
| Dns.ComputeReadName | src/dns/server.rs:186-211 | the loop gives the joined labels and the offset behind the name |
| Dns.ComputeSkipName | src/dns/server.rs:214-230 | the loop gives the offset behind the name |
| Dns.WalkersAgree | src/dns/server.rs:186-230 | reading succeeds exactly where skipping does and every label is valid UTF-8, and both stop at the same offset |
| Dns.Utf8Exactly | src/dns/server.rs:204-206 | the labels that are accepted are exactly the encodings of Unicode scalar values by section 3 of RFC 3629 |
| Dns.EncodedNameReads | src/dns/server.rs:186-211 | the encoding of section 3.1 of RFC 1035 of labels of 1 to 63 bytes is read to their dotted form and its end |
| Dns.EndsWithLabels | src/dns/server.rs:77-79 | for all texts, the textual test for a domain holds exactly if its labels end the name's labels |
| Labels.EndsByParts | src/dns/server.rs:77-79 | the same for texts over any elements and any separator |
| Dns.NameMatchesByLabels | src/dns/server.rs:77-79 | however names are lowered, a name is local exactly if the labels of some local domain end those of the lowered name |
| Dns.MatchesTldByLabels | src/dns/server.rs:73-80 | the same for a query that starts with an encoded name, in terms of the lowered labels |
| Dns.MatchesTldAscii | src/dns/server.rs:73-80 | for ASCII labels without dots the labels are lowered one by one |
| Dns.LowerForgetsCase | src/dns/server.rs:73-80 | ASCII texts are lowered to the same text exactly if they differ in the case of letters only |
| Dns.LowerKeepsLower | src/dns/server.rs:73-80 | a lower-case text is lowered to itself |
| Dns.ComputeQuestionSectionEnd | src/dns/server.rs:169-183 | the loop over the questions finds the end of the section, or reports that it is not there |
| Dns.EncodedQueryReads | src/dns/server.rs:169-183 | for a query whose questions are encoded by section 4.1.2 of RFC 1035, type and class included, the section ends behind them, and the first name and its type are read |
| Dns.MakeResponse | src/dns/server.rs:88-123 | it answers exactly the queries whose first question and question section can be read; the counts, the flags, the copied section and the answer are where they belong, and no index is out of range |
| Dns.ResponseReparses | src/dns/server.rs:88-183 | the response parses to the query's first question and question section; behind it stands one A record for the name at offset 12 exactly if the type is 1, and nothing else |
| Dns.ResponseIs | src/dns/server.rs:88-123 | the response to such a query, byte by byte: its identifier, the flags, the counts, the encoded questions, and for type A one record with the address 127.0.0.1 for 60 seconds |
| Dns.AddressIsAnswered | src/dns/server.rs:88-123 | the bytes of the response to the query for the address of `a` |
| Calendar.WideDateCorrect | src/commands/cert.rs:161-172 | before narrowing, the formula gives for every day count the valid date with that day number |
| Calendar.DaysToYmdCorrect | src/commands/cert.rs:161-174 | the answer is the date of the day if and only if the day is between the first and the last one whose year fits 32 bits |
| Calendar.DaysToYmdOnto | src/commands/cert.rs:161-174 | every date with such a year is the answer for its own day number |
| Calendar.DateTextReads | src/commands/cert.rs:157 | the printed date reads back to year, month and day |
| Calendar.DateWidth | src/commands/cert.rs:157 | a date with a year of at most four digits has ten characters, and a longer year is written as it is |
| Calendar.FormatTsCorrect | src/commands/cert.rs:150-158 | the printed text is the date of the timestamp's day if and only if the year fits and the timestamp is not negative or starts a day |
| Calendar.SecondBeforeEpoch | src/commands/cert.rs:154 | the timestamp -1 is shown as 1970-01-01 |
| Spinner.StepKeepsInv | src/utils/spinner.rs:69-209 | every step of the ticker, the handles and their locks keeps the invariant |
| Spinner.NothingAfterFinish | src/utils/spinner.rs:99-160 | in every interleaving the finishing output comes at most once, and exactly once if the spinner has finished; no frame and no redraw comes after it |
| Spinner.OutputIsWritten | src/utils/spinner.rs:82-160 | in every interleaving the output is what the order of the steps says: every printed line in its turn, redrawn exactly while animated; each frame with the next picture and the message set last; the finishing output in the mode of the first call to finish that has its turn |
| Spinner.AllDroppedStops | src/utils/spinner.rs:172-189 | when all handles are dropped the spinner has finished, its ticker is gone and both locks are free |
| Spinner.SomeoneProceeds | src/utils/spinner.rs:129-169 | no deadlock: whenever a thread is inside a call some thread can go on, and one that joins does not hold the lock the ticker needs |
| Spinner.FinishedCallsReturn | src/utils/spinner.rs:129-209 | once finished, the steps still possible without new calls are bounded, no frame and no finishing output is written, and when none is left every call, join and drop has returned and the ticker has ended |
| Proxy.MatchRouteCorrect | src/proxy/router.rs:9-27 | the first exact route if there is one, else the last of the longest matching wildcards; nothing only if nothing matches |
| Proxy.WildcardHosts | src/proxy/router.rs:19-25 | a wildcard serves exactly the hosts that end in a dot and what follows its star |
| Proxy.ComputeWildcardSans | src/proxy/certs.rs:312-331 | the loop collects the wildcards of all domains |
| Proxy.ComputeNeededSans | src/proxy/certs.rs:84-102 | the loop adds the star-free domains that no wildcard covers |
| Proxy.OneLabelBelowIsParent | src/proxy/certs.rs:158-165 | a wildcard matches exactly the names one label below it (section 6.4.3 of RFC 6125) |
| Proxy.CoversExactly | src/proxy/certs.rs:84-165 | a star-free host is covered if and only if some domain is the host, a wildcard one label above it, or a domain of three or more labels with the same parent |
| Proxy.CertificateCoversRouter | src/proxy/certs.rs:84-102 | every star-free host the router serves exactly, or by a wildcard one label above, is covered by the certificate of the same routes |
| Proxy.NoBareTldWildcard | src/proxy/certs.rs:312-331 | a derived wildcard stands above the labels but the first of some domain, and these are at least two; none is empty if the domains have no empty label |
| Proxy.TrailingDotWildcard | src/proxy/certs.rs:321-326 | `a.test.` gives the wildcard `*.test.`, above `test` and an empty label |
| Proxy.LongerInBytes | src/proxy/router.rs:26 | of two wildcards for the same host the one with more characters has more bytes, so the length in bytes picks the most specific |
| Proxy.RouteTable.HandleStart | src/proxy/watcher.rs:114-138 | the loop of removals and insertions under the lock makes the specified change, and none without an address |
| Proxy.RouteTable.HandleStop | src/proxy/watcher.rs:141-159 | exactly the routes of the container's domains go |
| Proxy.RouteTable.Add | src/commands/proxy/routes.rs:46-58 | the route of the domain is replaced or added |
| Proxy.RouteTable.Remove | src/commands/proxy/routes.rs:61-74 | the route of the domain goes, and success is reported exactly if there was one |
| Proxy.RouteTable.Sync | src/commands/proxy/routes.rs:148-169 | the discovered routes replace those of their domains |
| Proxy.RouteTable.Unsync | src/commands/proxy/routes.rs:107-119 | exactly the routes of the project's domains go |
| Proxy.StartedRoutes | src/proxy/watcher.rs:128-137 | after a start each domain of the container has the route of its last entry only, and the others stay in order |
| Proxy.ChangedHolds | src/proxy/watcher.rs:114-159 | which routes the table holds after each kind of change, and no others |
| Proxy.NewRoutesLast | src/commands/proxy/routes.rs:46-58 | added and discovered routes come last, in their order |
| Proxy.UpstreamsAre | src/proxy/watcher.rs:119-127 | each domain is routed to the address, a colon and the port of its entry |
| Proxy.ChangesKeep | src/proxy/watcher.rs:114-159 | every interleaving of changes, each sync with distinct domains, keeps at most one route per domain |
| Proxy.SyncKeepsExactly | src/commands/proxy/routes.rs:163-169 | a sync keeps one route per domain if and only if the discovered domains are distinct |
| Proxy.SyncDoubles | src/commands/proxy/routes.rs:163-169 | a route that is discovered twice is in the table twice |
| Proxy.UnsyncAfterSync | src/commands/proxy/routes.rs:107-169 | unsync after sync leaves exactly the other domains' routes, in order |
| ContextFix.ApplyContextFixes | src/commands/validate.rs:274-354 | the loop with its four state variables rewrites exactly the specified lines, and reports whether there was one |
| ContextFix.ReplacesExactly | src/commands/validate.rs:287-347 | a line is rewritten if and only if it is a `context:` line with another value inside a `build:` block of a service named in the fixes inside a `services:` block, by indentation; it gets the value for that service |
| ContextFix.OpensExactly | src/commands/validate.rs:291-325 | a block is opened by its name and colon with nothing but white space behind them |
| ContextFix.QuotedKeys | src/commands/validate.rs:356-368 | keys in quotes are read without them |
| ContextFix.NoKeys | src/commands/validate.rs:356-368 | items, comments, flow collections and texts with spaces are no keys |
| ContextFix.RewrittenLine | src/commands/validate.rs:356-379 | a rewritten line keeps its indentation and key, carries the new value, and rewriting it again changes nothing |
| ContextFix.RewrittenTo | src/commands/validate.rs:370-379 | the old key, a space, the new value, and the comment, if there is one, two spaces behind it |
| ContextFix.FixKeepsLineCount | src/commands/validate.rs:279-353 | the repaired text has as many lines |
| ContextFix.FixLinesTwice | src/commands/validate.rs:287-347 | on lines, a second repair changes nothing |
| ContextFix.ChangesAgainExactly | src/commands/validate.rs:342-345 | a second repair reports a change if and only if a rewritten line has a `#` behind its colon |
| ContextFix.FixTwiceExactly | src/commands/validate.rs:274-354 | on text, a second repair changes nothing if and only if no kept line ends in a stray carriage return |
| ContextFix.StrayCrGoes | src/commands/validate.rs:279-353 | of two carriage returns in front of a line break each repair takes one away |
| ContextFix.CommentReportsAgain | src/commands/validate.rs:342-345 | a compose file with a commented context is reported as changed a second time and is not |
| StageAlias.ComputeDockerfileStages | src/runtime/compose_file.rs:138-164 | the nested loops collect the stage behind the first `AS` of every FROM line |
| StageAlias.LineHasFromAlias | src/commands/validate.rs:416-427 | the loop finds an `AS` with something behind it in front of the first comment token |
| StageAlias.SpellingsOfAs | src/commands/validate.rs:416-427 | the keyword is one of the four spellings of `AS` |
| StageAlias.SpellingsOfFrom | src/commands/validate.rs:388-400 | the line starts with any spelling of `FROM` |
| StageAlias.NamedInAnyCase | src/runtime/compose_file.rs:138-164 | a FROM line with a stage in any case of its keywords: the reader finds the name without quotes, and the repair leaves the file alone |
| StageAlias.QuotesGo | src/runtime/compose_file.rs:601-610 | quotes around a safe name are not part of it |
| StageAlias.CommentIsNoAlias | src/commands/validate.rs:416-436 | an `AS` in a comment is no alias: the line gets one in front of the comment |
| StageAlias.ComputeAddStageAlias | src/commands/validate.rs:388-414 | the loop changes the first FROM line only, and nothing if it has an alias |
| StageAlias.AliasTokens | src/commands/validate.rs:429-436 | the alias stands between the kept words of the line and its comment |
| StageAlias.AliasIsRead | src/commands/validate.rs:429-436 | on a FROM line without a stage the reader finds the target, or a stage called `AS` if one dangles in front of it |
| StageAlias.AliasAdded | src/commands/validate.rs:388-414 | no other line changes, and the reader finds the stages of before and the new one |
| StageAlias.AliasIsOnlyStage | src/commands/validate.rs:388-436 | a file without stages gets exactly the target if and only if no `AS` dangles on its first FROM line, or the target is `AS` itself |
| StageAlias.DanglingAs | src/commands/validate.rs:388-436 | for every image name, a file of the line `FROM`, the image, `AS` gets a stage called `AS` |
| StageAlias.DanglingApp | src/commands/validate.rs:388-436 | the stage of `FROM a AS` becomes `AS` and not `app` |
| TextLines.TextReads | src/commands/validate.rs:349-353 | lines joined again are read as the same lines, but for a carriage return in front of a line break |

## Left out

- YamlScan.PlainScalar: a float literal keeps its text; floating-point conversion, and the fall-back to a string on overflow to infinity, are not modelled.
- YamlBlock.ReadLine: indentation and comments are counted in characters; the program counts bytes, which is the same because only spaces are counted.
- YamlDocuments.BlockRoundTrip: plain scalars and keys are those whose quotes, if any, are closed in pairs, and in flow style those without quotes; anchors stand behind keys, aliases anywhere. Block scalars have round trips of their own in documents of one entry.
- YamlFlowScan.AcceptedIsBalanced: the condition is sufficient and not necessary, since quotes in plain tokens may come in pairs.
- StartOrder.StartOrder: the services are a list of names and a map; the ordered map of the program fixes the order of that list.
- Migration.CreateTables: tables that exist already are required to have the column types that the migration expects, without which no statement about their rows can be made; column types are four kinds of cells.
- Migration.Database: a server is modelled as a map of tables whose statements are accepted or refused at will; transactions, constraints on values and other clients are left out, and so are the texts of the CREATE, INDEX and ALTER statements and the two FOREIGN_KEY_CHECKS statements.
- SqlText.LiteralReads: float, decimal, date, time and JSON cells are formatted by other code; session settings that change how literals are read are taken to be the defaults.
- Dns.MatchesTldAscii: the mapping of `to_lowercase` is written out for ASCII only; for other letters the results hold with the lowered name as it is, and the mapping itself is a parameter.
- Dns.ResponseReparses: nothing is claimed about a response to a query without questions.
- Calendar.DaysToYmd: integers are unbounded except for the year; the 64-bit overflow of the first addition near the ends of the range is left out.
- Spinner.Apply: the program is modelled as steps on values and not as threads; one critical section is one step, the condition variable may wake at any time, poisoned locks are left out, and what is written to the terminal is kept as events.
- Proxy.RouteTable: the table is one object whose changes are whole steps; the inspection of a container happens before its step, and reading and saving the configuration file, the labels of containers, the stored certificate and its renewal are left out.
- Proxy.CertificateCoversRouter: hosts two or more labels below a wildcard are served by the router but not covered, so nothing is stated about them.
- ContextFix.YamlKey: indentation is counted in characters; the program counts bytes, which differs for white space other than ASCII.
- ContextFix.GoodFixes: the results about a second repair are stated for values without `#`, line breaks and white space at their ends; the program only ever uses `.`.
- StageAlias.AliasAdded: lines continued with a backslash are read by the program as lines of their own, and so they are here.
- ExecArgs.Translate: how a container is named and how the command is run are parameters.
- Sockets, TLS, proxying, DNS forwarding, subprocesses, signals, the Docker API, certificate generation, file permissions, prompts, tables, templates and benchmarks are input and output through other libraries.
- Type maps, number formatting, host label parsing and detection of database services would only add members that say what one body says.

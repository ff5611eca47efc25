# dts_style: a verified model of the devicetree source style checker

`dtschema/dts_style.py` reads a devicetree source file line by line. It reports
style warnings: whitespace around labels and braces, upper case, hyphens and
underscores in labels and node names, the spelling of unit addresses, and
siblings out of order. The engine is the `DtsStyle` object. It keeps three
pieces of state:

- the list of warnings, appended to only;
- the nesting depth `nested`, with no guard, so it can go below zero;
- `prev_node`, a map from depth to the last marker (name, unit address, label)
  seen at that depth.

Each line goes to the first of four handlers whose pattern matches:

1. a node header `label: name@addr {`;
2. an override header `&label {`;
3. any other line with a `{`;
4. a line ending in `};`.

The model has eight modules, one per file:

| file | module | contents |
|---|---|---|
| `wrappers.dfy` | `Wrappers` | `Option` and `Result` |
| `text.dfy` | `Text` | the character classes `\s` and `[a-zA-Z0-9,_-]`; greedy runs; `rstrip('\n')`; Python's `<` on `str` (`LexLess`) |
| `hex.dfy` | `Hex` | `int(u, 16)` on unit addresses, as a total function returning `None` where Python raises `ValueError` |
| `classify.dfy` | `LineClassifier` | hand-written matchers for the four fixed patterns, proved sound and complete against a predicate that spells out each pattern's groups; the handler order |
| `rules.dfy` | `StyleRules` | the warning kinds and their messages; the header checks as ordered lists of `Check(kind, holds)`; the sibling comparator `SortingCheck`; the leading-zero pattern |
| `engine.dfy` | `StyleEngine` | the checker state as a value; one function per handler; `Step` for one line; `Run` for the `check_dts` loop over a file's lines |
| `scenarios.dfy` | `StyleScenarios` | whole files of tidy sibling blocks run through the loop, and the warnings they produce |
| `dts_style.dfy` | `DtsChecker` | the classes `DtsFile` and `DtsStyle`, whose methods update fields in place and are proved equal to the engine's functions |

The source's methods change state step by step, so `DtsStyle` is a class with
fields `warnings`, `nested` and `prevNode`. Its methods follow the source
statement by statement:

- `CheckNodeName` and `CheckLabel` are runs of `if ...: Warn(...)`;
- `ParseLine` is a `while` loop over the handler table with an early return;
- `CheckDts` is a loop over a `DtsFile`.

Each method ensures that the new fields equal an engine function applied to
the old fields. The engine's functions are where the properties are proved.

These source behaviours are modelled faithfully:

- An override line with no `&label` (a lone `{`) appends a whitespace warning.
  It then raises at `'-' in label`. The model returns `MissingLabel` with that
  warning kept.
- `int(u, 16)` raises for addresses such as `x1` or `0x`. The new node's
  address is converted first. The model returns `BadUnitAddress`.
- An error ends `check_dts`: no later line is read.

Three consequences of the patterns as written:

- The leading-zero rule `^0+[1-9a-f][0-9a-f]*$` (dts_style.py:107) flags `0a`
  and `007` but not `0` or `00`.
- The header patterns end in `\s*$`, so a header with any text after its `{`
  (a trailing comment, say) is a generic open: it draws no header warning and
  stores no marker.
- The root node `/ {` matches neither header pattern, since `/` is neither a
  blank nor `&`. It is a generic open that stores no marker.

## Model

| member | source | states |
|---|---|---|
| `LineClassifier.MatchNodeHeader` | dtschema/dts_style.py:43 | a match splits the line into groups of the node pattern (label, name, address, blanks) that spell out the line again, each run being the longest possible |
| `LineClassifier.MatchNodeHeaderComplete` | dtschema/dts_style.py:43 | every way of writing a line as the node pattern's groups is found by the matcher, which returns the greedy groups the regex engine picks |
| `LineClassifier.MatchOverrideHeader` | dtschema/dts_style.py:45 | a match splits the line into `s1`, optional `&label`, `s2`, `{`, `s3` that spell the line again |
| `LineClassifier.MatchOverrideHeaderComplete` | dtschema/dts_style.py:45 | every decomposition of a line into the override pattern's groups is found, with greedy groups |
| `LineClassifier.MatchOverrideNoLabel` | dtschema/dts_style.py:45 | blanks, `{`, blanks match the override pattern with no label and an empty `s2` |
| `LineClassifier.MatchOverrideWithLabel` | dtschema/dts_style.py:45 | blanks, `&word`, blanks, `{`, blanks match with exactly those groups |
| `LineClassifier.HasOpenBraceIff` | dtschema/dts_style.py:47 | the generic pattern `^.*\{.*$` matches iff the line has a `{` with no newline before it, and after it nothing but at most one final newline |
| `LineClassifier.ClosesBlockIff` | dtschema/dts_style.py:48 | the close pattern `^.*\};\s*$` matches iff some `};` has no newline before it and only blanks after it |
| `LineClassifier.SplitTrailingUnique` | dtschema/dts_style.py:48 | splitting off trailing blanks has exactly one answer: a body not ending in a blank and a blank tail |
| `LineClassifier.MatchPattern` | dtschema/dts_style.py:42-49 | each pattern of the table either fails or yields the line shape that belongs to its handler |
| `LineClassifier.ClassifyPriority` | dtschema/dts_style.py:42-49 | a line is a node header if pattern 1 matches, else an override if pattern 2 matches, else a generic open, else a close, else nothing |
| `LineClassifier.BraceLineIsNotClose` | dtschema/dts_style.py:42-49 | a line with a `{` and no newline is never handled as a close, even if it ends in `};` |
| `LineClassifier.NodeHeaderAlphabet` | dtschema/dts_style.py:43 | a node header is made only of header characters (blanks, `[a-zA-Z0-9,_-]`, `:`, `@`, `{`, `&`) and has at least one name character |
| `LineClassifier.OverrideHeaderAlphabet` | dtschema/dts_style.py:45 | an override header is made only of header characters too |
| `LineClassifier.NoHeaderWithForeignChar` | dtschema/dts_style.py:43-45 | a line with any other character, such as `/` or `.`, matches neither header pattern |
| `LineClassifier.ForeignBraceLineIsGenericOpen` | dtschema/dts_style.py:42-47 | such a line with a `{` and no newline (the root `/ {`, a name with a `.`) is a generic open |
| `LineClassifier.BareBraceIsLabelOpen` | dtschema/dts_style.py:45 | a lone `{` is an override header with no label |
| `LineClassifier.NodeHeaderStart` | dtschema/dts_style.py:43 | a node header starts with a blank or a name character |
| `Text.TakeWhileUnique` | dtschema/dts_style.py:43 | a greedy run is determined: a run of class characters followed by a non-class character is what the greedy match takes |
| `Text.RStripNewlines` | dtschema/dts_style.py:153 | `rstrip('\n')` keeps a prefix, removes only newlines, and leaves no trailing newline |
| `Text.LexLessIff` | dtschema/dts_style.py:59 | Python's `<` on strings is lexicographic order: a shared prefix, then a smaller character or the end of the left string |
| `Text.LexLessCons` | dtschema/dts_style.py:72 | a shared first character does not change the comparison |
| `Text.LexLessTrichotomy` | dtschema/dts_style.py:59 | Python's `<` on strings is a strict total order: no string is below itself, and of two different strings exactly one is below the other |
| `Hex.ParseAddressRoundTrip` | dtschema/dts_style.py:64 | the lower-case hex spelling of every number, bare or with `0x`, is a valid unit address that converts back to that number |
| `Hex.ParseAddressPadding` | dtschema/dts_style.py:64 | a leading `0` or a `0x`/`0X` prefix does not change the value of a non-empty run of hex digits, so `@0a`, `@0x0a` and `@a` compare as equal |
| `Hex.LowerHexDigitsValue` | dtschema/dts_style.py:64 | the digits of a number's spelling have that number as their value |
| `Hex.ParseAddressExamples` | dtschema/dts_style.py:64 | `x1` and `0x` raise, `0x10` and `10` are 16, `05` is 5 |
| `StyleRules.LeadingZeroIff` | dtschema/dts_style.py:107-108 | the leading-zero pattern matches iff the address is all lower-case hex, starts with `0` and is not all zeros |
| `StyleRules.LeadingZeroExamples` | dtschema/dts_style.py:107-108 | `0` and `00` do not warn; `0a` and `007` do; `a0` and `0A` do not |
| `StyleRules.FiredInOrder` | dtschema/dts_style.py:89-108 | the warnings of a list of checks come out in the checks' order, with the ones that do not hold left out |
| `StyleRules.FiredMember` | dtschema/dts_style.py:89-108 | a kind is reported iff one of its checks holds |
| `StyleRules.FiredConcat` | dtschema/dts_style.py:89-108 | the warnings of two runs of checks are those of the first, then those of the second |
| `StyleRules.NodeNameOrder` | dtschema/dts_style.py:89-108 | a node header's warnings follow the fixed order: label blank, label hyphen, label upper case, brace blanks, name underscore, name upper case, address upper case, `0x`, leading zero |
| `StyleRules.NodeLabelMembers` | dtschema/dts_style.py:89-95 | the label hyphen and upper-case warnings fire iff there is a label and it has a `-` or an `A`-`Z` |
| `StyleRules.NodeNameMembers` | dtschema/dts_style.py:98-101 | the name warnings fire iff the name has a `_` or an `A`-`Z` |
| `StyleRules.UnitAddressMembers` | dtschema/dts_style.py:102-108 | the address warnings fire iff there is an address and it has an `A`-`F`, an `x`/`X`, or matches the leading-zero pattern |
| `StyleRules.NodeNameWhitespace` | dtschema/dts_style.py:89-97 | a header gets one whitespace warning if it has a label not followed by exactly one space, and one if the blanks before and after `{` are not exactly one space and nothing |
| `StyleRules.OverrideWarnings` | dtschema/dts_style.py:118-125 | an override's first check is the one combined whitespace check, and its warnings come in the order whitespace, hyphen, upper case |
| `StyleRules.OverrideMembers` | dtschema/dts_style.py:120-125 | the whitespace warning fires iff `s1` is not empty or `s2` is not one space or `s3` is not empty; the label warnings fire iff the label has a `-` or an `A`-`Z` |
| `StyleRules.EmitThree` | dtschema/dts_style.py:89-95 | three `if ...: append` statements in a row append the warnings of the checks that hold, in order |
| `StyleRules.SortingCheck` | dtschema/dts_style.py:54-83 | the comparison reports only one of the four sorting warnings, never a header warning |
| `StyleRules.LabelOrderIsStrict` | dtschema/dts_style.py:58-61 | two labelled siblings never raise; of two different labels exactly one order is reported, and a repeated label is not |
| `StyleRules.AddressOrderIsStrict` | dtschema/dts_style.py:62-66 | two siblings with valid addresses (and not both labelled) never raise; of two different values exactly one order is reported, and two spellings of one value are never reported |
| `StyleRules.NameOrderIsStrict` | dtschema/dts_style.py:67-82 | where the name rule applies (depth below 2, no override label one level up, no addresses), of two different names exactly one order is reported, and a repeated name is not |
| `StyleRules.SortingCheckFails` | dtschema/dts_style.py:62-64 | the comparator raises only when comparing two addresses, and then names an address that does not convert |
| `StyleRules.NameOrderExample` | dtschema/dts_style.py:72-81 | a top-level `-10` after `-9` is reported, since names compare as strings |
| `StyleRules.AddressOrderExamples` | dtschema/dts_style.py:62-66 | `@10` after `@9` is fine and `@9` after `@10` is reported, since addresses compare as numbers; `x1` raises |
| `StyleEngine.SortAndRecordShape` | dtschema/dts_style.py:114-116 | after the checks, a header adds at most one sorting warning, then stores its marker at the current depth and goes one deeper; if the comparison raises, nothing changes |
| `StyleEngine.NodeStepShape` | dtschema/dts_style.py:85-116 | a node header appends the warnings of its nine checks in their fixed order, then at most one sorting warning (none if the comparison raises), all about its own line; when it does not raise it stores its marker and goes one deeper, and when it raises depth and markers stay |
| `StyleEngine.OverrideStepShape` | dtschema/dts_style.py:118-133 | a labelled override appends its whitespace, hyphen and upper-case warnings in that order, then at most one sorting warning; one with no label appends only the whitespace check's warning and raises `MissingLabel`; depth and markers change as for a node header |
| `StyleEngine.LabellessOverrideRaises` | dtschema/dts_style.py:119-122 | a label-less override line appends exactly one whitespace warning, then raises, with depth and markers unchanged |
| `StyleEngine.UnmatchedLineChangesNothing` | dtschema/dts_style.py:155-160 | a line no pattern matches changes neither warnings, depth nor markers |
| `StyleEngine.BraceLineOpens` | dtschema/dts_style.py:42-49 | a line with a `{` and no newline goes one level deeper if it does not raise, and keeps its depth if it does |
| `StyleEngine.StepBookkeeping` | dtschema/dts_style.py:109-147 | a header stores its marker at the current depth and goes one deeper; a generic open only goes deeper; a close drops the marker kept for the closed block's children, keeps every other depth's marker and every warning, and goes one up; a raising line changes neither depth nor markers |
| `StyleEngine.StepKeepsKeysBelow` | dtschema/dts_style.py:141-147 | if every marker is kept at a depth no greater than `nested`, every line keeps it so |
| `StyleEngine.OpenedBlockStartsFresh` | dtschema/dts_style.py:141-147 | the first child of a newly opened block is compared with nothing |
| `StyleEngine.RunKeepsKeysBelow` | dtschema/dts_style.py:149-153 | the invariant holds over a whole file |
| `StyleEngine.RunDepth` | dtschema/dts_style.py:141-147 | after a file that did not raise, the depth is the start depth plus one for each line an opening handler takes and minus one for each line the close handler takes; nothing keeps it from going below zero |
| `StyleEngine.StepAppendsOnly` | dtschema/dts_style.py:54-133 | a line never removes or reorders a warning, and it adds only warnings about itself |
| `StyleEngine.RunAppendsOnly` | dtschema/dts_style.py:149-153 | the warnings at the end of a file extend those at the start |
| `StyleEngine.RunStopsAtError` | dtschema/dts_style.py:149-153 | once a line raises, further lines change nothing |
| `StyleEngine.RunRaisedAt` | dtschema/dts_style.py:149-153 | the outcome of a file whose first `k` lines raise is the outcome of those `k` lines |
| `StyleEngine.RunNext` | dtschema/dts_style.py:152-153 | line `n`, numbered from 1 and stripped of newlines, is handled in the state the first `n - 1` lines left |
| `StyleScenarios.TidyNodeLine` | dtschema/dts_style.py:43 | a well-formed `name {` line is a node header with one space before the brace |
| `StyleScenarios.TidyOverrideLine` | dtschema/dts_style.py:45 | a well-formed `&label {` line is an override header |
| `StyleScenarios.CloseLine` | dtschema/dts_style.py:48 | `};` is a close |
| `StyleScenarios.TidyNodeIsQuiet` | dtschema/dts_style.py:89-108 | a well-formed node header draws no name warning |
| `StyleScenarios.TidyOverrideIsQuiet` | dtschema/dts_style.py:120-125 | a well-formed override header draws no warning |
| `StyleScenarios.TopLevelNodeSorting` | dtschema/dts_style.py:67-82 | at the top level a node is compared with the previous sibling's name only, and warned about iff it sorts before it |
| `StyleScenarios.TopLevelNodeOrder` | dtschema/dts_style.py:54-147 | a file of top-level `name {` / `};` blocks ends at depth 0 with one warning for each name that sorts before the one before it, in file order, on that name's header line |
| `StyleScenarios.TopLevelOverrideOrder` | dtschema/dts_style.py:54-147 | a file of top-level `&label {` / `};` blocks ends at depth 0 with one warning for each label that sorts before the one before it |
| `DtsChecker.RejectedNameExamples` | dtschema/dts_style.py:50-52 | `.diff` and `.patch` names are refused, `board.dts` and `a.diff.dts` are not |
| `DtsChecker.DtsFile.constructor` | dtschema/dts_style.py:12-15 | a new line source has read no line |
| `DtsChecker.DtsFile.Next` | dtschema/dts_style.py:28-31 | the next line comes with its number, counted from 1; at the end nothing comes and the count stays |
| `DtsChecker.DtsStyle.Create` | dtschema/dts_style.py:37-52 | a `.diff` or `.patch` name raises; any other name gives a fresh checker with no warnings, depth 0 and no markers |
| `DtsChecker.DtsStyle.Warn` | dtschema/dts_style.py:91 | appends one warning and changes nothing else |
| `DtsChecker.DtsStyle.CheckNodeSorting` | dtschema/dts_style.py:54-83 | appends the comparator's warning, if any, or returns its error with the warnings untouched; depth and markers stay |
| `DtsChecker.DtsStyle.SortAndStore` | dtschema/dts_style.py:114-116 | compares, then stores the marker and goes one deeper, as `SortAndRecord` |
| `DtsChecker.DtsStyle.NameChecks` | dtschema/dts_style.py:86-108 | appends exactly the node header's warnings, in their fixed order |
| `DtsChecker.DtsStyle.LabelRun` | dtschema/dts_style.py:89-95 | appends the label's warnings, only when there is a label |
| `DtsChecker.DtsStyle.BlankAndNameRun` | dtschema/dts_style.py:96-101 | appends the brace-blank and name warnings |
| `DtsChecker.DtsStyle.AddressRun` | dtschema/dts_style.py:102-108 | appends the address warnings, only when there is an address |
| `DtsChecker.DtsStyle.CheckNodeName` | dtschema/dts_style.py:85-116 | leaves the fields as `NodeStep` computes them from the old fields |
| `DtsChecker.DtsStyle.CheckLabel` | dtschema/dts_style.py:118-133 | leaves the fields as `OverrideStep` computes them, including the raise after the whitespace warning for a missing label |
| `DtsChecker.DtsStyle.HandleOpenNode` | dtschema/dts_style.py:141-142 | goes one deeper |
| `DtsChecker.DtsStyle.HandleCloseNode` | dtschema/dts_style.py:144-147 | drops the entry at the current depth if there is one, then goes one up |
| `DtsChecker.DtsStyle.Handle` | dtschema/dts_style.py:135-147 | runs the handler of the line's shape |
| `DtsChecker.DtsStyle.ParseLine` | dtschema/dts_style.py:155-160 | tries the patterns in order, runs only the first match's handler, and leaves the fields as `Step` computes them; keeps the markers-below-depth invariant |
| `DtsChecker.DtsStyle.ParseNext` | dtschema/dts_style.py:152-153 | reads the next line, strips it and parses it, so the fields are those of the loop over the lines read so far |
| `DtsChecker.DtsStyle.CheckDts` | dtschema/dts_style.py:149-153 | leaves the fields as `Run` computes them over the file's lines, stopping at the first line that raises; keeps the invariant |

## Left out

- Opening and closing the file (dtschema/dts_style.py:17-23): a file is given as its sequence of lines, each with its newline.
- `main`, argument parsing, the directory walk with `glob.iglob` and the `verbose` flag (dtschema/dts_style.py:9, 167-199): command-line plumbing.
- `print_warnings` (dtschema/dts_style.py:162-165): it only prints. A warning is stored as a `Kind` with its line and number, and `StyleRules.Message` gives each kind's exact text.
- The commented-out rule that nodes without a unit address should come first (dtschema/dts_style.py:69-70): it is inactive, and the model does nothing in that branch, as the code does.
- Python's general regular-expression engine: each of the four fixed patterns has its own matcher, proved equal to the pattern's meaning.
- `handle_node` and `handle_node_extend` (dtschema/dts_style.py:135-139) only forward to `check_node_name` and `check_label`, so `DtsStyle.Handle` calls those directly.
- Hex.ParseAddress: follows `int(u, 16)` only on strings over `[0-9a-fA-FxX]`, which is all a unit address can contain. Python also accepts underscores, signs and surrounding blanks, which cannot occur here.
- A line with a newline inside it can only reach `parse_line` by a direct call. Lines from a file never have one, and the classifier follows `.` and `$` for such lines but no scenario uses them.
- Other exceptions Python could raise, such as running out of memory, are not modelled.

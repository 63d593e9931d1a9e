# DABCAT connector patcher, modelled in Dafny

DABCAT turns a Phantom app into a dummy app that returns canned
data. It finds the `def handle_action(...)` line of the app's connector. Right
after that line it puts a generated block with one `if action == '…'` branch per
dummy-data rule. Each branch returns that rule's canned summary, data items and
message. Then it rewrites the placeholder tokens `u'***k***'`, `<<<k<<<'`,
`'>>>k>>>` and `u'<<<k>>>'` into `param['k']` expressions. Before a dummy-data
file is parsed, it can run a table of plain-text replacements over the file
(`replacerize`), and the parsed document goes through a field check.

This project models that core of `dabcat.py` and proves what it does:

- `Anchor` (`anchor.dfy`): the leftmost match of `[ ]+def handle_action\([^)]+\):\n`.
  - `MatchAt` is a hand-written matcher.
  - `AnchorShape`/`AnchorSpan` describe the pattern's language by positions in the text.
  - The indent unit `tab` is read off the match.
- `Generator` (`generator.dfy`): the `PREAMBLE`/`POSTAMBLE` templates, the action line, one branch per rule, and the whole block.
  - Lemmas read the block back as lines: its frame, one condition line per rule in order, and the shape of each branch. The last two hold for rules whose rendered strings contain no newline (`SingleLine`).
- `Rewrite` (`rewrite.dfy`): the four `re.sub` passes.
  - One generic scanner `SubFrom`, parameterised by a delimiter `Shape`.
  - The matcher is proved against a position-based description `TokenAt`.
- `Patcher` (`patcher.dfy`): `process_data` as a method.
  - It cuts the text, accumulates `addition` in a loop, rejoins the parts and runs the four passes.
  - It is proved equal to the function `Patch`.
  - Lemmas state where the block goes, what a second splice does, and what a second patch does when no placeholder token is involved.
- `Replacerizer` (`replacerize.dfy`): `replacerize` as a loop.
  - It is proved equal to a fold of Python's `str.replace`, including the empty-key case.
- `DummyData` (`dummydata.dfy`):
  - the field check of `read_dummy_data`, both as written and as its error message describes it;
  - the reads `process_data` makes of a document's first entry while rendering a branch.
- `Text` and `Wrappers`: shared string helpers (`Lines`, `FindChar`, `OccursAt`, …) and `Option`/`Result`.

The global `IMPORTANT_FILES` dictionary becomes parameters and results:
- `ProcessData` takes the connector text and the list of rules and returns the patched text, or `AnchorNotFound`.
- `Replacerize` takes the text and the table's items in iteration order.

A rule's `summary`, data items and `message` are the strings Python's `str()`
renders for them. `DummyData.RuleFor` builds a rule from a document.

Where the program's prose and its code differ, the model follows the code:
- `processed_actions` starts empty (dabcat.py:221) and nothing is ever added to it. The `not in` test always passes, and every rule gets its own branch, duplicate action ids included (`Generator.BlockConditions`).
- The guard is `param.get('<p>', '') == '<v>'`. It is added when `parameter` is present and not empty (`Generator.Guard`).
- The wholesale and insert patterns need a `u'` prefix (`Rewrite.Wholesale`, `Rewrite.Insert`).
- The dummy-data check uses `and` (dabcat.py:372). See Findings.
- Nothing detects an already patched connector. A second splice finds the same anchor and puts its block directly after the anchor line, ahead of the first block (`Patcher.SpliceAgain`). When no placeholder token is involved, the same holds for a second `Patch` (`Patcher.PatchAgain`).
- The anchor may begin in the middle of a line, and `[^)]+` may span newlines. The model keeps both.

## Model

| member | source | states |
|---|---|---|
| Anchor.MatchAtSpec | dabcat.py:223 | the matcher `MatchAt` reports a match ending at `e` from position `i` exactly when `s[i..e]` is in the pattern's language (spaces, `def handle_action(`, a `)`-free non-empty argument list, `):` and newline); so a match has only one possible end |
| Anchor.FindAnchorFrom | dabcat.py:224 | `None` only if no match starts at or after `from`; otherwise no match starts between `from` and the reported start, and the reported end is that match's end |
| Anchor.FindAnchor | dabcat.py:223-224 | `None` exactly when the pattern matches nowhere; otherwise the reported span is a match, no match starts further left, its end is forced, and no space precedes it |
| Anchor.AnchorTab | dabcat.py:225-228 | `tab` is at least one space and nothing else, lies at the match start, and is followed by `def handle_action(`; the cut falls right after the matched `):` and newline |
| Anchor.AnchorPrefix | dabcat.py:223-228 | the anchor and `tab` depend only on the text up to the cut: any text sharing that prefix gets the same match |
| Anchor.MatchAtAgree | dabcat.py:223 | whether and where a match from `i` ends depends only on the text up to a `):` and newline beyond the keyword position |
| Generator.Guard | dabcat.py:244-249 | the clause is empty exactly when `parameter` is absent or empty; otherwise it is ` and param.get('<parameter>', '') == '<parameter_value>'` |
| Generator.DataLinesShape | dabcat.py:251-257 | for data items with no newline: in `DataLines`, the empty-list line `add_data([])` is chosen only for an empty list, and then it is the only line; otherwise there is exactly one `add_data(<item>)` line per item, in order |
| Generator.BranchShape | dabcat.py:236-240 | for a rule with no newline in its rendered strings (`SingleLine`), a branch (`Branch`) reads back as its condition at two indent units, then lines at three units: result object, summary, the data lines, and last the success return with the message |
| Generator.BlockConditions | dabcat.py:233-236 | for rules with no newline in their rendered strings (`SingleLine`), the lines of the block (`Block`) that start like a condition are exactly one per rule, in rule order, duplicates included |
| Generator.BlockConditionAt | dabcat.py:233-236 | for rules with no newline in their rendered strings (`SingleLine`), there are as many condition lines as rules, and the `k`-th is rule `k`'s condition at two indent units |
| Generator.EmptyBlock | dabcat.py:230-261 | with no rules the block is exactly the preamble's three lines, the action line and the postamble's three lines |
| Generator.BlockAsLines | dabcat.py:230-261 | the block (`Block`) reads back as the preamble lines, the action line, the branches' lines and the postamble lines, in that order |
| Generator.BlockEndsLine | dabcat.py:39-42 | the block is not empty and ends with a newline, so what follows it starts a new line |
| Generator.FrameNoConditions | dabcat.py:34-42 | no line of the preamble, postamble or action line looks like a branch condition |
| Rewrite.Replacement | dabcat.py:269-272 | the captured key sits right after the template's opening text, and the replacement is as long as the opening text, the key and the closing text together |
| Rewrite.MatchTokenSpec | dabcat.py:263-266 | the matcher finds a token at `i` closing at `j` exactly when the text holds the opening delimiter at `i`, a non-empty key free of the stop character, and the closing delimiter at `j` |
| Rewrite.SubSkip | dabcat.py:269 | the scanner `SubFrom` copies the text before the next match unchanged |
| Rewrite.SubToken | dabcat.py:269 | in `SubFrom`, a match is replaced by the template around its key, and scanning resumes right after its closing delimiter |
| Rewrite.SubLeftmost | dabcat.py:269-272 | in a pass (`Sub`), the leftmost match is the first thing replaced: the text before it is kept, and the rest is rewritten the same way |
| Rewrite.SubNoMatch | dabcat.py:269-272 | a text with no match comes out of a pass (`Sub`) unchanged |
| Rewrite.SubNoOpen | dabcat.py:269-272 | a text without the pass's opening delimiter comes out unchanged |
| Rewrite.ShapesWellFormed | dabcat.py:263-266 | each of the four patterns has non-empty delimiters and a closing delimiter that starts with the key's excluded character |
| Rewrite.RewriteNoTokens | dabcat.py:268-272 | a text holding none of the four opening delimiters comes out of all four passes (`RewriteAll`) unchanged |
| Rewrite.RewriteAgain | dabcat.py:268-272 | a second run of the four passes changes nothing when the first run left none of the opening delimiters behind |
| Patcher.Patch | dabcat.py:220-276 | patching fails exactly when the connector has no anchor |
| Patcher.PatchPlain | dabcat.py:268-272 | when the spliced text holds none of the four opening delimiters, the patched connector is exactly the text before the cut, the block, and the text after the cut |
| Patcher.ProcessData | dabcat.py:220-276 | the loop builds exactly the block, and the result is the connector cut at the anchor, with the block in between, after the four passes |
| Patcher.SpliceFrame | dabcat.py:227-228 | the two parts rejoin to the connector; after splicing (`Splice`), the text before the cut, then the block, then the text after the cut lie at their places, and nothing else is added |
| Patcher.SpliceLines | dabcat.py:268 | read as lines, the block goes in as whole lines between the anchor line and the rest of the connector |
| Patcher.SpliceAgain | dabcat.py:223-228 | a spliced text has the same anchor, and splicing again puts the second block right after the anchor line, ahead of the first |
| Patcher.PatchAgain | dabcat.py:220-276 | patching a patched connector succeeds; when neither the once-spliced nor the twice-spliced text holds an opening delimiter, the result is the text before the cut, the second block, the first block, and the text after the cut |
| Replacerizer.Replacerize | dabcat.py:378-382 | the loop's result is `ReplaceChain`: the table applied entry by entry with `ReplaceAll`, each entry to the previous result |
| Replacerizer.ReplaceChainAppend | dabcat.py:379-380 | applying the table in two stretches is applying the whole table |
| Replacerizer.ReplaceChainAbsent | dabcat.py:378-382 | when no key occurs in the text and none is empty, the text comes out unchanged; an empty table changes nothing |
| Replacerizer.ReplaceAbsent | dabcat.py:380 | in `ReplaceAll`, a non-empty key that does not occur leaves the text unchanged |
| Replacerizer.ReplaceEmptyKey | dabcat.py:380 | with the empty key, `ReplaceAll` gives `|s| + (|s| + 1)·|v|` characters: a copy of the value at each of the `|s| + 1` slots `k·(|v| + 1)`, with the text's `k`-th character right after the `k`-th copy |
| Replacerizer.ReplaceLeftmost | dabcat.py:380 | in `ReplaceAll`, the text before the first occurrence is copied, that occurrence becomes the value, and replacing continues after it |
| DummyData.CheckFieldsAsWritten | dabcat.py:372-373 | an empty document fails on `[0]`; the document is rejected exactly when its first entry has neither `data` nor `summary`; otherwise it is returned unchanged |
| DummyData.CheckFields | dabcat.py:372-373 | the check as its message describes it: rejected exactly when either key is missing |
| DummyData.FirstPayload | dabcat.py:250-258 | reading fails on `[0]` exactly for an empty document; it succeeds exactly when `summary` and `message` are not absent (a `null` renders as `None`) and `data` holds a list; the payload is those values |
| DummyData.RuleFor | dabcat.py:243-258 | a rule is read exactly when the payload is; it carries the answers and the first entry's values |
| DummyData.AsWrittenAdmitsMissingSummary | dabcat.py:372-373 | a document with `data` and `message` but no `summary` key passes the check as written, then fails rendering on `['summary']` |
| DummyData.CheckedPayload | dabcat.py:372-373 | after the intended check, only a missing `message` key can still stop rendering |
| DummyData.CheckFieldsStricter | dabcat.py:372-373 | the intended check accepts less; what only the check as written accepts fails rendering unless its summary is `null` |

## Left out

- Prompting, console output, the banner and file discovery are left out. These are `get_dummy_data`, `get_a_file`, `get_confirmation`, `collect_final_info`, `verify`, `validate_known_data`, `output`, `cat_banner` and `check_folder`. They are interactive or filesystem I/O.
- Reading and writing files, compiling and packaging are left out (`read_important_files`, `file_validator`, `create_files`): they are filesystem I/O.
- `json.loads` is not modelled. Neither is `str()` of JSON values: summary, data items and message are given as the strings it renders.
- The general `re` engine is not modelled. Only the anchor pattern and the four fixed token shapes are, by hand-written matchers.
- The `IMPORTANT_FILES` global is not modelled: its entries are parameters and results.
- Patcher.ProcessData: takes the rules already read. The `KeyError`/`TypeError` a bad document raises in the middle of the loop is modelled separately, by `DummyData.FirstPayload` and `DummyData.RuleFor`, and not as part of the loop.
- Patcher.Patch: states the failure case and is tied to `ProcessData`. The successful text is characterised by `Patcher.PatchPlain` and the `Splice*`, `Generator` and `Rewrite` lemmas, not by a single closed formula.
- Replacerizer.Replacerize: the table is given as its items in iteration order. Python's dictionary order and key uniqueness are not modelled.
- DummyData.FirstPayload: a `data` value that is present but not a list is not modelled.
- Generator.DataLinesShape, Generator.BranchShape, Generator.BlockConditions, Generator.BlockConditionAt: these are stated only for rules whose rendered action id, parameter, parameter value, summary, data items and message contain no newline (`SingleLine`; `DataLinesShape` needs this only of the data items). The program pastes these strings into the generated code without escaping them. A newline in one of them splits a line, and it can create a fake condition line, so the line-by-line shape does not hold for such rules.
- Rewrite.RewriteAgain: idempotence of the four passes is proved only when the first run leaves no opening delimiter behind. A replacement can itself form a new token with the text around it, and that case is not characterised.
- Patcher.PatchAgain: a second `Patch` is characterised only when no opening delimiter is present. The passes can change the text before the cut, for example `<<<k<<<'` becomes `' + param['k']`, so in general the anchor of the patched text moves.

## Findings

| source | as written | input that shows it | evidently intended | confidence | as-written member | corrected member |
|---|---|---|---|---|---|---|
| dabcat.py:372 | the document is rejected only when `data` and `summary` are both missing (`and`) | the document `[{"data": [], "message": "ok"}]` passes the check, then `process_data` raises `KeyError` on `['summary']` (dabcat.py:250) | reject when either key is missing (`or`), as the error message says | not executed | DummyData.AsWrittenAdmitsMissingSummary | DummyData.CheckedPayload |

# Die Cluster — a Dafny model

Die Cluster reads a wafer map and marks the passing dies that sit among too
many failed neighbours. A map is a grid of dies. Each die is passing (`1`),
failed (`X`), failed by prediction (`Y`) or absent (`.`). The map comes either
from a text file, where it is a block of lines between other text, or from an
STDF test log, whose part-result records give a coordinate and a pass/fail
bit for each tested die. A neighbour table maps "number of present
neighbours" to "number of failed neighbours that condemns a die". Every
passing die whose failed neighbours reach the threshold for its present
neighbours becomes `Y`. The classified grid is written back in place of the
original block. A small packaging helper also bumps the program's
`major.minor.patch` version string.

The model is split into modules that follow the program:

- `Results` — the `Result` and `Option` wrappers used for the program's exceptions.
- `Text` — the Python string operations the program relies on: `split`, `join`, `strip`, `replace`.
- `ChipsGrid` — `ChipState`, the character table of `Chip`, the grid built from text and printed back, neighbour places, and neighbour counts.
- `Classifier` — `apply_algorithm_on_grid`, both as a pure function and as the in-place loop over a deep copy.
- `Templates` — `string.Template.substitute` for the one key `wafer`.
- `Extractor` — `separate_un_relevant_text_lines` and its helpers.
- `Stdf` — the `StdfToGrid` sink: reducing records to a set of chips, partitioning into rows, sorting, padding.
- `Packaging` — `is_invalid_value`, `input_validation`, `translate_place_from_str_to_int`, `calculate_new_version`, and the decision part of `ask_for_version`, with Python's `int()` and `str()` on integers.
- `Pipeline` — the `__main__` flow: parse, classify, combine.

## Model

| member | source | states |
|---|---|---|
| Text.SplitJoin | scripts/main.py:145 | joining lines with a newline and splitting the result again gives the lines back, when no line holds a newline |
| Text.StripIdempotent | scripts/main.py:136-138 | stripping an already stripped string changes nothing |
| Text.ReplaceBySelf | scripts/main.py:146 | replacing every occurrence of a non-empty pattern by itself leaves the text unchanged |
| ChipsGrid.StateOf | scripts/main.py:301-302 | a character has a state exactly when it is one of `1`, `X`, `.`, `Y` |
| ChipsGrid.CharOf | scripts/main.py:304-305 | the printed character of a state is the unique character that reads back as that state |
| ChipsGrid.RowTextInjective | scripts/main.py:250-255 | two rows that print the same are the same row |
| ChipsGrid.ParseRow | scripts/main.py:217-221 | a line parses exactly when every character is a die character; the parsed row prints back as the line; the error names a character of the line |
| ChipsGrid.Parse | scripts/main.py:212-224 | text parses exactly when every line is made of die characters; the grid has at least one row and prints back as the text |
| ChipsGrid.ParseJoin | scripts/main.py:212-224 | lines of dies joined by line breaks parse into one row per line, each as long as its line |
| ChipsGrid.SerialiseThenParse | scripts/main.py:226-228 | printing a grid and parsing the text gives the grid back; an empty grid comes back as one empty row, as the deep copy does |
| ChipsGrid.ParseRejects | scripts/main.py:212-221 | a rejected text names, as the missing key, the first character of the text that is neither a die character nor a line break |
| ChipsGrid.GridTextSplit | scripts/main.py:215 | a text is a grid text exactly when every piece between newlines is a wafer line |
| ChipsGrid.NeighbourPlacesSpec | scripts/main.py:266-281 | the places visited are exactly the in-range places adjacent to the die (the die itself excluded), each at most once, within the rows and the first row's width |
| ChipsGrid.PresentNeighbours | scripts/main.py:283-286 | a die has at most eight present neighbours |
| ChipsGrid.FailNeighbours | scripts/main.py:288-290 | a die never has more failed neighbours than present ones |
| ChipsGrid.ReadNeighboursCounts | scripts/main.py:266-290 | reading the neighbours succeeds exactly when every visited place lies inside its row, and then yields the present and failed counts |
| ChipsGrid.NeighbourCountsAreCardinalities | scripts/main.py:283-290 | the two counts are the sizes of the sets of adjacent places holding a present die and a failed die |
| ChipsGrid.RectangularReadable | scripts/main.py:274 | in a grid whose rows all have the first row's width, every neighbour read succeeds |
| ChipsGrid.SameReadingCounts | scripts/main.py:352-359 | turning passing dies into passing or predicted dies changes no neighbour count |
| Classifier.Judge | scripts/main.py:353-359 | a die that is not passing keeps its state; a passing die stays passing or becomes failed by prediction |
| Classifier.JudgeRule | scripts/main.py:355-358 | judging succeeds exactly when the neighbours can be read and the present count has a threshold; a passing die becomes `Y` exactly when its failed count reaches that threshold |
| Classifier.ClassifyByDie | scripts/main.py:348-361 | a successful run keeps the grid's shape and gives each die its own verdict |
| Classifier.ClassifyFromJudges | scripts/main.py:348-361 | a grid of the right shape holding every die's verdict is the result |
| Classifier.ClassifyFirstError | scripts/main.py:352-357 | the run fails with the error of the first die, in row order, that cannot be judged |
| Classifier.ClassifySucceeds | scripts/main.py:352-357 | the run succeeds exactly when every die can be judged |
| Classifier.ClassifyFlipsOnly | scripts/main.py:352-359 | the result differs from the input only where a passing die became `Y`, and each such die had its threshold reached |
| Classifier.ClassifyConserves | scripts/main.py:352-359 | failed and absent dies are conserved; passing plus predicted dies are conserved; predicted dies never decrease |
| Classifier.FlipsOnlyTally | scripts/main.py:352-359 | for any change that only turns passing dies into `Y`, the passing dies lost equal the predicted dies gained |
| Classifier.ClassifyIdempotent | scripts/main.py:348-361 | classifying a classified grid again changes nothing |
| Classifier.NoPassUnchanged | scripts/main.py:353-354 | a grid without passing dies comes out unchanged whatever the table |
| Classifier.CompleteTableSucceeds | scripts/main.py:357 | a rectangular grid with a threshold for every count from 0 to 8 never fails |
| Classifier.NoFailsUnchanged | scripts/main.py:356-358 | without failed dies and with positive thresholds, no die is flipped |
| Classifier.HighThresholdsUnchanged | scripts/main.py:358 | when each threshold exceeds its present count, no die is flipped |
| Classifier.RingedDieFlips | scripts/main.py:355-358 | a passing die ringed by eight failed dies with threshold 6 becomes `Y`, and nothing else changes |
| Classifier.DeepCopy | scripts/main.py:226-228 | the copy equals the grid, except that an empty grid copies as one empty row |
| Classifier.PassVerdictOnCopy | scripts/main.py:355-358 | counts taken on the partly updated copy give the same verdict as counts on the original |
| Classifier.JudgeRowInPlace | scripts/main.py:352-359 | judging one row in place gives the pure row result or its first error, and leaves the other rows alone |
| Classifier.ClassifyInPlace | scripts/main.py:352-359 | overwriting the passing dies of the copy row by row, each reading the dies already overwritten, gives exactly the pure classification or its first error |
| Classifier.ApplyAlgorithm | scripts/main.py:348-361 | the in-place loop over the deep copy returns exactly the pure classification or its first error |
| Templates.IdentLength | scripts/main.py:453 | the name after `$` is the longest run of identifier characters |
| Templates.Substitute | scripts/main.py:453 | a template without `$` is returned unchanged |
| Templates.NamedPlaceholder | scripts/main.py:453 | `$name` is replaced by the value when the name is `wafer`, and raises an unknown-key error otherwise |
| Templates.BracedPlaceholder | scripts/main.py:453 | `${name}` is handled like `$name` |
| Templates.EscapedDollar | scripts/main.py:453 | `$$` becomes a single `$` |
| Templates.PlaceholderAlone | scripts/main.py:115 | the STDF template `$wafer` substituted with a value gives the value |
| Templates.SubstituteRejects | scripts/main.py:453 | a lone `$` and a longer name such as `$wafers` are rejected |
| Templates.ReplaceThenSubstitute | scripts/main.py:146 | replacing a block by `$wafer` in a text without `$`, then substituting a value, equals replacing the block by the value directly, unless a name character follows the block |
| Templates.RoundTrip | scripts/main.py:146 | substituting the block back into the template rebuilds the original text |
| Templates.Combine | scripts/main.py:452-454 | the placeholder-only template combines to the grid text itself |
| Extractor.StrippedLinesClean | scripts/main.py:136-138 | there is one line per piece of the stripped text between line breaks; no line holds a line break, and stripping a line again changes nothing |
| Extractor.CandidateLengthsMembers | scripts/main.py:173-174 | the counted lengths are exactly the lengths of the non-empty lines made of die characters |
| Extractor.MostCommonSpec | scripts/main.py:177-178 | the chosen length has the highest count, and it is the first-seen one among those tied |
| Extractor.WaferWidthSpec | scripts/main.py:172-178 | the width is missing exactly when no line is a candidate; otherwise it is the most common candidate length |
| Extractor.RelevantIndexesSpec | scripts/main.py:140-141 | the relevant indexes are ascending and are exactly the lines of the chosen width made of die characters |
| Extractor.ContinuousRun | scripts/main.py:142-144 | when the relevant indexes are continuous, the relevant lines are exactly those from the first index to the last |
| Extractor.ContinuousIff | scripts/main.py:167-169 | an ascending index list is continuous exactly when it runs without gaps from its first index |
| Extractor.GapIff | scripts/main.py:152-156 | the two-wafers error is raised exactly when some line between the first and last relevant line is not relevant |
| Extractor.SeparateNoWafer | scripts/main.py:175-176 | the no-wafer error is raised exactly when no stripped line is a non-empty line of die characters |
| Extractor.SeparateTwoWafers | scripts/main.py:142 | the two-wafers error is raised exactly when a width exists and a line that is not relevant lies between two relevant lines |
| Extractor.SeparateBlock | scripts/main.py:143-147 | the wafer text is the consecutive relevant lines joined by newlines, and the template is the original text with that block replaced by `$wafer` |
| Extractor.SeparatedGrid | scripts/main.py:122-123 | the extracted block always parses into a rectangular grid whose width is the chosen length |
| Extractor.CombineReplaces | scripts/main.py:452-454 | combining any grid text with the template equals replacing the block by that grid text in the original file |
| Extractor.SeparateThenCombine | scripts/main.py:146 | combining the extracted block with the template rebuilds the original file |
| Stdf.IsFailPrr | scripts/main.py:64-65 | a record fails exactly when bit 3 of its part flag is set |
| Stdf.AfterSendSpec | scripts/main.py:51-61 | the set keeps one chip per place; a new place takes the record's state; a known place becomes failed if either record failed |
| Stdf.ReduceSpec | scripts/main.py:36-61 | after all records, each place holds `X` if any of its records failed, `1` if all of them passed, and nothing if none was recorded |
| Stdf.ReduceOrderFree | scripts/main.py:59-61 | the reduced states do not depend on the order or repetition of the records |
| Stdf.FailThenPassStaysFailed | scripts/main.py:59-61 | a failing record followed by a passing one for the same place leaves the die failed |
| Stdf.RowChipsMembers | scripts/main.py:78-81 | a row collects exactly the chips of that row |
| Stdf.PartitionSpec | scripts/main.py:76-85 | partitioning succeeds exactly when every row from 0 to the highest one has a chip, and then row k holds exactly the chips of row k; otherwise it fails naming a missing row |
| Stdf.SortRowSpec | scripts/main.py:88-90 | a sorted row is in ascending column order and is a permutation of the row |
| Stdf.SortedRowStrict | scripts/main.py:88-90 | a sorted row of the set has strictly ascending columns, because the set holds one chip per place |
| Stdf.AscendingUnique | scripts/main.py:88-90 | two strictly ascending rows with the same members are equal |
| Stdf.PartitionSameMembers | scripts/main.py:76-90 | two sets with the same chips, in any order, give the same partition error or the same sorted table |
| Stdf.StdfGridAsWrittenOrderFree | scripts/main.py:67-108 | the grid as written depends only on which records arrived, not on their order or repetition, so the order in which the set hands out its chips never shows |
| Stdf.FillRowEdges | scripts/main.py:102-108 | the filled row is absent dies numbered 0 up to the first chip's column, then the row's chips unchanged, then absent dies numbered from the last chip's column plus one up to the final length |
| Stdf.FillRowPositions | scripts/main.py:102-108 | for a gap-free row, each die of the filled row sits at its own column and the row's chips are kept |
| Stdf.MakeSquare | scripts/main.py:93-99 | the table is squared exactly when it has rows; each row is filled up to the largest number of chips in any row, not to the largest column |
| Stdf.StdfGridAsWritten | scripts/main.py:67-73 | as written, the grid has one row per row of the partition, and no row is shorter than its number of dies |
| Stdf.DiagonalAsWritten | scripts/main.py:93-99 | as written, two dies at (0,1) and (1,0) give rows of lengths 2 and 1 |
| Stdf.DiagonalRagged | scripts/main.py:274 | classifying that ragged grid fails reading past the end of the short row, whatever the table |
| Stdf.StdfGridSpec | scripts/main.py:67-73 | with the corrected padding the grid is rectangular, each recorded die sits at its row and column with its reduced state, and every other cell is absent |
| Stdf.StdfGridErrors | scripts/main.py:76-85 | the corrected grid fails exactly when the as-written one does, with the same error |
| Stdf.DiagonalCorrected | scripts/main.py:93-99 | with the corrected padding the two diagonal dies give the 2 by 2 grid `.1` / `1.` |
| Stdf.GapAsWritten | scripts/main.py:102-108 | as written, passing dies at columns 0 and 2 of row 0 give the row `11`: the die recorded at column 2 shows at column 1, where nothing was recorded |
| Stdf.GapCorrected | scripts/main.py:102-108 | with the corrected padding the same dies give the row `1.1` |
| Packaging.InputValidation | scripts/packaging.py:137-147 | an answer is rejected exactly when it is not among the options, naming the answer |
| Packaging.TranslatePlace | scripts/packaging.py:150-152 | a place translates exactly when it is `h`, `m` or `l`, to a position below 3; anything else is a key error |
| Packaging.TranslatePlaceOrder | scripts/packaging.py:151 | `h`, `m` and `l` name positions 0, 1 and 2 |
| Packaging.ValidatedPlaceTranslates | scripts/packaging.py:187-188 | every place that passes validation translates |
| Packaging.NoLeadingZero | scripts/packaging.py:158 | the decimal text of a number starts with `0` only for zero |
| Packaging.NatToStringValue | scripts/packaging.py:158 | the decimal text of a number reads back as that number |
| Packaging.IntRoundTrip | scripts/packaging.py:158 | `int(str(n)) == n` for every integer |
| Packaging.IntToStringCanonical | scripts/packaging.py:158 | `str(n)` has no `+`, no `_`, no leading zero and no `-0` |
| Packaging.ParseIntCanonical | scripts/packaging.py:158 | for a component whose stripped text has that form, `int()` accepts it and `str(int(s))` gives the stripped text back |
| Packaging.CalculateErrors | scripts/packaging.py:155-158 | a failed bump names an unknown place letter, or the missing component's index when the version is too short, or the version's component at the place that `int()` rejects; a version of three integers fails only on an unknown place letter |
| Packaging.CalculateSpec | scripts/packaging.py:155-162 | a new version has three components: the ones before the place unchanged, the one at the place one more than before, the rest `0` |
| Packaging.Bump | scripts/packaging.py:155-162 | a bumped version triple is greater in lexicographic order |
| Packaging.BumpIncreases | scripts/packaging.py:155-162 | a three-number version bumped at a valid place succeeds, reads as the bumped triple, and is greater than before |
| Packaging.AskForVersionSpec | scripts/packaging.py:177-188 | asking never hits the unknown-place error; a rejected answer is named and lies outside its options; `n` keeps the version; `y` with a valid place on a three-integer version always gives a strictly greater three-integer version |
| Pipeline.ParseTextFileSpec | scripts/main.py:118-124 | parsing a text file fails only when extraction fails; otherwise the grid is rectangular, of the chosen width, prints as the wafer text, and the template is the file with that text replaced |
| Pipeline.ProcessTextSpec | scripts/main.py:496-509 | with a complete table, a text file without `$` comes out as the file with its wafer text replaced by the classified grid's text |
| Pipeline.ProcessTextUnchanged | scripts/main.py:496-509 | when no threshold can be reached, a text file comes out unchanged |
| Pipeline.ProcessStdfSpec | scripts/main.py:496-509 | with the corrected padding of `make_square_from_table` and `fill_row_edges`, and a complete table, an STDF input fails exactly when its reduction fails, and otherwise comes out as the classified grid's text |
| Pipeline.ProcessStdfAsWrittenSpec | scripts/main.py:496-509 | with the padding as written, an STDF input fails with the reduction's error, or else exactly when classifying the padded grid fails, and never in the template; when the padded grid is rectangular and the table complete, it succeeds |
| Pipeline.DiagonalPipeline | scripts/main.py:93-99 | as written, the diagonal STDF input makes the run fail; with the corrected padding it succeeds |

## Left out

- File reading and writing, the JSON neighbour table loader, the pystdf parser, logging, the GUI and argument parsing. The file text, the list of part-result records and the threshold table are parameters instead.
- The viewer, `get_version`, the version-file write in `update_version`, `make_exe`, `utils`, `runner`, `skeleton` and the unit tests are not part of this model.
- `ask_for_version` reads its two answers from the console. `Packaging.AskForVersion` takes them as parameters and returns the new version instead of writing it.
- Python's `int()` also accepts non-ASCII Unicode decimal digits. Only ASCII digits are modelled. The whitespace `int()` and `strip` remove is modelled in full: the 29 characters for which `str.isspace` holds.
- Only the `$wafer` placeholder is supplied, as the program does. Other names are modelled only as the key error they raise.
- A Python set is modelled as a sequence in insertion order. This order cannot be observed in the results. The grid as written is the same for any order or repetition of the records (`Stdf.StdfGridAsWrittenOrderFree`). That holds because the sorted rows have strictly ascending columns (`Stdf.SortedRowStrict`), and strictly ascending rows with the same members are equal (`Stdf.AscendingUnique`). The reduced states do not depend on order either (`Stdf.ReduceOrderFree`).
- `Chip.__hash__` and the set's bucket layout are left out. Only the equality on row and column matters for the reduction.
- The STDF missing-coordinate value -32768 is not treated specially: it is kept as an ordinary negative coordinate.
- Stdf.StdfGridSpec: states the placement only for dies with non-negative coordinates. In the corrected grid a die with a negative row or column has no cell. The original also drops negative rows, and leaves a negative column's chip at the start of its row.
- The program raises Python exceptions. They are modelled as `Err` values with the same cause.
- Notes on the program's behaviour that the model reproduces:
  - A place recorded twice becomes failed if any of its records failed. A failed chip already in the set is kept, because `set.add` does not replace an equal element.
  - An empty text file raises the no-wafer error.
  - The block is cut from the stripped lines but replaced in the unstripped original text. When the wafer lines carry indentation, the block may not occur in the original and the template keeps the text unchanged; the model reproduces this.

## Findings

| source | as written | input that shows it | evidently intended | confidence | as-written member | corrected member |
|---|---|---|---|---|---|---|
| scripts/main.py:93-99 | pads every row to the largest number of chips in any row, counted from column 0 | two passing part records at x=1,y=0 and x=0,y=1 give rows `.1` and `1`; classifying then reads past the end of the short row | every row padded to the largest column plus one, so the grid is rectangular and each die sits at its column | not executed | Stdf.DiagonalAsWritten | Stdf.StdfGridSpec |
| scripts/main.py:102-108 | keeps a row's chips next to each other, filling only before the first chip and after the last | two passing part records at x=0,y=0 and x=2,y=0 give the row `11`: the die recorded at column 2 shows at column 1, and column 1's missing die is lost | probably intended: every die at its own column, with absent dies in the gap (`1.1`); rejecting a row with a gap is the alternative | not executed | Stdf.GapAsWritten | Stdf.GapCorrected |

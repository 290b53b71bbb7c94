# randomdata question type — a verified model of its core

The Moodle question type *randomdata* is a calculated question. Its
answers are formulas over wildcards written `{name}`, and the values of
those wildcards come from generated datasets. The teacher writes
validation rules: a formula whose value may not be zero, positive or
negative, and optional bounds. For each evaluation slot the question type
draws values for every wildcard from four distributions: uniform,
log-uniform, normal and triangle. It redraws up to 30 times until the
rules accept the values, and fills the slot with NAN otherwise. It then
evaluates every full-credit answer on the slots of each distribution and
scores the four distributions by the dispersion of those results. The
distribution with the most points is stored together with its results.
The items form shows the stored results as figures and as a bar chart.

This project models that core in Dafny, one module per component:

| module | file | what it models |
|---|---|---|
| `Formula` | formula.dfy | the formula validator and the scanners for `{name}` and `{=formula}` |
| `Substitution` | substitution.dfy | wildcard substitution and evaluation |
| `DatasetOptions` | options.dfy | the packed options string `dist:min:max:dec` |
| `Constraints` | constraints.dfy | the validation rules |
| `Generator` | generator.dfy | the four samplers and one draw of every definition |
| `Attempts` | attempts.dfy | the retry loop, the NAN fill and the slot loop |
| `Generation` | generation.dfy | `generate_data_with_distribution` and what its tables guarantee |
| `Selector` | selector.dfy | the scoring, the selection and the stored result rows |
| `Definitions` | definitions.dfy | dataset definitions: loading, options update, the shared-definition collapse, deletion, the random-guess score |
| `DatasetItems` | items.dfy | dataset items: the newest-record lookups, `maxnumber`, and saving form items and generated items |
| `AnswerFormat` | answer.dfy | `qtype_randomdata_calculate_answer`: normalisation, rounding and layout |
| `ResultStats` | display.dfy | the results summary and the bar chart of the items form |
| `Rounding`, `Text`, `Assoc`, `Wrappers` | rounding.dfy, text.dfy, assoc.dfy, wrappers.dfy | PHP `round`, string built-ins, ordered PHP arrays, `Option`/`Result` |

Some things are passed in as parameters rather than computed:
- A PHP float is a `Num`: a real, a signed infinity or NAN.
- A `Host` record holds float-to-string conversion, `is_numeric`, `eval` and the text of the validator's messages.
- A `Sampler` record holds the log-uniform and Box-Muller formulas.
- An `Arith` record holds `sqrt` and the statistics of results holding an infinity or NAN, as reals.
- `mt_rand` is a finite sequence of draws from [0, 1]. Running out of draws is an error (`OutOfDraws`), so the unbounded inner loops of the normal and triangle samplers need no invented cap.
- Database tables are sequences of records, passed in and returned.

Several loops the source runs in place are methods with loop invariants,
each proved equal to a specification function:
- the rewrite loop of the validator and the substitution fold;
- the retry and slot loops, and the tally of points in an `array`;
- the item loops of `save_dataset_items`;
- the `$p10` loops;
- the counting loops of the items form.

The properties are proved about those functions.

The upload branch of `save_dataset_items` reads the generated values at
indices `maxnumber` onwards, not from 0. The form offers the generate
button only when `noofitems` is 0 (`NoOfItemsZero`), and from an empty
start the reads are exactly the generated values
(`FromEmptyReadsGenerated`). From a non-empty start they would run past
the generated slots and store null values (`OffsetReadsPastGenerated`,
`OffsetStoresNull`). The model keeps the reads as written.

The triangle sampler rounds its value after the strict-inside check, so a
stored triangle value can equal the range's minimum
(`TriangleStoredAtMin`). It always stays within the rounded range
(`TriangleStoredInRange`).

## Model

| member | source | states |
|---|---|---|
| Formula.FirstMarker | questiontype.php:2697-2701 | no marker is reported exactly when none of `//`, `/*`, `#`, `<?`, `?>` occurs; otherwise the reported one occurs and no earlier marker of the list does |
| Formula.MarkerRejected | questiontype.php:2697-2701 | a formula holding marker k and none before it in the list is rejected with the illegal-syntax error naming marker k |
| Formula.FindCallFrom | questiontype.php:2715-2717 | the loop's regex finds the leftmost index where a call shape starts; no index before it has one, and none found means no index at all has one |
| Formula.FindCall | questiontype.php:2715-2717 | whatever the loop's regex finds is a call shape (prefix character, name, parenthesised operand arguments) occurring in the formula at its index |
| Formula.GroupsByArity | questiontype.php:2715-2716 | capture groups 3, 4 and 5 are set exactly when the call has at least 1, 2 and 3 arguments, and groups 4 and 5 are never PHP-empty |
| Formula.CheckCall | questiontype.php:2718-2769 | a call passes exactly when its name's arity class admits its number of arguments (pi 0, the one-argument names 1, log/round 1-2, atan2/fmod/pow 2, min/max at least 2, a bare parenthesis 1, other names never); a failing call gets its class's message |
| Formula.CheckCallMatchesTable | questiontype.php:2718-2769 | the `switch` as written decides every call as the arity table does, except a call whose only argument is `0` |
| Formula.SineOfZeroAsWritten | questiontype.php:2734-2744 | the `switch` as written rejects `sin(0)` as missing its argument, while the arity table accepts it |
| Formula.RewriteDropsParen | questiontype.php:2772-2778 | rewriting a found call to `1.0` strictly lowers the number of `(`: the loop's termination measure |
| Formula.NoParenNoCall | questiontype.php:2715-2717 | a text without `(` holds no call, so the loop stops |
| Formula.Reduce | questiontype.php:2715-2779 | the rewrite loop, on success, leaves a text with no call left and no more `(` than it started with; it terminates on the count of `(` |
| Formula.ReduceWithoutCall | questiontype.php:2715-2779 | a text without calls leaves the loop unchanged |
| Formula.PlaceholderEnd | questiontype.php:51 | a placeholder match is `{`, a letter, placeholder characters and `}` |
| Formula.StripWithoutBraces | questiontype.php:2707 | replacing placeholders by `1.0` leaves a text without `{` as it is |
| Formula.NormalisePlain | questiontype.php:2707-2710 | without `{` or spaces, normalisation only lowers the case |
| Formula.FirstUnsafeRun | questiontype.php:2781-2782 | no run is found exactly when every character is in the safe class; a found run is non-empty, occurs in the text and is made of unsafe characters only |
| Formula.FindFormulaErrors | questiontype.php:2695-2787 | the marker loop, the rewrite loop and the final check, run as a loop, return the validator's verdict |
| Formula.AcceptedIsSafe | questiontype.php:2695-2787 | an accepted formula has no marker, every call in it passed the arity table, and what the rewrites leave is safe characters only |
| Formula.AcceptsPlainArithmetic | questiontype.php:2697-2786 | numbers and safe operators alone, without a marker, are accepted |
| Formula.AcceptsOneArgCall | questiontype.php:2715-2786 | a one-argument function applied to a whole number, such as `sin(30)`, is accepted by the validator with the arity table (the `switch` as written refuses the argument `0`) |
| Formula.FormulasFrom | questiontype.php:56 | every body found occurs in the text as `{=body}` |
| Formula.FindFormulas | questiontype.php:2488-2492 | every formula found occurs in the text as `{=body}`, each one once |
| Formula.PlaceholdersFrom | questiontype.php:51 | every name found is non-empty, starts with a letter and occurs as `{name}` |
| Formula.FindDatasetNames | questiontype.php:2475-2479 | every name found occurs as `{name}`, each one once |
| Formula.FailuresOf | questiontype.php:2799-2804 | no message exactly when every formula is accepted; every message is the verdict of one of the formulas |
| Formula.FailuresOfSnoc | questiontype.php:2799-2804 | one more formula adds its message at the end when it fails and nothing otherwise |
| Formula.FindFormulaErrorsInText | questiontype.php:2795-2811 | the loop collects, in order, the messages of the text's formulas that fail |
| Substitution.RenderAddsNoBrace | questiontype.php:2091-2103 | with float texts and numeric strings free of `{`, a rendered value holds no `{`, parentheses and the `1.0` fallback included, so it is never a placeholder |
| Substitution.SubstitutionAddsNoBrace | questiontype.php:2090-2104 | substituting a dataset never adds a `{` to the formula, and a placeholder found by the first wildcard removes one |
| Substitution.SubstitutedAppend | questiontype.php:2090-2104 | the `foreach` over two runs of wildcards substitutes the first run, then the second |
| Substitution.SubstituteVariables | questiontype.php:2084-2108 | the `str_replace` loop over the dataset computes the fold of the substitution steps |
| Substitution.SubstitutionStep | questiontype.php:2099-2103 | one step replaces exactly the occurrences of `{name}` by the rendered value and keeps the text between them |
| Substitution.SubstitutedWithoutBraces | questiontype.php:2090-2104 | a text without placeholders comes out unchanged |
| Substitution.SubstitutesExample | questiontype.php:2099-2103 | `{a}+{b}` with a = 3 and b = -2 becomes `3+(-2)` |
| Substitution.EvaluatedTextAccepted | questiontype.php:2132-2150 | a number or boolean answer comes from a substituted text that is not empty, `0` or `*`, holds no marker, and whose calls the validator rewrites away leaving safe characters only |
| Substitution.ConstantFormula | questiontype.php:2132-2150 | a formula without `{` gives the same answer on every dataset |
| Substitution.UnusedWildcardIgnored | questiontype.php:2084-2150 | a wildcard, at any position of the dataset, whose `{name}` does not occur in the formula once the wildcards before it are substituted does not change the answer |
| Substitution.StarIsAnyValue | questiontype.php:2143-2144 | `*` is passed through for every dataset |
| Substitution.EmptyIsBlank | questiontype.php:2141-2142 | an empty formula gives the empty answer for every dataset |
| Substitution.ZeroIsBlank | questiontype.php:2141-2142 | the formula `0` is PHP-empty, so it gives the empty answer and not the number 0 |
| DatasetOptions.DefaultPacks | questiontype.php:882 | the default options are the packing of uniform, 1.0, 10.0, 1, and those fields are admissible |
| DatasetOptions.ParseFields | questiontype.php:816 | whatever the pattern parses is an admissible field tuple whose packing is the text |
| DatasetOptions.PackThenParse | questiontype.php:871-874 | packing admissible fields (distribution name, `:`-free bounds, digits) and parsing gives the same fields back |
| DatasetOptions.ParseThenPack | questiontype.php:1243-1244 | every text the pattern accepts is a packing of admissible fields, possibly followed by one newline |
| DatasetOptions.WrongFieldCount | questiontype.php:1184-1188 | a text without `:` is refused |
| Constraints.RuleRejectsIff | questiontype.php:1479-1541 | a rule asks for a new draw exactly when its result is a number or a boolean that is infinite, of a forbidden sign (zero, positive, negative), or not strictly inside the bounds that are set as PHP 8 compares them, a bound that evaluates to a string compared as a string; it aborts exactly when its own result is a string, and carries that result |
| Constraints.BlankBound | questiontype.php:1513-1531 | a bound that evaluates to `''` is at most every number, and no number PHP spells with a character is at most it |
| Constraints.ZeroMaxRejectsAll | questiontype.php:1513-1517 | a maximum written `0`, with no minimum, rejects every numeric result |
| Constraints.ZeroMinIgnored | questiontype.php:1520-1524 | a minimum written `0`, with no maximum, accepts every numeric result of an allowed sign that PHP spells with at least one character |
| Constraints.Verdicts | questiontype.php:1475-1477 | one verdict per rule, each that rule's own verdict |
| Constraints.CombineAccepts | questiontype.php:1475-1547 | the validation accepts exactly when every rule accepts |
| Constraints.CombineRejects | questiontype.php:1475-1547 | the validation asks for a new draw exactly when some rule rejects and every rule before it accepts |
| Constraints.CombineFails | questiontype.php:1475-1547 | the validation aborts exactly when some rule aborts and every rule before it accepts |
| Constraints.ValidationFormulas | questiontype.php:1460-1548 | the loop over the rules returns the combined verdict |
| Constraints.ForbiddenZeroRejects | questiontype.php:1487-1488 | a rule with the zero flag set to 2 rejects every value set on which its formula is 0 |
| Generator.BoundsOf | questiontype.php:1243-1247 | options the pattern refuses stop generation with an error naming the definition |
| Generator.NormalFrom | questiontype.php:1334-1346 | a normal value is strictly inside the range and uses two draws per pass |
| Generator.SampleNormal | questiontype.php:1334-1348 | the inner do-while loop computes that value |
| Generator.PassesUntilInside | questiontype.php:1390-1403 | a loop of passes ends only on a value strictly inside the range, after at least one draw |
| Generator.TriangleFromAsWritten | questiontype.php:1387-1403 | the triangle loop as written ends only on a value strictly inside the range |
| Generator.TriangleStepNarrow | questiontype.php:1392-1398 | no branch of the triangle loop as written gives more than min + 2 |
| Generator.TriangleAsWrittenNarrow | questiontype.php:1387-1403 | the triangle loop as written never returns more than min + 2, whatever the range |
| Generator.TriangleAsWrittenMissesMiddle | questiontype.php:1387-1403 | as written, on the range 0 to 10 every returned value is below 5 |
| Generator.TriangleFrom | questiontype.php:1389-1403 | the corrected triangle loop ends only on a value strictly inside the range |
| Generator.TriangleValueInRange | questiontype.php:1389-1403 | the corrected triangular value lies within the range for draws in [0, 1] |
| Generator.TriangleReachesAll | questiontype.php:1389-1403 | every value strictly inside the range is produced by the corrected loop from some pair of draws |
| Generator.SampleTriangle | questiontype.php:1389-1403 | the loop computes the corrected triangle value |
| Generator.TriangleStoredInRange | questiontype.php:1399-1405 | a triangle value rounded after the validation stays within a range whose ends are on the rounding grid |
| Generator.TriangleStoredAtMin | questiontype.php:1399-1405 | a value accepted as strictly inside 0 to 10 can be stored as 0 once rounded |
| Generator.UniformWithinBounds | questiontype.php:1250 | the rounded uniform value lies within a range whose ends are on the rounding grid |
| Generator.UniformMayLeaveBounds | questiontype.php:1250 | the range 0.04 to 0.06 with one decimal gives 0 for the draw 0 |
| Generator.DrawOne | questiontype.php:1250-1405 | each sampler consumes at least one draw and never more than there are |
| Generator.SampleOne | questiontype.php:1250-1405 | the sampler of the chosen distribution computes that value |
| Generator.DrawAll | questiontype.php:1237-1252 | one draw gives one value per definition |
| Generator.SlotDataset | questiontype.php:1466-1472 | the dataset of one attempt has distinct names |
| Generator.SlotDatasetValues | questiontype.php:1469-1472 | each wildcard holds the value drawn for the last definition whose key yields its name by `explode("-", $key)[2]` |
| Generator.SlotDatasetNames | questiontype.php:1469-1472 | every wildcard of the dataset is the name of some definition |
| Generator.DrawAllStep | questiontype.php:1237-1252 | definition k's options are read and its value drawn before the later definitions, and a refused options string stops the loop |
| Generator.DrawDefinitions | questiontype.php:1237-1252 | the `foreach` over the definitions computes that draw |
| Attempts.Retry | questiontype.php:1233-1266 | at most 30 attempts are made; a slot still rejected after the last attempt is NAN for every definition |
| Attempts.RetrySound | questiontype.php:1233-1259 | an accepted value set is one that an attempt drew and the validation accepted |
| Attempts.GenerateSlot | questiontype.php:1230-1266 | the do-while loop and the NAN fill compute the retry outcome |
| Attempts.FirstAcceptedKept | questiontype.php:1255-1259 | the first value set the validation accepts is kept as drawn |
| Attempts.AlwaysRejectedIsNaN | questiontype.php:1259-1266 | rejections on every attempt leave the slot NAN after exactly 30 attempts |
| Attempts.GenerateRow | questiontype.php:1228-1419 | the four retry loops of a slot run one after the other on the shared draws |
| Attempts.GenerateSlots | questiontype.php:1225-1421 | the outer slot loop builds the four tables slot by slot, stopping at the first error |
| Attempts.SlotsSound | questiontype.php:1225-1421 | tables built from rows that satisfy a property have one row per slot, each satisfying it |
| Generation.GenerateWithDistribution | questiontype.php:1215-1421 | the generation method returns the tables of `selectadd` slots, or the error that stopped it |
| Generation.GenerateSound | questiontype.php:1225-1421 | each of the four tables has one row per slot, and every row is either a value set the validation accepted or NAN throughout |
| Generation.AcceptedByEveryRule | questiontype.php:1255-1266 | a stored row that is not NAN is accepted by every validation rule |
| Selector.FullCredit | questiontype.php:1565 | exactly the answers graded 100% are evaluated |
| Selector.PhpMin | questiontype.php:1675-1686 | `min` of numbers and booleans, as PHP folds it, is one of the results, and on numbers alone it is at most every one |
| Selector.PhpMax | questiontype.php:1675-1686 | `max` of numbers and booleans, as PHP folds it, is one of the results, and on numbers alone it is at least every one |
| Selector.SquaredDeviations | questiontype.php:1699-1703 | the sum of squared deviations is never negative, and it is 0 when every value equals the mean |
| Selector.FiniteStatistics | questiontype.php:1691-1710 | on finite numbers the statistics abort exactly on a zero mean; otherwise range and variance are not negative and the deviation is the root of the variance |
| Selector.ConstantStatistics | questiontype.php:1691-1710 | constant results c have range and variance 0, and abort when c is 0 |
| Selector.TextAborts | questiontype.php:1691-1697 | a string among a distribution's results aborts its statistics, and with them the whole answer's comparison |
| Selector.DisqualifiedGetsNoStats | questiontype.php:1705-1726 | a distribution whose results hold a boolean and no string gets all-zero statistics when another distribution's results are all numbers |
| Selector.NoneNumericAllCompared | questiontype.php:1691-1717 | when no distribution's results are all numbers, a distribution of numbers and booleans is compared on its own values, booleans counted as 0 and 1: it aborts exactly on a zero mean, and otherwise its variance is the mean squared deviation and its deviation the root of it |
| Selector.QualifiedExists | questiontype.php:1705-1726 | some distribution always keeps its statistics |
| Selector.Max4 | questiontype.php:1842 | `max` of four values is one of them and at least every one |
| Selector.ChainFirstMax | questiontype.php:1842-1852 | after `max`, the if/elseif chain picks the first distribution holding the maximum |
| Selector.AwardsAsWrittenFirstMax | questiontype.php:1842-1891 | with no negative range, each statistic's point goes to the first distribution with the largest value |
| Selector.BestQualified | questiontype.php:1842-1891 | the corrected choice picks a qualified distribution with the largest value among the qualified ones, earlier ones winning ties |
| Selector.AnswerAwards | questiontype.php:1705-1891 | every point of an answer goes to a distribution whose results are qualified |
| Selector.DisqualifiedWinsAsWritten | questiontype.php:1720-1852 | as written, a Uniform whose one result is `false` is disqualified yet wins all four points when the others' results are the constant 2; the corrected awards give them to Log-Uniform |
| Selector.AllAwardsAbort | questiontype.php:1669-1893 | an abort on the first answers aborts the whole comparison |
| Selector.PointsTotal | questiontype.php:1842-1891 | each answer gives out exactly four points, so the tallies total four times the number of answers |
| Selector.PointsStep | questiontype.php:1844-1891 | one more answer raises each tally by that answer's points for the distribution |
| Selector.TallyPoints | questiontype.php:1669-1893 | the loop over the answers fills the four tallies, or reports the first abort |
| Selector.Winner | questiontype.php:1896-1923 | the winner holds the most points, and every earlier distribution holds strictly fewer |
| Selector.ComparationResults | questiontype.php:1560-1925 | the comparison returns the winner's tables and results, or the first abort |
| Selector.SelectionSpec | questiontype.php:1896-1923 | the selection carries the winner's name, tables and results; the winner has the most points, ties going to the earlier distribution, and with no answers Uniform is selected |
| Selector.ResultRowsSpec | questiontype.php:1427-1443 | one row per slot of the first answer, with the selected distribution's name, storing `Error` exactly when the result is not a number and the number otherwise |
| Selector.SaveResults | questiontype.php:1427-1444 | the insert loop writes those rows |
| Definitions.NameOfKeyInverts | questiontype.php:2187 | the name read back from a `type-category-name` key is the definition's name, even when it holds `-` |
| Definitions.HyphenatedNameTruncated | questiontype.php:1470-1472 | `explode("-", $var)[2]` cuts a name holding `-` at its first `-`, while the three-part split keeps it whole |
| Definitions.FromRecords | questiontype.php:2173-2177 | the loaded definitions have distinct keys |
| Definitions.FromRecordsNewest | questiontype.php:2173-2177 | each key maps to the last record carrying it |
| Definitions.NewDefinition | questiontype.php:2187-2194 | a new definition has no id, no items and the default options |
| Definitions.AddNewSpec | questiontype.php:2180-2196 | adding new keys keeps the existing definitions, gives each new non-empty key a fresh definition, and keeps the keys distinct |
| Definitions.GetDatasetDefinitionsSpec | questiontype.php:2160-2199 | each key maps to its newest stored record, or otherwise to a fresh definition when it is a requested non-empty key |
| Definitions.FormStepSpec | questiontype.php:868-876 | one pass changes the definition with that key and no other |
| Definitions.ApplyFormSpec | questiontype.php:867-877 | each definition gets the options of its own form row when those are numeric |
| Definitions.FillDefaults | questiontype.php:880-884 | empty options become the default options, and every other field and every other definition is kept |
| Definitions.UpdateDatasetOptionsSpec | questiontype.php:862-888 | after the update each definition keeps its key and other fields; its options are those of its form row when numeric, else they are unchanged, with empty options set to the default |
| Definitions.UpdatedOptionsNonEmpty | questiontype.php:880-884 | no definition is left with empty options |
| Definitions.CollapseToOldest | questiontype.php:2249-2252 | the `array_shift` loop keeps the last older id and deletes the inserted one and every other older one |
| Definitions.CollapseKeepsOldest | questiontype.php:2243-2253 | with the older ids newest first, the kept id is the smallest, and kept plus deleted ids are exactly the ids involved |
| Definitions.DeleteQuestionSpec | questiontype.php:770-779 | a definition and its items are deleted exactly when the question used it and no other question does; all the question's links go and no other link does |
| Definitions.GetRandomGuessScore | questiontype.php:785-792 | the score is never negative, and it is 0 without a `*` answer |
| Definitions.RandomGuessFirstStar | questiontype.php:786-789 | the score is the first `*` answer's fraction less the unit penalty, floored at 0 |
| DatasetItems.KeepFirst | questiontype.php:1014-1018 | the `isset` loop keeps, for each key, the value of its first row, with distinct keys |
| DatasetItems.KSort | questiontype.php:1019 | `ksort` keeps the same entries in ascending key order |
| DatasetItems.GetDatabaseDatasetItems | questiontype.php:1004-1022 | the items come in ascending item number, each with the first of its rows in query order |
| DatasetItems.NewestItemKept | questiontype.php:1008-1018 | with the rows newest first, each item number present maps to its row with the greatest id, and only item numbers of rows are present |
| DatasetItems.PickQuestionDataset | questiontype.php:2391-2422 | no rows is the abort; otherwise each name takes the value of its first row |
| DatasetItems.NewestValuePicked | questiontype.php:2398-2419 | with the rows newest first, each name takes the value of its row with the greatest id |
| DatasetItems.MaxNumber | questiontype.php:1055-1067 | the loop over the definitions computes `maxnumber` |
| DatasetItems.MaxNumberIsSmallest | datasetitems_form.php:103-108 | `maxnumber` is -1 exactly when there is no definition, and otherwise the smallest item count |
| DatasetItems.Capped | questiontype.php:1071-1073 | `maxnumber` is held to 100 |
| DatasetItems.NoOfItemsZero | datasetitems_form.php:132-136 | `noofitems` is never negative, and it is 0 exactly when there is no definition or some definition has no items |
| DatasetItems.CeilDiv | questiontype.php:1086 | the item number of field i is the group of `count` fields it falls in |
| DatasetItems.CeilDivAtMost | questiontype.php:1079-1086 | no item number exceeds the number of items the fields cover |
| DatasetItems.FieldsWritten | questiontype.php:1077-1081 | the loop writes all fields, or breaks after `count * maxnumber` |
| DatasetItems.SaveFormItems | questiontype.php:1075-1097 | the field loop produces the updates and inserts of the submitted items |
| DatasetItems.FormItemNumbers | questiontype.php:1079-1108 | every write carries an item number from 1 to `maxnumber`, so the count raise after the loop never happens |
| DatasetItems.FormWritesFields | questiontype.php:1077-1097 | each written field goes to its definition, updating its record when it has one and inserting otherwise, with the submitted value |
| DatasetItems.NumberToAdd | questiontype.php:1116-1120 | the number added is the amount asked for, held so that the items stay within 100 |
| DatasetItems.NumberToAddPositive | questiontype.php:1112-1120 | when the add branch runs it adds at least one slot |
| DatasetItems.Reads | questiontype.php:1126-1129 | the inner loop reads indices `first` to `first + n - 1` |
| DatasetItems.Kept | questiontype.php:1129-1131 | the NaN test keeps exactly the reads that are not NAN, in order |
| DatasetItems.DefinitionItemsSpec | questiontype.php:1125-1139 | a definition's new items are numbered 1, 2, ... with the kept values in read order, none of them NAN |
| DatasetItems.DefinitionItemsSkip | questiontype.php:1129-1131 | a NAN read adds no item |
| DatasetItems.DefinitionItemsKeep | questiontype.php:1131-1138 | any other read adds one item, numbered after the kept ones |
| DatasetItems.AddDefinitionItems | questiontype.php:1125-1139 | the inner loop inserts those items and counts them in `addedevals` |
| DatasetItems.AddSupplementary | questiontype.php:1123-1151 | the add branch inserts every definition's items, sets `maxnumber` to the last definition's count and writes it to every saved definition |
| DatasetItems.WithItemCount | questiontype.php:1145-1151 | every saved definition takes the new item count, and unsaved ones are untouched |
| DatasetItems.FromEmptyReadsGenerated | questiontype.php:1126-1129 | from an empty dataset, each definition reads exactly its generated values |
| DatasetItems.OffsetReadsPastGenerated | questiontype.php:1126-1129 | from `maxnumber` items, the last `maxnumber` reads lie past the generated slots and are null |
| DatasetItems.OffsetStoresNull | questiontype.php:1126-1136 | one existing item and one generated value 2: the inserted item has a null value, where an empty start stores 2 |
| DatasetItems.EqualCountsFromEmpty | questiontype.php:1142-1151 | when every generated slot is NAN for all definitions or for none, every definition gets the count written to it |
| DatasetItems.FilterResults | questiontype.php:1174 | the result rows kept are exactly those of other questions |
| DatasetItems.DeleteGeneratedSpec | questiontype.php:1156-1176 | a count equal to `maxnumber` is reset to 0 and no other field changes; every saved definition loses all its items; the question's results go whenever there is a definition |
| DatasetItems.DeleteResetsSmallest | questiontype.php:1168-1172 | deletion leaves some definition with count 0 |
| AnswerFormat.Normalise | questiontype.php:2632-2640 | the two `$p10` loops bring a positive answer to a mantissa in [0.1, 1) with answer = mantissa * 10^p10 |
| AnswerFormat.Bracket | questiontype.php:2632-2640 | in normal form the answer lies in [10^(p-1), 10^p) |
| AnswerFormat.NormalFormUnique | questiontype.php:2632-2640 | the mantissa and exponent of the normal form are unique |
| AnswerFormat.RoundedMantissa | questiontype.php:2642 | rounding the mantissa to at least one place keeps it in [0.1, 1] |
| AnswerFormat.RoundedShift | questiontype.php:2642-2648 | after the carry step the mantissa is in [0.1, 1), on the rounding grid, and denotes the same rounded value |
| AnswerFormat.RoundedError | questiontype.php:2642 | the rounded value differs from the answer by at most half a unit in the last kept place |
| AnswerFormat.SignificantRounding | questiontype.php:2632-2648 | normalising, rounding and the carry give a mantissa in [0.1, 1) on the grid whose value is within half a unit in the last place of the answer |
| AnswerFormat.LayoutSpec | questiontype.php:2651-2676 | scientific notation is chosen exactly for exponents outside [-2, 4], with a mantissa in [1, 10) giving the same value; plain notation shows the rounded value and asks for padding exactly when it is below 10^(places-1) |
| AnswerFormat.Suffix | questiontype.php:2681-2683 | a unit is appended after one space, and nothing is appended without a unit |
| AnswerFormat.FormatNumber | questiontype.php:2612-2680 | the format branches lay out a numeric answer with fixed decimals in format 1, as 0 for zero, and in significant figures otherwise |
| AnswerFormat.CalculateAnswer | questiontype.php:2603-2687 | a non-numeric answer gives NAN; a numeric one is laid out by the format branches and followed by its unit |
| AnswerFormat.SignificantExamples | questiontype.php:2632-2676 | 1234.5 to 3 figures is plain 1230, and -0.000123 to 2 figures is -1.2e-4 |
| ResultStats.GetInfoResults | datasetitems_form.php:382-426 | the loop over the stored rows computes completeness, the numeric results, their count, the last distribution name, min, max, range and mean, or the abort: no numeric row (`min` of an unset array), an infinite or NaN result (`+=` on its text), a zero mean (the division for `coef`) |
| ResultStats.InfoAborts | datasetitems_form.php:390-426 | the summary aborts for no results exactly when no row holds a number, for a non-number exactly when some stored number is infinite or NaN, and for a zero mean exactly when the finite results add up to 0 |
| ResultStats.MeanWithinBounds | datasetitems_form.php:408-417 | a summary that does not abort has its mean between its min and max, and counts as many results as it holds |
| ResultStats.ZeroMeanAborts | datasetitems_form.php:412-426 | results -1 and 1 make the summary abort on its division by a zero mean |
| ResultStats.InfoCounts | datasetitems_form.php:389-405 | numeric rows plus Error rows are all the rows, and `complete` stays 1 exactly when no row is an Error |
| ResultStats.NumbersStored | datasetitems_form.php:392-397 | a value is among the results exactly when some row stores it as a number |
| ResultStats.LastDistributionSpec | datasetitems_form.php:394-397 | a distribution name is set exactly when some row is numeric, and it is the name of the last numeric row |
| ResultStats.Min | datasetitems_form.php:408 | `min` of the finite results is one of them and at most every one |
| ResultStats.Max | datasetitems_form.php:409 | `max` of the finite results is one of them and at least every one |
| ResultStats.BoundsOf | datasetitems_form.php:408-410 | min and max are results bounding every result, and range is max - min |
| ResultStats.BucketCount | datasetitems_form.php:451-515 | one label exactly for one result; otherwise 4 buckets up to 30 results, 6 above 60, 5 between |
| ResultStats.EdgesSorted | datasetitems_form.php:458-472 | the unrounded bucket boundaries are ordered, from min to max |
| ResultStats.RoundedEdgesSorted | datasetitems_form.php:461-472 | the boundaries rounded to 2 decimals are still ordered |
| ResultStats.BarsSpec | datasetitems_form.php:451-515 | a single result gives one label `round(min, 2)`; otherwise consecutive labels share their boundary, the first starts at `round(min, 2)` and the last ends at `round(max, 2)` |
| ResultStats.ChartBars | datasetitems_form.php:448-515 | the `$sig`/`$sumador` loops build those labels |
| ResultStats.CountInRange | datasetitems_form.php:554-560 | the count is 0 exactly when no result passes the test, and all of them exactly when every one passes (closed for the first bucket, open below for the others) |
| ResultStats.AtMostOneBucket | datasetitems_form.php:526-528 | over ordered boundaries no result is inside two buckets |
| ResultStats.CountSplit | datasetitems_form.php:554-560 | a closed count splits at an inner point into a closed and a half-open count |
| ResultStats.BucketsPartition | datasetitems_form.php:519-533 | over ordered boundaries the bucket counts add up to the closed count over the whole span |
| ResultStats.CountResults | datasetitems_form.php:519-533 | the counting loop counts each label's results, closed for the first |
| ResultStats.CountsAsWrittenRounded | datasetitems_form.php:519-533 | as written, the counts are taken between the rounded boundaries |
| ResultStats.RoundedBucketsAsWritten | datasetitems_form.php:461-533 | as written, the counts add up to the results within `[round(min, 2), round(max, 2)]` |
| ResultStats.RoundedChartMissesMin | datasetitems_form.php:461-533 | results 1.236 and 2.0 are counted once in total, not twice |
| ResultStats.NullBarCountsNothing | datasetitems_form.php:522-528 | a label without ` - ` has a null upper bound, and no stored result is at most null, so its bar counts nothing |
| ResultStats.SingleResultAsWritten | datasetitems_form.php:451-528 | as written, a single result is never counted: its one bar shows 0, where the unrounded count shows 1 |
| ResultStats.ChartCounts | datasetitems_form.php:519-533 | the corrected counts give one count per bucket |
| ResultStats.ChartCountsAll | datasetitems_form.php:519-560 | with unrounded boundaries every result is counted exactly once, and a single result gets its one count |
| ResultStats.GetChartBarAsWritten | datasetitems_form.php:439-542 | the chart as written: those labels and the counts between rounded boundaries |
| ResultStats.GetChartBar | datasetitems_form.php:439-542 | the corrected chart: the same labels and the counts between unrounded boundaries |

## Left out

- Database access: every table is a sequence of records passed in and returned. SQL, its ordering and `fullclone` are not modelled; the query order a member relies on is stated in its `requires`.
- `mt_rand`: a finite sequence of draws from [0, 1], one consumed per call. Running out of draws is reported as `OutOfDraws`.
- Generator.NormalFrom, Generator.TriangleFrom: when a definition's minimum is not below its maximum, no value lies strictly inside the range, and the `do … while` loops of the normal and triangle samplers (questiontype.php:1336-1346, 1390-1403) never end in PHP (the triangle's middle branch can instead divide by zero). The model reports `OutOfDraws` once the draws are spent and does not model the non-termination.
- `log`, `exp`, `sqrt` and `cos` in the log-uniform and normal samplers and in the standard deviation are opaque functions (`Sampler`, `Arith`). Only the accept conditions around them are modelled.
- PHP `eval` is an abstract function from validated text to a number or a boolean (a comparison, `!`, `&&`), assumed total. PHP 8 errors raised by `eval` itself (a parse error, a division by zero inside the formula) are not modelled.
- PHP 8 throws on a string in the arithmetic of `abs` and of the statistics (`TypeError`), on `min` of no results (`ValueError` for an empty array in the selection, `TypeError` for the unset array in `get_info_results`) and on a division by a zero mean (`DivisionByZeroError`, in the selection and in `get_info_results`). Each is modelled as a `Failure` result naming the cause, not as an exception.
- Selector.Statistics, Selector.AwardsAsWritten: the statistics of results holding an infinity or NAN are the reals `Arith.other` gives, not PHP's INF/NAN floats. PHP's NAN statistics, for which every `$max == $x` of the chains at questiontype.php:1843-1889 is false so that the point falls to Triangle's `else`, are not modelled.
- Selector.AnswerStats: when several of those aborts apply to one answer, the cause reported may differ from PHP's, which computes the ranges of Normal and Triangle before the sums of Uniform. Whether the answer aborts does not differ.
- Generator.DrawOne, Generator.SampleOne, Generation.GenerateWithDistribution: the triangle sampler is the corrected loop (Generator.TriangleFrom), not the one as written (Generator.TriangleFromAsWritten), so that what is proved about generation is about a triangular variate over the whole range.
- Selector.ComparationResults: the points are the corrected awards (Selector.AnswerAwards), which skip disqualified distributions, not the chains as written (Selector.AnswerAwardsAsWritten).
- Formula.Reduce, Formula.FormulaErrors, Formula.FindFormulaErrors, Formula.AcceptsOneArgCall: calls are checked against the arity table (Formula.CheckCall), not the `switch` as written (Formula.CheckCallAsWritten), which differs only on a single argument `0` (Formula.CheckCallMatchesTable).
- Float formatting (`sprintf`, `strval`, `format_float`, string concatenation of floats) is left to `Host.show`. The exact digits of the significant-figure output, including the `substr` padding, are not modelled: `Shown` records the layout, the rounded value and the padding length.
- Floating-point error in the `$p10` loops and in the chart boundaries: both are computed over exact reals.
- AnswerFormat.RoundedError: the rounding error is bounded relative to the normal form's exponent, half a unit of the last place, not in terms of a binary float.
- AnswerFormat.FormatNumber: an infinite answer in significant figures never leaves the second `$p10` loop; the model marks it `Unending` instead of looping.
- The tolerance interval computed by the host `qtype_numerical_answer` is a foreign call and is not modelled.
- ResultStats.GetInfoResults: the variance, standard deviation and coefficient of variation of the summary (rounded floats through `sqrt`) are not modelled; only the division by the mean they end in is. An infinite or NaN result is taken to come back from the database as its PHP spelling `INF` or `NAN`, a non-numeric string, so that `+=` on it aborts. The chart is modelled over finite results only.
- The generator's single-item path `generate_dataset_item` is modelled only through its options pattern (DatasetOptions.WrongFieldCount); its `sprintf` output is float formatting.
- Notifications, `print_error` text, language strings, the form and wizard UI (edit_randomdata_form.php, datasetdefinitions_form.php, `definition()`/`set_data`), `renderer.php` and backup/restore are not part of this model.

## Findings

| source | as written | input that shows it | evidently intended | confidence | as-written member | corrected member |
|---|---|---|---|---|---|---|
| questiontype.php:2734-2744 | a one-argument function is rejected when `empty($regs[3])`, and `empty("0")` is true in PHP | `sin(0)` is rejected as taking one argument | any single non-empty argument is accepted | high; not executed | Formula.SineOfZeroAsWritten | Formula.CheckCall |
| questiontype.php:1392-1398 | each branch computes min + (max - min) * density(x), which never exceeds min + 2 | range 0 to 10: every value returned is below 5 | a triangular variate over the whole range | high; not executed | Generator.TriangleAsWrittenMissesMiddle | Generator.TriangleReachesAll |
| questiontype.php:1720-1725 | a disqualified distribution gets zero statistics, and the chains then compare those zeros with the others' values, Uniform first | Uniform's result is the boolean `false` (from a formula such as `{a}>5`); the other three results are the constant 2 | a disqualified distribution wins no point | medium; not executed | Selector.DisqualifiedWinsAsWritten | Selector.AnswerAwards |
| questiontype.php:1470-1472 | the wildcard name is `explode("-", $key)[2]`, cut at a `-` inside the name | a wildcard `{a-b}` is looked up as `a` | the name as the three-part split at questiontype.php:2187 reads it | medium; not executed | Definitions.HyphenatedNameTruncated | Definitions.NameOfKeyInverts |
| datasetitems_form.php:461-472 | the counts use the labels, rounded to 2 decimals, as bucket boundaries | results 1.236 and 2.0: the first bucket starts at 1.24 and 1.236 is counted nowhere | every result counted in one bucket | high; not executed | ResultStats.RoundedChartMissesMin | ResultStats.ChartCountsAll |
| datasetitems_form.php:451-454 | the single label has no ` - `, so the upper bound is null, and `$e <= null` compares the stored text with `''` as strings, which never holds | one result 3.0 is counted 0 times | the one bar counts the one result | high; not executed | ResultStats.SingleResultAsWritten | ResultStats.ChartCountsAll |

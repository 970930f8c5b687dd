# Integer filter serializer, modelled in Dafny

This project models `IntegerSerializer`, the integer filter type of the
query-filter serializer. An encoded filter such as `>=10;<20;!15;7` goes
through three stages:

1. **Unserialize.** `unserialize` splits the text on `;`, drops repeated
   and empty tokens, and parses each token with `parseValue`. The operator
   table comes from `getConditionsAssoc`: `=` `!` `<` `>` `<=` `>=` for
   `eq` `neq` `lt` `gt` `lte` `gte`. A token that starts with a digit is an
   `eq` constraint.
2. **Optimize.** `optimizeResults` groups the constraints by condition and
   then by value, the job of `Formatter::groupArray`. Each condition is
   reduced on its own. For `gt` it keeps only the constraints with the
   largest value, and likewise for `gte`. For `lt` and for `lte` it keeps
   only the smallest. So `>3;>=10` keeps both bounds, because `gt` and
   `gte` are separate groups. It merges all `eq` values into one list, and
   all `neq` values into another.
3. **Emit.** `buildSqlParts` turns each constraint into a WHERE fragment
   `alias.field op :placeholder` and the value bound to the placeholder.
   The placeholders are numbered `alias_field`, `alias_field2`, and so on.

Modules, one per file:

- `Builtins`: models of the PHP built-ins the class relies on: `is_numeric`
  on integer literals, `explode`, `array_unique`, `array_filter`,
  `max`/`min`. It also defines `Implode`, which the class never calls. It
  serves only this model's encoder for the round-trip lemma.
- `Constraints`: conditions, values, constraints, errors, and `Collect`,
  which gathers the outcomes of a loop that aborts on the first error.
  It also defines `Holds`, what a constraint means for a column value.
  `Holds` is the reference used for the optimizer's and emitter's
  meaning-preservation lemmas.
- `Parser`: `getConditionsAssoc`, `parseValue`, and the tokenizing done by
  `unserialize`.
- `Grouping`: `groupArray(['condition', 'value'], …)` as a loop method.
  This helper lives in a class that is not part of this model, so it is
  rebuilt from how the optimizer uses it: both levels keep first-seen order.
- `Optimizer`: `optimizeResults` as a loop method over the groups, proved
  against the function `Optimized`, with lemmas about what survives.
- `SqlEmitter`: `buildSqlParts` as a loop method proved against the
  function `SqlParts`, with lemmas about the parts and what they select.
- `Serializer`: `unserialize` as a loop method proved against
  `Unserialized`, with lemmas that connect the stages. These include a
  round trip through an encoder written for the proof. The class's own
  `serialize` is an empty stub.

Parameters stand in for the class's environment:
- The `optimize` option is a boolean argument.
- PHP's `null` input is `Option.None`.
- Each exception is an `Err` result:
  - `UnknownOperand`: a prefix that is not in the table.
  - `NotNumeric`: a value part that is not a number.
  - `UndefinedCondition`: a condition the optimizer or emitter has no case for.

The code and the class comments disagree on one point, and the model
follows the code. The constants are textual codes ("for portability we use
textual representation"), yet `parseValue` looks the prefix up in the
flipped symbol table. Textual tokens such as `gte10` are therefore
rejected; `Parser.TextualCodesRejected` states this.

## Model

| member | source | states |
|---|---|---|
| Builtins.ToInt | QueryFilterSerializer/Filter/Serializer/IntegerSerializer.php:126 | the integer a numeric token denotes: non-positive after a minus sign, non-negative otherwise |
| Builtins.IntToStringRoundTrip | QueryFilterSerializer/Filter/Serializer/IntegerSerializer.php:126 | every integer's decimal text is numeric in the sense of `is_numeric` and denotes that integer again |
| Builtins.MaxOf | QueryFilterSerializer/Filter/Serializer/IntegerSerializer.php:74 | PHP's `max` of a non-empty list: an element of the list that no element exceeds |
| Builtins.MinOf | QueryFilterSerializer/Filter/Serializer/IntegerSerializer.php:84 | PHP's `min` of a non-empty list: an element of the list that exceeds no element |
| Builtins.Explode | QueryFilterSerializer/Filter/Serializer/IntegerSerializer.php:46 | `explode` yields at least one piece, and no piece contains the delimiter |
| Builtins.ExplodeConcat | QueryFilterSerializer/Filter/Serializer/IntegerSerializer.php:46 | splitting text joined at a delimiter gives the pieces of the left side followed by those of the right side |
| Builtins.Distinct | QueryFilterSerializer/Filter/Serializer/IntegerSerializer.php:46 | `array_unique` keeps exactly the elements of its input, without repeats |
| Builtins.DistinctPrefix | QueryFilterSerializer/Filter/Serializer/IntegerSerializer.php:46 | `array_unique` keeps first occurrences in order: the result on a prefix is a prefix of the result |
| Builtins.DistinctSkipSeen | QueryFilterSerializer/Filter/Serializer/IntegerSerializer.php:46 | `array_unique` drops an element wherever it recurs after its first occurrence |
| Builtins.NonEmpty | QueryFilterSerializer/Filter/Serializer/IntegerSerializer.php:46-48 | the `array_filter` callback keeps exactly the non-empty strings, and introduces no repeats |
| Builtins.NonEmptyPrefix | QueryFilterSerializer/Filter/Serializer/IntegerSerializer.php:46-48 | `array_filter` keeps order: the result on a prefix is a prefix of the result |
| Constraints.CodesDistinct | QueryFilterSerializer/Filter/Serializer/IntegerSerializer.php:22-27 | the six condition constants are pairwise different codes, and each code names its condition back |
| Constraints.CollectOk | QueryFilterSerializer/Filter/Serializer/IntegerSerializer.php:50-53 | when no step of the loop fails, the i-th result is the i-th outcome: same length and order |
| Constraints.CollectErr | QueryFilterSerializer/Filter/Serializer/IntegerSerializer.php:50-53 | the loop fails exactly when some step fails, and then with the error of the first failing step |
| Constraints.CollectStep | QueryFilterSerializer/Filter/Serializer/IntegerSerializer.php:51-52 | a step that succeeds appends its value to the results gathered so far |
| Constraints.CollectStops | QueryFilterSerializer/Filter/Serializer/IntegerSerializer.php:51-53 | an error thrown at step i ends the whole call, whatever the later steps would do |
| Parser.ConditionsAssoc | QueryFilterSerializer/Filter/Serializer/IntegerSerializer.php:139-149 | the table has an entry for exactly the six known conditions |
| Parser.FlippedConditionsAssoc | QueryFilterSerializer/Filter/Serializer/IntegerSerializer.php:150 | `array_flip`: every symbol of the flipped table maps to a known condition whose symbol it is |
| Parser.FlipInverts | QueryFilterSerializer/Filter/Serializer/IntegerSerializer.php:139-151 | the flipped table (`array_flip`) is the inverse of the table in both directions |
| Parser.FlipSymbols | QueryFilterSerializer/Filter/Serializer/IntegerSerializer.php:141-150 | the keys of the flipped table are exactly the six symbols `= ! < > <= >=` |
| Parser.SplitOperator | QueryFilterSerializer/Filter/Serializer/IntegerSerializer.php:109-115 | prefix and rest put back together give the token; the prefix is two characters when the second is not a digit, otherwise one |
| Parser.ParseValue | QueryFilterSerializer/Filter/Serializer/IntegerSerializer.php:104-132 | a digit-leading token succeeds exactly when it is numeric, giving `eq` with the whole token as value, and otherwise fails as not numeric with the whole token; any other token succeeds exactly when the prefix is a symbol and the rest numeric, giving the flipped table's condition for the prefix with the rest's value; an unknown prefix is reported with that prefix, and a non-numeric rest with that rest |
| Parser.ParseEncoded | QueryFilterSerializer/Filter/Serializer/IntegerSerializer.php:104-132 | symbol + number parses back to that constraint, for every number when the symbol has two characters and for non-negative numbers otherwise |
| Parser.ParseBareNumber | QueryFilterSerializer/Filter/Serializer/IntegerSerializer.php:106-107 | a bare number parses as `eq` of that number |
| Parser.NegativeNeedsTwoCharSymbol | QueryFilterSerializer/Filter/Serializer/IntegerSerializer.php:109-121 | after `=`, `!`, `<` or `>` a minus sign is read as part of the operator, so the token is rejected as an unknown operand |
| Parser.TextualCodesRejected | QueryFilterSerializer/Filter/Serializer/IntegerSerializer.php:109-121 | a token written with a textual code (`gte10`, `eq5`) is rejected with its first two letters as the unknown operand |
| Parser.Tokens | QueryFilterSerializer/Filter/Serializer/IntegerSerializer.php:46-48 | the tokens are the non-empty pieces between delimiters, without repeats |
| Parser.TokensPrefix | QueryFilterSerializer/Filter/Serializer/IntegerSerializer.php:46-48 | tokens keep the order of the data: the tokens of the text before a delimiter are a prefix of the tokens of the whole |
| Parser.ParseAllOk | QueryFilterSerializer/Filter/Serializer/IntegerSerializer.php:50-53 | on success the i-th constraint is the parse of the i-th token |
| Parser.ParseAllErr | QueryFilterSerializer/Filter/Serializer/IntegerSerializer.php:50-53 | the parse fails exactly when some token fails, with the first failing token's error |
| Grouping.GroupArray | QueryFilterSerializer/Filter/Serializer/IntegerSerializer.php:66 | one group per distinct condition in first-seen order; in each, the distinct values in first-seen order, each with the bucket of every constraint at that condition and value |
| Optimizer.Survivors | QueryFilterSerializer/Filter/Serializer/IntegerSerializer.php:69-98 | the reduction of one condition succeeds exactly for the six known conditions, fails otherwise with that condition, and keeps only constraints of that condition |
| Optimizer.GroupSurvivors | QueryFilterSerializer/Filter/Serializer/IntegerSerializer.php:73-94 | read off a group, the survivors are the bucket of its largest key (`gt`/`gte`), of its smallest key (`lt`/`lte`) or the list of its keys (`eq`/`neq`); an empty group (which `groupArray` never builds) yields nothing: `max([])` is `false`, so PHP's `null !==` guard does not catch it, but the loop over the undefined `$group[false]` adds nothing |
| Optimizer.OptimizeResults | QueryFilterSerializer/Filter/Serializer/IntegerSerializer.php:60-102 | with `optimize` off the list is returned unchanged; otherwise the result is `Optimized`, the survivors of each condition in first-seen order of the conditions |
| Optimizer.SurvivorsOfFailsAt | QueryFilterSerializer/Filter/Serializer/IntegerSerializer.php:96-97 | the first group with an unknown condition aborts the whole optimization with that condition |
| Optimizer.SurvivorsOfOk | QueryFilterSerializer/Filter/Serializer/IntegerSerializer.php:69-99 | reducing a list of conditions succeeds exactly when every one of them is known |
| Optimizer.SurvivorsOfErr | QueryFilterSerializer/Filter/Serializer/IntegerSerializer.php:96-97 | a failed reduction names an unknown condition of the list |
| Optimizer.OptimizedByCondition | QueryFilterSerializer/Filter/Serializer/IntegerSerializer.php:68-101 | the constraints of condition c in the output are exactly the survivors of c, and none when c does not occur in the input |
| Optimizer.OptimizedFails | QueryFilterSerializer/Filter/Serializer/IntegerSerializer.php:96-97 | optimizing fails exactly when some input constraint has a condition outside the six, and the error names such a condition |
| Optimizer.LowerBoundsTightest | QueryFilterSerializer/Filter/Serializer/IntegerSerializer.php:71-80 | for `gt`/`gte`: something survives exactly when the condition occurs; every survivor is an input constraint whose value is the maximum of its condition; all copies of it survive |
| Optimizer.UpperBoundsTightest | QueryFilterSerializer/Filter/Serializer/IntegerSerializer.php:81-90 | for `lt`/`lte`: something survives exactly when the condition occurs; every survivor is an input constraint whose value is the minimum of its condition; all copies of it survive |
| Optimizer.KeptEqualities | QueryFilterSerializer/Filter/Serializer/IntegerSerializer.php:91-95 | for `eq`/`neq`: the output holds one constraint listing the distinct values when the condition occurs, none otherwise |
| Optimizer.EqualitiesMerged | QueryFilterSerializer/Filter/Serializer/IntegerSerializer.php:91-95 | for `eq`/`neq`: at most one survivor, present exactly when the condition occurs, a duplicate-free list holding exactly the input values of that condition in first-seen order |
| Optimizer.OptimizedEmittable | QueryFilterSerializer/Filter/Serializer/IntegerSerializer.php:68-101 | every output constraint has a known condition that occurs in the input, and every list is non-empty |
| Optimizer.LowerBoundsKeepMeaning | QueryFilterSerializer/Filter/Serializer/IntegerSerializer.php:71-80 | a column value satisfies all input `gt` (or `gte`) bounds exactly when it satisfies all surviving ones |
| Optimizer.UpperBoundsKeepMeaning | QueryFilterSerializer/Filter/Serializer/IntegerSerializer.php:81-90 | a column value satisfies all input `lt` (or `lte`) bounds exactly when it satisfies all surviving ones |
| Optimizer.NotEqualsKeepMeaning | QueryFilterSerializer/Filter/Serializer/IntegerSerializer.php:91-94 | a column value avoids every input `neq` value exactly when it satisfies the merged `neq` |
| Optimizer.EqualsKeepMeaning | QueryFilterSerializer/Filter/Serializer/IntegerSerializer.php:91-95 | a column value equals some input `eq` value exactly when it satisfies the merged `eq` |
| Optimizer.MergedValues | QueryFilterSerializer/Filter/Serializer/IntegerSerializer.php:93-94 | a value is carried by some constraint of a condition exactly when it is in the merged list of its distinct values |
| SqlEmitter.Placeholder | QueryFilterSerializer/Filter/Serializer/IntegerSerializer.php:163-167 | the first placeholder is the base, every later one is the base followed by its number in decimal |
| SqlEmitter.PlaceholdersDistinct | QueryFilterSerializer/Filter/Serializer/IntegerSerializer.php:163-167 | different positions give different placeholders |
| SqlEmitter.SqlTextShape | QueryFilterSerializer/Filter/Serializer/IntegerSerializer.php:173-221 | the fragment starts with `alias.field` and the operator, and ends with ` :ph`, or `(:ph)` for `IN`/`NOT IN` |
| SqlEmitter.Comparison | QueryFilterSerializer/Filter/Serializer/IntegerSerializer.php:169-223 | `IN`/`NOT IN` is used exactly for `eq`/`neq` with a list of more than one value |
| SqlEmitter.FragmentAsWritten | QueryFilterSerializer/Filter/Serializer/IntegerSerializer.php:169-225 | the fragment as the code stands: fails exactly on an unknown condition, and then with that condition; carries the given placeholder and the text `alias.field op :ph` or `alias.field op(:ph)` |
| SqlEmitter.ScalarEqualityBindsNull | QueryFilterSerializer/Filter/Serializer/IntegerSerializer.php:204-222 | as written, a single `eq` value binds `null`, so the fragment selects no row although the constraint admits its own value |
| SqlEmitter.Fragment | QueryFilterSerializer/Filter/Serializer/IntegerSerializer.php:169-225 | the corrected fragment: same outcome, placeholder and text as `FragmentAsWritten`, with a single `eq`/`neq` value bound as itself |
| SqlEmitter.FragmentMeaning | QueryFilterSerializer/Filter/Serializer/IntegerSerializer.php:169-223 | the fragment's comparison with its bound value selects exactly the column values the constraint admits |
| SqlEmitter.Fragments | QueryFilterSerializer/Filter/Serializer/IntegerSerializer.php:166-168 | one fragment per constraint, the i-th at placeholder number i + 1 |
| SqlEmitter.BuildSqlParts | QueryFilterSerializer/Filter/Serializer/IntegerSerializer.php:160-230 | the loop with its running counter returns `SqlParts`: the fragments in order, or the first error. The fragments are the corrected `Fragment`, which binds a single scalar `eq`/`neq` as itself where the code binds `null` (see `FragmentAsWritten`) |
| SqlEmitter.SqlPartsOk | QueryFilterSerializer/Filter/Serializer/IntegerSerializer.php:224-225 | emitting succeeds exactly when every condition is one of the six |
| SqlEmitter.SqlPartsValues | QueryFilterSerializer/Filter/Serializer/IntegerSerializer.php:166-223 | on success, one part per constraint in input order, the i-th being the fragment of the i-th constraint at placeholder number i + 1 |
| SqlEmitter.SqlPartsErr | QueryFilterSerializer/Filter/Serializer/IntegerSerializer.php:224-225 | on failure, the error names the first constraint with an unknown condition |
| SqlEmitter.SqlPartsPlaceholdersDistinct | QueryFilterSerializer/Filter/Serializer/IntegerSerializer.php:163-167 | the parts of one filter carry pairwise different placeholders |
| Serializer.ParsedShape | QueryFilterSerializer/Filter/Serializer/IntegerSerializer.php:104-132 | every constraint a successful parse yields has a known condition and a single value |
| Serializer.Unserialize | QueryFilterSerializer/Filter/Serializer/IntegerSerializer.php:40-58 | `null` gives the empty list; otherwise the tokens are parsed in order, the first failure aborts, and the list is then optimized as `Unserialized` says |
| Serializer.UnserializeFails | QueryFilterSerializer/Filter/Serializer/IntegerSerializer.php:46-55 | the call fails exactly when some non-empty piece fails to parse, and then only with a parsing error: optimizing parser output never fails |
| Serializer.UnoptimizedKeepsTokens | QueryFilterSerializer/Filter/Serializer/IntegerSerializer.php:46-64 | with `optimize` off the result has one constraint per token, the i-th being the parse of the i-th token |
| Serializer.RepeatedTokenIgnored | QueryFilterSerializer/Filter/Serializer/IntegerSerializer.php:46 | appending a piece that already occurs does not change the result |
| Serializer.RepeatedInnerTokenIgnored | QueryFilterSerializer/Filter/Serializer/IntegerSerializer.php:46 | repeating a piece anywhere after its first occurrence does not change the result: `s;t;u` gives what `s;u` gives when `t` is a piece of `s` |
| Serializer.TrailingDelimiterIgnored | QueryFilterSerializer/Filter/Serializer/IntegerSerializer.php:46-48 | a trailing delimiter (an empty piece) does not change the result |
| Serializer.UnserializedEmittable | QueryFilterSerializer/Filter/Serializer/IntegerSerializer.php:55-57 | every constraint `unserialize` returns has a known condition and no empty list, so the emitter accepts it |
| Serializer.UnserializeSerialized | QueryFilterSerializer/Filter/Serializer/IntegerSerializer.php:40-58 | distinct constraints written as symbol + number and joined with `;` unserialize, without optimizing, to the same constraints in the same order |
| Serializer.SerializedTokens | QueryFilterSerializer/Filter/Serializer/IntegerSerializer.php:46-48 | splitting such an encoding gives back exactly its tokens |
| Serializer.UnoptimizedEqualityBindsNull | QueryFilterSerializer/Filter/Serializer/IntegerSerializer.php:62-64 | end to end: with `optimize` off a bare number unserializes to a single `eq` value, which the emitter as written binds as `null` |

## Left out

- `serialize` (lines 35-38) is an empty stub. The encoder used for the round trip (`Serializer.Serialized`) belongs to this model only.
- The options bag and `getOption` belong to the parent class, which is not part of this model. `optimize` is a parameter. `ranges` and `limited` are never read by this class.
- Only integer literals count as numeric: an optional sign, then digits. PHP 7's `is_numeric` also accepts decimals, exponents and leading whitespace, which are not modelled.
- Values are integers. PHP keeps the token text (`"007"`) in every constraint it passes on unchanged: all of them when `optimize` is off, and the surviving `gt`/`gte`/`lt`/`lte` constraints when it is on (lines 76-77 and 86-87). So `>=+5` binds `"+5"` in PHP and `5` in the model.
- Array keys are not modelled. Inside `groupArray` (line 66) PHP turns only canonical decimal integer strings such as `"5"` or `"-5"` into integer keys. `"05"`, `"007"`, `"+5"` and `"-0"` stay string keys, so lines 73-94 treat them as values distinct from the integer they denote. The model compares the integers, so its output differs for such spellings:
  - `5;05` optimizes in the model to one `eq` with the list `[5]`, emitted as `alias.field = :ph`. PHP keeps the keys `5` and `"05"` and emits `alias.field IN(:ph)`.
  - `>5;>05` keeps two identical `gt 5` constraints in the model, emitted as two fragments. PHP keeps one: `max` picks one key, and `$group[$max]` is a single bucket.
- Optimizer.LowerBoundsTightest: "all copies survive" matches PHP only when every value is written as a canonical numeral. A value spelled two ways (`>5;>05`) is one bucket in the model and two in PHP, where only one survives.
- Optimizer.UpperBoundsTightest: "all copies survive" matches PHP only when every value is written as a canonical numeral, for the same reason (`<5;<05`).
- Optimizer.EqualitiesMerged: the merged list holds distinct integers. PHP's holds distinct keys, so `5` and `05` are two entries there.
- Strings are sequences of characters, where PHP's are bytes. For a token whose first or second character takes several bytes, `$val{1}` and `substr($val, 0, 2)` (lines 109-110) can cut inside it (for `>é5` PHP reports `">\xC3"`, the model `">é"`), so the operand reported in `UnknownOperand` differs. Whether a token is accepted does not change.
- PHP's integer width and overflow are not modelled: numbers are unbounded.
- `optimizeResults` throws `ParseException` (line 97) while the rest of the class throws `ParsingException`. That class is neither imported nor defined in this file. Both are modelled as `Err` results, so the difference in exception class is not captured.
- SqlEmitter.FragmentAsWritten: requires every list value to be non-empty (`Emittable`), for the reason given on the `SqlEmitter.Fragment` line below.
- SqlEmitter.BuildSqlParts: requires every list value of the filter to be non-empty (`Emittable`), for the reason given on the `SqlEmitter.Fragment` line below.
- SqlEmitter.Fragment: requires every list value to be non-empty (`Emittable`). On an empty list PHP 7's `max`/`min` warn and return `false`, and `reset` returns `false`. The code would then bind `false`, which the model does not represent. The optimizer never produces an empty list (`Optimizer.OptimizedEmittable`).
- SqlEmitter.BuildSqlParts: emits the corrected `SqlEmitter.Fragment`. A single scalar `eq`/`neq` value (as `unserialize` returns with `optimize` off) is bound as the value itself. The code as written binds `reset($value)`, which is `null` on a scalar (lines 207 and 220). `SqlEmitter.FragmentAsWritten` and `SqlEmitter.ScalarEqualityBindsNull` model and exhibit that behaviour; see "## Findings".
- The default table alias `t` is not modelled; the alias is always an explicit argument.
- Placeholders of two different fields can coincide: with alias `t`, the 12th constraint on field `a` and the 2nd on field `a1` are both `t_a12`. Combining several filters is outside this class.
- Idempotence of the optimizer is not claimed: an optimized `eq`/`neq` list cannot be grouped again the way PHP groups scalar values.
- Executing the SQL, and the driver expanding a list bound to `IN(:ph)`, are out of scope. `SqlEmitter.SqlHolds` gives each comparison its meaning, and a `null` binding matches no row.
- Optimizer.EqualsKeepMeaning: reads the `eq` constraints of one field as alternatives ("one of"). The class itself does not say how its fragments are combined.

## Findings

| source | as written | input that shows it | evidently intended | confidence | as-written member | corrected member |
|---|---|---|---|---|---|---|
| QueryFilterSerializer/Filter/Serializer/IntegerSerializer.php:204-222 | for an `eq`/`neq` value that is not a list of several items, the bound parameter is `reset($constraint['value'])`; on a scalar `reset` yields `null`, so `= :ph` is compared with NULL and selects nothing | `unserialize("5")` with `optimize` off gives `{eq, 5}`, emitted as `t.f = :t_f` bound to `null` | bind the scalar itself, selecting the rows whose field equals 5 | not executed | SqlEmitter.ScalarEqualityBindsNull | SqlEmitter.FragmentMeaning |

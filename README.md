# Arrays: a verified model of a PHP array utility class

`TraderInteractive\Util\Arrays` is a final class of static helpers over PHP arrays. A PHP
array is an ordered map whose keys are integers or strings. The helpers cover:

- existence-guarded reads;
- conditional copying between arrays;
- filtering and projection over lists of rows;
- building maps from rows (`extract`) and nesting items into records (`embedInto`);
- balanced partitioning;
- delimiter-path traversal (`getNested`) and its inverse (`flatten`);
- bit-mask driven key case conversion (`changeKeyCase`).

This project models every public function of the class and its private helpers in Dafny,
and proves what each one promises.

Representation:

- A key is `IK(n)` or `SK(s)`.
- A value is null, a boolean, an integer, a string or a nested array.
- An array is a sequence of `Entry(key, val)` with distinct keys. Its order is the array's
  iteration order.
- Writing a key that is already present keeps its position. Writing a new key appends it.
  This is `PhpValues.Put`.
- Where the PHP code turns a string into a key, PHP's canonical coercion is modelled:
  a decimal integer literal becomes an integer key (`PhpKeys.CanonicalKey`). This happens in
  the keys `flatten` and the case conversions build, in `getNested`'s path segments, and in
  the key arguments of `tryGet` and `extract`.
- Errors are data: `Err(InvalidArgument)`, `Err(UnexpectedValue)` or `Err(Generic)` stand for
  the three exception classes.
- The by-reference array parameters (`unsetAll`, `nullifyEmptyStrings`, `rename`,
  `copyIfKeysExist`, `copyIfSet`) are the `entries` field of the class `Mutators.ArrayRef`,
  which the methods update.
- The `foreach` loops of the source are `method`s with loops. Each is proved equal to a
  specification function, whose properties are proved as lemmas, or given its property
  directly in its `ensures`.

Modules, one file each:

| file | module | contents |
|---|---|---|
| php_values.dfy | PhpValues | keys, values, lookup, `Put`, `unset`, filtering, `array_values` |
| php_keys.dfy | PhpKeys | decimal literals, canonical keys, `is_string`/`is_int` key checks |
| accessors.dfy | Accessors | `get`, `getIfSet`, `tryGet`, `getFirstSet`, `anyKeysExist` |
| copy_operators.dfy | CopyOperators | `copyValueIf`'s effect, `fillIfKeysExist` |
| mutators.dfy | Mutators | `unsetAll`, `nullifyEmptyStrings`, `rename`, `copyIfKeysExist`, `copyIfSet` |
| filtering.dfy | Filtering | `project`, `where`, `getAllWhereKeyExists` |
| extraction.dfy | Extraction | `extract`, `embedInto` |
| partitioning.dfy | Partitioning | `partition` |
| nested_keys.dfy | NestedKeys | `getNested`, `flatten` |
| key_case.dfy | KeyCase | `changeKeyCase`, `underscoreKeys`, `camelCaseKeys` |

Three behaviours of the code are easy to misread. The model follows the code in each:

- `underscoreKeys` puts `_` only after a lowercase letter followed by an uppercase letter or a
  digit (the pattern `([a-z])([A-Z0-9])`). A digit before an uppercase letter does not count.
- `camelCaseKeys` drops the segments `""` and `"0"`. It also rewrites integer keys, although
  `changeKeyCase`'s docblock (src/Arrays.php:459) says numbered indices are left as is. See
  finding 3.
- `flatten` omits the delimiter after the prefix `"0"`, and it renumbers integer keys. Then a
  flattened key no longer names the path to its value. See findings 1 and 2. Where neither
  happens (no integer key in the outer array, safe keys, a safe delimiter), the code is proved
  equal to the corrected flatten, so the round trip holds for it there
  (`NestedKeys.FlattenAsWrittenGetNested`).

## Model

| member | source | states |
|---|---|---|
| Accessors.Get | src/Arrays.php:53-56 | returns the stored value whenever the key exists, even a stored null; otherwise the default |
| Accessors.GetIfSet | src/Arrays.php:68-71 | returns the stored value only when the key exists with a non-null value; otherwise the default |
| Accessors.GetAndGetIfSet | src/Arrays.php:53-71 | the two getters agree on non-null results; for a stored null, `get` gives null and `getIfSet` gives the default |
| Accessors.TryGet | src/Arrays.php:118-127 | reports found exactly when the key is a string or integer present in the array; then it yields the stored value, otherwise null |
| Accessors.GetFirstSet | src/Arrays.php:335-344 | returns the value of the first listed key that is set, and no earlier key is set; the default when no listed key is set |
| Accessors.AnyKeysExist | src/Arrays.php:541-550 | true exactly when some listed key is present, whatever its value |
| PhpKeys.AsKey | src/Arrays.php:603-612 | a key exactly for integer and string values; an integer stays that integer; a string becomes the stored key that reads back as that string, so a decimal integer literal such as "5" becomes the integer key 5 and any other string stays a string key |
| CopyOperators.CopiedIntoLookup | src/Arrays.php:625-636 | each destination key receives the source value named by the last key-map entry that copies to it; an integer destination key means the source key; keys nobody copies to are unchanged; nothing is deleted |
| CopyOperators.CopiedIntoUnique | src/Arrays.php:625-636 | copying keeps the destination's keys distinct |
| CopyOperators.FillIfKeysExist | src/Arrays.php:256-266 | the template's keys in the template's order; each value is the source's value when the source has that key, and the template's otherwise |
| Mutators.ArrayRef.CopyValueIf | src/Arrays.php:625-636 | the destination becomes the key map applied in order under the given condition |
| Mutators.ArrayRef.CopyIfKeysExist | src/Arrays.php:83-89 | the key map is applied with the condition "source key exists" |
| Mutators.ArrayRef.CopyIfSet | src/Arrays.php:101-107 | the key map is applied with the condition "source key holds a non-null value" |
| Mutators.ArrayRef.UnsetAll | src/Arrays.php:390-395 | no listed key remains; every other key keeps its value; absent keys are ignored |
| Mutators.Nullified | src/Arrays.php:406-409 | a value becomes null exactly when it is null or a string that `trim` empties; otherwise it is unchanged |
| Mutators.ArrayRef.NullifyEmptyStrings | src/Arrays.php:404-411 | every entry keeps its key and position, and its value is replaced by its nullified form |
| Mutators.ArrayRef.Rename | src/Arrays.php:562-575 | fails with InvalidArgument, leaving the array untouched, exactly when the old key is absent or the new key is present without overwrite; otherwise the new key maps to the old value, the old key is gone, and other keys are unchanged |
| Filtering.Project | src/Arrays.php:153-168 | fails with InvalidArgument exactly when some row is not an array or, under the strict check, lacks the key; otherwise returns the projection |
| Filtering.ProjectedLookup | src/Arrays.php:157-165 | under each row's key the projection holds that row's value for the key, and nothing when the row lacks it |
| Filtering.ProjectedKeys | src/Arrays.php:157-165 | every key of the projection is a key of the input |
| Filtering.Where | src/Arrays.php:181-197 | fails with InvalidArgument exactly when some row is not an array; otherwise returns the matching rows in input order, under their keys or renumbered 0..n-1 |
| Filtering.WhereSelects | src/Arrays.php:183-194 | a row is selected exactly when it is an input row that holds every condition key with an identical value |
| Filtering.WhereWithoutConditions | src/Arrays.php:186-190 | with no conditions, every row is returned |
| Filtering.GetAllWhereKeyExists | src/Arrays.php:521-531 | returns exactly the input rows that contain the target key, under their keys, in input order |
| Extraction.Extract | src/Arrays.php:287-324 | an unknown duplicate policy, or a key or value index that is not a string or integer, fails with InvalidArgument before any row is read; otherwise the rows are folded in order; the result has distinct keys |
| Extraction.TakeFirstKeepsFirst | src/Arrays.php:309-321 | under "takeFirst" each key holds the value of the first row with that key |
| Extraction.TakeLastKeepsLast | src/Arrays.php:309-321 | under "takeLast" each key holds the value of the last row with that key |
| Extraction.ThrowRejectsRepeats | src/Arrays.php:309-316 | under "throw" the rows succeed exactly when their keys are pairwise distinct; a repeat fails with the generic error |
| Extraction.PoliciesAgreeWithoutRepeats | src/Arrays.php:309-321 | when no key repeats, the three policies give the same array |
| Extraction.FirstBadRowDecides | src/Arrays.php:301-316 | the first bad row decides the failure: a non-array row gives InvalidArgument; a key value that is not a string or integer gives UnexpectedValue (a missing key reads as null); under "throw" this holds when no repeated key comes before the bad row |
| Extraction.EmbedError | src/Arrays.php:236-240 | an item fails only when its destination entry exists and is not an array, or already holds the field without overwrite |
| Extraction.Embedded | src/Arrays.php:231-242 | the record holds the item under the field name; the other fields of an existing record are unchanged; a new record holds only the field |
| Extraction.EmbedInto | src/Arrays.php:224-246 | the items are embedded in order, each under its own key; the field name is coerced as a key; the destination's keys stay distinct |
| Extraction.EmbedIntoLookup | src/Arrays.php:230-243 | when no item fails, each item's key holds the destination record with the item embedded, and every other key is unchanged |
| Extraction.EmbedIntoFirstError | src/Arrays.php:236-240 | the first failing item decides the error, whatever follows it |
| Partitioning.Partition | src/Arrays.php:362-380 | a count below one fails with InvalidArgument; otherwise returns the balanced slices |
| Partitioning.Partitions | src/Arrays.php:373-377 | there are min(count, length) slices, with no empty padding |
| Partitioning.SliceFacts | src/Arrays.php:375 | `array_slice` takes the given stretch of values and keeps its string keys; with preserved keys it returns the stretch itself |
| PhpValues.ReindexIntsNumbers | src/Arrays.php:375 | without preserved keys, `array_slice` numbers the integer keys consecutively in order, from the given start |
| Partitioning.SliceOfListNumbered | src/Arrays.php:375 | without preserved keys, each slice of a list is numbered 0, 1, 2, ... |
| Partitioning.OffsetClosed | src/Arrays.php:369-376 | slice i starts at i*(n div c) + min(i, n mod c) |
| Partitioning.ChunkPositive | src/Arrays.php:373-374 | no produced slice is empty |
| Partitioning.OffsetEnd | src/Arrays.php:373-376 | the slices together use up the input exactly |
| Partitioning.PartitionsBalanced | src/Arrays.php:369-374 | every slice is non-empty, no slice is shorter than a later one, and any two differ in length by at most one |
| Partitioning.PartitionsCover | src/Arrays.php:373-377 | laid end to end, the slices give back the input's values in order, and the input itself when keys are preserved |
| NestedKeys.JoinSplit | src/Arrays.php:446 | splitting on the delimiter loses nothing: joining the pieces gives back the path |
| NestedKeys.GetNested | src/Arrays.php:443-456 | returns the value reached by following every segment from the outer array, and null as soon as a segment is missing or the current value is not an array |
| NestedKeys.FollowAppend | src/Arrays.php:446-453 | following two paths one after the other equals following the joined path |
| NestedKeys.GetNestedStops | src/Arrays.php:447-452 | a path that meets a missing key or a non-array yields null, however it continues |
| NestedKeys.FlattenUnder | src/Arrays.php:497-510 | the loop with the prefix argument computes flatten as written, prefix test and `array_merge` included |
| NestedKeys.Flatten | src/Arrays.php:495-498 | flatten without a prefix argument starts from the empty prefix |
| NestedKeys.FlattenZeroPrefixAsWritten | src/Arrays.php:501 | `[0 => [0 => 'a']]` flattens to `['00' => 'a']`, where getNested finds nothing |
| NestedKeys.FlattenRenumbersAsWritten | src/Arrays.php:503 | `[5 => 'a', 'b' => ['c' => 'd']]` flattens to `[0 => 'a', 'b.c' => 'd']`, where getNested finds nothing under "0" |
| NestedKeys.FlattenGetNested | src/Arrays.php:495-511 | round trip for the corrected flatten, both ways, for a one-character delimiter and safe keys: getNested finds every flattened value under its flattened key, and every leaf getNested reaches by a path is in the flatten under that path |
| NestedKeys.FlattenFindsLeaves | src/Arrays.php:495-511 | every leaf (a value other than an array) at the end of a path is in the corrected flatten under that path, so no leaf is lost or overwritten |
| NestedKeys.FlattenedFindsLeaf | src/Arrays.php:500-508 | under any prefix, the leaf a sequence of keys leads to is in the flatten under the prefix joined with those keys |
| NestedKeys.ContributionsApart | src/Arrays.php:500-508 | with safe keys, two entries of one array add no key in common to the flatten |
| NestedKeys.FlattenedKeepsEntry | src/Arrays.php:499-510 | with safe keys, no later entry overwrites a key an earlier entry added: the whole flatten keeps its value |
| NestedKeys.FlattenedReaches | src/Arrays.php:500-508 | every entry the corrected flatten produces under a prefix lies below that prefix and leads to its value |
| NestedKeys.FlattenedUnique | src/Arrays.php:499-510 | the result of the corrected flatten has distinct keys (it is a PHP array) |
| NestedKeys.ArrayMergeStrings | src/Arrays.php:503 | `array_merge` of arrays with string keys only, the first with distinct keys, writes the second array's entries into the first in order, renumbering nothing |
| NestedKeys.FlattenedAsWrittenAgrees | src/Arrays.php:497-510 | under a prefix other than "0", and over an array without integer keys when the prefix is empty, flatten as written equals the corrected flatten and produces string keys only |
| NestedKeys.FlattenAsWrittenGetNested | src/Arrays.php:495-511 | for flatten as written, on an outer array without integer keys, with safe keys and a safe delimiter: the result equals the corrected flatten, has distinct keys, getNested finds every value under the key flatten gave it, and every leaf is in the result under its path |
| KeyCase.UnderscoreSeparates | src/Arrays.php:581 | removing every `_` gives back the key without its underscores, so underscoring only adds `_`; afterwards no lowercase letter directly precedes an uppercase letter or a digit |
| KeyCase.UnderscoreSpreads | src/Arrays.php:581 | underscoring equals `Spread`, which tests every position on its own: `_` goes exactly after each lowercase letter directly followed by an uppercase letter or a digit, existing characters (underscores included) stay in order, and the left-to-right non-overlapping match misses no pair |
| KeyCase.UnderscoreUnjoined | src/Arrays.php:581 | a key with no lowercase letter directly before an uppercase letter or digit (such as `ab` or `a__b`) is left unchanged |
| KeyCase.UnderscoreExample | src/Arrays.php:581 | "fooBar" becomes "foo_Bar" |
| KeyCase.UnderscoreNoLower | src/Arrays.php:581 | a key with no lowercase letter, such as an integer's literal, is unchanged |
| KeyCase.CamelShape | src/Arrays.php:593-594 | a camel-cased key holds only ASCII letters and digits and does not start with an uppercase letter |
| KeyCase.CamelKeepsLetters | src/Arrays.php:593-594 | camel-casing changes only case: lowercased, the result is the pieces `array_filter` keeps, run together in order |
| KeyCase.CamelOfLowercase | src/Arrays.php:593-594 | a non-empty key of lowercase letters and digits other than "0" is its own camel-cased form |
| KeyCase.CamelExample | src/Arrays.php:593-594 | "foo_bar" becomes "fooBar" |
| KeyCase.UnderscoreKeys | src/Arrays.php:577-587 | writes each entry under its underscored key, in order |
| KeyCase.CamelCaseKeys | src/Arrays.php:589-601 | writes each entry under its camel-cased key, in order |
| KeyCase.RekeyedLookup | src/Arrays.php:579-583 | when converted keys collide, the later value wins; a key no entry converts to is absent |
| KeyCase.RekeyedUnique | src/Arrays.php:579-583 | a converted array has distinct keys |
| KeyCase.ChangeKeyCase | src/Arrays.php:466-485 | `changeKeyCase` keeps keys distinct; with the default CASE_LOWER it only lowers string keys; with none of the four flags it returns the input |
| KeyCase.ConvertedUnique | src/Arrays.php:466-485 | the conversions in the fixed order UNDERSCORE, CAMEL_CAPS, UPPER, LOWER keep keys distinct |
| KeyCase.LowerLeavesNoUpper | src/Arrays.php:480-482 | after LOWER no string key contains an ASCII uppercase letter |
| KeyCase.CamelKeyZeroAsWritten | src/Arrays.php:593 | camel-casing turns the integer key 0 into the empty string key |
| KeyCase.CamelKeyNegativeAsWritten | src/Arrays.php:593 | camel-casing turns the integer key -5 into 5 |
| KeyCase.ChangeKeyCaseLosesZeroAsWritten | src/Arrays.php:472-474 | `changeKeyCase([0 => v], CASE_CAMEL_CAPS)` gives `['' => v]` |
| KeyCase.IntKeyFixed | src/Arrays.php:459 | every conversion of the corrected variant maps an integer key to itself |
| KeyCase.KeepingIntsKeepsIntKeys | src/Arrays.php:459-485 | with integer keys left as they are, every integer key of the input survives every flag combination |

## Left out

- Exception classes built through reflection in `ensureValidKey` and `ensureIsArray`: the
  class becomes an `ErrorKind` value. Messages are not modelled.
- PHP key coercion of booleans, null and floats. Only string-to-integer coercion of decimal
  literals is modelled. `array_key_exists` with a non-key argument is not modelled.
- Floats and objects as values, and the identity semantics of `!==` on objects. Values are
  null, booleans, integers, strings and arrays, compared structurally.
- The range of PHP integers: integers are unbounded, and overflow to float is not modelled.
- `preg_replace`, `preg_split`, `strtolower`, `ucwords` and `array_change_key_case` act on
  ASCII only. Locale and multibyte behaviour are not modelled.
- `copyValueIf`'s callable condition: only the two conditions the library passes are modelled.
- The by-reference `$value` of `tryGet`: it is returned as the second part of a pair.
- `flatten`'s hidden third argument, read with `func_get_args`: it is the explicit `prefix`
  parameter of `NestedKeys.FlattenUnder`.
- NestedKeys.GetNested: requires a non-empty delimiter, because `explode` with an empty
  delimiter is a runtime error.
- Filtering.GetAllWhereKeyExists: requires every row to be an array, because a non-array row
  is a PHP type error there.
- NestedKeys.FlattenGetNested: proved only for a one-character delimiter that is not a digit
  or '-', and for nested arrays whose string keys are non-empty, not numeric and free of
  the delimiter. Other inputs make paths ambiguous.
- NestedKeys.FlattenAsWrittenGetNested: proved for the code as written only when the outer
  array has no integer key, on top of the conditions above. With an integer key there, the
  code loses the round trip (findings 1 and 2).
- Partitioning.Partition: `floor` of the length divided by the count is integer division.
  The float type of `$partitionLength` is not modelled.
- Type errors on declared parameter types (a non-string `$fieldName`, a non-boolean
  `$preserveKeys`): the model's types rule them out.

## Findings

| source | as written | input that shows it | evidently intended | confidence | as-written member | corrected member |
|---|---|---|---|---|---|---|
| src/Arrays.php:501 | `empty($prefix)` is also true for the prefix "0", so no delimiter follows it | `flatten([0 => [0 => 'a']])` gives `['00' => 'a']`, and `getNested` of "00" is null | the key "0.0", from a test for the empty string only | not executed | NestedKeys.FlattenZeroPrefixAsWritten | NestedKeys.FlattenGetNested |
| src/Arrays.php:503 | `array_merge` renumbers the integer keys collected so far | `flatten([5 => 'a', 'b' => ['c' => 'd']])` gives `[0 => 'a', 'b.c' => 'd']`, and `getNested` of "0" is null | integer keys kept, as the flattened key names the path | not executed | NestedKeys.FlattenRenumbersAsWritten | NestedKeys.FlattenGetNested |
| src/Arrays.php:593 | `camelCaseKeys` camel-cases integer keys as strings, although line 459 says numbered indices are left as is | `changeKeyCase([0 => 'x'], CASE_CAMEL_CAPS)` gives `['' => 'x']`; the key -5 becomes 5 | integer keys unchanged by every conversion | not executed | KeyCase.ChangeKeyCaseLosesZeroAsWritten | KeyCase.KeepingIntsKeepsIntKeys |

# optimus-ddb-client core, modelled in Dafny

This project models the sequential core of optimus-ddb-client, a TypeScript
client for DynamoDB. The client tracks the items it hands out and commits
them back in one transaction under optimistic locking. The model covers:

- **`ExpressionBuilder`** (`expression_builder.dfy`). It turns any content
  into a placeholder alias: characters outside `[A-Za-z0-9_]` become one
  `_` per UTF-16 code unit (so `__` outside the Basic Multilingual Plane),
  the text is truncated to 16 characters, an `A` goes in front when the text
  does not start with a letter, and the least unused `_i` suffix is
  appended. Names (`#`) and values (`:`) live in two separate maps. The pure
  state `Aliases` and its functions specify the class `ExpressionBuilder`,
  whose methods update the two maps in place.
- **The operator table and the separator constant** (`constants.dfy`).
- **The condition compiler and `getDynamoDbExpression`** (`utilities.dfy`).
  Condition tuples are raw JavaScript arrays (`seq<Term>`). They are
  dispatched as the code does: first on `c[1]`, then on the array's length;
  anything else is an error. One builder is threaded through the key list,
  the filter list and the condition list. Also here: `getItemsFromPaginator`
  over a finite list of pages, and the `undefined` pass-through of the
  resume-token helpers.
- **The run-time part of `Types.ts`** (`types.dfy`): the relationship-type
  enum and its flip, foreign-key plurality, the error classes with their
  names and messages, and the condition tuple types written as predicates.
  It also states what the compiler does with each well-typed condition.
- **`Table`** (`table.dfy`). The constructor computes the derived fields and
  rejects a shape that contains the version attribute. `addRelationship`
  checks for a duplicate, appends the entry, and registers the mirrored
  entry on the peer table through a recursive call. Concrete runs are in
  `table_examples.dfy`.
- **`ItemsPagesIterator`** (`items_pages_iterator.dfy`). The injected store
  call is an oracle from request to page.
- **`OptimusDdbClient`** (`client_items.dfy` on values, `client.dfy` as a
  class):
  - the identity-keyed tracking map (`map<Item, ItemData>` over `Item`
    objects);
  - `#recordAndStripItem`, `draftItem`, `markItemForDeletion` and
    `getItemVersion`;
  - the not-found paths of `getItem` and `getItems`;
  - `#getUpdateDynamoDbExpression`;
  - `commitItems`: the per-item checks, the Delete/Put/Update choice, the
    mapping of a cancellation to an error, and the metadata update after the
    commit.

  Store calls are inputs: the item a get returned, the batch a batch get
  returned, and the outcome of sending the transaction (sent, cancelled with
  reasons, or failed with an error).

JavaScript values are `Term = Undef | Str | Int | Bool | Arr | Obj`. A
record is a `map<string, Term>`: a missing key is a missing property, and
`Undef` is a property set to `undefined`. Exceptions are values of the
`JsError` datatype returned in a `Result`. `EngineTypeError` is the
TypeError the JavaScript engine throws when it reads a field of `undefined`.

The model follows the code as written, including these behaviours:

- `src/Utilities.ts:27` reads `props.filterConditions` for the condition
  list. `ConditionExpression` is therefore the filter list compiled a second
  time, with fresh aliases, and `conditionConditions` has no effect
  (`Utilities.ConditionConditionsIgnored`,
  `Utilities.ConditionIsFilterCompiledAgain`). As a result the Delete and
  Put operations of `commitItems` carry no condition (`ItemTracking.OpFor`).
- A three-element `begins with` or `contains` renders infix
  (`UtilitiesExamples.BeginsWithRendersInfix`). The test at
  `tst/Utilites.test.ts:55-61` expects the function-call form
  `begins_with(#name_0, :P_0)`, so the test and the code disagree. The model
  follows the code.
- The compiler has no case for a singleton grouping `[c]`, so it is rejected
  (`UtilitiesExamples.GroupingRejected`). An `and`/`or` node is a
  three-element array, so it takes the three-element case: the two sides are
  aliased as a name and a value built from their comma-joined text
  (`UtilitiesExamples.AndNodeTakesTripleCase`).
- `getItem` passes the key itself to `ItemNotFoundError`, which reads
  `params.itemKeys.length`. An ordinary key therefore makes the not-found
  path throw a TypeError (`Clients.NotFoundIsTypeError`). `getItems` hands
  arrays to `UnprocessedKeysError` and `ItemNotFoundError`, so both of its
  error paths throw a TypeError as well, unless `itemsNotFoundErrorOverride`
  is given for the count mismatch. The `find` callback that should pick out
  the missing keys has no `return`, so every key counts as not found
  (`Clients.EveryKeyUnfound`, `Clients.MissingItemsError`).
- The `relationships` getter's comment (`src/classes/Table.ts:160-163`)
  promises that every relationship has an inverted one on the peer. A
  second pointer to the same peer with the same peer pointer breaks that
  promise. The nested call on the peer meets its entry from the first add
  and throws the already-exists error, and the caller swallows it, so the
  second entry gets no inverted one (`TableExamples.SecondPointerNotMirrored`).
  The mirror is guaranteed only when the peer does not yet point back
  through that attribute (`Tables.Table.AddRelationship`).
- `queryItems`/`scanItems` read `index.table.tableName`. A `Table` has no
  `table` field, so a read over a table throws a TypeError, and
  `ConsistentRead` is never true on a request that is sent
  (`Clients.ReadOptionsOf`).
- The client refers to `table.attributes` and `table.keyAttributes`. The
  model reads them as `Table.attributeNames` and `Table.keyAttributeNames`.
  The name `"version"` is hard-coded in the client, whatever the table's
  version attribute is.
- The update expression is computed from `item`, not from `versionedItem`.
  Its `SET` list therefore never assigns `version`
  (`ItemTracking.UpdateLeavesVersion`): the recorded version moves on after
  a commit, but the version held in the store does not.
- An unmarked item listed twice in one commit moves on two versions. A
  marked item listed twice makes the metadata update throw on its second
  visit (`ItemTracking.RepeatedItemMovesTwice`,
  `ItemTracking.DuplicateDeletedItemFails`).
- `getItemsFromPaginator` tests `limit` for truthiness. A limit of 0 reads
  every page. A negative limit stops after the first page and drops the
  last `-limit` items (`Utilities.NegativeLimitStopsAtFirstPage`).
- The error message `Item must have verison: ` keeps the source's spelling.

## Model

| member | source | states |
|---|---|---|
| Constants.OptimusOperator | src/Constants.ts:2-16 | The table's operator for each of its thirteen keys, and none for any other key. |
| Constants.OperatorTableDomain | src/Constants.ts:2-16 | The operator table is defined on exactly its thirteen keys. |
| Constants.ComparisonsMapToThemselves | src/Constants.ts:3-7 | `=`, `<`, `>`, `<=`, `>=` map to themselves. |
| Constants.InequalitySpellings | src/Constants.ts:8-9 | Both `!=` and `<>` map to `<>`. |
| Constants.WordOperators | src/Constants.ts:10-15 | `begins with`→`begins_with`, `contains`→`contains`, `between`→`BETWEEN`, `and`→`AND`, `or`→`OR`, `in`→`IN`. |
| Constants.OperatorTableInjectiveUpToInequality | src/Constants.ts:2-16 | Two keys that share an operator are equal, or are the two inequality spellings. |
| JsValues.NatText | src/classes/ExpressionBuilder.ts:21 | The decimal text of a number is non-empty and made of digits. |
| JsValues.ParseNatText | src/classes/ExpressionBuilder.ts:21 | Parsing the decimal text of `n` gives back `n`. |
| JsValues.NatTextInjective | src/classes/ExpressionBuilder.ts:21 | Distinct numbers have distinct decimal texts. |
| JsValues.IntText | src/classes/ExpressionBuilder.ts:21 | An integer's decimal text, with `-` in front when it is negative. |
| JsValues.Join | src/Utilities.ts:57 | `parts.join(sep)`: the parts with `sep` between each two. |
| JsValues.Text | src/classes/ExpressionBuilder.ts:21 | `String(t)`: `undefined`, `true`/`false`, the decimal text, the string itself, an array's element texts joined with `,`, or `[object Object]`. |
| JsValues.Truthy | src/classes/OptimusDdbClient.ts:74 | JavaScript truthiness: `undefined`, `false`, 0 and `""` are falsy, arrays and objects truthy. |
| JsValues.ElementTexts | src/Utilities.ts:70 | `join` renders array elements one text each, with `undefined` as the empty text. |
| ExpressionBuilding.SanitizeKeepsClean | src/classes/ExpressionBuilder.ts:22 | Text made only of alias characters is unchanged by the replacement. |
| ExpressionBuilding.SanitizeAppend | src/classes/ExpressionBuilder.ts:22 | The replacement works per character, so it distributes over concatenation. |
| ExpressionBuilding.SanitizeChar | src/classes/ExpressionBuilder.ts:22 | What the replacement writes for one character: the character itself when it is in `[A-Za-z0-9_]`, else one `_` per UTF-16 code unit. |
| ExpressionBuilding.Sanitize | src/classes/ExpressionBuilder.ts:22 | The replacement of the whole text, character by character. |
| ExpressionBuilding.SanitizeShape | src/classes/ExpressionBuilder.ts:22 | The replaced text uses only `[A-Za-z0-9_]` and is at least as long as the text and at most twice as long. |
| ExpressionBuilding.SanitizeFirst | src/classes/ExpressionBuilder.ts:22 | The replacement of a non-empty text is its first character's replacement followed by the replacement of the rest. |
| ExpressionBuilding.SanitizeDisallowed | src/classes/ExpressionBuilder.ts:22 | A single disallowed character becomes `_`, or `__` when it lies outside the Basic Multilingual Plane. |
| ExpressionBuilding.BodyShape | src/classes/ExpressionBuilder.ts:21-24 | An alias body is non-empty, at most 17 characters, starts with a letter and uses only `[A-Za-z0-9_]`. |
| ExpressionBuilding.CleanTextIsItsOwnBody | src/classes/ExpressionBuilder.ts:21-24 | A short letter-led text of alias characters is its own body. |
| ExpressionBuilding.NonLetterStartGetsPrefix | src/classes/ExpressionBuilder.ts:24 | Text that does not start with a letter gets `A` in front of its sanitised, truncated form. |
| ExpressionBuilding.Truncate | src/classes/ExpressionBuilder.ts:23 | `.substring(0, 16)`: the first sixteen characters, or the whole text when it is shorter. |
| ExpressionBuilding.Body | src/classes/ExpressionBuilder.ts:21-24 | The text sanitised, then truncated, then prefixed with `A` unless it starts with a letter. |
| ExpressionBuilding.Stem | src/classes/ExpressionBuilder.ts:21-27 | The prefix (`#` or `:`) followed by the body of the content's text. |
| ExpressionBuilding.AliasAt | src/classes/ExpressionBuilder.ts:27 | The candidate alias for suffix `i`: the stem, `_`, and the decimal text of `i`. |
| ExpressionBuilding.FreshIndex | src/classes/ExpressionBuilder.ts:25-26 | The suffix the `while` loop stops at, starting from 0. |
| ExpressionBuilding.NextAlias | src/classes/ExpressionBuilder.ts:20-27 | The alias `#add` returns: the candidate at `FreshIndex` on the content's stem. |
| ExpressionBuilding.WellFormed | src/classes/ExpressionBuilder.ts:4-13 | Every key of each map is a candidate alias, under its map's prefix, of the content it maps to. |
| ExpressionBuilding.TruncationBeforePrefix | src/classes/ExpressionBuilder.ts:22-24 | Two texts whose sanitised forms are at least sixteen characters long and agree on the first sixteen share a body: truncation comes before the prefix. |
| ExpressionBuilding.AliasInjective | src/classes/ExpressionBuilder.ts:27 | Different suffixes on one stem give different aliases. |
| ExpressionBuilding.LeastFreeFrom | src/classes/ExpressionBuilder.ts:25-26 | The `while` loop's result: a free candidate with every smaller candidate taken. |
| ExpressionBuilding.FreshIndexIsLeastUnused | src/classes/ExpressionBuilder.ts:25-27 | The chosen suffix is `k` exactly when candidate `k` is free and every smaller one is taken. |
| ExpressionBuilding.Aliases.AddName | src/classes/ExpressionBuilder.ts:8-10 | The returned `#` alias was not in the name map; the map then sends it to the content; the value map is untouched. |
| ExpressionBuilding.Aliases.AddValue | src/classes/ExpressionBuilder.ts:11-13 | The returned `:` alias was not in the value map; the map then sends it to the content; the name map is untouched. |
| ExpressionBuilding.AddKeepsWellFormed | src/classes/ExpressionBuilder.ts:20-29 | Every entry of both maps stays an alias of its content with the right prefix. |
| ExpressionBuilding.FirstAliasesOfEmptyBuilder | src/classes/ExpressionBuilder.ts:25-27 | On an empty builder, names and values independently take the suffix `_0`. |
| ExpressionBuilding.AddNameTimes | src/classes/ExpressionBuilder.ts:8-10 | Adding a name `n` times gives `n` aliases and leaves the value map alone. |
| ExpressionBuilding.RepeatedNamesCountUp | src/classes/ExpressionBuilder.ts:25-28 | Adding the same content repeatedly gives `_0`, `_1`, ... in order; the map then holds exactly the first `n` candidates. |
| ExpressionBuilding.ExpressionBuilder.constructor | src/classes/ExpressionBuilder.ts:4-7 | Both maps start empty. |
| ExpressionBuilding.ExpressionBuilder.FreshAlias | src/classes/ExpressionBuilder.ts:20-27 | The loop returns the alias `NextAlias` specifies, which is not taken. |
| ExpressionBuilding.ExpressionBuilder.AddName | src/classes/ExpressionBuilder.ts:8-10 | Equals `Aliases.AddName` on the state; the name map gains exactly the new alias. |
| ExpressionBuilding.ExpressionBuilder.AddValue | src/classes/ExpressionBuilder.ts:11-13 | Equals `Aliases.AddValue` on the state; the value map gains exactly the new alias. |
| ExpressionBuilding.ExpressionBuilder.AttributeNames | src/classes/ExpressionBuilder.ts:14-16 | Every exposed name entry maps a `#` alias to the content it was made from. |
| ExpressionBuilding.ExpressionBuilder.AttributeValues | src/classes/ExpressionBuilder.ts:17-19 | Every exposed value entry maps a `:` alias to the content it was made from. |
| ExpressionBuilderExamples.FirstAliasIsZero | src/classes/ExpressionBuilder.ts:25-27 | Content none of whose candidates is taken gets suffix `_0`. |
| ExpressionBuilderExamples.PlainNames | tst/classes/ExpressionBuilder.test.ts:3-6 | `id` → `#id_0`, `abcd` → `:abcd_0`. |
| ExpressionBuilderExamples.NumberValue | tst/classes/ExpressionBuilder.test.ts:33 | The number 12 → `:A12_0`. |
| ExpressionBuilderExamples.DuplicateNames | tst/classes/ExpressionBuilder.test.ts:25-28 | `status` added twice → `#status_0`, then `#status_1`. |
| ExpressionBuilderExamples.ResourceStatus | tst/classes/ExpressionBuilder.test.ts:39-40 | `resource<c>status` with a disallowed `c` sanitises to `resource_status` inside the Basic Multilingual Plane, and to `resource__status` outside it. |
| ExpressionBuilderExamples.AstralValue | src/classes/ExpressionBuilder.ts:22-27 | A value whose first character lies outside the Basic Multilingual Plane gets two `_` for it: `\u{1F600}a` → `:A__a_0`. |
| ExpressionBuilderExamples.SeparatorBodies | tst/classes/ExpressionBuilder.test.ts:39-40 | The bodies of `resource-status` and `resource~status` are both `resource_status`. |
| ExpressionBuilderExamples.HashTildeBody | tst/classes/ExpressionBuilder.test.ts:41 | The body of `#resource~status` is `A_resource_status`. |
| ExpressionBuilderExamples.TodoBody | tst/classes/ExpressionBuilder.test.ts:42 | The body of `~todo` is `A_todo`. |
| ExpressionBuilderExamples.InvalidCharacters | tst/classes/ExpressionBuilder.test.ts:39 | `resource-status` → `#resource_status_0`. |
| ExpressionBuilderExamples.LeadingNonLetter | tst/classes/ExpressionBuilder.test.ts:41 | `#resource~status` → `#A_resource_status_0`. |
| ExpressionBuilderExamples.LeadingNonLetterValue | tst/classes/ExpressionBuilder.test.ts:42 | `~todo` as a value → `:A_todo_0`. |
| ExpressionBuilderExamples.SecondCandidate | src/classes/ExpressionBuilder.ts:26 | With only the `_0` candidate taken, the suffix is 1. |
| ExpressionBuilderExamples.SanitisedCollision | tst/classes/ExpressionBuilder.test.ts:39-40 | After `resource-status`, the name `resource~status` gets `#resource_status_1`. |
| ExpressionBuilderExamples.CommonStem | tst/classes/ExpressionBuilder.test.ts:39-40 | Both spellings share the stem `#resource_status`. |
| ExpressionBuilderExamples.LongBody | tst/classes/ExpressionBuilder.test.ts:48 | A long name's body keeps its first sixteen characters. |
| ExpressionBuilderExamples.LongContent | tst/classes/ExpressionBuilder.test.ts:48 | `she_sells_sea_shells_by_the_sea_shore` → `#she_sells_sea_sh_0`. |
| Utilities.AddValuesStepFrame | src/Utilities.ts:53 | `map(addValue)` only adds values, keeps earlier entries and keeps the maps well formed. |
| Utilities.AddValuesSucceeds | src/Utilities.ts:53 | `map(addValue)` succeeds exactly when no element is `undefined`. |
| Utilities.AddValuesFresh | src/Utilities.ts:53 | On success, one new alias per element, in list order, standing for that element, and nothing else is added. |
| Utilities.AddValuesDistinct | src/Utilities.ts:53 | The aliases `map(addValue)` returns are pairwise distinct. |
| Utilities.AddValuesFailureSticks | src/Utilities.ts:53 | Once `map(addValue)` throws on a prefix, the rest of the list is never read. |
| Utilities.CompileFails | src/Utilities.ts:40-72 | Compiling fails exactly when the condition is not `Compilable`: an unknown shape gives "Unexpected condition", a missing operand or a non-array `in` list gives a TypeError. |
| Utilities.CompileFrame | src/Utilities.ts:40-72 | Compiling keeps every earlier alias and the maps well formed, whether or not it succeeds. |
| Utilities.CompileUnary | src/Utilities.ts:43-48 | `exists` / `doesn't exist` become `attribute_exists(#n)` / `attribute_not_exists(#n)`, adding one name and no value. |
| Utilities.CompileInSteps | src/Utilities.ts:49-54 | The `in` case: the name alias, then the value aliases, then a three-part join. |
| Utilities.CompileInText | src/Utilities.ts:49-54 | The `in` case's text is `#n IN (:v0, :v1, ...)`. |
| Utilities.CompileIn | src/Utilities.ts:49-54 | `in` gives `#n IN (...)` with one new name and one fresh value alias per list element, in list order. |
| Utilities.CompileTriple | src/Utilities.ts:55-60 | Any other three-element condition gives `#n <op> :v` with the operator from the table, one new name and one new value. |
| Utilities.CompileQuintuple | src/Utilities.ts:61-68 | A five-element condition gives `#n <op1> :v2 <op3> :v4`, with one new name and two new values. |
| Utilities.OperatorText | src/Utilities.ts:58 | The table's operator for the key's text, or the empty string that `join` writes for `undefined`. |
| Utilities.OperatorRendering | src/Utilities.ts:58 | `!=` and `<>` render the same; an operator missing from the table, whose name is not an `Object.prototype` member, renders as the empty string. |
| Utilities.AddNameStep | src/classes/ExpressionBuilder.ts:8-10 | `builder.addName(t)` on the maps as a value: a TypeError for `undefined`, otherwise `Aliases.AddName`. |
| Utilities.AddValueStep | src/classes/ExpressionBuilder.ts:11-13 | `builder.addValue(t)` on the maps as a value: a TypeError for `undefined`, otherwise `Aliases.AddValue`. |
| Utilities.AddValuesStep | src/Utilities.ts:53 | `map(addValue)` left to right, stopping at the first exception with the earlier additions kept. |
| Utilities.Compile | src/Utilities.ts:40-72 | The dispatch on `c[1]` and then on the length of `c`, with the unknown shape rejected as "Unexpected condition". |
| Utilities.CompileAll | src/Utilities.ts:20-30 | Compiling a condition list left to right on one builder, stopping at the first exception. |
| Utilities.CompileAllFailureSticks | src/Utilities.ts:20-22 | Once a condition throws, the later conditions are never compiled. |
| Utilities.CompileAllSucceeds | src/Utilities.ts:20-22 | Compiling a list succeeds exactly when every condition in it is `Compilable`. |
| Utilities.CompileAllFrame | src/Utilities.ts:20-22 | Compiling a list keeps every earlier alias and yields one text per condition. |
| Utilities.AddNameTo | src/classes/ExpressionBuilder.ts:8-10 | `builder.addName(t)` on the class: the `undefined` TypeError, or the alias, matching `AddNameStep`. |
| Utilities.AddValueTo | src/classes/ExpressionBuilder.ts:11-13 | `builder.addValue(t)` on the class, matching `AddValueStep`. |
| Utilities.AddValuesTo | src/Utilities.ts:53 | The loop over the list on the class builder equals `AddValuesStep` on its state. |
| Utilities.CompileCondition | src/Utilities.ts:40-72 | The method on the class builder returns what `Compile` gives and leaves the maps as `Compile` does. |
| Utilities.CompileConditions | src/Utilities.ts:20-30 | The `map` over a condition list on the class builder equals `CompileAll`. |
| Utilities.FilterList | src/Utilities.ts:20-22 | The filter conditions, or the empty list when they are absent. |
| Utilities.Expression | src/Utilities.ts:9-38 | `getDynamoDbExpression` of the props: the key list and the filter list compiled by `ExpressionOver`. |
| Utilities.ExpressionOver | src/Utilities.ts:14-37 | One builder through the key list, the filter list and the filter list again; each field is joined with ` AND ` when its list is non-empty. |
| Utilities.KeyConditions | src/Utilities.ts:16-19 | The key list: partition-key condition first, then sort-key condition, each only when given. |
| Utilities.GetDynamoDbExpression | src/Utilities.ts:9-38 | The method with one shared builder equals `Expression(p)`. |
| Utilities.ExpressionSucceeds | src/Utilities.ts:9-38 | The result is an error exactly when some key or filter condition is not `Compilable`. |
| Utilities.ExpressionFields | src/Utilities.ts:31-37 | Each expression field is defined exactly when its list is non-empty; the condition expression goes with the filter list; every returned alias stands for its content. |
| Utilities.ConditionConditionsIgnored | src/Utilities.ts:27 | `conditionConditions` has no effect on the result. |
| Utilities.ConditionIsFilterCompiledAgain | src/Utilities.ts:23-30 | The condition expression is the filter list compiled again on the same builder, after the filter expression. |
| Utilities.EmptyExpression | src/Utilities.ts:31-37 | With no key or filter conditions, every expression is undefined and both maps are empty. |
| Utilities.SlicePrefix | src/Utilities.ts:106 | `slice(0, end)`: a prefix whose length is clamped, with a negative end counting back from the end. |
| Utilities.LimitSet | src/Utilities.ts:105 | The truthiness of `limit`: present and not 0. |
| Utilities.Accumulate | src/Utilities.ts:100-110 | The `for await` loop over the pages: append each page's items, and stop once a truthy limit is reached with the first `limit` items and that page's key. |
| Utilities.GetItemsFromPaginator | src/Utilities.ts:100-110 | The loop returns what `Accumulate` specifies for the pages and the limit. |
| Utilities.AccumulateWithoutLimit | src/Utilities.ts:103-109 | Without a truthy limit: all pages' items, concatenated, and no key. |
| Utilities.AccumulateWithLimit | src/Utilities.ts:103-109 | With a positive limit `L`: all items and no key when there are fewer than `L`; otherwise exactly the first `L` items and the key of the page at which the count reached `L`. |
| Utilities.PaginatorRespectsLimit | src/Utilities.ts:105-106 | With a positive limit, at most `limit` items are returned. |
| Utilities.NegativeLimitStopsAtFirstPage | src/Utilities.ts:105-106 | A negative limit stops after the first page, without its last `-limit` items. |
| Utilities.EncodeNextToken | src/Utilities.ts:74-77 | `undefined` passes through; a key becomes the encoder's token. |
| Utilities.DecodeNextToken | src/Utilities.ts:79-87 | `undefined` passes through; a decoding failure becomes `InvalidNextTokenError`. |
| UtilitiesExamples.PlainFirstName | src/classes/ExpressionBuilder.ts:21-27 | A short letter-led word `w` on an empty map gets `#w_0`. |
| UtilitiesExamples.PlainFreshValue | src/classes/ExpressionBuilder.ts:21-27 | A short letter-led word none of whose candidates is taken gets `:w_0`. |
| UtilitiesExamples.ExistsExample | tst/Utilites.test.ts:5-11 | `[expiresAt, exists]` → `attribute_exists(#expiresAt_0)`, with that one name alias. |
| UtilitiesExamples.PlainTriple | src/Utilities.ts:55-60 | Plain words on an empty builder: `#name_0 <op> :value_0`. |
| UtilitiesExamples.EqualsExample | tst/Utilites.test.ts:29-35 | `[id, =, abcd]` → `#id_0 = :abcd_0`. |
| UtilitiesExamples.InequalityExample | tst/Utilites.test.ts:44-54 | `!=` and `<>` both render as `#id_0 <> :abcd_0`. |
| UtilitiesExamples.BeginsWithRendersInfix | src/Utilities.ts:55-60 | As written, `[name, begins with, P]` → `#name_0 begins_with :P_0`, not the function-call form the test expects. |
| UtilitiesExamples.DigitsBody | src/classes/ExpressionBuilder.ts:24 | A short all-digit text gets the `A` prefix. |
| UtilitiesExamples.BetweenAliases | tst/Utilites.test.ts:63-69 | The between example's aliases: `#id_0`, `:A0000_0`, `:A1000_0`. |
| UtilitiesExamples.BetweenExample | tst/Utilites.test.ts:63-69 | `[id, between, 0000, and, 1000]` → `#id_0 BETWEEN :A0000_0 AND :A1000_0`. |
| UtilitiesExamples.GroupingRejected | src/Utilities.ts:69-71 | A singleton grouping is rejected with "Unexpected condition". |
| UtilitiesExamples.PairText | src/Utilities.ts:57 | An array's text is its elements joined with `,`. |
| UtilitiesExamples.ExistsPairBody | src/classes/ExpressionBuilder.ts:21-24 | `x,exists` sanitises to `x_exists`. |
| UtilitiesExamples.AndNodeAliases | src/Utilities.ts:55-60 | An `and` node's sides are aliased as `#x_exists_0` and `:y_exists_0`. |
| UtilitiesExamples.FirstValueAlias | src/classes/ExpressionBuilder.ts:25-27 | On an empty value map a value's alias is its body with `_0`. |
| UtilitiesExamples.AndNodeTakesTripleCase | src/Utilities.ts:55-60 | `[[a, exists], and, [b, exists]]` → `#a_exists_0 AND :b_exists_0`. |
| UtilitiesExamples.AddValuesPair | src/Utilities.ts:53 | Adding two values in turn gives two aliases, in order. |
| UtilitiesExamples.InPairValues | src/Utilities.ts:53 | Two different words added to an empty value map both take `_0`. |
| UtilitiesExamples.InPairAliases | tst/Utilites.test.ts:13-19 | `[name, in, [a, b]]` on an empty builder takes `#name_0`, `:a_0`, `:b_0`. |
| UtilitiesExamples.InPair | tst/Utilites.test.ts:13-19 | `[name, in, [a, b]]` → `#name_0 IN (:a_0, :b_0)`. |
| UtilitiesExamples.DistinctStems | src/classes/ExpressionBuilder.ts:27 | Aliases of two different words never coincide. |
| UtilitiesExamples.LastUnderscore | src/classes/ExpressionBuilder.ts:27 | The position of the last `_` lies within the text. |
| UtilitiesExamples.LastUnderscoreAt | src/classes/ExpressionBuilder.ts:27 | In an alias the last `_` is the one before the suffix. |
| UtilitiesExamples.InExample | tst/Utilites.test.ts:13-19 | `[status, in, [available, deleted]]` → `#status_0 IN (:available_0, :deleted_0)`. |
| UtilitiesExamples.FirstTripleState | src/Utilities.ts:55-60 | After one three-element compile, each map holds one `_0` alias. |
| UtilitiesExamples.SecondSuffix | src/classes/ExpressionBuilder.ts:26 | With only `_0` taken, the next suffix is 1. |
| UtilitiesExamples.RepeatedTriple | src/Utilities.ts:55-60 | The same condition compiled twice on one builder uses `_0` aliases, then `_1` aliases. |
| UtilitiesExamples.FilterAlsoBecomesCondition | src/Utilities.ts:23-34 | One filter condition fills the filter expression with `_0` aliases and the condition expression with `_1` aliases. |
| UtilitiesExamples.SingleCondition | src/Utilities.ts:20-22 | A one-element list compiles to that condition's text. |
| Types.TypeName | src/Types.ts:48-76 | The enum member's string value, such as `ONE_TO_MANY`. |
| Types.Flip | src/Types.ts:79-82 | One-to-many and many-to-one swap; the other two types stay. |
| Types.SingleForeignKey | src/Types.ts:95-99 | The sides whose items hold one foreign key: ONE_TO_ONE and MANY_TO_ONE. |
| Types.TypeNameInjective | src/Types.ts:48-76 | The enum's string values are distinct. |
| Types.FlipInvolution | src/Types.ts:79-82 | Flipping twice gives the original type. |
| Types.FlipFixedPoints | src/Types.ts:79-82 | Exactly ONE_TO_ONE and MANY_TO_MANY are left unchanged by the flip. |
| Types.PeerPlurality | src/Types.ts:95-99 | ONE_TO_ONE and MANY_TO_ONE sides hold one key, the others an array; each side's peer plurality is the flipped type's. |
| Types.UnprocessedKeysError | src/Types.ts:112-119 | The name is "ItemNotFoundError" and the message is `Error processing N keys.`. |
| Types.UnprocessedKeysMessageDeterminesCount | src/Types.ts:116 | Equal unprocessed-keys messages mean equal key counts. |
| Types.ItemNotFoundFrom | src/Types.ts:129-135 | An `ItemNotFoundError` exactly when `itemKeys` is present; otherwise the TypeError of reading `.length`. |
| Types.ViolationMessage | src/Types.ts:183-184 | `Item violates <type> relationship between <A> and <B>: <item>`. |
| Types.ErrorNamesDistinct | src/Types.ts:112-196 | The error names differ from `TableRelationshipAlreadyExistsError`'s; unprocessed keys reuse "ItemNotFoundError". |
| Types.TypedOperatorsRender | src/Types.ts:13-39 | Every operator of a typed three- or five-element condition is in the operator table; the fifth element's operator renders `AND`. |
| Types.KeyConditionsCompile | src/Types.ts:13-24 | Typed key conditions always compile: the partition key as `#k = :v`, sort keys in each of their forms. |
| Types.PartitionKeyText | src/Types.ts:13 | A partition-key condition renders `#k = :v`. |
| Types.FilterConditionOutcome | src/Types.ts:26-42 | A well-typed filter compiles unless it is a grouping, or an array `contains` of `undefined`. |
| Types.FilterCompilable | src/Types.ts:42 | The filter conditions the compiler cannot handle are exactly those two kinds. |
| Types.LeafCompilable | src/Types.ts:26-39 | A typed leaf compiles unless it is an array `contains` of `undefined`. |
| Tables.FirstIndex | src/classes/Table.ts:86 | The first occurrence's position: it holds the element, and no earlier position does. |
| Tables.Dedup | src/classes/Table.ts:86 | `[...new Set(xs)]` has the same elements as `xs`, each once. |
| Tables.DedupKeepsFirstOccurrenceOrder | src/classes/Table.ts:86 | The distinct elements come out in the order of their first occurrences. |
| Tables.DedupOfDistinct | src/classes/Table.ts:86 | A list without repetitions is its own deduplication. |
| Tables.FlattenMembers | src/classes/Table.ts:85 | A name is in the flattened list exactly when some member has it. |
| Tables.AttributeNamesOf | src/classes/Table.ts:81-87 | An object shape's keys, or the distinct keys of all union members in first-occurrence order. |
| Tables.UnionAttributeNames | src/classes/Table.ts:84-86 | A union's attribute names are exactly the names some member has, each once. |
| Tables.KeyAttributeNamesOf | src/classes/Table.ts:88-91 | `[partitionKey]`, or `[partitionKey, sortKey]` when there is a sort key. |
| Tables.VersionAttributeNameOf | src/classes/Table.ts:92 | The given name, or `"version"` by default. |
| Tables.VersionCollisionError | src/classes/Table.ts:93-100 | The error `<table> table's item shape includes reserved version attribute "<version>".`. |
| Tables.HasRelationship | src/classes/Table.ts:132-135 | The duplicate test: some entry has this peer table and this pointer attribute. |
| Tables.FlippedParams | src/classes/Table.ts:145-157 | The parameters passed to the peer: flipped type, the two pointer names swapped, the peer as the other table, the exemptions swapped, the separator kept. |
| Tables.Entry | src/classes/Table.ts:136-144 | The pushed entry takes the separator `"."` by default. |
| Tables.PeerEntryIsMirror | src/classes/Table.ts:146-154 | The peer's entry is the mirror: flipped type, swapped pointers and exemptions; mirroring twice gives the entry back. |
| Tables.Table.constructor | src/classes/Table.ts:76-92 | The derived fields: attribute names, key attribute names, version attribute name; no relationships. |
| Tables.Table.New | src/classes/Table.ts:61-101 | Construction fails with the reserved-version message exactly when an attribute name equals the version attribute name. |
| Tables.Table.AddRelationship | src/classes/Table.ts:132-157 | A duplicate is refused and nothing changes; otherwise the entry is appended and the peer gets the mirrored entry unless it already points back through `peerPointerAttributeName`. For a different peer that did not point back, the peer's last entry is then the mirror of this table's last entry. |
| Tables.Table.GetRelationships | src/classes/Table.ts:164-166 | The getter returns the current list as a value. |
| Tables.MirroredOnBothSides | src/classes/Table.ts:136-154 | Appending an entry to one list and its mirror to a list that does not yet point back through `peerPointerAttributeName`: each list then has the entry for the other, and the second is the mirror of the first. |
| TableExamples.SecondPointerNotMirrored | src/classes/Table.ts:132-163 | As written, `a1 -> B.b` then `a2 -> B.b` both succeed, but `B` keeps only the mirror of the first entry: the second has no inverted relationship, against the getter's comment. |
| PagesIterators.HasNextOf | src/classes/ItemsPagesIterator.ts:20-22 | Not yet started, or a key to resume from while the items do not equal the limit. |
| PagesIterators.NextOf | src/classes/ItemsPagesIterator.ts:24-34 | `next()`: set started, ask the store, and on success append the page's items, keep its key and return the page's items; a failure keeps started set. |
| PagesIterators.RequestOf | src/classes/ItemsPagesIterator.ts:26-30 | The request resumes from the current key and asks for `limit - items.length` when a limit is set. |
| PagesIterators.FreshHasNext | src/classes/ItemsPagesIterator.ts:14-21 | A fresh iterator has a next page. |
| PagesIterators.NextExtends | src/classes/ItemsPagesIterator.ts:24-34 | After `next()` the iterator has started and the old items are a prefix; on success the response items are appended and returned and the key is replaced. |
| PagesIterators.StopsAtLimit | src/classes/ItemsPagesIterator.ts:21 | Once started, a next page needs a key; there is none once the items meet the limit; with no limit it is exactly "a key is present". |
| PagesIterators.NextStaysWithinLimit | src/classes/ItemsPagesIterator.ts:29 | Against a store that honours `Limit`, the items never pass the limit. |
| PagesIterators.ItemsPagesIterator.constructor | src/classes/ItemsPagesIterator.ts:8-18 | Not started, no items, and the given start key. |
| PagesIterators.ItemsPagesIterator.HasNext | src/classes/ItemsPagesIterator.ts:20-22 | Returns `HasNextOf` of the state. |
| PagesIterators.ItemsPagesIterator.Next | src/classes/ItemsPagesIterator.ts:24-34 | The result and the new state are `NextOf` of the old state. |
| ItemTracking.KeyOf | src/classes/OptimusDdbClient.ts:238 | The key has exactly the key attributes, each with the item's value. |
| ItemTracking.RecordOf | src/classes/OptimusDdbClient.ts:230-244 | Succeeds exactly for a draft or an integer version, with valid stripped attributes; `version` is removed; on success only this item's metadata is set (table, key, version, `delete = false`, `create`). |
| ItemTracking.MarkOf | src/classes/OptimusDdbClient.ts:219-223 | Fails on an untracked or already marked item; otherwise only that item's `delete` flag is set. |
| ItemTracking.VersionOf | src/classes/OptimusDdbClient.ts:225-228 | Fails on an untracked item; otherwise the recorded version, an integer for an item that was read. |
| ItemTracking.StripUndefined | src/classes/OptimusDdbClient.ts:141-143 | Exactly the attributes set to `undefined` are removed; every read gives the same value as before. |
| ItemTracking.StripIdempotent | src/classes/OptimusDdbClient.ts:141-143 | Stripping twice changes nothing. |
| ItemTracking.DefinedKeys | src/classes/OptimusDdbClient.ts:248-249 | The keys, in order, whose value on the item is defined. |
| ItemTracking.AbsentKeys | src/classes/OptimusDdbClient.ts:251-252 | The keys, in order, that the item lacks and that are not key attributes. |
| ItemTracking.SetKeys | src/classes/OptimusDdbClient.ts:248-249 | The table's attributes plus `version`, where the item defines them. |
| ItemTracking.RemoveKeys | src/classes/OptimusDdbClient.ts:251-252 | The table's non-key attributes the item lacks. |
| ItemTracking.SetAliases | src/classes/OptimusDdbClient.ts:250 | One name alias and one value alias per key; the maps change only as the two lists say. |
| ItemTracking.SetAliasesSnoc | src/classes/OptimusDdbClient.ts:248-250 | One more key extends the `SET` aliases of the earlier keys by its name alias and then its value alias. |
| ItemTracking.ValueAliases | src/classes/OptimusDdbClient.ts:250 | One value alias per key; the name map is untouched. |
| ItemTracking.SetAliasesSplit | src/classes/OptimusDdbClient.ts:250 | The interleaved `SET` aliases split into name aliases and value aliases. |
| ItemTracking.NameAliases | src/classes/OptimusDdbClient.ts:253 | One name alias per key; the value map is untouched. |
| ItemTracking.NameAliasesExtend | src/classes/OptimusDdbClient.ts:253 | The name aliases only add entries. |
| ItemTracking.NameAliasesStandFor | src/classes/OptimusDdbClient.ts:253 | Each name alias is new, and afterwards stands for its key. |
| ItemTracking.NameAliasesDistinct | src/classes/OptimusDdbClient.ts:253 | The name aliases are pairwise distinct and non-empty. |
| ItemTracking.NameAliasesNothingElse | src/classes/OptimusDdbClient.ts:253 | The name map gains the name aliases and nothing else. |
| ItemTracking.ValueAliasesExtend | src/classes/OptimusDdbClient.ts:250 | The value aliases only add entries. |
| ItemTracking.ValueAliasesStandFor | src/classes/OptimusDdbClient.ts:250 | Afterwards each value alias stands for its key's value on the item. |
| ItemTracking.ValueAliasesNothingElse | src/classes/OptimusDdbClient.ts:250 | The value map gains the value aliases and nothing else. |
| ItemTracking.Assignments | src/classes/OptimusDdbClient.ts:250 | One `#name = :value` entry per pair. |
| ItemTracking.UpdateExpressionOf | src/classes/OptimusDdbClient.ts:245-261 | Fails, with a TypeError, exactly when the recorded version is `undefined`. |
| ItemTracking.ListAliases | src/classes/OptimusDdbClient.ts:248-253 | One `SET` name and value alias per defined key, and one `REMOVE` alias per absent key. |
| ItemTracking.VersionAliases | src/classes/OptimusDdbClient.ts:256-257 | Two new, different name aliases for `version` and a new value alias for the recorded version. |
| ItemTracking.ListAliasesMeaning | src/classes/OptimusDdbClient.ts:248-253 | After both lists, the `i`-th `SET` aliases stand for the `i`-th key and its value, every `REMOVE` alias stands for its key, and the maps hold nothing else. |
| ItemTracking.UpdateFrom | src/classes/OptimusDdbClient.ts:245-261 | The `SET`/`REMOVE` aliases, then a TypeError when the recorded version is `undefined`, else the version aliases and the three texts with both maps. |
| ItemTracking.UpdateText | src/classes/OptimusDdbClient.ts:255 | `SET` with the assignments joined by `, `, then ` REMOVE` with the remove aliases when there are any. |
| ItemTracking.ConditionText | src/classes/OptimusDdbClient.ts:256 | `attribute_exists(#a) AND (#b = :v)`. |
| ItemTracking.UpdateFromFields | src/classes/OptimusDdbClient.ts:254-260 | The returned fields in terms of the aliases. |
| ItemTracking.UpdateFromText | src/classes/OptimusDdbClient.ts:255 | `SET ...` always, and ` REMOVE ...` only when the remove list is non-empty. |
| ItemTracking.UpdateFromCondition | src/classes/OptimusDdbClient.ts:256-257 | `attribute_exists(#a) AND (#b = :v)`, with `#a`, `#b` standing for `version` and `:v` for the recorded version. |
| ItemTracking.VersionAliasesExtend | src/classes/OptimusDdbClient.ts:256-257 | The condition's aliases only add entries. |
| ItemTracking.UpdateFromSetAliases | src/classes/OptimusDdbClient.ts:248-257 | In the final maps every `SET` alias still stands for its key or the key's value. |
| ItemTracking.UpdateFromRemoveAliases | src/classes/OptimusDdbClient.ts:251-257 | In the final maps every `REMOVE` alias still stands for its key. |
| ItemTracking.UpdateFromNothingElse | src/classes/OptimusDdbClient.ts:258-259 | The final maps hold the list aliases, plus only `version` and the recorded version. |
| ItemTracking.UpdateExpressionMeaning | src/classes/OptimusDdbClient.ts:245-261 | `REMOVE` appears exactly when some non-key attribute is absent; the `i`-th `SET` assignment names the `i`-th defined attribute and holds its value; every `REMOVE` alias names an absent attribute; the condition checks the recorded version. |
| ItemTracking.DeleteConditions | src/classes/OptimusDdbClient.ts:144-156 | The delete's conditions as written: `version` exists, and `version` equals the recorded version. |
| ItemTracking.OpFor | src/classes/OptimusDdbClient.ts:144-184 | Delete by the recorded key when marked; else Put of the item with `version: 0` when drafted; else Update by the recorded key; none carries a condition object, and an update fails only without a recorded version. |
| ItemTracking.Prepare | src/classes/OptimusDdbClient.ts:136-184 | Untracked item or a present `version` gives its error with the attributes untouched; success exactly when tracked, without `version`, valid and `opFor` succeeds; the attributes are then stripped. |
| ItemTracking.BuildOps | src/classes/OptimusDdbClient.ts:136-185 | One operation per item on success; the set of items is unchanged. |
| ItemTracking.PrepareStep | src/classes/OptimusDdbClient.ts:136-184 | `Prepare` on original or already stripped attributes leaves them original or stripped, and an item ready to commit succeeds. |
| ItemTracking.BuildOpsAttrs | src/classes/OptimusDdbClient.ts:141-143 | Building changes an item's attributes at most by stripping them. |
| ItemTracking.BuildOpsKeepsUnlisted | src/classes/OptimusDdbClient.ts:136-185 | Items not in the list keep their attributes. |
| ItemTracking.BuildOpsStrips | src/classes/OptimusDdbClient.ts:141-143 | A built transaction has stripped every listed item. |
| ItemTracking.BuildOpsSuccess | src/classes/OptimusDdbClient.ts:136-185 | On success, every item is tracked, has no `version`, and its operation is the one `opFor` gives for its stripped attributes. |
| ItemTracking.BuildOpsSucceeds | src/classes/OptimusDdbClient.ts:136-185 | Conversely, if every item is ready to commit, building succeeds. |
| ItemTracking.BuildOpsTracked | src/classes/OptimusDdbClient.ts:137 | A transaction is built only from tracked items. |
| ItemTracking.CancellationError | src/classes/OptimusDdbClient.ts:190-205 | An optimistic-lock error (or the override's result) exactly when the reasons are non-empty and all `ConditionalCheckFailed`; otherwise the generic error naming the reasons. |
| ItemTracking.Committed | src/classes/OptimusDdbClient.ts:209-214 | A draft gets version 0 and loses `create`; any other item moves one version on; the table, key and `delete` are kept. |
| ItemTracking.PostCommit | src/classes/OptimusDdbClient.ts:207-216 | The update keeps versions known, and the tracked set only shrinks. |
| ItemTracking.PostCommitDistinct | src/classes/OptimusDdbClient.ts:207-216 | For distinct tracked items: success, marked items dropped, the others `Committed`, unlisted items unchanged. |
| ItemTracking.DuplicateDeletedItemFails | src/classes/OptimusDdbClient.ts:208-215 | A marked item listed twice makes the second visit throw a TypeError. |
| ItemTracking.RepeatedItemMovesTwice | src/classes/OptimusDdbClient.ts:208-214 | An unmarked, non-draft item listed twice moves on two versions. |
| ItemTracking.DraftLifecycle | src/classes/OptimusDdbClient.ts:207-223 | A draft committed gets version 0, then 1; marked and committed, it is dropped from tracking. |
| ItemTracking.CommitOf | src/classes/OptimusDdbClient.ts:131-217 | An empty list does nothing; metadata changes only after a successful build and send; each send outcome maps to its result. |
| ItemTracking.CommitRejectsBeforeSending | src/classes/OptimusDdbClient.ts:135-138 | An untracked item or one with `version` fails the commit, whatever the store would answer, with no metadata change. |
| ItemTracking.CommitOperations | src/classes/OptimusDdbClient.ts:136-189 | A successful commit sent, for each item, the operation `OpFor` gives for its stripped attributes, and the items end up stripped. |
| ItemTracking.UpdateLeavesVersion | src/classes/OptimusDdbClient.ts:181 | The update for an item without `version` never assigns `version`. |
| Clients.ReadOptionsOf | src/classes/OptimusDdbClient.ts:92-95 | A table index throws a TypeError; a GSI read names the GSI's table and index and is never consistent. |
| Clients.NotFoundOf | src/classes/OptimusDdbClient.ts:40-50 | Without `itemKeys` on the key: a TypeError; otherwise `ItemNotFoundError`, or what the override makes of it (an error is thrown, anything else returns `undefined`). |
| Clients.NotFoundIsTypeError | src/classes/OptimusDdbClient.ts:41-45 | For an ordinary key the not-found path throws a TypeError, with or without an override. |
| Clients.RecordedData | src/classes/OptimusDdbClient.ts:236-242 | Recorded metadata: the table, the version read, `delete = false`, `create` as given, and a key over exactly the key attributes. |
| Clients.RecordRead | src/classes/OptimusDdbClient.ts:230-244 | Recording a read item succeeds exactly when its attributes are recordable, then sets only its entry to `RecordedData` and strips `version`; a failure leaves the map alone. |
| Clients.BuildOpsFailureSticks | src/classes/OptimusDdbClient.ts:136-185 | After the first exception the rest of the list is not looked at. |
| Clients.BuildOpsStep | src/classes/OptimusDdbClient.ts:136-185 | One more item appends its `Prepare` result and replaces its attributes. |
| Clients.PostCommitFailureSticks | src/classes/OptimusDdbClient.ts:207-216 | After the first exception the metadata update stops. |
| Clients.OptimusDdbClient.constructor | src/classes/OptimusDdbClient.ts:23-28 | No item is tracked. |
| Clients.OptimusDdbClient.RecordAndStripItem | src/classes/OptimusDdbClient.ts:230-244 | The tracking map and the item's attributes become what `RecordOf` gives; on success the item itself is returned. |
| Clients.OptimusDdbClient.GetItem | src/classes/OptimusDdbClient.ts:30-54 | Not found: the `NotFoundOf` outcome, nothing recorded. Found: succeeds exactly when recordable, returning a new item without `version` and recording only it. |
| Clients.FindCallback | src/classes/OptimusDdbClient.ts:74-76 | The callback's block body has no `return`, so it gives `undefined`. |
| Clients.FindItem | src/classes/OptimusDdbClient.ts:74-76 | `items.find(...)`: the first item the callback is truthy for, or `undefined`. |
| Clients.UnfoundKeys | src/classes/OptimusDdbClient.ts:74-76 | `keys.filter(key => !items.find(...))`: the keys for which `find` gives `undefined`, in order. |
| Clients.FindsNothing | src/classes/OptimusDdbClient.ts:74-76 | `find` gives `undefined` on every batch and every key. |
| Clients.EveryKeyUnfound | src/classes/OptimusDdbClient.ts:74-76 | The unfound keys are all the keys, in order, whatever the batch holds. |
| Clients.MissingItemsError | src/classes/OptimusDdbClient.ts:73-82 | Without an override, the TypeError of `ItemNotFoundError` reading `.length`; with one, the override applied to an `ItemsNotFoundError` of all the keys. |
| Clients.OptimusDdbClient.GetItems | src/classes/OptimusDdbClient.ts:56-84 | Empty keys return `[]`; unprocessed keys throw a TypeError; a count mismatch throws `MissingItemsError`; otherwise success exactly when every item is recordable, with new distinct items recorded in order, and earlier metadata kept. On success the tracking map gains exactly the returned items; on every path each newly tracked item is a new object. |
| Clients.OptimusDdbClient.RecordItems | src/classes/OptimusDdbClient.ts:83 | The `map` over the batch: success exactly when every record is recordable; then one new item per record, distinct, without `version`, each recorded with its record's metadata; the map gains exactly those items, keeps earlier entries, and on failure holds only new objects beyond them. |
| Clients.OptimusDdbClient.DraftItem | src/classes/OptimusDdbClient.ts:124-129 | A new copy without `version` is recorded as a draft; the caller's object is not touched. |
| Clients.OptimusDdbClient.MarkItemForDeletion | src/classes/OptimusDdbClient.ts:219-223 | The result and the new map are `MarkOf`'s. |
| Clients.OptimusDdbClient.GetItemVersion | src/classes/OptimusDdbClient.ts:225-228 | Returns `VersionOf`, changing nothing. |
| Clients.OptimusDdbClient.AddSetPairs | src/classes/OptimusDdbClient.ts:248-250 | The loop's aliases and the builder's new state are `SetAliases` of the old state. |
| Clients.OptimusDdbClient.AddRemoveNames | src/classes/OptimusDdbClient.ts:251-253 | The loop's aliases and the builder's new state are `NameAliases` of the old state. |
| Clients.OptimusDdbClient.GetUpdateDynamoDbExpression | src/classes/OptimusDdbClient.ts:245-261 | The method with its own builder returns `UpdateExpressionOf`. |
| Clients.OptimusDdbClient.PrepareItem | src/classes/OptimusDdbClient.ts:136-184 | The operation and the item's new attributes are `Prepare`'s. |
| Clients.OptimusDdbClient.PrepareListed | src/classes/OptimusDdbClient.ts:136-184 | `PrepareItem` on one listed item: its result is `Prepare`'s and only that item's entry of the list's attributes changes. |
| Clients.OptimusDdbClient.BuildTransaction | src/classes/OptimusDdbClient.ts:136-185 | The loop's operations and the items' new attributes are `BuildOps`'s. |
| Clients.OptimusDdbClient.MoveOn | src/classes/OptimusDdbClient.ts:207-216 | The loop's result and the new tracking map are `PostCommit`'s. |
| Clients.OptimusDdbClient.CommitItems | src/classes/OptimusDdbClient.ts:131-217 | The result, the tracking map and the items' attributes are `CommitOf`'s. |

## Left out

- All store I/O (`GetCommand`, `BatchGetCommand`, `paginateQuery`/`paginateScan`, `TransactWriteCommand`, the `DynamoDBDocumentClient`): each call is replaced by its answer, given as an input.
- `async`/`await` and concurrency: every call is sequential, and a rejected promise is a `Failure` result.
- Shape validation (`validateShape`, zod, shape-tape): it is an abstract `Validator` that returns an error or nothing. `validateShape` is taken to return the item it checks.
- `getIndexKeyShape`: it builds a shape with a foreign library.
- The base64 and JSON internals of `encodeNextToken`/`decodeNextToken`: they are the parameters `encode`/`decode`. Only the `undefined` pass-through and the error mapping are modelled.
- The whole of `queryItems`/`scanItems`, except the request options that `Clients.ReadOptionsOf` states.
- Relationship-integrity checking at commit time: no code for it exists. Only the error message is modelled.
- `flipRelationshipType` is not part of this model. The flip is taken from the `FlipTableRelationshipType` mapping in `Types.ts`.
- `Gsi` is a plain datatype of its four fields. `index.ts` only re-exports.
- The type-level machinery of `Types.ts` (`AnyToNever`, `MergeUnion`, conditional key types) has no run-time behaviour.
- Floating-point numbers, `null` and binary (`Uint8Array`) values: numbers are integers. Binary sort keys and filters, and their condition types, are therefore absent.
- `JSON.stringify` text in error messages: a message holds the item as a `Term`. The violation message takes the item's text as a parameter.
- Property order of objects: a record is a map. The order shows only in JSON text, which is left out.
- A page without `Items` (the `!` assertions): every page is given with its items.
- The exemption predicates of relationships are kept by identity. They are stored and swapped, never called.
- `Tables.Table.AddRelationship`: an error from the peer other than the already-exists one would be rethrown. The nested call can only refuse a duplicate, so that branch is proved unreachable instead of modelled.
- `ExpressionBuilding.ExpressionBuilder.AddName` and `AddValue` require defined content. The `undefined.toString()` TypeError is modelled one level up, in `Utilities.AddNameTo` and `Utilities.AddValueTo`.
- `ItemTracking.ValueAliasesStandFor` does not state that each value alias was new before the call. `Aliases.AddValue` states that for each single step.
- `Clients.OptimusDdbClient.BuildTransaction` and `CommitItems` take `OpFor` for the per-item operation. The lemmas about `BuildOps` hold for any operation builder.
- `JsValues.IntText`: integers are rendered in plain decimal at any size. JavaScript writes numbers of 1e21 and above in exponent form and loses precision beyond 2^53; neither is modelled.
- Property reads that fall through to `Object.prototype` (`constructor`, `toString`, `hasOwnProperty`, ...): a record holds only own properties. This affects the operator table lookup (`Utilities.OperatorText`) and `item[key]` in the `SET`/`REMOVE` lists (`ItemTracking.SetKeys`, `ItemTracking.RemoveKeys`): an absent attribute named like an `Object.prototype` member would be SET to the inherited function by the source, and is REMOVEd by the model.
- `plurality`, imported by `src/Types.ts:2` from `src/Utilities.ts`, which defines no such function, is not part of this model. Only the `.length` read before it is modelled, and the text of the item-not-found message is not built.
- `InvalidNextTokenError`, imported by `src/Utilities.ts:3` from `src/Types.ts`, which defines no such class, is read as an error class; the model returns `InvalidNextToken`.
- `ItemsNotFoundError`, imported by `src/classes/OptimusDdbClient.ts:5` from `src/Types.ts`, which defines no such class, is read as an error that holds the keys that were not found (`ItemsNotFound(keys)`).

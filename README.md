# Doctrine helper core, modelled in Dafny

This project models two parts of a small helper layer over the Doctrine ORM.

- `DataUtils::toPairs` turns the rows of a SQL result set into a PHP array. It builds either a list of values, or a map from a key column to a value column (or to the whole row).
- The decision logic of `DoctrineHelper`:
  - listing an entity's variants (the classes of its discriminator map) with display labels;
  - measuring how deep a class sits in its inheritance chain;
  - choosing the most derived variant;
  - finding the discriminator value of a class, falling back to its root entity;
  - the guards that decide whether an entity is remapped to another variant;
  - `sortEntities`, which moves an entity within its sibling group and rewrites the `position` of every member of the group.

Everything the ORM would be asked is passed in as data:

- `DoctrineHelper.Schema` holds the class metadata and what reflection gives.
- `EntitySorting.Env` holds the parent query's rows, the root entities and each parent's children.
- `toPairs` takes the already-fetched rows.

PHP arrays are insertion-ordered maps. `OrderedMaps` models them as sequences of key/value pairs:

- `$a[$k] = $v` replaces an existing key where it stands, or appends a new one.
- `unset` removes a key and keeps the order of the rest.

Modules and files:

| file | module | models |
|---|---|---|
| `wrappers.dfy` | `Wrappers` | `Option` and `Result`; a `Failure` stands for a thrown exception |
| `ordered_maps.dfy` | `OrderedMaps` | PHP arrays: `Get`, `Put`, `Remove`, first-occurrence order |
| `data_utils.dfy` | `DataUtils` | `toPairs` |
| `variant_labels.dfy` | `VariantLabels` | the two regular-expression rewrites that build a variant's fallback label |
| `doctrine_helper.dfy` | `DoctrineHelper` | variants, class depth, best type, discriminator lookup, remap guards |
| `entity_sorting.dfy` | `EntitySorting` | `sortEntities`; `parent` and `position` live in the class `EntityStore` |

Where the code changes state step by step, the model does the same:

- A loop that fills an array or tracks a running best becomes a `method` with that loop: the two loops of `toPairs` (`ListPairs`, `KeyedPairs`), the labelling and `unset` loops of `getEntityVariants` (`LabelVariants`, `ExcludeVariants`), the loop of `getBestOfType` (`DeepestVariant`) and the two searches of `getDiscriminatorByEntity`, which stay together in `DiscriminatorByEntity` as they do in the original. The calling methods (`ToPairs`, `EntityVariants`, `BestOfType`) run them where the original does.
- `sortEntities` becomes a method of the class `EntityStore` whose fields are updated in place. Its two renumbering walks are in `EntityStore.Renumber`.

Each such method is proved equal to a specification function, and the properties are proved about that function.

The position renumbering of `sortEntities` is modelled as the code is written. A dense renumbering that puts C right after A in [A, B, C] would give A=0, C=1, B=2. The code gives A=0, B=2, C=4 (`EntitySorting.MoveLastAfterFirst`). The third branch of its walk (src/DoctrineHelper.php:302-303) can never run, because the two branches before it test `===` and `!==` on the same pair. So the walk skips a slot after `previousId`, and the moved entity is always given the final counter afterwards (:307-309).

## Model

| member | source | states |
|---|---|---|
| `DataUtils.ToPairs` | src/Dbal/Utils/DataUtils.php:20-54 | over rows taken as input and holding the columns the call names, the column resolution and the loops compute exactly `ToPairsSpec` |
| `DataUtils.ListPairs` | src/Dbal/Utils/DataUtils.php:43-46 | the loop that appends one item per row builds exactly `ListFold` |
| `DataUtils.KeyedPairs` | src/Dbal/Utils/DataUtils.php:47-51 | the loop that assigns one item per row under its stringified key builds exactly `KeyedFold` |
| `DataUtils.ToPairsSpec` | src/Dbal/Utils/DataUtils.php:24-51 | no rows gives `[]`; the call fails exactly when the first row has no columns; a successful result has at most one entry per row |
| `DataUtils.ResolveColumns` | src/Dbal/Utils/DataUtils.php:34-40 | columns given by the caller are kept; with none given, a one-column first row makes that column the value column, and otherwise its first two columns become key and value, two different columns |
| `DataUtils.Pick` | src/Dbal/Utils/DataUtils.php:45 | without a value column the item is the whole row; with one, it is the row's cell in that column |
| `DataUtils.AsString` | src/Dbal/Utils/DataUtils.php:49 | `(string)` gives `''` for null, a string as it is, and an integer as a non-empty text that starts with `-` exactly when it is negative, with no leading zero after the sign |
| `DataUtils.NatToString` | src/Dbal/Utils/DataUtils.php:49 | a non-negative integer is written as a non-empty run of decimal digits, with no leading zero unless it is 0 |
| `DataUtils.NatToStringRoundTrip` | src/Dbal/Utils/DataUtils.php:49 | the decimal digits of a non-negative integer read back as that integer |
| `DataUtils.AsStringIntInjective` | src/Dbal/Utils/DataUtils.php:49 | two different integer key cells never become the same string key |
| `DataUtils.AsStringExamples` | src/Dbal/Utils/DataUtils.php:49 | `0` becomes `'0'`, `-15` becomes `'-15'`, `2024` becomes `'2024'` |
| `DataUtils.ListMode` | src/Dbal/Utils/DataUtils.php:43-46 | without a key column the result has one element per row, in row order, under keys 0, 1, 2, …; each element is the value cell, or the whole row when no value column is set |
| `DataUtils.ListFoldShape` | src/Dbal/Utils/DataUtils.php:44-46 | the list loop puts row `i`'s item under index `i` |
| `DataUtils.SingleColumnDefault` | src/Dbal/Utils/DataUtils.php:34-36 | with no columns named and one column in the first row, the result lists that column's cells |
| `DataUtils.TwoColumnDefault` | src/Dbal/Utils/DataUtils.php:37-39 | with no columns named and two or more in the first row, the first column is the key and the second, a different one, the value; the rest are ignored |
| `DataUtils.KeyedMode` | src/Dbal/Utils/DataUtils.php:47-51 | with a key column the keys are the distinct stringified key cells in first-occurrence order, and each holds the item of the last row with that key |
| `DataUtils.KeyedFoldKeys` | src/Dbal/Utils/DataUtils.php:48-50 | the keyed loop produces distinct keys, in the order they first occur |
| `DataUtils.KeyedFoldLastWins` | src/Dbal/Utils/DataUtils.php:48-50 | a later row with the same key overwrites the earlier value |
| `DataUtils.KeyedFoldLength` | src/Dbal/Utils/DataUtils.php:48-50 | the keyed result has no more entries than there are rows |
| `DataUtils.RowKeys` | src/Dbal/Utils/DataUtils.php:49 | one `(string) $row[$key]` per row |
| `DataUtils.LastIndexOf` | src/Dbal/Utils/DataUtils.php:48-50 | the last row carrying a key, or none when no row carries it |
| `OrderedMaps.Get` | src/Dbal/Utils/DataUtils.php:45-49 | a key has a value exactly when it is one of the array's keys |
| `OrderedMaps.Put` | src/Dbal/Utils/DataUtils.php:49 | `$a[$k] = $v` keeps the key order for an existing key and appends a new one; afterwards `k` holds `v` and every other key is unchanged |
| `OrderedMaps.Remove` | src/DoctrineHelper.php:62-64 | `unset` drops exactly `k`; the remaining keys keep their order and their values |
| `OrderedMaps.RemoveKeepsDistinct` | src/DoctrineHelper.php:62-64 | `unset` never makes two entries share a key |
| `OrderedMaps.FirstOccurrences` | src/DoctrineHelper.php:45-58 | each element once, nothing else, in first-occurrence order |
| `OrderedMaps.PutKeepsFirstOccurrences` | src/DoctrineHelper.php:45-58 | assigning keys one at a time leaves them in first-insertion order |
| `VariantLabels.LastSeparator` | src/DoctrineHelper.php:55 | finds the last `\` of a class name, or none |
| `VariantLabels.ShortName` | src/DoctrineHelper.php:55 | with a `\` that is not the last character, the result is the non-empty text after the last `\`; otherwise the name is left as it is |
| `VariantLabels.ShortNameOfQualified` | src/DoctrineHelper.php:55 | the short name of `Namespace\Class` is `Class` |
| `VariantLabels.Decamel` | src/DoctrineHelper.php:53-54 | the rewrite never shortens the text and never changes its first character |
| `VariantLabels.DecamelRoundTrip` | src/DoctrineHelper.php:53-54 | on names without spaces the rewrite loses nothing: re-joining the words gives the name back |
| `VariantLabels.DecamelInjective` | src/DoctrineHelper.php:53-54 | two class names without spaces never get the same fallback label |
| `VariantLabels.DecamelWithoutUpper` | src/DoctrineHelper.php:53-54 | text without upper-case letters is unchanged |
| `VariantLabels.DecamelTwoWords` | src/DoctrineHelper.php:53-54 | `CustomProduct` becomes `Custom product`: a space goes in at the boundary, the capital after it is lowered, and the first letter stays |
| `VariantLabels.DecamelCons` | src/DoctrineHelper.php:53-54 | a character that does not start a lower-then-upper pair is copied as it is |
| `VariantLabels.DecamelBoundary` | src/DoctrineHelper.php:53-54 | one lower-then-upper pair gets a space and a lowered capital; the text after it, without capitals, is kept |
| `VariantLabels.DecamelStep` | src/DoctrineHelper.php:53-54 | a lower-then-upper pair at the start is rewritten and the scan resumes after the capital |
| `VariantLabels.DecamelAtBoundary` | src/DoctrineHelper.php:53-54 | every lower-then-upper pair is rewritten wherever it stands: the text before it and the text after it are rewritten on their own, with a space and the lowered capital between them |
| `VariantLabels.TwoBoundaries` | src/DoctrineHelper.php:53-54 | a name with two boundaries gets two spaces: `aBcD` becomes `a bc d` |
| `VariantLabels.NonOverlappingMatches` | src/DoctrineHelper.php:53 | the rewrite makes one pass: `aBC` has one boundary, `aB`, and the pair `bC` that its rewrite produces is not rewritten again, so the result is `a bC` |
| `DoctrineHelper.DocName` | src/DoctrineHelper.php:46-50 | a class that cannot be reflected has no doc-comment name; a reflectable class has the name its doc comment gives, or none |
| `DoctrineHelper.Label` | src/DoctrineHelper.php:52-58 | a doc-comment name is the label; without one, the label is exactly the rewritten short name, from which the short name can be read back |
| `DoctrineHelper.LabelFallback` | src/DoctrineHelper.php:52-55 | a namespaced class without a doc-comment name is labelled by its own name, split at each lower-then-upper boundary |
| `DoctrineHelper.LabelOfCustomProduct` | src/DoctrineHelper.php:52-55 | `App\CustomProduct` without a doc-comment name is labelled `Custom product` |
| `DoctrineHelper.EntityVariants` | src/DoctrineHelper.php:38-67 | the labelling loop and the `unset` loop compute exactly `VariantsSpec`; an unmapped class fails |
| `DoctrineHelper.ExcludeVariants` | src/DoctrineHelper.php:62-64 | the `unset` loop removes the excluded classes one by one: exactly `RemoveAll` |
| `DoctrineHelper.LabelVariants` | src/DoctrineHelper.php:44-60 | the loop that labels each class of the map, by doc-comment name or else by rewritten short name, builds exactly `LabelAll` |
| `DoctrineHelper.Variants` | src/DoctrineHelper.php:44-64 | the variants are exactly the discriminator-map classes minus the excluded ones, each once, in map order, each with its label (doc-comment name, else the rewritten short name); an empty map gives `[]` |
| `DoctrineHelper.LabelAllKeys` | src/DoctrineHelper.php:45-58 | every class of the map is a key once, in map order |
| `DoctrineHelper.LabelAllGet` | src/DoctrineHelper.php:47-58 | a class of the map is labelled with its doc-comment name or its rewritten short name; nothing else is labelled |
| `DoctrineHelper.RemoveAllContents` | src/DoctrineHelper.php:62-64 | removing the excluded classes removes exactly those and keeps the other labels |
| `DoctrineHelper.RemoveAllKeys` | src/DoctrineHelper.php:62-64 | removing the excluded classes keeps the remaining ones in their order |
| `DoctrineHelper.EmptyRemoveAll` | src/DoctrineHelper.php:40-64 | a missing or empty map gives `[]` whatever is excluded |
| `DoctrineHelper.ValuesSnoc` | src/DoctrineHelper.php:45 | the map's classes, visited in order |
| `DoctrineHelper.ParentClassLength` | src/DoctrineHelper.php:330-339 | a non-negative `bind` gives a result of at least `bind`; the recursion ends because parents rank lower |
| `DoctrineHelper.Ancestry` | src/DoctrineHelper.php:330-339 | the chain from a class up its parents to the class without one |
| `DoctrineHelper.ParentClassLengthCountsAncestry` | src/DoctrineHelper.php:318-339 | the length is `bind` times the number of classes from the class to its root, inclusive (CustomProduct 3, Product 2, BaseProduct 1) |
| `DoctrineHelper.Depth` | src/DoctrineHelper.php:88-92 | a class's depth is never negative; a class that cannot be reflected counts 0 |
| `DoctrineHelper.DepthIsAncestryLength` | src/DoctrineHelper.php:88-92 | the depth is the chain length for a reflectable class, and 0 otherwise |
| `DoctrineHelper.AncestorsAreShallower` | src/DoctrineHelper.php:330-339 | each step up the chain is exactly one shallower |
| `DoctrineHelper.TopOf` | src/DoctrineHelper.php:84-98 | the loop's pick is the input class or one of the variants |
| `DoctrineHelper.TopOfWithoutDepth` | src/DoctrineHelper.php:84-98 | when no variant is deeper than 0 the loop keeps the input class |
| `DoctrineHelper.TopOfIsFirstDeepest` | src/DoctrineHelper.php:84-98 | otherwise it picks the first variant of greatest depth: deeper than every earlier one and at least as deep as every later one |
| `DoctrineHelper.BestOfType` | src/DoctrineHelper.php:76-101 | fewer than two variants return the input class, otherwise the loop's pick: exactly `BestOfTypeSpec` |
| `DoctrineHelper.DeepestVariant` | src/DoctrineHelper.php:84-100 | the loop over the variants, with reflection failure as length 0, returns exactly the pick of `TopOf` |
| `DoctrineHelper.BestOfTypeChoice` | src/DoctrineHelper.php:76-101 | fewer than two variants give the input class; so does no variant being deeper than 0; otherwise the result is the first deepest variant in map order |
| `DoctrineHelper.FirstEntryOf` | src/DoctrineHelper.php:137-141 | the first entry of a map whose class is `c`, or none |
| `DoctrineHelper.DiscriminatorSpec` | src/DoctrineHelper.php:133-153 | the first key of the class's own map whose class is the input; else the first key of the root's map whose class is the ROOT; else `''`; an unmapped class or root fails |
| `DoctrineHelper.DiscriminatorByEntity` | src/DoctrineHelper.php:133-153 | the two search loops with early return compute exactly `DiscriminatorSpec` |
| `DoctrineHelper.Remap` | src/DoctrineHelper.php:187-204 | the entity comes back unchanged exactly when both discriminators resolve and are equal; differing tables fail before any update; an update writes the target discriminator into the source table's discriminator column for the entity's id and reloads it as the target class; when both discriminators resolve and differ and the tables agree, that update is made; a discriminator lookup that throws fails the remap with its error; an unchanged result is the entity itself |
| `DoctrineHelper.RemapToBestType` | src/DoctrineHelper.php:164-174 | an entity whose class is already its best type comes back unchanged; a best type other than the entity's class is passed to `remapEntity`, whose outcome is returned; an actual remap targets another class of its own discriminator map; a failing best-type search fails with its error |
| `DoctrineHelper.BestIsVariant` | src/DoctrineHelper.php:84-100 | a best type other than the input class is one of its variants |
| `DoctrineHelper.RemapToOwnClass` | src/DoctrineHelper.php:190-195 | remapping an entity to its own class changes nothing, so a second remap to the same target is a no-op |
| `EntitySorting.NeedsReparent` | src/DoctrineHelper.php:253 | an entity without a parent is never re-parented; the parent is looked up again only when its id differs from the requested one, and then exactly when it has `getId` |
| `EntitySorting.FindParent` | src/DoctrineHelper.php:254-264 | the single-result query succeeds exactly when one row has the requested id and returns that id; several rows fail as not unique; a null id matches nothing |
| `EntitySorting.NewParent` | src/DoctrineHelper.php:251-267 | the parent is re-resolved only when it is set, has an id, and that id is not the requested one; a new parent is always the requested one |
| `EntitySorting.Siblings` | src/DoctrineHelper.php:269-278 | the root entities when there is no parent, else the parent's children, none when that collection is null |
| `EntitySorting.Renumbered` | src/DoctrineHelper.php:280-310 | the moved entity always gets a position |
| `EntitySorting.SortSpec` | src/DoctrineHelper.php:240-316 | the call fails exactly when the class lacks one of the four accessors, or when the parent must be looked up again and that lookup fails; on success only the moved entity's parent can change, and the group renumbered is the children of the parent it ends up with |
| `EntitySorting.EntityStore.SortEntities` | src/DoctrineHelper.php:240-316 | on failure neither field changes; on success `parent` and `position` are exactly `SortSpec` of the old fields |
| `EntitySorting.EntityStore.Renumber` | src/DoctrineHelper.php:280-310 | the two walks leave `parent` alone and set `position` to exactly `Renumbered` of the old positions |
| `EntitySorting.EntityStore.ParentOf` | src/DoctrineHelper.php:251 | the recorded parent, or none |
| `EntitySorting.EntityStore.constructor` | src/DoctrineHelper.php:240-245 | a store holding the given parents and positions |
| `EntitySorting.FrontWalkCounter` | src/DoctrineHelper.php:283-291 | the walk without `previousId` hands out one slot per sibling other than the moved entity, after the 0 the moved entity holds |
| `EntitySorting.FrontWalkPosition` | src/DoctrineHelper.php:286-290 | the sibling at index `k` gets 1 plus the number of siblings before it that are not the moved entity |
| `EntitySorting.FrontWalkElsewhere` | src/DoctrineHelper.php:286-290 | the walk without `previousId` touches neither the moved entity nor anything outside the group |
| `EntitySorting.AfterWalkCounter` | src/DoctrineHelper.php:293-305 | the walk with `previousId` hands out one slot per sibling plus one for each sibling named by `previousId` |
| `EntitySorting.AfterWalkPosition` | src/DoctrineHelper.php:293-305 | the sibling at index `k` gets `k`, plus one once the sibling named by `previousId` has been passed |
| `EntitySorting.AfterWalkElsewhere` | src/DoctrineHelper.php:293-305 | the walk with `previousId` touches nothing outside the group other than the moved entity |
| `EntitySorting.MovedToFront` | src/DoctrineHelper.php:283-291 | without `previousId`, the moved entity gets 0 and every other sibling gets 1, 2, 3, … in list order |
| `EntitySorting.MovedAfter` | src/DoctrineHelper.php:292-310 | with `previousId`, each sibling gets its index, shifted by one after `previousId`; the moved entity gets the final counter, the group's length plus one when `previousId` is a sibling |
| `EntitySorting.MovedEntityLast` | src/DoctrineHelper.php:302-309 | with `previousId`, the moved entity always ends after every other sibling, wherever `previousId` stands |
| `EntitySorting.OutsideUnchanged` | src/DoctrineHelper.php:280-310 | entities outside the group, other than the moved one, keep their position |
| `EntitySorting.MoveLastAfterFirst` | src/DoctrineHelper.php:292-310 | `[a, b, c]` with `c` moved after `a` gives a=0, b=2, c=4 |
| `EntitySorting.MoveLastToFront` | src/DoctrineHelper.php:283-291 | `[a, b, c]` with `c` moved to the front gives c=0, a=1, b=2 |
| `EntitySorting.ReparentRule` | src/DoctrineHelper.php:251-267 | without the re-resolution condition the parents are untouched; with it, the moved entity's parent becomes the requested id |

## Left out

- Calls into the ORM are not modelled. Their answers are inputs instead: `getClassMetadata` (a class missing from `Schema.meta` fails), `getRepository`, the query builders, `getSingleResult`, `getResult` and `getChildren`.
- `find` after a remap is left out. `Remap` reports which class to reload as and which id to reload.
- `clear` is left out, together with the `MappingException` it may raise.
- The SQL `UPDATE` of `remapEntity` is reduced to the `Remapped` outcome: table, discriminator column, new discriminator and id. The string building and `executeUpdate` are I/O. A `DBALException` there is only logged in the code, and the model has no failing update.
- `flush` is left out; it persists what the model already has in `EntityStore`.
- Logging (`Debugger::log`, `trigger_error`) is a side effect with no bearing on results.
- `Utils::reflectionClassDocComment` and `Utils::getReflectionClass` are not part of this model. `Schema.classes` stands for them: a class missing from it has no doc-comment name and depth 0, as when reflection throws.
- The `DatabaseException` factories are not part of this model. Each is taken to throw, and so becomes a `Failure`.
- `Statement::fetchAll` is I/O; `toPairs` takes the fetched rows.
- PHP array-key coercion (a numeric-string key becoming an integer key) is left out. Keyed `toPairs` keys are the `(string)` casts, kept as strings. Discriminator values are strings in the model as well. In the original, a discriminator map with integer keys makes `getDiscriminatorByEntity` return an integer. Under `strict_types` (src/DoctrineHelper.php:3) its `string` return type then raises a `TypeError`; `DiscriminatorSpec` returns the value instead.
- Reading a column a row does not have (an undefined index) is excluded by the precondition `ColumnsPresent`. That precondition also asks that no row repeats a column name, which no PHP array can do.
- Cell values are null, integers or strings. Floats and booleans, and their string casts, are left out.
- Regular expressions in general are not modelled. Only the two rewrites that build a label are, character by character over ASCII.
- The label regex's `.` does not match a newline; class names never contain one, so this is not modelled.
- `remapEntity` also accepts an object as `$to` and uses its class. The model takes the class name.
- Ids are strings compared by value. PHP's strict comparison of an integer id with a string `previousId` (always unequal) is left out.
- The repository query for the parent is modelled by how many rows carry the requested id. With primary-key ids, `ParentNotUnique` cannot happen.
- `EntitySorting.MovedToFront`, `EntitySorting.MovedAfter` and `EntitySorting.MovedEntityLast` assume a sibling group without repeated ids. The code keys positions by entity object, and with a repeated id the model's map keeps only the last write.
- Concurrent `sortEntities` calls on the same group can race in the original; the model is sequential.

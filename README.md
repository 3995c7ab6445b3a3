# Fork CMS entities module — a Dafny model

This project models the persistence layer of the Fork CMS "entities" module.
The layer has two parts:

- `AbstractEntity` is the base class of database-backed records. It knows its
  table, its fetch query, its primary key, its columns and its relations. It
  loads a record by handing every column to the matching setter (`assemble`). It
  serialises its properties to an array (`toArray`). It writes the selected
  scalar properties back with `insert` or `update`, and `save` chooses between
  the two.
- `Helper` holds the value filters, the camelCase to snake_case conversion of
  property names, and `convertToArray`.

The model is split into five modules:

- `Values` (values.dfy): PHP values, PHP's ordered arrays, and the PHP
  conversions the layer relies on (`empty`, `is_numeric`, `(int)`), with how
  PHP writes an integer as a decimal string. An array
  or an object's property list is an ordered list of key/value entries.
  `$a[k] = v` is `Put`: it replaces the value in place when the key is
  present and appends otherwise.
- `Helper` (helper.dfy): `filterNotNull`, `filterValuable` and
  `toSnakeCase`, which are pure functions. `toSnakeCase` is also given a
  second, independent description, one source character at a time, and the
  two are proved equal.
- `Serialization` (serialization.dfy): what `getVariables` and `toArray`
  compute, as functions of an entity's state. Nested entities go through
  the same functions.
- `Entities` (entity.dfy): the class `AbstractEntity`. Its fields are updated
  in place by `setId`, `setTable`, `setQuery`, `assemble`, `load` and `save`.
  The loops of `getVariables` and `toArray` are loops over those fields; the
  loop of `update` over the primary keys is the method `BindPrimaryKeys`, run
  on the filtered payload. Every method is proved against the functions above. The database
  handle is a ghost log of the calls made to it. What the database returns is
  a parameter of the method that calls it.
- `Conversion` (convert.dfy): `convertToArray`.

Three details of the code shape what `assemble` and `save` do:

- `assemble` hands null to the setter too, and `setId(null)` stores 0.
- On insert, `save` always overwrites `id` with the generated one.
- `save` never sets the loaded flag.

## Model

| member | source | states |
|---|---|---|
| Values.KeysOf | src/Common/Modules/Entities/AbstractEntity.php:90 | `array_keys`: one key per entry, in entry order |
| Values.Get | src/Common/Modules/Entities/AbstractEntity.php:277 | reading `$a[k]`: a key that is absent reads as null |
| Values.Put | src/Common/Modules/Entities/AbstractEntity.php:122 | `$a[k] = v`: a present key keeps its place among the keys; an absent key is appended at the end |
| Values.PutGet | src/Common/Modules/Entities/AbstractEntity.php:221-226 | after `$a[k] = v`, `k` reads `v` and every other key reads as before |
| Values.PutKeys | src/Common/Modules/Entities/AbstractEntity.php:226 | after `$a[k] = v`, the keys are the old keys plus `k`, and no other entry appears |
| Values.PutDistinct | src/Common/Modules/Entities/AbstractEntity.php:226 | assignment keeps an array's keys distinct |
| Values.GetEntry | src/Common/Modules/Entities/AbstractEntity.php:277 | in an array with distinct keys, every entry is what its key reads |
| Values.RemoveKeysGet | src/Common/Modules/Entities/AbstractEntity.php:279 | after `unset`, a removed key is gone; any other key is present exactly when it was before, and reads the same value |
| Values.RemoveOneMore | src/Common/Modules/Entities/AbstractEntity.php:271-280 | unsetting the keys one at a time is the same as removing them all at once |
| Values.FilterEntries | src/Common/Modules/Entities/AbstractEntity.php:134-137 | `array_filter`: exactly the entries whose value the callback accepts are kept, with their keys |
| Values.FilterAppend | src/Common/Modules/Entities/AbstractEntity.php:254 | `array_filter` keeps order: filtering a concatenation is concatenating the filtered parts |
| Values.DecimalIntCast | src/Common/Modules/Entities/AbstractEntity.php:256 | `(int)` reads every integer back from its decimal string, such as the id a database returns |
| Values.DecimalIsNumeric | src/Common/Modules/Entities/AbstractEntity.php:147 | `is_numeric` accepts the decimal string of every integer |
| Values.EmptyIntCast | src/Common/Modules/Entities/AbstractEntity.php:237 | every value `empty` accepts casts to 0; on null, integers and booleans `empty` holds exactly for what casts to 0 |
| Values.DecimalEmpty | src/Common/Modules/Entities/AbstractEntity.php:237 | the decimal string of an integer is empty exactly when the integer is 0 |
| Helper.FilterNotNull | src/Common/Modules/Entities/Helper.php:15-18 | true exactly when the value is not null |
| Helper.FilterValuable | src/Common/Modules/Entities/Helper.php:24-27 | true exactly for numbers, strings and booleans; null, arrays and objects, entities included, are rejected |
| Helper.ToSnakeCase | src/Common/Modules/Entities/Helper.php:53-60 | the result contains no upper-case letter |
| Helper.SnakeCaseByPieces | src/Common/Modules/Entities/Helper.php:54-59 | the result is the lower-cased input with one `_` before each position `i >= 1` that holds a capital and is position 1 or follows a non-capital; there is no other `_` |
| Helper.SnakeCaseLength | src/Common/Modules/Entities/Helper.php:54-59 | the result is longer than the input by exactly the number of inserted underscores |
| Helper.SnakeCaseFixesLowerNames | src/Common/Modules/Entities/Helper.php:53-60 | a name without capitals, such as `id` or `created_on`, is returned unchanged |
| Helper.SnakeCaseIdempotent | src/Common/Modules/Entities/Helper.php:53-60 | converting twice is the same as converting once |
| Serialization.Variables | src/Common/Modules/Entities/AbstractEntity.php:107-127 | a property is selected exactly when its snake-case name is a primary key or a column, or a relation when relations are included; its value is kept |
| Entities.VariablesNewKey | src/Common/Modules/Entities/AbstractEntity.php:120-122 | `$result[$key] = $value` in `getVariables` always appends: no earlier property has a later property's key |
| Serialization.SerializeKeys | src/Common/Modules/Entities/AbstractEntity.php:215-227 | every key of `toArray` is the snake-case name of a selected property |
| Serialization.ColumnsOnlyKeys | src/Common/Modules/Entities/AbstractEntity.php:211-230 | `toArray(true)` contains only primary-key and column names, so a property that is only a relation never reaches it |
| Serialization.SerializeEntry | src/Common/Modules/Entities/AbstractEntity.php:215-227 | each selected property is stored under its snake-case name as a copy or as its entity rows, or not at all when the array has no entity |
| Serialization.ToArrayEntry | src/Common/Modules/Entities/AbstractEntity.php:211-230 | a non-array property is copied; an array property becomes the `toArray()` of its entity members; an array with no entity member leaves the key out |
| Serialization.EntityRowsSpec | src/Common/Modules/Entities/AbstractEntity.php:217-225 | the rows made of an array are empty exactly when no member is an entity; each row is an entity member's `toArray()` under its snake-case key |
| Serialization.EntityRowsCover | src/Common/Modules/Entities/AbstractEntity.php:218-222 | every entity member of an array property has a row under its snake-case key |
| Serialization.EntityRowsValue | src/Common/Modules/Entities/AbstractEntity.php:218-222 | when no two entity members share a snake-case key, each one's row is its own `toArray()` |
| Serialization.PayloadSpec | src/Common/Modules/Entities/AbstractEntity.php:254-256 | `insert` and `update` send only numbers, strings and booleans taken from `toArray(true)`, under primary-key and column names |
| Entities.Unique | src/Common/Modules/Entities/AbstractEntity.php:59 | `array_unique` keeps every value of its input and no other, each only once |
| Entities.UniqueSpec | src/Common/Modules/Entities/AbstractEntity.php:59 | `array_unique` lists the values in the order of their first occurrences |
| Entities.FirstIndex | src/Common/Modules/Entities/AbstractEntity.php:59 | the index found is the first occurrence of the value |
| Entities.AbstractEntity.constructor | src/Common/Modules/Entities/AbstractEntity.php:51-60 | the class declares `id`; columns become the primary keys followed by the declared columns, without duplicates; every primary key is a column; the entity is not loaded; an entity whose id is null is not loaded |
| Entities.AbstractEntity.IsLoaded | src/Common/Modules/Entities/AbstractEntity.php:145-148 | `is_numeric` of the id: an integer id is loaded; a null id, or any id that is neither an integer nor a string, is not |
| Entities.AbstractEntity.SetId | src/Common/Modules/Entities/AbstractEntity.php:200-205 | stores the int cast of the argument and nothing else, so the entity is loaded afterwards |
| Entities.AbstractEntity.StoreId | src/Common/Modules/Entities/AbstractEntity.php:238 | `$this->id = …` stores the id under `id` and changes no other property; the entity is loaded afterwards and its property names stay distinct |
| Entities.AbstractEntity.SetTable | src/Common/Modules/Entities/AbstractEntity.php:162-167 | stores the table |
| Entities.AbstractEntity.SetQuery | src/Common/Modules/Entities/AbstractEntity.php:181-186 | stores the query |
| Entities.AbstractEntity.Assemble | src/Common/Modules/Entities/AbstractEntity.php:85-101 | the loaded flag is set; the columns become the record's keys only when there were none; every record value with a setter goes through it, in record order |
| Entities.AssembleLastWriteWins | src/Common/Modules/Entities/AbstractEntity.php:93-98 | after `assemble`, each property, the table and the query hold what the last record entry writing them stored, null included; anything no entry writes is unchanged |
| Entities.AssembleStoresNull | src/Common/Modules/Entities/AbstractEntity.php:93-98 | a null record value overwrites the property; it does not keep the old value |
| Entities.AssembleNullId | src/Common/Modules/Entities/AbstractEntity.php:202 | a null `id` in the record stores 0 |
| Entities.AssembleKeys | src/Common/Modules/Entities/AbstractEntity.php:93-98 | after `assemble`, the properties are the old ones plus exactly those some record entry writes |
| Entities.AssembleKeepsKeys | src/Common/Modules/Entities/AbstractEntity.php:93-98 | when every property the record writes already exists, `assemble` keeps the property names and their order |
| Entities.AssembleDistinct | src/Common/Modules/Entities/AbstractEntity.php:93-98 | `assemble` keeps the property names distinct |
| Entities.AssembleIdempotent | src/Common/Modules/Entities/AbstractEntity.php:85-101 | assembling the same record twice leaves the entity as assembling it once |
| Entities.AbstractEntity.Load | src/Common/Modules/Entities/AbstractEntity.php:67-79 | without a query nothing happens; with one, exactly one fetch is made and its record, or an empty record when there is no row, is assembled |
| Entities.AbstractEntity.GetVariables | src/Common/Modules/Entities/AbstractEntity.php:107-127 | the loop collects exactly the selected properties, in declaration order |
| Entities.AbstractEntity.IsAffected | src/Common/Modules/Entities/AbstractEntity.php:132-140 | true exactly when some selected property, relations included, is not null |
| Entities.AbstractEntity.ToArray | src/Common/Modules/Entities/AbstractEntity.php:211-230 | both loops compute the serialised array of the entity's current state, and the entity is not changed |
| Entities.AbstractEntity.Insert | src/Common/Modules/Entities/AbstractEntity.php:252-257 | exactly one insert into the entity's table, carrying the valuable part of `toArray(true)`; returns the int cast of the reply |
| Entities.AbstractEntity.Update | src/Common/Modules/Entities/AbstractEntity.php:264-283 | a primary key missing from the payload throws, naming the first such key and the table, with no call made; otherwise exactly one update: the payload minus the primary keys, the `"p = ?"` fragments joined by `" AND "`, and the key values in key order |
| Entities.BindPrimaryKeys | src/Common/Modules/Entities/AbstractEntity.php:268-280 | the loop over the primary keys throws for the first key `isset` rejects, naming it and the table; otherwise it yields the row without the primary keys, one `"p = ?"` fragment per key and the key values, in key order |
| Entities.FirstUnbound | src/Common/Modules/Entities/AbstractEntity.php:271-274 | names the first primary key that `isset` rejects; every key before it passes |
| Entities.UpdateFindsAllKeys | src/Common/Modules/Entities/AbstractEntity.php:271-280 | `update` gets past every key exactly when the payload holds all primary keys and none is listed twice |
| Entities.IssetEntry | src/Common/Modules/Entities/AbstractEntity.php:272 | in an array with distinct keys, `isset($a[k])` holds exactly when an entry with key `k` holds a value other than null |
| Entities.IssetAfterUnset | src/Common/Modules/Entities/AbstractEntity.php:271-279 | in a payload without nulls, `isset` after unsetting some keys holds exactly for the payload keys not unset, which read as before |
| Entities.UpdateStep | src/Common/Modules/Entities/AbstractEntity.php:271-279 | one turn of the loop: `isset` fails exactly at an unbound key, which is then the first one; otherwise the key reads its payload value and unsetting it extends the unset prefix |
| Entities.FragmentsStep | src/Common/Modules/Entities/AbstractEntity.php:276 | each key adds its `"p = ?"` fragment at the end |
| Entities.WhereValuesStep | src/Common/Modules/Entities/AbstractEntity.php:277 | each key adds its payload value at the end of the bound values |
| Entities.JoinAppend | src/Common/Modules/Entities/AbstractEntity.php:282 | `implode` of two non-empty lists one after the other is their two implodes joined by the separator |
| Entities.WhereClauseStep | src/Common/Modules/Entities/AbstractEntity.php:276-282 | each further primary key adds `" AND p = ?"` to the WHERE clause |
| Entities.AbstractEntity.Save | src/Common/Modules/Entities/AbstractEntity.php:235-246 | an empty id or an entity that was never assembled is inserted: the id becomes the generated one and is returned. Otherwise it updates and returns the unchanged id, or the update's error. The loaded flag is never changed |
| Conversion.ConvertToArray | src/Common/Modules/Entities/Helper.php:33-47 | the keys of the result are input keys; a key is present exactly when its element is an `Entity`, and then holds that element's `toArray()` |

## Left out

- The database handle (`CommonModel::getContainer()->get('database')`, SpoonDatabase `getRecord`, `insert`, `update`) is not part of this model. Each call is a ghost log entry, and what the database returns is a method parameter. Database exceptions are not modelled.
- Entities.AssembleLastWriteWins, Entities.AssembleStoresNull, Entities.AssembleIdempotent: a setter of a concrete entity is modelled as storing its argument unchanged into one property. A setter that converts its argument, or runs other code, is not modelled, and these three hold only for setters of that form.
- `SpoonFilter::toCamelCase` and `method_exists` are not part of this model. An entity's setters are a table from record keys to what the setter does. That table stands for both the camel-case conversion and the method lookup.
- `get_object_vars` is replaced by the entity's ordered property list. PHP visibility rules do not matter here.
- The class `Entity` that `convertToArray` tests with `instanceof` is not part of this model. Which entity objects are instances of it is a parameter.
- Conversion.ConvertToArray: the recursive call on a nested array is not made. That call changes nothing and its result is dropped.
- Entities.AbstractEntity.ToArray: two selected properties can share a snake-case name, an array property coming after another property. PHP then writes the array's rows into the earlier value: it merges them into an earlier array, creates the array over an earlier null or `false`, and fails with an error over any other earlier scalar or an object. The model replaces the earlier value with the rows in every case.
- Nested entities are value snapshots of the state `toArray` reads. Aliasing between entity objects is not modelled. Snapshots also rule out cycles: in PHP, two entities that list each other inside array properties make `toArray` call itself without end (AbstractEntity.php:220-221).
- `getId`, `getTable` and `getQuery` are plain field reads: `Id()`, `table` and `query`.
- `is_numeric` accepts only integers and integer strings: floats, exponents and the other numeric-string forms are not modelled. `(int)` of a string reads leading whitespace, a sign and digits. Integers are unbounded, so PHP's integer overflow is not modelled.
- `[[:upper:]]` and `strtolower` are modelled on ASCII letters only. Locale-dependent behaviour is not modelled.
- PHP's integer array keys are modelled as their decimal strings.

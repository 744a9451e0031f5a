# SPODS core in Dafny

This project models the core of SPODS, a small object-relational mapping layer over SQLite, and proves properties of the model. The core is one file, `spods.py`, and it has three parts:

- **Fields.** A `Field` describes one column: its title, its Python type, `null`, `default` and `pk`. A fixed type table turns the Python type into a storage type (`TEXT`/`INTEGER`) and a converter.
- **Tables.** A `Table` is a title plus an ordered list of fields. It renders its `CREATE TABLE` statement and answers `is_field`.
- **Live records.** The class `link_table` returns is a record bound to one row. The row is found by the record's `id`. The record has keyed get, set and delete, a constructor (insert-or-load), `read_sync` and `write_sync`.

Modules:

- `Values` (`values.dfy`): field values (`Null`, `Int`, `Text`), the exceptions the core raises, and a `Result` type.
- `Schema` (`schema.dfy`): `Field`, the type table, `NewField`, `Table`, `IsField`.
- `Ddl` and `ClauseReading` (`ddl.dfy`): the CREATE TABLE statement, and a reader that decodes a column definition back into field attributes.
- `RowStore` (`store.dfy`): what the SQL statements do to the table's rows. Rows are stored as `map<int, map<string, Value>>`, keyed by id, plus a counter for new ids. `Valid` is the invariant of a store created from the table. A declared `id` field is `INTEGER PRIMARY KEY` (`IdIsRowid`), so SQLite makes it the rowid. Every row has exactly the declared columns, its id column equals its key, NOT NULL columns hold no NULL, and every id lies below the counter.
- `Linked` (`linked.dfy`): the record operations, written as pure state transitions over a store and the record's map (`self.data`).
- `LinkedProperties` (`linked_properties.dfy`): lemmas that relate operations to each other: write-through, round trips, construction.

Three behaviours of the code are easy to miss, and the model follows the code in each:

- The constructor's docstring (spods.py:150-153) says that a given id loads the existing record. The `read_sync` docstring (spods.py:173-174) says the id is relied on to match a row. Neither is checked. Constructing a record with the id of a missing row raises nothing, and the record keeps only `{'id': id}` (`ConstructMissing`).
- In set and delete the map is updated only after the store statement. A failing statement therefore leaves the record's map unchanged.
- Delete never completes (see Findings).

Set, delete and read-sync read the record's id as `self.id`. When the table has an `id` field, `self.id` is the property generated for it (spods.py:108-112), so it reads `self['id']`. A missing `"id"` in the map is then the missing-key error. When the table has no `id` field, no such property exists. Ordinary attribute lookup then raises an `AttributeError`, the same exception class `__getitem__` raises for an undeclared key. The model gives the unknown-field error for `"id"` in that case.

## Model

| member | source | states |
|---|---|---|
| Schema.NewField | spods.py:10-27 | `str` resolves to TEXT with the `str` converter, `int` to INTEGER with `int`, and `tuple` to TEXT with `json.dumps`. With no Python type, both the storage type and the converter are absent. Any other type fails construction with the type-table lookup error. Construction keeps the given attributes. |
| Schema.AnyTitled | spods.py:70-73 | The scan is true exactly when some field of the list has the title. |
| Schema.IsField | spods.py:69-73 | `is_field(k)` holds exactly when some declared field is titled `k`. |
| Schema.TitlesOf | spods.py:70-73 | The set of titles contains a name exactly when the scan finds a field with that title. |
| Ddl.CreateTableStmt | spods.py:34-67 | With `force`, the statement starts `CREATE TABLE <title> (`; without it, `CREATE TABLE IF NOT EXISTS <title> (`. It always ends with `)`. For a non-empty field list it is the header, the field fragments in declared order joined by ` ,`, and ` )`, so exactly the trailing comma is dropped. For an empty list the dropped character is the opening parenthesis: `CREATE TABLE [IF NOT EXISTS] <title> )`. |
| Ddl.FieldFragment | spods.py:40-61 | A field's fragment is its words, each padded by one space on each side, in this order: title, storage type, NOT NULL, `DEFAULT <literal>`, PRIMARY KEY. |
| Ddl.TerminatedIsJoinPlusComma | spods.py:60-64 | Emitting each fragment followed by ` ,` gives the fragments joined by ` ,` plus one final ` ,`, so removing the last character strips the trailing comma only. |
| Ddl.CloseStatement | spods.py:63-65 | Dropping the last character and appending `)` closes the statement as stated for `CreateTableStmt`, for both empty and non-empty field lists. |
| ClauseReading.ClauseRoundTrip | spods.py:40-61 | A column definition reads back as its field's attributes. The storage type appears exactly when the field has one. NOT NULL appears exactly when `null` is False, so None emits nothing. DEFAULT appears exactly when a default is set, carrying the rendered literal. PRIMARY KEY appears exactly when `pk` is True. |
| ClauseReading.ClauseWordsDetermineAttributes | spods.py:40-61 | Two fields with the same column definition agree on title, storage type, NOT NULL and primary key. They also agree on whether a default is set and on its rendered literal `repr(default)`; they need not agree on the default value itself, since two values can render alike. |
| RowStore.Lookup | spods.py:176-177 | `WHERE id = ?` matches a row exactly when the parameter is the integer key of a stored row. |
| RowStore.Insert | spods.py:159-163 | Without an `id` column the insert fails with "no such column". If a NOT NULL column other than the id has no default, it fails with a NOT NULL violation. Otherwise it adds exactly one row under an id no row had (`lastrowid`). The new row holds that id and the declared defaults, and the store stays valid. |
| RowStore.UpdateColumn | spods.py:130-132 | Updating an undeclared column fails with "no such column". If no row matches, the store is unchanged. For a matched row the update succeeds exactly when SQLite accepts the value (`Accepts`). The id column takes only an integer that no other row holds; otherwise it fails with a datatype mismatch (not an integer) or a UNIQUE violation (another row's id). Any other column refuses NULL when it is NOT NULL, with a NOT NULL violation. On success, a non-id column changes only that cell of the matched row. Setting the id moves the row to the new key with its id cell rewritten, and leaves every other row as it was. A valid store stays valid. |
| RowStore.MoveRow | spods.py:130-132 | Writing an accepted integer into the id column of a matched row moves that row: the row ids lose the old key and gain the new one, the moved row is the old row with its id cell rewritten, no other row changes, and a valid store stays valid. |
| RowStore.UpdateColumns | spods.py:188-200 | With no matching row the store is unchanged. A NULL in a NOT NULL column fails with a NOT NULL violation and nothing else fails. On success the matched row becomes exactly the given values and no other row changes. |
| Linked.Get | spods.py:117-122 | An undeclared key raises the unknown-field error. A declared key absent from the map raises the missing-key error. Otherwise the result is `data[key]`. The store is not an input. |
| Linked.Set | spods.py:124-135 | An undeclared key raises the unknown-field error, with no new state. Set succeeds exactly when the key is declared, the record's id can be read, and, if the record's row exists, SQLite accepts the value for that column. A failure after the guard is the id error (unknown field or missing key) or the store's refusal. On success, `get(key)` returns the value set, every other key reads as before, and the map gains only `key`. A valid store stays valid. |
| Linked.DeleteAsWritten | spods.py:137-146 | An undeclared key raises the unknown-field error before any store action. If the store rejects UPDATE with LIMIT, the store is unchanged. A valid store stays valid. |
| Linked.Delete | spods.py:137-146 | Corrected delete: an undeclared key raises the unknown-field error. Delete succeeds exactly when the key is declared, the record's id can be read, and, if the record's row exists, SQLite accepts NULL in that column (not the id, not a NOT NULL column). On success, `get(key)` raises the missing-key error, every other key reads as before, and a valid store stays valid. A failure after the guard is the id error (unknown field or missing key) or the store's refusal of NULL. |
| Linked.ReadSync | spods.py:172-182 | It fails only when the id cannot be read through the keyed interface. If no row has the record's id, the map is returned unchanged and no error is raised. Otherwise every declared field is overwritten from the row and the other keys keep their values. |
| Linked.Collect | spods.py:190-193 | Collecting the SET arguments succeeds exactly when every declared field is in the map. The result holds each declared field's map value. A failure names a declared field missing from the map. |
| Linked.WriteSync | spods.py:184-200 | Write-sync succeeds exactly when every declared field is in the map, the table has an `id` field and, if the record's row exists, no NOT NULL column gets NULL. The failures follow the order of the source: a declared field missing from the map is reported first; with every field present, a table without an `id` field gives the unknown-field error for `"id"`; only after both pass can the update fail, and then only with a NOT NULL violation. With no matching row the store is unchanged. Otherwise, in one step, the record's row becomes exactly the map's values of the declared fields (`RowOf`), no other row changes, and the store stays valid. |
| Linked.Construct | spods.py:149-169 | Without an id, the record's id is the id of a row that did not exist before and does now. With an id, the store is unchanged and the record's id is the one given. Failures come from the store (no id given) or from reading the id (id given). |
| LinkedProperties.SetWritesThrough | spods.py:124-135 | After a successful set the map is `data[key := value]`. With no matching row the store is unchanged. Otherwise the row the record now refers to is the old row with `key` set to the value, and no other row changes. Unless `key` is `id`, the row keeps its id and the set of row ids is unchanged. Setting `id` needs an integer, and it moves the row from its old key to that integer, so the set of row ids loses the old key and gains the new one. |
| LinkedProperties.SetIsDurable | spods.py:129-135 | Reading the row back after a successful set yields the value set, whether or not the row existed. |
| LinkedProperties.ReadSyncIdempotent | spods.py:172-182 | Read-sync twice is the same as read-sync once. |
| LinkedProperties.WriteThenRead | spods.py:184-200 | After a successful write-sync, read-sync returns the record's map unchanged. |
| LinkedProperties.ReadThenWrite | spods.py:172-200 | Writing back a map just read from an existing row succeeds and leaves the store exactly as it was. |
| LinkedProperties.ConstructNew | spods.py:157-169 | Construction without an id succeeds exactly when the table has an `id` field and every NOT NULL column other than the id has a default. It then adds exactly one row, under a fresh id, holding the declared defaults. The record's map is that row. |
| LinkedProperties.ConstructExisting | spods.py:165-169 | Construction with the id of an existing row inserts nothing, and the record's map equals that row on every declared field. |
| LinkedProperties.ConstructMissing | spods.py:165-182 | Construction with an id no row has succeeds, inserts nothing and leaves the map holding only the id. |
| LinkedProperties.ConstructTwiceDistinct | spods.py:157-163 | When inserts succeed, two records constructed one after the other without ids both succeed and get different ids. |
| LinkedProperties.DeleteAsWrittenAlwaysRaises | spods.py:142-146 | Delete as written raises on every input. A store that rejects UPDATE with LIMIT raises a syntax error and is left unchanged. A store that accepts it has the column nulled and then reaches the recursion limit. |
| LinkedProperties.DeleteNullsColumn | spods.py:137-146 | The corrected delete removes the key from the map. It sets the column of the record's row to NULL and changes nothing else, and it never applies to the id of an existing row. Read-sync afterwards brings the key back as NULL. |

## Left out

- SQLite plumbing is not modelled: connections, cursors, `row_factory`, `cur.close()` and the SQL text of the DML statements (spods.py:82-87, 130-132, 159-164, 175-178, 198-200). Only their effect on the row store is modelled.
- `link_table` runs the CREATE TABLE statement at bind time; that run is not modelled. `ReadSync`, `WriteSync` and `Construct` require `RowStore.Valid`, which states that the store's table is the one created from the same `Table`.
- The per-field `property` objects (spods.py:91-113) and the `IterableUserDict` base are not modelled. They are reflection over the keyed interface, which is modelled. Field titles that clash with the class's own attributes (`data`, method names) are not modelled either.
- Python's `%r` rendering of defaults is the parameter `repr` of the DDL functions. `json.dumps` and the other converters are named but never applied, because the code never calls `type_converter`.
- Ddl.CreateTableStmt: a tuple default is not representable in the model. At spods.py:54, `%` takes a tuple default as its own argument tuple. An empty or multi-element tuple then raises `TypeError`, and a one-element tuple renders only its element.
- Integers are unbounded in the model. The SQLite driver binds only 64-bit signed integers and raises `OverflowError` for a larger Python `int`. That failure of set, write-sync and construct-with-id is not modelled.
- Strings are sequences of characters. Under Python 2 the driver refuses a byte string holding non-ASCII bytes with `ProgrammingError`; that failure is not modelled.
- Values are limited to NULL, integers and strings. SQLite's type affinity is not modelled: not in matching (`'5'` matching id 5), and not in the conversion on storage described below; and neither are floats, blobs or tuples that the driver cannot bind.
- RowStore.Valid: requires `IdIsRowid`, so a declared `id` field is `INTEGER PRIMARY KEY`. A table whose `id` is a plain column is not modelled. On such a table SQLite stores NULL in `id` on insert, `lastrowid` is the hidden rowid, and read-sync then finds no row. A PRIMARY KEY on another column, and the uniqueness SQLite enforces for it, are not modelled either.
- RowStore.Insert: the id column is found by its exact title, as `is_field` finds fields. SQLite matches column names without regard to case, so on a table whose key field is titled `ID`, `INSERT INTO t (id)` succeeds where the model reports "no such column".
- Linked.Construct: on that same table the source inserts a row, then raises an `AttributeError` from `self.id` in `read_sync`, and the new row stays in the store. The model returns the store error with the store unchanged.
- RowStore.Insert: a new id comes from a counter above every id used so far. SQLite takes max(rowid)+1. Both give a fresh id; only freshness is stated. The new row holds the field's Python default as it is. SQLite stores its own reading of the `%r` literal in the DEFAULT clause instead. That reading can differ: the default `a\b` renders as `'a\\b'`, and SQLite keeps both backslashes. Some literals do not parse at all: `u'x'` and `5L` make the CREATE TABLE statement itself a syntax error.
- Linked.DeleteAsWritten: the unbounded re-entry of `del self[key]` is collapsed into one step. That step repeats the same idempotent update and then raises the recursion-limit error.
- Linked.Collect: states that the missing field it reports is declared and absent from the map. It does not state that it is the first such field in declared order.
- Linked.WriteSync: when several declared fields are missing from the map, the model does not state that the one reported is the first in declared order. When several columns violate NOT NULL, it does not model which column the store's message names.
- LinkedProperties.SetIsDurable: holds in the program only for a value whose kind fits the column. SQLite's type affinity converts on storage: an integer written to a TEXT column reads back as text, and a numeric string written to an INTEGER column reads back as an integer. The model stores values unconverted.
- LinkedProperties.WriteThenRead: holds in the program only when every value's kind fits its column, for the same storage conversion.
- Concurrency and consistency across several record instances of one row are not modelled; the code attempts neither.
- The `__main__` smoke test and its prints (spods.py:208-232) are not modelled.

## Findings

| source | as written | input that shows it | evidently intended | confidence | as-written member | corrected member |
|---|---|---|---|---|---|---|
| spods.py:146 | After nulling the column, `del self[key]` calls `__delitem__` again. Each call repeats the update and re-enters, until the interpreter's recursion limit raises, so delete never returns normally. | A table `items` with fields `id` and `name`, a record `r = Item()`, and `del r['name']` on a store that accepts UPDATE with LIMIT. | Remove the key from the record's map (`del self.data[key]`). | high; not executed | LinkedProperties.DeleteAsWrittenAlwaysRaises | LinkedProperties.DeleteNullsColumn |
| spods.py:143 | `UPDATE ... LIMIT 1` parses only in SQLite builds with UPDATE/DELETE LIMIT enabled. A default build raises a syntax error before the store changes. | The same `del r['name']` on a default SQLite build. | An UPDATE without LIMIT. The WHERE on the primary key already selects at most one row. | medium; not executed | Linked.DeleteAsWritten | Linked.Delete |

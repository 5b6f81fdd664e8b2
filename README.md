# Schema synchroniser model

A Dafny model of the schema synchronisation core of a small Java/MySQL persistence
layer. Entities carry `@Table` and `@Column` annotations; the synchroniser

1. generates a `create table if not exists` script from them (`DDLgenerator`);
2. splits that script on `;` and hands the pieces to a JDBC batch (`CrutchNate.executeDDL`);
3. takes the schema name from the JDBC URL (`CrutchNate.getSchemaName`);
4. reads the live columns of every declared table from `information_schema.COLUMNS` and
   reconciles them with the declarations: each missing column gets an
   `ALTER TABLE t ADD COLUMN …`, then each live column no entity declares gets an
   `ALTER TABLE t DROP …` (`SchemaValidator`).

Files:

- `wrappers.dfy`: `Option`.
- `text.dfy`, module `Text`:
  - the string operations the core relies on (`lastIndexOf`, `replace(",", "")`, `"" + int`);
  - `StringBuilder` and `StringList` as classes updated in place.
- `ddl_generator.dfy`, module `DdlGenerator`:
  - the annotations as datatypes;
  - the script as functions (`ColumnLine`, `TableBody`, `TableDdl`, `Script`);
  - the generator's own methods over builders changed in place, each proved equal to those functions;
  - lemmas about the text the generator produces.
- `schema_validator.dfy`, module `SchemaValidation`:
  - the live catalogue and the JDBC template as a class `Connection` whose log records every statement the database accepted;
  - the missing-column map as a class `ColumnListMap`;
  - `SchemaValidator`, whose methods are proved against the function `Plan`: the add statements, then the drop statements, that one pass issues;
  - lemmas that say which statements `Plan` contains, in which order, and that it is empty for a database already in step with the entities.
- `crutch_nate.dfy`, module `CrutchNate`:
  - `getSchemaName`;
  - Java's `String.split` with a one-character separator and its round trip;
  - the array step of `executeDDL`.

Modelling decisions:

- **A thrown exception becomes a result value.**
  - `StringBuilder.replace(-1, 0, "")` throws when a table text holds no comma. `Replace`, `GenerateTableDdl` and `Process` report this as `false`/`None`.
  - `executeDDL` writes `split[split.length - 1]`, which throws on an empty split. `ExecuteDdl` reports this as `ok == false`.
  - `validate` wraps the whole pass in one `try`, so the first rejected statement ends the pass. Earlier statements stay applied. `Applied(stmts, rejects)` is the prefix of `stmts` that runs before that first rejection.
- **The database is `Connection`.**
  - A fixed catalogue of `(TABLE_SCHEMA, TABLE_NAME, COLUMN_NAME)` rows stands for `information_schema.COLUMNS`.
  - A fixed set of statement texts stands for the statements the server would reject.
  - `update` appends each accepted statement to `log`.
- **HashMap iteration order is a parameter.** The iteration order of each `HashMap.entrySet()` is a sequence of table names, with each declared table exactly once. The two maps `validate` builds can have different capacities and so different orders, so `Plan` and `Validate` take one order for the missing-column map (`addOrder`) and one for the live map (`dropOrder`).
- **Entity order is the caller's.** The entity `Set` is modelled as a sequence in the caller's order.
- **A failed statement ends the whole pass.** One `try` wraps all of `validate` (SchemaValidator.java:30-43), so no statement after the first rejected one is issued, and a rejected ADD COLUMN means no DROP runs.
- **`not null` suppresses ` UNIQUE`.** In `addOtherConstraints` `?:` binds looser than `+` (DDLgenerator.java:58), so ` UNIQUE` is emitted only for a column that is not `notNull` (`AddOtherConstraints`).

## Model

| member | source | states |
|---|---|---|
| `Text.LastOccurrenceSpec` | src/main/java/generator/DDLgenerator.java:33 | `lastIndexOf` gives an index holding the character with none after it, or -1 |
| `Text.RemoveAll` | src/main/java/com/pro/utils/validator/SchemaValidator.java:92 | after `replace(",", "")` no comma is left, nothing grows, and a text without commas is unchanged |
| `Text.IntToStringRoundTrip` | src/main/java/generator/DDLgenerator.java:62 | the printed column length parses back to the same integer |
| `Text.IntToStringChars` | src/main/java/generator/DDLgenerator.java:62 | a printed integer holds only a minus sign and digits, so never a comma |
| `Text.StringBuilder.Replace` | src/main/java/generator/DDLgenerator.java:33 | `replace(start, end, str)` succeeds exactly when `0 <= start <= length` and `start <= end`, and then splices `str` in place of `[start, min(end, length))`; otherwise the text is unchanged |
| `DdlGenerator.AppendFieldDdl` | src/main/java/generator/DDLgenerator.java:29 | the builder grows by exactly the column line of the field |
| `DdlGenerator.GenerateKeyConstraint` | src/main/java/generator/DDLgenerator.java:43-55 | the list grows by the PRIMARY KEY clause of a primary-key field, then the FOREIGN KEY clause of a field with exactly one foreign key |
| `DdlGenerator.AppendKeyConstraints` | src/main/java/generator/DDLgenerator.java:37-41 | the builder grows by every constraint followed by `,\n`, in list order |
| `DdlGenerator.AddField` | src/main/java/generator/DDLgenerator.java:27-31 | one field adds its column line to the text and its key clauses to the list |
| `DdlGenerator.BuildTableBody` | src/main/java/generator/DDLgenerator.java:24-32 | the table text is the header, every field's line in declaration order, then every key clause in field order |
| `DdlGenerator.GenerateTableDdl` | src/main/java/generator/DDLgenerator.java:23-35 | the full script grows by the table's block exactly when that block is defined; when `replace` throws, the script is unchanged |
| `DdlGenerator.Process` | src/main/java/generator/DDLgenerator.java:15-21 | the result is the concatenated script of all tables, or None when any table throws |
| `DdlGenerator.TypeToStringSpec` | src/main/java/generator/DDLgenerator.java:61-63 | the type text starts with the data type; it is the data type alone exactly when the length is -1, otherwise the length follows in parentheses |
| `DdlGenerator.AddOtherConstraintsSpec` | src/main/java/generator/DDLgenerator.java:57-59 | the suffix is `  not null` exactly when notNull; ` UNIQUE` exactly when unique and not notNull; empty otherwise |
| `DdlGenerator.KeyConstraintsMember` | src/main/java/generator/DDLgenerator.java:43-55 | a clause comes from a field exactly when it is that field's PRIMARY KEY clause or its single foreign key's clause |
| `DdlGenerator.ConstraintsMember` | src/main/java/generator/DDLgenerator.java:25-31 | a clause is in the constraint list exactly when some field contributes it |
| `DdlGenerator.ConstraintCounts` | src/main/java/generator/DDLgenerator.java:43-55 | one PRIMARY KEY clause per primary-key field; the list's length is the number of primary-key fields plus the number of single-foreign-key fields |
| `DdlGenerator.TableDdlDefined` | src/main/java/generator/DDLgenerator.java:33 | a table's block is defined exactly when the table has a field or its name holds a comma; a field-less table whose name holds no comma throws |
| `DdlGenerator.CloseBlockShape` | src/main/java/generator/DDLgenerator.java:33 | on a text that starts with the header and ends with `,\n`, the last comma is the separator and its deletion leaves the header in place |
| `DdlGenerator.TableDdlShape` | src/main/java/generator/DDLgenerator.java:24-34 | for a table with fields, the block is the table text without its trailing `,\n`, then `\n);\n\n`; it starts with the `create table if not exists` header |
| `DdlGenerator.ScriptBlocks` | src/main/java/generator/DDLgenerator.java:15-19 | when every table has a block, the script is their concatenation in entity order |
| `DdlGenerator.ScriptFails` | src/main/java/generator/DDLgenerator.java:17-19 | one table that throws makes the whole script fail |
| `DdlGenerator.ScriptEnding` | src/main/java/generator/DDLgenerator.java:33-34 | a non-empty generated script ends with `);\n\n` |
| `DdlGenerator.LastOccurrenceFound` | src/main/java/generator/DDLgenerator.java:33 | `lastIndexOf(",")` is non-negative exactly when the text holds a comma |
| `SchemaValidation.Query` | src/main/java/com/pro/utils/validator/SchemaValidator.java:19 | the rows returned are exactly the catalogue rows of the given table and schema |
| `SchemaValidation.Connection.QueryColumns` | src/main/java/com/pro/utils/validator/SchemaValidator.java:112-115 | the query returns the catalogue rows of that table in that schema |
| `SchemaValidation.Connection.Update` | src/main/java/com/pro/utils/validator/SchemaValidator.java:72 | the statement succeeds exactly when the server accepts it; only then is it appended to the log |
| `SchemaValidation.AppliedSpec` | src/main/java/com/pro/utils/validator/SchemaValidator.java:30-43 | what runs is a prefix of the statements, all accepted; when it is shorter, the next statement is rejected; all run exactly when all are accepted |
| `SchemaValidation.AppliedAppend` | src/main/java/com/pro/utils/validator/SchemaValidator.java:38-39 | the second phase runs only when the whole first phase went through |
| `SchemaValidation.Snapshot` | src/main/java/com/pro/utils/validator/SchemaValidator.java:107-119 | the live map has a key for each declared table, holding exactly its catalogue rows in the schema |
| `SchemaValidation.SnapshotSnoc` | src/main/java/com/pro/utils/validator/SchemaValidator.java:109-117 | one more entity puts its table's query result into the map |
| `SchemaValidation.FindLive` | src/main/java/com/pro/utils/validator/SchemaValidator.java:49 | `findFirst` finds a row exactly when some live row has the column's name, and the row it finds has that name |
| `SchemaValidation.MissingForSpec` | src/main/java/com/pro/utils/validator/SchemaValidator.java:46-54 | examining one entity appends its non-live fields to the list of its table, creates the key only when something is missing, and keeps every other key |
| `SchemaValidation.MissingMapSpec` | src/main/java/com/pro/utils/validator/SchemaValidator.java:33-37 | after the entity loop each table's list is the old list plus the table's missing columns, entity by entity |
| `SchemaValidation.NotLiveMember` | src/main/java/com/pro/utils/validator/SchemaValidator.java:47-52 | a field is missing exactly when it is declared and no live row has its name |
| `SchemaValidation.MissingOfMember` | src/main/java/com/pro/utils/validator/SchemaValidator.java:33-54 | a column is missing from table `t` exactly when some entity of `t` declares it and `t` has no live column of its name |
| `SchemaValidation.MissingOfDeclared` | src/main/java/com/pro/utils/validator/SchemaValidator.java:33-37 | only declared tables have missing columns |
| `SchemaValidation.MissingIff` | src/main/java/com/pro/utils/validator/SchemaValidator.java:29-37 | the missing-column map lists a column under `t` exactly when it is declared for `t` and not live; its keys are declared tables |
| `SchemaValidation.MapOrderMember` | src/main/java/com/pro/utils/validator/SchemaValidator.java:81 | the entry-set iteration visits exactly the map's keys that the iteration order lists |
| `SchemaValidation.AddsFor` | src/main/java/com/pro/utils/validator/SchemaValidator.java:82-84 | one ADD COLUMN per missing column of the entry, in list order |
| `SchemaValidation.AddsOverMember` | src/main/java/com/pro/utils/validator/SchemaValidator.java:79-86 | an ADD COLUMN for `(t, c)` is issued exactly when `t` is visited and `c` is in its list |
| `SchemaValidation.FirstIndex` | src/main/java/com/pro/utils/validator/SchemaValidator.java:60 | the target entity is the first whose table name matches the row |
| `SchemaValidation.DropsForRowsMember` | src/main/java/com/pro/utils/validator/SchemaValidator.java:59-65 | a DROP of `(t, n)` comes from a table's rows exactly when `n` is live in `t` and is not a field name of the first entity of `t` |
| `SchemaValidation.IsColumnNotExistIff` | src/main/java/com/pro/utils/validator/SchemaValidator.java:75-77 | a live column does not exist in an entity exactly when the entity declares no field of its name |
| `SchemaValidation.DropsOverMember` | src/main/java/com/pro/utils/validator/SchemaValidator.java:56-67 | over the visited tables, a DROP of `(t, n)` is issued exactly when `t` is visited, `n` is live there and undeclared |
| `SchemaValidation.PlanAddIff` | src/main/java/com/pro/utils/validator/SchemaValidator.java:28-38 | a pass adds column `c` to `t` exactly when an entity of `t` declares `c` and no live column of `t` has its name |
| `SchemaValidation.PlanDropIff` | src/main/java/com/pro/utils/validator/SchemaValidator.java:28-39 | a pass drops column `n` from `t` exactly when `n` is live in `t` and the first entity of `t` declares no field of that name |
| `SchemaValidation.AddsBeforeDrops` | src/main/java/com/pro/utils/validator/SchemaValidator.java:38-39 | no ADD COLUMN follows a DROP in a pass |
| `SchemaValidation.NoAddAndDrop` | src/main/java/com/pro/utils/validator/SchemaValidator.java:28-39 | no column name is both added to and dropped from the same table in one pass |
| `SchemaValidation.Convergence` | src/main/java/com/pro/utils/validator/SchemaValidator.java:28-44 | when every declared table's live column names are exactly its field names, a pass issues nothing |
| `SchemaValidation.ClauseNoComma` | src/main/java/com/pro/utils/validator/SchemaValidator.java:91-92 | a column line holds no comma before its separator when the name and data type hold none |
| `SchemaValidation.AddColumnSql` | src/main/java/com/pro/utils/validator/SchemaValidator.java:88-93 | for such a column, the ADD COLUMN statement is the column line without its trailing `,` |
| `SchemaValidation.ColumnListMap.Put` | src/main/java/com/pro/utils/validator/SchemaValidator.java:104 | `put` maps the key to the new list and keeps every other entry |
| `SchemaValidation.SchemaValidator.constructor` | src/main/java/com/pro/utils/validator/SchemaValidator.java:23-26 | the validator keeps the connection and the schema name it is given |
| `SchemaValidation.SchemaValidator.Validate` | src/main/java/com/pro/utils/validator/SchemaValidator.java:28-44 | the log grows by the statements of the plan computed from the snapshot, with each map iterated in its own order, up to the first rejected one |
| `SchemaValidation.SchemaValidator.ExemineForMissingColumn` | src/main/java/com/pro/utils/validator/SchemaValidator.java:46-54 | each field of the entity with no live row of its name is put into the map under the table, in field order |
| `SchemaValidation.SchemaValidator.PutMissingColumn` | src/main/java/com/pro/utils/validator/SchemaValidator.java:96-105 | the column is appended to the table's list, which is created empty when absent |
| `SchemaValidation.SchemaValidator.GetEntitiesFromDb` | src/main/java/com/pro/utils/validator/SchemaValidator.java:107-119 | the returned map is the snapshot of the catalogue for the declared tables |
| `SchemaValidation.SchemaValidator.AddMissingColumns` | src/main/java/com/pro/utils/validator/SchemaValidator.java:79-86 | the log grows by the ADD COLUMN statements of the map in iteration order, up to the first rejected one; `ok` says whether all went through |
| `SchemaValidation.SchemaValidator.AddTableColumns` | src/main/java/com/pro/utils/validator/SchemaValidator.java:82-84 | the same for the columns of one entry |
| `SchemaValidation.SchemaValidator.AddColumnToDbTable` | src/main/java/com/pro/utils/validator/SchemaValidator.java:88-94 | exactly the ADD COLUMN text of the column is sent; it is logged only when it is accepted |
| `SchemaValidation.SchemaValidator.DeleteColumns` | src/main/java/com/pro/utils/validator/SchemaValidator.java:56-67 | the log grows by the DROP statements over the live map in iteration order, up to the first rejected one |
| `SchemaValidation.SchemaValidator.DeleteTableColumns` | src/main/java/com/pro/utils/validator/SchemaValidator.java:59-65 | the same for the rows of one table |
| `SchemaValidation.SchemaValidator.DeleteColumn` | src/main/java/com/pro/utils/validator/SchemaValidator.java:69-73 | exactly the `ALTER TABLE t DROP n` text is sent; it is logged only when it is accepted |
| `CrutchNate.SchemaName` | src/main/java/com/pro/services/CrutchNate.java:47-50 | the schema name is the URL's suffix after its last `/`, holding no `/`; a URL without `/` comes back whole |
| `CrutchNate.TrimTrailingEmpty` | src/main/java/com/pro/services/CrutchNate.java:42 | drops exactly the trailing empty pieces: a prefix whose last piece is non-empty, with only empty pieces after it |
| `CrutchNate.FragmentsJoin` | src/main/java/com/pro/services/CrutchNate.java:42 | joining the pieces with `;` gives back the script |
| `CrutchNate.JavaSplitNoSeparator` | src/main/java/com/pro/services/CrutchNate.java:42 | no piece of the split holds a `;` |
| `CrutchNate.JavaSplitRoundTrip` | src/main/java/com/pro/services/CrutchNate.java:42 | the split with its dropped trailing empties put back is the list of pieces, and joining that with `;` gives back the script |
| `CrutchNate.JavaSplitEmptyIff` | src/main/java/com/pro/services/CrutchNate.java:42-43 | the split is empty exactly when the script is non-empty and all `;` |
| `CrutchNate.GeneratedScriptSplit` | src/main/java/com/pro/services/CrutchNate.java:42-43 | for a non-empty generated script, the last piece is the blank line after the final `);`, so nulling it drops no statement |
| `CrutchNate.ExecuteDdl` | src/main/java/com/pro/services/CrutchNate.java:41-45 | the batch has one slot per piece, holding the pieces except the last, which is null; an empty split throws (`ok` false) |

## Left out

- `CrutchNate.run` and `scanEntities`: the reflective scan of a package, the construction of the validator from a Hikari data source, and the surrounding `try` are not modelled. The entities are passed in, and the connection is passed to the `SchemaValidator` constructor.
- `DDLgenerator.process` writes `src/main/resources/schema.sql` through `Writer.overwriteTo`; `Process` returns the text instead. The caller in `CrutchNate` uses a `process` that returns that text, and that version of `DDLgenerator` is not part of this model.
- `DdlGenerator.AppendFieldDdl`: `appendFieldDDL` is not part of this model. It is assumed to emit the column line that `generateTableDDL` appends for a field.
- Reflection over `getDeclaredFields()` is not modelled. The model assumes every field carries `@Column`; in the code a field without it fails on a null annotation.
- Only the first element of `@Column.type()` is modelled, as the code reads only that element.
- `JdbcTemplate.batchUpdate` (running the batch) is not modelled: it is a database call. `ExecuteDdl` ends with the array it would be handed.
- The SQL server is a fixed catalogue plus a fixed set of rejected statements. An `ALTER` does not change the catalogue within a pass, matching the code, which queries once before altering.
- `SchemaValidation.Connection.Update`: rejection depends on the statement text alone, so a repeated text always gets the same verdict. A server rejects the second of two identical `ADD COLUMN` statements, as issued when two entities share a table and a missing column; the model does not capture that dependence on earlier statements.
- MySQL may compare table names without regard to case, depending on server settings; the `Query` filter is exact. A case-only mismatch would make the code's `findFirst().get()` throw, which is not modelled.
- `SchemaValidation.FirstIndex` requires the row's table to be declared. This always holds for rows of the snapshot, so the `NoSuchElementException` path of `get()` cannot arise here.
- Logging (`log.info`, `printStackTrace`) is left out: it is output only.
- The columns of `ColumnsDTO` other than TABLE_SCHEMA, TABLE_NAME and COLUMN_NAME are left out: the code reads no others.
- The order of `HashMap` iteration is an input per map (`addOrder`, `dropOrder`); Java's actual bucket order is not computed.
- `LinkedList` aliasing between the missing-column map and its lists is reduced to values: `putMissingColumn` re-inserts the list it appended to, so a value map gives the same contents.
- The inner loops of `addMissingColumns` and `deleteColumns` are separate methods (`AddTableColumns`, `DeleteTableColumns`), each called once per entry.

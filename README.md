# Schema-aware SQL statement builder (`Query`) in Dafny

This project models the `Query` class of `website/utilities/mysql_query.py`,
the data-access layer of a small personal web application. A `Query` object
is bound to one table. It introspects that table with `DESCRIBE`, caches the
column metadata per table name, and builds statement text by concatenation:
SELECT with optional WHERE / ORDER BY / LIMIT clauses, a COUNT query, INSERT,
and the MySQL upsert form `INSERT ... ON DUPLICATE KEY UPDATE`. Row values are
inlined as literals by a type-directed rule chain.

Modules, one per concern of the class:

- `Results` (sql_text.dfy): `Option` and `Result`.
- `SqlText` (sql_text.dfy): the Python string operations the class uses. These
  are `str.join`, `str.split` on one character, one-character `str.replace`,
  `str()` of an int, and zero-padded digits as strftime writes them. Each one
  comes with its inverse or a characterisation.
- `ColumnTypes` (column_types.dfy): DESCRIBE rows and `ColumnInfo`. It holds
  the parse of one declared type (`TYPE_RE` is modelled exactly) and the map
  that the DESCRIBE loop builds.
- `ValueRendering` (rendering.dfy): `STRING_TYPES`, `NUMBER_TYPES`, row values
  and the rule chain of `create_fields_values_for_query`. Each rule has a
  lemma, and the per-row and per-batch rendering functions specify the loops.
- `Statements` (statements.dfy): the text of every statement and Python's
  truthiness of the optional arguments.
- `MysqlQuery` (query.dfy): the `Query` class itself. It has the `table`
  constant, the `fieldInformation` cache and a `log` of executed statements.

The database is not modelled. Executing a statement appends its text to
`Query.log`. Whatever the database would answer (the DESCRIBE rows, the rows
of a SELECT, the result of SHOW TABLES) is a parameter of the method that
issues the statement. The Python exceptions raised on malformed input are
modelled as `QueryError` values:

- `data[0]` of an empty batch;
- `info` being `None` for a field the table does not have;
- `.replace` called on an int in a string-family column;
- `', '.join` meeting an int that no rule rendered. This is raised only after
  every field of the row has been through the rules, so an exception raised by
  a later field's rule comes first.

The methods return these errors instead of requiring them away.

Behaviour of the code that the model keeps:

- `field_information` is created in `__init__`, so the cache belongs to one
  `Query` object.
- A cache entry counts as a hit only when it is a non-empty map (Python
  truthiness). A table whose DESCRIBE returns no rows is described again on
  every call (`LookupTwice`).
- A string value in a column of neither family is passed through unchanged,
  without quotes. An int value there stays an int in `row_values`, and the
  row's join raises.

## Model

| member | source | states |
|---|---|---|
| `SqlText.IndexOf` | website/utilities/mysql_query.py:106 | the index found holds the character, and no earlier index does |
| `SqlText.TakeUntil` | website/utilities/mysql_query.py:106 | the result is a prefix without the character, followed in the input by that character or by the end |
| `SqlText.Split` | website/utilities/mysql_query.py:106 | `split('(')` gives at least one part, and no part holds the separator; the first part is the text before the first separator; there is more than one part iff the separator occurs |
| `SqlText.SplitSecond` | website/utilities/mysql_query.py:116-117 | the second part of a split is the text after the first separator, cut at the next one |
| `SqlText.Join` | website/utilities/mysql_query.py:89 | `str.join`; its properties are stated by `JoinAppend`, `JoinSplit` and `SplitJoin` |
| `SqlText.JoinSplit` | website/utilities/mysql_query.py:106 | joining the parts of a split with the separator gives back the original text |
| `SqlText.SplitJoin` | website/utilities/mysql_query.py:183 | splitting a `^`-join of parts that are free of `^` gives back the parts |
| `SqlText.JoinAppend` | website/utilities/mysql_query.py:86-89 | a join of a list with one more part ends in the separator and that part |
| `SqlText.ReplaceChar` | website/utilities/mysql_query.py:185 | the result has the input's length; each replaced character becomes the replacement and every other character is kept |
| `SqlText.DigitsRoundTrip` | website/utilities/mysql_query.py:181 | zero-padded fixed-width digits read back as the number when the number fits the width |
| `SqlText.NatToStringRoundTrip` | website/utilities/mysql_query.py:188 | the decimal text of a natural number reads back as that number |
| `SqlText.IntToStringRoundTrip` | website/utilities/mysql_query.py:188 | `str(n)` is well-formed int text, holds no `"`, and reads back as `n` |
| `SqlText.IntToString` | website/utilities/mysql_query.py:188 | `str(value)` of an int; `IntToStringRoundTrip` states that it reads back as the int and holds no `"` |
| `ColumnTypes.StripCloseParen` | website/utilities/mysql_query.py:8 | substituting `TYPE_RE` by nothing leaves no `)` |
| `ColumnTypes.StripCloseParenCuts` | website/utilities/mysql_query.py:8 | on text without a newline, substituting `TYPE_RE` by nothing cuts the text at the first `)` |
| `ColumnTypes.ParseColumn` | website/utilities/mysql_query.py:106-117 | the base type is the text before the first `(`; a length exists iff the type holds `(`; nullable iff the Null column is `YES` |
| `ColumnTypes.ParseColumnLength` | website/utilities/mysql_query.py:116-117 | for a type with no newline after its first `(`, the length is the text after that `(`, cut at the next `(` and then at the first `)` |
| `ColumnTypes.ParseDeclaredType` | website/utilities/mysql_query.py:106-117 | a type written `base(length)suffix` parses back into exactly that base and length |
| `ColumnTypes.ParsePlainType` | website/utilities/mysql_query.py:106-117 | a type without `(` is its own base type and has no length |
| `ColumnTypes.FieldTypesOf` | website/utilities/mysql_query.py:104-117 | the map the DESCRIBE loop builds; its properties are stated by `FieldTypesOfKeys` and `FieldTypesOfValues` |
| `ColumnTypes.FieldTypesOfKeys` | website/utilities/mysql_query.py:104-108 | the loop's map has an entry for every described field and for nothing else |
| `ColumnTypes.FieldTypesOfValues` | website/utilities/mysql_query.py:105-117 | a field's entry is the parse of the last DESCRIBE row that names it |
| `ValueRendering.STRING_TYPES` | website/utilities/mysql_query.py:9-10 | the fifteen base types whose values are quoted; `TypeFamiliesDisjoint` relates them to `NUMBER_TYPES` |
| `ValueRendering.NUMBER_TYPES` | website/utilities/mysql_query.py:11 | the eight base types whose values are written bare; `TypeFamiliesDisjoint` relates them to `STRING_TYPES` |
| `ValueRendering.TypeFamiliesDisjoint` | website/utilities/mysql_query.py:9-11 | no base type is in both lists, so at most one of the two family rules can apply; `date`, `time` and `year` are string types, `int`, `tinyint` and `bigint` number types |
| `ValueRendering.FormatDateTime` | website/utilities/mysql_query.py:181 | `strftime('%Y-%m-%d %H:%M:%S')`; `DateTimeRoundTrip` states its layout and that it reads back |
| `ValueRendering.Quote` | website/utilities/mysql_query.py:181-186 | the text wrapped in `"`: two characters longer, and dropping the first and last character gives the text back |
| `ValueRendering.DateTimeRoundTrip` | website/utilities/mysql_query.py:181 | `%Y-%m-%d %H:%M:%S` text is 19 characters long and reads back as the same instant |
| `ValueRendering.RenderNullValue` | website/utilities/mysql_query.py:189-193 | a null renders as `null` iff the column is nullable and as `""` iff it is known and not nullable; for an unknown column it raises |
| `ValueRendering.RenderStampValue` | website/utilities/mysql_query.py:180-181 | a datetime in any column renders as 21 characters: `"`, a timestamp that reads back as the same instant, `"` |
| `ValueRendering.RenderListValue` | website/utilities/mysql_query.py:182-183 | any list, in any column, renders as its elements joined with `^` |
| `ValueRendering.RenderShortList` | website/utilities/mysql_query.py:182-183 | the empty list renders as the empty text; a one-element list renders as its element |
| `ValueRendering.RenderListRoundTrip` | website/utilities/mysql_query.py:182-183 | for a non-empty list whose elements hold no `^`, splitting the rendered text at `^` recovers the elements |
| `ValueRendering.RenderStringFamily` | website/utilities/mysql_query.py:184-186 | a string in a string-family column is wrapped in `"` with no other `"` inside; each `"` becomes `'` and every other character is kept; an int there raises |
| `ValueRendering.RenderNumberFamily` | website/utilities/mysql_query.py:187-188 | an int in a number-family column renders as quote-free text that reads back as the int; a string there is passed through |
| `ValueRendering.RenderValue` | website/utilities/mysql_query.py:176-193 | the rules raise only for an unknown column or for an int in a string-family column; a value is left unrendered only when it is an int |
| `ValueRendering.RenderOtherColumns` | website/utilities/mysql_query.py:177-188 | in a column of neither family a string passes through and an int is left unrendered; a scalar in an unknown column raises |
| `ValueRendering.Keys` | website/utilities/mysql_query.py:168 | the field list holds one key per row entry, in insertion order |
| `ValueRendering.GetEntry` | website/utilities/mysql_query.py:176 | `row.get(field)` gives the value stored under the field, or null when the row lacks it |
| `ValueRendering.InfoOf` | website/utilities/mysql_query.py:177 | `field_info.get(field)` is present iff the table has the field, and then it is that field's metadata |
| `ValueRendering.RenderField` | website/utilities/mysql_query.py:176-177 | the rule chain applied to `row.get(field)` and `field_info.get(field)`; `RowPiecesValues` and `RenderRowValues` state what it yields per field |
| `ValueRendering.RowPieces` | website/utilities/mysql_query.py:171-195 | the inner loop yields one piece per field, or an exception raised by a rule, never the join's TypeError |
| `ValueRendering.RowPiecesValues` | website/utilities/mysql_query.py:174-195 | the inner loop completes iff no field's rule raises; then piece `j` is the rendering of field `j` |
| `ValueRendering.JoinTexts` | website/utilities/mysql_query.py:197 | the join yields one text per piece, or raises only the TypeError for an int |
| `ValueRendering.JoinTextsValues` | website/utilities/mysql_query.py:197 | the join succeeds iff every piece is text, and then yields those texts in order; otherwise it raises for the first int |
| `ValueRendering.RenderRow` | website/utilities/mysql_query.py:171-197 | one row: the inner loop, then the join; its properties are stated by `RenderRowValues` and `RenderRowTypeError` |
| `ValueRendering.RenderRowValues` | website/utilities/mysql_query.py:174-197 | a row renders iff each of its fields renders to text; then it holds exactly one text per field, in field order |
| `ValueRendering.RenderRowTypeError` | website/utilities/mysql_query.py:184-197 | the row raises the join's TypeError iff no field's rule raises and some field is left an int; the first such field is named |
| `ValueRendering.Tuple` | website/utilities/mysql_query.py:197 | the row's texts joined with `, ` in parentheses: dropping the first and last character gives the join back |
| `ValueRendering.RenderRows` | website/utilities/mysql_query.py:170-197 | the outer loop; its properties are stated by `RenderRowsValues` and `RenderRowsStopsAt` |
| `ValueRendering.RenderRowsValues` | website/utilities/mysql_query.py:170-197 | a batch renders iff each row does; then it holds one `(...)` tuple per row, in input order |
| `ValueRendering.FieldsValues` | website/utilities/mysql_query.py:161-199 | what `create_fields_values_for_query` returns; its properties are stated by `FieldsValuesResult` |
| `ValueRendering.FieldsValuesResult` | website/utilities/mysql_query.py:161-199 | an empty batch raises; otherwise it succeeds iff every field of the first row renders to text in every row; the field list is the first row's keys, with one tuple per row |
| `Statements.GivenText` | website/utilities/mysql_query.py:74 | `if where:` here and at line 57, false for an absent or empty string; `SelectWhereClause`, `CountStatement` and `SelectIgnoresFalsy` state its effect |
| `Statements.GivenLimit` | website/utilities/mysql_query.py:79 | `if limit:`, false for an absent limit or 0; `SelectLimitClause` and `SelectIgnoresFalsy` state its effect |
| `Statements.GivenFields` | website/utilities/mysql_query.py:54 | `if fields:`, false for an absent or empty list; `CountWithFields` states its effect |
| `Statements.GivenOrder` | website/utilities/mysql_query.py:76 | `if order_by:`, false for an absent or empty list of pairs and true for a single pair; `SelectOrderClause` and `SelectIgnoresFalsy` state its effect |
| `Statements.OrderByText` | website/utilities/mysql_query.py:84-92 | what `create_order_by` returns; its properties are stated by `OrderByOnePair`, `OrderByAppend` and `MysqlQuery.Query.CreateOrderBy` |
| `Statements.OrderByOnePair` | website/utilities/mysql_query.py:84-92 | a list that holds one pair renders the same as that pair given alone |
| `Statements.OrderByAppend` | website/utilities/mysql_query.py:86-89 | the ORDER BY terms appear in input order, joined with `, ` |
| `Statements.SelectStatement` | website/utilities/mysql_query.py:73-80 | the SELECT starts with `SELECT fields FROM table`; it is exactly that iff no optional argument is truthy; it ends with the LIMIT clause when a limit is given |
| `Statements.SelectWhereClause` | website/utilities/mysql_query.py:73-75 | ` WHERE ` follows `SELECT fields FROM table` iff `where` is truthy |
| `Statements.SelectWhereText` | website/utilities/mysql_query.py:73-75 | when `where` is truthy the statement begins `SELECT fields FROM table WHERE <where>` |
| `Statements.SelectOrderClause` | website/utilities/mysql_query.py:73-77 | ` ORDER BY ` follows the WHERE clause, or the base statement when there is none, iff `order_by` is truthy; when it does, the rendered order terms follow it |
| `Statements.SelectLimitClause` | website/utilities/mysql_query.py:79-80 | a falsy `limit` leaves the statement as with no limit; a truthy one appends ` LIMIT <n>` to that statement |
| `Statements.SelectEnding` | website/utilities/mysql_query.py:73-80 | with no limit the statement ends with ` ORDER BY <terms>`, else with ` WHERE <where>`, else it is `SELECT fields FROM table` |
| `Statements.SelectIgnoresFalsy` | website/utilities/mysql_query.py:74-80 | an empty WHERE, LIMIT 0 and an empty ORDER BY list build the same text as absent arguments |
| `Statements.CountStatement` | website/utilities/mysql_query.py:53-58 | the COUNT query starts with the alias and ends with `FROM table` and then the WHERE clause when one is given; it is bare iff no fields and no WHERE are given |
| `Statements.CountWithFields` | website/utilities/mysql_query.py:53-58 | `, ` follows the count alias iff `fields` is truthy; the comma-separated fields then come before ` FROM table`, with or without a WHERE clause |
| `Statements.AssignmentRoundTrip` | website/utilities/mysql_query.py:137 | the field name can be read back out of `f=VALUES(f)` |
| `Statements.UpdateItemsFields` | website/utilities/mysql_query.py:135-138 | the update list has one assignment per field, in field-list order; distinct fields give distinct assignments |
| `Statements.InsertStatement` | website/utilities/mysql_query.py:155-158 | the INSERT text; its relation to the upsert text is stated by `UpsertExtendsInsert` |
| `Statements.UpsertStatement` | website/utilities/mysql_query.py:135-142 | the upsert text; its properties are stated by `UpsertExtendsInsert` and `UpdateItemsFields` |
| `Statements.InsertFor` | website/utilities/mysql_query.py:152-158 | the INSERT text `insert` executes for a batch, or the exception it raises; `MysqlQuery.Query.Insert` and `UpsertExtendsInsert` state its use and properties |
| `Statements.UpsertFor` | website/utilities/mysql_query.py:131-142 | the upsert text `insert_update` executes for a batch, or the exception it raises; `MysqlQuery.Query.InsertUpdate` and `UpsertExtendsInsert` state its use and properties |
| `Statements.UpsertExtendsInsert` | website/utilities/mysql_query.py:131-158 | the upsert fails iff the insert fails, with the same error; on success it is the INSERT text plus `ON DUPLICATE KEY UPDATE` and one assignment per field |
| `ValueRendering.RenderRowStopsAt` | website/utilities/mysql_query.py:174-195 | when field `j`'s rule is the first to raise, the row raises that exception, even when an earlier field was left an int |
| `ValueRendering.DeferredTypeError` | website/utilities/mysql_query.py:184-197 | an int left unrendered in one field does not decide the error when a later field's rule raises |
| `ValueRendering.MissingColumnAfterInt` | website/utilities/mysql_query.py:176-197 | the row `{a: 1, b: None}` against a table with only an enum column `a` raises for the missing column `b` |
| `ValueRendering.RenderRowsStopsAt` | website/utilities/mysql_query.py:170-197 | the first row that fails to render decides the batch's error |
| `MysqlQuery.Query.constructor` | website/utilities/mysql_query.py:13-19 | a new object has its table, an empty cache and no executed statements |
| `MysqlQuery.DescribeStatement` | website/utilities/mysql_query.py:102 | the DESCRIBE text; `Query.GetTableFieldTypes` and `LookupTwice` state when it is executed |
| `MysqlQuery.ShowTablesStatement` | website/utilities/mysql_query.py:47 | the SHOW TABLES text; `Query.CreateTableIfMissing` states that it is executed first |
| `MysqlQuery.Query.Cached` | website/utilities/mysql_query.py:99 | the cache-hit test: this table has an entry and it is not empty; `Query.GetTableFieldTypes` and `LookupTwice` state its effect |
| `MysqlQuery.Query.FieldTypes` | website/utilities/mysql_query.py:99-122 | the map `get_table_field_types` returns: the cached entry on a hit, otherwise the parse of the DESCRIBE rows; `Query.GetTableFieldTypes` returns it |
| `MysqlQuery.Query.GetTableFieldTypes` | website/utilities/mysql_query.py:94-122 | on a hit it returns the cached map and changes nothing; on a miss it executes DESCRIBE once and returns the parsed map; it stores that map under this table only |
| `MysqlQuery.Query.CreateOrderBy` | website/utilities/mysql_query.py:84-92 | the loop's text equals the ORDER BY rendering of the argument |
| `MysqlQuery.Query.Select` | website/utilities/mysql_query.py:62-82 | executes exactly the SELECT text of the arguments and returns the database's rows |
| `MysqlQuery.Query.SelectCountStar` | website/utilities/mysql_query.py:52-60 | executes the COUNT text and returns the first answer row, or an empty row when there is none |
| `MysqlQuery.Query.CreateTableIfMissing` | website/utilities/mysql_query.py:46-50 | executes SHOW TABLES, then the CREATE statement exactly when that answer is empty |
| `MysqlQuery.Query.CreateFieldsValuesForQuery` | website/utilities/mysql_query.py:161-199 | the nested loops and the per-row join return exactly the fields and tuples of the batch, or the exception raised first |
| `MysqlQuery.Query.Insert` | website/utilities/mysql_query.py:145-159 | resolves the metadata as the cache dictates, then executes the INSERT text or returns the rendering error without executing it |
| `MysqlQuery.Query.InsertUpdate` | website/utilities/mysql_query.py:124-143 | as Insert, but executes the upsert text |
| `MysqlQuery.LookupTwice` | website/utilities/mysql_query.py:98-120 | two lookups return the same map; DESCRIBE runs once on a miss, and twice when the first parse was empty |

## Left out

- `connect_to_db` (selecting or creating a database) is left out: it consists of driver calls and the driver's exception handling.
- `select_query`, `execute_query` and `delete_query` are not modelled as such. Running a statement is an append to `log`, and a statement's answer is a method parameter.
- `byte_limit` is left out: it is set in `__init__` and never read.
- Float values, booleans, `datetime.date` values and `str()` of arbitrary objects are left out. Numbers are Python ints only.
- `order_by` pairs given as tuples, and inner lists with more than two elements, are left out. The model takes (field, direction) pairs of strings.
- `CreateOrderBy`: a list with no pairs makes `order_by[0]` raise. The requires excludes that case instead of modelling the error, and `select` never passes such a list.
- `ValueRendering.DateTimeRoundTrip`: `%Y` is modelled as four zero-padded digits. Some C libraries print years before 1000 without padding, and then the text is shorter than 19 characters.
- `ValueRendering.RenderStampValue`: its 21-character literal rests on the same four-digit `%Y`; with an unpadded year before 1000 the literal is shorter.
- Concurrency and connection lifetime are left out: a `Query` is used by one request at a time.

/** The `Query` object of `website/utilities/mysql_query.py`: one table, the
    per-instance cache of column metadata, and the statements it executes.
    Executing a statement is modelled by appending its text to `log`; what the
    database answers (the DESCRIBE rows, a SELECT's rows, SHOW TABLES) is passed
    in as a parameter. */
module MysqlQuery {
  import opened Results
  import opened SqlText
  import opened ColumnTypes
  import opened ValueRendering
  import opened Statements

  /** A result row as the dictionary cursor returns it. */
  type ResultRow = map<string, Value>

  /** `'DESCRIBE {}'.format(self.table)` */
  function DescribeStatement(table: string): string
  {
    "DESCRIBE " + table
  }

  /** `'SHOW TABLES LIKE "{}"'.format(self.table)` */
  function ShowTablesStatement(table: string): string
  {
    "SHOW TABLES LIKE \"" + table + "\""
  }

  class Query {
    const table: string
    /** `self.field_information`: column metadata by table name. */
    var fieldInformation: map<string, map<string, ColumnInfo>>
    /** The statements executed so far, oldest first. */
    var log: seq<string>

    constructor (table: string)
      ensures this.table == table
      ensures fieldInformation == map[] && log == []
    {
      this.table := table;
      fieldInformation := map[];
      log := [];
    }

    /** `self.field_information.get(self.table)` is truthy: an entry that is not empty. */
    predicate Cached()
      reads this
    {
      table in fieldInformation && fieldInformation[table] != map[]
    }

    /** The metadata `get_table_field_types` answers with when DESCRIBE would
        return `describe`. */
    function FieldTypes(describe: seq<DescribeRow>): map<string, ColumnInfo>
      reads this
    {
      if Cached() then fieldInformation[table] else FieldTypesOf(describe)
    }

    /** On a cache hit, returns the cached map and executes nothing; otherwise
        executes DESCRIBE, parses its rows and stores the result under this
        table only. */
    method GetTableFieldTypes(describe: seq<DescribeRow>) returns (fields: map<string, ColumnInfo>)
      modifies this
      ensures fields == old(FieldTypes(describe))
      ensures old(Cached()) ==> fieldInformation == old(fieldInformation) && log == old(log)
      ensures !old(Cached()) ==>
                && fieldInformation == old(fieldInformation)[table := fields]
                && log == old(log) + [DescribeStatement(table)]
    {
      if Cached() {
        return fieldInformation[table];
      }
      log := log + [DescribeStatement(table)];
      fields := map[];
      for i := 0 to |describe|
        invariant fields == FieldTypesOf(describe[..i])
      {
        assert describe[..i + 1][..i] == describe[..i];
        fields := fields[describe[i].field := ParseColumn(describe[i])];
      }
      assert describe[..|describe|] == describe;
      fieldInformation := fieldInformation[table := fields];
    }

    /** Renders the ORDER BY list, each pair as `field direction`, comma-joined
        in input order. An empty list of pairs makes `order_by[0]` raise, and
        `select` never passes one. */
    method CreateOrderBy(orderBy: OrderBy) returns (text: string)
      requires orderBy.Pair? || orderBy.pairs != []
      ensures text == OrderByText(orderBy)
    {
      match orderBy
      case Pairs(pairs) =>
        var terms := [];
        for i := 0 to |pairs|
          invariant terms == OrderTerms(pairs[..i])
        {
          OrderTermsSnoc(pairs, i);
          terms := terms + [OrderTerm(pairs[i].0, pairs[i].1)];
        }
        assert pairs[..|pairs|] == pairs;
        text := Join(terms, ", ");
      case Pair(field, direction) =>
        text := OrderTerm(field, direction);
    }

    /** Executes the SELECT built from the arguments and returns the rows the
        database answers with. */
    method Select(fields: seq<string>, where: Option<string>, limit: Option<int>,
                  orderBy: Option<OrderBy>, answer: seq<ResultRow>) returns (rows: seq<ResultRow>)
      modifies this`log
      ensures log == old(log) + [SelectStatement(table, fields, where, limit, orderBy)]
      ensures rows == answer
    {
      var query := SelectBase(table, fields);
      if GivenText(where) {
        query := query + " WHERE " + where.value;
      }
      if GivenOrder(orderBy) {
        var text := CreateOrderBy(orderBy.value);
        query := query + " ORDER BY " + text;
      }
      if GivenLimit(limit) {
        var clause := " LIMIT " + IntToString(limit.value);
        query := query + clause;
      }
      log := log + [query];
      rows := answer;
    }

    /** Executes the COUNT query and returns the first row of the answer, or an
        empty row when there is none. */
    method SelectCountStar(countField: string, fields: Option<seq<string>>, where: Option<string>,
                           answer: seq<ResultRow>) returns (row: ResultRow)
      modifies this`log
      ensures log == old(log) + [CountStatement(table, countField, fields, where)]
      ensures |answer| > 0 ==> row == answer[0]
      ensures |answer| == 0 ==> row == map[]
    {
      log := log + [CountStatement(table, countField, fields, where)];
      row := if |answer| > 0 then answer[0] else map[];
    }

    /** Executes SHOW TABLES for this table, then the given CREATE statement
        exactly when the answer is empty. */
    method CreateTableIfMissing(createTableSyntax: string, showTables: seq<ResultRow>)
      modifies this`log
      ensures log == old(log) + [ShowTablesStatement(table)]
                     + (if showTables == [] then [createTableSyntax] else [])
    {
      log := log + [ShowTablesStatement(table)];
      if showTables == [] {
        log := log + [createTableSyntax];
      }
    }

    /** The field list of the first row and one rendered tuple per row, or the
        error of the first row and field (in that order) that cannot be rendered. */
    method CreateFieldsValuesForQuery(data: seq<Row>, fieldInfo: map<string, ColumnInfo>)
      returns (result: Result<(seq<string>, seq<string>), QueryError>)
      ensures result == FieldsValues(data, fieldInfo)
    {
      if |data| == 0 {
        return Failure(EmptyBatch);
      }
      var fields := Keys(data[0]);
      var values := [];
      for i := 0 to |data|
        invariant RenderRows(data[..i], fields, fieldInfo) == Success(values)
      {
        var row := data[i];
        var rowValues := [];
        for j := 0 to |fields|
          invariant RowPieces(row, fields[..j], fieldInfo) == Success(rowValues)
        {
          var field := fields[j];
          var rendered := RenderValue(Get(row, field), InfoOf(fieldInfo, field), field);
          if rendered.Failure? {
            RenderRowStopsAt(row, fields, j, fieldInfo);
            RenderRowsStopsAt(data, i, fields, fieldInfo);
            return Failure(rendered.error);
          }
          RowPiecesStep(row, fields, j, fieldInfo, rowValues);
          rowValues := rowValues + [rendered.value];
        }
        assert fields[..|fields|] == fields;
        var texts := JoinTexts(fields, rowValues);
        if texts.Failure? {
          RenderRowsStopsAt(data, i, fields, fieldInfo);
          return Failure(texts.error);
        }
        RenderRowsStep(data, i, fields, fieldInfo, values);
        values := values + [Tuple(texts.value)];
      }
      assert data[..|data|] == data;
      return Success((fields, values));
    }

    /** Resolves the column metadata, renders the batch and executes the INSERT;
        on a rendering error nothing more is executed and the error is returned. */
    method Insert(data: seq<Row>, describe: seq<DescribeRow>) returns (error: Option<QueryError>)
      modifies this
      ensures fieldInformation ==
                if old(Cached()) then old(fieldInformation)
                else old(fieldInformation)[table := old(FieldTypes(describe))]
      ensures
        var lookup := if old(Cached()) then [] else [DescribeStatement(table)];
        var statement := InsertFor(table, data, old(FieldTypes(describe)));
        && (statement.Failure? ==> error == Some(statement.error) && log == old(log) + lookup)
        && (statement.Success? ==> error == None && log == old(log) + lookup + [statement.value])
    {
      var fieldTypes := GetTableFieldTypes(describe);
      var fv := CreateFieldsValuesForQuery(data, fieldTypes);
      if fv.Failure? {
        return Some(fv.error);
      }
      log := log + [InsertStatement(table, fv.value.0, fv.value.1)];
      return None;
    }

    /** As `Insert`, with `field=VALUES(field)` for every field of the first row
        appended after ON DUPLICATE KEY UPDATE. */
    method InsertUpdate(data: seq<Row>, describe: seq<DescribeRow>) returns (error: Option<QueryError>)
      modifies this
      ensures fieldInformation ==
                if old(Cached()) then old(fieldInformation)
                else old(fieldInformation)[table := old(FieldTypes(describe))]
      ensures
        var lookup := if old(Cached()) then [] else [DescribeStatement(table)];
        var statement := UpsertFor(table, data, old(FieldTypes(describe)));
        && (statement.Failure? ==> error == Some(statement.error) && log == old(log) + lookup)
        && (statement.Success? ==> error == None && log == old(log) + lookup + [statement.value])
    {
      var fieldTypes := GetTableFieldTypes(describe);
      var fv := CreateFieldsValuesForQuery(data, fieldTypes);
      if fv.Failure? {
        return Some(fv.error);
      }
      var ft := fv.value.0;
      var updateFields := [];
      for k := 0 to |ft|
        invariant updateFields == UpdateItems(ft[..k])
        invariant log == old(log) + (if old(Cached()) then [] else [DescribeStatement(table)])
        invariant fieldInformation == old(fieldInformation)[table := fieldTypes]
      {
        UpdateItemsSnoc(ft, k);
        updateFields := updateFields + [Assignment(ft[k])];
      }
      assert ft[..|ft|] == ft;
      var update := Join(updateFields, ", ");
      log := log + [InsertStatement(table, ft, fv.value.1) + " ON DUPLICATE KEY UPDATE " + update];
      return None;
    }
  }

  /** Two lookups in a row return the same map. The first executes DESCRIBE
      unless the table is cached; the second executes it again only when the
      first parsed no columns, since an empty map is not a cache hit. */
  method LookupTwice(q: Query, describe: seq<DescribeRow>)
    returns (first: map<string, ColumnInfo>, second: map<string, ColumnInfo>)
    modifies q
    ensures first == second
    ensures q.log == old(q.log) + (
              if old(q.Cached()) then []
              else if FieldTypesOf(describe) == map[] then [DescribeStatement(q.table), DescribeStatement(q.table)]
              else [DescribeStatement(q.table)])
  {
    first := q.GetTableFieldTypes(describe);
    second := q.GetTableFieldTypes(describe);
  }
}

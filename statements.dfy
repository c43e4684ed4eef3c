/** The statement texts `Query` sends to the database: SELECT with optional
    WHERE / ORDER BY / LIMIT, the COUNT query, INSERT and the upsert form with
    `ON DUPLICATE KEY UPDATE`. An optional argument adds its clause only when it
    is truthy in Python's sense. */
module Statements {
  import opened Results
  import opened SqlText
  import opened ColumnTypes
  import opened ValueRendering

  /** `if where:` for an optional string: absent and empty are both false. */
  predicate GivenText(text: Option<string>)
  {
    text.Some? && text.value != ""
  }

  /** `if limit:` for an optional int: absent and 0 are both false. */
  predicate GivenLimit(limit: Option<int>)
  {
    limit.Some? && limit.value != 0
  }

  /** `if fields:` for an optional list: absent and empty are both false. */
  predicate GivenFields(fields: Option<seq<string>>)
  {
    fields.Some? && fields.value != []
  }

  /** The `order_by` argument: one `[field, direction]` list, or a list of them. */
  datatype OrderBy = Pair(field: string, direction: string) | Pairs(pairs: seq<(string, string)>)

  /** `if order_by:` -- a single pair is a two-element list, hence always true. */
  predicate GivenOrder(orderBy: Option<OrderBy>)
  {
    orderBy.Some? && (orderBy.value.Pair? || orderBy.value.pairs != [])
  }

  /** `u'{} {}'.format(field, direction)` */
  function OrderTerm(field: string, direction: string): string
  {
    field + " " + direction
  }

  function OrderTerms(pairs: seq<(string, string)>): seq<string>
  {
    seq(|pairs|, i requires 0 <= i < |pairs| => OrderTerm(pairs[i].0, pairs[i].1))
  }

  /** What `create_order_by` returns. */
  function OrderByText(orderBy: OrderBy): string
  {
    match orderBy
    case Pair(field, direction) => OrderTerm(field, direction)
    case Pairs(pairs) => Join(OrderTerms(pairs), ", ")
  }

  /** A list holding one pair orders exactly as that pair given on its own. */
  lemma OrderByOnePair(field: string, direction: string)
    ensures OrderByText(Pairs([(field, direction)])) == OrderByText(Pair(field, direction))
  {
  }

  /** The terms appear in input order: one more pair at the end adds `, field
      direction` at the end of the text. */
  lemma OrderByAppend(pairs: seq<(string, string)>, field: string, direction: string)
    requires pairs != []
    ensures OrderByText(Pairs(pairs + [(field, direction)]))
         == OrderByText(Pairs(pairs)) + ", " + field + " " + direction
  {
    assert OrderTerms(pairs + [(field, direction)]) == OrderTerms(pairs) + [OrderTerm(field, direction)];
    JoinAppend(OrderTerms(pairs), OrderTerm(field, direction), ", ");
  }

  /** `"SELECT {} FROM {}".format(', '.join(fields), table)` */
  function SelectBase(table: string, fields: seq<string>): string
  {
    "SELECT " + Join(fields, ", ") + " FROM " + table
  }

  /** The text `select` builds: the base statement, then each clause whose
      argument is truthy. It is the bare base statement exactly when none is,
      and it ends with the LIMIT clause whenever a limit is given. */
  function SelectStatement(table: string, fields: seq<string>, where: Option<string>,
                           limit: Option<int>, orderBy: Option<OrderBy>): (query: string)
    ensures SelectBase(table, fields) <= query
    ensures query == SelectBase(table, fields) <==>
              !GivenText(where) && !GivenOrder(orderBy) && !GivenLimit(limit)
    ensures GivenLimit(limit) ==> EndsWith(query, " LIMIT " + IntToString(limit.value))
  {
    var base := SelectBase(table, fields);
    var withWhere := if GivenText(where) then base + " WHERE " + where.value else base;
    var withOrder := if GivenOrder(orderBy) then withWhere + " ORDER BY " + OrderByText(orderBy.value) else withWhere;
    if GivenLimit(limit) then
      var clause := " LIMIT " + IntToString(limit.value);
      Extends(withOrder, clause);
      withOrder + clause
    else withOrder
  }

  /** ` WHERE ` follows the base statement exactly when `where` is truthy. */
  lemma SelectWhereClause(table: string, fields: seq<string>, where: Option<string>,
                          limit: Option<int>, orderBy: Option<OrderBy>)
    ensures SelectBase(table, fields) + " WHERE " <= SelectStatement(table, fields, where, limit, orderBy)
            <==> GivenText(where)
  {
    var q := SelectStatement(table, fields, where, limit, orderBy);
    var base := SelectBase(table, fields);
    if GivenText(where) {
      SelectWhereText(table, fields, where, limit, orderBy);
      Extends(base + " WHERE ", where.value);
      PrefixTransitive(base + " WHERE ", base + " WHERE " + where.value, q);
    } else {
      var rest := q[|base|..];
      assert q == base + rest;
      assert rest == [] || rest[1] == 'O' || rest[1] == 'L';
      NoClauseAt(base, rest, " WHERE ");
    }
  }

  /** A truthy `where` is written right after ` WHERE `, following the base statement. */
  lemma SelectWhereText(table: string, fields: seq<string>, where: Option<string>,
                        limit: Option<int>, orderBy: Option<OrderBy>)
    ensures GivenText(where) ==>
              SelectBase(table, fields) + " WHERE " + where.value <= SelectStatement(table, fields, where, limit, orderBy)
  {
    if GivenText(where) {
      var q := SelectStatement(table, fields, where, limit, orderBy);
      var w := SelectBase(table, fields) + " WHERE " + where.value;
      var ordered := if GivenOrder(orderBy) then w + " ORDER BY " + OrderByText(orderBy.value) else w;
      assert q == if GivenLimit(limit) then ordered + (" LIMIT " + IntToString(limit.value)) else ordered;
      assert ordered[..|w|] == w;
      assert q[..|w|] == w;
    }
  }

  /** ` ORDER BY ` follows the WHERE clause, or the base statement when there is
      none, exactly when `order_by` is truthy, and then the terms of
      `create_order_by` follow it. */
  lemma SelectOrderClause(table: string, fields: seq<string>, where: Option<string>,
                          limit: Option<int>, orderBy: Option<OrderBy>)
    ensures
      var head := if GivenText(where) then SelectBase(table, fields) + " WHERE " + where.value
                  else SelectBase(table, fields);
      && (head + " ORDER BY " <= SelectStatement(table, fields, where, limit, orderBy) <==> GivenOrder(orderBy))
      && (GivenOrder(orderBy) ==>
            head + " ORDER BY " + OrderByText(orderBy.value) <= SelectStatement(table, fields, where, limit, orderBy))
  {
    var q := SelectStatement(table, fields, where, limit, orderBy);
    var head := if GivenText(where) then SelectBase(table, fields) + " WHERE " + where.value
                else SelectBase(table, fields);
    if GivenOrder(orderBy) {
      assert head + " ORDER BY " <= head + " ORDER BY " + OrderByText(orderBy.value);
    } else {
      var rest := q[|head|..];
      assert q == head + rest;
      assert rest == [] || rest[1] == 'L';
      NoClauseAt(head, rest, " ORDER BY ");
    }
  }

  /** A falsy limit adds nothing, and a truthy one adds ` LIMIT n` at the very
      end of the statement built from the other arguments. */
  lemma SelectLimitClause(table: string, fields: seq<string>, where: Option<string>,
                          limit: Option<int>, orderBy: Option<OrderBy>)
    ensures !GivenLimit(limit) ==>
              SelectStatement(table, fields, where, limit, orderBy) == SelectStatement(table, fields, where, None, orderBy)
    ensures GivenLimit(limit) ==>
              SelectStatement(table, fields, where, limit, orderBy)
              == SelectStatement(table, fields, where, None, orderBy) + " LIMIT " + IntToString(limit.value)
  {
  }

  /** Without a limit the statement ends with its last truthy clause: the ORDER
      BY terms, else the WHERE text, else it is the base statement. */
  lemma SelectEnding(table: string, fields: seq<string>, where: Option<string>, orderBy: Option<OrderBy>)
    ensures GivenOrder(orderBy) ==>
              EndsWith(SelectStatement(table, fields, where, None, orderBy), " ORDER BY " + OrderByText(orderBy.value))
    ensures !GivenOrder(orderBy) && GivenText(where) ==>
              EndsWith(SelectStatement(table, fields, where, None, orderBy), " WHERE " + where.value)
    ensures !GivenOrder(orderBy) && !GivenText(where) ==>
              SelectStatement(table, fields, where, None, orderBy) == SelectBase(table, fields)
  {
    var base := SelectBase(table, fields);
    var head := if GivenText(where) then base + " WHERE " + where.value else base;
    if GivenOrder(orderBy) {
      Extends(head, " ORDER BY " + OrderByText(orderBy.value));
      assert head + " ORDER BY " + OrderByText(orderBy.value) == head + (" ORDER BY " + OrderByText(orderBy.value));
    } else if GivenText(where) {
      Extends(base, " WHERE " + where.value);
      assert base + " WHERE " + where.value == base + (" WHERE " + where.value);
    }
  }

  /** Falsy arguments (an empty WHERE, LIMIT 0, an empty ORDER BY list) add
      nothing: they build the same text as absent ones. */
  lemma SelectIgnoresFalsy(table: string, fields: seq<string>)
    ensures SelectStatement(table, fields, Some(""), Some(0), Some(Pairs([])))
         == SelectStatement(table, fields, None, None, None)
         == SelectBase(table, fields)
  {
  }

  /** `"SELECT count(*) as {}".format(count_field)` */
  function CountBase(countField: string): string
  {
    "SELECT count(*) as " + countField
  }

  /** The text `select_count_star` builds: the count alias, the extra fields when
      any are given, the table, and the WHERE clause when it is given. */
  function CountStatement(table: string, countField: string, fields: Option<seq<string>>,
                          where: Option<string>): (query: string)
    ensures CountBase(countField) <= query
    ensures GivenText(where) ==> EndsWith(query, " FROM " + table + " WHERE " + where.value)
    ensures !GivenText(where) ==> EndsWith(query, " FROM " + table)
    ensures query == CountBase(countField) + " FROM " + table <==>
              !GivenFields(fields) && !GivenText(where)
  {
    var base := CountBase(countField);
    var withFields := if GivenFields(fields) then base + ", " + Join(fields.value, ", ") else base;
    var withTable := withFields + " FROM " + table;
    if GivenText(where) then withTable + " WHERE " + where.value else withTable
  }

  /** `, ` follows the count alias exactly when `fields` is truthy, and then the
      comma-separated fields come before ` FROM table`, whether or not a WHERE
      clause follows. */
  lemma CountWithFields(table: string, countField: string, fields: Option<seq<string>>, where: Option<string>)
    ensures CountBase(countField) + ", " <= CountStatement(table, countField, fields, where) <==> GivenFields(fields)
    ensures GivenFields(fields) ==>
              CountBase(countField) + ", " + Join(fields.value, ", ") + " FROM " + table
              <= CountStatement(table, countField, fields, where)
  {
    var q := CountStatement(table, countField, fields, where);
    var base := CountBase(countField);
    if !GivenFields(fields) {
      assert q[|base|] == ' ';
    }
  }

  /** `u"{0}=VALUES({0})".format(field)` */
  function Assignment(field: string): string
  {
    field + "=VALUES(" + field + ")"
  }

  /** Reads the field name back out of an assignment `f=VALUES(f)`. */
  function AssignedField(item: string): string
  {
    if |item| < 9 then "" else item[..(|item| - 9) / 2]
  }

  lemma AssignmentRoundTrip(field: string)
    ensures AssignedField(Assignment(field)) == field
  {
    assert |Assignment(field)| == 2 * |field| + 9;
  }

  /** The `update_fields` list of `insert_update`. */
  function UpdateItems(fields: seq<string>): seq<string>
  {
    seq(|fields|, i requires 0 <= i < |fields| => Assignment(fields[i]))
  }

  /** The update list names every field once, in field-list order: item `i`
      assigns field `i`, and distinct fields give distinct items. */
  lemma UpdateItemsFields(fields: seq<string>)
    ensures |UpdateItems(fields)| == |fields|
    ensures forall i :: 0 <= i < |fields| ==> AssignedField(UpdateItems(fields)[i]) == fields[i]
    ensures (forall i, j :: 0 <= i < j < |fields| ==> fields[i] != fields[j]) ==>
              forall i, j :: 0 <= i < j < |fields| ==> UpdateItems(fields)[i] != UpdateItems(fields)[j]
  {
    forall i | 0 <= i < |fields| ensures AssignedField(UpdateItems(fields)[i]) == fields[i] {
      AssignmentRoundTrip(fields[i]);
    }
  }

  /** `"INSERT INTO {} {} VALUES {}".format(table, '(' + ', '.join(ft) + ')', ', '.join(vl))` */
  function InsertStatement(table: string, fields: seq<string>, values: seq<string>): string
  {
    "INSERT INTO " + table + " (" + Join(fields, ", ") + ") VALUES " + Join(values, ", ")
  }

  /** The upsert text: the INSERT text followed by the update clause. */
  function UpsertStatement(table: string, fields: seq<string>, values: seq<string>): string
  {
    InsertStatement(table, fields, values) + " ON DUPLICATE KEY UPDATE " + Join(UpdateItems(fields), ", ")
  }

  /** What `insert` executes for a batch of rows, or the exception it raises. */
  function InsertFor(table: string, data: seq<Row>, fieldInfo: map<string, ColumnInfo>): Result<string, QueryError>
  {
    match FieldsValues(data, fieldInfo)
    case Failure(e) => Failure(e)
    case Success(fv) => Success(InsertStatement(table, fv.0, fv.1))
  }

  /** What `insert_update` executes for a batch of rows, or the exception it raises. */
  function UpsertFor(table: string, data: seq<Row>, fieldInfo: map<string, ColumnInfo>): Result<string, QueryError>
  {
    match FieldsValues(data, fieldInfo)
    case Failure(e) => Failure(e)
    case Success(fv) => Success(UpsertStatement(table, fv.0, fv.1))
  }

  /** The upsert fails exactly when the insert does, with the same error; when
      it succeeds its text is the insert text followed by one assignment per
      field of the first row. */
  lemma UpsertExtendsInsert(table: string, data: seq<Row>, fieldInfo: map<string, ColumnInfo>)
    ensures UpsertFor(table, data, fieldInfo).Success? <==> InsertFor(table, data, fieldInfo).Success?
    ensures UpsertFor(table, data, fieldInfo).Failure? ==>
              UpsertFor(table, data, fieldInfo).error == InsertFor(table, data, fieldInfo).error
    ensures UpsertFor(table, data, fieldInfo).Success? ==>
              UpsertFor(table, data, fieldInfo).value
              == InsertFor(table, data, fieldInfo).value + " ON DUPLICATE KEY UPDATE "
                 + Join(UpdateItems(Keys(data[0])), ", ")
  {
  }

  /** OrderTerms over one more pair extends the list by that pair's term. */
  lemma OrderTermsSnoc(pairs: seq<(string, string)>, i: nat)
    requires i < |pairs|
    ensures OrderTerms(pairs[..i + 1]) == OrderTerms(pairs[..i]) + [OrderTerm(pairs[i].0, pairs[i].1)]
  {
  }

  /** UpdateItems over one more field extends the list by that field's assignment. */
  lemma UpdateItemsSnoc(fields: seq<string>, k: nat)
    requires k < |fields|
    ensures UpdateItems(fields[..k + 1]) == UpdateItems(fields[..k]) + [Assignment(fields[k])]
  {
  }
}

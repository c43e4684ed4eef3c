/** How `Query.create_fields_values_for_query` turns row values into SQL literal
    text: a first-match rule chain driven by the value's kind and the column's
    base type, and the `(...)` tuple per row in first-row field order. */
module ValueRendering {
  import opened Results
  import opened SqlText
  import opened ColumnTypes

  /** `Query.STRING_TYPES`: base types whose values are double-quoted. */
  const STRING_TYPES: seq<string> :=
    ["varchar", "text", "datetime", "timestamp", "date", "time", "year", "char", "blob",
     "tinyblob", "tinytext", "mediumblob", "mediumtext", "longblob", "longtext"]

  /** `Query.NUMBER_TYPES`: base types whose values are written bare. */
  const NUMBER_TYPES: seq<string> :=
    ["int", "float", "double", "decimal", "tinyint", "smallint", "mediumint", "bigint"]

  /** No base type is in both families, so the order of the string rule and
      the number rule decides nothing; `date`, `time` and `year` values are
      quoted, every integer type is written bare. */
  lemma TypeFamiliesDisjoint()
    ensures forall t :: t in STRING_TYPES ==> t !in NUMBER_TYPES
    ensures "date" in STRING_TYPES && "year" in STRING_TYPES && "time" in STRING_TYPES
    ensures "int" in NUMBER_TYPES && "bigint" in NUMBER_TYPES && "tinyint" in NUMBER_TYPES
  {
  }

  /** A `datetime.datetime`, down to the second. */
  datatype DateTime = DateTime(year: nat, month: nat, day: nat, hour: nat, minute: nat, second: nat)

  /** The ranges a `datetime.datetime` object guarantees for its fields. */
  predicate ValidDateTime(dt: DateTime)
  {
    && 1 <= dt.year <= 9999 && 1 <= dt.month <= 12 && 1 <= dt.day <= 31
    && dt.hour < 24 && dt.minute < 60 && dt.second < 60
  }

  /** A value in a row dictionary: `None`, `str`, `int`, `datetime` or a list of `str`. */
  datatype Value = Null | Str(s: string) | Int(n: int) | Stamp(dt: DateTime) | StrList(items: seq<string>)

  /** The exceptions the rendering raises on input it does not handle. */
  datatype QueryError =
    | EmptyBatch               // `data[0]` of an empty list
    | UnknownColumn(field: string)  // `info` is None for a field missing from the table
    | NotAString(field: string)     // `.replace` on an int in a string-family column
    | NotText(field: string)        // `', '.join` meets an int left unrendered

  /** `dt.strftime('%Y-%m-%d %H:%M:%S')` */
  function FormatDateTime(dt: DateTime): string
  {
    Digits(dt.year, 4) + "-" + Digits(dt.month, 2) + "-" + Digits(dt.day, 2) + " " +
    Digits(dt.hour, 2) + ":" + Digits(dt.minute, 2) + ":" + Digits(dt.second, 2)
  }

  /** Reads a `YYYY-MM-DD HH:MM:SS` text back into its fields. */
  function ParseDateTime(s: string): Option<DateTime>
  {
    if |s| == 19 && s[4] == '-' && s[7] == '-' && s[10] == ' ' && s[13] == ':' && s[16] == ':'
       && AllDigits(s[0..4]) && AllDigits(s[5..7]) && AllDigits(s[8..10])
       && AllDigits(s[11..13]) && AllDigits(s[14..16]) && AllDigits(s[17..19])
    then Some(DateTime(ParseNat(s[0..4]), ParseNat(s[5..7]), ParseNat(s[8..10]),
                       ParseNat(s[11..13]), ParseNat(s[14..16]), ParseNat(s[17..19])))
    else None
  }

  /** The formatted instant has the fixed 19-character layout and reads back as itself. */
  lemma DateTimeRoundTrip(dt: DateTime)
    requires ValidDateTime(dt)
    ensures |FormatDateTime(dt)| == 19
    ensures ParseDateTime(FormatDateTime(dt)) == Some(dt)
  {
    var s := FormatDateTime(dt);
    assert s[0..4] == Digits(dt.year, 4);
    assert s[5..7] == Digits(dt.month, 2);
    assert s[8..10] == Digits(dt.day, 2);
    assert s[11..13] == Digits(dt.hour, 2);
    assert s[14..16] == Digits(dt.minute, 2);
    assert s[17..19] == Digits(dt.second, 2);
    DigitsRoundTrip(dt.year, 4);
    DigitsRoundTrip(dt.month, 2);
    DigitsRoundTrip(dt.day, 2);
    DigitsRoundTrip(dt.hour, 2);
    DigitsRoundTrip(dt.minute, 2);
    DigitsRoundTrip(dt.second, 2);
  }

  /** `'"{}"'.format(s)`: dropping the first and last character unquotes it. */
  function Quote(s: string): (r: string)
    ensures |r| == |s| + 2 && r[0] == '"' && r[|r| - 1] == '"'
    ensures r[1..|r| - 1] == s
  {
    "\"" + s + "\""
  }

  /** What `value` holds once the rule chain has run for one field: literal
      text, or an int that no rule turned into text. Such an int stays in
      `row_values` and only makes the row's `', '.join` raise. */
  datatype Piece = Text(text: string) | Unrendered(n: int)

  /** One field of one row, by the first rule that applies: a missing value is
      `null` or `""` by the column's nullability; a datetime is a quoted
      timestamp; a list is `^`-joined; a string-family column gets its `"`
      turned into `'` and is quoted; a number-family column gets `str(value)`;
      a string in any other column is passed through, an int is left as it is.
      The rules themselves raise only on a missing column or on `.replace` of
      an int; an int left as it is raises later, at the join. */
  function RenderValue(value: Value, info: Option<ColumnInfo>, field: string): (r: Result<Piece, QueryError>)
    ensures r.Failure? ==> r.error == UnknownColumn(field) || r.error == NotAString(field)
    ensures r.Success? && r.value.Unrendered? ==> value == Int(r.value.n)
  {
    match value
    case Null =>
      if info.None? then Failure(UnknownColumn(field))
      else if info.value.nullable then Success(Text("null"))
      else Success(Text("\"\""))
    case Stamp(dt) => Success(Text(Quote(FormatDateTime(dt))))
    case StrList(items) => Success(Text(Join(items, "^")))
    case Str(s) =>
      if info.None? then Failure(UnknownColumn(field))
      else if info.value.baseType in STRING_TYPES then Success(Text(Quote(ReplaceChar(s, '"', '\''))))
      else Success(Text(s))  // `str(s)` in a number-family column; left as it is in any other
    case Int(n) =>
      if info.None? then Failure(UnknownColumn(field))
      else if info.value.baseType in STRING_TYPES then Failure(NotAString(field))
      else if info.value.baseType in NUMBER_TYPES then Success(Text(IntToString(n)))
      else Success(Unrendered(n))
  }

  /** A missing value renders as `null` in a nullable column and as `""` in any
      other known column; in an unknown column it raises. */
  lemma RenderNullValue(info: Option<ColumnInfo>, field: string)
    ensures RenderValue(Null, info, field).Success? <==> info.Some?
    ensures RenderValue(Null, info, field) == Success(Text("null")) <==> info.Some? && info.value.nullable
    ensures RenderValue(Null, info, field) == Success(Text("\"\"")) <==> info.Some? && !info.value.nullable
  {
  }

  /** A datetime renders, whatever the column, as the quoted timestamp text,
      which reads back as the same instant. */
  lemma RenderStampValue(dt: DateTime, info: Option<ColumnInfo>, field: string)
    requires ValidDateTime(dt)
    ensures
      var r := RenderValue(Stamp(dt), info, field);
      && r.Success? && r.value.Text? && |r.value.text| == 21
      && r.value.text[0] == '"' && r.value.text[20] == '"'
      && ParseDateTime(r.value.text[1..20]) == Some(dt)
  {
    DateTimeRoundTrip(dt);
    var t := FormatDateTime(dt);
    assert Quote(t)[1..20] == t;
  }

  /** A list renders, whatever the column and whatever its elements, as its
      `^`-joined elements. */
  lemma RenderListValue(items: seq<string>, info: Option<ColumnInfo>, field: string)
    ensures RenderValue(StrList(items), info, field) == Success(Text(Join(items, "^")))
  {
  }

  /** The short lists: the empty list renders as the empty text, a one-element
      list as that element with no separator. */
  lemma RenderShortList(items: seq<string>, info: Option<ColumnInfo>, field: string)
    ensures items == [] ==> RenderValue(StrList(items), info, field) == Success(Text(""))
    ensures |items| == 1 ==> RenderValue(StrList(items), info, field) == Success(Text(items[0]))
  {
  }

  /** Splitting the rendered list at `^` recovers the elements when the list is
      not empty and no element contains `^`. */
  lemma RenderListRoundTrip(items: seq<string>, info: Option<ColumnInfo>, field: string)
    requires |items| >= 1
    requires forall i :: 0 <= i < |items| ==> '^' !in items[i]
    ensures RenderValue(StrList(items), info, field).Success?
    ensures RenderValue(StrList(items), info, field).value.Text?
    ensures Split(RenderValue(StrList(items), info, field).value.text, '^') == items
  {
    SplitJoin(items, '^');
  }

  /** In a string-family column a string renders as a literal that begins and
      ends with `"` and holds no other `"`: every `"` of the value is written
      as `'`, every other character is kept. An int there raises. */
  lemma RenderStringFamily(s: string, c: ColumnInfo, field: string)
    requires c.baseType in STRING_TYPES
    ensures
      var r := RenderValue(Str(s), Some(c), field);
      && r.Success? && r.value.Text? && |r.value.text| == |s| + 2
      && r.value.text[0] == '"' && r.value.text[|s| + 1] == '"'
      && forall i :: 0 <= i < |s| ==>
           r.value.text[i + 1] != '"' && r.value.text[i + 1] == (if s[i] == '"' then '\'' else s[i])
    ensures forall n :: RenderValue(Int(n), Some(c), field) == Failure(NotAString(field))
  {
    var q := ReplaceChar(s, '"', '\'');
    assert forall i :: 0 <= i < |s| ==> Quote(q)[i + 1] == q[i];
  }

  /** In a number-family column an int renders as its decimal text, which holds
      no quote and reads back as the same int; a string is passed through. */
  lemma RenderNumberFamily(n: int, s: string, c: ColumnInfo, field: string)
    requires c.baseType in NUMBER_TYPES
    ensures
      var r := RenderValue(Int(n), Some(c), field);
      r.Success? && r.value.Text? && '"' !in r.value.text && IsIntText(r.value.text) && ParseInt(r.value.text) == n
    ensures RenderValue(Str(s), Some(c), field) == Success(Text(s))
  {
    assert c.baseType !in STRING_TYPES;
    IntToStringRoundTrip(n);
  }

  /** In a column of neither family a string is passed through unchanged and an
      int is left unrendered; a null, string or int in a column missing from the
      table raises. */
  lemma RenderOtherColumns(s: string, n: int, c: ColumnInfo, field: string)
    requires c.baseType !in STRING_TYPES && c.baseType !in NUMBER_TYPES
    ensures RenderValue(Str(s), Some(c), field) == Success(Text(s))
    ensures RenderValue(Int(n), Some(c), field) == Success(Unrendered(n))
    ensures RenderValue(Str(s), None, field) == Failure(UnknownColumn(field))
    ensures RenderValue(Int(n), None, field) == Failure(UnknownColumn(field))
  {
  }

  /** A row dictionary: (field, value) pairs in insertion order, no field twice. */
  predicate DistinctKeys(pairs: seq<(string, Value)>)
  {
    forall i, j :: 0 <= i < j < |pairs| ==> pairs[i].0 != pairs[j].0
  }

  type Row = pairs: seq<(string, Value)> | DistinctKeys(pairs) witness []

  /** `list(row.keys())` */
  function Keys(row: Row): (keys: seq<string>)
    ensures |keys| == |row|
    ensures forall i :: 0 <= i < |row| ==> keys[i] == row[i].0
  {
    if row == [] then [] else [row[0].0] + Keys(row[1..])
  }

  /** `row.get(field)`: a field the row does not have reads as `None`. */
  function Get(row: seq<(string, Value)>, field: string): Value
  {
    if row == [] then Null
    else if row[0].0 == field then row[0].1
    else Get(row[1..], field)
  }

  /** Looking up a key of the row gives the value stored under it; any other
      field reads as null. */
  lemma {:induction false} GetEntry(row: Row, field: string)
    ensures forall i :: 0 <= i < |row| && row[i].0 == field ==> Get(row, field) == row[i].1
    ensures (forall i :: 0 <= i < |row| ==> row[i].0 != field) ==> Get(row, field) == Null
  {
    if row != [] {
      var rest: Row := row[1..];
      GetEntry(rest, field);
      assert forall i :: 1 <= i < |row| ==> rest[i - 1] == row[i];
    }
  }

  /** `field_info.get(field)`: the stored metadata, or None for a field the
      table does not have. */
  function InfoOf(fieldInfo: map<string, ColumnInfo>, field: string): (r: Option<ColumnInfo>)
    ensures r.Some? <==> field in fieldInfo
    ensures r.Some? ==> r.value == fieldInfo[field]
  {
    if field in fieldInfo then Some(fieldInfo[field]) else None
  }

  /** The rule chain applied to `field` of `row`. */
  function RenderField(row: Row, field: string, fieldInfo: map<string, ColumnInfo>): Result<Piece, QueryError>
  {
    RenderValue(Get(row, field), InfoOf(fieldInfo, field), field)
  }

  /** The inner loop: `row_values` in field order, or the exception of the first
      field whose rule raises. An unrendered int does not stop the loop, and a
      raising rule never gives the join's error. */
  function RowPieces(row: Row, fields: seq<string>, fieldInfo: map<string, ColumnInfo>): (r: Result<seq<Piece>, QueryError>)
    ensures r.Success? ==> |r.value| == |fields|
    ensures r.Failure? ==> r.error.UnknownColumn? || r.error.NotAString?
  {
    if fields == [] then Success([])
    else
      var last := fields[|fields| - 1];
      match RowPieces(row, fields[..|fields| - 1], fieldInfo)
      case Failure(e) => Failure(e)
      case Success(done) =>
        match RenderField(row, last, fieldInfo)
        case Failure(e) => Failure(e)
        case Success(v) => Success(done + [v])
  }

  /** The inner loop completes exactly when no field's rule raises, and then it
      holds one piece per field, in field order. */
  lemma {:induction false} RowPiecesValues(row: Row, fields: seq<string>, fieldInfo: map<string, ColumnInfo>)
    ensures RowPieces(row, fields, fieldInfo).Success? <==>
              forall j :: 0 <= j < |fields| ==> RenderField(row, fields[j], fieldInfo).Success?
    ensures RowPieces(row, fields, fieldInfo).Success? ==>
              forall j :: 0 <= j < |fields| ==>
                RenderField(row, fields[j], fieldInfo) == Success(RowPieces(row, fields, fieldInfo).value[j])
    decreases |fields|
  {
    if fields != [] {
      var n := |fields| - 1;
      var init := fields[..n];
      RowPiecesValues(row, init, fieldInfo);
      var before := RowPieces(row, init, fieldInfo);
      var last := RenderField(row, fields[n], fieldInfo);
      if before.Success? && last.Success? {
        var all := RowPieces(row, fields, fieldInfo);
        assert all == Success(before.value + [last.value]);
        forall j | 0 <= j < |fields|
          ensures RenderField(row, fields[j], fieldInfo) == Success(all.value[j])
        {
          if j < n {
            assert init[j] == fields[j];
          }
        }
      } else if before.Failure? {
        var j :| 0 <= j < n && RenderField(row, init[j], fieldInfo).Failure?;
        assert init[j] == fields[j];
      }
    }
  }

  /** `', '.join(row_values)`: the texts in order, or the TypeError of the first
      piece that is an int. */
  function JoinTexts(fields: seq<string>, pieces: seq<Piece>): (r: Result<seq<string>, QueryError>)
    requires |pieces| == |fields|
    ensures r.Success? ==> |r.value| == |pieces|
    ensures r.Failure? ==> r.error.NotText?
  {
    if pieces == [] then Success([])
    else if pieces[0].Unrendered? then Failure(NotText(fields[0]))
    else
      match JoinTexts(fields[1..], pieces[1..])
      case Failure(e) => Failure(e)
      case Success(rest) => Success([pieces[0].text] + rest)
  }

  /** The join succeeds exactly when every piece is text, and then yields those
      texts; otherwise it raises for the first int. */
  lemma {:induction false} JoinTextsValues(fields: seq<string>, pieces: seq<Piece>)
    requires |pieces| == |fields|
    ensures JoinTexts(fields, pieces).Success? <==> forall j :: 0 <= j < |pieces| ==> pieces[j].Text?
    ensures JoinTexts(fields, pieces).Success? ==>
              forall j :: 0 <= j < |pieces| ==> JoinTexts(fields, pieces).value[j] == pieces[j].text
    ensures forall k :: 0 <= k < |pieces| && pieces[k].Unrendered? && (forall j :: 0 <= j < k ==> pieces[j].Text?) ==>
              JoinTexts(fields, pieces) == Failure(NotText(fields[k]))
  {
    if pieces != [] {
      JoinTextsValues(fields[1..], pieces[1..]);
      assert forall j :: 1 <= j < |pieces| ==> pieces[1..][j - 1] == pieces[j];
      forall k | 1 <= k < |pieces| && pieces[k].Unrendered? && (forall j :: 0 <= j < k ==> pieces[j].Text?)
        ensures JoinTexts(fields, pieces) == Failure(NotText(fields[k]))
      {
        assert pieces[1..][k - 1] == pieces[k];
        assert forall j :: 0 <= j < k - 1 ==> pieces[1..][j].Text?;
        assert fields[1..][k - 1] == fields[k];
      }
    }
  }

  /** One row: the inner loop, then the join of its pieces. */
  function RenderRow(row: Row, fields: seq<string>, fieldInfo: map<string, ColumnInfo>): Result<seq<string>, QueryError>
  {
    match RowPieces(row, fields, fieldInfo)
    case Failure(e) => Failure(e)
    case Success(pieces) => JoinTexts(fields, pieces)
  }

  /** A row renders exactly when each of its fields renders to text, and then it
      holds one text per field, in field order. */
  lemma RenderRowValues(row: Row, fields: seq<string>, fieldInfo: map<string, ColumnInfo>)
    ensures RenderRow(row, fields, fieldInfo).Success? <==>
              forall j :: 0 <= j < |fields| ==>
                RenderField(row, fields[j], fieldInfo).Success? && RenderField(row, fields[j], fieldInfo).value.Text?
    ensures RenderRow(row, fields, fieldInfo).Success? ==>
              && |RenderRow(row, fields, fieldInfo).value| == |fields|
              && forall j :: 0 <= j < |fields| ==>
                   RenderField(row, fields[j], fieldInfo) == Success(Text(RenderRow(row, fields, fieldInfo).value[j]))
  {
    RowPiecesValues(row, fields, fieldInfo);
    var pieces := RowPieces(row, fields, fieldInfo);
    if pieces.Success? {
      JoinTextsValues(fields, pieces.value);
    }
  }

  /** The row raises the join's TypeError exactly when no field's rule raises
      and some field is left an int; the first such field is named. So an int
      left unrendered never hides the exception of a later field. */
  lemma RenderRowTypeError(row: Row, fields: seq<string>, fieldInfo: map<string, ColumnInfo>)
    ensures (RenderRow(row, fields, fieldInfo).Failure? && RenderRow(row, fields, fieldInfo).error.NotText?) <==>
              && (forall j :: 0 <= j < |fields| ==> RenderField(row, fields[j], fieldInfo).Success?)
              && exists j :: 0 <= j < |fields| && RenderField(row, fields[j], fieldInfo).value.Unrendered?
    ensures forall k :: 0 <= k < |fields| &&
                        (forall j :: 0 <= j < |fields| ==> RenderField(row, fields[j], fieldInfo).Success?) &&
                        RenderField(row, fields[k], fieldInfo).value.Unrendered? &&
                        (forall j :: 0 <= j < k ==> RenderField(row, fields[j], fieldInfo).value.Text?) ==>
              RenderRow(row, fields, fieldInfo) == Failure(NotText(fields[k]))
  {
    RowPiecesValues(row, fields, fieldInfo);
    var pieces := RowPieces(row, fields, fieldInfo);
    if pieces.Success? {
      JoinTextsValues(fields, pieces.value);
    }
  }

  /** The inner loop over one more field appends that field's piece. */
  lemma RowPiecesStep(row: Row, fields: seq<string>, j: nat, fieldInfo: map<string, ColumnInfo>, pieces: seq<Piece>)
    requires j < |fields|
    requires RowPieces(row, fields[..j], fieldInfo) == Success(pieces)
    requires RenderField(row, fields[j], fieldInfo).Success?
    ensures RowPieces(row, fields[..j + 1], fieldInfo) == Success(pieces + [RenderField(row, fields[j], fieldInfo).value])
  {
    assert fields[..j + 1][..j] == fields[..j];
  }

  /** Once the rule for field `j` raises, with no earlier rule raising, the row
      raises that exception, whether or not an earlier field was left an int. */
  lemma {:induction false} RenderRowStopsAt(row: Row, fields: seq<string>, j: nat, fieldInfo: map<string, ColumnInfo>)
    requires j < |fields|
    requires RowPieces(row, fields[..j], fieldInfo).Success?
    requires RenderField(row, fields[j], fieldInfo).Failure?
    ensures RowPieces(row, fields, fieldInfo) == Failure(RenderField(row, fields[j], fieldInfo).error)
    ensures RenderRow(row, fields, fieldInfo) == Failure(RenderField(row, fields[j], fieldInfo).error)
    decreases |fields|
  {
    var n := |fields| - 1;
    if n == j {
      assert fields[..n] == fields[..j];
    } else {
      assert fields[..n][..j] == fields[..j];
      RenderRowStopsAt(row, fields[..n], j, fieldInfo);
    }
  }

  /** An int left unrendered in field `a` does not decide the error: when the
      rule for a later field `b` raises, that exception is the row's. */
  lemma DeferredTypeError(row: Row, a: string, b: string, fieldInfo: map<string, ColumnInfo>)
    requires RenderField(row, a, fieldInfo).Success? && RenderField(row, a, fieldInfo).value.Unrendered?
    requires RenderField(row, b, fieldInfo).Failure?
    ensures RenderRow(row, [a, b], fieldInfo) == Failure(RenderField(row, b, fieldInfo).error)
  {
    assert [a, b][..1] == [a] && [a][..0] == [];
    var first := RenderField(row, a, fieldInfo).value;
    assert RowPieces(row, [], fieldInfo) == Success([]);
    assert RowPieces(row, [a], fieldInfo) == Success([] + [first]);
    RenderRowStopsAt(row, [a, b], 1, fieldInfo);
  }

  /** The row `{a: 1, b: None}` against a table that has only `a`, declared as
      an enum: the AttributeError for the missing column `b` is raised, not the
      TypeError the int in `a` would cause at the join. */
  lemma MissingColumnAfterInt()
    ensures
      var row: Row := [("a", Int(1)), ("b", Null)];
      RenderRow(row, ["a", "b"], map["a" := ColumnInfo("enum", false, None)]) == Failure(UnknownColumn("b"))
  {
    var row: Row := [("a", Int(1)), ("b", Null)];
    var info := map["a" := ColumnInfo("enum", false, None)];
    assert Get(row, "a") == Int(1);
    assert Get(row, "b") == Null;
    assert "b" !in info;
    DeferredTypeError(row, "a", "b", info);
  }

  /** `'({})'.format(', '.join(row_values))`: the joined texts in parentheses. */
  function Tuple(rendered: seq<string>): (r: string)
    ensures |r| >= 2 && r[0] == '(' && r[|r| - 1] == ')'
    ensures r[1..|r| - 1] == Join(rendered, ", ")
  {
    "(" + Join(rendered, ", ") + ")"
  }

  /** The outer loop: one tuple per row, in row order, or the first error. */
  function RenderRows(data: seq<Row>, fields: seq<string>, fieldInfo: map<string, ColumnInfo>): Result<seq<string>, QueryError>
  {
    if data == [] then Success([])
    else
      var last := data[|data| - 1];
      match RenderRows(data[..|data| - 1], fields, fieldInfo)
      case Failure(e) => Failure(e)
      case Success(done) =>
        match RenderRow(last, fields, fieldInfo)
        case Failure(e) => Failure(e)
        case Success(v) => Success(done + [Tuple(v)])
  }

  /** A batch renders exactly when each row does, and then it holds one tuple
      per row, in row order. */
  lemma {:induction false} RenderRowsValues(data: seq<Row>, fields: seq<string>, fieldInfo: map<string, ColumnInfo>)
    ensures RenderRows(data, fields, fieldInfo).Success? <==>
              forall i :: 0 <= i < |data| ==> RenderRow(data[i], fields, fieldInfo).Success?
    ensures RenderRows(data, fields, fieldInfo).Success? ==>
              && |RenderRows(data, fields, fieldInfo).value| == |data|
              && forall i :: 0 <= i < |data| ==>
                   RenderRows(data, fields, fieldInfo).value[i] == Tuple(RenderRow(data[i], fields, fieldInfo).value)
    decreases |data|
  {
    if data != [] {
      var n := |data| - 1;
      var init := data[..n];
      RenderRowsValues(init, fields, fieldInfo);
      var before := RenderRows(init, fields, fieldInfo);
      var last := RenderRow(data[n], fields, fieldInfo);
      if before.Success? && last.Success? {
        var all := RenderRows(data, fields, fieldInfo);
        assert all == Success(before.value + [Tuple(last.value)]);
        forall i | 0 <= i < |data|
          ensures RenderRow(data[i], fields, fieldInfo).Success?
          ensures all.value[i] == Tuple(RenderRow(data[i], fields, fieldInfo).value)
        {
          if i < n {
            assert init[i] == data[i];
          }
        }
      } else if before.Failure? {
        var i :| 0 <= i < n && RenderRow(init[i], fields, fieldInfo).Failure?;
        assert init[i] == data[i];
      }
    }
  }

  /** The outer loop over one more row appends that row's tuple. */
  lemma RenderRowsStep(data: seq<Row>, i: nat, fields: seq<string>, fieldInfo: map<string, ColumnInfo>, values: seq<string>)
    requires i < |data|
    requires RenderRows(data[..i], fields, fieldInfo) == Success(values)
    requires RenderRow(data[i], fields, fieldInfo).Success?
    ensures RenderRows(data[..i + 1], fields, fieldInfo) == Success(values + [Tuple(RenderRow(data[i], fields, fieldInfo).value)])
  {
    assert data[..i + 1][..i] == data[..i];
  }

  /** Once row `i` fails to render, the whole batch fails with its error. */
  lemma {:induction false} RenderRowsStopsAt(data: seq<Row>, i: nat, fields: seq<string>, fieldInfo: map<string, ColumnInfo>)
    requires i < |data|
    requires RenderRows(data[..i], fields, fieldInfo).Success?
    requires RenderRow(data[i], fields, fieldInfo).Failure?
    ensures RenderRows(data, fields, fieldInfo) == Failure(RenderRow(data[i], fields, fieldInfo).error)
    decreases |data|
  {
    var n := |data| - 1;
    if n == i {
      assert data[..n] == data[..i];
    } else {
      assert data[..n][..i] == data[..i];
      assert data[..n][i] == data[i];
      RenderRowsStopsAt(data[..n], i, fields, fieldInfo);
    }
  }

  /** What `create_fields_values_for_query` returns: the first row's keys as the
      field list and one tuple per row, or the exception it raises. */
  function FieldsValues(data: seq<Row>, fieldInfo: map<string, ColumnInfo>): Result<(seq<string>, seq<string>), QueryError>
  {
    if data == [] then Failure(EmptyBatch)
    else
      var fields := Keys(data[0]);
      match RenderRows(data, fields, fieldInfo)
      case Failure(e) => Failure(e)
      case Success(values) => Success((fields, values))
  }

  /** An empty batch raises. Otherwise the batch renders exactly when every field
      of the first row renders to text in every row; the field list is then the first
      row's keys, with one tuple of rendered values per row. */
  lemma FieldsValuesResult(data: seq<Row>, fieldInfo: map<string, ColumnInfo>)
    ensures data == [] ==> FieldsValues(data, fieldInfo) == Failure(EmptyBatch)
    ensures FieldsValues(data, fieldInfo).Success? <==>
              && data != []
              && forall i, j :: 0 <= i < |data| && 0 <= j < |data[0]| ==>
                   && RenderField(data[i], data[0][j].0, fieldInfo).Success?
                   && RenderField(data[i], data[0][j].0, fieldInfo).value.Text?
    ensures FieldsValues(data, fieldInfo).Success? ==>
              && FieldsValues(data, fieldInfo).value.0 == Keys(data[0])
              && |FieldsValues(data, fieldInfo).value.1| == |data|
              && forall i :: 0 <= i < |data| ==>
                   && RenderRow(data[i], Keys(data[0]), fieldInfo).Success?
                   && FieldsValues(data, fieldInfo).value.1[i] == Tuple(RenderRow(data[i], Keys(data[0]), fieldInfo).value)
  {
    if data != [] {
      var fields := Keys(data[0]);
      RenderRowsValues(data, fields, fieldInfo);
      forall i | 0 <= i < |data| {
        RenderRowValues(data[i], fields, fieldInfo);
      }
    }
  }
}

/** Column metadata as `Query.get_table_field_types` derives it from the rows of
    `DESCRIBE table`: the declared type split into a base type and an optional
    length, and the nullability flag. */
module ColumnTypes {
  import opened Results
  import opened SqlText

  /** One row of `DESCRIBE table`, reduced to the three columns that are read. */
  datatype DescribeRow = DescribeRow(field: string, columnType: string, nullFlag: string)

  /** The per-column entry: `{'type': ..., 'null': ..., 'length': ...}`,
      where `length` is present only for a parenthesised type. */
  datatype ColumnInfo = ColumnInfo(baseType: string, nullable: bool, length: Option<string>)

  /** Drops the leading characters of `s` up to, not including, the first newline. */
  function SkipLine(s: string): (r: string)
    ensures |r| <= |s| && r == s[|s| - |r|..]
    ensures '\n' !in s[..|s| - |r|]
    ensures r == [] || r[0] == '\n'
  {
    if s == [] || s[0] == '\n' then s else SkipLine(s[1..])
  }

  /** `re.sub(r'\).*', '', s)` with `TYPE_RE`: every `)` is removed together with
      the rest of its line, since `.` does not match a newline. */
  function StripCloseParen(s: string): (r: string)
    ensures ')' !in r
    decreases |s|
  {
    if s == [] then []
    else if s[0] == ')' then StripCloseParen(SkipLine(s[1..]))
    else [s[0]] + StripCloseParen(s[1..])
  }

  /** On single-line text, `TYPE_RE` substitution cuts at the first `)`. */
  lemma {:induction false} StripCloseParenCuts(s: string)
    requires '\n' !in s
    ensures StripCloseParen(s) == TakeUntil(s, ')')
  {
    if s != [] {
      if s[0] == ')' {
        assert SkipLine(s[1..]) == [];
      } else {
        StripCloseParenCuts(s[1..]);
        if ')' in s {
          var k := IndexOf(s, ')');
          assert IndexOf(s[1..], ')') == k - 1 by {
            assert s[1..][k - 1] == ')';
            assert s[1..][..k - 1] == s[1..k];
          }
          assert s[..k] == [s[0]] + s[1..][..k - 1];
        }
      }
    }
  }

  /** Parses one DESCRIBE row: base type before the first `(`, a length when
      there is a `(`, nullable exactly when the `Null` column reads `YES`. */
  function ParseColumn(row: DescribeRow): (info: ColumnInfo)
    ensures info.baseType == TakeUntil(row.columnType, '(')
    ensures info.length.Some? <==> '(' in row.columnType
    ensures info.nullable <==> row.nullFlag == "YES"
  {
    var typeLong := Split(row.columnType, '(');
    ColumnInfo(
      typeLong[0],
      row.nullFlag == "YES",
      if |typeLong| > 1 then Some(StripCloseParen(typeLong[1])) else None)
  }

  /** The length is the text after the first `(`, cut at the next `(` and then at
      the first `)` (for a type written on one line). */
  lemma ParseColumnLength(row: DescribeRow)
    requires '(' in row.columnType
    requires '\n' !in row.columnType[IndexOf(row.columnType, '(') + 1..]
    ensures
      var t := row.columnType;
      ParseColumn(row).length == Some(TakeUntil(TakeUntil(t[IndexOf(t, '(') + 1..], '('), ')'))
  {
    var t := row.columnType;
    var second := Split(t, '(')[1];
    SplitSecond(t, '(');
    assert second <= t[IndexOf(t, '(') + 1..];
    assert '\n' !in second;
    StripCloseParenCuts(second);
  }

  /** A type declared as `base(length)suffix` parses back into its base and length. */
  lemma ParseDeclaredType(field: string, base: string, length: string, suffix: string, nullFlag: string)
    requires '(' !in base && '(' !in length && ')' !in length && '(' !in suffix
    requires '\n' !in length && '\n' !in suffix
    ensures ParseColumn(DescribeRow(field, base + "(" + length + ")" + suffix, nullFlag))
         == ColumnInfo(base, nullFlag == "YES", Some(length))
  {
    var rest := length + ")" + suffix;
    var t := base + "(" + rest;
    assert t == base + ['('] + rest;
    IndexOfAfter(base, '(', rest);
    assert t[..|base|] == base;
    assert t[|base| + 1..] == rest;
    assert '(' !in rest;
    assert '\n' !in rest;
    ParseColumnLength(DescribeRow(field, t, nullFlag));
    assert TakeUntil(rest, '(') == rest;
    assert rest == length + [')'] + suffix;
    IndexOfAfter(length, ')', suffix);
    assert rest[..|length|] == length;
    assert TakeUntil(rest, ')') == length;
    assert ParseColumn(DescribeRow(field, t, nullFlag)).length == Some(length);
    assert ParseColumn(DescribeRow(field, t, nullFlag)).baseType == base;
    assert t == base + "(" + length + ")" + suffix;
  }

  /** A type without parentheses is its own base type and has no length. */
  lemma ParsePlainType(field: string, columnType: string, nullFlag: string)
    requires '(' !in columnType
    ensures ParseColumn(DescribeRow(field, columnType, nullFlag))
         == ColumnInfo(columnType, nullFlag == "YES", None)
  {
  }

  /** The map the DESCRIBE loop builds: one entry per field name, a later row with
      the same name replacing an earlier one. */
  function FieldTypesOf(rows: seq<DescribeRow>): map<string, ColumnInfo>
  {
    if rows == [] then map[]
    else FieldTypesOf(rows[..|rows| - 1])[rows[|rows| - 1].field := ParseColumn(rows[|rows| - 1])]
  }

  /** Every described field has an entry and nothing else does; a field's entry
      is the parse of the last row that describes it. */
  lemma {:induction false} FieldTypesOfKeys(rows: seq<DescribeRow>)
    ensures forall k :: k in FieldTypesOf(rows) <==> exists i :: 0 <= i < |rows| && rows[i].field == k
  {
    if rows != [] {
      var n := |rows| - 1;
      var prefix := rows[..n];
      FieldTypesOfKeys(prefix);
      forall k ensures k in FieldTypesOf(rows) <==> exists i :: 0 <= i < |rows| && rows[i].field == k {
        if k != rows[n].field {
          if exists i :: 0 <= i < |rows| && rows[i].field == k {
            var i :| 0 <= i < |rows| && rows[i].field == k;
            assert prefix[i].field == k;
          }
          if k in FieldTypesOf(prefix) {
            var i :| 0 <= i < n && prefix[i].field == k;
            assert rows[i].field == k;
          }
        }
      }
    }
  }

  lemma {:induction false} FieldTypesOfValues(rows: seq<DescribeRow>, i: nat)
    requires i < |rows| && LastWithName(rows, i)
    ensures rows[i].field in FieldTypesOf(rows)
    ensures FieldTypesOf(rows)[rows[i].field] == ParseColumn(rows[i])
    decreases |rows|
  {
    var n := |rows| - 1;
    if i < n {
      var prefix := rows[..n];
      assert rows[n].field != rows[i].field;
      assert LastWithName(prefix, i) by {
        forall j | i < j < n ensures prefix[j].field != prefix[i].field {
          assert prefix[j] == rows[j];
        }
      }
      FieldTypesOfValues(prefix, i);
    }
  }

  /** Row `i` is the last row of `rows` that describes its field. */
  predicate LastWithName(rows: seq<DescribeRow>, i: int)
    requires 0 <= i < |rows|
  {
    forall j :: i < j < |rows| ==> rows[j].field != rows[i].field
  }
}

/**
  The SQL statement builders of `SQLiteConnection` (sqlite_connection.cpp):
  `create_table` with its check `validate_table_dict`, `insert_row`,
  `insert_rows`, `select_rows`, `update_rows`, `delete_rows` and `drop_table`, each up to
  the point where it hands its statement to `query` or
  `query_with_bindings`.
 */
module GdSqliteStatements {
  import opened GodotVariant

  /**
    How a builder ends: with RC_GDSQLITE_ERROR before any SQL is issued, or
    by issuing a statement with its parameter bindings.
   */
  datatype Statement = Rejected | Issue(sql: string, bindings: seq<Variant>)

  /** n placeholders "?". */
  function Placeholders(n: nat): (ps: seq<string>)
    ensures |ps| == n && forall i | 0 <= i < n :: ps[i] == "?"
  {
    seq(n, _ => "?")
  }

  /** "INSERT INTO t (k1,k2,…) VALUES (?,?,…);" */
  function InsertSql(table: string, keys: seq<string>): string
  {
    "INSERT INTO " + table + " (" + Joined(keys, ",") + ") VALUES (" + Joined(Placeholders(|keys|), ",") + ");"
  }

  /**
    `insert_row(t, row)`: one column and one placeholder per key of the
    row, bound to the row's values in key order.
   */
  method InsertRow(table: string, row: Dictionary) returns (st: Statement)
    ensures st == Issue(InsertSql(table, Keys(row)), Values(row))
  {
    var keys := Keys(row);
    var bindings := Values(row);
    var n := |row|;
    var keyString, valueString := "", "";
    var i := 0;
    while i < n
      invariant 0 <= i <= n
      invariant keyString == JoinedUpTo(keys, i, ",")
      invariant valueString == JoinedUpTo(Placeholders(n), i, ",")
    {
      JoinedUpToNext(keys, i, ",");
      JoinedUpToNext(Placeholders(n), i, ",");
      keyString := keyString + keys[i];
      valueString := valueString + "?";
      if i != n - 1 {
        keyString := keyString + ",";
        valueString := valueString + ",";
      }
      i := i + 1;
    }
    JoinedUpToAll(keys, ",");
    JoinedUpToAll(Placeholders(n), ",");
    var sql := "INSERT INTO " + table + " (" + keyString + ") VALUES (" + valueString + ");";
    st := Issue(sql, bindings);
  }

  lemma {:induction false} CountPlaceholders(n: nat)
    ensures CountAll('?', Placeholders(n)) == n
  {
    if n > 0 {
      CountPlaceholders(n - 1);
      assert Placeholders(n)[..n - 1] == Placeholders(n - 1);
    }
  }

  /** A statement of insert_row has exactly one `?` per key, when neither the table nor a key has one. */
  lemma InsertPlaceholders(table: string, keys: seq<string>)
    requires '?' !in table && forall i | 0 <= i < |keys| :: '?' !in keys[i]
    ensures Count('?', InsertSql(table, keys)) == |keys|
  {
    CountJoined('?', keys, ",");
    KeysFree('?', keys);
    CountJoined('?', Placeholders(|keys|), ",");
    CountPlaceholders(|keys|);
    CountAbsent('?', table);
    var a, b, c := "INSERT INTO " + table + " (", Joined(keys, ","), ") VALUES (";
    var d, e := Joined(Placeholders(|keys|), ","), ");";
    CountAbsent('?', a);
    CountAbsent('?', c);
    CountAbsent('?', e);
    CountAppend('?', a, b);
    CountAppend('?', a + b, c);
    CountAppend('?', a + b + c, d);
    CountAppend('?', a + b + c + d, e);
  }

  lemma {:induction false} KeysFree(c: char, keys: seq<string>)
    requires forall i | 0 <= i < |keys| :: c !in keys[i]
    ensures CountAll(c, keys) == 0
  {
    if keys != [] {
      KeysFree(c, keys[..|keys| - 1]);
      CountAbsent(c, keys[|keys| - 1]);
    }
  }

  /** The column list of insert_row splits back into the keys when no key has a comma. */
  lemma InsertColumns(keys: seq<string>)
    requires keys != [] && forall i | 0 <= i < |keys| :: ',' !in keys[i]
    ensures Split(Joined(keys, ","), ',') == keys
  {
    SplitJoined(keys, ',');
  }

  /** `SQLiteEnums::RC_SQLITE_OK` */
  const RC_SQLITE_OK: int := 0

  /** The statements that open and close the transaction of insert_rows. */
  const BEGIN: Statement := Issue("BEGIN TRANSACTION;", [])
  const END: Statement := Issue("END TRANSACTION;", [])

  /**
    How `insert_rows` ends: every row inserted, a row that is not a
    Dictionary (RC_GDSQLITE_ERROR), or the first insert that failed with its
    result code.
   */
  datatype RowsOutcome = AllInserted | NotADictionary(at: nat) | InsertFailed(at: nat, rc: int)

  /** The insert_row statement for a row. */
  function InsertOf(table: string, row: Variant): Statement
  {
    Issue(InsertSql(table, Keys(AsDict(row))), Values(AsDict(row)))
  }

  /** One insert_row statement per row, in order. */
  function Inserts(table: string, rows: seq<Variant>): (sts: seq<Statement>)
    ensures |sts| == |rows| && forall i | 0 <= i < |rows| :: sts[i] == InsertOf(table, rows[i])
  {
    seq(|rows|, i requires 0 <= i < |rows| => InsertOf(table, rows[i]))
  }

  /**
    The first row from i on at which insert_rows stops: one that is not a
    Dictionary or whose insert does not give RC_SQLITE_OK (`rcOf(j)` is the
    result code of the insert of row j).
   */
  function FirstStop(rows: seq<Variant>, rcOf: nat -> int, i: nat): (k: nat)
    requires i <= |rows|
    ensures i <= k <= |rows|
    ensures forall j | i <= j < k :: rows[j].Dict? && rcOf(j) == RC_SQLITE_OK
    ensures k < |rows| ==> !rows[k].Dict? || rcOf(k) != RC_SQLITE_OK
    decreases |rows| - i
  {
    if i == |rows| || !rows[i].Dict? || rcOf(i) != RC_SQLITE_OK then i else FirstStop(rows, rcOf, i + 1)
  }

  /** The outcome of insert_rows when it stops at row k. */
  function OutcomeAt(rows: seq<Variant>, rcOf: nat -> int, k: nat): RowsOutcome
    requires k <= |rows|
  {
    if k == |rows| then AllInserted
    else if !rows[k].Dict? then NotADictionary(k)
    else InsertFailed(k, rcOf(k))
  }

  /** The number of insert statements issued before the outcome: the failed insert is one of them. */
  function Attempted(outcome: RowsOutcome, n: nat): nat
  {
    match outcome
    case AllInserted => n
    case NotADictionary(k) => k
    case InsertFailed(k, _) => k + 1
  }

  /**
    `insert_rows(t, rows)`, given the result code of each insert: inside
    one transaction, an insert per row up to the first row that is not a
    Dictionary or whose insert fails; the transaction is ended on every path.
   */
  method InsertRows(table: string, rows: seq<Variant>, rcOf: nat -> int) returns (issued: seq<Statement>, outcome: RowsOutcome)
    ensures outcome == OutcomeAt(rows, rcOf, FirstStop(rows, rcOf, 0))
    ensures Attempted(outcome, |rows|) <= |rows|
    ensures issued == [BEGIN] + Inserts(table, rows[..Attempted(outcome, |rows|)]) + [END]
  {
    issued := [BEGIN];
    var i := 0;
    while i < |rows|
      invariant i <= |rows|
      invariant FirstStop(rows, rcOf, 0) == FirstStop(rows, rcOf, i)
      invariant issued == [BEGIN] + Inserts(table, rows[..i])
    {
      if !rows[i].Dict? {
        issued := issued + [END];
        outcome := NotADictionary(i);
        return;
      }
      var st := InsertRow(table, AsDict(rows[i]));
      InsertsNext(table, rows, i);
      issued := issued + [st];
      if rcOf(i) != RC_SQLITE_OK {
        issued := issued + [END];
        outcome := InsertFailed(i, rcOf(i));
        return;
      }
      i := i + 1;
    }
    assert rows[..i] == rows;
    issued := issued + [END];
    outcome := AllInserted;
  }

  /** One more row, one more insert statement. */
  lemma InsertsNext(table: string, rows: seq<Variant>, i: nat)
    requires i < |rows|
    ensures Inserts(table, rows[..i + 1]) == Inserts(table, rows[..i]) + [InsertOf(table, rows[i])]
  {
    var a, b := Inserts(table, rows[..i + 1]), Inserts(table, rows[..i]) + [InsertOf(table, rows[i])];
    assert |a| == |b|;
    forall j | 0 <= j < |a|
      ensures a[j] == b[j]
    {
      if j < i {
        assert rows[..i + 1][j] == rows[..i][j];
      }
    }
  }

  /** The conditions clause: nothing for empty conditions, else " WHERE " and the conditions. */
  function Where(conditions: string): string
  {
    if conditions == "" then "" else " WHERE " + conditions
  }

  /** "SELECT c1, c2 FROM t WHERE cond;" */
  function SelectSql(table: string, conditions: string, columns: seq<string>): string
  {
    "SELECT " + Joined(columns, ", ") + " FROM " + table + Where(conditions) + ";"
  }

  /** The columns of select_rows as Strings. */
  function Texts(columns: seq<Variant>): (ts: seq<string>)
    ensures |ts| == |columns| && forall i | 0 <= i < |columns| :: ts[i] == Stringify(columns[i])
  {
    seq(|columns|, i requires 0 <= i < |columns| => Stringify(columns[i]))
  }

  /**
    `select_rows(t, cond, columns)`: rejected when a column is not a String;
    otherwise the columns joined with ", ", and a WHERE clause unless the
    conditions are empty.
   */
  method SelectRows(table: string, conditions: string, columns: seq<Variant>) returns (st: Statement)
    ensures st.Rejected? <==> exists i | 0 <= i < |columns| :: !columns[i].Str?
    ensures st.Issue? ==> st == Issue(SelectSql(table, conditions, Texts(columns)), [])
  {
    var names := Texts(columns);
    var columnString := "";
    var n := |columns|;
    var i := 0;
    while i < n
      invariant 0 <= i <= n
      invariant forall j | 0 <= j < i :: columns[j].Str?
      invariant columnString == JoinedUpTo(names, i, ", ")
    {
      if !columns[i].Str? {
        return Rejected;
      }
      JoinedUpToNext(names, i, ", ");
      columnString := columnString + columns[i].s;
      if i != n - 1 {
        columnString := columnString + ", ";
      }
      i := i + 1;
    }
    JoinedUpToAll(names, ", ");
    var sql := "SELECT " + columnString + " FROM " + table;
    if conditions != "" {
      sql := sql + (" WHERE " + conditions);
    }
    sql := sql + ";";
    st := Issue(sql, []);
  }

  /** select_rows leaves out the WHERE clause exactly when the conditions are empty. */
  lemma SelectWithoutWhere(table: string, conditions: string, columns: seq<string>)
    ensures SelectSql(table, conditions, columns) == "SELECT " + Joined(columns, ", ") + " FROM " + table + ";"
            <==> conditions == ""
  {
    var head := "SELECT " + Joined(columns, ", ") + " FROM " + table;
    if conditions != "" {
      assert |head + Where(conditions) + ";"| > |head + ";"|;
    }
  }

  /** The assignments "k=?" of update_rows. */
  function Assignments(keys: seq<string>): (xs: seq<string>)
    ensures |xs| == |keys| && forall i | 0 <= i < |keys| :: xs[i] == keys[i] + "=?"
  {
    seq(|keys|, i requires 0 <= i < |keys| => keys[i] + "=?")
  }

  /** "UPDATE t SET k1=?, k2=? WHERE cond;" */
  function UpdateSql(table: string, conditions: string, keys: seq<string>): string
  {
    "UPDATE " + table + " SET " + Joined(Assignments(keys), ", ") + " WHERE " + conditions + ";"
  }

  /**
    `update_rows(t, cond, row)`: one assignment per key of the row, bound to
    the row's values in key order, and always a WHERE clause.
   */
  method UpdateRows(table: string, conditions: string, row: Dictionary) returns (st: Statement)
    ensures st == Issue(UpdateSql(table, conditions, Keys(row)), Values(row))
  {
    var n := |row|;
    var keys := Keys(row);
    var values := Values(row);
    var sets := Assignments(keys);
    var bindings: seq<Variant> := [];
    var sql := "UPDATE " + table + " SET ";
    var i := 0;
    while i < n
      invariant 0 <= i <= n
      invariant sql == "UPDATE " + table + " SET " + JoinedUpTo(sets, i, ", ")
      invariant bindings == values[..i]
    {
      JoinedUpToNext(sets, i, ", ");
      sql := sql + keys[i] + "=?";
      bindings := bindings + [values[i]];
      if i != n - 1 {
        sql := sql + ", ";
      }
      i := i + 1;
    }
    JoinedUpToAll(sets, ", ");
    assert values[..n] == values;
    sql := sql + " WHERE " + conditions + ";";
    st := Issue(sql, bindings);
  }

  lemma {:induction false} CountAssignments(keys: seq<string>)
    requires forall i | 0 <= i < |keys| :: '?' !in keys[i]
    ensures CountAll('?', Assignments(keys)) == |keys|
  {
    if keys != [] {
      var front := keys[..|keys| - 1];
      CountAssignments(front);
      assert Assignments(keys)[..|keys| - 1] == Assignments(front);
      CountAbsent('?', keys[|keys| - 1]);
      CountAppend('?', keys[|keys| - 1], "=?");
    }
  }

  /** A statement of update_rows has exactly one `?` per key, when the table, the conditions and the keys have none. */
  lemma UpdatePlaceholders(table: string, conditions: string, keys: seq<string>)
    requires '?' !in table && '?' !in conditions
    requires forall i | 0 <= i < |keys| :: '?' !in keys[i]
    ensures Count('?', UpdateSql(table, conditions, keys)) == |keys|
  {
    CountJoined('?', Assignments(keys), ", ");
    CountAssignments(keys);
    var a, b := "UPDATE " + table + " SET ", Joined(Assignments(keys), ", ");
    CountAbsent('?', a);
    CountAbsent('?', " WHERE ");
    CountAbsent('?', conditions);
    CountAbsent('?', ";");
    CountAppend('?', a, b);
    CountAppend('?', a + b, " WHERE ");
    CountAppend('?', a + b + " WHERE ", conditions);
    CountAppend('?', a + b + " WHERE " + conditions, ";");
  }

  /**
    `delete_rows(t, cond)`: a WHERE clause unless the conditions are empty
    or "*", which delete every row.
   */
  function DeleteSql(table: string, conditions: string): (sql: string)
    ensures sql == "DELETE FROM " + table + ";" <==> conditions == "" || conditions == "*"
  {
    var head := "DELETE FROM " + table;
    var sql := if conditions != "" && conditions != "*" then head + " WHERE " + conditions + ";" else head + ";";
    assert conditions != "" && conditions != "*" ==> |sql| > |head + ";"|;
    sql
  }

  /** `drop_table(t)`: the table name stands between "DROP TABLE " and the final ";". */
  function DropTableSql(table: string): (sql: string)
    ensures |sql| == |table| + 12 && sql[..11] == "DROP TABLE " && sql[11..|sql| - 1] == table && sql[|sql| - 1] == ';'
  {
    "DROP TABLE " + table + ";"
  }

  /**
    The type `validate_table_dict` requires of a column's default value:
    that of the data type "int", "text" or "real", and for any other data
    type whatever type the default has.
   */
  function DefaultType(dataType: string, given: VariantType): VariantType
  {
    if dataType == "int" then INT
    else if dataType == "text" then STRING
    else if dataType == "real" then FLOAT
    else given
  }

  /**
    What `validate_table_dict` demands of a column: a Dictionary with a
    String `data_type`, and a default, when there is one, of the type the
    data type names.
   */
  predicate ValidColumn(v: Variant)
  {
    v.Dict? && Has(v.entries, "data_type") && At(v.entries, "data_type").Str?
    && (Has(v.entries, "default") ==>
          var t := TypeOf(At(v.entries, "default"));
          DefaultType(At(v.entries, "data_type").s, t) == t)
  }

  predicate ValidTableDict(d: Dictionary)
  {
    forall i | 0 <= i < |d| :: ValidColumn(d[i].1)
  }

  /** The column check spelled out: only the data types "int", "text" and "real" constrain the default. */
  lemma ValidColumnIs(v: Variant)
    ensures ValidColumn(v) <==>
      v.Dict? && Has(v.entries, "data_type") && At(v.entries, "data_type").Str?
      && (Has(v.entries, "default") && At(v.entries, "data_type").s == "int" ==> At(v.entries, "default").Int?)
      && (Has(v.entries, "default") && At(v.entries, "data_type").s == "text" ==> At(v.entries, "default").Str?)
      && (Has(v.entries, "default") && At(v.entries, "data_type").s == "real" ==> At(v.entries, "default").Float?)
  {
  }

  /** `validate_table_dict(d)`: every column passes, checked in order, stopping at the first that does not. */
  method ValidateTableDict(d: Dictionary) returns (ok: bool)
    ensures ok <==> ValidTableDict(d)
  {
    var n := |d|;
    var i := 0;
    while i < n
      invariant 0 <= i <= n
      invariant forall j | 0 <= j < i :: ValidColumn(d[j].1)
    {
      var value := d[i].1;
      if !value.Dict? {
        return false;
      }
      var column := value.entries;
      if !Has(column, "data_type") {
        return false;
      }
      if !At(column, "data_type").Str? {
        return false;
      }
      if Has(column, "default") {
        var defaultType := TypeOf(At(column, "default"));
        var dataType := At(column, "data_type").s;
        var dataTypeType := defaultType;
        if dataType == "int" {
          dataTypeType := INT;
        } else if dataType == "text" {
          dataTypeType := STRING;
        } else if dataType == "real" {
          dataTypeType := FLOAT;
        }
        if dataTypeType != defaultType {
          return false;
        }
      }
      i := i + 1;
    }
    return true;
  }

  /** `column_dict.get(key, false)` as a condition. */
  predicate Flagged(column: Dictionary, key: string)
  {
    Truthy(Get(column, key, Bool(false)))
  }

  predicate IsPrimary(column: Dictionary)
  {
    Flagged(column, "primary_key")
  }

  /** The column of d at i as a Dictionary. */
  function ColumnAt(d: Dictionary, i: nat): Dictionary
    requires i < |d|
  {
    AsDict(d[i].1)
  }

  /**
    Reading the i-th column by position is `p_table_dict[columns[i]]` of
    create_table: a Godot Dictionary holds each key once.
   */
  lemma ColumnLookup(d: Dictionary, i: nat)
    requires DistinctKeys(d) && i < |d|
    ensures ColumnAt(d, i) == AsDict(At(d, Keys(d)[i]))
  {
    GetEntry(d, i, Nil);
  }

  /** Which columns are marked primary_key. */
  function PrimaryFlags(d: Dictionary): (fs: seq<bool>)
    ensures |fs| == |d| && forall i | 0 <= i < |d| :: fs[i] == IsPrimary(ColumnAt(d, i))
  {
    seq(|d|, i requires 0 <= i < |d| => IsPrimary(ColumnAt(d, i)))
  }

  /** The indices of the primary-key columns, in column order. */
  function PrimaryIndices(d: Dictionary): seq<nat>
  {
    Marked(PrimaryFlags(d))
  }

  /** The names of the primary-key columns, in column order. */
  function PrimaryNames(d: Dictionary): (names: seq<string>)
    ensures |names| == |PrimaryIndices(d)|
  {
    Picked(Keys(d), PrimaryFlags(d))
  }

  /** `int` data types (in any case) become INTEGER; others are kept as given. */
  function TypeSql(dataType: string): string
  {
    if StartsWith(Lower(dataType), "int") then "INTEGER" else dataType
  }

  function FlagSql(column: Dictionary, key: string, clause: string): string
  {
    if Flagged(column, key) then clause else ""
  }

  /** The inline primary key, only for a table with a single primary-key column. */
  function PrimaryKeySql(column: Dictionary, primaryCount: nat): string
  {
    if IsPrimary(column) && primaryCount == 1
    then " PRIMARY KEY" + FlagSql(column, "auto_increment", " AUTOINCREMENT")
    else ""
  }

  function DefaultSql(column: Dictionary): string
  {
    if Has(column, "default") then " DEFAULT " + Stringify(At(column, "default")) else ""
  }

  /** One column definition: name, type and constraints. */
  function ColumnSql(name: string, column: Dictionary, primaryCount: nat): string
  {
    name + " " + TypeSql(Stringify(At(column, "data_type"))) + PrimaryKeySql(column, primaryCount)
      + FlagSql(column, "not_null", " NOT NULL") + FlagSql(column, "unique", " UNIQUE") + DefaultSql(column)
  }

  /** The ON DELETE / ON UPDATE actions of a foreign key. */
  function ActionsSql(column: Dictionary): string
  {
    (if Has(column, "on_delete") then " ON DELETE " + Stringify(At(column, "on_delete")) else "")
    + (if Has(column, "on_update") then " ON UPDATE " + Stringify(At(column, "on_update")) else "")
  }

  /**
    The foreign key clause of a column: only with foreign keys on, and for a
    `foreign_key` "table.column" that splits on '.' into exactly two parts.
   */
  function ForeignKeySql(name: string, column: Dictionary, foreignKeys: bool): string
  {
    if foreignKeys && Flagged(column, "foreign_key") then
      var parts := Split(Stringify(At(column, "foreign_key")), '.');
      if |parts| == 2
      then ", FOREIGN KEY (" + name + ") REFERENCES " + parts[0] + "(" + parts[1] + ")" + ActionsSql(column)
      else ""
    else ""
  }

  function ColumnDefs(d: Dictionary, primaryCount: nat): (defs: seq<string>)
    ensures |defs| == |d|
  {
    seq(|d|, i requires 0 <= i < |d| => ColumnSql(d[i].0, ColumnAt(d, i), primaryCount))
  }

  function ForeignKeys(d: Dictionary, foreignKeys: bool): (fks: seq<string>)
    ensures |fks| == |d|
  {
    seq(|d|, i requires 0 <= i < |d| => ForeignKeySql(d[i].0, ColumnAt(d, i), foreignKeys))
  }

  /**
    The list of primary-key names as create_table accumulates it: a name
    replaces the list while the list is still empty, and is appended after
    ", " otherwise.
   */
  function PrimaryList(names: seq<string>): string
  {
    if names == [] then ""
    else
      var front := PrimaryList(names[..|names| - 1]);
      if front == "" then names[|names| - 1] else front + ", " + names[|names| - 1]
  }

  function PrimaryClause(d: Dictionary): string
  {
    if |PrimaryNames(d)| > 1 then ", PRIMARY KEY (" + PrimaryList(PrimaryNames(d)) + ")" else ""
  }

  /** "CREATE TABLE IF NOT EXISTS t (col,col, PRIMARY KEY (a, b), FOREIGN KEY …);" */
  function CreateTableSql(table: string, d: Dictionary, foreignKeys: bool): string
  {
    "CREATE TABLE IF NOT EXISTS " + table + " (" + Joined(ColumnDefs(d, |PrimaryNames(d)|), ",")
      + PrimaryClause(d) + Concat(ForeignKeys(d, foreignKeys)) + ");"
  }

  /** `create_table(t, d)`: rejected unless validate_table_dict passes, otherwise its statement. */
  method CreateTable(table: string, d: Dictionary, foreignKeys: bool) returns (st: Statement)
    ensures !ValidTableDict(d) ==> st == Rejected
    ensures ValidTableDict(d) ==> st == Issue(CreateTableSql(table, d, foreignKeys), [])
  {
    var ok := ValidateTableDict(d);
    if !ok {
      return Rejected;
    }
    var primaryCount := CountPrimary(d);
    var body := ColumnsSql(d, primaryCount);
    var primaryString := PrimaryString(d);
    var keyString := ForeignKeysSql(d, foreignKeys);
    var primaryClause := "";
    if primaryCount > 1 {
      primaryClause := ", PRIMARY KEY (" + primaryString + ")";
    }
    var sql := "CREATE TABLE IF NOT EXISTS " + table + " (" + body + primaryClause + keyString + ");";
    st := Issue(sql, []);
  }

  /** The first loop of create_table: counting the primary-key columns. */
  method CountPrimary(d: Dictionary) returns (count: nat)
    ensures count == |PrimaryNames(d)|
  {
    ghost var names, flags := Keys(d), PrimaryFlags(d);
    count := 0;
    var i := 0;
    while i < |d|
      invariant 0 <= i <= |d|
      invariant count == |Picked(names[..i], flags[..i])|
    {
      PickedNext(names, flags, i);
      var primary := IsPrimary(ColumnAt(d, i));
      assert flags[i] == primary;
      if primary {
        count := count + 1;
      }
      i := i + 1;
    }
    PickedAll(names, flags);
  }

  /** The definition of one column as create_table's second loop assembles it. */
  method ColumnClause(name: string, column: Dictionary, primaryCount: nat) returns (part: string)
    ensures part == ColumnSql(name, column, primaryCount)
  {
    var typeString := Stringify(At(column, "data_type"));
    var typeSql := typeString;
    if StartsWith(Lower(typeString), "int") {
      typeSql := "INTEGER";
    }
    assert typeSql == TypeSql(typeString);
    var primary := "";
    if IsPrimary(column) && primaryCount == 1 {
      primary := " PRIMARY KEY";
      if Flagged(column, "auto_increment") {
        primary := primary + " AUTOINCREMENT";
      }
    }
    assert primary == PrimaryKeySql(column, primaryCount);
    var notNull := "";
    if Flagged(column, "not_null") {
      notNull := " NOT NULL";
    }
    var unique := "";
    if Flagged(column, "unique") {
      unique := " UNIQUE";
    }
    var default := "";
    if Has(column, "default") {
      default := " DEFAULT " + Stringify(At(column, "default"));
    }
    assert notNull == FlagSql(column, "not_null", " NOT NULL");
    assert unique == FlagSql(column, "unique", " UNIQUE");
    assert default == DefaultSql(column);
    part := name + " " + typeSql + primary + notNull + unique + default;
  }

  /** The column definitions of create_table's second loop, separated by ",". */
  method ColumnsSql(d: Dictionary, primaryCount: nat) returns (sql: string)
    ensures sql == Joined(ColumnDefs(d, primaryCount), ",")
  {
    var defs := ColumnDefs(d, primaryCount);
    var n := |d|;
    sql := "";
    var i := 0;
    while i < n
      invariant 0 <= i <= n
      invariant sql == JoinedUpTo(defs, i, ",")
    {
      JoinedUpToNext(defs, i, ",");
      var part := ColumnClause(d[i].0, ColumnAt(d, i), primaryCount);
      sql := sql + part;
      if i != n - 1 {
        sql := sql + ",";
      }
      i := i + 1;
    }
    JoinedUpToAll(defs, ",");
  }

  lemma PrimaryListNext(names: seq<string>, name: string)
    ensures PrimaryList(names + [name]) ==
              if PrimaryList(names) == "" then name else PrimaryList(names) + ", " + name
  {
    assert (names + [name])[..|names|] == names;
  }

  /** The primary-key names of create_table's second loop, kept apart when there are several. */
  method PrimaryString(d: Dictionary) returns (s: string)
    ensures s == PrimaryList(PrimaryNames(d))
  {
    ghost var names, flags := Keys(d), PrimaryFlags(d);
    s := "";
    var i := 0;
    while i < |d|
      invariant 0 <= i <= |d|
      invariant s == PrimaryList(Picked(names[..i], flags[..i]))
    {
      PickedNext(names, flags, i);
      ghost var before := Picked(names[..i], flags[..i]);
      if IsPrimary(ColumnAt(d, i)) {
        assert flags[i] && names[i] == d[i].0;
        assert Picked(names[..i + 1], flags[..i + 1]) == before + [d[i].0];
        PrimaryListNext(before, d[i].0);
        if s == "" {
          s := d[i].0;
        } else {
          s := s + ", " + d[i].0;
        }
      } else {
        assert !flags[i];
        assert Picked(names[..i + 1], flags[..i + 1]) == before + [];
        assert before + [] == before;
      }
      i := i + 1;
    }
    PickedAll(names, flags);
  }

  /** The foreign key clause of one column as create_table's second loop assembles it. */
  method ForeignKeyOf(name: string, column: Dictionary, foreignKeys: bool) returns (clause: string)
    ensures clause == ForeignKeySql(name, column, foreignKeys)
  {
    clause := "";
    if foreignKeys && Flagged(column, "foreign_key") {
      var definition := Stringify(At(column, "foreign_key"));
      var elements := Split(definition, '.');
      if |elements| == 2 {
        var actions := "";
        if Has(column, "on_delete") {
          actions := " ON DELETE " + Stringify(At(column, "on_delete"));
        }
        if Has(column, "on_update") {
          actions := actions + (" ON UPDATE " + Stringify(At(column, "on_update")));
        }
        assert actions == ActionsSql(column);
        clause := ", FOREIGN KEY (" + name + ") REFERENCES " + elements[0] + "(" + elements[1] + ")" + actions;
      }
    }
  }

  /** The foreign key clauses of create_table's second loop. */
  method ForeignKeysSql(d: Dictionary, foreignKeys: bool) returns (s: string)
    ensures s == Concat(ForeignKeys(d, foreignKeys))
  {
    var fks := ForeignKeys(d, foreignKeys);
    s := "";
    var i := 0;
    while i < |d|
      invariant 0 <= i <= |d|
      invariant s == Concat(fks[..i])
    {
      assert fks[..i + 1][..i] == fks[..i];
      var clause := ForeignKeyOf(d[i].0, ColumnAt(d, i), foreignKeys);
      s := s + clause;
      i := i + 1;
    }
    assert fks[..|d|] == fks;
  }

  /**
    The primary indices are exactly the columns marked primary_key, in
    ascending order, and the primary names are their names.
   */
  lemma PrimaryIndicesExactly(d: Dictionary)
    ensures forall k: nat :: k in PrimaryIndices(d) <==> k < |d| && IsPrimary(ColumnAt(d, k))
    ensures Ascending(PrimaryIndices(d))
    ensures forall k | 0 <= k < |PrimaryIndices(d)| ::
              PrimaryIndices(d)[k] < |d| && PrimaryNames(d)[k] == d[PrimaryIndices(d)[k]].0
  {
    MarkedExactly(PrimaryFlags(d));
    MarkedAscending(PrimaryFlags(d));
    PickedAt(Keys(d), PrimaryFlags(d));
  }

  /**
    With a single primary-key column, exactly that column gets the inline
    PRIMARY KEY and no trailing clause is added; with several, no column
    gets it and the trailing clause names them.
   */
  lemma PrimaryKeyPlacement(d: Dictionary, i: nat)
    requires i < |d|
    ensures PrimaryKeySql(ColumnAt(d, i), |PrimaryNames(d)|) != ""
            <==> IsPrimary(ColumnAt(d, i)) && |PrimaryIndices(d)| == 1
    ensures |PrimaryIndices(d)| == 1 ==> (IsPrimary(ColumnAt(d, i)) <==> PrimaryIndices(d) == [i])
    ensures PrimaryClause(d) != "" <==> |PrimaryIndices(d)| > 1
  {
    var column := ColumnAt(d, i);
    var ps := PrimaryIndices(d);
    if IsPrimary(column) && |ps| == 1 {
      assert PrimaryKeySql(column, |PrimaryNames(d)|) == " PRIMARY KEY" + FlagSql(column, "auto_increment", " AUTOINCREMENT");
    }
    if |ps| == 1 {
      MarkedExactly(PrimaryFlags(d));
      assert i in ps <==> IsPrimary(column);
      assert i in ps <==> ps == [i] by {
        assert ps == [ps[0]];
      }
    }
    if |ps| > 1 {
      assert |PrimaryClause(d)| > 0;
    }
  }

  /** With no empty column names the trailing list is the primary names joined with ", ". */
  lemma {:induction false} PrimaryListJoined(names: seq<string>)
    requires forall k | 0 <= k < |names| :: names[k] != ""
    ensures PrimaryList(names) == Joined(names, ", ")
    ensures names != [] ==> PrimaryList(names) != ""
  {
    if names != [] {
      var front := names[..|names| - 1];
      PrimaryListJoined(front);
    }
  }

  /**
    A column gets a foreign key clause exactly when foreign keys are on, its
    `foreign_key` is set and names "table.column" with exactly one '.'; the
    two parts then give back that name.
   */
  lemma ForeignKeyClause(name: string, column: Dictionary, foreignKeys: bool)
    ensures ForeignKeySql(name, column, foreignKeys) != "" <==>
      foreignKeys && Flagged(column, "foreign_key") && Count('.', Stringify(At(column, "foreign_key"))) == 1
    ensures ForeignKeySql(name, column, foreignKeys) != "" ==>
      var parts := Split(Stringify(At(column, "foreign_key")), '.');
      parts[0] + "." + parts[1] == Stringify(At(column, "foreign_key"))
  {
    var definition := Stringify(At(column, "foreign_key"));
    SplitParts(definition, '.');
    var parts := Split(definition, '.');
    if |parts| == 2 {
      JoinedSplit(definition, '.');
      assert parts[..1] == [parts[0]];
    }
  }
}

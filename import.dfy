/**
  The parts of `SQLiteConnection::import_from_json` that only look at data:
  `validate_json`, which checks the parsed JSON array and turns it into the
  objects to import, and `remove_shadow_tables`, which keeps the tables an
  import may drop (sqlite_connection.cpp).
 */
module GdSqliteImport {
  import opened GodotVariant
  import Bytes

  /** `enum ObjectType` of sqlite_connection.hpp. */
  datatype ObjectType = TABLE | INDEX | VIEW | TRIGGER

  /** `struct ObjectStruct` of sqlite_connection.hpp. */
  datatype ObjectStruct = ObjectStruct(
    name: string, sql: string, kind: ObjectType, base64Columns: seq<Variant>, rowArray: seq<Variant>)

  /** `d["type"] == String(name)`: the type field is that String. */
  predicate TypeIs(d: Dictionary, name: string)
  {
    At(d, "type") == Str(name)
  }

  /**
    One element of the array as validate_json reads it: it needs "name",
    "sql" and "type"; a "table" needs an Array "row_array" and may list
    "base64_columns"; "index" is an INDEX, "view" and "trigger" are
    TRIGGERs, and any other type is refused.
   */
  function ObjectOf(v: Variant): (r: Bytes.Option<ObjectStruct>)
    ensures r.Some? ==> r.value.kind != VIEW
    ensures r.Some? ==> r.value.name == Stringify(At(AsDict(v), "name")) && r.value.sql == Stringify(At(AsDict(v), "sql"))
    ensures r.Some? && r.value.kind != TABLE ==> r.value.base64Columns == [] && r.value.rowArray == []
  {
    var d := AsDict(v);
    if !Has(d, "name") || !Has(d, "sql") || !Has(d, "type") then Bytes.None
    else
      var name, sql := Stringify(At(d, "name")), Stringify(At(d, "sql"));
      if TypeIs(d, "table") then
        if !Has(d, "row_array") || !At(d, "row_array").Arr? then Bytes.None
        else
          var base64 := AsArray(Get(d, "base64_columns", Arr([])));
          Bytes.Some(ObjectStruct(name, sql, TABLE, base64, At(d, "row_array").items))
      else if TypeIs(d, "index") then Bytes.Some(ObjectStruct(name, sql, INDEX, [], []))
      else if TypeIs(d, "view") then Bytes.Some(ObjectStruct(name, sql, TRIGGER, [], []))
      else if TypeIs(d, "trigger") then Bytes.Some(ObjectStruct(name, sql, TRIGGER, [], []))
      else Bytes.None
  }

  /** An element validate_json accepts. */
  predicate Importable(v: Variant)
  {
    ObjectOf(v).Some?
  }

  /** The element-by-element reading of the array. */
  function Parsed(arr: seq<Variant>): (os: seq<Bytes.Option<ObjectStruct>>)
    ensures |os| == |arr| && forall i | 0 <= i < |arr| :: os[i] == ObjectOf(arr[i])
  {
    seq(|arr|, i requires 0 <= i < |arr| => ObjectOf(arr[i]))
  }

  /** The number of leading readings that succeed. */
  function FirstRefused(os: seq<Bytes.Option<ObjectStruct>>): (k: nat)
    ensures k <= |os|
    ensures forall i | 0 <= i < k :: os[i].Some?
    ensures k < |os| ==> os[k].None?
  {
    if os == [] || os[0].None? then 0
    else
      var k := 1 + FirstRefused(os[1..]);
      assert forall i | 1 <= i < k :: os[i] == os[1..][i - 1];
      k
  }

  /** The objects of readings that all succeed, in order. */
  function Objects(os: seq<Bytes.Option<ObjectStruct>>): (objects: seq<ObjectStruct>)
    requires forall i | 0 <= i < |os| :: os[i].Some?
    ensures |objects| == |os| && forall i | 0 <= i < |os| :: objects[i] == os[i].value
  {
    seq(|os|, i requires 0 <= i < |os| && os[i].Some? => os[i].value)
  }

  /** The objects validate_json appends: those of the elements before the first refused one. */
  function Accepted(arr: seq<Variant>): seq<ObjectStruct>
  {
    var os := Parsed(arr);
    Objects(os[..FirstRefused(os)])
  }

  /**
    `validate_json(arr, objects)`: true exactly when every element is
    accepted. It appends the objects of the accepted elements to the
    caller's vector in order, and on a refusal returns with the objects of
    the elements before it already appended.
   */
  method ValidateJson(arr: seq<Variant>, initial: seq<ObjectStruct>) returns (ok: bool, objects: seq<ObjectStruct>)
    ensures ok <==> forall i | 0 <= i < |arr| :: Importable(arr[i])
    ensures objects == initial + Accepted(arr)
  {
    ghost var os := Parsed(arr);
    objects := initial;
    var n := |arr|;
    var i := 0;
    while i < n
      invariant 0 <= i <= n
      invariant forall j | 0 <= j < i :: os[j].Some?
      invariant objects == initial + Objects(os[..i])
    {
      var newObject := ObjectOf(arr[i]);
      if newObject.None? {
        assert FirstRefused(os) == i by {
          FirstRefusedAt(os, i);
        }
        assert !Importable(arr[i]);
        return false, objects;
      }
      assert newObject == os[i];
      ObjectsNext(os, i);
      AppendOne(initial, Objects(os[..i]), newObject.value);
      objects := objects + [newObject.value];
      i := i + 1;
    }
    assert os[..n] == os;
    FirstRefusedAt(os, n);
    ok := true;
  }

  /** Appending one element after a concatenation. */
  lemma AppendOne<T>(a: seq<T>, b: seq<T>, x: T)
    ensures (a + b) + [x] == a + (b + [x])
  {
  }

  /** One more successful reading adds its object at the end. */
  lemma ObjectsNext(os: seq<Bytes.Option<ObjectStruct>>, i: nat)
    requires i < |os| && forall j | 0 <= j <= i :: os[j].Some?
    ensures Objects(os[..i + 1]) == Objects(os[..i]) + [os[i].value]
  {
  }

  /** The first refused reading is the one after a run of successes. */
  lemma {:induction false} FirstRefusedAt(os: seq<Bytes.Option<ObjectStruct>>, k: nat)
    requires k <= |os| && forall i | 0 <= i < k :: os[i].Some?
    requires k < |os| ==> os[k].None?
    ensures FirstRefused(os) == k
  {
    if k > 0 {
      FirstRefusedAt(os[1..], k - 1);
    }
  }

  /**
    The acceptance rule spelled out: a Dictionary with "name", "sql" and
    "type", whose type is one of the four names, and which, as a "table",
    has an Array "row_array".
   */
  lemma ImportableIs(v: Variant)
    ensures Importable(v) <==>
      v.Dict? && Has(v.entries, "name") && Has(v.entries, "sql") && Has(v.entries, "type")
      && (TypeIs(v.entries, "table") || TypeIs(v.entries, "index") || TypeIs(v.entries, "view") || TypeIs(v.entries, "trigger"))
      && (TypeIs(v.entries, "table") ==> Has(v.entries, "row_array") && At(v.entries, "row_array").Arr?)
  {
  }

  /** A "view" element is imported as a TRIGGER, with no columns and no rows. */
  lemma ViewIsTrigger(v: Variant)
    requires Importable(v) && TypeIs(AsDict(v), "view")
    ensures ObjectOf(v).value.kind == TRIGGER
    ensures ObjectOf(v).value.base64Columns == [] && ObjectOf(v).value.rowArray == []
  {
  }

  /** A "table" element brings its rows, and its base64 columns when it lists them as an Array. */
  lemma TableRows(v: Variant)
    requires Importable(v) && TypeIs(AsDict(v), "table")
    ensures ObjectOf(v).value.kind == TABLE
    ensures Arr(ObjectOf(v).value.rowArray) == At(AsDict(v), "row_array")
    ensures !Has(AsDict(v), "base64_columns") ==> ObjectOf(v).value.base64Columns == []
  {
  }

  /** The endings of the FTS5 shadow tables of a virtual table. */
  const SHADOW_SUFFIXES: seq<string> := ["_config", "_content", "_data", "_docsize", "_idx"]

  /** `(String)object_dict["name"]` of a query row. */
  function NameOf(row: Variant): string
  {
    Stringify(At(AsDict(row), "name"))
  }

  /** The names of the virtual tables the query returns. */
  function TableNames(virtualTables: seq<Variant>): (names: seq<string>)
    ensures |names| == |virtualTables| && forall i | 0 <= i < |virtualTables| :: names[i] == NameOf(virtualTables[i])
  {
    seq(|virtualTables|, i requires 0 <= i < |virtualTables| => NameOf(virtualTables[i]))
  }

  /** The five shadow table names of a virtual table. */
  function ShadowsOf(virtualTable: string): (names: seq<string>)
    ensures |names| == |SHADOW_SUFFIXES|
  {
    seq(|SHADOW_SUFFIXES|, j requires 0 <= j < |SHADOW_SUFFIXES| => virtualTable + SHADOW_SUFFIXES[j])
  }

  /** The shadow names of all the virtual tables, five per table in table order. */
  function ShadowNames(tables: seq<string>): (names: seq<string>)
    ensures |names| == 5 * |tables|
  {
    if tables == [] then [] else ShadowNames(tables[..|tables| - 1]) + ShadowsOf(tables[|tables| - 1])
  }

  /** A table that is not a shadow table, or a trigger. */
  predicate Kept(v: Variant, shadows: seq<string>)
  {
    var d := AsDict(v);
    (TypeIs(d, "table") && NameOf(v) !in shadows) || TypeIs(d, "trigger")
  }

  /** Which entries are kept. */
  function KeptFlags(objects: seq<Variant>, shadows: seq<string>): (fs: seq<bool>)
    ensures |fs| == |objects| && forall i | 0 <= i < |objects| :: fs[i] == Kept(objects[i], shadows)
  {
    seq(|objects|, i requires 0 <= i < |objects| => Kept(objects[i], shadows))
  }

  /** The entries as the Dictionaries `Dictionary object_dict = p_array[i]` reads. */
  function Rows(objects: seq<Variant>): (rows: seq<Variant>)
    ensures |rows| == |objects| && forall i | 0 <= i < |objects| :: rows[i] == Dict(AsDict(objects[i]))
  {
    seq(|objects|, i requires 0 <= i < |objects| => Dict(AsDict(objects[i])))
  }

  /** The kept entries, as Dictionaries, in their order. */
  function Clean(objects: seq<Variant>, shadows: seq<string>): seq<Variant>
  {
    Picked(Rows(objects), KeptFlags(objects, shadows))
  }

  /** Five appended names are the shadow names of one table. */
  lemma FiveShadows(names: seq<string>, t: string)
    ensures names + [t + "_config"] + [t + "_content"] + [t + "_data"] + [t + "_docsize"] + [t + "_idx"]
            == names + ShadowsOf(t)
  {
    assert ShadowsOf(t) == [t + "_config", t + "_content", t + "_data", t + "_docsize", t + "_idx"];
  }

  /** The first loop of remove_shadow_tables: five names per virtual table. */
  method ShadowTableNames(virtualTables: seq<Variant>) returns (names: seq<string>)
    ensures names == ShadowNames(TableNames(virtualTables))
  {
    ghost var tables := TableNames(virtualTables);
    names := [];
    var i := 0;
    while i < |virtualTables|
      invariant 0 <= i <= |virtualTables|
      invariant names == ShadowNames(tables[..i])
    {
      assert tables[..i + 1][..i] == tables[..i];
      var virtualTableName := NameOf(virtualTables[i]);
      FiveShadows(names, virtualTableName);
      names := names + [virtualTableName + "_config"];
      names := names + [virtualTableName + "_content"];
      names := names + [virtualTableName + "_data"];
      names := names + [virtualTableName + "_docsize"];
      names := names + [virtualTableName + "_idx"];
      i := i + 1;
    }
    assert tables[..|virtualTables|] == tables;
  }

  /**
    `remove_shadow_tables(p_array)`, given the rows of the virtual tables
    (rootpage 0) its query returns: the array becomes its tables that are
    not shadow tables of any of them, and its triggers, in order.
   */
  method RemoveShadowTables(objects: seq<Variant>, virtualTables: seq<Variant>) returns (clean: seq<Variant>)
    ensures clean == Clean(objects, ShadowNames(TableNames(virtualTables)))
  {
    var shadowTableNames := ShadowTableNames(virtualTables);
    ghost var rows, flags := Rows(objects), KeptFlags(objects, shadowTableNames);
    clean := [];
    var i := 0;
    while i < |objects|
      invariant 0 <= i <= |objects|
      invariant clean == Picked(rows[..i], flags[..i])
    {
      PickedNext(rows, flags, i);
      var objectDict := AsDict(objects[i]);
      if TypeIs(objectDict, "table") {
        var tableName := NameOf(objects[i]);
        if !(tableName in shadowTableNames) {
          clean := clean + [Dict(objectDict)];
        }
      } else if TypeIs(objectDict, "trigger") {
        clean := clean + [Dict(objectDict)];
      }
      i := i + 1;
    }
    PickedAll(rows, flags);
  }

  /** A name is a shadow name exactly when it is a virtual table's name followed by one of the five endings. */
  lemma {:induction false} ShadowNamesExactly(tables: seq<string>, name: string)
    ensures name in ShadowNames(tables) <==>
      exists i, j | 0 <= i < |tables| && 0 <= j < |SHADOW_SUFFIXES| :: name == tables[i] + SHADOW_SUFFIXES[j]
  {
    if tables != [] {
      var front, last := tables[..|tables| - 1], tables[|tables| - 1];
      ShadowNamesExactly(front, name);
      assert ShadowNames(tables) == ShadowNames(front) + ShadowsOf(last);
      if name in ShadowsOf(last) {
        var j :| 0 <= j < |SHADOW_SUFFIXES| && ShadowsOf(last)[j] == name;
        assert name == tables[|tables| - 1] + SHADOW_SUFFIXES[j];
      }
      if exists i, j | 0 <= i < |tables| && 0 <= j < |SHADOW_SUFFIXES| :: name == tables[i] + SHADOW_SUFFIXES[j] {
        var i, j :| 0 <= i < |tables| && 0 <= j < |SHADOW_SUFFIXES| && name == tables[i] + SHADOW_SUFFIXES[j];
        if i < |front| {
          assert name == front[i] + SHADOW_SUFFIXES[j];
        } else {
          assert ShadowsOf(last)[j] == name;
        }
      }
    }
  }

  /**
    Exactly the kept entries survive, in order: the result holds, as
    Dictionaries, the entries at the kept positions, which ascend, and an
    entry's position is among them exactly when it is kept.
   */
  lemma CleanExactly(objects: seq<Variant>, shadows: seq<string>)
    ensures |Clean(objects, shadows)| == |Marked(KeptFlags(objects, shadows))|
    ensures forall k | 0 <= k < |Clean(objects, shadows)| ::
              Marked(KeptFlags(objects, shadows))[k] < |objects|
              && Kept(objects[Marked(KeptFlags(objects, shadows))[k]], shadows)
              && Clean(objects, shadows)[k] == Dict(AsDict(objects[Marked(KeptFlags(objects, shadows))[k]]))
    ensures Ascending(Marked(KeptFlags(objects, shadows)))
    ensures forall i: nat :: i in Marked(KeptFlags(objects, shadows)) <==> i < |objects| && Kept(objects[i], shadows)
  {
    var fs := KeptFlags(objects, shadows);
    MarkedExactly(fs);
    MarkedAscending(fs);
    PickedAt(Rows(objects), fs);
  }

  /** An index or a view is never kept. */
  lemma DropsIndexAndView(v: Variant, shadows: seq<string>)
    requires TypeIs(AsDict(v), "index") || TypeIs(AsDict(v), "view")
    ensures Clean([v], shadows) == []
  {
    assert !Kept(v, shadows);
    assert KeptFlags([v], shadows) == [false];
    assert Rows([v])[..0] == [];
    assert KeptFlags([v], shadows)[..0] == [];
  }
}

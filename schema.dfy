/**
 * `SchemaCatalog`: the tables, indexes, views and triggers of a database,
 * each kept in a map under its own name, with the schema format number.
 * Vectors collected from a hash map come out in an order the model leaves
 * open: the getters promise their contents, not their order.
 */
module Schema {
  import opened Wrappers
  import opened Bytes
  import Column

  const SCHEMA_FORMAT_NUMBER: U32 := 4

  datatype TableSchema = TableSchema(
    name: string,
    columns: seq<Column.ColumnSchema>,
    rootPage: U32,
    sql: string,
    estimatedRowCount: Option<nat>,
    isVirtual: bool,
    isSystem: bool,
    isTemporary: bool)

  datatype IndexType = BTree | Hash | Rtree | Unknown

  datatype SortOrder = Ascending | Descending

  datatype IndexColumn = IndexColumn(name: string, position: nat, sortOrder: SortOrder, collation: Option<string>)

  datatype IndexSchema = IndexSchema(
    name: string,
    tableName: string,
    columns: seq<IndexColumn>,
    isUnique: bool,
    indexType: IndexType,
    rootPage: U32,
    sql: string,
    estimatedEntries: Option<nat>)

  /** The elements of a sequence as a set. */
  function Elems<T>(s: seq<T>): set<T>
  {
    set x | x in s
  }

  predicate Distinct<T(==)>(s: seq<T>)
  {
    forall i, j :: 0 <= i < j < |s| ==> s[i] != s[j]
  }

  /** The names of a list of indexes. */
  function IndexNames(s: seq<IndexSchema>): set<string>
  {
    set i | 0 <= i < |s| :: s[i].name
  }

  lemma ElemsAppend<T>(s: seq<T>, x: T)
    ensures Elems(s + [x]) == Elems(s) + {x}
  {
    assert forall y :: y in s + [x] <==> y in s || y == x;
  }

  lemma IndexNamesAppend(s: seq<IndexSchema>, x: IndexSchema)
    ensures IndexNames(s + [x]) == IndexNames(s) + {x.name}
  {
    var t := s + [x];
    assert forall i :: 0 <= i < |s| ==> t[i] == s[i];
    assert t[|s|] == x;
    forall m | m in IndexNames(t)
      ensures m in IndexNames(s) + {x.name}
    {
      var i :| 0 <= i < |t| && t[i].name == m;
      if i < |s| {
        assert s[i].name == m;
      }
    }
  }

  class SchemaCatalog {
    var tables: map<string, TableSchema>
    var indexes: map<string, IndexSchema>
    var views: map<string, string>
    var triggers: map<string, string>
    var version: U32

    /** Every table and index is filed under its own name. */
    predicate Valid()
      reads this
    {
      (forall n :: n in tables ==> tables[n].name == n)
      && (forall n :: n in indexes ==> indexes[n].name == n)
    }

    /** The names of the indexes on `tableName`. */
    function IndexesOn(tableName: string): set<string>
      reads this
    {
      set n | n in indexes && indexes[n].tableName == tableName
    }

    /** `SchemaCatalog::new`: four empty maps and format number 4. */
    constructor ()
      ensures Valid()
      ensures tables == map[] && indexes == map[] && views == map[] && triggers == map[]
      ensures version == SCHEMA_FORMAT_NUMBER
    {
      tables := map[];
      indexes := map[];
      views := map[];
      triggers := map[];
      version := SCHEMA_FORMAT_NUMBER;
    }

    /** `add_table`: files the table under its name, replacing an earlier
        table of that name; nothing else changes. */
    method AddTable(table: TableSchema)
      requires Valid()
      modifies this
      ensures Valid()
      ensures tables == old(tables)[table.name := table]
      ensures indexes == old(indexes) && views == old(views) && triggers == old(triggers) && version == old(version)
    {
      tables := tables[table.name := table];
    }

    /** `add_index`: files the index under its name. */
    method AddIndex(index: IndexSchema)
      requires Valid()
      modifies this
      ensures Valid()
      ensures indexes == old(indexes)[index.name := index]
      ensures tables == old(tables) && views == old(views) && triggers == old(triggers) && version == old(version)
    {
      indexes := indexes[index.name := index];
    }

    /** `get_table`: the table of that name, if one was added. */
    function GetTable(name: string): (r: Option<TableSchema>)
      requires Valid()
      reads this
      ensures r.Some? <==> name in tables
      ensures r.Some? ==> r.value.name == name && r.value == tables[name]
    {
      if name in tables then Some(tables[name]) else None
    }

    /** `get_table_names`: each table name exactly once. */
    method GetTableNames() returns (names: seq<string>)
      ensures Elems(names) == tables.Keys && Distinct(names) && |names| == |tables.Keys|
    {
      names := ListKeys(tables.Keys);
    }

    /** `get_indexes_for_table`: exactly the indexes on that table, each
        once. */
    method GetIndexesForTable(tableName: string) returns (r: seq<IndexSchema>)
      requires Valid()
      ensures IndexNames(r) == IndexesOn(tableName) && |r| == |IndexesOn(tableName)|
      ensures AllOn(r, indexes, tableName)
    {
      r := FilterIndexes(indexes, tableName);
      assert NamesOn(indexes, tableName) == IndexesOn(tableName);
    }
  }

  /** The keys of a hash map collected one by one, in an order left open. */
  method ListKeys(keys: set<string>) returns (names: seq<string>)
    ensures Elems(names) == keys && Distinct(names) && |names| == |keys|
  {
    names := [];
    var remaining := keys;
    while remaining != {}
      invariant remaining <= keys
      invariant Elems(names) + remaining == keys && Elems(names) !! remaining
      invariant Distinct(names) && |Elems(names)| == |names|
      decreases |remaining|
    {
      var n :| n in remaining;
      ElemsAppend(names, n);
      names := names + [n];
      remaining := remaining - {n};
    }
  }

  /** Every index in `r` is the one filed under its name in `idx` and lies
      on `tableName`. */
  predicate AllOn(r: seq<IndexSchema>, idx: map<string, IndexSchema>, tableName: string)
  {
    forall i :: 0 <= i < |r| ==> r[i].name in idx && idx[r[i].name] == r[i] && r[i].tableName == tableName
  }

  lemma AllOnAppend(r: seq<IndexSchema>, idx: map<string, IndexSchema>, tableName: string, x: IndexSchema)
    requires AllOn(r, idx, tableName)
    requires x.name in idx && idx[x.name] == x && x.tableName == tableName
    ensures AllOn(r + [x], idx, tableName)
  {
    var t := r + [x];
    forall i | 0 <= i < |t|
      ensures t[i].name in idx && idx[t[i].name] == t[i] && t[i].tableName == tableName
    {
      if i < |r| {
        assert t[i] == r[i];
      }
    }
  }

  /** The names filed in `idx` under an index on `tableName`. */
  function NamesOn(idx: map<string, IndexSchema>, tableName: string): set<string>
  {
    set n | n in idx && idx[n].tableName == tableName
  }

  /** The loop state of `FilterIndexes` after `remaining` is left to visit. */
  predicate FilterInvariant(idx: map<string, IndexSchema>, tableName: string, r: seq<IndexSchema>, remaining: set<string>)
  {
    remaining <= idx.Keys
    && IndexNames(r) == NamesOn(idx, tableName) - remaining
    && |r| == |IndexNames(r)|
    && AllOn(r, idx, tableName)
  }

  /** Visiting one more key keeps the loop state. */
  lemma FilterStep(idx: map<string, IndexSchema>, tableName: string, r: seq<IndexSchema>, remaining: set<string>, n: string)
    requires forall m :: m in idx ==> idx[m].name == m
    requires FilterInvariant(idx, tableName, r, remaining) && n in remaining
    ensures idx[n].tableName == tableName ==> FilterInvariant(idx, tableName, r + [idx[n]], remaining - {n})
    ensures idx[n].tableName != tableName ==> FilterInvariant(idx, tableName, r, remaining - {n})
  {
    var on := NamesOn(idx, tableName);
    if idx[n].tableName == tableName {
      IndexNamesAppend(r, idx[n]);
      AllOnAppend(r, idx, tableName, idx[n]);
      assert n !in IndexNames(r);
      assert IndexNames(r) + {n} == on - (remaining - {n});
    } else {
      assert n !in on;
      assert IndexNames(r) == on - (remaining - {n});
    }
  }

  /** The values of an index map whose table is `tableName`, collected one
      by one. */
  method FilterIndexes(idx: map<string, IndexSchema>, tableName: string) returns (r: seq<IndexSchema>)
    requires forall n :: n in idx ==> idx[n].name == n
    ensures IndexNames(r) == NamesOn(idx, tableName)
    ensures |r| == |IndexNames(r)|
    ensures AllOn(r, idx, tableName)
  {
    r := [];
    var remaining := idx.Keys;
    assert IndexNames(r) == {};
    while remaining != {}
      invariant FilterInvariant(idx, tableName, r, remaining)
      decreases |remaining|
    {
      var n :| n in remaining;
      FilterStep(idx, tableName, r, remaining, n);
      if idx[n].tableName == tableName {
        r := r + [idx[n]];
      }
      remaining := remaining - {n};
    }
  }
}

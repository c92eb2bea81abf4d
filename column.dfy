/**
 * `ColumnSchema`: a column's declared type, the SQLite type affinity derived
 * from it (section 3.1 of "Datatypes In SQLite": INT, then CHAR/CLOB/TEXT,
 * then BLOB or no type, then REAL/FLOA/DOUB, else NUMERIC), the storage
 * estimates per affinity, and the column's SQL definition text.
 * Upper-casing is ASCII only.
 */
module Column {
  import opened Wrappers

  datatype ColumnAffinity = Text | Numeric | Integer | Real | Blob | None

  datatype ColumnSchema = ColumnSchema(
    name: string,
    dataType: string,
    position: nat,
    isNullable: bool,
    defaultValue: Option<string>,
    isPrimaryKey: bool)

  function UpperChar(c: char): char
  {
    if 'a' <= c <= 'z' then (c as int - 32) as char else c
  }

  /** The ASCII upper-case form of a string, character by character. */
  function Upper(s: string): (r: string)
    ensures |r| == |s|
    ensures forall i :: 0 <= i < |s| ==> r[i] == UpperChar(s[i])
  {
    if s == [] then [] else [UpperChar(s[0])] + Upper(s[1..])
  }

  /** `w` occurs in `s` starting at `i`. */
  predicate OccursAt(s: string, w: string, i: nat)
  {
    i + |w| <= |s| && s[i..i + |w|] == w
  }

  /** `str::contains`: `w` occurs in `s` as a contiguous run. */
  predicate Contains(s: string, w: string)
  {
    exists i: nat :: i <= |s| && OccursAt(s, w, i)
  }

  /** `w` (written in upper case) occurs in `t` at `i`, ignoring case. */
  predicate MatchesAt(t: string, w: string, i: nat)
    requires i + |w| <= |t|
  {
    forall k :: 0 <= k < |w| ==> UpperChar(t[i + k]) == w[k]
  }

  /** `w` occurs somewhere in `t`, ignoring the case of `t`'s letters. */
  predicate ContainsIgnoringCase(t: string, w: string)
  {
    exists i: nat :: i + |w| <= |t| && MatchesAt(t, w, i)
  }

  /** `get_affinity`: the affinity rules of section 3.1, each word matched
      ignoring case. The first rule that applies decides, and the affinity
      is never None. */
  function Affinity(c: ColumnSchema): (r: ColumnAffinity)
    ensures r != ColumnAffinity.None
    ensures r == Integer <==> NamesInteger(c.dataType)
    ensures r == Text <==> !NamesInteger(c.dataType) && NamesText(c.dataType)
    ensures r == Blob <==>
      !NamesInteger(c.dataType) && !NamesText(c.dataType)
      && (ContainsIgnoringCase(c.dataType, "BLOB") || c.dataType == [])
    ensures r == Real <==>
      !NamesInteger(c.dataType) && !NamesText(c.dataType)
      && !ContainsIgnoringCase(c.dataType, "BLOB") && c.dataType != [] && NamesReal(c.dataType)
    ensures r == Numeric <==>
      !NamesInteger(c.dataType) && !NamesText(c.dataType)
      && !ContainsIgnoringCase(c.dataType, "BLOB") && c.dataType != [] && !NamesReal(c.dataType)
  {
    var upper := Upper(c.dataType);
    ContainsUpper(c.dataType, "INT");
    ContainsUpper(c.dataType, "CHAR");
    ContainsUpper(c.dataType, "CLOB");
    ContainsUpper(c.dataType, "TEXT");
    ContainsUpper(c.dataType, "BLOB");
    ContainsUpper(c.dataType, "REAL");
    ContainsUpper(c.dataType, "FLOA");
    ContainsUpper(c.dataType, "DOUB");
    if Contains(upper, "INT") then Integer
    else if Contains(upper, "CHAR") || Contains(upper, "CLOB") || Contains(upper, "TEXT") then Text
    else if Contains(upper, "BLOB") || c.dataType == [] then Blob
    else if Contains(upper, "REAL") || Contains(upper, "FLOA") || Contains(upper, "DOUB") then Real
    else Numeric
  }

  /** `estimate_storage_size`: bytes per value by affinity. */
  function EstimateStorageSize(c: ColumnSchema): (r: nat)
    ensures 8 <= r <= 100
    ensures r == 100 <==> Affinity(c) == Blob
    ensures r == 32 <==> Affinity(c) == Text
    ensures r == 8 <==> Affinity(c) == Integer || Affinity(c) == Real || Affinity(c) == Numeric
  {
    match Affinity(c)
    case Integer => 8
    case Real => 8
    case Text => 32
    case Blob => 100
    case Numeric => 8
  }

  /** `is_indexable`: every column is, since even a BLOB column's estimate
      is below the 1000-byte bound. */
  function IsIndexable(c: ColumnSchema): (r: bool)
    ensures r
  {
    Affinity(c) != Blob || EstimateStorageSize(c) < 1000
  }

  /** The definition text: name, type, then the clauses in order. It starts
      with the name and the declared type, its length accounts for exactly
      the clauses the flags call for, and a default value is its last
      text. */
  function SqlDefinition(c: ColumnSchema): (r: string)
    ensures |r| == |c.name| + 1 + |c.dataType|
      + (if c.isPrimaryKey then 12 else 0)
      + (if c.isNullable then 0 else 9)
      + (if c.defaultValue.Some? then 9 + |c.defaultValue.value| else 0)
    ensures r[..|c.name| + 1 + |c.dataType|] == c.name + " " + c.dataType
    ensures var p := |c.name| + 1 + |c.dataType|;
      c.isPrimaryKey ==> r[p..p + 12] == " PRIMARY KEY"
    ensures var q := |c.name| + 1 + |c.dataType| + (if c.isPrimaryKey then 12 else 0);
      !c.isNullable ==> r[q..q + 9] == " NOT NULL"
    ensures c.defaultValue.Some? ==> r[|r| - |c.defaultValue.value| - 9..] == " DEFAULT " + c.defaultValue.value
  {
    c.name + " " + c.dataType
      + (if c.isPrimaryKey then " PRIMARY KEY" else "")
      + (if !c.isNullable then " NOT NULL" else "")
      + (match c.defaultValue case Some(v) => " DEFAULT " + v case None => "")
  }

  /** `get_sql_definition`: the `name type` text with each clause pushed on. */
  method GetSqlDefinition(c: ColumnSchema) returns (sql: string)
    ensures sql == SqlDefinition(c)
  {
    sql := c.name + " " + c.dataType;
    if c.isPrimaryKey {
      sql := sql + " PRIMARY KEY";
    }
    assert sql == c.name + " " + c.dataType + (if c.isPrimaryKey then " PRIMARY KEY" else "");
    if !c.isNullable {
      sql := sql + " NOT NULL";
    }
    assert sql == c.name + " " + c.dataType + (if c.isPrimaryKey then " PRIMARY KEY" else "")
      + (if !c.isNullable then " NOT NULL" else "");
    if c.defaultValue.Some? {
      sql := sql + " DEFAULT " + c.defaultValue.value;
    }
  }

  // ---------------------------------------------------------------------
  // Properties.

  /** Looking for an upper-case word in the upper-cased type is looking for
      it in the type with case ignored. */
  lemma ContainsUpper(t: string, w: string)
    ensures Contains(Upper(t), w) <==> ContainsIgnoringCase(t, w)
  {
    var u := Upper(t);
    if Contains(u, w) {
      var i: nat :| i <= |u| && OccursAt(u, w, i);
      forall k | 0 <= k < |w|
        ensures UpperChar(t[i + k]) == w[k]
      {
        assert u[i..i + |w|][k] == u[i + k];
      }
      assert MatchesAt(t, w, i);
    }
    if ContainsIgnoringCase(t, w) {
      var i: nat :| i + |w| <= |t| && MatchesAt(t, w, i);
      assert u[i..i + |w|] == w;
      assert OccursAt(u, w, i);
    }
  }

  /** The declared type names an integer, ignoring case. */
  predicate NamesInteger(t: string)
  {
    ContainsIgnoringCase(t, "INT")
  }

  /** The declared type names a text type, ignoring case. */
  predicate NamesText(t: string)
  {
    ContainsIgnoringCase(t, "CHAR") || ContainsIgnoringCase(t, "CLOB") || ContainsIgnoringCase(t, "TEXT")
  }

  /** The declared type names a floating-point type, ignoring case. */
  predicate NamesReal(t: string)
  {
    ContainsIgnoringCase(t, "REAL") || ContainsIgnoringCase(t, "FLOA") || ContainsIgnoringCase(t, "DOUB")
  }

  /** Upper-casing twice is upper-casing once. */
  lemma UpperIdempotent(s: string)
    ensures Upper(Upper(s)) == Upper(s)
  {
    assert forall i :: 0 <= i < |s| ==> UpperChar(UpperChar(s[i])) == UpperChar(s[i]);
  }

  /** The affinity does not depend on the case of the declared type. */
  lemma AffinityIgnoresCase(c: ColumnSchema)
    ensures Affinity(c.(dataType := Upper(c.dataType))) == Affinity(c)
  {
    UpperIdempotent(c.dataType);
  }

  /** Case is ignored: "integer" gives INTEGER affinity. */
  lemma IntegerExample()
    ensures Affinity(ColumnSchema("id", "integer", 0, false, Option.None, true)) == Integer
  {
    assert Upper("integer") == "INTEGER";
    assert OccursAt("INTEGER", "INT", 0);
  }
}

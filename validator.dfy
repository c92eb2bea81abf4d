/**
 * `QueryValidator` and `SemanticAnalyzer`: the validator accepts every
 * statement of a known type; the analyzer keeps each registered table's
 * column list and answers whether a column exists in a table and whether a
 * column name is shared by several tables.
 */
module Validator {
  import opened Wrappers
  import Ast

  class QueryValidator {
    var errors: seq<string>
    var warnings: seq<string>

    /** `QueryValidator::new`. */
    constructor ()
      ensures errors == [] && warnings == []
    {
      errors := [];
      warnings := [];
    }

    /** `validate`: an Unknown statement is rejected and every other type is
        accepted; no error or warning is recorded. */
    method Validate(stmt: Ast.Statement) returns (r: Result<(), string>)
      ensures r.Err? <==> stmt.queryType == Ast.Unknown
    {
      match stmt.queryType
      case Unknown => return Err("Unknown query type");
      case _ => return Ok(());
    }
  }

  /** The registered tables whose column list holds `column`. */
  function TablesWith(tables: map<string, seq<string>>, column: string): set<string>
  {
    set t | t in tables && column in tables[t]
  }

  class SemanticAnalyzer {
    var tables: map<string, seq<string>>

    /** `SemanticAnalyzer::new`. */
    constructor ()
      ensures tables == map[]
    {
      tables := map[];
    }

    /** `add_table`: registers or replaces a table's column list. */
    method AddTable(tableName: string, columns: seq<string>)
      modifies this
      ensures tables == old(tables)[tableName := columns]
    {
      tables := tables[tableName := columns];
    }

    /** `analyze`: accepts every statement. */
    method Analyze(stmt: Ast.Statement) returns (r: Result<(), string>)
      ensures r.Ok?
    {
      return Ok(());
    }

    /** `check_column_exists`: the table is registered and lists the column. */
    function CheckColumnExists(table: string, column: string): (r: bool)
      reads this
      ensures r <==> table in tables && column in tables[table]
    {
      if table in tables then column in tables[table] else false
    }

    /** `is_column_ambiguous`: counts the tables listing the column, one
        table at a time, and reports more than one. */
    method IsColumnAmbiguous(column: string) returns (r: bool)
      ensures r <==> |TablesWith(tables, column)| > 1
    {
      var count := 0;
      var remaining := tables.Keys;
      ghost var counted: set<string> := {};
      while remaining != {}
        invariant remaining <= tables.Keys
        invariant counted == TablesWith(tables, column) - remaining
        invariant count == |counted|
        decreases |remaining|
      {
        var t :| t in remaining;
        if column in tables[t] {
          count := count + 1;
          counted := counted + {t};
        }
        remaining := remaining - {t};
      }
      r := count > 1;
    }
  }

  /** Registering a table changes the answer only for that table. */
  lemma AddTableOnlyAffectsItself(tables: map<string, seq<string>>, name: string, columns: seq<string>, other: string, column: string)
    requires other != name
    ensures (other in tables[name := columns] && column in tables[name := columns][other])
      <==> (other in tables && column in tables[other])
    ensures column in columns ==> name in TablesWith(tables[name := columns], column)
  {
  }

  /** A column listed by two different tables is ambiguous. */
  lemma TwoTablesMakeAmbiguous(tables: map<string, seq<string>>, column: string, a: string, b: string)
    requires a != b && a in tables && b in tables && column in tables[a] && column in tables[b]
    ensures |TablesWith(tables, column)| > 1
  {
    assert {a, b} <= TablesWith(tables, column);
    assert |{a, b}| == 2;
    SubsetCard({a, b}, TablesWith(tables, column));
  }

  /** An ambiguous column is listed by two different tables. */
  lemma AmbiguousHasTwoTables(tables: map<string, seq<string>>, column: string) returns (a: string, b: string)
    requires |TablesWith(tables, column)| > 1
    ensures a != b && a in tables && b in tables && column in tables[a] && column in tables[b]
  {
    var s := TablesWith(tables, column);
    a :| a in s;
    assert |s - {a}| == |s| - 1;
    b :| b in s - {a};
  }

  lemma SubsetCard<T>(a: set<T>, b: set<T>)
    requires a <= b
    ensures |a| <= |b|
  {
    assert b == a + (b - a);
  }
}

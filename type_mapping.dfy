/**
 * `ConnectionClient._map_data_type_to_trino`: the source column type, with
 * any parameter list cut off and lower-cased, is looked up in a fixed table
 * of PostgreSQL and MySQL type names; anything else becomes `varchar`.
 */
module TypeMapping {
  import opened Text

  /** Source base type name to Trino type name. */
  const TypeTable: map<string, string> := map[
    // PostgreSQL to Trino
    "integer" := "integer",
    "bigint" := "bigint",
    "smallint" := "smallint",
    "decimal" := "decimal",
    "numeric" := "decimal",
    "real" := "real",
    "double precision" := "double",
    "boolean" := "boolean",
    "character varying" := "varchar",
    "varchar" := "varchar",
    "char" := "char",
    "text" := "varchar",
    "date" := "date",
    "timestamp" := "timestamp",
    "timestamptz" := "timestamp with time zone",
    "time" := "time",
    "uuid" := "varchar",
    "json" := "json",
    "jsonb" := "json",
    // MySQL to Trino
    "int" := "integer",
    "tinyint" := "tinyint",
    "mediumint" := "integer",
    "float" := "real",
    "double" := "double",
    "datetime" := "timestamp",
    "longtext" := "varchar",
    "mediumtext" := "varchar",
    "tinytext" := "varchar"
  ]

  /** The type given to every source type the table does not know. */
  const DefaultType: string := "varchar"

  /** `source_type.split("(")[0].lower()`. */
  function BaseType(sourceType: string): (r: string)
    ensures '(' !in r
  {
    SplitShape(sourceType, '(');
    Lower(Split(sourceType, '(')[0])
  }

  /**
   * The Trino type for a source type.  The mapping is total and its result is
   * always one of the table's types; a base type the table lacks yields
   * `varchar`.
   */
  function MapDataType(sourceType: string): (r: string)
    ensures r in TypeTable.Values
    ensures BaseType(sourceType) in TypeTable ==> r == TypeTable[BaseType(sourceType)]
    ensures BaseType(sourceType) !in TypeTable ==> r == DefaultType
  {
    assert TypeTable["varchar"] == DefaultType;
    var base := BaseType(sourceType);
    if base in TypeTable then TypeTable[base] else DefaultType
  }

  /** A parameter list after the base type does not change the mapping. */
  lemma ParametersIgnored(base: string, parameters: string)
    requires '(' !in base
    ensures MapDataType(base + "(" + parameters) == MapDataType(base)
  {
    SplitPrefix(base, parameters, '(');
    SplitNoSep(base, '(');
  }

  lemma {:induction false} SplitLowerHead(s: string)
    ensures Split(Lower(s), '(')[0] == Lower(Split(s, '(')[0])
  {
    if s != [] {
      SplitLowerHead(s[1..]);
      assert Lower(s)[1..] == Lower(s[1..]);
      if s[0] != '(' {
        assert Lower([s[0]] + Split(s[1..], '(')[0]) == [LowerChar(s[0])] + Lower(Split(s[1..], '(')[0]);
      }
    }
  }

  /** Upper and lower case spell the same type: the mapping reads only the lower-cased text. */
  lemma CaseIgnored(sourceType: string)
    ensures MapDataType(sourceType) == MapDataType(Lower(sourceType))
  {
    SplitLowerHead(sourceType);
    var head := Split(sourceType, '(')[0];
    assert Lower(Lower(head)) == Lower(head);
  }

  /** A base type that is already lower case and has no parameters is looked up as it is. */
  lemma PlainLookup(base: string)
    requires '(' !in base && forall i :: 0 <= i < |base| ==> !('A' <= base[i] <= 'Z')
    ensures BaseType(base) == base
  {
    SplitNoSep(base, '(');
    assert Lower(base) == base;
  }

  /** `varchar` is looked up as it is. */
  lemma VarcharExample()
    ensures MapDataType("varchar") == "varchar"
  {
    PlainLookup("varchar");
  }

  /** `varchar` with a length is still `varchar`. */
  lemma VarcharLengthExample()
    ensures MapDataType("varchar(10)") == "varchar"
  {
    VarcharExample();
    assert "varchar(10)" == "varchar" + "(" + "10)";
    ParametersIgnored("varchar", "10)");
  }

  /** Upper case and a length change nothing: `VARCHAR(255)` is `varchar`. */
  lemma UpperVarcharExample()
    ensures MapDataType("VARCHAR(255)") == "varchar"
  {
    assert MapDataType("VARCHAR") == "varchar" by {
      VarcharExample();
      CaseIgnored("VARCHAR");
      UpperVarcharLowered();
    }
    assert "VARCHAR(255)" == "VARCHAR" + "(" + "255)";
    ParametersIgnored("VARCHAR", "255)");
  }

  lemma UpperVarcharLowered()
    ensures Lower("VARCHAR") == "varchar"
  {
  }

  /** `numeric(10,2)` becomes `decimal`. */
  lemma NumericExample()
    ensures MapDataType("numeric(10,2)") == "decimal"
  {
    assert MapDataType("numeric") == "decimal" by {
      PlainLookup("numeric");
    }
    assert "numeric(10,2)" == "numeric" + "(" + "10,2)";
    ParametersIgnored("numeric", "10,2)");
  }

  /** `jsonb` becomes `json`, not a string type. */
  lemma JsonbExample()
    ensures MapDataType("jsonb") == "json"
  {
    PlainLookup("jsonb");
  }

  /** A type the table does not list, such as `bytea`, falls back to `varchar`. */
  lemma UnknownExample()
    ensures MapDataType("bytea") == "varchar"
  {
    PlainLookup("bytea");
  }
}

/** Classifying a TQL document by the reader its source declares
    (get_reader_type): six reader tokens, tried in a fixed order, map onto
    four families. */
module Readers {
  import opened Text
  import opened Matching
  import opened Patterns

  datatype Family = MySql | SqlServer | MongoDb | Oracle

  /** The reader tokens in the order they are tried, each with its family. */
  const ReaderTable: seq<(string, Family)> := [
    ("MysqlReader", MySql),
    ("MSSqlReader", SqlServer),
    ("MSJet", SqlServer),
    ("MongoDBReader", MongoDb),
    ("OracleReader", Oracle),
    ("OJet", Oracle)
  ]

  /** Somewhere in `doc` a `CREATE [OR REPLACE] SOURCE <name> USING Global.<reader>`
      declaration occurs, letters compared without regard to case. */
  predicate Declares(doc: string, reader: string) {
    Search(SourceDecl(reader), doc).Some?
  }

  /** The family of the first entry of `table` whose reader `declared` holds for. */
  function FirstDeclared(declared: string -> bool, table: seq<(string, Family)>): Option<Family> {
    if table == [] then None
    else if declared(table[0].0) then Some(table[0].1)
    else FirstDeclared(declared, table[1..])
  }

  /** The family found is that of a declared entry with no declared entry
      before it; nothing is found only when no entry is declared. */
  lemma {:induction false} FirstDeclaredIsFirst(declared: string -> bool, table: seq<(string, Family)>)
    ensures var r := FirstDeclared(declared, table);
      && (r.None? <==> forall k :: 0 <= k < |table| ==> !declared(table[k].0))
      && (r.Some? ==> exists k :: 0 <= k < |table| && declared(table[k].0) && table[k].1 == r.value
                                  && forall j :: 0 <= j < k ==> !declared(table[j].0))
    decreases |table|
  {
    if table != [] && !declared(table[0].0) {
      FirstDeclaredIsFirst(declared, table[1..]);
      assert forall k :: 1 <= k < |table| ==> table[k] == table[1..][k - 1];
      var r := FirstDeclared(declared, table);
      if r.Some? {
        var k :| 0 <= k < |table[1..]| && declared(table[1..][k].0) && table[1..][k].1 == r.value
                 && forall j :: 0 <= j < k ==> !declared(table[1..][j].0);
        assert declared(table[k + 1].0) && forall j :: 0 <= j < k + 1 ==> !declared(table[j].0);
      }
    }
  }

  function Classify(doc: string): Option<Family> {
    FirstDeclared(reader => Declares(doc, reader), ReaderTable)
  }

  lemma ClassifyUnrecognized(doc: string)
    ensures Classify(doc).None? <==>
      !Declares(doc, "MysqlReader") && !Declares(doc, "MSSqlReader") && !Declares(doc, "MSJet")
      && !Declares(doc, "MongoDBReader") && !Declares(doc, "OracleReader") && !Declares(doc, "OJet")
  {
    TableChain(reader => Declares(doc, reader));
  }

  /** Each family in terms of the tokens: the first token declared decides,
      and the two aliased tokens of a family are interchangeable. */
  lemma ClassifyFamilies(doc: string)
    ensures Classify(doc) == Some(MySql) <==> Declares(doc, "MysqlReader")
    ensures Classify(doc) == Some(SqlServer) <==>
      !Declares(doc, "MysqlReader") && (Declares(doc, "MSSqlReader") || Declares(doc, "MSJet"))
    ensures Classify(doc) == Some(MongoDb) <==>
      !Declares(doc, "MysqlReader") && !Declares(doc, "MSSqlReader") && !Declares(doc, "MSJet")
      && Declares(doc, "MongoDBReader")
    ensures Classify(doc) == Some(Oracle) <==>
      !Declares(doc, "MysqlReader") && !Declares(doc, "MSSqlReader") && !Declares(doc, "MSJet")
      && !Declares(doc, "MongoDBReader") && (Declares(doc, "OracleReader") || Declares(doc, "OJet"))
  {
    TableFamilies(reader => Declares(doc, reader));
  }

  /** The same, for any test of which readers are declared. */
  lemma TableFamilies(declared: string -> bool)
    ensures var r := FirstDeclared(declared, ReaderTable);
      && (r == Some(MySql) <==> declared("MysqlReader"))
      && (r == Some(SqlServer) <==>
        !declared("MysqlReader") && (declared("MSSqlReader") || declared("MSJet")))
      && (r == Some(MongoDb) <==>
        !declared("MysqlReader") && !declared("MSSqlReader") && !declared("MSJet")
        && declared("MongoDBReader"))
      && (r == Some(Oracle) <==>
        !declared("MysqlReader") && !declared("MSSqlReader") && !declared("MSJet")
        && !declared("MongoDBReader") && (declared("OracleReader") || declared("OJet")))
  {
    TableChain(declared);
  }

  /** The table tried entry by entry, as a chain of tests. */
  lemma TableChain(declared: string -> bool)
    ensures FirstDeclared(declared, ReaderTable) ==
      if declared("MysqlReader") then Some(MySql)
      else if declared("MSSqlReader") then Some(SqlServer)
      else if declared("MSJet") then Some(SqlServer)
      else if declared("MongoDBReader") then Some(MongoDb)
      else if declared("OracleReader") then Some(Oracle)
      else if declared("OJet") then Some(Oracle)
      else None
  {
    var t := ReaderTable;
    FirstDeclaredNext(declared, t);
    FirstDeclaredNext(declared, t[1..]);
    FirstDeclaredNext(declared, t[2..]);
    FirstDeclaredNext(declared, t[3..]);
    FirstDeclaredNext(declared, t[4..]);
    FirstDeclaredNext(declared, t[5..]);
    assert t[1..][1..] == t[2..] && t[2..][1..] == t[3..] && t[3..][1..] == t[4..];
    assert t[4..][1..] == t[5..] && t[5..][1..] == [];
  }

  lemma FirstDeclaredNext(declared: string -> bool, table: seq<(string, Family)>)
    requires table != []
    ensures FirstDeclared(declared, table) ==
      if declared(table[0].0) then Some(table[0].1) else FirstDeclared(declared, table[1..])
  {
  }

}

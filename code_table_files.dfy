/**
 * The entry points of the genetic-code reader: tokenize the lines of a
 * code-table file, parse them, and key the tables by primary name; or pick
 * out the table with a given name.
 */
module CodeTableFiles {
  import opened Outcomes
  import opened Tokens
  import opened CodeTables
  import opened CodeTableParser

  /** The tables of a file given as its lines, by primary name. */
  function TablesOf(lines: seq<string>): Result<map<string, CodeTable>> {
    Tables(Lex(Joined(lines), 0), map[])
  }

  /** The table of the token list with the given primary name, or none. */
  function LookupIn(tokens: seq<Token>, tableName: string): Result<Option<CodeTable>> {
    var tables :- Tables(tokens, map[]);
    if tableName in tables then Ok(Some(tables[tableName])) else Ok(None)
  }

  /** `getCodeTable`: the table of the file with the given primary name, or none. */
  function Lookup(lines: seq<string>, tableName: string): Result<Option<CodeTable>> {
    LookupIn(Lex(Joined(lines), 0), tableName)
  }

  /**
   * Putting every table of a map under its primary name, in whatever order
   * the map's values are visited. Each resulting key names its table; on a
   * map already keyed by primary name nothing changes.
   */
  method ReKey(tables: map<string, CodeTable>) returns (r: map<string, CodeTable>)
    ensures Keyed(r)
    ensures forall k :: k in r ==> r[k] in tables.Values
    ensures forall t :: t in tables.Values ==> PrimaryName(t) in r
    ensures Keyed(tables) ==> r == tables
  {
    r := map[];
    var rest := tables.Keys;
    while rest != {}
      invariant rest <= tables.Keys
      invariant Keyed(r)
      invariant forall k :: k in r ==> r[k] in tables.Values
      invariant forall j :: j in tables && j !in rest ==> PrimaryName(tables[j]) in r
      invariant Keyed(tables) ==> forall k :: k in r <==> k in tables && k !in rest
      invariant Keyed(tables) ==> forall k :: k in r ==> r[k] == tables[k]
      decreases rest
    {
      var j :| j in rest;
      var table := tables[j];
      r := r[PrimaryName(table) := table];
      rest := rest - {j};
    }
    forall t | t in tables.Values
      ensures PrimaryName(t) in r
    {
      var j :| j in tables && tables[j] == t;
    }
  }

  /** `getCodeTables`: tokenize the lines, parse the tokens, and key the tables by primary name. */
  method GetCodeTables(lines: seq<string>) returns (r: Result<map<string, CodeTable>>)
    ensures r == TablesOf(lines)
  {
    var tokens := TokenizeLines(lines);
    var p := new Parser(tokens);
    var tables := p.GetCodeTables();
    if tables.Err? {
      return Err(tables.error);
    }
    IndexedKeyed(map[], Chain(tokens, 5).value);
    var keyed := ReKey(tables.value);
    r := Ok(keyed);
  }

  /** `getCodeTable`: the table with the given primary name, or none. */
  method GetCodeTable(lines: seq<string>, tableName: string) returns (r: Result<Option<CodeTable>>)
    ensures r == Lookup(lines, tableName)
  {
    var tables := GetCodeTables(lines);
    if tables.Err? {
      return Err(tables.error);
    }
    if tableName in tables.value {
      r := Ok(Some(tables.value[tableName]));
    } else {
      r := Ok(None);
    }
  }

  /** No table is found under a name exactly when no table of the file has that primary name. */
  lemma {:induction false} LookupNone(tokens: seq<Token>, tableName: string)
    requires Tables(tokens, map[]).Ok?
    ensures LookupIn(tokens, tableName) == Ok(None) <==>
      forall i :: 0 <= i < |Chain(tokens, 5).value| ==> PrimaryName(Chain(tokens, 5).value[i]) != tableName
  {
    var ts := Chain(tokens, 5).value;
    var tables := Indexed(map[], ts);
    IndexedKeys(map[], ts);
    assert Tables(tokens, map[]) == Ok(tables);
    assert LookupIn(tokens, tableName) == if tableName in tables then Ok(Some(tables[tableName])) else Ok(None);
    if tableName in tables {
      var i :| 0 <= i < |ts| && PrimaryName(ts[i]) == tableName;
      assert !forall i :: 0 <= i < |ts| ==> PrimaryName(ts[i]) != tableName;
      assert LookupIn(tokens, tableName) != Ok(None);
      assert ts == Chain(tokens, 5).value;
      assert !forall i :: 0 <= i < |Chain(tokens, 5).value| ==> PrimaryName(Chain(tokens, 5).value[i]) != tableName;
    } else {
      forall i | 0 <= i < |ts|
        ensures PrimaryName(ts[i]) != tableName
      {
      }
    }
  }

  /** The table found under a name is the last table of the file with that primary name. */
  lemma {:induction false} LookupFindsLast(tokens: seq<Token>, tableName: string, i: nat)
    requires Tables(tokens, map[]).Ok?
    requires var ts := Chain(tokens, 5).value;
      i < |ts| && PrimaryName(ts[i]) == tableName && forall j :: i < j < |ts| ==> PrimaryName(ts[j]) != tableName
    ensures LookupIn(tokens, tableName) == Ok(Some(Chain(tokens, 5).value[i]))
  {
    IndexedLast(map[], Chain(tokens, 5).value, i);
  }
}

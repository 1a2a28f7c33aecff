/**
 * The parser of the genetic-code file: a fixed header `name ::= {`, then
 * code tables separated by commas, collected into a map keyed by each
 * table's primary name.
 */
module CodeTableParser {
  import opened Outcomes
  import opened Tokens
  import opened CodeTables

  /** The header: a bare word naming the file, then `: : = {`. The name is returned. */
  function Header(tokens: seq<Token>): (r: Result<string>)
    ensures r.Ok? <==> (5 <= |tokens| && tokens[0].code == "token" && tokens[1].code == ":" &&
      tokens[2].code == ":" && tokens[3].code == "=" && tokens[4].code == "{")
    ensures r.Ok? ==> r.value == tokens[0].value
  {
    var name :- CodeAt(tokens, 0, "token");
    var _ :- CodeAt(tokens, 1, ":");
    var _ :- CodeAt(tokens, 2, ":");
    var _ :- CodeAt(tokens, 3, "=");
    var _ :- CodeAt(tokens, 4, "{");
    Ok(name)
  }

  /**
   * The tables from pos: a table, then the token one past its closing
   * brace, which is consumed; another table follows if and only if that
   * token is a comma.
   */
  function Chain(tokens: seq<Token>, pos: nat): Result<seq<CodeTable>>
    decreases |tokens| - pos
  {
    var t :- Table(tokens, pos);
    if t.currentIndex >= |tokens| then Err(IndexOutOfBounds)
    else if tokens[t.currentIndex].code == "," then
      var rest :- Chain(tokens, t.currentIndex + 1);
      Ok([t] + rest)
    else Ok([t])
  }

  /** The map `base` after putting each table of the list under its primary name, in order. */
  function Indexed(base: map<string, CodeTable>, list: seq<CodeTable>): map<string, CodeTable>
    decreases |list|
  {
    if list == [] then base
    else
      var last := list[|list| - 1];
      Indexed(base, list[..|list| - 1])[PrimaryName(last) := last]
  }

  /** What `getCodeTables` of a parser whose map holds `base` returns: the header, then the chain of tables from token 5, put into the map. */
  function Tables(tokens: seq<Token>, base: map<string, CodeTable>): (r: Result<map<string, CodeTable>>)
    ensures r.Ok? ==> Header(tokens).Ok? && Chain(tokens, 5).Ok?
    ensures r.Ok? ==> r.value == Indexed(base, Chain(tokens, 5).value)
    ensures Header(tokens).Err? ==> r == Err(Header(tokens).error)
  {
    var _ :- Header(tokens);
    var list :- Chain(tokens, 5);
    Ok(Indexed(base, list))
  }

  /** Every table of a map is stored under its own primary name. */
  predicate Keyed(tables: map<string, CodeTable>) {
    forall k :: k in tables ==> PrimaryName(tables[k]) == k
  }

  /**
   * The tables of a chain follow each other exactly: the first starts at
   * pos, each one after the first starts one past the comma that follows
   * the previous one, and the token after the last is not a comma.
   */
  ghost predicate Linked(tokens: seq<Token>, pos: nat, ts: seq<CodeTable>) {
    |ts| > 0 && Table(tokens, pos) == Ok(ts[0]) &&
    (forall i :: 0 <= i < |ts| ==> ts[i].currentIndex < |tokens|) &&
    (forall i :: 0 <= i < |ts| - 1 ==> Follows(tokens, ts[i], ts[i + 1])) &&
    tokens[ts[|ts| - 1].currentIndex].code != ","
  }

  /** Table b starts one past the comma that follows table a. */
  ghost predicate Follows(tokens: seq<Token>, a: CodeTable, b: CodeTable) {
    a.currentIndex < |tokens| && tokens[a.currentIndex].code == "," && Table(tokens, a.currentIndex + 1) == Ok(b)
  }

  /** The chain of tables is exactly a linked sequence of tables. */
  lemma {:induction false} ChainLinked(tokens: seq<Token>, pos: nat, ts: seq<CodeTable>)
    ensures Chain(tokens, pos) == Ok(ts) <==> Linked(tokens, pos, ts)
  {
    if Chain(tokens, pos) == Ok(ts) {
      ChainIsLinked(tokens, pos);
    }
    if Linked(tokens, pos, ts) {
      LinkedIsChain(tokens, pos, ts);
    }
  }

  lemma {:induction false} ChainIsLinked(tokens: seq<Token>, pos: nat)
    requires Chain(tokens, pos).Ok?
    ensures Linked(tokens, pos, Chain(tokens, pos).value)
    decreases |tokens| - pos
  {
    var t := Table(tokens, pos).value;
    var ts := Chain(tokens, pos).value;
    if tokens[t.currentIndex].code == "," {
      var next := t.currentIndex + 1;
      ChainIsLinked(tokens, next);
      var rest := Chain(tokens, next).value;
      assert ts == [t] + rest;
      LinkedCons(tokens, pos, t, rest);
    } else {
      assert ts == [t];
    }
  }

  /** A table followed by a comma, then a linked sequence, is linked. */
  lemma {:induction false} LinkedCons(tokens: seq<Token>, pos: nat, t: CodeTable, rest: seq<CodeTable>)
    requires Table(tokens, pos) == Ok(t) && t.currentIndex < |tokens| && tokens[t.currentIndex].code == ","
    requires Linked(tokens, t.currentIndex + 1, rest)
    ensures Linked(tokens, pos, [t] + rest)
  {
    var ts := [t] + rest;
    forall i | 0 <= i < |ts|
      ensures ts[i].currentIndex < |tokens|
    {
      if i > 0 {
        assert ts[i] == rest[i - 1];
      }
    }
    forall i | 0 <= i < |ts| - 1
      ensures Follows(tokens, ts[i], ts[i + 1])
    {
      if i > 0 {
        assert ts[i] == rest[i - 1] && ts[i + 1] == rest[i];
      }
    }
    assert ts[|ts| - 1] == rest[|rest| - 1];
  }

  lemma {:induction false} LinkedIsChain(tokens: seq<Token>, pos: nat, ts: seq<CodeTable>)
    requires Linked(tokens, pos, ts)
    ensures Chain(tokens, pos) == Ok(ts)
    decreases |ts|
  {
    if |ts| > 1 {
      LinkedTail(tokens, pos, ts);
      LinkedIsChain(tokens, ts[0].currentIndex + 1, ts[1..]);
      ChainStep(tokens, pos, ts[0], ts[1..]);
      assert [ts[0]] + ts[1..] == ts;
    } else {
      ChainLast(tokens, pos, ts);
    }
  }

  /** Without its first table, a linked sequence is linked from one past the comma after that table. */
  lemma {:induction false} LinkedTail(tokens: seq<Token>, pos: nat, ts: seq<CodeTable>)
    requires Linked(tokens, pos, ts) && |ts| > 1
    ensures ts[0].currentIndex < |tokens| && tokens[ts[0].currentIndex].code == ","
    ensures Linked(tokens, ts[0].currentIndex + 1, ts[1..])
  {
    var rest := ts[1..];
    assert Table(tokens, ts[0].currentIndex + 1) == Ok(rest[0]);
    forall i | 0 <= i < |rest| - 1
      ensures Follows(tokens, rest[i], rest[i + 1])
    {
      assert rest[i] == ts[i + 1] && rest[i + 1] == ts[i + 2];
    }
  }

  /** The last step of the chain: a table followed by a token other than a comma. */
  lemma {:induction false} ChainLast(tokens: seq<Token>, pos: nat, ts: seq<CodeTable>)
    requires |ts| == 1 && Table(tokens, pos) == Ok(ts[0])
    requires ts[0].currentIndex < |tokens| && tokens[ts[0].currentIndex].code != ","
    ensures Chain(tokens, pos) == Ok(ts)
  {
    assert ts == [ts[0]];
  }

  /** One step of the chain: a table followed by a comma, then the rest. */
  lemma {:induction false} ChainStep(tokens: seq<Token>, pos: nat, t: CodeTable, rest: seq<CodeTable>)
    requires Table(tokens, pos) == Ok(t) && t.currentIndex < |tokens| && tokens[t.currentIndex].code == ","
    requires Chain(tokens, t.currentIndex + 1) == Ok(rest)
    ensures Chain(tokens, pos) == Ok([t] + rest)
  {
  }

  /** Each key of the map is the primary name of a table of the list or a key of `base`. */
  lemma {:induction false} IndexedKeys(base: map<string, CodeTable>, list: seq<CodeTable>)
    ensures forall k :: k in Indexed(base, list) <==> k in base || exists i :: 0 <= i < |list| && PrimaryName(list[i]) == k
    decreases |list|
  {
    if list != [] {
      var init := list[..|list| - 1];
      IndexedKeys(base, init);
      forall k
        ensures k in Indexed(base, list) <==> k in base || exists i :: 0 <= i < |list| && PrimaryName(list[i]) == k
      {
        if exists i :: 0 <= i < |init| && PrimaryName(init[i]) == k {
          var i :| 0 <= i < |init| && PrimaryName(init[i]) == k;
          assert list[i] == init[i];
        }
        if exists i :: 0 <= i < |list| && PrimaryName(list[i]) == k {
          var i :| 0 <= i < |list| && PrimaryName(list[i]) == k;
          if i < |init| {
            assert list[i] == init[i];
          }
        }
      }
    }
  }

  /** A table of the list whose primary name no later table shares is stored under that name. */
  lemma {:induction false} IndexedLast(base: map<string, CodeTable>, list: seq<CodeTable>, i: nat)
    requires i < |list| && forall j :: i < j < |list| ==> PrimaryName(list[j]) != PrimaryName(list[i])
    ensures PrimaryName(list[i]) in Indexed(base, list) && Indexed(base, list)[PrimaryName(list[i])] == list[i]
    decreases |list|
  {
    if i < |list| - 1 {
      var init := list[..|list| - 1];
      assert init[i] == list[i];
      IndexedLast(base, init, i);
    }
  }

  /** A key of `base` that no table of the list has keeps its value. */
  lemma {:induction false} IndexedBase(base: map<string, CodeTable>, list: seq<CodeTable>, k: string)
    requires k in base && forall i :: 0 <= i < |list| ==> PrimaryName(list[i]) != k
    ensures k in Indexed(base, list) && Indexed(base, list)[k] == base[k]
    decreases |list|
  {
    if list != [] {
      var init := list[..|list| - 1];
      assert forall i :: 0 <= i < |init| ==> init[i] == list[i];
      IndexedBase(base, init, k);
    }
  }

  /** Putting tables under their primary names keeps a map keyed by primary name. */
  lemma {:induction false} IndexedKeyed(base: map<string, CodeTable>, list: seq<CodeTable>)
    requires Keyed(base)
    ensures Keyed(Indexed(base, list))
    decreases |list|
  {
    if list != [] {
      IndexedKeyed(base, list[..|list| - 1]);
    }
  }

  /** The parser: the token list, the tables read so far, the file's name and the cursor. */
  class Parser {
    const tokens: seq<Token>
    var codeTables: map<string, CodeTable>
    var name: string
    var currentToken: nat

    constructor(tokens: seq<Token>)
      ensures this.tokens == tokens && codeTables == map[] && name == "" && currentToken == 0
    {
      this.tokens := tokens;
      codeTables := map[];
      name := "";
      currentToken := 0;
    }

    /**
     * `getNextTable`: read a table at the cursor and put it under its primary
     * name; the cursor moves one past the token after the table, and the
     * answer is whether that token is a comma.
     */
    method GetNextTable() returns (r: Result<bool>)
      modifies this
      ensures name == old(name)
      ensures Table(tokens, old(currentToken)).Err? ==>
        r == Err(Table(tokens, old(currentToken)).error) &&
        codeTables == old(codeTables) && currentToken == old(currentToken)
      ensures Table(tokens, old(currentToken)).Ok? ==>
        var t := Table(tokens, old(currentToken)).value;
        codeTables == old(codeTables)[PrimaryName(t) := t] &&
        currentToken == t.currentIndex + 1 &&
        r == (if t.currentIndex < |tokens| then Ok(tokens[t.currentIndex].code == ",") else Err(IndexOutOfBounds))
    {
      var t := ReadTable(tokens, currentToken);
      if t.Err? {
        return Err(t.error);
      }
      codeTables := codeTables[PrimaryName(t.value) := t.value];
      currentToken := t.value.currentIndex;
      var next := currentToken;
      currentToken := currentToken + 1;
      if next >= |tokens| {
        return Err(IndexOutOfBounds);
      }
      r := Ok(tokens[next].code == ",");
    }

    /**
     * `getCodeTables`: check the header, then read tables while each is
     * followed by a comma; the result is the map of tables by primary name.
     */
    method GetCodeTables() returns (r: Result<map<string, CodeTable>>)
      modifies this
      ensures r == Tables(tokens, old(codeTables))
      ensures r.Ok? ==> codeTables == r.value && name == tokens[0].value
    {
      if |tokens| == 0 {
        return Err(IndexOutOfBounds);
      }
      if tokens[0].code != "token" {
        return Err(InvalidToken);
      }
      name := tokens[0].value;
      var header := Header(tokens);
      if header.Err? {
        return Err(header.error);
      }
      currentToken := 5;
      ghost var base := codeTables;
      ghost var done: seq<CodeTable> := [];
      assert Prepended(done, Chain(tokens, 5)) == Chain(tokens, 5) by {
        if Chain(tokens, 5).Ok? {
          assert [] + Chain(tokens, 5).value == Chain(tokens, 5).value;
        }
      }
      while true
        invariant currentToken <= |tokens|
        invariant name == tokens[0].value
        invariant codeTables == Indexed(base, done)
        invariant Chain(tokens, 5) == Prepended(done, Chain(tokens, currentToken))
        decreases |tokens| - currentToken
      {
        ghost var pos := currentToken;
        var more := GetNextTable();
        if more.Err? {
          return Err(more.error);
        }
        ghost var t := Table(tokens, pos).value;
        PrependedNext(done, t, tokens, pos);
        assert (done + [t])[..|done|] == done;
        done := done + [t];
        if !more.value {
          assert done + [] == done;
          return Ok(codeTables);
        }
      }
    }
  }

  /** The tables read so far in front of the outcome of the rest of the chain. */
  function Prepended(done: seq<CodeTable>, rest: Result<seq<CodeTable>>): Result<seq<CodeTable>> {
    match rest
    case Err(e) => Err(e)
    case Ok(ts) => Ok(done + ts)
  }

  /** Moving one table that has been read from the rest of the chain to the tables read so far changes nothing. */
  lemma {:induction false} PrependedNext(done: seq<CodeTable>, t: CodeTable, tokens: seq<Token>, pos: nat)
    requires Table(tokens, pos) == Ok(t) && t.currentIndex < |tokens|
    ensures tokens[t.currentIndex].code == "," ==>
      Prepended(done, Chain(tokens, pos)) == Prepended(done + [t], Chain(tokens, t.currentIndex + 1))
    ensures tokens[t.currentIndex].code != "," ==>
      Prepended(done, Chain(tokens, pos)) == Ok(done + [t])
  {
    var rest := Chain(tokens, t.currentIndex + 1);
    if tokens[t.currentIndex].code != "," {
      ChainLast(tokens, pos, [t]);
    } else if rest.Ok? {
      ChainStep(tokens, pos, t, rest.value);
      assert done + ([t] + rest.value) == (done + [t]) + rest.value;
    } else {
      assert Chain(tokens, pos) == Err(rest.error);
    }
  }
}

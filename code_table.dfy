/**
 * One genetic-code table of the NCBI genetic-code file, read from the token
 * list by a cursor, and the codon map, start codons and stop codons derived
 * from its three aligned base rows.
 */
module CodeTables {
  import opened Outcomes
  import opened Tokens

  /** A code table: its names, id, the amino-acid rows `ncbieaa` and `sncbieaa`, the three base rows, and where it ended. */
  datatype CodeTable = CodeTable(
    names: seq<string>,
    id: string,
    ncbi: string,
    sncbi: string,
    base1: string,
    base2: string,
    base3: string,
    currentIndex: nat)

  // ---------------------------------------------------------------------------
  // Checking one token

  /** The token at pos must have syntactic code `code`; its text is returned. */
  function CodeAt(tokens: seq<Token>, pos: nat, code: string): (r: Result<string>)
    ensures r.Ok? <==> pos < |tokens| && tokens[pos].code == code
    ensures r.Ok? ==> r.value == tokens[pos].value
    ensures r == Err(IndexOutOfBounds) <==> pos >= |tokens|
  {
    if pos >= |tokens| then Err(IndexOutOfBounds)
    else if tokens[pos].code == code then Ok(tokens[pos].value)
    else Err(InvalidToken)
  }

  /** The token at pos must have the text `value`, whatever its code. */
  function ValueAt(tokens: seq<Token>, pos: nat, value: string): (r: Result<string>)
    ensures r.Ok? <==> pos < |tokens| && tokens[pos].value == value
    ensures r.Ok? ==> r.value == value
    ensures r == Err(IndexOutOfBounds) <==> pos >= |tokens|
  {
    if pos >= |tokens| then Err(IndexOutOfBounds)
    else if tokens[pos].value == value then Ok(value)
    else Err(InvalidToken)
  }

  /** A labelled field: the text `key`, then a token of code `code` whose text is the field's value. */
  function Field(tokens: seq<Token>, pos: nat, key: string, code: string): Result<string> {
    var _ :- ValueAt(tokens, pos, key);
    CodeAt(tokens, pos + 1, code)
  }

  /** A base row: `-- BaseK` followed by a bare word holding the row. */
  function BaseRow(tokens: seq<Token>, pos: nat, key: string): Result<string> {
    var _ :- CodeAt(tokens, pos, "-");
    var _ :- CodeAt(tokens, pos + 1, "-");
    Field(tokens, pos + 2, key, "token")
  }

  // ---------------------------------------------------------------------------
  // The table grammar

  /** A name entry at i: the text "name", a string holding `name`, and a comma. */
  predicate NameAt(tokens: seq<Token>, i: nat, name: string) {
    i + 2 < |tokens| && tokens[i].value == "name" &&
    tokens[i + 1].code == "string" && tokens[i + 1].value == name && tokens[i + 2].code == ","
  }

  /**
   * The names loop from pos: as long as the next token's text is "name",
   * read a name entry; stop at the first token whose text is not "name".
   * The names are returned in order, with the position after them.
   */
  function Names(tokens: seq<Token>, pos: nat): Result<(seq<string>, nat)>
    decreases |tokens| - pos
  {
    if pos >= |tokens| then Err(IndexOutOfBounds)
    else if tokens[pos].value != "name" then Ok(([], pos))
    else
      var name :- Field(tokens, pos, "name", "string");
      var _ :- CodeAt(tokens, pos + 2, ",");
      var rest :- Names(tokens, pos + 3);
      Ok(([name] + rest.0, rest.1))
  }

  /**
   * The constructor of a code table, reading from `start`:
   * '{' (name STRING ',')* id INTEGER ',' ncbieaa STRING ',' sncbieaa STRING
   * '-' '-' Base1 TOKEN '-' '-' Base2 TOKEN '-' '-' Base3 TOKEN '}'.
   * The first check that fails aborts the table.
   */
  function Table(tokens: seq<Token>, start: nat): (r: Result<CodeTable>)
    ensures r.Ok? ==> r.value.currentIndex >= start + 22
  {
    var _ :- CodeAt(tokens, start, "{");
    var named :- Names(tokens, start + 1);
    NamesEnd(tokens, start + 1);
    Fields(tokens, named.1, named.0)
  }

  /** The names loop ends three tokens per name after where it began. */
  lemma {:induction false} NamesEnd(tokens: seq<Token>, pos: nat)
    ensures Names(tokens, pos).Ok? ==> Names(tokens, pos).value.1 == pos + 3 * |Names(tokens, pos).value.0|
    decreases |tokens| - pos
  {
    if pos < |tokens| && tokens[pos].value == "name" {
      NamesEnd(tokens, pos + 3);
    }
  }

  /**
   * The token list holds, from `start`, exactly the table t: its opening
   * brace, its name entries, its labelled fields and base rows, and the
   * closing brace, which t's end index is one past.
   */
  ghost predicate Shaped(tokens: seq<Token>, start: nat, t: CodeTable) {
    start < |tokens| && tokens[start].code == "{" &&
    (forall k :: 0 <= k < |t.names| ==> NameAt(tokens, start + 1 + 3 * k, t.names[k])) &&
    FieldsShaped(tokens, start + 1 + 3 * |t.names|, t)
  }

  /** The tokens from p hold t's labelled fields and base rows and its closing brace, which t's end index is one past. */
  ghost predicate FieldsShaped(tokens: seq<Token>, p: nat, t: CodeTable) {
    t.currentIndex == p + 21 <= |tokens| &&
    tokens[p].value == "id" && tokens[p + 1].code == "integer" && tokens[p + 1].value == t.id &&
    tokens[p + 2].code == "," &&
    tokens[p + 3].value == "ncbieaa" && tokens[p + 4].code == "string" && tokens[p + 4].value == t.ncbi &&
    tokens[p + 5].code == "," &&
    tokens[p + 6].value == "sncbieaa" && tokens[p + 7].code == "string" && tokens[p + 7].value == t.sncbi &&
    tokens[p + 8].code == "-" && tokens[p + 9].code == "-" &&
    tokens[p + 10].value == "Base1" && tokens[p + 11].code == "token" && tokens[p + 11].value == t.base1 &&
    tokens[p + 12].code == "-" && tokens[p + 13].code == "-" &&
    tokens[p + 14].value == "Base2" && tokens[p + 15].code == "token" && tokens[p + 15].value == t.base2 &&
    tokens[p + 16].code == "-" && tokens[p + 17].code == "-" &&
    tokens[p + 18].value == "Base3" && tokens[p + 19].code == "token" && tokens[p + 19].value == t.base3 &&
    tokens[p + 20].code == "}"
  }

  /** The checks after the names accept exactly the shaped fields. */
  lemma {:induction false} FieldsGrammar(tokens: seq<Token>, p: nat, names: seq<string>, t: CodeTable)
    ensures Fields(tokens, p, names) == Ok(t) <==> t.names == names && FieldsShaped(tokens, p, t)
  {
  }

  /** The names loop reads exactly the name entries that follow pos, up to a token whose text is not "name". */
  lemma {:induction false} NamesExactly(tokens: seq<Token>, pos: nat, names: seq<string>, q: nat)
    ensures Names(tokens, pos) == Ok((names, q)) <==>
      q == pos + 3 * |names| && q < |tokens| && tokens[q].value != "name" &&
      forall k :: 0 <= k < |names| ==> NameAt(tokens, pos + 3 * k, names[k])
    decreases |tokens| - pos
  {
    if pos < |tokens| && tokens[pos].value == "name" && names != [] {
      NamesExactly(tokens, pos + 3, names[1..], q);
      var r := Names(tokens, pos);
      if r == Ok((names, q)) {
        forall k | 0 <= k < |names|
          ensures NameAt(tokens, pos + 3 * k, names[k])
        {
          if k > 0 {
            assert NameAt(tokens, pos + 3 + 3 * (k - 1), names[1..][k - 1]);
          }
        }
      }
      if q == pos + 3 * |names| && q < |tokens| && tokens[q].value != "name" &&
        forall k :: 0 <= k < |names| ==> NameAt(tokens, pos + 3 * k, names[k])
      {
        assert NameAt(tokens, pos, names[0]);
        forall k | 0 <= k < |names[1..]|
          ensures NameAt(tokens, pos + 3 + 3 * k, names[1..][k])
        {
          assert NameAt(tokens, pos + 3 * (k + 1), names[k + 1]);
        }
        assert names == [names[0]] + names[1..];
      }
    } else if pos < |tokens| && tokens[pos].value == "name" {
      assert names == [];
      var r := Names(tokens, pos);
      if r.Ok? {
        NamesEnd(tokens, pos + 3);
      }
    }
  }

  /** The reader accepts exactly the shaped token lists: `Table` returns t if and only if the tokens from `start` are t. */
  lemma {:induction false} TableGrammar(tokens: seq<Token>, start: nat, t: CodeTable)
    ensures Table(tokens, start) == Ok(t) <==> Shaped(tokens, start, t)
  {
    if Table(tokens, start) == Ok(t) {
      TableIsShaped(tokens, start, t);
    }
    if Shaped(tokens, start, t) {
      ShapedIsTable(tokens, start, t);
    }
  }

  lemma {:induction false} TableIsShaped(tokens: seq<Token>, start: nat, t: CodeTable)
    requires Table(tokens, start) == Ok(t)
    ensures Shaped(tokens, start, t)
  {
    var named := Names(tokens, start + 1).value;
    NamesEnd(tokens, start + 1);
    FieldsGrammar(tokens, named.1, named.0, t);
    assert named.0 == t.names;
    NamesExactly(tokens, start + 1, t.names, named.1);
  }

  lemma {:induction false} ShapedIsTable(tokens: seq<Token>, start: nat, t: CodeTable)
    requires Shaped(tokens, start, t)
    ensures Table(tokens, start) == Ok(t)
  {
    var p := start + 1 + 3 * |t.names|;
    NamesExactly(tokens, start + 1, t.names, p);
    FieldsGrammar(tokens, p, t.names, t);
  }

  /** `getPrimaryName`: the first name, or the empty string for a table without names. */
  function PrimaryName(t: CodeTable): string {
    if |t.names| > 0 then t.names[0] else ""
  }

  /** The primary name of a table read from the tokens is the text of its first name string, if it has one. */
  lemma {:induction false} PrimaryNameIsFirst(tokens: seq<Token>, start: nat, t: CodeTable)
    requires Table(tokens, start) == Ok(t)
    ensures start + 2 < |tokens|
    ensures tokens[start + 1].value == "name" ==> PrimaryName(t) == tokens[start + 2].value
    ensures tokens[start + 1].value != "name" ==> PrimaryName(t) == ""
  {
    TableGrammar(tokens, start, t);
    if |t.names| > 0 {
      assert NameAt(tokens, start + 1, t.names[0]);
    }
  }

  /**
   * The constructor: a cursor walks the tokens, the names loop runs while
   * the next token's text is "name", and the cursor ends one past '}'.
   */
  method ReadTable(tokens: seq<Token>, start: nat) returns (r: Result<CodeTable>)
    ensures r == Table(tokens, start)
  {
    var open := CodeAt(tokens, start, "{");
    if open.Err? {
      return Err(open.error);
    }
    var named := ReadNames(tokens, start + 1);
    if named.Err? {
      return Err(named.error);
    }
    r := ReadFields(tokens, named.value.1, named.value.0);
  }

  /** The names loop of the constructor: read name entries while the next token's text is "name". */
  method ReadNames(tokens: seq<Token>, start: nat) returns (r: Result<(seq<string>, nat)>)
    ensures r == Names(tokens, start)
  {
    var names: seq<string> := [];
    var currentIndex := start;
    assert Prefixed([], Names(tokens, start)) == Names(tokens, start) by {
      match Names(tokens, start)
      case Err(_) =>
      case Ok(x) => assert [] + x.0 == x.0;
    }
    while true
      invariant Names(tokens, start) == Prefixed(names, Names(tokens, currentIndex))
      decreases |tokens| - currentIndex
    {
      if currentIndex >= |tokens| {
        return Err(IndexOutOfBounds);
      }
      if tokens[currentIndex].value != "name" {
        assert names + [] == names;
        return Ok((names, currentIndex));
      }
      var name := Field(tokens, currentIndex, "name", "string");
      if name.Err? {
        return Err(name.error);
      }
      var comma := CodeAt(tokens, currentIndex + 2, ",");
      if comma.Err? {
        return Err(comma.error);
      }
      PrefixedNext(names, name.value, Names(tokens, currentIndex + 3));
      names := names + [name.value];
      currentIndex := currentIndex + 3;
    }
  }

  /** Moving one name from the rest of the loop to the names read so far changes nothing. */
  lemma {:induction false} PrefixedNext(names: seq<string>, name: string, rest: Result<(seq<string>, nat)>)
    ensures Prefixed(names, match rest case Err(e) => Err(e) case Ok(x) => Ok(([name] + x.0, x.1))) ==
      Prefixed(names + [name], rest)
  {
    if rest.Ok? {
      assert names + ([name] + rest.value.0) == (names + [name]) + rest.value.0;
    }
  }

  /** The names read so far in front of the outcome of the rest of the loop. */
  function Prefixed(names: seq<string>, rest: Result<(seq<string>, nat)>): Result<(seq<string>, nat)> {
    match rest
    case Err(e) => Err(e)
    case Ok(x) => Ok((names + x.0, x.1))
  }

  /** The fields after the names, checked one token after the other as the constructor does. */
  method ReadFields(tokens: seq<Token>, p: nat, names: seq<string>) returns (r: Result<CodeTable>)
    ensures r == Fields(tokens, p, names)
  {
    var currentIndex := p;
    var id := Field(tokens, currentIndex, "id", "integer");
    if id.Err? { return Err(id.error); }
    currentIndex := currentIndex + 2;
    var comma := CodeAt(tokens, currentIndex, ",");
    if comma.Err? { return Err(comma.error); }
    currentIndex := currentIndex + 1;
    var ncbi := Field(tokens, currentIndex, "ncbieaa", "string");
    if ncbi.Err? { return Err(ncbi.error); }
    currentIndex := currentIndex + 2;
    comma := CodeAt(tokens, currentIndex, ",");
    if comma.Err? { return Err(comma.error); }
    currentIndex := currentIndex + 1;
    var sncbi := Field(tokens, currentIndex, "sncbieaa", "string");
    if sncbi.Err? { return Err(sncbi.error); }
    currentIndex := currentIndex + 2;
    var base1 := BaseRow(tokens, currentIndex, "Base1");
    if base1.Err? { return Err(base1.error); }
    currentIndex := currentIndex + 4;
    var base2 := BaseRow(tokens, currentIndex, "Base2");
    if base2.Err? { return Err(base2.error); }
    currentIndex := currentIndex + 4;
    var base3 := BaseRow(tokens, currentIndex, "Base3");
    if base3.Err? { return Err(base3.error); }
    currentIndex := currentIndex + 4;
    var close := CodeAt(tokens, currentIndex, "}");
    if close.Err? { return Err(close.error); }
    currentIndex := currentIndex + 1;
    r := Ok(CodeTable(names, id.value, ncbi.value, sncbi.value, base1.value, base2.value, base3.value, currentIndex));
  }

  /** The part of `Table` after the names loop. */
  function Fields(tokens: seq<Token>, p: nat, names: seq<string>): (r: Result<CodeTable>)
    ensures r.Ok? ==> r.value.names == names && r.value.currentIndex == p + 21
  {
    var id :- Field(tokens, p, "id", "integer");
    var _ :- CodeAt(tokens, p + 2, ",");
    var ncbi :- Field(tokens, p + 3, "ncbieaa", "string");
    var _ :- CodeAt(tokens, p + 5, ",");
    var sncbi :- Field(tokens, p + 6, "sncbieaa", "string");
    var base1 :- BaseRow(tokens, p + 8, "Base1");
    var base2 :- BaseRow(tokens, p + 12, "Base2");
    var base3 :- BaseRow(tokens, p + 16, "Base3");
    var _ :- CodeAt(tokens, p + 20, "}");
    Ok(CodeTable(names, id, ncbi, sncbi, base1, base2, base3, p + 21))
  }

  // ---------------------------------------------------------------------------
  // Codons

  /** Whether all three base rows reach position i. */
  predicate Covers(t: CodeTable, i: nat) {
    i < |t.base1| && i < |t.base2| && i < |t.base3|
  }

  /** The codon at column i: the i-th base of each row. */
  function Codon(t: CodeTable, i: nat): (r: string)
    requires Covers(t, i)
    ensures |r| == 3
  {
    [t.base1[i], t.base2[i], t.base3[i]]
  }

  /** The codon map after columns 0 .. n-1: each column maps its codon to its amino acid, a later column replacing an earlier one. */
  function CodonMap(t: CodeTable, n: nat): map<string, string>
    requires n <= |t.ncbi| && forall i :: 0 <= i < n ==> Covers(t, i)
  {
    if n == 0 then map[] else CodonMap(t, n - 1)[Codon(t, n - 1) := [t.ncbi[n - 1]]]
  }

  /** `getCodonTable`: the codon map over every column of `ncbieaa`; a base row shorter than `ncbieaa` throws. */
  function Codons(t: CodeTable): Result<map<string, string>> {
    if forall i :: 0 <= i < |t.ncbi| ==> Covers(t, i) then Ok(CodonMap(t, |t.ncbi|)) else Err(IndexOutOfBounds)
  }

  /**
   * The codon map's keys are exactly the codons of the columns, and each
   * codon maps to the one-letter amino acid of the last column that has it.
   */
  lemma {:induction false} CodonMapContents(t: CodeTable, n: nat)
    requires n <= |t.ncbi| && forall i :: 0 <= i < n ==> Covers(t, i)
    ensures forall c :: c in CodonMap(t, n) <==> exists i :: 0 <= i < n && Codon(t, i) == c
    ensures forall j :: 0 <= j < n && (forall l :: j < l < n ==> Codon(t, l) != Codon(t, j)) ==>
      CodonMap(t, n)[Codon(t, j)] == [t.ncbi[j]]
    ensures forall c :: c in CodonMap(t, n) ==> |CodonMap(t, n)[c]| == 1
  {
    CodonMapKeys(t, n);
    CodonMapOneLetter(t, n);
    forall j | 0 <= j < n && (forall l :: j < l < n ==> Codon(t, l) != Codon(t, j))
      ensures CodonMap(t, n)[Codon(t, j)] == [t.ncbi[j]]
    {
      CodonMapLast(t, n, j);
    }
  }

  lemma {:induction false} CodonMapKeys(t: CodeTable, n: nat)
    requires n <= |t.ncbi| && forall i :: 0 <= i < n ==> Covers(t, i)
    ensures forall c :: c in CodonMap(t, n) <==> exists i :: 0 <= i < n && Codon(t, i) == c
  {
    if n > 0 {
      CodonMapKeys(t, n - 1);
      var last := Codon(t, n - 1);
      assert CodonMap(t, n) == CodonMap(t, n - 1)[last := [t.ncbi[n - 1]]];
      forall c | c in CodonMap(t, n)
        ensures exists i :: 0 <= i < n && Codon(t, i) == c
      {
        if c != last {
          var i :| 0 <= i < n - 1 && Codon(t, i) == c;
        }
      }
    }
  }

  lemma {:induction false} CodonMapLast(t: CodeTable, n: nat, j: nat)
    requires n <= |t.ncbi| && forall i :: 0 <= i < n ==> Covers(t, i)
    requires j < n && forall l :: j < l < n ==> Codon(t, l) != Codon(t, j)
    ensures Codon(t, j) in CodonMap(t, n) && CodonMap(t, n)[Codon(t, j)] == [t.ncbi[j]]
  {
    if j < n - 1 {
      assert Codon(t, n - 1) != Codon(t, j);
      CodonMapLast(t, n - 1, j);
    }
  }

  lemma {:induction false} CodonMapOneLetter(t: CodeTable, n: nat)
    requires n <= |t.ncbi| && forall i :: 0 <= i < n ==> Covers(t, i)
    ensures forall c :: c in CodonMap(t, n) ==> |CodonMap(t, n)[c]| == 1
  {
    if n > 0 {
      CodonMapOneLetter(t, n - 1);
    }
  }

  method GetCodonTable(t: CodeTable) returns (r: Result<map<string, string>>)
    ensures r == Codons(t)
  {
    var codonTable: map<string, string> := map[];
    var i := 0;
    while i < |t.ncbi|
      invariant 0 <= i <= |t.ncbi|
      invariant forall k :: 0 <= k < i ==> Covers(t, k)
      invariant codonTable == CodonMap(t, i)
    {
      if !Covers(t, i) {
        return Err(IndexOutOfBounds);
      }
      var codon := [t.base1[i], t.base2[i], t.base3[i]];
      var aminoAcid := [t.ncbi[i]];
      codonTable := codonTable[codon := aminoAcid];
      i := i + 1;
    }
    r := Ok(codonTable);
  }

  /** `getStartCodons`: the codons of the columns where `sncbieaa` has 'M'; such a column beyond a base row throws. */
  function StartCodons(t: CodeTable): Result<set<string>> {
    if forall i :: 0 <= i < |t.sncbi| && t.sncbi[i] == 'M' ==> Covers(t, i) then
      Ok(set i | 0 <= i < |t.sncbi| && t.sncbi[i] == 'M' && Covers(t, i) :: Codon(t, i))
    else Err(IndexOutOfBounds)
  }

  method GetStartCodons(t: CodeTable) returns (r: Result<set<string>>)
    ensures r == StartCodons(t)
  {
    var startCodons: set<string> := {};
    var i := 0;
    while i < |t.sncbi|
      invariant 0 <= i <= |t.sncbi|
      invariant forall k :: 0 <= k < i && t.sncbi[k] == 'M' ==> Covers(t, k)
      invariant startCodons == set k | 0 <= k < i && t.sncbi[k] == 'M' && Covers(t, k) :: Codon(t, k)
    {
      if t.sncbi[i] == 'M' {
        if !Covers(t, i) {
          return Err(IndexOutOfBounds);
        }
        startCodons := startCodons + {Codon(t, i)};
      }
      i := i + 1;
    }
    r := Ok(startCodons);
  }

  /**
   * `getEndCodons`: the codons of the columns where `ncbieaa` has '*', over
   * the columns of `sncbieaa` (the loop's bound), so a shorter `ncbieaa`
   * throws, as does such a column beyond a base row.
   */
  function StopCodons(t: CodeTable): Result<set<string>> {
    if |t.sncbi| <= |t.ncbi| && forall i :: 0 <= i < |t.sncbi| && t.ncbi[i] == '*' ==> Covers(t, i) then
      Ok(set i | 0 <= i < |t.sncbi| && t.ncbi[i] == '*' && Covers(t, i) :: Codon(t, i))
    else Err(IndexOutOfBounds)
  }

  method GetEndCodons(t: CodeTable) returns (r: Result<set<string>>)
    ensures r == StopCodons(t)
  {
    var endCodons: set<string> := {};
    var i := 0;
    while i < |t.sncbi|
      invariant 0 <= i <= |t.sncbi|
      invariant i <= |t.ncbi|
      invariant forall k :: 0 <= k < i && t.ncbi[k] == '*' ==> Covers(t, k)
      invariant endCodons == set k | 0 <= k < i && t.ncbi[k] == '*' && Covers(t, k) :: Codon(t, k)
    {
      if i >= |t.ncbi| {
        return Err(IndexOutOfBounds);
      }
      if t.ncbi[i] == '*' {
        if !Covers(t, i) {
          return Err(IndexOutOfBounds);
        }
        endCodons := endCodons + {Codon(t, i)};
      }
      i := i + 1;
    }
    r := Ok(endCodons);
  }

  /**
   * For a table whose rows all have the same length, the stop codons are
   * exactly the codons the codon map sends to '*', and the start codons are
   * codons of the map.
   */
  lemma {:induction false} StopCodonsTranslateToStop(t: CodeTable)
    requires |t.sncbi| == |t.ncbi| == |t.base1| == |t.base2| == |t.base3|
    requires forall i, j :: 0 <= i < j < |t.ncbi| ==> Codon(t, i) != Codon(t, j)
    ensures Codons(t).Ok? && StartCodons(t).Ok? && StopCodons(t).Ok?
    ensures forall c :: c in StopCodons(t).value <==> c in Codons(t).value && Codons(t).value[c] == "*"
    ensures StartCodons(t).value <= Codons(t).value.Keys
  {
    var m := CodonMap(t, |t.ncbi|);
    CodonMapContents(t, |t.ncbi|);
    forall c
      ensures c in StopCodons(t).value <==> c in m && m[c] == "*"
    {
      if c in m {
        var j :| 0 <= j < |t.ncbi| && Codon(t, j) == c;
        assert m[Codon(t, j)] == [t.ncbi[j]];
      }
    }
    forall c | c in StartCodons(t).value
      ensures c in m
    {
      var j :| 0 <= j < |t.sncbi| && t.sncbi[j] == 'M' && Covers(t, j) && Codon(t, j) == c;
    }
  }
}

/**
 * The tokenizer of the genetic-code file. Comment lines (those starting with
 * "--") are dropped and the other lines joined without a separator; a
 * four-state machine then splits the text into control characters, integers,
 * bare words ("tokens") and quoted strings.
 */
module Tokens {

  /** A token: its syntactic code ("integer", "token", "string" or the control character itself) and its text. */
  datatype Token = Token(code: string, value: string)

  /** The states of the tokenizer: between tokens, inside an integer, a bare word or a quoted string. */
  datatype State = StartState | IntegerState | TokenState | StringState

  const ControlCharacters: seq<char> := [':', '=', '{', '}', ',', '-']
  const WhiteSpaceCharacters: seq<char> := [' ', '\t', '\n']
  const DigitCharacters: seq<char> := ['0', '1', '2', '3', '4', '5', '6', '7', '8', '9']

  /** `contains`: a linear search of the array of one-character strings. */
  method ContainsCharacter(needle: char, haystack: seq<char>) returns (found: bool)
    ensures found <==> needle in haystack
  {
    var i := 0;
    while i < |haystack|
      invariant 0 <= i <= |haystack|
      invariant needle !in haystack[..i]
    {
      if haystack[i] == needle {
        return true;
      }
      i := i + 1;
    }
    return false;
  }

  predicate IsControl(c: char) {
    c == ':' || c == '=' || c == '{' || c == '}' || c == ',' || c == '-'
  }

  predicate IsWhiteSpace(c: char) {
    c == ' ' || c == '\t' || c == '\n'
  }

  predicate IsDigit(c: char) {
    '0' <= c <= '9'
  }

  /** The three character classes are the three arrays' contents. */
  lemma {:induction false} CharacterClasses(c: char)
    ensures c in ControlCharacters <==> IsControl(c)
    ensures c in WhiteSpaceCharacters <==> IsWhiteSpace(c)
    ensures c in DigitCharacters <==> IsDigit(c)
  {
  }

  /** `isTokenCharacter`: neither a control, a white-space nor a digit character (so a quote is one). */
  predicate IsTokenCharacter(c: char) {
    !(IsControl(c) || IsWhiteSpace(c) || IsDigit(c))
  }

  // ---------------------------------------------------------------------------
  // The source text

  /** A comment line: at least two characters long and starting with "--". */
  predicate IsComment(line: string) {
    |line| >= 2 && line[..2] == "--"
  }

  /** The text the tokenizer reads: the lines that are not comments, joined without separator. */
  function Joined(lines: seq<string>): string {
    if lines == [] then []
    else Joined(lines[..|lines| - 1]) + (if IsComment(lines[|lines| - 1]) then [] else lines[|lines| - 1])
  }

  /** Every character of the joined text comes from a line that is not a comment. */
  lemma {:induction false} JoinedFromKeptLines(lines: seq<string>, k: nat)
    requires k < |Joined(lines)|
    ensures exists i, j :: 0 <= i < |lines| && !IsComment(lines[i]) && 0 <= j < |lines[i]| && lines[i][j] == Joined(lines)[k]
    decreases |lines|
  {
    var front := lines[..|lines| - 1];
    var last := lines[|lines| - 1];
    if k < |Joined(front)| {
      JoinedFromKeptLines(front, k);
      var i, j :| 0 <= i < |front| && !IsComment(front[i]) && 0 <= j < |front[i]| && front[i][j] == Joined(front)[k];
      assert lines[i] == front[i];
    } else {
      var j := k - |Joined(front)|;
      assert !IsComment(last) && Joined(lines)[k] == last[j];
      assert lines[|lines| - 1] == last;
    }
  }

  // ---------------------------------------------------------------------------
  // One step of the machine

  /** The fields the tokenizer changes: state, position, the token being built, and the tokens so far. */
  datatype Scan = Scan(state: State, index: nat, current: string, tokens: seq<Token>)

  /** 0 for the states that always consume a character, 1 for those that may hand it back to Start. */
  function Phase(state: State): nat {
    if state == IntegerState || state == TokenState then 1 else 0
  }

  /**
   * `analyze`: one step on the character at the current index. Every step
   * either consumes the character or returns from Integer or Token to Start
   * without consuming it, and tokens are only ever appended.
   */
  function Step(source: string, s: Scan): (r: Scan)
    requires s.index < |source|
    ensures r.index == s.index + 1 || (r.index == s.index && r.state == StartState && Phase(s.state) == 1)
    ensures s.tokens <= r.tokens && |r.tokens| <= |s.tokens| + 1
  {
    var c := source[s.index];
    match s.state
    case StartState =>
      if IsControl(c) then Scan(StartState, s.index + 1, s.current, s.tokens + [Token([c], [c])])
      else if IsWhiteSpace(c) then Scan(StartState, s.index + 1, s.current, s.tokens)
      else if c == '"' then Scan(StringState, s.index + 1, "", s.tokens)
      else if IsDigit(c) then Scan(IntegerState, s.index + 1, [c], s.tokens)
      else Scan(TokenState, s.index + 1, [c], s.tokens)
    case IntegerState =>
      if IsDigit(c) then Scan(IntegerState, s.index + 1, s.current + [c], s.tokens)
      else Scan(StartState, s.index, s.current, s.tokens + [Token("integer", s.current)])
    case TokenState =>
      if IsDigit(c) || IsTokenCharacter(c) then Scan(TokenState, s.index + 1, s.current + [c], s.tokens)
      else Scan(StartState, s.index, s.current, s.tokens + [Token("token", s.current)])
    case StringState =>
      if c != '"' then Scan(StringState, s.index + 1, s.current + [c], s.tokens)
      else Scan(StartState, s.index + 1, s.current, s.tokens + [Token("string", s.current)])
  }

  /** `getTokens`: steps until the index reaches the end of the source; whatever token is still being built is dropped. */
  function Finish(source: string, s: Scan): seq<Token>
    decreases |source| - s.index, Phase(s.state)
  {
    if s.index >= |source| then s.tokens else Finish(source, Step(source, s))
  }

  /** The tokens of the whole source, from a fresh tokenizer. */
  function Tokenize(source: string): seq<Token> {
    Finish(source, Scan(StartState, 0, "", []))
  }

  // ---------------------------------------------------------------------------
  // A maximal-munch reference lexer

  /** The end of the run of digits starting at i. */
  function DigitsEnd(s: string, i: nat): (r: nat)
    requires i <= |s|
    ensures i <= r <= |s|
    decreases |s| - i
  {
    if i < |s| && IsDigit(s[i]) then DigitsEnd(s, i + 1) else i
  }

  /** The end of the run of word characters (anything but control and white space) starting at i. */
  function WordEnd(s: string, i: nat): (r: nat)
    requires i <= |s|
    ensures i <= r <= |s|
    decreases |s| - i
  {
    if i < |s| && !IsControl(s[i]) && !IsWhiteSpace(s[i]) then WordEnd(s, i + 1) else i
  }

  /** The position of the first quote at or after i, or the end of the text. */
  function QuoteEnd(s: string, i: nat): (r: nat)
    requires i <= |s|
    ensures i <= r <= |s|
    decreases |s| - i
  {
    if i < |s| && s[i] != '"' then QuoteEnd(s, i + 1) else i
  }

  /**
   * The tokens of s from position i, read by maximal munch: a control
   * character alone; white space skipped; a quoted string up to the next
   * quote; a run of digits; a word that starts with any other character and
   * runs over everything but control and white space. A string, integer or
   * word that the end of the text cuts off yields no token.
   */
  function Lex(s: string, i: nat): seq<Token>
    requires i <= |s|
    decreases |s| - i
  {
    if i == |s| then []
    else
      var c := s[i];
      if IsControl(c) then [Token([c], [c])] + Lex(s, i + 1)
      else if IsWhiteSpace(c) then Lex(s, i + 1)
      else if c == '"' then
        var j := QuoteEnd(s, i + 1);
        if j == |s| then [] else [Token("string", s[i + 1 .. j])] + Lex(s, j + 1)
      else if IsDigit(c) then
        var j := DigitsEnd(s, i + 1);
        if j == |s| then [] else [Token("integer", s[i .. j])] + Lex(s, j)
      else
        var j := WordEnd(s, i + 1);
        if j == |s| then [] else [Token("token", s[i .. j])] + Lex(s, j)
  }

  /** From Start at i, the machine emits exactly what the lexer reads from i. */
  lemma {:induction false} FinishStart(s: string, i: nat, current: string, tokens: seq<Token>)
    requires i <= |s|
    ensures Finish(s, Scan(StartState, i, current, tokens)) == tokens + Lex(s, i)
    decreases |s| - i, 0, 1
  {
    if i < |s| {
      var c := s[i];
      if IsControl(c) || IsWhiteSpace(c) {
        FinishSeparator(s, i, current, tokens);
      } else {
        FinishOpening(s, i, current, tokens);
      }
    }
  }

  /** A control character is emitted on its own and white space is skipped. */
  lemma {:induction false} FinishSeparator(s: string, i: nat, current: string, tokens: seq<Token>)
    requires i < |s| && (IsControl(s[i]) || IsWhiteSpace(s[i]))
    ensures Finish(s, Scan(StartState, i, current, tokens)) == tokens + Lex(s, i)
    decreases |s| - i, 0, 0
  {
    var c := s[i];
    if IsControl(c) {
      var t := Token([c], [c]);
      assert Step(s, Scan(StartState, i, current, tokens)) == Scan(StartState, i + 1, current, tokens + [t]);
      assert Lex(s, i) == [t] + Lex(s, i + 1);
      FinishStart(s, i + 1, current, tokens + [t]);
      assert tokens + [t] + Lex(s, i + 1) == tokens + ([t] + Lex(s, i + 1));
    } else {
      assert Step(s, Scan(StartState, i, current, tokens)) == Scan(StartState, i + 1, current, tokens);
      assert Lex(s, i) == Lex(s, i + 1);
      FinishStart(s, i + 1, current, tokens);
    }
  }

  /** Any other character opens a string, an integer or a word. */
  lemma {:induction false} FinishOpening(s: string, i: nat, current: string, tokens: seq<Token>)
    requires i < |s| && !IsControl(s[i]) && !IsWhiteSpace(s[i])
    ensures Finish(s, Scan(StartState, i, current, tokens)) == tokens + Lex(s, i)
    decreases |s| - i, 0, 0
  {
    var c := s[i];
    if c == '"' {
      FinishString(s, i + 1, "", tokens);
      var j := QuoteEnd(s, i + 1);
      assert "" + s[i + 1 .. j] == s[i + 1 .. j];
    } else if IsDigit(c) {
      FinishInteger(s, i + 1, [c], tokens);
      HeadSlice(s, i, DigitsEnd(s, i + 1));
    } else {
      FinishToken(s, i + 1, [c], tokens);
      HeadSlice(s, i, WordEnd(s, i + 1));
    }
  }

  /** The character at i followed by the text from i + 1 to j is the text from i to j. */
  lemma {:induction false} HeadSlice(s: string, i: nat, j: nat)
    requires i < j <= |s|
    ensures [s[i]] + s[i + 1 .. j] == s[i .. j]
  {
    assert s[i .. j] == [s[i]] + s[i + 1 .. j];
  }

  /** Inside an integer at i, the machine finishes the digit run and then lexes on. */
  lemma {:induction false} FinishInteger(s: string, i: nat, current: string, tokens: seq<Token>)
    requires i <= |s|
    ensures var j := DigitsEnd(s, i);
      Finish(s, Scan(IntegerState, i, current, tokens)) ==
        tokens + (if j == |s| then [] else [Token("integer", current + s[i .. j])] + Lex(s, j))
    decreases |s| - i, 1, 0
  {
    if i < |s| {
      var j := DigitsEnd(s, i);
      if IsDigit(s[i]) {
        FinishInteger(s, i + 1, current + [s[i]], tokens);
        ExtendSlice(current, s, i, j);
      } else {
        FinishStart(s, i, current, tokens + [Token("integer", current)]);
        assert current + s[i .. j] == current;
      }
    }
  }

  /** Inside a word at i, the machine finishes the word and then lexes on. */
  lemma {:induction false} FinishToken(s: string, i: nat, current: string, tokens: seq<Token>)
    requires i <= |s|
    ensures var j := WordEnd(s, i);
      Finish(s, Scan(TokenState, i, current, tokens)) ==
        tokens + (if j == |s| then [] else [Token("token", current + s[i .. j])] + Lex(s, j))
    decreases |s| - i, 1, 0
  {
    if i < |s| {
      var j := WordEnd(s, i);
      if IsDigit(s[i]) || IsTokenCharacter(s[i]) {
        FinishToken(s, i + 1, current + [s[i]], tokens);
        ExtendSlice(current, s, i, j);
      } else {
        FinishStart(s, i, current, tokens + [Token("token", current)]);
        assert current + s[i .. j] == current;
      }
    }
  }

  /** Inside a string at i, the machine reads up to the closing quote, consumes it, and lexes on. */
  lemma {:induction false} FinishString(s: string, i: nat, current: string, tokens: seq<Token>)
    requires i <= |s|
    ensures var j := QuoteEnd(s, i);
      Finish(s, Scan(StringState, i, current, tokens)) ==
        tokens + (if j == |s| then [] else [Token("string", current + s[i .. j])] + Lex(s, j + 1))
    decreases |s| - i, 0, 0
  {
    if i < |s| {
      var j := QuoteEnd(s, i);
      if s[i] != '"' {
        FinishString(s, i + 1, current + [s[i]], tokens);
        ExtendSlice(current, s, i, j);
      } else {
        FinishStart(s, i + 1, current, tokens + [Token("string", current)]);
        assert current + s[i .. j] == current;
      }
    }
  }

  /** Appending the character at i to the text read so far, then the rest up to j, reads up to j. */
  lemma {:induction false} ExtendSlice(current: string, s: string, i: nat, j: nat)
    requires i < j <= |s|
    ensures current + [s[i]] + s[i + 1 .. j] == current + s[i .. j]
  {
    assert s[i .. j] == [s[i]] + s[i + 1 .. j];
  }

  /** The state machine and the maximal-munch lexer agree on every source text. */
  lemma {:induction false} TokenizeIsLex(source: string)
    ensures Tokenize(source) == Lex(source, 0)
  {
    FinishStart(source, 0, "", []);
  }

  // ---------------------------------------------------------------------------
  // The tokenizer object

  /** `Tokenizer`: the source text and the machine's fields, advanced in place by `analyze`. */
  class Tokenizer {
    var source: string
    var currentToken: string
    var tokens: seq<Token>
    var currentState: State
    var currentIndex: nat

    /** The machine's fields as a value. */
    function Config(): Scan
      reads this
    {
      Scan(currentState, currentIndex, currentToken, tokens)
    }

    /** The constructor keeps the lines that are not comments and starts in Start at index 0 with no tokens. */
    constructor (lines: seq<string>)
      ensures source == Joined(lines)
      ensures Config() == Scan(StartState, 0, "", [])
    {
      currentState := StartState;
      currentIndex := 0;
      tokens := [];
      currentToken := "";
      var text := "";
      var i := 0;
      while i < |lines|
        invariant 0 <= i <= |lines|
        invariant text == Joined(lines[..i])
      {
        assert lines[..i + 1][..i] == lines[..i];
        if |lines[i]| < 2 || lines[i][..2] != "--" {
          text := text + lines[i];
        }
        i := i + 1;
      }
      assert lines[..|lines|] == lines;
      source := text;
    }

    /** `getTokens`: analyze until the whole source is consumed, then return the tokens. */
    method GetTokens() returns (r: seq<Token>)
      modifies this
      ensures r == Finish(source, old(Config())) && source == old(source)
    {
      while currentIndex < |source|
        invariant source == old(source)
        invariant Finish(source, Config()) == Finish(source, old(Config()))
        decreases |source| - currentIndex, Phase(currentState)
      {
        Analyze();
      }
      r := tokens;
    }

    /** `analyze`: dispatch on the current state. */
    method Analyze()
      requires currentIndex < |source|
      modifies this
      ensures source == old(source) && Config() == Step(source, old(Config()))
    {
      match currentState
      case StartState => Start();
      case IntegerState => Integer();
      case StringState => String();
      case TokenState => Word();
    }

    /** `start`: a control character is a token of its own, white space is skipped, anything else opens a token. */
    method Start()
      requires currentIndex < |source| && currentState == StartState
      modifies this
      ensures source == old(source) && Config() == Step(source, old(Config()))
    {
      var currentChar := source[currentIndex];
      CharacterClasses(currentChar);
      var control := ContainsCharacter(currentChar, ControlCharacters);
      var white := ContainsCharacter(currentChar, WhiteSpaceCharacters);
      var digit := ContainsCharacter(currentChar, DigitCharacters);
      if control {
        tokens := tokens + [Token([currentChar], [currentChar])];
        currentIndex := currentIndex + 1;
      } else if white {
        currentIndex := currentIndex + 1;
      } else if currentChar == '"' {
        currentToken := "";
        currentState := StringState;
        currentIndex := currentIndex + 1;
      } else if digit {
        currentToken := [currentChar];
        currentState := IntegerState;
        currentIndex := currentIndex + 1;
      } else {
        currentToken := [currentChar];
        currentState := TokenState;
        currentIndex := currentIndex + 1;
      }
    }

    /** `integer`: digits extend the integer; anything else ends it and is looked at again from Start. */
    method Integer()
      requires currentIndex < |source| && currentState == IntegerState
      modifies this
      ensures source == old(source) && Config() == Step(source, old(Config()))
    {
      var currentChar := source[currentIndex];
      CharacterClasses(currentChar);
      var digit := ContainsCharacter(currentChar, DigitCharacters);
      if digit {
        currentToken := currentToken + [currentChar];
        currentIndex := currentIndex + 1;
      } else {
        tokens := tokens + [Token("integer", currentToken)];
        currentState := StartState;
      }
    }

    /** `token`: digits and token characters extend the word; anything else ends it and is looked at again from Start. */
    method Word()
      requires currentIndex < |source| && currentState == TokenState
      modifies this
      ensures source == old(source) && Config() == Step(source, old(Config()))
    {
      var currentChar := source[currentIndex];
      CharacterClasses(currentChar);
      var digit := ContainsCharacter(currentChar, DigitCharacters);
      if digit || IsTokenCharacter(currentChar) {
        currentToken := currentToken + [currentChar];
        currentIndex := currentIndex + 1;
      } else {
        tokens := tokens + [Token("token", currentToken)];
        currentState := StartState;
      }
    }

    /** `string`: everything up to the closing quote is kept verbatim; the quote ends the string and is consumed. */
    method String()
      requires currentIndex < |source| && currentState == StringState
      modifies this
      ensures source == old(source) && Config() == Step(source, old(Config()))
    {
      var currentChar := source[currentIndex];
      if currentChar != '"' {
        currentToken := currentToken + [currentChar];
        currentIndex := currentIndex + 1;
      } else {
        tokens := tokens + [Token("string", currentToken)];
        currentState := StartState;
        currentIndex := currentIndex + 1;
      }
    }
  }

  /** A fresh tokenizer over `lines` yields the maximal-munch tokens of the joined non-comment lines. */
  method TokenizeLines(lines: seq<string>) returns (r: seq<Token>)
    ensures r == Lex(Joined(lines), 0)
  {
    var t := new Tokenizer(lines);
    r := t.GetTokens();
    TokenizeIsLex(t.source);
  }
}

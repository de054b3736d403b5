/** Worked inputs for the JSON-subset lexer and parser. For each text one
    lemma fixes the tokens the lexer gives, one the outcome of the parser on
    those tokens, and one puts the two together. */
module JsonExamples {
  import opened JsonLexer
  import opened JsonParser

  /** `[]` is rejected: the outer `[` is consumed by `parse_value` and
      `parse_array` then finds `]` where it expects its own `[`. */
  lemma EmptyArrayRejected()
    ensures ParseText("[]") == Err(ExpectedOpenBracket)
  {
    assert Tokenize("[]") == [LBracket, RBracket, Eof];
  }

  /** `{}` is rejected for the same reason. */
  lemma EmptyObjectRejected()
    ensures ParseText("{}") == Err(ExpectedOpenBrace)
  {
    assert Tokenize("{}") == [LBrace, RBrace, Eof];
  }

  /** A one-digit number at position `pos`, followed by a closer or a comma. */
  lemma ScanDigit(s: string, pos: nat, v: nat)
    requires pos + 1 < |s| && v < 10 && s[pos] as int == '0' as int + v
    requires s[pos + 1] == '}' || s[pos + 1] == ']' || s[pos + 1] == ','
    ensures ScanNumber(s, pos) == (NumberTok(Integer(v)), 1)
  {
    assert SignEnd(s, pos) == pos;
    assert DigitsEnd(s, pos + 1) == pos + 1;
    assert DigitsEnd(s, pos) == pos + 1;
    assert !FractionAt(s, pos + 1);
    assert s[pos..pos + 1] == [s[pos]];
    assert DigitsValue([s[pos]]) == v by {
      assert [s[pos]][..0] == [];
    }
  }

  // ------------------------------------------------------------- [[1,2]

  lemma LexNestedArray()
    ensures Tokenize("[[1,2]") ==
      [LBracket, LBracket, NumberTok(Integer(1)), Comma, NumberTok(Integer(2)), RBracket, Eof]
  {
    var s := "[[1,2]";
    ScanDigit(s, 4, 2);
    ScanDigit(s, 2, 1);
    assert LexFrom(s, 4) == [NumberTok(Integer(2)), RBracket, Eof];
    assert LexFrom(s, 2) == [NumberTok(Integer(1)), Comma, NumberTok(Integer(2)), RBracket, Eof];
  }

  lemma ParseNestedArray()
    ensures ParseTokens([LBracket, LBracket, NumberTok(Integer(1)), Comma, NumberTok(Integer(2)), RBracket, Eof])
      == Ok(Array([Number(Integer(1)), Number(Integer(2))]))
  {
    var ts := [LBracket, LBracket, NumberTok(Integer(1)), Comma, NumberTok(Integer(2)), RBracket, Eof];
    assert ValueAt(ts, 4) == Parsed(Number(Integer(2)), 5);
    assert [Number(Integer(1))] + [Number(Integer(2))] == [Number(Integer(1)), Number(Integer(2))];
    assert ArrayItems(ts, 4, [Number(Integer(1))]) == Parsed(Array([Number(Integer(1)), Number(Integer(2))]), 6);
    assert ValueAt(ts, 2) == Parsed(Number(Integer(1)), 3);
    assert [] + [Number(Integer(1))] == [Number(Integer(1))];
    assert ArrayItems(ts, 2, []) == Parsed(Array([Number(Integer(1)), Number(Integer(2))]), 6);
    assert ValueAt(ts, 0) == ArrayAt(ts, 1);
  }

  /** A list of two numbers is written with a doubled opener and one closer. */
  lemma NestedArray()
    ensures ParseText("[[1,2]") == Ok(Array([Number(Integer(1)), Number(Integer(2))]))
  {
    LexNestedArray();
    ParseNestedArray();
  }

  // -------------------------------------------------------------- [[1,]

  lemma LexTrailingComma()
    ensures Tokenize("[[1,]") == [LBracket, LBracket, NumberTok(Integer(1)), Comma, RBracket, Eof]
  {
    var s := "[[1,]";
    ScanDigit(s, 2, 1);
    assert LexFrom(s, 2) == [NumberTok(Integer(1)), Comma, RBracket, Eof];
  }

  lemma ParseTrailingComma()
    ensures ParseTokens([LBracket, LBracket, NumberTok(Integer(1)), Comma, RBracket, Eof])
      == Ok(Array([Number(Integer(1))]))
  {
    var ts := [LBracket, LBracket, NumberTok(Integer(1)), Comma, RBracket, Eof];
    assert ArrayItems(ts, 4, [Number(Integer(1))]) == Parsed(Array([Number(Integer(1))]), 5);
    assert ValueAt(ts, 2) == Parsed(Number(Integer(1)), 3);
    assert [] + [Number(Integer(1))] == [Number(Integer(1))];
    assert ArrayItems(ts, 2, []) == Parsed(Array([Number(Integer(1))]), 5);
    assert ValueAt(ts, 0) == ArrayAt(ts, 1);
  }

  /** A comma before the closer is accepted. */
  lemma TrailingCommaAccepted()
    ensures ParseText("[[1,]") == Ok(Array([Number(Integer(1))]))
  {
    LexTrailingComma();
    ParseTrailingComma();
  }

  // -------------------------------------------------------------- [[1]]

  lemma LexMatchedClosers()
    ensures Tokenize("[[1]]") == [LBracket, LBracket, NumberTok(Integer(1)), RBracket, RBracket, Eof]
  {
  }

  lemma ParseMatchedClosers()
    ensures ParseTokens([LBracket, LBracket, NumberTok(Integer(1)), RBracket, RBracket, Eof])
      == Err(TrailingToken)
  {
    var ts := [LBracket, LBracket, NumberTok(Integer(1)), RBracket, RBracket, Eof];
    assert ValueAt(ts, 2) == Parsed(Number(Integer(1)), 3);
    assert [] + [Number(Integer(1))] == [Number(Integer(1))];
    assert ArrayItems(ts, 2, []) == Parsed(Array([Number(Integer(1))]), 4);
    assert ValueAt(ts, 0) == ArrayAt(ts, 1);
  }

  /** Balanced brackets leave one closer over, which is a trailing token. */
  lemma MatchedClosersRejected()
    ensures ParseText("[[1]]") == Err(TrailingToken)
  {
    LexMatchedClosers();
    ParseMatchedClosers();
  }

  // ----------------------------------------------------------- {{"a":1}

  /** The key `"a"` at position 2, closed at position 4. */
  lemma ScanKeyA(s: string)
    requires |s| > 4 && s[..5] == "{{\"a\""
    ensures ScanString(s, 2) == (StringTok("a"), 3)
  {
    assert s[2] == '"' && s[3] == 'a' && s[4] == '"';
    assert QuoteEnd(s, 4) == 4;
    assert QuoteEnd(s, 3) == 4;
    assert s[3..4] == "a";
  }

  lemma LexOneMemberObject()
    ensures Tokenize("{{\"a\":1}") ==
      [LBrace, LBrace, StringTok("a"), Colon, NumberTok(Integer(1)), RBrace, Eof]
  {
    var s := "{{\"a\":1}";
    ScanKeyA(s);
    ScanDigit(s, 6, 1);
    assert LexFrom(s, 7) == [RBrace, Eof];
    assert LexFrom(s, 6) == [NumberTok(Integer(1)), RBrace, Eof];
    assert LexFrom(s, 5) == [Colon, NumberTok(Integer(1)), RBrace, Eof];
    assert LexFrom(s, 2) == [StringTok("a"), Colon, NumberTok(Integer(1)), RBrace, Eof];
  }

  lemma ParseOneMemberObject()
    ensures ParseTokens([LBrace, LBrace, StringTok("a"), Colon, NumberTok(Integer(1)), RBrace, Eof])
      == Ok(Object([("a", Number(Integer(1)))]))
  {
    var ts := [LBrace, LBrace, StringTok("a"), Colon, NumberTok(Integer(1)), RBrace, Eof];
    assert ValueAt(ts, 4) == Parsed(Number(Integer(1)), 5);
    assert Insert([], "a", Number(Integer(1))) == [("a", Number(Integer(1)))];
    assert ObjectMembers(ts, 2, []) == Parsed(Object([("a", Number(Integer(1)))]), 6);
    assert ValueAt(ts, 0) == ObjectAt(ts, 1);
  }

  /** An object with one member. */
  lemma OneMemberObject()
    ensures ParseText("{{\"a\":1}") == Ok(Object([("a", Number(Integer(1)))]))
  {
    LexOneMemberObject();
    ParseOneMemberObject();
  }

  // ----------------------------------------------------------- {{"a" 1}

  lemma LexMissingColon()
    ensures Tokenize("{{\"a\" 1}") ==
      [LBrace, LBrace, StringTok("a"), NumberTok(Integer(1)), RBrace, Eof]
  {
    var s := "{{\"a\" 1}";
    ScanKeyA(s);
    ScanDigit(s, 6, 1);
    assert LexFrom(s, 7) == [RBrace, Eof];
    assert LexFrom(s, 6) == [NumberTok(Integer(1)), RBrace, Eof];
    assert LexFrom(s, 5) == LexFrom(s, 6);
    assert LexFrom(s, 2) == [StringTok("a"), NumberTok(Integer(1)), RBrace, Eof];
  }

  lemma ParseMissingColon()
    ensures ParseTokens([LBrace, LBrace, StringTok("a"), NumberTok(Integer(1)), RBrace, Eof])
      == Err(ExpectedColon)
  {
    var ts := [LBrace, LBrace, StringTok("a"), NumberTok(Integer(1)), RBrace, Eof];
    assert ObjectMembers(ts, 2, []) == Failed(ExpectedColon);
    assert ValueAt(ts, 0) == ObjectAt(ts, 1);
  }

  /** A key not followed by a colon. */
  lemma MissingColonRejected()
    ensures ParseText("{{\"a\" 1}") == Err(ExpectedColon)
  {
    LexMissingColon();
    ParseMissingColon();
  }

  // ----------------------------------------------------- {{"a":1,"a":2}

  /** A repeated key keeps one entry, holding the later value. */
  lemma ParseDuplicateKey()
    ensures ParseTokens([LBrace, LBrace, StringTok("a"), Colon, NumberTok(Integer(1)), Comma,
                         StringTok("a"), Colon, NumberTok(Integer(2)), RBrace, Eof])
      == Ok(Object([("a", Number(Integer(2)))]))
  {
    var ts := [LBrace, LBrace, StringTok("a"), Colon, NumberTok(Integer(1)), Comma,
               StringTok("a"), Colon, NumberTok(Integer(2)), RBrace, Eof];
    var one := [("a", Number(Integer(1)))];
    assert Insert([], "a", Number(Integer(1))) == one;
    assert Insert(one, "a", Number(Integer(2))) == [("a", Number(Integer(2)))];
    assert ValueAt(ts, 8) == Parsed(Number(Integer(2)), 9);
    assert ObjectMembers(ts, 6, one) == Parsed(Object([("a", Number(Integer(2)))]), 10);
    assert ValueAt(ts, 4) == Parsed(Number(Integer(1)), 5);
    assert ObjectMembers(ts, 2, []) == ObjectMembers(ts, 6, one);
    assert ValueAt(ts, 0) == ObjectAt(ts, 1);
  }
}

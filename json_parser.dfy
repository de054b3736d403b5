// The recursive-descent parser of the JSON-subset parser (app2/parser.py,
// lines 113-222).
//
// The source threads one iterator over the token list through
// `parse_value`, `parse_array` and `parse_object`.  Here the token list is a
// `seq<Token>` and the iterator is a cursor: the index of the next token that
// `next(tokens)` would return.  `parse_value` receives a token that its caller
// has already taken; its model receives that token's index.  A `next` past the
// end of the list (Python's StopIteration) is the error OutOfTokens, and every
// `print(...); sys.exit(1)` is one of the other errors.
//
// The source behaviour is kept as written: `parse_value` has already consumed
// the opening `[` or `{` when `parse_array` / `parse_object` read one more token
// and demand that it is the opener again, so `[]` and `{}` are rejected while
// `[[1,2]` is the array [1, 2].

module JsonParser {
  import opened JsonLexer

  datatype Value =
    | String(text: string)
    | Bool(b: bool)
    | Null
    | Number(number: Numeral)
    | Array(items: seq<Value>)
    | Object(entries: seq<(string, Value)>)

  datatype ParseError =
    | UnexpectedToken          // parse_value, any other token kind
    | ExpectedOpenBracket      // parse_array, first token is not '['
    | UnexpectedTokenInArray   // parse_array, neither ',' nor ']' after an element
    | ExpectedOpenBrace        // parse_object, first token is not '{'
    | ExpectedColon            // parse_object, no ':' after a key
    | UnexpectedTokenInObject  // parse_object, neither ',' nor '}' after a value
    | ExpectedCloseBrace       // parse_object, the loop ended on a token other than '}'
    | TrailingToken            // parser, a token other than EOF after the value
    | OutOfTokens              // next() on an exhausted iterator

  /** A value parsed, with the cursor after it; or the error that stopped parsing. */
  datatype Parsed = Parsed(value: Value, next: nat) | Failed(error: ParseError)

  datatype Result = Ok(value: Value) | Err(error: ParseError)

  // ------------------------------------------------------- objects as dicts

  /** The keys of a dict, in insertion order. */
  function Keys(entries: seq<(string, Value)>): seq<string> {
    if entries == [] then [] else [entries[0].0] + Keys(entries[1..])
  }

  /** No key occurs twice. */
  predicate UniqueKeys(entries: seq<(string, Value)>) {
    entries == [] || (entries[0].0 !in Keys(entries[1..]) && UniqueKeys(entries[1..]))
  }

  /** `obj[key]`, when the key is present. */
  function Lookup(entries: seq<(string, Value)>, key: string): Value
    requires key in Keys(entries)
  {
    if entries[0].0 == key then entries[0].1 else Lookup(entries[1..], key)
  }

  /** `obj[key] = value` on a Python dict. */
  function Insert(entries: seq<(string, Value)>, key: string, value: Value): seq<(string, Value)> {
    if entries == [] then [(key, value)]
    else if entries[0].0 == key then [(key, value)] + entries[1..]
    else [entries[0]] + Insert(entries[1..], key, value)
  }

  /** The key then maps to the value and every other key keeps its own; a
      present key keeps its place and a new key goes last, so keys stay
      unique; no entry appears from anywhere else. */
  lemma {:induction false} InsertSpec(entries: seq<(string, Value)>, key: string, value: Value)
    ensures var r := Insert(entries, key, value);
      && key in Keys(r) && Lookup(r, key) == value
      && (forall k :: k in Keys(r) <==> k in Keys(entries) || k == key)
      && (forall k :: k in Keys(entries) && k != key ==> Lookup(r, k) == Lookup(entries, k))
      && (key in Keys(entries) ==> Keys(r) == Keys(entries))
      && (key !in Keys(entries) ==> Keys(r) == Keys(entries) + [key])
      && (UniqueKeys(entries) ==> UniqueKeys(r))
      && (forall e :: e in r ==> e == (key, value) || e in entries)
  {
    if entries != [] && entries[0].0 != key {
      var tail := entries[1..];
      InsertSpec(tail, key, value);
      var r := Insert(entries, key, value);
      assert r[1..] == Insert(tail, key, value);
      assert Keys(r) == [entries[0].0] + Keys(Insert(tail, key, value));
      assert Keys(entries) == [entries[0].0] + Keys(tail);
      assert forall e :: e in r ==> e == entries[0] || e in r[1..];
    } else if entries != [] {
      var r := Insert(entries, key, value);
      assert r[1..] == entries[1..];
    }
  }

  /** A duplicate key keeps the last value written for it. */
  lemma DuplicateKeyLastWins(entries: seq<(string, Value)>, key: string, v1: Value, v2: Value)
    ensures var r := Insert(Insert(entries, key, v1), key, v2);
      key in Keys(r) && Lookup(r, key) == v2 && Keys(r) == Keys(Insert(entries, key, v1))
  {
    InsertSpec(entries, key, v1);
    InsertSpec(Insert(entries, key, v1), key, v2);
  }

  // ------------------------------------------------- the grammar, as functions

  /** `parse_value(tokens, token)` where `token` is `ts[c]`. */
  function ValueAt(ts: seq<Token>, c: nat): (r: Parsed)
    requires c < |ts|
    ensures r.Parsed? ==> c < r.next <= |ts|
    decreases |ts| - c, 0
  {
    match ts[c]
    case StringTok(text) => Parsed(String(text), c + 1)
    case BoolTok(b) => Parsed(Bool(b), c + 1)
    case NullTok => Parsed(Null, c + 1)
    case NumberTok(n) => Parsed(Number(n), c + 1)
    case LBrace => ObjectAt(ts, c + 1)
    case LBracket => ArrayAt(ts, c + 1)
    case _ => Failed(UnexpectedToken)
  }

  /** `parse_array(tokens)` with the iterator at `p`. */
  function ArrayAt(ts: seq<Token>, p: nat): (r: Parsed)
    requires p <= |ts|
    ensures r.Parsed? ==> p < r.next <= |ts|
    decreases |ts| - p, 0
  {
    if p == |ts| then Failed(OutOfTokens)
    else if ts[p] != LBracket then Failed(ExpectedOpenBracket)
    else if p + 1 == |ts| then Failed(OutOfTokens)
    else ArrayItems(ts, p + 1, [])
  }

  /** The `while` loop of `parse_array`: `ts[c]` is the current token and
      `items` the elements appended so far. */
  function ArrayItems(ts: seq<Token>, c: nat, items: seq<Value>): (r: Parsed)
    requires c < |ts|
    ensures r.Parsed? ==> c < r.next <= |ts|
    decreases |ts| - c, 1
  {
    if ts[c] == RBracket then Parsed(Array(items), c + 1)
    else
      match ValueAt(ts, c)
      case Failed(e) => Failed(e)
      case Parsed(v, q) =>
        if q == |ts| then Failed(OutOfTokens)
        else if ts[q] == Comma then
          if q + 1 == |ts| then Failed(OutOfTokens) else ArrayItems(ts, q + 1, items + [v])
        else if ts[q] == RBracket then Parsed(Array(items + [v]), q + 1)
        else Failed(UnexpectedTokenInArray)
  }

  /** `parse_object(tokens)` with the iterator at `p`. */
  function ObjectAt(ts: seq<Token>, p: nat): (r: Parsed)
    requires p <= |ts|
    ensures r.Parsed? ==> p < r.next <= |ts|
    decreases |ts| - p, 0
  {
    if p == |ts| then Failed(OutOfTokens)
    else if ts[p] != LBrace then Failed(ExpectedOpenBrace)
    else if p + 1 == |ts| then Failed(OutOfTokens)
    else ObjectMembers(ts, p + 1, [])
  }

  /** The `while` loop of `parse_object`: `ts[c]` is the current token and
      `entries` the dict built so far. */
  function ObjectMembers(ts: seq<Token>, c: nat, entries: seq<(string, Value)>): (r: Parsed)
    requires c < |ts|
    ensures r.Parsed? ==> c < r.next <= |ts|
    decreases |ts| - c, 1
  {
    match ts[c]
    case StringTok(key) =>
      if c + 1 == |ts| then Failed(OutOfTokens)
      else if ts[c + 1] != Colon then Failed(ExpectedColon)
      else if c + 2 == |ts| then Failed(OutOfTokens)
      else
        (match ValueAt(ts, c + 2)
         case Failed(e) => Failed(e)
         case Parsed(v, q) =>
           var obj := Insert(entries, key, v);
           if q == |ts| then Failed(OutOfTokens)
           else if ts[q] == Comma then
             if q + 1 == |ts| then Failed(OutOfTokens) else ObjectMembers(ts, q + 1, obj)
           else if ts[q] == RBrace then Parsed(Object(obj), q + 1)
           else Failed(UnexpectedTokenInObject))
    case RBrace => Parsed(Object(entries), c + 1)
    case _ => Failed(ExpectedCloseBrace)
  }

  /** `parser` after lexing: one value from the first token, then nothing but
      EOF (or the end of the list). */
  function ParseTokens(ts: seq<Token>): Result {
    if ts == [] then Err(OutOfTokens)
    else
      match ValueAt(ts, 0)
      case Failed(e) => Err(e)
      case Parsed(v, q) => if q < |ts| && !ts[q].Eof? then Err(TrailingToken) else Ok(v)
  }

  function ParseText(s: string): Result {
    ParseTokens(Tokenize(s))
  }

  // ------------------------------------------------- the grammar, as methods

  /** `parse_value`. */
  method ParseValue(ts: seq<Token>, c: nat) returns (r: Parsed)
    requires c < |ts|
    ensures r == ValueAt(ts, c)
    decreases |ts| - c
  {
    var token := ts[c];
    if token.StringTok? {
      r := Parsed(String(token.text), c + 1);
    } else if token.BoolTok? {
      r := Parsed(Bool(token.value), c + 1);
    } else if token.NullTok? {
      r := Parsed(Null, c + 1);
    } else if token.NumberTok? {
      r := Parsed(Number(token.number), c + 1);
    } else if token.LBrace? {
      r := ParseObject(ts, c + 1);
    } else if token.LBracket? {
      r := ParseArray(ts, c + 1);
    } else {
      r := Failed(UnexpectedToken);
    }
  }

  /** `parse_array`. */
  method ParseArray(ts: seq<Token>, p: nat) returns (r: Parsed)
    requires p <= |ts|
    ensures r == ArrayAt(ts, p)
    decreases |ts| - p
  {
    if p == |ts| {
      return Failed(OutOfTokens);
    }
    if ts[p] != LBracket {
      return Failed(ExpectedOpenBracket);
    }
    if p + 1 == |ts| {
      return Failed(OutOfTokens);
    }
    var items: seq<Value> := [];
    var c := p + 1;
    while ts[c] != RBracket
      invariant p < c < |ts|
      invariant ArrayItems(ts, c, items) == ArrayAt(ts, p)
      decreases |ts| - c
    {
      var v := ParseValue(ts, c);
      if v.Failed? {
        return Failed(v.error);
      }
      items := items + [v.value];
      var q := v.next;
      if q == |ts| {
        return Failed(OutOfTokens);
      }
      if ts[q] == Comma {
        if q + 1 == |ts| {
          return Failed(OutOfTokens);
        }
        c := q + 1;
      } else if ts[q] != RBracket {
        return Failed(UnexpectedTokenInArray);
      } else {
        c := q;
      }
    }
    r := Parsed(Array(items), c + 1);
  }

  /** `parse_object`. */
  method ParseObject(ts: seq<Token>, p: nat) returns (r: Parsed)
    requires p <= |ts|
    ensures r == ObjectAt(ts, p)
    decreases |ts| - p
  {
    if p == |ts| {
      return Failed(OutOfTokens);
    }
    if ts[p] != LBrace {
      return Failed(ExpectedOpenBrace);
    }
    if p + 1 == |ts| {
      return Failed(OutOfTokens);
    }
    var obj: seq<(string, Value)> := [];
    var c := p + 1;
    while ts[c].StringTok?
      invariant p < c < |ts|
      invariant ObjectMembers(ts, c, obj) == ObjectAt(ts, p)
      decreases |ts| - c
    {
      var key := ts[c].text;
      if c + 1 == |ts| {
        return Failed(OutOfTokens);
      }
      if ts[c + 1] != Colon {
        return Failed(ExpectedColon);
      }
      if c + 2 == |ts| {
        return Failed(OutOfTokens);
      }
      var v := ParseValue(ts, c + 2);
      if v.Failed? {
        return Failed(v.error);
      }
      obj := Insert(obj, key, v.value);
      var q := v.next;
      if q == |ts| {
        return Failed(OutOfTokens);
      }
      if ts[q] == Comma {
        if q + 1 == |ts| {
          return Failed(OutOfTokens);
        }
        c := q + 1;
      } else if ts[q] == RBrace {
        c := q;
        assert ObjectMembers(ts, c, obj) == ObjectAt(ts, p);
        break;
      } else {
        return Failed(UnexpectedTokenInObject);
      }
    }
    assert ObjectMembers(ts, c, obj) == ObjectAt(ts, p);
    if ts[c] != RBrace {
      return Failed(ExpectedCloseBrace);
    }
    r := Parsed(Object(obj), c + 1);
  }

  /** `parser`: lex the text, parse one value, and check what follows it. */
  method Parser(s: string) returns (r: Result)
    ensures r == ParseText(s)
  {
    var tokens := Lexer(s);
    if tokens == [] {
      return Err(OutOfTokens);
    }
    var v := ParseValue(tokens, 0);
    if v.Failed? {
      return Err(v.error);
    }
    if v.next < |tokens| && tokens[v.next] != Eof {
      return Err(TrailingToken);
    }
    r := Ok(v.value);
  }

  // ---------------------------------------------------------------- properties

  /** The last token is EOF or INVALID, as in every list the lexer produces. */
  predicate EndsTerminal(ts: seq<Token>) {
    |ts| > 0 && IsTerminal(ts[|ts| - 1])
  }

  /** On a list that ends in EOF or INVALID no `next` runs past its end: both
      tokens are rejected by `parse_value` and stop every loop, so a parsed
      value is always followed by at least one more token. */
  lemma {:induction false} ValueAtInBounds(ts: seq<Token>, c: nat)
    requires EndsTerminal(ts) && c < |ts|
    ensures ValueAt(ts, c) != Failed(OutOfTokens)
    ensures ValueAt(ts, c).Parsed? ==> ValueAt(ts, c).next < |ts|
    decreases |ts| - c, 0
  {
    match ts[c]
    case LBrace => ObjectAtInBounds(ts, c + 1);
    case LBracket => ArrayAtInBounds(ts, c + 1);
    case _ =>
  }

  lemma {:induction false} ArrayAtInBounds(ts: seq<Token>, p: nat)
    requires EndsTerminal(ts) && p < |ts|
    ensures ArrayAt(ts, p) != Failed(OutOfTokens)
    ensures ArrayAt(ts, p).Parsed? ==> ArrayAt(ts, p).next < |ts|
    decreases |ts| - p, 0
  {
    if ts[p] == LBracket {
      ArrayItemsInBounds(ts, p + 1, []);
    }
  }

  lemma {:induction false} ArrayItemsInBounds(ts: seq<Token>, c: nat, items: seq<Value>)
    requires EndsTerminal(ts) && c < |ts|
    ensures ArrayItems(ts, c, items) != Failed(OutOfTokens)
    ensures ArrayItems(ts, c, items).Parsed? ==> ArrayItems(ts, c, items).next < |ts|
    decreases |ts| - c, 1
  {
    if ts[c] != RBracket {
      ValueAtInBounds(ts, c);
      var r := ValueAt(ts, c);
      if r.Parsed? && ts[r.next] == Comma {
        ArrayItemsInBounds(ts, r.next + 1, items + [r.value]);
      }
    }
  }

  lemma {:induction false} ObjectAtInBounds(ts: seq<Token>, p: nat)
    requires EndsTerminal(ts) && p < |ts|
    ensures ObjectAt(ts, p) != Failed(OutOfTokens)
    ensures ObjectAt(ts, p).Parsed? ==> ObjectAt(ts, p).next < |ts|
    decreases |ts| - p, 0
  {
    if ts[p] == LBrace {
      ObjectMembersInBounds(ts, p + 1, []);
    }
  }

  lemma {:induction false} ObjectMembersInBounds(ts: seq<Token>, c: nat, entries: seq<(string, Value)>)
    requires EndsTerminal(ts) && c < |ts|
    ensures ObjectMembers(ts, c, entries) != Failed(OutOfTokens)
    ensures ObjectMembers(ts, c, entries).Parsed? ==> ObjectMembers(ts, c, entries).next < |ts|
    decreases |ts| - c, 1
  {
    if ts[c].StringTok? && ts[c + 1] == Colon {
      ValueAtInBounds(ts, c + 2);
      var r := ValueAt(ts, c + 2);
      if r.Parsed? && ts[r.next] == Comma {
        ObjectMembersInBounds(ts, r.next + 1, Insert(entries, ts[c].text, r.value));
      }
    }
  }

  /** At top level a list ending in EOF or INVALID is accepted exactly when one
      value parses from its first token and the token after it is EOF; the
      iterator is never exhausted. */
  lemma TopLevel(ts: seq<Token>)
    requires EndsTerminal(ts)
    ensures ParseTokens(ts) != Err(OutOfTokens)
    ensures ParseTokens(ts).Ok? <==>
      ValueAt(ts, 0).Parsed? && ValueAt(ts, 0).next < |ts| && ts[ValueAt(ts, 0).next] == Eof
  {
    ValueAtInBounds(ts, 0);
  }

  /** Parsing text never asks for a token after the lexer's last one. */
  lemma ParseTextNeverRunsOut(s: string)
    ensures ParseText(s) != Err(OutOfTokens)
  {
    LexTerminated(s, 0);
    TopLevel(Tokenize(s));
  }

  /** `parse_value` returns the payload of a STRING, BOOLEAN, NULL or NUMBER
      token and rejects punctuation other than an opener, EOF and INVALID. */
  lemma ValueAtScalars(ts: seq<Token>, c: nat)
    requires c < |ts|
    ensures ts[c].StringTok? ==> ValueAt(ts, c) == Parsed(String(ts[c].text), c + 1)
    ensures ts[c].BoolTok? ==> ValueAt(ts, c) == Parsed(Bool(ts[c].value), c + 1)
    ensures ts[c].NullTok? ==> ValueAt(ts, c) == Parsed(Null, c + 1)
    ensures ts[c].NumberTok? ==> ValueAt(ts, c) == Parsed(Number(ts[c].number), c + 1)
    ensures ts[c] in {RBrace, RBracket, Colon, Comma, Eof} || ts[c].Invalid? ==>
      ValueAt(ts, c) == Failed(UnexpectedToken)
  {
  }

  /** A comma right before `]` is accepted: the element before it is the last
      one appended and the loop ends at the closer. */
  lemma ArrayTrailingComma(ts: seq<Token>, c: nat, items: seq<Value>, x: Value, q: nat)
    requires c < |ts| && ts[c] != RBracket && ValueAt(ts, c) == Parsed(x, q)
    requires q + 1 < |ts| && ts[q] == Comma && ts[q + 1] == RBracket
    ensures ArrayItems(ts, c, items) == Parsed(Array(items + [x]), q + 2)
  {
  }

  /** A comma right before `}` is accepted: the member before it is the last
      one set and the loop ends at the closer. */
  lemma ObjectTrailingComma(ts: seq<Token>, c: nat, entries: seq<(string, Value)>, x: Value, q: nat)
    requires c + 2 < |ts| && ts[c].StringTok? && ts[c + 1] == Colon
    requires ValueAt(ts, c + 2) == Parsed(x, q)
    requires q + 1 < |ts| && ts[q] == Comma && ts[q + 1] == RBrace
    ensures ObjectMembers(ts, c, entries) == Parsed(Object(Insert(entries, ts[c].text, x)), q + 2)
  {
  }

  /** An array or object parses only when its opener is followed by a second
      copy of that opener, and then it is an array or an object. */
  lemma OpenerTwice(ts: seq<Token>, c: nat)
    requires c < |ts| && (ts[c] == LBracket || ts[c] == LBrace) && ValueAt(ts, c).Parsed?
    ensures c + 1 < |ts| && ts[c + 1] == ts[c]
    ensures ts[c] == LBracket ==> ValueAt(ts, c).value.Array?
    ensures ts[c] == LBrace ==> ValueAt(ts, c).value.Object?
  {
    if ts[c] == LBracket {
      assert ArrayAt(ts, c + 1).Parsed?;
      ArrayItemsAppend(ts, c + 2, []);
    } else {
      assert ObjectAt(ts, c + 1).Parsed?;
      ObjectMembersIsObject(ts, c + 2, []);
    }
  }

  /** Array elements keep their order: the loop only appends. */
  lemma {:induction false} ArrayItemsAppend(ts: seq<Token>, c: nat, items: seq<Value>)
    requires c < |ts| && ArrayItems(ts, c, items).Parsed?
    ensures ArrayItems(ts, c, items).value.Array?
    ensures items <= ArrayItems(ts, c, items).value.items
    decreases |ts| - c
  {
    if ts[c] != RBracket {
      var r := ValueAt(ts, c);
      if ts[r.next] == Comma {
        ArrayItemsAppend(ts, r.next + 1, items + [r.value]);
      }
    }
  }

  lemma {:induction false} ObjectMembersIsObject(ts: seq<Token>, c: nat, entries: seq<(string, Value)>)
    requires c < |ts| && ObjectMembers(ts, c, entries).Parsed?
    ensures ObjectMembers(ts, c, entries).value.Object?
    decreases |ts| - c
  {
    if ts[c].StringTok? {
      var r := ValueAt(ts, c + 2);
      if ts[r.next] == Comma {
        ObjectMembersIsObject(ts, r.next + 1, Insert(entries, ts[c].text, r.value));
      }
    }
  }

  /** Every object in a value has unique keys, at every depth. */
  predicate WellFormed(v: Value) {
    match v
    case Array(items) => forall i :: 0 <= i < |items| ==> WellFormed(items[i])
    case Object(entries) =>
      UniqueKeys(entries) && forall i :: 0 <= i < |entries| ==> WellFormed(entries[i].1)
    case _ => true
  }

  predicate AllWellFormed(entries: seq<(string, Value)>) {
    forall e :: e in entries ==> WellFormed(e.1)
  }

  /** Parsing only builds well-formed values: a duplicate key replaces the
      earlier entry rather than adding a second one. */
  lemma {:induction false} ValueAtWellFormed(ts: seq<Token>, c: nat)
    requires c < |ts| && ValueAt(ts, c).Parsed?
    ensures WellFormed(ValueAt(ts, c).value)
    decreases |ts| - c, 0
  {
    match ts[c]
    case LBrace => ObjectAtWellFormed(ts, c + 1);
    case LBracket => ArrayAtWellFormed(ts, c + 1);
    case _ =>
  }

  lemma {:induction false} ArrayAtWellFormed(ts: seq<Token>, p: nat)
    requires p <= |ts| && ArrayAt(ts, p).Parsed?
    ensures WellFormed(ArrayAt(ts, p).value)
    decreases |ts| - p, 0
  {
    ArrayItemsWellFormed(ts, p + 1, []);
  }

  lemma {:induction false} ArrayItemsWellFormed(ts: seq<Token>, c: nat, items: seq<Value>)
    requires c < |ts| && ArrayItems(ts, c, items).Parsed?
    requires forall i :: 0 <= i < |items| ==> WellFormed(items[i])
    ensures WellFormed(ArrayItems(ts, c, items).value)
    decreases |ts| - c, 1
  {
    if ts[c] != RBracket {
      var r := ValueAt(ts, c);
      ValueAtWellFormed(ts, c);
      var items' := items + [r.value];
      assert forall i :: 0 <= i < |items'| ==> WellFormed(items'[i]);
      if ts[r.next] == Comma {
        ArrayItemsWellFormed(ts, r.next + 1, items');
      }
    }
  }

  lemma {:induction false} ObjectAtWellFormed(ts: seq<Token>, p: nat)
    requires p <= |ts| && ObjectAt(ts, p).Parsed?
    ensures WellFormed(ObjectAt(ts, p).value)
    decreases |ts| - p, 0
  {
    ObjectMembersWellFormed(ts, p + 1, []);
  }

  lemma {:induction false} ObjectMembersWellFormed(ts: seq<Token>, c: nat, entries: seq<(string, Value)>)
    requires c < |ts| && ObjectMembers(ts, c, entries).Parsed?
    requires UniqueKeys(entries) && AllWellFormed(entries)
    ensures WellFormed(ObjectMembers(ts, c, entries).value)
    decreases |ts| - c, 1
  {
    if ts[c].StringTok? {
      var r := ValueAt(ts, c + 2);
      ValueAtWellFormed(ts, c + 2);
      var obj := Insert(entries, ts[c].text, r.value);
      InsertSpec(entries, ts[c].text, r.value);
      assert AllWellFormed(obj);
      if ts[r.next] == Comma {
        ObjectMembersWellFormed(ts, r.next + 1, obj);
      } else {
        assert forall i :: 0 <= i < |obj| ==> obj[i] in obj;
      }
    } else {
      assert forall i :: 0 <= i < |entries| ==> entries[i] in entries;
    }
  }

  /** Whatever text parses, the value it parses to is well formed. */
  lemma ParseTextWellFormed(s: string)
    requires ParseText(s).Ok?
    ensures WellFormed(ParseText(s).value)
  {
    ValueAtWellFormed(Tokenize(s), 0);
  }
}

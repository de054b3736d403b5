/** The parser's inverse: the tokens a value is read back from. The parser
    reads an array or object only when its opener is written twice (the
    opener that `parse_value` takes and the one `parse_array` or
    `parse_object` asks for again), so `Emit` writes each opener twice. */
module JsonRoundTrip {
  import opened JsonLexer
  import opened JsonParser

  /** The tokens of `v`: a scalar is its one token, an array or object is its
      opener twice, its elements or members separated by commas, and its
      closer once. */
  function Emit(v: Value): seq<Token>
    decreases v, 1
  {
    match v
    case String(t) => [StringTok(t)]
    case Bool(b) => [BoolTok(b)]
    case Null => [NullTok]
    case Number(n) => [NumberTok(n)]
    case Array(items) => [LBracket, LBracket] + EmitItems(v, 0) + [RBracket]
    case Object(entries) => [LBrace, LBrace] + EmitMembers(v, 0) + [RBrace]
  }

  /** The elements of array `v` from the `i`-th on, comma separated. */
  function EmitItems(v: Value, i: nat): seq<Token>
    requires v.Array? && i <= |v.items|
    decreases v, 0, |v.items| - i
  {
    if i == |v.items| then []
    else Emit(v.items[i]) + (if i + 1 < |v.items| then [Comma] + EmitItems(v, i + 1) else [])
  }

  /** The members of object `v` from the `i`-th on, each `key : value`, comma
      separated. */
  function EmitMembers(v: Value, i: nat): seq<Token>
    requires v.Object? && i <= |v.entries|
    decreases v, 0, |v.entries| - i
  {
    if i == |v.entries| then []
    else
      [StringTok(v.entries[i].0), Colon] + Emit(v.entries[i].1)
      + (if i + 1 < |v.entries| then [Comma] + EmitMembers(v, i + 1) else [])
  }

  // ------------------------------------------------------------- segments

  /** The tokens `e` occur in `ts` from index `c` on. */
  predicate At(ts: seq<Token>, c: nat, e: seq<Token>)
    decreases e
  {
    e == [] || (c < |ts| && ts[c] == e[0] && At(ts, c + 1, e[1..]))
  }

  lemma {:induction false} AtConcat(ts: seq<Token>, c: nat, a: seq<Token>, b: seq<Token>)
    ensures At(ts, c, a + b) <==> At(ts, c, a) && At(ts, c + |a|, b)
    decreases a
  {
    if a == [] {
      assert a + b == b;
    } else {
      assert (a + b)[0] == a[0] && (a + b)[1..] == a[1..] + b;
      AtConcat(ts, c + 1, a[1..], b);
    }
  }

  /** Every list holds its own suffixes. */
  lemma {:induction false} AtSuffix(ts: seq<Token>, c: nat)
    requires c <= |ts|
    ensures At(ts, c, ts[c..])
    decreases |ts| - c
  {
    if c < |ts| {
      AtSuffix(ts, c + 1);
      assert ts[c..][1..] == ts[c + 1..];
    }
  }

  lemma {:induction false} AtIndex(ts: seq<Token>, c: nat, e: seq<Token>, k: nat)
    requires At(ts, c, e) && k < |e|
    ensures c + |e| <= |ts| && ts[c + k] == e[k]
    decreases e
  {
    if |e| > 1 {
      AtIndex(ts, c + 1, e[1..], if k == 0 then 0 else k - 1);
    }
  }

  // ------------------------------------------------------------- prefixes

  lemma SliceEnds<T>(s: seq<T>, i: nat)
    requires i == 0 || i == |s|
    ensures i == 0 ==> s[..i] == []
    ensures i == |s| ==> s[..i] == s
  {
  }

  lemma SliceSnoc<T>(s: seq<T>, i: nat)
    requires i < |s|
    ensures s[..i] + [s[i]] == s[..i + 1]
  {
  }

  lemma SliceCons<T>(s: seq<T>, i: nat)
    requires 0 < i <= |s|
    ensures s[..i] == [s[0]] + s[1..][..i - 1]
  {
  }

  // ------------------------------------------------------- keys of a dict

  lemma KeyIn(entries: seq<(string, Value)>, j: nat)
    requires j < |entries|
    ensures entries[j].0 in Keys(entries)
  {
    if j > 0 {
      KeyIn(entries[1..], j - 1);
    }
  }

  /** With unique keys, no entry's key occurs among the keys before it. */
  lemma {:induction false} KeyIsNew(entries: seq<(string, Value)>, i: nat)
    requires UniqueKeys(entries) && i < |entries|
    ensures entries[i].0 !in Keys(entries[..i])
  {
    if i > 0 {
      var tail := entries[1..];
      KeyIsNew(tail, i - 1);
      KeyIn(tail, i - 1);
      SliceCons(entries, i);
    }
  }

  /** Setting a key that is not yet present appends its entry. */
  lemma {:induction false} InsertNew(entries: seq<(string, Value)>, key: string, value: Value)
    requires key !in Keys(entries)
    ensures Insert(entries, key, value) == entries + [(key, value)]
  {
    if entries != [] {
      InsertNew(entries[1..], key, value);
      assert entries == [entries[0]] + entries[1..];
    }
  }

  // ---------------------------------------------------------- round trip

  /** Wherever the tokens of a well-formed value occur, `parse_value` started
      on their first token reads that value and stops right after them. */
  lemma {:induction false} EmitParses(v: Value, ts: seq<Token>, c: nat)
    requires WellFormed(v) && At(ts, c, Emit(v))
    ensures ValueAt(ts, c) == Parsed(v, c + |Emit(v)|)
    decreases v, 1
  {
    match v
    case Array(items) =>
      OpenFrame(ts, c, LBracket, EmitItems(v, 0), RBracket);
      ValueAtOpen(ts, c);
      EmitItemsParse(v, 0, ts, c + 2);
      SliceEnds(items, 0);
    case Object(entries) =>
      OpenFrame(ts, c, LBrace, EmitMembers(v, 0), RBrace);
      ValueAtOpen(ts, c);
      EmitMembersParse(v, 0, ts, c + 2);
      SliceEnds(entries, 0);
    case _ =>
      AtIndex(ts, c, Emit(v), 0);
      ValueAtScalars(ts, c);
  }

  /** Tokens framed by an opener written twice and a closer. */
  lemma OpenFrame(ts: seq<Token>, c: nat, open: Token, body: seq<Token>, close: Token)
    requires At(ts, c, [open, open] + body + [close])
    ensures c + 2 < |ts| && ts[c] == open && ts[c + 1] == open
    ensures At(ts, c + 2, body + [close])
  {
    assert [open, open] + body + [close] == [open, open] + (body + [close]);
    AtConcat(ts, c, [open, open], body + [close]);
    AtIndex(ts, c, [open, open], 1);
    AtIndex(ts, c + 2, body + [close], 0);
  }

  /** `parse_value` on an opener written twice goes straight into the loop
      of `parse_array` or `parse_object`. */
  lemma ValueAtOpen(ts: seq<Token>, c: nat)
    requires c + 2 < |ts| && ts[c + 1] == ts[c]
    ensures ts[c] == LBracket ==> ValueAt(ts, c) == ArrayItems(ts, c + 2, [])
    ensures ts[c] == LBrace ==> ValueAt(ts, c) == ObjectMembers(ts, c + 2, [])
  {
  }

  /** The array loop, having gathered the first `i` elements, reads the rest
      and the closer. */
  lemma {:induction false} EmitItemsParse(v: Value, i: nat, ts: seq<Token>, c: nat)
    requires v.Array? && WellFormed(v) && i <= |v.items|
    requires At(ts, c, EmitItems(v, i) + [RBracket])
    ensures ArrayItems(ts, c, v.items[..i]) == Parsed(v, c + |EmitItems(v, i)| + 1)
    decreases v, 0, |v.items| - i, 1
  {
    if i < |v.items| {
      EmitItemParse(v, i, ts, c);
    } else {
      AtIndex(ts, c, [RBracket], 0);
      SliceEnds(v.items, i);
    }
  }

  /** One pass of the array loop over element `i`, then the passes after it. */
  lemma {:induction false} EmitItemParse(v: Value, i: nat, ts: seq<Token>, c: nat)
    requires v.Array? && WellFormed(v) && i < |v.items|
    requires At(ts, c, EmitItems(v, i) + [RBracket])
    ensures ArrayItems(ts, c, v.items[..i]) == Parsed(v, c + |EmitItems(v, i)| + 1)
    decreases v, 0, |v.items| - i, 0
  {
    var items := v.items;
    var q := ItemSplit(v, i, ts, c);
    EmitParses(items[i], ts, c);
    if i + 1 < |items| {
      EmitItemsParse(v, i + 1, ts, q + 1);
      ItemsJoin(ts, c, items, i, q);
    } else {
      ItemsClose(ts, c, items, i, q);
    }
  }

  /** Where element `i` ends, and what follows it. */
  lemma ItemSplit(v: Value, i: nat, ts: seq<Token>, c: nat) returns (q: nat)
    requires v.Array? && i < |v.items|
    requires At(ts, c, EmitItems(v, i) + [RBracket])
    ensures q == c + |Emit(v.items[i])| && q < |ts|
    ensures c < |ts| && ts[c] != RBracket && At(ts, c, Emit(v.items[i]))
    ensures i + 1 < |v.items| ==>
      q + 1 < |ts| && ts[q] == Comma && At(ts, q + 1, EmitItems(v, i + 1) + [RBracket]) &&
      |EmitItems(v, i)| == |Emit(v.items[i])| + 1 + |EmitItems(v, i + 1)|
    ensures i + 1 == |v.items| ==> ts[q] == RBracket && |EmitItems(v, i)| == |Emit(v.items[i])|
  {
    var rest := ItemsUnfold(v, i);
    q := ItemFrame(ts, c, v.items[i], rest);
    if i + 1 < |v.items| {
      CommaFrame(ts, q, EmitItems(v, i + 1) + [RBracket]);
    } else {
      AtIndex(ts, q, rest, 0);
    }
  }

  /** An element followed by a comma: the loop goes on with it appended. */
  lemma ItemsJoin(ts: seq<Token>, c: nat, items: seq<Value>, i: nat, q: nat)
    requires i < |items| && c < |ts| && ts[c] != RBracket && ValueAt(ts, c) == Parsed(items[i], q)
    requires q + 1 < |ts| && ts[q] == Comma
    ensures ArrayItems(ts, c, items[..i]) == ArrayItems(ts, q + 1, items[..i + 1])
  {
    ArrayItemsStep(ts, c, items[..i], items[i], q);
    SliceSnoc(items, i);
  }

  /** The last element followed by the closer: the loop returns the array. */
  lemma ItemsClose(ts: seq<Token>, c: nat, items: seq<Value>, i: nat, q: nat)
    requires i + 1 == |items| && c < |ts| && ts[c] != RBracket && ValueAt(ts, c) == Parsed(items[i], q)
    requires q < |ts| && ts[q] == RBracket
    ensures ArrayItems(ts, c, items[..i]) == Parsed(Array(items), q + 1)
  {
    ArrayItemsStep(ts, c, items[..i], items[i], q);
    SliceSnoc(items, i);
    SliceEnds(items, i + 1);
  }

  /** The tokens of one element `x`, followed by `rest`. */
  lemma ItemFrame(ts: seq<Token>, c: nat, x: Value, rest: seq<Token>) returns (q: nat)
    requires At(ts, c, Emit(x) + rest)
    ensures q == c + |Emit(x)|
    ensures c < |ts| && ts[c] != RBracket
    ensures At(ts, c, Emit(x)) && At(ts, q, rest)
  {
    q := c + |Emit(x)|;
    AtConcat(ts, c, Emit(x), rest);
    EmitNotCloser(x);
    AtIndex(ts, c, Emit(x), 0);
  }

  /** The object loop, having set the first `i` members, reads the rest and
      the closer. */
  lemma {:induction false} EmitMembersParse(v: Value, i: nat, ts: seq<Token>, c: nat)
    requires v.Object? && WellFormed(v) && i <= |v.entries|
    requires At(ts, c, EmitMembers(v, i) + [RBrace])
    ensures ObjectMembers(ts, c, v.entries[..i]) == Parsed(v, c + |EmitMembers(v, i)| + 1)
    decreases v, 0, |v.entries| - i, 1
  {
    if i < |v.entries| {
      EmitMemberParse(v, i, ts, c);
    } else {
      AtIndex(ts, c, [RBrace], 0);
      SliceEnds(v.entries, i);
    }
  }

  /** One pass of the object loop over member `i`, then the passes after it. */
  lemma {:induction false} EmitMemberParse(v: Value, i: nat, ts: seq<Token>, c: nat)
    requires v.Object? && WellFormed(v) && i < |v.entries|
    requires At(ts, c, EmitMembers(v, i) + [RBrace])
    ensures ObjectMembers(ts, c, v.entries[..i]) == Parsed(v, c + |EmitMembers(v, i)| + 1)
    decreases v, 0, |v.entries| - i, 0
  {
    var entries := v.entries;
    var q := MemberSplit(v, i, ts, c);
    EmitParses(entries[i].1, ts, c + 2);
    MemberStep(ts, c, entries, i, q);
    if i + 1 < |entries| {
      EmitMembersParse(v, i + 1, ts, q + 1);
    } else {
      SliceEnds(entries, i + 1);
    }
  }

  /** Where member `i` ends, and what follows it. */
  lemma MemberSplit(v: Value, i: nat, ts: seq<Token>, c: nat) returns (q: nat)
    requires v.Object? && i < |v.entries|
    requires At(ts, c, EmitMembers(v, i) + [RBrace])
    ensures q == c + 2 + |Emit(v.entries[i].1)| && q < |ts|
    ensures c + 2 < |ts| && ts[c] == StringTok(v.entries[i].0) && ts[c + 1] == Colon
    ensures At(ts, c + 2, Emit(v.entries[i].1))
    ensures i + 1 < |v.entries| ==>
      q + 1 < |ts| && ts[q] == Comma && At(ts, q + 1, EmitMembers(v, i + 1) + [RBrace]) &&
      |EmitMembers(v, i)| == 2 + |Emit(v.entries[i].1)| + 1 + |EmitMembers(v, i + 1)|
    ensures i + 1 == |v.entries| ==> ts[q] == RBrace && |EmitMembers(v, i)| == 2 + |Emit(v.entries[i].1)|
  {
    var rest := MembersUnfold(v, i);
    q := MemberFrame(ts, c, v.entries[i].0, v.entries[i].1, rest);
    if i + 1 < |v.entries| {
      CommaFrame(ts, q, EmitMembers(v, i + 1) + [RBrace]);
    } else {
      AtIndex(ts, q, rest, 0);
    }
  }

  /** The tokens of one member, `key : x`, followed by `rest`. */
  lemma MemberFrame(ts: seq<Token>, c: nat, key: string, x: Value, rest: seq<Token>) returns (q: nat)
    requires At(ts, c, [StringTok(key), Colon] + (Emit(x) + rest))
    ensures q == c + 2 + |Emit(x)|
    ensures c + 2 < |ts| && ts[c] == StringTok(key) && ts[c + 1] == Colon
    ensures At(ts, c + 2, Emit(x)) && At(ts, q, rest)
  {
    q := c + 2 + |Emit(x)|;
    AtConcat(ts, c, [StringTok(key), Colon], Emit(x) + rest);
    AtConcat(ts, c + 2, Emit(x), rest);
    AtIndex(ts, c, [StringTok(key), Colon], 1);
    EmitNotCloser(x);
    AtIndex(ts, c + 2, Emit(x), 0);
  }

  /** A comma followed by `tail`. */
  lemma CommaFrame(ts: seq<Token>, q: nat, tail: seq<Token>)
    requires At(ts, q, [Comma] + tail)
    ensures q < |ts| && ts[q] == Comma && At(ts, q + 1, tail)
  {
    AtConcat(ts, q, [Comma], tail);
    AtIndex(ts, q, [Comma], 0);
  }

  /** One pass of the object loop over the `i`-th member of a dict with unique
      keys: setting it extends the dict by that member. */
  lemma MemberStep(ts: seq<Token>, c: nat, entries: seq<(string, Value)>, i: nat, q: nat)
    requires UniqueKeys(entries) && i < |entries|
    requires c + 2 < |ts| && ts[c] == StringTok(entries[i].0) && ts[c + 1] == Colon
    requires ValueAt(ts, c + 2) == Parsed(entries[i].1, q) && q < |ts|
    ensures ts[q] == RBrace ==>
      ObjectMembers(ts, c, entries[..i]) == Parsed(Object(entries[..i + 1]), q + 1)
    ensures ts[q] == Comma && q + 1 < |ts| ==>
      ObjectMembers(ts, c, entries[..i]) == ObjectMembers(ts, q + 1, entries[..i + 1])
  {
    ObjectMembersStep(ts, c, entries[..i], entries[i].0, entries[i].1, q);
    MemberIsNew(entries, i);
  }

  /** One pass of the array loop on an element that is followed by a
      closer or by a comma. */
  lemma ArrayItemsStep(ts: seq<Token>, c: nat, items: seq<Value>, x: Value, q: nat)
    requires c < |ts| && ts[c] != RBracket && ValueAt(ts, c) == Parsed(x, q) && q < |ts|
    ensures ts[q] == RBracket ==> ArrayItems(ts, c, items) == Parsed(Array(items + [x]), q + 1)
    ensures ts[q] == Comma && q + 1 < |ts| ==> ArrayItems(ts, c, items) == ArrayItems(ts, q + 1, items + [x])
  {
  }

  /** One pass of the object loop on a member that is followed by a closer or
      by a comma. */
  lemma ObjectMembersStep(ts: seq<Token>, c: nat, entries: seq<(string, Value)>, key: string, x: Value, q: nat)
    requires c + 2 < |ts| && ts[c] == StringTok(key) && ts[c + 1] == Colon
    requires ValueAt(ts, c + 2) == Parsed(x, q) && q < |ts|
    ensures ts[q] == RBrace ==>
      ObjectMembers(ts, c, entries) == Parsed(Object(Insert(entries, key, x)), q + 1)
    ensures ts[q] == Comma && q + 1 < |ts| ==>
      ObjectMembers(ts, c, entries) == ObjectMembers(ts, q + 1, Insert(entries, key, x))
  {
  }

  /** The tokens of element `i` and what follows them, up to the closer. */
  lemma ItemsUnfold(v: Value, i: nat) returns (rest: seq<Token>)
    requires v.Array? && i < |v.items|
    ensures rest == if i + 1 < |v.items| then [Comma] + (EmitItems(v, i + 1) + [RBracket]) else [RBracket]
    ensures EmitItems(v, i) + [RBracket] == Emit(v.items[i]) + rest
    ensures |EmitItems(v, i)| + 1 == |Emit(v.items[i])| + |rest|
  {
    var tail := if i + 1 < |v.items| then [Comma] + EmitItems(v, i + 1) else [];
    assert EmitItems(v, i) == Emit(v.items[i]) + tail;
    rest := tail + [RBracket];
    Assoc(Emit(v.items[i]), tail, [RBracket]);
    if i + 1 < |v.items| {
      Assoc([Comma], EmitItems(v, i + 1), [RBracket]);
    }
  }

  /** The tokens of member `i` and what follows them, up to the closer. */
  lemma MembersUnfold(v: Value, i: nat) returns (rest: seq<Token>)
    requires v.Object? && i < |v.entries|
    ensures rest == if i + 1 < |v.entries| then [Comma] + (EmitMembers(v, i + 1) + [RBrace]) else [RBrace]
    ensures EmitMembers(v, i) + [RBrace] == [StringTok(v.entries[i].0), Colon] + (Emit(v.entries[i].1) + rest)
    ensures |EmitMembers(v, i)| + 1 == 2 + |Emit(v.entries[i].1)| + |rest|
  {
    var head := [StringTok(v.entries[i].0), Colon];
    var tail := if i + 1 < |v.entries| then [Comma] + EmitMembers(v, i + 1) else [];
    assert EmitMembers(v, i) == head + Emit(v.entries[i].1) + tail;
    rest := tail + [RBrace];
    Regroup(head, Emit(v.entries[i].1), tail, [RBrace]);
    if i + 1 < |v.entries| {
      Assoc([Comma], EmitMembers(v, i + 1), [RBrace]);
    }
  }

  /** Concatenation regrouped to the right. */
  lemma Regroup<T>(a: seq<T>, b: seq<T>, t: seq<T>, z: seq<T>)
    ensures (a + b + t) + z == a + (b + (t + z))
  {
  }

  lemma Assoc<T>(a: seq<T>, b: seq<T>, z: seq<T>)
    ensures (a + b) + z == a + (b + z)
  {
  }

  /** The tokens of a value never start with a closer. */
  lemma EmitNotCloser(v: Value)
    ensures |Emit(v)| > 0 && Emit(v)[0] != RBracket && Emit(v)[0] != RBrace
  {
  }

  /** Setting the `i`-th key of a dict with unique keys onto the first `i`
      entries appends the `i`-th entry. */
  lemma MemberIsNew(entries: seq<(string, Value)>, i: nat)
    requires UniqueKeys(entries) && i < |entries|
    ensures Insert(entries[..i], entries[i].0, entries[i].1) == entries[..i + 1]
  {
    KeyIsNew(entries, i);
    InsertNew(entries[..i], entries[i].0, entries[i].1);
    SliceSnoc(entries, i);
  }

  /** Round trip: the parser reads every well-formed value back from its
      tokens followed by EOF. */
  lemma ParseEmit(v: Value)
    requires WellFormed(v)
    ensures ParseTokens(Emit(v) + [Eof]) == Ok(v)
  {
    var ts := Emit(v) + [Eof];
    AtSuffix(ts, 0);
    assert ts[0..] == Emit(v) + [Eof];
    AtConcat(ts, 0, Emit(v), [Eof]);
    EmitParses(v, ts, 0);
  }

  /** Every value the parser produces is one that `Emit` can write: parsing,
      emitting and parsing again gives the same value. */
  lemma ReparseEmit(ts: seq<Token>)
    requires ParseTokens(ts).Ok?
    ensures ParseTokens(Emit(ParseTokens(ts).value) + [Eof]) == ParseTokens(ts)
  {
    ValueAtWellFormed(ts, 0);
    ParseEmit(ParseTokens(ts).value);
  }
}

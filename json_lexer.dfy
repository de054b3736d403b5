// The tokenizer of the JSON-subset parser (app2/parser.py, lines 1-111).
//
// The source's helpers `parse_string`, `parse_boolean`, `parse_null` and
// `parse_number` each compute how many characters they matched but only add it
// to their own copy of `pos`, so the lexer loop never moves past a string,
// keyword or number.  This module models the helpers as functions returning
// (token, matched length) and the lexer loop advancing by that length and
// stopping after any INVALID token; the loop as written is modelled as well
// (WrittenStep, WrittenRun) together with a lemma showing that it never ends.

module JsonLexer {

  /** Payload of a NUMBER token: `int(lexeme)` when the lexeme has no '.',
      otherwise the lexeme itself (the source applies `float` to it). */
  datatype Numeral = Integer(value: int) | Fractional(lexeme: string)

  datatype Token =
    | LBrace | RBrace | LBracket | RBracket | Colon | Comma
    | StringTok(text: string)
    | BoolTok(value: bool)
    | NullTok
    | NumberTok(number: Numeral)
    | Eof
    | Invalid(detail: string)

  /** EOF and INVALID are the two tokens after which the lexer yields nothing. */
  predicate IsTerminal(t: Token) {
    t.Eof? || t.Invalid?
  }

  /** A token sequence as the lexer produces it: one terminal token, at the end. */
  predicate Terminated(ts: seq<Token>) {
    && |ts| > 0
    && IsTerminal(ts[|ts| - 1])
    && forall i :: 0 <= i < |ts| - 1 ==> !IsTerminal(ts[i])
  }

  // ---------------------------------------------------------------- characters

  /** `str.isdigit`, restricted to the ASCII digits. */
  predicate IsDigit(c: char) {
    '0' <= c <= '9'
  }

  /** `str.isspace`: the characters Python treats as white space. */
  predicate IsSpace(c: char) {
    || '\t' <= c <= '\r'
    || '\U{1C}' <= c <= ' '
    || c == '\U{85}' || c == '\U{A0}' || c == '\U{1680}'
    || '\U{2000}' <= c <= '\U{200A}'
    || c == '\U{2028}' || c == '\U{2029}' || c == '\U{202F}' || c == '\U{205F}'
    || c == '\U{3000}'
  }

  predicate IsStructural(c: char) {
    c == '{' || c == '}' || c == '[' || c == ']' || c == ':' || c == ','
  }

  function Structural(c: char): (t: Token)
    requires IsStructural(c)
  {
    match c
    case '{' => LBrace
    case '}' => RBrace
    case '[' => LBracket
    case ']' => RBracket
    case ':' => Colon
    case _ => Comma
  }

  /** The characters on which the lexer hands over to one of the four helpers. */
  predicate StartsScalar(c: char) {
    c == '"' || c == 't' || c == 'f' || c == 'n' || IsDigit(c) || c == '-'
  }

  // ------------------------------------------------------------ string literal

  /** Index of the first '"' or newline at or after `j`, or |s| when there is none. */
  function QuoteEnd(s: string, j: nat): (k: nat)
    requires j <= |s|
    ensures j <= k <= |s|
    ensures forall i :: j <= i < k ==> s[i] != '"' && s[i] != '\n'
    ensures k < |s| ==> s[k] == '"' || s[k] == '\n'
    decreases |s| - j
  {
    if j == |s| || s[j] == '"' || s[j] == '\n' then j else QuoteEnd(s, j + 1)
  }

  /** There is a closing quote after `pos` with no newline before it. */
  ghost predicate ClosedOnLine(s: string, pos: nat)
    requires pos < |s|
  {
    exists j :: pos < j < |s| && s[j] == '"' && forall i :: pos < i < j ==> s[i] != '\n'
  }

  /** `parse_string`: the pattern `"(.*?)"` at `pos`, where `.` is any character
      but a newline. */
  function ScanString(s: string, pos: nat): (r: (Token, nat))
    requires pos <= |s|
    ensures r.0.StringTok? || r.0 == Invalid("Invalid string syntax")
    ensures r.0.StringTok? <==> pos < |s| && s[pos] == '"' && ClosedOnLine(s, pos)
    ensures r.0.StringTok? ==>
              && r.1 == |r.0.text| + 2
              && pos + r.1 <= |s|
              && s[pos..pos + r.1] == "\"" + r.0.text + "\""
              && '"' !in r.0.text && '\n' !in r.0.text
  {
    if pos < |s| && s[pos] == '"' then
      var k := QuoteEnd(s, pos + 1);
      if k < |s| && s[k] == '"' then
        var text := s[pos + 1..k];
        assert forall i :: 0 <= i < |text| ==> text[i] == s[pos + 1 + i];
        assert s[pos..k + 1] == "\"" + text + "\"";
        (StringTok(text), k + 1 - pos)
      else
        assert forall j :: pos < j < |s| && s[j] == '"' ==> pos < k < j && s[k] == '\n';
        (Invalid("Invalid string syntax"), 0)
    else
      (Invalid("Invalid string syntax"), 0)
  }

  // ----------------------------------------------------------------- keywords

  /** `input_str[pos:pos+len(word)] == word`, with Python's clamped slice. */
  predicate KeywordAt(s: string, pos: nat, word: string)
    requires pos <= |s|
  {
    var end := if pos + |word| <= |s| then pos + |word| else |s|;
    s[pos..end] == word
  }

  lemma KeywordAtIsPrefix(s: string, pos: nat, word: string)
    requires pos <= |s|
    ensures KeywordAt(s, pos, word) <==> word <= s[pos..]
  {
    if pos + |word| <= |s| {
      assert s[pos..pos + |word|] == s[pos..][..|word|];
    }
  }

  /** `parse_boolean` for the keyword `word`, which stands for `value`. */
  function ScanBoolean(s: string, pos: nat, word: string, value: bool): (r: (Token, nat))
    requires pos <= |s|
    ensures r.0 == BoolTok(value) || r.0 == Invalid("Invalid boolean: " + word)
    ensures r.0.BoolTok? <==> word <= s[pos..]
    ensures r.0.BoolTok? ==> r.1 == |word|
  {
    KeywordAtIsPrefix(s, pos, word);
    if KeywordAt(s, pos, word) then (BoolTok(value), |word|)
    else (Invalid("Invalid boolean: " + word), 0)
  }

  /** `parse_null`. */
  function ScanNull(s: string, pos: nat): (r: (Token, nat))
    requires pos <= |s|
    ensures r.0 == NullTok || r.0 == Invalid("Invalid null syntax")
    ensures r.0 == NullTok <==> "null" <= s[pos..]
    ensures r.0 == NullTok ==> r.1 == 4
  {
    KeywordAtIsPrefix(s, pos, "null");
    if KeywordAt(s, pos, "null") then (NullTok, 4)
    else (Invalid("Invalid null syntax"), 0)
  }

  // ------------------------------------------------------------------ numbers

  predicate AllDigits(t: string) {
    |t| > 0 && forall i :: 0 <= i < |t| ==> IsDigit(t[i])
  }

  /** The lexeme without its optional leading minus sign. */
  function Unsigned(t: string): string {
    if |t| > 0 && t[0] == '-' then t[1..] else t
  }

  /** The whole of `t` matches the pattern `-?\d+(\.\d+)?`. */
  ghost predicate IsNumberLexeme(t: string) {
    var u := Unsigned(t);
    || AllDigits(u)
    || exists m :: 0 < m < |u| && u[m] == '.' && AllDigits(u[..m]) && AllDigits(u[m + 1..])
  }

  /** Index of the first non-digit at or after `j`, or |s|. */
  function DigitsEnd(s: string, j: nat): (k: nat)
    requires j <= |s|
    ensures j <= k <= |s|
    ensures forall i :: j <= i < k ==> IsDigit(s[i])
    ensures k < |s| ==> !IsDigit(s[k])
    decreases |s| - j
  {
    if j < |s| && IsDigit(s[j]) then DigitsEnd(s, j + 1) else j
  }

  /** The value of a run of decimal digits. */
  function DigitsValue(ds: string): (v: nat)
    requires forall i :: 0 <= i < |ds| ==> IsDigit(ds[i])
  {
    if ds == [] then 0
    else
      var last := ds[|ds| - 1];
      assert IsDigit(last);
      DigitsValue(ds[..|ds| - 1]) * 10 + (last as int - '0' as int)
  }

  /** `int(lexeme)` for a lexeme of the form `-?\d+` (leading zeros allowed). */
  function IntValue(t: string): int
    requires AllDigits(Unsigned(t))
  {
    if |t| > 0 && t[0] == '-' then 0 - DigitsValue(t[1..]) else DigitsValue(t)
  }

  /** Where the digits of a number starting at `pos` begin. */
  function SignEnd(s: string, pos: nat): (i: nat)
    requires pos <= |s|
    ensures pos <= i <= |s|
  {
    if pos < |s| && s[pos] == '-' then pos + 1 else pos
  }

  lemma UnsignedSlice(s: string, pos: nat, k: nat)
    requires pos <= |s| && SignEnd(s, pos) < k <= |s|
    ensures Unsigned(s[pos..k]) == s[SignEnd(s, pos)..k]
  {
  }

  /** A '.' followed by a digit at index `d`. */
  predicate FractionAt(s: string, d: nat) {
    d + 1 < |s| && s[d] == '.' && IsDigit(s[d + 1])
  }

  /** `parse_number`: the match of `-?\d+(\.\d+)?` at `pos`, the greedy
      quantifiers taking as many digits as there are. */
  function ScanNumber(s: string, pos: nat): (r: (Token, nat))
    requires pos <= |s|
    ensures r.0.NumberTok? || r.0 == Invalid("Invalid number format")
    ensures r.0.NumberTok? <==> SignEnd(s, pos) < |s| && IsDigit(s[SignEnd(s, pos)])
    ensures r.0.NumberTok? ==> 0 < r.1 && pos + r.1 <= |s|
  {
    var i := SignEnd(s, pos);
    var d := DigitsEnd(s, i);
    if d == i then
      (Invalid("Invalid number format"), 0)
    else if FractionAt(s, d) then
      var e := DigitsEnd(s, d + 1);
      (NumberTok(Fractional(s[pos..e])), e - pos)
    else
      UnsignedSlice(s, pos, d);
      (NumberTok(Integer(IntValue(s[pos..d]))), d - pos)
  }

  /** The text `ScanNumber` matched matches the number pattern, its payload is
      integral exactly when it has no '.', an integral payload is `int` of the
      text and a fractional one is the text itself. */
  lemma ScanNumberLexeme(s: string, pos: nat) returns (lexeme: string)
    requires pos <= |s| && ScanNumber(s, pos).0.NumberTok?
    ensures lexeme == s[pos..pos + ScanNumber(s, pos).1]
    ensures IsNumberLexeme(lexeme)
    ensures ScanNumber(s, pos).0.number.Integer? <==> '.' !in lexeme
    ensures ScanNumber(s, pos).0.number.Integer? ==>
      AllDigits(Unsigned(lexeme)) && ScanNumber(s, pos).0.number.value == IntValue(lexeme)
    ensures ScanNumber(s, pos).0.number.Fractional? ==> ScanNumber(s, pos).0.number.lexeme == lexeme
  {
    var i := SignEnd(s, pos);
    var d := DigitsEnd(s, i);
    if FractionAt(s, d) {
      var e := DigitsEnd(s, d + 1);
      assert ScanNumber(s, pos) == (NumberTok(Fractional(s[pos..e])), e - pos);
      FractionLexeme(s, pos, i, d, e);
      lexeme := s[pos..e];
    } else {
      IntegerLexeme(s, pos, i, d);
      assert ScanNumber(s, pos) == (NumberTok(Integer(IntValue(s[pos..d]))), d - pos);
      lexeme := s[pos..d];
    }
  }

  lemma FractionLexeme(s: string, pos: nat, i: nat, d: nat, e: nat)
    requires pos <= |s| && i == SignEnd(s, pos) && i < d && d + 1 < e <= |s|
    requires forall j :: i <= j < d ==> IsDigit(s[j])
    requires s[d] == '.'
    requires forall j :: d < j < e ==> IsDigit(s[j])
    ensures IsNumberLexeme(s[pos..e]) && '.' in s[pos..e]
  {
    UnsignedSlice(s, pos, e);
    var u := s[i..e];
    var m := d - i;
    assert AllDigits(u[..m]) by {
      forall j | 0 <= j < m ensures IsDigit(u[..m][j]) {
        assert u[..m][j] == s[i + j];
      }
    }
    var tail := u[m + 1..];
    assert AllDigits(tail) by {
      forall j | 0 <= j < |tail| ensures IsDigit(tail[j]) {
        assert tail[j] == s[d + 1 + j];
      }
    }
    assert u[m] == '.';
    assert s[pos..e][d - pos] == '.';
  }

  lemma IntegerLexeme(s: string, pos: nat, i: nat, d: nat)
    requires pos <= |s| && i == SignEnd(s, pos) && i < d <= |s|
    requires forall j :: i <= j < d ==> IsDigit(s[j])
    ensures AllDigits(Unsigned(s[pos..d])) && '.' !in s[pos..d]
  {
    var t := s[pos..d];
    UnsignedSlice(s, pos, d);
    forall k | 0 <= k < |t| ensures t[k] != '.' {
      assert t[k] == s[pos + k];
    }
  }

  /** The lexeme `ScanNumber` takes cannot be extended: no longer prefix of
      `s[pos..]` matches the number pattern. */
  lemma {:induction false} NumberIsLongest(s: string, pos: nat, k: nat)
    requires pos <= |s|
    requires ScanNumber(s, pos).0.NumberTok?
    requires pos + ScanNumber(s, pos).1 < k <= |s|
    ensures !IsNumberLexeme(s[pos..k])
  {
    var i := SignEnd(s, pos);
    var d := DigitsEnd(s, i);
    var e := if FractionAt(s, d) then DigitsEnd(s, d + 1) else d;
    assert e < k;
    UnsignedSlice(s, pos, k);
    var u := s[i..k];
    assert u[d - i] == s[d];
    assert !AllDigits(u);
    forall m | 0 < m < |u|
      ensures !(u[m] == '.' && AllDigits(u[..m]) && AllDigits(u[m + 1..]))
    {
      NoSplitAt(s, i, d, e, k, m);
    }
  }

  /** No '.' at offset `m` of `s[i..k]` splits it into two digit runs, when
      the digits from `i` end at `d` and any fraction after them at `e < k`. */
  lemma NoSplitAt(s: string, i: nat, d: nat, e: nat, k: nat, m: nat)
    requires i <= |s| && d == DigitsEnd(s, i)
    requires e == if FractionAt(s, d) then DigitsEnd(s, d + 1) else d
    requires e < k <= |s| && 0 < m < k - i
    ensures var u := s[i..k];
      !(u[m] == '.' && AllDigits(u[..m]) && AllDigits(u[m + 1..]))
  {
    var u := s[i..k];
    if m < d - i {
      assert u[m] == s[i + m];
    } else if m > d - i {
      assert u[..m][d - i] == s[d];
    } else if d + 1 < k {
      assert u[m + 1..][0] == s[d + 1];
      if FractionAt(s, d) {
        assert u[m + 1..][e - d - 1] == s[e];
      }
    }
  }

  // ---------------------------------------------------------------- the lexer

  /** The helper the lexer calls on character `s[pos]`, and its result. */
  function ScanScalar(s: string, pos: nat): (r: (Token, nat))
    requires pos < |s| && StartsScalar(s[pos])
    ensures r.0.Invalid? || (0 < r.1 && pos + r.1 <= |s|)
    ensures !r.0.Eof?
  {
    match s[pos]
    case '"' => ScanString(s, pos)
    case 't' => ScanBoolean(s, pos, "true", true)
    case 'f' => ScanBoolean(s, pos, "false", false)
    case 'n' => ScanNull(s, pos)
    case _ => ScanNumber(s, pos)
  }

  /** One pass of the lexer's loop at `pos`: the tokens it yields, where it
      continues, and whether it returns. */
  function Step(s: string, pos: nat): (r: (seq<Token>, nat, bool))
    requires pos < |s|
    ensures !r.2 ==> pos < r.1 <= |s|
  {
    var c := s[pos];
    if IsStructural(c) then ([Structural(c)], pos + 1, false)
    else if StartsScalar(c) then
      var (t, n) := ScanScalar(s, pos);
      if t.Invalid? then ([t], pos, true) else ([t], pos + n, false)
    else if IsSpace(c) then ([], pos + 1, false)
    else ([Invalid([c])], pos, true)
  }

  /** A pass yields at most one token, and returns exactly when that token is
      INVALID; EOF is never yielded inside the loop. */
  lemma StepShape(s: string, pos: nat)
    requires pos < |s|
    ensures |Step(s, pos).0| <= 1
    ensures Step(s, pos).2 <==> |Step(s, pos).0| == 1 && IsTerminal(Step(s, pos).0[0])
  {
  }

  /** The tokens the lexer yields from position `pos` of `s` on. */
  function LexFrom(s: string, pos: nat): seq<Token>
    requires pos <= |s|
    decreases |s| - pos
  {
    if pos == |s| then [Eof]
    else
      var (out, next, stop) := Step(s, pos);
      if stop then out else out + LexFrom(s, next)
  }

  lemma LexFromUnfold(s: string, pos: nat)
    requires pos < |s|
    ensures var (out, next, stop) := Step(s, pos);
      LexFrom(s, pos) == if stop then out else out + LexFrom(s, next)
  {
  }

  /** What one pass of the loop adds to the tokens yielded so far. */
  lemma LexStep(s: string, pos: nat, tokens: seq<Token>, out: seq<Token>, next: nat, stop: bool)
    requires pos < |s| && Step(s, pos) == (out, next, stop)
    ensures stop ==> tokens + LexFrom(s, pos) == tokens + out
    ensures !stop ==> next <= |s| && tokens + LexFrom(s, pos) == (tokens + out) + LexFrom(s, next)
  {
    LexFromUnfold(s, pos);
    if !stop {
      assert tokens + (out + LexFrom(s, next)) == (tokens + out) + LexFrom(s, next);
    }
  }

  function Tokenize(s: string): seq<Token> {
    LexFrom(s, 0)
  }

  /** `lexer`: the while loop over `pos`. */
  method Lexer(s: string) returns (tokens: seq<Token>)
    ensures tokens == Tokenize(s)
  {
    tokens := [];
    var pos := 0;
    while pos < |s|
      invariant pos <= |s|
      invariant tokens + LexFrom(s, pos) == Tokenize(s)
      decreases |s| - pos
    {
      var (out, next, stop) := Step(s, pos);
      LexStep(s, pos, tokens, out, next, stop);
      if stop {
        tokens := tokens + out;
        return;
      }
      tokens, pos := tokens + out, next;
    }
    tokens := tokens + [Eof];
  }

  // ------------------------------------------------------ lexer properties

  /** The stream always ends in exactly one terminal token: EOF when the whole
      input was consumed, INVALID (and nothing after it) otherwise. */
  lemma {:induction false} LexTerminated(s: string, pos: nat)
    requires pos <= |s|
    ensures Terminated(LexFrom(s, pos))
    decreases |s| - pos
  {
    if pos < |s| {
      LexFromUnfold(s, pos);
      StepShape(s, pos);
      var (out, next, stop) := Step(s, pos);
      if !stop {
        LexTerminated(s, next);
        if out != [] {
          PrependKeepsTerminated(out[0], LexFrom(s, next));
          assert out == [out[0]];
        } else {
          assert out + LexFrom(s, next) == LexFrom(s, next);
        }
      }
    }
  }

  lemma PrependKeepsTerminated(t: Token, ts: seq<Token>)
    requires Terminated(ts) && !IsTerminal(t)
    ensures Terminated([t] + ts)
  {
    var r := [t] + ts;
    forall i | 0 <= i < |r| - 1 ensures !IsTerminal(r[i]) {
      if i > 0 { assert r[i] == ts[i - 1]; }
    }
  }

  /** An EOF token is produced exactly when no INVALID one is. */
  lemma EofIffNoInvalid(s: string)
    ensures var ts := Tokenize(s);
      |ts| > 0 && ts[|ts| - 1] == Eof <==> forall i :: 0 <= i < |ts| ==> !ts[i].Invalid?
  {
    LexTerminated(s, 0);
  }

  predicate StructuralOrSpace(t: string) {
    forall i :: 0 <= i < |t| ==> IsStructural(t[i]) || IsSpace(t[i])
  }

  /** Reference reading of a text made of structural characters and white space:
      one token per structural character, white space dropped. */
  function StructuralTokens(t: string): seq<Token>
    requires StructuralOrSpace(t)
  {
    if t == [] then []
    else if IsStructural(t[0]) then [Structural(t[0])] + StructuralTokens(t[1..])
    else StructuralTokens(t[1..])
  }

  /** Each of `{ } [ ] : ,` yields its one token and white space yields none,
      and the stream is closed by a single EOF. */
  lemma {:induction false} LexStructuralText(s: string, pos: nat)
    requires pos <= |s| && StructuralOrSpace(s[pos..])
    ensures LexFrom(s, pos) == StructuralTokens(s[pos..]) + [Eof]
    decreases |s| - pos
  {
    if pos < |s| {
      assert s[pos..][0] == s[pos] && s[pos..][1..] == s[pos + 1..];
      LexStructuralText(s, pos + 1);
    }
  }

  /** A character that starts no token ends the stream with INVALID carrying it. */
  lemma LexUnknownCharacter(s: string, pos: nat)
    requires pos < |s|
    requires !IsStructural(s[pos]) && !StartsScalar(s[pos]) && !IsSpace(s[pos])
    ensures LexFrom(s, pos) == [Invalid([s[pos]])]
  {
  }

  // ------------------------------------------------ the loop as it is written

  /** One pass of the source's `while` loop at `pos`: the tokens yielded, the
      next value of `pos`, and whether the generator returned.  In a helper
      branch the helper's token is yielded but `pos` is left unchanged, and an
      INVALID from a helper does not end the loop. */
  function WrittenStep(s: string, pos: nat): (r: (seq<Token>, nat, bool))
    requires pos < |s|
    ensures |r.0| <= 1
    ensures r.1 == pos || r.1 == pos + 1
    ensures r.1 == pos <==> !IsStructural(s[pos]) && !IsSpace(s[pos])
    ensures r.2 <==> r.0 == [Invalid([s[pos]])] && !StartsScalar(s[pos])
  {
    var c := s[pos];
    if IsStructural(c) then ([Structural(c)], pos + 1, false)
    else if StartsScalar(c) then ([ScanScalar(s, pos).0], pos, false)
    else if IsSpace(c) then ([], pos + 1, false)
    else ([Invalid([c])], pos, true)
  }

  /** What the source's generator yields in at most `fuel` passes of its loop,
      and whether it has finished by then. */
  function WrittenRun(s: string, pos: nat, fuel: nat): (r: (seq<Token>, bool))
    requires pos <= |s|
    ensures |r.0| <= fuel + 1
    ensures r.1 ==> |r.0| > 0 && IsTerminal(r.0[|r.0| - 1])
    decreases fuel
  {
    if pos == |s| then ([Eof], true)
    else if fuel == 0 then ([], false)
    else
      var (out, next, stop) := WrittenStep(s, pos);
      if stop || next > |s| then (out, true)
      else
        var (rest, done) := WrittenRun(s, next, fuel - 1);
        (out + rest, done)
  }

  /** At a string, keyword or number the source's loop yields the same token on
      every pass and never finishes, so `list(lexer(...))` never returns. */
  lemma {:induction false} WrittenRunRepeats(s: string, pos: nat, fuel: nat)
    requires pos < |s| && StartsScalar(s[pos])
    ensures WrittenRun(s, pos, fuel) == (Repeat(ScanScalar(s, pos).0, fuel), false)
    decreases fuel
  {
    if fuel > 0 {
      WrittenRunRepeats(s, pos, fuel - 1);
    }
  }

  /** `n` copies of `t`. */
  function Repeat(t: Token, n: nat): (ts: seq<Token>)
    ensures |ts| == n && forall i :: 0 <= i < n ==> ts[i] == t
  {
    if n == 0 then [] else [t] + Repeat(t, n - 1)
  }

  /** For the input `1` the corrected lexer yields NUMBER then EOF, while the
      loop as written yields NUMBER on every pass. */
  lemma OneDigitInput()
    ensures Tokenize("1") == [NumberTok(Integer(1)), Eof]
    ensures forall fuel: nat :: WrittenRun("1", 0, fuel).1 == false
  {
    var s := "1";
    assert DigitsEnd(s, 1) == 1;
    assert DigitsEnd(s, 0) == 1;
    assert s[0..1] == "1";
    assert DigitsValue("1") == 1 by {
      assert "1"[..0] == [];
    }
    assert ScanNumber(s, 0) == (NumberTok(Integer(1)), 1);
    forall fuel: nat ensures WrittenRun("1", 0, fuel).1 == false {
      WrittenRunRepeats(s, 0, fuel);
    }
  }
}

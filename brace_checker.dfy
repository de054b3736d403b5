/** The brace-only checker: a lexer that knows `{` and `}` and stops at the
    first other character, and an acceptor that reads at most three tokens
    and reports whether the input is the empty object `{}`. */
module BraceChecker {

  datatype Token = LBrace | RBrace | Eof | Invalid(ch: char)

  /** The program's exit status: 0 for valid, 1 for invalid. `OutOfTokens`
      stands for `next` raising StopIteration, which never happens. */
  datatype Verdict = Valid | InvalidJson | OutOfTokens

  predicate IsBrace(c: char) {
    c == '{' || c == '}'
  }

  /** The token of one brace. */
  function BraceToken(c: char): (t: Token)
    requires IsBrace(c)
    ensures t == LBrace <==> c == '{'
    ensures t == RBrace <==> c == '}'
  {
    if c == '{' then LBrace else RBrace
  }

  /** The whole stream the lexer generates for `s`. */
  function BraceTokens(s: string): seq<Token>
  {
    if s == [] then [Eof]
    else if IsBrace(s[0]) then [BraceToken(s[0])] + BraceTokens(s[1..])
    else [Invalid(s[0])]
  }

  /** The length of the run of braces that starts `s`. */
  function BraceRun(s: string): (k: nat)
    ensures k <= |s|
    ensures forall i :: 0 <= i < k ==> IsBrace(s[i])
    ensures k < |s| ==> !IsBrace(s[k])
  {
    if s == [] || !IsBrace(s[0]) then 0 else 1 + BraceRun(s[1..])
  }

  /** One token per leading brace, then EOF if the text was all braces, or
      else the INVALID token of the first other character, and nothing after
      it. */
  lemma {:induction false} BraceTokensShape(s: string)
    ensures var k := BraceRun(s);
      && |BraceTokens(s)| == k + 1
      && (forall i :: 0 <= i < k ==> BraceTokens(s)[i] == BraceToken(s[i]))
      && BraceTokens(s)[k] == (if k == |s| then Eof else Invalid(s[k]))
  {
    if s != [] && IsBrace(s[0]) {
      BraceTokensShape(s[1..]);
      var k := BraceRun(s);
      assert forall i :: 1 <= i < k ==> BraceTokens(s)[i] == BraceTokens(s[1..])[i - 1];
    }
  }

  /** `lexer`: the generator, run to exhaustion. */
  method Lex(s: string) returns (tokens: seq<Token>)
    ensures tokens == BraceTokens(s)
  {
    tokens := [];
    var pos := 0;
    while pos < |s|
      invariant pos <= |s|
      invariant forall i :: 0 <= i < pos ==> IsBrace(s[i])
      invariant tokens + BraceTokens(s[pos..]) == BraceTokens(s)
    {
      var c := s[pos];
      if c == '{' {
        tokens := tokens + [LBrace];
      } else if c == '}' {
        tokens := tokens + [RBrace];
      } else {
        tokens := tokens + [Invalid(c)];
        return;
      }
      assert s[pos..][1..] == s[pos + 1..];
      pos := pos + 1;
    }
    tokens := tokens + [Eof];
  }

  /** `parser` on the token stream: LBRACE, RBRACE, EOF is valid and every
      other beginning is invalid; a `next` past the end is `OutOfTokens`. */
  function Check(ts: seq<Token>): (r: Verdict)
    ensures r == Valid <==> |ts| >= 3 && ts[..3] == [LBrace, RBrace, Eof]
    ensures r == OutOfTokens <==> |ts| < 3 && ts == [LBrace, RBrace, Eof][..|ts|]
  {
    if |ts| == 0 then OutOfTokens
    else if ts[0] != LBrace then InvalidJson
    else if |ts| == 1 then OutOfTokens
    else if ts[1] != RBrace then InvalidJson
    else if |ts| == 2 then OutOfTokens
    else if ts[2] == Eof then Valid
    else InvalidJson
  }

  /** The verdict is decided by the first three tokens at most. */
  lemma CheckReadsThree(ts: seq<Token>)
    requires |ts| >= 3
    ensures Check(ts) == Check(ts[..3])
  {
  }

  /** The stream of any text ends in EOF or INVALID and nothing follows it,
      so the acceptor never asks for a token that is not there. */
  lemma {:induction false} NeverOutOfTokens(s: string)
    ensures Check(BraceTokens(s)) != OutOfTokens
  {
    BraceTokensShape(s);
    if |s| >= 1 && IsBrace(s[0]) {
      BraceTokensShape(s[1..]);
      if |s| >= 2 && IsBrace(s[1]) {
        assert BraceTokens(s)[2] == BraceTokens(s[1..])[1];
        BraceTokensShape(s[2..]);
      }
    }
  }

  /** The checker accepts exactly the text `{}`. */
  lemma {:induction false} AcceptsOnlyEmptyObject(s: string)
    ensures Check(BraceTokens(s)) == Valid <==> s == "{}"
  {
    if s == "{}" {
      assert s[1..] == "}" && s[1..][1..] == [];
      assert BraceTokens("}") == [RBrace, Eof];
      assert BraceTokens(s) == [LBrace, RBrace, Eof];
    }
    if Check(BraceTokens(s)) == Valid {
      BraceTokensShape(s);
      var ts := BraceTokens(s);
      assert ts[0] == LBrace && ts[1] == RBrace && ts[2] == Eof;
      assert BraceRun(s) == 2 == |s|;
      assert BraceToken(s[0]) == LBrace && BraceToken(s[1]) == RBrace;
      assert s == "{}";
    }
  }

  /** A brace token is never the last one: the stream goes on until EOF or
      INVALID. */
  lemma {:induction false} BraceIsFollowed(s: string, i: nat)
    requires i < |BraceTokens(s)| && BraceTokens(s)[i] in {LBrace, RBrace}
    ensures i + 1 < |BraceTokens(s)|
  {
    BraceTokensShape(s);
  }

  /** `parser(input_str)`: its exit status, 0 (`Valid`) for `{}` and 1
      (`InvalidJson`) for every other input. */
  method Parser(s: string) returns (v: Verdict)
    ensures v == Check(BraceTokens(s))
    ensures v == Valid <==> s == "{}"
    ensures v != OutOfTokens
  {
    var tokens := Lex(s);
    AcceptsOnlyEmptyObject(s);
    BraceTokensShape(s);
    var token := tokens[0];
    if token == LBrace {
      BraceIsFollowed(s, 0);
      token := tokens[1];
      if token == RBrace {
        BraceIsFollowed(s, 1);
        token := tokens[2];
        if token == Eof {
          v := Valid;
        } else {
          v := InvalidJson;
        }
      } else {
        v := InvalidJson;
      }
    } else {
      v := InvalidJson;
    }
  }
}

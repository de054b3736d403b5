/** Codes, encoding and decoding over a Huffman tree. */
module HuffmanCodes {
  import opened HuffmanTree

  datatype Option<T> = None | Some(value: T)

  /** No character sits at two leaves, as for a tree built from a table with
      one entry per character. */
  predicate DistinctLeaves(t: Node) {
    forall c :: LeafChars(t)[c] <= 1
  }

  lemma DistinctChildren(t: Node)
    requires t.Merged? && DistinctLeaves(t)
    ensures DistinctLeaves(t.left) && DistinctLeaves(t.right)
    ensures forall c :: c in LeafChars(t.left) ==> c !in LeafChars(t.right)
  {
    assert forall c :: LeafChars(t)[c] == LeafChars(t.left)[c] + LeafChars(t.right)[c];
  }

  // ------------------------------------------------------------------ paths

  /** The child one symbol leads to: '0' goes left, any other symbol right. */
  function Child(t: Node, b: char): (n: Node)
    requires t.Merged?
    ensures n == t.left || n == t.right
  {
    if b == '0' then t.left else t.right
  }

  /** The character of the leaf that path `p` ends at, if it ends exactly
      at a leaf. */
  function LeafAt(t: Node, p: string): Option<char>
    decreases p
  {
    if p == [] then (if t.Leaf? then Some(t.ch) else None)
    else if t.Leaf? then None
    else LeafAt(Child(t, p[0]), p[1..])
  }

  /** A path that ends at a leaf cannot be extended to another leaf. */
  lemma {:induction false} LeafEndsPath(t: Node, p: string, q: string)
    requires LeafAt(t, p).Some? && LeafAt(t, p + q).Some?
    ensures q == []
    decreases p
  {
    if p != [] {
      assert (p + q)[1..] == p[1..] + q;
      LeafEndsPath(Child(t, p[0]), p[1..], q);
    }
  }

  /** A string of the symbols `0` and `1` only. */
  predicate Binary(code: string) {
    forall i :: 0 <= i < |code| ==> code[i] == '0' || code[i] == '1'
  }

  /** A binary string followed by one more symbol `bit` is binary. */
  lemma BinarySnoc(code: string, bit: string)
    requires Binary(code) && (bit == "0" || bit == "1")
    ensures Binary(code + bit)
  {
    assert forall i :: 0 <= i < |code| ==> (code + bit)[i] == code[i];
  }

  // ------------------------------------------------------------------ codes

  /** `generate_codes(node, prefix, codebook)`: a leaf's character gets
      `prefix`; an inner node (character `None`) gets no entry, and its left
      subtree is coded below `prefix + "0"` before its right subtree below
      `prefix + "1"`. */
  function CodesFrom(t: Node, prefix: string, book: map<char, string>): (r: map<char, string>)
    ensures r.Keys == book.Keys + set c | c in LeafChars(t)
  {
    match t
    case Leaf(c, _) => book[c := prefix]
    case Merged(_, l, r) => CodesFrom(r, prefix + "1", CodesFrom(l, prefix + "0", book))
  }

  /** `generate_codes(root)`. */
  function Codes(t: Node): map<char, string> {
    CodesFrom(t, "", map[])
  }

  /** A code that extends `prefix + bit` is, past `prefix`, that bit followed
      by the rest. */
  lemma StepDown(code: string, prefix: string, bit: string)
    requires |bit| == 1 && prefix + bit <= code
    ensures prefix <= code
    ensures var rest := code[|prefix|..];
      |rest| > 0 && rest[0] == bit[0] && rest[1..] == code[|prefix + bit|..]
  {
    assert code[|prefix|] == (prefix + bit)[|prefix|];
  }

  /** With an accumulated codebook the entries of characters not in the tree
      are left as they were. */
  lemma {:induction false} CodesFromKeeps(t: Node, prefix: string, book: map<char, string>)
    ensures forall c :: c in book && c !in LeafChars(t) ==> CodesFrom(t, prefix, book)[c] == book[c]
  {
    if t.Merged? {
      CodesFromKeeps(t.left, prefix + "0", book);
      CodesFromKeeps(t.right, prefix + "1", CodesFrom(t.left, prefix + "0", book));
    }
  }

  /** ... and each of the tree's characters is mapped to `prefix` followed by
      its path from `t`. */
  lemma {:induction false} CodesFromPaths(t: Node, prefix: string, book: map<char, string>)
    requires DistinctLeaves(t)
    ensures forall c :: c in LeafChars(t) ==>
      && prefix <= CodesFrom(t, prefix, book)[c]
      && LeafAt(t, CodesFrom(t, prefix, book)[c][|prefix|..]) == Some(c)
      && Binary(CodesFrom(t, prefix, book)[c][|prefix|..])
  {
    match t
    case Leaf(ch, _) =>
      assert prefix[|prefix|..] == [];
      assert Binary([]);
    case Merged(_, l, r) =>
      DistinctChildren(t);
      var inner := CodesFrom(l, prefix + "0", book);
      CodesFromPaths(l, prefix + "0", book);
      CodesFromPaths(r, prefix + "1", inner);
      CodesFromKeeps(r, prefix + "1", inner);
      var outer := CodesFrom(t, prefix, book);
      forall c | c in LeafChars(t)
        ensures prefix <= outer[c] && LeafAt(t, outer[c][|prefix|..]) == Some(c)
        ensures Binary(outer[c][|prefix|..])
      {
        if c in LeafChars(l) {
          ThroughChild(t, prefix, outer[c], c, "0");
        } else {
          ThroughChild(t, prefix, outer[c], c, "1");
        }
      }
  }

  /** A path below child `bit` of `t`, with `bit` put in front, is a path
      below `t`. */
  lemma ThroughChild(t: Node, prefix: string, code: string, c: char, bit: string)
    requires t.Merged? && (bit == "0" || bit == "1") && prefix + bit <= code
    requires LeafAt(if bit == "0" then t.left else t.right, code[|prefix + bit|..]) == Some(c)
    requires Binary(code[|prefix + bit|..])
    ensures prefix <= code && LeafAt(t, code[|prefix|..]) == Some(c)
    ensures Binary(code[|prefix|..])
  {
    StepDown(code, prefix, bit);
    var rest := code[|prefix|..];
    assert forall i :: 1 <= i < |rest| ==> rest[i] == rest[1..][i - 1];
  }

  /** Every code `generate_codes` writes is its binary prefix followed by
      `0` for each step left and `1` for each step right: from a binary
      prefix and a binary codebook, every entry is binary. */
  lemma {:induction false} CodesFromBinary(t: Node, prefix: string, book: map<char, string>)
    requires Binary(prefix)
    requires forall c :: c in book ==> Binary(book[c])
    ensures forall c :: c in CodesFrom(t, prefix, book) ==> Binary(CodesFrom(t, prefix, book)[c])
  {
    if t.Merged? {
      BinarySnoc(prefix, "0");
      BinarySnoc(prefix, "1");
      CodesFromBinary(t.left, prefix + "0", book);
      CodesFromBinary(t.right, prefix + "1", CodesFrom(t.left, prefix + "0", book));
    }
  }

  /** Every leaf character has a code, nothing else does, and each code is
      the path from the root to that character's leaf. */
  lemma CodesArePaths(t: Node)
    requires DistinctLeaves(t)
    ensures Codes(t).Keys == set c | c in LeafChars(t)
    ensures forall c :: c in Codes(t) ==> LeafAt(t, Codes(t)[c]) == Some(c)
    ensures forall c :: c in Codes(t) ==> Binary(Codes(t)[c])
  {
    CodesFromPaths(t, "", map[]);
    assert forall code: string :: code[0..] == code;
  }

  /** The codes are prefix-free: a code that begins another is that same
      character's code. In particular distinct characters get distinct codes. */
  lemma CodesPrefixFree(t: Node)
    requires DistinctLeaves(t)
    ensures forall c, d :: c in Codes(t) && d in Codes(t) && Codes(t)[c] <= Codes(t)[d] ==> c == d
  {
    CodesArePaths(t);
    var book := Codes(t);
    forall c, d | c in book && d in book && book[c] <= book[d]
      ensures c == d
    {
      var q := book[d][|book[c]|..];
      assert book[d] == book[c] + q;
      LeafEndsPath(t, book[c], q);
      assert book[c] + q == book[c];
      assert Some(c) == LeafAt(t, book[d]) == Some(d);
    }
  }

  /** Below an inner node no code is empty. */
  lemma CodesNonEmpty(t: Node)
    requires DistinctLeaves(t) && t.Merged?
    ensures forall c :: c in Codes(t) ==> |Codes(t)[c]| > 0
  {
    CodesArePaths(t);
  }

  /** A tree that is one leaf gives its character the empty code. */
  lemma SingleLeafCode(c: char, f: nat)
    ensures Codes(Leaf(c, f)) == map[c := ""]
  {
  }

  /** `generate_codes` fills one dictionary in place across its recursion. */
  class Codebook {
    var entries: map<char, string>

    constructor ()
      ensures entries == map[]
    {
      entries := map[];
    }

    /** `generate_codes(node, prefix, self)`. */
    method Generate(node: Node, prefix: string)
      modifies this
      ensures entries == CodesFrom(node, prefix, old(entries))
      decreases node
    {
      match node
      case Leaf(c, _) =>
        entries := entries[c := prefix];
      case Merged(_, l, r) =>
        Generate(l, prefix + "0");
        Generate(r, prefix + "1");
    }
  }

  /** `generate_codes(root)`: a fresh codebook, filled from the root. */
  method GenerateCodes(root: Node) returns (book: map<char, string>)
    ensures book == Codes(root)
    ensures DistinctLeaves(root) ==>
      && book.Keys == set c | c in LeafChars(root)
      && forall c :: c in book ==> LeafAt(root, book[c]) == Some(c)
    ensures forall c :: c in book ==> Binary(book[c])
  {
    var codebook := new Codebook();
    codebook.Generate(root, "");
    book := codebook.entries;
    if DistinctLeaves(root) {
      CodesArePaths(root);
    }
    CodesFromBinary(root, "", map[]);
  }

  // --------------------------------------------------------------- encoding

  /** `encode`: the codes of the characters of `s`, joined in order. Every
      character must have a code (a missing one is a `KeyError`). */
  function Encode(s: string, book: map<char, string>): (r: string)
    requires forall i :: 0 <= i < |s| ==> s[i] in book
    ensures |r| == CodeLengths(s, book)
  {
    if s == [] then []
    else
      CodeLengthsFirst(s, book);
      book[s[0]] + Encode(s[1..], book)
  }

  /** The total length of the codes of the characters of `s`, summed from
      the last character back. */
  function CodeLengths(s: string, book: map<char, string>): nat
    requires forall i :: 0 <= i < |s| ==> s[i] in book
  {
    if s == [] then 0 else CodeLengths(s[..|s| - 1], book) + |book[s[|s| - 1]]|
  }

  /** The same sum, taken from the first character on. */
  lemma {:induction false} CodeLengthsFirst(s: string, book: map<char, string>)
    requires |s| > 0 && forall i :: 0 <= i < |s| ==> s[i] in book
    ensures CodeLengths(s, book) == |book[s[0]]| + CodeLengths(s[1..], book)
  {
    if |s| > 1 {
      var init := s[..|s| - 1];
      CodeLengthsFirst(init, book);
      assert init[1..] == s[1..][..|s[1..]| - 1];
    }
  }

  /** Encoding a concatenation concatenates the encodings. */
  lemma {:induction false} EncodeAppend(s: string, t: string, book: map<char, string>)
    requires forall i :: 0 <= i < |s| ==> s[i] in book
    requires forall i :: 0 <= i < |t| ==> t[i] in book
    ensures Encode(s + t, book) == Encode(s, book) + Encode(t, book)
  {
    if s == [] {
      assert s + t == t;
    } else {
      assert (s + t)[1..] == s[1..] + t;
      EncodeAppend(s[1..], t, book);
    }
  }

  /** With binary codes the encoding is binary: `encode` writes only `0`
      and `1`. */
  lemma {:induction false} EncodeBinary(s: string, book: map<char, string>)
    requires forall i :: 0 <= i < |s| ==> s[i] in book
    requires forall c :: c in book ==> Binary(book[c])
    ensures Binary(Encode(s, book))
  {
    if s != [] {
      EncodeBinary(s[1..], book);
      var head, tail := book[s[0]], Encode(s[1..], book);
      assert forall i :: |head| <= i < |head + tail| ==> (head + tail)[i] == tail[i - |head|];
    }
  }

  /** With a codebook whose every code is empty the encoding is empty. */
  lemma {:induction false} EncodeEmptyCodes(s: string, book: map<char, string>)
    requires forall i :: 0 <= i < |s| ==> s[i] in book && book[s[i]] == ""
    ensures Encode(s, book) == ""
  {
    if s != [] {
      EncodeEmptyCodes(s[1..], book);
      assert Encode(s, book) == "" + Encode(s[1..], book);
    }
  }

  // --------------------------------------------------------------- decoding

  function Prepend(p: string, o: Option<string>): Option<string> {
    if o.Some? then Some(p + o.value) else None
  }

  lemma PrependNothing(o: Option<string>)
    ensures Prepend([], o) == o
  {
    if o.Some? {
      assert [] + o.value == o.value;
    }
  }

  lemma PrependTwice(a: string, b: string, o: Option<string>)
    ensures Prepend(a, Prepend(b, o)) == Prepend(a + b, o)
  {
    if o.Some? {
      assert a + (b + o.value) == (a + b) + o.value;
    }
  }

  /** The loop of `decode` from the cursor `node` on: each symbol moves the
      cursor to a child; reaching a leaf emits its character and returns the
      cursor to the root. Moving down from a leaf, which has no children,
      fails (`None`): in the tool that is an `AttributeError`. Bits left over
      inside the tree emit nothing. */
  function DecodeFrom(bits: string, root: Node, node: Node): (r: Option<string>)
    ensures r.Some? ==> |r.value| <= |bits|
    decreases |bits|
  {
    if bits == [] then Some([])
    else if node.Leaf? then None
    else
      var next := Child(node, bits[0]);
      if next.Leaf? then Prepend([next.ch], DecodeFrom(bits[1..], root, root))
      else DecodeFrom(bits[1..], root, next)
  }

  /** `decode(encoded_string, root)`. */
  function DecodeSpec(bits: string, root: Node): Option<string> {
    DecodeFrom(bits, root, root)
  }

  /** `decode`, with the cursor and the output list it updates. */
  method Decode(bits: string, root: Node) returns (r: Option<string>)
    ensures r == DecodeSpec(bits, root)
  {
    var decoded: string := [];
    var node := root;
    PrependNothing(DecodeSpec(bits, root));
    assert bits[0..] == bits;
    for i := 0 to |bits|
      invariant Prepend(decoded, DecodeFrom(bits[i..], root, node)) == DecodeSpec(bits, root)
    {
      assert bits[i..][0] == bits[i] && bits[i..][1..] == bits[i + 1..];
      if node.Leaf? {
        return None;
      }
      var next := if bits[i] == '0' then node.left else node.right;
      if next.Leaf? {
        PrependTwice(decoded, [next.ch], DecodeFrom(bits[i + 1..], root, root));
        decoded := decoded + [next.ch];
        node := root;
      } else {
        node := next;
      }
    }
    assert bits[|bits|..] == [];
    assert decoded + [] == decoded;
    r := Some(decoded);
  }

  /** Below an inner root decoding never fails: the cursor is always at an
      inner node when it moves. From a leaf root it fails exactly when there
      are bits to read. */
  lemma {:induction false} DecodeFromInner(bits: string, root: Node, node: Node)
    requires root.Merged? && node.Merged?
    ensures DecodeFrom(bits, root, node).Some?
    decreases |bits|
  {
    if bits != [] {
      var next := Child(node, bits[0]);
      if next.Leaf? {
        DecodeFromInner(bits[1..], root, root);
      } else {
        DecodeFromInner(bits[1..], root, next);
      }
    }
  }

  lemma DecodeFails(bits: string, root: Node)
    ensures DecodeSpec(bits, root) == None <==> root.Leaf? && bits != []
  {
    if root.Merged? {
      DecodeFromInner(bits, root, root);
    }
  }

  /** Following a path that ends at a leaf emits that leaf's character and
      resumes at the root. */
  lemma {:induction false} DecodePath(p: string, rest: string, root: Node, node: Node, c: char)
    requires p != [] && LeafAt(node, p) == Some(c)
    ensures DecodeFrom(p + rest, root, node) == Prepend([c], DecodeFrom(rest, root, root))
    decreases |p|
  {
    var next := Child(node, p[0]);
    assert (p + rest)[0] == p[0] && (p + rest)[1..] == p[1..] + rest;
    if next.Leaf? {
      assert p[1..] == [];
    } else {
      DecodePath(p[1..], rest, root, next, c);
    }
  }

  /** Round trip: over an inner root whose leaves carry distinct characters,
      decoding the encoding of a text whose characters are all at leaves
      gives the text back. */
  lemma {:induction false} DecodeEncode(s: string, root: Node)
    requires root.Merged? && DistinctLeaves(root)
    requires forall i :: 0 <= i < |s| ==> s[i] in LeafChars(root)
    ensures forall i :: 0 <= i < |s| ==> s[i] in Codes(root)
    ensures DecodeSpec(Encode(s, Codes(root)), root) == Some(s)
  {
    CodesArePaths(root);
    CodesNonEmpty(root);
    if s != [] {
      var book := Codes(root);
      DecodeEncode(s[1..], root);
      DecodePath(book[s[0]], Encode(s[1..], book), root, root, s[0]);
      assert [s[0]] + s[1..] == s;
    }
  }

  /** A tree that is a single leaf codes its character as the empty string,
      so a text of that character encodes to nothing and decodes to nothing:
      the text is lost. */
  lemma SingleLeafLosesText(s: string, c: char, f: nat)
    requires forall i :: 0 <= i < |s| ==> s[i] == c
    ensures forall i :: 0 <= i < |s| ==> s[i] in Codes(Leaf(c, f))
    ensures Encode(s, Codes(Leaf(c, f))) == ""
    ensures DecodeSpec(Encode(s, Codes(Leaf(c, f))), Leaf(c, f)) == Some("")
  {
    SingleLeafCode(c, f);
    EncodeEmptyCodes(s, Codes(Leaf(c, f)));
  }
}

/** The compression tool's `main` without its I/O: count the characters of a
    text, build the tree, code the text and decode it again. */
module HuffmanMain {
  import opened HuffmanTree
  import opened HuffmanCodes

  predicate NoRepeats(d: seq<char>) {
    forall i, j :: 0 <= i < j < |d| ==> d[i] != d[j]
  }

  /** The distinct characters of `s`, in order of first occurrence; the tool
      iterates `set(input_string)`, whose order Python leaves unspecified. */
  function Distinct(s: string): (d: seq<char>)
    ensures NoRepeats(d)
    ensures forall c :: c in d <==> c in s
  {
    if s == [] then []
    else
      var d := Distinct(s[..|s| - 1]);
      var last := s[|s| - 1];
      assert s == s[..|s| - 1] + [last];
      if last in d then d else d + [last]
  }

  /** One entry per character of `d`, with its count in `s`. */
  function CountsOf(d: seq<char>, s: string): (fs: seq<(char, nat)>)
    ensures CharsOf(fs) == d
    ensures forall i :: 0 <= i < |fs| ==> fs[i].1 == multiset(s)[fs[i].0]
  {
    if d == [] then [] else [(d[0], multiset(s)[d[0]])] + CountsOf(d[1..], s)
  }

  /** `{char: input_string.count(char) for char in set(input_string)}`. */
  function Frequencies(s: string): seq<(char, nat)> {
    CountsOf(Distinct(s), s)
  }

  /** One more character adds one to the total when it is listed. */
  lemma {:induction false} CountsSnoc(d: seq<char>, s: string, x: char)
    requires NoRepeats(d)
    ensures SumFreqs(CountsOf(d, s + [x])) == SumFreqs(CountsOf(d, s)) + (if x in d then 1 else 0)
  {
    if d != [] {
      assert NoRepeats(d[1..]);
      assert x in d <==> x == d[0] || x in d[1..];
      assert x == d[0] ==> x !in d[1..];
      CountsSnoc(d[1..], s, x);
    }
  }

  /** Counting every character of a text, each once, adds up to its length. */
  lemma {:induction false} CountsSum(d: seq<char>, s: string)
    requires NoRepeats(d) && forall c :: c in s ==> c in d
    ensures SumFreqs(CountsOf(d, s)) == |s|
    decreases |s|
  {
    if s == [] {
      assert forall c :: c in d ==> multiset(s)[c] == 0;
      CountsOfEmpty(d, s);
    } else {
      var init := s[..|s| - 1];
      assert s == init + [s[|s| - 1]];
      CountsSum(d, init);
      CountsSnoc(d, init, s[|s| - 1]);
    }
  }

  lemma {:induction false} CountsOfEmpty(d: seq<char>, s: string)
    requires s == []
    ensures SumFreqs(CountsOf(d, s)) == 0
  {
    if d != [] {
      CountsOfEmpty(d[1..], s);
    }
  }

  /** A table counted over any order `d` of the distinct characters of `s`
      lists each character of `s` once, with its number of occurrences, and
      the counts add up to the length of `s`. */
  lemma CountsCover(d: seq<char>, s: string)
    requires NoRepeats(d) && forall c :: c in d <==> c in s
    ensures NoRepeats(CharsOf(CountsOf(d, s)))
    ensures forall c :: c in CharsOf(CountsOf(d, s)) <==> c in s
    ensures forall i :: 0 <= i < |CountsOf(d, s)| ==> CountsOf(d, s)[i].1 == multiset(s)[CountsOf(d, s)[i].0]
    ensures SumFreqs(CountsOf(d, s)) == |s|
  {
    CountsSum(d, s);
  }

  /** The same for the table of `main`, in first-occurrence order. */
  lemma FrequenciesCount(s: string)
    ensures NoRepeats(CharsOf(Frequencies(s)))
    ensures forall c :: c in CharsOf(Frequencies(s)) <==> c in s
    ensures forall i :: 0 <= i < |Frequencies(s)| ==> Frequencies(s)[i].1 == multiset(s)[Frequencies(s)[i].0]
    ensures SumFreqs(Frequencies(s)) == |s|
  {
    CountsCover(Distinct(s), s);
  }

  /** A list without repeats has each element at most once in its multiset. */
  lemma {:induction false} NoRepeatsOnce(d: seq<char>)
    requires NoRepeats(d)
    ensures forall c :: multiset(d)[c] <= 1
  {
    if d != [] {
      assert NoRepeats(d[1..]);
      NoRepeatsOnce(d[1..]);
      assert d == [d[0]] + d[1..];
      assert d[0] !in d[1..];
    }
  }

  /** A tree whose leaves are the characters of a text's table, in any order
      `d`, holds each character of the text at exactly one leaf. */
  lemma TreeOfText(s: string, d: seq<char>, root: Node)
    requires NoRepeats(d) && forall c :: c in d <==> c in s
    requires LeafChars(root) == multiset(CharsOf(CountsOf(d, s)))
    ensures DistinctLeaves(root)
    ensures forall i :: 0 <= i < |s| ==> s[i] in LeafChars(root)
  {
    CountsCover(d, s);
    NoRepeatsOnce(CharsOf(CountsOf(d, s)));
    assert forall i :: 0 <= i < |s| ==> s[i] in CharsOf(CountsOf(d, s));
  }

  /** A text with one distinct character gives a tree that is one leaf, the
      leaf of that character. */
  lemma OneCharacterTree(s: string, d: seq<char>, root: Node)
    requires |d| == 1 && forall c :: c in s ==> c in d
    requires Merges(root) == 0 && LeafChars(root) == multiset(d)
    ensures root.Leaf?
    ensures forall i :: 0 <= i < |s| ==> s[i] == root.ch
  {
    OneLeaf(root, d);
    OnlyCharacter(s, d);
  }

  /** A tree without merges whose leaf characters are those of a one-element
      list is the leaf of that element. */
  lemma OneLeaf(root: Node, d: seq<char>)
    requires |d| == 1 && Merges(root) == 0 && LeafChars(root) == multiset(d)
    ensures root.Leaf? && root.ch == d[0]
  {
    assert root.ch in LeafChars(root);
    assert root.ch in d;
  }

  /** A text whose characters are those of a one-element list repeats that
      element. */
  lemma OnlyCharacter(s: string, d: seq<char>)
    requires |d| == 1 && forall c :: c in s ==> c in d
    ensures forall i :: 0 <= i < |s| ==> s[i] == d[0]
  {
    forall i | 0 <= i < |s|
      ensures s[i] == d[0]
    {
      assert s[i] in s;
    }
  }

  /** `main` after reading its input and before printing: the encoded text
      and the outcome of decoding it. `order` is the order in which
      `set(input_string)` lists the distinct characters, which Python leaves
      unspecified: any order without repeats that holds exactly the
      characters of `s`. A text with two or more distinct characters comes
      back whole; a text of one repeated character is coded as nothing and
      comes back empty. An empty text is not accepted: the tool fails at
      `heap[0]` on an empty heap. */
  method Compress(s: string, order: seq<char>) returns (encoded: string, decoded: Option<string>)
    requires |s| > 0
    requires NoRepeats(order) && forall c :: c in order <==> c in s
    ensures |order| >= 2 ==> decoded == Some(s)
    ensures |order| == 1 ==> encoded == "" && decoded == Some("")
    ensures decoded == Some(s) <==> |order| >= 2
    ensures Binary(encoded)
  {
    var freqs := CountsOf(order, s);
    assert s[0] in order;
    var root := BuildHuffmanTree(freqs);
    TreeOfText(s, order, root);
    var book := GenerateCodes(root);
    encoded := Encode(s, book);
    EncodeBinary(s, book);
    decoded := Decode(encoded, root);
    if |order| >= 2 {
      DecodeEncode(s, root);
    } else {
      OneCharacterTree(s, order, root);
      SingleLeafLosesText(s, root.ch, root.freq);
    }
  }

  /** The tool as run in first-occurrence order: the same outcome, with the
      number of distinct characters counted by `Distinct`. */
  method CompressText(s: string) returns (encoded: string, decoded: Option<string>)
    requires |s| > 0
    ensures decoded == Some(s) <==> |Distinct(s)| >= 2
    ensures |Distinct(s)| == 1 ==> encoded == "" && decoded == Some("")
    ensures Binary(encoded)
  {
    encoded, decoded := Compress(s, Distinct(s));
  }
}

/** The Huffman tree of the compression tool and the loop that builds it
    from a frequency table. */
module HuffmanTree {

  /** A node of the tree. A leaf holds a character and its frequency; an
      inner node (character `None` in the tool) holds the sum of its
      children's frequencies and always has both children. */
  datatype Node = Leaf(ch: char, freq: nat) | Merged(freq: nat, left: Node, right: Node)

  /** The (character, frequency) pairs at the leaves. */
  function Leaves(t: Node): multiset<(char, nat)> {
    match t
    case Leaf(c, f) => multiset{(c, f)}
    case Merged(_, l, r) => Leaves(l) + Leaves(r)
  }

  /** The characters at the leaves, with multiplicity. */
  function LeafChars(t: Node): multiset<char> {
    match t
    case Leaf(c, _) => multiset{c}
    case Merged(_, l, r) => LeafChars(l) + LeafChars(r)
  }

  /** Every inner node's frequency is the sum of its children's. */
  predicate WellWeighted(t: Node) {
    match t
    case Leaf(_, _) => true
    case Merged(f, l, r) => f == l.freq + r.freq && WellWeighted(l) && WellWeighted(r)
  }

  /** The number of inner nodes, one per merge. */
  function Merges(t: Node): nat {
    match t
    case Leaf(_, _) => 0
    case Merged(_, l, r) => 1 + Merges(l) + Merges(r)
  }

  /** A well-weighted tree carries the total frequency of its leaves. */
  function LeafWeight(t: Node): nat {
    match t
    case Leaf(_, f) => f
    case Merged(_, l, r) => LeafWeight(l) + LeafWeight(r)
  }

  lemma {:induction false} WeightIsLeafWeight(t: Node)
    requires WellWeighted(t)
    ensures t.freq == LeafWeight(t)
  {
    if t.Merged? {
      WeightIsLeafWeight(t.left);
      WeightIsLeafWeight(t.right);
    }
  }

  /** A tree has one more leaf than it has inner nodes: it is full. */
  lemma {:induction false} LeavesOutnumberMerges(t: Node)
    ensures |LeafChars(t)| == Merges(t) + 1
  {
    if t.Merged? {
      LeavesOutnumberMerges(t.left);
      LeavesOutnumberMerges(t.right);
    }
  }

  // ------------------------------------------------------- forests (the heap)

  function ForestLeaves(h: seq<Node>): multiset<(char, nat)> {
    if h == [] then multiset{} else Leaves(h[0]) + ForestLeaves(h[1..])
  }

  function ForestChars(h: seq<Node>): multiset<char> {
    if h == [] then multiset{} else LeafChars(h[0]) + ForestChars(h[1..])
  }

  function ForestWeight(h: seq<Node>): nat {
    if h == [] then 0 else h[0].freq + ForestWeight(h[1..])
  }

  function ForestMerges(h: seq<Node>): nat {
    if h == [] then 0 else Merges(h[0]) + ForestMerges(h[1..])
  }

  /** Each measure of a forest is the sum over its parts. */
  lemma {:induction false} ForestConcat(a: seq<Node>, b: seq<Node>)
    ensures ForestLeaves(a + b) == ForestLeaves(a) + ForestLeaves(b)
    ensures ForestChars(a + b) == ForestChars(a) + ForestChars(b)
    ensures ForestWeight(a + b) == ForestWeight(a) + ForestWeight(b)
    ensures ForestMerges(a + b) == ForestMerges(a) + ForestMerges(b)
  {
    if a == [] {
      assert a + b == b;
    } else {
      assert (a + b)[1..] == a[1..] + b;
      ForestConcat(a[1..], b);
    }
  }

  /** `h` without its node at `i`: what `heappop` leaves. */
  function Remove(h: seq<Node>, i: nat): (r: seq<Node>)
    requires i < |h|
    ensures |r| == |h| - 1
  {
    h[..i] + h[i + 1..]
  }

  lemma SplitAt(h: seq<Node>, i: nat)
    requires i < |h|
    ensures h == h[..i] + ([h[i]] + h[i + 1..])
    ensures Remove(h, i) == h[..i] + h[i + 1..]
  {
  }

  /** Taking node `i` out of a forest takes its leaves out of the forest's. */
  lemma ForestRemoveLeaves(h: seq<Node>, i: nat)
    requires i < |h|
    ensures ForestLeaves(h) == ForestLeaves(Remove(h, i)) + Leaves(h[i])
    ensures ForestChars(h) == ForestChars(Remove(h, i)) + LeafChars(h[i])
  {
    var a, b := h[..i], h[i + 1..];
    SplitAt(h, i);
    ForestConcat(a, [h[i]] + b);
    ForestConcat([h[i]], b);
    ForestConcat(a, b);
    Singleton(h[i]);
  }

  /** ... and its weight and merges out of the forest's. */
  lemma ForestRemoveWeight(h: seq<Node>, i: nat)
    requires i < |h|
    ensures ForestWeight(h) == ForestWeight(Remove(h, i)) + h[i].freq
    ensures ForestMerges(h) == ForestMerges(Remove(h, i)) + Merges(h[i])
  {
    var a, b := h[..i], h[i + 1..];
    SplitAt(h, i);
    ForestConcat(a, [h[i]] + b);
    ForestConcat([h[i]], b);
    ForestConcat(a, b);
    Singleton(h[i]);
  }

  /** A one-node forest measures what its node does. */
  lemma Singleton(m: Node)
    ensures ForestLeaves([m]) == Leaves(m) && ForestChars([m]) == LeafChars(m)
    ensures ForestWeight([m]) == m.freq && ForestMerges([m]) == Merges(m)
  {
    assert [m][1..] == [];
  }

  // ---------------------------------------------------- the frequency table

  /** The characters of a frequency table, in order. */
  function CharsOf(freqs: seq<(char, nat)>): (cs: seq<char>)
    ensures |cs| == |freqs|
    ensures forall i :: 0 <= i < |freqs| ==> cs[i] == freqs[i].0
  {
    if freqs == [] then [] else [freqs[0].0] + CharsOf(freqs[1..])
  }

  function SumFreqs(freqs: seq<(char, nat)>): nat {
    if freqs == [] then 0 else freqs[0].1 + SumFreqs(freqs[1..])
  }

  /** `[Node(char, freq) for char, freq in frequencies.items()]`. */
  function InitialHeap(freqs: seq<(char, nat)>): (h: seq<Node>)
    ensures |h| == |freqs|
  {
    if freqs == [] then [] else [Leaf(freqs[0].0, freqs[0].1)] + InitialHeap(freqs[1..])
  }

  /** The initial heap holds one leaf per entry of the table and no merges. */
  lemma {:induction false} InitialLeaves(freqs: seq<(char, nat)>)
    ensures ForestLeaves(InitialHeap(freqs)) == multiset(freqs)
  {
    if freqs != [] {
      InitialLeaves(freqs[1..]);
      assert freqs == [freqs[0]] + freqs[1..];
    }
  }

  lemma {:induction false} InitialChars(freqs: seq<(char, nat)>)
    ensures ForestChars(InitialHeap(freqs)) == multiset(CharsOf(freqs))
  {
    if freqs != [] {
      InitialChars(freqs[1..]);
      assert CharsOf(freqs) == [freqs[0].0] + CharsOf(freqs[1..]);
    }
  }

  lemma {:induction false} InitialWeight(freqs: seq<(char, nat)>)
    ensures ForestWeight(InitialHeap(freqs)) == SumFreqs(freqs)
    ensures ForestMerges(InitialHeap(freqs)) == 0
  {
    if freqs != [] {
      InitialWeight(freqs[1..]);
    }
  }

  // ---------------------------------------------------------------- building

  /** The position of a node of least frequency, as `heappop` removes: with
      `__lt__` comparing frequencies, any minimum may come out first. */
  function MinIndex(h: seq<Node>): (i: nat)
    requires |h| > 0
    ensures i < |h|
    ensures forall j :: 0 <= j < |h| ==> h[i].freq <= h[j].freq
  {
    if |h| == 1 then 0
    else
      var k := MinIndex(h[1..]) + 1;
      if h[0].freq <= h[k].freq then 0 else k
  }

  predicate AllWellWeighted(h: seq<Node>) {
    forall j :: 0 <= j < |h| ==> WellWeighted(h[j])
  }

  /** What the building loop keeps: the heap's leaves are the table's
      entries, its weight the table's total, each node is well weighted, and
      every merge so far has taken one node off the heap. */
  predicate HeapInvariant(heap: seq<Node>, freqs: seq<(char, nat)>) {
    && |heap| > 0
    && ForestLeaves(heap) == multiset(freqs)
    && ForestChars(heap) == multiset(CharsOf(freqs))
    && ForestWeight(heap) == SumFreqs(freqs)
    && ForestMerges(heap) + |heap| == |freqs|
    && AllWellWeighted(heap)
  }

  /** The node a round pushes: the merge of the two popped nodes. */
  predicate MergeOf(heap: seq<Node>, i: nat, k: nat, m: Node)
    requires i < |heap| && k < |heap| - 1
  {
    m == Merged(heap[i].freq + Remove(heap, i)[k].freq, heap[i], Remove(heap, i)[k])
  }

  /** A round moves leaves between trees but keeps them all. */
  lemma MergeRoundLeaves(heap: seq<Node>, i: nat, k: nat, m: Node)
    requires i < |heap| && k < |heap| - 1 && MergeOf(heap, i, k, m)
    ensures ForestLeaves(Remove(Remove(heap, i), k) + [m]) == ForestLeaves(heap)
    ensures ForestChars(Remove(Remove(heap, i), k) + [m]) == ForestChars(heap)
  {
    ForestRemoveLeaves(heap, i);
    ForestRemoveLeaves(Remove(heap, i), k);
    ForestConcat(Remove(Remove(heap, i), k), [m]);
    Singleton(m);
  }

  /** A round keeps the total weight and adds one merge. */
  lemma MergeRoundWeight(heap: seq<Node>, i: nat, k: nat, m: Node)
    requires i < |heap| && k < |heap| - 1 && MergeOf(heap, i, k, m)
    ensures ForestWeight(Remove(Remove(heap, i), k) + [m]) == ForestWeight(heap)
    ensures ForestMerges(Remove(Remove(heap, i), k) + [m]) == ForestMerges(heap) + 1
  {
    ForestRemoveWeight(heap, i);
    ForestRemoveWeight(Remove(heap, i), k);
    ForestConcat(Remove(Remove(heap, i), k), [m]);
    Singleton(m);
  }

  lemma RemoveWellWeighted(h: seq<Node>, i: nat)
    requires i < |h| && AllWellWeighted(h)
    ensures AllWellWeighted(Remove(h, i))
  {
    var r := Remove(h, i);
    forall j | 0 <= j < |r|
      ensures WellWeighted(r[j])
    {
      if j < i {
        assert r[j] == h[j];
      } else {
        assert r[j] == h[j + 1];
      }
    }
  }

  lemma MergeRoundWellWeighted(heap: seq<Node>, i: nat, k: nat, m: Node)
    requires i < |heap| && k < |heap| - 1 && MergeOf(heap, i, k, m) && AllWellWeighted(heap)
    ensures AllWellWeighted(Remove(Remove(heap, i), k) + [m])
  {
    RemoveWellWeighted(heap, i);
    RemoveWellWeighted(Remove(heap, i), k);
    var r := Remove(Remove(heap, i), k) + [m];
    forall j | 0 <= j < |r|
      ensures WellWeighted(r[j])
    {
      if j < |r| - 1 {
        assert r[j] == Remove(Remove(heap, i), k)[j];
      }
    }
  }

  /** The heap the loop starts from meets its invariant. */
  lemma InitialInvariant(freqs: seq<(char, nat)>)
    requires |freqs| > 0
    ensures HeapInvariant(InitialHeap(freqs), freqs)
  {
    InitialLeaves(freqs);
    InitialChars(freqs);
    InitialWeight(freqs);
    InitialWellWeighted(freqs);
  }

  /** The initial heap holds leaves only. */
  lemma {:induction false} InitialWellWeighted(freqs: seq<(char, nat)>)
    ensures AllWellWeighted(InitialHeap(freqs))
  {
    if freqs != [] {
      InitialWellWeighted(freqs[1..]);
      var h := InitialHeap(freqs);
      forall j | 0 <= j < |h|
        ensures WellWeighted(h[j])
      {
        if j > 0 {
          assert h[j] == InitialHeap(freqs[1..])[j - 1];
        }
      }
    }
  }

  /** One round of the loop keeps its invariant, whichever minima it pops. */
  lemma RoundKeepsInvariant(heap: seq<Node>, freqs: seq<(char, nat)>, i: nat, k: nat, m: Node)
    requires HeapInvariant(heap, freqs) && i < |heap| && k < |heap| - 1 && MergeOf(heap, i, k, m)
    ensures HeapInvariant(Remove(Remove(heap, i), k) + [m], freqs)
  {
    MergeRoundLeaves(heap, i, k, m);
    MergeRoundWeight(heap, i, k, m);
    MergeRoundWellWeighted(heap, i, k, m);
  }

  /** When one node is left it is the whole tree. */
  lemma LastNode(heap: seq<Node>, freqs: seq<(char, nat)>)
    requires HeapInvariant(heap, freqs) && |heap| == 1
    ensures Leaves(heap[0]) == multiset(freqs)
    ensures LeafChars(heap[0]) == multiset(CharsOf(freqs))
    ensures WellWeighted(heap[0])
    ensures heap[0].freq == SumFreqs(freqs)
    ensures Merges(heap[0]) == |freqs| - 1
  {
    assert heap == [heap[0]];
    Singleton(heap[0]);
  }

  /** `build_huffman_tree`: while the heap holds two nodes or more, pop a
      least node as `left`, then a least node as `right`, and push their
      merge. For a non-empty table the root has exactly the table's entries
      as leaves, every inner node weighs what its children weigh together,
      the root weighs the sum of all frequencies and `n` entries took `n - 1`
      merges. */
  method BuildHuffmanTree(freqs: seq<(char, nat)>) returns (root: Node)
    requires |freqs| > 0
    ensures Leaves(root) == multiset(freqs)
    ensures LeafChars(root) == multiset(CharsOf(freqs))
    ensures WellWeighted(root)
    ensures root.freq == SumFreqs(freqs)
    ensures Merges(root) == |freqs| - 1
  {
    var heap := InitialHeap(freqs);
    InitialInvariant(freqs);
    while |heap| > 1
      invariant HeapInvariant(heap, freqs)
      decreases |heap|
    {
      var i := MinIndex(heap);
      var left := heap[i];
      var rest := Remove(heap, i);
      var k := MinIndex(rest);
      var right := rest[k];
      var merged := Merged(left.freq + right.freq, left, right);
      RoundKeepsInvariant(heap, freqs, i, k, merged);
      heap := Remove(rest, k) + [merged];
    }
    LastNode(heap, freqs);
    root := heap[0];
  }
}

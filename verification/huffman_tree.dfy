/** Symbol counting and `build_huffman_tree`: leaves are seeded from the frequency table and the
    two least frequent nodes are merged until one node is left. */
module HuffmanTree {
  import opened Wrappers

  /** A `Node`: a leaf carries a character; an internal node (whose `char` is None) carries
      both children and the sum of their frequencies. */
  datatype Tree = Leaf(ch: char, freq: nat) | Node(freq: nat, left: Tree, right: Tree)

  /** `Node.__lt__`: nodes are ordered by frequency alone, with no tie-break. */
  predicate Less(a: Tree, b: Tree)
  {
    a.freq < b.freq
  }

  /** `__lt__` orders nodes strictly, and two nodes are unordered exactly when their frequencies
      are equal: a tie leaves `heappop` free to return either. */
  lemma LessOrder(a: Tree, b: Tree, c: Tree)
    ensures !Less(a, a)
    ensures Less(a, b) ==> !Less(b, a)
    ensures Less(a, b) && Less(b, c) ==> Less(a, c)
    ensures !Less(a, b) && !Less(b, a) <==> a.freq == b.freq
  {
  }

  /** The number of occurrences of `c` in `text`. */
  function Count(text: string, c: char): (n: nat)
    ensures n <= |text|
    ensures n > 0 <==> c in text
  {
    if text == [] then 0
    else
      assert text == text[..|text| - 1] + [text[|text| - 1]];
      Count(text[..|text| - 1], c) + (if text[|text| - 1] == c then 1 else 0)
  }

  predicate NoDuplicates(s: seq<char>)
  {
    forall i, j :: 0 <= i < j < |s| ==> s[i] != s[j]
  }

  /** The keys of `Counter(text)` in the order the counter holds them: by first occurrence. */
  function FirstSeen(text: string): (order: seq<char>)
    ensures forall c :: c in order <==> c in text
    ensures NoDuplicates(order)
  {
    if text == [] then []
    else
      var order := FirstSeen(text[..|text| - 1]);
      var x := text[|text| - 1];
      assert text == text[..|text| - 1] + [x];
      if x in order then order else order + [x]
  }

  /** `Counter(text)`: every character of the text with its number of occurrences. */
  function Frequencies(text: string): (freq: map<char, nat>)
    ensures freq.Keys == set c | c in text
    ensures forall c :: c in freq ==> freq[c] == Count(text, c) && freq[c] >= 1
  {
    map c | c in text :: Count(text, c)
  }

  /** `[Node(char, freq) for char, freq in frequency.items()]` */
  function Seed(order: seq<char>, freq: map<char, nat>): (heap: seq<Tree>)
    requires forall c :: c in order ==> c in freq
    ensures |heap| == |order|
  {
    if order == [] then [] else [Leaf(order[0], freq[order[0]])] + Seed(order[1..], freq)
  }

  /** The characters at the leaves of a tree. */
  function Leaves(t: Tree): multiset<char>
  {
    match t
    case Leaf(c, _) => multiset{c}
    case Node(_, l, r) => Leaves(l) + Leaves(r)
  }

  /** The characters at the leaves of all trees on the heap. */
  function LeafBag(heap: seq<Tree>): multiset<char>
  {
    if heap == [] then multiset{} else Leaves(heap[0]) + LeafBag(heap[1..])
  }

  function TotalFreq(heap: seq<Tree>): nat
  {
    if heap == [] then 0 else heap[0].freq + TotalFreq(heap[1..])
  }

  /** Every merged node's frequency is the sum of its children's. */
  predicate FreqsAdd(t: Tree)
  {
    match t
    case Leaf(_, _) => true
    case Node(f, l, r) => f == l.freq + r.freq && FreqsAdd(l) && FreqsAdd(r)
  }

  /** Every leaf's frequency is the count of its character in `text`. */
  predicate LeavesCounted(t: Tree, text: string)
  {
    match t
    case Leaf(c, f) => f == Count(text, c)
    case Node(_, l, r) => LeavesCounted(l, text) && LeavesCounted(r, text)
  }

  /** What `build_huffman_tree(text)` returns, whichever way the heap breaks ties: frequencies
      add up at every merge, leaves carry the counts, and each distinct character of the text
      sits at exactly one leaf. */
  predicate IsTreeOf(t: Tree, text: string)
  {
    FreqsAdd(t) && LeavesCounted(t, text) && Leaves(t) == multiset(FirstSeen(text))
  }

  /** `heap[i]` is a node `heappop` may return: no node on the heap is `Less` than it. */
  predicate IsMinimal(heap: seq<Tree>, i: int)
  {
    0 <= i < |heap| && forall j :: 0 <= j < |heap| ==> !Less(heap[j], heap[i])
  }

  function RemoveAt(heap: seq<Tree>, i: nat): (rest: seq<Tree>)
    requires i < |heap|
    ensures |rest| == |heap| - 1
  {
    heap[..i] + heap[i + 1..]
  }

  // ---------------------------------------------------------------------------------------
  // The frequency table

  function SumCounts(order: seq<char>, text: string): nat
  {
    if order == [] then 0 else Count(text, order[0]) + SumCounts(order[1..], text)
  }

  lemma {:induction false} SumCountsAppend(a: seq<char>, b: seq<char>, text: string)
    ensures SumCounts(a + b, text) == SumCounts(a, text) + SumCounts(b, text)
  {
    if a == [] {
      assert a + b == b;
    } else {
      assert (a + b)[1..] == a[1..] + b;
      SumCountsAppend(a[1..], b, text);
    }
  }

  /** One more character adds one to the count sum exactly when the character is listed. */
  lemma {:induction false} SumCountsSnoc(order: seq<char>, p: string, x: char)
    requires NoDuplicates(order)
    ensures SumCounts(order, p + [x]) == SumCounts(order, p) + (if x in order then 1 else 0)
  {
    if order != [] {
      assert (p + [x])[..|p|] == p;
      assert NoDuplicates(order[1..]);
      SumCountsSnoc(order[1..], p, x);
      assert order == [order[0]] + order[1..];
    }
  }

  /** The counts of the distinct characters add up to the length of the text. */
  lemma {:induction false} CountsSumToLength(text: string)
    ensures SumCounts(FirstSeen(text), text) == |text|
  {
    if text != [] {
      var p, x := text[..|text| - 1], text[|text| - 1];
      assert text == p + [x];
      var order := FirstSeen(p);
      CountsSumToLength(p);
      SumCountsSnoc(order, p, x);
      if x !in order {
        SumCountsAppend(order, [x], text);
        assert Count(p, x) == 0;
      }
    }
  }

  // ---------------------------------------------------------------------------------------
  // The heap

  lemma {:induction false} LeafBagAppend(a: seq<Tree>, b: seq<Tree>)
    ensures LeafBag(a + b) == LeafBag(a) + LeafBag(b)
  {
    if a == [] {
      assert a + b == b;
    } else {
      assert (a + b)[1..] == a[1..] + b;
      LeafBagAppend(a[1..], b);
    }
  }

  lemma {:induction false} TotalFreqAppend(a: seq<Tree>, b: seq<Tree>)
    ensures TotalFreq(a + b) == TotalFreq(a) + TotalFreq(b)
  {
    if a == [] {
      assert a + b == b;
    } else {
      assert (a + b)[1..] == a[1..] + b;
      TotalFreqAppend(a[1..], b);
    }
  }

  lemma {:induction false} RemoveAtBag(heap: seq<Tree>, i: nat)
    requires i < |heap|
    ensures LeafBag(heap) == Leaves(heap[i]) + LeafBag(RemoveAt(heap, i))
  {
    var rest := RemoveAt(heap, i);
    if i == 0 {
      assert rest == heap[1..];
    } else {
      RemoveAtBag(heap[1..], i - 1);
      assert rest[0] == heap[0] && rest[1..] == RemoveAt(heap[1..], i - 1);
    }
  }


  lemma {:induction false} RemoveAtFreq(heap: seq<Tree>, i: nat)
    requires i < |heap|
    ensures TotalFreq(heap) == heap[i].freq + TotalFreq(RemoveAt(heap, i))
  {
    var rest := RemoveAt(heap, i);
    if i == 0 {
      assert rest == heap[1..];
    } else {
      RemoveAtFreq(heap[1..], i - 1);
      assert rest[0] == heap[0] && rest[1..] == RemoveAt(heap[1..], i - 1);
    }
  }


  lemma {:induction false} SeedIsLeaves(order: seq<char>, freq: map<char, nat>, text: string)
    requires forall c :: c in order ==> c in freq && freq[c] == Count(text, c)
    ensures LeafBag(Seed(order, freq)) == multiset(order)
    ensures TotalFreq(Seed(order, freq)) == SumCounts(order, text)
    ensures forall t :: t in Seed(order, freq) ==> FreqsAdd(t) && LeavesCounted(t, text)
  {
    if order != [] {
      var heap, tail := Seed(order, freq), Seed(order[1..], freq);
      SeedIsLeaves(order[1..], freq, text);
      assert heap[0] == Leaf(order[0], freq[order[0]]) && heap[1..] == tail;
      assert LeafBag(heap) == multiset{order[0]} + LeafBag(tail);
      assert order == [order[0]] + order[1..];
      assert forall t :: t in heap ==> t == heap[0] || t in tail;
    }
  }

  /** A node `heappop` may return exists on every non-empty heap. */
  lemma {:induction false} MinimalExists(heap: seq<Tree>) returns (i: nat)
    requires heap != []
    ensures IsMinimal(heap, i)
  {
    if |heap| == 1 {
      i := 0;
    } else {
      var k := MinimalExists(heap[1..]);
      if Less(heap[0], heap[k + 1]) {
        i := 0;
      } else {
        i := k + 1;
      }
    }
  }

  /** The heap invariant of the builder: every pending tree is well formed, the pending trees
      hold each distinct character at exactly one leaf, and their frequencies add up to the
      length of the text. */
  predicate HeapOf(heap: seq<Tree>, text: string)
  {
    && (forall t :: t in heap ==> FreqsAdd(t) && LeavesCounted(t, text))
    && LeafBag(heap) == multiset(FirstSeen(text))
    && TotalFreq(heap) == |text|
  }

  lemma MergeKeepsLeaves(heap: seq<Tree>, i: nat, rest: seq<Tree>, j: nat, merged: Tree)
    requires i < |heap| && rest == RemoveAt(heap, i) && j < |rest|
    requires merged == Node(heap[i].freq + rest[j].freq, heap[i], rest[j])
    ensures LeafBag(RemoveAt(rest, j) + [merged]) == LeafBag(heap)
  {
    var rest2 := RemoveAt(rest, j);
    RemoveAtBag(heap, i);
    RemoveAtBag(rest, j);
    LeafBagAppend(rest2, [merged]);
    assert LeafBag([merged]) == Leaves(merged) + LeafBag([merged][1..]);
    assert [merged][1..] == [];
    var a, b, c := Leaves(heap[i]), Leaves(rest[j]), LeafBag(rest2);
    assert LeafBag(rest2 + [merged]) == c + (a + b);
    assert LeafBag(heap) == a + (b + c);
  }

  lemma MergeKeepsFreq(heap: seq<Tree>, i: nat, rest: seq<Tree>, j: nat, merged: Tree)
    requires i < |heap| && rest == RemoveAt(heap, i) && j < |rest|
    requires merged == Node(heap[i].freq + rest[j].freq, heap[i], rest[j])
    ensures TotalFreq(RemoveAt(rest, j) + [merged]) == TotalFreq(heap)
  {
    var rest2 := RemoveAt(rest, j);
    RemoveAtFreq(heap, i);
    RemoveAtFreq(rest, j);
    TotalFreqAppend(rest2, [merged]);
    assert TotalFreq([merged]) == merged.freq + TotalFreq([merged][1..]);
    assert [merged][1..] == [];
  }

  lemma MergeKeepsTrees(heap: seq<Tree>, i: nat, rest: seq<Tree>, j: nat, merged: Tree, text: string)
    requires i < |heap| && rest == RemoveAt(heap, i) && j < |rest|
    requires merged == Node(heap[i].freq + rest[j].freq, heap[i], rest[j])
    requires forall t :: t in heap ==> FreqsAdd(t) && LeavesCounted(t, text)
    ensures forall t :: t in RemoveAt(rest, j) + [merged] ==> FreqsAdd(t) && LeavesCounted(t, text)
  {
    var rest2 := RemoveAt(rest, j);
    assert forall t :: t in rest ==> t in heap;
    assert forall t :: t in rest2 ==> t in rest;
    assert heap[i] in heap && rest[j] in rest;
    forall t | t in rest2 + [merged]
      ensures FreqsAdd(t) && LeavesCounted(t, text)
    {
      if t != merged {
        assert t in rest2;
      }
    }
  }

  /** Popping two nodes and pushing their merge keeps the heap invariant. */
  lemma MergeKeepsHeap(heap: seq<Tree>, i: nat, rest: seq<Tree>, j: nat, merged: Tree, text: string)
    requires i < |heap| && rest == RemoveAt(heap, i) && j < |rest|
    requires merged == Node(heap[i].freq + rest[j].freq, heap[i], rest[j])
    requires HeapOf(heap, text)
    ensures HeapOf(RemoveAt(rest, j) + [merged], text)
  {
    MergeKeepsLeaves(heap, i, rest, j, merged);
    MergeKeepsFreq(heap, i, rest, j, merged);
    MergeKeepsTrees(heap, i, rest, j, merged, text);
  }

  /** The leaves seeded from the frequency table form a heap of the text, empty exactly when
      the text is. */
  lemma SeedIsHeap(text: string)
    ensures HeapOf(Seed(FirstSeen(text), Frequencies(text)), text)
    ensures |Seed(FirstSeen(text), Frequencies(text))| == 0 <==> text == []
  {
    SeedIsLeaves(FirstSeen(text), Frequencies(text), text);
    CountsSumToLength(text);
    if text != [] {
      assert text[0] in FirstSeen(text);
    }
  }

  /** The one tree left on a heap of the text is a tree of the text whose root frequency is the
      length of the text. */
  lemma LastTree(heap: seq<Tree>, text: string)
    requires |heap| == 1 && HeapOf(heap, text)
    ensures IsTreeOf(heap[0], text) && heap[0].freq == |text|
  {
    assert heap[0] in heap;
    var tail := heap[1..];
    assert tail == [];
    assert LeafBag(heap) == Leaves(heap[0]) + LeafBag(tail);
    assert TotalFreq(heap) == heap[0].freq + TotalFreq(tail);
  }

  // ---------------------------------------------------------------------------------------
  // Greedy merge traces

  /** One iteration of the builder's loop: pop the node at `first`, then the node at `second` of
      the nodes left, and push their merge. */
  datatype Merge = Merge(first: nat, second: nat)

  /** The heap after one iteration, when both popped nodes are ones `heappop` may return, and
      None otherwise: one node fewer. */
  function GreedyMerge(heap: seq<Tree>, m: Merge): (r: Option<seq<Tree>>)
    ensures r.Some? ==> 2 <= |heap| && |r.value| == |heap| - 1
  {
    if IsMinimal(heap, m.first) && IsMinimal(RemoveAt(heap, m.first), m.second) then
      var rest := RemoveAt(heap, m.first);
      var a, b := heap[m.first], rest[m.second];
      Some(RemoveAt(rest, m.second) + [Node(a.freq + b.freq, a, b)])
    else None
  }

  /** A merge step takes a node of least frequency on the heap first, and then one of least
      frequency among the nodes left. */
  lemma GreedyMergePicksLeast(heap: seq<Tree>, m: Merge)
    requires GreedyMerge(heap, m).Some?
    ensures m.first < |heap| && m.second < |heap| - 1
    ensures forall t :: t in heap ==> heap[m.first].freq <= t.freq
    ensures forall t :: t in RemoveAt(heap, m.first) ==> RemoveAt(heap, m.first)[m.second].freq <= t.freq
  {
    var rest := RemoveAt(heap, m.first);
    forall t | t in heap
      ensures heap[m.first].freq <= t.freq
    {
      var k :| 0 <= k < |heap| && heap[k] == t;
      assert !Less(heap[k], heap[m.first]);
    }
    forall t | t in rest
      ensures rest[m.second].freq <= t.freq
    {
      var k :| 0 <= k < |rest| && rest[k] == t;
      assert !Less(rest[k], rest[m.second]);
    }
  }

  /** The heap after the iterations recorded in `trace`, or None when some iteration pops a node
      `heappop` could not return. Each iteration leaves one node fewer. */
  function Replay(heap: seq<Tree>, trace: seq<Merge>): (r: Option<seq<Tree>>)
    ensures r.Some? ==> |r.value| + |trace| == |heap|
    decreases |trace|
  {
    if trace == [] then Some(heap)
    else
      match Replay(heap, trace[..|trace| - 1])
      case None => None
      case Some(h) => GreedyMerge(h, trace[|trace| - 1])
  }

  /** `t` is a tree the builder can return for `text`: some run of least-frequency pops, ties
      broken in any way, merges the seeded leaves into `t` alone. */
  ghost predicate IsHuffmanTreeOf(t: Tree, text: string)
  {
    exists trace :: Replay(Seed(FirstSeen(text), Frequencies(text)), trace) == Some([t])
  }

  /** From leaves a:3, b:1, c:1 a least-frequency step merges `b` and `c`. */
  lemma FirstMergeOfThree(m: Merge)
    requires GreedyMerge([Leaf('a', 3), Leaf('b', 1), Leaf('c', 1)], m).Some?
    ensures var h := GreedyMerge([Leaf('a', 3), Leaf('b', 1), Leaf('c', 1)], m).value;
      |h| == 2 && h[0] == Leaf('a', 3) && h[1].freq == 2
  {
    var heap := [Leaf('a', 3), Leaf('b', 1), Leaf('c', 1)];
    assert IsMinimal(heap, m.first);
    assert m.first != 0 by {
      assert !Less(heap[1], heap[m.first]);
    }
    var rest := RemoveAt(heap, m.first);
    assert rest == [Leaf('a', 3), if m.first == 1 then Leaf('c', 1) else Leaf('b', 1)];
    assert m.second == 1 by {
      assert IsMinimal(rest, m.second) && !Less(rest[1], rest[m.second]);
    }
    assert RemoveAt(rest, 1) == [Leaf('a', 3)];
  }

  /** From `a:3` and a node of frequency 2, a least-frequency step puts the node left and `a`
      right. */
  lemma SecondMergeOfThree(h: seq<Tree>, n: Merge, t: Tree)
    requires |h| == 2 && h[0] == Leaf('a', 3) && h[1].freq == 2
    requires GreedyMerge(h, n) == Some([t])
    ensures t == Node(5, h[1], Leaf('a', 3))
  {
    assert n.first == 1 by {
      assert IsMinimal(h, n.first) && !Less(h[1], h[n.first]);
    }
    var rest := RemoveAt(h, 1);
    assert rest == [h[0]];
    assert n.second == 0;
    assert RemoveAt(rest, 0) == [];
    var merged := Node(h[1].freq + h[0].freq, h[1], h[0]);
    assert GreedyMerge(h, n) == Some([] + [merged]);
    assert [t] == [merged];
    assert t == [t][0];
  }

  /** One more iteration applies one more merge step to the heap reached so far. */
  lemma ReplaySnoc(heap: seq<Tree>, trace: seq<Merge>, m: Merge)
    ensures Replay(heap, trace + [m]) ==
      if Replay(heap, trace).Some? then GreedyMerge(Replay(heap, trace).value, m) else None
  {
    assert (trace + [m])[..|trace|] == trace;
  }

  /** Two pops that `heappop` may make, recorded at the end of a trace, replay to the heap
      the builder holds after pushing their merge. */
  lemma TraceGrows(seed: seq<Tree>, trace: seq<Merge>, heap: seq<Tree>, i: nat, rest: seq<Tree>, j: nat,
                    next: seq<Tree>)
    requires Replay(seed, trace) == Some(heap)
    requires IsMinimal(heap, i) && rest == RemoveAt(heap, i) && IsMinimal(rest, j)
    requires next == RemoveAt(rest, j) + [Node(heap[i].freq + rest[j].freq, heap[i], rest[j])]
    ensures Replay(seed, trace + [Merge(i, j)]) == Some(next)
  {
    ReplaySnoc(seed, trace, Merge(i, j));
  }

  /** With counts a:3, b:1, c:1 every tie order merges `b` and `c` first and then puts `a` on
      its own under the root, so `a` gets a one-bit code. */
  lemma ThreeLeavesMergeLeastFirst(trace: seq<Merge>, t: Tree)
    requires Replay([Leaf('a', 3), Leaf('b', 1), Leaf('c', 1)], trace) == Some([t])
    ensures t.Node? && t.freq == 5 && t.left.freq == 2 && t.right == Leaf('a', 3)
  {
    var heap := [Leaf('a', 3), Leaf('b', 1), Leaf('c', 1)];
    assert |trace| == 2;
    var m, n := trace[0], trace[1];
    var h1 := GreedyMerge(heap, m);
    assert Replay(heap, [m]) == h1 by {
      ReplaySnoc(heap, [], m);
      assert [] + [m] == [m];
    }
    assert h1.Some? && GreedyMerge(h1.value, n) == Some([t]) by {
      ReplaySnoc(heap, [m], n);
      assert trace == [m] + [n];
    }
    FirstMergeOfThree(m);
    SecondMergeOfThree(h1.value, n, t);
  }

  /** A text counted as a:3, b:1, c:1 (such as `"aaabc"`) gets a tree with `a` directly under
      the root and `b`, `c` merged below it, whatever order ties are broken in. */
  lemma HuffmanTreeOfThreeLeaves(text: string, t: Tree)
    requires Seed(FirstSeen(text), Frequencies(text)) == [Leaf('a', 3), Leaf('b', 1), Leaf('c', 1)]
    requires IsHuffmanTreeOf(t, text)
    ensures t.Node? && t.right == Leaf('a', 3) && t.left.freq == 2
  {
    var trace :| Replay(Seed(FirstSeen(text), Frequencies(text)), trace) == Some([t]);
    ThreeLeavesMergeLeastFirst(trace, t);
  }

  // ---------------------------------------------------------------------------------------
  // The builder

  /** `heapq.heappop(heap)`: removes and returns a node of least frequency. `i` is where it sat
      in the pending list. */
  method HeapPop(heap: seq<Tree>) returns (node: Tree, rest: seq<Tree>, ghost i: nat)
    requires heap != []
    ensures node in heap && forall t :: t in heap ==> !Less(t, node)
    ensures |rest| == |heap| - 1 && multiset(rest) + multiset{node} == multiset(heap)
    ensures IsMinimal(heap, i) && node == heap[i] && rest == RemoveAt(heap, i)
  {
    ghost var k := MinimalExists(heap);
    var m :| 0 <= m < |heap| && IsMinimal(heap, m);
    node, rest, i := heap[m], RemoveAt(heap, m), m;
    var before, after := heap[..m], heap[m + 1..];
    assert heap == before + [node] + after;
    assert multiset(heap) == multiset(before) + multiset{node} + multiset(after);
    assert multiset(rest) == multiset(before) + multiset(after);
    forall t | t in heap
      ensures !Less(t, node)
    {
      var j :| 0 <= j < |heap| && heap[j] == t;
      assert IsMinimal(heap, m) && !Less(heap[j], heap[m]);
    }
  }

  /** One iteration of the builder's loop: pop a node of least frequency twice, merge the two
      nodes with the first on the left, and push the merge. The heap invariant is kept, and the
      trace records the two pops. */
  method MergeLeastTwo(heap: seq<Tree>, ghost text: string, ghost seed: seq<Tree>, ghost trace: seq<Merge>)
    returns (next: seq<Tree>, ghost trace': seq<Merge>)
    requires |heap| > 1 && HeapOf(heap, text) && Replay(seed, trace) == Some(heap)
    ensures |next| == |heap| - 1
    ensures HeapOf(next, text)
    ensures Replay(seed, trace') == Some(next)
  {
    var node1, rest, i := HeapPop(heap);
    var node2, rest2, j := HeapPop(rest);
    var merged := Node(node1.freq + node2.freq, node1, node2);
    TraceGrows(seed, trace, heap, i, rest, j, rest2 + [merged]);
    MergeKeepsHeap(heap, i, rest, j, merged, text);
    next := rest2 + [merged];
    trace' := trace + [Merge(i, j)];
  }

  /** `build_huffman_tree`. The heap is the list of pending trees; `heappop` removes some node of
      least frequency, which is all `heapq` guarantees when frequencies tie. An empty text leaves
      the heap empty and `heap[0]` raises IndexError. */
  method BuildHuffmanTree(text: string) returns (r: Result<Tree, Error>, ghost trace: seq<Merge>)
    ensures r.Failure? <==> text == []
    ensures r.Failure? ==> r.error == IndexError
    ensures r.Success? ==> IsTreeOf(r.value, text) && r.value.freq == |text|
    ensures r.Success? ==> Replay(Seed(FirstSeen(text), Frequencies(text)), trace) == Some([r.value])
  {
    var frequency := Frequencies(text);
    var heap := Seed(FirstSeen(text), frequency);
    ghost var seed := heap;
    trace := [];
    SeedIsHeap(text);
    while |heap| > 1
      invariant |heap| == 0 <==> text == []
      invariant HeapOf(heap, text)
      invariant Replay(seed, trace) == Some(heap)
      decreases |heap|
    {
      heap, trace := MergeLeastTwo(heap, text, seed, trace);
    }
    if |heap| == 0 {
      return Failure(IndexError), trace;
    }
    LastTree(heap, text);
    assert heap == [heap[0]];
    r := Success(heap[0]);
  }

  // ---------------------------------------------------------------------------------------
  // Shape of the result

  lemma {:induction false} LeavesNonEmpty(t: Tree)
    ensures |Leaves(t)| >= 1
  {
    match t
    case Leaf(_, _) =>
    case Node(_, l, r) => LeavesNonEmpty(l);
  }

  /** The root is an internal node exactly when the text has at least two distinct characters;
      otherwise the tree is the single leaf of the only character. */
  lemma RootShape(t: Tree, text: string)
    requires IsTreeOf(t, text)
    ensures t.Node? <==> |FirstSeen(text)| >= 2
    ensures |FirstSeen(text)| == 1 ==> t == Leaf(text[0], |text|)
  {
    assert |Leaves(t)| == |FirstSeen(text)|;
    if t.Node? {
      LeavesNonEmpty(t.left);
      LeavesNonEmpty(t.right);
    }
    if |FirstSeen(text)| == 1 {
      var c := FirstSeen(text)[0];
      assert FirstSeen(text) == [c];
      assert text[0] in FirstSeen(text);
      assert forall k :: 0 <= k < |text| ==> text[k] == c by {
        forall k | 0 <= k < |text| ensures text[k] == c {
          assert text[k] in FirstSeen(text);
        }
      }
      CountAll(text, c);
    }
  }

  lemma {:induction false} CountAll(text: string, c: char)
    requires forall k :: 0 <= k < |text| ==> text[k] == c
    ensures Count(text, c) == |text|
  {
    if text != [] {
      CountAll(text[..|text| - 1], c);
    }
  }
}

/** Frequency counting and greedy Huffman merging: buildEncodingTree of
    encode.go (main/main.go holds an identical copy over its Item type). */
module TreeBuilder {
  import opened Bits
  import opened HuffmanTree
  import opened PriorityQueue

  /** The occurrence counts of the loop at the top of buildEncodingTree: one
      entry per distinct byte, holding how often it occurs. */
  method CountBytes(input: seq<byte>) returns (counts: map<byte, nat>)
    ensures forall x :: x in counts <==> x in input
    ensures forall x :: x in counts ==> counts[x] == multiset(input)[x]
  {
    counts := map[];
    var i := 0;
    while i < |input|
      invariant 0 <= i <= |input|
      invariant forall x :: x in counts <==> x in input[..i]
      invariant forall x :: x in counts ==> counts[x] == multiset(input[..i])[x]
    {
      var v := input[i];
      var c := if v in counts then counts[v] else 0;
      counts := counts[v := c + 1];
      assert input[..i + 1] == input[..i] + [v];
      i := i + 1;
    }
    assert input[..i] == input;
  }

  /** The occurrences of input that a subtree accounts for: each leaf stands
      for every occurrence of its value. */
  ghost function Bag(t: Tree, input: seq<byte>): multiset<byte> {
    if t.Nil? then multiset{}
    else if IsLeaf(t) then multiset{}[t.value := multiset(input)[t.value]]
    else Bag(t.left, input) + Bag(t.right, input)
  }

  /** The leaf values of all queued trees, counted with multiplicity. */
  ghost function AllLeaves(ts: seq<Item>): multiset<byte> {
    if ts == [] then multiset{} else AllLeaves(ts[..|ts| - 1]) + Leaves(ts[|ts| - 1].tree)
  }

  /** The occurrences accounted for by all queued trees. */
  ghost function AllBags(ts: seq<Item>, input: seq<byte>): multiset<byte> {
    if ts == [] then multiset{} else AllBags(ts[..|ts| - 1], input) + Bag(ts[|ts| - 1].tree, input)
  }

  lemma {:induction false} AllUpdate(ts: seq<Item>, k: nat, t: Item, input: seq<byte>)
    requires k < |ts|
    ensures AllLeaves(ts[k := t]) + Leaves(ts[k].tree) == AllLeaves(ts) + Leaves(t.tree)
    ensures AllBags(ts[k := t], input) + Bag(ts[k].tree, input) == AllBags(ts, input) + Bag(t.tree, input)
  {
    var n := |ts| - 1;
    var u := ts[k := t];
    var old_, new_ := ts[k].tree, t.tree;
    if k < n {
      assert u[..n] == ts[..n][k := t];
      assert u[n] == ts[n];
      AllUpdate(ts[..n], k, t, input);
      assert AllLeaves(u) == AllLeaves(u[..n]) + Leaves(ts[n].tree);
      assert AllLeaves(ts) == AllLeaves(ts[..n]) + Leaves(ts[n].tree);
      Shuffle(AllLeaves(u[..n]), AllLeaves(ts[..n]), Leaves(old_), Leaves(new_), Leaves(ts[n].tree));
      assert AllBags(u, input) == AllBags(u[..n], input) + Bag(ts[n].tree, input);
      assert AllBags(ts, input) == AllBags(ts[..n], input) + Bag(ts[n].tree, input);
      Shuffle(AllBags(u[..n], input), AllBags(ts[..n], input), Bag(old_, input), Bag(new_, input), Bag(ts[n].tree, input));
    } else {
      assert u[..n] == ts[..n];
      assert u[n] == t;
      assert AllLeaves(u) == AllLeaves(ts[..n]) + Leaves(new_);
      assert AllLeaves(ts) == AllLeaves(ts[..n]) + Leaves(old_);
      assert AllBags(u, input) == AllBags(ts[..n], input) + Bag(new_, input);
      assert AllBags(ts, input) == AllBags(ts[..n], input) + Bag(old_, input);
    }
  }

  /** What taking the item in slot k out of the queue (as PopMin does) does to the sums. */
  lemma RemoveSlot(ts: seq<Item>, k: nat, input: seq<byte>)
    requires k < |ts|
    ensures AllLeaves(ts[k := ts[|ts| - 1]][..|ts| - 1]) + Leaves(ts[k].tree) == AllLeaves(ts)
    ensures AllBags(ts[k := ts[|ts| - 1]][..|ts| - 1], input) + Bag(ts[k].tree, input) == AllBags(ts, input)
  {
    var n := |ts| - 1;
    var last := ts[n];
    AllUpdate(ts, k, last, input);
    var u := ts[k := last];
    var a, b := AllLeaves(u[..n]), AllBags(u[..n], input);
    assert AllLeaves(u) == a + Leaves(last.tree);
    assert AllBags(u, input) == b + Bag(last.tree, input);
    Cancel(a + Leaves(ts[k].tree), AllLeaves(ts), Leaves(last.tree));
    Cancel(b + Bag(ts[k].tree, input), AllBags(ts, input), Bag(last.tree, input));
  }

  lemma Shuffle(a: multiset<byte>, b: multiset<byte>, x: multiset<byte>, y: multiset<byte>, e: multiset<byte>)
    requires a + x == b + y
    ensures a + e + x == b + e + y
  {
    assert forall v :: (a + e + x)[v] == (a + x)[v] + e[v] == (b + y)[v] + e[v] == (b + e + y)[v];
  }

  lemma Cancel(a: multiset<byte>, b: multiset<byte>, c: multiset<byte>)
    requires a + c == b + c
    ensures a == b
  {
    assert forall x :: a[x] == (a + c)[x] - c[x] == b[x];
  }

  /** The invariant of the queue while the tree is built: every queued tree is
      well formed and its priority is the number of input bytes it accounts for. */
  ghost predicate QueuedTreesOk(items: seq<Item>, input: seq<byte>) {
    forall it :: it in items ==> WellFormed(it.tree) && it.priority == |Bag(it.tree, input)|
  }

  lemma PushTree(ts: seq<Item>, t: Item, input: seq<byte>)
    ensures AllLeaves(ts + [t]) == AllLeaves(ts) + Leaves(t.tree)
    ensures AllBags(ts + [t], input) == AllBags(ts, input) + Bag(t.tree, input)
  {
    assert (ts + [t])[..|ts|] == ts;
  }

  /** The queue with slot k taken out the way PopMin takes it out. */
  ghost function Removed(ts: seq<Item>, k: nat): seq<Item>
    requires k < |ts|
  {
    ts[k := ts[|ts| - 1]][..|ts| - 1]
  }

  lemma RemovedIn(ts: seq<Item>, k: nat)
    requires k < |ts|
    ensures forall it :: it in Removed(ts, k) ==> it in ts
  {
    forall it | it in Removed(ts, k) ensures it in ts {
      var m :| 0 <= m < |ts| - 1 && Removed(ts, k)[m] == it;
      if m == k { assert it == ts[|ts| - 1]; } else { assert it == ts[m]; }
    }
  }

  lemma RemovedKeeps(ts: seq<Item>, k: nat)
    requires k < |ts|
    ensures forall m :: 0 <= m < |ts| && m != k ==> ts[m] in Removed(ts, k)
  {
    forall m | 0 <= m < |ts| && m != k ensures ts[m] in Removed(ts, k) {
      if m == |ts| - 1 { assert Removed(ts, k)[k] == ts[m]; } else { assert Removed(ts, k)[m] == ts[m]; }
    }
  }

  /** The invariant of the merge loop: the queued trees are well formed, hold
      every byte of the input once, and account for every occurrence. */
  ghost predicate Merging(items: seq<Item>, input: seq<byte>) {
    && QueuedTreesOk(items, input)
    && AllLeaves(items) == multiset(Distinct(input))
    && AllBags(items, input) == multiset(input)
  }

  ghost function Distinct(input: seq<byte>): set<byte> {
    set x | x in input
  }

  /** One merge leaves the leaves and the occurrences accounted for by the
      whole queue unchanged: the two removed trees become the children of the
      pushed branch. */
  lemma MergeSums(t0: seq<Item>, i: nat, j: nat, b: Item, input: seq<byte>)
    requires i < |t0| && j < |t0| - 1
    requires b.tree == Node(0, t0[i].tree, Removed(t0, i)[j].tree)
    requires t0[i].tree.Node? && Removed(t0, i)[j].tree.Node?
    ensures AllLeaves(Removed(Removed(t0, i), j) + [b]) == AllLeaves(t0)
    ensures AllBags(Removed(Removed(t0, i), j) + [b], input) == AllBags(t0, input)
  {
    var t1 := Removed(t0, i);
    var t2 := Removed(t1, j);
    RemoveSlot(t0, i, input);
    RemoveSlot(t1, j, input);
    PushTree(t2, b, input);
    var x, y := t0[i].tree, t1[j].tree;
    assert Leaves(b.tree) == Leaves(x) + Leaves(y);
    assert Bag(b.tree, input) == Bag(x, input) + Bag(y, input);
    Rejoin(AllLeaves(t0), AllLeaves(t1), AllLeaves(t2), Leaves(x), Leaves(y), AllLeaves(t2 + [b]));
    Rejoin(AllBags(t0, input), AllBags(t1, input), AllBags(t2, input), Bag(x, input), Bag(y, input),
           AllBags(t2 + [b], input));
  }

  /** Taking out x and then y and putting back x + y restores the whole. */
  lemma Rejoin(all0: multiset<byte>, all1: multiset<byte>, all2: multiset<byte>,
               x: multiset<byte>, y: multiset<byte>, pushed: multiset<byte>)
    requires all1 + x == all0 && all2 + y == all1 && pushed == all2 + (x + y)
    ensures pushed == all0
  {
    assert forall v :: pushed[v] == all0[v];
  }

  /** One merge keeps every queued tree well formed and weighted by the
      occurrences it accounts for. */
  lemma MergeOk(t0: seq<Item>, i: nat, j: nat, b: Item, input: seq<byte>)
    requires QueuedTreesOk(t0, input)
    requires i < |t0| && j < |t0| - 1
    requires b.tree == Node(0, t0[i].tree, Removed(t0, i)[j].tree)
    requires b.priority == t0[i].priority + Removed(t0, i)[j].priority
    ensures QueuedTreesOk(Removed(Removed(t0, i), j) + [b], input)
  {
    var t1 := Removed(t0, i);
    var t2 := Removed(t1, j);
    RemovedIn(t0, i);
    RemovedIn(t1, j);
    assert t1[j] in t0;
    assert Bag(b.tree, input) == Bag(t0[i].tree, input) + Bag(t1[j].tree, input);
    forall it | it in t2 + [b]
      ensures WellFormed(it.tree) && it.priority == |Bag(it.tree, input)|
    {
      if it != b { assert it in t0; }
    }
  }

  lemma MergeStep(t0: seq<Item>, i: nat, j: nat, b: Item, input: seq<byte>)
    requires Merging(t0, input)
    requires i < |t0| && j < |t0| - 1
    requires b.tree == Node(0, t0[i].tree, Removed(t0, i)[j].tree)
    requires b.priority == t0[i].priority + Removed(t0, i)[j].priority
    ensures Merging(Removed(Removed(t0, i), j) + [b], input)
  {
    MergeOk(t0, i, j, b, input);
    RemovedIn(t0, i);
    assert t0[i] in t0 && Removed(t0, i)[j] in t0;
    MergeSums(t0, i, j, b, input);
  }

  /** The occurrences in input of the bytes in S. */
  ghost function Occurrences(input: seq<byte>, S: set<byte>): multiset<byte> {
    if input == [] then multiset{}
    else Occurrences(input[..|input| - 1], S)
         + (if input[|input| - 1] in S then multiset{input[|input| - 1]} else multiset{})
  }

  lemma {:induction false} OccurrencesAdd(input: seq<byte>, S: set<byte>, v: byte)
    requires v !in S
    ensures Occurrences(input, S + {v}) == Occurrences(input, S) + multiset{}[v := multiset(input)[v]]
  {
    if input != [] {
      var init, last := input[..|input| - 1], input[|input| - 1];
      OccurrencesAdd(init, S, v);
      assert input == init + [last];
      var mi: multiset<byte>, m: multiset<byte> := multiset(init), multiset(input);
      assert m[v] == mi[v] + (if last == v then 1 else 0);
      var e: multiset<byte> := multiset{};
      var a, b := Occurrences(init, S), e[v := mi[v]];
      var c := if last in S then multiset{last} else e;
      var d := if last in S + {v} then multiset{last} else e;
      if last == v {
        assert c == e && b + d == e[v := m[v]];
        assert a + b + d == a + (b + d);
      } else {
        assert d == c && b == e[v := m[v]];
      }
    }
  }

  lemma {:induction false} OccurrencesNone(input: seq<byte>)
    ensures Occurrences(input, {}) == multiset{}
  {
    if input != [] { OccurrencesNone(input[..|input| - 1]); }
  }

  lemma {:induction false} OccurrencesAll(input: seq<byte>, S: set<byte>)
    requires forall x :: x in input ==> x in S
    ensures Occurrences(input, S) == multiset(input)
  {
    if input != [] {
      var init := input[..|input| - 1];
      OccurrencesAll(init, S);
      assert input == init + [input[|input| - 1]];
    }
  }

  /** The queue after the leaves of the bytes in done have been pushed. */
  ghost predicate Seeded(items: seq<Item>, done: set<byte>, input: seq<byte>) {
    && QueuedTreesOk(items, input)
    && AllLeaves(items) == multiset(done)
    && AllBags(items, input) == Occurrences(input, done)
  }

  lemma SeedStep(before: seq<Item>, leaf: Item, done: set<byte>, v: byte, input: seq<byte>)
    requires Seeded(before, done, input) && v !in done
    requires leaf.tree == Node(v, Nil, Nil) && leaf.priority == multiset(input)[v]
    ensures Seeded(before + [leaf], done + {v}, input)
  {
    PushTree(before, leaf, input);
    OccurrencesAdd(input, done, v);
    assert multiset(done + {v}) == multiset(done) + multiset{v};
    forall it | it in before + [leaf]
      ensures WellFormed(it.tree) && it.priority == |Bag(it.tree, input)|
    {
      if it == leaf {
        assert |multiset{}[v := multiset(input)[v]]| == multiset(input)[v];
      }
    }
  }

  /** One pass of the seeding loop: a fresh leaf for v, weighted by its
      count, is pushed. */
  method PushLeaf(q: PriorityQueue, v: byte, count: nat, input: seq<byte>, ghost done: set<byte>)
    requires q.Valid() && Seeded(q.items, done, input) && v !in done
    requires count == multiset(input)[v]
    modifies q.Repr
    ensures q.Valid() && fresh(q.Repr - old(q.Repr)) && old(q.Repr) <= q.Repr
    ensures |q.items| == old(|q.items|) + 1 && q.items[..old(|q.items|)] == old(q.items)
    ensures q.items[old(|q.items|)].tree == Node(v, Nil, Nil) && q.items[old(|q.items|)].priority == count
    ensures Seeded(q.items, done + {v}, input)
  {
    var leaf := new Item(Node(v, Nil, Nil), count);
    ghost var before := q.items;
    q.Push(leaf);
    SeedStep(before, leaf, done, v, input);
  }

  /** The seeding loop of buildEncodingTree: one leaf per counted byte, with
      its count as priority, pushed in the map's (unspecified) iteration order. */
  method SeedQueue(counts: map<byte, nat>, input: seq<byte>) returns (q: PriorityQueue)
    requires forall x :: x in counts <==> x in input
    requires forall x :: x in counts ==> counts[x] == multiset(input)[x]
    ensures q.Valid() && fresh(q.Repr)
    ensures |q.items| == |counts|
    ensures forall k :: 0 <= k < |q.items| ==> LeafOf(q.items[k], counts)
    ensures Seeded(q.items, counts.Keys, input)
  {
    q := new PriorityQueue();
    var remaining := counts.Keys;
    ghost var done: set<byte> := {};
    OccurrencesNone(input);
    while remaining != {}
      invariant q.Valid() && fresh(q.Repr)
      invariant remaining !! done && remaining + done == counts.Keys
      invariant SeedInv(q.items, done, counts, input)
      decreases remaining
    {
      var v :| v in remaining;
      ghost var before := q.items;
      PushLeaf(q, v, counts[v], input, done);
      SeedInvStep(before, q.items, v, done, counts, input);
      done := done + {v};
      remaining := remaining - {v};
    }
  }

  /** A queued item is the leaf of a counted byte, weighted by its count. */
  ghost predicate LeafOf(it: Item, counts: map<byte, nat>) {
    && it.tree.Node? && IsLeaf(it.tree)
    && it.tree.value in counts && it.priority == counts[it.tree.value]
  }

  /** The seeding loop's invariant: one counted leaf per byte in done. */
  ghost predicate SeedInv(items: seq<Item>, done: set<byte>, counts: map<byte, nat>, input: seq<byte>) {
    && |items| == |done|
    && (forall k :: 0 <= k < |items| ==> LeafOf(items[k], counts))
    && Seeded(items, done, input)
  }

  lemma SeedInvStep(before: seq<Item>, after: seq<Item>, v: byte, done: set<byte>, counts: map<byte, nat>, input: seq<byte>)
    requires SeedInv(before, done, counts, input) && v !in done
    requires |after| == |before| + 1 && after[..|before|] == before
    requires v in counts && after[|before|].tree == Node(v, Nil, Nil) && after[|before|].priority == counts[v]
    requires Seeded(after, done + {v}, input)
    ensures SeedInv(after, done + {v}, counts, input)
  {
    LeafStep(before, after, v, counts);
  }

  /** Appending the leaf of a counted byte keeps every queued item such a leaf. */
  lemma LeafStep(before: seq<Item>, after: seq<Item>, v: byte, counts: map<byte, nat>)
    requires forall k :: 0 <= k < |before| ==> LeafOf(before[k], counts)
    requires |after| == |before| + 1 && after[..|before|] == before
    requires v in counts && after[|before|].tree == Node(v, Nil, Nil) && after[|before|].priority == counts[v]
    ensures forall k :: 0 <= k < |after| ==> LeafOf(after[k], counts)
  {
    forall k | 0 <= k < |after| ensures LeafOf(after[k], counts) {
      if k < |before| {
        assert after[k] == after[..|before|][k];
      }
    }
  }

  /** One round of the merge loop of buildEncodingTree: the two items of
      least priority leave the queue (the first popped becomes the left child)
      and one branch holding both, weighted by their sum, joins it. */
  method MergeTwo(q: PriorityQueue, input: seq<byte>) returns (left: Item, right: Item, branch: Item, i: nat, j: nat)
    requires q.Valid() && |q.items| > 1 && Merging(q.items, input)
    modifies q.Repr
    ensures q.Valid() && fresh(branch) && q.Repr == old(q.Repr) - {left, right} + {branch}
    ensures fresh(q.Repr - old(q.Repr))
    ensures i < old(|q.items|) && j < old(|q.items|) - 1
    ensures left == old(q.items)[i] && right == Removed(old(q.items), i)[j]
    ensures q.items == Removed(Removed(old(q.items), i), j) + [branch]
    ensures left.index == -1 && right.index == -1
    ensures left in old(q.items) && right in old(q.items) && left != right
    ensures forall k :: 0 <= k < old(|q.items|) ==> left.priority <= old(q.items[k].priority)
    ensures forall k :: 0 <= k < old(|q.items|) && old(q.items[k]) != left ==>
              right.priority <= old(q.items[k].priority)
    ensures branch.tree == Node(0, left.tree, right.tree)
    ensures branch.priority == left.priority + right.priority
    ensures |q.items| == old(|q.items|) - 1 && Merging(q.items, input)
  {
    ghost var t0 := q.items;
    left, i := q.PopMin();
    ghost var t1 := q.items;
    assert left !in t1;
    right, j := q.PopMin();
    RemovedKeeps(t0, i);
    branch := new Item(Node(0, left.tree, right.tree), left.priority + right.priority);
    ghost var t2 := q.items;
    q.Push(branch);
    assert q.items == Removed(Removed(t0, i), j) + [branch];
    MergeStep(t0, i, j, branch, input);
  }

  /** buildEncodingTree: counts the bytes, seeds the queue, then repeatedly
      pops two items of least priority (the first becomes the left child, the
      second the right) and pushes a branch whose priority is their sum, until
      one item is left, which it pops and returns. */
  method BuildEncodingTree(input: seq<byte>) returns (root: Item)
    requires |input| > 0
    ensures WellFormed(root.tree)
    ensures forall x :: Leaves(root.tree)[x] == if x in input then 1 else 0
    ensures Bag(root.tree, input) == multiset(input)
    ensures root.priority == |input|
  {
    var counts := CountBytes(input);
    var q := SeedQueue(counts, input);
    SeededMerging(q.items, counts, input);
    while q.Len() > 1
      invariant q.Valid() && fresh(q.Repr)
      invariant |q.items| >= 1 && Merging(q.items, input)
      decreases |q.items|
    {
      var left, right, branch, i, j := MergeTwo(q, input);
    }
    ghost var t := q.items;
    assert |t| == 1;
    var slot;
    root, slot := q.PopMin();
    assert slot == 0 && root == t[0];
    LastTree(t, root, input);
  }

  /** Once seeded, the queue is non-empty and satisfies the merge invariant. */
  lemma SeededMerging(items: seq<Item>, counts: map<byte, nat>, input: seq<byte>)
    requires |input| > 0 && forall x :: x in counts <==> x in input
    requires Seeded(items, counts.Keys, input)
    ensures |items| >= 1 && Merging(items, input)
  {
    OccurrencesAll(input, counts.Keys);
    assert counts.Keys == Distinct(input);
    assert input[0] in multiset(Distinct(input));
  }

  /** The last tree left in the queue holds every byte once and accounts for
      the whole input. */
  lemma LastTree(t: seq<Item>, root: Item, input: seq<byte>)
    requires t == [root] && Merging(t, input)
    ensures WellFormed(root.tree)
    ensures forall x :: Leaves(root.tree)[x] == if x in input then 1 else 0
    ensures Bag(root.tree, input) == multiset(input)
    ensures root.priority == |input|
  {
    assert t[..0] == [];
    assert AllLeaves(t) == Leaves(root.tree) && AllBags(t, input) == Bag(root.tree, input);
    assert root in t;
    assert forall x :: multiset(Distinct(input))[x] == if x in input then 1 else 0;
  }
}

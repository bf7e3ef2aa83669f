/** The PriorityQueue of main/main.go (a slice of items that records each
    item's position in its index field), which buildEncodingTree in both the
    prototype and encode.go drives through container/heap. */
module PriorityQueue {
  import opened Bits
  import opened HuffmanTree

  /** A queued node (Item in main/main.go, TreeNode in the library).  Its
      subtree and priority are fixed when it is created; only index changes. */
  class Item {
    const tree: Tree
    const priority: nat
    var index: int

    constructor (tree: Tree, priority: nat)
      ensures this.tree == tree && this.priority == priority && index == 0
    {
      this.tree := tree;
      this.priority := priority;
      index := 0;
    }
  }

  /** The subtrees held by a sequence of items, in slot order. */
  function Trees(items: seq<Item>): (ts: seq<Tree>)
    ensures |ts| == |items|
    ensures forall k :: 0 <= k < |items| ==> ts[k] == items[k].tree
  {
    if items == [] then [] else Trees(items[..|items| - 1]) + [items[|items| - 1].tree]
  }

  class PriorityQueue {
    var items: seq<Item>
    ghost var Repr: set<object>

    /** Every item records its own slot (so no item occupies two slots), and
        the queue and its items make up Repr. */
    ghost predicate Valid()
      reads this, Repr
    {
      && this in Repr
      && (forall k :: 0 <= k < |items| ==> items[k] in Repr)
      && (forall k :: 0 <= k < |items| ==> items[k].index == k)
    }

    constructor ()
      ensures Valid() && fresh(Repr) && items == []
    {
      items := [];
      Repr := {this};
    }

    /** Len: the number of queued items. */
    function Len(): (n: nat)
      reads this
      ensures n == 0 <==> items == []
    {
      |items|
    }

    /** Less compares priorities only; value and children play no part. */
    predicate Less(i: nat, j: nat)
      requires i < |items| && j < |items|
      reads this, items
      ensures Less(i, j) <==> items[i].priority < items[j].priority
    {
      items[i].priority < items[j].priority
    }

    /** No queued item is less than the one in the slot PopMin takes. */
    lemma {:induction false} MinSlotLeast(s: seq<Item>)
      requires s == items && |s| > 0
      ensures forall j :: 0 <= j < |items| ==> !Less(j, MinSlot(s))
    {
      var k := MinSlot(s);
      forall j | 0 <= j < |items| ensures !Less(j, k) {
        assert s[k].priority <= s[j].priority;
      }
    }

    /** Swap exchanges two slots and stamps both moved items with their new slot. */
    method Swap(i: nat, j: nat)
      requires Valid() && i < |items| && j < |items|
      modifies Repr
      ensures Valid() && Repr == old(Repr)
      ensures items == old(items)[i := old(items)[j]][j := old(items)[i]]
      ensures forall k :: 0 <= k < |items| && k != i && k != j ==> items[k].index == old(items[k].index)
    {
      var a, b := items[i], items[j];
      items := items[i := b][j := a];
      items[i].index := i;
      items[j].index := j;
    }

    /** Push appends at the end, with index equal to the previous length. */
    method Push(x: Item)
      requires Valid() && x !in Repr
      modifies Repr, x
      ensures Valid() && Repr == old(Repr) + {x}
      ensures items == old(items) + [x] && x.index == old(|items|)
    {
      x.index := |items|;
      items := items + [x];
      Repr := Repr + {x};
    }

    /** Pop removes the last item, marks it with index -1 and leaves the other
        slots alone.  The item no longer belongs to the queue, so later
        operations on the queue leave it untouched. */
    method Pop() returns (item: Item)
      requires Valid() && |items| > 0
      modifies Repr
      ensures Valid() && Repr == old(Repr) - {item}
      ensures item == old(items[|items| - 1]) && item.index == -1
      ensures items == old(items[..|items| - 1])
    {
      var n := |items|;
      item := items[n - 1];
      assert forall k :: 0 <= k < n - 1 ==> items[k] != item by {
        forall k | 0 <= k < n - 1 ensures items[k] != item {
          assert items[k].index == k && item.index == n - 1;
        }
      }
      item.index := -1;
      items := items[..n - 1];
      Repr := Repr - {item};
    }

    /** container/heap.Pop, whose internals are not part of this model: it
        removes some item of least priority.  The heap's sift-down is replaced
        by the choice of that item; the removal itself is the same Swap to the
        last slot followed by Pop. */
    method PopMin() returns (item: Item, k: nat)
      requires Valid() && |items| > 0
      modifies Repr
      ensures Valid() && Repr == old(Repr) - {item}
      ensures k < old(|items|) && item == old(items[k]) && item.index == -1
      ensures forall j :: 0 <= j < old(|items|) ==> item.priority <= old(items[j].priority)
      ensures forall j :: 0 <= j < old(|items|) ==> !old(Less(j, k))
      ensures items == old(items[k := items[|items| - 1]][..|items| - 1])
    {
      ghost var s := items;
      var n := |items|;
      k := MinSlot(items);
      MinSlotLeast(s);
      Swap(k, n - 1);
      assert items[..n - 1] == s[k := s[n - 1]][..n - 1];
      item := Pop();
    }
  }

  /** A slot holding an item of least priority (the first such slot; which
      of several equal-priority items container/heap takes is not modelled). */
  function MinSlot(items: seq<Item>): (k: nat)
    requires |items| > 0
    ensures k < |items| && forall j :: 0 <= j < |items| ==> items[k].priority <= items[j].priority
  {
    if |items| == 1 then 0
    else
      var k := MinSlot(items[1..]) + 1;
      if items[0].priority <= items[k].priority then 0 else k
  }
}

/**
 The bounded priority queue of srcs/toolbox/pqueue.c: a binary heap in an array, its root at place 1.
 Keys are real numbers; NaN, which no comparison orders, is not among them.
 */
module PQueue {
  import opened Wrappers

  /** u_pq_item_t */
  datatype Item<V> = Item(key: real, val: V)

  /** Among the first `n` places from 1 on no child is above its parent, except possibly `hole`. */
  ghost predicate HeapBut<V>(q: seq<Item<V>>, n: nat, hole: nat) {
    n < |q| && forall k :: 2 <= k <= n && k != hole ==> q[k].key <= q[k / 2].key
  }

  ghost predicate Heap<V>(q: seq<Item<V>>, n: nat) { HeapBut(q, n, 0) }

  /** The children of `k` are not above the parent of `k`. */
  ghost predicate Bridged<V>(q: seq<Item<V>>, n: nat, k: nat) {
    n < |q| && forall i :: 2 <= i <= n && i / 2 == k && k > 1 ==> q[i].key <= q[k / 2].key
  }

  /** As Heap, but the children of `k` may be above it. */
  ghost predicate HeapAbove<V>(q: seq<Item<V>>, n: nat, k: nat) {
    n < |q| && forall i :: 2 <= i <= n && i / 2 != k ==> q[i].key <= q[i / 2].key
  }

  /** Nothing in a heap is above its root. */
  lemma {:induction false} RootIsMax<V>(q: seq<Item<V>>, n: nat, k: nat)
    requires Heap(q, n) && 1 <= k <= n
    ensures q[k].key <= q[1].key
    decreases k
  {
    if k > 1 {
      RootIsMax(q, n, k / 2);
    }
  }

  ghost function Bag<V>(q: seq<Item<V>>, n: nat): multiset<Item<V>>
    requires n < |q|
  {
    multiset(q[1..n + 1])
  }

  ghost function Swapped<T>(s: seq<T>, i: nat, j: nat): (r: seq<T>)
    requires i < |s| && j < |s|
    ensures |r| == |s| && r[i] == s[j] && r[j] == s[i] && forall k :: 0 <= k < |s| && k != i && k != j ==> r[k] == s[k]
  {
    s[i := s[j]][j := s[i]]
  }

  lemma SwapKeepsBag<V>(q: seq<Item<V>>, n: nat, i: nat, j: nat)
    requires 1 <= i <= n && 1 <= j <= n && n < |q|
    ensures Bag(Swapped(q, i, j), n) == Bag(q, n)
  {
    var s := q[1..n + 1];
    assert Swapped(q, i, j)[1..n + 1] == s[i - 1 := s[j - 1]][j - 1 := s[i - 1]];
  }

  lemma LastOfBag<V>(q: seq<Item<V>>, n: nat)
    requires 1 <= n < |q|
    ensures Bag(q, n) == Bag(q, n - 1) + multiset{q[n]}
  {
    assert q[1..n + 1] == q[1..n] + [q[n]];
  }

  lemma InBag<V>(q: seq<Item<V>>, n: nat, x: Item<V>)
    requires n < |q|
    ensures x in Bag(q, n) <==> exists k :: 1 <= k <= n && q[k] == x
  {
    var s := q[1..n + 1];
    if x in Bag(q, n) {
      assert x in s;
      var i :| 0 <= i < |s| && s[i] == x;
      assert q[i + 1] == x;
    }
    if k :| 1 <= k <= n && q[k] == x {
      assert s[k - 1] == x;
    }
  }

  /** pq_item_swap */
  method ItemSwap<V>(q: array<Item<V>>, i: nat, j: nat)
    requires i < q.Length && j < q.Length
    modifies q
    ensures q[..] == Swapped(old(q[..]), i, j)
  {
    q[i], q[j] := q[j], q[i];
  }

  /** One step up: the child at `k`, above its parent, changes places with it. */
  lemma StepUp<V>(q: seq<Item<V>>, n: nat, k: nat)
    requires HeapBut(q, n, k) && Bridged(q, n, k) && 1 < k <= n && q[k / 2].key < q[k].key
    ensures var r := Swapped(q, k, k / 2); HeapBut(r, n, k / 2) && Bridged(r, n, k / 2)
  {
    var r := Swapped(q, k, k / 2);
    forall i | 2 <= i <= n && i != k / 2 ensures r[i].key <= r[i / 2].key {
      if i / 2 == k / 2 && i != k {
        assert q[i].key <= q[k / 2].key;
      }
    }
  }

  /** bubble_up */
  method BubbleUp<V>(q: array<Item<V>>, k0: nat, ghost n: nat)
    requires 1 <= k0 <= n && HeapBut(q[..], n, k0) && Bridged(q[..], n, k0)
    modifies q
    ensures Heap(q[..], n) && Bag(q[..], n) == old(Bag(q[..], n))
  {
    var k := k0;
    while k > 1 && q[k / 2].key < q[k].key
      invariant 1 <= k <= n && HeapBut(q[..], n, k) && Bridged(q[..], n, k)
      invariant Bag(q[..], n) == old(Bag(q[..], n))
    {
      StepUp(q[..], n, k);
      SwapKeepsBag(q[..], n, k, k / 2);
      ItemSwap(q, k, k / 2);
      k := k / 2;
    }
  }

  /** One step down: the parent at `k` changes places with its higher child `j`, which is above it. */
  lemma StepDown<V>(q: seq<Item<V>>, n: nat, k: nat, j: nat)
    requires HeapAbove(q, n, k) && Bridged(q, n, k) && 1 <= k && (j == 2 * k || j == 2 * k + 1) && j <= n
    requires q[k].key < q[j].key && forall i :: 2 <= i <= n && i / 2 == k ==> q[i].key <= q[j].key
    ensures var r := Swapped(q, k, j); HeapAbove(r, n, j) && Bridged(r, n, j)
  {
    var r := Swapped(q, k, j);
    forall i | 2 <= i <= n && i / 2 != j ensures r[i].key <= r[i / 2].key {
      if i == k {
        assert q[j].key <= q[k / 2].key;
      }
    }
  }

  /** Where the two meet there is a heap again. */
  lemma Settles<V>(q: seq<Item<V>>, n: nat, k: nat)
    requires HeapAbove(q, n, k) && forall i :: 2 <= i <= n && i / 2 == k ==> q[i].key <= q[k].key
    ensures Heap(q, n)
  {
  }

  /** The higher child of `k` */
  method HigherChild<V>(q: array<Item<V>>, k: nat, n: nat) returns (j: nat)
    requires 1 <= k && 2 * k <= n < q.Length
    ensures j == 2 * k || j == 2 * k + 1
    ensures j <= n && forall i :: 2 <= i <= n && i / 2 == k ==> q[i].key <= q[j].key
  {
    j := 2 * k;
    if j < n && q[j].key < q[j + 1].key {
      j := j + 1;
    }
  }

  /** bubble_down */
  method BubbleDown<V>(q: array<Item<V>>, k0: nat, n: nat)
    requires 1 <= k0 && n < q.Length && HeapAbove(q[..], n, k0) && Bridged(q[..], n, k0)
    modifies q
    ensures Heap(q[..], n) && Bag(q[..], n) == old(Bag(q[..], n))
    ensures forall i :: n < i < q.Length ==> q[i] == old(q[i])
  {
    hide HeapAbove, Bridged, Heap, Bag;
    var k := k0;
    while 2 * k <= n
      invariant 1 <= k && HeapAbove(q[..], n, k) && Bridged(q[..], n, k)
      invariant Bag(q[..], n) == old(Bag(q[..], n))
      invariant forall i :: n < i < q.Length ==> q[i] == old(q[i])
      decreases n - k
    {
      var j := HigherChild(q, k, n);
      if !(q[k].key < q[j].key) {
        Settles(q[..], n, k);
        return;
      }
      StepDown(q[..], n, k, j);
      SwapKeepsBag(q[..], n, k, j);
      ItemSwap(q, k, j);
      k := j;
    }
    Settles(q[..], n, k);
  }

  /** u_pq_t */
  class PQ<V(0)> {
    const nitems: nat
    const q: array<Item<V>>
    var nelems: nat

    ghost predicate Valid()
      reads this, q
    {
      q.Length == nitems + 1 && nelems <= nitems && Heap(q[..], nelems)
    }

    /** What is in the queue, with its keys */
    ghost function Items(): multiset<Item<V>>
      requires Valid()
      reads this, q
    {
      Bag(q[..], nelems)
    }

    constructor (nitems: nat)
      requires nitems > 1
      ensures Valid() && Items() == multiset{} && this.nitems == nitems && fresh(q)
    {
      this.nitems, nelems := nitems, 0;
      var v: V := *;
      q := new Item<V>[nitems + 1](_ => Item(0.0, v));
    }

    /** u_pq_create: there must be room for two elements at least. */
    static method Create(nitems: nat) returns (pq: PQ?<V>)
      ensures pq == null <==> nitems < 2
      ensures pq != null ==> fresh(pq) && fresh(pq.q) && pq.Valid() && pq.Items() == multiset{} && pq.nitems == nitems
    {
      if nitems < 2 {
        return null;
      }
      pq := new PQ(nitems);
    }

    /** u_pq_empty */
    predicate Empty()
      requires Valid()
      reads this, q
      ensures Empty() <==> |Items()| == 0
    {
      nelems == 0
    }

    /** u_pq_full */
    predicate Full()
      requires Valid()
      reads this, q
      ensures Full() <==> |Items()| == nitems
    {
      nelems == nitems
    }

    /** u_pq_push */
    method Push(key: real, val: V) returns (rc: int)
      requires Valid()
      modifies this, q
      ensures Valid() && rc == if old(Full()) then -2 else 0
      ensures Items() == if rc == 0 then old(Items()) + multiset{Item(key, val)} else old(Items())
    {
      if Full() {
        return -2;
      }
      ghost var was := q[..];
      nelems := nelems + 1;
      q[nelems] := Item(key, val);
      assert q[1..nelems] == was[1..nelems];
      LastOfBag(q[..], nelems);
      BubbleUp(q, nelems, nelems);
      rc := 0;
    }

    /** u_pq_peekmax, of a queue that is not empty */
    method PeekMax() returns (x: Item<V>)
      requires Valid() && !Empty()
      ensures x in Items() && forall y :: y in Items() ==> y.key <= x.key
    {
      x := q[1];
      TopIsMax();
    }

    lemma TopIsMax()
      requires Valid() && nelems > 0
      ensures q[1] in Items() && forall y :: y in Items() ==> y.key <= q[1].key
    {
      InBag(q[..], nelems, q[1]);
      forall y | y in Items() ensures y.key <= q[1].key {
        InBag(q[..], nelems, y);
        var k :| 1 <= k <= nelems && q[..][k] == y;
        RootIsMax(q[..], nelems, k);
      }
    }

    /** The exchange of top and bottom in u_pq_delmax */
    method ExchangeEnds()
      requires Valid() && nelems > 0
      modifies q
      ensures q[nelems] == old(q[1]) && HeapAbove(q[..], nelems - 1, 1) && Bridged(q[..], nelems - 1, 1)
      ensures Bag(q[..], nelems - 1) == old(Items()) - multiset{q[nelems]}
    {
      SwapKeepsBag(q[..], nelems, 1, nelems);
      ItemSwap(q, 1, nelems);
      LastOfBag(q[..], nelems);
    }

    /** u_pq_delmax */
    method DelMax() returns (x: Option<Item<V>>)
      requires Valid()
      modifies this, q
      ensures Valid()
      ensures x.None? <==> old(Empty())
      ensures x.None? ==> Items() == old(Items())
      ensures x.Some? ==> x.value in old(Items()) && forall y :: y in old(Items()) ==> y.key <= x.value.key
      ensures x.Some? ==> Items() == old(Items()) - multiset{x.value}
    {
      hide HeapAbove, Bridged, Heap, Bag;
      if nelems == 0 {
        return None;
      }
      TopIsMax();
      ExchangeEnds();
      BubbleDown(q, 1, nelems - 1);
      x := Some(q[nelems]);
      nelems := nelems - 1;
    }
  }

  ghost predicate FromHighest<V>(s: seq<Item<V>>) {
    forall i, j :: 0 <= i < j < |s| ==> s[i].key >= s[j].key
  }

  ghost predicate NoneBelow<V>(s: seq<Item<V>>, bag: multiset<Item<V>>) {
    forall i, y :: 0 <= i < |s| && y in bag ==> s[i].key >= y.key
  }

  lemma NextHighest<V>(s: seq<Item<V>>, bag: multiset<Item<V>>, x: Item<V>)
    requires FromHighest(s) && NoneBelow(s, bag) && x in bag && forall y :: y in bag ==> y.key <= x.key
    ensures FromHighest(s + [x]) && NoneBelow(s + [x], bag - multiset{x})
    ensures multiset(s + [x]) + (bag - multiset{x}) == multiset(s) + bag
  {
  }

  /** Deleting until the queue is empty gives all that was in it, from the highest key to the lowest. */
  method Drain<V(0)>(pq: PQ<V>) returns (out: seq<Item<V>>)
    requires pq.Valid()
    modifies pq, pq.q
    ensures pq.Valid() && pq.Items() == multiset{} && multiset(out) == old(pq.Items())
    ensures FromHighest(out)
  {
    hide FromHighest, NoneBelow, Heap, Bag;
    out := [];
    NothingYet(pq.Items());
    while !pq.Empty()
      invariant pq.Valid() && multiset(out) + pq.Items() == old(pq.Items())
      invariant FromHighest(out) && NoneBelow(out, pq.Items())
      decreases |pq.Items()|
    {
      ghost var bag := pq.Items();
      var x := pq.DelMax();
      NextHighest(out, bag, x.value);
      out := out + [x.value];
    }
  }

  lemma NothingYet<V>(bag: multiset<Item<V>>)
    ensures FromHighest<V>([]) && NoneBelow([], bag)
  {
  }
}

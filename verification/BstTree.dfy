/**
 The values a size-augmented binary search tree goes through: what each operation of
 srcs/toolbox/bst.c computes, and the laws those computations obey.

 A tree is compared through `cmp`, the key comparison function registered on the tree
 (negative, zero or positive, like `strcmp`).  Different keys may compare equal.
 */
module BstTree {
  import opened Wrappers

  datatype Entry<K, V> = Entry(key: K, val: V)

  /** `nelem` is the counter stored in the node; it need not be right. */
  datatype Tree<K, V> = Nil | Fork(left: Tree<K, V>, e: Entry<K, V>, nelem: nat, right: Tree<K, V>)

  datatype Dir = RotLeft | RotRight

  type Cmp<!K> = (K, K) -> int

  // ---------- What a tree holds ----------

  function InOrder<K, V>(t: Tree<K, V>): seq<Entry<K, V>> {
    match t
    case Nil => []
    case Fork(l, e, _, r) => InOrder(l) + [e] + InOrder(r)
  }

  function Size<K, V>(t: Tree<K, V>): nat {
    match t
    case Nil => 0
    case Fork(l, _, _, r) => Size(l) + 1 + Size(r)
  }

  function Height<K, V>(t: Tree<K, V>): nat {
    match t
    case Nil => 0
    case Fork(l, _, _, r) => 1 + Max(Height(l), Height(r))
  }

  /** Every counter is the number of nodes of its subtree. */
  ghost predicate Exact<K, V>(t: Tree<K, V>) {
    match t
    case Nil => true
    case Fork(l, _, n, r) => n == Size(t) && Exact(l) && Exact(r)
  }

  /** Subtraction of size_t numbers: a counter that is too small may wrap around. */
  function Minus(a: nat, b: nat): nat { if b <= a then a - b else (a - b) % 0x1_0000_0000_0000_0000 }

  /** It is subtraction modulo 2^64. */
  lemma MinusWraps(a: nat, b: nat)
    requires a < 0x1_0000_0000_0000_0000 && b < 0x1_0000_0000_0000_0000
    ensures Minus(a, b) < 0x1_0000_0000_0000_0000 && (Minus(a, b) + b) % 0x1_0000_0000_0000_0000 == a
  {
    if a < b {
      assert (a - b) % 0x1_0000_0000_0000_0000 == a - b + 0x1_0000_0000_0000_0000;
    }
  }

  /** The counter of the root; an absent subtree counts as 0. */
  function Cnt<K, V>(t: Tree<K, V>): nat {
    if t.Nil? then 0 else t.nelem
  }

  lemma CntIsSize<K, V>(t: Tree<K, V>)
    requires Exact(t)
    ensures Cnt(t) == Size(t)
  {
  }

  lemma InOrderSize<K, V>(t: Tree<K, V>)
    ensures |InOrder(t)| == Size(t)
  {
  }

  // ---------- The key order ----------

  ghost predicate AtMost<K>(cmp: Cmp<K>, a: K, b: K) { cmp(a, b) <= 0 }

  ghost predicate TotalPreorder<K(!new)>(cmp: Cmp<K>) {
    && (forall a, b :: AtMost(cmp, a, b) <==> cmp(b, a) >= 0)
    && (forall a, b, c :: AtMost(cmp, a, b) && AtMost(cmp, b, c) ==> AtMost(cmp, a, c))
  }

  lemma Flip<K(!new)>(cmp: Cmp<K>, a: K, b: K)
    requires TotalPreorder(cmp) && cmp(a, b) >= 0
    ensures cmp(b, a) <= 0
  {
    assert AtMost(cmp, b, a);
  }

  lemma Transitive<K(!new)>(cmp: Cmp<K>, a: K, b: K, c: K)
    requires TotalPreorder(cmp)
    requires cmp(a, b) <= 0 && cmp(b, c) <= 0
    ensures cmp(a, c) <= 0
    ensures cmp(a, b) < 0 || cmp(b, c) < 0 ==> cmp(a, c) < 0
    ensures cmp(b, a) >= 0 && cmp(c, a) >= 0
  {
    assert AtMost(cmp, a, b) && AtMost(cmp, b, c);
    assert AtMost(cmp, b, a) || !AtMost(cmp, b, a);
    if cmp(a, c) >= 0 {
      assert AtMost(cmp, c, a);
      assert AtMost(cmp, b, a) && AtMost(cmp, c, b);
    }
  }

  ghost predicate Sorted<K, V>(s: seq<Entry<K, V>>, cmp: Cmp<K>) {
    forall i, j :: 0 <= i < j < |s| ==> cmp(s[i].key, s[j].key) <= 0
  }

  /** `t` is a search tree with exact counters. */
  ghost predicate Healthy<K, V>(t: Tree<K, V>, cmp: Cmp<K>) {
    Sorted(InOrder(t), cmp) && Exact(t)
  }

  lemma SortedParts<K, V>(l: Tree<K, V>, e: Entry<K, V>, n: nat, r: Tree<K, V>, cmp: Cmp<K>)
    requires Sorted(InOrder(Fork(l, e, n, r)), cmp)
    ensures Sorted(InOrder(l), cmp) && Sorted(InOrder(r), cmp)
    ensures forall x :: x in InOrder(l) ==> cmp(x.key, e.key) <= 0
    ensures forall x :: x in InOrder(r) ==> cmp(e.key, x.key) <= 0
  {
    SortedPieces(InOrder(l), e, InOrder(r), cmp);
  }

  lemma SortedPieces<K, V>(a: seq<Entry<K, V>>, e: Entry<K, V>, b: seq<Entry<K, V>>, cmp: Cmp<K>)
    requires Sorted(a + [e] + b, cmp)
    ensures Sorted(a, cmp) && Sorted(b, cmp)
    ensures forall x :: x in a ==> cmp(x.key, e.key) <= 0
    ensures forall x :: x in b ==> cmp(e.key, x.key) <= 0
  {
    var s := a + [e] + b;
    assert a == s[..|a|] && e == s[|a|] && b == s[|a| + 1..];
  }

  // ---------- Rotations (u_bst_rotate) ----------

  predicate CanRotate<K, V>(t: Tree<K, V>, dir: Dir) {
    t.Fork? && (if dir.RotLeft? then t.right.Fork? else t.left.Fork?)
  }

  function Rotate<K, V>(t: Tree<K, V>, dir: Dir): Tree<K, V>
    requires CanRotate(t, dir)
  {
    match dir
    case RotLeft =>
      var up := t.right;
      Fork(Fork(t.left, t.e, Minus(t.nelem, if up.right.Fork? then up.right.nelem + 1 else 1), up.left),
           up.e, t.nelem, up.right)
    case RotRight =>
      var up := t.left;
      Fork(up.left, up.e, t.nelem,
           Fork(up.right, t.e, Minus(t.nelem, if up.left.Fork? then up.left.nelem + 1 else 1), t.right))
  }

  lemma Regroup<T>(a: seq<T>, x: T, b: seq<T>, y: T, c: seq<T>)
    ensures (a + [x] + b) + [y] + c == a + [x] + (b + [y] + c)
  {
  }

  /** A rotation brings the child to the top, moves no entry and keeps exact counters exact. */
  lemma RotateLaws<K, V>(t: Tree<K, V>, dir: Dir)
    requires CanRotate(t, dir)
    ensures InOrder(Rotate(t, dir)) == InOrder(t)
    ensures Size(Rotate(t, dir)) == Size(t)
    ensures Rotate(t, dir).e == if dir.RotLeft? then t.right.e else t.left.e
    ensures Exact(t) ==> Exact(Rotate(t, dir))
  {
    RotateInOrder(t, dir);
    if Exact(t) {
      RotateExact(t, dir);
    }
  }

  lemma RotateInOrder<K, V>(t: Tree<K, V>, dir: Dir)
    requires CanRotate(t, dir)
    ensures InOrder(Rotate(t, dir)) == InOrder(t)
  {
    var r := Rotate(t, dir);
    if dir.RotLeft? {
      assert InOrder(r.left) == InOrder(t.left) + [t.e] + InOrder(t.right.left);
      Regroup(InOrder(t.left), t.e, InOrder(t.right.left), t.right.e, InOrder(t.right.right));
    } else {
      assert InOrder(r.right) == InOrder(t.left.right) + [t.e] + InOrder(t.right);
      Regroup(InOrder(t.left.left), t.left.e, InOrder(t.left.right), t.e, InOrder(t.right));
    }
  }

  lemma RotateExact<K, V>(t: Tree<K, V>, dir: Dir)
    requires CanRotate(t, dir) && Exact(t)
    ensures Exact(Rotate(t, dir))
  {
    var r := Rotate(t, dir);
    if dir.RotLeft? {
      CntIsSize(t.right.right);
      assert Exact(r.left) by { CntIsSize(t.right); }
    } else {
      CntIsSize(t.left.left);
      assert Exact(r.right) by { CntIsSize(t.left); }
    }
  }

  lemma {:induction false} ExactRoot<K, V>(t: Tree<K, V>)
    requires Exact(t) && t.Fork?
    ensures t.nelem == 1 + Cnt(t.left) + Cnt(t.right) && Exact(t.left) && Exact(t.right)
  {
    CntIsSize(t.left);
    CntIsSize(t.right);
  }

  /** Rotating back gives back the very tree, counters included, when they were exact. */
  lemma RotateBack<K, V>(t: Tree<K, V>, dir: Dir)
    requires CanRotate(t, dir) && Exact(t)
    ensures var back := if dir.RotLeft? then RotRight else RotLeft;
            CanRotate(Rotate(t, dir), back) && Rotate(Rotate(t, dir), back) == t
  {
    hide Exact;
    ExactRoot(t);
    ExactRoot(if dir.RotLeft? then t.right else t.left);
  }

  // ---------- Insertion (u_bst_node_push*) ----------

  function Leaf<K, V>(e: Entry<K, V>): Tree<K, V> { Fork(Nil, e, 1, Nil) }

  /** Insertion below an external node (u_bst_node_push, u_bst_node_push_bottom). */
  function PushBottom<K, V>(t: Tree<K, V>, e: Entry<K, V>, cmp: Cmp<K>): Tree<K, V> {
    match t
    case Nil => Leaf(e)
    case Fork(l, x, n, r) =>
      if cmp(e.key, x.key) < 0 then Fork(PushBottom(l, e, cmp), x, n + 1, r)
      else Fork(l, x, n + 1, PushBottom(r, e, cmp))
  }

  /** Insertion at the root by rotations (u_bst_node_push_top). */
  function PushTop<K, V>(t: Tree<K, V>, e: Entry<K, V>, cmp: Cmp<K>): (t': Tree<K, V>)
    ensures t'.Fork? && t'.e == e
  {
    match t
    case Nil => Leaf(e)
    case Fork(l, x, n, r) =>
      if cmp(e.key, x.key) < 0 then Rotate(Fork(PushTop(l, e, cmp), x, n + 1, r), RotRight)
      else Rotate(Fork(l, x, n + 1, PushTop(r, e, cmp)), RotLeft)
  }

  const RAND_MAX: nat := 0x7fff_ffff

  /** Insertion at the root when the draw `toss` says so, else at the bottom (u_bst_node_push_rand). */
  function PushRand<K, V>(t: Tree<K, V>, e: Entry<K, V>, cmp: Cmp<K>, toss: nat): Tree<K, V>
  {
    if t.Nil? then Leaf(e)
    else if toss < RAND_MAX / (t.nelem + 1) then PushTop(t, e, cmp)
    else PushBottom(t, e, cmp)
  }

  /** `u` splits `s` into the entries not greater than `key` and the greater ones. */
  ghost predicate SplitsAt<K, V>(s: seq<Entry<K, V>>, key: K, cmp: Cmp<K>, u: int) {
    && 0 <= u <= |s|
    && (forall i :: 0 <= i < u ==> cmp(key, s[i].key) >= 0)
    && (forall i :: u <= i < |s| ==> cmp(key, s[i].key) < 0)
  }

  /** The sequence `s'` is `s` with `e` put after all the entries not greater than it. */
  ghost predicate Inserted<K, V>(s: seq<Entry<K, V>>, e: Entry<K, V>, cmp: Cmp<K>, s': seq<Entry<K, V>>) {
    exists u :: SplitsAt(s, e.key, cmp, u) && s' == s[..u] + [e] + s[u..]
  }

  /** There is only one such sequence. */
  lemma InsertedIsUnique<K, V>(s: seq<Entry<K, V>>, e: Entry<K, V>, cmp: Cmp<K>, a: seq<Entry<K, V>>,
                               b: seq<Entry<K, V>>)
    requires Inserted(s, e, cmp, a) && Inserted(s, e, cmp, b)
    ensures a == b
  {
    var u :| SplitsAt(s, e.key, cmp, u) && a == s[..u] + [e] + s[u..];
    var w :| SplitsAt(s, e.key, cmp, w) && b == s[..w] + [e] + s[w..];
    var atU := if u < |s| then cmp(e.key, s[u].key) else 0;
    var atW := if w < |s| then cmp(e.key, s[w].key) else 0;
  }

  lemma InsertedSorted<K(!new), V>(s: seq<Entry<K, V>>, e: Entry<K, V>, cmp: Cmp<K>, s': seq<Entry<K, V>>)
    requires TotalPreorder(cmp) && Sorted(s, cmp) && Inserted(s, e, cmp, s')
    ensures Sorted(s', cmp)
  {
    var u :| SplitsAt(s, e.key, cmp, u) && s' == s[..u] + [e] + s[u..];
    forall i, j | 0 <= i < j < |s'| ensures cmp(s'[i].key, s'[j].key) <= 0 {
      if j == u {
        Flip(cmp, e.key, s[i].key);
      }
    }
  }

  /** Inserting into the part of a sorted sequence before `x` is inserting into the whole. */
  lemma InsertedLeft<K(!new), V>(a: seq<Entry<K, V>>, x: Entry<K, V>, b: seq<Entry<K, V>>, e: Entry<K, V>,
                                 cmp: Cmp<K>, a': seq<Entry<K, V>>)
    requires TotalPreorder(cmp) && Sorted(a + [x] + b, cmp)
    requires cmp(e.key, x.key) < 0
    requires Inserted(a, e, cmp, a')
    ensures Inserted(a + [x] + b, e, cmp, a' + [x] + b)
  {
    var u :| SplitsAt(a, e.key, cmp, u) && a' == a[..u] + [e] + a[u..];
    var s := a + [x] + b;
    assert s[|a|] == x;
    forall i | u <= i < |s| ensures cmp(e.key, s[i].key) < 0 {
      if i > |a| {
        Transitive(cmp, e.key, s[|a|].key, s[i].key);
      }
    }
    assert SplitsAt(s, e.key, cmp, u);
    assert a' + [x] + b == s[..u] + [e] + s[u..];
  }

  /** And likewise for the part after `x`. */
  lemma InsertedRight<K(!new), V>(a: seq<Entry<K, V>>, x: Entry<K, V>, b: seq<Entry<K, V>>, e: Entry<K, V>,
                                  cmp: Cmp<K>, b': seq<Entry<K, V>>)
    requires TotalPreorder(cmp) && Sorted(a + [x] + b, cmp)
    requires cmp(e.key, x.key) >= 0
    requires Inserted(b, e, cmp, b')
    ensures Inserted(a + [x] + b, e, cmp, a + [x] + b')
  {
    var u :| SplitsAt(b, e.key, cmp, u) && b' == b[..u] + [e] + b[u..];
    hide SplitsAt, Sorted, TotalPreorder;
    SplitsRight(a, x, b, e.key, cmp, u);
    RightPieces(a, x, b, u, e);
  }

  lemma RightPieces<T>(a: seq<T>, x: T, b: seq<T>, u: nat, e: T)
    requires u <= |b|
    ensures var s, w := a + [x] + b, |a| + 1 + u; a + [x] + (b[..u] + [e] + b[u..]) == s[..w] + [e] + s[w..]
  {
    var s, w := a + [x] + b, |a| + 1 + u;
    assert s[..w] == a + [x] + b[..u] && s[w..] == b[u..];
  }

  lemma SplitsRight<K(!new), V>(a: seq<Entry<K, V>>, x: Entry<K, V>, b: seq<Entry<K, V>>, key: K, cmp: Cmp<K>, u: nat)
    requires TotalPreorder(cmp) && Sorted(a + [x] + b, cmp) && cmp(key, x.key) >= 0 && SplitsAt(b, key, cmp, u)
    ensures SplitsAt(a + [x] + b, key, cmp, |a| + 1 + u)
  {
    var s := a + [x] + b;
    assert s[|a|] == x;
    Flip(cmp, key, x.key);
    forall i | 0 <= i < |a| + 1 + u ensures cmp(key, s[i].key) >= 0 {
      if i < |a| {
        Transitive(cmp, s[i].key, s[|a|].key, key);
      } else if i > |a| {
        assert s[i] == b[i - |a| - 1];
      }
    }
    assert forall i :: |a| + 1 + u <= i < |s| ==> s[i] == b[i - |a| - 1];
  }

  lemma InsertedFirst<K, V>(e: Entry<K, V>, cmp: Cmp<K>)
    ensures Inserted([], e, cmp, [e])
  {
    assert SplitsAt<K, V>([], e.key, cmp, 0);
  }

  /** Bottom insertion: the new entry lands after all entries not greater than it. */
  lemma {:induction false} PushBottomLaws<K(!new), V>(t: Tree<K, V>, e: Entry<K, V>, cmp: Cmp<K>)
    requires TotalPreorder(cmp) && Sorted(InOrder(t), cmp)
    ensures Inserted(InOrder(t), e, cmp, InOrder(PushBottom(t, e, cmp)))
    ensures Size(PushBottom(t, e, cmp)) == Size(t) + 1
    ensures Exact(t) ==> Exact(PushBottom(t, e, cmp))
  {
    match t
    case Nil =>
      InsertedFirst(e, cmp);
    case Fork(l, x, n, r) =>
      SortedParts(l, x, n, r, cmp);
      if cmp(e.key, x.key) < 0 {
        PushBottomLaws(l, e, cmp);
        InsertedLeft(InOrder(l), x, InOrder(r), e, cmp, InOrder(PushBottom(l, e, cmp)));
      } else {
        PushBottomLaws(r, e, cmp);
        InsertedRight(InOrder(l), x, InOrder(r), e, cmp, InOrder(PushBottom(r, e, cmp)));
      }
  }

  /** Root insertion: same contents, same place in the order. */
  lemma {:induction false} PushTopLaws<K(!new), V>(t: Tree<K, V>, e: Entry<K, V>, cmp: Cmp<K>)
    requires TotalPreorder(cmp) && Sorted(InOrder(t), cmp)
    ensures Inserted(InOrder(t), e, cmp, InOrder(PushTop(t, e, cmp)))
    ensures Size(PushTop(t, e, cmp)) == Size(t) + 1
    ensures Exact(t) ==> Exact(PushTop(t, e, cmp))
  {
    hide Inserted, Rotate, Sorted;
    match t
    case Nil =>
      InsertedFirst(e, cmp);
    case Fork(l, x, n, r) =>
      SortedParts(l, x, n, r, cmp);
      if cmp(e.key, x.key) < 0 {
        PushTopLaws(l, e, cmp);
        InsertedLeft(InOrder(l), x, InOrder(r), e, cmp, InOrder(PushTop(l, e, cmp)));
        RotateLaws(Fork(PushTop(l, e, cmp), x, n + 1, r), RotRight);
      } else {
        PushTopLaws(r, e, cmp);
        InsertedRight(InOrder(l), x, InOrder(r), e, cmp, InOrder(PushTop(r, e, cmp)));
        RotateLaws(Fork(l, x, n + 1, PushTop(r, e, cmp)), RotLeft);
      }
  }

  /** Whatever the policy and whatever the draw, insertion gives one and the same in-order sequence
      and leaves a healthy tree healthy. */
  lemma PoliciesAgree<K(!new), V>(t: Tree<K, V>, e: Entry<K, V>, cmp: Cmp<K>, toss: nat)
    requires TotalPreorder(cmp) && Healthy(t, cmp)
    ensures Inserted(InOrder(t), e, cmp, InOrder(PushBottom(t, e, cmp)))
    ensures InOrder(PushTop(t, e, cmp)) == InOrder(PushBottom(t, e, cmp)) == InOrder(PushRand(t, e, cmp, toss))
    ensures Healthy(PushBottom(t, e, cmp), cmp) && Healthy(PushTop(t, e, cmp), cmp)
    ensures Healthy(PushRand(t, e, cmp, toss), cmp)
  {
    PushBottomLaws(t, e, cmp);
    PushTopLaws(t, e, cmp);
    InsertedIsUnique(InOrder(t), e, cmp, InOrder(PushTop(t, e, cmp)), InOrder(PushBottom(t, e, cmp)));
    InsertedSorted(InOrder(t), e, cmp, InOrder(PushBottom(t, e, cmp)));
  }

  /** What an insertion under any policy makes of a sorted tree, whatever its counters */
  ghost predicate Pushed<K, V>(t: Tree<K, V>, e: Entry<K, V>, cmp: Cmp<K>, t': Tree<K, V>) {
    && Inserted(InOrder(t), e, cmp, InOrder(t')) && Sorted(InOrder(t'), cmp)
    && (Exact(t) ==> Exact(t'))
  }

  lemma PushLaws<K(!new), V>(t: Tree<K, V>, e: Entry<K, V>, cmp: Cmp<K>, toss: nat)
    requires TotalPreorder(cmp) && Sorted(InOrder(t), cmp)
    ensures Pushed(t, e, cmp, PushBottom(t, e, cmp)) && Pushed(t, e, cmp, PushTop(t, e, cmp))
    ensures Pushed(t, e, cmp, PushRand(t, e, cmp, toss))
  {
    hide Inserted, Sorted, Exact, InOrder;
    PushBottomLaws(t, e, cmp);
    PushTopLaws(t, e, cmp);
    InsertedSorted(InOrder(t), e, cmp, InOrder(PushBottom(t, e, cmp)));
    InsertedSorted(InOrder(t), e, cmp, InOrder(PushTop(t, e, cmp)));
  }

  // ---------- Order statistics (find_nth, promote_nth) ----------

  /** The subtree rooted at the n-th node, or `Nil`. */
  function FindNth<K, V>(t: Tree<K, V>, n: nat): Tree<K, V> {
    if t.Nil? then Nil
    else
      var k := Cnt(t.left);
      if k > n then FindNth(t.left, n)
      else if k < n then FindNth(t.right, n - (k + 1))
      else t
  }

  /** How many entries come before the node that the counters lead to for `n`. */
  function Before<K, V>(t: Tree<K, V>, n: nat): nat {
    if t.Nil? then 0
    else
      var k := Cnt(t.left);
      if k > n then Before(t.left, n)
      else if k < n then Size(t.left) + 1 + Before(t.right, n - (k + 1))
      else Size(t.left)
  }

  /** Whatever the counters, a node found holds the entry at its place in the in-order walk. */
  lemma {:induction false} FindNthIs<K, V>(t: Tree<K, V>, n: nat)
    ensures FindNth(t, n).Fork? ==> Before(t, n) < |InOrder(t)| && FindNth(t, n).e == InOrder(t)[Before(t, n)]
    decreases t
  {
    if t.Fork? {
      var k := Cnt(t.left);
      InOrderSize(t.left);
      if k > n {
        FindNthIs(t.left, n);
      } else if k < n {
        FindNthIs(t.right, n - (k + 1));
        assert InOrder(t)[Size(t.left) + 1..] == InOrder(t.right);
      }
    }
  }

  /** With exact counters the search finds the n-th entry of the in-order walk, or nothing iff
      there are not that many. */
  lemma {:induction false} FindNthLaws<K, V>(t: Tree<K, V>, n: nat)
    requires Exact(t)
    ensures FindNth(t, n).Nil? <==> n >= |InOrder(t)|
    ensures n < |InOrder(t)| ==> Before(t, n) == n && FindNth(t, n).e == InOrder(t)[n]
    decreases t
  {
    FindNthIs(t, n);
    InOrderSize(t);
    if t.Fork? {
      CntWhenExact(t);
      InOrderSize(t.left);
      InOrderSize(t.right);
      var k := Cnt(t.left);
      if k > n {
        FindNthLaws(t.left, n);
      } else if k < n {
        FindNthLaws(t.right, n - (k + 1));
      }
    }
  }

  /** Rotates the node that the counters lead to for `n` up to the root.  When they lead to none, the code
      rotates around a missing child. */
  function PromoteNth<K, V>(t: Tree<K, V>, n: nat): (t': Tree<K, V>)
    requires FindNth(t, n).Fork?
    ensures t'.Fork? && t'.e == FindNth(t, n).e
    ensures InOrder(t') == InOrder(t) && Size(t') == Size(t) && Size(t'.left) == Before(t, n)
    ensures Exact(t) ==> Exact(t')
  {
    var k := Cnt(t.left);
    if k > n then
      var t1 := Fork(PromoteNth(t.left, n), t.e, t.nelem, t.right);
      RotateLaws(t1, RotRight);
      Rotate(t1, RotRight)
    else if k < n then
      var t1 := Fork(t.left, t.e, t.nelem, PromoteNth(t.right, n - (k + 1)));
      RotateLaws(t1, RotLeft);
      Rotate(t1, RotLeft)
    else t
  }

  lemma CntWhenExact<K, V>(t: Tree<K, V>)
    requires t.Fork?
    ensures Exact(t) ==> Cnt(t.left) == Size(t.left) && Cnt(t.right) == Size(t.right)
  {
    if Exact(t) {
      CntIsSize(t.left);
      CntIsSize(t.right);
    }
  }

  /** A search for the first node always finds one, but not always the first: it does not enter a left
      subtree counted as 0. */
  lemma {:induction false} FirstIsFound<K, V>(t: Tree<K, V>)
    requires t.Fork?
    ensures FindNth(t, 0).Fork?
    decreases t
  {
    if Cnt(t.left) > 0 {
      FirstIsFound(t.left);
    }
  }

  lemma ExactMissesNothing<K, V>(t: Tree<K, V>)
    requires Exact(t)
    ensures Before(t, 0) == 0
  {
    FindNthLaws(t, 0);
    InOrderSize(t);
  }

  /** With exact counters it is the n-th entry that ends up at the root. */
  lemma PromoteNthRoot<K, V>(t: Tree<K, V>, n: nat)
    requires Exact(t) && n < Size(t)
    ensures n < |InOrder(t)| && FindNth(t, n).Fork?
    ensures PromoteNth(t, n).e == InOrder(t)[n] && Size(PromoteNth(t, n).left) == n
  {
    InOrderSize(t);
    FindNthLaws(t, n);
  }

  // ---------- Rebalancing (u_bst_node_balance) ----------

  /** The counters lead to a node whenever balancing promotes one. */
  ghost predicate CanBalance<K, V>(t: Tree<K, V>)
    decreases Size(t)
  {
    t.Nil? || t.nelem < 2 ||
    (FindNth(t, t.nelem / 2).Fork? && var p := PromoteNth(t, t.nelem / 2); CanBalance(p.left) && CanBalance(p.right))
  }

  function Balance<K, V>(t: Tree<K, V>): (t': Tree<K, V>)
    requires CanBalance(t)
    ensures InOrder(t') == InOrder(t) && Size(t') == Size(t)
    decreases Size(t)
  {
    if t.Nil? || t.nelem < 2 then t
    else
      var p := PromoteNth(t, t.nelem / 2);
      Fork(Balance(p.left), p.e, p.nelem, Balance(p.right))
  }

  /** Exact counters allow balancing, stay exact, and every node is split evenly. */
  lemma {:induction false} BalanceLaws<K, V>(t: Tree<K, V>)
    requires Exact(t)
    ensures CanBalance(t) && Exact(Balance(t)) && EvenlySplit(Balance(t))
    decreases Size(t)
  {
    if t.Fork? && t.nelem >= 2 {
      PromoteNthRoot(t, t.nelem / 2);
      var p := PromoteNth(t, t.nelem / 2);
      BalanceLaws(p.left);
      BalanceLaws(p.right);
    } else if t.Fork? {
      CntWhenExact(t);
    }
  }

  /** Every node has half of the nodes of its tree, rounded down, on its left, so that its two subtrees differ
      in size by at most one. */
  ghost predicate EvenlySplit<K, V>(t: Tree<K, V>) {
    match t
    case Nil => true
    case Fork(l, _, _, r) => Size(l) == Size(t) / 2 && EvenlySplit(l) && EvenlySplit(r)
  }

  /** The floor of the base-2 logarithm. */
  function Log2(n: nat): nat
    requires n > 0
  {
    if n == 1 then 0 else 1 + Log2(n / 2)
  }

  lemma {:induction false} Log2Monotone(m: nat, n: nat)
    requires 0 < m <= n
    ensures Log2(m) <= Log2(n)
  {
    if m > 1 {
      Log2Monotone(m / 2, n / 2);
    }
  }

  lemma {:induction false} EvenlySplitHeight<K, V>(t: Tree<K, V>)
    requires EvenlySplit(t) && t.Fork?
    ensures Height(t) <= Log2(Size(t)) + 1
  {
    var n := Size(t);
    var half := n / 2;
    assert Size(t.left) <= half && Size(t.right) <= half;
    if t.left.Fork? {
      EvenlySplitHeight(t.left);
      Log2Monotone(Size(t.left), half);
    }
    if t.right.Fork? {
      EvenlySplitHeight(t.right);
      Log2Monotone(Size(t.right), half);
    }
  }

  lemma {:induction false} HeightLowerBound<K, V>(t: Tree<K, V>)
    requires t.Fork?
    ensures Height(t) >= Log2(Size(t)) + 1
  {
    var n := Size(t);
    if n > 1 {
      var big := if Size(t.left) >= Size(t.right) then t.left else t.right;
      assert Size(big) >= n / 2;
      HeightLowerBound(big);
      Log2Monotone(n / 2, Size(big));
    }
  }

  /** After rebalancing no tree holding as many nodes is shorter: the height is floor(log2 n) + 1. */
  lemma {:induction false} BalanceIsOptimal<K, V>(t: Tree<K, V>, other: Tree<K, V>)
    requires Exact(t) && t.Fork?
    requires Size(other) == Size(t)
    ensures CanBalance(t) && Height(Balance(t)) == Log2(Size(t)) + 1
    ensures Height(Balance(t)) <= Height(other)
  {
    BalanceLaws(t);
    EvenlySplitHeight(Balance(t));
    HeightLowerBound(Balance(t));
    HeightLowerBound(other);
  }

  // ---------- Search ----------

  function Search<K, V>(t: Tree<K, V>, key: K, cmp: Cmp<K>): Tree<K, V> {
    if t.Nil? then Nil
    else
      var rc := cmp(key, t.e.key);
      if rc == 0 then t
      else if rc > 0 then Search(t.right, key, cmp)
      else Search(t.left, key, cmp)
  }

  lemma {:induction false} SearchLaws<K(!new), V>(t: Tree<K, V>, key: K, cmp: Cmp<K>)
    requires TotalPreorder(cmp) && Sorted(InOrder(t), cmp)
    ensures Search(t, key, cmp).Fork? <==> exists x :: x in InOrder(t) && cmp(key, x.key) == 0
    ensures Search(t, key, cmp).Fork? ==>
              Search(t, key, cmp).e in InOrder(t) && cmp(key, Search(t, key, cmp).e.key) == 0
  {
    if t.Fork? {
      SortedParts(t.left, t.e, t.nelem, t.right, cmp);
      if cmp(key, t.e.key) > 0 {
        SearchLaws(t.right, key, cmp);
      } else if cmp(key, t.e.key) < 0 {
        SearchLaws(t.left, key, cmp);
      }
    }
  }

  // ---------- Where a new entry goes, and what is found then ----------

  /** `t'` is `t` with a leaf for `e` in the place of one absent subtree, counted on the way there. */
  ghost predicate Grafted<K, V>(t: Tree<K, V>, e: Entry<K, V>, t': Tree<K, V>)
    decreases t
  {
    match t
    case Nil => t' == Fork(Nil, e, 1, Nil)
    case Fork(l, x, n, r) =>
      && t'.Fork? && t'.e == x && t'.nelem == n + 1
      && ((Grafted(l, e, t'.left) && t'.right == r) || (t'.left == l && Grafted(r, e, t'.right)))
  }

  ghost predicate AtRoot<K, V>(e: Entry<K, V>, t: Tree<K, V>) { t.Fork? && t.e == e }

  /** Does the draw put a new entry at the root, as about one in a number greater by one than the count of
      the root does? */
  predicate DrawnToRoot<K, V>(t: Tree<K, V>, toss: nat) { t.Nil? || toss < 0x7fff_ffff / (t.nelem + 1) }

  lemma {:induction false} PushBottomGrafts<K, V>(t: Tree<K, V>, e: Entry<K, V>, cmp: Cmp<K>)
    ensures Grafted(t, e, PushBottom(t, e, cmp))
    decreases t
  {
    if t.Fork? {
      PushBottomGrafts(if cmp(e.key, t.e.key) < 0 then t.left else t.right, e, cmp);
    }
  }

  /** A tree that has got a new leaf is searched as before, and the leaf found only where nothing was. */
  lemma {:induction false} GraftedFinds<K, V>(t: Tree<K, V>, e: Entry<K, V>, t': Tree<K, V>, key: K, cmp: Cmp<K>)
    requires Grafted(t, e, t')
    ensures var x, y := Search(t, key, cmp), Search(t', key, cmp);
            if x.Fork? then y.Fork? && y.e == x.e else y.Fork? ==> y.e == e
    decreases t
  {
    if t.Fork? {
      var l := Grafted(t.left, e, t'.left) && t'.right == t.right;
      if cmp(key, t.e.key) < 0 && l {
        GraftedFinds(t.left, e, t'.left, key, cmp);
      } else if cmp(key, t.e.key) > 0 && !l {
        GraftedFinds(t.right, e, t'.right, key, cmp);
      }
    }
  }

  /** Of the entries with equal keys the new one is found when it went to the root, and the one found before
      when it became a leaf. */
  lemma PushedFinds<K(!new), V>(t: Tree<K, V>, e: Entry<K, V>, t': Tree<K, V>, key: K, cmp: Cmp<K>, toRoot: bool)
    requires TotalPreorder(cmp) && cmp(key, e.key) == 0
    requires if toRoot then AtRoot(e, t') else Grafted(t, e, t') && Sorted(InOrder(t'), cmp)
    ensures Search(t', key, cmp).Fork?
    ensures Search(t', key, cmp).e == if toRoot || Search(t, key, cmp).Nil? then e else Search(t, key, cmp).e
  {
    if !toRoot {
      GraftedFinds(t, e, t', key, cmp);
      GraftedHolds(t, e, t');
      SearchLaws(t', key, cmp);
    }
  }

  /** The new entry is at the root, or else it is a leaf and nothing has moved; and it is what is found under
      its key, or else what was found there before is. */
  ghost predicate Placed<K, V>(t: Tree<K, V>, e: Entry<K, V>, cmp: Cmp<K>, t': Tree<K, V>, toRoot: bool) {
    var x, y := Search(t, e.key, cmp), Search(t', e.key, cmp);
    && (if toRoot then AtRoot(e, t') else Grafted(t, e, t'))
    && y.Fork? && y.e == if toRoot || x.Nil? then e else x.e
  }

  /** The policies differ in where they put a new entry. */
  lemma PoliciesPlace<K(!new), V>(t: Tree<K, V>, e: Entry<K, V>, cmp: Cmp<K>, toss: nat)
    requires TotalPreorder(cmp) && Sorted(InOrder(t), cmp)
    ensures Placed(t, e, cmp, PushTop(t, e, cmp), true) && Placed(t, e, cmp, PushBottom(t, e, cmp), false)
    ensures Placed(t, e, cmp, PushRand(t, e, cmp, toss), DrawnToRoot(t, toss))
  {
    hide Inserted, InOrder, Exact, Search, PushTop, Sorted, Grafted;
    PushLaws(t, e, cmp, toss);
    PushBottomGrafts(t, e, cmp);
    EqualToItself(e.key, cmp);
    PushedFinds(t, e, PushTop(t, e, cmp), e.key, cmp, true);
    PushedFinds(t, e, PushBottom(t, e, cmp), e.key, cmp, false);
    PushedFinds(t, e, Leaf(e), e.key, cmp, true);
  }

  lemma EqualToItself<K(!new)>(key: K, cmp: Cmp<K>)
    requires TotalPreorder(cmp)
    ensures cmp(key, key) == 0
  {
    assert AtMost(cmp, key, key) <==> cmp(key, key) >= 0;
  }

  lemma {:induction false} GraftedHolds<K, V>(t: Tree<K, V>, e: Entry<K, V>, t': Tree<K, V>)
    requires Grafted(t, e, t')
    ensures e in InOrder(t')
    decreases t
  {
    if t.Fork? {
      if Grafted(t.left, e, t'.left) && t'.right == t.right {
        GraftedHolds(t.left, e, t'.left);
      } else {
        GraftedHolds(t.right, e, t'.right);
      }
    }
  }

  // ---------- Deletion (join_lr, delete) ----------

  function JoinLr<K, V>(l: Tree<K, V>, r: Tree<K, V>): Tree<K, V> {
    if r.Nil? then l
    else
      FirstIsFound(r);
      var p := PromoteNth(r, 0);
      p.(left := l)
  }

  /** Removes the first node met on the search path that compares equal to `key`. */
  function Delete<K, V>(t: Tree<K, V>, key: K, cmp: Cmp<K>): (res: (Tree<K, V>, bool)) {
    if t.Nil? then (Nil, false)
    else
      var rc := cmp(key, t.e.key);
      var (t1, found) :=
        if rc < 0 then var (l, f) := Delete(t.left, key, cmp); (t.(left := l), f)
        else if rc > 0 then var (r, f) := Delete(t.right, key, cmp); (t.(right := r), f)
        else (JoinLr(t.left, t.right), true);
      (if t1.Fork? && found then t1.(nelem := Minus(t1.nelem, 1)) else t1, found)
  }

  /** `s'` is `s` without the entry `e` and the `n` entries after it. */
  ghost predicate Removed<K, V>(s: seq<Entry<K, V>>, e: Entry<K, V>, n: nat, s': seq<Entry<K, V>>) {
    exists i: nat :: i + n < |s| && s[i] == e && s' == s[..i] + s[i + 1 + n..]
  }

  /** What a deletion loses: the entries missed when the first of the right subtree is brought up. */
  function Lost<K, V>(t: Tree<K, V>, key: K, cmp: Cmp<K>): nat {
    var x := Search(t, key, cmp);
    if x.Nil? then 0 else Before(x.right, 0)
  }

  lemma JoinInOrder<K, V>(l: Tree<K, V>, r: Tree<K, V>)
    ensures Before(r, 0) <= |InOrder(r)|
    ensures InOrder(JoinLr(l, r)) == InOrder(l) + InOrder(r)[Before(r, 0)..]
  {
    if r.Fork? {
      FirstIsFound(r);
      var p := PromoteNth(r, 0);
      InOrderSize(p.left);
      assert InOrder(p)[Before(r, 0)..] == [p.e] + InOrder(p.right);
    } else {
      assert InOrder(l) + [] == InOrder(l);
    }
  }

  /** Deletion reports found iff some entry compares equal; it then removes the one that the search finds and
      those lost, which are none exactly when one entry is removed.  Otherwise it does not touch the tree. */
  lemma {:induction false} DeleteLaws<K(!new), V>(t: Tree<K, V>, key: K, cmp: Cmp<K>)
    requires TotalPreorder(cmp) && Sorted(InOrder(t), cmp)
    ensures var (t', found) := Delete(t, key, cmp);
            && (found <==> exists x :: x in InOrder(t) && cmp(key, x.key) == 0)
            && (!found ==> t' == t)
            && (found ==> var x := Search(t, key, cmp);
                  && x.Fork? && cmp(key, x.e.key) == 0 && Sorted(InOrder(t'), cmp)
                  && Removed(InOrder(t), x.e, Lost(t, key, cmp), InOrder(t'))
                  && (Removed(InOrder(t), x.e, 0, InOrder(t')) <==> Lost(t, key, cmp) == 0))
  {
    hide InOrder, Removed, Search;
    SearchLaws(t, key, cmp);
    DeleteFindsWhatSearchFinds(t, key, cmp);
    if Delete(t, key, cmp).1 {
      var s, e, s' := InOrder(t), Search(t, key, cmp).e, InOrder(Delete(t, key, cmp).0);
      DeleteRemoves(t, key, cmp);
      RemovedSorted(s, e, Lost(t, key, cmp), s', cmp);
      RemovedLength(s, e, Lost(t, key, cmp), s');
      if Removed(s, e, 0, s') {
        RemovedLength(s, e, 0, s');
      }
    }
  }

  /** With exact counters nothing is lost. */
  lemma {:induction false} ExactLosesNothing<K, V>(t: Tree<K, V>, key: K, cmp: Cmp<K>)
    requires Exact(t)
    ensures Lost(t, key, cmp) == 0
    decreases t
  {
    if t.Fork? {
      var rc := cmp(key, t.e.key);
      ExactMissesNothing(t.right);
      if rc < 0 {
        ExactLosesNothing(t.left, key, cmp);
      } else if rc > 0 {
        ExactLosesNothing(t.right, key, cmp);
      }
    }
  }

  lemma {:induction false} DeleteFindsWhatSearchFinds<K, V>(t: Tree<K, V>, key: K, cmp: Cmp<K>)
    ensures Delete(t, key, cmp).1 <==> Search(t, key, cmp).Fork?
    ensures !Delete(t, key, cmp).1 ==> Delete(t, key, cmp).0 == t
    decreases t
  {
    if t.Fork? {
      DeleteFindsWhatSearchFinds(t.left, key, cmp);
      DeleteFindsWhatSearchFinds(t.right, key, cmp);
    }
  }

  lemma RemovedWithin<K, V>(a: seq<Entry<K, V>>, s: seq<Entry<K, V>>, b: seq<Entry<K, V>>, e: Entry<K, V>, n: nat,
                            s': seq<Entry<K, V>>)
    requires Removed(s, e, n, s')
    ensures Removed(a + s + b, e, n, a + s' + b)
  {
    var i: nat :| i + n < |s| && s[i] == e && s' == s[..i] + s[i + 1 + n..];
    WithinPieces(a, s, b, i, n);
  }

  lemma WithinPieces<T>(a: seq<T>, s: seq<T>, b: seq<T>, i: nat, n: nat)
    requires i + n < |s|
    ensures var w, k := a + s + b, |a| + i;
            w[k] == s[i] && a + (s[..i] + s[i + 1 + n..]) + b == w[..k] + w[k + 1 + n..]
  {
    var w, k := a + s + b, |a| + i;
    assert w[..k] == a + s[..i] && w[k + 1 + n..] == s[i + 1 + n..] + b;
  }

  lemma RemovedLeft<T>(a: seq<T>, x: T, b: seq<T>)
    ensures [] + a + ([x] + b) == a + [x] + b
  {
  }

  lemma FirstRemoved<K, V>(a: seq<Entry<K, V>>, e: Entry<K, V>, b: seq<Entry<K, V>>, n: nat)
    requires n <= |b|
    ensures Removed(a + [e] + b, e, n, a + b[n..])
  {
    var s := a + [e] + b;
    assert s[|a|] == e && s[..|a|] + s[|a| + 1 + n..] == a + b[n..];
  }

  lemma NothingAfter<T>(s: seq<T>)
    ensures s + [] == s
  {
  }

  lemma {:induction false} DeleteRemoves<K, V>(t: Tree<K, V>, key: K, cmp: Cmp<K>)
    requires Delete(t, key, cmp).1
    ensures Search(t, key, cmp).Fork?
    ensures Removed(InOrder(t), Search(t, key, cmp).e, Lost(t, key, cmp), InOrder(Delete(t, key, cmp).0))
    decreases t
  {
    hide Removed, Before;
    var a, b := InOrder(t.left), InOrder(t.right);
    var rc := cmp(key, t.e.key);
    if rc < 0 {
      DeleteRemoves(t.left, key, cmp);
      var a' := InOrder(Delete(t.left, key, cmp).0);
      RemovedWithin([], a, [t.e] + b, Search(t, key, cmp).e, Lost(t, key, cmp), a');
      RemovedLeft(a, t.e, b);
      RemovedLeft(a', t.e, b);
    } else if rc > 0 {
      DeleteRemoves(t.right, key, cmp);
      var b' := InOrder(Delete(t.right, key, cmp).0);
      RemovedWithin(a + [t.e], b, [], Search(t, key, cmp).e, Lost(t, key, cmp), b');
      NothingAfter(a + [t.e] + b);
      NothingAfter(a + [t.e] + b');
    } else {
      JoinInOrder(t.left, t.right);
      FirstRemoved(a, t.e, b, Before(t.right, 0));
    }
  }

  lemma RemovedSorted<K, V>(s: seq<Entry<K, V>>, e: Entry<K, V>, n: nat, s': seq<Entry<K, V>>, cmp: Cmp<K>)
    requires Sorted(s, cmp) && Removed(s, e, n, s')
    ensures Sorted(s', cmp)
  {
    var i: nat :| i + n < |s| && s[i] == e && s' == s[..i] + s[i + 1 + n..];
    LeftOver(s, i, n);
  }

  lemma LeftOver<T>(s: seq<T>, i: nat, n: nat)
    requires i + n < |s|
    ensures var r := s[..i] + s[i + 1 + n..]; forall k :: 0 <= k < |r| ==> r[k] == s[if k < i then k else k + 1 + n]
  {
  }

  lemma RemovedLength<K, V>(s: seq<Entry<K, V>>, e: Entry<K, V>, n: nat, s': seq<Entry<K, V>>)
    requires Removed(s, e, n, s')
    ensures |s'| == |s| - 1 - n
  {
  }

  /** The counters survive a deletion exactly when nothing was found or the node found was a leaf:
      otherwise the joined root keeps the count of the right subtree alone, less one. */
  lemma {:induction false} DeleteKeepsCounters<K, V>(t: Tree<K, V>, key: K, cmp: Cmp<K>)
    requires Exact(t)
    ensures Exact(Delete(t, key, cmp).0) <==>
            var x := Search(t, key, cmp); x.Nil? || (x.left.Nil? && x.right.Nil?)
    ensures Delete(t, key, cmp).1 ==> Size(Delete(t, key, cmp).0) == Size(t) - 1
    decreases t
  {
    if t.Fork? {
      DeleteFindsWhatSearchFinds(t, key, cmp);
      var rc := cmp(key, t.e.key);
      if rc < 0 {
        DeleteKeepsCounters(t.left, key, cmp);
        DeleteFindsWhatSearchFinds(t.left, key, cmp);
      } else if rc > 0 {
        DeleteKeepsCounters(t.right, key, cmp);
        DeleteFindsWhatSearchFinds(t.right, key, cmp);
      } else if t.right.Fork? {
        ExactMissesNothing(t.right);
        FirstIsFound(t.right);
        var p := PromoteNth(t.right, 0);
        assert Size(p.left) == 0;
      }
    }
  }

  /** After one deletion the counter of the root is the number of entries left exactly when it was not the
      root that was deleted, or the root was a leaf. */
  lemma CountAfterDelete<K, V>(t: Tree<K, V>, key: K, cmp: Cmp<K>)
    requires Exact(t) && Delete(t, key, cmp).1
    ensures Cnt(Delete(t, key, cmp).0) == Size(Delete(t, key, cmp).0) <==>
            cmp(key, t.e.key) != 0 || (t.left.Nil? && t.right.Nil?)
  {
    DeleteKeepsCounters(t, key, cmp);
    CntIsSize(t.left);
    if t.right.Fork? {
      FirstIsFound(t.right);
      PromotedCount(t.right, 0);
      CntIsSize(t.right);
    }
  }

  lemma {:induction false} PromotedCount<K, V>(t: Tree<K, V>, n: nat)
    requires FindNth(t, n).Fork?
    ensures PromoteNth(t, n).nelem == t.nelem
  {
  }

  /** Three nodes whose counters a deletion of the root breaks: two are left and the root reads 0. */
  lemma DeleteBreaksCounters<K, V>(x: Entry<K, V>, y: Entry<K, V>, z: Entry<K, V>, cmp: Cmp<K>)
    requires cmp(y.key, y.key) == 0
    ensures var t := Fork(Leaf(x), y, 3, Leaf(z));
            Exact(t) && Delete(t, y.key, cmp).0 == Fork(Leaf(x), z, 0, Nil)
  {
    var l, r := Leaf(x), Leaf(z);
    assert Exact(l) && Exact(r);
    assert PromoteNth(r, 0) == r;
    assert JoinLr(l, r) == Fork(l, z, 1, Nil);
  }

  /** A run of two deletions that loses entries: deleting `y` breaks the counter of the left subtree of
      `r`, so that deleting `m` then takes `r` for the first entry on its right. */
  lemma SecondDeletionLoses<K, V>(m: Entry<K, V>, x: Entry<K, V>, y: Entry<K, V>, z: Entry<K, V>, r: Entry<K, V>,
                                  cmp: Cmp<K>)
    requires cmp(y.key, y.key) == 0 && cmp(y.key, m.key) > 0 && cmp(y.key, r.key) < 0 && cmp(m.key, m.key) == 0
    ensures var t := Fork(Nil, m, 5, Fork(Fork(Leaf(x), y, 3, Leaf(z)), r, 4, Nil));
            var t1 := Delete(t, y.key, cmp).0;
            && Exact(t) && InOrder(t) == [m, x, y, z, r]
            && InOrder(t1) == [m, x, z, r] && Lost(t1, m.key, cmp) == 2
            && InOrder(Delete(t1, m.key, cmp).0) == [r]
  {
    DeleteBreaksCounters(x, y, z, cmp);
    var a, a1 := Fork(Leaf(x), y, 3, Leaf(z)), Fork(Leaf(x), z, 0, Nil);
    var b1 := Fork(a1, r, 3, Nil);
    assert InOrder(a) == [x, y, z] && InOrder(a1) == [x, z] && InOrder(b1) == [x, z, r];
    assert Delete(Fork(a, r, 4, Nil), y.key, cmp).0 == b1;
    assert Exact(Fork(a, r, 4, Nil));
    assert PromoteNth(b1, 0) == b1;
    assert JoinLr(Nil, b1) == Fork(Nil, r, 3, Nil);
  }

  /** A deletion after which balancing runs into a missing child, and the search for the third of the four
      entries that are left finds none. */
  lemma BalanceFails<K, V>(x: Entry<K, V>, y: Entry<K, V>, z: Entry<K, V>, r: Entry<K, V>, w: Entry<K, V>, cmp: Cmp<K>)
    requires cmp(y.key, y.key) == 0 && cmp(y.key, r.key) < 0
    ensures var t := Fork(Fork(Leaf(x), y, 3, Leaf(z)), r, 5, Leaf(w));
            var t1 := Delete(t, y.key, cmp).0;
            Exact(t) && InOrder(t1) == [x, z, r, w] && FindNth(t1, 2).Nil? && !CanBalance(t1)
  {
    DeleteBreaksCounters(x, y, z, cmp);
    var a1 := Fork(Leaf(x), z, 0, Nil);
    var t1 := Fork(a1, r, 4, Leaf(w));
    var a := Fork(Leaf(x), y, 3, Leaf(z));
    assert Exact(a) && Delete(a, y.key, cmp) == (a1, true);
    assert Delete(Fork(a, r, 5, Leaf(w)), y.key, cmp).0 == t1;
    assert InOrder(a1) == [x, z] && InOrder(Leaf(w)) == [w];
    assert FindNth(Leaf(w), 1).Nil?;
  }
}

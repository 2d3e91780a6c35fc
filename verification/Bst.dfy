/**
 The tree of srcs/toolbox/bst.c as it lives in memory: nodes linked by pointers, changed in place.
 Each operation is tied to the function of BstTree that says what it computes.
 */
module Bst {
  import opened BstTree

  class Node<K, V> {
    var key: K
    var val: V
    var nelem: nat
    var left: Node?<K, V>
    var right: Node?<K, V>

    constructor (key: K, val: V)
      ensures this.key == key && this.val == val && nelem == 1 && left == null && right == null
    {
      this.key, this.val := key, val;
      nelem, left, right := 1, null, null;
    }
  }

  /** Which node sits where: the plan of a linked tree. */
  datatype Shape<K, V> = Empty | At(l: Shape<K, V>, node: Node<K, V>, r: Shape<K, V>)

  ghost function Nodes<K, V>(s: Shape<K, V>): set<Node<K, V>> {
    match s
    case Empty => {}
    case At(l, node, r) => Nodes(l) + {node} + Nodes(r)
  }

  /** No node sits in two places. */
  ghost predicate Distinct<K, V>(s: Shape<K, V>) {
    match s
    case Empty => true
    case At(l, node, r) =>
      && Distinct(l) && Distinct(r)
      && node !in Nodes(l) && node !in Nodes(r) && Nodes(l) !! Nodes(r)
  }

  /** The nodes reached from `p` are linked as `s` plans and hold the tree `t`. */
  ghost predicate Holds<K, V>(p: Node?<K, V>, s: Shape<K, V>, t: Tree<K, V>)
    reads Nodes(s)
  {
    match s
    case Empty => p == null && t == Nil
    case At(l, node, r) =>
      && p == node
      && t.Fork? && t.e == Entry(node.key, node.val) && t.nelem == node.nelem
      && Holds(node.left, l, t.left) && Holds(node.right, r, t.right)
  }

  // ---------- One node at a time ----------

  /** `l` and `r` can hang below `node`. */
  ghost predicate Apart<K, V>(l: Shape<K, V>, node: Node<K, V>, r: Shape<K, V>) {
    Distinct(l) && Distinct(r) && node !in Nodes(l) && node !in Nodes(r) && Nodes(l) !! Nodes(r)
  }

  /** A node, its subtrees and what they hold */
  lemma Taken<K, V>(node: Node<K, V>, s: Shape<K, V>, t: Tree<K, V>)
    requires Holds(node, s, t) && Distinct(s)
    ensures s.At? && s.node == node && t.Fork? && t.e == Entry(node.key, node.val) && t.nelem == node.nelem
    ensures Holds(node.left, s.l, t.left) && Holds(node.right, s.r, t.right)
    ensures Apart(s.l, node, s.r) && Nodes(s) == Nodes(s.l) + {node} + Nodes(s.r)
  {
  }

  lemma Absent<K, V>(s: Shape<K, V>, t: Tree<K, V>)
    ensures Holds(null, s, t) <==> s == Empty && t == Nil
  {
  }

  lemma NewLeaf<K, V>(node: Node<K, V>)
    requires node.nelem == 1 && node.left == null && node.right == null
    ensures Holds(node, At(Empty, node, Empty), Leaf(Entry(node.key, node.val)))
    ensures Distinct(At(Empty, node, Empty)) && Nodes(At(Empty, node, Empty)) == {node}
  {
  }

  method SetLeft<K, V>(node: Node<K, V>, child: Node?<K, V>, ghost l: Shape<K, V>, ghost tl: Tree<K, V>,
                       ghost r: Shape<K, V>, ghost tr: Tree<K, V>)
    requires Apart(l, node, r) && Holds(child, l, tl) && Holds(node.right, r, tr)
    modifies node`left
    ensures Holds(node, At(l, node, r), Fork(tl, Entry(node.key, node.val), node.nelem, tr))
    ensures Distinct(At(l, node, r)) && Nodes(At(l, node, r)) == Nodes(l) + {node} + Nodes(r)
  {
    assert allocated(Nodes(l)) && allocated(Nodes(r));
    node.left := child;
    assert Holds(node.left, l, tl) && Holds(node.right, r, tr);
  }

  method SetRight<K, V>(node: Node<K, V>, child: Node?<K, V>, ghost l: Shape<K, V>, ghost tl: Tree<K, V>,
                        ghost r: Shape<K, V>, ghost tr: Tree<K, V>)
    requires Apart(l, node, r) && Holds(node.left, l, tl) && Holds(child, r, tr)
    modifies node`right
    ensures Holds(node, At(l, node, r), Fork(tl, Entry(node.key, node.val), node.nelem, tr))
    ensures Distinct(At(l, node, r)) && Nodes(At(l, node, r)) == Nodes(l) + {node} + Nodes(r)
  {
    assert allocated(Nodes(l)) && allocated(Nodes(r));
    node.right := child;
    assert Holds(node.left, l, tl) && Holds(node.right, r, tr);
  }

  method SetCount<K, V>(node: Node<K, V>, n: nat, ghost s: Shape<K, V>, ghost t: Tree<K, V>)
    requires Holds(node, s, t) && Distinct(s)
    modifies node`nelem
    ensures t.Fork? && Holds(node, s, t.(nelem := n)) && node.nelem == n
  {
    Taken(node, s, t);
    assert allocated(Nodes(s.l)) && allocated(Nodes(s.r));
    node.nelem := n;
    assert Holds(node.left, s.l, t.left) && Holds(node.right, s.r, t.right);
  }

  // ---------- Rotations ----------

  /** u_bst_rotate, to the left */
  method NodeRotateLeft<K, V>(pivot: Node<K, V>, ghost s: Shape<K, V>, ghost t: Tree<K, V>)
    returns (newroot: Node<K, V>, ghost s': Shape<K, V>)
    requires Holds(pivot, s, t) && Distinct(s) && CanRotate(t, RotLeft)
    modifies Nodes(s)
    ensures Holds(newroot, s', Rotate(t, RotLeft))
    ensures Distinct(s') && Nodes(s') == Nodes(s)
  {
    hide Minus;
    assert allocated(Nodes(s.l)) && allocated(Nodes(s.r.l)) && allocated(Nodes(s.r.r));
    newroot := pivot.right;
    assert Holds(newroot.left, s.r.l, t.right.left) && Holds(newroot.right, s.r.r, t.right.right);
    pivot.right := newroot.left;
    newroot.left := pivot;
    newroot.nelem := pivot.nelem;
    pivot.nelem := Minus(pivot.nelem, if newroot.right != null then newroot.right.nelem + 1 else 1);
    ghost var down := At(s.l, pivot, s.r.l);
    assert Holds(pivot, down, Rotate(t, RotLeft).left);
    s' := At(down, newroot, s.r.r);
  }

  /** u_bst_rotate, to the right */
  method NodeRotateRight<K, V>(pivot: Node<K, V>, ghost s: Shape<K, V>, ghost t: Tree<K, V>)
    returns (newroot: Node<K, V>, ghost s': Shape<K, V>)
    requires Holds(pivot, s, t) && Distinct(s) && CanRotate(t, RotRight)
    modifies Nodes(s)
    ensures Holds(newroot, s', Rotate(t, RotRight))
    ensures Distinct(s') && Nodes(s') == Nodes(s)
  {
    hide Minus;
    assert allocated(Nodes(s.l.l)) && allocated(Nodes(s.l.r)) && allocated(Nodes(s.r));
    newroot := pivot.left;
    assert Holds(newroot.left, s.l.l, t.left.left) && Holds(newroot.right, s.l.r, t.left.right);
    pivot.left := newroot.right;
    newroot.right := pivot;
    newroot.nelem := pivot.nelem;
    pivot.nelem := Minus(pivot.nelem, if newroot.left != null then newroot.left.nelem + 1 else 1);
    ghost var down := At(s.l.r, pivot, s.r);
    assert Holds(pivot, down, Rotate(t, RotRight).right);
    s' := At(s.l.l, newroot, down);
  }

  /** u_bst_rotate */
  method NodeRotate<K, V>(pivot: Node<K, V>, dir: Dir, ghost s: Shape<K, V>, ghost t: Tree<K, V>)
    returns (newroot: Node<K, V>, ghost s': Shape<K, V>)
    requires Holds(pivot, s, t) && Distinct(s) && CanRotate(t, dir)
    modifies Nodes(s)
    ensures Holds(newroot, s', Rotate(t, dir))
    ensures Distinct(s') && Nodes(s') == Nodes(s)
  {
    hide Holds, Nodes, Distinct, Rotate, CanRotate;
    match dir
    case RotLeft => newroot, s' := NodeRotateLeft(pivot, s, t);
    case RotRight => newroot, s' := NodeRotateRight(pivot, s, t);
  }

  // ---------- Insertion ----------

  /** u_bst_node_push */
  method NodePush<K, V>(node: Node?<K, V>, key: K, val: V, cmp: Cmp<K>, ghost s: Shape<K, V>, ghost t: Tree<K, V>)
    returns (top: Node<K, V>, ghost s': Shape<K, V>)
    requires Holds(node, s, t) && Distinct(s)
    modifies Nodes(s)
    ensures Holds(top, s', PushBottom(t, Entry(key, val), cmp))
    ensures Distinct(s') && forall x :: x in Nodes(s') ==> x in Nodes(s) || fresh(x)
    decreases s
  {
    hide Holds, Nodes, Distinct;
    if node == null {
      Absent(s, t);
      top := new Node(key, val);
      NewLeaf(top);
      return top, At(Empty, top, Empty);
    }
    Taken(node, s, t);
    assert allocated(Nodes(s.l)) && allocated(Nodes(s.r));
    top := node;
    ghost var t', side;
    if cmp(key, node.key) < 0 {
      t' := PushBottom(t.left, Entry(key, val), cmp);
      var child;
      child, side := NodePush(node.left, key, val, cmp, s.l, t.left);
      SetLeft(node, child, side, t', s.r, t.right);
      s', t' := At(side, node, s.r), Fork(t', t.e, t.nelem, t.right);
    } else {
      t' := PushBottom(t.right, Entry(key, val), cmp);
      var child;
      child, side := NodePush(node.right, key, val, cmp, s.r, t.right);
      SetRight(node, child, s.l, t.left, side, t');
      s', t' := At(s.l, node, side), Fork(t.left, t.e, t.nelem, t');
    }
    SetCount(node, node.nelem + 1, s', t');
  }

  /** u_bst_node_push_top */
  method NodePushTop<K, V>(node: Node?<K, V>, key: K, val: V, cmp: Cmp<K>, ghost s: Shape<K, V>, ghost t: Tree<K, V>)
    returns (top: Node<K, V>, ghost s': Shape<K, V>)
    requires Holds(node, s, t) && Distinct(s)
    modifies Nodes(s)
    ensures Holds(top, s', PushTop(t, Entry(key, val), cmp))
    ensures Distinct(s') && forall x :: x in Nodes(s') ==> x in Nodes(s) || fresh(x)
    decreases s
  {
    hide Holds, Nodes, Distinct, Rotate;
    if node == null {
      Absent(s, t);
      top := new Node(key, val);
      NewLeaf(top);
      return top, At(Empty, top, Empty);
    }
    Taken(node, s, t);
    assert allocated(Nodes(s.l)) && allocated(Nodes(s.r));
    SetCount(node, node.nelem + 1, s, t);
    Taken(node, s, t.(nelem := node.nelem));
    ghost var t', side;
    if cmp(key, node.key) < 0 {
      t' := PushTop(t.left, Entry(key, val), cmp);
      var child;
      child, side := NodePushTop(node.left, key, val, cmp, s.l, t.left);
      SetLeft(node, child, side, t', s.r, t.right);
      top, s' := NodeRotate(node, RotRight, At(side, node, s.r), Fork(t', t.e, t.nelem + 1, t.right));
    } else {
      t' := PushTop(t.right, Entry(key, val), cmp);
      var child;
      child, side := NodePushTop(node.right, key, val, cmp, s.r, t.right);
      SetRight(node, child, s.l, t.left, side, t');
      top, s' := NodeRotate(node, RotLeft, At(s.l, node, side), Fork(t.left, t.e, t.nelem + 1, t'));
    }
  }

  /** u_bst_node_push_rand; `toss` is what rand() yields.  When it does not decide for the top, the code
      goes on as u_bst_node_push does. */
  method NodePushRand<K, V>(node: Node?<K, V>, key: K, val: V, cmp: Cmp<K>, toss: nat,
                            ghost s: Shape<K, V>, ghost t: Tree<K, V>)
    returns (top: Node<K, V>, ghost s': Shape<K, V>)
    requires Holds(node, s, t) && Distinct(s)
    modifies Nodes(s)
    ensures Holds(top, s', PushRand(t, Entry(key, val), cmp, toss))
    ensures Distinct(s') && forall x :: x in Nodes(s') ==> x in Nodes(s) || fresh(x)
  {
    hide Nodes, Distinct;
    if node != null && toss < RAND_MAX / (node.nelem + 1) {
      top, s' := NodePushTop(node, key, val, cmp, s, t);
    } else {
      top, s' := NodePush(node, key, val, cmp, s, t);
    }
  }

  // The descent of the bottom insertion.  A path lists the nodes passed on the way down: what each
  // now holds, the side taken, and the subtree left aside.

  datatype Step<K, V> = Step(node: Node<K, V>, e: Entry<K, V>, nelem: nat, goLeft: bool,
                             aside: Shape<K, V>, asideTree: Tree<K, V>)
  {
    ghost function Hang(s: Shape<K, V>): Shape<K, V> {
      if goLeft then At(s, node, aside) else At(aside, node, s)
    }

    ghost function HangTree(t: Tree<K, V>): Tree<K, V> {
      if goLeft then Fork(t, e, nelem, asideTree) else Fork(asideTree, e, nelem, t)
    }

    ghost predicate At?(p: Node?<K, V>)
      reads node, Nodes(aside)
    {
      && e == Entry(node.key, node.val) && nelem == node.nelem
      && p == (if goLeft then node.left else node.right)
      && Holds(if goLeft then node.right else node.left, aside, asideTree)
    }
  }

  ghost function PathNodes<K, V>(path: seq<Step<K, V>>): set<Node<K, V>> {
    if path == [] then {}
    else
      var last := path[|path| - 1];
      PathNodes(path[..|path| - 1]) + {last.node} + Nodes(last.aside)
  }

  ghost predicate PathDistinct<K, V>(path: seq<Step<K, V>>) {
    path == [] ||
    var up, last := path[..|path| - 1], path[|path| - 1];
    && PathDistinct(up) && Distinct(last.aside)
    && last.node !in PathNodes(up) && last.node !in Nodes(last.aside)
    && PathNodes(up) !! Nodes(last.aside)
  }

  /** Following `path` from `root` leads to the link that holds `p`. */
  ghost predicate PathHolds<K, V>(root: Node?<K, V>, path: seq<Step<K, V>>, p: Node?<K, V>)
    reads PathNodes(path)
  {
    if path == [] then root == p
    else
      var up, last := path[..|path| - 1], path[|path| - 1];
      PathHolds(root, up, last.node) && last.At?(p)
  }

  ghost function Hang<K, V>(path: seq<Step<K, V>>, s: Shape<K, V>): Shape<K, V> {
    if path == [] then s else Hang(path[..|path| - 1], path[|path| - 1].Hang(s))
  }

  ghost function HangTree<K, V>(path: seq<Step<K, V>>, t: Tree<K, V>): Tree<K, V> {
    if path == [] then t else HangTree(path[..|path| - 1], path[|path| - 1].HangTree(t))
  }

  lemma HangLaws<K, V>(root: Node?<K, V>, path: seq<Step<K, V>>, p: Node?<K, V>, s: Shape<K, V>, t: Tree<K, V>)
    requires PathDistinct(path) && PathHolds(root, path, p)
    requires Holds(p, s, t) && Distinct(s) && Nodes(s) !! PathNodes(path)
    ensures Holds(root, Hang(path, s), HangTree(path, t)) && Distinct(Hang(path, s))
    ensures Nodes(Hang(path, s)) == PathNodes(path) + Nodes(s)
    decreases |path|
  {
    if path != [] {
      var up, last := path[..|path| - 1], path[|path| - 1];
      HangLaws(root, up, last.node, last.Hang(s), last.HangTree(t));
    }
  }

  /** One more step down: `node` joins the path and its child takes its place at the end of it. */
  lemma PathExtends<K, V>(root: Node?<K, V>, path: seq<Step<K, V>>, node: Node<K, V>, sub: Shape<K, V>,
                          step: Step<K, V>, p: Node?<K, V>, t: Tree<K, V>)
    requires PathDistinct(path) && PathHolds(root, path, node)
    requires sub.At? && sub.node == node && Distinct(sub) && Nodes(sub) !! PathNodes(path)
    requires step.node == node && step.aside == (if step.goLeft then sub.r else sub.l)
    requires step.At?(p)
    ensures var path', sub' := path + [step], if step.goLeft then sub.l else sub.r;
            && PathDistinct(path') && PathHolds(root, path', p)
            && Distinct(sub') && Nodes(sub') !! PathNodes(path')
            && PathNodes(path') + Nodes(sub') == PathNodes(path) + Nodes(sub)
            && HangTree(path', t) == HangTree(path, step.HangTree(t))
  {
    assert (path + [step])[..|path|] == path;
  }

  /** u_bst_node_push_bottom */
  method NodePushBottom<K, V>(root: Node?<K, V>, key: K, val: V, cmp: Cmp<K>, ghost s: Shape<K, V>, ghost t: Tree<K, V>)
    returns (top: Node<K, V>, ghost s': Shape<K, V>)
    requires Holds(root, s, t) && Distinct(s)
    modifies Nodes(s)
    ensures Holds(top, s', PushBottom(t, Entry(key, val), cmp))
    ensures Distinct(s') && forall x :: x in Nodes(s') ==> x in Nodes(s) || fresh(x)
  {
    if root == null {
      top := new Node(key, val);
      s' := At(Empty, top, Empty);
      return;
    }
    ghost var path;
    var parent;
    parent, path := Descend(root, key, cmp, s, t, Entry(key, val));
    s' := Attach(root, parent, key, val, cmp, path);
    top := root;
  }

  /** `step` leaves `parent` on the side where `key` belongs. */
  ghost predicate LeadsFrom<K, V>(step: Step<K, V>, parent: Node<K, V>, key: K, cmp: Cmp<K>) {
    step.node == parent && step.goLeft == (cmp(key, step.e.key) < 0)
  }

  method CountOneMore<K, V>(node: Node<K, V>, ghost root: Node<K, V>, ghost path: seq<Step<K, V>>,
                            ghost sub: Shape<K, V>, ghost rest: Tree<K, V>)
    requires PathHolds(root, path, node) && Holds(node, sub, rest) && Distinct(sub)
    requires node !in PathNodes(path)
    modifies node
    ensures PathHolds(root, path, node) && Holds(node, sub, rest.(nelem := rest.nelem + 1))
  {
    assert allocated(PathNodes(path));
    SetCount(node, node.nelem + 1, sub, rest);
  }

  /** The loop of u_bst_node_push_bottom: counts the coming node in every node passed on the way down
      to the external node where it belongs. */
  method Descend<K, V>(root: Node<K, V>, key: K, cmp: Cmp<K>, ghost s: Shape<K, V>, ghost t: Tree<K, V>,
                       ghost e: Entry<K, V>)
    returns (parent: Node<K, V>, ghost path: seq<Step<K, V>>)
    requires Holds(root, s, t) && Distinct(s) && e.key == key
    modifies Nodes(s)
    ensures PathDistinct(path) && PathHolds(root, path, null) && PathNodes(path) == Nodes(s)
    ensures path != [] && LeadsFrom(path[|path| - 1], parent, key, cmp)
    ensures HangTree(path, Leaf(e)) == PushBottom(t, e, cmp)
  {
    hide Holds, Distinct, PathHolds, PathDistinct, PushBottom, LeadsFrom;
    parent, path := root, [];
    PathStarts(root);
    var node: Node? := root;
    ghost var sub, rest := s, t;
    while node != null
      invariant PathDistinct(path) && PathHolds(root, path, node)
      invariant Holds(node, sub, rest) && Distinct(sub) && Nodes(sub) !! PathNodes(path)
      invariant PathNodes(path) + Nodes(sub) == Nodes(s)
      invariant if path == [] then node != null else LeadsFrom(path[|path| - 1], parent, key, cmp)
      invariant HangTree(path, PushBottom(rest, e, cmp)) == PushBottom(t, e, cmp)
      decreases sub
    {
      parent := node;
      Taken(node, sub, rest);
      node, path, sub, rest := GoDown(root, node, key, cmp, path, sub, rest, e);
    }
    Absent(sub, rest);
    NilPushed(e, cmp);
  }

  lemma NilPushed<K, V>(e: Entry<K, V>, cmp: Cmp<K>)
    ensures PushBottom(Nil, e, cmp) == Leaf(e)
  {
  }

  lemma PathStarts<K, V>(root: Node<K, V>)
    ensures PathDistinct<K, V>([]) && PathHolds(root, [], root) && PathNodes<K, V>([]) == {}
  {
  }

  /** One step of that loop */
  method GoDown<K, V>(ghost root: Node<K, V>, node: Node<K, V>, key: K, cmp: Cmp<K>, ghost path: seq<Step<K, V>>,
                      ghost sub: Shape<K, V>, ghost rest: Tree<K, V>, ghost e: Entry<K, V>)
    returns (next: Node?<K, V>, ghost path': seq<Step<K, V>>, ghost sub': Shape<K, V>, ghost rest': Tree<K, V>)
    requires PathDistinct(path) && PathHolds(root, path, node) && e.key == key
    requires Holds(node, sub, rest) && Distinct(sub) && Nodes(sub) !! PathNodes(path)
    modifies node
    ensures PathDistinct(path') && PathHolds(root, path', next)
    ensures Holds(next, sub', rest') && Distinct(sub') && Nodes(sub') !! PathNodes(path')
    ensures PathNodes(path') + Nodes(sub') == PathNodes(path) + Nodes(sub)
    ensures path' != [] && LeadsFrom(path'[|path'| - 1], node, key, cmp)
    ensures HangTree(path', PushBottom(rest', e, cmp)) == HangTree(path, PushBottom(rest, e, cmp))
    ensures sub.At? && (sub' == sub.l || sub' == sub.r)
  {
    hide Holds, Distinct, PathHolds, PathDistinct, HangTree;
    Taken(node, sub, rest);
    CountOneMore(node, root, path, sub, rest);
    Taken(node, sub, rest.(nelem := rest.nelem + 1));
    ghost var step;
    if cmp(key, node.key) < 0 {
      step := Step(node, rest.e, rest.nelem + 1, true, sub.r, rest.right);
      next, sub', rest' := node.left, sub.l, rest.left;
    } else {
      step := Step(node, rest.e, rest.nelem + 1, false, sub.l, rest.left);
      next, sub', rest' := node.right, sub.r, rest.right;
    }
    PathExtends(root, path, node, sub, step, next, PushBottom(rest', e, cmp));
    path' := path + [step];
  }

  /** The end of u_bst_node_push_bottom: the new node becomes a child of the last node passed. */
  method Attach<K, V>(root: Node<K, V>, parent: Node<K, V>, key: K, val: V, cmp: Cmp<K>, ghost path: seq<Step<K, V>>)
    returns (ghost s': Shape<K, V>)
    requires PathDistinct(path) && PathHolds(root, path, null)
    requires path != [] && LeadsFrom(path[|path| - 1], parent, key, cmp)
    modifies parent
    ensures Holds(root, s', HangTree(path, Leaf(Entry(key, val))))
    ensures Distinct(s') && forall x :: x in Nodes(s') ==> x in PathNodes(path) || fresh(x)
  {
    hide PathDistinct, HangTree, Hang;
    assert allocated(PathNodes(path));
    var node := new Node(key, val);
    LinkLast(root, parent, node, key, cmp, path);
    NewLeaf(node);
    HangLaws(root, path, node, At(Empty, node, Empty), Leaf(Entry(key, val)));
    s' := Hang(path, At(Empty, node, Empty));
  }

  /** The link that a path ends with is set. */
  method LinkLast<K, V>(ghost root: Node<K, V>, parent: Node<K, V>, node: Node<K, V>, key: K, cmp: Cmp<K>,
                        ghost path: seq<Step<K, V>>)
    requires PathDistinct(path) && PathHolds(root, path, null) && node !in PathNodes(path)
    requires path != [] && LeadsFrom(path[|path| - 1], parent, key, cmp)
    modifies parent
    ensures PathHolds(root, path, node)
  {
    hide HangTree, Hang, Holds, Nodes, Distinct;
    ghost var up, last := path[..|path| - 1], path[|path| - 1];
    assert allocated(PathNodes(up)) && allocated(Nodes(last.aside));
    assert PathHolds(root, up, parent);
    if cmp(key, parent.key) < 0 {
      parent.left := node;
    } else {
      parent.right := node;
    }
    assert PathHolds(root, up, parent);
  }

  // ---------- Order statistics, joining, deletion, balancing ----------

  /** u_bst_node_promote_nth */
  method NodePromoteNth<K, V>(node: Node<K, V>, n: nat, ghost s: Shape<K, V>, ghost t: Tree<K, V>)
    returns (top: Node<K, V>, ghost s': Shape<K, V>)
    requires Holds(node, s, t) && Distinct(s) && FindNth(t, n).Fork?
    modifies Nodes(s)
    ensures Holds(top, s', PromoteNth(t, n))
    ensures Distinct(s') && Nodes(s') == Nodes(s)
    decreases s
  {
    hide InOrder, Size, Exact, Rotate, Before, Holds, Nodes, Distinct;
    Taken(node, s, t);
    Counted(node.left, s.l, t.left);
    assert allocated(Nodes(s.l)) && allocated(Nodes(s.r));
    top, s' := node, s;
    var k := if node.left == null then 0 else node.left.nelem;
    if k > n {
      var child, l := NodePromoteNth(node.left, n, s.l, t.left);
      SetLeft(node, child, l, PromoteNth(t.left, n), s.r, t.right);
      top, s' := NodeRotate(node, RotRight, At(l, node, s.r), Fork(PromoteNth(t.left, n), t.e, t.nelem, t.right));
    }
    if k < n {
      ghost var t' := PromoteNth(t.right, n - (k + 1));
      Counted(node.right, s.r, t.right);
      var child, r := NodePromoteNth(node.right, n - (k + 1), s.r, t.right);
      SetRight(node, child, s.l, t.left, r, t');
      top, s' := NodeRotate(node, RotLeft, At(s.l, node, r), Fork(t.left, t.e, t.nelem, t'));
    }
  }

  /** The counter of a subtree, absent or not */
  lemma Counted<K, V>(node: Node?<K, V>, s: Shape<K, V>, t: Tree<K, V>)
    requires Holds(node, s, t)
    ensures node != null ==> node in Nodes(s)
    ensures Cnt(t) == (if node == null then 0 else node.nelem) && (node == null <==> t.Nil?)
  {
  }

  /** u_bst_node_join_lr */
  method NodeJoinLr<K, V>(l: Node?<K, V>, r: Node?<K, V>, ghost sl: Shape<K, V>, ghost sr: Shape<K, V>,
                      ghost tl: Tree<K, V>, ghost tr: Tree<K, V>)
    returns (top: Node?<K, V>, ghost s': Shape<K, V>)
    requires Holds(l, sl, tl) && Holds(r, sr, tr) && Distinct(sl) && Distinct(sr) && Nodes(sl) !! Nodes(sr)
    modifies Nodes(sr)
    ensures Holds(top, s', JoinLr(tl, tr))
    ensures Distinct(s') && Nodes(s') <= Nodes(sl) + Nodes(sr)
  {
    hide Holds, Nodes, Distinct, InOrder, Size, Exact, Before, FindNth;
    if r == null {
      Absent(sr, tr);
      return l, sl;
    }
    Taken(r, sr, tr);
    FirstIsFound(tr);
    assert allocated(Nodes(sl));
    ghost var p := PromoteNth(tr, 0);
    top, s' := NodePromoteNth(r, 0, sr, tr);
    Taken(top, s', p);
    SetLeft(top, l, sl, tl, s'.r, p.right);
    s' := At(sl, top, s'.r);
  }

  /** u_bst_node_delete; `found` is *pfound, 0 on entry */
  method NodeDelete<K, V>(node: Node?<K, V>, key: K, cmp: Cmp<K>, ghost s: Shape<K, V>, ghost t: Tree<K, V>)
    returns (top: Node?<K, V>, found: bool, ghost s': Shape<K, V>)
    requires Holds(node, s, t) && Distinct(s)
    modifies Nodes(s)
    ensures Holds(top, s', Delete(t, key, cmp).0)
    ensures Distinct(s') && Nodes(s') <= Nodes(s)
    ensures found == Delete(t, key, cmp).1
    decreases s
  {
    hide Holds, Nodes, Distinct, Minus, JoinLr;
    if node == null {
      Absent(s, t);
      return null, false, s;
    }
    Taken(node, s, t);
    assert allocated(Nodes(s.l)) && allocated(Nodes(s.r));
    top, found, s' := node, false, s;
    ghost var t' := t;
    var rc := cmp(key, node.key);
    if rc < 0 {
      t' := t.(left := Delete(t.left, key, cmp).0);
      var child;
      ghost var l;
      child, found, l := NodeDelete(node.left, key, cmp, s.l, t.left);
      SetLeft(node, child, l, t'.left, s.r, t.right);
      s' := At(l, node, s.r);
    }
    if rc > 0 {
      t' := t.(right := Delete(t.right, key, cmp).0);
      var child;
      ghost var r;
      child, found, r := NodeDelete(node.right, key, cmp, s.r, t.right);
      SetRight(node, child, s.l, t.left, r, t'.right);
      s' := At(s.l, node, r);
    }
    if rc == 0 {
      t' := JoinLr(t.left, t.right);
      top, s' := NodeJoinLr(node.left, node.right, s.l, s.r, t.left, t.right);
      found := true;
    }
    CountLess(top, found, s', t');
  }

  /** The end of u_bst_node_delete */
  method CountLess<K, V>(top: Node?<K, V>, found: bool, ghost s: Shape<K, V>, ghost t: Tree<K, V>)
    requires Holds(top, s, t) && Distinct(s)
    modifies Nodes(s)
    ensures Holds(top, s, if t.Fork? && found then t.(nelem := Minus(t.nelem, 1)) else t)
  {
    hide Minus;
    if top != null && found {
      SetCount(top, Minus(top.nelem, 1), s, t);
    }
  }

  /** u_bst_node_balance */
  method NodeBalance<K, V>(node: Node?<K, V>, ghost s: Shape<K, V>, ghost t: Tree<K, V>)
    returns (top: Node?<K, V>, ghost s': Shape<K, V>)
    requires Holds(node, s, t) && Distinct(s) && CanBalance(t)
    modifies Nodes(s)
    ensures Holds(top, s', Balance(t))
    ensures Distinct(s') && Nodes(s') == Nodes(s)
    decreases Size(t), 1
  {
    if node == null || node.nelem < 2 {
      return node, s;
    }
    ghost var p := PromoteNth(t, t.nelem / 2);
    top, s' := NodePromoteNth(node, node.nelem / 2, s, t);
    s' := BalanceSubtrees(top, s', p);
  }

  /** The recursive part of u_bst_node_balance, below the promoted median. */
  method BalanceSubtrees<K, V>(top: Node<K, V>, ghost s: Shape<K, V>, ghost t: Tree<K, V>)
    returns (ghost s': Shape<K, V>)
    requires Holds(top, s, t) && Distinct(s) && CanBalance(t.left) && CanBalance(t.right)
    modifies Nodes(s)
    ensures Holds(top, s', Fork(Balance(t.left), t.e, t.nelem, Balance(t.right)))
    ensures Distinct(s') && Nodes(s') == Nodes(s)
    decreases Size(t), 0
  {
    hide Holds, Nodes, Distinct, Balance, CanBalance, Exact;
    Taken(top, s, t);
    assert allocated(Nodes(s.l)) && allocated(Nodes(s.r));
    var left, l := NodeBalance(top.left, s.l, t.left);
    SetLeft(top, left, l, Balance(t.left), s.r, t.right);
    assert allocated(Nodes(l));
    Taken(top, At(l, top, s.r), Fork(Balance(t.left), t.e, t.nelem, t.right));
    var right, r := NodeBalance(top.right, s.r, t.right);
    SetRight(top, right, l, Balance(t.left), r, Balance(t.right));
    s' := At(l, top, r);
  }

  // ---------- Read-only walks ----------

  /** u_bst_node_search */
  function NodeSearch<K, V>(node: Node?<K, V>, key: K, cmp: Cmp<K>, ghost s: Shape<K, V>,
                            ghost t: Tree<K, V>): (r: Node?<K, V>)
    requires Holds(node, s, t)
    reads Nodes(s)
    ensures r == null <==> Search(t, key, cmp).Nil?
    ensures r != null ==> r in Nodes(s) && Search(t, key, cmp).e == Entry(r.key, r.val)
    decreases s
  {
    if node == null then null
    else
      var rc := cmp(key, node.key);
      if rc == 0 then node
      else if rc > 0 then NodeSearch(node.right, key, cmp, s.r, t.right)
      else NodeSearch(node.left, key, cmp, s.l, t.left)
  }

  /** u_bst_node_find_nth */
  function NodeFindNth<K, V>(node: Node?<K, V>, n: nat, ghost s: Shape<K, V>, ghost t: Tree<K, V>): (r: Node?<K, V>)
    requires Holds(node, s, t)
    reads Nodes(s)
    ensures r == null <==> FindNth(t, n).Nil?
    ensures r != null ==> r in Nodes(s) && FindNth(t, n).e == Entry(r.key, r.val)
    decreases s
  {
    if node == null then null
    else
      Counted(node.left, s.l, t.left);
      var k := if node.left == null then 0 else node.left.nelem;
      if k > n then NodeFindNth(node.left, n, s.l, t.left)
      else if k < n then NodeFindNth(node.right, n - (k + 1), s.r, t.right)
      else node
  }

  /** u_bst_node_foreach with a callback that appends each visited node to a log */
  method NodeForeach<K, V>(node: Node?<K, V>, log: seq<Entry<K, V>>, ghost s: Shape<K, V>, ghost t: Tree<K, V>)
    returns (log': seq<Entry<K, V>>)
    requires Holds(node, s, t)
    ensures log' == log + InOrder(t)
    decreases s
  {
    log' := log;
    if node == null {
      return;
    }
    assert allocated(Nodes(s.r));
    log' := NodeForeach(node.left, log', s.l, t.left);
    log' := log' + [Entry(node.key, node.val)];
    log' := NodeForeach(node.right, log', s.r, t.right);
    assert log' == log + (InOrder(t.left) + [t.e] + InOrder(t.right));
  }

  // ---------- The tree object ----------

  lemma NthWhenExact<K, V>(t: Tree<K, V>, n: nat)
    ensures Exact(t) ==> (FindNth(t, n).Nil? <==> n >= |InOrder(t)|) && (FindNth(t, n).Fork? ==> Before(t, n) == n)
  {
    if Exact(t) {
      FindNthLaws(t, n);
    }
  }

  lemma BalancedWhenExact<K, V>(t: Tree<K, V>)
    requires CanBalance(t)
    ensures InOrder(Balance(t)) == InOrder(t)
    ensures Exact(t) ==> Exact(Balance(t)) && EvenlySplit(Balance(t)) && (Balance(t).Fork? <==> InOrder(t) != [])
    ensures Exact(t) && InOrder(t) != [] ==> Height(Balance(t)) == Log2(|InOrder(t)|) + 1
  {
    InOrderSize(t);
    if Exact(t) {
      BalanceLaws(t);
      if t.Fork? {
        BalanceIsOptimal(t, t);
      }
    }
  }

  class Bst<K(!new), V> {
    const cmp: Cmp<K>
    const randomized: bool  // U_BST_OPT_RANDOMIZED
    const pushTop: bool     // U_BST_OPT_PUSH_TOP
    var root: Node?<K, V>
    ghost var plan: Shape<K, V>
    ghost var tree: Tree<K, V>

    ghost predicate Valid()
      reads this, Nodes(plan)
    {
      Holds(root, plan, tree) && Distinct(plan) && TotalPreorder(cmp)
    }

    ghost function Entries(): seq<Entry<K, V>>
      reads this
    {
      InOrder(tree)
    }

    ghost predicate InOrderOfKeys()
      reads this
    {
      Sorted(InOrder(tree), cmp)
    }

    ghost predicate CountersExact()
      reads this
    {
      Exact(tree)
    }

    /** u_bst_new */
    constructor (cmp: Cmp<K>, randomized: bool, pushTop: bool)
      requires TotalPreorder(cmp)
      ensures Valid() && fresh(Nodes(plan)) && Entries() == [] && InOrderOfKeys() && CountersExact()
      ensures this.cmp == cmp && this.randomized == randomized && this.pushTop == pushTop
    {
      this.cmp, this.randomized, this.pushTop := cmp, randomized, pushTop;
      root, plan, tree := null, Empty, Nil;
    }

    /** Do the options, and the draw, put a new entry at the root? */
    ghost predicate ToRoot(toss: nat)
      reads this
    {
      if randomized then DrawnToRoot(tree, toss) else pushTop
    }

    /** u_bst_push: under every option and every draw, the entry goes after all entries not greater
        than it, and exact counters stay exact.  Options and draw decide whether it goes to the root or
        becomes a leaf, and so which of the entries with its key is found. */
    method Push(key: K, val: V, toss: nat)
      requires Valid() && InOrderOfKeys()
      modifies this, Nodes(plan)
      ensures Valid() && InOrderOfKeys()
      ensures forall x :: x in Nodes(plan) ==> x in old(Nodes(plan)) || fresh(x)
      ensures Inserted(old(Entries()), Entry(key, val), cmp, Entries())
      ensures old(CountersExact()) ==> CountersExact()
      ensures Placed(old(tree), Entry(key, val), cmp, tree, old(ToRoot(toss)))
    {
      hide Inserted, Sorted, InOrder, Exact, PushBottom, PushTop, PushRand, Nodes, Placed;
      PushLaws(tree, Entry(key, val), cmp, toss);
      PoliciesPlace(tree, Entry(key, val), cmp, toss);
      if randomized {
        root, plan := NodePushRand(root, key, val, cmp, toss, plan, tree);
        tree := PushRand(tree, Entry(key, val), cmp, toss);
      } else if pushTop {
        root, plan := NodePushTop(root, key, val, cmp, plan, tree);
        tree := PushTop(tree, Entry(key, val), cmp);
      } else {
        root, plan := NodePushBottom(root, key, val, cmp, plan, tree);
        tree := PushBottom(tree, Entry(key, val), cmp);
      }
    }

    /** u_bst_delete, on a tree whose counters may be inexact: one entry is removed exactly when the
        counters lose none, as exact ones do not. */
    method Delete(key: K) returns (found: bool)
      requires Valid() && InOrderOfKeys()
      modifies this, Nodes(plan)
      ensures Valid() && InOrderOfKeys() && Nodes(plan) <= old(Nodes(plan))
      ensures found <==> exists x :: x in old(Entries()) && cmp(key, x.key) == 0
      ensures found ==>
        var x := BstTree.Search(old(tree), key, cmp);
        && x.Fork? && cmp(key, x.e.key) == 0
        && Removed(old(Entries()), x.e, Lost(old(tree), key, cmp), Entries())
        && (Removed(old(Entries()), x.e, 0, Entries()) <==> Lost(old(tree), key, cmp) == 0)
      ensures !found ==> tree == old(tree)
      ensures old(CountersExact()) ==>
        && Lost(old(tree), key, cmp) == 0
        && (CountersExact() <==> var x := BstTree.Search(old(tree), key, cmp); x.Nil? || (x.left.Nil? && x.right.Nil?))
    {
      hide Removed, Sorted, InOrder, Exact, BstTree.Search, BstTree.Delete, Lost;
      DeleteLaws(tree, key, cmp);
      if CountersExact() {
        DeleteKeepsCounters(tree, key, cmp);
        ExactLosesNothing(tree, key, cmp);
      }
      root, found, plan := NodeDelete(root, key, cmp, plan, tree);
      tree := BstTree.Delete(tree, key, cmp).0;
    }

    /** u_bst_search */
    function Search(key: K): (r: Node?<K, V>)
      requires Valid() && InOrderOfKeys()
      reads this, Nodes(plan)
      ensures r == null <==> forall x :: x in Entries() ==> cmp(key, x.key) != 0
      ensures r != null ==> Entry(r.key, r.val) in Entries() && cmp(key, r.key) == 0
      ensures r != null ==> BstTree.Search(tree, key, cmp).Fork? &&
                            BstTree.Search(tree, key, cmp).e == Entry(r.key, r.val)
    {
      SearchLaws(tree, key, cmp);
      NodeSearch(root, key, cmp, plan, tree)
    }

    /** u_bst_find_nth: the entry that the counters lead to, which is the n-th when they are exact */
    function FindNth(n: nat): (r: Node?<K, V>)
      requires Valid()
      reads this, Nodes(plan)
      ensures r == null <==> BstTree.FindNth(tree, n).Nil?
      ensures r != null ==> Before(tree, n) < |Entries()| && Entry(r.key, r.val) == Entries()[Before(tree, n)]
      ensures CountersExact() ==> (r == null <==> n >= |Entries()|) && (r != null ==> Before(tree, n) == n)
    {
      FindNthIs(tree, n);
      NthWhenExact(tree, n);
      NodeFindNth(root, n, plan, tree)
    }

    /** u_bst_count: what the root has counted, which is all entries when counters are exact */
    function Count(): (n: nat)
      requires Valid()
      reads this, Nodes(plan)
      ensures n == Cnt(tree) && (CountersExact() ==> n == |Entries()|)
    {
      InOrderSize(tree);
      Counted(root, plan, tree);
      if root == null then 0 else root.nelem
    }

    /** u_bst_foreach, the callback logging what it is given */
    method Foreach() returns (log: seq<Entry<K, V>>)
      requires Valid()
      ensures log == Entries()
    {
      log := NodeForeach(root, [], plan, tree);
    }

    /** u_bst_balance: same entries whenever the counters allow it; with exact counters, which allow it and
        stay exact, no tree of as many nodes is shorter afterwards. */
    method Balance()
      requires Valid() && CanBalance(tree)
      modifies this, Nodes(plan)
      ensures Valid() && Nodes(plan) == old(Nodes(plan)) && Entries() == old(Entries())
      ensures old(CountersExact()) ==>
        CountersExact() && EvenlySplit(tree) && (Entries() != [] ==> Height(tree) == Log2(|Entries()|) + 1)
    {
      hide Holds, Distinct, InOrder, Exact, EvenlySplit, CanBalance, BstTree.Balance, Log2, Height, Nodes;
      BalancedWhenExact(tree);
      root, plan := NodeBalance(root, plan, tree);
      tree := BstTree.Balance(tree);
    }
  }
}

/**
 What the test sequencer of srcs/toolbox/test.c computes: test objects are picked one by one, each
 after everything it depends on, and ranked.  The laws say when this succeeds and what the ranks mean.
 */
module SequencerSpec {
  import opened Wrappers

  /** A test object (case or suite): its identifier and those of its dependencies, in list order. */
  datatype Node = Node(id: string, deps: seq<string>)

  type Graph = seq<Node>

  /** The ranks given so far, the identifiers already sequenced, and the depth reached. */
  datatype State = State(rank: seq<nat>, done: set<string>, currank: nat)

  ghost predicate UniqueIds(g: Graph) {
    forall i, j :: 0 <= i < j < |g| ==> g[i].id != g[j].id
  }

  function Ids(g: Graph): set<string> { set i | 0 <= i < |g| :: g[i].id }

  predicate DependsOn(g: Graph, i: nat, j: nat) {
    i < |g| && j < |g| && g[j].id in g[i].deps
  }

  /** Evicting an object resolves, of every dependency list, the first record that names it. */
  predicate Resolved(n: Node, done: set<string>, j: nat)
    requires j < |n.deps|
  {
    n.deps[j] in done && n.deps[j] !in n.deps[..j]
  }

  predicate Ready(g: Graph, done: set<string>, i: nat)
    requires i < |g|
  {
    g[i].id !in done && forall j :: 0 <= j < |g[i].deps| ==> Resolved(g[i], done, j)
  }

  /** The first object from `from` on that is ready, or the length of the list. */
  function Top(g: Graph, done: set<string>, from: nat): (i: nat)
    requires from <= |g|
    ensures from <= i <= |g|
    ensures i < |g| ==> Ready(g, done, i)
    ensures forall k :: from <= k < i ==> !Ready(g, done, k)
    decreases |g| - from
  {
    if from == |g| || Ready(g, done, from) then from else Top(g, done, from + 1)
  }

  /** Object `i` is sequenced; those that depend on it get the rank behind the depth reached. */
  function Evict(g: Graph, s: State, i: nat): (s': State)
    requires i < |g| == |s.rank|
    ensures |s'.rank| == |g| && s'.done == s.done + {g[i].id} && s'.currank == Max(s.rank[i], s.currank)
    ensures forall k :: 0 <= k < |g| ==>
      s'.rank[k] == if g[i].id in g[k].deps then s'.currank + 1 else s.rank[k]
  {
    var c := Max(s.rank[i], s.currank);
    State(seq(|g|, k requires 0 <= k < |g| => if g[i].id in g[k].deps then c + 1 else s.rank[k]),
          s.done + {g[i].id}, c)
  }

  function Sequence(g: Graph, s: State): (s': State)
    requires |s.rank| == |g|
    ensures |s'.rank| == |g|
    decreases Ids(g) - s.done
  {
    var i := Top(g, s.done, 0);
    if i == |g| then s
    else
      assert g[i].id in Ids(g) - s.done;
      Sequence(g, Evict(g, s, i))
  }

  function Initial(g: Graph): State { State(seq(|g|, _ => 0), {}, 0) }

  function Sequenced(g: Graph): State { Sequence(g, Initial(g)) }

  predicate Succeeds(g: Graph) { forall i :: 0 <= i < |g| ==> g[i].id in Sequenced(g).done }

  // ---------- What every step keeps ----------

  /** Sequenced objects have all they depend on sequenced before them. */
  ghost predicate Closed(g: Graph, done: set<string>) {
    && done <= Ids(g)
    && forall i, d :: 0 <= i < |g| && g[i].id in done && d in g[i].deps ==> d in done
  }

  /** An object ranks above the sequenced ones it depends on, and above 0 only because of such one. */
  ghost predicate Ascending(g: Graph, s: State)
    requires |s.rank| == |g|
  {
    && (forall i: nat, j: nat :: DependsOn(g, i, j) && g[j].id in s.done ==> s.rank[j] < s.rank[i])
    && (forall i :: 0 <= i < |g| && s.rank[i] > 0 ==> exists d :: d in g[i].deps && d in s.done)
  }

  /** The depth reached is the highest rank of a sequenced object; every rank up to it is in use. */
  ghost predicate Bounded(g: Graph, s: State)
    requires |s.rank| == |g|
  {
    && (forall i :: 0 <= i < |g| ==> s.rank[i] <= if g[i].id in s.done then s.currank else s.currank + 1)
    && (forall r :: 0 <= r <= s.currank && s.done != {} ==> RankInUse(g, s, r))
    && (s.done == {} ==> s.currank == 0)
  }

  ghost predicate Ranked(g: Graph, s: State) {
    |s.rank| == |g| && Closed(g, s.done) && Ascending(g, s) && Bounded(g, s)
  }

  ghost predicate RankInUse(g: Graph, s: State, r: nat)
    requires |s.rank| == |g|
  {
    exists i :: 0 <= i < |g| && g[i].id in s.done && s.rank[i] == r
  }

  /** An object picked does not depend on itself, nor does any sequenced object on it. */
  lemma PickedIsFree(g: Graph, s: State, i: nat)
    requires Ranked(g, s) && i < |g| && Ready(g, s.done, i)
    ensures forall d :: d in g[i].deps ==> d in s.done
    ensures g[i].id !in g[i].deps
    ensures forall k :: 0 <= k < |g| && g[k].id in s.done ==> g[i].id !in g[k].deps
  {
    forall d | d in g[i].deps ensures d in s.done {
      var j :| 0 <= j < |g[i].deps| && g[i].deps[j] == d;
      assert Resolved(g[i], s.done, j);
    }
  }

  lemma EvictKeepsClosed(g: Graph, s: State, i: nat)
    requires UniqueIds(g) && Ranked(g, s) && i < |g| && Ready(g, s.done, i)
    ensures Closed(g, Evict(g, s, i).done)
  {
    PickedIsFree(g, s, i);
    assert g[i].id in Ids(g);
    forall k, d | 0 <= k < |g| && g[k].id in s.done + {g[i].id} && d in g[k].deps ensures d in s.done {
      assert k != i ==> g[k].id != g[i].id;
    }
  }

  lemma EvictKeepsBounded(g: Graph, s: State, i: nat)
    requires UniqueIds(g) && Ranked(g, s) && i < |g| && Ready(g, s.done, i)
    ensures Bounded(g, Evict(g, s, i))
  {
    var s' := Evict(g, s, i);
    PickedIsFree(g, s, i);
    assert g[i].id in s'.done && s'.rank[i] == s.rank[i];
    forall r | 0 <= r <= s'.currank ensures RankInUse(g, s', r) {
      if r <= s.currank && s.done != {} {
        assert RankInUse(g, s, r);
        var k :| 0 <= k < |g| && g[k].id in s.done && s.rank[k] == r;
        assert s'.rank[k] == r;
      } else {
        assert s.done == {} ==> s.rank[i] == 0;
        assert s.rank[i] == r;
      }
    }
  }

  lemma EvictKeepsAscending(g: Graph, s: State, i: nat)
    requires UniqueIds(g) && Ranked(g, s) && i < |g| && Ready(g, s.done, i)
    ensures Ascending(g, Evict(g, s, i))
  {
    hide Closed, RankInUse;
    var s' := Evict(g, s, i);
    PickedIsFree(g, s, i);
    forall a: nat, b: nat | DependsOn(g, a, b) && g[b].id in s'.done ensures s'.rank[b] < s'.rank[a] {
      assert b != i ==> g[b].id != g[i].id;
    }
    forall k | 0 <= k < |g| && s'.rank[k] > 0 ensures exists d :: d in g[k].deps && d in s'.done {
      if g[i].id in g[k].deps {
        assert g[i].id in s'.done;
      }
    }
  }

  lemma EvictKeepsRanked(g: Graph, s: State, i: nat)
    requires UniqueIds(g) && Ranked(g, s) && i < |g| && Ready(g, s.done, i)
    ensures Ranked(g, Evict(g, s, i))
  {
    EvictKeepsClosed(g, s, i);
    EvictKeepsAscending(g, s, i);
    EvictKeepsBounded(g, s, i);
  }

  lemma {:induction false} SequenceKeepsRanked(g: Graph, s: State)
    requires UniqueIds(g) && Ranked(g, s)
    ensures Ranked(g, Sequence(g, s)) && Top(g, Sequence(g, s).done, 0) == |g|
    decreases Ids(g) - s.done
  {
    var i := Top(g, s.done, 0);
    if i < |g| {
      EvictKeepsRanked(g, s, i);
      assert g[i].id in Ids(g) - s.done;
      SequenceKeepsRanked(g, Evict(g, s, i));
    }
  }

  lemma SequencedIsRanked(g: Graph)
    requires UniqueIds(g)
    ensures Ranked(g, Sequenced(g)) && Top(g, Sequenced(g).done, 0) == |g|
  {
    SequenceKeepsRanked(g, Initial(g));
  }

  // ---------- When sequencing succeeds ----------

  /** Each object depends on the next. */
  ghost predicate Chain(g: Graph, p: seq<nat>) {
    && p != [] && (forall k :: 0 <= k < |p| ==> p[k] < |g|)
    && forall k :: 0 <= k < |p| - 1 ==> DependsOn(g, p[k], p[k + 1])
  }

  ghost predicate Cycle(g: Graph, p: seq<nat>) {
    Chain(g, p) && |p| >= 2 && p[0] == p[|p| - 1]
  }

  /** Every dependency names an object, and none is listed twice for the same object. */
  predicate WellNamed(g: Graph) {
    forall i, j :: 0 <= i < |g| && 0 <= j < |g[i].deps| ==>
      g[i].deps[j] in Ids(g) && g[i].deps[j] !in g[i].deps[..j]
  }

  /** Ranks grow along chains by at least one a step: no object ranks below its depth. */
  lemma {:induction false} RanksGrow(g: Graph, p: seq<nat>)
    requires UniqueIds(g) && Succeeds(g) && Chain(g, p)
    ensures Sequenced(g).rank[p[0]] >= Sequenced(g).rank[p[|p| - 1]] + |p| - 1
    decreases |p|
  {
    if |p| > 1 {
      SequencedIsRanked(g);
      RanksGrow(g, p[1..]);
      assert DependsOn(g, p[0], p[1]);
    }
  }

  lemma SuccessIsOrdered(g: Graph)
    requires UniqueIds(g) && Succeeds(g)
    ensures WellNamed(g) && forall p :: !Cycle(g, p)
  {
    SequencedIsRanked(g);
    forall i, j | 0 <= i < |g| && 0 <= j < |g[i].deps|
      ensures g[i].deps[j] in Ids(g) && g[i].deps[j] !in g[i].deps[..j]
    {
      PickedOnce(g, Initial(g), i);
      assert Resolved(g[i], Sequenced(g).done, j);
    }
    forall p ensures !Cycle(g, p) {
      if Cycle(g, p) {
        RanksGrow(g, p);
      }
    }
  }

  /** What got sequenced had all its records resolved. */
  lemma {:induction false} PickedOnce(g: Graph, s: State, i: nat)
    requires UniqueIds(g) && |s.rank| == |g| && i < |g| && g[i].id !in s.done && g[i].id in Sequence(g, s).done
    ensures s.done <= Sequence(g, s).done
    ensures forall j :: 0 <= j < |g[i].deps| ==> Resolved(g[i], Sequence(g, s).done, j)
    decreases Ids(g) - s.done
  {
    var t := Top(g, s.done, 0);
    var s' := Evict(g, s, t);
    assert g[t].id in Ids(g) - s.done;
    DoneGrows(g, s');
    if t != i {
      assert g[t].id != g[i].id;
      PickedOnce(g, s', i);
    } else {
      forall j | 0 <= j < |g[i].deps| ensures Resolved(g[i], Sequence(g, s).done, j) {
        assert Resolved(g[i], s.done, j);
      }
    }
  }

  lemma {:induction false} DoneGrows(g: Graph, s: State)
    requires |s.rank| == |g|
    ensures s.done <= Sequence(g, s).done
    decreases Ids(g) - s.done
  {
    var t := Top(g, s.done, 0);
    if t < |g| {
      assert g[t].id in Ids(g) - s.done;
      DoneGrows(g, Evict(g, s, t));
    }
  }

  /** When nothing is ready, every object left waits for another one that is left. */
  lemma WaitsFor(g: Graph, s: State, i: nat) returns (j: nat)
    requires WellNamed(g) && Top(g, s.done, 0) == |g| && i < |g| && g[i].id !in s.done
    ensures DependsOn(g, i, j) && g[j].id !in s.done
  {
    assert !Ready(g, s.done, i);
    var k :| 0 <= k < |g[i].deps| && !Resolved(g[i], s.done, k);
    var d := g[i].deps[k];
    assert d in Ids(g);
    j :| 0 <= j < |g| && g[j].id == d;
  }

  lemma {:induction false} Wander(g: Graph, s: State, i: nat, n: nat) returns (p: seq<nat>)
    requires WellNamed(g) && Top(g, s.done, 0) == |g| && i < |g| && g[i].id !in s.done
    ensures Chain(g, p) && |p| == n + 1 && p[0] == i
    decreases n
  {
    p := [i];
    if n > 0 {
      var j := WaitsFor(g, s, i);
      var q := Wander(g, s, j, n - 1);
      p := [i] + q;
    }
  }

  /** More than `n` numbers below `n`: one of them comes twice. */
  lemma {:induction false} Pigeonhole(p: seq<nat>, n: nat) returns (a: nat, b: nat)
    requires |p| > n && forall k :: 0 <= k < |p| ==> p[k] < n
    ensures a < b < |p| && p[a] == p[b]
    decreases n
  {
    var last := |p| - 1;
    if k :| 0 <= k < last && p[k] == p[last] {
      a, b := k, last;
    } else {
      // The largest number, n - 1, gives way to the last one, which does not come again.
      var q := seq(last, k requires 0 <= k < last => if p[k] == n - 1 then p[last] else p[k]);
      a, b := Pigeonhole(q, n - 1);
    }
  }

  lemma ChainPart(g: Graph, p: seq<nat>, a: nat, b: nat)
    requires Chain(g, p) && a < b < |p| && p[a] == p[b]
    ensures Cycle(g, p[a..b + 1])
  {
  }

  lemma OrderedSucceeds(g: Graph)
    requires UniqueIds(g) && WellNamed(g) && forall p :: !Cycle(g, p)
    ensures Succeeds(g)
  {
    hide WellNamed, Cycle, Sequenced, Ranked;
    SequencedIsRanked(g);
    if i :| 0 <= i < |g| && g[i].id !in Sequenced(g).done {
      var p := Wander(g, Sequenced(g), i, |g|);
      var a, b := Pigeonhole(p, |g|);
      ChainPart(g, p, a, b);
    }
  }

  /** The sequencer succeeds exactly when every dependency names an object, none is recorded twice,
      and no objects depend on each other in a circle. */
  lemma SucceedsIffOrdered(g: Graph)
    requires UniqueIds(g)
    ensures Succeeds(g) <==> WellNamed(g) && !exists p :: Cycle(g, p)
  {
    if Succeeds(g) {
      SuccessIsOrdered(g);
    } else if WellNamed(g) && !exists p :: Cycle(g, p) {
      OrderedSucceeds(g);
    }
  }

  lemma RankZero(g: Graph, i: nat)
    requires UniqueIds(g) && Succeeds(g) && i < |g|
    ensures Sequenced(g).rank[i] == 0 <==> g[i].deps == []
  {
    SequencedIsRanked(g);
    SuccessIsOrdered(g);
    if g[i].deps != [] {
      assert g[i].deps[0] in Ids(g);
      var j: nat :| j < |g| && g[j].id == g[i].deps[0];
      assert DependsOn(g, i, j);
    }
  }

  /** On success ranks respect the dependencies, only objects without any rank lowest, and `currank`
      is the highest rank, every rank below it being in use. */
  lemma SuccessRanks(g: Graph)
    requires UniqueIds(g) && Succeeds(g) && g != []
    ensures var s := Sequenced(g);
            && (forall i: nat, j: nat :: DependsOn(g, i, j) ==> s.rank[j] < s.rank[i])
            && (forall i :: 0 <= i < |g| ==> s.rank[i] <= s.currank)
            && (forall i :: 0 <= i < |g| ==> (s.rank[i] == 0 <==> g[i].deps == []))
            && (forall r :: 0 <= r <= s.currank ==> r in s.rank)
  {
    var s := Sequenced(g);
    SequencedIsRanked(g);
    assert g[0].id in s.done;
    forall i | 0 <= i < |g| ensures s.rank[i] == 0 <==> g[i].deps == [] {
      RankZero(g, i);
    }
    forall r | 0 <= r <= s.currank ensures r in s.rank {
      assert RankInUse(g, s, r);
    }
  }

  /** Objects at the same depth need not share a rank: in a list like this one `c` and `e` both depend
      on one object that depends on none, and rank 1 and 3. */
  function Staggered(a: string, b: string, c: string, d: string, e: string): Graph {
    [Node(a, []), Node(c, [a]), Node(d, [c]), Node(b, []), Node(e, [b])]
  }

  lemma Picks(g: Graph, s: State, i: nat, s': State)
    requires i < |g| == |s.rank| && Top(g, s.done, 0) == i
    requires s' == State(s'.rank, s.done + {g[i].id}, Max(s.rank[i], s.currank)) && |s'.rank| == |g|
    requires forall k :: 0 <= k < |g| ==>
      s'.rank[k] == if g[i].id in g[k].deps then s'.currank + 1 else s.rank[k]
    ensures Sequence(g, s) == Sequence(g, s')
  {
    assert s' == Evict(g, s, i);
  }

  lemma TopIs(g: Graph, done: set<string>, i: nat)
    requires i <= |g| && (i < |g| ==> Ready(g, done, i))
    requires forall k :: 0 <= k < i ==> g[k].id in done
    ensures Top(g, done, 0) == i
  {
    var t := Top(g, done, 0);
  }

  lemma SameDepthOtherRank(a: string, b: string, c: string, d: string, e: string)
    requires UniqueIds(Staggered(a, b, c, d, e))
    ensures Sequenced(Staggered(a, b, c, d, e)).rank == [0, 1, 2, 0, 3]
    ensures IsDepth(Staggered(a, b, c, d, e), [0, 1, 2, 0, 1])
  {
    hide Sequence, Top;
    var g := Staggered(a, b, c, d, e);
    assert DependsOn(g, 1, 0) && DependsOn(g, 2, 1) && DependsOn(g, 4, 3);
    assert a != b && a != c && a != d && a != e && b != c && b != d && b != e && c != d && c != e && d != e by {
      assert g[0].id == a && g[1].id == c && g[2].id == d && g[3].id == b && g[4].id == e;
    }
    StaggeredSteps(a, b, c, d, e);
  }

  lemma StaggeredSteps(a: string, b: string, c: string, d: string, e: string)
    requires a != b && a != c && a != d && a != e && b != c && b != d && b != e && c != d && c != e && d != e
    ensures Sequenced(Staggered(a, b, c, d, e)).rank == [0, 1, 2, 0, 3]
  {
    hide Sequence, Top;
    var g := Staggered(a, b, c, d, e);
    var s3, s4 := State([0, 1, 2, 0, 0], {a, c, d}, 2), State([0, 1, 2, 0, 3], {a, c, d, b}, 2);
    var s5 := State([0, 1, 2, 0, 3], {a, c, d, b, e}, 3);
    FirstThreeSteps(a, b, c, d, e);
    TopIs(g, s3.done, 3);
    Picks(g, s3, 3, s4);
    TopIs(g, s4.done, 4);
    Picks(g, s4, 4, s5);
    TopIs(g, s5.done, 5);
    Stops(g, s5);
  }

  lemma FirstThreeSteps(a: string, b: string, c: string, d: string, e: string)
    requires a != b && a != c && a != d && a != e && b != c && b != d && b != e && c != d && c != e && d != e
    ensures var g := Staggered(a, b, c, d, e);
            Sequenced(g) == Sequence(g, State([0, 1, 2, 0, 0], {a, c, d}, 2))
  {
    hide Sequence, Top;
    var g := Staggered(a, b, c, d, e);
    var s1, s2 := State([0, 1, 0, 0, 0], {a}, 0), State([0, 1, 2, 0, 0], {a, c}, 1);
    var s3 := State([0, 1, 2, 0, 0], {a, c, d}, 2);
    TopIs(g, Initial(g).done, 0);
    Picks(g, Initial(g), 0, s1);
    TopIs(g, s1.done, 1);
    Picks(g, s1, 1, s2);
    TopIs(g, s2.done, 2);
    Picks(g, s2, 2, s3);
  }

  lemma Stops(g: Graph, s: State)
    requires |s.rank| == |g| && Top(g, s.done, 0) == |g|
    ensures Sequence(g, s) == s
  {
  }

  // ---------- Ranks and depths ----------

  /** The objects in the order in which they are picked, which the ranks have no part in. */
  function Order(g: Graph, done: set<string>): (p: seq<nat>)
    ensures forall a :: 0 <= a < |p| ==> p[a] < |g|
    decreases Ids(g) - done
  {
    var i := Top(g, done, 0);
    if i == |g| then []
    else
      assert g[i].id in Ids(g) - done;
      [i] + Order(g, done + {g[i].id})
  }

  /** Object `i` depends on the pick at place `b`, and the one at place `a` is made no later. */
  predicate Behind(g: Graph, p: seq<nat>, i: nat, a: nat, b: nat) {
    a <= b < |p| && DependsOn(g, i, p[b])
  }

  function PickedIds(g: Graph, p: seq<nat>): set<string>
    requires forall a :: 0 <= a < |p| ==> p[a] < |g|
  {
    set a | 0 <= a < |p| :: g[p[a]].id
  }

  ghost predicate RanksAbove(g: Graph, rank: seq<nat>, p: seq<nat>, i: nat)
    requires i < |g| == |rank| && forall a :: 0 <= a < |p| ==> p[a] < |g|
  {
    && (forall a: nat, b: nat :: Behind(g, p, i, a, b) ==> rank[p[a]] < rank[i])
    && (rank[i] > 0 ==> exists a: nat, b: nat :: Behind(g, p, i, a, b) && rank[i] == rank[p[a]] + 1)
  }

  /** The ranks when the objects in `p` have been picked: each is one more than the highest rank among
      the picks up to the last one that the object depends on. */
  ghost predicate RanksBehind(g: Graph, s: State, p: seq<nat>) {
    && |s.rank| == |g| && (forall a :: 0 <= a < |p| ==> p[a] < |g|)
    && s.done == PickedIds(g, p)
    && (forall a :: 0 <= a < |p| ==> s.rank[p[a]] <= s.currank)
    && (if p == [] then s.currank == 0 else exists a :: 0 <= a < |p| && s.rank[p[a]] == s.currank)
    && forall i :: 0 <= i < |g| ==> RanksAbove(g, s.rank, p, i)
  }

  lemma EvictKeepsRanksAbove(g: Graph, s: State, p: seq<nat>, i: nat, k: nat)
    requires UniqueIds(g) && Ranked(g, s) && RanksBehind(g, s, p) && i < |g| && Ready(g, s.done, i) && k < |g|
    ensures RanksAbove(g, Evict(g, s, i).rank, p + [i], k)
  {
    hide Ranked, Closed, Ascending, Bounded, UniqueIds, Ready;
    var s', p' := Evict(g, s, i), p + [i];
    PicksKeepRanks(g, s, p, i);
    if g[i].id in g[k].deps {
      var a :| 0 <= a < |p'| && s'.rank[p'[a]] == s'.currank;
      assert Behind(g, p', k, a, |p|);
    } else {
      assert RanksAbove(g, s.rank, p, k);
      forall a: nat, b: nat | Behind(g, p', k, a, b) ensures s'.rank[p'[a]] < s'.rank[k] {
        assert p'[|p|] == i && b < |p| && Behind(g, p, k, a, b);
      }
      if s.rank[k] > 0 {
        var a: nat, b: nat :| Behind(g, p, k, a, b) && s.rank[k] == s.rank[p[a]] + 1;
        assert Behind(g, p', k, a, b);
      }
    }
  }

  /** What has been picked keeps its rank, and one of the picks has the rank reached. */
  lemma PicksKeepRanks(g: Graph, s: State, p: seq<nat>, i: nat)
    requires UniqueIds(g) && Ranked(g, s) && RanksBehind(g, s, p) && i < |g| && Ready(g, s.done, i)
    ensures var s', p' := Evict(g, s, i), p + [i];
            && (forall a :: 0 <= a < |p'| ==> s'.rank[p'[a]] == s.rank[p'[a]] <= s'.currank)
            && (exists a :: 0 <= a < |p'| && s'.rank[p'[a]] == s'.currank)
            && s'.done == PickedIds(g, p')
  {
    PickedIsFree(g, s, i);
    hide UniqueIds, Ranked, Ready, RanksAbove, PickedIds;
    var s', p' := Evict(g, s, i), p + [i];
    OneMorePicked(g, p, i);
    forall a | 0 <= a < |p'| ensures s'.rank[p'[a]] == s.rank[p'[a]] <= s'.currank {
      assert a < |p| ==> p'[a] == p[a] && g[p[a]].id in s.done;
    }
    if s.rank[i] < s.currank {
      var a :| 0 <= a < |p| && s.rank[p[a]] == s.currank;
      assert s'.rank[p'[a]] == s'.currank;
    } else {
      assert s'.rank[p'[|p|]] == s'.currank;
    }
  }

  lemma OneMorePicked(g: Graph, p: seq<nat>, i: nat)
    requires i < |g| && forall a :: 0 <= a < |p| ==> p[a] < |g|
    ensures PickedIds(g, p + [i]) == PickedIds(g, p) + {g[i].id}
    ensures forall a :: 0 <= a < |p| ==> g[p[a]].id in PickedIds(g, p)
  {
    var p' := p + [i];
    forall x | x in PickedIds(g, p) + {g[i].id} ensures x in PickedIds(g, p') {
      if x == g[i].id {
        assert g[p'[|p|]].id == x;
      } else {
        var a :| 0 <= a < |p| && g[p[a]].id == x;
        assert g[p'[a]].id == x;
      }
    }
  }

  lemma EvictKeepsRanksBehind(g: Graph, s: State, p: seq<nat>, i: nat)
    requires UniqueIds(g) && Ranked(g, s) && RanksBehind(g, s, p) && i < |g| && Ready(g, s.done, i)
    ensures RanksBehind(g, Evict(g, s, i), p + [i])
  {
    hide Ranked, UniqueIds, Ready, RanksAbove;
    PicksKeepRanks(g, s, p, i);
    forall k | 0 <= k < |g| ensures RanksAbove(g, Evict(g, s, i).rank, p + [i], k) {
      EvictKeepsRanksAbove(g, s, p, i, k);
    }
  }

  lemma {:induction false} SequenceKeepsRanksBehind(g: Graph, s: State, p: seq<nat>)
    requires UniqueIds(g) && Ranked(g, s) && RanksBehind(g, s, p) && |s.rank| == |g|
    ensures RanksBehind(g, Sequence(g, s), p + Order(g, s.done))
    decreases Ids(g) - s.done
  {
    hide Ranked, UniqueIds, RanksBehind;
    var i := Top(g, s.done, 0);
    if i == |g| {
      assert p + [] == p;
    } else {
      var s' := Evict(g, s, i);
      assert g[i].id in Ids(g) - s.done;
      EvictKeepsRanked(g, s, i);
      EvictKeepsRanksBehind(g, s, p, i);
      SequenceKeepsRanksBehind(g, s', p + [i]);
      assert p + [i] + Order(g, s'.done) == p + ([i] + Order(g, s'.done));
    }
  }

  /** An object's rank is one more than the highest rank among the objects picked up to the last one it
      depends on, and 0 if it depends on none. */
  lemma RankIsBehind(g: Graph)
    requires UniqueIds(g)
    ensures forall i :: 0 <= i < |g| ==> RanksAbove(g, Sequenced(g).rank, Order(g, {}), i)
  {
    hide Sequence, Order, RanksAbove, UniqueIds, Closed, Ascending, Bounded;
    var s := Initial(g);
    NothingBehind(g);
    SequenceKeepsRanksBehind(g, s, []);
    assert [] + Order(g, {}) == Order(g, {});
  }

  lemma NothingBehind(g: Graph)
    ensures Ranked(g, Initial(g)) && RanksBehind(g, Initial(g), [])
  {
  }

  /** `depth` gives each object the length of its longest chain of dependencies. */
  ghost predicate IsDepth(g: Graph, depth: seq<nat>) {
    && |depth| == |g|
    && (forall i: nat, j: nat :: DependsOn(g, i, j) ==> depth[j] < depth[i])
    && (forall i: nat :: i < |g| && depth[i] > 0 ==> exists j: nat :: DependsOn(g, i, j) && depth[j] + 1 == depth[i])
  }

  /** Up to the last one that an object depends on, only objects less deep than it are picked. */
  ghost predicate PickedByDepth(g: Graph, depth: seq<nat>)
    requires |depth| == |g|
  {
    forall i: nat, a: nat, b: nat :: i < |g| && Behind(g, Order(g, {}), i, a, b) ==> depth[Order(g, {})[a]] < depth[i]
  }

  lemma {:induction false} DepthsGrow(g: Graph, depth: seq<nat>, p: seq<nat>)
    requires IsDepth(g, depth) && Chain(g, p)
    ensures depth[p[0]] >= depth[p[|p| - 1]] + |p| - 1
    decreases |p|
  {
    if |p| > 1 {
      DepthsGrow(g, depth, p[1..]);
      assert DependsOn(g, p[0], p[1]);
    }
  }

  lemma DepthsSucceed(g: Graph, depth: seq<nat>)
    requires UniqueIds(g) && WellNamed(g) && IsDepth(g, depth)
    ensures Succeeds(g)
  {
    forall p ensures !Cycle(g, p) {
      if Cycle(g, p) {
        DepthsGrow(g, depth, p);
      }
    }
    OrderedSucceeds(g);
  }

  lemma {:induction false} RankOfDepth(g: Graph, depth: seq<nat>, i: nat)
    requires UniqueIds(g) && Succeeds(g) && IsDepth(g, depth) && PickedByDepth(g, depth) && i < |g|
    ensures Sequenced(g).rank[i] == depth[i]
    decreases depth[i]
  {
    hide Sequence, Order, UniqueIds, Succeeds;
    var rank, p := Sequenced(g).rank, Order(g, {});
    RankIsBehind(g);
    assert RanksAbove(g, rank, p, i);
    SuccessRanks(g);
    if rank[i] > 0 {
      var a: nat, b: nat :| Behind(g, p, i, a, b) && rank[i] == rank[p[a]] + 1;
      RankOfDepth(g, depth, p[a]);
    }
    if depth[i] > 0 {
      var j: nat :| DependsOn(g, i, j) && depth[j] + 1 == depth[i];
      RankOfDepth(g, depth, j);
    }
  }

  /** Ranks are depths exactly when, up to the last object that an object depends on, only objects less
      deep than it have been picked. */
  lemma RanksAreDepthsIff(g: Graph, depth: seq<nat>)
    requires UniqueIds(g) && WellNamed(g) && IsDepth(g, depth)
    ensures Sequenced(g).rank == depth <==> PickedByDepth(g, depth)
  {
    hide Sequence, Order, UniqueIds, WellNamed, Succeeds;
    DepthsSucceed(g, depth);
    RankIsBehind(g);
    if Sequenced(g).rank == depth {
      forall i: nat, a: nat, b: nat | i < |g| && Behind(g, Order(g, {}), i, a, b)
        ensures depth[Order(g, {})[a]] < depth[i]
      {
        assert RanksAbove(g, depth, Order(g, {}), i);
      }
    }
    if PickedByDepth(g, depth) {
      forall i | 0 <= i < |g| ensures Sequenced(g).rank[i] == depth[i] {
        RankOfDepth(g, depth, i);
      }
    }
  }

  // ---------- Lists ordered by depth ----------

  lemma FirstLeftIsReady(g: Graph, depth: seq<nat>, k: nat)
    requires UniqueIds(g) && WellNamed(g) && IsDepth(g, depth) && k < |g|
    requires forall i, j :: 0 <= i <= j < |g| ==> depth[i] <= depth[j]
    ensures Top(g, Ids(g[..k]), 0) == k
  {
    hide Top;
    var done := Ids(g[..k]);
    forall j | 0 <= j < |g[k].deps| ensures Resolved(g[k], done, j) {
      assert g[k].deps[j] in Ids(g);
      var i: nat :| i < |g| && g[i].id == g[k].deps[j];
      assert DependsOn(g, k, i) && i < k && g[..k][i] == g[i];
    }
    assert forall i :: 0 <= i < k ==> g[..k][i] == g[i] && g[i].id in done;
    assert g[k].id !in done;
    TopIs(g, done, k);
  }

  /** In a list ordered by depth the objects are picked in turn. */
  lemma {:induction false} PickedInTurn(g: Graph, depth: seq<nat>, k: nat)
    requires UniqueIds(g) && WellNamed(g) && IsDepth(g, depth) && k <= |g|
    requires forall i, j :: 0 <= i <= j < |g| ==> depth[i] <= depth[j]
    ensures var p := Order(g, Ids(g[..k])); |p| == |g| - k && forall a :: 0 <= a < |p| ==> p[a] == k + a
    decreases |g| - k
  {
    hide Top, WellNamed, UniqueIds;
    if k < |g| {
      FirstLeftIsReady(g, depth, k);
      assert g[..k + 1] == g[..k] + [g[k]];
      IdsAppend(g[..k], g[k]);
      PickedInTurn(g, depth, k + 1);
    }
  }

  lemma IdsAppend(g: Graph, n: Node)
    ensures Ids(g + [n]) == Ids(g) + {n.id}
  {
    forall x | x in Ids(g) + {n.id} ensures x in Ids(g + [n]) {
      if x == n.id {
        assert (g + [n])[|g|].id == x;
      } else {
        var i :| 0 <= i < |g| && g[i].id == x;
        assert (g + [n])[i].id == x;
      }
    }
  }

  /** In a list ordered by depth every object ranks at its depth. */
  lemma DepthOrderRanksByDepth(g: Graph, depth: seq<nat>)
    requires UniqueIds(g) && WellNamed(g) && IsDepth(g, depth)
    requires forall i, j :: 0 <= i <= j < |g| ==> depth[i] <= depth[j]
    ensures Sequenced(g).rank == depth
  {
    hide Sequence, Top, UniqueIds, WellNamed;
    PickedInTurn(g, depth, 0);
    assert Ids(g[..0]) == {};
    RanksAreDepthsIff(g, depth);
  }
}

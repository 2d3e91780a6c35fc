/**
 The test sequencer and the serial scheduler of srcs/toolbox/test.c, on lists of test objects updated
 in place.  SequencerSpec and SchedulerSpec say what they compute.
 */
module Sequencer {
  import opened SequencerSpec
  import opened SchedulerSpec
  import opened Wrappers

  /** u_test_dep_t */
  datatype Dep = Dep(id: string, upref: Obj?)

  /** u_test_obj_t, of a case when `func` is looked at: what the test function would return, if any */
  class Obj {
    const id: string
    const func: Option<int>
    var deps: seq<Dep>
    var rank: nat
    var sequenced: bool
    var status: int

    /** u_test_obj_init, with its dependencies already recorded */
    constructor (id: string, func: Option<int>, deps: seq<string>)
      ensures this.id == id && this.func == func && rank == 0 && !sequenced && status == SUCCESS
      ensures Names(this.deps) == deps && forall j :: 0 <= j < |this.deps| ==> this.deps[j].upref == null
    {
      this.id, this.func := id, func;
      this.deps := seq(|deps|, j requires 0 <= j < |deps| => Dep(deps[j], null));
      rank, sequenced, status := 0, false, SUCCESS;
    }
  }

  /** TO: a list of objects and the depth reached */
  class Head {
    const objs: seq<Obj>
    var currank: nat

    constructor (objs: seq<Obj>)
      ensures this.objs == objs && currank == 0
    {
      this.objs, currank := objs, 0;
    }
  }

  /** The list and its objects */
  ghost function Own(h: Head): (r: set<object>)
    ensures h in r && forall o :: o in h.objs ==> o in r
    ensures forall x :: x in r ==> x == h || x in h.objs
  {
    {h as object} + set o: Obj | o in h.objs :: o as object
  }

  function Names(deps: seq<Dep>): (r: seq<string>)
    ensures |r| == |deps|
    ensures forall j :: 0 <= j < |deps| ==> r[j] == deps[j].id
  {
    seq(|deps|, j requires 0 <= j < |deps| => deps[j].id)
  }

  // ---------- Lists of objects as SequencerSpec sees them ----------

  /** A dependency record points at an object of the list that bears its name, if at any. */
  ghost predicate Pointed(objs: seq<Obj>, d: Dep) {
    d.upref != null ==> d.upref in objs && d.upref.id == d.id
  }

  /** The object `o`, not run yet, as SequencerSpec sees it. */
  ghost predicate ShowsObj(objs: seq<Obj>, o: Obj, n: Node, rank: nat, done: set<string>)
    reads o
  {
    && o.id == n.id && Names(o.deps) == n.deps && o.rank == rank && (o.sequenced <==> o.id in done)
    && o.status == SUCCESS
    && forall j :: 0 <= j < |o.deps| ==> Pointed(objs, o.deps[j]) && (o.deps[j].upref != null <==> Resolved(n, done, j))
  }

  ghost predicate ShowsFrom(objs: seq<Obj>, g: Graph, rank: seq<nat>, done: set<string>, from: nat, to: nat)
    requires |objs| == |g| == |rank| && from <= to <= |g|
    reads objs
  {
    forall i :: from <= i < to ==> ShowsObj(objs, objs[i], g[i], rank[i], done)
  }

  ghost predicate AllDistinct(objs: seq<Obj>) { forall i, j :: 0 <= i < j < |objs| ==> objs[i] != objs[j] }

  /** The list `h` is the graph `g` in state `s`. */
  ghost predicate Shows(h: Head, g: Graph, s: State)
    reads Own(h)
  {
    && |h.objs| == |g| == |s.rank| && AllDistinct(h.objs) && h.currank == s.currank
    && ShowsFrom(h.objs, g, s.rank, s.done, 0, |g|)
  }

  /** u_test_obj_search */
  method Search(h: Head, id: string) returns (o: Obj?)
    ensures o != null ==> o in h.objs && o.id == id
    ensures o == null ==> forall x :: x in h.objs ==> x.id != id
  {
    for i := 0 to |h.objs|
      invariant forall k :: 0 <= k < i ==> h.objs[k].id != id
    {
      if h.objs[i].id == id {
        return h.objs[i];
      }
    }
    o := null;
  }

  /** u_test_dep_dry */
  method DepDry(o: Obj) returns (dry: bool)
    ensures dry <==> forall j :: 0 <= j < |o.deps| ==> o.deps[j].upref != null
  {
    for j := 0 to |o.deps|
      invariant forall k :: 0 <= k < j ==> o.deps[k].upref != null
    {
      if o.deps[j].upref == null {
        return false;
      }
    }
    dry := true;
  }

  /** u_test_obj_pick_top: the first object that is ready; its rank may raise the depth reached. */
  method PickTop(h: Head, ghost g: Graph, ghost s: State) returns (to: Obj?, ghost i: nat)
    requires Shows(h, g, s)
    modifies h`currank
    ensures i == Top(g, s.done, 0) && (to == null <==> i == |g|)
    ensures to == null ==> h.currank == old(h.currank)
    ensures to != null ==> i < |g| && to == h.objs[i] && h.currank == Max(s.rank[i], s.currank)
  {
    for k := 0 to |h.objs|
      invariant h.currank == old(h.currank)
      invariant forall l :: 0 <= l < k ==> !Ready(g, s.done, l)
    {
      to := h.objs[k];
      assert ShowsObj(h.objs, h.objs[k], g[k], s.rank[k], s.done);
      var dry := DepDry(to);
      assert Ready(g, s.done, k) <==> !to.sequenced && dry;
      if !to.sequenced && dry {
        h.currank := if to.rank > h.currank then to.rank else h.currank;
        i := k;
        TopAt(g, s, k);
        return;
      }
    }
    to, i := null, |g|;
    TopAt(g, s, |g|);
  }

  lemma TopAt(g: Graph, s: State, i: nat)
    requires i <= |g| && (i < |g| ==> Ready(g, s.done, i)) && forall k :: 0 <= k < i ==> !Ready(g, s.done, k)
    ensures Top(g, s.done, 0) == i
  {
    var t := Top(g, s.done, 0);
  }

  /** The inner loop of u_test_obj_evict_id, and the mark it sets on the evicted object. */
  method EvictIn(h: Head, o: Obj, id: string, ghost n: Node, ghost rank: nat, ghost done: set<string>)
    requires ShowsObj(h.objs, o, n, rank, done) && exists x :: x in h.objs && x.id == id
    modifies o
    ensures ShowsObj(h.objs, o, n, if id in n.deps then h.currank + 1 else rank, done + {id})
  {
    ghost var deps := o.deps;
    var j := 0;
    while j < |o.deps| && o.deps[j].id != id
      invariant j <= |o.deps|
      invariant forall k :: 0 <= k < j ==> o.deps[k].id != id
    {
      j := j + 1;
    }
    if j < |o.deps| {
      o.rank := h.currank + 1;
      var x := Search(h, id);
      o.deps := o.deps[j := o.deps[j].(upref := x)];
    }
    if o.id == id {
      o.sequenced := true;
    }
    FirstResolved(n, id, done, j);
  }

  /** Which records are resolved once `id` has been evicted, `j` being the first that names it. */
  lemma FirstResolved(n: Node, id: string, done: set<string>, j: nat)
    requires j <= |n.deps| && (j < |n.deps| ==> n.deps[j] == id) && forall k :: 0 <= k < j ==> n.deps[k] != id
    ensures id in n.deps <==> j < |n.deps|
    ensures forall k :: 0 <= k < |n.deps| ==> (Resolved(n, done + {id}, k) <==> Resolved(n, done, k) || k == j)
  {
    forall k | j < k < |n.deps| ensures Resolved(n, done + {id}, k) <==> Resolved(n, done, k) {
      assert n.deps[j] in n.deps[..k];
    }
  }

  /** u_test_obj_evict_id */
  method EvictId(h: Head, id: string, ghost g: Graph, ghost s: State, ghost i: nat)
    requires |h.objs| == |g| == |s.rank| && AllDistinct(h.objs)
    requires ShowsFrom(h.objs, g, s.rank, s.done, 0, |g|)
    requires i < |g| && id == g[i].id && h.currank == Max(s.rank[i], s.currank)
    modifies h.objs
    ensures Shows(h, g, Evict(g, s, i))
  {
    hide ShowsObj;
    ghost var s' := Evict(g, s, i);
    for k := 0 to |h.objs|
      invariant h.currank == s'.currank
      invariant ShowsFrom(h.objs, g, s'.rank, s'.done, 0, k)
      invariant ShowsFrom(h.objs, g, s.rank, s.done, k, |g|)
    {
      IdOf(h.objs, g, s.rank, s'.rank, s.done, s'.done, i, k);
      EvictIn(h, h.objs[k], id, g[k], s.rank[k], s.done);
    }
  }

  lemma IdOf(objs: seq<Obj>, g: Graph, rank: seq<nat>, rank': seq<nat>, done: set<string>, done': set<string>,
             i: nat, k: nat)
    requires |objs| == |g| == |rank| == |rank'| && k <= |g| && i < |g|
    requires ShowsFrom(objs, g, rank', done', 0, k) && ShowsFrom(objs, g, rank, done, k, |g|)
    ensures exists x :: x in objs && x.id == g[i].id
  {
    assert i < k ==> ShowsObj(objs, objs[i], g[i], rank'[i], done');
    assert i >= k ==> ShowsObj(objs, objs[i], g[i], rank[i], done);
    assert objs[i] in objs;
  }

  /** u_test_obj_sequencer, without the step into the cases of suites */
  method SequenceList(h: Head, ghost g: Graph) returns (ok: bool)
    requires Shows(h, g, Initial(g))
    modifies Own(h)
    ensures Shows(h, g, Sequenced(g)) && (ok <==> Succeeds(g))
  {
    hide ShowsFrom;
    ghost var s := Initial(g);
    while true
      invariant Shows(h, g, s) && Sequence(g, s) == Sequenced(g)
      decreases Ids(g) - s.done
    {
      ghost var i;
      var to;
      to, i := PickTop(h, g, s);
      if to == null {
        break;
      }
      IdOf(h.objs, g, s.rank, s.rank, s.done, s.done, i, 0);
      NodeShown(h, g, s, i);
      EvictId(h, to.id, g, s, i);
      assert g[i].id in Ids(g) - s.done;
      s := Evict(g, s, i);
    }
    ok := AllSequenced(h, g, s);
  }

  lemma NodeShown(h: Head, g: Graph, s: State, i: nat)
    requires |h.objs| == |g| == |s.rank| && ShowsFrom(h.objs, g, s.rank, s.done, 0, |g|) && i < |g|
    ensures h.objs[i].id == g[i].id && (h.objs[i].sequenced <==> g[i].id in s.done)
  {
    assert ShowsObj(h.objs, h.objs[i], g[i], s.rank[i], s.done);
  }

  /** The test for a loop in the dependencies */
  method AllSequenced(h: Head, ghost g: Graph, ghost s: State) returns (ok: bool)
    requires Shows(h, g, s)
    ensures ok <==> forall i :: 0 <= i < |g| ==> g[i].id in s.done
  {
    for i := 0 to |h.objs|
      invariant forall k :: 0 <= k < i ==> g[k].id in s.done
    {
      NodeShown(h, g, s, i);
      if !h.objs[i].sequenced {
        return false;
      }
    }
    ok := true;
  }

  // ---------- Suites ----------

  /** u_test_suite_t: the object that stands for the suite in the list of suites, and its cases */
  class Suite {
    const o: Obj
    const cases: Head
    var syn: Summary

    constructor (o: Obj, cases: Head)
      ensures this.o == o && this.cases == cases && syn == Summary(0, 0, 0, 0, 0)
    {
      this.o, this.cases, syn := o, cases, Summary(0, 0, 0, 0, 0);
    }
  }

  /** The objects that stand for suites are not cases, and no two suites share anything. */
  ghost predicate Separate(h: Head, suites: seq<Suite>) {
    && |suites| == |h.objs|
    && (forall i :: 0 <= i < |suites| ==> suites[i].o == h.objs[i] && Own(h) !! Own(suites[i].cases))
    && (forall i, j :: 0 <= i < |suites| && 0 <= j < |suites| && i != j ==>
          suites[i] != suites[j] && Own(suites[i].cases) !! Own(suites[j].cases))
  }

  /** Everything the suites own */
  ghost function Cases(suites: seq<Suite>): (r: set<object>)
    ensures forall i :: 0 <= i < |suites| ==> suites[i] in r && Own(suites[i].cases) <= r
    ensures forall x :: x in r ==> exists i :: 0 <= i < |suites| && (x == suites[i] || x in Own(suites[i].cases))
  {
    (set i | 0 <= i < |suites| :: suites[i] as object) +
    (set i, x | 0 <= i < |suites| && x in Own(suites[i].cases) :: x)
  }

  /** u_test_sequencer: the suites, then the cases of each, stopping at the first failure */
  method SequenceTest(h: Head, suites: seq<Suite>, ghost g: Graph, ghost gs: seq<Graph>) returns (ok: bool)
    requires Separate(h, suites) && |gs| == |suites| && Shows(h, g, Initial(g))
    requires forall i :: 0 <= i < |suites| ==> Shows(suites[i].cases, gs[i], Initial(gs[i]))
    modifies Own(h), Cases(suites)
    ensures ok <==> Succeeds(g) && forall i :: 0 <= i < |suites| ==> Succeeds(gs[i])
    ensures ok ==> Shows(h, g, Sequenced(g))
    ensures ok ==> forall i :: 0 <= i < |suites| ==> Shows(suites[i].cases, gs[i], Sequenced(gs[i]))
  {
    hide Succeeds, Sequenced, Initial, Cases, Own, Shows;
    ok := SequenceList(h, g);
    if !ok {
      return;
    }
    for i := 0 to |suites|
      invariant Shows(h, g, Sequenced(g))
      invariant forall k :: 0 <= k < i ==> Succeeds(gs[k]) && Shows(suites[k].cases, gs[k], Sequenced(gs[k]))
      invariant forall k :: i <= k < |suites| ==> Shows(suites[k].cases, gs[k], Initial(gs[k]))
    {
      assert forall k :: 0 <= k < |suites| && k != i ==> Own(suites[i].cases) !! Own(suites[k].cases);
      ok := SequenceList(suites[i].cases, gs[i]);
      if !ok {
        return;
      }
    }
  }

  // ---------- Running the objects of a list ----------

  ghost function Statuses(objs: seq<Obj>): (st: seq<int>)
    reads objs`status
    ensures |st| == |objs|
    ensures forall i :: 0 <= i < |objs| ==> st[i] == objs[i].status
  {
    if objs == [] then [] else Statuses(objs[..|objs| - 1]) + [objs[|objs| - 1].status]
  }

  ghost predicate LinkedObj(objs: seq<Obj>, o: Obj, n: Node, rank: nat)
    reads o`rank, o`deps
  {
    && o.id == n.id && Names(o.deps) == n.deps && o.rank == rank
    && forall j :: 0 <= j < |o.deps| ==> Pointed(objs, o.deps[j]) && o.deps[j].upref != null
  }

  /** The list `h` has been sequenced as `p` says, every dependency record being resolved. */
  ghost predicate Linked(h: Head, p: Plan)
    reads h, h.objs`rank, h.objs`deps
  {
    && InOrder(p) && UniqueIds(p.g) && |h.objs| == |p.g| && AllDistinct(h.objs) && h.currank == p.currank
    && forall i :: 0 <= i < |p.g| ==> LinkedObj(h.objs, h.objs[i], p.g[i], p.rank[i])
  }

  /** What a successful run of the sequencer leaves can be scheduled. */
  lemma SequencedIsLinked(h: Head, g: Graph, p: Plan)
    requires UniqueIds(g) && Succeeds(g) && Shows(h, g, Sequenced(g))
    requires Sane(p) && p.g == g && p.rank == Sequenced(g).rank && p.currank == Sequenced(g).currank
    ensures Linked(h, p)
  {
    SequencedIsRanked(g);
    forall i | 0 <= i < |g| ensures LinkedObj(h.objs, h.objs[i], g[i], p.rank[i]) {
      assert ShowsObj(h.objs, h.objs[i], g[i], p.rank[i], Sequenced(g).done);
      PickedOnce(g, Initial(g), i);
    }
  }

  /** Some dependency record of `o` points at one of the objects whose status is not that of success. */
  ghost predicate Hindered(objs: seq<Obj>, o: Obj)
    reads o`deps, objs`status
  {
    exists j :: 0 <= j < |o.deps| && o.deps[j].upref in objs && o.deps[j].upref.status != SUCCESS
  }

  /** u_test_dep_failed */
  method DepsFailed(o: Obj) returns (failed: bool)
    ensures failed <==> exists j :: 0 <= j < |o.deps| && o.deps[j].upref != null && o.deps[j].upref.status != SUCCESS
  {
    for j := 0 to |o.deps|
      invariant forall k :: 0 <= k < j ==> o.deps[k].upref == null || o.deps[k].upref.status == SUCCESS
    {
      if o.deps[j].upref != null && o.deps[j].upref.status != SUCCESS {
        return true;
      }
    }
    failed := false;
  }

  lemma FailedShown(h: Head, p: Plan, i: nat)
    requires Linked(h, p) && i < |p.g|
    ensures DepFailed(p.g, Statuses(h.objs), i) <==> Hindered(h.objs, h.objs[i])
    ensures var deps := h.objs[i].deps; Hindered(h.objs, h.objs[i]) <==>
            exists j :: 0 <= j < |deps| && deps[j].upref != null && deps[j].upref.status != SUCCESS
  {
    var o, st := h.objs[i], Statuses(h.objs);
    assert LinkedObj(h.objs, o, p.g[i], p.rank[i]);
    if j: nat :| DependsOn(p.g, i, j) && st[j] != SUCCESS {
      var k :| 0 <= k < |p.g[i].deps| && p.g[i].deps[k] == p.g[j].id;
      NamedBy(h, p, o.deps[k], j);
      assert o.deps[k].upref.status == st[j];
    }
    if k :| 0 <= k < |o.deps| && o.deps[k].upref != null && o.deps[k].upref.status != SUCCESS {
      assert Pointed(h.objs, o.deps[k]);
      var j: nat :| j < |h.objs| && h.objs[j] == o.deps[k].upref;
      assert LinkedObj(h.objs, h.objs[j], p.g[j], p.rank[j]);
      assert p.g[i].deps[k] == p.g[j].id;
      assert DependsOn(p.g, i, j) && st[j] != SUCCESS;
    }
  }

  lemma NamedBy(h: Head, p: Plan, d: Dep, j: nat)
    requires Linked(h, p) && Pointed(h.objs, d) && d.upref != null && j < |p.g| && d.id == p.g[j].id
    ensures d.upref == h.objs[j]
  {
    var k: nat :| k < |h.objs| && h.objs[k] == d.upref;
    assert LinkedObj(h.objs, h.objs[k], p.g[k], p.rank[k]);
  }

  // ---------- Cases ----------

  /** The status of a case after it is run; without a test function it stays as it was. */
  function CaseOut(func: Option<int>, before: int): int {
    if func.None? then before else func.value
  }

  /** `p` runs the test functions of the cases. */
  ghost predicate CaseOuts(h: Head, p: Plan) {
    |h.objs| == |p.out| == |p.st| && forall i :: 0 <= i < |p.out| ==> p.out[i] == CaseOut(h.objs[i].func, p.st[i])
  }

  /** u_test_case_exec, not sandboxed */
  method RunCase(o: Obj)
    modifies o`status
    ensures o.status == CaseOut(o.func, old(o.status))
  {
    if o.func.Some? {
      o.status := o.func.value;
    }
  }

  lemma OneChanged(objs: seq<Obj>, was: seq<int>, i: nat)
    requires AllDistinct(objs) && |was| == |objs| && i < |objs|
    requires forall k :: 0 <= k < |objs| && k != i ==> objs[k].status == was[k]
    ensures Statuses(objs) == was[i := objs[i].status]
  {
  }

  /** The body of u_test_obj_scheduler's loop, for a case of the current rank */
  method HandleCase(h: Head, i: nat, ghost p: Plan)
    requires Linked(h, p) && CaseOuts(h, p) && i < |h.objs| && h.objs[i].status == p.st[i]
    modifies h.objs`status
    ensures Statuses(h.objs) == Handle(p, old(Statuses(h.objs)), i)
  {
    ghost var st := Statuses(h.objs);
    FailedShown(h, p, i);
    var failed := DepsFailed(h.objs[i]);
    if failed {
      h.objs[i].status := SKIPPED;
    } else {
      RunCase(h.objs[i]);
    }
    OneChanged(h.objs, st, i);
  }

  /** Each case that something it depends on hinders has been skipped; any other has the status that its
      test function returned, or the one it had when it has none. */
  ghost predicate Ended(h: Head, before: seq<int>)
    requires |before| == |h.objs|
    reads h.objs
  {
    forall i :: 0 <= i < |h.objs| ==>
      if Hindered(h.objs, h.objs[i]) then h.objs[i].status == SKIPPED
      else h.objs[i].status == match h.objs[i].func case Some(v) => v case None => before[i]
  }

  lemma FinalsAreEnds(h: Head, p: Plan)
    requires Linked(h, p) && CaseOuts(h, p) && Statuses(h.objs) == Finals(p)
    ensures Ended(h, p.st)
  {
    hide LinkedObj, Finals, DepFailed;
    FinalsSettle(p);
    forall i | 0 <= i < |h.objs|
      ensures if Hindered(h.objs, h.objs[i]) then h.objs[i].status == SKIPPED
              else h.objs[i].status == match h.objs[i].func case Some(v) => v case None => p.st[i]
    {
      FailedShown(h, p, i);
      assert Settled(p, Finals(p), i);
    }
  }

  /** u_test_obj_scheduler for the cases of a suite, one by one */
  method ScheduleCases(h: Head, ghost p: Plan)
    requires Linked(h, p) && CaseOuts(h, p) && Statuses(h.objs) == p.st
    modifies h.objs`status
    ensures Linked(h, p) && Statuses(h.objs) == Finals(p) && Ended(h, p.st)
  {
    hide LinkedObj, CaseOuts, Serve, SoFar, Statuses, Handle, Below, Ended, Hindered;
    SoFarWraps(p, 0);
    ServeNone(p);
    for r := 0 to h.currank + 1
      invariant Statuses(h.objs) == Serve(p, SoFar(p, r, 0))
    {
      for n := 0 to |h.objs|
        invariant Statuses(h.objs) == Serve(p, SoFar(p, r, n))
      {
        SoFarSteps(p, r, n);
        RankShown(h, p, n);
        if h.objs[n].rank == r {
          SoFarLaws(p, r, n);
          NotServed(p, SoFar(p, r, n), n);
          ServeOne(p, SoFar(p, r, n), n);
          HandleCase(h, n, p);
        }
      }
      SoFarWraps(p, r);
    }
    SoFarWraps(p, p.currank);
    FinalsAreEnds(h, p);
  }

  lemma ServeNone(p: Plan)
    requires Sane(p)
    ensures Serve(p, []) == p.st
  {
  }

  lemma RankShown(h: Head, p: Plan, i: nat)
    requires Linked(h, p) && i < |p.g|
    ensures h.objs[i].rank == p.rank[i]
  {
    assert LinkedObj(h.objs, h.objs[i], p.g[i], p.rank[i]);
  }

  // ---------- Suites ----------

  /** The cases of a suite that is still to be run */
  ghost predicate CasesReady(s: Suite, p: Plan)
    reads Own(s.cases)
  {
    Linked(s.cases, p) && CaseOuts(s.cases, p) && Statuses(s.cases.objs) == p.st
  }

  /** The cases of a suite that was run or skipped; the run leaves their summary in the suite. */
  ghost predicate CasesOver(s: Suite, p: Plan, skipped: bool)
    requires InOrder(p)
    reads s`syn, Own(s.cases)
  {
    if skipped then forall o :: o in s.cases.objs ==> o.status == SKIPPED
    else
      Linked(s.cases, p) && CaseOuts(s.cases, p) && Statuses(s.cases.objs) == Finals(p) && s.syn == Tally(Finals(p))
  }

  /** u_test_syn_update, on counters still 0 */
  method Summarize(h: Head) returns (syn: Summary)
    ensures syn == Tally(Statuses(h.objs))
  {
    var pass, fail, abrt, skip := 0, 0, 0, 0;
    ghost var st := Statuses(h.objs);
    for i := 0 to |h.objs|
      invariant Summary(i, pass, fail, abrt, skip) == Tally(st[..i])
    {
      assert st[..i + 1][..i] == st[..i];
      match h.objs[i].status
      case 0 => pass := pass + 1;
      case 1 => fail := fail + 1;
      case 2 => abrt := abrt + 1;
      case 3 => skip := skip + 1;
      case _ =>
    }
    assert st[..|h.objs|] == st;
    syn := Summary(|h.objs|, pass, fail, abrt, skip);
  }

  /** The loop of u_test_suite_scheduler: did any case not succeed? */
  method AnyFailed(h: Head) returns (failed: bool)
    ensures failed <==> exists i :: 0 <= i < |h.objs| && Statuses(h.objs)[i] != SUCCESS
  {
    for i := 0 to |h.objs|
      invariant forall k :: 0 <= k < i ==> Statuses(h.objs)[k] == SUCCESS
    {
      if h.objs[i].status != SUCCESS {
        assert Statuses(h.objs)[i] != SUCCESS;
        return true;
      }
    }
    failed := false;
  }

  lemma InOrderOf(h: Head, p: Plan)
    requires Linked(h, p)
    ensures InOrder(p) && Sane(p) && |p.g| == |h.objs|
  {
  }

  lemma SuiteOutIs(p: Plan, st: seq<int>, before: int)
    requires InOrder(p) && st == Finals(p)
    ensures SuiteOut(p, before) == if exists i :: 0 <= i < |st| && st[i] != SUCCESS then FAILURE else before
  {
  }

  /** The cases of a suite have ended one by one, it has failed if and only if one of them did not succeed,
      and it holds their summary. */
  ghost predicate Ran(s: Suite, cases: seq<int>, before: int)
    requires |cases| == |s.cases.objs|
    reads s`syn, s.o`status, s.cases.objs
  {
    && Ended(s.cases, cases) && s.syn == Tally(Statuses(s.cases.objs))
    && s.o.status == if exists o :: o in s.cases.objs && o.status != SUCCESS then FAILURE else before
  }

  lemma OverIsRan(s: Suite, p: Plan, before: int)
    requires InOrder(p) && CasesOver(s, p, false) && s.o.status == SuiteOut(p, before)
    ensures Ran(s, p.st, before)
  {
    hide Linked, CaseOuts, Tally, Finals, SuiteOut, Ended;
    InOrderOf(s.cases, p);
    FinalsAreEnds(s.cases, p);
    SuiteOutIs(p, Statuses(s.cases.objs), before);
    if o :| o in s.cases.objs && o.status != SUCCESS {
      var i :| 0 <= i < |s.cases.objs| && s.cases.objs[i] == o;
      assert Statuses(s.cases.objs)[i] != SUCCESS;
    }
    assert forall i :: 0 <= i < |s.cases.objs| && Statuses(s.cases.objs)[i] != SUCCESS ==>
      s.cases.objs[i] in s.cases.objs && s.cases.objs[i].status != SUCCESS;
  }

  /** u_test_suite_scheduler */
  method RunSuite(s: Suite, ghost p: Plan)
    requires CasesReady(s, p) && s.o !in s.cases.objs
    modifies s`syn, s.o`status, s.cases.objs`status
    ensures CasesOver(s, p, false) && s.o.status == SuiteOut(p, old(s.o.status))
    ensures Ran(s, p.st, old(s.o.status))
  {
    hide Linked, CaseOuts, Tally, Statuses, Finals, SuiteOut, Ended, Ran;
    InOrderOf(s.cases, p);
    ScheduleCases(s.cases, p);
    var failed := AnyFailed(s.cases);
    SuiteOutIs(p, Statuses(s.cases.objs), old(s.o.status));
    if failed {
      s.o.status := FAILURE;
    }
    s.syn := Summarize(s.cases);
    OverIsRan(s, p, old(s.o.status));
  }

  /** u_test_suite_update_all_status */
  method SkipCases(s: Suite)
    modifies s.cases.objs`status
    ensures forall o :: o in s.cases.objs ==> o.status == SKIPPED
  {
    for i := 0 to |s.cases.objs|
      invariant forall k :: 0 <= k < i ==> s.cases.objs[k].status == SKIPPED
    {
      s.cases.objs[i].status := SKIPPED;
    }
  }

  lemma OwnApart(h: Head, c: Head)
    requires Own(h) !! Own(c)
    ensures h != c && (forall o :: o in h.objs ==> o !in c.objs)
    ensures forall k :: 0 <= k < |h.objs| ==> h.objs[k] !in c.objs
  {
  }

  /** The body of u_test_obj_scheduler's loop, for a suite of the current rank */
  method HandleSuite(h: Head, s: Suite, i: nat, ghost p: Plan, ghost cp: Plan)
    requires Linked(h, p) && i < |h.objs| && s.o == h.objs[i] && Own(h) !! Own(s.cases) && CasesReady(s, cp)
    requires h.objs[i].status == p.st[i] && p.out[i] == SuiteOut(cp, p.st[i])
    modifies s`syn, h.objs`status, s.cases.objs`status
    ensures Linked(h, p) && Statuses(h.objs) == Handle(p, old(Statuses(h.objs)), i)
    ensures CasesOver(s, cp, DepFailed(p.g, old(Statuses(h.objs)), i))
  {
    hide LinkedObj, CaseOuts, Serve, Tally, Statuses, Own, SuiteOut, Finals, Hindered, Ran;
    ghost var st := Statuses(h.objs);
    FailedShown(h, p, i);
    var failed := DepsFailed(h.objs[i]);
    assert failed <==> DepFailed(p.g, st, i);
    OwnApart(h, s.cases);
    if failed {
      h.objs[i].status := SKIPPED;
      SkipCases(s);
    } else {
      RunSuite(s, cp);
    }
    OneChanged(h.objs, st, i);
  }

  ghost predicate SuiteAt(s: Suite, cp: Plan, over: bool, skipped: bool)
    requires InOrder(cp)
    reads s`syn, Own(s.cases)
  {
    if over then CasesOver(s, cp, skipped) else CasesReady(s, cp)
  }

  /** The suites when those in `order` have been handled */
  ghost predicate SuitesAt(suites: seq<Suite>, cps: seq<Plan>, p: Plan, order: seq<nat>)
    requires |suites| == |cps| == |p.g| && Sane(p) && Indices(order, |p.g|)
    requires forall k :: 0 <= k < |cps| ==> InOrder(cps[k])
    reads Cases(suites)
  {
    forall k :: 0 <= k < |suites| ==> SuiteAt(suites[k], cps[k], k in order, DepFailed(p.g, Serve(p, order), k))
  }

  /** The plans of the cases decide what running a suite gives. */
  ghost predicate SuiteOuts(p: Plan, cps: seq<Plan>) {
    && |cps| == |p.g| == |p.out| == |p.st| && (forall k :: 0 <= k < |cps| ==> InOrder(cps[k]))
    && forall k :: 0 <= k < |cps| ==> p.out[k] == SuiteOut(cps[k], p.st[k])
  }

  /** One step of the loop of u_test_obj_scheduler over suites of rank `r` */
  method StepSuite(h: Head, suites: seq<Suite>, n: nat, ghost r: nat, ghost p: Plan, ghost cps: seq<Plan>)
    requires Linked(h, p) && Separate(h, suites) && SuiteOuts(p, cps) && n < |suites| && p.rank[n] == r
    requires Statuses(h.objs) == Serve(p, SoFar(p, r, n)) && SuitesAt(suites, cps, p, SoFar(p, r, n))
    modifies h.objs`status, Cases(suites)
    ensures Linked(h, p) && SoFar(p, r, n + 1) == SoFar(p, r, n) + [n]
    ensures Statuses(h.objs) == Serve(p, SoFar(p, r, n + 1)) && SuitesAt(suites, cps, p, SoFar(p, r, n + 1))
  {
    hide LinkedObj, Serve, SoFar, Statuses, Handle, DepFailed, Cases, Own, CasesOver, CasesReady, SuiteOut;
    ghost var order := SoFar(p, r, n);
    ghost var st := Statuses(h.objs);
    SoFarSteps(p, r, n);
    SoFarLaws(p, r, n);
    NotServed(p, order, n);
    ServeOne(p, order, n);
    assert SuiteAt(suites[n], cps[n], false, DepFailed(p.g, st, n));
    HandleSuite(h, suites[n], n, p, cps[n]);
    forall k | 0 <= k < |suites|
      ensures SuiteAt(suites[k], cps[k], k in order + [n], DepFailed(p.g, Handle(p, st, n), k))
    {
      if k == n {
        SelfDoesNotMatter(p, st, n);
      } else {
        assert Own(suites[n].cases) !! Own(suites[k].cases) && Own(h) !! Own(suites[k].cases);
        if k in order {
          LaterDoesNotMatter(p, r, n, st, k);
        }
      }
    }
  }

  lemma SelfDoesNotMatter(p: Plan, st: seq<int>, n: nat)
    requires InOrder(p) && |st| == |p.g| && n < |p.g|
    ensures DepFailed(p.g, Handle(p, st, n), n) == DepFailed(p.g, st, n)
  {
    assert !DependsOn(p.g, n, n);
    assert forall j: nat :: DependsOn(p.g, n, j) ==> Handle(p, st, n)[j] == st[j];
  }

  /** The pass of u_test_obj_scheduler over the suites of rank `r` */
  method ScheduleRank(h: Head, suites: seq<Suite>, r: nat, ghost p: Plan, ghost cps: seq<Plan>)
    requires Linked(h, p) && Separate(h, suites) && SuiteOuts(p, cps)
    requires Statuses(h.objs) == Serve(p, SoFar(p, r, 0)) && SuitesAt(suites, cps, p, SoFar(p, r, 0))
    requires |suites| == |h.objs|
    modifies h.objs`status, Cases(suites)
    ensures Linked(h, p)
    ensures Statuses(h.objs) == Serve(p, SoFar(p, r + 1, 0)) && SuitesAt(suites, cps, p, SoFar(p, r + 1, 0))
  {
    hide LinkedObj, Serve, SoFar, Statuses, Handle, DepFailed, Cases, Below, SuitesAt;
    hide Own, Separate, InOrder, UniqueIds;
    InOrderOf(h, p);
    for n := 0 to |h.objs|
      invariant Linked(h, p)
      invariant Statuses(h.objs) == Serve(p, SoFar(p, r, n)) && SuitesAt(suites, cps, p, SoFar(p, r, n))
    {
      SoFarSteps(p, r, n);
      RankShown(h, p, n);
      if h.objs[n].rank == r {
        StepSuite(h, suites, n, r, p, cps);
      }
    }
    SoFarWraps(p, r);
  }

  /** u_test_obj_scheduler for the suites of a test: each ends with the status its cases or those it
      depends on make it, and its cases are run if and only if it is. */
  method ScheduleSuites(h: Head, suites: seq<Suite>, ghost p: Plan, ghost cps: seq<Plan>)
    requires Linked(h, p) && Separate(h, suites) && SuiteOuts(p, cps) && Statuses(h.objs) == p.st
    requires forall k :: 0 <= k < |suites| ==> CasesReady(suites[k], cps[k])
    modifies h.objs`status, Cases(suites)
    ensures Linked(h, p) && Statuses(h.objs) == Finals(p)
    ensures forall k :: 0 <= k < |suites| ==> CasesOver(suites[k], cps[k], DepFailed(p.g, Finals(p), k))
  {
    hide LinkedObj, Serve, SoFar, Statuses, Handle, DepFailed, Cases, Below, CasesOver, CasesReady, SuiteOut, Own;
    SoFarWraps(p, 0);
    ServeNone(p);
    for r := 0 to h.currank + 1
      invariant Linked(h, p)
      invariant Statuses(h.objs) == Serve(p, SoFar(p, r, 0)) && SuitesAt(suites, cps, p, SoFar(p, r, 0))
    {
      ScheduleRank(h, suites, r, p, cps);
    }
    SoFarWraps(p, p.currank);
    SoFarLaws(p, p.currank + 1, 0);
  }

  // ---------- A whole test ----------

  /** The plan of the cases of a suite, sequenced and not run yet */
  ghost function CasePlan(h: Head, g: Graph): (p: Plan)
    requires |h.objs| == |g|
    ensures Sane(p)
  {
    var s := Sequenced(g);
    Plan(g, s.rank, s.currank, seq(|g|, _ => SUCCESS),
         seq(|g|, i requires 0 <= i < |g| => CaseOut(h.objs[i].func, SUCCESS)))
  }

  lemma CasePlanReady(s: Suite, g: Graph)
    requires UniqueIds(g) && Succeeds(g) && Shows(s.cases, g, Sequenced(g))
    ensures CasesReady(s, CasePlan(s.cases, g))
  {
    var p := CasePlan(s.cases, g);
    SequencedIsLinked(s.cases, g, p);
    StatusesShown(s.cases, g);
  }

  lemma StatusesShown(h: Head, g: Graph)
    requires Shows(h, g, Sequenced(g))
    ensures Statuses(h.objs) == seq(|g|, _ => SUCCESS)
  {
    forall i | 0 <= i < |g| ensures Statuses(h.objs)[i] == SUCCESS {
      assert ShowsObj(h.objs, h.objs[i], g[i], Sequenced(g).rank[i], Sequenced(g).done);
    }
  }

  /** The test functions of the cases of a suite all return success. */
  ghost predicate CasesWouldPass(h: Head) {
    forall o :: o in h.objs ==> o.func.None? || o.func == Some(SUCCESS)
  }

  ghost predicate SuiteEnded(h: Head, s: Suite)
    reads s`syn, s.o, h.objs, s.cases.objs
  {
    if Hindered(h.objs, s.o) then s.o.status == SKIPPED && forall o :: o in s.cases.objs ==> o.status == SKIPPED
    else Ran(s, seq(|s.cases.objs|, _ => SUCCESS), SUCCESS)
  }

  lemma SuitesEnd(h: Head, suites: seq<Suite>, p: Plan, cps: seq<Plan>, k: nat)
    requires Linked(h, p) && Separate(h, suites) && SuiteOuts(p, cps) && Statuses(h.objs) == Finals(p)
    requires k < |suites| && CasesOver(suites[k], cps[k], DepFailed(p.g, Finals(p), k))
    requires p.st[k] == SUCCESS && cps[k].st == seq(|suites[k].cases.objs|, _ => SUCCESS)
    ensures SuiteEnded(h, suites[k])
  {
    hide LinkedObj, Finals, DepFailed, Ran, Tally, SuiteOut;
    FinalsSettle(p);
    FailedShown(h, p, k);
    assert Settled(p, Finals(p), k);
    if !Hindered(h.objs, suites[k].o) {
      OverIsRan(suites[k], cps[k], SUCCESS);
    }
  }

  lemma AllSuitesEnd(h: Head, suites: seq<Suite>, p: Plan, cps: seq<Plan>)
    requires Linked(h, p) && Separate(h, suites) && SuiteOuts(p, cps) && Statuses(h.objs) == Finals(p)
    requires forall k :: 0 <= k < |suites| ==> CasesOver(suites[k], cps[k], DepFailed(p.g, Finals(p), k))
    requires forall k :: 0 <= k < |suites| ==>
      p.st[k] == SUCCESS && cps[k].st == seq(|suites[k].cases.objs|, _ => SUCCESS)
    ensures forall k :: 0 <= k < |suites| ==> SuiteEnded(h, suites[k])
  {
    hide *;
    forall k | 0 <= k < |suites| ensures SuiteEnded(h, suites[k]) {
      SuitesEnd(h, suites, p, cps, k);
    }
  }

  lemma SuiteWouldPass(h: Head, g: Graph)
    requires UniqueIds(g) && Succeeds(g) && |h.objs| == |g| && InOrder(CasePlan(h, g))
    ensures SuiteOut(CasePlan(h, g), SUCCESS) == SUCCESS <==> CasesWouldPass(h)
  {
    var p := CasePlan(h, g);
    AllPassIffEachWould(p);
    assert forall i :: 0 <= i < |g| ==> p.out[i] == CaseOut(h.objs[i].func, SUCCESS) && h.objs[i] in h.objs;
  }

  lemma {:induction false} AllCounted(st: seq<int>)
    ensures HowMany(st, SUCCESS) <= |st|
    ensures HowMany(st, SUCCESS) == |st| <==> forall i :: 0 <= i < |st| ==> st[i] == SUCCESS
    decreases |st|
  {
    if st != [] {
      var n := |st| - 1;
      AllCounted(st[..n]);
      assert forall i :: 0 <= i < n ==> st[..n][i] == st[i];
    }
  }

  /** What u_test_run makes of the summary */
  method AllPassed(h: Head, ghost p: Plan) returns (passed: bool)
    requires InOrder(p) && Statuses(h.objs) == Finals(p)
    ensures passed <==> forall i :: 0 <= i < |p.g| ==> p.out[i] == SUCCESS
  {
    hide Finals, Tally;
    var syn := Summarize(h);
    passed := syn.total == syn.pass;
    AllPassIffEachWould(p);
    Counted(Statuses(h.objs));
  }

  /** u_test_scheduler, by the plans for suites and cases */
  method RunPlan(h: Head, suites: seq<Suite>, ghost p: Plan, ghost cps: seq<Plan>) returns (passed: bool)
    requires Linked(h, p) && Separate(h, suites) && SuiteOuts(p, cps) && Statuses(h.objs) == p.st
    requires forall k :: 0 <= k < |suites| ==> CasesReady(suites[k], cps[k])
    requires forall k :: 0 <= k < |suites| ==>
      p.st[k] == SUCCESS && cps[k].st == seq(|suites[k].cases.objs|, _ => SUCCESS)
    modifies h.objs`status, Cases(suites)
    ensures passed <==> forall i :: 0 <= i < |p.g| ==> p.out[i] == SUCCESS
    ensures forall i :: 0 <= i < |suites| ==> SuiteEnded(h, suites[i])
  {
    hide Cases, Own, LinkedObj, Finals, Tally, SuiteEnded, CasesOver;
    ScheduleSuites(h, suites, p, cps);
    AllSuitesEnd(h, suites, p, cps);
    passed := AllPassed(h, p);
  }

  /** u_test_scheduler, and what u_test_run makes of the summary */
  method RunSequenced(h: Head, suites: seq<Suite>, ghost g: Graph, ghost gs: seq<Graph>) returns (passed: bool)
    requires Separate(h, suites) && |gs| == |suites| && UniqueIds(g) && Succeeds(g) && Shows(h, g, Sequenced(g))
    requires forall i :: 0 <= i < |suites| ==>
      UniqueIds(gs[i]) && Succeeds(gs[i]) && Shows(suites[i].cases, gs[i], Sequenced(gs[i]))
    modifies h.objs`status, Cases(suites)
    ensures passed <==> forall i :: 0 <= i < |suites| ==> CasesWouldPass(suites[i].cases)
    ensures forall i :: 0 <= i < |suites| ==> SuiteEnded(h, suites[i])
  {
    hide Succeeds, Sequenced, Cases, Own, Shows, CasesWouldPass, Linked, CasesReady, SuiteOuts, SuiteEnded, Statuses;
    ghost var cps, p := Plans(h, suites, g, gs);
    passed := RunPlan(h, suites, p, cps);
  }

  /** u_test_run, without its options and its report: the test passes exactly when suites and cases can
      be sequenced and every test function there is returns success. */
  method RunTest(h: Head, suites: seq<Suite>, ghost g: Graph, ghost gs: seq<Graph>) returns (passed: bool)
    requires Separate(h, suites) && |gs| == |suites| && UniqueIds(g) && Shows(h, g, Initial(g))
    requires forall i :: 0 <= i < |suites| ==> UniqueIds(gs[i]) && Shows(suites[i].cases, gs[i], Initial(gs[i]))
    modifies Own(h), Cases(suites)
    ensures passed <==>
      && Succeeds(g) && (forall i :: 0 <= i < |suites| ==> Succeeds(gs[i]))
      && forall i :: 0 <= i < |suites| ==> CasesWouldPass(suites[i].cases)
    ensures Succeeds(g) && (forall i :: 0 <= i < |suites| ==> Succeeds(gs[i])) ==>
      forall i :: 0 <= i < |suites| ==> SuiteEnded(h, suites[i])
  {
    hide Initial, Succeeds, Sequenced, Cases, Own, ShowsFrom, CasesWouldPass, SuiteEnded;
    var ok := SequenceTest(h, suites, g, gs);
    if !ok {
      return false;
    }
    passed := RunSequenced(h, suites, g, gs);
  }

  lemma Counted(st: seq<int>)
    ensures Tally(st).total == Tally(st).pass <==> forall i :: 0 <= i < |st| ==> st[i] == SUCCESS
  {
    AllCounted(st);
  }

  /** The plans for suites and cases that have been sequenced */
  lemma Plans(h: Head, suites: seq<Suite>, g: Graph, gs: seq<Graph>) returns (cps: seq<Plan>, p: Plan)
    requires Separate(h, suites) && |gs| == |suites| && UniqueIds(g) && Succeeds(g) && Shows(h, g, Sequenced(g))
    requires forall i :: 0 <= i < |suites| ==>
      UniqueIds(gs[i]) && Succeeds(gs[i]) && Shows(suites[i].cases, gs[i], Sequenced(gs[i]))
    ensures Linked(h, p) && SuiteOuts(p, cps) && Statuses(h.objs) == p.st && |p.g| == |suites|
    ensures forall k :: 0 <= k < |suites| ==> CasesReady(suites[k], cps[k])
    ensures forall k :: 0 <= k < |suites| ==>
      p.st[k] == SUCCESS && cps[k].st == seq(|suites[k].cases.objs|, _ => SUCCESS)
    ensures (forall i :: 0 <= i < |p.g| ==> p.out[i] == SUCCESS) <==>
            forall i :: 0 <= i < |suites| ==> CasesWouldPass(suites[i].cases)
  {
    hide ShowsFrom, LinkedObj, Finals, CasesWouldPass, CaseOuts, Succeeds, Sequenced;
    forall k | 0 <= k < |suites| ensures CasesReady(suites[k], CasePlan(suites[k].cases, gs[k])) {
      CasePlanReady(suites[k], gs[k]);
    }
    cps := seq(|suites|, k requires 0 <= k < |suites| => CasePlan(suites[k].cases, gs[k]));
    var s := Sequenced(g);
    p := Plan(g, s.rank, s.currank, seq(|g|, _ => SUCCESS),
              seq(|g|, k requires 0 <= k < |g| => SuiteOut(cps[k], SUCCESS)));
    SequencedIsLinked(h, g, p);
    StatusesShown(h, g);
    forall k | 0 <= k < |suites| ensures p.out[k] == SUCCESS <==> CasesWouldPass(suites[k].cases) {
      SuiteWouldPass(suites[k].cases, gs[k]);
    }
  }
}

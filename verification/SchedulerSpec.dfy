/**
 What the serial test scheduler of srcs/toolbox/test.c does with sequenced test objects: rank by rank,
 each is run or, when something it depends on did not succeed, skipped.
 */
module SchedulerSpec {
  import opened SequencerSpec

  const SUCCESS := 0
  const FAILURE := 1
  const ABORTED := 2
  const SKIPPED := 3

  /** A list of sequenced objects: their graph and ranks, their statuses, and for each the status it
      gets when it is run. */
  datatype Plan = Plan(g: Graph, rank: seq<nat>, currank: nat, st: seq<int>, out: seq<int>)

  ghost predicate Sane(p: Plan) {
    |p.g| == |p.rank| == |p.st| == |p.out|
  }

  /** What a successful run of the sequencer leaves. */
  ghost predicate InOrder(p: Plan) {
    && Sane(p)
    && (forall i: nat, j: nat :: DependsOn(p.g, i, j) ==> p.rank[j] < p.rank[i])
    && (forall i :: 0 <= i < |p.g| ==> p.rank[i] <= p.currank)
  }

  ghost predicate DepFailed(g: Graph, st: seq<int>, i: nat)
    requires |st| == |g|
  {
    exists j: nat :: DependsOn(g, i, j) && st[j] != SUCCESS
  }

  ghost function Handle(p: Plan, st: seq<int>, i: nat): (r: seq<int>)
    requires Sane(p) && |st| == |p.g| && i < |p.g|
    ensures |r| == |st|
  {
    st[i := if DepFailed(p.g, st, i) then SKIPPED else p.out[i]]
  }

  /** Those of the first `n` objects that have rank `r`, in list order. */
  function OfRank(rank: seq<nat>, r: nat, n: nat): seq<nat>
    requires n <= |rank|
  {
    if n == 0 then [] else OfRank(rank, r, n - 1) + if rank[n - 1] == r then [n - 1] else []
  }

  /** The objects of ranks below `r`, in the order they are handled. */
  function Below(rank: seq<nat>, r: nat): seq<nat> {
    if r == 0 then [] else Below(rank, r - 1) + OfRank(rank, r - 1, |rank|)
  }

  ghost predicate Indices(order: seq<nat>, n: nat) { forall k :: 0 <= k < |order| ==> order[k] < n }

  ghost function Serve(p: Plan, order: seq<nat>): (st: seq<int>)
    requires Sane(p) && Indices(order, |p.g|)
    ensures |st| == |p.g|
  {
    if order == [] then p.st else Handle(p, Serve(p, order[..|order| - 1]), order[|order| - 1])
  }

  // ---------- The order ----------

  ghost predicate Distinct(s: seq<nat>) { forall a, b :: 0 <= a < b < |s| ==> s[a] != s[b] }

  ghost predicate ByRank(rank: seq<nat>, s: seq<nat>) {
    && Indices(s, |rank|)
    && forall a, b :: 0 <= a < b < |s| ==> rank[s[a]] <= rank[s[b]]
  }

  lemma {:induction false} OfRankLaws(rank: seq<nat>, r: nat, n: nat)
    requires n <= |rank|
    ensures Distinct(OfRank(rank, r, n)) && forall i: nat :: i in OfRank(rank, r, n) <==> i < n && rank[i] == r
    decreases n
  {
    if n > 0 {
      OfRankLaws(rank, r, n - 1);
    }
  }

  lemma {:induction false} BelowLaws(rank: seq<nat>, r: nat)
    ensures Distinct(Below(rank, r)) && ByRank(rank, Below(rank, r))
    ensures forall i: nat :: i in Below(rank, r) <==> i < |rank| && rank[i] < r
    decreases r
  {
    hide Distinct, ByRank, OfRank;
    NoneInOrder(rank);
    if r > 0 {
      BelowLaws(rank, r - 1);
      OfRankLaws(rank, r - 1, |rank|);
      RanksJoin(rank, Below(rank, r - 1), OfRank(rank, r - 1, |rank|), r - 1);
    }
  }

  lemma NoneInOrder(rank: seq<nat>)
    ensures Distinct([]) && ByRank(rank, [])
  {
  }

  lemma RanksJoin(rank: seq<nat>, a: seq<nat>, b: seq<nat>, r: nat)
    requires Distinct(a) && Distinct(b) && ByRank(rank, a)
    requires forall i: nat :: i in a <==> i < |rank| && rank[i] < r
    requires forall i: nat :: i in b <==> i < |rank| && rank[i] == r
    ensures Distinct(a + b) && ByRank(rank, a + b)
    ensures forall i: nat :: i in a + b <==> i < |rank| && rank[i] < r + 1
  {
    assert forall k :: 0 <= k < |a| ==> a[k] in a;
    assert forall k :: 0 <= k < |b| ==> b[k] in b;
  }

  /** The order in which a list is handled: every object once, after all it depends on. */
  ghost function Order(p: Plan): seq<nat> { Below(p.rank, p.currank + 1) }

  lemma OrderLaws(p: Plan)
    requires InOrder(p)
    ensures Distinct(Order(p)) && ByRank(p.rank, Order(p)) && Indices(Order(p), |p.g|)
    ensures forall i: nat :: i in Order(p) <==> i < |p.g|
    ensures forall a, b :: 0 <= a < |Order(p)| && 0 <= b < |Order(p)| ==>
      DependsOn(p.g, Order(p)[a], Order(p)[b]) ==> b < a
  {
    BelowLaws(p.rank, p.currank + 1);
    var s := Order(p);
    forall a, b | 0 <= a < |s| && 0 <= b < |s| && DependsOn(p.g, s[a], s[b]) ensures b < a {
      assert p.rank[s[b]] < p.rank[s[a]];
    }
  }

  // ---------- The final statuses ----------

  /** The status of `i` is what those of its dependencies make it. */
  ghost predicate Settled(p: Plan, st: seq<int>, i: nat)
    requires Sane(p) && |st| == |p.g| && i < |p.g|
  {
    st[i] == if DepFailed(p.g, st, i) then SKIPPED else p.out[i]
  }

  lemma HandleSettles(p: Plan, st: seq<int>, i: nat)
    requires InOrder(p) && |st| == |p.g| && i < |p.g|
    ensures Settled(p, Handle(p, st, i), i)
    ensures forall k :: 0 <= k < |p.g| && k != i && !DependsOn(p.g, k, i) && Settled(p, st, k) ==>
      Settled(p, Handle(p, st, i), k)
  {
    var st' := Handle(p, st, i);
    assert forall j: nat :: DependsOn(p.g, i, j) ==> st'[j] == st[j];
    forall k | 0 <= k < |p.g| && k != i && !DependsOn(p.g, k, i) && Settled(p, st, k) ensures Settled(p, st', k) {
      assert forall j: nat :: DependsOn(p.g, k, j) ==> st'[j] == st[j];
    }
  }

  lemma {:induction false} ServeSettles(p: Plan, order: seq<nat>)
    requires InOrder(p) && Distinct(order) && ByRank(p.rank, order)
    ensures forall k :: 0 <= k < |order| ==> Settled(p, Serve(p, order), order[k])
    decreases |order|
  {
    if order != [] {
      var n := |order| - 1;
      ServeSettles(p, order[..n]);
      HandleSettles(p, Serve(p, order[..n]), order[n]);
      forall k | 0 <= k < n ensures Settled(p, Serve(p, order), order[k]) {
        assert order[..n][k] == order[k];
      }
    }
  }

  ghost function Finals(p: Plan): (st: seq<int>)
    requires InOrder(p)
    ensures |st| == |p.g|
  {
    OrderLaws(p);
    Serve(p, Order(p))
  }

  /** In the end every object has the status of its run or, when and only when one of its dependencies
      did not end with success, has been skipped. */
  lemma FinalsSettle(p: Plan)
    requires InOrder(p)
    ensures forall i :: 0 <= i < |p.g| ==> Settled(p, Finals(p), i)
  {
    OrderLaws(p);
    ServeSettles(p, Order(p));
    forall i: nat | i < |p.g| ensures Settled(p, Finals(p), i) {
      assert i in Order(p);
    }
  }

  /** The statuses that settle a plan are unique. */
  lemma {:induction false} SettledIsUnique(p: Plan, a: seq<int>, b: seq<int>, i: nat)
    requires InOrder(p) && |a| == |b| == |p.g| && i < |p.g|
    requires forall k :: 0 <= k < |p.g| ==> Settled(p, a, k) && Settled(p, b, k)
    ensures a[i] == b[i]
    decreases p.rank[i]
  {
    forall j: nat | DependsOn(p.g, i, j) ensures a[j] == b[j] {
      SettledIsUnique(p, a, b, j);
    }
    assert Settled(p, a, i) && Settled(p, b, i);
  }

  // ---------- Failure spreads along chains of dependencies ----------

  /** An object that was run, all it depends on having succeeded, and did not succeed itself. */
  ghost predicate RanBadly(p: Plan, i: nat)
    requires InOrder(p)
  {
    i < |p.g| && !DepFailed(p.g, Finals(p), i) && Finals(p)[i] != SUCCESS
  }

  /** The last of a chain of at least two objects that starts with `i` ran badly. */
  ghost predicate Spoiled(p: Plan, c: seq<nat>, i: nat)
    requires InOrder(p)
  {
    Chain(p.g, c) && |c| >= 2 && c[0] == i && RanBadly(p, c[|c| - 1])
  }

  lemma {:induction false} FailureComesFrom(p: Plan, i: nat) returns (c: seq<nat>)
    requires InOrder(p) && i < |p.g| && DepFailed(p.g, Finals(p), i)
    ensures Spoiled(p, c, i)
    decreases p.rank[i]
  {
    var j: nat :| DependsOn(p.g, i, j) && Finals(p)[j] != SUCCESS;
    if DepFailed(p.g, Finals(p), j) {
      var d := FailureComesFrom(p, j);
      c := [i] + d;
    } else {
      c := [i, j];
    }
  }

  lemma {:induction false} FailureSpreads(p: Plan, c: seq<nat>, i: nat)
    requires InOrder(p) && Spoiled(p, c, i)
    ensures DepFailed(p.g, Finals(p), i)
    decreases |c|
  {
    assert DependsOn(p.g, c[0], c[1]);
    if |c| > 2 {
      FailureSpreads(p, c[1..], c[1]);
      FinalsSettle(p);
      assert Settled(p, Finals(p), c[1]);
    }
  }

  /** An object is skipped, not run, exactly when some object it depends on, directly or through
      others, was run and did not succeed. */
  lemma SkippedIffSpoiled(p: Plan, i: nat)
    requires InOrder(p) && i < |p.g|
    ensures DepFailed(p.g, Finals(p), i) <==> exists c :: Spoiled(p, c, i)
    ensures Finals(p)[i] == if DepFailed(p.g, Finals(p), i) then SKIPPED else p.out[i]
  {
    FinalsSettle(p);
    assert Settled(p, Finals(p), i);
    if DepFailed(p.g, Finals(p), i) {
      var c := FailureComesFrom(p, i);
    } else if c :| Spoiled(p, c, i) {
      FailureSpreads(p, c, i);
    }
  }

  // ---------- Suites ----------

  /** The status a suite gets when it is run: FAILURE when some case did not succeed. */
  ghost function SuiteOut(cases: Plan, before: int): int
    requires InOrder(cases)
  {
    if exists i :: 0 <= i < |cases.g| && Finals(cases)[i] != SUCCESS then FAILURE else before
  }

  /** All objects of a list end with success exactly when each, run by itself, would. */
  lemma AllPassIffEachWould(p: Plan)
    requires InOrder(p)
    ensures (forall i :: 0 <= i < |p.g| ==> Finals(p)[i] == SUCCESS) <==>
            forall i :: 0 <= i < |p.g| ==> p.out[i] == SUCCESS
  {
    FinalsSettle(p);
    if i :| 0 <= i < |p.g| && p.out[i] != SUCCESS {
      assert Settled(p, Finals(p), i);
    } else {
      var all := seq(|p.g|, _ => SUCCESS);
      forall i | 0 <= i < |p.g| ensures Finals(p)[i] == SUCCESS {
        assert forall k :: 0 <= k < |p.g| ==> Settled(p, all, k);
        SettledIsUnique(p, Finals(p), all, i);
      }
    }
  }

  // ---------- Objects not handled yet, and objects handled before ----------

  lemma {:induction false} NotServed(p: Plan, order: seq<nat>, i: nat)
    requires Sane(p) && Indices(order, |p.g|) && i < |p.g| && i !in order
    ensures Serve(p, order)[i] == p.st[i]
    decreases |order|
  {
    if order != [] {
      NotServed(p, order[..|order| - 1], i);
    }
  }

  lemma ServeOne(p: Plan, order: seq<nat>, i: nat)
    requires Sane(p) && Indices(order, |p.g|) && i < |p.g|
    ensures Serve(p, order + [i]) == Handle(p, Serve(p, order), i)
  {
    assert (order + [i])[..|order|] == order;
  }

  /** The objects handled when those of ranks below `r` and the first `n` of rank `r` have been. */
  ghost function SoFar(p: Plan, r: nat, n: nat): (order: seq<nat>)
    requires Sane(p) && n <= |p.g|
    ensures Indices(order, |p.g|)
  {
    BelowLaws(p.rank, r);
    OfRankLaws(p.rank, r, n);
    var rest := OfRank(p.rank, r, n);
    assert forall k :: 0 <= k < |rest| ==> rest[k] in rest;
    Below(p.rank, r) + rest
  }

  lemma SoFarLaws(p: Plan, r: nat, n: nat)
    requires Sane(p) && n <= |p.g|
    ensures forall i: nat :: i in SoFar(p, r, n) <==> i < |p.g| && (p.rank[i] < r || (p.rank[i] == r && i < n))
  {
    BelowLaws(p.rank, r);
    OfRankLaws(p.rank, r, n);
  }

  lemma SoFarSteps(p: Plan, r: nat, n: nat)
    requires Sane(p) && n < |p.g|
    ensures SoFar(p, r, n + 1) == if p.rank[n] == r then SoFar(p, r, n) + [n] else SoFar(p, r, n)
  {
  }

  lemma SoFarWraps(p: Plan, r: nat)
    requires Sane(p)
    ensures SoFar(p, r, |p.g|) == SoFar(p, r + 1, 0) == Below(p.rank, r + 1) && SoFar(p, 0, 0) == []
  {
  }

  /** Handling the next object does not touch what decided on those handled before. */
  lemma LaterDoesNotMatter(p: Plan, r: nat, n: nat, st: seq<int>, k: nat)
    requires InOrder(p) && |st| == |p.g| && n < |p.g| && p.rank[n] == r && k in SoFar(p, r, n)
    ensures k < |p.g| && k != n && DepFailed(p.g, Handle(p, st, n), k) == DepFailed(p.g, st, k)
  {
    SoFarLaws(p, r, n);
    assert !DependsOn(p.g, k, n);
    assert forall j: nat :: DependsOn(p.g, k, j) ==> Handle(p, st, n)[j] == st[j];
  }

  // ---------- The summary ----------

  datatype Summary = Summary(total: nat, pass: nat, fail: nat, abrt: nat, skip: nat)

  function HowMany(st: seq<int>, v: int): nat {
    if st == [] then 0 else HowMany(st[..|st| - 1], v) + if st[|st| - 1] == v then 1 else 0
  }

  function Tally(st: seq<int>): Summary {
    Summary(|st|, HowMany(st, SUCCESS), HowMany(st, FAILURE), HowMany(st, ABORTED), HowMany(st, SKIPPED))
  }

  /** The places at which `v` stands */
  function Places(st: seq<int>, v: int): set<nat> { set i: nat | i < |st| && st[i] == v }

  /** The total is that of all statuses, and each count is that of the statuses 0, 1, 2 and 3 in turn. */
  lemma TallyCounts(st: seq<int>)
    ensures var s := Tally(st);
            && s.total == |st| && s.pass == |Places(st, 0)| && s.fail == |Places(st, 1)|
            && s.abrt == |Places(st, 2)| && s.skip == |Places(st, 3)|
  {
    HowManyPlaces(st, SUCCESS);
    HowManyPlaces(st, FAILURE);
    HowManyPlaces(st, ABORTED);
    HowManyPlaces(st, SKIPPED);
  }

  lemma {:induction false} HowManyPlaces(st: seq<int>, v: int)
    ensures HowMany(st, v) == |Places(st, v)|
    decreases |st|
  {
    if st != [] {
      var n := |st| - 1;
      HowManyPlaces(st[..n], v);
      assert Places(st, v) == Places(st[..n], v) + if st[n] == v then {n} else {};
    }
  }

  /** The four counts add up to the total exactly when every status is one of the four. */
  lemma {:induction false} TallyAddsUp(st: seq<int>)
    ensures var s := Tally(st); s.pass + s.fail + s.abrt + s.skip <= s.total
    ensures var s := Tally(st);
            s.pass + s.fail + s.abrt + s.skip == s.total <==> forall i :: 0 <= i < |st| ==> SUCCESS <= st[i] <= SKIPPED
    decreases |st|
  {
    if st != [] {
      var n := |st| - 1;
      TallyAddsUp(st[..n]);
      assert forall i :: 0 <= i < n ==> st[..n][i] == st[i];
    }
  }
}

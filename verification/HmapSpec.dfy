/**
 What the hash map of srcs/toolbox/hmap.c promises, with and without a discard policy: a finite map,
 and for a cache a queue of its objects.  The laws say which object a full cache gives up, over every
 run.
 */
module HmapSpec {
  import opened Wrappers

  datatype Policy = NoPolicy | Fifo | Lru | Lfu | Custom

  datatype Rc = ErrNone | ErrExists | ErrFail

  /** An object in the policy queue; `count` is used by LFU only. */
  datatype Slot<K, V> = Slot(key: K, val: V, count: nat)

  datatype Cache<K, V> = Cache(m: map<K, V>, q: seq<Slot<K, V>>)

  /** The options fixed at creation; `prio` compares values under CUSTOM. */
  datatype Config<!V> = Config(policy: Policy, max: nat, overwrite: bool, prio: (V, V) -> int)

  datatype Op<K, V> = Put(key: K, val: V) | Get(key: K)

  // ---------- The queue ----------

  /** The place of the first slot for `key`, or the length of the queue. */
  function Find<K(==), V>(q: seq<Slot<K, V>>, key: K): (i: nat)
    ensures i <= |q|
    ensures i < |q| ==> q[i].key == key
    ensures forall j :: 0 <= j < i ==> q[j].key != key
  {
    if q == [] then 0 else if q[0].key == key then 0 else 1 + Find(q[1..], key)
  }

  function RemoveAt<T>(q: seq<T>, i: nat): (r: seq<T>)
    requires i < |q|
    ensures |r| == |q| - 1
    ensures forall j :: 0 <= j < |r| ==> r[j] == q[if j < i then j else j + 1]
  {
    q[..i] + q[i + 1..]
  }

  function InsertAt<T>(q: seq<T>, i: nat, x: T): (r: seq<T>)
    requires i <= |q|
    ensures |r| == |q| + 1 && r[i] == x
    ensures forall j :: 0 <= j < |r| && j != i ==> r[j] == q[if j < i then j else j - 1]
  {
    q[..i] + [x] + q[i..]
  }

  function Remove<K(==), V>(q: seq<Slot<K, V>>, key: K): seq<Slot<K, V>> {
    var i := Find(q, key);
    if i < |q| then RemoveAt(q, i) else q
  }

  /** The first slot, from `from` on, counted more often than `count`. */
  function FirstAbove<K, V>(q: seq<Slot<K, V>>, from: nat, count: nat): (i: nat)
    requires from <= |q|
    ensures from <= i <= |q|
    ensures forall j :: from <= j < i ==> q[j].count <= count
    ensures i < |q| ==> q[i].count > count
    decreases |q| - from
  {
    if from == |q| || q[from].count > count then from else FirstAbove(q, from + 1, count)
  }

  /** The first slot, from `from` on, whose value has a priority not above that of `v`. */
  function FirstNotAbove<K, V>(q: seq<Slot<K, V>>, from: nat, v: V, prio: (V, V) -> int): (i: nat)
    requires from <= |q|
    ensures from <= i <= |q|
    ensures forall j :: from <= j < i ==> prio(v, q[j].val) < 0
    ensures i < |q| ==> prio(v, q[i].val) >= 0
    decreases |q| - from
  {
    if from == |q| || prio(v, q[from].val) >= 0 then from else FirstNotAbove(q, from + 1, v, prio)
  }

  /** The push of a stored object that has no slot yet. */
  function Enqueue<K, V>(cfg: Config<V>, q: seq<Slot<K, V>>, key: K, v: V): seq<Slot<K, V>> {
    if cfg.policy == NoPolicy then q
    else InsertAt(q, if cfg.policy == Custom then FirstNotAbove(q, 0, v, cfg.prio) else 0, Slot(key, v, 0))
  }

  /** The push of an object just got. */
  function Touch<K(==), V>(policy: Policy, q: seq<Slot<K, V>>, key: K): seq<Slot<K, V>> {
    var i := Find(q, key);
    if i == |q| then q
    else if policy == Lru then InsertAt(RemoveAt(q, i), 0, q[i])
    else if policy == Lfu then
      var n := q[i].count + 1;
      InsertAt(RemoveAt(q, i), FirstAbove(RemoveAt(q, i), i, n), q[i].(count := n))
    else q
  }

  /** The place of the slot a full cache gives up. */
  function VictimAt<K, V>(policy: Policy, q: seq<Slot<K, V>>): nat
    requires q != []
  {
    if policy == Lfu then 0 else |q| - 1
  }

  // ---------- Operations ----------

  predicate Full<K, V>(cfg: Config<V>, c: Cache<K, V>) {
    cfg.policy != NoPolicy && |c.m| >= cfg.max
  }

  function Evict<K, V>(cfg: Config<V>, c: Cache<K, V>): Cache<K, V>
    requires c.q != []
  {
    var i := VictimAt(cfg.policy, c.q);
    Cache(c.m - {c.q[i].key}, RemoveAt(c.q, i))
  }

  /** The cache without the object that one under `key` replaces or, when there is none and the cache
      is full, without the one it gives up. */
  function MakeRoom<K, V>(cfg: Config<V>, c: Cache<K, V>, key: K): Cache<K, V> {
    if key in c.m then Cache(c.m - {key}, Remove(c.q, key))
    else if Full(cfg, c) && c.q != [] then Evict(cfg, c)
    else c
  }

  function DoPut<K, V>(cfg: Config<V>, c: Cache<K, V>, key: K, v: V): (Cache<K, V>, Rc) {
    if key in c.m && !cfg.overwrite then (c, ErrExists)
    else
      var c1 := MakeRoom(cfg, c, key);
      (Cache(c1.m[key := v], Enqueue(cfg, c1.q, key, v)), ErrNone)
  }

  function DoGet<K, V>(cfg: Config<V>, c: Cache<K, V>, key: K): (Cache<K, V>, Option<V>) {
    if key in c.m then (c.(q := Touch(cfg.policy, c.q, key)), Some(c.m[key])) else (c, None)
  }

  function Step<K, V>(cfg: Config<V>, c: Cache<K, V>, op: Op<K, V>): Cache<K, V> {
    match op
    case Put(key, v) => DoPut(cfg, c, key, v).0
    case Get(key) => DoGet(cfg, c, key).0
  }

  /** The cache after a run of operations from the empty one. */
  function Run<K, V>(cfg: Config<V>, ops: seq<Op<K, V>>): Cache<K, V> {
    if ops == [] then Cache(map[], [])
    else Step(cfg, Run(cfg, ops[..|ops| - 1]), ops[|ops| - 1])
  }

  // ---------- Plain maps ----------

  /** u_hmap_del, which leaves the queue alone */
  function DoDel<K, V>(c: Cache<K, V>, key: K): (Cache<K, V>, Option<V>) {
    (c.(m := c.m - {key}), if key in c.m then Some(c.m[key]) else None)
  }

  datatype MapOp<K, V> = Do(op: Op<K, V>) | Del(key: K)

  function MapStep<K, V>(cfg: Config<V>, c: Cache<K, V>, op: MapOp<K, V>): Cache<K, V> {
    match op
    case Do(o) => Step(cfg, c, o)
    case Del(key) => DoDel(c, key).0
  }

  /** A plain map after a run of puts, gets and deletions */
  function MapRun<K, V>(cfg: Config<V>, ops: seq<MapOp<K, V>>): Cache<K, V> {
    if ops == [] then Cache(map[], [])
    else MapStep(cfg, MapRun(cfg, ops[..|ops| - 1]), ops[|ops| - 1])
  }

  predicate PutAt<K(==), V>(ops: seq<MapOp<K, V>>, key: K, i: nat) {
    i < |ops| && ops[i].Do? && ops[i].op.Put? && ops[i].op.key == key
  }

  /** Operation `i` puts an object under `key` which is not deleted later. */
  ghost predicate Lives<K, V>(ops: seq<MapOp<K, V>>, key: K, i: nat) {
    PutAt(ops, key, i) && forall j :: i < j < |ops| ==> ops[j] != Del(key)
  }

  /** The put whose value a map holds: the last living one if puts overwrite, else the first. */
  ghost predicate Counts<K, V>(cfg: Config<V>, ops: seq<MapOp<K, V>>, key: K, i: nat) {
    && Lives(ops, key, i)
    && forall j: nat :: Lives(ops, key, j) ==> if cfg.overwrite then j <= i else i <= j
  }

  /** Over every run a plain map holds the keys put and not deleted since, each with the value of the
      last put since then or, when puts do not overwrite, of the first. */
  lemma {:induction false} RunIsMap<K, V>(cfg: Config<V>, ops: seq<MapOp<K, V>>, key: K)
    requires cfg.policy == NoPolicy
    ensures var c := MapRun(cfg, ops);
            && c.q == [] && (key in c.m <==> exists i: nat :: Lives(ops, key, i))
            && (key in c.m ==> exists i: nat :: Counts(cfg, ops, key, i) && c.m[key] == ops[i].op.val)
    decreases |ops|
  {
    if ops != [] {
      var was, last := ops[..|ops| - 1], ops[|ops| - 1];
      RunIsMap(cfg, was, key);
      if last == Del(key) {
        assert forall i: nat :: !Lives(ops, key, i);
      } else {
        LivesOn(was, last, key);
        assert ops == was + [last];
        LastCounts(cfg, was, last, key);
      }
    }
  }

  /** What lived lives on, and a put at the end lives, too. */
  lemma LivesOn<K, V>(was: seq<MapOp<K, V>>, last: MapOp<K, V>, key: K)
    requires last != Del(key)
    ensures forall i: nat ::
      Lives(was + [last], key, i) <==> Lives(was, key, i) || (i == |was| && PutAt([last], key, 0))
  {
    var ops := was + [last];
    assert ops[|was|] == last && forall j :: 0 <= j < |was| ==> ops[j] == was[j];
  }

  lemma LastCounts<K, V>(cfg: Config<V>, was: seq<MapOp<K, V>>, last: MapOp<K, V>, key: K)
    requires cfg.policy == NoPolicy && last != Del(key)
    requires var c := MapRun(cfg, was);
             && c.q == [] && (key in c.m <==> exists i: nat :: Lives(was, key, i))
             && (key in c.m ==> exists i: nat :: Counts(cfg, was, key, i) && c.m[key] == was[i].op.val)
    ensures var c, ops := MapStep(cfg, MapRun(cfg, was), last), was + [last];
            && c.q == [] && (key in c.m <==> exists i: nat :: Lives(ops, key, i))
            && (key in c.m ==> exists i: nat :: Counts(cfg, ops, key, i) && c.m[key] == ops[i].op.val)
  {
    var c, ops := MapRun(cfg, was), was + [last];
    LivesOn(was, last, key);
    if PutAt([last], key, 0) {
      assert Lives(ops, key, |was|);
    }
    if PutAt([last], key, 0) && (cfg.overwrite || key !in c.m) {
      assert Counts(cfg, ops, key, |was|);
    } else if key in c.m {
      var i: nat :| Counts(cfg, was, key, i) && c.m[key] == was[i].op.val;
      assert Lives(ops, key, i) && ops[i] == was[i] && Counts(cfg, ops, key, i);
    }
  }

  // ---------- The queue holds the cached objects ----------

  function KeySet<K, V>(q: seq<Slot<K, V>>): set<K> { set i | 0 <= i < |q| :: q[i].key }

  ghost predicate Distinct<K, V>(q: seq<Slot<K, V>>) {
    forall i, j :: 0 <= i < j < |q| ==> q[i].key != q[j].key
  }

  /** A cache holds at most `max` objects and queues each of them once; a plain map queues nothing. */
  ghost predicate Queued<K, V>(cfg: Config<V>, c: Cache<K, V>) {
    if cfg.policy == NoPolicy then c.q == [] else Agree(c) && |c.m| <= cfg.max
  }

  lemma FindAt<K, V>(q: seq<Slot<K, V>>, i: nat)
    requires i < |q| && Distinct(q)
    ensures Find(q, q[i].key) == i
  {
    var j := Find(q, q[i].key);
  }

  lemma FindAbsent<K, V>(q: seq<Slot<K, V>>, key: K)
    ensures key in KeySet(q) <==> Find(q, key) < |q|
  {
    var i := Find(q, key);
    if i < |q| {
      assert q[i].key in KeySet(q);
    }
  }

  lemma RemoveAtLaws<K, V>(q: seq<Slot<K, V>>, i: nat)
    requires i < |q| && Distinct(q)
    ensures Distinct(RemoveAt(q, i)) && KeySet(RemoveAt(q, i)) == KeySet(q) - {q[i].key}
  {
    var r := RemoveAt(q, i);
    forall k | k in KeySet(q) - {q[i].key} ensures k in KeySet(r) {
      var j :| 0 <= j < |q| && q[j].key == k;
      assert k == r[if j < i then j else j - 1].key;
    }
  }

  lemma InsertAtLaws<K, V>(q: seq<Slot<K, V>>, i: nat, x: Slot<K, V>)
    requires i <= |q| && Distinct(q) && x.key !in KeySet(q)
    ensures Distinct(InsertAt(q, i, x)) && KeySet(InsertAt(q, i, x)) == KeySet(q) + {x.key}
  {
    var r := InsertAt(q, i, x);
    assert forall j :: 0 <= j < |q| ==> q[j].key in KeySet(q);
    forall k | k in KeySet(q) ensures k in KeySet(r) {
      var j :| 0 <= j < |q| && q[j].key == k;
      assert k == r[if j < i then j else j + 1].key;
    }
    assert r[i].key in KeySet(r);
  }

  /** `r` is `q` or `q` without one slot. */
  ghost predicate Within<K, V>(r: seq<Slot<K, V>>, q: seq<Slot<K, V>>) {
    r == q || exists i :: 0 <= i < |q| && r == RemoveAt(q, i)
  }

  /** The map and the queue agree. */
  ghost predicate Agree<K, V>(c: Cache<K, V>) {
    && Distinct(c.q) && KeySet(c.q) == c.m.Keys
    && forall i :: 0 <= i < |c.q| ==> c.q[i].key in c.m && c.q[i].val == c.m[c.q[i].key]
  }

  lemma RemovalAgrees<K, V>(c: Cache<K, V>, i: nat)
    requires Agree(c) && i < |c.q|
    ensures Agree(Cache(c.m - {c.q[i].key}, RemoveAt(c.q, i)))
    ensures Within(RemoveAt(c.q, i), c.q)
  {
    RemoveAtLaws(c.q, i);
  }

  lemma InsertionAgrees<K, V>(c: Cache<K, V>, i: nat, x: Slot<K, V>)
    requires Agree(c) && i <= |c.q| && x.key !in c.m
    ensures Agree(Cache(c.m[x.key := x.val], InsertAt(c.q, i, x)))
  {
    InsertAtLaws(c.q, i, x);
  }

  lemma MakeRoomLaws<K, V>(cfg: Config<V>, c: Cache<K, V>, key: K)
    requires cfg.max > 0 && cfg.policy != NoPolicy && Queued(cfg, c)
    ensures var c1 := MakeRoom(cfg, c, key);
            Agree(c1) && key !in c1.m && |c1.m| < cfg.max && Within(c1.q, c.q)
  {
    FindAbsent(c.q, key);
    if key in c.m {
      RemovalAgrees(c, Find(c.q, key));
      CardinalLess(c.m, key);
    } else if Full(cfg, c) {
      FullIsQueued(cfg, c);
      RemovalAgrees(c, VictimAt(cfg.policy, c.q));
      CardinalLess(c.m, c.q[VictimAt(cfg.policy, c.q)].key);
    }
  }

  lemma CardinalLess<K, V>(m: map<K, V>, key: K)
    requires key in m
    ensures |m - {key}| == |m| - 1
  {
    assert (m - {key}).Keys == m.Keys - {key};
    assert |m.Keys| == |m| && |(m - {key}).Keys| == |m - {key}|;
  }

  /** Moving an object to another place in the queue. */
  lemma MoveAgrees<K, V>(c: Cache<K, V>, i: nat, at: nat, x: Slot<K, V>)
    requires Agree(c) && i < |c.q| && at < |c.q| && x.key == c.q[i].key && x.val == c.q[i].val
    ensures Agree(Cache(c.m, InsertAt(RemoveAt(c.q, i), at, x)))
  {
    var c1 := Cache(c.m - {x.key}, RemoveAt(c.q, i));
    RemovalAgrees(c, i);
    InsertionAgrees(c1, at, x);
    assert c1.m[x.key := x.val] == c.m;
  }

  lemma QueuedAt<K, V>(c: Cache<K, V>, key: K)
    requires Agree(c) && key in c.m
    ensures Find(c.q, key) < |c.q|
  {
    FindAbsent(c.q, key);
  }

  lemma TouchAgrees<K, V>(policy: Policy, c: Cache<K, V>, key: K)
    requires Agree(c) && key in c.m
    ensures Agree(Cache(c.m, Touch(policy, c.q, key)))
  {
    hide Agree, Find, RemoveAt, InsertAt, FirstAbove;
    QueuedAt(c, key);
    var i := Find(c.q, key);
    if policy == Lru {
      MoveAgrees(c, i, 0, c.q[i]);
    } else if policy == Lfu {
      var n := c.q[i].count + 1;
      MoveAgrees(c, i, FirstAbove(RemoveAt(c.q, i), i, n), c.q[i].(count := n));
    }
  }

  lemma PutQueued<K, V>(cfg: Config<V>, c: Cache<K, V>, key: K, v: V)
    requires cfg.max > 0 && cfg.policy != NoPolicy && Queued(cfg, c)
    ensures Queued(cfg, DoPut(cfg, c, key, v).0)
  {
    hide Agree, Find, RemoveAt, InsertAt, MakeRoom, FirstNotAbove;
    if key !in c.m || cfg.overwrite {
      var c1 := MakeRoom(cfg, c, key);
      MakeRoomLaws(cfg, c, key);
      InsertionAgrees(c1, if cfg.policy == Custom then FirstNotAbove(c1.q, 0, v, cfg.prio) else 0,
                      Slot(key, v, 0));
      CardinalLess(c1.m[key := v], key);
      assert c1.m[key := v] - {key} == c1.m;
    }
  }

  lemma StepQueued<K, V>(cfg: Config<V>, c: Cache<K, V>, op: Op<K, V>)
    requires cfg.max > 0 && Queued(cfg, c)
    ensures Queued(cfg, Step(cfg, c, op))
  {
    hide Agree, Touch, MakeRoom;
    if cfg.policy == NoPolicy {
      PlainPut(cfg, c, op);
    } else if op.Put? {
      PutQueued(cfg, c, op.key, op.val);
    } else if op.key in c.m {
      TouchAgrees(cfg.policy, c, op.key);
    }
  }

  lemma PlainPut<K, V>(cfg: Config<V>, c: Cache<K, V>, op: Op<K, V>)
    requires cfg.policy == NoPolicy && c.q == []
    ensures Step(cfg, c, op).q == []
  {
  }

  /** A full cache has something to give up. */
  lemma FullIsQueued<K, V>(cfg: Config<V>, c: Cache<K, V>)
    requires cfg.max > 0 && Queued(cfg, c) && Full(cfg, c)
    ensures c.q != [] && c.q[VictimAt(cfg.policy, c.q)].key in c.m
  {
    assert |c.m.Keys| == |c.m|;
    var k :| k in c.m.Keys;
    assert k in KeySet(c.q);
  }

  /** Over every run the cache queues exactly its objects and never holds more than `max`. */
  lemma {:induction false} RunQueued<K, V>(cfg: Config<V>, ops: seq<Op<K, V>>)
    requires cfg.max > 0
    ensures Queued(cfg, Run(cfg, ops))
    decreases |ops|
  {
    if ops == [] {
      assert KeySet<K, V>([]) == {};
    } else {
      RunQueued(cfg, ops[..|ops| - 1]);
      StepQueued(cfg, Run(cfg, ops[..|ops| - 1]), ops[|ops| - 1]);
    }
  }

  /** A full cache, asked to store under a new key, gives up the object of its victim slot and no other. */
  ghost predicate GivesWay<K, V>(cfg: Config<V>, c: Cache<K, V>, key: K, v: V, e: K) {
    && e in c.m
    && DoPut(cfg, c, key, v).1 == ErrNone
    && DoPut(cfg, c, key, v).0.m == (c.m - {e})[key := v]
  }

  lemma VictimGivesWay<K, V>(cfg: Config<V>, c: Cache<K, V>, key: K, v: V)
    requires cfg.max > 0 && Queued(cfg, c) && Full(cfg, c) && key !in c.m
    ensures c.q != [] && GivesWay(cfg, c, key, v, c.q[VictimAt(cfg.policy, c.q)].key)
  {
    FullIsQueued(cfg, c);
  }

  // ---------- FIFO and LRU: the oldest goes first ----------

  /** `op` renews the stay of `k`: it stores an object for it or, under LRU and LFU, finds one. */
  predicate Renews<K(==), V>(cfg: Config<V>, c: Cache<K, V>, op: Op<K, V>, k: K) {
    op.key == k && if op.Get? then cfg.policy in {Lru, Lfu} && k in c.m else k !in c.m || cfg.overwrite
  }

  /** When `k` was last stored or, under LRU and LFU, found in a run; -1 if never. */
  function LastUse<K(==), V>(cfg: Config<V>, ops: seq<Op<K, V>>, k: K): (t: int)
    ensures -1 <= t < |ops|
  {
    if ops == [] then -1
    else
      var n := |ops| - 1;
      if Renews(cfg, Run(cfg, ops[..n]), ops[n], k) then n else LastUse(cfg, ops[..n], k)
  }

  /** The queue lists keys from the latest to the earliest time. */
  ghost predicate LatestFirst<K, V>(q: seq<Slot<K, V>>, time: K -> int) {
    forall i, j :: 0 <= i < j < |q| ==> time(q[i].key) > time(q[j].key)
  }

  lemma RemovalStaysLatestFirst<K, V>(r: seq<Slot<K, V>>, q: seq<Slot<K, V>>, time: K -> int)
    requires LatestFirst(q, time) && Within(r, q)
    ensures LatestFirst(r, time)
  {
  }

  lemma RenewedComesFirst<K, V>(r: seq<Slot<K, V>>, x: Slot<K, V>, time: K -> int, time': K -> int)
    requires LatestFirst(r, time) && x.key !in KeySet(r)
    requires forall k :: k != x.key ==> time'(k) == time(k) < time'(x.key)
    ensures LatestFirst(InsertAt(r, 0, x), time')
  {
    assert forall i :: 0 <= i < |r| ==> r[i].key in KeySet(r);
  }

  lemma StepLatestFirst<K, V>(cfg: Config<V>, c: Cache<K, V>, op: Op<K, V>, now: int, time: K -> int, time': K -> int)
    requires cfg.max > 0 && cfg.policy in {Fifo, Lru} && Queued(cfg, c) && LatestFirst(c.q, time)
    requires forall k :: time(k) < now
    requires forall k :: time'(k) == if Renews(cfg, c, op, k) then now else time(k)
    ensures LatestFirst(Step(cfg, c, op).q, time')
  {
    if !Renews(cfg, c, op, op.key) {
      assert Step(cfg, c, op).q == c.q;
    } else if op.Get? {
      FindAbsent(c.q, op.key);
      var i := Find(c.q, op.key);
      RemoveAtLaws(c.q, i);
      RemovalStaysLatestFirst(RemoveAt(c.q, i), c.q, time);
      RenewedComesFirst(RemoveAt(c.q, i), c.q[i], time, time');
    } else {
      var r := MakeRoom(cfg, c, op.key).q;
      MakeRoomLaws(cfg, c, op.key);
      RemovalStaysLatestFirst(r, c.q, time);
      RenewedComesFirst(r, Slot(op.key, op.val, 0), time, time');
    }
  }

  /** Over every run the queue lists the objects from the last used to the one used longest ago. */
  lemma {:induction false} RunLatestFirst<K, V>(cfg: Config<V>, ops: seq<Op<K, V>>)
    requires cfg.max > 0 && cfg.policy in {Fifo, Lru}
    ensures LatestFirst(Run(cfg, ops).q, k => LastUse(cfg, ops, k))
    decreases |ops|
  {
    if ops != [] {
      var n := |ops| - 1;
      RunLatestFirst(cfg, ops[..n]);
      RunQueued(cfg, ops[..n]);
      StepLatestFirst(cfg, Run(cfg, ops[..n]), ops[n], n,
                      k => LastUse(cfg, ops[..n], k), k => LastUse(cfg, ops, k));
    }
  }

  /** What a full FIFO or LRU cache gives up for a new key is the object used longest ago. */
  lemma OldestGivesWay<K, V>(cfg: Config<V>, ops: seq<Op<K, V>>, key: K, v: V) returns (e: K)
    requires cfg.max > 0 && cfg.policy in {Fifo, Lru}
    requires key !in Run(cfg, ops).m && Full(cfg, Run(cfg, ops))
    ensures GivesWay(cfg, Run(cfg, ops), key, v, e)
    ensures forall k :: k in Run(cfg, ops).m && k != e ==> LastUse(cfg, ops, e) < LastUse(cfg, ops, k)
  {
    var c := Run(cfg, ops);
    RunQueued(cfg, ops);
    RunLatestFirst(cfg, ops);
    VictimGivesWay(cfg, c, key, v);
    e := c.q[|c.q| - 1].key;
    LastIsOldest(c, k => LastUse(cfg, ops, k));
  }

  lemma LastIsOldest<K, V>(c: Cache<K, V>, time: K -> int)
    requires c.q != [] && Agree(c) && LatestFirst(c.q, time)
    ensures forall k :: k in c.m && k != c.q[|c.q| - 1].key ==> time(c.q[|c.q| - 1].key) < time(k)
  {
    forall k | k in c.m && k != c.q[|c.q| - 1].key ensures time(c.q[|c.q| - 1].key) < time(k) {
      assert k in KeySet(c.q);
      var i :| 0 <= i < |c.q| && c.q[i].key == k;
    }
  }

  // ---------- LFU: the least used goes first ----------

  /** How often `k` has been found since it was last stored. */
  function Hits<K(==), V>(cfg: Config<V>, ops: seq<Op<K, V>>, k: K): nat {
    if ops == [] then 0
    else
      var n := |ops| - 1;
      HitsAfter(cfg, Run(cfg, ops[..n]), ops[n], k, Hits(cfg, ops[..n], k))
  }

  function HitsAfter<K(==), V>(cfg: Config<V>, c: Cache<K, V>, op: Op<K, V>, k: K, before: nat): nat {
    if op.key != k then before
    else if op.Get? then before + (if k in c.m then 1 else 0)
    else if k !in c.m || cfg.overwrite then 0
    else before
  }

  /** The queue counts the hits of its keys and lists the least used first. */
  ghost predicate LeastUsedFirst<K, V>(q: seq<Slot<K, V>>, hits: K -> nat) {
    && (forall i :: 0 <= i < |q| ==> q[i].count == hits(q[i].key))
    && CountsSorted(q)
  }

  ghost predicate CountsSorted<K, V>(q: seq<Slot<K, V>>) {
    forall i, j :: 0 <= i < j < |q| ==> q[i].count <= q[j].count
  }

  lemma RemovalStaysSorted<K, V>(r: seq<Slot<K, V>>, q: seq<Slot<K, V>>, hits: K -> nat)
    requires LeastUsedFirst(q, hits) && Within(r, q)
    ensures LeastUsedFirst(r, hits)
  {
  }

  /** A slot put between those counted no more often and those counted more keeps the order. */
  lemma InsertionStaysSorted<K, V>(r: seq<Slot<K, V>>, at: nat, x: Slot<K, V>, hits: K -> nat, hits': K -> nat)
    requires at <= |r| && LeastUsedFirst(r, hits) && x.key !in KeySet(r) && x.count == hits'(x.key)
    requires forall k :: k != x.key ==> hits'(k) == hits(k)
    requires forall j :: 0 <= j < at ==> r[j].count <= x.count
    requires forall j :: at <= j < |r| ==> x.count <= r[j].count
    ensures LeastUsedFirst(InsertAt(r, at, x), hits')
  {
    assert forall i :: 0 <= i < |r| ==> r[i].key in KeySet(r);
  }

  lemma FirstAboveSplits<K, V>(q: seq<Slot<K, V>>, i: nat)
    requires CountsSorted(q) && i < |q| && CountsSorted(RemoveAt(q, i))
    ensures var r, n := RemoveAt(q, i), q[i].count + 1;
            && (forall j :: 0 <= j < FirstAbove(r, i, n) ==> r[j].count <= n)
            && (forall j :: FirstAbove(r, i, n) <= j < |r| ==> n <= r[j].count)
  {
    var r, n := RemoveAt(q, i), q[i].count + 1;
    var at := FirstAbove(r, i, n);
    forall j | 0 <= j < at ensures r[j].count <= n {
      if j < i {
        assert r[j] == q[j];
      }
    }
  }

  lemma HitMovesUp<K, V>(q: seq<Slot<K, V>>, i: nat, hits: K -> nat, hits': K -> nat)
    requires i < |q| && q[i].key !in KeySet(RemoveAt(q, i)) && LeastUsedFirst(q, hits)
    requires hits'(q[i].key) == q[i].count + 1 && forall k :: k != q[i].key ==> hits'(k) == hits(k)
    ensures var r, n := RemoveAt(q, i), q[i].count + 1;
            LeastUsedFirst(InsertAt(r, FirstAbove(r, i, n), q[i].(count := n)), hits')
  {
    var r, n := RemoveAt(q, i), q[i].count + 1;
    assert Within(r, q);
    RemovalStaysSorted(r, q, hits);
    FirstAboveSplits(q, i);
    InsertionStaysSorted(r, FirstAbove(r, i, n), q[i].(count := n), hits, hits');
  }

  lemma CountsHits<K, V>(q: seq<Slot<K, V>>, i: nat, hits: K -> nat)
    requires LeastUsedFirst(q, hits) && i < |q|
    ensures q[i].count == hits(q[i].key)
  {
  }

  lemma TouchStaysSorted<K, V>(q: seq<Slot<K, V>>, key: K, hits: K -> nat, hits': K -> nat)
    requires Distinct(q) && key in KeySet(q) && LeastUsedFirst(q, hits)
    requires hits'(key) == hits(key) + 1 && forall k :: k != key ==> hits'(k) == hits(k)
    ensures LeastUsedFirst(Touch(Lfu, q, key), hits')
  {
    hide Distinct, KeySet, LeastUsedFirst, Find, RemoveAt, InsertAt, FirstAbove;
    FindAbsent(q, key);
    RemoveAtLaws(q, Find(q, key));
    CountsHits(q, Find(q, key), hits);
    HitMovesUp(q, Find(q, key), hits, hits');
  }

  lemma StepLeastUsedFirst<K, V>(cfg: Config<V>, c: Cache<K, V>, op: Op<K, V>, hits: K -> nat, hits': K -> nat)
    requires cfg.max > 0 && cfg.policy == Lfu && Queued(cfg, c) && LeastUsedFirst(c.q, hits)
    requires forall k :: hits'(k) == HitsAfter(cfg, c, op, k, hits(k))
    ensures LeastUsedFirst(Step(cfg, c, op).q, hits')
  {
    if op.Get? && op.key in c.m {
      TouchStaysSorted(c.q, op.key, hits, hits');
    } else if op.Put? && (op.key !in c.m || cfg.overwrite) {
      var r := MakeRoom(cfg, c, op.key).q;
      MakeRoomLaws(cfg, c, op.key);
      RemovalStaysSorted(r, c.q, hits);
      InsertionStaysSorted(r, 0, Slot(op.key, op.val, 0), hits, hits');
    } else {
      assert Step(cfg, c, op).q == c.q;
    }
  }

  /** Over every run an LFU queue counts the hits of its objects and lists the least used first. */
  lemma {:induction false} RunLeastUsedFirst<K, V>(cfg: Config<V>, ops: seq<Op<K, V>>)
    requires cfg.max > 0 && cfg.policy == Lfu
    ensures LeastUsedFirst(Run(cfg, ops).q, k => Hits(cfg, ops, k))
    decreases |ops|
  {
    if ops != [] {
      var n := |ops| - 1;
      RunLeastUsedFirst(cfg, ops[..n]);
      RunQueued(cfg, ops[..n]);
      StepLeastUsedFirst(cfg, Run(cfg, ops[..n]), ops[n], k => Hits(cfg, ops[..n], k), k => Hits(cfg, ops, k));
    }
  }

  /** Among objects used as often, the one stored last comes first when they have not been found at all, and
      otherwise the one whose last hit is oldest. */
  ghost predicate TiesByTime<K, V>(q: seq<Slot<K, V>>, time: K -> int) {
    forall i, j :: 0 <= i < j < |q| && q[i].count == q[j].count ==>
      if q[i].count == 0 then time(q[i].key) > time(q[j].key) else time(q[i].key) < time(q[j].key)
  }

  lemma RemovalKeepsTies<K, V>(r: seq<Slot<K, V>>, q: seq<Slot<K, V>>, time: K -> int)
    requires TiesByTime(q, time) && Within(r, q)
    ensures TiesByTime(r, time)
  {
  }

  lemma InsertionKeepsTies<K, V>(r: seq<Slot<K, V>>, at: nat, x: Slot<K, V>, time: K -> int, time': K -> int)
    requires at <= |r| && TiesByTime(r, time) && x.key !in KeySet(r)
    requires forall k :: k != x.key ==> time'(k) == time(k) < time'(x.key)
    requires if x.count == 0 then at == 0 else forall j :: at <= j < |r| ==> r[j].count != x.count
    ensures TiesByTime(InsertAt(r, at, x), time')
  {
    assert forall i :: 0 <= i < |r| ==> r[i].key in KeySet(r);
  }

  /** Behind the place where an object just found goes, all are used more often. */
  lemma NoneAsOften<K, V>(q: seq<Slot<K, V>>, i: nat)
    requires CountsSorted(q) && i < |q|
    ensures var r, n := RemoveAt(q, i), q[i].count + 1; forall j :: FirstAbove(r, i, n) <= j < |r| ==> r[j].count > n
  {
    var r, n := RemoveAt(q, i), q[i].count + 1;
    var at := FirstAbove(r, i, n);
    forall j | at <= j < |r| ensures r[j].count > n {
      assert r[at] == q[at + 1] && r[j] == q[j + 1];
    }
  }

  lemma TouchKeepsTies<K, V>(q: seq<Slot<K, V>>, key: K, time: K -> int, time': K -> int)
    requires Distinct(q) && key in KeySet(q) && CountsSorted(q) && TiesByTime(q, time)
    requires forall k :: k != key ==> time'(k) == time(k) < time'(key)
    ensures TiesByTime(Touch(Lfu, q, key), time')
  {
    hide Distinct, KeySet, CountsSorted, TiesByTime, Find, RemoveAt, InsertAt, FirstAbove;
    FindAbsent(q, key);
    var i := Find(q, key);
    RemoveAtLaws(q, i);
    var r, n := RemoveAt(q, i), q[i].count + 1;
    assert Within(r, q);
    RemovalKeepsTies(r, q, time);
    NoneAsOften(q, i);
    InsertionKeepsTies(r, FirstAbove(r, i, n), q[i].(count := n), time, time');
  }

  lemma StepKeepsTies<K, V>(cfg: Config<V>, c: Cache<K, V>, op: Op<K, V>, now: int, time: K -> int, time': K -> int)
    requires cfg.max > 0 && cfg.policy == Lfu && Queued(cfg, c) && CountsSorted(c.q) && TiesByTime(c.q, time)
    requires forall k :: time(k) < now
    requires forall k :: time'(k) == if Renews(cfg, c, op, k) then now else time(k)
    ensures TiesByTime(Step(cfg, c, op).q, time')
  {
    if op.Get? && op.key in c.m {
      TouchKeepsTies(c.q, op.key, time, time');
    } else if op.Put? && (op.key !in c.m || cfg.overwrite) {
      var r := MakeRoom(cfg, c, op.key).q;
      MakeRoomLaws(cfg, c, op.key);
      RemovalKeepsTies(r, c.q, time);
      InsertionKeepsTies(r, 0, Slot(op.key, op.val, 0), time, time');
    } else {
      assert Step(cfg, c, op).q == c.q;
    }
  }

  lemma {:induction false} RunTiesByTime<K, V>(cfg: Config<V>, ops: seq<Op<K, V>>)
    requires cfg.max > 0 && cfg.policy == Lfu
    ensures TiesByTime(Run(cfg, ops).q, k => LastUse(cfg, ops, k))
    decreases |ops|
  {
    if ops != [] {
      var n := |ops| - 1;
      RunTiesByTime(cfg, ops[..n]);
      RunLeastUsedFirst(cfg, ops[..n]);
      RunQueued(cfg, ops[..n]);
      StepKeepsTies(cfg, Run(cfg, ops[..n]), ops[n], n, k => LastUse(cfg, ops[..n], k), k => LastUse(cfg, ops, k));
    }
  }

  /** What a full LFU cache gives up has been found no more often than anything else in it.  Among those
      never found it is the one stored last, and else the one that was found last the longest ago. */
  lemma LeastUsedGivesWay<K, V>(cfg: Config<V>, ops: seq<Op<K, V>>, key: K, v: V) returns (e: K)
    requires cfg.max > 0 && cfg.policy == Lfu
    requires key !in Run(cfg, ops).m && Full(cfg, Run(cfg, ops))
    ensures GivesWay(cfg, Run(cfg, ops), key, v, e)
    ensures forall k :: k in Run(cfg, ops).m ==> Hits(cfg, ops, e) <= Hits(cfg, ops, k)
    ensures forall k :: k in Run(cfg, ops).m && k != e && Hits(cfg, ops, k) == Hits(cfg, ops, e) ==>
      if Hits(cfg, ops, e) == 0 then LastUse(cfg, ops, e) > LastUse(cfg, ops, k)
      else LastUse(cfg, ops, e) < LastUse(cfg, ops, k)
  {
    var c := Run(cfg, ops);
    RunQueued(cfg, ops);
    RunLeastUsedFirst(cfg, ops);
    RunTiesByTime(cfg, ops);
    VictimGivesWay(cfg, c, key, v);
    e := c.q[0].key;
    FirstIsLeastUsed(c, k => Hits(cfg, ops, k), k => LastUse(cfg, ops, k));
  }

  lemma FirstIsLeastUsed<K, V>(c: Cache<K, V>, hits: K -> nat, time: K -> int)
    requires c.q != [] && Agree(c) && LeastUsedFirst(c.q, hits) && TiesByTime(c.q, time)
    ensures var e := c.q[0].key; forall k :: k in c.m ==> hits(e) <= hits(k)
    ensures var e := c.q[0].key;
            forall k :: k in c.m && k != e && hits(k) == hits(e) ==>
              if hits(e) == 0 then time(e) > time(k) else time(e) < time(k)
  {
    var e := c.q[0].key;
    forall k | k in c.m && k != e
      ensures hits(e) <= hits(k)
      ensures hits(k) == hits(e) ==> if hits(e) == 0 then time(e) > time(k) else time(e) < time(k)
    {
      assert k in KeySet(c.q);
      var i :| 0 <= i < |c.q| && c.q[i].key == k;
    }
  }

  // ---------- CUSTOM: the lowest priority goes first ----------

  ghost predicate NotBelow<V>(prio: (V, V) -> int, a: V, b: V) { prio(a, b) >= 0 }

  ghost predicate TotalPriority<V(!new)>(prio: (V, V) -> int) {
    && (forall a, b :: NotBelow(prio, a, b) || NotBelow(prio, b, a))
    && (forall a, b, c :: NotBelow(prio, a, b) && NotBelow(prio, b, c) ==> NotBelow(prio, a, c))
  }

  ghost predicate HighestFirst<K, V>(q: seq<Slot<K, V>>, prio: (V, V) -> int) {
    forall i, j :: 0 <= i < j < |q| ==> NotBelow(prio, q[i].val, q[j].val)
  }

  lemma InsertByPriority<K, V(!new)>(q: seq<Slot<K, V>>, key: K, v: V, prio: (V, V) -> int)
    requires TotalPriority(prio) && HighestFirst(q, prio)
    ensures HighestFirst(InsertAt(q, FirstNotAbove(q, 0, v, prio), Slot(key, v, 0)), prio)
  {
    var at := FirstNotAbove(q, 0, v, prio);
    forall j | 0 <= j < at ensures NotBelow(prio, q[j].val, v) {
      assert !NotBelow(prio, v, q[j].val);
    }
    forall j | at <= j < |q| ensures NotBelow(prio, v, q[j].val) {
      assert NotBelow(prio, v, q[at].val) && (j == at || NotBelow(prio, q[at].val, q[j].val));
    }
  }

  lemma RemovalStaysHighestFirst<K, V>(r: seq<Slot<K, V>>, q: seq<Slot<K, V>>, prio: (V, V) -> int)
    requires HighestFirst(q, prio) && Within(r, q)
    ensures HighestFirst(r, prio)
  {
  }

  /** Over every run a CUSTOM queue lists the objects by non-increasing priority. */
  lemma {:induction false} RunHighestFirst<K, V(!new)>(cfg: Config<V>, ops: seq<Op<K, V>>)
    requires cfg.max > 0 && cfg.policy == Custom && TotalPriority(cfg.prio)
    ensures HighestFirst(Run(cfg, ops).q, cfg.prio)
    decreases |ops|
  {
    if ops != [] {
      var n := |ops| - 1;
      var c, op := Run(cfg, ops[..n]), ops[n];
      RunHighestFirst(cfg, ops[..n]);
      RunQueued(cfg, ops[..n]);
      if op.Put? && (op.key !in c.m || cfg.overwrite) {
        var r := MakeRoom(cfg, c, op.key).q;
        MakeRoomLaws(cfg, c, op.key);
        RemovalStaysHighestFirst(r, c.q, cfg.prio);
        InsertByPriority(r, op.key, op.val, cfg.prio);
      }
    }
  }

  /** Among objects of one priority the one stored last comes first. */
  ghost predicate NewestFirst<K, V>(q: seq<Slot<K, V>>, prio: (V, V) -> int, time: K -> int) {
    forall i, j :: 0 <= i < j < |q| && NotBelow(prio, q[j].val, q[i].val) ==> time(q[i].key) > time(q[j].key)
  }

  lemma RemovalStaysNewestFirst<K, V>(r: seq<Slot<K, V>>, q: seq<Slot<K, V>>, prio: (V, V) -> int, time: K -> int)
    requires NewestFirst(q, prio, time) && Within(r, q)
    ensures NewestFirst(r, prio, time)
  {
  }

  lemma NewestComesFirst<K, V>(r: seq<Slot<K, V>>, key: K, v: V, prio: (V, V) -> int,
                               time: K -> int, time': K -> int)
    requires NewestFirst(r, prio, time) && key !in KeySet(r)
    requires forall k :: k != key ==> time'(k) == time(k) < time'(key)
    ensures NewestFirst(InsertAt(r, FirstNotAbove(r, 0, v, prio), Slot(key, v, 0)), prio, time')
  {
    hide InsertAt, FirstNotAbove, NewestFirst, KeySet;
    var at := FirstNotAbove(r, 0, v, prio);
    assert forall j :: 0 <= j < at ==> !NotBelow(prio, v, r[j].val);
    InsertionStaysNewestFirst(r, at, Slot(key, v, 0), prio, time, time');
  }

  lemma InsertionStaysNewestFirst<K, V>(r: seq<Slot<K, V>>, at: nat, x: Slot<K, V>, prio: (V, V) -> int,
                                        time: K -> int, time': K -> int)
    requires at <= |r| && NewestFirst(r, prio, time) && x.key !in KeySet(r)
    requires forall k :: k != x.key ==> time'(k) == time(k) < time'(x.key)
    requires forall j :: 0 <= j < at ==> !NotBelow(prio, x.val, r[j].val)
    ensures NewestFirst(InsertAt(r, at, x), prio, time')
  {
    hide InsertAt, NotBelow;
    assert forall i :: 0 <= i < |r| ==> r[i].key in KeySet(r);
  }

  lemma StepNewestFirst<K, V>(cfg: Config<V>, c: Cache<K, V>, op: Op<K, V>, now: int, time: K -> int, time': K -> int)
    requires cfg.max > 0 && cfg.policy == Custom && Queued(cfg, c) && NewestFirst(c.q, cfg.prio, time)
    requires forall k :: time(k) < now
    requires forall k :: time'(k) == if Renews(cfg, c, op, k) then now else time(k)
    ensures NewestFirst(Step(cfg, c, op).q, cfg.prio, time')
  {
    hide NewestFirst, Agree, MakeRoom, InsertAt, FirstNotAbove;
    if op.Put? && (op.key !in c.m || cfg.overwrite) {
      var r := MakeRoom(cfg, c, op.key).q;
      MakeRoomLaws(cfg, c, op.key);
      NotQueued(MakeRoom(cfg, c, op.key), op.key);
      RemovalStaysNewestFirst(r, c.q, cfg.prio, time);
      NewestComesFirst(r, op.key, op.val, cfg.prio, time, time');
    } else {
      assert Step(cfg, c, op).q == c.q;
      SameTimes(c.q, cfg.prio, time, time');
    }
  }

  lemma NotQueued<K, V>(c: Cache<K, V>, key: K)
    requires Agree(c) && key !in c.m
    ensures key !in KeySet(c.q)
  {
  }

  lemma SameTimes<K, V>(q: seq<Slot<K, V>>, prio: (V, V) -> int, time: K -> int, time': K -> int)
    requires NewestFirst(q, prio, time) && forall k :: time'(k) == time(k)
    ensures NewestFirst(q, prio, time')
  {
  }

  lemma {:induction false} RunNewestFirst<K, V(!new)>(cfg: Config<V>, ops: seq<Op<K, V>>)
    requires cfg.max > 0 && cfg.policy == Custom
    ensures NewestFirst(Run(cfg, ops).q, cfg.prio, k => LastUse(cfg, ops, k))
    decreases |ops|
  {
    if ops != [] {
      var n := |ops| - 1;
      RunNewestFirst(cfg, ops[..n]);
      RunQueued(cfg, ops[..n]);
      StepNewestFirst(cfg, Run(cfg, ops[..n]), ops[n], n, k => LastUse(cfg, ops[..n], k), k => LastUse(cfg, ops, k));
    }
  }

  /** What a full CUSTOM cache gives up has no higher priority than anything else in it, and among those of
      the same priority it is the one stored longest ago. */
  lemma LowestGivesWay<K, V(!new)>(cfg: Config<V>, ops: seq<Op<K, V>>, key: K, v: V) returns (e: K)
    requires cfg.max > 0 && cfg.policy == Custom && TotalPriority(cfg.prio)
    requires key !in Run(cfg, ops).m && Full(cfg, Run(cfg, ops))
    ensures GivesWay(cfg, Run(cfg, ops), key, v, e)
    ensures forall k :: k in Run(cfg, ops).m ==> cfg.prio(Run(cfg, ops).m[k], Run(cfg, ops).m[e]) >= 0
    ensures forall k :: k in Run(cfg, ops).m && k != e && cfg.prio(Run(cfg, ops).m[e], Run(cfg, ops).m[k]) >= 0 ==>
      LastUse(cfg, ops, e) < LastUse(cfg, ops, k)
  {
    hide HighestFirst, NewestFirst, Agree, GivesWay, Run, LastUse, TotalPriority;
    var c := Run(cfg, ops);
    RunQueued(cfg, ops);
    RunHighestFirst(cfg, ops);
    RunNewestFirst(cfg, ops);
    VictimGivesWay(cfg, c, key, v);
    e := c.q[|c.q| - 1].key;
    LastIsLowest(c, cfg.prio);
    LastIsOldestOfLowest(c, cfg.prio, k => LastUse(cfg, ops, k));
  }

  lemma LastIsOldestOfLowest<K, V(!new)>(c: Cache<K, V>, prio: (V, V) -> int, time: K -> int)
    requires c.q != [] && Agree(c) && NewestFirst(c.q, prio, time)
    ensures var e := c.q[|c.q| - 1].key;
            forall k :: k in c.m && k != e && prio(c.m[e], c.m[k]) >= 0 ==> time(e) < time(k)
  {
    var last := |c.q| - 1;
    var e := c.q[last].key;
    forall k | k in c.m && k != e && prio(c.m[e], c.m[k]) >= 0 ensures time(e) < time(k) {
      assert k in KeySet(c.q);
      var i :| 0 <= i < |c.q| && c.q[i].key == k;
      assert NotBelow(prio, c.q[last].val, c.q[i].val);
    }
  }

  lemma LastIsLowest<K, V(!new)>(c: Cache<K, V>, prio: (V, V) -> int)
    requires c.q != [] && Agree(c) && TotalPriority(prio) && HighestFirst(c.q, prio)
    ensures c.q[|c.q| - 1].key in c.m
    ensures forall k :: k in c.m ==> prio(c.m[k], c.m[c.q[|c.q| - 1].key]) >= 0
  {
    var last := |c.q| - 1;
    forall k | k in c.m ensures prio(c.m[k], c.m[c.q[last].key]) >= 0 {
      assert k in KeySet(c.q);
      var i :| 0 <= i < |c.q| && c.q[i].key == k;
      assert NotBelow(prio, c.q[i].val, c.q[last].val);
    }
  }

  // ---------- Caches with a stale slot ----------

  /** A cache as the code keeps it: the count of objects is a field of its own, and the queue need not be
      that of the map. */
  datatype Held<K, V> = Held(m: map<K, V>, q: seq<Slot<K, V>>, sz: nat)

  /** u_hmap_put under a new key and a policy: the object is linked first, then room is made for it by
      deleting the object of the victim slot, which fails when there is none. */
  function PutNewKey<K, V>(cfg: Config<V>, c: Held<K, V>, key: K, v: V): (Held<K, V>, Rc) {
    var m := c.m[key := v];
    if c.sz < cfg.max then (Held(m, Enqueue(cfg, c.q, key, v), c.sz + 1), ErrNone)
    else if c.q == [] || c.q[VictimAt(cfg.policy, c.q)].key !in m then (Held(m, c.q, c.sz), ErrFail)
    else
      var i := VictimAt(cfg.policy, c.q);
      (Held(m - {c.q[i].key}, Enqueue(cfg, RemoveAt(c.q, i), key, v), c.sz), ErrNone)
  }

  /** u_hmap_del by the user */
  function DelKey<K, V>(c: Held<K, V>, key: K): Held<K, V> {
    if key in c.m then Held(c.m - {key}, c.q, if c.sz > 0 then c.sz - 1 else 0) else c
  }

  /** With a queue that is that of the map this is what DoPut specifies. */
  lemma PutNewKeyAgrees<K, V>(cfg: Config<V>, c: Held<K, V>, key: K, v: V)
    requires cfg.max > 0 && cfg.policy != NoPolicy && Queued(cfg, Cache(c.m, c.q)) && c.sz == |c.m| && key !in c.m
    ensures var (c', rc) := PutNewKey(cfg, c, key, v);
            (Cache(c'.m, c'.q), rc) == DoPut(cfg, Cache(c.m, c.q), key, v) && c'.sz == |c'.m|
  {
    CardinalLess(c.m[key := v], key);
    assert c.m[key := v] - {key} == c.m;
    if Full(cfg, Cache(c.m, c.q)) {
      FullIsQueued(cfg, Cache(c.m, c.q));
      var e := c.q[VictimAt(cfg.policy, c.q)].key;
      CardinalLess(c.m[key := v], e);
      assert c.m[key := v] - {e} == (c.m - {e})[key := v];
    }
  }

  /** A full cache whose victim slot is that of a deleted object */
  ghost predicate Stuck<K, V>(cfg: Config<V>, c: Held<K, V>) {
    cfg.policy != NoPolicy && c.sz >= cfg.max && c.q != [] && c.q[VictimAt(cfg.policy, c.q)].key !in c.m
  }

  /** It fails to put any new key, although it links the object, and stays as it is; only the very key that
      was deleted is put with success, and is then not there. */
  lemma StuckFails<K, V>(cfg: Config<V>, c: Held<K, V>, key: K, v: V)
    requires Stuck(cfg, c) && key !in c.m
    ensures var e, (c', rc) := c.q[VictimAt(cfg.policy, c.q)].key, PutNewKey(cfg, c, key, v);
            if key == e then rc == ErrNone && c'.m == c.m
            else rc == ErrFail && c'.m == c.m[key := v] && c'.q == c.q && c'.sz == c.sz && Stuck(cfg, c')
  {
    assert c.m[key := v] - {key} == c.m;
  }

  /** All puts of new keys fail from there on, and the map grows beyond its bound. */
  function PutAll<K, V>(cfg: Config<V>, c: Held<K, V>, ops: seq<(K, V)>): (Held<K, V>, seq<Rc>)
    decreases |ops|
  {
    if ops == [] then (c, [])
    else
      var (c1, rc) := PutNewKey(cfg, c, ops[0].0, ops[0].1);
      var (c', rcs) := PutAll(cfg, c1, ops[1..]);
      (c', [rc] + rcs)
  }

  lemma {:induction false} StuckForever<K, V>(cfg: Config<V>, c: Held<K, V>, ops: seq<(K, V)>)
    requires Stuck(cfg, c)
    requires forall i :: 0 <= i < |ops| ==> ops[i].0 !in c.m && ops[i].0 != c.q[VictimAt(cfg.policy, c.q)].key
    requires forall i, j :: 0 <= i < j < |ops| ==> ops[i].0 != ops[j].0
    ensures var (c', rcs) := PutAll(cfg, c, ops);
            && |rcs| == |ops| && (forall i :: 0 <= i < |rcs| ==> rcs[i] == ErrFail)
            && |c'.m| == |c.m| + |ops| && c'.sz == c.sz
    decreases |ops|
  {
    if ops != [] {
      var (key, v) := ops[0];
      StuckFails(cfg, c, key, v);
      CardinalLess(c.m[key := v], key);
      assert c.m[key := v] - {key} == c.m;
      StuckForever(cfg, PutNewKey(cfg, c, key, v).0, ops[1..]);
    }
  }

  /** How a cache gets there: one that holds a single object, deleted by the user and replaced by another. */
  lemma DeletionGetsStuck<K, V>(cfg: Config<V>, a: K, b: K, v: V, w: V)
    requires cfg.policy in {Fifo, Lru} && cfg.max == 1 && a != b
    ensures var c1 := PutNewKey(cfg, Held(map[], [], 0), a, v).0;
            var (c2, rc) := PutNewKey(cfg, DelKey(c1, a), b, w);
            rc == ErrNone && c2.m == map[b := w] && Stuck(cfg, c2)
  {
    OneHeld(cfg, map[], [], 0, a, v);
    assert map[a := v] - {a} == map[] && map[][a := v] == map[a := v];
    OneHeld(cfg, map[], [Slot(a, v, 0)], 0, b, w);
    assert map[][b := w] == map[b := w];
  }

  lemma OneHeld<K, V>(cfg: Config<V>, m: map<K, V>, q: seq<Slot<K, V>>, sz: nat, key: K, v: V)
    requires cfg.policy in {Fifo, Lru} && sz < cfg.max
    ensures PutNewKey(cfg, Held(m, q, sz), key, v) == (Held(m[key := v], [Slot(key, v, 0)] + q, sz + 1), ErrNone)
  {
    assert InsertAt(q, 0, Slot(key, v, 0)) == [Slot(key, v, 0)] + q;
  }
}

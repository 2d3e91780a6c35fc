/**
 The hash map of srcs/toolbox/hmap.c with separate chaining: ordered buckets, growth through a table
 of primes, and the queue of the discard policies.  HmapSpec says what it computes.
 */
module Hmap {
  import opened HmapSpec
  import opened Wrappers

  /** u_hmap_o_t */
  class Obj<K, V> {
    const key: K
    const val: V
    var pqe: QEntry?<K, V>

    /** u_hmap_o_new */
    constructor (key: K, val: V)
      ensures this.key == key && this.val == val && pqe == null
    {
      this.key, this.val, pqe := key, val, null;
    }
  }

  /** u_hmap_q_t; `count` is what `data` points at under LFU */
  class QEntry<K, V> {
    const ho: Obj<K, V>
    var count: nat

    /** __q_o_new */
    constructor (ho: Obj<K, V>)
      ensures this.ho == ho && count == 0
    {
      this.ho, count := ho, 0;
    }
  }

  // ---------- Keys ----------

  type Cmp<!K> = (K, K) -> int

  ghost predicate Less<K>(cmp: Cmp<K>, a: K, b: K) { cmp(a, b) < 0 }

  /** The key comparison is that of a total order. */
  ghost predicate TotalOrder<K(!new)>(cmp: Cmp<K>) {
    && (forall a, b :: cmp(a, b) == 0 <==> a == b)
    && (forall a, b :: Less(cmp, a, b) <==> cmp(b, a) > 0)
    && (forall a, b, c :: Less(cmp, a, b) && Less(cmp, b, c) ==> Less(cmp, a, c))
  }

  /** Keys are hashed into the buckets there are. */
  ghost predicate GoodHash<K(!new)>(hash: (K, nat) -> nat) {
    forall k, n :: n > 0 ==> hash(k, n) < n
  }

  // ---------- One bucket ----------

  ghost predicate Ascending<K, V>(chain: seq<Obj<K, V>>, cmp: Cmp<K>) {
    forall i, j :: 0 <= i < j < |chain| ==> Less(cmp, chain[i].key, chain[j].key)
  }

  /** The loop shared by __get and u_hmap_put: on to the first object whose key is not below `key`. */
  method Scan<K(!new), V>(chain: seq<Obj<K, V>>, key: K, cmp: Cmp<K>) returns (i: nat, found: bool)
    requires TotalOrder(cmp) && Ascending(chain, cmp)
    ensures i <= |chain|
    ensures forall j :: 0 <= j < i ==> Less(cmp, chain[j].key, key)
    ensures forall j :: i <= j < |chain| && !(found && j == i) ==> Less(cmp, key, chain[j].key)
    ensures found ==> i < |chain| && chain[i].key == key
    ensures !found ==> forall o :: o in chain ==> o.key != key
  {
    i := 0;
    while i < |chain|
      invariant i <= |chain|
      invariant forall j :: 0 <= j < i ==> Less(cmp, chain[j].key, key)
    {
      var comp := cmp(key, chain[i].key);
      if comp == 0 {
        return i, true;
      } else if comp < 0 {
        assert Less(cmp, key, chain[i].key);
        return i, false;
      }
      i := i + 1;
    }
    found := false;
  }

  // ---------- All buckets ----------

  /** The buckets hold the objects of `objs`, each in the bucket of its hash, in ascending order. */
  ghost predicate Chained<K, V>(bs: seq<seq<Obj<K, V>>>, objs: map<K, Obj<K, V>>, cmp: Cmp<K>, hash: (K, nat) -> nat) {
    && (forall b :: 0 <= b < |bs| ==> Ascending(bs[b], cmp))
    && (forall b, o :: 0 <= b < |bs| && o in bs[b] ==>
          o.key in objs && objs[o.key] == o && hash(o.key, |bs|) == b)
    && (forall k :: k in objs ==>
          objs[k].key == k && hash(k, |bs|) < |bs| && objs[k] in bs[hash(k, |bs|)])
  }

  lemma ChainInsert<K, V>(bs: seq<seq<Obj<K, V>>>, objs: map<K, Obj<K, V>>, cmp: Cmp<K>, hash: (K, nat) -> nat,
                          i: nat, obj: Obj<K, V>)
    requires Chained(bs, objs, cmp, hash) && obj.key !in objs
    requires var b := hash(obj.key, |bs|);
             && b < |bs| && i <= |bs[b]|
             && (forall j :: 0 <= j < i ==> Less(cmp, bs[b][j].key, obj.key))
             && (forall j :: i <= j < |bs[b]| ==> Less(cmp, obj.key, bs[b][j].key))
    ensures var b := hash(obj.key, |bs|);
            Chained(bs[b := InsertAt(bs[b], i, obj)], objs[obj.key := obj], cmp, hash)
  {
    var b := hash(obj.key, |bs|);
    var chain, chain' := bs[b], InsertAt(bs[b], i, obj);
    var bs' := bs[b := chain'];
    assert chain'[i] == obj;
    assert forall o :: o in chain ==> o in chain' by { InsertAtMembers(chain, i, obj); }
    assert forall o :: o in chain' ==> o == obj || o in chain by { InsertAtMembers(chain, i, obj); }
  }

  lemma InsertAtMembers<T>(s: seq<T>, i: nat, x: T)
    requires i <= |s|
    ensures forall y :: y in InsertAt(s, i, x) <==> y == x || y in s
  {
    assert s == s[..i] + s[i..];
  }

  lemma RemoveAtMembers<T>(s: seq<T>, i: nat)
    requires i < |s|
    ensures forall y :: y in s <==> y == s[i] || y in RemoveAt(s, i)
    ensures forall y :: y in RemoveAt(s, i) ==> y in s
  {
    assert s == s[..i] + [s[i]] + s[i + 1..];
  }

  lemma ChainRemove<K(!new), V>(bs: seq<seq<Obj<K, V>>>, objs: map<K, Obj<K, V>>, cmp: Cmp<K>, hash: (K, nat) -> nat,
                                i: nat, key: K)
    requires TotalOrder(cmp) && Chained(bs, objs, cmp, hash) && key in objs
    requires var b := hash(key, |bs|); i < |bs[b]| && bs[b][i].key == key
    ensures var b := hash(key, |bs|);
            Chained(bs[b := RemoveAt(bs[b], i)], objs - {key}, cmp, hash)
  {
    var b := hash(key, |bs|);
    var chain, chain' := bs[b], RemoveAt(bs[b], i);
    RemoveAtMembers(chain, i);
    forall j | 0 <= j < |chain'| ensures chain'[j].key != key {
      assert Less(cmp, key, chain'[j].key) || Less(cmp, chain'[j].key, key);
    }
  }

  lemma ChainReplace<K(!new), V>(bs: seq<seq<Obj<K, V>>>, objs: map<K, Obj<K, V>>, cmp: Cmp<K>,
                                 hash: (K, nat) -> nat, i: nat, obj: Obj<K, V>)
    requires TotalOrder(cmp) && Chained(bs, objs, cmp, hash) && obj.key in objs
    requires var b := hash(obj.key, |bs|); i < |bs[b]| && bs[b][i].key == obj.key
    ensures var b := hash(obj.key, |bs|);
            Chained(bs[b := bs[b][i := obj]], objs[obj.key := obj], cmp, hash)
  {
    var b := hash(obj.key, |bs|);
    var chain, chain' := bs[b], bs[b][i := obj];
    assert chain'[i] == obj;
    forall j | 0 <= j < |chain| && j != i ensures chain[j].key != obj.key && chain[j] in chain' {
      assert Less(cmp, chain[i].key, chain[j].key) || Less(cmp, chain[j].key, chain[i].key);
      assert chain'[j] == chain[j];
    }
  }

  // ---------- Growth ----------

  const PRIMES1: seq<nat> := [13, 19, 29, 41, 59, 79, 107, 149, 197, 263, 347, 457, 599, 787, 1031]
  const PRIMES2: seq<nat> := [
    1361, 1777, 2333, 3037, 3967, 5167, 6719, 8737, 11369, 14783, 19219, 24989, 32491, 42257, 54941
  ]
  const PRIMES3: seq<nat> := [
    71429, 92861, 120721, 156941, 204047, 265271, 344857, 448321, 582821, 757693, 985003, 1280519,
    1664681, 2164111, 2813353
  ]
  const PRIMES4: seq<nat> := [
    3657361, 4754591, 6180989, 8035301, 10445899, 13579681, 17653589, 22949669, 29834603, 38784989,
    50420551, 65546729, 85210757, 110774011, 144006217
  ]
  const PRIMES5: seq<nat> := [
    187208107, 243370577, 316381771, 411296309, 534685237, 695090819, 903618083, 1174703521,
    1527114613, 1837299131, 2147483647
  ]
  const PRIMES: seq<nat> := PRIMES1 + PRIMES2 + PRIMES3 + PRIMES4 + PRIMES5

  ghost predicate Ascends(s: seq<nat>) { forall i :: 0 <= i < |s| - 1 ==> s[i] < s[i + 1] }

  lemma AscendsJoin(a: seq<nat>, b: seq<nat>)
    requires Ascends(a) && Ascends(b) && a != [] && b != [] && a[|a| - 1] < b[0]
    ensures Ascends(a + b)
  {
  }

  lemma PrimesAscend()
    ensures Ascends(PRIMES)
  {
    AscendsJoin(PRIMES1, PRIMES2);
    AscendsJoin(PRIMES1 + PRIMES2, PRIMES3);
    AscendsJoin(PRIMES1 + PRIMES2 + PRIMES3, PRIMES4);
    AscendsJoin(PRIMES1 + PRIMES2 + PRIMES3 + PRIMES4, PRIMES5);
  }

  lemma {:induction false} AscendsFar(t: seq<nat>, i: nat, j: nat)
    requires Ascends(t) && i < j < |t|
    ensures t[i] < t[j]
    decreases j
  {
    if i + 1 < j {
      AscendsFar(t, i, j - 1);
    }
  }

  lemma FirstIsLeast(t: seq<nat>, sz: nat, i: nat)
    requires Ascends(t) && i < |t| && forall j :: 0 <= j < i ==> t[j] < sz
    ensures forall p :: p in t && p >= sz ==> p >= t[i]
  {
    forall p | p in t && p >= sz ensures p >= t[i] {
      var j :| 0 <= j < |t| && t[j] == p;
      if i < j {
        AscendsFar(t, i, j);
      }
    }
  }

  /** __next_prime: the first entry of the table, from `from` on, that is not below `sz` */
  method NextPrime(table: seq<nat>, sz: nat, from: nat) returns (ok: bool, idx: nat)
    ensures ok ==> from <= idx < |table| && table[idx] >= sz
    ensures ok ==> forall j :: from <= j < idx ==> table[j] < sz
    ensures !ok <==> sz == 0 || forall j :: from <= j < |table| ==> table[j] < sz
  {
    idx := from;
    if sz == 0 {
      return false, idx;
    }
    while idx < |table|
      invariant from <= idx
      invariant forall j :: from <= j < idx && j < |table| ==> table[j] < sz
    {
      if table[idx] >= sz {
        return true, idx;
      }
      idx := idx + 1;
    }
    ok := false;
  }

  const RATE_RESIZE: nat := 3

  /** U_HMAP_RATE_FULL of the buckets, 0.75, truncated */
  function Threshold(size: nat): nat { 3 * size / 4 }

  function IndexOf<T(==)>(s: seq<T>, x: T): (i: nat)
    requires x in s
    ensures i < |s| && s[i] == x
    ensures forall j :: 0 <= j < i ==> s[j] != x
  {
    if s[0] == x then 0 else 1 + IndexOf(s[1..], x)
  }

  // ---------- The policy queue ----------

  /** The queue as HmapSpec sees it */
  ghost function Slots<K, V>(q: seq<QEntry<K, V>>): (r: seq<Slot<K, V>>)
    reads q
    ensures |r| == |q|
    ensures forall i :: 0 <= i < |q| ==> r[i] == Slot(q[i].ho.key, q[i].ho.val, q[i].count)
  {
    seq(|q|, i requires 0 <= i < |q| reads q => Slot(q[i].ho.key, q[i].ho.val, q[i].count))
  }

  /** The entries of `q` and the objects of `m` point at each other, one to one. */
  ghost predicate Paired<K, V>(m: map<K, Obj<K, V>>, q: seq<QEntry<K, V>>)
    reads m.Values
  {
    && (forall i :: 0 <= i < |q| ==>
          q[i].ho.key in m && m[q[i].ho.key] == q[i].ho && q[i].ho.pqe == q[i])
    && (forall k :: k in m ==>
          m[k].key == k && m[k].pqe != null && m[k].pqe in q && m[k].pqe.ho == m[k])
    && (forall i, j :: 0 <= i < j < |q| ==> q[i] != q[j])
  }

  /** Without a policy no object has an entry. */
  ghost predicate Loose<K, V>(m: map<K, Obj<K, V>>)
    reads m.Values
  {
    forall k :: k in m ==> m[k].pqe == null
  }

  lemma NotThere<K, V>(m: map<K, Obj<K, V>>, key: K)
    requires key !in m
    ensures m - {key} == m && Vals(m) - {key} == Vals(m)
  {
  }

  /** It does not matter which is done first, putting one object or removing another. */
  lemma GoneFirst<K, V>(m: map<K, Obj<K, V>>, key: K, o: Obj<K, V>, gone: K)
    requires key != gone
    ensures m[key := o] - {gone} == (m - {gone})[key := o]
  {
  }

  ghost predicate Apart<K, V>(a: map<K, Obj<K, V>>, b: map<K, Obj<K, V>>) {
    forall k :: k in a ==> k !in b
  }

  /** An object moved from one map to another stays in their union. */
  lemma Moved<K, V>(a: map<K, Obj<K, V>>, b: map<K, Obj<K, V>>, key: K)
    requires Apart(a, b) && key in b
    ensures a[key := b[key]] + (b - {key}) == a + b && Apart(a[key := b[key]], b - {key}) && key !in a
  {
  }

  lemma MovedCount<K, V>(a: map<K, Obj<K, V>>, b: map<K, Obj<K, V>>, key: K)
    requires key !in a && key in b
    ensures |a[key := b[key]]| == |a| + 1 && |b - {key}| == |b| - 1
  {
    hide Vals;
    ValsLaws(a, key, b[key]);
    ValsLaws(b, key, b[key]);
  }

  lemma LooseAt<K, V>(m: map<K, Obj<K, V>>, key: K)
    requires Loose(m) && key in m
    ensures m[key].pqe == null
  {
  }

  lemma LooseLaws<K, V>(m: map<K, Obj<K, V>>, key: K, o: Obj<K, V>)
    requires Loose(m) && o.pqe == null
    ensures Loose(m - {key}) && Loose(m[key := o])
  {
  }

  lemma PairedDistinct<K, V>(m: map<K, Obj<K, V>>, q: seq<QEntry<K, V>>)
    requires Paired(m, q)
    ensures Distinct(Slots(q)) && KeySet(Slots(q)) == m.Keys
  {
    var r := Slots(q);
    forall k | k in m ensures k in KeySet(r) {
      var i :| 0 <= i < |q| && q[i] == m[k].pqe;
      assert r[i].key == k;
    }
  }

  lemma EntryOf<K, V>(m: map<K, Obj<K, V>>, q: seq<QEntry<K, V>>, o: Obj<K, V>)
    requires Paired(m, q) && o.key in m && m[o.key] == o
    ensures o.pqe != null && o.pqe in q && IndexOf(q, o.pqe) == Find(Slots(q), o.key) < |q|
  {
    var i := IndexOf(q, o.pqe);
    PairedDistinct(m, q);
    FindAt(Slots(q), i);
  }

  lemma EntryAt<K, V>(m: map<K, Obj<K, V>>, q: seq<QEntry<K, V>>, i: nat)
    requires Paired(m, q) && i < |q|
    ensures q[i].ho.key in m && m[q[i].ho.key] == q[i].ho && q[i].ho.pqe == q[i]
  {
  }

  lemma OnceOnly<K, V>(m: map<K, Obj<K, V>>, q: seq<QEntry<K, V>>, i: nat)
    requires Paired(m, q) && i < |q|
    ensures forall j :: 0 <= j < |q| && j != i ==> q[j] != q[i]
  {
  }

  /** Leaving the queue and the map together */
  lemma PairedRemove<K, V>(m: map<K, Obj<K, V>>, q: seq<QEntry<K, V>>, i: nat)
    requires Paired(m, q) && i < |q|
    ensures Paired(m - {q[i].ho.key}, RemoveAt(q, i))
    ensures Slots(RemoveAt(q, i)) == RemoveAt(Slots(q), i)
  {
    hide Paired, Slots;
    StillPaired(m, q, i);
    SlotsWithout(q, i);
  }

  lemma SlotsWithout<K, V>(q: seq<QEntry<K, V>>, i: nat)
    requires i < |q|
    ensures Slots(RemoveAt(q, i)) == RemoveAt(Slots(q), i)
  {
  }

  lemma StillPaired<K, V>(m: map<K, Obj<K, V>>, q: seq<QEntry<K, V>>, i: nat)
    requires Paired(m, q) && i < |q|
    ensures Paired(m - {q[i].ho.key}, RemoveAt(q, i))
  {
    var m', r := m - {q[i].ho.key}, RemoveAt(q, i);
    forall k | k in m' ensures m[k].pqe in r {
      var j :| 0 <= j < |q| && q[j] == m[k].pqe;
      assert r[if j < i then j else j - 1] == q[j];
    }
  }

  /** Joining the queue and the map together */
  lemma PairedInsert<K, V>(m: map<K, Obj<K, V>>, q: seq<QEntry<K, V>>, i: nat, e: QEntry<K, V>)
    requires Paired(m, q) && i <= |q| && e.ho.key !in m && e.ho.pqe == e
    ensures Paired(m[e.ho.key := e.ho], InsertAt(q, i, e))
    ensures Slots(InsertAt(q, i, e)) == InsertAt(Slots(q), i, Slot(e.ho.key, e.ho.val, e.count))
  {
    hide Paired, Slots;
    StillPairedWith(m, q, i, e);
    SlotsWith(q, i, e);
  }

  lemma SlotsWith<K, V>(q: seq<QEntry<K, V>>, i: nat, e: QEntry<K, V>)
    requires i <= |q|
    ensures Slots(InsertAt(q, i, e)) == InsertAt(Slots(q), i, Slot(e.ho.key, e.ho.val, e.count))
  {
  }

  lemma StillPairedWith<K, V>(m: map<K, Obj<K, V>>, q: seq<QEntry<K, V>>, i: nat, e: QEntry<K, V>)
    requires Paired(m, q) && i <= |q| && e.ho.key !in m && e.ho.pqe == e
    ensures Paired(m[e.ho.key := e.ho], InsertAt(q, i, e))
  {
    var r := InsertAt(q, i, e);
    assert r[i] == e;
    forall k | k in m ensures m[k].pqe in r {
      var j :| 0 <= j < |q| && q[j] == m[k].pqe;
      assert r[if j < i then j else j + 1] == q[j];
    }
  }

  /** The queue once its entry `i` has been counted once more */
  lemma SlotCounted<K, V>(q: seq<QEntry<K, V>>, was: seq<Slot<K, V>>, i: nat)
    requires i < |q| == |was| && q[i].count == was[i].count + 1
    requires forall j :: 0 <= j < |q| ==> q[j].ho.key == was[j].key && q[j].ho.val == was[j].val
    requires forall j :: 0 <= j < |q| && j != i ==> q[j].count == was[j].count
    ensures Slots(q) == was[i := was[i].(count := was[i].count + 1)]
  {
  }

  lemma TouchUnderLfu<K, V>(q: seq<Slot<K, V>>, i: nat, x: Slot<K, V>, key: K)
    requires i < |q| && Find(q, key) == i && x == q[i].(count := q[i].count + 1)
    ensures Touch(Lfu, q, key) == InsertAt(RemoveAt(q, i), FirstAbove(RemoveAt(q, i), i, x.count), x)
  {
    hide Find, FirstAbove, InsertAt, RemoveAt;
  }

  lemma RemoveAtSame<T>(s: seq<T>, i: nat, x: T)
    requires i < |s|
    ensures RemoveAt(s[i := x], i) == RemoveAt(s, i)
  {
  }

  lemma {:induction false} FirstAboveIs<K, V>(q: seq<Slot<K, V>>, from: nat, count: nat, at: nat)
    requires from <= at <= |q|
    requires forall j :: from <= j < at ==> q[j].count <= count
    requires at < |q| ==> q[at].count > count
    ensures FirstAbove(q, from, count) == at
  {
    var i := FirstAbove(q, from, count);
  }

  lemma {:induction false} FirstNotAboveIs<K, V>(q: seq<Slot<K, V>>, v: V, prio: (V, V) -> int, at: nat)
    requires at <= |q|
    requires forall j :: 0 <= j < at ==> prio(v, q[j].val) < 0
    requires at < |q| ==> prio(v, q[at].val) >= 0
    ensures FirstNotAbove(q, 0, v, prio) == at
  {
    var i := FirstNotAbove(q, 0, v, prio);
  }

  // ---------- The map ----------

  ghost function Vals<K, V>(m: map<K, Obj<K, V>>): (r: map<K, V>)
    ensures r.Keys == m.Keys && |r| == |m|
  {
    var r := map k | k in m :: m[k].val;
    assert r.Keys == m.Keys && |r.Keys| == |r| && |m.Keys| == |m|;
    r
  }

  lemma ValsLaws<K, V>(m: map<K, Obj<K, V>>, key: K, o: Obj<K, V>)
    ensures Vals(m[key := o]) == Vals(m)[key := o.val] && Vals(m - {key}) == Vals(m) - {key}
    ensures key !in m ==> |m[key := o]| == |m| + 1
    ensures key in m ==> |m - {key}| == |m| - 1 && |m[key := o]| == |m|
  {
    assert m[key := o].Keys == m.Keys + {key} && (m - {key}).Keys == m.Keys - {key};
    assert |m.Keys| == |m| && |m[key := o].Keys| == |m[key := o]| && |(m - {key}).Keys| == |m - {key}|;
  }

  /** A put under a key there is */
  lemma PutOver<K, V>(cfg: Config<V>, c: Cache<K, V>, key: K, v: V)
    requires key in c.m
    ensures DoPut(cfg, c, key, v) ==
            if cfg.overwrite then (Cache(c.m[key := v], Enqueue(cfg, Remove(c.q, key), key, v)), ErrNone)
            else (c, ErrExists)
  {
    assert (c.m - {key})[key := v] == c.m[key := v];
  }

  /** A put under a new key, when nothing is given up for it and when the object of `e` is */
  lemma PutNew<K, V>(cfg: Config<V>, c: Cache<K, V>, key: K, v: V)
    requires key !in c.m && !Full(cfg, c)
    ensures DoPut(cfg, c, key, v) == (Cache(c.m[key := v], Enqueue(cfg, c.q, key, v)), ErrNone)
  {
  }

  lemma PutFull<K, V>(cfg: Config<V>, c: Cache<K, V>, key: K, v: V, e: K)
    requires key !in c.m && Full(cfg, c) && c.q != [] && e == c.q[VictimAt(cfg.policy, c.q)].key
    ensures DoPut(cfg, c, key, v) ==
            (Cache((c.m - {e})[key := v], Enqueue(cfg, RemoveAt(c.q, VictimAt(cfg.policy, c.q)), key, v)), ErrNone)
  {
  }

  /** A put under a new key of a plain map */
  lemma PutPlain<K, V>(cfg: Config<V>, c: Cache<K, V>, key: K, v: V)
    requires key !in c.m && cfg.policy == NoPolicy
    ensures DoPut(cfg, c, key, v) == (Cache(c.m[key := v], c.q), ErrNone)
  {
  }

  lemma NotTouched<K, V>(policy: Policy, q: seq<Slot<K, V>>, key: K)
    requires policy != Lru && policy != Lfu
    ensures Touch(policy, q, key) == q
  {
  }

  lemma NothingQueued<K, V>(cfg: Config<V>, q: seq<Slot<K, V>>, key: K, v: V)
    requires cfg.policy == NoPolicy && |q| == 0
    ensures Enqueue(cfg, Remove(q, key), key, v) == q
  {
  }

  /** u_hmap_t and its options, for chained maps */
  class Hmap<K(!new, ==), V> {
    const cfg: Config<V>
    const cmp: Cmp<K>
    const hash: (K, nat) -> nat
    const primes: seq<nat>
    var optSize: nat                 // opts->size
    var sz: nat
    var size: nat
    var threshold: nat
    var px: nat
    var queue: seq<QEntry<K, V>>     // front first
    var buckets: array<seq<Obj<K, V>>>
    ghost var objs: map<K, Obj<K, V>>

    /** The buckets hold the objects of `objs`. */
    ghost predicate Linked()
      reads `size, `objs, `buckets, buckets
    {
      && TotalOrder(cmp) && GoodHash(hash) && Ascends(primes) && cfg.max > 0
      && size == buckets.Length > 0 && Chained(buckets[..], objs, cmp, hash)
    }

    /** The number of buckets is a prime of the table. */
    ghost predicate Sized()
      reads `optSize, `px, `size, `threshold
    {
      && 0 < optSize && px < |primes| && size == primes[px] >= optSize
      && threshold == Threshold(size)
    }

    /** `n` objects do not overfill a plain map; it may exceed its threshold by one once it has grown. */
    ghost predicate HasRoom(n: nat)
      reads `optSize, `size, `threshold
    {
      n <= threshold + if size == optSize then 1 else 0
    }

    /** The count and the queue are those of the objects of `m`. */
    ghost predicate Kept(m: map<K, Obj<K, V>>)
      reads `sz, `queue, `optSize, `size, `threshold, m.Values
    {
      && sz == |m|
      && if cfg.policy == NoPolicy then HasRoom(sz) && queue == [] && Loose(m)
         else Paired(m, queue) && sz <= cfg.max
    }

    ghost predicate Valid()
      reads this, buckets, objs.Values
    {
      Linked() && Sized() && Kept(objs)
    }

    ghost function Contents(): Cache<K, V>
      reads `objs, `queue, queue
    {
      Cache(Vals(objs), Slots(queue))
    }

    /** A plain map is at most three quarters full; before it grows for the first time, or of the size asked
        for, it may hold one object more. */
    lemma LoadIsBounded()
      requires Valid() && cfg.policy == NoPolicy
      ensures 4 * |objs| <= 3 * size + if size == optSize then 4 else 0
    {
    }

    /** `obj` has never been put into this map. */
    ghost predicate Unused(obj: Obj<K, V>)
      reads this, obj
    {
      obj.pqe == null && obj !in objs.Values
    }

    /** __get */
    method Lookup(key: K) returns (o: Obj?<K, V>)
      requires Linked()
      ensures key in objs ==> o == objs[key]
      ensures key !in objs ==> o == null
    {
      var h := hash(key, size);
      var i, found := Scan(buckets[h], key, cmp);
      o := null;
      if found {
        o := buckets[h][i];
      }
      assert buckets[..][h] == buckets[h];
    }

    /** The insertion of u_hmap_put, at a place found by Scan, of an object whose key is new. */
    method LinkNew(obj: Obj<K, V>, h: nat, i: nat)
      requires Linked() && obj.key !in objs
      requires h == hash(obj.key, size) && i <= |buckets[h]|
      requires forall j :: 0 <= j < i ==> Less(cmp, buckets[h][j].key, obj.key)
      requires forall j :: i <= j < |buckets[h]| ==> Less(cmp, obj.key, buckets[h][j].key)
      modifies this`objs, buckets
      ensures Linked() && objs == old(objs)[obj.key := obj]
    {
      ghost var bs := buckets[..];
      ChainInsert(bs, objs, cmp, hash, i, obj);
      buckets[h] := buckets[h][..i] + [obj] + buckets[h][i..];
      objs := objs[obj.key := obj];
      assert buckets[..] == bs[h := InsertAt(bs[h], i, obj)];
    }

    /** The replacement of __o_overwrite: `obj` takes the place of the object of its key. */
    method Relink(obj: Obj<K, V>, h: nat, i: nat)
      requires Linked() && h == hash(obj.key, size) && i < |buckets[h]| && buckets[h][i].key == obj.key
      modifies this`objs, buckets
      ensures Linked() && objs == old(objs)[obj.key := obj] && obj.key in old(objs)
    {
      ghost var bs := buckets[..];
      assert buckets[h][i] in bs[h];
      ChainReplace(bs, objs, cmp, hash, i, obj);
      buckets[h] := buckets[h][i := obj];
      objs := objs[obj.key := obj];
      assert buckets[..] == bs[h := bs[h][i := obj]];
    }

    /** The removal of u_hmap_del, without the count */
    method Unlink(key: K) returns (o: Obj?<K, V>)
      requires Linked()
      modifies this`objs, buckets
      ensures Linked() && objs == old(objs) - {key}
      ensures o == if key in old(objs) then old(objs[key]) else null
    {
      var h := hash(key, size);
      ghost var bs := buckets[..];
      assert bs[h] == buckets[h];
      var i, found := Scan(buckets[h], key, cmp);
      if !found {
        assert key !in objs;
        assert objs - {key} == objs;
        return null;
      }
      o := buckets[h][i];
      assert o in bs[h];
      ChainRemove(bs, objs, cmp, hash, i, key);
      buckets[h] := buckets[h][..i] + buckets[h][i + 1..];
      objs := objs - {key};
      assert buckets[..] == bs[h := RemoveAt(bs[h], i)];
    }

    // ---------- Pushing and popping ----------

    /** __queue_del, for an object of `m` */
    method QueueDel(o: Obj<K, V>, ghost m: map<K, Obj<K, V>>)
      requires Paired(m, queue) && o.key in m && m[o.key] == o
      modifies `queue, o`pqe
      ensures Paired(m - {o.key}, queue) && Slots(queue) == Remove(old(Slots(queue)), o.key)
      ensures o.pqe == null
    {
      EntryOf(m, queue, o);
      var i := IndexOf(queue, o.pqe);
      PairedRemove(m, queue, i);
      queue := RemoveAt(queue, i);
      o.pqe := null;
    }

    /** A new entry for `obj` at place `i` of the queue */
    method NewEntry(obj: Obj<K, V>, i: nat, ghost m: map<K, Obj<K, V>>)
      requires Paired(m, queue) && i <= |queue| && obj.key !in m
      modifies `queue, obj`pqe
      ensures Paired(m[obj.key := obj], queue)
      ensures Slots(queue) == InsertAt(old(Slots(queue)), i, Slot(obj.key, obj.val, 0))
    {
      var e := new QEntry(obj);
      assert obj !in m.Values;
      obj.pqe := e;
      assert Paired(m, queue) && Slots(queue) == old(Slots(queue));
      PairedInsert(m, queue, i, e);
      queue := InsertAt(queue, i, e);
    }

    /** __queue_push: to the head of the queue, or back to it */
    method QueuePush(obj: Obj<K, V>, ghost m: map<K, Obj<K, V>>)
      requires Paired(m, queue) && cfg.policy in {Fifo, Lru}
      requires if obj.pqe == null then obj.key !in m
               else cfg.policy == Lru && obj.key in m && m[obj.key] == obj
      modifies `queue, obj`pqe
      ensures old(obj.pqe) == null ==>
        Paired(m[obj.key := obj], queue) && Slots(queue) == Enqueue(cfg, old(Slots(queue)), obj.key, obj.val)
      ensures old(obj.pqe) != null ==>
        Paired(m, queue) && Slots(queue) == Touch(cfg.policy, old(Slots(queue)), obj.key)
    {
      if obj.pqe == null {
        NewEntry(obj, 0, m);
      } else {
        EntryOf(m, queue, obj);
        var e, i := obj.pqe, IndexOf(queue, obj.pqe);
        MoveEntry(i, 0, m);
      }
    }

    /** TAILQ_REMOVE of entry `i` and its insertion at place `at` of what is left */
    method MoveEntry(i: nat, at: nat, ghost m: map<K, Obj<K, V>>)
      requires Paired(m, queue) && i < |queue| && at < |queue|
      modifies `queue
      ensures Paired(m, queue)
      ensures Slots(queue) == InsertAt(RemoveAt(old(Slots(queue)), i), at, old(Slots(queue))[i])
    {
      hide Paired, Slots, RemoveAt, InsertAt;
      var e := queue[i];
      EntryAt(m, queue, i);
      PairedRemove(m, queue, i);
      queue := RemoveAt(queue, i);
      PairedInsert(m - {e.ho.key}, queue, at, e);
      queue := InsertAt(queue, at, e);
      assert (m - {e.ho.key})[e.ho.key := e.ho] == m;
    }

    /** The loop of __queue_push_count: past the entries behind `i` that are not counted more often */
    method NextAbove(i: nat) returns (j: nat)
      requires i < |queue|
      ensures i < j <= |queue|
      ensures j - 1 == FirstAbove(RemoveAt(Slots(queue), i), i, queue[i].count)
    {
      j := i + 1;
      while j < |queue| && queue[i].count >= queue[j].count
        invariant i < j <= |queue|
        invariant forall l :: i < l < j ==> queue[l].count <= queue[i].count
      {
        j := j + 1;
      }
      FirstAboveIs(RemoveAt(Slots(queue), i), i, queue[i].count, j - 1);
    }

    /** __queue_push_count: a new object to the head, one just got behind those used as often */
    method QueuePushCount(obj: Obj<K, V>, ghost m: map<K, Obj<K, V>>)
      requires Paired(m, queue) && cfg.policy == Lfu
      requires if obj.pqe == null then obj.key !in m else obj.key in m && m[obj.key] == obj
      modifies `queue, obj`pqe, obj.pqe
      ensures old(obj.pqe) == null ==>
        Paired(m[obj.key := obj], queue) && Slots(queue) == Enqueue(cfg, old(Slots(queue)), obj.key, obj.val)
      ensures old(obj.pqe) != null ==>
        Paired(m, queue) && Slots(queue) == Touch(cfg.policy, old(Slots(queue)), obj.key)
    {
      if obj.pqe == null {
        NewEntry(obj, 0, m);
        return;
      }
      EntryOf(m, queue, obj);
      Recount(IndexOf(queue, obj.pqe), m);
    }

    /** The second branch of __queue_push_count */
    method Recount(i: nat, ghost m: map<K, Obj<K, V>>)
      requires Paired(m, queue) && i < |queue| && Find(Slots(queue), queue[i].ho.key) == i
      modifies `queue, queue[i]
      ensures Paired(m, queue)
      ensures Slots(queue) == Touch(Lfu, old(Slots(queue)), old(queue[i]).ho.key)
    {
      hide Paired, Touch, InsertAt, RemoveAt, Find, FirstAbove, Slots;
      OnceOnly(m, queue, i);
      ghost var was := Slots(queue);
      var e := queue[i];
      e.count := e.count + 1;
      SlotCounted(queue, was, i);
      var j := NextAbove(i);
      TouchUnderLfu(was, i, Slots(queue)[i], e.ho.key);
      RemoveAtSame(was, i, Slots(queue)[i]);
      MoveEntry(i, j - 1, m);
    }

    /** __queue_push_cmp: before the first entry whose value does not have a higher priority */
    method QueuePushCmp(obj: Obj<K, V>, ghost m: map<K, Obj<K, V>>)
      requires Paired(m, queue) && cfg.policy == Custom && obj.pqe == null && obj.key !in m
      modifies `queue, obj`pqe
      ensures Paired(m[obj.key := obj], queue)
      ensures Slots(queue) == Enqueue(cfg, old(Slots(queue)), obj.key, obj.val)
    {
      ghost var was := Slots(queue);
      var i := 0;
      while i < |queue| && (cfg.prio)(obj.val, queue[i].ho.val) < 0
        invariant i <= |queue|
        invariant forall j :: 0 <= j < i ==> (cfg.prio)(obj.val, was[j].val) < 0
      {
        i := i + 1;
      }
      FirstNotAboveIs(was, obj.val, cfg.prio, i);
      NewEntry(obj, i, m);
    }

    /** pcy.push, as __pcy_setup chooses it */
    method Push(obj: Obj<K, V>, ghost m: map<K, Obj<K, V>>)
      requires Paired(m, queue) && cfg.policy != NoPolicy
      requires if obj.pqe == null then obj.key !in m
               else cfg.policy in {Lru, Lfu} && obj.key in m && m[obj.key] == obj
      modifies `queue, obj`pqe, obj.pqe
      ensures old(obj.pqe) == null ==>
        Paired(m[obj.key := obj], queue) && Slots(queue) == Enqueue(cfg, old(Slots(queue)), obj.key, obj.val)
      ensures old(obj.pqe) != null ==>
        Paired(m, queue) && Slots(queue) == Touch(cfg.policy, old(Slots(queue)), obj.key)
    {
      match cfg.policy
      case Fifo | Lru => QueuePush(obj, m);
      case Lfu => QueuePushCount(obj, m);
      case Custom => QueuePushCmp(obj, m);
    }

    /** The queue's part of __queue_pop_front under LFU, else of __queue_pop_back */
    method PopEntry(ghost m: map<K, Obj<K, V>>) returns (o: Obj<K, V>)
      requires Paired(m, queue) && queue != []
      modifies `queue
      ensures o.key in m && o == m[o.key] && o.key == old(Slots(queue))[VictimAt(cfg.policy, old(Slots(queue)))].key
      ensures Paired(m - {o.key}, queue)
      ensures Slots(queue) == RemoveAt(old(Slots(queue)), VictimAt(cfg.policy, old(Slots(queue))))
    {
      var i := if cfg.policy == Lfu then 0 else |queue| - 1;
      o := queue[i].ho;
      PairedRemove(m, queue, i);
      queue := RemoveAt(queue, i);
    }

    /** pcy.pop: the victim leaves map and queue.  The queue is that of `m`; the map holds an object more. */
    method Pop(ghost m: map<K, Obj<K, V>>) returns (o: Obj<K, V>)
      requires Linked() && Paired(m, queue) && queue != [] && sz > 0
      requires forall k :: k in m ==> k in objs && objs[k] == m[k]
      modifies `queue, `sz, `objs, buckets
      ensures Linked() && o.key in m && o == m[o.key]
      ensures o.key == old(Slots(queue))[VictimAt(cfg.policy, old(Slots(queue)))].key
      ensures objs == old(objs) - {o.key} && sz == old(sz) - 1
      ensures Paired(m - {o.key}, queue)
      ensures Slots(queue) == RemoveAt(old(Slots(queue)), VictimAt(cfg.policy, old(Slots(queue))))
    {
      hide Paired, Chained, VictimAt;
      o := PopEntry(m);
      var gone := Unlink(o.key);
      sz := sz - 1;
    }

    /** An entry for `obj` instead of that of `o` */
    method RequeueEntry(o: Obj<K, V>, obj: Obj<K, V>, ghost m: map<K, Obj<K, V>>)
      requires cfg.policy != NoPolicy && Paired(m, queue) && obj.pqe == null && obj != o
      requires o.key == obj.key && o.key in m && m[o.key] == o
      modifies `queue, obj`pqe, o`pqe
      ensures Paired(m[obj.key := obj], queue)
      ensures Slots(queue) == Enqueue(cfg, Remove(old(Slots(queue)), obj.key), obj.key, obj.val)
    {
      hide Paired, Remove, Enqueue;
      QueueDel(o, m);
      Push(obj, m - {obj.key});
      assert (m - {obj.key})[obj.key := obj] == m[obj.key := obj];
    }

    /** The queue's part of __o_overwrite */
    method Requeue(o: Obj<K, V>, obj: Obj<K, V>, ghost m: map<K, Obj<K, V>>)
      requires Kept(m) && obj.pqe == null && obj != o
      requires o.key == obj.key && o.key in m && m[o.key] == o
      modifies `queue, if cfg.policy == NoPolicy then {} else {obj, o}
      ensures Kept(m[obj.key := obj])
      ensures Slots(queue) == Enqueue(cfg, Remove(old(Slots(queue)), obj.key), obj.key, obj.val)
    {
      hide Paired, Loose, Slots, Vals, Remove, Enqueue;
      ValsLaws(m, obj.key, obj);
      if cfg.policy == NoPolicy {
        LooseLaws(m, obj.key, obj);
        NothingQueued(cfg, Slots(queue), obj.key, obj.val);
      } else {
        RequeueEntry(o, obj, m);
      }
    }

    /** What a put of `obj` did to the objects; `previous` is what it replaced, discarded, or found and
        left in its place. */
    ghost predicate Replaced(was: map<K, Obj<K, V>>, obj: Obj<K, V>, previous: Obj?<K, V>, rc: Rc)
      reads `objs
    {
      if rc == ErrFail then objs == was && previous == null
      else if rc == ErrExists then objs == was && obj.key in was && previous == was[obj.key]
      else if previous == null then obj.key !in was && objs == was[obj.key := obj]
      else previous.key in was && previous == was[previous.key] && objs == (was - {previous.key})[obj.key := obj]
    }

    lemma InBucket(h: nat, i: nat)
      requires Linked() && h < buckets.Length && i < |buckets[h]|
      ensures buckets[h][i].key in objs && objs[buckets[h][i].key] == buckets[h][i]
    {
      assert buckets[h][i] in buckets[..][h];
    }

    /** __o_overwrite, `o` being at place `i` of bucket `h` */
    method Overwrite(o: Obj<K, V>, obj: Obj<K, V>, h: nat, i: nat) returns (rc: Rc, previous: Obj?<K, V>)
      requires Valid() && Unused(obj)
      requires h == hash(obj.key, size) < buckets.Length && i < |buckets[h]|
      requires buckets[h][i] == o && o.key == obj.key
      modifies `queue, `objs, buckets, if cfg.policy == NoPolicy then {} else objs.Values + {obj}
      ensures Valid()
      ensures (Contents(), rc) == DoPut(cfg, old(Contents()), obj.key, obj.val)
      ensures Replaced(old(objs), obj, previous, rc) && rc != ErrFail
    {
      hide Kept, Linked, Sized, Paired, DoPut, Enqueue, Remove, Vals, Slots;
      InBucket(h, i);
      PutOver(cfg, Contents(), obj.key, obj.val);
      if !cfg.overwrite {
        return ErrExists, o;
      }
      ValsLaws(objs, obj.key, obj);
      assert objs[obj.key := obj] == (objs - {o.key})[obj.key := obj];
      Replace(o, obj, h, i);
      return ErrNone, o;
    }

    /** The replacement done by __o_overwrite: the entry first, then the object */
    method Replace(o: Obj<K, V>, obj: Obj<K, V>, h: nat, i: nat)
      requires Valid() && Unused(obj) && o.key == obj.key && o.key in objs && objs[o.key] == o
      requires h == hash(obj.key, size) < buckets.Length && i < |buckets[h]| && buckets[h][i] == o
      modifies `queue, `objs, buckets, if cfg.policy == NoPolicy then {} else {obj, o}
      ensures Valid() && objs == old(objs)[obj.key := obj]
      ensures Slots(queue) == Enqueue(cfg, Remove(old(Slots(queue)), obj.key), obj.key, obj.val)
    {
      hide Kept, Linked, Sized, Enqueue, Remove, Slots;
      Requeue(o, obj, objs);
      Relink(obj, h, i);
    }

    lemma SomethingQueued(m: map<K, Obj<K, V>>)
      requires Paired(m, queue) && |m| > 0
      ensures queue != []
    {
      assert |m.Keys| == |m|;
      var k :| k in m.Keys;
      assert m[k].pqe in queue;
    }

    /** The discard of u_hmap_put: when `obj`, now in the map, finds the cache full, the victim goes. */
    method MakePlace(obj: Obj<K, V>, ghost m0: map<K, Obj<K, V>>)
      returns (previous: Obj?<K, V>, ghost m: map<K, Obj<K, V>>)
      requires Linked() && cfg.policy != NoPolicy && Paired(m0, queue) && sz == |m0| && 0 < cfg.max
      requires obj.key !in m0 && objs == m0[obj.key := obj]
      modifies `queue, `sz, `objs, buckets
      ensures Linked() && objs == m[obj.key := obj] && Paired(m, queue) && sz == |m|
      ensures sz == if old(sz) >= cfg.max then old(sz) - 1 else old(sz)
      ensures m == if previous == null then m0 else m0 - {previous.key}
      ensures previous != null ==> previous.key in m0 && previous == m0[previous.key]
      ensures DoPut(cfg, Cache(Vals(m0), old(Slots(queue))), obj.key, obj.val) ==
              (Cache(Vals(objs), Enqueue(cfg, Slots(queue), obj.key, obj.val)), ErrNone)
    {
      hide Paired, Linked, DoPut, Enqueue, Vals, Slots, VictimAt, RemoveAt;
      ghost var c := Cache(Vals(m0), Slots(queue));
      if sz >= cfg.max {
        previous := Discard(obj, m0);
        m := m0 - {previous.key};
      } else {
        previous, m := null, m0;
        PutNew(cfg, c, obj.key, obj.val);
      }
      ValsLaws(m, obj.key, obj);
    }

    /** The discard itself */
    method Discard(obj: Obj<K, V>, ghost m0: map<K, Obj<K, V>>) returns (previous: Obj<K, V>)
      requires Linked() && cfg.policy != NoPolicy && Paired(m0, queue) && sz == |m0| >= cfg.max > 0
      requires obj.key !in m0 && objs == m0[obj.key := obj]
      modifies `queue, `sz, `objs, buckets
      ensures previous.key in m0 && previous == m0[previous.key]
      ensures var m := m0 - {previous.key};
              && Linked() && objs == m[obj.key := obj] && Paired(m, queue) && sz == |m| == old(sz) - 1
              && DoPut(cfg, Cache(Vals(m0), old(Slots(queue))), obj.key, obj.val) ==
                 (Cache(Vals(m)[obj.key := obj.val], Enqueue(cfg, Slots(queue), obj.key, obj.val)), ErrNone)
    {
      hide Paired, Linked, DoPut, Enqueue, Vals, Slots, VictimAt, RemoveAt;
      SomethingQueued(m0);
      ghost var c := Cache(Vals(m0), Slots(queue));
      previous := Pop(m0);
      ValsLaws(m0, previous.key, previous);
      PutFull(cfg, c, obj.key, obj.val, previous.key);
      GoneFirst(m0, obj.key, obj, previous.key);
    }

    /** The end of u_hmap_put under a policy */
    method Enter(obj: Obj<K, V>, ghost m0: map<K, Obj<K, V>>) returns (previous: Obj?<K, V>)
      requires Linked() && cfg.policy != NoPolicy && Kept(m0) && 0 < cfg.max
      requires obj.pqe == null && obj.key !in m0 && objs == m0[obj.key := obj]
      modifies `queue, `sz, `objs, buckets, obj
      ensures Linked() && sz == |objs| <= cfg.max && Paired(objs, queue)
      ensures Replaced(m0, obj, previous, ErrNone)
      ensures DoPut(cfg, Cache(Vals(m0), old(Slots(queue))), obj.key, obj.val) ==
              (Cache(Vals(objs), Slots(queue)), ErrNone)
    {
      hide Paired, Linked, DoPut, Enqueue, Vals, Slots;
      ghost var m;
      previous, m := MakePlace(obj, m0);
      Push(obj, m);
      ValsLaws(m, obj.key, obj);
      sz := sz + 1;
    }

    /** The end of u_hmap_put without a policy */
    method Count(obj: Obj<K, V>, ghost m0: map<K, Obj<K, V>>)
      requires Linked() && cfg.policy == NoPolicy && Kept(m0) && HasRoom(sz + 1)
      requires obj.pqe == null && obj.key !in m0 && objs == m0[obj.key := obj]
      modifies `sz
      ensures Linked() && Kept(objs)
      ensures DoPut(cfg, Cache(Vals(m0), Slots(queue)), obj.key, obj.val) == (Cache(Vals(objs), Slots(queue)), ErrNone)
    {
      hide Loose, Linked, HasRoom, DoPut, Vals, Slots;
      PutPlain(cfg, Cache(Vals(m0), Slots(queue)), obj.key, obj.val);
      LooseLaws(m0, obj.key, obj);
      ValsLaws(m0, obj.key, obj);
      sz := sz + 1;
    }

    /** u_hmap_put of an object whose key is new, `i` being its place in bucket `h` */
    method PutFresh(obj: Obj<K, V>, h: nat, i: nat) returns (previous: Obj?<K, V>)
      requires Valid() && Unused(obj) && obj.key !in objs && (cfg.policy == NoPolicy ==> HasRoom(sz + 1))
      requires h == hash(obj.key, size) < buckets.Length && i <= |buckets[h]|
      requires forall j :: 0 <= j < i ==> Less(cmp, buckets[h][j].key, obj.key)
      requires forall j :: i <= j < |buckets[h]| ==> Less(cmp, obj.key, buckets[h][j].key)
      modifies `queue, `sz, `objs, buckets, if cfg.policy == NoPolicy then {} else {obj}
      ensures Linked() && Sized() && Kept(objs)
      ensures Replaced(old(objs), obj, previous, ErrNone) && (cfg.policy == NoPolicy ==> previous == null)
      ensures DoPut(cfg, Cache(Vals(old(objs)), old(Slots(queue))), obj.key, obj.val) ==
              (Cache(Vals(objs), Slots(queue)), ErrNone)
    {
      hide Kept, Sized, HasRoom, DoPut, Vals, Slots, Linked, Less, Replaced;
      ghost var m0 := objs;
      LinkNew(obj, h, i);
      if cfg.policy == NoPolicy {
        Count(obj, m0);
        NothingReplaced(m0, obj);
        return null;
      }
      previous := Enter(obj, m0);
      QueueKept();
    }

    lemma NothingReplaced(was: map<K, Obj<K, V>>, obj: Obj<K, V>)
      requires obj.key !in was && objs == was[obj.key := obj]
      ensures Replaced(was, obj, null, ErrNone)
    {
    }

    lemma QueueKept()
      requires cfg.policy != NoPolicy && sz == |objs| <= cfg.max && Paired(objs, queue)
      ensures Kept(objs)
    {
    }

    lemma InRange(key: K)
      requires Linked()
      ensures TotalOrder(cmp) && hash(key, size) < size == buckets.Length
      ensures var h := hash(key, size);
              Ascending(buckets[h], cmp) && (key in objs <==> exists o :: o in buckets[h] && o.key == key)
    {
      var h := hash(key, size);
      assert buckets[..][h] == buckets[h];
    }

    /** The same, said of the contents */
    method PutAbsent(obj: Obj<K, V>, h: nat, i: nat) returns (previous: Obj?<K, V>)
      requires Valid() && Unused(obj) && obj.key !in objs && (cfg.policy == NoPolicy ==> HasRoom(sz + 1))
      requires h == hash(obj.key, size) < buckets.Length && i <= |buckets[h]|
      requires forall j :: 0 <= j < i ==> Less(cmp, buckets[h][j].key, obj.key)
      requires forall j :: i <= j < |buckets[h]| ==> Less(cmp, obj.key, buckets[h][j].key)
      modifies `queue, `sz, `objs, buckets, if cfg.policy == NoPolicy then {} else {obj}
      ensures Valid() && Replaced(old(objs), obj, previous, ErrNone) && (cfg.policy == NoPolicy ==> previous == null)
      ensures (Contents(), ErrNone) == DoPut(cfg, old(Contents()), obj.key, obj.val)
    {
      hide Kept, Sized, HasRoom, DoPut, Contents, Linked, Less, Replaced;
      ContentsAre();
      previous := PutFresh(obj, h, i);
      ContentsAre();
    }

    /** u_hmap_put once there is room for one more object */
    method PutHere(obj: Obj<K, V>) returns (rc: Rc, previous: Obj?<K, V>)
      requires Valid() && Unused(obj) && (cfg.policy == NoPolicy ==> HasRoom(sz + 1))
      modifies `queue, `sz, `objs, buckets, if cfg.policy == NoPolicy then {} else objs.Values + {obj}
      ensures Valid() && Replaced(old(objs), obj, previous, rc)
      ensures (Contents(), rc) == DoPut(cfg, old(Contents()), obj.key, obj.val)
      ensures rc != ErrFail && (cfg.policy == NoPolicy && obj.key !in old(objs) ==> rc == ErrNone && previous == null)
    {
      hide Kept, Sized, HasRoom, DoPut, Contents, Linked, Less, Replaced;
      InRange(obj.key);
      var h := hash(obj.key, size);
      var i, found := Scan(buckets[h], obj.key, cmp);
      if found {
        rc, previous := Overwrite(buckets[h][i], obj, h, i);
        return;
      }
      rc := ErrNone;
      previous := PutAbsent(obj, h, i);
    }

    lemma ContentsAre()
      ensures Contents() == Cache(Vals(objs), Slots(queue))
    {
    }

    // ---------- Growing ----------

    /** u_hmap_new, its options checked and `px` found */
    constructor (cfg: Config<V>, cmp: Cmp<K>, hash: (K, nat) -> nat, primes: seq<nat>, optSize: nat, px: nat)
      requires TotalOrder(cmp) && GoodHash(hash) && Ascends(primes) && 0 < cfg.max
      requires px < |primes| && 0 < optSize <= primes[px]
      ensures Valid() && objs == map[] && queue == [] && fresh(buckets)
      ensures this.cfg == cfg && this.cmp == cmp && this.hash == hash && this.primes == primes
      ensures this.optSize == optSize && size == primes[px]
    {
      this.cfg, this.cmp, this.hash, this.primes := cfg, cmp, hash, primes;
      this.optSize, this.px := optSize, px;
      size, threshold, sz := primes[px], Threshold(primes[px]), 0;
      queue, objs := [], map[];
      buckets := new seq<Obj<K, V>>[primes[px]](i => []);
    }

    /** u_hmap_new */
    static method New(cfg: Config<V>, cmp: Cmp<K>, hash: (K, nat) -> nat, primes: seq<nat>, optSize: nat)
      returns (hmap: Hmap?<K, V>)
      requires TotalOrder(cmp) && GoodHash(hash) && Ascends(primes)
      ensures hmap == null <==> optSize == 0 || cfg.max == 0 || forall p :: p in primes ==> p < optSize
      ensures hmap != null ==>
        && fresh(hmap) && fresh(hmap.buckets) && hmap.Valid() && hmap.objs == map[] && hmap.queue == []
        && hmap.cfg == cfg && hmap.cmp == cmp && hmap.hash == hash && hmap.primes == primes
        && hmap.optSize == optSize && hmap.size in primes && hmap.size >= optSize
        && (forall p :: p in primes && p >= optSize ==> p >= hmap.size)
    {
      if optSize == 0 || cfg.max == 0 {
        return null;
      }
      var ok, px := NextPrime(primes, optSize, 0);
      if !ok {
        assert forall p :: p in primes ==> exists j :: 0 <= j < |primes| && primes[j] == p;
        return null;
      }
      assert primes[px] in primes;
      hmap := new Hmap(cfg, cmp, hash, primes, optSize, px);
      FirstIsLeast(primes, optSize, px);
    }

    /** LIST_REMOVE of the first object of bucket `i` */
    method TakeFirst(i: nat) returns (o: Obj<K, V>)
      requires Linked() && i < buckets.Length && buckets[i] != []
      modifies `objs, buckets
      ensures Linked() && buckets[i] == old(buckets[i])[1..]
      ensures forall j :: 0 <= j < buckets.Length && j != i ==> buckets[j] == old(buckets[j])
      ensures o.key in old(objs) && o == old(objs)[o.key] && objs == old(objs) - {o.key}
    {
      ghost var bs := buckets[..];
      o := buckets[i][0];
      assert o in bs[i];
      ChainRemove(bs, objs, cmp, hash, 0, o.key);
      buckets[i] := buckets[i][1..];
      objs := objs - {o.key};
      assert RemoveAt(bs[i], 0) == bs[i][1..];
      assert buckets[..] == bs[i := RemoveAt(bs[i], 0)];
    }
    // ---------- The interface ----------

    /** u_hmap_get */
    method Get(key: K) returns (rc: Rc, o: Obj?<K, V>)
      requires Valid()
      modifies `queue, queue, objs.Values
      ensures Valid() && objs == old(objs)
      ensures (Contents(), if o == null then None else Some(o.val)) == DoGet(cfg, old(Contents()), key)
      ensures o == (if key in objs then objs[key] else null) && rc == if o == null then ErrFail else ErrNone
    {
      hide Linked, Sized, Kept, Paired, Touch, Vals, Slots;
      o := Lookup(key);
      if o == null {
        return ErrFail, null;
      }
      Found(key);
      PushGot(o);
      rc := ErrNone;
    }

    /** The push of u_hmap_get, for the policies that have one */
    method PushGot(o: Obj<K, V>)
      requires Kept(objs) && o.key in objs && objs[o.key] == o
      requires cfg.policy != NoPolicy ==> o.pqe != null && o.pqe in queue
      modifies `queue, if cfg.policy == NoPolicy then {} else {o, o.pqe}
      ensures Kept(objs) && Slots(queue) == Touch(cfg.policy, old(Slots(queue)), o.key)
    {
      hide Paired, Touch, Slots;
      if cfg.policy in {Lru, Lfu} {
        CacheFacts();
        Push(o, objs);
        QueueKept();
      } else {
        NotTouched(cfg.policy, Slots(queue), o.key);
      }
    }

    lemma CacheFacts()
      requires Kept(objs) && cfg.policy != NoPolicy
      ensures Paired(objs, queue) && sz == |objs| <= cfg.max
    {
    }

    lemma Found(key: K)
      requires Valid() && key in objs
      ensures objs[key].key == key && Vals(objs)[key] == objs[key].val
      ensures cfg.policy != NoPolicy ==> objs[key].pqe != null && objs[key].pqe in queue
    {
    }

    /** u_hmap_del.  Under a policy it leaves the entry of what it deletes in the queue: the queue then
        matches the map exactly when there was nothing to delete. */
    method Del(key: K) returns (rc: Rc, o: Obj?<K, V>)
      requires Valid()
      modifies `sz, `objs, buckets
      ensures Linked() && Sized()
      ensures if cfg.policy == NoPolicy || key !in old(objs) then Kept(objs) else !Kept(objs)
      ensures objs == old(objs) - {key} && sz == |objs|
      ensures (Contents(), if o == null then None else Some(o.val)) == DoDel(old(Contents()), key)
      ensures o == (if key in old(objs) then old(objs[key]) else null) && rc == if o == null then ErrFail else ErrNone
    {
      hide Linked, Sized, Kept, Vals, Slots, Contents, DoDel;
      o := Lookup(key);
      ContentsAre();
      DelIs(Contents(), key);
      CountIs();
      if o == null {
        NotThere(objs, key);
      } else {
        Stored(key);
        DelFound(key);
      }
      ContentsAre();
      rc := if o == null then ErrFail else ErrNone;
    }

    lemma DelIs(c: Cache<K, V>, key: K)
      ensures DoDel(c, key) == (Cache(c.m - {key}, c.q), if key in c.m then Some(c.m[key]) else None)
    {
    }

    lemma Stored(key: K)
      requires key in objs
      ensures Vals(objs)[key] == objs[key].val
    {
    }

    /** u_hmap_del once the object is found */
    method DelFound(key: K)
      requires Linked() && Kept(objs) && key in objs
      modifies `sz, `objs, buckets
      ensures Linked() && objs == old(objs) - {key} && sz == |objs|
      ensures Vals(objs) == Vals(old(objs)) - {key} && (Kept(objs) <==> cfg.policy == NoPolicy)
    {
      hide Linked, Kept, HasRoom, Paired, Loose, Vals;
      ghost var m := objs;
      CountIs();
      BeforeDel(key);
      Forget(key);
      AfterDel(m, key);
    }

    lemma CountIs()
      requires Kept(objs)
      ensures sz == |objs|
    {
    }

    lemma BeforeDel(key: K)
      requires Kept(objs) && key in objs
      ensures if cfg.policy == NoPolicy then Loose(objs) && queue == [] && HasRoom(|objs|)
              else !Paired(objs - {key}, queue)
    {
      if cfg.policy != NoPolicy {
        Stale(objs, key);
      }
    }

    lemma AfterDel(m: map<K, Obj<K, V>>, key: K)
      requires if cfg.policy == NoPolicy then Loose(m) && queue == [] && HasRoom(|m|) else !Paired(m - {key}, queue)
      requires objs == m - {key} && sz == |objs| <= |m|
      ensures Kept(objs) <==> cfg.policy == NoPolicy
    {
      hide Paired;
    }

    /** The removal and the count of u_hmap_del */
    method Forget(key: K)
      requires Linked() && sz == |objs| && key in objs
      modifies `sz, `objs, buckets
      ensures Linked() && objs == old(objs) - {key} && sz == |objs| == |old(objs)| - 1
      ensures Vals(objs) == Vals(old(objs)) - {key}
    {
      hide Linked, Vals;
      ValsLaws(objs, key, objs[key]);
      var o := Unlink(key);
      sz := sz - 1;
    }

    /** The entry left behind points at an object that is not in the map any more. */
    lemma Stale(m: map<K, Obj<K, V>>, key: K)
      requires cfg.policy != NoPolicy && Kept(m) && key in m
      ensures !Paired(m - {key}, queue)
    {
      assert m[key].pqe in queue;
    }

    /** The inner step of u_hmap_copy: the first object of bucket `i` of `from` moves here. */
    method MoveFirst(from: Hmap<K, V>, i: nat)
      requires from != this && buckets != from.buckets && cfg.policy == NoPolicy
      requires Valid() && from.Linked() && Loose(from.objs) && Apart(objs, from.objs)
      requires i < from.buckets.Length && from.buckets[i] != [] && |objs| < threshold
      modifies this, buckets, from`objs, from.buckets
      ensures Valid() && from.Linked() && Loose(from.objs) && Apart(objs, from.objs)
      ensures objs + from.objs == old(objs + from.objs)
      ensures |objs| == |old(objs)| + 1 && |from.objs| == |old(from.objs)| - 1
      ensures buckets == old(buckets) && SameTable()
      ensures from.buckets[i] == old(from.buckets[i])[1..]
      ensures forall j :: 0 <= j < from.buckets.Length && j != i ==> from.buckets[j] == old(from.buckets[j])
      decreases 1, 0
    {
      hide Linked, Kept, Sized, Loose, Vals, Slots, DoPut, Apart;
      ghost var a, b := objs, from.objs;
      var o := from.TakeFirst(i);
      Moved(a, b, o.key);
      MovedCount(a, b, o.key);
      LooseAt(b, o.key);
      LooseLaws(b, o.key, o);
      Unseen(o);
      var rc, previous := Put(o);
    }

    lemma Unseen(o: Obj<K, V>)
      requires Valid() && o.key !in objs
      ensures o !in objs.Values && sz == |objs|
    {
    }

    lemma Occupied(i: nat)
      requires Linked() && i < buckets.Length && buckets[i] != []
      ensures |objs| > 0
    {
      assert buckets[..][i][0] in buckets[..][i];
      assert buckets[i][0].key in objs.Keys;
      assert |objs.Keys| == |objs|;
    }

    /** The table of buckets and the growth of the map are as before. */
    twostate predicate SameTable()
      reads `buckets, `size, `optSize, `threshold, `px
    {
      && buckets == old(buckets) && size == old(size) && optSize == old(optSize)
      && threshold == old(threshold) && px == old(px)
    }

    /** The table has been replaced by one whose size is the next prime from three times the size asked for
        on, which is the size asked for from now on. */
    twostate predicate Enlarged()
      reads `size, `optSize, `px
    {
      && old(px) <= px < |primes| && size == optSize == primes[px] && size >= 3 * old(optSize)
      && forall j :: old(px) <= j < px ==> primes[j] < 3 * old(optSize)
    }

    /** The table of primes ends before three times the size asked for. */
    ghost predicate TableEnds()
      reads `optSize, `px
    {
      forall j :: px <= j < |primes| ==> primes[j] < RATE_RESIZE * optSize
    }

    /** A plain map has reached its threshold and cannot grow. */
    ghost predicate NoLargerTable()
      reads `sz, `threshold, `optSize, `px
    {
      cfg.policy == NoPolicy && sz >= threshold && TableEnds()
    }

    /** u_hmap_put */
    method Put(obj: Obj<K, V>) returns (rc: Rc, previous: Obj?<K, V>)
      requires Valid() && Unused(obj)
      modifies this, buckets, if cfg.policy == NoPolicy then {} else objs.Values + {obj}
      ensures Valid() && Replaced(old(objs), obj, previous, rc)
      ensures rc != ErrFail ==> (Contents(), rc) == DoPut(cfg, old(Contents()), obj.key, obj.val)
      ensures rc == ErrFail <==> old(NoLargerTable())
      ensures rc == ErrFail ==> Contents() == old(Contents())
      ensures rc != ErrFail && cfg.policy == NoPolicy && obj.key !in old(objs) ==> rc == ErrNone && previous == null
      ensures if old(cfg.policy != NoPolicy || sz < threshold) then rc != ErrFail && SameTable()
              else if rc != ErrFail then fresh(buckets) && Enlarged() else SameTable()
      decreases if sz < threshold then 0 else 3, 3
    {
      hide Linked, Kept, Sized, Contents, DoPut, TableEnds;
      var ok := GrowIfFull();
      if !ok {
        return ErrFail, null;
      }
      rc, previous := PutHere(obj);
    }

    /** The check at the head of u_hmap_put */
    method GrowIfFull() returns (ok: bool)
      requires Valid()
      modifies this, buckets
      ensures Valid() && objs == old(objs) && queue == old(queue) && Contents() == old(Contents())
      ensures ok && cfg.policy == NoPolicy ==> HasRoom(sz + 1)
      ensures !ok <==> old(NoLargerTable())
      ensures if old(cfg.policy != NoPolicy || sz < threshold) then ok && SameTable()
              else if ok then fresh(buckets) && Enlarged() else SameTable()
      decreases if sz < threshold then 0 else 3, 2
    {
      hide Linked, Kept, Sized, Vals, Slots, Loose;
      ok := true;
      if cfg.policy == NoPolicy && sz >= threshold {
        ok := Resize();
      }
    }

    /** u_hmap_copy, with room for all of `from`, which ends up without objects */
    method Copy(from: Hmap<K, V>)
      requires from != this && buckets != from.buckets && cfg.policy == NoPolicy
      requires Valid() && from.Linked() && Loose(from.objs) && Apart(objs, from.objs)
      requires |objs| + |from.objs| <= threshold
      modifies this, buckets, from`objs, from.buckets
      ensures Valid() && objs == old(objs + from.objs) && SameTable()
      decreases 2, 0
    {
      hide Linked, Kept, Sized, Vals, Slots, Loose, Apart;
      ghost var total, n := objs + from.objs, |objs| + |from.objs|;
      var i := 0;
      while i < from.buckets.Length
        invariant i <= from.buckets.Length
        invariant Valid() && SameTable()
        invariant from.Linked() && Loose(from.objs) && Apart(objs, from.objs)
        invariant objs + from.objs == total && |objs| + |from.objs| == n
        invariant forall j :: 0 <= j < i ==> from.buckets[j] == []
      {
        while from.buckets[i] != []
          invariant Valid() && SameTable()
          invariant from.Linked() && Loose(from.objs) && Apart(objs, from.objs)
          invariant objs + from.objs == total && |objs| + |from.objs| == n
          invariant forall j :: 0 <= j < i ==> from.buckets[j] == []
          decreases |from.buckets[i]|
        {
          from.Occupied(i);
          MoveFirst(from, i);
        }
        i := i + 1;
      }
      from.Emptied();
    }

    lemma Emptied()
      requires Linked() && forall j :: 0 <= j < buckets.Length ==> buckets[j] == []
      ensures objs == map[]
    {
    }

    /** __resize, which leaves its work half done only when there is no larger prime */
    method Resize() returns (ok: bool)
      requires Valid() && cfg.policy == NoPolicy
      modifies this, buckets
      ensures Valid() && objs == old(objs) && queue == old(queue) && sz == old(sz)
      ensures ok ==> HasRoom(sz + 1) && fresh(buckets) && Enlarged()
      ensures !ok <==> old(TableEnds())
      ensures !ok ==> unchanged(this)
      decreases 3, 1
    {
      hide Linked, Kept, Sized, Loose;
      var idx;
      PlainFacts();
      ok, idx := NextPrime(primes, RATE_RESIZE * optSize, px);
      if !ok {
        return;
      }
      Grow(idx);
    }

    /** The rest of __resize, the size found */
    method Grow(idx: nat)
      requires Valid() && cfg.policy == NoPolicy
      requires px <= idx < |primes| && primes[idx] >= RATE_RESIZE * optSize
      modifies this, buckets
      ensures Valid() && objs == old(objs) && queue == old(queue) && sz == old(sz)
      ensures HasRoom(sz + 1) && fresh(buckets) && size == optSize == primes[idx] && px == idx
      decreases 3, 0
    {
      hide Linked, Kept, Sized, Loose, HasRoom;
      PlainFacts();
      var larger := Larger(idx);
      larger.Copy(this);
      larger.PlainFacts();
      Become(larger);
    }

    lemma PlainFacts()
      requires Valid() && cfg.policy == NoPolicy
      ensures optSize > 0 && px < |primes| && queue == [] && sz == |objs| && Loose(objs)
    {
    }

    /** The memcpy that ends __resize */
    method Become(larger: Hmap<K, V>)
      requires larger.Valid() && larger.size == larger.optSize && larger.sz <= larger.threshold
      requires larger.cfg == cfg && larger.cmp == cmp && larger.hash == hash && larger.primes == primes
      requires larger != this
      modifies this
      ensures Valid() && objs == larger.objs && queue == larger.queue && buckets == larger.buckets
      ensures sz == larger.sz && HasRoom(sz + 1)
      ensures size == optSize == larger.size && px == larger.px
    {
      hide Linked, Sized, Kept, HasRoom;
      optSize, px, size, threshold := larger.optSize, larger.px, larger.size, larger.threshold;
      sz, queue, buckets := larger.sz, larger.queue, larger.buckets;
      objs := larger.objs;
      SameLinked(larger);
      SameSized(larger);
      SameKept(larger);
    }

    lemma SameLinked(m: Hmap<K, V>)
      requires m.Linked() && m.cfg == cfg && m.cmp == cmp && m.hash == hash && m.primes == primes
      requires size == m.size && buckets == m.buckets && objs == m.objs
      ensures Linked()
    {
      hide Chained, Ascends, TotalOrder, GoodHash;
    }

    lemma SameSized(m: Hmap<K, V>)
      requires m.Sized() && m.primes == primes && m.size == m.optSize && m.sz <= m.threshold
      requires optSize == m.optSize && px == m.px && size == m.size && threshold == m.threshold && sz == m.sz
      ensures Sized() && HasRoom(sz + 1)
    {
    }

    lemma SameKept(m: Hmap<K, V>)
      requires m.Kept(m.objs) && m.cfg == cfg && sz == m.sz && queue == m.queue && objs == m.objs
      requires optSize == m.optSize && size == m.size && threshold == m.threshold
      ensures Kept(objs)
    {
    }

    static lemma SamePlace(t: seq<nat>, i: nat, j: nat)
      requires Ascends(t) && i < |t| && j < |t| && t[i] == t[j]
      ensures i == j
    {
      if i < j {
        AscendsFar(t, i, j);
      } else if j < i {
        AscendsFar(t, j, i);
      }
    }

    /** The map to which __resize moves */
    method Larger(idx: nat) returns (larger: Hmap<K, V>)
      requires Linked() && Sized() && cfg.policy == NoPolicy && Kept(objs)
      requires px <= idx < |primes| && primes[idx] >= RATE_RESIZE * optSize
      ensures fresh(larger) && fresh(larger.buckets) && larger.Valid() && larger.objs == map[]
      ensures larger.cfg == cfg && larger.cmp == cmp && larger.hash == hash && larger.primes == primes
      ensures larger.size == larger.optSize == primes[idx] && larger.px == idx && larger.threshold >= |objs|
    {
      hide Chained, Loose;
      var m := New(cfg, cmp, hash, primes, primes[idx]);
      assert primes[idx] in primes;
      if px < idx {
        AscendsFar(primes, px, idx);
      }
      SamePlace(primes, m.px, idx);
      larger := m;
    }
  }
}

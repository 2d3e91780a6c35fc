/**
 The ring buffer of srcs/toolbox/rb.c in its malloc'd contiguous form: a buffer of twice the size whose
 halves mirror each other, so that what is queued always lies in one piece.
 */
module RingBuffer {
  import opened Wrappers

  type Byte = x: int | 0 <= x < 256

  /** memcpy: the first `n` bytes of `src` from place `from` on go to place `at`. */
  method Memcpy(dst: array<Byte>, at: nat, src: seq<Byte>, from: nat, n: nat)
    requires at + n <= dst.Length && from + n <= |src|
    modifies dst
    ensures forall i :: 0 <= i < dst.Length ==>
      dst[i] == if at <= i < at + n then src[from + i - at] else old(dst[i])
  {
    for k := 0 to n
      invariant forall i :: 0 <= i < dst.Length ==>
        dst[i] == if at <= i < at + k then src[from + i - at] else old(dst[i])
    {
      dst[at + k] := src[from + k];
    }
  }

  lemma JoinedAt(s: seq<Byte>, from: nat, mid: nat, n: nat, q: seq<Byte>, b: seq<Byte>)
    requires from <= mid && mid + n <= |s| && |q| == mid - from && n <= |b|
    requires forall i :: from <= i < mid ==> s[i] == q[i - from]
    requires forall i :: mid <= i < mid + n ==> s[i] == b[i - mid]
    ensures s[from..mid + n] == q + b[..n]
  {
  }

  /** u_rb_t */
  class Ring {
    const sz: nat
    const base: array<Byte>
    var wrOff: nat
    var rdOff: nat
    var ready: nat

    ghost predicate Mirrored()
      reads base
    {
      base.Length == 2 * sz && forall i :: 0 <= i < sz ==> base[i] == base[i + sz]
    }

    ghost predicate Valid()
      reads this, base
    {
      rdOff < sz && wrOff == rdOff + ready && ready <= sz && Mirrored()
    }

    /** The bytes waiting to be read, oldest first */
    ghost function Queue(): (q: seq<Byte>)
      requires Valid()
      reads this, base
      ensures |q| == ready <= sz
    {
      base[rdOff..wrOff]
    }

    constructor (sz: nat)
      requires sz > 0
      ensures Valid() && Queue() == [] && this.sz == sz && fresh(base)
    {
      this.sz := sz;
      base := new Byte[2 * sz](_ => 0);
      wrOff, rdOff, ready := 0, 0, 0;
    }

    /** create_malloc, with U_RB_OPT_USE_CONTIGUOUS_MEM */
    static method Create(sz: nat) returns (rb: Ring?)
      ensures rb == null <==> sz == 0
      ensures rb != null ==> fresh(rb) && fresh(rb.base) && rb.Valid() && rb.Queue() == [] && rb.sz == sz
    {
      if sz == 0 {
        return null;
      }
      rb := new Ring(sz);
    }

    /** u_rb_avail */
    function Avail(): (n: nat)
      requires Valid()
      reads this, base
      ensures n + |Queue()| == sz
    {
      sz - ready
    }

    /** mirror: the bytes just written at the write offset are copied to the other half. */
    method Mirror(b: seq<Byte>, n: nat)
      requires rdOff < sz && wrOff == rdOff + ready && ready + n <= sz && n <= |b| && base.Length == 2 * sz
      requires forall i :: wrOff <= i < wrOff + n ==> base[i] == b[i - wrOff]
      requires forall i :: 0 <= i < sz && !(wrOff <= i < wrOff + n) && !(wrOff <= i + sz < wrOff + n) ==>
        base[i] == base[i + sz]
      modifies base
      ensures Mirrored()
      ensures forall i :: rdOff <= i < wrOff + n ==> base[i] == old(base[i])
    {
      if wrOff + n <= sz {
        Memcpy(base, wrOff + sz, b, 0, n);
        assert Mirrored();
      } else if wrOff >= sz {
        Memcpy(base, wrOff - sz, b, 0, n);
        assert Mirrored();
      } else {
        MirrorAcross(b, n);
        assert Mirrored();
      }
    }

    /** The case of mirror where the write has crossed the middle */
    method MirrorAcross(b: seq<Byte>, n: nat)
      requires rdOff < sz && wrOff == rdOff + ready && ready + n <= sz && n <= |b| && base.Length == 2 * sz
      requires wrOff < sz < wrOff + n
      modifies base
      ensures forall i :: wrOff + sz <= i < 2 * sz ==> base[i] == b[i - wrOff - sz]
      ensures forall i :: 0 <= i < wrOff + n - sz ==> base[i] == b[i + sz - wrOff]
      ensures forall i :: wrOff + n - sz <= i < wrOff + sz ==> base[i] == old(base[i])
    {
      var left := sz - wrOff;
      Memcpy(base, wrOff + sz, b, 0, left);
      Memcpy(base, 0, b, left, n - left);
    }

    /** The copy into the buffer and its mirror image */
    method Store(b: seq<Byte>, n: nat)
      requires Valid() && n <= Avail() && n <= |b|
      modifies base
      ensures Mirrored()
      ensures forall i :: rdOff <= i < wrOff ==> base[i] == old(base[i])
      ensures forall i :: wrOff <= i < wrOff + n ==> base[i] == b[i - wrOff]
    {
      Memcpy(base, wrOff, b, 0, n);
      Mirror(b, n);
    }

    /** write_contiguous */
    method WriteContiguous(b: seq<Byte>, bSz: nat) returns (rc: int)
      requires Valid() && bSz <= |b|
      modifies `wrOff, base
      ensures bSz > sz ==> rc == -1 && wrOff == old(wrOff) && base[..] == old(base[..])
      ensures bSz <= sz ==>
        && rc == Min(old(Avail()), bSz) && wrOff == old(wrOff) + rc
        && base[rdOff..wrOff] == old(Queue()) + b[..rc] && Mirrored()
    {
      if bSz > sz {
        return -1;
      }
      var n := Min(Avail(), bSz);
      if n > 0 {
        ghost var q := Queue();
        Store(b, n);
        JoinedAt(base[..], rdOff, wrOff, n, q, b);
        wrOff := wrOff + n;
      }
      return n;
    }

    /** u_rb_write: as much as there is room for is queued; more than the size of the buffer is refused. */
    method Write(b: seq<Byte>, bSz: nat) returns (rc: int)
      requires Valid() && bSz <= |b|
      modifies this, base
      ensures Valid()
      ensures rc == if bSz > sz then -1 else Min(old(Avail()), bSz)
      ensures Queue() == if rc < 0 then old(Queue()) else old(Queue()) + b[..rc]
    {
      rc := WriteContiguous(b, bSz);
      if rc >= 0 {
        ready := ready + rc;
      }
    }

    /** read_incr_contiguous: a read offset past the first half goes back, the write offset with it. */
    method ReadIncr(cnt: nat)
      requires rdOff < sz && cnt <= wrOff - rdOff <= sz && Mirrored()
      modifies `rdOff, `wrOff
      ensures rdOff < sz && wrOff - rdOff == old(wrOff - rdOff) - cnt
      ensures base[rdOff..wrOff] == old(base[rdOff + cnt..wrOff])
    {
      rdOff := rdOff + cnt;
      if rdOff >= sz {
        rdOff, wrOff := rdOff - sz, wrOff - sz;
      }
    }

    /** u_rb_read over read_contiguous: the oldest bytes are copied out and dropped. */
    method Read(b: array<Byte>, bSz: nat) returns (rc: int)
      requires Valid() && bSz <= b.Length && b != base
      modifies this, b
      ensures Valid()
      ensures rc == if bSz > sz then -1 else Min(old(ready), bSz)
      ensures Queue() == if rc < 0 then old(Queue()) else old(Queue())[rc..]
      ensures b[..] == if rc < 0 then old(b[..]) else old(Queue())[..rc] + old(b[..])[rc..]
    {
      if bSz > sz {
        return -1;
      }
      var n := Min(ready, bSz);
      ghost var q := Queue();
      if n > 0 {
        Memcpy(b, 0, base[..], rdOff, n);
        assert forall i :: 0 <= i < n ==> b[i] == q[i];
        assert base[rdOff + n..wrOff] == q[n..];
        ReadIncr(n);
      }
      ready := ready - n;
      return n;
    }

    /** u_rb_fast_read: the oldest bytes are dropped, but stay where they are: `data` is their place. */
    method FastRead(want: nat) returns (data: Option<nat>, got: nat)
      requires Valid()
      modifies this
      ensures Valid()
      ensures want > sz ==> data == None && got == want && Queue() == old(Queue())
      ensures want <= sz ==>
        && got == Min(old(ready), want) && Queue() == old(Queue())[got..] && (data.Some? <==> got > 0)
      ensures data.Some? ==>
        data.value + got <= base.Length && base[data.value..data.value + got] == old(Queue())[..got]
    {
      if want > sz {
        return None, want;
      }
      got := Min(ready, want);
      data := None;
      if got > 0 {
        ghost var q := Queue();
        assert base[rdOff..rdOff + got] == q[..got] && base[rdOff + got..wrOff] == q[got..];
        data := Some(rdOff);
        ReadIncr(got);
        ready := ready - got;
      }
    }

    /** u_rb_clear */
    method Clear()
      requires Valid()
      modifies this
      ensures Valid() && Queue() == []
    {
      wrOff, rdOff, ready := 0, 0, 0;
    }
  }
}

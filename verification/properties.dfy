/** Properties that relate several pool operations: the release/acquire
    round trip, FIFO reuse, the unpooled bypass, draining, and the size-class
    arithmetic. */
module PoolProperties {
  import opened Wrappers
  import JavaInt
  import Arith
  import opened Buffers
  import opened BufferPool

  /** Two pools with the same layout and the same queues are the same pool. */
  lemma {:induction false} SameQueuesSamePool(p: Pool, q: Pool)
    requires SameLayout(p, q)
    requires forall k: bool, i :: 0 <= i < |BucketsFor(p, k)| ==> Queue(q, k, i) == Queue(p, k, i)
    ensures p == q
  {
    forall i | 0 <= i < |p.direct|
      ensures q.direct[i] == p.direct[i]
    {
      assert Queue(q, true, i) == Queue(p, true, i);
    }
    forall i | 0 <= i < |p.indirect|
      ensures q.indirect[i] == p.indirect[i]
    {
      assert Queue(q, false, i) == Queue(p, false, i);
    }
    assert p.direct == q.direct;
    assert p.indirect == q.indirect;
  }

  /** Releasing `b` into an empty class and then acquiring its capacity and
      kind hands `b` back, reset, and restores the pool exactly. */
  lemma ReleaseThenAcquire(p: Pool, b: Buffer, freshId: nat)
    requires Valid(p) && Indexable(p, b.capacity)
    requires p.min < b.capacity <= MaxSize(p)
    requires Queue(p, b.direct, BucketIndex(p, b.capacity).value) == []
    ensures Acquire(Release(p, Some(b)), b.capacity, b.direct, freshId) == Acquired(Reset(b), p)
  {
    var i := BucketIndex(p, b.capacity).value;
    var r := Release(p, Some(b));
    assert Queue(r, b.direct, i) == [Reset(b)];
    assert BucketIndex(r, b.capacity) == Some(i);
    var a := Acquire(r, b.capacity, b.direct, freshId);
    assert a.buffer == Reset(b);
    assert Queue(a.pool, b.direct, i) == [];
    forall k: bool, j | 0 <= j < |BucketsFor(p, k)|
      ensures Queue(a.pool, k, j) == Queue(p, k, j)
    {
      if k != b.direct || j != i {
        assert BucketsFor(r, k)[j] == BucketsFor(p, k)[j];
        assert BucketsFor(a.pool, k)[j] == BucketsFor(r, k)[j];
      }
    }
    SameQueuesSamePool(p, a.pool);
  }

  /** When the class already holds buffers, the pool reuses in FIFO order:
      the acquire after a release hands out the oldest pooled buffer and the
      released one waits at the tail. */
  lemma ReleaseThenAcquireIsFifo(p: Pool, b: Buffer, freshId: nat)
    requires Valid(p) && Indexable(p, b.capacity)
    requires p.min < b.capacity <= MaxSize(p)
    requires Queue(p, b.direct, BucketIndex(p, b.capacity).value) != []
    ensures
      var i := BucketIndex(p, b.capacity).value;
      var a := Acquire(Release(p, Some(b)), b.capacity, b.direct, freshId);
      && a.buffer == Queue(p, b.direct, i)[0]
      && Queue(a.pool, b.direct, i) == Queue(p, b.direct, i)[1..] + [Reset(b)]
  {
    var i := BucketIndex(p, b.capacity).value;
    var q := Queue(p, b.direct, i);
    var r := Release(p, Some(b));
    assert Queue(r, b.direct, i) == q + [Reset(b)];
    assert BucketIndex(r, b.capacity) == Some(i);
    assert (q + [Reset(b)])[1..] == q[1..] + [Reset(b)];
  }

  /** Sizes without a class bypass the pool: the buffer is allocated with
      exactly the requested size, and releasing it changes nothing. */
  lemma UnpooledSizesBypassPool(p: Pool, size: nat, direct: bool, freshId: nat)
    requires Valid(p) && Indexable(p, size)
    requires size <= p.min || size > MaxSize(p)
    ensures
      var a := Acquire(p, size, direct, freshId);
      && a.pool == p
      && a.buffer.capacity == size
      && Release(a.pool, Some(a.buffer)) == p
  {
  }

  /** A pooled request receives the capacity `ceil(size / inc) * inc` when the
      pool holds only buffers of their class's exact size. */
  lemma AcquiredCapacityIsCeiling(p: Pool, size: nat, direct: bool, freshId: nat)
    requires Valid(p) && Indexable(p, size) && Exact(p)
    requires 0 < size && p.min < size <= MaxSize(p)
    ensures Acquire(p, size, direct, freshId).buffer.capacity == ((size + p.inc - 1) / p.inc) * p.inc
  {
    var i := BucketIndex(p, size).value;
    var d := p.inc;
    JavaInt.DivAgreesOnNonNegative(size - 1, d);
    assert i == (size - 1) / d;
    Arith.DivShift(size - 1, d);
    assert (size + d - 1) / d == i + 1;
    assert BucketsFor(p, direct)[i].size == (i + 1) * d;
  }

  /** After `Clear`, every request falls back to fresh allocation. */
  lemma ClearThenAcquireAllocates(p: Pool, size: nat, direct: bool, freshId: nat)
    requires Valid(p) && Indexable(p, size)
    ensures
      var c := Clear(p);
      var a := Acquire(c, size, direct, freshId);
      && a.pool == c
      && a.buffer.id == freshId
      && a.buffer.direct == direct
      && a.buffer.capacity >= size
  {
    var c := Clear(p);
    assert Indexable(c, size);
    EmptyIsTidyAndExact(c);
  }

  /** Clearing twice is clearing once. */
  lemma ClearIdempotent(p: Pool)
    ensures Clear(Clear(p)) == Clear(p)
  {
    var c := Clear(p);
    var cc := Clear(c);
    assert forall k: bool, i :: 0 <= i < |BucketsFor(c, k)| ==> Queue(cc, k, i) == Queue(c, k, i);
    SameQueuesSamePool(c, cc);
  }

  /** Releasing `null` any number of times leaves the pool as it was. */
  lemma {:induction false} ReleaseNullIsNoOp(p: Pool, times: nat)
    requires Valid(p)
    ensures ReleaseNull(p, times) == p
  {
    if times > 0 {
      ReleaseNullIsNoOp(p, times - 1);
    }
  }

  /** `release(null)` issued `times` times in a row. */
  function ReleaseNull(p: Pool, times: nat): Pool
    requires Valid(p)
  {
    if times == 0 then p else Release(ReleaseNull(p, times - 1), None)
  }

  // ---------------------------------------------------------------------------
  // Concrete scenarios for the default pool

  /** The default pool: a request of 500 bytes gets a fresh 1024-byte heap
      buffer; releasing it files it in class 0; a request of 1 byte reuses
      it; a request of 2000 bytes gets a fresh 2048-byte buffer. */
  lemma DefaultPoolScenario()
    ensures
      var p0 := CreateDefault().value;
      var a1 := Acquire(p0, 500, false, 1);
      var p1 := Release(a1.pool, Some(a1.buffer));
      var a2 := Acquire(p1, 1, false, 2);
      var a3 := Acquire(a2.pool, 2000, false, 3);
      && a1.buffer == Allocate(1, 1024, false)
      && Queue(p1, false, 0) == [a1.buffer]
      && a2.buffer == a1.buffer
      && a3.buffer == Allocate(3, 2048, false)
  {
    var p0 := CreateDefault().value;
    assert p0.indirect[0].size == 1024 && p0.indirect[1].size == 2048;
    assert BucketIndex(p0, 500) == Some(0);
    var a1 := Acquire(p0, 500, false, 1);
    assert Queue(p0, false, 0) == [];
    var p1 := Release(a1.pool, Some(a1.buffer));
    assert BucketIndex(p1, 1) == Some(0);
    var a2 := Acquire(p1, 1, false, 2);
    assert BucketIndex(a2.pool, 2000) == Some(1);
    assert Queue(a2.pool, false, 1) == Queue(p0, false, 1) == [];
  }

  /** Rejected configurations: a minimum not below the increment (zero and
      negative increments included), an increment that does not divide the
      maximum, and an increment equal to it. */
  lemma RejectedConfigurations()
    ensures Create(0, 0, 1024) == Failure(MinSizeNotBelowIncrement)
    ensures Create(0, -1, 1024) == Failure(MinSizeNotBelowIncrement)
    ensures Create(1024, 512, 65536) == Failure(MinSizeNotBelowIncrement)
    ensures Create(0, 1000, 65536) == Failure(IncrementNotDivisor)
    ensures Create(0, 65536, 65536) == Failure(IncrementNotDivisor)
  {
  }
}

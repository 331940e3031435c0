/** The size-classed buffer pool `ArrayByteBufferPool`.

    A pool is configured by `(min, inc, maxSize)` and holds two arrays of
    buckets, one for direct and one for heap ("indirect") buffers. Bucket `i`
    of either array serves the size class `(i + 1) * inc` and keeps a FIFO
    queue of released buffers. `Acquire`, `Release` and `Clear` are pure
    transitions from one pool value to the next. */
module BufferPool {
  import opened Wrappers
  import JavaInt
  import Arith
  import opened Buffers

  /** One size class: the capacity it serves and the buffers waiting in it. */
  datatype Bucket = Bucket(size: int, queue: seq<Buffer>)

  datatype Pool = Pool(min: int, inc: int, direct: seq<Bucket>, indirect: seq<Bucket>)

  /** The two `IllegalArgumentException`s the constructor can throw. */
  datatype ConfigError = MinSizeNotBelowIncrement | IncrementNotDivisor

  /** What `acquire` hands back: the buffer, and the pool after the call. */
  datatype Acquired = Acquired(buffer: Buffer, pool: Pool)

  // ---------------------------------------------------------------------------
  // Layout

  /** The bucket array of one kind (`bucketsFor`). */
  function BucketsFor(p: Pool, direct: bool): (bs: seq<Bucket>)
    ensures Valid(p) ==> |bs| == |p.direct| && ClassSized(bs, p.inc)
  {
    if direct then p.direct else p.indirect
  }

  /** Bucket `i` of `bs` serves exactly `(i + 1) * inc`. */
  predicate ClassSized(bs: seq<Bucket>, inc: int)
  {
    forall i :: 0 <= i < |bs| ==> bs[i].size == (i + 1) * inc
  }

  /** The layout the constructor establishes and no operation changes. */
  predicate Valid(p: Pool)
  {
    && 0 < p.inc
    && p.min < p.inc
    && 0 < |p.direct| == |p.indirect|
    && ClassSized(p.direct, p.inc)
    && ClassSized(p.indirect, p.inc)
  }

  /** The largest pooled size: the capacity of the last class. */
  function MaxSize(p: Pool): int
  {
    |p.direct| * p.inc
  }

  /** The queue of bucket `i` of the given kind. */
  function Queue(p: Pool, direct: bool, i: int): seq<Buffer>
    requires 0 <= i < |BucketsFor(p, direct)|
  {
    BucketsFor(p, direct)[i].queue
  }

  /** `q` has the configuration and bucket arrays of `p`, up to queue contents. */
  predicate SameLayout(p: Pool, q: Pool)
  {
    && q.min == p.min
    && q.inc == p.inc
    && |q.direct| == |p.direct|
    && |q.indirect| == |p.indirect|
    && (forall i :: 0 <= i < |p.direct| ==> q.direct[i].size == p.direct[i].size)
    && (forall i :: 0 <= i < |p.indirect| ==> q.indirect[i].size == p.indirect[i].size)
  }

  /** Every bucket of `r` other than bucket `i` of kind `direct` is as in `p`. */
  predicate UnchangedExcept(p: Pool, r: Pool, direct: bool, i: int)
  {
    && |r.direct| == |p.direct|
    && |r.indirect| == |p.indirect|
    && forall k: bool, j :: 0 <= j < |BucketsFor(p, k)| && (k != direct || j != i) ==>
         BucketsFor(r, k)[j] == BucketsFor(p, k)[j]
  }

  /** Every queue of both kinds is empty. */
  predicate Empty(p: Pool)
  {
    forall k: bool, i :: 0 <= i < |BucketsFor(p, k)| ==> Queue(p, k, i) == []
  }

  /** Every pooled buffer is in the empty state and sits in the array of its
      own kind. `Release` keeps this for any buffer it is given. */
  predicate Tidy(p: Pool)
  {
    forall k: bool, i, j :: 0 <= i < |BucketsFor(p, k)| && 0 <= j < |Queue(p, k, i)| ==>
      Queue(p, k, i)[j].direct == k && IsReset(Queue(p, k, i)[j])
  }

  /** Every pooled buffer has exactly the capacity of its bucket. `Release`
      keeps this only for buffers whose capacity is a class boundary. */
  predicate Exact(p: Pool)
  {
    forall k: bool, i, j :: 0 <= i < |BucketsFor(p, k)| && 0 <= j < |Queue(p, k, i)| ==>
      Queue(p, k, i)[j].capacity == BucketsFor(p, k)[i].size
  }

  lemma EmptyIsTidyAndExact(p: Pool)
    requires Empty(p)
    ensures Tidy(p) && Exact(p)
  {
  }

  // ---------------------------------------------------------------------------
  // Construction

  /** The bucket array the constructor's loop builds: `n` empty classes of
      sizes `inc`, `2 * inc`, ..., `n * inc`, each one `inc` above the last. */
  function Layout(inc: int, n: nat): (bs: seq<Bucket>)
    ensures |bs| == n
    ensures ClassSized(bs, inc)
    ensures forall i :: 0 <= i < n ==> bs[i].queue == []
  {
    if n == 0 then [] else Layout(inc, n - 1) + [Bucket(n * inc, [])]
  }

  /** `new ArrayByteBufferPool(minSize, increment, maxSize)`. The first check
      rejects every increment at or below the minimum, so a non-positive
      increment needs only a negative minimum to be excluded. */
  function Create(minSize: int, increment: int, maxSize: int): (r: Result<Pool, ConfigError>)
    requires increment > 0 || minSize >= increment
    ensures r.Failure? <==> minSize >= increment || maxSize % increment != 0 || increment >= maxSize
    ensures r.Failure? ==> (r.error == MinSizeNotBelowIncrement <==> minSize >= increment)
    ensures r.Success? ==>
      && Valid(r.value)
      && r.value.min == minSize
      && r.value.inc == increment
      && |r.value.direct| == maxSize / increment
      && MaxSize(r.value) == maxSize
      && r.value.direct[|r.value.direct| - 1].size == maxSize
      && r.value.indirect[|r.value.indirect| - 1].size == maxSize
      && Empty(r.value)
  {
    if minSize >= increment then
      Failure(MinSizeNotBelowIncrement)
    else if JavaInt.Rem(maxSize, increment) != 0 || increment >= maxSize then
      Failure(IncrementNotDivisor)
    else
      JavaInt.DivAgreesOnNonNegative(maxSize, increment);
      var n := JavaInt.Div(maxSize, increment);
      Success(Pool(minSize, increment, Layout(increment, n), Layout(increment, n)))
  }

  /** `new ArrayByteBufferPool()`: minimum 0, increment 1024, maximum 64 KiB. */
  function CreateDefault(): (r: Result<Pool, ConfigError>)
    ensures r.Success?
    ensures r.value.min == 0 && r.value.inc == 1024
    ensures |r.value.direct| == |r.value.indirect| == 64
    ensures MaxSize(r.value) == 65536
    ensures Empty(r.value)
  {
    Create(0, 1024, 64 * 1024)
  }

  // ---------------------------------------------------------------------------
  // Size-class lookup

  /** `bucketFor` indexes the array with `(size - 1) / inc` and checks only
      the upper bound. With a negative `min` the Java quotient can be `-1`
      (only when `inc == 1` and `size == 0`, for a non-negative size) and the
      array access throws; callers must stay clear of that. */
  predicate Indexable(p: Pool, size: int)
    requires p.inc > 0
  {
    size <= p.min || JavaInt.Div(size - 1, p.inc) >= 0
  }

  /** With a non-negative minimum, or an increment above 1, every
      non-negative size can be looked up. */
  predicate Safe(p: Pool)
  {
    p.min >= 0 || p.inc >= 2
  }

  lemma SafeIsIndexable(p: Pool, size: int)
    requires Valid(p) && Safe(p) && size >= 0
    ensures Indexable(p, size)
  {
  }

  /** In such a pool every buffer can be released. */
  lemma SafeIsReleasable(p: Pool, buffer: Option<Buffer>)
    requires Valid(p) && Safe(p)
    ensures buffer.Some? ==> Indexable(p, buffer.value.capacity)
  {
    if buffer.Some? {
      SafeIsIndexable(p, buffer.value.capacity);
    }
  }

  /** `bucketFor(size, direct)`: the index of the size class for `size`, in
      either array, or `None` when requests of that size are not pooled. */
  function BucketIndex(p: Pool, size: int): (r: Option<nat>)
    requires Valid(p) && Indexable(p, size)
    ensures r.None? <==> size <= p.min || size > MaxSize(p)
    ensures r.Some? ==> r.value < |p.direct| && p.direct[r.value].size >= size
    ensures r.Some? && size > 0 ==> p.direct[r.value].size < size + p.inc
    ensures r.Some? && size <= 0 ==> r.value == 0
    ensures r.Some? ==> forall j :: 0 <= j < r.value ==> p.direct[j].size < size
  {
    if size <= p.min then None
    else
      var b := JavaInt.Div(size - 1, p.inc);
      QuotientBounds(size - 1, p.inc, |p.direct|);
      if b >= |p.direct| then None
      else
        SmallerClassesTooSmall(p, b, size);
        Some(b)
  }

  /** Where `(size - 1) / inc` lands relative to the `n` classes. */
  lemma QuotientBounds(a: int, d: int, n: int)
    requires d > 0 && n > 0 && JavaInt.Div(a, d) >= 0
    ensures JavaInt.Div(a, d) >= n <==> a >= n * d
    ensures a < (JavaInt.Div(a, d) + 1) * d
    ensures a >= 0 ==> JavaInt.Div(a, d) * d <= a
    ensures a < 0 ==> JavaInt.Div(a, d) == 0
  {
    var q := JavaInt.Div(a, d);
    if a < 0 {
      assert q == 0;
      Arith.MulAtLeast(n, d);
    } else if q >= n {
      Arith.MulMono(n, q, d);
    } else {
      Arith.MulMono(q + 1, n, d);
    }
  }

  /** Below class `b`, whose predecessor's size is under `size`, every class
      is too small for `size`; below class 0 there is nothing. */
  lemma SmallerClassesTooSmall(p: Pool, b: int, size: int)
    requires Valid(p) && 0 <= b < |p.direct| && (b == 0 || b * p.inc < size)
    ensures forall j :: 0 <= j < b ==> p.direct[j].size < size
  {
    forall j | 0 <= j < b
      ensures p.direct[j].size < size
    {
      Arith.MulMono(j + 1, b, p.inc);
    }
  }

  /** An `Acquire` of `size` would take a pooled buffer rather than allocate. */
  predicate Reusable(p: Pool, size: int, direct: bool)
    requires Valid(p) && Indexable(p, size)
  {
    var slot := BucketIndex(p, size);
    slot.Some? && Queue(p, direct, slot.value) != []
  }

  // ---------------------------------------------------------------------------
  // Transitions

  /** `p` with the queue of bucket `i` of kind `direct` replaced by `q`. */
  function WithQueue(p: Pool, direct: bool, i: int, q: seq<Buffer>): (r: Pool)
    requires 0 <= i < |BucketsFor(p, direct)|
    ensures r.min == p.min && r.inc == p.inc
    ensures UnchangedExcept(p, r, direct, i)
    ensures BucketsFor(r, direct)[i] == Bucket(BucketsFor(p, direct)[i].size, q)
    ensures Valid(p) ==> Valid(r) && SameLayout(p, r)
  {
    if direct then p.(direct := p.direct[i := Bucket(p.direct[i].size, q)])
    else p.(indirect := p.indirect[i := Bucket(p.indirect[i].size, q)])
  }

  /** Replacing one queue by buffers that are reset and of the bucket's kind
      keeps every pooled buffer tidy. */
  lemma TidyWithQueue(p: Pool, direct: bool, i: int, q: seq<Buffer>)
    requires 0 <= i < |BucketsFor(p, direct)|
    ensures Tidy(p) && (forall j :: 0 <= j < |q| ==> q[j].direct == direct && IsReset(q[j])) ==>
      Tidy(WithQueue(p, direct, i, q))
  {
    var r := WithQueue(p, direct, i, q);
    if Tidy(p) && (forall j :: 0 <= j < |q| ==> q[j].direct == direct && IsReset(q[j])) {
      forall k: bool, x, j | 0 <= x < |BucketsFor(r, k)| && 0 <= j < |Queue(r, k, x)|
        ensures Queue(r, k, x)[j].direct == k && IsReset(Queue(r, k, x)[j])
      {
        if k == direct && x == i {
          assert Queue(r, k, x) == q;
        } else {
          assert BucketsFor(r, k)[x] == BucketsFor(p, k)[x];
          assert Queue(r, k, x)[j] == Queue(p, k, x)[j];
        }
      }
    }
  }

  /** Replacing one queue by buffers of the bucket's capacity keeps every
      pooled buffer exact. */
  lemma ExactWithQueue(p: Pool, direct: bool, i: int, q: seq<Buffer>)
    requires 0 <= i < |BucketsFor(p, direct)|
    ensures Exact(p) && (forall j :: 0 <= j < |q| ==> q[j].capacity == BucketsFor(p, direct)[i].size) ==>
      Exact(WithQueue(p, direct, i, q))
  {
    var r := WithQueue(p, direct, i, q);
    if Exact(p) && (forall j :: 0 <= j < |q| ==> q[j].capacity == BucketsFor(p, direct)[i].size) {
      forall k: bool, x, j | 0 <= x < |BucketsFor(r, k)| && 0 <= j < |Queue(r, k, x)|
        ensures Queue(r, k, x)[j].capacity == BucketsFor(r, k)[x].size
      {
        if k == direct && x == i {
          assert Queue(r, k, x) == q;
        } else {
          assert BucketsFor(r, k)[x] == BucketsFor(p, k)[x];
          assert Queue(r, k, x)[j] == Queue(p, k, x)[j];
        }
      }
    }
  }

  /** `_queue.poll()` on a non-empty bucket: the head buffer leaves the queue. */
  function Poll(p: Pool, direct: bool, i: int): (r: Acquired)
    requires Valid(p) && 0 <= i < |p.direct| && Queue(p, direct, i) != []
    ensures Valid(r.pool) && SameLayout(p, r.pool)
    ensures r.buffer == Queue(p, direct, i)[0]
    ensures Queue(r.pool, direct, i) == Queue(p, direct, i)[1..]
    ensures UnchangedExcept(p, r.pool, direct, i)
    ensures Tidy(p) ==> Tidy(r.pool) && r.buffer.direct == direct && IsReset(r.buffer)
    ensures Exact(p) ==> Exact(r.pool) && r.buffer.capacity == BucketsFor(p, direct)[i].size
  {
    var q := Queue(p, direct, i);
    TidyWithQueue(p, direct, i, q[1..]);
    ExactWithQueue(p, direct, i, q[1..]);
    Acquired(q[0], WithQueue(p, direct, i, q[1..]))
  }

  /** `acquire(size, direct)`. A pooled buffer is taken from the head of its
      class queue; otherwise a fresh buffer, identified by `freshId`, is
      allocated with the class capacity, or with exactly `size` when the size
      is not pooled. */
  function Acquire(p: Pool, size: nat, direct: bool, freshId: nat): (r: Acquired)
    requires Valid(p) && Indexable(p, size)
    ensures Valid(r.pool) && SameLayout(p, r.pool)
    ensures size <= p.min || size > MaxSize(p) ==>
      r.pool == p && r.buffer == Allocate(freshId, size, direct)
    ensures p.min < size <= MaxSize(p) && !Reusable(p, size, direct) ==>
      && r.pool == p
      && r.buffer.id == freshId && r.buffer.direct == direct && IsReset(r.buffer)
      && r.buffer.capacity == BucketsFor(p, direct)[BucketIndex(p, size).value].size
      && r.buffer.capacity >= size && r.buffer.capacity % p.inc == 0
      && (size > 0 ==> r.buffer.capacity < size + p.inc)
      && (size == 0 ==> r.buffer.capacity == p.inc)
    ensures Reusable(p, size, direct) ==>
      var i := BucketIndex(p, size).value;
      && r.buffer == Queue(p, direct, i)[0]
      && Queue(r.pool, direct, i) == Queue(p, direct, i)[1..]
      && UnchangedExcept(p, r.pool, direct, i)
    ensures Tidy(p) ==> Tidy(r.pool) && r.buffer.direct == direct && IsReset(r.buffer)
    ensures Exact(p) ==> Exact(r.pool) && r.buffer.capacity >= size
  {
    match BucketIndex(p, size)
    case None => Acquired(Allocate(freshId, size, direct), p)
    case Some(i) =>
      var bucket := BucketsFor(p, direct)[i];
      if bucket.queue != [] then
        Poll(p, direct, i)
      else
        Arith.MultipleHasNoRemainder(i + 1, p.inc);
        Acquired(Allocate(freshId, bucket.size, direct), p)
  }

  /** The buffer's capacity is the exact size of the class `bucketFor` files
      it under; the source never checks this. */
  predicate Conforming(p: Pool, b: Buffer)
    requires Valid(p) && Indexable(p, b.capacity)
  {
    match BucketIndex(p, b.capacity)
    case None => true
    case Some(i) => b.capacity == p.direct[i].size
  }

  /** `release(buffer)`, with `None` for `null`. A buffer whose capacity has
      a size class is reset and appended to that class's queue of its kind;
      any other buffer is dropped. */
  function Release(p: Pool, buffer: Option<Buffer>): (r: Pool)
    requires Valid(p)
    requires buffer.Some? ==> Indexable(p, buffer.value.capacity)
    ensures Valid(r) && SameLayout(p, r)
    ensures buffer.None? ==> r == p
    ensures buffer.Some? && (buffer.value.capacity <= p.min || buffer.value.capacity > MaxSize(p)) ==>
      r == p
    ensures buffer.Some? && p.min < buffer.value.capacity <= MaxSize(p) ==>
      var b := buffer.value;
      var i := BucketIndex(p, b.capacity).value;
      && Queue(r, b.direct, i) == Queue(p, b.direct, i) + [Reset(b)]
      && UnchangedExcept(p, r, b.direct, i)
    ensures Tidy(p) ==> Tidy(r)
    ensures Exact(p) && (buffer.Some? ==> Conforming(p, buffer.value)) ==> Exact(r)
  {
    match buffer
    case None => p
    case Some(b) =>
      match BucketIndex(p, b.capacity)
      case None => p
      case Some(i) =>
        var q := Queue(p, b.direct, i) + [Reset(b)];
        TidyWithQueue(p, b.direct, i, q);
        ExactWithQueue(p, b.direct, i, q);
        WithQueue(p, b.direct, i, q)
  }

  /** The buckets of `bs` with every queue emptied, visited in order as the
      source's `clear` loop does. */
  function Drain(bs: seq<Bucket>): (r: seq<Bucket>)
    ensures |r| == |bs|
    ensures forall i :: 0 <= i < |bs| ==> r[i].size == bs[i].size && r[i].queue == []
  {
    if bs == [] then []
    else Drain(bs[..|bs| - 1]) + [Bucket(bs[|bs| - 1].size, [])]
  }

  /** `clear()`: every queue of both kinds is drained; the configuration and
      the size classes stay. */
  function Clear(p: Pool): (r: Pool)
    ensures SameLayout(p, r)
    ensures Empty(r)
    ensures Valid(p) ==> Valid(r)
  {
    p.(direct := Drain(p.direct), indirect := Drain(p.indirect))
  }
}

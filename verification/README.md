# ArrayByteBufferPool in Dafny

A model of Jetty's `ArrayByteBufferPool`, a size-classed pool of
`java.nio.ByteBuffer`s. The pool is configured by `(minSize, increment,
maxSize)`. It keeps two arrays of buckets, one for direct buffers and one for
heap buffers. Bucket `i` of either array serves the size class
`(i + 1) * increment` and holds a FIFO queue of released buffers.

- `acquire(size, direct)` maps the size to a class with `bucketFor`. It takes
  the head of that class's queue when there is one. Otherwise it allocates a
  fresh buffer of the class capacity, or of exactly `size` when the size has
  no class.
- `release(buffer)` maps the buffer's capacity and kind to a class. It resets
  the buffer and appends it to that queue. A buffer without a class is
  dropped, and `null` is ignored.
- `clear()` drains every queue.

The model is a functional state machine. A `Pool` value holds the
configuration and both bucket arrays, and each queue is a `seq<Buffer>`.
`Acquire`, `Release` and `Clear` are pure functions from one pool to the next.

Files:

- `wrappers.dfy`: `Option` and `Result`.
- `java_int.dfy`: Java's truncating `/` and `%`.
- `arith.dfy`: facts about Dafny's Euclidean `/` and `%`.
- `buffers.dfy`: the abstract buffer and the two foreign calls (allocate, clear).
- `pool.dfy`: the pool itself.
- `conservation.dfy`: no buffer is lost or duplicated.
- `properties.dfy`: round trips, FIFO reuse, draining, scenarios.
- `traces.dfy`: sequences of client calls; every one serves the requested kind.
- `exact_release.dfy`: the release that checks capacity (see Findings).

Two points where the code is weaker than the pool's intent, and the model
follows the code:

- The intended invariant is that every buffer stored in bucket `i` has
  capacity `(i + 1) * increment`. `release` checks only the index, so the
  model states this invariant (`Exact`) as a condition that operations keep,
  not as a global fact.
- The constructor takes `int` sizes and accepts a negative minimum, and the
  model does too. Java's truncating division is written out in `JavaInt.Div`,
  because it differs from Dafny's for the index `(size - 1) / inc` when
  `size` is 0 and `inc >= 2`.

## Model

| member | source | states |
|---|---|---|
| `BufferPool.Create` | src/main/java/org/eclipse/jetty/io/ArrayByteBufferPool.java:39-57 | Construction fails exactly when `minSize >= increment`, `maxSize % increment != 0` or `increment >= maxSize`. The first check wins the error kind, and it covers every increment at or below `minSize`, zero and negative ones included. On success the pool keeps `min` and `inc` from the arguments, has `maxSize / increment` classes per kind with the last class at `maxSize`, starts with every queue empty, and satisfies `Valid` |
| `BufferPool.CreateDefault` | src/main/java/org/eclipse/jetty/io/ArrayByteBufferPool.java:34-37 | The no-argument constructor succeeds with minimum 0, increment 1024, 64 classes per kind up to 65536, and empty queues |
| `BufferPool.Layout` | src/main/java/org/eclipse/jetty/io/ArrayByteBufferPool.java:51-57 | The constructor's loop yields `n` buckets. Bucket `i` has size `(i + 1) * inc` and an empty queue |
| `BufferPool.BucketsFor` | src/main/java/org/eclipse/jetty/io/ArrayByteBufferPool.java:126-129 | For a valid pool, either kind's view is the full ordered array of classes, as long as the direct one |
| `BufferPool.BucketIndex` | src/main/java/org/eclipse/jetty/io/ArrayByteBufferPool.java:90-96 | There is no class exactly when `size <= min` or `size > maxSize`. Otherwise the index is within the array. Its class is at least `size` and every smaller class is below `size`, so it is the smallest class that fits. For positive sizes the class is below `size + inc`. A size at or below 0, which has a class only under a negative minimum, gets class 0, because Java's `(size - 1) / inc` truncates to 0 |
| `BufferPool.Poll` | src/main/java/org/eclipse/jetty/io/ArrayByteBufferPool.java:65 | Polling a non-empty queue returns its head, leaves its tail, and changes no other bucket. Tidiness and exactness are kept |
| `BufferPool.Acquire` | src/main/java/org/eclipse/jetty/io/ArrayByteBufferPool.java:61-74 | An unpooled size gets a fresh buffer of exactly that size, and the pool is unchanged. A pooled size with an empty queue gets a fresh buffer of its class's capacity, and the pool is unchanged. That capacity is a multiple of `inc` and at least `size`. For a positive size it is below `size + inc`, and for size 0 it is `inc`. A hit returns the queue head, removes only it, and leaves every other bucket alone. The layout is always kept. In a tidy pool the buffer has the requested kind and is reset. In an exact pool its capacity is at least `size` |
| `BufferPool.Release` | src/main/java/org/eclipse/jetty/io/ArrayByteBufferPool.java:77-87 | `null` is a no-op. A buffer whose capacity is `<= min` or `> maxSize` is dropped, and the pool is unchanged. Any other buffer is reset and appended at the tail of its class's queue of its own kind, and no other bucket changes. Tidiness is always kept. Exactness is kept when the buffer's capacity is its class's size |
| `BufferPool.Drain` | src/main/java/org/eclipse/jetty/io/ArrayByteBufferPool.java:117-121 | Every bucket keeps its size and its queue becomes empty |
| `BufferPool.Clear` | src/main/java/org/eclipse/jetty/io/ArrayByteBufferPool.java:115-122 | Every queue of both kinds is empty afterwards. `min`, `inc` and all bucket sizes are unchanged, and validity is kept |
| `Buffers.Reset` | src/main/java/org/eclipse/jetty/io/ArrayByteBufferPool.java:83 | Clearing a buffer puts it in the empty state, keeps its identity, capacity and kind, and is idempotent |
| `Buffers.Allocate` | src/main/java/org/eclipse/jetty/io/ArrayByteBufferPool.java:69-71 | A fresh buffer has exactly the requested capacity and kind and starts empty |
| `JavaInt.Div` | src/main/java/org/eclipse/jetty/io/ArrayByteBufferPool.java:92 | Java's quotient truncates toward zero, so the remainder has the sign of the dividend and is smaller than the divisor |
| `JavaInt.Rem` | src/main/java/org/eclipse/jetty/io/ArrayByteBufferPool.java:43 | Java's remainder has the dividend's sign and magnitude below the divisor. It is zero exactly when the divisor divides the dividend |
| `JavaInt.DivOfMinusOne` | src/main/java/org/eclipse/jetty/io/ArrayByteBufferPool.java:92 | For `inc >= 2`, at `size == 0` the Java index `(size - 1) / inc` is 0, whereas Euclidean division would give -1. With `inc == 1` both give -1 |
| `BufferPool.SafeIsIndexable` | src/main/java/org/eclipse/jetty/io/ArrayByteBufferPool.java:91-94 | With `min >= 0` or `inc >= 2`, the array access in `bucketFor` never gets a negative index for a non-negative size |
| `Conservation.AcquireConserves` | src/main/java/org/eclipse/jetty/io/ArrayByteBufferPool.java:63-73 | A hit removes exactly the returned buffer from the multiset of pooled buffers. Every other acquire leaves that multiset unchanged |
| `Conservation.ReleaseConserves` | src/main/java/org/eclipse/jetty/io/ArrayByteBufferPool.java:77-87 | Releasing a buffer that has a class adds exactly its reset copy to the pooled buffers. A buffer without a class, or `null`, adds nothing |
| `Conservation.ClearEmptiesPool` | src/main/java/org/eclipse/jetty/io/ArrayByteBufferPool.java:115-122 | After `clear` the multiset of pooled buffers is empty |
| `Conservation.ContentsUpdate` | src/main/java/org/eclipse/jetty/io/ArrayByteBufferPool.java:84 | Replacing one bucket's queue changes the pooled buffers by exactly the old and new queue contents |
| `PoolProperties.ReleaseThenAcquire` | src/main/java/org/eclipse/jetty/io/ArrayByteBufferPool.java:63-84 | Release `b` into an empty class, then acquire `b.capacity` of `b`'s kind: the result is `b` reset, and the pool is exactly what it was before the release |
| `PoolProperties.ReleaseThenAcquireIsFifo` | src/main/java/org/eclipse/jetty/io/ArrayByteBufferPool.java:63-84 | With buffers already queued, the acquire after a release returns the oldest one, and the released buffer waits at the tail |
| `PoolProperties.UnpooledSizesBypassPool` | src/main/java/org/eclipse/jetty/io/ArrayByteBufferPool.java:63-85 | A size at or below `min`, or above `maxSize`, gets a buffer of exactly that size, and releasing that buffer changes nothing |
| `PoolProperties.AcquiredCapacityIsCeiling` | src/main/java/org/eclipse/jetty/io/ArrayByteBufferPool.java:63-96 | In an exact pool, a pooled positive size gets capacity `ceil(size / inc) * inc` |
| `PoolProperties.ClearThenAcquireAllocates` | src/main/java/org/eclipse/jetty/io/ArrayByteBufferPool.java:115-122 | After `clear` every acquire allocates afresh: the pool is untouched, and the buffer is new, of the requested kind and large enough |
| `PoolProperties.ClearIdempotent` | src/main/java/org/eclipse/jetty/io/ArrayByteBufferPool.java:115-122 | Clearing twice is the same as clearing once |
| `PoolProperties.ReleaseNullIsNoOp` | src/main/java/org/eclipse/jetty/io/ArrayByteBufferPool.java:78 | Releasing `null` any number of times leaves the pool unchanged |
| `PoolProperties.DefaultPoolScenario` | src/main/java/org/eclipse/jetty/io/ArrayByteBufferPool.java:34-96 | On the default pool, `acquire(500)` gives a fresh 1024-byte heap buffer. Releasing it queues it in class 0, `acquire(1)` returns that same buffer, and `acquire(2000)` gives a fresh 2048-byte buffer |
| `PoolProperties.RejectedConfigurations` | src/main/java/org/eclipse/jetty/io/ArrayByteBufferPool.java:39-46 | `(1024, 512, 65536)`, `(0, 0, 1024)` and `(0, -1, 1024)` fail on the minimum. `(0, 1000, 65536)` and `(0, 65536, 65536)` fail on the divisor check |
| `Traces.TidyPoolServesRequestedKind` | src/main/java/org/eclipse/jetty/io/ArrayByteBufferPool.java:61-96 | Start from a tidy pool and use the source's operations: on every trace of acquires, releases and clears, each acquire returns a reset buffer of the requested kind, whatever buffers were released |
| `Traces.CreatedPoolServesRequestedKind` | src/main/java/org/eclipse/jetty/io/ArrayByteBufferPool.java:39-96 | The same holds for every successfully constructed pool whose lookups cannot go negative |
| `ExactRelease.ConformingIsClassBoundary` | src/main/java/org/eclipse/jetty/io/ArrayByteBufferPool.java:80-84 | A buffer that has a class has exactly its class's size iff its capacity is a positive multiple of `inc` |
| `ExactRelease.ReleaseExact` | src/main/java/org/eclipse/jetty/io/ArrayByteBufferPool.java:77-87 | Release with the capacity check. It behaves like `release` for buffers at a class boundary and drops all others. It keeps both tidiness and exactness for any buffer |
| `ExactRelease.ExactReleaseNeverUndersized` | src/main/java/org/eclipse/jetty/io/ArrayByteBufferPool.java:61-87 | Start from an exact pool and use the checked release: on every trace of acquires, releases and clears, each acquire returns at least the requested capacity |
| `ExactRelease.CreatedPoolNeverUndersized` | src/main/java/org/eclipse/jetty/io/ArrayByteBufferPool.java:39-87 | The same holds for every successfully constructed pool whose lookups cannot go negative |
| `ExactRelease.IndexOnlyReleaseUndersized` | src/main/java/org/eclipse/jetty/io/ArrayByteBufferPool.java:80-84 | With the source's release on the default pool, a 600-byte heap buffer is queued in the 1024 class. The next `acquire(1000)` returns it, which is smaller than requested |

## Left out

- Concurrency. `ConcurrentLinkedQueue` and the race between `clear` and `release` are not modelled. Each queue is a plain sequential FIFO.
- Memory. The internals of `BufferUtil.allocate`, `allocateDirect` and `clear` are foreign. Allocation becomes `Allocate` with a caller-supplied `freshId`, and clearing becomes `Reset` (position and limit to 0). Nothing proves that ids are distinct.
- `Bucket.toString`. It only formats diagnostics.
- Java `int` overflow. Sizes are unbounded integers.
- `BufferPool.Create`: requires `increment > 0 || minSize >= increment`. The first check rejects every increment at or below `minSize`, zero and negative ones included, and the model does the same. A non-positive increment above a negative `minSize` is left out. Increment 0 throws `ArithmeticException` at line 43. When `minSize < increment < 0`, a positive multiple `maxSize` throws `NegativeArraySizeException` at line 48, and `maxSize == 0` builds a pool with no size classes. Every other such configuration fails the divisor check.
- `BufferPool.Acquire`: takes `size` as a natural number. The model restricts requests to non-negative sizes, and the source does not check the sign. A negative size at or below `minSize` passes a negative capacity to the foreign allocator. Above a negative `minSize`, a negative size gets class 0 when `(size - 1) / inc` truncates to 0. When that index is below 0, the array access at line 94 throws `ArrayIndexOutOfBoundsException`.
- `BufferPool.Acquire`: requires `Indexable`, and so does `BufferPool.Release`. With a negative minimum and increment 1, a size of 0 gives index -1, and the source throws `ArrayIndexOutOfBoundsException`. That exception is not modelled.
- `BufferPool.Acquire`: a reused buffer's kind is promised only for a `Tidy` pool, and its minimum capacity only for an `Exact` pool. A `Pool` value can be built directly with any queues, and such a pool need not be tidy. The kind promise holds for every pool reached from the constructor, because release files each buffer in the array of its own kind. The `Tidy` clauses of `BufferPool.Acquire`, `BufferPool.Release` and `BufferPool.Clear` keep tidiness at every step, and `Traces.CreatedPoolServesRequestedKind` states this for every trace from a constructed pool whose lookups cannot go negative. The capacity promise does not hold, because release never compares the capacity with its class's size (see Findings).
- Ownership of buffers is not modelled. A caller that keeps a released buffer, or releases it twice, is not prevented.

## Findings

| source | as written | input that shows it | evidently intended | confidence | as-written member | corrected member |
|---|---|---|---|---|---|---|
| src/main/java/org/eclipse/jetty/io/ArrayByteBufferPool.java:80-84 | `release` finds the bucket with `(capacity - 1) / inc` and never compares the capacity with that bucket's size, so a buffer between two class boundaries is pooled in the class above it | pool `(0, 1024, 65536)`; `release` of a 600-byte heap buffer; then `acquire(1000, false)` returns the 600-byte buffer | `acquire` never returns a buffer smaller than requested; a released buffer is pooled only if its capacity is its class's size | medium; not executed | `ExactRelease.IndexOnlyReleaseUndersized` | `ExactRelease.ReleaseExact` |

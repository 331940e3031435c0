/** Release files a buffer by index arithmetic alone.

    `release` looks the buffer up with `bucketFor(capacity, isDirect)` and
    never compares the capacity with the bucket's size. A buffer whose
    capacity falls strictly between two class boundaries is therefore pooled
    in the class above it, and a later `acquire` of that class can hand out a
    buffer smaller than requested. This module shows that behaviour on a
    concrete trace and proves that a release which also checks the capacity
    keeps every acquire large enough, on every trace. */
module ExactRelease {
  import opened Wrappers
  import JavaInt
  import Arith
  import opened Buffers
  import opened BufferPool
  import opened Traces

  /** A buffer is pooled exactly when its capacity has a class and is that
      class's boundary, a positive multiple of the increment. */
  lemma {:induction false} ConformingIsClassBoundary(p: Pool, b: Buffer)
    requires Valid(p) && Indexable(p, b.capacity)
    ensures Conforming(p, b) <==>
      b.capacity <= p.min || b.capacity > MaxSize(p) || (b.capacity > 0 && b.capacity % p.inc == 0)
  {
    if p.min < b.capacity <= MaxSize(p) {
      var i := BucketIndex(p, b.capacity).value;
      var d := p.inc;
      assert p.direct[i].size == (i + 1) * d;
      if b.capacity > 0 && b.capacity % d == 0 {
        var k := b.capacity / d;
        assert b.capacity == k * d;
        assert k >= 1 by {
          if k <= 0 { Arith.MulNonPositive(k, d); }
        }
        ClassOfMultiple(p, k);
      } else if b.capacity == (i + 1) * d {
        Arith.MultipleHasNoRemainder(i + 1, d);
      }
    }
  }

  /** The class of the boundary `k * inc` is class `k - 1`. */
  lemma ClassOfMultiple(p: Pool, k: int)
    requires Valid(p) && k >= 1 && p.min < k * p.inc <= MaxSize(p)
    requires Indexable(p, k * p.inc)
    ensures BucketIndex(p, k * p.inc) == Some(k - 1)
  {
    var d := p.inc;
    var a := k * d - 1;
    JavaInt.DivAgreesOnNonNegative(a, d);
    assert a == (k - 1) * d + (d - 1);
    Arith.DivModUnique(a, d, k - 1, d - 1);
  }

  /** `release` with the missing check: a buffer is pooled only when its
      capacity is exactly the size of the class it maps to; any other buffer
      is dropped like one without a class. */
  function ReleaseExact(p: Pool, buffer: Option<Buffer>): (r: Pool)
    requires Valid(p)
    requires buffer.Some? ==> Indexable(p, buffer.value.capacity)
    ensures Valid(r) && SameLayout(p, r)
    ensures buffer.Some? && Conforming(p, buffer.value) ==> r == Release(p, buffer)
    ensures buffer.None? || !Conforming(p, buffer.value) ==> r == p
    ensures Tidy(p) ==> Tidy(r)
    ensures Exact(p) ==> Exact(r)
  {
    match buffer
    case None => p
    case Some(b) => if Conforming(p, b) then Release(p, buffer) else p
  }

  /** Running `ops` from `p`, every acquire hands out at least the requested
      capacity. `checked` selects `ReleaseExact` over the source's `Release`. */
  predicate NeverUndersized(p: Pool, ops: seq<Op>, checked: bool)
    requires Valid(p) && Safe(p)
    decreases |ops|
  {
    if ops == [] then true
    else match ops[0]
      case AcquireOp(size, direct, freshId) =>
        SafeIsIndexable(p, size);
        var a := Acquire(p, size, direct, freshId);
        a.buffer.capacity >= size && NeverUndersized(a.pool, ops[1..], checked)
      case ReleaseOp(buffer) =>
        SafeIsReleasable(p, buffer);
        var r := if checked then ReleaseExact(p, buffer) else Release(p, buffer);
        NeverUndersized(r, ops[1..], checked)
      case ClearOp =>
        NeverUndersized(Clear(p), ops[1..], checked)
  }

  /** With the capacity check, no trace from a pool of exact buffers ever
      hands out a buffer smaller than requested. */
  lemma {:induction false} ExactReleaseNeverUndersized(p: Pool, ops: seq<Op>)
    requires Valid(p) && Safe(p) && Exact(p)
    ensures NeverUndersized(p, ops, true)
    decreases |ops|
  {
    if ops != [] {
      match ops[0]
      case AcquireOp(size, direct, freshId) =>
        SafeIsIndexable(p, size);
        ExactReleaseNeverUndersized(Acquire(p, size, direct, freshId).pool, ops[1..]);
      case ReleaseOp(buffer) =>
        SafeIsReleasable(p, buffer);
        ExactReleaseNeverUndersized(ReleaseExact(p, buffer), ops[1..]);
      case ClearOp =>
        EmptyIsTidyAndExact(Clear(p));
        ExactReleaseNeverUndersized(Clear(p), ops[1..]);
    }
  }

  /** Every freshly constructed pool, driven by any trace with the checked
      release, hands out buffers at least as large as requested. */
  lemma CreatedPoolNeverUndersized(minSize: int, increment: int, maxSize: int, ops: seq<Op>)
    requires increment > 0 || minSize >= increment
    requires Create(minSize, increment, maxSize).Success?
    requires minSize >= 0 || increment >= 2
    ensures NeverUndersized(Create(minSize, increment, maxSize).value, ops, true)
  {
    var p := Create(minSize, increment, maxSize).value;
    EmptyIsTidyAndExact(p);
    ExactReleaseNeverUndersized(p, ops);
  }

  /** The source's release on the default pool: a 600-byte heap buffer is
      filed in the 1024-byte class, and the next request for 1000 bytes
      receives it. */
  lemma IndexOnlyReleaseUndersized()
    ensures
      var p := CreateDefault().value;
      var b := Buffer(1, 600, false, 0, 0);
      var a := Acquire(Release(p, Some(b)), 1000, false, 2);
      && a.buffer == b
      && a.buffer.capacity < 1000
      && !NeverUndersized(p, [ReleaseOp(Some(b)), AcquireOp(1000, false, 2)], false)
  {
    var p := CreateDefault().value;
    var b := Buffer(1, 600, false, 0, 0);
    assert BucketIndex(p, 600) == Some(0);
    var r := Release(p, Some(b));
    assert Queue(r, false, 0) == [b];
    assert BucketIndex(r, 1000) == Some(0);
    var ops := [ReleaseOp(Some(b)), AcquireOp(1000, false, 2)];
    assert ops[1..] == [AcquireOp(1000, false, 2)];
  }
}

/** Client traces: sequences of `acquire`, `release` and `clear` calls run
    against one pool.

    `release` files every buffer in the array of its own kind (`isDirect()`
    picks the array) and resets it before queueing it, so a pool that starts
    out constructed never hands out a buffer of the wrong kind or one that
    still holds data, whatever buffers the client releases. */
module Traces {
  import opened Wrappers
  import opened Buffers
  import opened BufferPool

  /** One call a client makes on the pool. */
  datatype Op = AcquireOp(size: nat, direct: bool, freshId: nat) | ReleaseOp(buffer: Option<Buffer>) | ClearOp

  /** Running `ops` from `p`, every acquire hands out a reset buffer of the
      requested kind. */
  predicate ServesRequestedKind(p: Pool, ops: seq<Op>)
    requires Valid(p) && Safe(p)
    decreases |ops|
  {
    if ops == [] then true
    else match ops[0]
      case AcquireOp(size, direct, freshId) =>
        SafeIsIndexable(p, size);
        var a := Acquire(p, size, direct, freshId);
        a.buffer.direct == direct && IsReset(a.buffer) && ServesRequestedKind(a.pool, ops[1..])
      case ReleaseOp(buffer) =>
        SafeIsReleasable(p, buffer);
        ServesRequestedKind(Release(p, buffer), ops[1..])
      case ClearOp =>
        ServesRequestedKind(Clear(p), ops[1..])
  }

  /** From a tidy pool, every trace of the source's operations serves the
      requested kind, reset. */
  lemma {:induction false} TidyPoolServesRequestedKind(p: Pool, ops: seq<Op>)
    requires Valid(p) && Safe(p) && Tidy(p)
    ensures ServesRequestedKind(p, ops)
    decreases |ops|
  {
    if ops != [] {
      match ops[0]
      case AcquireOp(size, direct, freshId) =>
        SafeIsIndexable(p, size);
        TidyPoolServesRequestedKind(Acquire(p, size, direct, freshId).pool, ops[1..]);
      case ReleaseOp(buffer) =>
        SafeIsReleasable(p, buffer);
        TidyPoolServesRequestedKind(Release(p, buffer), ops[1..]);
      case ClearOp =>
        EmptyIsTidyAndExact(Clear(p));
        TidyPoolServesRequestedKind(Clear(p), ops[1..]);
    }
  }

  /** Every constructed pool whose lookups cannot go negative serves the
      requested kind on every trace. */
  lemma CreatedPoolServesRequestedKind(minSize: int, increment: int, maxSize: int, ops: seq<Op>)
    requires increment > 0 || minSize >= increment
    requires Create(minSize, increment, maxSize).Success?
    requires minSize >= 0 || increment >= 2
    ensures ServesRequestedKind(Create(minSize, increment, maxSize).value, ops)
  {
    var p := Create(minSize, increment, maxSize).value;
    EmptyIsTidyAndExact(p);
    TidyPoolServesRequestedKind(p, ops);
  }
}

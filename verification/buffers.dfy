/** The pool's view of a `java.nio.ByteBuffer`.

    The pool never reads or writes buffer content: it looks at the capacity
    and the kind (direct or heap), and it resets the position and limit
    markers before pooling a buffer. Everything else about a buffer is
    abstracted into an identity `id`. */
module Buffers {

  datatype Buffer = Buffer(id: nat, capacity: nat, direct: bool, position: nat, limit: nat)

  /** The empty state a reset leaves behind: nothing to read, nothing written. */
  predicate IsReset(b: Buffer)
  {
    b.position == 0 && b.limit == 0
  }

  /** The abstract effect of the foreign `BufferUtil.clear`: the markers are
      cleared while the identity, capacity and kind of the buffer stay. */
  function Reset(b: Buffer): (r: Buffer)
    ensures IsReset(r)
    ensures r.id == b.id && r.capacity == b.capacity && r.direct == b.direct
    ensures IsReset(b) ==> r == b
  {
    b.(position := 0, limit := 0)
  }

  /** The abstract effect of the foreign `BufferUtil.allocate` and
      `BufferUtil.allocateDirect`: a new buffer, in the empty state, of exactly
      the given capacity and kind. Freshness is supplied by the caller as `id`. */
  function Allocate(id: nat, capacity: nat, direct: bool): (r: Buffer)
    ensures r.id == id && r.capacity == capacity && r.direct == direct
    ensures IsReset(r)
  {
    Buffer(id, capacity, direct, 0, 0)
  }
}

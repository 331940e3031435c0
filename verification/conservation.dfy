/** Buffer conservation: the pool neither loses nor duplicates buffers.

    `Pooled` is the multiset of every buffer waiting in any bucket of either
    kind. `Acquire` moves at most one buffer out of it, `Release` moves at
    most one (reset) buffer in, and `Clear` empties it. */
module Conservation {
  import opened Wrappers
  import opened Buffers
  import opened BufferPool

  /** Every buffer queued in `bs`, counted with multiplicity. */
  function Contents(bs: seq<Bucket>): multiset<Buffer>
  {
    if bs == [] then multiset{} else Contents(bs[..|bs| - 1]) + multiset(bs[|bs| - 1].queue)
  }

  function Pooled(p: Pool): multiset<Buffer>
  {
    Contents(p.direct) + Contents(p.indirect)
  }

  /** Replacing the queue of bucket `i` swaps exactly that queue's buffers. */
  lemma {:induction false} ContentsUpdate(bs: seq<Bucket>, i: int, q: seq<Buffer>)
    requires 0 <= i < |bs|
    ensures Contents(bs[i := bs[i].(queue := q)]) + multiset(bs[i].queue) == Contents(bs) + multiset(q)
    decreases |bs|
  {
    var bs' := bs[i := bs[i].(queue := q)];
    var n := |bs| - 1;
    var front, front' := bs[..n], bs'[..n];
    assert Contents(bs) == Contents(front) + multiset(bs[n].queue);
    assert Contents(bs') == Contents(front') + multiset(bs'[n].queue);
    if i == n {
      assert front' == front;
      BalanceLeft(Contents(front), multiset(q), multiset(bs[i].queue), multiset(bs[i].queue), multiset(q));
    } else {
      assert front' == front[i := front[i].(queue := q)];
      assert bs'[n] == bs[n] && front[i] == bs[i];
      ContentsUpdate(front, i, q);
      BalanceRight(multiset(bs[n].queue), Contents(front'), Contents(front), multiset(bs[i].queue), multiset(q));
    }
  }

  /** A bucket array whose queues are all empty holds nothing. */
  lemma {:induction false} ContentsOfEmpty(bs: seq<Bucket>)
    requires forall i :: 0 <= i < |bs| ==> bs[i].queue == []
    ensures Contents(bs) == multiset{}
    decreases |bs|
  {
    if bs != [] {
      ContentsOfEmpty(bs[..|bs| - 1]);
    }
  }

  /** Adding the same multiset on the left keeps a balance. */
  lemma BalanceLeft<T>(a: multiset<T>, b: multiset<T>, c: multiset<T>, x: multiset<T>, y: multiset<T>)
    requires b + x == c + y
    ensures (a + b) + x == (a + c) + y
  {
    assert (a + b) + x == a + (b + x);
  }

  /** Adding the same multiset on the right keeps a balance. */
  lemma BalanceRight<T>(a: multiset<T>, b: multiset<T>, c: multiset<T>, x: multiset<T>, y: multiset<T>)
    requires b + x == c + y
    ensures (b + a) + x == (c + a) + y
  {
    assert (b + a) + x == (b + x) + a;
    assert (c + a) + y == (c + y) + a;
  }

  /** Replacing one queue of one kind only changes that kind's contents. */
  lemma PooledWithQueue(p: Pool, direct: bool, i: int, q: seq<Buffer>)
    requires 0 <= i < |BucketsFor(p, direct)|
    ensures Pooled(WithQueue(p, direct, i, q)) + multiset(Queue(p, direct, i)) == Pooled(p) + multiset(q)
  {
    var r := WithQueue(p, direct, i, q);
    if direct {
      assert r.direct == p.direct[i := p.direct[i].(queue := q)] && r.indirect == p.indirect;
      ContentsUpdate(p.direct, i, q);
      BalanceRight(Contents(p.indirect), Contents(r.direct), Contents(p.direct), multiset(p.direct[i].queue), multiset(q));
    } else {
      assert r.indirect == p.indirect[i := p.indirect[i].(queue := q)] && r.direct == p.direct;
      ContentsUpdate(p.indirect, i, q);
      BalanceLeft(Contents(p.direct), Contents(r.indirect), Contents(p.indirect), multiset(p.indirect[i].queue), multiset(q));
    }
  }

  /** A common summand cancels. */
  lemma Cancel<T>(a: multiset<T>, b: multiset<T>, t: multiset<T>)
    requires a + t == b + t
    ensures a == b
  {
    assert forall x :: a[x] == (a + t)[x] - t[x];
  }

  /** A pooled buffer taken by `Acquire` leaves the pool; any other outcome
      leaves the pool's contents as they were. */
  lemma AcquireConserves(p: Pool, size: nat, direct: bool, freshId: nat)
    requires Valid(p) && Indexable(p, size)
    ensures Reusable(p, size, direct) ==>
      Pooled(p) == Pooled(Acquire(p, size, direct, freshId).pool) + multiset{Acquire(p, size, direct, freshId).buffer}
    ensures !Reusable(p, size, direct) ==> Pooled(Acquire(p, size, direct, freshId).pool) == Pooled(p)
  {
    var r := Acquire(p, size, direct, freshId);
    if Reusable(p, size, direct) {
      var i := BucketIndex(p, size).value;
      var q := Queue(p, direct, i);
      assert r == Poll(p, direct, i);
      assert r.pool == WithQueue(p, direct, i, q[1..]) && r.buffer == q[0];
      PooledWithQueue(p, direct, i, q[1..]);
      assert q == [q[0]] + q[1..];
      assert multiset(q) == multiset{q[0]} + multiset(q[1..]);
      assert (Pooled(r.pool) + multiset{q[0]}) + multiset(q[1..]) == Pooled(p) + multiset(q[1..]);
      Cancel(Pooled(r.pool) + multiset{q[0]}, Pooled(p), multiset(q[1..]));
    }
  }

  /** A released buffer that has a size class enters the pool reset; any
      other released buffer, and `null`, leave the contents as they were. */
  lemma ReleaseConserves(p: Pool, b: Buffer)
    requires Valid(p) && Indexable(p, b.capacity)
    ensures p.min < b.capacity <= MaxSize(p) ==> Pooled(Release(p, Some(b))) == Pooled(p) + multiset{Reset(b)}
    ensures b.capacity <= p.min || b.capacity > MaxSize(p) ==> Pooled(Release(p, Some(b))) == Pooled(p)
    ensures Pooled(Release(p, None)) == Pooled(p)
  {
    if p.min < b.capacity <= MaxSize(p) {
      var i := BucketIndex(p, b.capacity).value;
      var q := Queue(p, b.direct, i);
      var q' := q + [Reset(b)];
      var r := Release(p, Some(b));
      assert r == WithQueue(p, b.direct, i, q');
      PooledWithQueue(p, b.direct, i, q');
      assert multiset(q') == multiset(q) + multiset{Reset(b)};
      assert Pooled(r) + multiset(q) == (Pooled(p) + multiset{Reset(b)}) + multiset(q);
      Cancel(Pooled(r), Pooled(p) + multiset{Reset(b)}, multiset(q));
    }
  }

  /** After `Clear` nothing is pooled. */
  lemma ClearEmptiesPool(p: Pool)
    ensures Pooled(Clear(p)) == multiset{}
  {
    var r := Clear(p);
    assert forall i :: 0 <= i < |r.direct| ==> Queue(r, true, i) == [];
    assert forall i :: 0 <= i < |r.indirect| ==> Queue(r, false, i) == [];
    ContentsOfEmpty(r.direct);
    ContentsOfEmpty(r.indirect);
  }
}

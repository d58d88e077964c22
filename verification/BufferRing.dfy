/** The buffers of the block cache on their doubly linked ring, most recently used first.
    A buffer is its index; HEAD stands for bcache.head. */
module BufferRing {
  import opened Options

  const NBUF: nat := 30
  const HEAD: nat := NBUF

  datatype Buf = Buf(dev: nat, blockno: nat, refcnt: nat, valid: bool, dirty: bool)

  // ----- The ring -----

  function Node(order: seq<nat>, i: nat): nat
    requires i <= |order|
  {
    if i == 0 then HEAD else order[i - 1]
  }

  function Succ(order: seq<nat>, i: nat): (k: nat)
    requires i <= |order|
    ensures k <= |order|
  {
    if i == |order| then 0 else i + 1
  }

  predicate Distinct(order: seq<nat>) {
    && (forall i :: 0 <= i < |order| ==> order[i] < NBUF)
    && forall i, j :: 0 <= i < j < |order| ==> order[i] != order[j]
  }

  /** next of the i-th node is the following one, whose prev is the i-th. */
  predicate LinkedAt(order: seq<nat>, next: seq<nat>, prev: seq<nat>, i: nat)
    requires i <= |order| && Distinct(order) && |next| == |prev| == NBUF + 1
  {
    next[Node(order, i)] == Node(order, Succ(order, i)) && prev[Node(order, Succ(order, i))] == Node(order, i)
  }

  /** The ring visits head and then the buffers of `order`, each once; prev is the inverse
      of next. */
  ghost predicate Ring(order: seq<nat>, next: seq<nat>, prev: seq<nat>) {
    && Distinct(order) && |next| == |prev| == NBUF + 1
    && forall i: nat :: i <= |order| ==> LinkedAt(order, next, prev, i)
  }

  lemma PushLinked(order: seq<nat>, next: seq<nat>, prev: seq<nat>, b: nat)
    requires Ring(order, next, prev) && b < NBUF && b !in order
    ensures next[HEAD] <= NBUF
    ensures Ring([b] + order, next[b := next[HEAD]][HEAD := b], prev[b := HEAD][next[HEAD] := b])
  {
    assert LinkedAt(order, next, prev, 0);
    var order', next', prev' := [b] + order, next[b := next[HEAD]][HEAD := b], prev[b := HEAD][next[HEAD] := b];
    forall i: nat | i <= |order'| ensures LinkedAt(order', next', prev', i) {
      if i > 0 {
        assert LinkedAt(order, next, prev, i - 1);
      }
    }
  }

  function Without(order: seq<nat>, k: nat): seq<nat>
    requires k < |order|
  {
    order[..k] + order[k + 1..]
  }

  lemma UnlinkLinked(order: seq<nat>, next: seq<nat>, prev: seq<nat>, k: nat)
    requires Ring(order, next, prev) && k < |order|
    ensures next[order[k]] <= NBUF && prev[order[k]] <= NBUF
    ensures var b := order[k];
      b !in Without(order, k) && Ring(Without(order, k), next[prev[b] := next[b]], prev[next[b] := prev[b]])
  {
    var b, order' := order[k], Without(order, k);
    assert LinkedAt(order, next, prev, k) && LinkedAt(order, next, prev, k + 1);
    var next', prev' := next[prev[b] := next[b]], prev[next[b] := prev[b]];
    forall i: nat | i <= |order'| ensures LinkedAt(order', next', prev', i) {
      if i < k {
        assert LinkedAt(order, next, prev, i);
      } else if i > k {
        assert LinkedAt(order, next, prev, i + 1);
      }
    }
  }

  // ----- What bget and brelse do -----

  predicate Keyed(b: Buf, dev: nat, blockno: nat) {
    b.dev == dev && b.blockno == blockno
  }

  predicate Unused(b: Buf) {
    b.refcnt == 0 && !b.dirty
  }

  /** Every buffer is on the ring, once. */
  predicate Full(order: seq<nat>) {
    |order| == NBUF && Distinct(order) && forall b: nat :: b < NBUF ==> b in order
  }

  predicate Good(bufs: seq<Buf>, order: seq<nat>) {
    |bufs| == NBUF && Full(order)
  }

  function ToFront(order: seq<nat>, k: nat): seq<nat>
    requires k < |order|
  {
    [order[k]] + Without(order, k)
  }

  lemma ToFrontFull(order: seq<nat>, k: nat)
    requires Full(order) && k < NBUF
    ensures Full(ToFront(order, k))
  {
    forall b: nat | b < NBUF ensures b in ToFront(order, k) {
      assert b in order;
      var i :| 0 <= i < NBUF && order[i] == b;
      assert ToFront(order, k)[if i == k then 0 else if i < k then i + 1 else i] == b;
    }
  }

  /** The position of the most recently used buffer of the block. */
  ghost predicate HitAt(bufs: seq<Buf>, order: seq<nat>, dev: nat, blockno: nat, k: nat)
    requires Good(bufs, order)
  {
    k < |order| && Keyed(bufs[order[k]], dev, blockno) && forall i :: 0 <= i < k ==> !Keyed(bufs[order[i]], dev, blockno)
  }

  ghost predicate NoHit(bufs: seq<Buf>, order: seq<nat>, dev: nat, blockno: nat)
    requires Good(bufs, order)
  {
    forall i :: 0 <= i < |order| ==> !Keyed(bufs[order[i]], dev, blockno)
  }

  /** The position of the least recently used buffer that is unused. */
  ghost predicate VictimAt(bufs: seq<Buf>, order: seq<nat>, k: nat)
    requires Good(bufs, order)
  {
    k < |order| && Unused(bufs[order[k]]) && forall i :: k < i < |order| ==> !Unused(bufs[order[i]])
  }

  /** bget up to acquiresleep: the buffer chosen and the buffers after it; None is the panic. */
  ghost predicate Got(bufs: seq<Buf>, order: seq<nat>, dev: nat, blockno: nat, r: Option<nat>, bufs': seq<Buf>)
    requires Good(bufs, order)
  {
    if !NoHit(bufs, order, dev, blockno) then
      r.Some? && (exists k: nat :: HitAt(bufs, order, dev, blockno, k) && r.value == order[k])
      && r.value < |bufs| && bufs' == bufs[r.value := bufs[r.value].(refcnt := bufs[r.value].refcnt + 1)]
    else if exists k: nat :: VictimAt(bufs, order, k) then
      r.Some? && (exists k: nat :: VictimAt(bufs, order, k) && r.value == order[k])
      && r.value < |bufs| && bufs' == bufs[r.value := Buf(dev, blockno, 1, false, false)]
    else r.None? && bufs' == bufs
  }

  lemma Position(order: seq<nat>, b: nat) returns (i: nat)
    requires Full(order) && b < NBUF
    ensures i < NBUF && order[i] == b
  {
    assert b in order;
    i :| i < NBUF && order[i] == b;
  }

  /** A buffer of the block is taken if there is one, whether in use or not; else one that
      is neither in use nor dirty is given to the block; the panic is when all are. */
  lemma GotIs(bufs: seq<Buf>, order: seq<nat>, dev: nat, blockno: nat, r: Option<nat>, bufs': seq<Buf>)
    requires Good(bufs, order) && Got(bufs, order, dev, blockno, r, bufs')
    ensures var cached, free := exists b: nat :: b < 30 && bufs[b].dev == dev && bufs[b].blockno == blockno,
                                exists b: nat :: b < 30 && bufs[b].refcnt == 0 && !bufs[b].dirty;
      && (r.None? <==> !cached && !free)
      && (r.None? ==> bufs' == bufs)
      && (r.Some? ==> r.value < 30 && bufs' == bufs[r.value := bufs'[r.value]])
      && (r.Some? && cached ==>
            bufs[r.value].dev == dev && bufs[r.value].blockno == blockno
            && bufs'[r.value] == bufs[r.value].(refcnt := bufs[r.value].refcnt + 1))
      && (r.Some? && !cached ==>
            bufs[r.value].refcnt == 0 && !bufs[r.value].dirty && bufs'[r.value] == Buf(dev, blockno, 1, false, false))
  {
    if b: nat :| b < 30 && bufs[b].dev == dev && bufs[b].blockno == blockno {
      var i := Position(order, b);
      assert Keyed(bufs[order[i]], dev, blockno);
    }
    if b: nat :| b < 30 && bufs[b].refcnt == 0 && !bufs[b].dirty {
      var k := LastUnused(bufs, order, b);
    }
  }

  /** If some buffer is unused there is a last one. */
  lemma LastUnused(bufs: seq<Buf>, order: seq<nat>, b: nat) returns (k: nat)
    requires Good(bufs, order) && b < NBUF && Unused(bufs[b])
    ensures VictimAt(bufs, order, k)
  {
    var j := Position(order, b);
    k := NBUF - 1;
    while !Unused(bufs[order[k]])
      invariant j <= k < NBUF == |order| && forall i :: k < i < NBUF ==> !Unused(bufs[order[i]])
      decreases k
    {
      k := k - 1;
    }
  }

  function FirstOrder(): seq<nat> {
    seq(NBUF, i requires 0 <= i < NBUF => NBUF - 1 - i)
  }

  lemma FirstOrderFull()
    ensures Full(FirstOrder())
  {
    forall b: nat | b < NBUF ensures b in FirstOrder() {
      assert FirstOrder()[NBUF - 1 - b] == b;
    }
  }

  class Bcache {
    const buf: array<Buf>
    const next: array<nat>
    const prev: array<nat>
    ghost var order: seq<nat>

    ghost predicate Valid()
      reads this, buf, next, prev
    {
      && buf.Length == NBUF && next.Length == prev.Length == NBUF + 1 && next != prev
      && Ring(order, next[..], prev[..])
    }

    /** binit: the later buffers end up nearer to head. */
    constructor ()
      ensures Valid() && fresh(buf) && fresh(next) && fresh(prev)
      ensures order == FirstOrder() && Full(order)
      ensures forall i :: 0 <= i < NBUF ==> buf[i] == Buf(0, 0, 0, false, false)
    {
      buf := new Buf[NBUF](_ => Buf(0, 0, 0, false, false));
      next := new nat[NBUF + 1](_ => HEAD);
      prev := new nat[NBUF + 1](_ => HEAD);
      order := [];
      new;
      for b := 0 to NBUF
        invariant Valid() && |order| == b && forall i :: 0 <= i < b ==> order[i] == b - 1 - i
        invariant forall i :: 0 <= i < NBUF ==> buf[i] == Buf(0, 0, 0, false, false)
      {
        PushFront(b);
      }
      assert order == FirstOrder();
      FirstOrderFull();
    }

    /** Insert b after head. */
    method PushFront(b: nat)
      requires Valid() && b < NBUF && b !in order
      modifies this`order, next, prev
      ensures Valid() && order == [b] + old(order)
    {
      PushLinked(order, next[..], prev[..], b);
      next[b] := next[HEAD];
      prev[b] := HEAD;
      prev[next[HEAD]] := b;
      next[HEAD] := b;
      order := [b] + order;
    }

    /** Take b off the ring. */
    method Unlink(b: nat, ghost k: nat)
      requires Valid() && k < |order| && b == order[k]
      modifies this`order, next, prev
      ensures Valid() && order == Without(old(order), k) && b !in order
    {
      UnlinkLinked(order, next[..], prev[..], k);
      prev[next[b]] := prev[b];
      next[prev[b]] := next[b];
      order := Without(order, k);
    }

    /** bget, up to acquiresleep. None is the panic. */
    method Bget(dev: nat, blockno: nat) returns (r: Option<nat>)
      requires Valid() && Full(order)
      modifies buf
      ensures Valid() && Got(old(buf[..]), order, dev, blockno, r, buf[..])
    {
      ghost var k: nat := 1;
      assert LinkedAt(order, next[..], prev[..], 0);
      var b := next[HEAD];
      while b != HEAD
        invariant 0 < k <= NBUF + 1 && b == Node(order, if k <= NBUF then k else 0)
        invariant forall i :: 0 <= i < k - 1 ==> !Keyed(buf[order[i]], dev, blockno)
        invariant Valid() && buf[..] == old(buf[..])
        decreases NBUF + 1 - k
      {
        if buf[b].dev == dev && buf[b].blockno == blockno {
          assert HitAt(buf[..], order, dev, blockno, k - 1);
          buf[b] := buf[b].(refcnt := buf[b].refcnt + 1);
          return Some(b);
        }
        assert LinkedAt(order, next[..], prev[..], k);
        b := next[b];
        k := k + 1;
      }
      r := Recycle(dev, blockno);
    }

    /** The second scan of bget. */
    method Recycle(dev: nat, blockno: nat) returns (r: Option<nat>)
      requires Valid() && Full(order) && NoHit(buf[..], order, dev, blockno)
      modifies buf
      ensures Valid() && Got(old(buf[..]), order, dev, blockno, r, buf[..])
    {
      ghost var k: nat := NBUF;
      assert LinkedAt(order, next[..], prev[..], NBUF);
      var b := prev[HEAD];
      while b != HEAD
        invariant k <= NBUF && b == Node(order, k)
        invariant forall i :: k <= i < NBUF ==> !Unused(buf[order[i]])
        invariant Valid() && buf[..] == old(buf[..])
        decreases k
      {
        if buf[b].refcnt == 0 && !buf[b].dirty {
          assert VictimAt(buf[..], order, k - 1);
          buf[b] := Buf(dev, blockno, 1, false, false);
          return Some(b);
        }
        assert LinkedAt(order, next[..], prev[..], k - 1);
        b := prev[b];
        k := k - 1;
      }
      return None;
    }

    /** brelse, after releasesleep. */
    method Brelse(b: nat, ghost k: nat)
      requires Valid() && Full(order) && k < NBUF && b == order[k] && buf[b].refcnt > 0
      modifies this`order, buf, next, prev
      ensures Valid()
      ensures buf[..] == old(buf[..])[b := old(buf[b]).(refcnt := old(buf[b].refcnt) - 1)]
      ensures order == if old(buf[b].refcnt) == 1 then ToFront(old(order), k) else old(order)
      ensures Full(order)
    {
      ToFrontFull(order, k);
      buf[b] := buf[b].(refcnt := buf[b].refcnt - 1);
      if buf[b].refcnt == 0 {
        Unlink(b, k);
        PushFront(b);
      }
    }
  }
}

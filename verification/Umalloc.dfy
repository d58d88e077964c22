/** The user memory allocator: a circular list threaded through the headers of the free
    blocks. Each operation does to the memory what FreeList says. */
module Umalloc {
  import opened FreeList
  import opened Options

  const NULL: int := 0

  // ----- The list in memory -----

  ghost predicate LinkAt(free: seq<Block>, ptr: map<int, int>, i: nat)
    requires i < |free|
  {
    free[i].at in ptr && ptr[free[i].at] == free[Next(i, |free|)].at
  }

  /** Each free block's header points to the next block, the last one's to the first. */
  ghost predicate Chained(free: seq<Block>, ptr: map<int, int>) {
    forall i: nat :: i < |free| ==> LinkAt(free, ptr, i)
  }

  ghost predicate SizeAt(free: seq<Block>, size: map<int, nat>, i: nat)
    requires i < |free|
  {
    free[i].at in size && size[free[i].at] == free[i].size
  }

  ghost predicate Sized(free: seq<Block>, size: map<int, nat>) {
    forall i: nat :: i < |free| ==> SizeAt(free, size, i)
  }

  lemma SameMap<T>(m: map<int, T>, k: int)
    requires k in m
    ensures m[k := m[k]] == m
  {
  }

  lemma Distinct(free: seq<Block>, i: nat, j: nat)
    requires Ordered(free) && i < |free| && j < |free|
    ensures free[i].at == free[j].at <==> i == j
  {
  }

  lemma LinkKept(free: seq<Block>, f: seq<Block>, k: nat, ptr: map<int, int>, ptr': map<int, int>)
    requires Kept(free, f, k) && Kept(free, f, k + 1) && LinkAt(free, ptr, k)
    requires free[k].at in ptr' && ptr'[free[k].at] == ptr[free[k].at]
    ensures LinkAt(f, ptr', k)
  {
  }

  lemma LinkMoved(free: seq<Block>, f: seq<Block>, m: nat, r: nat, k: nat, ptr: map<int, int>, ptr': map<int, int>)
    requires Moved(free, f, m, r, k) && LinkAt(free, ptr, k) && Kept(free, f, 0)
    requires if k + 1 < |free| then Moved(free, f, m, r, k + 1) else |f| == m + 1 + |free| - r
    requires free[k].at in ptr' && ptr'[free[k].at] == ptr[free[k].at]
    ensures LinkAt(f, ptr', k - r + m + 1)
  {
  }

  lemma LinkMerged(free: seq<Block>, f: seq<Block>, m: nat, r: nat, mid: Block, ptr': map<int, int>)
    requires Replaced(free, m, r, mid, f) && m > 0
    requires mid.at in ptr' && ptr'[mid.at] == if r < |free| then free[r].at else free[0].at
    ensures LinkAt(f, ptr', m)
  {
    assert Kept(free, f, 0);
    assert r < |free| ==> Moved(free, f, m, r, r);
  }

  lemma LinkToMerged(free: seq<Block>, f: seq<Block>, m: nat, mid: Block, ptr': map<int, int>)
    requires 0 < m < |f| && f[m] == mid && Kept(free, f, m - 1)
    requires free[m - 1].at in ptr' && ptr'[free[m - 1].at] == mid.at
    ensures LinkAt(f, ptr', m - 1)
  {
  }

  lemma Unaffected<T>(free: seq<Block>, j: nat, b: Block, m: map<int, T>, v: T, w: T, k: nat)
    requires Ordered(free) && Clear(free, b) && j < |free| && k < |free| && k != j && free[k].at in m
    ensures var m' := m[b.at := v][free[j].at := w]; free[k].at in m' && m'[free[k].at] == m[free[k].at]
  {
    Distinct(free, k, j);
    assert Apart(b, free[k]);
    assert k > 0 ==> free[k].size > 0;
  }

  /** Where the joined block's successor is found. */
  lemma Successor(free: seq<Block>, j: nat, b: Block, ptr: map<int, int>)
    requires j < |free| && Chained(free, ptr)
    ensures free[j].at in ptr && (JoinsRight(free, j, b) ==> ptr[free[j].at] in ptr)
    ensures var r := To(free, j, b);
      (if JoinsRight(free, j, b) then ptr[ptr[free[j].at]] else ptr[free[j].at]) ==
      if r < |free| then free[r].at else free[0].at
  {
    assert LinkAt(free, ptr, j);
    assert j + 1 < |free| ==> LinkAt(free, ptr, j + 1);
  }

  /** Linking b in after block j: what the last two ifs of free do to the links. */
  lemma ChainedAfter(free: seq<Block>, j: nat, b: Block, ptr: map<int, int>, next: int, w: int)
    requires Ordered(free) && Clear(free, b) && j == Place(free, b.at) && Chained(free, ptr)
    requires var r := To(free, j, b); next == if r < |free| then free[r].at else free[0].at
    requires w == if JoinsLeft(free, j, b) then next else b.at
    ensures Chained(Insert(free, j, b), ptr[b.at := next][free[j].at := w])
  {
    var f := Insert(free, j, b);
    InsertReplaces(free, j, b);
    ReplacedChained(free, j, b, f, From(free, j, b), To(free, j, b), Merged(free, j, b), ptr, next, w);
  }

  lemma ReplacedChained(free: seq<Block>, j: nat, b: Block, f: seq<Block>, m: nat, r: nat, mid: Block,
                        ptr: map<int, int>, next: int, w: int)
    requires Ordered(free) && Clear(free, b) && j < |free| && Chained(free, ptr)
    requires Replaced(free, m, r, mid, f) && 0 < m <= j + 1 <= r && j <= m
    requires next == if r < |free| then free[r].at else free[0].at
    requires if m == j then mid.at == free[j].at && w == next else mid.at == b.at == w
    ensures Chained(f, ptr[b.at := next][free[j].at := w])
  {
    var ptr' := ptr[b.at := next][free[j].at := w];
    assert Kept(free, f, 0);
    forall k: nat | k < |f| ensures LinkAt(f, ptr', k) {
      if k + 1 < m {
        assert Kept(free, f, k) && Kept(free, f, k + 1) && LinkAt(free, ptr, k);
        Unaffected(free, j, b, ptr, next, w, k);
        LinkKept(free, f, k, ptr, ptr');
      } else if k + 1 == m {
        assert Kept(free, f, k) && LinkAt(free, ptr, k);
        if k != j {
          Unaffected(free, j, b, ptr, next, w, k);
        }
        LinkToMerged(free, f, m, mid, ptr');
      } else if k == m {
        LinkMerged(free, f, m, r, mid, ptr');
      } else {
        var k' := k - m - 1 + r;
        assert Moved(free, f, m, r, k') && LinkAt(free, ptr, k');
        assert k' + 1 < |free| ==> Moved(free, f, m, r, k' + 1);
        Unaffected(free, j, b, ptr, next, w, k');
        LinkMoved(free, f, m, r, k', ptr, ptr');
      }
    }
  }

  lemma SizedAfter(free: seq<Block>, j: nat, b: Block, size: map<int, nat>, units: nat, w: nat)
    requires Ordered(free) && Clear(free, b) && j == Place(free, b.at) && Sized(free, size)
    requires units == b.size + if JoinsRight(free, j, b) then free[j + 1].size else 0
    requires w == if JoinsLeft(free, j, b) then free[j].size + units else free[j].size
    ensures Sized(Insert(free, j, b), size[b.at := units][free[j].at := w])
  {
    var f := Insert(free, j, b);
    InsertReplaces(free, j, b);
    ReplacedSized(free, j, b, f, From(free, j, b), To(free, j, b), Merged(free, j, b), size, units, w);
  }

  lemma ReplacedSized(free: seq<Block>, j: nat, b: Block, f: seq<Block>, m: nat, r: nat, mid: Block,
                      size: map<int, nat>, units: nat, w: nat)
    requires Ordered(free) && Clear(free, b) && j < |free| && Sized(free, size)
    requires Replaced(free, m, r, mid, f) && 0 < m <= j + 1 <= r && j <= m
    requires if m == j then mid == Block(free[j].at, w) else mid == Block(b.at, units) && w == free[j].size
    ensures Sized(f, size[b.at := units][free[j].at := w])
  {
    var size' := size[b.at := units][free[j].at := w];
    forall k: nat | k < |f| ensures SizeAt(f, size', k) {
      if k < m {
        assert Kept(free, f, k) && SizeAt(free, size, k);
        if k != j {
          Unaffected(free, j, b, size, units, w, k);
        }
      } else if k > m {
        var k' := k - m - 1 + r;
        assert Moved(free, f, m, r, k') && SizeAt(free, size, k');
        Unaffected(free, j, b, size, units, w, k');
      }
    }
  }

  // ----- Malloc: the free list loses a block, or its tail -----

  lemma ChainedWithout(free: seq<Block>, i: nat, units: nat, ptr: map<int, int>)
    requires Ordered(free) && 0 < i < |free| && Chained(free, ptr) && free[i].size == units
    requires free[i - 1].at in ptr && free[i].at in ptr
    ensures Chained(Shrunk(free, i, units), ptr[free[i - 1].at := ptr[free[i].at]])
  {
    var f, ptr' := Shrunk(free, i, units), ptr[free[i - 1].at := ptr[free[i].at]];
    forall k: nat | k < |f| ensures LinkAt(f, ptr', k) {
      if k < i - 1 {
        assert f[k] == free[k] && f[k + 1] == free[k + 1];
        assert LinkAt(free, ptr, k);
        Distinct(free, k, i - 1);
      } else if k == i - 1 {
        assert LinkAt(free, ptr, i);
      } else {
        assert f[k] == free[k + 1] && (k + 1 < |f| ==> f[k + 1] == free[k + 2]);
        assert LinkAt(free, ptr, k + 1);
        Distinct(free, k + 1, i - 1);
      }
    }
  }

  lemma ChainedShrunk(free: seq<Block>, i: nat, units: nat, ptr: map<int, int>)
    requires i < |free| && Chained(free, ptr) && free[i].size > units
    ensures Chained(Shrunk(free, i, units), ptr)
  {
    var f := Shrunk(free, i, units);
    forall k: nat | k < |f| ensures LinkAt(f, ptr, k) {
      assert LinkAt(free, ptr, k);
    }
  }

  lemma SizedWithout(free: seq<Block>, i: nat, units: nat, size: map<int, nat>)
    requires i < |free| && Sized(free, size) && free[i].size == units
    ensures Sized(Shrunk(free, i, units), size)
  {
    var f := Shrunk(free, i, units);
    forall k: nat | k < |f| ensures SizeAt(f, size, k) {
      assert SizeAt(free, size, if k < i then k else k + 1);
    }
  }

  lemma SizedShrunk(free: seq<Block>, i: nat, units: nat, size: map<int, nat>)
    requires Ordered(free) && 0 < i < |free| && Sized(free, size) && free[i].size > units > 0
    ensures var rest := free[i].size - units;
      Sized(Shrunk(free, i, units), size[free[i].at := rest][free[i].at + rest := units])
  {
    var f, rest := Shrunk(free, i, units), free[i].size - units;
    var size' := size[free[i].at := rest][free[i].at + rest := units];
    forall k: nat | k < |f| ensures SizeAt(f, size', k) {
      if k != i {
        assert SizeAt(free, size, k);
        if k < i {
          assert free[k].at + free[k].size < free[i].at;
        } else {
          assert free[i].at + free[i].size < free[k].at;
        }
      }
    }
  }

  lemma JoinedIndex(free: seq<Block>, j: nat, b: Block)
    requires Ordered(free) && Clear(free, b) && j == Place(free, b.at)
    ensures if JoinsLeft(free, j, b) then Insert(free, j, b)[j].at == free[j].at else Insert(free, j, b)[j] == free[j]
  {
    InsertReplaces(free, j, b);
    assert JoinsLeft(free, j, b) || Kept(free, Insert(free, j, b), j);
  }

  /** Both tests of the search loop say that i is the place. */
  lemma Here(free: seq<Block>, bp: int, i: nat)
    requires Ordered(free) && BASE < bp && i < |free|
    requires free[i].at < bp < free[Next(i, |free|)].at
    ensures i == Place(free, bp)
  {
    PlaceUnique(free, bp, i);
  }

  lemma Wrapped(free: seq<Block>, bp: int, i: nat)
    requires Ordered(free) && BASE < bp && i < |free|
    requires free[i].at >= free[Next(i, |free|)].at
    requires bp > free[i].at || bp < free[Next(i, |free|)].at
    ensures i == Place(free, bp)
  {
    assert Next(i, |free|) == 0;
    PlaceUnique(free, bp, i);
  }

  lemma NotHere(free: seq<Block>, b: Block, i: nat, j: nat)
    requires Ordered(free) && Clear(free, b) && i < |free| && j == Place(free, b.at)
    requires !(b.at > free[i].at && b.at < free[Next(i, |free|)].at)
    requires !(free[i].at >= free[Next(i, |free|)].at && b.at > free[i].at)
    ensures i != j
  {
    NotBelow(free, j, b);
  }

  /** What malloc's loop is entered with. */
  ghost predicate Searchable(h0: Heap, nunits: nat, more: Option<int>) {
    && Inv(h0) && h0.free != [] && nunits > 0
    && (more.Some? ==> Above(h0, Block(more.value, Growth(nunits))))
  }

  /** The heap malloc searches: h0, or h0 after sbrk gave more space for want of a fit. */
  ghost predicate SearchedFor(h0: Heap, nunits: nat, more: Option<int>, h: Heap, grown: bool)
    requires Searchable(h0, nunits, more)
  {
    if !grown then h == h0
    else
      && more.Some? && Search(h0.free, Next(h0.at, |h0.free|), h0.at, nunits).None?
      && SbrkArgument(Growth(nunits)) > 0 && h == Grown(h0, Block(more.value, Growth(nunits)))
  }

  ghost function FirstFit(h: Heap, nunits: nat): Option<nat>
    requires h.at < |h.free|
  {
    Search(h.free, Next(h.at, |h.free|), h.at, nunits)
  }

  lemma SearchedFits(h0: Heap, nunits: nat, more: Option<int>, h: Heap, grown: bool)
    requires Searchable(h0, nunits, more) && SearchedFor(h0, nunits, more, h, grown)
    ensures Inv(h) && h.free != [] && (grown ==> FirstFit(h, nunits).Some?)
    ensures var k := FirstFit(h, nunits);
      k.Some? ==> k.value > 0 && Allocated(h0, nunits, more) == (Taken(h, k.value, nunits), Given(Tail(h.free[k.value], nunits).at + 1))
  {
    if grown {
      GrownSearch(h0, Block(more.value, Growth(nunits)), nunits);
    }
  }

  /** One turn of malloc's search. */
  lemma Turn(h: Heap, i: nat, nunits: nat)
    requires Ordered(h.free) && h.at < |h.free| && i < |h.free|
    ensures var k := Search(h.free, i, h.at, nunits); var at := h.free[i].at;
      if h.free[i].size >= nunits then k == Some(i)
      else if at == h.free[h.at].at then k == None && i == h.at
      else k == Search(h.free, Next(i, |h.free|), h.at, nunits) && Distance(Next(i, |h.free|), h.at, |h.free|) < Distance(i, h.at, |h.free|)
  {
    Distinct(h.free, i, h.at);
  }

  /** What the block at hand means for the search. */
  lemma Look(h0: Heap, nunits: nat, more: Option<int>, h: Heap, grown: bool, i: nat)
    requires Searchable(h0, nunits, more) && SearchedFor(h0, nunits, more, h, grown) && h.at < |h.free| && i < |h.free|
    requires Search(h.free, i, h.at, nunits) == FirstFit(h, nunits)
    ensures if h.free[i].size >= nunits then
        i > 0 && Allocated(h0, nunits, more) == (Taken(h, i, nunits), Given(Tail(h.free[i], nunits).at + 1))
      else if h.free[i].at == h.free[h.at].at then !grown && i == h.at && FirstFit(h, nunits) == None
      else
        && FirstFit(h, nunits) == Search(h.free, Next(i, |h.free|), h.at, nunits)
        && Distance(Next(i, |h.free|), h.at, |h.free|) < Distance(i, h.at, |h.free|)
  {
    SearchedFits(h0, nunits, more, h, grown);
    Turn(h, i, nunits);
  }

  /** No live block starts where the block to carve from, or its tail, does. */
  lemma Elsewhere(h: Heap, i: nat, nunits: nat)
    requires Inv(h) && i < |h.free| && h.free[i].size >= nunits > 0
    ensures forall b :: b in h.live ==> b.at != h.free[i].at && b.at != Tail(h.free[i], nunits).at
  {
    forall b | b in h.live ensures b.at != h.free[i].at && b.at != Tail(h.free[i], nunits).at {
      assert Clear(h.free, b) && Apart(b, h.free[i]);
    }
  }

  /** Headers by address: `ptr` links the free blocks, `size` is kept for live blocks too. */
  class Allocator {
    var freep: int
    var ptr: map<int, int>
    var size: map<int, nat>
    ghost var heap: Heap

    ghost predicate Linked()
      reads this
    {
      && heap.at < |heap.free| && freep == heap.free[heap.at].at
      && Chained(heap.free, ptr)
      && Sized(heap.free, size)
    }

    ghost predicate Valid()
      reads this
    {
      && Inv(heap)
      && (if heap.free == [] then freep == NULL else Linked())
      && forall b :: b in heap.live ==> b.at in size && size[b.at] == b.size
    }

    constructor ()
      ensures Valid() && heap == EMPTY
    {
      freep, ptr, size, heap := NULL, map[], map[], EMPTY;
    }

    ghost function BlockAt(bp: int): Block
      requires bp in size
      reads this
    {
      Block(bp, size[bp])
    }

    method Free(ap: int)
      requires Valid() && ap - 1 in size && BlockAt(ap - 1) in heap.live
      modifies this
      ensures Valid()
      ensures var b := old(BlockAt(ap - 1)); heap == Released(old(heap).(live := old(heap).live - {b}), b)
    {
      var bp := ap - 1;
      FreedInv(heap, BlockAt(bp));
      var p := Find(bp);
      Relink(bp, p);
    }

    /** The search loop of free: the free block after which bp belongs. */
    method Find(bp: int) returns (p: int)
      requires Linked() && Ordered(heap.free) && bp in size && Clear(heap.free, BlockAt(bp))
      ensures p == heap.free[Place(heap.free, bp)].at
    {
      ghost var b, free, links := BlockAt(bp), heap.free, ptr;
      ghost var i: nat, j: nat := heap.at, Place(free, bp);
      p := freep;
      while !(bp > p && bp < ptr[p])
        invariant i < |free| && p == free[i].at && LinkAt(free, links, i)
        modifies {}
        decreases Distance(i, j, |free|)
      {
        if p >= ptr[p] && (bp > p || bp < ptr[p]) {
          Wrapped(free, bp, i);
          return;
        }
        NotHere(free, b, i, j);
        p := ptr[p];
        i := Next(i, |free|);
        assert LinkAt(free, links, i);
      }
      Here(free, bp, i);
    }

    /** The second half of free: link bp in after p, joining it with its neighbours. */
    method Relink(bp: int, p: int)
      requires Valid() && bp in size && BlockAt(bp) in heap.live && heap.free != [] && heap.free[0].at < bp
      requires p == heap.free[Place(heap.free, bp)].at
      modifies this
      ensures Valid()
      ensures var b := old(BlockAt(bp)); heap == Released(old(heap).(live := old(heap).live - {b}), b)
    {
      ghost var b, free := BlockAt(bp), heap.free;
      ghost var j := Place(free, bp);
      assert Clear(free, b);
      FreedInv(heap, b);
      NotBelow(free, j, b);
      Successor(free, j, b, ptr);
      assert LinkAt(free, ptr, j) && SizeAt(free, size, j) && (j + 1 < |free| ==> SizeAt(free, size, j + 1));
      if bp + size[bp] == ptr[p] {
        size := size[bp := size[bp] + size[ptr[p]]];
        ptr := ptr[bp := ptr[ptr[p]]];
      } else {
        SameMap(size, bp);
        ptr := ptr[bp := ptr[p]];
      }

      ghost var next, units := ptr[bp], size[bp];
      assert ptr == old(ptr)[bp := next] && size == old(size)[bp := units];
      if p + size[p] == bp {
        size := size[p := size[p] + size[bp]];
        ptr := ptr[p := ptr[bp]];
      } else {
        SameMap(size, p);
        ptr := ptr[p := bp];
      }
      freep := p;
      heap := Released(heap.(live := heap.live - {b}), b);
      ChainedAfter(free, j, b, old(ptr), next, ptr[p]);
      SizedAfter(free, j, b, old(size), units, size[p]);
      JoinedIndex(free, j, b);
    }

    /** morecore. sbrk's argument is an int: if it is not positive, `cut` is set. */
    method MoreCore(nu: nat, more: Option<int>) returns (p: int, cut: bool)
      requires Valid() && heap.free != [] && (more.Some? ==> Above(heap, Block(more.value, Growth(nu))))
      modifies this
      ensures Valid()
      ensures cut <==> SbrkArgument(Growth(nu)) <= 0
      ensures cut || more.None? ==> heap == old(heap) && p == NULL
      ensures !cut && more.Some? ==> heap == Grown(old(heap), Block(more.value, Growth(nu))) && p == freep == heap.free[heap.at].at
    {
      var units := if nu < 4096 then 4096 else nu;
      p, cut := NULL, SbrkArgument(units) <= 0;
      if cut || more.None? {
        return;
      }
      var hp := more.value;
      ghost var b := Block(hp, units);
      ObtainedInv(heap, b);
      size := size[hp := units];
      forall i: nat | i < |heap.free| ensures SizeAt(heap.free, size, i) {
        assert SizeAt(heap.free, old(size), i);
      }
      heap := Obtained(heap, b);
      assert heap.live - {b} == old(heap.live);
      Free(hp + 1);
      p := freep;
    }

    /** malloc: on success the payload address of a new live block. */
    method Malloc(nbytes: nat, more: Option<int>) returns (o: Outcome)
      requires Valid() && nbytes < WORD
      requires more.Some? ==> Above(heap, Block(more.value, Growth(Units(nbytes))))
      modifies this
      ensures Valid()
      ensures (heap, o) == FreeList.Malloc(old(heap), nbytes, more)
    {
      var nunits := (nbytes + 7) % 0x1_0000_0000 / 8 + 1;
      StartedInv(heap);
      if freep == NULL {
        ptr, freep := ptr[BASE := BASE], BASE;
        size := size[BASE := 0];
        heap := Started(heap);
      }
      o := Allocate(nunits, more);
    }

    /** The loop of malloc. */
    method Allocate(nunits: nat, more: Option<int>) returns (o: Outcome)
      requires Valid() && heap.free != [] && nunits > 0
      requires more.Some? ==> Above(heap, Block(more.value, Growth(nunits)))
      modifies this
      ensures Valid()
      ensures (heap, o) == Allocated(old(heap), nunits, more)
    {
      ghost var h0 := heap;
      ghost var before: nat, grown := heap.at, false;
      assert LinkAt(heap.free, ptr, before);
      var prevp, p := freep, ptr[freep];
      ghost var i: nat := Next(before, |heap.free|);
      while true
        invariant Valid() && SearchedFor(h0, nunits, more, heap, grown)
        invariant before < |heap.free| && i == Next(before, |heap.free|)
        invariant prevp == heap.free[before].at && p == heap.free[i].at
        invariant Search(heap.free, i, heap.at, nunits) == FirstFit(heap, nunits)
        decreases !grown, Distance(i, heap.at, |heap.free|)
      {
        assert LinkAt(heap.free, ptr, i) && SizeAt(heap.free, size, i);
        Look(h0, nunits, more, heap, grown, i);
        if size[p] >= nunits {
          var q := Take(p, prevp, nunits, i);
          return Given(q + 1);
        }
        if p == freep {
          var cut: bool;
          p, cut := Refill(nunits, more, h0);
          if cut {
            return HeapCut;
          }
          if p == NULL {
            return Null;
          }
          grown, i := true, heap.at;
        }
        before := i;
        assert LinkAt(heap.free, ptr, before);
        prevp, p := p, ptr[p];
        i := Next(before, |heap.free|);
      }
    }

    /** morecore for want of a fit. */
    method Refill(nunits: nat, more: Option<int>, ghost h0: Heap) returns (p: int, cut: bool)
      requires Valid() && Searchable(h0, nunits, more) && SearchedFor(h0, nunits, more, heap, false) && FirstFit(heap, nunits) == None
      modifies this
      ensures Valid()
      ensures cut ==> (heap, HeapCut) == Allocated(h0, nunits, more)
      ensures !cut && p == NULL ==> (heap, Null) == Allocated(h0, nunits, more)
      ensures !cut && p != NULL ==> SearchedFor(h0, nunits, more, heap, true) && FirstFit(heap, nunits).Some?
      ensures !cut && p != NULL ==> heap.at < |heap.free| && p == freep == heap.free[heap.at].at
    {
      p, cut := MoreCore(nunits, more);
      if !cut && more.Some? {
        SearchedFits(h0, nunits, more, heap, true);
      }
    }

    /** The fit found: take its tail, or all of it. */
    method Take(p: int, prevp: int, nunits: nat, ghost i: nat) returns (q: int)
      requires Valid() && 0 < i < |heap.free| && heap.free[i].size >= nunits > 0
      requires p == heap.free[i].at && prevp == heap.free[i - 1].at
      modifies this
      ensures Valid()
      ensures heap == Taken(old(heap), i, nunits) && q == Tail(old(heap.free[i]), nunits).at
    {
      ghost var h0 := heap;
      TakenInv(h0, i, nunits);
      Elsewhere(h0, i, nunits);
      q := TakeUnits(p, prevp, nunits, h0.free, i);
      heap, freep := Taken(h0, i, nunits), prevp;
      assert heap.free[i - 1].at == prevp;
    }

    /** The headers of that. */
    method TakeUnits(p: int, prevp: int, nunits: nat, ghost free: seq<Block>, ghost i: nat) returns (q: int)
      requires Ordered(free) && Chained(free, ptr) && Sized(free, size) && 0 < i < |free| && free[i].size >= nunits > 0
      requires p == free[i].at && prevp == free[i - 1].at
      modifies this`ptr, this`size
      ensures Chained(Shrunk(free, i, nunits), ptr) && Sized(Shrunk(free, i, nunits), size) && q == Tail(free[i], nunits).at
      ensures q in size && size[q] == nunits
      ensures forall at :: at in old(size) && at != p && at != q ==> at in size && size[at] == old(size)[at]
    {
      assert LinkAt(free, ptr, i) && LinkAt(free, ptr, i - 1) && SizeAt(free, size, i);
      q := p;
      if size[p] == nunits {
        ptr := ptr[prevp := ptr[p]];
        ChainedWithout(free, i, nunits, old(ptr));
        SizedWithout(free, i, nunits, size);
      } else {
        size := size[p := size[p] - nunits];
        q := p + size[p];
        size := size[q := nunits];
        ChainedShrunk(free, i, nunits, ptr);
        SizedShrunk(free, i, nunits, old(size));
      }
    }
  }
}

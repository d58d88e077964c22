/** The heap of the user allocator as a value: an address-ordered circular list of free
    blocks that starts at a block of size 0, the roving index, the live blocks and the
    units obtained from sbrk. Addresses and sizes count 8-byte header units. */
module FreeList {
  import opened Options

  datatype Block = Block(at: int, size: nat)

  /** `at` is the index of the block that freep points to. */
  datatype Heap = Heap(free: seq<Block>, at: nat, live: set<Block>, obtained: set<int>)

  /** The static header `base` lies below the heap; user addresses stay below KERNBASE,
      2^31 bytes. */
  const BASE: int := 1
  const LIMIT: int := 0x1000_0000
  const MIN_GROWTH: nat := 4096

  const EMPTY: Heap := Heap([], 0, {}, {})

  predicate Covers(b: Block, u: int) {
    b.at <= u < b.at + b.size
  }

  predicate Apart(b: Block, c: Block) {
    b.at + b.size <= c.at || c.at + c.size <= b.at
  }

  function UnitsOf(b: Block): (s: set<int>)
    ensures forall u :: u in s <==> Covers(b, u)
  {
    set u | b.at <= u < b.at + b.size && Covers(b, u)
  }

  predicate InFree(free: seq<Block>, u: int) {
    exists i :: 0 <= i < |free| && Covers(free[i], u)
  }

  predicate InLive(live: set<Block>, u: int) {
    exists b :: b in live && Covers(b, u)
  }

  // ----- The invariant -----

  /** Ascending, without overlap, and no two blocks adjacent; the first is `base`. */
  ghost predicate Ordered(free: seq<Block>) {
    && |free| > 0
    && free[0] == Block(BASE, 0)
    && (forall i :: 1 <= i < |free| ==> free[i].size > 0)
    && forall i, j :: 0 <= i < j < |free| ==> free[i].at + free[i].size < free[j].at
  }

  ghost predicate Clear(free: seq<Block>, b: Block) {
    b.at > BASE && b.size > 0 && forall i :: 0 <= i < |free| ==> Apart(b, free[i])
  }

  ghost predicate LiveApart(h: Heap) {
    && (forall b :: b in h.live ==> Clear(h.free, b))
    && forall b, c :: Separate(h.live, b, c)
  }

  predicate Separate(live: set<Block>, b: Block, c: Block) {
    b in live && c in live && b != c ==> Apart(b, c)
  }

  /** Every unit obtained belongs to a free or a live block, and no other unit does. */
  ghost predicate Conserved(h: Heap) {
    && (forall u :: u in h.obtained ==> BASE < u < LIMIT)
    && forall u :: u in h.obtained <==> InFree(h.free, u) || InLive(h.live, u)
  }

  ghost predicate Inv(h: Heap) {
    if h.free == [] then h == EMPTY
    else Ordered(h.free) && h.at < |h.free| && LiveApart(h) && Conserved(h)
  }

  // ----- Giving back -----

  /** The last block below `at`. */
  function Place(free: seq<Block>, at: int): (j: nat)
    requires |free| > 0 && free[0].at < at
    ensures j < |free| && free[j].at < at && (j + 1 < |free| ==> at <= free[j + 1].at)
  {
    if |free| == 1 || at <= free[1].at then 0 else Place(free[1..], at) + 1
  }

  predicate JoinsLeft(free: seq<Block>, j: nat, b: Block)
    requires j < |free|
  {
    free[j].at + free[j].size == b.at
  }

  predicate JoinsRight(free: seq<Block>, j: nat, b: Block) {
    j + 1 < |free| && b.at + b.size == free[j + 1].at
  }

  function Merged(free: seq<Block>, j: nat, b: Block): Block
    requires j < |free|
  {
    var right := if JoinsRight(free, j, b) then free[j + 1].size else 0;
    if JoinsLeft(free, j, b) then Block(free[j].at, free[j].size + b.size + right) else Block(b.at, b.size + right)
  }

  /** Put b after block j, joined with its neighbours where they touch. */
  function Insert(free: seq<Block>, j: nat, b: Block): seq<Block>
    requires j < |free|
  {
    free[..if JoinsLeft(free, j, b) then j else j + 1] + [Merged(free, j, b)] +
    free[if JoinsRight(free, j, b) then j + 2 else j + 1..]
  }

  /** free(), once the block is no longer live: the rover stays just before it, or on the
      block that it joined. */
  function Released(h: Heap, b: Block): Heap
    requires |h.free| > 0 && h.free[0].at < b.at
  {
    var j := Place(h.free, b.at);
    h.(free := Insert(h.free, j, b), at := j)
  }

  // ----- Taking -----

  function Next(i: nat, n: nat): (k: nat)
    requires i < n
    ensures k < n
  {
    if i + 1 < n then i + 1 else 0
  }

  /** How many steps around the ring from i to last. */
  function Distance(i: nat, last: nat, n: nat): nat
    requires i < n && last < n
  {
    if i <= last then last - i else last - i + n
  }

  /** The first block that is large enough, going around from i up to last. */
  function Search(free: seq<Block>, i: nat, last: nat, units: nat): (k: Option<nat>)
    requires i < |free| && last < |free|
    ensures k.Some? ==> k.value < |free| && free[k.value].size >= units
    decreases Distance(i, last, |free|)
  {
    if free[i].size >= units then Some(i)
    else if i == last then None
    else Search(free, Next(i, |free|), last, units)
  }

  function Shrunk(free: seq<Block>, i: nat, units: nat): seq<Block>
    requires i < |free| && free[i].size >= units
  {
    if free[i].size == units then free[..i] + free[i + 1..]
    else free[i := Block(free[i].at, free[i].size - units)]
  }

  /** The last `units` units of a free block. */
  function Tail(b: Block, units: nat): Block
    requires b.size >= units
  {
    Block(b.at + b.size - units, units)
  }

  /** Take the tail of free block i; the rover goes to the block before it. */
  function Taken(h: Heap, i: nat, units: nat): Heap
    requires 0 < i < |h.free| && h.free[i].size >= units
  {
    h.(free := Shrunk(h.free, i, units), at := i - 1, live := h.live + {Tail(h.free[i], units)})
  }

  // ----- Insert keeps the order and adds exactly b -----

  lemma NotBelow(free: seq<Block>, j: nat, b: Block)
    requires Ordered(free) && Clear(free, b) && j == Place(free, b.at)
    ensures free[j].at + free[j].size <= b.at
    ensures forall i :: j < i < |free| ==> b.at + b.size <= free[i].at
  {
    assert Apart(b, free[j]);
    if j + 1 < |free| {
      assert Apart(b, free[j + 1]);
    }
  }

  lemma PlaceUnique(free: seq<Block>, at: int, i: nat)
    requires Ordered(free) && BASE < at && i < |free|
    requires free[i].at < at && (i + 1 < |free| ==> at < free[i + 1].at)
    ensures i == Place(free, at)
  {
    assert i >= Place(free, at);
  }

  predicate Kept(free: seq<Block>, f: seq<Block>, k: nat) {
    k < |free| && k < |f| && f[k] == free[k]
  }

  predicate Moved(free: seq<Block>, f: seq<Block>, m: nat, r: nat, k: nat) {
    r <= k < |free| && k - r + m + 1 < |f| && f[k - r + m + 1] == free[k]
  }

  /** f is `free` with the blocks from m up to r replaced by the one block `mid`. */
  ghost predicate Replaced(free: seq<Block>, m: nat, r: nat, mid: Block, f: seq<Block>) {
    && m <= r <= |free|
    && |f| == m + 1 + (|free| - r)
    && (forall k: nat :: k < m ==> Kept(free, f, k))
    && f[m] == mid
    && forall k: nat :: r <= k < |free| ==> Moved(free, f, m, r, k)
  }

  function From(free: seq<Block>, j: nat, b: Block): nat
    requires j < |free|
  {
    if JoinsLeft(free, j, b) then j else j + 1
  }

  function To(free: seq<Block>, j: nat, b: Block): nat {
    if JoinsRight(free, j, b) then j + 2 else j + 1
  }

  lemma InsertReplaces(free: seq<Block>, j: nat, b: Block)
    requires j < |free|
    ensures Replaced(free, From(free, j, b), To(free, j, b), Merged(free, j, b), Insert(free, j, b))
  {
  }

  lemma ReplacedOrdered(free: seq<Block>, m: nat, r: nat, mid: Block, f: seq<Block>)
    requires Ordered(free) && Replaced(free, m, r, mid, f) && m > 0 && mid.size > 0
    requires free[m - 1].at + free[m - 1].size < mid.at
    requires r < |free| ==> mid.at + mid.size < free[r].at
    ensures Ordered(f)
  {
    assert Kept(free, f, 0) && Kept(free, f, m - 1);
    forall k: nat | m < k < |f| ensures f[k] == free[k - m - 1 + r] && mid.at + mid.size < f[k].at {
      assert Moved(free, f, m, r, k - m - 1 + r);
    }
    forall k: nat | k < m ensures f[k] == free[k] && f[k].at + f[k].size < mid.at {
      assert Kept(free, f, k);
    }
  }

  lemma InsertOrdered(free: seq<Block>, j: nat, b: Block)
    requires Ordered(free) && Clear(free, b) && j == Place(free, b.at)
    ensures Ordered(Insert(free, j, b))
  {
    NotBelow(free, j, b);
    InsertReplaces(free, j, b);
    ReplacedOrdered(free, From(free, j, b), To(free, j, b), Merged(free, j, b), Insert(free, j, b));
  }

  lemma ReplacedCovers(free: seq<Block>, m: nat, r: nat, mid: Block, f: seq<Block>, u: int)
    requires Replaced(free, m, r, mid, f)
    ensures InFree(f, u) <==> Covers(mid, u) || InFree(free[..m], u) || InFree(free[r..], u)
  {
    if i :| 0 <= i < |f| && Covers(f[i], u) {
      if i < m {
        assert Kept(free, f, i);
        assert Covers(free[..m][i], u);
      } else if i > m {
        assert Moved(free, f, m, r, i - m - 1 + r);
        assert Covers(free[r..][i - m - 1], u);
      }
    }
    if i :| 0 <= i < m && Covers(free[..m][i], u) {
      assert Kept(free, f, i);
      assert Covers(f[i], u);
    }
    if i :| 0 <= i < |free| - r && Covers(free[r..][i], u) {
      assert Moved(free, f, m, r, r + i);
      assert Covers(f[r + i - r + m + 1], u);
    }
    if Covers(mid, u) {
      assert Covers(f[m], u);
    }
  }

  lemma SplitCovers(free: seq<Block>, m: nat, r: nat, u: int)
    requires m <= r <= |free|
    ensures InFree(free, u) <==> InFree(free[..m], u) || InFree(free[m..r], u) || InFree(free[r..], u)
  {
    if i :| 0 <= i < |free| && Covers(free[i], u) {
      if i < m {
        assert free[..m][i] == free[i];
      } else if i < r {
        assert free[m..r][i - m] == free[i];
      } else {
        assert free[r..][i - r] == free[i];
      }
    }
  }

  lemma InsertCovers(free: seq<Block>, j: nat, b: Block, u: int)
    requires Ordered(free) && Clear(free, b) && j == Place(free, b.at)
    ensures InFree(Insert(free, j, b), u) <==> InFree(free, u) || Covers(b, u)
  {
    NotBelow(free, j, b);
    InsertReplaces(free, j, b);
    var m, r := From(free, j, b), To(free, j, b);
    ReplacedCovers(free, m, r, Merged(free, j, b), Insert(free, j, b), u);
    SplitCovers(free, m, r, u);
    MiddleCovers(free, j, b, u);
  }

  lemma MiddleCovers(free: seq<Block>, j: nat, b: Block, u: int)
    requires j < |free|
    requires free[j].at + free[j].size <= b.at && (j + 1 < |free| ==> b.at + b.size <= free[j + 1].at)
    ensures Covers(Merged(free, j, b), u) <==> InFree(free[From(free, j, b)..To(free, j, b)], u) || Covers(b, u)
  {
    var mid := free[From(free, j, b)..To(free, j, b)];
    if JoinsLeft(free, j, b) {
      assert mid[0] == free[j];
      assert Covers(free[j], u) ==> Covers(mid[0], u);
    }
    if JoinsRight(free, j, b) {
      assert mid[|mid| - 1] == free[j + 1];
      assert Covers(free[j + 1], u) ==> Covers(mid[|mid| - 1], u);
    }
  }

  lemma InsertClear(free: seq<Block>, j: nat, b: Block, c: Block)
    requires Ordered(free) && Clear(free, b) && j == Place(free, b.at)
    requires Clear(free, c) && Apart(b, c)
    ensures Clear(Insert(free, j, b), c)
  {
    NotBelow(free, j, b);
    InsertReplaces(free, j, b);
    var m, r, mid, f := From(free, j, b), To(free, j, b), Merged(free, j, b), Insert(free, j, b);
    assert Apart(c, mid) by {
      assert Apart(c, free[j]);
      if j + 1 < |free| {
        assert Apart(c, free[j + 1]);
      }
    }
    forall i | 0 <= i < |f| ensures Apart(c, f[i]) {
      if i < m {
        assert Kept(free, f, i);
      } else if i > m {
        assert Moved(free, f, m, r, i - m - 1 + r);
      }
    }
  }

  // ----- Taking keeps the order and removes exactly the block given -----

  lemma ShrunkOrdered(free: seq<Block>, i: nat, units: nat)
    requires Ordered(free) && 0 < i < |free| && free[i].size >= units > 0
    ensures Ordered(Shrunk(free, i, units))
  {
    var f := Shrunk(free, i, units);
    if free[i].size == units {
      assert forall k :: 0 <= k < |f| ==> f[k] == free[if k < i then k else k + 1];
    }
  }

  lemma ShrunkCovers(free: seq<Block>, i: nat, units: nat, u: int)
    requires Ordered(free) && 0 < i < |free| && free[i].size >= units > 0
    ensures InFree(free, u) <==> InFree(Shrunk(free, i, units), u) || Covers(Tail(free[i], units), u)
  {
    var f := Shrunk(free, i, units);
    if k :| 0 <= k < |free| && Covers(free[k], u) {
      if k != i {
        assert f[if k < i || free[i].size > units then k else k - 1] == free[k];
      } else if free[i].size > units {
        assert Covers(f[i], u) || Covers(Tail(free[i], units), u);
      }
    }
    if k :| 0 <= k < |f| && Covers(f[k], u) {
      assert Covers(free[if k < i || free[i].size > units then k else k + 1], u);
    }
    if Covers(Tail(free[i], units), u) {
      assert Covers(free[i], u);
    }
  }

  lemma ShrunkClear(free: seq<Block>, i: nat, units: nat, c: Block)
    requires Ordered(free) && 0 < i < |free| && free[i].size >= units > 0
    requires Clear(free, c)
    ensures Clear(Shrunk(free, i, units), c) && Apart(c, Tail(free[i], units))
  {
    var f := Shrunk(free, i, units);
    assert Apart(c, free[i]);
    forall k | 0 <= k < |f| ensures Apart(c, f[k]) {
      assert Apart(c, free[if k < i || free[i].size > units then k else k + 1]);
    }
  }

  lemma TailClear(free: seq<Block>, i: nat, units: nat)
    requires Ordered(free) && 0 < i < |free| && free[i].size >= units > 0
    ensures Clear(Shrunk(free, i, units), Tail(free[i], units))
  {
    var f, t := Shrunk(free, i, units), Tail(free[i], units);
    assert free[0].at + free[0].size < free[i].at;
    forall k | 0 <= k < |f| ensures Apart(t, f[k]) {
      var k' := if k < i || free[i].size > units then k else k + 1;
      if k' < i {
        assert free[k'].at + free[k'].size < free[i].at;
      } else if k' > i {
        assert free[i].at + free[i].size < free[k'].at;
      }
    }
  }

  // ----- The free list is determined by the free units -----

  lemma SameStart(f: seq<Block>, g: seq<Block>, k: nat)
    requires Ordered(f) && Ordered(g) && 0 < k < |f| && k <= |g| && f[..k] == g[..k]
    requires forall u :: InFree(f, u) ==> InFree(g, u)
    ensures k < |g| && g[k].at <= f[k].at
  {
    assert Covers(f[k], f[k].at);
    assert InFree(f, f[k].at);
    var i :| 0 <= i < |g| && Covers(g[i], f[k].at);
    assert k <= i by {
      assert forall l :: 0 <= l < k ==> f[l] == f[..k][l] == g[..k][l] == g[l];
    }
  }

  lemma GapAfter(f: seq<Block>, k: nat)
    requires Ordered(f) && k < |f|
    ensures !InFree(f, f[k].at + f[k].size)
  {
    forall i | 0 <= i < |f| ensures !Covers(f[i], f[k].at + f[k].size) {
      if i < k {
        assert f[i].at + f[i].size < f[k].at;
      } else if i > k {
        assert f[k].at + f[k].size < f[i].at;
      }
    }
  }

  lemma SameEnd(f: seq<Block>, g: seq<Block>, k: nat)
    requires Ordered(f) && Ordered(g) && 0 < k < |f| && k < |g| && f[k].at == g[k].at
    requires forall u :: InFree(g, u) ==> InFree(f, u)
    ensures g[k].size <= f[k].size
  {
    if g[k].size > f[k].size {
      var u := f[k].at + f[k].size;
      assert Covers(g[k], u);
      assert InFree(g, u);
      GapAfter(f, k);
    }
  }

  lemma {:induction false} SameUpTo(f: seq<Block>, g: seq<Block>, k: nat)
    requires Ordered(f) && Ordered(g) && k <= |f|
    requires forall u :: InFree(f, u) <==> InFree(g, u)
    ensures k <= |g| && f[..k] == g[..k]
  {
    if k == 1 {
      assert f[..1] == [f[0]] == g[..1];
    } else if k > 1 {
      SameUpTo(f, g, k - 1);
      SameStart(f, g, k - 1);
      SameStart(g, f, k - 1);
      SameEnd(f, g, k - 1);
      SameEnd(g, f, k - 1);
      assert f[..k] == f[..k - 1] + [f[k - 1]] && g[..k] == g[..k - 1] + [g[k - 1]];
    }
  }

  /** Whatever the order of the calls, the same free units make the same free list. */
  lemma FreeListUnique(f: seq<Block>, g: seq<Block>)
    requires Ordered(f) && Ordered(g)
    requires forall u :: InFree(f, u) <==> InFree(g, u)
    ensures f == g
  {
    SameUpTo(f, g, |f|);
    SameUpTo(g, f, |g|);
  }

  // ----- Searching -----

  predicate InArc(k: nat, i: nat, last: nat, n: nat)
    requires k < n && i < n && last < n
  {
    Distance(i, k, n) <= Distance(i, last, n)
  }

  /** The search finds the first fit on its way, and none only if there is none. */
  lemma {:induction false} SearchFirst(free: seq<Block>, i: nat, last: nat, units: nat, k: nat)
    requires i < |free| && last < |free| && k < |free| && InArc(k, i, last, |free|)
    ensures free[k].size >= units ==> Search(free, i, last, units).Some?
    ensures Search(free, i, last, units).Some? ==> InArc(Search(free, i, last, units).value, i, last, |free|)
    ensures free[k].size >= units ==> InArc(Search(free, i, last, units).value, i, k, |free|)
    decreases Distance(i, last, |free|)
  {
    if free[i].size < units && i != last {
      var i', n := Next(i, |free|), |free|;
      SearchFirst(free, i', last, units, if k == i then last else k);
    }
  }

  lemma FullCircle(k: nat, at: nat, n: nat)
    requires k < n && at < n
    ensures InArc(k, Next(at, n), at, n)
  {
  }

  // ----- malloc and free on the heap -----

  const WORD: nat := 0x1_0000_0000

  /** Header units for a request, in 32-bit arithmetic. */
  function Units(nbytes: nat): (n: nat)
    requires nbytes < WORD
    ensures n > 0
    ensures nbytes + 7 < WORD <==> 8 * (n - 1) >= nbytes
    ensures nbytes + 7 < WORD ==> 8 * (n - 1) < nbytes + 8
  {
    (nbytes + 7) % 0x1_0000_0000 / 8 + 1
  }

  function Growth(units: nat): nat {
    if units < MIN_GROWTH then MIN_GROWTH else units
  }

  /** The byte count as sbrk's int parameter receives it. */
  function SbrkArgument(units: nat): int {
    var n := units * 8 % 0x1_0000_0000;
    if n < WORD / 2 then n else n - WORD
  }

  function Started(h: Heap): Heap {
    if h.free == [] then h.(free := [Block(BASE, 0)], at := 0) else h
  }

  /** sbrk hands out addresses above all earlier ones. */
  ghost predicate Above(h: Heap, b: Block) {
    b.at > BASE && b.at + b.size <= LIMIT && forall u :: u in h.obtained ==> u < b.at
  }

  /** sbrk gave the block b: free it. */
  function Grown(h: Heap, b: Block): Heap
    requires |h.free| > 0 && h.free[0].at < b.at
  {
    Released(h.(obtained := h.obtained + UnitsOf(b)), b)
  }

  lemma ReleasedInv(h: Heap, b: Block)
    requires Ordered(h.free) && LiveApart(h) && Clear(h.free, b)
    requires forall c :: c in h.live ==> Apart(b, c)
    requires forall u :: u in h.obtained ==> BASE < u < LIMIT
    requires forall u :: u in h.obtained <==> InFree(h.free, u) || InLive(h.live, u) || Covers(b, u)
    ensures Inv(Released(h, b))
  {
    var j := Place(h.free, b.at);
    var h' := Released(h, b);
    InsertOrdered(h.free, j, b);
    forall c | c in h.live ensures Clear(h'.free, c) {
      InsertClear(h.free, j, b, c);
    }
    forall u ensures u in h'.obtained <==> InFree(h'.free, u) || InLive(h'.live, u) {
      InsertCovers(h.free, j, b, u);
    }
    NotBelow(h.free, j, b);
    InsertReplaces(h.free, j, b);
  }

  lemma AboveApart(h: Heap, b: Block)
    requires Inv(h) && h.free != [] && Above(h, b) && b.size > 0
    ensures Clear(h.free, b)
    ensures forall c :: c in h.live ==> Apart(b, c)
  {
    forall i | 0 <= i < |h.free| ensures Apart(b, h.free[i]) {
      if i > 0 {
        var last := h.free[i].at + h.free[i].size - 1;
        assert Covers(h.free[i], last);
        assert InFree(h.free, last);
      }
    }
    forall c | c in h.live ensures Apart(b, c) {
      assert Clear(h.free, c);
      var last := c.at + c.size - 1;
      assert Covers(c, last);
      assert InLive(h.live, last);
    }
  }

  lemma GrownInv(h: Heap, b: Block)
    requires Inv(h) && h.free != [] && Above(h, b) && b.size > 0
    ensures Inv(Grown(h, b))
  {
    var h' := h.(obtained := h.obtained + UnitsOf(b));
    AboveApart(h, b);
    assert LiveApart(h');
    ReleasedInv(h', b);
  }

  /** Space that sbrk gave, as a live block that is still to be freed. */
  function Obtained(h: Heap, b: Block): Heap {
    h.(obtained := h.obtained + UnitsOf(b), live := h.live + {b})
  }

  lemma ObtainedInv(h: Heap, b: Block)
    requires Inv(h) && h.free != [] && Above(h, b) && b.size > 0
    ensures Inv(Obtained(h, b)) && b !in h.live
    ensures (forall i :: 0 <= i < |h.free| ==> h.free[i].at != b.at) && forall c :: c in h.live ==> c.at != b.at
  {
    var h' := Obtained(h, b);
    AboveApart(h, b);
    assert forall i :: 0 <= i < |h.free| ==> Apart(b, h.free[i]);
    assert forall c :: c in h.live ==> Clear(h.free, c);
    forall c, d ensures Separate(h'.live, c, d) {
      assert Separate(h.live, c, d);
    }
    forall u ensures u in h'.obtained <==> InFree(h'.free, u) || InLive(h'.live, u) {
      if Covers(b, u) {
        assert InLive(h'.live, u);
      } else if c :| c in h'.live && Covers(c, u) {
        assert InLive(h.live, u);
      }
      if c :| c in h.live && Covers(c, u) {
        assert c in h'.live;
      }
    }
  }

  /** free() of a live block keeps the invariant. */
  lemma FreedInv(h: Heap, b: Block)
    requires Inv(h) && b in h.live
    ensures h.free != [] && Inv(Released(h.(live := h.live - {b}), b))
  {
    var h' := h.(live := h.live - {b});
    assert Clear(h.free, b);
    forall c, d ensures Separate(h'.live, c, d) {
      assert Separate(h.live, c, d);
    }
    forall c | c in h'.live ensures Apart(b, c) {
      assert Separate(h.live, b, c);
    }
    forall u ensures u in h.obtained <==> InFree(h.free, u) || InLive(h'.live, u) || Covers(b, u) {
      if c :| c in h.live && Covers(c, u) {
        assert c == b || c in h'.live;
      }
    }
    ReleasedInv(h', b);
  }

  lemma TakenInv(h: Heap, i: nat, units: nat)
    requires Inv(h) && 0 < i < |h.free| && h.free[i].size >= units > 0
    ensures Inv(Taken(h, i, units)) && Tail(h.free[i], units) !in h.live
    ensures forall c :: c in h.live ==> Apart(c, Tail(h.free[i], units))
  {
    var h', t := Taken(h, i, units), Tail(h.free[i], units);
    ShrunkOrdered(h.free, i, units);
    TailClear(h.free, i, units);
    forall c | c in h.live ensures Clear(h'.free, c) && Apart(c, t) {
      assert Clear(h.free, c);
      ShrunkClear(h.free, i, units, c);
    }
    forall c, d ensures Separate(h'.live, c, d) {
      assert Separate(h.live, c, d);
    }
    forall u ensures u in h'.obtained <==> InFree(h'.free, u) || InLive(h'.live, u) {
      ShrunkCovers(h.free, i, units, u);
      if b :| b in h'.live && Covers(b, u) {
        assert b == t || b in h.live;
      }
    }
  }

  /** What malloc returns: a payload address, 0, or, when sbrk's argument is not positive,
      a heap that sbrk has left alone or cut: the caller then writes a header there. */
  datatype Outcome = Given(payload: int) | Null | HeapCut

  /** malloc. `more` is what sbrk would answer. */
  ghost function Malloc(h: Heap, nbytes: nat, more: Option<int>): (r: (Heap, Outcome))
    requires Inv(h) && nbytes < WORD
    requires more.Some? ==> Above(h, Block(more.value, Growth(Units(nbytes))))
  {
    Allocated(Started(h), Units(nbytes), more)
  }

  ghost function Allocated(h: Heap, n: nat, more: Option<int>): (r: (Heap, Outcome))
    requires Inv(h) && h.free != [] && n > 0
    requires more.Some? ==> Above(h, Block(more.value, Growth(n)))
  {
    match Search(h.free, Next(h.at, |h.free|), h.at, n)
    case Some(i) => (Taken(h, i, n), Given(Tail(h.free[i], n).at + 1))
    case None =>
      if SbrkArgument(Growth(n)) <= 0 then (h, HeapCut)
      else if more.None? then (h, Null)
      else
        var h1 := Grown(h, Block(more.value, Growth(n)));
        GrownSearch(h, Block(more.value, Growth(n)), n);
        var i := Search(h1.free, Next(h1.at, |h1.free|), h1.at, n).value;
        (Taken(h1, i, n), Given(Tail(h1.free[i], n).at + 1))
  }

  lemma StartedInv(h: Heap)
    requires Inv(h)
    ensures Inv(Started(h)) && Started(h).free != []
  {
  }

  /** After morecore a fit is found without going around twice. */
  lemma GrownSearch(h: Heap, b: Block, units: nat)
    requires Inv(h) && h.free != [] && Above(h, b) && b.size >= units > 0
    ensures Inv(Grown(h, b))
    ensures var h1 := Grown(h, b); Search(h1.free, Next(h1.at, |h1.free|), h1.at, units).Some?
  {
    GrownInv(h, b);
    var j, h1 := Place(h.free, b.at), Grown(h, b);
    InsertReplaces(h.free, j, b);
    var m, n := From(h.free, j, b), |h1.free|;
    FullCircle(m, h1.at, n);
    SearchFirst(h1.free, Next(h1.at, n), h1.at, units, m);
  }

  /** No block from the one behind the rover around the ring up to k has n units. */
  ghost predicate TooSmallBefore(h: Heap, k: nat, n: nat) {
    if k > h.at then forall j :: h.at < j < k && j < |h.free| ==> h.free[j].size < n
    else forall j :: 0 <= j < |h.free| && (j > h.at || j < k) ==> h.free[j].size < n
  }

  lemma SearchFinds(h: Heap, k: nat, n: nat)
    requires h.at < |h.free| && k < |h.free| && h.free[k].size >= n && TooSmallBefore(h, k, n)
    ensures Search(h.free, Next(h.at, |h.free|), h.at, n) == Some(k)
  {
    var i := Next(h.at, |h.free|);
    FullCircle(k, h.at, |h.free|);
    SearchFirst(h.free, i, h.at, n, k);
  }

  /** Next fit: the first block behind the rover with enough units gives its last n, or goes
      altogether if it has no more; the payload begins one unit behind the header, and the
      rover is left before that block. */
  lemma MallocTakes(h: Heap, n: nat, more: Option<int>, k: nat)
    requires Inv(h) && h.free != [] && n > 0
    requires more.Some? ==> Above(h, Block(more.value, Growth(n)))
    requires k < |h.free| && h.free[k].size >= n && TooSmallBefore(h, k, n)
    ensures var (h', o) := Allocated(h, n, more); var b := h.free[k];
      && k > 0 && o == Given(b.at + b.size - n + 1)
      && h'.at == k - 1 && h'.obtained == h.obtained && h'.live == h.live + {Block(b.at + b.size - n, n)}
      && h'.free == if b.size == n then h.free[..k] + h.free[k + 1..] else h.free[k := Block(b.at, b.size - n)]
  {
    SearchFinds(h, k, n);
  }

  /** free leaves the rover before the block given back, or on the block that it joined. */
  lemma FreeMovesRover(h: Heap, b: Block)
    requires Ordered(h.free) && Clear(h.free, b)
    ensures var h' := Released(h, b);
      && h'.at < |h'.free| && h'.free[h'.at].at < b.at
      && (h'.at + 1 < |h'.free| ==> b.at <= h'.free[h'.at + 1].at)
  {
    var j, f := Place(h.free, b.at), Released(h, b).free;
    NotBelow(h.free, j, b);
    InsertReplaces(h.free, j, b);
    var r := To(h.free, j, b);
    if JoinsLeft(h.free, j, b) {
      assert f[j] == Merged(h.free, j, b);
      assert r < |h.free| ==> Moved(h.free, f, j, r, r);
    } else {
      assert Kept(h.free, f, j) && f[j + 1] == Merged(h.free, j, b);
    }
  }

  /** The block behind a payload address. */
  predicate Owns(live: set<Block>, b: Block, payload: int) {
    b in live && b.at + 1 == payload
  }

  lemma TakenGives(h: Heap, i: nat, units: nat, b: Block)
    requires Inv(h) && 0 < i < |h.free| && h.free[i].size >= units > 0 && b == Tail(h.free[i], units)
    ensures Inv(Taken(h, i, units)) && Owns(Taken(h, i, units).live, b, b.at + 1) && b !in h.live
    ensures Taken(h, i, units).live == h.live + {b} && forall c :: c in h.live ==> Apart(c, b)
  {
    TakenInv(h, i, units);
  }

  lemma AllocatedGives(h: Heap, n: nat, more: Option<int>, h': Heap, o: Outcome, b: Block)
    requires Inv(h) && h.free != [] && n > 0
    requires more.Some? ==> Above(h, Block(more.value, Growth(n)))
    requires Allocated(h, n, more) == (h', o)
    requires o.Given? ==> b == Block(o.payload - 1, n)
    ensures Inv(h')
    ensures o.Given? ==> Owns(h'.live, b, o.payload) && b !in h.live && h'.live == h.live + {b}
    ensures o.Given? ==> forall c :: c in h.live ==> Apart(c, b)
    ensures !o.Given? ==> h' == h
  {
    var k := Search(h.free, Next(h.at, |h.free|), h.at, n);
    if k.Some? {
      TakenGives(h, k.value, n, b);
    } else if o.Given? {
      var g := Block(more.value, Growth(n));
      GrownSearch(h, g, n);
      var h1 := Grown(h, g);
      TakenGives(h1, Search(h1.free, Next(h1.at, |h1.free|), h1.at, n).value, n, b);
    }
  }

  /** A successful malloc makes exactly one more block live, of the size asked for, apart
      from every other live block and every free one. */
  lemma MallocGives(h: Heap, nbytes: nat, more: Option<int>, h': Heap, o: Outcome, b: Block)
    requires Inv(h) && nbytes < WORD
    requires more.Some? ==> Above(h, Block(more.value, Growth(Units(nbytes))))
    requires Malloc(h, nbytes, more) == (h', o)
    requires o.Given? ==> b == Block(o.payload - 1, Units(nbytes))
    ensures Inv(h')
    ensures o.Given? ==> Owns(h'.live, b, o.payload) && b !in h.live && h'.live == h.live + {b}
    ensures o.Given? ==> forall c :: c in h.live ==> Apart(c, b)
    ensures !o.Given? ==> h' == Started(h)
  {
    StartedInv(h);
    AllocatedGives(Started(h), Units(nbytes), more, h', o, b);
  }

  /** sbrk is asked only when no free block fits, and then for at least 4096 units. */
  lemma MallocGrows(h: Heap, nbytes: nat, more: Option<int>)
    requires Inv(h) && nbytes < WORD
    requires more.Some? ==> Above(h, Block(more.value, Growth(Units(nbytes))))
    ensures var (h', o) := Malloc(h, nbytes, more); var n := Units(nbytes);
      if exists i :: 0 <= i < |h.free| && h.free[i].size >= n then
        o.Given? && h'.obtained == h.obtained
      else if o.Given? then
        more.Some? && h'.obtained == h.obtained + UnitsOf(Block(more.value, if n < 4096 then 4096 else n))
      else h'.obtained == h.obtained
  {
    StartedInv(h);
    var h0 := Started(h);
    if i :| 0 <= i < |h.free| && h.free[i].size >= Units(nbytes) {
      FullCircle(i, h0.at, |h0.free|);
      SearchFirst(h0.free, Next(h0.at, |h0.free|), h0.at, Units(nbytes), i);
    }
  }

  lemma ArgumentSign(units: nat)
    requires 0 < units <= 0x2000_0000
    ensures SbrkArgument(units) > 0 <==> units < LIMIT
    ensures SbrkArgument(units) > 0 ==> SbrkArgument(units) == 8 * units
  {
  }

  /** A request goes wrong in sbrk exactly when it needs 2^28 units or more. */
  lemma HeapCutExactlyWhen(h: Heap, nbytes: nat, more: Option<int>)
    requires Inv(h) && nbytes < WORD
    requires more.Some? ==> Above(h, Block(more.value, Growth(Units(nbytes))))
    ensures Malloc(h, nbytes, more).1 == HeapCut <==> 0x7FFF_FFF1 <= nbytes <= 0xFFFF_FFF8
  {
    StartedInv(h);
    var n, h0 := Units(nbytes), Started(h);
    assert n >= LIMIT <==> 0x7FFF_FFF1 <= nbytes <= 0xFFFF_FFF8;
    ArgumentSign(Growth(n));
    var k := Search(h0.free, Next(h0.at, |h0.free|), h0.at, n);
    if k.Some? {
      var b := h0.free[k.value];
      assert Covers(b, b.at) && Covers(b, b.at + b.size - 1);
      assert InFree(h0.free, b.at) && InFree(h0.free, b.at + b.size - 1);
    }
  }

  // ----- Runs -----

  datatype Action = Allocate(nbytes: nat, more: Option<int>) | Free(b: Block)

  /** One call. A program frees only what is live; sbrk hands out fresh space; a run ends
      where sbrk goes wrong. */
  ghost function Step(h: Heap, a: Action): Option<Heap>
    requires Inv(h)
  {
    match a
    case Allocate(nbytes, more) =>
      if nbytes >= WORD || (more.Some? && !Above(h, Block(more.value, Growth(Units(nbytes))))) then None
      else if Malloc(h, nbytes, more).1.HeapCut? then None
      else Some(Malloc(h, nbytes, more).0)
    case Free(b) =>
      if b !in h.live then None
      else
        FreedInv(h, b);
        Some(Released(h.(live := h.live - {b}), b))
  }

  lemma StepInv(h: Heap, a: Action)
    requires Inv(h)
    ensures Step(h, a).Some? ==> Inv(Step(h, a).value)
  {
    match a
    case Allocate(nbytes, more) =>
      if Step(h, a).Some? {
        var (h', o) := Malloc(h, nbytes, more);
        MallocGives(h, nbytes, more, h', o, Block(if o.Given? then o.payload - 1 else 0, Units(nbytes)));
      }
    case Free(b) =>
      if b in h.live {
        FreedInv(h, b);
      }
  }

  ghost function After(run: seq<Action>): (h: Option<Heap>)
    ensures h.Some? ==> Inv(h.value)
  {
    if run == [] then Some(EMPTY)
    else
      var before := After(run[..|run| - 1]);
      if before.None? then None
      else
        StepInv(before.value, run[|run| - 1]);
        Step(before.value, run[|run| - 1])
  }

  /** Over every run: the free list is ascending without adjacent blocks, live blocks lie
      apart from it and from each other, and together they are the units obtained. */
  lemma EveryRun(run: seq<Action>)
    requires After(run).Some?
    ensures var h := After(run).value;
      && (h.free != [] ==> Ordered(h.free) && LiveApart(h))
      && (forall u :: u in h.obtained <==> InFree(h.free, u) || InLive(h.live, u))
      && forall u :: !(InFree(h.free, u) && InLive(h.live, u))
  {
    ApartHeap(After(run).value);
  }

  /** Two runs that leave the same blocks live in the same space leave the same free list,
      in whatever order they freed. */
  lemma HistoryIndependent(run1: seq<Action>, run2: seq<Action>)
    requires After(run1).Some? && After(run2).Some?
    requires After(run1).value.live == After(run2).value.live
    requires After(run1).value.obtained == After(run2).value.obtained
    requires After(run1).value.free != [] && After(run2).value.free != []
    ensures After(run1).value.free == After(run2).value.free
  {
    var g, h := After(run1).value, After(run2).value;
    EveryRun(run1);
    EveryRun(run2);
    forall u ensures InFree(g.free, u) <==> InFree(h.free, u) {
    }
    FreeListUnique(g.free, h.free);
  }

  /** When all blocks have been freed and sbrk's pieces are contiguous, the heap is one block. */
  lemma AllFreed(run: seq<Action>, a: int, n: nat)
    requires After(run).Some? && After(run).value.live == {}
    requires n > 0 && After(run).value.obtained == UnitsOf(Block(a, n)) && a > BASE + 1
    ensures After(run).value.free == [Block(BASE, 0), Block(a, n)]
  {
    var h, g := After(run).value, [Block(BASE, 0), Block(a, n)];
    assert a in UnitsOf(Block(a, n));
    assert Ordered(g);
    forall u ensures InFree(h.free, u) <==> InFree(g, u) {
      assert InFree(g, u) <==> Covers(g[1], u);
      assert u in h.obtained <==> Covers(g[1], u);
    }
    FreeListUnique(h.free, g);
  }

  /** free undoes malloc: the free list is again what it was, unless the heap grew. */
  lemma FreeUndoesMalloc(h: Heap, nbytes: nat, h1: Heap, b: Block)
    requires Inv(h) && nbytes < WORD && b.size == Units(nbytes)
    requires Malloc(h, nbytes, None) == (h1, Given(b.at + 1))
    ensures Inv(h1) && b in h1.live && Step(h1, Free(b)).Some?
    ensures var h2 := Step(h1, Free(b)).value; h2.free == h.free && h2.live == h.live && h2.obtained == h.obtained
  {
    MallocGives(h, nbytes, None, h1, Given(b.at + 1), b);
    FreedInv(h1, b);
    var h2 := Step(h1, Free(b)).value;
    StepInv(h1, Free(b));
    assert h2.live == h.live;
    ApartHeap(h);
    ApartHeap(h2);
    forall u ensures InFree(h.free, u) <==> InFree(h2.free, u) {
    }
    FreeListUnique(h.free, h2.free);
  }

  lemma ApartHeap(h: Heap)
    requires Inv(h)
    ensures forall u :: u in h.obtained <==> InFree(h.free, u) || InLive(h.live, u)
    ensures forall u :: !(InFree(h.free, u) && InLive(h.live, u))
  {
    forall i, b, u | 0 <= i < |h.free| && b in h.live ensures !(Covers(h.free[i], u) && Covers(b, u)) {
      assert Clear(h.free, b);
    }
  }
}

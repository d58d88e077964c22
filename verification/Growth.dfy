/** What a file lacks for a range of its blocks to be written, and which blocks of the disk
    are logged when balloc and bmap supply it. */
module Growth {
  import opened BlockTree
  import opened FreeBlocks

  // ----- Places on the way to a data block -----

  /** l itself and the places of the index blocks above it. */
  function Way(l: Loc): set<Loc>
    decreases Rank(l)
  {
    {l} + if l.Addr? then {} else Way(Parent(l))
  }

  lemma {:induction false} WayUp(l: Loc, m: Loc)
    requires m in Way(l)
    ensures Rank(m) <= Rank(l) && m.i == l.i && (IsData(m) ==> m == l)
    decreases Rank(l)
  {
    if m != l {
      WayUp(Parent(l), m);
    }
  }

  predicate Vacant(fs: Fs, m: Loc) {
    Ref(fs, m) == 0
  }

  /** The places on the way to l that hold no block yet. */
  function Missing(fs: Fs, l: Loc): set<Loc> {
    set m | m in Way(l) && Vacant(fs, m)
  }

  /** Below a place that holds no block there is none that does. */
  lemma {:induction false} MissingBelow(fs: Fs, l: Loc, m: Loc)
    requires m in Way(l) && Ref(fs, l) != 0
    ensures Ref(fs, m) != 0
    decreases Rank(l)
  {
    if m != l {
      MissingBelow(fs, Parent(l), m);
    }
  }

  lemma MissingNext(fs: Fs, l: Loc)
    requires !l.Addr?
    ensures l !in Missing(fs, Parent(l)) && Missing(fs, l) == Missing(fs, Parent(l)) + if Ref(fs, l) == 0 then {l} else {}
  {
    if l in Way(Parent(l)) {
      WayUp(Parent(l), l);
    }
  }

  lemma MissingTop(fs: Fs, l: Loc)
    requires l.Addr?
    ensures Missing(fs, l) == if Ref(fs, l) == 0 then {l} else {}
  {
  }

  lemma MissingCount(fs: Fs, l: Loc)
    ensures |Missing(fs, l)| == (if l.Addr? then 0 else |Missing(fs, Parent(l))|) + if Ref(fs, l) == 0 then 1 else 0
    ensures Ref(fs, l) != 0 ==> Missing(fs, l) == {}
  {
    if l.Addr? {
      MissingTop(fs, l);
    } else {
      MissingNext(fs, l);
    }
    if Ref(fs, l) != 0 {
      forall m | m in Way(l) ensures Ref(fs, m) != 0 {
        MissingBelow(fs, l, m);
      }
    }
  }

  /** The places on the way to blocks lo .. hi - 1 of file i. */
  function Ways(i: nat, lo: nat, hi: nat): set<Loc>
    decreases hi
  {
    if hi <= lo then {} else Ways(i, lo, hi - 1) + Way(DataLoc(i, hi - 1))
  }

  predicate ToBlock(i: nat, lo: nat, hi: nat, m: Loc, bn: nat) {
    lo <= bn < hi && m in Way(DataLoc(i, bn))
  }

  lemma {:induction false} WaysAre(i: nat, lo: nat, hi: nat, m: Loc)
    ensures m in Ways(i, lo, hi) <==> exists bn :: ToBlock(i, lo, hi, m, bn)
    decreases hi
  {
    if lo < hi {
      var last := hi - 1;
      WaysAre(i, lo, last, m);
      if bn: nat :| ToBlock(i, lo, hi, m, bn) {
        assert bn == last || ToBlock(i, lo, last, m, bn);
      }
      if bn: nat :| ToBlock(i, lo, last, m, bn) {
        assert ToBlock(i, lo, hi, m, bn);
      }
      if m in Way(DataLoc(i, last)) {
        assert ToBlock(i, lo, hi, m, last);
      }
    }
  }

  lemma WaysSplit(i: nat, lo: nat, lo2: nat, hi: nat, hi2: nat, m: Loc)
    requires lo <= lo2 <= hi <= hi2
    ensures m in Ways(i, lo, hi2) <==> m in Ways(i, lo, hi) || m in Ways(i, lo2, hi2)
  {
    WaysAre(i, lo, hi2, m);
    WaysAre(i, lo, hi, m);
    WaysAre(i, lo2, hi2, m);
    if bn: nat :| ToBlock(i, lo, hi2, m, bn) {
      assert ToBlock(i, lo, hi, m, bn) || ToBlock(i, lo2, hi2, m, bn);
    }
    if bn: nat :| ToBlock(i, lo, hi, m, bn) {
      assert ToBlock(i, lo, hi2, m, bn);
    }
    if bn: nat :| ToBlock(i, lo2, hi2, m, bn) {
      assert ToBlock(i, lo, hi2, m, bn);
    }
  }

  /** The places on the way to blocks lo .. hi - 1 of file i that hold no block. */
  function MissingIn(fs: Fs, i: nat, lo: nat, hi: nat): set<Loc> {
    set m | m in Ways(i, lo, hi) && Vacant(fs, m)
  }

  // ----- Growing -----

  predicate GrewAt(fs: Fs, fs': Fs, places: set<Loc>, m: Loc) {
    if Ref(fs, m) != 0 then Ref(fs', m) == Ref(fs, m) && m !in places else Ref(fs', m) != 0 <==> m in places
  }

  /** Just the given places, which held none, got blocks: the next ones free. */
  ghost predicate Grew(fs: Fs, fs': Fs, places: set<Loc>) {
    && |places| <= FreeCount(fs.bitmap) && fs'.bitmap == Taken(fs.bitmap, |places|)
    && forall m :: GrewAt(fs, fs', places, m)
  }

  lemma GrewNothing(fs: Fs)
    ensures Grew(fs, fs, {})
  {
  }

  lemma GrewApart(fs: Fs, fs1: Fs, fs2: Fs, places: set<Loc>, more: set<Loc>)
    requires Grew(fs, fs1, places) && Grew(fs1, fs2, more)
    ensures |places + more| == |places| + |more|
  {
    forall m | m in more ensures m !in places {
      assert GrewAt(fs, fs1, places, m) && GrewAt(fs1, fs2, more, m);
    }
    TwoParts(places, more, places + more);
  }

  lemma TwoParts(a: set<Loc>, b: set<Loc>, c: set<Loc>)
    requires forall m :: (m in c <==> m in a || m in b) && !(m in a && m in b)
    ensures c == a + b && |c| == |a| + |b|
  {
    assert a !! b && c == a + b;
  }

  lemma TakenFor(bitmap: seq<bool>, bitmap1: seq<bool>, bitmap2: seq<bool>, p: nat, q: nat)
    requires p <= FreeCount(bitmap) && bitmap1 == Taken(bitmap, p) && q <= FreeCount(bitmap1) && bitmap2 == Taken(bitmap1, q)
    ensures p + q <= FreeCount(bitmap) && bitmap2 == Taken(bitmap, p + q)
  {
    TakenTwice(bitmap, p, q);
    TakenCount(bitmap, p);
  }

  lemma GrewTwice(fs: Fs, fs1: Fs, fs2: Fs, places: set<Loc>, more: set<Loc>, all: set<Loc>)
    requires Grew(fs, fs1, places) && Grew(fs1, fs2, more)
    requires |all| == |places| + |more| && forall m :: m in all <==> m in places || m in more
    ensures Grew(fs, fs2, all)
  {
    TakenFor(fs.bitmap, fs1.bitmap, fs2.bitmap, |places|, |more|);
    forall m ensures GrewAt(fs, fs2, all, m) {
      GrewAtTwice(fs, fs1, fs2, places, more, all, m);
    }
  }

  lemma GrewAtTwice(fs: Fs, fs1: Fs, fs2: Fs, places: set<Loc>, more: set<Loc>, all: set<Loc>, m: Loc)
    requires Grew(fs, fs1, places) && Grew(fs1, fs2, more) && (m in all <==> m in places || m in more)
    ensures GrewAt(fs, fs2, all, m)
  {
    assert GrewAt(fs, fs1, places, m) && GrewAt(fs1, fs2, more, m);
  }

  /** What is still missing for the rest, after part of a range. */
  lemma MissingSplitAt(fs: Fs, fs1: Fs, i: nat, lo: nat, lo2: nat, hi: nat, hi2: nat, m: Loc)
    requires lo <= lo2 <= hi <= hi2 && Grew(fs, fs1, MissingIn(fs, i, lo, hi))
    ensures m in MissingIn(fs, i, lo, hi2) <==> m in MissingIn(fs, i, lo, hi) || m in MissingIn(fs1, i, lo2, hi2)
    ensures !(m in MissingIn(fs, i, lo, hi) && m in MissingIn(fs1, i, lo2, hi2))
  {
    WaysSplit(i, lo, lo2, hi, hi2, m);
    assert GrewAt(fs, fs1, MissingIn(fs, i, lo, hi), m);
  }

  lemma MissingSplit(fs: Fs, fs1: Fs, i: nat, lo: nat, lo2: nat, hi: nat, hi2: nat)
    requires lo <= lo2 <= hi <= hi2 && Grew(fs, fs1, MissingIn(fs, i, lo, hi))
    ensures MissingIn(fs, i, lo, hi2) == MissingIn(fs, i, lo, hi) + MissingIn(fs1, i, lo2, hi2)
    ensures |MissingIn(fs, i, lo, hi2)| == |MissingIn(fs, i, lo, hi)| + |MissingIn(fs1, i, lo2, hi2)|
  {
    var a, b, c := MissingIn(fs, i, lo, hi), MissingIn(fs1, i, lo2, hi2), MissingIn(fs, i, lo, hi2);
    forall m ensures (m in c <==> m in a || m in b) && !(m in a && m in b) {
      MissingSplitAt(fs, fs1, i, lo, lo2, hi, hi2, m);
    }
    TwoParts(a, b, c);
  }

  lemma MissingOne(fs: Fs, i: nat, bn: nat)
    ensures MissingIn(fs, i, bn, bn + 1) == Missing(fs, DataLoc(i, bn))
  {
    assert Ways(i, bn, bn) == {};
    assert Ways(i, bn, bn + 1) == Way(DataLoc(i, bn));
  }

  // ----- The blocks logged -----

  /** A block of file bytes or block numbers; the k-th block of the bitmap, or of inodes. */
  datatype LogBlock = Whole(b: nat) | Bits(k: nat) | Inodes(k: nat)

  const IPB: nat := 8   // inodes of a block

  /** Place m got its block: the block itself, zeroed, the one that now names it, and the
      one with its bit. */
  predicate LoggedFor(fs: Fs, fs': Fs, m: Loc, x: LogBlock) {
    && Ref(fs, m) == 0 && Ref(fs', m) != 0
    && match x
       case Whole(b) => b == Ref(fs', m) || (!m.Addr? && b == Ref(fs', Parent(m)))
       case Bits(k) => k == Ref(fs', m) / 4096
       case Inodes(_) => false
  }

  ghost predicate Allocating(fs: Fs, fs': Fs, x: LogBlock) {
    exists m :: LoggedFor(fs, fs', m, x)
  }

  predicate Kept(fs: Fs, fs': Fs, m: Loc) {
    Ref(fs, m) != 0 ==> Ref(fs', m) == Ref(fs, m)
  }

  lemma AllocatingTwice(fs: Fs, fs1: Fs, fs2: Fs, x: LogBlock)
    requires (forall m :: Kept(fs, fs1, m)) && forall m :: Kept(fs1, fs2, m)
    ensures Allocating(fs, fs2, x) <==> Allocating(fs, fs1, x) || Allocating(fs1, fs2, x)
  {
    if m :| LoggedFor(fs, fs2, m, x) {
      assert Kept(fs, fs1, m) && Kept(fs1, fs2, m) && (!m.Addr? ==> Kept(fs1, fs2, Parent(m)));
      assert LoggedFor(fs, fs1, m, x) || LoggedFor(fs1, fs2, m, x);
    }
    if m :| LoggedFor(fs, fs1, m, x) {
      assert Kept(fs1, fs2, m) && (!m.Addr? ==> Kept(fs1, fs2, Parent(m)));
      assert LoggedFor(fs, fs2, m, x);
    }
    if m :| LoggedFor(fs1, fs2, m, x) {
      assert Kept(fs, fs1, m);
      assert LoggedFor(fs, fs2, m, x);
    }
  }

  lemma NotAllocating(fs: Fs, x: LogBlock)
    ensures !Allocating(fs, fs, x)
  {
  }

  predicate LogAt(log: set<LogBlock>, log': set<LogBlock>, x: LogBlock, more: bool) {
    x in log' <==> x in log || more
  }

  /** What was allocated on the way from fs to fs' has been logged, and nothing else. */
  ghost predicate LogGrew(log: set<LogBlock>, log': set<LogBlock>, fs: Fs, fs': Fs) {
    forall x :: LogAt(log, log', x, Allocating(fs, fs', x))
  }

  predicate SameBytes(fs: Fs, fs': Fs, b: nat) {
    BlockAt(fs', b) == BlockAt(fs, b)
  }

  /** No block changes that is not logged. */
  ghost predicate BlocksKept(fs: Fs, fs': Fs) {
    forall b: nat :: SameBytes(fs, fs', b) || Allocating(fs, fs', Whole(b))
  }

  lemma GrewKept(fs: Fs, fs': Fs, places: set<Loc>)
    requires Grew(fs, fs', places)
    ensures forall m :: Kept(fs, fs', m)
  {
    forall m ensures Kept(fs, fs', m) {
      assert GrewAt(fs, fs', places, m);
    }
  }

  lemma LogGrewTwice(fs: Fs, fs1: Fs, fs2: Fs, log: set<LogBlock>, log1: set<LogBlock>, log2: set<LogBlock>)
    requires (forall m :: Kept(fs, fs1, m)) && forall m :: Kept(fs1, fs2, m)
    requires LogGrew(log, log1, fs, fs1) && LogGrew(log1, log2, fs1, fs2)
    ensures LogGrew(log, log2, fs, fs2)
  {
    forall x ensures LogAt(log, log2, x, Allocating(fs, fs2, x)) {
      AllocatingTwice(fs, fs1, fs2, x);
      assert LogAt(log, log1, x, Allocating(fs, fs1, x)) && LogAt(log1, log2, x, Allocating(fs1, fs2, x));
    }
  }

  lemma BlocksKeptTwice(fs: Fs, fs1: Fs, fs2: Fs)
    requires (forall m :: Kept(fs, fs1, m)) && forall m :: Kept(fs1, fs2, m)
    requires BlocksKept(fs, fs1) && BlocksKept(fs1, fs2)
    ensures BlocksKept(fs, fs2)
  {
    forall b: nat ensures SameBytes(fs, fs2, b) || Allocating(fs, fs2, Whole(b)) {
      AllocatingTwice(fs, fs1, fs2, Whole(b));
      assert SameBytes(fs, fs1, b) || Allocating(fs, fs1, Whole(b));
      assert SameBytes(fs1, fs2, b) || Allocating(fs1, fs2, Whole(b));
    }
  }

  // ----- What bmap does -----

  /** One step: the place l has block b, found there or newly recorded. */
  ghost predicate StepDone(fs: Fs, fs': Fs, l: Loc, b: nat) {
    && Inv(fs') && Extends(fs, fs', l.i) && Ref(fs', l) == b != 0
    && (Ref(fs, l) != 0 ==> fs' == fs)
    && Grew(fs, fs', if Ref(fs, l) == 0 then {l} else {}) && BlocksKept(fs, fs')
  }

  /** All of it: l has block b; nothing changed if it had one before, and otherwise blocks
      were added just at l and at the places on the way to it that held none. */
  ghost predicate Mapped(fs: Fs, fs': Fs, l: Loc, b: nat) {
    && Inv(fs') && Extends(fs, fs', l.i) && Ref(fs', l) == b != 0
    && (Ref(fs, l) != 0 ==> fs' == fs)
    && Grew(fs, fs', Missing(fs, l)) && BlocksKept(fs, fs')
  }

  lemma FoundThere(fs: Fs, l: Loc)
    requires Inv(fs) && Ref(fs, l) != 0
    ensures StepDone(fs, fs, l, Ref(fs, l)) && Extends(fs, fs, l.i)
  {
    forall b: nat ensures SameBytes(fs, fs, b) {
    }
  }

  /** The blocks that one step logs. */
  lemma StepLogs(fs: Fs, fs': Fs, l: Loc, x: LogBlock)
    requires Ref(fs, l) == 0 && Ref(fs', l) != 0 && forall m :: m != l ==> Ref(fs', m) == Ref(fs, m)
    ensures Allocating(fs, fs', x) <==>
      x == Whole(Ref(fs', l)) || x == Bits(Ref(fs', l) / 4096) || (!l.Addr? && x == Whole(Ref(fs, Parent(l))))
  {
    assert !l.Addr? ==> Parent(l) != l;
    assert LoggedFor(fs, fs', l, x) <==>
      x == Whole(Ref(fs', l)) || x == Bits(Ref(fs', l) / 4096) || (!l.Addr? && x == Whole(Ref(fs, Parent(l))));
    forall m | m != l ensures !LoggedFor(fs, fs', m, x) {
    }
  }

  /** A block newly recorded at l. */
  lemma StepNew(fs: Fs, l: Loc, b: nat)
    requires Inv(fs) && Fresh(fs, l, b) && b == Lowest(fs.bitmap)
    ensures Ref(Allocated(fs, b), l) == Ref(fs, l) && (!l.Addr? ==> Ref(Allocated(fs, b), Parent(l)) == Ref(fs, Parent(l)))
    ensures StepDone(fs, AllocatedAt(fs, l, b), l, b) && forall m :: m != l ==> Ref(AllocatedAt(fs, l, b), m) == Ref(fs, m)
  {
    AllocateAt(fs, l, b);
    var fs' := AllocatedAt(fs, l, b);
    StepGrew(fs, fs', l, b);
    StepBytes(fs, fs', l, b);
  }

  lemma StepGrew(fs: Fs, fs': Fs, l: Loc, b: nat)
    requires Inv(fs) && Fresh(fs, l, b) && b == Lowest(fs.bitmap) && fs'.bitmap == fs.bitmap[b := true]
    requires Ref(fs', l) == b && forall m :: m != l ==> Ref(fs', m) == Ref(fs, m)
    ensures Grew(fs, fs', {l})
  {
    FreeCountTaken(fs.bitmap, b);
    assert Taken(fs.bitmap, 0) == fs.bitmap && Taken(fs.bitmap, 1) == fs'.bitmap;
    assert |{l}| == 1;
  }

  lemma StepBytes(fs: Fs, fs': Fs, l: Loc, b: nat)
    requires Inv(fs) && Fresh(fs, l, b)
    requires Ref(Allocated(fs, b), l) == Ref(fs, l) && (!l.Addr? ==> Ref(Allocated(fs, b), Parent(l)) == Ref(fs, Parent(l)))
    requires fs' == AllocatedAt(fs, l, b) && Ref(fs', l) == b && forall m :: m != l ==> Ref(fs', m) == Ref(fs, m)
    ensures BlocksKept(fs, fs')
  {
    forall c: nat ensures SameBytes(fs, fs', c) || Allocating(fs, fs', Whole(c)) {
      StepLogs(fs, fs', l, Whole(c));
    }
  }

  lemma StepMapped(fs: Fs, fs': Fs, l: Loc, b: nat)
    requires l.Addr? && StepDone(fs, fs', l, b)
    ensures Mapped(fs, fs', l, b)
  {
    MissingTop(fs, l);
  }

  /** What is added on the way to l's parent leaves l alone. */
  lemma SameBelow(fs: Fs, fs': Fs, l: Loc, b: nat)
    requires !l.Addr? && Mapped(fs, fs', Parent(l), b)
    ensures Ref(fs', l) == Ref(fs, l)
  {
    MissingNext(fs, l);
    assert GrewAt(fs, fs', Missing(fs, Parent(l)), l);
  }

  lemma Compose(fs: Fs, fs1: Fs, fs2: Fs, l: Loc, p: nat, b: nat)
    requires !l.Addr? && Mapped(fs, fs1, Parent(l), p) && StepDone(fs1, fs2, l, b)
    ensures Mapped(fs, fs2, l, b) && (forall m :: Kept(fs, fs1, m)) && forall m :: Kept(fs1, fs2, m)
  {
    SameBelow(fs, fs1, l, p);
    ExtendsTrans(fs, fs1, fs2, l.i);
    var more := if Ref(fs1, l) == 0 then {l} else {};
    MissingNext(fs, l);
    GrewApart(fs, fs1, fs2, Missing(fs, Parent(l)), more);
    GrewTwice(fs, fs1, fs2, Missing(fs, Parent(l)), more, Missing(fs, l));
    GrewKept(fs, fs1, Missing(fs, Parent(l)));
    GrewKept(fs1, fs2, more);
    BlocksKeptTwice(fs, fs1, fs2);
  }

  /** With no block left, something is missing that cannot be supplied. */
  lemma MissingUp(fs: Fs, l: Loc)
    requires !l.Addr?
    ensures |Missing(fs, Parent(l))| <= |Missing(fs, l)| && (Ref(fs, Parent(l)) == 0 ==> Ref(fs, l) == 0)
    ensures Ref(fs, Parent(l)) == 0 ==> |Missing(fs, l)| > 0
  {
    MissingCount(fs, l);
    MissingCount(fs, Parent(l));
  }
}

/** How many blocks one writei logs: a function of the state before it. */
module WriteCost {
  import opened BlockTree
  import opened FreeBlocks
  import opened Growth
  import opened Param

  /** The index after the last block that n bytes from off on touch. */
  function Through(off: nat, n: nat): (hi: nat)
    ensures off / 512 <= hi
  {
    if n == 0 then off / 512 else (off + n - 1) / 512 + 1
  }

  function DataIn(i: nat, lo: nat, hi: nat): set<Loc>
    decreases hi
  {
    if hi <= lo then {} else DataIn(i, lo, hi - 1) + {DataLoc(i, hi - 1)}
  }

  /** The blocks of block numbers that get an entry. */
  function IndexIn(fs: Fs, i: nat, lo: nat, hi: nat): set<Loc> {
    set m | m in MissingIn(fs, i, lo, hi) && !m.Addr? :: Parent(m)
  }

  /** The number of different blocks that writei logs for n bytes at off: those of the bytes,
      those of block numbers that get an entry, those of the bitmap that have bits set, and
      the inode's if the file gets longer. */
  function Cost(fs: Fs, i: nat, off: nat, n: nat): nat
    requires i < |fs.inodes|
  {
    var lo, hi := off / 512, Through(off, n);
    hi - lo + |IndexIn(fs, i, lo, hi)| + |BitBlocks(fs.bitmap, |MissingIn(fs, i, lo, hi)|)|
    + if off + n > fs.inodes[i].size then 1 else 0
  }

  /** Block b of the disk holds the bytes of block bn of file i. */
  predicate HoldsAt(fs: Fs, i: nat, bn: nat, b: nat) {
    Ref(fs, DataLoc(i, bn)) == b != 0
  }

  ghost predicate HoldsIn(fs: Fs, i: nat, lo: nat, hi: nat, x: LogBlock) {
    x.Whole? && exists bn: nat :: lo <= bn < hi && HoldsAt(fs, i, bn, x.b)
  }

  /** x is logged on the way from fs to fs'. */
  ghost predicate Logs(fs: Fs, fs': Fs, i: nat, lo: nat, hi: nat, x: LogBlock) {
    Allocating(fs, fs', x) || HoldsIn(fs', i, lo, hi, x)
  }

  lemma {:induction false} DataInAre(i: nat, lo: nat, hi: nat, p: Loc)
    ensures p in DataIn(i, lo, hi) <==> exists bn: nat :: lo <= bn < hi && p == DataLoc(i, bn)
    decreases hi
  {
    if lo < hi {
      DataInAre(i, lo, hi - 1, p);
    }
  }

  lemma {:induction false} DataInOthers(i: nat, lo: nat, hi: nat, top: nat)
    requires hi <= top
    ensures DataLoc(i, top) !in DataIn(i, lo, hi)
    decreases hi
  {
    if lo < hi {
      DataInOthers(i, lo, hi - 1, top);
      DataLocInjective(i, hi - 1, top);
    }
  }

  lemma {:induction false} DataInCount(i: nat, lo: nat, hi: nat)
    requires lo <= hi
    ensures |DataIn(i, lo, hi)| == hi - lo
    decreases hi
  {
    if lo < hi {
      DataInCount(i, lo, hi - 1);
      DataInOthers(i, lo, hi - 1, hi - 1);
    }
  }

  /** The next place on the way from m down to l. */
  lemma {:induction false} ChildOnWay(m: Loc, l: Loc) returns (c: Loc)
    requires m in Way(l) && m != l
    ensures !c.Addr? && Parent(c) == m && c in Way(l)
    decreases Rank(l)
  {
    if Parent(l) == m {
      c := l;
      assert l in Way(l);
    } else {
      c := ChildOnWay(m, Parent(l));
    }
  }

  /** A place that is missing and holds no bytes has one below that is missing. */
  lemma MissingIndex(fs: Fs, i: nat, lo: nat, hi: nat, m: Loc)
    requires m in MissingIn(fs, i, lo, hi)
    ensures m in DataIn(i, lo, hi) || m in IndexIn(fs, i, lo, hi)
  {
    WaysAre(i, lo, hi, m);
    var bn :| ToBlock(i, lo, hi, m, bn);
    if m == DataLoc(i, bn) {
      DataInAre(i, lo, hi, m);
    } else {
      var c := ChildOnWay(m, DataLoc(i, bn));
      assert ToBlock(i, lo, hi, c, bn);
      WaysAre(i, lo, hi, c);
      assert Ref(fs, c) == 0;
    }
  }

  function Blocks(fs: Fs, places: set<Loc>): set<LogBlock> {
    set p | p in places :: Whole(Ref(fs, p))
  }

  lemma {:induction false} BlocksCount(fs: Fs, places: set<Loc>)
    requires Inv(fs) && forall p :: p in places ==> Ref(fs, p) != 0
    ensures |Blocks(fs, places)| == |places|
    decreases places
  {
    if p :| p in places {
      var rest := places - {p};
      InvFacts(fs);
      BlocksCount(fs, rest);
      assert Blocks(fs, places) == Blocks(fs, rest) + {Whole(Ref(fs, p))};
      assert Whole(Ref(fs, p)) !in Blocks(fs, rest);
    }
  }

  function BitsOf(ks: set<nat>): set<LogBlock> {
    set k | k in ks :: Bits(k)
  }

  lemma {:induction false} BitsCount(ks: set<nat>)
    ensures |BitsOf(ks)| == |ks|
    decreases ks
  {
    if k :| k in ks {
      BitsCount(ks - {k});
      assert BitsOf(ks) == BitsOf(ks - {k}) + {Bits(k)};
    }
  }

  ghost predicate Allocates(fs: Fs, fs': Fs, places: set<Loc>) {
    Inv(fs) && Inv(fs') && Grew(fs, fs', places) && forall b: nat :: Stray(fs', b) <==> Stray(fs, b)
  }

  /** Newly marked blocks are those recorded at the new places. */
  lemma NewlyMarked(fs: Fs, fs': Fs, places: set<Loc>, c: nat)
    requires Allocates(fs, fs', places)
    ensures SetBy(fs.bitmap, |places|, c) <==> exists m :: m in places && Ref(fs', m) == c
  {
    if SetBy(fs.bitmap, |places|, c) {
      assert !Stray(fs', c) by { assert !Stray(fs, c); }
      var m :| Ref(fs', m) == c;
      assert GrewAt(fs, fs', places, m);
    }
    if m :| m in places && Ref(fs', m) == c {
      assert GrewAt(fs, fs', places, m) && Ref(fs, m) == 0 && c != 0;
      forall m' ensures Ref(fs, m') != c {
        assert GrewAt(fs, fs', places, m') && Separate(fs', m, m');
      }
      assert !Stray(fs', c) && !Stray(fs, c);
    }
  }

  lemma BitsLogged(fs: Fs, fs': Fs, places: set<Loc>, k: nat)
    requires Allocates(fs, fs', places)
    ensures Allocating(fs, fs', Bits(k)) <==> k in BitBlocks(fs.bitmap, |places|)
  {
    BitBlocksAre(fs.bitmap, |places|, k);
    if m :| LoggedFor(fs, fs', m, Bits(k)) {
      assert GrewAt(fs, fs', places, m);
      NewlyMarked(fs, fs', places, Ref(fs', m));
      assert SetIn(fs.bitmap, |places|, k, Ref(fs', m));
    }
    if c :| SetIn(fs.bitmap, |places|, k, c) {
      NewlyMarked(fs, fs', places, c);
      var m :| m in places && Ref(fs', m) == c;
      assert GrewAt(fs, fs', places, m);
      assert LoggedFor(fs, fs', m, Bits(k));
    }
  }

  lemma PlacesHeld(fs: Fs, fs': Fs, i: nat, lo: nat, hi: nat)
    requires Grew(fs, fs', MissingIn(fs, i, lo, hi))
    ensures forall p :: p in DataIn(i, lo, hi) + IndexIn(fs, i, lo, hi) ==> Ref(fs', p) != 0
  {
    forall p | p in DataIn(i, lo, hi) + IndexIn(fs, i, lo, hi) ensures Ref(fs', p) != 0 {
      if p in DataIn(i, lo, hi) {
        DataInAre(i, lo, hi, p);
        var bn: nat :| lo <= bn < hi && p == DataLoc(i, bn);
        assert p in Way(p) && ToBlock(i, lo, hi, p, bn);
        WaysAre(i, lo, hi, p);
        assert GrewAt(fs, fs', MissingIn(fs, i, lo, hi), p);
      } else {
        var m :| m in MissingIn(fs, i, lo, hi) && !m.Addr? && Parent(m) == p;
        assert GrewAt(fs, fs', MissingIn(fs, i, lo, hi), m);
      }
    }
  }

  lemma WholesLogged(fs: Fs, fs': Fs, i: nat, lo: nat, hi: nat, b: nat)
    requires Grew(fs, fs', MissingIn(fs, i, lo, hi))
    ensures Logs(fs, fs', i, lo, hi, Whole(b)) <==> Whole(b) in Blocks(fs', DataIn(i, lo, hi) + IndexIn(fs, i, lo, hi))
  {
    var data, index, missing := DataIn(i, lo, hi), IndexIn(fs, i, lo, hi), MissingIn(fs, i, lo, hi);
    if m :| LoggedFor(fs, fs', m, Whole(b)) {
      assert GrewAt(fs, fs', missing, m);
      MissingIndex(fs, i, lo, hi, m);
    }
    if bn: nat :| lo <= bn < hi && HoldsAt(fs', i, bn, b) {
      DataInAre(i, lo, hi, DataLoc(i, bn));
    }
    if Whole(b) in Blocks(fs', data + index) {
      WholesLoggedBack(fs, fs', i, lo, hi, b);
    }
  }

  lemma WholesLoggedBack(fs: Fs, fs': Fs, i: nat, lo: nat, hi: nat, b: nat)
    requires Grew(fs, fs', MissingIn(fs, i, lo, hi))
    requires Whole(b) in Blocks(fs', DataIn(i, lo, hi) + IndexIn(fs, i, lo, hi))
    ensures Logs(fs, fs', i, lo, hi, Whole(b))
  {
    PlacesHeld(fs, fs', i, lo, hi);
    var p :| p in DataIn(i, lo, hi) + IndexIn(fs, i, lo, hi) && Ref(fs', p) == b;
    if p in DataIn(i, lo, hi) {
      DataInAre(i, lo, hi, p);
      var bn: nat :| lo <= bn < hi && p == DataLoc(i, bn);
      assert HoldsAt(fs', i, bn, b);
    } else {
      var m :| m in MissingIn(fs, i, lo, hi) && !m.Addr? && Parent(m) == p;
      assert GrewAt(fs, fs', MissingIn(fs, i, lo, hi), m);
      assert LoggedFor(fs, fs', m, Whole(b));
    }
  }

  /** The blocks logged, by kind. */
  function Parts(fs: Fs, fs': Fs, i: nat, lo: nat, hi: nat, longer: bool): set<LogBlock> {
    Blocks(fs', DataIn(i, lo, hi) + IndexIn(fs, i, lo, hi)) + BitsOf(BitBlocks(fs.bitmap, |MissingIn(fs, i, lo, hi)|))
    + if longer then {Inodes(i / 8)} else {}
  }

  lemma WholesCount(fs: Fs, fs': Fs, i: nat, lo: nat, hi: nat)
    requires lo <= hi && Inv(fs') && Grew(fs, fs', MissingIn(fs, i, lo, hi))
    ensures |Blocks(fs', DataIn(i, lo, hi) + IndexIn(fs, i, lo, hi))| == hi - lo + |IndexIn(fs, i, lo, hi)|
  {
    var data, index := DataIn(i, lo, hi), IndexIn(fs, i, lo, hi);
    PlacesHeld(fs, fs', i, lo, hi);
    BlocksCount(fs', data + index);
    DataInCount(i, lo, hi);
    DataIndexApart(fs, i, lo, hi);
    assert |data + index| == |data| + |index|;
  }

  lemma PartsCount(a: set<LogBlock>, b: set<LogBlock>, c: set<LogBlock>)
    requires (forall x :: x in a ==> x.Whole?) && (forall x :: x in b ==> x.Bits?) && forall x :: x in c ==> x.Inodes?
    ensures |a + b + c| == |a| + |b| + |c|
  {
    assert a !! b && (a + b) !! c;
  }

  /** The number of blocks logged is a function of the state before. */
  lemma LoggedCount(fs: Fs, fs': Fs, i: nat, lo: nat, hi: nat, longer: bool, logged: set<LogBlock>)
    requires lo <= hi && Allocates(fs, fs', MissingIn(fs, i, lo, hi))
    requires forall x :: x in logged <==> Logs(fs, fs', i, lo, hi, x) || (longer && x == Inodes(i / 8))
    ensures |logged| == hi - lo + |IndexIn(fs, i, lo, hi)| + |BitBlocks(fs.bitmap, |MissingIn(fs, i, lo, hi)|)| + if longer then 1 else 0
  {
    forall x ensures x in logged <==> x in Parts(fs, fs', i, lo, hi, longer) {
      LoggedIn(fs, fs', i, lo, hi, x);
    }
    assert logged == Parts(fs, fs', i, lo, hi, longer);
    WholesCount(fs, fs', i, lo, hi);
    var ks := BitBlocks(fs.bitmap, |MissingIn(fs, i, lo, hi)|);
    BitsCount(ks);
    PartsCount(Blocks(fs', DataIn(i, lo, hi) + IndexIn(fs, i, lo, hi)), BitsOf(ks), if longer then {Inodes(i / 8)} else {});
  }

  lemma LoggedIn(fs: Fs, fs': Fs, i: nat, lo: nat, hi: nat, x: LogBlock)
    requires Allocates(fs, fs', MissingIn(fs, i, lo, hi))
    ensures Logs(fs, fs', i, lo, hi, x) <==>
      x in Blocks(fs', DataIn(i, lo, hi) + IndexIn(fs, i, lo, hi)) || x in BitsOf(BitBlocks(fs.bitmap, |MissingIn(fs, i, lo, hi)|))
  {
    match x
    case Whole(b) => WholesLogged(fs, fs', i, lo, hi, b);
    case Bits(k) => BitsLogged(fs, fs', MissingIn(fs, i, lo, hi), k);
    case Inodes(_) =>
  }

  lemma DataIndexApart(fs: Fs, i: nat, lo: nat, hi: nat)
    ensures DataIn(i, lo, hi) !! IndexIn(fs, i, lo, hi)
  {
    forall p | p in DataIn(i, lo, hi) ensures p !in IndexIn(fs, i, lo, hi) {
      DataInAre(i, lo, hi, p);
      assert IsData(p);
    }
  }

  // ----- When the reserve of begin_op is enough -----

  lemma IndexIsOn(fs: Fs, i: nat, lo: nat, hi: nat, p: Loc) returns (bn: nat)
    requires p in IndexIn(fs, i, lo, hi)
    ensures lo <= bn < hi && (p == Addr(i, NDIRECT) ==> NDIRECT <= bn < 139)
    ensures p == Addr(i, NDIRECT) || (bn >= 139 && (p == Addr(i, NDIRECT + 1) || p == Dbl(i, (bn - 139) / 128)))
  {
    var m :| m in MissingIn(fs, i, lo, hi) && !m.Addr? && Parent(m) == p;
    WaysAre(i, lo, hi, m);
    bn :| ToBlock(i, lo, hi, m, bn);
    WayCases(m, DataLoc(i, bn));
  }

  lemma WayCases(m: Loc, l: Loc)
    requires m in Way(l)
    ensures m == l || (!l.Addr? && (m == Parent(l) || (!Parent(l).Addr? && m == Parent(Parent(l)))))
  {
    if m != l && m != Parent(l) {
      assert m in Way(Parent(Parent(l)));
      assert Parent(Parent(l)).Addr?;
    }
  }

  /** Five blocks in a row lie below three blocks of block numbers at most. */
  lemma IndexFew(fs: Fs, i: nat, lo: nat, hi: nat)
    requires hi <= lo + 5
    ensures |IndexIn(fs, i, lo, hi)| <= 3
  {
    var j := if lo < 139 then 0 else (lo - 139) / 128;
    var few := if hi <= 139 then {Addr(i, NDIRECT)} else {Dbl(i, j), Addr(i, NDIRECT + 1), if lo < 139 then Addr(i, NDIRECT) else Dbl(i, j + 1)};
    forall p | p in IndexIn(fs, i, lo, hi) ensures p in few {
      var bn := IndexIsOn(fs, i, lo, hi, p);
      assert bn >= 139 ==> (bn - 139) / 128 == j || (lo >= 139 && (bn - 139) / 128 == j + 1);
    }
    Fewer(IndexIn(fs, i, lo, hi), few);
  }

  lemma {:induction false} Fewer<T>(a: set<T>, b: set<T>)
    requires a <= b
    ensures |a| <= |b|
    decreases a
  {
    if x :| x in a {
      Fewer(a - {x}, b - {x});
    }
  }

  /** On an image of one bitmap block a write that touches at most five blocks never logs more
      than MAXOPBLOCKS; one that touches more than MAXOPBLOCKS always does. In between it
      depends on what is missing. */
  lemma CostBounds(fs: Fs, i: nat, off: nat, n: nat)
    requires i < |fs.inodes|
    ensures |fs.bitmap| <= BPB && Through(off, n) - off / 512 <= 5 ==> Cost(fs, i, off, n) <= MAXOPBLOCKS
    ensures Through(off, n) - off / 512 > MAXOPBLOCKS ==> Cost(fs, i, off, n) > MAXOPBLOCKS
  {
    var lo, hi := off / 512, Through(off, n);
    if |fs.bitmap| <= BPB && hi - lo <= 5 {
      IndexFew(fs, i, lo, hi);
      OneBitBlock(fs.bitmap, |MissingIn(fs, i, lo, hi)|);
      Fewer(BitBlocks(fs.bitmap, |MissingIn(fs, i, lo, hi)|), {0});
    }
  }
}

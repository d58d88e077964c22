/** writei's loop as far as the log is concerned: which blocks it has logged, and that no
    other block of the disk has changed. */
module WriteLog {
  import opened BlockTree
  import opened FileBytes
  import opened FreeBlocks
  import opened Growth
  import opened WriteCost

  ghost predicate BytesKept(fs: Fs, fs': Fs, i: nat, lo: nat, hi: nat, b: nat) {
    SameBytes(fs, fs', b) || Logs(fs, fs', i, lo, hi, Whole(b))
  }

  /** Blocks lo .. hi - 1 of file i have been supplied and written. */
  ghost predicate WroteBlocks(fs: Fs, fs': Fs, i: nat, lo: nat, hi: nat, log: set<LogBlock>, log': set<LogBlock>) {
    && Grew(fs, fs', MissingIn(fs, i, lo, hi))
    && (forall x :: LogAt(log, log', x, Logs(fs, fs', i, lo, hi, x)))
    && forall b: nat :: BytesKept(fs, fs', i, lo, hi, b)
  }

  lemma WroteNone(fs: Fs, i: nat, lo: nat, log: set<LogBlock>)
    ensures WroteBlocks(fs, fs, i, lo, lo, log, log)
  {
    forall x ensures LogAt(log, log, x, Logs(fs, fs, i, lo, lo, x)) {
      NotAllocating(fs, x);
    }
    forall b: nat ensures BytesKept(fs, fs, i, lo, lo, b) {
      assert SameBytes(fs, fs, b);
    }
  }

  /** A block is there for each index dealt with. */
  lemma HeldBelow(fs: Fs, fs': Fs, i: nat, lo: nat, hi: nat, bn: nat)
    requires Grew(fs, fs', MissingIn(fs, i, lo, hi)) && lo <= bn < hi
    ensures Ref(fs', DataLoc(i, bn)) != 0
  {
    PlacesHeld(fs, fs', i, lo, hi);
    DataInAre(i, lo, hi, DataLoc(i, bn));
  }

  /** Blocks held stay held where they are. */
  lemma HoldsStep(fs: Fs, fs1: Fs, fs2: Fs, i: nat, lo: nat, bn: nat, b: nat, x: LogBlock)
    requires Grew(fs, fs1, MissingIn(fs, i, lo, bn)) && lo <= bn
    requires (forall m :: Kept(fs1, fs2, m)) && HoldsAt(fs2, i, bn, b)
    ensures HoldsIn(fs2, i, lo, bn + 1, x) <==> HoldsIn(fs1, i, lo, bn, x) || x == Whole(b)
  {
    if x.Whole? {
      forall n: nat | lo <= n < bn ensures HoldsAt(fs1, i, n, x.b) <==> HoldsAt(fs2, i, n, x.b) {
        HeldBelow(fs, fs1, i, lo, bn, n);
        assert Kept(fs1, fs2, DataLoc(i, n));
      }
      if n: nat :| lo <= n < bn + 1 && HoldsAt(fs2, i, n, x.b) {
        assert n == bn || HoldsAt(fs1, i, n, x.b);
      }
      if n: nat :| lo <= n < bn && HoldsAt(fs1, i, n, x.b) {
        assert HoldsAt(fs2, i, n, x.b);
      }
    }
  }

  lemma LogsStep(fs: Fs, fs1: Fs, fs2: Fs, i: nat, lo: nat, bn: nat, b: nat, x: LogBlock)
    requires Grew(fs, fs1, MissingIn(fs, i, lo, bn)) && lo <= bn
    requires (forall m :: Kept(fs, fs1, m)) && (forall m :: Kept(fs1, fs2, m)) && HoldsAt(fs2, i, bn, b)
    ensures Logs(fs, fs2, i, lo, bn + 1, x) <==> Logs(fs, fs1, i, lo, bn, x) || Allocating(fs1, fs2, x) || x == Whole(b)
  {
    AllocatingTwice(fs, fs1, fs2, x);
    HoldsStep(fs, fs1, fs2, i, lo, bn, b, x);
  }

  lemma GrewStep(fs: Fs, fs1: Fs, fs2: Fs, i: nat, lo: nat, bn: nat)
    requires Grew(fs, fs1, MissingIn(fs, i, lo, bn)) && lo <= bn && Grew(fs1, fs2, Missing(fs1, DataLoc(i, bn)))
    ensures Grew(fs, fs2, MissingIn(fs, i, lo, bn + 1))
  {
    MissingSplit(fs, fs1, i, lo, bn, bn, bn + 1);
    MissingOne(fs1, i, bn);
    GrewTwice(fs, fs1, fs2, MissingIn(fs, i, lo, bn), Missing(fs1, DataLoc(i, bn)), MissingIn(fs, i, lo, bn + 1));
  }

  /** bmap of the next block. */
  lemma WroteMapped(fs: Fs, fs1: Fs, fs2: Fs, i: nat, lo: nat, bn: nat, b: nat, log: set<LogBlock>, log1: set<LogBlock>, log2: set<LogBlock>)
    requires WroteBlocks(fs, fs1, i, lo, bn, log, log1) && lo <= bn
    requires Mapped(fs1, fs2, DataLoc(i, bn), b) && LogGrew(log1, log2, fs1, fs2)
    ensures WroteBlocks(fs, fs2, i, lo, bn + 1, log, log2 + {Whole(b)})
  {
    GrewKept(fs, fs1, MissingIn(fs, i, lo, bn));
    GrewKept(fs1, fs2, Missing(fs1, DataLoc(i, bn)));
    GrewStep(fs, fs1, fs2, i, lo, bn);
    var next := bn + 1;
    forall x ensures LogAt(log, log2 + {Whole(b)}, x, Logs(fs, fs2, i, lo, next, x)) {
      LogsStep(fs, fs1, fs2, i, lo, bn, b, x);
      assert LogAt(log, log1, x, Logs(fs, fs1, i, lo, bn, x)) && LogAt(log1, log2, x, Allocating(fs1, fs2, x));
    }
    forall c: nat ensures BytesKept(fs, fs2, i, lo, next, c) {
      LogsStep(fs, fs1, fs2, i, lo, bn, b, Whole(c));
      assert BytesKept(fs, fs1, i, lo, bn, c);
      assert SameBytes(fs1, fs2, c) || Allocating(fs1, fs2, Whole(c));
    }
  }

  /** Nothing moves, and only logged blocks change: then no more is logged. */
  lemma WroteSameRefs(fs: Fs, fs1: Fs, fs2: Fs, i: nat, lo: nat, hi: nat, log: set<LogBlock>, log': set<LogBlock>)
    requires WroteBlocks(fs, fs1, i, lo, hi, log, log')
    requires fs2.bitmap == fs1.bitmap && forall m :: Ref(fs2, m) == Ref(fs1, m)
    requires forall b: nat :: SameBytes(fs1, fs2, b) || Logs(fs, fs1, i, lo, hi, Whole(b))
    ensures WroteBlocks(fs, fs2, i, lo, hi, log, log')
  {
    forall m ensures GrewAt(fs, fs2, MissingIn(fs, i, lo, hi), m) {
      assert GrewAt(fs, fs1, MissingIn(fs, i, lo, hi), m);
    }
    forall x ensures Logs(fs, fs2, i, lo, hi, x) <==> Logs(fs, fs1, i, lo, hi, x) {
      LogsSame(fs, fs1, fs2, i, lo, hi, x);
    }
    forall x ensures LogAt(log, log', x, Logs(fs, fs2, i, lo, hi, x)) {
      assert LogAt(log, log', x, Logs(fs, fs1, i, lo, hi, x));
    }
    forall b: nat ensures BytesKept(fs, fs2, i, lo, hi, b) {
      assert BytesKept(fs, fs1, i, lo, hi, b);
      assert SameBytes(fs1, fs2, b) || Logs(fs, fs1, i, lo, hi, Whole(b));
    }
  }

  /** A chunk written into the block just supplied. */
  lemma WroteChunk(fs: Fs, fs1: Fs, fs2: Fs, i: nat, lo: nat, bn: nat, b: nat, log: set<LogBlock>, log': set<LogBlock>)
    requires WroteBlocks(fs, fs1, i, lo, bn + 1, log, log') && lo <= bn && HoldsAt(fs1, i, bn, b)
    requires fs2.bitmap == fs1.bitmap && (forall m :: Ref(fs2, m) == Ref(fs1, m)) && forall c: nat :: c != b ==> SameBytes(fs1, fs2, c)
    ensures WroteBlocks(fs, fs2, i, lo, bn + 1, log, log')
  {
    assert HoldsIn(fs1, i, lo, bn + 1, Whole(b));
    forall c: nat ensures SameBytes(fs1, fs2, c) || Logs(fs, fs1, i, lo, bn + 1, Whole(c)) {
      assert c == b || SameBytes(fs1, fs2, c);
    }
    WroteSameRefs(fs, fs1, fs2, i, lo, bn + 1, log, log');
  }

  lemma LogsSame(fs: Fs, fs1: Fs, fs2: Fs, i: nat, lo: nat, hi: nat, x: LogBlock)
    requires forall m :: Ref(fs2, m) == Ref(fs1, m)
    ensures Logs(fs, fs2, i, lo, hi, x) <==> Logs(fs, fs1, i, lo, hi, x)
  {
    forall m ensures LoggedFor(fs, fs2, m, x) <==> LoggedFor(fs, fs1, m, x) {
    }
    if x.Whole? {
      forall bn: nat ensures HoldsAt(fs2, i, bn, x.b) <==> HoldsAt(fs1, i, bn, x.b) {
      }
    }
  }

  // ----- What stays as it was on the disk -----

  predicate SameInode(fs: Fs, fs': Fs, j: nat) {
    j < |fs.inodes| && j < |fs'.inodes| ==> fs'.inodes[j] == fs.inodes[j]
  }

  predicate SameBit(fs: Fs, fs': Fs, c: nat) {
    c < |fs.bitmap| && c < |fs'.bitmap| ==> fs'.bitmap[c] == fs.bitmap[c]
  }

  /** A block of the image holds the same in both, iupdate being up to date. */
  ghost predicate SameBlock(fs: Fs, fs': Fs, x: LogBlock) {
    match x
    case Whole(b) => SameBytes(fs, fs', b)
    case Bits(k) => forall c: nat :: c / 4096 == k ==> SameBit(fs, fs', c)
    case Inodes(k) => forall j: nat :: j / 8 == k ==> SameInode(fs, fs', j)
  }

  /** The image is of the same size, and only logged blocks differ. */
  ghost predicate ChangedOnly(fs: Fs, fs': Fs, log: set<LogBlock>) {
    && |fs'.bitmap| == |fs.bitmap| && |fs'.disk| == |fs.disk| && |fs'.inodes| == |fs.inodes|
    && forall x :: x !in log ==> SameBlock(fs, fs', x)
  }

  predicate HeldAt(fs: Fs, m: Loc, b: nat) {
    Ref(fs, m) == b != 0
  }

  /** The blocks an operation may log: those of files, of the bitmap and of inodes. */
  ghost predicate Owned(fs: Fs, x: LogBlock) {
    match x
    case Whole(b) => exists m :: HeldAt(fs, m, b)
    case Bits(k) => k * 4096 < |fs.bitmap|
    case Inodes(k) => k * 8 < |fs.inodes|
  }

  lemma LogsOwned(fs: Fs, fs': Fs, i: nat, lo: nat, hi: nat, x: LogBlock)
    requires Inv(fs') && Logs(fs, fs', i, lo, hi, x)
    ensures Owned(fs', x)
  {
    if m :| LoggedFor(fs, fs', m, x) {
      assert x.Whole? ==> HeldAt(fs', m, x.b) || (!m.Addr? && HeldAt(fs', Parent(m), x.b));
    } else {
      var bn: nat :| lo <= bn < hi && HoldsAt(fs', i, bn, x.b);
      assert HeldAt(fs', DataLoc(i, bn), x.b);
    }
  }

  lemma OwnedSized(fs: Fs, i: nat, size: nat, x: LogBlock)
    requires i < |fs.inodes| && Owned(fs, x)
    ensures Owned(Sized(fs, i, size), x)
  {
    if x.Whole? {
      var m :| HeldAt(fs, m, x.b);
      SizedRef(fs, i, size, m);
      assert HeldAt(Sized(fs, i, size), m, x.b);
    }
  }

  lemma ChangedTwice(fs: Fs, fs1: Fs, fs2: Fs, log: set<LogBlock>, log': set<LogBlock>)
    requires ChangedOnly(fs, fs1, log) && ChangedOnly(fs1, fs2, log')
    ensures ChangedOnly(fs, fs2, log + log')
  {
    forall x | x !in log + log' ensures SameBlock(fs, fs2, x) {
      assert SameBlock(fs, fs1, x) && SameBlock(fs1, fs2, x);
      match x
      case Whole(b) => assert SameBytes(fs, fs1, b);
      case Bits(k) =>
        forall c: nat | c / 4096 == k ensures SameBit(fs, fs2, c) {
          assert SameBit(fs, fs1, c) && SameBit(fs1, fs2, c);
        }
      case Inodes(k) =>
        forall j: nat | j / 8 == k ensures SameInode(fs, fs2, j) {
          assert SameInode(fs, fs1, j) && SameInode(fs1, fs2, j);
        }
    }
  }

  /** A bit that changed lies in a block logged. */
  lemma BitKept(fs: Fs, fs': Fs, places: set<Loc>, c: nat)
    requires Allocates(fs, fs', places) && !Allocating(fs, fs', Bits(c / 4096))
    ensures SameBit(fs, fs', c)
  {
    if c < |fs.bitmap| && fs'.bitmap[c] != fs.bitmap[c] {
      if fs.bitmap[c] {
        TakenKeeps(fs.bitmap, |places|, c);
      }
      assert SetIn(fs.bitmap, |places|, c / 4096, c);
      BitBlocksAre(fs.bitmap, |places|, c / 4096);
      BitsLogged(fs, fs', places, c / 4096);
    }
  }

  lemma FramedAllocates(fs: Fs, fs1: Fs, i: nat, places: set<Loc>)
    requires i < |fs.inodes| && Inv(fs) && Framed(fs, fs1, i) && Grew(fs, fs1, places)
    ensures Allocates(fs, fs1, places)
  {
    forall b: nat ensures Stray(fs1, b) <==> Stray(fs, b) {
      assert StraySame(fs, fs1, b);
    }
  }

  lemma InodesKept(fs: Fs, fs1: Fs, i: nat, size: nat, j: nat)
    requires i < |fs.inodes| && Framed(fs, fs1, i) && (j == i ==> size == fs.inodes[i].size && fs1.inodes == fs.inodes)
    ensures SameInode(fs, Sized(fs1, i, size), j)
  {
    assert OtherInode(fs, fs1, i, j);
  }

  /** All of writei: the blocks written, and then the size if the file got longer. */
  lemma WroteChanged(fs: Fs, fs1: Fs, fs': Fs, i: nat, lo: nat, hi: nat, size: nat, log: set<LogBlock>, log1: set<LogBlock>, log': set<LogBlock>)
    requires i < |fs.inodes| && Inv(fs) && Framed(fs, fs1, i) && WroteBlocks(fs, fs1, i, lo, hi, log, log1)
    requires fs' == Sized(fs1, i, size) && log' == (if size == fs.inodes[i].size then log1 else log1 + {Inodes(i / 8)})
    requires size == fs.inodes[i].size ==> fs1.inodes == fs.inodes
    ensures ChangedOnly(fs, fs', log')
  {
    forall x | x !in log' ensures SameBlock(fs, fs', x) {
      assert LogAt(log, log1, x, Logs(fs, fs1, i, lo, hi, x));
      match x
      case Whole(b) => assert BytesKept(fs, fs1, i, lo, hi, b);
      case Bits(k) => BitsKept(fs, fs1, fs', i, lo, hi, k);
      case Inodes(k) =>
        forall j: nat | j / 8 == k ensures SameInode(fs, fs', j) {
          InodesKept(fs, fs1, i, size, j);
        }
    }
  }

  lemma BitsKept(fs: Fs, fs1: Fs, fs': Fs, i: nat, lo: nat, hi: nat, k: nat)
    requires i < |fs.inodes| && Inv(fs) && Framed(fs, fs1, i) && Grew(fs, fs1, MissingIn(fs, i, lo, hi))
    requires !Allocating(fs, fs1, Bits(k)) && fs'.bitmap == fs1.bitmap
    ensures SameBlock(fs, fs', Bits(k))
  {
    FramedAllocates(fs, fs1, i, MissingIn(fs, i, lo, hi));
    forall c: nat | c / 4096 == k ensures SameBit(fs, fs', c) {
      BitKept(fs, fs1, MissingIn(fs, i, lo, hi), c);
      assert SameBit(fs, fs1, c);
    }
  }

  /** What writei logs is its own. */
  lemma WroteOwned(fs: Fs, fs1: Fs, fs': Fs, i: nat, lo: nat, hi: nat, size: nat, log: set<LogBlock>, log1: set<LogBlock>, log': set<LogBlock>)
    requires i < |fs.inodes| && Framed(fs, fs1, i) && WroteBlocks(fs, fs1, i, lo, hi, log, log1)
    requires fs' == Sized(fs1, i, size) && forall x :: x in log' ==> x in log1 || x == Inodes(i / 8)
    ensures forall x :: x in log' ==> x in log || Owned(fs', x)
  {
    forall x | x in log' && x !in log ensures Owned(fs', x) {
      if x in log1 {
        assert LogAt(log, log1, x, Logs(fs, fs1, i, lo, hi, x));
        LogsOwned(fs, fs1, i, lo, hi, x);
        OwnedSized(fs1, i, size, x);
      }
    }
  }

  /** The blocks that were not logged before. */
  lemma WroteCount(fs: Fs, fs1: Fs, i: nat, off: nat, n: nat, log: set<LogBlock>)
    requires i < |fs.inodes| && Inv(fs) && Framed(fs, fs1, i) && WroteBlocks(fs, fs1, i, off / 512, Through(off, n), {}, log)
    ensures |if off + n > fs.inodes[i].size then log + {Inodes(i / 8)} else log| == Cost(fs, i, off, n)
  {
    var lo, hi, longer := off / 512, Through(off, n), off + n > fs.inodes[i].size;
    var log' := if longer then log + {Inodes(i / 8)} else log;
    forall x ensures x in log' <==> Logs(fs, fs1, i, lo, hi, x) || (longer && x == Inodes(i / 8)) {
      assert LogAt({}, log, x, Logs(fs, fs1, i, lo, hi, x));
    }
    FramedAllocates(fs, fs1, i, MissingIn(fs, i, lo, hi));
    LoggedCount(fs, fs1, i, lo, hi, longer, log');
  }
}

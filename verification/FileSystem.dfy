/** Blocks and inode contents: balloc, bfree, bmap, itrunc, readi and writei, acting in place
    on the bitmap, the blocks and the inodes. */
module FileSystem {
  import opened BlockTree
  import opened FileBytes
  import opened FreeBlocks
  import opened Growth
  import opened Options
  import opened Truncate
  import opened WriteCost
  import opened WriteLog

  lemma {:induction false} NoRef(fs: Fs, l: Loc)
    requires forall i, k :: 0 <= i < |fs.inodes| && 0 <= k < |fs.inodes[i].addrs| ==> fs.inodes[i].addrs[k] == 0
    ensures Ref(fs, l) == 0
    decreases Rank(l)
  {
    if !l.Addr? {
      NoRef(fs, Parent(l));
    }
  }

  lemma SliceJoin(s: seq<Byte>, a: nat, b: nat, c: nat)
    requires a <= b <= c <= |s|
    ensures s[a..b] + s[b..c] == s[a..c]
  {
  }

  /** A byte within the size lies in a block that is there. */
  lemma BlockOf(fs: Fs, i: nat, o: nat, bn: nat)
    requires Sound(fs) && i < |fs.inodes| && o < fs.inodes[i].size && bn == o / 512
    ensures bn < MAXFILE && Ref(fs, DataLoc(i, bn)) != 0
  {
    assert bn * 512 < fs.inodes[i].size && Backed(fs, i, fs.inodes[i].size);
  }

  lemma ReadChunk(fs: Fs, i: nat, o: nat, m: nat, b: nat)
    requires i < |fs.inodes| && o + m <= fs.inodes[i].size && o % 512 + m <= BSIZE
    requires b < |fs.disk| && b == Ref(fs, DataLoc(i, o / 512))
    ensures fs.disk[b][o % 512..o % 512 + m] == Content(fs, i)[o..o + m]
  {
    var x, y := fs.disk[b][o % 512..o % 512 + m], Content(fs, i)[o..o + m];
    forall k | 0 <= k < m ensures x[k] == y[k] {
      assert (o + k) / 512 == o / 512 && (o + k) % 512 == o % 512 + k;
    }
  }

  /** Bits changed since b0 lie in logged blocks, and nothing else has been logged since log0. */
  ghost predicate BitsCleared(b0: seq<bool>, b1: seq<bool>, log0: set<LogBlock>, log: set<LogBlock>) {
    && |b1| == |b0| && log0 <= log && (forall x :: x in log ==> x in log0 || BitsWithin(b0, x))
    && forall c: nat :: BitLogged(b0, b1, log, c)
  }

  predicate BitsWithin(b0: seq<bool>, x: LogBlock) {
    x.Bits? && x.k * 4096 < |b0|
  }

  predicate BitLogged(b0: seq<bool>, b1: seq<bool>, log: set<LogBlock>, c: nat) {
    c < |b0| && c < |b1| && b0[c] != b1[c] ==> Bits(c / 4096) in log
  }

  lemma ClearedMore(b0: seq<bool>, b1: seq<bool>, log0: set<LogBlock>, log: set<LogBlock>, e: nat)
    requires BitsCleared(b0, b1, log0, log) && e < |b1|
    ensures BitsCleared(b0, b1[e := false], log0, log + {Bits(e / 4096)})
  {
    var b2, log2 := b1[e := false], log + {Bits(e / 4096)};
    forall c: nat ensures BitLogged(b0, b2, log2, c) {
      assert BitLogged(b0, b1, log, c);
    }
  }

  /** Truncating one file leaves the others readable as before. */
  lemma EmptiedSound(fs: Fs, i: nat, bitmap: seq<bool>)
    requires Sound(fs) && i < |fs.inodes| && Inv(Emptied(fs, i, bitmap))
    ensures var fs' := Emptied(fs, i, bitmap);
      Sound(fs') && Content(fs', i) == [] && forall j: nat :: j < |fs.inodes| && j != i ==> Content(fs', j) == Content(fs, j)
  {
    var fs' := Emptied(fs, i, bitmap);
    EmptiedRefs(fs, i, bitmap);
    forall k: nat | k < |fs.inodes| ensures Backed(fs', k, fs'.inodes[k].size) {
      assert Backed(fs, k, fs.inodes[k].size);
    }
    forall j: nat | j < |fs.inodes| && j != i ensures Content(fs', j) == Content(fs, j) {
      assert forall o: nat :: FileByte(fs', j, o) == FileByte(fs, j, o);
    }
  }

  /** What is logged for a block newly recorded at l. */
  lemma StepLogged(fs: Fs, fs': Fs, l: Loc, log: set<LogBlock>, log': set<LogBlock>)
    requires Ref(fs, l) == 0 && Ref(fs', l) != 0 && forall m :: m != l ==> Ref(fs', m) == Ref(fs, m)
    requires log' == log + {Bits(Ref(fs', l) / 4096), Whole(Ref(fs', l))} + if l.Addr? then {} else {Whole(Ref(fs, Parent(l)))}
    ensures LogGrew(log, log', fs, fs')
  {
    forall x ensures LogAt(log, log', x, Allocating(fs, fs', x)) {
      StepLogs(fs, fs', l, x);
    }
  }

  /** What is free on the way down to l is enough exactly if it was so from the start. */
  lemma EntryMissing(fs: Fs, fs1: Fs, l: Loc, p: nat)
    requires !l.Addr? && Mapped(fs, fs1, Parent(l), p) && Ref(fs1, l) == Ref(fs, l)
    ensures Ref(fs, l) == 0 ==> (FreeCount(fs1.bitmap) == 0 <==> FreeCount(fs.bitmap) < |Missing(fs, l)|)
    ensures Ref(fs, l) != 0 ==> |Missing(fs, l)| <= FreeCount(fs.bitmap)
    ensures Ref(fs1, Parent(l)) == p
  {
    MissingCount(fs, l);
    TakenCount(fs.bitmap, |Missing(fs, Parent(l))|);
  }

  lemma LoggedNothing(fs: Fs, log: set<LogBlock>, log': set<LogBlock>)
    requires LogGrew(log, log', fs, fs)
    ensures log' == log
  {
    forall x ensures x in log' <==> x in log {
      NotAllocating(fs, x);
      assert LogAt(log, log', x, Allocating(fs, fs, x));
    }
  }

  /** Truncating changes bits and the inode only. */
  lemma EmptiedChanged(fs: Fs, i: nat, bitmap: seq<bool>, log0: set<LogBlock>, log1: set<LogBlock>, log: set<LogBlock>)
    requires i < |fs.inodes| && BitsCleared(fs.bitmap, bitmap, log0, log1) && log == log1 + {Inodes(i / 8)}
    ensures ChangedOnly(fs, Emptied(fs, i, bitmap), log) && forall x :: x in log ==> x in log0 || Owned(Emptied(fs, i, bitmap), x)
  {
    var fs' := Emptied(fs, i, bitmap);
    forall x | x in log && x !in log0 ensures Owned(fs', x) {
      assert x in log1 ==> BitsWithin(fs.bitmap, x);
    }
    forall x | x !in log ensures SameBlock(fs, fs', x) {
      match x
      case Whole(b) => assert SameBytes(fs, fs', b);
      case Bits(k) =>
        forall c: nat | c / 4096 == k ensures SameBit(fs, fs', c) {
          assert BitLogged(fs.bitmap, bitmap, log1, c);
        }
      case Inodes(k) =>
        forall j: nat | j / 8 == k ensures SameInode(fs, fs', j) {
        }
    }
  }

  /** With block bn dealt with, the blocks missing are those before and those still missing. */
  lemma StillMissing(fs0: Fs, fs: Fs, i: nat, lo: nat, bn: nat)
    requires lo <= bn && Grew(fs0, fs, MissingIn(fs0, i, lo, bn))
    ensures FreeCount(fs.bitmap) < |Missing(fs, DataLoc(i, bn))| <==> FreeCount(fs0.bitmap) < |MissingIn(fs0, i, lo, bn + 1)|
  {
    MissingSplit(fs0, fs, i, lo, bn, bn, bn + 1);
    MissingOne(fs, i, bn);
    TakenCount(fs0.bitmap, |MissingIn(fs0, i, lo, bn)|);
  }

  lemma MoreThan(a: set<Loc>, c: set<Loc>)
    requires a <= c
    ensures |a| <= |c|
  {
    assert c == a + (c - a);
  }

  lemma MoreMissing(fs: Fs, i: nat, lo: nat, hi: nat, hi2: nat)
    requires lo <= hi <= hi2
    ensures |MissingIn(fs, i, lo, hi)| <= |MissingIn(fs, i, lo, hi2)|
  {
    var a, c := MissingIn(fs, i, lo, hi), MissingIn(fs, i, lo, hi2);
    forall m | m in a ensures m in c {
      WaysSplit(i, lo, hi, hi, hi2, m);
    }
    MoreThan(a, c);
  }

  /** Writing into a data block changes that block only. */
  lemma PatchedChunk(fs: Fs, fs': Fs, i: nat, bn: nat, b: nat)
    requires Inv(fs) && Ref(fs, DataLoc(i, bn)) == b != 0 && b < |fs'.disk|
    requires fs' == Written(fs, b, fs'.disk[b])
    ensures fs'.bitmap == fs.bitmap && (forall m :: Ref(fs', m) == Ref(fs, m)) && forall c: nat :: c != b ==> SameBytes(fs, fs', c)
  {
    forall m ensures Ref(fs', m) == Ref(fs, m) {
      WrittenRef(fs, DataLoc(i, bn), fs'.disk[b], m);
    }
  }

  /** What writei has logged when it is done. */
  lemma Logged(fs0: Fs, fs1: Fs, fs: Fs, i: nat, off: nat, n: nat, log0: set<LogBlock>, log1: set<LogBlock>, log: set<LogBlock>)
    requires Inv(fs0) && i < |fs0.inodes| && Framed(fs0, fs1, i)
    requires WroteBlocks(fs0, fs1, i, off / 512, Through(off, n), log0, log1)
    requires fs == Sized(fs1, i, Max(fs0.inodes[i].size, off + n))
    requires off + n <= fs0.inodes[i].size ==> fs1.inodes == fs0.inodes
    requires log == if off + n > fs0.inodes[i].size then log1 + {Inodes(i / 8)} else log1
    ensures ChangedOnly(fs0, fs, log) && (log0 == {} ==> |log| == Cost(fs0, i, off, n))
    ensures Grew(fs0, fs, MissingIn(fs0, i, off / 512, Through(off, n)))
    ensures forall x :: x in log ==> x in log0 || Owned(fs, x)
  {
    var lo, hi, size := off / 512, Through(off, n), Max(fs0.inodes[i].size, off + n);
    WroteChanged(fs0, fs1, fs, i, lo, hi, size, log0, log1, log);
    WroteOwned(fs0, fs1, fs, i, lo, hi, size, log0, log1, log);
    if log0 == {} {
      WroteCount(fs0, fs1, i, off, n, log1);
    }
    forall m ensures GrewAt(fs0, fs, MissingIn(fs0, i, lo, hi), m) {
      SizedRef(fs1, i, size, m);
      assert GrewAt(fs0, fs1, MissingIn(fs0, i, lo, hi), m);
    }
  }

  lemma SameOthers(fs0: Fs, fs1: Fs, i: nat, inode: Inode)
    requires i < |fs0.inodes| && Framed(fs0, fs1, i)
    ensures fs1.inodes[i := inode] == fs0.inodes[i := inode]
  {
    var a, b := fs1.inodes[i := inode], fs0.inodes[i := inode];
    forall k: nat | k < |fs0.inodes| ensures a[k] == b[k] {
      assert OtherInode(fs0, fs1, i, k);
    }
  }

  /** The bytes lie within the file, or right behind it, and within the maximal size. */
  predicate Accepts(fs: Fs, i: nat, off: nat, n: nat) {
    i < |fs.inodes| && off <= fs.inodes[i].size && off + n <= MAXBYTES
  }

  /** As many blocks are free as are missing for n bytes at off. */
  predicate Supplied(fs: Fs, i: nat, off: nat, n: nat) {
    |MissingIn(fs, i, off / 512, Through(off, n))| <= FreeCount(fs.bitmap)
  }

  /** What writei does to the disk: just the missing places get blocks, only logged blocks
      change, and an operation that does no more logs as many as Cost says. */
  ghost predicate WroteOp(fs: Fs, fs': Fs, i: nat, off: nat, n: nat, log: set<LogBlock>, log': set<LogBlock>) {
    && i < |fs.inodes| && Grew(fs, fs', MissingIn(fs, i, off / 512, Through(off, n)))
    && ChangedOnly(fs, fs', log') && (log == {} ==> |log'| == Cost(fs, i, off, n))
    && forall x :: x in log' ==> x in log || Owned(fs', x)
  }

  predicate Aligned(off: nat, tot: nat, n: nat) {
    tot == 0 || tot == n || (off + tot) % 512 == 0
  }

  /** How far writei has come with n bytes: `before` is written. */
  ghost predicate Progress(fs0: Fs, fs: Fs, i: nat, off: nat, before: seq<Byte>, n: nat, log: set<LogBlock>, log': set<LogBlock>) {
    && i < |fs0.inodes| && WroteTo(fs0, fs, i, off, before)
    && (off + |before| <= fs0.inodes[i].size ==> fs.inodes == fs0.inodes)
    && Aligned(off, |before|, n)
    && WroteBlocks(fs0, fs, i, off / 512, Through(off, |before|), log, log')
  }

  lemma Started(fs: Fs, i: nat, off: nat, n: nat, log: set<LogBlock>)
    requires Sound(fs) && i < |fs.inodes| && off <= fs.inodes[i].size
    ensures Progress(fs, fs, i, off, [], n, log, log)
  {
    assert Backed(fs, i, fs.inodes[i].size);
    forall l ensures FrameAt(fs, fs, i, l) {
    }
    forall o: nat ensures ByteAt(fs, fs, i, off, [], fs.inodes[i].size, o) {
    }
    WroteNone(fs, i, off / 512, log);
  }

  /** The bytes of one turn in place, and their block logged; fs1 is what bmap left. */
  ghost predicate TurnDone(fs: Fs, fs1: Fs, fs2: Fs, i: nat, o: nat, chunk: seq<Byte>, b: nat, log: set<LogBlock>, log1: set<LogBlock>, log2: set<LogBlock>) {
    && Mapped(fs, fs1, DataLoc(i, o / 512), b) && LogGrew(log, log1, fs, fs1)
    && b < |fs1.disk| && o % 512 + |chunk| <= BSIZE
    && fs2 == Written(fs1, b, Patched(BlockAt(fs1, b), o % 512, chunk)) && log2 == log1 + {Whole(b)}
  }

  /** bmap found no block: then there are too few for all of it. */
  lemma NoneLeft(fs0: Fs, fs: Fs, i: nat, lo: nat, bn: nat, hi: nat)
    requires lo <= bn < hi && Grew(fs0, fs, MissingIn(fs0, i, lo, bn)) && FreeCount(fs.bitmap) < |Missing(fs, DataLoc(i, bn))|
    ensures FreeCount(fs0.bitmap) < |MissingIn(fs0, i, lo, hi)|
  {
    StillMissing(fs0, fs, i, lo, bn);
    MoreMissing(fs0, i, lo, bn + 1, hi);
  }

  lemma TurnBlocks(fs0: Fs, fs: Fs, fs1: Fs, fs2: Fs, i: nat, lo: nat, bn: nat, o: nat, chunk: seq<Byte>, b: nat,
                   log0: set<LogBlock>, log: set<LogBlock>, log1: set<LogBlock>, log2: set<LogBlock>)
    requires TurnDone(fs, fs1, fs2, i, o, chunk, b, log, log1, log2) && lo <= bn == o / 512 && WroteBlocks(fs0, fs, i, lo, bn, log0, log)
    ensures WroteBlocks(fs0, fs2, i, lo, bn + 1, log0, log2)
  {
    WroteMapped(fs0, fs, fs1, i, lo, bn, b, log0, log, log1);
    PatchedChunk(fs1, fs2, i, bn, b);
    WroteChunk(fs0, fs1, fs2, i, lo, bn, b, log0, log2);
  }

  lemma TurnBytes(fs0: Fs, fs: Fs, fs1: Fs, fs2: Fs, i: nat, off: nat, o: nat, before: seq<Byte>, chunk: seq<Byte>, b: nat,
                  log: set<LogBlock>, log1: set<LogBlock>, log2: set<LogBlock>)
    requires TurnDone(fs, fs1, fs2, i, o, chunk, b, log, log1, log2)
    requires i < |fs0.inodes| && WroteTo(fs0, fs, i, off, before) && off <= fs0.inodes[i].size && o == off + |before|
    ensures WroteTo(fs0, fs2, i, off, before + chunk)
  {
    ChunkBytes(fs0, fs, fs1, fs2, i, off, o, before, chunk);
    ChunkFrame(fs0, fs, fs1, fs2, i, o, chunk);
  }

  /** A block that holds bytes of the file as it was is there, so bmap changes nothing. */
  lemma TurnInodes(fs0: Fs, fs: Fs, fs1: Fs, fs2: Fs, i: nat, off: nat, o: nat, before: seq<Byte>, chunk: seq<Byte>, b: nat,
                   log: set<LogBlock>, log1: set<LogBlock>, log2: set<LogBlock>)
    requires TurnDone(fs, fs1, fs2, i, o, chunk, b, log, log1, log2)
    requires i < |fs0.inodes| && WroteTo(fs0, fs, i, off, before) && o == off + |before| && o < fs0.inodes[i].size
    ensures fs2.inodes == fs.inodes
  {
    assert o / 512 * 512 < Max(fs0.inodes[i].size, o);
  }

  lemma ChunkWritten(fs0: Fs, fs: Fs, fs1: Fs, fs2: Fs, i: nat, off: nat, before: seq<Byte>, chunk: seq<Byte>, after: seq<Byte>, n: nat,
                     tot: nat, tot': nat, o: nat, b: nat, log0: set<LogBlock>, log: set<LogBlock>, log1: set<LogBlock>, log2: set<LogBlock>)
    requires Progress(fs0, fs, i, off, before, n, log0, log) && off <= fs0.inodes[i].size && o == off + |before| && chunk != []
    requires TurnDone(fs, fs1, fs2, i, o, chunk, b, log, log1, log2) && after == before + chunk
    requires |before| == tot && |after| == tot'
    requires off / 512 <= o / 512 == Through(off, tot) && Through(off, tot') == o / 512 + 1 && Aligned(off, tot', n)
    ensures Progress(fs0, fs2, i, off, after, n, log0, log2)
  {
    TurnBlocks(fs0, fs, fs1, fs2, i, off / 512, o / 512, o, chunk, b, log0, log, log1, log2);
    TurnBytes(fs0, fs, fs1, fs2, i, off, o, before, chunk, b, log, log1, log2);
    if o < fs0.inodes[i].size {
      TurnInodes(fs0, fs, fs1, fs2, i, off, o, before, chunk, b, log, log1, log2);
    }
  }

  /** A chunk ends with its block or with the bytes to be written. */
  lemma Turn(off: nat, o: nat, tot: nat, tot': nat, n: nat, m: nat)
    requires Aligned(off, tot, n) && tot < n && o == off + tot && tot' == tot + m
    requires m == if n - tot < BSIZE - o % 512 then n - tot else BSIZE - o % 512
    ensures 0 < m <= n - tot && o % 512 + m <= BSIZE && off / 512 <= o / 512 == Through(off, tot)
    ensures Through(off, tot') == o / 512 + 1 <= Through(off, n) && Aligned(off, tot', n)
  {
  }

  class FileSystem {
    /** One bit a block, as the bitmap blocks hold them. */
    var bitmap: seq<bool>
    var disk: seq<Block>
    /** The inodes as read by ilock, and as iupdate last wrote them. */
    var inodes: seq<Inode>
    var dinodes: seq<Inode>
    /** The blocks handed to log_write since begin_op. */
    ghost var logged: set<LogBlock>

    /** An image without files: `size` blocks, of which the first `meta` hold the boot block,
        the superblock, the log, the inodes and the bitmap. */
    constructor (size: nat, meta: nat, ninodes: nat)
      requires 0 < meta <= size < WORD
      ensures Valid() && |inodes| == ninodes && |bitmap| == size
      ensures forall i: nat :: i < ninodes ==> Content(Value(), i) == []
      ensures forall b: nat :: Stray(Value(), b) <==> 0 < b < meta
      ensures FreeCount(bitmap) == size - meta && forall l :: Ref(Value(), l) == 0
    {
      bitmap := seq(size, b => b < meta);
      disk := seq(size, _ => Zeros());
      inodes := seq(ninodes, _ => Inode(seq(NDIRECT + 2, _ => 0), 0));
      dinodes := seq(ninodes, _ => Inode(seq(NDIRECT + 2, _ => 0), 0));
      logged := {};
      new;
      FreeCountFrom(bitmap, meta);
      forall l ensures Ref(Value(), l) == 0 {
        NoRef(Value(), l);
      }
    }

    ghost function Value(): Fs
      reads this
    {
      Fs(bitmap, disk, inodes)
    }

    ghost predicate NoneFree()
      reads this
    {
      forall b :: 0 <= b < |bitmap| ==> bitmap[b]
    }

    /** begin_op, for one operation at a time. */
    ghost method BeginOp()
      modifies this`logged
      ensures logged == {}
    {
      logged := {};
    }

    /** None is the panic: out of blocks. */
    method Balloc() returns (r: Option<nat>)
      requires |bitmap| == |disk|
      modifies this`bitmap, this`disk, this`logged
      ensures r.None? ==> NoneFree() && Value() == old(Value()) && FreeCount(bitmap) == 0
      ensures r.Some? ==> r.value == Lowest(old(bitmap)) < |old(bitmap)| && Value() == Allocated(old(Value()), r.value)
      ensures r.Some? ==> !old(bitmap)[r.value] && forall c :: 0 <= c < r.value ==> old(bitmap)[c]
      ensures logged == old(logged) + if r.Some? then {Bits(r.value / 4096), Whole(r.value)} else {}
    {
      var b := 0;
      while b < |bitmap|
        invariant b % 4096 == 0 && Value() == old(Value()) && logged == old(logged)
        invariant forall c :: 0 <= c < b && c < |bitmap| ==> bitmap[c]
      {
        var bi := 0;
        while bi < BPB && b + bi < |bitmap|
          invariant 0 <= bi <= BPB && Value() == old(Value()) && logged == old(logged)
          invariant forall c :: 0 <= c < b + bi && c < |bitmap| ==> bitmap[c]
        {
          if !bitmap[b + bi] {
            LowestIs(bitmap, b + bi);
            bitmap := bitmap[b + bi := true];
            logged := logged + {Bits((b + bi) / 4096)};
            disk := disk[b + bi := Zeros()];
            logged := logged + {Whole(b + bi)};
            return Some(b + bi);
          }
          bi := bi + 1;
        }
        b := b + BPB;
      }
      FreeCountNone(bitmap);
      return None;
    }

    /** False is the panic: freeing free block. */
    method Bfree(b: nat) returns (ok: bool)
      requires b < |bitmap|
      modifies this`bitmap, this`logged
      ensures ok == old(bitmap)[b]
      ensures bitmap == if ok then old(bitmap)[b := false] else old(bitmap)
      ensures logged == old(logged) + if ok then {Bits(b / 4096)} else {}
    {
      ok := bitmap[b];
      if ok {
        bitmap := bitmap[b := false];
        logged := logged + {Bits(b / 4096)};
      }
    }

    /** bmap's step for an address of the inode: allocate it if there is none. */
    method AddrOf(i: nat, k: nat) returns (addr: Option<nat>)
      requires Inv(Value()) && i < |inodes| && k < NDIRECT + 2
      modifies this`bitmap, this`disk, this`inodes, this`logged
      ensures addr.None? ==> NoneFree() && FreeCount(old(bitmap)) == 0 && Ref(old(Value()), Addr(i, k)) == 0
      ensures addr.Some? ==> Mapped(old(Value()), Value(), Addr(i, k), addr.value)
      ensures addr.Some? ==> LogGrew(old(logged), logged, old(Value()), Value())
    {
      ghost var fs, l, log := Value(), Addr(i, k), logged;
      var a := inodes[i].addrs[k];
      if a == 0 {
        addr := Balloc();
        if addr.Some? {
          StepNew(fs, l, addr.value);
          inodes := inodes[i := inodes[i].(addrs := inodes[i].addrs[k := addr.value])];
          StepLogged(fs, Value(), l, log, logged);
          StepMapped(fs, Value(), l, addr.value);
        }
      } else {
        FoundThere(fs, l);
        StepMapped(fs, fs, l, a);
        addr := Some(a);
      }
    }

    /** bmap's step for an entry of a block p of block numbers. */
    method EntryOf(p: nat, j: nat, ghost l: Loc) returns (addr: Option<nat>)
      requires Inv(Value()) && !l.Addr? && p == Ref(Value(), Parent(l)) != 0 && j == Slot(l) < NINDIRECT
      modifies this`bitmap, this`disk, this`logged
      ensures addr.None? ==> NoneFree() && FreeCount(old(bitmap)) == 0 && Ref(old(Value()), l) == 0
      ensures addr.Some? ==> StepDone(old(Value()), Value(), l, addr.value)
      ensures addr.Some? ==> LogGrew(old(logged), logged, old(Value()), Value())
    {
      ghost var fs, log := Value(), logged;
      var a := Word(disk[p], j);
      if a == 0 {
        addr := Balloc();
        if addr.Some? {
          StepNew(fs, l, addr.value);
          disk := disk[p := SetWord(disk[p], j, addr.value)];
          logged := logged + {Whole(p)};
          StepLogged(fs, Value(), l, log, logged);
        }
      } else {
        FoundThere(fs, l);
        addr := Some(a);
      }
    }

    /** None is a panic: out of range, or fewer blocks free than are missing. */
    method Bmap(i: nat, bn: nat) returns (addr: Option<nat>)
      requires Inv(Value()) && i < |inodes|
      modifies this`bitmap, this`disk, this`inodes, this`logged
      ensures addr.None? <==> bn >= MAXFILE || FreeCount(old(bitmap)) < |Missing(old(Value()), DataLoc(i, bn))|
      ensures addr.None? && bn < MAXFILE ==> NoneFree()
      ensures addr.Some? ==> bn < MAXFILE && Names(Value(), i, bn, addr.value)
      ensures addr.Some? ==> Mapped(old(Value()), Value(), DataLoc(i, bn), addr.value)
      ensures addr.Some? ==> LogGrew(old(logged), logged, old(Value()), Value())
    {
      ghost var l := DataLoc(i, bn);
      addr := None;
      if bn < NDIRECT {
        assert l == Addr(i, bn);
        MissingCount(Value(), l);
        addr := AddrOf(i, bn);
      } else if bn - NDIRECT < NINDIRECT {
        assert l == Ind(i, bn - NDIRECT);
        addr := SingleOf(i, bn - NDIRECT);
      } else if bn - NDIRECT - NINDIRECT < 128 * 128 {
        addr := DoubleOf(i, bn - NDIRECT - NINDIRECT, l);
      }
      if addr.Some? {
        DataLocNames(Value(), i, bn, l);
      }
    }

    /** bmap at the indirect level. */
    method SingleOf(i: nat, n: nat) returns (addr: Option<nat>)
      requires Inv(Value()) && i < |inodes| && n < NINDIRECT
      modifies this`bitmap, this`disk, this`inodes, this`logged
      ensures addr.None? <==> FreeCount(old(bitmap)) < |Missing(old(Value()), Ind(i, n))|
      ensures addr.None? ==> NoneFree()
      ensures addr.Some? ==> Mapped(old(Value()), Value(), Ind(i, n), addr.value)
      ensures addr.Some? ==> LogGrew(old(logged), logged, old(Value()), Value())
    {
      ghost var fs, l, log := Value(), Ind(i, n), logged;
      MissingUp(fs, l);
      addr := AddrOf(i, NDIRECT);
      if addr.Some? {
        addr := EntryBelow(addr.value, n, l, fs, log);
      }
    }

    /** bmap at the double-indirect level. */
    method DoubleOf(i: nat, n: nat, ghost l: Loc) returns (addr: Option<nat>)
      requires Inv(Value()) && i < |inodes| && n < 128 * 128 && l == Leaf(i, n / 128, n % 128)
      modifies this`bitmap, this`disk, this`inodes, this`logged
      ensures addr.None? <==> FreeCount(old(bitmap)) < |Missing(old(Value()), l)|
      ensures addr.None? ==> NoneFree()
      ensures addr.Some? ==> Mapped(old(Value()), Value(), l, addr.value)
      ensures addr.Some? ==> LogGrew(old(logged), logged, old(Value()), Value())
    {
      ghost var fs, d, log := Value(), Parent(l), logged;
      MissingUp(fs, l);
      MissingUp(fs, d);
      addr := AddrOf(i, NDIRECT + 1);
      if addr.Some? {
        addr := EntryBelow(addr.value, n / 128, d, fs, log);
      }
      if addr.Some? {
        addr := EntryBelow(addr.value, n % 128, l, fs, log);
      }
    }

    /** One level further down; fs and log are those before bmap. */
    method EntryBelow(p: nat, j: nat, ghost l: Loc, ghost fs: Fs, ghost log: set<LogBlock>) returns (addr: Option<nat>)
      requires !l.Addr? && Mapped(fs, Value(), Parent(l), p) && j == Slot(l) < NINDIRECT && LogGrew(log, logged, fs, Value())
      modifies this`bitmap, this`disk, this`logged
      ensures addr.None? <==> FreeCount(fs.bitmap) < |Missing(fs, l)|
      ensures addr.None? ==> NoneFree()
      ensures addr.Some? ==> Mapped(fs, Value(), l, addr.value) && LogGrew(log, logged, fs, Value())
    {
      ghost var fs1, log1 := Value(), logged;
      SameBelow(fs, fs1, l, p);
      EntryMissing(fs, fs1, l, p);
      addr := EntryOf(p, j, l);
      if addr.Some? {
        Compose(fs, fs1, Value(), l, p, addr.value);
        LogGrewTwice(fs, fs1, Value(), log, log1, logged);
      }
    }

    /** iupdate. */
    method Iupdate(i: nat)
      requires i < |inodes| == |dinodes|
      modifies this`dinodes, this`logged
      ensures dinodes == old(dinodes)[i := inodes[i]] && logged == old(logged) + {Inodes(i / 8)}
    {
      dinodes := dinodes[i := inodes[i]];
      logged := logged + {Inodes(i / 8)};
    }

    /** bfree of every entry of the block p of block numbers. */
    method FreeEntries(p: nat, ghost fs: Fs, ghost l: Loc, ghost done: iset<Loc>, ghost log0: set<LogBlock>) returns (ok: bool)
      requires Inv(fs) && IsIndex(l) && p == Ref(fs, l) != 0 && disk == fs.disk
      requires Freed(fs, bitmap, done) && forall k: nat :: Child(l, k) !in done
      requires BitsCleared(fs.bitmap, bitmap, log0, logged)
      modifies this`bitmap, this`logged
      ensures ok && Freed(fs, bitmap, done + Children(l, NINDIRECT))
      ensures BitsCleared(fs.bitmap, bitmap, log0, logged)
    {
      assert done + Children(l, 0) == done;
      for k := 0 to NINDIRECT
        invariant Freed(fs, bitmap, done + Children(l, k))
        invariant BitsCleared(fs.bitmap, bitmap, log0, logged)
      {
        var e := Word(disk[p], k);
        ChildRef(fs, l, k);
        NextChild(fs, bitmap, done, l, k, if e != 0 && e < |bitmap| then bitmap[e := false] else bitmap);
        if e != 0 {
          StillMarked(fs, bitmap, done + Children(l, k), Child(l, k));
          ClearedMore(fs.bitmap, bitmap, log0, logged, e);
          ok := Bfree(e);
          if !ok {
            return;
          }
        }
      }
      return true;
    }

    method FreeDirects(i: nat) returns (ok: bool)
      requires Inv(Value()) && i < |inodes|
      modifies this`bitmap, this`inodes, this`logged
      ensures ok && Freed(old(Value()), bitmap, Directs(i, NDIRECT))
      ensures BitsCleared(old(bitmap), bitmap, old(logged), logged)
      ensures |inodes| == |old(inodes)| && inodes[i].size == old(inodes[i].size) && |inodes[i].addrs| == NDIRECT + 2
      ensures forall k :: 0 <= k < |inodes| && k != i ==> inodes[k] == old(inodes[k])
      ensures forall k :: 0 <= k < NDIRECT + 2 ==> inodes[i].addrs[k] == if k < NDIRECT then 0 else old(inodes[i].addrs[k])
    {
      ghost var fs, log0 := Value(), logged;
      for k := 0 to NDIRECT
        invariant |inodes| == |fs.inodes| && inodes[i].size == fs.inodes[i].size && |inodes[i].addrs| == NDIRECT + 2
        invariant forall m :: 0 <= m < |inodes| && m != i ==> inodes[m] == fs.inodes[m]
        invariant forall m :: 0 <= m < NDIRECT + 2 ==> inodes[i].addrs[m] == if m < k then 0 else fs.inodes[i].addrs[m]
        invariant Freed(fs, bitmap, Directs(i, k))
        invariant BitsCleared(fs.bitmap, bitmap, log0, logged)
      {
        var e := inodes[i].addrs[k];
        NextDirect(fs, bitmap, i, k, if e != 0 && e < |bitmap| then bitmap[e := false] else bitmap);
        if e != 0 {
          StillMarked(fs, bitmap, Directs(i, k), Addr(i, k));
          ClearedMore(fs.bitmap, bitmap, log0, logged, e);
          ok := Bfree(e);
          if !ok {
            return;
          }
          inodes := inodes[i := inodes[i].(addrs := inodes[i].addrs[k := 0])];
        }
      }
      return true;
    }

    method FreeSingle(i: nat, p: nat, ghost fs: Fs, ghost log0: set<LogBlock>) returns (ok: bool)
      requires Inv(fs) && i < |fs.inodes| && disk == fs.disk && p == fs.inodes[i].addrs[NDIRECT]
      requires Freed(fs, bitmap, Directs(i, NDIRECT))
      requires BitsCleared(fs.bitmap, bitmap, log0, logged)
      modifies this`bitmap, this`logged
      ensures BitsCleared(fs.bitmap, bitmap, log0, logged)
      ensures ok && Freed(fs, bitmap, Singles(i))
    {
      ghost var l, done := Addr(i, NDIRECT), Directs(i, NDIRECT);
      if p != 0 {
        ok := FreeEntries(p, fs, l, done, log0);
        if !ok {
          return;
        }
        done := done + Children(l, NINDIRECT);
        StillMarked(fs, bitmap, done, l);
        FreeOne(fs, bitmap, done, l);
        ClearedMore(fs.bitmap, bitmap, log0, logged, p);
        ok := Bfree(p);
        if !ok {
          return;
        }
        done := done + iset{l};
      }
      SinglesDone(fs, bitmap, i, done);
      return true;
    }

    /** The block p of the double-indirect level is itself not freed. */
    method FreeDouble(i: nat, p: nat, ghost fs: Fs, ghost log0: set<LogBlock>) returns (ok: bool)
      requires Inv(fs) && i < |fs.inodes| && disk == fs.disk && p == fs.inodes[i].addrs[NDIRECT + 1]
      requires Freed(fs, bitmap, Singles(i))
      requires BitsCleared(fs.bitmap, bitmap, log0, logged)
      modifies this`bitmap, this`logged
      ensures BitsCleared(fs.bitmap, bitmap, log0, logged)
      ensures ok && Freed(fs, bitmap, Truncated(i))
    {
      if p == 0 {
        AllDone(fs, bitmap, i, Singles(i));
        return true;
      }
      ok := FreeBranches(i, p, fs, log0);
      if ok {
        AllDone(fs, bitmap, i, Singles(i) + Doubles(i, NINDIRECT));
      }
    }

    /** The loop over the double-indirect block. */
    method FreeBranches(i: nat, p: nat, ghost fs: Fs, ghost log0: set<LogBlock>) returns (ok: bool)
      requires Inv(fs) && i < |fs.inodes| && disk == fs.disk && p == Ref(fs, Addr(i, NDIRECT + 1)) != 0
      requires Freed(fs, bitmap, Singles(i)) && BitsCleared(fs.bitmap, bitmap, log0, logged)
      modifies this`bitmap, this`logged
      ensures BitsCleared(fs.bitmap, bitmap, log0, logged)
      ensures ok && Freed(fs, bitmap, Singles(i) + Doubles(i, NINDIRECT))
    {
      assert Singles(i) + Doubles(i, 0) == Singles(i);
      for j := 0 to NINDIRECT
        invariant Freed(fs, bitmap, Singles(i) + Doubles(i, j))
        invariant BitsCleared(fs.bitmap, bitmap, log0, logged)
      {
        ChildRef(fs, Addr(i, NDIRECT + 1), j);
        ok := FreeBranch(i, j, Word(disk[p], j), fs, log0);
        if !ok {
          return;
        }
      }
      return true;
    }

    /** Entry j of the double-indirect block, with all below it. */
    method FreeBranch(i: nat, j: nat, e: nat, ghost fs: Fs, ghost log0: set<LogBlock>) returns (ok: bool)
      requires Inv(fs) && i < |fs.inodes| && disk == fs.disk && e == Ref(fs, Dbl(i, j))
      requires Freed(fs, bitmap, Singles(i) + Doubles(i, j))
      requires BitsCleared(fs.bitmap, bitmap, log0, logged)
      modifies this`bitmap, this`logged
      ensures BitsCleared(fs.bitmap, bitmap, log0, logged)
      ensures ok && Freed(fs, bitmap, Singles(i) + Doubles(i, j + 1))
    {
      ghost var l, done := Dbl(i, j), Singles(i) + Doubles(i, j);
      if e != 0 {
        ok := FreeEntries(e, fs, l, done, log0);
        if !ok {
          return;
        }
        done := done + Children(l, NINDIRECT);
        StillMarked(fs, bitmap, done, l);
        FreeOne(fs, bitmap, done, l);
        ClearedMore(fs.bitmap, bitmap, log0, logged, e);
        ok := Bfree(e);
        if !ok {
          return;
        }
        done := done + iset{l};
      }
      DoubleDone(fs, bitmap, i, j, done);
      return true;
    }

    /** itrunc never meets "freeing free block". It empties inode i, here and on disk, and
        frees all its blocks but the double-indirect block. */
    method Itrunc(i: nat) returns (ok: bool)
      requires Inv(Value()) && i < |inodes| == |dinodes|
      modifies this
      ensures ok && Inv(Value())
      ensures Value() == Emptied(old(Value()), i, bitmap) && Freed(old(Value()), bitmap, Truncated(i))
      ensures dinodes == old(dinodes)[i := inodes[i]]
      ensures ChangedOnly(old(Value()), Value(), logged)
      ensures old(logged) <= logged && forall x :: x in logged ==> x in old(logged) || Owned(Value(), x)
      ensures forall b: nat :: Stray(Value(), b) <==>
        Stray(old(Value()), b) || (b != 0 && b == old(inodes[i].addrs[NDIRECT + 1]))
      ensures old(Valid()) ==> Valid() && Content(Value(), i) == []
      ensures old(Valid()) ==> forall j: nat :: j < |inodes| && j != i ==> Content(Value(), j) == Content(old(Value()), j)
    {
      ghost var fs, log0 := Value(), logged;
      ok := FreeDirects(i);
      if ok {
        ok := FreeSingle(i, inodes[i].addrs[NDIRECT], fs, log0);
      }
      if ok {
        inodes := inodes[i := inodes[i].(addrs := inodes[i].addrs[NDIRECT := 0])];
        ok := FreeDouble(i, inodes[i].addrs[NDIRECT + 1], fs, log0);
      }
      if ok {
        inodes := inodes[i := inodes[i].(addrs := inodes[i].addrs[NDIRECT + 1 := 0])];
        inodes := inodes[i := inodes[i].(size := 0)];
        ghost var log := logged;
        Iupdate(i);
        assert inodes[i].addrs == seq(NDIRECT + 2, _ => 0);
        assert inodes == Cleared(fs, i).inodes;
        EmptiedInv(fs, i, bitmap);
        EmptiedChanged(fs, i, bitmap, log0, log, logged);
        if Sound(fs) {
          EmptiedSound(fs, i, bitmap);
        }
        forall b: nat ensures Stray(Value(), b) <==> Stray(fs, b) || (b != 0 && b == fs.inodes[i].addrs[NDIRECT + 1]) {
          OnlyRootLost(fs, i, bitmap, b);
        }
      }
    }

    /** Between calls: every file is backed by blocks of its own, and iupdate is up to date. */
    ghost predicate Valid()
      reads this
    {
      Sound(Value()) && dinodes == inodes
    }

    /** readi. The result is -1 as None. It never allocates. */
    method Readi(i: nat, off: nat, n: nat) returns (r: Option<seq<Byte>>)
      requires Valid() && i < |inodes| && off < WORD && n < WORD
      modifies this`bitmap, this`disk, this`inodes, this`logged
      ensures Value() == old(Value()) && logged == old(logged)
      ensures r.None? <==> off > inodes[i].size || off + n >= WORD
      ensures r.Some? ==> r.value == Content(Value(), i)[off..if off + n <= inodes[i].size then off + n else inodes[i].size]
    {
      if off > inodes[i].size || (off + n) % 0x1_0000_0000 < off {
        return None;
      }
      var n' := if off + n > inodes[i].size then inodes[i].size - off else n;
      var dst := ReadBytes(i, off, n', Value(), Content(Value(), i));
      return Some(dst);
    }

    /** readi's loop. */
    method ReadBytes(i: nat, off: nat, n: nat, ghost fs: Fs, ghost all: seq<Byte>) returns (dst: seq<Byte>)
      requires Valid() && Value() == fs && i < |inodes| && all == Content(fs, i) && off + n <= |all|
      modifies this`bitmap, this`disk, this`inodes, this`logged
      ensures Value() == fs && logged == old(logged) && dst == all[off..off + n]
    {
      dst := [];
      var o := off;
      while o < off + n
        invariant Value() == fs && logged == old(logged) && off <= o <= off + n && dst == all[off..o]
      {
        var m := if off + n - o < BSIZE - o % 512 then off + n - o else BSIZE - o % 512;
        var bytes := ReadBlock(i, o, m, all);
        SliceJoin(all, off, o, o + m);
        dst, o := dst + bytes, o + m;
      }
    }

    /** One turn of readi's loop: bread of the block, and m bytes of it. */
    method ReadBlock(i: nat, o: nat, m: nat, ghost all: seq<Byte>) returns (bytes: seq<Byte>)
      requires Valid() && i < |inodes| && all == Content(Value(), i) && 0 < m && o + m <= |all| && o % 512 + m <= BSIZE
      modifies this`bitmap, this`disk, this`inodes, this`logged
      ensures Value() == old(Value()) && logged == old(logged) && bytes == all[o..o + m]
    {
      var bn := o / 512;
      BlockOf(Value(), i, o, bn);
      MissingCount(Value(), DataLoc(i, bn));
      var b := Bmap(i, bn);
      LoggedNothing(Value(), old(logged), logged);
      ReadChunk(Value(), i, o, m, b.value);
      bytes := disk[b.value][o % 512..o % 512 + m];
    }

    /** writei. The result is n, or -1 as None; `panic` is balloc's. */
    method Writei(i: nat, src: seq<Byte>, off: nat) returns (r: Option<nat>, panic: bool)
      requires Valid() && i < |inodes| && off < WORD && |src| < WORD
      modifies this
      ensures panic <==> Accepts(old(Value()), i, off, |src|) && !Supplied(old(Value()), i, off, |src|)
      ensures panic ==> NoneFree()
      ensures !panic ==> Valid() && |inodes| == |old(inodes)|
      ensures !panic ==> (r.None? <==> off > old(inodes[i].size) || off + |src| > MAXBYTES)
      ensures !panic && r.None? ==> Value() == old(Value()) && logged == old(logged)
      ensures !panic && r.Some? ==> r.value == |src| && Content(Value(), i) == Splice(old(Content(Value(), i)), off, src)
      ensures !panic && r.Some? ==> WroteOp(old(Value()), Value(), i, off, |src|, old(logged), logged)
      ensures !panic ==> forall j: nat :: j < |inodes| && j != i ==> Content(Value(), j) == old(Content(Value(), j))
      ensures !panic ==> forall b: nat :: Stray(Value(), b) <==> Stray(old(Value()), b)
    {
      if off > inodes[i].size || (off + |src|) % 0x1_0000_0000 < off {
        return None, false;
      }
      if off + |src| > MAXFILE * 512 {
        return None, false;
      }

      ghost var fs0, log0 := Value(), logged;
      panic := WriteBytes(i, src, off, fs0);
      if panic {
        return None, panic;
      }
      var tot := |src|;
      SetSize(i, off, tot, src, fs0, log0);
      return Some(|src|), false;
    }

    /** The end of writei: the size, if the file is longer than it was. */
    method SetSize(i: nat, off: nat, tot: nat, ghost src: seq<Byte>, ghost fs0: Fs, ghost log0: set<LogBlock>)
      requires Sound(fs0) && i < |fs0.inodes| && off <= fs0.inodes[i].size && off + tot <= MAXBYTES && tot == |src|
      requires WroteTo(fs0, Value(), i, off, src) && (off + tot <= fs0.inodes[i].size ==> inodes == fs0.inodes)
      requires dinodes == fs0.inodes
      requires WroteBlocks(fs0, Value(), i, off / 512, Through(off, tot), log0, logged)
      modifies this`inodes, this`dinodes, this`logged
      ensures Valid() && |inodes| == |fs0.inodes|
      ensures Content(Value(), i) == Splice(Content(fs0, i), off, src)
      ensures WroteOp(fs0, Value(), i, off, tot, log0, logged)
      ensures forall j: nat :: j < |inodes| && j != i ==> Content(Value(), j) == Content(fs0, j)
      ensures forall b: nat :: Stray(Value(), b) <==> Stray(fs0, b)
    {
      ghost var fs1, log1 := Value(), logged;
      if tot > 0 && off + tot > inodes[i].size {
        inodes := inodes[i := inodes[i].(size := off + tot)];
        Iupdate(i);
      }
      SameOthers(fs0, fs1, i, inodes[i]);
      assert dinodes == inodes;
      assert Value() == Sized(fs1, i, Max(fs0.inodes[i].size, off + tot));
      WroteAll(fs0, fs1, i, off, src, Value());
      Logged(fs0, fs1, Value(), i, off, tot, log0, log1, logged);
    }

    /** writei's loop. */
    method WriteBytes(i: nat, src: seq<Byte>, off: nat, ghost fs0: Fs) returns (panic: bool)
      requires Valid() && Value() == fs0 && i < |inodes| && off <= inodes[i].size && off + |src| <= MAXBYTES
      modifies this`bitmap, this`disk, this`inodes, this`logged
      ensures panic <==> !Supplied(fs0, i, off, |src|)
      ensures panic ==> NoneFree()
      ensures !panic ==> WroteTo(fs0, Value(), i, off, src) && (off + |src| <= fs0.inodes[i].size ==> inodes == fs0.inodes)
      ensures !panic ==> WroteBlocks(fs0, Value(), i, off / 512, Through(off, |src|), old(logged), logged)
    {
      ghost var log0 := logged;
      var tot := 0;
      panic := false;
      Started(fs0, i, off, |src|, log0);
      assert src[..0] == [];
      while tot < |src|
        invariant !panic && tot <= |src| && Progress(fs0, Value(), i, off, src[..tot], |src|, log0, logged)
      {
        panic, tot := WriteNext(i, src, off, tot, fs0, log0);
        if panic {
          return;
        }
      }
      assert src[..tot] == src;
    }

    /** One turn of it: the bytes up to the end of the block. */
    method WriteNext(i: nat, src: seq<Byte>, off: nat, tot: nat, ghost fs0: Fs, ghost log0: set<LogBlock>) returns (panic: bool, tot': nat)
      requires i < |fs0.inodes| && tot < |src| && off <= fs0.inodes[i].size && off + |src| <= MAXBYTES
      requires Progress(fs0, Value(), i, off, src[..tot], |src|, log0, logged)
      modifies this`bitmap, this`disk, this`inodes, this`logged
      ensures panic ==> NoneFree() && !Supplied(fs0, i, off, |src|)
      ensures !panic ==> tot < tot' <= |src| && Progress(fs0, Value(), i, off, src[..tot'], |src|, log0, logged)
    {
      var o := off + tot;
      var m := if |src| - tot < BSIZE - o % 512 then |src| - tot else BSIZE - o % 512;
      tot' := tot + m;
      Turn(off, o, tot, tot', |src|, m);
      ghost var b, fs1, log1;
      ghost var fs, log := Value(), logged;
      ghost var before, chunk, lo, bn := src[..tot], src[tot..tot'], off / 512, o / 512;
      assert WroteBlocks(fs0, fs, i, lo, bn, log0, log) && before + chunk == src[..tot'];
      panic, b, fs1, log1 := PutChunk(i, o, src[tot..tot']);
      if panic {
        NoneLeft(fs0, fs, i, lo, bn, Through(off, |src|));
      } else {
        ChunkWritten(fs0, fs, fs1, Value(), i, off, before, chunk, src[..tot'], |src|, tot, tot', o, b, log0, log, log1, logged);
      }
    }

    /** bmap, and the bytes copied into the buffer and logged. */
    method PutChunk(i: nat, o: nat, chunk: seq<Byte>) returns (panic: bool, ghost b: nat, ghost fs1: Fs, ghost log1: set<LogBlock>)
      requires Inv(Value()) && i < |inodes| && o < MAXBYTES && o % 512 + |chunk| <= BSIZE
      modifies this`bitmap, this`disk, this`inodes, this`logged
      ensures panic <==> FreeCount(old(bitmap)) < |Missing(old(Value()), DataLoc(i, o / 512))|
      ensures panic ==> NoneFree()
      ensures !panic ==> TurnDone(old(Value()), fs1, Value(), i, o, chunk, b, old(logged), log1, logged)
    {
      var addr := Bmap(i, o / 512);
      panic, fs1, log1 := addr.None?, Value(), logged;
      if addr.Some? {
        b := addr.value;
        disk := disk[addr.value := Patched(disk[addr.value], o % 512, chunk)];
        logged := logged + {Whole(addr.value)};
      } else {
        b := 0;
      }
    }
  }

  /** Block 139 of a file comes with its indirect and the double-indirect block; when the file
      is truncated the latter stays marked, although no file has any block left. */
  method LosesABlock() returns (fs: FileSystem, ghost lost: nat)
    ensures fresh(fs) && Inv(fs.Value()) && Stray(fs.Value(), lost)
  {
    fs := new FileSystem(4, 1, 1);
    ghost var l := Leaf(0, 0, 0);
    MissingCount(fs.Value(), l);
    MissingCount(fs.Value(), Parent(l));
    MissingCount(fs.Value(), Addr(0, NDIRECT + 1));
    assert |Missing(fs.Value(), l)| <= 3;
    var addr := fs.Bmap(0, 139);
    assert Ref(fs.Value(), l) != 0 && Ref(fs.Value(), Dbl(0, 0)) != 0;
    lost := fs.inodes[0].addrs[NDIRECT + 1];
    var ok := fs.Itrunc(0);
  }
}

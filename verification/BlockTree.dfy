/** The block map of the file system as a value: a bitmap, blocks of 512 bytes, and inodes
    whose 13 addresses name data blocks, an indirect block and a double-indirect block. */
module BlockTree {

  const BSIZE: nat := 512
  const NDIRECT: nat := 11
  const NINDIRECT: nat := 128
  const MAXFILE: nat := 16523   // NDIRECT + NINDIRECT + NINDIRECT * NINDIRECT
  const WORD: nat := 0x1_0000_0000

  type Byte = b: int | 0 <= b < 256
  type Block = s: seq<Byte> | |s| == BSIZE witness Zeros()

  function Zeros(): (z: seq<Byte>)
    ensures |z| == BSIZE && forall k :: 0 <= k < BSIZE ==> z[k] == 0
  {
    seq(BSIZE, _ => 0)
  }

  /** Entry j of an indirect block: a little-endian 32-bit word. */
  function Word(b: Block, j: nat): nat {
    if j >= NINDIRECT then 0
    else
      var b0: int, b1: int, b2: int, b3: int := b[4 * j], b[4 * j + 1], b[4 * j + 2], b[4 * j + 3];
      b0 + 0x100 * b1 + 0x1_0000 * b2 + 0x100_0000 * b3
  }

  function SetWord(b: Block, j: nat, w: nat): Block
    requires j < NINDIRECT && w < WORD
  {
    b[4 * j := w % 0x100][4 * j + 1 := w / 0x100 % 0x100][4 * j + 2 := w / 0x1_0000 % 0x100][4 * j + 3 := w / 0x100_0000]
  }

  lemma WordBytes(w: nat)
    requires w < WORD
    ensures w == w % 0x100 + 0x100 * (w / 0x100 % 0x100) + 0x1_0000 * (w / 0x1_0000 % 0x100) + 0x100_0000 * (w / 0x100_0000)
  {
    assert w / 0x1_0000 == w / 0x100 / 0x100;
    assert w / 0x100_0000 == w / 0x1_0000 / 0x100;
  }

  lemma WordOfSetWord(b: Block, j: nat, w: nat, k: nat)
    requires j < NINDIRECT && w < WORD
    ensures Word(SetWord(b, j, w), k) == if k == j then w else Word(b, k)
  {
    WordBytes(w);
  }

  /** The least significant byte comes first, and no other byte is touched. */
  lemma SetWordBytes(b: Block, j: nat, w: nat, k: nat)
    requires j < NINDIRECT && w < WORD && k < BSIZE
    ensures SetWord(b, j, w)[k] ==
      if k == 4 * j then w % 0x100 else if k == 4 * j + 1 then w / 0x100 % 0x100
      else if k == 4 * j + 2 then w / 0x1_0000 % 0x100 else if k == 4 * j + 3 then w / 0x100_0000
      else b[k]
  {
  }

  lemma WordOfZeros(j: nat)
    ensures Word(Zeros(), j) == 0
  {
  }

  datatype Inode = Inode(addrs: seq<nat>, size: nat)

  datatype Fs = Fs(bitmap: seq<bool>, disk: seq<Block>, inodes: seq<Inode>)

  // ----- Places that hold a block number -----

  /** addrs[k] of inode i; entry j of its indirect block; entry j of its double-indirect
      block; entry k of the indirect block named by that entry. */
  datatype Loc = Addr(i: nat, k: nat) | Ind(i: nat, j: nat) | Dbl(i: nat, j: nat) | Leaf(i: nat, j: nat, k: nat)

  function Parent(l: Loc): Loc
    requires !l.Addr?
  {
    match l
    case Ind(i, _) => Addr(i, NDIRECT)
    case Dbl(i, _) => Addr(i, NDIRECT + 1)
    case Leaf(i, j, _) => Dbl(i, j)
  }

  function Slot(l: Loc): nat
    requires !l.Addr?
  {
    match l
    case Ind(_, j) => j
    case Dbl(_, j) => j
    case Leaf(_, _, k) => k
  }

  function Rank(l: Loc): nat {
    if l.Addr? then 0 else if l.Leaf? then 2 else 1
  }

  /** Names a block of the file's bytes, rather than a block of block numbers. */
  predicate IsData(l: Loc) {
    match l
    case Addr(_, k) => k < NDIRECT
    case Ind(_, _) => true
    case Dbl(_, _) => false
    case Leaf(_, _, _) => true
  }

  function BlockAt(fs: Fs, b: nat): Block {
    if b < |fs.disk| then fs.disk[b] else Zeros()
  }

  /** The block number held at l; 0 stands for none. */
  function Ref(fs: Fs, l: Loc): nat
    decreases Rank(l)
  {
    if l.Addr? then
      if l.i < |fs.inodes| && l.k < |fs.inodes[l.i].addrs| then fs.inodes[l.i].addrs[l.k] else 0
    else
      var p := Ref(fs, Parent(l));
      if p == 0 then 0 else Word(BlockAt(fs, p), Slot(l))
  }

  /** Where block bn of inode i is recorded. */
  function DataLoc(i: nat, bn: nat): (l: Loc)
    ensures l.i == i && IsData(l)
  {
    if bn < NDIRECT then Addr(i, bn)
    else if bn - NDIRECT < NINDIRECT then Ind(i, bn - NDIRECT)
    else var n := bn - NDIRECT - NINDIRECT; Leaf(i, n / 128, n % 128)
  }

  lemma DataLocInjective(i: nat, bn: nat, bn': nat)
    ensures DataLoc(i, bn) == DataLoc(i, bn') ==> bn == bn'
  {
  }

  // ----- Ownership -----

  ghost predicate Shape(fs: Fs) {
    && |fs.bitmap| == |fs.disk| < WORD
    && forall i :: 0 <= i < |fs.inodes| ==> |fs.inodes[i].addrs| == NDIRECT + 2
  }

  /** The bitmap knows every block in use; block 0 is never free. */
  ghost predicate Marked(fs: Fs) {
    && |fs.bitmap| > 0 && fs.bitmap[0]
    && forall l :: Ref(fs, l) != 0 ==> Ref(fs, l) < |fs.bitmap| && fs.bitmap[Ref(fs, l)]
  }

  /** Every block number occurs at one place at most, in all the inodes' trees. */
  ghost predicate Unshared(fs: Fs) {
    forall l, l' :: Separate(fs, l, l')
  }

  predicate Separate(fs: Fs, l: Loc, l': Loc) {
    Ref(fs, l) != 0 && Ref(fs, l) == Ref(fs, l') ==> l == l'
  }

  ghost predicate Inv(fs: Fs) {
    Shape(fs) && Marked(fs) && Unshared(fs)
  }

  lemma InvFacts(fs: Fs)
    requires Inv(fs)
    ensures forall l, l' :: Ref(fs, l) != 0 && Ref(fs, l) == Ref(fs, l') ==> l == l'
  {
    forall l, l' ensures Ref(fs, l) != 0 && Ref(fs, l) == Ref(fs, l') ==> l == l' {
      assert Separate(fs, l, l');
    }
  }

  /** Block bn of inode i has the number b: the first 11 numbers are the inode's own, the next
      128 are entries of the block its address 11 names, and the others are entries of the
      blocks that the entries of the block its address 12 names name. */
  ghost predicate Names(fs: Fs, i: nat, bn: nat, b: nat) {
    && i < |fs.inodes| && |fs.inodes[i].addrs| == 13
    && var a := fs.inodes[i].addrs;
      if bn < 11 then b == a[bn]
      else if bn < 139 then a[11] < |fs.disk| && b == Word(fs.disk[a[11]], bn - 11)
      else
        && a[12] < |fs.disk|
        && var e := Word(fs.disk[a[12]], (bn - 139) / 128);
          e < |fs.disk| && b == Word(fs.disk[e], (bn - 139) % 128)
  }

  lemma DataLocNames(fs: Fs, i: nat, bn: nat, l: Loc)
    requires Inv(fs) && i < |fs.inodes| && l == DataLoc(i, bn) && Ref(fs, l) != 0
    ensures Names(fs, i, bn, Ref(fs, l)) && Ref(fs, l) < |fs.disk|
    ensures forall b: nat :: Names(fs, i, bn, b) ==> b == Ref(fs, l)
  {
    if !l.Addr? {
      assert Ref(fs, Parent(l)) != 0;
      if l.Leaf? {
        assert Ref(fs, Parent(Parent(l))) == fs.inodes[i].addrs[12] != 0;
      } else {
        assert Ref(fs, Parent(l)) == fs.inodes[i].addrs[11];
      }
    }
  }

  // ----- The three changes made to the disk -----

  /** balloc: mark b and zero it. */
  function Allocated(fs: Fs, b: nat): Fs
    requires b < |fs.bitmap| == |fs.disk|
  {
    fs.(bitmap := fs.bitmap[b := true], disk := fs.disk[b := Zeros()])
  }

  lemma {:induction false} AllocatedRef(fs: Fs, b: nat, l: Loc)
    requires Shape(fs) && Marked(fs) && b < |fs.bitmap| && !fs.bitmap[b]
    ensures Ref(Allocated(fs, b), l) == Ref(fs, l) != b
    decreases Rank(l)
  {
    if !l.Addr? {
      AllocatedRef(fs, b, Parent(l));
    }
  }

  /** Recording the number b at l. */
  function Recorded(fs: Fs, l: Loc, b: nat): Fs
    requires b < WORD
    requires if l.Addr? then l.i < |fs.inodes| && l.k < |fs.inodes[l.i].addrs|
             else Slot(l) < NINDIRECT && Ref(fs, Parent(l)) < |fs.disk|
  {
    if l.Addr? then fs.(inodes := fs.inodes[l.i := fs.inodes[l.i].(addrs := fs.inodes[l.i].addrs[l.k := b])])
    else var p := Ref(fs, Parent(l)); fs.(disk := fs.disk[p := SetWord(fs.disk[p], Slot(l), b)])
  }

  /** Recording a zeroed, unused block at a place that held none changes that place only. */
  lemma {:induction false} RecordedRef(fs: Fs, l: Loc, b: nat, l': Loc)
    requires Inv(fs) && 0 < b < |fs.disk| && fs.disk[b] == Zeros() && Ref(fs, l) == 0
    requires forall m :: Ref(fs, m) != b
    requires if l.Addr? then l.i < |fs.inodes| && l.k < NDIRECT + 2 else Slot(l) < NINDIRECT && Ref(fs, Parent(l)) != 0
    ensures Ref(Recorded(fs, l, b), l') == if l' == l then b else Ref(fs, l')
    decreases Rank(l')
  {
    if !l'.Addr? {
      InvFacts(fs);
      RecordedRef(fs, l, b, Parent(l'));
      WordOfZeros(Slot(l'));
      if !l.Addr? {
        WordOfSetWord(BlockAt(fs, Ref(fs, Parent(l))), Slot(l), b, Slot(l'));
      }
    }
  }

  /** Writing bytes into a data block. */
  function Written(fs: Fs, b: nat, blk: Block): Fs
    requires b < |fs.disk|
  {
    fs.(disk := fs.disk[b := blk])
  }

  lemma {:induction false} WrittenRef(fs: Fs, l: Loc, blk: Block, l': Loc)
    requires Inv(fs) && IsData(l) && Ref(fs, l) != 0
    ensures Ref(Written(fs, Ref(fs, l), blk), l') == Ref(fs, l')
    decreases Rank(l')
  {
    if !l'.Addr? {
      assert Separate(fs, l, Parent(l'));
      WrittenRef(fs, l, blk, Parent(l'));
      assert !IsData(Parent(l'));
    }
  }

  // ----- Growing a file -----

  /** Marked in the bitmap, but recorded nowhere: blocks of metadata, and blocks lost. */
  ghost predicate Stray(fs: Fs, b: nat) {
    0 < b < |fs.bitmap| && fs.bitmap[b] && forall l :: Ref(fs, l) != b
  }

  /** fs' is fs with more blocks, all zeroed, recorded for inode i, and nothing else changed. */
  ghost predicate Extends(fs: Fs, fs': Fs, i: nat) {
    && |fs'.bitmap| == |fs.bitmap| && |fs'.disk| == |fs.disk| && |fs'.inodes| == |fs.inodes|
    && (forall k :: 0 <= k < |fs.inodes| ==> fs'.inodes[k].size == fs.inodes[k].size)
    && (forall k :: 0 <= k < |fs.inodes| && k != i ==> fs'.inodes[k] == fs.inodes[k])
    && (forall l :: ExtendsAt(fs, fs', i, l))
    && (forall b: nat :: StraySame(fs, fs', b))
  }

  predicate ExtendsAt(fs: Fs, fs': Fs, i: nat, l: Loc) {
    && (Ref(fs, l) != 0 || l.i != i ==> Ref(fs', l) == Ref(fs, l))
    && (IsData(l) && Ref(fs, l) != 0 ==> BlockAt(fs', Ref(fs, l)) == BlockAt(fs, Ref(fs, l)))
    && (IsData(l) && Ref(fs, l) == 0 && Ref(fs', l) != 0 ==> BlockAt(fs', Ref(fs', l)) == Zeros())
  }

  ghost predicate StraySame(fs: Fs, fs': Fs, b: nat) {
    Stray(fs', b) <==> Stray(fs, b)
  }

  lemma ExtendsTrans(fs: Fs, fs1: Fs, fs2: Fs, i: nat)
    requires Extends(fs, fs1, i) && Extends(fs1, fs2, i)
    ensures Extends(fs, fs2, i)
  {
    forall l ensures ExtendsAt(fs, fs2, i, l) {
      assert ExtendsAt(fs, fs1, i, l) && ExtendsAt(fs1, fs2, i, l);
    }
    forall b: nat ensures StraySame(fs, fs2, b) {
      assert StraySame(fs, fs1, b) && StraySame(fs1, fs2, b);
    }
  }

  predicate CanRecord(fs: Fs, l: Loc) {
    if l.Addr? then l.i < |fs.inodes| && l.k < NDIRECT + 2 else Slot(l) < NINDIRECT && Ref(fs, Parent(l)) != 0
  }

  /** balloc a block for l and record it there. */
  function AllocatedAt(fs: Fs, l: Loc, b: nat): Fs
    requires b < |fs.bitmap| == |fs.disk| < WORD && CanRecord(fs, l)
    requires Ref(Allocated(fs, b), l) == Ref(fs, l)
    requires if l.Addr? then |fs.inodes[l.i].addrs| == NDIRECT + 2 else 0 < Ref(Allocated(fs, b), Parent(l)) < |fs.disk|
  {
    Recorded(Allocated(fs, b), l, b)
  }

  predicate Fresh(fs: Fs, l: Loc, b: nat) {
    0 < b < |fs.bitmap| && !fs.bitmap[b] && Ref(fs, l) == 0 && CanRecord(fs, l)
  }

  lemma AllocatedInv(fs: Fs, b: nat)
    requires Inv(fs) && 0 < b < |fs.bitmap| && !fs.bitmap[b]
    ensures Inv(Allocated(fs, b)) && forall m :: Ref(Allocated(fs, b), m) == Ref(fs, m) != b
  {
    forall m ensures Ref(Allocated(fs, b), m) == Ref(fs, m) != b {
      AllocatedRef(fs, b, m);
    }
    forall m, m' ensures Separate(Allocated(fs, b), m, m') {
      assert Separate(fs, m, m');
    }
  }

  lemma AllocatedAtRefs(fs: Fs, l: Loc, b: nat)
    requires Inv(fs) && Fresh(fs, l, b)
    ensures forall m :: Ref(Allocated(fs, b), m) == Ref(fs, m) != b
    ensures Ref(Allocated(fs, b), l) == Ref(fs, l) && (!l.Addr? ==> Ref(Allocated(fs, b), Parent(l)) == Ref(fs, Parent(l)))
    ensures forall m :: Ref(AllocatedAt(fs, l, b), m) == if m == l then b else Ref(fs, m)
  {
    AllocatedInv(fs, b);
    var fs1 := Allocated(fs, b);
    forall m ensures Ref(Recorded(fs1, l, b), m) == if m == l then b else Ref(fs, m) {
      RecordedRef(fs1, l, b, m);
    }
  }

  lemma AllocatedAtInv(fs: Fs, l: Loc, b: nat, fs': Fs)
    requires Inv(fs) && Fresh(fs, l, b)
    requires fs'.bitmap == fs.bitmap[b := true] && Shape(fs')
    requires forall m :: Ref(fs', m) == if m == l then b else Ref(fs, m)
    requires forall m :: Ref(fs, m) != b
    ensures Inv(fs')
    ensures forall c: nat :: Stray(fs', c) <==> Stray(fs, c)
  {
    assert Ref(fs', l) == b;
    forall m, m' ensures Separate(fs', m, m') {
      assert Separate(fs, m, m');
    }
    forall c: nat | c != b ensures Stray(fs', c) <==> Stray(fs, c) {
      assert Ref(fs, l) == 0;
    }
  }

  lemma AllocatedAtBlocks(fs: Fs, l: Loc, b: nat, fs': Fs, m: Loc)
    requires Inv(fs) && Fresh(fs, l, b) && IsData(m)
    requires Ref(Allocated(fs, b), l) == Ref(fs, l) && (!l.Addr? ==> Ref(Allocated(fs, b), Parent(l)) == Ref(fs, Parent(l)))
    requires fs' == AllocatedAt(fs, l, b) && Ref(fs, m) != b
    ensures Ref(fs, m) != 0 ==> BlockAt(fs', Ref(fs, m)) == BlockAt(fs, Ref(fs, m))
    ensures BlockAt(fs', b) == Zeros() || (!l.Addr? && Ref(fs, Parent(l)) == b)
  {
    assert !l.Addr? ==> !IsData(Parent(l));
    InvFacts(fs);
  }

  lemma AllocateAt(fs: Fs, l: Loc, b: nat)
    requires Inv(fs) && Fresh(fs, l, b)
    ensures Ref(Allocated(fs, b), l) == Ref(fs, l) && (!l.Addr? ==> Ref(Allocated(fs, b), Parent(l)) == Ref(fs, Parent(l)))
    ensures var fs' := AllocatedAt(fs, l, b);
      Inv(fs') && Extends(fs, fs', l.i) && Ref(fs', l) == b && forall m :: m != l ==> Ref(fs', m) == Ref(fs, m)
  {
    AllocatedAtRefs(fs, l, b);
    var fs' := AllocatedAt(fs, l, b);
    AllocatedAtInv(fs, l, b, fs');
    AllocatedAtBlocks(fs, l, b, fs', DataLoc(0, 0));
    forall m ensures ExtendsAt(fs, fs', l.i, m) {
      if IsData(m) {
        AllocatedAtBlocks(fs, l, b, fs', m);
      }
    }
    forall c: nat ensures StraySame(fs, fs', c) {
    }
  }
}

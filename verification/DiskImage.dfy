/** The image as mkfs.c lays it out and fs.h stores it: inodes, bitmap and blocks as 32-bit
    words. The type, device and link count of an inode are left at 0. */
module DiskImage {
  import opened BlockTree
  import opened CrashSafety
  import opened Growth
  import opened WriteLog
  import LogRecovery

  function BlockWords(b: Block): (w: Words)
    ensures |w| == LogRecovery.WORDS
  {
    seq(LogRecovery.WORDS, j requires j >= 0 => Word(b, j))
  }

  /** The bits from c up to `end`, the first one lowest. */
  function BitWord(bitmap: seq<bool>, c: nat, end: nat): nat
    decreases end - c
  {
    if c >= end then 0 else (if c < |bitmap| && bitmap[c] then 1 else 0) + 2 * BitWord(bitmap, c + 1, end)
  }

  function BitWords(bitmap: seq<bool>, k: nat): (w: Words)
    ensures |w| == LogRecovery.WORDS
  {
    seq(LogRecovery.WORDS, j requires j >= 0 => BitWord(bitmap, k * 4096 + j * 32, k * 4096 + j * 32 + 32))
  }

  /** Word w of dinode j: 16 words, the size in the third and then the addresses. */
  function InodeWord(fs: Fs, j: nat, w: nat): nat {
    if j >= |fs.inodes| || w < 2 then 0
    else if w == 2 then fs.inodes[j].size
    else if w - 3 < |fs.inodes[j].addrs| then fs.inodes[j].addrs[w - 3]
    else 0
  }

  function InodeWords(fs: Fs, k: nat): (w: Words)
    ensures |w| == LogRecovery.WORDS
  {
    seq(LogRecovery.WORDS, t requires t >= 0 => InodeWord(fs, k * 8 + t / 16, t % 16))
  }

  function WordsAt(fs: Fs, x: LogBlock): (w: Words)
    ensures |w| == LogRecovery.WORDS
  {
    match x
    case Whole(b) => BlockWords(BlockAt(fs, b))
    case Bits(k) => BitWords(fs.bitmap, k)
    case Inodes(k) => InodeWords(fs, k)
  }

  function NumberOf(inodestart: nat, bmapstart: nat, x: LogBlock): nat {
    match x
    case Whole(b) => b
    case Bits(k) => bmapstart + k
    case Inodes(k) => inodestart + k
  }

  /** mkfs.c: the inodes' blocks, then the bitmap's, then those of files. */
  function Mkfs(inodestart: nat, ninodes: nat, size: nat): Layout {
    var bmapstart := inodestart + ninodes / 8 + 1;
    Layout(bmapstart + size / 4096 + 1, x => NumberOf(inodestart, bmapstart, x), (fs, x) => WordsAt(fs, x))
  }

  lemma {:induction false} SameBitWord(b1: seq<bool>, b2: seq<bool>, c: nat, end: nat)
    requires |b1| == |b2| && forall d: nat :: c <= d < end && d < |b1| ==> b1[d] == b2[d]
    ensures BitWord(b1, c, end) == BitWord(b2, c, end)
    decreases end - c
  {
    if c < end {
      SameBitWord(b1, b2, c + 1, end);
    }
  }

  lemma SameBits(fs1: Fs, fs2: Fs, k: nat, c: nat, end: nat)
    requires |fs1.bitmap| == |fs2.bitmap| && SameBlock(fs1, fs2, Bits(k)) && k * 4096 <= c <= end <= (k + 1) * 4096
    ensures BitWord(fs1.bitmap, c, end) == BitWord(fs2.bitmap, c, end)
  {
    forall d: nat | c <= d < end && d < |fs1.bitmap| ensures fs1.bitmap[d] == fs2.bitmap[d] {
      assert d / 4096 == k;
      assert SameBit(fs1, fs2, d);
    }
    SameBitWord(fs1.bitmap, fs2.bitmap, c, end);
  }

  lemma SameBitWords(fs1: Fs, fs2: Fs, k: nat)
    requires |fs1.bitmap| == |fs2.bitmap| && SameBlock(fs1, fs2, Bits(k))
    ensures BitWords(fs1.bitmap, k) == BitWords(fs2.bitmap, k)
  {
    forall j: nat | j < LogRecovery.WORDS ensures BitWords(fs1.bitmap, k)[j] == BitWords(fs2.bitmap, k)[j] {
      SameBits(fs1, fs2, k, k * 4096 + j * 32, k * 4096 + j * 32 + 32);
    }
  }

  lemma SameInodeWords(fs1: Fs, fs2: Fs, k: nat)
    requires |fs1.inodes| == |fs2.inodes| && SameBlock(fs1, fs2, Inodes(k))
    ensures InodeWords(fs1, k) == InodeWords(fs2, k)
  {
    forall t: nat | t < LogRecovery.WORDS ensures InodeWords(fs1, k)[t] == InodeWords(fs2, k)[t] {
      var j := k * 8 + t / 16;
      assert j / 8 == k;
      assert SameInode(fs1, fs2, j);
    }
  }

  lemma WordsSame(fs1: Fs, fs2: Fs, x: LogBlock)
    requires SameSize(fs1, fs2) && SameBlock(fs1, fs2, x)
    ensures WordsAt(fs1, x) == WordsAt(fs2, x)
  {
    match x
    case Whole(b) => assert SameBytes(fs1, fs2, b);
    case Bits(k) => SameBitWords(fs1, fs2, k);
    case Inodes(k) => SameInodeWords(fs1, fs2, k);
  }

  /** The layout is one that keeps blocks apart, so file operations on it survive crashes. */
  lemma MkfsGood(inodestart: nat, fs: Fs)
    ensures GoodLayout(Mkfs(inodestart, |fs.inodes|, |fs.bitmap|), fs)
  {
    var l := Mkfs(inodestart, |fs.inodes|, |fs.bitmap|);
    forall x, y ensures Apart(l, fs, x, y) {
      NumbersApart(inodestart, fs, x, y);
    }
    forall fs1, fs2, x ensures SameWords(l, fs1, fs2, x) {
      if SameSize(fs1, fs2) && SameBlock(fs1, fs2, x) {
        WordsSame(fs1, fs2, x);
      }
    }
  }

  lemma NumbersApart(inodestart: nat, fs: Fs, x: LogBlock, y: LogBlock)
    ensures Apart(Mkfs(inodestart, |fs.inodes|, |fs.bitmap|), fs, x, y)
  {
  }

  /** And no byte is lost by it. */
  lemma WordsDetermine(b: Block, c: Block)
    requires BlockWords(b) == BlockWords(c)
    ensures b == c
  {
    forall o: nat | o < BSIZE ensures b[o] == c[o] {
      var j := o / 4;
      assert BlockWords(b)[j] == Word(b, j) && BlockWords(c)[j] == Word(c, j);
      WordDetermines(b, c, j);
      assert o == 4 * j || o == 4 * j + 1 || o == 4 * j + 2 || o == 4 * j + 3;
    }
  }

  lemma WordDetermines(b: Block, c: Block, j: nat)
    requires j < NINDIRECT && Word(b, j) == Word(c, j)
    ensures b[4 * j] == c[4 * j] && b[4 * j + 1] == c[4 * j + 1] && b[4 * j + 2] == c[4 * j + 2] && b[4 * j + 3] == c[4 * j + 3]
  {
    FourBytes(b[4 * j], b[4 * j + 1], b[4 * j + 2], b[4 * j + 3], c[4 * j], c[4 * j + 1], c[4 * j + 2], c[4 * j + 3]);
  }

  lemma FourBytes(a0: int, a1: int, a2: int, a3: int, b0: int, b1: int, b2: int, b3: int)
    requires 0 <= a0 < 256 && 0 <= a1 < 256 && 0 <= a2 < 256 && 0 <= a3 < 256
    requires 0 <= b0 < 256 && 0 <= b1 < 256 && 0 <= b2 < 256 && 0 <= b3 < 256
    requires a0 + 0x100 * a1 + 0x1_0000 * a2 + 0x100_0000 * a3 == b0 + 0x100 * b1 + 0x1_0000 * b2 + 0x100_0000 * b3
    ensures a0 == b0 && a1 == b1 && a2 == b2 && a3 == b3
  {
    assert a3 == b3;
    assert a2 == b2;
    assert a1 == b1;
  }
}

/** The bytes of a file, read through the block map, and what one chunk written changes. */
module FileBytes {
  import opened BlockTree

  const MAXBYTES: nat := MAXFILE * 512

  function FileByte(fs: Fs, i: nat, o: nat): Byte {
    BlockAt(fs, Ref(fs, DataLoc(i, o / 512)))[o % 512]
  }

  /** Every block below `upto`, rounded up, has been allocated. */
  ghost predicate Backed(fs: Fs, i: nat, upto: nat) {
    forall bn: nat :: bn * 512 < upto ==> Ref(fs, DataLoc(i, bn)) != 0
  }

  ghost predicate Sound(fs: Fs) {
    && Inv(fs)
    && forall i :: 0 <= i < |fs.inodes| ==> fs.inodes[i].size <= MAXBYTES && Backed(fs, i, fs.inodes[i].size)
  }

  function Content(fs: Fs, i: nat): (s: seq<Byte>)
    requires i < |fs.inodes|
    ensures |s| == fs.inodes[i].size && forall o :: 0 <= o < |s| ==> s[o] == FileByte(fs, i, o)
  {
    seq(fs.inodes[i].size, o requires o >= 0 => FileByte(fs, i, o))
  }

  /** Byte o of a file is byte o % 512 of the block that its block o / 512 is. */
  lemma ContentNamed(fs: Fs, i: nat, o: nat)
    requires Sound(fs) && i < |fs.inodes| && o < fs.inodes[i].size
    ensures exists b: nat :: Names(fs, i, o / 512, b)
    ensures forall b: nat :: Names(fs, i, o / 512, b) ==> 0 < b < |fs.disk| && Content(fs, i)[o] == fs.disk[b][o % 512]
  {
    assert Backed(fs, i, fs.inodes[i].size);
    DataLocNames(fs, i, o / 512, DataLoc(i, o / 512));
  }

  /** s with `bytes` written at off, longer if need be. */
  function Splice(s: seq<Byte>, off: nat, bytes: seq<Byte>): (r: seq<Byte>)
    requires off <= |s|
    ensures |r| == if off + |bytes| > |s| then off + |bytes| else |s|
  {
    s[..off] + bytes + if off + |bytes| < |s| then s[off + |bytes|..] else []
  }

  lemma SpliceSplice(s: seq<Byte>, off: nat, a: seq<Byte>, b: seq<Byte>)
    requires off <= |s|
    ensures off + |a| <= |Splice(s, off, a)|
    ensures Splice(Splice(s, off, a), off + |a|, b) == Splice(s, off, a + b)
  {
  }

  /** What was written is read back; the rest is as it was. */
  lemma SpliceReads(s: seq<Byte>, off: nat, bytes: seq<Byte>, o: nat)
    requires off <= |s| && o < |Splice(s, off, bytes)|
    ensures Splice(s, off, bytes)[off..off + |bytes|] == bytes
    ensures !(off <= o < off + |bytes|) ==> o < |s| && Splice(s, off, bytes)[o] == s[o]
  {
  }

  lemma SpliceNothing(s: seq<Byte>, off: nat)
    requires off <= |s|
    ensures Splice(s, off, []) == s
  {
  }

  function Max(a: nat, b: nat): nat {
    if a < b then b else a
  }

  /** Nothing is lost, shared or moved, and no other file is touched. */
  ghost predicate Framed(fs0: Fs, fs: Fs, i: nat)
    requires i < |fs0.inodes|
  {
    && Inv(fs) && |fs.inodes| == |fs0.inodes| && |fs.bitmap| == |fs0.bitmap|
    && fs.inodes[i].size == fs0.inodes[i].size
    && (forall k: nat :: OtherInode(fs0, fs, i, k))
    && (forall l :: FrameAt(fs0, fs, i, l))
    && (forall b: nat :: StraySame(fs0, fs, b))
  }

  predicate OtherInode(fs0: Fs, fs: Fs, i: nat, k: nat) {
    k < |fs0.inodes| && k < |fs.inodes| && k != i ==> fs.inodes[k] == fs0.inodes[k]
  }

  /** A place keeps its block; if it is one of another file, with its bytes. */
  predicate FrameAt(fs0: Fs, fs: Fs, i: nat, l: Loc) {
    && (Ref(fs0, l) != 0 || l.i != i ==> Ref(fs, l) == Ref(fs0, l))
    && (IsData(l) && l.i != i && Ref(fs0, l) != 0 ==> BlockAt(fs, Ref(fs0, l)) == BlockAt(fs0, Ref(fs0, l)))
  }

  /** The blocks of inode i read as in fs0, except for `bytes` from off on. */
  ghost predicate Overwritten(fs0: Fs, fs: Fs, i: nat, off: nat, bytes: seq<Byte>)
    requires i < |fs0.inodes|
  {
    var upto := Max(fs0.inodes[i].size, off + |bytes|);
    && Backed(fs, i, upto)
    && forall o: nat :: ByteAt(fs0, fs, i, off, bytes, upto, o)
  }

  predicate ByteAt(fs0: Fs, fs: Fs, i: nat, off: nat, bytes: seq<Byte>, upto: nat, o: nat) {
    o < upto ==> FileByte(fs, i, o) == if off <= o < off + |bytes| then bytes[o - off] else FileByte(fs0, i, o)
  }

  /** fs is fs0 with `bytes` written into the file; its size is still to be set. */
  ghost predicate WroteTo(fs0: Fs, fs: Fs, i: nat, off: nat, bytes: seq<Byte>)
    requires i < |fs0.inodes|
  {
    Framed(fs0, fs, i) && Overwritten(fs0, fs, i, off, bytes)
  }

  /** A chunk that stays inside one block: bmap found the block, then it was written. */
  ghost predicate ChunkDone(fs: Fs, fs1: Fs, fs2: Fs, i: nat, o: nat, chunk: seq<Byte>) {
    && Inv(fs1) && Extends(fs, fs1, i) && o % 512 + |chunk| <= BSIZE
    && var b := Ref(fs1, DataLoc(i, o / 512));
      b != 0 && b < |fs1.disk| && fs2 == Written(fs1, b, Patched(BlockAt(fs1, b), o % 512, chunk))
  }

  function Patched(blk: Block, at: nat, chunk: seq<Byte>): (r: Block)
    requires at + |chunk| <= BSIZE
    ensures forall k :: 0 <= k < BSIZE ==> r[k] == if at <= k < at + |chunk| then chunk[k - at] else blk[k]
  {
    blk[..at] + chunk + blk[at + |chunk|..]
  }

  /** Nothing is lost and nothing shared by writing into a data block. */
  lemma WrittenInv(fs: Fs, l: Loc, blk: Block)
    requires Inv(fs) && IsData(l) && Ref(fs, l) != 0
    ensures var fs' := Written(fs, Ref(fs, l), blk);
      Inv(fs') && (forall m :: Ref(fs', m) == Ref(fs, m)) && forall b: nat :: Stray(fs', b) <==> Stray(fs, b)
  {
    var fs' := Written(fs, Ref(fs, l), blk);
    forall m ensures Ref(fs', m) == Ref(fs, m) {
      WrittenRef(fs, l, blk, m);
    }
    forall m, m' ensures Separate(fs', m, m') {
      assert Separate(fs, m, m');
    }
  }

  lemma PatchedByte(blk: Block, bn: nat, at: nat, chunk: seq<Byte>, o: nat)
    requires at + |chunk| <= BSIZE && o / 512 == bn
    ensures Patched(blk, at, chunk)[o % 512] == if bn * 512 + at <= o < bn * 512 + at + |chunk| then chunk[o - bn * 512 - at] else blk[o % 512]
  {
    assert o == bn * 512 + o % 512;
  }

  /** Block bn of inode i, and what it holds after a chunk has been written there. */
  lemma WrittenByte(fs: Fs, i: nat, bn: nat, at: nat, chunk: seq<Byte>, o: nat)
    requires Inv(fs) && Ref(fs, DataLoc(i, bn)) != 0 && at + |chunk| <= BSIZE
    requires Ref(fs, DataLoc(i, o / 512)) != 0
    ensures var b := Ref(fs, DataLoc(i, bn)); var fs' := Written(fs, b, Patched(BlockAt(fs, b), at, chunk));
      FileByte(fs', i, o) == if bn * 512 + at <= o < bn * 512 + at + |chunk| then chunk[o - bn * 512 - at] else FileByte(fs, i, o)
  {
    var b := Ref(fs, DataLoc(i, bn));
    WrittenRef(fs, DataLoc(i, bn), Patched(BlockAt(fs, b), at, chunk), DataLoc(i, o / 512));
    if o / 512 == bn {
      PatchedByte(BlockAt(fs, b), bn, at, chunk, o);
    } else {
      assert Separate(fs, DataLoc(i, bn), DataLoc(i, o / 512));
      DataLocInjective(i, bn, o / 512);
    }
  }

  /** bmap leaves all bytes already there. */
  lemma ExtendedByte(fs: Fs, fs1: Fs, i: nat, j: nat, o: nat)
    requires Extends(fs, fs1, i) && Ref(fs, DataLoc(j, o / 512)) != 0
    ensures Ref(fs1, DataLoc(j, o / 512)) == Ref(fs, DataLoc(j, o / 512)) && FileByte(fs1, j, o) == FileByte(fs, j, o)
  {
    assert ExtendsAt(fs, fs1, i, DataLoc(j, o / 512));
  }

  lemma ChunkBytes(fs0: Fs, fs: Fs, fs1: Fs, fs2: Fs, i: nat, off: nat, o: nat, bytes: seq<Byte>, chunk: seq<Byte>)
    requires i < |fs0.inodes| && Overwritten(fs0, fs, i, off, bytes) && off <= fs0.inodes[i].size
    requires o == off + |bytes| && ChunkDone(fs, fs1, fs2, i, o, chunk)
    ensures Overwritten(fs0, fs2, i, off, bytes + chunk)
  {
    var upto := Max(fs0.inodes[i].size, off + |bytes + chunk|);
    WrittenInv(fs1, DataLoc(i, o / 512), Patched(BlockAt(fs1, Ref(fs1, DataLoc(i, o / 512))), o % 512, chunk));
    forall bn: nat | bn * 512 < upto ensures Ref(fs1, DataLoc(i, bn)) != 0 {
      if bn != o / 512 {
        assert bn * 512 < Max(fs0.inodes[i].size, o) && ExtendsAt(fs, fs1, i, DataLoc(i, bn));
      }
    }
    var all := bytes + chunk;
    forall p: nat ensures ByteAt(fs0, fs2, i, off, all, upto, p) {
      if p < upto {
        assert p / 512 * 512 < upto;
        WrittenByte(fs1, i, o / 512, o % 512, chunk, p);
        if p < Max(fs0.inodes[i].size, o) {
          assert p / 512 * 512 < Max(fs0.inodes[i].size, o);
          ExtendedByte(fs, fs1, i, i, p);
          assert ByteAt(fs0, fs, i, off, bytes, Max(fs0.inodes[i].size, o), p);
        }
      }
    }
  }

  /** The chunk's block belongs to no other file. */
  lemma ChunkFrame(fs0: Fs, fs: Fs, fs1: Fs, fs2: Fs, i: nat, o: nat, chunk: seq<Byte>)
    requires i < |fs0.inodes| && Framed(fs0, fs, i) && ChunkDone(fs, fs1, fs2, i, o, chunk)
    ensures Framed(fs0, fs2, i)
  {
    var l := DataLoc(i, o / 512);
    WrittenInv(fs1, l, Patched(BlockAt(fs1, Ref(fs1, l)), o % 512, chunk));
    forall m ensures FrameAt(fs0, fs2, i, m) {
      assert FrameAt(fs0, fs, i, m) && ExtendsAt(fs, fs1, i, m) && Separate(fs1, m, l);
      assert IsData(m) && m.i != i && Ref(fs0, m) != 0 ==> Ref(fs1, m) == Ref(fs, m) == Ref(fs0, m) != Ref(fs1, l);
    }
    forall k: nat ensures OtherInode(fs0, fs2, i, k) {
      assert OtherInode(fs0, fs, i, k);
    }
    forall b: nat ensures StraySame(fs0, fs2, b) {
      assert StraySame(fs0, fs, b) && StraySame(fs, fs1, b);
    }
  }

  function Sized(fs: Fs, i: nat, size: nat): Fs
    requires i < |fs.inodes|
  {
    fs.(inodes := fs.inodes[i := fs.inodes[i].(size := size)])
  }

  lemma {:induction false} SizedRef(fs: Fs, i: nat, size: nat, l: Loc)
    requires i < |fs.inodes|
    ensures Ref(Sized(fs, i, size), l) == Ref(fs, l)
    decreases Rank(l)
  {
    if !l.Addr? {
      SizedRef(fs, i, size, Parent(l));
    }
  }

  /** With the size set, every file is backed as before. */
  lemma WroteSound(fs0: Fs, fs: Fs, i: nat, off: nat, bytes: seq<Byte>, size: nat)
    requires Sound(fs0) && i < |fs0.inodes| && WroteTo(fs0, fs, i, off, bytes)
    requires size == Max(fs0.inodes[i].size, off + |bytes|) && size <= MAXBYTES
    ensures Sound(Sized(fs, i, size)) && forall l :: Ref(Sized(fs, i, size), l) == Ref(fs, l)
  {
    var fs' := Sized(fs, i, size);
    forall l ensures Ref(fs', l) == Ref(fs, l) {
      SizedRef(fs, i, size, l);
    }
    forall m, m' ensures Separate(fs', m, m') {
      assert Separate(fs, m, m');
    }
    forall k: nat | k < |fs.inodes| ensures fs'.inodes[k].size <= MAXBYTES && Backed(fs', k, fs'.inodes[k].size) {
      assert OtherInode(fs0, fs, i, k);
      if k != i {
        OtherBacked(fs0, fs, i, k);
      }
    }
  }

  lemma OtherBacked(fs0: Fs, fs: Fs, i: nat, k: nat)
    requires Sound(fs0) && i < |fs0.inodes| && Framed(fs0, fs, i) && k < |fs0.inodes|
    ensures Backed(fs, k, fs0.inodes[k].size)
  {
    assert Backed(fs0, k, fs0.inodes[k].size);
    forall bn: nat | bn * 512 < fs0.inodes[k].size ensures Ref(fs, DataLoc(k, bn)) != 0 {
      assert FrameAt(fs0, fs, i, DataLoc(k, bn));
    }
  }

  lemma OtherContent(fs0: Fs, fs: Fs, fs': Fs, i: nat, j: nat)
    requires Sound(fs0) && i < |fs0.inodes| && Framed(fs0, fs, i) && j < |fs0.inodes| && j != i
    requires fs'.disk == fs.disk && |fs'.inodes| == |fs.inodes| && fs'.inodes[j] == fs.inodes[j] && forall l :: Ref(fs', l) == Ref(fs, l)
    ensures Content(fs', j) == Content(fs0, j)
  {
    assert OtherInode(fs0, fs, i, j);
    forall o | 0 <= o < fs0.inodes[j].size ensures FileByte(fs', j, o) == FileByte(fs0, j, o) {
      assert o / 512 * 512 < fs0.inodes[j].size && Backed(fs0, j, fs0.inodes[j].size);
      assert FrameAt(fs0, fs, i, DataLoc(j, o / 512));
    }
  }

  lemma OwnContent(fs0: Fs, fs: Fs, fs': Fs, i: nat, off: nat, bytes: seq<Byte>)
    requires i < |fs0.inodes| && i < |fs'.inodes| && off <= fs0.inodes[i].size && Overwritten(fs0, fs, i, off, bytes)
    requires fs'.disk == fs.disk && (forall l :: Ref(fs', l) == Ref(fs, l)) && fs'.inodes[i].size == Max(fs0.inodes[i].size, off + |bytes|)
    ensures Content(fs', i) == Splice(Content(fs0, i), off, bytes)
  {
    var size := Max(fs0.inodes[i].size, off + |bytes|);
    var s, s' := Splice(Content(fs0, i), off, bytes), Content(fs', i);
    forall o | 0 <= o < size ensures s'[o] == s[o] {
      SplicedAt(Content(fs0, i), off, bytes, o);
      assert ByteAt(fs0, fs, i, off, bytes, size, o) && FileByte(fs', i, o) == FileByte(fs, i, o);
    }
  }

  lemma SplicedAt(s: seq<Byte>, off: nat, bytes: seq<Byte>, o: nat)
    requires off <= |s| && o < |Splice(s, off, bytes)|
    ensures if off <= o < off + |bytes| then Splice(s, off, bytes)[o] == bytes[o - off] else o < |s| && Splice(s, off, bytes)[o] == s[o]
  {
  }

  lemma SizedStray(fs0: Fs, fs: Fs, i: nat, size: nat, b: nat)
    requires i < |fs0.inodes| && Framed(fs0, fs, i) && forall l :: Ref(Sized(fs, i, size), l) == Ref(fs, l)
    ensures Stray(Sized(fs, i, size), b) <==> Stray(fs0, b)
  {
    assert StraySame(fs0, fs, b);
  }

  /** With the size set, the file reads as before except for the bytes written; no other file
      has changed, and the file system is as sound as before. */
  lemma WroteAll(fs0: Fs, fs: Fs, i: nat, off: nat, bytes: seq<Byte>, fs': Fs)
    requires Sound(fs0) && i < |fs0.inodes| && WroteTo(fs0, fs, i, off, bytes)
    requires off <= fs0.inodes[i].size && off + |bytes| <= MAXBYTES
    requires fs' == Sized(fs, i, Max(fs0.inodes[i].size, off + |bytes|))
    ensures Sound(fs') && Content(fs', i) == Splice(Content(fs0, i), off, bytes)
    ensures forall j: nat :: j < |fs0.inodes| && j != i ==> Content(fs', j) == Content(fs0, j)
    ensures forall b: nat :: Stray(fs', b) <==> Stray(fs0, b)
  {
    var size := Max(fs0.inodes[i].size, off + |bytes|);
    WroteSound(fs0, fs, i, off, bytes, size);
    OwnContent(fs0, fs, fs', i, off, bytes);
    forall j: nat | j < |fs0.inodes| && j != i ensures Content(fs', j) == Content(fs0, j) {
      OtherContent(fs0, fs, fs', i, j);
    }
    forall b: nat ensures Stray(fs', b) <==> Stray(fs0, b) {
      SizedStray(fs0, fs, i, size, b);
    }
  }
}

/** Reading and writing through an open file: writes go down a few blocks at a time. */
module FileIO {
  import opened BlockTree
  import opened FileBytes
  import opened FileSystem
  import opened FreeBlocks
  import opened Growth
  import opened Options
  import opened Param
  import opened WriteCost

  /** The most that filewrite hands to one writei: (LOGSIZE - 1 - 1 - 2) / 2 blocks, 13. */
  const MAX_CHUNK: nat := 6656

  function Least(a: nat, b: nat): nat {
    if a < b then a else b
  }

  /** How many of n bytes get written from off on: whole chunks, as long as they fit. */
  function ChunkedLength(off: nat, n: nat): (k: nat)
    ensures k <= n
    decreases n
  {
    if n == 0 || off + Least(n, MAX_CHUNK) > MAXBYTES then 0
    else Least(n, MAX_CHUNK) + ChunkedLength(off + Least(n, MAX_CHUNK), n - Least(n, MAX_CHUNK))
  }

  /** The chunks add up to one write exactly when the whole of it fits in a file. */
  lemma {:induction false} ChunkedExactly(off: nat, n: nat)
    ensures ChunkedLength(off, n) == n <==> n == 0 || off + n <= MAXBYTES
    decreases n
  {
    if n != 0 && off + Least(n, MAX_CHUNK) <= MAXBYTES {
      ChunkedExactly(off + Least(n, MAX_CHUNK), n - Least(n, MAX_CHUNK));
    }
  }

  /** Otherwise it ends after so many whole chunks that the next one would not fit. */
  lemma {:induction false} ChunkedStops(off: nat, n: nat)
    requires off <= 16523 * 512 < off + n
    ensures var k := ChunkedLength(off, n);
      k % 6656 == 0 && k < n && off + k <= 16523 * 512 < off + k + if n - k < 6656 then n - k else 6656
    decreases n
  {
    if off + Least(n, MAX_CHUNK) <= MAXBYTES {
      ChunkedStops(off + MAX_CHUNK, n - MAX_CHUNK);
    }
  }

  /** How far the file offset moves. */
  function Accepted(off: nat, size: nat, n: nat): nat {
    if off <= size then ChunkedLength(off, n) else 0
  }

  // ----- What the operations take and log -----

  /** As many blocks are free as are missing for the bytes that fit. */
  predicate Enough(fs: Fs, i: nat, off: nat, n: nat)
    requires i < |fs.inodes|
  {
    Supplied(fs, i, off, Accepted(off, fs.inodes[i].size, n))
  }

  /** filewrite logs more blocks in some operation than begin_op has reserved for it. It does so
      exactly if it does in the first. */
  predicate Overdraws(fs: Fs, i: nat, off: nat, n: nat)
    requires i < |fs.inodes|
  {
    Accepted(off, fs.inodes[i].size, n) > 0 && Cost(fs, i, off, Least(n, MAX_CHUNK)) > MAXOPBLOCKS
  }

  /** A full chunk logs too many blocks, whatever is missing. */
  lemma FullChunk(fs: Fs, i: nat, off: nat)
    requires i < |fs.inodes|
    ensures Cost(fs, i, off, MAX_CHUNK) > MAXOPBLOCKS
  {
    CostBounds(fs, i, off, MAX_CHUNK);
  }

  /** i bytes, in whole chunks, have been written at o since fs0. */
  ghost predicate Supplying(fs0: Fs, fs: Fs, ip: nat, o: nat, i: nat) {
    Grew(fs0, fs, MissingIn(fs0, ip, o / 512, Through(o, i)))
  }

  lemma NextRange(o: nat, i: nat, off: nat, n: nat, i': nat)
    requires n > 0 && off == o + i && i' == i + n
    ensures o / 512 <= off / 512 <= Through(o, i) <= Through(off, n) == Through(o, i')
  {
  }

  lemma SupplyingMore(fs0: Fs, fs: Fs, fs': Fs, ip: nat, o: nat, i: nat, off: nat, n: nat, i': nat)
    requires Supplying(fs0, fs, ip, o, i) && n > 0 && off == o + i && i' == i + n
    requires Grew(fs, fs', MissingIn(fs, ip, off / 512, Through(off, n)))
    ensures Supplying(fs0, fs', ip, o, i')
  {
    var lo, lo2, hi, hi2 := o / 512, off / 512, Through(o, i), Through(off, n);
    NextRange(o, i, off, n, i');
    assert Through(o, i') == hi2;
    MissingSplit(fs0, fs, ip, lo, lo2, hi, hi2);
    GrewTwice(fs0, fs, fs', MissingIn(fs0, ip, lo, hi), MissingIn(fs, ip, lo2, hi2), MissingIn(fs0, ip, lo, hi2));
  }

  /** Too few blocks for a chunk are too few for all that fits. */
  lemma ChunkNotSupplied(fs0: Fs, fs: Fs, ip: nat, o: nat, i: nat, off: nat, n: nat, all: nat)
    requires Supplying(fs0, fs, ip, o, i) && 0 < n && i + n <= all && off == o + i && !Supplied(fs, ip, off, n)
    ensures !Supplied(fs0, ip, o, all)
  {
    var lo, lo2, hi, hi2 := o / 512, off / 512, Through(o, i), Through(off, n);
    NextRange(o, i, off, n, i + n);
    MissingSplit(fs0, fs, ip, lo, lo2, hi, hi2);
    TakenCount(fs0.bitmap, |MissingIn(fs0, ip, lo, hi)|);
    MoreMissing(fs0, ip, lo, hi2, Through(o, all));
  }

  lemma SupplyingNone(fs: Fs, ip: nat, o: nat)
    ensures Supplying(fs, fs, ip, o, 0)
  {
    assert MissingIn(fs, ip, o / 512, o / 512) == {};
  }

  /** What all files but i contain. */
  function Others(fs: Fs, i: nat): (r: seq<seq<Byte>>)
    ensures |r| == |fs.inodes| && forall j :: 0 <= j < |r| ==> r[j] == if j == i then [] else Content(fs, j)
  {
    seq(|fs.inodes|, j requires 0 <= j < |fs.inodes| => if j == i then [] else Content(fs, j))
  }

  /** Between chunks: `before` has been written at o into what was fs0. */
  ghost predicate Between(fs0: Fs, fs: Fs, ip: nat, o: nat, before: seq<Byte>, i: nat) {
    && ip < |fs0.inodes| == |fs.inodes| && i == |before|
    && (if o <= fs0.inodes[ip].size then Content(fs, ip) == Splice(Content(fs0, ip), o, before) else before == [])
    && Others(fs, ip) == Others(fs0, ip) && Supplying(fs0, fs, ip, o, i)
    && (before == [] ==> fs == fs0)
  }

  lemma Beginning(fs: Fs, ip: nat, o: nat)
    requires ip < |fs.inodes|
    ensures Between(fs, fs, ip, o, [], 0)
  {
    if o <= fs.inodes[ip].size {
      SpliceNothing(Content(fs, ip), o);
    }
    SupplyingNone(fs, ip, o);
  }

  /** What one writei has done. */
  ghost predicate OneWrote(fs: Fs, fs': Fs, ip: nat, off: nat, chunk: seq<Byte>) {
    && ip < |fs.inodes| == |fs'.inodes| && off <= fs.inodes[ip].size
    && Content(fs', ip) == Splice(Content(fs, ip), off, chunk) && Others(fs', ip) == Others(fs, ip)
    && Grew(fs, fs', MissingIn(fs, ip, off / 512, Through(off, |chunk|)))
  }

  lemma ContentJoined(s: seq<Byte>, s1: seq<Byte>, s2: seq<Byte>, o: nat, off: nat, before: seq<Byte>, chunk: seq<Byte>, after: seq<Byte>)
    requires o <= |s| && s1 == Splice(s, o, before) && off == o + |before| && s2 == Splice(s1, off, chunk) && after == before + chunk
    ensures s2 == Splice(s, o, after)
  {
    SpliceSplice(s, o, before, chunk);
  }

  /** The next chunk in place. */
  lemma Advanced(fs0: Fs, fs: Fs, fs': Fs, ip: nat, o: nat, off: nat, before: seq<Byte>, chunk: seq<Byte>, after: seq<Byte>, i: nat, i': nat)
    requires Between(fs0, fs, ip, o, before, i) && OneWrote(fs, fs', ip, off, chunk) && o <= fs0.inodes[ip].size
    requires off == o + i && chunk != [] && after == before + chunk && i' == i + |chunk|
    ensures Between(fs0, fs', ip, o, after, i')
  {
    ContentJoined(Content(fs0, ip), Content(fs, ip), Content(fs', ip), o, off, before, chunk, after);
    SupplyingMore(fs0, fs, fs', ip, o, i, off, |chunk|, i');
  }

  /** Whether more than was there before has been written, for the size. */
  lemma StillAccepts(fs0: Fs, fs: Fs, ip: nat, o: nat, before: seq<Byte>, i: nat, off: nat, n: nat)
    requires Between(fs0, fs, ip, o, before, i) && off == o + i
    ensures Accepts(fs, ip, off, n) <==> o <= fs0.inodes[ip].size && off + n <= MAXBYTES
  {
  }

  lemma KeptOthers(fs: Fs, fs': Fs, ip: nat)
    requires |fs.inodes| == |fs'.inodes| && forall j: nat :: j < |fs.inodes| && j != ip ==> Content(fs', j) == Content(fs, j)
    ensures Others(fs', ip) == Others(fs, ip)
  {
  }

  lemma OthersKept(fs: Fs, fs': Fs, ip: nat)
    requires Others(fs', ip) == Others(fs, ip)
    ensures |fs'.inodes| == |fs.inodes| && forall j: nat :: j < |fs.inodes| && j != ip ==> Content(fs', j) == Content(fs, j)
  {
    forall j: nat | j < |fs.inodes| && j != ip ensures j < |fs'.inodes| && Content(fs', j) == Content(fs, j) {
      assert Others(fs', ip)[j] == Others(fs, ip)[j];
    }
  }

  /** Of n bytes at o, i have been written into a file of this size, and more will be as far as
      they fit; the first operation logged `first` blocks. */
  ghost predicate Counted(size: nat, o: nat, n: nat, i: nat, done: bool, over: bool, first: nat) {
    && i <= n && (i > 0 ==> o <= size && o + i <= MAXBYTES && Least(n, MAX_CHUNK) <= i)
    && (if o <= size then ChunkedLength(o, n) == i + (if done then ChunkedLength(o + i, n - i) else 0) else i == 0)
    && (over <==> i > 0 && first > MAXOPBLOCKS)
  }

  lemma CountedNext(size: nat, o: nat, off: nat, n: nat, i: nat, n1: nat, i': nat, done: bool, over: bool, over': bool, cost: nat, first: nat)
    requires Counted(size, o, n, i, true, over, first) && i < n && n1 == Least(n - i, MAX_CHUNK) && i' == i + n1 && off == o + i
    requires done <==> o <= size && off + n1 <= MAXBYTES
    requires (over' <==> over || (done && cost > MAXOPBLOCKS)) && if i > 0 then first > MAXOPBLOCKS else cost == first
    ensures Counted(size, o, n, if done then i' else i, done, over', first)
  {
    LengthNext(o, off, n, i, n1, i');
  }

  /** The first operation decides. */
  lemma OverNext(fs0: Fs, fs1: Fs, ip: nat, o: nat, off: nat, n: nat, i: nat, n1: nat, cost: nat, first: nat)
    requires ip < |fs0.inodes| && ip < |fs1.inodes| && i < n && (i > 0 ==> Least(n, MAX_CHUNK) <= i) && n1 == Least(n - i, MAX_CHUNK) && off == o + i
    requires cost == Cost(fs1, ip, off, n1) && first == Cost(fs0, ip, o, Least(n, MAX_CHUNK)) && (i == 0 ==> fs1 == fs0)
    ensures if i > 0 then first > MAXOPBLOCKS else cost == first
  {
    if i > 0 {
      FullChunk(fs0, ip, o);
    }
  }

  lemma LengthNext(o: nat, off: nat, n: nat, i: nat, n1: nat, i': nat)
    requires i < n && n1 == Least(n - i, MAX_CHUNK) && i' == i + n1 && off == o + i
    ensures ChunkedLength(o + i, n - i) == if off + n1 > MAXBYTES then 0 else n1 + ChunkedLength(o + i', n - i')
  {
  }

  lemma NextAccepted(size: nat, o: nat, n: nat, i: nat, n1: nat, over: bool, first: nat)
    requires Counted(size, o, n, i, true, over, first) && i < n && n1 == Least(n - i, MAX_CHUNK)
    requires o <= size && o + i + n1 <= MAXBYTES
    ensures i + n1 <= Accepted(o, size, n)
  {
  }

  /** One turn of filewrite's loop: `cost` blocks logged if the chunk fits. */
  ghost predicate Turned(fs: Fs, fs': Fs, ip: nat, off: nat, chunk: seq<Byte>, done: bool, cost: nat) {
    && (done <==> Accepts(fs, ip, off, |chunk|))
    && (if done then OneWrote(fs, fs', ip, off, chunk) && cost == Cost(fs, ip, off, |chunk|) else fs' == fs)
  }

  lemma TurnPanics(fs0: Fs, fs1: Fs, ip: nat, o: nat, off: nat, addr: seq<Byte>, i: nat, n1: nat, over: bool, first: nat)
    requires i < |addr| && Between(fs0, fs1, ip, o, addr[..i], i) && Counted(fs0.inodes[ip].size, o, |addr|, i, true, over, first)
    requires n1 == Least(|addr| - i, MAX_CHUNK) && off == o + i && Accepts(fs1, ip, off, n1) && !Supplied(fs1, ip, off, n1)
    ensures !Enough(fs0, ip, o, |addr|)
  {
    StillAccepts(fs0, fs1, ip, o, addr[..i], i, off, n1);
    NextAccepted(fs0.inodes[ip].size, o, |addr|, i, n1, over, first);
    ChunkNotSupplied(fs0, fs1, ip, o, i, off, n1, Accepted(o, fs0.inodes[ip].size, |addr|));
  }

  lemma TurnTaken(fs0: Fs, fs1: Fs, fs2: Fs, ip: nat, o: nat, off: nat, addr: seq<Byte>, i: nat, n1: nat, i': nat, done: bool, over: bool, over': bool,
                  cost: nat, first: nat)
    requires i < |addr| && Between(fs0, fs1, ip, o, addr[..i], i) && Counted(fs0.inodes[ip].size, o, |addr|, i, true, over, first)
    requires n1 == Least(|addr| - i, MAX_CHUNK) && off == o + i && i' == i + n1 && first == Cost(fs0, ip, o, Least(|addr|, MAX_CHUNK))
    requires Turned(fs1, fs2, ip, off, addr[i..i'], done, cost) && (over' <==> over || (done && cost > MAXOPBLOCKS))
    ensures var j := if done then i' else i;
      Between(fs0, fs2, ip, o, addr[..j], j) && Counted(fs0.inodes[ip].size, o, |addr|, j, done, over', first)
  {
    StillAccepts(fs0, fs1, ip, o, addr[..i], i, off, n1);
    OverNext(fs0, fs1, ip, o, off, |addr|, i, n1, Cost(fs1, ip, off, n1), first);
    CountedNext(fs0.inodes[ip].size, o, off, |addr|, i, n1, i', done, over, over', Cost(fs1, ip, off, n1), first);
    if done {
      assert addr[..i'] == addr[..i] + addr[i..i'];
      Advanced(fs0, fs1, fs2, ip, o, off, addr[..i], addr[i..i'], addr[..i'], i, i');
    }
  }

  lemma Ending(fs0: Fs, fs: Fs, ip: nat, o: nat, n: nat, i: nat, done: bool, over: bool, first: nat)
    requires ip < |fs0.inodes| && (i == n || !done) && Counted(fs0.inodes[ip].size, o, n, i, done, over, first)
    requires i <= n && Supplying(fs0, fs, ip, o, i) && first == Cost(fs0, ip, o, Least(n, MAX_CHUNK))
    ensures i == Accepted(o, fs0.inodes[ip].size, n) && Enough(fs0, ip, o, n)
    ensures over <==> Overdraws(fs0, ip, o, n)
  {
  }

  class File {
    const readable: bool
    const writable: bool
    const ip: nat
    var off: nat

    constructor (ip: nat, readable: bool, writable: bool)
      ensures this.ip == ip && this.readable == readable && this.writable == writable && off == 0
    {
      this.ip, this.readable, this.writable, off := ip, readable, writable, 0;
    }

    /** fileread of an inode. */
    method Fileread(fs: FileSystem, n: nat) returns (r: Option<seq<Byte>>)
      requires fs.Valid() && ip < |fs.inodes| && off < WORD && n < WORD
      modifies this`off, fs`bitmap, fs`disk, fs`inodes, fs`logged
      ensures fs.Value() == old(fs.Value())
      ensures r.None? <==> !readable || old(off) > fs.inodes[ip].size || old(off) + n >= WORD
      ensures r.None? ==> off == old(off)
      ensures r.Some? ==> off == old(off) + |r.value| == Least(old(off) + n, fs.inodes[ip].size)
      ensures r.Some? ==> r.value == Content(fs.Value(), ip)[old(off)..off]
    {
      if !readable {
        return None;
      }
      r := fs.Readi(ip, off, n);
      if r.Some? {
        off := off + |r.value|;
      }
    }

    /** filewrite's loop: i is how far it got. */
    method WriteChunks(fs: FileSystem, addr: seq<Byte>) returns (i: nat, panic: bool, ghost over: bool)
      requires fs.Valid() && ip < |fs.inodes| && off < WORD && |addr| < WORD / 2
      modifies this`off, fs
      ensures panic ==> fs.NoneFree()
      ensures panic <==> !Enough(old(fs.Value()), ip, old(off), |addr|)
      ensures !panic ==> fs.Valid() && i <= |addr| && off == old(off) + i && Between(old(fs.Value()), fs.Value(), ip, old(off), addr[..i], i)
      ensures !panic ==> i == Accepted(old(off), old(fs.inodes[ip].size), |addr|)
      ensures !panic ==> (over <==> Overdraws(old(fs.Value()), ip, old(off), |addr|))
    {
      ghost var o, fs0 := off, fs.Value();
      i, panic, over := 0, false, false;
      var done := true;
      ghost var first := Cost(fs0, ip, o, Least(|addr|, MAX_CHUNK));
      Beginning(fs0, ip, o);
      assert addr[..0] == [];
      while i < |addr| && done
        invariant !panic && i <= |addr| && fs.Valid() && off == o + i && Between(fs0, fs.Value(), ip, o, addr[..i], i)
        invariant Counted(fs0.inodes[ip].size, o, |addr|, i, done, over, first)
        decreases |addr| - i, done
      {
        done, panic, i, over := WriteNext(fs, addr, i, fs0, o, over, first);
        if panic {
          return;
        }
      }
      Ending(fs0, fs.Value(), ip, o, |addr|, i, done, over, first);
    }

    /** One turn of it: the next chunk, at i. */
    method WriteNext(fs: FileSystem, addr: seq<Byte>, i: nat, ghost fs0: Fs, ghost o: nat, ghost over: bool, ghost first: nat)
      returns (done: bool, panic: bool, i': nat, ghost over': bool)
      requires fs.Valid() && i < |addr| < WORD / 2 && off == o + i && o < WORD && Between(fs0, fs.Value(), ip, o, addr[..i], i)
      requires Counted(fs0.inodes[ip].size, o, |addr|, i, true, over, first) && first == Cost(fs0, ip, o, Least(|addr|, MAX_CHUNK))
      modifies this`off, fs
      ensures panic ==> fs.NoneFree() && !Enough(fs0, ip, o, |addr|)
      ensures !panic ==> fs.Valid() && i <= i' <= |addr| && off == o + i' && (done ==> i < i')
      ensures !panic ==> Between(fs0, fs.Value(), ip, o, addr[..i'], i') && Counted(fs0.inodes[ip].size, o, |addr|, i', done, over', first)
    {
      var n1 := if |addr| - i > MAX_CHUNK then MAX_CHUNK else |addr| - i;
      i' := i + n1;
      ghost var cost;
      ghost var fs1, off0 := fs.Value(), off;
      done, panic, cost := WriteOne(fs, addr[i..i']);
      over' := over || (done && cost > MAXOPBLOCKS);
      if panic {
        TurnPanics(fs0, fs1, ip, o, off0, addr, i, n1, over, first);
      } else {
        TurnTaken(fs0, fs1, fs.Value(), ip, o, off0, addr, i, n1, i', done, over, over', cost, first);
        i' := if done then i' else i;
      }
    }

    /** One operation of filewrite: begin_op, writei, end_op. It logs `cost` blocks. */
    method WriteOne(fs: FileSystem, chunk: seq<Byte>) returns (done: bool, panic: bool, ghost cost: nat)
      requires fs.Valid() && ip < |fs.inodes| && 0 < |chunk| < WORD
      requires off < WORD
      modifies this`off, fs
      ensures panic ==> fs.NoneFree()
      ensures panic <==> Accepts(old(fs.Value()), ip, old(off), |chunk|) && !Supplied(old(fs.Value()), ip, old(off), |chunk|)
      ensures !panic ==> fs.Valid() && off == old(off) + (if done then |chunk| else 0)
      ensures !panic ==> Turned(old(fs.Value()), fs.Value(), ip, old(off), chunk, done, cost) && cost == |fs.logged|
    {
      ghost var fs1 := fs.Value();
      fs.BeginOp();
      var r;
      r, panic := fs.Writei(ip, chunk, off);
      done, cost := r.Some?, |fs.logged|;
      if !panic && r.Some? {
        KeptOthers(fs1, fs.Value(), ip);
        off := off + r.value;
      }
    }

    /** filewrite of an inode; `panic` is balloc's, and `over` is set if an operation logs more
        than MAXOPBLOCKS blocks. */
    method Filewrite(fs: FileSystem, addr: seq<Byte>) returns (r: Option<nat>, panic: bool, ghost over: bool)
      requires fs.Valid() && ip < |fs.inodes| && off < WORD && |addr| < WORD / 2
      modifies this`off, fs
      ensures panic ==> fs.NoneFree()
      ensures panic <==> writable && !Enough(old(fs.Value()), ip, old(off), |addr|)
      ensures !panic ==> (over <==> writable && Overdraws(old(fs.Value()), ip, old(off), |addr|))
      ensures !panic ==> fs.Valid() && |fs.inodes| == |old(fs.inodes)|
      ensures !panic ==> (r.Some? <==> writable && (addr == [] || (old(off) <= old(fs.inodes[ip].size) && old(off) + |addr| <= MAXBYTES)))
      ensures !panic && r.Some? ==> r.value == |addr|
      ensures !panic ==> off == old(off) + if writable then Accepted(old(off), old(fs.inodes[ip].size), |addr|) else 0
      ensures !panic && old(off) <= old(fs.inodes[ip].size) ==>
        Content(fs.Value(), ip) == Splice(old(Content(fs.Value(), ip)), old(off), addr[..off - old(off)])
      ensures !panic && off == old(off) ==> fs.Value() == old(fs.Value())
      ensures !panic ==> forall j: nat :: j < |fs.inodes| && j != ip ==> Content(fs.Value(), j) == old(Content(fs.Value(), j))
    {
      over := false;
      if !writable {
        if off <= |Content(fs.Value(), ip)| {
          SpliceNothing(Content(fs.Value(), ip), off);
        }
        return None, false, false;
      }
      ChunkedExactly(off, |addr|);
      ghost var fs0 := fs.Value();
      var i;
      i, panic, over := WriteChunks(fs, addr);
      if !panic {
        OthersKept(fs0, fs.Value(), ip);
      }
      r := if i == |addr| then Some(|addr|) else None;
    }
  }

  // ----- Runs that fall short -----

  /** All the blocks of an empty file are missing, and the first eleven need no block of block
      numbers. */
  lemma DirectsMissing(fs: Fs, i: nat, hi: nat)
    requires hi <= NDIRECT && forall l :: Ref(fs, l) == 0
    ensures MissingIn(fs, i, 0, hi) == DataIn(i, 0, hi) && IndexIn(fs, i, 0, hi) == {}
  {
    DirectWays(i, hi);
    forall l | l in DataIn(i, 0, hi) ensures Vacant(fs, l) && l.Addr? {
      DataInAre(i, 0, hi, l);
    }
  }

  lemma {:induction false} DirectWays(i: nat, hi: nat)
    requires hi <= NDIRECT
    ensures Ways(i, 0, hi) == DataIn(i, 0, hi)
    decreases hi
  {
    if hi > 0 {
      DirectWays(i, hi - 1);
      assert Way(DataLoc(i, hi - 1)) == {DataLoc(i, hi - 1)};
    }
  }

  lemma CostParts(fs: Fs, i: nat, off: nat, n: nat, hi: nat)
    requires i < |fs.inodes| && hi == Through(off, n) && off + n > fs.inodes[i].size
    ensures Cost(fs, i, off, n) ==
      hi - off / 512 + |IndexIn(fs, i, off / 512, hi)| + |BitBlocks(fs.bitmap, |MissingIn(fs, i, off / 512, hi)|)| + 1
  {
  }

  lemma DirectCounts(fs: Fs, i: nat, hi: nat)
    requires 0 < hi <= NDIRECT && forall l :: Ref(fs, l) == 0
    requires |fs.bitmap| <= BPB && hi <= FreeCount(fs.bitmap)
    ensures |MissingIn(fs, i, 0, hi)| == hi && IndexIn(fs, i, 0, hi) == {} && BitBlocks(fs.bitmap, hi) == {0}
  {
    DirectsMissing(fs, i, hi);
    DataInCount(i, 0, hi);
    OneBitBlock(fs.bitmap, hi);
  }

  /** Up to eleven blocks written to an empty file: with the bitmap block and the inode's, two
      more are logged. */
  lemma DirectCost(fs: Fs, i: nat, n: nat, hi: nat)
    requires i < |fs.inodes| && fs.inodes[i].size == 0 && forall l :: Ref(fs, l) == 0
    requires n > 0 && hi == Through(0, n) <= NDIRECT && |fs.bitmap| <= BPB && hi <= FreeCount(fs.bitmap)
    ensures Cost(fs, i, 0, n) == hi + 2 && Supplied(fs, i, 0, n)
  {
    DirectCounts(fs, i, hi);
    CostParts(fs, i, 0, n, hi);
  }

  /** filewrite of 5120 bytes to an empty file logs twelve blocks in one operation. */
  method LogsTwelve() returns (fs: FileSystem, ghost over: bool)
    ensures fresh(fs) && over
  {
    fs := new FileSystem(100, 50, 1);
    assert |Content(fs.Value(), 0)| == 0;
    DirectCost(fs.Value(), 0, 5120, 10);
    var f := new File(0, true, true);
    assert ChunkedLength(0, 5120) == 5120 + ChunkedLength(5120, 0);
    var r, panic;
    r, panic, over := f.Filewrite(fs, seq(5120, _ => 1));
  }

  function Dbls(i: nat, n: nat): (s: set<Loc>)
    ensures forall j: nat :: Dbl(i, j) in s <==> j < n
  {
    if n == 0 then {} else Dbls(i, n - 1) + {Dbl(i, n - 1)}
  }

  lemma {:induction false} DblsCount(i: nat, n: nat)
    ensures |Dbls(i, n)| == n
  {
    if n > 0 {
      DblsCount(i, n - 1);
    }
  }

  /** The places of a file's first hi blocks: theirs, and those of the 130 index blocks. */
  lemma WaysWithin(i: nat, hi: nat, m: Loc)
    requires hi <= MAXFILE && m in Ways(i, 0, hi)
    ensures m in DataIn(i, 0, hi) || m in Dbls(i, NINDIRECT) || m == Addr(i, NDIRECT) || m == Addr(i, NDIRECT + 1)
  {
    WaysAre(i, 0, hi, m);
    var bn :| ToBlock(i, 0, hi, m, bn);
    WayCases(m, DataLoc(i, bn));
    DataInAre(i, 0, hi, m);
  }

  lemma CountWithin(places: set<Loc>, data: set<Loc>, dbls: set<Loc>, a: Loc, b: Loc)
    requires forall m :: m in places ==> m in data || m in dbls || m == a || m == b
    ensures |places| <= |data| + |dbls| + 2
  {
    Fewer(places, data + (dbls + {a, b}));
    UnionCount(data, dbls + {a, b});
    UnionCount(dbls, {a, b});
    Fewer({a, b} - {a}, {b});
  }

  lemma UnionCount(a: set<Loc>, b: set<Loc>)
    ensures |a + b| <= |a| + |b|
  {
    assert a + b == a + (b - a);
    Fewer(b - a, b);
  }

  /** Room for the bytes and for all index blocks is enough. */
  lemma RoomEnough(fs: Fs, i: nat, n: nat)
    requires n <= MAXBYTES && Through(0, n) + 130 <= FreeCount(fs.bitmap)
    ensures Supplied(fs, i, 0, n)
  {
    var hi := Through(0, n);
    forall m | m in MissingIn(fs, i, 0, hi) ensures m in DataIn(i, 0, hi) || m in Dbls(i, NINDIRECT) || m == Addr(i, NDIRECT) || m == Addr(i, NDIRECT + 1) {
      WaysWithin(i, hi, m);
    }
    CountWithin(MissingIn(fs, i, 0, hi), DataIn(i, 0, hi), Dbls(i, NINDIRECT), Addr(i, NDIRECT), Addr(i, NDIRECT + 1));
    DataInCount(i, 0, hi);
    DblsCount(i, NINDIRECT);
  }

  /** One byte too many: filewrite fails, but most of the bytes have been written. */
  method WritesPart() returns (fs: FileSystem, f: File, r: Option<nat>)
    ensures fresh(fs) && r.None? && fs.Valid() && |fs.inodes| == 1 && fs.inodes[0].size == f.off > 0
  {
    fs := new FileSystem(20000, 50, 1);
    assert |Content(fs.Value(), 0)| == 0;
    f := new File(0, true, true);
    ghost var n := Accepted(0, 0, MAXBYTES + 1);
    ChunkedExactly(0, MAXBYTES + 1);
    RoomEnough(fs.Value(), 0, n);
    var panic;
    ghost var over;
    r, panic, over := f.Filewrite(fs, seq(MAXBYTES + 1, _ => 1));
  }
}

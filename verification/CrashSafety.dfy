/** File operations over the log: between begin_op and end_op an operation changes only blocks
    that it logs, so across any crash it is done as a whole or not at all. */
module CrashSafety {
  import opened BlockTree
  import opened FileBytes
  import opened FileSystem
  import opened Growth
  import opened Options
  import opened WriteLog
  import LogRecovery

  type Words = LogRecovery.Block
  type Disk = LogRecovery.Disk
  type Area = LogRecovery.Area

  /** Where each block of the image lies on the disk, and how it is stored as words. Blocks
      below `meta` are not for files. */
  datatype Layout = Layout(meta: nat, number: LogBlock -> nat, words: (Fs, LogBlock) -> Words)

  predicate InImage(l: Layout, fs: Fs, x: LogBlock) {
    match x
    case Whole(b) => l.meta <= b < |fs.disk|
    case Bits(k) => k * 4096 < |fs.bitmap|
    case Inodes(k) => k * 8 < |fs.inodes|
  }

  predicate SameSize(fs: Fs, fs': Fs) {
    |fs.bitmap| == |fs'.bitmap| && |fs.disk| == |fs'.disk| && |fs.inodes| == |fs'.inodes|
  }

  ghost predicate SameWords(l: Layout, fs: Fs, fs': Fs, x: LogBlock) {
    SameSize(fs, fs') && SameBlock(fs, fs', x) ==> l.words(fs, x) == l.words(fs', x)
  }

  predicate Apart(l: Layout, fs: Fs, x: LogBlock, y: LogBlock) {
    InImage(l, fs, x) && InImage(l, fs, y) && l.number(x) == l.number(y) ==> x == y
  }

  /** Different blocks of an image have different places, and what is stored in a block is
      determined by what the block holds. */
  ghost predicate GoodLayout(l: Layout, fs: Fs) {
    (forall x, y :: Apart(l, fs, x, y)) && forall fs1, fs2, x :: SameWords(l, fs1, fs2, x)
  }

  predicate StoredAt(d: Disk, a: Area, l: Layout, fs: Fs, x: LogBlock) {
    InImage(l, fs, x) ==> l.number(x) < |d| && !a.Holds(l.number(x)) && d[l.number(x)] == l.words(fs, x)
  }

  /** The home blocks of the disk hold the file system fs. */
  ghost predicate Stored(d: Disk, a: Area, l: Layout, fs: Fs) {
    forall x :: StoredAt(d, a, l, fs, x)
  }

  /** A transaction: the blocks xs, with what they hold in fs. */
  ghost predicate Collected(d: Disk, a: Area, l: Layout, fs: Fs, xs: seq<LogBlock>, blocks: seq<nat>, data: seq<Words>) {
    && LogRecovery.Transaction(d, a, blocks, data) && |xs| == |blocks|
    && forall i :: 0 <= i < |xs| ==> InImage(l, fs, xs[i]) && blocks[i] == l.number(xs[i]) && data[i] == l.words(fs, xs[i])
  }

  /** A crash after n block writes of the commit, then crashes during recovery, the last one
      leaving `last`, and a recovery that completes, leaving r. */
  ghost predicate Recovered(d: Disk, a: Area, blocks: seq<nat>, data: seq<Words>, n: nat, chain: seq<Disk>, r: Disk) {
    && LogRecovery.Transaction(d, a, blocks, data) && n <= 2 * |blocks| + 2
    && LogRecovery.CrashChain(chain, a) && chain[0] == LogRecovery.CommitStage(d, a, blocks, data, n)
    && var last := chain[|chain| - 1];
      LogRecovery.GoodHeader(last, a) && r == LogRecovery.RecoveryStage(last, a, LogRecovery.HeaderCount(last, a) + 1)
  }

  lemma SameImage(d: Disk, r: Disk, a: Area, l: Layout, fs: Fs)
    requires Stored(d, a, l, fs) && LogRecovery.SameHome(r, d, a)
    ensures Stored(r, a, l, fs)
  {
    forall x ensures StoredAt(r, a, l, fs, x) {
      assert StoredAt(d, a, l, fs, x);
    }
  }

  /** With the transaction's blocks in their places the disk holds the new file system. */
  lemma NewImage(d: Disk, a: Area, l: Layout, fs: Fs, fs': Fs, log: set<LogBlock>, xs: seq<LogBlock>, blocks: seq<nat>, data: seq<Words>)
    requires GoodLayout(l, fs) && Stored(d, a, l, fs) && ChangedOnly(fs, fs', log) && Collected(d, a, l, fs', xs, blocks, data)
    requires forall x :: x in log ==> x in xs
    ensures Stored(LogRecovery.NewContents(d, a, blocks, data), a, l, fs')
  {
    var target := LogRecovery.NewContents(d, a, blocks, data);
    forall x ensures StoredAt(target, a, l, fs', x) {
      if InImage(l, fs', x) {
        assert StoredAt(d, a, l, fs, x);
        NewBlock(d, a, l, fs, fs', log, xs, blocks, data, x);
      }
    }
  }

  lemma NewBlock(d: Disk, a: Area, l: Layout, fs: Fs, fs': Fs, log: set<LogBlock>, xs: seq<LogBlock>, blocks: seq<nat>, data: seq<Words>, x: LogBlock)
    requires GoodLayout(l, fs) && InImage(l, fs, x) && ChangedOnly(fs, fs', log) && Collected(d, a, l, fs', xs, blocks, data)
    requires (forall y :: y in log ==> y in xs) && l.number(x) < |d| && d[l.number(x)] == l.words(fs, x)
    ensures LogRecovery.NewContents(d, a, blocks, data)[l.number(x)] == l.words(fs', x)
  {
    var b := l.number(x);
    LogRecovery.UpdatedAt(d, blocks, data, |blocks|, b);
    assert blocks[..|blocks|] == blocks;
    if b in blocks {
      var i :| 0 <= i < |blocks| && blocks[i] == b;
      assert Apart(l, fs, xs[i], x);
    } else {
      forall i | 0 <= i < |xs| ensures xs[i] != x {
        assert blocks[i] in blocks;
      }
      assert SameWords(l, fs, fs', x);
    }
  }

  /** Operations that together changed fs into fs', and logged the blocks `log`: whenever the
      machine stops, the disk recovered holds all that they did or nothing of it. The point
      of no return is the write of the header. */
  lemma AllOrNothing(d: Disk, a: Area, l: Layout, fs: Fs, fs': Fs, log: set<LogBlock>, xs: seq<LogBlock>, blocks: seq<nat>, data: seq<Words>,
                     n: nat, chain: seq<Disk>, r: Disk)
    requires GoodLayout(l, fs) && Stored(d, a, l, fs) && ChangedOnly(fs, fs', log) && Collected(d, a, l, fs', xs, blocks, data)
    requires forall x :: x in log ==> x in xs
    requires Recovered(d, a, blocks, data, n, chain, r)
    ensures Stored(r, a, l, if n <= |blocks| then fs else fs')
  {
    LogRecovery.CrashAtomicity(d, a, blocks, data, n, chain);
    if n <= |blocks| {
      SameImage(d, r, a, l, fs);
    } else {
      NewImage(d, a, l, fs, fs', log, xs, blocks, data);
      SameImage(LogRecovery.NewContents(d, a, blocks, data), r, a, l, fs');
    }
  }

  // ----- Several operations in one transaction -----

  /** Operation k leads from states[k] to the next, and logs logs[k]. */
  ghost predicate Operations(states: seq<Fs>, logs: seq<set<LogBlock>>) {
    |states| == |logs| + 1 && forall k :: 0 <= k < |logs| ==> ChangedOnly(states[k], states[k + 1], logs[k])
  }

  function AllLogged(logs: seq<set<LogBlock>>): set<LogBlock> {
    if logs == [] then {} else AllLogged(logs[..|logs| - 1]) + logs[|logs| - 1]
  }

  /** The log collects the blocks of all of them, so they are done or undone together. */
  lemma {:induction false} Together(states: seq<Fs>, logs: seq<set<LogBlock>>)
    requires Operations(states, logs)
    ensures ChangedOnly(states[0], states[|logs|], AllLogged(logs))
    decreases |logs|
  {
    var n := |logs|;
    if n == 0 {
      Unchanged(states[0]);
    } else {
      assert Operations(states[..n], logs[..n - 1]);
      Together(states[..n], logs[..n - 1]);
      ChangedTwice(states[0], states[n - 1], states[n], AllLogged(logs[..n - 1]), logs[n - 1]);
    }
  }

  lemma Unchanged(fs: Fs)
    ensures ChangedOnly(fs, fs, {})
  {
    forall x ensures SameBlock(fs, fs, x) {
      match x
      case Whole(b) => assert SameBytes(fs, fs, b);
      case Bits(k) =>
        forall c: nat | c / 4096 == k ensures SameBit(fs, fs, c) {
        }
      case Inodes(k) =>
        forall j: nat | j / 8 == k ensures SameInode(fs, fs, j) {
        }
    }
  }

  // ----- writei and itrunc -----

  /** However the commit of fs' is interrupted, the disk recovered holds fs or fs'. */
  ghost predicate Survives(d: Disk, a: Area, l: Layout, fs: Fs, fs': Fs, log: set<LogBlock>) {
    forall xs, blocks, data, n: nat, chain, r ::
      Collected(d, a, l, fs', xs, blocks, data) && (forall x :: x in log ==> x in xs) && Recovered(d, a, blocks, data, n, chain, r) ==>
        Stored(r, a, l, if n <= |blocks| then fs else fs')
  }

  lemma ChangeSurvives(d: Disk, a: Area, l: Layout, fs: Fs, fs': Fs, log: set<LogBlock>)
    requires GoodLayout(l, fs) && Stored(d, a, l, fs) && ChangedOnly(fs, fs', log)
    ensures Survives(d, a, l, fs, fs', log)
  {
    forall xs, blocks, data, n: nat, chain, r |
      Collected(d, a, l, fs', xs, blocks, data) && (forall x :: x in log ==> x in xs) && Recovered(d, a, blocks, data, n, chain, r)
      ensures Stored(r, a, l, if n <= |blocks| then fs else fs')
    {
      AllOrNothing(d, a, l, fs, fs', log, xs, blocks, data, n, chain, r);
    }
  }

  /** No file has a block below `meta`. */
  ghost predicate Reserved(l: Layout, fs: Fs) {
    forall b: nat :: 0 < b < l.meta ==> Stray(fs, b)
  }

  lemma OwnInImage(l: Layout, fs: Fs, fs': Fs, log: set<LogBlock>)
    requires Reserved(l, fs) && (forall b: nat :: Stray(fs', b) <==> Stray(fs, b)) && Inv(fs')
    requires forall x :: x in log ==> Owned(fs', x)
    ensures forall x :: x in log ==> InImage(l, fs', x)
  {
    forall x | x in log ensures InImage(l, fs', x) {
      if x.Whole? {
        var m :| HeldAt(fs', m, x.b);
        assert !Stray(fs', x.b);
      }
    }
  }

  lemma TruncatedReserved(l: Layout, fs: Fs, fs': Fs)
    requires Reserved(l, fs) && forall b: nat :: Stray(fs, b) ==> Stray(fs', b)
    ensures Reserved(l, fs')
  {
  }

  /** One chunk of filewrite: across a crash the file has all of the bytes written, or is as
      it was. */
  method WriteOperation(fs: FileSystem, i: nat, src: seq<Byte>, off: nat, ghost d: Disk, ghost a: Area, ghost l: Layout)
    returns (r: Option<nat>, panic: bool)
    requires fs.Valid() && i < |fs.inodes| && off < WORD && |src| < WORD
    requires GoodLayout(l, fs.Value()) && Stored(d, a, l, fs.Value()) && Reserved(l, fs.Value())
    modifies fs
    ensures !panic ==> fs.Valid() && |fs.inodes| == |old(fs.inodes)|
    ensures !panic ==> (r.Some? <==> Accepts(old(fs.Value()), i, off, |src|))
    ensures !panic && r.Some? ==> Content(fs.Value(), i) == Splice(old(Content(fs.Value(), i)), off, src)
    ensures !panic ==> Survives(d, a, l, old(fs.Value()), fs.Value(), fs.logged)
    ensures !panic ==> forall x :: x in fs.logged ==> InImage(l, fs.Value(), x)
  {
    ghost var fs0 := fs.Value();
    fs.BeginOp();
    r, panic := fs.Writei(i, src, off);
    if !panic {
      if r.None? {
        Unchanged(fs0);
      }
      ChangeSurvives(d, a, l, fs0, fs.Value(), fs.logged);
      OwnInImage(l, fs0, fs.Value(), fs.logged);
    }
  }

  /** Truncating a file: across a crash it is empty, or as it was. */
  method TruncateOperation(fs: FileSystem, i: nat, ghost d: Disk, ghost a: Area, ghost l: Layout) returns (ok: bool)
    requires fs.Valid() && i < |fs.inodes| && GoodLayout(l, fs.Value()) && Stored(d, a, l, fs.Value()) && Reserved(l, fs.Value())
    modifies fs
    ensures ok && fs.Valid() && |fs.inodes| == |old(fs.inodes)| && Content(fs.Value(), i) == []
    ensures Survives(d, a, l, old(fs.Value()), fs.Value(), fs.logged)
    ensures forall x :: x in fs.logged ==> InImage(l, fs.Value(), x)
  {
    ghost var fs0 := fs.Value();
    fs.BeginOp();
    ok := fs.Itrunc(i);
    ChangeSurvives(d, a, l, fs0, fs.Value(), fs.logged);
    TruncatedReserved(l, fs0, fs.Value());
    OwnInImage(l, fs.Value(), fs.Value(), fs.logged);
  }
}

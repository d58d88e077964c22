/** The log of log.c with the synchronous in-memory disk of memide.c underneath. */
module LogDevice {
  import opened LogRecovery
  import opened Param

  datatype Admitted = Recorded | TooBig | OutsideTransaction

  /** The cached contents of the given blocks. */
  function ContentsOf(blocks: seq<nat>, cached: map<nat, Block>): (data: seq<Block>)
    requires forall b :: b in blocks ==> b in cached
    ensures |data| == |blocks| && forall i :: 0 <= i < |blocks| ==> data[i] == cached[blocks[i]]
  {
    if blocks == [] then [] else
    assert blocks[0] in blocks && forall b :: b in blocks[1..] ==> b in blocks;
    [cached[blocks[0]]] + ContentsOf(blocks[1..], cached)
  }

  lemma Regroup(w: seq<Disk>, a: seq<Disk>, b: seq<Disk>, c: seq<Disk>, d: seq<Disk>)
    ensures w + a + b + c + d == w + (a + b + c + d)
  {
  }

  lemma HeaderWords(b0: Block, blocks: seq<nat>, b: Block)
    requires |b0| == |b| == WORDS && |blocks| <= LOGSIZE && b[0] == |blocks|
    requires forall k :: 1 <= k < WORDS ==> b[k] == if k <= |blocks| then blocks[k - 1] else b0[k]
    ensures b == PutHeader(b0, blocks)
  {
  }

  class Log {
    const area: Area
    var disk: Disk                  // the blocks of the memory disk
    var cached: map<nat, Block>     // B_DIRTY buffers: contents not on the disk yet
    var n: nat                      // log.lh.n
    var block: seq<nat>             // log.lh.block
    var outstanding: int
    ghost var writes: seq<Disk>     // the disk after each block write so far

    /** The block numbers of the transaction being collected. */
    function Pending(): seq<nat>
      reads this
      requires n <= |block|
    {
      block[..n]
    }

    /** Between operations: nothing committed waits in the log, and every logged block is
        pinned in the cache. */
    ghost predicate Valid()
      reads this
    {
      && WellSized(disk, area) && HeaderCount(disk, area) == 0
      && |block| == LOGSIZE && n <= LOGSIZE && HomeBlocks(Pending(), disk, area)
      && (forall i, j :: 0 <= i < j < n ==> block[i] != block[j])
      && (forall b :: b in cached <==> b in Pending())
      && (forall b :: b in cached ==> |cached[b]| == WORDS)
    }

    /** What bread returns: the cached contents if there are any. */
    function Bread(b: nat): Block
      reads this
      requires b < |disk|
    {
      if b in cached then cached[b] else disk[b]
    }

    method Bwrite(b: nat, data: Block)
      requires b < |disk|
      modifies this`disk, this`cached, this`writes
      ensures disk == old(disk)[b := data] && cached == old(cached) - {b}
      ensures writes == old(writes) + [disk]
    {
      disk := disk[b := data];
      cached := cached - {b};
      writes := writes + [disk];
    }

    /** log_write: record b, absorbing a block that is already there, and pin its new
        contents. */
    method LogWrite(b: nat, data: Block) returns (r: Admitted)
      requires Valid() && b < |disk| && !area.Holds(b) && |data| == WORDS
      modifies this`n, this`block, this`cached
      ensures Valid()
      ensures r == TooBig <==> old(n) >= LOGSIZE || old(n) >= area.size - 1
      ensures r == OutsideTransaction ==> outstanding < 1
      ensures r == Recorded ==> outstanding >= 1 && cached == old(cached)[b := data]
      ensures r == Recorded ==> Pending() == if b in old(Pending()) then old(Pending()) else old(Pending()) + [b]
      ensures r != Recorded ==> n == old(n) && block == old(block) && cached == old(cached)
    {
      if n >= LOGSIZE || n >= area.size - 1 { return TooBig; }
      if outstanding < 1 { return OutsideTransaction; }
      ghost var before := Pending();
      var i := 0;
      while i < n && block[i] != b
        invariant 0 <= i <= n
        invariant b !in block[..i]
      {
        i := i + 1;
      }
      assert i < n ==> block[i] in Pending();
      block := block[i := b];
      if i == n {
        n := n + 1;
        assert Pending() == before + [b];
      } else {
        assert Pending() == before;
      }
      cached := cached[b := data];
      return Recorded;
    }

    /** What write_log needs: the contents of the pending blocks are in the cache. */
    ghost predicate ToBeLogged(data: seq<Block>)
      reads this
    {
      && WellSized(disk, area) && n == |data| <= |block| && n <= area.size - 1
      && (forall b :: b in cached ==> !area.Holds(b))
      && forall i :: 0 <= i < n ==> block[i] < |disk| && block[i] in cached && cached[block[i]] == data[i] && |data[i]| == WORDS
    }

    /** Copy the pending blocks from the cache into the log. */
    method WriteLog(ghost data: seq<Block>)
      requires ToBeLogged(data)
      modifies this`disk, this`cached, this`writes
      ensures cached == old(cached) && disk == Logged(old(disk), area, data, n)
      ensures writes == old(writes) + LoggedTrace(old(disk), area, data, n)
    {
      ghost var d0, w0 := disk, writes;
      var tail := 0;
      while tail < n
        invariant 0 <= tail <= n && cached == old(cached)
        invariant disk == Logged(d0, area, data, tail)
        invariant writes == w0 + LoggedTrace(d0, area, data, tail)
      {
        CopyToLog(block[tail], area.start + tail + 1, data[tail]);
        tail := tail + 1;
      }
    }

    /** One turn of write_log's loop. */
    method CopyToLog(b: nat, to: nat, ghost d: Block)
      requires b in cached && cached[b] == d && b < |disk| && to < |disk| && to !in cached
      modifies this`disk, this`cached, this`writes
      ensures cached == old(cached) && disk == old(disk)[to := d] && writes == old(writes) + [disk]
    {
      var from := Bread(b);
      Bwrite(to, from);
      assert cached == old(cached);
    }

    /** Write the in-memory header to the disk. */
    method WriteHead()
      requires WellSized(disk, area) && n <= LOGSIZE == |block| && area.start !in cached
      modifies this`disk, this`cached, this`writes
      ensures disk == WithHeader(old(disk), area, Pending()) && cached == old(cached)
      ensures writes == old(writes) + [disk]
    {
      var b := Bread(area.start);
      ghost var b0 := b;
      b := b[0 := n];
      var i := 0;
      while i < n
        invariant 0 <= i <= n && |b| == WORDS && b[0] == n
        invariant forall k :: 1 <= k < WORDS ==> b[k] == if k <= i then block[k - 1] else b0[k]
      {
        b := b[1 + i := block[i]];
        i := i + 1;
      }
      HeaderWords(b0, Pending(), b);
      Bwrite(area.start, b);
    }

    /** Copy the log blocks to their homes. */
    method InstallTrans()
      requires WellSized(disk, area) && n <= LOGSIZE == |block| && HomeBlocks(Pending(), disk, area)
      requires forall b :: b in cached ==> !area.Holds(b)
      modifies this`disk, this`cached, this`writes
      ensures disk == Installed(old(disk), area, Pending(), n)
      ensures forall b :: b in cached ==> b in old(cached) && b !in Pending()
      ensures writes == old(writes) + InstalledTrace(old(disk), area, Pending(), n)
    {
      ghost var d0, w0 := disk, writes;
      var tail := 0;
      while tail < n
        invariant 0 <= tail <= n
        invariant forall b :: b in cached ==> b in old(cached) && b !in block[..tail]
        invariant disk == Installed(d0, area, Pending(), tail)
        invariant writes == w0 + InstalledTrace(d0, area, Pending(), tail)
      {
        var lbuf := Bread(area.start + tail + 1);
        assert Pending()[tail] == block[tail];
        Bwrite(block[tail], lbuf);
        tail := tail + 1;
      }
    }

    /** commit: afterwards the transaction is on the disk and the log is empty. Its block
        writes are those of CommitTrace, in order. */
    method Commit()
      requires Valid()
      modifies this`disk, this`cached, this`writes, this`n
      ensures Valid() && n == 0 && cached == map[]
      ensures SameHome(disk, NewContents(old(disk), area, old(Pending()), ContentsOf(old(Pending()), old(cached))), area)
      ensures writes == old(writes) + if old(n) == 0 then [] else
        CommitTrace(old(disk), area, old(Pending()), ContentsOf(old(Pending()), old(cached)))
    {
      if n > 0 {
        CommitSome(disk, Pending(), ContentsOf(Pending(), cached));
      } else {
        assert cached == map[];
      }
    }

    lemma Ready(data: seq<Block>)
      requires Valid() && data == ContentsOf(Pending(), cached)
      ensures ToBeLogged(data)
    {
      forall i | 0 <= i < n ensures block[i] == Pending()[i] && block[i] in cached {
        assert block[i] in Pending();
      }
    }

    lemma IsTransaction(data: seq<Block>)
      requires Valid() && data == ContentsOf(Pending(), cached)
      ensures Transaction(disk, area, Pending(), data)
    {
      Ready(data);
    }

    /** The three steps of a commit with something to commit. */
    method CommitSome(ghost d0: Disk, ghost blocks: seq<nat>, ghost data: seq<Block>)
      requires Valid() && n > 0 && d0 == disk && blocks == Pending() && data == ContentsOf(blocks, cached)
      modifies this`disk, this`cached, this`writes, this`n
      ensures Valid() && n == 0 && cached == map[] && SameHome(disk, NewContents(d0, area, blocks, data), area)
      ensures Transaction(d0, area, blocks, data) && writes == old(writes) + CommitTrace(d0, area, blocks, data)
    {
      ghost var w0, logged := writes, LoggedTrace(d0, area, data, n);
      IsTransaction(data);
      WriteOut(d0, blocks, data);
      ghost var c := disk;
      InstallAndClear(d0, blocks, data);
      Regroup(w0, logged, [c], InstalledTrace(c, area, blocks, |blocks|), [disk]);
    }

    /** The part of commit up to the commit point. */
    method WriteOut(ghost d0: Disk, ghost blocks: seq<nat>, ghost data: seq<Block>)
      requires Valid() && n > 0 && d0 == disk && blocks == Pending() && data == ContentsOf(blocks, cached)
      requires Transaction(d0, area, blocks, data)
      modifies this`disk, this`cached, this`writes
      ensures cached == old(cached) && disk == Committed(d0, area, blocks, data)
      ensures writes == old(writes) + LoggedTrace(d0, area, data, n) + [disk]
    {
      Ready(data);
      WriteLog(data);
      WriteHead();
    }

    /** The rest of commit, after the commit point. */
    method InstallAndClear(ghost d0: Disk, ghost blocks: seq<nat>, ghost data: seq<Block>)
      requires |block| == LOGSIZE && 0 < n <= LOGSIZE && Pending() == blocks
      requires Transaction(d0, area, blocks, data) && disk == Committed(d0, area, blocks, data)
      requires forall b :: b in cached ==> b in blocks
      modifies this`disk, this`cached, this`writes, this`n
      ensures Valid() && n == 0 && cached == map[] && disk == CommitStage(d0, area, blocks, data, 2 * |blocks| + 2)
      ensures SameHome(disk, NewContents(d0, area, blocks, data), area)
      ensures writes == old(writes) + InstalledTrace(old(disk), area, blocks, |blocks|) + [disk]
    {
      assert Header(disk, area) == blocks by { CommittedRecovers(d0, area, blocks, data); }
      InstallTrans();
      n := 0;
      WriteHead();
      assert Pending() == [];
      CommitCompletes(d0, area, blocks, data);
    }

    /** initlog's recovery: the block writes are the stages of a complete recovery. */
    method RecoverFromLog()
      requires GoodHeader(disk, area) && cached == map[] && |block| == LOGSIZE
      modifies this`disk, this`cached, this`writes, this`n, this`block
      ensures Valid() && n == 0
      ensures disk == RecoveryStage(old(disk), area, HeaderCount(old(disk), area) + 1)
      ensures writes == old(writes) + RecoveryTrace(old(disk), area)
    {
      ReadHead();
      InstallTrans();
      n := 0;
      WriteHead();
      assert Pending() == [];
    }

    /** Read the header from the disk into memory. */
    method ReadHead()
      requires GoodHeader(disk, area) && cached == map[] && |block| == LOGSIZE
      modifies this`n, this`block
      ensures n == HeaderCount(disk, area) && |block| == LOGSIZE && Pending() == Header(disk, area)
    {
      var lh := Bread(area.start);
      n := lh[0];
      var i := 0;
      while i < n
        invariant 0 <= i <= n == HeaderCount(disk, area) && |block| == LOGSIZE
        invariant forall k :: 0 <= k < i ==> block[k] == lh[1 + k]
      {
        block := block[i := lh[1 + i]];
        i := i + 1;
      }
    }
  }
}

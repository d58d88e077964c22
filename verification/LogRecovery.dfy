/** The redo log of the xv6 file system: what is on the disk after each block write of a
    commit or of a recovery, and why a crash between any two of them is harmless. */
module LogRecovery {
  import opened Param

  /** A disk block as 32-bit words. */
  type Block = seq<nat>
  type Disk = seq<Block>

  const WORDS: nat := 128

  /** Where the log lies: a header block at `start`, then `size - 1` blocks. */
  datatype Area = Area(start: nat, size: nat) {
    predicate Holds(b: int) {
      start <= b < start + size
    }
  }

  predicate WellSized(d: Disk, a: Area) {
    a.size > 0 && a.start + a.size <= |d| && forall b :: 0 <= b < |d| ==> |d[b]| == WORDS
  }

  /** Block numbers that may be logged: on the disk, outside the log. */
  predicate HomeBlocks(blocks: seq<nat>, d: Disk, a: Area) {
    && |blocks| <= LOGSIZE && |blocks| <= a.size - 1
    && forall i :: 0 <= i < |blocks| ==> blocks[i] < |d| && !a.Holds(blocks[i])
  }

  /** The header as stored: word 0 the count, then that many block numbers. */
  function HeaderCount(d: Disk, a: Area): nat
    requires WellSized(d, a)
  {
    d[a.start][0]
  }

  predicate GoodHeader(d: Disk, a: Area) {
    WellSized(d, a) && HeaderCount(d, a) <= LOGSIZE && HomeBlocks(Header(d, a), d, a)
  }

  function Header(d: Disk, a: Area): seq<nat>
    requires WellSized(d, a) && HeaderCount(d, a) <= LOGSIZE
  {
    d[a.start][1..1 + HeaderCount(d, a)]
  }

  function PutHeader(b: Block, blocks: seq<nat>): Block
    requires |b| == WORDS && |blocks| <= LOGSIZE
  {
    [|blocks|] + blocks + b[1 + |blocks|..]
  }

  function WithHeader(d: Disk, a: Area, blocks: seq<nat>): Disk
    requires WellSized(d, a) && |blocks| <= LOGSIZE
  {
    d[a.start := PutHeader(d[a.start], blocks)]
  }

  /** The first k log blocks copied to their homes. */
  function Installed(d: Disk, a: Area, blocks: seq<nat>, k: nat): (r: Disk)
    requires WellSized(d, a) && HomeBlocks(blocks, d, a) && k <= |blocks|
    ensures WellSized(r, a) && |r| == |d| && forall b :: a.Holds(b) ==> r[b] == d[b]
    decreases k
  {
    if k == 0 then d else
    var e := Installed(d, a, blocks, k - 1);
    e[blocks[k - 1] := e[a.start + k]]
  }

  /** The first k of the new contents copied into the log. */
  function Logged(d: Disk, a: Area, data: seq<Block>, k: nat): (r: Disk)
    requires WellSized(d, a) && k <= |data| <= a.size - 1 && forall i :: 0 <= i < |data| ==> |data[i]| == WORDS
    ensures WellSized(r, a) && |r| == |d| && r[a.start] == d[a.start]
    ensures forall i :: 0 <= i < k ==> r[a.start + 1 + i] == data[i]
    ensures forall b :: 0 <= b < |d| && !a.Holds(b) ==> r[b] == d[b]
    decreases k
  {
    if k == 0 then d else Logged(d, a, data, k - 1)[a.start + k := data[k - 1]]
  }

  /** The disk after i block writes of recover_from_log. */
  function RecoveryStage(d: Disk, a: Area, i: nat): Disk
    requires GoodHeader(d, a) && i <= HeaderCount(d, a) + 1
  {
    var n := HeaderCount(d, a);
    if i <= n then Installed(d, a, Header(d, a), i)
    else WithHeader(Installed(d, a, Header(d, a), n), a, [])
  }

  predicate Transaction(d: Disk, a: Area, blocks: seq<nat>, data: seq<Block>) {
    && WellSized(d, a) && HeaderCount(d, a) == 0 && HomeBlocks(blocks, d, a)
    && |data| == |blocks| && (forall i :: 0 <= i < |data| ==> |data[i]| == WORDS)
    && (forall i, j :: 0 <= i < j < |blocks| ==> blocks[i] != blocks[j])
  }

  /** The disk after i block writes of commit: n log blocks, the header, n home blocks,
      and the header again. */
  function CommitStage(d: Disk, a: Area, blocks: seq<nat>, data: seq<Block>, i: nat): Disk
    requires Transaction(d, a, blocks, data) && i <= 2 * |blocks| + 2
  {
    var n := |blocks|;
    if i <= n then Logged(d, a, data, i)
    else
      var committed := WithHeader(Logged(d, a, data, n), a, blocks);
      if i <= 2 * n + 1 then Installed(committed, a, blocks, i - n - 1)
      else WithHeader(Installed(committed, a, blocks, n), a, [])
  }

  /** The disks after each block write, in order. */
  ghost function LoggedTrace(d: Disk, a: Area, data: seq<Block>, k: nat): (t: seq<Disk>)
    requires WellSized(d, a) && k <= |data| <= a.size - 1 && forall i :: 0 <= i < |data| ==> |data[i]| == WORDS
    ensures |t| == k
    decreases k
  {
    if k == 0 then [] else LoggedTrace(d, a, data, k - 1) + [Logged(d, a, data, k)]
  }

  ghost function InstalledTrace(d: Disk, a: Area, blocks: seq<nat>, k: nat): (t: seq<Disk>)
    requires WellSized(d, a) && HomeBlocks(blocks, d, a) && k <= |blocks|
    ensures |t| == k
    decreases k
  {
    if k == 0 then [] else InstalledTrace(d, a, blocks, k - 1) + [Installed(d, a, blocks, k)]
  }

  ghost function RecoveryTrace(d: Disk, a: Area): seq<Disk>
    requires GoodHeader(d, a)
  {
    var n := HeaderCount(d, a);
    InstalledTrace(d, a, Header(d, a), n) + [RecoveryStage(d, a, n + 1)]
  }

  ghost function CommitTrace(d: Disk, a: Area, blocks: seq<nat>, data: seq<Block>): seq<Disk>
    requires Transaction(d, a, blocks, data)
  {
    var n := |blocks|;
    var committed := CommitStage(d, a, blocks, data, n + 1);
    LoggedTrace(d, a, data, n) + [committed]
    + InstalledTrace(committed, a, blocks, n) + [CommitStage(d, a, blocks, data, 2 * n + 2)]
  }

  lemma {:induction false} LoggedTraceAt(d: Disk, a: Area, data: seq<Block>, k: nat, i: nat)
    requires WellSized(d, a) && k <= |data| <= a.size - 1 && forall i :: 0 <= i < |data| ==> |data[i]| == WORDS
    requires 1 <= i <= k
    ensures LoggedTrace(d, a, data, k)[i - 1] == Logged(d, a, data, i)
    decreases k
  {
    if i < k { LoggedTraceAt(d, a, data, k - 1, i); }
  }

  lemma {:induction false} InstalledTraceAt(d: Disk, a: Area, blocks: seq<nat>, k: nat, i: nat)
    requires WellSized(d, a) && HomeBlocks(blocks, d, a) && k <= |blocks| && 1 <= i <= k
    ensures InstalledTrace(d, a, blocks, k)[i - 1] == Installed(d, a, blocks, i)
    decreases k
  {
    if i < k { InstalledTraceAt(d, a, blocks, k - 1, i); }
  }

  /** The i-th write of a commit leaves its i-th stage. */
  lemma CommitTraceAt(d: Disk, a: Area, blocks: seq<nat>, data: seq<Block>, i: nat)
    requires Transaction(d, a, blocks, data) && 1 <= i <= 2 * |blocks| + 2
    ensures |CommitTrace(d, a, blocks, data)| == 2 * |blocks| + 2
    ensures CommitTrace(d, a, blocks, data)[i - 1] == CommitStage(d, a, blocks, data, i)
  {
    var n := |blocks|;
    if i <= n { LoggedTraceAt(d, a, data, n, i); }
    if n + 1 < i <= 2 * n + 1 {
      InstalledTraceAt(CommitStage(d, a, blocks, data, n + 1), a, blocks, n, i - n - 1);
    }
  }

  /** The i-th write of a recovery leaves its i-th stage. */
  lemma RecoveryTraceAt(d: Disk, a: Area, i: nat)
    requires GoodHeader(d, a) && 1 <= i <= HeaderCount(d, a) + 1
    ensures |RecoveryTrace(d, a)| == HeaderCount(d, a) + 1
    ensures RecoveryTrace(d, a)[i - 1] == RecoveryStage(d, a, i)
  {
    if i <= HeaderCount(d, a) { InstalledTraceAt(d, a, Header(d, a), HeaderCount(d, a), i); }
  }

  predicate SameHome(d: Disk, e: Disk, a: Area) {
    |d| == |e| && forall b :: 0 <= b < |d| && !a.Holds(b) ==> d[b] == e[b]
  }

  /** What a complete recovery from d would leave in the home blocks. */
  predicate RecoversTo(d: Disk, a: Area, target: Disk) {
    GoodHeader(d, a) && SameHome(Installed(d, a, Header(d, a), HeaderCount(d, a)), target, a)
  }

  /** The home blocks after the transaction. */
  function NewContents(d: Disk, a: Area, blocks: seq<nat>, data: seq<Block>): Disk
    requires Transaction(d, a, blocks, data)
  {
    Updated(d, blocks, data, |blocks|)
  }

  function Updated(d: Disk, blocks: seq<nat>, data: seq<Block>, k: nat): (r: Disk)
    requires k <= |blocks| == |data| && forall i :: 0 <= i < |blocks| ==> blocks[i] < |d|
    ensures |r| == |d|
    decreases k
  {
    if k == 0 then d else Updated(d, blocks, data, k - 1)[blocks[k - 1] := data[k - 1]]
  }

  // ----- Installing -----

  /** Installing all of the log over a disk that differs only in home blocks the log
      overwrites anyway gives the same home blocks. */
  lemma InstalledHides(d: Disk, e: Disk, a: Area, blocks: seq<nat>, k: nat)
    requires WellSized(d, a) && WellSized(e, a) && |d| == |e| && HomeBlocks(blocks, d, a) && k <= |blocks|
    requires forall b :: a.Holds(b) && b != a.start ==> d[b] == e[b]
    requires forall b :: 0 <= b < |d| && !a.Holds(b) && b !in blocks[..k] ==> d[b] == e[b]
    ensures SameHome(Installed(d, a, blocks, k), Installed(e, a, blocks, k), a)
  {
    forall b | 0 <= b < |d| && !a.Holds(b) ensures Installed(d, a, blocks, k)[b] == Installed(e, a, blocks, k)[b] {
      InstalledSame(d, e, a, blocks, k, b);
    }
  }

  /** A home block comes from the log on both disks, or was the same on both. */
  lemma {:induction false} InstalledSame(d: Disk, e: Disk, a: Area, blocks: seq<nat>, k: nat, b: nat)
    requires WellSized(d, a) && WellSized(e, a) && |d| == |e| && HomeBlocks(blocks, d, a) && k <= |blocks|
    requires forall b :: a.Holds(b) && b != a.start ==> d[b] == e[b]
    requires b < |d| && (b in blocks[..k] || d[b] == e[b])
    ensures Installed(d, a, blocks, k)[b] == Installed(e, a, blocks, k)[b]
    decreases k
  {
    if k > 0 && blocks[k - 1] == b {
      assert a.Holds(a.start + k);
    } else if k > 0 {
      assert blocks[..k] == blocks[..k - 1] + [blocks[k - 1]];
      InstalledSame(d, e, a, blocks, k - 1, b);
    }
  }

  lemma {:induction false} InstalledAt(d: Disk, a: Area, blocks: seq<nat>, k: nat, b: nat)
    requires WellSized(d, a) && HomeBlocks(blocks, d, a) && k <= |blocks| && b < |d| && b !in blocks[..k]
    ensures Installed(d, a, blocks, k)[b] == d[b]
    decreases k
  {
    if k > 0 {
      assert blocks[..k] == blocks[..k - 1] + [blocks[k - 1]];
      InstalledAt(d, a, blocks, k - 1, b);
    }
  }

  // ----- Every write of a recovery keeps what it will recover to -----

  lemma HeaderPut(d: Disk, a: Area, blocks: seq<nat>)
    requires WellSized(d, a) && |blocks| <= LOGSIZE
    ensures var e := WithHeader(d, a, blocks);
      && WellSized(e, a) && |e| == |d| && HeaderCount(e, a) == |blocks| && Header(e, a) == blocks
      && forall b :: 0 <= b < |d| && b != a.start ==> e[b] == d[b]
  {
  }

  lemma RecoveryStageKeeps(d: Disk, a: Area, i: nat, target: Disk)
    requires RecoversTo(d, a, target) && i <= HeaderCount(d, a) + 1
    ensures RecoversTo(RecoveryStage(d, a, i), a, target)
    ensures i == HeaderCount(d, a) + 1 ==>
      HeaderCount(RecoveryStage(d, a, i), a) == 0 && SameHome(RecoveryStage(d, a, i), target, a)
  {
    var n, blocks := HeaderCount(d, a), Header(d, a);
    if i <= n {
      var e := Installed(d, a, blocks, i);
      forall b | 0 <= b < |d| && !a.Holds(b) && b !in blocks[..n] ensures e[b] == d[b] {
        assert b !in blocks[..i];
        InstalledAt(d, a, blocks, i, b);
      }
      InstalledHides(e, d, a, blocks, n);
    } else {
      HeaderPut(Installed(d, a, blocks, n), a, []);
    }
  }

  // ----- Commit -----

  lemma {:induction false} InstallingUpdates(d: Disk, c: Disk, a: Area, blocks: seq<nat>, data: seq<Block>, k: nat)
    requires WellSized(c, a) && HomeBlocks(blocks, c, a) && |d| == |c| && |data| == |blocks| && k <= |blocks|
    requires SameHome(c, d, a) && forall i :: 0 <= i < |data| ==> c[a.start + 1 + i] == data[i]
    ensures SameHome(Installed(c, a, blocks, k), Updated(d, blocks, data, k), a)
    decreases k
  {
    if k > 0 {
      InstallingUpdates(d, c, a, blocks, data, k - 1);
      assert c[a.start + 1 + (k - 1)] == data[k - 1];
    }
  }

  /** The disk right after the header write, the commit point. */
  function Committed(d: Disk, a: Area, blocks: seq<nat>, data: seq<Block>): Disk
    requires Transaction(d, a, blocks, data)
  {
    CommitStage(d, a, blocks, data, |blocks| + 1)
  }

  /** What the commit point leaves on the disk: the count and the block numbers in the words
      of the header, the new contents in the log blocks behind it, and nothing else. */
  lemma CommittedOnDisk(d: Disk, a: Area, blocks: seq<nat>, data: seq<Block>, b: nat)
    requires Transaction(d, a, blocks, data) && b < |d|
    ensures var c := Committed(d, a, blocks, data);
      && c[a.start][0] == |blocks| && (forall i :: 0 <= i < |blocks| ==> c[a.start][1 + i] == blocks[i])
      && (forall i :: 0 <= i < |blocks| ==> c[a.start + 1 + i] == data[i])
      && (!(a.start <= b <= a.start + |blocks|) ==> c[b] == d[b])
  {
    var l := Logged(d, a, data, |data|);
    HeaderPut(l, a, blocks);
    if !(a.start <= b <= a.start + |blocks|) {
      LoggedOnly(d, a, data, |data|, b);
    }
  }

  lemma {:induction false} LoggedOnly(d: Disk, a: Area, data: seq<Block>, k: nat, b: nat)
    requires WellSized(d, a) && k <= |data| <= a.size - 1 && forall i :: 0 <= i < |data| ==> |data[i]| == WORDS
    requires b < |d| && !(a.start < b <= a.start + k)
    ensures Logged(d, a, data, k)[b] == d[b]
    decreases k
  {
    if k > 0 {
      LoggedOnly(d, a, data, k - 1, b);
    }
  }

  lemma CommittedRecovers(d: Disk, a: Area, blocks: seq<nat>, data: seq<Block>)
    requires Transaction(d, a, blocks, data)
    ensures var c := Committed(d, a, blocks, data);
      Header(c, a) == blocks && RecoversTo(c, a, NewContents(d, a, blocks, data))
  {
    var l := Logged(d, a, data, |data|);
    HeaderPut(l, a, blocks);
    InstallingUpdates(d, WithHeader(l, a, blocks), a, blocks, data, |blocks|);
  }

  /** Before the header write a recovery would restore the old home blocks, from then on
      it would complete the new ones. */
  lemma CommitStageRecovers(d: Disk, a: Area, blocks: seq<nat>, data: seq<Block>, i: nat)
    requires Transaction(d, a, blocks, data) && i <= 2 * |blocks| + 2
    ensures var target := if i <= |blocks| then d else NewContents(d, a, blocks, data);
      RecoversTo(CommitStage(d, a, blocks, data, i), a, target)
  {
    var n := |blocks|;
    if i > n {
      CommittedRecovers(d, a, blocks, data);
      RecoveryStageKeeps(Committed(d, a, blocks, data), a, i - n - 1, NewContents(d, a, blocks, data));
    }
  }

  /** A commit that is not interrupted empties the log and leaves the new contents. */
  lemma CommitCompletes(d: Disk, a: Area, blocks: seq<nat>, data: seq<Block>)
    requires Transaction(d, a, blocks, data)
    ensures var final := CommitStage(d, a, blocks, data, 2 * |blocks| + 2);
      WellSized(final, a) && HeaderCount(final, a) == 0 && SameHome(final, NewContents(d, a, blocks, data), a)
  {
    CommittedRecovers(d, a, blocks, data);
    RecoveryStageKeeps(Committed(d, a, blocks, data), a, |blocks| + 1, NewContents(d, a, blocks, data));
  }

  /** Each logged block has its new contents, every other block its old ones. */
  lemma {:induction false} UpdatedAt(d: Disk, blocks: seq<nat>, data: seq<Block>, k: nat, b: nat)
    requires k <= |blocks| == |data| && b < |d| && forall i :: 0 <= i < |blocks| ==> blocks[i] < |d|
    requires forall i, j :: 0 <= i < j < |blocks| ==> blocks[i] != blocks[j]
    ensures b !in blocks[..k] ==> Updated(d, blocks, data, k)[b] == d[b]
    ensures forall i :: 0 <= i < k && blocks[i] == b ==> Updated(d, blocks, data, k)[b] == data[i]
    decreases k
  {
    if k > 0 {
      assert blocks[..k] == blocks[..k - 1] + [blocks[k - 1]];
      UpdatedAt(d, blocks, data, k - 1, b);
    }
  }

  // ----- Crashes -----

  /** e is what an interrupted recovery from d had written so far. */
  ghost predicate Interrupted(d: Disk, e: Disk, a: Area) {
    GoodHeader(d, a) && exists i :: 0 <= i <= HeaderCount(d, a) + 1 && e == RecoveryStage(d, a, i)
  }

  /** Disks met at successive crashes. */
  ghost predicate CrashChain(chain: seq<Disk>, a: Area) {
    |chain| > 0 && forall j :: 0 < j < |chain| ==> Interrupted(chain[j - 1], chain[j], a)
  }

  lemma InterruptedKeeps(d: Disk, e: Disk, a: Area, target: Disk)
    requires Interrupted(d, e, a) && RecoversTo(d, a, target)
    ensures RecoversTo(e, a, target)
  {
    var i :| 0 <= i <= HeaderCount(d, a) + 1 && e == RecoveryStage(d, a, i);
    RecoveryStageKeeps(d, a, i, target);
  }

  lemma {:induction false} CrashChainKeeps(chain: seq<Disk>, a: Area, target: Disk, j: nat)
    requires CrashChain(chain, a) && RecoversTo(chain[0], a, target) && j < |chain|
    ensures RecoversTo(chain[j], a, target)
  {
    if j > 0 {
      CrashChainKeeps(chain, a, target, j - 1);
      InterruptedKeeps(chain[j - 1], chain[j], a, target);
    }
  }

  /** A crash after any i writes of a commit, any number of crashes during recovery, then
      one recovery that completes: the home blocks are all old if the header had not been
      written, all new if it had, and the log is empty. */
  lemma CrashAtomicity(d: Disk, a: Area, blocks: seq<nat>, data: seq<Block>, i: nat, chain: seq<Disk>)
    requires Transaction(d, a, blocks, data) && i <= 2 * |blocks| + 2
    requires CrashChain(chain, a) && chain[0] == CommitStage(d, a, blocks, data, i)
    ensures GoodHeader(chain[|chain| - 1], a)
    ensures var last := chain[|chain| - 1];
      var r := RecoveryStage(last, a, HeaderCount(last, a) + 1);
      && HeaderCount(r, a) == 0
      && SameHome(r, if i <= |blocks| then d else NewContents(d, a, blocks, data), a)
  {
    var target := if i <= |blocks| then d else NewContents(d, a, blocks, data);
    CommitStageRecovers(d, a, blocks, data, i);
    CrashChainKeeps(chain, a, target, |chain| - 1);
    var last := chain[|chain| - 1];
    RecoveryStageKeeps(last, a, HeaderCount(last, a) + 1, target);
  }
}

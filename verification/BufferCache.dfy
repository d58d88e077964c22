/** Any number of processes using the block cache over the disk, in every interleaving of
    the sections of bget and brelse and of what the holder of a buffer does: the cache is
    coherent. */
module BufferCache {
  import opened BufferRing
  import opened Options

  type Contents = seq<nat>

  /** The only disk that iderw knows. */
  const DISK: nat := 1

  datatype Key = Key(dev: nat, blockno: nat)

  /** The buffers a process has from bread, for the blocks it asked for; one it is waiting
      to lock; one it has unlocked but not yet unreferenced. */
  datatype Proc = Proc(held: map<nat, Key>, waiting: Option<(nat, Key)>, releasing: Option<nat>)

  /** altered[b]: the holder has changed the data and not yet called log_write or bwrite. */
  datatype State = State(bufs: seq<Buf>, order: seq<nat>, data: seq<Contents>, altered: seq<bool>, holder: seq<Option<nat>>,
                         disk: seq<Contents>, procs: seq<Proc>)

  datatype Action =
    | Get(q: nat, key: Key, r: Option<nat>, bufs': seq<Buf>)   // bget's section, with its outcome
    | Lock(q: nat)                                             // acquiresleep returns
    | Read(q: nat, b: nat)                                     // iderw in bread
    | Change(q: nat, b: nat, d: Contents)                      // the holder changes the data
    | Flag(q: nat, b: nat)                                     // log_write sets B_DIRTY
    | Bwrite(q: nat, b: nat)
    | Unlock(q: nat, b: nat)                                   // releasesleep in brelse, of what is not altered
    | Unref(q: nat, k: nat)                                    // the rest of brelse; the buffer is order[k]

  ghost predicate Start(s: State) {
    && s.bufs == seq(NBUF, _ => Buf(0, 0, 0, false, false)) && s.order == FirstOrder()
    && |s.data| == NBUF && s.holder == seq(NBUF, _ => None) && s.altered == seq(NBUF, _ => false)
    && forall q :: 0 <= q < |s.procs| ==> s.procs[q] == Proc(map[], None, None)
  }

  /** A process uses a buffer only while it holds it, after bread has returned. */
  predicate Using(s: State, q: nat, b: nat) {
    && q < |s.procs| && b in s.procs[q].held && b < |s.bufs| == |s.data| == |s.holder|
    && s.bufs[b].valid
  }

  predicate Ready(s: State) {
    Good(s.bufs, s.order) && |s.data| == |s.holder| == |s.altered| == NBUF
  }

  ghost function Step(s: State, a: Action): Option<State>
    requires Ready(s)
  {
    match a
    case Get(q, key, r, bufs') =>
      if q < |s.procs| && s.procs[q].waiting.None? && r.Some? && Got(s.bufs, s.order, key.dev, key.blockno, r, bufs')
      then Some(s.(bufs := bufs', procs := s.procs[q := s.procs[q].(waiting := Some((r.value, key)))]))
      else None
    case Lock(q) =>
      if q < |s.procs| && s.procs[q].waiting.Some? && s.procs[q].waiting.value.0 < NBUF && s.holder[s.procs[q].waiting.value.0].None?
      then
        var (b, key) := s.procs[q].waiting.value;
        Some(s.(holder := s.holder[b := Some(q)], procs := s.procs[q := s.procs[q].(held := s.procs[q].held[b := key], waiting := None)]))
      else None
    case Read(q, b) =>
      if q < |s.procs| && b in s.procs[q].held && b < NBUF && !s.bufs[b].valid && !s.bufs[b].dirty
         && s.bufs[b].dev == DISK && s.bufs[b].blockno < |s.disk|
      then Some(s.(bufs := s.bufs[b := s.bufs[b].(valid := true)], data := s.data[b := s.disk[s.bufs[b].blockno]]))
      else None
    case Change(q, b, d) =>
      if Using(s, q, b)
      then Some(s.(data := s.data[b := d], altered := s.altered[b := true]))
      else None
    case Flag(q, b) =>
      if Using(s, q, b)
      then Some(s.(bufs := s.bufs[b := s.bufs[b].(dirty := true)], altered := s.altered[b := false]))
      else None
    case Bwrite(q, b) =>
      if Using(s, q, b) && s.bufs[b].dev == DISK && s.bufs[b].blockno < |s.disk|
      then Some(s.(bufs := s.bufs[b := s.bufs[b].(dirty := false)], altered := s.altered[b := false],
                   disk := s.disk[s.bufs[b].blockno := s.data[b]]))
      else None
    case Unlock(q, b) =>
      if Using(s, q, b) && s.procs[q].releasing.None? && !s.altered[b]
      then Some(s.(holder := s.holder[b := None],
                   procs := s.procs[q := s.procs[q].(held := s.procs[q].held - {b}, releasing := Some(b))]))
      else None
    case Unref(q, k) =>
      if q < |s.procs| && k < NBUF && s.procs[q].releasing == Some(s.order[k]) && s.bufs[s.order[k]].refcnt > 0
      then
        var b := s.order[k];
        Some(s.(bufs := s.bufs[b := s.bufs[b].(refcnt := s.bufs[b].refcnt - 1)],
                order := if s.bufs[b].refcnt == 1 then ToFront(s.order, k) else s.order,
                procs := s.procs[q := s.procs[q].(releasing := None)]))
      else None
  }

  // ----- References -----

  function ClaimsOf(p: Proc, b: nat): nat {
    (if b in p.held then 1 else 0) + (if p.waiting.Some? && p.waiting.value.0 == b then 1 else 0)
    + (if p.releasing == Some(b) then 1 else 0)
  }

  function Claims(procs: seq<Proc>, b: nat): nat {
    if procs == [] then 0 else ClaimsOf(procs[0], b) + Claims(procs[1..], b)
  }

  lemma {:induction false} ClaimsUpdate(procs: seq<Proc>, q: nat, p: Proc, b: nat)
    requires q < |procs|
    ensures Claims(procs[q := p], b) + ClaimsOf(procs[q], b) == Claims(procs, b) + ClaimsOf(p, b)
  {
    var procs' := procs[q := p];
    if q == 0 {
      assert procs'[1..] == procs[1..];
    } else {
      assert procs'[1..] == procs[1..][q - 1 := p];
      ClaimsUpdate(procs[1..], q - 1, p, b);
    }
  }

  lemma {:induction false} NoClaims(procs: seq<Proc>, q: nat, b: nat)
    requires q < |procs|
    ensures ClaimsOf(procs[q], b) <= Claims(procs, b)
  {
    if q > 0 {
      assert procs[q] == procs[1..][q - 1];
      NoClaims(procs[1..], q - 1, b);
    }
  }

  // ----- The invariant -----

  ghost predicate Unique(s: State) {
    forall b, c :: 0 <= b < c < |s.bufs| && s.bufs[b].dev == s.bufs[c].dev && s.bufs[b].blockno == s.bufs[c].blockno ==> s.bufs[b].dev == 0
  }

  ghost predicate Counted(s: State) {
    forall b: nat :: b < |s.bufs| ==> s.bufs[b].refcnt == Claims(s.procs, b)
  }

  predicate ProcOk(s: State, q: nat)
    requires q < |s.procs| && |s.bufs| == |s.holder|
  {
    var p := s.procs[q];
    && (forall b :: b in p.held ==> b < |s.bufs| && s.holder[b] == Some(q) && Keyed(s.bufs[b], p.held[b].dev, p.held[b].blockno))
    && (p.waiting.Some? ==>
          p.waiting.value.0 < |s.bufs| && Keyed(s.bufs[p.waiting.value.0], p.waiting.value.1.dev, p.waiting.value.1.blockno))
    && (p.releasing.Some? ==> p.releasing.value < |s.bufs|)
  }

  ghost predicate Held(s: State)
    requires |s.bufs| == |s.holder|
  {
    && (forall q: nat :: q < |s.procs| ==> ProcOk(s, q))
    && forall b: nat :: b < |s.holder| && s.holder[b].Some? ==> s.holder[b].value < |s.procs| && b in s.procs[s.holder[b].value].held
  }

  predicate BufOk(s: State, b: nat)
    requires b < |s.bufs| == |s.data| == |s.holder| == |s.altered|
  {
    && (s.bufs[b].dirty ==> s.bufs[b].valid)
    && (s.altered[b] ==> s.bufs[b].valid && s.holder[b].Some?)
    && (s.bufs[b].valid ==> s.bufs[b].dev == DISK && s.bufs[b].blockno < |s.disk|)
    && (s.bufs[b].valid && !s.bufs[b].dirty && !s.altered[b] ==> s.data[b] == s.disk[s.bufs[b].blockno])
  }

  /** A valid clean buffer equals its disk block, unless its holder has just altered it. */
  ghost predicate Clean(s: State) {
    forall b: nat :: b < |s.bufs| == |s.data| == |s.holder| == |s.altered| ==> BufOk(s, b)
  }

  ghost predicate Inv(s: State) {
    && Ready(s) && Unique(s) && Counted(s) && Held(s) && Clean(s)
  }

  // ----- What users see -----

  /** Block blockno has contents d: in the cache if it is there, else on the disk. */
  ghost predicate Shows(s: State, blockno: nat, d: Contents)
    requires |s.bufs| == |s.data|
  {
    if exists b: nat :: b < |s.bufs| && s.bufs[b].valid && Keyed(s.bufs[b], DISK, blockno)
    then exists b: nat :: b < |s.bufs| && s.bufs[b].valid && Keyed(s.bufs[b], DISK, blockno) && s.data[b] == d
    else blockno < |s.disk| && s.disk[blockno] == d
  }

  lemma StartInv(s: State)
    requires Start(s)
    ensures Inv(s)
  {
    FirstOrderFull();
    forall b: nat ensures Claims(s.procs, b) == 0 {
      StartClaims(s.procs, b);
    }
  }

  lemma {:induction false} StartClaims(procs: seq<Proc>, b: nat)
    requires forall q :: 0 <= q < |procs| ==> procs[q] == Proc(map[], None, None)
    ensures Claims(procs, b) == 0
  {
    if procs != [] {
      StartClaims(procs[1..], b);
    }
  }

  // ----- bget -----

  lemma GetParts(s: State, key: Key, r: Option<nat>, bufs': seq<Buf>)
    requires Good(s.bufs, s.order) && Got(s.bufs, s.order, key.dev, key.blockno, r, bufs') && r.Some?
    ensures r.value < NBUF && |bufs'| == NBUF
    ensures bufs' == s.bufs[r.value := bufs'[r.value]] && Keyed(bufs'[r.value], key.dev, key.blockno)
    ensures bufs'[r.value].refcnt == s.bufs[r.value].refcnt + 1
    ensures if Keyed(s.bufs[r.value], key.dev, key.blockno) && bufs'[r.value].valid == s.bufs[r.value].valid then
        bufs'[r.value] == s.bufs[r.value].(refcnt := bufs'[r.value].refcnt)
      else
        Unused(s.bufs[r.value]) && bufs'[r.value] == Buf(key.dev, key.blockno, 1, false, false)
        && forall b :: 0 <= b < NBUF ==> !Keyed(s.bufs[b], key.dev, key.blockno)
  {
    if NoHit(s.bufs, s.order, key.dev, key.blockno) {
      forall b: nat | b < NBUF ensures !Keyed(s.bufs[b], key.dev, key.blockno) {
        assert b in s.order;
        var i :| 0 <= i < NBUF && s.order[i] == b;
        assert !Keyed(s.bufs[s.order[i]], key.dev, key.blockno);
      }
    }
  }

  // ----- Every step keeps the invariant -----

  lemma GetInv(s: State, q: nat, key: Key, r: Option<nat>, bufs': seq<Buf>, s': State)
    requires Inv(s) && Step(s, Get(q, key, r, bufs')) == Some(s')
    ensures Inv(s')
  {
    var b := r.value;
    GetParts(s, key, r, bufs');
    GetCounted(s, q, key, b, s');
    forall p: nat | p < |s.procs| ensures ProcOk(s', p) {
      assert ProcOk(s, p);
      NoClaims(s.procs, p, b);
    }
    forall c: nat | c < NBUF ensures BufOk(s', c) {
      assert BufOk(s, c);
      if s.holder[c].Some? {
        HeldClaimed(s, c);
      }
    }
  }

  /** A locked buffer is referenced. */
  lemma HeldClaimed(s: State, c: nat)
    requires Inv(s) && c < NBUF && s.holder[c].Some?
    ensures s.bufs[c].refcnt > 0
  {
    NoClaims(s.procs, s.holder[c].value, c);
  }

  lemma GetCounted(s: State, q: nat, key: Key, b: nat, s': State)
    requires Counted(s) && q < |s.procs| && s.procs[q].waiting.None? && b < |s.bufs| == |s'.bufs|
    requires s'.procs == s.procs[q := s.procs[q].(waiting := Some((b, key)))]
    requires s'.bufs == s.bufs[b := s'.bufs[b]] && s'.bufs[b].refcnt == s.bufs[b].refcnt + 1
    ensures Counted(s')
  {
    forall c: nat | c < |s.bufs| ensures s'.bufs[c].refcnt == Claims(s'.procs, c) {
      ClaimsUpdate(s.procs, q, s'.procs[q], c);
    }
  }

  /** A step of process q that changes neither reference counts nor what q refers to. */
  lemma SameCounted(s: State, q: nat, p: Proc, s': State)
    requires Counted(s) && q < |s.procs| && s'.procs == s.procs[q := p] && |s'.bufs| == |s.bufs|
    requires forall c: nat :: c < |s.bufs| ==> s'.bufs[c].refcnt == s.bufs[c].refcnt && ClaimsOf(p, c) == ClaimsOf(s.procs[q], c)
    ensures Counted(s')
  {
    forall c: nat | c < |s.bufs| ensures s'.bufs[c].refcnt == Claims(s'.procs, c) {
      ClaimsUpdate(s.procs, q, p, c);
    }
  }

  lemma LockInv(s: State, q: nat, s': State)
    requires Inv(s) && Step(s, Lock(q)) == Some(s')
    ensures Inv(s')
  {
    assert ProcOk(s, q);
    SameCounted(s, q, s'.procs[q], s');
    forall p: nat | p < |s.procs| ensures ProcOk(s', p) {
      assert ProcOk(s, p);
    }
    forall c: nat | c < NBUF ensures BufOk(s', c) {
      assert BufOk(s, c);
    }
  }

  lemma UnlockInv(s: State, q: nat, b: nat, s': State)
    requires Inv(s) && Step(s, Unlock(q, b)) == Some(s')
    ensures Inv(s')
  {
    assert ProcOk(s, q);
    SameCounted(s, q, s'.procs[q], s');
    forall p: nat | p < |s.procs| ensures ProcOk(s', p) {
      assert ProcOk(s, p);
    }
    forall c: nat | c < NBUF ensures BufOk(s', c) {
      assert BufOk(s, c);
    }
  }

  lemma UnrefInv(s: State, q: nat, k: nat, s': State)
    requires Inv(s) && Step(s, Unref(q, k)) == Some(s')
    ensures Inv(s')
  {
    ToFrontFull(s.order, k);
    assert forall c: nat :: c < NBUF ==> s'.bufs[c].dev == s.bufs[c].dev && s'.bufs[c].blockno == s.bufs[c].blockno;
    forall c: nat | c < |s.bufs| ensures s'.bufs[c].refcnt == Claims(s'.procs, c) {
      ClaimsUpdate(s.procs, q, s'.procs[q], c);
    }
    forall p: nat | p < |s.procs| ensures ProcOk(s', p) {
      assert ProcOk(s, p);
    }
    forall c: nat | c < NBUF ensures BufOk(s', c) {
      assert BufOk(s, c);
    }
  }

  /** What a holder does to its buffer, and to the disk. */
  lemma HolderInv(s: State, a: Action, s': State)
    requires Inv(s) && Step(s, a) == Some(s') && (a.Read? || a.Change? || a.Flag? || a.Bwrite?)
    ensures Inv(s')
  {
    assert ProcOk(s, a.q);
    SameCounted(s, a.q, s.procs[a.q], s');
    assert forall c: nat :: c < NBUF ==> s'.bufs[c].dev == s.bufs[c].dev && s'.bufs[c].blockno == s.bufs[c].blockno;
    forall p: nat | p < |s.procs| ensures ProcOk(s', p) {
      assert ProcOk(s, p);
    }
    HolderClean(s, a, s');
  }

  lemma HolderClean(s: State, a: Action, s': State)
    requires Inv(s) && Step(s, a) == Some(s') && (a.Read? || a.Change? || a.Flag? || a.Bwrite?)
    ensures Clean(s')
  {
    assert ProcOk(s, a.q);
    forall c: nat | c < NBUF ensures BufOk(s', c) {
      assert BufOk(s, c) && BufOk(s, a.b);
    }
  }

  lemma StepInv(s: State, a: Action, s': State)
    requires Inv(s) && Step(s, a) == Some(s')
    ensures Inv(s')
  {
    match a
    case Get(q, key, r, bufs') => GetInv(s, q, key, r, bufs', s');
    case Lock(q) => LockInv(s, q, s');
    case Unlock(q, b) => UnlockInv(s, q, b, s');
    case Unref(q, k) => UnrefInv(s, q, k, s');
    case _ => HolderInv(s, a, s');
  }

  /** After a run from a start state. */
  ghost predicate Runs(s: State, run: seq<Action>, s': State)
    decreases |run|
  {
    if run == [] then Start(s) && s' == s
    else exists m :: Runs(s, run[..|run| - 1], m) && Ready(m) && Step(m, run[|run| - 1]) == Some(s')
  }

  lemma {:induction false} RunsInv(s: State, run: seq<Action>, s': State)
    requires Runs(s, run, s')
    ensures Inv(s')
    decreases |run|
  {
    if run == [] {
      StartInv(s);
    } else {
      var m :| Runs(s, run[..|run| - 1], m) && Ready(m) && Step(m, run[|run| - 1]) == Some(s');
      RunsInv(s, run[..|run| - 1], m);
      StepInv(m, run[|run| - 1], s');
    }
  }

  // ----- Coherence -----

  /** The block at which a step writes, if it does. */
  function Target(s: State, a: Action): Option<nat> {
    if a.Change? && a.b < |s.bufs| then Some(s.bufs[a.b].blockno) else None
  }

  lemma ShowsCached(s: State, b: nat, d: Contents)
    requires Inv(s) && b < NBUF && s.bufs[b].valid
    ensures Shows(s, s.bufs[b].blockno, d) <==> s.data[b] == d
  {
    assert BufOk(s, b);
    assert Keyed(s.bufs[b], DISK, s.bufs[b].blockno);
    forall c: nat | c < NBUF && s.bufs[c].valid && Keyed(s.bufs[c], DISK, s.bufs[b].blockno) ensures c == b {
    }
  }

  /** Valid buffers, and the disk under the others, are as before. */
  lemma ShowsSame(s: State, s': State, blockno: nat, d: Contents)
    requires Inv(s) && Inv(s') && |s.disk| == |s'.disk|
    requires forall b: nat :: b < NBUF && s'.bufs[b].valid && Keyed(s'.bufs[b], DISK, blockno) ==>
      if s.bufs[b].valid then Keyed(s.bufs[b], DISK, blockno) && s'.data[b] == s.data[b]
      else blockno < |s.disk| && s'.data[b] == s.disk[blockno]
           && forall c: nat :: c < NBUF && s.bufs[c].valid ==> !Keyed(s.bufs[c], DISK, blockno)
    requires forall b: nat :: b < NBUF && s.bufs[b].valid && Keyed(s.bufs[b], DISK, blockno) ==>
      if s'.bufs[b].valid && Keyed(s'.bufs[b], DISK, blockno) then true
      else blockno < |s'.disk| && s.data[b] == s'.disk[blockno]
           && forall c: nat :: c < NBUF && s'.bufs[c].valid ==> !Keyed(s'.bufs[c], DISK, blockno)
    requires (forall b: nat :: b < NBUF && s.bufs[b].valid ==> !Keyed(s.bufs[b], DISK, blockno)) ==>
      (blockno < |s.disk| ==> s'.disk[blockno] == s.disk[blockno])
    ensures Shows(s', blockno, d) <==> Shows(s, blockno, d)
  {
    if b: nat :| b < NBUF && s.bufs[b].valid && Keyed(s.bufs[b], DISK, blockno) {
      ShowsCached(s, b, d);
      if s'.bufs[b].valid && Keyed(s'.bufs[b], DISK, blockno) {
        ShowsCached(s', b, d);
      }
    } else if b: nat :| b < NBUF && s'.bufs[b].valid && Keyed(s'.bufs[b], DISK, blockno) {
      ShowsCached(s', b, d);
    }
  }

  lemma GetShows(s: State, q: nat, key: Key, r: Option<nat>, bufs': seq<Buf>, s': State, blockno: nat, d: Contents)
    requires Inv(s) && Step(s, Get(q, key, r, bufs')) == Some(s') && Inv(s')
    ensures Shows(s', blockno, d) <==> Shows(s, blockno, d)
  {
    GetParts(s, key, r, bufs');
    assert BufOk(s, r.value);
    if s.holder[r.value].Some? {
      HeldClaimed(s, r.value);
    }
    ShowsSame(s, s', blockno, d);
  }

  /** No step but a change of the block itself alters what is seen of it: not reading,
      writing back, recycling a buffer or moving it on the ring. */
  lemma Transparent(s: State, a: Action, s': State, blockno: nat, d: Contents)
    requires Inv(s) && Step(s, a) == Some(s') && Target(s, a) != Some(blockno)
    ensures Shows(s', blockno, d) <==> Shows(s, blockno, d)
  {
    StepInv(s, a, s');
    if a.Get? {
      GetShows(s, a.q, a.key, a.r, a.bufs', s', blockno, d);
    } else {
      if a.Read? || a.Change? || a.Flag? || a.Bwrite? {
        assert BufOk(s, a.b) && BufOk(s', a.b);
      }
      ShowsSame(s, s', blockno, d);
    }
  }

  /** A change is what is seen from then on. */
  lemma ChangeSeen(s: State, q: nat, b: nat, d: Contents, s': State)
    requires Inv(s) && Step(s, Change(q, b, d)) == Some(s')
    ensures Shows(s', s.bufs[b].blockno, d)
  {
    StepInv(s, Change(q, b, d), s');
    ShowsCached(s', b, d);
  }

  /** What bread returned is a locked buffer of the block asked for, with what is to be
      seen of it; no other process has it. */
  lemma HolderSees(s: State, q: nat, b: nat)
    requires Inv(s) && Using(s, q, b)
    ensures Keyed(s.bufs[b], s.procs[q].held[b].dev, s.procs[q].held[b].blockno) && Shows(s, s.bufs[b].blockno, s.data[b])
    ensures forall p: nat :: p < |s.procs| && b in s.procs[p].held ==> p == q
  {
    assert ProcOk(s, q);
    ShowsCached(s, b, s.data[b]);
    forall p: nat | p < |s.procs| && b in s.procs[p].held ensures p == q {
      assert ProcOk(s, p);
    }
  }

  /** A buffer that is dirty, held or waited for keeps its block. */
  lemma NotRecycled(s: State, a: Action, s': State, b: nat)
    requires Inv(s) && Step(s, a) == Some(s') && b < NBUF
    requires s.bufs[b].dirty || exists q: nat :: q < |s.procs| && ClaimsOf(s.procs[q], b) > 0
    ensures s'.bufs[b].dev == s.bufs[b].dev && s'.bufs[b].blockno == s.bufs[b].blockno
  {
    if a.Get? {
      GetParts(s, a.key, a.r, a.bufs');
      if q: nat :| q < |s.procs| && ClaimsOf(s.procs[q], b) > 0 {
        NoClaims(s.procs, q, b);
      }
    }
  }

  /** Over every run no two buffers carry the same block of a device other than 0, and a
      valid buffer that is neither dirty nor locked equals its disk block; a locked one does
      too as long as its holder has not altered it. */
  lemma EveryRun(s: State, run: seq<Action>, s': State, b: nat, c: nat)
    requires Runs(s, run, s') && b < NBUF && c < NBUF
    ensures |s'.bufs| == |s'.data| == |s'.holder| == |s'.altered| == NBUF
    ensures s'.bufs[b].dev != 0 && Keyed(s'.bufs[c], s'.bufs[b].dev, s'.bufs[b].blockno) ==> b == c
    ensures s'.bufs[b].valid && !s'.bufs[b].dirty && (s'.holder[b].None? || !s'.altered[b]) ==>
      s'.bufs[b].blockno < |s'.disk| && s'.data[b] == s'.disk[s'.bufs[b].blockno]
  {
    RunsInv(s, run, s');
    assert BufOk(s', b);
  }

  // ----- Which buffers are dirty -----

  predicate FlagsAt(run: seq<Action>, j: nat, b: nat) {
    j < |run| && run[j].Flag? && run[j].b == b
  }

  predicate WritesAt(run: seq<Action>, j: nat, b: nat) {
    j < |run| && run[j].Bwrite? && run[j].b == b
  }

  ghost predicate NotWrittenSince(run: seq<Action>, j: nat, b: nat) {
    forall k: nat :: j < k < |run| ==> !WritesAt(run, k, b)
  }

  ghost predicate FlaggedSinceWritten(run: seq<Action>, b: nat) {
    exists j: nat :: FlagsAt(run, j, b) && NotWrittenSince(run, j, b)
  }

  lemma FlaggedNext(run: seq<Action>, b: nat)
    requires run != []
    ensures var n := |run| - 1;
      FlaggedSinceWritten(run, b) <==> FlagsAt(run, n, b) || (FlaggedSinceWritten(run[..n], b) && !WritesAt(run, n, b))
  {
    var n := |run| - 1;
    var before := run[..n];
    forall k: nat | k < n ensures FlagsAt(before, k, b) == FlagsAt(run, k, b) && WritesAt(before, k, b) == WritesAt(run, k, b) {
    }
    if FlagsAt(run, n, b) {
      assert NotWrittenSince(run, n, b);
    }
    if j: nat :| FlagsAt(before, j, b) && NotWrittenSince(before, j, b) && !WritesAt(run, n, b) {
      forall k: nat | j < k < |run| ensures !WritesAt(run, k, b) {
        assert k < n ==> !WritesAt(before, k, b);
      }
      assert FlagsAt(run, j, b) && NotWrittenSince(run, j, b);
    }
    if j: nat :| FlagsAt(run, j, b) && NotWrittenSince(run, j, b) && j < n {
      forall k: nat | j < k < n ensures !WritesAt(before, k, b) {
        assert !WritesAt(run, k, b);
      }
      assert FlagsAt(before, j, b) && NotWrittenSince(before, j, b);
      assert !WritesAt(run, n, b);
    }
  }

  /** Over every run a buffer is dirty exactly when log_write has marked it since it was last
      written to the disk; so it can be recycled again after that. */
  lemma {:induction false} DirtyExactlyWhen(s: State, run: seq<Action>, s': State, b: nat)
    requires Runs(s, run, s') && b < NBUF
    ensures b < |s'.bufs| && (s'.bufs[b].dirty <==> FlaggedSinceWritten(run, b))
    decreases |run|
  {
    RunsInv(s, run, s');
    if run != [] {
      var n := |run| - 1;
      var m :| Runs(s, run[..n], m) && Ready(m) && Step(m, run[n]) == Some(s');
      DirtyExactlyWhen(s, run[..n], m, b);
      FlaggedNext(run, b);
      DirtyStep(m, run[n], s', b);
    }
  }

  lemma DirtyStep(m: State, a: Action, s': State, b: nat)
    requires Ready(m) && Step(m, a) == Some(s') && b < NBUF && Ready(s')
    ensures s'.bufs[b].dirty <==> (a.Flag? && a.b == b) || (m.bufs[b].dirty && !(a.Bwrite? && a.b == b))
  {
    if a.Get? {
      GetParts(m, a.key, a.r, a.bufs');
    }
  }

  // ----- Which buffer is recycled -----

  /** brelse of b by its last user. */
  ghost predicate Frees(m: State, a: Action, b: nat) {
    a.Unref? && a.k < |m.order| && m.order[a.k] == b && b < |m.bufs| && m.bufs[b].refcnt == 1
  }

  /** At which step b was last released by all its users; 0 if that has not happened. */
  ghost function FreedAt(s: State, run: seq<Action>, b: nat): (k: nat)
    ensures k <= |run|
  {
    if run == [] then 0
    else
      var before, a := run[..|run| - 1], run[|run| - 1];
      if exists m :: Runs(s, before, m) && Frees(m, a, b) then |run| else FreedAt(s, before, b)
  }

  /** b was released after c, or both never were and b stands behind c in the array. */
  ghost predicate Later(s: State, run: seq<Action>, b: nat, c: nat) {
    var k, l := FreedAt(s, run, b), FreedAt(s, run, c);
    k > l || (k == 0 == l && b > c)
  }

  ghost predicate ByTime(s: State, run: seq<Action>, order: seq<nat>) {
    forall i, j :: 0 <= i < j < |order| ==> Later(s, run, order[i], order[j])
  }

  lemma {:induction false} OneEnd(s: State, run: seq<Action>, m: State, m': State)
    requires Runs(s, run, m) && Runs(s, run, m')
    ensures m == m'
    decreases |run|
  {
    if run != [] {
      var n := |run| - 1;
      var p :| Runs(s, run[..n], p) && Ready(p) && Step(p, run[n]) == Some(m);
      var p' :| Runs(s, run[..n], p') && Ready(p') && Step(p', run[n]) == Some(m');
      OneEnd(s, run[..n], p, p');
    }
  }

  lemma FreedNext(s: State, run: seq<Action>, m: State, b: nat)
    requires run != [] && Runs(s, run[..|run| - 1], m)
    ensures FreedAt(s, run, b) == if Frees(m, run[|run| - 1], b) then |run| else FreedAt(s, run[..|run| - 1], b)
  {
    var before := run[..|run| - 1];
    forall m' | Runs(s, before, m') ensures m' == m {
      OneEnd(s, before, m, m');
    }
  }

  /** The ring is in the order of the times of release. */
  lemma {:induction false} RingByTime(s: State, run: seq<Action>, s': State)
    requires Runs(s, run, s')
    ensures ByTime(s, run, s'.order)
    decreases |run|
  {
    if run != [] {
      var n := |run| - 1;
      var m :| Runs(s, run[..n], m) && Ready(m) && Step(m, run[n]) == Some(s');
      RingByTime(s, run[..n], m);
      RunsInv(s, run[..n], m);
      forall i, j | 0 <= i < j < |s'.order| ensures Later(s, run, s'.order[i], s'.order[j]) {
        FreedNext(s, run, m, s'.order[i]);
        FreedNext(s, run, m, s'.order[j]);
        LaterNext(s, run, m, s', run[..n], run[n], i, j);
      }
    }
  }

  /** A buffer moved to the front has the latest time; all else keeps its order. */
  lemma LaterNext(s: State, run: seq<Action>, m: State, s': State, before: seq<Action>, a: Action, i: nat, j: nat)
    requires Ready(m) && Step(m, a) == Some(s') && ByTime(s, before, m.order) && |before| < |run|
    requires i < j < |s'.order|
    requires forall b :: b == s'.order[i] || b == s'.order[j] ==>
      FreedAt(s, run, b) == if Frees(m, a, b) then |run| else FreedAt(s, before, b)
    ensures Later(s, run, s'.order[i], s'.order[j])
  {
    if a.Unref? && m.bufs[m.order[a.k]].refcnt == 1 {
      var x := MovedFrom(m.order, a.k, i);
      var y := MovedFrom(m.order, a.k, j);
      assert !Frees(m, a, m.order[y]);
      assert i > 0 ==> Later(s, before, m.order[x], m.order[y]) && !Frees(m, a, m.order[x]);
    } else {
      assert Later(s, before, m.order[i], m.order[j]);
    }
  }

  /** Where the i-th buffer stood before the k-th was moved to the front. */
  lemma MovedFrom(order: seq<nat>, k: nat, i: nat) returns (x: nat)
    requires Full(order) && k < NBUF && i < NBUF
    ensures x == (if i == 0 then k else if i <= k then i - 1 else i) && x < NBUF && ToFront(order, k)[i] == order[x]
    ensures i > 0 ==> order[x] != order[k]
  {
    x := if i == 0 then k else if i <= k then i - 1 else i;
  }

  /** bget recycles the least recently used buffer: of those neither in use nor dirty, the one
      released before all the others; those never used come first, in the array's order. */
  lemma LeastRecentlyUsed(s: State, run: seq<Action>, s': State, q: nat, key: Key, b: nat, bufs': seq<Buf>, c: nat)
    requires Runs(s, run, s') && Ready(s') && Step(s', Get(q, key, Some(b), bufs')).Some?
    requires forall d: nat :: d < 30 ==> s'.bufs[d].dev != key.dev || s'.bufs[d].blockno != key.blockno
    requires c < 30 && c != b && s'.bufs[c].refcnt == 0 && !s'.bufs[c].dirty
    ensures b < 30 && s'.bufs[b].refcnt == 0 && !s'.bufs[b].dirty
    ensures FreedAt(s, run, c) > FreedAt(s, run, b) || (FreedAt(s, run, c) == 0 == FreedAt(s, run, b) && c > b)
  {
    RingByTime(s, run, s');
    var i, k := VictimLast(s'.bufs, s'.order, key, b, bufs', c);
    assert Later(s, run, s'.order[i], s'.order[k]);
  }

  /** Every other buffer that could be recycled stands nearer to head. */
  lemma VictimLast(bufs: seq<Buf>, order: seq<nat>, key: Key, b: nat, bufs': seq<Buf>, c: nat) returns (i: nat, k: nat)
    requires Good(bufs, order) && Got(bufs, order, key.dev, key.blockno, Some(b), bufs')
    requires forall d: nat :: d < 30 ==> bufs[d].dev != key.dev || bufs[d].blockno != key.blockno
    requires c < 30 && c != b && bufs[c].refcnt == 0 && !bufs[c].dirty
    ensures b < 30 && bufs[b].refcnt == 0 && !bufs[b].dirty
    ensures i < k < |order| && order[i] == c && order[k] == b
  {
    assert NoHit(bufs, order, key.dev, key.blockno);
    var last := LastUnused(bufs, order, c);
    k :| VictimAt(bufs, order, k) && b == order[k];
    i := Position(order, c);
  }
}

/** How many frames allocuvm, copyuvm and setupkvm need, and what becomes of the memory when
    there are too few. */
module FrameNeeds {
  import opened PageTables
  import opened FrameCounts
  import opened Mappings

  datatype CopyResult = Copied(child: nat) | NoDirectory | OutOfMemory | NotPresent

  /** Panic: a page was already mapped. */
  datatype AllocResult = Size(n: nat) | Panic

  // ----- The frames that allocuvm takes -----

  /** For pages lo .. a - 1: one each, and one for each page table still missing. */
  function Frames(vm: Vm, d: nat, lo: nat, a: nat): int {
    if a < lo then 0 else a - lo + Wanted(vm, d, lo, a - lo) - Tables(vm, d)
  }

  ghost predicate Suffices(vm: Vm, d: nat, lo: nat, hi: nat) {
    Frames(vm, d, lo, hi) <= |vm.free|
  }

  /** A page is there already, and the frames suffice for the ones before it and one more. */
  ghost predicate StopsAtPage(vm: Vm, d: nat, lo: nat, hi: nat) {
    exists u: nat :: lo <= u < hi && Present(Pte(vm, d, u)) && Frames(vm, d, lo, u) < |vm.free|
  }

  /** The frames do not suffice for page a; nor does one do if it is there already. */
  ghost predicate OutAt(vm: Vm, d: nat, lo: nat, a: nat) {
    && |vm.free| < Frames(vm, d, lo, a + 1) && Unmapped(vm, d, lo, a)
    && (Present(Pte(vm, d, a)) ==> |vm.free| <= Frames(vm, d, lo, a))
  }

  /** allocuvm has done pages lo .. a - 1. */
  ghost predicate GrownPart(vm0: Vm, vm: Vm, d: nat, lo: nat, a: nat) {
    lo <= a && UserGrown(vm0, vm, d, lo, a, 0) && Costs(vm0, vm, d, lo, a - lo, a - lo) && Unmapped(vm0, d, lo, a)
  }

  lemma GrownNone(vm0: Vm, d: nat, lo: nat)
    requires Inv(vm0)
    ensures GrownPart(vm0, vm0, d, lo, lo)
  {
    CostsNothing(vm0, d, lo, 0);
  }

  lemma FramesNext(vm: Vm, d: nat, lo: nat, a: nat)
    requires lo <= a < PAGES
    ensures Frames(vm, d, lo, a + 1) == Frames(vm, d, lo, a) + if Wants(vm, d, lo, a - lo, a / 1024) then 1 else 2
  {
    WantedMore(vm, d, lo, a - lo);
  }

  lemma {:induction false} FramesGrow(vm: Vm, d: nat, lo: nat, a: nat, b: nat)
    requires lo <= a <= b < PAGES
    ensures Frames(vm, d, lo, a) <= Frames(vm, d, lo, b)
    decreases b
  {
    if a < b {
      FramesNext(vm, d, lo, b - 1);
      FramesGrow(vm, d, lo, a, b - 1);
    }
  }

  lemma OutOfFrames(vm0: Vm, vm: Vm, d: nat, lo: nat, a: nat)
    requires GrownPart(vm0, vm, d, lo, a) && vm.free == [] && a < PAGES
    ensures OutAt(vm0, d, lo, a)
  {
    SameRoots(vm0, vm);
    CostsWanted(vm0, vm, d, lo, a - lo, a - lo);
    FramesNext(vm0, d, lo, a);
  }

  lemma PageBelow(a: nat, size: nat)
    ensures a * 4096 < size <==> a < Pages(size)
  {
  }

  /** What allocuvm does with the pages lo .. hi - 1. It panics exactly when it gets to a page
      that is there already; it succeeds exactly when none is and the frames suffice; if they
      do not, nothing is lost. */
  ghost predicate Allocated(vm0: Vm, vm: Vm, d: nat, lo: nat, hi: nat, newsz: nat, r: AllocResult) {
    && (r.Panic? <==> StopsAtPage(vm0, d, lo, hi))
    && (r == Size(newsz) <==> Unmapped(vm0, d, lo, hi) && Suffices(vm0, d, lo, hi))
    && (r == Size(newsz) ==> GrownPart(vm0, vm, d, lo, hi))
    && (r.Size? && r != Size(newsz) ==> r == Size(0) && Cleared(vm0, vm, d, lo, hi, 0))
  }

  lemma AllocEnds(vm0: Vm, vm: Vm, d: nat, lo: nat, a: nat, hi: nat, newsz: nat, r: AllocResult)
    requires lo <= a < hi <= KERNPAGE && newsz > 0
    requires r.Panic? ==> Present(Pte(vm0, d, a)) && Frames(vm0, d, lo, a) < |vm0.free|
    requires r.Size? ==> r == Size(0) && OutAt(vm0, d, lo, a) && Cleared(vm0, vm, d, lo, hi, 0)
    ensures Allocated(vm0, vm, d, lo, hi, newsz, r)
  {
    if r.Panic? {
      assert StopsAtPage(vm0, d, lo, hi);
    } else {
      FramesGrow(vm0, d, lo, a + 1, hi);
      forall u: nat | lo <= u < hi && Present(Pte(vm0, d, u)) ensures |vm0.free| <= Frames(vm0, d, lo, u) {
        if u > a {
          FramesGrow(vm0, d, lo, a + 1, u);
        }
      }
    }
  }

  lemma AllocSucceeds(vm0: Vm, vm: Vm, d: nat, lo: nat, hi: nat, newsz: nat)
    requires GrownPart(vm0, vm, d, lo, hi)
    ensures Allocated(vm0, vm, d, lo, hi, newsz, Size(newsz))
  {
    SameRoots(vm0, vm);
    CostsWanted(vm0, vm, d, lo, hi - lo, hi - lo);
  }

  /** A frame has been taken for page a. */
  ghost predicate GrownHolding(vm0: Vm, vm2: Vm, d: nat, lo: nat, a: nat, f: nat) {
    && lo <= a && UserGrown(vm0, vm2, d, lo, a, f) && f != 0 && Stray(vm2, f) && At(vm2, f) == Filled(0) && f in vm0.free
    && Costs(vm0, vm2, d, lo, a - lo, a - lo + 1) && Unmapped(vm0, d, lo, a)
  }

  lemma FrameHeld(vm0: Vm, vm: Vm, vm2: Vm, d: nat, lo: nat, a: nat)
    requires Inv(vm0) && d in vm0.roots && Inv(vm) && a < KERNPAGE && GrownPart(vm0, vm, d, lo, a) && vm.free != []
    requires vm.free[0] < |vm.mem| && vm2 == Write(Taken(vm), vm.free[0], Filled(0))
    ensures GrownHolding(vm0, vm2, d, lo, a, vm.free[0])
    ensures Mappable(vm2, a, 1, vm.free[0]) && Pte(vm2, d, a) == Pte(vm0, d, a) && Frames(vm0, d, lo, a) < |vm0.free|
  {
    SameRoots(vm0, vm);
    InvFacts(vm0);
    InvFacts(vm);
    var f := vm.free[0];
    FrameTaken(vm0, vm, d, lo, a);
    TakenInv(vm);
    WriteFresh(Taken(vm), f, Filled(0));
    TakenCosts(vm0, vm, vm2, d, lo, a - lo, a - lo);
    CostsWanted(vm0, vm, d, lo, a - lo, a - lo);
  }

  lemma TakenCosts(vm0: Vm, vm: Vm, vm2: Vm, d: nat, v: nat, n: nat, pages: nat)
    requires Costs(vm0, vm, d, v, n, pages) && Popped(vm, vm2, 1) && forall i: nat :: i < ENTRIES ==> Dir(vm2, d, i) == Dir(vm, d, i)
    ensures Costs(vm0, vm2, d, v, n, pages + 1)
  {
    SameTables(vm, vm2, d);
    forall i: nat ensures TableGrew(vm0, vm2, d, v, n, i) {
      assert TableGrew(vm0, vm, d, v, n, i);
    }
    PoppedTwice(vm0, vm, vm2, pages + Tables(vm, d) - Tables(vm0, d), 1);
  }

  lemma PageNext(vm0: Vm, vm2: Vm, vm3: Vm, d: nat, lo: nat, a: nat, f: nat)
    requires Inv(vm0) && d in vm0.roots && a < KERNPAGE && GrownHolding(vm0, vm2, d, lo, a, f) && Pte(vm2, d, a) == Pte(vm0, d, a)
    requires Mapped(vm2, vm3, d, a, 1, f, PTE_W + PTE_U)
    ensures GrownPart(vm0, vm3, d, lo, a + 1)
  {
    SameRoots(vm0, vm2);
    SameRoots(vm2, vm3);
    InvFacts(vm0);
    assert !Present(Pte(vm2, d, a));
    PageGrown(vm0, vm2, vm3, d, lo, a, f);
    CostsJoin(vm0, vm2, vm3, d, lo, a - lo, a - lo + 1, a, 1, 0, a + 1 - lo);
  }

  lemma PageFails(vm0: Vm, vm2: Vm, vm3: Vm, d: nat, lo: nat, a: nat, f: nat)
    requires Inv(vm0) && d in vm0.roots && a < KERNPAGE && GrownHolding(vm0, vm2, d, lo, a, f) && Pte(vm2, d, a) == Pte(vm0, d, a)
    requires MapFailed(vm2, vm3, d, a, 1, f, PTE_W + PTE_U)
    ensures UserGrown(vm0, vm3, d, lo, a, f) && OutAt(vm0, d, lo, a)
  {
    SameRoots(vm0, vm2);
    InvFacts(vm0);
    OneFailed(vm2, vm3, d, a, f, PTE_W + PTE_U);
    RangedNone(vm2, vm3, d, a, f, PTE_W + PTE_U);
    GrownGrew(vm0, vm2, vm3, d, lo, a, f);
    TableMissing(vm0, vm2, d, lo, a);
  }

  /** The frame for page a was the last, and its page table is missing. */
  lemma TableMissing(vm0: Vm, vm2: Vm, d: nat, lo: nat, a: nat)
    requires lo <= a && Costs(vm0, vm2, d, lo, a - lo, a - lo + 1) && Unmapped(vm0, d, lo, a) && Pte(vm2, d, a) == Pte(vm0, d, a)
    requires vm2.free == [] && Table(vm2, d, a / 1024) == 0 && a < PAGES
    ensures OutAt(vm0, d, lo, a)
  {
    CostsWanted(vm0, vm2, d, lo, a - lo, a - lo + 1);
    assert TableGrew(vm0, vm2, d, lo, a - lo, a / 1024);
    FramesNext(vm0, d, lo, a);
  }

  // ----- The frames that copyuvm takes -----

  ghost predicate AllPresent(vm: Vm, d: nat, n: nat) {
    forall u: nat :: u < n ==> Present(Pte(vm, d, u))
  }

  /** There is a page missing, and the frames suffice for the ones before it. */
  ghost predicate StopsAtHole(vm: Vm, d: nat, n: nat, kmap: seq<Kmap>, frames: nat) {
    exists u: nat :: u < n && !Present(Pte(vm, d, u)) && Needed(kmap, u) <= frames
  }

  /** So many free frames are used up just when a page has its frame but not its page table:
      that happens at every 1024th page. */
  ghost predicate LosesOne(kmap: seq<Kmap>, n: nat, frames: nat) {
    var first := 2 + KernelTables(kmap);
    first <= frames && (frames - first) % 1025 == 0 && (frames - first) / 1025 * 1024 < n
  }

  /** A copy of the first n pages, with the kernel's half, and the frames it took. */
  ghost predicate CopyPart(vm0: Vm, vm: Vm, d: nat, c: nat, kmap: seq<Kmap>, n: nat)
    requires GoodKmap(kmap)
  {
    && Copying(vm0, vm, d, c, n, 0) && KernelHalf(vm, c, kmap)
    && KernelHas(vm, c, kmap, |kmap|, n) && Popped(vm0, vm, Needed(kmap, n))
  }

  /** And frame f, to become page n. */
  ghost predicate CopyHolding(vm0: Vm, vm: Vm, d: nat, c: nat, kmap: seq<Kmap>, n: nat, f: nat)
    requires GoodKmap(kmap)
  {
    && Copying(vm0, vm, d, c, n, f) && KernelHalf(vm, c, kmap) && f != 0 && Stray(vm, f)
    && KernelHas(vm, c, kmap, |kmap|, n)
    && Needed(kmap, n) < |vm0.free| && f == vm0.free[Needed(kmap, n)] && Popped(vm0, vm, Needed(kmap, n) + 1)
  }

  /** No frame is left at page n: not for the page, or, lost being its frame, not for its
      page table. */
  ghost predicate CopyStopped(vm0: Vm, vm: Vm, d: nat, c: nat, kmap: seq<Kmap>, n: nat, lost: nat)
    requires GoodKmap(kmap)
  {
    && Copying(vm0, vm, d, c, n, lost) && AllPresent(vm0, d, n)
    && if lost == 0 then |vm0.free| == Needed(kmap, n)
       else n % 1024 == 0 && |vm0.free| == Needed(kmap, n) + 1 && lost == vm0.free[|vm0.free| - 1]
  }

  /** What copyuvm does with n pages. It fails in setupkvm exactly when the frames do not
      suffice for the directory and the kernel's tables; it panics exactly when it gets to a
      page that is not there; it succeeds exactly when all are there and the frames suffice.
      If they run out on the way one frame is lost, the last free one, or none. */
  ghost predicate CopyOutcome(vm0: Vm, vm: Vm, d: nat, n: nat, kmap: seq<Kmap>, r: CopyResult, lost: nat)
    requires GoodKmap(kmap)
  {
    var frames := |vm0.free|;
    && (r.NoDirectory? <==> frames < Needed(kmap, 0))
    && (r.NotPresent? <==> StopsAtHole(vm0, d, n, kmap, frames))
    && (r.Copied? <==> AllPresent(vm0, d, n) && Needed(kmap, n) <= frames)
    && (r.NoDirectory? ==> Exhausted(vm0, vm))
    && (r.Copied? ==> CopyPart(vm0, vm, d, r.child, kmap, n))
    && (r.OutOfMemory? ==> Uncopied(vm0, vm, lost))
    && (r.OutOfMemory? ==> (lost != 0 <==> LosesOne(kmap, n, frames)))
    && (r.OutOfMemory? && lost != 0 ==> lost == vm0.free[frames - 1])
  }

  lemma NeededFromZero(kmap: seq<Kmap>)
    ensures Needed(kmap, 0) == 1 + KernelTables(kmap)
  {
    Rounded(0);
  }

  /** Too few frames for the first m pages. */
  lemma NoRoom(vm0: Vm, d: nat, n: nat, kmap: seq<Kmap>, m: nat)
    requires m <= n && |vm0.free| < Needed(kmap, m) && AllPresent(vm0, d, m)
    ensures !StopsAtHole(vm0, d, n, kmap, |vm0.free|) && |vm0.free| < Needed(kmap, n)
  {
    NeededGrows(kmap, m, n);
    forall u: nat | u < n && !Present(Pte(vm0, d, u)) ensures |vm0.free| < Needed(kmap, u) {
      NeededGrows(kmap, m, u);
    }
  }

  lemma CopyNotBegun(vm0: Vm, vm: Vm, d: nat, n: nat, kmap: seq<Kmap>)
    requires GoodKmap(kmap) && |vm0.free| < 1 + KernelTables(kmap) && Exhausted(vm0, vm)
    ensures CopyOutcome(vm0, vm, d, n, kmap, NoDirectory, 0)
  {
    SameRoots(vm0, vm);
    NeededFromZero(kmap);
    NoRoom(vm0, d, n, kmap, 0);
  }

  lemma CopyPanics(vm0: Vm, vm: Vm, d: nat, u: nat, n: nat, kmap: seq<Kmap>)
    requires GoodKmap(kmap) && u < n && !Present(Pte(vm0, d, u)) && Needed(kmap, u) <= |vm0.free|
    ensures CopyOutcome(vm0, vm, d, n, kmap, NotPresent, 0)
  {
    NeededGrows(kmap, 0, u);
    assert StopsAtHole(vm0, d, n, kmap, |vm0.free|);
  }

  lemma CopyComplete(vm0: Vm, vm: Vm, d: nat, c: nat, kmap: seq<Kmap>, n: nat)
    requires GoodKmap(kmap) && d in vm0.roots && CopyPart(vm0, vm, d, c, kmap, n)
    ensures CopyOutcome(vm0, vm, d, n, kmap, Copied(c), 0)
  {
    CopyPartFacts(vm0, vm, d, c, kmap, n);
  }

  lemma CopyDropped(vm0: Vm, vm: Vm, d: nat, c: nat, kmap: seq<Kmap>, n: nat, lost: nat)
    requires GoodKmap(kmap) && CopyStopped(vm0, vm, d, c, kmap, n, lost)
    ensures c in vm.roots
  {
  }

  lemma CopyPartFacts(vm0: Vm, vm: Vm, d: nat, c: nat, kmap: seq<Kmap>, n: nat)
    requires GoodKmap(kmap) && d in vm0.roots && CopyPart(vm0, vm, d, c, kmap, n)
    ensures AllPresent(vm0, d, n) && Needed(kmap, n) <= |vm0.free| && Needed(kmap, 0) <= |vm0.free|
    ensures Pte(vm, d, n) == Pte(vm0, d, n) && d in vm.roots
  {
    NeededGrows(kmap, 0, n);
    forall u: nat | u < n ensures Present(Pte(vm0, d, u)) {
      assert PageCopied(vm0, vm, d, c, u);
    }
  }

  lemma CopyStart(vm0: Vm, vm: Vm, d: nat, c: nat, kmap: seq<Kmap>)
    requires GoodKmap(kmap) && KernelPart(vm0, vm, c, kmap, |kmap|)
    ensures CopyPart(vm0, vm, d, c, kmap, 0)
  {
    forall u: nat | u < KERNPAGE ensures Pte(vm, c, u) == 0 {
      KernelEntryBelow(kmap, |kmap|, u);
    }
    TablesCopied(vm, c, kmap, 0);
    NeededFromZero(kmap);
  }

  lemma HoldingTaken(vm0: Vm, vm: Vm, d: nat, c: nat, kmap: seq<Kmap>, n: nat, p: Page)
    requires Inv(vm0) && n < KERNPAGE && GoodKmap(kmap) && CopyPart(vm0, vm, d, c, kmap, n) && vm.free != []
    ensures vm.free[0] < |vm.mem|
    ensures CopyHolding(vm0, Write(Taken(vm), vm.free[0], p), d, c, kmap, n, vm.free[0])
  {
    InvFacts(vm0);
    var f := vm.free[0];
    CopyTaken(vm0, vm, d, c, n, p);
    TakenInv(vm);
    WriteFresh(Taken(vm), f, p);
    var vm2 := Write(Taken(vm), f, p);
    KernelHalfKept(vm, vm2, c, kmap);
    KernelHasSame(vm, vm2, c, kmap, n);
    PoppedTwice(vm0, vm, vm2, Needed(kmap, n), 1);
  }

  lemma KernelHasSame(vm: Vm, vm2: Vm, c: nat, kmap: seq<Kmap>, n: nat)
    requires KernelHas(vm, c, kmap, |kmap|, n) && forall i: nat :: i < ENTRIES ==> Dir(vm2, c, i) == Dir(vm, c, i)
    ensures KernelHas(vm2, c, kmap, |kmap|, n)
  {
    SameTables(vm, vm2, c);
    forall i: nat ensures KernelTable(vm2, c, kmap, |kmap|, n, i) {
      assert KernelTable(vm, c, kmap, |kmap|, n, i);
    }
  }

  lemma PageParts(vm0: Vm, d: nat, u: nat)
    requires Inv(vm0) && d in vm0.roots && u < KERNPAGE && Present(Pte(vm0, d, u))
    ensures Plain(vm0, Frame(Pte(vm0, d, u))) && Present(Flags(Pte(vm0, d, u))) && Flags(Pte(vm0, d, u)) < PGSIZE
  {
    InvFacts(vm0);
    PlainUser(vm0, d, u);
    WordParts(Pte(vm0, d, u) / 4096, Flags(Pte(vm0, d, u)));
  }

  lemma CopyNoFrame(vm0: Vm, vm: Vm, d: nat, c: nat, kmap: seq<Kmap>, n: nat)
    requires GoodKmap(kmap) && CopyPart(vm0, vm, d, c, kmap, n)
    ensures vm.free == [] ==> CopyStopped(vm0, vm, d, c, kmap, n, 0)
  {
    CopiedPresent(vm0, vm, d, c, n, 0);
  }

  lemma CopiedPresent(vm0: Vm, vm: Vm, d: nat, c: nat, n: nat, lost: nat)
    requires Copying(vm0, vm, d, c, n, lost)
    ensures AllPresent(vm0, d, n)
  {
    forall u: nat | u < n ensures Present(Pte(vm0, d, u)) {
      assert PageCopied(vm0, vm, d, c, u);
    }
  }

  lemma CopyReady(vm0: Vm, vm: Vm, d: nat, c: nat, kmap: seq<Kmap>, n: nat, f: nat)
    requires GoodKmap(kmap) && n < KERNPAGE && CopyHolding(vm0, vm, d, c, kmap, n, f)
    ensures Mappable(vm, n, 1, f) && Unmapped(vm, c, n, n + 1) && c in vm.roots
  {
  }

  lemma CopyNext(vm0: Vm, vm2: Vm, vm3: Vm, d: nat, c: nat, kmap: seq<Kmap>, n: nat, f: nat, perm: nat)
    requires Inv(vm0) && d in vm0.roots && GoodKmap(kmap) && n < KERNPAGE && CopyHolding(vm0, vm2, d, c, kmap, n, f)
    requires At(vm2, f) == At(vm0, Frame(Pte(vm0, d, n)))
    requires Present(Pte(vm0, d, n)) && perm == Flags(Pte(vm0, d, n)) < PGSIZE && Present(perm)
    requires Mapped(vm2, vm3, c, n, 1, f, perm)
    ensures CopyPart(vm0, vm3, d, c, kmap, n + 1)
  {
    SameRoots(vm2, vm3);
    InvFacts(vm0);
    CopyMapped(vm0, vm2, vm3, d, c, n, f, perm);
    RangedHalf(vm2, vm3, c, n, 1, f, perm, kmap);
    CopyCosts(vm0, vm2, vm3, c, kmap, n);
  }

  lemma RangedHalf(vm2: Vm, vm3: Vm, c: nat, n: nat, k: nat, f: nat, perm: nat, kmap: seq<Kmap>)
    requires perm < PGSIZE && GoodKmap(kmap) && c in vm2.roots && n + k <= KERNPAGE
    requires Ranged(vm2, vm3, c, n, k, f, perm) && KernelHalf(vm2, c, kmap)
    ensures KernelHalf(vm3, c, kmap)
  {
    SameRoots(vm2, vm3);
    forall u: nat | u >= KERNPAGE ensures Pte(vm3, c, u) == Pte(vm2, c, u) {
      assert PteRanged(vm2, vm3, c, n, k, f, perm, c, u);
    }
    KernelHalfKept(vm2, vm3, c, kmap);
  }

  lemma CopyCosts(vm0: Vm, vm2: Vm, vm3: Vm, c: nat, kmap: seq<Kmap>, n: nat)
    requires GoodKmap(kmap) && n < KERNPAGE && Costs(vm2, vm3, c, n, 1, 0)
    requires KernelHas(vm2, c, kmap, |kmap|, n) && Popped(vm0, vm2, Needed(kmap, n) + 1)
    ensures KernelHas(vm3, c, kmap, |kmap|, n + 1) && Popped(vm0, vm3, Needed(kmap, n + 1))
  {
    UserHasNext(vm2, vm3, c, kmap, n);
    TablesCopied(vm2, c, kmap, n);
    TablesCopied(vm3, c, kmap, n + 1);
    PoppedTwice(vm0, vm2, vm3, Needed(kmap, n) + 1, Tables(vm3, c) - Tables(vm2, c));
  }

  lemma CopyFails(vm0: Vm, vm2: Vm, vm3: Vm, d: nat, c: nat, kmap: seq<Kmap>, n: nat, f: nat, perm: nat)
    requires Inv(vm0) && d in vm0.roots && GoodKmap(kmap) && n < KERNPAGE && CopyHolding(vm0, vm2, d, c, kmap, n, f) && perm < PGSIZE
    requires MapFailed(vm2, vm3, c, n, 1, f, perm)
    ensures CopyStopped(vm0, vm3, d, c, kmap, n, f)
  {
    InvFacts(vm0);
    OneFailed(vm2, vm3, c, n, f, perm);
    CopyStuck(vm0, vm2, vm3, d, c, n, f, perm);
    TableOfNext(vm2, c, kmap, n);
    CopiedPresent(vm0, vm2, d, c, n, f);
  }

  /** What it means for the whole copy that it stops at page m. */
  lemma CopyEnds(vm0: Vm, vm: Vm, vm': Vm, d: nat, c: nat, kmap: seq<Kmap>, m: nat, lost: nat, n: nat)
    requires Inv(vm0) && GoodKmap(kmap) && m < n && CopyStopped(vm0, vm, d, c, kmap, m, lost) && Present(Pte(vm0, d, m))
    requires Gone(vm, vm', c)
    ensures CopyOutcome(vm0, vm', d, n, kmap, OutOfMemory, lost)
  {
    InvFacts(vm0);
    NeededNext(kmap, m);
    NeededGrows(kmap, 0, m);
    NoRoom(vm0, d, n, kmap, m + 1);
    LosesAt(kmap, m, n, |vm0.free| - Needed(kmap, m));
    CopyGone(vm0, vm, vm', d, c, m, lost);
  }

  /** Needed(m) and one more: between two pages, unless m is the first of a page table. */
  lemma LosesAt(kmap: seq<Kmap>, m: nat, n: nat, more: nat)
    requires m < n && (more == 0 || (more == 1 && m % 1024 == 0))
    ensures LosesOne(kmap, n, Needed(kmap, m) + more) <==> more == 1
  {
    var q, r := m / 1024, m % 1024;
    Rounded(m);
    assert m == 1024 * q + r;
    var x := Needed(kmap, m) + more - (2 + KernelTables(kmap));
    if more == 1 {
      assert x == 1025 * q;
    } else if r == 0 {
      assert x == 1025 * q - 1;
      NotMultiple(q, x, -1);
    } else {
      assert x == 1025 * q + r;
      NotMultiple(q, x, r);
    }
  }

  lemma NotMultiple(q: nat, x: int, r: int)
    requires x == 1025 * q + r && -1 <= r <= ENTRIES && r != 0
    ensures x % 1025 != 0
  {
  }

  /** The directory d has been taken and the first k ranges of kmap mapped in it. */
  ghost predicate KernelPart(vm0: Vm, vm: Vm, d: nat, kmap: seq<Kmap>, k: nat)
    requires GoodKmap(kmap) && k <= |kmap|
  {
    && Beside(vm0, vm, d) && d != 0
    && (forall g: nat :: Stray(vm, g) <==> Stray(vm0, g))
    && (forall u: nat :: Pte(vm, d, u) == KernelEntry(kmap, k, u))
    && KernelHas(vm, d, kmap, k, 0) && Popped(vm0, vm, 1 + Tables(vm, d))
  }

  lemma KernelStart(vm0: Vm, kmap: seq<Kmap>)
    requires Inv(vm0) && vm0.free != [] && GoodKmap(kmap)
    ensures vm0.free[0] < |vm0.mem|
    ensures var d := vm0.free[0]; var vm1 := Write(Taken(vm0), d, Filled(0));
      KernelPart(vm0, vm1.(roots := vm1.roots + {d}), d, kmap, 0)
  {
    InvFacts(vm0);
    var d := vm0.free[0];
    RootTaken(vm0);
    var vm1 := Write(Taken(vm0), d, Filled(0));
    var vm := vm1.(roots := vm1.roots + {d});
    forall i: nat | i < ENTRIES ensures Table(vm, d, i) == 0 {
      assert Holds(vm, Tab(d, i)) == 0;
    }
    NoTables(vm, d);
    forall i: nat ensures KernelTable(vm, d, kmap, 0, 0, i) {
      assert i < ENTRIES ==> Table(vm, d, i) == 0;
    }
  }

  lemma {:induction false} NoTablesBelow(vm: Vm, d: nat, k: nat)
    requires k <= ENTRIES && forall i: nat :: i < ENTRIES ==> Table(vm, d, i) == 0
    ensures WantedBelow(vm, d, 0, 0, k) == 0
  {
    if k > 0 {
      NoTablesBelow(vm, d, k - 1);
    }
  }

  lemma NoTables(vm: Vm, d: nat)
    requires forall i: nat :: i < ENTRIES ==> Table(vm, d, i) == 0
    ensures Tables(vm, d) == 0
  {
    NoTablesBelow(vm, d, ENTRIES);
  }

  lemma KernelReady(vm0: Vm, vm: Vm, d: nat, kmap: seq<Kmap>, k: nat)
    requires GoodKmap(kmap) && k < |kmap| && KernelPart(vm0, vm, d, kmap, k)
    ensures var e := kmap[k]; KernelRange(e) && Mappable(vm, e.virt, e.n, e.phys) && Unmapped(vm, d, e.virt, e.virt + e.n)
    ensures d in vm.roots
  {
    var e := kmap[k];
    assert KernelRange(e);
    forall u: nat | e.virt <= u ensures Pte(vm, d, u) == 0 {
      KernelEntryBelow(kmap, k, u);
    }
  }

  lemma KernelNext(vm0: Vm, vm: Vm, vm1: Vm, d: nat, kmap: seq<Kmap>, k: nat)
    requires GoodKmap(kmap) && k < |kmap| && KernelPart(vm0, vm, d, kmap, k) && kmap[k].perm < PGSIZE
    requires Mapped(vm, vm1, d, kmap[k].virt, kmap[k].n, kmap[k].phys, kmap[k].perm)
    ensures KernelPart(vm0, vm1, d, kmap, k + 1)
  {
    SameRoots(vm, vm1);
    KernelRanged(vm0, vm, vm1, d, kmap, k, kmap[k].n);
    KernelPtes(vm, vm1, d, kmap, k);
    KernelHasNext(vm, vm1, d, kmap, k);
    PoppedTwice(vm0, vm, vm1, 1 + Tables(vm, d), Tables(vm1, d) - Tables(vm, d));
  }

  lemma KernelComplete(vm0: Vm, vm: Vm, d: nat, kmap: seq<Kmap>)
    requires GoodKmap(kmap) && KernelPart(vm0, vm, d, kmap, |kmap|)
    ensures 1 + KernelTables(kmap) <= |vm0.free|
  {
    TablesCopied(vm, d, kmap, 0);
  }

  lemma KernelPtes(vm: Vm, vm1: Vm, d: nat, kmap: seq<Kmap>, k: nat)
    requires GoodKmap(kmap) && k < |kmap| && kmap[k].perm < PGSIZE && d in vm.roots
    requires forall u: nat :: Pte(vm, d, u) == KernelEntry(kmap, k, u)
    requires Ranged(vm, vm1, d, kmap[k].virt, kmap[k].n, kmap[k].phys, kmap[k].perm)
    ensures forall u: nat :: Pte(vm1, d, u) == KernelEntry(kmap, k + 1, u)
  {
    SameRoots(vm, vm1);
    var e := kmap[k];
    forall u: nat ensures Pte(vm1, d, u) == KernelEntry(kmap, k + 1, u) {
      assert PteRanged(vm, vm1, d, e.virt, e.n, e.phys, e.perm, d, u);
    }
  }

  /** Of the kernel's range k some pages have been mapped. */
  lemma KernelRanged(vm0: Vm, vm: Vm, vm1: Vm, d: nat, kmap: seq<Kmap>, k: nat, n: nat)
    requires GoodKmap(kmap) && k < |kmap| && KernelPart(vm0, vm, d, kmap, k) && kmap[k].perm < PGSIZE
    requires Ranged(vm, vm1, d, kmap[k].virt, n, kmap[k].phys, kmap[k].perm)
    ensures Beside(vm0, vm1, d) && forall g: nat :: Stray(vm1, g) <==> Stray(vm0, g)
  {
    SameRoots(vm, vm1);
    var e := kmap[k];
    assert KernelRange(e);
    BesideRanged(vm0, vm, vm1, d, e.virt, n, e.phys, e.perm);
    forall g: nat ensures Stray(vm1, g) <==> Stray(vm0, g) {
      assert StrayRanged(vm, vm1, e.virt, n, e.phys, g);
    }
  }

  lemma KernelFails(vm0: Vm, vm: Vm, vm1: Vm, d: nat, kmap: seq<Kmap>, k: nat)
    requires Inv(vm0) && GoodKmap(kmap) && k < |kmap| && KernelPart(vm0, vm, d, kmap, k) && kmap[k].perm < PGSIZE
    requires MapFailed(vm, vm1, d, kmap[k].virt, kmap[k].n, kmap[k].phys, kmap[k].perm)
    ensures Exhausted(vm0, Dropped(vm1, d)) && |vm0.free| < 1 + KernelTables(kmap) && Inv(Dropped(vm1, d))
  {
    InvFacts(vm0);
    var e := kmap[k];
    var n: nat :| n < e.n && Ranged(vm, vm1, d, e.virt, n, e.phys, e.perm);
    KernelRanged(vm0, vm, vm1, d, kmap, k, n);
    BesideDropped(vm0, vm1, d);
    KernelWanted(vm, d, kmap, k, ENTRIES);
  }

  /** Nothing in use has changed, but every frame that was free is lost. */
  ghost predicate Exhausted(vm0: Vm, vm: Vm) {
    && Inv(vm) && SameShape(vm0, vm) && Kept(vm0, vm)
    && (forall l: Loc :: Holds(vm, l) == Holds(vm0, l))
    && (forall d', u: nat :: d' in vm0.roots ==> Pte(vm, d', u) == Pte(vm0, d', u))
    && vm.free == [] && forall g: nat :: Stray(vm, g) <==> Stray(vm0, g) || g in vm0.free
  }

  lemma NothingLeft(vm0: Vm)
    requires Inv(vm0)
    ensures vm0.free == [] ==> Exhausted(vm0, vm0)
  {
    InvFacts(vm0);
  }

  lemma BesideDropped(vm0: Vm, vm: Vm, d: nat)
    requires Inv(vm0) && Beside(vm0, vm, d) && vm.free == []
    ensures Exhausted(vm0, Dropped(vm, d))
  {
    InvFacts(vm0);
    DroppedInv(vm, d);
    var vm' := Dropped(vm, d);
    forall l: Loc ensures Holds(vm', l) == Holds(vm0, l) {
    }
    forall g: nat ensures Stray(vm', g) <==> Stray(vm0, g) || g in vm0.free {
      SameUnheld(vm0, vm', g);
      FreeUnheld(vm0, g);
    }
  }

  lemma FreeUnheld(vm: Vm, g: nat)
    requires Inv(vm)
    ensures g in vm.free ==> Managed(vm, g) && Unheld(vm, g)
  {
    InvFacts(vm);
    if g in vm.free {
      forall l ensures Holds(vm, l) != g {
      }
    }
  }
}

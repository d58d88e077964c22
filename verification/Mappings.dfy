/** What the page-table code of vm.c does, as a relation between the memory before and after.
    Sizes are in bytes, virtual addresses in pages, physical addresses in frames. */
module Mappings {
  import opened PageTables
  import opened FrameCounts

  const PTE_W: nat := 2
  const PTE_U: nat := 4

  // ----- What the operations do -----

  predicate SameRoot(vm: Vm, vm': Vm, d: nat) {
    d in vm'.roots <==> d in vm.roots
  }

  ghost predicate SameShape(vm: Vm, vm': Vm) {
    vm'.start == vm.start && |vm'.mem| == |vm.mem| && forall d: nat :: SameRoot(vm, vm', d)
  }

  lemma SameRoots(vm: Vm, vm': Vm)
    requires SameShape(vm, vm')
    ensures vm'.roots == vm.roots
  {
    forall d: nat ensures d in vm'.roots <==> d in vm.roots {
      assert SameRoot(vm, vm', d);
    }
  }

  /** Frames that hold bytes rather than entries stay so, with the same contents. */
  ghost predicate Kept(vm: Vm, vm': Vm) {
    forall g: nat :: Plain(vm, g) ==> Plain(vm', g) && At(vm', g) == At(vm, g)
  }

  /** Page tables have been added for directory d, and nothing else has changed. */
  ghost predicate Grew(vm: Vm, vm': Vm, d: nat) {
    && Inv(vm') && SameShape(vm, vm') && Kept(vm, vm')
    && (forall d', u: nat :: d' in vm.roots ==> Pte(vm', d', u) == Pte(vm, d', u))
    && (forall l: Loc :: !(l.Tab? && l.d == d) || Holds(vm, l) != 0 ==> Holds(vm', l) == Holds(vm, l))
    && forall g: nat :: Stray(vm', g) <==> Stray(vm, g)
  }

  /** A frame that is neither free nor held may be written. */
  lemma WriteFresh(vm: Vm, f: nat, p: Page)
    requires Inv(vm) && Managed(vm, f) && f !in vm.free && Unheld(vm, f)
    ensures var vm' := Write(vm, f, p);
      && Inv(vm') && SameMap(vm, vm') && (forall l :: Holds(vm', l) == Holds(vm, l))
      && forall g: nat :: Stray(vm', g) <==> Stray(vm, g)
  {
    InvFacts(vm);
    var vm' := Write(vm, f, p);
    WriteOther(vm, f, p);
    SameHolds(vm, vm');
    forall g: nat ensures Unheld(vm', g) <==> Unheld(vm, g) {
      SameUnheld(vm, vm', g);
    }
  }

  /** kalloc, memset and the assignment to the directory entry in walkpgdir. */
  lemma NewTable(vm: Vm, d: nat, v: nat, w: nat)
    requires Inv(vm) && d in vm.roots && v < PAGES && Table(vm, d, v / 1024) == 0 && vm.free != []
    requires Present(w) && Frame(w) == vm.free[0]
    ensures d < |vm.mem| && vm.free[0] < |vm.mem|
    ensures var vm' := TableSet(Write(Taken(vm), vm.free[0], Filled(0)), d, v / 1024, w);
      Grew(vm, vm', d) && Table(vm', d, v / 1024) == vm.free[0] && Costs(vm, vm', d, v, 1, 0)
  {
    InvFacts(vm);
    var i := v / 1024;
    assert Holds(vm, Root(d)) == d;
    var f, vm1 := vm.free[0], Taken(vm);
    TakenInv(vm);
    var vm2 := Write(vm1, f, Filled(0));
    WriteFresh(vm1, f, Filled(0));
    assert Dir(vm2, d, i) == Dir(vm, d, i);
    TableAdded(vm2, d, i, w);
    NewTableCosts(vm, vm2, d, v, w);
  }

  lemma NewTableCosts(vm: Vm, vm2: Vm, d: nat, v: nat, w: nat)
    requires Inv(vm2) && d in vm.roots && d in vm2.roots && v < PAGES && Table(vm, d, v / 1024) == 0
    requires vm.free != [] && vm2.free == vm.free[1..] && forall j: nat :: Dir(vm2, d, j) == Dir(vm, d, j)
    requires d < |vm2.mem| && Present(w) && Managed(vm2, Frame(w)) && Unheld(vm2, Frame(w)) && vm2.mem[Frame(w)] == Filled(0)
    ensures Costs(vm, TableSet(vm2, d, v / 1024, w), d, v, 1, 0)
  {
    InvFacts(vm2);
    var i := v / 1024;
    assert Table(vm2, d, i) == 0 by {
      assert Dir(vm2, d, i) == Dir(vm, d, i);
    }
    TableAddedMap(vm2, d, i, w);
    var vm' := TableSet(vm2, d, i, w);
    forall j: nat | j < ENTRIES ensures Table(vm', d, j) == if j == i then Frame(w) else Table(vm, d, j) {
      assert Dir(vm', d, j) == if j == i then w else Dir(vm2, d, j);
    }
    forall j: nat ensures TableGrew(vm, vm', d, v, 1, j) {
    }
    WantedNext(vm, 0, 0, vm', 0, 0, d, ENTRIES, i);
  }

  /** Frame g goes to a user page when n pages from v on are mapped to frames from pa on. */
  predicate ToUser(v: nat, n: nat, pa: nat, g: nat) {
    pa <= g < pa + n && v + (g - pa) < KERNPAGE
  }

  ghost predicate PteRanged(vm: Vm, vm': Vm, d: nat, v: nat, n: nat, pa: nat, perm: nat, d': nat, u: nat)
    requires perm < PGSIZE
  {
    d' in vm.roots ==> Pte(vm', d', u) == if d' == d && v <= u < v + n then Entry(pa + u - v, perm) else Pte(vm, d', u)
  }

  ghost predicate HolderRanged(vm: Vm, vm': Vm, d: nat, v: nat, n: nat, pa: nat, l: Loc) {
    !(l.Tab? && l.d == d) || Holds(vm, l) != 0 ==>
      Holds(vm', l) == if InRange(l, d, v, v + n) && l.v < KERNPAGE then pa + l.v - v else Holds(vm, l)
  }

  ghost predicate StrayRanged(vm: Vm, vm': Vm, v: nat, n: nat, pa: nat, g: nat) {
    Stray(vm', g) <==> Stray(vm, g) && !ToUser(v, n, pa, g)
  }

  /** Pages v .. v + n - 1 of directory d have been mapped to frames pa .. pa + n - 1; page
      tables may have been added for it. Frames mapped to user pages are now held. */
  ghost predicate Ranged(vm: Vm, vm': Vm, d: nat, v: nat, n: nat, pa: nat, perm: nat)
    requires perm < PGSIZE
  {
    && Inv(vm') && SameShape(vm, vm') && Kept(vm, vm')
    && (forall d', u: nat :: PteRanged(vm, vm', d, v, n, pa, perm, d', u))
    && (forall l: Loc :: HolderRanged(vm, vm', d, v, n, pa, l))
    && forall g: nat :: StrayRanged(vm, vm', v, n, pa, g)
  }

  lemma RangedFacts(vm: Vm, vm': Vm, d: nat, v: nat, n: nat, pa: nat, perm: nat)
    requires perm < PGSIZE && Ranged(vm, vm', d, v, n, pa, perm)
    ensures forall d', u: nat :: d' in vm.roots ==>
      Pte(vm', d', u) == if d' == d && v <= u < v + n then Entry(pa + u - v, perm) else Pte(vm, d', u)
    ensures forall l: Loc :: !(l.Tab? && l.d == d) || Holds(vm, l) != 0 ==>
      Holds(vm', l) == if InRange(l, d, v, v + n) && l.v < KERNPAGE then pa + l.v - v else Holds(vm, l)
    ensures forall g: nat :: Stray(vm', g) <==> Stray(vm, g) && !ToUser(v, n, pa, g)
  {
    SameRoots(vm, vm');
    forall d', u: nat | d' in vm.roots
      ensures Pte(vm', d', u) == if d' == d && v <= u < v + n then Entry(pa + u - v, perm) else Pte(vm, d', u)
    {
      assert PteRanged(vm, vm', d, v, n, pa, perm, d', u);
    }
    forall l: Loc | !(l.Tab? && l.d == d) || Holds(vm, l) != 0
      ensures Holds(vm', l) == if InRange(l, d, v, v + n) && l.v < KERNPAGE then pa + l.v - v else Holds(vm, l)
    {
      assert HolderRanged(vm, vm', d, v, n, pa, l);
    }
    forall g: nat ensures Stray(vm', g) <==> Stray(vm, g) && !ToUser(v, n, pa, g) {
      assert StrayRanged(vm, vm', v, n, pa, g);
    }
  }

  ghost predicate FrameReady(vm: Vm, v: nat, n: nat, pa: nat, g: nat) {
    ToUser(v, n, pa, g) ==> Stray(vm, g)
  }

  /** What mappages may be asked to map: user pages need frames of their own. */
  ghost predicate Mappable(vm: Vm, v: nat, n: nat, pa: nat) {
    0 < n && v + n <= PAGES && forall g: nat :: FrameReady(vm, v, n, pa, g)
  }

  /** One turn of mappages' loop: the table found or made, then the entry set. */
  lemma EntryAdded(vm: Vm, vm1: Vm, d: nat, v: nat, pa: nat, perm: nat)
    requires Inv(vm) && d in vm.roots && Grew(vm, vm1, d) && v < PAGES && perm < PGSIZE
    requires 0 < Table(vm1, d, v / 1024) < |vm1.mem| && !Present(Pte(vm1, d, v))
    requires v < KERNPAGE ==> Stray(vm, pa)
    ensures Ranged(vm, EntrySet(vm1, d, v, Entry(pa, perm)), d, v, 1, pa, perm)
  {
    SameRoots(vm, vm1);
    InvFacts(vm);
    var w, t := Entry(pa, perm), Table(vm1, d, v / 1024);
    assert v < KERNPAGE ==> Stray(vm1, pa);
    assert Holds(vm1, Tab(d, v / 1024)) == t;
    EntrySetMap(vm1, d, v, w);
    PageMapped(vm1, d, v, w);
    var vm2 := EntrySet(vm1, d, v, w);
    forall g: nat | Plain(vm1, g) ensures Plain(vm2, g) && At(vm2, g) == At(vm1, g) {
      assert Holds(vm1, Tab(d, v / 1024)) != g;
    }
  }

  lemma RangedNext(vm: Vm, vm1: Vm, vm2: Vm, d: nat, v: nat, n: nat, pa: nat, perm: nat)
    requires perm < PGSIZE
    requires Ranged(vm, vm1, d, v, n, pa, perm) && Ranged(vm1, vm2, d, v + n, 1, pa + n, perm)
    ensures Ranged(vm, vm2, d, v, n + 1, pa, perm)
  {
    SameRoots(vm, vm1);
    SameRoots(vm1, vm2);
    var m := n + 1;
    forall d', u: nat ensures PteRanged(vm, vm2, d, v, m, pa, perm, d', u) {
      assert PteRanged(vm, vm1, d, v, n, pa, perm, d', u) && PteRanged(vm1, vm2, d, v + n, 1, pa + n, perm, d', u);
    }
    forall l: Loc ensures HolderRanged(vm, vm2, d, v, m, pa, l) {
      assert HolderRanged(vm, vm1, d, v, n, pa, l) && HolderRanged(vm1, vm2, d, v + n, 1, pa + n, l);
    }
    forall g: nat ensures StrayRanged(vm, vm2, v, m, pa, g) {
      assert StrayRanged(vm, vm1, v, n, pa, g) && StrayRanged(vm1, vm2, v + n, 1, pa + n, g);
    }
  }

  // ----- Shrinking -----

  /** PGROUNDUP, in pages. */
  function Pages(size: nat): nat {
    (size + 4095) / 4096
  }

  predicate InRange(l: Loc, d: nat, lo: nat, hi: nat) {
    l.User? && l.d == d && lo <= l.v < hi
  }

  /** The user pages lo .. hi - 1 of directory d have been unmapped and their frames freed. */
  ghost predicate Shrunk(vm: Vm, vm': Vm, d: nat, lo: nat, hi: nat) {
    && Inv(vm') && SameShape(vm, vm')
    && (forall d', i: nat :: d' in vm.roots ==> Dir(vm', d', i) == Dir(vm, d', i))
    && (forall d', u: nat :: d' in vm.roots && !(d' == d && lo <= u < hi) ==> Pte(vm', d', u) == Pte(vm, d', u))
    && (forall u: nat :: lo <= u < hi ==> Pte(vm', d, u) == if Present(Pte(vm, d, u)) then 0 else Pte(vm, d, u))
    && (forall l :: Holds(vm', l) == if InRange(l, d, lo, hi) then 0 else Holds(vm, l))
    && (forall g: nat :: Stray(vm', g) <==> Stray(vm, g))
    && (forall g: nat :: g in vm.free ==> g in vm'.free)
    && forall g: nat :: Plain(vm, g) && g !in vm'.free ==> Plain(vm', g) && At(vm', g) == At(vm, g)
  }

  lemma ShrunkTrans(vm: Vm, vm1: Vm, vm2: Vm, d: nat, lo: nat, mid: nat, hi: nat)
    requires lo <= mid <= hi && d in vm.roots && Shrunk(vm, vm1, d, lo, mid) && Shrunk(vm1, vm2, d, mid, hi)
    ensures Shrunk(vm, vm2, d, lo, hi)
  {
    SameRoots(vm, vm1);
    SameRoots(vm1, vm2);
  }

  /** Nothing is mapped where there is no page table. */
  lemma ShrunkSkip(vm: Vm, d: nat, lo: nat, hi: nat)
    requires Inv(vm) && d in vm.roots && lo <= hi && hi <= (lo / 1024 + 1) * 1024 && Table(vm, d, lo / 1024) == 0
    ensures Shrunk(vm, vm, d, lo, hi)
  {
    InvFacts(vm);
    forall u: nat | lo <= u < hi ensures Pte(vm, d, u) == 0 {
      assert u / 1024 == lo / 1024;
    }
  }

  lemma ShrunkNone(vm: Vm, d: nat, v: nat)
    requires Inv(vm) && d in vm.roots && !Present(Pte(vm, d, v))
    ensures Shrunk(vm, vm, d, v, v + 1) && Shrunk(vm, vm, d, v, v)
  {
    InvFacts(vm);
  }

  /** kfree of a user page and the clearing of its entry. */
  lemma ShrunkPage(vm: Vm, d: nat, v: nat)
    requires Inv(vm) && d in vm.roots && v < KERNPAGE && Present(Pte(vm, d, v))
    ensures 0 < Table(vm, d, v / 1024) < |vm.mem| && Frame(Pte(vm, d, v)) < |vm.mem|
    ensures Shrunk(vm, Given(EntrySet(vm, d, v, 0), Frame(Pte(vm, d, v))), d, v, v + 1)
  {
    InvFacts(vm);
    var f, vm1 := Frame(Pte(vm, d, v)), EntrySet(vm, d, v, 0);
    PageUnmapped(vm, d, v);
    EntrySetMap(vm, d, v, 0);
    GivenInv(vm1, f);
    var vm2 := Given(vm1, f);
    forall g: nat | Plain(vm, g) && g !in vm2.free ensures Plain(vm2, g) && At(vm2, g) == At(vm, g) {
      assert Holds(vm, Tab(d, v / 1024)) != g;
    }
    assert Holds(vm, User(d, v)) == f;
    assert forall d', i: nat :: d' in vm.roots ==> Dir(vm2, d', i) == Dir(vm1, d', i) == Dir(vm, d', i);
    assert forall d', u: nat :: d' in vm.roots && !(d' == d && v <= u < v + 1) ==> Pte(vm2, d', u) == Pte(vm, d', u);
    assert Pte(vm2, d, v) == 0;
    assert forall l :: Holds(vm2, l) == if InRange(l, d, v, v + 1) then 0 else Holds(vm, l);
    assert forall g: nat :: Stray(vm2, g) <==> Stray(vm, g);
    assert forall g: nat :: g in vm.free ==> g in vm2.free;
  }

  // ----- Growing -----

  /** Page u of directory d is backed by a frame that was free in vm0, and is zero. */
  ghost predicate NewPage(vm0: Vm, vm: Vm, d: nat, u: nat) {
    var f := Frame(Pte(vm, d, u));
    Pte(vm, d, u) == Entry(f, PTE_W + PTE_U) && f in vm0.free && At(vm, f) == Filled(0)
  }

  ghost predicate Unmapped(vm: Vm, d: nat, lo: nat, hi: nat) {
    forall u: nat :: lo <= u < hi ==> !Present(Pte(vm, d, u))
  }

  /** Directory d has got the new pages lo .. hi - 1, and page tables as needed. `lost` is a
      frame taken from the free list and not yet used, or 0. */
  ghost predicate UserGrown(vm0: Vm, vm: Vm, d: nat, lo: nat, hi: nat, lost: nat) {
    && Inv(vm) && SameShape(vm0, vm) && Kept(vm0, vm)
    && (forall d', u: nat :: d' in vm0.roots && !(d' == d && lo <= u < hi) ==> Pte(vm, d', u) == Pte(vm0, d', u))
    && (forall u: nat :: lo <= u < hi ==> NewPage(vm0, vm, d, u))
    && (forall l: Loc :: !((l.Tab? && l.d == d) || InRange(l, d, lo, hi)) || Holds(vm0, l) != 0 ==> Holds(vm, l) == Holds(vm0, l))
    && forall g: nat :: Stray(vm, g) <==> Stray(vm0, g) || (g == lost != 0)
  }

  lemma StillFree(vm0: Vm, vm: Vm, d: nat, lo: nat, hi: nat, f: nat)
    requires Inv(vm0) && UserGrown(vm0, vm, d, lo, hi, 0) && f in vm.free
    ensures f in vm0.free
  {
    SameRoots(vm0, vm);
    InvFacts(vm);
    InvFacts(vm0);
    assert Managed(vm, f);
    forall l ensures Holds(vm0, l) != f {
      assert Holds(vm0, l) != 0 ==> Holds(vm, l) == Holds(vm0, l);
    }
    assert !Stray(vm, f);
  }

  /** kalloc and memset. */
  lemma FrameTaken(vm0: Vm, vm: Vm, d: nat, lo: nat, hi: nat)
    requires Inv(vm0) && d in vm0.roots && UserGrown(vm0, vm, d, lo, hi, 0) && vm.free != []
    ensures vm.free[0] < |vm.mem|
    ensures var f := vm.free[0]; var vm2 := Write(Taken(vm), f, Filled(0));
      && UserGrown(vm0, vm2, d, lo, hi, f) && Managed(vm2, f) && f !in vm2.free && Unheld(vm2, f) && f in vm0.free
  {
    SameRoots(vm0, vm);
    InvFacts(vm0);
    var f := vm.free[0];
    StillFree(vm0, vm, d, lo, hi, f);
    TakenInv(vm);
    WriteFresh(Taken(vm), f, Filled(0));
    var vm2 := Write(Taken(vm), f, Filled(0));
    forall u: nat | lo <= u < hi ensures NewPage(vm0, vm2, d, u) {
      assert NewPage(vm0, vm, d, u);
    }
  }

  /** mappages of the frame just taken. */
  lemma PageGrown(vm0: Vm, vm2: Vm, vm3: Vm, d: nat, lo: nat, hi: nat, f: nat)
    requires Inv(vm0) && d in vm0.roots && hi < KERNPAGE && lo <= hi && Unmapped(vm0, d, hi, hi + 1)
    requires UserGrown(vm0, vm2, d, lo, hi, f) && Managed(vm2, f) && f !in vm2.free && Unheld(vm2, f) && f in vm0.free
    requires At(vm2, f) == Filled(0) && f != 0 && Ranged(vm2, vm3, d, hi, 1, f, PTE_W + PTE_U)
    ensures UserGrown(vm0, vm3, d, lo, hi + 1, 0)
  {
    SameRoots(vm0, vm2);
    SameRoots(vm2, vm3);
    InvFacts(vm0);
    RangedFacts(vm2, vm3, d, hi, 1, f, PTE_W + PTE_U);
    assert Plain(vm2, f);
    assert Pte(vm3, d, hi) == Entry(f, PTE_W + PTE_U);
    forall u: nat | lo <= u < hi + 1 ensures NewPage(vm0, vm3, d, u) {
      if u < hi {
        assert NewPage(vm0, vm2, d, u);
        PlainUser(vm2, d, u);
      }
    }
  }

  lemma PlainUser(vm: Vm, d: nat, u: nat)
    requires Inv(vm) && d in vm.roots && u < KERNPAGE && Present(Pte(vm, d, u))
    ensures Plain(vm, Frame(Pte(vm, d, u)))
  {
    InvFacts(vm);
    assert Holds(vm, User(d, u)) == Frame(Pte(vm, d, u)) != 0;
  }

  /** Held by one of the user pages lo .. hi - 1 of directory d. */
  ghost predicate InPages(vm: Vm, d: nat, lo: nat, hi: nat, g: nat) {
    exists u: nat :: lo <= u < hi && Holds(vm, User(d, u)) == g
  }

  /** The user pages lo .. hi - 1 of directory d are unmapped, and what they held is free; all
      other pages and frames are as before. Page tables may have been added for d. */
  ghost predicate Cleared(vm0: Vm, vm: Vm, d: nat, lo: nat, hi: nat, lost: nat) {
    && Inv(vm) && SameShape(vm0, vm)
    && (forall g: nat :: Plain(vm0, g) && !InPages(vm0, d, lo, hi, g) ==> Plain(vm, g) && At(vm, g) == At(vm0, g))
    && (forall d', u: nat :: d' in vm0.roots ==>
          if d' == d && lo <= u < hi then !Present(Pte(vm, d', u)) else Pte(vm, d', u) == Pte(vm0, d', u))
    && (forall l: Loc :: !(l.Tab? && l.d == d) || Holds(vm0, l) != 0 ==>
          Holds(vm, l) == if InRange(l, d, lo, hi) then 0 else Holds(vm0, l))
    && forall g: nat :: Stray(vm, g) <==> Stray(vm0, g) || (g == lost != 0)
  }

  /** User memory is as it was: same pages, same frames, same contents. Page tables may have
      been added for d. */
  ghost predicate Restored(vm0: Vm, vm: Vm, d: nat) {
    && Inv(vm) && SameShape(vm0, vm) && Kept(vm0, vm)
    && (forall d', u: nat :: d' in vm0.roots ==>
          Pte(vm, d', u) == Pte(vm0, d', u) || (!Present(Pte(vm, d', u)) && !Present(Pte(vm0, d', u))))
    && (forall l: Loc :: !(l.Tab? && l.d == d) || Holds(vm0, l) != 0 ==> Holds(vm, l) == Holds(vm0, l))
    && forall g: nat :: Stray(vm, g) <==> Stray(vm0, g)
  }

  /** A failed allocuvm of pages that were not mapped restores user memory. */
  lemma ClearedRestored(vm0: Vm, vm: Vm, d: nat, lo: nat, hi: nat)
    requires Inv(vm0) && d in vm0.roots && Cleared(vm0, vm, d, lo, hi, 0) && Unmapped(vm0, d, lo, hi)
    ensures Restored(vm0, vm, d)
  {
    SameRoots(vm0, vm);
    InvFacts(vm0);
    forall g: nat | Plain(vm0, g) ensures !InPages(vm0, d, lo, hi, g) {
      forall u: nat | lo <= u < hi ensures Holds(vm0, User(d, u)) != g {
        assert !Present(Pte(vm0, d, u));
      }
    }
    forall l: Loc | !(l.Tab? && l.d == d) || Holds(vm0, l) != 0 ensures Holds(vm, l) == Holds(vm0, l) {
      assert InRange(l, d, lo, hi) ==> !Present(Pte(vm0, d, l.v));
    }
  }

  /** Taking the new pages away again, and with them those that were there before. */
  lemma UndoGrowth(vm0: Vm, vm: Vm, vm': Vm, d: nat, lo: nat, mid: nat, hi: nat, lost: nat)
    requires Inv(vm0) && d in vm0.roots && lo <= mid <= hi <= KERNPAGE
    requires UserGrown(vm0, vm, d, lo, mid, lost) && Shrunk(vm, vm', d, lo, hi)
    ensures Cleared(vm0, vm', d, lo, hi, lost)
  {
    SameRoots(vm0, vm);
    SameRoots(vm, vm');
    InvFacts(vm0);
    forall l: Loc | !(l.Tab? && l.d == d) || Holds(vm0, l) != 0
      ensures Holds(vm', l) == if InRange(l, d, lo, hi) then 0 else Holds(vm0, l)
    {
    }
    forall g: nat | Plain(vm0, g) && !InPages(vm0, d, lo, hi, g) ensures Plain(vm', g) && At(vm', g) == At(vm0, g) {
      PlainNotFree(vm0, vm', d, lo, hi, lost, g);
      assert Plain(vm, g);
    }
  }

  lemma PlainNotFree(vm0: Vm, vm': Vm, d: nat, lo: nat, hi: nat, lost: nat, g: nat)
    requires Plain(vm0, g) && Inv(vm0) && Inv(vm') && !InPages(vm0, d, lo, hi, g)
    requires forall l: Loc :: !(l.Tab? && l.d == d) || Holds(vm0, l) != 0 ==>
      Holds(vm', l) == if InRange(l, d, lo, hi) then 0 else Holds(vm0, l)
    requires forall h: nat :: Stray(vm', h) <==> Stray(vm0, h) || (h == lost != 0)
    ensures g !in vm'.free
  {
    InvFacts(vm0);
    InvFacts(vm');
    if Unheld(vm0, g) {
      assert Stray(vm0, g);
      assert Stray(vm', g);
    } else {
      var l :| Holds(vm0, l) == g;
      assert Holds(vm', l) == g;
    }
  }

  /** kfree of the frame that could not be mapped. */
  lemma LostGiven(vm0: Vm, vm: Vm, d: nat, lo: nat, hi: nat, f: nat)
    requires Inv(vm0) && Cleared(vm0, vm, d, lo, hi, f) && f != 0 && f in vm0.free && Stray(vm, f)
    ensures Cleared(vm0, Given(vm, f), d, lo, hi, 0)
  {
    SameRoots(vm0, vm);
    InvFacts(vm0);
    GivenInv(vm, f);
    assert !Stray(vm0, f);
    var vm' := Given(vm, f);
    forall g: nat | Plain(vm0, g) && !InPages(vm0, d, lo, hi, g) ensures Plain(vm', g) && At(vm', g) == At(vm0, g) {
      assert Plain(vm, g) && g != f;
    }
  }

  lemma GrownGrew(vm0: Vm, vm2: Vm, vm3: Vm, d: nat, lo: nat, hi: nat, f: nat)
    requires Inv(vm0) && d in vm0.roots && hi <= KERNPAGE && UserGrown(vm0, vm2, d, lo, hi, f) && Grew(vm2, vm3, d)
    ensures UserGrown(vm0, vm3, d, lo, hi, f)
  {
    SameRoots(vm0, vm2);
    SameRoots(vm2, vm3);
    InvFacts(vm0);
    forall u: nat | lo <= u < hi ensures NewPage(vm0, vm3, d, u) {
      assert NewPage(vm0, vm2, d, u);
      PlainUser(vm2, d, u);
    }
  }

  // ----- Page directories coming and going -----

  /** A directory d that was not in use in vm0 has been set up and possibly mapped; all
      others, and the contents of other frames, are as before. */
  ghost predicate Beside(vm0: Vm, vm: Vm, d: nat) {
    && Inv(vm) && d !in vm0.roots && vm.roots == vm0.roots + {d} && vm.start == vm0.start && |vm.mem| == |vm0.mem|
    && Kept(vm0, vm)
    && (forall d', u: nat :: d' in vm0.roots ==> Pte(vm, d', u) == Pte(vm0, d', u))
    && (forall l: Loc :: l.d != d ==> Holds(vm, l) == Holds(vm0, l))
  }

  /** setupkvm: a zeroed frame, registered as a directory. */
  lemma RootTaken(vm0: Vm)
    requires Inv(vm0) && vm0.free != []
    ensures vm0.free[0] < |vm0.mem|
    ensures var d := vm0.free[0]; var vm1 := Write(Taken(vm0), d, Filled(0)); var vm := vm1.(roots := vm1.roots + {d});
      && Beside(vm0, vm, d) && (forall v: nat :: Pte(vm, d, v) == 0)
      && (forall l: Loc :: l.d == d && !l.Root? ==> Holds(vm, l) == 0)
      && forall g: nat :: Stray(vm, g) <==> Stray(vm0, g)
  {
    InvFacts(vm0);
    var d := vm0.free[0];
    TakenInv(vm0);
    WriteFresh(Taken(vm0), d, Filled(0));
    var vm1 := Write(Taken(vm0), d, Filled(0));
    RootAdded(vm1, d);
    var vm := vm1.(roots := vm1.roots + {d});
    forall i: nat ensures Dir(vm, d, i) == 0 {
    }
    forall d', u: nat | d' in vm0.roots ensures Pte(vm, d', u) == Pte(vm0, d', u) {
      assert Pte(vm1, d', u) == Pte(vm0, d', u);
    }
  }

  lemma BesideRanged(vm0: Vm, vm: Vm, vm': Vm, d: nat, v: nat, n: nat, pa: nat, perm: nat)
    requires perm < PGSIZE && Beside(vm0, vm, d) && Ranged(vm, vm', d, v, n, pa, perm)
    ensures Beside(vm0, vm', d)
  {
    SameRoots(vm, vm');
    RangedFacts(vm, vm', d, v, n, pa, perm);
  }

  /** What directory d holds: itself, its page tables and its user pages. */
  ghost predicate HeldBy(vm: Vm, d: nat, g: nat) {
    exists l: Loc :: l.d == d && Holds(vm, l) == g != 0
  }

  function Dropped(vm: Vm, d: nat): Vm {
    vm.(roots := vm.roots - {d})
  }

  /** A directory given up: what it held is lost until it is freed. */
  lemma DroppedInv(vm: Vm, d: nat)
    requires Inv(vm)
    ensures var vm' := Dropped(vm, d);
      && Inv(vm') && (forall l: Loc :: Holds(vm', l) == if l.d == d then 0 else Holds(vm, l))
      && (forall d', i: nat :: Dir(vm', d', i) == Dir(vm, d', i)) && (forall d', u: nat :: Pte(vm', d', u) == Pte(vm, d', u))
      && forall g: nat :: Stray(vm', g) <==> Stray(vm, g) || HeldBy(vm, d, g)
  {
    InvFacts(vm);
    var vm' := Dropped(vm, d);
    forall d', i: nat ensures Dir(vm', d', i) == Dir(vm, d', i) {
    }
    forall d', u: nat ensures Pte(vm', d', u) == Pte(vm, d', u) {
      assert Dir(vm', d', u / 1024) == Dir(vm, d', u / 1024);
    }
    forall l: Loc ensures Holds(vm', l) == if l.d == d then 0 else Holds(vm, l) {
      assert l.Tab? ==> Dir(vm', l.d, l.i) == Dir(vm, l.d, l.i);
    }
    forall g: nat ensures Stray(vm', g) <==> Stray(vm, g) || HeldBy(vm, d, g) {
      DroppedStray(vm, vm', d, g);
    }
  }

  lemma DroppedStray(vm: Vm, vm': Vm, d: nat, g: nat)
    requires Inv(vm) && vm' == Dropped(vm, d) && forall l: Loc :: Holds(vm', l) == if l.d == d then 0 else Holds(vm, l)
    ensures Stray(vm', g) <==> Stray(vm, g) || HeldBy(vm, d, g)
  {
    InvFacts(vm);
    if Stray(vm', g) && !HeldBy(vm, d, g) {
      forall l ensures Holds(vm, l) != g {
        assert Holds(vm', l) != g;
      }
    }
    if Stray(vm, g) {
      forall l ensures Holds(vm', l) != g {
        assert Holds(vm, l) != g;
      }
    }
    if HeldBy(vm, d, g) {
      var l: Loc :| l.d == d && Holds(vm, l) == g != 0;
      forall l' ensures Holds(vm', l') != g {
      }
    }
  }

  /** Directory d is gone, with all that it held free again. */
  ghost predicate Gone(vm: Vm, vm': Vm, d: nat) {
    && Inv(vm') && vm'.roots == vm.roots - {d} && vm'.start == vm.start && |vm'.mem| == |vm.mem|
    && (forall l: Loc :: Holds(vm', l) == if l.d == d then 0 else Holds(vm, l))
    && (forall d', u: nat :: d' in vm'.roots ==> Pte(vm', d', u) == Pte(vm, d', u))
    && (forall g: nat :: Plain(vm, g) && !HeldBy(vm, d, g) ==> Plain(vm', g) && At(vm', g) == At(vm, g))
    && forall g: nat :: Stray(vm', g) <==> Stray(vm, g)
  }

  /** freevm's second loop: the page tables of the first i entries have been freed. */
  ghost predicate Freeing(vm: Vm, cur: Vm, d: nat, i: nat) {
    && Inv(cur) && cur.roots == vm.roots - {d} && cur.start == vm.start && |cur.mem| == |vm.mem| && At(cur, d) == At(vm, d)
    && (forall l: Loc :: Holds(cur, l) == if l.d == d then 0 else Holds(vm, l))
    && (forall d', u: nat :: d' in cur.roots ==> Pte(cur, d', u) == Pte(vm, d', u))
    && (forall g: nat :: Plain(vm, g) && !HeldBy(vm, d, g) ==> Plain(cur, g) && At(cur, g) == At(vm, g))
    && forall g: nat :: Stray(cur, g) <==> Stray(vm, g) || g == d || TableFrom(vm, d, i, g)
  }

  ghost predicate TableFrom(vm: Vm, d: nat, i: nat, g: nat) {
    exists j: nat :: i <= j < ENTRIES && Holds(vm, Tab(d, j)) == g != 0
  }

  lemma FreeingStart(vm: Vm, d: nat)
    requires Inv(vm) && d in vm.roots && forall u: nat :: Holds(vm, User(d, u)) == 0
    ensures Freeing(vm, Dropped(vm, d), d, 0)
  {
    InvFacts(vm);
    DroppedInv(vm, d);
    assert Holds(vm, Root(d)) == d;
    forall g: nat ensures HeldBy(vm, d, g) <==> g == d || TableFrom(vm, d, 0, g) {
      if g == d {
        assert Holds(vm, Root(d)) == g;
      }
    }
    var vm' := Dropped(vm, d);
    forall g: nat | Plain(vm, g) && !HeldBy(vm, d, g) ensures Plain(vm', g) && At(vm', g) == At(vm, g) {
    }
  }

  lemma FreeingNone(vm: Vm, cur: Vm, d: nat, i: nat)
    requires Inv(vm) && d in vm.roots && i < ENTRIES && Freeing(vm, cur, d, i) && Holds(vm, Tab(d, i)) == 0
    ensures Freeing(vm, cur, d, i + 1)
  {
    InvFacts(vm);
    forall g: nat ensures TableFrom(vm, d, i, g) <==> TableFrom(vm, d, i + 1, g) {
    }
  }

  /** kfree of a page table. */
  lemma FreeingOne(vm: Vm, cur: Vm, d: nat, i: nat, t: nat)
    requires Inv(vm) && d in vm.roots && i < ENTRIES && Freeing(vm, cur, d, i) && Holds(vm, Tab(d, i)) == t != 0
    ensures Managed(cur, t) && t !in cur.free && Freeing(vm, Given(cur, t), d, i + 1)
  {
    InvFacts(vm);
    assert TableFrom(vm, d, i, t);
    assert Stray(cur, t);
    assert Holds(vm, Root(d)) == d;
    GivenInv(cur, t);
    var cur' := Given(cur, t);
    forall g: nat ensures Stray(cur', g) <==> Stray(vm, g) || g == d || TableFrom(vm, d, i + 1, g) {
      assert TableFrom(vm, d, i, g) <==> TableFrom(vm, d, i + 1, g) || g == t;
      assert !TableFrom(vm, d, i + 1, t);
      assert !Stray(vm, t);
    }
    forall g: nat | Plain(vm, g) && !HeldBy(vm, d, g) ensures Plain(cur', g) && At(cur', g) == At(vm, g) {
      assert Plain(cur, g) && g != t;
    }
  }

  /** kfree of the directory itself. */
  lemma FreeingEnd(vm: Vm, cur: Vm, d: nat)
    requires Inv(vm) && d in vm.roots && Freeing(vm, cur, d, ENTRIES)
    ensures Managed(cur, d) && d !in cur.free && Gone(vm, Given(cur, d), d)
  {
    InvFacts(vm);
    assert Stray(cur, d);
    assert Holds(vm, Root(d)) == d;
    GivenInv(cur, d);
    var cur' := Given(cur, d);
    forall g: nat ensures Stray(cur', g) <==> Stray(vm, g) {
      assert !TableFrom(vm, d, ENTRIES, g) && !Stray(vm, d);
    }
    forall g: nat | Plain(vm, g) && !HeldBy(vm, d, g) ensures Plain(cur', g) && At(cur', g) == At(vm, g) {
      assert Plain(cur, g) && g != d;
    }
  }

  /** Pages given up first, then tables and directory. */
  lemma ShrunkGone(vm: Vm, vm1: Vm, vm2: Vm, d: nat)
    requires Inv(vm) && d in vm.roots && Shrunk(vm, vm1, d, 0, KERNPAGE) && Gone(vm1, vm2, d)
    ensures Gone(vm, vm2, d)
  {
    SameRoots(vm, vm1);
    InvFacts(vm);
    forall g: nat | Plain(vm, g) && !HeldBy(vm, d, g) ensures Plain(vm2, g) && At(vm2, g) == At(vm, g) {
      assert Plain(vm1, g) by {
        NotGivenUp(vm, vm1, d, g);
      }
      assert !HeldBy(vm1, d, g) by {
        forall l: Loc | l.d == d ensures !(Holds(vm1, l) == g != 0) {
          assert !(Holds(vm, l) == g != 0);
        }
      }
    }
  }

  lemma NotGivenUp(vm: Vm, vm1: Vm, d: nat, g: nat)
    requires Inv(vm) && Shrunk(vm, vm1, d, 0, KERNPAGE) && Plain(vm, g) && !HeldBy(vm, d, g)
    ensures g !in vm1.free
  {
    SameRoots(vm, vm1);
    InvFacts(vm1);
    InvFacts(vm);
    if Unheld(vm, g) {
      assert Stray(vm, g);
      assert Stray(vm1, g);
    } else {
      var l :| Holds(vm, l) == g;
      assert Holds(vm1, l) == g;
    }
  }

  // ----- The kernel's half -----

  /** The entry for page u after the first k ranges have been mapped. */
  function KernelEntry(kmap: seq<Kmap>, k: nat, u: nat): nat
    requires k <= |kmap| && forall j :: 0 <= j < |kmap| ==> KernelRange(kmap[j])
  {
    if k == 0 then 0
    else
      var e := kmap[k - 1];
      assert KernelRange(e);
      if e.virt <= u < e.virt + e.n then Entry(e.phys + u - e.virt, e.perm) else KernelEntry(kmap, k - 1, u)
  }

  /** Directory c has the kernel's mappings. */
  ghost predicate KernelHalf(vm: Vm, c: nat, kmap: seq<Kmap>)
    requires GoodKmap(kmap)
  {
    forall u: nat :: u >= KERNPAGE ==> Pte(vm, c, u) == KernelEntry(kmap, |kmap|, u)
  }

  lemma KernelHalfKept(vm: Vm, vm': Vm, c: nat, kmap: seq<Kmap>)
    requires GoodKmap(kmap) && KernelHalf(vm, c, kmap)
    requires forall u: nat :: u >= KERNPAGE ==> Pte(vm', c, u) == Pte(vm, c, u)
    ensures KernelHalf(vm', c, kmap)
  {
  }

  lemma {:induction false} KernelEntryBelow(kmap: seq<Kmap>, k: nat, u: nat)
    requires GoodKmap(kmap) && k <= |kmap| && (u < KERNPAGE || (k < |kmap| && kmap[k].virt <= u))
    ensures KernelEntry(kmap, k, u) == 0
  {
    if k > 0 {
      assert k < |kmap| ==> kmap[k - 1].virt + kmap[k - 1].n <= kmap[k].virt;
      KernelEntryBelow(kmap, k - 1, u);
    }
  }

  // ----- Copying -----

  /** Page u of the child c has the flags and the contents of the parent's, in a frame that
      was free before. */
  ghost predicate PageCopied(vm0: Vm, vm: Vm, d: nat, c: nat, u: nat) {
    var w, w' := Pte(vm0, d, u), Pte(vm, c, u);
    && Present(w) && Present(w') && Flags(w') == Flags(w) && Frame(w') in vm0.free && At(vm, Frame(w')) == At(vm0, Frame(w))
  }

  /** The first n pages of d have been copied to a new directory c, which maps no other user
      page; nothing else has changed. `lost` is a frame taken and not yet used, or 0. */
  ghost predicate Copying(vm0: Vm, vm: Vm, d: nat, c: nat, n: nat, lost: nat) {
    && Beside(vm0, vm, c)
    && (forall u: nat :: u < n ==> PageCopied(vm0, vm, d, c, u))
    && (forall u: nat :: n <= u < KERNPAGE ==> Pte(vm, c, u) == 0)
    && forall g: nat :: Stray(vm, g) <==> Stray(vm0, g) || (g == lost != 0)
  }

  lemma FreeBefore(vm0: Vm, vm: Vm, d: nat, c: nat, n: nat, f: nat)
    requires Inv(vm0) && Copying(vm0, vm, d, c, n, 0) && f in vm.free
    ensures f in vm0.free
  {
    InvFacts(vm);
    InvFacts(vm0);
    assert Managed(vm, f);
    forall l ensures Holds(vm0, l) != f {
      assert l.d == c ==> Holds(vm0, l) == 0;
      assert l.d != c ==> Holds(vm, l) == Holds(vm0, l);
    }
    assert !Stray(vm, f);
  }

  /** kalloc and memmove. */
  lemma CopyTaken(vm0: Vm, vm: Vm, d: nat, c: nat, n: nat, p: Page)
    requires Inv(vm0) && Copying(vm0, vm, d, c, n, 0) && n <= KERNPAGE && vm.free != []
    ensures vm.free[0] < |vm.mem|
    ensures var f := vm.free[0]; var vm2 := Write(Taken(vm), f, p);
      && Copying(vm0, vm2, d, c, n, f) && Managed(vm2, f) && f !in vm2.free && Unheld(vm2, f) && f in vm0.free
      && forall u: nat :: Pte(vm2, c, u) == Pte(vm, c, u)
  {
    InvFacts(vm0);
    var f := vm.free[0];
    FreeBefore(vm0, vm, d, c, n, f);
    TakenInv(vm);
    WriteFresh(Taken(vm), f, p);
    var vm2 := Write(Taken(vm), f, p);
    forall u: nat | u < n ensures PageCopied(vm0, vm2, d, c, u) {
      assert PageCopied(vm0, vm, d, c, u);
      PlainUser(vm, c, u);
    }
    forall g: nat | Plain(vm0, g) ensures Plain(vm2, g) && At(vm2, g) == At(vm0, g) {
      assert Plain(vm, g) && g != f;
    }
  }

  /** Pages copied before stay copied while more is mapped. */
  lemma StillCopied(vm0: Vm, vm2: Vm, vm3: Vm, d: nat, c: nat, n: nat, k: nat, f: nat, perm: nat, u: nat)
    requires perm < PGSIZE && Inv(vm2) && c in vm2.roots && u < n < KERNPAGE && PageCopied(vm0, vm2, d, c, u)
    requires Ranged(vm2, vm3, c, n, k, f, perm)
    ensures PageCopied(vm0, vm3, d, c, u)
  {
    SameRoots(vm2, vm3);
    InvFacts(vm2);
    assert PteRanged(vm2, vm3, c, n, k, f, perm, c, u);
    PlainUser(vm2, c, u);
  }

  /** mappages of the copy. */
  lemma CopyMapped(vm0: Vm, vm2: Vm, vm3: Vm, d: nat, c: nat, n: nat, f: nat, perm: nat)
    requires Inv(vm0) && d in vm0.roots && n < KERNPAGE && Copying(vm0, vm2, d, c, n, f)
    requires Managed(vm2, f) && f !in vm2.free && Unheld(vm2, f) && f in vm0.free && f != 0 && perm < PGSIZE && Present(perm)
    requires Present(Pte(vm0, d, n)) && perm == Flags(Pte(vm0, d, n)) && At(vm2, f) == At(vm0, Frame(Pte(vm0, d, n)))
    requires Ranged(vm2, vm3, c, n, 1, f, perm)
    ensures Copying(vm0, vm3, d, c, n + 1, 0)
  {
    SameRoots(vm2, vm3);
    InvFacts(vm0);
    BesideRanged(vm0, vm2, vm3, c, n, 1, f, perm);
    RangedFacts(vm2, vm3, c, n, 1, f, perm);
    forall u: nat | u < n + 1 ensures PageCopied(vm0, vm3, d, c, u) {
      if u < n {
        StillCopied(vm0, vm2, vm3, d, c, n, 1, f, perm, u);
      } else {
        NowCopied(vm0, vm2, vm3, d, c, n, f, perm);
      }
    }
  }

  lemma NowCopied(vm0: Vm, vm2: Vm, vm3: Vm, d: nat, c: nat, n: nat, f: nat, perm: nat)
    requires perm < PGSIZE && Present(perm) && Inv(vm2) && c in vm2.roots && n < KERNPAGE && Ranged(vm2, vm3, c, n, 1, f, perm)
    requires Managed(vm2, f) && f !in vm2.free && Unheld(vm2, f) && f in vm0.free
    requires Present(Pte(vm0, d, n)) && perm == Flags(Pte(vm0, d, n)) && At(vm2, f) == At(vm0, Frame(Pte(vm0, d, n)))
    ensures PageCopied(vm0, vm3, d, c, n)
  {
    SameRoots(vm2, vm3);
    InvFacts(vm2);
    assert PteRanged(vm2, vm3, c, n, 1, f, perm, c, n);
    assert Plain(vm2, f);
  }

  /** mappages failed: only page tables may have been added. */
  lemma CopyStuck(vm0: Vm, vm2: Vm, vm3: Vm, d: nat, c: nat, n: nat, f: nat, perm: nat)
    requires Inv(vm0) && n < KERNPAGE && Copying(vm0, vm2, d, c, n, f) && perm < PGSIZE && Ranged(vm2, vm3, c, n, 0, f, perm)
    ensures Copying(vm0, vm3, d, c, n, f)
  {
    SameRoots(vm2, vm3);
    InvFacts(vm0);
    BesideRanged(vm0, vm2, vm3, c, n, 0, f, perm);
    RangedFacts(vm2, vm3, c, n, 0, f, perm);
    forall u: nat | u < n ensures PageCopied(vm0, vm3, d, c, u) {
      StillCopied(vm0, vm2, vm3, d, c, n, 0, f, perm, u);
    }
  }

  /** The failed copy thrown away: nothing in use has changed, and just `lost` is lost. */
  ghost predicate Uncopied(vm0: Vm, vm: Vm, lost: nat) {
    && Inv(vm) && SameShape(vm0, vm) && Kept(vm0, vm)
    && (forall l: Loc :: Holds(vm, l) == Holds(vm0, l))
    && (forall d', u: nat :: d' in vm0.roots ==> Pte(vm, d', u) == Pte(vm0, d', u))
    && forall g: nat :: Stray(vm, g) <==> Stray(vm0, g) || (g == lost != 0)
  }

  /** freevm of a copy leaves everything as it was before copyuvm. */
  lemma CopyGone(vm0: Vm, vm: Vm, vm': Vm, d: nat, c: nat, n: nat, lost: nat)
    requires Inv(vm0) && Copying(vm0, vm, d, c, n, lost) && Gone(vm, vm', c)
    ensures Uncopied(vm0, vm', lost)
  {
    InvFacts(vm0);
    assert vm'.roots == vm0.roots;
    forall l: Loc ensures Holds(vm', l) == Holds(vm0, l) {
    }
    forall g: nat | Plain(vm0, g) ensures Plain(vm', g) && At(vm', g) == At(vm0, g) {
      assert !HeldBy(vm, c, g) by {
        NotHeldByCopy(vm0, vm, c, g);
      }
    }
  }

  lemma NotHeldByCopy(vm0: Vm, vm: Vm, c: nat, g: nat)
    requires Inv(vm0) && Beside(vm0, vm, c) && Plain(vm0, g) && (Stray(vm0, g) ==> Stray(vm, g))
    ensures !HeldBy(vm, c, g)
  {
    InvFacts(vm);
    InvFacts(vm0);
    if !Unheld(vm0, g) {
      var l :| Holds(vm0, l) == g;
      assert l.d != c && Holds(vm, l) == g;
    }
  }

  /** Copying an address space and freeing the copy gives back the same set of free frames. */
  lemma CopyThenFree(vm0: Vm, vm1: Vm, vm2: Vm, d: nat, c: nat, n: nat)
    requires Inv(vm0) && Copying(vm0, vm1, d, c, n, 0) && Gone(vm1, vm2, c)
    ensures forall g: nat :: g in vm2.free <==> g in vm0.free
    ensures FreeList(vm2)
  {
    InvFacts(vm0);
    CopyGone(vm0, vm1, vm2, d, c, n, 0);
    SameFreeSet(vm0, vm2);
  }

  /** Parent and child share no frame. */
  lemma CopyDisjoint(vm0: Vm, vm: Vm, d: nat, c: nat, n: nat, u: nat, v: nat)
    requires Inv(vm0) && d in vm0.roots && Copying(vm0, vm, d, c, n, 0) && u < n <= KERNPAGE && v < KERNPAGE
    requires Present(Pte(vm, d, v))
    ensures Frame(Pte(vm, c, u)) != Frame(Pte(vm, d, v))
  {
    InvFacts(vm0);
    assert PageCopied(vm0, vm, d, c, u);
    assert Holds(vm, User(c, u)) == Frame(Pte(vm, c, u)) != 0;
    assert Holds(vm, User(d, v)) == Frame(Pte(vm, d, v));
  }

  // ----- Mapping a range -----

  datatype MapResult = Done | NoMemory | Remap

  lemma MappagesStart(vm: Vm, d: nat, v: nat, pa: nat, perm: nat)
    requires perm < PGSIZE && Inv(vm)
    ensures Mapped(vm, vm, d, v, 0, pa, perm)
  {
    CostsNothing(vm, d, v, 0);
  }

  lemma RangedNone(vm: Vm, vm0: Vm, d: nat, v: nat, pa: nat, perm: nat)
    requires perm < PGSIZE && Inv(vm) && Ranged(vm, vm0, d, v, 0, pa, perm)
    ensures Grew(vm, vm0, d)
  {
    SameRoots(vm, vm0);
    InvFacts(vm);
    RangedFacts(vm, vm0, d, v, 0, pa, perm);
  }

  /** mappages has done k pages. */
  ghost predicate Mapped(vm: Vm, cur: Vm, d: nat, v: nat, k: nat, pa: nat, perm: nat)
    requires perm < PGSIZE
  {
    Ranged(vm, cur, d, v, k, pa, perm) && Costs(vm, cur, d, v, k, 0) && Unmapped(vm, d, v, v + k)
  }

  /** The frame for the next page is still neither free nor held. */
  lemma StillStray(vm: Vm, vm0: Vm, d: nat, v: nat, n: nat, k: nat, pa: nat, perm: nat, u: nat, f: nat)
    requires perm < PGSIZE && Mappable(vm, v, n, pa) && Mapped(vm, vm0, d, v, k, pa, perm) && k < n && u == v + k && f == pa + k
    ensures u < KERNPAGE ==> Stray(vm0, f)
  {
    SameRoots(vm, vm0);
    if v + k < KERNPAGE {
      assert ToUser(v, n, pa, pa + k) && !ToUser(v, k, pa, pa + k) && FrameReady(vm, v, n, pa, pa + k);
      assert StrayRanged(vm, vm0, v, k, pa, pa + k);
    }
  }

  /** mappages has done one page. */
  ghost predicate OneMapped(vm: Vm, vm': Vm, d: nat, u: nat, f: nat, perm: nat)
    requires perm < PGSIZE
  {
    Ranged(vm, vm', d, u, 1, f, perm) && Costs(vm, vm', d, u, 1, 0) && !Present(Pte(vm, d, u))
  }

  lemma MapTurn(vm: Vm, vm0: Vm, vm1: Vm, d: nat, v: nat, k: nat, pa: nat, perm: nat, u: nat, f: nat, m: nat)
    requires perm < PGSIZE && d in vm.roots && Mapped(vm, vm0, d, v, k, pa, perm)
    requires u == v + k && f == pa + k && m == k + 1 && OneMapped(vm0, vm1, d, u, f, perm)
    ensures Mapped(vm, vm1, d, v, m, pa, perm)
  {
    SameRoots(vm, vm0);
    SameRoots(vm0, vm1);
    RangedNext(vm, vm0, vm1, d, v, k, pa, perm);
    CostsJoin(vm, vm0, vm1, d, v, k, 0, u, 1, 0, m);
    UnmappedNext(vm, vm0, d, v, k, pa, perm, u);
  }

  lemma UnmappedNext(vm: Vm, vm0: Vm, d: nat, v: nat, k: nat, pa: nat, perm: nat, u: nat)
    requires perm < PGSIZE && d in vm.roots && Mapped(vm, vm0, d, v, k, pa, perm) && u == v + k && !Present(Pte(vm0, d, u))
    ensures Unmapped(vm, d, v, u + 1)
  {
    SameRoots(vm, vm0);
    assert PteRanged(vm, vm0, d, v, k, pa, perm, d, u);
  }

  /** mappages has run out of memory: the page tables needed are more than the free frames,
      which are all used up for the first of them. */
  ghost predicate MapFailed(vm: Vm, cur: Vm, d: nat, v: nat, n: nat, pa: nat, perm: nat)
    requires perm < PGSIZE
  {
    && cur.free == [] && Wanted(vm, d, v, n) - Tables(vm, d) > |vm.free|
    && exists k: nat :: k < n && Ranged(vm, cur, d, v, k, pa, perm)
  }

  /** For one page: its page table is missing, and there is no frame for it. */
  lemma OneFailed(vm: Vm, cur: Vm, d: nat, v: nat, pa: nat, perm: nat)
    requires perm < PGSIZE && v < PAGES - 1 && MapFailed(vm, cur, d, v, 1, pa, perm)
    ensures vm.free == [] && Table(vm, d, v / 1024) == 0 && Ranged(vm, cur, d, v, 0, pa, perm)
  {
    WantedMore(vm, d, v, 0);
    WantedNone(vm, d, v);
  }

  lemma MapStopped(vm: Vm, vm0: Vm, d: nat, v: nat, n: nat, k: nat, pa: nat, perm: nat, u: nat)
    requires perm < PGSIZE && d in vm.roots && Mapped(vm, vm0, d, v, k, pa, perm) && k < n && v + n <= PAGES && u == v + k
    ensures vm0.free == [] && Table(vm0, d, u / 1024) == 0 ==> MapFailed(vm, vm0, d, v, n, pa, perm)
    ensures Present(Pte(vm0, d, u)) ==> !Unmapped(vm, d, v, v + n)
  {
    SameRoots(vm, vm0);
    assert PteRanged(vm, vm0, d, v, k, pa, perm, d, v + k);
    if vm0.free == [] && Table(vm0, d, (v + k) / 1024) == 0 {
      CostsMore(vm, vm0, d, v, k, 0, n);
    }
  }

  lemma EntrySetCosts(vm: Vm, vm1: Vm, d: nat, u: nat, w: nat)
    requires Inv(vm1) && d in vm1.roots && u < PAGES && 0 < Table(vm1, d, u / 1024) < |vm1.mem| && Costs(vm, vm1, d, u, 1, 0)
    ensures Costs(vm, EntrySet(vm1, d, u, w), d, u, 1, 0)
  {
    var vm2 := EntrySet(vm1, d, u, w);
    EntrySetMap(vm1, d, u, w);
    SameTables(vm1, vm2, d);
    forall i: nat ensures TableGrew(vm, vm2, d, u, 1, i) {
      assert TableGrew(vm, vm1, d, u, 1, i);
    }
  }
}

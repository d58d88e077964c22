/** kalloc.c and the page-table code of vm.c on physical memory. Sizes are in bytes,
    virtual addresses in pages, physical addresses in frames. */
module VirtualMemory {
  import opened PageTables
  import opened FrameCounts
  import opened Mappings
  import opened FrameNeeds

  // ----- The free list in memory -----

  function NextFree(free: seq<nat>, k: nat): nat {
    if k < |free| then free[k] else 0
  }

  predicate ChainAt(mem: seq<Page>, free: seq<nat>, k: nat)
    requires k < |free|
  {
    free[k] < |mem| && mem[free[k]][0] == NextFree(free, k + 1)
  }

  /** Word 0 of each free frame names the next one. */
  ghost predicate Chained(mem: seq<Page>, freelist: nat, free: seq<nat>) {
    freelist == NextFree(free, 0) && forall k: nat :: k < |free| ==> ChainAt(mem, free, k)
  }

  lemma ChainedTail(mem: seq<Page>, freelist: nat, free: seq<nat>)
    requires Chained(mem, freelist, free) && free != []
    ensures freelist == free[0] < |mem| && Chained(mem, mem[freelist][0], free[1..])
  {
    assert ChainAt(mem, free, 0);
    forall k: nat | k < |free[1..]| ensures ChainAt(mem, free[1..], k) {
      assert ChainAt(mem, free, k + 1);
    }
  }

  lemma ChainedWrite(mem: seq<Page>, freelist: nat, free: seq<nat>, f: nat, p: Page)
    requires Chained(mem, freelist, free) && f < |mem| && f !in free
    ensures Chained(mem[f := p], freelist, free)
  {
    var mem' := mem[f := p];
    forall k: nat | k < |free| ensures ChainAt(mem', free, k) {
      assert ChainAt(mem, free, k);
    }
  }

  lemma ChainedPush(mem: seq<Page>, freelist: nat, free: seq<nat>, f: nat)
    requires Chained(mem, freelist, free) && f < |mem| && f !in free
    ensures Chained(mem[f := Junk(freelist)], f, [f] + free)
  {
    ChainedWrite(mem, freelist, free, f, Junk(freelist));
    var mem', free' := mem[f := Junk(freelist)], [f] + free;
    forall k: nat | k < |free'| ensures ChainAt(mem', free', k) {
      if k > 0 {
        assert ChainAt(mem', free, k - 1);
      }
    }
  }

  // ----- A process of one page -----

  lemma FirstPage(vm: Vm, d: nat, kmap: seq<Kmap>)
    requires GoodKmap(kmap) && KernelHas(vm, d, kmap, |kmap|, 0) && forall u: nat :: Pte(vm, d, u) == KernelEntry(kmap, |kmap|, u)
    ensures Tables(vm, d) == KernelTables(kmap) && Unmapped(vm, d, 0, 1) && Frames(vm, d, 0, 1) == 2
  {
    TablesCopied(vm, d, kmap, 0);
    KernelEntryBelow(kmap, |kmap|, 0);
    TableOfNext(vm, d, kmap, 0);
    WantedNone(vm, d, 0);
    WantedMore(vm, d, 0, 0);
  }

  lemma FirstPageGrown(vm: Vm, vm': Vm, d: nat, kmap: seq<Kmap>, a: AllocResult)
    requires GoodKmap(kmap) && Allocated(vm, vm', d, 0, 1, 4096, a) && Unmapped(vm, d, 0, 1) && Frames(vm, d, 0, 1) == 2
    requires |vm.free| == 68 && KernelTables(kmap) == 64
    ensures |vm'.free| == 66 && AllPresent(vm', d, 1) && Needed(kmap, 0) == 65 && Needed(kmap, 1) == 67
  {
    assert Suffices(vm, d, 0, 1) && GrownPart(vm, vm', d, 0, 1);
    CostsWanted(vm, vm', d, 0, 1, 1);
    assert NewPage(vm, vm', d, 0);
    NeededFromZero(kmap);
    NeededNext(kmap, 0);
  }

  class Memory {
    var mem: seq<Page>
    var freelist: nat
    const start: nat
    ghost var free: seq<nat>
    ghost var roots: set<nat>

    ghost function Value(): Vm
      reads this
    {
      Vm(mem, free, roots, start)
    }

    ghost predicate Valid()
      reads this
    {
      Inv(Value()) && Chained(mem, freelist, free)
    }

    /** kinit: freerange over the frames from start on. No directory is in use yet. */
    constructor (n: nat, start: nat)
      requires 0 < start <= n
      ensures Valid() && roots == {} && |mem| == n && this.start == start
      ensures |free| == n - start && forall g: nat :: g in free <==> start <= g < n
    {
      mem := seq(n, _ => Filled(0));
      freelist := 0;
      this.start := start;
      free, roots := [], {};
      new;
      for f := start to n
        invariant Valid() && roots == {} && |mem| == n && |free| == f - start
        invariant forall g: nat :: g in free <==> start <= g < f
      {
        GivenInv(Value(), f);
        var ok := Kfree(f);
      }
    }

    /** kalloc. */
    method Kalloc() returns (r: nat)
      requires Valid()
      modifies this`freelist, this`free
      ensures Valid()
      ensures if old(free) == [] then r == 0 && Value() == old(Value()) else r == old(free)[0] && Value() == Taken(old(Value()))
      ensures r == old(freelist) && (r != 0 ==> r < |mem| && freelist == mem[r][0])
    {
      r := freelist;
      assert free != [] ==> Managed(Value(), free[0]);
      if r != 0 {
        ChainedTail(mem, freelist, free);
        TakenInv(Value());
        freelist := mem[r][0];
        free := free[1..];
      }
    }

    /** kfree; false is its panic. */
    method Kfree(f: nat) returns (ok: bool)
      requires Chained(mem, freelist, free) && f !in free
      modifies this`mem, this`freelist, this`free
      ensures Chained(mem, freelist, free) && (ok <==> Managed(old(Value()), f))
      ensures ok ==> f < |old(mem)| && Value() == Given(old(Value()), f)
      ensures ok ==> freelist == f && mem[f][0] == old(freelist) && forall k :: 1 <= k < 1024 ==> mem[f][k] == 0x0101_0101
      ensures !ok ==> Value() == old(Value())
    {
      if f < start || f >= |mem| {
        return false;
      }
      ChainedPush(mem, freelist, free, f);
      mem := mem[f := Junk(freelist)];
      free := [f] + free;
      freelist := f;
      return true;
    }

    /** memset of a frame that is neither free nor held. */
    method Memset(f: nat, w: nat)
      requires Valid() && Managed(Value(), f) && f !in free && Unheld(Value(), f)
      modifies this`mem
      ensures Valid() && Value() == Write(old(Value()), f, Filled(w))
    {
      WriteFresh(Value(), f, Filled(w));
      ChainedWrite(mem, freelist, free, f, Filled(w));
      mem := mem[f := Filled(w)];
    }

    /** walkpgdir: the frame of the page table of page v, whose entry is v % 1024; 0 if
        there is none and none could be made. */
    method Walkpgdir(d: nat, v: nat, alloc: bool) returns (t: nat)
      requires Valid() && d in roots && v < PAGES
      modifies this`mem, this`freelist, this`free
      ensures Valid() && t == Table(Value(), d, v / 1024)
      ensures !alloc || old(free) == [] ==> Value() == old(Value())
      ensures Grew(old(Value()), Value(), d)
      ensures t == 0 ==> Value() == old(Value()) && (alloc ==> free == [])
      ensures t < |mem|
      ensures t != 0 ==> var pde := old(Dir(Value(), d, v / 1024));
        Dir(Value(), d, v / 1024) == if pde % 2 == 1 then pde else 4096 * t + 7
      ensures alloc && t != 0 ==> Costs(old(Value()), Value(), d, v, 1, 0)
    {
      InvFacts(Value());
      assert Holds(Value(), Root(d)) == d;
      assert Holds(Value(), Tab(d, v / 1024)) == Table(Value(), d, v / 1024);
      var pde := mem[d][v / 1024];
      if Present(pde) {
        CostsNothing(Value(), d, v, 1);
        return Frame(pde);
      }
      if !alloc {
        return 0;
      }

      ghost var vm := Value();
      t := Kalloc();
      if t == 0 {
        return;
      }
      var w := Entry(t, PTE_W + PTE_U);
      EntryIs(t, 6);
      NewTable(vm, d, v, w);
      TakenInv(vm);
      Memset(t, 0);
      ChainedWrite(mem, freelist, free, d, mem[d][v / 1024 := w]);
      mem := mem[d := mem[d][v / 1024 := w]];
    }

    /** mappages, from page v on, for n pages. Remap is its panic. */
    method Mappages(d: nat, v: nat, n: nat, pa: nat, perm: nat) returns (r: MapResult)
      requires Valid() && d in roots && Mappable(Value(), v, n, pa) && perm < PGSIZE
      modifies this`mem, this`freelist, this`free
      ensures Valid()
      ensures match r
        case Done => Mapped(old(Value()), Value(), d, v, n, pa, perm)
        case NoMemory => MapFailed(old(Value()), Value(), d, v, n, pa, perm)
        case Remap => !Unmapped(old(Value()), d, v, v + n)
    {
      ghost var vm := Value();
      MappagesStart(vm, d, v, pa, perm);
      var k: nat := 0;
      while true
        invariant Valid() && k < n && Mapped(vm, Value(), d, v, k, pa, perm)
        decreases n - k
      {
        r := MapNext(d, v, n, k, pa, perm, vm, k + 1);
        if !r.Done? || k == n - 1 {
          return;
        }
        k := k + 1;
      }
    }

    /** One turn of mappages' loop. */
    method MapNext(d: nat, v: nat, n: nat, k: nat, pa: nat, perm: nat, ghost vm: Vm, ghost next: nat) returns (r: MapResult)
      requires Valid() && d in roots && d in vm.roots && perm < PGSIZE && k < n && Mappable(vm, v, n, pa)
      requires Mapped(vm, Value(), d, v, k, pa, perm) && next == k + 1
      modifies this`mem, this`freelist, this`free
      ensures Valid()
      ensures match r
        case Done => Mapped(vm, Value(), d, v, next, pa, perm)
        case NoMemory => MapFailed(vm, Value(), d, v, n, pa, perm)
        case Remap => !Unmapped(vm, d, v, v + n)
    {
      ghost var vm0 := Value();
      var u, f := v + k, pa + k;
      StillStray(vm, vm0, d, v, n, k, pa, perm, u, f);
      r := MapPage(d, u, f, perm);
      if r.Done? {
        MapTurn(vm, vm0, Value(), d, v, k, pa, perm, u, f, next);
      } else {
        MapStopped(vm, vm0, d, v, n, k, pa, perm, u);
      }
    }

    /** One page of mappages. */
    method MapPage(d: nat, u: nat, f: nat, perm: nat) returns (r: MapResult)
      requires Valid() && d in roots && u < PAGES && perm < PGSIZE && (u < KERNPAGE ==> Stray(Value(), f))
      modifies this`mem, this`freelist, this`free
      ensures Valid()
      ensures r.Done? ==> OneMapped(old(Value()), Value(), d, u, f, perm)
      ensures r.NoMemory? ==> Value() == old(Value()) && free == [] && Table(Value(), d, u / 1024) == 0
      ensures r.Remap? ==> Present(Pte(old(Value()), d, u))
    {
      ghost var vm0 := Value();
      var t := Walkpgdir(d, u, true);
      if t == 0 {
        return NoMemory;
      }
      assert Pte(Value(), d, u) == mem[t][u % 1024] == Pte(vm0, d, u);
      if Present(mem[t][u % 1024]) {
        return Remap;
      }
      EntryAdded(vm0, Value(), d, u, f, perm);
      EntrySetCosts(vm0, Value(), d, u, Entry(f, perm));
      SetEntry(d, u, t, Entry(f, perm), EntrySet(Value(), d, u, Entry(f, perm)));
      return Done;
    }

    /** *pte = w in the page table t of page u. */
    method SetEntry(d: nat, u: nat, t: nat, w: nat, ghost vm: Vm)
      requires Valid() && d in roots && u < PAGES && t == Table(Value(), d, u / 1024) && 0 < t < |mem|
      requires Inv(vm) && vm == EntrySet(Value(), d, u, w)
      modifies this`mem
      ensures Valid() && Value() == vm
    {
      InvFacts(Value());
      assert Holds(Value(), Tab(d, u / 1024)) == t;
      ChainedWrite(mem, freelist, free, t, mem[t][u % 1024 := w]);
      mem := mem[t := mem[t][u % 1024 := w]];
    }

    /** deallocuvm, which leaves the size at newsz, or at oldsz if that is not more. */
    method Deallocuvm(d: nat, oldsz: nat, newsz: nat) returns (size: nat)
      requires Valid() && d in roots && oldsz <= KERNPAGE * 4096
      modifies this`mem, this`freelist, this`free
      ensures Valid() && size == if newsz < oldsz then newsz else oldsz
      ensures if newsz < oldsz then Shrunk(old(Value()), Value(), d, Pages(newsz), Pages(oldsz)) else Value() == old(Value())
    {
      if newsz >= oldsz {
        return oldsz;
      }

      ghost var vm, lo, hi := Value(), Pages(newsz), Pages(oldsz);
      var a := (newsz + 4095) / 4096;
      while a * 4096 < oldsz
        invariant Valid() && lo <= a && Shrunk(vm, Value(), d, lo, if a < hi then a else hi)
        decreases oldsz - a * 4096
      {
        ghost var vm1, was := Value(), a;
        a := ReleaseNext(d, a, hi);
        ShrunkTrans(vm, vm1, Value(), d, lo, was, if a < hi then a else hi);
      }
      return newsz;
    }

    /** One turn of deallocuvm's loop; where a page table is absent it goes to the next one. */
    method ReleaseNext(d: nat, a: nat, ghost hi: nat) returns (next: nat)
      requires Valid() && d in roots && a < hi <= KERNPAGE
      modifies this`mem, this`freelist, this`free
      ensures Valid() && a < next && Shrunk(old(Value()), Value(), d, a, if next < hi then next else hi)
    {
      next := a + 1;
      var t := Walkpgdir(d, a, false);
      if t == 0 {
        next := (a / 1024 + 1) * 1024;
        ShrunkSkip(Value(), d, a, if next < hi then next else hi);
      } else if Present(mem[t][a % 1024]) {
        Release(d, a, t);
      } else {
        ShrunkNone(Value(), d, a);
      }
    }

    /** Free the frame of a present page, then clear its entry. */
    method Release(d: nat, v: nat, t: nat)
      requires Valid() && d in roots && v < KERNPAGE && t == Table(Value(), d, v / 1024) && 0 < t < |mem|
      requires Present(mem[t][v % 1024])
      modifies this`mem, this`freelist, this`free
      ensures Valid() && Shrunk(old(Value()), Value(), d, v, v + 1)
    {
      ghost var vm := Value();
      var f := Frame(mem[t][v % 1024]);
      ShrunkPage(vm, d, v);
      InvFacts(vm);
      assert Holds(vm, User(d, v)) == f && Holds(vm, Tab(d, v / 1024)) == t;
      PageUnmapped(vm, d, v);
      var ok := Kfree(f);
      ghost var vm1 := Value();
      mem := mem[t := mem[t][v % 1024 := 0]];
      assert Value() == Given(EntrySet(vm, d, v, 0), f);
      ChainedWrite(vm1.mem, freelist, free, t, mem[t]);
    }

    /** allocuvm: the new size, or 0 if out of memory or not below KERNBASE. */
    method Allocuvm(d: nat, oldsz: nat, newsz: nat) returns (r: AllocResult)
      requires Valid() && d in roots
      modifies this`mem, this`freelist, this`free
      ensures Valid()
      ensures newsz >= KERNPAGE * 4096 ==> r == Size(0) && Value() == old(Value())
      ensures newsz < oldsz && newsz < KERNPAGE * 4096 ==> r == Size(oldsz) && Value() == old(Value())
      ensures oldsz <= newsz < KERNPAGE * 4096 ==> Allocated(old(Value()), Value(), d, Pages(oldsz), Pages(newsz), newsz, r)
    {
      if newsz >= KERNPAGE * 4096 {
        return Size(0);
      }
      if newsz < oldsz {
        return Size(oldsz);
      }

      r := AllocPages(d, oldsz, newsz, Pages(oldsz), Pages(newsz));
    }

    /** allocuvm's loop. */
    method AllocPages(d: nat, oldsz: nat, newsz: nat, ghost lo: nat, ghost hi: nat) returns (r: AllocResult)
      requires Valid() && d in roots && oldsz <= newsz < KERNPAGE * 4096 && lo == Pages(oldsz) && hi == Pages(newsz)
      modifies this`mem, this`freelist, this`free
      ensures Valid() && Allocated(old(Value()), Value(), d, lo, hi, newsz, r)
    {
      ghost var vm0 := Value();
      GrownNone(vm0, d, lo);
      var a := (oldsz + 4095) / 4096;
      PageBelow(a, newsz);
      while a * 4096 < newsz
        invariant Valid() && lo <= a <= hi && GrownPart(vm0, Value(), d, lo, a) && (a * 4096 < newsz <==> a < hi)
        decreases newsz - a * 4096
      {
        var m, f := AllocPage(d, a, vm0, lo);
        if !m.Done? {
          r := AllocStops(d, oldsz, newsz, m, f, vm0, a, lo, hi);
          return;
        }
        a := a + 1;
        PageBelow(a, newsz);
      }
      r := Size(newsz);
      AllocSucceeds(vm0, Value(), d, lo, hi, newsz);
    }

    /** allocuvm on the way out, when page a could not be had. */
    method AllocStops(d: nat, oldsz: nat, newsz: nat, m: MapResult, f: nat, ghost vm0: Vm, ghost a: nat, ghost lo: nat, ghost hi: nat) returns (r: AllocResult)
      requires Valid() && Inv(vm0) && d in vm0.roots && oldsz <= newsz < KERNPAGE * 4096 && lo == Pages(oldsz) && hi == Pages(newsz)
      requires lo <= a < hi && !m.Done?
      requires m.NoMemory? ==> UserGrown(vm0, Value(), d, lo, a, f) && (f != 0 ==> f in vm0.free) && OutAt(vm0, d, lo, a)
      requires m.Remap? ==> Present(Pte(vm0, d, a)) && Frames(vm0, d, lo, a) < |vm0.free|
      modifies this`mem, this`freelist, this`free
      ensures Valid() && Allocated(vm0, Value(), d, lo, hi, newsz, r)
    {
      if m.NoMemory? {
        Undo(d, newsz, oldsz, f, vm0, a);
      }
      r := if m.Remap? then Panic else Size(0);
      AllocEnds(vm0, Value(), d, lo, a, hi, newsz, r);
    }

    /** One turn of allocuvm's loop: kalloc, memset, mappages. */
    method AllocPage(d: nat, a: nat, ghost vm0: Vm, ghost lo: nat) returns (r: MapResult, f: nat)
      requires Valid() && Inv(vm0) && d in vm0.roots && lo <= a < KERNPAGE && GrownPart(vm0, Value(), d, lo, a)
      modifies this`mem, this`freelist, this`free
      ensures Valid()
      ensures r.Done? ==> GrownPart(vm0, Value(), d, lo, a + 1)
      ensures r.NoMemory? ==> UserGrown(vm0, Value(), d, lo, a, f) && (f != 0 ==> f in vm0.free) && OutAt(vm0, d, lo, a)
      ensures r.Remap? ==> Present(Pte(vm0, d, a)) && Frames(vm0, d, lo, a) < |vm0.free|
    {
      f := NewFrame(d, a, vm0, lo);
      if f == 0 {
        return NoMemory, 0;
      }
      ghost var vm2 := Value();
      SameRoots(vm0, vm2);
      r := Mappages(d, a, 1, f, PTE_W + PTE_U);
      if r.Done? {
        PageNext(vm0, vm2, Value(), d, lo, a, f);
      } else if r.NoMemory? {
        PageFails(vm0, vm2, Value(), d, lo, a, f);
      }
    }

    /** kalloc and memset in allocuvm; 0 if there is no memory. */
    method NewFrame(d: nat, a: nat, ghost vm0: Vm, ghost lo: nat) returns (f: nat)
      requires Valid() && Inv(vm0) && d in vm0.roots && lo <= a < KERNPAGE && GrownPart(vm0, Value(), d, lo, a)
      modifies this`mem, this`freelist, this`free
      ensures Valid()
      ensures f == 0 ==> UserGrown(vm0, Value(), d, lo, a, 0) && OutAt(vm0, d, lo, a)
      ensures f != 0 ==> GrownHolding(vm0, Value(), d, lo, a, f) && Mappable(Value(), a, 1, f)
      ensures f != 0 ==> Pte(Value(), d, a) == Pte(vm0, d, a) && Frames(vm0, d, lo, a) < |vm0.free|
    {
      ghost var vm := Value();
      f := Kalloc();
      if f == 0 {
        OutOfFrames(vm0, vm, d, lo, a);
      } else {
        FrameTaken(vm0, vm, d, lo, a);
        TakenInv(vm);
        Memset(f, 0);
        FrameHeld(vm0, vm, Value(), d, lo, a);
      }
    }

    /** The way out of allocuvm when memory runs out. */
    method Undo(d: nat, newsz: nat, oldsz: nat, f: nat, ghost vm0: Vm, ghost a: nat)
      requires Valid() && Inv(vm0) && d in vm0.roots && oldsz <= newsz < KERNPAGE * 4096
      requires Pages(oldsz) <= a < Pages(newsz)
      requires UserGrown(vm0, Value(), d, Pages(oldsz), a, f) && (f != 0 ==> f in vm0.free)
      modifies this`mem, this`freelist, this`free
      ensures Valid() && Cleared(vm0, Value(), d, Pages(oldsz), Pages(newsz), 0)
    {
      ghost var vm := Value();
      SameRoots(vm0, vm);
      var size := Deallocuvm(d, newsz, oldsz);
      UndoGrowth(vm0, vm, Value(), d, Pages(oldsz), a, Pages(newsz), f);
      if f != 0 {
        assert Stray(Value(), f);
        LostGiven(vm0, Value(), d, Pages(oldsz), Pages(newsz), f);
        GivenInv(Value(), f);
        var ok := Kfree(f);
      }
    }

    /** setupkvm: a directory with the kernel's mappings. It fails, with 0, exactly when the
        frames do not suffice; the directory and its page tables are then lost, and with
        them all that was free. */
    method Setupkvm(kmap: seq<Kmap>) returns (d: nat)
      requires Valid() && GoodKmap(kmap)
      modifies this`mem, this`freelist, this`free, this`roots
      ensures Valid()
      ensures d == 0 <==> |old(free)| < 1 + KernelTables(kmap)
      ensures d != 0 ==> KernelPart(old(Value()), Value(), d, kmap, |kmap|)
      ensures d == 0 ==> Exhausted(old(Value()), Value())
    {
      ghost var vm0 := Value();
      d := Kalloc();
      if d == 0 {
        NothingLeft(vm0);
        return;
      }
      TakenInv(vm0);
      Memset(d, 0);
      KernelStart(vm0, kmap);
      roots := roots + {d};
      for k := 0 to |kmap|
        invariant Valid() && KernelPart(vm0, Value(), d, kmap, k)
      {
        var ok := MapKernel(d, kmap, k, vm0);
        if !ok {
          roots := roots - {d};
          return 0;
        }
      }
      KernelComplete(vm0, Value(), d, kmap);
    }

    /** One entry of kmap. */
    method MapKernel(d: nat, kmap: seq<Kmap>, k: nat, ghost vm0: Vm) returns (ok: bool)
      requires Valid() && Inv(vm0) && GoodKmap(kmap) && k < |kmap| && KernelPart(vm0, Value(), d, kmap, k)
      modifies this`mem, this`freelist, this`free
      ensures Valid()
      ensures ok ==> KernelPart(vm0, Value(), d, kmap, k + 1)
      ensures !ok ==> Exhausted(vm0, Dropped(Value(), d)) && |vm0.free| < 1 + KernelTables(kmap)
    {
      ghost var vm := Value();
      var e := kmap[k];
      KernelReady(vm0, vm, d, kmap, k);
      var r := Mappages(d, e.virt, e.n, e.phys, e.perm);
      ok := r.Done?;
      if ok {
        KernelNext(vm0, vm, Value(), d, kmap, k);
      } else {
        KernelFails(vm0, vm, Value(), d, kmap, k);
      }
    }

    /** freevm. */
    method Freevm(d: nat)
      requires Valid() && d in roots
      modifies this`mem, this`freelist, this`free, this`roots
      ensures Valid() && Gone(old(Value()), Value(), d)
    {
      ghost var vm0 := Value();
      InvFacts(vm0);
      assert Holds(vm0, Root(d)) == d;
      var size := Deallocuvm(d, KERNPAGE * 4096, 0);
      ghost var vm := Value();
      InvFacts(vm);
      FreeingStart(vm, d);
      roots := roots - {d};
      for i := 0 to ENTRIES
        invariant Valid() && Freeing(vm, Value(), d, i)
      {
        assert Dir(Value(), d, i) == Dir(vm, d, i) && Holds(vm, Tab(d, i)) == Table(vm, d, i);
        if Present(mem[d][i]) {
          var t := Frame(mem[d][i]);
          FreeingOne(vm, Value(), d, i, t);
          var ok := Kfree(t);
        } else {
          FreeingNone(vm, Value(), d, i);
        }
      }
      FreeingEnd(vm, Value(), d);
      var ok := Kfree(d);
      ShrunkGone(vm0, vm, Value(), d);
    }

    /** copyuvm. NotPresent is its panic, NoDirectory the failure of setupkvm. `lost` is the
        frame that a failed mappages leaves behind: the last of the free list, in the cases
        that LosesOne names. */
    method Copyuvm(d: nat, sz: nat, kmap: seq<Kmap>) returns (r: CopyResult, ghost lost: nat)
      requires Valid() && d in roots && sz <= KERNPAGE * 4096 && GoodKmap(kmap)
      modifies this`mem, this`freelist, this`free, this`roots
      ensures Valid()
      ensures CopyOutcome(old(Value()), Value(), d, Pages(sz), kmap, r, lost)
    {
      ghost var vm0 := Value();
      var c := Setupkvm(kmap);
      if c == 0 {
        CopyNotBegun(vm0, Value(), d, Pages(sz), kmap);
        return NoDirectory, 0;
      }
      CopyStart(vm0, Value(), d, c, kmap);
      r, lost := CopyPages(d, c, sz, vm0, kmap);
    }

    /** copyuvm's loop. */
    method CopyPages(d: nat, c: nat, sz: nat, ghost vm0: Vm, ghost kmap: seq<Kmap>) returns (r: CopyResult, ghost lost: nat)
      requires Valid() && Inv(vm0) && d in vm0.roots && sz <= KERNPAGE * 4096 && GoodKmap(kmap) && CopyPart(vm0, Value(), d, c, kmap, 0)
      modifies this`mem, this`freelist, this`free, this`roots
      ensures Valid() && CopyOutcome(vm0, Value(), d, Pages(sz), kmap, r, lost)
    {
      ghost var n := Pages(sz);
      r, lost := Copied(c), 0;
      var i := 0;
      PageBelow(i, sz);
      while i * 4096 < sz
        invariant r == Copied(c) && lost == 0
        invariant Valid() && i <= n && CopyPart(vm0, Value(), d, c, kmap, i) && (i * 4096 < sz <==> i < n)
      {
        r, lost := CopyTurn(d, c, i, vm0, kmap);
        if !r.Copied? {
          break;
        }
        i := i + 1;
        PageBelow(i, sz);
      }
      CopyEnding(d, c, r, i, n, vm0, kmap, lost);
    }

    /** The end of copyuvm: what was copied is given back, if memory ran out. */
    method CopyEnding(d: nat, c: nat, r: CopyResult, ghost i: nat, ghost n: nat, ghost vm0: Vm, ghost kmap: seq<Kmap>, ghost lost: nat)
      requires Valid() && Inv(vm0) && d in vm0.roots && i <= n <= KERNPAGE && GoodKmap(kmap) && (r.Copied? ==> r == Copied(c) && lost == 0)
      requires if r.Copied? then i == n && CopyPart(vm0, Value(), d, c, kmap, n)
        else i < n && (r.OutOfMemory? || r.NotPresent?) && (r.OutOfMemory? <==> Present(Pte(vm0, d, i)))
      requires r.OutOfMemory? ==> CopyStopped(vm0, Value(), d, c, kmap, i, lost) && c in roots
      requires r.NotPresent? ==> lost == 0 && Needed(kmap, i) <= |vm0.free|
      modifies this`mem, this`freelist, this`free, this`roots
      ensures Valid() && CopyOutcome(vm0, Value(), d, n, kmap, r, lost)
    {
      if r.Copied? {
        CopyComplete(vm0, Value(), d, c, kmap, n);
      } else if r.NotPresent? {
        CopyPanics(vm0, Value(), d, i, n, kmap);
      } else {
        ghost var vm := Value();
        Freevm(c);
        CopyEnds(vm0, vm, Value(), d, c, kmap, i, lost, n);
      }
    }

    /** One turn of copyuvm's loop, to the failure if there is one. */
    method CopyTurn(d: nat, c: nat, i: nat, ghost vm0: Vm, ghost kmap: seq<Kmap>) returns (r: CopyResult, ghost lost: nat)
      requires Valid() && Inv(vm0) && d in vm0.roots && i < KERNPAGE && GoodKmap(kmap) && CopyPart(vm0, Value(), d, c, kmap, i)
      modifies this`mem, this`freelist, this`free
      ensures Valid() && !r.NoDirectory? && (r.Copied? || r.OutOfMemory? <==> Present(Pte(vm0, d, i)))
      ensures r.Copied? ==> r == Copied(c) && lost == 0 && CopyPart(vm0, Value(), d, c, kmap, i + 1)
      ensures r.OutOfMemory? ==> CopyStopped(vm0, Value(), d, c, kmap, i, lost) && c in roots
      ensures r.NotPresent? ==> lost == 0 && Needed(kmap, i) <= |vm0.free|
    {
      lost := 0;
      CopyPartFacts(vm0, Value(), d, c, kmap, i);
      var t := Walkpgdir(d, i, false);
      if t == 0 || !Present(mem[t][i % 1024]) {
        return NotPresent, 0;
      }
      var ok;
      ok, lost := CopyPage(d, c, i, mem[t][i % 1024], vm0, kmap);
      r := if ok then Copied(c) else OutOfMemory;
      if !ok {
        CopyDropped(vm0, Value(), d, c, kmap, i, lost);
      }
    }

    /** The frame of a page and its mapping. */
    method CopyPage(d: nat, c: nat, i: nat, pte: nat, ghost vm0: Vm, ghost kmap: seq<Kmap>) returns (ok: bool, ghost lost: nat)
      requires Valid() && Inv(vm0) && d in vm0.roots && i < KERNPAGE && GoodKmap(kmap)
      requires CopyPart(vm0, Value(), d, c, kmap, i) && Present(pte) && pte == Pte(vm0, d, i)
      modifies this`mem, this`freelist, this`free
      ensures Valid()
      ensures ok ==> lost == 0 && CopyPart(vm0, Value(), d, c, kmap, i + 1)
      ensures !ok ==> CopyStopped(vm0, Value(), d, c, kmap, i, lost)
    {
      var pa, flags := Frame(pte), Flags(pte);
      PageParts(vm0, d, i);
      var f := CopyFrame(d, c, i, pa, vm0, kmap);
      if f == 0 {
        return false, 0;
      }
      ok := MapCopy(d, c, i, f, flags, vm0, kmap);
      lost := if ok then 0 else f;
    }

    /** mappages in copyuvm. */
    method MapCopy(d: nat, c: nat, i: nat, f: nat, flags: nat, ghost vm0: Vm, ghost kmap: seq<Kmap>) returns (ok: bool)
      requires Valid() && Inv(vm0) && d in vm0.roots && i < KERNPAGE && GoodKmap(kmap)
      requires CopyHolding(vm0, Value(), d, c, kmap, i, f) && At(Value(), f) == At(vm0, Frame(Pte(vm0, d, i)))
      requires Present(Pte(vm0, d, i)) && flags == Flags(Pte(vm0, d, i)) < PGSIZE && Present(flags)
      modifies this`mem, this`freelist, this`free
      ensures Valid()
      ensures if ok then CopyPart(vm0, Value(), d, c, kmap, i + 1) else CopyStopped(vm0, Value(), d, c, kmap, i, f)
    {
      ghost var vm2 := Value();
      CopyReady(vm0, vm2, d, c, kmap, i, f);
      var r := Mappages(c, i, 1, f, flags);
      ok := r.Done?;
      if ok {
        CopyNext(vm0, vm2, Value(), d, c, kmap, i, f, flags);
      } else {
        CopyFails(vm0, vm2, Value(), d, c, kmap, i, f, flags);
      }
    }

    /** kalloc and memmove in copyuvm; 0 if there is no memory. */
    method CopyFrame(d: nat, c: nat, i: nat, pa: nat, ghost vm0: Vm, ghost kmap: seq<Kmap>) returns (f: nat)
      requires Valid() && Inv(vm0) && i < KERNPAGE && GoodKmap(kmap) && CopyPart(vm0, Value(), d, c, kmap, i) && Plain(vm0, pa)
      modifies this`mem, this`freelist, this`free
      ensures Valid()
      ensures f == 0 ==> CopyStopped(vm0, Value(), d, c, kmap, i, 0)
      ensures f != 0 ==> CopyHolding(vm0, Value(), d, c, kmap, i, f) && At(Value(), f) == At(vm0, pa)
    {
      ghost var vm := Value();
      assert Plain(vm, pa);
      CopyNoFrame(vm0, vm, d, c, kmap, i);
      f := Kalloc();
      if f != 0 {
        HoldingTaken(vm0, vm, d, c, kmap, i, mem[pa]);
        TakenInv(vm);
        Memmove(f, pa);
      }
    }

    /** memmove of a whole frame into one that is neither free nor held. */
    method Memmove(f: nat, from: nat)
      requires Valid() && Managed(Value(), f) && f !in free && Unheld(Value(), f) && from < |mem|
      modifies this`mem
      ensures Valid() && Value() == Write(old(Value()), f, old(mem[from]))
    {
      WriteFresh(Value(), f, mem[from]);
      ChainedWrite(mem, freelist, free, f, mem[from]);
      mem := mem[f := mem[from]];
    }
  }

  // ----- A state in which copyuvm loses a frame -----

  /** 133 frames: a directory with the kernel's half takes 65, and its first page 2. For the
      copy there are a directory with the kernel's half and one frame, which is lost. */
  method LosesAFrame(data: nat) returns (m: Memory, ghost lost: nat)
    requires KERNLINK < data < KERNPAGE + PHYSTOP
    ensures fresh(m) && m.Valid() && Stray(m.Value(), lost)
  {
    var kmap := Xv6Kmap(data);
    Xv6Good(data);
    Xv6Tables(data);
    m := new Memory(134, 1);
    var d := m.Setupkvm(kmap);
    ghost var vm := m.Value();
    FirstPage(vm, d, kmap);
    var a := m.Allocuvm(d, 0, 4096);
    FirstPageGrown(vm, m.Value(), d, kmap, a);
    var r;
    r, lost := m.Copyuvm(d, 4096, kmap);
  }

  /** Ten frames are too few for the kernel's half: all of them are lost. */
  method LosesAllFrames(data: nat) returns (m: Memory)
    requires KERNLINK < data < KERNPAGE + PHYSTOP
    ensures fresh(m) && m.Valid() && m.free == [] && forall g: nat :: 1 <= g < 11 ==> Stray(m.Value(), g)
  {
    var kmap := Xv6Kmap(data);
    Xv6Good(data);
    Xv6Tables(data);
    m := new Memory(11, 1);
    var d := m.Setupkvm(kmap);
  }
}

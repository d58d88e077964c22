/** How many frames page tables take: each operation takes frames off the front of the free
    list, one for every page and one for every page table that is not there yet. */
module FrameCounts {
  import opened PageTables

  // ----- Page tables -----

  /** The directory entry i is among those for n pages from v on. */
  predicate InSpan(v: nat, n: nat, i: nat) {
    n > 0 && v / 1024 <= i <= (v + n - 1) / 1024
  }

  /** Entry i will have a page table once n pages from v on are mapped. */
  predicate Wants(vm: Vm, d: nat, v: nat, n: nat, i: nat) {
    Table(vm, d, i) != 0 || InSpan(v, n, i)
  }

  /** How many of the entries 0 .. k - 1 will. */
  function WantedBelow(vm: Vm, d: nat, v: nat, n: nat, k: nat): nat {
    if k == 0 then 0 else WantedBelow(vm, d, v, n, k - 1) + if Wants(vm, d, v, n, k - 1) then 1 else 0
  }

  function Wanted(vm: Vm, d: nat, v: nat, n: nat): nat {
    WantedBelow(vm, d, v, n, ENTRIES)
  }

  /** How many page tables directory d has. */
  function Tables(vm: Vm, d: nat): nat {
    Wanted(vm, d, 0, 0)
  }

  lemma {:induction false} SameWanted(vm: Vm, v: nat, n: nat, vm': Vm, v': nat, n': nat, d: nat, k: nat)
    requires forall i: nat :: i < k ==> (Wants(vm, d, v, n, i) <==> Wants(vm', d, v', n', i))
    ensures WantedBelow(vm, d, v, n, k) == WantedBelow(vm', d, v', n', k)
  {
    if k > 0 {
      SameWanted(vm, v, n, vm', v', n', d, k - 1);
    }
  }

  /** More pages want no fewer tables. */
  lemma {:induction false} WantedGrows(vm: Vm, d: nat, v: nat, m: nat, n: nat, k: nat)
    requires m <= n
    ensures WantedBelow(vm, d, v, m, k) <= WantedBelow(vm, d, v, n, k)
  {
    if k > 0 {
      WantedGrows(vm, d, v, m, n, k - 1);
    }
  }

  /** Entry i has come to want one, if it did not want one already. */
  lemma {:induction false} WantedNext(vm: Vm, v: nat, n: nat, vm': Vm, v': nat, n': nat, d: nat, k: nat, i: nat)
    requires i < k && forall j: nat :: j < k ==> (Wants(vm', d, v', n', j) <==> Wants(vm, d, v, n, j) || j == i)
    ensures WantedBelow(vm', d, v', n', k) == WantedBelow(vm, d, v, n, k) + if Wants(vm, d, v, n, i) then 0 else 1
  {
    if i < k - 1 {
      WantedNext(vm, v, n, vm', v', n', d, k - 1, i);
    } else {
      SameWanted(vm, v, n, vm', v', n', d, k - 1);
    }
  }

  lemma WantedMore(vm: Vm, d: nat, v: nat, n: nat)
    requires v + n < PAGES
    ensures Wanted(vm, d, v, n + 1) == Wanted(vm, d, v, n) + if Wants(vm, d, v, n, (v + n) / 1024) then 0 else 1
  {
    WantedNext(vm, v, n, vm, v, n + 1, d, ENTRIES, (v + n) / 1024);
  }

  lemma WantedNone(vm: Vm, d: nat, v: nat)
    ensures Wanted(vm, d, v, 0) == Tables(vm, d)
  {
    SameWanted(vm, v, 0, vm, 0, 0, d, ENTRIES);
  }

  // ----- Frames taken -----

  /** The first k free frames have been taken. */
  ghost predicate Popped(vm: Vm, vm': Vm, k: int) {
    0 <= k <= |vm.free| && vm'.free == vm.free[k..]
  }

  ghost predicate TableGrew(vm: Vm, vm': Vm, d: nat, v: nat, n: nat, i: nat) {
    i < ENTRIES ==> (Table(vm', d, i) != 0 <==> Wants(vm, d, v, n, i))
  }

  /** Directory d has got the page tables for n pages from v on, and besides them `pages`
      frames were taken. */
  ghost predicate Costs(vm: Vm, vm': Vm, d: nat, v: nat, n: nat, pages: nat) {
    && (forall i: nat :: TableGrew(vm, vm', d, v, n, i))
    && Popped(vm, vm', pages + Tables(vm', d) - Tables(vm, d))
  }

  lemma PoppedTwice(vm: Vm, vm1: Vm, vm2: Vm, j: int, k: int)
    requires Popped(vm, vm1, j) && Popped(vm1, vm2, k)
    ensures Popped(vm, vm2, j + k)
  {
    assert vm.free[j..][k..] == vm.free[j + k..];
  }

  lemma SameTables(vm: Vm, vm': Vm, d: nat)
    requires forall i: nat :: i < ENTRIES ==> Dir(vm', d, i) == Dir(vm, d, i)
    ensures Tables(vm', d) == Tables(vm, d) && forall i: nat :: i < ENTRIES ==> Table(vm', d, i) == Table(vm, d, i)
  {
    forall i: nat | i < ENTRIES ensures Table(vm', d, i) == Table(vm, d, i) {
      assert Dir(vm', d, i) == Dir(vm, d, i);
    }
    SameWanted(vm, 0, 0, vm', 0, 0, d, ENTRIES);
  }

  lemma CostsNothing(vm: Vm, d: nat, v: nat, n: nat)
    requires n == 0 || (n == 1 && Table(vm, d, v / 1024) != 0)
    ensures Costs(vm, vm, d, v, n, 0)
  {
    forall i: nat ensures TableGrew(vm, vm, d, v, n, i) {
    }
  }

  /** After n pages, m more. */
  lemma CostsJoin(vm: Vm, vm1: Vm, vm2: Vm, d: nat, v: nat, n: nat, p: nat, u: nat, m: nat, q: nat, k: nat)
    requires Costs(vm, vm1, d, v, n, p) && Costs(vm1, vm2, d, u, m, q) && u == v + n && k == n + m
    ensures Costs(vm, vm2, d, v, k, p + q)
  {
    forall i: nat ensures TableGrew(vm, vm2, d, v, k, i) {
      assert TableGrew(vm, vm1, d, v, n, i) && TableGrew(vm1, vm2, d, u, m, i);
    }
    PoppedTwice(vm, vm1, vm2, p + Tables(vm1, d) - Tables(vm, d), q + Tables(vm2, d) - Tables(vm1, d));
  }

  lemma CostsWanted(vm: Vm, vm': Vm, d: nat, v: nat, n: nat, pages: nat)
    requires Costs(vm, vm', d, v, n, pages)
    ensures Tables(vm', d) == Wanted(vm, d, v, n)
  {
    forall i: nat | i < ENTRIES ensures Wants(vm', d, 0, 0, i) <==> Wants(vm, d, v, n, i) {
      assert TableGrew(vm, vm', d, v, n, i);
    }
    SameWanted(vm', 0, 0, vm, v, n, d, ENTRIES);
  }

  /** The table for page v + k is wanted and not there. */
  lemma CostsMore(vm: Vm, vm': Vm, d: nat, v: nat, k: nat, pages: nat, n: nat)
    requires Costs(vm, vm', d, v, k, pages) && k < n && v + n <= PAGES && Table(vm', d, (v + k) / 1024) == 0
    ensures Wanted(vm, d, v, n) > Tables(vm', d)
  {
    CostsWanted(vm, vm', d, v, k, pages);
    assert TableGrew(vm, vm', d, v, k, (v + k) / 1024);
    WantedMore(vm, d, v, k);
    WantedGrows(vm, d, v, k + 1, n, ENTRIES);
  }

  // ----- The kernel's half -----

  /** One entry of kmap, in pages. */
  datatype Kmap = Kmap(virt: nat, phys: nat, n: nat, perm: nat)

  predicate KernelRange(e: Kmap) {
    KERNPAGE <= e.virt && 0 < e.n && e.virt + e.n <= PAGES && e.perm < PGSIZE
  }

  ghost predicate GoodKmap(kmap: seq<Kmap>) {
    && (forall k :: 0 <= k < |kmap| ==> KernelRange(kmap[k]))
    && forall j, k :: 0 <= j < k < |kmap| ==> kmap[j].virt + kmap[j].n <= kmap[k].virt
  }

  /** The directory entry i is among those of the first k ranges. */
  predicate InKernel(kmap: seq<Kmap>, k: nat, i: nat)
    requires k <= |kmap|
  {
    k > 0 && (InKernel(kmap, k - 1, i) || InSpan(kmap[k - 1].virt, kmap[k - 1].n, i))
  }

  function KernelBelow(kmap: seq<Kmap>, k: nat): nat {
    if k == 0 then 0 else KernelBelow(kmap, k - 1) + if InKernel(kmap, |kmap|, k - 1) then 1 else 0
  }

  function KernelTables(kmap: seq<Kmap>): nat {
    KernelBelow(kmap, ENTRIES)
  }

  lemma {:induction false} InKernelHigh(kmap: seq<Kmap>, k: nat, i: nat)
    requires k <= |kmap| && GoodKmap(kmap) && InKernel(kmap, k, i)
    ensures KERNPAGE / 1024 <= i
  {
    assert KernelRange(kmap[k - 1]);
    if InKernel(kmap, k - 1, i) {
      InKernelHigh(kmap, k - 1, i);
    }
  }

  lemma {:induction false} InKernelGrows(kmap: seq<Kmap>, j: nat, k: nat, i: nat)
    requires j <= k <= |kmap| && InKernel(kmap, j, i)
    ensures InKernel(kmap, k, i)
  {
    if j < k {
      InKernelGrows(kmap, j, k - 1, i);
    }
  }

  /** d has the page tables of the first k ranges, and of n user pages. */
  ghost predicate KernelTable(vm: Vm, d: nat, kmap: seq<Kmap>, k: nat, n: nat, i: nat)
    requires k <= |kmap|
  {
    i < ENTRIES ==> (Table(vm, d, i) != 0 <==> InKernel(kmap, k, i) || InSpan(0, n, i))
  }

  ghost predicate KernelHas(vm: Vm, d: nat, kmap: seq<Kmap>, k: nat, n: nat)
    requires k <= |kmap|
  {
    forall i: nat :: KernelTable(vm, d, kmap, k, n, i)
  }

  lemma KernelHasNext(vm: Vm, vm': Vm, d: nat, kmap: seq<Kmap>, k: nat)
    requires k < |kmap| && KernelHas(vm, d, kmap, k, 0) && Costs(vm, vm', d, kmap[k].virt, kmap[k].n, 0)
    ensures KernelHas(vm', d, kmap, k + 1, 0)
  {
    var m := k + 1;
    forall i: nat ensures KernelTable(vm', d, kmap, m, 0, i) {
      assert KernelTable(vm, d, kmap, k, 0, i) && TableGrew(vm, vm', d, kmap[k].virt, kmap[k].n, i);
    }
  }

  lemma UserHasNext(vm: Vm, vm': Vm, d: nat, kmap: seq<Kmap>, n: nat)
    requires KernelHas(vm, d, kmap, |kmap|, n) && Costs(vm, vm', d, n, 1, 0)
    ensures KernelHas(vm', d, kmap, |kmap|, n + 1)
  {
    var m := n + 1;
    forall i: nat ensures KernelTable(vm', d, kmap, |kmap|, m, i) {
      assert KernelTable(vm, d, kmap, |kmap|, n, i) && TableGrew(vm, vm', d, n, 1, i);
    }
  }

  /** Nor do the tables wanted for range k exceed the kernel's. */
  lemma {:induction false} KernelWanted(vm: Vm, d: nat, kmap: seq<Kmap>, k: nat, m: nat)
    requires k < |kmap| && KernelHas(vm, d, kmap, k, 0) && m <= ENTRIES
    ensures WantedBelow(vm, d, kmap[k].virt, kmap[k].n, m) <= KernelBelow(kmap, m)
  {
    if m > 0 {
      KernelWanted(vm, d, kmap, k, m - 1);
      assert KernelTable(vm, d, kmap, k, 0, m - 1);
      if InKernel(kmap, k + 1, m - 1) {
        InKernelGrows(kmap, k + 1, |kmap|, m - 1);
      }
    }
  }

  // ----- The frames of a copy -----

  /** n / 1024, rounded up. */
  function TablesFor(n: nat): nat {
    (n + 1023) / 1024
  }

  lemma Rounded(n: nat)
    ensures TablesFor(n + 1) == n / 1024 + 1
    ensures TablesFor(n) == if n % 1024 == 0 then n / 1024 else n / 1024 + 1
  {
  }

  lemma InFirst(n: nat, i: nat)
    ensures InSpan(0, n, i) <==> i < TablesFor(n)
  {
  }

  /** The frames that a copy of the first n pages takes: the directory, the kernel's tables,
      the pages, and a table for every 1024 of them. */
  function Needed(kmap: seq<Kmap>, n: nat): nat {
    1 + KernelTables(kmap) + n + TablesFor(n)
  }

  lemma TablesCopied(vm: Vm, d: nat, kmap: seq<Kmap>, n: nat)
    requires GoodKmap(kmap) && n <= KERNPAGE && KernelHas(vm, d, kmap, |kmap|, n)
    ensures Tables(vm, d) == KernelTables(kmap) + TablesFor(n)
  {
    TablesBelow(vm, d, kmap, n, ENTRIES);
  }

  lemma {:induction false} TablesBelow(vm: Vm, d: nat, kmap: seq<Kmap>, n: nat, k: nat)
    requires GoodKmap(kmap) && n <= KERNPAGE && KernelHas(vm, d, kmap, |kmap|, n) && k <= ENTRIES
    ensures WantedBelow(vm, d, 0, 0, k) == KernelBelow(kmap, k) + if k < TablesFor(n) then k else TablesFor(n)
  {
    if k > 0 {
      TablesBelow(vm, d, kmap, n, k - 1);
      OneTable(vm, d, kmap, n, k - 1);
    }
  }

  /** A table is the kernel's or the user's. */
  lemma OneTable(vm: Vm, d: nat, kmap: seq<Kmap>, n: nat, i: nat)
    requires GoodKmap(kmap) && n <= KERNPAGE && KernelHas(vm, d, kmap, |kmap|, n) && i < ENTRIES
    ensures Wants(vm, d, 0, 0, i) <==> InKernel(kmap, |kmap|, i) || i < TablesFor(n)
    ensures !(InKernel(kmap, |kmap|, i) && i < TablesFor(n))
  {
    assert KernelTable(vm, d, kmap, |kmap|, n, i);
    InFirst(n, i);
    if InKernel(kmap, |kmap|, i) {
      InKernelHigh(kmap, |kmap|, i);
    }
  }

  /** The table for page n is there unless n is its first page. */
  lemma TableOfNext(vm: Vm, d: nat, kmap: seq<Kmap>, n: nat)
    requires GoodKmap(kmap) && n < KERNPAGE && KernelHas(vm, d, kmap, |kmap|, n)
    ensures Table(vm, d, n / 1024) == 0 <==> n % 1024 == 0
  {
    assert KernelTable(vm, d, kmap, |kmap|, n, n / 1024);
    InFirst(n, n / 1024);
    Rounded(n);
    if InKernel(kmap, |kmap|, n / 1024) {
      InKernelHigh(kmap, |kmap|, n / 1024);
    }
  }

  lemma NeededNext(kmap: seq<Kmap>, n: nat)
    ensures Needed(kmap, n + 1) == Needed(kmap, n) + if n % 1024 == 0 then 2 else 1
  {
    Rounded(n);
  }

  lemma {:induction false} NeededGrows(kmap: seq<Kmap>, m: nat, n: nat)
    requires m <= n
    ensures Needed(kmap, m) <= Needed(kmap, n)
    decreases n
  {
    if m < n {
      NeededNext(kmap, n - 1);
      NeededGrows(kmap, m, n - 1);
    }
  }

  // ----- The kernel of xv6 -----

  const KERNLINK: nat := 0x8_0100
  const PHYSTOP: nat := 0xe000
  const DEVSPACE: nat := 0xf_e000

  /** kmap of vm.c; `data` is the page at which the kernel's data begins. */
  function Xv6Kmap(data: nat): seq<Kmap>
    requires KERNLINK < data < KERNPAGE + PHYSTOP
  {
    [Kmap(KERNPAGE, 0, KERNLINK - KERNPAGE, 2), Kmap(KERNLINK, KERNLINK - KERNPAGE, data - KERNLINK, 0),
     Kmap(data, data - KERNPAGE, KERNPAGE + PHYSTOP - data, 2), Kmap(DEVSPACE, DEVSPACE, PAGES - DEVSPACE, 2)]
  }

  lemma Xv6Good(data: nat)
    requires KERNLINK < data < KERNPAGE + PHYSTOP
    ensures GoodKmap(Xv6Kmap(data))
  {
  }

  lemma Xv6InKernel(data: nat, i: nat)
    requires KERNLINK < data < KERNPAGE + PHYSTOP
    ensures InKernel(Xv6Kmap(data), 4, i) <==> 512 <= i < 568 || 1016 <= i < 1024
  {
    var kmap := Xv6Kmap(data);
    assert InKernel(kmap, 4, i) <==> InKernel(kmap, 3, i) || InSpan(DEVSPACE, PAGES - DEVSPACE, i);
    assert InKernel(kmap, 3, i) <==> InKernel(kmap, 2, i) || InSpan(data, KERNPAGE + PHYSTOP - data, i);
    assert InKernel(kmap, 2, i) <==> InKernel(kmap, 1, i) || InSpan(KERNLINK, data - KERNLINK, i);
    assert InKernel(kmap, 1, i) <==> InSpan(KERNPAGE, KERNLINK - KERNPAGE, i);
  }

  lemma {:induction false} Xv6Below(data: nat, k: nat)
    requires KERNLINK < data < KERNPAGE + PHYSTOP && k <= 1024
    ensures KernelBelow(Xv6Kmap(data), k)
      == (if k <= 512 then 0 else if k <= 568 then k - 512 else 56) + (if k <= 1016 then 0 else k - 1016)
  {
    if k > 0 {
      Xv6Below(data, k - 1);
      Xv6InKernel(data, k - 1);
    }
  }

  /** Wherever the data begins, the kernel's half of xv6 takes 64 page tables. */
  lemma Xv6Tables(data: nat)
    requires KERNLINK < data < KERNPAGE + PHYSTOP
    ensures KernelTables(Xv6Kmap(data)) == 64
  {
    Xv6Below(data, ENTRIES);
  }
}

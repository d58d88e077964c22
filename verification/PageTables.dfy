/** Two-level page tables as a value: physical frames of 1024 words, the frames on the free
    list, and the page directories in use. Virtual addresses are page numbers; a kernel
    address of physical memory is its frame number, 0 being the null pointer. */
module PageTables {

  const ENTRIES: nat := 1024
  const PAGES: nat := 0x10_0000
  /** The page number of KERNBASE: user pages lie below. */
  const KERNPAGE: nat := 0x8_0000
  const PGSIZE: nat := 4096

  type Page = p: seq<nat> | |p| == ENTRIES witness Filled(0)

  function Filled(w: nat): (p: seq<nat>)
    ensures |p| == ENTRIES && forall k :: 0 <= k < ENTRIES ==> p[k] == w
  {
    seq(ENTRIES, _ => w)
  }

  /** `start` is the first frame that the allocator manages. */
  datatype Vm = Vm(mem: seq<Page>, free: seq<nat>, roots: set<nat>, start: nat)

  // ----- Entries: a frame number and twelve flag bits, of which bit 0 is PTE_P -----

  predicate Present(w: nat) {
    w % 2 == 1
  }

  function Frame(w: nat): nat {
    w / 4096
  }

  function Flags(w: nat): nat {
    w % 4096
  }

  lemma WordParts(f: nat, p: nat)
    requires p < PGSIZE
    ensures (f * 4096 + p) / 4096 == f && (f * 4096 + p) % 4096 == p
    ensures (f * 4096 + p) % 2 == p % 2
  {
    assert f * 4096 + p == 2 * (f * 2048) + p;
  }

  /** pa | perm | PTE_P. */
  function Entry(f: nat, perm: nat): (w: nat)
    requires perm < PGSIZE
    ensures Present(w) && Frame(w) == f && Flags(w) == if Present(perm) then perm else perm + 1
  {
    var p := if Present(perm) then perm else perm + 1;
    WordParts(f, p);
    f * 4096 + p
  }

  lemma EntryIs(f: nat, perm: nat)
    requires perm < PGSIZE
    ensures Entry(f, perm) == 4096 * f + perm + (if perm % 2 == 0 then 1 else 0)
  {
    var w := Entry(f, perm);
    assert w == 4096 * (w / 4096) + w % 4096;
  }

  // ----- The translation -----

  function At(vm: Vm, f: nat): Page {
    if f < |vm.mem| then vm.mem[f] else Filled(0)
  }

  /** Entry i of the page directory d. */
  function Dir(vm: Vm, d: nat, i: nat): nat {
    if i < ENTRIES then At(vm, d)[i] else 0
  }

  function Table(vm: Vm, d: nat, i: nat): nat {
    if Present(Dir(vm, d, i)) then Frame(Dir(vm, d, i)) else 0
  }

  /** The entry for page v; 0 where there is no page table. */
  function Pte(vm: Vm, d: nat, v: nat): nat {
    if v >= PAGES || Table(vm, d, v / 1024) == 0 then 0 else At(vm, Table(vm, d, v / 1024))[v % 1024]
  }

  // ----- Who holds a frame -----

  datatype Loc = Root(d: nat) | Tab(d: nat, i: nat) | User(d: nat, v: nat)

  function Holds(vm: Vm, l: Loc): nat {
    if l.d !in vm.roots then 0
    else match l
      case Root(d) => d
      case Tab(d, i) => Table(vm, d, i)
      case User(d, v) => if v < KERNPAGE && Present(Pte(vm, d, v)) then Frame(Pte(vm, d, v)) else 0
  }

  ghost predicate Unheld(vm: Vm, f: nat) {
    forall l :: Holds(vm, l) != f
  }

  predicate Managed(vm: Vm, f: nat) {
    vm.start <= f < |vm.mem|
  }

  ghost predicate FreeList(vm: Vm) {
    && (forall k :: 0 <= k < |vm.free| ==> Managed(vm, vm.free[k]))
    && forall j, k :: 0 <= j < k < |vm.free| ==> vm.free[j] != vm.free[k]
  }

  /** Each frame is held once at most, and not while it is free. */
  ghost predicate Owned(vm: Vm) {
    && (forall l :: Holds(vm, l) != 0 ==> Managed(vm, Holds(vm, l)) && Holds(vm, l) !in vm.free)
    && forall l, l' :: Holds(vm, l) != 0 && Holds(vm, l) == Holds(vm, l') ==> l == l'
  }

  /** No present entry names frame 0. */
  ghost predicate NonNull(vm: Vm) {
    && 0 !in vm.roots
    && (forall d, i: nat :: d in vm.roots && Present(Dir(vm, d, i)) ==> Frame(Dir(vm, d, i)) != 0)
    && forall d, v: nat :: d in vm.roots && v < KERNPAGE && Present(Pte(vm, d, v)) ==> Frame(Pte(vm, d, v)) != 0
  }

  /** What l holds is a frame of the allocator's, not free, and held at no other place. */
  ghost predicate PlaceOk(vm: Vm, l: Loc) {
    && (Holds(vm, l) != 0 ==>
         Managed(vm, Holds(vm, l)) && Holds(vm, l) !in vm.free && forall l' :: Holds(vm, l') == Holds(vm, l) ==> l' == l)
    && (l.d in vm.roots ==> match l
         case Root(d) => d != 0
         case Tab(d, i) => Present(Dir(vm, d, i)) ==> Frame(Dir(vm, d, i)) != 0
         case User(d, v) => v < KERNPAGE && Present(Pte(vm, d, v)) ==> Frame(Pte(vm, d, v)) != 0)
  }

  ghost predicate Inv(vm: Vm) {
    0 < vm.start <= |vm.mem| && FreeList(vm) && forall l :: PlaceOk(vm, l)
  }

  lemma InvFacts(vm: Vm)
    requires Inv(vm)
    ensures Owned(vm) && NonNull(vm)
  {
    forall l ensures Holds(vm, l) != 0 ==> Managed(vm, Holds(vm, l)) && Holds(vm, l) !in vm.free {
      assert PlaceOk(vm, l);
    }
    forall l, l' | Holds(vm, l) != 0 && Holds(vm, l) == Holds(vm, l') ensures l == l' {
      assert PlaceOk(vm, l);
    }
    forall d, i: nat | d in vm.roots && Present(Dir(vm, d, i)) ensures Frame(Dir(vm, d, i)) != 0 {
      assert PlaceOk(vm, Tab(d, i));
    }
    forall d, v: nat | d in vm.roots && v < KERNPAGE && Present(Pte(vm, d, v)) ensures Frame(Pte(vm, d, v)) != 0 {
      assert PlaceOk(vm, User(d, v));
    }
    assert 0 in vm.roots ==> !PlaceOk(vm, Root(0));
  }

  /** Neither free nor held: lost. */
  ghost predicate Stray(vm: Vm, f: nat) {
    Managed(vm, f) && f !in vm.free && Unheld(vm, f)
  }

  // ----- Changes of memory -----

  function Write(vm: Vm, f: nat, p: Page): Vm
    requires f < |vm.mem|
  {
    vm.(mem := vm.mem[f := p])
  }

  /** Same translations and same holders. */
  ghost predicate SameMap(vm: Vm, vm': Vm) {
    && vm'.roots == vm.roots && vm'.start == vm.start && |vm'.mem| == |vm.mem|
    && (forall d, i: nat :: d in vm.roots ==> Dir(vm', d, i) == Dir(vm, d, i))
    && (forall d, v: nat :: d in vm.roots ==> Pte(vm', d, v) == Pte(vm, d, v))
  }

  lemma SameHolds(vm: Vm, vm': Vm)
    requires SameMap(vm, vm')
    ensures forall l :: Holds(vm', l) == Holds(vm, l)
  {
    forall l ensures Holds(vm', l) == Holds(vm, l) {
      if l.Tab? && l.d in vm.roots {
        assert Dir(vm', l.d, l.i) == Dir(vm, l.d, l.i);
      }
    }
  }

  /** A frame that is no directory and no page table may be written at will. */
  lemma WriteOther(vm: Vm, f: nat, p: Page)
    requires Inv(vm) && f < |vm.mem| && forall l: Loc :: !l.User? && Holds(vm, l) != 0 ==> Holds(vm, l) != f
    requires f != 0
    ensures SameMap(vm, Write(vm, f, p))
  {
    InvFacts(vm);
    var vm' := Write(vm, f, p);
    forall d, i: nat | d in vm.roots ensures Dir(vm', d, i) == Dir(vm, d, i) {
      assert Holds(vm, Root(d)) == d;
    }
    forall d, v: nat | d in vm.roots ensures Pte(vm', d, v) == Pte(vm, d, v) {
      assert Dir(vm', d, v / 1024) == Dir(vm, d, v / 1024);
      assert Holds(vm, Tab(d, v / 1024)) == Table(vm, d, v / 1024);
    }
  }

  /** walkpgdir's new page table: a zeroed frame becomes entry i of directory d. */
  function TableSet(vm: Vm, d: nat, i: nat, w: nat): Vm
    requires d < |vm.mem| && i < ENTRIES
  {
    Write(vm, d, vm.mem[d][i := w])
  }

  lemma TableAddedMap(vm: Vm, d: nat, i: nat, w: nat)
    requires Inv(vm) && d in vm.roots && i < ENTRIES && Table(vm, d, i) == 0
    requires d < |vm.mem| && Present(w) && Managed(vm, Frame(w)) && Unheld(vm, Frame(w)) && vm.mem[Frame(w)] == Filled(0)
    ensures var vm' := TableSet(vm, d, i, w);
      && (forall d', j: nat :: d' in vm.roots ==> Dir(vm', d', j) == if d' == d && j == i then w else Dir(vm, d', j))
      && forall d', v: nat :: d' in vm.roots ==> Pte(vm', d', v) == Pte(vm, d', v)
  {
    InvFacts(vm);
    var vm' := TableSet(vm, d, i, w);
    assert Holds(vm, Root(d)) == d;
    forall d', j: nat | d' in vm.roots ensures Dir(vm', d', j) == if d' == d && j == i then w else Dir(vm, d', j) {
      assert Holds(vm, Root(d')) == d';
    }
    forall d', v: nat | d' in vm.roots ensures Pte(vm', d', v) == Pte(vm, d', v) {
      assert Dir(vm', d', v / 1024) == if d' == d && v / 1024 == i then w else Dir(vm, d', v / 1024);
      assert Holds(vm, Tab(d', v / 1024)) == Table(vm, d', v / 1024);
    }
  }

  /** One place more holds a frame that was neither held nor free. */
  lemma HolderAdded(vm: Vm, vm': Vm, l0: Loc, f: nat)
    requires Owned(vm) && vm'.free == vm.free && vm'.start == vm.start && |vm'.mem| == |vm.mem|
    requires vm.start > 0 && Managed(vm, f) && f !in vm.free && Unheld(vm, f) && Holds(vm, l0) == 0
    requires forall l :: Holds(vm', l) == if l == l0 then f else Holds(vm, l)
    ensures Owned(vm') && forall g: nat :: Stray(vm', g) <==> Stray(vm, g) && g != f
  {
    assert Holds(vm', l0) == f;
    forall g: nat | g != f && g != 0 && Unheld(vm', g) ensures Unheld(vm, g) {
      forall l ensures Holds(vm, l) != g {
        assert Holds(vm', l) != g;
      }
    }
  }

  /** walkpgdir's new page table. */
  lemma TableAdded(vm: Vm, d: nat, i: nat, w: nat)
    requires Inv(vm) && d in vm.roots && i < ENTRIES && Table(vm, d, i) == 0 && d < |vm.mem|
    requires Present(w) && Managed(vm, Frame(w)) && Frame(w) !in vm.free && Unheld(vm, Frame(w)) && vm.mem[Frame(w)] == Filled(0)
    ensures var vm' := TableSet(vm, d, i, w);
      && Inv(vm') && Table(vm', d, i) == Frame(w)
      && (forall d', v: nat :: d' in vm.roots ==> Pte(vm', d', v) == Pte(vm, d', v))
      && (forall l :: Holds(vm', l) == if l == Tab(d, i) then Frame(w) else Holds(vm, l))
      && forall g: nat :: Stray(vm', g) <==> Stray(vm, g) && g != Frame(w)
  {
    InvFacts(vm);
    var vm' := TableSet(vm, d, i, w);
    TableAddedMap(vm, d, i, w);
    assert Dir(vm', d, i) == w;
    forall l ensures Holds(vm', l) == if l == Tab(d, i) then Frame(w) else Holds(vm, l) {
      if l.Tab? && l.d in vm.roots {
        assert Dir(vm', l.d, l.i) == if l.d == d && l.i == i then w else Dir(vm, l.d, l.i);
      }
    }
    HolderAdded(vm, vm', Tab(d, i), Frame(w));
  }

  // ----- Setting the entry of a page -----

  function EntrySet(vm: Vm, d: nat, v: nat, w: nat): Vm
    requires 0 < Table(vm, d, v / 1024) < |vm.mem|
  {
    var t := Table(vm, d, v / 1024);
    Write(vm, t, vm.mem[t][v % 1024 := w])
  }

  lemma EntrySetMap(vm: Vm, d: nat, v: nat, w: nat)
    requires Inv(vm) && d in vm.roots && v < PAGES && 0 < Table(vm, d, v / 1024) < |vm.mem|
    ensures var vm' := EntrySet(vm, d, v, w);
      && (forall d', j: nat :: d' in vm.roots ==> Dir(vm', d', j) == Dir(vm, d', j))
      && forall d', u: nat :: d' in vm.roots ==> Pte(vm', d', u) == if d' == d && u == v then w else Pte(vm, d', u)
  {
    InvFacts(vm);
    var vm', t := EntrySet(vm, d, v, w), Table(vm, d, v / 1024);
    assert Holds(vm, Tab(d, v / 1024)) == t;
    forall d', j: nat | d' in vm.roots ensures Dir(vm', d', j) == Dir(vm, d', j) {
      assert Holds(vm, Root(d')) == d';
    }
    forall d', u: nat | d' in vm.roots ensures Pte(vm', d', u) == if d' == d && u == v then w else Pte(vm, d', u) {
      assert Dir(vm', d', u / 1024) == Dir(vm, d', u / 1024);
      assert Holds(vm, Tab(d', u / 1024)) == Table(vm, d', u / 1024);
      SameSlot(u, v);
    }
  }

  lemma SameSlot(u: nat, v: nat)
    ensures u / 1024 == v / 1024 && u % 1024 == v % 1024 ==> u == v
  {
    assert u == 1024 * (u / 1024) + u % 1024 && v == 1024 * (v / 1024) + v % 1024;
  }

  lemma EntrySetHolds(vm: Vm, d: nat, v: nat, w: nat)
    requires Inv(vm) && d in vm.roots && v < PAGES && 0 < Table(vm, d, v / 1024) < |vm.mem|
    ensures var vm' := EntrySet(vm, d, v, w);
      forall l :: Holds(vm', l) == if l == User(d, v) && v < KERNPAGE then (if Present(w) then Frame(w) else 0) else Holds(vm, l)
  {
    InvFacts(vm);
    var vm' := EntrySet(vm, d, v, w);
    EntrySetMap(vm, d, v, w);
    forall l ensures Holds(vm', l) == if l == User(d, v) && v < KERNPAGE then (if Present(w) then Frame(w) else 0) else Holds(vm, l) {
      if l.d in vm.roots {
        assert l.Tab? ==> Dir(vm', l.d, l.i) == Dir(vm, l.d, l.i);
        assert l.User? ==> Pte(vm', l.d, l.v) == if l.d == d && l.v == v then w else Pte(vm, l.d, l.v);
      }
    }
  }

  /** mappages on one page: for a user page the frame becomes held. */
  lemma PageMapped(vm: Vm, d: nat, v: nat, w: nat)
    requires Inv(vm) && d in vm.roots && v < PAGES && 0 < Table(vm, d, v / 1024) < |vm.mem|
    requires Present(w) && !Present(Pte(vm, d, v))
    requires v < KERNPAGE ==> Managed(vm, Frame(w)) && Frame(w) !in vm.free && Unheld(vm, Frame(w))
    ensures var vm' := EntrySet(vm, d, v, w);
      && Inv(vm')
      && (forall l :: Holds(vm', l) == if l == User(d, v) && v < KERNPAGE then Frame(w) else Holds(vm, l))
      && forall g: nat :: Stray(vm', g) <==> Stray(vm, g) && !(v < KERNPAGE && g == Frame(w))
  {
    InvFacts(vm);
    var vm' := EntrySet(vm, d, v, w);
    EntrySetMap(vm, d, v, w);
    EntrySetHolds(vm, d, v, w);
    if v < KERNPAGE {
      HolderAdded(vm, vm', User(d, v), Frame(w));
    } else {
      assert forall g: nat :: Unheld(vm', g) <==> Unheld(vm, g) by {
        forall g: nat ensures Unheld(vm', g) <==> Unheld(vm, g) {
          SameUnheld(vm, vm', g);
        }
      }
    }
  }

  lemma SameUnheld(vm: Vm, vm': Vm, g: nat)
    requires forall l :: Holds(vm', l) == Holds(vm, l)
    ensures Unheld(vm', g) <==> Unheld(vm, g)
  {
    if Unheld(vm', g) {
      forall l ensures Holds(vm, l) != g {
        assert Holds(vm', l) != g;
      }
    }
    if Unheld(vm, g) {
      forall l ensures Holds(vm', l) != g {
        assert Holds(vm, l) != g;
      }
    }
  }

  // ----- Allocating and freeing frames -----

  /** Neither free nor holding entries: a user page, or a frame just allocated. */
  ghost predicate Plain(vm: Vm, f: nat) {
    Managed(vm, f) && f !in vm.free && forall l: Loc :: !l.User? ==> Holds(vm, l) != f
  }

  /** kalloc takes the first free frame. */
  function Taken(vm: Vm): Vm
    requires vm.free != []
  {
    vm.(free := vm.free[1..])
  }

  lemma TakenInv(vm: Vm)
    requires Inv(vm) && vm.free != []
    ensures var vm', f := Taken(vm), vm.free[0];
      && Inv(vm') && SameMap(vm, vm') && Managed(vm', f) && f !in vm'.free && Unheld(vm', f)
      && (forall l :: Holds(vm', l) == Holds(vm, l))
      && forall g: nat :: Stray(vm', g) <==> Stray(vm, g) || g == f
  {
    InvFacts(vm);
    var vm', f := Taken(vm), vm.free[0];
    SameHolds(vm, vm');
    forall l ensures Holds(vm, l) != f {
    }
    assert forall g: nat :: g in vm.free <==> g == f || g in vm'.free;
    forall g: nat ensures Unheld(vm', g) <==> Unheld(vm, g) {
      SameUnheld(vm, vm', g);
    }
  }

  /** kfree fills the frame with junk, links it in, and puts it first. */
  function Junk(next: nat): Page {
    Filled(0x01010101)[0 := next]
  }

  function Given(vm: Vm, f: nat): Vm
    requires f < |vm.mem|
  {
    Write(vm, f, Junk(if vm.free == [] then 0 else vm.free[0])).(free := [f] + vm.free)
  }

  lemma GivenInv(vm: Vm, f: nat)
    requires Inv(vm) && Managed(vm, f) && f !in vm.free && Unheld(vm, f)
    ensures var vm' := Given(vm, f);
      && Inv(vm') && SameMap(vm, vm')
      && (forall l :: Holds(vm', l) == Holds(vm, l))
      && forall g: nat :: Stray(vm', g) <==> Stray(vm, g) && g != f
  {
    InvFacts(vm);
    var vm' := Given(vm, f);
    WriteOther(vm, f, Junk(if vm.free == [] then 0 else vm.free[0]));
    SameHolds(vm, vm');
    forall g: nat ensures Unheld(vm', g) <==> Unheld(vm, g) {
      SameUnheld(vm, vm', g);
    }
  }

  /** One place fewer holds a frame, which is then lost unless it is freed. */
  lemma HolderRemoved(vm: Vm, vm': Vm, l0: Loc)
    requires Owned(vm) && vm'.free == vm.free && vm'.start == vm.start > 0 && |vm'.mem| == |vm.mem| && Holds(vm, l0) != 0
    requires forall l :: Holds(vm', l) == if l == l0 then 0 else Holds(vm, l)
    ensures Owned(vm') && Unheld(vm', Holds(vm, l0))
    ensures forall g: nat :: Stray(vm', g) <==> Stray(vm, g) || g == Holds(vm, l0)
  {
    var f := Holds(vm, l0);
    forall g: nat | g != f && g != 0 ensures Unheld(vm', g) <==> Unheld(vm, g) {
      if Unheld(vm', g) {
        forall l ensures Holds(vm, l) != g {
          assert Holds(vm', l) != g;
        }
      }
    }
  }

  /** The entry of a user page is cleared. */
  lemma PageUnmapped(vm: Vm, d: nat, v: nat)
    requires Inv(vm) && d in vm.roots && v < KERNPAGE && Present(Pte(vm, d, v))
    ensures 0 < Table(vm, d, v / 1024) < |vm.mem|
    ensures var vm', f := EntrySet(vm, d, v, 0), Frame(Pte(vm, d, v));
      && Inv(vm') && Managed(vm', f) && f !in vm'.free && Unheld(vm', f)
      && (forall l :: Holds(vm', l) == if l == User(d, v) then 0 else Holds(vm, l))
      && forall g: nat :: Stray(vm', g) <==> Stray(vm, g) || g == f
  {
    InvFacts(vm);
    assert Holds(vm, User(d, v)) == Frame(Pte(vm, d, v)) != 0;
    assert Holds(vm, Tab(d, v / 1024)) == Table(vm, d, v / 1024);
    EntrySetMap(vm, d, v, 0);
    EntrySetHolds(vm, d, v, 0);
    HolderRemoved(vm, EntrySet(vm, d, v, 0), User(d, v));
  }

  // ----- Page directories -----

  /** A zeroed frame becomes a page directory. */
  lemma RootAdded(vm: Vm, d: nat)
    requires Inv(vm) && Managed(vm, d) && d !in vm.free && Unheld(vm, d) && vm.mem[d] == Filled(0)
    ensures var vm' := vm.(roots := vm.roots + {d});
      && d !in vm.roots && Inv(vm')
      && (forall l :: Holds(vm', l) == if l == Root(d) then d else Holds(vm, l))
      && (forall v: nat :: Pte(vm', d, v) == 0)
      && forall g: nat :: Stray(vm', g) <==> Stray(vm, g) && g != d
  {
    InvFacts(vm);
    var vm' := vm.(roots := vm.roots + {d});
    assert Holds(vm, Root(d)) != d;
    forall d', i: nat ensures Dir(vm', d', i) == Dir(vm, d', i) && Dir(vm', d, i) == 0 {
    }
    forall d', v: nat ensures Pte(vm', d', v) == Pte(vm, d', v) && Pte(vm', d, v) == 0 {
      assert Dir(vm', d, v / 1024) == 0;
    }
    forall l ensures Holds(vm', l) == if l == Root(d) then d else Holds(vm, l) {
      assert l.Tab? ==> Dir(vm', l.d, l.i) == Dir(vm, l.d, l.i);
    }
    HolderAdded(vm, vm', Root(d), d);
  }

  /** Equal holders and equal losses leave equal free lists, up to order. */
  lemma SameFreeSet(vm: Vm, vm': Vm)
    requires Inv(vm) && Inv(vm') && vm'.start == vm.start && |vm'.mem| == |vm.mem|
    requires forall l :: Holds(vm', l) == Holds(vm, l)
    requires forall g: nat :: Stray(vm', g) <==> Stray(vm, g)
    ensures forall g: nat :: g in vm'.free <==> g in vm.free
  {
    InvFacts(vm);
    InvFacts(vm');
    forall g: nat ensures g in vm'.free <==> g in vm.free {
      SameUnheld(vm, vm', g);
      assert Stray(vm', g) <==> Stray(vm, g);
      if g in vm.free {
        forall l ensures Holds(vm, l) != g {
        }
      }
      if g in vm'.free {
        forall l ensures Holds(vm', l) != g {
        }
      }
    }
  }
}

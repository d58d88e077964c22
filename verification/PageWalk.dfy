/** The processor's view: the two-level walk in physical memory, and what a program reads and
    writes through the pages that the operations have set up. */
module PageWalk {
  import opened PageTables
  import opened Mappings

  /** The entry for page u found from directory d in memory: bits 31 to 22 of an address select
      a word of the directory, bits 21 to 12 a word of the table whose frame number that word
      has above its 12 flag bits, if bit 0 of it is set. */
  function Walked(mem: seq<Page>, d: nat, u: nat): nat {
    if d >= |mem| || u >= 0x10_0000 then 0
    else
      var pde := mem[d][u / 1024];
      if pde % 2 == 0 || pde / 4096 >= |mem| then 0 else mem[pde / 4096][u % 1024]
  }

  lemma WalkFinds(vm: Vm, d: nat, u: nat)
    requires Inv(vm) && d in vm.roots
    ensures Walked(vm.mem, d, u) == Pte(vm, d, u)
  {
    InvFacts(vm);
    assert Holds(vm, Root(d)) == d;
    if u < PAGES {
      assert Holds(vm, Tab(d, u / 1024)) == Table(vm, d, u / 1024);
    }
  }

  /** After mappages the pages have the frames from pa on, with the permissions and PTE_P. */
  lemma MappedWalk(vm: Vm, vm': Vm, d: nat, v: nat, n: nat, pa: nat, perm: nat, u: nat)
    requires Inv(vm) && d in vm.roots && perm < PGSIZE && Mapped(vm, vm', d, v, n, pa, perm) && v <= u < v + n
    ensures Walked(vm'.mem, d, u) == 4096 * (pa + u - v) + perm + (if perm % 2 == 0 then 1 else 0)
  {
    SameRoots(vm, vm');
    RangedFacts(vm, vm', d, v, n, pa, perm);
    WalkFinds(vm', d, u);
    EntryIs(pa + u - v, perm);
  }

  /** allocuvm: a page of its own, zeroed, and open to the user's reads and writes. */
  lemma GrownWalk(vm: Vm, vm': Vm, d: nat, lo: nat, hi: nat, u: nat)
    requires Inv(vm) && d in vm.roots && UserGrown(vm, vm', d, lo, hi, 0) && lo <= u < hi
    ensures var w := Walked(vm'.mem, d, u);
      w % 4096 == 7 && w / 4096 in vm.free && w / 4096 < |vm'.mem| && forall k :: 0 <= k < 1024 ==> vm'.mem[w / 4096][k] == 0
  {
    SameRoots(vm, vm');
    WalkFinds(vm', d, u);
    assert NewPage(vm, vm', d, u);
    InvFacts(vm);
  }

  /** deallocuvm: the pages of the range are not present any more, and the others stay. */
  lemma ShrunkWalk(vm: Vm, vm': Vm, d: nat, lo: nat, hi: nat, u: nat)
    requires Inv(vm) && d in vm.roots && Shrunk(vm, vm', d, lo, hi)
    ensures if lo <= u < hi then Walked(vm'.mem, d, u) % 2 == 0 else Walked(vm'.mem, d, u) == Walked(vm.mem, d, u)
  {
    SameRoots(vm, vm');
    WalkFinds(vm, d, u);
    WalkFinds(vm', d, u);
  }

  /** copyuvm: each page of the child has the bytes and the flags of the parent's, whose own
      pages are as before. */
  lemma CopiedWalk(vm: Vm, vm': Vm, d: nat, c: nat, n: nat, u: nat)
    requires Inv(vm) && d in vm.roots && Copying(vm, vm', d, c, n, 0) && u < n <= KERNPAGE
    ensures var p, q := Walked(vm.mem, d, u), Walked(vm'.mem, c, u);
      && p % 2 == 1 && q % 4096 == p % 4096 && Walked(vm'.mem, d, u) == p
      && p / 4096 < |vm.mem| == |vm'.mem| && q / 4096 < |vm'.mem|
      && vm'.mem[q / 4096] == vm.mem[p / 4096] == vm'.mem[p / 4096]
  {
    InvFacts(vm);
    InvFacts(vm');
    WalkFinds(vm, d, u);
    WalkFinds(vm', d, u);
    WalkFinds(vm', c, u);
    assert PageCopied(vm, vm', d, c, u);
    var f := Frame(Pte(vm, d, u));
    assert Holds(vm, User(d, u)) == f;
    assert Plain(vm, f);
  }

  /** A store through one user page is seen through no other, of whatever process, and moves
      no page. */
  lemma StoresApart(vm: Vm, d: nat, u: nat, p: Page, d': nat, u': nat)
    requires Inv(vm) && d in vm.roots && d' in vm.roots && u < KERNPAGE && u' < KERNPAGE && (d, u) != (d', u')
    requires Walked(vm.mem, d, u) % 2 == 1 && Walked(vm.mem, d', u') % 2 == 1
    ensures var f, g := Walked(vm.mem, d, u) / 4096, Walked(vm.mem, d', u') / 4096;
      && f < |vm.mem| && g < |vm.mem|
      && var mem := vm.mem[f := p];
        Walked(mem, d, u) == Walked(vm.mem, d, u) && Walked(mem, d', u') == Walked(vm.mem, d', u') && mem[g] == vm.mem[g]
  {
    InvFacts(vm);
    WalkFinds(vm, d, u);
    WalkFinds(vm, d', u');
    var f, g := Frame(Pte(vm, d, u)), Frame(Pte(vm, d', u'));
    assert Holds(vm, User(d, u)) == f != 0;
    assert Holds(vm, User(d', u')) == g != 0;
    WriteOther(vm, f, p);
    WriteInv(vm, f, p);
    WalkFinds(Write(vm, f, p), d, u);
    WalkFinds(Write(vm, f, p), d', u');
  }

  lemma WriteInv(vm: Vm, f: nat, p: Page)
    requires Inv(vm) && f < |vm.mem| && SameMap(vm, Write(vm, f, p))
    ensures Inv(Write(vm, f, p))
  {
    var vm' := Write(vm, f, p);
    SameHolds(vm, vm');
    InvFacts(vm);
    forall l ensures PlaceOk(vm', l) {
      assert PlaceOk(vm, l);
    }
  }
}

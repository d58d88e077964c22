/** What has been freed on the way through itrunc, in terms of the places dealt with. */
module Truncate {
  import opened BlockTree

  /** Exactly the blocks recorded, before, at the places in `done` have been freed since. */
  ghost predicate Freed(fs: Fs, bitmap: seq<bool>, done: iset<Loc>) {
    && |bitmap| == |fs.bitmap|
    && (forall l :: l in done && Ref(fs, l) != 0 ==> Ref(fs, l) < |bitmap| && !bitmap[Ref(fs, l)])
    && (forall b :: 0 <= b < |bitmap| && bitmap[b] ==> fs.bitmap[b])
    && (forall b :: 0 <= b < |bitmap| && fs.bitmap[b] && !bitmap[b] ==> b != 0 && HeldIn(fs, done, b))
  }

  ghost predicate HeldIn(fs: Fs, done: iset<Loc>, b: nat) {
    exists l :: l in done && Ref(fs, l) == b
  }

  /** The block at a place not dealt with is still marked: bfree will not panic on it. */
  lemma StillMarked(fs: Fs, bitmap: seq<bool>, done: iset<Loc>, l: Loc)
    requires Inv(fs) && Freed(fs, bitmap, done) && l !in done && Ref(fs, l) != 0
    ensures Ref(fs, l) < |bitmap| && bitmap[Ref(fs, l)]
  {
    InvFacts(fs);
  }

  lemma HeldStill(fs: Fs, done: iset<Loc>, more: iset<Loc>, b: nat)
    requires HeldIn(fs, done, b)
    ensures HeldIn(fs, done + more, b)
  {
    var l :| l in done && Ref(fs, l) == b;
    assert l in done + more;
  }

  lemma FreeOne(fs: Fs, bitmap: seq<bool>, done: iset<Loc>, l: Loc)
    requires Inv(fs) && Freed(fs, bitmap, done) && Ref(fs, l) != 0
    ensures Freed(fs, bitmap[Ref(fs, l) := false], done + iset{l})
  {
    FreeBlock(fs, bitmap, done, l, Ref(fs, l));
  }

  lemma FreeBlock(fs: Fs, bitmap: seq<bool>, done: iset<Loc>, l: Loc, b: nat)
    requires Freed(fs, bitmap, done) && Ref(fs, l) == b && 0 < b < |bitmap|
    ensures Freed(fs, bitmap[b := false], done + iset{l})
  {
    assert l in done + iset{l};
    forall c | 0 <= c < |bitmap| && fs.bitmap[c] && !bitmap[c] ensures HeldIn(fs, done + iset{l}, c) {
      HeldStill(fs, done, iset{l}, c);
    }
  }

  /** Places that hold no block need no work. */
  lemma FreeNone(fs: Fs, bitmap: seq<bool>, done: iset<Loc>, more: iset<Loc>)
    requires Freed(fs, bitmap, done) && forall l :: l in more ==> Ref(fs, l) == 0
    ensures Freed(fs, bitmap, done + more)
  {
    forall b: nat | HeldIn(fs, done, b) ensures HeldIn(fs, done + more, b) {
      HeldStill(fs, done, more, b);
    }
  }

  function Child(l: Loc, k: nat): Loc {
    match l
    case Addr(i, n) => if n == NDIRECT then Ind(i, k) else Dbl(i, k)
    case Dbl(i, j) => Leaf(i, j, k)
    case _ => l
  }

  predicate IsIndex(l: Loc) {
    (l.Addr? && (l.k == NDIRECT || l.k == NDIRECT + 1)) || l.Dbl?
  }

  ghost function Directs(i: nat, n: nat): iset<Loc> {
    iset l: Loc | l.Addr? && l.i == i && l.k < n
  }

  ghost function Children(l: Loc, n: nat): iset<Loc> {
    iset k: nat | k < n :: Child(l, k)
  }

  /** The first n entries of the double-indirect block, with all below them. */
  ghost function Doubles(i: nat, n: nat): iset<Loc> {
    iset l: Loc | (l.Dbl? || l.Leaf?) && l.i == i && l.j < n
  }

  /** All that itrunc frees of inode i: everything but the double-indirect block itself. */
  ghost function Truncated(i: nat): iset<Loc> {
    iset l: Loc | l.i == i && l != Addr(i, NDIRECT + 1)
  }

  function Cleared(fs: Fs, i: nat): Fs
    requires i < |fs.inodes|
  {
    fs.(inodes := fs.inodes[i := Inode(seq(NDIRECT + 2, _ => 0), 0)])
  }

  lemma {:induction false} ClearedRef(fs: Fs, i: nat, l: Loc)
    requires i < |fs.inodes|
    ensures Ref(Cleared(fs, i), l) == if l.i == i then 0 else Ref(fs, l)
    decreases Rank(l)
  {
    if !l.Addr? {
      ClearedRef(fs, i, Parent(l));
    }
  }

  /** The state that itrunc leaves. */
  function Emptied(fs: Fs, i: nat, bitmap: seq<bool>): Fs
    requires i < |fs.inodes|
  {
    Cleared(fs, i).(bitmap := bitmap)
  }

  lemma {:induction false} BitmapRef(fs: Fs, bitmap: seq<bool>, l: Loc)
    ensures Ref(fs.(bitmap := bitmap), l) == Ref(fs, l)
    decreases Rank(l)
  {
    if !l.Addr? {
      BitmapRef(fs, bitmap, Parent(l));
    }
  }

  lemma EmptiedRefs(fs: Fs, i: nat, bitmap: seq<bool>)
    requires i < |fs.inodes|
    ensures forall l :: Ref(Emptied(fs, i, bitmap), l) == if l.i == i then 0 else Ref(fs, l)
  {
    forall l ensures Ref(Emptied(fs, i, bitmap), l) == if l.i == i then 0 else Ref(fs, l) {
      ClearedRef(fs, i, l);
      BitmapRef(Cleared(fs, i), bitmap, l);
    }
  }

  lemma EmptiedInv(fs: Fs, i: nat, bitmap: seq<bool>)
    requires Inv(fs) && i < |fs.inodes| && Freed(fs, bitmap, Truncated(i))
    ensures Inv(Emptied(fs, i, bitmap))
  {
    var fs' := Emptied(fs, i, bitmap);
    EmptiedRefs(fs, i, bitmap);
    forall l | Ref(fs', l) != 0 ensures Ref(fs', l) < |bitmap| && bitmap[Ref(fs', l)] {
      StillMarked(fs, bitmap, Truncated(i), l);
    }
    forall l, l' ensures Separate(fs', l, l') {
      assert Separate(fs, l, l');
    }
  }

  /** itrunc loses one block: the double-indirect block stays marked though nothing names it. */
  lemma OnlyRootLost(fs: Fs, i: nat, bitmap: seq<bool>, b: nat)
    requires Inv(fs) && i < |fs.inodes| && Freed(fs, bitmap, Truncated(i))
    ensures Stray(Emptied(fs, i, bitmap), b) <==> Stray(fs, b) || (b != 0 && b == fs.inodes[i].addrs[NDIRECT + 1])
  {
    var fs', root := Emptied(fs, i, bitmap), Addr(i, NDIRECT + 1);
    EmptiedRefs(fs, i, bitmap);
    if b != 0 && b == Ref(fs, root) {
      StillMarked(fs, bitmap, Truncated(i), root);
      forall l ensures Ref(fs', l) != b {
        assert Separate(fs, root, l);
      }
    }
    if Stray(fs', b) && b != Ref(fs, root) {
      forall l ensures Ref(fs, l) != b {
        assert Ref(fs', l) != b;
        assert l in Truncated(i) || l == root || l.i != i;
      }
    }
    if Stray(fs, b) {
      assert !HeldIn(fs, Truncated(i), b);
      forall l ensures Ref(fs', l) != b {
        assert Ref(fs, l) != b;
      }
    }
  }

  // ----- Steps of the loops -----

  lemma ChildRef(fs: Fs, l: Loc, k: nat)
    requires IsIndex(l) && Ref(fs, l) != 0
    ensures Ref(fs, Child(l, k)) == Word(BlockAt(fs, Ref(fs, l)), k)
  {
  }

  /** One more entry of an indirect block has been dealt with. */
  lemma NextChild(fs: Fs, bitmap: seq<bool>, done: iset<Loc>, l: Loc, k: nat, bitmap': seq<bool>)
    requires Inv(fs) && IsIndex(l) && Freed(fs, bitmap, done + Children(l, k))
    requires var b := Ref(fs, Child(l, k)); bitmap' == if b != 0 && b < |bitmap| then bitmap[b := false] else bitmap
    ensures Freed(fs, bitmap', done + Children(l, k + 1))
  {
    var d := done + Children(l, k);
    if Ref(fs, Child(l, k)) != 0 {
      FreeOne(fs, bitmap, d, Child(l, k));
    } else {
      FreeNone(fs, bitmap, d, iset{Child(l, k)});
    }
    assert d + iset{Child(l, k)} == done + Children(l, k + 1);
  }

  lemma NextDirect(fs: Fs, bitmap: seq<bool>, i: nat, k: nat, bitmap': seq<bool>)
    requires Inv(fs) && Freed(fs, bitmap, Directs(i, k))
    requires var b := Ref(fs, Addr(i, k)); bitmap' == if b != 0 && b < |bitmap| then bitmap[b := false] else bitmap
    ensures Freed(fs, bitmap', Directs(i, k + 1))
  {
    if Ref(fs, Addr(i, k)) != 0 {
      FreeOne(fs, bitmap, Directs(i, k), Addr(i, k));
    } else {
      FreeNone(fs, bitmap, Directs(i, k), iset{Addr(i, k)});
    }
    assert Directs(i, k) + iset{Addr(i, k)} == Directs(i, k + 1);
  }

  /** Directs and the whole single-indirect level. */
  ghost function Singles(i: nat): iset<Loc> {
    iset l: Loc | l.i == i && ((l.Addr? && l.k <= NDIRECT) || l.Ind?)
  }

  lemma SinglesDone(fs: Fs, bitmap: seq<bool>, i: nat, done: iset<Loc>)
    requires Freed(fs, bitmap, done)
    requires if Ref(fs, Addr(i, NDIRECT)) == 0 then done == Directs(i, NDIRECT)
             else done == Directs(i, NDIRECT) + Children(Addr(i, NDIRECT), NINDIRECT) + iset{Addr(i, NDIRECT)}
    ensures Freed(fs, bitmap, Singles(i))
  {
    var more := Singles(i) - done;
    forall l | l in more ensures Ref(fs, l) == 0 {
      assert l.Ind? && l.j < NINDIRECT ==> l == Child(Addr(i, NDIRECT), l.j);
    }
    FreeNone(fs, bitmap, done, more);
    assert done + more == Singles(i);
  }

  lemma DoubleDone(fs: Fs, bitmap: seq<bool>, i: nat, j: nat, done: iset<Loc>)
    requires Freed(fs, bitmap, done)
    requires var d := Singles(i) + Doubles(i, j);
      if Ref(fs, Dbl(i, j)) == 0 then done == d else done == d + Children(Dbl(i, j), NINDIRECT) + iset{Dbl(i, j)}
    ensures Freed(fs, bitmap, Singles(i) + Doubles(i, j + 1))
  {
    var all := Singles(i) + Doubles(i, j + 1);
    var more := all - done;
    forall l | l in more ensures Ref(fs, l) == 0 {
      assert l.Leaf? && l.j == j && l.k < NINDIRECT ==> l == Child(Dbl(i, j), l.k);
    }
    FreeNone(fs, bitmap, done, more);
    assert done + more == all;
  }

  lemma AllDone(fs: Fs, bitmap: seq<bool>, i: nat, done: iset<Loc>)
    requires Shape(fs) && Freed(fs, bitmap, done)
    requires if Ref(fs, Addr(i, NDIRECT + 1)) == 0 then done == Singles(i) else done == Singles(i) + Doubles(i, NINDIRECT)
    ensures Freed(fs, bitmap, Truncated(i))
  {
    var more := Truncated(i) - done;
    forall l | l in more ensures Ref(fs, l) == 0 {
    }
    FreeNone(fs, bitmap, done, more);
    assert done + more == Truncated(i);
  }
}

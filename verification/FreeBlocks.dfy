/** The free bitmap as balloc uses it: which blocks come next, and in which blocks of the
    bitmap their bits lie. */
module FreeBlocks {

  const BPB: nat := 4096   // bits of a bitmap block

  function FreeCount(bitmap: seq<bool>): nat {
    if bitmap == [] then 0 else FreeCount(bitmap[..|bitmap| - 1]) + if bitmap[|bitmap| - 1] then 0 else 1
  }

  lemma {:induction false} FreeCountTaken(bitmap: seq<bool>, b: nat)
    requires b < |bitmap| && !bitmap[b]
    ensures FreeCount(bitmap[b := true]) == FreeCount(bitmap) - 1
  {
    var k := |bitmap| - 1;
    if b < k {
      assert bitmap[b := true][..k] == bitmap[..k][b := true];
      FreeCountTaken(bitmap[..k], b);
    } else {
      assert bitmap[b := true][..k] == bitmap[..k];
    }
  }

  lemma {:induction false} FreeCountNone(bitmap: seq<bool>)
    requires forall b :: 0 <= b < |bitmap| ==> bitmap[b]
    ensures FreeCount(bitmap) == 0
  {
    if bitmap != [] {
      FreeCountNone(bitmap[..|bitmap| - 1]);
    }
  }

  lemma {:induction false} FreeCountFrom(bitmap: seq<bool>, k: nat)
    requires forall b :: 0 <= b < |bitmap| ==> (bitmap[b] <==> b < k)
    ensures FreeCount(bitmap) == if |bitmap| <= k then 0 else |bitmap| - k
  {
    if bitmap != [] {
      FreeCountFrom(bitmap[..|bitmap| - 1], k);
    }
  }

  /** The lowest unmarked block, or the length of the bitmap. */
  function Lowest(bitmap: seq<bool>): (b: nat)
    ensures b <= |bitmap| && (b < |bitmap| ==> !bitmap[b]) && forall c :: 0 <= c < b ==> bitmap[c]
  {
    if bitmap == [] then 0
    else
      var n := |bitmap| - 1;
      var b := Lowest(bitmap[..n]);
      if b < n || !bitmap[n] then b else n + 1
  }

  lemma LowestIs(bitmap: seq<bool>, b: nat)
    requires b <= |bitmap| && (b < |bitmap| ==> !bitmap[b]) && forall c :: 0 <= c < b ==> bitmap[c]
    ensures Lowest(bitmap) == b
  {
  }

  /** The bitmap after t calls of balloc. */
  function Taken(bitmap: seq<bool>, t: nat): (r: seq<bool>)
    ensures |r| == |bitmap|
  {
    if t == 0 then bitmap
    else
      var r := Taken(bitmap, t - 1);
      if Lowest(r) < |r| then r[Lowest(r) := true] else r
  }

  lemma {:induction false} TakenTwice(bitmap: seq<bool>, s: nat, t: nat)
    ensures Taken(Taken(bitmap, s), t) == Taken(bitmap, s + t)
    decreases t
  {
    if t > 0 {
      TakenTwice(bitmap, s, t - 1);
    }
  }

  /** The t blocks are taken from those that are free. */
  lemma {:induction false} TakenCount(bitmap: seq<bool>, t: nat)
    requires t <= FreeCount(bitmap)
    ensures FreeCount(Taken(bitmap, t)) == FreeCount(bitmap) - t
  {
    if t > 0 {
      TakenCount(bitmap, t - 1);
      var r := Taken(bitmap, t - 1);
      if Lowest(r) < |r| {
        FreeCountTaken(r, Lowest(r));
      } else {
        FreeCountNone(r);
      }
    }
  }

  /** Bit c is set by one of t calls of balloc. */
  predicate SetBy(bitmap: seq<bool>, t: nat, c: nat) {
    c < |bitmap| && !bitmap[c] && Taken(bitmap, t)[c]
  }

  /** The bitmap blocks that t calls of balloc write. */
  function BitBlocks(bitmap: seq<bool>, t: nat): set<nat> {
    if t == 0 then {}
    else
      var c := Lowest(Taken(bitmap, t - 1));
      BitBlocks(bitmap, t - 1) + if c < |bitmap| then {c / 4096} else {}
  }

  predicate SetIn(bitmap: seq<bool>, t: nat, k: nat, c: nat) {
    SetBy(bitmap, t, c) && c / 4096 == k
  }

  lemma {:induction false} TakenKeeps(bitmap: seq<bool>, t: nat, c: nat)
    requires c < |bitmap| && bitmap[c]
    ensures Taken(bitmap, t)[c]
  {
    if t > 0 {
      TakenKeeps(bitmap, t - 1, c);
    }
  }

  /** One call more sets one bit more. */
  lemma SetNext(bitmap: seq<bool>, t: nat, c: nat)
    requires t > 0
    ensures SetBy(bitmap, t, c) <==> SetBy(bitmap, t - 1, c) || (c == Lowest(Taken(bitmap, t - 1)) && c < |bitmap|)
  {
    if c < |bitmap| && bitmap[c] {
      TakenKeeps(bitmap, t - 1, c);
    }
  }

  /** They are the blocks with the bits set. */
  lemma {:induction false} BitBlocksAre(bitmap: seq<bool>, t: nat, k: nat)
    ensures k in BitBlocks(bitmap, t) <==> exists c :: SetIn(bitmap, t, k, c)
  {
    if t > 0 {
      BitBlocksAre(bitmap, t - 1, k);
      var before := t - 1;
      var low := Lowest(Taken(bitmap, before));
      SetNext(bitmap, t, low);
      if c: nat :| SetIn(bitmap, before, k, c) {
        SetNext(bitmap, t, c);
        assert SetIn(bitmap, t, k, c);
      }
      if c: nat :| SetIn(bitmap, t, k, c) {
        SetNext(bitmap, t, c);
        assert c == low || SetIn(bitmap, before, k, c);
      }
      if low < |bitmap| && low / 4096 == k {
        assert SetIn(bitmap, t, k, low);
      }
    }
  }

  /** On an image of one bitmap block it is that one. */
  lemma {:induction false} OneBitBlock(bitmap: seq<bool>, t: nat)
    requires |bitmap| <= BPB
    ensures BitBlocks(bitmap, t) <= {0} && (0 < t <= FreeCount(bitmap) ==> BitBlocks(bitmap, t) == {0})
  {
    if t > 0 {
      OneBitBlock(bitmap, t - 1);
      if t <= FreeCount(bitmap) {
        TakenCount(bitmap, t - 1);
        var r := Taken(bitmap, t - 1);
        if Lowest(r) == |r| {
          FreeCountNone(r);
        }
      }
    }
  }
}

/** The table-driven 32-bit CRC of the chat client and the frame check built on it.
    A machine word is its bits, highest first; `width` is taken as 32 bits, the size of
    the CRC field of a frame. */
module Crc {

  type Bits = seq<bool>
  type Word = w: Bits | |w| == 32 witness Zeros(32)
  type Byte = w: Bits | |w| == 8 witness Zeros(8)

  function Zeros(n: nat): (z: Bits)
    ensures |z| == n && forall i :: 0 <= i < n ==> !z[i]
  {
    seq(n, _ => false)
  }

  function Ones(n: nat): (z: Bits)
    ensures |z| == n && forall i :: 0 <= i < n ==> z[i]
  {
    seq(n, _ => true)
  }

  function Xor(a: Bits, b: Bits): (r: Bits)
    requires |a| == |b|
    ensures |r| == |a| && forall i :: 0 <= i < |r| ==> r[i] == (a[i] != b[i])
  {
    seq(|a|, i requires 0 <= i < |a| => a[i] != b[i])
  }

  function LeftBy(w: Bits, n: nat): (r: Bits)
    requires n <= |w|
    ensures |r| == |w|
  {
    w[n..] + Zeros(n)
  }

  function RightBy(w: Bits, n: nat): (r: Bits)
    requires n <= |w|
    ensures |r| == |w|
  {
    Zeros(n) + w[..|w| - n]
  }

  /** The n lowest bits of k. */
  function FromInt(k: nat, n: nat): (r: Bits)
    ensures |r| == n
  {
    if n == 0 then [] else FromInt(k / 2, n - 1) + [k % 2 == 1]
  }

  function ToInt(b: Bits): nat {
    if b == [] then 0 else 2 * ToInt(b[..|b| - 1]) + if b[|b| - 1] then 1 else 0
  }

  function Pow2(n: nat): nat {
    if n == 0 then 1 else 2 * Pow2(n - 1)
  }

  lemma {:induction false} ToFrom(b: Bits)
    ensures FromInt(ToInt(b), |b|) == b && ToInt(b) < Pow2(|b|)
  {
    if b != [] {
      ToFrom(b[..|b| - 1]);
      assert ToInt(b) / 2 == ToInt(b[..|b| - 1]);
      assert b == b[..|b| - 1] + [b[|b| - 1]];
    }
  }

  // ----- The register -----

  /** The exponents of the generator below 32: the frame check sequence of IEEE 802.3,
      clause 3.2.9. */
  predicate GeneratorTerm(e: int) {
    e in {26, 23, 22, 16, 12, 11, 10, 8, 7, 5, 4, 2, 1, 0}
  }

  function Generator(): (g: Word)
    ensures forall i :: 0 <= i < 32 ==> g[i] == GeneratorTerm(31 - i)
  {
    seq(32, i requires 0 <= i < 32 => GeneratorTerm(31 - i))
  }

  const POLYNOMIAL: Word := Generator()
  const INITIAL_REMAINDER: Word := Ones(32)
  const FINAL_XOR_VALUE: Word := Ones(32)

  function Bit(b: bool): nat {
    if b then 1 else 0
  }

  lemma Grow(k: nat, n: nat, high: nat, bit: bool)
    requires k == 2 * high + Bit(bit)
    ensures FromInt(k, n + 1) == FromInt(high, n) + [bit]
  {
  }

  lemma Nibble(k: nat, n: nat, high: nat, d: Bits)
    requires |d| == 4 && k == 16 * high + 8 * Bit(d[0]) + 4 * Bit(d[1]) + 2 * Bit(d[2]) + Bit(d[3])
    ensures FromInt(k, n + 4) == FromInt(high, n) + d
  {
    var k1 := 2 * high + Bit(d[0]);
    var k2 := 2 * k1 + Bit(d[1]);
    var k3 := 2 * k2 + Bit(d[2]);
    Grow(k1, n, high, d[0]);
    Grow(k2, n + 1, k1, d[1]);
    Grow(k3, n + 2, k2, d[2]);
    Grow(k, n + 3, k3, d[3]);
    Collect(FromInt(high, n), d);
  }

  lemma Collect(front: Bits, d: Bits)
    requires |d| == 4
    ensures front + [d[0]] + [d[1]] + [d[2]] + [d[3]] == front + d
  {
  }

  lemma Octet(k: nat, n: nat, mid: nat, high: nat, d: Bits, e: Bits)
    requires |d| == |e| == 4 && mid == 16 * high + 8 * Bit(d[0]) + 4 * Bit(d[1]) + 2 * Bit(d[2]) + Bit(d[3])
    requires k == 16 * mid + 8 * Bit(e[0]) + 4 * Bit(e[1]) + 2 * Bit(e[2]) + Bit(e[3])
    ensures FromInt(k, n + 8) == FromInt(high, n) + (d + e)
  {
    Nibble(mid, n, high, d);
    Nibble(k, n + 4, mid, e);
    Regroup(FromInt(high, n), d, e);
  }

  lemma Regroup(a: Bits, b: Bits, c: Bits)
    ensures a + b + c == a + (b + c)
  {
  }

  lemma UpperHalf(k: nat, n: nat)
    requires k == 0x04C1 && n == 16
    ensures FromInt(k, n) == [false, false, false, false] + [false, true, false, false] +
                             ([true, true, false, false] + [false, false, false, true])
  {
    var f, t := false, true;
    Octet(k, n - 8, 0x04C, 0x04, [t, t, f, f], [f, f, f, t]);
    Octet(0x04, n - 16, 0, 0, [f, f, f, f], [f, t, f, f]);
  }

  /** It is the constant of udp.h. */
  lemma PolynomialValue(k: nat, n: nat)
    requires k == 0x04C11DB7 && n == 32
    ensures POLYNOMIAL == FromInt(k, n)
  {
    var f, t := false, true;
    Octet(k, n - 8, 0x04C11DB, 0x04C11D, [t, f, t, t], [f, t, t, t]);
    Octet(0x04C11D, n - 16, 0x04C11, 0x04C1, [f, f, f, t], [t, t, f, t]);
    UpperHalf(0x04C1, n - 16);
    FourOctets(POLYNOMIAL, [f, f, f, f] + [f, t, f, f], [t, t, f, f] + [f, f, f, t],
               [f, f, f, t] + [t, t, f, t], [t, f, t, t] + [f, t, t, t]);
  }

  lemma FourOctets(w: Word, a: Byte, b: Byte, c: Byte, d: Byte)
    requires forall i :: 0 <= i < 8 ==> w[i] == a[i] && w[8 + i] == b[i] && w[16 + i] == c[i] && w[24 + i] == d[i]
    ensures w == a + b + c + d
  {
  }

  /** One turn of the inner loop of crcInit: multiply by x modulo the generator. */
  function Shift(r: Word): Word {
    if r[0] then Xor(LeftBy(r, 1), POLYNOMIAL) else LeftBy(r, 1)
  }

  function ShiftN(r: Word, n: nat): Word
    decreases n
  {
    if n == 0 then r else ShiftN(Shift(r), n - 1)
  }

  function Top(bit: bool): Word {
    [bit] + Zeros(31)
  }

  /** Take in one message bit after the other. */
  function Feed(r: Word, bits: Bits): Word
    decreases |bits|
  {
    if bits == [] then r else Feed(Shift(Xor(r, Top(bits[0]))), bits[1..])
  }

  function MessageBits(message: seq<Byte>): (s: Bits)
    ensures |s| == 8 * |message|
  {
    if message == [] then [] else MessageBits(message[..|message| - 1]) + message[|message| - 1]
  }

  /** The checksum, bit by bit. */
  function Checksum(message: seq<Byte>): Word {
    Xor(Feed(INITIAL_REMAINDER, MessageBits(message)), FINAL_XOR_VALUE)
  }

  lemma ShiftLinear(a: Word, b: Word)
    ensures Shift(Xor(a, b)) == Xor(Shift(a), Shift(b))
  {
  }

  lemma {:induction false} ShiftNLinear(a: Word, b: Word, n: nat)
    ensures ShiftN(Xor(a, b), n) == Xor(ShiftN(a, n), ShiftN(b, n))
    decreases n
  {
    if n > 0 {
      ShiftLinear(a, b);
      ShiftNLinear(Shift(a), Shift(b), n - 1);
    }
  }

  lemma ShiftInjective(r: Word)
    requires Shift(r) == Zeros(32)
    ensures r == Zeros(32)
  {
    assert POLYNOMIAL[31];
    forall i | 1 <= i < 32 ensures !r[i] { assert !Shift(r)[i - 1]; }
  }

  lemma {:induction false} ShiftNInjective(r: Word, n: nat)
    requires ShiftN(r, n) == Zeros(32)
    ensures r == Zeros(32)
    decreases n
  {
    if n > 0 {
      ShiftNInjective(Shift(r), n - 1);
      ShiftInjective(r);
    }
  }

  lemma {:induction false} FeedConcat(r: Word, a: Bits, b: Bits)
    ensures Feed(r, a + b) == Feed(Feed(r, a), b)
    decreases |a|
  {
    if a == [] {
      assert a + b == b;
    } else {
      assert (a + b)[1..] == a[1..] + b;
      FeedConcat(Shift(Xor(r, Top(a[0]))), a[1..], b);
    }
  }

  /** Up to 32 bits can be taken in at once: add them at the top, then shift. */
  lemma {:induction false} FeedAtOnce(r: Word, s: Bits)
    requires |s| <= 32
    ensures Feed(r, s) == ShiftN(Xor(r, s + Zeros(32 - |s|)), |s|)
    decreases |s|
  {
    if s == [] {
      assert Xor(r, s + Zeros(32)) == r;
    } else {
      var r', rest := Shift(Xor(r, Top(s[0]))), s[1..];
      FeedAtOnce(r', rest);
      assert 32 - |rest| == 33 - |s|;
      ShiftFirst(r, s, Xor(r, s + Zeros(32 - |s|)), Xor(r', rest + Zeros(33 - |s|)));
    }
  }

  lemma ShiftFirst(r: Word, s: Bits, x: Word, y: Word)
    requires 0 < |s| <= 32 && x == Xor(r, s + Zeros(32 - |s|))
    requires y == Xor(Shift(Xor(r, Top(s[0]))), s[1..] + Zeros(33 - |s|))
    ensures ShiftN(x, |s|) == ShiftN(y, |s| - 1)
  {
    assert Shift(x) == y by { SplitFirst(r, s); }
    UnfoldShiftN(x, y, |s|);
  }

  lemma UnfoldShiftN(x: Word, y: Word, n: nat)
    requires n > 0 && Shift(x) == y
    ensures ShiftN(x, n) == ShiftN(y, n - 1)
  {
  }

  /** Adding s at the top and shifting once: the first bit is taken in, the rest moves up. */
  lemma SplitFirst(r: Word, s: Bits)
    requires 0 < |s| <= 32
    ensures Shift(Xor(r, s + Zeros(32 - |s|))) ==
      Xor(Shift(Xor(r, Top(s[0]))), s[1..] + Zeros(33 - |s|))
  {
    var rest: Word := [false] + (s[1..] + Zeros(32 - |s|));
    assert Xor(r, s + Zeros(32 - |s|)) == Xor(Xor(r, Top(s[0])), rest);
    ShiftLinear(Xor(r, Top(s[0])), rest);
    assert Shift(rest) == s[1..] + Zeros(33 - |s|);
  }

  lemma {:induction false} ShiftNSmall(n: nat, t: Bits)
    requires n + |t| == 32
    ensures ShiftN(Zeros(n) + t, n) == t + Zeros(n)
    decreases n
  {
    if n > 0 {
      assert Shift(Zeros(n) + t) == Zeros(n - 1) + (t + [false]);
      ShiftNSmall(n - 1, t + [false]);
      assert t + [false] + Zeros(n - 1) == t + Zeros(n);
    } else {
      assert Zeros(0) + t == t == t + Zeros(0);
    }
  }

  // ----- The table -----

  /** What crcInit stores for a byte. */
  function Entry(b: Byte): Word {
    ShiftN(b + Zeros(24), 8)
  }

  ghost predicate GoodTable(table: seq<Word>) {
    |table| == 256 && forall d: nat :: d < 256 ==> table[d] == Entry(FromInt(d, 8))
  }

  /** One table lookup takes in a whole byte. */
  lemma TableStep(r: Word, b: Byte)
    ensures Xor(Entry(Xor(r[..8], b)), LeftBy(r, 8)) == Feed(r, b)
  {
    var high, low := Xor(r[..8], b) + Zeros(24), Zeros(8) + r[8..];
    FeedAtOnce(r, b);
    assert Xor(r, b + Zeros(24)) == Xor(high, low);
    ShiftNLinear(high, low, 8);
    ShiftNSmall(8, r[8..]);
  }

  // ----- The frame -----

  /** A word as memcpy writes it on a little-endian machine. */
  function Field(w: Word): (f: seq<Byte>)
    ensures |f| == 4
  {
    [w[24..], w[16..24], w[8..16], w[..8]]
  }

  function FromField(f: seq<Byte>): (w: Word)
    requires |f| == 4
  {
    var top: Bits := f[3];
    top + f[2] + f[1] + f[0]
  }

  /** What the sender puts on the wire. */
  function Frame(payload: seq<Byte>): seq<Byte> {
    payload + Field(Checksum(payload))
  }

  lemma FieldInverse(w: Word, f: seq<Byte>)
    requires |f| == 4
    ensures w == FromField(f) <==> f == Field(w)
  {
    var v := FromField(f);
    assert v[..8] == f[3] && v[8..16] == f[2] && v[16..24] == f[1] && v[24..] == f[0];
    assert w == w[..8] + w[8..16] + w[16..24] + w[24..];
  }

  lemma ToIntConcat(a: Bits, b: Byte)
    ensures ToInt(a + b) == 256 * ToInt(a) + ToInt(b)
  {
    ToIntBits(a, b, 8, 256);
  }

  lemma {:induction false} ToIntBits(a: Bits, b: Bits, n: nat, p: nat)
    requires |b| == n && p == Pow2(n)
    ensures ToInt(a + b) == p * ToInt(a) + ToInt(b)
  {
    if n > 0 {
      assert (a + b)[..|a| + n - 1] == a + b[..n - 1];
      ToIntBits(a, b[..n - 1], n - 1, Pow2(n - 1));
      Twice(ToInt(a), Pow2(n - 1));
    } else {
      assert a + b == a;
    }
  }

  lemma Twice(x: nat, y: nat)
    ensures 2 * (y * x) == 2 * y * x
  {
  }

  /** The least significant byte of the number is sent first. */
  lemma FieldNumber(w: Word)
    ensures var f := Field(w);
      ToInt(w) == ToInt(f[0]) + 0x100 * ToInt(f[1]) + 0x1_0000 * ToInt(f[2]) + 0x100_0000 * ToInt(f[3])
  {
    var b3: Byte, b2: Byte, b1: Byte, b0: Byte := w[..8], w[8..16], w[16..24], w[24..];
    assert w == b3 + b2 + b1 + b0;
    ToIntConcat(b3 + b2 + b1, b0);
    ToIntConcat(b3 + b2, b1);
    ToIntConcat(b3, b2);
  }

  lemma FrameExactly(message: seq<Byte>, crc: Word)
    requires |message| >= 4
    requires crc == FromField(message[|message| - 4..])
    ensures crc == Checksum(message[..|message| - 4]) <==> exists payload :: message == Frame(payload)
  {
    var n := |message| - 4;
    FieldInverse(crc, message[n..]);
    FieldInverse(Checksum(message[..n]), message[n..]);
    if crc == Checksum(message[..n]) {
      assert message == Frame(message[..n]);
    }
    forall payload | message == Frame(payload) ensures payload == message[..n] && message[n..] == Field(Checksum(payload)) {
    }
  }

  datatype Check = Accepted | Abandoned | NegativeLength

  /** crcInit and crcCompute, with the C global `crcTable` as a field. */
  class CrcTable {
    const crcTable: array<Word>

    /** crcInit. */
    constructor ()
      ensures fresh(crcTable) && GoodTable(crcTable[..])
    {
      crcTable := new Word[256](_ => Zeros(32));
      new;
      for dividend := 0 to 256
        invariant forall d: nat :: d < dividend ==> crcTable[d] == Entry(FromInt(d, 8))
      {
        crcTable[dividend] := TableEntry(dividend);
      }
    }

    /** crcInit's inner loop: the dividend shifted eight times. */
    static method TableEntry(dividend: nat) returns (remainder: Word)
      requires dividend < 256
      ensures remainder == Entry(FromInt(dividend, 8))
    {
      remainder := FromInt(dividend, 8) + Zeros(24);
      for bit := 0 to 8
        invariant ShiftN(remainder, 8 - bit) == Entry(FromInt(dividend, 8))
      {
        if remainder[0] {
          remainder := Xor(LeftBy(remainder, 1), POLYNOMIAL);
        } else {
          remainder := LeftBy(remainder, 1);
        }
      }
    }

    method CrcCompute(message: seq<Byte>, nBytes: nat) returns (crc: Word)
      requires GoodTable(crcTable[..]) && nBytes <= |message|
      ensures crc == Checksum(message[..nBytes])
    {
      var remainder := INITIAL_REMAINDER;
      for offset := 0 to nBytes
        invariant remainder == Feed(INITIAL_REMAINDER, MessageBits(message[..offset]))
      {
        var byte: Byte := Xor(RightBy(remainder, 24)[24..], message[offset]);
        TableStep(remainder, message[offset]);
        ToFrom(byte);
        assert Pow2(8) == 256;
        assert RightBy(remainder, 24)[24..] == remainder[..8];
        assert crcTable[..][ToInt(byte)] == Entry(byte);
        assert message[..offset + 1][..offset] == message[..offset];
        FeedConcat(INITIAL_REMAINDER, MessageBits(message[..offset]), message[offset]);
        remainder := Xor(crcTable[ToInt(byte)], LeftBy(remainder, 8));
      }
      crc := Xor(remainder, FINAL_XOR_VALUE);
    }

    /** The test of recvThread: the CRC field is copied from the last four bytes and
        compared with the CRC of the others. From a shorter message it copies a negative
        number of bytes. */
    method CheckFrame(rcvMsg: seq<Byte>) returns (r: Check)
      requires GoodTable(crcTable[..])
      ensures r.NegativeLength? <==> |rcvMsg| < 4
      ensures r.Accepted? <==> exists payload :: rcvMsg == Frame(payload)
    {
      if |rcvMsg| < 4 {
        return NegativeLength;
      }
      var n := |rcvMsg| - 4;
      var rcvCrc := FromField(rcvMsg[n..]);
      var crc := CrcCompute(rcvMsg[..n], n);
      assert rcvMsg[..n][..n] == rcvMsg[..n];
      FrameExactly(rcvMsg, rcvCrc);
      r := if crc == rcvCrc then Accepted else Abandoned;
    }
  }

  // ----- Long division -----

  /** Add p to the front of b. */
  function AddFront(b: Bits, p: Bits): (r: Bits)
    requires |p| <= |b|
    ensures |r| == |b|
  {
    Xor(b[..|p|], p) + b[|p|..]
  }

  /** Schoolbook division by x^32 + POLYNOMIAL: while more than 32 bits are left, drop the
      first, subtracting the divisor if it is 1. What is left is the remainder. */
  function Remainder(dividend: Bits): (r: Bits)
    requires |dividend| >= 32
    ensures |r| == 32
    decreases |dividend|
  {
    if |dividend| == 32 then dividend
    else if dividend[0] then Remainder(AddFront(dividend[1..], POLYNOMIAL))
    else Remainder(dividend[1..])
  }

  /** q times x^32 + POLYNOMIAL, without carries. */
  function Product(q: Bits): (r: Bits)
    ensures |r| == |q| + 32
    decreases |q|
  {
    if q == [] then Zeros(32)
    else Xor((if q[0] then [true] + POLYNOMIAL else Zeros(33)) + Zeros(|q| - 1), [false] + Product(q[1..]))
  }

  /** q times the divisor, plus r. */
  function Dividend(q: Bits, r: Word): (d: Bits)
    ensures |d| == |q| + 32
  {
    Xor(Product(q), Zeros(|q|) + r)
  }

  /** The divisor times one bit, at the front of n more bits. */
  function Multiple(bit: bool, n: nat): (r: Bits)
    ensures |r| == n + 33
  {
    (if bit then [true] + POLYNOMIAL else Zeros(33)) + Zeros(n)
  }

  lemma ProductOf(bit: bool, q: Bits)
    ensures Product([bit] + q) == Xor(Multiple(bit, |q|), [false] + Product(q))
  {
    assert ([bit] + q)[1..] == q;
  }

  lemma Shifted(front: Bits, p: Bits, z: Bits, p': Bits, z': Bits)
    requires |p| == |z| == |front| - 1 && p' == Xor(front, [false] + p) && z' == [false] + z
    ensures Xor(p', z') == Xor(front, [false] + Xor(p, z))
  {
  }

  /** One bit more in front of the quotient. */
  lemma OneBitMore(bit: bool, q: Bits, r: Word)
    ensures Dividend([bit] + q, r) == Xor(Multiple(bit, |q|), [false] + Dividend(q, r))
  {
    ProductOf(bit, q);
    assert Zeros(|q| + 1) + r == [false] + (Zeros(|q|) + r);
    Shifted(Multiple(bit, |q|), Product(q), Zeros(|q|) + r, Product([bit] + q), Zeros(|q| + 1) + r);
  }

  lemma NoBits(r: Word)
    ensures Dividend([], r) == r
  {
    assert Zeros(0) + r == r;
  }

  lemma AddedBack(dividend: Bits, d: Bits, n: nat)
    requires |dividend| == n + 33
    requires d == if dividend[0] then AddFront(dividend[1..], POLYNOMIAL) else dividend[1..]
    ensures dividend == Xor(Multiple(dividend[0], n), [false] + d)
  {
  }

  lemma {:induction false} DivisionExact(dividend: Bits) returns (q: Bits)
    requires |dividend| >= 32
    ensures |q| == |dividend| - 32 && dividend == Dividend(q, Remainder(dividend))
    decreases |dividend|
  {
    if |dividend| == 32 {
      q := [];
      NoBits(dividend);
    } else {
      var d := if dividend[0] then AddFront(dividend[1..], POLYNOMIAL) else dividend[1..];
      var q' := DivisionExact(d);
      q := [dividend[0]] + q';
      OneBitMore(dividend[0], q', Remainder(d));
      AddedBack(dividend, d, |q'|);
    }
  }

  lemma Cancelled(front: Bits, u: Bits, v: Bits)
    requires |u| == |v| == |front| - 1 && Xor(front, [false] + u) == Xor(front, [false] + v)
    ensures u == v
  {
    var x, y := Xor(front, [false] + u), Xor(front, [false] + v);
    forall i | 0 <= i < |u| ensures u[i] == v[i] {
      assert x[i + 1] == (front[i + 1] != u[i]) && y[i + 1] == (front[i + 1] != v[i]);
    }
  }

  lemma FirstBit(bit: bool, q: Bits, r: Word)
    ensures Dividend([bit] + q, r)[0] == bit
  {
    OneBitMore(bit, q, r);
  }

  /** Quotient and remainder are determined. */
  lemma {:induction false} OneDivision(p: Bits, q: Bits, r: Word, s: Word)
    requires |p| == |q| && Dividend(p, r) == Dividend(q, s)
    ensures p == q && r == s
    decreases |p|
  {
    if p == [] {
      NoBits(r);
      NoBits(s);
    } else {
      var p1, q1 := p[1..], q[1..];
      assert p == [p[0]] + p1 && q == [q[0]] + q1;
      FirstBit(p[0], p1, r);
      FirstBit(q[0], q1, s);
      OneBitMore(p[0], p1, r);
      OneBitMore(q[0], q1, s);
      Cancelled(Multiple(p[0], |p1|), Dividend(p1, r), Dividend(q1, s));
      OneDivision(p1, q1, r, s);
    }
  }

  /** It is the remainder: the one word that, added to some multiple of the divisor, gives
      the dividend. */
  lemma RemainderExactly(dividend: Bits, r: Word)
    requires |dividend| >= 32
    ensures r == Remainder(dividend) <==> exists q :: |q| == |dividend| - 32 && dividend == Dividend(q, r)
  {
    var q := DivisionExact(dividend);
    if p :| |p| == |dividend| - 32 && dividend == Dividend(p, r) {
      OneDivision(p, q, r, Remainder(dividend));
    }
  }

  /** Feeding a message divides it, times x^32 and with the register's contents added at
      the front, by the generator. */
  lemma {:induction false} FeedDivides(r: Word, bits: Bits)
    ensures Feed(r, bits) == Remainder(AddFront(bits + Zeros(32), r))
    decreases |bits|
  {
    if bits == [] {
      assert AddFront(bits + Zeros(32), r) == r;
    } else {
      FeedDivides(Shift(Xor(r, Top(bits[0]))), bits[1..]);
      assert (bits + Zeros(32))[1..] == bits[1..] + Zeros(32);
      DivideStep(r, bits + Zeros(32));
    }
  }

  lemma DivideStep(r: Word, s: Bits)
    requires |s| > 32
    ensures Remainder(AddFront(s, r)) == Remainder(AddFront(s[1..], Shift(Xor(r, Top(s[0])))))
  {
    var d, t := AddFront(s, r), LeftBy(r, 1);
    assert d[0] == (r[0] != s[0]);
    assert d[1..] == AddFront(s[1..], t) by {
      assert forall i :: 0 <= i < 31 ==> d[1..][i] == (s[1..][i] != t[i]);
    }
    assert LeftBy(Xor(r, Top(s[0])), 1) == t;
    if d[0] { AddFrontTwice(s[1..], t, POLYNOMIAL); }
  }

  lemma AddFrontTwice(s: Bits, p: Bits, q: Bits)
    requires |p| == |q| <= |s|
    ensures AddFront(AddFront(s, p), q) == AddFront(s, Xor(p, q))
  {
  }

  /** The checksum is the remainder of a polynomial division: of the message followed by
      32 zeros, its first 32 bits complemented; the remainder itself is complemented. */
  lemma ChecksumIsRemainder(message: seq<Byte>)
    ensures Checksum(message) ==
      Xor(Remainder(AddFront(MessageBits(message) + Zeros(32), Ones(32))), Ones(32))
  {
    FeedDivides(INITIAL_REMAINDER, MessageBits(message));
  }

  // ----- Error detection -----

  lemma {:induction false} FeedLinear(r: Word, s: Word, a: Bits, b: Bits)
    requires |a| == |b|
    ensures Feed(Xor(r, s), Xor(a, b)) == Xor(Feed(r, a), Feed(s, b))
    decreases |a|
  {
    if a != [] {
      var u, v := Xor(r, Top(a[0])), Xor(s, Top(b[0]));
      assert Xor(Xor(r, s), Top(Xor(a, b)[0])) == Xor(u, v);
      ShiftLinear(u, v);
      assert Xor(a, b)[1..] == Xor(a[1..], b[1..]);
      FeedLinear(Shift(u), Shift(v), a[1..], b[1..]);
    }
  }

  lemma {:induction false} FeedZeros(r: Word, n: nat)
    ensures Feed(r, Zeros(n)) == ShiftN(r, n)
    decreases n
  {
    if n > 0 {
      assert Xor(r, Top(false)) == r;
      assert Zeros(n)[1..] == Zeros(n - 1);
      FeedZeros(Shift(r), n - 1);
    }
  }

  lemma {:induction false} ShiftNZero(n: nat)
    ensures ShiftN(Zeros(32), n) == Zeros(32)
  {
    if n > 0 {
      assert Shift(Zeros(32)) == Zeros(32);
      ShiftNZero(n - 1);
    }
  }

  lemma BurstShifted(before: nat, burst: Bits, after: nat)
    requires |burst| <= 32
    ensures Feed(Zeros(32), Zeros(before) + burst + Zeros(after)) == ShiftN(Feed(Zeros(32), burst), after)
  {
    FeedConcat(Zeros(32), Zeros(before) + burst, Zeros(after));
    FeedConcat(Zeros(32), Zeros(before), burst);
    FeedZeros(Zeros(32), before);
    ShiftNZero(before);
    FeedZeros(Feed(Zeros(32), burst), after);
  }

  /** A nonzero burst of at most 32 bits, wherever it lies, leaves the register nonzero. */
  lemma BurstSurvives(before: nat, burst: Bits, after: nat)
    requires |burst| <= 32 && burst != Zeros(|burst|)
    ensures Feed(Zeros(32), Zeros(before) + burst + Zeros(after)) != Zeros(32)
  {
    BurstShifted(before, burst, after);
    var w := Xor(Zeros(32), burst + Zeros(32 - |burst|));
    FeedAtOnce(Zeros(32), burst);
    var k :| 0 <= k < |burst| && burst[k];
    assert w[k];
    ShiftNNonzero(w, |burst|);
    ShiftNNonzero(Feed(Zeros(32), burst), after);
  }

  lemma ShiftNNonzero(r: Word, n: nat)
    requires r != Zeros(32)
    ensures ShiftN(r, n) != Zeros(32)
  {
    if ShiftN(r, n) == Zeros(32) {
      ShiftNInjective(r, n);
    }
  }

  /** Two messages of equal length that differ, but only within 32 consecutive bits, have
      different checksums. */
  lemma BurstDetected(m1: seq<Byte>, m2: seq<Byte>, at: nat)
    requires |m1| == |m2| && MessageBits(m1) != MessageBits(m2)
    requires forall i :: 0 <= i < 8 * |m1| && !(at <= i < at + 32) ==> MessageBits(m1)[i] == MessageBits(m2)[i]
    ensures Checksum(m1) != Checksum(m2)
  {
    var x, y := MessageBits(m1), MessageBits(m2);
    var p, q := Feed(INITIAL_REMAINDER, x), Feed(INITIAL_REMAINDER, y);
    DifferenceSurvives(x, y, at);
    FeedLinear(INITIAL_REMAINDER, INITIAL_REMAINDER, x, y);
    assert Xor(INITIAL_REMAINDER, INITIAL_REMAINDER) == Zeros(32);
    XorEqual(p, q, FINAL_XOR_VALUE);
  }

  lemma XorEqual(p: Word, q: Word, mask: Word)
    requires Xor(p, q) != Zeros(32)
    ensures Xor(p, mask) != Xor(q, mask)
  {
    var i :| 0 <= i < 32 && Xor(p, q)[i];
    assert Xor(p, mask)[i] != Xor(q, mask)[i];
  }

  lemma DifferenceSurvives(x: Bits, y: Bits, at: nat)
    requires |x| == |y| && x != y
    requires forall i :: 0 <= i < |x| && !(at <= i < at + 32) ==> x[i] == y[i]
    ensures Feed(Zeros(32), Xor(x, y)) != Zeros(32)
  {
    var k :| 0 <= k < |x| && x[k] != y[k];
    Confined(Xor(x, y), at, if at + 32 < |x| then at + 32 else |x|, k);
  }

  lemma Confined(d: Bits, at: nat, end: nat, k: nat)
    requires at <= k < end <= |d| && end - at <= 32 && d[k]
    requires forall i :: 0 <= i < |d| && !(at <= i < end) ==> !d[i]
    ensures Feed(Zeros(32), d) != Zeros(32)
  {
    Window(d, at, end);
    assert d[at..end][k - at];
    BurstSurvives(at, d[at..end], |d| - end);
  }

  lemma Window(d: Bits, at: nat, end: nat)
    requires at <= end <= |d| && forall i :: 0 <= i < |d| && !(at <= i < end) ==> !d[i]
    ensures d == Zeros(at) + d[at..end] + Zeros(|d| - end)
  {
  }

  /** A frame hit, on its way, by one burst of at most 32 bits that spares the CRC field,
      or by any change of the CRC field alone, is abandoned. */
  lemma DamageAbandoned(sent: seq<Byte>, received: seq<Byte>, at: nat)
    requires |received| == |Frame(sent)| && received != Frame(sent)
    requires var n := |sent|;
      || (received[n..] == Frame(sent)[n..]
          && forall i :: 0 <= i < 8 * n && !(at <= i < at + 32) ==> MessageBits(sent)[i] == MessageBits(received[..n])[i])
      || received[..n] == sent
    ensures !exists payload :: received == Frame(payload)
  {
    var n := |sent|;
    forall payload ensures received != Frame(payload) {
      if received == Frame(payload) {
        assert |payload| == n;
        assert received[..n] == payload && received[n..] == Field(Checksum(payload));
        if payload != sent {
          assert Frame(sent)[n..] == Field(Checksum(sent));
          FieldInverse(Checksum(sent), Field(Checksum(sent)));
          FieldInverse(Checksum(payload), Field(Checksum(sent)));
          MessageBitsInjective(sent, payload);
          BurstDetected(sent, payload, at);
          assert false;
        }
      }
    }
  }

  /** In general, damage goes unnoticed exactly when the change of the CRC field is the
      remainder of the change of the payload. */
  lemma DamageAcceptedExactlyWhen(sent: seq<Byte>, received: seq<Byte>)
    requires |received| == |Frame(sent)|
    ensures var n := |sent|;
      (exists payload :: received == Frame(payload)) <==>
        Feed(Zeros(32), Xor(MessageBits(sent), MessageBits(received[..n])))
          == Xor(FromField(Frame(sent)[n..]), FromField(received[n..]))
  {
    var n, crc := |sent|, FromField(received[|sent|..]);
    assert Frame(sent)[n..] == Field(Checksum(sent));
    FieldInverse(Checksum(sent), Frame(sent)[n..]);
    FrameExactly(received, crc);
    ChecksumChange(sent, received[..n]);
    var c, c' := Checksum(sent), Checksum(received[..n]);
    if Xor(c, c') == Xor(c, crc) {
      forall i | 0 <= i < 32 ensures c'[i] == crc[i] {
        assert Xor(c, c')[i] == Xor(c, crc)[i];
      }
      assert c' == crc;
    }
  }

  lemma ChecksumChange(m1: seq<Byte>, m2: seq<Byte>)
    requires |m1| == |m2|
    ensures Feed(Zeros(32), Xor(MessageBits(m1), MessageBits(m2))) == Xor(Checksum(m1), Checksum(m2))
  {
    var x, y := MessageBits(m1), MessageBits(m2);
    FeedLinear(INITIAL_REMAINDER, INITIAL_REMAINDER, x, y);
    assert Xor(INITIAL_REMAINDER, INITIAL_REMAINDER) == Zeros(32);
    var p, q := Feed(INITIAL_REMAINDER, x), Feed(INITIAL_REMAINDER, y);
    assert Xor(Xor(p, FINAL_XOR_VALUE), Xor(q, FINAL_XOR_VALUE)) == Xor(p, q);
  }

  /** A burst across the border between payload and CRC field can go unnoticed: for every
      payload there is another whose frame differs only in the payload's last bit and the
      30 bits that follow it on the wire. */
  lemma BorderBurstMissed(sent: seq<Byte>) returns (other: seq<Byte>)
    requires sent != []
    ensures |other| == |sent| && other != sent
    ensures forall i :: 0 <= i < 8 * |sent| + 32 && !(8 * |sent| - 1 <= i < 8 * |sent| + 30) ==>
      MessageBits(Frame(sent))[i] == MessageBits(Frame(other))[i]
  {
    var n := |sent| - 1;
    var last: Byte := sent[n][7 := !sent[n][7]];
    other := sent[..n] + [last];
    assert sent == sent[..n] + [sent[n]] && sent[..n] == other[..n];
    LastBitChange(MessageBits(sent), MessageBits(other));
    ChecksumChange(sent, other);
    FrameBits(sent);
    FrameBits(other);
    var c, c' := Checksum(sent), Checksum(other);
    assert Xor(c, c') == POLYNOMIAL;
    forall i | 0 <= i < 32 ensures c[i] != c'[i] <==> POLYNOMIAL[i] {
      assert Xor(c, c')[i] == POLYNOMIAL[i];
    }
  }

  lemma LastBitChange(x: Bits, y: Bits)
    requires |x| == |y| > 0 && forall i :: 0 <= i < |x| ==> (x[i] != y[i] <==> i == |x| - 1)
    ensures Feed(Zeros(32), Xor(x, y)) == POLYNOMIAL
  {
    var k := |x| - 1;
    assert Xor(x, y) == Zeros(k) + [true];
    FeedConcat(Zeros(32), Zeros(k), [true]);
    FeedZeros(Zeros(32), k);
    ShiftNZero(k);
    assert Xor(Zeros(32), Top(true)) == Top(true) && Shift(Top(true)) == POLYNOMIAL;
    assert Feed(Zeros(32), [true]) == Feed(Shift(Top(true)), []);
  }

  /** The bits of a frame, as they are sent. */
  lemma FrameBits(payload: seq<Byte>)
    ensures var c := Checksum(payload);
      MessageBits(Frame(payload)) == MessageBits(payload) + (c[24..] + c[16..24] + c[8..16] + c[..8])
  {
    var f := Field(Checksum(payload));
    OneMoreByte(payload, f[0]);
    OneMoreByte(payload + [f[0]], f[1]);
    OneMoreByte(payload + [f[0]] + [f[1]], f[2]);
    OneMoreByte(payload + [f[0]] + [f[1]] + [f[2]], f[3]);
    assert payload + f == payload + [f[0]] + [f[1]] + [f[2]] + [f[3]];
    FourMore(MessageBits(payload), f[0], f[1], f[2], f[3]);
  }

  lemma OneMoreByte(m: seq<Byte>, b: Byte)
    ensures MessageBits(m + [b]) == MessageBits(m) + b
  {
    assert (m + [b])[..|m|] == m;
  }

  lemma FourMore(s: Bits, a: Bits, b: Bits, c: Bits, d: Bits)
    ensures s + a + b + c + d == s + (a + b + c + d)
  {
  }

  lemma {:induction false} MessageBitsInjective(m1: seq<Byte>, m2: seq<Byte>)
    requires |m1| == |m2| && m1 != m2
    ensures MessageBits(m1) != MessageBits(m2)
  {
    var last := |m1| - 1;
    if MessageBits(m1) == MessageBits(m2) {
      var b1, b2 := MessageBits(m1[..last]), MessageBits(m2[..last]);
      assert b1 == MessageBits(m1)[..8 * last] == MessageBits(m2)[..8 * last] == b2;
      assert m1[last] == MessageBits(m1)[8 * last..] == MessageBits(m2)[8 * last..] == m2[last];
      assert m1 == m1[..last] + [m1[last]] && m2 == m2[..last] + [m2[last]];
      MessageBitsInjective(m1[..last], m2[..last]);
    }
  }
}

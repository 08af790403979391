/** Machine words as bounded integers, with the bitwise OR that the source uses to merge fields. */
module Words {

  type Word = w: int | 0 <= w < 0x1_0000_0000

  type Byte = b: int | 0 <= b < 256

  datatype Option<+T> = None | Some(value: T)

  /** Addition of 32-bit addresses. */
  function Add32(a: int, b: int): Word { (a + b) % 0x1_0000_0000 }

  lemma Mod32(x: int, q: int, r: int)
    requires x == q * 0x1_0000_0000 + r && 0 <= r < 0x1_0000_0000
    ensures x % 0x1_0000_0000 == r
  {
  }

  /** Sums of addresses may be taken in any grouping. */
  lemma AddSum(a: int, b: int, c: int)
    ensures Add32(Add32(a, b), c) == Add32(a, b + c)
  {
    var s: int := Add32(a, b);
    var t: int := Add32(s, c);
    var p, q := (a + b) / 0x1_0000_0000, (s + c) / 0x1_0000_0000;
    assert a + b == p * 0x1_0000_0000 + s;
    assert s + c == q * 0x1_0000_0000 + t;
    Mod32(a + (b + c), p + q, t);
  }

  lemma AddZero(a: Word)
    ensures Add32(a, 0) == a
  {
    Mod32(a + 0, 0, a);
  }

  /** Whole turns of the address space do not matter. */
  lemma AddTurns(a: int, b: int, k: int)
    ensures Add32(a, b + k * 0x1_0000_0000) == Add32(a, b)
  {
    var s: int := Add32(a, b);
    var q := (a + b) / 0x1_0000_0000;
    assert a + b == q * 0x1_0000_0000 + s;
    Mod32(a + (b + k * 0x1_0000_0000), q + k, s);
  }

  function Abs(x: int): nat {
    if x < 0 then -x else x
  }

  /** `a` shifted left by `k` bits. */
  function Shl(a: nat, k: nat): nat {
    if k == 0 then a else 2 * Shl(a, k - 1)
  }

  /** Bit `i` of a mask. */
  predicate Bit(mask: nat, i: nat) { if i == 0 then mask % 2 == 1 else Bit(mask / 2, i - 1) }

  /** `a` shifted right by `k` bits. */
  function Shr(a: nat, k: nat): nat { if k == 0 then a else Shr(a / 2, k - 1) }

  /** A two's-complement reading of a field whose sign bit weighs `half`. */
  function Signed(v: nat, half: nat): int {
    if v < half then v else v - 2 * half
  }

  /** Bitwise OR, bit by bit from the least significant end. */
  function BitOr(a: nat, b: nat): nat {
    if a == 0 && b == 0 then 0
    else 2 * BitOr(a / 2, b / 2) + (if a % 2 == 1 || b % 2 == 1 then 1 else 0)
  }

  lemma {:induction false} BitOrZero(a: nat)
    ensures BitOr(a, 0) == a
  {
    if a != 0 { BitOrZero(a / 2); }
  }

  lemma {:induction false} ZeroBitOr(a: nat)
    ensures BitOr(0, a) == a
  {
    if a != 0 { ZeroBitOr(a / 2); }
  }

  lemma BitStep(m: nat, b: nat, i: nat)
    requires b < 2
    ensures Bit(2 * m + b, 0) <==> b == 1
    ensures Bit(2 * m + b, i + 1) <==> Bit(m, i)
  {
    assert (2 * m + b) / 2 == m && (2 * m + b) % 2 == b;
  }

  /** OR bit by bit. */
  lemma {:induction false} BitOrBits(a: nat, b: nat, i: nat)
    ensures Bit(BitOr(a, b), i) <==> Bit(a, i) || Bit(b, i)
  {
    hide BitOr, Bit;
    var c, d := a / 2, b / 2;
    var x, y := a % 2, b % 2;
    assert a == 2 * c + x && b == 2 * d + y;
    BitOrStep(c, x, d, y);
    var j := if i > 0 then i - 1 else 0;
    BitStep(c, x, j);
    BitStep(d, y, j);
    BitStep(BitOr(c, d), if x == 1 || y == 1 then 1 else 0, j);
    if i > 0 { BitOrBits(c, d, j); }
  }

  lemma {:induction false} OneBit(k: nat)
    ensures Bit(Shl(1, k), k)
  {
    if k > 0 {
      OneBit(k - 1);
      hide Bit;
      BitStep(Shl(1, k - 1), 0, k - 1);
    }
  }

  lemma {:induction false} BitOrBound(a: nat, b: nat, k: nat)
    requires a < Shl(1, k) && b < Shl(1, k)
    ensures BitOr(a, b) < Shl(1, k)
  {
    if k != 0 { BitOrBound(a / 2, b / 2, k - 1); }
  }

  lemma BitOrStep(a: nat, b: nat, c: nat, d: nat)
    requires b < 2 && d < 2
    ensures BitOr(2 * a + b, 2 * c + d) == 2 * BitOr(a, c) + (if b == 1 || d == 1 then 1 else 0)
  {
    assert (2 * a + b) / 2 == a && (2 * c + d) / 2 == c;
  }

  /** OR works separately on the bits below and above position `k`. */
  lemma {:induction false} BitOrSplit(a: nat, b: nat, c: nat, d: nat, k: nat)
    requires b < Shl(1, k) && d < Shl(1, k)
    ensures BitOr(Shl(a, k) + b, Shl(c, k) + d) == Shl(BitOr(a, c), k) + BitOr(b, d)
  {
    if k == 0 {
    } else {
      BitOrSplit(a, b / 2, c, d / 2, k - 1);
      BitOrStep(Shl(a, k - 1) + b / 2, b % 2, Shl(c, k - 1) + d / 2, d % 2);
      BitOrStep(b / 2, b % 2, d / 2, d % 2);
    }
  }

  lemma {:induction false} ShlShl(a: nat, j: nat, k: nat)
    ensures Shl(Shl(a, j), k) == Shl(a, j + k)
  {
    if k != 0 { ShlShl(a, j, k - 1); }
  }

  /** ORing a value into a field that holds zero stores it there and changes nothing else. */
  lemma BitOrIntoEmptyField(high: nat, low: nat, v: nat, at: nat, width: nat)
    requires low < Shl(1, at) && v < Shl(1, width)
    ensures BitOr(Shl(Shl(high, width), at) + low, Shl(v, at)) == Shl(Shl(high, width) + v, at) + low
  {
    BitOrSplit(Shl(high, width), low, v, 0, at);
    BitOrZero(low);
    ShlZero(width);
    BitOrSplit(high, 0, 0, v, width);
    BitOrZero(high);
    ZeroBitOr(v);
  }

  lemma {:induction false} ShlZero(k: nat)
    ensures Shl(0, k) == 0
  {
    if k != 0 { ShlZero(k - 1); }
  }

  lemma {:induction false} ShlLinear(a: nat, k: nat)
    ensures Shl(a, k) == a * Shl(1, k)
  {
    if k != 0 { ShlLinear(a, k - 1); }
  }

  // ----- bitwise AND -----

  function BitAnd(a: nat, b: nat): nat {
    if a == 0 || b == 0 then 0
    else 2 * BitAnd(a / 2, b / 2) + (if a % 2 == 1 && b % 2 == 1 then 1 else 0)
  }

  lemma {:induction false} BitAndComm(a: nat, b: nat)
    ensures BitAnd(a, b) == BitAnd(b, a)
  {
    if a != 0 && b != 0 { BitAndComm(a / 2, b / 2); }
  }

  lemma BitAndZero(a: nat)
    ensures BitAnd(a, 0) == 0
  {
  }

  lemma BitAndStep(a: nat, b: nat, c: nat, d: nat)
    requires b < 2 && d < 2
    ensures BitAnd(2 * a + b, 2 * c + d) == 2 * BitAnd(a, c) + (if b == 1 && d == 1 then 1 else 0)
  {
    assert (2 * a + b) / 2 == a && (2 * c + d) / 2 == c;
  }

  lemma Halves(a: nat, b: nat, k: nat)
    requires k > 0 && b < Shl(1, k)
    ensures Shl(a, k) + b == 2 * (Shl(a, k - 1) + b / 2) + b % 2 && b == 2 * (b / 2) + b % 2 && b / 2 < Shl(1, k - 1)
  {
  }

  /** AND works separately on the bits below and above position `k`. */
  lemma {:induction false} BitAndSplit(a: nat, b: nat, c: nat, d: nat, k: nat)
    requires b < Shl(1, k) && d < Shl(1, k)
    ensures BitAnd(Shl(a, k) + b, Shl(c, k) + d) == Shl(BitAnd(a, c), k) + BitAnd(b, d)
  {
    hide BitAnd;
    if k == 0 {
      BitAndZero(0);
    } else {
      Halves(a, b, k);
      Halves(c, d, k);
      BitAndSplit(a, b / 2, c, d / 2, k - 1);
      BitAndStep(Shl(a, k - 1) + b / 2, b % 2, Shl(c, k - 1) + d / 2, d % 2);
      BitAndStep(b / 2, b % 2, d / 2, d % 2);
    }
  }

  /** A mask of `k` ones keeps `k` bits. */
  lemma {:induction false} BitAndOnes(b: nat, k: nat)
    requires b < Shl(1, k)
    ensures BitAnd(b, Shl(1, k) - 1) == b
  {
    if k != 0 {
      BitAndOnes(b / 2, k - 1);
      BitAndStep(b / 2, b % 2, Shl(1, k - 1) - 1, 1);
    }
  }

  /** A mask of `n` ones at position `at` keeps exactly that field. */
  lemma BitAndField(high: nat, field: nat, low: nat, at: nat, n: nat)
    requires low < Shl(1, at) && field < Shl(1, n)
    ensures BitAnd(Shl(Shl(high, n) + field, at) + low, Shl(Shl(1, n) - 1, at)) == Shl(field, at)
  {
    BitAndSplit(Shl(high, n) + field, low, Shl(1, n) - 1, 0, at);
    BitAndSplit(high, field, 0, Shl(1, n) - 1, n);
    BitAndOnes(field, n);
    ShlZero(n);
  }

  // ----- bitwise exclusive OR -----

  function BitXor(a: nat, b: nat): nat {
    if a == 0 && b == 0 then 0
    else 2 * BitXor(a / 2, b / 2) + (if a % 2 != b % 2 then 1 else 0)
  }

  lemma BitXorStep(a: nat, b: nat, c: nat, d: nat)
    requires b < 2 && d < 2
    ensures BitXor(2 * a + b, 2 * c + d) == 2 * BitXor(a, c) + (if b != d then 1 else 0)
  {
    assert (2 * a + b) / 2 == a && (2 * c + d) / 2 == c;
  }

  /** Exclusive OR bit by bit. */
  lemma {:induction false} BitXorBits(a: nat, b: nat, i: nat)
    ensures Bit(BitXor(a, b), i) <==> Bit(a, i) != Bit(b, i)
  {
    hide BitXor, Bit;
    var c, d := a / 2, b / 2;
    var x, y := a % 2, b % 2;
    assert a == 2 * c + x && b == 2 * d + y;
    BitXorStep(c, x, d, y);
    var j := if i > 0 then i - 1 else 0;
    BitStep(c, x, j);
    BitStep(d, y, j);
    BitStep(BitXor(c, d), if x != y then 1 else 0, j);
    if i > 0 { BitXorBits(c, d, j); }
  }

  /** Exclusive OR works separately on the bits below and above position `k`. */
  lemma {:induction false} BitXorSplit(a: nat, b: nat, c: nat, d: nat, k: nat)
    requires b < Shl(1, k) && d < Shl(1, k)
    ensures BitXor(Shl(a, k) + b, Shl(c, k) + d) == Shl(BitXor(a, c), k) + BitXor(b, d) && BitXor(b, d) < Shl(1, k)
  {
    hide BitXor;
    if k == 0 {
      NoXor();
    } else {
      Halves(a, b, k);
      Halves(c, d, k);
      BitXorSplit(a, b / 2, c, d / 2, k - 1);
      BitXorStep(Shl(a, k - 1) + b / 2, b % 2, Shl(c, k - 1) + d / 2, d % 2);
      BitXorStep(b / 2, b % 2, d / 2, d % 2);
    }
  }

  lemma NoXor()
    ensures BitXor(0, 0) == 0
  {
  }

  lemma {:induction false} XorZero(a: nat)
    ensures BitXor(a, 0) == a && BitXor(a, a) == 0
  {
    if a != 0 { XorZero(a / 2); }
  }

  /** Exclusive OR on the fields above and below a power of two. */
  lemma XorFields(x: nat, y: nat, q: nat, r: nat, u: nat, v: nat, k: nat, p: nat)
    requires p == Shl(1, k) && x == q * p + r && y == u * p + v && r < p && v < p
    ensures BitXor(x, y) == BitXor(q, u) * p + BitXor(r, v) && BitXor(r, v) < p
  {
    hide BitXor, Shl;
    ShlLinear(q, k);
    ShlLinear(u, k);
    ShlLinear(BitXor(q, u), k);
    BitXorSplit(q, r, u, v, k);
  }

  /** Powers of two that masks split at. */
  lemma Powers()
    ensures Shl(1, 1) == 2 && Shl(1, 2) == 4 && Shl(1, 3) == 8 && Shl(1, 4) == 16 && Shl(1, 5) == 32 && Shl(1, 6) == 64
    ensures Shl(1, 7) == 128 && Shl(1, 8) == 256 && Shl(1, 10) == 0x400 && Shl(1, 11) == 0x800 && Shl(1, 12) == 0x1000
    ensures Shl(1, 16) == 0x1_0000 && Shl(1, 24) == 0x100_0000 && Shl(1, 26) == 0x400_0000
    ensures Shl(1, 28) == 0x1000_0000
  {
    hide Shl;
    Doubles(0);
    Doubles(1);
    Doubles(2);
    Doubles(3);
    Doubles(4);
    Doubles(5);
    Doubles(6);
    Doubles(7);
    Doubles(8);
    Doubles(9);
    Doubles(10);
    Doubles(11);
    Doubles(12);
    Doubles(13);
    Doubles(14);
    Doubles(15);
    ShlValues();
    Doubles(26);
    Doubles(27);
  }

  lemma Doubles(k: nat)
    ensures Shl(1, k + 1) == 2 * Shl(1, k) && Shl(1, 0) == 1
  {
  }

  /** AND bit by bit. */
  lemma {:induction false} BitAndBits(a: nat, b: nat, i: nat)
    ensures Bit(BitAnd(a, b), i) <==> Bit(a, i) && Bit(b, i)
  {
    hide BitAnd, Bit;
    var c, d := a / 2, b / 2;
    var x, y := a % 2, b % 2;
    assert a == 2 * c + x && b == 2 * d + y;
    BitAndStep(c, x, d, y);
    var j := if i > 0 then i - 1 else 0;
    BitStep(c, x, j);
    BitStep(d, y, j);
    BitStep(BitAnd(c, d), if x == 1 && y == 1 then 1 else 0, j);
    if i > 0 { BitAndBits(c, d, j); }
  }

  /** Numbers with the same bits are equal. */
  lemma {:induction false} SameBits(a: nat, b: nat)
    requires forall i: nat :: Bit(a, i) == Bit(b, i)
    ensures a == b
  {
    assert Bit(a, 0) == Bit(b, 0);
    if a != 0 || b != 0 {
      forall i: nat
        ensures Bit(a / 2, i) == Bit(b / 2, i)
      {
        assert Bit(a, i + 1) == Bit(b, i + 1);
      }
      SameBits(a / 2, b / 2);
    }
  }

  lemma {:induction false} OnlyBit(k: nat, i: nat)
    ensures Bit(Shl(1, k), i) <==> i == k
  {
    OneBit(k);
    if k == 0 {
      if i > 0 { NoBit(i - 1); }
    } else {
      hide Bit;
      BitStep(Shl(1, k - 1), 0, if i > 0 then i - 1 else 0);
      if i > 0 { OnlyBit(k - 1, i - 1); }
    }
  }

  lemma {:induction false} NoBit(i: nat)
    ensures !Bit(0, i)
  {
    if i > 0 { NoBit(i - 1); }
  }

  /** A mask of two bits covers exactly the numbers that have both. */
  lemma TwoBits(w: nat, j: nat, k: nat)
    ensures var mask := BitOr(Shl(1, j), Shl(1, k)); BitAnd(w, mask) == mask <==> Bit(w, j) && Bit(w, k)
  {
    hide BitAnd, BitOr, Bit, Shl;
    var mask := BitOr(Shl(1, j), Shl(1, k));
    forall i: nat
      ensures Bit(mask, i) <==> i == j || i == k
      ensures Bit(BitAnd(w, mask), i) <==> Bit(w, i) && Bit(mask, i)
    {
      BitOrBits(Shl(1, j), Shl(1, k), i);
      OnlyBit(j, i);
      OnlyBit(k, i);
      BitAndBits(w, mask, i);
    }
    if Bit(w, j) && Bit(w, k) {
      SameBits(BitAnd(w, mask), mask);
    } else {
      assert Bit(mask, j) && Bit(mask, k);
    }
  }

  /** Setting the lowest bit. */
  lemma OrOne(x: nat)
    ensures BitOr(x, 1) == x / 2 * 2 + 1
  {
    hide BitOr;
    BitOrStep(x / 2, x % 2, 0, 1);
    BitOrZero(x / 2);
  }

  /** AND works separately on the fields above and below a power of two. */
  lemma AndSplit(x: nat, q: nat, r: nat, k: nat, p: nat, high: nat, low: nat)
    requires p == Shl(1, k) && x == q * p + r && r < p && low < p
    ensures BitAnd(x, high * p + low) == BitAnd(q, high) * p + BitAnd(r, low)
  {
    hide BitAnd, Shl;
    AndFields(q, r, k, high, low);
  }

  lemma AndFields(q: nat, r: nat, k: nat, high: nat, low: nat)
    requires r < Shl(1, k) && low < Shl(1, k)
    ensures BitAnd(q * Shl(1, k) + r, high * Shl(1, k) + low) == BitAnd(q, high) * Shl(1, k) + BitAnd(r, low)
  {
    hide BitAnd, Shl;
    ShlLinear(q, k);
    ShlLinear(high, k);
    ShlLinear(BitAnd(q, high), k);
    BitAndSplit(q, r, high, low, k);
  }

  lemma AndOnes(x: nat, k: nat, p: nat)
    requires p == Shl(1, k) && p > 0
    ensures BitAnd(x % p, p - 1) == x % p
  {
    BitAndOnes(x % p, k);
  }

  lemma AndOne(x: nat)
    ensures BitAnd(x, 1) == x % 2 && BitAnd(x, 0) == 0
  {
    hide BitAnd;
    Powers();
    AndSplit(x, x / 2, x % 2, 1, 2, 0, 1);
    AndOnes(x, 1, 2);
    BitAndZero(x / 2);
    BitAndZero(x);
  }

  lemma ShlValues()
    ensures Shl(1, 5) == 32 && Shl(1, 8) == 256 && Shl(1, 14) == 0x4000 && Shl(1, 19) == 0x8_0000
      && Shl(1, 24) == 0x100_0000
    ensures Shl(1, 26) == 0x400_0000 && Shl(1, 32) == 0x1_0000_0000
  {
    assert Shl(1, 5) == 32;
    assert Shl(32, 3) == 256;
    ShlShl(1, 5, 3);
    assert Shl(32, 9) == 0x4000;
    ShlShl(1, 5, 9);
    assert Shl(0x4000, 5) == 0x8_0000;
    ShlShl(1, 14, 5);
    assert Shl(0x8_0000, 5) == 0x100_0000;
    ShlShl(1, 19, 5);
    assert Shl(0x100_0000, 2) == 0x400_0000;
    ShlShl(1, 24, 2);
    assert Shl(0x400_0000, 6) == 0x1_0000_0000;
    ShlShl(1, 26, 6);
  }
}

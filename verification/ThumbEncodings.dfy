/** What the Thumb classifiers and the processor's decoder take an encoding for: the classes are the mask tests of the
    source, and the decoded fields those of section A7.7 of the ARMv7-M Architecture Reference Manual. */
module ThumbEncodings {
  import opened Words
  import opened Thumb
  import opened ThumbMeaning

  // ----- the tests of the source -----

  /** `getTypeInThumb16`. */
  function SourceType16(x: Half): Type16 {
    if BitAnd(x, 0xF000) == 0xD000 then B1
    else if BitAnd(x, 0xF800) == 0xE000 then B2
    else if BitAnd(x, 0xFFF8) == 0x4778 then BX
    else if BitAnd(x, 0xFF78) == 0x4478 then ADD
    else if BitAnd(x, 0xFF78) == 0x4678 then MOV
    else if BitAnd(x, 0xF800) == 0xA000 then ADR
    else if BitAnd(x, 0xF800) == 0x4800 then LDR
    else if BitAnd(x, 0xF500) == 0xB100 then CB
    else OTHER
  }

  /** `getTypeInThumb32`. */
  function SourceType32(x: Word): Type32 {
    if BitAnd(x, 0xFFF0_D000) == 0xF3B0_8000 then OTHER_W
    else if BitAnd(x, 0xF800_D000) == 0xF000_C000 then BLX_W
    else if BitAnd(x, 0xF800_D000) == 0xF000_D000 then BL_W
    else if BitAnd(x, 0xF800_D000) == 0xF000_8000 then BCOND_W
    else if BitAnd(x, 0xF800_D000) == 0xF000_9000 then B_W
    else if BitAnd(x, 0xFBFF_8000) == 0xF2AF_0000 then ADR_SUB
    else if BitAnd(x, 0xFBFF_8000) == 0xF20F_0000 then ADR_ADD
    else if BitAnd(x, 0xFF7F_0000) == 0xF85F_0000 then LDR_W
    else if BitAnd(x, 0xFFFF_00F0) == 0xE8DF_0000 then TBB
    else if BitAnd(x, 0xFFFF_00F0) == 0xE8DF_0010 then TBH
    else OTHER_W
  }

  /** A mask above the lowest bits. */
  lemma HighMask(x: nat, q: nat, r: nat, k: nat, p: nat, m: nat)
    requires p == Shl(1, k) && x == q * p + r && r < p
    ensures BitAnd(x, m * p) == BitAnd(q, m) * p
  {
    hide BitAnd, Shl;
    AndSplit(x, q, r, k, p, m, 0);
    BitAndZero(r);
  }

  /** A mask of the lowest bits. */
  lemma LowMask(x: nat, q: nat, r: nat, k: nat, p: nat)
    requires p == Shl(1, k) && x == q * p + r && r < p
    ensures BitAnd(x, p - 1) == r
  {
    hide BitAnd, Shl;
    AndSplit(x, q, r, k, p, 0, p - 1);
    BitAndOnes(r, k);
    BitAndZero(q);
  }

  lemma MorePowers()
    ensures Shl(1, 13) == 0x2000 && Shl(1, 15) == 0x8000 && Shl(1, 9) == 0x200
  {
    hide Shl;
    Powers();
    ShlValues();
    Doubles(8);
    Doubles(12);
    Doubles(14);
  }

  lemma Masks16(x: Half)
    ensures BitAnd(x, 0xF000) == x / 0x1000 * 0x1000
    ensures BitAnd(x, 0xF800) == x / 0x800 * 0x800
    ensures BitAnd(x, 0xFFF8) == x / 8 * 8
  {
    hide BitAnd, Shl;
    Powers();
    MorePowers();
    HighMask(x, x / 0x1000, x % 0x1000, 12, 0x1000, 15);
    LowMask(x / 0x1000, 0, x / 0x1000, 4, 16);
    HighMask(x, x / 0x800, x % 0x800, 11, 0x800, 31);
    LowMask(x / 0x800, 0, x / 0x800, 5, 32);
    HighMask(x, x / 8, x % 8, 3, 8, 0x1FFF);
    LowMask(x / 8, 0, x / 8, 13, 0x2000);
  }

  lemma MaskFF78(x: Half)
    ensures BitAnd(x, 0xFF78) == x / 0x100 * 0x100 + x % 0x100 / 8 % 16 * 8
  {
    hide BitAnd, Shl;
    Powers();
    var t, l := x / 0x100, x % 0x100;
    AndSplit(x, t, l, 8, 0x100, 0xFF, 0x78);
    LowMask(t, 0, t, 8, 0x100);
    HighMask(l, l / 8, l % 8, 3, 8, 15);
    LowMask(l / 8, l / 8 / 16, l / 8 % 16, 4, 16);
  }

  lemma MaskF500(x: Half)
    ensures BitAnd(x, 0xF500) == (x / 0x100 / 16 * 16 + x / 0x100 % 16 / 4 % 2 * 4 + x / 0x100 % 16 % 4 % 2) * 0x100
  {
    hide BitAnd, Shl;
    Powers();
    var t := x / 0x100;
    HighMask(x, t, x % 0x100, 8, 0x100, 0xF5);
    var u := t % 16;
    AndSplit(t, t / 16, u, 4, 16, 15, 5);
    LowMask(t / 16, 0, t / 16, 4, 16);
    AndSplit(u, u / 4, u % 4, 2, 4, 1, 1);
    AndOne(u / 4);
    AndOne(u % 4);
  }

  /** Every 16-bit class is the one that the source tests for. */
  lemma Type16IsTheSources(x: Half)
    ensures TypeOf16(x) == SourceType16(x)
  {
    hide BitAnd;
    Masks16(x);
    MaskFF78(x);
    MaskF500(x);
    Nibbles(x);
  }

  lemma Nibbles(x: Half)
    ensures x % 0x100 / 8 % 16 == x / 8 % 16 && x / 0x100 / 16 == x / 0x1000
    ensures x / 0x100 % 16 / 4 % 2 == x / 0x400 % 2 && x / 0x100 % 16 % 4 % 2 == x / 0x100 % 2
  {
    var t, l := x / 0x100, x % 0x100;
    assert x / 8 == 32 * t + l / 8 && x / 0x400 == t / 4;
    NibbleAbove(2 * t, l / 8);
    LowNibble(t / 16, t % 16);
  }

  lemma NibbleAbove(a: nat, b: nat)
    ensures (16 * a + b) % 16 == b % 16
  {
  }

  lemma LowNibble(h: nat, u: nat)
    requires u < 16
    ensures (16 * h + u) / 4 % 2 == u / 4 % 2 && (16 * h + u) % 2 == u % 4 % 2
  {
    assert (16 * h + u) / 4 == 2 * (2 * h) + u / 4;
    Parity(2 * h, u / 4);
    Parity(8 * h, u);
    assert u == 2 * (2 * (u / 4)) + u % 4;
    Parity(2 * (u / 4), u % 4);
  }

  lemma Parity(a: nat, b: nat)
    ensures (2 * a + b) % 2 == b % 2
  {
  }

  lemma MasksHigh(hi: Half)
    ensures BitAnd(hi, 0xFFF0) == hi / 16 * 16
    ensures BitAnd(hi, 0xF800) == hi / 0x800 * 0x800
    ensures BitAnd(hi, 0xFFFF) == hi
  {
    hide BitAnd, Shl;
    Powers();
    HighMask(hi, hi / 16, hi % 16, 4, 16, 0xFFF);
    LowMask(hi / 16, 0, hi / 16, 12, 0x1000);
    HighMask(hi, hi / 0x800, hi % 0x800, 11, 0x800, 31);
    LowMask(hi / 0x800, 0, hi / 0x800, 5, 32);
    LowMask(hi, 0, hi, 16, 0x1_0000);
  }

  /** The masks that leave out bit 10 or bit 7. */
  lemma MaskBit10(hi: Half)
    ensures BitAnd(hi, 0xFBFF) == hi - hi / 0x400 % 2 * 0x400
  {
    hide BitAnd, Shl;
    Powers();
    var t, l := hi / 0x400, hi % 0x400;
    AndSplit(hi, t, l, 10, 0x400, 0x3E, 0x3FF);
    LowMask(l, 0, l, 10, 0x400);
    HighMask(t, t / 2, t % 2, 1, 2, 31);
    LowMask(t / 2, 0, t / 2, 5, 32);
  }

  lemma MaskBit7(hi: Half)
    ensures BitAnd(hi, 0xFF7F) == hi - hi / 0x80 % 2 * 0x80
  {
    hide BitAnd, Shl;
    Powers();
    var t, l := hi / 0x100, hi % 0x100;
    AndSplit(hi, t, l, 8, 0x100, 0xFF, 0x7F);
    LowMask(t, 0, t, 8, 0x100);
    LowMask(l, l / 0x80, l % 0x80, 7, 0x80);
    assert hi / 0x80 == 2 * t + l / 0x80;
  }

  lemma MasksLow(lo: Half)
    ensures BitAnd(lo, 0xD000) == (lo / 0x4000 * 4 + lo / 0x1000 % 2) * 0x1000
    ensures BitAnd(lo, 0x8000) == lo / 0x8000 * 0x8000
    ensures BitAnd(lo, 0xF0) == lo / 16 % 16 * 16
    ensures BitAnd(lo, 0) == 0
  {
    hide BitAnd, Shl;
    Powers();
    MorePowers();
    var v := lo / 0x1000;
    HighMask(lo, v, lo % 0x1000, 12, 0x1000, 13);
    AndSplit(v, v / 4, v % 4, 2, 4, 3, 1);
    LowMask(v / 4, 0, v / 4, 2, 4);
    AndOne(v % 4);
    assert v / 4 == lo / 0x4000;
    assert v % 4 % 2 == v % 2;
    HighMask(lo, lo / 0x8000, lo % 0x8000, 15, 0x8000, 1);
    AndOne(lo / 0x8000);
    HighMask(lo, lo / 16, lo % 16, 4, 16, 15);
    LowMask(lo / 16, lo / 16 / 16, lo / 16 % 16, 4, 16);
    BitAndZero(lo);
  }

  /** A test of both halves is a test of each. */
  lemma Tests(hi: Half, lo: Half, high: nat, low: nat, a: nat, b: nat)
    requires low < 0x1_0000 && b < 0x1_0000 && BitAnd(lo, low) < 0x1_0000
    ensures BitAnd(0x1_0000 * hi + lo, high * 0x1_0000 + low) == a * 0x1_0000 + b <==>
      BitAnd(hi, high) == a && BitAnd(lo, low) == b
  {
    hide BitAnd, Shl;
    Powers();
    AndSplit(0x1_0000 * hi + lo, hi, lo, 16, 0x1_0000, high, low);
  }

  lemma BranchTests(hi: Half, lo: Half)
    ensures var x: Word := 0x1_0000 * hi + lo;
      && (BitAnd(x, 0xFFF0_D000) == 0xF3B0_8000 <==> hi / 16 == 0xF3B && Kind(lo) == 4)
      && (BitAnd(x, 0xF800_D000) == 0xF000_C000 <==> hi / 0x800 == 0x1E && Kind(lo) == 6)
      && (BitAnd(x, 0xF800_D000) == 0xF000_D000 <==> hi / 0x800 == 0x1E && Kind(lo) == 7)
      && (BitAnd(x, 0xF800_D000) == 0xF000_8000 <==> hi / 0x800 == 0x1E && Kind(lo) == 4)
      && (BitAnd(x, 0xF800_D000) == 0xF000_9000 <==> hi / 0x800 == 0x1E && Kind(lo) == 5)
  {
    hide BitAnd, Kind;
    MasksHigh(hi);
    MasksLow(lo);
    Kinds(lo);
    Tests(hi, lo, 0xFFF0, 0xD000, 0xF3B0, 0x8000);
    Tests(hi, lo, 0xF800, 0xD000, 0xF000, 0xC000);
    Tests(hi, lo, 0xF800, 0xD000, 0xF000, 0xD000);
    Tests(hi, lo, 0xF800, 0xD000, 0xF000, 0x8000);
    Tests(hi, lo, 0xF800, 0xD000, 0xF000, 0x9000);
  }

  lemma Kinds(lo: Half)
    ensures BitAnd(lo, 0xD000) < 0x1_0000
    ensures BitAnd(lo, 0xD000) == 0x8000 <==> Kind(lo) == 4
    ensures BitAnd(lo, 0xD000) == 0xC000 <==> Kind(lo) == 6
    ensures BitAnd(lo, 0xD000) == 0xD000 <==> Kind(lo) == 7
    ensures BitAnd(lo, 0xD000) == 0x9000 <==> Kind(lo) == 5
  {
    hide BitAnd;
    MasksLow(lo);
  }

  lemma AddressTests(hi: Half, lo: Half)
    ensures var x: Word := 0x1_0000 * hi + lo;
      && (BitAnd(x, 0xFBFF_8000) == 0xF2AF_0000 <==> hi - hi / 0x400 % 2 * 0x400 == 0xF2AF && lo < 0x8000)
      && (BitAnd(x, 0xFBFF_8000) == 0xF20F_0000 <==> hi - hi / 0x400 % 2 * 0x400 == 0xF20F && lo < 0x8000)
      && (BitAnd(x, 0xFF7F_0000) == 0xF85F_0000 <==> hi - hi / 0x80 % 2 * 0x80 == 0xF85F)
      && (BitAnd(x, 0xFFFF_00F0) == 0xE8DF_0000 <==> hi == 0xE8DF && lo / 16 % 16 == 0)
      && (BitAnd(x, 0xFFFF_00F0) == 0xE8DF_0010 <==> hi == 0xE8DF && lo / 16 % 16 == 1)
  {
    hide BitAnd;
    MaskBit10(hi);
    MaskBit7(hi);
    MasksHigh(hi);
    LowTests(lo);
    Tests(hi, lo, 0xFBFF, 0x8000, 0xF2AF, 0);
    Tests(hi, lo, 0xFBFF, 0x8000, 0xF20F, 0);
    Tests(hi, lo, 0xFF7F, 0, 0xF85F, 0);
    Tests(hi, lo, 0xFFFF, 0x00F0, 0xE8DF, 0);
    Tests(hi, lo, 0xFFFF, 0x00F0, 0xE8DF, 0x10);
  }

  lemma LowTests(lo: Half)
    ensures BitAnd(lo, 0x8000) < 0x1_0000 && (BitAnd(lo, 0x8000) == 0 <==> lo < 0x8000)
    ensures BitAnd(lo, 0) == 0 && BitAnd(lo, 0x00F0) < 0x1_0000
    ensures BitAnd(lo, 0x00F0) == 0 <==> lo / 16 % 16 == 0
    ensures BitAnd(lo, 0x00F0) == 0x10 <==> lo / 16 % 16 == 1
  {
    hide BitAnd;
    MasksLow(lo);
  }

  /** Every 32-bit class is the one that the source tests for. */
  lemma Type32IsTheSources(hi: Half, lo: Half)
    ensures TypeOf32(hi, lo) == SourceType32(0x1_0000 * hi + lo)
  {
    hide BitAnd, Kind;
    BranchTests(hi, lo);
    AddressTests(hi, lo);
  }

  /** The half words that begin a 32-bit instruction, and the aligned program counter. */
  lemma WideAndAligned(x: Half, a: Word)
    ensures Wide(x) <==> x >= 0xE800
    ensures Align(a) % 4 == 0 && 0 <= a - Align(a) < 4
  {
    var q := a / 4;
    assert Align(a) == 4 * q;
    Quadrupled(q, Align(a));
  }

  // ----- the encodings of the processor -----

  /** What an instruction is relative to. */
  function Here(c: Cpu): Word { Add32(c.pc, 4) }

  /** Registers changed, and on to the instruction after a half word. */
  function Next(c: Cpu, regs: seq<Word>): Cpu { c.(pc := Add32(c.pc, 2), regs := regs) }

  /** B with a condition, encoding T1. */
  lemma CondBranchEncoding(m: Code, c: Cpu, cond: nat, imm: nat)
    requires WellFormed(c) && cond < 14 && imm < 0x100
    ensures Step16(m, c, 0xD000 + cond * 0x100 + imm) == Some(c.(pc :=
      if !c.passes[cond] then Add32(c.pc, 2) else Add32(Here(c), 2 * (if imm < 0x80 then imm else imm - 0x100))))
  {
    hide Add32;
    var h: Half := 0xD000 + cond * 0x100 + imm;
    assert h / 0x1000 == 0xD && h / 0x100 == 0xD0 + cond && h % 0x100 == imm;
  }

  /** B, encoding T2. */
  lemma BranchEncoding(m: Code, c: Cpu, imm: nat)
    requires WellFormed(c) && imm < 0x800
    ensures Step16(m, c, 0xE000 + imm) ==
      Some(c.(pc := Add32(Here(c), 2 * (if imm < 0x400 then imm else imm - 0x800))))
  {
    hide Add32;
    var h: Half := 0xE000 + imm;
    assert h / 0x800 == 0x1C && h % 0x800 == imm && h / 0x1000 == 0xE;
  }

  /** CBZ and CBNZ. */
  lemma CompareEncoding(m: Code, c: Cpu, op: nat, i: nat, imm: nat, rn: nat)
    requires WellFormed(c) && op < 2 && i < 2 && imm < 32 && rn < 8
    ensures Step16(m, c, 0xB100 + op * 0x800 + i * 0x200 + imm * 8 + rn) == Some(c.(pc :=
      if (c.regs[rn] == 0) == (op == 0) then Add32(Here(c), i * 64 + imm * 2) else Add32(c.pc, 2)))
  {
    hide Data16, Add32;
    CompareFields(op, i, imm, rn);
  }

  lemma CompareFields(op: nat, i: nat, imm: nat, rn: nat)
    requires op < 2 && i < 2 && imm < 32 && rn < 8
    ensures var h: Half := 0xB100 + op * 0x800 + i * 0x200 + imm * 8 + rn;
      && h % 8 == rn && h / 8 % 32 == imm && h / 0x200 % 2 == i && h / 0x800 % 2 == op
      && h / 0x400 % 2 == 0 && h / 0x100 % 2 == 1 && h / 0x1000 == 0xB && h / 0x800 != 0x1C
  {
    var h: Half := 0xB100 + op * 0x800 + i * 0x200 + imm * 8 + rn;
    var t := 0xB1 + op * 8 + i * 2;
    assert h / 8 == 32 * t + imm && h / 0x100 == t;
    assert h / 0x200 == t / 2 == 2 * (0x2C + op * 2) + i;
    assert h / 0x400 == t / 4 == 2 * (0x16 + op);
    assert h / 0x800 == t / 8 == 2 * 0xB + op;
    assert t == 2 * (0x58 + op * 4 + i) + 1;
  }

  /** LDR of a literal, encoding T1. */
  lemma LiteralEncoding(m: Code, c: Cpu, rt: nat, imm: nat, v: Word)
    requires WellFormed(c) && rt < 8 && imm < 0x100 && WordAt(m, Add32(Align(Here(c)), imm * 4)) == Some(v)
    ensures Step16(m, c, 0x4800 + rt * 0x100 + imm) == Some(Next(c, c.regs[rt := v]))
  {
    hide WordAt, Add32, Align;
    var h: Half := 0x4800 + rt * 0x100 + imm;
    assert h / 0x800 == 9 && h % 0x100 == imm && h / 0x100 == 0x48 + rt && h / 0x1000 == 4;
  }

  /** ADR, encoding T1. */
  lemma AddressEncoding(m: Code, c: Cpu, rd: nat, imm: nat)
    requires WellFormed(c) && rd < 8 && imm < 0x100
    ensures Step16(m, c, 0xA000 + rd * 0x100 + imm) ==
      Some(Next(c, c.regs[rd := Add32(Align(Here(c)), imm * 4)]))
  {
    hide Add32, Align;
    var h: Half := 0xA000 + rd * 0x100 + imm;
    assert h / 0x800 == 0x14 && h % 0x100 == imm && h / 0x100 == 0xA0 + rd && h / 0x1000 == 10;
    assert h / 0x80 == 0x140 + rd * 2 + imm / 0x80;
  }

  /** PUSH and POP of R5, R6 or R7. */
  lemma PushEncoding(m: Code, c: Cpu, r: nat, bit: nat)
    requires WellFormed(c) && ((r == 5 && bit == 0x20) || (r == 6 && bit == 0x40) || (r == 7 && bit == 0x80))
    ensures var low := Add32(c.regs[13], -4);
      Step16(m, c, 0xB400 + bit) == Some(Next(c, c.regs[13 := low]).(stack := c.stack[low := c.regs[r]]))
    ensures var sp := c.regs[13];
      sp in c.stack ==> Step16(m, c, 0xBC00 + bit) == Some(Next(c, c.regs[13 := Add32(sp, 4)][r := c.stack[sp]]))
  {
    hide Add32;
  }

  /** ADD and MOV of any registers but with PC as the destination. */
  lemma HighRegisterEncoding(m: Code, c: Cpu, rd: nat, rm: nat)
    requires WellFormed(c) && rd < 15 && rm < 16
    ensures var v, h := if rm == 15 then Here(c) else c.regs[rm], rd / 8 * 0x80 + rm * 8 + rd % 8;
      && Step16(m, c, 0x4400 + h) == Some(Next(c, c.regs[rd := Add32(c.regs[rd], v)]))
      && Step16(m, c, 0x4600 + h) == Some(Next(c, c.regs[rd := v]))
  {
    hide Add32, Step16;
    HighFields(0x44, rd, rm);
    HighFields(0x46, rd, rm);
    HighRegister(m, c, 0x44, rd, rm, 0x4400 + (rd / 8 * 0x80 + rm * 8 + rd % 8));
    HighRegister(m, c, 0x46, rd, rm, 0x4600 + (rd / 8 * 0x80 + rm * 8 + rd % 8));
  }

  lemma HighRegister(m: Code, c: Cpu, top: nat, rd: nat, rm: nat, h: Half)
    requires WellFormed(c) && rd < 15 && rm < 16 && top in {0x44, 0x46}
    requires h / 0x100 == top && h / 0x80 == 2 * top + rd / 8 && h / 8 % 16 == rm && h / 0x80 % 2 * 8 + h % 8 == rd
    requires h / 0x1000 == 4 && h / 0x800 == 8
    ensures var v := if rm == 15 then Here(c) else c.regs[rm];
      Step16(m, c, h) == Some(Next(c, c.regs[rd := if top == 0x44 then Add32(c.regs[rd], v) else v]))
  {
    hide Add32;
    assert h != 0xBF00;
  }

  /** BX: bit 0 of the register selects the instruction set. */
  lemma ExchangeEncoding(m: Code, c: Cpu, rm: nat)
    requires WellFormed(c) && rm < 16
    ensures var v := if rm == 15 then Here(c) else c.regs[rm];
      Step16(m, c, 0x4700 + rm * 8) == Some(c.(pc := v - v % 2, thumb := v % 2 == 1))
  {
    hide Add32;
    HighFields(0x47, 0, rm);
  }

  lemma HighFields(top: nat, rd: nat, rm: nat)
    requires 0x44 <= top <= 0x47 && rd < 16 && rm < 16
    ensures var h: Half := top * 0x100 + (rd / 8 * 0x80 + rm * 8 + rd % 8);
      && h / 0x100 == top && h / 0x80 == 2 * top + rd / 8 && h / 8 % 16 == rm && h / 0x80 % 2 * 8 + h % 8 == rd
      && h / 0x1000 == 4 && h / 0x800 == 8
  {
    var h: Half := top * 0x100 + (rd / 8 * 0x80 + rm * 8 + rd % 8);
    assert h / 0x80 == 2 * top + rd / 8;
    assert h / 8 == 16 * (2 * top + rd / 8) + rm;
    assert (2 * top + rd / 8) % 2 == rd / 8;
  }

  /** LDRB with an immediate, encoding T1. */
  lemma ByteEncoding(m: Code, c: Cpu, rt: nat, rn: nat, imm: nat, v: Byte)
    requires WellFormed(c) && rt < 8 && rn < 8 && imm < 32 && ByteAt(m, Add32(c.regs[rn], imm)) == Some(v)
    ensures Step16(m, c, 0x7800 + imm * 0x40 + rn * 8 + rt) == Some(Next(c, c.regs[rt := v]))
  {
    hide ByteAt, Add32;
    DataFields(0xF, imm, rn, rt);
  }

  /** LDRH with an immediate, encoding T1. */
  lemma HalfEncoding(m: Code, c: Cpu, rt: nat, rn: nat, imm: nat)
    requires WellFormed(c) && rt < 8 && rn < 8 && imm < 32 && Add32(c.regs[rn], 2 * imm) in m
    ensures Step16(m, c, 0x8800 + imm * 0x40 + rn * 8 + rt) ==
      Some(Next(c, c.regs[rt := m[Add32(c.regs[rn], 2 * imm)]]))
  {
    hide Add32;
    DataFields(0x11, imm, rn, rt);
  }

  lemma DataFields(top: nat, imm: nat, rn: nat, rt: nat)
    requires top in {0xF, 0x11} && imm < 32 && rn < 8 && rt < 8
    ensures var h: Half := top * 0x800 + imm * 0x40 + rn * 8 + rt;
      && h / 0x800 == top && h / 0x40 % 32 == imm && h / 8 % 8 == rn && h % 8 == rt && h / 0x1000 == top / 2
      && h / 0x100 / 8 == top && h / 0x80 / 16 == top
  {
    var h: Half := top * 0x800 + imm * 0x40 + rn * 8 + rt;
    assert h / 0x40 == 32 * top + imm;
    assert h / 8 == 8 * (32 * top + imm) + rn;
  }

  /** ADDS of an immediate, encoding T2. */
  lemma AddsEncoding(m: Code, c: Cpu, rd: nat, imm: nat)
    requires WellFormed(c) && rd < 8 && imm < 0x100
    ensures Step16(m, c, 0x3000 + rd * 0x100 + imm) ==
      Some(Next(c, c.regs[rd := Add32(c.regs[rd], imm)]).(passes := AddPasses(c.regs[rd], imm)))
  {
    hide AddPasses, Add32;
    var h: Half := 0x3000 + rd * 0x100 + imm;
    assert h / 0x100 == 0x30 + rd && h % 0x100 == imm && h / 0x800 == 6 && h / 0x1000 == 3;
    assert h / 0x80 == 0x60 + rd * 2 + imm / 0x80;
  }

  /** The conditions after an addition: equal, carry, negative and overflow, then the compound ones (section A7.3 of
      the manual). Each odd condition is the opposite of the one before it. */
  lemma PassesAfterAdd(a: Word, b: Word)
    ensures var s, sum := AddPasses(a, b), Signed(a, 0x8000_0000) + Signed(b, 0x8000_0000);
      && (s[0] <==> (a + b) % 0x1_0000_0000 == 0) && (s[2] <==> a + b >= 0x1_0000_0000)
      && (s[4] <==> (a + b) % 0x1_0000_0000 >= 0x8000_0000) && (s[6] <==> sum < -0x8000_0000 || sum >= 0x8000_0000)
      && (s[8] <==> s[2] && !s[0]) && (s[10] <==> s[4] == s[6]) && (s[12] <==> !s[0] && s[10]) && s[14] && s[15]
      && s[1] != s[0] && s[3] != s[2] && s[5] != s[4] && s[7] != s[6] && s[9] != s[8] && s[11] != s[10]
      && s[13] != s[12]
  {
  }

  // ----- 32-bit encodings -----

  /** A bit of a displacement, sent as whether it equals the sign. */
  function Sent(i: nat, s: nat): (j: nat)
    requires i < 2 && s < 2
    ensures j < 2
  {
    if i == 1 then s else 1 - s
  }

  /** The fields of a 32-bit branch. */
  lemma BranchFields(s: nat, imm10: nat, kind: nat, j1: nat, j2: nat, imm11: nat)
    requires s < 2 && imm10 < 0x400 && kind in {8, 9, 12, 13} && j1 < 2 && j2 < 2 && imm11 < 0x800
    ensures var hi: Half, lo: Half := 0xF000 + s * 0x400 + imm10, kind * 0x1000 + j1 * 0x2000 + j2 * 0x800 + imm11;
      && hi / 0x800 == 0x1E && hi / 0x400 % 2 == s && hi % 0x400 == imm10
      && lo / 0x8000 == 1 && Kind(lo) == kind / 4 * 2 + kind % 2 && lo / 0x2000 % 2 == j1 && lo / 0x800 % 2 == j2
      && lo % 0x800 == imm11
  {
    var hi: Half, lo: Half := 0xF000 + s * 0x400 + imm10, kind * 0x1000 + j1 * 0x2000 + j2 * 0x800 + imm11;
    assert hi / 0x400 == 60 + s;
    var t := kind * 2 + j1 * 4 + j2;
    assert lo / 0x800 == t && lo / 0x1000 == t / 2 == kind + j1 * 2 && lo / 0x2000 == t / 4 == kind / 2 + j1;
    assert lo / 0x4000 == t / 8 == kind / 4 && lo / 0x8000 == t / 16;
    assert t == 2 * (kind + j1 * 2) + j2;
  }

  /** The displacement S:I1:I2:imm10:imm11:0 as a signed number. */
  function Far(s: nat, i1: nat, i2: nat, imm10: nat, imm11: nat): int {
    i1 * 0x80_0000 + i2 * 0x40_0000 + imm10 * 0x1000 + imm11 * 2 - s * 0x100_0000
  }

  /** B, encoding T4, BL and BLX. */
  lemma WideBranchEncoding(m: Code, c: Cpu, s: nat, i1: nat, i2: nat, imm10: nat, imm11: nat)
    requires WellFormed(c) && s < 2 && i1 < 2 && i2 < 2 && imm10 < 0x400 && imm11 < 0x800
    ensures var hi, j := 0xF000 + s * 0x400 + imm10, Sent(i1, s) * 0x2000 + Sent(i2, s) * 0x800;
      var d, link := Far(s, i1, i2, imm10, imm11), c.regs[14 := Add32(c.pc, 5)];
      && Step32(m, c, hi, 0x9000 + j + imm11) == Some(c.(pc := Add32(Here(c), d)))
      && Step32(m, c, hi, 0xD000 + j + imm11) == Some(c.(pc := Add32(Here(c), d), regs := link))
      && (imm11 % 2 == 0 ==>
            Step32(m, c, hi, 0xC000 + j + imm11) ==
              Some(c.(pc := Add32(Align(Here(c)), d), regs := link, thumb := false)))
  {
    hide Add32, Align, Kind, Sent;
    var j1, j2 := Sent(i1, s), Sent(i2, s);
    BranchFields(s, imm10, 9, j1, j2, imm11);
    BranchFields(s, imm10, 13, j1, j2, imm11);
    BranchFields(s, imm10, 12, j1, j2, imm11);
    FarIs(0xF000 + s * 0x400 + imm10, 0x9000 + j1 * 0x2000 + j2 * 0x800 + imm11, s, i1, i2, imm10, imm11);
    FarIs(0xF000 + s * 0x400 + imm10, 0xD000 + j1 * 0x2000 + j2 * 0x800 + imm11, s, i1, i2, imm10, imm11);
    FarIs(0xF000 + s * 0x400 + imm10, 0xC000 + j1 * 0x2000 + j2 * 0x800 + imm11, s, i1, i2, imm10, imm11);
    hide BranchImm;
  }

  lemma FarIs(hi: Half, lo: Half, s: nat, i1: nat, i2: nat, imm10: nat, imm11: nat)
    requires s < 2 && i1 < 2 && i2 < 2 && imm10 < 0x400 && imm11 < 0x800
    requires hi / 0x400 % 2 == s && hi % 0x400 == imm10
    requires lo / 0x2000 % 2 == Sent(i1, s) && lo / 0x800 % 2 == Sent(i2, s) && lo % 0x800 == imm11
    ensures BranchImm(hi, lo, lo % 0x800) == Far(s, i1, i2, imm10, imm11)
    ensures imm11 % 2 == 0 ==> EvenLow(lo) == imm11
  {
  }

  /** B with a condition, encoding T3. */
  lemma WideCondEncoding(m: Code, c: Cpu, s: nat, cond: nat, j1: nat, j2: nat, imm6: nat, imm11: nat)
    requires WellFormed(c) && s < 2 && cond < 14 && j1 < 2 && j2 < 2 && imm6 < 0x40 && imm11 < 0x800
    ensures var d := j2 * 0x8_0000 + j1 * 0x4_0000 + imm6 * 0x1000 + imm11 * 2 - s * 0x10_0000;
      Step32(m, c, 0xF000 + s * 0x400 + cond * 0x40 + imm6, 0x8000 + j1 * 0x2000 + j2 * 0x800 + imm11) ==
        Some(c.(pc := if c.passes[cond] then Add32(Here(c), d) else Here(c)))
  {
    hide Add32, Align, Kind, BranchImm;
    BranchFields(s, cond * 0x40 + imm6, 8, j1, j2, imm11);
    var hi: Half := 0xF000 + s * 0x400 + cond * 0x40 + imm6;
    assert hi / 0x40 == 16 * (60 + s) + cond && hi % 0x40 == imm6;
  }

  /** A load into PC selects the instruction set by bit 0. */
  function Loaded(c: Cpu, rt: nat, v: Word): Cpu
    requires WellFormed(c) && rt < 16
  {
    if rt == 15 then c.(pc := v - v % 2, thumb := v % 2 == 1) else c.(pc := Here(c), regs := c.regs[rt := v])
  }

  /** LDR.W of a literal above and below. */
  lemma WideLoadEncoding(m: Code, c: Cpu, rt: nat, imm: int, v: Word)
    requires WellFormed(c) && rt < 16 && 0 <= imm < 0x1000
    ensures WordAt(m, Add32(Align(Here(c)), imm)) == Some(v) ==>
      Step32(m, c, 0xF8DF, rt * 0x1000 + imm) == Some(Loaded(c, rt, v))
    ensures WordAt(m, Add32(Align(Here(c)), -imm)) == Some(v) ==>
      Step32(m, c, 0xF85F, rt * 0x1000 + imm) == Some(Loaded(c, rt, v))
  {
    hide WordAt, Add32, Align, Step32, Loaded, WellFormed;
    var lo: Half := rt * 0x1000 + imm;
    LoadFields(rt, imm);
    if WordAt(m, Add32(Align(Here(c)), imm)) == Some(v) { WideLoad(m, c, 0xF8DF, lo, imm, v); }
    if WordAt(m, Add32(Align(Here(c)), -imm)) == Some(v) { WideLoad(m, c, 0xF85F, lo, -imm, v); }
  }

  lemma LoadFields(rt: nat, imm: nat)
    requires rt < 16 && imm < 0x1000
    ensures (rt * 0x1000 + imm) / 0x1000 == rt && (rt * 0x1000 + imm) % 0x1000 == imm
  {
  }

  lemma WideLoad(m: Code, c: Cpu, hi: Half, lo: Half, d: int, v: Word)
    requires WellFormed(c) && hi in {0xF85F, 0xF8DF} && d == if hi == 0xF8DF then lo % 0x1000 else -(lo % 0x1000)
    requires WordAt(m, Add32(Align(Here(c)), d)) == Some(v)
    ensures Step32(m, c, hi, lo) == Some(Loaded(c, lo / 0x1000, v))
  {
    hide WordAt, Add32, Align, Data32, Kind, BranchImm, CondImm, EvenLow;
  }

  /** ADR.W above and below. */
  lemma WideAddressEncoding(m: Code, c: Cpu, i: nat, imm3: nat, rd: nat, imm8: nat)
    requires WellFormed(c) && i < 2 && imm3 < 8 && rd < 15 && imm8 < 0x100
    ensures var lo, d := imm3 * 0x1000 + rd * 0x100 + imm8, i * 0x800 + imm3 * 0x100 + imm8;
      var above, below := Add32(Align(Here(c)), d), Add32(Align(Here(c)), -d);
      && Step32(m, c, 0xF20F + i * 0x400, lo) == Some(c.(pc := Here(c), regs := c.regs[rd := above]))
      && Step32(m, c, 0xF2AF + i * 0x400, lo) == Some(c.(pc := Here(c), regs := c.regs[rd := below]))
  {
    hide Step32, Add32, Align;
    AddressFields(imm3, rd, imm8);
    WideAddress(m, c, 0xF20F + i * 0x400, imm3 * 0x1000 + rd * 0x100 + imm8, i, imm3, rd, imm8);
    WideAddress(m, c, 0xF2AF + i * 0x400, imm3 * 0x1000 + rd * 0x100 + imm8, i, imm3, rd, imm8);
  }

  lemma AddressFields(imm3: nat, rd: nat, imm8: nat)
    requires imm3 < 8 && rd < 15 && imm8 < 0x100
    ensures var lo: Half := imm3 * 0x1000 + rd * 0x100 + imm8;
      lo / 0x100 % 16 == rd && lo % 0x100 == imm8 && lo / 0x1000 % 8 == imm3 && lo < 0x8000
  {
    var lo: Half := imm3 * 0x1000 + rd * 0x100 + imm8;
    assert lo / 0x100 == 16 * imm3 + rd && lo / 0x1000 == imm3;
  }

  lemma WideAddress(m: Code, c: Cpu, hi: Half, lo: Half, i: nat, imm3: nat, rd: nat, imm8: nat)
    requires WellFormed(c) && i < 2 && hi in {0xF20F + i * 0x400, 0xF2AF + i * 0x400} && rd < 15
    requires lo / 0x100 % 16 == rd && lo % 0x100 == imm8 && lo / 0x1000 % 8 == imm3 && lo < 0x8000
    ensures var d := i * 0x800 + imm3 * 0x100 + imm8;
      Step32(m, c, hi, lo) == Some(c.(pc := Here(c),
        regs := c.regs[rd := Add32(Align(Here(c)), if hi == 0xF20F + i * 0x400 then d else 0 - d)]))
  {
    hide Add32, Align, Kind, BranchImm, CondImm, EvenLow, WordAt;
    if i == 0 { assert hi in {0xF20F, 0xF2AF}; } else { assert hi in {0xF60F, 0xF6AF}; }
  }

  /** ADD.W of two registers, the second shifted left by 0 or 1. */
  lemma WideAddEncoding(m: Code, c: Cpu, rn: nat, rd: nat, rm: nat, shift: nat)
    requires WellFormed(c) && rn < 13 && rd < 13 && rm < 13 && shift < 2
    ensures var x: int := c.regs[rm];
      Step32(m, c, 0xEB00 + rn, shift * 0x40 + rd * 0x100 + rm) ==
        Some(c.(pc := Here(c), regs := c.regs[rd := Add32(c.regs[rn], if shift == 0 then x else 2 * x)]))
  {
    hide Step32, Add32;
    AddFields(rn, rd, rm, shift);
    WideAdd(m, c, 0xEB00 + rn, shift * 0x40 + rd * 0x100 + rm, rn, rd, rm, shift);
  }

  lemma AddFields(rn: nat, rd: nat, rm: nat, shift: nat)
    requires rn < 13 && rd < 13 && rm < 13 && shift < 2
    ensures var hi: Half, lo: Half := 0xEB00 + rn, shift * 0x40 + rd * 0x100 + rm;
      && hi / 16 == 0xEB0 && hi % 16 == rn && lo / 0x1000 == 0 && lo / 0x100 % 16 == rd && lo % 16 == rm
      && lo / 16 % 4 == 0 && lo / 0x40 % 4 == shift && hi / 0x400 % 2 == 0 && hi / 0x800 == 0x1D
  {
    assert (0xEB00 + rn) / 0x400 == 0x3A;
    var lo: Half := shift * 0x40 + rd * 0x100 + rm;
    assert lo / 0x100 == rd && lo / 0x40 == 4 * rd + shift && lo / 16 == 4 * (4 * rd + shift);
  }

  lemma WideAdd(m: Code, c: Cpu, hi: Half, lo: Half, rn: nat, rd: nat, rm: nat, shift: nat)
    requires WellFormed(c) && rn < 13 && rd < 13 && rm < 13 && shift < 2 && hi == 0xEB00 + rn
    requires hi / 16 == 0xEB0 && hi % 16 == rn && lo / 0x1000 == 0 && lo / 0x100 % 16 == rd && lo % 16 == rm
    requires lo / 16 % 4 == 0 && lo / 0x40 % 4 == shift && hi / 0x400 % 2 == 0 && hi / 0x800 == 0x1D
    ensures var x: int := c.regs[rm];
      Step32(m, c, hi, lo) ==
        Some(c.(pc := Here(c), regs := c.regs[rd := Add32(c.regs[rn], if shift == 0 then x else 2 * x)]))
  {
    hide Add32, Align, Kind, BranchImm, CondImm, EvenLow, WordAt, Imm12;
    assert hi - hi / 0x400 % 2 * 0x400 == hi;
    assert Step32(m, c, hi, lo) == Data32(m, c, hi, lo);
  }

  /** TBB and TBH of any register, with PC for register 15. */
  lemma TableEncoding(m: Code, c: Cpu, rm: nat)
    requires WellFormed(c) && rm < 16
    ensures var x: int := if rm == 15 then Here(c) else c.regs[rm];
      && (ByteAt(m, Add32(Here(c), x)).Some? ==>
            Step32(m, c, 0xE8DF, 0xF000 + rm) ==
              Some(c.(pc := Add32(Here(c), 2 * ByteAt(m, Add32(Here(c), x)).value))))
      && (Add32(Here(c), 2 * x) in m ==>
            var entry: int := m[Add32(Here(c), 2 * x)];
            Step32(m, c, 0xE8DF, 0xF010 + rm) == Some(c.(pc := Add32(Here(c), 2 * entry))))
  {
    hide Add32, ByteAt;
  }

  /** A table of bytes is read from the half words that hold them, the lower byte first. */
  lemma ByteAtIs(m: Code, a: Word, h: Half)
    requires a % 2 == 0 && a in m && m[a] == h
    ensures ByteAt(m, a) == Some(h % 0x100) && ByteAt(m, a + 1) == Some(h / 0x100)
  {
  }
}

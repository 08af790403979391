/** Which words the AArch64 relocator takes for what: the classifiers are the source's mask tests, and every encoding of
    section C6.2 of the Arm Architecture Reference Manual (DDI 0487) decodes to its instruction, for all its fields. */
module A64Encodings {
  import opened Words
  import opened A64Isa
  import opened A64Layout
  import opened A64Relocator
  import opened A64Meaning

  // ----- the source's mask tests -----

  /** Masks of the top byte. */
  lemma TopMask(w: Word, m: nat)
    requires m < 256
    ensures BitAnd(w, 0x100_0000 * m) == 0x100_0000 * BitAnd(Top(w), m)
  {
    hide BitAnd, Shl;
    Powers();
    AndSplit(w, Top(w), w % 0x100_0000, 24, 0x100_0000, m, 0);
    BitAndZero(w % 0x100_0000);
  }

  /** The masks that the source applies to the top byte. */
  lemma ByteMasks(t: nat)
    requires t < 256
    ensures BitAnd(t, 0xff) == t && BitAnd(t, 0x7f) == t % 128 && BitAnd(t, 0x3f) == t % 64
    ensures BitAnd(t, 0xbf) == t / 128 * 128 + t % 64 && BitAnd(t, 0x9f) == t / 128 * 128 + t % 32
    ensures BitAnd(t, 0x80) == t / 128 * 128 && BitAnd(t, 0x40) == t / 64 % 2 * 64
  {
    hide BitAnd, Shl;
    Powers();
    AndOnes(t, 8, 256);
    LowMask(t, 7, 128);
    LowMask(t, 6, 64);
    HighBit(t, 6, 64, 1, 2);
    HighBit(t, 5, 32, 2, 4);
    AndSplit(t, t / 128, t % 128, 7, 128, 1, 0);
    AndOne(t / 128);
    AndOne(t % 128);
    AndSplit(t, t / 64, t % 64, 6, 64, 1, 0);
    AndOne(t / 64);
    AndOne(t % 64);
  }

  lemma LowMask(t: nat, k: nat, p: nat)
    requires (k == 6 && p == 64) || (k == 7 && p == 128)
    ensures BitAnd(t, p - 1) == t % p
  {
    hide BitAnd, Shl;
    Powers();
    AndSplit(t, t / p, t % p, k, p, 0, p - 1);
    AndOnes(t, k, p);
    BitAndZero(t / p);
  }

  /** Ones below `p`, and the top bit of the byte. */
  lemma HighBit(t: nat, k: nat, p: nat, j: nat, h: nat)
    requires t < 256 && ((k == 6 && p == 64 && j == 1 && h == 2) || (k == 5 && p == 32 && j == 2 && h == 4))
    ensures BitAnd(t, 128 + (p - 1)) == t / 128 * 128 + t % p
  {
    hide BitAnd, Shl;
    Powers();
    var q := t / p;
    AndSplit(t, q, t % p, k, p, h, p - 1);
    AndOnes(t, k, p);
    AndSplit(q, q / h, q % h, j, h, 1, 0);
    AndOne(q / h);
    AndOne(q % h);
    assert q / h == t / 128;
  }

  /** The tests of the source. */
  predicate SourceCond(w: Word) {
    || BitAnd(w, 0xff00_0010) == 0x5400_0000
    || BitAnd(w, 0x7f00_0000) in {0x3400_0000, 0x3500_0000, 0x3600_0000, 0x3700_0000}
  }

  predicate SourceLit(w: Word) {
    || BitAnd(w, 0xbf00_0000) == 0x1800_0000 || BitAnd(w, 0x3f00_0000) == 0x1c00_0000
    || BitAnd(w, 0xff00_0000) == 0x9800_0000
  }

  /** `faligned`, as the source computes it. */
  function SourceAlign(w: Word): nat {
    var a := if BitAnd(w, 0x4000_0000) != 0 then 7 else 3;
    if BitAnd(w, 0xbf00_0000) == 0x1800_0000 then a
    else if BitAnd(w, 0x3f00_0000) == 0x1c00_0000 then
      if a != 7 then (if BitAnd(w, 0x8000_0000) != 0 then 15 else 3) else a
    else 7
  }

  lemma BranchMask(w: Word)
    ensures BitAnd(w, 0xfc00_0000) == w / 0x400_0000 * 0x400_0000
  {
    hide BitAnd, Shl;
    Powers();
    AndSplit(w, w / 0x400_0000, w % 0x400_0000, 26, 0x400_0000, 63, 0);
    AndOnes(w / 0x400_0000, 6, 64);
    BitAndZero(w % 0x400_0000);
  }

  lemma CondMask(w: Word)
    ensures BitAnd(w, 0xff00_0010) == 0x100_0000 * Top(w) + w / 16 % 2 * 16
  {
    hide BitAnd, Shl;
    Powers();
    var low := w % 0x100_0000;
    AndSplit(w, Top(w), w % 0x100_0000, 24, 0x100_0000, 0xff, 0x10);
    AndOnes(Top(w), 8, 256);
    AndSplit(low, low / 16, low % 16, 4, 16, 1, 0);
    AndOne(low / 16);
    AndOne(low % 16);
    LowSixteenth(w);
  }

  lemma LowSixteenth(w: nat)
    ensures w % 0x100_0000 / 16 % 2 == w / 16 % 2
  {
    var t, low := w / 0x100_0000, w % 0x100_0000;
    assert w == 16 * (0x10_0000 * t) + low;
    Sixteenths(0x10_0000 * t, low);
    EvenPlus(0x8_0000 * t, low / 16);
  }

  lemma Sixteenths(a: nat, b: nat)
    ensures (16 * a + b) / 16 == a + b / 16
  {
  }

  lemma EvenPlus(a: nat, b: nat)
    ensures (2 * a + b) % 2 == b % 2
  {
  }

  /** Every class of words is the one that the source tests for. */
  lemma ClassifiersAreTheSources(w: Word)
    ensures IsB(w) <==> BitAnd(w, 0xfc00_0000) == 0x1400_0000
    ensures IsBl(w) <==> BitAnd(w, 0xfc00_0000) == 0x9400_0000
    ensures IsCond(w) <==> SourceCond(w)
    ensures IsTest14(w) <==> BitAnd(w, 0x7f00_0000) in {0x3600_0000, 0x3700_0000}
    ensures IsPrefetch(w) <==> BitAnd(w, 0xff00_0000) == 0xd800_0000
    ensures IsLit(w) <==> SourceLit(w)
    ensures IsAdr(w) <==> BitAnd(w, 0x9f00_0000) == 0x1000_0000
    ensures IsAdrp(w) <==> BitAnd(w, 0x9f00_0000) == 0x9000_0000
    ensures IsLit(w) ==> LitBytes(w) == SourceAlign(w) + 1
  {
    hide BitAnd, IsB, IsBl, IsCond19, IsTest14, IsPrefetch, IsLit, IsAdr, IsAdrp, SourceCond, SourceLit, SourceAlign;
    hide LitBytes;
    BranchClass(w);
    CondClass(w);
    LitClass(w);
    AddressClass(w);
  }

  lemma BranchClass(w: Word)
    ensures IsB(w) <==> BitAnd(w, 0xfc00_0000) == 0x1400_0000
    ensures IsBl(w) <==> BitAnd(w, 0xfc00_0000) == 0x9400_0000
  {
    hide BitAnd;
    BranchMask(w);
  }

  lemma CondClass(w: Word)
    ensures IsCond(w) <==> SourceCond(w)
    ensures IsTest14(w) <==> BitAnd(w, 0x7f00_0000) in {0x3600_0000, 0x3700_0000}
  {
    hide BitAnd;
    CondMask(w);
    TopMask(w, 0x7f);
    var t := Top(w);
    ByteMasks(t);
    hide Top;
    SevenBits(t);
  }

  lemma SevenBits(t: nat)
    requires t < 256
    ensures t % 128 == 0x34 <==> t in {0x34, 0xb4}
    ensures t % 128 == 0x35 <==> t in {0x35, 0xb5}
    ensures t % 128 == 0x36 <==> t in {0x36, 0xb6}
    ensures t % 128 == 0x37 <==> t in {0x37, 0xb7}
  {
  }

  lemma LitClass(w: Word)
    ensures IsPrefetch(w) <==> BitAnd(w, 0xff00_0000) == 0xd800_0000
    ensures IsLit(w) <==> SourceLit(w)
    ensures IsLit(w) ==> LitBytes(w) == SourceAlign(w) + 1
  {
    hide BitAnd;
    TopMask(w, 0xff);
    TopMask(w, 0x3f);
    TopMask(w, 0xbf);
    TopMask(w, 0x80);
    TopMask(w, 0x40);
    var t := Top(w);
    ByteMasks(t);
    hide Top;
    SixBits(t);
  }

  lemma SixBits(t: nat)
    requires t < 256
    ensures t % 64 == 0x1c <==> t in {0x1c, 0x5c, 0x9c, 0xdc}
    ensures t / 128 * 128 + t % 64 == 0x18 <==> t in {0x18, 0x58}
  {
  }

  lemma AddressClass(w: Word)
    ensures IsAdr(w) <==> BitAnd(w, 0x9f00_0000) == 0x1000_0000
    ensures IsAdrp(w) <==> BitAnd(w, 0x9f00_0000) == 0x9000_0000
  {
    hide BitAnd;
    TopMask(w, 0x9f);
    var t := Top(w);
    ByteMasks(t);
    hide Top;
    FiveBits(t);
  }

  lemma FiveBits(t: nat)
    requires t < 256
    ensures t / 128 * 128 + t % 32 == 0x10 <==> t in {0x10, 0x30, 0x50, 0x70}
    ensures t / 128 * 128 + t % 32 == 0x90 <==> t in {0x90, 0xb0, 0xd0, 0xf0}
  {
  }

  /** Pages are 4 KiB blocks. */
  lemma PageIs(a: int)
    ensures Page(a) % 4096 == 0 && 0 <= a - Page(a) < 4096
  {
    var q := a / 4096;
    assert a == 4096 * q + a % 4096;
    assert Page(a) == 4096 * q;
  }

  // ----- the encodings -----

  lemma FieldsOf(w: Word, top: nat, imm: nat, low: nat)
    requires top < 256 && imm < 0x8_0000 && low < 32 && w == 0x100_0000 * top + 32 * imm + low
    ensures Top(w) == top && Imm19(w) == imm && Low5(w) == low && w - 32 * Imm19(w) == 0x100_0000 * top + low
    ensures w / 0x400_0000 == top / 4 && w / 16 % 2 == low / 16
  {
    Fields19(top, imm, low);
    LowBit(0x8_0000 * top + imm, low);
    assert w / 0x400_0000 == Top(w) / 4;
  }

  /** B and BL. */
  lemma BranchEncoding(imm: nat)
    requires imm < 0x400_0000
    ensures Decode(0x1400_0000 + imm) == B(Signed(imm, 0x200_0000))
    ensures Decode(0x9400_0000 + imm) == Bl(Signed(imm, 0x200_0000))
  {
    var w, v: Word := 0x1400_0000 + imm, 0x9400_0000 + imm;
    assert w / 0x400_0000 == 5 && w % 0x400_0000 == imm && v / 0x400_0000 == 0x25 && v % 0x400_0000 == imm;
  }

  /** B.cond, CBZ and CBNZ of both widths. */
  lemma CondEncoding(imm: nat, cond: nat, sf: nat, op: nat, rt: nat)
    requires imm < 0x8_0000 && cond < 16 && sf < 2 && op < 2 && rt < 32
    ensures Decode(0x5400_0000 + 32 * imm + cond) == CondBr(0x5400_0000 + cond, Signed(imm, 0x4_0000))
    ensures var base := sf * 0x8000_0000 + 0x3400_0000 + op * 0x100_0000;
      Decode(base + 32 * imm + rt) == CondBr(base + rt, Signed(imm, 0x4_0000))
  {
    hide Top, Imm19, Low5;
    FieldsOf(0x5400_0000 + 32 * imm + cond, 0x54, imm, cond);
    FieldsOf(sf * 0x8000_0000 + 0x3400_0000 + op * 0x100_0000 + 32 * imm + rt, sf * 0x80 + 0x34 + op, imm, rt);
  }

  /** TBZ and TBNZ of a bit of either half. */
  lemma TestEncoding(b5: nat, op: nat, b40: nat, imm: nat, rt: nat)
    requires b5 < 2 && op < 2 && b40 < 32 && imm < 0x4000 && rt < 32
    ensures var base := b5 * 0x8000_0000 + 0x3600_0000 + op * 0x100_0000 + b40 * 0x8_0000;
      Decode(base + 32 * imm + rt) == CondBr(base + rt, Signed(imm, 0x2000))
  {
    hide Top, Imm19, Low5, Imm14;
    var w: Word := b5 * 0x8000_0000 + 0x3600_0000 + op * 0x100_0000 + b40 * 0x8_0000 + 32 * imm + rt;
    FieldsOf(w, b5 * 0x80 + 0x36 + op, b40 * 0x4000 + imm, rt);
    LowField(w, b40, imm);
  }

  lemma LowField(w: Word, b40: nat, imm: nat)
    requires Imm19(w) == b40 * 0x4000 + imm && imm < 0x4000 && b40 < 32
    ensures Imm14(w) == imm
  {
    var q, h := w / 32, w / 32 / 0x8_0000;
    assert q == 0x8_0000 * h + Imm19(w);
    assert q == 0x4000 * (32 * h + b40) + imm;
  }

  /** LDR and LDRSW of a literal, into general and vector registers, and PRFM. */
  lemma LiteralEncoding(opc: nat, imm: nat, rt: nat)
    requires opc < 4 && imm < 0x8_0000 && rt < 32
    ensures opc < 3 ==>
      Decode(opc * 0x4000_0000 + 0x1800_0000 + 32 * imm + rt) == LdrLit(opc * 0x40 + 0x18, rt, Signed(imm, 0x4_0000))
    ensures opc < 3 ==>
      Decode(opc * 0x4000_0000 + 0x1c00_0000 + 32 * imm + rt) == LdrLit(opc * 0x40 + 0x1c, rt, Signed(imm, 0x4_0000))
    ensures Decode(0xd800_0000 + 32 * imm + rt) == Prefetch
  {
    hide Top, Imm19, Low5;
    if opc < 3 {
      FieldsOf(opc * 0x4000_0000 + 0x1800_0000 + 32 * imm + rt, opc * 0x40 + 0x18, imm, rt);
      FieldsOf(opc * 0x4000_0000 + 0x1c00_0000 + 32 * imm + rt, opc * 0x40 + 0x1c, imm, rt);
    }
    FieldsOf(0xd800_0000 + 32 * imm + rt, 0xd8, imm, rt);
  }

  /** ADR and ADRP. */
  lemma AddressEncoding(lo: nat, hi: nat, rd: nat)
    requires lo < 4 && hi < 0x8_0000 && rd < 32
    ensures Decode(0x1000_0000 + lo * 0x2000_0000 + 32 * hi + rd) == Adr(rd, Signed(4 * hi + lo, 0x10_0000))
    ensures Decode(0x9000_0000 + lo * 0x2000_0000 + 32 * hi + rd) == Adrp(rd, Signed(4 * hi + lo, 0x10_0000))
  {
    hide Top, Imm19, Low5;
    var w: Word := 0x1000_0000 + lo * 0x2000_0000 + 32 * hi + rd;
    var v: Word := 0x9000_0000 + lo * 0x2000_0000 + 32 * hi + rd;
    FieldsOf(w, lo * 0x20 + 0x10, hi, rd);
    FieldsOf(v, lo * 0x20 + 0x90, hi, rd);
    AddressDecodes(w, lo, hi, rd, 0x10);
    AddressDecodes(v, lo, hi, rd, 0x90);
  }

  lemma AddressDecodes(w: Word, lo: nat, hi: nat, rd: nat, base: nat)
    requires lo < 4 && hi < 0x8_0000 && rd < 32 && base in {0x10, 0x90}
    requires Top(w) == lo * 0x20 + base && Imm19(w) == hi && Low5(w) == rd && w / 0x400_0000 == Top(w) / 4
    ensures base == 0x10 ==> Decode(w) == Adr(rd, Signed(4 * hi + lo, 0x10_0000))
    ensures base == 0x90 ==> Decode(w) == Adrp(rd, Signed(4 * hi + lo, 0x10_0000))
  {
    hide Top, Imm19, Low5, Signed;
  }

  /** NOP, BR and BLR. */
  lemma RegisterEncoding(rn: nat)
    requires rn < 32
    ensures Decode(0xd503_201f) == Nop
    ensures Decode(0xd61f_0000 + 32 * rn) == Br(rn) && Decode(0xd63f_0000 + 32 * rn) == Blr(rn)
  {
    hide Top, Imm19, Low5;
    FieldsOf(NOP, 0xd5, 0x1900, 31);
    var w: Word, v: Word := 0xd61f_0000 + 32 * rn, 0xd63f_0000 + 32 * rn;
    FieldsOf(w, 0xd6, 0xf800 + rn, 0);
    FieldsOf(v, 0xd6, 0x1_f800 + rn, 0);
    assert w / 1024 == 0x35_87c0 && w / 32 == 0x6b0_f800 + rn && v / 1024 == 0x35_8fc0 && v / 32 == 0x6b1_f800 + rn;
    assert w % 32 == 0 && v % 32 == 0;
  }

  /** A 64-bit address. */
  function To64(a: int): int { a % 0x1_0000_0000_0000_0000 }

  /** Where the direct branches go, and what a call leaves in X30. */
  lemma BranchesGo<R>(cpu: Cpu<R>, mem: Memory, s: State<R>, imm: nat)
    requires imm < 0x400_0000
    ensures var target := To64(s.pc + 4 * (if imm < 0x200_0000 then imm else imm - 0x400_0000));
      && (mem(s.pc) == 0x1400_0000 + imm ==> Step(cpu, mem, s) == s.(pc := target))
      && (mem(s.pc) == 0x9400_0000 + imm ==> Step(cpu, mem, s) == State(target, SetX(s.r, 30, To64(s.pc + 4))))
  {
    hide Decode, SetX;
    BranchEncoding(imm);
  }

  /** Where the branches to a register go. */
  lemma RegisterBranchesGo<R>(cpu: Cpu<R>, mem: Memory, s: State<R>, rn: nat)
    requires rn < 32
    ensures mem(s.pc) == 0xd61f_0000 + 32 * rn ==> Step(cpu, mem, s) == s.(pc := GetX(s.r, rn))
    ensures mem(s.pc) == 0xd63f_0000 + 32 * rn ==>
      Step(cpu, mem, s) == State(GetX(s.r, rn), SetX(s.r, 30, To64(s.pc + 4)))
  {
    hide Decode, SetX, GetX;
    RegisterEncoding(rn);
  }

  /** What ADR, ADRP and a 64-bit literal load leave in their register. */
  lemma AddressesGo<R>(cpu: Cpu<R>, mem: Memory, s: State<R>, lo: nat, hi: nat, rd: nat)
    requires lo < 4 && hi < 0x8_0000 && rd < 32
    ensures var d := 4 * (if hi < 0x4_0000 then hi else hi - 0x8_0000);
      && (mem(s.pc) == 0x1000_0000 + lo * 0x2000_0000 + 32 * hi + rd ==>
            Step(cpu, mem, s) == State(s.pc + 4, SetX(s.r, rd, To64(s.pc + (d + lo)))))
      && (mem(s.pc) == 0x9000_0000 + lo * 0x2000_0000 + 32 * hi + rd ==>
            Step(cpu, mem, s) == State(s.pc + 4, SetX(s.r, rd, To64(s.pc - s.pc % 4096 + 4096 * (d + lo)))))
      && (mem(s.pc) == 0x5800_0000 + 32 * hi + rd ==>
            Step(cpu, mem, s) ==
              State(s.pc + 4, SetX(s.r, rd, mem(To64(s.pc + d)) + 0x1_0000_0000 * mem(To64(s.pc + d) + 4))))
  {
    hide Decode, SetX;
    AddressEncoding(lo, hi, rd);
    LiteralEncoding(1, hi, rd);
    assert Signed(4 * hi + lo, 0x10_0000) == 4 * (if hi < 0x4_0000 then hi else hi - 0x8_0000) + lo;
  }

  // ----- which form is chosen -----

  /** The largest offset of a one-word form: in words, and in bytes for ADR. */
  function Reach(w: Word): nat {
    if IsB(w) || IsBl(w) then 0x1ff_ffff else if IsTest14(w) then 0x1fff else if IsAdr(w) then 0xf_ffff else 0x3_ffff
  }

  /** The field holds the reach, and one more turns negative. */
  lemma ReachIsLargest(w: Word)
    requires IsB(w) || IsBl(w) || IsCond(w)
    ensures Displacement(EncodeOffset(w, Reach(w))) == Reach(w)
    ensures Displacement(EncodeOffset(w, Reach(w) + 1)) < 0
  {
    hide Decode, IsB, IsBl, IsCond19, IsTest14;
    KindsDisjoint(w);
    if IsB(w) || IsBl(w) {
      BranchEncoding(0x1ff_ffff);
      BranchEncoding(0x200_0000);
    } else if IsTest14(w) {
      DecodeTest14(w, 0x1fff);
      DecodeTest14(w, -0x2000);
    } else {
      DecodeCond19(w, 0x3_ffff);
      DecodeCond19(w, -0x4_0000);
    }
  }

  lemma AddressReach(imm: nat, lo: nat, rd: nat)
    requires lo < 4 && rd < 32 && imm < 0x8_0000
    ensures Displacement(0x1000_0000 + lo * 0x2000_0000 + 32 * imm + rd) == 4 * imm + lo <==> 4 * imm + lo <= 0xf_ffff
  {
    hide Decode;
    AddressEncoding(lo, imm, rd);
  }

  /** A target outside the window is reached by the one-word form exactly when its distance, either way, is below the
      reach; a literal also needs room for the NOPs that align it. */
  lemma FormsByReach(W: Window, i: nat)
    requires !W.Contains(Target(W, i))
    ensures var w, d := W.At(i), Target(W, i) - Start(W, i);
      && (IsB(w) || IsBl(w) || IsCond(w) ==> (Shape(W, i) == Near <==> Abs(d / 4) < Reach(w)))
      && (IsLit(w) ==> (Shape(W, i) == Near <==> Abs(d / 4) + (LitBytes(w) / 4 - 1) < Reach(w)))
      && (IsAdr(w) ==> (Shape(W, i) == Near <==> Abs(d) < Reach(w)))
      && (IsAdrp(w) ==> Shape(W, i) == Far)
  {
    hide IsB, IsBl, IsCond19, IsTest14, IsLit, IsAdr, IsAdrp, IsPrefetch, Start, SourceTarget, LitBytes;
    KindsDisjoint(W.At(i));
    LitSizes(W.At(i));
  }

  /** The jump back and the hook stub are one B exactly within its reach. */
  lemma JumpsByReach(W: Window, symbol: int, replace: int)
    ensures |Tail(W)| == 1 <==> Abs((W.End() - Start(W, W.n)) / 4) < Reach(0x1400_0000)
    ensures |HookStub(symbol, replace)| == 1 <==> Abs((replace - symbol) / 4) < Reach(0x1400_0000)
  {
    hide Start;
    assert IsB(0x1400_0000);
  }

  /** A literal takes the bytes that its load reads, except that LDRSW is given 8; a rebased load stays a multiple of
      that size away from its literal. */
  lemma LiteralSizes(W: Window, i: nat)
    requires IsLit(W.At(i))
    ensures var w := W.At(i);
      LitBytes(w) == if Top(w) == 0x98 then 8 else 4 * LitWords(Top(w))
    ensures Shape(W, i) == Near ==> (Target(W, i) - Ins(W, i)) / 4 % (LitBytes(W.At(i)) / 4) == 0
  {
    var w := W.At(i);
    assert LitBytes(w) == if Top(w) == 0x98 then 8 else 4 * LitWords(Top(w));
    hide IsLit, ShapeOf, SourceTarget, Start, LitBytes, LitWords;
    if Shape(W, i) == Near {
      LitSizes(w);
      NearLit(W, i);
      Rounded(Target(W, i) - Start(W, i), LitBytes(w) / 4);
    }
  }

  lemma Rounded(d: int, m: nat)
    requires m in {1, 2, 4}
    ensures (d - 4 * Rest(d / 4, m)) / 4 % m == 0
  {
    var x := d / 4;
    var q := x / m;
    assert d - 4 * Rest(x, m) == 4 * (x - x % m) + d % 4;
    assert (d - 4 * Rest(x, m)) / 4 == x - x % m;
  }
}

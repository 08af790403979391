/** Every relocated Thumb instruction against its original: one step of the original from the instruction's address is
    matched by the run of its fragment, up to the absolute target or the place of the next fragment. */
module ThumbMoves {
  import opened Words
  import opened Thumb
  import opened ThumbMeaning
  import opened ThumbTrampoline

  // ----- what is kept -----

  /** What a fragment loses besides what the original changes: nothing, the word below the stack pointer, or also a
      spare register and the flags. */
  datatype Loss = Nothing | Below | BelowAnd(spare: nat)

  /** The stacks agree but for the word below the stack pointer. */
  ghost predicate SameStack(d: Cpu, e: Cpu)
    requires |d.regs| == 16
  {
    forall a :: a in d.stack && a != Add32(d.regs[13], -4) ==> a in e.stack && e.stack[a] == d.stack[a]
  }

  /** `e` in the relocated code stands for `d`, but for the loss. A spare register and the flags that are lost hold
      what the address computation left: the target with bit 0 set, and the flags of that sum. */
  ghost predicate Same(d: Cpu, e: Cpu, loss: Loss)
    requires |d.regs| == 16
  {
    match loss
    case Nothing => e == d
    case Below => e == d.(stack := e.stack) && SameStack(d, e)
    case BelowAnd(spare) =>
      && spare < 16 && SameStack(d, e)
      && e == d.(regs := d.regs[spare := Add32(d.pc, 1)], passes := AddPasses(d.pc, 1), stack := e.stack)
  }

  function Rdn(ins: Half): nat { ins / 0x80 % 2 * 8 + ins % 8 }

  function ShortLiteral(c: Cpu, ins: Half): Word { Add32(Align(Add32(c.pc, 4)), ins % 0x100 * 4) }

  function WideLiteral(c: Cpu, hi: Half, lo: Half): Word {
    Add32(Align(Add32(c.pc, 4)), if hi / 0x80 % 2 == 1 then lo % 0x1000 else -(lo % 0x1000))
  }

  /** The 16-bit instructions whose fragment does what they do; literals must read as they did when hooking. */
  predicate Kept16(m0: Code, c: Cpu, ins: Half, lit: Word -> Word) {
    match TypeOf16(ins)
    case B1 => ins / 0x100 % 16 < 14
    case B2 => true
    case CB => true
    case ADD => Rdn(ins) != 13 && Rdn(ins) != 15
    case MOV => ins / 0x80 % 2 == 0
    case ADR => Align(Add32(c.pc, 4)) == 0
    case LDR => WordAt(m0, ShortLiteral(c, ins)) == Some(lit(ShortLiteral(c, ins)))
    case BX => false
    case OTHER => false
  }

  predicate Kept32(m0: Code, m: Code, c: Cpu, hi: Half, lo: Half, lit: Word -> Word)
    requires WellFormed(c)
  {
    match TypeOf32(hi, lo)
    case BLX_W => true
    case BL_W => c.pc % 4 == 0
    case B_W => c.pc % 4 == 0
    case BCOND_W => hi / 0x40 % 16 < 14 && (c.passes[hi / 0x40 % 16] ==> c.pc % 4 == 0)
    case ADR_SUB => Imm12(hi, lo) == 0 && lo / 0x100 % 16 != 15
    case ADR_ADD => Imm12(hi, lo) == 0 && lo / 0x100 % 16 != 15
    case LDR_W => WordAt(m0, WideLiteral(c, hi, lo)) == Some(lit(WideLiteral(c, hi, lo)))
    case TBB => KeptTable(m0, m, c, lo % 16, false)
    case TBH => KeptTable(m0, m, c, lo % 16, true)
    case OTHER_W => false
  }

  /** The table reads as it did when hooking. */
  predicate KeptTable(m0: Code, m: Code, c: Cpu, rm: nat, half: bool)
    requires WellFormed(c) && rm < 16
  {
    && rm != 13 && rm != 15 && Entry(m0, Add32(c.pc, 4), c.regs[rm], half).Some?
    && Entry(m, Add32(c.pc, 4), c.regs[rm], half) == Entry(m0, Add32(c.pc, 4), c.regs[rm], half)
  }

  /** The step leaves the straight line of the code. */
  predicate Leaves16(c: Cpu, ins: Half)
    requires WellFormed(c)
  {
    match TypeOf16(ins)
    case B1 => c.passes[ins / 0x100 % 16]
    case B2 => true
    case CB => (c.regs[ins % 8] != 0) == (ins / 0x800 % 2 == 1)
    case _ => false
  }

  predicate Leaves32(c: Cpu, hi: Half, lo: Half)
    requires WellFormed(c)
  {
    match TypeOf32(hi, lo)
    case BCOND_W => c.passes[hi / 0x40 % 16]
    case ADR_SUB => false
    case ADR_ADD => false
    case LDR_W => lo / 0x1000 == 15
    case _ => true
  }

  /** The original's result `d`, with the fall-through and the return address of a call moved to the fragment's end. */
  function Landing(d: Cpu, leaves: bool, call: bool, end: Word): Cpu
    requires |d.regs| == 16 && end + 1 < 0x1_0000_0000
  {
    if call then SetReg(d, 14, end + 1) else if leaves then d else d.(pc := end)
  }

  function Lost16(ins: Half): Loss { if TypeOf16(ins).ADD? then Below else Nothing }

  function Lost32(hi: Half, lo: Half): Loss {
    if TypeOf32(hi, lo).TBB? || TypeOf32(hi, lo).TBH? then BelowAnd(Spare(lo % 16)) else Nothing
  }

  predicate Calls(hi: Half, lo: Half) { TypeOf32(hi, lo).BL_W? || TypeOf32(hi, lo).BLX_W? }

  // ----- 16-bit instructions -----

  lemma Itself(d: Cpu)
    requires |d.regs| == 16
    ensures Same(d, d, Nothing)
  {
  }

  /** The original instructions other than branches. */
  lemma OriginalData(m0: Code, c: Cpu, ins: Half)
    requires WellFormed(c)
    ensures var pc := Add32(c.pc, 4);
      && (TypeOf16(ins).ADD? && Rdn(ins) != 15 ==>
            Step16(m0, c, ins) == Some(Goto(SetReg(c, Rdn(ins), Add32(c.regs[Rdn(ins)], pc)), Add32(c.pc, 2))))
      && (TypeOf16(ins).MOV? && Rdn(ins) != 15 ==>
          Step16(m0, c, ins) == Some(Goto(SetReg(c, Rdn(ins), pc), Add32(c.pc, 2))))
      && (TypeOf16(ins).ADR? ==>
            Step16(m0, c, ins) == Some(Goto(SetReg(c, ins / 0x100 % 8, ShortLiteral(c, ins)), Add32(c.pc, 2))))
      && (TypeOf16(ins).LDR? && WordAt(m0, ShortLiteral(c, ins)).Some? ==>
            Step16(m0, c, ins) ==
              Some(Goto(SetReg(c, ins / 0x100 % 8, WordAt(m0, ShortLiteral(c, ins)).value), Add32(c.pc, 2))))
  {
    hide Add32, Align, WordAt, ByteAt, Listed;
    if TypeOf16(ins).ADD? || TypeOf16(ins).MOV? || TypeOf16(ins).ADR? {
      DataTypes(ins);
      DataStep(m0, c, ins);
    }
  }

  lemma DataTypes(ins: Half)
    ensures TypeOf16(ins).ADD? ==> ins / 0x1000 == 4 && ins / 0x800 == 8 && ins / 0x400 == 17 && ins / 0x100 == 0x44
    ensures TypeOf16(ins).MOV? ==> ins / 0x1000 == 4 && ins / 0x800 == 8 && ins / 0x400 == 17 && ins / 0x100 == 0x46
    ensures TypeOf16(ins).ADR? ==>
      ins / 0x1000 == 0xA && ins / 0x800 == 0x14 && ins / 0x100 / 8 == 0x14 && ins / 0x80 / 16 == 0x14
  {
  }

  lemma OriginalFalls(m0: Code, c: Cpu, ins: Half)
    requires WellFormed(c) && !Leaves16(c, ins)
    requires (TypeOf16(ins).B1? && ins / 0x100 % 16 < 14) || TypeOf16(ins).CB?
    ensures Step16(m0, c, ins) == Some(Goto(c, Add32(c.pc, 2)))
  {
    hide Add32, Signed;
  }

  lemma DataFrags(pc: Word, ins: Half, lit: Word -> Word)
    ensures TypeOf16(ins).ADD? ==> Frag16(pc, ins, lit) == AddFrag(Rdn(ins), pc)
    ensures TypeOf16(ins).MOV? ==> Frag16(pc, ins, lit) == Load(ins % 8, pc)
    ensures TypeOf16(ins).ADR? ==>
      Frag16(pc, ins, lit) == Load(ins / 0x100 % 8, (Align(pc) + ins % 0x100) * 4 % 0x1_0000_0000)
    ensures TypeOf16(ins).LDR? ==> Frag16(pc, ins, lit) == Load(ins / 0x100 % 8, lit(Add32(Align(pc), ins % 0x100 * 4)))
  {
    hide TypeOf16, Add32, Align, Load, OneHot, Spare;
    if TypeOf16(ins).ADD? { AddFields(ins); }
  }

  lemma AddFields(ins: Half)
    requires TypeOf16(ins).ADD?
    ensures Rdn(ins) / 8 == ins / 0x80 % 2 && Rdn(ins) % 8 == ins % 8 && Rdn(ins) < 16
    ensures ins / 0x80 * 0x80 == 0x4400 + Rdn(ins) / 8 * 0x80
  {
    DataTypes(ins);
    var a, b := ins / 0x80 % 2, ins % 8;
    LowFields(0, a, b);
    assert ins / 0x80 == ins / 0x100 * 2 + a;
  }

  lemma TypeForms(ins: Half)
    ensures TypeOf16(ins).B1? <==> ins / 0x1000 == 0xD
    ensures TypeOf16(ins).B2? <==> ins / 0x800 == 0x1C
  {
  }

  /** ADR is measured from an address shifted with its immediate: the two agree on the first page only. */
  lemma AdrValue(a: Word, imm: nat)
    requires a % 4 == 0 && imm < 0x100
    ensures (a + imm) * 4 % 0x1_0000_0000 == Add32(a, imm * 4) <==> a == 0
  {
    var x, y := (a + imm) * 4, a + imm * 4;
    var p, q := x / 0x1_0000_0000, y / 0x1_0000_0000;
    assert x == p * 0x1_0000_0000 + x % 0x1_0000_0000 && y == q * 0x1_0000_0000 + y % 0x1_0000_0000;
    if x % 0x1_0000_0000 == y % 0x1_0000_0000 {
      assert 3 * a == (p - q) * 0x1_0000_0000;
      Thirds(a, p - q);
    }
  }

  lemma Thirds(a: Word, k: int)
    requires 3 * a == k * 0x1_0000_0000
    ensures a == 0
  {
    assert 0 <= k < 3;
  }

  /** One step of a 16-bit instruction. */
  lemma ShortMoves(m0: Code, m: Code, c: Cpu, ins: Half, base: Word, lit: Word -> Word) returns (n: nat, e: Cpu)
    requires WellFormed(c) && c.thumb && Kept16(m0, c, ins, lit) && base % 4 == 0
    requires var f := Frag16(Add32(c.pc, 4), ins, lit); Holds(m, base, f) && base + 2 * |f| + 1 < 0x1_0000_0000
    ensures Run(m, Moved(c, base), n) == Some(e)
    ensures var d := Step16(m0, c, ins);
      d.Some? && |d.value.regs| == 16
      && Same(Landing(d.value, Leaves16(c, ins), false, base + 2 * |Frag16(Add32(c.pc, 4), ins, lit)|), e, Lost16(ins))
  {
    hide Step16, Run, Holds, Add32, Align, TypeOf16, Frag16, Load, LoadPc, Same, AddFrag, WordAt;
    Boundary(c, base);
    var pc := Add32(c.pc, 4);
    TypeForms(ins);
    match TypeOf16(ins)
    case B1 =>
      ShortFrags(pc, ins, lit);
      n := 2;
      CondBranchMoves(m0, m, c, ins, base, lit);
      OriginalShort(m0, c, ins);
      if !Leaves16(c, ins) { OriginalFalls(m0, c, ins); }
      e := Run(m, Moved(c, base), n).value;
      Itself(e);
    case B2 =>
      n := 1;
      BranchMoves(m0, m, c, ins, base, lit);
      OriginalShort(m0, c, ins);
      e := Run(m, Moved(c, base), n).value;
      Itself(e);
    case CB =>
      ShortFrags(pc, ins, lit);
      n := 2;
      CompareBranchMoves(m0, m, c, ins, base, lit);
      OriginalCb(m0, c, ins);
      if !Leaves16(c, ins) { OriginalFalls(m0, c, ins); }
      e := Run(m, Moved(c, base), n).value;
      Itself(e);
    case _ => n, e := DataMoves(m0, m, c, ins, base, lit);
  }

  lemma DataMoves(m0: Code, m: Code, c: Cpu, ins: Half, base: Word, lit: Word -> Word) returns (n: nat, e: Cpu)
    requires WellFormed(c) && c.thumb && Kept16(m0, c, ins, lit) && base % 4 == 0
    requires !TypeOf16(ins).B1? && !TypeOf16(ins).B2? && !TypeOf16(ins).CB?
    requires var f := Frag16(Add32(c.pc, 4), ins, lit); Holds(m, base, f) && base + 2 * |f| + 1 < 0x1_0000_0000
    ensures Run(m, Moved(c, base), n) == Some(e)
    ensures var d := Step16(m0, c, ins);
      d.Some? && |d.value.regs| == 16
      && Same(Landing(d.value, Leaves16(c, ins), false, base + 2 * |Frag16(Add32(c.pc, 4), ins, lit)|), e, Lost16(ins))
  {
    hide Step16, Run, Holds, Add32, Align, TypeOf16, Frag16, LoadPc, Same, WordAt;
    Boundary(c, base);
    var pc, b := Add32(c.pc, 4), Moved(c, base);
    DataFrags(pc, ins, lit);
    OriginalData(m0, c, ins);
    match TypeOf16(ins)
    case ADD =>
      n := 5;
      AddRuns(m, base, b, Rdn(ins), pc);
      e := Added(b, Rdn(ins), pc, base + 16);
      AddedSame(c, base, Rdn(ins), pc);
    case MOV =>
      n := 2;
      LoadRuns(m, base, b, ins % 8, pc);
      e := Goto(SetReg(b, ins % 8, pc), base + 8);
      Itself(e);
    case ADR =>
      n := 2;
      AlignIs(pc);
      AdrValue(Align(pc), ins % 0x100);
      LoadRuns(m, base, b, ins / 0x100 % 8, ShortLiteral(c, ins));
      e := Goto(SetReg(b, ins / 0x100 % 8, ShortLiteral(c, ins)), base + 8);
      Itself(e);
    case LDR =>
      n := 2;
      var v := lit(ShortLiteral(c, ins));
      LoadRuns(m, base, b, ins / 0x100 % 8, v);
      e := Goto(SetReg(b, ins / 0x100 % 8, v), base + 8);
      Itself(e);
  }

  lemma AddedSame(c: Cpu, base: Word, d: nat, v: Word)
    requires WellFormed(c) && d < 15 && d != 13 && base % 2 == 0 && base + 16 < 0x1_0000_0000
    ensures Same(Goto(SetReg(c, d, Add32(c.regs[d], v)), base + 16), Added(Moved(c, base), d, v, base + 16), Below)
  {
  }

  // ----- 32-bit instructions -----

  lemma OriginalWideData(m0: Code, c: Cpu, hi: Half, lo: Half)
    requires WellFormed(c)
    ensures var pc, rd, imm: int := Add32(c.pc, 4), lo / 0x100 % 16, Imm12(hi, lo);
      && (TypeOf32(hi, lo).ADR_ADD? && rd != 15 ==>
            Step32(m0, c, hi, lo) == Some(Goto(SetReg(c, rd, Add32(Align(pc), imm)), pc)))
      && (TypeOf32(hi, lo).ADR_SUB? && rd != 15 ==>
            Step32(m0, c, hi, lo) == Some(Goto(SetReg(c, rd, Add32(Align(pc), -imm)), pc)))
  {
    hide Add32, Align, WordAt, ByteAt, Imm12, BranchImm, CondImm;
  }

  lemma OriginalLoad(m0: Code, c: Cpu, hi: Half, lo: Half)
    requires WellFormed(c) && TypeOf32(hi, lo).LDR_W? && WordAt(m0, WideLiteral(c, hi, lo)).Some?
    ensures var v := WordAt(m0, WideLiteral(c, hi, lo)).value;
      Step32(m0, c, hi, lo) ==
        Some(if lo / 0x1000 == 15 then LoadPc(c, v) else Goto(SetReg(c, lo / 0x1000, v), Add32(c.pc, 4)))
  {
    hide Add32, Align, WordAt, Data32, BranchImm, CondImm, LoadPc, Kind;
  }

  lemma OriginalTable(m0: Code, c: Cpu, hi: Half, lo: Half)
    requires WellFormed(c) && (TypeOf32(hi, lo).TBB? || TypeOf32(hi, lo).TBH?) && lo % 16 != 15
    requires Entry(m0, Add32(c.pc, 4), c.regs[lo % 16], TypeOf32(hi, lo).TBH?).Some?
    ensures var e: int := Entry(m0, Add32(c.pc, 4), c.regs[lo % 16], TypeOf32(hi, lo).TBH?).value;
      Step32(m0, c, hi, lo) == Some(Goto(c, Add32(Add32(c.pc, 4), e * 2)))
  {
    hide Add32, Align, WordAt, ByteAt, BranchImm, CondImm;
  }

  lemma OriginalWideFalls(m0: Code, c: Cpu, hi: Half, lo: Half)
    requires WellFormed(c) && TypeOf32(hi, lo).BCOND_W? && hi / 0x40 % 16 < 14 && !c.passes[hi / 0x40 % 16]
    ensures Step32(m0, c, hi, lo) == Some(Goto(c, Add32(c.pc, 4)))
  {
    hide Add32, Align, WordAt, Data32, BranchImm, CondImm;
  }

  /** The fields of the source's ADR.W immediate: it is a multiple of 2^27. */
  lemma AdrImmHigh(hi: Half, lo: Half) returns (k: nat)
    ensures AdrImm(hi, lo) == 0x800_0000 * k && k < 32
    ensures Imm12(hi, lo) == 0 ==> k == 0
  {
    hide BitOr;
    var i, imm3, imm8 := hi / 0x400 % 2, lo / 0x1000 % 8, lo % 0x100;
    var a, b, c := 16 * i, imm3 % 4 * 8, imm8 % 32;
    assert i * 0x8000_0000 == 0x800_0000 * a;
    Scaled(imm3, 8, 4);
    Scaled(imm8, 1, 32);
    Shifted(a, b);
    BitOrBound(a, b, 5);
    Shifted(BitOr(a, b), c);
    BitOrBound(BitOr(a, b), c, 5);
    k := BitOr(BitOr(a, b), c);
    assert Shl(1, 5) == 32;
    BitOrZero(0);
  }

  /** Bits shifted out of the word are lost. */
  lemma Scaled(x: nat, w: nat, n: nat)
    requires (w == 8 && n == 4) || (w == 1 && n == 32)
    ensures x * (0x800_0000 * w) % 0x1_0000_0000 == 0x800_0000 * (x % n * w)
  {
    var q, r := x / n, x % n;
    assert x == n * q + r;
    assert x * (0x800_0000 * w) == q * 0x1_0000_0000 + 0x800_0000 * (r * w);
    Unique(x * (0x800_0000 * w), q, 0x800_0000 * (r * w));
  }

  lemma Unique(x: int, q: int, r: int)
    requires x == q * 0x1_0000_0000 + r && 0 <= r < 0x1_0000_0000
    ensures x % 0x1_0000_0000 == r
  {
  }

  lemma Shifted(a: nat, b: nat)
    ensures BitOr(0x800_0000 * a, 0x800_0000 * b) == 0x800_0000 * BitOr(a, b)
  {
    hide BitOr;
    ShlLinear(a, 27);
    ShlLinear(b, 27);
    ShlLinear(BitOr(a, b), 27);
    ShlShl(1, 26, 1);
    ShlValues();
    assert Shl(Shl(1, 26), 1) == 0x800_0000;
    BitOrSplit(a, 0, b, 0, 27);
    BitOrZero(0);
  }

  /** The immediate of ADR.W is shifted to the top of the word and its sign reversed: the value is right for an
      immediate of 0 only. */
  lemma AdrWideValue(hi: Half, lo: Half, a: Word)
    ensures Add32(a, AdrImm(hi, lo)) == Add32(a, -(Imm12(hi, lo) as int)) <==> Imm12(hi, lo) == 0
    ensures Add32(a, -AdrImm(hi, lo)) == Add32(a, Imm12(hi, lo)) <==> Imm12(hi, lo) == 0
  {
    hide AdrImm;
    var k := AdrImmHigh(hi, lo);
    var x, y: int := AdrImm(hi, lo), Imm12(hi, lo);
    Opposite(a, x, y);
    Opposite(a, -x, -y);
  }

  lemma Opposite(a: Word, x: int, y: int)
    requires -0x1_0000_0000 < x + y < 0x1_0000_0000
    ensures Add32(a, x) == Add32(a, -y) <==> x + y == 0
  {
    var p, q := (a + x) / 0x1_0000_0000, (a - y) / 0x1_0000_0000;
    assert a + x == p * 0x1_0000_0000 + Add32(a, x) && a - y == q * 0x1_0000_0000 + Add32(a, -y);
  }

  lemma WideDataFrags(c: Cpu, hi: Half, lo: Half, lit: Word -> Word)
    ensures var pc := Add32(c.pc, 4);
      && (TypeOf32(hi, lo).ADR_SUB? ==>
            Frag32(pc, hi, lo, lit) == LoadWide(lo / 0x100 % 16, Add32(Align(pc), AdrImm(hi, lo))))
      && (TypeOf32(hi, lo).ADR_ADD? ==>
            Frag32(pc, hi, lo, lit) == LoadWide(lo / 0x100 % 16, Add32(Align(pc), -AdrImm(hi, lo))))
      && (TypeOf32(hi, lo).LDR_W? ==> Frag32(pc, hi, lo, lit) == LoadWide(lo / 0x1000, lit(WideLiteral(c, hi, lo))))
      && (TypeOf32(hi, lo).TBB? ==> Frag32(pc, hi, lo, lit) == TableFrag(pc, lo % 16, false))
      && (TypeOf32(hi, lo).TBH? ==> Frag32(pc, hi, lo, lit) == TableFrag(pc, lo % 16, true))
  {
    hide TypeOf32, Add32, Align, AdrImm, LoadWide, TableJump;
  }

  /** One step of a 32-bit instruction. */
  lemma WideMoves(m0: Code, m: Code, c: Cpu, hi: Half, lo: Half, base: Word, lit: Word -> Word) returns (n: nat, e: Cpu)
    requires WellFormed(c) && c.thumb && Kept32(m0, m, c, hi, lo, lit) && base % 4 == 0
    requires var f := Frag32(Add32(c.pc, 4), hi, lo, lit); Holds(m, base, f) && base + 2 * |f| + 1 < 0x1_0000_0000
    ensures Run(m, Moved(c, base), n) == Some(e)
    ensures var d, end := Step32(m0, c, hi, lo), base + 2 * |Frag32(Add32(c.pc, 4), hi, lo, lit)|;
      d.Some? && |d.value.regs| == 16
      && Same(Landing(d.value, Leaves32(c, hi, lo), Calls(hi, lo), end), e, Lost32(hi, lo))
  {
    hide Step32, Run, Holds, Add32, Align, TypeOf32, Frag32, LoadPc, Same, WordAt, BranchImm, CondImm, Short, AdrImm;
    hide Imm12;
    hide Entry;
    Boundary(c, base);
    var pc := Add32(c.pc, 4);
    WideFrags(pc, hi, lo, lit);
    match TypeOf32(hi, lo)
    case BLX_W =>
      n := 2;
      ExchangeMoves(m0, m, c, hi, lo, base, lit);
      e := Run(m, Moved(c, base), n).value;
      Itself(e);
    case BL_W =>
      n := 2;
      CallMoves(m0, m, c, hi, lo, base, lit);
      e := Run(m, Moved(c, base), n).value;
      Itself(e);
    case B_W =>
      n := 1;
      OriginalWide(m0, c, hi, lo);
      WideBranchMoves(m0, m, c, hi, lo, base, lit);
      e := Run(m, Moved(c, base), n).value;
      Itself(e);
    case BCOND_W =>
      n := 2;
      OriginalWide(m0, c, hi, lo);
      WideCondMoves(m0, m, c, hi, lo, base, lit);
      if !Leaves32(c, hi, lo) { OriginalWideFalls(m0, c, hi, lo); }
      e := Run(m, Moved(c, base), n).value;
      Itself(e);
    case _ => n, e := WideDataMoves(m0, m, c, hi, lo, base, lit);
  }

  lemma WideDataMoves(m0: Code, m: Code, c: Cpu, hi: Half, lo: Half, base: Word, lit: Word -> Word)
      returns (n: nat, e: Cpu)
    requires WellFormed(c) && c.thumb && Kept32(m0, m, c, hi, lo, lit) && base % 4 == 0
    requires TypeOf32(hi, lo) in {ADR_SUB, ADR_ADD, LDR_W, TBB, TBH, OTHER_W}
    requires var f := Frag32(Add32(c.pc, 4), hi, lo, lit); Holds(m, base, f) && base + 2 * |f| + 1 < 0x1_0000_0000
    ensures Run(m, Moved(c, base), n) == Some(e)
    ensures var d, end := Step32(m0, c, hi, lo), base + 2 * |Frag32(Add32(c.pc, 4), hi, lo, lit)|;
      d.Some? && |d.value.regs| == 16
      && Same(Landing(d.value, Leaves32(c, hi, lo), Calls(hi, lo), end), e, Lost32(hi, lo))
  {
    hide Step32, Run, Holds, Add32, Align, TypeOf32, Frag32, LoadPc, Same, WordAt, AdrImm, Imm12, Entry, TableJumped;
    Boundary(c, base);
    PcEven(c);
    var pc, b := Add32(c.pc, 4), Moved(c, base);
    WideDataFrags(c, hi, lo, lit);
    OriginalWideData(m0, c, hi, lo);
    AdrWideValue(hi, lo, Align(pc));
    match TypeOf32(hi, lo)
    case ADR_SUB =>
      var r, v := lo / 0x100 % 16, Add32(Align(pc), AdrImm(hi, lo));
      n := 3;
      LoadWideRuns(m, base, b, r, v);
      e := Goto(SetReg(b, r, v), base + 12);
      Itself(e);
    case ADR_ADD =>
      var r, v := lo / 0x100 % 16, Add32(Align(pc), -AdrImm(hi, lo));
      n := 3;
      LoadWideRuns(m, base, b, r, v);
      e := Goto(SetReg(b, r, v), base + 12);
      Itself(e);
    case LDR_W =>
      var r, v := lo / 0x1000, lit(WideLiteral(c, hi, lo));
      OriginalLoad(m0, c, hi, lo);
      LoadWideRuns(m, base, b, r, v);
      n := if r == 15 then 1 else 3;
      e := if r == 15 then LoadPc(b, v) else Goto(SetReg(b, r, v), base + 12);
      LoadPcAnywhere(c, base, v);
      LoadPcRegs(c, v);
      Itself(e);
    case TBB =>
      OriginalTable(m0, c, hi, lo);
      n, e := TableMoves(m0, m, c, lo % 16, false, base);
    case TBH =>
      OriginalTable(m0, c, hi, lo);
      n, e := TableMoves(m0, m, c, lo % 16, true, base);
  }

  lemma LoadPcRegs(c: Cpu, v: Word)
    ensures LoadPc(c, v).regs == c.regs
  {
  }

  lemma TableMoves(m0: Code, m: Code, c: Cpu, rm: nat, half: bool, base: Word) returns (n: nat, e: Cpu)
    requires WellFormed(c) && c.thumb && rm < 16 && KeptTable(m0, m, c, rm, half) && base % 4 == 0 && base % 2 == 0
    requires Holds(m, base, TableFrag(Add32(c.pc, 4), rm, half)) && base + 28 < 0x1_0000_0000
    ensures Run(m, Moved(c, base), n) == Some(e)
    ensures var entry: int := Entry(m0, Add32(c.pc, 4), c.regs[rm], half).value;
      Same(Goto(c, Add32(Add32(c.pc, 4), entry * 2)), e, BelowAnd(Spare(rm)))
  {
    hide Run, Holds, Add32, Entry, AddPasses;
    PcEven(c);
    var pc := Add32(c.pc, 4);
    var entry: int := Entry(m0, pc, c.regs[rm], half).value;
    n := 9;
    TableRuns(m, base, Moved(c, base), rm, half, pc, entry);
    e := TableJumped(Moved(c, base), rm, Add32(pc, entry * 2));
  }

  // ----- the other instructions -----

  /** The instruction at `pos` does not reach past the end. */
  predicate Whole(orig: seq<Half>, pos: nat) { pos < |orig| && pos + Width(orig, pos) <= |orig| }

  /** What the original does. */
  function Original(m0: Code, c: Cpu, orig: seq<Half>, pos: nat): Option<Cpu>
    requires WellFormed(c) && Whole(orig, pos)
  {
    if Wide(orig[pos]) then Step32(m0, c, orig[pos], orig[pos + 1]) else Step16(m0, c, orig[pos])
  }

  predicate Kept(m0: Code, m: Code, c: Cpu, orig: seq<Half>, pos: nat, lit: Word -> Word)
    requires WellFormed(c) && Whole(orig, pos)
  {
    if Wide(orig[pos]) then Kept32(m0, m, c, orig[pos], orig[pos + 1], lit) else Kept16(m0, c, orig[pos], lit)
  }

  predicate Leaves(c: Cpu, orig: seq<Half>, pos: nat)
    requires WellFormed(c) && Whole(orig, pos)
  {
    if Wide(orig[pos]) then Leaves32(c, orig[pos], orig[pos + 1]) else Leaves16(c, orig[pos])
  }

  function LostAt(orig: seq<Half>, pos: nat): Loss
    requires Whole(orig, pos)
  {
    if Wide(orig[pos]) then Lost32(orig[pos], orig[pos + 1]) else Lost16(orig[pos])
  }

  predicate CallsAt(orig: seq<Half>, pos: nat)
    requires Whole(orig, pos)
  {
    Wide(orig[pos]) && Calls(orig[pos], orig[pos + 1])
  }

  /** `e` stands for the original's step of the instruction at `pos`, whose fragment ends at `end`. */
  ghost predicate Matches(m0: Code, c: Cpu, orig: seq<Half>, pos: nat, end: int, e: Cpu)
    requires WellFormed(c) && Whole(orig, pos)
  {
    var d := Original(m0, c, orig, pos);
    && d.Some? && |d.value.regs| == 16 && 0 <= end && end + 1 < 0x1_0000_0000
    && Same(Landing(d.value, Leaves(c, orig, pos), CallsAt(orig, pos), end), e, LostAt(orig, pos))
  }

  /** An instruction copied as it is. */
  predicate Copied(orig: seq<Half>, pos: nat)
    requires Whole(orig, pos)
  {
    if Wide(orig[pos]) then TypeOf32(orig[pos], orig[pos + 1]).OTHER_W? else TypeOf16(orig[pos]).OTHER?
  }

  // ----- the whole trampoline -----

  /** The trampoline at `base` for the instructions of `target`. */
  predicate Setting(m: Code, base: Word, target: Word, orig: seq<Half>, lit: Word -> Word, k: nat) {
    && orig != [] && base % 4 == 0 && target % 2 == 0 && Holds(m, base, Trampoline(target, orig, lit))
    && k < |Starts(target, orig, 0, 0, lit)| && Starts(target, orig, 0, 0, lit)[k].0 < End(orig, 0)
  }

  /** The end of fragment `k` is the start of the next one, or of the jump back. */
  predicate EndsAt(base: Word, target: Word, orig: seq<Half>, lit: Word -> Word, k: nat, end: int)
    requires orig != [] && k < |Starts(target, orig, 0, 0, lit)|
    requires var pos := Starts(target, orig, 0, 0, lit)[k].0; pos < |orig|
  {
    var s := Starts(target, orig, 0, 0, lit);
    var next := s[k].0 + Width(orig, s[k].0);
    && next <= End(orig, 0)
    && (next < End(orig, 0) ==> k + 1 < |s|)
    && (k + 1 < |s| ==> s[k + 1].0 == next && end == base + 2 * s[k + 1].1)
    && (next == End(orig, 0) ==> end == base + 2 * |Body(target, orig, 0, lit)|)
  }

  /** The length of the fragment of instruction `pos`. */
  function FragLen(target: Word, orig: seq<Half>, pos: nat, lit: Word -> Word): nat
    requires Whole(orig, pos)
  {
    |FragAt(target, orig, pos, lit)|
  }

  /** Fragment `k` with its place. */
  predicate Placed(m: Code, base: Word, target: Word, orig: seq<Half>, lit: Word -> Word, k: nat, f: (nat, nat)) {
    && orig != [] && k < |Starts(target, orig, 0, 0, lit)| && f == Starts(target, orig, 0, 0, lit)[k]
        && Whole(orig, f.0)
    && base + 2 * f.1 < 0x1_0000_0000 && (base + 2 * f.1) % 4 == 0
    && Holds(m, base + 2 * f.1, FragAt(target, orig, f.0, lit))
    && var end := base + 2 * f.1 + 2 * FragLen(target, orig, f.0, lit);
       end + 8 <= 0x1_0000_0000 && EndsAt(base, target, orig, lit, k, end)
  }

  lemma FragmentPlace(m: Code, base: Word, target: Word, orig: seq<Half>, lit: Word -> Word, k: nat)
    requires Setting(m, base, target, orig, lit, k)
    ensures Placed(m, base, target, orig, lit, k, Starts(target, orig, 0, 0, lit)[k])
  {
    hide Body, Starts, End, FragAt, Jump, Wide, HasAt;
    FragmentInPlace(m, base, target, orig, lit, k);
    FragmentSlice(target, orig, lit, k);
    Consecutive(target, orig, 0, 0, lit, k);
    InBody(target, orig, lit, k);
    Room(m, base, target, orig, lit);
  }

  lemma InBody(target: Word, orig: seq<Half>, lit: Word -> Word, k: nat)
    requires orig != [] && k < |Starts(target, orig, 0, 0, lit)| && Starts(target, orig, 0, 0, lit)[k].0 < End(orig, 0)
    ensures var f := Starts(target, orig, 0, 0, lit)[k];
      f.0 < |orig| && (Wide(orig[f.0]) ==> f.0 + 1 < |orig|)
      && f.1 + |FragAt(target, orig, f.0, lit)| <= |Body(target, orig, 0, lit)|
  {
    hide Body, Starts, End, FragAt, Wide;
    FragmentSlice(target, orig, lit, k);
  }

  lemma Room(m: Code, base: Word, target: Word, orig: seq<Half>, lit: Word -> Word)
    requires orig != [] && Holds(m, base, Trampoline(target, orig, lit))
    ensures base + 2 * |Body(target, orig, 0, lit)| + 8 <= 0x1_0000_0000
  {
    hide Body, End;
  }

  lemma SameAddress(target: Word, pos: nat)
    ensures Add32(Add32(target, 2 * pos), 4) == Add32(target, 4 + 2 * pos)
  {
    AddSum(target, 2 * pos, 4);
  }

  /** One instruction, its fragment at `a`. */
  lemma InstructionMoves(m0: Code, m: Code, target: Word, orig: seq<Half>, lit: Word -> Word, pos: nat, a: Word, c: Cpu)
    returns (n: nat, e: Cpu)
    requires WellFormed(c) && c.thumb && Whole(orig, pos) && c.pc == Add32(target, 2 * pos)
      && Kept(m0, m, c, orig, pos, lit)
    requires a % 4 == 0 && Holds(m, a, FragAt(target, orig, pos, lit))
    requires a + 2 * FragLen(target, orig, pos, lit) + 8 <= 0x1_0000_0000
    ensures Run(m, Moved(c, a), n) == Some(e) && Matches(m0, c, orig, pos, a + 2 * FragLen(target, orig, pos, lit), e)
  {
    hide Holds, Run, Same, Landing, Kept16, Kept32, Leaves16, Leaves32, Calls, Lost16, Lost32, Step16, Step32, Frag16;
    hide Frag32;
    hide Wide;
    hide Add32;
    SameAddress(target, pos);
    if Wide(orig[pos]) {
      n, e := WideMoves(m0, m, c, orig[pos], orig[pos + 1], a, lit);
    } else {
      n, e := ShortMoves(m0, m, c, orig[pos], a, lit);
    }
  }

  /** Every kept instruction of the window does in the trampoline what it did in place, but for its loss: it runs to
      the absolute address it went to, with LR naming the next fragment after a call, or falls through to the next
      fragment, which is the jump back after the last instruction. */
  lemma FragmentMoves(m0: Code, m: Code, base: Word, target: Word, orig: seq<Half>, lit: Word -> Word, k: nat, c: Cpu)
    returns (n: nat, e: Cpu)
    requires Setting(m, base, target, orig, lit, k) && WellFormed(c) && c.thumb
    requires var pos := Starts(target, orig, 0, 0, lit)[k].0;
      c.pc == Add32(target, 2 * pos) && (Whole(orig, pos) ==> Kept(m0, m, c, orig, pos, lit))
    ensures var f := Starts(target, orig, 0, 0, lit)[k];
      && Placed(m, base, target, orig, lit, k, f) && Run(m, Moved(c, base + 2 * f.1), n) == Some(e)
      && Matches(m0, c, orig, f.0, base + 2 * f.1 + 2 * FragLen(target, orig, f.0, lit), e)
  {
    hide Starts, Trampoline, Run, FragLen, FragAt, Matches, Kept, Holds, EndsAt;
    FragmentPlace(m, base, target, orig, lit, k);
    var f := Starts(target, orig, 0, 0, lit)[k];
    n, e := InstructionMoves(m0, m, target, orig, lit, f.0, base + 2 * f.1, c);
  }

  lemma CopiedFrag(target: Word, orig: seq<Half>, lit: Word -> Word, pos: nat)
    requires Whole(orig, pos) && Copied(orig, pos)
    ensures FragAt(target, orig, pos, lit) ==
      if Wide(orig[pos]) then [orig[pos], orig[pos + 1]] else [orig[pos], 0xBF00]
  {
    hide TypeOf16, TypeOf32, Wide;
  }

  /** A copied instruction is executed in place at the start of its fragment; once it has fallen through, the next
      fragment follows. */
  lemma CopiedFalls(m: Code, base: Word, target: Word, orig: seq<Half>, lit: Word -> Word, k: nat, c: Cpu)
    requires Setting(m, base, target, orig, lit, k) && WellFormed(c) && c.thumb
    requires var f := Starts(target, orig, 0, 0, lit)[k];
      Whole(orig, f.0) && Copied(orig, f.0) && c.pc == base + 2 * f.1 + 2 * Width(orig, f.0)
    ensures var f := Starts(target, orig, 0, 0, lit)[k];
      && Placed(m, base, target, orig, lit, k, f) && orig[f.0..f.0 + Width(orig, f.0)] <= FragAt(target, orig, f.0, lit)
      && FragLen(target, orig, f.0, lit) == 2 && Run(m, c, 2 - Width(orig, f.0)) == Some(Goto(c, base + 2 * f.1 + 4))
  {
    hide Starts, Trampoline, Run, EndsAt, FragAt, Copied, Wide, Step, Holds;
    FragmentPlace(m, base, target, orig, lit, k);
    var f := Starts(target, orig, 0, 0, lit)[k];
    CopiedFrag(target, orig, lit, f.0);
    if Wide(orig[f.0]) {
      RunNone(m, c);
    } else {
      HoldsAt(m, base + 2 * f.1, FragAt(target, orig, f.0, lit), 1);
      NotWideNop();
      NopStep(m, c);
      RunOne(m, c);
    }
  }

  lemma NotWideNop()
    ensures !Wide(0xBF00)
  {
  }

  lemma RunNone(m: Code, c: Cpu)
    ensures Run(m, c, 0) == Some(c)
  {
  }

  // ----- where the relocation is wrong -----

  /** The fragment of TBB and TBH never saves the register it computes the address in: the registers are right exactly
      when that one already held the target with bit 0 set, and the flags when they were those of that sum. */
  lemma TableJumpLoses(m0: Code, m: Code, c: Cpu, hi: Half, lo: Half, base: Word, lit: Word -> Word)
    returns (n: nat, e: Cpu)
    requires WellFormed(c) && c.thumb && Kept32(m0, m, c, hi, lo, lit) && base % 4 == 0
    requires TypeOf32(hi, lo).TBB? || TypeOf32(hi, lo).TBH?
    requires Holds(m, base, Frag32(Add32(c.pc, 4), hi, lo, lit)) && base + 29 < 0x1_0000_0000
    ensures Run(m, Moved(c, base), n) == Some(e) && Step32(m0, c, hi, lo).Some?
    ensures var d, r := Step32(m0, c, hi, lo).value, Spare(lo % 16);
      && d.regs == c.regs && e.pc == d.pc && e.regs == d.regs[r := Add32(d.pc, 1)]
      && (e.regs == d.regs <==> c.regs[r] == Add32(d.pc, 1))
      && (e.passes == d.passes <==> c.passes == AddPasses(d.pc, 1))
  {
    hide Step32, Run, Holds, Add32, TypeOf32, Frag32, Same, AddPasses, Entry;
    WideDataFrags(c, hi, lo, lit);
    n, e := WideMoves(m0, m, c, hi, lo, base, lit);
    LeavesItself(m0, c, hi, lo);
    LossIs(Step32(m0, c, hi, lo).value, e, Spare(lo % 16));
  }

  lemma LossIs(d: Cpu, e: Cpu, r: nat)
    requires |d.regs| == 16 && Same(d, e, BelowAnd(r))
    ensures r < 16 && e.pc == d.pc && e.regs == d.regs[r := Add32(d.pc, 1)] && e.passes == AddPasses(d.pc, 1)
    ensures e.regs == d.regs <==> d.regs[r] == Add32(d.pc, 1)
  {
    hide Add32, AddPasses;
    if d.regs[r := Add32(d.pc, 1)] == d.regs { assert d.regs[r := Add32(d.pc, 1)][r] == d.regs[r]; }
  }

  lemma LeavesItself(m0: Code, c: Cpu, hi: Half, lo: Half)
    requires WellFormed(c) && (TypeOf32(hi, lo).TBB? || TypeOf32(hi, lo).TBH?)
    requires Step32(m0, c, hi, lo).Some?
    ensures var d := Step32(m0, c, hi, lo).value; d.regs == c.regs && d.passes == c.passes
  {
    hide Add32, Align, WordAt, ByteAt, BranchImm, CondImm;
  }

  /** The word of TBB [PC, R0], whose spare register is R7. */
  lemma TableSample()
    ensures TypeOf32(0xE8DF, 0xF000).TBB? && 0xF000 % 16 == 0 && Spare(0) == 7
  {
  }

  /** A table jump indexed by R0 loses R7: a caller that kept 0 there finds the target. */
  lemma TableJumpLosesR7(m0: Code, m: Code, c: Cpu, hi: Half, lo: Half, base: Word, lit: Word -> Word)
    returns (n: nat, e: Cpu)
    requires WellFormed(c) && c.thumb && Kept32(m0, m, c, hi, lo, lit) && base % 4 == 0
    requires (TypeOf32(hi, lo).TBB? || TypeOf32(hi, lo).TBH?) && lo % 16 == 0 && c.regs[7] == 0
    requires Holds(m, base, Frag32(Add32(c.pc, 4), hi, lo, lit)) && base + 29 < 0x1_0000_0000
    ensures Run(m, Moved(c, base), n) == Some(e) && Step32(m0, c, hi, lo).Some?
    ensures var d := Step32(m0, c, hi, lo).value;
      |d.regs| == 16 && |e.regs| == 16 && d.regs[7] == 0 && e.regs[7] != 0
  {
    hide Step32, Run, Holds, Add32, Frag32, Kept32, TypeOf32, AddPasses;
    n, e := TableJumpLoses(m0, m, c, hi, lo, base, lit);
    OddIsNotZero(m0, c, hi, lo);
  }

  lemma OddIsNotZero(m0: Code, c: Cpu, hi: Half, lo: Half)
    requires WellFormed(c) && (TypeOf32(hi, lo).TBB? || TypeOf32(hi, lo).TBH?) && lo % 16 == 0
    requires Step32(m0, c, hi, lo).Some?
    ensures Add32(Step32(m0, c, hi, lo).value.pc, 1) != 0
  {
    hide Add32, Align, WordAt, ByteAt, BranchImm, CondImm, Entry;
    PcEven(c);
    TableEntry(m0, c, hi, lo);
    var e: int := Entry(m0, Add32(c.pc, 4), c.regs[0], TypeOf32(hi, lo).TBH?).value;
    OriginalTable(m0, c, hi, lo);
    EvenSum(Add32(c.pc, 4), e * 2);
    OddTarget(Add32(Add32(c.pc, 4), e * 2));
  }

  lemma TableEntry(m0: Code, c: Cpu, hi: Half, lo: Half)
    requires WellFormed(c) && (TypeOf32(hi, lo).TBB? || TypeOf32(hi, lo).TBH?) && lo % 16 == 0
    requires Step32(m0, c, hi, lo).Some?
    ensures Entry(m0, Add32(c.pc, 4), c.regs[0], TypeOf32(hi, lo).TBH?).Some?
  {
    hide Add32, Align, WordAt, ByteAt, BranchImm, CondImm;
  }

  /** The words of NOP.W and of MRS R0, APSR are taken for B<cond>.W of conditions 14 and 15. */
  lemma NoBranchSamples()
    ensures TypeOf32(0xF3AF, 0x8000).BCOND_W? && 0xF3AF / 0x40 % 16 == 14
    ensures TypeOf32(0xF3EF, 0x8000).BCOND_W? && 0xF3EF / 0x40 % 16 == 15
  {
  }

  /** NOP.W is taken for B<cond>.W of condition 14: it does nothing, its fragment is an undefined instruction. */
  lemma WideNopBreaks(m0: Code, m: Code, c: Cpu, base: Word, lit: Word -> Word)
    requires WellFormed(c) && c.thumb && base % 4 == 0 && base + 12 < 0x1_0000_0000
    requires Holds(m, base, Frag32(Add32(c.pc, 4), 0xF3AF, 0x8000, lit))
    ensures Step32(m0, c, 0xF3AF, 0x8000) == Some(Goto(c, Add32(c.pc, 4)))
    ensures Frag32(Add32(c.pc, 4), 0xF3AF, 0x8000, lit)[0] == 0xDE00
    ensures forall n :: n > 0 ==> Run(m, Moved(c, base), n) == None
  {
    hide Run, Holds, Frag32, Add32, Align, WordAt, Data32, BranchImm, CondImm, Ext21, Jump;
    NoBranchSamples();
    WideCondMoves(m0, m, c, 0xF3AF, 0x8000, base, lit);
    WideFrags(Add32(c.pc, 4), 0xF3AF, 0x8000, lit);
  }

  /** BX PC enters ARM code; its fragment stays in Thumb, at every address. */
  lemma BxStaysInThumb(m0: Code, m: Code, c: Cpu, ins: Half, base: Word, lit: Word -> Word)
    requires WellFormed(c) && c.thumb && TypeOf16(ins).BX? && base % 4 == 0
    requires Holds(m, base, Frag16(Add32(c.pc, 4), ins, lit))
    ensures Step16(m0, c, ins) == Some(Goto(c, Add32(c.pc, 4)).(thumb := false))
    ensures Run(m, Moved(c, base), 1) == Some(Goto(c, Add32(c.pc, 4)))
  {
    hide Run, Holds, Jump, Add32, Align, WordAt, Listed, Step;
    Boundary(c, base);
    PcEven(c);
    var pc := Add32(c.pc, 4);
    assert ins / 0x1000 == 4 && ins / 0x800 == 8 && ins / 0x80 == 0x8E && ins / 8 % 16 == 15 && ins / 0x100 == 0x47;
    DataStep(m0, c, ins);
    ThumbTarget(Moved(c, base), pc);
    JumpRuns(m, base, Moved(c, base), pc + 1);
    RunOne(m, Moved(c, base));
  }

  /** MOV Rd, PC loses the high bit of Rd: right exactly for a low register, or when both registers hold PC already. */
  lemma MovOfHighRegister(m0: Code, m: Code, c: Cpu, ins: Half, base: Word, lit: Word -> Word)
    requires WellFormed(c) && c.thumb && TypeOf16(ins).MOV? && Rdn(ins) != 15 && base % 4 == 0
    requires Holds(m, base, Frag16(Add32(c.pc, 4), ins, lit)) && base + 8 < 0x1_0000_0000
    ensures Step16(m0, c, ins).Some?
    ensures Run(m, Moved(c, base), 2) == Some(Step16(m0, c, ins).value.(pc := base + 8)) <==>
      ins / 0x80 % 2 == 0 || (c.regs[Rdn(ins)] == Add32(c.pc, 4) && c.regs[Rdn(ins) - 8] == Add32(c.pc, 4))
  {
    hide Step16, Run, Holds, Add32, Align, TypeOf16, Frag16, WordAt, Load;
    Boundary(c, base);
    var pc, b, d, r := Add32(c.pc, 4), Moved(c, base), Rdn(ins), ins % 8;
    DataFrags(pc, ins, lit);
    OriginalData(m0, c, ins);
    LoadRuns(m, base, b, r, pc);
    TwoRegisters(c.regs, d, r, pc);
    assert ins / 0x80 % 2 == 0 <==> d == r;
  }

  lemma TwoRegisters(regs: seq<Word>, d: nat, r: nat, v: Word)
    requires d < |regs| && r < |regs|
    ensures regs[d := v] == regs[r := v] <==> d == r || (regs[d] == v && regs[r] == v)
  {
    if d != r && regs[d := v] == regs[r := v] {
      assert regs[r := v][d] == regs[d] && regs[d := v][r] == regs[r];
    }
  }

  /** ADR R0, PC+0 at address 0x1000 loads four times the address; ADR.W R0, PC+4 the address with no offset. */
  lemma AdrLoadsTheWrongAddress(lit: Word -> Word)
    ensures Frag16(0x1004, 0xA000, lit) == Load(0, 0x4010)
    ensures Frag32(0x1004, 0xF20F, 0x0004, lit) == LoadWide(0, 0xE000_1004)
  {
    AdrSamples();
    WideAdrSamples();
    hide AdrImm, Load, LoadWide, Frag16, Frag32, TypeOf16, TypeOf32, Align;
    DataFrags(0x1004, 0xA000, lit);
    WideAdrFrag(0x1004, 0xF20F, 0x0004, lit);
    AdrImmSample();
  }

  lemma AdrSamples()
    ensures TypeOf16(0xA000).ADR? && 0xA000 / 0x100 % 8 == 0 && 0xA000 % 0x100 == 0
    ensures Align(0x1004) == 0x1004
  {
  }

  lemma WideAdrSamples()
    ensures TypeOf32(0xF20F, 0x0004).ADR_ADD? && 0x0004 / 0x100 % 16 == 0
    ensures Add32(0x1004, -0x2000_0000) == 0xE000_1004
  {
    Mod32(0x1004 - 0x2000_0000, -1, 0xE000_1004);
  }

  lemma WideAdrFrag(pc: Word, hi: Half, lo: Half, lit: Word -> Word)
    requires TypeOf32(hi, lo).ADR_ADD?
    ensures Frag32(pc, hi, lo, lit) == LoadWide(lo / 0x100 % 16, Add32(Align(pc), -AdrImm(hi, lo)))
  {
    hide TypeOf32, AdrImm, LoadWide, Align, Add32;
  }

  lemma AdrImmSample()
    ensures AdrImm(0xF20F, 0x0004) == 0x2000_0000
  {
    hide BitOr;
    ZeroBitOr(0x2000_0000);
    BitOrZero(0);
  }

  /** B.W to the instruction after it, at an address of 2 modulo 4, lands 2 bytes short: in its own middle. */
  lemma WideBranchLandsShort(m0: Code, c: Cpu, lit: Word -> Word)
    requires WellFormed(c) && c.thumb && c.pc == 0x1002
    ensures Step32(m0, c, 0xF000, 0xB800) == Some(Goto(c, 0x1006))
    ensures Frag32(Add32(c.pc, 4), 0xF000, 0xB800, lit) == Jump(0x1005)
  {
    hide Step32, Frag32;
    WideBranchSample();
    OriginalWide(m0, c, 0xF000, 0xB800);
    WideFrags(0x1006, 0xF000, 0xB800, lit);
  }

  lemma WideBranchSample()
    ensures TypeOf32(0xF000, 0xB800).B_W? && BranchImm(0xF000, 0xB800, 0) == 0 && Ext25(0xF000, 0xB800, 0) == 0
  {
  }
}

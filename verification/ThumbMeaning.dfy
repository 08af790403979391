/** What the relocated Thumb branches do: each runs to the absolute target of the original instruction, or on to the
    next fragment when the original falls through. Section A7.7 of the ARMv7-M Architecture Reference Manual. */
module ThumbMeaning {
  import opened Words
  import opened Thumb

  /** Registers, the condition codes as the outcome of each condition, the program counter, the instruction set, and
      the words of the stack. */
  datatype Cpu = Cpu(pc: Word, regs: seq<Word>, passes: seq<bool>, thumb: bool, stack: map<Word, Word>)

  type Code = map<Word, Half>

  predicate WellFormed(c: Cpu) { |c.regs| == 16 && |c.passes| == 16 && c.pc % 2 == 0 }

  function WordAt(m: Code, a: Word): Option<Word> {
    if a in m && Add32(a, 2) in m then
      var low: int, high: int := m[a], m[Add32(a, 2)];
      Some(low + 0x1_0000 * high)
    else None
  }

  function Goto(c: Cpu, target: Word): Cpu { c.(pc := target) }

  /** A load into PC selects the instruction set by bit 0. */
  function LoadPc(c: Cpu, v: Word): Cpu { c.(pc := v - v % 2, thumb := v % 2 == 1) }

  function SetReg(c: Cpu, r: nat, v: Word): Cpu
    requires r < |c.regs|
  {
    c.(regs := c.regs[r := v])
  }

  /** The displacement of the 25-bit branches, by two's complement of S:I1:I2:imm10:imm11:0. */
  function BranchImm(hi: Half, lo: Half, low: nat): int {
    var s, j1, j2 := hi / 0x400 % 2, lo / 0x2000 % 2, lo / 0x800 % 2;
    var i1, i2 := if j1 == s then 1 else 0, if j2 == s then 1 else 0;
    i1 * 0x80_0000 + i2 * 0x40_0000 + hi % 0x400 * 0x1000 + low * 2 - s * 0x100_0000
  }

  /** The displacement of the conditional 32-bit branch, by two's complement of S:J2:J1:imm6:imm11:0. */
  function CondImm(hi: Half, lo: Half): int {
    lo / 0x800 % 2 * 0x8_0000 + lo / 0x2000 % 2 * 0x4_0000 + hi % 0x40 * 0x1000 + lo % 0x800 * 2
    - hi / 0x400 % 2 * 0x10_0000
  }

  /** One step of a 16-bit instruction of the forms that matter. */
  function Step16(m: Code, c: Cpu, h: Half): Option<Cpu>
    requires WellFormed(c)
  {
    var pc := Add32(c.pc, 4);
    if h / 0x1000 == 0xD && h / 0x100 % 16 < 14 then
      Some(Goto(c, if c.passes[h / 0x100 % 16] then Add32(pc, 2 * Signed(h % 0x100, 0x80)) else Add32(c.pc, 2)))
    else if h / 0x800 == 0x1C then Some(Goto(c, Add32(pc, 2 * Signed(h % 0x800, 0x400))))
    else if h / 0x1000 == 0xB && h / 0x400 % 2 == 0 && h / 0x100 % 2 == 1 then
      var branch := if h / 0x800 % 2 == 1 then c.regs[h % 8] != 0 else c.regs[h % 8] == 0;
      Some(Goto(c, if branch then Add32(pc, h / 0x200 % 2 * 64 + h / 8 % 32 * 2) else Add32(c.pc, 2)))
    else if h / 0x800 == 9 then
      var v := WordAt(m, Add32(Align(pc), h % 0x100 * 4));
      if v.None? then None else Some(Goto(SetReg(c, h / 0x100 % 8, v.value), Add32(c.pc, 2)))
    else if h == 0xBF00 then Some(Goto(c, Add32(c.pc, 2)))
    else Data16(m, c, h)
  }

  /** What an instruction reads as register `r`. */
  function Value(c: Cpu, r: nat): Word
    requires WellFormed(c) && r < 16
  {
    if r == 15 then Add32(c.pc, 4) else c.regs[r]
  }

  /** The register of a one-register list, 16 for the others. */
  function Listed(list: nat): nat
  {
    if list == 0x80 then 7 else if list == 0x40 then 6 else if list == 0x20 then 5 else 16
  }

  /** The conditions after an addition that sets the flags. */
  function AddPasses(a: Word, b: Word): (s: seq<bool>)
    ensures |s| == 16
  {
    var s := Add32(a, b);
    var n, z, cy := s >= 0x8000_0000, s == 0, a + b >= 0x1_0000_0000;
    var v := (a >= 0x8000_0000) == (b >= 0x8000_0000) && (a >= 0x8000_0000) != n;
    [z, !z, cy, !cy, n, !n, v, !v, cy && !z, !cy || z, n == v, n != v, !z && n == v, z || n != v, true, true]
  }

  function ByteAt(m: Code, a: Word): Option<Byte> {
    var h := if a % 2 == 0 then a else a - 1;
    if h !in m then None else Some(if a % 2 == 0 then m[h] % 0x100 else m[h] / 0x100)
  }

  /** PUSH and POP of one register, ADD, MOV, BX, ADR, LDRB, LDRH and ADDS. */
  function Data16(m: Code, c: Cpu, h: Half): Option<Cpu>
    requires WellFormed(c)
  {
    var next, r, wide := Add32(c.pc, 2), Listed(h % 0x100), h / 0x80 % 2 * 8 + h % 8;
    if h / 0x100 == 0xB4 && r < 16 then Some(Goto(Push(c, r), next))
    else if h / 0x100 == 0xBC && r < 16 then
      var d := Pop(c, r);
      if d.None? then None else Some(Goto(d.value, next))
    else if h / 0x100 == 0x44 && wide != 15 then
      Some(Goto(SetReg(c, wide, Add32(c.regs[wide], Value(c, h / 8 % 16))), next))
    else if h / 0x100 == 0x46 && wide != 15 then Some(Goto(SetReg(c, wide, Value(c, h / 8 % 16)), next))
    else if h / 0x80 == 0x8E then Some(LoadPc(c, Value(c, h / 8 % 16)))
    else if h / 0x800 == 0x14 then
      Some(Goto(SetReg(c, h / 0x100 % 8, Add32(Align(Add32(c.pc, 4)), h % 0x100 * 4)), next))
    else if h / 0x800 == 0xF then
      var v := ByteAt(m, Add32(c.regs[h / 8 % 8], h / 0x40 % 32));
      if v.None? then None else Some(Goto(SetReg(c, h % 8, v.value), next))
    else if h / 0x800 == 0x11 then
      var a := Add32(c.regs[h / 8 % 8], h / 0x40 % 32 * 2);
      if a !in m then None else Some(Goto(SetReg(c, h % 8, m[a]), next))
    else if h / 0x800 == 6 then
      var rd := h / 0x100 % 8;
      Some(Goto(SetReg(c, rd, Add32(c.regs[rd], h % 0x100)).(passes := AddPasses(c.regs[rd], h % 0x100)), next))
    else None
  }

  function Push(c: Cpu, r: nat): Cpu
    requires WellFormed(c) && r < 16
  {
    var sp := Add32(c.regs[13], -4);
    SetReg(c, 13, sp).(stack := c.stack[sp := c.regs[r]])
  }

  function Pop(c: Cpu, r: nat): Option<Cpu>
    requires WellFormed(c) && r < 16
  {
    if c.regs[13] !in c.stack then None
    else Some(SetReg(SetReg(c, 13, Add32(c.regs[13], 4)), r, c.stack[c.regs[13]]))
  }

  /** One step of a 32-bit instruction. */
  function Step32(m: Code, c: Cpu, hi: Half, lo: Half): Option<Cpu>
    requires WellFormed(c)
  {
    var pc := Add32(c.pc, 4);
    if hi == 0xF8DF || hi == 0xF85F then
      var v := WordAt(m, Add32(Align(pc), if hi == 0xF8DF then lo % 0x1000 else -(lo % 0x1000)));
      if v.None? then None
      else if lo / 0x1000 == 15 then Some(LoadPc(c, v.value))
      else Some(Goto(SetReg(c, lo / 0x1000, v.value), Add32(c.pc, 4)))
    else if hi / 0x800 == 0x1E && lo / 0x8000 == 1 then
      if Kind(lo) == 7 then Some(Goto(SetReg(c, 14, Add32(c.pc, 5)), Add32(pc, BranchImm(hi, lo, lo % 0x800))))
      else if Kind(lo) == 6 then
        var target := Add32(Align(pc), BranchImm(hi, lo, EvenLow(lo)));
        Some(Goto(SetReg(c, 14, Add32(c.pc, 5)), target).(thumb := false))
      else if Kind(lo) == 5 then Some(Goto(c, Add32(pc, BranchImm(hi, lo, lo % 0x800))))
      else if Kind(lo) == 4 && hi / 0x40 % 16 < 14 then
        Some(Goto(c, if c.passes[hi / 0x40 % 16] then Add32(pc, CondImm(hi, lo)) else Add32(c.pc, 4)))
      else if hi == 0xF3AF && lo == 0x8000 then Some(Goto(c, Add32(c.pc, 4)))
      else None
    else Data32(m, c, hi, lo)
  }

  /** The immediate of ADR.W, i:imm3:imm8. */
  function Imm12(hi: Half, lo: Half): nat { hi / 0x400 % 2 * 0x800 + lo / 0x1000 % 8 * 0x100 + lo % 0x100 }

  /** ADR.W, ADD.W of registers shifted left by 0 or 1, TBB and TBH. */
  function Data32(m: Code, c: Cpu, hi: Half, lo: Half): Option<Cpu>
    requires WellFormed(c)
  {
    var pc, rd, base := Add32(c.pc, 4), lo / 0x100 % 16, hi - hi / 0x400 % 2 * 0x400;
    var next, imm: int := pc, Imm12(hi, lo);
    if base == 0xF20F && lo < 0x8000 && rd != 15 then Some(Goto(SetReg(c, rd, Add32(Align(pc), imm)), next))
    else if base == 0xF2AF && lo < 0x8000 && rd != 15 then Some(Goto(SetReg(c, rd, Add32(Align(pc), -imm)), next))
    else if hi / 16 == 0xEB0 && hi % 16 < 13 && lo / 0x1000 == 0 && rd < 13 && lo % 16 < 13 && lo / 16 % 4 == 0
            && lo / 0x40 % 4 <= 1 then
      Some(Goto(SetReg(c, rd, Add32(c.regs[hi % 16], c.regs[lo % 16] * (lo / 0x40 % 4 + 1))), next))
    else if hi == 0xE8DF && lo / 16 % 16 == 0 then
      var entry := ByteAt(m, Add32(pc, Value(c, lo % 16)));
      if entry.None? then None else Some(Goto(c, Add32(pc, 2 * entry.value)))
    else if hi == 0xE8DF && lo / 16 % 16 == 1 then
      var a := Add32(pc, 2 * Value(c, lo % 16));
      if a !in m then None
      else
        var entry: int := m[a];
        Some(Goto(c, Add32(pc, 2 * entry)))
    else None
  }

  function Step(m: Code, c: Cpu): Option<Cpu>
    requires WellFormed(c)
  {
    if !c.thumb || c.pc !in m then None
    else if Wide(m[c.pc]) then
      if Add32(c.pc, 2) in m then Step32(m, c, m[c.pc], m[Add32(c.pc, 2)]) else None
    else Step16(m, c, m[c.pc])
  }

  function Run(m: Code, c: Cpu, n: nat): Option<Cpu>
    decreases n
  {
    if n == 0 then Some(c)
    else if !WellFormed(c) then None
    else
      var d := Step(m, c);
      if d.None? then None else Run(m, d.value, n - 1)
  }

  /** The half words of a fragment from `base` on. */
  predicate Holds(m: Code, base: Word, f: seq<Half>) {
    base + 2 * |f| <= 0x1_0000_0000 && forall i :: 0 <= i < |f| ==> base + 2 * i in m && m[base + 2 * i] == f[i]
  }

  lemma HoldsAt(m: Code, base: Word, f: seq<Half>, i: nat)
    requires Holds(m, base, f) && i < |f|
    ensures base + 2 * i in m && m[base + 2 * i] == f[i]
  {
  }

  lemma LoadPcAnywhere(c: Cpu, a: Word, v: Word)
    ensures LoadPc(Goto(c, a), v) == LoadPc(c, v)
  {
  }

  /** Moving to a 4-byte boundary. */
  lemma Boundary(c: Cpu, base: Word)
    requires WellFormed(c) && base % 4 == 0
    ensures WellFormed(c.(pc := base)) && base % 2 == 0
    ensures base + 4 < 0x1_0000_0000 ==>
      (base + 4) % 4 == 0 && WellFormed(c.(pc := base + 4)) && WellFormed(c.(pc := base + 2))
  {
    var q := base / 4;
    assert base == 4 * q;
    Doubled(2 * q, base);
    Doubled(2 * q + 1, base + 2);
    Doubled(2 * q + 2, base + 4);
    Quadrupled(q + 1, base + 4);
  }

  lemma Doubled(k: int, a: int)
    requires a == 2 * k
    ensures a % 2 == 0
  {
  }

  lemma Quadrupled(k: int, a: int)
    requires a == 4 * k
    ensures a % 4 == 0
  {
  }

  lemma JumpSums(base: Word)
    requires base % 4 == 0 && base + 8 <= 0x1_0000_0000
    ensures Add32(base, 2) == base + 2 && Add32(base, 4) == base + 4 && Align(Add32(base, 4)) == base + 4
    ensures Add32(base + 4, 0) == base + 4 && Add32(base + 4, 2) == base + 6
  {
  }

  lemma JumpWord(m: Code, a: Word, v: Word)
    requires a in m && Add32(a, 2) in m && m[a] == v % 0x1_0000 && m[Add32(a, 2)] == v / 0x1_0000
    ensures WordAt(m, a) == Some(v)
  {
    hide Add32;
  }

  lemma JumpStep(m: Code, c: Cpu, v: Word)
    requires WellFormed(c) && WordAt(m, Add32(Align(Add32(c.pc, 4)), 0)) == Some(v)
    ensures Step32(m, c, 0xF8DF, 0xF000) == Some(LoadPc(c, v))
  {
    hide Add32, Align, WordAt, LoadPc, BranchImm, CondImm, Kind;
    assert 0xF000 % 0x1000 == 0 && 0xF000 / 0x1000 == 15;
  }

  /** `LDR.W PC, [PC]` on a 4-byte boundary reads its own literal. */
  lemma JumpRuns(m: Code, base: Word, c: Cpu, v: Word)
    requires Holds(m, base, Jump(v)) && base % 4 == 0 && WellFormed(c) && c.pc == base && c.thumb
    ensures Step(m, c) == Some(LoadPc(c, v))
  {
    hide Add32, Align, WordAt, LoadPc, Step32, Step16;
    HoldsAt(m, base, Jump(v), 0);
    HoldsAt(m, base, Jump(v), 1);
    HoldsAt(m, base, Jump(v), 2);
    HoldsAt(m, base, Jump(v), 3);
    JumpSums(base);
    JumpWord(m, base + 4, v);
    JumpStep(m, c, v);
    assert Wide(0xF8DF);
  }

  lemma HoldsTail(m: Code, base: Word, a: seq<Half>, b: seq<Half>)
    requires Holds(m, base, a + b) && b != []
    ensures base + 2 * |a| < 0x1_0000_0000 && Holds(m, base + 2 * |a|, b)
  {
    forall i | 0 <= i < |b|
      ensures base + 2 * |a| + 2 * i in m && m[base + 2 * |a| + 2 * i] == b[i]
    {
      HoldsAt(m, base, a + b, |a| + i);
      assert (a + b)[|a| + i] == b[i];
    }
  }

  lemma RunOne(m: Code, c: Cpu)
    requires WellFormed(c)
    ensures Run(m, c, 1) == Step(m, c)
  {
    hide Step;
    if Step(m, c).Some? { assert Run(m, Step(m, c).value, 0) == Step(m, c); }
  }

  lemma RunTwo(m: Code, c: Cpu, d: Cpu)
    requires WellFormed(c) && WellFormed(d) && Step(m, c) == Some(d)
    ensures Run(m, c, 2) == Step(m, d)
  {
    hide Step;
    RunOne(m, d);
  }

  lemma BranchOver(m: Code, c: Cpu)
    requires WellFormed(c) && c.thumb && c.pc in m && m[c.pc] == 0xE003 && c.pc + 10 < 0x1_0000_0000
    ensures Step(m, c) == Some(Goto(c, c.pc + 10))
  {
    assert !Wide(0xE003);
    assert Add32(Add32(c.pc, 4), 6) == c.pc + 10;
  }

  lemma FirstStep(m: Code, base: Word, f: seq<Half>, c: Cpu)
    requires Holds(m, base, f) && f != [] && !Wide(f[0]) && WellFormed(c) && c.pc == base && c.thumb
    ensures Step(m, c) == Step16(m, c, f[0])
  {
    hide Step16;
    HoldsAt(m, base, f, 0);
  }

  /** A conditional branch of displacement 0, a branch over the jump, and the jump. */
  lemma SkipRuns(m: Code, base: Word, c: Cpu, first: Half, v: Word, taken: bool)
    requires Holds(m, base, [first, 0xE003] + Jump(v)) && base % 4 == 0 && base + 12 < 0x1_0000_0000
    requires WellFormed(c) && c.pc == base && c.thumb && !Wide(first)
    requires Step16(m, c, first) == Some(Goto(c, if taken then base + 4 else base + 2))
    ensures Run(m, c, 2) == Some(if taken then LoadPc(c, v) else Goto(c, base + 12))
  {
    hide Step, Step16, Run, Holds, Jump, LoadPc;
    Boundary(c, base);
    var f := [first, 0xE003] + Jump(v);
    FirstStep(m, base, f, c);
    var d := Goto(c, if taken then base + 4 else base + 2);
    RunTwo(m, c, d);
    if taken {
      HoldsTail(m, base, [first, 0xE003], Jump(v));
      JumpRuns(m, base + 4, d, v);
      LoadPcAnywhere(c, base + 4, v);
    } else {
      HoldsAt(m, base, f, 1);
      BranchOver(m, d);
    }
  }

  // ----- displacements -----

  /** The source's sign extensions agree with two's complement. */
  lemma ShortImms(ins: Half, pc: Word)
    ensures Add32(pc, Imm8(ins)) == Add32(pc, 2 * Signed(ins % 0x100, 0x80))
    ensures Add32(pc, Imm11(ins)) == Add32(pc, 2 * Signed(ins % 0x800, 0x400))
  {
    var x, y := ins % 0x100 * 2, ins % 0x800 * 2;
    assert x / 0x100 != 0 <==> ins % 0x100 >= 0x80;
    assert y / 0x800 != 0 <==> ins % 0x800 >= 0x400;
    AddTurns(pc, 2 * Signed(ins % 0x100, 0x80), if x / 0x100 != 0 then 1 else 0);
    AddTurns(pc, 2 * Signed(ins % 0x800, 0x400), if y / 0x800 != 0 then 1 else 0);
  }

  lemma LongImms(hi: Half, lo: Half, low: nat)
    ensures Ext25(hi, lo, low) == BranchImm(hi, lo, low) || Ext25(hi, lo, low) == BranchImm(hi, lo, low) + 0x1_0000_0000
    ensures Ext21(hi, lo) == CondImm(hi, lo) || Ext21(hi, lo) == CondImm(hi, lo) + 0x1_0000_0000
  {
  }

  lemma LongTargets(hi: Half, lo: Half, low: nat, pc: Word, k: int)
    ensures Add32(pc, Ext25(hi, lo, low) + k) == Add32(pc, BranchImm(hi, lo, low) + k)
    ensures Add32(pc, Ext21(hi, lo) + k) == Add32(pc, CondImm(hi, lo) + k)
  {
    LongImms(hi, lo, low);
    hide Ext25, Ext21, BranchImm, CondImm;
    AddTurns(pc, BranchImm(hi, lo, low) + k, 1);
    AddTurns(pc, CondImm(hi, lo) + k, 1);
  }

  /** A literal with bit 0 set is a Thumb target. */
  lemma ThumbTarget(c: Cpu, t: Word)
    requires t % 2 == 0 && c.thumb
    ensures LoadPc(c, t + 1) == Goto(c, t) && SetBit0(t) == t + 1
  {
  }

  lemma Parity(s: int)
    requires s % 2 == 0
    ensures s % 0x1_0000_0000 % 2 == 0 && (s + 1) % 0x1_0000_0000 == s % 0x1_0000_0000 + 1
  {
    var q, r := s / 0x1_0000_0000, s % 0x1_0000_0000;
    assert s == q * 0x1_0000_0000 + r;
    assert r == 2 * (s / 2 - q * 0x8000_0000);
  }

  lemma EvenSum(pc: Word, a: int)
    requires pc % 2 == 0 && a % 2 == 0
    ensures Add32(pc, a) % 2 == 0 && Add32(pc, a + 1) == Add32(pc, a) + 1
  {
    var p, q := pc / 2, a / 2;
    Doubled(p + q, pc + a);
    Parity(pc + a);
    assert pc + (a + 1) == pc + a + 1;
  }

  // ----- 16-bit branches -----

  /** The state with the program counter moved from the original to the relocated code. */
  function Moved(c: Cpu, base: Word): Cpu { c.(pc := base) }

  lemma CondZero(m: Code, c: Cpu, ins: Half)
    requires WellFormed(c) && ins / 0x1000 == 0xD && ins / 0x100 % 16 < 14 && c.pc + 4 < 0x1_0000_0000
    ensures !Wide(ins / 0x100 * 0x100)
    ensures Step16(m, c, ins / 0x100 * 0x100) == Some(Goto(c, if c.passes[ins / 0x100 % 16] then c.pc + 4
      else c.pc + 2))
  {
    var z := ins / 0x100 * 0x100;
    assert z / 0x1000 == 0xD && z / 0x100 == ins / 0x100 && z % 0x100 == 0;
  }

  lemma PcEven(c: Cpu)
    requires WellFormed(c)
    ensures Add32(c.pc, 4) % 2 == 0 && (Add32(c.pc, 4) % 4 == 0 <==> c.pc % 4 == 0)
  {
    var q := (c.pc + 4) / 0x1_0000_0000;
    assert c.pc + 4 == q * 0x1_0000_0000 + Add32(c.pc, 4) && 0 <= q <= 1;
  }

  /** What the original instruction does. */
  lemma OriginalShort(m: Code, c: Cpu, ins: Half)
    requires WellFormed(c)
    ensures ins / 0x1000 == 0xD && ins / 0x100 % 16 < 14 && c.passes[ins / 0x100 % 16] ==>
      Step16(m, c, ins) == Some(Goto(c, Add32(Add32(c.pc, 4), 2 * Signed(ins % 0x100, 0x80))))
    ensures ins / 0x800 == 0x1C ==>
      Step16(m, c, ins) == Some(Goto(c, Add32(Add32(c.pc, 4), 2 * Signed(ins % 0x800, 0x400))))
  {
    hide Add32, Signed;
  }

  lemma OriginalCb(m: Code, c: Cpu, ins: Half)
    requires WellFormed(c) && TypeOf16(ins).CB?
    ensures (c.regs[ins % 8] != 0) == (ins / 0x800 % 2 == 1) ==>
      Step16(m, c, ins) == Some(Goto(c, Add32(Add32(c.pc, 4), ImmCb(ins))))
  {
    hide Add32, Signed;
  }

  lemma CbEven(ins: Half)
    ensures ImmCb(ins) % 2 == 0
  {
  }

  lemma ShortFrags(pc: Word, ins: Half, lit: Word -> Word)
    ensures ins / 0x1000 == 0xD ==>
      Frag16(pc, ins, lit) == [ins / 0x100 * 0x100, 0xE003] + Jump(SetBit0(Add32(pc, Imm8(ins))))
    ensures ins / 0x800 == 0x1C ==> Frag16(pc, ins, lit) == Jump(SetBit0(Add32(pc, Imm11(ins))))
    ensures TypeOf16(ins).CB? ==>
      Frag16(pc, ins, lit) == [ins / 0x400 * 0x400 + 0x100 + ins % 8, 0xE003] + Jump(Add32(pc, ImmCb(ins) + 1))
  {
    hide Add32, Imm8, Imm11, ImmCb, SetBit0, Jump;
  }

  /** The literals of the 16-bit branches are the original's targets with bit 0 set. */
  lemma ShortTargets(c: Cpu, ins: Half)
    requires WellFormed(c)
    ensures var pc := Add32(c.pc, 4);
      && Add32(pc, Imm8(ins)) == Add32(pc, 2 * Signed(ins % 0x100, 0x80)) && Add32(pc, Imm8(ins)) % 2 == 0
      && Add32(pc, Imm11(ins)) == Add32(pc, 2 * Signed(ins % 0x800, 0x400)) && Add32(pc, Imm11(ins)) % 2 == 0
  {
    hide Add32, Imm8, Imm11, Signed;
    var pc := Add32(c.pc, 4);
    ShortImms(ins, pc);
    PcEven(c);
    EvenSum(pc, 2 * Signed(ins % 0x100, 0x80));
    EvenSum(pc, 2 * Signed(ins % 0x800, 0x400));
  }

  /** B<cond> (0xDE and 0xDF are no branches): the fragment runs to the original's target, or to the next fragment. */
  lemma CondBranchMoves(m0: Code, m: Code, c: Cpu, ins: Half, base: Word, lit: Word -> Word)
    requires WellFormed(c) && c.thumb && ins / 0x1000 == 0xD && ins / 0x100 % 16 < 14
    requires Holds(m, base, Frag16(Add32(c.pc, 4), ins, lit)) && base % 4 == 0 && base + 12 < 0x1_0000_0000
    ensures Run(m, Moved(c, base), 2) == if c.passes[ins / 0x100 % 16] then Step16(m0, c, ins)
      else Some(Moved(c, base + 12))
  {
    hide Step16, Run, Holds, Add32, Imm8, Signed, TypeOf16, Frag16, Jump, LoadPc, SetBit0;
    Boundary(c, base);
    var b, t := Moved(c, base), Add32(Add32(c.pc, 4), Imm8(ins));
    OriginalShort(m0, c, ins);
    ShortTargets(c, ins);
    ThumbTarget(b, t);
    ShortFrags(Add32(c.pc, 4), ins, lit);
    CondZero(m, b, ins);
    SkipRuns(m, base, b, ins / 0x100 * 0x100, t + 1, c.passes[ins / 0x100 % 16]);
  }

  lemma BranchFrag(c: Cpu, ins: Half, t: Word, lit: Word -> Word)
    requires ins / 0x800 == 0x1C && t == Add32(Add32(c.pc, 4), Imm11(ins)) && SetBit0(t) == t + 1
    ensures Frag16(Add32(c.pc, 4), ins, lit) == Jump(t + 1)
  {
    hide Frag16, Add32, Imm11, SetBit0, Jump, TypeOf16;
    ShortFrags(Add32(c.pc, 4), ins, lit);
  }

  /** B: the fragment runs to the original's target. */
  lemma BranchMoves(m0: Code, m: Code, c: Cpu, ins: Half, base: Word, lit: Word -> Word)
    requires WellFormed(c) && c.thumb && ins / 0x800 == 0x1C
    requires Holds(m, base, Frag16(Add32(c.pc, 4), ins, lit)) && base % 4 == 0
    ensures Run(m, Moved(c, base), 1) == Step16(m0, c, ins)
  {
    hide Step, Step16, Run, Holds, Add32, Imm11, Signed, TypeOf16, Frag16, Jump, LoadPc, SetBit0;
    Boundary(c, base);
    var b, t := Moved(c, base), Add32(Add32(c.pc, 4), Imm11(ins));
    OriginalShort(m0, c, ins);
    ShortTargets(c, ins);
    ThumbTarget(b, t);
    BranchFrag(c, ins, t, lit);
    JumpRuns(m, base, b, t + 1);
    RunOne(m, b);
  }

  lemma CbBits(ins: Half)
    requires ins / 0x1000 == 0xB && ins / 0x400 % 2 == 0 && ins / 0x100 % 2 == 1
    ensures var z := ins / 0x400 * 0x400 + 0x100 + ins % 8;
      && z < 0x1_0000 && z / 0x1000 == 0xB && z / 0x800 == ins / 0x800 && z / 0x400 == ins / 0x400
          && z / 0x200 % 2 == 0 && z / 0x100 % 2 == 1
      && z / 8 % 32 == 0 && z % 8 == ins % 8
  {
    var a, r := ins / 0x400, ins % 8;
    var z := a * 0x400 + 0x100 + r;
    assert z / 0x100 == a * 4 + 1 && z / 0x200 == a * 2 && z / 0x400 == a && z / 8 == a * 0x80 + 0x20;
    assert z / 0x1000 == z / 0x400 / 4 && ins / 0x1000 == ins / 0x400 / 4;
    assert z / 0x800 == z / 0x400 / 2 && ins / 0x800 == ins / 0x400 / 2;
  }

  lemma CbZero(m: Code, c: Cpu, ins: Half)
    requires WellFormed(c) && TypeOf16(ins).CB? && c.pc + 4 < 0x1_0000_0000
    ensures var z := ins / 0x400 * 0x400 + 0x100 + ins % 8;
      && z < 0x1_0000 && !Wide(z)
      && Step16(m, c, z) == Some(Goto(c, if (c.regs[ins % 8] != 0) == (ins / 0x800 % 2 == 1) then c.pc + 4
          else c.pc + 2))
  {
    CbBits(ins);
    NoDisplacement(c.pc);
    CbStep(m, c, ins / 0x400 * 0x400 + 0x100 + ins % 8);
  }

  lemma NoDisplacement(pc: Word)
    requires pc + 4 < 0x1_0000_0000
    ensures Add32(Add32(pc, 4), 0) == pc + 4 && Add32(pc, 2) == pc + 2
  {
  }

  lemma CbStep(m: Code, c: Cpu, z: Half)
    requires WellFormed(c) && z / 0x1000 == 0xB && z / 0x400 % 2 == 0 && z / 0x100 % 2 == 1
    ensures Step16(m, c, z) ==
      Some(Goto(c, if (c.regs[z % 8] != 0) == (z / 0x800 % 2 == 1)
          then Add32(Add32(c.pc, 4), z / 0x200 % 2 * 64 + z / 8 % 32 * 2) else Add32(c.pc, 2)))
  {
    hide Add32;
  }

  /** CBZ and CBNZ. */
  lemma CompareBranchMoves(m0: Code, m: Code, c: Cpu, ins: Half, base: Word, lit: Word -> Word)
    requires WellFormed(c) && c.thumb && TypeOf16(ins).CB?
    requires Holds(m, base, Frag16(Add32(c.pc, 4), ins, lit)) && base % 4 == 0 && base + 12 < 0x1_0000_0000
    ensures var branch := (c.regs[ins % 8] != 0) == (ins / 0x800 % 2 == 1);
      Run(m, Moved(c, base), 2) == if branch then Step16(m0, c, ins) else Some(Moved(c, base + 12))
  {
    hide Step16, Run, Holds, Add32, ImmCb, TypeOf16, Frag16, Jump, LoadPc, SetBit0;
    Boundary(c, base);
    var pc, b := Add32(c.pc, 4), Moved(c, base);
    OriginalCb(m0, c, ins);
    var t := Add32(pc, ImmCb(ins));
    CbEven(ins);
    PcEven(c);
    EvenSum(pc, ImmCb(ins));
    ThumbTarget(b, t);
    ShortFrags(pc, ins, lit);
    CbZero(m, b, ins);
    SkipRuns(m, base, b, ins / 0x400 * 0x400 + 0x100 + ins % 8, t + 1,
        (c.regs[ins % 8] != 0) == (ins / 0x800 % 2 == 1));
  }

  // ----- 32-bit branches -----

  lemma Evens(hi: Half, lo: Half, low: nat)
    ensures BranchImm(hi, lo, low) % 2 == 0 && CondImm(hi, lo) % 2 == 0
    ensures low % 2 == 0 ==> BranchImm(hi, lo, low) % 4 == 0
  {
    var s, j1, j2 := hi / 0x400 % 2, lo / 0x2000 % 2, lo / 0x800 % 2;
    var i1, i2: int := if j1 == s then 1 else 0, if j2 == s then 1 else 0;
    var h, g: int := hi % 0x400, hi % 0x40;
    assert BranchImm(hi, lo, low) == 4 * (i1 * 0x20_0000 + i2 * 0x10_0000 + h * 0x400 - s * 0x40_0000) + low * 2;
    assert CondImm(hi, lo) == 2 * (j2 * 0x4_0000 + j1 * 0x2_0000 + g * 0x800 + lo % 0x800 - s * 0x8_0000);
    TwiceEven(i1 * 0x20_0000 + i2 * 0x10_0000 + h * 0x400 - s * 0x40_0000, low);
  }

  lemma TwiceEven(a: int, low: nat)
    ensures (4 * a + low * 2) % 2 == 0 && (low % 2 == 0 ==> (4 * a + low * 2) % 4 == 0)
  {
  }

  /** The source measures the displacement from the aligned address, so a branch from an instruction at 2 modulo 4
      lands 2 bytes short. */
  function Short(c: Cpu, d: Cpu): Cpu { if c.pc % 4 == 0 then d else d.(pc := Add32(d.pc, -2)) }

  lemma AlignCases(pc: Word)
    requires pc % 2 == 0
    ensures Align(pc) % 2 == 0 && (if pc % 4 == 0 then Align(pc) == pc else pc >= 2 && Align(pc) == pc - 2)
  {
    var h := pc / 2;
    var q, b := h / 2, h % 2;
    Quarter(q, 2 * b, pc);
    Doubled(2 * q, Align(pc));
  }

  lemma Quarter(k: int, r: int, a: int)
    requires a == 4 * k + r && 0 <= r < 4
    ensures a % 4 == r
  {
  }

  lemma AlignedTarget(c: Cpu, imm: int)
    requires WellFormed(c) && imm % 2 == 0
    ensures var t := Add32(Align(Add32(c.pc, 4)), imm);
      && Add32(Align(Add32(c.pc, 4)), imm + 1) == t + 1 && t % 2 == 0
      && t == (if c.pc % 4 == 0 then Add32(Add32(c.pc, 4), imm) else Add32(Add32(Add32(c.pc, 4), imm), -2))
  {
    hide Add32, Align;
    var pc := Add32(c.pc, 4);
    PcEven(c);
    AlignCases(pc);
    EvenSum(Align(pc), imm);
    if c.pc % 4 != 0 { TwoLess(pc, imm); }
  }

  lemma TwoLess(pc: Word, imm: int)
    requires pc >= 2
    ensures Add32(pc - 2, imm) == Add32(Add32(pc, imm), -2)
  {
    AddSum(pc, imm, -2);
    assert pc - 2 + imm == pc + (imm - 2);
  }

  lemma OriginalWide(m: Code, c: Cpu, hi: Half, lo: Half)
    requires WellFormed(c)
    ensures TypeOf32(hi, lo).B_W? ==>
      Step32(m, c, hi, lo) == Some(Goto(c, Add32(Add32(c.pc, 4), BranchImm(hi, lo, lo % 0x800))))
    ensures TypeOf32(hi, lo).BL_W? ==>
      Step32(m, c, hi, lo) == Some(Goto(SetReg(c, 14, Add32(c.pc, 5)),
          Add32(Add32(c.pc, 4), BranchImm(hi, lo, lo % 0x800))))
    ensures TypeOf32(hi, lo).BLX_W? ==>
      Step32(m, c, hi, lo) ==
        Some(Goto(SetReg(c, 14, Add32(c.pc, 5)), Add32(Align(Add32(c.pc, 4)),
            BranchImm(hi, lo, EvenLow(lo)))).(thumb := false))
    ensures TypeOf32(hi, lo).BCOND_W? && hi / 0x40 % 16 < 14 && c.passes[hi / 0x40 % 16] ==>
      Step32(m, c, hi, lo) == Some(Goto(c, Add32(Add32(c.pc, 4), CondImm(hi, lo))))
  {
    hide Add32, Align, BranchImm, CondImm;
  }

  lemma WideFrags(pc: Word, hi: Half, lo: Half, lit: Word -> Word)
    ensures TypeOf32(hi, lo).B_W? ==> Frag32(pc, hi, lo, lit) == Jump(Add32(Align(pc), Ext25(hi, lo, lo % 0x800) + 1))
    ensures TypeOf32(hi, lo).BL_W? ==>
      Frag32(pc, hi, lo, lit) == [0xF20F, 0x0E09] + Jump(Add32(Align(pc), Ext25(hi, lo, lo % 0x800) + 1))
    ensures TypeOf32(hi, lo).BLX_W? ==>
      Frag32(pc, hi, lo, lit) == [0xF20F, 0x0E09] + Jump(Add32(Align(pc), Ext25(hi, lo, EvenLow(lo))))
    ensures TypeOf32(hi, lo).BCOND_W? ==>
      Frag32(pc, hi, lo, lit) == [0xD000 + hi / 0x40 % 16 * 0x100, 0xE003] + Jump(Add32(Align(pc), Ext21(hi, lo) + 1))
  {
    hide TypeOf32, Add32, Align, Ext25, Ext21, Jump;
  }

  /** B.W: the fragment runs to the target of the original exactly when that is 4-aligned itself. */
  lemma WideBranchMoves(m0: Code, m: Code, c: Cpu, hi: Half, lo: Half, base: Word, lit: Word -> Word)
    requires WellFormed(c) && c.thumb && TypeOf32(hi, lo).B_W?
    requires Holds(m, base, Frag32(Add32(c.pc, 4), hi, lo, lit)) && base % 4 == 0
    ensures Step32(m0, c, hi, lo).Some? && Run(m, Moved(c, base), 1) == Some(Short(c, Step32(m0, c, hi, lo).value))
    ensures Run(m, Moved(c, base), 1) == Step32(m0, c, hi, lo) <==> c.pc % 4 == 0
  {
    hide Step, Step32, Run, Holds, BranchImm, Ext25, Add32, Align, TypeOf32, Frag32, Jump, LoadPc, SetBit0;
    Boundary(c, base);
    var b, imm := Moved(c, base), BranchImm(hi, lo, lo % 0x800);
    OriginalWide(m0, c, hi, lo);
    Evens(hi, lo, lo % 0x800);
    AlignedTarget(c, imm);
    var t := Add32(Align(Add32(c.pc, 4)), imm);
    LongTargets(hi, lo, lo % 0x800, Align(Add32(c.pc, 4)), 1);
    ThumbTarget(b, t);
    WideFrags(Add32(c.pc, 4), hi, lo, lit);
    JumpRuns(m, base, b, t + 1);
    RunOne(m, b);
    TwoOff(Add32(Add32(c.pc, 4), imm));
  }

  lemma TwoOff(a: Word)
    ensures Add32(a, -2) != a
  {
  }

  /** The fragment of a call first sets LR to the next fragment. */
  lemma CallRuns(m: Code, base: Word, c: Cpu, v: Word)
    requires Holds(m, base, [0xF20F, 0x0E09] + Jump(v)) && base % 4 == 0 && base + 13 < 0x1_0000_0000
    requires WellFormed(c) && c.pc == base && c.thumb
    ensures Run(m, c, 2) == Some(LoadPc(SetReg(c, 14, base + 13), v))
  {
    hide Step32, Run, Holds, Jump, LoadPc;
    Boundary(SetReg(c, 14, base + 13), base);
    var f := [0xF20F, 0x0E09] + Jump(v);
    HoldsAt(m, base, f, 0);
    HoldsAt(m, base, f, 1);
    LinkStep(m, c);
    var d := Goto(SetReg(c, 14, base + 13), base + 4);
    assert Wide(0xF20F) && Add32(base, 2) == base + 2;
    RunTwo(m, c, d);
    HoldsTail(m, base, [0xF20F, 0x0E09], Jump(v));
    JumpRuns(m, base + 4, d, v);
    LoadPcAnywhere(SetReg(c, 14, base + 13), base + 4, v);
  }

  lemma LinkSums(pc: Word)
    requires pc % 4 == 0 && pc + 13 < 0x1_0000_0000
    ensures Add32(pc, 4) == pc + 4 && Align(Add32(pc, 4)) == pc + 4 && Add32(Align(Add32(pc, 4)), 9) == pc + 13
  {
  }

  lemma LinkStep(m: Code, c: Cpu)
    requires WellFormed(c) && c.pc % 4 == 0 && c.pc + 13 < 0x1_0000_0000
    ensures Step32(m, c, 0xF20F, 0x0E09) == Some(Goto(SetReg(c, 14, c.pc + 13), c.pc + 4))
  {
    hide BranchImm, CondImm, Kind, WordAt, Add32, Align;
    LinkSums(c.pc);
    assert 0x0E09 / 0x100 % 16 == 14 && 0x0E09 / 0x1000 % 8 * 0x100 + 0x0E09 % 0x100 == 9;
  }

  /** `d` with LR naming the next fragment instead of the next instruction. */
  function Linked(d: Cpu, base: Word): Cpu
    requires WellFormed(d) && base + 13 < 0x1_0000_0000
  {
    SetReg(d, 14, base + 13)
  }

  /** BL: as B.W, with LR mapped to the next fragment. */
  lemma CallMoves(m0: Code, m: Code, c: Cpu, hi: Half, lo: Half, base: Word, lit: Word -> Word)
    requires WellFormed(c) && c.thumb && TypeOf32(hi, lo).BL_W?
    requires Holds(m, base, Frag32(Add32(c.pc, 4), hi, lo, lit)) && base % 4 == 0 && base + 13 < 0x1_0000_0000
    ensures Step32(m0, c, hi, lo).Some? && WellFormed(Step32(m0, c, hi, lo).value)
    ensures Run(m, Moved(c, base), 2) == Some(Short(c, Linked(Step32(m0, c, hi, lo).value, base)))
    ensures Run(m, Moved(c, base), 2) == Some(Linked(Step32(m0, c, hi, lo).value, base)) <==> c.pc % 4 == 0
  {
    hide Step, Step32, Run, Holds, BranchImm, Ext25, Add32, Align, TypeOf32, Frag32, Jump, LoadPc, SetBit0;
    Boundary(c, base);
    var b, imm := Moved(c, base), BranchImm(hi, lo, lo % 0x800);
    OriginalWide(m0, c, hi, lo);
    Evens(hi, lo, lo % 0x800);
    AlignedTarget(c, imm);
    PcEven(c);
    EvenSum(Add32(c.pc, 4), imm);
    var t := Add32(Align(Add32(c.pc, 4)), imm);
    LongTargets(hi, lo, lo % 0x800, Align(Add32(c.pc, 4)), 1);
    ThumbTarget(SetReg(b, 14, base + 13), t);
    assert WellFormed(Goto(SetReg(c, 14, Add32(c.pc, 5)), Add32(Add32(c.pc, 4), imm)));
    assert c.regs[14 := Add32(c.pc, 5)][14 := base + 13] == c.regs[14 := base + 13];
    WideFrags(Add32(c.pc, 4), hi, lo, lit);
    CallRuns(m, base, b, t + 1);
    TwoOff(Add32(Add32(c.pc, 4), imm));
  }

  lemma AlignedSum(a: Word, imm: int)
    requires a % 4 == 0 && imm % 4 == 0
    ensures Add32(a, imm) % 4 == 0
  {
    var q := (a + imm) / 0x1_0000_0000;
    assert a + imm == q * 0x1_0000_0000 + Add32(a, imm);
  }

  lemma ExchangeTarget(hi: Half, lo: Half, low: nat, a: Word)
    ensures Add32(a, Ext25(hi, lo, low)) == Add32(a, BranchImm(hi, lo, low))
  {
    hide Ext25, BranchImm;
    LongTargets(hi, lo, low, a, 0);
  }

  lemma AlignIs(a: Word)
    ensures Align(a) % 4 == 0
  {
  }

  /** A literal with bit 0 clear is an ARM target. */
  lemma ArmTarget(c: Cpu, t: Word)
    requires t % 4 == 0
    ensures t % 2 == 0 && LoadPc(c, t) == Goto(c, t).(thumb := false)
  {
  }

  lemma ExchangeFacts(c: Cpu, hi: Half, lo: Half)
    ensures var a, low := Align(Add32(c.pc, 4)), EvenLow(lo);
      && Add32(a, Ext25(hi, lo, low)) == Add32(a, BranchImm(hi, lo, low)) && Add32(a, BranchImm(hi, lo, low)) % 4 == 0
  {
    hide BranchImm, Ext25, Add32, Align;
    var a, low := Align(Add32(c.pc, 4)), EvenLow(lo);
    Evens(hi, lo, low);
    AlignIs(Add32(c.pc, 4));
    AlignedSum(a, BranchImm(hi, lo, low));
    ExchangeTarget(hi, lo, low, a);
  }

  lemma ExchangeFrag(c: Cpu, hi: Half, lo: Half, t: Word, lit: Word -> Word)
    requires TypeOf32(hi, lo).BLX_W? && t == Add32(Align(Add32(c.pc, 4)), BranchImm(hi, lo, EvenLow(lo)))
    ensures Frag32(Add32(c.pc, 4), hi, lo, lit) == [0xF20F, 0x0E09] + Jump(t)
  {
    hide TypeOf32, Frag32, BranchImm, Ext25, Add32, Align, Jump, EvenLow;
    ExchangeFacts(c, hi, lo);
    WideFrags(Add32(c.pc, 4), hi, lo, lit);
  }

  /** BLX is measured from the aligned address by the architecture too, so it is always right. */
  lemma ExchangeMoves(m0: Code, m: Code, c: Cpu, hi: Half, lo: Half, base: Word, lit: Word -> Word)
    requires WellFormed(c) && c.thumb && TypeOf32(hi, lo).BLX_W?
    requires Holds(m, base, Frag32(Add32(c.pc, 4), hi, lo, lit)) && base % 4 == 0 && base + 13 < 0x1_0000_0000
    ensures Step32(m0, c, hi, lo).Some? && WellFormed(Step32(m0, c, hi, lo).value)
    ensures Run(m, Moved(c, base), 2) == Some(Linked(Step32(m0, c, hi, lo).value, base))
  {
    hide Step, Step32, Run, Holds, BranchImm, Ext25, Add32, Align, TypeOf32, Frag32, Jump, LoadPc;
    Boundary(c, base);
    var b, t := Moved(c, base), Add32(Align(Add32(c.pc, 4)), BranchImm(hi, lo, EvenLow(lo)));
    OriginalWide(m0, c, hi, lo);
    ExchangeFacts(c, hi, lo);
    ArmTarget(SetReg(b, 14, base + 13), t);
    assert WellFormed(Goto(SetReg(c, 14, Add32(c.pc, 5)), t).(thumb := false));
    assert c.regs[14 := Add32(c.pc, 5)][14 := base + 13] == c.regs[14 := base + 13];
    ExchangeFrag(c, hi, lo, t, lit);
    CallRuns(m, base, b, t);
  }

  lemma WideCondZero(m: Code, c: Cpu, cond: nat)
    requires WellFormed(c) && cond < 14 && c.pc + 4 < 0x1_0000_0000
    ensures !Wide(0xD000 + cond * 0x100)
    ensures Step16(m, c, 0xD000 + cond * 0x100) == Some(Goto(c, if c.passes[cond] then c.pc + 4 else c.pc + 2))
  {
    var z: Half := 0xD000 + cond * 0x100;
    assert z / 0x100 * 0x100 == z && z / 0x1000 == 0xD && z / 0x100 % 16 == cond;
    CondZero(m, c, z);
  }

  /** B<cond>.W of a real condition: right exactly when it falls through or sits at a 4-byte boundary. The words that
      the source takes for conditions 14 and 15 are no branches, and their fragment begins with an undefined
      instruction or a supervisor call. */
  lemma WideCondMoves(m0: Code, m: Code, c: Cpu, hi: Half, lo: Half, base: Word, lit: Word -> Word)
    requires WellFormed(c) && c.thumb && TypeOf32(hi, lo).BCOND_W?
    requires Holds(m, base, Frag32(Add32(c.pc, 4), hi, lo, lit)) && base % 4 == 0 && base + 12 < 0x1_0000_0000
    ensures var cond := hi / 0x40 % 16;
      var taken := c.passes[cond];
      && (cond >= 14 ==>
            base in m && m[base] in {0xDE00, 0xDF00} && forall n :: n > 0 ==> Run(m, Moved(c, base), n) == None)
      && (cond < 14 && taken ==>
            Step32(m0, c, hi, lo).Some? && Run(m, Moved(c, base), 2) == Some(Short(c, Step32(m0, c, hi, lo).value)))
      && (cond < 14 && !taken ==> Run(m, Moved(c, base), 2) == Some(Moved(c, base + 12)))
      && (cond < 14 ==>
            (Run(m, Moved(c, base), 2) == (if taken then Step32(m0, c, hi, lo) else Some(Moved(c, base + 12)))
             <==> !taken || c.pc % 4 == 0))
  {
    hide Step, Step32, Step16, Run, Holds, CondImm, Ext21, Add32, Align, TypeOf32, Frag32, Jump, LoadPc, SetBit0;
    if hi / 0x40 % 16 < 14 {
      RealCondMoves(m0, m, c, hi, lo, base, lit);
    } else {
      WideFrags(Add32(c.pc, 4), hi, lo, lit);
      NoCondStuck(m, Moved(c, base), base, Frag32(Add32(c.pc, 4), hi, lo, lit), hi / 0x40 % 16);
    }
  }

  lemma NoCondStuck(m: Code, c: Cpu, base: Word, f: seq<Half>, cond: nat)
    requires Holds(m, base, f) && f != [] && f[0] == 0xD000 + cond * 0x100 && 14 <= cond < 16
    requires |c.regs| == 16 && |c.passes| == 16 && c.pc == base && base % 4 == 0 && c.thumb
    ensures base in m && m[base] in {0xDE00, 0xDF00} && forall n :: n > 0 ==> Run(m, c, n) == None
  {
    hide Step, Step16, Holds;
    HoldsAt(m, base, f, 0);
    Boundary(c.(pc := 0), base);
    assert !Wide(f[0]);
    FirstStep(m, base, f, c);
    Undefined(m, c, cond);
  }

  lemma Undefined(m: Code, c: Cpu, cond: nat)
    requires WellFormed(c) && 14 <= cond < 16
    ensures Step16(m, c, 0xD000 + cond * 0x100) == None
  {
    hide Add32, Align, WordAt, ByteAt;
  }

  lemma RealCondMoves(m0: Code, m: Code, c: Cpu, hi: Half, lo: Half, base: Word, lit: Word -> Word)
    requires WellFormed(c) && c.thumb && TypeOf32(hi, lo).BCOND_W? && hi / 0x40 % 16 < 14
    requires Holds(m, base, Frag32(Add32(c.pc, 4), hi, lo, lit)) && base % 4 == 0 && base + 12 < 0x1_0000_0000
    ensures var taken := c.passes[hi / 0x40 % 16];
      && (taken ==>
            Step32(m0, c, hi, lo).Some? && Run(m, Moved(c, base), 2) == Some(Short(c, Step32(m0, c, hi, lo).value)))
      && (!taken ==> Run(m, Moved(c, base), 2) == Some(Moved(c, base + 12)))
      && (Run(m, Moved(c, base), 2) == (if taken then Step32(m0, c, hi, lo) else Some(Moved(c, base + 12)))
          <==> !taken || c.pc % 4 == 0)
  {
    hide Step, Step32, Step16, Run, Holds, CondImm, Ext21, Add32, Align, TypeOf32, Frag32, Jump, LoadPc, SetBit0;
    Boundary(c, base);
    var b, imm, cond := Moved(c, base), CondImm(hi, lo), hi / 0x40 % 16;
    OriginalWide(m0, c, hi, lo);
    Evens(hi, lo, 0);
    AlignedTarget(c, imm);
    var t := Add32(Align(Add32(c.pc, 4)), imm);
    LongTargets(hi, lo, 0, Align(Add32(c.pc, 4)), 1);
    ThumbTarget(b, t);
    WideFrags(Add32(c.pc, 4), hi, lo, lit);
    WideCondZero(m, b, cond);
    SkipRuns(m, base, b, 0xD000 + cond * 0x100, t + 1, c.passes[cond]);
    TwoOff(Add32(Add32(c.pc, 4), imm));
  }

  /** The literal load of LDR, ADR and MOV reads its own literal and goes on to the next fragment. */
  lemma LoadRuns(m: Code, base: Word, c: Cpu, r: nat, v: Word)
    requires r < 8 && Holds(m, base, Load(r, v)) && base % 4 == 0 && base + 8 < 0x1_0000_0000
    requires WellFormed(c) && c.pc == base && c.thumb
    ensures Run(m, c, 2) == Some(Goto(SetReg(c, r, v), base + 8))
  {
    hide Step, Run, Holds, Add32, WordAt;
    Boundary(c, base);
    var f := Load(r, v);
    HoldsAt(m, base, f, 0);
    HoldsAt(m, base, f, 1);
    HoldsAt(m, base, f, 2);
    HoldsAt(m, base, f, 3);
    var d := Goto(SetReg(c, r, v), base + 2);
    LoadStep(m, c, r, v);
    RunTwo(m, c, d);
    OverOne(m, d);
  }

  lemma LoadStep(m: Code, c: Cpu, r: nat, v: Word)
    requires WellFormed(c) && c.thumb && c.pc % 4 == 0 && c.pc + 8 < 0x1_0000_0000 && r < 8
    requires c.pc in m && m[c.pc] == 0x4800 + r * 0x100
    requires c.pc + 4 in m && c.pc + 6 in m && m[c.pc + 4] == v % 0x1_0000 && m[c.pc + 6] == v / 0x1_0000
    ensures Step(m, c) == Some(Goto(SetReg(c, r, v), c.pc + 2))
  {
    hide WordAt, Add32, Align, Step16;
    LoadSums(c.pc);
    LoadFields(r);
    JumpWord(m, c.pc + 4, v);
    LiteralLoad(m, c, 0x4800 + r * 0x100, r, v);
  }

  lemma LoadSums(pc: Word)
    requires pc % 4 == 0 && pc + 8 < 0x1_0000_0000
    ensures Align(Add32(pc, 4)) == pc + 4 && Add32(pc + 4, 0) == pc + 4
    ensures Add32(pc + 4, 2) == pc + 6 && Add32(pc, 2) == pc + 2
  {
    Mod32(pc + 4, 0, pc + 4);
    AddZero(pc + 4);
    var q := pc / 4;
    assert pc == 4 * q;
    Quadrupled(q + 1, pc + 4);
  }

  lemma LoadFields(r: nat)
    requires r < 8
    ensures var h := 0x4800 + r * 0x100; h / 0x800 == 9 && h / 0x100 % 8 == r && h % 0x100 == 0 && h / 0x1000 == 4
  {
  }

  lemma LiteralLoad(m: Code, c: Cpu, h: Half, r: nat, v: Word)
    requires WellFormed(c) && h / 0x800 == 9 && h / 0x100 % 8 == r && h % 0x100 == 0 && h / 0x1000 == 4
    requires WordAt(m, Add32(Align(Add32(c.pc, 4)), 0)) == Some(v)
    ensures Step16(m, c, h) == Some(Goto(SetReg(c, r, v), Add32(c.pc, 2))) && !Wide(h)
  {
    hide WordAt, Add32, Align, Data16;
  }

  lemma OverOne(m: Code, c: Cpu)
    requires WellFormed(c) && c.thumb && c.pc in m && m[c.pc] == 0xE001 && c.pc + 6 < 0x1_0000_0000
    ensures Step(m, c) == Some(Goto(c, c.pc + 6))
  {
    assert !Wide(0xE001);
    assert Add32(Add32(c.pc, 4), 2) == c.pc + 6;
  }

  // ----- the whole trampoline -----

  lemma HoldsPart(m: Code, base: Word, f: seq<Half>, at: nat, n: nat)
    requires Holds(m, base, f) && at + n <= |f| && n > 0
    ensures base + 2 * at < 0x1_0000_0000 && Holds(m, base + 2 * at, f[at..at + n])
  {
    forall i | 0 <= i < n
      ensures base + 2 * at + 2 * i in m && m[base + 2 * at + 2 * i] == f[at..at + n][i]
    {
      HoldsAt(m, base, f, at + i);
    }
  }

  /** The code of one fragment inside the trampoline. */
  lemma FragmentSlice(target: Word, orig: seq<Half>, lit: Word -> Word, k: nat)
    requires orig != [] && k < |Starts(target, orig, 0, 0, lit)| && Starts(target, orig, 0, 0, lit)[k].0 < End(orig, 0)
    ensures var f := Starts(target, orig, 0, 0, lit)[k];
      && f.0 < |orig| && (Wide(orig[f.0]) ==> f.0 + 1 < |orig|) && f.1 % 2 == 0
      && var n := |FragAt(target, orig, f.0, lit)|;
      n > 0 && HasAt(Body(target, orig, 0, lit), f.1, FragAt(target, orig, f.0, lit))
  {
    hide Body, Starts, End, FragAt, Wide, HasAt;
    Layout(target, orig, 0, 0, lit);
    FragEven(target, orig, Starts(target, orig, 0, 0, lit)[k].0, lit);
  }

  lemma SlicePrefix(a: seq<Half>, b: seq<Half>, i: nat, n: nat)
    requires i + n <= |a|
    ensures (a + b)[i..i + n] == a[i..i + n]
  {
  }

  /** Every relocated instruction is in place on a 4-byte boundary, so the lemmas above apply to it. */
  lemma FragmentInPlace(m: Code, base: Word, target: Word, orig: seq<Half>, lit: Word -> Word, k: nat)
    requires orig != [] && Holds(m, base, Trampoline(target, orig, lit)) && base % 4 == 0
    requires k < |Starts(target, orig, 0, 0, lit)| && Starts(target, orig, 0, 0, lit)[k].0 < End(orig, 0)
    ensures var f := Starts(target, orig, 0, 0, lit)[k];
      && f.0 < |orig| && (Wide(orig[f.0]) ==> f.0 + 1 < |orig|) && base + 2 * f.1 < 0x1_0000_0000
          && (base + 2 * f.1) % 4 == 0
      && Holds(m, base + 2 * f.1, FragAt(target, orig, f.0, lit))
  {
    hide Body, Starts, End, FragAt, Jump, Holds, Wide;
    FragmentSlice(target, orig, lit, k);
    var f, body := Starts(target, orig, 0, 0, lit)[k], Body(target, orig, 0, lit);
    var n := |FragAt(target, orig, f.0, lit)|;
    SlicePrefix(body, Jump(Add32(target, End(orig, 0) * 2 + 1)), f.1, n);
    HoldsPart(m, base, Trampoline(target, orig, lit), f.1, n);
  }

  /** After the last fragment the trampoline jumps back behind the relocated instructions. */
  lemma JumpsBack(m: Code, base: Word, target: Word, orig: seq<Half>, lit: Word -> Word, c: Cpu)
    requires orig != [] && Holds(m, base, Trampoline(target, orig, lit)) && base % 4 == 0 && target % 2 == 0
    requires WellFormed(c) && c.thumb && c.pc == base + 2 * |Body(target, orig, 0, lit)|
    ensures Run(m, c, 1) == Some(Goto(c, Add32(target, End(orig, 0) * 2)))
  {
    hide Body, End, Run, Step, Holds, Jump, Add32, LoadPc, SetBit0;
    var body, t := Body(target, orig, 0, lit), Add32(target, End(orig, 0) * 2);
    BodyEven(target, orig, 0, lit);
    EvenTwice(End(orig, 0));
    EvenSum(target, End(orig, 0) * 2);
    FourTimes(base, |body|);
    HoldsTail(m, base, body, Jump(t + 1));
    ThumbTarget(c, t);
    JumpRuns(m, c.pc, c, t + 1);
    RunOne(m, c);
    LoadPcAnywhere(c, c.pc, t + 1);
  }

  lemma EvenTwice(n: nat)
    ensures n * 2 % 2 == 0
  {
  }

  lemma FourTimes(base: Word, n: nat)
    requires base % 4 == 0 && n % 2 == 0
    ensures (base + 2 * n) % 4 == 0
  {
    var p, q := base / 4, n / 2;
    assert base == 4 * p && n == 2 * q;
    Quadrupled(p + q, base + 2 * n);
  }
}

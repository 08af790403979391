/** The Thumb trampoline as a whole: every fragment does what its instruction did and ends where the next one starts,
    and the last one at the jump back. */
module ThumbTrampoline {
  import opened Words
  import opened Thumb
  import opened ThumbMeaning

  // ----- the fragments follow each other -----

  /** The half words of the instruction at `pos`. */
  function Width(orig: seq<Half>, pos: nat): nat
    requires pos < |orig|
  {
    if Wide(orig[pos]) then 2 else 1
  }

  /** Where a fragment ends, the next one starts, or the jump back after the last instruction that fits. */
  lemma {:induction false} Consecutive(target: Word, orig: seq<Half>, pos: nat, at: nat, lit: Word -> Word, k: nat)
    requires pos < |orig| && k < |Starts(target, orig, pos, at, lit)|
    requires Starts(target, orig, pos, at, lit)[k].0 < End(orig, pos)
    ensures var s := Starts(target, orig, pos, at, lit);
      var f := s[k];
      && f.0 < |orig| && f.0 + Width(orig, f.0) <= End(orig, pos) <= |orig|
      && var next := (f.0 + Width(orig, f.0), f.1 + |FragAt(target, orig, f.0, lit)|);
      && (next.0 < End(orig, pos) ==> k + 1 < |s|) && (k + 1 < |s| ==> s[k + 1] == next)
      && (next.0 == End(orig, pos) ==> next.1 == at + |Body(target, orig, pos, lit)|)
    decreases |orig| - pos
  {
    hide FragAt, Body, End, Starts, Wide;
    OneStep(target, orig, pos, at, lit);
    EndBeyond(orig, pos);
    var next := pos + Width(orig, pos);
    if next < |orig| {
      EndBeyond(orig, next);
      var start := at + |FragAt(target, orig, pos, lit)|;
      OneStep(target, orig, next, start, lit);
      if k > 0 { Consecutive(target, orig, next, start, lit, k - 1); }
    }
  }

  // ----- single steps of the emitted instructions -----

  lemma RunThen(m: Code, c: Cpu, d: Cpu, n: nat)
    requires WellFormed(c) && Step(m, c) == Some(d)
    ensures Run(m, c, n + 1) == Run(m, d, n)
  {
    hide Step;
  }

  /** The 16-bit instruction `h` at the program counter. */
  predicate At(m: Code, c: Cpu, h: Half) {
    WellFormed(c) && c.thumb && c.pc in m && m[c.pc] == h && !Wide(h) && c.pc + 2 < 0x1_0000_0000
  }

  lemma AtStep(m: Code, c: Cpu, h: Half)
    requires At(m, c, h)
    ensures Step(m, c) == Step16(m, c, h) && Add32(c.pc, 2) == c.pc + 2
  {
    hide Step16;
  }

  lemma ListedOneHot(r: nat)
    requires 5 <= r <= 7
    ensures Listed(OneHot(r)) == r && OneHot(r) < 0x100
  {
  }

  lemma PushStep(m: Code, c: Cpu, r: nat)
    requires 5 <= r <= 7 && At(m, c, 0xB400 + OneHot(r))
    ensures Step(m, c) == Some(Goto(Push(c, r), c.pc + 2))
  {
    hide Step, Push, WordAt, Listed;
    ListedOneHot(r);
    AtStep(m, c, 0xB400 + OneHot(r));
    HighByte(0xB4, OneHot(r));
    DataStep(m, c, 0xB400 + OneHot(r));
  }

  lemma PopStep(m: Code, c: Cpu, r: nat)
    requires 5 <= r <= 7 && At(m, c, 0xBC00 + OneHot(r)) && c.regs[13] in c.stack
    ensures Step(m, c) == Some(Goto(Pop(c, r).value, c.pc + 2))
  {
    hide Step, WordAt, Listed;
    ListedOneHot(r);
    AtStep(m, c, 0xBC00 + OneHot(r));
    HighByte(0xBC, OneHot(r));
    DataStep(m, c, 0xBC00 + OneHot(r));
  }

  lemma HighByte(a: nat, b: nat)
    requires a < 0x100 && b < 0x100
    ensures var h := a * 0x100 + b; h / 0x100 == a && h % 0x100 == b && h / 0x1000 == a / 16 && h / 0x800 == a / 8
  {
  }

  /** The 16-bit instructions that are no branches, loads of literals or NOP. */
  lemma DataStep(m: Code, c: Cpu, h: Half)
    requires WellFormed(c) && h != 0xBF00 && h / 0x1000 != 0xD && h / 0x800 != 0x1C && h / 0x800 != 9
    requires h / 0x1000 == 0xB ==> h / 0x400 % 2 == 1 || h / 0x100 % 2 == 0
    ensures Step16(m, c, h) == Data16(m, c, h)
  {
    hide Data16, Add32, Align, WordAt;
  }

  lemma LiteralStep(m: Code, c: Cpu, r: nat, k: nat, v: Word)
    requires r < 8 && k < 0x100 && At(m, c, 0x4800 + r * 0x100 + k)
    requires WordAt(m, Add32(Align(Add32(c.pc, 4)), k * 4)) == Some(v)
    ensures Step(m, c) == Some(Goto(SetReg(c, r, v), c.pc + 2))
  {
    hide Step, Add32, Align, WordAt, Data16;
    var h: Half := 0x4800 + r * 0x100 + k;
    AtStep(m, c, h);
    HighByte(0x48 + r, k);
    assert h == (0x48 + r) * 0x100 + k && (0x48 + r) / 8 == 9 && (0x48 + r) % 8 == r && (0x48 + r) / 16 == 4;
  }

  /** Register fields of ADD and MOV between any registers. */
  lemma RegisterFields(op: nat, d: nat, rm: nat)
    requires op < 0x100 && d < 16 && rm < 16
    ensures var h := op * 0x100 + d / 8 * 0x80 + rm * 8 + d % 8;
      h / 0x100 == op && h / 0x80 % 2 * 8 + h % 8 == d && h / 8 % 16 == rm && h / 0x1000 == op / 16
          && h / 0x800 == op / 8
  {
    var a, b := d / 8, d % 8;
    assert d == 8 * a + b;
    LowFields(op * 2 + a, rm, b);
    LowFields(a, rm, b);
    HighByte(op, a * 0x80 + rm * 8 + b);
  }

  lemma LowFields(a: nat, rm: nat, b: nat)
    requires rm < 16 && b < 8
    ensures var h := a * 0x80 + rm * 8 + b;
      h / 0x80 == a && h / 8 == a * 16 + rm && h / 8 % 16 == rm && h % 8 == b && (a < 2 ==> h < 0x100)
  {
    assert (a * 0x80 + rm * 8 + b) / 8 == a * 16 + rm;
  }

  lemma AddStep(m: Code, c: Cpu, d: nat, rm: nat)
    requires d < 15 && rm < 15 && At(m, c, 0x4400 + d / 8 * 0x80 + rm * 8 + d % 8)
    ensures Step(m, c) == Some(Goto(SetReg(c, d, Add32(c.regs[d], c.regs[rm])), c.pc + 2))
  {
    hide Step, Add32, Align, WordAt, Listed;
    var h: Half := 0x4400 + d / 8 * 0x80 + rm * 8 + d % 8;
    AtStep(m, c, h);
    RegisterFields(0x44, d, rm);
    DataStep(m, c, h);
  }

  lemma MovStep(m: Code, c: Cpu, d: nat, rm: nat)
    requires d < 15 && rm < 15 && At(m, c, 0x4600 + d / 8 * 0x80 + rm * 8 + d % 8)
    ensures Step(m, c) == Some(Goto(SetReg(c, d, c.regs[rm]), c.pc + 2))
  {
    hide Step, Add32, Align, WordAt, Listed;
    var h: Half := 0x4600 + d / 8 * 0x80 + rm * 8 + d % 8;
    AtStep(m, c, h);
    RegisterFields(0x46, d, rm);
    DataStep(m, c, h);
  }

  lemma NopStep(m: Code, c: Cpu)
    requires At(m, c, 0xBF00)
    ensures Step(m, c) == Some(Goto(c, c.pc + 2))
  {
    hide Step, WordAt, Data16;
    AtStep(m, c, 0xBF00);
  }

  /** B.N over `k + 1` half words. */
  lemma SkipStep(m: Code, c: Cpu, k: nat)
    requires k < 8 && At(m, c, 0xE000 + k) && c.pc + 4 + 2 * k < 0x1_0000_0000
    ensures Step(m, c) == Some(Goto(c, c.pc + 4 + 2 * k))
  {
    hide Step, WordAt, Data16, Add32;
    AtStep(m, c, 0xE000 + k);
    assert (0xE000 + k) % 0x800 == k && (0xE000 + k) / 0x800 == 0x1C && (0xE000 + k) / 0x1000 == 0xE;
    SkipSum(c.pc, k);
  }

  lemma SkipSum(pc: Word, k: nat)
    requires k < 8 && pc + 4 + 2 * k < 0x1_0000_0000
    ensures Add32(Add32(pc, 4), 2 * k) == pc + 4 + 2 * k
  {
  }

  lemma AddsStep(m: Code, c: Cpu, r: nat)
    requires r < 8 && At(m, c, 0x3001 + r * 0x100)
    ensures Step(m, c) == Some(Goto(SetReg(c, r, Add32(c.regs[r], 1)).(passes := AddPasses(c.regs[r], 1)), c.pc + 2))
  {
    hide Step, Add32, Align, WordAt, Listed, AddPasses;
    var h: Half := 0x3001 + r * 0x100;
    AtStep(m, c, h);
    HighByte(0x30 + r, 1);
    assert h == (0x30 + r) * 0x100 + 1 && (0x30 + r) / 8 == 6 && (0x30 + r) % 8 == r && (0x30 + r) / 16 == 3;
    assert h / 0x80 == h / 0x100 * 2;
    DataStep(m, c, h);
  }

  lemma BxStep(m: Code, c: Cpu, r: nat)
    requires r < 8 && At(m, c, 0x4700 + r * 8)
    ensures Step(m, c) == Some(LoadPc(c, c.regs[r]))
  {
    hide Step, Add32, Align, WordAt, Listed, LoadPc;
    var h: Half := 0x4700 + r * 8;
    AtStep(m, c, h);
    HighByte(0x47, r * 8);
    assert h / 0x80 == 0x8E && h / 8 % 16 == r;
    DataStep(m, c, h);
  }

  lemma LoadStepOf(m: Code, c: Cpu, op: nat, r: nat)
    requires r < 8 && (op == 0x78 || op == 0x88) && At(m, c, op * 0x100 + r * 9)
    ensures op == 0x78 && ByteAt(m, c.regs[r]).Some? ==>
      Step(m, c) == Some(Goto(SetReg(c, r, ByteAt(m, c.regs[r]).value), c.pc + 2))
    ensures op == 0x88 && c.regs[r] in m ==> Step(m, c) == Some(Goto(SetReg(c, r, m[c.regs[r]]), c.pc + 2))
  {
    hide Step, Align, WordAt, Listed, ByteAt;
    var h: Half := op * 0x100 + r * 9;
    AtStep(m, c, h);
    BaseFields(op, r);
    assert Add32(c.regs[r], 0) == c.regs[r];
    DataStep(m, c, h);
  }

  lemma BaseFields(op: nat, r: nat)
    requires r < 8 && op < 0x100 && op % 8 == 0
    ensures var h := op * 0x100 + r * 9;
      h / 0x100 == op && h / 0x1000 == op / 16 && h / 0x800 == op / 8 && h / 0x80 == op * 2
      && h / 0x40 % 32 == 0 && h / 8 % 8 == r && h % 8 == r
  {
    LowFields(2 * op, r, r);
    HighByte(op, r * 9);
    var q := op / 8;
    assert (op * 0x100 + r * 9) / 0x40 == 32 * q;
  }

  /** The 32-bit instruction at the program counter. */
  predicate AtWide(m: Code, c: Cpu, hi: Half, lo: Half) {
    && WellFormed(c) && c.thumb && c.pc in m && m[c.pc] == hi && Wide(hi) && c.pc + 4 < 0x1_0000_0000
    && c.pc + 2 in m && m[c.pc + 2] == lo
  }

  lemma AtWideStep(m: Code, c: Cpu, hi: Half, lo: Half)
    requires AtWide(m, c, hi, lo)
    ensures Step(m, c) == Step32(m, c, hi, lo) && Add32(c.pc, 4) == c.pc + 4
  {
    hide Step32;
  }

  /** ADD.W of low registers. */
  lemma AddWideStep(m: Code, c: Cpu, d: nat, n: nat, rm: nat, k: nat)
    requires d < 8 && n < 8 && rm < 8 && k < 2 && AtWide(m, c, 0xEB00 + n, k * 0x40 + d * 0x100 + rm)
    ensures Step(m, c) == Some(Goto(SetReg(c, d, Add32(c.regs[n], c.regs[rm] * (k + 1))), c.pc + 4))
  {
    hide Step, Add32, Align, WordAt, ByteAt, Value, Imm12;
    var hi: Half, lo: Half := 0xEB00 + n, k * 0x40 + d * 0x100 + rm;
    AtWideStep(m, c, hi, lo);
    AddWideFields(d, n, rm, k);
    WideDataStep(m, c, hi, lo);
  }

  lemma AddWideFields(d: nat, n: nat, rm: nat, k: nat)
    requires d < 8 && n < 8 && rm < 8 && k < 2
    ensures var hi := 0xEB00 + n; hi / 16 == 0xEB0 && hi % 16 == n && hi / 0x800 == 0x1D && hi / 0x400 == 0x3A
    ensures var lo := k * 0x40 + d * 0x100 + rm;
      lo < 0x1000 && lo / 0x1000 == 0 && lo / 0x100 % 16 == d && lo % 16 == rm && lo / 16 % 4 == 0 && lo / 0x40 % 4 == k
  {
    var lo := k * 0x40 + d * 0x100 + rm;
    assert lo / 0x40 == d * 4 + k && lo / 16 == d * 16 + k * 4;
  }

  lemma WideDataStep(m: Code, c: Cpu, hi: Half, lo: Half)
    requires WellFormed(c) && hi / 0x800 == 0x1D
    ensures Step32(m, c, hi, lo) == Data32(m, c, hi, lo)
  {
    hide Data32, Add32, Align, WordAt, BranchImm, CondImm, Kind;
  }

  lemma LoadWideStep(m: Code, c: Cpu, r: nat, v: Word)
    requires r < 16 && AtWide(m, c, 0xF8DF, r * 0x1000 + 4)
    requires WordAt(m, Add32(Align(Add32(c.pc, 4)), 4)) == Some(v)
    ensures Step(m, c) == Some(if r == 15 then LoadPc(c, v) else Goto(SetReg(c, r, v), c.pc + 4))
  {
    hide Step, Add32, Align, WordAt, LoadPc, BranchImm, CondImm, Kind, Data32;
    AtWideStep(m, c, 0xF8DF, r * 0x1000 + 4);
    assert (r * 0x1000 + 4) % 0x1000 == 4 && (r * 0x1000 + 4) / 0x1000 == r;
  }

  // ----- whole fragments -----

  /** The half word `i` of a fragment is fetched. */
  lemma Fetched(m: Code, base: Word, f: seq<Half>, i: nat, c: Cpu)
    requires Holds(m, base, f) && i + 1 < |f| && c.pc == base + 2 * i && WellFormed(c) && c.thumb
    ensures !Wide(f[i]) ==> At(m, c, f[i])
    ensures Wide(f[i]) && i + 2 < |f| ==> AtWide(m, c, f[i], f[i + 1])
  {
    HoldsAt(m, base, f, i);
    HoldsAt(m, base, f, i + 1);
  }

  /** The literal at the half word `i` of a fragment. */
  lemma LiteralAt(m: Code, base: Word, f: seq<Half>, i: nat, v: Word)
    requires Holds(m, base, f) && i + 1 < |f| && f[i] == v % 0x1_0000 && f[i + 1] == v / 0x1_0000
    ensures base + 2 * i < 0x1_0000_0000 && WordAt(m, base + 2 * i) == Some(v)
  {
    hide WordAt;
    HoldsAt(m, base, f, i);
    HoldsAt(m, base, f, i + 1);
    assert Add32(base + 2 * i, 2) == base + 2 * (i + 1);
    JumpWord(m, base + 2 * i, v);
  }

  /** Where a load finds its literal, from the first or the second half word of a fragment. */
  lemma LiteralPlace(base: Word, j: nat, k: nat)
    requires base % 4 == 0 && j < 2 && base + 4 + 4 * k < 0x1_0000_0000
    ensures Add32(Align(Add32(base + 2 * j, 4)), k * 4) == base + 4 + 4 * k
  {
    hide Add32, Align;
    var q := base / 4;
    assert base == 4 * q;
    SmallSum(base + 2 * j, 4);
    AlignedAt(q + 1, 2 * j);
    SmallSum(base + 4, k * 4);
  }

  lemma SmallSum(a: Word, b: nat)
    requires a + b < 0x1_0000_0000
    ensures Add32(a, b) == a + b
  {
  }

  lemma AlignedAt(q: nat, j: nat)
    requires j < 4 && 4 * q + j < 0x1_0000_0000
    ensures Align(4 * q + j) == 4 * q
  {
    assert (4 * q + j) % 4 == j;
  }

  /** LDR.W of a literal, as emitted for ADR.W and LDR.W. */
  lemma LoadWideRuns(m: Code, base: Word, c: Cpu, r: nat, v: Word)
    requires r < 16 && Holds(m, base, LoadWide(r, v)) && base % 4 == 0 && base + 12 < 0x1_0000_0000
    requires WellFormed(c) && c.pc == base && c.thumb
    ensures r < 15 ==> Run(m, c, 3) == Some(Goto(SetReg(c, r, v), base + 12))
    ensures r == 15 ==> Run(m, c, 1) == Some(LoadPc(c, v))
  {
    hide Step, Run, Holds, At, AtWide, Add32, Align, WordAt, LoadPc;
    var f := LoadWide(r, v);
    assert Wide(0xF8DF) && !Wide(0xBF00) && !Wide(0xE001);
    Boundary(c, base);
    Fetched(m, base, f, 0, c);
    LiteralAt(m, base, f, 4, v);
    LiteralPlace(base, 0, 1);
    LoadWideStep(m, c, r, v);
    if r == 15 {
      RunOne(m, c);
    } else {
      var d := Goto(SetReg(c, r, v), base + 4);
      Fetched(m, base, f, 2, d);
      NopStep(m, d);
      var e := Goto(d, base + 6);
      EvenAgain(base, 3);
      Fetched(m, base, f, 3, e);
      SkipStep(m, e, 1);
      RunThen(m, c, d, 2);
      RunTwo(m, d, e);
    }
  }

  lemma EvenAgain(base: Word, i: nat)
    requires base % 4 == 0
    ensures (base + 2 * i) % 2 == 0
  {
    assert base == 4 * (base / 4);
    Doubled(2 * (base / 4) + i, base + 2 * i);
  }

  lemma PopAfterPush(sp: Word)
    ensures Add32(Add32(sp, -4), 4) == sp
  {
  }

  /** The fragment of ADD Rd, PC, with `v` for PC. */
  function AddFrag(d: nat, v: Word): seq<Half>
    requires d < 16
  {
    var r := Spare(d);
    [0xB400 + OneHot(r), 0x4802 + r * 0x100, 0x4400 + d / 8 * 0x80 + r * 8 + d % 8, 0xBC00 + OneHot(r),
     0xE002, 0xBF00, v % 0x1_0000, v / 0x1_0000]
  }

  /** What the fragment of ADD does; the word below the stack pointer is overwritten. */
  function Added(c: Cpu, d: nat, v: Word, pc: Word): Cpu
    requires WellFormed(c) && d < 15
  {
    c.(pc := pc, regs := c.regs[d := Add32(c.regs[d], v)],
       stack := c.stack[Add32(c.regs[13], -4) := c.regs[Spare(d)]])
  }

  lemma AddRuns(m: Code, base: Word, c: Cpu, d: nat, v: Word)
    requires d < 15 && d != 13 && Holds(m, base, AddFrag(d, v)) && base % 4 == 0 && base + 16 < 0x1_0000_0000
    requires WellFormed(c) && c.pc == base && c.thumb
    ensures Run(m, c, 5) == Some(Added(c, d, v, base + 16))
  {
    hide Step, Run, Holds, At, Add32, Align, WordAt, OneHot;
    var f, r := AddFrag(d, v), Spare(d);
    assert !Wide(f[0]) && !Wide(f[1]) && !Wide(f[2]) && !Wide(f[3]) && !Wide(f[4]);
    PopAfterPush(c.regs[13]);
    Fetched(m, base, f, 0, c);
    PushStep(m, c, r);
    EvenAgain(base, 1);
    var c1 := Goto(Push(c, r), base + 2);
    Fetched(m, base, f, 1, c1);
    LiteralAt(m, base, f, 6, v);
    LiteralPlace(base, 1, 2);
    LiteralStep(m, c1, r, 2, v);
    EvenAgain(base, 2);
    var c2 := Goto(SetReg(c1, r, v), base + 4);
    Fetched(m, base, f, 2, c2);
    AddStep(m, c2, d, r);
    EvenAgain(base, 3);
    var c3 := Goto(SetReg(c2, d, Add32(c.regs[d], v)), base + 6);
    Fetched(m, base, f, 3, c3);
    PopStep(m, c3, r);
    EvenAgain(base, 4);
    var c4 := Goto(Pop(c3, r).value, base + 8);
    Fetched(m, base, f, 4, c4);
    SkipStep(m, c4, 2);
    assert Goto(c4, base + 16) == Added(c, d, v, base + 16);
    RunThen(m, c, c1, 4);
    RunThen(m, c1, c2, 3);
    RunThen(m, c2, c3, 2);
    RunTwo(m, c3, c4);
  }

  /** The half word or byte that a table jump reads. */
  function Entry(m: Code, pc: Word, index: Word, half: bool): Option<Half> {
    if half then
      var a := Add32(pc, index * 2);
      if a in m then Some(m[a]) else None
    else
      var b := ByteAt(m, Add32(pc, index));
      if b.None? then None else Some(b.value)
  }

  function TableFrag(pc: Word, rm: nat, half: bool): seq<Half>
    requires rm < 16
  {
    TableJump(pc, rm, if half then 0x40 else 0, if half then 0x8800 else 0x7800)
  }

  /** What the fragment of a table jump does: it also loses the spare register and the flags. */
  function TableJumped(c: Cpu, rm: nat, t: Word): Cpu
    requires WellFormed(c) && rm < 16
  {
    var r := Spare(rm);
    c.(pc := t, regs := c.regs[r := Add32(t, 1)], passes := AddPasses(t, 1),
       stack := c.stack[Add32(c.regs[13], -4) := c.regs[Spare2(rm, r)]])
  }

  /** The load of the table's address and of the index. */
  lemma TableHead(m: Code, base: Word, c: Cpu, rm: nat, half: bool, v: Word)
    requires rm < 15 && rm != 13 && Holds(m, base, TableFrag(v, rm, half)) && base % 4 == 0 && base + 28 < 0x1_0000_0000
    requires WellFormed(c) && c.pc == base && c.thumb
    ensures var r := Spare(rm);
      var rx := Spare2(rm, r);
      Run(m, c, 3) == Some(Goto(SetReg(SetReg(Push(c, rx), r, v), rx, c.regs[rm]), base + 6))
  {
    hide Step, Run, Holds, At, AtWide, Add32, Align, WordAt, OneHot;
    var f, r := TableFrag(v, rm, half), Spare(rm);
    var rx := Spare2(rm, r);
    assert !Wide(f[0]) && !Wide(f[1]) && !Wide(f[2]);
    Fetched(m, base, f, 0, c);
    PushStep(m, c, rx);
    EvenAgain(base, 1);
    var c1 := Goto(Push(c, rx), base + 2);
    Fetched(m, base, f, 1, c1);
    LiteralAt(m, base, f, 12, v);
    LiteralPlace(base, 1, 5);
    LiteralStep(m, c1, r, 5, v);
    EvenAgain(base, 2);
    var c2 := Goto(SetReg(c1, r, v), base + 4);
    Fetched(m, base, f, 2, c2);
    MovStep(m, c2, rx, rm);
    RunThen(m, c, c1, 2);
    RunTwo(m, c1, c2);
  }

  /** The table is read. */
  lemma TableRead(m: Code, base: Word, c: Cpu, rm: nat, half: bool, v: Word, e: Half)
    requires rm < 15 && rm != 13 && Holds(m, base, TableFrag(v, rm, half)) && base % 4 == 0 && base + 28 < 0x1_0000_0000
    requires WellFormed(c) && c.pc == base + 6 && c.thumb
    requires var r := Spare(rm);
      c.regs[r] == v && Entry(m, v, c.regs[Spare2(rm, r)], half) == Some(e)
    ensures Run(m, c, 2) == Some(Goto(SetReg(c, Spare2(rm, Spare(rm)), e), base + 12))
  {
    hide Step, Run, Holds, At, AtWide, Add32, Align, WordAt, OneHot, ByteAt;
    var f, r := TableFrag(v, rm, half), Spare(rm);
    var rx := Spare2(rm, r);
    var k, index: int := if half then 1 else 0, c.regs[rx];
    assert Wide(f[3]) && !Wide(f[5]);
    Fetched(m, base, f, 3, c);
    AddWideStep(m, c, rx, r, rx, k);
    EvenAgain(base, 5);
    var d := Goto(SetReg(c, rx, Add32(v, index * (k + 1))), base + 10);
    Fetched(m, base, f, 5, d);
    LoadStepOf(m, d, if half then 0x88 else 0x78, rx);
    assert SetReg(d, rx, e).regs == SetReg(c, rx, e).regs;
    RunTwo(m, c, d);
  }

  /** The rest: the target is computed, the second spare register restored. */
  lemma TableTail(m: Code, base: Word, c: Cpu, rm: nat, half: bool, v: Word, e: Half, d: Cpu)
    requires rm < 15 && rm != 13 && Holds(m, base, TableFrag(v, rm, half)) && base % 4 == 0 && base + 28 < 0x1_0000_0000
    requires WellFormed(c) && c.thumb && v % 2 == 0
    requires var r := Spare(rm); d == Goto(SetReg(SetReg(Push(c, Spare2(rm, r)), r, v), Spare2(rm, r), e), base + 12)
    ensures Run(m, d, 4) == Some(TableJumped(c, rm, Add32(v, e * 2)))
  {
    hide Step, Run, Holds, At, AtWide, Add32, Align, WordAt, OneHot, AddPasses;
    var f, r := TableFrag(v, rm, half), Spare(rm);
    var rx, t := Spare2(rm, r), Add32(v, e * 2);
    assert Wide(f[6]) && !Wide(f[8]) && !Wide(f[9]) && !Wide(f[10]);
    PopAfterPush(c.regs[13]);
    EvenAgain(base, 6);
    Fetched(m, base, f, 6, d);
    AddWideStep(m, d, r, r, rx, 1);
    EvenAgain(base, 8);
    var c1 := Goto(SetReg(d, r, t), base + 16);
    Fetched(m, base, f, 8, c1);
    AddsStep(m, c1, r);
    EvenAgain(base, 9);
    var c2 := Goto(SetReg(c1, r, Add32(t, 1)).(passes := AddPasses(t, 1)), base + 18);
    Fetched(m, base, f, 9, c2);
    PopStep(m, c2, rx);
    EvenAgain(base, 10);
    var c3 := Goto(Pop(c2, rx).value, base + 20);
    Fetched(m, base, f, 10, c3);
    BxStep(m, c3, r);
    EvenSum(v, e * 2);
    OddTarget(t);
    assert c3.regs == c.regs[r := Add32(t, 1)];
    RunThen(m, d, c1, 3);
    RunThen(m, c1, c2, 2);
    RunTwo(m, c2, c3);
  }

  lemma OddTarget(t: Word)
    requires t % 2 == 0
    ensures Add32(t, 1) == t + 1 && (t + 1) % 2 == 1
  {
  }

  /** TBB and TBH jump to the entry that the original would have used. */
  lemma TableRuns(m: Code, base: Word, c: Cpu, rm: nat, half: bool, v: Word, e: Half)
    requires rm < 15 && rm != 13 && Holds(m, base, TableFrag(v, rm, half)) && base % 4 == 0 && base + 28 < 0x1_0000_0000
    requires WellFormed(c) && c.pc == base && c.thumb && v % 2 == 0 && Entry(m, v, c.regs[rm], half) == Some(e)
    ensures Run(m, c, 9) == Some(TableJumped(c, rm, Add32(v, e * 2)))
  {
    hide Holds, Add32, Run, Step, Entry, TableFrag, TableJumped;
    var r := Spare(rm);
    var rx := Spare2(rm, r);
    TableHead(m, base, c, rm, half, v);
    var c1 := Goto(SetReg(SetReg(Push(c, rx), r, v), rx, c.regs[rm]), base + 6);
    EvenAgain(base, 3);
    TableRead(m, base, c1, rm, half, v, e);
    var d := Goto(SetReg(SetReg(Push(c, rx), r, v), rx, e), base + 12);
    assert Goto(SetReg(c1, rx, e), base + 12) == d;
    TableTail(m, base, c, rm, half, v, e, d);
    RunsOn(m, c, 3, c1, 2);
    RunsOn(m, c, 5, d, 4);
  }

  lemma {:induction false} RunsOn(m: Code, c: Cpu, n: nat, d: Cpu, k: nat)
    requires Run(m, c, n) == Some(d)
    ensures Run(m, c, n + k) == Run(m, d, k)
    decreases n
  {
    hide Step;
    if n > 0 { RunsOn(m, Step(m, c).value, n - 1, d, k); }
  }
}

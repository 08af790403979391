/** Whole runs through the Thumb trampoline: it is a callable copy of the instructions that the hook overwrites. */
module ThumbRuns {
  import opened Words
  import opened Thumb
  import opened ThumbMeaning
  import opened ThumbTrampoline
  import opened ThumbMoves

  // ----- agreement -----

  /** The states agree but for the program counter and the dead words of the stack, which a fragment has overwritten. */
  ghost predicate Twin(c: Cpu, e: Cpu, dead: set<Word>) {
    && e.regs == c.regs && e.passes == c.passes && e.thumb == c.thumb
    && forall a :: a in c.stack && a !in dead ==> a in e.stack && e.stack[a] == c.stack[a]
  }

  /** `e` stands for `d` at the same program counter, but for what the last fragment loses and for the dead words. */
  ghost predicate Stands(d: Cpu, e: Cpu, loss: Loss, dead: set<Word>)
    requires |d.regs| == 16
  {
    && e.pc == d.pc
    && match loss
       case Nothing => Twin(d, e, dead)
       case Below => Twin(d, e, dead + {Add32(d.regs[13], -4)})
       case BelowAnd(spare) =>
         spare < 16 &&
         Twin(d.(regs := d.regs[spare := Add32(d.pc, 1)], passes := AddPasses(d.pc, 1)), e,
              dead + {Add32(d.regs[13], -4)})
  }

  // ----- steps that do not touch the stack -----

  function WithStack(o: Option<Cpu>, s: map<Word, Word>): Option<Cpu> {
    if o.None? then None else Some(o.value.(stack := s))
  }

  /** PUSH and POP of one register. */
  predicate Pushes(ins: Half) { ins / 0x100 == 0xB4 && Listed(ins % 0x100) < 16 }

  predicate Pops(ins: Half) { ins / 0x100 == 0xBC && Listed(ins % 0x100) < 16 }

  lemma Blind16(m: Code, c: Cpu, ins: Half, s: map<Word, Word>)
    requires WellFormed(c) && !Pushes(ins) && !Pops(ins)
    ensures Step16(m, c.(stack := s), ins) == WithStack(Step16(m, c, ins), s)
  {
    hide Add32, Align, WordAt, ByteAt, Listed, Signed, AddPasses;
  }

  lemma Blind32(m: Code, c: Cpu, hi: Half, lo: Half, s: map<Word, Word>)
    requires WellFormed(c)
    ensures Step32(m, c.(stack := s), hi, lo) == WithStack(Step32(m, c, hi, lo), s)
  {
    hide Add32, Align, WordAt, ByteAt, BranchImm, CondImm, Imm12, Kind;
  }

  lemma StackIsCopied(ins: Half)
    ensures Pushes(ins) || Pops(ins) ==> TypeOf16(ins).OTHER?
  {
    if ins / 0x100 == 0xB4 || ins / 0x100 == 0xBC {
      assert ins / 0x1000 == 0xB && ins / 0x400 % 2 == 1 && ins / 0x800 == ins / 0x100 / 8;
    }
  }

  /** What the original does, and whether it is kept, does not depend on the stack. */
  lemma KeptBlind(m0: Code, m: Code, c: Cpu, orig: seq<Half>, pos: nat, lit: Word -> Word, s: map<Word, Word>)
    requires WellFormed(c) && Whole(orig, pos) && !Copied(orig, pos)
    ensures Original(m0, c.(stack := s), orig, pos) == WithStack(Original(m0, c, orig, pos), s)
    ensures Kept(m0, m, c.(stack := s), orig, pos, lit) <==> Kept(m0, m, c, orig, pos, lit)
    ensures Leaves(c.(stack := s), orig, pos) <==> Leaves(c, orig, pos)
  {
    hide Step16, Step32, TypeOf16, TypeOf32, Add32, Align, WordAt, Entry, Imm12, Wide;
    if Wide(orig[pos]) {
      Blind32(m0, c, orig[pos], orig[pos + 1], s);
    } else {
      StackIsCopied(orig[pos]);
      Blind16(m0, c, orig[pos], s);
    }
  }

  // ----- the instructions of a window -----

  /** The instruction leaves the straight line. */
  predicate Exits(c: Cpu, orig: seq<Half>, pos: nat)
    requires WellFormed(c) && Whole(orig, pos)
  {
    if Copied(orig, pos) then !Wide(orig[pos]) && orig[pos] / 0x80 == 0x8E else Leaves(c, orig, pos)
  }

  /** The trampoline can follow: the instruction is kept, or it is a copied one whose meaning is known, which reads the
      same data as before the hook, and no dead word of the stack. */
  predicate Follows(m0: Code, m: Code, c: Cpu, orig: seq<Half>, pos: nat, lit: Word -> Word, dead: set<Word>)
    requires WellFormed(c) && Whole(orig, pos)
  {
    if Copied(orig, pos) then
      && Original(m0, c, orig, pos).Some? && Original(m, c, orig, pos) == Original(m0, c, orig, pos)
      && (!Wide(orig[pos]) && Pops(orig[pos]) ==> c.regs[13] !in dead)
    else Kept(m0, m, c, orig, pos, lit)
  }

  function LossOf(orig: seq<Half>, pos: nat): Loss
    requires Whole(orig, pos)
  {
    if Copied(orig, pos) then Nothing else LostAt(orig, pos)
  }

  /** A copied PUSH makes its word the same again. */
  function DeadBefore(c: Cpu, orig: seq<Half>, pos: nat, dead: set<Word>): set<Word>
    requires WellFormed(c) && Whole(orig, pos)
  {
    if !Wide(orig[pos]) && Pushes(orig[pos]) then dead - {Add32(c.regs[13], -4)} else dead
  }

  // ----- copied instructions -----

  lemma NoBx(ins: Half)
    requires ins / 0x100 == 0xB4 || ins / 0x100 == 0xBC
    ensures ins / 0x80 != 0x8E
  {
    assert ins / 0x100 == ins / 0x80 / 2;
  }

  lemma OtherForms(ins: Half)
    requires TypeOf16(ins).OTHER?
    ensures ins / 0x1000 != 0xD && ins / 0x800 != 0x1C && ins / 0x800 != 9 && ins / 0x800 != 0x14 && ins / 8 != 0x8EF
    ensures ins / 0x1000 == 0xB ==> ins / 0x400 % 2 == 1 || ins / 0x100 % 2 == 0
    ensures ins / 0x100 == 0x44 || ins / 0x100 == 0x46 ==> ins / 8 % 16 != 15
    ensures ins / 0x80 == 0x8E ==> ins / 8 % 16 != 15
  {
    if ins / 0x80 == 0x8E { assert ins / 8 == 16 * (ins / 0x80) + ins / 8 % 16; }
  }

  lemma DataShift(m: Code, c: Cpu, a: Word, ins: Half)
    requires WellFormed(c) && a % 2 == 0 && Data16(m, c, ins).Some? && ins / 0x800 != 0x14
    requires ins / 0x100 == 0x44 || ins / 0x100 == 0x46 || ins / 0x80 == 0x8E ==> ins / 8 % 16 != 15
    ensures var d, o := Data16(m, c, ins).value, Data16(m, c.(pc := a), ins);
      && (ins / 0x80 == 0x8E ==> o == Some(d))
      && (ins / 0x80 != 0x8E ==> d.pc == Add32(c.pc, 2) && o == Some(d.(pc := Add32(a, 2))))
  {
    hide Add32, Align, ByteAt, Listed, AddPasses;
    if ins / 0x80 == 0x8E { assert ins / 0x100 == 0x47 && ins / 0x800 == 8; }
  }

  /** Apart from the fall-through, a copied instruction does not depend on its place. */
  lemma Shifted16(m: Code, c: Cpu, a: Word, ins: Half)
    requires WellFormed(c) && a % 2 == 0 && TypeOf16(ins).OTHER? && Step16(m, c, ins).Some?
    ensures var d, o := Step16(m, c, ins).value, Step16(m, c.(pc := a), ins);
      && (ins / 0x80 == 0x8E ==> o == Some(d))
      && (ins / 0x80 != 0x8E ==> d.pc == Add32(c.pc, 2) && o == Some(d.(pc := Add32(a, 2))))
  {
    hide Step16, Data16, Add32, TypeOf16;
    OtherForms(ins);
    if ins == 0xBF00 {
      NopIs(m, c);
      NopIs(m, c.(pc := a));
    } else {
      DataStep(m, c, ins);
      DataStep(m, c.(pc := a), ins);
      DataShift(m, c, a, ins);
    }
  }

  lemma NopIs(m: Code, c: Cpu)
    requires WellFormed(c)
    ensures Step16(m, c, 0xBF00) == Some(Goto(c, Add32(c.pc, 2)))
  {
    hide Add32, Align, WordAt, Data16;
  }

  lemma PushTwins(m: Code, c: Cpu, e: Cpu, ins: Half, dead: set<Word>)
    requires WellFormed(c) && WellFormed(e) && Pushes(ins) && Twin(c, e, dead)
    ensures Step16(m, c, ins) == Some(Goto(Push(c, Listed(ins % 0x100)), Add32(c.pc, 2)))
    ensures Step16(m, e, ins) == Some(Goto(Push(e, Listed(ins % 0x100)), Add32(e.pc, 2)))
    ensures Twin(Step16(m, c, ins).value, Step16(m, e, ins).value, dead - {Add32(c.regs[13], -4)})
  {
    hide Add32, Align, WordAt, ByteAt, Listed;
    assert ins / 0x1000 == 0xB && ins / 0x400 % 2 == 1 && ins / 0x800 == 0x16;
    DataStep(m, c, ins);
    DataStep(m, e, ins);
  }

  lemma PopTwins(m: Code, c: Cpu, e: Cpu, ins: Half, dead: set<Word>)
    requires WellFormed(c) && WellFormed(e) && Pops(ins) && Twin(c, e, dead)
    requires Step16(m, c, ins).Some? && c.regs[13] !in dead
    ensures Step16(m, e, ins).Some? && Twin(Step16(m, c, ins).value, Step16(m, e, ins).value, dead)
    ensures Step16(m, c, ins).value.pc == Add32(c.pc, 2) && Step16(m, e, ins).value.pc == Add32(e.pc, 2)
  {
    hide Add32, Align, WordAt, ByteAt, Listed;
    assert ins / 0x1000 == 0xB && ins / 0x400 % 2 == 1 && ins / 0x800 == 0x17;
    DataStep(m, c, ins);
    DataStep(m, e, ins);
  }

  /** A copied 16-bit instruction does the same at any place. */
  lemma CopiedAnywhere16(m: Code, c: Cpu, e: Cpu, ins: Half, dead: set<Word>)
    requires WellFormed(c) && WellFormed(e) && TypeOf16(ins).OTHER? && Twin(c, e, dead)
    requires Step16(m, c, ins).Some? && (Pops(ins) ==> c.regs[13] !in dead)
    ensures var d, o := Step16(m, c, ins).value, Step16(m, e, ins);
      var dead' := if Pushes(ins) then dead - {Add32(c.regs[13], -4)} else dead;
      && o.Some? && Twin(d, o.value, dead')
      && (ins / 0x80 == 0x8E ==> o.value.pc == d.pc)
      && (ins / 0x80 != 0x8E ==> d.pc == Add32(c.pc, 2) && o.value.pc == Add32(e.pc, 2))
  {
    hide Add32, Step16, TypeOf16, Listed, Push;
    if Pushes(ins) {
      PushTwins(m, c, e, ins, dead);
      NoBx(ins);
    } else if Pops(ins) {
      PopTwins(m, c, e, ins, dead);
      NoBx(ins);
    } else {
      Shifted16(m, c, e.pc, ins);
      Blind16(m, c.(pc := e.pc), ins, e.stack);
      assert e == c.(pc := e.pc).(stack := e.stack);
      KeepsStack(m, c, ins);
    }
  }

  lemma KeepsStack(m: Code, c: Cpu, ins: Half)
    requires WellFormed(c) && !Pushes(ins) && !Pops(ins) && Step16(m, c, ins).Some?
    ensures Step16(m, c, ins).value.stack == c.stack
  {
    hide Step16;
    Blind16(m, c, ins, c.stack);
    assert c.(stack := c.stack) == c;
  }

  lemma Shifted32(m: Code, c: Cpu, a: Word, hi: Half, lo: Half)
    requires WellFormed(c) && a % 2 == 0 && TypeOf32(hi, lo).OTHER_W? && Step32(m, c, hi, lo).Some?
    ensures var d := Step32(m, c, hi, lo).value;
      d.pc == Add32(c.pc, 4) && Step32(m, c.(pc := a), hi, lo) == Some(d.(pc := Add32(a, 4)))
  {
    hide Add32, Align, WordAt, ByteAt, BranchImm, CondImm, Imm12;
  }

  lemma CopiedAnywhere32(m: Code, c: Cpu, e: Cpu, hi: Half, lo: Half, dead: set<Word>)
    requires WellFormed(c) && WellFormed(e) && TypeOf32(hi, lo).OTHER_W? && Twin(c, e, dead)
    requires Step32(m, c, hi, lo).Some?
    ensures var d, o := Step32(m, c, hi, lo).value, Step32(m, e, hi, lo);
      o.Some? && Twin(d, o.value, dead) && d.pc == Add32(c.pc, 4) && o.value.pc == Add32(e.pc, 4)
  {
    hide Add32, Step32, TypeOf32;
    Shifted32(m, c, e.pc, hi, lo);
    Blind32(m, c.(pc := e.pc), hi, lo, e.stack);
    assert e == c.(pc := e.pc).(stack := e.stack);
    Blind32(m, c, hi, lo, c.stack);
    assert c.(stack := c.stack) == c;
  }

  // ----- one instruction -----

  /** Fragment `k` of the trampoline, for the instruction at `f.0`. */
  predicate Fragment(m: Code, base: Word, target: Word, orig: seq<Half>, lit: Word -> Word, k: nat, f: (nat, nat)) {
    && Setting(m, base, target, orig, lit, k) && f == Starts(target, orig, 0, 0, lit)[k] && Whole(orig, f.0)
    && base + 2 * f.1 < 0x1_0000_0000
  }

  function EndOf(base: Word, target: Word, orig: seq<Half>, lit: Word -> Word, f: (nat, nat)): int
    requires Whole(orig, f.0)
  {
    base + 2 * f.1 + 2 * FragLen(target, orig, f.0, lit)
  }

  lemma SameStands(d: Cpu, e: Cpu, loss: Loss, dead: set<Word>, s: map<Word, Word>)
    requires |d.regs| == 16 && Same(d.(stack := s), e, loss)
    requires forall a :: a in d.stack && a !in dead ==> a in s && s[a] == d.stack[a]
    ensures Stands(d, e, loss, dead)
  {
    hide AddPasses, Add32;
  }

  lemma LandingStack(d: Cpu, leaves: bool, call: bool, end: Word, s: map<Word, Word>)
    requires |d.regs| == 16 && end + 1 < 0x1_0000_0000
    ensures Landing(d.(stack := s), leaves, call, end) == Landing(d, leaves, call, end).(stack := s)
    ensures |Landing(d, leaves, call, end).regs| == 16 && Landing(d, leaves, call, end).stack == d.stack
  {
  }

  lemma KeptStep(m0: Code, m: Code, base: Word, target: Word, orig: seq<Half>, lit: Word -> Word, k: nat, f: (nat, nat),
      c: Cpu, e: Cpu, dead: set<Word>) returns (n: nat, e1: Cpu)
    requires Fragment(m, base, target, orig, lit, k, f) && WellFormed(c) && c.thumb && c.pc == Add32(target, 2 * f.0)
    requires !Copied(orig, f.0) && Kept(m0, m, c, orig, f.0, lit) && Twin(c, e, dead) && e.pc == base + 2 * f.1
    ensures Run(m, e, n) == Some(e1)
    ensures var d, end := Original(m0, c, orig, f.0), EndOf(base, target, orig, lit, f);
      && d.Some? && |d.value.regs| == 16 && 0 <= end && end + 1 < 0x1_0000_0000
      && Stands(Landing(d.value, Leaves(c, orig, f.0), CallsAt(orig, f.0), end), e1, LostAt(orig, f.0), dead)
  {
    hide Run, Setting, Starts, Kept, Copied, Original, Leaves, CallsAt, LostAt, Landing, Same, Stands, Placed, FragLen;
    hide Add32;
    var c' := c.(stack := e.stack);
    assert Moved(c', base + 2 * f.1) == e;
    KeptBlind(m0, m, c, orig, f.0, lit, e.stack);
    KeptBlind(m0, m, c, orig, f.0, lit, c.stack);
    assert c.(stack := c.stack) == c;
    n, e1 := FragmentMoves(m0, m, base, target, orig, lit, k, c');
    var d, end := Original(m0, c, orig, f.0).value, EndOf(base, target, orig, lit, f);
    LandingStack(d, Leaves(c, orig, f.0), CallsAt(orig, f.0), end, e.stack);
    SameStands(Landing(d, Leaves(c, orig, f.0), CallsAt(orig, f.0), end), e1, LostAt(orig, f.0), dead, e.stack);
  }

  lemma Shape16(m: Code, c: Cpu, ins: Half)
    requires WellFormed(c) && TypeOf16(ins).OTHER? && Step16(m, c, ins).Some?
    ensures var d := Step16(m, c, ins).value;
      |d.regs| == 16 && |d.passes| == 16 && (ins / 0x80 != 0x8E ==> d.thumb == c.thumb)
  {
    hide Step16, Data16, Add32, TypeOf16;
    OtherForms(ins);
    if ins == 0xBF00 {
      NopIs(m, c);
    } else {
      DataStep(m, c, ins);
      DataShape(m, c, ins);
    }
  }

  lemma DataShape(m: Code, c: Cpu, ins: Half)
    requires WellFormed(c) && Data16(m, c, ins).Some?
    ensures var d := Data16(m, c, ins).value;
      |d.regs| == 16 && |d.passes| == 16 && (ins / 0x80 != 0x8E ==> d.thumb == c.thumb)
  {
    hide Add32, Align, ByteAt, Listed, AddPasses;
  }

  lemma Shape32(m: Code, c: Cpu, hi: Half, lo: Half)
    requires WellFormed(c) && Step32(m, c, hi, lo).Some?
    ensures |Step32(m, c, hi, lo).value.regs| == 16
  {
    hide Add32, Align, WordAt, ByteAt, BranchImm, CondImm, Imm12, Kind;
  }

  lemma CopiedStep16(m: Code, base: Word, target: Word, orig: seq<Half>, lit: Word -> Word, k: nat, f: (nat, nat),
      c: Cpu, e: Cpu, dead: set<Word>) returns (n: nat, e1: Cpu)
    requires Fragment(m, base, target, orig, lit, k, f) && WellFormed(c) && c.thumb
    requires Copied(orig, f.0) && !Wide(orig[f.0]) && Twin(c, e, dead) && e.pc == base + 2 * f.1
    requires Step16(m, c, orig[f.0]).Some? && (Pops(orig[f.0]) ==> c.regs[13] !in dead)
    ensures Run(m, e, n) == Some(e1)
    ensures var d, end := Step16(m, c, orig[f.0]).value, EndOf(base, target, orig, lit, f);
      && |d.regs| == 16 && 0 <= end && end + 1 < 0x1_0000_0000
      && Stands(if orig[f.0] / 0x80 == 0x8E then d else d.(pc := end), e1, Nothing, DeadBefore(c, orig, f.0, dead))
      && (orig[f.0] / 0x80 != 0x8E ==> d.pc == Add32(c.pc, 2))
  {
    hide Run, Setting, Starts, Step, Step16, FragAt, Add32, TypeOf16, Pushes, Pops, Trampoline, EndsAt, Holds, FragLen;
    hide Wide;
    FragmentPlace(m, base, target, orig, lit, k);
    CopiedFrag(target, orig, lit, f.0);
    FragIs(target, orig, lit, f.0);
    var a, ins, frag := base + 2 * f.1, orig[f.0], FragAt(target, orig, f.0, lit);
    EvenOfFour(a);
    HoldsAt(m, a, frag, 0);
    AtStep(m, e, ins);
    CopiedAnywhere16(m, c, e, ins, dead);
    Shape16(m, e, ins);
    Shape16(m, c, ins);
    var e' := Step16(m, e, ins).value;
    if ins / 0x80 == 0x8E {
      n, e1 := 1, e';
      RunOne(m, e);
    } else {
      SmallSum(a, 2);
      CopiedFalls(m, base, target, orig, lit, k, e');
      n, e1 := 2, Goto(e', a + 4);
      RunThen(m, e, e', 1);
    }
  }

  lemma EvenOfFour(a: int)
    requires a % 4 == 0
    ensures a % 2 == 0 && (a + 2) % 2 == 0
  {
    Doubled(2 * (a / 4), a);
    Doubled(2 * (a / 4) + 1, a + 2);
  }

  lemma FragIs(target: Word, orig: seq<Half>, lit: Word -> Word, pos: nat)
    requires Whole(orig, pos)
    ensures FragLen(target, orig, pos, lit) == |FragAt(target, orig, pos, lit)|
  {
    hide FragAt;
  }

  lemma CopiedStep32(m: Code, base: Word, target: Word, orig: seq<Half>, lit: Word -> Word, k: nat, f: (nat, nat),
      c: Cpu, e: Cpu, dead: set<Word>) returns (n: nat, e1: Cpu)
    requires Fragment(m, base, target, orig, lit, k, f) && WellFormed(c) && c.thumb
    requires Copied(orig, f.0) && Wide(orig[f.0]) && Twin(c, e, dead) && e.pc == base + 2 * f.1
    requires Step32(m, c, orig[f.0], orig[f.0 + 1]).Some?
    ensures Run(m, e, n) == Some(e1)
    ensures var d, end := Step32(m, c, orig[f.0], orig[f.0 + 1]).value, EndOf(base, target, orig, lit, f);
      && |d.regs| == 16 && 0 <= end && end + 1 < 0x1_0000_0000 && d.pc == Add32(c.pc, 4)
      && Stands(d.(pc := end), e1, Nothing, dead)
  {
    hide Run, Setting, Starts, Step, Step32, FragAt, Add32, TypeOf32, Trampoline, EndsAt, Holds, FragLen, Wide;
    FragmentPlace(m, base, target, orig, lit, k);
    CopiedFrag(target, orig, lit, f.0);
    FragIs(target, orig, lit, f.0);
    var a, hi, lo, frag := base + 2 * f.1, orig[f.0], orig[f.0 + 1], FragAt(target, orig, f.0, lit);
    EvenOfFour(a);
    HoldsAt(m, a, frag, 0);
    HoldsAt(m, a, frag, 1);
    AtWideStep(m, e, hi, lo);
    CopiedAnywhere32(m, c, e, hi, lo, dead);
    Shape32(m, c, hi, lo);
    n, e1 := 1, Step32(m, e, hi, lo).value;
    RunOne(m, e);
  }

  /** One instruction that the trampoline can follow. */
  lemma WindowStep(m0: Code, m: Code, base: Word, target: Word, orig: seq<Half>, lit: Word -> Word, k: nat,
      f: (nat, nat), c: Cpu, e: Cpu, dead: set<Word>) returns (n: nat, e1: Cpu)
    requires Fragment(m, base, target, orig, lit, k, f) && WellFormed(c) && c.thumb && c.pc == Add32(target, 2 * f.0)
    requires Follows(m0, m, c, orig, f.0, lit, dead) && Twin(c, e, dead) && e.pc == base + 2 * f.1
    ensures Run(m, e, n) == Some(e1)
    ensures var d, end := Original(m0, c, orig, f.0), EndOf(base, target, orig, lit, f);
      && d.Some? && |d.value.regs| == 16 && 0 <= end && end + 1 < 0x1_0000_0000
      && Stands(Landing(d.value, Exits(c, orig, f.0), CallsAt(orig, f.0), end), e1, LossOf(orig, f.0),
                DeadBefore(c, orig, f.0, dead))
  {
    hide Run, Setting, Starts, Kept, Original, Leaves, CallsAt, LostAt, Stands, FragLen, Add32, Pushes, Pops, Copied;
    hide Twin;
    if !Copied(orig, f.0) {
      NotPushed(orig, f.0);
      n, e1 := KeptStep(m0, m, base, target, orig, lit, k, f, c, e, dead);
    } else {
      NoCall(orig, f.0);
      OriginalIs(m, c, orig, f.0);
      if Wide(orig[f.0]) {
        n, e1 := CopiedStep32(m, base, target, orig, lit, k, f, c, e, dead);
      } else {
        n, e1 := CopiedStep16(m, base, target, orig, lit, k, f, c, e, dead);
      }
    }
  }

  lemma NotPushed(orig: seq<Half>, pos: nat)
    requires Whole(orig, pos) && !Copied(orig, pos)
    ensures !Wide(orig[pos]) ==> !Pushes(orig[pos])
  {
    hide TypeOf16, TypeOf32, Pushes, Pops;
    if !Wide(orig[pos]) { StackIsCopied(orig[pos]); }
  }

  lemma NoCall(orig: seq<Half>, pos: nat)
    requires Whole(orig, pos) && Copied(orig, pos)
    ensures !CallsAt(orig, pos)
  {
    hide TypeOf16, TypeOf32;
  }

  lemma OriginalIs(m: Code, c: Cpu, orig: seq<Half>, pos: nat)
    requires WellFormed(c) && Whole(orig, pos)
    ensures Original(m, c, orig, pos) ==
      if Wide(orig[pos]) then Step32(m, c, orig[pos], orig[pos + 1]) else Step16(m, c, orig[pos])
  {
    hide Step16, Step32;
  }

  // ----- whole runs -----

  /** The instruction after `k` others; past the last one it is where the jump back leads. */
  function PosOf(target: Word, orig: seq<Half>, lit: Word -> Word, k: nat): nat
    requires orig != []
  {
    var s := Starts(target, orig, 0, 0, lit);
    if k < |s| then s[k].0 else End(orig, 0)
  }

  function Place(base: Word, target: Word, orig: seq<Half>, lit: Word -> Word, k: nat): int
    requires orig != []
  {
    var s := Starts(target, orig, 0, 0, lit);
    base + 2 * if k < |s| && s[k].0 < End(orig, 0) then s[k].1 else |Body(target, orig, 0, lit)|
  }

  /** The original executes `j` instructions from the `k`-th on that the trampoline can follow, in a straight line. */
  ghost predicate Inside(m0: Code, m: Code, target: Word, orig: seq<Half>, lit: Word -> Word, c: Cpu, k: nat,
      dead: set<Word>, j: nat)
    requires orig != []
    decreases j
  {
    j == 0 ||
    (var pos := PosOf(target, orig, lit, k);
     && Ready(m0, m, target, orig, lit, c, k, dead) && !Exits(c, orig, pos) && !CallsAt(orig, pos)
     && Original(m0, c, orig, pos).Some?
     && Inside(m0, m, target, orig, lit, Original(m0, c, orig, pos).value, k + 1, DeadAfter(c, orig, pos, dead), j - 1))
  }

  /** The original is at instruction `k`, which the trampoline can follow. */
  predicate Ready(m0: Code, m: Code, target: Word, orig: seq<Half>, lit: Word -> Word, c: Cpu, k: nat,
      dead: set<Word>)
    requires orig != []
  {
    var pos := PosOf(target, orig, lit, k);
    && k < |Starts(target, orig, 0, 0, lit)| && pos < End(orig, 0) && Whole(orig, pos)
    && WellFormed(c) && c.thumb && c.pc == Add32(target, 2 * pos) && Follows(m0, m, c, orig, pos, lit, dead)
  }

  /** ADD leaves a dead word below the stack pointer. */
  function DeadAfter(c: Cpu, orig: seq<Half>, pos: nat, dead: set<Word>): set<Word>
    requires WellFormed(c) && Whole(orig, pos)
  {
    DeadBefore(c, orig, pos, dead) + if LossOf(orig, pos).Below? then {Add32(c.regs[13], -4)} else {}
  }

  function DeadThrough(m0: Code, m: Code, target: Word, orig: seq<Half>, lit: Word -> Word, c: Cpu, k: nat,
      dead: set<Word>, j: nat): set<Word>
    requires orig != [] && Inside(m0, m, target, orig, lit, c, k, dead, j)
    decreases j
  {
    if j == 0 then dead
    else
      var pos := PosOf(target, orig, lit, k);
      var d := Original(m0, c, orig, pos).value;
      DeadThrough(m0, m, target, orig, lit, d, k + 1, DeadAfter(c, orig, pos, dead), j - 1)
  }

  // ----- the straight line -----

  lemma FallsKept16(m0: Code, c: Cpu, ins: Half, lit: Word -> Word)
    requires WellFormed(c) && Kept16(m0, c, ins, lit) && !Leaves16(c, ins) && Step16(m0, c, ins).Some?
    ensures var d := Step16(m0, c, ins).value;
      d.pc == Add32(c.pc, 2) && (TypeOf16(ins).ADD? ==> |d.regs| == 16 && d.regs[13] == c.regs[13])
  {
    hide Step16, Add32, TypeOf16, WordAt, Align;
    OriginalData(m0, c, ins);
    if TypeOf16(ins).B1? || TypeOf16(ins).CB? { OriginalFalls(m0, c, ins); }
  }

  lemma FallsKept32(m0: Code, m: Code, c: Cpu, hi: Half, lo: Half, lit: Word -> Word)
    requires WellFormed(c) && Kept32(m0, m, c, hi, lo, lit) && !Leaves32(c, hi, lo) && Step32(m0, c, hi, lo).Some?
    ensures Step32(m0, c, hi, lo).value.pc == Add32(c.pc, 4)
  {
    hide Step32, Add32, TypeOf32, WordAt, Align, Imm12;
    OriginalWideData(m0, c, hi, lo);
    if TypeOf32(hi, lo).LDR_W? { OriginalLoad(m0, c, hi, lo); }
    if TypeOf32(hi, lo).BCOND_W? { OriginalWideFalls(m0, c, hi, lo); }
  }

  lemma FallsCopied(m: Code, c: Cpu, orig: seq<Half>, pos: nat)
    requires WellFormed(c) && Whole(orig, pos) && Copied(orig, pos) && Original(m, c, orig, pos).Some?
    requires !Exits(c, orig, pos)
    ensures Original(m, c, orig, pos).value.pc == Add32(c.pc, 2 * Width(orig, pos))
  {
    hide Step16, Step32, TypeOf16, TypeOf32, Add32, Wide;
    if Wide(orig[pos]) {
      Shifted32(m, c, c.pc, orig[pos], orig[pos + 1]);
    } else {
      Shifted16(m, c, c.pc, orig[pos]);
    }
  }

  /** An instruction that stays on the straight line goes on behind itself. */
  lemma Falls(m0: Code, m: Code, c: Cpu, orig: seq<Half>, pos: nat, lit: Word -> Word, dead: set<Word>)
    requires WellFormed(c) && Whole(orig, pos) && Follows(m0, m, c, orig, pos, lit, dead)
    requires !Exits(c, orig, pos) && Original(m0, c, orig, pos).Some?
    ensures var d := Original(m0, c, orig, pos).value;
      && d.pc == Add32(c.pc, 2 * Width(orig, pos))
      && !LossOf(orig, pos).BelowAnd? && (LossOf(orig, pos).Below? ==> |d.regs| == 16 && d.regs[13] == c.regs[13])
  {
    hide Step16, Step32, TypeOf16, TypeOf32, Add32, Wide, Kept16, Kept32, Leaves16;
    if Copied(orig, pos) {
      FallsCopied(m0, c, orig, pos);
    } else if Wide(orig[pos]) {
      FallsKept32(m0, m, c, orig[pos], orig[pos + 1], lit);
    } else {
      FallsKept16(m0, c, orig[pos], lit);
    }
  }

  lemma NextAddress(target: Word, pos: nat, w: nat)
    ensures Add32(Add32(target, 2 * pos), 2 * w) == Add32(target, 2 * (pos + w))
  {
    AddSum(target, 2 * pos, 2 * w);
  }

  /** The setting of a whole run: the original code and the trampoline. */
  predicate Both(m0: Code, m: Code, base: Word, target: Word, orig: seq<Half>, lit: Word -> Word) {
    && orig != [] && base % 4 == 0 && target % 2 == 0
    && Holds(m0, target, orig) && Holds(m, base, Trampoline(target, orig, lit))
  }

  lemma SomeFragment(m0: Code, m: Code, base: Word, target: Word, orig: seq<Half>, lit: Word -> Word, c: Cpu, k: nat,
      dead: set<Word>) returns (f: (nat, nat))
    requires Both(m0, m, base, target, orig, lit) && Ready(m0, m, target, orig, lit, c, k, dead)
    ensures Fragment(m, base, target, orig, lit, k, f) && f.0 == PosOf(target, orig, lit, k)
    ensures Place(base, target, orig, lit, k) == base + 2 * f.1
    ensures Place(base, target, orig, lit, k + 1) == EndOf(base, target, orig, lit, f)
    ensures PosOf(target, orig, lit, k + 1) == f.0 + Width(orig, f.0)
  {
    hide Starts, Body, End, Trampoline, Holds, FragLen, Follows, FragAt, Wide;
    f := Starts(target, orig, 0, 0, lit)[k];
    FragmentPlace(m, base, target, orig, lit, k);
  }

  /** The original's step is `Original`. */
  lemma OriginalSteps(m0: Code, target: Word, orig: seq<Half>, pos: nat, c: Cpu)
    requires Holds(m0, target, orig) && Whole(orig, pos) && WellFormed(c) && c.thumb && c.pc == Add32(target, 2 * pos)
    ensures Step(m0, c) == Original(m0, c, orig, pos)
  {
    hide Step16, Step32;
    HoldsAt(m0, target, orig, pos);
    SmallSum(target, 2 * pos);
    if Wide(orig[pos]) {
      HoldsAt(m0, target, orig, pos + 1);
      SmallSum(target + 2 * pos, 2);
    }
  }

  lemma StandsTwin(d: Cpu, e: Cpu, loss: Loss, dead: set<Word>, end: int, sp: Word)
    requires |d.regs| == 16 && 0 <= end && end + 1 < 0x1_0000_0000 && !loss.BelowAnd?
    requires Stands(Landing(d, false, false, end), e, loss, dead) && (loss.Below? ==> d.regs[13] == sp)
    ensures e.pc == end && Twin(d, e, dead + if loss.Below? then {Add32(sp, -4)} else {})
  {
    hide Add32, AddPasses;
    assert dead + {} == dead;
  }

  /** One instruction on the straight line. */
  lemma OneFalls(m0: Code, m: Code, base: Word, target: Word, orig: seq<Half>, lit: Word -> Word, c: Cpu, e: Cpu,
      k: nat, dead: set<Word>) returns (n: nat, c1: Cpu, e1: Cpu)
    requires Both(m0, m, base, target, orig, lit) && Ready(m0, m, target, orig, lit, c, k, dead)
    requires Twin(c, e, dead) && e.pc == Place(base, target, orig, lit, k)
    requires var pos := PosOf(target, orig, lit, k);
      !Exits(c, orig, pos) && !CallsAt(orig, pos) && Original(m0, c, orig, pos).Some?
    ensures var pos := PosOf(target, orig, lit, k);
      && Step(m0, c) == Some(c1) == Original(m0, c, orig, pos) && Run(m, e, n) == Some(e1)
      && Twin(c1, e1, DeadAfter(c, orig, pos, dead)) && e1.pc == Place(base, target, orig, lit, k + 1)
      && c1.pc == Add32(target, 2 * PosOf(target, orig, lit, k + 1))
  {
    hide Follows, Exits, CallsAt, Original, DeadBefore, LossOf, PosOf, Place, Starts, End, Both, Twin, Stands, Landing;
    hide Add32, Step, Setting, Run;
    var pos := PosOf(target, orig, lit, k);
    var f := SomeFragment(m0, m, base, target, orig, lit, c, k, dead);
    c1 := Original(m0, c, orig, pos).value;
    n, e1 := WindowStep(m0, m, base, target, orig, lit, k, f, c, e, dead);
    Falls(m0, m, c, orig, pos, lit, dead);
    var end := EndOf(base, target, orig, lit, f);
    StandsTwin(c1, e1, LossOf(orig, pos), DeadBefore(c, orig, pos, dead), end, c.regs[13]);
    NextAddress(target, pos, Width(orig, pos));
    StepOfBoth(m0, m, base, target, orig, lit, pos, c);
  }

  /** As long as the original stays on the straight line, the trampoline arrives at the fragment of the instruction the
      original is at, with the same registers and flags. */
  lemma {:induction false} RunsThrough(m0: Code, m: Code, base: Word, target: Word, orig: seq<Half>, lit: Word -> Word,
      c: Cpu, e: Cpu, k: nat, dead: set<Word>, j: nat) returns (n: nat, d: Cpu, e1: Cpu)
    requires Both(m0, m, base, target, orig, lit) && Inside(m0, m, target, orig, lit, c, k, dead, j)
    requires Twin(c, e, dead) && e.pc == Place(base, target, orig, lit, k)
    requires c.pc == Add32(target, 2 * PosOf(target, orig, lit, k))
    ensures Run(m0, c, j) == Some(d) && Run(m, e, n) == Some(e1)
    ensures Twin(d, e1, DeadThrough(m0, m, target, orig, lit, c, k, dead, j))
    ensures e1.pc == Place(base, target, orig, lit, k + j) && d.pc == Add32(target, 2 * PosOf(target, orig, lit, k + j))
    decreases j
  {
    hide Follows, Exits, CallsAt, Original, DeadAfter, PosOf, Place, Starts, End, Both, Twin, Add32, Step, Run;
    if j == 0 {
      n, d, e1 := 0, c, e;
      RunNone(m0, c);
      RunNone(m, e);
    } else {
      var n1, c1, e' := OneFalls(m0, m, base, target, orig, lit, c, e, k, dead);
      var dead' := DeadAfter(c, orig, PosOf(target, orig, lit, k), dead);
      var n2;
      n2, d, e1 := RunsThrough(m0, m, base, target, orig, lit, c1, e', k + 1, dead', j - 1);
      n := n1 + n2;
      RunThen(m0, c, c1, j - 1);
      RunsOn(m, e, n1, e', n2);
    }
  }

  lemma StepOfBoth(m0: Code, m: Code, base: Word, target: Word, orig: seq<Half>, lit: Word -> Word, pos: nat, c: Cpu)
    requires Both(m0, m, base, target, orig, lit) && Whole(orig, pos)
    requires WellFormed(c) && c.thumb && c.pc == Add32(target, 2 * pos)
    ensures Step(m0, c) == Original(m0, c, orig, pos)
  {
    hide Step, Original, Holds, Trampoline;
    OriginalSteps(m0, target, orig, pos, c);
  }

  lemma EntryPlace(base: Word, target: Word, orig: seq<Half>, lit: Word -> Word)
    requires orig != []
    ensures Place(base, target, orig, lit, 0) == base && PosOf(target, orig, lit, 0) == 0
  {
    hide FragAt, Body, End, Wide;
    OneStep(target, orig, 0, 0, lit);
    EndBeyond(orig, 0);
  }

  lemma TwinOfItself(c: Cpu, base: Word)
    ensures Twin(c, Moved(c, base), {})
  {
  }

  /** Entered at its first word, the trampoline follows the original instruction by instruction, to the last one that it
      can follow: a branch, a call or a jump out of the window may end the run. */
  lemma TrampolineRuns(m0: Code, m: Code, base: Word, target: Word, orig: seq<Half>, lit: Word -> Word, c: Cpu, j: nat,
      d: Cpu) returns (n: nat, e: Cpu)
    requires Both(m0, m, base, target, orig, lit) && c.pc == target
    requires Inside(m0, m, target, orig, lit, c, 0, {}, j) && Run(m0, c, j) == Some(d)
    requires Ready(m0, m, target, orig, lit, d, j, DeadThrough(m0, m, target, orig, lit, c, 0, {}, j))
    ensures Run(m, Moved(c, base), n) == Some(e)
    ensures var pos, end := PosOf(target, orig, lit, j), Place(base, target, orig, lit, j + 1);
      var o := Original(m0, d, orig, pos);
      && Step(m0, d) == o && o.Some? && |o.value.regs| == 16 && 0 <= end && end + 1 < 0x1_0000_0000
      && Stands(Landing(o.value, Exits(d, orig, pos), CallsAt(orig, pos), end), e, LossOf(orig, pos),
                DeadBefore(d, orig, pos, DeadThrough(m0, m, target, orig, lit, c, 0, {}, j)))
  {
    hide Follows, Exits, CallsAt, Original, DeadBefore, LossOf, PosOf, Place, Starts, End, Both, Twin, Stands, Landing;
    hide Add32, Step, Setting, Inside;
    EntryPlace(base, target, orig, lit);
    TwinOfItself(c, base);
    AtTarget(target);
    var n1, d1, e1 := RunsThrough(m0, m, base, target, orig, lit, c, Moved(c, base), 0, {}, j);
    var dead, pos := DeadThrough(m0, m, target, orig, lit, c, 0, {}, j), PosOf(target, orig, lit, j);
    var f := SomeFragment(m0, m, base, target, orig, lit, d, j, dead);
    var n2;
    n2, e := WindowStep(m0, m, base, target, orig, lit, j, f, d, e1, dead);
    StepOfBoth(m0, m, base, target, orig, lit, pos, d);
    n := n1 + n2;
    RunsOn(m, Moved(c, base), n1, e1, n2);
  }

  lemma AtTarget(target: Word)
    ensures Add32(target, 2 * 0) == target
  {
  }

  /** The trampoline is a callable copy of the window: when the original runs through all its relocated instructions,
      the trampoline arrives where the original does, with the same registers, flags and live stack. */
  lemma TrampolineReturns(m0: Code, m: Code, base: Word, target: Word, orig: seq<Half>, lit: Word -> Word, c: Cpu,
      j: nat, d: Cpu) returns (n: nat, e: Cpu)
    requires Both(m0, m, base, target, orig, lit) && c.pc == target
    requires Inside(m0, m, target, orig, lit, c, 0, {}, j) && Run(m0, c, j) == Some(d)
    requires PosOf(target, orig, lit, j) == End(orig, 0) && WellFormed(d) && d.thumb
    ensures Run(m, Moved(c, base), n) == Some(e) && e.pc == d.pc == Add32(target, 2 * End(orig, 0))
    ensures Twin(d, e, DeadThrough(m0, m, target, orig, lit, c, 0, {}, j))
  {
    hide PosOf, Place, Starts, End, Body, Both, Twin, Add32, Step, Run, Inside, DeadThrough, WellFormed;
    BothFacts(m0, m, base, target, orig, lit);
    EntryPlace(base, target, orig, lit);
    TwinOfItself(c, base);
    AtTarget(target);
    var n1, d1, e1 := RunsThrough(m0, m, base, target, orig, lit, c, Moved(c, base), 0, {}, j);
    BackPlace(m0, m, base, target, orig, lit, j);
    TwinShape(d, e1, DeadThrough(m0, m, target, orig, lit, c, 0, {}, j), target, orig, lit, base);
    JumpOfBoth(m0, m, base, target, orig, lit, e1);
    n, e := n1 + 1, Goto(e1, Add32(target, End(orig, 0) * 2));
    TwinMoved(d, e1, DeadThrough(m0, m, target, orig, lit, c, 0, {}, j), e.pc);
    RunsOn(m, Moved(c, base), n1, e1, 1);
  }

  lemma BackPlace(m0: Code, m: Code, base: Word, target: Word, orig: seq<Half>, lit: Word -> Word, j: nat)
    requires Both(m0, m, base, target, orig, lit) && PosOf(target, orig, lit, j) == End(orig, 0)
    ensures Place(base, target, orig, lit, j) == base + 2 * |Body(target, orig, 0, lit)|
  {
    hide Starts, Body, End, Holds, Trampoline;
  }

  lemma TwinShape(d: Cpu, e: Cpu, dead: set<Word>, target: Word, orig: seq<Half>, lit: Word -> Word, base: Word)
    requires Twin(d, e, dead) && WellFormed(d) && d.thumb && orig != [] && base % 4 == 0
    requires e.pc == base + 2 * |Body(target, orig, 0, lit)|
    ensures WellFormed(e) && e.thumb
  {
    hide Body;
    EvenAgain(base, |Body(target, orig, 0, lit)|);
  }

  lemma BothFacts(m0: Code, m: Code, base: Word, target: Word, orig: seq<Half>, lit: Word -> Word)
    requires Both(m0, m, base, target, orig, lit)
    ensures orig != [] && base % 4 == 0
  {
    hide Holds, Trampoline;
  }

  lemma TwinMoved(d: Cpu, e: Cpu, dead: set<Word>, a: Word)
    requires Twin(d, e, dead)
    ensures Twin(d, Goto(e, a), dead)
  {
  }

  lemma JumpOfBoth(m0: Code, m: Code, base: Word, target: Word, orig: seq<Half>, lit: Word -> Word, e: Cpu)
    requires Both(m0, m, base, target, orig, lit) && WellFormed(e) && e.thumb
    requires e.pc == base + 2 * |Body(target, orig, 0, lit)|
    ensures Run(m, e, 1) == Some(Goto(e, Add32(target, End(orig, 0) * 2)))
  {
    hide Body, End, Run, Holds, Trampoline, Add32;
    JumpsBack(m, base, target, orig, lit, e);
  }
}

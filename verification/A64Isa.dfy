/** The AArch64 instructions the inline hook decodes or emits, with a small-step meaning.
    Encodings and meanings are those of section C6.2 of the Arm Architecture Reference Manual (DDI 0487).
    Instructions that do not read the program counter are left abstract, as parts of a `Cpu`. */
module A64Isa {
  import opened Words

  const TWO32 := 0x1_0000_0000
  const TWO64 := 0x1_0000_0000_0000_0000

  const NOP: Word := 0xd503_201f

  /** Offsets of branches and literal loads are in words, those of ADR in bytes, those of ADRP in pages.
      The `test` of a conditional branch is its encoding with the offset field cleared. */
  datatype Insn =
    | B(off: int)
    | Bl(off: int)
    | CondBr(test: Word, off: int)
    | LdrLit(op: nat, rt: nat, off: int)
    | Prefetch
    | Adr(rd: nat, disp: int)
    | Adrp(rd: nat, pages: int)
    | Br(rn: nat)
    | Blr(rn: nat)
    | Nop
    | Plain(w: Word)

  function Top(w: Word): nat { w / 0x100_0000 }
  function Imm19(w: Word): nat { (w / 32) % 0x8_0000 }
  function Imm14(w: Word): nat { (w / 32) % 0x4000 }
  function Low5(w: Word): nat { w % 32 }
  function ImmLo(w: Word): nat { (Top(w) / 32) % 4 }

  predicate IsB(w: Word) { w / 0x400_0000 == 5 }
  predicate IsBl(w: Word) { w / 0x400_0000 == 0x25 }
  predicate IsCond19(w: Word) {
    (Top(w) == 0x54 && (w / 16) % 2 == 0) || Top(w) in {0x34, 0xb4, 0x35, 0xb5}
  }
  predicate IsTest14(w: Word) { Top(w) in {0x36, 0xb6, 0x37, 0xb7} }
  predicate IsCond(w: Word) { IsCond19(w) || IsTest14(w) }
  predicate IsPrefetch(w: Word) { Top(w) == 0xd8 }
  /** LDR Wt/Xt, LDR St/Dt/Qt (the source also takes the unallocated 0xdc for one) and LDRSW. */
  predicate IsLit(w: Word) { Top(w) in {0x18, 0x58, 0x1c, 0x5c, 0x9c, 0xdc, 0x98} }
  predicate IsAdr(w: Word) { Top(w) in {0x10, 0x30, 0x50, 0x70} }
  predicate IsAdrp(w: Word) { Top(w) in {0x90, 0xb0, 0xd0, 0xf0} }
  predicate IsPcRelative(w: Word) {
    IsB(w) || IsBl(w) || IsCond(w) || IsPrefetch(w) || IsLit(w) || IsAdr(w) || IsAdrp(w)
  }

  /** The instruction classes do not overlap. */
  lemma KindsDisjoint(w: Word)
    ensures IsB(w) ==> !IsBl(w)
    ensures IsB(w) || IsBl(w) ==> !IsCond(w) && !IsPrefetch(w) && !IsLit(w) && !IsAdr(w) && !IsAdrp(w)
    ensures IsCond19(w) ==> !IsTest14(w)
    ensures IsCond(w) ==> !IsPrefetch(w) && !IsLit(w) && !IsAdr(w) && !IsAdrp(w)
    ensures IsPrefetch(w) ==> !IsLit(w) && !IsAdr(w) && !IsAdrp(w)
    ensures IsLit(w) ==> !IsAdr(w) && !IsAdrp(w)
    ensures IsAdr(w) ==> !IsAdrp(w)
    ensures IsPcRelative(w) ==> w != NOP
  {
    assert w / 0x400_0000 == Top(w) / 4;
  }

  function Imm21(w: Word): nat { Imm19(w) * 4 + ImmLo(w) }

  function Decode(w: Word): Insn {
    if IsB(w) then B(Signed(w % 0x400_0000, 0x200_0000))
    else if IsBl(w) then Bl(Signed(w % 0x400_0000, 0x200_0000))
    else if IsCond19(w) then CondBr(w - 32 * Imm19(w), Signed(Imm19(w), 0x4_0000))
    else if IsTest14(w) then CondBr(w - 32 * Imm14(w), Signed(Imm14(w), 0x2000))
    else if IsPrefetch(w) then Prefetch
    else if IsLit(w) then LdrLit(Top(w), Low5(w), Signed(Imm19(w), 0x4_0000))
    else if IsAdr(w) then Adr(Low5(w), Signed(Imm21(w), 0x10_0000))
    else if IsAdrp(w) then Adrp(Low5(w), Signed(Imm21(w), 0x10_0000))
    else if w == NOP then Nop
    else if w / 1024 == 0x35_87c0 && w % 32 == 0 then Br((w / 32) % 32)
    else if w / 1024 == 0x35_8fc0 && w % 32 == 0 then Blr((w / 32) % 32)
    else Plain(w)
  }

  /** General registers X0..X30 and everything else (flags, SP, vector registers, memory). */
  datatype Regs<R> = Regs(x: seq<int>, rest: R)

  datatype State<R> = State(pc: int, r: Regs<R>)

  /** What position-independent instructions do: the truth of a branch test, the effect of a literal load
      on given data words, and the effect of any other instruction, which may also jump (RET). */
  datatype Cpu<!R> = Cpu(
    taken: (Word, Regs<R>) -> bool,
    load: (nat, nat, seq<Word>, Regs<R>) -> Regs<R>,
    exec: (Word, Regs<R>) -> (Regs<R>, Option<int>))

  function SetX<R>(r: Regs<R>, rd: nat, v: int): (r': Regs<R>)
    ensures |r'.x| == |r.x| && r'.rest == r.rest
  {
    if rd < |r.x| then r.(x := r.x[rd := v]) else r
  }

  function GetX<R>(r: Regs<R>, rn: nat): int {
    if rn < |r.x| then r.x[rn] else 0
  }

  function Wrap(a: int): (w: int)
    ensures 0 <= w < TWO64
  {
    a % TWO64
  }

  function Page(a: int): int { a - a % 4096 }

  type Memory = int -> Word

  /** Words read by a literal load; LDRSW reads one. */
  function LitWords(op: nat): nat {
    if op == 0x9c then 4 else if op in {0x58, 0x5c, 0xdc} then 2 else 1
  }

  function Data(mem: Memory, a: int, n: nat): (d: seq<Word>)
    ensures |d| == n && forall k :: 0 <= k < n ==> d[k] == mem(a + 4 * k)
  {
    seq(n, k => mem(a + 4 * k))
  }

  function LoadLit<R>(cpu: Cpu<R>, op: nat, rt: nat, d: seq<Word>, r: Regs<R>): Regs<R>
    requires |d| == LitWords(op)
  {
    if op == 0x58 then SetX(r, rt, d[0] + TWO32 * d[1]) else cpu.load(op, rt, d, r)
  }

  function Step<R>(cpu: Cpu<R>, mem: Memory, s: State<R>): State<R> {
    match Decode(mem(s.pc))
    case B(off) => s.(pc := Wrap(s.pc + 4 * off))
    case Bl(off) => State(Wrap(s.pc + 4 * off), SetX(s.r, 30, Wrap(s.pc + 4)))
    case CondBr(test, off) => if cpu.taken(test, s.r) then s.(pc := Wrap(s.pc + 4 * off)) else s.(pc := s.pc + 4)
    case LdrLit(op, rt, off) =>
      State(s.pc + 4, LoadLit(cpu, op, rt, Data(mem, Wrap(s.pc + 4 * off), LitWords(op)), s.r))
    case Prefetch => s.(pc := s.pc + 4)
    case Adr(rd, disp) => State(s.pc + 4, SetX(s.r, rd, Wrap(s.pc + disp)))
    case Adrp(rd, pages) => State(s.pc + 4, SetX(s.r, rd, Wrap(Page(s.pc) + 4096 * pages)))
    case Br(rn) => s.(pc := GetX(s.r, rn))
    case Blr(rn) => State(GetX(s.r, rn), SetX(s.r, 30, Wrap(s.pc + 4)))
    case Nop => s.(pc := s.pc + 4)
    case Plain(w) =>
      var (r', jump) := cpu.exec(w, s.r);
      State(if jump.Some? then jump.value else s.pc + 4, r')
  }

  function Run<R>(cpu: Cpu<R>, mem: Memory, s: State<R>, steps: nat): State<R>
    decreases steps
  {
    if steps == 0 then s else Run(cpu, mem, Step(cpu, mem, s), steps - 1)
  }

  lemma {:induction false} RunAppend<R>(cpu: Cpu<R>, mem: Memory, s: State<R>, m: nat, n: nat)
    ensures Run(cpu, mem, s, m + n) == Run(cpu, mem, Run(cpu, mem, s, m), n)
    decreases m
  {
    if m != 0 { RunAppend(cpu, mem, Step(cpu, mem, s), m - 1, n); }
  }

  // ----- what the emitted encodings decode to -----

  lemma DecodeB(off: int)
    requires -0x200_0000 <= off < 0x200_0000
    ensures 0x1400_0000 + off % 0x400_0000 < TWO32 && Decode(0x1400_0000 + off % 0x400_0000) == B(off)
  {
    var w := 0x1400_0000 + off % 0x400_0000;
    assert w / 0x400_0000 == 5 && w % 0x400_0000 == off % 0x400_0000;
  }

  lemma DecodeBl(off: int)
    requires -0x200_0000 <= off < 0x200_0000
    ensures 0x9400_0000 + off % 0x400_0000 < TWO32 && Decode(0x9400_0000 + off % 0x400_0000) == Bl(off)
  {
    var w := 0x9400_0000 + off % 0x400_0000;
    assert w / 0x400_0000 == 0x25 && w % 0x400_0000 == off % 0x400_0000;
  }

  lemma Fields19(h: nat, v: nat, l: nat)
    requires h < 256 && v < 0x8_0000 && l < 32
    ensures var w: Word := 0x100_0000 * h + 32 * v + l;
            Top(w) == h && Imm19(w) == v && Low5(w) == l
  {
    var w: Word := 0x100_0000 * h + 32 * v + l;
    assert w / 32 == 0x8_0000 * h + v;
  }

  /** Replacing the 19-bit field keeps every other field. */
  lemma Replace19(w: Word, v: nat)
    requires v < 0x8_0000
    ensures 0 <= w - 32 * Imm19(w) + 32 * v < TWO32
    ensures var w': Word := w - 32 * Imm19(w) + 32 * v;
            Top(w') == Top(w) && Low5(w') == Low5(w) && Imm19(w') == v && (w' / 16) % 2 == (w / 16) % 2
            && w' - 32 * Imm19(w') == w - 32 * Imm19(w)
  {
    var h, q := Top(w), w / 32;
    assert h < 256 && q == 0x8_0000 * h + Imm19(w) && w == 32 * q + Low5(w) by {
      assert q / 0x8_0000 == h;
    }
    Fields19(h, v, Low5(w));
    LowBit(q, Low5(w));
    LowBit(0x8_0000 * h + v, Low5(w));
  }

  lemma LowBit(q: nat, l: nat)
    requires l < 32
    ensures ((32 * q + l) / 16) % 2 == l / 16
  {
    assert (32 * q + l) / 16 == 2 * q + l / 16;
  }

  lemma Replace14(w: Word, v: nat)
    requires v < 0x4000
    ensures 0 <= w - 32 * Imm14(w) + 32 * v < TWO32
    ensures var w': Word := w - 32 * Imm14(w) + 32 * v;
            Top(w') == Top(w) && Imm14(w') == v && w' - 32 * Imm14(w') == w - 32 * Imm14(w)
  {
    var h, q := w / 0x8_0000, w / 32;
    assert q == 0x4000 * h + Imm14(w) && w == 32 * q + w % 32 by { assert q / 0x4000 == h; }
    var w' := w - 32 * Imm14(w) + 32 * v;
    assert w' == 0x8_0000 * h + 32 * v + w % 32;
    assert w' / 32 == 0x4000 * h + v;
    assert w' / 0x8_0000 == h;
    assert Top(w) == h / 32 && w' / 0x100_0000 == h / 32;
  }

  lemma DecodeCond19(w: Word, off: int)
    requires IsCond19(w) && -0x4_0000 <= off < 0x4_0000
    ensures 0 <= w - 32 * Imm19(w) + 32 * (off % 0x8_0000) < TWO32
    ensures Decode(w - 32 * Imm19(w) + 32 * (off % 0x8_0000)) == CondBr(w - 32 * Imm19(w), off)
  {
    Replace19(w, off % 0x8_0000);
  }

  lemma DecodeTest14(w: Word, off: int)
    requires IsTest14(w) && -0x2000 <= off < 0x2000
    ensures 0 <= w - 32 * Imm14(w) + 32 * (off % 0x4000) < TWO32
    ensures Decode(w - 32 * Imm14(w) + 32 * (off % 0x4000)) == CondBr(w - 32 * Imm14(w), off)
  {
    Replace14(w, off % 0x4000);
  }

  lemma DecodeLit(w: Word, off: int)
    requires IsLit(w) && -0x4_0000 <= off < 0x4_0000
    ensures 0 <= w - 32 * Imm19(w) + 32 * (off % 0x8_0000) < TWO32
    ensures Decode(w - 32 * Imm19(w) + 32 * (off % 0x8_0000)) == LdrLit(Top(w), Low5(w), off)
  {
    Replace19(w, off % 0x8_0000);
  }

  /** Replacing the high part of an ADR offset keeps its two low bits. */
  lemma DecodeAdr(w: Word, disp: int)
    requires IsAdr(w) && -0x10_0000 <= disp < 0x10_0000 && disp % 4 == ImmLo(w)
    ensures 0 <= w - 32 * Imm19(w) + 32 * ((disp / 4) % 0x8_0000) < TWO32
    ensures Decode(w - 32 * Imm19(w) + 32 * ((disp / 4) % 0x8_0000)) == Adr(Low5(w), disp)
  {
    var v := (disp / 4) % 0x8_0000;
    Replace19(w, v);
    assert Signed(v * 4 + disp % 4, 0x10_0000) == disp;
  }
}

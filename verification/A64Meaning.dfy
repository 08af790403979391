/** Relocation preserves meaning: one original step and the run of its fragment agree, and so do whole runs. */
module A64Meaning {
  import opened Words
  import opened A64Isa
  import opened A64Layout
  import opened A64Relocator

  // ----- the two encodings that merge overlapping fields -----

  /** Opcode byte of a rebased literal load: with a negative distance the field mask sets the size bits. */
  function RebasedTop(top: nat, off: int): nat {
    if off >= 0 || top == 0x98 then top else if top in {0x18, 0x58} then 0x58 else 0xdc
  }

  lemma MaskedTop(top: nat, off: int)
    requires top in {0x18, 0x58, 0x1c, 0x5c, 0x9c, 0xdc, 0x98}
    ensures var m := if top in {0x18, 0x58} then 0x40 else if top == 0x98 then 0 else 0xc0;
            BitOr(top, if off >= 0 then 0 else m) == RebasedTop(top, off)
  {
    hide BitOr;
    if off >= 0 || top == 0x98 {
      BitOrZero(top);
    } else if top in {0x18, 0x58} {
      GeneralTop(top);
    } else {
      VectorTop(top);
    }
  }

  lemma OrThree(q: nat)
    requires q < 4
    ensures BitOr(q, 3) == 3
  {
    assert BitOr(q / 2, 1) == 1;
  }

  lemma ShlOne(a: nat)
    ensures Shl(a, 1) == 2 * a
  {
  }

  lemma OrOne(q: nat)
    requires q < 2
    ensures BitOr(q, 1) == 1
  {
  }

  lemma GeneralTop(top: nat)
    requires top in {0x18, 0x58}
    ensures BitOr(top, 0x40) == 0x58
  {
    hide Shl, BitOr;
    var q := top / 64;
    OrOne(q);
    assert Shl(1, 6) == 64 by { ShlValues(); ShlShl(1, 5, 1); ShlOne(32); }
    ShlLinear(q, 6);
    BitOrSplit(q, 0x18, 1, 0, 6);
    BitOrZero(0x18);
  }

  lemma VectorTop(top: nat)
    requires top in {0x1c, 0x5c, 0x9c, 0xdc}
    ensures BitOr(top, 0xc0) == 0xdc
  {
    hide Shl, BitOr;
    var q := top / 64;
    OrThree(q);
    assert Shl(1, 6) == 64 by { ShlValues(); ShlShl(1, 5, 1); ShlOne(32); }
    ShlLinear(q, 6);
    ShlLinear(3, 6);
    BitOrSplit(q, 0x1c, 3, 0, 6);
    BitOrZero(0x1c);
  }

  /** A rebased literal load reads the intended address, but is the intended load exactly when its
      opcode byte survives: the distance is not negative, or the load is LDR Xt or LDRSW. */
  lemma NearLitDecodes(w: Word, off: int)
    requires IsLit(w) && -0x4_0000 <= off < 0x4_0000
    ensures Decode(NearLitWord(w, off)) == LdrLit(RebasedTop(Top(w), off), Low5(w), off)
    ensures RebasedTop(Top(w), off) == Top(w) <==> off >= 0 || Top(w) in {0x58, 0x98, 0xdc}
  {
    hide NearLitWord, BitOr, BitAnd;
    var f := off % 0x8_0000;
    MaskedTop(Top(w), off);
    var top := RebasedTop(Top(w), off);
    var merged := NearLitMerge(w, off, f);
    Fields19(top, f, Low5(w));
    hide Decode, Imm19;
    KindOfTop(merged, top);
  }

  lemma KindOfTop(w: Word, top: nat)
    requires Top(w) == top && top in {0x18, 0x58, 0x1c, 0x5c, 0x9c, 0xdc, 0x98}
    ensures IsLit(w) && Decode(w) == LdrLit(top, Low5(w), Signed(Imm19(w), 0x4_0000))
  {
  }

  /** Masking a shifted word offset keeps its 19 bits and, when it is negative, the mask's high byte. */
  lemma MaskedOffset(off: int, m: nat)
    requires -0x4_0000 <= off < 0x4_0000 && m < 0x100
    ensures BitAnd((off * 32) % TWO32, 0x100_0000 * m + 0xff_ffff)
         == 0x100_0000 * (if off >= 0 then 0 else m) + 32 * (off % 0x8_0000)
  {
    hide BitAnd, Shl;
    var f, hi := off % 0x8_0000, if off >= 0 then 0 else 0xff;
    assert (off * 32) % TWO32 == 0x100_0000 * hi + 32 * f;
    ShlValues();
    ShlLinear(hi, 24);
    ShlLinear(m, 24);
    BitAndSplit(hi, 32 * f, m, 0xff_ffff, 24);
    BitAndOnes(32 * f, 24);
    BitAndOnes(m, 8);
    BitAndComm(hi, m);
    BitAndZero(m);
    ShlLinear(BitAnd(hi, m), 24);
  }

  /** OR of two words whose 19-bit fields do not both hold bits. */
  lemma MergeFields(top: nat, low: nat, x: nat, f: nat, l: nat)
    requires low < 32 && l < 32 && f < 0x8_0000
    ensures BitOr(0x100_0000 * top + low, 0x100_0000 * x + 32 * f + l)
         == 0x100_0000 * BitOr(top, x) + 32 * f + BitOr(low, l)
  {
    hide BitOr, Shl;
    ShlValues();
    ShlLinear(top, 24);
    ShlLinear(x, 24);
    ShlLinear(BitOr(top, x), 24);
    BitOrSplit(top, low, x, 32 * f + l, 24);
    ShlLinear(f, 5);
    ShlZero(5);
    BitOrSplit(0, low, f, l, 5);
    ZeroBitOr(f);
  }

  lemma ClearedImm19(w: Word)
    ensures w - 32 * Imm19(w) == 0x100_0000 * Top(w) + Low5(w)
  {
    assert (w / 32) / 0x8_0000 == Top(w);
  }

  lemma NearLitMerge(w: Word, off: int, f: nat) returns (merged: Word)
    requires -0x4_0000 <= off < 0x4_0000 && f == off % 0x8_0000
    ensures merged == NearLitWord(w, off)
    ensures var m := if Top(w) in {0x18, 0x58} then 0x40 else if Top(w) == 0x98 then 0 else 0xc0;
            merged == 0x100_0000 * BitOr(Top(w), if off >= 0 then 0 else m) + 32 * f + Low5(w)
  {
    hide BitOr, BitAnd;
    var m := if Top(w) in {0x18, 0x58} then 0x40 else if Top(w) == 0x98 then 0 else 0xc0;
    merged := NearLitWord(w, off);
    ClearedImm19(w);
    MaskedOffset(off, m);
    hide Imm19, Top, Low5;
    MergeFields(Top(w), Low5(w), if off >= 0 then 0 else m, f, 0);
    BitOrZero(Low5(w));
  }

  /** A rebased ADR computes the intended address into the register whose number is the intended one ORed
      with the low address bits; it is the intended ADR exactly when those bits are already set there. */
  lemma NearAdrDecodes(w: Word, disp: int)
    requires IsAdr(w) && -0x10_0000 <= disp < 0x10_0000 && disp % 4 == ImmLo(w)
    ensures Decode(NearAdrWord(w, disp)) == Adr(BitOr(Low5(w), 8 * ImmLo(w)), disp)
  {
    hide BitOr, IsAdr, NearAdrWord, Decode;
    var f, merged := (disp / 4) % 0x8_0000, NearAdrWord(w, disp);
    var rd := NearAdrMerge(w, disp);
    Fields19(Top(w), f, rd);
    AdrOfTop(w, merged);
    hide Imm19, ImmLo, Top, Low5;
    SignedDisp(disp);
  }

  lemma SignedDisp(disp: int)
    requires -0x10_0000 <= disp < 0x10_0000
    ensures Signed((disp / 4) % 0x8_0000 * 4 + disp % 4, 0x10_0000) == disp
  {
    var q := disp / 4;
    assert disp == 4 * q + disp % 4 && -0x4_0000 <= q < 0x4_0000;
    assert q % 0x8_0000 == if q >= 0 then q else q + 0x8_0000;
  }

  /** LDR W0 rebased to a literal before it loads X0 instead; ADR X0 to an odd address rebased computes X8. */
  lemma NearFormsGoWrong(off: int, disp: int)
    requires -0x4_0000 <= off < 0 && -0x10_0000 <= disp < 0x10_0000 && disp % 4 == 1
    ensures Decode(0x1800_0000) == LdrLit(0x18, 0, 0) && Decode(NearLitWord(0x1800_0000, off)) == LdrLit(0x58, 0, off)
    ensures Decode(0x3000_0000) == Adr(0, 1) && Decode(NearAdrWord(0x3000_0000, disp)) == Adr(8, disp)
  {
    LdrSample();
    AdrSample();
    hide NearLitWord, NearAdrWord, BitOr, Decode, IsLit, IsAdr, Top, Low5, ImmLo;
    NearLitDecodes(0x1800_0000, off);
    NearAdrDecodes(0x3000_0000, disp);
    ZeroBitOr(8);
  }

  lemma LdrSample()
    ensures var w := 0x1800_0000; IsLit(w) && Top(w) == 0x18 && Low5(w) == 0 && Decode(w) == LdrLit(0x18, 0, 0)
  {
    assert Top(0x1800_0000) == 0x18 && Low5(0x1800_0000) == 0 && Imm19(0x1800_0000) == 0;
    KindOfTop(0x1800_0000, 0x18);
  }

  lemma AdrSample()
    ensures var w := 0x3000_0000; IsAdr(w) && ImmLo(w) == 1 && Low5(w) == 0 && Decode(w) == Adr(0, 1)
  {
    assert Top(0x3000_0000) == 0x30 && Imm19(0x3000_0000) == 0;
    AdrOfTop(0x3000_0000, 0x3000_0000);
  }

  lemma NearAdrMerge(w: Word, disp: int) returns (rd: nat)
    requires disp % 4 == ImmLo(w)
    ensures rd == BitOr(Low5(w), 8 * ImmLo(w)) && rd < 32
    ensures NearAdrWord(w, disp) == 0x100_0000 * Top(w) + 32 * ((disp / 4) % 0x8_0000) + rd
  {
    hide BitOr, Shl;
    rd := BitOr(Low5(w), 8 * ImmLo(w));
    ShiftedDisp(disp);
    ClearedImm19(w);
    ShlValues();
    BitOrBound(Low5(w), 8 * ImmLo(w), 5);
    BitOrZero(Top(w));
    var f, lo := (disp / 4) % 0x8_0000, ImmLo(w);
    assert NearAdrWord(w, disp) == BitOr(0x100_0000 * Top(w) + Low5(w), 0x100_0000 * 0 + 32 * f + 8 * lo);
    MergeFields(Top(w), Low5(w), 0, f, 8 * lo);
  }

  lemma ShiftedDisp(disp: int)
    ensures (disp * 8) % 0x100_0000 == 32 * ((disp / 4) % 0x8_0000) + 8 * (disp % 4)
  {
    var q := (disp / 4) / 0x8_0000;
    assert disp == 4 * (0x8_0000 * q + (disp / 4) % 0x8_0000) + disp % 4;
  }

  lemma AdrOfTop(w: Word, w': Word)
    requires IsAdr(w) && Top(w') == Top(w)
    ensures Decode(w') == Adr(Low5(w'), Signed(Imm21(w'), 0x10_0000)) && ImmLo(w') == ImmLo(w)
  {
  }

  // ----- the hooked memory -----

  /** Memory after hooking: the trampoline holds `code`, the window holds anything (the hook stub), and
      everything else is as it was. */
  ghost predicate Installed(W: Window, code: seq<Word>, after: Memory) {
    && (forall a: int :: W.out <= a < W.out + 4 * |code| && a % 4 == 0 ==> after(a) == code[(a - W.out) / 4])
    && (forall a: int :: !W.Contains(a) && !(W.out <= a < W.out + 4 * |code|) ==> after(a) == W.mem(a))
  }

  lemma FetchFragment(W: Window, code: seq<Word>, after: Memory, i: nat, t: nat)
    requires WellPlaced(W) && Assembled(W, code) && Installed(W, code, after)
    requires i < W.n && t < |Frag(W, i, W.n)|
    ensures after(Start(W, i) + 4 * t) == Frag(W, i, W.n)[t]
  {
    hide ShapeOf, Nops, BodyLen, Frag, FragLen, Tail, WellPlaced, Installed;
    StartBounds(W, i);
    assert FragAt(W, code, i, W.n);
    var p := Pos(W, i);
    assert code[p..p + |Frag(W, i, W.n)|][t] == code[p + t];
    FetchWord(W, code, after, p + t);
  }

  lemma FetchWord(W: Window, code: seq<Word>, after: Memory, k: nat)
    requires W.out % 4 == 0 && Installed(W, code, after) && k < |code|
    ensures after(W.out + 4 * k) == code[k]
  {
    var a := W.out + 4 * k;
    assert a % 4 == 0 && (a - W.out) / 4 == k;
  }

  lemma FetchTail(W: Window, code: seq<Word>, after: Memory, t: nat)
    requires WellPlaced(W) && Assembled(W, code) && Installed(W, code, after) && t < |Tail(W)|
    ensures after(Start(W, W.n) + 4 * t) == Tail(W)[t]
  {
    hide ShapeOf, Nops, BodyLen, Frag, FragLen, Tail, Installed;
    StartBounds(W, W.n);
    var p := Pos(W, W.n);
    assert code[p..][t] == code[p + t];
    FetchWord(W, code, after, p + t);
  }

  /** The words executed for instruction `i`, and the NOPs before them. */
  lemma FetchBody(W: Window, code: seq<Word>, after: Memory, i: nat)
    requires WellPlaced(W) && Assembled(W, code) && Installed(W, code, after) && i < W.n
    ensures forall t {:trigger Body(W, i, W.n)[t]} :: 0 <= t < |Body(W, i, W.n)| ==>
              after(Ins(W, i) + 4 * t) == Body(W, i, W.n)[t]
    ensures forall t: nat :: t < Nops(W, i, Start(W, i)) ==> after(Start(W, i) + 4 * t) == NOP
    ensures Start(W, i + 1) == Ins(W, i) + 4 * |Body(W, i, W.n)|
  {
    hide ShapeOf, Nops, BodyLen, Body;
    FragLength(W, i, W.n);
    var k := Nops(W, i, Start(W, i));
    forall t | 0 <= t < |Body(W, i, W.n)|
      ensures after(Ins(W, i) + 4 * t) == Body(W, i, W.n)[t]
    {
      FetchFragment(W, code, after, i, k + t);
      assert Frag(W, i, W.n)[k + t] == Body(W, i, W.n)[t];
      assert Ins(W, i) + 4 * t == Start(W, i) + 4 * (k + t);
    }
    forall t: nat | t < k
      ensures after(Start(W, i) + 4 * t) == NOP
    {
      FetchFragment(W, code, after, i, t);
    }
  }

  lemma {:induction false} RunNops<R>(cpu: Cpu<R>, after: Memory, a: int, k: nat, r: Regs<R>)
    requires forall t: nat :: t < k ==> after(a + 4 * t) == NOP
    ensures Run(cpu, after, State(a, r), k) == State(a + 4 * k, r)
    decreases k
  {
    if k != 0 {
      assert after(a + 4 * 0) == NOP;
      assert Decode(NOP) == Nop;
      forall t: nat | t < k - 1
        ensures after(a + 4 + 4 * t) == NOP
      {
        assert after(a + 4 * (t + 1)) == NOP;
      }
      RunNops(cpu, after, a + 4, k - 1, r);
    }
  }

  lemma DecodeEmitted(rd: nat)
    requires rd < 32
    ensures Decode(0x5800_0051) == LdrLit(0x58, 17, 2) && Decode(0x5800_0071) == LdrLit(0x58, 17, 3)
    ensures Decode(0xd61f_0220) == Br(17) && Decode(0x1000_009e) == Adr(30, 16)
    ensures Decode(0x1400_0005) == B(5) && Decode(0x1400_0003) == B(3)
    ensures Decode(0x5800_0040 + rd) == LdrLit(0x58, rd, 2)
  {
    Fields19(0x58, 2, rd);
  }

  /** Reading back an inlined address. */
  lemma QuadValue(t: int)
    ensures Quad(t)[0] + TWO32 * Quad(t)[1] == Wrap(t)
  {
    var q := t / TWO32;
    assert t == TWO32 * q + t % TWO32;
    assert q == TWO32 * (q / TWO32) + q % TWO32;
  }

  /** LDR X17 from the next quad, then BR X17. */
  lemma FarJump<R>(cpu: Cpu<R>, after: Memory, p: int, t: int, r: Regs<R>)
    requires 0 <= p < 0x4000_0000_0000_1000 && |r.x| == 31
    requires after(p) == 0x5800_0051 && after(p + 4) == 0xd61f_0220
    requires after(p + 8) == Quad(t)[0] && after(p + 12) == Quad(t)[1]
    ensures Run(cpu, after, State(p, r), 2) == State(Wrap(t), SetX(r, 17, Wrap(t)))
  {
    hide Decode, Quad;
    DecodeEmitted(0);
    QuadValue(t);
    assert Wrap(p + 8) == p + 8;
    var s1 := Step(cpu, after, State(p, r));
    assert s1 == State(p + 4, SetX(r, 17, Wrap(t)));
    assert Run(cpu, after, s1, 1) == Step(cpu, after, s1);
  }

  // ----- what relocation must preserve -----

  function Target(W: Window, i: nat): int { SourceTarget(W.At(i), W.Pc(i)) }

  /** Code addresses inside the window move to their fragments; all others stay. */
  function Moved(W: Window, a: int): int {
    if W.Contains(a) && (a - W.base) % 4 == 0 then Ins(W, W.IndexOf(a)) else a
  }

  /** Register-indirect jumps go where the register says. */
  predicate JumpsIndirectly<R>(cpu: Cpu<R>, w: Word, r: Regs<R>) {
    match Decode(w)
    case Br(_) => true
    case Blr(_) => true
    case Plain(v) => cpu.exec(v, r).1.Some?
    case _ => false
  }

  function ExpectedPc<R>(cpu: Cpu<R>, W: Window, i: nat, r: Regs<R>, pc: int): int {
    if JumpsIndirectly(cpu, W.At(i), r) then pc else Moved(W, pc)
  }

  /** Registers after the original step, with a return address or an in-window ADR moved to the fragments. */
  function ExpectedRegs<R>(W: Window, i: nat, r: Regs<R>): Regs<R> {
    match Decode(W.At(i))
    case Bl(_) => SetX(r, 30, Start(W, i + 1))
    case Blr(_) => SetX(r, 30, Start(W, i + 1))
    case Adr(rd, _) => if W.Contains(Target(W, i)) then SetX(r, rd, Ins(W, W.IndexOf(Target(W, i))) + ImmLo(W.At(i)))
        else r
    case _ => r
  }

  ghost predicate SameButX17<R>(a: Regs<R>, b: Regs<R>)
  {
    a.rest == b.rest && |a.x| == |b.x| && forall k :: 0 <= k < |a.x| && k != 17 ==> a.x[k] == b.x[k]
  }

  /** The relocated state `t` stands for the original state `o` reached from instruction `i`. X17 is exact
      while execution stays in the window. */
  ghost predicate Matches<R(!new)>(cpu: Cpu<R>, W: Window, i: nat, r: Regs<R>, o: State<R>, t: State<R>) {
    && t.pc == ExpectedPc(cpu, W, i, r, o.pc)
    && SameButX17(t.r, ExpectedRegs(W, i, o.r))
    && (W.Contains(o.pc) ==> t.r == ExpectedRegs(W, i, o.r))
  }

  /** The instructions whose meaning the source preserves. */
  predicate Supported(W: Window, i: nat) {
    var w := W.At(i);
    if IsCond(w) then Displacement(w) >= 0
    else if IsLit(w) then
      Displacement(w) >= 0
      && (Shape(W, i) == Near ==> Target(W, i) >= Ins(W, i) || Top(w) in {0x58, 0x98, 0xdc})
    else if IsAdr(w) then
      Displacement(w) >= 0 && (Shape(W, i) == Near ==> BitOr(Low5(w), 8 * ImmLo(w)) == Low5(w))
    else if IsAdrp(w) then
      Displacement(w) >= 0 && (W.Contains(Target(W, i)) ==> Page(Ins(W, i)) == Page(W.Pc(i)))
    else true
  }

  /** A literal read in place must not lie in the trampoline itself. */
  predicate LiteralApart(W: Window, i: nat, len: nat) {
    IsLit(W.At(i)) ==> Target(W, i) + 16 <= W.out || W.out + 4 * len <= Target(W, i)
  }

  lemma WrapWindow(W: Window, a: int)
    requires WellPlaced(W) && -0x4000_0000_0000 <= a < 0x6000_0000_0000_0000
    ensures W.Contains(Wrap(a)) <==> W.Contains(a)
    ensures 0 <= a ==> Wrap(a) == a
  {
  }

  lemma TargetBounds(w: Word, pc: int)
    requires 0 <= pc < 0x4000_0000_0000_1000
    ensures -0x4000_0000_0000 <= SourceTarget(w, pc) < 0x6000_0000_0000_0000
  {
    hide IsB, IsBl, IsCond19, IsTest14, IsPrefetch, IsLit, IsAdr, IsAdrp;
  }

  lemma TargetAligned(w: Word, pc: int)
    requires pc % 4 == 0 && (IsB(w) || IsBl(w) || IsCond(w) || IsLit(w))
    ensures SourceTarget(w, pc) % 4 == 0
  {
    ZeroExtended(Imm19(w));
    hide IsB, IsBl, IsCond19, IsTest14, IsPrefetch, IsLit, IsAdr, IsAdrp, Signed, Imm19, Imm14;
    var p := pc / 4;
    assert pc == 4 * p;
    Remainder4(pc + 4 * Signed(w % 0x400_0000, 0x200_0000), p + Signed(w % 0x400_0000, 0x200_0000), 0);
    Remainder4(pc + 4 * Imm19(w), p + Imm19(w), 0);
    Remainder4(pc + 4 * Imm14(w), p + Imm14(w), 0);
    Remainder4(pc + 4 * (Imm19(w) + 0x3ff8_0000), p + Imm19(w) + 0x3ff8_0000, 0);
  }

  // ----- B and BL, conditional branches -----

  /** Where a rewritten branch goes. */
  function Dest(W: Window, i: nat): int {
    var t := Target(W, i);
    if W.Contains(t) then Ins(W, W.IndexOf(t)) else t
  }

  lemma MovedWrap(W: Window, t: int)
    requires WellPlaced(W) && -0x4000_0000_0000 <= t < 0x6000_0000_0000_0000 && t % 4 == 0
    ensures Moved(W, Wrap(t)) == if W.Contains(t) then Ins(W, W.IndexOf(t)) else Wrap(t)
    ensures W.Contains(Wrap(t)) <==> W.Contains(t)
  {
    hide Ins, Wrap;
    WrapWindow(W, t);
  }

  lemma DestIsMoved(W: Window, i: nat)
    requires WellPlaced(W) && i < W.n && (IsB(W.At(i)) || IsBl(W.At(i)) || IsCond(W.At(i)))
    ensures Moved(W, Wrap(Target(W, i))) == Wrap(Dest(W, i)) && Dest(W, i) % 4 == 0
    ensures W.Contains(Wrap(Target(W, i))) <==> W.Contains(Target(W, i))
  {
    hide IsB, IsBl, IsCond, SourceTarget, Ins, Wrap, Moved, Start;
    var w, pc := W.At(i), W.Pc(i);
    TargetBounds(w, pc);
    TargetAligned(w, pc);
    var t := Target(W, i);
    MovedWrap(W, t);
    if W.Contains(t) {
      InsBounds(W, W.IndexOf(t));
    }
  }

  lemma InsBounds(W: Window, j: nat)
    requires WellPlaced(W) && j < W.n
    ensures W.out <= Start(W, j) <= Ins(W, j) <= W.out + 200 && Wrap(Ins(W, j)) == Ins(W, j) && Ins(W, j) % 4 == 0
    ensures Start(W, j + 1) <= W.out + 200
  {
    hide Start, Ins, Nops, FragLen;
    StartBounds(W, j);
    StartBounds(W, j + 1);
  }

  /** A one-word branch encodes exactly the distance to its destination. */
  lemma OneWordBranch(W: Window, i: nat)
    requires WellPlaced(W) && i < W.n && (IsB(W.At(i)) || IsBl(W.At(i)) || IsCond(W.At(i))) && Shape(W, i) != Far
    ensures Ins(W, i) == Start(W, i) && |Body(W, i, W.n)| == 1
    ensures var off := (Dest(W, i) - Ins(W, i)) / 4;
      && Body(W, i, W.n)[0] == EncodeOffset(W.At(i), off)
      && Ins(W, i) + 4 * off == Dest(W, i)
      && Abs(off) < (if IsB(W.At(i)) || IsBl(W.At(i)) then 0x1ff_ffff else if IsCond19(W.At(i)) then 0x3_ffff
          else 0x1fff)
  {
    var w, t := W.At(i), Target(W, i);
    hide IsB, IsBl, IsCond19, IsTest14, IsLit, IsAdr, SourceTarget, EncodeOffset, Start, Ins, ShapeOf, Wrap, Moved;
    hide Body;
    BranchShape(W, i);
    BranchWord(W, i);
    DestIsMoved(W, i);
    InsBounds(W, i);
    if W.Contains(t) {
      InsBounds(W, W.IndexOf(t));
    }
  }

  lemma BranchWord(W: Window, i: nat)
    requires i < W.n && (IsB(W.At(i)) || IsBl(W.At(i)) || IsCond(W.At(i))) && Shape(W, i) != Far
    ensures Ins(W, i) == Start(W, i) && Body(W, i, W.n) == [EncodeOffset(W.At(i), (Dest(W, i) - Ins(W, i)) / 4)]
  {
    var w, t := W.At(i), Target(W, i);
    hide IsB, IsBl, IsCond, IsLit, IsAdr, SourceTarget, EncodeOffset, Start, ShapeOf, TooFar;
    assert !IsLit(w) && !IsAdr(w) by { KindsDisjoint(w); }
    BranchShape(W, i);
  }

  lemma TrueIsSource(W: Window, i: nat)
    requires IsPcRelative(W.At(i)) && !IsPrefetch(W.At(i)) && Supported(W, i)
    ensures TrueTarget(W.At(i), W.Pc(i)) == Target(W, i)
  {
    var w := W.At(i);
    hide IsB, IsBl, IsCond19, IsTest14, IsLit, IsAdr, IsAdrp, SourceTarget, TrueTarget, Displacement, Ins, ShapeOf;
    KindsDisjoint(w);
    SourceTargetIsTrueIffNonNegative(w, W.Pc(i));
  }

  /** Re-encoding a branch changes only its offset. */
  lemma EncodedBranch(w: Word, off: int)
    requires IsB(w) || IsBl(w) || IsCond(w)
    requires Abs(off) < (if IsB(w) || IsBl(w) then 0x1ff_ffff else if IsCond19(w) then 0x3_ffff else 0x1fff)
    ensures IsB(w) ==> Decode(w).B? && Decode(EncodeOffset(w, off)) == B(off)
    ensures IsBl(w) ==> Decode(w).Bl? && Decode(EncodeOffset(w, off)) == Bl(off)
    ensures IsCond(w) ==> Decode(w).CondBr? && Decode(EncodeOffset(w, off)) == CondBr(Decode(w).test, off)
  {
    KindsDisjoint(w);
    if IsB(w) {
      DecodeB(off);
    } else if IsBl(w) {
      hide IsB;
      DecodeBl(off);
    } else if IsCond19(w) {
      hide IsB, IsBl, IsCond19, IsTest14;
      DecodeCond19(w, off);
    } else {
      hide IsB, IsBl, IsCond19, IsTest14;
      DecodeTest14(w, off);
    }
  }

  /** A fragment either falls through to the next one with the expected registers, or has jumped. */
  ghost predicate Outcome<R(!new)>(cpu: Cpu<R>, W: Window, i: nat, r: Regs<R>, o: State<R>, u: State<R>) {
    || (o.pc == W.Pc(i + 1) && !JumpsIndirectly(cpu, W.At(i), r)
        && u == State(Start(W, i + 1), ExpectedRegs(W, i, o.r)))
    || Matches(cpu, W, i, r, o, u)
  }

  /** What every fragment lemma assumes of the machine. */
  ghost predicate Setting<R>(W: Window, code: seq<Word>, after: Memory, i: nat, r: Regs<R>) {
    && WellPlaced(W) && i < W.n && |r.x| == 31
    && Assembled(W, code) && Installed(W, code, after)
  }

  lemma OneStep<R>(cpu: Cpu<R>, mem: Memory, s: State<R>)
    ensures Run(cpu, mem, s, 1) == Step(cpu, mem, s)
  {
    assert Run(cpu, mem, Step(cpu, mem, s), 0) == Step(cpu, mem, s);
  }

  lemma SetTwice<R>(r: Regs<R>, k: nat, a: int, b: int)
    ensures SetX(SetX(r, k, a), k, b) == SetX(r, k, b)
  {
    if k < |r.x| { assert r.x[k := a][k := b] == r.x[k := b]; }
  }

  lemma RunNearBranch<R(!new)>(cpu: Cpu<R>, W: Window, code: seq<Word>, after: Memory, i: nat, r: Regs<R>)
    requires Setting(W, code, after, i, r) && Supported(W, i) && Shape(W, i) != Far
    requires IsB(W.At(i)) || IsBl(W.At(i)) || IsCond(W.At(i))
    ensures Outcome(cpu, W, i, r, Step(cpu, W.mem, State(W.Pc(i), r)), Run(cpu, after, State(Ins(W, i), r), 1))
  {
    hide IsB, IsBl, IsCond, ShapeOf, SourceTarget, EncodeOffset, Decode, Ins, Start, Body, Assembled, Installed;
    hide Moved, Wrap, Supported, Dest;
    var w, off := W.At(i), (Dest(W, i) - Ins(W, i)) / 4;
    FetchBody(W, code, after, i);
    OneWordBranch(W, i);
    assert after(Ins(W, i) + 4 * 0) == Body(W, i, W.n)[0];
    EncodedBranch(w, off);
    BranchIsPcRelative(w);
    TrueIsSource(W, i);
    DestIsMoved(W, i);
    var s := State(Ins(W, i), r);
    OneStep(cpu, after, s);
    InsBounds(W, i);
    SetTwice(r, 30, Wrap(W.Pc(i) + 4), Start(W, i + 1));
    WrapSmall(W, i);
  }

  lemma BranchIsPcRelative(w: Word)
    requires IsB(w) || IsBl(w) || IsCond(w)
    ensures IsPcRelative(w) && !IsPrefetch(w)
  {
    hide IsB, IsBl, IsCond19, IsTest14, IsPrefetch, IsLit, IsAdr, IsAdrp;
    KindsDisjoint(w);
  }

  lemma WrapSmall(W: Window, i: nat)
    requires WellPlaced(W) && i < W.n
    ensures Wrap(W.Pc(i) + 4) == W.Pc(i) + 4 && Wrap(Start(W, i + 1)) == Start(W, i + 1)
  {
    hide Start;
    InsBounds(W, i);
    StartBounds(W, i);
  }

  /** Body words as memory contents. */
  lemma BodyWords(W: Window, code: seq<Word>, after: Memory, i: nat, t: nat)
    requires WellPlaced(W) && Assembled(W, code) && Installed(W, code, after) && i < W.n && t < |Body(W, i, W.n)|
    ensures after(Ins(W, i) + 4 * t) == Body(W, i, W.n)[t]
  {
    hide Assembled, Installed, Ins, Body;
    FetchBody(W, code, after, i);
  }

  lemma FarBodies(W: Window, i: nat)
    requires i < W.n && Shape(W, i) == Far
    ensures IsB(W.At(i)) ==> Body(W, i, W.n) == [0x5800_0051, 0xd61f_0220] + Quad(Target(W, i))
    ensures IsBl(W.At(i)) ==> Body(W, i, W.n) == [0x5800_0071, 0x1000_009e, 0xd61f_0220] + Quad(Target(W, i))
    ensures IsCond(W.At(i)) ==>
      Body(W, i, W.n) == [EncodeOffset(W.At(i), 2), 0x1400_0005, 0x5800_0051, 0xd61f_0220] + Quad(Target(W, i))
    ensures IsAdr(W.At(i)) || IsAdrp(W.At(i)) ==>
      Body(W, i, W.n) == [0x5800_0040 + Low5(W.At(i)), 0x1400_0003] + Quad(Target(W, i))
  {
    hide IsB, IsBl, IsCond, IsLit, IsAdr, IsAdrp, SourceTarget, EncodeOffset, Start, ShapeOf, Quad;
    KindsDisjoint(W.At(i));
  }

  /** The four words of a far jump at offset `k` of a fragment. */
  lemma FarJumpAt<R(!new)>(cpu: Cpu<R>, W: Window, code: seq<Word>, after: Memory, i: nat, r: Regs<R>, k: nat)
    requires Setting(W, code, after, i, r) && k + 4 == |Body(W, i, W.n)|
    requires Body(W, i, W.n)[k..] == [0x5800_0051, 0xd61f_0220] + Quad(Target(W, i))
    ensures Run(cpu, after, State(Ins(W, i) + 4 * k, r), 2)
         == State(Wrap(Target(W, i)), SetX(r, 17, Wrap(Target(W, i))))
  {
    hide Assembled, Installed, Ins, Body, SourceTarget, Wrap, Start, Quad;
    var b, p := Body(W, i, W.n), Ins(W, i) + 4 * k;
    InsBounds(W, i);
    FetchBody(W, code, after, i);
    assert b[k..][0] == b[k] && b[k..][1] == b[k + 1] && b[k..][2] == b[k + 2] && b[k..][3] == b[k + 3];
    BodyWords(W, code, after, i, k);
    BodyWords(W, code, after, i, k + 1);
    BodyWords(W, code, after, i, k + 2);
    BodyWords(W, code, after, i, k + 3);
    FarJump(cpu, after, p, Target(W, i), r);
  }

  lemma RunFarJump<R(!new)>(cpu: Cpu<R>, W: Window, code: seq<Word>, after: Memory, i: nat, r: Regs<R>)
    requires Setting(W, code, after, i, r) && Shape(W, i) == Far && IsB(W.At(i))
    ensures Outcome(cpu, W, i, r, Step(cpu, W.mem, State(W.Pc(i), r)), Run(cpu, after, State(Ins(W, i), r), 2))
  {
    hide IsB, IsBl, IsCond, ShapeOf, SourceTarget, Decode, Ins, Start, Body, Assembled, Installed, Moved, Wrap, Dest;
    var w := W.At(i);
    FarBodies(W, i);
    assert Body(W, i, W.n)[0..] == Body(W, i, W.n);
    FarJumpAt(cpu, W, code, after, i, r, 0);
    EncodedBranch(w, 0);
    BranchIsPcRelative(w);
    SourceTargetIsTrueIffNonNegative(w, W.Pc(i));
    FarIsOutside(W, i);
  }

  /** An inlined address is outside the window, so it is not moved. */
  lemma FarIsOutside(W: Window, i: nat)
    requires WellPlaced(W) && i < W.n && Shape(W, i) == Far && (IsB(W.At(i)) || IsBl(W.At(i)) || IsCond(W.At(i)))
    ensures !W.Contains(Target(W, i)) && !W.Contains(Wrap(Target(W, i)))
    ensures Moved(W, Wrap(Target(W, i))) == Wrap(Target(W, i))
  {
    hide IsB, IsBl, IsCond, ShapeOf, SourceTarget, Ins, Start, Wrap, TooFar;
    BranchShape(W, i);
    DestIsMoved(W, i);
  }

  /** A far call: X17 := target, X30 := end of the fragment, jump. */
  lemma RunFarCall<R(!new)>(cpu: Cpu<R>, W: Window, code: seq<Word>, after: Memory, i: nat, r: Regs<R>)
    requires Setting(W, code, after, i, r) && Shape(W, i) == Far && IsBl(W.At(i))
    ensures Outcome(cpu, W, i, r, Step(cpu, W.mem, State(W.Pc(i), r)), Run(cpu, after, State(Ins(W, i), r), 3))
  {
    hide IsB, IsBl, IsCond, ShapeOf, SourceTarget, Decode, Ins, Start, Body, Assembled, Installed, Moved, Wrap, Dest;
    hide Quad;
    var w, t, p := W.At(i), Target(W, i), Ins(W, i);
    FarBodies(W, i);
    FetchBody(W, code, after, i);
    BodyWords(W, code, after, i, 0);
    BodyWords(W, code, after, i, 1);
    BodyWords(W, code, after, i, 2);
    BodyWords(W, code, after, i, 3);
    BodyWords(W, code, after, i, 4);
    InsBounds(W, i);
    FarCallSteps(cpu, after, p, t, r);
    EncodedBranch(w, 0);
    BranchIsPcRelative(w);
    SourceTargetIsTrueIffNonNegative(w, W.Pc(i));
    FarIsOutside(W, i);
    SetTwice(r, 30, Wrap(W.Pc(i) + 4), Start(W, i + 1));
    SetCommute(r, Wrap(t), Start(W, i + 1));
  }

  lemma SetCommute<R>(r: Regs<R>, a: int, b: int)
    requires |r.x| == 31
    ensures SameButX17(SetX(SetX(r, 17, a), 30, b), SetX(r, 30, b))
  {
  }

  lemma FarCallSteps<R>(cpu: Cpu<R>, after: Memory, p: int, t: int, r: Regs<R>)
    requires 0 <= p < 0x4000_0000_0000_1000 && |r.x| == 31
    requires after(p) == 0x5800_0071 && after(p + 4) == 0x1000_009e && after(p + 8) == 0xd61f_0220
    requires after(p + 12) == Quad(t)[0] && after(p + 16) == Quad(t)[1]
    ensures Run(cpu, after, State(p, r), 3) == State(Wrap(t), SetX(SetX(r, 17, Wrap(t)), 30, p + 20))
  {
    hide Decode, Quad;
    DecodeEmitted(0);
    QuadValue(t);
    assert Wrap(p + 12) == p + 12 && Wrap(p + 20) == p + 20;
    var s1 := Step(cpu, after, State(p, r));
    assert s1 == State(p + 4, SetX(r, 17, Wrap(t)));
    var s2 := Step(cpu, after, s1);
    assert s2 == State(p + 8, SetX(s1.r, 30, p + 20));
    OneStep(cpu, after, s2);
    assert Run(cpu, after, s1, 2) == Run(cpu, after, s2, 1);
  }

  /** A far conditional branch: into the inlined jump when the test holds, else over it. */
  lemma RunFarCond<R(!new)>(cpu: Cpu<R>, W: Window, code: seq<Word>, after: Memory, i: nat, r: Regs<R>) returns (k: nat)
    requires Setting(W, code, after, i, r) && Supported(W, i) && Shape(W, i) == Far && IsCond(W.At(i))
    ensures Outcome(cpu, W, i, r, Step(cpu, W.mem, State(W.Pc(i), r)), Run(cpu, after, State(Ins(W, i), r), k))
  {
    hide IsB, IsBl, IsCond, ShapeOf, SourceTarget, Decode, Ins, Start, Body, Assembled, Installed, Moved, Wrap, Dest;
    hide Quad, EncodeOffset, Supported;
    var w, t, p := W.At(i), Target(W, i), Ins(W, i);
    FarBodies(W, i);
    FetchBody(W, code, after, i);
    BodyWords(W, code, after, i, 0);
    BodyWords(W, code, after, i, 1);
    EncodedBranch(w, 2);
    BranchIsPcRelative(w);
    TrueIsSource(W, i);
    FarIsOutside(W, i);
    InsBounds(W, i);
    assert Wrap(p + 8) == p + 8 && Wrap(p + 4 + 20) == p + 24 by { WrapNear(W, p); }
    var s := State(p, r);
    var s1 := Step(cpu, after, s);
    DecodeEmitted(0);
    if cpu.taken(Decode(w).test, r) {
      assert s1 == State(p + 8, r);
      assert Body(W, i, W.n)[2..] == [0x5800_0051, 0xd61f_0220] + Quad(t);
      FarJumpAt(cpu, W, code, after, i, r, 2);
      k := 3;
    } else {
      assert s1 == State(p + 4, r);
      OneStep(cpu, after, s1);
      k := 2;
    }
  }

  lemma WrapNear(W: Window, p: int)
    requires WellPlaced(W) && W.out <= p <= W.out + 200
    ensures Wrap(p + 8) == p + 8 && Wrap(p + 4) == p + 4 && Wrap(p + 16) == p + 16 && Wrap(p + 24) == p + 24
  {
  }

  // ----- literal loads -----

  lemma LitFacts(W: Window, i: nat)
    requires WellPlaced(W) && i < W.n && IsLit(W.At(i)) && Supported(W, i)
    ensures var w, t := W.At(i), Target(W, i);
      && TrueTarget(w, W.Pc(i)) == t && W.Pc(i) <= t < 0x6000_0000_0000_0000 && t % 4 == 0 && Wrap(t) == t
      && Decode(w).LdrLit? && Decode(w).op == Top(w) && Decode(w).rt == Low5(w) && W.Pc(i) + 4 * Decode(w).off == t
  {
    var w := W.At(i);
    KindOfTop(w, Top(w));
    hide IsB, IsBl, IsCond, ShapeOf, SourceTarget, Ins, Start, Decode, IsLit, IsAdr, IsAdrp, Wrap;
    LitIsPcRelative(w);
    SourceTargetIsTrueIffNonNegative(w, W.Pc(i));
    TargetBounds(w, W.Pc(i));
    TargetAligned(w, W.Pc(i));
    WrapWindow(W, Target(W, i));
  }

  lemma LitIsPcRelative(w: Word)
    requires IsLit(w)
    ensures IsPcRelative(w) && !IsPrefetch(w) && !IsB(w) && !IsBl(w) && !IsCond(w)
      && LitWords(Top(w)) <= LitBytes(w) / 4
  {
    hide IsB, IsBl, IsCond19, IsTest14, IsPrefetch, IsAdr, IsAdrp;
    KindsDisjoint(w);
  }

  lemma InlineBody(W: Window, i: nat)
    requires i < W.n && IsLit(W.At(i)) && Shape(W, i) == Inline
    ensures |Body(W, i, W.n)| == 2 + LitBytes(W.At(i)) / 4
    ensures var w := W.At(i);
      && Body(W, i, W.n)[0..2] == [w - 32 * Imm19(w) + 64, 0x1400_0001 + LitBytes(w) / 4]
      && Body(W, i, W.n)[2..] == Data(W.mem, Target(W, i), LitBytes(w) / 4)
      && Decode(Body(W, i, W.n)[0]) == LdrLit(Top(w), Low5(w), 2)
      && Decode(Body(W, i, W.n)[1]) == B(1 + LitBytes(w) / 4)
  {
    hide ShapeOf, SourceTarget, Ins, Start, IsLit, Decode, LitBytes;
    var w := W.At(i);
    DecodeLit(w, 2);
    PaddingBound(w, 0);
    DecodeB(1 + LitBytes(w) / 4);
  }

  lemma RunInlineLit<R(!new)>(cpu: Cpu<R>, W: Window, code: seq<Word>, after: Memory, i: nat, r: Regs<R>)
    requires Setting(W, code, after, i, r) && Supported(W, i) && IsLit(W.At(i)) && Shape(W, i) == Inline
    ensures Outcome(cpu, W, i, r, Step(cpu, W.mem, State(W.Pc(i), r)), Run(cpu, after, State(Ins(W, i), r), 2))
  {
    hide ShapeOf, SourceTarget, Decode, Ins, Start, Body, Assembled, Installed, Moved, Wrap, Supported, IsLit;
    hide LitBytes, LitWords, Imm19, Data;
    var w, t, p := W.At(i), Target(W, i), Ins(W, i);
    var b := Body(W, i, W.n);
    LitFacts(W, i);
    LitIsPcRelative(w);
    InlineBody(W, i);
    FetchBody(W, code, after, i);
    BodyWords(W, code, after, i, 0);
    BodyWords(W, code, after, i, 1);
    InsBounds(W, i);
    WrapNear(W, p);
    assert b[0..2][0] == b[0] && b[0..2][1] == b[1];
    var n := LitWords(Top(w));
    assert Data(after, p + 8, n) == Data(W.mem, t, n) by {
      forall k: nat | k < n
        ensures after(p + 8 + 4 * k) == W.mem(t + 4 * k)
      {
        assert b[2..][k] == b[2 + k];
        BodyWords(W, code, after, i, 2 + k);
        assert p + 8 + 4 * k == p + 4 * (2 + k);
      }
      SameData(after, p + 8, W.mem, t, n);
    }
    var s1 := Step(cpu, after, State(p, r));
    OneStep(cpu, after, s1);
    WrapSmall(W, i);
  }

  lemma SameData(m: Memory, a: int, m': Memory, a': int, n: nat)
    requires forall k: nat :: k < n ==> m(a + 4 * k) == m'(a' + 4 * k)
    ensures Data(m, a, n) == Data(m', a', n)
  {
  }

  lemma NearLitBody(W: Window, i: nat)
    requires WellPlaced(W) && i < W.n && IsLit(W.At(i)) && Shape(W, i) == Near && Supported(W, i)
    ensures var w, off := W.At(i), (Target(W, i) - Ins(W, i)) / 4;
      && Body(W, i, W.n) == [NearLitWord(w, off)]
      && Decode(NearLitWord(w, off)) == LdrLit(Top(w), Low5(w), off)
      && Ins(W, i) + 4 * off == Target(W, i) && !W.Contains(Target(W, i))
  {
    hide IsB, IsBl, IsCond, ShapeOf, SourceTarget, Start, Ins, IsLit, Decode, NearLitWord, LitBytes, IsAdr, IsAdrp;
    hide Displacement;
    var w := W.At(i);
    NearLitPlace(W, i);
    NearLitDecodes(w, (Target(W, i) - Ins(W, i)) / 4);
    LitIsPcRelative(w);
  }

  lemma NearLitPlace(W: Window, i: nat)
    requires WellPlaced(W) && i < W.n && IsLit(W.At(i)) && Shape(W, i) == Near
    ensures var w, off := W.At(i), (Target(W, i) - Ins(W, i)) / 4;
      && Body(W, i, W.n) == [NearLitWord(w, off)] && -0x4_0000 <= off < 0x4_0000
      && Ins(W, i) + 4 * off == Target(W, i) && !W.Contains(Target(W, i))
  {
    hide IsB, IsBl, IsCond, ShapeOf, SourceTarget, Start, Ins, Pos, Frag, Body, IsLit, NearLitWord, LitBytes, Rest, Abs;
    var w, t, s := W.At(i), Target(W, i), Start(W, i);
    LitShape(W, i);
    TargetAligned(w, W.Pc(i));
    StartBounds(W, i);
    NearLit(W, i);
    LitSizes(w);
    Rebased(s, t, LitBytes(w) / 4);
    NearLitWords(W, i);
  }

  lemma LitSizes(w: Word)
    ensures LitBytes(w) / 4 in {1, 2, 4} && (LitBytes(w) - 4) / 4 == LitBytes(w) / 4 - 1
  {
  }

  lemma NearLitWords(W: Window, i: nat)
    requires IsLit(W.At(i)) && Shape(W, i) == Near
    ensures Body(W, i, W.n) == [NearLitWord(W.At(i), (Target(W, i) - Ins(W, i)) / 4)]
  {
    hide ShapeOf, SourceTarget, Start, Ins, IsLit, NearLitWord;
  }

  /** The NOPs before a rebased load make its distance a multiple of the literal's size. */
  lemma Rebased(s: int, t: int, m: nat)
    requires s % 4 == 0 && t % 4 == 0 && m in {1, 2, 4} && Abs((t - s) / 4) + (m - 1) < 0x3_ffff
    ensures var off := (t - (s + 4 * Rest((t - s) / 4, m))) / 4;
      -0x4_0000 <= off < 0x4_0000 && s + 4 * Rest((t - s) / 4, m) + 4 * off == t
  {
    var x := (t - s) / 4;
    assert t - s == 4 * x;
    var k := Rest(x, m);
    assert 0 <= k < m;
    assert t - (s + 4 * k) == 4 * (x - k);
  }

  lemma RunNearLit<R(!new)>(cpu: Cpu<R>, W: Window, code: seq<Word>, after: Memory, i: nat, r: Regs<R>)
    requires Setting(W, code, after, i, r) && Supported(W, i) && IsLit(W.At(i)) && Shape(W, i) == Near
    requires LiteralApart(W, i, |code|)
    ensures Outcome(cpu, W, i, r, Step(cpu, W.mem, State(W.Pc(i), r)), Run(cpu, after, State(Ins(W, i), r), 1))
  {
    hide ShapeOf, SourceTarget, Decode, Ins, Start, Body, Assembled, Moved, Wrap, Supported, IsLit, LitBytes;
    hide LitWords, Imm19, Data, NearLitWord;
    var w, t, p := W.At(i), Target(W, i), Ins(W, i);
    LitFacts(W, i);
    NearLitBody(W, i);
    assert after(p) == Body(W, i, W.n)[0] && Start(W, i + 1) == p + 4 by {
      hide Installed;
      FetchBody(W, code, after, i);
      BodyWords(W, code, after, i, 0);
    }
    var n := LitWords(Top(w));
    assert n <= 4 by { FourWords(Top(w)); }
    assert Data(after, t, n) == Data(W.mem, t, n) by {
      forall k: nat | k < n
        ensures after(t + 4 * k) == W.mem(t + 4 * k)
      {
      }
      SameData(after, t, W.mem, t, n);
    }
    OneStep(cpu, after, State(p, r));
  }

  lemma FourWords(op: nat)
    ensures LitWords(op) <= 4
  {
  }

  // ----- address computations -----

  lemma RunFarAddress<R(!new)>(cpu: Cpu<R>, W: Window, code: seq<Word>, after: Memory, i: nat, r: Regs<R>)
    requires Setting(W, code, after, i, r) && Supported(W, i) && (IsAdr(W.At(i)) || IsAdrp(W.At(i)))
      && Shape(W, i) == Far
    ensures Outcome(cpu, W, i, r, Step(cpu, W.mem, State(W.Pc(i), r)), Run(cpu, after, State(Ins(W, i), r), 2))
  {
    hide IsB, IsBl, IsCond, IsAdr, IsAdrp, ShapeOf, SourceTarget, Decode, Ins, Start, Body, Assembled, Installed;
    hide Moved, Wrap, Supported, Quad, Page;
    var w, t, p := W.At(i), Target(W, i), Ins(W, i);
    FarBodies(W, i);
    FetchBody(W, code, after, i);
    BodyWords(W, code, after, i, 0);
    BodyWords(W, code, after, i, 1);
    BodyWords(W, code, after, i, 2);
    BodyWords(W, code, after, i, 3);
    AddressFacts(w);
    TrueIsSource(W, i);
    AddressShape(W, i);
    InsBounds(W, i);
    WrapNear(W, p);
    FarLoadSteps(cpu, after, p, t, Low5(w), r);
  }

  lemma FarLoadSteps<R>(cpu: Cpu<R>, after: Memory, p: int, t: int, rd: nat, r: Regs<R>)
    requires 0 <= p < 0x4000_0000_0000_1000 && rd < 32
    requires after(p) == 0x5800_0040 + rd && after(p + 4) == 0x1400_0003
    requires after(p + 8) == Quad(t)[0] && after(p + 12) == Quad(t)[1]
    ensures Run(cpu, after, State(p, r), 2) == State(p + 16, SetX(r, rd, Wrap(t)))
  {
    hide Decode, Quad;
    DecodeEmitted(rd);
    QuadValue(t);
    assert Wrap(p + 8) == p + 8 && Wrap(p + 16) == p + 16;
    var s1 := Step(cpu, after, State(p, r));
    assert s1 == State(p + 4, SetX(r, rd, Wrap(t)));
    OneStep(cpu, after, s1);
  }

  lemma AddressFacts(w: Word)
    requires IsAdr(w) || IsAdrp(w)
    ensures IsPcRelative(w) && !IsPrefetch(w)
    ensures IsAdr(w) ==> Decode(w) == Adr(Low5(w), Signed(Imm21(w), 0x10_0000))
    ensures IsAdrp(w) ==> Decode(w) == Adrp(Low5(w), Signed(Imm21(w), 0x10_0000)) && !IsAdr(w)
    ensures !IsB(w) && !IsBl(w) && !IsCond(w) && !IsLit(w)
  {
    hide IsB, IsBl, IsCond19, IsTest14, IsPrefetch, IsLit, IsAdr, IsAdrp;
    KindsDisjoint(w);
  }

  /** An ADR that stays one word computes its address from the fragment. */
  lemma RunNearAdr<R(!new)>(cpu: Cpu<R>, W: Window, code: seq<Word>, after: Memory, i: nat, r: Regs<R>)
    requires Setting(W, code, after, i, r) && Supported(W, i) && IsAdr(W.At(i)) && Shape(W, i) != Far
    ensures Outcome(cpu, W, i, r, Step(cpu, W.mem, State(W.Pc(i), r)), Run(cpu, after, State(Ins(W, i), r), 1))
  {
    hide IsB, IsBl, IsCond, IsAdr, IsAdrp, ShapeOf, SourceTarget, Decode, Ins, Start, Body, Assembled, Installed;
    hide Moved, Wrap, Supported, Page;
    var w, t, p := W.At(i), Target(W, i), Ins(W, i);
    AddressFacts(w);
    TrueIsSource(W, i);
    NearAdrBody(W, i);
    FetchBody(W, code, after, i);
    BodyWords(W, code, after, i, 0);
    OneStep(cpu, after, State(p, r));
    if W.Contains(t) {
      var j := W.IndexOf(t);
      InsBounds(W, j);
      assert Wrap(Ins(W, j) + ImmLo(w)) == Ins(W, j) + ImmLo(w) by { WrapAdd(Ins(W, j), W, ImmLo(w)); }
      SetTwice(r, Low5(w), Wrap(t), Ins(W, j) + ImmLo(w));
    }
  }

  lemma WrapAdd(a: int, W: Window, k: nat)
    requires WellPlaced(W) && W.out <= a <= W.out + 200 && k < 4
    ensures Wrap(a + k) == a + k
  {
  }

  lemma NearAdrBody(W: Window, i: nat)
    requires WellPlaced(W) && i < W.n && IsAdr(W.At(i)) && Supported(W, i) && Shape(W, i) != Far
    ensures var w, t := W.At(i), Target(W, i);
      var dest := if W.Contains(t) then Ins(W, W.IndexOf(t)) + ImmLo(w) else t;
      |Body(W, i, W.n)| == 1 && Decode(Body(W, i, W.n)[0]) == Adr(Low5(w), dest - Ins(W, i))
  {
    hide IsB, IsBl, IsCond, IsAdr, IsAdrp, IsLit, ShapeOf, SourceTarget, Decode, Start, Ins, Wrap, EncodeOffset;
    hide NearAdrWord, Page, BitOr, Body, ImmLo, Low5;
    var w, t := W.At(i), Target(W, i);
    AdrBodyWord(W, i);
    if W.Contains(t) {
      AdrBodyInside(W, i);
    } else {
      AdrBodyNear(W, i);
      NearAdrDecodes(w, t - Ins(W, i));
    }
  }

  lemma AdrBodyInside(W: Window, i: nat)
    requires WellPlaced(W) && i < W.n && IsAdr(W.At(i)) && W.Contains(Target(W, i))
    ensures var w, p := W.At(i), Ins(W, W.IndexOf(Target(W, i))) - Ins(W, i);
      Decode(EncodeOffset(w, p / 4)) == Adr(Low5(w), p + ImmLo(w))
  {
    hide IsB, IsBl, IsCond, IsAdr, IsAdrp, IsLit, SourceTarget, Decode, Start, Ins, EncodeOffset, ImmLo, Low5;
    var j := W.IndexOf(Target(W, i));
    InsBounds(W, i);
    InsBounds(W, j);
    AdrOffset(W.At(i), (Ins(W, j) - Ins(W, i)) / 4);
  }

  lemma AdrBodyNear(W: Window, i: nat)
    requires WellPlaced(W) && i < W.n && IsAdr(W.At(i)) && Supported(W, i) && Shape(W, i) != Far
    requires !W.Contains(Target(W, i))
    ensures var d := Target(W, i) - Ins(W, i);
      -0x10_0000 <= d < 0x10_0000 && d % 4 == ImmLo(W.At(i))
      && BitOr(Low5(W.At(i)), 8 * ImmLo(W.At(i))) == Low5(W.At(i))
  {
    hide IsB, IsBl, IsCond, IsAdr, IsAdrp, IsLit, ShapeOf, SourceTarget, Decode, Start, Ins, Wrap, Page, BitOr, ImmLo;
    hide Low5, Body, EncodeOffset, NearAdrWord;
    AddressFacts(W.At(i));
    AddressShape(W, i);
    AdrBodyWord(W, i);
    TargetLow(W, i);
    InsBounds(W, i);
    SameLow(Target(W, i), Ins(W, i));
  }

  lemma SameLow(t: int, p: int)
    requires p % 4 == 0
    ensures (t - p) % 4 == t % 4
  {
    var j, k := t / 4, p / 4;
    assert t == 4 * j + t % 4 && p == 4 * k;
    Remainder4(t - p, j - k, t % 4);
  }

  lemma AdrBodyWord(W: Window, i: nat)
    requires WellPlaced(W) && i < W.n && IsAdr(W.At(i)) && Shape(W, i) != Far
    ensures Ins(W, i) == Start(W, i)
    ensures var w, t := W.At(i), Target(W, i);
      Body(W, i, W.n) == [if W.Contains(t) then EncodeOffset(w, (Ins(W, W.IndexOf(t)) - Ins(W, i)) / 4)
                          else NearAdrWord(w, t - Ins(W, i))]
  {
    hide IsB, IsBl, IsCond, IsAdr, IsAdrp, IsLit, ShapeOf, SourceTarget, Start, EncodeOffset, NearAdrWord, Page;
    AddressFacts(W.At(i));
    AddressShape(W, i);
  }

  lemma AdrOffset(w: Word, d: int)
    requires IsAdr(w) && -0x1000 <= d < 0x1000
    ensures Decode(EncodeOffset(w, d)) == Adr(Low5(w), 4 * d + ImmLo(w))
  {
    hide IsB, IsBl, IsCond19, IsTest14, Decode, IsAdr;
    KindsDisjoint(w);
    DecodeAdr(w, 4 * d + ImmLo(w));
    assert (4 * d + ImmLo(w)) / 4 == d;
  }

  /** The low bits of an ADR target are its `immlo`. */
  lemma TargetLow(W: Window, i: nat)
    requires WellPlaced(W) && i < W.n && IsAdr(W.At(i))
    ensures Target(W, i) % 4 == ImmLo(W.At(i))
  {
    hide IsB, IsBl, IsCond19, IsTest14, IsLit, IsAdr;
    var w := W.At(i);
    KindsDisjoint(w);
    ZeroExtended(Imm19(w));
  }

  /** An ADRP kept verbatim computes the same page when fragment and original share a page. */
  lemma RunSamePageAdrp<R(!new)>(cpu: Cpu<R>, W: Window, code: seq<Word>, after: Memory, i: nat, r: Regs<R>)
    requires Setting(W, code, after, i, r) && Supported(W, i) && IsAdrp(W.At(i)) && Shape(W, i) != Far
    ensures Outcome(cpu, W, i, r, Step(cpu, W.mem, State(W.Pc(i), r)), Run(cpu, after, State(Ins(W, i), r), 1))
  {
    hide IsB, IsBl, IsCond, IsAdr, IsAdrp, IsLit, ShapeOf, SourceTarget, Decode, Ins, Start, Assembled, Installed;
    hide Moved, Wrap, Page;
    var w := W.At(i);
    AddressFacts(w);
    AddressShape(W, i);
    FetchBody(W, code, after, i);
    assert Body(W, i, W.n) == [w];
    BodyWords(W, code, after, i, 0);
    OneStep(cpu, after, State(Ins(W, i), r));
  }

  // ----- everything else -----

  lemma RunPlain<R(!new)>(cpu: Cpu<R>, W: Window, code: seq<Word>, after: Memory, i: nat, r: Regs<R>)
    requires Setting(W, code, after, i, r) && !IsPcRelative(W.At(i))
    ensures Outcome(cpu, W, i, r, Step(cpu, W.mem, State(W.Pc(i), r)), Run(cpu, after, State(Ins(W, i), r), 1))
  {
    hide IsB, IsBl, IsCond, IsAdr, IsAdrp, IsLit, IsPrefetch, ShapeOf, SourceTarget, Decode, Ins, Start, Assembled;
    hide Installed, Moved, Wrap, Page, Body, Nops, BodyLen, FragLen;
    var w := W.At(i);
    PlainKinds(w);
    PlainFetched(W, code, after, i);
    OneStep(cpu, after, State(Ins(W, i), r));
    InsBounds(W, i);
    WrapSmall(W, i);
    SetTwice(r, 30, Wrap(W.Pc(i) + 4), Start(W, i + 1));
  }

  lemma PlainFetched(W: Window, code: seq<Word>, after: Memory, i: nat)
    requires WellPlaced(W) && Assembled(W, code) && Installed(W, code, after) && i < W.n && !IsPcRelative(W.At(i))
    ensures after(Ins(W, i)) == W.At(i) && Start(W, i + 1) == Ins(W, i) + 4
  {
    hide IsB, IsBl, IsCond, IsAdr, IsAdrp, IsLit, IsPrefetch, ShapeOf, SourceTarget, Ins, Start, Assembled, Installed;
    PlainShape(W, i);
    FetchBody(W, code, after, i);
    assert Body(W, i, W.n) == [W.At(i)];
    assert after(Ins(W, i) + 4 * 0) == Body(W, i, W.n)[0];
  }

  lemma PlainKinds(w: Word)
    requires !IsPcRelative(w)
    ensures var d := Decode(w); d.Br? || d.Blr? || d.Nop? || d.Plain?
  {
    hide IsB, IsBl, IsCond19, IsTest14, IsPrefetch, IsLit, IsAdr, IsAdrp;
  }

  lemma RunPrefetch<R(!new)>(cpu: Cpu<R>, W: Window, code: seq<Word>, after: Memory, i: nat, r: Regs<R>)
    requires Setting(W, code, after, i, r) && IsPrefetch(W.At(i))
    ensures Outcome(cpu, W, i, r, Step(cpu, W.mem, State(W.Pc(i), r)), Run(cpu, after, State(Ins(W, i), r), 0))
  {
    hide IsB, IsBl, IsCond19, IsTest14, IsAdr, IsAdrp, IsLit, IsPrefetch, ShapeOf, SourceTarget, Ins, Start;
    hide Assembled, Installed, Moved, Wrap, Page;
    var w := W.At(i);
    KindsDisjoint(w);
    PrefetchShape(W, i);
    FetchBody(W, code, after, i);
    assert Body(W, i, W.n) == [];
  }

  // ----- the main theorems -----

  predicate FarTail(W: Window) { Abs((W.End() - Start(W, W.n)) / 4) >= 0x1ff_ffff }

  lemma FarTailWords(W: Window)
    requires FarTail(W)
    ensures Tail(W) == NopIf((Start(W, W.n) + 8) % 8 != 0) + [0x5800_0051, 0xd61f_0220] + Quad(W.End())
  {
    hide Start, Quad;
  }

  lemma Quarters(a: int, b: int)
    requires a % 4 == 0 && b % 4 == 0
    ensures b + 4 * ((a - b) / 4) == a
  {
    var j, k := a / 4, b / 4;
    assert a == 4 * j && b == 4 * k && a - b == 4 * (j - k);
  }

  lemma EndAligned(W: Window)
    requires WellPlaced(W)
    ensures W.End() % 4 == 0
  {
  }

  lemma NearTailWord(W: Window)
    requires WellPlaced(W) && !FarTail(W)
    ensures var p := Start(W, W.n);
      |Tail(W)| == 1 && Decode(Tail(W)[0]) == B((W.End() - p) / 4) && p + 4 * ((W.End() - p) / 4) == W.End()
  {
    EndAligned(W);
    StartBounds(W, W.n);
    hide Start, Quad, Decode, WellPlaced;
    Quarters(W.End(), Start(W, W.n));
    DecodeB((W.End() - Start(W, W.n)) / 4);
  }

  /** The words of a far jump back. */
  lemma FetchFarTail(W: Window, code: seq<Word>, after: Memory) returns (q: nat)
    requires WellPlaced(W) && Assembled(W, code) && Installed(W, code, after) && FarTail(W)
    ensures var p := Start(W, W.n);
      && q <= 1 && (q == 1 ==> after(p) == NOP)
      && after(p + 4 * q) == 0x5800_0051 && after(p + 4 * q + 4) == 0xd61f_0220
      && after(p + 4 * q + 8) == Quad(W.End())[0] && after(p + 4 * q + 12) == Quad(W.End())[1]
  {
    hide Start, Quad, Tail, Assembled, Installed, WellPlaced, FarTail;
    FarTailWords(W);
    q := if (Start(W, W.n) + 8) % 8 != 0 then 1 else 0;
    FetchTail(W, code, after, 0);
    FetchTail(W, code, after, q);
    FetchTail(W, code, after, q + 1);
    FetchTail(W, code, after, q + 2);
    FetchTail(W, code, after, q + 3);
  }

  /** The jump back leads to the instruction after the window. */
  lemma RunTail<R(!new)>(cpu: Cpu<R>, W: Window, code: seq<Word>, after: Memory, r: Regs<R>) returns (k: nat)
    requires WellPlaced(W) && Assembled(W, code) && Installed(W, code, after) && |r.x| == 31
    ensures var u := Run(cpu, after, State(Start(W, W.n), r), k); u.pc == W.End() && SameButX17(u.r, r)
  {
    hide Start, Quad, Decode, Tail, Assembled, Installed, Wrap, FarTail;
    var p := Start(W, W.n);
    StartBounds(W, W.n);
    WrapWindow(W, W.End());
    if FarTail(W) {
      var q := FetchFarTail(W, code, after);
      RunNops(cpu, after, p, q, r);
      FarJump(cpu, after, p + 4 * q, W.End(), r);
      k := q + 2;
      RunAppend(cpu, after, State(p, r), q, 2);
    } else {
      NearTailWord(W);
      FetchTail(W, code, after, 0);
      OneStep(cpu, after, State(p, r));
      k := 1;
    }
  }

  /** Execution at the start of a fragment, where returns arrive, goes on at its instruction; past the last
      fragment it goes on after the window. */
  lemma Arrive<R(!new)>(cpu: Cpu<R>, W: Window, code: seq<Word>, after: Memory, j: nat, r: Regs<R>) returns (k: nat)
    requires WellPlaced(W) && Assembled(W, code) && Installed(W, code, after) && |r.x| == 31 && j <= W.n
    ensures var u := Run(cpu, after, State(Start(W, j), r), k);
            u.pc == Moved(W, W.Pc(j)) && SameButX17(u.r, r) && (j < W.n ==> u.r == r)
  {
    hide Start, Nops, Assembled, Installed, Body, BodyLen;
    if j < W.n {
      FetchBody(W, code, after, j);
      k := Nops(W, j, Start(W, j));
      RunNops(cpu, after, Start(W, j), k, r);
    } else {
      k := RunTail(cpu, W, code, after, r);
    }
  }

  lemma RunFragment<R(!new)>(cpu: Cpu<R>, W: Window, code: seq<Word>, after: Memory, i: nat, r: Regs<R>)
      returns (k: nat)
    requires Setting(W, code, after, i, r) && Supported(W, i) && LiteralApart(W, i, |code|)
    ensures Outcome(cpu, W, i, r, Step(cpu, W.mem, State(W.Pc(i), r)), Run(cpu, after, State(Ins(W, i), r), k))
  {
    hide IsB, IsBl, IsCond19, IsTest14, IsCond, IsAdr, IsAdrp, IsLit, IsPrefetch, ShapeOf, SourceTarget, Ins, Start;
    hide Assembled, Installed, Supported, Outcome, LiteralApart;
    var w := W.At(i);
    if IsB(w) || IsBl(w) || IsCond(w) {
      if Shape(W, i) != Far {
        RunNearBranch(cpu, W, code, after, i, r);
        k := 1;
      } else if IsB(w) {
        RunFarJump(cpu, W, code, after, i, r);
        k := 2;
      } else if IsBl(w) {
        RunFarCall(cpu, W, code, after, i, r);
        k := 3;
      } else {
        k := RunFarCond(cpu, W, code, after, i, r);
      }
    } else if IsLit(w) {
      LitShape(W, i);
      if Shape(W, i) == Inline {
        RunInlineLit(cpu, W, code, after, i, r);
        k := 2;
      } else {
        RunNearLit(cpu, W, code, after, i, r);
        k := 1;
      }
    } else if IsAdr(w) || IsAdrp(w) {
      if Shape(W, i) == Far {
        RunFarAddress(cpu, W, code, after, i, r);
        k := 2;
      } else if IsAdr(w) {
        RunNearAdr(cpu, W, code, after, i, r);
        k := 1;
      } else {
        RunSamePageAdrp(cpu, W, code, after, i, r);
        k := 1;
      }
    } else if IsPrefetch(w) {
      RunPrefetch(cpu, W, code, after, i, r);
      k := 0;
    } else {
      assert !IsCond19(w) && !IsTest14(w) by { NotCond(w); }
      RunPlain(cpu, W, code, after, i, r);
      k := 1;
    }
  }

  lemma NotCond(w: Word)
    requires !IsCond(w)
    ensures !IsCond19(w) && !IsTest14(w)
  {
  }

  /** One step of the original is matched by a run of the relocated code, for every processor and state. */
  lemma StepPreserved<R(!new)>(cpu: Cpu<R>, W: Window, code: seq<Word>, after: Memory, i: nat, r: Regs<R>)
    requires Setting(W, code, after, i, r) && Supported(W, i) && LiteralApart(W, i, |code|)
    requires |Step(cpu, W.mem, State(W.Pc(i), r)).r.x| == 31
    ensures exists k: nat ::
      Matches(cpu, W, i, r, Step(cpu, W.mem, State(W.Pc(i), r)), Run(cpu, after, State(Ins(W, i), r), k))
  {
    hide Step, Ins, Start, Assembled, Installed, Supported, LiteralApart, Decode, Moved;
    var o := Step(cpu, W.mem, State(W.Pc(i), r));
    var k := RunFragment(cpu, W, code, after, i, r);
    var u := Run(cpu, after, State(Ins(W, i), r), k);
    if !Matches(cpu, W, i, r, o, u) {
      var m := Arrive(cpu, W, code, after, i + 1, u.r);
      RunAppend(cpu, after, State(Ins(W, i), r), k, m);
      assert Matches(cpu, W, i, r, o, Run(cpu, after, State(Ins(W, i), r), k + m));
    }
  }

  /** A processor keeps 31 general registers. */
  ghost predicate Typed<R(!new)>(cpu: Cpu<R>) {
    && (forall w: Word, r: Regs<R> :: |r.x| == 31 ==> |cpu.exec(w, r).0.x| == 31)
    && (forall op: nat, rt: nat, d: seq<Word>, r: Regs<R> :: |r.x| == 31 ==> |cpu.load(op, rt, d, r).x| == 31)
  }

  lemma StepTyped<R(!new)>(cpu: Cpu<R>, mem: Memory, s: State<R>)
    requires Typed(cpu) && |s.r.x| == 31
    ensures |Step(cpu, mem, s).r.x| == 31
  {
    hide Decode, Data;
  }

  /** Instruction `i` neither puts a code address of the window into a register nor jumps into it by register. */
  predicate NoCodeAddress<R>(cpu: Cpu<R>, W: Window, i: nat, s: State<R>) {
    match Decode(W.At(i))
    case Bl(_) => false
    case Blr(_) => false
    case Adr(_, _) => !W.Contains(Target(W, i))
    case Br(_) => !W.Contains(Step(cpu, W.mem, s).pc)
    case Plain(_) => JumpsIndirectly(cpu, W.At(i), s.r) ==> !W.Contains(Step(cpu, W.mem, s).pc)
    case _ => true
  }

  /** The first `m` steps of the original from `s` execute supported instructions of the window; only the last may call,
      or handle a code address of the window in a register. */
  ghost predicate RunsInside<R>(cpu: Cpu<R>, W: Window, len: nat, s: State<R>, m: nat)
    decreases m
  {
    m == 0 ||
    (W.Contains(s.pc) && (s.pc - W.base) % 4 == 0
     && var i := W.IndexOf(s.pc);
     Supported(W, i) && LiteralApart(W, i, len) && (m > 1 ==> NoCodeAddress(cpu, W, i, s))
     && RunsInside(cpu, W, len, Step(cpu, W.mem, s), m - 1))
  }

  /** `t` stands for the original's state after `m` steps from `s`: it matches the last of them. */
  ghost predicate Reaches<R(!new)>(cpu: Cpu<R>, W: Window, s: State<R>, m: nat, t: State<R>) {
    if m == 0 then t == State(Moved(W, s.pc), s.r)
    else
      var p := Run(cpu, W.mem, s, m - 1);
      W.Contains(p.pc) && Matches(cpu, W, W.IndexOf(p.pc), p.r, Run(cpu, W.mem, s, m), t)
  }

  lemma ReachesOn<R(!new)>(cpu: Cpu<R>, W: Window, s: State<R>, m: nat, t: State<R>)
    requires m > 1 && Reaches(cpu, W, Step(cpu, W.mem, s), m - 1, t)
    ensures Reaches(cpu, W, s, m, t)
  {
    hide Step, Matches;
  }

  /** A step that stays inside and handles no code address is matched exactly. */
  lemma StaysExact<R(!new)>(cpu: Cpu<R>, W: Window, i: nat, s: State<R>, u: State<R>)
    requires NoCodeAddress(cpu, W, i, s) && Matches(cpu, W, i, s.r, Step(cpu, W.mem, s), u)
    requires var o := Step(cpu, W.mem, s); W.Contains(o.pc) && (o.pc - W.base) % 4 == 0
    ensures var o := Step(cpu, W.mem, s); u == State(Moved(W, o.pc), o.r)
  {
    hide Ins, Decode, Step, Start;
  }

  /** Whole runs: however the original moves through the window, loops included, the relocated code reaches the
      matching state: equal registers inside the window, X17 free once it is left, and after a final call LR naming
      the fragment behind it. */
  lemma {:induction false} RunPreserved<R(!new)>(cpu: Cpu<R>, W: Window, code: seq<Word>, after: Memory, s: State<R>,
      m: nat)
    requires WellPlaced(W) && Assembled(W, code) && Installed(W, code, after)
    requires Typed(cpu) && |s.r.x| == 31 && RunsInside(cpu, W, |code|, s, m)
    ensures exists k: nat :: Reaches(cpu, W, s, m, Run(cpu, after, State(Moved(W, s.pc), s.r), k))
    decreases m
  {
    hide Step, Ins, Start, Assembled, Installed, Supported, LiteralApart, Moved, Typed, NoCodeAddress, Matches;
    var t := State(Moved(W, s.pc), s.r);
    if m == 0 {
      assert Reaches(cpu, W, s, m, Run(cpu, after, t, 0));
    } else {
      var i, o := W.IndexOf(s.pc), Step(cpu, W.mem, s);
      StepTyped(cpu, W.mem, s);
      assert s == State(W.Pc(i), s.r) && t.pc == Ins(W, i) by { MovedInside(W, s.pc); }
      StepPreserved(cpu, W, code, after, i, s.r);
      var k: nat :| Matches(cpu, W, i, s.r, o, Run(cpu, after, t, k));
      if m == 1 {
        assert Run(cpu, W.mem, s, 1) == o by { OneStep(cpu, W.mem, s); }
        assert Reaches(cpu, W, s, m, Run(cpu, after, t, k));
      } else {
        StaysExact(cpu, W, i, s, Run(cpu, after, t, k));
        RunPreserved(cpu, W, code, after, o, m - 1);
        var l: nat :| Reaches(cpu, W, o, m - 1, Run(cpu, after, State(Moved(W, o.pc), o.r), l));
        RunAppend(cpu, after, t, k, l);
        ReachesOn(cpu, W, s, m, Run(cpu, after, t, k + l));
      }
    }
  }

  lemma MovedInside(W: Window, a: int)
    requires W.Contains(a) && (a - W.base) % 4 == 0
    ensures Moved(W, a) == Ins(W, W.IndexOf(a)) && a == W.Pc(W.IndexOf(a))
  {
    hide Ins;
  }

  /** The trampoline is a callable copy of the window: entering it at its first word behaves as entering the
      original function did before it was hooked. */
  lemma TrampolineEntry<R(!new)>(cpu: Cpu<R>, W: Window, code: seq<Word>, after: Memory, r: Regs<R>, m: nat)
    requires WellPlaced(W) && W.n > 0 && Assembled(W, code) && Installed(W, code, after)
    requires Typed(cpu) && |r.x| == 31 && RunsInside(cpu, W, |code|, State(W.base, r), m)
    ensures exists k: nat :: Reaches(cpu, W, State(W.base, r), m, Run(cpu, after, State(W.out, r), k))
  {
    hide Step, Ins, Nops, FragLen, Assembled, Installed, Supported, LiteralApart, Moved, Typed, NoCodeAddress;
    hide Reaches, RunsInside;
    var s := State(W.base, r);
    var k := Arrive(cpu, W, code, after, 0, r);
    RunPreserved(cpu, W, code, after, s, m);
    var l: nat :| Reaches(cpu, W, s, m, Run(cpu, after, State(Moved(W, s.pc), r), l));
    RunAppend(cpu, after, State(W.out, r), k, l);
    assert Reaches(cpu, W, s, m, Run(cpu, after, State(W.out, r), k + l));
  }

  // ----- the hook itself -----

  /** Instructions the stub overwrites, and so the number relocated first. */
  function HookCount(symbol: int, replace: int): nat {
    if Abs((replace - symbol) / 4) >= 0x1ff_ffff then (if (symbol + 8) % 8 != 0 then 5 else 4) else 1
  }

  function HookStub(symbol: int, replace: int): seq<Word> {
    if Abs((replace - symbol) / 4) >= 0x1ff_ffff then
      NopIf(HookCount(symbol, replace) == 5) + [0x5800_0051, 0xd61f_0220] + Quad(replace)
    else
      [0x1400_0000 + ((replace - symbol) / 4) % 0x400_0000]
  }

  /** The stub fills exactly the relocated window and sends every call of `symbol` to `replace`. */
  lemma StubReachesReplacement<R(!new)>(cpu: Cpu<R>, symbol: int, replace: int, after: Memory, r: Regs<R>)
    requires symbol % 4 == 0 && replace % 4 == 0
    requires 0 < symbol < 0x4000_0000_0000_0000 && 0 < replace < 0x4000_0000_0000_0000 && |r.x| == 31
    requires forall t: nat :: t < |HookStub(symbol, replace)| ==> after(symbol + 4 * t) == HookStub(symbol, replace)[t]
    ensures |HookStub(symbol, replace)| == HookCount(symbol, replace)
    ensures exists k: nat :: var u := Run(cpu, after, State(symbol, r), k); u.pc == replace && SameButX17(u.r, r)
  {
    hide Quad, Decode, Wrap, Run, Step, HookStub, HookCount, Abs;
    var off := (replace - symbol) / 4;
    StubShape(symbol, replace);
    if Abs(off) >= 0x1ff_ffff {
      FarStub(cpu, after, symbol, replace, HookCount(symbol, replace) - 4, r);
    } else {
      assert after(symbol + 4 * 0) == HookStub(symbol, replace)[0];
      NearStub(cpu, after, symbol, off, r);
      assert Wrap(replace) == replace by { WrapSmallAddress(replace); }
      var u := Run(cpu, after, State(symbol, r), 1);
      assert u.pc == replace && SameButX17(u.r, r);
    }
  }

  lemma StubShape(symbol: int, replace: int)
    requires symbol % 4 == 0 && replace % 4 == 0
    ensures |HookStub(symbol, replace)| == HookCount(symbol, replace)
    ensures Abs((replace - symbol) / 4) >= 0x1ff_ffff ==>
              HookCount(symbol, replace) in {4, 5}
              && HookStub(symbol, replace) ==
                   NopIf(HookCount(symbol, replace) == 5) + [0x5800_0051, 0xd61f_0220] + Quad(replace)
    ensures Abs((replace - symbol) / 4) < 0x1ff_ffff ==>
              HookStub(symbol, replace) == [0x1400_0000 + ((replace - symbol) / 4) % 0x400_0000]
              && symbol + 4 * ((replace - symbol) / 4) == replace
  {
    hide Quad, Abs;
    Quarters(replace, symbol);
  }

  lemma FarStub<R(!new)>(cpu: Cpu<R>, after: Memory, symbol: int, replace: int, q: nat, r: Regs<R>)
    requires 0 < replace < 0x4000_0000_0000_0000 && |r.x| == 31 && q <= 1 && 0 <= symbol < 0x4000_0000_0000_0000
    requires var b := NopIf(q == 1) + [0x5800_0051, 0xd61f_0220] + Quad(replace);
      forall t: nat :: t < |b| ==> after(symbol + 4 * t) == b[t]
    ensures exists k: nat :: var u := Run(cpu, after, State(symbol, r), k); u.pc == replace && SameButX17(u.r, r)
  {
    hide Quad, Decode, Wrap, Run, Step;
    var b := NopIf(q == 1) + [0x5800_0051, 0xd61f_0220] + Quad(replace);
    assert Wrap(replace) == replace by { WrapSmallAddress(replace); }
    assert after(symbol + 4 * q) == b[q] && after(symbol + 4 * (q + 1)) == b[q + 1]
        && after(symbol + 4 * (q + 2)) == b[q + 2] && after(symbol + 4 * (q + 3)) == b[q + 3];
    if q == 1 { assert b[0] == NOP && after(symbol + 4 * 0) == b[0]; }
    RunNops(cpu, after, symbol, q, r);
    FarJump(cpu, after, symbol + 4 * q, replace, r);
    RunAppend(cpu, after, State(symbol, r), q, 2);
    var u := Run(cpu, after, State(symbol, r), q + 2);
    assert u.pc == replace && SameButX17(u.r, r);
  }

  lemma WrapSmallAddress(a: int)
    requires 0 <= a < TWO64
    ensures Wrap(a) == a
  {
  }

  lemma NearStub<R(!new)>(cpu: Cpu<R>, after: Memory, symbol: int, off: int, r: Regs<R>)
    requires Abs(off) < 0x1ff_ffff && after(symbol) == 0x1400_0000 + off % 0x400_0000
    ensures Run(cpu, after, State(symbol, r), 1) == State(Wrap(symbol + 4 * off), r)
  {
    hide Decode;
    DecodeB(off);
    OneStep(cpu, after, State(symbol, r));
  }

  /** Inlined addresses are 8-byte aligned, inlined literals aligned to their own size. */
  lemma LiteralsAligned(W: Window, i: nat)
    requires WellPlaced(W) && i < W.n
    ensures Shape(W, i) == Inline ==> (Ins(W, i) + 8) % LitBytes(W.At(i)) == 0
    ensures Shape(W, i) == Far ==> (Start(W, i + 1) - 8) % 8 == 0
  {
    hide ShapeOf, Start, IsB, IsBl, IsCond, IsLit, LitBytes, PadTo, Pos, WellPlaced;
    StartBounds(W, i);
    PaddingBound(W.At(i), Start(W, i) + 8);
    if Shape(W, i) == Inline {
      PadReaches(Start(W, i) + 8, LitBytes(W.At(i)));
      assert Start(W, i) + 8 + 4 * PadTo(Start(W, i) + 8, LitBytes(W.At(i))) == Ins(W, i) + 8;
    } else if Shape(W, i) == Far {
      NextStart(W, i);
      FarLength(W, i);
      FarAligned(Start(W, i), FragLen(W, i, Start(W, i)), IsBl(W.At(i)), IsCond(W.At(i)));
    }
  }

  lemma NextStart(W: Window, i: nat)
    ensures Start(W, i + 1) == Start(W, i) + 4 * FragLen(W, i, Start(W, i))
  {
    hide FragLen;
  }

  lemma FarLength(W: Window, i: nat)
    requires Shape(W, i) == Far
    ensures var a, len := Start(W, i), FragLen(W, i, Start(W, i));
      len == if IsBl(W.At(i)) then (if (a + 8) % 8 == 0 then 6 else 5)
             else if IsCond(W.At(i)) then (if (a + 16) % 8 != 0 then 7 else 6)
             else (if (a + 8) % 8 != 0 then 5 else 4)
  {
    hide ShapeOf, Start, IsB, IsBl, IsCond, IsLit;
  }

  lemma FarAligned(a: int, len: nat, call: bool, cond: bool)
    requires a % 4 == 0
    requires len == if call then (if (a + 8) % 8 == 0 then 6 else 5)
                    else if cond then (if (a + 16) % 8 != 0 then 7 else 6)
                    else (if (a + 8) % 8 != 0 then 5 else 4)
    ensures (a + 4 * len - 8) % 8 == 0
  {
    var q, b, p, d := Places(a);
    Remainder8(a + 8, q + 1, 4 * b);
    Remainder8(a + 16, q + 2, 4 * b);
    var k := (4 * b + 4 * len - 8) / 8;
    Remainder8(a + 4 * len - 8, q + k, 0);
  }

  lemma PadReaches(a: int, n: nat)
    requires n in {4, 8, 16} && a % 4 == 0
    ensures (a + 4 * PadTo(a, n)) % n == 0
  {
    if n == 4 {
      Reach4(a);
    } else if n == 8 {
      Reach8(a);
    } else {
      Reach16(a);
    }
  }

  lemma Reach4(a: int)
    requires a % 4 == 0
    ensures (a + 4 * (((-a) % 4) / 4)) % 4 == 0
  {
    var k := a / 4;
    Remainder4(-a, -k, 0);
  }

  lemma Reach8(a: int)
    requires a % 4 == 0
    ensures (a + 4 * (((-a) % 8) / 4)) % 8 == 0
  {
    var q, b, p, d := Places(a);
    Remainder8(-a, if b == 0 then -q else -q - 1, 4 * b);
    Remainder8(a + 4 * b, q + b, 0);
  }

  lemma Reach16(a: int)
    requires a % 4 == 0
    ensures (a + 4 * (((-a) % 16) / 4)) % 16 == 0
  {
    var q, b, p, d := Places(a);
    Remainder16(-a, if d == 0 then -p else -p - 1, if d == 0 then 0 else 16 - 4 * d);
    Remainder16(a + 4 * (((-a) % 16) / 4), if d == 0 then p else p + 1, 0);
  }
}

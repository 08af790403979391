/** Two-pass description of the relocated code: first the address of every fragment, then its final words.
    The one-pass relocator of A64Relocator is proved to produce exactly this code. */
module A64Layout {
  import opened Words
  import opened A64Isa

  const MAX_INSTRUCTIONS := 5

  /** `n` instructions at `base` are moved to `out`; `mem` is memory at hooking time. */
  datatype Window = Window(base: int, n: nat, out: int, mem: Memory) {
    function Pc(i: int): int { base + 4 * i }
    function At(i: int): Word { mem(Pc(i)) }
    function End(): int { Pc(n) }
    predicate Contains(a: int) { base <= a < End() }
    function IndexOf(a: int): int { (a - base) / 4 }
  }

  /** Both code areas are word aligned and lie in the user half of the address space. */
  predicate WellPlaced(W: Window) {
    && W.n <= MAX_INSTRUCTIONS
    && 0 < W.base && W.base % 4 == 0 && W.base < 0x4000_0000_0000_0000
    && 0 < W.out && W.out % 4 == 0 && W.out < 0x4000_0000_0000_0000
  }

  // ----- what the source computes from one instruction -----

  /** The source's `absolute_addr`. Only B and BL extend the sign: conditional branches use a logical
      shift, and the other forms mask an int32 with an unsigned constant before widening it. */
  function SourceTarget(w: Word, pc: int): int {
    if IsB(w) || IsBl(w) then pc + 4 * Signed(w % 0x400_0000, 0x200_0000)
    else if IsCond19(w) then pc + 4 * Imm19(w)
    else if IsTest14(w) then pc + 4 * Imm14(w)
    else if IsLit(w) then pc + (4 * Signed(Imm19(w), 0x4_0000)) % TWO32
    else if IsAdr(w) then pc + (4 * Signed(Imm19(w), 0x4_0000)) % TWO32 + ImmLo(w)
    else Page(pc) + (((4 * Signed(Imm19(w), 0x4_0000)) % TWO32 + ImmLo(w)) * 4096) % TWO32
  }

  /** The architecture's target of a branch, literal load or address computation. */
  function TrueTarget(w: Word, pc: int): int {
    match Decode(w)
    case B(off) => pc + 4 * off
    case Bl(off) => pc + 4 * off
    case CondBr(_, off) => pc + 4 * off
    case LdrLit(_, _, off) => pc + 4 * off
    case Adr(_, disp) => pc + disp
    case Adrp(_, pages) => Page(pc) + 4096 * pages
    case _ => pc
  }

  function Displacement(w: Word): int {
    match Decode(w)
    case B(off) => off
    case Bl(off) => off
    case CondBr(_, off) => off
    case LdrLit(_, _, off) => off
    case Adr(_, disp) => disp
    case Adrp(_, pages) => pages
    case _ => 0
  }

  /** What losing the sign of a negative displacement adds to the target. */
  function SignLoss(w: Word): int {
    if IsB(w) || IsBl(w) then 0
    else if IsCond19(w) then 0x20_0000
    else if IsTest14(w) then 0x1_0000
    else TWO32
  }

  lemma ZeroExtended(i: nat)
    requires i < 0x8_0000
    ensures (4 * Signed(i, 0x4_0000)) % TWO32 == 4 * (if i < 0x4_0000 then i else i + 0x3ff8_0000)
  {
  }

  lemma ZeroExtendedPages(i: nat, lo: nat)
    requires i < 0x8_0000 && lo < 4
    ensures ((4 * (if i < 0x4_0000 then i else i + 0x3ff8_0000) + lo) * 4096) % TWO32
         == 4096 * Signed(4 * i + lo, 0x10_0000) + if i < 0x4_0000 then 0 else TWO32
  {
  }

  /** The source finds the architecture's target exactly when the displacement is not negative, or for B/BL;
      otherwise it is off by the weight of the lost sign. */
  lemma SourceTargetIsTrueIffNonNegative(w: Word, pc: int)
    requires IsPcRelative(w) && !IsPrefetch(w)
    ensures SourceTarget(w, pc) == TrueTarget(w, pc) + if Displacement(w) < 0 then SignLoss(w) else 0
    ensures SourceTarget(w, pc) == TrueTarget(w, pc) <==> IsB(w) || IsBl(w) || Displacement(w) >= 0
  {
    hide IsB, IsBl, IsCond19, IsTest14, IsLit, IsAdr, IsAdrp, IsPrefetch, Page;
    KindsDisjoint(w);
    ZeroExtended(Imm19(w));
    ZeroExtendedPages(Imm19(w), ImmLo(w));
  }

  /** B.EQ, TBZ, LDR X0 and ADR X0 to the word before them, at 0x1000. */
  lemma BackwardTargetsAreLost()
    ensures TrueTarget(0x54ff_ffe0, 0x1000) == 0xffc && SourceTarget(0x54ff_ffe0, 0x1000) == 0x20_0ffc
    ensures TrueTarget(0x3607_ffe0, 0x1000) == 0xffc && SourceTarget(0x3607_ffe0, 0x1000) == 0x1_0ffc
    ensures TrueTarget(0x58ff_ffe0, 0x1000) == 0xffc && SourceTarget(0x58ff_ffe0, 0x1000) == 0x1_0000_0ffc
    ensures TrueTarget(0x10ff_ffe0, 0x1000) == 0xffc && SourceTarget(0x10ff_ffe0, 0x1000) == 0x1_0000_0ffc
  {
    assert Top(0x54ff_ffe0) == 0x54 && Imm19(0x54ff_ffe0) == 0x7_ffff;
    assert Top(0x3607_ffe0) == 0x36 && Imm14(0x3607_ffe0) == 0x3fff;
    assert Top(0x58ff_ffe0) == 0x58 && Imm19(0x58ff_ffe0) == 0x7_ffff;
    assert Top(0x10ff_ffe0) == 0x10 && Imm19(0x10ff_ffe0) == 0x7_ffff && ImmLo(0x10ff_ffe0) == 0;
  }

  /** Bytes of a literal (`faligned + 1`), which is also the alignment the source gives it. */
  function LitBytes(w: Word): nat {
    if Top(w) in {0x18, 0x1c} then 4 else if Top(w) == 0x9c then 16 else 8
  }

  // ----- shapes -----

  /** How an instruction is rewritten: a single word with a recomputed offset (`Near`), a single word
      referring to another fragment (`Resolved`), an inlined absolute address (`Far`) or literal (`Inline`),
      nothing at all (`Skip`, prefetches), or the same word (`Verbatim`). */
  datatype Rewriting = Near | Resolved(j: int) | Far | Inline | Skip | Verbatim

  function ShapeOf(W: Window, i: int, out: int): Rewriting {
    var w, pc := W.At(i), W.Pc(i);
    var t := SourceTarget(w, pc);
    var off := (t - out) / 4;
    if IsB(w) || IsBl(w) then
      if W.Contains(t) then Resolved(W.IndexOf(t)) else if Abs(off) >= 0x1ff_ffff then Far else Near
    else if IsCond19(w) then
      if W.Contains(t) then Resolved(W.IndexOf(t)) else if Abs(off) >= 0x3_ffff then Far else Near
    else if IsTest14(w) then
      if W.Contains(t) then Resolved(W.IndexOf(t)) else if Abs(off) >= 0x1fff then Far else Near
    else if IsPrefetch(w) then Skip
    else if IsLit(w) then
      if W.Contains(t) || Abs(off) + (LitBytes(w) - 4) / 4 >= 0x3_ffff then Inline else Near
    else if IsAdr(w) then
      if W.Contains(t) then Resolved(W.IndexOf(t)) else if Abs(t - out) >= 0xf_ffff then Far else Near
    else if IsAdrp(w) then
      if W.Contains(t) then Verbatim else Far
    else Verbatim
  }

  /** NOPs needed at `a` so that `a` becomes a multiple of `n` bytes. */
  function PadTo(a: int, n: nat): nat
    requires n in {4, 8, 16}
  {
    if n == 4 then ((-a) % 4) / 4 else if n == 8 then ((-a) % 8) / 4 else ((-a) % 16) / 4
  }

  function Nops(W: Window, i: int, out: int): nat {
    var w := W.At(i);
    match ShapeOf(W, i, out)
    case Far =>
      if IsBl(w) then (if (out + 8) % 8 == 0 then 1 else 0)
      else if IsCond(w) then (if (out + 16) % 8 != 0 then 1 else 0)
      else (if (out + 8) % 8 != 0 then 1 else 0)
    case Inline => PadTo(out + 8, LitBytes(w))
    case Near => if IsLit(w) then ((SourceTarget(w, W.Pc(i)) - out) / 4) % (LitBytes(w) / 4) else 0
    case _ => 0
  }

  function BodyLen(W: Window, i: int, out: int): nat {
    var w := W.At(i);
    match ShapeOf(W, i, out)
    case Far => if IsBl(w) then 5 else if IsCond(w) then 6 else 4
    case Inline => 2 + LitBytes(w) / 4
    case Skip => 0
    case _ => 1
  }

  function FragLen(W: Window, i: int, out: int): nat { Nops(W, i, out) + BodyLen(W, i, out) }

  /** Address of fragment `i`, including its alignment NOPs. */
  function Start(W: Window, i: nat): int {
    if i == 0 then W.out else Start(W, i - 1) + 4 * FragLen(W, i - 1, Start(W, i - 1))
  }

  /** The final `dat[i].ins`: where execution of instruction `i` begins. */
  function Ins(W: Window, i: nat): int { Start(W, i) + 4 * Nops(W, i, Start(W, i)) }

  function Shape(W: Window, i: nat): Rewriting { ShapeOf(W, i, Start(W, i)) }

  /** Index of fragment `i` in the output buffer. */
  function Pos(W: Window, i: nat): int { (Start(W, i) - W.out) / 4 }

  /** Three NOPs, a two-word head and a 16-byte literal are the most one instruction needs. */
  lemma FragLenBound(W: Window, i: int, out: int)
    ensures Nops(W, i, out) <= 3 && FragLen(W, i, out) <= 9
  {
    var w := W.At(i);
    assert LitBytes(w) in {4, 8, 16};
  }

  lemma {:induction false} StartBounds(W: Window, i: nat)
    requires WellPlaced(W)
    ensures Start(W, i) == W.out + 4 * Pos(W, i) && 0 <= Pos(W, i) <= 9 * i
    ensures Start(W, i) % 4 == 0 && Ins(W, i) % 4 == 0
    ensures Start(W, i) <= Ins(W, i) <= Start(W, i + 1) <= Start(W, i) + 36
    ensures Pos(W, i + 1) == Pos(W, i) + FragLen(W, i, Start(W, i))
  {
    hide ShapeOf, Nops, BodyLen;
    FragLenBound(W, i, Start(W, i));
    var len := FragLen(W, i, Start(W, i));
    assert Start(W, i + 1) == Start(W, i) + 4 * len;
    if i != 0 { StartBounds(W, i - 1); }
  }

  lemma {:induction false} StartMonotone(W: Window, i: nat, j: nat)
    requires WellPlaced(W) && i < j
    ensures Start(W, i + 1) <= Start(W, j) <= Ins(W, j) <= Start(W, i) + 36 * (j - i) + 12
    ensures Pos(W, i + 1) <= Pos(W, j)
    decreases j - i
  {
    hide Start, Pos, FragLen, Nops, ShapeOf, WellPlaced;
    FragLenBound(W, j, Start(W, j));
    StartBounds(W, i);
    StartBounds(W, j);
    StartBounds(W, i + 1);
    if i + 1 < j { StartMonotone(W, i + 1, j); }
  }

  // ----- words -----

  function Quad(t: int): (q: seq<Word>)
    ensures |q| == 2
  {
    [t % TWO32, (t / TWO32) % TWO32]
  }

  /** The word that holds a branch or ADR with word offset `off`. */
  function EncodeOffset(w: Word, off: int): Word {
    if IsB(w) then 0x1400_0000 + off % 0x400_0000
    else if IsBl(w) then 0x9400_0000 + off % 0x400_0000
    else if IsTest14(w) then (Replace14(w, off % 0x4000); w - 32 * Imm14(w) + 32 * (off % 0x4000))
    else (Replace19(w, off % 0x8_0000); w - 32 * Imm19(w) + 32 * (off % 0x8_0000))
  }

  /** The source's mask `~mask` for literal loads: it lets opcode bits through. */
  function LitFieldMask(w: Word): Word {
    if Top(w) in {0x18, 0x58} then 0x40ff_ffff else if Top(w) == 0x98 then 0x00ff_ffff else 0xc0ff_ffff
  }

  lemma {:induction false} BitAndBound(a: nat, b: nat)
    ensures BitAnd(a, b) <= a && BitAnd(a, b) <= b
  {
    if a != 0 && b != 0 { BitAndBound(a / 2, b / 2); }
  }

  function Or32(a: Word, b: Word): Word {
    ShlValues();
    BitOrBound(a, b, 32);
    BitOr(a, b)
  }

  /** A rebased literal load; `off` may be negative, and then the mask also sets opcode bits. */
  function NearLitWord(w: Word, off: int): Word {
    BitAndBound((off * 32) % TWO32, LitFieldMask(w));
    Or32(w - 32 * Imm19(w), BitAnd((off * 32) % TWO32, LitFieldMask(w)))
  }

  /** A rebased ADR; the two low bits of the byte distance fall into the register field. */
  function NearAdrWord(w: Word, disp: int): Word {
    Or32(w - 32 * Imm19(w), (disp * 8) % 0x100_0000)
  }

  /** The word offset of a reference from `i` to fragment `j`, zero while `j` is still pending. */
  function RefOffset(W: Window, i: nat, j: nat, upto: nat): int {
    if j <= i || j < upto then (Ins(W, j) - Ins(W, i)) / 4 else 0
  }

  /** The words of fragment `i` after its NOPs, when references to fragments below `upto` are resolved. */
  function Body(W: Window, i: nat, upto: nat): seq<Word> {
    var w, p := W.At(i), Ins(W, i);
    var t := SourceTarget(w, W.Pc(i));
    match Shape(W, i)
    case Skip => []
    case Verbatim => [w]
    case Resolved(j) => [EncodeOffset(w, if j < 0 then 0 else RefOffset(W, i, j, upto))]
    case Near =>
      if IsLit(w) then [NearLitWord(w, (t - p) / 4)]
      else if IsAdr(w) then [NearAdrWord(w, t - p)]
      else [EncodeOffset(w, (t - p) / 4)]
    case Inline =>
      [(Replace19(w, 2); w - 32 * Imm19(w) + 64), 0x1400_0001 + LitBytes(w) / 4] + Data(W.mem, t, LitBytes(w) / 4)
    case Far =>
      if IsB(w) then [0x5800_0051, 0xd61f_0220] + Quad(t)
      else if IsBl(w) then [0x5800_0071, 0x1000_009e, 0xd61f_0220] + Quad(t)
      else if IsCond(w) then [EncodeOffset(w, 2), 0x1400_0005, 0x5800_0051, 0xd61f_0220] + Quad(t)
      else [0x5800_0040 + Low5(w), 0x1400_0003] + Quad(t)
  }

  function Frag(W: Window, i: nat, upto: nat): (f: seq<Word>)
  {
    seq(Nops(W, i, Start(W, i)), _ => NOP) + Body(W, i, upto)
  }

  lemma FragLength(W: Window, i: nat, upto: nat)
    ensures |Body(W, i, upto)| == BodyLen(W, i, Start(W, i))
    ensures |Frag(W, i, upto)| == FragLen(W, i, Start(W, i))
  {
  }

  // ----- the jump back -----

  function TailNops(W: Window, out: int): nat {
    if Abs((W.End() - out) / 4) >= 0x1ff_ffff && (out + 8) % 8 != 0 then 1 else 0
  }

  function Tail(W: Window): seq<Word> {
    var out := Start(W, W.n);
    if Abs((W.End() - out) / 4) >= 0x1ff_ffff then
      seq(TailNops(W, out), _ => NOP) + [0x5800_0051, 0xd61f_0220] + Quad(W.End())
    else
      [0x1400_0000 + ((W.End() - out) / 4) % 0x400_0000]
  }
}

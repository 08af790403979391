/** The Thumb relocator of the 32-bit hook: fragments, their layout, and the meaning of the relocated branches. */
module Thumb {
  import opened Words
  import HookTable

  type Half = h: int | 0 <= h < 0x1_0000

  /** `ALIGN_PC`. */
  function Align(a: Word): Word { a - a % 4 }

  // ----- classifiers -----

  datatype Type16 = B1 | B2 | BX | ADD | MOV | ADR | LDR | CB | OTHER

  function TypeOf16(ins: Half): Type16 {
    if ins / 0x1000 == 0xD then B1
    else if ins / 0x800 == 0x1C then B2
    else if ins / 8 == 0x8EF then BX
    else if ins / 0x100 == 0x44 && ins / 8 % 16 == 15 then ADD
    else if ins / 0x100 == 0x46 && ins / 8 % 16 == 15 then MOV
    else if ins / 0x800 == 0x14 then ADR
    else if ins / 0x800 == 9 then LDR
    else if ins / 0x1000 == 0xB && ins / 0x400 % 2 == 0 && ins / 0x100 % 2 == 1 then CB
    else OTHER
  }

  datatype Type32 = BLX_W | BL_W | BCOND_W | B_W | ADR_SUB | ADR_ADD | LDR_W | TBB | TBH | OTHER_W

  /** Bits 15, 14 and 12 of the second half: the kind of a 32-bit branch. */
  function Kind(lo: Half): nat { lo / 0x4000 * 2 + lo / 0x1000 % 2 }

  function TypeOf32(hi: Half, lo: Half): Type32 {
    if hi / 16 == 0xF3B && Kind(lo) == 4 then OTHER_W
    else if hi / 0x800 == 0x1E && Kind(lo) == 6 then BLX_W
    else if hi / 0x800 == 0x1E && Kind(lo) == 7 then BL_W
    else if hi / 0x800 == 0x1E && Kind(lo) == 4 then BCOND_W
    else if hi / 0x800 == 0x1E && Kind(lo) == 5 then B_W
    else if hi - hi / 0x400 % 2 * 0x400 == 0xF2AF && lo < 0x8000 then ADR_SUB
    else if hi - hi / 0x400 % 2 * 0x400 == 0xF20F && lo < 0x8000 then ADR_ADD
    else if hi - hi / 0x80 % 2 * 0x80 == 0xF85F then LDR_W
    else if hi == 0xE8DF && lo / 16 % 16 == 0 then TBB
    else if hi == 0xE8DF && lo / 16 % 16 == 1 then TBH
    else OTHER_W
  }

  // ----- the emitted fragments -----

  /** `LDR.W PC, [PC]` and its literal. */
  function Jump(value: Word): (s: seq<Half>)
    ensures |s| == 4
  {
    [0xF8DF, 0xF000, value % 0x1_0000, value / 0x1_0000]
  }

  /** The register list of one of the spare registers. */
  function OneHot(r: nat): (m: nat)
    ensures m < 0x100
  {
    if r == 7 then 0x80 else if r == 6 then 0x40 else 0x20
  }

  /** A spare low register. */
  function Spare(r: nat): nat { if r == 7 then 6 else 7 }

  function Spare2(a: nat, b: nat): nat {
    if a != 7 && b != 7 then 7 else if a != 6 && b != 6 then 6 else 5
  }

  /** The source extends a sign by OR-ing ones above `width` bits. */
  function Extend(x: nat, top: nat, width: nat): int { if top != 0 then x + 0x1_0000_0000 - width else x }

  function Imm8(ins: Half): int {
    var x := ins % 0x100 * 2;
    Extend(x, x / 0x100, 0x200)
  }

  function Imm11(ins: Half): int {
    var x := ins % 0x800 * 2;
    Extend(x, x / 0x800, 0x1000)
  }

  /** The forward displacement of CBZ and CBNZ. */
  function ImmCb(ins: Half): nat { ins / 0x200 % 2 * 0x40 + ins / 8 % 0x20 * 2 }

  function SetBit0(v: Word): Word { if v % 2 == 1 then v else v + 1 }

  /** `relocateInstructionInThumb16`; `lit` reads a word of memory. */
  function Frag16(pc: Word, ins: Half, lit: Word -> Word): seq<Half> {
    match TypeOf16(ins)
    case B1 => [ins / 0x100 * 0x100, 0xE003] + Jump(SetBit0(Add32(pc, Imm8(ins))))
    case B2 => Jump(SetBit0(Add32(pc, Imm11(ins))))
    case BX => Jump(SetBit0(pc))
    case ADD =>
      var r := Spare(ins / 0x80 % 2 * 8 + ins % 8);
      [0xB400 + OneHot(r), 0x4802 + r * 0x100, ins / 0x80 * 0x80 + ins % 8 + r * 8, 0xBC00 + OneHot(r),
       0xE002, 0xBF00, pc % 0x1_0000, pc / 0x1_0000]
    case MOV => Load(ins % 8, pc)
    case ADR => Load(ins / 0x100 % 8, (Align(pc) + ins % 0x100) * 4 % 0x1_0000_0000)
    case LDR => Load(ins / 0x100 % 8, lit(Add32(Align(pc), ins % 0x100 * 4)))
    case CB => [ins / 0x400 * 0x400 + 0x100 + ins % 8, 0xE003] + Jump(Add32(pc, ImmCb(ins) + 1))
    case OTHER => [ins, 0xBF00]
  }

  /** `LDR Rd, [PC]`, a branch over the literal, and the literal. */
  function Load(r: nat, value: Word): seq<Half>
    requires r < 8
  {
    [0x4800 + r * 0x100, 0xE001, value % 0x1_0000, value / 0x1_0000]
  }

  /** S:I1:I2:imm10:imm11:0, S at bit 24; `low` are the bits taken of the second half. */
  function X25(hi: Half, lo: Half, low: nat): nat {
    var s, j1, j2 := hi / 0x400 % 2, lo / 0x2000 % 2, lo / 0x800 % 2;
    s * 0x100_0000 + (if j1 == s then 0x80_0000 else 0) + (if j2 == s then 0x40_0000 else 0)
    + hi % 0x400 * 0x1000 + low * 2
  }

  /** The low bits of BLX, whose target is 4-aligned. */
  function EvenLow(lo: Half): nat { lo % 0x800 / 2 * 2 }

  /** S:J2:J1:imm6:imm11:0, S at bit 20. */
  function X21(hi: Half, lo: Half): nat {
    hi / 0x400 % 2 * 0x10_0000 + lo / 0x800 % 2 * 0x8_0000 + lo / 0x2000 % 2 * 0x4_0000 + hi % 0x40 * 0x1000
    + lo % 0x800 * 2
  }

  function Ext25(hi: Half, lo: Half, low: nat): int { Extend(X25(hi, lo, low), hi / 0x400 % 2, 0x200_0000) }

  function Ext21(hi: Half, lo: Half): int { Extend(X21(hi, lo), hi / 0x400 % 2, 0x20_0000) }

  /** `relocateInstructionInThumb32`. */
  function Frag32(pc: Word, hi: Half, lo: Half, lit: Word -> Word): seq<Half> {
    match TypeOf32(hi, lo)
    case BLX_W => [0xF20F, 0x0E09] + Jump(Add32(Align(pc), Ext25(hi, lo, EvenLow(lo))))
    case BL_W => [0xF20F, 0x0E09] + Jump(Add32(Align(pc), Ext25(hi, lo, lo % 0x800) + 1))
    case BCOND_W => [0xD000 + hi / 0x40 % 16 * 0x100, 0xE003] + Jump(Add32(Align(pc), Ext21(hi, lo) + 1))
    case B_W => Jump(Add32(Align(pc), Ext25(hi, lo, lo % 0x800) + 1))
    case ADR_SUB => LoadWide(lo / 0x100 % 16, Add32(Align(pc), AdrImm(hi, lo)))
    case ADR_ADD => LoadWide(lo / 0x100 % 16, Add32(Align(pc), -AdrImm(hi, lo)))
    case LDR_W =>
      LoadWide(lo / 0x1000,
               lit(Add32(Align(pc), if hi / 0x80 % 2 == 1 then lo % 0x1000 else -(lo % 0x1000))))
    case TBB => TableJump(pc, lo % 16, 0, 0x7800)
    case TBH => TableJump(pc, lo % 16, 0x40, 0x8800)
    case OTHER_W => [hi, lo]
  }

  /** The source's immediate of ADR.W: the fields are shifted to the top of the word, so they overlap. */
  function AdrImm(hi: Half, lo: Half): int {
    BitOr(BitOr(hi / 0x400 % 2 * 0x8000_0000, lo / 0x1000 % 8 * 0x4000_0000 % 0x1_0000_0000),
        lo % 0x100 * 0x800_0000 % 0x1_0000_0000)
  }

  function LoadWide(r: nat, value: Word): seq<Half>
    requires r < 16
  {
    [0xF8DF, r * 0x1000 + 4, 0xBF00, 0xE001, value % 0x1_0000, value / 0x1_0000]
  }

  function TableJump(pc: Word, rm: nat, shift: nat, load: nat): seq<Half>
    requires rm < 16 && shift <= 0x40 && load <= 0x8800
  {
    var r := Spare(rm);
    var rx := Spare2(rm, r);
    [0xB400 + OneHot(rx), 0x4805 + r * 0x100, 0x4600 + rm * 8 + rx, 0xEB00 + r, shift + rx * 0x100 + rx,
     load + rx * 8 + rx, 0xEB00 + r, 0x40 + r * 0x100 + rx, 0x3001 + r * 0x100, 0xBC00 + OneHot(rx), 0x4700 + r * 8,
     0xBF00, pc % 0x1_0000, pc / 0x1_0000]
  }

  // ----- the trampoline -----

  predicate Wide(ins: Half) { 0x1D <= ins / 0x800 <= 0x1F }

  /** Where relocation stops: after the last instruction that fits. */
  function End(orig: seq<Half>, pos: nat): nat
    requires pos < |orig|
    decreases |orig| - pos
  {
    var next := if Wide(orig[pos]) then pos + 2 else pos + 1;
    if next > |orig| then pos else if next == |orig| then next else End(orig, next)
  }

  function FragAt(target: Word, orig: seq<Half>, pos: nat, lit: Word -> Word): seq<Half>
    requires pos < |orig| && (Wide(orig[pos]) ==> pos + 1 < |orig|)
  {
    var pc := Add32(target, 4 + 2 * pos);
    if Wide(orig[pos]) then Frag32(pc, orig[pos], orig[pos + 1], lit) else Frag16(pc, orig[pos], lit)
  }

  function Body(target: Word, orig: seq<Half>, pos: nat, lit: Word -> Word): seq<Half>
    requires pos < |orig|
    decreases |orig| - pos
  {
    var next := if Wide(orig[pos]) then pos + 2 else pos + 1;
    if next > |orig| then []
    else if next == |orig| then FragAt(target, orig, pos, lit)
    else FragAt(target, orig, pos, lit) + Body(target, orig, next, lit)
  }

  /** The fragments and the jump back. */
  function Trampoline(target: Word, orig: seq<Half>, lit: Word -> Word): seq<Half>
    requires orig != []
  {
    Body(target, orig, 0, lit) + Jump(Add32(target, End(orig, 0) * 2 + 1))
  }

  /** The positions of the fragments, in half words, with the instruction each one stands for. */
  function Starts(target: Word, orig: seq<Half>, pos: nat, at: nat, lit: Word -> Word): seq<(nat, nat)>
    requires pos < |orig|
    decreases |orig| - pos
  {
    var next := if Wide(orig[pos]) then pos + 2 else pos + 1;
    if next > |orig| then [(pos, at)]
    else if next == |orig| then [(pos, at)]
    else [(pos, at)] + Starts(target, orig, next, at + |FragAt(target, orig, pos, lit)|, lit)
  }

  lemma FragEven(target: Word, orig: seq<Half>, pos: nat, lit: Word -> Word)
    requires pos < |orig| && (Wide(orig[pos]) ==> pos + 1 < |orig|)
    ensures |FragAt(target, orig, pos, lit)| % 2 == 0 && 2 <= |FragAt(target, orig, pos, lit)| <= 14
  {
    hide TypeOf16, TypeOf32, Add32, Align, AdrImm, Ext25, Ext21, Imm8, Imm11, ImmCb, SetBit0, Spare, Spare2, OneHot;
  }

  lemma {:induction false} BodyEven(target: Word, orig: seq<Half>, pos: nat, lit: Word -> Word)
    requires pos < |orig|
    ensures |Body(target, orig, pos, lit)| % 2 == 0 && |Body(target, orig, pos, lit)| <= 14 * (|orig| - pos)
    decreases |orig| - pos
  {
    hide FragAt;
    var next := if Wide(orig[pos]) then pos + 2 else pos + 1;
    if next <= |orig| { FragEven(target, orig, pos, lit); }
    if next < |orig| { BodyEven(target, orig, next, lit); }
  }

  predicate HasAt(body: seq<Half>, i: nat, frag: seq<Half>) {
    i + |frag| <= |body| && body[i..i + |frag|] == frag
  }

  /** The fragment of the instruction at `f.0` starts at `f.1`, on a 4-byte boundary of the page; `at` is where the
      body of the instructions from `pos` on starts. */
  predicate InPlace(target: Word, orig: seq<Half>, pos: nat, at: nat, lit: Word -> Word, f: (nat, nat))
    requires pos < |orig|
  {
    && f.0 < |orig| && at <= f.1 && f.1 % 2 == 0
    && (f.0 < End(orig, pos) ==>
          && (Wide(orig[f.0]) ==> f.0 + 1 < |orig|)
          && HasAt(Body(target, orig, pos, lit), f.1 - at, FragAt(target, orig, f.0, lit)))
    && (f.0 == End(orig, pos) ==> f.1 - at == |Body(target, orig, pos, lit)|)
  }

  lemma HasBehind(a: seq<Half>, b: seq<Half>, i: nat, frag: seq<Half>)
    requires HasAt(b, i, frag)
    ensures HasAt(a + b, |a| + i, frag)
  {
    assert (a + b)[|a| + i..|a| + i + |frag|] == b[i..i + |frag|];
  }

  lemma HasFirst(a: seq<Half>, b: seq<Half>)
    ensures HasAt(a + b, 0, a) && HasAt(a, 0, a)
  {
    assert (a + b)[0..0 + |a|] == a && a[0..0 + |a|] == a;
  }

  /** One more fragment in front. */
  lemma InPlaceBehind(target: Word, orig: seq<Half>, pos: nat, at: nat, lit: Word -> Word, f: (nat, nat))
    requires pos < |orig| && at % 2 == 0
    requires var next := if Wide(orig[pos]) then pos + 2 else pos + 1;
      next < |orig| && InPlace(target, orig, next, at + |FragAt(target, orig, pos, lit)|, lit, f)
    ensures InPlace(target, orig, pos, at, lit, f)
  {
    hide FragAt, Body, End, Wide, Starts, HasAt;
    OneStep(target, orig, pos, at, lit);
    var next := if Wide(orig[pos]) then pos + 2 else pos + 1;
    var frag, body := FragAt(target, orig, pos, lit), Body(target, orig, next, lit);
    if f.0 < End(orig, pos) {
      HasBehind(frag, body, f.1 - at - |frag|, FragAt(target, orig, f.0, lit));
    }
  }

  /** The first fragment, or the end if nothing fits. */
  lemma InPlaceFirst(target: Word, orig: seq<Half>, pos: nat, at: nat, lit: Word -> Word)
    requires pos < |orig| && at % 2 == 0
    ensures InPlace(target, orig, pos, at, lit, (pos, at))
  {
    hide FragAt, Body, End, Wide, Starts, HasAt;
    OneStep(target, orig, pos, at, lit);
    EndBeyond(orig, pos);
    var next := if Wide(orig[pos]) then pos + 2 else pos + 1;
    if next < |orig| {
      EndBeyond(orig, next);
      HasFirst(FragAt(target, orig, pos, lit), Body(target, orig, next, lit));
    } else if next == |orig| {
      HasFirst(FragAt(target, orig, pos, lit), []);
    }
  }

  /** Every fragment starts on a 4-byte boundary of the page, and its code is in the trampoline at that place. */
  lemma {:induction false} Layout(target: Word, orig: seq<Half>, pos: nat, at: nat, lit: Word -> Word)
    requires pos < |orig| && at % 2 == 0
    ensures forall k :: 0 <= k < |Starts(target, orig, pos, at, lit)| ==>
      InPlace(target, orig, pos, at, lit, Starts(target, orig, pos, at, lit)[k])
    decreases |orig| - pos
  {
    hide FragAt, Body, End, Starts, InPlace, Wide;
    OneStep(target, orig, pos, at, lit);
    InPlaceFirst(target, orig, pos, at, lit);
    var next := if Wide(orig[pos]) then pos + 2 else pos + 1;
    if next < |orig| {
      FragEven(target, orig, pos, lit);
      var start := at + |FragAt(target, orig, pos, lit)|;
      Layout(target, orig, next, start, lit);
      var rest := Starts(target, orig, next, start, lit);
      forall k | 0 <= k < |rest|
        ensures InPlace(target, orig, pos, at, lit, rest[k])
      {
        InPlaceBehind(target, orig, pos, at, lit, rest[k]);
      }
    }
  }

  lemma {:induction false} EndBeyond(orig: seq<Half>, pos: nat)
    requires pos < |orig|
    ensures pos <= End(orig, pos) <= |orig| && |orig| - 1 <= End(orig, pos)
    ensures End(orig, pos) == pos ==> Wide(orig[pos]) && pos + 1 == |orig|
    decreases |orig| - pos
  {
    var next := if Wide(orig[pos]) then pos + 2 else pos + 1;
    if next < |orig| { EndBeyond(orig, next); }
  }

  /** The jump back goes to the start of an instruction, at or past every byte that the hook's stub overwrites. */
  lemma JumpsPastTheStub(target: Word, orig: seq<Half>, newAddr: Word)
    requires target % 2 == 0 && target < 0xFFFF_FFFF && |orig| == 6
    ensures |HookTable.Stub(target + 1, newAddr)| <= End(orig, 0) * 2 <= HookTable.Length(target + 1)
    ensures End(orig, 0) == 6 || (End(orig, 0) == 5 && Wide(orig[5]))
  {
    EndBeyond(orig, 0);
    EndStops(orig, 0);
    StubSize(target + 1, newAddr);
  }

  lemma StubSize(t: Word, newAddr: Word)
    requires t % 2 == 1
    ensures |HookTable.Stub(t, newAddr)| <= 10 && HookTable.Length(t) == 12
  {
    assert |HookTable.Half(0xBF00)| == 2 && |HookTable.Half(0xF8DF)| == 2 && |HookTable.Half(0xF000)| == 2;
    assert |HookTable.Half(newAddr % 0x1_0000)| == 2 && |HookTable.Half(newAddr / 0x1_0000)| == 2;
  }

  lemma {:induction false} EndStops(orig: seq<Half>, pos: nat)
    requires pos < |orig|
    ensures End(orig, pos) < |orig| ==> Wide(orig[End(orig, pos)])
    decreases |orig| - pos
  {
    var next := if Wide(orig[pos]) then pos + 2 else pos + 1;
    if next < |orig| { EndStops(orig, next); }
  }

  /** The code of one instruction, behind what is `done` on the page. */
  method EmitOne(target: Word, orig: seq<Half>, pos: nat, at: nat, lit: Word -> Word, out: array<Half>,
      ghost done: seq<Half>, ghost page: seq<Half>)
    returns (frag: seq<Half>)
    requires pos < |orig| && (Wide(orig[pos]) ==> pos + 1 < |orig|) && at == |done| && |page| == out.Length
    requires |done| + |FragAt(target, orig, pos, lit)| <= out.Length && out[..] == done + page[|done|..]
    modifies out
    ensures frag == FragAt(target, orig, pos, lit) && out[..] == (done + frag) + page[|done + frag|..]
  {
    hide FragAt, Wide;
    frag := FragAt(target, orig, pos, lit);
    Written(done, frag, page);
    Put(out, at, frag);
  }

  /** The loop of `relocateInstructionInThumb`. */
  method EmitBody(target: Word, orig: seq<Half>, lit: Word -> Word, out: array<Half>)
    returns (boundaries: seq<(nat, nat)>, origPos: nat, trampolinePos: nat)
    requires orig != [] && out.Length >= 14 * |orig|
    modifies out
    ensures var body := Body(target, orig, 0, lit);
      |body| == trampolinePos <= 14 * |orig| && out[..] == body + old(out[..])[|body|..]
    ensures boundaries == Starts(target, orig, 0, 0, lit) && origPos == End(orig, 0)
  {
    hide FragAt, Body, Starts, End, Wide;
    boundaries := [];
    BodyEven(target, orig, 0, lit);
    origPos, trampolinePos := 0, 0;
    ghost var done: seq<Half>, page := [], out[..];
    assert [] + page[0..] == page;
    var more := true;
    while more
      invariant 0 <= origPos <= |orig| && trampolinePos == |done| <= out.Length && out[..] == done + page[|done|..]
      invariant more ==> origPos < |orig| && done + Body(target, orig, origPos, lit) == Body(target, orig, 0, lit)
      invariant more ==>
        boundaries + Starts(target, orig, origPos, trampolinePos, lit) == Starts(target, orig, 0, 0, lit)
      invariant more ==> End(orig, origPos) == End(orig, 0)
      invariant !more ==>
        done == Body(target, orig, 0, lit) && origPos == End(orig, 0) && boundaries == Starts(target, orig, 0, 0, lit)
      decreases |orig| - origPos, more
    {
      OneStep(target, orig, origPos, trampolinePos, lit);
      boundaries := boundaries + [(origPos, trampolinePos)];
      var next := if Wide(orig[origPos]) then origPos + 2 else origPos + 1;
      if next > |orig| {
        more := false;
      } else {
        BodyLength(target, orig, done, FragAt(target, orig, origPos, lit), origPos, lit);
        var frag := EmitOne(target, orig, origPos, trampolinePos, lit, out, done, page);
        done := done + frag;
        trampolinePos := trampolinePos + |frag|;
        origPos := next;
        more := origPos < |orig|;
      }
    }
  }

  /** `relocateInstructionInThumb`; `out` is the trampoline page. Returns the instruction boundaries. */
  method RelocateInThumb(target: Word, orig: seq<Half>, lit: Word -> Word, out: array<Half>)
    returns (boundaries: seq<(nat, nat)>)
    requires orig != [] && out.Length >= 14 * |orig| + 4
    modifies out
    ensures var t := Trampoline(target, orig, lit);
      |t| <= out.Length && out[..] == t + old(out[..])[|t|..]
    ensures boundaries == Starts(target, orig, 0, 0, lit)
  {
    hide Body, Starts, End, Jump, Add32;
    ghost var page, body := out[..], Body(target, orig, 0, lit);
    var origPos, trampolinePos;
    boundaries, origPos, trampolinePos := EmitBody(target, orig, lit, out);
    var lr := Add32(target, origPos * 2 + 1);
    Written(body, Jump(lr), page);
    Put(out, trampolinePos, Jump(lr));
  }

  /** The recursion of the specification, unfolded once. */
  lemma OneStep(target: Word, orig: seq<Half>, pos: nat, at: nat, lit: Word -> Word)
    requires pos < |orig|
    ensures var next := if Wide(orig[pos]) then pos + 2 else pos + 1;
      if next > |orig| then
        Body(target, orig, pos, lit) == [] && Starts(target, orig, pos, at, lit) == [(pos, at)] && End(orig, pos) == pos
      else if next == |orig| then
        Body(target, orig, pos, lit) == FragAt(target, orig, pos, lit)
            && Starts(target, orig, pos, at, lit) == [(pos, at)] && End(orig, pos) == next
      else
        Body(target, orig, pos, lit) == FragAt(target, orig, pos, lit) + Body(target, orig, next, lit)
        && Starts(target, orig, pos, at, lit) == [(pos, at)] + Starts(target, orig, next,
            at + |FragAt(target, orig, pos, lit)|, lit)
        && End(orig, pos) == End(orig, next)
  {
    hide FragAt;
  }

  lemma BodyLength(target: Word, orig: seq<Half>, done: seq<Half>, frag: seq<Half>, pos: nat, lit: Word -> Word)
    requires pos < |orig| && done + Body(target, orig, pos, lit) == Body(target, orig, 0, lit)
      && frag <= Body(target, orig, pos, lit)
    ensures |done| + |frag| <= 14 * |orig|
  {
    hide Body;
    BodyEven(target, orig, 0, lit);
  }

  lemma Written(done: seq<Half>, code: seq<Half>, page: seq<Half>)
    requires |done| + |code| <= |page|
    ensures var m := done + page[|done|..];
      m[..|done|] + code + m[|done| + |code|..] == (done + code) + page[|done + code|..]
  {
  }

  method Put(out: array<Half>, at: nat, code: seq<Half>)
    requires at + |code| <= out.Length
    modifies out
    ensures out[..] == old(out[..])[..at] + code + old(out[..])[at + |code|..]
  {
    var i := 0;
    while i < |code|
      invariant 0 <= i <= |code|
      invariant forall k :: 0 <= k < out.Length ==> out[k] == if at <= k < at + i then code[k - at] else old(out[k])
    {
      out[at + i] := code[i];
      i := i + 1;
    }
  }
}

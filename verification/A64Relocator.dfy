/** The one-pass relocator: it walks the window once, appends rewritten words to the output buffer and
    patches forward references through a fix map when their fragment is placed. */
module A64Relocator {
  import opened Words
  import opened A64Isa
  import opened A64Layout

  const MAX_REFERENCES := 10

  /** A pending reference: the word at address `bp` takes a distance shifted by `ls` and masked by `ad`. */
  datatype Fix = Fix(bp: int, ls: nat, ad: Word)

  const FREE := Fix(0, 0, 0)

  // ----- the fix map as the layout predicts it -----

  function FixShift(w: Word): nat { if IsB(w) || IsBl(w) then 0 else 5 }

  function FixMask(w: Word): Word {
    if IsB(w) || IsBl(w) then 0x03ff_ffff
    else if IsCond19(w) then 0x00ff_ffe0
    else if IsTest14(w) then 0x0007_ffe0
    else 0x00ff_ffff
  }

  predicate RefersForward(W: Window, k: nat, j: nat) {
    Shape(W, k) == Resolved(j) && k < j
  }

  /** References to `j` made by the first `i` instructions, in program order. */
  function Pending(W: Window, j: nat, i: nat): (p: seq<Fix>)
    ensures |p| <= i
  {
    if i == 0 then []
    else Pending(W, j, i - 1)
         + if RefersForward(W, i - 1, j) then [Fix(Ins(W, i - 1), FixShift(W.At(i - 1)), FixMask(W.At(i - 1)))] else []
  }

  /** The ten slots of an index hold `p` as a prefix and are otherwise free. */
  predicate Holds(slots: seq<Fix>, p: seq<Fix>) {
    |slots| == MAX_REFERENCES && p <= slots && forall k :: |p| <= k < MAX_REFERENCES ==> slots[k].bp == 0
  }

  function PatchWord(w: Word, f: Fix, target: int): Word {
    BitAndBound(Shl((((target - f.bp) / 4) % TWO32), f.ls), f.ad);
    Or32(w, BitAnd(Shl(((target - f.bp) / 4) % TWO32, f.ls), f.ad))
  }

  predicate FixesInside(out: int, len: nat, fixes: seq<Fix>) {
    forall f :: f in fixes ==> out <= f.bp < out + 4 * len
  }

  function ApplyFixes(code: seq<Word>, out: int, fixes: seq<Fix>, target: int): (r: seq<Word>)
    requires FixesInside(out, |code|, fixes)
    ensures |r| == |code|
  {
    if fixes == [] then code
    else
      var r := ApplyFixes(code, out, fixes[..|fixes| - 1], target);
      var f := fixes[|fixes| - 1];
      r[(f.bp - out) / 4 := PatchWord(r[(f.bp - out) / 4], f, target)]
  }

  lemma NoFix(code: seq<Word>, out: int, target: int)
    ensures FixesInside(out, |code|, []) && ApplyFixes(code, out, [], target) == code
  {
  }

  lemma OneMoreFix(code: seq<Word>, out: int, p: seq<Fix>, k: nat, target: int)
    requires k < |p| && FixesInside(out, |code|, p)
    ensures FixesInside(out, |code|, p[..k]) && FixesInside(out, |code|, p[..k + 1])
      && out <= p[k].bp < out + 4 * |code|
    ensures var r, at := ApplyFixes(code, out, p[..k], target), (p[k].bp - out) / 4;
      ApplyFixes(code, out, p[..k + 1], target) == r[at := PatchWord(r[at], p[k], target)]
  {
    hide PatchWord;
    assert p[k] in p && p[..k + 1][..k] == p[..k] && p[..k + 1][k] == p[k];
  }

  ghost predicate FragAt(W: Window, code: seq<Word>, j: nat, upto: nat) {
    && 0 <= Pos(W, j) && Pos(W, j) + |Frag(W, j, upto)| <= |code|
    && code[Pos(W, j)..Pos(W, j) + |Frag(W, j, upto)|] == Frag(W, j, upto)
  }

  /** Fragments below `m` are in place; those below `k` are resolved up to `hi`, the others up to `lo`. */
  ghost predicate Placed(W: Window, code: seq<Word>, m: nat, k: nat, lo: nat, hi: nat) {
    && |code| == Pos(W, m)
    && (forall j: nat :: j < m && j < k ==> FragAt(W, code, j, hi))
    && (forall j: nat :: k <= j < m ==> FragAt(W, code, j, lo))
  }

  // ----- patching a pending reference yields the resolved word -----

  lemma PatchBranch(base: Word, d: nat)
    requires base in {0x1400_0000, 0x9400_0000} && d < 0x400_0000
    ensures BitOr(base, BitAnd(Shl(d, 0), 0x03ff_ffff)) == base + d
  {
    ShlValues();
    BitAndOnes(d, 26);
    var h := base / 0x400_0000;
    ShlLinear(h, 26);
    BitOrIntoEmptyField(h, 0, d, 0, 26);
  }

  lemma PatchField(w0: nat, high: nat, low: nat, d: nat, width: nat)
    requires low < 32 && d < Shl(1, width) && w0 == high * Shl(1, width + 5) + low
    ensures BitOr(w0, BitAnd(Shl(d, 5), Shl(Shl(1, width) - 1, 5))) == w0 + 32 * d
    ensures BitOr(w0, Shl(d, 5)) == w0 + 32 * d
  {
    ShlValues();
    ShlZero(width);
    BitAndField(0, d, 0, 5, width);
    BitOrIntoEmptyField(high, low, d, 5, width);
    ShlShl(high, width, 5);
    ShlLinear(high, width + 5);
    assert Shl(Shl(high, width), 5) == high * Shl(1, width + 5);
    ShlLinear(Shl(high, width), 5);
    ShlLinear(Shl(high, width) + d, 5);
    ShlLinear(d, 5);
  }

  lemma PatchTest14(w: Word, d: nat)
    requires IsTest14(w) && d < 0x2000
    ensures BitOr(EncodeOffset(w, 0), BitAnd(Shl(d, 5), 0x0007_ffe0)) == EncodeOffset(w, d)
  {
    hide Shl, BitOr, BitAnd;
    ShlValues();
    var h := w / 0x8_0000;
    assert w == 0x8_0000 * h + 32 * Imm14(w) + w % 32 by { assert (w / 32) / 0x4000 == h; }
    ShlLinear(0x3fff, 5);
    PatchField(w - 32 * Imm14(w), h, w % 32, d, 14);
  }

  lemma PatchImm19(w: Word, d: nat)
    requires !IsB(w) && !IsBl(w) && !IsTest14(w) && d < 0x2000
    ensures BitOr(EncodeOffset(w, 0), BitAnd(Shl(d, 5), 0x00ff_ffe0)) == EncodeOffset(w, d)
    ensures BitOr(EncodeOffset(w, 0), BitAnd(Shl(d, 5), 0x00ff_ffff)) == EncodeOffset(w, d)
  {
    hide Shl, BitOr, BitAnd;
    ShlValues();
    assert w == 0x100_0000 * Top(w) + 32 * Imm19(w) + w % 32 by { assert (w / 32) / 0x8_0000 == Top(w); }
    ShlLinear(0x7_ffff, 5);
    PatchField(w - 32 * Imm19(w), Top(w), w % 32, d, 19);
    ShlLinear(d, 5);
    BitAndOnes(Shl(d, 5), 24);
  }

  lemma PatchResolves(w: Word, f: Fix, target: int)
    requires IsB(w) || IsBl(w) || IsCond(w) || IsAdr(w)
    requires f.ls == FixShift(w) && f.ad == FixMask(w)
    requires 0 <= target - f.bp < 4 * 0x2000
    ensures PatchWord(EncodeOffset(w, 0), f, target) == EncodeOffset(w, (target - f.bp) / 4)
  {
    hide Shl, BitOr, BitAnd;
    var d := (target - f.bp) / 4;
    assert d % TWO32 == d;
    if IsB(w) || IsBl(w) {
      PatchBranch(EncodeOffset(w, 0), d);
    } else {
      hide EncodeOffset;
      if IsTest14(w) { PatchTest14(w, d); } else { PatchImm19(w, d); }
    }
  }

  // ----- draining the slots of `i` raises the resolution level -----

  lemma {:induction false} PendingInside(W: Window, i: nat, k: nat, m: nat)
    requires WellPlaced(W) && k <= i <= m
    ensures 0 <= Pos(W, m) && FixesInside(W.out, Pos(W, m), Pending(W, i, k))
  {
    hide ShapeOf, Nops, BodyLen, Start, Pos, WellPlaced, FixShift, FixMask;
    StartBounds(W, m);
    if k != 0 {
      PendingInside(W, i, k - 1, m);
      if RefersForward(W, k - 1, i) {
        ResolvedIsOneWord(W, k - 1, 0);
        StartBounds(W, k - 1);
        StartBounds(W, k);
        PosMonotone(W, k, m);
        StartBounds(W, m);
      }
    }
  }

  lemma PosMonotone(W: Window, i: nat, j: nat)
    requires WellPlaced(W) && i <= j
    ensures Pos(W, i) <= Pos(W, j)
  {
    hide ShapeOf, Nops, BodyLen;
    if i < j { StartBounds(W, i); StartMonotone(W, i, j); }
  }

  lemma ResolvedIsOneWord(W: Window, k: nat, upto: nat)
    requires Shape(W, k).Resolved?
    ensures Nops(W, k, Start(W, k)) == 0 && BodyLen(W, k, Start(W, k)) == 1 && Ins(W, k) == Start(W, k)
    ensures var w := W.At(k); IsB(w) || IsBl(w) || IsCond(w) || IsAdr(w)
    ensures 0 <= Shape(W, k).j < W.n
    ensures Frag(W, k, upto) == [EncodeOffset(W.At(k), RefOffset(W, k, Shape(W, k).j, upto))]
  {
    var w := W.At(k);
    hide EncodeOffset;
  }

  lemma OnlyForwardRefsChange(W: Window, k: nat, i: nat)
    requires !RefersForward(W, k, i)
    ensures Frag(W, k, i) == Frag(W, k, i + 1)
  {
    hide ShapeOf, Nops, BodyLen, EncodeOffset, Ins, Start, NearLitWord, NearAdrWord, LitBytes;
  }

  lemma PatchFragment(W: Window, code: seq<Word>, m: nat, k: nat, i: nat, f: Fix)
    requires WellPlaced(W) && k < i < m <= W.n && Placed(W, code, m, k, i, i + 1) && RefersForward(W, k, i)
    requires f == Fix(Ins(W, k), FixShift(W.At(k)), FixMask(W.At(k)))
    ensures var p := (f.bp - W.out) / 4;
            0 <= p < |code| && Placed(W, code[p := PatchWord(code[p], f, Ins(W, i))], m, k + 1, i, i + 1)
  {
    hide ShapeOf, Nops, BodyLen, EncodeOffset, PatchWord, Ins, Frag, FixShift, FixMask, Pos, Start;
    ResolvedIsOneWord(W, k, i);
    ResolvedIsOneWord(W, k, i + 1);
    StartBounds(W, k);
    StartMonotone(W, k, i);
    var p := Pos(W, k);
    assert (f.bp - W.out) / 4 == p;
    PatchResolves(W.At(k), f, Ins(W, i));
    assert FragAt(W, code, k, i);
    var code' := code[p := PatchWord(code[p], f, Ins(W, i))];
    assert code[p] == code[p..p + 1][0];
    assert FragAt(W, code', k, i + 1);
    var hi := i + 1;
    forall j: nat | j < m && j != k
      ensures j < k ==> FragAt(W, code', j, hi)
      ensures k < j ==> FragAt(W, code', j, i)
    {
      var u := if j < k then hi else i;
      assert FragAt(W, code, j, u);
      FragLength(W, j, u);
      StartBounds(W, j);
      if j < k { PosMonotone(W, j + 1, k); } else { PosMonotone(W, k + 1, j); }
      var a, b := Pos(W, j), Pos(W, j) + |Frag(W, j, u)|;
      assert code'[a..b] == code[a..b];
    }
  }

  /** Applying the pending fixes of `i` resolves every reference to `i`. */
  lemma {:induction false} DrainResolves(W: Window, code: seq<Word>, m: nat, k: nat, i: nat)
    requires WellPlaced(W) && k <= i < m <= W.n && Placed(W, code, m, 0, i, i + 1)
    requires FixesInside(W.out, |code|, Pending(W, i, k))
    ensures Placed(W, ApplyFixes(code, W.out, Pending(W, i, k), Ins(W, i)), m, k, i, i + 1)
  {
    hide ShapeOf, Nops, BodyLen, Frag, PatchWord, Ins, FixShift, FixMask, Pos, Start, FragAt, Placed;
    if k != 0 {
      var p, q := Pending(W, i, k - 1), Pending(W, i, k);
      assert forall f :: f in p ==> f in q;
      DrainResolves(W, code, m, k - 1, i);
      if RefersForward(W, k - 1, i) {
        assert q[..|q| - 1] == p;
        PatchFragment(W, ApplyFixes(code, W.out, p, Ins(W, i)), m, k - 1, i, q[|q| - 1]);
      } else {
        assert q == p;
        SkipFragment(W, ApplyFixes(code, W.out, p, Ins(W, i)), m, k - 1, i);
      }
    }
  }

  lemma SkipFragment(W: Window, code: seq<Word>, m: nat, k: nat, i: nat)
    requires k < m && Placed(W, code, m, k, i, i + 1) && !RefersForward(W, k, i)
    ensures Placed(W, code, m, k + 1, i, i + 1)
  {
    hide ShapeOf, Nops, BodyLen, Frag, Ins, Pos, Start;
    OnlyForwardRefsChange(W, k, i);
    assert FragAt(W, code, k, i);
  }

  lemma ExtendPlaced(W: Window, code: seq<Word>, i: nat)
    requires WellPlaced(W) && i < W.n && Placed(W, code, i, 0, i, i)
    ensures Placed(W, code + Frag(W, i, i), i + 1, 0, i, i + 1)
  {
    hide ShapeOf, Nops, BodyLen, Frag, Ins, Start, FragLen, Pos;
    var code' := code + Frag(W, i, i);
    StartBounds(W, i);
    FragLength(W, i, i);
    assert FragAt(W, code', i, i);
    forall j: nat | j < i
      ensures FragAt(W, code', j, i)
    {
      assert FragAt(W, code, j, i);
      var a, b := Pos(W, j), Pos(W, j) + |Frag(W, j, i)|;
      assert code'[a..b] == code[a..b];
    }
  }

  lemma AllResolved(W: Window, code: seq<Word>, i: nat)
    requires i < W.n && Placed(W, code, i + 1, i, i, i + 1)
    ensures Placed(W, code, i + 1, 0, i + 1, i + 1)
  {
    hide ShapeOf, Nops, BodyLen, Frag, Ins, Start, FragLen, Pos;
    assert FragAt(W, code, i, i);
    assert !RefersForward(W, i, i);
    OnlyForwardRefsChange(W, i, i);
  }

  lemma NoReference(W: Window, i: nat)
    requires !Shape(W, i).Resolved?
    ensures forall j: nat :: !RefersForward(W, i, j)
  {
  }

  // ----- fragments, case by case -----

  function NopIf(c: bool): seq<Word> { if c then [NOP] else [] }

  lemma FarBranch(W: Window, i: nat)
    requires IsB(W.At(i)) || IsBl(W.At(i))
    requires Shape(W, i) == Far
    ensures var t, s := SourceTarget(W.At(i), W.Pc(i)), Start(W, i);
      if IsB(W.At(i)) then
        Frag(W, i, i) == NopIf((s + 8) % 8 != 0) + [0x5800_0051, 0xd61f_0220] + Quad(t)
        && Ins(W, i) == s + 4 * |NopIf((s + 8) % 8 != 0)|
      else
        Frag(W, i, i) == NopIf((s + 8) % 8 == 0) + [0x5800_0071, 0x1000_009e, 0xd61f_0220] + Quad(t)
        && Ins(W, i) == s + 4 * |NopIf((s + 8) % 8 == 0)|
  {
    hide ShapeOf, Start;
  }

  /** When an out-of-window branch needs its absolute address inlined. */
  predicate TooFar(w: Word, off: int) {
    Abs(off) >= if IsB(w) || IsBl(w) then 0x1ff_ffff else if IsCond19(w) then 0x3_ffff else 0x1fff
  }

  lemma BranchShape(W: Window, i: nat)
    requires IsB(W.At(i)) || IsBl(W.At(i)) || IsCond(W.At(i))
    ensures var t := SourceTarget(W.At(i), W.Pc(i));
      && (W.Contains(t) ==> Shape(W, i) == Resolved(W.IndexOf(t)))
      && (!W.Contains(t) ==>
            Shape(W, i) == if TooFar(W.At(i), (t - Start(W, i)) / 4) then Far else Near)
  {
    hide Start, SourceTarget, IsB, IsBl, IsCond19, IsTest14;
  }

  /** The offset, in words, that the source first writes into a one-word branch. */
  function FirstOffset(W: Window, i: nat): int {
    var t := SourceTarget(W.At(i), W.Pc(i));
    if W.Contains(t) then RefOffset(W, i, W.IndexOf(t), i) else (t - Start(W, i)) / 4
  }

  lemma BranchBody(W: Window, i: nat)
    requires IsB(W.At(i)) || IsBl(W.At(i)) || IsCond(W.At(i))
    requires Shape(W, i) != Far
    ensures Ins(W, i) == Start(W, i)
    ensures Frag(W, i, i) == [EncodeOffset(W.At(i), FirstOffset(W, i))]
  {
    hide Start, SourceTarget, ShapeOf, IsB, IsBl, IsCond, IsLit, IsAdr, EncodeOffset, TooFar;
    KindsDisjoint(W.At(i));
    BranchShape(W, i);
  }

  lemma FarCond(W: Window, i: nat)
    requires IsCond(W.At(i)) && Shape(W, i) == Far
    ensures var t, s := SourceTarget(W.At(i), W.Pc(i)), Start(W, i);
      Frag(W, i, i) == NopIf((s + 16) % 8 != 0)
                       + [EncodeOffset(W.At(i), 2), 0x1400_0005, 0x5800_0051, 0xd61f_0220] + Quad(t)
      && Ins(W, i) == s + 4 * |NopIf((s + 16) % 8 != 0)|
  {
    hide ShapeOf, Start, SourceTarget, IsB, IsBl, IsCond, EncodeOffset;
    KindsDisjoint(W.At(i));
  }

  lemma Remainder4(x: int, k: int, r: int)
    requires x == 4 * k + r && 0 <= r < 4
    ensures x % 4 == r
  {
  }

  lemma Remainder8(x: int, k: int, r: int)
    requires x == 8 * k + r && 0 <= r < 8
    ensures x % 8 == r
  {
  }

  lemma Remainder16(x: int, k: int, r: int)
    requires x == 16 * k + r && 0 <= r < 16
    ensures x % 16 == r
  {
  }

  /** A multiple of 4, with its place in a block of 8 and of 16. */
  lemma Places(a: int) returns (q: int, b: nat, p: int, d: nat)
    requires a % 4 == 0
    ensures a == 8 * q + 4 * b && b < 2 && a == 16 * p + 4 * d && d < 4
  {
    var x := a / 4;
    q, b := x / 2, x % 2;
    p, d := x / 4, x % 4;
  }

  lemma Pad8(a: int)
    requires a % 4 == 0
    ensures a % 8 == 0 <==> ((-a) % 8) / 4 == 0
    ensures a % 8 != 0 ==> ((-(a + 4)) % 8) / 4 == ((-a) % 8) / 4 - 1
  {
    var q, b, p, d := Places(a);
    Remainder8(a, q, 4 * b);
    if b == 0 {
      Remainder8(-a, -q, 0);
    } else {
      Remainder8(-a, -q - 1, 4);
      Remainder8(-(a + 4), -q - 1, 0);
    }
  }

  lemma Pad16(a: int)
    requires a % 4 == 0
    ensures a % 16 == 0 <==> ((-a) % 16) / 4 == 0
    ensures a % 16 != 0 ==> ((-(a + 4)) % 16) / 4 == ((-a) % 16) / 4 - 1
  {
    var q, b, p, d := Places(a);
    Remainder16(a, p, 4 * d);
    if d == 0 {
      Remainder16(-a, -p, 0);
    } else {
      Remainder16(-a, -p - 1, 16 - 4 * d);
      Remainder16(-(a + 4), -p - 1, 12 - 4 * d);
    }
  }

  /** The remainder that the padding loops test. */
  function Rest(a: int, n: nat): nat
    requires n > 0
  {
    a % n
  }

  lemma Pad4(a: int)
    requires a % 4 == 0
    ensures Rest(a, 4) == 0 && PadTo(a, 4) == 0
  {
    var k := a / 4;
    Remainder4(-a, -k, 0);
  }

  lemma PadStep(a: int, n: nat)
    requires n in {4, 8, 16} && a % 4 == 0
    ensures Rest(a, n) == 0 <==> PadTo(a, n) == 0
    ensures Rest(a, n) != 0 ==> PadTo(a + 4, n) == PadTo(a, n) - 1
  {
    if n == 4 {
      Pad4(a);
    } else if n == 8 {
      Pad8(a);
    } else {
      Pad16(a);
    }
  }

  lemma PaddingBound(w: Word, a: int)
    ensures LitBytes(w) in {4, 8, 16} && PadTo(a, LitBytes(w)) <= 3
    ensures LitBytes(w) / 4 in {1, 2, 4}
  {
  }

  lemma ModStep(off: int, m: nat)
    requires m in {1, 2, 4}
    ensures Rest(off, m) < 4 && (Rest(off, m) != 0 ==> Rest(off - 1, m) == Rest(off, m) - 1)
  {
    if m == 1 {
      assert off % 1 == 0;
    } else if m == 2 {
      assert off % 2 in {0, 1};
    } else {
      assert off % 4 in {0, 1, 2, 3};
    }
  }

  lemma LitTarget(w: Word, pc: int)
    requires IsLit(w)
    ensures SourceTarget(w, pc) == pc + (4 * Signed(Imm19(w), 0x4_0000)) % TWO32
  {
    hide IsB, IsBl, IsCond19, IsTest14, IsPrefetch, IsLit;
    assert !IsB(w) && !IsBl(w) && !IsCond(w) by { KindsDisjoint(w); }
  }

  function NopRun(k: nat): (r: seq<Word>)
    ensures |r| == k
  {
    seq(k, _ => NOP)
  }

  lemma LitShape(W: Window, i: nat)
    requires IsLit(W.At(i))
    ensures var w, t := W.At(i), SourceTarget(W.At(i), W.Pc(i));
      Shape(W, i) == if W.Contains(t) || Abs((t - Start(W, i)) / 4) + (LitBytes(w) - 4) / 4 >= 0x3_ffff
                     then Inline else Near
  {
    hide Start, SourceTarget, IsB, IsBl, IsCond19, IsTest14, IsPrefetch, IsLit, LitBytes;
    assert !IsB(W.At(i)) && !IsBl(W.At(i)) && !IsCond(W.At(i)) && !IsPrefetch(W.At(i)) by { KindsDisjoint(W.At(i)); }
  }

  lemma InlineLit(W: Window, i: nat)
    requires IsLit(W.At(i)) && Shape(W, i) == Inline
    ensures var w, t, s := W.At(i), SourceTarget(W.At(i), W.Pc(i)), Start(W, i);
      var k := PadTo(s + 8, LitBytes(w));
      && 0 <= w - 32 * Imm19(w) + 64 < TWO32
      && Frag(W, i, i) == NopRun(k) + ([w - 32 * Imm19(w) + 64, 0x1400_0001 + LitBytes(w) / 4]
                                       + Data(W.mem, t, LitBytes(w) / 4))
      && Ins(W, i) == s + 4 * k
  {
    hide ShapeOf, Start, SourceTarget, IsLit, LitBytes, PadTo;
    Replace19(W.At(i), 2);
  }

  lemma NearLit(W: Window, i: nat)
    requires IsLit(W.At(i)) && Shape(W, i) == Near
    ensures var w, t, s := W.At(i), SourceTarget(W.At(i), W.Pc(i)), Start(W, i);
      LitBytes(w) > 3 && var k := Rest((t - s) / 4, LitBytes(w) / 4);
      && Frag(W, i, i) == NopRun(k) + [NearLitWord(w, (t - (s + 4 * k)) / 4)]
      && Ins(W, i) == s + 4 * k
  {
    PaddingBound(W.At(i), 0);
    hide ShapeOf, Start, SourceTarget, IsLit, LitBytes, NearLitWord;
  }

  lemma AddressShape(W: Window, i: nat)
    requires IsAdr(W.At(i)) || IsAdrp(W.At(i))
    ensures var w, t := W.At(i), SourceTarget(W.At(i), W.Pc(i));
      Shape(W, i) == if IsAdr(w) then
                       (if W.Contains(t) then Resolved(W.IndexOf(t))
                        else if Abs(t - Start(W, i)) >= 0xf_ffff then Far else Near)
                     else if W.Contains(t) then Verbatim else Far
    ensures var w, pc, hi := W.At(i), W.Pc(i), (4 * Signed(Imm19(W.At(i)), 0x4_0000)) % TWO32;
      SourceTarget(w, pc) == if IsAdr(w) then pc + (hi + ImmLo(w)) else Page(pc) + ((hi + ImmLo(w)) * 4096) % TWO32
  {
    hide Start, IsB, IsBl, IsCond19, IsTest14, IsPrefetch, IsLit, IsAdr, IsAdrp, Page;
    var w := W.At(i);
    assert !IsB(w) && !IsBl(w) && !IsCond(w) && !IsPrefetch(w) && !IsLit(w)
        && !(IsAdr(w) && IsAdrp(w)) by { KindsDisjoint(w); }
  }

  lemma AddressFrag(W: Window, i: nat)
    requires IsAdr(W.At(i)) || IsAdrp(W.At(i))
    ensures var w, t, s := W.At(i), SourceTarget(W.At(i), W.Pc(i)), Start(W, i);
      match Shape(W, i)
      case Far => Frag(W, i, i) == NopIf((s + 8) % 8 != 0) + [0x5800_0040 + Low5(w), 0x1400_0003] + Quad(t)
                  && Ins(W, i) == s + 4 * |NopIf((s + 8) % 8 != 0)|
      case Verbatim => Frag(W, i, i) == [w] && Ins(W, i) == s
      case Near => Frag(W, i, i) == [NearAdrWord(w, t - s)] && Ins(W, i) == s
      case Resolved(j) => Frag(W, i, i) == [EncodeOffset(w, FirstOffset(W, i))] && Ins(W, i) == s
      case _ => false
  {
    AddressShape(W, i);
    hide Start, ShapeOf, SourceTarget, EncodeOffset, NearAdrWord, IsB, IsBl, IsCond, IsLit, IsAdr, IsAdrp, Page;
    KindsDisjoint(W.At(i));
  }

  lemma AdrFix(w: Word)
    requires IsAdr(w)
    ensures FixShift(w) == 5 && FixMask(w) == 0x00ff_ffff
  {
    hide IsB, IsBl, IsCond19, IsTest14, IsAdr;
    assert !IsB(w) && !IsBl(w) && !IsCond(w) by { KindsDisjoint(w); }
  }

  /** Word-aligned distances leave the register field of an ADR alone. */
  lemma NearAdrAligned(w: Word, off: int)
    requires IsAdr(w)
    ensures NearAdrWord(w, 4 * off) == EncodeOffset(w, off)
  {
    hide Shl, BitOr;
    KindsDisjoint(w);
    ShlValues();
    var d := off % 0x8_0000;
    assert w == 0x100_0000 * Top(w) + 32 * Imm19(w) + w % 32 by { assert (w / 32) / 0x8_0000 == Top(w); }
    assert (4 * off * 8) % 0x100_0000 == 32 * d;
    ShlLinear(d, 5);
    PatchField(w - 32 * Imm19(w), Top(w), w % 32, d, 19);
  }

  /** Everything else is copied. */
  lemma PlainShape(W: Window, i: nat)
    requires !IsPcRelative(W.At(i))
    ensures Shape(W, i) == Verbatim && Frag(W, i, i) == [W.At(i)] && Ins(W, i) == Start(W, i)
  {
    hide Start, SourceTarget, IsB, IsBl, IsCond19, IsTest14, IsPrefetch, IsLit, IsAdr, IsAdrp;
  }

  lemma PrefetchShape(W: Window, i: nat)
    requires IsPrefetch(W.At(i))
    ensures Shape(W, i) == Skip && Frag(W, i, i) == [] && Ins(W, i) == Start(W, i)
  {
    hide Start, SourceTarget, IsB, IsBl, IsCond19, IsTest14, IsPrefetch, IsLit, LitBytes;
    assert !IsB(W.At(i)) && !IsBl(W.At(i)) && !IsCond(W.At(i)) by { KindsDisjoint(W.At(i)); }
  }

  ghost predicate PlacedTail(W: Window, code: seq<Word>) {
    && 0 <= Pos(W, W.n) && |code| == Pos(W, W.n) + |Tail(W)| && code[Pos(W, W.n)..] == Tail(W)
  }

  /** The two-pass meaning of the output: every fragment fully resolved at its place, then the jump back. */
  ghost predicate Assembled(W: Window, code: seq<Word>) {
    && PlacedTail(W, code)
    && forall j: nat :: j < W.n ==> FragAt(W, code, j, W.n)
  }

  lemma PlaceTail(W: Window, code: seq<Word>)
    requires WellPlaced(W) && Placed(W, code, W.n, 0, W.n, W.n)
    ensures Assembled(W, code + Tail(W))
  {
    hide ShapeOf, Start, Ins, Frag, Tail;
    forall j: nat | j < W.n
      ensures FragAt(W, code + Tail(W), j, W.n)
    {
      assert FragAt(W, code, j, W.n);
      var a, b := Pos(W, j), Pos(W, j) + |Frag(W, j, W.n)|;
      assert (code + Tail(W))[a..b] == code[a..b];
    }
  }

  /** The source's `context` with the two cursors of the relocation loop. */
  class Context {
    const win: Window
    const buf: array<Word>
    var inp: int
    var pos: nat
    var dat: seq<int>
    var fmap: seq<seq<Fix>>

    function Code(): seq<Word>
      requires pos <= buf.Length
      reads this, buf
    {
      buf[..pos]
    }

    function Outp(): int
      reads this
    {
      win.out + 4 * pos
    }

    /** The first `i` instructions are relocated: their fragments and addresses are those of the layout,
        references among them are resolved, references beyond are pending in program order, and the
        slots of every placed instruction are free. */
    ghost predicate Relocated(i: nat)
      reads this, buf
    {
      && WellPlaced(win) && i <= win.n && buf.Length >= 9 * win.n + 5
      && inp == win.Pc(i)
      && pos <= buf.Length
      && Placed(win, Code(), i, 0, i, i)
      && |dat| == MAX_INSTRUCTIONS && |fmap| == MAX_INSTRUCTIONS
      && (forall j: nat :: j < i ==> dat[j] == Ins(win, j))
      && (forall j: nat :: j < MAX_INSTRUCTIONS ==> Holds(fmap[j], if j < i then [] else Pending(win, j, i)))
    }

    /** As `Relocated(i)`, but fragment `i` is already appended and its own address recorded. */
    ghost predicate Emitted(i: nat)
      reads this, buf
    {
      && WellPlaced(win) && i < win.n && buf.Length >= 9 * win.n + 5
      && inp == win.Pc(i)
      && pos <= buf.Length
      && Placed(win, Code(), i + 1, 0, i, i + 1)
      && |dat| == MAX_INSTRUCTIONS && |fmap| == MAX_INSTRUCTIONS
      && (forall j: nat :: j <= i ==> dat[j] == Ins(win, j))
      && (forall j: nat :: j < MAX_INSTRUCTIONS ==>
            Holds(fmap[j], if j < i then [] else if j == i then Pending(win, i, i) else Pending(win, j, i + 1)))
    }

    constructor (w: Window, b: array<Word>)
      requires WellPlaced(w) && b.Length >= 9 * w.n + 5
      ensures win == w && buf == b && Relocated(0)
    {
      win, buf, inp, pos := w, b, w.base, 0;
      dat := seq(MAX_INSTRUCTIONS, _ => 0);
      fmap := seq(MAX_INSTRUCTIONS, _ => seq(MAX_REFERENCES, _ => FREE));
    }

    /** Stores words at the output cursor and advances it. */
    method Emit(ws: seq<Word>)
      requires pos + |ws| <= buf.Length
      modifies this`pos, buf
      ensures pos == old(pos) + |ws| <= buf.Length && Code() == old(Code()) + ws
    {
      var k := 0;
      while k < |ws|
        invariant k <= |ws| && pos == old(pos)
        invariant buf[..pos + k] == old(Code()) + ws[..k]
      {
        buf[pos + k] := ws[k];
        assert ws[..k + 1] == ws[..k] + [ws[k]];
        k := k + 1;
      }
      pos := pos + |ws|;
    }

    method GetAndSetCurrentIndex() returns (idx: nat)
      requires |dat| == MAX_INSTRUCTIONS && win.Contains(inp) && win.n <= MAX_INSTRUCTIONS
      modifies this`dat
      ensures idx == win.IndexOf(inp) < MAX_INSTRUCTIONS && dat == old(dat)[idx := Outp()]
    {
      idx := win.IndexOf(inp);
      dat := dat[idx := Outp()];
    }

    method ResetCurrentIns(idx: nat)
      requires idx < |dat|
      modifies this`dat
      ensures dat == old(dat)[idx := Outp()]
    {
      dat := dat[idx := Outp()];
    }

    /** Stores a reference in the first free slot; the source silently drops it when all are taken. */
    method InsertFixMap(idx: nat, f: Fix, ghost p: seq<Fix>)
      requires idx < |fmap| && |p| < MAX_REFERENCES && Holds(fmap[idx], p)
      requires forall k :: 0 <= k < |p| ==> p[k].bp != 0
      modifies this`fmap
      ensures |fmap| == |old(fmap)| && Holds(fmap[idx], p + [f])
      ensures forall j :: 0 <= j < |fmap| && j != idx ==> fmap[j] == old(fmap[j])
    {
      var k := 0;
      while k < MAX_REFERENCES
        invariant k <= |p| && fmap == old(fmap)
      {
        if fmap[idx][k].bp == 0 {
          fmap := fmap[idx := fmap[idx][k := f]];
          return;
        }
        k := k + 1;
      }
    }

    method ProcessFixMap(idx: nat, ghost p: seq<Fix>)
      requires idx < |fmap| && idx < |dat| && Holds(fmap[idx], p)
      requires pos <= buf.Length && 0 < win.out && FixesInside(win.out, pos, p)
      modifies this`fmap, buf
      ensures Code() == ApplyFixes(old(Code()), win.out, p, dat[idx])
      ensures |fmap| == |old(fmap)| && Holds(fmap[idx], [])
      ensures forall j :: 0 <= j < |fmap| && j != idx ==> fmap[j] == old(fmap[j])
    {
      hide PatchWord, Pending, ApplyFixes, FixesInside;
      ghost var code0, slots0 := Code(), fmap[idx];
      NoFix(code0, win.out, dat[idx]);
      assert p[..0] == [];
      var k := 0;
      while k < MAX_REFERENCES
        invariant k <= |p| && |fmap| == |old(fmap)| && |fmap[idx]| == MAX_REFERENCES
        invariant forall j :: 0 <= j < |fmap| && j != idx ==> fmap[j] == old(fmap[j])
        invariant forall m :: 0 <= m < k ==> fmap[idx][m].bp == 0
        invariant fmap[idx][k..] == slots0[k..]
        invariant FixesInside(win.out, pos, p[..k])
        invariant Code() == ApplyFixes(code0, win.out, p[..k], dat[idx])
      {
        var f := fmap[idx][k];
        assert f == slots0[k..][0] == slots0[k];
        if k < |p| {
          OneMoreFix(code0, win.out, p, k, dat[idx]);
          assert slots0[k] == p[k];
        }
        if f.bp == 0 {
          assert slots0[k..] == fmap[idx][k..];
          break;
        }
        var at := (f.bp - win.out) / 4;
        ghost var before := Code();
        buf[at] := PatchWord(buf[at], f, dat[idx]);
        assert Code() == before[at := PatchWord(before[at], f, dat[idx])];
        ghost var slots := fmap[idx];
        fmap := fmap[idx := fmap[idx][k := f.(bp := 0)]];
        assert fmap[idx][k + 1..] == slots[k..][1..] == slots0[k..][1..];
        k := k + 1;
      }
      assert p[..k] == p;
      assert forall m :: k <= m < MAX_REFERENCES ==> fmap[idx][m] == fmap[idx][k..][m - k] == slots0[m];
    }

    // ----- the rewriting of one instruction -----

    /** Where the layout predicts the cursors before instruction `i`. */
    lemma CursorFacts(i: nat)
      requires i < win.n && Relocated(i)
      ensures Outp() == Start(win, i) && pos + 9 <= buf.Length && win.Contains(inp) && win.IndexOf(inp) == i
      ensures win.mem(inp) == win.At(i)
    {
      hide ShapeOf, Nops, BodyLen, Frag, FragLen, FragAt;
      StartBounds(win, i);
    }

    method Finish(i: nat)
      requires Emitted(i)
      modifies this`inp, this`fmap, buf
      ensures Relocated(i + 1)
    {
      hide ShapeOf, Nops, BodyLen, Frag, FragLen, Pos, FragAt, Ins, Start, PatchWord;
      PendingInside(win, i, i, i + 1);
      inp := inp + 4;
      ProcessFixMap(i, Pending(win, i, i));
      DrainResolves(win, old(Code()), i + 1, i, i);
      AllResolved(win, Code(), i);
    }

    /** Once fragment `i` is appended and its references recorded, the state is `Emitted(i)`. */
    twostate lemma Appended(i: nat)
      requires i < win.n && old(Relocated(i)) && inp == old(inp) && pos <= buf.Length
      requires Code() == old(Code()) + Frag(win, i, i)
      requires dat == old(dat)[i := Ins(win, i)]
      requires |fmap| == MAX_INSTRUCTIONS
      requires forall j: nat :: j < MAX_INSTRUCTIONS && !RefersForward(win, i, j) ==> fmap[j] == old(fmap)[j]
      requires forall j: nat :: j < MAX_INSTRUCTIONS && RefersForward(win, i, j) ==>
        Holds(fmap[j], Pending(win, j, i + 1))
      ensures Emitted(i)
    {
      hide ShapeOf, Nops, BodyLen, Frag, FragLen, Pos, FragAt, Ins, Start, Holds;
      ExtendPlaced(win, old(Code()), i);
      forall j: nat | j < MAX_INSTRUCTIONS
        ensures Holds(fmap[j], if j < i then [] else if j == i then Pending(win, i, i) else Pending(win, j, i + 1))
      {
        assert old(Holds(fmap[j], if j < i then [] else Pending(win, j, i)));
        assert j > i && !RefersForward(win, i, j) ==> Pending(win, j, i + 1) == Pending(win, j, i);
      }
    }

    /** Inserting the reference of `i` to `ref` gives the pending list of the next instruction. */
    method RecordReference(ghost i: nat, ref: nat, ls: nat, ad: Word)
      requires i < ref < win.n && WellPlaced(win) && Shape(win, i) == Resolved(ref) && Outp() == Ins(win, i)
      requires ls == FixShift(win.At(i)) && ad == FixMask(win.At(i))
      requires |fmap| == MAX_INSTRUCTIONS && Holds(fmap[ref], Pending(win, ref, i))
      modifies this`fmap
      ensures |fmap| == MAX_INSTRUCTIONS && Holds(fmap[ref], Pending(win, ref, i + 1))
      ensures forall j :: 0 <= j < |fmap| && j != ref ==> fmap[j] == old(fmap[j])
    {
      hide ShapeOf, Ins, Holds, FixShift, FixMask;
      StartBounds(win, i);
      PendingLive(ref, i);
      InsertFixMap(ref, Fix(Outp(), ls, ad), Pending(win, ref, i));
    }

    lemma PendingLive(j: nat, i: nat)
      requires WellPlaced(win)
      ensures forall k :: 0 <= k < |Pending(win, j, i)| ==> Pending(win, j, i)[k].bp != 0
    {
      hide ShapeOf, Nops, BodyLen, Ins, Start;
      if i != 0 {
        PendingLive(j, i - 1);
        StartBounds(win, i - 1);
      }
    }

    /** The part of the state an emitter needs: room, and the cursor at the start of fragment `i`. */
    ghost predicate AtStart(i: nat)
      reads this
    {
      && i < win.n <= MAX_INSTRUCTIONS && inp == win.Pc(i)
      && pos + 9 <= buf.Length && Outp() == Start(win, i)
      && |dat| == MAX_INSTRUCTIONS && dat[i] == Outp()
    }

    /** LDR X17 / BR X17 around the inlined address; a call also sets X30 to the end of the fragment. */
    method EmitFarBranch(i: nat, absolute: int)
      requires AtStart(i) && Shape(win, i) == Far && absolute == SourceTarget(win.At(i), inp)
      requires IsB(win.At(i)) || IsBl(win.At(i))
      modifies this`pos, this`dat, buf
      ensures pos <= buf.Length && Code() == old(Code()) + Frag(win, i, i)
      ensures dat == old(dat)[i := Ins(win, i)]
    {
      hide ShapeOf, Start, Ins, Frag, Quad, SourceTarget, IsB, IsBl;
      FarBranch(win, i);
      var aligned := (Outp() + 8) % 8 == 0;
      if IsB(win.mem(inp)) {
        if !aligned {
          Emit([NOP]);
          ResetCurrentIns(i);
        }
        Emit([0x5800_0051, 0xd61f_0220] + Quad(absolute));
      } else {
        if aligned {
          Emit([NOP]);
          ResetCurrentIns(i);
        }
        Emit([0x5800_0071, 0x1000_009e, 0xd61f_0220] + Quad(absolute));
      }
    }

    /** The offset to write into a one-word reference: to the absolute address, to a placed fragment, or
        zero with a fix-map entry when the fragment comes later. */
    method ReferenceOffset(ghost i: nat, cur: nat, absolute: int, ls: nat, ad: Word) returns (off: int)
      requires i < win.n && Relocated(i) && cur == i && dat[i] == Outp() == Ins(win, i) == Start(win, i)
      requires absolute == SourceTarget(win.At(i), inp)
      requires win.Contains(absolute) ==> Shape(win, i) == Resolved(win.IndexOf(absolute))
      requires !win.Contains(absolute) ==> !Shape(win, i).Resolved?
      requires ls == FixShift(win.At(i)) && ad == FixMask(win.At(i))
      modifies this`fmap
      ensures off == FirstOffset(win, i)
      ensures |fmap| == MAX_INSTRUCTIONS
      ensures forall j: nat :: j < MAX_INSTRUCTIONS && !RefersForward(win, i, j) ==> fmap[j] == old(fmap)[j]
      ensures forall j: nat :: j < MAX_INSTRUCTIONS && RefersForward(win, i, j) ==>
        Holds(fmap[j], Pending(win, j, i + 1))
    {
      hide ShapeOf, Start, Ins, Pos, Frag, FragAt, Placed, Pending, Holds, SourceTarget, FixShift, FixMask;
      off := (absolute - Outp()) / 4;
      if win.Contains(absolute) {
        var ref := win.IndexOf(absolute);
        if ref <= cur {
          off := (dat[ref] - Outp()) / 4;
        } else {
          RecordReference(i, ref, ls, ad);
          off := 0;
        }
      }
    }

    method FixBranchImm(ghost i: nat) returns (handled: bool)
      requires i < win.n && Relocated(i)
      modifies this`inp, this`pos, this`dat, this`fmap, buf
      ensures handled == (IsB(win.At(i)) || IsBl(win.At(i)))
      ensures Relocated(if handled then i + 1 else i)
    {
      hide IsB, IsBl, IsCond, ShapeOf, Start, Ins, Pos, Frag, FragAt, Placed, Pending, Holds, RefersForward;
      hide FirstOffset;
      CursorFacts(i);
      var ins := win.mem(inp);
      if !IsB(ins) && !IsBl(ins) { return false; }
      var cur := GetAndSetCurrentIndex();
      var absolute := inp + 4 * Signed(ins % 0x400_0000, 0x200_0000);
      BranchShape(win, i);
      if !win.Contains(absolute) && Abs((absolute - Outp()) / 4) >= 0x1ff_ffff {
        NoReference(win, i);
        EmitFarBranch(cur, absolute);
      } else {
        BranchBody(win, i);
        var off := ReferenceOffset(i, cur, absolute, 0, 0x03ff_ffff);
        Emit([(if IsB(ins) then 0x1400_0000 else 0x9400_0000) + off % 0x400_0000]);
      }
      Appended(i);
      Finish(cur);
      return true;
    }

    /** The inverted path of a far conditional branch: skip the inlined jump unless the test holds. */
    method EmitFarCond(i: nat, absolute: int)
      requires AtStart(i) && Shape(win, i) == Far && absolute == SourceTarget(win.At(i), inp)
      requires IsCond(win.At(i))
      modifies this`pos, this`dat, buf
      ensures pos <= buf.Length && Code() == old(Code()) + Frag(win, i, i)
      ensures dat == old(dat)[i := Ins(win, i)]
    {
      hide ShapeOf, Start, Ins, Frag, Quad, SourceTarget, IsCond, EncodeOffset;
      FarCond(win, i);
      if (Outp() + 16) % 8 != 0 {
        Emit([NOP]);
        ResetCurrentIns(i);
      }
      Emit([EncodeOffset(win.mem(inp), 2), 0x1400_0005, 0x5800_0051, 0xd61f_0220] + Quad(absolute));
    }

    method FixCondCompTestBranch(ghost i: nat) returns (handled: bool)
      requires i < win.n && Relocated(i) && !IsB(win.At(i)) && !IsBl(win.At(i))
      modifies this`inp, this`pos, this`dat, this`fmap, buf
      ensures handled == IsCond(win.At(i))
      ensures Relocated(if handled then i + 1 else i)
    {
      hide IsB, IsBl, IsCond19, IsTest14, ShapeOf, Start, Ins, Pos, Frag, FragAt, Placed, Pending, Holds;
      hide RefersForward, FirstOffset, EncodeOffset;
      CursorFacts(i);
      var ins := win.mem(inp);
      if !IsCond19(ins) && !IsTest14(ins) { return false; }
      var cur := GetAndSetCurrentIndex();
      var absolute := inp + 4 * (if IsCond19(ins) then Imm19(ins) else Imm14(ins));
      BranchShape(win, i);
      if !win.Contains(absolute)
         && Abs((absolute - Outp()) / 4) >= (if IsCond19(ins) then 0x3_ffff else 0x1fff) {
        NoReference(win, i);
        EmitFarCond(cur, absolute);
      } else {
        BranchBody(win, i);
        var off := ReferenceOffset(i, cur, absolute, 5, if IsCond19(ins) then 0x00ff_ffe0 else 0x0007_ffe0);
        Emit([EncodeOffset(ins, off)]);
      }
      Appended(i);
      Finish(cur);
      return true;
    }

    /** NOPs until the word after next is aligned to `bytes`. */
    method PadOutput(bytes: nat)
      requires bytes in {4, 8, 16} && Outp() % 4 == 0 && pos + PadTo(Outp() + 8, bytes) <= buf.Length
      modifies this`pos, buf
      ensures pos == old(pos) + PadTo(old(Outp()) + 8, bytes) <= buf.Length
      ensures Code() == old(Code()) + NopRun(PadTo(old(Outp()) + 8, bytes))
    {
      hide PadTo, Rest;
      ghost var s, k := Outp(), 0;
      PadStep(Outp() + 8, bytes);
      while Rest(Outp() + 8, bytes) != 0
        invariant Outp() == s + 4 * k && k + PadTo(Outp() + 8, bytes) == PadTo(s + 8, bytes)
        invariant Rest(Outp() + 8, bytes) == 0 <==> PadTo(Outp() + 8, bytes) == 0
        invariant pos == old(pos) + k && Code() == old(Code()) + NopRun(k)
        decreases PadTo(Outp() + 8, bytes)
      {
        PadStep(Outp() + 8, bytes);
        PadStep(Outp() + 12, bytes);
        Emit([NOP]);
        k := k + 1;
      }
    }

    /** Copies the literal next to the load; NOPs align it to its own size. */
    method EmitInlineLit(i: nat, absolute: int)
      requires AtStart(i) && Shape(win, i) == Inline && absolute == SourceTarget(win.At(i), inp)
      requires IsLit(win.At(i)) && Outp() % 4 == 0
      modifies this`pos, this`dat, buf
      ensures pos <= buf.Length && Code() == old(Code()) + Frag(win, i, i)
      ensures dat == old(dat)[i := Ins(win, i)]
    {
      hide ShapeOf, Start, Ins, Frag, SourceTarget, IsLit, Data, PadTo, LitBytes;
      InlineLit(win, i);
      var w := win.mem(inp);
      var bytes := LitBytes(w);
      PaddingBound(win.At(i), Outp() + 8);
      PadOutput(bytes);
      ResetCurrentIns(i);
      Emit([w - 32 * Imm19(w) + 64, 0x1400_0001 + bytes / 4] + Data(win.mem, absolute, bytes / 4));
    }

    /** Rebases the load; NOPs give the new distance the literal's alignment. */
    method EmitNearLit(i: nat, absolute: int)
      requires AtStart(i) && Shape(win, i) == Near && absolute == SourceTarget(win.At(i), inp)
      requires IsLit(win.At(i)) && Outp() % 4 == 0
      modifies this`pos, this`dat, buf
      ensures pos <= buf.Length && Code() == old(Code()) + Frag(win, i, i)
      ensures dat == old(dat)[i := Ins(win, i)]
    {
      hide ShapeOf, Start, Ins, Frag, SourceTarget, IsLit, NearLitWord, LitBytes, Rest;
      NearLit(win, i);
      PaddingBound(win.At(i), Outp() + 8);
      var w := win.mem(inp);
      var m := LitBytes(w) / 4;
      var off := (absolute - Outp()) / 4;
      ghost var s, k := Outp(), 0;
      ModStep(off, m);
      while Rest(off, m) != 0
        invariant off == (absolute - Outp()) / 4
        invariant Outp() == s + 4 * k && Rest(off, m) < 4 && k + Rest(off, m) == Rest((absolute - s) / 4, m)
        invariant pos == old(pos) + k && Code() == old(Code()) + NopRun(k) && dat == old(dat)
        decreases Rest(off, m)
      {
        ModStep(off, m);
        Emit([NOP]);
        off := (absolute - Outp()) / 4;
        k := k + 1;
      }
      ResetCurrentIns(i);
      Emit([NearLitWord(w, off)]);
    }

    method FixLoadLit(ghost i: nat) returns (handled: bool)
      requires i < win.n && Relocated(i)
      modifies this`inp, this`pos, this`dat, this`fmap, buf
      ensures handled == (IsPrefetch(win.At(i)) || IsLit(win.At(i)))
      ensures Relocated(if handled then i + 1 else i)
    {
      hide IsPrefetch, IsLit, ShapeOf, Start, Ins, Pos, Frag, FragAt, Placed, Pending, Holds, RefersForward;
      CursorFacts(i);
      StartBounds(win, i);
      var ins := win.mem(inp);
      if IsPrefetch(ins) {
        var cur := GetAndSetCurrentIndex();
        PrefetchShape(win, i);
        NoReference(win, i);
        assert Code() == old(Code()) + Frag(win, i, i);
        Appended(i);
        Finish(cur);
        return true;
      }
      if !IsLit(ins) { return false; }
      var cur := GetAndSetCurrentIndex();
      var absolute := inp + (4 * Signed(Imm19(ins), 0x4_0000)) % TWO32;
      LitTarget(ins, inp);
      LitShape(win, i);
      NoReference(win, i);
      if win.Contains(absolute) || Abs((absolute - Outp()) / 4) + (LitBytes(ins) - 4) / 4 >= 0x3_ffff {
        EmitInlineLit(cur, absolute);
      } else {
        EmitNearLit(cur, absolute);
      }
      Appended(i);
      Finish(cur);
      return true;
    }

    /** LDR Xd from an inlined absolute address, and a branch over it. */
    method EmitFarAddress(i: nat, absolute: int)
      requires AtStart(i) && Shape(win, i) == Far && absolute == SourceTarget(win.At(i), inp)
      requires IsAdr(win.At(i)) || IsAdrp(win.At(i))
      modifies this`pos, this`dat, buf
      ensures pos <= buf.Length && Code() == old(Code()) + Frag(win, i, i)
      ensures dat == old(dat)[i := Ins(win, i)]
    {
      hide ShapeOf, Start, Ins, Frag, Quad, SourceTarget, IsAdr, IsAdrp, EncodeOffset, NearAdrWord;
      AddressFrag(win, i);
      if (Outp() + 8) % 8 != 0 {
        Emit([NOP]);
        ResetCurrentIns(i);
      }
      Emit([0x5800_0040 + Low5(win.mem(inp)), 0x1400_0003] + Quad(absolute));
    }

    method FixPcRelAddr(ghost i: nat) returns (handled: bool)
      requires i < win.n && Relocated(i)
      modifies this`inp, this`pos, this`dat, this`fmap, buf
      ensures handled == (IsAdr(win.At(i)) || IsAdrp(win.At(i)))
      ensures Relocated(if handled then i + 1 else i)
    {
      hide IsAdr, IsAdrp, ShapeOf, Start, Ins, Pos, Frag, FragAt, Placed, Pending, Holds, RefersForward, FirstOffset;
      hide SourceTarget, EncodeOffset, NearAdrWord;
      CursorFacts(i);
      var ins := win.mem(inp);
      if !IsAdr(ins) && !IsAdrp(ins) { return false; }
      var cur := GetAndSetCurrentIndex();
      AddressShape(win, i);
      AddressFrag(win, i);
      var hi := (4 * Signed(Imm19(ins), 0x4_0000)) % TWO32;
      if IsAdr(ins) {
        var absolute := inp + (hi + ImmLo(ins));
        if !win.Contains(absolute) && Abs(absolute - Outp()) >= 0xf_ffff {
          NoReference(win, i);
          EmitFarAddress(cur, absolute);
        } else {
          var disp := absolute - Outp();
          AdrFix(ins);
          var off := ReferenceOffset(i, cur, absolute, 5, 0x00ff_ffff);
          if win.Contains(absolute) {
            disp := 4 * off;
            NearAdrAligned(ins, off);
          }
          Emit([NearAdrWord(ins, disp)]);
        }
      } else {
        var absolute := Page(inp) + ((hi + ImmLo(ins)) * 4096) % TWO32;
        NoReference(win, i);
        if win.Contains(absolute) {
          Emit([ins]);
        } else {
          EmitFarAddress(cur, absolute);
        }
      }
      Appended(i);
      Finish(cur);
      return true;
    }

    /** One iteration of the source's loop: the four rewriters in order, then a plain copy. */
    method FixOne(ghost i: nat)
      requires i < win.n && Relocated(i)
      modifies this`inp, this`pos, this`dat, this`fmap, buf
      ensures Relocated(i + 1)
    {
      hide IsB, IsBl, IsCond, IsPrefetch, IsLit, IsAdr, IsAdrp, ShapeOf, Start, Ins, Pos, Frag, FragAt, Placed;
      hide Pending, Holds, RefersForward;
      var handled := FixBranchImm(i);
      if handled { return; }
      handled := FixCondCompTestBranch(i);
      if handled { return; }
      handled := FixLoadLit(i);
      if handled { return; }
      handled := FixPcRelAddr(i);
      if handled { return; }
      CursorFacts(i);
      PlainShape(win, i);
      NoReference(win, i);
      label before:
      var cur := GetAndSetCurrentIndex();
      Emit([win.mem(inp)]);
      Appended@before(i);
      Finish(cur);
    }

    /** Relocates the window and appends the jump back to the instruction after it. */
    method FixInstructions()
      requires Relocated(0)
      modifies this`inp, this`pos, this`dat, this`fmap, buf
      ensures pos <= buf.Length && pos <= 9 * win.n + 5 && Assembled(win, Code())
      ensures |dat| == MAX_INSTRUCTIONS && forall j: nat :: j < win.n ==> dat[j] == Ins(win, j)
      ensures |fmap| == MAX_INSTRUCTIONS && forall j: nat :: j < win.n ==> Holds(fmap[j], [])
    {
      hide ShapeOf, Start, Ins, Pos, Frag, FragAt, Placed, Pending, Holds, PlacedTail;
      var count := win.n;
      while count > 0
        invariant count <= win.n && Relocated(win.n - count)
      {
        FixOne(win.n - count);
        count := count - 1;
      }
      EndFacts();
      ghost var code := Code();
      var callback := inp;
      var off := (callback - Outp()) / 4;
      if Abs(off) >= 0x1ff_ffff {
        if (Outp() + 8) % 8 != 0 {
          Emit([NOP]);
        }
        Emit([0x5800_0051, 0xd61f_0220] + Quad(callback));
      } else {
        Emit([0x1400_0000 + off % 0x400_0000]);
      }
      assert Code() == code + Tail(win);
      PlaceTail(win, code);
    }

    lemma EndFacts()
      requires Relocated(win.n)
      ensures Outp() == Start(win, win.n) && pos <= 9 * win.n && inp == win.End()
    {
      hide ShapeOf, Nops, BodyLen, Frag, FragLen, FragAt;
      StartBounds(win, win.n);
    }
  }
}

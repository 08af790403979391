/** What the stubs of the 32-bit hook do: a call of a hooked target reaches its replacement. */
module HookMeaning {
  import opened Words
  import opened HookTable
  import opened Thumb
  import opened ThumbMeaning
  import opened ThumbTrampoline

  /** Code memory, read as half words in little-endian order. */
  ghost predicate Reads(m: Code, mem: seq<Byte>) {
    && |mem| <= 0x1_0000_0000
    && forall a: Word :: a % 2 == 0 && a + 1 < |mem| ==> a in m && m[a] == HalfAt(mem, a)
  }

  function HalfAt(mem: seq<Byte>, a: nat): nat
    requires a + 1 < |mem|
  {
    var low: int, high: int := mem[a], mem[a + 1];
    low + 256 * high
  }

  function WordIn(mem: seq<Byte>, a: nat): nat
    requires a + 3 < |mem|
  {
    HalfAt(mem, a) + 0x1_0000 * HalfAt(mem, a + 2)
  }

  /** The bytes of half words. */
  function BytesOf(h: seq<nat>): (b: seq<Byte>)
    requires forall i :: 0 <= i < |h| ==> h[i] < 0x1_0000
    ensures |b| == 2 * |h|
  {
    if h == [] then [] else [h[0] % 256, h[0] / 256] + BytesOf(h[1..])
  }

  lemma {:induction false} BytesOfAt(h: seq<nat>, i: nat)
    requires forall k :: 0 <= k < |h| ==> h[k] < 0x1_0000
    requires i < |h|
    ensures BytesOf(h)[2 * i] == h[i] % 256 && BytesOf(h)[2 * i + 1] == h[i] / 256
  {
    var first, rest := [h[0] % 256, h[0] / 256], BytesOf(h[1..]);
    if i > 0 {
      BytesOfAt(h[1..], i - 1);
      assert BytesOf(h)[2 * i] == rest[2 * (i - 1)] && BytesOf(h)[2 * i + 1] == rest[2 * (i - 1) + 1];
    }
  }

  /** The half words that a Thumb stub should have: a NOP where the address is not a multiple of 4, and a jump. */
  function ThumbStub(at: Word, newAddr: Word): (s: seq<nat>)
    ensures forall i :: 0 <= i < |s| ==> s[i] < 0x1_0000
  {
    (if at % 4 != 0 then [0xBF00] else []) + [0xF8DF, 0xF000, newAddr % 0x1_0000, newAddr / 0x1_0000]
  }

  function ArmStub(newAddr: Word): (s: seq<nat>)
    ensures forall i :: 0 <= i < |s| ==> s[i] < 0x1_0000
  {
    [0xf004, 0xe51f, newAddr % 0x1_0000, newAddr / 0x1_0000]
  }

  lemma StubHalves(target: Word, newAddr: Word)
    ensures Stub(target, newAddr) ==
      BytesOf(if target % 2 == 1 then ThumbStub(Clear(target), newAddr) else ArmStub(newAddr))
  {
    var lo, hi := newAddr % 0x1_0000, newAddr / 0x1_0000;
    FourHalves(0xF8DF, 0xF000, lo, hi);
    FourHalves(0xf004, 0xe51f, lo, hi);
    assert [0xBF00, 0xF8DF, 0xF000, lo, hi][1..] == [0xF8DF, 0xF000, lo, hi];
    assert [0xBF00] + [0xF8DF, 0xF000, lo, hi] == [0xBF00, 0xF8DF, 0xF000, lo, hi];
    assert [] + [0xF8DF, 0xF000, lo, hi] == [0xF8DF, 0xF000, lo, hi];
  }

  lemma FourHalves(a: nat, b: nat, c: nat, d: nat)
    requires a < 0x1_0000 && b < 0x1_0000 && c < 0x1_0000 && d < 0x1_0000
    ensures BytesOf([a, b, c, d]) == HookTable.Half(a) + (HookTable.Half(b) + (HookTable.Half(c) + HookTable.Half(d)))
  {
    assert [a, b, c, d][1..] == [b, c, d] && [b, c, d][1..] == [c, d] && [c, d][1..] == [d] && [d][1..] == [];
    assert BytesOf([d]) == HookTable.Half(d);
    assert BytesOf([c, d]) == HookTable.Half(c) + HookTable.Half(d);
    assert BytesOf([b, c, d]) == HookTable.Half(b) + (HookTable.Half(c) + HookTable.Half(d));
  }

  /** The stub of a hooked item is in code memory. */
  lemma StubIsThere(mem: seq<Byte>, o: seq<Byte>, items: seq<Item>, k: nat, h: seq<nat>)
    requires Sound(o, items) && Shows(mem, o, items) && k < |items| && items[k].status == HOOKED
    requires forall i :: 0 <= i < |h| ==> h[i] < 0x1_0000
    requires Stub(items[k].target, items[k].newAddr) == BytesOf(h)
    ensures var at := Clear(items[k].target);
      && at + 2 * |h| <= |mem| && forall i :: 0 <= i < |h| ==> HalfAt(mem, at + 2 * i) == h[i]
  {
    hide Stub, BytesOf;
    var it := items[k];
    var at: nat := Clear(it.target);
    assert |Stub(it.target, it.newAddr)| <= Length(it.target);
    forall i | 0 <= i < |h|
      ensures HalfAt(mem, at + 2 * i) == h[i]
    {
      BytesOfAt(h, i);
      assert ShowsAt(mem, o, items, at + 2 * i) && ShowsAt(mem, o, items, at + 2 * i + 1);
      assert Covers(it, at + 2 * i) && Covers(it, at + 2 * i + 1);
    }
  }

  lemma StubFetched(m: Code, mem: seq<Byte>, at: Word, h: seq<Thumb.Half>)
    requires Reads(m, mem) && at % 2 == 0 && at + 2 * |h| <= |mem|
    requires forall i :: 0 <= i < |h| ==> HalfAt(mem, at + 2 * i) == h[i]
    ensures ThumbMeaning.Holds(m, at, h)
  {
    forall i | 0 <= i < |h|
      ensures at + 2 * i in m && m[at + 2 * i] == h[i]
    {
      var a: Word := at + 2 * i;
      EvenStep(at, i);
      assert a + 1 < |mem|;
    }
  }

  lemma EvenStep(at: Word, i: nat)
    requires at % 2 == 0
    ensures (at + 2 * i) % 2 == 0
  {
    Doubled(at / 2 + i, at + 2 * i);
  }

  /** The half words of a Thumb stub jump to the replacement and change nothing else. */
  lemma StubJumps(m: Code, at: Word, c: Cpu, newAddr: Word) returns (n: nat)
    requires ThumbMeaning.Holds(m, at, (if at % 4 != 0 then [0xBF00] else []) + Jump(newAddr)) && at % 2 == 0
    requires WellFormed(c) && c.pc == at && c.thumb && at + 12 < 0x1_0000_0000
    ensures Run(m, c, n) == Some(LoadPc(c, newAddr))
  {
    hide Step, Run, ThumbMeaning.Holds, Jump, LoadPc;
    if at % 4 == 0 {
      assert [] + Jump(newAddr) == Jump(newAddr);
      JumpRuns(m, at, c, newAddr);
      RunOne(m, c);
      n := 1;
    } else {
      var f := [0xBF00] + Jump(newAddr);
      NextQuad(at);
      assert !Wide(f[0]);
      Fetched(m, at, f, 0, c);
      NopStep(m, c);
      var d := Goto(c, at + 2);
      HoldsTail(m, at, [0xBF00], Jump(newAddr));
      JumpRuns(m, at + 2, d, newAddr);
      RunTwo(m, c, d);
      LoadPcAnywhere(c, at + 2, newAddr);
      n := 2;
    }
  }

  lemma NextQuad(at: int)
    requires at % 2 == 0 && at % 4 != 0
    ensures (at + 2) % 4 == 0 && (at + 2) % 2 == 0
  {
    EvenInQuad(at / 2, at / 4, at % 4);
    Quadrupled(at / 4 + 1, at + 2);
    Doubled(2 * (at / 4) + 2, at + 2);
  }

  lemma EvenInQuad(h: int, q: int, r: int)
    requires 2 * h == 4 * q + r && 0 < r < 4
    ensures r == 2
  {
    OnlyTwo(h - 2 * q, r);
  }

  lemma OnlyTwo(d: int, r: int)
    requires r == 2 * d && 0 < r < 4
    ensures r == 2
  {
    assert d < 2;
    assert d > 0;
  }

  /** A call of a hooked Thumb target reaches the replacement, in the instruction set of its bit 0, with all registers
      and flags as they were. */
  lemma HookedThumbReaches(m: Code, mem: seq<Byte>, o: seq<Byte>, items: seq<Item>, k: nat, c: Cpu) returns (n: nat)
    requires Sound(o, items) && Shows(mem, o, items) && k < |items| && items[k].status == HOOKED
    requires items[k].target % 2 == 1 && Reads(m, mem) && Clear(items[k].target) + 12 < 0x1_0000_0000
    requires WellFormed(c) && c.thumb && c.pc == Clear(items[k].target)
    ensures Run(m, c, n) == Some(LoadPc(c, items[k].newAddr))
  {
    hide Sound, Shows, Stub, BytesOf, Run, LoadPc, Reads, ThumbMeaning.Holds;
    var it := items[k];
    var at := Clear(it.target);
    StubHalves(it.target, it.newAddr);
    StubIsThere(mem, o, items, k, ThumbStub(at, it.newAddr));
    ClearEven(it.target);
    var f := (if at % 4 != 0 then [0xBF00] else []) + Jump(it.newAddr);
    assert |f| == |ThumbStub(at, it.newAddr)|;
    assert forall i :: 0 <= i < |f| ==> f[i] == ThumbStub(at, it.newAddr)[i];
    StubFetched(m, mem, at, f);
    n := StubJumps(m, at, c, it.newAddr);
  }

  lemma ClearEven(target: Word)
    ensures Clear(target) % 2 == 0
  {
    Doubled(target / 2, Clear(target));
  }

  // ----- ARM targets -----

  /** Where an unconditional ARM `LDR PC, [PC, #-imm]` at `a` loads the program counter from. */
  function LoadsPcFrom(w: Word, a: int): Option<int> {
    if w / 0x1000 == 0xe51ff then Some(a + 8 - w % 0x1000) else None
  }

  /** The first word of a hooked ARM target loads the program counter from the second one, which is the replacement. */
  lemma HookedArmReaches(mem: seq<Byte>, o: seq<Byte>, items: seq<Item>, k: nat)
    requires Sound(o, items) && Shows(mem, o, items) && k < |items| && items[k].status == HOOKED
    requires items[k].target % 2 == 0
    ensures var at: nat := Clear(items[k].target);
      && at + 8 <= |mem| && WordIn(mem, at) == 0xe51f_f004 && WordIn(mem, at + 4) == items[k].newAddr
      && LoadsPcFrom(WordIn(mem, at), at) == Some(at + 4)
  {
    hide Sound, Shows, Stub, BytesOf;
    var it := items[k];
    StubHalves(it.target, it.newAddr);
    var h := ArmStub(it.newAddr);
    StubIsThere(mem, o, items, k, h);
    var at: nat := Clear(it.target);
    assert HalfAt(mem, at + 2 * 0) == h[0] && HalfAt(mem, at + 2 * 1) == h[1];
    assert HalfAt(mem, at + 2 * 2) == h[2] && HalfAt(mem, at + 2 * 3) == h[3];
  }

  /** The saved window is 12 bytes for Thumb and 8 for ARM, and the stub fits. */
  lemma WindowSizes(target: Word, newAddr: Word)
    ensures Length(target) == (if target % 2 == 1 then 12 else 8) && |Stub(target, newAddr)| <= Length(target)
    ensures |Stub(target, newAddr)| == if target % 2 == 0 || Clear(target) % 4 == 0 then 8 else 10
  {
    StubHalves(target, newAddr);
  }
}

/** The ARM EHABI unwinder: the byte stream, the bytecode interpreter and the search of the index table. */
module Unwinder {
  import opened Words

  /** The 16 core registers. */
  type Regs = r: seq<Word> | |r| == 16 witness [0, 0, 0, 0, 0, 0, 0, 0, 0, 0, 0, 0, 0, 0, 0, 0]

  /** The readable words of the address space. */
  type Memory = map<Word, Word>

  const SP := 13
  const LR := 14
  const PC := 15

  /** The address `d` bytes below. */
  function Below(a: Word, d: int): Word { (a - d) % 0x1_0000_0000 }

  // ----- the byte stream -----

  /** The cursor of `byte_stream_t`: the address of the next byte and the last word read. */
  datatype Cursor = Cursor(ptr: Word, word: Word)

  /** Byte `k` of a word, the most significant first. */
  function ByteOf(w: Word, k: nat): Byte
    requires k < 4
  {
    if k == 0 then w / 0x100_0000 else if k == 1 then w / 0x1_0000 % 256 else if k == 2 then w / 256 % 256 else w % 256
  }

  /** The word that holds the next byte; it is fetched at every word boundary. */
  function Loaded(mem: Memory, c: Cursor): Option<Word> {
    if c.ptr % 4 != 0 then Some(c.word) else if c.ptr in mem then Some(mem[c.ptr]) else None
  }

  function Advanced(mem: Memory, c: Cursor): Cursor {
    var w := Loaded(mem, c);
    Cursor(Add32(c.ptr, 1), if w.None? then c.word else w.value)
  }

  /** The next `n` bytes; a byte whose word cannot be read is `None`. */
  function Bytes(mem: Memory, c: Cursor, n: nat): (s: seq<Option<Byte>>)
    ensures |s| == n
    decreases n
  {
    if n == 0 then []
    else
      var w := Loaded(mem, c);
      [if w.None? then None else Some(ByteOf(w.value, c.ptr % 4))] + Bytes(mem, Advanced(mem, c), n - 1)
  }

  /** The byte at an address, in big-endian word order. */
  function ByteAt(mem: Memory, a: Word): Byte
    requires Readable(mem, a)
  {
    ByteOf(mem[a - a % 4], a % 4)
  }

  lemma AddAdd(a: Word, j: nat)
    ensures Add32(Add32(a, 1), j) == Add32(a, j + 1) && Add32(a, 0) == a
  {
    AddSum(a, 1, j);
    AddZero(a);
  }

  lemma SameWord(a: Word)
    ensures a % 4 != 3 ==> Add32(a, 1) == a + 1 && Add32(a, 1) % 4 == a % 4 + 1
    ensures a % 4 == 3 ==> Add32(a, 1) % 4 == 0
  {
  }

  /** The cursor holds the word that its address lies in. */
  predicate Primed(mem: Memory, c: Cursor) {
    c.ptr % 4 == 0 || (c.ptr - c.ptr % 4 in mem && c.word == mem[c.ptr - c.ptr % 4])
  }

  lemma AdvancedPrimed(mem: Memory, c: Cursor)
    requires Primed(mem, c) && c.ptr - c.ptr % 4 in mem
    ensures Loaded(mem, c) == Some(mem[c.ptr - c.ptr % 4]) && Primed(mem, Advanced(mem, c))
  {
    SameWord(c.ptr);
  }

  predicate Readable(mem: Memory, a: Word) { a - a % 4 in mem }

  /** Bytes come in address order, the most significant byte of each word first. */
  lemma {:induction false} BytesAreBigEndian(mem: Memory, c: Cursor, n: nat, i: nat)
    requires i < n && Primed(mem, c) && forall j :: 0 <= j < n ==> Readable(mem, Add32(c.ptr, j))
    ensures Readable(mem, Add32(c.ptr, i)) && Bytes(mem, c, n)[i] == Some(ByteAt(mem, Add32(c.ptr, i)))
    decreases n
  {
    hide Add32, Loaded, Primed, ByteOf;
    AddAdd(c.ptr, 0);
    assert Readable(mem, Add32(c.ptr, 0));
    AdvancedPrimed(mem, c);
    if i > 0 {
      var d := Advanced(mem, c);
      forall j | 0 <= j < n - 1
        ensures Readable(mem, Add32(d.ptr, j))
      {
        AddAdd(c.ptr, j);
      }
      BytesAreBigEndian(mem, d, n - 1, i - 1);
      AddAdd(c.ptr, i - 1);
    }
  }

  // ----- popping registers -----

  datatype Result = Result(ok: bool, regs: Regs)

  /** `try_pop_registers` from register `i` on: `sp` is the running stack pointer. */
  function PopFrom(r: Regs, mem: Memory, mask: nat, i: nat, sp: Word, spSet: bool): Result
    requires i <= 16
    decreases 16 - i
  {
    if i == 16 then Result(true, if spSet then r else r[SP := sp])
    else if Bit(mask, i) then
      if sp in mem then PopFrom(r[i := mem[sp]], mem, mask, i + 1, Add32(sp, 4), spSet || i == SP) else Result(false, r)
    else PopFrom(r, mem, mask, i + 1, sp, spSet)
  }

  function Pop(r: Regs, mem: Memory, mask: nat): Result { PopFrom(r, mem, mask, 0, r[SP], false) }

  // ----- the bytecode -----

  datatype Outcome = Fail(regs: Regs) | Finish | Go(regs: Regs, used: nat, pcSet: bool)

  function MoveSp(r: Regs, delta: int): Regs { r[SP := Add32(r[SP], delta)] }

  function Popping(r: Regs, mem: Memory, mask: nat, used: nat): Outcome {
    var p := Pop(r, mem, mask);
    if p.ok then Go(p.regs, used, Bit(mask, PC)) else Fail(p.regs)
  }

  /** Registers r4 to r[4+n]. */
  function RangeMask(n: nat): nat
    requires n < 8
  {
    Shr(0xff0, 7 - n) / 16 * 16
  }

  function Arg(code: seq<Option<Byte>>): Option<Byte> {
    if |code| < 2 then None else code[1]
  }

  /** The ULEB128 operand of 0xb2: its value modulo 2^32 and its length. */
  function Uleb(code: seq<Option<Byte>>, value: Word, shift: nat): Option<(Word, nat)> {
    if code == [] || code[0].None? then None
    else
      var b := code[0].value;
      var v := Add32(value, Shl(b % 128, shift));
      if b < 128 then Some((v, 1))
      else
        var rest := Uleb(code[1..], v, shift + 7);
        if rest.None? then None else Some((rest.value.0, rest.value.1 + 1))
  }

  lemma {:induction false} UlebFits(code: seq<Option<Byte>>, value: Word, shift: nat)
    ensures Uleb(code, value, shift).Some? ==> Uleb(code, value, shift).value.1 <= |code|
  {
    if code != [] && code[0].Some? {
      UlebFits(code[1..], Add32(value, Shl(code[0].value % 128, shift)), shift + 7);
    }
  }

  /** One instruction, branch by branch as the source tests the opcode; `code` is what is left of the declared size. */
  function Step(code: seq<Option<Byte>>, r: Regs, mem: Memory): (o: Outcome)
    requires code != []
    ensures o.Go? ==> 0 < o.used <= |code|
  {
    if code[0].None? then Fail(r)
    else
      var op, arg := code[0].value, Arg(code);
      if op < 0x40 then Go(MoveSp(r, op * 4 + 4), 1, false)
      else if op < 0x80 then Go(MoveSp(r, -(op % 64 * 4) - 4), 1, false)
      else if op < 0x90 then
        if arg.None? then Fail(r)
        else
          var mask := op % 16 * 4096 + arg.value * 16;
          if mask == 0 then Fail(r) else Popping(r, mem, mask, 2)
      else if op < 0xa0 then
        if op == 0x9d || op == 0x9f then Fail(r)
        else if op == 0x97 && r[7] < 0x1_0000 then Go(r[SP := r[12]], 1, false)
        else Go(r[SP := r[op % 16]], 1, false)
      else if op < 0xa8 then Popping(r, mem, RangeMask(op % 8), 1)
      else if op < 0xb0 then Popping(r, mem, RangeMask(op % 8) + 0x4000, 1)
      else if op == 0xb0 then Finish
      else if op == 0xb1 then
        if arg.None? || arg.value == 0 || arg.value >= 16 then Fail(r) else Popping(r, mem, arg.value, 2)
      else if op == 0xb2 then
        var u := Uleb(code[1..], 0, 0);
        UlebFits(code[1..], 0, 0);
        if u.None? then Fail(r) else Go(MoveSp(r, u.value.0 * 4 + 0x204), 1 + u.value.1, false)
      else if op == 0xb3 then
        if arg.None? then Fail(r) else Go(MoveSp(r, arg.value % 16 * 8 + 12), 2, false)
      else if 0xb8 <= op < 0xc0 then Go(MoveSp(r, op % 8 * 8 + 12), 1, false)
      else if 0xc0 <= op < 0xc8 then Go(MoveSp(r, op % 8 * 8 + 8), 1, false)
      else if op == 0xc8 || op == 0xc9 then
        if arg.None? then Fail(r) else Go(MoveSp(r, arg.value % 16 * 8 + 8), 2, false)
      else if 0xd0 <= op < 0xd8 then Go(MoveSp(r, op % 8 * 8 + 8), 1, false)
      else Fail(r)
  }

  function Returned(r: Regs, pcSet: bool): Regs {
    if pcSet then r else r[PC := r[LR]]
  }

  /** The interpreter over the bytes of the declared size. */
  function Run(code: seq<Option<Byte>>, r: Regs, mem: Memory, pcSet: bool): Result
    decreases |code|
  {
    if code == [] then Result(true, Returned(r, pcSet))
    else
      match Step(code, r, mem)
      case Fail(r') => Result(false, r')
      case Finish => Result(true, Returned(r, pcSet))
      case Go(r', used, set') => Run(code[used..], r', mem, pcSet || set')
  }

  // ----- prologues -----

  /** A prologue step: store the core registers of a mask below the stack pointer, lower the stack pointer, or
      store VFP registers in `bytes` bytes. */
  datatype Save = Push(mask: nat) | Drop(bytes: nat) | PushVfp(bytes: nat)

  function CountFrom(mask: nat, i: nat): nat
    requires i <= 16
    decreases 16 - i
  {
    if i == 16 then 0 else (if Bit(mask, i) then 1 else 0) + CountFrom(mask, i + 1)
  }

  function Size(s: Save): nat {
    match s
    case Push(mask) => 4 * CountFrom(mask, 0)
    case Drop(bytes) => bytes
    case PushVfp(bytes) => bytes
  }

  function Total(steps: seq<Save>): nat {
    if steps == [] then 0 else Total(steps[..|steps| - 1]) + Size(steps[|steps| - 1])
  }

  /** The registers of `mask` from `i` up, stored at ascending addresses. */
  function Stored(mem: Memory, r: Regs, mask: nat, i: nat, at: Word): Memory
    requires i <= 16
    decreases 16 - i
  {
    if i == 16 then mem
    else if Bit(mask, i) then Stored(mem[at := r[i]], r, mask, i + 1, Add32(at, 4))
    else Stored(mem, r, mask, i + 1, at)
  }

  datatype Cpu = Cpu(regs: Regs, mem: Memory)

  function Perform(s: Save, c: Cpu): Cpu {
    var r := c.regs[SP := Below(c.regs[SP], Size(s))];
    Cpu(r, if s.Push? then Stored(c.mem, c.regs, s.mask, 0, r[SP]) else c.mem)
  }

  function Prologue(steps: seq<Save>, c: Cpu): Cpu {
    if steps == [] then c else Perform(steps[|steps| - 1], Prologue(steps[..|steps| - 1], c))
  }

  function Pushed(steps: seq<Save>, j: nat): bool {
    exists k :: 0 <= k < |steps| && steps[k].Push? && Bit(steps[k].mask, j)
  }

  /** The registers of `mask` from `i` up are found at ascending addresses. */
  predicate Holds(mem: Memory, r: Regs, mask: nat, i: nat, at: Word)
    requires i <= 16
    decreases 16 - i
  {
    if i == 16 then true
    else if Bit(mask, i) then at in mem && mem[at] == r[i] && Holds(mem, r, mask, i + 1, Add32(at, 4))
    else Holds(mem, r, mask, i + 1, at)
  }

  /** Every push of a prologue entered with registers `r` can be found on the stack. */
  predicate Saved(steps: seq<Save>, r: Regs, mem: Memory) {
    steps != [] ==>
      var n := |steps| - 1;
      Saved(steps[..n], r, mem) && (steps[n].Push? ==> Holds(mem, r, steps[n].mask, 0, Below(r[SP], Total(steps))))
  }

  /** The words between `low` and `high` bytes below the entry stack pointer. */
  predicate SameWords(sp: Word, low: nat, high: nat, mem: Memory, mem': Memory) {
    forall d :: low < d <= high && Below(sp, d) in mem ==>
        Below(sp, d) in mem' && mem'[Below(sp, d)] == mem[Below(sp, d)]
  }

  /** The words that hold pushed core registers; locals and saved VFP registers may change. */
  predicate SamePushed(steps: seq<Save>, sp: Word, mem: Memory, mem': Memory) {
    steps != [] ==>
      var n := |steps| - 1;
      && SamePushed(steps[..n], sp, mem, mem')
      && (steps[n].Push? ==> SameWords(sp, Total(steps[..n]), Total(steps), mem, mem'))
  }

  lemma ShallowerBelow(sp: Word, d: nat)
    requires d >= 4
    ensures Add32(Below(sp, d), 4) == Below(sp, d - 4)
  {
    AboveBelow(sp, d - 4, 4);
  }

  lemma {:induction false} HoldsInFrame(mem: Memory, mem': Memory, r: Regs, mask: nat, i: nat, sp: Word, d: nat,
      low: nat, high: nat)
    requires i <= 16 && low + 4 * CountFrom(mask, i) <= d <= high
    requires Holds(mem, r, mask, i, Below(sp, d)) && SameWords(sp, low, high, mem, mem')
    ensures Holds(mem', r, mask, i, Below(sp, d))
    decreases 16 - i
  {
    hide Add32, Below, Bit;
    if i < 16 {
      if Bit(mask, i) {
        ShallowerBelow(sp, d);
        HoldsInFrame(mem, mem', r, mask, i + 1, sp, d - 4, low, high);
      } else {
        HoldsInFrame(mem, mem', r, mask, i + 1, sp, d, low, high);
      }
    }
  }

  lemma {:induction false} SavedInFrame(steps: seq<Save>, r: Regs, mem: Memory, mem': Memory)
    requires Saved(steps, r, mem) && SamePushed(steps, r[SP], mem, mem')
    ensures Saved(steps, r, mem')
  {
    hide Holds, SameWords, Below;
    if steps != [] {
      var n := |steps| - 1;
      SavedInFrame(steps[..n], r, mem, mem');
      if steps[n].Push? {
        HoldsInFrame(mem, mem', r, steps[n].mask, 0, r[SP], Total(steps), Total(steps[..n]), Total(steps));
      }
    }
  }

  lemma {:induction false} WholeFrame(steps: seq<Save>, sp: Word, mem: Memory, mem': Memory, total: nat)
    requires SameWords(sp, 0, total, mem, mem') && Total(steps) <= total
    ensures SamePushed(steps, sp, mem, mem')
  {
    hide Below;
    if steps != [] { WholeFrame(steps[..|steps| - 1], sp, mem, mem', total); }
  }

  /** Two addresses of one frame are equal only at equal depths. */
  lemma Depths(sp: Word, d: nat, e: nat)
    requires 0 < d <= 0x1_0000_0000 && 0 < e <= 0x1_0000_0000 && Below(sp, d) == Below(sp, e)
    ensures d == e
  {
    var p, q := (sp - d) / 0x1_0000_0000, (sp - e) / 0x1_0000_0000;
    assert sp - d == p * 0x1_0000_0000 + Below(sp, d) && sp - e == q * 0x1_0000_0000 + Below(sp, e);
  }

  /** Storing does what `Holds` reads back, and changes no other address of the frame. */
  lemma {:induction false} StoredHolds(mem: Memory, r: Regs, mask: nat, i: nat, sp: Word, d: nat)
    requires i <= 16 && 4 * CountFrom(mask, i) <= d <= 0x1_0000_0000
    ensures var m := Stored(mem, r, mask, i, Below(sp, d));
      && Holds(m, r, mask, i, Below(sp, d))
      && (forall e :: 0 < e <= 0x1_0000_0000 && (e > d || e <= d - 4 * CountFrom(mask, i)) ==>
            (Below(sp, e) in m <==> Below(sp, e) in mem) && (Below(sp, e) in m ==>
                m[Below(sp, e)] == mem[Below(sp, e)]))
    decreases 16 - i
  {
    hide Bit, Below, Add32;
    if i < 16 {
      var at := Below(sp, d);
      if Bit(mask, i) {
        ShallowerBelow(sp, d);
        var mem1 := mem[at := r[i]];
        StoredHolds(mem1, r, mask, i + 1, sp, d - 4);
        forall e | 0 < e <= 0x1_0000_0000 && Below(sp, e) == at
          ensures e == d
        {
          Depths(sp, d, e);
        }
      } else {
        StoredHolds(mem, r, mask, i + 1, sp, d);
      }
    }
  }

  /** Encodable masks name no stack pointer and no program counter. */
  predicate CoreMask(mask: nat) { !Bit(mask, SP) && !Bit(mask, PC) }

  predicate CoreSteps(steps: seq<Save>) {
    forall k :: 0 <= k < |steps| && steps[k].Push? ==> CoreMask(steps[k].mask)
  }

  lemma BelowBelow(sp: Word, a: nat, b: nat)
    ensures Below(Below(sp, a), b) == Below(sp, a + b) && Below(sp, 0) == sp
  {
    var x: int, y: int := a, b;
    AddSum(sp, -x, -y);
    AddZero(sp);
  }

  lemma {:induction false} PrologueSaves(steps: seq<Save>, c: Cpu)
    requires CoreSteps(steps) && Total(steps) <= 0x1_0000_0000
    ensures var c' := Prologue(steps, c);
      Saved(steps, c.regs, c'.mem) && c'.regs == c.regs[SP := Below(c.regs[SP], Total(steps))]
  {
    hide Below, Holds;
    if steps == [] {
      BelowBelow(c.regs[SP], 0, 0);
    } else {
      var n := |steps| - 1;
      var s, c1 := steps[n], Prologue(steps[..n], c);
      var sp := c.regs[SP];
      PrologueSaves(steps[..n], c);
      BelowBelow(sp, Total(steps[..n]), Size(s));
      if s.Push? {
        StoredHolds(c1.mem, c1.regs, s.mask, 0, sp, Total(steps));
        var m := Stored(c1.mem, c1.regs, s.mask, 0, Below(sp, Total(steps)));
        assert SameWords(sp, 0, Total(steps[..n]), c1.mem, m);
        WholeFrame(steps[..n], sp, c1.mem, m, Total(steps[..n]));
        SavedInFrame(steps[..n], c.regs, c1.mem, m);
        SameCore(m, c1.regs, c.regs, s.mask, 0, Below(sp, Total(steps)));
      }
    }
  }

  /** The stack pointer's own value does not matter for a push of other registers. */
  lemma {:induction false} SameCore(mem: Memory, r: Regs, r': Regs, mask: nat, i: nat, at: Word)
    requires i <= 16 && Holds(mem, r, mask, i, at) && CoreMask(mask) && forall j :: 0 <= j < 16 && j != SP ==>
      r[j] == r'[j]
    ensures Holds(mem, r', mask, i, at)
    decreases 16 - i
  {
    if i < 16 { SameCore(mem, r, r', mask, i + 1, if Bit(mask, i) then Add32(at, 4) else at); }
  }

  // ----- unwinding -----

  /** `b` is an instruction that undoes the prologue step `s`. */
  ghost predicate Undoes(b: seq<Byte>, s: Save) {
    b != [] &&
    var op: int := b[0];
    var arg: int := if |b| > 1 then b[1] else 0;
    match s
    case Push(m) =>
      || (|b| == 2 && op == 0xb1 && arg == m && 0 < m < 16)
      || (|b| == 2 && 0x80 <= op < 0x90 && m == op % 16 * 4096 + arg * 16 && m != 0)
      || (|b| == 1 && 0xa0 <= op < 0xa8 && m == RangeMask(op % 8))
      || (|b| == 1 && 0xa8 <= op < 0xb0 && m == RangeMask(op % 8) + 0x4000)
    case Drop(k) =>
      || (|b| == 1 && op < 0x40 && k == op * 4 + 4)
      || (|b| > 1 && op == 0xb2 && exists v: nat :: IsUleb(b[1..], v) && v < 0x4000_0000 && k == v * 4 + 0x204)
    case PushVfp(k) =>
      || (|b| == 2 && op == 0xb3 && k == arg % 16 * 8 + 12)
      || (|b| == 1 && 0xb8 <= op < 0xc0 && k == op % 8 * 8 + 12)
      || (|b| == 2 && (op == 0xc8 || op == 0xc9) && k == arg % 16 * 8 + 8)
      || (|b| == 1 && 0xd0 <= op < 0xd8 && k == op % 8 * 8 + 8)
  }

  /** A ULEB128 encoding of `v` (section 7.6 of DWARF 4). */
  predicate IsUleb(b: seq<Byte>, v: nat) {
    b != [] &&
    if |b| == 1 then b[0] < 128 && v == b[0]
    else b[0] >= 128 && v % 128 == b[0] % 128 && IsUleb(b[1..], v / 128)
  }

  function Lift(b: seq<Byte>): (s: seq<Option<Byte>>)
    ensures |s| == |b|
  {
    seq(|b|, i requires 0 <= i < |b| => Some(b[i]))
  }

  lemma LiftSplit(a: seq<Byte>, b: seq<Byte>)
    ensures Lift(a + b) == Lift(a) + Lift(b)
  {
  }

  /** The instruction stream of a prologue: the steps undone last to first, then the end or `Finish`. */
  ghost predicate Matches(code: seq<Byte>, steps: seq<Save>)
    decreases |steps|
  {
    if steps == [] then code == [] || code[0] == 0xb0
    else
      var n := |steps| - 1;
      exists k :: 0 < k <= |code| && Undoes(code[..k], steps[n]) && Matches(code[k..], steps[..n])
  }

  /** Decoding a ULEB128 operand. */
  lemma {:induction false} UlebDecodes(b: seq<Byte>, v: nat, rest: seq<Option<Byte>>, value: Word, shift: nat)
    requires IsUleb(b, v) && value + Shl(v, shift) < 0x1_0000_0000
    ensures Uleb(Lift(b) + rest, value, shift) == Some((value + Shl(v, shift), |b|))
    decreases |b|
  {
    hide Shl;
    var code := Lift(b) + rest;
    assert code[0] == Some(b[0]) && code[1..] == Lift(b[1..]) + rest;
    ShlSplits(v, shift);
    if |b| > 1 {
      UlebDecodes(b[1..], v / 128, rest, value + Shl(v % 128, shift), shift + 7);
    }
  }

  lemma {:induction false} ShlSplits(v: nat, k: nat)
    ensures Shl(v, k) == Shl(v % 128, k) + Shl(v / 128, k + 7)
    ensures v < 128 ==> Shl(v % 128, k) == Shl(v, k)
  {
    if k == 0 {
      assert Shl(v / 128, 7) == 128 * (v / 128) by { ShlSeven(v / 128); }
    } else {
      ShlSplits(v, k - 1);
    }
  }

  lemma ShlSeven(a: nat)
    ensures Shl(a, 7) == 128 * a
  {
    assert Shl(a, 1) == 2 * a;
    assert Shl(a, 2) == 4 * a;
    assert Shl(a, 4) == 16 * a;
    assert Shl(a, 6) == 64 * a;
  }

  /** `u` with the registers of `mask` from `i` up taken from `r`. */
  function Restored(u: Regs, r: Regs, mask: nat, i: nat): Regs {
    seq(16, j requires 0 <= j < 16 => if j >= i && Bit(mask, j) then r[j] else u[j])
  }

  lemma RestoredStep(u: Regs, r: Regs, mask: nat, i: nat)
    requires i <= 16
    ensures i == 16 ==> Restored(u, r, mask, i) == u
    ensures i < 16 && Bit(mask, i) ==> Restored(u[i := r[i]], r, mask, i + 1) == Restored(u, r, mask, i)
    ensures i < 16 && !Bit(mask, i) ==> Restored(u, r, mask, i + 1) == Restored(u, r, mask, i)
  {
    hide Bit;
  }

  lemma CountStep(mask: nat, i: nat, sp: Word)
    requires i < 16 && Bit(mask, i)
    ensures Add32(Add32(sp, 4), 4 * CountFrom(mask, i + 1)) == Add32(sp, 4 * CountFrom(mask, i))
  {
    hide Bit;
    AddSum(sp, 4, 4 * CountFrom(mask, i + 1));
  }

  /** Popping reads back what a push stored. */
  lemma {:induction false} PopRestores(u: Regs, mem: Memory, mask: nat, i: nat, sp: Word, r: Regs)
    requires i <= 16 && !Bit(mask, SP) && Holds(mem, r, mask, i, sp)
    ensures PopFrom(u, mem, mask, i, sp, false) == Result(true,
      Restored(u, r, mask, i)[SP := Add32(sp, 4 * CountFrom(mask, i))])
    decreases 16 - i
  {
    hide Bit, Restored, Add32;
    RestoredStep(u, r, mask, i);
    if i == 16 {
      AddZero(sp);
    } else if Bit(mask, i) {
      PopRestores(u[i := r[i]], mem, mask, i + 1, Add32(sp, 4), r);
      CountStep(mask, i, sp);
    } else {
      PopRestores(u, mem, mask, i + 1, sp, r);
    }
  }

  /** What undoing one step does to the registers. */
  function Undone(u: Regs, r: Regs, s: Save): Regs {
    (if s.Push? then Restored(u, r, s.mask, 0) else u)[SP := Add32(u[SP], Size(s))]
  }

  lemma StepUndoes(b: seq<Byte>, s: Save, rest: seq<Option<Byte>>, u: Regs, mem: Memory, r: Regs)
    requires Undoes(b, s) && (s.Push? ==> CoreMask(s.mask) && Holds(mem, r, s.mask, 0, u[SP]))
    ensures Lift(b) + rest != [] && Step(Lift(b) + rest, u, mem) == Go(Undone(u, r, s), |b|, false)
  {
    var code := Lift(b) + rest;
    assert code[0] == Some(b[0]) && (|b| > 1 ==> Arg(code) == Some(b[1]));
    match s
    case Push(m) =>
      PopRestores(u, mem, m, 0, u[SP], r);
      assert Popping(u, mem, m, |b|) == Go(Undone(u, r, s), |b|, false);
    case Drop(k) =>
      if b[0] == 0xb2 {
        var v: nat :| IsUleb(b[1..], v) && v < 0x4000_0000 && k == v * 4 + 0x204;
        assert code[1..] == Lift(b[1..]) + rest;
        UlebDecodes(b[1..], v, rest, 0, 0);
      }
    case PushVfp(k) =>
  }

  lemma PushedStep(steps: seq<Save>, j: nat)
    requires steps != []
    ensures var s := steps[|steps| - 1];
      Pushed(steps, j) <==> Pushed(steps[..|steps| - 1], j) || (s.Push? && Bit(s.mask, j))
  {
    var n := |steps| - 1;
    if Pushed(steps[..n], j) {
      var k :| 0 <= k < n && steps[..n][k].Push? && Bit(steps[..n][k].mask, j);
      assert steps[k].Push? && Bit(steps[k].mask, j);
    }
    if Pushed(steps, j) {
      var k :| 0 <= k < |steps| && steps[k].Push? && Bit(steps[k].mask, j);
      if k < n { assert steps[..n][k].Push? && Bit(steps[..n][k].mask, j); }
    }
  }

  /** Registers after unwinding: the entry stack pointer, the pushed registers, and the return address as PC. */
  predicate Unwound(o: Result, steps: seq<Save>, u: Regs, r: Regs) {
    && o.ok && o.regs[SP] == r[SP]
    && o.regs[PC] == (if Pushed(steps, LR) then r[LR] else u[LR])
    && forall j :: 0 <= j < PC && j != SP ==> o.regs[j] == if Pushed(steps, j) then r[j] else u[j]
  }

  lemma UnwoundStep(o: Result, steps: seq<Save>, u: Regs, r: Regs)
    requires steps != [] && Unwound(o, steps[..|steps| - 1], Undone(u, r, steps[|steps| - 1]), r)
    ensures Unwound(o, steps, u, r)
  {
    forall j: nat | j < 16
      ensures Pushed(steps, j) <==>
        Pushed(steps[..|steps| - 1], j) || (steps[|steps| - 1].Push? && Bit(steps[|steps| - 1].mask, j))
    {
      PushedStep(steps, j);
    }
  }

  lemma RunStep(b: seq<Byte>, s: Save, rest: seq<Byte>, u: Regs, mem: Memory, r: Regs)
    requires Undoes(b, s) && (s.Push? ==> CoreMask(s.mask) && Holds(mem, r, s.mask, 0, u[SP]))
    ensures Run(Lift(b + rest), u, mem, false) == Run(Lift(rest), Undone(u, r, s), mem, false)
  {
    StepUndoes(b, s, Lift(rest), u, mem, r);
    LiftSplit(b, rest);
    assert (Lift(b) + Lift(rest))[|b|..] == Lift(rest);
    hide Step, Undone, Undoes, Lift;
  }

  lemma AboveBelow(sp: Word, a: nat, b: nat)
    ensures Add32(Below(sp, a + b), b) == Below(sp, a)
  {
    AddSum(sp, -(a + b), b);
  }

  /** Running a matching stream undoes the prologue, whatever the other registers hold. */
  lemma {:induction false} Unwinds(code: seq<Byte>, steps: seq<Save>, u: Regs, mem: Memory, r: Regs)
    requires Matches(code, steps) && CoreSteps(steps) && Saved(steps, r, mem)
    requires u[SP] == Below(r[SP], Total(steps))
    ensures Unwound(Run(Lift(code), u, mem, false), steps, u, r)
    decreases |steps|
  {
    hide Unwound, Below, Undone, Run, Undoes, Holds, Restored, Add32, Bit, Step, Lift;
    if steps == [] {
      EndsAtOnce(code, u, mem, r);
    } else {
      var n := |steps| - 1;
      var s, init := steps[n], steps[..n];
      var k :| 0 < k <= |code| && Undoes(code[..k], s) && Matches(code[k..], init);
      assert code[..k] + code[k..] == code;
      RunStep(code[..k], s, code[k..], u, mem, r);
      UndoneSp(u, r, s);
      AboveBelow(r[SP], Total(init), Size(s));
      Unwinds(code[k..], init, Undone(u, r, s), mem, r);
      UnwoundStep(Run(Lift(code), u, mem, false), steps, u, r);
    }
  }

  lemma UndoneSp(u: Regs, r: Regs, s: Save)
    ensures Undone(u, r, s)[SP] == Add32(u[SP], Size(s))
  {
  }

  lemma EndsAtOnce(code: seq<Byte>, u: Regs, mem: Memory, r: Regs)
    requires (code == [] || code[0] == 0xb0) && u[SP] == Below(r[SP], 0)
    ensures Unwound(Run(Lift(code), u, mem, false), [], u, r)
  {
    BelowBelow(r[SP], 0, 0);
    if code != [] { assert Step(Lift(code), u, mem) == Finish; }
  }

  /** Unwinding inverts prologues: `now` is any later state of the function that kept the stack pointer and the
      words of the pushed registers, whatever became of locals and saved VFP registers; if LR was not pushed, it must
      still hold the return address. */
  lemma UnwindInvertsPrologue(steps: seq<Save>, entry: Cpu, now: Cpu, code: seq<Byte>)
    requires CoreSteps(steps) && Total(steps) <= 0x1_0000_0000 && Matches(code, steps)
    requires now.regs[SP] == Prologue(steps, entry).regs[SP]
    requires SamePushed(steps, entry.regs[SP], Prologue(steps, entry).mem, now.mem)
    requires !Pushed(steps, LR) ==> now.regs[LR] == entry.regs[LR]
    ensures var o := Run(Lift(code), now.regs, now.mem, false);
      && o.ok && o.regs[SP] == entry.regs[SP] && o.regs[PC] == entry.regs[LR]
      && forall j :: 0 <= j < PC && j != SP ==> o.regs[j] == if Pushed(steps, j) then entry.regs[j] else now.regs[j]
  {
    PrologueSaves(steps, entry);
    SavedInFrame(steps, entry.regs, Prologue(steps, entry).mem, now.mem);
    hide Pushed, Matches, Saved, Lift, Run, CoreSteps, Prologue, SamePushed, Total, Below;
    Unwinds(code, steps, now.regs, now.mem, entry.regs);
  }

  /** With a frame pointer the stack pointer itself may have moved: `0x9n` first takes it from register `n`. The
      source does not do so for r7 holding an address below 64 KiB. */
  lemma UnwindFromFramePointer(steps: seq<Save>, entry: Cpu, now: Cpu, code: seq<Byte>, n: Byte)
    requires CoreSteps(steps) && Total(steps) <= 0x1_0000_0000 && Matches(code, steps)
    requires n < 16 && n != SP && n != PC && now.regs[n] == Prologue(steps, entry).regs[SP]
    requires n == 7 ==> now.regs[7] >= 0x1_0000
    requires SamePushed(steps, entry.regs[SP], Prologue(steps, entry).mem, now.mem)
    requires !Pushed(steps, LR) ==> now.regs[LR] == entry.regs[LR]
    ensures var op: Byte := 0x90 + n; var o := Run(Lift([op] + code), now.regs, now.mem, false);
      && o.ok && o.regs[SP] == entry.regs[SP] && o.regs[PC] == entry.regs[LR]
      && forall j :: 0 <= j < PC && j != SP ==> o.regs[j] == if Pushed(steps, j) then entry.regs[j] else now.regs[j]
  {
    hide Run, Lift, Prologue, Matches, Pushed, CoreSteps, Total, SamePushed, Below;
    var op: Byte, u := 0x90 + n, now.regs[SP := now.regs[n]];
    UnwindInvertsPrologue(steps, entry, Cpu(u, now.mem), code);
    FrameStep(op, code, now.regs, now.mem);
  }

  lemma FrameStep(op: Byte, code: seq<Byte>, u: Regs, mem: Memory)
    requires 0x90 <= op < 0xa0 && op != 0x9d && op != 0x9f && (op == 0x97 ==> u[7] >= 0x1_0000)
    ensures Run(Lift([op] + code), u, mem, false) == Run(Lift(code), u[SP := u[op % 16]], mem, false)
  {
    assert Lift([op] + code)[0] == Some(op);
    assert Lift([op] + code)[1..] == Lift(code);
  }

  /** The stack pointer lowered by an instruction 01xxxxxx. */
  lemma LowerStep(k: nat, code: seq<Byte>, u: Regs, mem: Memory)
    requires k < 64
    ensures var op: Byte, d: int := 0x40 + k, 4 * k + 4;
      Run(Lift([op] + code), u, mem, false) == Run(Lift(code), u[SP := Add32(u[SP], -d)], mem, false)
  {
    var op: Byte := 0x40 + k;
    assert Lift([op] + code)[0] == Some(op) && Lift([op] + code)[1..] == Lift(code);
    assert -(k * 4) - 4 == -(4 * k + 4);
  }

  lemma BackDown(sp: Word, d: nat)
    ensures var x: int := d; Add32(Add32(sp, x), -x) == sp
  {
    var x: int := d;
    AddSum(sp, x, -x);
    AddZero(sp);
  }

  /** With a frame pointer that lies above the stack pointer of the prologue, an instruction 01xxxxxx lowers the stack
      pointer by the difference. */
  lemma UnwindFromFrameOffset(steps: seq<Save>, entry: Cpu, now: Cpu, code: seq<Byte>, n: Byte, k: nat)
    requires CoreSteps(steps) && Total(steps) <= 0x1_0000_0000 && Matches(code, steps)
    requires n < 16 && n != SP && n != PC && k < 64
    requires now.regs[n] == Add32(Prologue(steps, entry).regs[SP], 4 * k + 4)
    requires n == 7 ==> now.regs[7] >= 0x1_0000
    requires SamePushed(steps, entry.regs[SP], Prologue(steps, entry).mem, now.mem)
    requires !Pushed(steps, LR) ==> now.regs[LR] == entry.regs[LR]
    ensures var op: Byte, lower: Byte := 0x90 + n, 0x40 + k;
      var o := Run(Lift([op] + ([lower] + code)), now.regs, now.mem, false);
      && o.ok && o.regs[SP] == entry.regs[SP] && o.regs[PC] == entry.regs[LR]
      && forall j :: 0 <= j < PC && j != SP ==> o.regs[j] == if Pushed(steps, j) then entry.regs[j] else now.regs[j]
  {
    hide Run, Lift, Prologue, Matches, Pushed, CoreSteps, Total, SamePushed, Add32;
    var op: Byte, lower: Byte := 0x90 + n, 0x40 + k;
    var u, sp := now.regs[SP := now.regs[n]], Prologue(steps, entry).regs[SP];
    FrameStep(op, [lower] + code, now.regs, now.mem);
    LowerStep(k, code, u, now.mem);
    BackDown(sp, 4 * k + 4);
    UnwindInvertsPrologue(steps, entry, Cpu(u[SP := sp], now.mem), code);
    assert u[SP := sp] == now.regs[SP := sp];
  }

  /** `0x97` with an r7 that cannot be a stack pointer takes it from r12. */
  lemma FrameFromIp(code: seq<Byte>, u: Regs, mem: Memory)
    requires u[7] < 0x1_0000
    ensures Run(Lift([0x97] + code), u, mem, false) == Run(Lift(code), u[SP := u[12]], mem, false)
  {
    assert Lift([0x97] + code)[0] == Some(0x97) && Lift([0x97] + code)[1..] == Lift(code);
  }

  /** A popped r15 is the return address, whatever LR holds. */
  lemma PoppedPcStays(m: nat, u: Regs, mem: Memory, r: Regs)
    requires m % 16 == 0 && m < 0x1_0000 && Bit(m, PC) && !Bit(m, SP) && Holds(mem, r, m, 0, u[SP])
    ensures var o := Run(Lift([0x80 + m / 4096, m / 16 % 256]), u, mem, false); o.ok && o.regs[PC] == r[PC]
  {
    hide Bit, Holds, PopFrom, CountFrom;
    MaskBytes(m);
    NoMask();
    var b := [0x80 + m / 4096, m / 16 % 256];
    var code := Lift(b);
    assert code[0] == Some(b[0]) && Arg(code) == Some(b[1]) && code[2..] == [];
    PopRestores(u, mem, m, 0, u[SP], r);
    assert Step(code, u, mem) == Popping(u, mem, m, 2);
    RunEnds(Pop(u, mem, m).regs, mem, true);
  }

  lemma NoMask()
    ensures !Bit(0, PC)
  {
    NoBit(15);
  }

  lemma {:induction false} NoBit(i: nat)
    ensures !Bit(0, i)
  {
    if i > 0 { NoBit(i - 1); }
  }

  /** The spare opcodes of the source. */
  predicate SpareOp(op: Byte) {
    op == 0x9d || op == 0x9f || 0xb4 <= op < 0xb8 || 0xca <= op < 0xd0 || 0xd8 <= op
  }

  /** Opcodes with an operand byte. */
  predicate TwoByte(op: Byte) { 0x80 <= op < 0x90 || op in {0xb1, 0xb3, 0xc8, 0xc9} }

  /** What is refused, with all registers as they were: spare opcodes, a pop of nothing, a mask of r0 to r3 that is
      empty or has other bits, and an operand past the declared size. */
  lemma Refusals(op: Byte, arg: Byte, rest: seq<Option<Byte>>, r: Regs, mem: Memory)
    ensures SpareOp(op) ==> Step([Some(op)] + rest, r, mem) == Fail(r)
    ensures op == 0x80 && arg == 0 ==> Step([Some(op), Some(arg)] + rest, r, mem) == Fail(r)
    ensures op == 0xb1 && (arg == 0 || arg >= 16) ==> Step([Some(op), Some(arg)] + rest, r, mem) == Fail(r)
    ensures TwoByte(op) ==> Step([Some(op)], r, mem) == Fail(r)
    ensures Step([None] + rest, r, mem) == Fail(r)
  {
    hide Popping, Uleb, RangeMask;
    assert ([Some(op)] + rest)[0] == Some(op) && ([None] + rest)[0] == None;
    assert ([Some(op), Some(arg)] + rest)[0] == Some(op) && Arg([Some(op), Some(arg)] + rest) == Some(arg);
  }

  /** 0xc0 to 0xc7 skip 8 to 64 bytes, the last two although the standard gives them operands. */
  lemma CoprocessorSkips(j: nat, rest: seq<Option<Byte>>, r: Regs, mem: Memory)
    requires j < 8
    ensures Step([Some(0xc0 + j)] + rest, r, mem) == Go(r[SP := Add32(r[SP], 8 * j + 8)], 1, false)
  {
    assert ([Some(0xc0 + j)] + rest)[0] == Some(0xc0 + j);
  }

  // ----- from the words of the table -----

  /** The bytes of an entry: the personality routine, the size in words beyond the first for the long forms, and the
      instructions. */
  function EntryBytes(routine: nat, code: seq<Byte>): seq<Byte>
    requires routine <= 2 && if routine == 0 then |code| == 3 else |code| % 4 == 2 && |code| < 0x400
  {
    if routine == 0 then [0x80] + code else [0x80 + routine, |code| / 4] + code
  }

  predicate BytesAt(mem: Memory, a: Word, e: seq<Byte>) {
    forall i :: 0 <= i < |e| ==> Readable(mem, Add32(a, i)) && ByteAt(mem, Add32(a, i)) == e[i]
  }

  /** What unwinding a frame through the handler at `a` does. */
  function FrameResult(mem: Memory, a: Word, r: Regs): Result {
    var c := Cursor(a, 0);
    var w := Loaded(mem, c);
    if w.None? || ByteOf(w.value, a % 4) / 16 != 8 then Result(false, r)
    else
      var d := Declared(mem, Advanced(mem, c), ByteOf(w.value, a % 4) % 16);
      if d.None? then Result(false, r) else Run(Bytes(mem, d.value.0, d.value.1), r, mem, false)
  }

  /** A handler that begins with anything but a compact entry of routine 0, 1 or 2 is refused, with all registers as
      they were. */
  lemma FrameRefuses(mem: Memory, a: Word, r: Regs)
    requires a % 4 == 0 && a in mem && !(0x80 <= mem[a] / 0x100_0000 <= 0x82)
    ensures FrameResult(mem, a, r) == Result(false, r)
  {
  }

  lemma BytesAfter(mem: Memory, a: Word, e: seq<Byte>)
    requires e != [] && BytesAt(mem, a, e)
    ensures Readable(mem, a) && ByteAt(mem, a) == e[0] && BytesAt(mem, Add32(a, 1), e[1..])
  {
    hide ByteAt, Readable, Add32;
    AddAdd(a, 0);
    assert Readable(mem, Add32(a, 0)) && ByteAt(mem, Add32(a, 0)) == e[0];
    forall i | 0 <= i < |e[1..]|
      ensures Readable(mem, Add32(Add32(a, 1), i)) && ByteAt(mem, Add32(Add32(a, 1), i)) == e[1..][i]
    {
      AddAdd(a, i);
      assert Readable(mem, Add32(a, i + 1)) && ByteAt(mem, Add32(a, i + 1)) == e[i + 1];
    }
  }

  lemma NextByte(mem: Memory, c: Cursor)
    requires Primed(mem, c) && Readable(mem, c.ptr)
    ensures Loaded(mem, c).Some? && ByteOf(Loaded(mem, c).value, c.ptr % 4) == ByteAt(mem, c.ptr)
    ensures Primed(mem, Advanced(mem, c)) && Advanced(mem, c).ptr == Add32(c.ptr, 1)
  {
    AdvancedPrimed(mem, c);
  }

  lemma CodeBytes(mem: Memory, c: Cursor, code: seq<Byte>)
    requires Primed(mem, c) && BytesAt(mem, c.ptr, code)
    ensures Bytes(mem, c, |code|) == Lift(code)
  {
    forall i | 0 <= i < |code|
      ensures Bytes(mem, c, |code|)[i] == Lift(code)[i]
    {
      BytesAreBigEndian(mem, c, |code|, i);
    }
  }

  /** The interpreter runs exactly the instruction bytes of the entry. */
  lemma FrameRunsCode(mem: Memory, a: Word, routine: nat, code: seq<Byte>, r: Regs)
    requires a % 4 == 0 && routine <= 2 && (if routine == 0 then |code| == 3 else |code| % 4 == 2 && |code| < 0x400)
    requires BytesAt(mem, a, EntryBytes(routine, code))
    ensures FrameResult(mem, a, r) == Run(Lift(code), r, mem, false)
  {
    hide Bytes, Run, BytesAt, Loaded, Advanced, ByteOf, ByteAt, Readable, Lift, Add32, Primed;
    var e, c := EntryBytes(routine, code), Cursor(a, 0);
    BytesAfter(mem, a, e);
    AlignedPrimed(mem, c);
    NextByte(mem, c);
    var c1 := Advanced(mem, c);
    if routine == 0 {
      assert e[1..] == code;
      CodeBytes(mem, c1, code);
    } else {
      BytesAfter(mem, Add32(a, 1), e[1..]);
      NextByte(mem, c1);
      assert e[1..][1..] == code;
      CodeBytes(mem, Advanced(mem, c1), code);
      assert |code| / 4 * 4 + 2 == |code|;
    }
  }

  lemma AlignedPrimed(mem: Memory, c: Cursor)
    requires c.ptr % 4 == 0
    ensures Primed(mem, c)
  {
  }

  /** End to end: when the words at the handler hold a matching entry, unwinding the frame restores the entry stack
      pointer, every pushed register and the return address. */
  lemma TableUndoesPrologue(a: Word, routine: nat, steps: seq<Save>, entry: Cpu, now: Cpu, code: seq<Byte>)
    requires a % 4 == 0 && routine <= 2 && (if routine == 0 then |code| == 3 else |code| % 4 == 2 && |code| < 0x400)
    requires BytesAt(now.mem, a, EntryBytes(routine, code))
    requires CoreSteps(steps) && Total(steps) <= 0x1_0000_0000 && Matches(code, steps)
    requires now.regs[SP] == Prologue(steps, entry).regs[SP]
    requires SamePushed(steps, entry.regs[SP], Prologue(steps, entry).mem, now.mem)
    requires !Pushed(steps, LR) ==> now.regs[LR] == entry.regs[LR]
    ensures var o := FrameResult(now.mem, a, now.regs);
      && o.ok && o.regs[SP] == entry.regs[SP] && o.regs[PC] == entry.regs[LR]
      && forall j :: 0 <= j < PC && j != SP ==> o.regs[j] == if Pushed(steps, j) then entry.regs[j] else now.regs[j]
  {
    hide Run, Lift, Prologue, Matches, Pushed, CoreSteps, Total, SamePushed, Below, BytesAt, EntryBytes, FrameResult;
    UnwindInvertsPrologue(steps, entry, now, code);
    FrameRunsCode(now.mem, a, routine, code, now.regs);
  }

  // ----- which steps have an instruction -----

  predicate Encodable(s: Save) {
    match s
    case Push(m) => 0 < m < 16 || (m % 16 == 0 && 0 < m < 0x1_0000)
    case Drop(k) => k % 4 == 0 && (4 <= k <= 0x100 || 0x204 <= k < 0x1_0000_0204)
    case PushVfp(k) => (k % 8 == 4 && 12 <= k <= 132) || (k % 8 == 0 && 8 <= k <= 128)
  }

  function UlebOf(v: nat): seq<Byte> {
    if v < 128 then [v] else [128 + v % 128] + UlebOf(v / 128)
  }

  lemma {:induction false} UlebOfIs(v: nat)
    ensures IsUleb(UlebOf(v), v)
  {
    if v >= 128 {
      UlebOfIs(v / 128);
      assert UlebOf(v)[1..] == UlebOf(v / 128);
    }
  }

  function InstructionFor(s: Save): seq<Byte>
    requires Encodable(s)
  {
    match s
    case Push(m) => if m < 16 then [0xb1, m] else [0x80 + m / 4096, m / 16 % 256]
    case Drop(k) => if k <= 0x100 then [k / 4 - 1] else [0xb2] + UlebOf((k - 0x204) / 4)
    case PushVfp(k) => if k % 8 == 4 then [0xb3, (k - 12) / 8] else [0xc9, (k - 8) / 8]
  }

  function Ones(k: nat): nat { if k == 0 then 0 else 2 * Ones(k - 1) + 1 }

  lemma {:induction false} BitOnes(k: nat, j: nat)
    ensures Bit(Ones(k), j) <==> j < k
  {
    if k > 0 && j > 0 { BitOnes(k - 1, j - 1); }
    if k == 0 && j > 0 { BitOnes(0, j - 1); }
  }

  lemma RangeMasks(n: nat)
    requires n < 8
    ensures RangeMask(n) == 16 * Ones(n + 1) && 0 < RangeMask(n) < 0x1000
  {
    assert Shr(0xff0, 1) == 0x7f8 && Shr(0x7f8, 1) == 0x3fc && Shr(0x3fc, 1) == 0x1fe && Shr(0x1fe, 1) == 0xff;
    assert Shr(0xff, 1) == 0x7f && Shr(0x7f, 1) == 0x3f && Shr(0x3f, 1) == 0x1f;
    assert Shr(0xff0, 0) == 0xff0;
    assert Shr(0xff0, 2) == Shr(0x7f8, 1);
    assert Shr(0xff0, 3) == Shr(0x7f8, 2) == Shr(0x3fc, 1);
    assert Shr(0xff0, 4) == Shr(0x7f8, 3) == Shr(0x3fc, 2) == Shr(0x1fe, 1);
    assert Shr(0xff0, 5) == Shr(0x7f8, 4) == Shr(0x3fc, 3) == Shr(0x1fe, 2) == Shr(0xff, 1);
    assert Shr(0xff0, 6) == Shr(0x7f8, 5) == Shr(0x3fc, 4) == Shr(0x1fe, 3) == Shr(0xff, 2) == Shr(0x7f, 1);
    assert Shr(0xff0, 7) == Shr(0x7f8, 6) == Shr(0x3fc, 5) == Shr(0x1fe, 4) == Shr(0xff, 3) == Shr(0x7f, 2)
        == Shr(0x3f, 1);
    OnesValues();
  }

  lemma OnesValues()
    ensures Ones(1) == 1 && Ones(2) == 3 && Ones(3) == 7 && Ones(4) == 15
    ensures Ones(5) == 31 && Ones(6) == 63 && Ones(7) == 127 && Ones(8) == 255
  {
    assert Ones(1) == 1;
    assert Ones(3) == 7;
    assert Ones(5) == 31;
    assert Ones(7) == 127;
  }

  lemma ShiftedBits(m: nat, j: nat)
    ensures Bit(16 * m, j) <==> j >= 4 && Bit(m, j - 4)
  {
    assert 16 * m / 2 == 8 * m && 8 * m / 2 == 4 * m && 4 * m / 2 == 2 * m && 2 * m / 2 == m;
    if j > 0 {
      assert Bit(16 * m, j) == Bit(8 * m, j - 1);
      if j > 1 {
        assert Bit(8 * m, j - 1) == Bit(4 * m, j - 2);
        if j > 2 {
          assert Bit(4 * m, j - 2) == Bit(2 * m, j - 3);
        }
      }
    }
  }

  /** The short pops restore exactly r4 to r[4+n]. */
  lemma RangeMaskBits(n: nat, j: nat)
    requires n < 8
    ensures Bit(RangeMask(n), j) <==> 4 <= j <= 4 + n
  {
    hide Bit, RangeMask, Ones;
    RangeMasks(n);
    ShiftedBits(Ones(n + 1), j);
    if j >= 4 { BitOnes(n + 1, j - 4); }
  }

  lemma MaskBytes(m: nat)
    requires m % 16 == 0 && m < 0x1_0000
    ensures var op := 0x80 + m / 4096; 0x80 <= op < 0x90 && m == op % 16 * 4096 + m / 16 % 256 * 16
  {
  }

  lemma CanUndo(s: Save)
    requires Encodable(s)
    ensures Undoes(InstructionFor(s), s)
  {
    hide RangeMask, IsUleb;
    match s
    case Push(m) => if m >= 16 { MaskBytes(m); }
    case Drop(k) => if k > 0x100 { CanDrop(k); }
    case PushVfp(k) => CanRestoreVfp(k);
  }

  lemma CanDrop(k: nat)
    requires k % 4 == 0 && 0x204 <= k < 0x1_0000_0204
    ensures Undoes([0xb2] + UlebOf((k - 0x204) / 4), Drop(k))
  {
    hide RangeMask, IsUleb;
    var v := (k - 0x204) / 4;
    UlebOfIs(v);
    var b := [0xb2] + UlebOf(v);
    assert b[0] == 0xb2 && b[1..] == UlebOf(v) && k == v * 4 + 0x204;
  }

  lemma CanRestoreVfp(k: nat)
    requires Encodable(PushVfp(k))
    ensures Undoes(InstructionFor(PushVfp(k)), PushVfp(k))
  {
    hide RangeMask, IsUleb, Undoes;
    var low := if k % 8 == 4 then 12 else 8;
    var j := (k - low) / 8;
    Eights(k, low);
    VfpForms(j);
    if low == 12 { assert InstructionFor(PushVfp(k)) == [0xb3, j]; }
  }

  lemma Eights(k: nat, low: nat)
    requires low == 12 || low == 8
    requires k % 8 == low % 8 && low <= k < low + 128
    ensures k == 8 * ((k - low) / 8) + low && (k - low) / 8 < 16
  {
  }

  lemma VfpForms(j: nat)
    requires j < 16
    ensures Undoes([0xb3, j], PushVfp(8 * j + 12)) && Undoes([0xc9, j], PushVfp(8 * j + 8))
  {
    hide RangeMask, IsUleb;
    var a, b: seq<Byte> := [0xb3, j], [0xc9, j];
    assert a[0] == 0xb3 && a[1] == j && b[0] == 0xc9 && b[1] == j && j % 16 == j;
  }

  lemma OnlyEncodable(b: seq<Byte>, s: Save)
    requires Undoes(b, s)
    ensures Encodable(s)
  {
    match s
    case Push(m) => OnlyPushes(b, m);
    case Drop(k) => OnlyDrops(b, k);
    case PushVfp(k) => OnlyVfp(b, k);
  }

  lemma OnlyPushes(b: seq<Byte>, m: nat)
    requires Undoes(b, Push(m))
    ensures Encodable(Push(m))
  {
    hide RangeMask, IsUleb, Ones;
    var n := b[0] % 8;
    RangeMasks(n);
    Sixteens(Ones(n + 1));
    var op, arg: int := b[0], if |b| > 1 then b[1] else 0;
    Sixteens(op % 16 * 256 + arg);
  }

  lemma Sixteens(x: nat)
    ensures 16 * x % 16 == 0 && (16 * x + 0x4000) % 16 == 0
  {
  }

  lemma OnlyDrops(b: seq<Byte>, k: nat)
    requires Undoes(b, Drop(k))
    ensures Encodable(Drop(k))
  {
    hide RangeMask, IsUleb;
    if b[0] == 0xb2 {
      var v: nat :| IsUleb(b[1..], v) && v < 0x4000_0000 && k == v * 4 + 0x204;
    }
  }

  lemma OnlyVfp(b: seq<Byte>, k: nat)
    requires Undoes(b, PushVfp(k))
    ensures Encodable(PushVfp(k))
  {
    hide RangeMask, IsUleb;
    var op, arg: int := b[0], if |b| > 1 then b[1] else 0;
    VfpSize(arg % 16);
    VfpSize(op % 8);
  }

  lemma VfpSize(j: nat)
    ensures (j * 8 + 12) % 8 == 4 && (j * 8 + 8) % 8 == 0
  {
  }

  /** Exactly the encodable steps can be undone by an instruction. */
  lemma EncodableIff(s: Save)
    ensures Encodable(s) <==> exists b :: Undoes(b, s)
  {
    hide Undoes, Encodable;
    if Encodable(s) { CanUndo(s); }
    if b :| Undoes(b, s) { OnlyEncodable(b, s); }
  }

  /** Every prologue of encodable steps has a matching stream. */
  lemma {:induction false} Encodes(steps: seq<Save>) returns (code: seq<Byte>)
    requires forall k :: 0 <= k < |steps| ==> Encodable(steps[k])
    ensures Matches(code, steps)
  {
    code := [];
    if steps != [] {
      var n := |steps| - 1;
      var rest := Encodes(steps[..n]);
      EncodableIff(steps[n]);
      var b :| Undoes(b, steps[n]);
      code := b + rest;
      assert code[..|b|] == b && code[|b|..] == rest;
    }
  }

  // ----- the machine -----

  /** `byte_stream_t`. */
  class ByteStream {
    var ptr: Word
    var word: Word

    constructor (start: Word)
      ensures Now() == Cursor(start, 0)
    {
      ptr, word := start, 0;
    }

    ghost function Now(): Cursor
      reads this
    {
      Cursor(ptr, word)
    }

    /** `try_next_byte`. */
    method TryNextByte(mem: Memory) returns (ok: bool, value: Byte)
      modifies this
      ensures ok == Loaded(mem, old(Now())).Some?
      ensures Now() == if ok then Advanced(mem, old(Now())) else old(Now())
      ensures value == if ok then ByteOf(Loaded(mem, old(Now())).value, old(ptr) % 4) else 0
    {
      var at := ptr % 4;
      if at == 0 {
        if ptr !in mem { return false, 0; }
        word := mem[ptr];
        value := word / 0x100_0000;
      } else if at == 1 {
        value := word / 0x1_0000 % 256;
      } else if at == 2 {
        value := word / 256 % 256;
      } else {
        value := word % 256;
      }
      ptr := Add32(ptr, 1);
      ok := true;
    }

    /** `!(size--) || !try_next_byte(...)`: one more byte of the declared size. */
    method Operand(mem: Memory, size: nat) returns (ok: bool, value: Byte, size': nat)
      modifies this
      ensures var rest := Bytes(mem, old(Now()), size);
        ok == (rest != [] && rest[0].Some?)
        && (ok ==> size' == size - 1 && value == rest[0].value && Bytes(mem, Now(), size') == rest[1..])
    {
      value, size' := 0, 0;
      if size == 0 { return false, 0, 0; }
      size' := size - 1;
      ok, value := TryNextByte(mem);
    }

    /** The do-while loop of 0xb2. */
    method UlebOperand(mem: Memory, size: nat) returns (ok: bool, value: Word, size': nat)
      modifies this
      ensures var rest := Bytes(mem, old(Now()), size); var u := Uleb(rest, 0, 0);
        ok == u.Some?
        && (ok ==>
              value == u.value.0 && u.value.1 <= |rest| && size' == size - u.value.1
              && Bytes(mem, Now(), size') == rest[u.value.1..])
    {
      hide Bytes, Add32, Shl, Loaded, Advanced;
      ghost var rest := Bytes(mem, Now(), size);
      value, size' := 0, size;
      var shift, more := 0, true;
      UlebFits(rest, 0, 0);
      while more
        invariant size' <= size && Bytes(mem, Now(), size') == rest[size - size'..]
        invariant more ==> Uleb(rest, 0, 0) == LaterUleb(Uleb(rest[size - size'..], value, shift), size - size')
        invariant !more ==> Uleb(rest, 0, 0) == Some((value, size - size'))
        decreases size', more
      {
        ghost var r := rest[size - size'..];
        ghost var done := size - size';
        var op2;
        ok, op2, size' := Operand(mem, size');
        if !ok { return; }
        ghost var u := Uleb(r, value, shift);
        value := Add32(value, Shl(op2 % 128, shift));
        shift := shift + 7;
        more := op2 >= 128;
        assert r[1..] == rest[done + 1..];
      }
      ok := true;
    }
  }

  ghost function LaterUleb(u: Option<(Word, nat)>, used: nat): Option<(Word, nat)> {
    if u.None? then None else Some((u.value.0, used + u.value.1))
  }

  datatype Status = Failed | Finished | Next

  /** `unwind_state_t`. */
  class UnwindState {
    const gregs: array<Word>

    constructor (r: Regs)
      ensures Valid() && fresh(gregs) && Now() == r
    {
      gregs := new Word[16](i requires 0 <= i < 16 => r[i]);
    }

    ghost predicate Valid() { gregs.Length == 16 }

    ghost function Now(): Regs
      requires Valid()
      reads gregs
    {
      gregs[..]
    }

    /** `set_reg`. */
    method SetReg(reg: nat, value: Word)
      requires Valid() && reg < 16
      modifies gregs
      ensures Now() == old(Now())[reg := value]
    {
      gregs[reg] := value;
    }

    /** `try_pop_registers`. */
    method TryPopRegisters(mem: Memory, mask: nat) returns (ok: bool)
      requires Valid()
      modifies gregs
      ensures Result(ok, Now()) == Pop(old(Now()), mem, mask)
    {
      hide Bit;
      var sp, spUpdated := gregs[SP], false;
      var i := 0;
      while i < 16
        invariant 0 <= i <= 16
        invariant PopFrom(Now(), mem, mask, i, sp, spUpdated) == Pop(old(Now()), mem, mask)
      {
        if Bit(mask, i) {
          if sp !in mem { return false; }
          var value := mem[sp];
          if i == SP { spUpdated := true; }
          SetReg(i, value);
          sp := Add32(sp, 4);
        }
        i := i + 1;
      }
      if !spUpdated {
        SetReg(SP, sp);
      }
      ok := true;
    }

    /** A pop instruction whose mask is `mask`. */
    method PopOp(mem: Memory, mask: nat, ghost used: nat) returns (status: Status, pcSet: bool)
      requires Valid()
      modifies gregs
      ensures status.Failed? ==> Popping(old(Now()), mem, mask, used) == Fail(Now())
      ensures !status.Failed? ==> status.Next? && Popping(old(Now()), mem, mask, used) == Go(Now(), used, pcSet)
    {
      var ok := TryPopRegisters(mem, mask);
      status := if ok then Next else Failed;
      pcSet := Bit(mask, PC);
    }

    method Move(delta: int)
      requires Valid()
      modifies gregs
      ensures Now() == MoveSp(old(Now()), delta)
    {
      SetReg(SP, Add32(gregs[SP], delta));
    }

    /** The instructions with a two-byte form. */
    method Interpret2(mem: Memory, stream: ByteStream, byte: Byte, size: nat)
        returns (status: Status, size': nat, pcSet: bool)
      requires Valid() && (0x80 <= byte < 0x90 || byte == 0xb1 || byte == 0xb3 || byte == 0xc8 || byte == 0xc9)
      modifies gregs, stream
      ensures Did(mem, [Some(byte)] + Bytes(mem, old(stream.Now()), size), old(Now()), Now(), stream.Now(), status,
        size', pcSet)
    {
      hide Popping, Bytes, RangeMask;
      var op: int := byte;
      ghost var rest := Bytes(mem, stream.Now(), size);
      ghost var code := [Some(byte)] + rest;
      assert code[1..] == rest;
      var ok, op2;
      ok, op2, size' := stream.Operand(mem, size);
      status, pcSet := Failed, false;
      var arg: int := op2;
      if !ok { return; }
      assert Arg(code) == Some(op2) && code[2..] == rest[1..];
      if op < 0x90 {
        var mask := op % 16 * 4096 + arg * 16;
        if mask == 0 { return; }
        status, pcSet := PopOp(mem, mask, 2);
      } else if op == 0xb1 {
        if arg == 0 || arg >= 16 { return; }
        status, pcSet := PopOp(mem, arg, 2);
      } else if op == 0xb3 {
        Move(arg % 16 * 8 + 12);
        status := Next;
      } else {
        Move(arg % 16 * 8 + 8);
        status := Next;
      }
    }

    /** The instructions of a single byte. */
    method Interpret1(mem: Memory, stream: ByteStream, byte: Byte, size: nat) returns (status: Status, pcSet: bool)
      requires Valid() && !(0x80 <= byte < 0x90) && byte != 0xb1 && byte != 0xb2 && byte != 0xb3 && byte != 0xc8
        && byte != 0xc9
      modifies gregs
      ensures Did(mem, [Some(byte)] + Bytes(mem, stream.Now(), size), old(Now()), Now(), stream.Now(), status, size,
        pcSet)
    {
      hide Popping, Bytes, RangeMask;
      var op: int := byte;
      ghost var rest := Bytes(mem, stream.Now(), size);
      ghost var code := [Some(byte)] + rest;
      assert code[1..] == rest;
      status, pcSet := Next, false;
      if op < 0x40 {
        Move(op * 4 + 4);
      } else if op < 0x80 {
        Move(-(op % 64 * 4) - 4);
      } else if op < 0xa0 {
        if op == 0x9d || op == 0x9f {
          status := Failed;
        } else if op == 0x97 && gregs[7] < 0x1_0000 {
          SetReg(SP, gregs[12]);
        } else {
          SetReg(SP, gregs[op % 16]);
        }
      } else if op < 0xa8 {
        status, pcSet := PopOp(mem, RangeMask(op % 8), 1);
      } else if op < 0xb0 {
        status, pcSet := PopOp(mem, RangeMask(op % 8) + 0x4000, 1);
      } else if op == 0xb0 {
        status := Finished;
      } else if 0xb8 <= op < 0xc0 {
        Move(op % 8 * 8 + 12);
      } else if 0xc0 <= op < 0xc8 {
        Move(op % 8 * 8 + 8);
      } else if 0xd0 <= op < 0xd8 {
        Move(op % 8 * 8 + 8);
      } else {
        status := Failed;
      }
    }

    /** The body of the loop, after the opcode was read; `size` bytes of the declared size are left. */
    method Interpret(mem: Memory, stream: ByteStream, byte: Byte, size: nat)
        returns (status: Status, size': nat, pcSet: bool)
      requires Valid()
      modifies gregs, stream
      ensures Did(mem, [Some(byte)] + Bytes(mem, old(stream.Now()), size), old(Now()), Now(), stream.Now(), status,
        size', pcSet)
    {
      hide Bytes;
      var op: int := byte;
      if 0x80 <= op < 0x90 || op == 0xb1 || op == 0xb3 || op == 0xc8 || op == 0xc9 {
        hide Did;
        status, size', pcSet := Interpret2(mem, stream, byte, size);
      } else if op == 0xb2 {
        ghost var rest := Bytes(mem, stream.Now(), size);
        ghost var code := [Some(byte)] + rest;
        assert code[1..] == rest;
        var ok, value;
        ok, value, size' := stream.UlebOperand(mem, size);
        status, pcSet := Failed, false;
        if !ok { return; }
        var v: int := value;
        Move(v * 4 + 0x204);
        status := Next;
        assert code[1 + size - size'..] == rest[size - size'..];
      } else {
        hide Did;
        size' := size;
        status, pcSet := Interpret1(mem, stream, byte, size);
      }
    }

    /** One turn of the loop: an opcode and its operands. */
    method Turn(mem: Memory, stream: ByteStream, size: nat) returns (status: Status, size': nat, pcSet: bool)
      requires Valid() && size > 0
      modifies gregs, stream
      ensures Did(mem, Bytes(mem, old(stream.Now()), size), old(Now()), Now(), stream.Now(), status, size', pcSet)
      ensures status.Next? ==> size' < size
    {
      hide Bytes;
      BytesStep(mem, stream.Now(), size - 1);
      var got, op := stream.TryNextByte(mem);
      status, size', pcSet := Failed, size - 1, false;
      if got {
        status, size', pcSet := Interpret(mem, stream, op, size - 1);
      }
    }

    /** `execute_personality_routine`. The stream never gives out more bytes than the declared size. */
    method ExecutePersonalityRoutine(mem: Memory, stream: ByteStream, prIndex: int) returns (ok: bool)
      requires Valid()
      modifies gregs, stream
      ensures var d := Declared(mem, old(stream.Now()), prIndex);
        if d.None? then !ok && Now() == old(Now())
        else Result(ok, Now()) == Run(Bytes(mem, d.value.0, d.value.1), old(Now()), mem, false)
    {
      hide Bytes, Run, Loaded, Advanced, ByteOf, Did;
      var size: nat := 3;
      if prIndex == 1 || prIndex == 2 {
        var got, sizeByte := stream.TryNextByte(mem);
        if !got { return false; }
        var words: int := sizeByte;
        size := words * 4 + 2;
      } else if prIndex != 0 {
        return false;
      }
      var pcWasSet := false;
      ghost var goal := Run(Bytes(mem, stream.Now(), size), Now(), mem, false);
      while size > 0
        invariant Run(Bytes(mem, stream.Now(), size), Now(), mem, pcWasSet) == goal
        decreases size
      {
        RunTurn(Bytes(mem, stream.Now(), size), Now(), mem, pcWasSet);
        var status, pcSet;
        status, size, pcSet := Turn(mem, stream, size);
        if status.Failed? { return false; }
        if status.Finished? { break; }
        pcWasSet := pcWasSet || pcSet;
      }
      RunEnds(Now(), mem, pcWasSet);
      assert size == 0 ==> Bytes(mem, stream.Now(), size) == [];
      if !pcWasSet {
        SetReg(PC, gregs[LR]);
      }
      ok := true;
    }

    /** One frame of the backtrace loop: the first byte of the handler names the personality routine. */
    method UnwindFrame(mem: Memory, handler: Word) returns (ok: bool)
      requires Valid()
      modifies gregs
      ensures Result(ok, Now()) == FrameResult(mem, handler, old(Now()))
    {
      hide Bytes, Run, Loaded, Advanced, ByteOf, Declared;
      var stream := new ByteStream(handler);
      var got, pr := stream.TryNextByte(mem);
      if !got || pr / 16 != 8 { return false; }
      ok := ExecutePersonalityRoutine(mem, stream, pr % 16);
    }
  }

  lemma RunUnfolds(code: seq<Option<Byte>>, r: Regs, mem: Memory, pcSet: bool)
    requires code != []
    ensures match Step(code, r, mem)
      case Fail(r') => Run(code, r, mem, pcSet) == Result(false, r')
      case Finish => Run(code, r, mem, pcSet) == Result(true, Returned(r, pcSet))
      case Go(r', used, set') => Run(code, r, mem, pcSet) == Run(code[used..], r', mem, pcSet || set')
  {
  }

  /** `Run` continues as `Did` says. */
  lemma RunTurn(code: seq<Option<Byte>>, r: Regs, mem: Memory, was: bool)
    requires code != []
    ensures forall now, c, size, pcSet :: Did(mem, code, r, now, c, Failed, size, pcSet) ==>
      Run(code, r, mem, was) == Result(false, now)
    ensures forall now, c, size, pcSet :: Did(mem, code, r, now, c, Finished, size, pcSet) ==>
      now == r && Run(code, r, mem, was) == Result(true, Returned(now, was))
    ensures forall now, c, size, pcSet :: Did(mem, code, r, now, c, Next, size, pcSet) ==>
      Run(code, r, mem, was) == Run(Bytes(mem, c, size), now, mem, was || pcSet)
  {
    RunUnfolds(code, r, mem, was);
    hide Step, Run, Bytes;
  }

  lemma RunEnds(r: Regs, mem: Memory, pcSet: bool)
    ensures Run([], r, mem, pcSet) == Result(true, Returned(r, pcSet))
  {
  }

  lemma BytesStep(mem: Memory, c: Cursor, n: nat)
    ensures var w := Loaded(mem, c);
      Bytes(mem, c, n + 1) == [if w.None? then None
          else Some(ByteOf(w.value, c.ptr % 4))] + Bytes(mem, Advanced(mem, c), n)
  {
  }

  /** The effect of one instruction, as `Step` describes it for the bytes that are left. */
  ghost predicate Did(mem: Memory, code: seq<Option<Byte>>, r: Regs, now: Regs, c: Cursor, status: Status, size: nat,
      pcSet: bool)
    requires code != []
  {
    var o := Step(code, r, mem);
    match status
    case Failed => o == Fail(now)
    case Finished => o == Finish && now == r
    case Next => size < |code| && o == Go(now, |code| - size, pcSet) && Bytes(mem, c, size) == code[|code| - size..]
  }

  /** Where the instructions start and how many bytes they take. */
  function Declared(mem: Memory, c: Cursor, prIndex: int): Option<(Cursor, nat)> {
    if prIndex == 0 then Some((c, 3))
    else if prIndex != 1 && prIndex != 2 then None
    else if Loaded(mem, c).None? then None
    else
      var w := Loaded(mem, c).value;
      var words: int := ByteOf(w, c.ptr % 4);
      Some((Advanced(mem, c), words * 4 + 2))
  }
}

/** The search of the exception index table and its place-relative offsets. */
module Exidx {
  import opened Words
  import opened Unwinder

  /** The marker of a function that cannot be unwound. */
  const CANT_UNWIND := 1

  /** The arithmetic shift right by one of a 32-bit register. */
  function AsrOne(v: Word): int { Signed(v, 0x8000_0000) / 2 }

  /** `prel_to_absolute`: the top bit of the offset is shifted out, the next one is its sign. */
  function PrelToAbsolute(place: Word, prel: Word): Word {
    Add32(place, AsrOne(prel * 2 % 0x1_0000_0000))
  }

  /** The 31-bit offset from `place` to `target`. */
  function PrelOf(place: Word, target: Word): Word { (target - place) % 0x8000_0000 }

  /** Decoding inverts encoding exactly for targets within 1 GiB of the place, modulo 2^32. */
  lemma PrelRoundTrip(place: Word, target: Word)
    ensures PrelToAbsolute(place, PrelOf(place, target)) == target <==>
      -0x4000_0000 <= Signed((target - place) % 0x1_0000_0000, 0x8000_0000) < 0x4000_0000
    ensures (PrelToAbsolute(place, PrelOf(place, target)) - target) % 0x8000_0000 == 0
  {
    var d := (target - place) % 0x1_0000_0000;
    Residue(place, target);
    var p := PrelOf(place, target);
    assert p == d % 0x8000_0000;
    PrelIs(place, p);
    SignedSum(place, target, d, p);
  }

  lemma Residue(place: Word, target: Word)
    ensures (target - place) % 0x1_0000_0000 % 0x8000_0000 == (target - place) % 0x8000_0000
  {
  }

  lemma PrelIs(place: Word, p: Word)
    requires p < 0x8000_0000
    ensures PrelToAbsolute(place, p) == Add32(place, Signed(p, 0x4000_0000))
  {
    assert p * 2 % 0x1_0000_0000 == p * 2;
    assert AsrOne(p * 2) == Signed(p, 0x4000_0000);
  }

  lemma SignedSum(place: Word, target: Word, d: Word, p: Word)
    requires d == (target - place) % 0x1_0000_0000 && p == d % 0x8000_0000
    ensures Add32(place, Signed(p, 0x4000_0000)) == target <==> -0x4000_0000 <= Signed(d, 0x8000_0000) < 0x4000_0000
    ensures (Add32(place, Signed(p, 0x4000_0000)) - target) % 0x8000_0000 == 0
  {
    assert d == if target >= place then target - place else target - place + 0x1_0000_0000;
  }

  // ----- the table -----

  function EntryAt(start: Word, i: nat): Word { Add32(start, i * 8) }

  /** The decoded start address of entry `i`; only meaningful if its word can be read. */
  function PcAt(mem: Memory, start: Word, i: nat): Option<Word> {
    var e := EntryAt(start, i);
    if e in mem then Some(PrelToAbsolute(e, mem[e])) else None
  }

  /** What the second word of an entry says: handler data in place, none, or the address of the data. */
  function HandlerAt(mem: Memory, start: Word, i: nat): Option<Word> {
    var p := Add32(EntryAt(start, i), 4);
    if p !in mem then None
    else if mem[p] >= 0x8000_0000 then Some(p)
    else if mem[p] == CANT_UNWIND then Some(0)
    else Some(PrelToAbsolute(p, mem[p]))
  }

  /** The binary search; an unreadable word gives no handler. */
  function Search(mem: Memory, start: Word, count: nat, pc: Word, low: nat, high: nat): Word
    requires low <= high <= count
    decreases high - low
  {
    if low == high then 0
    else
      var index := (low + high) / 2;
      if PcAt(mem, start, index).None? then 0
      else if pc < PcAt(mem, start, index).value then Search(mem, start, count, pc, low, index)
      else if index + 1 < count && PcAt(mem, start, index + 1).None? then 0
      else if index + 1 < count && pc >= PcAt(mem, start, index + 1).value
          then Search(mem, start, count, pc, index + 1, high)
      else
        var h := HandlerAt(mem, start, index);
        if h.None? then 0 else h.value
  }

  lemma Middle(low: nat, high: nat)
    requires low < high <= 0x2000_0000
    ensures (low + high) % 0x1_0000_0000 / 2 == (low + high) / 2 && low <= (low + high) / 2 < high
  {
  }

  lemma NextEntry(start: Word, i: nat)
    ensures Add32(EntryAt(start, i), 8) == EntryAt(start, i + 1)
  {
  }

  /** The loop of `get_exception_handler`. A table of 8-byte entries fits the address space. */
  method GetExceptionHandler(mem: Memory, start: Word, count: nat, pc: Word) returns (handler: Word)
    requires count <= 0x2000_0000
    ensures handler == if pc == 0 || start == 0 then 0 else Search(mem, start, count, pc, 0, count)
  {
    hide PrelToAbsolute, Add32;
    handler := 0;
    if pc == 0 { return; }
    if start != 0 {
      var low, high := 0, count;
      while low < high
        invariant 0 <= low <= high <= count && handler == 0
        invariant Search(mem, start, count, pc, low, high) == Search(mem, start, count, pc, 0, count)
      {
        Middle(low, high);
        var index := (low + high) % 0x1_0000_0000 / 2;
        NextEntry(start, index);
        var entry := Add32(start, index * 8);
        if entry !in mem { break; }
        var entryPc := PrelToAbsolute(entry, mem[entry]);
        if pc < entryPc {
          high := index;
          continue;
        }
        if index + 1 < count {
          var nextEntry := Add32(entry, 8);
          if nextEntry !in mem { break; }
          var nextPc := PrelToAbsolute(nextEntry, mem[nextEntry]);
          if pc >= nextPc {
            low := index + 1;
            continue;
          }
        }
        var handlerPtr := Add32(entry, 4);
        if handlerPtr !in mem { break; }
        var word := mem[handlerPtr];
        if word >= 0x8000_0000 {
          handler := handlerPtr;
        } else if word != CANT_UNWIND {
          handler := PrelToAbsolute(handlerPtr, word);
        }
        break;
      }
    }
  }

  predicate ReadableTable(mem: Memory, start: Word, count: nat) {
    forall i :: 0 <= i < count ==> PcAt(mem, start, i).Some? && HandlerAt(mem, start, i).Some?
  }

  predicate SortedTable(mem: Memory, start: Word, count: nat) {
    ReadableTable(mem, start, count)
    && forall i, j :: 0 <= i < j < count ==> PcAt(mem, start, i).value < PcAt(mem, start, j).value
  }

  /** Entry `i` covers `pc`: it starts at or before it, and the next one, if any, after it. */
  predicate Covers(mem: Memory, start: Word, count: nat, i: nat, pc: Word)
    requires i < count && ReadableTable(mem, start, count)
  {
    var next := i + 1;
    PcAt(mem, start, i).value <= pc && (next < count ==> pc < PcAt(mem, start, next).value)
  }

  lemma {:induction false} SearchFinds(mem: Memory, start: Word, count: nat, pc: Word, low: nat, high: nat, i: nat)
    requires low <= high <= count && SortedTable(mem, start, count)
    requires low <= i < high && Covers(mem, start, count, i, pc)
    ensures Search(mem, start, count, pc, low, high) == HandlerAt(mem, start, i).value
    decreases high - low
  {
    hide PcAt, HandlerAt;
    var index := (low + high) / 2;
    var next := index + 1;
    assert PcAt(mem, start, index).Some? && HandlerAt(mem, start, index).Some?;
    if index < i {
      assert PcAt(mem, start, next).value <= pc by {
        if next < i { assert PcAt(mem, start, next).value < PcAt(mem, start, i).value; }
      }
      assert PcAt(mem, start, index).value < PcAt(mem, start, next).value;
      SearchFinds(mem, start, count, pc, next, high, i);
    } else if index > i {
      var after := i + 1;
      assert pc < PcAt(mem, start, index).value by {
        if after < index { assert PcAt(mem, start, after).value < PcAt(mem, start, index).value; }
      }
      SearchFinds(mem, start, count, pc, low, index, i);
    }
  }

  lemma {:induction false} SearchMisses(mem: Memory, start: Word, count: nat, pc: Word, high: nat)
    requires high <= count && SortedTable(mem, start, count)
    requires forall i :: 0 <= i < high ==> pc < PcAt(mem, start, i).value
    ensures Search(mem, start, count, pc, 0, high) == 0
  {
    hide PcAt, HandlerAt;
    if high > 0 {
      var index := high / 2;
      assert PcAt(mem, start, index).Some?;
      SearchMisses(mem, start, count, pc, index);
    }
  }

  /** Some entry covers every address at or after the first entry. */
  lemma {:induction false} Covering(mem: Memory, start: Word, count: nat, pc: Word, n: nat) returns (i: nat)
    requires 0 < n <= count && SortedTable(mem, start, count) && PcAt(mem, start, 0).value <= pc
    requires n < count ==> pc < PcAt(mem, start, n).value
    ensures i < n && Covers(mem, start, count, i, pc)
  {
    var last := n - 1;
    assert last + 1 == n && PcAt(mem, start, last).Some?;
    if PcAt(mem, start, last).value <= pc {
      i := last;
    } else {
      i := Covering(mem, start, count, pc, last);
    }
  }

  /** The second word of an entry names no data: it says so, or what it names is at address 0. */
  predicate NoData(mem: Memory, start: Word, i: nat)
    requires HandlerAt(mem, start, i).Some?
  {
    var p := Add32(EntryAt(start, i), 4);
    mem[p] == CANT_UNWIND || (if mem[p] >= 0x8000_0000 then p == 0 else PrelToAbsolute(p, mem[p]) == 0)
  }

  lemma NoDataIs(mem: Memory, start: Word, i: nat)
    requires HandlerAt(mem, start, i).Some?
    ensures HandlerAt(mem, start, i).value == 0 <==> NoData(mem, start, i)
  {
  }

  /** On a readable table sorted by start address the search returns the data of the one entry that covers `pc`, and
      0 exactly when `pc` precedes the table or that entry names no data. */
  lemma HandlerOfTheCoveringEntry(mem: Memory, start: Word, count: nat, pc: Word)
    requires SortedTable(mem, start, count)
    ensures count > 0 && pc >= PcAt(mem, start, 0).value ==>
      exists i :: 0 <= i < count && Covers(mem, start, count, i, pc)
        && (forall j :: 0 <= j < count && Covers(mem, start, count, j, pc) ==> j == i)
        && Search(mem, start, count, pc, 0, count) == HandlerAt(mem, start, i).value
    ensures Search(mem, start, count, pc, 0, count) == 0 <==>
      (count == 0 || pc < PcAt(mem, start, 0).value
       || exists i :: 0 <= i < count && Covers(mem, start, count, i, pc) && NoData(mem, start, i))
  {
    hide PcAt, HandlerAt, NoData;
    if count == 0 {
    } else if pc < PcAt(mem, start, 0).value {
      forall i | 0 <= i < count
        ensures pc < PcAt(mem, start, i).value
      {
        if i > 0 { assert PcAt(mem, start, 0).value < PcAt(mem, start, i).value; }
      }
      SearchMisses(mem, start, count, pc, count);
    } else {
      var i := Covering(mem, start, count, pc, count);
      SearchFinds(mem, start, count, pc, 0, count, i);
      NoDataIs(mem, start, i);
      forall j | 0 <= j < count && Covers(mem, start, count, j, pc)
        ensures j == i
      {
        if j < i { OneCovers(mem, start, count, i, j, pc); }
        if i < j { OneCovers(mem, start, count, j, i, pc); }
      }
    }
  }

  lemma OneCovers(mem: Memory, start: Word, count: nat, i: nat, j: nat, pc: Word)
    requires j < i < count && SortedTable(mem, start, count) && Covers(mem, start, count, i, pc)
    ensures !Covers(mem, start, count, j, pc)
  {
    var next := j + 1;
    if next < i { assert PcAt(mem, start, next).value < PcAt(mem, start, i).value; }
  }

  // ----- a table as it is laid out -----

  /** What the table knows of a function: that it cannot be unwound, the word of its entry, or where its entry is. */
  datatype Data = CantUnwind | Inline(word: Word) | At(address: Word)

  /** A function's first address and its unwinding data. */
  datatype Indexed = Indexed(function_: Word, data: Data)

  /** `target` is within 1 GiB of `place`. */
  predicate Near(place: Word, target: Word) {
    -0x4000_0000 <= Signed((target - place) % 0x1_0000_0000, 0x8000_0000) < 0x4000_0000
  }

  /** Two words an entry from `start` on (section 5 of the Exception Handling ABI for the Arm Architecture): the
      31-bit offset of the function; and 1, an entry with the top bit set, or the 31-bit offset of one. */
  predicate LaidAt(mem: Memory, start: Word, i: nat, e: Indexed) {
    var p, q: Word := (start + 8 * i) % 0x1_0000_0000, (start + 8 * i + 4) % 0x1_0000_0000;
    p in mem && q in mem && Near(p, e.function_) && mem[p] == (e.function_ - p) % 0x8000_0000
    && match e.data
       case CantUnwind => mem[q] == 1
       case Inline(w) => mem[q] == w && w >= 0x8000_0000
       case At(a) => Near(q, a) && mem[q] == (a - q) % 0x8000_0000 && mem[q] != 1
  }

  /** The handler of an entry at a place: 0 for none. */
  function HandlerOf(start: Word, i: nat, data: Data): Word {
    match data
    case CantUnwind => 0
    case Inline(_) => (start + 8 * i + 4) % 0x1_0000_0000
    case At(a) => a
  }

  /** The words are read back as the function and the data they stand for. */
  lemma LaidReads(mem: Memory, start: Word, i: nat, e: Indexed)
    requires LaidAt(mem, start, i, e)
    ensures PcAt(mem, start, i) == Some(e.function_)
    ensures HandlerAt(mem, start, i) == Some(HandlerOf(start, i, e.data))
  {
    hide PrelToAbsolute, Near, PrelOf;
    var p, q: Word := (start + 8 * i) % 0x1_0000_0000, (start + 8 * i + 4) % 0x1_0000_0000;
    AddSum(start, 8 * i, 4);
    assert EntryAt(start, i) == p && Add32(EntryAt(start, i), 4) == q;
    NearDecodes(p, e.function_);
    if e.data.At? { NearDecodes(q, e.data.address); }
  }

  lemma NearDecodes(place: Word, target: Word)
    requires Near(place, target)
    ensures var offset := (target - place) % 0x8000_0000;
      offset < 0x8000_0000 && PrelToAbsolute(place, offset) == target
  {
    hide PrelToAbsolute;
    PrelRoundTrip(place, target);
  }

  /** In a table of functions in ascending order the search finds the data of the last one that starts at or before
      `pc`, and nothing for a `pc` before them all. */
  lemma TableFinds(mem: Memory, start: Word, es: seq<Indexed>, pc: Word, i: nat)
    requires forall k :: 0 <= k < |es| ==> LaidAt(mem, start, k, es[k])
    requires forall j, k :: 0 <= j < k < |es| ==> es[j].function_ < es[k].function_
    ensures es == [] || pc < es[0].function_ ==> Search(mem, start, |es|, pc, 0, |es|) == 0
    ensures i < |es| && es[i].function_ <= pc && (i + 1 < |es| ==> pc < es[i + 1].function_) ==>
      Search(mem, start, |es|, pc, 0, |es|) == HandlerOf(start, i, es[i].data)
  {
    hide Search, LaidAt, PcAt, HandlerAt, HandlerOf;
    forall k | 0 <= k < |es|
      ensures PcAt(mem, start, k) == Some(es[k].function_)
      ensures HandlerAt(mem, start, k) == Some(HandlerOf(start, k, es[k].data))
    {
      LaidReads(mem, start, k, es[k]);
    }
    if es == [] || pc < es[0].function_ {
      forall k | 0 <= k < |es|
        ensures pc < es[k].function_
      {
        if k > 0 { assert es[0].function_ < es[k].function_; }
      }
      SearchMisses(mem, start, |es|, pc, |es|);
    }
    if i < |es| && es[i].function_ <= pc && (i + 1 < |es| ==> pc < es[i + 1].function_) {
      SearchFinds(mem, start, |es|, pc, 0, |es|, i);
    }
  }

  // ----- from a pc to the caller's registers -----

  /** One frame: the handler of `pc` is looked up, and its entry executed. */
  method UnwindPc(mem: Memory, start: Word, count: nat, pc: Word, state: UnwindState) returns (ok: bool)
    requires count <= 0x2000_0000 && state.Valid()
    modifies state.gregs
    ensures var h := if pc == 0 || start == 0 then 0 else Search(mem, start, count, pc, 0, count);
      Result(ok, state.Now()) ==
        if h == 0 then Result(false, old(state.Now())) else FrameResult(mem, h, old(state.Now()))
  {
    hide Search, FrameResult;
    var handler := GetExceptionHandler(mem, start, count, pc);
    if handler == 0 { return false; }
    ok := state.UnwindFrame(mem, handler);
  }

  /** A sorted table whose entry for `pc` names the data that undoes the prologue: one frame is unwound to the entry
      stack pointer, the pushed registers and the return address. */
  lemma PcUnwinds(start: Word, count: nat, pc: Word, i: nat, routine: nat, steps: seq<Save>, entry: Cpu, now: Cpu,
      code: seq<Byte>)
    requires i < count && SortedTable(now.mem, start, count) && Covers(now.mem, start, count, i, pc)
    requires !NoData(now.mem, start, i)
    requires routine <= 2 && (if routine == 0 then |code| == 3 else |code| % 4 == 2 && |code| < 0x400)
    requires var a := HandlerAt(now.mem, start, i).value; a % 4 == 0 && BytesAt(now.mem, a, EntryBytes(routine, code))
    requires CoreSteps(steps) && Total(steps) <= 0x1_0000_0000 && Matches(code, steps)
    requires now.regs[SP] == Prologue(steps, entry).regs[SP]
    requires SamePushed(steps, entry.regs[SP], Prologue(steps, entry).mem, now.mem)
    requires !Pushed(steps, LR) ==> now.regs[LR] == entry.regs[LR]
    ensures var h := Search(now.mem, start, count, pc, 0, count);
      var o := FrameResult(now.mem, h, now.regs);
      && h != 0 && o.ok && o.regs[SP] == entry.regs[SP] && o.regs[PC] == entry.regs[LR]
      && forall j :: 0 <= j < PC && j != SP ==> o.regs[j] == if Pushed(steps, j) then entry.regs[j] else now.regs[j]
  {
    hide Search, PcAt, HandlerAt, NoData, Covers, FrameResult, EntryBytes, BytesAt, Prologue, Matches, Pushed;
    hide SamePushed, CoreSteps, Total;
    SearchFinds(now.mem, start, count, pc, 0, count, i);
    NoDataIs(now.mem, start, i);
    TableUndoesPrologue(HandlerAt(now.mem, start, i).value, routine, steps, entry, now, code);
  }

  /** Data in place: the second word of the entry is itself the entry of routine 0. */
  lemma InPlaceData(mem: Memory, start: Word, i: nat, code: seq<Byte>)
    requires |code| == 3 && start % 4 == 0 && HandlerAt(mem, start, i).Some?
    requires BytesAt(mem, Add32(EntryAt(start, i), 4), EntryBytes(0, code))
    ensures var p := Add32(EntryAt(start, i), 4);
      p % 4 == 0 && HandlerAt(mem, start, i) == Some(p) && (NoData(mem, start, i) <==> p == 0)
  {
    hide Add32, BytesAt, PrelToAbsolute;
    var p := Add32(EntryAt(start, i), 4);
    FourAligned(start, i);
    BytesAfter(mem, p, EntryBytes(0, code));
    assert ByteOf(mem[p], 0) == 0x80;
  }

  lemma FourAligned(start: Word, i: nat)
    requires start % 4 == 0
    ensures Add32(EntryAt(start, i), 4) % 4 == 0
  {
    var e: int := EntryAt(start, i);
    var q, k, l := start / 4, (start + i * 8) / 0x1_0000_0000, (e + 4) / 0x1_0000_0000;
    assert start + i * 8 == k * 0x1_0000_0000 + e;
    Multiple(q + i * 2 - k * 0x4000_0000, e);
    Multiple(e / 4 + 1 - l * 0x4000_0000, Add32(e, 4));
  }

  lemma Multiple(k: int, a: int)
    requires a == 4 * k
    ensures a % 4 == 0
  {
  }
}

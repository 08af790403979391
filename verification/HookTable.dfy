/** The 32-bit inline hook table: registered targets, the stubs written over them, and their removal. Code memory is
    an array of bytes indexed by address. */
module HookTable {
  import opened Words

  datatype Status = REGISTERED | HOOKED

  datatype Answer = OK | NOT_EXECUTABLE | NOT_REGISTERED | NOT_HOOKED | ALREADY_REGISTERED | ALREADY_HOOKED

  /** `inlineHookItem`; `orig` are the saved instructions. */
  datatype Item = Item(target: Word, newAddr: Word, orig: seq<Byte>, status: Status)

  const MAX_ITEMS := 1024

  /** `CLEAR_BIT0`: bit 0 of a target marks Thumb code. */
  function Clear(target: Word): Word { target - target % 2 }

  function Length(target: Word): nat { if target % 2 == 1 then 12 else 8 }

  function Half(h: nat): seq<Byte>
    requires h < 0x1_0000
  {
    [h % 256, h / 256]
  }

  /** The jump to the replacement: `LDR.W PC, [PC]` after a NOP where the address is not a multiple of 4, or
      `LDR PC, [PC, #-4]`, followed by the address. */
  function Stub(target: Word, newAddr: Word): (s: seq<Byte>)
    ensures |s| <= Length(target)
  {
    if target % 2 == 1 then
      (if Clear(target) % 4 != 0 then Half(0xBF00) else [])
      + (Half(0xF8DF) + (Half(0xF000) + (Half(newAddr % 0x1_0000) + Half(newAddr / 0x1_0000))))
    else Half(0xf004) + (Half(0xe51f) + (Half(newAddr % 0x1_0000) + Half(newAddr / 0x1_0000)))
  }

  predicate InWindow(target: Word, a: nat) { Clear(target) <= a < Clear(target) + Length(target) }

  predicate Apart(t: Word, u: Word) {
    Clear(t) + Length(t) <= Clear(u) || Clear(u) + Length(u) <= Clear(t)
  }

  /** A hooked item's stub covers the address. */
  predicate Covers(it: Item, a: nat) {
    it.status == HOOKED && Clear(it.target) <= a < Clear(it.target) + |Stub(it.target, it.newAddr)|
  }

  /** Code memory is the original with exactly the stubs of the hooked items written over it. */
  predicate ShowsAt(m: seq<Byte>, o: seq<Byte>, items: seq<Item>, a: nat)
    requires |m| == |o| && a < |m|
  {
    && (forall i :: 0 <= i < |items| && Covers(items[i], a) ==>
        m[a] == Stub(items[i].target, items[i].newAddr)[a - Clear(items[i].target)])
    && ((forall i :: 0 <= i < |items| ==> !Covers(items[i], a)) ==> m[a] == o[a])
  }

  predicate Shows(m: seq<Byte>, o: seq<Byte>, items: seq<Item>) {
    |m| == |o| && forall a :: 0 <= a < |m| ==> ShowsAt(m, o, items, a)
  }

  /** The windows are pairwise apart, and every item has saved the original bytes of its own. */
  predicate Sound(o: seq<Byte>, items: seq<Item>) {
    && (forall i, j :: 0 <= i < j < |items| ==> Apart(items[i].target, items[j].target))
    && (forall i :: 0 <= i < |items| ==>
          Clear(items[i].target) + Length(items[i].target) <= |o|
          && items[i].orig == o[Clear(items[i].target)..Clear(items[i].target) + Length(items[i].target)])
  }

  lemma DistinctTargets(o: seq<Byte>, items: seq<Item>, i: nat, j: nat)
    requires Sound(o, items) && i < j < |items|
    ensures items[i].target != items[j].target
  {
  }

  // ----- memory -----

  function Spliced(m: seq<Byte>, at: nat, b: seq<Byte>): (m': seq<Byte>)
    requires at + |b| <= |m|
    ensures |m'| == |m| && forall a :: 0 <= a < |m| ==> m'[a] == if at <= a < at + |b| then b[a - at] else m[a]
  {
    m[..at] + b + m[at + |b|..]
  }

  lemma SplicedTwice(m: seq<Byte>, at: nat, b: seq<Byte>, c: seq<Byte>)
    requires at + |b| + |c| <= |m|
    ensures Spliced(Spliced(m, at, b), at + |b|, c) == Spliced(m, at, b + c)
  {
  }

  // ----- the effect of one operation -----

  /** No two windows share an address. */
  lemma OtherWindow(o: seq<Byte>, items: seq<Item>, i: nat, k: nat, a: nat)
    requires Sound(o, items) && i < |items| && k < |items| && i != k && InWindow(items[i].target, a)
    ensures !InWindow(items[k].target, a)
  {
    var x, y := if i < k then i else k, if i < k then k else i;
    assert Apart(items[x].target, items[y].target);
  }

  /** Writing the stub of an item. */
  lemma HookShows(m: seq<Byte>, o: seq<Byte>, items: seq<Item>, k: nat)
    requires Sound(o, items) && Shows(m, o, items) && k < |items|
    ensures var it := items[k];
      Clear(it.target) + |Stub(it.target, it.newAddr)| <= |m|
      && Shows(Spliced(m, Clear(it.target), Stub(it.target, it.newAddr)), o, items[k := it.(status := HOOKED)])
      && Sound(o, items[k := it.(status := HOOKED)])
  {
    hide Stub, Clear;
    var it := items[k];
    var s := Stub(it.target, it.newAddr);
    Fits(it.target, it.newAddr);
    var m', items' := Spliced(m, Clear(it.target), s), items[k := it.(status := HOOKED)];
    forall a | 0 <= a < |m|
      ensures ShowsAt(m', o, items', a)
    {
      assert ShowsAt(m, o, items, a);
      forall i | 0 <= i < |items| && i != k && Covers(items'[i], a)
        ensures m'[a] == Stub(items'[i].target, items'[i].newAddr)[a - Clear(items'[i].target)]
      {
        Fits(items[i].target, items[i].newAddr);
        OtherWindow(o, items, i, k, a);
      }
      if forall i :: 0 <= i < |items'| ==> !Covers(items'[i], a) {
        assert !Covers(items'[k], a);
        forall i | 0 <= i < |items|
          ensures !Covers(items[i], a)
        {
          assert !Covers(items'[i], a);
        }
      }
    }
  }

  lemma Fits(target: Word, newAddr: Word)
    ensures |Stub(target, newAddr)| <= Length(target)
  {
  }

  function SwapDeleted(items: seq<Item>, k: nat): seq<Item>
    requires k < |items|
  {
    items[k := items[|items| - 1]][..|items| - 1]
  }

  /** The last item takes the place of the deleted one; all others stay. */
  lemma SwapDeletedItems(items: seq<Item>, k: nat)
    requires k < |items|
    ensures |SwapDeleted(items, k)| == |items| - 1
    ensures forall i :: 0 <= i < |items| && i != k ==>
      var j := if i == |items| - 1 then k else i; j < |items| - 1 && SwapDeleted(items, k)[j] == items[i]
    ensures multiset(SwapDeleted(items, k)) == multiset(items) - multiset{items[k]}
  {
    var last := |items| - 1;
    assert items == items[..last] + [items[last]];
    var s := items[..last];
    if k < last {
      assert SwapDeleted(items, k) == s[k := items[last]];
      var without := multiset(s)[items[k] := multiset(s)[items[k]] - 1];
      assert multiset(s[k := items[last]]) == without[items[last] := without[items[last]] + 1];
    } else {
      assert SwapDeleted(items, k) == s;
    }
  }

  /** An address outside the deleted item's window that no remaining item covers was covered by none. */
  lemma UncoveredBefore(items: seq<Item>, k: nat, a: nat)
    requires k < |items| && !InWindow(items[k].target, a)
    requires forall j :: 0 <= j < |items| - 1 ==> !Covers(SwapDeleted(items, k)[j], a)
    ensures forall i :: 0 <= i < |items| ==> !Covers(items[i], a)
  {
    hide Stub, Clear;
    var items', last := SwapDeleted(items, k), |items| - 1;
    Fits(items[k].target, items[k].newAddr);
    forall i | 0 <= i < |items|
      ensures !Covers(items[i], a)
    {
      if i != k { assert items'[if i == last then k else i] == items[i]; }
    }
  }

  /** Restoring the saved bytes of an item and deleting it. */
  lemma UnhookShows(m: seq<Byte>, o: seq<Byte>, items: seq<Item>, k: nat)
    requires Sound(o, items) && Shows(m, o, items) && k < |items|
    ensures var it := items[k];
      Clear(it.target) + |it.orig| <= |m|
      && Shows(Spliced(m, Clear(it.target), it.orig), o, SwapDeleted(items, k))
  {
    hide Stub, Clear;
    var it, last := items[k], |items| - 1;
    var m', items' := Spliced(m, Clear(it.target), it.orig), SwapDeleted(items, k);
    forall a | 0 <= a < |m|
      ensures ShowsAt(m', o, items', a)
    {
      assert ShowsAt(m, o, items, a);
      forall j | 0 <= j < |items'| && Covers(items'[j], a)
        ensures m'[a] == Stub(items'[j].target, items'[j].newAddr)[a - Clear(items'[j].target)]
      {
        var i := if j == k then last else j;
        assert items'[j] == items[i];
        Fits(items[i].target, items[i].newAddr);
        OtherWindow(o, items, i, k, a);
      }
      if !InWindow(it.target, a) && forall j :: 0 <= j < |items'| ==> !Covers(items'[j], a) {
        UncoveredBefore(items, k, a);
      }
    }
  }

  lemma UnhookSound(o: seq<Byte>, items: seq<Item>, k: nat)
    requires Sound(o, items) && k < |items|
    ensures Sound(o, SwapDeleted(items, k))
  {
    hide Clear, Length;
    var items', last := SwapDeleted(items, k), |items| - 1;
    forall i, j | 0 <= i < j < |items'|
      ensures Apart(items'[i].target, items'[j].target)
    {
      var i', j' := if i == k then last else i, if j == k then last else j;
      assert items'[i] == items[i'] && items'[j] == items[j'];
      var x, y := if i' < j' then i' else j', if i' < j' then j' else i';
      assert Apart(items[x].target, items[y].target);
      ApartFlips(items[x].target, items[y].target);
    }
  }

  lemma ApartFlips(t: Word, u: Word)
    requires Apart(t, u)
    ensures Apart(u, t)
  {
  }

  /** Registering a target whose window is apart from all others. */
  lemma RegisterShows(m: seq<Byte>, o: seq<Byte>, items: seq<Item>, it: Item)
    requires Sound(o, items) && Shows(m, o, items) && it.status == REGISTERED
    requires Clear(it.target) + Length(it.target) <= |m|
      && it.orig == m[Clear(it.target)..Clear(it.target) + Length(it.target)]
    requires forall i :: 0 <= i < |items| ==> Apart(items[i].target, it.target)
    ensures Sound(o, items + [it]) && Shows(m, o, items + [it])
  {
    hide Stub, Clear;
    var items' := items + [it];
    forall a | 0 <= a < |m|
      ensures ShowsAt(m, o, items', a)
    {
      assert ShowsAt(m, o, items, a);
      if forall i :: 0 <= i < |items'| ==> !Covers(items'[i], a) {
        forall i | 0 <= i < |items|
          ensures !Covers(items[i], a)
        {
          assert items'[i] == items[i];
        }
      }
    }
    forall a: nat | InWindow(it.target, a)
      ensures m[a] == o[a]
    {
      assert ShowsAt(m, o, items, a);
      forall i | 0 <= i < |items|
        ensures !Covers(items[i], a)
      {
        assert Apart(items[i].target, it.target);
        Fits(items[i].target, items[i].newAddr);
      }
    }
    assert it.orig == o[Clear(it.target)..Clear(it.target) + Length(it.target)];
  }

  /** When nothing is hooked, code memory is the original. */
  lemma NothingHooked(m: seq<Byte>, o: seq<Byte>, items: seq<Item>)
    requires Shows(m, o, items) && forall i :: 0 <= i < |items| ==> items[i].status != HOOKED
    ensures m == o
  {
    forall a | 0 <= a < |m|
      ensures m[a] == o[a]
    {
      assert ShowsAt(m, o, items, a);
    }
  }

  function Hooked(it: Item): Item { it.(status := HOOKED) }

  /** `info` and the code memory it changes. */
  class HookInfo {
    const mem: array<Byte>
    var item: seq<Item>
    /** The code as it was before any hook. */
    ghost const original: seq<Byte>

    constructor (code: seq<Byte>)
      ensures Valid() && item == [] && original == code && fresh(mem)
    {
      mem := new Byte[|code|](i requires 0 <= i < |code| => code[i]);
      item := [];
      original := code;
    }

    ghost predicate Valid()
      reads this, mem
    {
      |item| <= MAX_ITEMS && Sound(original, item) && Shows(mem[..], original, item)
    }

    /** `findInlineHookItem`: the position of a target, or -1. */
    method Find(target: Word) returns (pos: int)
      ensures -1 <= pos < |item| && (pos >= 0 ==> item[pos].target == target)
      ensures pos < 0 ==> forall i :: 0 <= i < |item| ==> item[i].target != target
    {
      pos := 0;
      while pos < |item|
        invariant 0 <= pos <= |item| && forall i :: 0 <= i < pos ==> item[i].target != target
      {
        if item[pos].target == target { return; }
        pos := pos + 1;
      }
      pos := -1;
    }

    /** `registerInlineHook`; the flags say whether the two addresses lie in executable mappings. */
    method Register(target: Word, newAddr: Word, targetExec: bool, newExec: bool) returns (r: Answer)
      requires Valid()
      requires (exists i :: 0 <= i < |item| && item[i].target == target)
        || (|item| < MAX_ITEMS && Clear(target) + Length(target) <= mem.Length && forall i :: 0 <= i < |item| ==>
            Apart(item[i].target, target))
      modifies this`item
      ensures Valid()
      ensures r == NOT_EXECUTABLE <==> !targetExec || !newExec
      ensures r == ALREADY_REGISTERED || r == ALREADY_HOOKED <==>
        targetExec && newExec && exists i :: 0 <= i < |old(item)| && old(item)[i].target == target
      ensures r == ALREADY_HOOKED ==>
        exists i :: 0 <= i < |item| && item[i].target == target && item[i].status == HOOKED
      ensures r == ALREADY_REGISTERED ==>
        exists i :: 0 <= i < |item| && item[i].target == target && item[i].status == REGISTERED
      ensures if r == OK then
                item == old(item) + [Item(target, newAddr, mem[Clear(target)..Clear(target) + Length(target)],
                    REGISTERED)]
              else item == old(item)
      ensures r in {OK, NOT_EXECUTABLE, ALREADY_REGISTERED, ALREADY_HOOKED}
    {
      hide Sound, Shows;
      if !targetExec || !newExec { return NOT_EXECUTABLE; }
      var pos := Find(target);
      if pos >= 0 {
        return if item[pos].status == REGISTERED then ALREADY_REGISTERED else ALREADY_HOOKED;
      }
      var it := Item(target, newAddr, mem[Clear(target)..Clear(target) + Length(target)], REGISTERED);
      ShowsLength(mem[..], original, item);
      RegisterShows(mem[..], original, item, it);
      item := item + [it];
      r := OK;
    }

    /** A store of a 16-bit word. */
    method Put(at: nat, h: nat)
      requires h < 0x1_0000 && at + 2 <= mem.Length
      modifies mem
      ensures mem[..] == Spliced(old(mem[..]), at, Half(h))
    {
      mem[at] := h % 256;
      mem[at + 1] := h / 256;
    }

    /** The four stores that both forms of the stub end with. */
    method PutFour(at: nat, a: nat, b: nat, c: nat, d: nat)
      requires a < 0x1_0000 && b < 0x1_0000 && c < 0x1_0000 && d < 0x1_0000 && at + 8 <= mem.Length
      modifies mem
      ensures at + |Half(a) + (Half(b) + (Half(c) + Half(d)))| <= mem.Length
      ensures mem[..] == Spliced(old(mem[..]), at, Half(a) + (Half(b) + (Half(c) + Half(d))))
    {
      hide Half, Spliced;
      Lengths(a, b);
      Lengths(c, d);
      FourSplices(mem[..], at, Half(a), Half(b), Half(c), Half(d));
      Put(at, a);
      Put(at + 2, b);
      Put(at + 4, c);
      Put(at + 6, d);
    }

    /** The stores of `doInlineHook`. */
    method WriteStub(target: Word, newAddr: Word)
      requires Clear(target) + |Stub(target, newAddr)| <= mem.Length
      modifies mem
      ensures mem[..] == Spliced(old(mem[..]), Clear(target), Stub(target, newAddr))
    {
      hide Half, Spliced;
      var at: nat := Clear(target);
      var lo, hi := newAddr % 0x1_0000, newAddr / 0x1_0000;
      Lengths(lo, hi);
      Lengths(0xBF00, 0xF8DF);
      Lengths(0xF000, 0xf004);
      Lengths(0xe51f, 0);
      if target % 2 == 1 {
        if at % 4 != 0 {
          SplicedTwice(mem[..], at, Half(0xBF00), Half(0xF8DF) + (Half(0xF000) + (Half(lo) + Half(hi))));
          Put(at, 0xBF00);
          PutFour(at + 2, 0xF8DF, 0xF000, lo, hi);
        } else {
          assert [] + (Half(0xF8DF) + (Half(0xF000) + (Half(lo) + Half(hi))))
              == Half(0xF8DF) + (Half(0xF000) + (Half(lo) + Half(hi)));
          PutFour(at, 0xF8DF, 0xF000, lo, hi);
        }
      } else {
        PutFour(at, 0xf004, 0xe51f, lo, hi);
      }
    }

    /** `doInlineHook`. */
    method DoHook(pos: nat)
      requires Valid() && pos < |item|
      modifies this`item, mem
      ensures Valid() && item == old(item)[pos := Hooked(old(item)[pos])]
    {
      hide Sound, Shows, Spliced, Stub;
      HookShows(mem[..], original, item, pos);
      ShowsLength(mem[..], original, item);
      WriteStub(item[pos].target, item[pos].newAddr);
      item := item[pos := Hooked(item[pos])];
    }

    /** `memcpy` of the saved instructions. */
    method Restore(at: nat, b: seq<Byte>)
      requires at + |b| <= mem.Length
      modifies mem
      ensures mem[..] == Spliced(old(mem[..]), at, b)
    {
      var i := 0;
      while i < |b|
        invariant 0 <= i <= |b|
        invariant forall a :: 0 <= a < mem.Length ==> mem[a] == if at <= a < at + i then b[a - at] else old(mem[a])
      {
        mem[at + i] := b[i];
        i := i + 1;
      }
    }

    /** `doInlineUnHook`, with the swap-deletion of the item. */
    method DoUnhook(pos: nat)
      requires Valid() && pos < |item|
      modifies this`item, mem
      ensures Valid() && item == SwapDeleted(old(item), pos)
    {
      hide Sound, Shows, Spliced;
      UnhookShows(mem[..], original, item, pos);
      UnhookSound(original, item, pos);
      ShowsLength(mem[..], original, item);
      Restore(Clear(item[pos].target), item[pos].orig);
      item := SwapDeleted(item, pos);
    }

    /** `inlineHook`. */
    method Hook(target: Word) returns (r: Answer)
      requires Valid()
      modifies this`item, mem
      ensures Valid()
      ensures r == NOT_REGISTERED ==> item == old(item) && forall i :: 0 <= i < |item| ==> item[i].target != target
      ensures r == ALREADY_HOOKED ==>
        item == old(item) && exists i :: 0 <= i < |item| && item[i].target == target && item[i].status == HOOKED
      ensures r == OK ==>
        exists i :: 0 <= i < |old(item)| && old(item)[i].target == target && old(item)[i].status == REGISTERED
            && item == old(item)[i := Hooked(old(item)[i])]
      ensures r in {OK, NOT_REGISTERED, ALREADY_HOOKED}
    {
      hide Sound, Shows;
      var pos := Find(target);
      if pos < 0 { return NOT_REGISTERED; }
      if item[pos].status == REGISTERED {
        DoHook(pos);
        return OK;
      }
      r := ALREADY_HOOKED;
    }

    /** `inlineUnHook`. */
    method Unhook(target: Word) returns (r: Answer)
      requires Valid()
      modifies this`item, mem
      ensures Valid()
      ensures r == OK ==>
        exists i :: 0 <= i < |old(item)| && old(item)[i].target == target && old(item)[i].status == HOOKED
            && item == SwapDeleted(old(item), i)
      ensures r != OK ==> r == NOT_HOOKED && item == old(item)
      ensures r != OK ==> forall i :: 0 <= i < |item| ==> !(item[i].target == target && item[i].status == HOOKED)
    {
      hide Sound, Shows, SwapDeleted;
      var i := 0;
      while i < |item|
        invariant 0 <= i <= |item| && forall k :: 0 <= k < i ==> !(item[k].target == target && item[k].status == HOOKED)
      {
        if item[i].target == target && item[i].status == HOOKED {
          DoUnhook(i);
          return OK;
        }
        i := i + 1;
      }
      r := NOT_HOOKED;
    }

    /** `inlineHookAll`: every registered item is hooked. */
    method HookAll()
      requires Valid()
      modifies this`item, mem
      ensures Valid() && |item| == |old(item)| && forall i :: 0 <= i < |item| ==> item[i] == Hooked(old(item)[i])
    {
      hide Sound, Shows;
      var i := 0;
      while i < |item|
        invariant Valid() && 0 <= i <= |item| == |old(item)|
        invariant forall k :: 0 <= k < |item| ==> item[k] == if k < i then Hooked(old(item)[k]) else old(item)[k]
      {
        if item[i].status == REGISTERED {
          DoHook(i);
        }
        i := i + 1;
      }
    }

    /** `inlineUnHookAll`: although deletion moves the last item into the place just visited, no hooked item is left,
        every registered one is kept, and the code is the original again. */
    method UnhookAll()
      requires Valid()
      modifies this`item, mem
      ensures Valid() && mem[..] == original
      ensures forall i :: 0 <= i < |item| ==> item[i].status == REGISTERED
      ensures forall it: Item :: it.status == REGISTERED ==> multiset(item)[it] == multiset(old(item))[it]
    {
      hide Sound, Shows, SwapDeleted;
      var i := 0;
      while i < |item|
        invariant Valid() && 0 <= i <= |item|
        invariant forall k :: 0 <= k < i ==> item[k].status == REGISTERED
        invariant forall it: Item :: it.status == REGISTERED ==> multiset(item)[it] == multiset(old(item))[it]
        decreases 2 * |item| - i
      {
        if item[i].status == HOOKED {
          SwapDeletedItems(item, i);
          SwapKeepsBefore(item, i);
          DoUnhook(i);
          i := i - 1;
        }
        i := i + 1;
      }
      NothingHooked(mem[..], original, item);
    }
  }

  lemma SwapKeepsBefore(items: seq<Item>, k: nat)
    requires k < |items|
    ensures forall i :: 0 <= i < k ==> SwapDeleted(items, k)[i] == items[i]
  {
  }

  lemma ShowsLength(m: seq<Byte>, o: seq<Byte>, items: seq<Item>)
    requires Shows(m, o, items)
    ensures |m| == |o|
  {
  }

  lemma Lengths(lo: nat, hi: nat)
    requires lo < 0x1_0000 && hi < 0x1_0000
    ensures |Half(lo)| == 2 && |Half(hi)| == 2
  {
  }

  /** Stores at consecutive addresses are one store. */
  lemma FourSplices(m: seq<Byte>, at: nat, a: seq<Byte>, b: seq<Byte>, c: seq<Byte>, d: seq<Byte>)
    requires at + |a| + |b| + |c| + |d| <= |m|
    ensures var m2 := Spliced(m, at, a);
      var m3 := Spliced(m2, at + |a|, b);
      var m4 := Spliced(m3, at + |a| + |b|, c);
      Spliced(m4, at + |a| + |b| + |c|, d) == Spliced(m, at, a + (b + (c + d)))
  {
    SplicedTwice(m, at, a, b);
    SplicedTwice(m, at, a + b, c);
    SplicedTwice(m, at, a + b + c, d);
    assert a + b + c + d == a + (b + (c + d));
  }
}

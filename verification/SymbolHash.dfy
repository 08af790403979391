/** Symbol lookup in ELF hash tables: the GNU table with its Bloom filter, and the System V bucket and chain table. */
module SymbolHash {
  import opened Words

  type Name = seq<Byte>

  /** `xh_elf_gnu_hash`. */
  function GnuHashFrom(name: Name, h: Word): Word {
    if name == [] then h else GnuHashFrom(name[1..], (h * 33 + name[0]) % 0x1_0000_0000)
  }

  function GnuHash(name: Name): Word { GnuHashFrom(name, 5381) }

  /** 33 to the power `k`. */
  function Pow33(k: nat): nat { if k == 0 then 1 else 33 * Pow33(k - 1) }

  /** The sum of the bytes, each weighed with 33 to the power of the number of bytes after it. */
  function Weighed(name: Name): nat {
    if name == [] then 0
    else
      var c: nat := name[0];
      c * Pow33(|name| - 1) + Weighed(name[1..])
  }

  /** The hash as a polynomial in 33 over the bytes, modulo 2^32. */
  lemma GnuHashIs(name: Name)
    ensures GnuHash(name) == (5381 * Pow33(|name|) + Weighed(name)) % 0x1_0000_0000
  {
    GnuHashFromIs(name, 5381);
  }

  lemma {:induction false} GnuHashFromIs(name: Name, h: Word)
    ensures GnuHashFrom(name, h) == (h * Pow33(|name|) + Weighed(name)) % 0x1_0000_0000
  {
    if name == [] {
      Mod32(h, 0, h);
    } else {
      var c: nat := name[0];
      var x: nat, p, w := h * 33 + c, Pow33(|name| - 1), Weighed(name[1..]);
      var q, r := x / 0x1_0000_0000, x % 0x1_0000_0000;
      GnuHashFromIs(name[1..], r);
      assert x == q * 0x1_0000_0000 + r;
      Scaled(x, q, r, p);
      AddTurns(0, r * p + w, q * p);
      Regrouped(h, c, p);
    }
  }

  lemma Scaled(x: nat, q: nat, r: nat, p: nat)
    requires x == q * 0x1_0000_0000 + r
    ensures x * p == q * p * 0x1_0000_0000 + r * p
  {
  }

  lemma Regrouped(h: nat, c: nat, p: nat)
    ensures (h * 33 + c) * p == h * (33 * p) + c * p
  {
  }

  /** The empty name, and "a". */
  lemma GnuHashSamples()
    ensures GnuHash([]) == 5381 && GnuHash([97]) == 177670
  {
    assert [97][1..] == [];
    assert GnuHashFrom([], 177670) == 177670;
  }

  /** One turn of `xh_elf_hash`, with its mask and its exclusive ORs. */
  function SysvNext(h: Word, c: Byte): (r: Word)
    ensures h < 0x1000_0000 ==> r < 0x1000_0000
  {
    var h1 := (h * 16 + c) % 0x1_0000_0000;
    var g := BitAnd(h1, 0xf000_0000);
    SysvNextIs(h, c);
    BitXor(BitXor(h1, g), g / 0x100_0000)
  }

  function SysvHashFrom(name: Name, h: Word): Word {
    if name == [] then h else SysvHashFrom(name[1..], SysvNext(h, name[0]))
  }

  function SysvHash(name: Name): Word { SysvHashFrom(name, 0) }

  /** A turn in integer arithmetic: the hash grows by a hexadecimal digit, the digit that leaves the low 28 bits is
      taken off and combined into the digit at 16. */
  lemma SysvNextIs(h: Word, c: Byte)
    ensures var t := (h * 16 + c) % 0x1_0000_0000;
      var g := BitAnd(t, 0xf000_0000);
      var top, digit, low := t / 0x1000_0000, t / 16 % 16, t % 0x1000_0000;
      && BitXor(digit, top) < 16
      && BitXor(BitXor(t, g), g / 0x100_0000) == low - 16 * digit + 16 * BitXor(digit, top)
      && 0 <= low - 16 * digit + 16 * BitXor(digit, top) < 0x1000_0000
  {
    hide BitAnd, BitXor, Shl;
    var t: nat := (h * 16 + c) % 0x1_0000_0000;
    var top, low := t / 0x1000_0000, t % 0x1000_0000;
    Powers();
    TopDigit(t);
    XorFields(t, top * 0x1000_0000, top, low, top, 0, 28, 0x1000_0000);
    XorZero(top);
    XorZero(low);
    var high, digit, last := low / 256, low / 16 % 16, low % 16;
    assert low == 256 * high + (16 * digit + last);
    XorFields(low, top * 16, high, 16 * digit + last, 0, top * 16, 8, 256);
    XorFields(16 * digit + last, top * 16, digit, last, top, 0, 4, 16);
    XorFields(digit, top, 0, digit, 0, top, 4, 16);
    XorZero(high);
    XorZero(last);
    NoXor();
    SameDigit(t);
  }

  lemma SameDigit(t: nat)
    ensures t % 0x1000_0000 / 16 % 16 == t / 16 % 16
  {
    var q, low := t / 0x1000_0000, t % 0x1000_0000;
    var d, l := low / 16, low % 16;
    assert t == 16 * (0x100_0000 * q + d) + l;
    Digit(0x10_0000 * q, d);
    assert t / 16 == 16 * (0x10_0000 * q) + d;
  }

  lemma Digit(a: nat, d: nat)
    ensures (16 * a + d) % 16 == d % 16
  {
  }

  lemma TopDigit(t: nat)
    requires t < 0x1_0000_0000
    ensures BitAnd(t, 0xf000_0000) == t / 0x1000_0000 * 0x1000_0000
    ensures t / 0x1000_0000 < 16 && t / 0x1000_0000 * 0x1000_0000 / 0x100_0000 == t / 0x1000_0000 * 16
  {
    hide BitAnd, Shl;
    Powers();
    var q := t / 0x1000_0000;
    AndSplit(t, q, t % 0x1000_0000, 28, 0x1000_0000, 15, 0);
    AndOnes(q, 4, 16);
    BitAndZero(t % 0x1000_0000);
  }

  /** Appending a byte takes one more turn, and the hash stays below 2^28. */
  lemma SysvHashAppends(name: Name, c: Byte)
    ensures SysvHash(name + [c]) == SysvNext(SysvHash(name), c) && SysvHash(name) < 0x1000_0000
  {
    SysvHashFromAppends(name, c, 0);
  }

  lemma {:induction false} SysvHashFromAppends(name: Name, c: Byte, h: Word)
    requires h < 0x1000_0000
    ensures SysvHashFrom(name + [c], h) == SysvNext(SysvHashFrom(name, h), c) && SysvHashFrom(name, h) < 0x1000_0000
  {
    hide SysvNext;
    if name == [] {
      assert ([] + [c])[1..] == [];
    } else {
      assert (name + [c])[1..] == name[1..] + [c];
      SysvHashFromAppends(name[1..], c, SysvNext(h, name[0]));
    }
  }

  /** The linear search that both tables replace: the first symbol of the name at or after `from`. */
  function Scan(names: seq<Name>, name: Name, from: nat, end: nat): Option<nat>
    requires from <= end <= |names|
    decreases end - from
  {
    if from == end then None else if names[from] == name then Some(from) else Scan(names, name, from + 1, end)
  }

  lemma {:induction false} ScanIs(names: seq<Name>, name: Name, from: nat, end: nat)
    requires from <= end <= |names|
    ensures match Scan(names, name, from, end)
      case None => forall i :: from <= i < end ==> names[i] != name
      case Some(i) => from <= i < end && names[i] == name && forall j :: from <= j < i ==> names[j] != name
    decreases end - from
  {
    if from < end && names[from] != name { ScanIs(names, name, from + 1, end); }
  }

  predicate UniqueNames(names: seq<Name>, from: nat) {
    forall i, j :: from <= i < j < |names| ==> names[i] != names[j]
  }

  // ----- the GNU table -----

  /** The symbols' names and the table: symbols below `symOffset` are not in it. `bits` is the width of a Bloom word. */
  datatype GnuTable = GnuTable(names: seq<Name>, symOffset: nat, bits: nat, bloom: seq<nat>, bloomShift: nat,
                               bucket: seq<nat>, chain: seq<nat>)

  /** The Bloom filter's two bits for a hash are set. */
  predicate BloomHas(t: GnuTable, h: Word)
    requires t.bits > 0 && t.bloom != []
  {
    var word := t.bloom[h / t.bits % |t.bloom|];
    Bit(word, h % t.bits) && Bit(word, Shr(h, t.bloomShift) % t.bits)
  }

  /** The chain ends at symbol `i`. */
  predicate Ends(t: GnuTable, i: nat)
    requires t.symOffset <= i < |t.names| && |t.chain| == |t.names| - t.symOffset
  {
    t.chain[i - t.symOffset] % 2 == 1
  }

  /** What a linker builds: hashes with the lowest bit reused, the symbols of a bucket in one run that only its last
      symbol ends, and every symbol's bits in the filter. */
  ghost predicate WellFormedGnu(t: GnuTable) {
    && t.bits > 0 && t.bloom != [] && t.bucket != [] && t.symOffset <= |t.names| && |t.chain| == |t.names| - t.symOffset
    && (forall b :: 0 <= b < |t.bucket| ==> t.bucket[b] < t.symOffset || t.bucket[b] < |t.names|)
    && (t.symOffset < |t.names| ==> Ends(t, |t.names| - 1))
    && (forall i :: t.symOffset <= i < |t.names| ==> GnuSymbolOk(t, i))
  }

  ghost predicate GnuSymbolOk(t: GnuTable, i: nat)
    requires t.bits > 0 && t.bloom != [] && t.bucket != [] && t.symOffset <= i < |t.names|
      && |t.chain| == |t.names| - t.symOffset
  {
    var h := GnuHash(t.names[i]);
    && t.chain[i - t.symOffset] / 2 == h / 2 && BloomHas(t, h)
    && t.symOffset <= t.bucket[h % |t.bucket|] <= i
    && forall j :: t.bucket[h % |t.bucket|] <= j < i ==> !Ends(t, j)
  }

  /** `xh_elf_gnu_hash_lookup_def`: finds the name if and only if a hashed symbol has it. */
  method GnuLookupDef(t: GnuTable, name: Name) returns (r: Option<nat>)
    requires WellFormedGnu(t)
    ensures r.Some? ==> t.symOffset <= r.value < |t.names| && t.names[r.value] == name
    ensures r.None? ==> forall i :: t.symOffset <= i < |t.names| ==> t.names[i] != name
  {
    hide GnuHash, BloomHas, BitAnd, BitOr, Shl, Shr;
    var hash := GnuHash(name);
    var word := t.bloom[hash / t.bits % |t.bloom|];
    var mask := BitOr(Shl(1, hash % t.bits), Shl(1, Shr(hash, t.bloomShift) % t.bits));
    BloomTest(t, hash);
    if BitAnd(word, mask) != mask {
      BloomNeverRejects(t, name);
      return None;
    }
    var start := t.bucket[hash % |t.bucket|];
    var i := start;
    if i < t.symOffset {
      BucketReaches(t, name, 0);
      return None;
    }
    while true
      invariant t.symOffset <= start <= i < |t.names|
      invariant forall j :: start <= j < i ==> t.names[j] != name && !Ends(t, j)
      decreases |t.names| - i
    {
      var symHash := t.chain[i - t.symOffset];
      OrOne(hash);
      OrOne(symHash);
      if BitOr(hash, 1) == BitOr(symHash, 1) && t.names[i] == name {
        return Some(i);
      }
      assert GnuSymbolOk(t, i);
      if symHash % 2 == 1 {
        BucketReaches(t, name, i);
        return None;
      }
      assert i != |t.names| - 1;
      i := i + 1;
    }
  }

  /** The two bits are tested at once with a mask. */
  lemma BloomTest(t: GnuTable, h: Word)
    requires t.bits > 0 && t.bloom != []
    ensures var word := t.bloom[h / t.bits % |t.bloom|];
      var mask := BitOr(Shl(1, h % t.bits), Shl(1, Shr(h, t.bloomShift) % t.bits));
      BitAnd(word, mask) == mask <==> BloomHas(t, h)
  {
    hide BitAnd, BitOr, Bit, Shl, Shr;
    TwoBits(t.bloom[h / t.bits % |t.bloom|], h % t.bits, Shr(h, t.bloomShift) % t.bits);
  }

  /** The filter has the bits of every symbol. */
  lemma BloomNeverRejects(t: GnuTable, name: Name)
    requires WellFormedGnu(t) && !BloomHas(t, GnuHash(name))
    ensures forall i :: t.symOffset <= i < |t.names| ==> t.names[i] != name
  {
    forall i | t.symOffset <= i < |t.names|
      ensures t.names[i] != name
    {
      assert GnuSymbolOk(t, i);
    }
  }

  /** A symbol lies in the run of its bucket: not in an empty bucket, and not past the end of the run. */
  lemma BucketReaches(t: GnuTable, name: Name, end: nat)
    requires WellFormedGnu(t)
    requires var start := t.bucket[GnuHash(name) % |t.bucket|];
      start < t.symOffset || (t.symOffset <= start <= end < |t.names| && Ends(t, end)
          && forall j :: start <= j <= end ==> t.names[j] != name)
    ensures forall i :: t.symOffset <= i < |t.names| ==> t.names[i] != name
  {
    forall i | t.symOffset <= i < |t.names|
      ensures t.names[i] != name
    {
      assert GnuSymbolOk(t, i);
    }
  }

  /** `xh_elf_gnu_hash_lookup_undef`. */
  method GnuLookupUndef(t: GnuTable, name: Name) returns (r: Option<nat>)
    requires t.symOffset <= |t.names|
    ensures r == Scan(t.names, name, 0, t.symOffset)
  {
    var i := 0;
    while i < t.symOffset
      invariant 0 <= i <= t.symOffset && Scan(t.names, name, 0, t.symOffset) == Scan(t.names, name, i, t.symOffset)
    {
      if t.names[i] == name { return Some(i); }
      i := i + 1;
    }
    r := None;
  }

  /** `xh_elf_gnu_hash_lookup`: on a well-formed table with unique names it is the scan of the whole symbol table. */
  method GnuLookup(t: GnuTable, name: Name) returns (r: Option<nat>)
    requires WellFormedGnu(t)
    ensures UniqueNames(t.names, 0) ==> r == Scan(t.names, name, 0, |t.names|)
    ensures r.Some? ==> r.value < |t.names| && t.names[r.value] == name
    ensures r.None? ==> forall i :: 0 <= i < |t.names| ==> t.names[i] != name
  {
    hide Scan, BloomHas, GnuHash;
    r := GnuLookupDef(t, name);
    if r.None? {
      r := GnuLookupUndef(t, name);
      ScanIs(t.names, name, 0, t.symOffset);
    }
    ScanIs(t.names, name, 0, |t.names|);
  }

  /** How a linker fills the filter. */
  function BloomWith(t: GnuTable, h: Word): (bloom: seq<nat>)
    requires t.bits > 0 && t.bloom != []
    ensures |bloom| == |t.bloom|
  {
    var w := h / t.bits % |t.bloom|;
    var one, two := Shl(1, h % t.bits), Shl(1, Shr(h, t.bloomShift) % t.bits);
    t.bloom[w := BitOr(BitOr(t.bloom[w], one), two)]
  }

  function BucketOf(t: GnuTable, name: Name): nat
    requires t.bucket != []
  {
    GnuHash(name) % |t.bucket|
  }

  /** The last symbol is hashed and in bucket `b`. */
  predicate LastIn(t: GnuTable, b: nat)
    requires t.bucket != []
  {
    t.symOffset < |t.names| && BucketOf(t, t.names[|t.names| - 1]) == b
  }

  /** How a linker adds a hashed symbol, bucket by bucket: it prolongs the run of its bucket, or starts one. */
  function GnuAdd(t: GnuTable, name: Name): GnuTable
    requires t.bits > 0 && t.bloom != [] && t.bucket != [] && t.symOffset <= |t.names|
      && |t.chain| == |t.names| - t.symOffset
  {
    var h, b, n := GnuHash(name), BucketOf(t, name), |t.chain| - 1;
    var chain := if LastIn(t, b) then t.chain[n := t.chain[n] / 2 * 2] else t.chain;
    t.(names := t.names + [name], bloom := BloomWith(t, h), chain := chain + [h / 2 * 2 + 1],
       bucket := if LastIn(t, b) then t.bucket else t.bucket[b := |t.names|])
  }

  /** The hashed symbols come in the order of their buckets. */
  predicate BucketOrder(t: GnuTable)
    requires t.bucket != []
  {
    forall i, j :: t.symOffset <= i < j < |t.names| ==> BucketOf(t, t.names[i]) <= BucketOf(t, t.names[j])
  }

  lemma BloomKeeps(t: GnuTable, h: Word, h': Word)
    requires t.bits > 0 && t.bloom != []
    ensures BloomHas(t.(bloom := BloomWith(t, h)), h)
    ensures BloomHas(t, h') ==> BloomHas(t.(bloom := BloomWith(t, h)), h')
  {
    hide Bit, BitOr, Shl, Shr;
    var x := t.bloom[h / t.bits % |t.bloom|];
    var i, j := h % t.bits, Shr(h, t.bloomShift) % t.bits;
    OneBit(i);
    OneBit(j);
    forall k: nat
      ensures Bit(BitOr(BitOr(x, Shl(1, i)), Shl(1, j)), k) <==> Bit(x, k) || Bit(Shl(1, i), k) || Bit(Shl(1, j), k)
    {
      BitOrBits(BitOr(x, Shl(1, i)), Shl(1, j), k);
      BitOrBits(x, Shl(1, i), k);
    }
  }

  /** Adding symbols in the order of their buckets keeps the table well-formed. */
  lemma GnuAddKeeps(t: GnuTable, name: Name)
    requires WellFormedGnu(t) && t.symOffset > 0 && BucketOrder(t) && BucketOrder(t.(names := t.names + [name]))
    ensures WellFormedGnu(GnuAdd(t, name))
  {
    hide GnuHash, BloomHas, BloomWith, GnuSymbolOk;
    var t', n := GnuAdd(t, name), |t.names|;
    Evened(GnuHash(name));
    forall i | t.symOffset <= i < n
      ensures GnuSymbolOk(t', i)
    {
      OldSymbol(t, name, i);
    }
    NewSymbol(t, name);
  }

  /** A symbol that was in the table stays found. */
  lemma OldSymbol(t: GnuTable, name: Name, i: nat)
    requires WellFormedGnu(t) && t.symOffset <= i < |t.names| && BucketOrder(t.(names := t.names + [name]))
    ensures GnuSymbolOk(GnuAdd(t, name), i)
  {
    hide GnuHash, BloomHas, BloomWith, BucketOrder;
    var t', h, h' := GnuAdd(t, name), GnuHash(name), GnuHash(t.names[i]);
    assert GnuSymbolOk(t, i);
    BloomKeeps(t, h, h');
    SameBloom(t', t.(bloom := t'.bloom), h');
    Evened(t.chain[i - t.symOffset]);
    if !LastIn(t, BucketOf(t, name)) { NewBucket(t, name, i); }
    assert t'.bucket[h' % |t.bucket|] == t.bucket[h' % |t.bucket|];
    assert t'.names[i] == t.names[i];
    forall j | t.bucket[h' % |t.bucket|] <= j < i
      ensures !Ends(t', j)
    {
      assert !Ends(t, j);
    }
  }

  lemma NewSymbol(t: GnuTable, name: Name)
    requires WellFormedGnu(t)
    ensures GnuSymbolOk(GnuAdd(t, name), |t.names|)
  {
    hide GnuHash, BloomHas, BloomWith;
    var t', h, n := GnuAdd(t, name), GnuHash(name), |t.names|;
    BloomKeeps(t, h, h);
    SameBloom(t', t.(bloom := t'.bloom), h);
    Evened(h);
    assert t'.names[n] == name;
    if LastIn(t, BucketOf(t, name)) {
      assert GnuSymbolOk(t, n - 1);
      Evened(t.chain[n - 1 - t.symOffset]);
      forall j | t.bucket[h % |t.bucket|] <= j < n
        ensures !Ends(t', j)
      {
        if j < n - 1 { assert !Ends(t, j); }
      }
    }
  }

  lemma Evened(x: nat)
    ensures x / 2 * 2 / 2 == x / 2 && x / 2 * 2 % 2 == 0 && (x / 2 * 2 + 1) / 2 == x / 2 && (x / 2 * 2 + 1) % 2 == 1
  {
  }

  lemma SameBloom(t: GnuTable, u: GnuTable, h: Word)
    requires t.bits == u.bits > 0 && t.bloom == u.bloom != [] && t.bloomShift == u.bloomShift
    ensures BloomHas(t, h) <==> BloomHas(u, h)
  {
  }

  /** No earlier symbol is in a bucket that a new symbol opens. */
  lemma NewBucket(t: GnuTable, name: Name, i: nat)
    requires t.bucket != [] && t.symOffset <= i < |t.names| && !LastIn(t, BucketOf(t, name))
    requires BucketOrder(t.(names := t.names + [name]))
    ensures BucketOf(t, t.names[i]) != BucketOf(t, name)
  {
    hide GnuHash;
    var u, n := t.(names := t.names + [name]), |t.names|;
    assert u.names[n] == name && u.names[i] == t.names[i] && u.names[n - 1] == t.names[n - 1];
    assert BucketOf(u, u.names[i]) <= BucketOf(u, u.names[n - 1]) <= BucketOf(u, u.names[n]);
  }

  /** The table of some unhashed symbols, the null symbol among them, and no hashed one. */
  function GnuEmpty(unhashed: seq<Name>, buckets: nat, bits: nat, words: nat, shift: nat): GnuTable {
    GnuTable(unhashed, |unhashed|, bits, seq<nat>(words, _ => 0), shift, seq<nat>(buckets, _ => 0), [])
  }

  function GnuBuilt(unhashed: seq<Name>, names: seq<Name>, buckets: nat, bits: nat, words: nat, shift: nat)
    : (t: GnuTable)
    requires buckets > 0 && bits > 0 && words > 0
    ensures t.bits == bits && |t.bloom| == words && |t.bucket| == buckets && t.symOffset == |unhashed|
    ensures t.names == unhashed + names && |t.chain| == |names|
  {
    if names == [] then GnuEmpty(unhashed, buckets, bits, words, shift)
    else
      var n := |names| - 1;
      assert names[..n] + [names[n]] == names;
      GnuAdd(GnuBuilt(unhashed, names[..n], buckets, bits, words, shift), names[n])
  }

  /** Tables built in the order of the buckets are well-formed, so lookups in them agree with the scan. */
  lemma {:induction false} GnuBuiltIsWellFormed(unhashed: seq<Name>, names: seq<Name>, buckets: nat, bits: nat,
      words: nat, shift: nat)
    requires buckets > 0 && bits > 0 && words > 0 && unhashed != []
    requires forall i, j :: 0 <= i < j < |names| ==> GnuHash(names[i]) % buckets <= GnuHash(names[j]) % buckets
    ensures WellFormedGnu(GnuBuilt(unhashed, names, buckets, bits, words, shift))
    decreases |names|
  {
    hide GnuHash, GnuAdd;
    if names != [] {
      var n := |names| - 1;
      GnuBuiltIsWellFormed(unhashed, names[..n], buckets, bits, words, shift);
      var t := GnuBuilt(unhashed, names[..n], buckets, bits, words, shift);
      assert names[..n] + [names[n]] == names;
      GnuAddKeeps(t, names[n]);
    }
  }

  /** The table of the null symbol and of the name "a", whose hash is 177670: with three buckets, three 64-bit Bloom
      words and the shift 6. Its bits are 6 and 24 of the second word. */
  lemma GnuTableSample()
    ensures GnuBuilt([[]], [[97]], 3, 64, 3, 6) ==
      GnuTable([[], [97]], 1, 64, [0, 0x100_0040, 0], 6, [0, 1, 0], [177671])
  {
    hide GnuHash, BitOr, Shl, Shr;
    GnuHashSamples();
    var t := GnuEmpty([[]], 3, 64, 3, 6);
    assert t.bloom == [0, 0, 0] && t.bucket == [0, 0, 0];
    assert [[97]][..0] == [] && t == GnuBuilt([[]], [[97]][..0], 3, 64, 3, 6);
    assert Shr(177670, 6) == 2776 by { SampleShift(); }
    assert BitOr(BitOr(0, Shl(1, 6)), Shl(1, 24)) == 0x100_0040 by { SampleBits(); }
    assert GnuAdd(t, [97]) == GnuTable([[], [97]], 1, 64, [0, 0x100_0040, 0], 6, [0, 1, 0], [177671]);
  }

  lemma SampleShift()
    ensures Shr(177670, 6) == 2776
  {
    assert Shr(177670, 6) == Shr(44417, 4) == Shr(11104, 2) == Shr(2776, 0);
  }

  lemma SampleBits()
    ensures BitOr(BitOr(0, Shl(1, 6)), Shl(1, 24)) == 0x100_0040
  {
    hide BitOr, Shl;
    Powers();
    ZeroBitOr(64);
    ShlLinear(1, 24);
    ShlZero(24);
    ShlZero(24);
    BitOrSplit(0, 64, 1, 0, 24);
    ZeroBitOr(1);
    BitOrZero(64);
  }

  // ----- the System V table -----

  datatype SysvTable = SysvTable(names: seq<Name>, bucket: seq<nat>, chain: seq<nat>)

  /** `s` lists a chain up to its end, symbol 0. */
  predicate Lists(chain: seq<nat>, head: nat, s: seq<nat>)
    decreases |s|
  {
    if s == [] then head == 0 else head == s[0] && 0 < head < |chain| && Lists(chain, chain[head], s[1..])
  }

  /** Every chain ends, and every symbol but the null one is in the chain of its hash. */
  ghost predicate ListedSysv(t: SysvTable, lists: seq<seq<nat>>) {
    && t.bucket != [] && |t.chain| == |t.names| && |lists| == |t.bucket|
    && (forall b :: 0 <= b < |lists| ==> Lists(t.chain, t.bucket[b], lists[b]))
    && (forall i :: 1 <= i < |t.names| ==> i in lists[SysvHash(t.names[i]) % |t.bucket|])
  }

  ghost predicate WellFormedSysv(t: SysvTable) { exists lists :: ListedSysv(t, lists) }

  /** `xh_elf_hash_lookup`: on a well-formed table with unique names it is the scan past the null symbol. */
  method SysvLookup(t: SysvTable, name: Name) returns (r: Option<nat>)
    requires WellFormedSysv(t) && t.names != []
    ensures UniqueNames(t.names, 1) ==> r == Scan(t.names, name, 1, |t.names|)
    ensures r.Some? ==> 1 <= r.value < |t.names| && t.names[r.value] == name
    ensures r.None? ==> forall i :: 1 <= i < |t.names| ==> t.names[i] != name
  {
    hide SysvHash, Scan;
    ghost var lists :| ListedSysv(t, lists);
    ghost var b := SysvHash(name) % |t.bucket|;
    var i := t.bucket[SysvHash(name) % |t.bucket|];
    ghost var s: seq<nat> := lists[b];
    ScanIs(t.names, name, 1, |t.names|);
    while i != 0
      invariant Lists(t.chain, i, s)
      invariant forall k :: k in lists[b] && k !in s ==> 0 < k < |t.names| && t.names[k] != name
      decreases |s|
    {
      if t.names[i] == name {
        return Some(i);
      }
      assert forall k :: k in s ==> k == i || k in s[1..];
      i := t.chain[i];
      s := s[1..];
    }
    r := None;
    forall k | 1 <= k < |t.names|
      ensures t.names[k] != name
    {
      assert k in lists[SysvHash(t.names[k]) % |t.bucket|];
    }
  }

  /** How a linker adds a symbol: at the head of its chain. */
  function Add(t: SysvTable, name: Name): SysvTable
    requires t.bucket != []
  {
    var b := SysvHash(name) % |t.bucket|;
    SysvTable(t.names + [name], t.bucket[b := |t.names|], t.chain + [t.bucket[b]])
  }

  function Built(names: seq<Name>, buckets: nat): SysvTable
    requires buckets > 0
    ensures |Built(names, buckets).bucket| == buckets
  {
    if names == [] then SysvTable([[]], seq<nat>(buckets, _ => 0), [0])
    else Add(Built(names[..|names| - 1], buckets), names[|names| - 1])
  }

  lemma {:induction false} ListsGrow(chain: seq<nat>, head: nat, s: seq<nat>, x: nat)
    requires Lists(chain, head, s)
    ensures Lists(chain + [x], head, s)
    decreases |s|
  {
    if s != [] { ListsGrow(chain, chain[head], s[1..], x); }
  }

  /** Tables built that way are well-formed, so lookups in them agree with the scan. */
  lemma {:induction false} BuiltIsListed(names: seq<Name>, buckets: nat) returns (lists: seq<seq<nat>>)
    requires buckets > 0
    ensures ListedSysv(Built(names, buckets), lists) && Built(names, buckets).names == [[]] + names
  {
    hide SysvHash;
    if names == [] {
      lists := seq(buckets, _ => []);
    } else {
      var n, name := |names| - 1, names[|names| - 1];
      var was := BuiltIsListed(names[..n], buckets);
      var t := Built(names[..n], buckets);
      var b := SysvHash(name) % buckets;
      lists := was[b := [|t.names|] + was[b]];
      var t' := Add(t, name);
      forall c | 0 <= c < buckets
        ensures Lists(t'.chain, t'.bucket[c], lists[c])
      {
        ListsGrow(t.chain, t.bucket[c], was[c], t.bucket[b]);
        if c == b { assert lists[b][1..] == was[b]; }
      }
      assert [[]] + names == ([[]] + names[..n]) + [name];
    }
  }
  /** The null symbol, "a" and "d", whose hashes are 97 and 100, in three buckets: both are in the second, "d" first. */
  lemma SysvTableSample()
    ensures Built([[97], [100]], 3) == SysvTable([[], [97], [100]], [0, 2, 0], [0, 0, 1])
  {
    hide SysvHash;
    OneByteHash(97);
    OneByteHash(100);
    var names: seq<Name> := [[97], [100]];
    assert names[..1] == [[97]] && [[97]][..0] == [];
    assert Built([], 3) == SysvTable([[]], [0, 0, 0], [0]);
    assert Built([[97]], 3) == Add(Built([], 3), [97]) == SysvTable([[], [97]], [0, 1, 0], [0, 0]);
    assert Built(names, 3) == Add(Built([[97]], 3), [100]);
  }

  lemma OneByteHash(c: Byte)
    ensures SysvHash([c]) == c
  {
    hide BitAnd, BitXor;
    assert [c][1..] == [];
    SysvNextIs(0, c);
    var t: int := c;
    assert t % 0x1_0000_0000 == t && t / 0x1000_0000 == 0 && t % 0x1000_0000 == t && t / 16 % 16 == t / 16;
    XorZero(t / 16);
    assert SysvNext(0, c) == c;
    assert SysvHashFrom([], c) == c && SysvHashFrom([c], 0) == SysvHashFrom([c][1..], SysvNext(0, [c][0]));
  }
}

/** Packed relocations: the signed LEB128 decoder and the iterator over relocation groups. */
module PackedReloc {
  import opened Words

  /** The width of `size_t` and the number of its values. */
  function Bits(lp64: bool): nat { if lp64 then 64 else 32 }

  function Modulus(lp64: bool): nat { if lp64 then 0x1_0000_0000_0000_0000 else 0x1_0000_0000 }

  /** A value reduced to `size_t`. */
  function Wrap(lp64: bool, x: int): nat { x % Modulus(lp64) }

  // ----- signed LEB128 -----

  /** The decoder from a position on. The bits that `|=` merges never overlap, so merging is adding; bits shifted out
      of the word are lost. */
  function DecodeFrom(lp64: bool, code: seq<Byte>, value: nat, shift: nat): Option<(nat, nat)> {
    if code == [] then None
    else
      var b: int := code[0];
      var v := Wrap(lp64, value + b % 128 * Shl(1, shift));
      if b >= 128 then
        var rest := DecodeFrom(lp64, code[1..], v, shift + 7);
        if rest.None? then None else Some((rest.value.0, rest.value.1 + 1))
      else if shift + 7 < Bits(lp64) && b % 128 >= 64 then Some((Wrap(lp64, v - Shl(1, shift + 7)), 1))
      else Some((v, 1))
  }

  /** The decoded value and its length; `None` at the end of the input. */
  function Decode(lp64: bool, code: seq<Byte>): Option<(nat, nat)> { DecodeFrom(lp64, code, 0, 0) }

  lemma {:induction false} DecodeFits(lp64: bool, code: seq<Byte>, value: nat, shift: nat)
    ensures var d := DecodeFrom(lp64, code, value, shift);
      d.Some? ==> 0 < d.value.1 <= |code| && d.value.0 < Modulus(lp64)
  {
    if code != [] {
      var b: int := code[0];
      DecodeFits(lp64, code[1..], Wrap(lp64, value + b % 128 * Shl(1, shift)), shift + 7);
    }
  }

  /** `b` is a signed LEB128 encoding of `v`, padded or not (section 7.6 of DWARF 4). */
  predicate IsSleb(b: seq<Byte>, v: int) {
    b != [] &&
    if |b| == 1 then b[0] < 128 && v == Signed(b[0], 64)
    else b[0] >= 128 && v % 128 == b[0] % 128 && IsSleb(b[1..], v / 128)
  }

  lemma ModAdd(a: int, c: int, m: nat)
    requires m > 0
    ensures (a % m + c) % m == (a + c) % m
  {
    var q := a / m;
    assert a == q * m + a % m;
    ModMultiple(a % m + c, q, m);
  }

  lemma ModMultiple(a: int, q: int, m: nat)
    requires m > 0
    ensures (a + q * m) % m == a % m
  {
    var k, r := a / m, a % m;
    assert a == k * m + r;
    assert a + q * m == (k + q) * m + r;
    ModUnique(a + q * m, k + q, r, m);
  }

  lemma AtLeast(d: int, m: nat)
    requires d >= 1
    ensures d * m >= m
  {
  }

  lemma ModUnique(a: int, q: int, r: int, m: nat)
    requires m > 0 && a == q * m + r && 0 <= r < m
    ensures a % m == r
  {
    var k := a / m;
    assert (k - q) * m == r - a % m;
    if k > q { AtLeast(k - q, m); }
    if k < q { AtLeast(q - k, m); }
  }

  lemma ShlModulus(lp64: bool)
    ensures Shl(1, Bits(lp64)) == Modulus(lp64)
  {
    ShlValues();
    ShlShl(1, 32, 32);
    ShlLinear(0x1_0000_0000, 32);
  }

  /** A weight past the word's width vanishes. */
  lemma WeightVanishes(lp64: bool, shift: nat) returns (q: nat)
    requires shift >= Bits(lp64)
    ensures Shl(1, shift) == q * Modulus(lp64)
  {
    ShlModulus(lp64);
    ShlShl(1, shift - Bits(lp64), Bits(lp64));
    q := Shl(1, shift - Bits(lp64));
    ShlLinear(q, Bits(lp64));
  }

  lemma ShlSevenMore(shift: nat)
    ensures Shl(1, shift + 7) == 128 * Shl(1, shift)
  {
    ShlShl(1, shift, 7);
    var p := Shl(1, shift);
    assert Shl(p, 1) == 2 * p;
    assert Shl(p, 2) == 4 * p;
    assert Shl(p, 4) == 16 * p;
    assert Shl(p, 6) == 64 * p;
  }

  /** The last byte: with the sign extension, or with its top bits lost, it stands for its signed value. */
  lemma LastByte(lp64: bool, b: Byte, rest: seq<Byte>, value: nat, shift: nat)
    requires b < 128
    ensures DecodeFrom(lp64, [b] + rest, value, shift) == Some((Wrap(lp64, value + Signed(b, 64) * Shl(1, shift)), 1))
  {
    var p, m := Shl(1, shift), Modulus(lp64);
    ShlSevenMore(shift);
    assert b % 128 == b;
    if b >= 64 {
      assert Signed(b, 64) * p == b * p - 128 * p;
      if shift + 7 < Bits(lp64) {
        var c: int := 128 * p;
        ModAdd(value + b * p, -c, m);
      } else {
        var q: int := WeightVanishes(lp64, shift + 7);
        assert value + b * p + (-q) * m == value + b * p - 128 * p;
        ModMultiple(value + b * p, -q, m);
      }
    }
  }

  /** Decoding any encoding of any integer gives that integer modulo 2^64 (or 2^32) and takes exactly its bytes. */
  lemma {:induction false} Decodes(lp64: bool, b: seq<Byte>, v: int, rest: seq<Byte>, value: nat, shift: nat)
    requires IsSleb(b, v)
    ensures DecodeFrom(lp64, b + rest, value, shift) == Some((Wrap(lp64, value + v * Shl(1, shift)), |b|))
    decreases |b|
  {
    if |b| == 1 {
      assert b + rest == [b[0]] + rest;
      LastByte(lp64, b[0], rest, value, shift);
    } else {
      var p, m := Shl(1, shift), Modulus(lp64);
      var low: int := b[0] % 128;
      var next := Wrap(lp64, value + low * p);
      assert (b + rest)[1..] == b[1..] + rest && (b + rest)[0] == b[0];
      Decodes(lp64, b[1..], v / 128, rest, next, shift + 7);
      ShlSevenMore(shift);
      Weigh(v, low, p);
      ModAdd(value + low * p, v / 128 * (128 * p), m);
    }
  }

  lemma Weigh(v: int, low: int, p: nat)
    requires v % 128 == low
    ensures v / 128 * (128 * p) + low * p == v * p
  {
    assert v == v / 128 * 128 + low;
    assert v * p == (v / 128 * 128 + low) * p == v / 128 * 128 * p + low * p;
  }

  /** The shortest encoding. */
  function Sleb(v: int): seq<Byte>
    decreases if v >= 0 then v else -v - 1
  {
    if -64 <= v < 64 then [v % 128] else [128 + v % 128] + Sleb(v / 128)
  }

  lemma {:induction false} SlebIs(v: int)
    ensures IsSleb(Sleb(v), v)
    decreases if v >= 0 then v else -v - 1
  {
    if !(-64 <= v < 64) {
      SlebIs(v / 128);
      assert Sleb(v)[1..] == Sleb(v / 128);
    }
  }

  /** A `size_t` as the encoder writes it: its signed reading. */
  function Field(lp64: bool, x: nat): seq<Byte> { Sleb(Signed(x, Modulus(lp64) / 2)) }

  /** Signed LEB128 decoding inverts encoding for every value of the word, and advances by exactly its length. */
  lemma FieldRoundTrip(lp64: bool, x: nat, rest: seq<Byte>)
    requires x < Modulus(lp64)
    ensures Decode(lp64, Field(lp64, x) + rest) == Some((x, |Field(lp64, x)|))
    ensures (Field(lp64, x) + rest)[|Field(lp64, x)|..] == rest
  {
    hide DecodeFrom, IsSleb, Sleb;
    var v := Signed(x, Modulus(lp64) / 2);
    SlebIs(v);
    Decodes(lp64, Field(lp64, x), v, rest, 0, 0);
    assert v * Shl(1, 0) == v;
    assert Wrap(lp64, v) == x;
  }

  // ----- the iterator, as a function of its state -----

  /** A relocation; entries without addends carry addend 0. */
  datatype Rela = Rela(offset: nat, info: nat, addend: nat)

  /** The fields of the iterator; `rest` is what the decoder has not read yet. */
  datatype It = It(rest: seq<Byte>, count: nat, groupSize: nat, flags: nat, delta: nat, index: nat, groupIndex: nat,
                   offset: nat, info: nat, addend: nat)

  predicate ByInfo(flags: nat) { flags % 2 == 1 }
  predicate ByOffsetDelta(flags: nat) { flags / 2 % 2 == 1 }
  predicate ByAddend(flags: nat) { flags / 4 % 2 == 1 }
  predicate HasAddend(flags: nat) { flags / 8 % 2 == 1 }

  /** The flags are the bits 1, 2, 4 and 8. */
  lemma FlagsAreBits(flags: nat)
    ensures ByInfo(flags) <==> BitAnd(flags, 1) != 0
    ensures ByOffsetDelta(flags) <==> BitAnd(flags, 2) != 0
    ensures ByAddend(flags) <==> BitAnd(flags, 4) != 0
    ensures HasAddend(flags) <==> BitAnd(flags, 8) != 0
  {
    hide BitAnd, Shl;
    Powers();
    AndOne(flags);
    FlagBit(flags, 1, 2);
    FlagBit(flags, 2, 4);
    FlagBit(flags, 3, 8);
  }

  lemma FlagBit(flags: nat, k: nat, p: nat)
    requires p == Shl(1, k) && p > 0
    ensures BitAnd(flags, p) == flags / p % 2 * p
  {
    hide BitAnd, Shl;
    AndSplit(flags, flags / p, flags % p, k, p, 1, 0);
    AndOne(flags / p);
    BitAndZero(flags % p);
  }

  /** One decoded value and the bytes after it. */
  function Read(lp64: bool, code: seq<Byte>): Option<(nat, seq<Byte>)> {
    var d := Decode(lp64, code);
    DecodeFits(lp64, code, 0, 0);
    if d.None? then None else Some((d.value.0, code[d.value.1..]))
  }

  function ReadInto(lp64: bool, when: bool, old_: nat, code: seq<Byte>): Option<(nat, seq<Byte>)> {
    if when then Read(lp64, code) else Some((old_, code))
  }

  /** The fields of the next group. */
  function ReadGroup(lp64: bool, rela: bool, it: It): Option<It> {
    var size := Read(lp64, it.rest);
    if size.None? then None
    else
      var flags := Read(lp64, size.value.1);
      if flags.None? then None
      else
        var f := flags.value.0;
        var delta := ReadInto(lp64, ByOffsetDelta(f), it.delta, flags.value.1);
        if delta.None? then None
        else
          var info := ReadInto(lp64, ByInfo(f), it.info, delta.value.1);
          if info.None? then None
          else
            var it1 := it.(groupSize := size.value.0, flags := f, delta := delta.value.0, info := info.value.0,
                rest := info.value.1, groupIndex := 0);
            if HasAddend(f) && ByAddend(f) then
              if !rela then None
              else
                var a := Read(lp64, it1.rest);
                if a.None? then None else Some(it1.(addend := Wrap(lp64, it.addend + a.value.0), rest := a.value.1))
            else Some(if HasAddend(f) then it1 else it1.(addend := 0))
  }

  /** The fields of the next entry. */
  function ReadEntry(lp64: bool, rela: bool, it: It): Option<It> {
    var delta := ReadInto(lp64, !ByOffsetDelta(it.flags), it.delta, it.rest);
    if delta.None? then None
    else
      var info := ReadInto(lp64, !ByInfo(it.flags), it.info, delta.value.1);
      if info.None? then None
      else
        var a := ReadInto(lp64, rela && HasAddend(it.flags) && !ByAddend(it.flags), 0, info.value.1);
        if a.None? then None
        else Some(it.(offset := Wrap(lp64, it.offset + delta.value.0), info := info.value.0,
                      addend := Wrap(lp64, it.addend + a.value.0), rest := a.value.1,
                      index := it.index + 1, groupIndex := it.groupIndex + 1))
  }

  /** `next`: an entry and the new state, or nothing. */
  function NextOf(lp64: bool, rela: bool, it: It): Option<(Rela, It)> {
    if it.index >= it.count then None
    else
      var it1 := if it.groupIndex == it.groupSize then ReadGroup(lp64, rela, it) else Some(it);
      if it1.None? then None
      else
        var it2 := ReadEntry(lp64, rela, it1.value);
        if it2.None? then None
        else Some((Rela(it2.value.offset, it2.value.info, if rela then it2.value.addend else 0), it2.value))
  }

  lemma NextAdvances(lp64: bool, rela: bool, it: It)
    ensures var n := NextOf(lp64, rela, it);
      n.Some? ==> n.value.1.index == it.index + 1 && n.value.1.count == it.count && it.index < it.count
  {
  }

  /** Everything the iterator yields before its first null. */
  function Drain(lp64: bool, rela: bool, it: It): seq<Rela>
    decreases it.count - it.index
  {
    var n := NextOf(lp64, rela, it);
    NextAdvances(lp64, rela, it);
    if n.None? then [] else [n.value.0] + Drain(lp64, rela, n.value.1)
  }

  function Init(lp64: bool, code: seq<Byte>): Option<It> {
    var count := Read(lp64, code);
    if count.None? then None
    else
      var offset := Read(lp64, count.value.1);
      if offset.None? then None
      else Some(It(offset.value.1, count.value.0, 0, 0, 0, 0, 0, offset.value.0, 0, 0))
  }

  // ----- the encoder -----

  datatype Group = Group(byInfo: bool, byDelta: bool, byAddend: bool, hasAddend: bool, relocs: seq<Rela>)

  function FlagsOf(g: Group): nat {
    (if g.byInfo then 1 else 0) + (if g.byDelta then 2 else 0) + (if g.byAddend then 4 else 0) + (if g.hasAddend
        then 8 else 0)
  }

  function FieldIf(lp64: bool, when: bool, x: nat): seq<Byte> { if when then Field(lp64, x) else [] }

  /** The entries of a group after an entry with this offset and addend. */
  function EncodeEntries(lp64: bool, rela: bool, g: Group, rs: seq<Rela>, offset: nat, addend: nat): seq<Byte> {
    if rs == [] then []
    else
      var r := rs[0];
      FieldIf(lp64, !g.byDelta, Wrap(lp64, r.offset - offset))
      + (FieldIf(lp64, !g.byInfo, r.info)
      + (FieldIf(lp64, rela && g.hasAddend && !g.byAddend, Wrap(lp64, r.addend - addend))
      + EncodeEntries(lp64, rela, g, rs[1..], r.offset, r.addend)))
  }

  function GroupAddend(g: Group, addend: nat): nat
    requires g.relocs != []
  {
    if !g.hasAddend then 0 else if g.byAddend then g.relocs[0].addend else addend
  }

  function EncodeGroup(lp64: bool, rela: bool, g: Group, offset: nat, addend: nat): seq<Byte>
    requires g.relocs != []
  {
    var r := g.relocs[0];
    Field(lp64, Wrap(lp64, |g.relocs|)) + (Field(lp64, FlagsOf(g))
    + (FieldIf(lp64, g.byDelta, Wrap(lp64, r.offset - offset))
    + (FieldIf(lp64, g.byInfo, r.info)
    + (FieldIf(lp64, g.hasAddend && g.byAddend, Wrap(lp64, r.addend - addend))
    + EncodeEntries(lp64, rela, g, g.relocs, offset, GroupAddend(g, addend))))))
  }

  /** The entries agree with what the group holds in common, and addends appear only where there are any. */
  predicate Uniform(lp64: bool, g: Group, rs: seq<Rela>, offset: nat, delta: nat, info: nat, addend: nat) {
    rs != [] ==>
      var r := rs[0];
      && r.offset < Modulus(lp64) && r.info < Modulus(lp64) && r.addend < Modulus(lp64)
      && (g.byDelta ==> Wrap(lp64, r.offset - offset) == delta)
      && (g.byInfo ==> r.info == info)
      && (!g.hasAddend || g.byAddend ==> r.addend == addend)
      && Uniform(lp64, g, rs[1..], r.offset, delta, info, addend)
  }

  predicate Groupable(lp64: bool, rela: bool, g: Group, offset: nat, addend: nat) {
    && 0 < |g.relocs| < Modulus(lp64) && (!rela ==> !g.hasAddend)
    && var r := g.relocs[0];
    Uniform(lp64, g, g.relocs, offset, Wrap(lp64, r.offset - offset), r.info, GroupAddend(g, addend))
  }

  function LastOffset(rs: seq<Rela>, offset: nat): nat { if rs == [] then offset else rs[|rs| - 1].offset }

  function LastAddend(rs: seq<Rela>, addend: nat): nat { if rs == [] then addend else rs[|rs| - 1].addend }

  function EncodeGroups(lp64: bool, rela: bool, gs: seq<Group>, offset: nat, addend: nat): seq<Byte>
    requires AllGroupable(lp64, rela, gs, offset, addend)
  {
    if gs == [] then []
    else
      var g := gs[0];
      EncodeGroup(lp64, rela, g, offset, addend)
      + EncodeGroups(lp64, rela, gs[1..], LastOffset(g.relocs, offset), LastAddend(g.relocs, addend))
  }

  predicate AllGroupable(lp64: bool, rela: bool, gs: seq<Group>, offset: nat, addend: nat) {
    gs != [] ==>
      Groupable(lp64, rela, gs[0], offset, addend)
      && AllGroupable(lp64, rela, gs[1..], LastOffset(gs[0].relocs, offset), LastAddend(gs[0].relocs, addend))
  }

  function Relocs(gs: seq<Group>): seq<Rela> {
    if gs == [] then [] else gs[0].relocs + Relocs(gs[1..])
  }

  /** The whole section: the number of entries, the base offset and the groups. */
  function Encode(lp64: bool, rela: bool, gs: seq<Group>, offset: nat): seq<Byte>
    requires AllGroupable(lp64, rela, gs, offset, 0)
  {
    Field(lp64, Wrap(lp64, |Relocs(gs)|)) + (Field(lp64, offset) + EncodeGroups(lp64, rela, gs, offset, 0))
  }

  // ----- the round trip -----

  lemma ReadField(lp64: bool, x: nat, rest: seq<Byte>)
    requires x < Modulus(lp64)
    ensures Read(lp64, Field(lp64, x) + rest) == Some((x, rest))
  {
    FieldRoundTrip(lp64, x, rest);
  }

  lemma ReadFieldIf(lp64: bool, when: bool, x: nat, old_: nat, rest: seq<Byte>)
    requires x < Modulus(lp64)
    ensures ReadInto(lp64, when, old_, FieldIf(lp64, when, x) + rest) == Some((if when then x else old_, rest))
  {
    if when { ReadField(lp64, x, rest); } else { assert [] + rest == rest; }
  }

  lemma WrapBack(lp64: bool, a: nat, b: nat)
    requires b < Modulus(lp64)
    ensures Wrap(lp64, a + Wrap(lp64, b - a)) == b
  {
    ModAdd(b - a, a, Modulus(lp64));
  }

  lemma FlagBits(g: Group)
    ensures FlagsOf(g) < 16
    ensures ByInfo(FlagsOf(g)) == g.byInfo && ByOffsetDelta(FlagsOf(g)) == g.byDelta
    ensures ByAddend(FlagsOf(g)) == g.byAddend && HasAddend(FlagsOf(g)) == g.hasAddend
  {
  }

  /** The state agrees with what the group holds in common. */
  predicate Common(g: Group, it: It, delta: nat, info: nat, addend: nat) {
    && it.flags == FlagsOf(g) && (g.byDelta ==> it.delta == delta) && (g.byInfo ==> it.info == info)
    && (!g.hasAddend || g.byAddend ==> it.addend == addend)
  }

  /** The state after an entry `r`. */
  function After(it: It, r: Rela, rest: seq<Byte>): It {
    it.(offset := r.offset, info := r.info, addend := r.addend, rest := rest, index := it.index + 1,
        groupIndex := it.groupIndex + 1)
  }

  lemma Assoc(a: seq<Byte>, b: seq<Byte>, c: seq<Byte>, d: seq<Byte>, e: seq<Byte>)
    ensures (a + (b + (c + d))) + e == a + (b + (c + (d + e)))
  {
  }

  lemma EntriesUnfold(lp64: bool, rela: bool, g: Group, rs: seq<Rela>, offset: nat, addend: nat)
    requires rs != []
    ensures var r := rs[0];
      EncodeEntries(lp64, rela, g, rs, offset, addend) ==
        FieldIf(lp64, !g.byDelta, Wrap(lp64, r.offset - offset)) + (FieldIf(lp64, !g.byInfo, r.info)
        + (FieldIf(lp64, rela && g.hasAddend && !g.byAddend, Wrap(lp64, r.addend - addend))
        + EncodeEntries(lp64, rela, g, rs[1..], r.offset, r.addend)))
  {
    hide Wrap, FieldIf;
  }

  lemma EntryBytes(lp64: bool, rela: bool, g: Group, rs: seq<Rela>, offset: nat, addend: nat, tail: seq<Byte>)
    requires rs != []
    ensures var r := rs[0];
      EncodeEntries(lp64, rela, g, rs, offset, addend) + tail ==
        FieldIf(lp64, !g.byDelta, Wrap(lp64, r.offset - offset)) + (FieldIf(lp64, !g.byInfo, r.info)
        + (FieldIf(lp64, rela && g.hasAddend && !g.byAddend, Wrap(lp64, r.addend - addend))
        + (EncodeEntries(lp64, rela, g, rs[1..], r.offset, r.addend) + tail)))
  {
    hide Wrap, FieldIf, EncodeEntries;
    var r := rs[0];
    EntriesUnfold(lp64, rela, g, rs, offset, addend);
    Assoc(FieldIf(lp64, !g.byDelta, Wrap(lp64, r.offset - offset)), FieldIf(lp64, !g.byInfo, r.info),
      FieldIf(lp64, rela && g.hasAddend && !g.byAddend, Wrap(lp64, r.addend - addend)),
      EncodeEntries(lp64, rela, g, rs[1..], r.offset, r.addend), tail);
  }

  /** Reading the three optional fields of an entry. */
  lemma EntryFrom(lp64: bool, rela: bool, it: It, x: nat, s1: seq<Byte>, y: nat, s2: seq<Byte>, z: nat, s3: seq<Byte>)
    requires ReadInto(lp64, !ByOffsetDelta(it.flags), it.delta, it.rest) == Some((x, s1))
    requires ReadInto(lp64, !ByInfo(it.flags), it.info, s1) == Some((y, s2))
    requires ReadInto(lp64, rela && HasAddend(it.flags) && !ByAddend(it.flags), 0, s2) == Some((z, s3))
    ensures ReadEntry(lp64, rela, it) == Some(it.(offset := Wrap(lp64, it.offset + x), info := y,
      addend := Wrap(lp64, it.addend + z),
      rest := s3, index := it.index + 1, groupIndex := it.groupIndex + 1))
  {
    hide ReadInto, Wrap, ByOffsetDelta, ByInfo, HasAddend, ByAddend;
  }

  lemma UniformFirst(lp64: bool, g: Group, rs: seq<Rela>, offset: nat, delta: nat, info: nat, addend: nat)
    requires rs != [] && Uniform(lp64, g, rs, offset, delta, info, addend)
    ensures var r := rs[0];
      && r.offset < Modulus(lp64) && r.info < Modulus(lp64) && r.addend < Modulus(lp64)
      && (g.byDelta ==> Wrap(lp64, r.offset - offset) == delta)
      && (g.byInfo ==> r.info == info)
      && (!g.hasAddend || g.byAddend ==> r.addend == addend)
      && Uniform(lp64, g, rs[1..], r.offset, delta, info, addend)
  {
  }

  lemma WrapSmall(lp64: bool, x: int)
    ensures Wrap(lp64, x) < Modulus(lp64)
  {
  }

  /** One entry. */
  lemma EntryRoundTrip(lp64: bool, rela: bool, g: Group, rs: seq<Rela>, it: It, delta: nat, info: nat, addend: nat,
      tail: seq<Byte>)
    requires rs != [] && (!rela ==> !g.hasAddend) && Common(g, it, delta, info, addend)
    requires Uniform(lp64, g, rs, it.offset, delta, info, addend)
    requires it.rest == EncodeEntries(lp64, rela, g, rs, it.offset, it.addend) + tail
    ensures var rest := EncodeEntries(lp64, rela, g, rs[1..], rs[0].offset, rs[0].addend) + tail;
      ReadEntry(lp64, rela, it) == Some(After(it, rs[0], rest))
  {
    hide ReadInto, FieldIf, EncodeEntries, Uniform, FlagsOf, ByInfo, ByOffsetDelta, ByAddend, HasAddend, Wrap;
    hide Modulus, ReadEntry;
    var r := rs[0];
    UniformFirst(lp64, g, rs, it.offset, delta, info, addend);
    FlagBits(g);
    EntryBytes(lp64, rela, g, rs, it.offset, it.addend, tail);
    var rest := EncodeEntries(lp64, rela, g, rs[1..], r.offset, r.addend) + tail;
    var withAddend := rela && g.hasAddend && !g.byAddend;
    var d, e := Wrap(lp64, r.offset - it.offset), Wrap(lp64, r.addend - it.addend);
    WrapSmall(lp64, r.offset - it.offset);
    WrapSmall(lp64, r.addend - it.addend);
    var b := FieldIf(lp64, withAddend, e) + rest;
    var c := FieldIf(lp64, !g.byInfo, r.info) + b;
    ReadFieldIf(lp64, !g.byDelta, d, it.delta, c);
    ReadFieldIf(lp64, !g.byInfo, r.info, it.info, b);
    ReadFieldIf(lp64, withAddend, e, 0, rest);
    EntryFrom(lp64, rela, it, d, c, r.info, b, if withAddend then e else 0, rest);
    WrapBack(lp64, it.offset, r.offset);
    Addends(lp64, it.addend, r.addend, withAddend);
  }

  lemma Addends(lp64: bool, a: nat, b: nat, read: bool)
    requires b < Modulus(lp64) && (!read ==> a == b)
    ensures Wrap(lp64, a + if read then Wrap(lp64, b - a) else 0) == b
  {
    WrapBack(lp64, a, b);
  }

  lemma GroupBytes(lp64: bool, rela: bool, g: Group, offset: nat, addend: nat, tail: seq<Byte>)
    requires g.relocs != []
    ensures var r := g.relocs[0];
      EncodeGroup(lp64, rela, g, offset, addend) + tail ==
        Field(lp64, Wrap(lp64, |g.relocs|)) + (Field(lp64, FlagsOf(g))
        + (FieldIf(lp64, g.byDelta, Wrap(lp64, r.offset - offset))
        + (FieldIf(lp64, g.byInfo, r.info)
        + (FieldIf(lp64, g.hasAddend && g.byAddend, Wrap(lp64, r.addend - addend))
        + (EncodeEntries(lp64, rela, g, g.relocs, offset, GroupAddend(g, addend)) + tail)))))
  {
    hide Wrap, FieldIf, Field, EncodeEntries, FlagsOf;
    var r := g.relocs[0];
    var e := EncodeEntries(lp64, rela, g, g.relocs, offset, GroupAddend(g, addend));
    var d := FieldIf(lp64, g.hasAddend && g.byAddend, Wrap(lp64, r.addend - addend));
    var c := FieldIf(lp64, g.byInfo, r.info);
    var b := FieldIf(lp64, g.byDelta, Wrap(lp64, r.offset - offset));
    Assoc(b, c, d, e, tail);
    AssocTwo(Field(lp64, Wrap(lp64, |g.relocs|)), Field(lp64, FlagsOf(g)), b + (c + (d + e)), tail);
  }

  lemma AssocTwo(a: seq<Byte>, b: seq<Byte>, c: seq<Byte>, d: seq<Byte>)
    ensures (a + (b + c)) + d == a + (b + (c + d))
  {
  }

  lemma GroupFrom(lp64: bool, rela: bool, it: It, n: nat, s1: seq<Byte>, f: nat, s2: seq<Byte>, x: nat, s3: seq<Byte>,
      y: nat, s4: seq<Byte>)
    requires Read(lp64, it.rest) == Some((n, s1)) && Read(lp64, s1) == Some((f, s2))
    requires ReadInto(lp64, ByOffsetDelta(f), it.delta, s2) == Some((x, s3))
      && ReadInto(lp64, ByInfo(f), it.info, s3) == Some((y, s4))
    requires HasAddend(f) && ByAddend(f) ==> rela
    ensures var it1 := it.(groupSize := n, flags := f, delta := x, info := y, groupIndex := 0, rest := s4);
      && (HasAddend(f) && ByAddend(f) && Read(lp64, s4).Some? ==>
            ReadGroup(lp64, rela, it) == Some(it1.(addend := Wrap(lp64, it.addend + Read(lp64, s4).value.0),
                rest := Read(lp64, s4).value.1)))
      && (HasAddend(f) && !ByAddend(f) ==> ReadGroup(lp64, rela, it) == Some(it1))
      && (!HasAddend(f) ==> ReadGroup(lp64, rela, it) == Some(it1.(addend := 0)))
  {
    hide ReadInto, Read, Wrap, ByOffsetDelta, ByInfo, HasAddend, ByAddend;
  }

  /** The state at the first entry of a group. */
  function Opened(lp64: bool, rela: bool, g: Group, it: It, tail: seq<Byte>): It
    requires g.relocs != []
  {
    var r, addend := g.relocs[0], GroupAddend(g, it.addend);
    it.(groupSize := |g.relocs|, flags := FlagsOf(g), delta := if g.byDelta then Wrap(lp64, r.offset - it.offset)
        else it.delta,
        info := if g.byInfo then r.info else it.info, addend := addend, groupIndex := 0,
        rest := EncodeEntries(lp64, rela, g, g.relocs, it.offset, addend) + tail)
  }

  /** The fields of a group. */
  lemma GroupRoundTrip(lp64: bool, rela: bool, g: Group, it: It, tail: seq<Byte>)
    requires Groupable(lp64, rela, g, it.offset, it.addend)
    requires it.rest == EncodeGroup(lp64, rela, g, it.offset, it.addend) + tail
    ensures ReadGroup(lp64, rela, it) == Some(Opened(lp64, rela, g, it, tail))
  {
    hide ReadInto, FieldIf, EncodeEntries, EncodeGroup, Uniform, FlagsOf, ByInfo, ByOffsetDelta, ByAddend, HasAddend;
    hide Wrap, Field, Read, ReadGroup, Modulus;
    var r, f := g.relocs[0], FlagsOf(g);
    var delta, addend, da := Wrap(lp64, r.offset - it.offset), GroupAddend(g, it.addend),
        Wrap(lp64, r.addend - it.addend);
    UniformFirst(lp64, g, g.relocs, it.offset, delta, r.info, addend);
    GroupBytes(lp64, rela, g, it.offset, it.addend, tail);
    var e := EncodeEntries(lp64, rela, g, g.relocs, it.offset, addend) + tail;
    var a := FieldIf(lp64, g.hasAddend && g.byAddend, da) + e;
    var b := FieldIf(lp64, g.byInfo, r.info) + a;
    var c := FieldIf(lp64, g.byDelta, delta) + b;
    var d := Field(lp64, f) + c;
    FlagBits(g);
    FlagSmall(lp64, g);
    SmallWrap(lp64, |g.relocs|);
    WrapSmall(lp64, r.offset - it.offset);
    ReadField(lp64, |g.relocs|, d);
    ReadField(lp64, f, c);
    ReadFieldIf(lp64, g.byDelta, delta, it.delta, b);
    ReadFieldIf(lp64, g.byInfo, r.info, it.info, a);
    GroupAddends(lp64, g, it.addend, r.addend, e);
    GroupFrom(lp64, rela, it, |g.relocs|, d, f, c, if g.byDelta then delta else it.delta, b, if g.byInfo then r.info
        else it.info, a);
  }

  lemma FlagSmall(lp64: bool, g: Group)
    ensures FlagsOf(g) < Modulus(lp64)
  {
  }

  lemma SmallWrap(lp64: bool, x: nat)
    requires x < Modulus(lp64)
    ensures Wrap(lp64, x) == x
  {
  }

  lemma GroupAddends(lp64: bool, g: Group, a: nat, b: nat, rest: seq<Byte>)
    requires b < Modulus(lp64)
    ensures g.hasAddend && g.byAddend ==>
      Read(lp64, FieldIf(lp64, true, Wrap(lp64, b - a)) + rest) == Some((Wrap(lp64, b - a), rest))
          && Wrap(lp64, a + Wrap(lp64, b - a)) == b
    ensures !(g.hasAddend && g.byAddend) ==> FieldIf(lp64, false, Wrap(lp64, b - a)) + rest == rest
  {
    ReadField(lp64, Wrap(lp64, b - a), rest);
    WrapBack(lp64, a, b);
  }

  lemma NextInGroup(lp64: bool, rela: bool, it: It, start: It, end: It)
    requires it.index < it.count && (if it.groupIndex == it.groupSize then ReadGroup(lp64, rela, it) == Some(start)
      else it == start)
    requires ReadEntry(lp64, rela, start) == Some(end)
    ensures Drain(lp64, rela, it) == [Rela(end.offset, end.info, if rela then end.addend else 0)] + Drain(lp64, rela,
      end)
  {
    hide ReadGroup, ReadEntry;
  }

  /** The entries of a group come out in order; `it` is the state before the group's first or any later entry. */
  lemma {:induction false} DrainEntries(lp64: bool, rela: bool, g: Group, rs: seq<Rela>, it: It, delta: nat,
      info: nat, addend: nat, tail: seq<Byte>)
    returns (end: It)
    requires (!rela ==> !g.hasAddend && addend == 0) && Common(g, it, delta, info, addend)
      && Uniform(lp64, g, rs, it.offset, delta, info, addend)
    requires it.rest == EncodeEntries(lp64, rela, g, rs, it.offset, it.addend) + tail
    requires it.groupIndex + |rs| == it.groupSize && it.index + |rs| <= it.count
    ensures Drain(lp64, rela, it) == rs + Drain(lp64, rela, end)
    ensures Ended(it, end, rs, tail)
    decreases |rs|
  {
    hide Uniform, EncodeEntries, Drain, ReadEntry, Modulus;
    if rs == [] {
      NoEntries(lp64, rela, g, it.offset, it.addend, tail);
      end := it;
      assert [] + Drain(lp64, rela, it) == Drain(lp64, rela, it);
    } else {
      EntryRoundTrip(lp64, rela, g, rs, it, delta, info, addend, tail);
      UniformFirst(lp64, g, rs, it.offset, delta, info, addend);
      var next := After(it, rs[0], EncodeEntries(lp64, rela, g, rs[1..], rs[0].offset, rs[0].addend) + tail);
      NextInGroup(lp64, rela, it, it, next);
      end := DrainEntries(lp64, rela, g, rs[1..], next, delta, info, addend, tail);
      Prepend(rs, Drain(lp64, rela, end));
    }
  }

  /** The state after the entries `rs` of a group. */
  predicate Ended(it: It, end: It, rs: seq<Rela>, tail: seq<Byte>) {
    && end.rest == tail && end.groupIndex == end.groupSize && end.count == it.count && end.index == it.index + |rs|
    && end.offset == LastOffset(rs, it.offset) && end.addend == LastAddend(rs, it.addend)
  }

  lemma Prepend(rs: seq<Rela>, s: seq<Rela>)
    requires rs != []
    ensures [rs[0]] + (rs[1..] + s) == rs + s
  {
  }

  lemma NoEntries(lp64: bool, rela: bool, g: Group, offset: nat, addend: nat, tail: seq<Byte>)
    ensures EncodeEntries(lp64, rela, g, [], offset, addend) + tail == tail
  {
  }

  /** A whole group: its fields, its first entry and the others. */
  lemma DrainGroup(lp64: bool, rela: bool, g: Group, it: It, tail: seq<Byte>) returns (end: It)
    requires Groupable(lp64, rela, g, it.offset, it.addend) && it.groupIndex == it.groupSize
      && it.index + |g.relocs| <= it.count
    requires it.rest == EncodeGroup(lp64, rela, g, it.offset, it.addend) + tail
    ensures Drain(lp64, rela, it) == g.relocs + Drain(lp64, rela, end)
    ensures Ended(it, end, g.relocs, tail)
  {
    hide Uniform, EncodeEntries, EncodeGroup, Drain, ReadEntry, ReadGroup, Modulus, Wrap, FlagsOf;
    GroupRoundTrip(lp64, rela, g, it, tail);
    var rs, start := g.relocs, Opened(lp64, rela, g, it, tail);
    var delta, info, addend := Wrap(lp64, rs[0].offset - it.offset), rs[0].info, start.addend;
    EntryRoundTrip(lp64, rela, g, rs, start, delta, info, addend, tail);
    UniformFirst(lp64, g, rs, it.offset, delta, info, addend);
    var next := After(start, rs[0], EncodeEntries(lp64, rela, g, rs[1..], rs[0].offset, rs[0].addend) + tail);
    NextInGroup(lp64, rela, it, start, next);
    end := DrainEntries(lp64, rela, g, rs[1..], next, delta, info, addend, tail);
    Prepend(rs, Drain(lp64, rela, end));
  }

  lemma {:induction false} DrainGroups(lp64: bool, rela: bool, gs: seq<Group>, it: It)
    requires AllGroupable(lp64, rela, gs, it.offset, it.addend) && it.groupIndex == it.groupSize
    requires it.rest == EncodeGroups(lp64, rela, gs, it.offset, it.addend) && it.index + |Relocs(gs)| == it.count
    ensures Drain(lp64, rela, it) == Relocs(gs)
    decreases |gs|
  {
    hide EncodeGroup, Groupable;
    if gs != [] {
      var g := gs[0];
      var offset, addend := LastOffset(g.relocs, it.offset), LastAddend(g.relocs, it.addend);
      var end := DrainGroup(lp64, rela, g, it, EncodeGroups(lp64, rela, gs[1..], offset, addend));
      DrainGroups(lp64, rela, gs[1..], end);
    }
  }

  /** Packed relocations round-trip: iterating over an encoded section yields exactly its relocations, in order, and
      then nothing, for any grouping into non-empty groups and any mix of group flags. */
  lemma PackedRoundTrip(lp64: bool, rela: bool, gs: seq<Group>, offset: nat)
    requires AllGroupable(lp64, rela, gs, offset, 0) && offset < Modulus(lp64) && |Relocs(gs)| < Modulus(lp64)
    ensures var it := Init(lp64, Encode(lp64, rela, gs, offset));
      it.Some? && Drain(lp64, rela, it.value) == Relocs(gs)
  {
    hide EncodeGroups, AllGroupable, Relocs, Field, Read, Drain;
    var n, groups := |Relocs(gs)|, EncodeGroups(lp64, rela, gs, offset, 0);
    SmallWrap(lp64, n);
    ReadField(lp64, n, Field(lp64, offset) + groups);
    ReadField(lp64, offset, groups);
    DrainGroups(lp64, rela, gs, It(groups, n, 0, 0, 0, 0, 0, offset, 0, 0));
  }

  lemma SmallFields(lp64: bool)
    ensures forall x: nat :: x < 64 ==> Field(lp64, x) == [x]
    ensures Field(lp64, Wrap(lp64, -1)) == [127]
  {
    assert Wrap(lp64, -1) == Modulus(lp64) - 1;
    assert Signed(Modulus(lp64) - 1, Modulus(lp64) / 2) == -1;
    assert (-1) % 128 == 127;
    forall x: nat | x < 64
      ensures Field(lp64, x) == [x]
    {
      assert Signed(x, Modulus(lp64) / 2) == x;
    }
  }

  /** A section in bytes: three relocations from 0x10 on, two in a group that shares the distance 8, the type 23 and
      the addend 5, and one on its own 16 further, of type 7 and with 1 less as its addend. */
  lemma PackedSample()
    ensures var it := Init(true, [3, 16, 2, 15, 8, 23, 5, 1, 8, 16, 7, 127]);
      it.Some? && Drain(true, true, it.value) == [Rela(0x18, 23, 5), Rela(0x20, 23, 5), Rela(0x30, 7, 4)]
  {
    hide Field, Init, Drain, Groupable, EncodeGroup;
    var first := Group(true, true, true, true, [Rela(0x18, 23, 5), Rela(0x20, 23, 5)]);
    var second := Group(false, false, false, true, [Rela(0x30, 7, 4)]);
    SmallFields(true);
    FirstSample(first);
    SecondSample(second);
    SampleGroups(first, second);
    PackedRoundTrip(true, true, [first, second], 0x10);
    assert [3] + ([16] + ([2, 15, 8, 23, 5] + [1, 8, 16, 7, 127])) == [3, 16, 2, 15, 8, 23, 5, 1, 8, 16, 7, 127];
    assert Encode(true, true, [first, second], 0x10) == [3, 16, 2, 15, 8, 23, 5, 1, 8, 16, 7, 127];
  }

  lemma SampleGroups(g: Group, h: Group)
    requires Groupable(true, true, g, 0x10, 0) && EncodeGroup(true, true, g, 0x10, 0) == [2, 15, 8, 23, 5]
    requires Groupable(true, true, h, 0x20, 5) && EncodeGroup(true, true, h, 0x20, 5) == [1, 8, 16, 7, 127]
    requires g.relocs == [Rela(0x18, 23, 5), Rela(0x20, 23, 5)] && h.relocs == [Rela(0x30, 7, 4)]
    ensures AllGroupable(true, true, [g, h], 0x10, 0)
    ensures EncodeGroups(true, true, [g, h], 0x10, 0) == [2, 15, 8, 23, 5] + [1, 8, 16, 7, 127]
    ensures Relocs([g, h]) == [Rela(0x18, 23, 5), Rela(0x20, 23, 5), Rela(0x30, 7, 4)]
  {
    hide Groupable, EncodeGroup;
    var gs := [g, h];
    assert gs[1..] == [h] && [h][1..] == [];
    assert AllGroupable(true, true, [h][1..], 0x30, 4) && Relocs([h][1..]) == [];
    assert AllGroupable(true, true, [h], 0x20, 5) && Relocs([h]) == h.relocs;
    assert AllGroupable(true, true, gs, 0x10, 0);
    assert EncodeGroups(true, true, [h][1..], 0x30, 4) == [];
    assert EncodeGroups(true, true, [h], 0x20, 5) == [1, 8, 16, 7, 127];
  }

  lemma FirstSample(g: Group)
    requires g == Group(true, true, true, true, [Rela(0x18, 23, 5), Rela(0x20, 23, 5)])
    ensures Groupable(true, true, g, 0x10, 0) && EncodeGroup(true, true, g, 0x10, 0) == [2, 15, 8, 23, 5]
  {
    hide Field, Signed;
    SmallFields(true);
    var rs := g.relocs;
    assert rs[1..] == [rs[1]] && rs[1..][1..] == [];
    assert EncodeEntries(true, true, g, rs[1..], 0x18, 5) == [];
    assert Uniform(true, g, rs[1..], 0x18, 8, 23, 5);
  }

  lemma SecondSample(g: Group)
    requires g == Group(false, false, false, true, [Rela(0x30, 7, 4)])
    ensures Groupable(true, true, g, 0x20, 5) && EncodeGroup(true, true, g, 0x20, 5) == [1, 8, 16, 7, 127]
  {
    hide Field, Signed;
    SmallFields(true);
    assert g.relocs[1..] == [];
    assert EncodeEntries(true, true, g, g.relocs[1..], 0x30, 4) == [];
    assert EncodeEntries(true, true, g, g.relocs, 0x20, 5) == [16, 7, 127];
  }

  // ----- the machine -----

  /** `xh_elf_sleb128_decoder_t`: a cursor into the section. */
  class Decoder {
    const lp64: bool
    const data: seq<Byte>
    var cur: nat

    constructor (lp64: bool, data: seq<Byte>)
      ensures this.lp64 == lp64 && this.data == data && cur == 0
    {
      this.lp64, this.data, cur := lp64, data, 0;
    }

    ghost predicate Valid()
      reads this
    {
      cur <= |data|
    }

    ghost function Rest(): seq<Byte>
      requires Valid()
      reads this
    {
      data[cur..]
    }

    /** `xh_elf_sleb128_decoder_next`. */
    method Next() returns (ret: Option<nat>)
      requires Valid()
      modifies this
      ensures Valid() && ret.Some? == Read(lp64, old(Rest())).Some?
      ensures ret.Some? ==> Read(lp64, old(Rest())) == Some((ret.value, Rest()))
    {
      hide DecodeFrom, Wrap;
      var value: nat, shift: nat := 0, 0;
      ghost var rest := Rest();
      var more, byte: int := true, 0;
      while more
        invariant Valid() && old(cur) <= cur
        invariant more ==> Decode(lp64, rest) == Later(DecodeFrom(lp64, Rest(), value, shift), cur - old(cur))
        invariant !more ==>
          0 <= byte < 128 && shift >= 7 && Decode(lp64, rest)
          == Some((Extended(lp64, value, shift, byte), cur - old(cur)))
        decreases |data| - cur, more
      {
        DecodeStep(lp64, Rest(), value, shift);
        if cur >= |data| {
          return None;
        }
        byte := data[cur];
        assert Rest()[0] == data[cur] && Rest()[1..] == data[cur + 1..];
        cur := cur + 1;
        value := Wrap(lp64, value + byte % 128 * Shl(1, shift));
        shift := shift + 7;
        more := byte >= 128;
      }
      if shift < Bits(lp64) && byte % 128 >= 64 {
        value := Wrap(lp64, value - Shl(1, shift));
      }
      assert rest[cur - old(cur)..] == Rest();
      return Some(value);
    }

    /** `if(when) next(&field)`. */
    method NextIf(when: bool, was: nat) returns (ret: Option<nat>)
      requires Valid()
      modifies this
      ensures Valid() && ret.Some? == ReadInto(lp64, when, was, old(Rest())).Some?
      ensures ret.Some? ==> ReadInto(lp64, when, was, old(Rest())) == Some((ret.value, Rest()))
    {
      if when {
        hide Read;
        ret := Next();
      } else {
        ret := Some(was);
      }
    }
  }

  lemma DecodeStep(lp64: bool, code: seq<Byte>, value: nat, shift: nat)
    ensures code == [] ==> DecodeFrom(lp64, code, value, shift) == None
    ensures code != [] ==>
      var b: int := code[0];
      var v := Wrap(lp64, value + b % 128 * Shl(1, shift));
      DecodeFrom(lp64, code, value, shift) ==
        if b >= 128 then Later(DecodeFrom(lp64, code[1..], v, shift + 7), 1)
            else Some((Extended(lp64, v, shift + 7, b), 1))
  {
  }

  function Extended(lp64: bool, value: nat, shift: nat, byte: int): nat {
    if shift < Bits(lp64) && byte % 128 >= 64 then Wrap(lp64, value - Shl(1, shift)) else value
  }

  ghost function Later(d: Option<(nat, nat)>, used: nat): Option<(nat, nat)> {
    if d.None? then None else Some((d.value.0, used + d.value.1))
  }

  /** `xh_elf_packed_reloc_iterator_t`. */
  class Iterator {
    const decoder: Decoder
    const isUseRela: bool
    var relocationCount: nat
    var groupSize: nat
    var groupFlags: nat
    var groupOffsetDelta: nat
    var relocationIndex: nat
    var relocationGroupIndex: nat
    var rOffset: nat
    var rInfo: nat
    var rAddend: nat

    constructor (lp64: bool, data: seq<Byte>, isUseRela: bool)
      ensures decoder.lp64 == lp64 && decoder.data == data && decoder.cur == 0 && this.isUseRela == isUseRela
        && fresh(decoder)
      ensures Now() == It(data, 0, 0, 0, 0, 0, 0, 0, 0, 0)
    {
      decoder := new Decoder(lp64, data);
      this.isUseRela := isUseRela;
      relocationCount, groupSize, groupFlags, groupOffsetDelta, relocationIndex, relocationGroupIndex := 0, 0, 0, 0,
          0, 0;
      rOffset, rInfo, rAddend := 0, 0, 0;
      new;
      assert data[0..] == data;
    }

    ghost function Now(): It
      requires decoder.Valid()
      reads this, decoder
    {
      It(decoder.Rest(), relocationCount, groupSize, groupFlags, groupOffsetDelta, relocationIndex,
          relocationGroupIndex, rOffset, rInfo, rAddend)
    }

    /** `xh_elf_packed_reloc_iterator_init`, after the fields were cleared. */
    method Initialise() returns (ok: bool)
      requires decoder.cur == 0 && Now() == It(decoder.data, 0, 0, 0, 0, 0, 0, 0, 0, 0)
      modifies this, decoder
      ensures decoder.Valid() && ok == Init(decoder.lp64, decoder.data).Some?
      ensures ok ==> Now() == Init(decoder.lp64, decoder.data).value
    {
      hide Read;
      assert decoder.Rest() == decoder.data;
      var count := decoder.Next();
      if count.None? { return false; }
      relocationCount := count.value;
      var offset := decoder.Next();
      if offset.None? { return false; }
      rOffset := offset.value;
      ok := true;
    }

    /** `xh_elf_packed_reloc_iterator_read_group_fields`. */
    method ReadGroupFields() returns (ok: bool)
      requires decoder.Valid()
      modifies this, decoder
      ensures decoder.Valid() && ok == ReadGroup(decoder.lp64, isUseRela, old(Now())).Some?
      ensures ok ==> Now() == ReadGroup(decoder.lp64, isUseRela, old(Now())).value
    {
      hide Read, ReadInto, Wrap, ByOffsetDelta, ByInfo, HasAddend, ByAddend;
      var size := decoder.Next();
      if size.None? { return false; }
      groupSize := size.value;
      var flags := decoder.Next();
      if flags.None? { return false; }
      groupFlags := flags.value;
      var delta := decoder.NextIf(ByOffsetDelta(groupFlags), groupOffsetDelta);
      if delta.None? { return false; }
      groupOffsetDelta := delta.value;
      var info := decoder.NextIf(ByInfo(groupFlags), rInfo);
      if info.None? { return false; }
      rInfo := info.value;
      if HasAddend(groupFlags) && ByAddend(groupFlags) {
        if !isUseRela { return false; }
        var val := decoder.Next();
        if val.None? { return false; }
        rAddend := Wrap(decoder.lp64, rAddend + val.value);
      } else if !HasAddend(groupFlags) {
        rAddend := 0;
      }
      relocationGroupIndex := 0;
      ok := true;
    }

    /** The part of `next` that reads one entry. */
    method ReadOne() returns (ok: bool)
      requires decoder.Valid()
      modifies this, decoder
      ensures decoder.Valid() && ok == ReadEntry(decoder.lp64, isUseRela, old(Now())).Some?
      ensures ok ==> Now() == ReadEntry(decoder.lp64, isUseRela, old(Now())).value
    {
      hide Read, ReadInto, Wrap, ByOffsetDelta, ByInfo, HasAddend, ByAddend;
      var delta := decoder.NextIf(!ByOffsetDelta(groupFlags), groupOffsetDelta);
      if delta.None? { return false; }
      rOffset := Wrap(decoder.lp64, rOffset + delta.value);
      var info := decoder.NextIf(!ByInfo(groupFlags), rInfo);
      if info.None? { return false; }
      rInfo := info.value;
      var addend := decoder.NextIf(isUseRela && HasAddend(groupFlags) && !ByAddend(groupFlags), 0);
      if addend.None? { return false; }
      rAddend := Wrap(decoder.lp64, rAddend + addend.value);
      relocationIndex := relocationIndex + 1;
      relocationGroupIndex := relocationGroupIndex + 1;
      ok := true;
    }

    /** `xh_elf_packed_reloc_iterator_next`; after the last entry the state stays as it is. */
    method Next() returns (r: Option<Rela>)
      requires decoder.Valid()
      modifies this, decoder
      ensures decoder.Valid() && r.Some? == NextOf(decoder.lp64, isUseRela, old(Now())).Some?
      ensures r.Some? ==> NextOf(decoder.lp64, isUseRela, old(Now())) == Some((r.value, Now()))
      ensures old(relocationIndex) >= old(relocationCount) ==> Now() == old(Now())
    {
      hide ReadGroup, ReadEntry;
      if relocationIndex >= relocationCount { return None; }
      if relocationGroupIndex == groupSize {
        var ok := ReadGroupFields();
        if !ok { return None; }
      }
      var ok := ReadOne();
      if !ok { return None; }
      return Some(Rela(rOffset, rInfo, if isUseRela then rAddend else 0));
    }
  }
}

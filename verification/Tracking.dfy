/** What the allocation tracker records, as values: buckets of records, newest first, and the calls that change them. */
module Tracking {
  import Words

  const BUCKETS := 0x1_0000

  /** A record of a live block: its address, its size as 32 bits, and the stored return addresses. */
  datatype Record = Record(addr: nat, size: nat, trace: seq<nat>)

  type Buckets = b: seq<seq<Record>> | |b| == BUCKETS witness seq(BUCKETS, _ => [])

  /** `(address >> ADDR_HASH_OFFSET) & 0xFFFF`; `granule` is 64 on 64-bit targets and 16 on 32-bit ones. */
  function Hash(granule: nat, a: nat): nat
    requires granule > 0
    ensures Hash(granule, a) < BUCKETS
  {
    a / granule % 0x1_0000
  }

  /** As the source computes it, with the two shifts. */
  lemma HashIs(a: nat)
    ensures Hash(64, a) == Words.BitAnd(Words.Shr(a, 6), 0xffff)
    ensures Hash(16, a) == Words.BitAnd(Words.Shr(a, 4), 0xffff)
  {
    hide Words.BitAnd, Words.Shr;
    assert Words.Shr(a, 4) == a / 16 && Words.Shr(a, 6) == a / 64 by { Shifts(a); }
    LowHalf(a / 16);
    LowHalf(a / 64);
  }

  lemma Shifts(a: nat)
    ensures Words.Shr(a, 4) == a / 16 && Words.Shr(a, 6) == a / 64
  {
    assert a / 2 / 2 == a / 4 && a / 4 / 2 == a / 8 && a / 8 / 2 == a / 16;
    assert a / 16 / 2 == a / 32 && a / 32 / 2 == a / 64;
    assert Words.Shr(a, 4) == Words.Shr(a / 4, 2) == Words.Shr(a / 16, 0);
    assert Words.Shr(a, 6) == Words.Shr(a / 4, 4) == Words.Shr(a / 16, 2) == Words.Shr(a / 64, 0);
  }

  lemma LowHalf(x: nat)
    ensures Words.BitAnd(x, 0xffff) == x % 0x1_0000
  {
    hide Words.BitAnd, Words.Shl;
    Words.Powers();
    Words.AndSplit(x, x / 0x1_0000, x % 0x1_0000, 16, 0x1_0000, 0, 0xffff);
    Words.AndOnes(x, 16, 0x1_0000);
    Words.BitAndZero(x / 0x1_0000);
  }

  /** The records of one address, newest first. */
  function Of(s: seq<Record>, a: nat): seq<Record> {
    if s == [] then [] else if s[0].addr == a then [s[0]] + Of(s[1..], a) else Of(s[1..], a)
  }

  /** The records without the newest one of an address. */
  function Dropped(s: seq<Record>, a: nat): seq<Record> {
    if s == [] then [] else if s[0].addr == a then s[1..] else [s[0]] + Dropped(s[1..], a)
  }

  /** Removing deletes the newest record of its address and leaves those of other addresses. */
  lemma {:induction false} DroppedNewest(s: seq<Record>, a: nat)
    ensures Of(Dropped(s, a), a) == if Of(s, a) == [] then [] else Of(s, a)[1..]
    ensures forall c :: c != a ==> Of(Dropped(s, a), c) == Of(s, c)
  {
    if s != [] {
      var d := Dropped(s[1..], a);
      DroppedNewest(s[1..], a);
      assert ([s[0]] + d)[1..] == d;
    }
  }

  /** The chain keeps its order: exactly one position is cut out, the first with the address. */
  lemma {:induction false} DroppedAt(s: seq<Record>, a: nat, k: nat)
    requires k < |s| && s[k].addr == a && forall i :: 0 <= i < k ==> s[i].addr != a
    ensures Dropped(s, a) == s[..k] + s[k + 1..] && Of(s, a) != [] && Of(s, a)[0] == s[k]
  {
    if k == 0 {
      assert s[..0] + s[0 + 1..] == s[1..];
    } else {
      DroppedAt(s[1..], a, k - 1);
      CutShift(s, k);
    }
  }

  lemma CutShift(s: seq<Record>, k: nat)
    requires 0 < k < |s|
    ensures [s[0]] + (s[1..][..k - 1] + s[1..][k..]) == s[..k] + s[k + 1..]
  {
    assert s[1..][..k - 1] == s[1..k] && s[1..][k..] == s[k + 1..];
    assert [s[0]] + s[1..k] == s[..k];
  }

  lemma {:induction false} NothingDropped(s: seq<Record>, a: nat)
    requires forall i :: 0 <= i < |s| ==> s[i].addr != a
    ensures Dropped(s, a) == s
  {
    if s != [] { NothingDropped(s[1..], a); }
  }

  lemma {:induction false} OfAppend(s: seq<Record>, t: seq<Record>, a: nat)
    ensures Of(s + t, a) == Of(s, a) + Of(t, a)
  {
    if s == [] {
      assert s + t == t;
    } else {
      OfAppend(s[1..], t, a);
      assert (s + t)[1..] == s[1..] + t;
    }
  }

  // ----- the report -----

  /** The order in which `print` walks the chains. */
  function Walk(b: seq<seq<Record>>): seq<Record> {
    if b == [] then [] else b[0] + Walk(b[1..])
  }

  /** Every record sits in the bucket of its own address. */
  ghost predicate Placed(granule: nat, b: Buckets)
    requires granule > 0
  {
    forall i: int, k: int :: 0 <= i < BUCKETS && 0 <= k < |b[i]| ==> Hash(granule, b[i][k].addr) == i
  }

  lemma {:induction false} Elsewhere(s: seq<Record>, a: nat)
    requires forall k :: 0 <= k < |s| ==> s[k].addr != a
    ensures Of(s, a) == []
  {
    if s != [] { Elsewhere(s[1..], a); }
  }

  lemma {:induction false} WalkOf(granule: nat, b: seq<seq<Record>>, a: nat, from: nat)
    requires granule > 0 && forall i: int, k: int :: 0 <= i < |b| && 0 <= k < |b[i]| ==>
      Hash(granule, b[i][k].addr) == from + i
    ensures Of(Walk(b), a) == if from <= Hash(granule, a) < from + |b| then Of(b[Hash(granule, a) - from], a) else []
    decreases |b|
  {
    hide Hash;
    if b != [] {
      OfAppend(b[0], Walk(b[1..]), a);
      var rest: seq<seq<Record>>, next := b[1..], from + 1;
      forall i, k | 0 <= i < |rest| && 0 <= k < |rest[i]|
        ensures Hash(granule, rest[i][k].addr) == next + i
      {
        var j := i + 1;
        assert rest[i] == b[j];
      }
      WalkOf(granule, rest, a, next);
      if Hash(granule, a) != from {
        forall k | 0 <= k < |b[0]|
          ensures b[0][k].addr != a
        {
          assert Hash(granule, b[0][k].addr) == from + 0;
        }
        Elsewhere(b[0], a);
      }
    }
  }

  // ----- the calls -----

  /** Fixed configuration: blocks of at least `limit` bytes are tracked; addresses are grouped by `granule`. */
  datatype Config = Config(limit: nat, granule: nat)

  /** A hooked call with what the original function returned; 0 is the null pointer. */
  datatype Call =
    | Malloc(size: nat, result: nat, trace: seq<nat>)
    | Calloc(count: nat, bytes: nat, result: nat, trace: seq<nat>)
    | Realloc(ptr: nat, size: nat, result: nat, trace: seq<nat>)
    | Memalign(size: nat, result: nat, trace: seq<nat>)
    | Free(ptr: nat)

  /** A live block: its size, and the return addresses of the call that last allocated it. */
  datatype Block = Block(size: nat, trace: seq<nat>)

  function Low32(x: nat): nat { x % 0x1_0000_0000 }

  /** What the allocator promises: a result is null or not live, and only live blocks are freed or reallocated. */
  predicate Allowed(live: map<nat, Block>, c: Call) {
    match c
    case Realloc(ptr, _, result, _) => (ptr != 0 ==> ptr in live) && (result == 0 || result == ptr || result !in live)
    case Free(ptr) => ptr != 0 ==> ptr in live
    case _ => c.result == 0 || c.result !in live
  }

  /** Sizes below 2^32. */
  predicate Small(c: Call) {
    match c
    case Malloc(size, _, _) => size < 0x1_0000_0000
    case Calloc(count, bytes, _, _) => count * bytes < 0x1_0000_0000
    case Realloc(_, size, _, _) => size < 0x1_0000_0000
    case Memalign(size, _, _) => size < 0x1_0000_0000
    case Free(_) => true
  }

  function With(live: map<nat, Block>, a: nat, size: nat, trace: seq<nat>): map<nat, Block> {
    if a == 0 then live else live[a := Block(size, trace)]
  }

  /** The live blocks after a call: a failed `realloc` keeps its block, one of size 0 releases it. */
  function LiveAfter(live: map<nat, Block>, c: Call): map<nat, Block> {
    match c
    case Malloc(size, result, trace) => With(live, result, size, trace)
    case Calloc(count, bytes, result, trace) => With(live, result, count * bytes, trace)
    case Realloc(ptr, size, result, trace) =>
      With(if size == 0 || result != 0 then live - {ptr} else live, result, size, trace)
    case Memalign(size, result, trace) => With(live, result, size, trace)
    case Free(ptr) => live - {ptr}
  }

  function Inserted(g: Config, b: Buckets, a: nat, size: nat, trace: seq<nat>): Buckets
    requires g.granule > 0
  {
    var h := Hash(g.granule, a);
    b[h := [Record(a, Low32(size), trace)] + b[h]]
  }

  function Removed(g: Config, b: Buckets, a: nat): Buckets
    requires g.granule > 0
  {
    var h := Hash(g.granule, a);
    b[h := Dropped(b[h], a)]
  }

  function InsertedIf(g: Config, b: Buckets, a: nat, size: nat, trace: seq<nat>): Buckets
    requires g.granule > 0
  {
    if a != 0 && size >= g.limit then Inserted(g, b, a, size, trace) else b
  }

  /** What the proxies do to the buckets, with tracking on, the guard clear and room in the pool. */
  function BucketsAfter(g: Config, b: Buckets, c: Call): Buckets
    requires g.granule > 0
  {
    match c
    case Malloc(size, result, trace) => InsertedIf(g, b, result, size, trace)
    case Calloc(count, bytes, result, trace) => InsertedIf(g, b, result, Low32(count * bytes), trace)
    case Realloc(ptr, size, result, trace) =>
      InsertedIf(g, if ptr != 0 && (size == 0 || result != 0) then Removed(g, b, ptr) else b, result, size, trace)
    case Memalign(size, result, trace) => InsertedIf(g, b, result, size, trace)
    case Free(ptr) => if ptr != 0 then Removed(g, b, ptr) else b
  }

  /** The records of an address are exactly one for a live block of at least `limit` bytes, and none otherwise. */
  ghost predicate TracksAt(g: Config, live: map<nat, Block>, b: Buckets, a: nat)
    requires g.granule > 0
  {
    var s := Of(b[Hash(g.granule, a)], a);
    if a in live && live[a].size >= g.limit then |s| == 1 && s[0].size == live[a].size && s[0].trace == live[a].trace
    else s == []
  }

  ghost predicate Tracks(g: Config, live: map<nat, Block>, b: Buckets)
    requires g.granule > 0
  {
    Placed(g.granule, b) && 0 !in live && forall a :: TracksAt(g, live, b, a)
  }

  lemma InsertTracks(g: Config, live: map<nat, Block>, b: Buckets, a: nat, size: nat, trace: seq<nat>)
    requires g.granule > 0 && Tracks(g, live, b) && size < 0x1_0000_0000 && a !in live
    ensures Tracks(g, With(live, a, size, trace), InsertedIf(g, b, a, size, trace))
  {
    var live', b' := With(live, a, size, trace), InsertedIf(g, b, a, size, trace);
    hide Hash;
    var h, r := Hash(g.granule, a), Record(a, Low32(size), trace);
    forall i, k | 0 <= i < BUCKETS && 0 <= k < |b'[i]|
      ensures Hash(g.granule, b'[i][k].addr) == i
    {
      if i == h && b' != b && k > 0 { assert b'[i][k] == b[i][k - 1]; }
    }
    assert TracksAt(g, live, b, a);
    forall c: nat
      ensures TracksAt(g, live', b', c)
    {
      assert TracksAt(g, live, b, c);
      assert ([r] + b[h])[1..] == b[h];
    }
  }

  lemma {:induction false} DroppedFrom(s: seq<Record>, a: nat)
    ensures forall r :: r in Dropped(s, a) ==> r in s
  {
    if s != [] { DroppedFrom(s[1..], a); }
  }

  lemma RemoveTracks(g: Config, live: map<nat, Block>, b: Buckets, a: nat)
    requires g.granule > 0 && Tracks(g, live, b)
    ensures Tracks(g, live - {a}, Removed(g, b, a))
  {
    hide Hash;
    var live', b' := live - {a}, Removed(g, b, a);
    var h := Hash(g.granule, a);
    DroppedFrom(b[h], a);
    DroppedNewest(b[h], a);
    forall i, k | 0 <= i < BUCKETS && 0 <= k < |b'[i]|
      ensures Hash(g.granule, b'[i][k].addr) == i
    {
      if i == h {
        assert b'[i][k] in b[i];
        var m :| 0 <= m < |b[i]| && b[i][m] == b'[i][k];
      }
    }
    forall c: nat
      ensures TracksAt(g, live', b', c)
    {
      assert TracksAt(g, live, b, c);
    }
  }

  /** One call keeps the chains equal to the live blocks. */
  lemma CallTracks(g: Config, live: map<nat, Block>, b: Buckets, c: Call)
    requires g.granule > 0 && Tracks(g, live, b) && Allowed(live, c) && Small(c)
    ensures Tracks(g, LiveAfter(live, c), BucketsAfter(g, b, c))
  {
    hide Tracks, Hash, Removed, InsertedIf;
    match c
    case Malloc(size, result, trace) => InsertOrNot(g, live, b, result, size, trace);
    case Calloc(count, bytes, result, trace) => InsertOrNot(g, live, b, result, count * bytes, trace);
    case Memalign(size, result, trace) => InsertOrNot(g, live, b, result, size, trace);
    case Free(ptr) =>
      if ptr != 0 { RemoveTracks(g, live, b, ptr); } else { NullNotLive(g, live, b); }
    case Realloc(ptr, size, result, trace) =>
      NullNotLive(g, live, b);
      if ptr != 0 && (size == 0 || result != 0) {
        RemoveTracks(g, live, b, ptr);
        InsertOrNot(g, live - {ptr}, Removed(g, b, ptr), result, size, trace);
      } else {
        InsertOrNot(g, live, b, result, size, trace);
      }
  }

  lemma NullNotLive(g: Config, live: map<nat, Block>, b: Buckets)
    requires g.granule > 0 && Tracks(g, live, b)
    ensures 0 !in live && live - {0} == live
  {
  }

  lemma InsertOrNot(g: Config, live: map<nat, Block>, b: Buckets, a: nat, size: nat, trace: seq<nat>)
    requires g.granule > 0 && Tracks(g, live, b) && size < 0x1_0000_0000 && (a == 0 || a !in live)
    ensures Tracks(g, With(live, a, size, trace), InsertedIf(g, b, a, size, trace))
  {
    NullNotLive(g, live, b);
    InsertTracks(g, live, b, a, size, trace);
  }

  /** The result of a call; null for `free`. */
  function ResultOf(c: Call): nat { if c.Free? then 0 else c.result }

  lemma WideInsertBreaks(g: Config, live: map<nat, Block>, b: Buckets, a: nat, size: nat, stored: nat, trace: seq<nat>)
    requires g.granule > 0 && g.limit < 0x1_0000 && Tracks(g, live, b)
    requires a != 0 && a !in live && size >= 0x1_0000_0000 && (stored == size || stored == Low32(size))
    ensures !Tracks(g, With(live, a, size, trace), InsertedIf(g, b, a, stored, trace))
  {
    hide Hash;
    var live', b' := With(live, a, size, trace), InsertedIf(g, b, a, stored, trace);
    var h, r := Hash(g.granule, a), Record(a, Low32(stored), trace);
    assert TracksAt(g, live, b, a);
    assert ([r] + b[h])[1..] == b[h];
    assert !TracksAt(g, live', b', a);
  }

  /** The record keeps 32 bits of the size, so a call keeps the chains equal to the live blocks exactly when its size
      is below 2^32 or it returned null. */
  lemma CallTracksIff(g: Config, live: map<nat, Block>, b: Buckets, c: Call)
    requires g.granule > 0 && g.limit < 0x1_0000 && Tracks(g, live, b) && Allowed(live, c)
    ensures Tracks(g, LiveAfter(live, c), BucketsAfter(g, b, c)) <==> Small(c) || ResultOf(c) == 0
  {
    hide Tracks, Hash, Removed;
    NullNotLive(g, live, b);
    if Small(c) {
      CallTracks(g, live, b, c);
    } else if c.result == 0 {
      if c.Realloc? {
        assert LiveAfter(live, c) == live && BucketsAfter(g, b, c) == b;
      }
    } else {
      match c
      case Malloc(size, result, trace) => WideInsertBreaks(g, live, b, result, size, size, trace);
      case Calloc(count, bytes, result, trace) => WideInsertBreaks(g, live, b, result, count * bytes,
          Low32(count * bytes), trace);
      case Memalign(size, result, trace) => WideInsertBreaks(g, live, b, result, size, size, trace);
      case Realloc(ptr, size, result, trace) =>
        if ptr != 0 {
          RemoveTracks(g, live, b, ptr);
          WideInsertBreaks(g, live - {ptr}, Removed(g, b, ptr), result, size, size, trace);
        } else {
          WideInsertBreaks(g, live, b, result, size, size, trace);
        }
    }
  }

  // ----- whole runs -----

  function LiveRun(live: map<nat, Block>, calls: seq<Call>): map<nat, Block>
    decreases |calls|
  {
    if calls == [] then live else LiveRun(LiveAfter(live, calls[0]), calls[1..])
  }

  function BucketsRun(g: Config, b: Buckets, calls: seq<Call>): Buckets
    requires g.granule > 0
    decreases |calls|
  {
    if calls == [] then b else BucketsRun(g, BucketsAfter(g, b, calls[0]), calls[1..])
  }

  predicate AllowedRun(live: map<nat, Block>, calls: seq<Call>)
    decreases |calls|
  {
    calls != [] ==>
        Allowed(live, calls[0]) && (Small(calls[0]) || ResultOf(calls[0]) == 0)
        && AllowedRun(LiveAfter(live, calls[0]), calls[1..])
  }

  lemma {:induction false} RunTracks(g: Config, live: map<nat, Block>, b: Buckets, calls: seq<Call>)
    requires g.granule > 0 && g.limit < 0x1_0000 && Tracks(g, live, b) && AllowedRun(live, calls)
    ensures Tracks(g, LiveRun(live, calls), BucketsRun(g, b, calls))
    decreases |calls|
  {
    if calls != [] {
      CallTracksIff(g, live, b, calls[0]);
      RunTracks(g, LiveAfter(live, calls[0]), BucketsAfter(g, b, calls[0]), calls[1..]);
    }
  }

  function NoRecords(): Buckets { seq(BUCKETS, _ => []) }

  lemma EmptyTracks(g: Config)
    requires g.granule > 0
    ensures Tracks(g, map[], NoRecords())
  {
  }

  /** The walk of chains that track the live blocks names each of them exactly once. */
  lemma WalkTracks(g: Config, live: map<nat, Block>, b: Buckets, a: nat)
    requires g.granule > 0 && Tracks(g, live, b)
    ensures var s := Of(Walk(b), a);
      if a in live && live[a].size >= g.limit then s == [Record(a, live[a].size, live[a].trace)] else s == []
  {
    hide Hash;
    WalkOf(g.granule, b, a, 0);
    assert TracksAt(g, live, b, a);
    OfAddr(Walk(b), a);
  }

  /** After any run the report names every live block of at least `limit` bytes exactly once, with the size and
      the return addresses of its last allocation, and nothing else. */
  lemma ReportIsTheLiveBlocks(g: Config, calls: seq<Call>, a: nat)
    requires g.granule > 0 && g.limit < 0x1_0000 && AllowedRun(map[], calls)
    ensures var live, s := LiveRun(map[], calls), Of(Walk(BucketsRun(g, NoRecords(), calls)), a);
      if a in live && live[a].size >= g.limit then s == [Record(a, live[a].size, live[a].trace)] else s == []
  {
    EmptyTracks(g);
    RunTracks(g, map[], NoRecords(), calls);
    WalkTracks(g, LiveRun(map[], calls), BucketsRun(g, NoRecords(), calls), a);
  }

  // ----- how many records there are -----

  /** The live blocks that are tracked. */
  function Tracked(g: Config, live: map<nat, Block>): set<nat> { set a | a in live && live[a].size >= g.limit }

  lemma {:induction false} CountByAddress(s: seq<Record>, t: set<nat>)
    requires forall a: nat :: |Of(s, a)| == if a in t then 1 else 0
    ensures |s| == |t|
  {
    if s == [] {
      forall a: nat
        ensures a !in t
      {
        assert |Of(s, a)| == 0;
      }
      assert t == {};
    } else {
      var a0 := s[0].addr;
      assert |Of(s, a0)| >= 1;
      forall a: nat
        ensures |Of(s[1..], a)| == if a in t - {a0} then 1 else 0
      {
        assert |Of(s, a)| == if a in t then 1 else 0;
      }
      CountByAddress(s[1..], t - {a0});
    }
  }

  /** There are as many records as tracked live blocks. */
  lemma RecordsAreCounted(g: Config, live: map<nat, Block>, b: Buckets)
    requires g.granule > 0 && Tracks(g, live, b)
    ensures |Walk(b)| == |Tracked(g, live)|
  {
    hide Hash;
    forall a: nat
      ensures |Of(Walk(b), a)| == if a in Tracked(g, live) then 1 else 0
    {
      WalkOf(g.granule, b, a, 0);
      assert TracksAt(g, live, b, a);
    }
    CountByAddress(Walk(b), Tracked(g, live));
  }

  /** Before each call of a run fewer than `room` live blocks are tracked. */
  predicate RoomRun(g: Config, live: map<nat, Block>, calls: seq<Call>, room: nat)
    decreases |calls|
  {
    calls != [] ==> |Tracked(g, live)| < room && RoomRun(g, LiveAfter(live, calls[0]), calls[1..], room)
  }

  lemma {:induction false} OfAddr(s: seq<Record>, a: nat)
    ensures forall k :: 0 <= k < |Of(s, a)| ==> Of(s, a)[k].addr == a
  {
    if s != [] { OfAddr(s[1..], a); }
  }
}

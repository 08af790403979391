/** The proxies of the allocation functions. What the original function returns is a parameter. */
module HookProxy {
  import opened Tracking
  import opened MemoryCache

  /** A captured backtrace: 16 slots, `depth` of them filled. */
  datatype Backtrace = Backtrace(depth: nat, trace: seq<nat>)

  predicate Fits(bt: Backtrace) { bt.depth <= 16 && |bt.trace| == 16 }

  function Kept(bt: Backtrace): seq<nat>
    requires Fits(bt)
  {
    StoredTrace(bt.depth, bt.trace)
  }

  /** The backtrace captured for a call. */
  predicate Traced(c: Call, bt: Backtrace) { Fits(bt) && (!c.Free? ==> c.trace == Kept(bt)) }

  class Proxy {
    var cache: Cache
    /** The thread-local guard, set while a proxy runs. */
    var guard: bool
    var limit: nat
    var depth: nat
    var isPss: bool
    var isVss: bool

    constructor (c: Cache)
      ensures cache == c && !guard && !isPss && !isVss
    {
      cache, guard, limit, depth, isPss, isVss := c, false, 0, 0, false, false;
    }

    /** `update_configs`: the limit in the low half, five bits of depth and two mode bits. */
    method UpdateConfigs(pNew: Cache?, params: nat)
      modifies this
      ensures cache == (if pNew != null then pNew else old(cache)) && guard == old(guard)
      ensures exists rest: nat ::
        params == limit + 0x1_0000 * (depth + 0x20 *
          (rest * 8 + (if isPss then 2 else 0) + (if isVss then 4 else 0) + params / 0x20_0000 % 2))
      ensures limit < 0x1_0000 && depth < 0x20
    {
      cache := if pNew != null then pNew else cache;
      limit := params % 0x1_0000;
      depth := params / 0x1_0000 % 0x20;
      isPss := params / 0x40_0000 % 2 != 0;
      isVss := params / 0x80_0000 % 2 != 0;
      ParamFields(params);
    }

    /** The cache is sound. */
    ghost predicate Ready()
      reads this, cache, cache.pool, cache.pool.mCache, cache.table
    {
      cache.Good({})
    }

    ghost function Fixed(): Config
      reads this, cache
    {
      Config(limit, cache.granule)
    }

    /** `insert_memory_backtrace`. */
    method InsertMemoryBacktrace(address: nat, size: nat, bt: Backtrace)
      requires Ready() && Fits(bt)
      modifies cache`chains, cache.pool, cache.pool.mCache, cache.table
      ensures Ready()
      ensures !old(cache.Full()) ==> cache.Now({}) == Inserted(Fixed(), old(cache.Now({})), address, size, Kept(bt))
      ensures old(cache.Full()) ==> cache.Now({}) == old(cache.Now({}))
    {
      var ok := cache.Insert(address, size, bt.depth, bt.trace);
    }

    /** `malloc_proxy`. */
    method MallocProxy(size: nat, result: nat, bt: Backtrace) returns (address: nat)
      requires Ready() && Fits(bt)
      modifies this`guard, cache`chains, cache.pool, cache.pool.mCache, cache.table
      ensures Ready() && address == result && guard == old(guard)
      ensures !isPss || guard ==> cache.Now({}) == old(cache.Now({}))
      ensures isPss && !guard && !old(cache.Full()) ==>
        cache.Now({}) == BucketsAfter(Fixed(), old(cache.Now({})), Malloc(size, result, Kept(bt)))
    {
      hide Inserted, Removed;
      if isPss && size >= limit && !guard {
        guard := true;
        address := result;
        if address != 0 {
          InsertMemoryBacktrace(address, size, bt);
        }
        guard := false;
      } else {
        address := result;
      }
    }

    /** `calloc_proxy`: the size is kept in 32 bits. */
    method CallocProxy(count: nat, bytes: nat, result: nat, bt: Backtrace) returns (address: nat)
      requires Ready() && Fits(bt)
      modifies this`guard, cache`chains, cache.pool, cache.pool.mCache, cache.table
      ensures Ready() && address == result && guard == old(guard)
      ensures !isPss || guard ==> cache.Now({}) == old(cache.Now({}))
      ensures isPss && !guard && !old(cache.Full()) ==>
        cache.Now({}) == BucketsAfter(Fixed(), old(cache.Now({})), Calloc(count, bytes, result, Kept(bt)))
    {
      hide Inserted, Removed;
      var size := Low32(count * bytes);
      if isPss && size >= limit && !guard {
        guard := true;
        address := result;
        if address != 0 {
          InsertMemoryBacktrace(address, size, bt);
        }
        guard := false;
      } else {
        address := result;
      }
    }

    /** `memalign_proxy`. */
    method MemalignProxy(alignment: nat, size: nat, result: nat, bt: Backtrace) returns (address: nat)
      requires Ready() && Fits(bt)
      modifies this`guard, cache`chains, cache.pool, cache.pool.mCache, cache.table
      ensures Ready() && address == result && guard == old(guard)
      ensures !isPss || guard ==> cache.Now({}) == old(cache.Now({}))
      ensures isPss && !guard && !old(cache.Full()) ==>
        cache.Now({}) == BucketsAfter(Fixed(), old(cache.Now({})), Memalign(size, result, Kept(bt)))
    {
      hide Inserted, Removed;
      if isPss && size >= limit && !guard {
        guard := true;
        address := result;
        if address != 0 {
          InsertMemoryBacktrace(address, size, bt);
        }
        guard := false;
      } else {
        address := result;
      }
    }

    /** `realloc_proxy`. */
    method ReallocProxy(ptr: nat, size: nat, result: nat, bt: Backtrace) returns (address: nat)
      requires Ready() && Fits(bt)
      modifies this`guard, cache`chains, cache.pool, cache.pool.mCache, cache.table
      ensures Ready() && address == result && guard == old(guard)
      ensures !isPss || guard ==> cache.Now({}) == old(cache.Now({}))
      ensures isPss && !guard && !old(cache.Full()) ==>
        cache.Now({}) == BucketsAfter(Fixed(), old(cache.Now({})), Realloc(ptr, size, result, Kept(bt)))
    {
      hide Inserted, Removed;
      if isPss && !guard {
        guard := true;
        address := result;
        if ptr != 0 && (size == 0 || address != 0) {
          cache.Remove(ptr);
          SameRemoval(Fixed(), old(cache.Now({})), ptr);
        }
        if address != 0 && size >= limit {
          InsertMemoryBacktrace(address, size, bt);
        }
        guard := false;
      } else {
        address := result;
      }
    }

    /** `free_proxy`. */
    method FreeProxy(address: nat)
      requires Ready()
      modifies this`guard, cache`chains, cache.pool, cache.pool.mCache, cache.table
      ensures Ready() && guard == old(guard)
      ensures (!isPss && !isVss) || guard ==> cache.Now({}) == old(cache.Now({}))
      ensures (isPss || isVss) && !guard ==> cache.Now({}) == BucketsAfter(Fixed(), old(cache.Now({})), Free(address))
    {
      hide Removed;
      if (isVss || isPss) && address != 0 && !guard {
        guard := true;
        cache.Remove(address);
        SameRemoval(Fixed(), old(cache.Now({})), address);
        guard := false;
      }
    }

    /** One hooked call. */
    method Perform(c: Call, bt: Backtrace)
      requires Ready() && Traced(c, bt) && isPss && !guard && !cache.Full()
      modifies this`guard, cache`chains, cache.pool, cache.pool.mCache, cache.table
      ensures Ready() && !guard && cache.Now({}) == BucketsAfter(Fixed(), old(cache.Now({})), c)
    {
      hide BucketsAfter;
      var address;
      match c
      case Malloc(size, result, _) => address := MallocProxy(size, result, bt);
      case Calloc(count, bytes, result, _) => address := CallocProxy(count, bytes, result, bt);
      case Realloc(ptr, size, result, _) => address := ReallocProxy(ptr, size, result, bt);
      case Memalign(size, result, _) => address := MemalignProxy(8, size, result, bt);
      case Free(ptr) => FreeProxy(ptr);
    }

    /** A whole run from an empty cache, and the report: while fewer blocks are tracked than the pool has nodes, the
        report names every live block of at least `limit` bytes exactly once, with its size
        and the return addresses kept for the call that last allocated it, and nothing else. */
    method RunAndPrint(calls: seq<Call>, bts: seq<Backtrace>) returns (report: seq<Record>)
      requires Ready() && cache.Now({}) == NoRecords() && isPss && !guard && limit < 0x1_0000
      requires |bts| == |calls| && forall i :: 0 <= i < |calls| ==> Traced(calls[i], bts[i])
      requires AllowedRun(map[], calls) && RoomRun(Fixed(), map[], calls, cache.pool.mCount)
      modifies this`guard, cache`chains, cache.pool, cache.pool.mCache, cache.table
      ensures Ready() && !guard
      ensures var live := LiveRun(map[], calls);
        |report| == |Tracked(Fixed(), live)| && forall a: nat {:trigger Of(report, a)} ::
          if a in live && live[a].size >= limit then
            Of(report, a) == [Record(a, live[a].size, live[a].trace)]
          else Of(report, a) == []
    {
      hide Hash, BucketsAfter, Tracks, Walk, Allowed, Small;
      ghost var live: map<nat, Block> := map[];
      EmptyTracks(Fixed());
      var i := 0;
      while i < |calls|
        invariant 0 <= i <= |calls| && Ready() && !guard
        invariant Tracks(Fixed(), live, cache.Now({}))
        invariant AllowedRun(live, calls[i..]) && RoomRun(Fixed(), live, calls[i..], cache.pool.mCount)
        invariant LiveRun(live, calls[i..]) == LiveRun(map[], calls)
        modifies this`guard, cache`chains, cache.pool, cache.pool.mCache, cache.table
      {
        RecordsAreCounted(Fixed(), live, cache.Now({}));
        cache.FullIff();
        assert calls[i..][0] == calls[i] && calls[i..][1..] == calls[i + 1..];
        CallTracksIff(Fixed(), live, cache.Now({}), calls[i]);
        Perform(calls[i], bts[i]);
        live := LiveAfter(live, calls[i]);
        i := i + 1;
      }
      report := cache.Print();
      RecordsAreCounted(Fixed(), live, cache.Now({}));
      forall a: nat
        ensures if a in live && live[a].size >= limit then
            Of(report, a) == [Record(a, live[a].size, live[a].trace)]
          else Of(report, a) == []
      {
        WalkTracks(Fixed(), live, cache.Now({}), a);
      }
    }
  }

  lemma SameRemoval(g: Config, b: Buckets, a: nat)
    requires g.granule > 0
    ensures Removed(Config(0, g.granule), b, a) == Removed(g, b, a)
  {
  }

  lemma ParamFields(params: nat)
    ensures params == params % 0x1_0000 + 0x1_0000 * (params / 0x1_0000 % 0x20 + 0x20 * (params / 0x100_0000 * 8
      + (if params / 0x40_0000 % 2 != 0 then 2 else 0) + (if params / 0x80_0000 % 2 != 0 then 4 else 0)
      + params / 0x20_0000 % 2))
  {
    var a := params / 0x1_0000;
    var b := a / 0x20;
    Nested(params);
    assert params == a * 0x1_0000 + params % 0x1_0000;
    assert a == b * 0x20 + a % 0x20;
    LowThree(b);
  }

  lemma LowThree(b: nat)
    ensures b == b / 8 * 8 + (if b / 2 % 2 != 0 then 2 else 0) + (if b / 4 % 2 != 0 then 4 else 0) + b % 2
  {
    var c := b / 2;
    assert b / 4 == c / 2 && b / 8 == c / 2 / 2;
    assert b == 2 * c + b % 2 && c == 2 * (c / 2) + c % 2;
  }

  lemma Nested(params: nat)
    ensures var b := params / 0x1_0000 / 0x20;
      params / 0x20_0000 == b && params / 0x40_0000 == b / 2 && params / 0x80_0000 == b / 4
          && params / 0x100_0000 == b / 8
  {
    var b := params / 0x20_0000;
    assert params / 0x1_0000 / 0x20 == b;
    assert params / 0x40_0000 == b / 2;
    assert params / 0x80_0000 == b / 4;
    assert params / 0x100_0000 == b / 8;
  }
}

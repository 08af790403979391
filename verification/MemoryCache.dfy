/** The node pool and the chained hash table of the tracker. Nodes are positions in the pool's array, -1 is null. */
module MemoryCache {
  import opened Tracking

  const NULL := -1

  datatype AllocNode = AllocNode(size: nat, addr: nat, trace: seq<nat>, next: int)

  // ----- chains -----

  /** `s` lists the nodes from `head` along the links. */
  predicate Chain(m: seq<AllocNode>, head: int, s: seq<int>)
    decreases |s|
  {
    if s == [] then head == NULL else head == s[0] && 0 <= head < |m| && Chain(m, m[head].next, s[1..])
  }

  predicate NoDup(s: seq<int>) { forall i, j :: 0 <= i < j < |s| ==> s[i] != s[j] }

  lemma {:induction false} ChainFrame(m: seq<AllocNode>, m': seq<AllocNode>, head: int, s: seq<int>)
    requires Chain(m, head, s) && |m'| == |m| && forall p :: p in s && 0 <= p < |m| ==> m'[p].next == m[p].next
    ensures Chain(m', head, s)
    decreases |s|
  {
    if s != [] { ChainFrame(m, m', m[head].next, s[1..]); }
  }

  lemma {:induction false} ChainAt(m: seq<AllocNode>, head: int, s: seq<int>, i: nat)
    requires Chain(m, head, s) && i < |s|
    ensures head == s[0] && 0 <= s[i] < |m| && m[s[i]].next == if i + 1 < |s| then s[i + 1] else NULL
    decreases |s|
  {
    if i > 0 { ChainAt(m, m[head].next, s[1..], i - 1); }
  }

  function Cut(s: seq<int>, i: nat): seq<int>
    requires i < |s|
  {
    s[..i] + s[i + 1..]
  }

  /** Making the predecessor skip a node cuts the node out of the chain. */
  lemma {:induction false} ChainCut(m: seq<AllocNode>, head: int, s: seq<int>, i: nat)
    requires Chain(m, head, s) && NoDup(s) && i + 1 < |s| && 0 <= s[i] < |m| && 0 <= s[i + 1] < |m|
    ensures Chain(m[s[i] := m[s[i]].(next := m[s[i + 1]].next)], head, Cut(s, i + 1))
    decreases |s|
  {
    var m' := m[s[i] := m[s[i]].(next := m[s[i + 1]].next)];
    var c := Cut(s, i + 1);
    if i == 0 {
      assert c[1..] == s[2..] && s[1..][1..] == s[2..];
      assert Chain(m, m[s[1]].next, s[2..]);
      ChainFrame(m, m', m[s[1]].next, s[2..]);
    } else {
      ChainCut(m, m[head].next, s[1..], i - 1);
      assert c[1..] == Cut(s[1..], i);
      assert m'[head].next == m[head].next;
    }
  }

  predicate InRange(m: seq<AllocNode>, s: seq<int>) { forall i :: 0 <= i < |s| ==> 0 <= s[i] < |m| }

  /** The records of a chain. */
  function Recs(m: seq<AllocNode>, s: seq<int>): (r: seq<Record>)
    requires InRange(m, s)
    ensures |r| == |s|
  {
    seq(|s|, i requires 0 <= i < |s| => Record(m[s[i]].addr, m[s[i]].size, m[s[i]].trace))
  }

  // ----- the whole structure -----

  /** Bucket `b` with its chain `s`. */
  ghost predicate BucketOk(g: nat, m: seq<AllocNode>, head: int, s: seq<int>, b: int, free: seq<int>, index: nat,
      out: set<int>)
    requires g > 0
  {
    && Chain(m, head, s) && NoDup(s) && InRange(m, s)
    && forall p :: p in s ==> 0 <= p < |m| && p < index && p !in free && p !in out && Hash(g, m[p].addr) == b
  }

  ghost predicate FreeOk(m: seq<AllocNode>, top: int, free: seq<int>, index: nat, out: set<int>) {
    && index <= |m| && Chain(m, top, free) && NoDup(free)
    && (forall p :: p in free ==> 0 <= p < index && p !in out)
    && (forall p :: p in out ==> 0 <= p < index)
  }

  /** Every node below the index is free, in the chain of its own bucket, or `out`: handed out but not yet linked. */
  ghost predicate Sound(g: nat, m: seq<AllocNode>, table: seq<int>, chains: seq<seq<int>>, top: int, free: seq<int>,
      index: nat, out: set<int>)
    requires g > 0
  {
    && |table| == BUCKETS && |chains| == BUCKETS && FreeOk(m, top, free, index, out)
    && (forall b :: 0 <= b < BUCKETS ==> BucketOk(g, m, table[b], chains[b], b, free, index, out))
    && (forall p :: 0 <= p < index ==> p in free || p in out || p in chains[Hash(g, m[p].addr)])
  }

  ghost function BucketsOf(g: nat, m: seq<AllocNode>, table: seq<int>, chains: seq<seq<int>>, top: int,
      free: seq<int>, index: nat, out: set<int>): (r: Buckets)
    requires g > 0 && Sound(g, m, table, chains, top, free, index, out)
    ensures forall b :: 0 <= b < BUCKETS ==> InRange(m, chains[b]) && r[b] == Recs(m, chains[b])
  {
    seq(BUCKETS, b requires 0 <= b < BUCKETS => assert BucketOk(g, m, table[b], chains[b], b, free, index, out);
        Recs(m, chains[b]))
  }

  lemma PopSound(g: nat, m: seq<AllocNode>, table: seq<int>, chains: seq<seq<int>>, top: int, free: seq<int>,
      index: nat)
    requires g > 0 && Sound(g, m, table, chains, top, free, index, {}) && free != []
    ensures 0 <= top < |m| && top == free[0] && Sound(g, m, table, chains, m[top].next, free[1..], index, {top})
  {
    hide Chain, Hash;
    ChainAt(m, top, free, 0);
    Tail(m, top, free);
    TailMembers(free);
    forall b | 0 <= b < BUCKETS
      ensures BucketOk(g, m, table[b], chains[b], b, free[1..], index, {top})
    {
      assert BucketOk(g, m, table[b], chains[b], b, free, index, {});
    }
    assert FreeOk(m, m[top].next, free[1..], index, {top});
    forall p | 0 <= p < index
      ensures p in free[1..] || p in {top} || p in chains[Hash(g, m[p].addr)]
    {
      if p in free && p != top {
        var i :| 0 <= i < |free| && free[i] == p;
        assert free[1..][i - 1] == p;
      }
    }
  }

  lemma TailMembers(s: seq<int>)
    requires NoDup(s) && s != []
    ensures NoDup(s[1..]) && s[0] in s && s[0] !in s[1..] && forall p :: p in s[1..] ==> p in s
  {
    forall p | p in s[1..]
      ensures p in s && p != s[0]
    {
      var i :| 0 <= i < |s[1..]| && s[1..][i] == p;
      assert s[i + 1] == p;
    }
  }

  lemma Tail(m: seq<AllocNode>, top: int, free: seq<int>)
    requires Chain(m, top, free) && free != []
    ensures 0 <= top < |m| && Chain(m, m[top].next, free[1..])
  {
  }

  lemma FreshSound(g: nat, m: seq<AllocNode>, table: seq<int>, chains: seq<seq<int>>, top: int, index: nat)
    requires g > 0 && Sound(g, m, table, chains, top, [], index, {}) && index < |m|
    ensures Sound(g, m, table, chains, top, [], index + 1, {index})
  {
    hide Chain, Hash;
    forall b | 0 <= b < BUCKETS
      ensures BucketOk(g, m, table[b], chains[b], b, [], index + 1, {index})
    {
      assert BucketOk(g, m, table[b], chains[b], b, [], index, {});
    }
  }

  lemma RecycleSound(g: nat, m: seq<AllocNode>, table: seq<int>, chains: seq<seq<int>>, top: int, free: seq<int>,
      index: nat, p: int)
    requires g > 0 && Sound(g, m, table, chains, top, free, index, {p})
    ensures 0 <= p < |m| && Sound(g, m[p := m[p].(next := top)], table, chains, p, [p] + free, index, {})
    ensures forall b :: 0 <= b < BUCKETS ==>
      InRange(m, chains[b]) && Recs(m[p := m[p].(next := top)], chains[b]) == Recs(m, chains[b])
  {
    hide Chain, Hash;
    assert p in {p};
    var m', free' := m[p := m[p].(next := top)], [p] + free;
    ChainFrame(m, m', top, free);
    Pushed(m', p, free);
    forall b | 0 <= b < BUCKETS
      ensures BucketOk(g, m', table[b], chains[b], b, free', index, {})
      ensures InRange(m, chains[b]) && Recs(m', chains[b]) == Recs(m, chains[b])
    {
      assert BucketOk(g, m, table[b], chains[b], b, free, index, {p});
      ChainFrame(m, m', table[b], chains[b]);
    }
  }

  lemma Pushed(m: seq<AllocNode>, p: int, s: seq<int>)
    requires 0 <= p < |m| && Chain(m, m[p].next, s)
    ensures Chain(m, p, [p] + s)
  {
    assert ([p] + s)[1..] == s;
  }

  lemma RecsFrame(m: seq<AllocNode>, p: int, node: AllocNode, s: seq<int>)
    requires 0 <= p < |m| && InRange(m, s) && p !in s
    ensures InRange(m[p := node], s) && Recs(m[p := node], s) == Recs(m, s)
    ensures InRange(m, [p] + s) && InRange(m[p := node], [p] + s)
    ensures Recs(m[p := node], [p] + s) == [Record(node.addr, node.size, node.trace)] + Recs(m, s)
  {
  }

  /** A handed-out node becomes the newest record of its bucket. */
  lemma LinkSound(g: nat, m: seq<AllocNode>, table: seq<int>, chains: seq<seq<int>>, top: int, free: seq<int>,
      index: nat, p: int, node: AllocNode)
    requires g > 0 && Sound(g, m, table, chains, top, free, index, {p}) && node.next == table[Hash(g, node.addr)]
    ensures |chains| == BUCKETS && 0 <= p < |m|
    ensures var h, m' := Hash(g, node.addr), m[p := node];
      Sound(g, m', table[h := p], chains[h := [p] + chains[h]], top, free, index, {})
    ensures var h, m' := Hash(g, node.addr), m[p := node];
      InRange(m, [p] + chains[h]) && InRange(m, chains[h])
      && Recs(m', [p] + chains[h]) == [Record(node.addr, node.size, node.trace)] + Recs(m, chains[h])
    ensures forall b :: 0 <= b < BUCKETS && b != Hash(g, node.addr) ==>
      InRange(m, chains[b]) && Recs(m[p := node], chains[b]) == Recs(m, chains[b])
  {
    hide Chain, Hash, Recs;
    assert p in {p};
    var h, m' := Hash(g, node.addr), m[p := node];
    var table', chains' := table[h := p], chains[h := [p] + chains[h]];
    ChainFrame(m, m', top, free);
    forall b | 0 <= b < BUCKETS
      ensures BucketOk(g, m', table'[b], chains'[b], b, free, index, {})
      ensures InRange(m, chains[b]) && Recs(m', chains[b]) == Recs(m, chains[b])
    {
      assert BucketOk(g, m, table[b], chains[b], b, free, index, {p});
      ChainFrame(m, m', table[b], chains[b]);
      RecsFrame(m, p, node, chains[b]);
      if b == h { Pushed(m', p, chains[h]); }
    }
    assert BucketOk(g, m, table[h], chains[h], h, free, index, {p});
    RecsFrame(m, p, node, chains[h]);
    forall q | 0 <= q < index
      ensures q in free || q in {} || q in chains'[Hash(g, m'[q].addr)]
    {
      if q != p && q !in free { assert q in chains[Hash(g, m[q].addr)]; }
    }
  }

  /** Unlinking the first node of a bucket's chain. */
  lemma UnlinkFirst(g: nat, m: seq<AllocNode>, table: seq<int>, chains: seq<seq<int>>, top: int, free: seq<int>,
      index: nat, h: nat)
    requires g > 0 && Sound(g, m, table, chains, top, free, index, {}) && h < BUCKETS && chains[h] != []
    ensures var p := chains[h][0];
      && 0 <= p < |m| && table[h] == p
      && Sound(g, m, table[h := m[p].next], chains[h := Cut(chains[h], 0)], top, free, index, {p})
    ensures forall b :: 0 <= b < BUCKETS ==> InRange(m, chains[b])
  {
    hide Chain, Hash;
    var s, p := chains[h], chains[h][0];
    assert BucketOk(g, m, table[h], s, h, free, index, {});
    assert p in s;
    ChainAt(m, table[h], s, 0);
    Tail(m, table[h], s);
    assert Cut(s, 0) == s[1..];
    CutMembers(s, 0);
    Unlinked(g, m, m, table, table[h := m[p].next], chains, top, free, index, h, 0);
  }

  /** Unlinking a later node: its predecessor skips it. */
  lemma UnlinkLater(g: nat, m: seq<AllocNode>, table: seq<int>, chains: seq<seq<int>>, top: int, free: seq<int>,
      index: nat, h: nat, k: nat)
    requires g > 0 && Sound(g, m, table, chains, top, free, index, {}) && h < BUCKETS && 0 < k < |chains[h]|
    ensures var q, p := chains[h][k - 1], chains[h][k];
      && 0 <= p < |m| && 0 <= q < |m|
      && Sound(g, m[q := m[q].(next := m[p].next)], table, chains[h := Cut(chains[h], k)], top, free, index, {p})
    ensures var q, p := chains[h][k - 1], chains[h][k];
      forall b :: 0 <= b < BUCKETS ==>
        InRange(m, chains[b]) && Recs(m[q := m[q].(next := m[p].next)], chains[b]) == Recs(m, chains[b])
  {
    hide Chain, Hash;
    var s, q, p := chains[h], chains[h][k - 1], chains[h][k];
    assert BucketOk(g, m, table[h], s, h, free, index, {});
    assert p in s && q in s;
    var m' := m[q := m[q].(next := m[p].next)];
    ChainCut(m, table[h], s, k - 1);
    ChainFrame(m, m', top, free);
    CutMembers(s, k);
    forall b | 0 <= b < BUCKETS && b != h
      ensures Chain(m', table[b], chains[b])
    {
      assert BucketOk(g, m, table[b], chains[b], b, free, index, {});
      assert q !in chains[b];
      ChainFrame(m, m', table[b], chains[b]);
    }
    Unlinked(g, m, m', table, table, chains, top, free, index, h, k);
    forall b | 0 <= b < BUCKETS
      ensures InRange(m, chains[b]) && Recs(m', chains[b]) == Recs(m, chains[b])
    {
      assert BucketOk(g, m, table[b], chains[b], b, free, index, {});
    }
  }

  lemma Unlinked(g: nat, m: seq<AllocNode>, m': seq<AllocNode>, table: seq<int>, table': seq<int>,
      chains: seq<seq<int>>, top: int, free: seq<int>, index: nat, h: nat, k: nat)
    requires g > 0 && Sound(g, m, table, chains, top, free, index, {}) && h < BUCKETS && k < |chains[h]|
    requires |m'| == |m| && forall i :: 0 <= i < |m| ==> m'[i].addr == m[i].addr
    requires |table'| == BUCKETS && Chain(m', top, free) && Chain(m', table'[h], Cut(chains[h], k))
    requires forall b :: 0 <= b < BUCKETS && b != h ==> table'[b] == table[b] && Chain(m', table[b], chains[b])
    ensures Sound(g, m', table', chains[h := Cut(chains[h], k)], top, free, index, {chains[h][k]})
  {
    hide Chain, Hash;
    var s, p := chains[h], chains[h][k];
    assert BucketOk(g, m, table[h], s, h, free, index, {});
    assert p in s;
    var chains' := chains[h := Cut(s, k)];
    CutMembers(s, k);
    forall b | 0 <= b < BUCKETS
      ensures BucketOk(g, m', table'[b], chains'[b], b, free, index, {p})
    {
      assert BucketOk(g, m, table[b], chains[b], b, free, index, {});
      if b != h { assert p !in chains[b]; }
    }
    forall q | 0 <= q < index
      ensures q in free || q in {p} || q in chains'[Hash(g, m'[q].addr)]
    {
      if q != p && q !in free { assert q in chains[Hash(g, m[q].addr)]; }
    }
  }

  lemma CutMembers(s: seq<int>, k: nat)
    requires k < |s| && NoDup(s)
    ensures NoDup(Cut(s, k)) && s[k] !in Cut(s, k)
    ensures forall q :: q in s && q != s[k] ==> q in Cut(s, k)
    ensures forall q :: q in Cut(s, k) ==> q in s
  {
    var c := Cut(s, k);
    forall q | q in s && q != s[k]
      ensures q in c
    {
      var i :| 0 <= i < |s| && s[i] == q;
      assert c[if i < k then i else i - 1] == q;
    }
  }

  /** Cutting the first node with an address out of a chain drops the newest record of that address. */
  lemma CutDrops(m: seq<AllocNode>, s: seq<int>, k: nat, a: nat)
    requires InRange(m, s) && k < |s| && m[s[k]].addr == a
    requires forall i :: 0 <= i < k ==> m[s[i]].addr != a
    ensures InRange(m, Cut(s, k)) && Recs(m, Cut(s, k)) == Dropped(Recs(m, s), a)
  {
    DroppedAt(Recs(m, s), a, k);
  }

  lemma NoMatch(m: seq<AllocNode>, s: seq<int>, a: nat)
    requires InRange(m, s) && forall i :: 0 <= i < |s| ==> m[s[i]].addr != a
    ensures Dropped(Recs(m, s), a) == Recs(m, s)
  {
    NothingDropped(Recs(m, s), a);
  }

  // ----- counting the nodes -----

  function Flat(c: seq<seq<int>>): seq<int> { if c == [] then [] else c[0] + Flat(c[1..]) }

  lemma {:induction false} FlatMembers(c: seq<seq<int>>)
    ensures forall p :: p in Flat(c) <==> exists i :: 0 <= i < |c| && p in c[i]
  {
    if c != [] {
      FlatMembers(c[1..]);
      forall p
        ensures p in Flat(c) <==> exists i :: 0 <= i < |c| && p in c[i]
      {
        if p in Flat(c[1..]) {
          var i :| 0 <= i < |c[1..]| && p in c[1..][i];
          assert p in c[i + 1];
        }
        if i :| 0 <= i < |c| && p in c[i] {
          if i > 0 { assert p in c[1..][i - 1]; }
        }
      }
    }
  }

  lemma NoDupJoin(s: seq<int>, t: seq<int>)
    requires NoDup(s) && NoDup(t) && forall p :: p in s ==> p !in t
    ensures NoDup(s + t)
  {
    forall i, j | 0 <= i < j < |s + t|
      ensures (s + t)[i] != (s + t)[j]
    {
      if i < |s| && j >= |s| { assert s[i] in s && t[j - |s|] in t; }
    }
  }

  lemma {:induction false} FlatNoDup(c: seq<seq<int>>)
    requires forall i :: 0 <= i < |c| ==> NoDup(c[i])
    requires forall i, j, p :: 0 <= i < j < |c| && p in c[i] ==> p !in c[j]
    ensures NoDup(Flat(c))
  {
    if c != [] {
      forall i, j, p | 0 <= i < j < |c[1..]| && p in c[1..][i]
        ensures p !in c[1..][j]
      {
        assert p in c[i + 1];
      }
      FlatNoDup(c[1..]);
      FlatMembers(c[1..]);
      assert forall p :: p in c[0] ==> forall i :: 0 <= i < |c[1..]| ==> p !in c[1..][i];
      NoDupJoin(c[0], Flat(c[1..]));
    }
  }

  lemma SomeMember(s: seq<int>) returns (p: int)
    requires s != []
    ensures p in s
  {
    p := s[0];
  }

  /** A sequence without repetition that holds exactly the numbers below `n` has `n` elements. */
  lemma {:induction false} ExactlyBelow(s: seq<int>, n: nat)
    requires NoDup(s) && forall p :: p in s <==> 0 <= p < n
    ensures |s| == n
  {
    if n == 0 {
      if s != [] { var p := SomeMember(s); }
    } else {
      assert n - 1 in s;
      var i :| 0 <= i < |s| && s[i] == n - 1;
      CutMembers(s, i);
      forall p
        ensures p in Cut(s, i) <==> 0 <= p < n - 1
      {
      }
      ExactlyBelow(Cut(s, i), n - 1);
    }
  }

  lemma {:induction false} WalkLength(b: seq<seq<Record>>, c: seq<seq<int>>)
    requires |b| == |c| && forall i :: 0 <= i < |c| ==> |b[i]| == |c[i]|
    ensures |Walk(b)| == |Flat(c)|
  {
    if c != [] { WalkLength(b[1..], c[1..]); }
  }

  /** Every node given out is either free or in a chain, once. */
  lemma NodesAreCounted(g: nat, m: seq<AllocNode>, table: seq<int>, chains: seq<seq<int>>, top: int, free: seq<int>,
      index: nat)
    requires g > 0 && Sound(g, m, table, chains, top, free, index, {})
    ensures |Flat(chains)| + |free| == index
  {
    hide Chain, Hash;
    forall b | 0 <= b < BUCKETS
      ensures BucketOk(g, m, table[b], chains[b], b, free, index, {})
    {
    }
    FlatMembers(chains);
    FlatNoDup(chains);
    NoDupJoin(free, Flat(chains));
    forall p
      ensures p in free + Flat(chains) <==> 0 <= p < index
    {
      if 0 <= p < index && p !in free { assert p in chains[Hash(g, m[p].addr)]; }
      if i :| 0 <= i < BUCKETS && p in chains[i] { assert BucketOk(g, m, table[i], chains[i], i, free, index, {}); }
    }
    ExactlyBelow(free + Flat(chains), index);
  }

  /** `AllocPool`, its operations taken as single steps. */
  class Pool {
    const mCache: array<AllocNode>
    const mCount: nat
    var mIndex: nat
    var mStack: int
    ghost var free: seq<int>

    constructor (count: nat)
      ensures mCount == count && mCache.Length == count && fresh(mCache)
    {
      mCache := new AllocNode[count](_ => AllocNode(0, 0, [], NULL));
      mCount := count;
      mIndex, mStack, free := 0, NULL, [];
    }

    method Reset()
      modifies this
      ensures mIndex == 0 && mStack == NULL && free == []
    {
      mIndex, mStack, free := 0, NULL, [];
    }

    /** The stack's top, else the next fresh node, else null. */
    method Apply() returns (p: int)
      requires mCache.Length == mCount && FreeOk(mCache[..], mStack, free, mIndex, {})
      modifies this
      ensures old(free) != [] ==>
        0 <= p < mCount && p == old(mStack) == old(free)[0] && free == old(free)[1..] && mStack == mCache[p].next
            && mIndex == old(mIndex)
      ensures old(free) == [] && old(mIndex) < mCount ==>
        p == old(mIndex) && mIndex == p + 1 && free == [] && mStack == old(mStack)
      ensures old(free) == [] && old(mIndex) == mCount ==>
        p == NULL && mIndex == old(mIndex) && free == [] && mStack == old(mStack)
    {
      if free != [] { ChainAt(mCache[..], mStack, free, 0); }
      p := mStack;
      if p != NULL {
        mStack := mCache[p].next;
        free := free[1..];
        return;
      }
      var ii := mIndex;
      if ii < mCount {
        mIndex := ii + 1;
        return ii;
      }
    }

    method Recycle(p: int)
      requires mCache.Length == mCount && 0 <= p < mCount
      modifies this, mCache
      ensures mCache[..] == old(mCache[..])[p := old(mCache[p]).(next := old(mStack))]
      ensures mStack == p && free == [p] + old(free) && mIndex == old(mIndex)
    {
      mCache[p] := mCache[p].(next := mStack);
      mStack := p;
      free := [p] + free;
    }
  }

  /** The return addresses kept: the first two are the tracker's own frames, and at least one is kept. */
  function StoredTrace(depth: nat, trace: seq<nat>): (t: seq<nat>)
    requires |trace| == 16 && depth <= 16
    ensures |t| == (if depth > 2 then depth - 2 else 1) && forall k :: 0 <= k < |t| ==> t[k] == trace[k + 2]
  {
    trace[2..2 + if depth > 2 then depth - 2 else 1]
  }

  class Cache {
    const granule: nat
    const table: array<int>
    const pool: Pool
    ghost var chains: seq<seq<int>>

    constructor (lp64: bool)
      ensures Shaped() && pool.mCount == 0x8000 && granule == if lp64 then 64 else 16
    {
      granule := if lp64 then 64 else 16;
      table := new int[BUCKETS](_ => NULL);
      pool := new Pool(0x8000);
      chains := seq(BUCKETS, _ => []);
    }

    ghost predicate Shaped() {
      granule > 0 && table.Length == BUCKETS && pool.mCache.Length == pool.mCount
    }

    /** The structure is sound with the nodes `out` handed out. */
    ghost predicate Good(out: set<int>)
      reads this, pool, pool.mCache, table
    {
      Shaped() && Sound(granule, pool.mCache[..], table[..], chains, pool.mStack, pool.free, pool.mIndex, out)
    }

    ghost function Now(out: set<int>): (r: Buckets)
      requires Good(out)
      reads this, pool, pool.mCache, table
      ensures |chains| == BUCKETS
      ensures forall b :: 0 <= b < BUCKETS ==>
        InRange(pool.mCache[..], chains[b]) && r[b] == Recs(pool.mCache[..], chains[b])
    {
      BucketsOf(granule, pool.mCache[..], table[..], chains, pool.mStack, pool.free, pool.mIndex, out)
    }

    /** Neither a recycled nor a fresh node is left. */
    ghost predicate Full()
      reads pool
    {
      pool.free == [] && pool.mIndex == pool.mCount
    }

    /** The pool is full exactly when there are as many records as nodes. */
    lemma FullIff()
      requires Good({})
      ensures |Walk(Now({}))| <= pool.mCount && (Full() <==> |Walk(Now({}))| == pool.mCount)
    {
      NodesAreCounted(granule, pool.mCache[..], table[..], chains, pool.mStack, pool.free, pool.mIndex);
      WalkLength(Now({}), chains);
    }

    method Reset()
      requires Shaped()
      modifies this, pool, table
      ensures Good({}) && Now({}) == NoRecords() && (pool.mCount > 0 ==> !Full())
    {
      pool.Reset();
      var i := 0;
      while i < BUCKETS
        invariant 0 <= i <= BUCKETS && forall b :: 0 <= b < i ==> table[b] == NULL
        modifies table
      {
        table[i] := NULL;
        i := i + 1;
      }
      chains := seq(BUCKETS, _ => []);
      assert pool.mIndex == 0 && pool.free == [];
      forall b | 0 <= b < BUCKETS
        ensures BucketOk(granule, pool.mCache[..], table[..][b], chains[b], b, [], 0, {})
      {
      }
    }

    /** The lowest level of `insert`: a node is taken from the pool. */
    method Take() returns (p: int)
      requires Good({})
      modifies pool
      ensures old(Full()) ==> p == NULL && Full() && Good({}) && Now({}) == old(Now({}))
      ensures !old(Full()) ==> 0 <= p < pool.mCount && Good({p}) && Now({p}) == old(Now({}))
    {
      ghost var m, t, free, index, top := pool.mCache[..], table[..], pool.free, pool.mIndex, pool.mStack;
      if free != [] {
        PopSound(granule, m, t, chains, top, free, index);
      } else if index < pool.mCount {
        FreshSound(granule, m, t, chains, top, index);
      }
      p := pool.Apply();
    }

    /** `insert`. The record is dropped exactly when every node of the pool is in a chain. */
    method Insert(address: nat, size: nat, depth: nat, trace: seq<nat>) returns (ok: bool)
      requires Good({}) && |trace| == 16 && depth <= 16
      modifies this`chains, pool, pool.mCache, table
      ensures Good({}) && ok == !old(Full())
      ensures Now({}) ==
        if ok then Inserted(Config(0, granule), old(Now({})), address, size, StoredTrace(depth, trace))
            else old(Now({}))
      ensures !ok ==> forall p :: 0 <= p < pool.mCount ==> p in chains[Hash(granule, pool.mCache[p].addr)]
    {
      hide Sound, Hash;
      ghost var was := Now({});
      var p := Take();
      if p == NULL {
        AllLinked();
        return false;
      }
      var h := Hash(granule, address);
      var node := AllocNode(Low32(size), address, StoredTrace(depth, trace), table[h]);
      ghost var m, t := pool.mCache[..], table[..];
      LinkSound(granule, m, t, chains, pool.mStack, pool.free, pool.mIndex, p, node);
      pool.mCache[p] := node;
      table[h] := p;
      chains := chains[h := [p] + chains[h]];
      assert pool.mCache[..] == m[p := node] && table[..] == t[h := p];
      ok := true;
    }

    lemma AllLinked()
      requires Good({}) && Full()
      ensures forall p :: 0 <= p < pool.mCount ==> p in chains[Hash(granule, pool.mCache[p].addr)]
    {
    }

    /** What `Good` and `Now` say of one bucket. */
    lemma BucketIs(out: set<int>, h: nat)
      requires Good(out) && h < BUCKETS
      ensures |chains| == BUCKETS && Chain(pool.mCache[..], table[h], chains[h]) && NoDup(chains[h])
        && InRange(pool.mCache[..], chains[h])
      ensures Now(out)[h] == Recs(pool.mCache[..], chains[h])
    {
      hide Chain;
      assert BucketOk(granule, pool.mCache[..], table[..][h], chains[h], h, pool.free, pool.mIndex, out);
    }

    /** `remove_alloc`: the first node of the bucket with the address is unlinked; null if there is none. */
    method RemoveAlloc(h: nat, address: nat) returns (p: int)
      requires Good({}) && h < BUCKETS
      modifies this`chains, pool.mCache, table
      ensures p == NULL ==> Good({}) && Now({}) == old(Now({})) && Dropped(Now({})[h], address) == Now({})[h]
      ensures p != NULL ==> Good({p}) && Now({p}) == old(Now({})[h := Dropped(Now({})[h], address)])
    {
      hide Chain, Sound, BucketsOf, Dropped, NoDup;
      BucketIs({}, h);
      ghost var m, t, s := pool.mCache[..], table[..], chains[h];
      var hptr := table[h];
      if hptr == NULL {
        EmptyChain(m, s, address);
        return NULL;
      }
      HeadIs(m, hptr, s);
      ChainAt(m, hptr, s, 0);
      if pool.mCache[hptr].addr == address {
        p := hptr;
        UnlinkFirst(granule, m, t, chains, pool.mStack, pool.free, pool.mIndex, h);
        CutDrops(m, s, 0, address);
        table[h] := pool.mCache[p].next;
        chains := chains[h := Cut(s, 0)];
        assert table[..] == t[h := m[p].next] && pool.mCache[..] == m;
        CutBuckets(m, m, old(chains), old(Now({})), h, 0, address);
      } else {
        var q := hptr;
        ghost var k := 0;
        while pool.mCache[q].next != NULL && pool.mCache[pool.mCache[q].next].addr != address
          invariant 0 <= k < |s| && q == s[k] && 0 <= q < |m| && pool.mCache[q].next == m[q].next
          invariant m[q].next == (if k + 1 < |s| then s[k + 1] else NULL) && (k + 1 < |s| ==> 0 <= s[k + 1] < |m|)
          invariant forall i :: 0 <= i <= k ==> m[s[i]].addr != address
          decreases |s| - k
          modifies {}
        {
          q := pool.mCache[q].next;
          k := k + 1;
          ChainAt(m, hptr, s, k);
        }
        p := pool.mCache[q].next;
        if p != NULL {
          k := k + 1;
          UnlinkLater(granule, m, t, chains, pool.mStack, pool.free, pool.mIndex, h, k);
          CutDrops(m, s, k, address);
          pool.mCache[q] := pool.mCache[q].(next := pool.mCache[p].next);
          chains := chains[h := Cut(s, k)];
          assert pool.mCache[..] == m[q := m[q].(next := m[p].next)] && table[..] == t;
          CutBuckets(m, pool.mCache[..], old(chains), old(Now({})), h, k, address);
        } else {
          NoMatch(m, s, address);
        }
      }
    }

    /** `remove`. */
    method Remove(address: nat)
      requires Good({})
      modifies this`chains, pool, pool.mCache, table
      ensures Good({}) && Now({}) == Removed(Config(0, granule), old(Now({})), address)
      ensures !old(Full()) ==> !Full()
    {
      hide Chain, Sound, BucketsOf, Hash, Dropped;
      var h := Hash(granule, address);
      BucketIs({}, h);
      if table[h] == NULL {
        EmptyChain(pool.mCache[..], chains[h], address);
        return;
      }
      var p := RemoveAlloc(h, address);
      if p != NULL {
        RecycleSound(granule, pool.mCache[..], table[..], chains, pool.mStack, pool.free, pool.mIndex, p);
        pool.Recycle(p);
      }
    }

    /** The walk of `print` over all chains. */
    method Print() returns (report: seq<Record>)
      requires Good({})
      ensures report == Walk(Now({}))
    {
      hide Chain, Sound, BucketsOf, Hash, Dropped, Walk;
      report := [];
      ghost var m, now := pool.mCache[..], Now({});
      var i := 0;
      WalkNothing();
      assert now[0..] == now;
      while i < BUCKETS
        invariant 0 <= i <= BUCKETS && report + Walk(now[i..]) == Walk(now)
      {
        BucketIs({}, i);
        ghost var s, k, start := chains[i], 0, report;
        var p := table[i];
        if s != [] { ChainAt(m, p, s, 0); } else { EmptyHead(m, p, s); }
        while p != NULL
          invariant 0 <= k <= |s| && p == (if k < |s| then s[k] else NULL) && (k < |s| ==> 0 <= p < |m|)
          invariant report == start + now[i][..k]
          decreases |s| - k
        {
          report := report + [Record(pool.mCache[p].addr, pool.mCache[p].size, pool.mCache[p].trace)];
          ChainAt(m, table[i], s, k);
          p := pool.mCache[p].next;
          k := k + 1;
          assert now[i][..k] == now[i][..k - 1] + [now[i][k - 1]];
        }
        assert now[i][..k] == now[i];
        WalkStep(now, i);
        i := i + 1;
      }
      assert now[BUCKETS..] == [];
    }
  }

  lemma WalkNothing()
    ensures Walk([]) == []
  {
  }

  lemma EmptyHead(m: seq<AllocNode>, head: int, s: seq<int>)
    requires Chain(m, head, s) && s == []
    ensures head == NULL
  {
  }

  lemma WalkStep(b: seq<seq<Record>>, i: nat)
    requires i < |b|
    ensures Walk(b[i..]) == b[i] + Walk(b[i + 1..])
  {
    assert b[i..][1..] == b[i + 1..];
  }

  /** The buckets after a cut, when only links have changed. */
  lemma CutBuckets(m: seq<AllocNode>, m': seq<AllocNode>, chains: seq<seq<int>>, was: Buckets, h: nat, k: nat, a: nat)
    requires |chains| == BUCKETS && h < BUCKETS && forall b :: 0 <= b < BUCKETS ==>
      InRange(m, chains[b]) && was[b] == Recs(m, chains[b])
    requires |m'| == |m| && forall i :: 0 <= i < |m| ==> m'[i].(next := 0) == m[i].(next := 0)
    requires k < |chains[h]| && InRange(m, chains[h]) && m[chains[h][k]].addr == a && forall i :: 0 <= i < k ==>
      m[chains[h][i]].addr != a
    ensures var chains' := chains[h := Cut(chains[h], k)];
      forall b :: 0 <= b < BUCKETS ==>
          InRange(m', chains'[b]) && was[h := Dropped(was[h], a)][b] == Recs(m', chains'[b])
  {
    hide Dropped;
    CutDrops(m, chains[h], k, a);
    forall i | 0 <= i < |m|
      ensures m'[i].addr == m[i].addr && m'[i].size == m[i].size && m'[i].trace == m[i].trace
    {
      assert m'[i].(next := 0) == m[i].(next := 0);
    }
  }

  lemma EmptyChain(m: seq<AllocNode>, s: seq<int>, a: nat)
    requires Chain(m, NULL, s)
    ensures s == [] && Dropped(Recs(m, s), a) == Recs(m, s)
  {
  }

  lemma HeadIs(m: seq<AllocNode>, head: int, s: seq<int>)
    requires Chain(m, head, s) && head != NULL
    ensures s != []
  {
  }
}

/** The pool's free stack as a protocol of interleaved atomic steps. Nodes are positions in the pool's array and
    -1 is the null pointer. */
module FreeStack {

  const NULL := -1

  /** Where a thread stands in `apply` or `recycle`. */
  datatype Pc =
    | Idle
    | AtNext(p: int)            // apply: mStack was p, p->next is read next
    | AtPop(p: int, n: int)     // apply: the CAS of mStack from p to n is next
    | AtIndex                   // apply: the stack was empty, mIndex is loaded next
    | AtTake(ii: nat)           // apply: the CAS of mIndex from ii is next
    | AtLoad(p: int)            // recycle: mStack is loaded into p->next next
    | AtPush(p: int)            // recycle: the CAS of mStack from p->next to p is next

  /** A thread and the nodes that were handed to it. */
  datatype Thread = Thread(pc: Pc, mine: set<int>)

  datatype State = State(stack: int, index: nat, count: nat, next: map<int, int>, threads: seq<Thread>)

  /** One atomic step of thread `t`. A weak CAS may fail though the values are equal. */
  datatype Step =
    | LoadStack(t: nat)
    | ReadNext(t: nat)
    | CasPop(t: nat, spurious: bool)
    | LoadIndex(t: nat)
    | CasIndex(t: nat, spurious: bool)
    | BeginRecycle(t: nat, from: nat, p: int)
    | LoadForPush(t: nat)
    | CasPush(t: nat, spurious: bool)
    | WriteNext(t: nat, p: int, v: int)   // a holder uses the link field of its node

  function SetPc(st: State, t: nat, pc: Pc): State
    requires t < |st.threads|
  {
    st.(threads := st.threads[t := st.threads[t].(pc := pc)])
  }

  function Give(st: State, t: nat, p: int): State
    requires t < |st.threads|
  {
    st.(threads := st.threads[t := Thread(Idle, st.threads[t].mine + {p})])
  }

  function Seen(p: int): Pc { if p == NULL then AtIndex else AtNext(p) }

  predicate Enabled(st: State, a: Step) {
    a.t < |st.threads| &&
    var pc := st.threads[a.t].pc;
    match a
    case LoadStack(_) => pc.Idle?
    case ReadNext(_) => pc.AtNext? && pc.p in st.next
    case CasPop(_, _) => pc.AtPop?
    case LoadIndex(_) => pc.AtIndex?
    case CasIndex(_, _) => pc.AtTake?
    case BeginRecycle(_, from, p) => pc.Idle? && from < |st.threads| && p in st.threads[from].mine
    case LoadForPush(_) => pc.AtLoad?
    case CasPush(_, _) => pc.AtPush? && pc.p in st.next
    case WriteNext(t, p, _) => p in st.threads[t].mine
  }

  function Do(st: State, a: Step): State
    requires Enabled(st, a)
  {
    var t := a.t;
    var pc := st.threads[t].pc;
    match a
    case LoadStack(_) => SetPc(st, t, Seen(st.stack))
    case ReadNext(_) => SetPc(st, t, AtPop(pc.p, st.next[pc.p]))
    case CasPop(_, spurious) =>
      if st.stack == pc.p && !spurious then Give(st.(stack := pc.n), t, pc.p) else SetPc(st, t, Seen(st.stack))
    case LoadIndex(_) => SetPc(st, t, if st.index < st.count then AtTake(st.index) else Idle)
    case CasIndex(_, spurious) =>
      if st.index == pc.ii && !spurious then Give(st.(index := pc.ii + 1, next := st.next[pc.ii := NULL]), t, pc.ii)
      else SetPc(st, t, if st.index < st.count then AtTake(st.index) else Idle)
    case BeginRecycle(_, from, p) =>
      var st1 := st.(threads := st.threads[from := st.threads[from].(mine := st.threads[from].mine - {p})]);
      SetPc(st1, t, AtLoad(p))
    case LoadForPush(_) => SetPc(st.(next := st.next[pc.p := st.stack]), t, AtPush(pc.p))
    case CasPush(_, spurious) =>
      if st.stack == st.next[pc.p] && !spurious then SetPc(st.(stack := pc.p), t, Idle)
      else st.(next := st.next[pc.p := st.stack])
    case WriteNext(_, p, v) => st.(next := st.next[p := v])
  }

  /** A thread between its load of the stack and its CAS. */
  predicate InWindow(pc: Pc) { pc.AtNext? || pc.AtPop? }

  predicate Completes(st: State, a: Step)
    requires Enabled(st, a)
  {
    a.CasPush? && !a.spurious && st.stack == st.next[st.threads[a.t].pc.p]
  }

  /** The side condition: no node is put back while another thread is between its load of that node and its CAS. */
  predicate Quiet(st: State, a: Step)
    requires Enabled(st, a)
  {
    Completes(st, a) ==>
      forall u :: 0 <= u < |st.threads| && u != a.t && InWindow(st.threads[u].pc) ==>
        st.threads[u].pc.p != st.threads[a.t].pc.p
  }

  /** A pop whose CAS succeeds though the successor that the thread read is not the node's any more. */
  predicate Stale(st: State, a: Step)
    requires Enabled(st, a)
  {
    a.CasPop? && !a.spurious &&
    var pc := st.threads[a.t].pc;
    st.stack == pc.p && !(pc.p in st.next && pc.n == st.next[pc.p])
  }

  /** The step is taken while no other thread is inside `apply` or `recycle`. */
  predicate Alone(st: State, a: Step)
    requires Enabled(st, a)
  {
    a.WriteNext? || forall u :: 0 <= u < |st.threads| && u != a.t ==> st.threads[u].pc.Idle?
  }

  /** A run of enabled steps. */
  predicate CanRun(st: State, steps: seq<Step>)
    decreases |steps|
  {
    steps != [] ==> Enabled(st, steps[0]) && CanRun(Do(st, steps[0]), steps[1..])
  }

  function Run(st: State, steps: seq<Step>): State
    requires CanRun(st, steps)
    decreases |steps|
  {
    if steps == [] then st else Run(Do(st, steps[0]), steps[1..])
  }

  predicate QuietRun(st: State, steps: seq<Step>)
    requires CanRun(st, steps)
    decreases |steps|
  {
    steps != [] ==> Quiet(st, steps[0]) && QuietRun(Do(st, steps[0]), steps[1..])
  }

  /** No two operations overlap. */
  predicate AloneRun(st: State, steps: seq<Step>)
    requires CanRun(st, steps)
    decreases |steps|
  {
    steps != [] ==> Alone(st, steps[0]) && AloneRun(Do(st, steps[0]), steps[1..])
  }

  predicate NeverStale(st: State, steps: seq<Step>)
    requires CanRun(st, steps)
    decreases |steps|
  {
    steps != [] ==> !Stale(st, steps[0]) && NeverStale(Do(st, steps[0]), steps[1..])
  }

  function Start(count: nat, threads: nat): State {
    State(NULL, 0, count, map[], seq(threads, _ => Thread(Idle, {})))
  }

  // ----- the invariant -----

  /** `s` lists the stack from the top: the links lead from each node to the next, and no node repeats. */
  predicate Lists(next: map<int, int>, top: int, s: seq<int>)
    decreases |s|
  {
    if s == [] then top == NULL
    else top == s[0] && top != NULL && top in next && top !in s[1..] && Lists(next, next[top], s[1..])
  }

  predicate Returning(pc: Pc) { pc.AtLoad? || pc.AtPush? }

  /** The nodes in the hands of a thread or its caller. */
  function Held(th: Thread): set<int> {
    th.mine + (if Returning(th.pc) then {th.pc.p} else {})
  }

  predicate HeldBySome(threads: seq<Thread>, p: int) {
    exists t :: 0 <= t < |threads| && p in Held(threads[t])
  }

  /** No node has two holders, and no held node is on the stack. */
  ghost predicate HeldApart(next: map<int, int>, threads: seq<Thread>, s: seq<int>) {
    && (forall t, u :: 0 <= t < |threads| && 0 <= u < |threads| && t != u ==> Held(threads[t]) !! Held(threads[u]))
    && (forall t, p :: 0 <= t < |threads| && p in Held(threads[t]) ==> p in next && p !in s)
    && (forall t :: 0 <= t < |threads| && Returning(threads[t].pc) ==> threads[t].pc.p !in threads[t].mine)
  }

  /** The nodes given out so far are those on the stack, those held, and those of `out`. */
  ghost predicate Covered(st: State, s: seq<int>, out: set<int>) {
    forall p :: 0 <= p < st.index <==> p in s || HeldBySome(st.threads, p) || p in out
  }

  /** The stack is a list without repetition; it and the holders share out the nodes given so far, each node
      in exactly one place. */
  ghost predicate Good(st: State) {
    exists s :: Lists(st.next, st.stack, s) && HeldApart(st.next, st.threads, s) && Covered(st, s, {})
  }

  /** Good in every state of a run. */
  ghost predicate GoodRun(st: State, steps: seq<Step>)
    requires CanRun(st, steps)
    decreases |steps|
  {
    Good(st) && (steps != [] ==> GoodRun(Do(st, steps[0]), steps[1..]))
  }

  /** Fresh nodes are handed out in order: no thread is about to take one beyond the index. */
  ghost predicate Indexed(st: State) {
    && st.index <= st.count && (forall p :: p in st.next <==> 0 <= p < st.index)
    && (forall t :: 0 <= t < |st.threads| && st.threads[t].pc.AtTake? ==>
          st.threads[t].pc.ii <= st.index && st.threads[t].pc.ii < st.count)
    && (forall t :: 0 <= t < |st.threads| && InWindow(st.threads[t].pc) ==> st.threads[t].pc.p in st.next)
  }

  /** Good with the stack `s`, except that the nodes of `out` are in nobody's hands. */
  ghost predicate Sound(st: State, s: seq<int>, out: set<int>) {
    && Lists(st.next, st.stack, s) && HeldApart(st.next, st.threads, s) && Covered(st, s, out) && Indexed(st)
    && forall p :: p in out ==> p in st.next && p !in s && !HeldBySome(st.threads, p)
  }

  /** A window's node, if on the stack at all, still has the successor that was read. */
  ghost predicate Windows(st: State, s: seq<int>) {
    forall t :: 0 <= t < |st.threads| && st.threads[t].pc.AtPop? && st.threads[t].pc.p in s ==>
      st.threads[t].pc.p in st.next && st.threads[t].pc.n == st.next[st.threads[t].pc.p]
  }

  lemma {:induction false} ListsFrame(next: map<int, int>, next': map<int, int>, top: int, s: seq<int>)
    requires Lists(next, top, s) && forall p :: p in s && p in next ==> p in next' && next'[p] == next[p]
    ensures Lists(next', top, s)
    decreases |s|
  {
    if s != [] { ListsFrame(next, next', next[top], s[1..]); }
  }

  lemma {:induction false} ListsNodes(next: map<int, int>, top: int, s: seq<int>)
    requires Lists(next, top, s)
    ensures forall p :: p in s ==> p in next
    ensures s != [] ==> s[0] == top && top !in s[1..]
    ensures forall p :: p in s <==> s != [] && (p == s[0] || p in s[1..])
    decreases |s|
  {
    if s != [] { ListsNodes(next, next[top], s[1..]); }
  }

  /** The stack after a step. */
  function StackAfter(st: State, s: seq<int>, a: Step): seq<int>
    requires Enabled(st, a)
  {
    var pc := st.threads[a.t].pc;
    if a.CasPop? && st.stack == pc.p && !a.spurious && s != [] then s[1..]
    else if Completes(st, a) then [pc.p] + s
    else s
  }

  lemma SameHolders(a: seq<Thread>, b: seq<Thread>)
    requires |a| == |b| && forall t :: 0 <= t < |a| ==> Held(a[t]) == Held(b[t])
    ensures forall p :: HeldBySome(a, p) <==> HeldBySome(b, p)
  {
  }

  /** A step that only moves one thread's program counter, among the places that hold no node. */
  lemma PcKeeps(st: State, s: seq<int>, t: nat, pc: Pc)
    requires Sound(st, s, {}) && t < |st.threads| && !Returning(st.threads[t].pc) && !Returning(pc)
    requires (InWindow(pc) ==> pc.p in st.next) && (pc.AtTake? ==> pc.ii <= st.index && pc.ii < st.count)
    ensures Sound(SetPc(st, t, pc), s, {})
  {
    hide Lists;
    var st' := SetPc(st, t, pc);
    assert Held(st'.threads[t]) == Held(st.threads[t]);
    SameHolders(st.threads, st'.threads);
  }

  /** The link of a node off the stack may change. */
  lemma LinkKeeps(st: State, s: seq<int>, t: nat, p: int, v: int)
    requires Sound(st, s, {}) && t < |st.threads| && p in Held(st.threads[t])
    ensures Sound(st.(next := st.next[p := v]), s, {})
  {
    ListsFrame(st.next, st.next[p := v], st.stack, s);
    hide Lists;
  }

  /** A node handed to a thread. */
  lemma GiveKeeps(st: State, s: seq<int>, t: nat, p: int)
    requires t < |st.threads| && !Returning(st.threads[t].pc) && Sound(st, s, {p})
    ensures Sound(Give(st, t, p), s, {})
  {
    hide Lists;
    var st' := Give(st, t, p);
    assert Held(st'.threads[t]) == Held(st.threads[t]) + {p};
    assert forall u :: 0 <= u < |st.threads| && u != t ==> st'.threads[u] == st.threads[u];
    assert p in {p} && !HeldBySome(st.threads, p);
    forall q
      ensures HeldBySome(st'.threads, q) <==> HeldBySome(st.threads, q) || q == p
    {
      if HeldBySome(st.threads, q) {
        var u :| 0 <= u < |st.threads| && q in Held(st.threads[u]);
        assert q in Held(st'.threads[u]);
      }
      if q == p { assert q in Held(st'.threads[t]); }
    }
  }

  /** A pop that is not stale. */
  lemma PopKeeps(st: State, s: seq<int>, t: nat)
    requires Sound(st, s, {}) && t < |st.threads| && st.threads[t].pc.AtPop? && st.stack == st.threads[t].pc.p
    requires st.stack in st.next && st.threads[t].pc.n == st.next[st.stack]
    ensures s != [] && Sound(st.(stack := st.threads[t].pc.n), s[1..], {st.stack})
  {
    ListsNodes(st.next, st.stack, s);
    assert s != [] && s[0] == st.stack;
    assert Lists(st.next, st.next[st.stack], s[1..]);
    hide Lists;
    assert st.stack in s;
    assert !HeldBySome(st.threads, st.stack);
  }

  /** A fresh node. */
  lemma FreshKeeps(st: State, s: seq<int>)
    requires Sound(st, s, {}) && st.index < st.count
    ensures Sound(st.(index := st.index + 1, next := st.next[st.index := NULL]), s, {st.index})
  {
    ListsNodes(st.next, st.stack, s);
    ListsFrame(st.next, st.next[st.index := NULL], st.stack, s);
    hide Lists;
  }

  /** A thread takes a node back from its holder, to recycle it. */
  lemma BeginKeeps(st: State, s: seq<int>, a: Step)
    requires Sound(st, s, {}) && Enabled(st, a) && a.BeginRecycle?
    ensures Sound(Do(st, a), s, {})
  {
    hide Lists;
    var st' := Do(st, a);
    var t, from, p := a.t, a.from, a.p;
    assert p in Held(st.threads[from]);
    assert t != from ==> p !in Held(st.threads[t]) && Held(st'.threads[from]) == Held(st.threads[from]) - {p};
    assert Held(st'.threads[t]) == Held(st.threads[t]) + {p};
    assert forall u :: 0 <= u < |st.threads| && u != t && u != from ==> st'.threads[u] == st.threads[u];
    forall q
      ensures HeldBySome(st'.threads, q) <==> HeldBySome(st.threads, q)
    {
      if HeldBySome(st.threads, q) {
        var u :| 0 <= u < |st.threads| && q in Held(st.threads[u]);
        assert q in Held(st'.threads[if q == p then t else u]);
      }
    }
  }

  /** A completed push. */
  lemma PushKeeps(st: State, s: seq<int>, t: nat)
    requires Sound(st, s, {}) && t < |st.threads| && st.threads[t].pc.AtPush? && st.threads[t].pc.p in st.next
    requires st.stack == st.next[st.threads[t].pc.p]
    ensures Sound(SetPc(st.(stack := st.threads[t].pc.p), t, Idle), [st.threads[t].pc.p] + s, {})
  {
    var p := st.threads[t].pc.p;
    var st', s' := SetPc(st.(stack := p), t, Idle), [p] + s;
    assert p in Held(st.threads[t]);
    assert s'[1..] == s;
    assert Lists(st'.next, p, s');
    hide Lists;
    assert Held(st'.threads[t]) == Held(st.threads[t]) - {p};
    assert forall u :: 0 <= u < |st.threads| && u != t ==> st'.threads[u] == st.threads[u];
    forall q
      ensures HeldBySome(st.threads, q) <==> HeldBySome(st'.threads, q) || q == p
    {
      if HeldBySome(st.threads, q) && q != p {
        var u :| 0 <= u < |st.threads| && q in Held(st.threads[u]);
        assert q in Held(st'.threads[u]);
      }
    }
    assert p in s' && forall q :: q in s' <==> q == p || q in s;
  }

  lemma LoadKeeps(st: State, s: seq<int>, t: nat)
    requires Sound(st, s, {}) && t < |st.threads| && st.threads[t].pc.AtLoad?
    ensures Sound(SetPc(st, t, AtPush(st.threads[t].pc.p)), s, {})
  {
    hide Lists;
    var st' := SetPc(st, t, AtPush(st.threads[t].pc.p));
    assert Held(st'.threads[t]) == Held(st.threads[t]);
    SameHolders(st.threads, st'.threads);
  }

  /** What the invariant says of the place of one thread. */
  lemma PlaceFacts(st: State, s: seq<int>, t: nat)
    requires Sound(st, s, {}) && t < |st.threads|
    ensures var pc := st.threads[t].pc;
      && (InWindow(Seen(st.stack)) ==> st.stack in st.next) && (InWindow(pc) ==> pc.p in st.next)
      && (pc.AtTake? ==> pc.ii <= st.index && pc.ii < st.count) && (Returning(pc) ==> pc.p in Held(st.threads[t]))
    ensures st.index <= st.count && (!Returning(st.threads[t].pc) ==> Held(st.threads[t]) == st.threads[t].mine)
    ensures forall p :: p in st.threads[t].mine ==> p in Held(st.threads[t])
  {
    ListsNodes(st.next, st.stack, s);
  }

  /** Every step but a stale pop keeps the pool good. */
  lemma StepKeeps(st: State, s: seq<int>, a: Step)
    requires Sound(st, s, {}) && Enabled(st, a) && !Stale(st, a)
    ensures Sound(Do(st, a), StackAfter(st, s, a), {})
  {
    hide Sound, Held, Lists;
    var t := a.t;
    var pc := st.threads[t].pc;
    PlaceFacts(st, s, t);
    match a
    case LoadStack(_) => PcKeeps(st, s, t, Seen(st.stack));
    case ReadNext(_) => PcKeeps(st, s, t, AtPop(pc.p, st.next[pc.p]));
    case CasPop(_, spurious) =>
      if st.stack == pc.p && !spurious {
        PopKeeps(st, s, t);
        GiveKeeps(st.(stack := pc.n), s[1..], t, pc.p);
      } else {
        PcKeeps(st, s, t, Seen(st.stack));
      }
    case LoadIndex(_) => PcKeeps(st, s, t, Do(st, a).threads[t].pc);
    case CasIndex(_, spurious) =>
      if st.index == pc.ii && !spurious {
        FreshKeeps(st, s);
        GiveKeeps(st.(index := pc.ii + 1, next := st.next[pc.ii := NULL]), s, t, pc.ii);
      } else {
        PcKeeps(st, s, t, Do(st, a).threads[t].pc);
      }
    case BeginRecycle(_, _, _) => BeginKeeps(st, s, a);
    case LoadForPush(_) =>
      LinkKeeps(st, s, t, pc.p, st.stack);
      LoadKeeps(st.(next := st.next[pc.p := st.stack]), s, t);
    case CasPush(_, spurious) =>
      if Completes(st, a) { PushKeeps(st, s, t); } else { LinkKeeps(st, s, t, pc.p, st.stack); }
    case WriteNext(_, p, v) => LinkKeeps(st, s, t, p, v);
  }

  // ----- a stale pop loses nodes -----

  lemma {:induction false} ListsFrom(next: map<int, int>, top: int, s: seq<int>, i: nat)
    requires Lists(next, top, s) && i < |s|
    ensures Lists(next, s[i], s[i..]) && (i > 0 ==> s[0] !in s[i..])
    decreases i
  {
    if i > 0 {
      ListsFrom(next, next[top], s[1..], i - 1);
      assert s[1..][i - 1..] == s[i..];
      assert forall p :: p in s[i..] ==> p in s[1..];
    }
  }

  lemma {:induction false} ListsSame(next: map<int, int>, top: int, s: seq<int>, s': seq<int>)
    requires Lists(next, top, s) && Lists(next, top, s')
    ensures s == s'
    decreases |s|
  {
    if s != [] { ListsSame(next, next[top], s[1..], s'[1..]); }
  }

  /** A list cannot start elsewhere and still visit the same nodes. */
  lemma ListsApart(next: map<int, int>, a: int, s: seq<int>, b: int, s': seq<int>)
    requires Lists(next, a, s) && Lists(next, b, s') && forall p :: p in s <==> p in s'
    ensures a == b
  {
    if s' == [] {
      if s != [] { ListsNodes(next, a, s); }
    } else {
      assert s'[0] in s;
      var i :| 0 <= i < |s| && s[i] == b;
      ListsFrom(next, a, s, i);
      ListsSame(next, b, s[i..], s');
      if i > 0 { assert s[0] in s; }
    }
  }

  lemma OffHand(st: State, s: seq<int>, out: set<int>, p: int)
    requires HeldApart(st.next, st.threads, s) && Covered(st, s, out)
    requires forall q :: q in out ==> q !in s && !HeldBySome(st.threads, q)
    ensures p in s <==> 0 <= p < st.index && !HeldBySome(st.threads, p) && p !in out
  {
  }

  /** A stale pop leaves a state in which some node is lost or in two places. */
  lemma StaleBreaks(st: State, s: seq<int>, a: Step)
    requires Sound(st, s, {}) && Enabled(st, a) && Stale(st, a)
    ensures !Good(Do(st, a))
  {
    var pc, st' := st.threads[a.t].pc, Do(st, a);
    var p := pc.p;
    ListsNodes(st.next, st.stack, s);
    assert pc.p in st.next;
    assert s != [] && s[0] == p && Lists(st.next, st.next[p], s[1..]) && p !in s[1..];
    if Good(st') {
      var s' :| Lists(st'.next, st'.stack, s') && HeldApart(st'.next, st'.threads, s') && Covered(st', s', {});
      hide Lists, HeldApart, Covered;
      Given(st, a.t, p, pc.n);
      forall q
        ensures q in s' <==> q in s[1..]
      {
        OffHand(st, s, {}, q);
        OffHand(st', s', {}, q);
      }
      ListsApart(st.next, st.next[p], s[1..], pc.n, s');
    }
  }

  lemma Given(st: State, t: nat, p: int, n: int)
    requires t < |st.threads| && !Returning(st.threads[t].pc)
    ensures forall q :: HeldBySome(Give(st.(stack := n), t, p).threads, q) <==> HeldBySome(st.threads, q) || q == p
  {
    var th := Give(st.(stack := n), t, p).threads;
    assert Held(th[t]) == Held(st.threads[t]) + {p};
    forall q
      ensures HeldBySome(th, q) <==> HeldBySome(st.threads, q) || q == p
    {
      if HeldBySome(st.threads, q) {
        var u :| 0 <= u < |st.threads| && q in Held(st.threads[u]);
        assert q in Held(th[u]);
      }
      if q == p { assert q in Held(th[t]); }
    }
  }

  lemma {:induction false} ExactlyUnlessStale(st: State, s: seq<int>, steps: seq<Step>)
    requires Sound(st, s, {}) && CanRun(st, steps)
    ensures GoodRun(st, steps) <==> NeverStale(st, steps)
    decreases |steps|
  {
    assert Good(st);
    hide Sound, Do, Good, Stale;
    if steps != [] {
      if Stale(st, steps[0]) {
        StaleBreaks(st, s, steps[0]);
      } else {
        StepKeeps(st, s, steps[0]);
        ExactlyUnlessStale(Do(st, steps[0]), StackAfter(st, s, steps[0]), steps[1..]);
      }
    }
  }

  lemma StartHolds(count: nat, threads: nat)
    ensures Sound(Start(count, threads), [], {}) && Windows(Start(count, threads), [])
  {
  }

  /** The pool is good throughout a run exactly when no pop of the run is stale. */
  lemma GoodUnlessStale(count: nat, threads: nat, steps: seq<Step>)
    requires CanRun(Start(count, threads), steps)
    ensures GoodRun(Start(count, threads), steps) <==> NeverStale(Start(count, threads), steps)
  {
    StartHolds(count, threads);
    ExactlyUnlessStale(Start(count, threads), [], steps);
  }

  // ----- a schedule that is never stale -----

  /** The side condition keeps the windows' successors. */
  lemma QuietKeeps(st: State, s: seq<int>, a: Step)
    requires Sound(st, s, {}) && Windows(st, s) && Enabled(st, a) && Quiet(st, a)
    ensures !Stale(st, a) && Windows(Do(st, a), StackAfter(st, s, a))
  {
    ListsNodes(st.next, st.stack, s);
    assert st.threads[a.t].pc.AtPop? ==> st.threads[a.t].pc.p in st.next;
    hide Lists, Covered, Indexed;
    QuietLinks(st, s, a);
    var st', s' := Do(st, a), StackAfter(st, s, a);
    forall u | 0 <= u < |st'.threads| && st'.threads[u].pc.AtPop? && st'.threads[u].pc.p in s'
      ensures st'.threads[u].pc.p in st'.next && st'.threads[u].pc.n == st'.next[st'.threads[u].pc.p]
    {
      if u != a.t || !a.ReadNext? { assert st'.threads[u].pc == st.threads[u].pc; }
    }
  }

  /** A step leaves the links of the stack's nodes alone. */
  lemma QuietLinks(st: State, s: seq<int>, a: Step)
    requires HeldApart(st.next, st.threads, s) && Enabled(st, a)
    requires a.CasIndex? && st.threads[a.t].pc.ii == st.index ==> st.index !in s
    requires forall p :: p in s ==> p in st.next
    ensures forall p :: p in s ==> p in Do(st, a).next && Do(st, a).next[p] == st.next[p]
  {
    var t := a.t;
    if a.LoadForPush? || a.CasPush? { assert st.threads[t].pc.p in Held(st.threads[t]); }
    if a.WriteNext? { assert a.p in Held(st.threads[t]); }
  }

  lemma {:induction false} QuietIsNeverStale(st: State, s: seq<int>, steps: seq<Step>)
    requires Sound(st, s, {}) && Windows(st, s) && CanRun(st, steps) && QuietRun(st, steps)
    ensures NeverStale(st, steps)
    decreases |steps|
  {
    hide Sound, Windows, Do, Quiet, Stale;
    if steps != [] {
      QuietKeeps(st, s, steps[0]);
      StepKeeps(st, s, steps[0]);
      QuietIsNeverStale(Do(st, steps[0]), StackAfter(st, s, steps[0]), steps[1..]);
    }
  }

  /** If no node is put back inside a window on that node, the pool is good throughout. */
  lemma PoolIsSafe(count: nat, threads: nat, steps: seq<Step>)
    requires CanRun(Start(count, threads), steps) && QuietRun(Start(count, threads), steps)
    ensures NeverStale(Start(count, threads), steps) && GoodRun(Start(count, threads), steps)
  {
    StartHolds(count, threads);
    QuietIsNeverStale(Start(count, threads), [], steps);
    GoodUnlessStale(count, threads, steps);
  }

  lemma {:induction false} AloneIsQuiet(st: State, steps: seq<Step>)
    requires CanRun(st, steps) && AloneRun(st, steps)
    ensures QuietRun(st, steps)
    decreases |steps|
  {
    if steps != [] { AloneIsQuiet(Do(st, steps[0]), steps[1..]); }
  }

  /** With `apply` and `recycle` taken one at a time no condition is needed, whatever the number of threads. */
  lemma OneAtATimeIsSafe(count: nat, threads: nat, steps: seq<Step>)
    requires CanRun(Start(count, threads), steps) && AloneRun(Start(count, threads), steps)
    ensures GoodRun(Start(count, threads), steps)
  {
    AloneIsQuiet(Start(count, threads), steps);
    PoolIsSafe(count, threads, steps);
  }

  lemma {:induction false} GoodAtEnd(st: State, steps: seq<Step>)
    requires CanRun(st, steps) && GoodRun(st, steps)
    ensures Good(Run(st, steps))
    decreases |steps|
  {
    if steps != [] { GoodAtEnd(Do(st, steps[0]), steps[1..]); }
  }

  /** The fresh nodes handed out by a run, in order. */
  function FreshGiven(st: State, steps: seq<Step>): seq<int>
    requires CanRun(st, steps)
    decreases |steps|
  {
    if steps == [] then []
    else
      var a := steps[0];
      var given := if a.CasIndex? && !a.spurious && st.index == st.threads[a.t].pc.ii then [st.index] else [];
      given + FreshGiven(Do(st, a), steps[1..])
  }

  /** Each fresh node is handed out once and in order, on every run, quiet or not. */
  lemma {:induction false} FreshOnce(st: State, steps: seq<Step>)
    requires CanRun(st, steps)
    ensures |FreshGiven(st, steps)| == Run(st, steps).index - st.index
    ensures forall k :: 0 <= k < |FreshGiven(st, steps)| ==> FreshGiven(st, steps)[k] == st.index + k
    decreases |steps|
  {
    if steps != [] { FreshOnce(Do(st, steps[0]), steps[1..]); }
  }

  lemma {:induction false} Then(st: State, steps: seq<Step>, more: seq<Step>)
    requires CanRun(st, steps) && CanRun(Run(st, steps), more)
    ensures CanRun(st, steps + more) && Run(st, steps + more) == Run(Run(st, steps), more)
    decreases |steps|
  {
    if steps == [] {
      assert [] + more == more;
    } else {
      Then(Do(st, steps[0]), steps[1..], more);
      assert (steps + more)[1..] == steps[1..] + more;
    }
  }

  lemma One(st: State, a: Step)
    requires Enabled(st, a)
    ensures CanRun(st, [a]) && Run(st, [a]) == Do(st, a)
  {
    assert CanRun(Do(st, a), []);
    assert [a][1..] == [];
  }

  lemma Three(st: State, a: Step, b: Step, c: Step)
    requires Enabled(st, a) && Enabled(Do(st, a), b) && Enabled(Do(Do(st, a), b), c)
    ensures CanRun(st, [a, b, c]) && Run(st, [a, b, c]) == Do(Do(Do(st, a), b), c)
  {
    One(st, a);
    One(Do(st, a), b);
    One(Do(Do(st, a), b), c);
    Then(st, [a], [b]);
    Then(st, [a] + [b], [c]);
    assert [a] + [b] + [c] == [a, b, c];
  }

  // ----- without the side condition -----

  const ABA0 := State(NULL, 0, 2, map[], [Thread(Idle, {}), Thread(Idle, {})])
  const ABA1 := State(NULL, 1, 2, map[0 := NULL], [Thread(Idle, {0}), Thread(Idle, {})])
  const ABA2 := State(NULL, 2, 2, map[0 := NULL, 1 := NULL], [Thread(Idle, {0, 1}), Thread(Idle, {})])
  const ABA3 := State(1, 2, 2, map[0 := NULL, 1 := NULL], [Thread(Idle, {0}), Thread(Idle, {})])
  const ABA4 := State(0, 2, 2, map[0 := 1, 1 := NULL], [Thread(Idle, {}), Thread(Idle, {})])
  const ABA5 := State(0, 2, 2, map[0 := 1, 1 := NULL], [Thread(AtNext(0), {}), Thread(AtPop(0, 1), {})])
  const ABA6 := State(1, 2, 2, map[0 := 1, 1 := NULL], [Thread(AtNext(1), {0}), Thread(AtPop(0, 1), {})])
  const ABA7 := State(NULL, 2, 2, map[0 := 1, 1 := NULL], [Thread(AtLoad(0), {1}), Thread(AtPop(0, 1), {})])
  const ABA8 := State(1, 2, 2, map[0 := NULL, 1 := NULL], [Thread(Idle, {1}), Thread(Idle, {0})])
  const ABA9 := State(NULL, 2, 2, map[0 := NULL, 1 := NULL], [Thread(Idle, {1}), Thread(Idle, {0, 1})])

  predicate Leads(st: State, steps: seq<Step>, st': State) { CanRun(st, steps) && Run(st, steps) == st' }

  lemma Aba1()
    ensures Leads(ABA0, [LoadStack(0), LoadIndex(0), CasIndex(0, false)], ABA1)
  {
    var a := Do(ABA0, LoadStack(0));
    var b := Do(a, LoadIndex(0));
    var c := Do(b, CasIndex(0, false));
    Three(ABA0, LoadStack(0), LoadIndex(0), CasIndex(0, false));
    assert {} + {0} == {0};
    assert b.threads == [Thread(AtTake(0), {}), Thread(Idle, {})];
    assert c == ABA1;
  }

  lemma Aba2()
    ensures Leads(ABA1, [LoadStack(0), LoadIndex(0), CasIndex(0, false)], ABA2)
  {
    var a := Do(ABA1, LoadStack(0));
    var b := Do(a, LoadIndex(0));
    var c := Do(b, CasIndex(0, false));
    Three(ABA1, LoadStack(0), LoadIndex(0), CasIndex(0, false));
    assert {0} + {1} == {0, 1};
    assert b.threads == [Thread(AtTake(1), {0}), Thread(Idle, {})];
    assert c == ABA2;
  }

  lemma Aba3()
    ensures Leads(ABA2, [BeginRecycle(0, 0, 1), LoadForPush(0), CasPush(0, false)], ABA3)
  {
    var a := Do(ABA2, BeginRecycle(0, 0, 1));
    var b := Do(a, LoadForPush(0));
    var c := Do(b, CasPush(0, false));
    Three(ABA2, BeginRecycle(0, 0, 1), LoadForPush(0), CasPush(0, false));
    assert {0, 1} - {1} == {0};
    assert a.threads == [Thread(AtLoad(1), {0}), Thread(Idle, {})];
    assert b.threads == [Thread(AtPush(1), {0}), Thread(Idle, {})];
    assert c == ABA3;
  }

  lemma Aba4()
    ensures Leads(ABA3, [BeginRecycle(0, 0, 0), LoadForPush(0), CasPush(0, false)], ABA4)
  {
    var a := Do(ABA3, BeginRecycle(0, 0, 0));
    var b := Do(a, LoadForPush(0));
    var c := Do(b, CasPush(0, false));
    Three(ABA3, BeginRecycle(0, 0, 0), LoadForPush(0), CasPush(0, false));
    assert {0} - {0} == {};
    assert a.threads == [Thread(AtLoad(0), {}), Thread(Idle, {})];
    assert b.threads == [Thread(AtPush(0), {}), Thread(Idle, {})];
    assert c == ABA4;
  }

  lemma Aba5()
    ensures Leads(ABA4, [LoadStack(1), ReadNext(1), LoadStack(0)], ABA5)
  {
    var a := Do(ABA4, LoadStack(1));
    var b := Do(a, ReadNext(1));
    var c := Do(b, LoadStack(0));
    Three(ABA4, LoadStack(1), ReadNext(1), LoadStack(0));
    assert a.threads == [Thread(Idle, {}), Thread(AtNext(0), {})];
    assert b.threads == [Thread(Idle, {}), Thread(AtPop(0, 1), {})];
    assert c == ABA5;
  }

  lemma Aba6()
    ensures Leads(ABA5, [ReadNext(0), CasPop(0, false), LoadStack(0)], ABA6)
  {
    var a := Do(ABA5, ReadNext(0));
    var b := Do(a, CasPop(0, false));
    var c := Do(b, LoadStack(0));
    Three(ABA5, ReadNext(0), CasPop(0, false), LoadStack(0));
    assert {} + {0} == {0};
    assert a.threads == [Thread(AtPop(0, 1), {}), Thread(AtPop(0, 1), {})];
    assert b.threads == [Thread(Idle, {0}), Thread(AtPop(0, 1), {})];
    assert c == ABA6;
  }

  lemma Aba7()
    ensures Leads(ABA6, [ReadNext(0), CasPop(0, false), BeginRecycle(0, 0, 0)], ABA7)
  {
    var a := Do(ABA6, ReadNext(0));
    var b := Do(a, CasPop(0, false));
    var c := Do(b, BeginRecycle(0, 0, 0));
    Three(ABA6, ReadNext(0), CasPop(0, false), BeginRecycle(0, 0, 0));
    assert {0} + {1} == {0, 1} && {0, 1} - {0} == {1};
    assert a.threads == [Thread(AtPop(1, NULL), {0}), Thread(AtPop(0, 1), {})];
    assert b.threads == [Thread(Idle, {0, 1}), Thread(AtPop(0, 1), {})];
    assert c == ABA7;
  }

  lemma Aba8()
    ensures Leads(ABA7, [LoadForPush(0), CasPush(0, false), CasPop(1, false)], ABA8)
  {
    var a := Do(ABA7, LoadForPush(0));
    var b := Do(a, CasPush(0, false));
    var c := Do(b, CasPop(1, false));
    Three(ABA7, LoadForPush(0), CasPush(0, false), CasPop(1, false));
    assert {} + {0} == {0};
    assert a.threads == [Thread(AtPush(0), {1}), Thread(AtPop(0, 1), {})];
    assert b.threads == [Thread(Idle, {1}), Thread(AtPop(0, 1), {})];
    assert c == ABA8;
  }

  lemma Aba9()
    ensures Leads(ABA8, [LoadStack(1), ReadNext(1), CasPop(1, false)], ABA9)
  {
    var a := Do(ABA8, LoadStack(1));
    var b := Do(a, ReadNext(1));
    var c := Do(b, CasPop(1, false));
    Three(ABA8, LoadStack(1), ReadNext(1), CasPop(1, false));
    assert {0} + {1} == {0, 1};
    assert a.threads == [Thread(Idle, {1}), Thread(AtNext(1), {0})];
    assert b.threads == [Thread(Idle, {1}), Thread(AtPop(1, NULL), {0})];
    assert c == ABA9;
  }

  lemma Continue(st: State, steps: seq<Step>, mid: State, more: seq<Step>, st': State) returns (all: seq<Step>)
    requires Leads(st, steps, mid) && Leads(mid, more, st')
    ensures all == steps + more && Leads(st, all, st')
  {
    Then(st, steps, more);
    all := steps + more;
  }

  /** Without the side condition the stack is ABA-prone: a run of two threads with a stale pop, after which both hold
      node 1. Thread 1 reads the successor of node 0, thread 0 pops both nodes and pushes node 0 again, and the CAS
      still succeeds. */
  lemma AbaHandsOutTwice() returns (steps: seq<Step>)
    ensures CanRun(Start(2, 2), steps) && !NeverStale(Start(2, 2), steps)
    ensures var st := Run(Start(2, 2), steps);
      |st.threads| == 2 && 1 in st.threads[0].mine && 1 in st.threads[1].mine && !Good(st)
  {
    assert Start(2, 2) == ABA0;
    hide Run, CanRun, Do;
    Aba1();
    steps := [LoadStack(0), LoadIndex(0), CasIndex(0, false)];
    Aba2();
    steps := Continue(ABA0, steps, ABA1, [LoadStack(0), LoadIndex(0), CasIndex(0, false)], ABA2);
    Aba3();
    steps := Continue(ABA0, steps, ABA2, [BeginRecycle(0, 0, 1), LoadForPush(0), CasPush(0, false)], ABA3);
    Aba4();
    steps := Continue(ABA0, steps, ABA3, [BeginRecycle(0, 0, 0), LoadForPush(0), CasPush(0, false)], ABA4);
    Aba5();
    steps := Continue(ABA0, steps, ABA4, [LoadStack(1), ReadNext(1), LoadStack(0)], ABA5);
    Aba6();
    steps := Continue(ABA0, steps, ABA5, [ReadNext(0), CasPop(0, false), LoadStack(0)], ABA6);
    Aba7();
    steps := Continue(ABA0, steps, ABA6, [ReadNext(0), CasPop(0, false), BeginRecycle(0, 0, 0)], ABA7);
    Aba8();
    steps := Continue(ABA0, steps, ABA7, [LoadForPush(0), CasPush(0, false), CasPop(1, false)], ABA8);
    Aba9();
    steps := Continue(ABA0, steps, ABA8, [LoadStack(1), ReadNext(1), CasPop(1, false)], ABA9);
    TwoHolders(ABA9, 0, 1, 1);
    if NeverStale(ABA0, steps) {
      GoodUnlessStale(2, 2, steps);
      GoodAtEnd(ABA0, steps);
    }
  }

  lemma TwoHolders(st: State, t: nat, u: nat, p: int)
    requires t < u < |st.threads| && p in Held(st.threads[t]) && p in Held(st.threads[u])
    ensures !Good(st)
  {
  }
}

/** The refresh of the hooked ELF files: every accepted line of the memory map moves or creates a tree node,
    and what stays behind in the old tree is freed. */
module XhCore {
  import opened RbShape
  import opened Strings
  import opened RbTree

  /** A registered hook: a compiled pathname expression, seen as the predicate it decides, and a symbol. */
  datatype HookInfo = HookInfo(matches: string -> bool, symbol: string)

  datatype Ignored = All | Only(symbol: string)

  datatype IgnoreInfo = IgnoreInfo(matches: string -> bool, what: Ignored)

  /** A parsed line of the memory map. `elf` is the outcome of the ELF header check at `base`, and `memory`
      says whether the two allocations for a new entry would succeed. */
  datatype MapLine = MapLine(path: string, base: int, readable: bool, isPrivate: bool, offset: int, elf: bool,
      memory: bool)

  /** A call of `xh_core_hook`. */
  datatype Hooking = Hooking(path: string, base: int)

  predicate Blocks(ii: IgnoreInfo, hi: HookInfo, path: string) {
    ii.matches(path) && (ii.what.All? || ii.what.symbol == hi.symbol)
  }

  predicate Blocked(ignores: seq<IgnoreInfo>, hi: HookInfo, path: string) {
    exists j :: 0 <= j < |ignores| && Blocks(ignores[j], hi, path)
  }

  /** The first hook whose expression matches decides. */
  predicate Wanted(hooks: seq<HookInfo>, ignores: seq<IgnoreInfo>, path: string) {
    hooks != [] && if hooks[0].matches(path) then !Blocked(ignores, hooks[0], path)
        else Wanted(hooks[1..], ignores, path)
  }

  /** A wanted file has a hook that applies to it; the converse fails exactly when the first matching hook is
      blocked and a later one is not. */
  lemma {:induction false} WantedHasHook(hooks: seq<HookInfo>, ignores: seq<IgnoreInfo>, path: string)
    ensures Wanted(hooks, ignores, path) <==>
      exists i :: 0 <= i < |hooks| && hooks[i].matches(path) && !Blocked(ignores, hooks[i], path)
                  && forall k :: 0 <= k < i ==> !hooks[k].matches(path)
  {
    if hooks != [] && !hooks[0].matches(path) {
      var rest := hooks[1..];
      WantedHasHook(rest, ignores, path);
      if Wanted(rest, ignores, path) {
        var i :| 0 <= i < |rest| && rest[i].matches(path) && !Blocked(ignores, rest[i], path)
                 && forall k :: 0 <= k < i ==> !rest[k].matches(path);
        var i' := i + 1;
        assert hooks[i'] == rest[i];
        forall k | 0 <= k < i'
          ensures !hooks[k].matches(path)
        {
          if k > 0 { assert hooks[k] == rest[k - 1]; }
        }
      }
      if i :| 0 <= i < |hooks| && hooks[i].matches(path) && !Blocked(ignores, hooks[i], path)
              && forall k :: 0 <= k < i ==> !hooks[k].matches(path) {
        var i' := i - 1;
        assert hooks[i] == rest[i'];
        assert forall k :: 0 <= k < i' ==> rest[k] == hooks[k + 1];
      }
    }
  }

  /** An ignore of all symbols blocks every hook, one of a symbol the hooks of that symbol only. */
  lemma BlockedIs(ignores: seq<IgnoreInfo>, hi: HookInfo, path: string)
    ensures Blocked(ignores, hi, path) <==>
      exists j :: 0 <= j < |ignores| && ignores[j].matches(path) && ignores[j].what in [All, Only(hi.symbol)]
  {
    forall j | 0 <= j < |ignores|
      ensures Blocks(ignores[j], hi, path) <==>
        ignores[j].matches(path) && ignores[j].what in [All, Only(hi.symbol)]
    {
      assert ignores[j].what in [All, Only(hi.symbol)] <==>
          ignores[j].what == [All, Only(hi.symbol)][0] || ignores[j].what == [All, Only(hi.symbol)][1];
    }
  }

  /** The tests on a line before the trees are consulted. */
  predicate Accepted(hooks: seq<HookInfo>, ignores: seq<IgnoreInfo>, line: MapLine) {
    && line.readable && line.isPrivate && line.offset == 0
    && line.path != "" && line.path[0] != '['
    && Wanted(hooks, ignores, line.path) && line.elf
  }

  // ----- what a refresh should do, from the lines and the old entries alone -----

  type Table = map<string, int>

  /** A line reaches the new tree unless an entry that is not in the old tree cannot be allocated. */
  predicate Counts(hooks: seq<HookInfo>, ignores: seq<IgnoreInfo>, known: set<string>, line: MapLine) {
    Accepted(hooks, ignores, line) && (line.path in known || line.memory)
  }

  /** The lines that reach the new tree. */
  function Effective(hooks: seq<HookInfo>, ignores: seq<IgnoreInfo>, known: set<string>,
      lines: seq<MapLine>): seq<MapLine> {
    if lines == [] then []
    else
      var n := |lines| - 1;
      var rest, line := Effective(hooks, ignores, known, lines[..n]), lines[n];
      if Counts(hooks, ignores, known, line) then rest + [line] else rest
  }

  /** A line counts exactly if it is readable and private, maps the start of a file whose name is not in
      brackets, the file is ELF and wanted, and its entry exists or can be allocated. */
  lemma {:induction false} EffectiveIs(hooks: seq<HookInfo>, ignores: seq<IgnoreInfo>, known: set<string>,
      lines: seq<MapLine>, x: MapLine)
    ensures x in Effective(hooks, ignores, known, lines) <==>
      x in lines && x.readable && x.isPrivate && x.offset == 0 && |x.path| > 0 && x.path[..1] != "[" && x.elf
      && Wanted(hooks, ignores, x.path) && (x.memory || x.path in known)
    ensures |Effective(hooks, ignores, known, lines)| <= |lines|
  {
    if lines != [] {
      var n := |lines| - 1;
      EffectiveIs(hooks, ignores, known, lines[..n], x);
      assert lines == lines[..n] + [lines[n]];
      assert x.path != "" ==> (x.path[..1] == "[" <==> x.path[0] == '[') by {
        if x.path != "" { assert x.path[..1] == [x.path[0]]; }
      }
    }
  }

  /** The pathnames of some lines, each with the base of the first line that names it. */
  function Bases(lines: seq<MapLine>): Table {
    if lines == [] then map[]
    else
      var n := |lines| - 1;
      var rest := Bases(lines[..n]);
      if lines[n].path in rest then rest else rest[lines[n].path := lines[n].base]
  }

  /** The first line of each pathname, if the pathname is new or its base has changed. */
  function Hookings(lines: seq<MapLine>, before: Table): seq<Hooking> {
    if lines == [] then []
    else
      var n := |lines| - 1;
      var rest, path, base := Hookings(lines[..n], before), lines[n].path, lines[n].base;
      if path !in Bases(lines[..n]) && (path !in before || before[path] != base) then rest + [Hooking(path, base)]
          else rest
  }

  lemma {:induction false} BasesAreFirst(lines: seq<MapLine>, path: string)
    ensures path in Bases(lines) <==> exists i :: 0 <= i < |lines| && lines[i].path == path
    ensures path in Bases(lines) ==>
      exists i :: 0 <= i < |lines| && lines[i].path == path && lines[i].base == Bases(lines)[path]
                  && forall k :: 0 <= k < i ==> lines[k].path != path
  {
    if lines != [] {
      var n := |lines| - 1;
      var rest := lines[..n];
      BasesAreFirst(rest, path);
      if path in Bases(rest) {
        var i :| 0 <= i < |rest| && rest[i].path == path && rest[i].base == Bases(rest)[path]
                 && forall k :: 0 <= k < i ==> rest[k].path != path;
        assert lines[i] == rest[i] && forall k :: 0 <= k < i ==> lines[k] == rest[k];
      } else {
        forall k | 0 <= k < n
          ensures lines[k].path != path
        {
          assert lines[k] == rest[k];
        }
      }
    }
  }

  /** Each pathname is hooked at most once per refresh, namely when it is new or rebased, at its base. */
  lemma {:induction false} HookedIffNewOrRebased(lines: seq<MapLine>, before: Table, h: Hooking)
    ensures h in Hookings(lines, before) <==>
      h.path in Bases(lines) && Bases(lines)[h.path] == h.base && (h.path !in before || before[h.path] != h.base)
    ensures forall i, j :: 0 <= i < j < |Hookings(lines, before)| ==>
      Hookings(lines, before)[i].path != Hookings(lines, before)[j].path
  {
    if lines != [] {
      var n := |lines| - 1;
      HookedIffNewOrRebased(lines[..n], before, h);
      var rest := Hookings(lines[..n], before);
      forall i | 0 <= i < |rest|
        ensures rest[i].path in Bases(lines[..n])
      {
        HookedIffNewOrRebased(lines[..n], before, rest[i]);
      }
    }
  }

  // ----- a tree as a set of entries -----

  ghost predicate Has(s: set<Node>, k: string) { exists n :: n in s && n.key == k }

  ghost predicate Unique(s: set<Node>) { forall n, m :: n in s && m in s && n.key == m.key ==> n == m }

  lemma Entries(h: Head)
    requires h.Valid()
    ensures forall n :: n in h.Elems() <==> n in h.store
    ensures Unique(h.store.Keys)
  {
    InOrderNodes(h.tree);
    var s := h.Elems();
    forall n, m | n in h.store && m in h.store && n.key == m.key
      ensures n == m
    {
      var i :| 0 <= i < |s| && s[i] == n;
      var j :| 0 <= j < |s| && s[j] == m;
      StrCmpZero(n.key, m.key);
      StrCmpZero(m.key, n.key);
    }
  }

  lemma SortedElems(h: Head)
    requires h.Valid()
    ensures Sorted(h.Elems())
  {
  }

  lemma FirstIs(s: seq<Node>, n: Node?)
    ensures n == First(s) <==> if n == null then s == [] else s != [] && s[0] == n
  {
  }

  ghost predicate BasedOn(s: set<Node>, t: Table)
    reads s`base
  {
    forall n :: n in s ==> n.key in t && n.base == t[n.key]
  }

  /** While the lines are read: the old tree's nodes `K` are the old entries `was` not yet `seen`, the new tree's
      nodes `L` have exactly the seen keys, and every node old or `made` is in one tree or `gone`. */
  ghost predicate Moved(K: set<Node>, L: set<Node>, was: set<Node>, seen: Table, gone: set<Node>, made: set<Node>) {
    && K + L + gone == was + made && K !! L && K !! gone && L !! gone && was !! made
    && (forall n :: n in was ==> (n in K <==> n.key !in seen))
    && (forall n :: n in was ==> (n in L <==> n.key in seen))
    && K <= was && (forall n :: n in L && n !in was ==> !Has(was, n.key))
    && (forall k :: k in seen <==> Has(L, k)) && Unique(was)
  }

  lemma Kept(K: set<Node>, L: set<Node>, was: set<Node>, seen: Table, gone: set<Node>, made: set<Node>, mi: Node,
      base: int)
    requires Moved(K, L, was, seen, gone, made) && mi in K
    ensures K !! L && mi !in L && !Has(L, mi.key) && mi.key !in seen
    ensures Moved(K - {mi}, L + {mi}, was, seen[mi.key := base], gone, made)
    ensures (K - {mi}) + (L + {mi}) == K + L
  {
  }

  lemma Rebased(K: set<Node>, tab: Table, mi: Node)
    requires BasedOn(K, tab) && mi in K
    ensures mi.key in tab && mi.base == tab[mi.key] && BasedOn(K - {mi}, tab)
  {
  }

  lemma Added(L: set<Node>, seen: Table, mi: Node, base: int)
    requires BasedOn(L, seen) && mi.base == base && mi.key !in seen
    ensures BasedOn(L + {mi}, seen[mi.key := base])
  {
  }

  /** The old pathnames. */
  ghost predicate Names(was: set<Node>, tab: Table) {
    (forall n :: n in was ==> n.key in tab) && (forall k :: k in tab ==> Has(was, k))
  }

  lemma AlreadySeen(K: set<Node>, L: set<Node>, was: set<Node>, tab: Table, seen: Table, gone: set<Node>,
      made: set<Node>, path: string)
    requires Moved(K, L, was, seen, gone, made) && Names(was, tab)
    ensures K !! L
    ensures !Has(K, path) && path in tab ==> path in seen
  {
  }

  /** What one line adds to the new tree and to the hook calls. */
  function SeenAfter(hooks: seq<HookInfo>, ignores: seq<IgnoreInfo>, tab: Table, seen: Table, line: MapLine): Table {
    if Counts(hooks, ignores, tab.Keys, line) && line.path !in seen then seen[line.path := line.base] else seen
  }

  function HookedBy(hooks: seq<HookInfo>, ignores: seq<IgnoreInfo>, tab: Table, seen: Table,
      line: MapLine): seq<Hooking> {
    if Counts(hooks, ignores, tab.Keys, line) && line.path !in seen
        && (line.path !in tab || tab[line.path] != line.base)
    then [Hooking(line.path, line.base)] else []
  }

  lemma Outcome(hooks: seq<HookInfo>, ignores: seq<IgnoreInfo>, tab: Table, seen: Table, line: MapLine)
    ensures !Accepted(hooks, ignores, line) || (line.path !in tab && !line.memory) || line.path in seen ==>
      SeenAfter(hooks, ignores, tab, seen, line) == seen && HookedBy(hooks, ignores, tab, seen, line) == []
    ensures Accepted(hooks, ignores, line) && (line.path in tab || line.memory) && line.path !in seen ==>
      SeenAfter(hooks, ignores, tab, seen, line) == seen[line.path := line.base]
      && HookedBy(hooks, ignores, tab, seen, line) ==
         if line.path in tab && tab[line.path] == line.base then [] else [Hooking(line.path, line.base)]
    ensures Accepted(hooks, ignores, line) <==>
      && line.readable && line.isPrivate && line.offset == 0
      && line.path != "" && line.path[0] != '['
      && Wanted(hooks, ignores, line.path) && line.elf
  {
  }

  lemma NewOutcome(hooks: seq<HookInfo>, ignores: seq<IgnoreInfo>, tab: Table, seen: Table, line: MapLine)
    requires Accepted(hooks, ignores, line) && (line.path in tab ==> line.path in seen)
    ensures line.memory ==>
      && SeenAfter(hooks, ignores, tab, seen, line)
          == (if line.path in seen then seen else seen[line.path := line.base])
      && HookedBy(hooks, ignores, tab, seen, line) == (if line.path in seen then []
          else [Hooking(line.path, line.base)])
    ensures !line.memory ==>
      SeenAfter(hooks, ignores, tab, seen, line) == seen && HookedBy(hooks, ignores, tab, seen, line) == []
  {
  }

  /** The pathnames of some nodes with their bases. */
  ghost function TableOf(s: seq<Node>): Table
    reads s
  {
    if s == [] then map[] else TableOf(s[1..])[s[0].key := s[0].base]
  }

  lemma {:induction false} TableOfIs(s: seq<Node>, k: string)
    requires forall i, j :: 0 <= i < j < |s| ==> s[i].key != s[j].key
    ensures k in TableOf(s) <==> HasKey(s, k)
    ensures forall n :: n in s && n.key == k ==> k in TableOf(s) && TableOf(s)[k] == n.base
  {
    if s != [] {
      TableOfIs(s[1..], k);
      if HasKey(s[1..], k) {
        var i :| 0 <= i < |s[1..]| && s[1..][i].key == k;
        assert s[i + 1].key == k;
      }
      if s[0].key == k { assert HasKey(s, k); }
      if HasKey(s, k) && s[0].key != k {
        var i :| 0 <= i < |s| && s[i].key == k;
        assert s[1..][i - 1].key == k;
      }
    }
  }

  /** The calls of `free` between two moments: each node of `g` once. */
  ghost predicate Freed(now: seq<Node>, before: seq<Node>, g: set<Node>) {
    multiset(now) == multiset(before) + multiset(g)
  }

  lemma KeyedIn(s: seq<Node>, S: set<Node>, k: string)
    requires forall n :: n in s <==> n in S
    ensures HasKey(s, k) <==> Has(S, k)
  {
    if n :| n in S && n.key == k {
      assert n in s;
      var i :| 0 <= i < |s| && s[i] == n;
    }
  }

  lemma Keyed(h: Head, k: string)
    requires h.Valid()
    ensures HasKey(h.Elems(), k) <==> Has(h.store.Keys, k)
  {
    hide *;
    Entries(h);
    KeyedIn(h.Elems(), h.store.Keys, k);
  }

  class Core {
    var mapInfo: Head
    var hooks: seq<HookInfo>
    var ignores: seq<IgnoreInfo>
    /** What was passed to `free` and to `xh_core_hook`. */
    var freed: seq<Node>
    var hooked: seq<Hooking>

    constructor ()
      ensures mapInfo.Valid() && mapInfo.store == map[] && fresh(mapInfo)
    {
      mapInfo := new Head();
      hooks, ignores, freed, hooked := [], [], [], [];
    }

    /** The first matching hook decides: do we need to hook this file? */
    method Match(path: string) returns (wanted: bool)
      ensures wanted == Wanted(hooks, ignores, path)
    {
      wanted := false;
      var i := 0;
      while i < |hooks|
        invariant 0 <= i <= |hooks| && !wanted
        invariant Wanted(hooks, ignores, path) == Wanted(hooks[i..], ignores, path)
      {
        var hi := hooks[i];
        assert hooks[i..][0] == hi && hooks[i..][1..] == hooks[i + 1..];
        if hi.matches(path) {
          var j := 0;
          while j < |ignores|
            invariant 0 <= j <= |ignores|
            invariant forall k :: 0 <= k < j ==> !Blocks(ignores[k], hi, path)
          {
            var ii := ignores[j];
            if ii.matches(path) {
              if ii.what.All? || ii.what.symbol == hi.symbol {
                assert Blocks(ignores[j], hi, path);
                return;
              }
            }
            j := j + 1;
          }
          wanted := true;
          return;
        }
        i := i + 1;
      }
    }

    /** One turn of the loop: the successor is found first, then the first node is removed and freed. */
    method FreeFirst(mi: Node) returns (next: Node?)
      requires mapInfo.Valid() && mapInfo.Elems() != [] && mapInfo.Elems()[0] == mi
      modifies this`freed, mapInfo, mapInfo.store.Keys`left, mapInfo.store.Keys`right, mapInfo.store.Keys`parent,
          mapInfo.store.Keys`red
      ensures mapInfo.Valid() && mapInfo.Elems() == old(mapInfo.Elems())[1..]
        && mapInfo.store.Keys == old(mapInfo.store.Keys) - {mi}
      ensures freed == old(freed) + [mi] && next == First(mapInfo.Elems())
    {
      hide *;
      ghost var s := mapInfo.Elems();
      Entries(mapInfo);
      SortedElems(mapInfo);
      next := mapInfo.Next(mi);
      assert mapInfo.Elems()[0] == mi && s[0] == mi;
      assert s[0 + 1..] == s[1..] && next == First(s[0 + 1..]);
      mapInfo.Remove(mi);
      FirstGone(s, mi, mapInfo.Elems());
      freed := freed + [mi];
    }

    /** RB_FOREACH_SAFE with RB_REMOVE and free: every entry is visited once, in key order, and freed. */
    method FreeAll()
      requires mapInfo.Valid()
      modifies this`freed, mapInfo, mapInfo.store.Keys`left, mapInfo.store.Keys`right, mapInfo.store.Keys`parent,
          mapInfo.store.Keys`red
      ensures mapInfo.Valid() && mapInfo.Elems() == [] && mapInfo.store.Keys == {}
      ensures freed == old(freed) + old(mapInfo.Elems())
    {
      hide *;
      var mi := mapInfo.MinMax(-1);
      FirstIs(mapInfo.Elems(), mi);
      while mi != null
        invariant mapInfo.Valid() && mi == First(mapInfo.Elems())
        invariant freed + mapInfo.Elems() == old(freed) + old(mapInfo.Elems())
        invariant mapInfo.store.Keys <= old(mapInfo.store.Keys)
        decreases |mapInfo.Elems()|
      {
        ghost var s, f := mapInfo.Elems(), freed;
        FirstIs(s, mi);
        mi := FreeFirst(mi);
        FirstIs(mapInfo.Elems(), mi);
        assert f + s == (f + [s[0]]) + s[1..];
      }
      FirstIs(mapInfo.Elems(), mi);
      Entries(mapInfo);
      assert mapInfo.store.Keys == {};
      assert freed + [] == freed;
    }

    /** Re-hook if the base address changed. */
    method Rebase(mi: Node, base: int)
      modifies this`hooked, mi`base
      ensures mi.base == base
      ensures hooked == old(hooked) + if old(mi.base) != base then [Hooking(mi.key, base)] else []
    {
      if mi.base != base {
        mi.base := base;
        hooked := hooked + [Hooking(mi.key, base)];
      }
    }

    /** The branch of a known pathname: the entry exists. Its key is not in the new tree, so the insertion cannot
        fail. */
    method Keep(refreshed: Head, mi: Node, base: int, ghost was: set<Node>, ghost tab: Table, ghost seen: Table,
        ghost gone: set<Node>, ghost made: set<Node>)
      requires mapInfo != refreshed && mapInfo.Valid() && refreshed.Valid() && mi in mapInfo.store
      requires Moved(mapInfo.store.Keys, refreshed.store.Keys, was, seen, gone, made)
      requires BasedOn(refreshed.store.Keys, seen) && BasedOn(mapInfo.store.Keys, tab)
      modifies this`hooked, mapInfo, refreshed, mi`base
      modifies mapInfo.store.Keys`left, mapInfo.store.Keys`right, mapInfo.store.Keys`parent, mapInfo.store.Keys`red
      modifies refreshed.store.Keys`left, refreshed.store.Keys`right, refreshed.store.Keys`parent,
          refreshed.store.Keys`red
      ensures mapInfo.Valid() && refreshed.Valid() && mi.key !in seen && mi.key in tab
      ensures Moved(mapInfo.store.Keys, refreshed.store.Keys, was, seen[mi.key := base], gone, made)
      ensures BasedOn(refreshed.store.Keys, seen[mi.key := base]) && BasedOn(mapInfo.store.Keys, tab)
      ensures mapInfo.store.Keys == old(mapInfo.store.Keys) - {mi}
        && refreshed.store.Keys == old(refreshed.store.Keys) + {mi}
      ensures hooked == old(hooked) + if tab[mi.key] != base then [Hooking(mi.key, base)] else []
    {
      hide *;
      ghost var K, L := mapInfo.store.Keys, refreshed.store.Keys;
      Kept(K, L, was, seen, gone, made, mi, base);
      Rebased(K, tab, mi);
      assert K !! L && mi !in L;
      mapInfo.Remove(mi);
      Keyed(refreshed, mi.key);
      var dup := refreshed.Insert(mi);
      if dup != null {
        assert false;
      }
      Rebase(mi, base);
      assert refreshed.store.Keys == L + {mi} && mapInfo.store.Keys == K - {mi};
      Added(L, seen, mi, base);
    }

    /** The branch of an unknown pathname: a new entry, freed at once when an earlier line had the same pathname. */
    method Create(refreshed: Head, path: string, base: int, ghost was: set<Node>, ghost seen: Table,
        ghost gone: set<Node>, ghost made: set<Node>)
      returns (ghost gone': set<Node>, ghost made': set<Node>)
      requires mapInfo != refreshed && refreshed.Valid() && !Has(mapInfo.store.Keys, path)
      requires Moved(mapInfo.store.Keys, refreshed.store.Keys, was, seen, gone, made)
      requires BasedOn(refreshed.store.Keys, seen)
      modifies this`hooked, this`freed, refreshed
      modifies refreshed.store.Keys`left, refreshed.store.Keys`right, refreshed.store.Keys`parent,
          refreshed.store.Keys`red
      ensures refreshed.Valid() && fresh(made' - made) && made <= made'
      ensures var seen' := if path in seen then seen else seen[path := base];
        Moved(mapInfo.store.Keys, refreshed.store.Keys, was, seen', gone', made')
            && BasedOn(refreshed.store.Keys, seen')
      ensures fresh(refreshed.store.Keys - old(refreshed.store.Keys))
      ensures Freed(freed, old(freed), gone' - gone) && gone <= gone'
      ensures hooked == old(hooked) + if path in seen then [] else [Hooking(path, base)]
    {
      hide *;
      ghost var K, L := mapInfo.store.Keys, refreshed.store.Keys;
      var mi, dup := Offer(refreshed, path, base);
      Made(K, L, was, seen, gone, made, mi, base);
      made' := made + {mi};
      if dup != null {
        OneFreed(freed, mi);
        gone' := Free(mi, gone);
      } else {
        gone' := gone;
        NoneFreed(freed, gone);
        Added(L, seen, mi, base);
        hooked := hooked + [Hooking(mi.key, base)];
      }
    }

    /** A new entry is offered to the new tree. */
    method Offer(refreshed: Head, path: string, base: int) returns (mi: Node, dup: Node?)
      requires refreshed.Valid()
      modifies refreshed, refreshed.store.Keys`left, refreshed.store.Keys`right, refreshed.store.Keys`parent,
          refreshed.store.Keys`red
      ensures fresh(mi) && mi.key == path && mi.base == base && refreshed.Valid()
      ensures dup != null <==> Has(old(refreshed.store.Keys), path)
      ensures dup != null ==> refreshed.store.Keys == old(refreshed.store.Keys)
      ensures dup == null ==> refreshed.store.Keys == old(refreshed.store.Keys) + {mi}
    {
      hide *;
      mi := new Node(path, base);
      Keyed(refreshed, path);
      dup := refreshed.Insert(mi);
    }

    method Free(mi: Node, ghost gone: set<Node>) returns (ghost gone': set<Node>)
      requires mi !in gone
      modifies this`freed
      ensures gone' == gone + {mi} && Freed(freed, old(freed), gone' - gone)
    {
      freed := freed + [mi];
      gone' := gone + {mi};
      assert gone' - gone == {mi};
      OneFreed(old(freed), mi);
    }

    /** What holds between two lines: `was` are the old entries and `tab` their pathnames and bases, `seen` the
        pathnames taken over with their bases, `gone` the freed nodes and `made` the allocated ones. */
    ghost predicate Ready(refreshed: Head, was: set<Node>, tab: Table, seen: Table, gone: set<Node>, made: set<Node>)
      reads this, mapInfo, mapInfo.store.Keys, refreshed, refreshed.store.Keys
    {
      && mapInfo != refreshed && mapInfo.Valid() && refreshed.Valid() && Names(was, tab)
      && Moved(mapInfo.store.Keys, refreshed.store.Keys, was, seen, gone, made)
      && BasedOn(refreshed.store.Keys, seen) && BasedOn(mapInfo.store.Keys, tab)
    }

    lemma ReadyIs(refreshed: Head, was: set<Node>, tab: Table, seen: Table, gone: set<Node>, made: set<Node>)
      ensures Ready(refreshed, was, tab, seen, gone, made) <==>
        && mapInfo != refreshed && mapInfo.Valid() && refreshed.Valid() && Names(was, tab)
        && Moved(mapInfo.store.Keys, refreshed.store.Keys, was, seen, gone, made)
        && BasedOn(refreshed.store.Keys, seen) && BasedOn(mapInfo.store.Keys, tab)
    {
    }

    /** An accepted line of an old entry. */
    method TakeOld(refreshed: Head, mi: Node, line: MapLine, ghost was: set<Node>, ghost tab: Table,
        ghost seen: Table, ghost gone: set<Node>, ghost made: set<Node>)
      requires Ready(refreshed, was, tab, seen, gone, made)
      requires Accepted(hooks, ignores, line) && mi in mapInfo.store && mi.key == line.path
      modifies this`hooked, mapInfo, refreshed, mi`base
      modifies mapInfo.store.Keys`left, mapInfo.store.Keys`right, mapInfo.store.Keys`parent, mapInfo.store.Keys`red
      modifies refreshed.store.Keys`left, refreshed.store.Keys`right, refreshed.store.Keys`parent,
          refreshed.store.Keys`red
      ensures Ready(refreshed, was, tab, SeenAfter(hooks, ignores, tab, seen, line), gone, made)
      ensures hooked == old(hooked) + HookedBy(hooks, ignores, tab, seen, line)
    {
      hide *;
      ReadyIs(refreshed, was, tab, seen, gone, made);
      Keep(refreshed, mi, line.base, was, tab, seen, gone, made);
      Outcome(hooks, ignores, tab, seen, line);
      ReadyIs(refreshed, was, tab, SeenAfter(hooks, ignores, tab, seen, line), gone, made);
    }

    /** An accepted line without an old entry, when memory suffices. */
    method TakeNew(refreshed: Head, line: MapLine, ghost was: set<Node>, ghost tab: Table, ghost seen: Table,
        ghost gone: set<Node>, ghost made: set<Node>)
      returns (ghost gone': set<Node>, ghost made': set<Node>)
      requires Ready(refreshed, was, tab, seen, gone, made)
      requires Accepted(hooks, ignores, line) && line.memory && !Has(mapInfo.store.Keys, line.path)
      modifies this`hooked, this`freed, refreshed
      modifies refreshed.store.Keys`left, refreshed.store.Keys`right, refreshed.store.Keys`parent,
          refreshed.store.Keys`red
      ensures Ready(refreshed, was, tab, SeenAfter(hooks, ignores, tab, seen, line), gone', made')
      ensures hooked == old(hooked) + HookedBy(hooks, ignores, tab, seen, line)
      ensures Freed(freed, old(freed), gone' - gone) && gone <= gone'
      ensures fresh(made' - made) && made <= made'
    {
      hide *;
      ReadyIs(refreshed, was, tab, seen, gone, made);
      AlreadySeen(mapInfo.store.Keys, refreshed.store.Keys, was, tab, seen, gone, made, line.path);
      NewOutcome(hooks, ignores, tab, seen, line);
      gone', made' := Create(refreshed, line.path, line.base, was, seen, gone, made);
      ReadyIs(refreshed, was, tab, SeenAfter(hooks, ignores, tab, seen, line), gone', made');
    }

    /** One line of the memory map. */
    method ReadLine(refreshed: Head, line: MapLine, ghost was: set<Node>, ghost tab: Table, ghost seen: Table,
        ghost gone: set<Node>, ghost made: set<Node>)
      returns (ghost gone': set<Node>, ghost made': set<Node>)
      requires Ready(refreshed, was, tab, seen, gone, made)
      modifies this`hooked, this`freed, mapInfo, refreshed, mapInfo.store.Keys`base
      modifies mapInfo.store.Keys`left, mapInfo.store.Keys`right, mapInfo.store.Keys`parent, mapInfo.store.Keys`red
      modifies refreshed.store.Keys`left, refreshed.store.Keys`right, refreshed.store.Keys`parent,
          refreshed.store.Keys`red
      ensures Ready(refreshed, was, tab, SeenAfter(hooks, ignores, tab, seen, line), gone', made')
      ensures hooked == old(hooked) + HookedBy(hooks, ignores, tab, seen, line)
      ensures Freed(freed, old(freed), gone' - gone) && gone <= gone'
      ensures fresh(made' - made) && made <= made'
    {
      hide *;
      gone', made' := gone, made;
      NoneFreed(freed, gone);
      Outcome(hooks, ignores, tab, seen, line);
      if !line.readable { return; }
      if !line.isPrivate { return; }
      if line.offset != 0 { return; }
      if line.path == "" || line.path[0] == '[' { return; }
      var wanted := Match(line.path);
      if !wanted { return; }
      if !line.elf { return; }
      ReadyIs(refreshed, was, tab, seen, gone, made);
      var mi := mapInfo.Find(line.path);
      Entries(mapInfo);
      Keyed(mapInfo, line.path);
      if mi != null {
        TakeOld(refreshed, mi, line, was, tab, seen, gone, made);
      } else {
        AlreadySeen(mapInfo.store.Keys, refreshed.store.Keys, was, tab, seen, gone, made, line.path);
        if !line.memory { return; }
        gone', made' := TakeNew(refreshed, line, was, tab, seen, gone, made);
      }
    }

    /** One turn of the loop over the lines. */
    method ReadNext(refreshed: Head, lines: seq<MapLine>, i: nat, ghost was: set<Node>, ghost tab: Table,
        ghost gone: set<Node>, ghost made: set<Node>)
      returns (ghost gone': set<Node>, ghost made': set<Node>, ghost calls: seq<Hooking>)
      requires i < |lines| && Ready(refreshed, was, tab, Bases(Effective(hooks, ignores, tab.Keys, lines[..i])), gone,
        made)
      modifies this`hooked, this`freed, mapInfo, refreshed, mapInfo.store.Keys`base
      modifies mapInfo.store.Keys`left, mapInfo.store.Keys`right, mapInfo.store.Keys`parent, mapInfo.store.Keys`red
      modifies refreshed.store.Keys`left, refreshed.store.Keys`right, refreshed.store.Keys`parent,
          refreshed.store.Keys`red
      ensures Ready(refreshed, was, tab, Bases(Effective(hooks, ignores, tab.Keys, lines[..i + 1])), gone', made')
      ensures hooked == old(hooked) + calls
      ensures Hookings(Effective(hooks, ignores, tab.Keys, lines[..i + 1]), tab)
           == Hookings(Effective(hooks, ignores, tab.Keys, lines[..i]), tab) + calls
      ensures Freed(freed, old(freed), gone' - gone) && gone <= gone'
      ensures fresh(made' - made) && made <= made'
      ensures mapInfo.store.Keys <= was && refreshed.store.Keys <= was + made'
    {
      hide *;
      ghost var seen := Bases(Effective(hooks, ignores, tab.Keys, lines[..i]));
      gone', made' := ReadLine(refreshed, lines[i], was, tab, seen, gone, made);
      calls := HookedBy(hooks, ignores, tab, seen, lines[i]);
      NextLine(hooks, ignores, tab, lines, i);
      ReadyKeys(this, refreshed, was, tab, Bases(Effective(hooks, ignores, tab.Keys, lines[..i + 1])), gone', made');
    }

    /** The loop over the lines. */
    method ReadLines(refreshed: Head, lines: seq<MapLine>, ghost was: set<Node>, ghost tab: Table)
      returns (ghost gone: set<Node>, ghost made: set<Node>)
      requires Ready(refreshed, was, tab, map[], {}, {}) && was == mapInfo.store.Keys && refreshed.store.Keys == {}
      modifies this`hooked, this`freed, mapInfo, refreshed, mapInfo.store.Keys`base
      modifies mapInfo.store.Keys`left, mapInfo.store.Keys`right, mapInfo.store.Keys`parent, mapInfo.store.Keys`red
      ensures var counted := Effective(hooks, ignores, tab.Keys, lines);
        Ready(refreshed, was, tab, Bases(counted), gone, made) && hooked == old(hooked) + Hookings(counted, tab)
      ensures fresh(made) && Freed(freed, old(freed), gone)
    {
      hide *;
      NoLines(hooks, ignores, tab.Keys, tab);
      NoneFreed(freed, {});
      gone, made := {}, {};
      var i := 0;
      assert lines[..0] == [];
      while i < |lines|
        invariant 0 <= i <= |lines|
        invariant Ready(refreshed, was, tab, Bases(Effective(hooks, ignores, tab.Keys, lines[..i])), gone, made)
        invariant hooked == old(hooked) + Hookings(Effective(hooks, ignores, tab.Keys, lines[..i]), tab)
        invariant fresh(made) && Freed(freed, old(freed), gone)
        invariant mapInfo.store.Keys <= was && refreshed.store.Keys <= was + made
      {
        ghost var g, f, calls := gone, freed, [];
        gone, made, calls := ReadNext(refreshed, lines, i, was, tab, gone, made);
        MoreFreed(old(freed), f, freed, g, gone);
        i := i + 1;
      }
      assert lines[..i] == lines;
    }

    /** The end of the refresh: what is left is freed, and the new tree takes the place of the old one. */
    method Replace(refreshed: Head, ghost was: set<Node>, ghost tab: Table, ghost seen: Table, ghost gone: set<Node>,
        ghost made: set<Node>)
      returns (ghost gone': set<Node>)
      requires Ready(refreshed, was, tab, seen, gone, made)
      modifies this`freed, this`mapInfo, mapInfo
      modifies mapInfo.store.Keys`left, mapInfo.store.Keys`right, mapInfo.store.Keys`parent, mapInfo.store.Keys`red
      ensures mapInfo == refreshed && mapInfo.Valid() && TableOf(mapInfo.Elems()) == seen
      ensures forall n :: n in was ==> (n in mapInfo.store <==> n.key in seen)
      ensures mapInfo.store.Keys + gone' == was + made && mapInfo.store.Keys !! gone'
      ensures Freed(freed, old(freed), gone' - gone) && gone <= gone'
    {
      hide *;
      ReadyIs(refreshed, was, tab, seen, gone, made);
      ghost var K := mapInfo.store.Keys;
      AllMoved(K, refreshed.store.Keys, was, seen, gone, made);
      DistinctElems(mapInfo);
      ManyFreed(freed, mapInfo.Elems(), K);
      FreeAll();
      TableIs(refreshed, seen);
      gone' := gone + K;
      assert gone' - gone == K;
      mapInfo := refreshed;
    }

    /** `xh_core_refresh_impl`: `lines` are the lines of the memory map. */
    method Refresh(lines: seq<MapLine>) returns (ghost gone: set<Node>, ghost made: set<Node>)
      requires mapInfo.Valid()
      modifies this`hooked, this`freed, this`mapInfo, mapInfo, mapInfo.store.Keys`base
      modifies mapInfo.store.Keys`left, mapInfo.store.Keys`right, mapInfo.store.Keys`parent, mapInfo.store.Keys`red
      ensures mapInfo.Valid()
      ensures var was, tab := old(mapInfo.store.Keys), old(TableOf(mapInfo.Elems()));
        var counted := Effective(hooks, ignores, tab.Keys, lines);
        && TableOf(mapInfo.Elems()) == Bases(counted)
        && (forall n :: n in was ==> (n in mapInfo.store <==> n.key in Bases(counted)))
        && hooked == old(hooked) + Hookings(counted, tab)
        && mapInfo.store.Keys + gone == was + made && mapInfo.store.Keys !! gone
      ensures fresh(made) && Freed(freed, old(freed), gone)
    {
      hide *;
      ghost var was, tab := mapInfo.store.Keys, TableOf(mapInfo.Elems());
      var refreshed := new Head();
      Start(this, refreshed);
      gone, made := ReadLines(refreshed, lines, was, tab);
      ghost var g, f, seen := gone, freed, Bases(Effective(hooks, ignores, tab.Keys, lines));
      ReadyKeys(this, refreshed, was, tab, seen, gone, made);
      gone := Replace(refreshed, was, tab, seen, gone, made);
      MoreFreed(old(freed), f, freed, g, gone);
    }
  }

  lemma Made(K: set<Node>, L: set<Node>, was: set<Node>, seen: Table, gone: set<Node>, made: set<Node>, mi: Node,
      base: int)
    requires Moved(K, L, was, seen, gone, made) && !Has(K, mi.key) && mi !in was + made
    ensures mi !in K && mi !in L && mi !in gone
    ensures Has(L, mi.key) <==> mi.key in seen
    ensures mi.key in seen ==> Moved(K, L, was, seen, gone + {mi}, made + {mi})
    ensures mi.key !in seen ==> Moved(K, L + {mi}, was, seen[mi.key := base], gone, made + {mi})
  {
  }

  lemma FirstGone(s: seq<Node>, n: Node, s': seq<Node>)
    requires Sorted(s) && s != [] && s[0] == n
    requires exists k :: 0 <= k < |s| && s[k] == n && s' == Without(s, k)
    ensures s' == s[1..]
  {
    var k :| 0 <= k < |s| && s[k] == n && s' == Without(s, k);
    SortedUnique(s, 0, k);
  }

  lemma TableIs(h: Head, t: Table)
    requires h.Valid() && BasedOn(h.store.Keys, t) && forall k :: k in t ==> Has(h.store.Keys, k)
    ensures TableOf(h.Elems()) == t
  {
    hide *;
    var s := h.Elems();
    Entries(h);
    KeysDiffer(h);
    forall k: string
      ensures k in TableOf(s) <==> k in t
      ensures k in t ==> TableOf(s)[k] == t[k]
    {
      TableOfIs(s, k);
      Keyed(h, k);
      EntryOf(h.store.Keys, t, k);
      if k in t {
        var n :| n in h.store && n.key == k && n.base == t[k];
        assert n in s;
      }
    }
  }

  lemma EntryOf(K: set<Node>, t: Table, k: string)
    requires BasedOn(K, t)
    ensures Has(K, k) ==> k in t && exists n :: n in K && n.key == k && n.base == t[k]
  {
  }

  lemma KeysDiffer(h: Head)
    requires h.Valid()
    ensures var s := h.Elems(); forall i, j :: 0 <= i < j < |s| ==> s[i].key != s[j].key
  {
    SortedElems(h);
    hide At, Coloured, IsRed, InOrder;
    var s := h.Elems();
    forall i, j | 0 <= i < j < |s|
      ensures s[i].key != s[j].key
    {
      StrCmpZero(s[i].key, s[j].key);
    }
  }

  /** A valid tree names its own entries. */
  lemma Named(h: Head)
    requires h.Valid()
    ensures Names(h.store.Keys, TableOf(h.Elems())) && BasedOn(h.store.Keys, TableOf(h.Elems()))
  {
    hide *;
    var s := h.Elems();
    Entries(h);
    KeysDiffer(h);
    forall k: string
      ensures k in TableOf(s) <==> Has(h.store.Keys, k)
      ensures forall n :: n in h.store && n.key == k ==> k in TableOf(s) && TableOf(s)[k] == n.base
    {
      TableOfIs(s, k);
      Keyed(h, k);
    }
    NamedIs(h.store.Keys, TableOf(s));
  }

  lemma NamedIs(K: set<Node>, t: Table)
    requires forall k :: k in t <==> Has(K, k)
    requires forall n :: n in K ==> n.key in t && t[n.key] == n.base
    ensures Names(K, t) && BasedOn(K, t)
  {
  }

  lemma Start(c: Core, refreshed: Head)
    requires c.mapInfo.Valid() && refreshed.Valid() && refreshed.store == map[] && c.mapInfo != refreshed
    ensures c.Ready(refreshed, c.mapInfo.store.Keys, TableOf(c.mapInfo.Elems()), map[], {}, {})
  {
    hide *;
    var K := c.mapInfo.store.Keys;
    Named(c.mapInfo);
    Entries(c.mapInfo);
    assert refreshed.store.Keys == {};
    Unmoved(K);
    c.ReadyIs(refreshed, K, TableOf(c.mapInfo.Elems()), map[], {}, {});
  }

  lemma Unmoved(K: set<Node>)
    requires Unique(K)
    ensures Moved(K, {}, K, map[], {}, {}) && BasedOn({}, map[])
  {
  }

  lemma NoLines(hooks: seq<HookInfo>, ignores: seq<IgnoreInfo>, known: set<string>, before: Table)
    ensures Effective(hooks, ignores, known, []) == [] && Bases([]) == map[] && Hookings([], before) == []
  {
  }

  /** One more line, for the specification. */
  lemma NextLine(hooks: seq<HookInfo>, ignores: seq<IgnoreInfo>, tab: Table, lines: seq<MapLine>, i: nat)
    requires i < |lines|
    ensures var c, c' := Effective(hooks, ignores, tab.Keys, lines[..i]),
      Effective(hooks, ignores, tab.Keys, lines[..i + 1]);
      Bases(c') == SeenAfter(hooks, ignores, tab, Bases(c), lines[i])
      && Hookings(c', tab) == Hookings(c, tab) + HookedBy(hooks, ignores, tab, Bases(c), lines[i])
  {
    var c := Effective(hooks, ignores, tab.Keys, lines[..i]);
    assert lines[..i + 1][..i] == lines[..i];
    assert (c + [lines[i]])[..|c|] == c;
  }

  lemma ReadyKeys(c: Core, refreshed: Head, was: set<Node>, tab: Table, seen: Table, gone: set<Node>, made: set<Node>)
    requires c.Ready(refreshed, was, tab, seen, gone, made)
    ensures c.mapInfo.store.Keys <= was && refreshed.store.Keys <= was + made
  {
    c.ReadyIs(refreshed, was, tab, seen, gone, made);
    MovedKeys(c.mapInfo.store.Keys, refreshed.store.Keys, was, seen, gone, made);
  }

  lemma MovedKeys(K: set<Node>, L: set<Node>, was: set<Node>, seen: Table, gone: set<Node>, made: set<Node>)
    requires Moved(K, L, was, seen, gone, made)
    ensures K <= was && L <= was + made
  {
    assert L <= K + L + gone;
  }

  lemma MoreFreed(f: seq<Node>, f1: seq<Node>, f2: seq<Node>, g: set<Node>, g': set<Node>)
    requires Freed(f1, f, g) && g <= g' && Freed(f2, f1, g' - g)
    ensures Freed(f2, f, g')
  {
    assert multiset(g') == multiset(g) + multiset(g' - g);
  }

  lemma NoneFreed(f: seq<Node>, g: set<Node>)
    ensures Freed(f, f, {}) && Freed(f, f, g - g)
  {
    assert g - g == {};
  }

  lemma OneFreed(f: seq<Node>, n: Node)
    ensures Freed(f + [n], f, {n})
  {
  }

  lemma ManyFreed(f: seq<Node>, s: seq<Node>, g: set<Node>)
    requires multiset(s) == multiset(g)
    ensures Freed(f + s, f, g)
  {
  }

  /** Once the old tree's nodes are freed as well, every node is in the new tree or freed. */
  lemma AllMoved(K: set<Node>, L: set<Node>, was: set<Node>, seen: Table, gone: set<Node>, made: set<Node>)
    requires Moved(K, L, was, seen, gone, made)
    ensures L + (gone + K) == was + made && L !! (gone + K) && K !! gone && K !! L
    ensures forall n :: n in was ==> (n in L <==> n.key in seen)
    ensures forall k :: k in seen ==> Has(L, k)
  {
  }

  lemma {:induction false} InOrderOnce(t: Tree)
    requires Distinct(t)
    ensures multiset(InOrder(t)) == multiset(Nodes(t))
  {
    match t
    case Leaf =>
    case Br(l, n, _, r) =>
      InOrderOnce(l);
      InOrderOnce(r);
  }

  lemma DistinctElems(h: Head)
    requires h.Valid()
    ensures multiset(h.Elems()) == multiset(h.store.Keys)
  {
    InOrderOnce(h.tree);
    assert h.store.Keys == Nodes(h.tree);
  }

  /** The accepted lines, allocated or not. */
  function AcceptedOf(hooks: seq<HookInfo>, ignores: seq<IgnoreInfo>, lines: seq<MapLine>): seq<MapLine> {
    if lines == [] then []
    else
      var n := |lines| - 1;
      var rest := AcceptedOf(hooks, ignores, lines[..n]);
      if Accepted(hooks, ignores, lines[n]) then rest + [lines[n]] else rest
  }

  lemma NoBases()
    ensures Bases([]) == map[]
  {
  }

  lemma BasesSnoc(lines: seq<MapLine>, line: MapLine)
    ensures Bases(lines + [line]) ==
      if line.path in Bases(lines) then Bases(lines) else Bases(lines)[line.path := line.base]
  {
    assert (lines + [line])[..|lines|] == lines;
  }

  /** When every line that can be allocated has a known pathname, the known pathnames get the base of their first
      accepted line. */
  lemma {:induction false} KnownBases(hooks: seq<HookInfo>, ignores: seq<IgnoreInfo>, known: set<string>,
      lines: seq<MapLine>, k: string)
    requires forall i :: 0 <= i < |lines| && Accepted(hooks, ignores, lines[i]) && lines[i].memory ==>
      lines[i].path in known
    ensures var b, f := Bases(Effective(hooks, ignores, known, lines)), Bases(AcceptedOf(hooks, ignores, lines));
      && (k in b <==> k in f && k in known) && (k in b ==> b[k] == f[k])
  {
    hide Accepted, Bases;
    if lines == [] {
      NoBases();
    } else {
      var n := |lines| - 1;
      KnownBases(hooks, ignores, known, lines[..n], k);
      BasesSnoc(Effective(hooks, ignores, known, lines[..n]), lines[n]);
      BasesSnoc(AcceptedOf(hooks, ignores, lines[..n]), lines[n]);
    }
  }

  /** Every line that counts has its pathname in the table afterwards, and is an accepted one. */
  lemma {:induction false} CountedKnown(hooks: seq<HookInfo>, ignores: seq<IgnoreInfo>, known: set<string>,
      lines: seq<MapLine>)
    ensures var b := Bases(Effective(hooks, ignores, known, lines));
      && (forall i :: 0 <= i < |lines| && Counts(hooks, ignores, known, lines[i]) ==> lines[i].path in b)
      && (forall k :: k in b ==> k in Bases(AcceptedOf(hooks, ignores, lines)))
  {
    hide Accepted, Bases;
    if lines == [] {
      NoBases();
    } else {
      var n := |lines| - 1;
      CountedKnown(hooks, ignores, known, lines[..n]);
      BasesSnoc(Effective(hooks, ignores, known, lines[..n]), lines[n]);
      BasesSnoc(AcceptedOf(hooks, ignores, lines[..n]), lines[n]);
    }
  }

  /** A second refresh over the same map, with the same outcomes of the allocations, changes no base and hooks nothing
      exactly when every entry has the base of the first accepted line of its pathname: when no allocation for that line
      failed and a later line at another base got in. */
  lemma RefreshTwice(hooks: seq<HookInfo>, ignores: seq<IgnoreInfo>, before: Table, lines: seq<MapLine>)
    ensures var once := Bases(Effective(hooks, ignores, before.Keys, lines));
      var again := Effective(hooks, ignores, once.Keys, lines);
      var first := Bases(AcceptedOf(hooks, ignores, lines));
      && Bases(again).Keys == once.Keys <= first.Keys
      && (Bases(again) == once && Hookings(again, once) == [] <==> forall k :: k in once ==> once[k] == first[k])
  {
    var once := Bases(Effective(hooks, ignores, before.Keys, lines));
    var again := Effective(hooks, ignores, once.Keys, lines);
    CountedKnown(hooks, ignores, before.Keys, lines);
    forall k: string
      ensures var b, f := Bases(again), Bases(AcceptedOf(hooks, ignores, lines));
        (k in b <==> k in once) && (k in b ==> b[k] == f[k])
    {
      KnownBases(hooks, ignores, once.Keys, lines, k);
    }
    if Hookings(again, once) != [] {
      HookedIffNewOrRebased(again, once, Hookings(again, once)[0]);
    }
  }

  /** When every allocation succeeds, the second refresh changes nothing. */
  lemma RefreshTwiceWithMemory(hooks: seq<HookInfo>, ignores: seq<IgnoreInfo>, before: Table, lines: seq<MapLine>)
    requires forall i :: 0 <= i < |lines| ==> lines[i].memory
    ensures var once := Bases(Effective(hooks, ignores, before.Keys, lines));
      var again := Effective(hooks, ignores, once.Keys, lines);
      Bases(again) == once && Hookings(again, once) == []
  {
    MemoryEnough(hooks, ignores, before.Keys, lines);
    RefreshTwice(hooks, ignores, before, lines);
  }

  lemma {:induction false} MemoryEnough(hooks: seq<HookInfo>, ignores: seq<IgnoreInfo>, known: set<string>,
      lines: seq<MapLine>)
    requires forall i :: 0 <= i < |lines| ==> lines[i].memory
    ensures Effective(hooks, ignores, known, lines) == AcceptedOf(hooks, ignores, lines)
  {
    if lines != [] { MemoryEnough(hooks, ignores, known, lines[..|lines| - 1]); }
  }

  /** A failed allocation: the first line of a new library is dropped, the second gets in at another base; the second
      refresh rebases the entry and hooks again. */
  lemma RefreshTwiceAfterFailure(hook: HookInfo)
    requires hook.matches("a")
    ensures var lines := [MapLine("a", 1, true, true, 0, true, false), MapLine("a", 2, true, true, 0, true, true)];
      var once := Bases(Effective([hook], [], {}, lines));
      var again := Effective([hook], [], once.Keys, lines);
      once == map["a" := 2] && Bases(again) == map["a" := 1] && Hookings(again, once) == [Hooking("a", 1)]
  {
    var x, y := MapLine("a", 1, true, true, 0, true, false), MapLine("a", 2, true, true, 0, true, true);
    assert Accepted([hook], [], x) && Accepted([hook], [], y);
    hide Accepted, Effective, Bases, Hookings;
    EffectiveTwo([hook], [], {}, x, y);
    BasesOne(y);
    EffectiveTwo([hook], [], {"a"}, x, y);
    assert map["a" := 2].Keys == {"a"};
    BasesOne(x);
    BasesSnoc([x], y);
    HookingsTwo(x, y, map["a" := 2]);
  }

  lemma EffectiveTwo(hooks: seq<HookInfo>, ignores: seq<IgnoreInfo>, known: set<string>, x: MapLine, y: MapLine)
    ensures Effective(hooks, ignores, known, [x, y]) ==
      (if Counts(hooks, ignores, known, x) then [x] else []) + (if Counts(hooks, ignores, known, y) then [y] else [])
  {
    hide Counts;
    assert [x, y][..1] == [x] && [x][..0] == [];
    assert Effective(hooks, ignores, known, [x]) == if Counts(hooks, ignores, known, x) then [x] else [];
  }

  lemma BasesOne(x: MapLine)
    ensures Bases([x]) == map[x.path := x.base]
  {
    assert [x][..0] == [];
  }

  lemma HookingsTwo(x: MapLine, y: MapLine, before: Table)
    requires x.path == y.path && x.path in before && before[x.path] != x.base
    ensures Hookings([x, y], before) == [Hooking(x.path, x.base)]
  {
    assert [x, y][..1] == [x] && [x][..0] == [];
    BasesOne(x);
    assert Hookings([x], before) == [Hooking(x.path, x.base)];
  }
}

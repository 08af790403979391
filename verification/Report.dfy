/** Merging of leak reports: traces with equal stacks become one, in descending order of size. */
module Report {
  import opened Strings
  import opened Words

  datatype Frame = Frame(pc: string, path: string, desc: string)

  datatype Trace = Trace(id: string, size: nat, count: nat, stack: seq<Frame>)

  // ----- the comparisons -----

  /** `Frame.__eq__`: the description does not count. */
  predicate SameFrame(a: Frame, b: Frame) { a.pc == b.pc && a.path == b.path }

  /** `Frame.__sub__`. */
  function FrameSub(a: Frame, b: Frame): int {
    if SameFrame(a, b) then 0 else if StrCmp(a.pc, b.pc) > 0 then -1 else 1
  }

  /** The comparison is antisymmetric exactly where frames that share a pc share the path. */
  lemma FrameSubAntisymmetric(a: Frame, b: Frame)
    ensures FrameSub(a, b) == -FrameSub(b, a) <==> (a.pc == b.pc ==> a.path == b.path)
  {
    StrCmpFlip(a.pc, b.pc);
    StrCmpZero(a.pc, b.pc);
  }

  /** A pair of frames for which it is not: each is sorted after the other. */
  lemma FrameSubCounterexample()
    ensures var a, b := Frame("0x1", "/x.so", ""), Frame("0x1", "/y.so", ""); FrameSub(a, b) == 1 && FrameSub(b, a) == 1
  {
    StrCmpZero("0x1", "0x1");
    assert "/x.so"[1] != "/y.so"[1];
  }

  /** The loops of `Trace.__eq__` and `Trace.__sub__` over stacks of equal length. */
  predicate SameFrames(a: seq<Frame>, b: seq<Frame>)
    requires |a| == |b|
  {
    a != [] ==> SameFrame(a[0], b[0]) && SameFrames(a[1..], b[1..])
  }

  function FramesSub(a: seq<Frame>, b: seq<Frame>): int
    requires |a| == |b|
  {
    if a == [] then 0 else if !SameFrame(a[0], b[0]) then FrameSub(a[0], b[0]) else FramesSub(a[1..], b[1..])
  }

  predicate SameStack(a: Trace, b: Trace) { |a.stack| == |b.stack| && SameFrames(a.stack, b.stack) }

  /** `Trace.__sub__`: longer stacks first, then the first differing frame decides. */
  function TraceSub(a: Trace, b: Trace): int {
    if |a.stack| != |b.stack| then (if |a.stack| > |b.stack| then -1 else 1) else FramesSub(a.stack, b.stack)
  }

  /** Longer stacks come first; between stacks of equal length the one with the greater pc at the first differing
      frame. */
  lemma TraceSubIs(a: Trace, b: Trace, k: nat)
    ensures |a.stack| > |b.stack| ==> TraceSub(a, b) == -1
    ensures |a.stack| < |b.stack| ==> TraceSub(a, b) == 1
    ensures |a.stack| == |b.stack| && FirstDiffering(a.stack, b.stack, k) ==>
      TraceSub(a, b) == if StrCmp(b.stack[k].pc, a.stack[k].pc) < 0 then -1 else 1
  {
    if |a.stack| == |b.stack| && FirstDiffering(a.stack, b.stack, k) { FramesSubIs(a.stack, b.stack, k); }
  }

  predicate FirstDiffering(a: seq<Frame>, b: seq<Frame>, k: nat)
    requires |a| == |b|
  {
    k < |a| && !SameFrame(a[k], b[k]) && forall i :: 0 <= i < k ==> SameFrame(a[i], b[i])
  }

  lemma {:induction false} FramesSubIs(a: seq<Frame>, b: seq<Frame>, k: nat)
    requires |a| == |b| && FirstDiffering(a, b, k)
    ensures FramesSub(a, b) == if StrCmp(b[k].pc, a[k].pc) < 0 then -1 else 1
    decreases |a|
  {
    StrCmpFlip(a[0].pc, b[0].pc);
    if k > 0 {
      assert SameFrame(a[0], b[0]);
      FramesSubIs(a[1..], b[1..], k - 1);
    }
  }

  /** What identifies a stack. */
  function Key(s: seq<Frame>): seq<(string, string)> {
    if s == [] then [] else [(s[0].pc, s[0].path)] + Key(s[1..])
  }

  lemma {:induction false} KeyLength(s: seq<Frame>)
    ensures |Key(s)| == |s|
  {
    if s != [] { KeyLength(s[1..]); }
  }

  lemma {:induction false} SameFramesIsKey(a: seq<Frame>, b: seq<Frame>)
    requires |a| == |b|
    ensures SameFrames(a, b) <==> Key(a) == Key(b)
    ensures FramesSub(a, b) == 0 <==> Key(a) == Key(b)
    decreases |a|
  {
    if a != [] {
      SameFramesIsKey(a[1..], b[1..]);
      assert Key(a)[0] == (a[0].pc, a[0].path) && Key(b)[0] == (b[0].pc, b[0].path);
      assert Key(a)[1..] == Key(a[1..]) && Key(b)[1..] == Key(b[1..]);
    }
  }

  /** The comparator is zero exactly on equal stacks. */
  lemma TraceSubZero(a: Trace, b: Trace)
    ensures SameStack(a, b) <==> Key(a.stack) == Key(b.stack)
    ensures TraceSub(a, b) == 0 <==> Key(a.stack) == Key(b.stack)
  {
    KeyLength(a.stack);
    KeyLength(b.stack);
    if |a.stack| == |b.stack| { SameFramesIsKey(a.stack, b.stack); }
  }

  /** Frames that share a pc share the path. */
  predicate Agree(a: seq<Frame>, b: seq<Frame>) {
    forall i, j :: 0 <= i < |a| && 0 <= j < |b| && a[i].pc == b[j].pc ==> a[i].path == b[j].path
  }

  lemma {:induction false} FramesFlip(a: seq<Frame>, b: seq<Frame>)
    requires |a| == |b| && Agree(a, b)
    ensures FramesSub(a, b) == -FramesSub(b, a)
    decreases |a|
  {
    if a != [] {
      FrameSubAntisymmetric(a[0], b[0]);
      if SameFrame(a[0], b[0]) { FramesFlip(a[1..], b[1..]); }
    }
  }

  lemma FrameTransitive(a: Frame, b: Frame, c: Frame)
    requires FrameSub(a, b) < 0 && FrameSub(b, c) < 0
    ensures FrameSub(a, c) < 0
  {
    StrCmpFlip(a.pc, b.pc);
    StrCmpFlip(b.pc, c.pc);
    StrCmpFlip(a.pc, c.pc);
    StrCmpTransitive(c.pc, b.pc, a.pc);
    StrCmpZero(a.pc, c.pc);
  }

  lemma SameFrameSub(a: Frame, b: Frame, c: Frame)
    requires SameFrame(a, b)
    ensures FrameSub(a, c) == FrameSub(b, c) && FrameSub(c, a) == FrameSub(c, b)
  {
  }

  lemma {:induction false} FramesTransitive(a: seq<Frame>, b: seq<Frame>, c: seq<Frame>)
    requires |a| == |b| == |c| && FramesSub(a, b) <= 0 && FramesSub(b, c) <= 0
    ensures FramesSub(a, c) <= 0 && (FramesSub(a, b) < 0 || FramesSub(b, c) < 0 ==> FramesSub(a, c) < 0)
    decreases |a|
  {
    if a != [] {
      if SameFrame(a[0], b[0]) { SameFrameSub(a[0], b[0], c[0]); }
      if SameFrame(b[0], c[0]) { SameFrameSub(b[0], c[0], a[0]); }
      if SameFrame(a[0], b[0]) && SameFrame(b[0], c[0]) {
        FramesTransitive(a[1..], b[1..], c[1..]);
      } else if !SameFrame(a[0], b[0]) && !SameFrame(b[0], c[0]) {
        FrameTransitive(a[0], b[0], c[0]);
      }
    }
  }

  /** The comparator is transitive. */
  lemma TraceSubTransitive(a: Trace, b: Trace, c: Trace)
    requires TraceSub(a, b) <= 0 && TraceSub(b, c) <= 0
    ensures TraceSub(a, c) <= 0 && (TraceSub(a, b) < 0 || TraceSub(b, c) < 0 ==> TraceSub(a, c) < 0)
  {
    if |a.stack| == |b.stack| == |c.stack| { FramesTransitive(a.stack, b.stack, c.stack); }
  }

  /** On a report where equal pcs imply equal paths it is antisymmetric, hence a total preorder. */
  lemma TraceSubFlip(a: Trace, b: Trace)
    requires Agree(a.stack, b.stack)
    ensures TraceSub(a, b) == -TraceSub(b, a)
  {
    if |a.stack| == |b.stack| { FramesFlip(a.stack, b.stack); }
  }

  ghost predicate Consistent(report: seq<Trace>) {
    forall i, j :: 0 <= i < |report| && 0 <= j < |report| ==> Agree(report[i].stack, report[j].stack)
  }

  // ----- sorting -----

  /** A stable insertion, for `list.sort`. */
  function Insert(cmp: (Trace, Trace) -> int, x: Trace, s: seq<Trace>): seq<Trace> {
    if s == [] then [x] else if cmp(x, s[0]) <= 0 then [x] + s else [s[0]] + Insert(cmp, x, s[1..])
  }

  function Sort(cmp: (Trace, Trace) -> int, s: seq<Trace>): seq<Trace> {
    if s == [] then [] else Insert(cmp, s[0], Sort(cmp, s[1..]))
  }

  lemma {:induction false} InsertContents(cmp: (Trace, Trace) -> int, x: Trace, s: seq<Trace>)
    ensures multiset(Insert(cmp, x, s)) == multiset{x} + multiset(s)
  {
    if s != [] {
      InsertContents(cmp, x, s[1..]);
      assert s == [s[0]] + s[1..];
    }
  }

  lemma {:induction false} SortContents(cmp: (Trace, Trace) -> int, s: seq<Trace>)
    ensures multiset(Sort(cmp, s)) == multiset(s)
  {
    if s != [] {
      SortContents(cmp, s[1..]);
      InsertContents(cmp, s[0], Sort(cmp, s[1..]));
      assert s == [s[0]] + s[1..];
    }
  }

  predicate SortedBy(cmp: (Trace, Trace) -> int, s: seq<Trace>) {
    forall i, j :: 0 <= i < j < |s| ==> cmp(s[i], s[j]) <= 0
  }

  /** A total preorder on the elements of `s`. */
  ghost predicate Preorder(cmp: (Trace, Trace) -> int, s: multiset<Trace>) {
    && (forall x, y :: x in s && y in s ==> cmp(x, y) <= 0 || cmp(y, x) <= 0)
    && (forall x, y, z :: x in s && y in s && z in s && cmp(x, y) <= 0 && cmp(y, z) <= 0 ==> cmp(x, z) <= 0)
  }

  lemma PrependSorts(cmp: (Trace, Trace) -> int, x: Trace, s: seq<Trace>)
    requires SortedBy(cmp, s) && forall j :: 0 <= j < |s| ==> cmp(x, s[j]) <= 0
    ensures SortedBy(cmp, [x] + s)
  {
    var r := [x] + s;
    forall i, j | 0 <= i < j < |r|
      ensures cmp(r[i], r[j]) <= 0
    {
      assert r[j] == s[j - 1] && (i > 0 ==> r[i] == s[i - 1]);
    }
  }

  /** The first element precedes the rest of a sorted list, and so does anything before it. */
  lemma Precedes(cmp: (Trace, Trace) -> int, x: Trace, s: seq<Trace>)
    requires SortedBy(cmp, s) && s != [] && cmp(x, s[0]) <= 0 && Preorder(cmp, multiset{x} + multiset(s))
    ensures forall j :: 0 <= j < |s| ==> cmp(x, s[j]) <= 0
  {
    forall j | 0 <= j < |s|
      ensures cmp(x, s[j]) <= 0
    {
      assert s[0] in multiset(s) && s[j] in multiset(s);
      if j > 0 { assert cmp(s[0], s[j]) <= 0; }
    }
  }

  lemma PreorderPart(cmp: (Trace, Trace) -> int, s: multiset<Trace>, part: multiset<Trace>)
    requires Preorder(cmp, s) && part <= s
    ensures Preorder(cmp, part)
  {
    assert forall x :: x in part ==> x in s;
  }

  lemma Total(cmp: (Trace, Trace) -> int, s: multiset<Trace>, x: Trace, y: Trace)
    requires Preorder(cmp, s) && x in s && y in s && cmp(x, y) > 0
    ensures cmp(y, x) <= 0
  {
  }

  lemma {:induction false} InsertSorts(cmp: (Trace, Trace) -> int, x: Trace, s: seq<Trace>)
    requires SortedBy(cmp, s) && Preorder(cmp, multiset{x} + multiset(s))
    ensures SortedBy(cmp, Insert(cmp, x, s))
  {
    hide Preorder;
    if s == [] {
    } else if cmp(x, s[0]) <= 0 {
      Precedes(cmp, x, s);
      PrependSorts(cmp, x, s);
    } else {
      assert s == [s[0]] + s[1..];
      var t := Insert(cmp, x, s[1..]);
      Total(cmp, multiset{x} + multiset(s), x, s[0]);
      PreorderPart(cmp, multiset{x} + multiset(s), multiset{x} + multiset(s[1..]));
      InsertSorts(cmp, x, s[1..]);
      InsertContents(cmp, x, s[1..]);
      FirstPrecedes(cmp, x, s, t);
      PrependSorts(cmp, s[0], t);
    }
  }

  lemma FirstPrecedes(cmp: (Trace, Trace) -> int, x: Trace, s: seq<Trace>, t: seq<Trace>)
    requires s != [] && SortedBy(cmp, s) && cmp(s[0], x) <= 0 && multiset(t) == multiset{x} + multiset(s[1..])
    ensures forall j :: 0 <= j < |t| ==> cmp(s[0], t[j]) <= 0
  {
    forall j | 0 <= j < |t|
      ensures cmp(s[0], t[j]) <= 0
    {
      assert t[j] in multiset(t);
      if t[j] != x {
        assert t[j] in multiset(s[1..]);
        var k :| 0 <= k < |s[1..]| && s[1..][k] == t[j];
        assert s[k + 1] == t[j];
      }
    }
  }

  lemma {:induction false} SortSorts(cmp: (Trace, Trace) -> int, s: seq<Trace>)
    requires Preorder(cmp, multiset(s))
    ensures SortedBy(cmp, Sort(cmp, s))
  {
    hide Preorder;
    if s != [] {
      assert s == [s[0]] + s[1..];
      PreorderPart(cmp, multiset(s), multiset(s[1..]));
      SortSorts(cmp, s[1..]);
      SortContents(cmp, s[1..]);
      InsertSorts(cmp, s[0], Sort(cmp, s[1..]));
    }
  }

  function BySize(a: Trace, b: Trace): int { b.size - a.size }

  lemma ReportPreorder(s: seq<Trace>)
    requires Consistent(s)
    ensures Preorder(TraceSub, multiset(s))
  {
    forall x, y | x in multiset(s) && y in multiset(s)
      ensures TraceSub(x, y) <= 0 || TraceSub(y, x) <= 0
    {
      var i :| 0 <= i < |s| && s[i] == x;
      var j :| 0 <= j < |s| && s[j] == y;
      TraceSubFlip(x, y);
    }
    forall x, y, z | x in multiset(s) && y in multiset(s) && z in multiset(s) && TraceSub(x, y) <= 0
        && TraceSub(y, z) <= 0
      ensures TraceSub(x, z) <= 0
    {
      TraceSubTransitive(x, y, z);
    }
  }

  // ----- merging -----

  /** What merging adds to a record: the size of the other one, and 1 to the count whatever the other's count. */
  function Absorb(r: Trace, t: Trace): Trace { r.(size := r.size + t.size, count := r.count + 1) }

  /** Merging neighbours with equal stacks. */
  function MergeRuns(r: Trace, rest: seq<Trace>): seq<Trace>
    decreases |rest|
  {
    if rest == [] then [r]
    else if SameStack(r, rest[0]) then MergeRuns(Absorb(r, rest[0]), rest[1..])
    else [r] + MergeRuns(rest[0], rest[1..])
  }

  function Merged(report: seq<Trace>): seq<Trace>
    requires report != []
  {
    var s := Sort(TraceSub, report);
    SortContents(TraceSub, report);
    SameSize(s, report);
    Sort(BySize, MergeRuns(s[0], s[1..]))
  }

  lemma SameSize(s: seq<Trace>, t: seq<Trace>)
    requires multiset(s) == multiset(t)
    ensures |s| == |t|
  {
    assert |s| == |multiset(s)| && |t| == |multiset(t)|;
  }

  /** `merge_report`. */
  method MergeReport(report: seq<Trace>) returns (merged: seq<Trace>)
    requires report != []
    ensures merged == Merged(report)
  {
    hide MergeRuns;
    var sorted := Sort(TraceSub, report);
    SortContents(TraceSub, report);
    SameSize(sorted, report);
    var record := sorted[0];
    merged := [];
    var i := 1;
    while i < |sorted|
      invariant 1 <= i <= |sorted| && merged + MergeRuns(record, sorted[i..]) == MergeRuns(sorted[0], sorted[1..])
    {
      MergeStep(record, sorted[i..]);
      assert sorted[i..][1..] == sorted[i + 1..];
      if SameStack(record, sorted[i]) {
        record := Absorb(record, sorted[i]);
      } else {
        merged := merged + [record];
        record := sorted[i];
      }
      i := i + 1;
    }
    MergeStep(record, []);
    assert sorted[i..] == [];
    merged := merged + [record];
    merged := Sort(BySize, merged);
  }

  lemma MergeStep(r: Trace, rest: seq<Trace>)
    ensures MergeRuns(r, rest) ==
      if rest == [] then [r]
      else if SameStack(r, rest[0]) then MergeRuns(Absorb(r, rest[0]), rest[1..])
      else [r] + MergeRuns(rest[0], rest[1..])
  {
  }

  /** The summed size, and the summed count, of the traces with a stack. */
  function SizeOf(s: seq<Trace>, key: seq<(string, string)>): nat {
    if s == [] then 0 else (if Key(s[0].stack) == key then s[0].size else 0) + SizeOf(s[1..], key)
  }

  function TotalSize(s: seq<Trace>): nat { if s == [] then 0 else s[0].size + TotalSize(s[1..]) }

  function TotalCount(s: seq<Trace>): nat { if s == [] then 0 else s[0].count + TotalCount(s[1..]) }

  lemma {:induction false} InsertSums(cmp: (Trace, Trace) -> int, x: Trace, s: seq<Trace>, key: seq<(string, string)>)
    ensures SizeOf(Insert(cmp, x, s), key) == SizeOf([x] + s, key)
    ensures TotalSize(Insert(cmp, x, s)) == x.size + TotalSize(s)
      && TotalCount(Insert(cmp, x, s)) == x.count + TotalCount(s)
  {
    assert ([x] + s)[1..] == s;
    if s != [] && cmp(x, s[0]) > 0 {
      InsertSums(cmp, x, s[1..], key);
      assert ([s[0]] + Insert(cmp, x, s[1..]))[1..] == Insert(cmp, x, s[1..]) && ([x] + s[1..])[1..] == s[1..];
    }
  }

  lemma {:induction false} SortSums(cmp: (Trace, Trace) -> int, s: seq<Trace>, key: seq<(string, string)>)
    ensures SizeOf(Sort(cmp, s), key) == SizeOf(s, key)
    ensures TotalSize(Sort(cmp, s)) == TotalSize(s) && TotalCount(Sort(cmp, s)) == TotalCount(s)
  {
    if s != [] {
      SortSums(cmp, s[1..], key);
      InsertSums(cmp, s[0], Sort(cmp, s[1..]), key);
      assert ([s[0]] + Sort(cmp, s[1..]))[1..] == Sort(cmp, s[1..]);
    }
  }

  lemma {:induction false} MergeSums(r: Trace, rest: seq<Trace>, key: seq<(string, string)>)
    ensures SizeOf(MergeRuns(r, rest), key) == (if Key(r.stack) == key then r.size else 0) + SizeOf(rest, key)
    ensures TotalSize(MergeRuns(r, rest)) == r.size + TotalSize(rest)
    ensures (forall i :: 0 <= i < |rest| ==> rest[i].count == 1) ==>
      TotalCount(MergeRuns(r, rest)) == r.count + TotalCount(rest)
    decreases |rest|
  {
    if rest != [] {
      TraceSubZero(r, rest[0]);
      if SameStack(r, rest[0]) {
        MergeSums(Absorb(r, rest[0]), rest[1..], key);
      } else {
        MergeSums(rest[0], rest[1..], key);
        assert MergeRuns(r, rest)[1..] == MergeRuns(rest[0], rest[1..]);
      }
    }
  }

  /** Total size is conserved for every report, and total count when every input count is 1. */
  lemma MergeConserves(report: seq<Trace>, key: seq<(string, string)>)
    requires report != []
    ensures TotalSize(Merged(report)) == TotalSize(report)
    ensures SizeOf(Merged(report), key) == SizeOf(report, key)
    ensures (forall i :: 0 <= i < |report| ==> report[i].count == 1) ==>
      TotalCount(Merged(report)) == TotalCount(report)
  {
    var s := Sort(TraceSub, report);
    SortContents(TraceSub, report);
    SameSize(s, report);
    SortSums(TraceSub, report, key);
    MergeSums(s[0], s[1..], key);
    SortSums(BySize, MergeRuns(s[0], s[1..]), key);
    if forall i :: 0 <= i < |report| ==> report[i].count == 1 {
      forall i | 0 <= i < |s|
        ensures s[i].count == 1
      {
        assert s[i] in multiset(report);
      }
      forall i | 0 <= i < |s[1..]|
        ensures s[1..][i].count == 1
      {
        assert s[1..][i] == s[i + 1];
      }
    }
  }

  /** How many records have a stack. */
  function CountOf(s: seq<Trace>, key: seq<(string, string)>): nat {
    if s == [] then 0 else (if Key(s[0].stack) == key then 1 else 0) + CountOf(s[1..], key)
  }

  lemma {:induction false} InsertCounts(cmp: (Trace, Trace) -> int, x: Trace, s: seq<Trace>, key: seq<(string, string)>)
    ensures CountOf(Insert(cmp, x, s), key) == (if Key(x.stack) == key then 1 else 0) + CountOf(s, key)
  {
    assert ([x] + s)[1..] == s;
    if s != [] && cmp(x, s[0]) > 0 {
      InsertCounts(cmp, x, s[1..], key);
      assert ([s[0]] + Insert(cmp, x, s[1..]))[1..] == Insert(cmp, x, s[1..]);
    }
  }

  lemma {:induction false} SortCounts(cmp: (Trace, Trace) -> int, s: seq<Trace>, key: seq<(string, string)>)
    ensures CountOf(Sort(cmp, s), key) == CountOf(s, key)
  {
    if s != [] {
      SortCounts(cmp, s[1..], key);
      InsertCounts(cmp, s[0], Sort(cmp, s[1..]), key);
    }
  }

  lemma {:induction false} NoneCounted(s: seq<Trace>, key: seq<(string, string)>)
    requires forall i :: 0 <= i < |s| ==> Key(s[i].stack) != key
    ensures CountOf(s, key) == 0
  {
    if s != [] { NoneCounted(s[1..], key); }
  }

  /** In sorted order equal stacks are neighbours, so each stack comes out once. */
  lemma {:induction false} MergeOnce(r: Trace, rest: seq<Trace>, key: seq<(string, string)>)
    requires SortedBy(TraceSub, rest) && forall i :: 0 <= i < |rest| ==> TraceSub(r, rest[i]) <= 0
    ensures CountOf(MergeRuns(r, rest), key) == if Key(r.stack) == key || CountOf(rest, key) > 0 then 1 else 0
    decreases |rest|
  {
    hide TraceSub, SameStack;
    if rest == [] {
    } else {
      TraceSubZero(r, rest[0]);
      TailSorted(rest);
      if SameStack(r, rest[0]) {
        var a := Absorb(r, rest[0]);
        forall i | 0 <= i < |rest[1..]|
          ensures TraceSub(a, rest[1..][i]) <= 0
        {
          StackOnly(a, r, rest[1..][i]);
          assert rest[1..][i] == rest[i + 1];
        }
        MergeOnce(a, rest[1..], key);
      } else {
        MergeOnce(rest[0], rest[1..], key);
        assert MergeRuns(r, rest)[1..] == MergeRuns(rest[0], rest[1..]);
        if Key(r.stack) == key {
          forall i | 0 <= i < |rest|
            ensures Key(rest[i].stack) != key
          {
            TraceSubZero(rest[0], rest[i]);
            TraceSubZero(r, rest[i]);
            TraceSubTransitive(r, rest[0], rest[i]);
          }
          NoneCounted(rest, key);
        }
      }
    }
  }

  lemma TailSorted(s: seq<Trace>)
    requires SortedBy(TraceSub, s) && s != []
    ensures SortedBy(TraceSub, s[1..]) && (forall i :: 0 <= i < |s[1..]| ==> TraceSub(s[0], s[1..][i]) <= 0)
    ensures forall i :: 0 <= i < |s| ==> TraceSub(s[0], s[i]) <= 0
  {
    hide TraceSub;
    TraceSubZero(s[0], s[0]);
    forall i | 0 <= i < |s[1..]|
      ensures TraceSub(s[0], s[1..][i]) <= 0
    {
      assert s[1..][i] == s[i + 1];
    }
  }

  /** The comparison looks at stacks only. */
  lemma StackOnly(a: Trace, r: Trace, t: Trace)
    requires a.stack == r.stack
    ensures TraceSub(a, t) == TraceSub(r, t)
  {
  }

  lemma SizePreorder(s: multiset<Trace>)
    ensures Preorder(BySize, s)
  {
  }

  /** For a report where equal pcs imply equal paths, each distinct stack is merged into one record with its summed
      size, and the records come in descending order of size. */
  lemma EachStackOnce(report: seq<Trace>, key: seq<(string, string)>)
    requires report != [] && Consistent(report)
    ensures CountOf(Merged(report), key) == if CountOf(report, key) > 0 then 1 else 0
    ensures SizeOf(Merged(report), key) == SizeOf(report, key)
    ensures forall i, j :: 0 <= i < j < |Merged(report)| ==> Merged(report)[i].size >= Merged(report)[j].size
  {
    hide MergeRuns;
    var s := Sort(TraceSub, report);
    SortContents(TraceSub, report);
    SameSize(s, report);
    ReportPreorder(report);
    SortSorts(TraceSub, report);
    TailSorted(s);
    SortCounts(TraceSub, report, key);
    MergeOnce(s[0], s[1..], key);
    var m := MergeRuns(s[0], s[1..]);
    SortCounts(BySize, m, key);
    MergeConserves(report, key);
    SizePreorder(multiset(m));
    SortSorts(BySize, m);
  }

  // ----- groups -----

  /** The library a frame's path names, if any: the regular expression of the source as a function. */
  type LibraryOf = string -> Option<string>

  const SYSTEM_GROUP: seq<string> := ["libhwui.so", "libsqlite.so", "WebViewGoogle.apk", "libstagefright.so",
      "libcamera_client.so", "libandroid_runtime.so"]

  predicate StartsWith(s: string, prefix: string) { |prefix| <= |s| && s[..|prefix|] == prefix }

  /** `group_record`: the first application library, else the first system library of the list, else `extras`. */
  function GroupOf(lib: LibraryOf, stack: seq<Frame>, fallback: Option<string>): string {
    if stack == [] then (if fallback.Some? then fallback.value else "extras")
    else
      var f := stack[0];
      var l := lib(f.path);
      if l.None? || l.value == "libraphael.so" then GroupOf(lib, stack[1..], fallback)
      else if StartsWith(f.path, "/data/") then l.value
      else GroupOf(lib, stack[1..], if l.value in SYSTEM_GROUP && fallback.None? then l else fallback)
  }

  /** A frame in a library of an application other than the tracker itself. */
  predicate OfApp(lib: LibraryOf, f: Frame) {
    lib(f.path).Some? && lib(f.path) != Some("libraphael.so") && |f.path| >= 6 && f.path[..6] == "/data/"
  }

  /** A frame in one of the named system libraries. */
  predicate OfSystem(lib: LibraryOf, f: Frame) { lib(f.path).Some? && lib(f.path).value in SYSTEM_GROUP }

  /** The group is the library of the first application frame. */
  lemma {:induction false} AppGroup(lib: LibraryOf, stack: seq<Frame>, fallback: Option<string>, i: nat)
    requires i < |stack| && OfApp(lib, stack[i]) && forall k :: 0 <= k < i ==> !OfApp(lib, stack[k])
    ensures lib(stack[i].path) == Some(GroupOf(lib, stack, fallback))
  {
    if i > 0 {
      assert !OfApp(lib, stack[0]);
      AppGroup(lib, stack[1..], fallback, i - 1);
      AppGroup(lib, stack[1..], lib(stack[0].path), i - 1);
    }
  }

  lemma {:induction false} FallbackGroup(lib: LibraryOf, stack: seq<Frame>, name: string)
    requires forall k :: 0 <= k < |stack| ==> !OfApp(lib, stack[k])
    ensures GroupOf(lib, stack, Some(name)) == name
  {
    if stack != [] {
      assert !OfApp(lib, stack[0]);
      FallbackGroup(lib, stack[1..], name);
    }
  }

  /** A stack without one belongs to the library of the first system frame. */
  lemma {:induction false} SystemGroup(lib: LibraryOf, stack: seq<Frame>, i: nat)
    requires forall k :: 0 <= k < |stack| ==> !OfApp(lib, stack[k])
    requires i < |stack| && OfSystem(lib, stack[i]) && forall k :: 0 <= k < i ==> !OfSystem(lib, stack[k])
    ensures lib(stack[i].path) == Some(GroupOf(lib, stack, None))
  {
    assert !OfApp(lib, stack[0]);
    NotSystem();
    if i > 0 {
      assert !OfSystem(lib, stack[0]);
      SystemGroup(lib, stack[1..], i - 1);
    } else {
      FallbackGroup(lib, stack[1..], lib(stack[0].path).value);
    }
  }

  lemma NotSystem()
    ensures "libraphael.so" !in SYSTEM_GROUP
  {
    assert "libraphael.so"[3] == 'r';
    assert forall i :: 0 <= i < |SYSTEM_GROUP| ==> SYSTEM_GROUP[i][3] != 'r' || |SYSTEM_GROUP[i]| != 13;
  }

  /** Without either it is one of the extras. */
  lemma {:induction false} ExtraGroup(lib: LibraryOf, stack: seq<Frame>)
    requires forall k :: 0 <= k < |stack| ==> !OfApp(lib, stack[k]) && !OfSystem(lib, stack[k])
    ensures GroupOf(lib, stack, None) == "extras"
  {
    if stack != [] {
      assert !OfApp(lib, stack[0]) && !OfSystem(lib, stack[0]);
      ExtraGroup(lib, stack[1..]);
    }
  }

  /** The dictionary of group totals, in insertion order. */
  type Groups = seq<(string, nat)>

  function Update(g: Groups, name: string, size: nat): Groups {
    if g == [] then [(name, size)]
    else if g[0].0 == name then [(name, size + g[0].1)] + g[1..]
    else [g[0]] + Update(g[1..], name, size)
  }

  function GroupTotal(g: Groups): nat { if g == [] then 0 else g[0].1 + GroupTotal(g[1..]) }

  function Lookup(g: Groups, name: string): nat {
    if g == [] then 0 else if g[0].0 == name then g[0].1 else Lookup(g[1..], name)
  }

  /** The summed size of the records of a group. */
  function SizeInGroup(lib: LibraryOf, report: seq<Trace>, name: string): nat {
    if report == [] then 0
    else
      var last := report[|report| - 1];
      SizeInGroup(lib, report[..|report| - 1], name) + if GroupOf(lib, last.stack, None) == name then last.size else 0
  }

  lemma {:induction false} UpdateTotals(g: Groups, name: string, size: nat, other: string)
    ensures GroupTotal(Update(g, name, size)) == GroupTotal(g) + size
    ensures Lookup(Update(g, name, size), other) == Lookup(g, other) + if other == name then size else 0
  {
    if g != [] {
      if g[0].0 != name { UpdateTotals(g[1..], name, size, other); }
    }
  }

  lemma {:induction false} TotalSizeSplit(s: seq<Trace>)
    requires s != []
    ensures TotalSize(s) == TotalSize(s[..|s| - 1]) + s[|s| - 1].size
  {
    if |s| > 1 {
      TotalSizeSplit(s[1..]);
      assert s[1..][..|s[1..]| - 1] == s[..|s| - 1][1..];
    }
  }

  /** The totals of `print_report`: each group has the summed size of its records, and the groups sum
      to the grand total. */
  method Totals(lib: LibraryOf, report: seq<Trace>) returns (groups: Groups, totals: nat)
    ensures totals == TotalSize(report) == GroupTotal(groups)
    ensures forall name :: Lookup(groups, name) == SizeInGroup(lib, report, name)
  {
    groups, totals := [], 0;
    var i := 0;
    while i < |report|
      invariant 0 <= i <= |report| && totals == TotalSize(report[..i]) == GroupTotal(groups)
      invariant forall name :: Lookup(groups, name) == SizeInGroup(lib, report[..i], name)
    {
      var name := GroupOf(lib, report[i].stack, None);
      var size := report[i].size;
      ghost var part := report[..i + 1];
      assert part[..|part| - 1] == report[..i] && part[|part| - 1] == report[i];
      TotalSizeSplit(part);
      UpdateTotals(groups, name, size, name);
      forall other: string
        ensures Lookup(Update(groups, name, size), other) == Lookup(groups, other) + if other == name then size else 0
      {
        UpdateTotals(groups, name, size, other);
      }
      groups := Update(groups, name, size);
      totals := totals + size;
      i := i + 1;
    }
    assert report[..i] == report;
  }
}

/** The lookup of an argument profile: it expands the arguments level by level along a tree of
    cached nodes, and turns the levels into depth-first order when it creates a new profile. */
module ArgumentProfile {
  import opened ArgumentLayout
  import opened ArgumentTypes

  datatype Option<T> = None | Some(value: T)

  const MAX_AGGREGATE_NESTING_DEPTH: nat := 64

  /** An aggregate among the arguments: its index in the layout, and its type. */
  datatype AggregateInfo = AggregateInfo(index: nat, id: nat)

  function IsAggregate(t: TypeSlot): bool { t.AggregateType? }

  /** The aggregates at positions lo to hi. */
  function AggregateArgs(types: seq<TypeSlot>, lo: nat, hi: nat): seq<AggregateInfo>
    requires hi <= |types|
  {
    if lo >= hi then []
    else
      AggregateArgs(types, lo, hi - 1)
      + (if types[hi - 1].AggregateType? then [AggregateInfo(hi - 1, types[hi - 1].id)] else [])
  }

  /** The type recorded for a position, if it is an aggregate's. */
  function FindAggregate(infos: seq<AggregateInfo>, index: nat): Option<nat> {
    if infos == [] then None
    else if infos[0].index == index then Some(infos[0].id)
    else FindAggregate(infos[1..], index)
  }

  lemma {:induction false} FindInSum(a: seq<AggregateInfo>, b: seq<AggregateInfo>, index: nat)
    ensures FindAggregate(a + b, index)
            == if FindAggregate(a, index).Some? then FindAggregate(a, index) else FindAggregate(b, index)
  {
    if a == [] {
      assert a + b == b;
    } else {
      FindInSum(a[1..], b, index);
      assert (a + b)[1..] == a[1..] + b;
    }
  }

  lemma {:induction false} FoundIffAggregate(types: seq<TypeSlot>, lo: nat, hi: nat, index: nat)
    requires hi <= |types|
    ensures FindAggregate(AggregateArgs(types, lo, hi), index)
            == if lo <= index < hi && types[index].AggregateType? then Some(types[index].id) else None
  {
    if lo < hi {
      FoundIffAggregate(types, lo, hi - 1, index);
      FindInSum(AggregateArgs(types, lo, hi - 1),
        if types[hi - 1].AggregateType? then [AggregateInfo(hi - 1, types[hi - 1].id)] else [], index);
    }
  }

  lemma {:induction false} AggregateArgsCount(types: seq<TypeSlot>, lo: nat, hi: nat)
    requires lo <= hi <= |types|
    ensures |AggregateArgs(types, lo, hi)| == Count(IsAggregate, types[lo..hi])
  {
    if lo < hi {
      AggregateArgsCount(types, lo, hi - 1);
      assert types[lo..hi] == types[lo..hi - 1] + [types[hi - 1]];
      CountSum(IsAggregate, types[lo..hi - 1], [types[hi - 1]]);
      CountOne(IsAggregate, types[hi - 1]);
    }
  }

  // ---- pyargs_breadth2depth ----

  /** What the traversal needs of an expanded level. */
  datatype PathNode = PathNode(size: nat, aggregates: seq<AggregateInfo>)

  ghost predicate PathFits(path: seq<PathNode>, types: seq<TypeSlot>, starts: seq<nat>, ends: seq<nat>) {
    && |starts| == |ends| == |path| + 1
    && (forall k :: 0 <= k < |path| ==>
          starts[k] <= ends[k] <= |types| && ends[k] == starts[k] + path[k].size + 1
          && path[k].aggregates == AggregateArgs(types, starts[k], ends[k]))
  }

  /** Levels follow each other without a gap. */
  ghost predicate Contiguous(starts: seq<nat>, ends: seq<nat>) {
    && |starts| == |ends| > 0 && starts[0] == 0
    && forall k :: 0 < k < |starts| ==> Joined(starts, ends, k)
  }

  ghost predicate Joined(starts: seq<nat>, ends: seq<nat>, k: nat)
    requires 0 < k < |starts| && |starts| == |ends|
  {
    starts[k] == ends[k - 1]
  }

  function AggregateTypes(types: seq<TypeSlot>): seq<Option<nat>> {
    seq(|types|, i requires 0 <= i < |types| =>
      if types[i].AggregateType? then Some(types[i].id) else None)
  }

  function TotalAggregates(path: seq<PathNode>): nat {
    if path == [] then 0 else TotalAggregates(path[..|path| - 1]) + |path[|path| - 1].aggregates|
  }

  lemma TotalStep(path: seq<PathNode>, k: nat)
    ensures TotalAggregates(path[..0]) == 0
    ensures k < |path| ==> TotalAggregates(path[..k + 1]) == TotalAggregates(path[..k]) + |path[k].aggregates|
  {
    if k < |path| {
      assert path[..k + 1][..k] == path[..k];
    }
  }

  /** The cursors and their ends, from the sizes of the levels. */
  method LevelOffsets(path: seq<PathNode>, leafSize: nat) returns (offsets: seq<nat>, ends: seq<nat>, total: nat)
    ensures Contiguous(offsets, ends) && |ends| == |path| + 1
    ensures forall k :: 0 <= k < |path| ==> ends[k] == offsets[k] + path[k].size + 1
    ensures ends[|path|] == offsets[|path|] + leafSize + 1
    ensures total == TotalAggregates(path)
  {
    hide TotalAggregates;
    offsets, ends := [], [];
    var cumulative := 0;
    TotalStep(path, 0);
    total := 0;
    for k := 0 to |path|
      invariant |offsets| == |ends| == k
      invariant k > 0 ==> offsets[0] == 0 && ends[k - 1] == cumulative
      invariant k == 0 ==> cumulative == 0
      invariant forall j :: 0 < j < k ==> Joined(offsets, ends, j)
      invariant forall j :: 0 <= j < k ==> ends[j] == offsets[j] + path[j].size + 1
      invariant total == TotalAggregates(path[..k])
    {
      offsets := offsets + [cumulative];
      cumulative := cumulative + path[k].size + 1;
      ends := ends + [cumulative];
      total := total + |path[k].aggregates|;
      TotalStep(path, k);
      forall j | 0 < j < k + 1 ensures Joined(offsets, ends, j) {
        assert j < k ==> Joined(offsets[..k], ends[..k], j);
      }
    }
    assert path[..|path|] == path;
    ghost var n := |path|;
    offsets := offsets + [cumulative];
    ends := ends + [cumulative + leafSize + 1];
    forall j | 0 < j < n + 1 ensures Joined(offsets, ends, j) {
      assert j < n ==> Joined(offsets[..n], ends[..n], j);
    }
  }

  method GetAggregateType(infos: seq<AggregateInfo>, index: nat) returns (r: Option<nat>)
    ensures r == FindAggregate(infos, index)
  {
    for i := 0 to |infos|
      invariant FindAggregate(infos[i..], index) == FindAggregate(infos, index)
    {
      if infos[i].index == index {
        return Some(infos[i].id);
      }
    }
    assert infos[|infos|..] == [];
    return None;
  }

  /** Reorders a level-order layout. The traversal that is known to exist is the ghost argument's; the
      asserted conditions are the CHECKs of the loop and after it. */
  method Breadth2Depth(leafSize: nat, path: seq<PathNode>, types: seq<TypeSlot>,
                       ghost starts: seq<nat>, ghost ends: seq<nat>, ghost leafCount: nat)
    returns (depthFirst: seq<TypeSlot>, leaves: seq<nat>, aggregateTypes: seq<Option<nat>>)
    requires Contiguous(starts, ends) && PathFits(path, types, starts, ends)
    requires ends[|path|] == |types| && ends[|path|] == starts[|path|] + leafSize + 1
    requires AggregateArgs(types, starts[|path|], ends[|path|]) == []
    requires var t := Traverse(types, ends, starts, 0);
             && t.Done? && t.cursors == ends
             && |t.types| == |types| && |t.leaves| == leafCount
             && leafCount + 2 * TotalAggregates(path) + 1 == |types|
    ensures var t := Traverse(types, ends, starts, 0);
            && depthFirst == t.types && leaves == t.leaves
            && aggregateTypes == AggregateTypes(t.types)
  {
    hide Traverse, EntriesLeft, AggregateTypes, AggregateArgs, FindAggregate, TotalAggregates, Prepend;
    var offsets, endOffsets, total := LevelOffsets(path, leafSize);
    SameOffsets(offsets, endOffsets, starts, ends);
    hide Contiguous;
    assert total * 2 + 1 <= |types|;
    var totalLeafArgs := |types| - (total * 2 + 1);
    depthFirst, leaves, aggregateTypes := [], [], [];
    var cur := 0;
    ghost var whole := Traverse(types, ends, starts, 0);
    NothingToPrepend(whole);
    NoAggregateTypes();
    while true
      invariant |offsets| == |path| + 1 == |endOffsets| && endOffsets == ends
      invariant forall k :: 0 <= k < |offsets| ==> starts[k] <= offsets[k]
      invariant whole == Prepend(depthFirst, leaves, Traverse(types, ends, offsets, cur))
      invariant aggregateTypes == AggregateTypes(depthFirst)
      decreases EntriesLeft(offsets, ends)
    {
      PrependDone(depthFirst, leaves, Traverse(types, ends, offsets, cur));
      TraverseChecks(types, ends, offsets, cur);
      assert cur < |offsets|;
      var idx := offsets[cur];
      ghost var before := offsets;
      offsets := offsets[cur := idx + 1];
      assert idx < endOffsets[cur];
      assert idx < |types|;
      OneEntryLess(before, ends, cur);
      TraverseUnfold(types, ends, before, cur);
      IsAggregateEntry(path, types, starts, ends, cur, idx);
      var aggregate: Option<nat> := None;
      if types[idx] != NoType && cur < |path| {
        aggregate := GetAggregateType(path[cur].aggregates, idx);
      }
      ghost var df, ls := depthFirst, leaves;
      AggregateTypesPush(df, types[idx]);
      depthFirst := depthFirst + [types[idx]];
      if types[idx] == NoType {
        aggregateTypes := aggregateTypes + [None];
        if cur == 0 {
          PrependLast(df, ls, offsets);
          break;
        }
        cur := cur - 1;
        PrependTwice(df, ls, [NoType], [], Traverse(types, ends, offsets, cur));
      } else if aggregate.Some? {
        cur := cur + 1;
        aggregateTypes := aggregateTypes + [Some(aggregate.value)];
        PrependTwice(df, ls, [types[idx]], [], Traverse(types, ends, offsets, cur));
      } else {
        leaves := leaves + [idx];
        aggregateTypes := aggregateTypes + [None];
        PrependTwice(df, ls, [types[idx]], [idx], Traverse(types, ends, offsets, cur));
      }
    }
    assert |depthFirst| == |types|;
    assert |aggregateTypes| == |types| by {
      SizeOfAggregateTypes(depthFirst);
    }
    assert |leaves| == totalLeafArgs;
    assert offsets == endOffsets;
  }

  lemma {:induction false} SameOffsets(a: seq<nat>, aEnds: seq<nat>, b: seq<nat>, bEnds: seq<nat>)
    requires Contiguous(a, aEnds) && Contiguous(b, bEnds) && |a| == |b|
    requires forall k :: 0 <= k < |a| ==> aEnds[k] + b[k] == bEnds[k] + a[k]
    ensures a == b && aEnds == bEnds
  {
    var k := 0;
    while k < |a|
      invariant 0 <= k <= |a| && a[..k] == b[..k] && aEnds[..k] == bEnds[..k]
    {
      if k > 0 {
        assert Joined(a, aEnds, k) && Joined(b, bEnds, k);
        assert aEnds[k - 1] == aEnds[..k][k - 1] == bEnds[..k][k - 1] == bEnds[k - 1];
      }
      assert a[..k + 1] == a[..k] + [a[k]] && b[..k + 1] == b[..k] + [b[k]];
      assert aEnds[..k + 1] == aEnds[..k] + [aEnds[k]] && bEnds[..k + 1] == bEnds[..k] + [bEnds[k]];
      k := k + 1;
    }
    assert a[..|a|] == a && b[..|b|] == b && aEnds[..|a|] == aEnds && bEnds[..|b|] == bEnds;
  }

  lemma NothingToPrepend(t: Traversal)
    ensures Prepend([], [], t) == t
  {
    if t.Done? {
      assert [] + t.types == t.types && [] + t.leaves == t.leaves;
    }
  }

  lemma PrependDone(a: seq<TypeSlot>, i: seq<nat>, t: Traversal)
    ensures Prepend(a, i, t).Done? <==> t.Done?
  {
  }

  lemma PrependLast(a: seq<TypeSlot>, i: seq<nat>, cursors: seq<nat>)
    ensures Prepend(a, i, Done([NoType], [], cursors)) == Done(a + [NoType], i, cursors)
  {
  }

  lemma SizeOfAggregateTypes(types: seq<TypeSlot>)
    ensures |AggregateTypes(types)| == |types|
  {
  }

  lemma NoAggregateTypes()
    ensures AggregateTypes([]) == []
  {
  }

  lemma AggregateTypesPush(types: seq<TypeSlot>, t: TypeSlot)
    ensures AggregateTypes(types + [t])
            == AggregateTypes(types) + [if t.AggregateType? then Some(t.id) else None]
  {
  }

  lemma PrependTwice(a: seq<TypeSlot>, i: seq<nat>, b: seq<TypeSlot>, j: seq<nat>, t: Traversal)
    ensures Prepend(a, i, Prepend(b, j, t)) == Prepend(a + b, i + j, t)
    ensures i + [] == i
  {
    if t.Done? {
      Associate(a, b, t.types);
      Associate(i, j, t.leaves);
    }
  }

  /** A traversal that succeeds passes the CHECKs on its first entry. */
  lemma TraverseChecks(types: seq<TypeSlot>, ends: seq<nat>, cursors: seq<nat>, cur: nat)
    requires |cursors| == |ends| && Traverse(types, ends, cursors, cur).Done?
    ensures cur < |cursors| && cursors[cur] < ends[cur] && cursors[cur] < |types|
  {
  }

  /** The search in the level's aggregates finds exactly the aggregates; on the last level there
      are none. */
  lemma IsAggregateEntry(path: seq<PathNode>, types: seq<TypeSlot>, starts: seq<nat>, ends: seq<nat>, cur: nat, idx: nat)
    requires PathFits(path, types, starts, ends) && cur <= |path|
    requires starts[cur] <= idx < ends[cur] <= |types|
    requires ends[|path|] <= |types| && AggregateArgs(types, starts[|path|], ends[|path|]) == []
    ensures cur < |path| ==>
              FindAggregate(path[cur].aggregates, idx)
              == if types[idx].AggregateType? then Some(types[idx].id) else None
    ensures cur == |path| ==> !types[idx].AggregateType?
  {
    FoundIffAggregate(types, starts[cur], ends[cur], idx);
  }

  // ---- The CHECKed counts ----

  function IsAny(t: TypeSlot): bool { true }

  lemma {:induction false} CountAny(types: seq<TypeSlot>)
    ensures Count(IsAny, types) == |types|
  {
    if types != [] {
      CountAny(types[1..]);
    }
  }

  function TreeAggregates(args: seq<Arg>): nat {
    if args == [] then 0
    else (if args[0].Aggregate? then 1 + TreeAggregates(args[0].items) else 0) + TreeAggregates(args[1..])
  }

  /** Depth-first order has a sentinel for each aggregate. */
  lemma {:induction false} DepthFirstCounts(args: seq<Arg>)
    ensures |DepthFirst(args)| == 2 * TreeAggregates(args) + |Leaves(args)|
    ensures Count(IsAggregate, TypesOf(DepthFirst(args))) == TreeAggregates(args)
  {
    if args != [] {
      DepthFirstCounts(args[1..]);
      var first, rest := [Item(args[0])], DepthFirst(args[1..]);
      var inner := if args[0].Aggregate? then DepthFirst(args[0].items) + [Sentinel] else [];
      if args[0].Aggregate? {
        DepthFirstCounts(args[0].items);
      }
      assert DepthFirst(args) == first + inner + rest;
      hide TypesOf, Count, DepthFirst;
      TypesOfSum(first + inner, rest);
      TypesOfSum(first, inner);
      CountSum(IsAggregate, TypesOf(first + inner), TypesOf(rest));
      CountSum(IsAggregate, TypesOf(first), TypesOf(inner));
      SingleType(Item(args[0]));
      if args[0].Aggregate? {
        TypesOfSum(DepthFirst(args[0].items), [Sentinel]);
        CountSum(IsAggregate, TypesOf(DepthFirst(args[0].items)), TypesOf([Sentinel]));
        SingleType(Sentinel);
      } else {
        NoTypes();
      }
    }
  }

  lemma SingleType(s: Slot)
    ensures Count(IsAggregate, TypesOf([s])) == if s.Item? && s.arg.Aggregate? then 1 else 0
  {
    assert TypesOf([s]) == [TypeOf(s)];
    CountOne(IsAggregate, TypeOf(s));
  }

  lemma NoTypes()
    ensures Count(IsAggregate, TypesOf([])) == 0
  {
  }

  lemma JoinSlices<T>(s: seq<T>, lo: nat, mid: nat, hi: nat)
    requires lo <= mid <= hi <= |s|
    ensures s[lo..hi] == s[lo..mid] + s[mid..hi]
  {
  }

  /** Over contiguous levels, counting by level is counting over the whole range. */
  lemma {:induction false} CountLeftContiguous(
      p: TypeSlot -> bool, types: seq<TypeSlot>, starts: seq<nat>, ends: seq<nat>, lo: nat, hi: nat)
    requires |starts| == |ends| && lo <= hi <= |types|
    requires if starts == [] then lo == hi else starts[0] == lo && ends[|ends| - 1] == hi
    requires forall k :: 0 <= k < |starts| ==> starts[k] <= ends[k] <= hi
    requires forall k :: 0 < k < |starts| ==> Joined(starts, ends, k)
    ensures CountLeft(p, types, starts, ends) == Count(p, types[lo..hi])
  {
    if starts != [] {
      forall k | 0 < k < |starts[1..]| ensures Joined(starts[1..], ends[1..], k) {
        assert Joined(starts, ends, k + 1);
      }
      if |starts| > 1 {
        assert Joined(starts, ends, 1);
      }
      CountLeftContiguous(p, types, starts[1..], ends[1..], ends[0], hi);
      assert lo == starts[0] <= ends[0] <= hi <= |types|;
      JoinSlices(types, lo, ends[0], hi);
      assert types[lo..hi] == types[lo..ends[0]] + types[ends[0]..hi];
      CountSum(p, types[lo..ends[0]], types[ends[0]..hi]);
    }
  }

  lemma {:induction false} TotalIsCount(
      path: seq<PathNode>, types: seq<TypeSlot>, starts: seq<nat>, ends: seq<nat>, k: nat)
    requires PathFits(path, types, starts, ends) && Contiguous(starts, ends) && k <= |path|
    ensures starts[k] <= |types|
    ensures TotalAggregates(path[..k]) == Count(IsAggregate, types[..starts[k]])
  {
    hide Count, AggregateArgs, TotalAggregates;
    if k == 0 {
      assert types[..0] == [];
      TotalStep(path, 0);
      NoneCounted(IsAggregate);
    } else {
      TotalIsCount(path, types, starts, ends, k - 1);
      assert Joined(starts, ends, k);
      TotalStep(path, k - 1);
      JoinSlices(types, 0, starts[k - 1], ends[k - 1]);
      CountSum(IsAggregate, types[0..starts[k - 1]], types[starts[k - 1]..ends[k - 1]]);
      AggregateArgsCount(types, starts[k - 1], ends[k - 1]);
    }
  }

  lemma NoneCounted(p: TypeSlot -> bool)
    ensures Count(p, []) == 0
  {
  }

  /** The sizes that the code reserves and CHECKs are the right ones. */
  lemma SizesCheck(args: seq<Arg>, depth: nat, path: seq<PathNode>)
    requires IsDepth(args, depth) && |path| == depth
    requires var types := TypesOf(Layout(args, depth + 1));
             var starts, ends := Starts(args, depth + 1), Ends(args, depth + 1);
             PathFits(path, types, starts, ends) && AggregateArgs(types, starts[depth], ends[depth]) == []
    ensures var types := TypesOf(Layout(args, depth + 1));
            var starts, ends := Starts(args, depth + 1), Ends(args, depth + 1);
            var t := Traverse(types, ends, starts, 0);
            && t.Done? && |t.types| == |types| && |t.leaves| == |Leaves(args)|
            && |Leaves(args)| + 2 * TotalAggregates(path) + 1 == |types|
  {
    hide Traverse, IsDepth, DepthFirst, Leaves, Layout, Starts, Ends, TypesOf, Count, AggregateArgs, TotalAggregates;
    var types := TypesOf(Layout(args, depth + 1));
    var starts, ends := Starts(args, depth + 1), Ends(args, depth + 1);
    TraversalCounts(args, depth);
    LayoutIsContiguous(args, depth + 1);
    TypesOfSize(Layout(args, depth + 1));
    TotalIsCount(path, types, starts, ends, depth);
    assert path[..depth] == path;
    assert types == types[..starts[depth]] + types[starts[depth]..ends[depth]];
    CountSum(IsAggregate, types[..starts[depth]], types[starts[depth]..ends[depth]]);
    AggregateArgsCount(types, starts[depth], ends[depth]);
  }

  lemma TypesOfSize(slots: seq<Slot>)
    ensures |TypesOf(slots)| == |slots|
  {
  }

  /** The traversal's output, by kind, is the layout's content. */
  lemma TraversalCounts(args: seq<Arg>, depth: nat)
    requires IsDepth(args, depth)
    ensures var types := TypesOf(Layout(args, depth + 1));
            var t := Traverse(types, Ends(args, depth + 1), Starts(args, depth + 1), 0);
            && t.Done? && |t.types| == |types| && |t.leaves| == |Leaves(args)|
            && |types| == 2 * TreeAggregates(args) + |Leaves(args)| + 1
            && Count(IsAggregate, types) == TreeAggregates(args)
  {
    hide Traverse, IsDepth, DepthFirst, Leaves, Layout, Starts, Ends, Count;
    var types := TypesOf(Layout(args, depth + 1));
    var starts, ends := Starts(args, depth + 1), Ends(args, depth + 1);
    WholeTraversal(args, depth);
    LayoutIsContiguous(args, depth + 1);
    TypesOfSize(Layout(args, depth + 1));
    SameCounts(IsAny, types, starts, ends);
    SameCounts(IsAggregate, types, starts, ends);
    var t := Traverse(types, ends, starts, 0);
    CountAny(types);
    CountAny(t.types);
    assert |t.leaves| == |Gather(Layout(args, depth + 1), t.leaves)| == |Leaves(args)|;
    DepthFirstCounts(args);
    TypesOfSum(DepthFirst(args), [Sentinel]);
    CountSum(IsAggregate, TypesOf(DepthFirst(args)), TypesOf([Sentinel]));
    SingleType(Sentinel);
  }

  lemma SameCounts(p: TypeSlot -> bool, types: seq<TypeSlot>, starts: seq<nat>, ends: seq<nat>)
    requires Contiguous(starts, ends) && ends[|ends| - 1] == |types|
    requires forall k :: 0 <= k < |starts| ==> starts[k] <= ends[k] <= |types|
    requires var t := Traverse(types, ends, starts, 0); t.Done? && t.cursors == ends
    ensures Count(p, Traverse(types, ends, starts, 0).types) == Count(p, types)
  {
    hide Traverse, Count, CountLeft;
    VisitsEachOnce(p, types, ends, starts, 0);
    CountLeftContiguous(p, types, starts, ends, 0, |types|);
    assert types[0..|types|] == types;
  }

  lemma LayoutOfNone(args: seq<Arg>)
    ensures Layout(args, 0) == []
  {
  }

  lemma LayoutIsContiguous(args: seq<Arg>, n: nat)
    requires n > 0
    ensures Contiguous(Starts(args, n), Ends(args, n)) && |Ends(args, n)| == n
    ensures Ends(args, n)[n - 1] == |Layout(args, n)|
    ensures forall k :: 0 <= k < n ==> Starts(args, n)[k] <= Ends(args, n)[k] <= |Layout(args, n)|
  {
    hide Layout, Level, Starts, Ends;
    LayoutOfNone(args);
    OffsetsSize(args, n);
    OffsetsAt(args, n, 0);
    OffsetsAt(args, n, n - 1);
    forall k | 0 <= k < n
      ensures Starts(args, n)[k] <= Ends(args, n)[k] <= |Layout(args, n)|
      ensures k > 0 ==> Joined(Starts(args, n), Ends(args, n), k)
    {
      LevelInLayout(args, n, k);
      OffsetsAt(args, n, k);
      if k > 0 {
        OffsetsAt(args, n, k - 1);
      }
    }
  }

  lemma OffsetsSize(args: seq<Arg>, n: nat)
    ensures |Starts(args, n)| == |Ends(args, n)| == n
  {
  }

  lemma OffsetsAt(args: seq<Arg>, n: nat, k: nat)
    requires k < n
    ensures |Starts(args, n)| == |Ends(args, n)| == n
    ensures Starts(args, n)[k] == |Layout(args, k)| && Ends(args, n)[k] == |Layout(args, k + 1)|
  {
  }

  // ---- The cache of profiles ----

  /** The types of a level, without its last sentinel. A node is found by the keys from the top. */
  type Key = seq<TypeSlot>

  function PathTypes(keys: seq<Key>): seq<TypeSlot> {
    if keys == [] then [] else PathTypes(keys[..|keys| - 1]) + (keys[|keys| - 1] + [NoType])
  }

  function PathStarts(keys: seq<Key>): seq<nat> {
    seq(|keys|, k requires 0 <= k < |keys| => |PathTypes(keys[..k])|)
  }

  function PathEnds(keys: seq<Key>): seq<nat> {
    seq(|keys|, k requires 0 <= k < |keys| => |PathTypes(keys[..k + 1])|)
  }

  datatype Node =
    | ExpandAggregates(aggregates: seq<AggregateInfo>)
    | Profile(leaves: seq<nat>, depthFirst: seq<TypeSlot>)

  function LevelAggregates(keys: seq<Key>): seq<AggregateInfo>
    requires keys != []
  {
    AggregateArgs(PathTypes(keys), |PathTypes(keys[..|keys| - 1])|, |PathTypes(keys)|)
  }

  /** What a cached node holds depends on its keys only, not on the arguments it was created for. */
  ghost predicate NodeOk(keys: seq<Key>, node: Node) {
    keys != [] &&
    match node
    case ExpandAggregates(infos) => infos == LevelAggregates(keys) && infos != []
    case Profile(leaves, depthFirst) =>
      && LevelAggregates(keys) == []
      && var t := Traverse(PathTypes(keys), PathEnds(keys), PathStarts(keys), 0);
         t.Done? && leaves == t.leaves && depthFirst == t.types
  }

  /** These keys are the levels of these arguments. */
  ghost predicate KeysOf(keys: seq<Key>, args: seq<Arg>) {
    forall k :: 0 <= k < |keys| ==> keys[k] + [NoType] == TypesOf(Level(args, k))
  }

  lemma {:induction false} PathOfArguments(keys: seq<Key>, args: seq<Arg>)
    requires KeysOf(keys, args)
    ensures PathTypes(keys) == TypesOf(Layout(args, |keys|))
  {
    if keys != [] {
      var n := |keys| - 1;
      assert KeysOf(keys[..n], args);
      PathOfArguments(keys[..n], args);
      assert keys[n] + [NoType] == TypesOf(Level(args, n));
      TypesOfSum(Layout(args, n), Level(args, n));
    }
  }

  lemma PathOffsetsOfArguments(keys: seq<Key>, args: seq<Arg>)
    requires KeysOf(keys, args)
    ensures PathStarts(keys) == Starts(args, |keys|) && PathEnds(keys) == Ends(args, |keys|)
  {
    forall k | 0 <= k <= |keys| ensures |PathTypes(keys[..k])| == |Layout(args, k)| {
      assert KeysOf(keys[..k], args);
      PathOfArguments(keys[..k], args);
    }
  }

  /** A cached profile serves every later call with the same tree of types: its indices gather that
      call's own leaves, in order. */
  lemma ProfileFitsAnyCall(keys: seq<Key>, node: Node, args: seq<Arg>)
    requires NodeOk(keys, node) && node.Profile? && KeysOf(keys, args) && IsDepth(args, |keys| - 1)
    ensures InRange(node.leaves, |Layout(args, |keys|)|)
    ensures Gather(Layout(args, |keys|), node.leaves) == AsSlots(Leaves(args))
    ensures node.depthFirst == Signature(args) + [NoType]
  {
    hide Traverse, Layout, PathTypes, Starts, Ends, PathStarts, PathEnds, IsDepth, DepthFirst, Leaves, Signature,
      TypesOf;
    PathOfArguments(keys, args);
    PathOffsetsOfArguments(keys, args);
    WholeTraversal(args, |keys| - 1);
    TypesAreSignature(args);
    TypesOfSum(DepthFirst(args), [Sentinel]);
    TypesOfOne(Sentinel);
  }

  // ---- Which calls share a profile ----

  /** Looking these arguments up ends at these keys. */
  ghost predicate LeadsTo(keys: seq<Key>, args: seq<Arg>) {
    keys != [] && KeysOf(keys, args) && IsDepth(args, |keys| - 1)
  }

  /** Two calls end at the same keys exactly when their trees have the same shape and types. */
  lemma SharedIffSameTypes(keys: seq<Key>, a: seq<Arg>, b: seq<Arg>)
    requires LeadsTo(keys, a)
    ensures LeadsTo(keys, b) <==> SameTypes(a, b)
  {
    hide KeysOf, IsDepth, SameTypes;
    if SameTypes(a, b) {
      SameTypesShare(keys, a, b);
    }
    if LeadsTo(keys, b) {
      SameKeysSameTypes(keys, a, b);
    }
  }

  lemma SameTypesShare(keys: seq<Key>, a: seq<Arg>, b: seq<Arg>)
    requires LeadsTo(keys, a) && SameTypes(a, b)
    ensures LeadsTo(keys, b)
  {
    hide SameTypes, TypesOf, Level, IsDepth;
    forall k: nat ensures TypesOf(Level(a, k)) == TypesOf(Level(b, k)) {
      SameLevel(a, b, k);
    }
    SameDepth(a, b, |keys| - 1);
  }

  lemma SameKeysSameTypes(keys: seq<Key>, a: seq<Arg>, b: seq<Arg>)
    requires LeadsTo(keys, a) && LeadsTo(keys, b)
    ensures SameTypes(a, b)
  {
    hide SameTypes, TypesOf, Traverse, Layout, Starts, Ends, IsDepth, DepthFirst, KeysOf, PathTypes, PathStarts,
      PathEnds;
    PathOfArguments(keys, a);
    PathOfArguments(keys, b);
    PathOffsetsOfArguments(keys, a);
    PathOffsetsOfArguments(keys, b);
    WholeTraversal(a, |keys| - 1);
    WholeTraversal(b, |keys| - 1);
    TypesOfSum(DepthFirst(a), [Sentinel]);
    TypesOfSum(DepthFirst(b), [Sentinel]);
    SamePrefix(TypesOf(DepthFirst(a)), TypesOf(DepthFirst(b)), TypesOf([Sentinel]));
    SameSignatureIffSameTypes(a, b);
  }

  lemma SamePrefix<T>(a: seq<T>, b: seq<T>, end: seq<T>)
    requires a + end == b + end
    ensures a == b
  {
    assert |a + end| == |b + end|;
    assert (a + end)[..|a|] == a && (b + end)[..|b|] == b;
  }

  /** A cache that serves calls with this tree of types. */
  ghost predicate HasProfile(nodes: map<seq<Key>, Node>, args: seq<Arg>) {
    exists keys :: keys in nodes && LeadsTo(keys, args)
  }

  ghost predicate SameProfiles(before: map<seq<Key>, Node>, after: map<seq<Key>, Node>) {
    forall b :: HasProfile(after, b) <==> HasProfile(before, b)
  }

  /** The calls served are those from before, and those with the types of these arguments. */
  ghost predicate OneMoreProfile(before: map<seq<Key>, Node>, after: map<seq<Key>, Node>, args: seq<Arg>) {
    forall b :: HasProfile(after, b) <==> HasProfile(before, b) || SameTypes(args, b)
  }

  lemma ProfileInserted(nodes: map<seq<Key>, Node>, keys: seq<Key>, node: Node, args: seq<Arg>)
    requires LeadsTo(keys, args)
    ensures OneMoreProfile(nodes, nodes[keys := node], args)
  {
    hide LeadsTo, SameTypes;
    var after := nodes[keys := node];
    forall b ensures HasProfile(after, b) <==> HasProfile(nodes, b) || SameTypes(args, b) {
      SharedIffSameTypes(keys, args, b);
      if LeadsTo(keys, b) {
        assert keys in after;
      } else if HasProfile(nodes, b) {
        var k :| k in nodes && LeadsTo(k, b);
        assert k in after;
      }
    }
  }

  lemma ProfileFound(nodes: map<seq<Key>, Node>, keys: seq<Key>, args: seq<Arg>)
    requires LeadsTo(keys, args) && keys in nodes
    ensures OneMoreProfile(nodes, nodes, args)
  {
    hide LeadsTo;
    ProfileInserted(nodes, keys, nodes[keys], args);
    assert nodes[keys := nodes[keys]] == nodes;
  }

  /** A node for a level that has aggregates serves no call by itself. */
  lemma LevelInserted(nodes: map<seq<Key>, Node>, keys: seq<Key>, node: Node, args: seq<Arg>)
    requires keys != [] && KeysOf(keys, args) && HasAggregate(Level(args, |keys| - 1))
    ensures SameProfiles(nodes, nodes[keys := node])
  {
    hide HasAggregate, Level, TypesOf;
    var last := |keys| - 1;
    forall b ensures HasProfile(nodes[keys := node], b) <==> HasProfile(nodes, b) {
      if LeadsTo(keys, b) {
        assert keys[last] + [NoType] == TypesOf(Level(args, last));
        AggregatesShow(Level(args, last), Level(b, last));
        assert false;
      }
      if HasProfile(nodes, b) {
        var k :| k in nodes && LeadsTo(k, b);
        assert k in nodes[keys := node];
      }
    }
  }

  /** If there is a profile for the arguments, there is a node for each of their levels. */
  lemma PrefixOfProfile(nodes: map<seq<Key>, Node>, keys: seq<Key>, args: seq<Arg>)
    requires HasProfile(nodes, args) && keys != [] && KeysOf(keys, args)
    requires forall k, n :: k in nodes && 0 < n <= |k| ==> k[..n] in nodes
    requires forall k :: 0 <= k < |keys| - 1 ==> HasAggregate(Level(args, k))
    ensures keys in nodes
  {
    hide HasAggregate, Level, TypesOf;
    var all :| all in nodes && LeadsTo(all, args);
    assert |keys| <= |all|;
    forall k | 0 <= k < |keys| ensures all[..|keys|][k] == keys[k] {
      assert keys[k] + [NoType] == TypesOf(Level(args, k)) == all[k] + [NoType];
      SamePrefix(keys[k], all[k], [NoType]);
    }
    assert all[..|keys|] == keys;
  }

  // ---- Expanding a level ----

  /** The listed positions hold aggregates. */
  ghost predicate AllAggregates(slots: seq<Slot>, infos: seq<AggregateInfo>) {
    forall i :: 0 <= i < |infos| ==>
      infos[i].index < |slots| && slots[infos[i].index].Item? && slots[infos[i].index].arg.Aggregate?
  }

  lemma AllAggregatesPush(slots: seq<Slot>, infos: seq<AggregateInfo>, info: AggregateInfo)
    requires AllAggregates(slots, infos)
    requires info.index < |slots| && slots[info.index].Item? && slots[info.index].arg.Aggregate?
    ensures AllAggregates(slots, infos + [info])
  {
  }

  lemma AggregateArgsLast(types: seq<TypeSlot>, lo: nat, hi: nat)
    requires lo < hi <= |types|
    ensures AggregateArgs(types, lo, hi)
            == AggregateArgs(types, lo, hi - 1)
               + (if types[hi - 1].AggregateType? then [AggregateInfo(hi - 1, types[hi - 1].id)] else [])
  {
  }

  lemma NoneListed(slots: seq<Slot>, lo: nat)
    requires lo <= |slots|
    ensures |TypesOf(slots)| == |slots| && AggregateArgs(TypesOf(slots), lo, lo) == []
    ensures !HasAggregate([]) && AllAggregates(slots, []) && ExpandListed(slots, []) == Expand([])
  {
  }

  lemma {:induction false} AggregateArgsNonempty(slots: seq<Slot>, lo: nat, hi: nat)
    requires lo <= hi <= |slots|
    ensures AggregateArgs(TypesOf(slots), lo, hi) != [] <==> HasAggregate(slots[lo..hi])
    ensures AllAggregates(slots, AggregateArgs(TypesOf(slots), lo, hi))
  {
    hide HasAggregate, TypesOf, AggregateArgs, AllAggregates;
    NoneListed(slots, lo);
    if lo == hi {
      assert slots[lo..hi] == [];
    } else {
      AggregateArgsLast(TypesOf(slots), lo, hi);
      TypesOfAt(slots, hi - 1);
      AggregateArgsNonempty(slots, lo, hi - 1);
      if slots[hi - 1].Item? && slots[hi - 1].arg.Aggregate? {
        AllAggregatesPush(slots, AggregateArgs(TypesOf(slots), lo, hi - 1),
          AggregateInfo(hi - 1, TypesOf(slots)[hi - 1].id));
      } else {
        assert AggregateArgs(TypesOf(slots), lo, hi) == AggregateArgs(TypesOf(slots), lo, hi - 1);
      }
      assert slots[lo..hi] == slots[lo..hi - 1] + [slots[hi - 1]];
      HasAggregateSum(slots[lo..hi - 1], slots[hi - 1]);
    }
  }

  lemma HasAggregateSum(a: seq<Slot>, s: Slot)
    ensures HasAggregate(a + [s]) <==> HasAggregate(a) || (s.Item? && s.arg.Aggregate?)
  {
    if HasAggregate(a) {
      var i :| 0 <= i < |a| && a[i].Item? && a[i].arg.Aggregate?;
      assert (a + [s])[i] == a[i];
    }
    if s.Item? && s.arg.Aggregate? {
      assert (a + [s])[|a|] == s;
    }
  }

  /** Expanding the listed aggregates one by one. */
  function ExpandListed(slots: seq<Slot>, infos: seq<AggregateInfo>): seq<Slot>
    requires AllAggregates(slots, infos)
  {
    if infos == [] then []
    else ExpandListed(slots, infos[..|infos| - 1]) + (AsSlots(slots[infos[|infos| - 1].index].arg.items) + [Sentinel])
  }

  lemma {:induction false} ExpandListedIsExpand(slots: seq<Slot>, lo: nat, hi: nat)
    requires lo <= hi <= |slots|
    requires AllAggregates(slots, AggregateArgs(TypesOf(slots), lo, hi))
    ensures ExpandListed(slots, AggregateArgs(TypesOf(slots), lo, hi)) == Expand(slots[lo..hi])
  {
    hide Expand, ExpandListed, AsSlots, AllAggregates, TypesOf, AggregateArgs, TypeOf;
    NoneListed(slots, lo);
    if lo == hi {
      assert slots[lo..hi] == [];
    } else {
      TypesOfAt(slots, hi - 1);
      AggregateArgsLast(TypesOf(slots), lo, hi);
      AggregateArgsNonempty(slots, lo, hi - 1);
      ExpandListedIsExpand(slots, lo, hi - 1);
      ExpandListedStep(slots, AggregateArgs(TypesOf(slots), lo, hi - 1), slots[lo..hi - 1], hi - 1);
      assert slots[lo..hi] == slots[lo..hi - 1] + [slots[hi - 1]];
    }
  }

  /** One more slot, and its list if it is an aggregate. */
  lemma ExpandListedStep(slots: seq<Slot>, infos: seq<AggregateInfo>, expanded: seq<Slot>, k: nat)
    requires AllAggregates(slots, infos) && ExpandListed(slots, infos) == Expand(expanded) && k < |slots|
    ensures var t := TypeOf(slots[k]);
            var after := infos + (if t.AggregateType? then [AggregateInfo(k, t.id)] else []);
            AllAggregates(slots, after) && ExpandListed(slots, after) == Expand(expanded + [slots[k]])
  {
    ExpandSum(expanded, [slots[k]]);
    ExpandOfOne(slots[k]);
    hide Expand, ExpandListed, AsSlots, AllAggregates;
    if slots[k].Item? && slots[k].arg.Aggregate? {
      ExpandListedPush(slots, infos, AggregateInfo(k, TypeOf(slots[k]).id));
    } else {
      assert infos + [] == infos;
      assert Expand(expanded) + [] == Expand(expanded);
    }
  }

  lemma ExpandListedPush(slots: seq<Slot>, infos: seq<AggregateInfo>, info: AggregateInfo)
    requires AllAggregates(slots, infos)
    requires info.index < |slots| && slots[info.index].Item? && slots[info.index].arg.Aggregate?
    ensures AllAggregates(slots, infos + [info])
    ensures ExpandListed(slots, infos + [info])
            == ExpandListed(slots, infos) + (AsSlots(slots[info.index].arg.items) + [Sentinel])
  {
    assert (infos + [info])[..|infos|] == infos;
  }

  /** A level that comes from expanding something ends with a sentinel. */
  lemma {:induction false} ExpandedEnds(slots: seq<Slot>)
    requires HasAggregate(slots)
    ensures Expand(slots) != [] && Expand(slots)[|Expand(slots)| - 1] == Sentinel
  {
    var head := if slots[0].Item? && slots[0].arg.Aggregate? then AsSlots(slots[0].arg.items) + [Sentinel] else [];
    HasAggregateTail(slots);
    if HasAggregate(slots[1..]) {
      ExpandedEnds(slots[1..]);
    } else {
      NothingExpanded(slots[1..]);
    }
  }

  lemma HasAggregateTail(slots: seq<Slot>)
    requires HasAggregate(slots)
    ensures slots != []
    ensures (slots[0].Item? && slots[0].arg.Aggregate?) || HasAggregate(slots[1..])
  {
    var i :| 0 <= i < |slots| && slots[i].Item? && slots[i].arg.Aggregate?;
    if i > 0 {
      assert slots[1..][i - 1] == slots[i];
    }
  }

  lemma {:induction false} NothingExpanded(slots: seq<Slot>)
    requires !HasAggregate(slots)
    ensures Expand(slots) == []
  {
    if slots != [] {
      assert !(slots[0].Item? && slots[0].arg.Aggregate?);
      forall i | 0 <= i < |slots[1..]| ensures !(slots[1..][i].Item? && slots[1..][i].arg.Aggregate?) {
        assert slots[1..][i] == slots[i + 1];
      }
      NothingExpanded(slots[1..]);
    }
  }

  /** Appends the objects of a list, their types, and a sentinel to both. */
  method PushObjects(objects: seq<Slot>, types: seq<TypeSlot>, items: seq<Arg>)
    returns (objects': seq<Slot>, types': seq<TypeSlot>)
    requires types == TypesOf(objects)
    ensures objects' == objects + (AsSlots(items) + [Sentinel])
    ensures types' == TypesOf(objects')
  {
    objects', types' := objects, types;
    for i := 0 to |items|
      invariant objects' == objects + AsSlots(items[..i])
      invariant types' == TypesOf(objects')
    {
      objects' := objects' + [Item(items[i])];
      types' := types' + [TypeOf(Item(items[i]))];
      assert AsSlots(items[..i + 1]) == AsSlots(items[..i]) + [Item(items[i])];
    }
    assert items[..|items|] == items;
    objects' := objects' + [Sentinel];
    types' := types' + [NoType];
  }

  method ExpandAggregateArgs(objects: seq<Slot>, types: seq<TypeSlot>, infos: seq<AggregateInfo>)
    returns (objects': seq<Slot>, types': seq<TypeSlot>)
    requires types == TypesOf(objects)
    requires AllAggregates(objects, infos)
    ensures objects' == objects + ExpandListed(objects, infos)
    ensures types' == TypesOf(objects')
  {
    objects', types' := objects, types;
    hide TypesOf, AsSlots;
    for i := 0 to |infos|
      invariant AllAggregates(objects, infos[..i])
      invariant objects' == objects + ExpandListed(objects, infos[..i])
      invariant types' == TypesOf(objects')
    {
      ghost var before := ExpandListed(objects, infos[..i]);
      objects', types' := PushObjects(objects', types', objects'[infos[i].index].arg.items);
      assert infos[..i + 1][..i] == infos[..i];
      Associate(objects, before, AsSlots(objects[infos[i].index].arg.items) + [Sentinel]);
    }
    assert infos[..|infos|] == infos;
  }

  /** Which arguments of a level are aggregates. */
  method ClassifyLevel(types: seq<TypeSlot>, lo: nat, hi: nat) returns (infos: seq<AggregateInfo>)
    requires lo <= hi <= |types|
    ensures infos == AggregateArgs(types, lo, hi)
  {
    infos := [];
    for i := lo to hi
      invariant infos == AggregateArgs(types, lo, i)
    {
      if types[i].AggregateType? {
        infos := infos + [AggregateInfo(i, types[i].id)];
      }
    }
  }

  // ---- python_arg_profile_lookup_impl ----

  datatype LookupResult = Found(leaves: seq<Slot>, depthFirst: seq<TypeSlot>) | WrongCount | TooDeep

  /** One level is ready to be looked up. */
  ghost predicate LevelReady(args: seq<Arg>, depth: nat, objects: seq<Slot>, types: seq<TypeSlot>,
                             queryStart: nat, keys: seq<Key>, path: seq<PathNode>)
  {
    && objects == Layout(args, depth + 1) && types == TypesOf(objects)
    && queryStart == |Layout(args, depth)| < |types| && types[|types| - 1] == NoType
    && |keys| == |path| == depth && KeysOf(keys, args)
    && (forall k :: 0 <= k < depth ==> HasAggregate(Level(args, k)))
    && (forall k :: 0 <= k < depth ==> NodeFitsLevel(path[k], args, types, k))
  }

  ghost predicate NodeFitsLevel(node: PathNode, args: seq<Arg>, types: seq<TypeSlot>, k: nat) {
    && |Layout(args, k + 1)| == |Layout(args, k)| + node.size + 1
    && |Layout(args, k + 1)| <= |types|
    && node.aggregates == AggregateArgs(types, |Layout(args, k)|, |Layout(args, k + 1)|)
  }

  /** Each node belongs to its keys, and the path to it is cached too. */
  ghost predicate CacheOk(nodes: map<seq<Key>, Node>, numParams: nat) {
    && (forall keys :: keys in nodes ==>
          NodeOk(keys, nodes[keys]) && |keys[0]| == numParams && |keys| <= MAX_AGGREGATE_NESTING_DEPTH + 1)
    && (forall keys, n :: keys in nodes && 0 < n <= |keys| ==> keys[..n] in nodes)
  }

  lemma CachedNode(nodes: map<seq<Key>, Node>, numParams: nat, keys: seq<Key>)
    requires CacheOk(nodes, numParams) && keys in nodes
    ensures NodeOk(keys, nodes[keys]) && |keys[0]| == numParams && |keys| <= MAX_AGGREGATE_NESTING_DEPTH + 1
  {
  }

  lemma NodeCached(nodes: map<seq<Key>, Node>, numParams: nat, above: seq<Key>, key: Key, node: Node)
    requires CacheOk(nodes, numParams) && NodeOk(above + [key], node)
    requires |(above + [key])[0]| == numParams && |above| <= MAX_AGGREGATE_NESTING_DEPTH
    requires above != [] ==> above in nodes
    ensures CacheOk(nodes[above + [key] := node], numParams)
  {
    hide NodeOk;
    var keys := above + [key];
    var after := nodes[keys := node];
    forall k, n | k in after && 0 < n <= |k| ensures k[..n] in after {
      if k == keys {
        assert n <= |above| ==> keys[..n] == above[..n];
        assert n == |keys| ==> keys[..n] == keys;
      }
    }
  }

  ghost predicate NodesStay(before: map<seq<Key>, Node>, after: map<seq<Key>, Node>) {
    forall keys :: keys in before ==> keys in after && after[keys] == before[keys]
  }

  /** The search has found no profile yet. */
  ghost predicate Searching(before: map<seq<Key>, Node>, nodes: map<seq<Key>, Node>, args: seq<Arg>) {
    && NodesStay(before, nodes) && SameProfiles(before, nodes)
    && (HasProfile(before, args) ==> nodes == before)
  }

  /** The search has ended. */
  ghost predicate Searched(before: map<seq<Key>, Node>, nodes: map<seq<Key>, Node>, args: seq<Arg>, found: bool) {
    && NodesStay(before, nodes)
    && (if found then OneMoreProfile(before, nodes, args) else SameProfiles(before, nodes))
    && (HasProfile(before, args) ==> found && nodes == before)
  }

  lemma SearchHits(before: map<seq<Key>, Node>, nodes: map<seq<Key>, Node>, args: seq<Arg>, keys: seq<Key>)
    requires Searching(before, nodes, args) && keys in nodes && LeadsTo(keys, args)
    ensures Searched(before, nodes, args, true)
  {
    hide LeadsTo, SameTypes, HasProfile;
    ProfileFound(nodes, keys, args);
  }

  /** A node is missing: there was no profile for these arguments. */
  lemma SearchMisses(before: map<seq<Key>, Node>, nodes: map<seq<Key>, Node>, numParams: nat, args: seq<Arg>,
                     keys: seq<Key>, key: Key, node: Node)
    requires CacheOk(nodes, numParams) && Searching(before, nodes, args) && keys + [key] !in nodes
    requires KeysOf(keys + [key], args) && forall k :: 0 <= k < |keys| ==> HasAggregate(Level(args, k))
    ensures !HasProfile(before, args)
    ensures HasAggregate(Level(args, |keys|)) ==> Searching(before, nodes[keys + [key] := node], args)
    ensures IsDepth(args, |keys|) ==> Searched(before, nodes[keys + [key] := node], args, true)
  {
    hide HasAggregate, Level, KeysOf, NodeOk, HasProfile, SameTypes;
    var all := keys + [key];
    if HasProfile(nodes, args) {
      PrefixOfProfile(nodes, all, args);
    }
    if HasAggregate(Level(args, |keys|)) {
      LevelInserted(nodes, all, node, args);
    }
    if IsDepth(args, |keys|) {
      ProfileInserted(nodes, all, node, args);
    }
  }

  lemma SearchFails(before: map<seq<Key>, Node>, nodes: map<seq<Key>, Node>, numParams: nat, args: seq<Arg>)
    requires CacheOk(before, numParams) && Searching(before, nodes, args)
    requires |args| != numParams || forall d: nat :: IsDepth(args, d) ==> d > MAX_AGGREGATE_NESTING_DEPTH
    ensures Searched(before, nodes, args, false)
  {
    hide NodeOk, IsDepth, NodesStay, SameProfiles, Level, TypesOf;
    if HasProfile(before, args) {
      var k :| k in before && LeadsTo(k, args);
      SizeOfFirstLevel(args);
      TypesOfSize(Level(args, 0));
      assert false;
    }
  }

  lemma SearchStarts(nodes: map<seq<Key>, Node>, args: seq<Arg>)
    ensures Searching(nodes, nodes, args)
  {
    hide HasProfile;
  }

  lemma SearchedMeans(before: map<seq<Key>, Node>, nodes: map<seq<Key>, Node>, args: seq<Arg>, found: bool)
    requires Searched(before, nodes, args, found)
    ensures forall keys :: keys in before ==> keys in nodes && nodes[keys] == before[keys]
    ensures forall b :: HasProfile(nodes, b) <==> HasProfile(before, b) || (found && SameTypes(args, b))
    ensures HasProfile(before, args) ==> found && nodes == before
  {
    hide HasProfile, SameTypes;
  }

  class ProfileCache {
    var nodes: map<seq<Key>, Node>
    const numParams: nat

    ghost predicate Valid()
      reads this
    {
      CacheOk(nodes, numParams)
    }

    constructor (numParams: nat)
      ensures Valid() && this.numParams == numParams && nodes == map[]
    {
      this.numParams := numParams;
      nodes := map[];
    }

    /** Whatever has been looked up before, the leaves are the leaves of these arguments. Cached
        nodes stay, a call with the types of an earlier one finds that call's profile, and a profile
        serves no call with other types. */
    method Lookup(args: seq<Arg>) returns (r: LookupResult)
      requires Valid()
      modifies this
      ensures Valid()
      ensures r == WrongCount <==> |args| != numParams
      ensures r == TooDeep <==>
                |args| == numParams && forall d: nat :: IsDepth(args, d) ==> d > 64
      ensures r.Found? ==> r.leaves == AsSlots(Leaves(args)) && r.depthFirst == Signature(args) + [NoType]
      ensures forall keys :: keys in old(nodes) ==> keys in nodes && nodes[keys] == old(nodes)[keys]
      ensures forall b :: HasProfile(nodes, b) <==> HasProfile(old(nodes), b) || (r.Found? && SameTypes(args, b))
      ensures HasProfile(old(nodes), args) ==> r.Found? && nodes == old(nodes)
    {
      hide Layout, Level, HasAggregate, TypesOf, IsDepth, Traverse, DepthFirst, Leaves, AggregateArgs, PathTypes,
        NodeFitsLevel, KeysOf, AllAggregates, ExpandListed, LevelAggregates, Starts, Ends, AsSlots,
        HasProfile, Searching, Searched, SameTypes, Signature, CacheOk;
      var objects, types := PushObjects([], [], args) by { TypesOfNothing(); }
      var queryStart: nat := 0;
      var keys: seq<Key>, path: seq<PathNode> := [], [];
      FirstLevelReady(args, objects, types);
      SearchStarts(nodes, args);
      for depth := 0 to MAX_AGGREGATE_NESTING_DEPTH + 1
        invariant CacheOk(nodes, numParams) && LevelReady(args, depth, objects, types, queryStart, keys, path)
        invariant depth > 0 ==> |args| == numParams
        invariant Searching(old(nodes), nodes, args) && (keys == [] || keys in nodes)
      {
        var key := types[queryStart..|types| - 1];
        ghost var above := keys;
        keys := keys + [key];
        KeyOfLevel(args, depth, objects, types, queryStart, above, path, key);
        var infos;
        if keys in nodes {
          CachedNode(nodes, numParams, keys);
          var node := nodes[keys];
          match node {
            case Profile(leaves, depthFirst) =>
              DepthReached(args, depth, objects, types, queryStart, above, path);
              ProfileFitsAnyCall(keys, node, args);
              assert InRange(leaves, |objects|);
              r := Found(Gather(objects, leaves), depthFirst);
              DepthIsUnique(args, depth);
              SearchHits(old(nodes), nodes, args, keys);
              SearchedMeans(old(nodes), nodes, args, true);
              return;
            case ExpandAggregates(cached) =>
              infos := cached;
          }
        } else {
          if depth == 0 && |args| != numParams {
            SearchFails(old(nodes), nodes, numParams, args);
            SearchedMeans(old(nodes), nodes, args, false);
            return WrongCount;
          }
          infos := ClassifyLevel(types, queryStart, |types| - 1);
          if infos == [] {
            DepthReached(args, depth, objects, types, queryStart, above, path);
            SizesOfLevels(args, depth, objects, types, queryStart, above, path);
            var depthFirst, leaves, _ := Breadth2Depth(|key|, path, types,
              Starts(args, depth + 1), Ends(args, depth + 1), |Leaves(args)|);
            PathOffsetsOfArguments(keys, args);
            SearchMisses(old(nodes), nodes, numParams, args, above, key, Profile(leaves, depthFirst));
            NodeCached(nodes, numParams, above, key, Profile(leaves, depthFirst));
            nodes := nodes[keys := Profile(leaves, depthFirst)];
            ProfileFitsAnyCall(keys, nodes[keys], args);
            r := Found(Gather(objects, leaves), depthFirst);
            DepthIsUnique(args, depth);
            SearchedMeans(old(nodes), nodes, args, true);
            return;
          }
          LevelHasAggregate(args, depth, objects, types, queryStart, above, path);
          SearchMisses(old(nodes), nodes, numParams, args, above, key, ExpandAggregates(infos));
          NodeCached(nodes, numParams, above, key, ExpandAggregates(infos));
          nodes := nodes[keys := ExpandAggregates(infos)];
        }
        NextLevelReady(args, depth, objects, types, queryStart, above, path, key, infos);
        path := path + [PathNode(|key|, infos)];
        queryStart := |types|;
        objects, types := ExpandAggregateArgs(objects, types, infos);
      }
      DeeperThan(args, MAX_AGGREGATE_NESTING_DEPTH + 1);
      SearchFails(old(nodes), nodes, numParams, args);
      SearchedMeans(old(nodes), nodes, args, false);
      return TooDeep;
    }
  }

  lemma TypesOfNothing()
    ensures TypesOf([]) == []
  {
  }

  lemma FirstLevelReady(args: seq<Arg>, objects: seq<Slot>, types: seq<TypeSlot>)
    requires objects == [] + (AsSlots(args) + [Sentinel]) && types == TypesOf(objects)
    ensures LevelReady(args, 0, objects, types, 0, [], [])
  {
    GenerationZero(args);
    assert Layout(args, 1) == Layout(args, 0) + Level(args, 0);
  }

  lemma KeyOfLevel(args: seq<Arg>, depth: nat, objects: seq<Slot>, types: seq<TypeSlot>,
                   queryStart: nat, keys: seq<Key>, path: seq<PathNode>, key: Key)
    requires LevelReady(args, depth, objects, types, queryStart, keys, path)
    requires key == types[queryStart..|types| - 1]
    ensures KeysOf(keys + [key], args)
    ensures PathTypes(keys + [key]) == types && |PathTypes(keys)| == queryStart
    ensures AggregateArgs(types, queryStart, |types| - 1) == LevelAggregates(keys + [key])
    ensures |(keys + [key])[0]| == |args|
  {
    hide Layout, Level, HasAggregate, TypesOf, AggregateArgs, PathTypes, NodeFitsLevel;
    LevelInLayout(args, depth + 1, depth);
    LevelTypes(objects, queryStart, |objects|);
    TypesOfSize(objects);
    assert key + [NoType] == types[queryStart..|types|];
    KeysPush(args, keys, key);
    PathOfArguments(keys + [key], args);
    PathOfArguments(keys, args);
    TypesOfSize(Layout(args, depth));
    assert (keys + [key])[..depth] == keys;
    NoAggregateLast(types, queryStart, |types|);
    SizeOfFirstLevel(args);
    TypesOfSize(Level(args, 0));
    assert (keys + [key])[0] + [NoType] == TypesOf(Level(args, 0));
  }

  lemma KeysPush(args: seq<Arg>, keys: seq<Key>, key: Key)
    requires KeysOf(keys, args) && key + [NoType] == TypesOf(Level(args, |keys|))
    ensures KeysOf(keys + [key], args)
  {
  }

  lemma SizeOfFirstLevel(args: seq<Arg>)
    ensures |Level(args, 0)| == |args| + 1
  {
    GenerationZero(args);
  }

  lemma NoAggregateLast(types: seq<TypeSlot>, lo: nat, hi: nat)
    requires lo < hi <= |types| && types[hi - 1] == NoType
    ensures AggregateArgs(types, lo, hi) == AggregateArgs(types, lo, hi - 1)
  {
  }

  lemma LevelTypes(slots: seq<Slot>, lo: nat, hi: nat)
    requires lo <= hi <= |slots|
    ensures TypesOf(slots[lo..hi]) == TypesOf(slots)[lo..hi]
  {
  }

  lemma DepthReached(args: seq<Arg>, depth: nat, objects: seq<Slot>, types: seq<TypeSlot>,
                     queryStart: nat, keys: seq<Key>, path: seq<PathNode>)
    requires LevelReady(args, depth, objects, types, queryStart, keys, path)
    requires AggregateArgs(types, queryStart, |types| - 1) == []
    ensures IsDepth(args, depth)
    ensures AggregateArgs(types, queryStart, |types|) == []
  {
    hide Layout, Level, HasAggregate, TypesOf, AggregateArgs, NodeFitsLevel, KeysOf;
    LevelInLayout(args, depth + 1, depth);
    TypesOfSize(objects);
    NoAggregateLast(types, queryStart, |types|);
    AggregateArgsNonempty(objects, queryStart, |objects|);
    assert objects[queryStart..|objects|] == Level(args, depth);
  }

  /** A level with aggregates in its types has aggregates. */
  lemma LevelHasAggregate(args: seq<Arg>, depth: nat, objects: seq<Slot>, types: seq<TypeSlot>,
                          queryStart: nat, keys: seq<Key>, path: seq<PathNode>)
    requires LevelReady(args, depth, objects, types, queryStart, keys, path)
    requires AggregateArgs(types, queryStart, |types| - 1) != []
    ensures HasAggregate(Level(args, depth))
  {
    hide Layout, Level, HasAggregate, TypesOf, AggregateArgs, NodeFitsLevel, KeysOf;
    LevelInLayout(args, depth + 1, depth);
    TypesOfSize(objects);
    NoAggregateLast(types, queryStart, |types|);
    AggregateArgsNonempty(objects, queryStart, |objects|);
    assert objects[queryStart..|objects|] == Level(args, depth);
  }

  lemma SizesOfLevels(args: seq<Arg>, depth: nat, objects: seq<Slot>, types: seq<TypeSlot>,
                      queryStart: nat, keys: seq<Key>, path: seq<PathNode>)
    requires LevelReady(args, depth, objects, types, queryStart, keys, path)
    requires IsDepth(args, depth) && AggregateArgs(types, queryStart, |types|) == []
    ensures var starts, ends := Starts(args, depth + 1), Ends(args, depth + 1);
            var t := Traverse(types, ends, starts, 0);
            && Contiguous(starts, ends) && PathFits(path, types, starts, ends)
            && ends[depth] == |types| && starts[depth] == queryStart
            && t.Done? && t.cursors == ends && |t.types| == |types| && |t.leaves| == |Leaves(args)|
            && |Leaves(args)| + 2 * TotalAggregates(path) + 1 == |types|
  {
    hide Layout, Level, IsDepth, Traverse, DepthFirst, Leaves, AggregateArgs, TypesOf, HasAggregate, KeysOf;
    LayoutIsContiguous(args, depth + 1);
    TypesOfSize(Layout(args, depth + 1));
    PathOfLevels(args, depth, types, path);
    WholeTraversal(args, depth);
    SizesCheck(args, depth, path);
  }

  lemma PathOfLevels(args: seq<Arg>, depth: nat, types: seq<TypeSlot>, path: seq<PathNode>)
    requires |path| == depth && forall k :: 0 <= k < depth ==> NodeFitsLevel(path[k], args, types, k)
    ensures PathFits(path, types, Starts(args, depth + 1), Ends(args, depth + 1))
    ensures Starts(args, depth + 1)[depth] == |Layout(args, depth)|
  {
    hide Layout, AggregateArgs;
    var starts, ends := Starts(args, depth + 1), Ends(args, depth + 1);
    forall k | 0 <= k < depth
      ensures starts[k] <= ends[k] <= |types| && ends[k] == starts[k] + path[k].size + 1
      ensures path[k].aggregates == AggregateArgs(types, starts[k], ends[k])
    {
      assert NodeFitsLevel(path[k], args, types, k);
    }
  }

  lemma DepthIsUnique(args: seq<Arg>, depth: nat)
    requires IsDepth(args, depth)
    ensures forall d: nat :: IsDepth(args, d) ==> d == depth
  {
  }

  lemma DeeperThan(args: seq<Arg>, n: nat)
    requires forall k :: 0 <= k < n ==> HasAggregate(Level(args, k))
    ensures forall d: nat :: IsDepth(args, d) ==> d >= n
  {
  }

  lemma NextLevelReady(args: seq<Arg>, depth: nat, objects: seq<Slot>, types: seq<TypeSlot>,
                       queryStart: nat, keys: seq<Key>, path: seq<PathNode>, key: Key, infos: seq<AggregateInfo>)
    requires LevelReady(args, depth, objects, types, queryStart, keys, path)
    requires key == types[queryStart..|types| - 1] && KeysOf(keys + [key], args)
    requires infos == AggregateArgs(types, queryStart, |types| - 1) && infos != []
    ensures AllAggregates(objects, infos)
    ensures var objects' := objects + ExpandListed(objects, infos);
            LevelReady(args, depth + 1, objects', TypesOf(objects'), |types|, keys + [key], path + [PathNode(|key|, infos)])
  {
    hide Layout, Level, HasAggregate, TypesOf, AggregateArgs, KeysOf, Expand, NodeFitsLevel;
    TypesOfSize(objects);
    LevelInLayout(args, depth + 1, depth);
    NoAggregateLast(types, queryStart, |types|);
    AggregateArgsNonempty(objects, queryStart, |objects|);
    assert objects[queryStart..|objects|] == Level(args, depth);
    ExpandListedIsExpand(objects, queryStart, |objects|);
    NextLevel(args, depth);
    ExpandedEnds(Level(args, depth));
    var added := ExpandListed(objects, infos);
    LayoutNext(args, depth + 1);
    TypesOfSum(objects, added);
    TypesOfSize(added);
    TypesOfAt(added, |added| - 1);
    var path' := path + [PathNode(|key|, infos)];
    forall k | 0 <= k < depth + 1 ensures NodeFitsLevel(path'[k], args, types + TypesOf(added), k) {
      if k < depth {
        NodeStillFits(path[k], args, types, TypesOf(added), k);
      } else {
        LastNodeFits(path'[k], args, types, TypesOf(added), k);
      }
    }
  }

  lemma LayoutNext(args: seq<Arg>, n: nat)
    ensures Layout(args, n + 1) == Layout(args, n) + Level(args, n)
  {
  }

  lemma {:induction false} AggregateArgsPrefix(types: seq<TypeSlot>, more: seq<TypeSlot>, lo: nat, hi: nat)
    requires hi <= |types|
    ensures AggregateArgs(types + more, lo, hi) == AggregateArgs(types, lo, hi)
  {
    if lo < hi {
      AggregateArgsPrefix(types, more, lo, hi - 1);
    }
  }

  lemma NodeStillFits(node: PathNode, args: seq<Arg>, types: seq<TypeSlot>, more: seq<TypeSlot>, k: nat)
    requires NodeFitsLevel(node, args, types, k)
    ensures NodeFitsLevel(node, args, types + more, k)
  {
    hide Layout;
    AggregateArgsPrefix(types, more, |Layout(args, k)|, |Layout(args, k + 1)|);
  }

  lemma LastNodeFits(node: PathNode, args: seq<Arg>, types: seq<TypeSlot>, more: seq<TypeSlot>, k: nat)
    requires |Layout(args, k + 1)| == |types| && |types| == |Layout(args, k)| + node.size + 1
    requires node.aggregates == AggregateArgs(types, |Layout(args, k)|, |types|)
    ensures NodeFitsLevel(node, args, types + more, k)
  {
    hide Layout;
    AggregateArgsPrefix(types, more, |Layout(args, k)|, |types|);
  }
}

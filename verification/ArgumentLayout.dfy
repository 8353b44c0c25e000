/** Nested kernel arguments: their level-order layout, their depth-first order, and the traversal
    with one cursor per level that turns one into the other. */
module ArgumentLayout {

  /** A leaf argument, or a tuple or dataclass instance with its items. */
  datatype Arg = Leaf(ty: nat, obj: nat) | Aggregate(ty: nat, items: seq<Arg>)

  /** An entry of pyarg_objs_breadth_first: an object, or the null that ends an aggregate. */
  datatype Slot = Sentinel | Item(arg: Arg)

  /** An entry of pyarg_types_breadth_first. */
  datatype TypeSlot = NoType | LeafType(id: nat) | AggregateType(id: nat)

  function TypeOf(s: Slot): TypeSlot {
    match s
    case Sentinel => NoType
    case Item(Leaf(ty, _)) => LeafType(ty)
    case Item(Aggregate(ty, _)) => AggregateType(ty)
  }

  function TypesOf(slots: seq<Slot>): seq<TypeSlot> {
    seq(|slots|, i requires 0 <= i < |slots| => TypeOf(slots[i]))
  }

  // ---- The two orders ----

  /** The parenthesised order: an aggregate, its items, then a sentinel. */
  function DepthFirst(args: seq<Arg>): seq<Slot> {
    if args == [] then []
    else
      [Item(args[0])]
      + (if args[0].Aggregate? then DepthFirst(args[0].items) + [Sentinel] else [])
      + DepthFirst(args[1..])
  }

  /** The leaf arguments, left to right. */
  function Leaves(args: seq<Arg>): seq<Arg> {
    if args == [] then []
    else (if args[0].Aggregate? then Leaves(args[0].items) else [args[0]]) + Leaves(args[1..])
  }

  /** What the arguments contribute to the k-th level below them. */
  function Generation(args: seq<Arg>, k: nat): seq<Slot>
    decreases k, |args|
  {
    if args == [] then []
    else if k == 0 then [Item(args[0])] + Generation(args[1..], 0)
    else
      (if args[0].Aggregate? then Generation(args[0].items, k - 1) + EndOf(k - 1) else [])
      + Generation(args[1..], k)
  }

  /** The list that ends at level 0. */
  function EndOf(k: nat): seq<Slot> { if k == 0 then [Sentinel] else [] }

  function Level(args: seq<Arg>, k: nat): seq<Slot> { Generation(args, k) + EndOf(k) }

  /** The first n levels, one after the other. */
  function Layout(args: seq<Arg>, n: nat): seq<Slot> {
    if n == 0 then [] else Layout(args, n - 1) + Level(args, n - 1)
  }

  predicate HasAggregate(slots: seq<Slot>) {
    exists i :: 0 <= i < |slots| && slots[i].Item? && slots[i].arg.Aggregate?
  }

  /** The levels that the lookup expands: the last one has no aggregates, the ones before do. */
  ghost predicate IsDepth(args: seq<Arg>, depth: nat) {
    && !HasAggregate(Level(args, depth))
    && forall k :: 0 <= k < depth ==> HasAggregate(Level(args, k))
  }

  function Gather(slots: seq<Slot>, indices: seq<nat>): seq<Slot>
    requires forall i :: 0 <= i < |indices| ==> indices[i] < |slots|
  {
    seq(|indices|, i requires 0 <= i < |indices| => slots[indices[i]])
  }

  function AsSlots(args: seq<Arg>): seq<Slot> {
    seq(|args|, i requires 0 <= i < |args| => Item(args[i]))
  }

  // ---- The traversal ----

  /** Done carries the types in depth-first order, the indices of the leaves, and the final
      cursors. CheckFailed means that one of the loop's CHECKs fired. */
  datatype Traversal = CheckFailed | Done(types: seq<TypeSlot>, leaves: seq<nat>, cursors: seq<nat>)

  function Prepend(types: seq<TypeSlot>, leaves: seq<nat>, t: Traversal): Traversal {
    match t
    case CheckFailed => CheckFailed
    case Done(ts, ls, cursors) => Done(types + ts, leaves + ls, cursors)
  }

  function EntriesLeft(cursors: seq<nat>, ends: seq<nat>): nat
    requires |cursors| == |ends|
  {
    if cursors == [] then 0
    else (if cursors[0] < ends[0] then ends[0] - cursors[0] else 0) + EntriesLeft(cursors[1..], ends[1..])
  }

  lemma {:induction false} OneEntryLess(cursors: seq<nat>, ends: seq<nat>, k: nat)
    requires |cursors| == |ends| && k < |cursors| && cursors[k] < ends[k]
    ensures EntriesLeft(cursors[k := cursors[k] + 1], ends) == EntriesLeft(cursors, ends) - 1
  {
    if k == 0 {
      assert cursors[0 := cursors[0] + 1][1..] == cursors[1..];
    } else {
      OneEntryLess(cursors[1..], ends[1..], k - 1);
      assert cursors[k := cursors[k] + 1][1..] == cursors[1..][k - 1 := cursors[k] + 1];
    }
  }

  function Traverse(types: seq<TypeSlot>, ends: seq<nat>, cursors: seq<nat>, cur: nat): Traversal
    requires |cursors| == |ends|
    decreases EntriesLeft(cursors, ends)
  {
    if cur >= |cursors| || cursors[cur] >= ends[cur] || cursors[cur] >= |types| then CheckFailed
    else
      var idx := cursors[cur];
      var next := cursors[cur := idx + 1];
      OneEntryLess(cursors, ends, cur);
      match types[idx]
      case NoType =>
        if cur == 0 then Done([NoType], [], next) else Prepend([NoType], [], Traverse(types, ends, next, cur - 1))
      case LeafType(_) => Prepend([types[idx]], [idx], Traverse(types, ends, next, cur))
      case AggregateType(_) =>
        if cur + 1 < |cursors| then Prepend([types[idx]], [], Traverse(types, ends, next, cur + 1))
        else Prepend([types[idx]], [idx], Traverse(types, ends, next, cur))
  }

  // ---- What is left to visit ----

  /** The arguments left at each depth, from the outermost list to the current one. At level j, the
      current list's part comes first. */
  ghost function Pending(stack: seq<seq<Arg>>, j: nat): seq<Slot> {
    if stack == [] then []
    else
      var k := |stack| - 1;
      (if k <= j then Level(stack[k], j - k) else []) + Pending(stack[..k], j)
  }

  ghost function PendingDepthFirst(stack: seq<seq<Arg>>): seq<Slot> {
    if stack == [] then []
    else
      var k := |stack| - 1;
      DepthFirst(stack[k]) + ([Sentinel] + PendingDepthFirst(stack[..k]))
  }

  ghost function PendingLeaves(stack: seq<seq<Arg>>): seq<Arg> {
    if stack == [] then []
    else
      var k := |stack| - 1;
      Leaves(stack[k]) + PendingLeaves(stack[..k])
  }

  /** Each cursor stands at the start of what is pending on its level. */
  ghost predicate CursorsFit(slots: seq<Slot>, ends: seq<nat>, cursors: seq<nat>, stack: seq<seq<Arg>>) {
    && |cursors| == |ends| && 1 <= |stack| <= |cursors|
    && (forall j :: 0 <= j < |cursors| ==> cursors[j] <= ends[j] <= |slots|)
    && (forall j :: 0 <= j < |cursors| ==> slots[cursors[j]..ends[j]] == Pending(stack, j))
    && !HasAggregate(Pending(stack, |cursors| - 1))
  }

  lemma PendingTop(stack: seq<seq<Arg>>, top: seq<Arg>, j: nat)
    ensures Pending(stack + [top], j)
            == (if |stack| <= j then Level(top, j - |stack|) else []) + Pending(stack, j)
  {
    assert (stack + [top])[..|stack|] == stack;
  }

  lemma PendingOrderTop(stack: seq<seq<Arg>>, top: seq<Arg>)
    ensures PendingDepthFirst(stack + [top]) == DepthFirst(top) + ([Sentinel] + PendingDepthFirst(stack))
    ensures PendingLeaves(stack + [top]) == Leaves(top) + PendingLeaves(stack)
  {
    assert (stack + [top])[..|stack|] == stack;
  }

  /** The first argument of a list: what it is on its own level, and what it adds below. */
  lemma LevelOfFirst(args: seq<Arg>, k: nat)
    requires args != []
    ensures k == 0 ==> Level(args, 0) == [Item(args[0])] + Level(args[1..], 0)
    ensures k > 0 ==> Level(args, k) == (if args[0].Aggregate? then Level(args[0].items, k - 1) else [])
                                         + Level(args[1..], k)
  {
    if k == 0 {
      assert [Item(args[0])] + Generation(args[1..], 0) + [Sentinel]
             == [Item(args[0])] + (Generation(args[1..], 0) + [Sentinel]);
    } else {
      assert EndOf(k) == [];
    }
  }

  lemma LevelOfNone(k: nat)
    ensures Level([], k) == EndOf(k)
  {
  }

  /** Passing a leaf, or entering an aggregate. */
  lemma Advance(below: seq<seq<Arg>>, top: seq<Arg>, j: nat)
    requires top != []
    ensures var rest := below + [top[1..]];
            var next := if top[0].Aggregate? then rest + [top[0].items] else rest;
            Pending(below + [top], j) == (if j == |below| then [Item(top[0])] else []) + Pending(next, j)
  {
    hide Level, Pending;
    var rest := below + [top[1..]];
    var k := |below|;
    PendingTop(below, top, j);
    PendingTop(below, top[1..], j);
    if k <= j {
      LevelOfFirst(top, j - k);
    }
    if top[0].Aggregate? {
      PendingTop(rest, top[0].items, j);
      if j == k {
        Associate([Item(top[0])], Level(top[1..], 0), Pending(below, j));
      } else if j > k {
        Associate(Level(top[0].items, j - k - 1), Level(top[1..], j - k), Pending(below, j));
      }
    } else if j == k {
      Associate([Item(top[0])], Level(top[1..], 0), Pending(below, j));
    }
  }

  lemma Associate<T>(a: seq<T>, b: seq<T>, c: seq<T>)
    ensures (a + b) + c == a + (b + c)
    ensures [] + c == c
  {
  }

  // ---- The traversal is depth-first ----

  lemma DepthFirstOfFirst(args: seq<Arg>, after: seq<Slot>)
    requires args != []
    ensures DepthFirst(args) + after
            == [Item(args[0])] + ((if args[0].Aggregate? then DepthFirst(args[0].items) + [Sentinel] else [])
                                  + (DepthFirst(args[1..]) + after))
  {
    var inner := if args[0].Aggregate? then DepthFirst(args[0].items) + [Sentinel] else [];
    var rest := DepthFirst(args[1..]);
    assert DepthFirst(args) == [Item(args[0])] + inner + rest;
    hide DepthFirst;
    Associate([Item(args[0])] + inner, rest, after);
    Associate([Item(args[0])], inner, rest + after);
  }

  lemma LeavesOfFirst(args: seq<Arg>)
    requires args != []
    ensures Leaves(args) == (if args[0].Aggregate? then Leaves(args[0].items) else [args[0]]) + Leaves(args[1..])
  {
  }

  /** What the entry under the current cursor does to the stack. */
  ghost function NextStack(stack: seq<seq<Arg>>): seq<seq<Arg>>
    requires stack != []
  {
    var k := |stack| - 1;
    var below, top := stack[..k], stack[k];
    if top == [] then below
    else if top[0].Aggregate? then below + [top[1..]] + [top[0].items]
    else below + [top[1..]]
  }

  ghost function NextSlot(stack: seq<seq<Arg>>): Slot
    requires stack != []
  {
    var top := stack[|stack| - 1];
    if top == [] then Sentinel else Item(top[0])
  }

  ghost function NextLeaves(stack: seq<seq<Arg>>): seq<Arg>
    requires stack != []
  {
    var top := stack[|stack| - 1];
    if top != [] && top[0].Leaf? then [top[0]] else []
  }

  lemma PendingStep(stack: seq<seq<Arg>>, j: nat)
    requires stack != []
    ensures Pending(stack, j) == (if j == |stack| - 1 then [NextSlot(stack)] else []) + Pending(NextStack(stack), j)
  {
    hide Pending;
    var k := |stack| - 1;
    assert stack == stack[..k] + [stack[k]];
    if stack[k] == [] {
      PendingTop(stack[..k], [], j);
      if k <= j {
        LevelOfNone(j - k);
      }
    } else {
      Advance(stack[..k], stack[k], j);
    }
  }

  lemma OrderStep(stack: seq<seq<Arg>>)
    requires stack != []
    ensures PendingDepthFirst(stack) == [NextSlot(stack)] + PendingDepthFirst(NextStack(stack))
    ensures PendingLeaves(stack) == NextLeaves(stack) + PendingLeaves(NextStack(stack))
  {
    var k := |stack| - 1;
    var below, top := stack[..k], stack[k];
    assert stack == below + [top];
    if top == [] {
      PendingOrderTop(below, top);
    } else {
      OrderOfFirst(below, top);
    }
  }

  lemma OrderOfFirst(below: seq<seq<Arg>>, top: seq<Arg>)
    requires top != []
    ensures var rest := below + [top[1..]];
            var next := if top[0].Aggregate? then rest + [top[0].items] else rest;
            && PendingDepthFirst(below + [top]) == [Item(top[0])] + PendingDepthFirst(next)
            && PendingLeaves(below + [top])
               == (if top[0].Leaf? then [top[0]] else []) + PendingLeaves(next)
  {
    hide PendingDepthFirst, PendingLeaves, DepthFirst, Leaves;
    DepthFirstTail(below, top);
    LeavesTail(below, top);
  }

  lemma DepthFirstTail(below: seq<seq<Arg>>, top: seq<Arg>)
    requires top != []
    ensures var rest := below + [top[1..]];
            var next := if top[0].Aggregate? then rest + [top[0].items] else rest;
            PendingDepthFirst(below + [top]) == [Item(top[0])] + PendingDepthFirst(next)
  {
    hide PendingDepthFirst, PendingLeaves, DepthFirst;
    var rest := below + [top[1..]];
    PendingOrderTop(below, top);
    PendingOrderTop(below, top[1..]);
    DepthFirstOfFirst(top, [Sentinel] + PendingDepthFirst(below));
    if top[0].Aggregate? {
      PendingOrderTop(rest, top[0].items);
      Associate(DepthFirst(top[0].items), [Sentinel], PendingDepthFirst(rest));
    }
  }

  lemma LeavesTail(below: seq<seq<Arg>>, top: seq<Arg>)
    requires top != []
    ensures var rest := below + [top[1..]];
            var next := if top[0].Aggregate? then rest + [top[0].items] else rest;
            PendingLeaves(below + [top]) == (if top[0].Leaf? then [top[0]] else []) + PendingLeaves(next)
  {
    hide PendingDepthFirst, PendingLeaves, Leaves;
    var rest := below + [top[1..]];
    PendingOrderTop(below, top);
    PendingOrderTop(below, top[1..]);
    LeavesOfFirst(top);
    if top[0].Aggregate? {
      PendingOrderTop(rest, top[0].items);
      Associate(Leaves(top[0].items), Leaves(top[1..]), PendingLeaves(below));
    } else {
      Associate([top[0]], Leaves(top[1..]), PendingLeaves(below));
    }
  }

  lemma NoAggregateInTail(a: Slot, rest: seq<Slot>)
    requires !HasAggregate([a] + rest)
    ensures !HasAggregate(rest) && !(a.Item? && a.arg.Aggregate?)
  {
    forall i | 0 <= i < |rest| ensures !(rest[i].Item? && rest[i].arg.Aggregate?) {
      assert ([a] + rest)[i + 1] == rest[i];
    }
    assert ([a] + rest)[0] == a;
  }

  /** One turn of the loop: the cursor's entry is the next one in depth-first order, and the
      cursors fit what is pending afterwards. */
  lemma CursorStep(slots: seq<Slot>, ends: seq<nat>, cursors: seq<nat>, stack: seq<seq<Arg>>)
    requires CursorsFit(slots, ends, cursors, stack)
    ensures var cur := |stack| - 1;
            && cursors[cur] < ends[cur] && slots[cursors[cur]] == NextSlot(stack)
            && var next, stack' := cursors[cur := cursors[cur] + 1], NextStack(stack);
            && |stack'| <= |cursors|
            && (stack' != [] ==> CursorsFit(slots, ends, next, stack'))
            && (stack' == [] ==> next == ends)
  {
    hide Pending, NextStack, NextSlot, HasAggregate;
    var cur, n := |stack| - 1, |cursors|;
    var stack' := NextStack(stack);
    PendingStep(stack, cur);
    HeadOfSlice(slots, cursors[cur], ends[cur], NextSlot(stack), Pending(stack', cur));
    var next := cursors[cur := cursors[cur] + 1];
    forall j | 0 <= j < n ensures slots[next[j]..ends[j]] == Pending(stack', j) {
      PendingStep(stack, j);
    }
    StackHeight(slots, ends, cursors, stack);
    if stack' == [] {
      forall j | 0 <= j < n ensures next[j] == ends[j] {
        NothingPending(j);
        assert |slots[next[j]..ends[j]]| == 0;
      }
    }
  }

  lemma NothingPending(j: nat)
    ensures Pending([], j) == []
  {
  }

  lemma HeadOfSlice<T>(s: seq<T>, lo: nat, hi: nat, head: T, tail: seq<T>)
    requires lo <= hi <= |s| && s[lo..hi] == [head] + tail
    ensures lo < hi && s[lo] == head && s[lo + 1..hi] == tail
  {
    assert s[lo..hi][0] == head;
    assert s[lo..hi][1..] == tail;
  }

  /** On the last level there is nothing to enter, so the stack never outgrows the cursors. */
  lemma StackHeight(slots: seq<Slot>, ends: seq<nat>, cursors: seq<nat>, stack: seq<seq<Arg>>)
    requires CursorsFit(slots, ends, cursors, stack)
    ensures |NextStack(stack)| <= |cursors|
    ensures !HasAggregate(Pending(NextStack(stack), |cursors| - 1))
  {
    hide Pending, HasAggregate;
    var last := |cursors| - 1;
    PendingStep(stack, last);
    if last == |stack| - 1 {
      NoAggregateInTail(NextSlot(stack), Pending(NextStack(stack), last));
    } else {
      Associate([], [], Pending(NextStack(stack), last));
    }
  }

  lemma GatherCons(slots: seq<Slot>, i: nat, rest: seq<nat>)
    requires i < |slots| && forall k :: 0 <= k < |rest| ==> rest[k] < |slots|
    ensures Gather(slots, [i] + rest) == [slots[i]] + Gather(slots, rest)
  {
  }

  ghost predicate InRange(indices: seq<nat>, n: nat) {
    forall i :: 0 <= i < |indices| ==> indices[i] < n
  }

  /** The main result: however deep and however empty the tuples, none of the loop's CHECKs fires,
      the types come out in depth-first order, the indices lead to the leaves in order, and every
      cursor ends at the end of its level. */
  lemma {:induction false} TraversalIsDepthFirst(
      slots: seq<Slot>, ends: seq<nat>, cursors: seq<nat>, stack: seq<seq<Arg>>)
    requires CursorsFit(slots, ends, cursors, stack)
    ensures Traversed(slots, ends, Traverse(TypesOf(slots), ends, cursors, |stack| - 1),
              PendingDepthFirst(stack), PendingLeaves(stack))
    decreases EntriesLeft(cursors, ends)
  {
    hide CursorsFit, Pending, HasAggregate, PendingDepthFirst, PendingLeaves;
    var cur := |stack| - 1;
    SizesOfCursorsFit(slots, ends, cursors, stack);
    CursorStep(slots, ends, cursors, stack);
    OrderStep(stack);
    OneEntryLess(cursors, ends, cur);
    var idx, stack' := cursors[cur], NextStack(stack);
    var next := cursors[cur := idx + 1];
    if stack' != [] {
      TraversalIsDepthFirst(slots, ends, next, stack');
    }
    TraverseOneEntry(slots, ends, cursors, stack);
  }

  lemma SizesOfCursorsFit(slots: seq<Slot>, ends: seq<nat>, cursors: seq<nat>, stack: seq<seq<Arg>>)
    requires CursorsFit(slots, ends, cursors, stack)
    ensures |cursors| == |ends| && 1 <= |stack| <= |cursors|
    ensures forall j :: 0 <= j < |cursors| ==> cursors[j] <= ends[j] <= |slots|
  {
  }

  lemma PendingOfNothing()
    ensures PendingDepthFirst([]) == [] && PendingLeaves([]) == []
  {
  }

  /** A traversal that has done the pending entries, as expected. */
  ghost predicate Traversed(slots: seq<Slot>, ends: seq<nat>, t: Traversal, order: seq<Slot>, leaves: seq<Arg>) {
    && t.Done?
    && t.types == TypesOf(order)
    && InRange(t.leaves, |slots|)
    && Gather(slots, t.leaves) == AsSlots(leaves)
    && t.cursors == ends
  }

  lemma TraversedOneMore(slots: seq<Slot>, ends: seq<nat>, idx: nat, t: Traversal, order: seq<Slot>, leaves: seq<Arg>)
    requires Traversed(slots, ends, t, order, leaves) && idx < |slots|
    ensures slots[idx].Item? && slots[idx].arg.Leaf? ==>
              Traversed(slots, ends, Prepend([TypeOf(slots[idx])], [idx], t),
                        [slots[idx]] + order, [slots[idx].arg] + leaves)
    ensures Traversed(slots, ends, Prepend([TypeOf(slots[idx])], [], t), [slots[idx]] + order, [] + leaves)
  {
    TypesOfCons(slots[idx], order);
    GatherCons(slots, idx, t.leaves);
    assert [] + t.leaves == t.leaves && [] + leaves == leaves;
    if slots[idx].Item? {
      AsSlotsSum([slots[idx].arg], leaves);
    }
  }

  lemma TraversedLast(slots: seq<Slot>, ends: seq<nat>)
    ensures Traversed(slots, ends, Done([NoType], [], ends), [Sentinel] + [], [] + [])
  {
  }

  lemma TraverseOneEntry(slots: seq<Slot>, ends: seq<nat>, cursors: seq<nat>, stack: seq<seq<Arg>>)
    requires |cursors| == |ends| && 1 <= |stack| <= |cursors|
    requires var cur := |stack| - 1;
             && cursors[cur] < ends[cur] <= |slots| && slots[cursors[cur]] == NextSlot(stack)
             && |NextStack(stack)| <= |cursors|
             && (NextStack(stack) == [] ==> cursors[cur := cursors[cur] + 1] == ends)
    requires PendingDepthFirst(stack) == [NextSlot(stack)] + PendingDepthFirst(NextStack(stack))
    requires PendingLeaves(stack) == NextLeaves(stack) + PendingLeaves(NextStack(stack))
    requires NextStack(stack) != [] ==>
               Traversed(slots, ends,
                 Traverse(TypesOf(slots), ends, cursors[|stack| - 1 := cursors[|stack| - 1] + 1], |NextStack(stack)| - 1),
                 PendingDepthFirst(NextStack(stack)), PendingLeaves(NextStack(stack)))
    ensures Traversed(slots, ends, Traverse(TypesOf(slots), ends, cursors, |stack| - 1),
              PendingDepthFirst(stack), PendingLeaves(stack))
  {
    hide *;
    var cur, stack', types := |stack| - 1, NextStack(stack), TypesOf(slots);
    var idx := cursors[cur];
    var next := cursors[cur := idx + 1];
    NextHeight(stack);
    TypesOfAt(slots, idx);
    TraverseUnfold(types, ends, cursors, cur);
    if stack' == [] {
      PendingOfNothing();
      TraversedLast(slots, ends);
    } else {
      var t := Traverse(types, ends, next, |stack'| - 1);
      TraversedOneMore(slots, ends, idx, t, PendingDepthFirst(stack'), PendingLeaves(stack'));
    }
  }

  lemma TypesOfAt(slots: seq<Slot>, idx: nat)
    requires idx < |slots|
    ensures |TypesOf(slots)| == |slots| && TypesOf(slots)[idx] == TypeOf(slots[idx])
    ensures match slots[idx]
            case Sentinel => TypeOf(slots[idx]) == NoType
            case Item(Leaf(_, _)) => TypeOf(slots[idx]).LeafType?
            case Item(Aggregate(_, _)) => TypeOf(slots[idx]).AggregateType?
  {
  }

  lemma NextHeight(stack: seq<seq<Arg>>)
    requires stack != []
    ensures |NextStack(stack)| == match NextSlot(stack)
                                  case Sentinel => |stack| - 1
                                  case Item(Leaf(_, _)) => |stack|
                                  case Item(Aggregate(_, _)) => |stack| + 1
    ensures NextLeaves(stack) == match NextSlot(stack)
                                 case Item(Leaf(_, _)) => [NextSlot(stack).arg]
                                 case _ => []
  {
  }

  lemma TypesOfCons(s: Slot, rest: seq<Slot>)
    ensures TypesOf([s] + rest) == [TypeOf(s)] + TypesOf(rest)
  {
  }

  lemma AsSlotsSum(a: seq<Arg>, b: seq<Arg>)
    ensures AsSlots(a + b) == AsSlots(a) + AsSlots(b)
  {
  }

  /** One turn of the loop, when it is not the last one. */
  lemma TraverseUnfold(types: seq<TypeSlot>, ends: seq<nat>, cursors: seq<nat>, cur: nat)
    requires |cursors| == |ends| && cur < |cursors| && cursors[cur] < ends[cur] && cursors[cur] < |types|
    ensures var idx := cursors[cur];
            var next := cursors[cur := idx + 1];
            match types[idx]
            case NoType =>
              Traverse(types, ends, cursors, cur) == if cur == 0 then Done([NoType], [], next) else Prepend([NoType], [], Traverse(types, ends, next, cur - 1))
            case LeafType(_) =>
              Traverse(types, ends, cursors, cur) == Prepend([types[idx]], [idx], Traverse(types, ends, next, cur))
            case AggregateType(_) => cur + 1 < |cursors| ==>
              Traverse(types, ends, cursors, cur) == Prepend([types[idx]], [], Traverse(types, ends, next, cur + 1))
  {
  }

  // ---- The whole layout ----

  /** Where each of the first n levels starts and ends. */
  function Starts(args: seq<Arg>, n: nat): seq<nat> {
    seq(n, k requires 0 <= k < n => |Layout(args, k)|)
  }

  function Ends(args: seq<Arg>, n: nat): seq<nat> {
    seq(n, k requires 0 <= k < n => |Layout(args, k + 1)|)
  }

  lemma {:induction false} LevelInLayout(args: seq<Arg>, n: nat, k: nat)
    requires k < n
    ensures |Layout(args, k)| <= |Layout(args, k + 1)| <= |Layout(args, n)|
    ensures Layout(args, n)[|Layout(args, k)|..|Layout(args, k + 1)|] == Level(args, k)
  {
    if k < n - 1 {
      LevelInLayout(args, n - 1, k);
      assert Layout(args, n)[|Layout(args, k)|..|Layout(args, k + 1)|]
             == Layout(args, n - 1)[|Layout(args, k)|..|Layout(args, k + 1)|];
    }
  }

  lemma PendingAtStart(args: seq<Arg>, j: nat)
    ensures Pending([args], j) == Level(args, j)
  {
    hide Level, Pending;
    PendingTop([], args, j);
    assert [] + [args] == [args];
    NothingPending(j);
  }

  lemma CursorsFitAtStart(args: seq<Arg>, depth: nat)
    requires IsDepth(args, depth)
    ensures CursorsFit(Layout(args, depth + 1), Ends(args, depth + 1), Starts(args, depth + 1), [args])
  {
    hide Layout, Level, Pending, HasAggregate;
    var n := depth + 1;
    forall j | 0 <= j < n
      ensures Starts(args, n)[j] <= Ends(args, n)[j] <= |Layout(args, n)|
      ensures Layout(args, n)[Starts(args, n)[j]..Ends(args, n)[j]] == Pending([args], j)
    {
      LevelInLayout(args, n, j);
      PendingAtStart(args, j);
    }
    PendingAtStart(args, depth);
  }

  /** The traversal of a complete layout. */
  lemma WholeTraversal(args: seq<Arg>, depth: nat)
    requires IsDepth(args, depth)
    ensures Traversed(Layout(args, depth + 1), Ends(args, depth + 1),
              Traverse(TypesOf(Layout(args, depth + 1)), Ends(args, depth + 1), Starts(args, depth + 1), 0),
              DepthFirst(args) + [Sentinel], Leaves(args))
  {
    hide Layout, Ends, Starts, Traversed, Traverse, TypesOf, CursorsFit;
    CursorsFitAtStart(args, depth);
    SizesOfCursorsFit(Layout(args, depth + 1), Ends(args, depth + 1), Starts(args, depth + 1), [args]);
    TraversalIsDepthFirst(Layout(args, depth + 1), Ends(args, depth + 1), Starts(args, depth + 1), [args]);
    PendingOrderTop([], args);
    PendingOfNothing();
    assert [] + [args] == [args];
    assert DepthFirst(args) + ([Sentinel] + []) == DepthFirst(args) + [Sentinel];
    assert Leaves(args) + [] == Leaves(args);
  }

  // ---- The next level ----

  /** The items of every aggregate of a level, each list with its sentinel. */
  function Expand(slots: seq<Slot>): seq<Slot> {
    if slots == [] then []
    else
      (if slots[0].Item? && slots[0].arg.Aggregate? then AsSlots(slots[0].arg.items) + [Sentinel] else [])
      + Expand(slots[1..])
  }

  lemma {:induction false} ExpandSum(a: seq<Slot>, b: seq<Slot>)
    ensures Expand(a + b) == Expand(a) + Expand(b)
  {
    if a == [] {
      assert a + b == b;
    } else {
      hide AsSlots;
      ExpandSum(a[1..], b);
      assert (a + b)[1..] == a[1..] + b && (a + b)[0] == a[0];
      if a[0].Item? && a[0].arg.Aggregate? {
        Associate(AsSlots(a[0].arg.items) + [Sentinel], Expand(a[1..]), Expand(b));
      }
    }
  }

  lemma {:induction false} GenerationZero(args: seq<Arg>)
    ensures Generation(args, 0) == AsSlots(args)
  {
    if args != [] {
      GenerationZero(args[1..]);
    }
  }

  /** What one argument adds to the k-th generation. */
  function Offspring(arg: Arg, k: nat): seq<Slot> {
    if k == 0 then [Item(arg)]
    else if arg.Aggregate? then Generation(arg.items, k - 1) + EndOf(k - 1)
    else []
  }

  lemma GenerationOfCons(args: seq<Arg>, k: nat)
    requires args != []
    ensures Generation(args, k) == Offspring(args[0], k) + Generation(args[1..], k)
  {
  }

  lemma ExpandOfOne(s: Slot)
    ensures Expand([s]) == if s.Item? && s.arg.Aggregate? then AsSlots(s.arg.items) + [Sentinel] else []
  {
    assert Expand([s][1..]) == [];
  }

  lemma ExpandEnd(k: nat)
    ensures Expand(EndOf(k)) == [] && Expand([]) == []
  {
  }

  lemma NextOffspring(arg: Arg, k: nat)
    requires arg.Aggregate? && k > 0 ==> Generation(arg.items, k) == Expand(Generation(arg.items, k - 1))
    ensures Offspring(arg, k + 1) == Expand(Offspring(arg, k))
  {
    hide Generation, Expand, AsSlots;
    if k == 0 {
      ExpandOfOne(Item(arg));
      if arg.Aggregate? {
        GenerationZero(arg.items);
      }
    } else {
      ExpandEnd(k - 1);
      if arg.Aggregate? {
        ExpandSum(Generation(arg.items, k - 1), EndOf(k - 1));
      }
    }
  }

  lemma {:induction false} NextGeneration(args: seq<Arg>, k: nat)
    ensures Generation(args, k + 1) == Expand(Generation(args, k))
    decreases k, |args|
  {
    if args != [] {
      NextGeneration(args[1..], k);
      if args[0].Aggregate? && k > 0 {
        NextGeneration(args[0].items, k - 1);
      }
      NextOffspring(args[0], k);
      GenerationOfCons(args, k);
      GenerationOfCons(args, k + 1);
      hide Generation, Expand, Offspring;
      ExpandSum(Offspring(args[0], k), Generation(args[1..], k));
    }
  }

  lemma NextLevel(args: seq<Arg>, k: nat)
    ensures Level(args, k + 1) == Expand(Level(args, k))
  {
    NextGeneration(args, k);
    ExpandSum(Generation(args, k), EndOf(k));
  }

  // ---- How many entries of each kind ----

  function Count(p: TypeSlot -> bool, types: seq<TypeSlot>): nat {
    if types == [] then 0 else (if p(types[0]) then 1 else 0) + Count(p, types[1..])
  }

  lemma {:induction false} CountSum(p: TypeSlot -> bool, a: seq<TypeSlot>, b: seq<TypeSlot>)
    ensures Count(p, a + b) == Count(p, a) + Count(p, b)
  {
    if a == [] {
      assert a + b == b;
    } else {
      CountSum(p, a[1..], b);
      assert (a + b)[1..] == a[1..] + b;
    }
  }

  /** Over all levels, the entries not visited yet. */
  function CountLeft(p: TypeSlot -> bool, types: seq<TypeSlot>, cursors: seq<nat>, ends: seq<nat>): nat
    requires |cursors| == |ends|
    requires forall j :: 0 <= j < |ends| ==> ends[j] <= |types|
  {
    if cursors == [] then 0
    else
      (if cursors[0] < ends[0] then Count(p, types[cursors[0]..ends[0]]) else 0)
      + CountLeft(p, types, cursors[1..], ends[1..])
  }

  lemma {:induction false} CountLeftStep(
      p: TypeSlot -> bool, types: seq<TypeSlot>, cursors: seq<nat>, ends: seq<nat>, k: nat)
    requires |cursors| == |ends| && k < |cursors| && cursors[k] < ends[k]
    requires forall j :: 0 <= j < |ends| ==> ends[j] <= |types|
    ensures CountLeft(p, types, cursors, ends)
            == (if p(types[cursors[k]]) then 1 else 0)
               + CountLeft(p, types, cursors[k := cursors[k] + 1], ends)
  {
    var next := cursors[k := cursors[k] + 1];
    if k == 0 {
      assert next[1..] == cursors[1..];
      var slice := types[cursors[0]..ends[0]];
      assert slice[1..] == types[next[0]..ends[0]] && slice[0] == types[cursors[0]];
      assert Count(p, slice) == (if p(slice[0]) then 1 else 0) + Count(p, slice[1..]);
    } else {
      hide Count;
      CountLeftStep(p, types, cursors[1..], ends[1..], k - 1);
      assert next[1..] == cursors[1..][k - 1 := cursors[k] + 1];
    }
  }

  lemma {:induction false} NothingLeft(p: TypeSlot -> bool, types: seq<TypeSlot>, ends: seq<nat>)
    requires forall j :: 0 <= j < |ends| ==> ends[j] <= |types|
    ensures CountLeft(p, types, ends, ends) == 0
  {
    if ends != [] {
      NothingLeft(p, types, ends[1..]);
    }
  }

  /** The traversal visits every entry exactly once: of each kind, as many as there were. */
  lemma {:induction false} VisitsEachOnce(
      p: TypeSlot -> bool, types: seq<TypeSlot>, ends: seq<nat>, cursors: seq<nat>, cur: nat)
    requires |cursors| == |ends| && forall j :: 0 <= j < |ends| ==> ends[j] <= |types|
    requires var t := Traverse(types, ends, cursors, cur); t.Done? && t.cursors == ends
    ensures Count(p, Traverse(types, ends, cursors, cur).types) == CountLeft(p, types, cursors, ends)
    decreases EntriesLeft(cursors, ends)
  {
    var idx := cursors[cur];
    var next := cursors[cur := idx + 1];
    OneEntryLess(cursors, ends, cur);
    CountLeftStep(p, types, cursors, ends, cur);
    TraverseUnfold(types, ends, cursors, cur);
    hide Traverse, CountLeft, Count;
    CountOne(p, types[idx]);
    match types[idx] {
      case NoType =>
        if cur == 0 {
          NothingLeft(p, types, ends);
        } else {
          VisitsEachOnce(p, types, ends, next, cur - 1);
          CountSum(p, [NoType], Traverse(types, ends, next, cur - 1).types);
        }
      case LeafType(_) =>
        VisitsEachOnce(p, types, ends, next, cur);
        CountSum(p, [types[idx]], Traverse(types, ends, next, cur).types);
      case AggregateType(_) =>
        var deeper := if cur + 1 < |cursors| then cur + 1 else cur;
        TraverseAggregate(types, ends, cursors, cur);
        VisitsEachOnce(p, types, ends, next, deeper);
        CountSum(p, [types[idx]], Traverse(types, ends, next, deeper).types);
    }
  }

  lemma TraverseAggregate(types: seq<TypeSlot>, ends: seq<nat>, cursors: seq<nat>, cur: nat)
    requires |cursors| == |ends| && cur < |cursors| && cursors[cur] < ends[cur] && cursors[cur] < |types|
    requires types[cursors[cur]].AggregateType?
    ensures var idx := cursors[cur];
            var next := cursors[cur := idx + 1];
            var deeper := cur + 1 < |cursors|;
            Traverse(types, ends, cursors, cur)
            == Prepend([types[idx]], if deeper then [] else [idx],
                       Traverse(types, ends, next, if deeper then cur + 1 else cur))
  {
  }

  lemma CountOne(p: TypeSlot -> bool, t: TypeSlot)
    ensures Count(p, [t]) == if p(t) then 1 else 0
  {
  }
}

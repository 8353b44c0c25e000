/** What the types of nested arguments tell apart: two argument lists have the same types in
    depth-first order exactly when their trees agree in shape and in every type, and then also on
    every level. */
module ArgumentTypes {
  import opened ArgumentLayout

  /** The same tree, whatever the objects at its leaves. */
  predicate SameTypes(a: seq<Arg>, b: seq<Arg>) {
    |a| == |b| && forall i :: 0 <= i < |a| ==> SameType(a[i], b[i])
  }

  predicate SameType(a: Arg, b: Arg) {
    match a
    case Leaf(ty, _) => b.Leaf? && b.ty == ty
    case Aggregate(ty, items) => b.Aggregate? && b.ty == ty && SameTypes(items, b.items)
  }

  /** The types in parenthesised notation: an aggregate opens a parenthesis, NoType closes it. */
  function Signature(args: seq<Arg>): seq<TypeSlot> {
    if args == [] then []
    else
      (match args[0]
       case Leaf(ty, _) => [LeafType(ty)]
       case Aggregate(ty, items) => [AggregateType(ty)] + Signature(items) + [NoType])
      + Signature(args[1..])
  }

  lemma TypesOfSum(a: seq<Slot>, b: seq<Slot>)
    ensures TypesOf(a + b) == TypesOf(a) + TypesOf(b)
  {
  }

  lemma TypesOfOne(s: Slot)
    ensures TypesOf([s]) == [TypeOf(s)] && TypesOf([]) == []
  {
  }

  /** The entries of an aggregate's items, with the end; nothing for a leaf. */
  function Inside(arg: Arg): seq<TypeSlot> { if arg.Aggregate? then Signature(arg.items) + [NoType] else [] }

  function InsideSlots(arg: Arg): seq<Slot> { if arg.Aggregate? then DepthFirst(arg.items) + [Sentinel] else [] }

  lemma SignatureOfFirst(args: seq<Arg>)
    requires args != []
    ensures Signature(args) == [if args[0].Leaf? then LeafType(args[0].ty) else AggregateType(args[0].ty)]
                               + (Inside(args[0]) + Signature(args[1..]))
  {
  }

  lemma SlotsOfFirst(args: seq<Arg>)
    requires args != []
    ensures DepthFirst(args) == [Item(args[0])] + (InsideSlots(args[0]) + DepthFirst(args[1..]))
  {
  }

  lemma InsideTypes(arg: Arg)
    requires arg.Aggregate? ==> TypesOf(DepthFirst(arg.items)) == Signature(arg.items)
    ensures TypesOf(InsideSlots(arg)) == Inside(arg)
  {
    hide TypesOf, DepthFirst, Signature;
    TypesOfOne(Sentinel);
    if arg.Aggregate? {
      TypesOfSum(DepthFirst(arg.items), [Sentinel]);
    }
  }

  lemma {:induction false} TypesAreSignature(args: seq<Arg>)
    ensures TypesOf(DepthFirst(args)) == Signature(args)
  {
    hide TypesOf, Inside, InsideSlots;
    TypesOfOne(Sentinel);
    if args != [] {
      SignatureOfFirst(args);
      SlotsOfFirst(args);
      TypesAreSignature(args[1..]);
      if args[0].Aggregate? {
        TypesAreSignature(args[0].items);
      }
      hide DepthFirst, Signature;
      InsideTypes(args[0]);
      TypesOfOne(Item(args[0]));
      TypesOfSum([Item(args[0])], InsideSlots(args[0]) + DepthFirst(args[1..]));
      TypesOfSum(InsideSlots(args[0]), DepthFirst(args[1..]));
    }
  }

  /** The ids of the leaf types, and of the aggregate types, in the order of a list of types. */
  function LeafIds(types: seq<TypeSlot>): seq<nat> {
    if types == [] then [] else LeafId(types[0]) + LeafIds(types[1..])
  }

  function LeafId(t: TypeSlot): seq<nat> { if t.LeafType? then [t.id] else [] }

  lemma {:induction false} LeafIdsSum(a: seq<TypeSlot>, b: seq<TypeSlot>)
    ensures LeafIds(a + b) == LeafIds(a) + LeafIds(b)
  {
    if a == [] {
      assert a + b == b;
    } else {
      hide LeafId;
      LeafIdsSum(a[1..], b);
      assert (a + b)[1..] == a[1..] + b;
      Associate(LeafId(a[0]), LeafIds(a[1..]), LeafIds(b));
    }
  }

  function IdsOf(leaves: seq<Arg>): seq<nat> {
    seq(|leaves|, k requires 0 <= k < |leaves| => leaves[k].ty)
  }

  lemma LeafIdsInside(arg: Arg)
    requires arg.Aggregate? ==> LeafIds(Signature(arg.items)) == IdsOf(Leaves(arg.items))
    ensures LeafIds([if arg.Leaf? then LeafType(arg.ty) else AggregateType(arg.ty)] + Inside(arg))
            == IdsOf(if arg.Aggregate? then Leaves(arg.items) else [arg])
  {
    hide Signature, Leaves;
    if arg.Aggregate? {
      LeafIdsSum([AggregateType(arg.ty)], Inside(arg));
      LeafIdsSum(Signature(arg.items), [NoType]);
    }
  }

  /** The k-th leaf type is the type of the k-th leaf. */
  lemma {:induction false} LeafTypesAreOfLeaves(args: seq<Arg>)
    ensures LeafIds(Signature(args)) == IdsOf(Leaves(args))
  {
    hide LeafIds, LeafId, Inside;
    if args == [] {
      LeafIdsOfNothing();
    } else {
      var first := [if args[0].Leaf? then LeafType(args[0].ty) else AggregateType(args[0].ty)];
      SignatureOfFirst(args);
      LeafTypesAreOfLeaves(args[1..]);
      if args[0].Aggregate? {
        LeafTypesAreOfLeaves(args[0].items);
      }
      LeafIdsInside(args[0]);
      LeavesOfFirst(args);
      hide Signature, Leaves;
      Associate(first, Inside(args[0]), Signature(args[1..]));
      LeafIdsSum(first + Inside(args[0]), Signature(args[1..]));
      IdsOfSum(if args[0].Aggregate? then Leaves(args[0].items) else [args[0]], Leaves(args[1..]));
    }
  }

  lemma LeafIdsOfNothing()
    ensures LeafIds([]) == [] && IdsOf([]) == []
  {
  }

  lemma IdsOfSum(a: seq<Arg>, b: seq<Arg>)
    ensures IdsOf(a + b) == IdsOf(a) + IdsOf(b)
  {
  }

  /** A signature that is closed can be read back, whatever follows it. */
  lemma {:induction false} SignatureReadsBack(a: seq<Arg>, b: seq<Arg>, s: seq<TypeSlot>, t: seq<TypeSlot>)
    requires Signature(a) + ([NoType] + s) == Signature(b) + ([NoType] + t)
    ensures SameTypes(a, b) && s == t
  {
    FirstType(a, s);
    FirstType(b, t);
    if a == [] {
      assert ([NoType] + s)[1..] == s && ([NoType] + t)[1..] == t;
    } else {
      var after, after' := Signature(a[1..]) + ([NoType] + s), Signature(b[1..]) + ([NoType] + t);
      if a[0].Aggregate? {
        SignatureReadsBack(a[0].items, b[0].items, after, after');
      }
      SignatureReadsBack(a[1..], b[1..], s, t);
      SameTypesCons(a, b);
    }
  }

  /** The first type, and what comes after it. */
  lemma FirstType(a: seq<Arg>, s: seq<TypeSlot>)
    ensures var all := Signature(a) + ([NoType] + s);
            && all != []
            && if a == [] then all[0] == NoType && all[1..] == s
               else
                 var after := Signature(a[1..]) + ([NoType] + s);
                 match a[0]
                 case Leaf(ty, _) => all[0] == LeafType(ty) && all[1..] == after
                 case Aggregate(ty, items) =>
                   all[0] == AggregateType(ty) && all[1..] == Signature(items) + ([NoType] + after)
  {
    if a != [] {
      SignatureOfFirst(a);
      hide Signature;
      Associate(Inside(a[0]), Signature(a[1..]), [NoType] + s);
      if a[0].Aggregate? {
        Associate(Signature(a[0].items), [NoType], Signature(a[1..]) + ([NoType] + s));
      }
      var first := if a[0].Leaf? then LeafType(a[0].ty) else AggregateType(a[0].ty);
      TailOf(first, Inside(a[0]) + Signature(a[1..]), [NoType] + s);
    }
  }

  lemma TailOf<T>(first: T, rest: seq<T>, after: seq<T>)
    ensures var all := ([first] + rest) + after; all[0] == first && all[1..] == rest + after
  {
  }

  lemma SameTypesCons(a: seq<Arg>, b: seq<Arg>)
    requires a != [] && b != []
    ensures SameTypes(a, b) <==> SameType(a[0], b[0]) && SameTypes(a[1..], b[1..])
  {
    if SameType(a[0], b[0]) && SameTypes(a[1..], b[1..]) {
      forall i | 0 <= i < |a| ensures SameType(a[i], b[i]) {
        assert i > 0 ==> a[i] == a[1..][i - 1] && b[i] == b[1..][i - 1];
      }
    }
  }

  lemma {:induction false} SameTypesSameSignature(a: seq<Arg>, b: seq<Arg>)
    requires SameTypes(a, b)
    ensures Signature(a) == Signature(b)
  {
    if a != [] {
      SameTypesCons(a, b);
      SameTypesSameSignature(a[1..], b[1..]);
      assert SameType(a[0], b[0]);
      if a[0].Aggregate? {
        SameTypesSameSignature(a[0].items, b[0].items);
      }
    }
  }

  /** The types in depth-first order tell all trees apart. */
  lemma SameSignatureIffSameTypes(a: seq<Arg>, b: seq<Arg>)
    ensures TypesOf(DepthFirst(a)) == TypesOf(DepthFirst(b)) <==> SameTypes(a, b)
  {
    TypesAreSignature(a);
    TypesAreSignature(b);
    if Signature(a) == Signature(b) {
      SignatureReadsBack(a, b, [], []);
    } else if SameTypes(a, b) {
      SameTypesSameSignature(a, b);
    }
  }

  // ---- Level by level ----

  lemma {:induction false} SameGeneration(a: seq<Arg>, b: seq<Arg>, k: nat)
    requires SameTypes(a, b)
    ensures TypesOf(Generation(a, k)) == TypesOf(Generation(b, k))
    decreases k, |a|
  {
    if a != [] {
      SameTypesCons(a, b);
      SameGeneration(a[1..], b[1..], k);
      assert SameType(a[0], b[0]);
      if a[0].Aggregate? && k > 0 {
        SameGeneration(a[0].items, b[0].items, k - 1);
      }
      SameOffspring(a[0], b[0], k);
      GenerationOfCons(a, k);
      GenerationOfCons(b, k);
      hide TypesOf, Offspring, Generation;
      TypesOfSum(Offspring(a[0], k), Generation(a[1..], k));
      TypesOfSum(Offspring(b[0], k), Generation(b[1..], k));
    }
  }

  lemma SameOffspring(a: Arg, b: Arg, k: nat)
    requires SameType(a, b)
    requires a.Aggregate? && k > 0 ==> TypesOf(Generation(a.items, k - 1)) == TypesOf(Generation(b.items, k - 1))
    ensures TypesOf(Offspring(a, k)) == TypesOf(Offspring(b, k))
  {
    hide Generation;
    if k > 0 && a.Aggregate? {
      hide TypesOf;
      TypesOfSum(Generation(a.items, k - 1), EndOf(k - 1));
      TypesOfSum(Generation(b.items, k - 1), EndOf(k - 1));
    }
  }

  lemma SameLevel(a: seq<Arg>, b: seq<Arg>, k: nat)
    requires SameTypes(a, b)
    ensures TypesOf(Level(a, k)) == TypesOf(Level(b, k))
  {
    hide TypesOf, Generation, SameTypes;
    SameGeneration(a, b, k);
    TypesOfSum(Generation(a, k), EndOf(k));
    TypesOfSum(Generation(b, k), EndOf(k));
  }

  /** The types show where the aggregates are. */
  lemma AggregatesShow(a: seq<Slot>, b: seq<Slot>)
    requires TypesOf(a) == TypesOf(b)
    ensures HasAggregate(a) <==> HasAggregate(b)
  {
    assert |TypesOf(a)| == |a| && |TypesOf(b)| == |b|;
    forall i | 0 <= i < |a|
      ensures a[i].Item? && a[i].arg.Aggregate? <==> b[i].Item? && b[i].arg.Aggregate?
    {
      TypesOfAt(a, i);
      TypesOfAt(b, i);
    }
  }

  lemma SameDepth(a: seq<Arg>, b: seq<Arg>, depth: nat)
    requires forall k :: 0 <= k <= depth ==> TypesOf(Level(a, k)) == TypesOf(Level(b, k))
    ensures IsDepth(a, depth) <==> IsDepth(b, depth)
  {
    hide TypesOf, HasAggregate, Level;
    forall k | 0 <= k <= depth ensures HasAggregate(Level(a, k)) <==> HasAggregate(Level(b, k)) {
      AggregatesShow(Level(a, k), Level(b, k));
    }
  }
}

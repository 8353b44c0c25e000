/** Reference-counted values, and the intrusive queue through which nested ones are deleted. */
module DeletionQueues {

  datatype Option<T> = None | Some(value: T)

  type Address = nat

  // ---- Value::data_ ----

  const POINTER_RANGE: nat := 0x100_0000_0000_0000

  datatype Kind = SliceValue | TupleValue

  /** The tags before these are those of undefined values, 2 enums and 12 kinds of Python object. */
  function Tag(kind: Kind): nat { if kind.SliceValue? then 15 else 16 }

  /** The tag above a 56-bit pointer. */
  function Encode(kind: Kind, address: Address): nat
    requires address < POINTER_RANGE
  {
    Tag(kind) * POINTER_RANGE + address
  }

  function DecodeTag(data: nat): nat { data / POINTER_RANGE }

  function DecodePointer(data: nat): nat { data % POINTER_RANGE }

  lemma DecodeEncode(kind: Kind, address: Address)
    requires address < POINTER_RANGE
    ensures DecodeTag(Encode(kind, address)) == Tag(kind) && DecodePointer(Encode(kind, address)) == address
    ensures Encode(kind, address) != 0
    ensures Encode(kind, address)
            == address + if kind.SliceValue? then 0x0f00_0000_0000_0000 else 0x1000_0000_0000_0000
  {
  }

  /** A Value that owns what it points to. */
  datatype Value = Undefined | Enum(value: nat) | PyObject(pyobject: Address) | Heap(kind: Kind, address: Address)

  /** A SliceValue, whose items are start, stop and step, or a TupleValue. */
  datatype Cell = Cell(kind: Kind, count: nat, items: seq<Value>, cached: Option<Address>)

  /** By address; None where nothing is allocated. */
  type Cells = seq<Option<Cell>>

  predicate Allocated(cells: Cells, a: Address) { a < |cells| && cells[a].Some? }

  // ---- References ----

  ghost function Words(c: Option<Cell>): multiset<Value> {
    match c
    case None => multiset{}
    case Some(Cell(_, _, items, cached)) =>
      multiset(items)[Undefined := 0] + (if cached.Some? then multiset{PyObject(cached.value)} else multiset{})
  }

  /** All references that are held by values on the heap. */
  ghost function Held(cells: Cells): multiset<Value> {
    if cells == [] then multiset{} else Held(cells[..|cells| - 1]) + Words(cells[|cells| - 1])
  }

  lemma AddToBoth<T>(a: multiset<T>, b: multiset<T>, p: multiset<T>, q: multiset<T>, more: multiset<T>)
    requires a + p == b + q
    ensures (a + more) + p == (b + more) + q
  {
    assert (a + more) + p == (a + p) + more;
    assert (b + more) + q == (b + q) + more;
  }

  lemma {:induction false} HeldAfterUpdate(cells: Cells, a: Address, c: Option<Cell>)
    requires a < |cells|
    ensures Held(cells[a := c]) + Words(cells[a]) == Held(cells) + Words(c)
  {
    hide Words;
    var last := |cells| - 1;
    var cells' := cells[a := c];
    assert Held(cells') == Held(cells'[..last]) + Words(cells'[last]);
    assert Held(cells) == Held(cells[..last]) + Words(cells[last]);
    if a < last {
      assert cells'[..last] == cells[..last][a := c];
      HeldAfterUpdate(cells[..last], a, c);
      assert cells[..last][a] == cells[a];
      AddToBoth(Held(cells'[..last]), Held(cells[..last]), Words(cells[a]), Words(c), Words(cells[last]));
    } else {
      assert cells'[..last] == cells[..last];
    }
  }

  lemma HeldByCell(cells: Cells, a: Address)
    requires a < |cells|
    ensures Words(cells[a]) <= Held(cells)
  {
    HeldAfterUpdate(cells, a, None);
    assert Held(cells[a := None]) + Words(cells[a]) == Held(cells);
  }

  // ---- The invariant ----

  ghost predicate CountOk(cells: Cells, refs: multiset<Value>, doomed: set<Address>, a: Address)
    requires Allocated(cells, a)
  {
    var n := refs[Heap(cells[a].value.kind, a)];
    if a in doomed then n == 0 else 0 < n == cells[a].value.count
  }

  /** Counts are right: `refs` are all references to values, and `doomed` the values to which there
      are none, whose count is not needed any more. Every reference points to an allocated value. */
  ghost predicate Consistent(cells: Cells, refs: multiset<Value>, doomed: set<Address>) {
    && |cells| <= POINTER_RANGE
    && (forall a :: Allocated(cells, a) ==> CountOk(cells, refs, doomed, a))
    && (forall k: Kind, a: Address :: Heap(k, a) in refs ==> Allocated(cells, a) && cells[a].value.kind == k)
    && (forall a :: a in doomed ==> Allocated(cells, a))
  }

  /** The list that starts at `head`, an encoded pointer, with the counts as links. */
  ghost predicate Chain(cells: Cells, head: nat, queue: seq<Address>)
    requires |cells| <= POINTER_RANGE
    decreases |queue|
  {
    if queue == [] then head == 0
    else
      && Allocated(cells, queue[0])
      && head == Encode(cells[queue[0]].value.kind, queue[0])
      && Chain(cells, cells[queue[0]].value.count, queue[1..])
  }

  ghost function Elements(queue: seq<Address>): set<Address> { set a | a in queue }

  ghost predicate Distinct(queue: seq<Address>) {
    forall i, j :: 0 <= i < j < |queue| ==> queue[i] != queue[j]
  }

  lemma {:induction false} ChainStays(cells: Cells, cells': Cells, head: nat, queue: seq<Address>)
    requires |cells| == |cells'| <= POINTER_RANGE && Chain(cells, head, queue)
    requires forall a :: a in queue && Allocated(cells, a) ==>
               && Allocated(cells', a)
               && cells'[a].value.kind == cells[a].value.kind && cells'[a].value.count == cells[a].value.count
    ensures Chain(cells', head, queue)
    decreases |queue|
  {
    if queue != [] {
      ChainStays(cells, cells', cells[queue[0]].value.count, queue[1..]);
    }
  }

  /** What is left is as it was. */
  predicate Unchanged(before: Option<Cell>, after: Option<Cell>) {
    after.Some? ==>
      && before.Some?
      && after.value.kind == before.value.kind
      && after.value.items == before.value.items && after.value.cached == before.value.cached
  }

  predicate Pruned(before: Cells, after: Cells) {
    |after| == |before| && forall a :: 0 <= a < |after| ==> Unchanged(before[a], after[a])
  }

  /** As Pruned, but nothing has been deleted. */
  predicate SameContents(before: Cells, after: Cells) {
    && |after| == |before|
    && forall a :: 0 <= a < |after| ==> Unchanged(before[a], after[a]) && (before[a].Some? ==> after[a].Some?)
  }

  // ---- One reference is given up ----

  /** A reference to `a` that is not the last one. */
  lemma CountGoesDown(cells: Cells, refs: multiset<Value>, doomed: set<Address>, k: Kind, a: Address)
    requires Consistent(cells, refs, doomed) && Heap(k, a) in refs && cells[a].value.count > 1
    ensures a !in doomed
    ensures Consistent(cells[a := Some(cells[a].value.(count := cells[a].value.count - 1))],
                       refs - multiset{Heap(k, a)}, doomed)
  {
    var cells' := cells[a := Some(cells[a].value.(count := cells[a].value.count - 1))];
    var refs' := refs - multiset{Heap(k, a)};
    assert CountOk(cells, refs, doomed, a);
    forall b | Allocated(cells', b) ensures CountOk(cells', refs', doomed, b) {
      assert CountOk(cells, refs, doomed, b);
    }
    forall l: Kind, b: Address | Heap(l, b) in refs' ensures Allocated(cells', b) && cells'[b].value.kind == l {
      assert Heap(l, b) in refs;
    }
  }

  /** The last reference to `a`, whose count is replaced by anything. */
  lemma LastReference(cells: Cells, refs: multiset<Value>, doomed: set<Address>, k: Kind, a: Address, link: nat)
    requires Consistent(cells, refs, doomed) && Heap(k, a) in refs && cells[a].value.count <= 1
    ensures a !in doomed && cells[a].value.count == 1
    ensures Consistent(cells[a := Some(cells[a].value.(count := link))], refs - multiset{Heap(k, a)}, doomed + {a})
  {
    var cells' := cells[a := Some(cells[a].value.(count := link))];
    var refs' := refs - multiset{Heap(k, a)};
    assert CountOk(cells, refs, doomed, a);
    forall b | Allocated(cells', b) ensures CountOk(cells', refs', doomed + {a}, b) {
      assert CountOk(cells, refs, doomed, b);
    }
    forall l: Kind, b: Address | Heap(l, b) in refs' ensures Allocated(cells', b) && cells'[b].value.kind == l {
      assert Heap(l, b) in refs;
    }
  }

  /** A reference to something that is not on this heap. */
  lemma OtherReference(cells: Cells, refs: multiset<Value>, doomed: set<Address>, v: Value)
    requires Consistent(cells, refs, doomed) && !v.Heap?
    ensures Consistent(cells, refs - multiset{v}, doomed)
  {
    var refs' := refs - multiset{v};
    forall b | Allocated(cells, b) ensures CountOk(cells, refs', doomed, b) {
      assert CountOk(cells, refs, doomed, b);
    }
    forall l: Kind, b: Address | Heap(l, b) in refs' ensures Allocated(cells, b) && cells[b].value.kind == l {
      assert Heap(l, b) in refs;
    }
  }

  /** A doomed value without items is deleted. */
  lemma DoomedIsDeleted(cells: Cells, refs: multiset<Value>, doomed: set<Address>, a: Address)
    requires Consistent(cells, refs, doomed) && a in doomed
    ensures Consistent(cells[a := None], refs, doomed - {a})
  {
    var cells' := cells[a := None];
    assert CountOk(cells, refs, doomed, a);
    forall b | Allocated(cells', b) ensures CountOk(cells', refs, doomed - {a}, b) {
      assert CountOk(cells, refs, doomed, b);
    }
  }

  /** An item of a cell becomes undefined. */
  lemma HeldAfterItem(cells: Cells, a: Address, k: nat)
    requires Allocated(cells, a) && k < |cells[a].value.items|
    ensures var c := cells[a].value;
            Held(cells[a := Some(c.(items := c.items[k := Undefined]))])
            == if c.items[k] == Undefined then Held(cells) else Held(cells) - multiset{c.items[k]}
  {
    var c := cells[a].value;
    var v := c.items[k];
    var c' := c.(items := c.items[k := Undefined]);
    if v == Undefined {
      assert c' == c && cells[a := Some(c')] == cells;
    } else {
      HeldAfterUpdate(cells, a, Some(c'));
      WordsAfterItem(c, k);
      hide *;
      RemoveFromBoth(Held(cells[a := Some(c')]), Held(cells), Words(Some(c')), v);
    }
  }

  lemma WordsAfterItem(c: Cell, k: nat)
    requires k < |c.items| && c.items[k] != Undefined
    ensures Words(Some(c)) == Words(Some(c.(items := c.items[k := Undefined]))) + multiset{c.items[k]}
  {
    ItemsAfterUpdate(c.items, k);
  }

  lemma RemoveFromBoth<T>(a: multiset<T>, b: multiset<T>, common: multiset<T>, v: T)
    requires a + (common + multiset{v}) == b + common
    ensures a == b - multiset{v}
  {
    assert forall x :: (a + (common + multiset{v}))[x] == a[x] + common[x] + (if x == v then 1 else 0);
    assert forall x :: (b + common)[x] == b[x] + common[x];
  }

  lemma ItemsAfterUpdate(items: seq<Value>, k: nat)
    requires k < |items|
    ensures multiset(items[k := Undefined]) == multiset(items) - multiset{items[k]} + multiset{Undefined}
    ensures items[k] in multiset(items)
  {
    assert items == items[..k] + [items[k]] + items[k + 1..];
    assert items[k := Undefined] == items[..k] + [Undefined] + items[k + 1..];
  }

  /** A queue whose list, from `head` on, is `queued`. `dying` are values that have been taken off
      the list and not been deleted yet. */
  ghost predicate ValidQueue(
      cells: Cells, head: nat, queued: seq<Address>, refs: multiset<Value>, dying: set<Address>)
  {
    && Consistent(cells, refs, Elements(queued) + dying)
    && Distinct(queued) && Elements(queued) !! dying
    && Chain(cells, head, queued)
  }

  /** The value to which there is no reference any more becomes the head of the list. */
  lemma LastReferenceIsQueued(
      cells: Cells, head: nat, queued: seq<Address>, refs: multiset<Value>, dying: set<Address>, k: Kind, a: Address)
    requires ValidQueue(cells, head, queued, refs, dying) && Heap(k, a) in refs && cells[a].value.count <= 1
    ensures cells[a].value.count == 1 && cells[a].value.kind == k && a !in dying
    ensures ValidQueue(cells[a := Some(cells[a].value.(count := head))], Encode(k, a), [a] + queued,
                       refs - multiset{Heap(k, a)}, dying)
  {
    hide Held, CountOk;
    var cells' := cells[a := Some(cells[a].value.(count := head))];
    LastReference(cells, refs, Elements(queued) + dying, k, a, head);
    assert Elements([a] + queued) + dying == Elements(queued) + dying + {a};
    assert a !in queued;
    hide Consistent;
    ChainStays(cells, cells', head, queued);
    assert ([a] + queued)[1..] == queued;
  }

  lemma OtherReferenceRemains(
      cells: Cells, head: nat, queued: seq<Address>, refs: multiset<Value>, dying: set<Address>, k: Kind, a: Address)
    requires ValidQueue(cells, head, queued, refs, dying) && Heap(k, a) in refs && cells[a].value.count > 1
    ensures a !in dying
    ensures ValidQueue(cells[a := Some(cells[a].value.(count := cells[a].value.count - 1))], head, queued,
                       refs - multiset{Heap(k, a)}, dying)
  {
    hide Held, CountOk;
    var cells' := cells[a := Some(cells[a].value.(count := cells[a].value.count - 1))];
    CountGoesDown(cells, refs, Elements(queued) + dying, k, a);
    assert a !in queued;
    ChainStays(cells, cells', head, queued);
  }

  /** The references that are left when `v` is given up. */
  ghost function Without(refs: multiset<Value>, v: Value): multiset<Value> {
    if v.Undefined? then refs else refs - multiset{v}
  }

  lemma OtherIsReleased(
      cells: Cells, head: nat, queued: seq<Address>, refs: multiset<Value>, dying: set<Address>, v: Value)
    requires ValidQueue(cells, head, queued, refs, dying) && !v.Heap?
    ensures ValidQueue(cells, head, queued, Without(refs, v), dying)
  {
    hide Chain, Consistent;
    OtherReference(cells, refs, Elements(queued) + dying, v);
  }

  lemma ReferenceIsSafe(
      cells: Cells, head: nat, queued: seq<Address>, refs: multiset<Value>, dying: set<Address>, k: Kind, a: Address)
    requires ValidQueue(cells, head, queued, refs, dying) && Heap(k, a) in refs
    ensures Allocated(cells, a) && cells[a].value.count > 0 && a < |cells| <= POINTER_RANGE
  {
    assert CountOk(cells, refs, Elements(queued) + dying, a);
  }

  lemma CountIsNoContent(before: Cells, a: Address, count: nat)
    requires Allocated(before, a)
    ensures SameContents(before, before[a := Some(before[a].value.(count := count))])
  {
  }

  lemma SameAsBefore(cells: Cells)
    ensures SameContents(cells, cells)
  {
  }

  /** Every reference to a Python object is still held, or has been released. */
  ghost predicate Balanced(
      before: multiset<Value>, was: multiset<Address>, after: multiset<Value>, released: multiset<Address>)
  {
    forall o: Address :: after[PyObject(o)] + released[o] == before[PyObject(o)] + was[o]
  }

  lemma ReleaseIsBalanced(refs: multiset<Value>, released: multiset<Address>, v: Value)
    requires v == Undefined || v in refs
    ensures Balanced(refs, released, Without(refs, v),
                     if v.PyObject? then released + multiset{v.pyobject} else released)
  {
  }

  // ---- Steps of the proofs below ----

  lemma {:induction false} HeldBySame(before: Cells, after: Cells)
    requires SameContents(before, after)
    ensures Held(after) == Held(before)
  {
    if before != [] {
      var last := |before| - 1;
      HeldBySame(before[..last], after[..last]);
      assert Unchanged(before[last], after[last]);
    }
  }

  lemma ReferencesOfSame(before: Cells, after: Cells, roots: multiset<Value>)
    requires SameContents(before, after)
    ensures References(after, roots) == References(before, roots)
  {
    HeldBySame(before, after);
  }

  lemma SameCell(before: Cells, after: Cells, a: Address)
    requires SameContents(before, after) && Allocated(before, a)
    ensures Allocated(after, a) && |after| == |before| && after[a].value.items == before[a].value.items
    ensures after[a].value.kind == before[a].value.kind && after[a].value.cached == before[a].value.cached
  {
  }

  lemma ItemIsHeld(cells: Cells, a: Address, k: nat)
    requires Allocated(cells, a) && k < |cells[a].value.items|
    ensures cells[a].value.items[k] == Undefined || cells[a].value.items[k] in Held(cells)
  {
    var items := cells[a].value.items;
    HeldByCell(cells, a);
    assert items[k] in multiset(items);
    if items[k] != Undefined {
      assert Words(cells[a])[items[k]] > 0;
    }
  }

  /** References from the heap and from elsewhere. */
  ghost function References(cells: Cells, roots: multiset<Value>): multiset<Value> { Held(cells) + roots }

  ghost function WithRoot(roots: multiset<Value>, v: Value): multiset<Value> {
    if v == Undefined then roots else roots + multiset{v}
  }

  lemma WithoutRoot(cells: Cells, roots: multiset<Value>, v: Value)
    ensures Without(References(cells, WithRoot(roots, v)), v) == References(cells, roots)
    ensures v == Undefined || v in References(cells, WithRoot(roots, v))
  {
    hide Held;
    if v != Undefined {
      assert Held(cells) + (roots + multiset{v}) - multiset{v} == Held(cells) + roots;
    }
  }

  /** Releasing an item and making it undefined come to the same. */
  lemma WithoutItem(cells: Cells, a: Address, k: nat, roots: multiset<Value>)
    requires Allocated(cells, a) && k < |cells[a].value.items|
    ensures var c := cells[a].value;
            References(cells[a := Some(c.(items := c.items[k := Undefined]))], roots)
            == Without(References(cells, roots), c.items[k])
    ensures var v := cells[a].value.items[k]; v == Undefined || v in References(cells, roots)
  {
    hide Held, Words;
    var v := cells[a].value.items[k];
    HeldAfterItem(cells, a, k);
    ItemIsHeld(cells, a, k);
    if v != Undefined {
      assert Held(cells) - multiset{v} + roots == Held(cells) + roots - multiset{v};
    }
  }

  /** The items of a value that is being deleted do not matter to anyone. */
  lemma ItemsDoNotCount(
      cells: Cells, obj: Address, items: seq<Value>, head: nat, queued: seq<Address>, refs: multiset<Value>)
    requires Allocated(cells, obj) && ValidQueue(cells, head, queued, refs, {obj})
    ensures ValidQueue(cells[obj := Some(cells[obj].value.(items := items))], head, queued, refs, {obj})
  {
    var cells' := cells[obj := Some(cells[obj].value.(items := items))];
    forall b | Allocated(cells', b) ensures CountOk(cells', refs, Elements(queued) + {obj}, b) {
      assert CountOk(cells, refs, Elements(queued) + {obj}, b);
    }
    ChainStays(cells, cells', head, queued);
  }

  lemma SameAfterUpdate(before: Cells, between: Cells, obj: Address, items: seq<Value>)
    requires SameContents(before, between) && Allocated(before, obj) && Allocated(between, obj)
    ensures SameContents(before[obj := Some(before[obj].value.(items := items))],
                         between[obj := Some(between[obj].value.(items := items))])
  {
    assert Unchanged(before[obj], between[obj]);
  }

  /** The items of a value after the first k of them have been released. */
  function Cleared(items: seq<Value>, k: nat): seq<Value>
    requires k <= |items|
  {
    seq(k, i => Undefined) + items[k..]
  }

  lemma ClearedLength(items: seq<Value>, k: nat)
    requires k <= |items|
    ensures |Cleared(items, k)| == |items|
  {
  }

  lemma ClearedFromStart(cells: Cells, obj: Address)
    requires Allocated(cells, obj)
    ensures var c := cells[obj].value; SameContents(cells[obj := Some(c.(items := Cleared(c.items, 0)))], cells)
  {
    var c := cells[obj].value;
    assert Cleared(c.items, 0) == c.items;
  }

  lemma ClearedNext(before: Cells, between: Cells, after: Cells, obj: Address, k: nat)
    requires Allocated(before, obj) && k < |before[obj].value.items| && Allocated(between, obj)
    requires var c := before[obj].value;
             SameContents(before[obj := Some(c.(items := Cleared(c.items, k)))], between)
    requires between[obj].value.items == Cleared(before[obj].value.items, k) && k < |between[obj].value.items|
    requires var c := between[obj].value;
             SameContents(between[obj := Some(c.(items := c.items[k := Undefined]))], after)
    ensures var c := before[obj].value;
            SameContents(before[obj := Some(c.(items := Cleared(c.items, k + 1)))], after)
  {
    var c := before[obj].value;
    assert Cleared(c.items, k)[k := Undefined] == Cleared(c.items, k + 1);
    var x, y, z := before[obj := Some(c.(items := Cleared(c.items, k)))], before[obj := Some(c.(items := Cleared(c.items, k + 1)))],
                   between[obj := Some(between[obj].value.(items := between[obj].value.items[k := Undefined]))];
    forall a | 0 <= a < |after| ensures Unchanged(y[a], after[a]) && (y[a].Some? ==> after[a].Some?) {
      assert Unchanged(x[a], between[a]);
      assert Unchanged(z[a], after[a]);
    }
  }

  lemma BalancedAtStart(refs: multiset<Value>, released: multiset<Address>)
    ensures Balanced(refs, released, refs, released)
  {
  }

  lemma BalancedTwice(
      a: multiset<Value>, x: multiset<Address>, b: multiset<Value>, y: multiset<Address>, c: multiset<Value>, z: multiset<Address>)
    requires Balanced(a, x, b, y) && Balanced(b, y, c, z)
    ensures Balanced(a, x, c, z)
  {
  }

  lemma PrunedAtStart(cells: Cells)
    ensures Pruned(cells, cells)
  {
  }

  lemma PrunedLater(before: Cells, between: Cells, after: Cells)
    requires SameContents(before, between) && Pruned(between, after)
    ensures Pruned(before, after)
  {
    forall a | 0 <= a < |after| ensures Unchanged(before[a], after[a]) {
      assert Unchanged(before[a], between[a]) && Unchanged(between[a], after[a]);
    }
  }

  /** The number of values that have not been deleted. */
  function Count(cells: Cells): nat {
    if cells == [] then 0 else Count(cells[..|cells| - 1]) + (if cells[|cells| - 1].Some? then 1 else 0)
  }

  lemma {:induction false} CountAfterDelete(cells: Cells, cells': Cells, a: Address)
    requires Allocated(cells, a) && |cells'| == |cells| && cells'[a] == None
    requires forall b :: 0 <= b < |cells| && b != a ==> (cells'[b].Some? <==> cells[b].Some?)
    ensures Count(cells') + 1 == Count(cells)
  {
    var last := |cells| - 1;
    if a < last {
      CountAfterDelete(cells[..last], cells'[..last], a);
    } else {
      CountOfSame(cells[..last], cells'[..last]);
    }
  }

  lemma {:induction false} CountOfSame(cells: Cells, cells': Cells)
    requires |cells'| == |cells|
    requires forall b :: 0 <= b < |cells| ==> (cells'[b].Some? <==> cells[b].Some?)
    ensures Count(cells') == Count(cells)
  {
    if cells != [] {
      CountOfSame(cells[..|cells| - 1], cells'[..|cells| - 1]);
    }
  }

  lemma PrunedNext(before: Cells, between: Cells, cleared: Option<Cell>, emptied: Cells, obj: Address)
    requires Pruned(before, between) && Allocated(between, obj)
    requires cleared.Some? && SameContents(between[obj := cleared], emptied)
    ensures Pruned(before, emptied[obj := None])
    ensures Count(emptied[obj := None]) < Count(between)
  {
    var after, mid := emptied[obj := None], between[obj := cleared];
    forall a | 0 <= a < |after| ensures Unchanged(before[a], after[a]) {
      assert Unchanged(before[a], between[a]) && Unchanged(mid[a], emptied[a]);
    }
    forall b | 0 <= b < |between| && b != obj ensures after[b].Some? <==> between[b].Some? {
      assert Unchanged(mid[b], emptied[b]) && mid[b] == between[b];
    }
    CountAfterDelete(between, after, obj);
  }

  /** The head of the list is the first value of the queue, which is then taken off it. */
  lemma HeadIsQueued(cells: Cells, head: nat, queued: seq<Address>, refs: multiset<Value>)
    requires ValidQueue(cells, head, queued, refs, {}) && head != 0
    ensures queued != [] && DecodePointer(head) == queued[0] && Allocated(cells, queued[0])
    ensures DecodeTag(head) == Tag(cells[queued[0]].value.kind)
    ensures ValidQueue(cells, cells[queued[0]].value.count, queued[1..], refs, {queued[0]})
  {
    hide Consistent;
    var obj := queued[0];
    assert |cells| <= POINTER_RANGE by { SizeIsSmall(cells, refs, Elements(queued) + {}); }
    DecodeEncode(cells[obj].value.kind, obj);
    assert queued == [obj] + queued[1..];
    assert Elements(queued[1..]) + {obj} == Elements(queued) + {};
  }

  lemma SizeIsSmall(cells: Cells, refs: multiset<Value>, doomed: set<Address>)
    requires Consistent(cells, refs, doomed)
    ensures |cells| <= POINTER_RANGE
  {
  }

  lemma EmptyQueueIsValid(cells: Cells, refs: multiset<Value>)
    requires Consistent(cells, refs, {})
    ensures ValidQueue(cells, 0, [], refs, {})
  {
    hide Consistent;
    SizeIsSmall(cells, refs, {});
    assert Elements([]) + {} == {};
  }

  lemma NothingIsQueued(cells: Cells, head: nat, queued: seq<Address>, refs: multiset<Value>)
    requires ValidQueue(cells, head, queued, refs, {}) && head == 0
    ensures Consistent(cells, refs, {})
  {
    if queued != [] {
      DecodeEncode(cells[queued[0]].value.kind, queued[0]);
      assert false;
    }
    assert Elements(queued) + {} == {};
  }

  /** Deleting a value that holds nothing but its cached object. */
  lemma ClearedIsDeleted(
      cells: Cells, obj: Address, items: seq<Value>, head: nat, queued: seq<Address>, roots: multiset<Value>,
      released: multiset<Address>)
    requires Allocated(cells, obj) && cells[obj].value.items == Cleared(items, |items|)
    requires ValidQueue(cells, head, queued, References(cells, roots), {obj})
    ensures ValidQueue(cells[obj := None], head, queued, References(cells[obj := None], roots), {})
    ensures var cached := cells[obj].value.cached;
            Balanced(References(cells, roots), released, References(cells[obj := None], roots),
                     released + (if cached.Some? then multiset{cached.value} else multiset{}))
  {
    hide Chain, Consistent, Held;
    var cells', refs := cells[obj := None], References(cells, roots);
    var cached := cells[obj].value.cached;
    WordsOfCleared(cells[obj].value, items);
    HeldAfterUpdate(cells, obj, None);
    var v := if cached.Some? then PyObject(cached.value) else Undefined;
    DoomedIsDeleted(cells, refs, Elements(queued) + {obj}, obj);
    LessWords(Held(cells'), Held(cells), roots, cached, released);
    if cached.Some? {
      OtherReference(cells', refs, Elements(queued) + {obj} - {obj}, v);
    }
    assert Elements(queued) + {} == Elements(queued) + {obj} - {obj};
    SizeIsSmall(cells, refs, Elements(queued) + {obj});
    ChainStays(cells, cells', head, queued);
  }

  lemma LessWords(
      after: multiset<Value>, before: multiset<Value>, roots: multiset<Value>, cached: Option<Address>,
      released: multiset<Address>)
    requires after + (if cached.Some? then multiset{PyObject(cached.value)} else multiset{}) == before + multiset{}
    ensures cached.Some? ==> after + roots == before + roots - multiset{PyObject(cached.value)}
    ensures cached == None ==> after + roots == before + roots
    ensures Balanced(before + roots, released, after + roots,
                     released + (if cached.Some? then multiset{cached.value} else multiset{}))
  {
    if cached.Some? {
      var v := PyObject(cached.value);
      assert forall x :: before[x] == (after + multiset{v})[x];
      assert forall x :: (before + roots - multiset{v})[x] == (after + roots)[x];
    } else {
      assert forall x :: before[x] == (after + multiset{})[x];
    }
  }

  lemma WordsOfCleared(c: Cell, items: seq<Value>)
    requires c.items == Cleared(items, |items|)
    ensures Words(Some(c)) == if c.cached.Some? then multiset{PyObject(c.cached.value)} else multiset{}
  {
    assert forall v :: v in multiset(c.items) ==> v in c.items;
  }

  // ---- What may be deleted ----

  ghost predicate Holds(cells: Cells, a: Address, b: Address) {
    Allocated(cells, a) && exists k: Kind :: Heap(k, b) in cells[a].value.items
  }

  ghost predicate IsRoot(roots: multiset<Value>, a: Address) { exists k: Kind :: Heap(k, a) in roots }

  ghost predicate IsPath(cells: Cells, roots: multiset<Value>, path: seq<Address>) {
    && path != [] && IsRoot(roots, path[0])
    && forall i :: 0 <= i < |path| - 1 ==> Holds(cells, path[i], path[i + 1])
  }

  ghost predicate Reachable(cells: Cells, roots: multiset<Value>, a: Address) {
    exists path :: IsPath(cells, roots, path) && path[|path| - 1] == a
  }

  /** The values can be numbered so that each comes after those that hold it. */
  ghost predicate Numbered(cells: Cells, number: seq<nat>) {
    && |number| == |cells|
    && forall a, b :: 0 <= a < |cells| && 0 <= b < |cells| && Holds(cells, a, b) ==> number[a] < number[b]
  }

  ghost predicate Acyclic(cells: Cells) { exists number :: Numbered(cells, number) }

  lemma {:induction false} HolderOf(cells: Cells, k: Kind, a: Address) returns (b: Address)
    requires Heap(k, a) in Held(cells)
    ensures Holds(cells, b, a)
  {
    var last := |cells| - 1;
    if Heap(k, a) in Words(cells[last]) {
      b := last;
      assert Heap(k, a) in cells[b].value.items;
    } else {
      b := HolderOf(cells[..last], k, a);
      assert cells[..last][b] == cells[b];
    }
  }

  /** Nothing that could be deleted is left. */
  lemma {:induction false} SurvivorIsReachable(cells: Cells, roots: multiset<Value>, number: seq<nat>, a: Address)
    requires Consistent(cells, References(cells, roots), {}) && Numbered(cells, number) && Allocated(cells, a)
    ensures Reachable(cells, roots, a)
    decreases number[a]
  {
    var k := cells[a].value.kind;
    assert CountOk(cells, References(cells, roots), {}, a);
    hide Held, Consistent;
    if Heap(k, a) in roots {
      assert IsPath(cells, roots, [a]);
    } else {
      var b := HolderOf(cells, k, a);
      SurvivorIsReachable(cells, roots, number, b);
      var path :| IsPath(cells, roots, path) && path[|path| - 1] == b;
      assert IsPath(cells, roots, path + [a]);
    }
  }

  /** Nothing that is reachable was deleted. */
  lemma {:induction false} ReachableSurvives(before: Cells, after: Cells, roots: multiset<Value>, path: seq<Address>)
    requires Pruned(before, after) && Consistent(after, References(after, roots), {})
    requires IsPath(before, roots, path)
    ensures Allocated(after, path[|path| - 1])
    decreases |path|
  {
    hide Held;
    var last := |path| - 1;
    if last > 0 {
      var holder := path[..last][last - 1];
      assert IsPath(before, roots, path[..last]);
      ReachableSurvives(before, after, roots, path[..last]);
      assert Holds(before, path[last - 1], path[last]);
      assert Unchanged(before[holder], after[holder]);
      var k: Kind :| Heap(k, path[last]) in after[holder].value.items;
      HeldByItem(after, holder, Heap(k, path[last]));
    } else {
      var k: Kind :| Heap(k, path[0]) in roots;
      assert Heap(k, path[0]) in References(after, roots);
    }
  }

  lemma HeldByItem(cells: Cells, a: Address, v: Value)
    requires Allocated(cells, a) && v in cells[a].value.items && v != Undefined
    ensures v in Held(cells)
  {
    HeldByCell(cells, a);
    assert v in multiset(cells[a].value.items);
    assert v in Words(cells[a]);
  }

  /** What is left of an acyclic heap is exactly what the remaining references reach. */
  lemma FreesExactlyTheUnreachable(before: Cells, after: Cells, roots: multiset<Value>)
    requires Pruned(before, after) && Consistent(after, References(after, roots), {}) && Acyclic(before)
    ensures forall a: Address :: Allocated(after, a) <==> Reachable(before, roots, a)
  {
    hide Consistent, References;
    var number :| Numbered(before, number);
    assert forall a: Address, b: Address :: Holds(after, a, b) ==> Holds(before, a, b) by {
      hide Acyclic, Numbered;
      forall a: Address, b: Address | Holds(after, a, b) ensures Holds(before, a, b) {
        assert Unchanged(before[a], after[a]);
      }
    }
    forall a: Address ensures Allocated(after, a) <==> Reachable(before, roots, a) {
      if Allocated(after, a) {
        SurvivorIsReachable(after, roots, number, a);
        var path :| IsPath(after, roots, path) && path[|path| - 1] == a;
        assert IsPath(before, roots, path);
      }
      if Reachable(before, roots, a) {
        var path :| IsPath(before, roots, path) && path[|path| - 1] == a;
        ReachableSurvives(before, after, roots, path);
      }
    }
  }

  // ---- The code ----

  /** The memory of the process, and how often Py_DECREF has been called on each Python object. */
  class Memory {
    var cells: Cells
    var released: multiset<Address>

    constructor (cells: Cells)
      ensures this.cells == cells && this.released == multiset{}
    {
      this.cells := cells;
      this.released := multiset{};
    }

    /** ReferenceCounter::decrement on the count at this address. */
    method Decrement(a: Address) returns (zero: bool)
      requires Allocated(cells, a) && cells[a].value.count > 0
      modifies this`cells
      ensures cells == old(cells[a := Some(cells[a].value.(count := cells[a].value.count - 1))])
      ensures zero <==> old(cells[a].value.count) == 1
    {
      var count := cells[a].value.count;
      cells := cells[a := Some(cells[a].value.(count := count - 1))];
      zero := count == 1;
    }

    method DecRef(pyobject: Address)
      modifies this`released
      ensures released == old(released) + multiset{pyobject}
    {
      released := released + multiset{pyobject};
    }

    /** Frees the memory of a value that holds nothing any more but its cached object. */
    method Delete(a: Address)
      requires Allocated(cells, a)
      modifies this
      ensures cells == old(cells)[a := None]
      ensures released == old(released) + (if old(cells[a].value.cached).Some? then multiset{old(cells[a].value.cached.value)} else multiset{})
    {
      if cells[a].value.cached.Some? {
        DecRef(cells[a].value.cached.value);
      }
      cells := cells[a := None];
    }
  }

  class DeletionQueue {
    const memory: Memory
    var head: nat
    ghost var queued: seq<Address>

    constructor (memory: Memory)
      ensures this.memory == memory && head == 0 && queued == []
    {
      this.memory := memory;
      this.head := 0;
      this.queued := [];
    }

    ghost predicate Valid(refs: multiset<Value>, dying: set<Address>)
      reads this, memory
    {
      ValidQueue(memory.cells, head, queued, refs, dying)
    }

    method Push(kind: Kind, obj: Address)
      requires Allocated(memory.cells, obj) && obj < |memory.cells| <= POINTER_RANGE
      modifies this, memory`cells
      ensures head == Encode(kind, obj) && queued == [obj] + old(queued)
      ensures memory.cells == old(memory.cells[obj := Some(memory.cells[obj].value.(count := head))])
    {
      memory.cells := memory.cells[obj := Some(memory.cells[obj].value.(count := head))];
      head := Encode(kind, obj);
      queued := [obj] + queued;
    }

    /** Value::release of a slice or a tuple: down goes its count. */
    method ReleaseHeapValue(k: Kind, a: Address, ghost refs: multiset<Value>, ghost dying: set<Address>)
      requires Valid(refs, dying) && Heap(k, a) in refs
      modifies this, memory`cells
      ensures Valid(refs - multiset{Heap(k, a)}, dying)
      ensures SameContents(old(memory.cells), memory.cells)
      ensures a !in dying && a < |memory.cells| && memory.cells == old(memory.cells)[a := memory.cells[a]]
    {
      ghost var before, was := memory.cells, head;
      ReferenceIsSafe(before, was, queued, refs, dying, k, a);
      ghost var last := before[a].value.count <= 1;
      if last {
        LastReferenceIsQueued(before, was, queued, refs, dying, k, a);
      } else {
        OtherReferenceRemains(before, was, queued, refs, dying, k, a);
      }
      ghost var count := if last then was else before[a].value.count - 1;
      CountIsNoContent(before, a, count);
      hide *;
      var zero := memory.Decrement(a);
      if zero {
        Push(k, a);
      }
      assert memory.cells == before[a := Some(before[a].value.(count := count))];
    }

    /** Value::release, up to where the value becomes undefined. */
    method Release(v: Value, ghost refs: multiset<Value>, ghost dying: set<Address>)
      requires Valid(refs, dying) && (v == Undefined || v in refs)
      modifies this, memory
      ensures Valid(Without(refs, v), dying)
      ensures SameContents(old(memory.cells), memory.cells)
      ensures forall a :: a in dying && a < |memory.cells| ==> memory.cells[a] == old(memory.cells)[a]
      ensures Balanced(refs, old(memory.released), Without(refs, v), memory.released)
    {
      SameAsBefore(memory.cells);
      ReleaseIsBalanced(refs, memory.released, v);
      if !v.Heap? {
        OtherIsReleased(memory.cells, head, queued, refs, dying, v);
      }
      hide ValidQueue, SameContents, Balanced;
      match v {
        case Heap(k, a) => ReleaseHeapValue(k, a, refs, dying);
        case PyObject(o) => memory.DecRef(o);
        case _ =>
      }
    }

    /** Value::release of an item of the value that is being deleted. */
    method ReleaseItem(obj: Address, k: nat, ghost roots: multiset<Value>)
      requires Allocated(memory.cells, obj) && k < |memory.cells[obj].value.items|
      requires Valid(References(memory.cells, roots), {obj})
      modifies this, memory
      ensures Valid(References(memory.cells, roots), {obj})
      ensures var c := old(memory.cells[obj].value);
              SameContents(old(memory.cells)[obj := Some(c.(items := c.items[k := Undefined]))], memory.cells)
      ensures Balanced(old(References(memory.cells, roots)), old(memory.released), References(memory.cells, roots), memory.released)
    {
      ghost var before := memory.cells;
      var c := memory.cells[obj].value;
      var v := c.items[k];
      WithoutItem(before, obj, k, roots);
      hide ValidQueue, References, Balanced, SameContents, Without;
      Release(v, References(before, roots), {obj});
      ghost var between := memory.cells;
      ReferencesOfSame(before, between, roots);
      SameCell(before, between, obj);
      memory.cells := memory.cells[obj := Some(memory.cells[obj].value.(items := c.items[k := Undefined]))];
      WithoutItem(between, obj, k, roots);
      ItemsDoNotCount(between, obj, c.items[k := Undefined], head, queued, References(memory.cells, roots));
      SameAfterUpdate(before, between, obj, c.items[k := Undefined]);
    }

    /** SliceValue::release and TupleValue::release. */
    method ReleaseItems(obj: Address, ghost roots: multiset<Value>)
      requires Allocated(memory.cells, obj) && Valid(References(memory.cells, roots), {obj})
      modifies this, memory
      ensures Valid(References(memory.cells, roots), {obj})
      ensures var c := old(memory.cells[obj].value);
              SameContents(old(memory.cells)[obj := Some(c.(items := Cleared(c.items, |c.items|)))], memory.cells)
      ensures Balanced(old(References(memory.cells, roots)), old(memory.released), References(memory.cells, roots), memory.released)
    {
      hide ValidQueue, References, Balanced, SameContents, Cleared;
      ghost var before := memory.cells;
      ghost var c := memory.cells[obj].value;
      var size := |memory.cells[obj].value.items|;
      ClearedFromStart(before, obj);
      BalancedAtStart(References(before, roots), memory.released);
      for i := 0 to size
        invariant Valid(References(memory.cells, roots), {obj})
        invariant SameContents(before[obj := Some(c.(items := Cleared(c.items, i)))], memory.cells)
        invariant Balanced(References(before, roots), old(memory.released), References(memory.cells, roots), memory.released)
      {
        ghost var between, was := memory.cells, memory.released;
        SameCell(before[obj := Some(c.(items := Cleared(c.items, i)))], between, obj);
        ClearedLength(c.items, i);
        ReleaseItem(obj, i, roots);
        ClearedNext(before, between, memory.cells, obj, i);
        BalancedTwice(References(before, roots), old(memory.released), References(between, roots), was,
                      References(memory.cells, roots), memory.released);
      }
    }

    /** Deletes what has been queued, and what that was the last to refer to, until nothing is left. */
    method Drain(ghost roots: multiset<Value>)
      requires Valid(References(memory.cells, roots), {})
      modifies this, memory
      ensures head == 0 && Consistent(memory.cells, References(memory.cells, roots), {})
      ensures Pruned(old(memory.cells), memory.cells)
      ensures Balanced(old(References(memory.cells, roots)), old(memory.released), References(memory.cells, roots), memory.released)
    {
      hide ValidQueue, Consistent, References, Balanced, SameContents, Pruned, Cleared, Encode, DecodeTag, DecodePointer, Elements, Count;
      ghost var before := memory.cells;
      PrunedAtStart(before);
      BalancedAtStart(References(before, roots), memory.released);
      while head != 0
        invariant Valid(References(memory.cells, roots), {})
        invariant Pruned(before, memory.cells)
        invariant Balanced(References(before, roots), old(memory.released), References(memory.cells, roots), memory.released)
        decreases Count(memory.cells)
      {
        ghost var between, was := memory.cells, memory.released;
        HeadIsQueued(between, head, queued, References(between, roots));
        var obj := DecodePointer(head);
        assert DecodeTag(head) == Tag(memory.cells[obj].value.kind);
        head := memory.cells[obj].value.count;
        queued := queued[1..];
        ReleaseItems(obj, roots);
        ghost var c := between[obj].value;
        ghost var cleared := Some(c.(items := Cleared(c.items, |c.items|)));
        ghost var emptied, released := memory.cells, memory.released;
        SameCell(between[obj := cleared], emptied, obj);
        memory.Delete(obj);
        ClearedIsDeleted(emptied, obj, c.items, head, queued, roots, released);
        BalancedTwice(References(between, roots), was, References(emptied, roots), released,
                      References(memory.cells, roots), memory.released);
        BalancedTwice(References(before, roots), old(memory.released), References(between, roots), was,
                      References(memory.cells, roots), memory.released);
        PrunedNext(before, between, cleared, emptied, obj);
      }
      NothingIsQueued(memory.cells, head, queued, References(memory.cells, roots));
    }
  }

  /** Value::destroy: what becomes of the heap when the owner of `v`, which is not on the heap, gives
      it up. The other references from outside of the heap are `roots`. */
  method Destroy(memory: Memory, v: Value, ghost roots: multiset<Value>)
    requires Consistent(memory.cells, References(memory.cells, WithRoot(roots, v)), {})
    modifies memory
    ensures Consistent(memory.cells, References(memory.cells, roots), {})
    ensures Pruned(old(memory.cells), memory.cells)
    ensures Acyclic(old(memory.cells)) ==>
              forall a: Address :: Allocated(memory.cells, a) <==> Reachable(old(memory.cells), roots, a)
    ensures Balanced(old(References(memory.cells, WithRoot(roots, v))), old(memory.released),
                     References(memory.cells, roots), memory.released)
  {
    ghost var before, refs := memory.cells, References(memory.cells, WithRoot(roots, v));
    WithoutRoot(before, roots, v);
    EmptyQueueIsValid(before, refs);
    hide ValidQueue, Consistent, References, WithRoot, Balanced, SameContents, Pruned, Without, Acyclic, Reachable;
    var queue := new DeletionQueue(memory);
    queue.Release(v, refs, {});
    ghost var between, was := memory.cells, memory.released;
    ReferencesOfSame(before, between, roots);
    queue.Drain(roots);
    assert queue.head == 0;
    BalancedTwice(refs, old(memory.released), References(between, roots), was, References(memory.cells, roots), memory.released);
    PrunedLater(before, between, memory.cells);
    if Acyclic(before) {
      FreesExactlyTheUnreachable(before, memory.cells, roots);
    }
  }
}

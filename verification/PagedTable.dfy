/** PagedTable: elements addressed by 32-bit index in pages that are allocated on first access,
    by any number of threads at once. It must behave like one array of zeros that never moves. */
module PagedTables {
  import opened PowersOfTwo

  // ---- Where an element lives ----

  /** 31 minus the number of leading zeros of a 32-bit word. */
  function FloorLog2(x: nat): nat
    requires x > 0
  {
    BitLengthBounds(x);
    BitLength(x) - 1
  }

  /** A page, and an offset in it. `first` is the logarithm of the size of the first page. */
  function PageAndOffset(first: nat, index: nat): (nat, nat)
  {
    if index < Pow2(first) then (0, index)
    else
      BitLengthBounds(index);
      BeyondFirstPage(first, index);
      (FloorLog2(index) - first + 1, index - Pow2(FloorLog2(index)))
  }

  function Capacity(first: nat, page: nat): nat {
    if page == 0 then Pow2(first) else Shl(Pow2(first), page - 1)
  }

  function MaxPages(first: nat): nat
    requires first < 32
  {
    33 - first
  }

  /** The other way round. */
  function IndexAt(first: nat, page: nat, offset: nat): nat {
    if page == 0 then offset else Pow2(first + page - 1) + offset
  }

  lemma BeyondFirstPage(first: nat, index: nat)
    requires index >= Pow2(first)
    ensures index > 0 && FloorLog2(index) >= first
  {
    BitLengthBounds(index);
    if BitLength(index) <= first {
      Pow2Monotone(BitLength(index), first);
    }
  }

  /** Every index has its own cell, inside one of the pages. */
  lemma CellOfIndex(first: nat, index: nat)
    requires first < 32 && index < Pow2(32)
    ensures PageAndOffset(first, index).0 < MaxPages(first)
    ensures PageAndOffset(first, index).1 < Capacity(first, PageAndOffset(first, index).0)
    ensures IndexAt(first, PageAndOffset(first, index).0, PageAndOffset(first, index).1) == index
  {
    hide Pow2, Shl, BitLength;
    if index >= Pow2(first) {
      BeyondFirstPage(first, index);
      BitLengthBounds(index);
      var log2 := FloorLog2(index);
      Pow2Next(log2);
      ShlOfPow2(first, log2 - first);
      if log2 >= 32 {
        Pow2Monotone(32, log2);
      }
    }
  }

  /** Every cell has an index. */
  lemma IndexOfCell(first: nat, page: nat, offset: nat)
    requires first < 32 && page < MaxPages(first) && offset < Capacity(first, page)
    ensures IndexAt(first, page, offset) < Pow2(32)
    ensures PageAndOffset(first, IndexAt(first, page, offset)) == (page, offset)
  {
    hide Pow2, Shl;
    if page == 0 {
      Pow2Monotone(first, 32);
    } else {
      var log2 := first + page - 1;
      var index := Pow2(log2) + offset;
      ShlOfPow2(first, page - 1);
      Pow2Next(log2);
      Pow2Monotone(log2 + 1, 32);
      Pow2Monotone(first, log2);
      BitLengthUnique(index, log2 + 1);
    }
  }

  // ---- Threads ----

  type Address = nat

  /** Where a thread is in operator[]. Holding: it has returned, and the reference is in use. */
  datatype Access =
    | Idle
    | Loading(index: nat)
    | Allocating(index: nat)
    | Exchanging(index: nat, mine: Address)
    | Deleting(index: nat, mine: Address, page: Address)
    | Holding(index: nat, page: Address)

  /** heap: the arrays that have been allocated and not deleted. */
  datatype State = State(pages: map<nat, Address>, heap: map<Address, seq<nat>>, threads: seq<Access>)

  datatype Step =
    | Begin(thread: nat, index: nat)
    | Load(thread: nat)
    | Allocate(thread: nat, address: Address)
    | CompareExchange(thread: nat)
    | Delete(thread: nat)
    | Store(thread: nat, value: nat)

  function Zeros(n: nat): seq<nat> { seq(n, i => 0) }

  predicate Enabled(s: State, step: Step) {
    && step.thread < |s.threads|
    && match step
       case Begin(t, index) => (s.threads[t].Idle? || s.threads[t].Holding?) && index < Pow2(32)
       case Load(t) => s.threads[t].Loading?
       case Allocate(t, a) => s.threads[t].Allocating? && a !in s.heap
       case CompareExchange(t) => s.threads[t].Exchanging?
       case Delete(t) => s.threads[t].Deleting?
       case Store(t, value) => s.threads[t].Holding?
  }

  /** The reference points into a live array. */
  predicate Accessible(first: nat, s: State, index: nat, page: Address) {
    page in s.heap && PageAndOffset(first, index).1 < |s.heap[page]|
  }

  function Put(cells: seq<nat>, i: nat, value: nat): seq<nat>
    requires i < |cells|
  {
    cells[..i] + [value] + cells[i + 1..]
  }

  function Apply(first: nat, s: State, step: Step): State
    requires Enabled(s, step)
  {
    var t := step.thread;
    match step
    case Begin(_, index) => s.(threads := s.threads[t := Loading(index)])
    case Load(_) =>
      var index := s.threads[t].index;
      var page := PageAndOffset(first, index).0;
      s.(threads := s.threads[t := if page in s.pages then Holding(index, s.pages[page]) else Allocating(index)])
    case Allocate(_, a) =>
      var index := s.threads[t].index;
      s.(heap := s.heap[a := Zeros(Capacity(first, PageAndOffset(first, index).0))],
         threads := s.threads[t := Exchanging(index, a)])
    case CompareExchange(_) =>
      var Exchanging(index, mine) := s.threads[t];
      var page := PageAndOffset(first, index).0;
      if page in s.pages then s.(threads := s.threads[t := Deleting(index, mine, s.pages[page])])
      else s.(pages := s.pages[page := mine], threads := s.threads[t := Holding(index, mine)])
    case Delete(_) =>
      var Deleting(index, mine, page) := s.threads[t];
      s.(heap := s.heap - {mine}, threads := s.threads[t := Holding(index, page)])
    case Store(_, value) =>
      var Holding(index, page) := s.threads[t];
      if !Accessible(first, s, index, page) then s
      else s.(heap := s.heap[page := Put(s.heap[page], PageAndOffset(first, index).1, value)])
  }

  /** What the table holds, as its users see it. */
  function Element(first: nat, s: State, index: nat): nat {
    var (page, offset) := PageAndOffset(first, index);
    if page in s.pages && Accessible(first, s, index, s.pages[page]) then s.heap[s.pages[page]][offset] else 0
  }

  // ---- The invariant ----

  /** Every array belongs to the table or to the one thread that is about to publish or delete it. */
  datatype Owner = Table(page: nat) | Thread(thread: nat)

  predicate Owns(s: State, o: Owner) {
    match o
    case Table(page) => page in s.pages
    case Thread(t) => t < |s.threads| && (s.threads[t].Exchanging? || s.threads[t].Deleting?)
  }

  function Owned(s: State, o: Owner): Address
    requires Owns(s, o)
  {
    match o
    case Table(page) => s.pages[page]
    case Thread(t) => s.threads[t].mine
  }

  ghost predicate OwnersOk(s: State) {
    && (forall o :: Owns(s, o) ==> Owned(s, o) in s.heap)
    && (forall o, p :: Owns(s, o) && Owns(s, p) && Owned(s, o) == Owned(s, p) ==> o == p)
  }

  ghost predicate NothingLeaks(s: State) {
    forall a :: a in s.heap ==> exists o :: Owns(s, o) && Owned(s, o) == a
  }

  predicate PagesOk(first: nat, s: State)
    requires first < 32
  {
    forall p :: p in s.pages ==>
      p < MaxPages(first) && s.pages[p] in s.heap && |s.heap[s.pages[p]]| == Capacity(first, p)
  }

  predicate AccessOk(first: nat, s: State, a: Access) {
    && (!a.Idle? ==> a.index < Pow2(32))
    && (a.Exchanging? ==>
          a.mine in s.heap && s.heap[a.mine] == Zeros(Capacity(first, PageAndOffset(first, a.index).0)))
    && (a.Deleting? || a.Holding? ==>
          PageAndOffset(first, a.index).0 in s.pages && s.pages[PageAndOffset(first, a.index).0] == a.page)
  }

  predicate ThreadsOk(first: nat, s: State) {
    forall t :: 0 <= t < |s.threads| ==> AccessOk(first, s, s.threads[t])
  }

  ghost predicate Inv(first: nat, s: State)
    requires first < 32
  {
    OwnersOk(s) && NothingLeaks(s) && PagesOk(first, s) && ThreadsOk(first, s)
  }

  predicate Initial(s: State) {
    s.pages == map[] && s.heap == map[] && forall t :: 0 <= t < |s.threads| ==> s.threads[t].Idle?
  }

  lemma OwnersAfter(first: nat, s: State, step: Step)
    requires first < 32 && Inv(first, s) && Enabled(s, step)
    ensures OwnersOk(Apply(first, s, step)) && NothingLeaks(Apply(first, s, step))
  {
    hide Pow2, Shl, PageAndOffset, Capacity, AccessOk, PagesOk, OwnersOk, NothingLeaks;
    var s' := Apply(first, s, step);
    var t := step.thread;
    match step {
      case CompareExchange(_) =>
        OwnersAfterExchange(s, s', t, PageAndOffset(first, s.threads[t].index).0);
      case Allocate(_, a) =>
        OwnersAfterAllocate(s, s', t, a, s'.heap[a]);
      case Delete(_) =>
        OwnersAfterDelete(s, s', t);
      case _ =>
        SameOwners(s, s');
    }
  }

  lemma OwnersAfterAllocate(s: State, s': State, t: nat, a: Address, cells: seq<nat>)
    requires OwnersOk(s) && NothingLeaks(s) && t < |s.threads| && s.threads[t].Allocating? && a !in s.heap
    requires s' == s.(heap := s.heap[a := cells], threads := s.threads[t := Exchanging(s.threads[t].index, a)])
    ensures OwnersOk(s') && NothingLeaks(s')
  {
    forall o | Owns(s', o) ensures if o == Thread(t) then Owned(s', o) == a
                                   else Owns(s, o) && Owned(s', o) == Owned(s, o) {
    }
    assert Owns(s', Thread(t));
    forall b | b in s'.heap ensures exists o :: Owns(s', o) && Owned(s', o) == b {
      if b != a {
        var o :| Owns(s, o) && Owned(s, o) == b;
        assert Owns(s', o);
      }
    }
  }

  lemma OwnersAfterDelete(s: State, s': State, t: nat)
    requires OwnersOk(s) && NothingLeaks(s) && t < |s.threads| && s.threads[t].Deleting?
    requires s' == s.(heap := s.heap - {s.threads[t].mine},
                      threads := s.threads[t := Holding(s.threads[t].index, s.threads[t].page)])
    ensures OwnersOk(s') && NothingLeaks(s')
  {
    assert Owns(s, Thread(t));
    forall o | Owns(s', o) ensures o != Thread(t) && Owns(s, o) && Owned(s', o) == Owned(s, o) {
    }
    forall b | b in s'.heap ensures exists o :: Owns(s', o) && Owned(s', o) == b {
      var o :| Owns(s, o) && Owned(s, o) == b;
      assert Owns(s', o);
    }
  }

  lemma SameOwners(s: State, s': State)
    requires OwnersOk(s) && NothingLeaks(s) && s'.heap.Keys == s.heap.Keys
    requires forall o :: Owns(s', o) <==> Owns(s, o)
    requires forall o :: Owns(s, o) ==> Owned(s', o) == Owned(s, o)
    ensures OwnersOk(s') && NothingLeaks(s')
  {
    forall b | b in s'.heap ensures exists o :: Owns(s', o) && Owned(s', o) == b {
      assert b in s.heap;
      var o :| Owns(s, o) && Owned(s, o) == b;
      assert Owns(s', o);
    }
  }

  /** Publishing hands the array over from the thread to the table. */
  lemma OwnersAfterExchange(s: State, s': State, t: nat, page: nat)
    requires OwnersOk(s) && NothingLeaks(s) && t < |s.threads| && s.threads[t].Exchanging?
    requires s'.heap == s.heap
    requires if page in s.pages then
               s' == s.(threads := s.threads[t := Deleting(s.threads[t].index, s.threads[t].mine, s.pages[page])])
             else
               s' == s.(pages := s.pages[page := s.threads[t].mine],
                        threads := s.threads[t := Holding(s.threads[t].index, s.threads[t].mine)])
    ensures OwnersOk(s') && NothingLeaks(s')
  {
    if page in s.pages {
      SameOwners(s, s');
    } else {
      assert Owns(s, Thread(t)) && Owns(s', Table(page));
      forall o | Owns(s', o) ensures if o == Table(page) then Owned(s', o) == s.threads[t].mine
                                     else o != Thread(t) && Owns(s, o) && Owned(s', o) == Owned(s, o) {
      }
      forall b | b in s'.heap ensures exists o :: Owns(s', o) && Owned(s', o) == b {
        var o :| Owns(s, o) && Owned(s, o) == b;
        if o == Thread(t) {
          assert Owned(s', Table(page)) == b;
        } else {
          assert Owns(s', o);
        }
      }
    }
  }

  lemma PagesAfter(first: nat, s: State, step: Step)
    requires first < 32 && Inv(first, s) && Enabled(s, step)
    ensures PagesOk(first, Apply(first, s, step))
  {
    hide Pow2, Shl, PageAndOffset, Capacity, NothingLeaks;
    var s' := Apply(first, s, step);
    var t := step.thread;
    assert AccessOk(first, s, s.threads[t]);
    if s.threads[t].Exchanging? {
      PageOfIndex(first, s.threads[t].index);
    }
    forall p | p in s'.pages
      ensures p < MaxPages(first) && s'.pages[p] in s'.heap && |s'.heap[s'.pages[p]]| == Capacity(first, p)
    {
      if p in s.pages {
        assert Owns(s, Table(p));
        if step.Delete? {
          assert Owns(s, Thread(t));
        }
      }
    }
  }

  lemma AccessAfter(first: nat, s: State, step: Step, u: nat)
    requires first < 32 && Inv(first, s) && Enabled(s, step) && u < |s.threads|
    ensures AccessOk(first, Apply(first, s, step), Apply(first, s, step).threads[u])
  {
    hide Pow2, Shl, PageAndOffset, Capacity, NothingLeaks, PagesOk, Zeros;
    var s' := Apply(first, s, step);
    var t := step.thread;
    assert AccessOk(first, s, s.threads[t]) && AccessOk(first, s, s.threads[u]);
    if u != t && s.threads[u].Exchanging? {
      assert Owns(s, Thread(u));
      if step.Delete? {
        assert Owns(s, Thread(t));
      } else if step.Store? {
        var page := PageAndOffset(first, s.threads[t].index).0;
        assert Owns(s, Table(page));
        assert s.threads[t].page != s.threads[u].mine;
      }
    }
  }

  lemma PageOfIndex(first: nat, index: nat)
    requires first < 32 && index < Pow2(32)
    ensures PageAndOffset(first, index).0 < MaxPages(first)
    ensures |Zeros(Capacity(first, PageAndOffset(first, index).0))| == Capacity(first, PageAndOffset(first, index).0)
  {
    CellOfIndex(first, index);
  }

  lemma StepKeeps(first: nat, s: State, step: Step)
    requires first < 32 && Inv(first, s) && Enabled(s, step)
    ensures Inv(first, Apply(first, s, step))
  {
    OwnersAfter(first, s, step);
    PagesAfter(first, s, step);
    forall u | 0 <= u < |s.threads| ensures AccessOk(first, Apply(first, s, step), Apply(first, s, step).threads[u]) {
      AccessAfter(first, s, step, u);
    }
  }

  /** A reference that has been returned is good for as long as it is held. */
  lemma HeldIsAccessible(first: nat, s: State, t: nat)
    requires first < 32 && Inv(first, s) && t < |s.threads| && s.threads[t].Holding?
    ensures Accessible(first, s, s.threads[t].index, s.threads[t].page)
  {
    assert AccessOk(first, s, s.threads[t]);
    CellOfIndex(first, s.threads[t].index);
  }

  /** The table is one array of zeros: only stores change it, each only its own element. */
  lemma TableIsAnArray(first: nat, s: State, step: Step, index: nat)
    requires first < 32 && Inv(first, s) && Enabled(s, step) && index < Pow2(32)
    ensures Element(first, Apply(first, s, step), index)
            == if step.Store? && s.threads[step.thread].index == index then step.value
               else Element(first, s, index)
  {
    hide Pow2, Shl, Capacity, NothingLeaks, FloorLog2;
    var t := step.thread;
    assert AccessOk(first, s, s.threads[t]);
    CellOfIndex(first, index);
    var page := PageAndOffset(first, index).0;
    if page in s.pages {
      assert Owns(s, Table(page));
    }
    match step {
      case Store(_, value) =>
        HeldIsAccessible(first, s, t);
        CellOfIndex(first, s.threads[t].index);
        assert Owns(s, Table(PageAndOffset(first, s.threads[t].index).0));
      case Delete(_) =>
        assert Owns(s, Thread(t));
      case _ =>
    }
  }

  // ---- Runs ----

  ghost predicate IsRun(first: nat, states: seq<State>, steps: seq<Step>)
    requires first < 32
  {
    && |states| == |steps| + 1
    && Initial(states[0])
    && forall k :: 0 <= k < |steps| ==> Enabled(states[k], steps[k]) && states[k + 1] == Apply(first, states[k], steps[k])
  }

  lemma {:induction false} RunsKeepInvariant(first: nat, states: seq<State>, steps: seq<Step>, k: nat)
    requires first < 32 && IsRun(first, states, steps) && k < |states|
    ensures Inv(first, states[k])
  {
    if k > 0 {
      RunsKeepInvariant(first, states, steps, k - 1);
      assert Enabled(states[k - 1], steps[k - 1]);
      StepKeeps(first, states[k - 1], steps[k - 1]);
    }
  }

  /** A page that has been published stays where it is. */
  lemma {:induction false} PagesStay(first: nat, states: seq<State>, steps: seq<Step>, i: nat, j: nat, page: nat)
    requires first < 32 && IsRun(first, states, steps) && i <= j < |states| && page in states[i].pages
    ensures page in states[j].pages && states[j].pages[page] == states[i].pages[page]
    decreases j - i
  {
    if i < j {
      assert Enabled(states[i], steps[i]) && states[i + 1] == Apply(first, states[i], steps[i]);
      hide Enabled, Apply;
      PageStays(first, states[i], steps[i], page);
      PagesStay(first, states, steps, i + 1, j, page);
    }
  }

  lemma PageStays(first: nat, s: State, step: Step, page: nat)
    requires Enabled(s, step) && page in s.pages
    ensures page in Apply(first, s, step).pages && Apply(first, s, step).pages[page] == s.pages[page]
  {
    hide PageAndOffset, Capacity, Accessible;
  }

  /** Whoever holds a reference, and whenever: the cells are the same exactly when the indices are. */
  lemma OneCellPerIndex(first: nat, states: seq<State>, steps: seq<Step>, i: nat, j: nat, t: nat, u: nat)
    requires first < 32 && IsRun(first, states, steps) && i <= j < |states|
    requires t < |states[i].threads| && states[i].threads[t].Holding?
    requires u < |states[j].threads| && states[j].threads[u].Holding?
    ensures var a, b := states[i].threads[t], states[j].threads[u];
            (a.page, PageAndOffset(first, a.index).1) == (b.page, PageAndOffset(first, b.index).1)
            <==> a.index == b.index
  {
    hide Pow2, Shl, Capacity, FloorLog2;
    RunsKeepInvariant(first, states, steps, i);
    RunsKeepInvariant(first, states, steps, j);
    var a, b := states[i].threads[t], states[j].threads[u];
    assert AccessOk(first, states[i], a) && AccessOk(first, states[j], b);
    CellOfIndex(first, a.index);
    CellOfIndex(first, b.index);
    PagesStay(first, states, steps, i, j, PageAndOffset(first, a.index).0);
    assert Owns(states[j], Table(PageAndOffset(first, a.index).0));
    assert Owns(states[j], Table(PageAndOffset(first, b.index).0));
  }

  /** expect() after anyone's operator[] on the same index: its CHECK does not fire. */
  lemma ExpectNeverFires(first: nat, states: seq<State>, steps: seq<Step>, i: nat, j: nat, t: nat)
    requires first < 32 && IsRun(first, states, steps) && i <= j < |states|
    requires t < |states[i].threads| && states[i].threads[t].Holding?
    ensures PageAndOffset(first, states[i].threads[t].index).0 in states[j].pages
  {
    RunsKeepInvariant(first, states, steps, i);
    assert AccessOk(first, states[i], states[i].threads[t]);
    PagesStay(first, states, steps, i, j, PageAndOffset(first, states[i].threads[t].index).0);
  }
}

/** Derived dtypes and dtype names, created on demand by any number of threads: every interleaving
    of their accesses to the shared tables. Each table is taken as what PagedTables proves it to
    be, one array of zeros. */
module DTypeInterning {

  datatype Option<T> = None | Some(value: T)

  const BASIC_NAMES: seq<string> := [
    "<Invalid DType>", "bool_", "uint8", "uint16", "uint32", "uint64", "int8", "int16", "int32", "int64",
    "float16", "float32", "float64", "bfloat16", "tfloat32", "float8_e4m3fn", "float8_e5m3fnu", "float8_e5m2",
    "float8_e8m0fnu", "float4_e2m1fn", "float6_e2m3fn", "float6_e3m2fn", "mbarrier",
    "cluster_launch_control_token", "tensor_map_descriptor", "_int128"]

  const FIRST_DERIVED: nat := 26
  const TWO_32: nat := 0x1_0000_0000
  const LAST_ID: nat := TWO_32 - 1
  const LAST_INDEX: nat := LAST_ID - FIRST_DERIVED

  datatype MemorySpace = Generic | Global | Shared | Constant | Local | Tensor | SharedCluster

  datatype Kind = Pointer | ForeignPointer

  datatype Derived = Derived(kind: Kind, space: MemorySpace, pointee: nat)

  /** A call of pointer_dtype or foreign_pointer_dtype. It also identifies the slot that the call
      looks at: one table for each memory space and one for foreign pointers, indexed by pointee. */
  datatype Request = PointerTo(pointee: nat, space: MemorySpace) | ForeignPointerTo(pointee: nat)

  function RecordOf(r: Request): Derived {
    match r
    case PointerTo(p, space) => Derived(Pointer, space, p)
    case ForeignPointerTo(p) => Derived(ForeignPointer, Generic, p)
  }

  // ---- Names ----

  function SpaceName(space: MemorySpace): string {
    match space
    case Generic => "GENERIC"
    case Global => "GLOBAL"
    case Shared => "SHARED"
    case Constant => "CONSTANT"
    case Local => "LOCAL"
    case Tensor => "TENSOR"
    case SharedCluster => "SHARED_CLUSTER"
  }

  predicate NeedsPointeeName(d: Derived) { d.kind.ForeignPointer? || d.pointee != 0 }

  function Format(d: Derived, pointee: string): string {
    if d.kind.ForeignPointer? then "foreign_pointer[" + pointee + "]"
    else
      var isOpaque := d.pointee == 0;
      var head := if isOpaque then "opaque_pointer" else "pointer[" + pointee;
      var space := if d.space.Generic? then ""
                   else (if isOpaque then "[" else ", ") + "MemorySpace." + SpaceName(d.space);
      head + space + (if isOpaque && d.space.Generic? then "" else "]")
  }

  /** The full name of a dtype, pointee and all. */
  function TypeName(records: map<nat, Derived>, id: nat): string {
    if id < FIRST_DERIVED then BASIC_NAMES[id]
    else if id - FIRST_DERIVED !in records then ""
    else
      var d := records[id - FIRST_DERIVED];
      Format(d, if NeedsPointeeName(d) && d.pointee < id then TypeName(records, d.pointee) else "")
  }

  // ---- Shared memory ----

  datatype Check = TooManyDTypes | RecordMissing | PointeeNotSmaller

  /** A slot that holds 0, a record or a name that is still null, is absent from its map.
      failed: the CHECK that has aborted the program. */
  datatype Memory = Memory(
    slots: map<Request, nat>, numDerived: nat, records: map<nat, Derived>, lock: Option<nat>,
    names: map<nat, string>, numNamed: nat, failed: Option<Check>)

  // ---- Threads ----

  datatype InternPoint =
    | LoadSlot
    | Acquire
    | Reload
    | TakeIndex
    | WriteRecord(index: nat)
    | Publish(index: nat)
    | Release(id: nat)

  datatype NamePoint =
    | CheckCached
    | LoadCounter
    | Loop(next: nat)
    | CheckNext(next: nat)
    | Make(next: nat)
    | AwaitPointee(next: nat, derived: Derived)
    | SetName(next: nat, name: string)
    | Advance(next: nat)
    | LoadResult

  /** An activation of dtype_name. */
  datatype Frame = Frame(id: nat, at: NamePoint)

  datatype Thread =
    | Idle
    | Interning(request: Request, at: InternPoint)
    | Interned(request: Request, id: nat)
    | Naming(frames: seq<Frame>)
    | Named(id: nat, name: Option<string>)

  datatype State = State(memory: Memory, threads: seq<Thread>)

  /** hasMemory: whether an allocation of the step succeeds. */
  datatype Step =
    | BeginIntern(thread: nat, request: Request)
    | BeginName(thread: nat, id: nat)
    | Act(thread: nat, hasMemory: bool)

  /** Ids that a caller can have: basic ones, and those returned by an earlier call. */
  ghost predicate Obtainable(m: Memory, id: nat) {
    id < FIRST_DERIVED || exists r :: r in m.slots && m.slots[r] == id
  }

  ghost predicate Enabled(s: State, step: Step) {
    && s.memory.failed == None
    && step.thread < |s.threads|
    && var th := s.threads[step.thread];
       match step
       case BeginIntern(_, r) => !th.Interning? && !th.Naming? && Obtainable(s.memory, r.pointee)
       case BeginName(_, id) => !th.Interning? && !th.Naming? && Obtainable(s.memory, id)
       case Act(_, _) => CanAct(s.memory, th)
  }

  predicate CanAct(m: Memory, th: Thread) {
    || (th.Interning? && (th.at.Acquire? ==> m.lock == None))
    || (th.Naming? && th.frames != [])
  }

  /** One access of get_or_create_derived_dtype. */
  function InternAct(m: Memory, t: nat, r: Request, at: InternPoint): (Memory, Thread) {
    match at
    case LoadSlot => (m, if r in m.slots then Interned(r, m.slots[r]) else Interning(r, Acquire))
    case Acquire => (m.(lock := Some(t)), Interning(r, Reload))
    case Reload => (m, Interning(r, if r in m.slots then Release(m.slots[r]) else TakeIndex))
    case TakeIndex =>
      if m.numDerived > LAST_INDEX then (m.(failed := Some(TooManyDTypes)), Idle)
      else (m.(numDerived := m.numDerived + 1), Interning(r, WriteRecord(m.numDerived)))
    case WriteRecord(index) => (m.(records := m.records[index := RecordOf(r)]), Interning(r, Publish(index)))
    case Publish(index) =>
      (m.(slots := m.slots[r := index + FIRST_DERIVED]), Interning(r, Release(index + FIRST_DERIVED)))
    case Release(id) => (m.(lock := None), Interned(r, id))
  }

  /** dtype_name returns to whoever called it: make_dtype_name for the pointee, or the thread. */
  function Return(frames: seq<Frame>, result: Option<string>): Thread
    requires frames != []
  {
    var top := |frames| - 1;
    if top == 0 then Named(frames[0].id, result)
    else
      var caller := frames[top - 1];
      if caller.at.AwaitPointee? && result.Some? then
        Naming(frames[..top - 1]
               + [caller.(at := SetName(caller.at.next, Format(caller.at.derived, result.value)))])
      else if top == 1 then Named(caller.id, None)
      else Naming(frames[..top - 1])
  }

  /** What becomes of an activation: it goes on, perhaps with a call to itself, or ends. */
  datatype Outcome = GoesOn(at: NamePoint) | Calls(at: NamePoint, pointee: nat) | Returns(result: Option<string>) | Aborts

  /** One access of dtype_name or of make_dtype_name. */
  function FrameAct(m: Memory, f: Frame, hasMemory: bool): (Memory, Outcome) {
    match f.at
    case CheckCached => (m, if f.id in m.names then Returns(Some(m.names[f.id])) else GoesOn(LoadCounter))
    case LoadCounter => (m, GoesOn(Loop(m.numNamed)))
    case Loop(next) => (m, GoesOn(if next <= f.id then CheckNext(next) else LoadResult))
    case CheckNext(next) => (m, GoesOn(if next in m.names then Advance(next) else Make(next)))
    case Make(next) =>
      if !hasMemory then (m, Returns(None))
      else if next < FIRST_DERIVED then (m, GoesOn(SetName(next, BASIC_NAMES[next])))
      else if next - FIRST_DERIVED !in m.records then (m.(failed := Some(RecordMissing)), Aborts)
      else
        var d := m.records[next - FIRST_DERIVED];
        if !NeedsPointeeName(d) then (m, GoesOn(SetName(next, Format(d, ""))))
        else if d.kind.Pointer? && d.pointee >= next then (m.(failed := Some(PointeeNotSmaller)), Aborts)
        else (m, Calls(AwaitPointee(next, d), d.pointee))
    case AwaitPointee(_, _) => (m, Aborts)
    case SetName(next, name) =>
      (if next in m.names then m else m.(names := m.names[next := name]), GoesOn(Advance(next)))
    case Advance(next) =>
      var bumped := (next + 1) % TWO_32;
      if m.numNamed == next then (m.(numNamed := bumped), GoesOn(Loop(bumped)))
      else (m, GoesOn(Loop(m.numNamed)))
    case LoadResult => (m, Returns(if f.id in m.names then Some(m.names[f.id]) else None))
  }

  /** The stack of activations, after the last one has made an access. */
  function NextStack(frames: seq<Frame>, outcome: Outcome): Thread
    requires frames != []
  {
    var below, id := frames[..|frames| - 1], frames[|frames| - 1].id;
    match outcome
    case GoesOn(at) => Naming(below + [Frame(id, at)])
    case Calls(at, pointee) => Naming(below + [Frame(id, at), Frame(pointee, CheckCached)])
    case Returns(result) => Return(frames, result)
    case Aborts => Idle
  }

  function NameAct(m: Memory, frames: seq<Frame>, hasMemory: bool): (Memory, Thread)
    requires frames != []
  {
    var (m', outcome) := FrameAct(m, frames[|frames| - 1], hasMemory);
    (m', NextStack(frames, outcome))
  }

  function ThreadAct(m: Memory, t: nat, th: Thread, hasMemory: bool): (Memory, Thread)
    requires CanAct(m, th)
  {
    if th.Interning? then InternAct(m, t, th.request, th.at) else NameAct(m, th.frames, hasMemory)
  }

  ghost function Apply(s: State, step: Step): State
    requires Enabled(s, step)
  {
    match step
    case BeginIntern(t, r) => s.(threads := s.threads[t := Interning(r, LoadSlot)])
    case BeginName(t, id) => s.(threads := s.threads[t := Naming([Frame(id, CheckCached)])])
    case Act(t, hasMemory) =>
      var (m, th) := ThreadAct(s.memory, t, s.threads[t], hasMemory);
      State(m, s.threads[t := th])
  }

  // ---- The invariant ----

  /** The dtype exists: its record, if it needs one, has been written. */
  predicate Known(m: Memory, id: nat) { id < FIRST_DERIVED || id - FIRST_DERIVED in m.records }

  predicate NamedBelow(m: Memory, n: nat) { forall i :: 0 <= i < n ==> i in m.names }

  predicate RecordsFull(m: Memory) { forall i :: 0 <= i < m.numDerived ==> i in m.records }

  /** Records are written in order, and a dtype only points to older ones. */
  predicate RecordsOk(m: Memory) {
    && m.numDerived <= LAST_INDEX + 1
    && (forall i :: i in m.records ==> i < m.numDerived && m.records[i].pointee < FIRST_DERIVED + i)
    && (forall i, j :: i in m.records && 0 <= j < i ==> j in m.records)
  }

  predicate SlotsOk(m: Memory) {
    forall r :: r in m.slots ==>
      && m.slots[r] >= FIRST_DERIVED
      && m.slots[r] - FIRST_DERIVED in m.records
      && m.records[m.slots[r] - FIRST_DERIVED] == RecordOf(r)
  }

  predicate NameOk(m: Memory, id: nat, name: string) { Known(m, id) && name == TypeName(m.records, id) }

  predicate NamesOk(m: Memory) {
    && m.numNamed < TWO_32 && NamedBelow(m, m.numNamed)
    && (forall i :: i in m.names ==> NameOk(m, i, m.names[i]))
  }

  predicate MemoryOk(m: Memory) {
    && RecordsOk(m) && SlotsOk(m) && NamesOk(m)
    && (m.lock == None ==> RecordsFull(m))
    && (m.failed.Some? ==> m.failed.value.TooManyDTypes?)
  }

  predicate HasLock(th: Thread) { th.Interning? && !th.at.LoadSlot? && !th.at.Acquire? }

  predicate InternOk(m: Memory, t: nat, r: Request, at: InternPoint) {
    && r.pointee < FIRST_DERIVED + m.numDerived
    && (HasLock(Interning(r, at)) ==> m.lock == Some(t) && (at.WriteRecord? || RecordsFull(m)))
    && (at.TakeIndex? || at.WriteRecord? || at.Publish? ==> r !in m.slots)
    && (at.WriteRecord? ==>
          && at.index + 1 == m.numDerived
          && r.pointee < FIRST_DERIVED + at.index
          && (forall i :: 0 <= i < m.numDerived ==> (i in m.records <==> i < at.index)))
    && (at.Publish? ==> at.index in m.records && m.records[at.index] == RecordOf(r))
    && (at.Release? ==> r in m.slots && m.slots[r] == at.id)
  }

  /** The ids below `next` have names, whatever other threads do to the counter. */
  predicate FrameOk(m: Memory, f: Frame) {
    && Known(m, f.id)
    && match f.at
       case CheckCached => true
       case LoadCounter => true
       case Loop(next) => NamedBelow(m, next) && next < TWO_32
       case CheckNext(next) => NamedBelow(m, next) && next <= f.id
       case Make(next) => NamedBelow(m, next) && next <= f.id
       case AwaitPointee(next, d) =>
         && NamedBelow(m, next) && next <= f.id && next >= FIRST_DERIVED
         && next - FIRST_DERIVED in m.records && m.records[next - FIRST_DERIVED] == d
         && NeedsPointeeName(d) && d.pointee < next
       case SetName(next, name) => NamedBelow(m, next) && next <= f.id && NameOk(m, next, name)
       case Advance(next) => NamedBelow(m, next + 1) && next <= f.id
       case LoadResult => f.id in m.names
  }

  /** dtype_name calls itself at most once, for a pointee that already has a name. */
  predicate FramesOk(m: Memory, frames: seq<Frame>) {
    && 1 <= |frames| <= 2
    && FrameOk(m, frames[0])
    && (|frames| == 1 <==> !frames[0].at.AwaitPointee?)
    && (|frames| == 2 ==>
          frames[1] == Frame(frames[0].at.derived.pointee, CheckCached) && frames[1].id in m.names)
  }

  predicate ThreadOk(m: Memory, t: nat, th: Thread) {
    match th
    case Idle => true
    case Interning(r, at) => InternOk(m, t, r, at)
    case Interned(r, id) => r in m.slots && m.slots[r] == id
    case Naming(frames) => FramesOk(m, frames)
    case Named(id, name) => name.Some? ==> id in m.names && m.names[id] == name.value
  }

  predicate Inv(s: State) {
    MemoryOk(s.memory) && forall t :: 0 <= t < |s.threads| ==> ThreadOk(s.memory, t, s.threads[t])
  }

  predicate Initial(s: State) {
    && s.memory == Memory(map[], 0, map[], None, map[], 0, None)
    && forall t :: 0 <= t < |s.threads| ==> s.threads[t].Idle?
  }

  // ---- Steps keep it ----

  /** Nothing that other threads may have seen is ever taken back. */
  predicate Extends(m: Memory, m': Memory) {
    && m.numDerived <= m'.numDerived
    && (forall r :: r in m.slots ==> r in m'.slots && m'.slots[r] == m.slots[r])
    && (forall i :: i in m.records ==> i in m'.records && m'.records[i] == m.records[i])
    && (forall i :: i in m.names ==> i in m'.names && m'.names[i] == m.names[i])
  }

  /** Only the owner of the lock changes what the lock protects, or gives it up. */
  predicate RespectsLock(m: Memory, m': Memory, t: nat) {
    && (m.lock != Some(t) ==>
          && m'.numDerived == m.numDerived && m'.records == m.records && m'.slots == m.slots
          && (m.lock.Some? ==> m'.lock == m.lock))
  }

  /** A longer table of records does not change the names of the dtypes that were there. */
  lemma {:induction false} NamesStay(m: Memory, records: map<nat, Derived>, id: nat)
    requires RecordsOk(m) && Known(m, id)
    requires forall i :: i in m.records ==> i in records && records[i] == m.records[i]
    ensures TypeName(records, id) == TypeName(m.records, id)
  {
    if id >= FIRST_DERIVED {
      var d := m.records[id - FIRST_DERIVED];
      NamesStay(m, records, d.pointee);
    }
  }

  lemma FrameStays(m: Memory, m': Memory, f: Frame)
    requires RecordsOk(m) && Extends(m, m') && FrameOk(m, f)
    ensures FrameOk(m', f)
  {
    hide TypeName, RecordsOk;
    if f.at.SetName? {
      NamesStay(m, m'.records, f.at.next);
    }
  }

  lemma OthersStay(m: Memory, m': Memory, t: nat, u: nat, th: Thread)
    requires t != u && MemoryOk(m) && Extends(m, m') && RespectsLock(m, m', t) && ThreadOk(m, u, th)
    ensures ThreadOk(m', u, th)
  {
    hide FrameOk, NamesOk, RecordsOk, SlotsOk;
    match th {
      case Naming(frames) => FrameStays(m, m', frames[0]);
      case _ =>
    }
  }

  lemma NamesStayOk(m: Memory, m': Memory)
    requires RecordsOk(m) && NamesOk(m) && m'.names == m.names && m'.numNamed == m.numNamed
    requires forall i :: i in m.records ==> i in m'.records && m'.records[i] == m.records[i]
    ensures NamesOk(m')
  {
    hide TypeName, RecordsOk;
    forall i | i in m.names ensures NameOk(m', i, m.names[i]) {
      assert NameOk(m, i, m.names[i]);
      NamesStay(m, m'.records, i);
    }
  }

  lemma RecordIsWritten(m: Memory, t: nat, r: Request, index: nat)
    requires MemoryOk(m) && InternOk(m, t, r, WriteRecord(index)) && m.failed == None
    ensures var (m', th') := InternAct(m, t, r, WriteRecord(index));
            MemoryOk(m') && ThreadOk(m', t, th') && Extends(m, m') && RespectsLock(m, m', t)
  {
    hide TypeName, NamesOk, NameOk;
    var m' := m.(records := m.records[index := RecordOf(r)]);
    assert index !in m.records;
    NamesStayOk(m, m');
    assert RecordsOk(m');
    assert SlotsOk(m');
  }

  lemma IdIsPublished(m: Memory, t: nat, r: Request, index: nat)
    requires MemoryOk(m) && InternOk(m, t, r, Publish(index)) && m.failed == None
    ensures var (m', th') := InternAct(m, t, r, Publish(index));
            MemoryOk(m') && ThreadOk(m', t, th') && Extends(m, m') && RespectsLock(m, m', t)
  {
    hide TypeName, NamesOk, NameOk, RecordsOk;
    var m' := m.(slots := m.slots[r := index + FIRST_DERIVED]);
    NamesStayOk(m, m');
    RecordsStayOk(m, m');
    assert SlotsOk(m');
  }

  lemma RecordsStayOk(m: Memory, m': Memory)
    requires RecordsOk(m) && m'.records == m.records && m'.numDerived == m.numDerived
    ensures RecordsOk(m')
  {
  }

  lemma InternKeeps(m: Memory, t: nat, r: Request, at: InternPoint)
    requires MemoryOk(m) && InternOk(m, t, r, at) && (at.Acquire? ==> m.lock == None) && m.failed == None
    ensures var (m', th') := InternAct(m, t, r, at);
            MemoryOk(m') && ThreadOk(m', t, th') && Extends(m, m') && RespectsLock(m, m', t)
  {
    hide TypeName, NamesOk, NameOk;
    match at {
      case WriteRecord(index) => RecordIsWritten(m, t, r, index);
      case Publish(index) => IdIsPublished(m, t, r, index);
      case _ =>
        var m' := InternAct(m, t, r, at).0;
        assert m'.records == m.records && m'.slots == m.slots;
        NamesStayOk(m, m');
    }
  }

  /** The caller's frame once its pointee's name has been returned. */
  lemma NameOfPointee(m: Memory, next: nat)
    requires RecordsOk(m) && NamesOk(m) && next >= FIRST_DERIVED && next - FIRST_DERIVED in m.records
    requires m.records[next - FIRST_DERIVED].pointee in m.names && NeedsPointeeName(m.records[next - FIRST_DERIVED])
    ensures NameOk(m, next, Format(m.records[next - FIRST_DERIVED], m.names[m.records[next - FIRST_DERIVED].pointee]))
  {
    var d := m.records[next - FIRST_DERIVED];
    assert NameOk(m, d.pointee, m.names[d.pointee]);
  }

  /** All ids up to one that exists exist. */
  lemma KnownBelow(m: Memory, id: nat, next: nat)
    requires RecordsOk(m) && Known(m, id) && next <= id
    ensures Known(m, next)
  {
  }

  /** An access with one activation on the stack. */
  lemma OneFrame(m: Memory, f: Frame, hasMemory: bool)
    ensures var (m', outcome) := FrameAct(m, f, hasMemory);
            NameAct(m, [f], hasMemory)
            == (m', match outcome
                    case GoesOn(at) => Naming([Frame(f.id, at)])
                    case Calls(at, pointee) => Naming([Frame(f.id, at), Frame(pointee, CheckCached)])
                    case Returns(result) => Named(f.id, result)
                    case Aborts => Idle)
  {
    hide FrameAct;
    match FrameAct(m, f, hasMemory).1 {
      case GoesOn(at) => assert [f][..0] + [Frame(f.id, at)] == [Frame(f.id, at)];
      case Calls(at, pointee) =>
        assert [f][..0] + [Frame(f.id, at), Frame(pointee, CheckCached)] == [Frame(f.id, at), Frame(pointee, CheckCached)];
      case _ =>
    }
  }

  /** An access with two: the pointee's name is returned. */
  lemma TwoFrames(m: Memory, frames: seq<Frame>, hasMemory: bool)
    requires FramesOk(m, frames) && |frames| == 2
    ensures var caller := frames[0];
            NameAct(m, frames, hasMemory)
            == (m, Naming([caller.(at := SetName(caller.at.next, Format(caller.at.derived, m.names[frames[1].id])))]))
  {
    hide FrameOk, Format;
    var caller, callee := frames[0], frames[1];
    assert FrameAct(m, callee, hasMemory) == (m, Returns(Some(m.names[callee.id])));
    var named := caller.(at := SetName(caller.at.next, Format(caller.at.derived, m.names[callee.id])));
    assert frames[..0] + [named] == [named];
  }

  /** What dtype_name does to the shared tables: it only adds names. */
  lemma NameKeepsMemory(m: Memory, frames: seq<Frame>, hasMemory: bool)
    requires MemoryOk(m) && FramesOk(m, frames) && m.failed == None
    ensures var m' := NameAct(m, frames, hasMemory).0;
            && MemoryOk(m') && Extends(m, m')
            && m'.numDerived == m.numDerived && m'.records == m.records && m'.slots == m.slots && m'.lock == m.lock
  {
    hide FrameOk, MemoryOk, Extends;
    if |frames| == 1 {
      FrameKeepsMemory(m, frames[0], hasMemory);
    } else {
      TwoFrames(m, frames, hasMemory);
      ExtendsItself(m);
    }
  }

  lemma ExtendsItself(m: Memory)
    ensures Extends(m, m)
  {
  }

  lemma FrameKeepsMemory(m: Memory, f: Frame, hasMemory: bool)
    requires MemoryOk(m) && FrameOk(m, f) && m.failed == None
    ensures var m' := FrameAct(m, f, hasMemory).0;
            && MemoryOk(m') && Extends(m, m')
            && m'.numDerived == m.numDerived && m'.records == m.records && m'.slots == m.slots && m'.lock == m.lock
  {
    hide TypeName, Format, RecordsOk, SlotsOk, NameOk, NamesOk, NamedBelow;
    var m' := FrameAct(m, f, hasMemory).0;
    if f.at.Make? {
      KnownBelow(m, f.id, f.at.next);
      MakeKeeps(m, f.at.next);
    }
    NamesFollow(m, f, hasMemory);
    RecordsStayOk(m, m');
    SlotsStayOk(m, m');
  }

  /** The names, and the counter of the ids that surely have one. */
  lemma NamesFollow(m: Memory, f: Frame, hasMemory: bool)
    requires RecordsOk(m) && NamesOk(m) && FrameOk(m, f)
    ensures NamesOk(FrameAct(m, f, hasMemory).0)
  {
    hide TypeName, Format, RecordsOk;
    if f.at.Make? {
      hide NameOk;
    }
  }

  lemma SlotsStayOk(m: Memory, m': Memory)
    requires SlotsOk(m) && m'.records == m.records && m'.slots == m.slots
    ensures SlotsOk(m')
  {
  }

  lemma ReturnToCaller(m: Memory, t: nat, frames: seq<Frame>, hasMemory: bool)
    requires MemoryOk(m) && FramesOk(m, frames) && |frames| == 2
    ensures ThreadOk(NameAct(m, frames, hasMemory).0, t, NameAct(m, frames, hasMemory).1)
  {
    hide TypeName, Format, RecordsOk, SlotsOk, NameOk, NameAct;
    NameOfPointee(m, frames[0].at.next);
    TwoFrames(m, frames, hasMemory);
  }

  lemma MakeKeepsThread(m: Memory, t: nat, f: Frame, hasMemory: bool)
    requires MemoryOk(m) && FramesOk(m, [f]) && f.at.Make?
    ensures ThreadOk(NameAct(m, [f], hasMemory).0, t, NameAct(m, [f], hasMemory).1)
  {
    hide TypeName, Format, RecordsOk, SlotsOk, NameOk, NamesOk, NamedBelow, NameAct;
    var next := f.at.next;
    OneFrame(m, f, hasMemory);
    KnownBelow(m, f.id, next);
    MakeKeeps(m, next);
    if next >= FIRST_DERIVED {
      PointeeIsNamed(m, next);
    }
  }

  lemma OneFrameKeepsThread(m: Memory, t: nat, f: Frame, hasMemory: bool)
    requires MemoryOk(m) && FramesOk(m, [f]) && !f.at.Make?
    ensures ThreadOk(NameAct(m, [f], hasMemory).0, t, NameAct(m, [f], hasMemory).1)
  {
    hide TypeName, Format, RecordsOk, SlotsOk, NameOk, NameAct;
    OneFrame(m, f, hasMemory);
    if f.at.SetName? {
      assert NamedBelow(NameAct(m, [f], hasMemory).0, f.at.next + 1);
    }
  }

  lemma NameKeepsThread(m: Memory, t: nat, frames: seq<Frame>, hasMemory: bool)
    requires MemoryOk(m) && FramesOk(m, frames)
    ensures ThreadOk(NameAct(m, frames, hasMemory).0, t, NameAct(m, frames, hasMemory).1)
  {
    hide NameAct, ThreadOk, MemoryOk, FrameOk;
    if |frames| == 2 {
      ReturnToCaller(m, t, frames, hasMemory);
    } else {
      assert frames == [frames[0]];
      if frames[0].at.Make? {
        MakeKeepsThread(m, t, frames[0], hasMemory);
      } else {
        OneFrameKeepsThread(m, t, frames[0], hasMemory);
      }
    }
  }

  lemma PointeeIsNamed(m: Memory, next: nat)
    requires RecordsOk(m) && Known(m, next) && NamedBelow(m, next) && next >= FIRST_DERIVED
    ensures m.records[next - FIRST_DERIVED].pointee in m.names
    ensures Known(m, m.records[next - FIRST_DERIVED].pointee)
  {
  }

  lemma NameKeeps(m: Memory, t: nat, frames: seq<Frame>, hasMemory: bool)
    requires MemoryOk(m) && FramesOk(m, frames) && m.failed == None
    ensures var (m', th') := NameAct(m, frames, hasMemory);
            MemoryOk(m') && ThreadOk(m', t, th') && Extends(m, m') && RespectsLock(m, m', t)
  {
    assert frames != [];
    hide *;
    NameKeepsMemory(m, frames, hasMemory);
    NameKeepsThread(m, t, frames, hasMemory);
    LockIsRespected(m, NameAct(m, frames, hasMemory).0, t);
  }

  lemma LockIsRespected(m: Memory, m': Memory, t: nat)
    requires m'.numDerived == m.numDerived && m'.records == m.records && m'.slots == m.slots && m'.lock == m.lock
    ensures RespectsLock(m, m', t)
  {
  }

  lemma MakeKeeps(m: Memory, next: nat)
    requires RecordsOk(m) && Known(m, next)
    ensures next < FIRST_DERIVED ==> NameOk(m, next, BASIC_NAMES[next])
    ensures next >= FIRST_DERIVED ==>
              var d := m.records[next - FIRST_DERIVED];
              && d.pointee < next
              && (!NeedsPointeeName(d) ==> NameOk(m, next, Format(d, "")))
  {
  }

  lemma StepKeeps(s: State, step: Step)
    requires Inv(s) && Enabled(s, step)
    ensures Inv(Apply(s, step)) && Extends(s.memory, Apply(s, step).memory)
  {
    var t, s' := step.thread, Apply(s, step);
    assert ThreadOk(s.memory, t, s.threads[t]);
    StepKeepsThread(s, step);
    forall u | 0 <= u < |s'.threads| ensures ThreadOk(s'.memory, u, s'.threads[u]) {
      hide *;
      if u != t {
        assert ThreadOk(s.memory, u, s.threads[u]);
        OthersStay(s.memory, s'.memory, t, u, s.threads[u]);
      }
    }
  }

  lemma StepKeepsThread(s: State, step: Step)
    requires Inv(s) && Enabled(s, step)
    ensures var s', t := Apply(s, step), step.thread;
            && |s'.threads| == |s.threads|
            && (forall u :: 0 <= u < |s.threads| && u != t ==> s'.threads[u] == s.threads[u])
            && MemoryOk(s'.memory) && ThreadOk(s'.memory, t, s'.threads[t])
            && Extends(s.memory, s'.memory) && RespectsLock(s.memory, s'.memory, t)
  {
    var t := step.thread;
    var th := s.threads[t];
    assert ThreadOk(s.memory, t, th);
    match step {
      case BeginIntern(_, r) =>
      case BeginName(_, id) =>
      case Act(_, hasMemory) =>
        hide *;
        if th.Interning? {
          InternKeeps(s.memory, t, th.request, th.at);
        } else {
          NameKeeps(s.memory, t, th.frames, hasMemory);
        }
    }
  }

  // ---- Runs ----

  ghost predicate IsRun(states: seq<State>, steps: seq<Step>) {
    && |states| == |steps| + 1
    && Initial(states[0])
    && forall k :: 0 <= k < |steps| ==> Enabled(states[k], steps[k]) && states[k + 1] == Apply(states[k], steps[k])
  }

  lemma {:induction false} RunsKeepInvariant(states: seq<State>, steps: seq<Step>, k: nat)
    requires IsRun(states, steps) && k < |states|
    ensures Inv(states[k])
  {
    if k > 0 {
      RunsKeepInvariant(states, steps, k - 1);
      assert Enabled(states[k - 1], steps[k - 1]);
      hide Inv, Enabled, Apply;
      StepKeeps(states[k - 1], steps[k - 1]);
    }
  }

  lemma {:induction false} RunsExtend(states: seq<State>, steps: seq<Step>, i: nat, j: nat)
    requires IsRun(states, steps) && i <= j < |states|
    ensures Extends(states[i].memory, states[j].memory)
    decreases j - i
  {
    hide Inv, Enabled, Apply, Initial;
    if i < j {
      RunsKeepInvariant(states, steps, j - 1);
      assert Enabled(states[j - 1], steps[j - 1]);
      RunsExtend(states, steps, i, j - 1);
      hide IsRun, Extends;
      StepKeeps(states[j - 1], steps[j - 1]);
      ExtendsTransitively(states[i].memory, states[j - 1].memory, states[j].memory);
    }
  }

  lemma ExtendsTransitively(a: Memory, b: Memory, c: Memory)
    requires Extends(a, b) && Extends(b, c)
    ensures Extends(a, c)
  {
  }

  // ---- What callers get ----

  /** get_derived_dtype. None: the CHECK of PagedTable::expect fires. */
  function GetDerived(m: Memory, id: nat): Option<Derived> {
    if id >= FIRST_DERIVED && id - FIRST_DERIVED in m.records then Some(m.records[id - FIRST_DERIVED]) else None
  }

  function PointerPointee(m: Memory, id: nat): Option<nat> {
    match GetDerived(m, id)
    case Some(Derived(Pointer, _, p)) => Some(p)
    case _ => None
  }

  function PointerMemorySpace(m: Memory, id: nat): Option<MemorySpace> {
    match GetDerived(m, id)
    case Some(Derived(Pointer, space, _)) => Some(space)
    case _ => None
  }

  function ForeignPointerPointee(m: Memory, id: nat): Option<nat> {
    match GetDerived(m, id)
    case Some(Derived(ForeignPointer, _, p)) => Some(p)
    case _ => None
  }

  /** Two calls, by any threads at any times, get the same id exactly when they ask for the same
      kind, memory space and pointee. */
  lemma SameIdIffSameRequest(
      states: seq<State>, steps: seq<Step>, i: nat, j: nat, t: nat, u: nat, r: Request, q: Request, a: nat, b: nat)
    requires IsRun(states, steps) && i <= j < |states| && t < |states[i].threads| && u < |states[j].threads|
    requires states[i].threads[t] == Interned(r, a) && states[j].threads[u] == Interned(q, b)
    ensures a == b <==> r == q
  {
    hide IsRun, RecordsOk, NamesOk;
    RunsKeepInvariant(states, steps, i);
    RunsKeepInvariant(states, steps, j);
    RunsExtend(states, steps, i, j);
    assert ThreadOk(states[i].memory, t, states[i].threads[t]);
    assert ThreadOk(states[j].memory, u, states[j].threads[u]);
  }

  /** From the moment an id is returned, every thread can take it apart again, and no CHECK of the
      getters fires. The id is greater than its pointee's. */
  lemma GettersInvertConstructors(
      states: seq<State>, steps: seq<Step>, i: nat, j: nat, t: nat, r: Request, id: nat)
    requires IsRun(states, steps) && i <= j < |states| && t < |states[i].threads|
    requires states[i].threads[t] == Interned(r, id)
    ensures r.pointee < id <= LAST_ID
    ensures match r
            case PointerTo(p, space) =>
              && PointerPointee(states[j].memory, id) == Some(p)
              && PointerMemorySpace(states[j].memory, id) == Some(space)
              && ForeignPointerPointee(states[j].memory, id) == None
            case ForeignPointerTo(p) =>
              && ForeignPointerPointee(states[j].memory, id) == Some(p)
              && PointerPointee(states[j].memory, id) == None
  {
    hide IsRun, NamesOk;
    RunsKeepInvariant(states, steps, i);
    RunsExtend(states, steps, i, j);
    assert ThreadOk(states[i].memory, t, states[i].threads[t]);
  }

  /** Every name that is returned, whenever and to whomever, is the full name of the dtype. */
  lemma NamesAreFullNames(states: seq<State>, steps: seq<Step>, i: nat, j: nat, t: nat, id: nat, name: string)
    requires IsRun(states, steps) && i <= j < |states| && t < |states[i].threads|
    requires states[i].threads[t] == Named(id, Some(name))
    ensures name == TypeName(states[j].memory.records, id)
    ensures id in states[j].memory.names && states[j].memory.names[id] == name
  {
    hide IsRun, TypeName, RecordsOk, SlotsOk;
    RunsKeepInvariant(states, steps, i);
    RunsExtend(states, steps, i, j);
    assert ThreadOk(states[i].memory, t, states[i].threads[t]);
    NamesStay(states[i].memory, states[j].memory.records, id);
  }

  /** All dtypes below the naming counter have names; only running out of ids aborts the program;
      and when dtype_name calls itself, that call returns at its first access. */
  lemma RunsAreSafe(states: seq<State>, steps: seq<Step>, k: nat)
    requires IsRun(states, steps) && k < |states|
    ensures forall id :: 0 <= id < states[k].memory.numNamed ==> id in states[k].memory.names
    ensures states[k].memory.failed.Some? ==> states[k].memory.failed.value == TooManyDTypes
    ensures forall t :: 0 <= t < |states[k].threads| && states[k].threads[t].Naming? ==>
              var frames := states[k].threads[t].frames;
              1 <= |frames| <= 2
              && (|frames| == 2 ==> frames[1].at == CheckCached && frames[1].id in states[k].memory.names)
  {
    hide IsRun, RecordsOk, SlotsOk;
    RunsKeepInvariant(states, steps, k);
    forall t | 0 <= t < |states[k].threads| && states[k].threads[t].Naming?
      ensures FramesOk(states[k].memory, states[k].threads[t].frames)
    {
      assert ThreadOk(states[k].memory, t, states[k].threads[t]);
    }
  }

  /** dtype_name returns null only when make_dtype_name could not allocate the string. */
  lemma NullOnlyWithoutMemory(m: Memory, frames: seq<Frame>, hasMemory: bool)
    requires MemoryOk(m) && FramesOk(m, frames)
    requires NameAct(m, frames, hasMemory).1.Named? && NameAct(m, frames, hasMemory).1.name == None
    ensures !hasMemory && |frames| == 1 && frames[0].at.Make?
  {
    hide TypeName, Format, RecordsOk, SlotsOk, NamesOk;
  }
}

/** What the returned names say: the text of each name, and that no two dtypes share one. */
module DTypeUniqueNames {
  import opened DTypeInterning

  // ---- No two records are the same ----

  function RequestOf(d: Derived): (r: Request)
    ensures d.kind.Pointer? || d.space.Generic? ==> RecordOf(r) == d
  {
    if d.kind.Pointer? then PointerTo(d.pointee, d.space) else ForeignPointerTo(d.pointee)
  }

  /** The slot of the record holds its id. */
  predicate Published(m: Memory, i: nat)
    requires i in m.records
  {
    var r := RequestOf(m.records[i]);
    r in m.slots && m.slots[r] == i + FIRST_DERIVED
  }

  predicate AllPublished(m: Memory) { forall i :: i in m.records ==> Published(m, i) }

  /** While a thread holds the lock, the record it has written may wait for its slot. */
  predicate OthersPublished(m: Memory, index: nat) {
    && index + 1 == m.numDerived && index in m.records
    && RequestOf(m.records[index]) !in m.slots
    && forall i :: i in m.records && i != index ==> Published(m, i)
  }

  predicate AlmostPublished(m: Memory) {
    AllPublished(m) || (m.lock.Some? && m.numDerived > 0 && OthersPublished(m, m.numDerived - 1))
  }

  predicate HolderOk(m: Memory, th: Thread) {
    HasLock(th) ==> if th.at.Publish? then OthersPublished(m, th.at.index) else AllPublished(m)
  }

  predicate PublishedInv(s: State) {
    AlmostPublished(s.memory) && forall t :: 0 <= t < |s.threads| ==> HolderOk(s.memory, s.threads[t])
  }

  lemma RequestOfRecord(r: Request)
    ensures RequestOf(RecordOf(r)) == r
  {
  }

  lemma WrittenRecordWaits(m: Memory, r: Request, index: nat)
    requires AllPublished(m) && index + 1 == m.numDerived && index !in m.records && r !in m.slots
    ensures OthersPublished(m.(records := m.records[index := RecordOf(r)]), index)
  {
    hide RequestOf;
    var m' := m.(records := m.records[index := RecordOf(r)]);
    RequestOfRecord(r);
    forall i | i in m'.records && i != index ensures Published(m', i) {
      assert Published(m, i);
    }
  }

  lemma PublishedRecordIsLast(m: Memory, r: Request, index: nat)
    requires OthersPublished(m, index) && m.records[index] == RecordOf(r)
    ensures AllPublished(m.(slots := m.slots[r := index + FIRST_DERIVED]))
  {
    hide RequestOf;
    var m' := m.(slots := m.slots[r := index + FIRST_DERIVED]);
    RequestOfRecord(r);
    forall i | i in m'.records ensures Published(m', i) {
      assert i != index ==> Published(m, i);
    }
  }

  lemma SameTables(m: Memory, m': Memory, th: Thread)
    requires m'.numDerived == m.numDerived && m'.records == m.records && m'.slots == m.slots
    ensures HolderOk(m, th) ==> HolderOk(m', th)
    ensures AllPublished(m) ==> AllPublished(m')
    ensures m'.lock == m.lock && AlmostPublished(m) ==> AlmostPublished(m')
  {
    hide RequestOf;
  }

  /** Another index, but the records and slots as before. */
  lemma SameRecords(m: Memory, m': Memory)
    requires m'.records == m.records && m'.slots == m.slots && AllPublished(m)
    ensures AllPublished(m')
  {
    hide RequestOf;
  }

  lemma InternPublishes(m: Memory, t: nat, r: Request, at: InternPoint)
    requires AlmostPublished(m)
    requires InternOk(m, t, r, at) && HolderOk(m, Interning(r, at)) && (at.Acquire? ==> m.lock == None)
    ensures var (m', th') := InternAct(m, t, r, at); AlmostPublished(m') && HolderOk(m', th')
  {
    hide OthersPublished, AllPublished, RecordsFull;
    match at {
      case WriteRecord(index) =>
        WrittenRecordWaits(m, r, index);
      case Publish(index) =>
        assert OthersPublished(m, index);
        PublishedRecordIsLast(m, r, index);
      case _ =>
        var m' := InternAct(m, t, r, at).0;
        if AllPublished(m) {
          SameRecords(m, m');
        }
        if at.LoadSlot? {
          SameTables(m, m', Idle);
        }
    }
  }

  lemma StepPublishes(s: State, step: Step)
    requires Inv(s) && PublishedInv(s) && Enabled(s, step)
    ensures PublishedInv(Apply(s, step))
  {
    var t, s' := step.thread, Apply(s, step);
    StepKeepsThread(s, step);
    ActorPublishes(s, step);
    forall u | 0 <= u < |s'.threads| && u != t ensures HolderOk(s'.memory, s.threads[u]) {
      assert ThreadOk(s.memory, u, s.threads[u]);
      OthersHold(s.memory, s'.memory, t, u, s.threads[u]);
    }
  }

  lemma OthersHold(m: Memory, m': Memory, t: nat, u: nat, th: Thread)
    requires u != t && ThreadOk(m, u, th) && RespectsLock(m, m', t) && HolderOk(m, th)
    ensures HolderOk(m', th)
  {
    hide OthersPublished, AllPublished, RecordsFull, FramesOk;
    if HasLock(th) {
      SameTables(m, m', th);
    }
  }

  lemma ActorPublishes(s: State, step: Step)
    requires Inv(s) && PublishedInv(s) && Enabled(s, step)
    ensures var s' := Apply(s, step);
            AlmostPublished(s'.memory) && HolderOk(s'.memory, s'.threads[step.thread])
  {
    hide MemoryOk, AlmostPublished, InternOk, FramesOk, OthersPublished, AllPublished;
    var t := step.thread;
    var m, th := s.memory, s.threads[t];
    assert ThreadOk(m, t, th) && HolderOk(m, th);
    if step.Act? {
      if th.Interning? {
        InternPublishes(m, t, th.request, th.at);
      } else {
        NameKeepsMemory(m, th.frames, step.hasMemory);
        SameTables(m, NameAct(m, th.frames, step.hasMemory).0, th);
        NamingHoldsNothing(th.frames, FrameAct(m, th.frames[|th.frames| - 1], step.hasMemory).1);
      }
    }
  }

  lemma NamingHoldsNothing(frames: seq<Frame>, outcome: Outcome)
    requires frames != []
    ensures !HasLock(NextStack(frames, outcome))
  {
  }

  lemma {:induction false} RunsPublish(states: seq<State>, steps: seq<Step>, k: nat)
    requires IsRun(states, steps) && k < |states|
    ensures PublishedInv(states[k])
  {
    if k > 0 {
      RunsPublish(states, steps, k - 1);
      RunsKeepInvariant(states, steps, k - 1);
      assert Enabled(states[k - 1], steps[k - 1]);
      hide Inv, PublishedInv, Enabled, Apply;
      StepPublishes(states[k - 1], steps[k - 1]);
    }
  }

  predicate Distinct(records: map<nat, Derived>) {
    forall i, j :: i in records && j in records && RequestOf(records[i]) == RequestOf(records[j]) ==> i == j
  }

  lemma RecordsAreDistinct(m: Memory)
    requires AlmostPublished(m)
    ensures Distinct(m.records)
  {
    hide RequestOf;
    forall i, j | i in m.records && j in m.records && RequestOf(m.records[i]) == RequestOf(m.records[j])
      ensures i == j
    {
      assert AllPublished(m) ==> Published(m, i) && Published(m, j);
    }
  }

  // ---- The characters of a name ----

  /** The last letters of the memory spaces that are spelled out. */
  predicate EndsSpace(c: char) { c == 'L' || c == 'D' || c == 'T' || c == 'R' }

  predicate Plain(s: string) { |s| >= 4 && !EndsSpace(s[|s| - 1]) }

  lemma BasicNameIsPlain(id: nat)
    requires id < FIRST_DERIVED
    ensures var s := BASIC_NAMES[id];
            Plain(s) && s[0] != 'o' && s[0] != 'p' && (s[0] == 'f' ==> s[1] == 'l')
  {
  }

  lemma BasicNamesDiffer(i: nat, j: nat)
    requires i < j < FIRST_DERIVED
    ensures BASIC_NAMES[i] != BASIC_NAMES[j]
  {
    var s, t := BASIC_NAMES[i], BASIC_NAMES[j];
    if |s| == |t| {
      assert s[|s| - 1] != t[|s| - 1] || (|s| >= 13 && (s[5] != t[5] || s[8] != t[8]));
    }
  }

  /** Two letters tell the memory spaces apart: the last one and the sixth from the end. */
  function SpaceMark(space: MemorySpace): (char, char)
    requires !space.Generic?
  {
    match space
    case Global => ('L', 'G')
    case Shared => ('D', 'S')
    case Constant => ('T', 'N')
    case Local => ('L', '.')
    case Tensor => ('R', 'T')
    case SharedCluster => ('R', 'L')
  }

  lemma MarkOfSpace(head: string, space: MemorySpace)
    requires !space.Generic?
    ensures var s := head + "MemorySpace." + SpaceName(space) + "]";
            |s| >= 8 && s[|s| - 2] == SpaceMark(space).0 && s[|s| - 7] == SpaceMark(space).1
  {
    var mark := "MemorySpace." + SpaceName(space);
    assert |mark| >= 6 && mark[|mark| - 1] == SpaceMark(space).0 && mark[|mark| - 6] == SpaceMark(space).1;
  }

  // ---- A name has one reading ----

  /** What the name says in front of the memory space. */
  function Head(d: Derived, pointee: string): string {
    if d.kind.ForeignPointer? then "foreign_pointer[" + pointee
    else if d.pointee != 0 then "pointer[" + pointee
    else "opaque_pointer"
  }

  /** What follows the pointee and the separator. */
  function Tail(d: Derived): nat {
    if d.kind.ForeignPointer? || d.space.Generic? then if NeedsPointeeName(d) then 1 else 0
    else |", MemorySpace." + SpaceName(d.space) + "]"| - (if d.pointee == 0 then 1 else 0)
  }

  ghost predicate IsHeadAndTail(d: Derived, x: string, s: string) {
    && |s| == |Head(d, x)| + Tail(d) && s[..|Head(d, x)|] == Head(d, x)
    && (s != Head(d, x) ==> s[|s| - 1] == ']')
    && (d.kind.ForeignPointer? || d.space.Generic? ==> NeedsPointeeName(d) ==> s == Head(d, x) + "]")
    && (d.kind.Pointer? && !d.space.Generic? ==>
          exists h: string :: s == h + "MemorySpace." + SpaceName(d.space) + "]")
  }

  lemma FormatIsHeadAndTail(d: Derived, x: string)
    ensures IsHeadAndTail(d, x, Format(d, x))
  {
    hide SpaceName;
    if d.kind.Pointer? && !d.space.Generic? {
      SpelledIsHeadAndTail(d, x);
    }
  }

  lemma SpelledIsHeadAndTail(d: Derived, x: string)
    requires d.kind.Pointer? && !d.space.Generic?
    ensures IsHeadAndTail(d, x, Format(d, x))
  {
    hide SpaceName;
    var separator := if d.pointee == 0 then "[" else ", ";
    var h := Head(d, x) + separator;
    assert Format(d, x) == h + "MemorySpace." + SpaceName(d.space) + "]";
    hide Format;
    assert Format(d, x)[..|Head(d, x)|] == Head(d, x);
  }

  /** Where the memory space is spelled, and where it is left out. */
  lemma LettersBeforeEnd(d: Derived, x: string)
    requires d.kind.Pointer? && (d.pointee != 0 ==> Plain(x))
    ensures var s := Format(d, x);
            && |s| >= 8
            && if d.space.Generic? then !EndsSpace(s[|s| - 2])
               else EndsSpace(s[|s| - 2]) && (s[|s| - 2], s[|s| - 7]) == SpaceMark(d.space)
  {
    FormatIsHeadAndTail(d, x);
    var s := Format(d, x);
    if d.space.Generic? {
      assert d.pointee != 0 ==> s[|s| - 2] == x[|x| - 1];
    } else {
      var h: string :| s == h + "MemorySpace." + SpaceName(d.space) + "]";
      MarkOfSpace(h, d.space);
    }
  }

  lemma SpaceIsSpelled(d: Derived, x: string, e: Derived, y: string)
    requires d.kind.Pointer? && (d.pointee != 0 ==> Plain(x)) && e.kind.Pointer? && (e.pointee != 0 ==> Plain(y))
    requires Format(d, x) == Format(e, y)
    ensures d.space == e.space
  {
    hide Format, Plain;
    LettersBeforeEnd(d, x);
    LettersBeforeEnd(e, y);
  }

  /** The first letters tell the kinds of names apart. */
  lemma FirstLetters(d: Derived, x: string)
    ensures var s := Format(d, x);
            && |s| >= 8
            && s[0] == (if d.kind.ForeignPointer? then 'f' else if d.pointee == 0 then 'o' else 'p')
            && (d.kind.ForeignPointer? ==> s[1] == 'o')
  {
    hide Format;
    FormatIsHeadAndTail(d, x);
    var s, h := Format(d, x), Head(d, x);
    assert |h| >= 8 && s[0] == h[0] && s[1] == h[1];
  }

  /** Equal names say the same. */
  lemma NamesSayTheSame(d: Derived, x: string, e: Derived, y: string)
    requires d.kind.Pointer? && d.pointee != 0 ==> Plain(x)
    requires e.kind.Pointer? && e.pointee != 0 ==> Plain(y)
    requires Format(d, x) == Format(e, y)
    ensures d.kind == e.kind && (d.kind.Pointer? ==> d.space == e.space && (d.pointee == 0 <==> e.pointee == 0))
    ensures NeedsPointeeName(d) ==> x == y
  {
    hide Format, Plain;
    FirstLetters(d, x);
    FirstLetters(e, y);
    if d.kind.Pointer? {
      SpaceIsSpelled(d, x, e, y);
    }
    FormatIsHeadAndTail(d, x);
    FormatIsHeadAndTail(e, y);
    if NeedsPointeeName(d) {
      SamePrefix(Head(d, x), Head(e, y), Format(d, x));
      SamePointee(d, x, e, y);
    }
  }

  lemma SamePrefix(a: string, b: string, s: string)
    requires |a| == |b| <= |s| && s[..|a|] == a && s[..|b|] == b
    ensures a == b
  {
  }

  lemma SamePointee(d: Derived, x: string, e: Derived, y: string)
    requires NeedsPointeeName(d) && NeedsPointeeName(e) && d.kind == e.kind && Head(d, x) == Head(e, y)
    ensures x == y
  {
    var k := if d.kind.ForeignPointer? then |"foreign_pointer["| else |"pointer["|;
    assert Head(d, x)[k..] == x && Head(e, y)[k..] == y;
  }

  lemma FormatIsPlain(d: Derived, x: string)
    ensures Plain(Format(d, x))
  {
    hide Format;
    FirstLetters(d, x);
    FormatIsHeadAndTail(d, x);
    if Format(d, x) == Head(d, x) {
      assert Head(d, x)[|Head(d, x)| - 1] == 'r';
    }
  }

  lemma NameIsPlain(m: Memory, id: nat)
    requires RecordsOk(m) && Known(m, id)
    ensures Plain(TypeName(m.records, id))
  {
    hide Plain;
    if id < FIRST_DERIVED {
      BasicNameIsPlain(id);
    } else {
      var name := NameOfRecord(m, id);
      FormatIsPlain(m.records[id - FIRST_DERIVED], name);
    }
  }

  /** The name of a derived dtype is made of its pointee's. */
  lemma NameOfRecord(m: Memory, id: nat) returns (pointee: string)
    requires RecordsOk(m) && Known(m, id) && id >= FIRST_DERIVED
    ensures var d := m.records[id - FIRST_DERIVED];
            && d.pointee < id && Known(m, d.pointee)
            && TypeName(m.records, id) == Format(d, pointee)
            && (NeedsPointeeName(d) ==> pointee == TypeName(m.records, d.pointee))
  {
    hide Format;
    var d := m.records[id - FIRST_DERIVED];
    pointee := if NeedsPointeeName(d) then TypeName(m.records, d.pointee) else "";
  }

  lemma BasicIsNotDerived(m: Memory, a: nat, b: nat)
    requires RecordsOk(m) && a < FIRST_DERIVED <= b && Known(m, b)
    ensures TypeName(m.records, a) != TypeName(m.records, b)
  {
    hide Format, RecordsOk;
    BasicNameIsPlain(a);
    var name := NameOfRecord(m, b);
    FirstLetters(m.records[b - FIRST_DERIVED], name);
  }

  lemma {:induction false} SameNameSameId(m: Memory, a: nat, b: nat)
    requires RecordsOk(m) && Distinct(m.records) && Known(m, a) && Known(m, b)
    requires TypeName(m.records, a) == TypeName(m.records, b)
    ensures a == b
  {
    hide TypeName, Format, RecordsOk;
    if a >= FIRST_DERIVED && b >= FIRST_DERIVED {
      var x := NameOfRecord(m, a);
      var y := NameOfRecord(m, b);
      var d, e := m.records[a - FIRST_DERIVED], m.records[b - FIRST_DERIVED];
      NameIsPlain(m, d.pointee);
      NameIsPlain(m, e.pointee);
      NamesSayTheSame(d, x, e, y);
      if NeedsPointeeName(d) {
        SameNameSameId(m, d.pointee, e.pointee);
      }
      assert RequestOf(d) == RequestOf(e);
    } else {
      BasicNames(m, a, b);
    }
  }

  lemma BasicNames(m: Memory, a: nat, b: nat)
    requires RecordsOk(m) && Known(m, a) && Known(m, b) && (a < FIRST_DERIVED || b < FIRST_DERIVED)
    requires TypeName(m.records, a) == TypeName(m.records, b)
    ensures a == b
  {
    hide Format, RecordsOk;
    if a >= FIRST_DERIVED {
      BasicIsNotDerived(m, b, a);
    } else if b >= FIRST_DERIVED {
      BasicIsNotDerived(m, a, b);
    } else if a < b {
      BasicNamesDiffer(a, b);
    } else if b < a {
      BasicNamesDiffer(b, a);
    }
  }

  // ---- The names that callers get ----

  /** Two names, returned to any threads at any times, are equal exactly when the dtypes are. */
  lemma SameNameIffSameId(
      states: seq<State>, steps: seq<Step>, i: nat, j: nat, t: nat, u: nat, a: nat, b: nat, x: string, y: string)
    requires IsRun(states, steps) && i <= j < |states| && t < |states[i].threads| && u < |states[j].threads|
    requires states[i].threads[t] == Named(a, Some(x)) && states[j].threads[u] == Named(b, Some(y))
    ensures x == y <==> a == b
  {
    hide IsRun, TypeName, RecordsOk, SlotsOk, AlmostPublished, Distinct;
    NamesAreFullNames(states, steps, i, j, t, a, x);
    NamesAreFullNames(states, steps, j, j, u, b, y);
    RunsKeepInvariant(states, steps, j);
    RunsPublish(states, steps, j);
    var m := states[j].memory;
    RecordsAreDistinct(m);
    assert NameOk(m, a, x) && NameOk(m, b, y);
    if x == y {
      SameNameSameId(m, a, b);
    }
  }

  /** The name of an opaque pointer. */
  lemma OpaqueNames(states: seq<State>, steps: seq<Step>, i: nat, j: nat, t: nat, u: nat,
                    space: MemorySpace, id: nat, name: string)
    requires IsRun(states, steps) && i < |states| && j < |states| && t < |states[i].threads| && u < |states[j].threads|
    requires states[i].threads[t] == Interned(PointerTo(0, space), id)
    requires states[j].threads[u] == Named(id, Some(name))
    ensures name == match space
                    case Generic => "opaque_pointer"
                    case Global => "opaque_pointer[" + "MemorySpace.GLOBAL" + "]"
                    case Shared => "opaque_pointer[" + "MemorySpace.SHARED" + "]"
                    case Constant => "opaque_pointer[" + "MemorySpace.CONSTANT" + "]"
                    case Local => "opaque_pointer[" + "MemorySpace.LOCAL" + "]"
                    case Tensor => "opaque_pointer[" + "MemorySpace.TENSOR" + "]"
                    case SharedCluster => "opaque_pointer[" + "MemorySpace.SHARED_CLUSTER" + "]"
  {
    hide IsRun, TypeName, Format;
    var k := if i < j then j else i;
    var _, x := NameOfRequest(states, steps, i, j, k, t, u, PointerTo(0, space), id, name);
    OpaqueSpelled(space, x);
  }

  /** The name of any other pointer, with the name that any call gets for the pointee. */
  lemma PointerNames(states: seq<State>, steps: seq<Step>, i: nat, j: nat, k: nat, t: nat, u: nat, v: nat,
                     r: Request, id: nat, name: string, pointee: string)
    requires IsRun(states, steps) && i < |states| && j < |states| && k < |states|
    requires t < |states[i].threads| && u < |states[j].threads| && v < |states[k].threads|
    requires states[i].threads[t] == Interned(r, id) && (r.PointerTo? ==> r.pointee != 0)
    requires states[j].threads[u] == Named(id, Some(name))
    requires states[k].threads[v] == Named(r.pointee, Some(pointee))
    ensures name == match r
                    case PointerTo(_, Generic) => "pointer[" + pointee + "]"
                    case PointerTo(_, Global) => "pointer[" + pointee + ", " + "MemorySpace.GLOBAL" + "]"
                    case PointerTo(_, Shared) => "pointer[" + pointee + ", " + "MemorySpace.SHARED" + "]"
                    case PointerTo(_, Constant) => "pointer[" + pointee + ", " + "MemorySpace.CONSTANT" + "]"
                    case PointerTo(_, Local) => "pointer[" + pointee + ", " + "MemorySpace.LOCAL" + "]"
                    case PointerTo(_, Tensor) => "pointer[" + pointee + ", " + "MemorySpace.TENSOR" + "]"
                    case PointerTo(_, SharedCluster) => "pointer[" + pointee + ", " + "MemorySpace.SHARED_CLUSTER" + "]"
                    case ForeignPointerTo(_) => "foreign_pointer[" + pointee + "]"
  {
    hide IsRun, TypeName, Format;
    var last := |states| - 1;
    var _, x := NameOfRequest(states, steps, i, j, last, t, u, r, id, name);
    NamesAreFullNames(states, steps, k, last, v, r.pointee, pointee);
    FormatSpelled(r, pointee);
  }

  lemma SpaceSpelled(space: MemorySpace)
    requires !space.Generic?
    ensures "MemorySpace." + SpaceName(space) == match space
            case Global => "MemorySpace.GLOBAL"
            case Shared => "MemorySpace.SHARED"
            case Constant => "MemorySpace.CONSTANT"
            case Local => "MemorySpace.LOCAL"
            case Tensor => "MemorySpace.TENSOR"
            case SharedCluster => "MemorySpace.SHARED_CLUSTER"
  {
  }

  lemma SpaceIsLast(d: Derived, x: string, space: string)
    requires d.kind.Pointer? && !d.space.Generic? && space == "MemorySpace." + SpaceName(d.space)
    ensures Format(d, x) == (if d.pointee == 0 then "opaque_pointer[" else "pointer[" + x + ", ") + space + "]"
  {
    hide SpaceName;
    if d.pointee == 0 {
      assert "opaque_pointer" + "[" == "opaque_pointer[";
    }
  }

  lemma FormatSpelled(r: Request, x: string)
    requires r.PointerTo? ==> r.pointee != 0
    ensures Format(RecordOf(r), x) == match r
            case PointerTo(_, Generic) => "pointer[" + x + "]"
            case PointerTo(_, Global) => "pointer[" + x + ", " + "MemorySpace.GLOBAL" + "]"
            case PointerTo(_, Shared) => "pointer[" + x + ", " + "MemorySpace.SHARED" + "]"
            case PointerTo(_, Constant) => "pointer[" + x + ", " + "MemorySpace.CONSTANT" + "]"
            case PointerTo(_, Local) => "pointer[" + x + ", " + "MemorySpace.LOCAL" + "]"
            case PointerTo(_, Tensor) => "pointer[" + x + ", " + "MemorySpace.TENSOR" + "]"
            case PointerTo(_, SharedCluster) => "pointer[" + x + ", " + "MemorySpace.SHARED_CLUSTER" + "]"
            case ForeignPointerTo(_) => "foreign_pointer[" + x + "]"
  {
    if r.PointerTo? && !r.space.Generic? {
      SpaceIsLast(RecordOf(r), x, "MemorySpace." + SpaceName(r.space));
      hide Format, SpaceName;
      SpaceSpelled(r.space);
    }
  }

  lemma OpaqueSpelled(space: MemorySpace, x: string)
    ensures Format(Derived(Pointer, space, 0), x) == match space
            case Generic => "opaque_pointer"
            case Global => "opaque_pointer[" + "MemorySpace.GLOBAL" + "]"
            case Shared => "opaque_pointer[" + "MemorySpace.SHARED" + "]"
            case Constant => "opaque_pointer[" + "MemorySpace.CONSTANT" + "]"
            case Local => "opaque_pointer[" + "MemorySpace.LOCAL" + "]"
            case Tensor => "opaque_pointer[" + "MemorySpace.TENSOR" + "]"
            case SharedCluster => "opaque_pointer[" + "MemorySpace.SHARED_CLUSTER" + "]"
  {
    if !space.Generic? {
      SpaceIsLast(Derived(Pointer, space, 0), x, "MemorySpace." + SpaceName(space));
      hide Format, SpaceName;
      SpaceSpelled(space);
    }
  }

  lemma NameOfRequest(states: seq<State>, steps: seq<Step>, i: nat, j: nat, k: nat, t: nat, u: nat,
                      r: Request, id: nat, name: string)
    returns (d: Derived, x: string)
    requires IsRun(states, steps) && i <= k && j <= k < |states|
    requires t < |states[i].threads| && u < |states[j].threads|
    requires states[i].threads[t] == Interned(r, id) && states[j].threads[u] == Named(id, Some(name))
    ensures d == RecordOf(r) && name == Format(d, x)
    ensures NeedsPointeeName(d) ==> x == TypeName(states[k].memory.records, r.pointee)
  {
    hide IsRun, TypeName, Format, RecordsOk;
    RunsKeepInvariant(states, steps, i);
    RunsKeepInvariant(states, steps, k);
    RunsExtend(states, steps, i, k);
    NamesAreFullNames(states, steps, j, k, u, id, name);
    assert ThreadOk(states[i].memory, t, states[i].threads[t]);
    d := RecordOf(r);
    x := NameOfRecord(states[k].memory, id);
  }
}

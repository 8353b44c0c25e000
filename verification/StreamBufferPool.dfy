/** The pool as the code has it: parallel vectors of stream ids and stream buffers, changed in
    place. Every method is proved to be a sequence of protocol steps. */
module StreamBufferPools {
  import opened StreamBufferProtocol
  import opened StreamBufferReclaim

  const SIZE_MAX: nat := 0xffff_ffff_ffff_ffff
  const MIN_CHUNK_TO_ALLOCATION_RATIO: nat := 4

  function FindStream(ids: seq<nat>, id: nat): (i: nat)
    ensures i <= |ids|
    ensures i < |ids| ==> ids[i] == id
    ensures i == |ids| ==> id !in ids
    ensures forall k :: 0 <= k < i ==> ids[k] != id
  {
    if ids == [] then 0 else if ids[0] == id then 0 else 1 + FindStream(ids[1..], id)
  }

  ghost predicate Distinct(ids: seq<nat>) {
    forall i, j :: 0 <= i < j < |ids| ==> ids[i] != ids[j]
  }

  /** The table that the two vectors represent. */
  ghost function Table(ids: seq<nat>, buffers: seq<StreamBuffer>): map<nat, StreamBuffer>
    requires |ids| == |buffers|
  {
    map st | st in ids :: buffers[FindStream(ids, st)]
  }

  lemma TableAt(ids: seq<nat>, buffers: seq<StreamBuffer>, i: nat)
    requires |ids| == |buffers| && Distinct(ids) && i < |ids|
    ensures ids[i] in Table(ids, buffers) && Table(ids, buffers)[ids[i]] == buffers[i]
    ensures FindStream(ids, ids[i]) == i
  {
  }

  lemma TableUpdate(ids: seq<nat>, buffers: seq<StreamBuffer>, i: nat, b: StreamBuffer)
    requires |ids| == |buffers| && Distinct(ids) && i < |ids|
    ensures Table(ids, buffers[i := b]) == Table(ids, buffers)[ids[i] := b]
  {
    TableAt(ids, buffers, i);
    TableAt(ids, buffers[i := b], i);
  }

  lemma TablePush(ids: seq<nat>, buffers: seq<StreamBuffer>, st: nat, b: StreamBuffer)
    requires |ids| == |buffers| && Distinct(ids) && st !in ids
    ensures Distinct(ids + [st]) && st !in Table(ids, buffers)
    ensures Table(ids + [st], buffers + [b]) == Table(ids, buffers)[st := b]
  {
    hide Table, FindStream;
    var t, t' := Table(ids, buffers), Table(ids + [st], buffers + [b]);
    TableKeys(ids, buffers);
    TableKeys(ids + [st], buffers + [b]);
    TableAt(ids + [st], buffers + [b], |ids|);
    forall x | x in ids ensures x in t && x in t' && t'[x] == t[x] {
      var i :| 0 <= i < |ids| && ids[i] == x;
      TableAt(ids + [st], buffers + [b], i);
      TableAt(ids, buffers, i);
      assert (ids + [st])[i] == x;
    }
  }

  /** Moving the last entry into slot i and dropping the last slot. */
  function SwapRemove<T>(s: seq<T>, i: nat): (r: seq<T>)
    requires i < |s|
    ensures |r| == |s| - 1
  {
    s[i := s[|s| - 1]][..|s| - 1]
  }

  lemma SwapRemoveIds(ids: seq<nat>, i: nat)
    requires Distinct(ids) && i < |ids|
    ensures Distinct(SwapRemove(ids, i))
    ensures forall x :: x in SwapRemove(ids, i) <==> x in ids && x != ids[i]
  {
    var n, ids' := |ids| - 1, SwapRemove(ids, i);
    assert forall k :: 0 <= k < n ==> ids'[k] == ids[if k == i then n else k];
    forall x | x in ids && x != ids[i] ensures x in ids' {
      var k :| 0 <= k <= n && ids[k] == x;
      assert ids'[if k == n then i else k] == x;
    }
  }

  /** It removes entry i from the table. */
  lemma TableSwapRemove(ids: seq<nat>, buffers: seq<StreamBuffer>, i: nat)
    requires |ids| == |buffers| && Distinct(ids) && i < |ids|
    ensures Table(SwapRemove(ids, i), SwapRemove(buffers, i)) == Table(ids, buffers) - {ids[i]}
  {
    hide Table, SwapRemove, Distinct, FindStream;
    var ids', buffers' := SwapRemove(ids, i), SwapRemove(buffers, i);
    var t, t' := Table(ids, buffers), Table(ids', buffers');
    SwapRemoveIds(ids, i);
    TableKeys(ids, buffers);
    TableKeys(ids', buffers');
    forall x | x in t' ensures x in t && t'[x] == t[x] {
      SwapRemoveEntry(ids, buffers, i, x);
    }
    assert t'.Keys == (t - {ids[i]}).Keys;
  }

  lemma TableKeys(ids: seq<nat>, buffers: seq<StreamBuffer>)
    requires |ids| == |buffers|
    ensures forall x :: x in Table(ids, buffers) <==> x in ids
  {
  }

  lemma SwapRemoveEntry(ids: seq<nat>, buffers: seq<StreamBuffer>, i: nat, x: nat)
    requires |ids| == |buffers| && Distinct(ids) && i < |ids| && x in SwapRemove(ids, i)
    ensures x in Table(ids, buffers) && x in Table(SwapRemove(ids, i), SwapRemove(buffers, i))
    ensures Table(SwapRemove(ids, i), SwapRemove(buffers, i))[x] == Table(ids, buffers)[x]
  {
    hide Table;
    var n, ids' := |ids| - 1, SwapRemove(ids, i);
    SwapRemoveIds(ids, i);
    var k :| 0 <= k < n && ids'[k] == x;
    TableAt(ids', SwapRemove(buffers, i), k);
    TableAt(ids, buffers, if k == i then n else k);
  }

  function Doubled(capacity: nat, k: nat): nat { if k == 0 then capacity else 2 * Doubled(capacity, k - 1) }

  /** Doubling up to k times is not enough for the request, and all but the last are far from SIZE_MAX. */
  ghost predicate TooSmallUpTo(current: nat, requested: nat, k: nat) {
    && (forall j :: 0 < j <= k ==> Doubled(current, j) / 4 < requested)
    && (forall j :: 0 <= j < k ==> Doubled(current, j) < 0x7fff_ffff_ffff_ffff)
  }

  /** The least doubling in which four requests fit. */
  ghost predicate IsGrown(current: nat, requested: nat, capacity: nat) {
    && requested <= capacity / 4
    && exists k: nat :: k > 0 && capacity == Doubled(current, k) && TooSmallUpTo(current, requested, k - 1)
                        && Doubled(current, k - 1) < 0x7fff_ffff_ffff_ffff
  }

  lemma GrownBy(current: nat, requested: nat, k: nat)
    requires k > 0 && TooSmallUpTo(current, requested, k - 1) && Doubled(current, k - 1) < 0x7fff_ffff_ffff_ffff
    requires requested <= Doubled(current, k) / 4
    ensures IsGrown(current, requested, Doubled(current, k))
  {
    hide Doubled, TooSmallUpTo;
  }

  /** The limit comes before a doubling that is enough. */
  ghost predicate CannotGrow(current: nat, requested: nat) {
    exists k: nat :: Doubled(current, k) >= 0x7fff_ffff_ffff_ffff && TooSmallUpTo(current, requested, k)
  }

  predicate IsCapacity(capacity: nat) { capacity > 0 && capacity % ALIGNMENT == 0 }

  lemma CapacityBasics(capacity: nat)
    ensures IsCapacity(capacity) <==> capacity > 0 && capacity % ALIGNMENT == 0
  {
  }

  /** Doubling keeps the alignment, and the size in range. */
  lemma CapacityDoubles(capacity: nat)
    requires IsCapacity(capacity) && capacity < SIZE_MAX / 2
    ensures IsCapacity(capacity * 2) && SIZE_MAX - capacity * 2 < SIZE_MAX - capacity && capacity * 2 <= SIZE_MAX
  {
    MultipleOfAlignment(capacity, capacity / ALIGNMENT);
  }

  lemma MultipleOfAlignment(n: nat, k: nat)
    requires n == ALIGNMENT * k
    ensures (n * 2) % ALIGNMENT == 0
  {
    NoRemainder(2 * k);
  }

  lemma NoRemainder(k: nat)
    ensures (ALIGNMENT * k) % ALIGNMENT == 0
  {
  }

  lemma AppendedTail(b: StreamBuffer, chunk: Chunk)
    ensures var chunks := AppendTo(b, chunk).chunks; chunks != [] && chunks[|chunks| - 1] == chunk
  {
  }

  /** The next multiple of the alignment. */
  function RoundUp(requested: nat): (size: nat)
    ensures size % 16 == 0 && requested <= size < requested + 16
  {
    (requested + ALIGNMENT - 1) / ALIGNMENT * ALIGNMENT
  }

  /** The tail of the list has that many bytes left. */
  predicate HasRoom(b: StreamBuffer, size: nat) {
    b.chunks != [] && size <= b.chunks[|b.chunks| - 1].available
  }

  lemma CloseIsStep(
      s: State, ids: seq<nat>, buffers: seq<StreamBuffer>, i: nat, st: nat, chunks: seq<Chunk>, recorded: nat)
    requires |ids| == |buffers| && Distinct(ids) && i < |ids| && ids[i] == st && s.buffers == Table(ids, buffers)
    requires st in s.openTransaction && st in s.buffers && s.openTransaction[st] < |s.transactions|
    requires chunks == RecordEvents(buffers[i].chunks, TransactionStart(buffers[i]), st, At(s.gpu.recorded, st) + 1)
    requires recorded == At(s.gpu.recorded, st) + (|buffers[i].chunks| - TransactionStart(buffers[i]))
    ensures Enabled(s, Step.Close(st))
    ensures Apply(s, Step.Close(st))
            == s.(buffers := Table(ids, buffers[i := StreamBuffer(false, chunks, None)]),
                  gpu := s.gpu.(recorded := s.gpu.recorded[st := recorded]),
                  transactions := s.transactions[s.openTransaction[st] :=
                                                   Transaction(st, Some(At(s.gpu.recorded, st) + 1))],
                  openTransaction := s.openTransaction - {st})
  {
    hide Table, TransactionStart, RecordEvents, FindStream, At, Distinct;
    TableAt(ids, buffers, i);
    TableUpdate(ids, buffers, i, StreamBuffer(false, chunks, None));

  }

  /** The steps that giving chunks back is made of. */
  ghost predicate AddedReclaims(before: seq<Step>, after: seq<Step>) {
    && |before| <= |after| && after[..|before|] == before
    && forall i :: |before| <= i < |after| ==>
         after[i].Complete? || after[i].ReclaimHead? || after[i].DropBuffer?
  }

  lemma AddedTransitive(a: seq<Step>, b: seq<Step>, c: seq<Step>)
    ensures AddedReclaims(a, a)
    ensures AddedReclaims(a, b) && AddedReclaims(b, c) ==> AddedReclaims(a, c)
  {
    if AddedReclaims(a, b) && AddedReclaims(b, c) {
      assert c[..|a|] == c[..|b|][..|a|];
      forall i | |a| <= i < |c| ensures c[i].Complete? || c[i].ReclaimHead? || c[i].DropBuffer? {
        if i < |b| {
          assert c[..|b|][i] == c[i];
        }
      }
    }
  }

  lemma AddedOne(a: seq<Step>, b: seq<Step>, s: Step)
    requires AddedReclaims(a, b) && (s.Complete? || s.ReclaimHead? || s.DropBuffer?)
    ensures AddedReclaims(a, b + [s])
  {
    assert (b + [s])[..|a|] == b[..|a|];
  }

  /** What the polling methods have in common: only such steps, and streams that get further. */
  datatype View = View(state: State, polled: Gpu, steps: seq<Step>)

  ghost predicate Since(a: View, b: View) {
    AddedReclaims(a.steps, b.steps) && GivesBack(a.state, b.state) && Progress(a.polled, b.polled)
  }

  lemma SinceTransitive(a: View, b: View, c: View)
    requires Since(a, b) && Since(b, c)
    ensures Since(a, c)
  {
    hide AddedReclaims, GivesBack, Progress;
    AddedTransitive(a.steps, b.steps, c.steps);
    GivesBackTransitive(a.state, b.state, c.state);
    ProgressTransitive(a.polled, b.polled, c.polled);
  }

  lemma SinceItself(states: seq<State>, steps: seq<Step>, a: View, progress: (nat, nat) -> nat, k: nat)
    requires IsRun(states, steps) && a.state == states[|states| - 1]
    requires a.polled == Gpu(a.state.gpu.recorded, Advanced(a.state.gpu, progress, k))
    ensures Since(a, a)
  {
    hide GivesBack, AddedReclaims, Advanced, IsRun;
    AddedTransitive(a.steps, a.steps, a.steps);
    GpuOfRun(states, steps);
    GivesBackNothing(a.state);
    AdvancedIsProgress(a.state.gpu, progress, k);
    ProgressItself(a.state.gpu, a.polled);
  }

  lemma ProgressItself(before: Gpu, after: Gpu)
    requires Progress(before, after)
    ensures Progress(after, after)
  {
  }

  lemma SinceMeans(a: View, b: View)
    requires Since(a, b)
    ensures AddedReclaims(a.steps, b.steps) && GivesBack(a.state, b.state) && Progress(a.polled, b.polled)
  {
  }

  lemma OneStepSince(a: View, b: View, step: Step)
    requires GivesBack(a.state, b.state) && Progress(a.polled, b.polled)
    requires b.steps == a.steps + [step] && (step.Complete? || step.ReclaimHead? || step.DropBuffer?)
    ensures Since(a, b)
  {
    AddedTransitive(a.steps, a.steps, a.steps);
    AddedOne(a.steps, a.steps, step);
  }

  class StreamBufferPool {
    var streamIds: seq<nat>
    var buffers: seq<StreamBuffer>
    var curChunkCapacity: nat
    var freelist: seq<Chunk>

    // The driver: how far stream st has got by the k-th call, and whether that call finds memory
    const progress: (nat, nat) -> nat
    const hasMemory: nat -> bool
    var calls: nat
    var nextId: nat
    var gpu: Gpu

    // Bookkeeping
    ghost var transactions: seq<Transaction>
    ghost var openTransaction: map<nat, nat>
    ghost var allocations: seq<Allocation>
    ghost var states: seq<State>
    ghost var steps: seq<Step>

    /** The state with the first n streams. */
    ghost function Snapshot(n: nat): State
      requires n <= |streamIds| == |buffers|
      reads this
    {
      State(Table(streamIds[..n], buffers[..n]), curChunkCapacity, freelist, nextId, gpu,
            transactions, openTransaction, allocations)
    }

    /** What happened so far is a run of the protocol, which has led to this state. */
    ghost predicate ValidUpTo(n: nat)
      reads this
    {
      && n <= |streamIds| == |buffers|
      && Distinct(streamIds[..n])
      && IsRun(states, steps)
      && states[|states| - 1] == Snapshot(n)
    }

    ghost predicate Valid()
      reads this
    {
      ValidUpTo(|streamIds|)
    }

    constructor (progress: (nat, nat) -> nat, hasMemory: nat -> bool)
      ensures Valid() && steps == [] && streamIds == [] && curChunkCapacity == 32768
      ensures this.progress == progress && this.hasMemory == hasMemory
    {
      this.progress, this.hasMemory := progress, hasMemory;
      streamIds, buffers, freelist, curChunkCapacity := [], [], [], INITIAL_CAPACITY;
      calls, nextId, gpu := 0, 0, Gpu(map[], map[]);
      transactions, openTransaction, allocations := [], map[], [];
      steps := [];
      new;
      states := [Snapshot(0)];
    }

    ghost method Record(step: Step, n: nat)
      requires n <= |streamIds| == |buffers| && Distinct(streamIds[..n])
      requires IsRun(states, steps) && Enabled(states[|states| - 1], step)
      requires Snapshot(n) == Apply(states[|states| - 1], step)
      modifies this`states, this`steps
      ensures ValidUpTo(n) && steps == old(steps) + [step]
    {
      states := states + [Snapshot(n)];
      steps := steps + [step];
    }

    /** How far the streams have got when the driver is asked next. */
    ghost function Polled(): Gpu
      reads this
    {
      Gpu(gpu.recorded, Advanced(gpu, progress, calls))
    }

    ghost function ViewUpTo(n: nat): View
      requires n <= |streamIds| == |buffers|
      reads this
    {
      View(Snapshot(n), Polled(), steps)
    }

    lemma SnapshotParts(n: nat)
      requires n <= |streamIds| == |buffers|
      ensures Snapshot(n).gpu == gpu && Snapshot(n).buffers == Table(streamIds[..n], buffers[..n])
    {
    }

    /** A step of giving chunks back. */
    ghost method RecordReclaim(step: Step, n: nat)
      requires n <= |streamIds| == |buffers| && Distinct(streamIds[..n])
      requires IsRun(states, steps) && Enabled(states[|states| - 1], step)
      requires Snapshot(n) == Apply(states[|states| - 1], step)
      requires step.Complete? || step.ReclaimHead? || step.DropBuffer?
      modifies this`states, this`steps
      ensures ValidUpTo(n) && steps == old(steps) + [step]
      ensures GivesBack(old(states[|states| - 1]), Snapshot(n))
    {
      hide Table, Distinct, GivesBack, Apply, Enabled;
      GpuOfRun(states, steps);
      StepGivesBack(states[|states| - 1], step);
      Record(step, n);
    }

    /** cuEventQuery: by now, the streams may have got further. */
    method QueryEvent(event: Event, ghost n: nat) returns (done: bool)
      requires ValidUpTo(n)
      modifies this`gpu, this`calls, this`states, this`steps
      ensures ValidUpTo(n) && done == IsComplete(gpu, event)
      ensures done <==>
                event == Unrecorded
                || event.ticket <= if event.stream in gpu.completed then gpu.completed[event.stream] else 0
      ensures gpu == old(Polled()) && Progress(gpu, Polled())
      ensures Since(old(ViewUpTo(n)), ViewUpTo(n))
    {
      hide GivesBack, IsRun, Table, Distinct, Progress, Advanced, Since;
      GpuOfRun(states, steps);
      var after := Gpu(gpu.recorded, Advanced(gpu, progress, calls));
      calls := calls + 1;
      AdvancedIsProgress(gpu, progress, calls - 1);
      gpu := after;
      RecordReclaim(Complete(after), n);
      GpuOfRun(states, steps);
      AdvancedIsProgress(gpu, progress, calls);
      OneStepSince(old(ViewUpTo(n)), ViewUpTo(n), Complete(after));
      done := IsComplete(gpu, event);
    }

    /** Gives back the chunks at the head of a list whose events have completed, up to the chunks of
        the open transaction. */
    method PollEvents(i: nat, ghost n: nat)
      requires ValidUpTo(n) && i < n
      modifies this`buffers, this`freelist, this`gpu, this`calls, this`states, this`steps
      ensures ValidUpTo(n) && |buffers| == old(|buffers|)
      ensures forall k :: 0 <= k < |buffers| && k != i ==> buffers[k] == old(buffers[k])
      ensures buffers[i].open == old(buffers[i].open)
      ensures Since(old(ViewUpTo(n)), ViewUpTo(n)) && Blocked(buffers[i], old(Polled()))
    {
      hide IsRun, Table, Distinct, Since, Progress, Advanced, IsComplete;
      var st := streamIds[i];
      SinceItself(states, steps, ViewUpTo(n), progress, calls);
      while HeadId(buffers[i]) != buffers[i].transactionHead
        invariant ValidUpTo(n) && |buffers| == old(|buffers|)
        invariant forall k :: 0 <= k < |buffers| && k != i ==> buffers[k] == old(buffers[k])
        invariant buffers[i].open == old(buffers[i].open)
        invariant Since(old(ViewUpTo(n)), ViewUpTo(n))
        decreases |buffers[i].chunks|
      {
        ghost var before := ViewUpTo(n);
        TableAt(streamIds[..n], buffers[..n], i);
        NoHeadNoTransaction(states, steps, st);
        var chunk := buffers[i].chunks[0];
        var done := QueryEvent(chunk.event, n);
        ghost var queried := ViewUpTo(n);
        SinceTransitive(old(ViewUpTo(n)), before, queried);
        if !done {
          SinceMeans(old(ViewUpTo(n)), before);
          StillIncomplete(old(Polled()), gpu, chunk.event);
          break;
        }
        ReclaimChunk(i, n);
        SinceTransitive(old(ViewUpTo(n)), queried, ViewUpTo(n));
      }
    }

    /** The head of a list goes to the free list, or is deleted if it is smaller than new chunks. */
    method ReclaimChunk(i: nat, ghost n: nat)
      requires ValidUpTo(n) && i < n
      requires buffers[i].chunks != [] && HeadId(buffers[i]) != buffers[i].transactionHead
      requires IsComplete(gpu, buffers[i].chunks[0].event)
      modifies this`buffers, this`freelist, this`states, this`steps
      ensures ValidUpTo(n) && steps == old(steps) + [ReclaimHead(streamIds[i])]
      ensures buffers == old(buffers[i := buffers[i].(chunks := buffers[i].chunks[1..])])
      ensures var head := old(buffers[i].chunks[0]);
              freelist == if head.capacity == curChunkCapacity then [head] + old(freelist) else old(freelist)
      ensures Since(old(ViewUpTo(n)), ViewUpTo(n))
    {
      hide IsRun, Table, Distinct, GivesBack, Progress, Advanced, Since;
      SinceItself(states, steps, ViewUpTo(n), progress, calls);
      SinceMeans(ViewUpTo(n), ViewUpTo(n));
      var st := streamIds[i];
      var chunk := buffers[i].chunks[0];
      ghost var before := buffers[..n];
      var b := buffers[i].(chunks := buffers[i].chunks[1..]);
      buffers := buffers[i := b];
      if chunk.capacity == curChunkCapacity {
        freelist := [chunk] + freelist;
      }
      TableAt(streamIds[..n], before, i);
      TableUpdate(streamIds[..n], before, i, b);
      assert buffers[..n] == before[i := b];
      RecordReclaim(ReclaimHead(st), n);
      OneStepSince(old(ViewUpTo(n)), ViewUpTo(n), ReclaimHead(st));
    }

    /** The state of the protocol. */
    ghost function Now(): State
      requires |streamIds| == |buffers|
      reads this
    {
      Snapshot(|streamIds|)
    }

    /** Polls every stream, and drops the stream buffers that have become empty. Every list stops at a
        chunk of its open transaction or at one that was not complete; the chunks that left it are on
        the free list, unless they are smaller than new ones. */
    method Reclaim()
      requires Valid()
      modifies this`streamIds, this`buffers, this`freelist, this`gpu, this`calls, this`states, this`steps
      ensures Valid() && AddedReclaims(old(steps), steps)
      ensures GivesBack(old(Now()), Now()) && AllPolled(Now(), old(Polled()))
    {
      hide IsRun, Table, Distinct, Since, Blocked, Progress, Advanced, Settled, Snapshot;
      var i := 0;
      var n := |buffers|;
      SnapshotParts(n);
      SinceItself(states, steps, ViewUpTo(n), progress, calls);
      assert streamIds[..n] == streamIds && buffers[..n] == buffers;
      while i < n
        invariant i <= n <= |buffers| && ValidUpTo(n)
        invariant Since(old(ViewUpTo(|streamIds|)), ViewUpTo(n))
        invariant forall k :: 0 <= k < i ==> Settled(buffers[k], old(Polled()))
        decreases n - i
      {
        ghost var before := ViewUpTo(n);
        PollEvents(i, n);
        SettledEarlier(old(ViewUpTo(|streamIds|)), before, buffers[i]);
        SinceTransitive(old(ViewUpTo(|streamIds|)), before, ViewUpTo(n));
        if buffers[i].chunks == [] && !buffers[i].open {
          ghost var polled := ViewUpTo(n);
          n := n - 1;
          MoveLast(i, n);
          SinceTransitive(old(ViewUpTo(|streamIds|)), polled, ViewUpTo(n));
        } else {
          i := i + 1;
        }
      }
      SinceMeans(old(ViewUpTo(|streamIds|)), ViewUpTo(n));
      SnapshotParts(n);
      AllSettled(Snapshot(n), streamIds[..n], buffers[..n], old(Polled()));
      Resize(n);
    }

    /** Cuts off the slots of the dropped stream buffers. */
    method Resize(n: nat)
      requires ValidUpTo(n)
      modifies this`streamIds, this`buffers
      ensures Valid() && Now() == old(Snapshot(n))
    {
      hide IsRun, Table, Distinct;
      streamIds := streamIds[..n];
      buffers := buffers[..n];
      assert streamIds[..n] == streamIds && buffers[..n] == buffers;
    }

    /** The last stream buffer takes the place of one that is dropped. */
    method MoveLast(i: nat, n: nat)
      requires ValidUpTo(n + 1) && i <= n && buffers[i].chunks == [] && !buffers[i].open
      modifies this`streamIds, this`buffers, this`states, this`steps
      ensures ValidUpTo(n) && |buffers| == old(|buffers|)
      ensures steps == old(steps) + [DropBuffer(old(streamIds[i]))]
      ensures buffers == old(buffers[i := buffers[n]])
      ensures Since(old(ViewUpTo(n + 1)), ViewUpTo(n))
    {
      hide IsRun, Table, Distinct, GivesBack, Progress, Advanced, Since;
      SinceItself(states, steps, ViewUpTo(n + 1), progress, calls);
      SinceMeans(ViewUpTo(n + 1), ViewUpTo(n + 1));
      ghost var ids, bufs := streamIds[..n + 1], buffers[..n + 1];
      buffers := buffers[i := buffers[n]];
      streamIds := streamIds[i := streamIds[n]];
      TableAt(ids, bufs, i);
      SwapRemoveIds(ids, i);
      TableSwapRemove(ids, bufs, i);
      assert streamIds[..n] == SwapRemove(ids, i) && buffers[..n] == SwapRemove(bufs, i);
      RecordReclaim(DropBuffer(ids[i]), n);
      OneStepSince(old(ViewUpTo(n + 1)), ViewUpTo(n), DropBuffer(ids[i]));
    }

    /** A chunk that the caller is about to append: popped off the free list, or new. */
    ghost predicate InHand(chunk: Chunk, reused: bool)
      reads this
    {
      && |streamIds| == |buffers| && Distinct(streamIds)
      && IsRun(states, steps)
      && var s := states[|states| - 1];
      var now := Snapshot(|streamIds|);
      if reused then
        && s.freelist != [] && chunk == s.freelist[0].(available := s.curCapacity)
        && now == s.(freelist := s.freelist[1..])
      else
        && chunk == Chunk(s.nextId, s.curCapacity, s.curCapacity, Unrecorded)
        && now == s.(nextId := s.nextId + 1)
    }

    ghost predicate AddedGrow(before: seq<Step>)
      reads this
    {
      && |before| <= |steps| && steps[..|before|] == before
      && forall i :: |before| <= i < |steps| ==>
           steps[i].Complete? || steps[i].ReclaimHead? || steps[i].DropBuffer? || steps[i].Grow?
    }

    /** Doubles the capacity until a chunk has room for the request; None if it cannot be doubled. */
    method GrowCapacity(current: nat, requested: nat) returns (r: Option<nat>)
      requires current > 0 && current % ALIGNMENT == 0
      ensures r.Some? ==> r.value > 0 && r.value % ALIGNMENT == 0 && IsGrown(current, requested, r.value)
      ensures r == None ==> CannotGrow(current, requested)
    {
      hide IsCapacity;
      CapacityBasics(current);
      var capacity := current;
      ghost var k: nat := 0;
      while true
        invariant IsCapacity(capacity) && capacity == Doubled(current, k) && TooSmallUpTo(current, requested, k)
        decreases SIZE_MAX - capacity
      {
        CapacityBasics(capacity);
        if capacity >= SIZE_MAX / 2 {
          return None;
        }
        CapacityDoubles(capacity);
        capacity := capacity * 2;
        k := k + 1;
        if !(capacity / MIN_CHUNK_TO_ALLOCATION_RATIO < requested) {
          CapacityBasics(capacity);
          GrownBy(current, requested, k);
          return Some(capacity);
        }
      }
    }

    /** A chunk with room for four requests. If new chunks are that large, one that can be used again
        is, and the capacity stays; if not, the capacity grows and the free chunks are deleted. */
    method AllocateChunk(requested: nat) returns (chunk: Option<Chunk>, ghost reused: bool)
      requires Valid()
      modifies this`streamIds, this`buffers, this`freelist, this`gpu, this`calls, this`states, this`steps,
        this`curChunkCapacity, this`nextId
      ensures chunk == None ==> Valid()
      ensures chunk.Some? ==>
                InHand(chunk.value, reused) && requested <= chunk.value.available / 4
      ensures AddedGrow(old(steps))
      ensures if old(curChunkCapacity) / 4 >= requested
              then
                && curChunkCapacity == old(curChunkCapacity)
                && (CanReuse(old(Now()), old(Polled())) ==> chunk.Some? && reused)
                && (chunk == None ==> !hasMemory(calls))
              else
                && (chunk.Some? ==> !reused && IsGrown(old(curChunkCapacity), requested, curChunkCapacity))
                && (chunk == None ==> !hasMemory(calls) || CannotGrow(old(curChunkCapacity), requested))
    {
      hide IsRun, Table, Distinct, InHand, CanReuse, CannotGrow;
      reused := false;
      if curChunkCapacity / MIN_CHUNK_TO_ALLOCATION_RATIO >= requested {
        chunk := TakeFree();
        if chunk.Some? {
          return chunk, true;
        }
      } else {
        var grown := Enlarge(requested);
        if !grown {
          return None, false;
        }
      }
      chunk := NewChunk(curChunkCapacity);
    }

    /** The fast path: a free chunk, after polling the streams if there is none. */
    method TakeFree() returns (chunk: Option<Chunk>)
      requires Valid()
      modifies this`streamIds, this`buffers, this`freelist, this`gpu, this`calls, this`states, this`steps
      ensures chunk == None ==> Valid() && !CanReuse(old(Now()), old(Polled()))
      ensures chunk.Some? ==> InHand(chunk.value, true) && chunk.value.available == curChunkCapacity
      ensures AddedGrow(old(steps))
    {
      hide IsRun, Table, Distinct, InHand, GivesBack, AllPolled, CanReuse;
      if freelist == [] {
        Reclaim();
        if CanReuse(old(Now()), old(Polled())) {
          PolledIsReused(old(Now()), Now(), old(Polled()));
        }
      }
      if freelist != [] {
        var head := PopFree();
        return Some(head);
      }
      return None;
    }

    /** Larger chunks from now on, if their size has not come near the limit. */
    method Enlarge(requested: nat) returns (ok: bool)
      requires Valid()
      modifies this`freelist, this`curChunkCapacity, this`states, this`steps
      ensures Valid() && AddedGrow(old(steps))
      ensures ok ==> freelist == [] && IsGrown(old(curChunkCapacity), requested, curChunkCapacity)
      ensures !ok ==> CannotGrow(old(curChunkCapacity), requested) && steps == old(steps)
                      && freelist == old(freelist) && curChunkCapacity == old(curChunkCapacity)
    {
      hide IsRun, Table, Distinct, IsGrown, CannotGrow;
      FreelistOfRun(states, steps);
      var grown := GrowCapacity(curChunkCapacity, requested);
      if grown == None {
        return false;
      }
      curChunkCapacity := grown.value;
      freelist := [];
      EverythingIsUsed(streamIds, buffers);
      Record(Grow(grown.value), |streamIds|);
      return true;
    }

    /** The first chunk of the free list, empty again. */
    method PopFree() returns (chunk: Chunk)
      requires Valid() && freelist != []
      modifies this`freelist
      ensures InHand(chunk, true) && chunk.available == curChunkCapacity
    {
      hide IsRun, Table, Distinct;
      EverythingIsUsed(streamIds, buffers);
      FreelistOfRun(states, steps);
      var head := freelist[0];
      assert head.capacity == curChunkCapacity;
      freelist := freelist[1..];
      return head.(available := curChunkCapacity);
    }

    /** A chunk from the driver, if it has memory left. */
    method NewChunk(capacity: nat) returns (chunk: Option<Chunk>)
      requires Valid() && capacity == curChunkCapacity
      modifies this`calls, this`nextId
      ensures chunk == None ==> Valid()
      ensures chunk.Some? ==> InHand(chunk.value, false) && chunk.value.available == capacity
      ensures calls == old(calls) + 1 && (chunk.Some? <==> hasMemory(calls))
    {
      hide IsRun, Table, Distinct;
      EverythingIsUsed(streamIds, buffers);
      calls := calls + 1;
      if !hasMemory(calls) {
        return None;
      }
      chunk := Some(Chunk(nextId, capacity, capacity, Unrecorded));
      nextId := nextId + 1;
    }

    /** Opens a transaction on a stream. At most one may be open on it. */
    method Open(stream: nat)
      requires Valid()
      requires forall i :: 0 <= i < |streamIds| && streamIds[i] == stream ==> !buffers[i].open
      modifies this
      ensures Valid() && steps == old(steps) + [Step.Open(stream)]
      ensures stream in openTransaction
    {
      hide IsRun, Table, Distinct;
      var i := FindStream(streamIds, stream);
      assert streamIds[..|streamIds|] == streamIds && buffers[..|buffers|] == buffers;
      if i == |streamIds| {
        TablePush(streamIds, buffers, stream, StreamBuffer(true, [], None));
        streamIds := streamIds + [stream];
        buffers := buffers + [StreamBuffer(true, [], None)];
      } else {
        TableAt(streamIds, buffers, i);
        TableUpdate(streamIds, buffers, i, buffers[i].(open := true, transactionHead := None));
        buffers := buffers[i := buffers[i].(open := true, transactionHead := None)];
      }
      assert streamIds[..|streamIds|] == streamIds && buffers[..|buffers|] == buffers;
      openTransaction := openTransaction[stream := |transactions|];
      transactions := transactions + [Transaction(stream, None)];
      Record(Step.Open(stream), |streamIds|);
    }

    /** Bytes for the open transaction of a stream: the chunk and the offset in it. They come from the
        end of the tail if it has room, else from a chunk to be used again, else from a new one. */
    method Allocate(stream: nat, requested: nat) returns (r: Option<(nat, nat)>)
      requires Valid() && stream in openTransaction
      modifies this
      ensures Valid()
      ensures |old(steps)| <= |steps| && steps[..|old(steps)|] == old(steps)
      ensures forall i :: |old(steps)| <= i < |steps| - 1 ==> !steps[i].Bump? && !steps[i].Close? && !steps[i].Open?
      ensures r == None ==> allocations == old(allocations)
      ensures r.Some? ==>
                && |steps| > |old(steps)| && steps[|steps| - 1] == Bump(stream, RoundUp(requested))
                && allocations == old(allocations)
                     + [Allocation(r.value.0, r.value.1, RoundUp(requested), openTransaction[stream])]
      ensures stream in old(Now()).buffers
      ensures requested < 0xffff_ffff_ffff_ffff - 16 && HasRoom(old(Now()).buffers[stream], RoundUp(requested)) ==>
                var tail := old(Now()).buffers[stream].chunks[|old(Now()).buffers[stream].chunks| - 1];
                && r == Some((tail.id, tail.available - RoundUp(requested)))
                && steps == old(steps) + [Bump(stream, RoundUp(requested))]
      ensures requested < 0xffff_ffff_ffff_ffff - 16 && !HasRoom(old(Now()).buffers[stream], RoundUp(requested))
              && RoundUp(requested) <= old(curChunkCapacity) / 4
              && CanReuse(old(Now()), old(Polled())) ==>
                r.Some? && |steps| > |old(steps)| + 1 && steps[|steps| - 2] == AppendFree(stream)
      ensures r == None ==>
                || requested >= 0xffff_ffff_ffff_ffff - 16
                || (!HasRoom(old(Now()).buffers[stream], RoundUp(requested))
                    && (!hasMemory(calls) || CannotGrow(old(curChunkCapacity), RoundUp(requested))))
    {
      hide IsRun, Table, Distinct, FindStream, Apply, Enabled, CanReuse, CannotGrow, IsGrown;
      assert streamIds[..|streamIds|] == streamIds;
      var i := BufferIndex(stream);
      if requested >= SIZE_MAX - ALIGNMENT {
        return None;
      }
      var size := RoundUp(requested);
      if !HasRoom(buffers[i], size) {
        var added := AddChunk(stream, size);
        if added == None {
          return None;
        }
        i := added.value;
      }
      r := BumpTail(stream, i, size);
    }

    /** A new tail for the list of an open transaction. */
    method AddChunk(stream: nat, size: nat) returns (i: Option<nat>)
      requires Valid() && stream in openTransaction
      modifies this`streamIds, this`buffers, this`freelist, this`gpu, this`calls, this`states, this`steps,
        this`curChunkCapacity, this`nextId
      ensures Valid()
      ensures |old(steps)| <= |steps| && steps[..|old(steps)|] == old(steps)
      ensures forall k :: |old(steps)| <= k < |steps| ==> !steps[k].Bump? && !steps[k].Close? && !steps[k].Open?
      ensures i.Some? ==> i.value < |streamIds| && streamIds[i.value] == stream && HasRoom(buffers[i.value], size)
      ensures size <= old(curChunkCapacity) / 4 && CanReuse(old(Now()), old(Polled())) ==>
                i.Some? && |steps| > |old(steps)| && steps[|steps| - 1] == AppendFree(stream)
      ensures i == None ==> !hasMemory(calls) || CannotGrow(old(curChunkCapacity), size)
    {
      hide IsRun, Table, Distinct, CanReuse, CannotGrow, IsGrown, InHand;
      var chunk;
      ghost var reused;
      chunk, reused := AllocateChunk(size);
      if chunk == None {
        return None;
      }
      var k := AppendChunk(stream, chunk.value, reused);
      return Some(k);
    }

    /** Where the stream buffer of an open transaction is. */
    method BufferIndex(stream: nat) returns (i: nat)
      requires |streamIds| == |buffers| && Distinct(streamIds) && IsRun(states, steps)
      requires Snapshot(|streamIds|).buffers == states[|states| - 1].buffers
      requires stream in states[|states| - 1].openTransaction
      ensures i < |streamIds| && streamIds[i] == stream
      ensures stream in states[|states| - 1].buffers && buffers[i] == states[|states| - 1].buffers[stream]
    {
      i := FindStream(streamIds, stream);
      assert streamIds[..|streamIds|] == streamIds && buffers[..|buffers|] == buffers;
      OpenHasBuffer(states, steps, stream);
      assert stream in Table(streamIds, buffers);
      TableAt(streamIds, buffers, i);
    }

    method AppendChunk(stream: nat, chunk: Chunk, ghost reused: bool) returns (i: nat)
      requires InHand(chunk, reused) && stream in openTransaction
      modifies this`buffers, this`states, this`steps
      ensures Valid() && i < |streamIds| && streamIds[i] == stream
      ensures buffers[i].chunks != [] && buffers[i].chunks[|buffers[i].chunks| - 1] == chunk
      ensures steps == old(steps) + [if reused then AppendFree(stream) else AppendNew(stream)]
    {
      hide IsRun, Table, Distinct, FindStream, AppendTo;
      i := BufferIndex(stream);
      AppendedTail(buffers[i], chunk);
      assert streamIds[..|streamIds|] == streamIds && buffers[..|buffers|] == buffers;
      var b := AppendTo(buffers[i], chunk);
      TableUpdate(streamIds, buffers, i, b);
      buffers := buffers[i := b];
      assert buffers[..|buffers|] == buffers;
      Record(if reused then AppendFree(stream) else AppendNew(stream), |streamIds|);
    }

    method BumpTail(stream: nat, i: nat, size: nat) returns (r: Option<(nat, nat)>)
      requires Valid() && i < |streamIds| && streamIds[i] == stream && stream in openTransaction
      requires buffers[i].chunks != [] && size <= buffers[i].chunks[|buffers[i].chunks| - 1].available
      requires size % ALIGNMENT == 0
      modifies this`buffers, this`allocations, this`states, this`steps
      ensures Valid() && steps == old(steps) + [Bump(stream, size)]
      ensures r == Some((old(buffers[i].chunks[|buffers[i].chunks| - 1].id),
                         old(buffers[i].chunks[|buffers[i].chunks| - 1].available) - size))
      ensures r.Some? && allocations == old(allocations)
                           + [Allocation(r.value.0, r.value.1, size, openTransaction[stream])]
    {
      hide IsRun, Table, Distinct;
      assert streamIds[..|streamIds|] == streamIds && buffers[..|buffers|] == buffers;
      TableAt(streamIds, buffers, i);
      var b := buffers[i];
      var k := |b.chunks| - 1;
      if b.transactionHead == None {
        b := b.(transactionHead := Some(b.chunks[k].id));
      }
      var pos := b.chunks[k].available - size;
      b := b.(chunks := b.chunks[k := b.chunks[k].(available := pos)]);
      TableUpdate(streamIds, buffers, i, b);
      buffers := buffers[i := b];
      assert buffers[..|buffers|] == buffers;
      allocations := allocations + [Allocation(b.chunks[k].id, pos, size, openTransaction[stream])];
      Record(Bump(stream, size), |streamIds|);
      r := Some((b.chunks[k].id, pos));
    }

    /** Records the event of every chunk from the first of the transaction on. */
    method RecordFrom(before: seq<Chunk>, start: nat, stream: nat, last: nat)
      returns (chunks: seq<Chunk>, recorded: nat)
      requires start <= |before|
      ensures chunks == RecordEvents(before, start, stream, last + 1) && recorded == last + (|before| - start)
    {
      chunks, recorded := before, last;
      for k := start to |before|
        invariant |chunks| == |before| && recorded == last + (k - start)
        invariant forall j :: 0 <= j < |before| ==>
                    chunks[j] == if start <= j < k
                                 then before[j].(event := Recorded(stream, last + 1 + (j - start)))
                                 else before[j]
      {
        recorded := recorded + 1;
        chunks := chunks[k := chunks[k].(event := Recorded(stream, recorded))];
      }
      EventsRecorded(before, chunks, start, stream, last + 1);
    }

    /** Records an event in every chunk that the transaction has allocated from, in list order. */
    method Close(stream: nat)
      requires Valid() && stream in openTransaction
      modifies this
      ensures Valid() && steps == old(steps) + [Step.Close(stream)]
      ensures stream !in openTransaction && allocations == old(allocations)
    {
      hide IsRun, Table, Distinct, FindStream, RecordEvents, TransactionStart, At, Apply, Enabled;
      assert streamIds[..|streamIds|] == streamIds && buffers[..|buffers|] == buffers;
      ghost var before := Snapshot(|streamIds|);
      var i := BufferIndex(stream);
      OpenHasBuffer(states, steps, stream);
      var b := buffers[i];
      var chunks, recorded := RecordFrom(b.chunks, TransactionStart(b), stream, At(gpu.recorded, stream));
      CloseIsStep(before, streamIds, buffers, i, stream, chunks, recorded);
      buffers, gpu := buffers[i := StreamBuffer(false, chunks, None)], gpu.(recorded := gpu.recorded[stream := recorded]);
      transactions, openTransaction :=
        transactions[openTransaction[stream] := Transaction(stream, Some(old(At(gpu.recorded, stream)) + 1))],
        openTransaction - {stream};
      assert buffers[..|buffers|] == buffers;
      Record(Step.Close(stream), |streamIds|);
    }
  }

  ghost predicate Settled(b: StreamBuffer, gpu: Gpu) { (b.open || b.chunks != []) && Blocked(b, gpu) }

  lemma SettledEarlier(a: View, b: View, after: StreamBuffer)
    requires Since(a, b) && Blocked(after, b.polled)
    ensures after.open || after.chunks != [] ==> Settled(after, a.polled)
  {
    SinceMeans(a, b);
    hide Since, Blocked, Progress;
    BlockedEarlier(a.polled, b.polled, after);
  }

  lemma AllSettled(s: State, ids: seq<nat>, buffers: seq<StreamBuffer>, gpu: Gpu)
    requires |ids| == |buffers| && s.buffers == Table(ids, buffers)
    requires forall k :: 0 <= k < |buffers| ==> Settled(buffers[k], gpu)
    ensures AllPolled(s, gpu)
  {
    hide Blocked;
    forall st | st in s.buffers ensures Settled(s.buffers[st], gpu) {
      assert s.buffers[st] == buffers[FindStream(ids, st)];
    }
  }

  /** An event that is not complete was not complete before. */
  lemma StillIncomplete(before: Gpu, after: Gpu, event: Event)
    requires Progress(before, after) && !IsComplete(after, event)
    ensures !IsComplete(before, event)
  {
    hide Progress, IsComplete;
    if IsComplete(before, event) {
      CompleteStays(before, after, event);
    }
  }

  lemma BlockedEarlier(before: Gpu, after: Gpu, b: StreamBuffer)
    requires Progress(before, after) && Blocked(b, after)
    ensures Blocked(b, before)
  {
    hide Progress, IsComplete;
    if b.chunks != [] && !IsComplete(after, b.chunks[0].event) {
      StillIncomplete(before, after, b.chunks[0].event);
    }
  }

  lemma GpuOfRun(states: seq<State>, steps: seq<Step>)
    requires IsRun(states, steps)
    ensures GpuOk(states[|states| - 1])
  {
    RunsKeepInvariant(states, steps, |states| - 1);
  }

  lemma EverythingIsUsed(ids: seq<nat>, buffers: seq<StreamBuffer>)
    ensures ids[..|ids|] == ids && buffers[..|buffers|] == buffers
  {
  }

  lemma FreelistOfRun(states: seq<State>, steps: seq<Step>)
    requires IsRun(states, steps)
    ensures var s := states[|states| - 1];
            && FreelistOk(s)
            && s.curCapacity > 0 && s.curCapacity % ALIGNMENT == 0
  {
    RunsKeepInvariant(states, steps, |states| - 1);
  }

  lemma EventsRecorded(before: seq<Chunk>, after: seq<Chunk>, start: nat, stream: nat, first: nat)
    requires start <= |before| == |after|
    requires forall j :: 0 <= j < |before| ==>
      after[j] == if start <= j then before[j].(event := Recorded(stream, first + (j - start))) else before[j]
    ensures after == RecordEvents(before, start, stream, first)
  {
  }

  lemma OpenHasBuffer(states: seq<State>, steps: seq<Step>, st: nat)
    requires IsRun(states, steps) && st in states[|states| - 1].openTransaction
    ensures st in states[|states| - 1].buffers
    ensures states[|states| - 1].openTransaction[st] < |states[|states| - 1].transactions|
  {
    RunsKeepInvariant(states, steps, |states| - 1);
    hide ChunksOk, AllocationsOk, FreelistOk, IsRun;
  }

  /** An empty list has no transaction head. */
  lemma NoHeadNoTransaction(states: seq<State>, steps: seq<Step>, st: nat)
    requires IsRun(states, steps) && st in states[|states| - 1].buffers
    ensures var b := states[|states| - 1].buffers[st];
            b.chunks == [] ==> b.transactionHead == None
  {
    RunsKeepInvariant(states, steps, |states| - 1);
    hide ChunksOk, AllocationsOk, FreelistOk, IsRun;
  }

  function Clamp(x: nat, lo: nat, hi: nat): nat {
    if x < lo then lo else if x > hi then hi else x
  }

  /** The completed counters after the k-th call. */
  function Advanced(gpu: Gpu, progress: (nat, nat) -> nat, k: nat): map<nat, nat> {
    map st | st in gpu.recorded :: Clamp(progress(k, st), At(gpu.completed, st), gpu.recorded[st])
  }

  lemma AdvancedIsProgress(gpu: Gpu, progress: (nat, nat) -> nat, k: nat)
    requires forall st :: At(gpu.completed, st) <= At(gpu.recorded, st)
    ensures Progress(gpu, Gpu(gpu.recorded, Advanced(gpu, progress, k)))
    ensures forall st :: st in gpu.recorded ==>
              var done, p := At(gpu.completed, st), progress(k, st);
              && st in Advanced(gpu, progress, k)
              && (p <= done ==> Advanced(gpu, progress, k)[st] == done)
              && (done <= p <= gpu.recorded[st] ==> Advanced(gpu, progress, k)[st] == p)
              && (p >= gpu.recorded[st] ==> Advanced(gpu, progress, k)[st] == gpu.recorded[st])
  {
    var after := Gpu(gpu.recorded, Advanced(gpu, progress, k));
    forall st ensures At(gpu.completed, st) <= At(after.completed, st) <= At(after.recorded, st) {
      assert At(gpu.completed, st) <= At(gpu.recorded, st);
    }
  }
}

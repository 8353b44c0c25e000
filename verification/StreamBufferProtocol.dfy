/** The stream-ordered chunk allocator as a state machine over its smallest steps, with the CUDA
    streams as part of the state: what holds in every state of every run. */
module StreamBufferProtocol {

  datatype Option<T> = None | Some(value: T)

  const ALIGNMENT: nat := 16

  /** A stream numbers the events recorded on it. An event is complete once its stream has
      completed that many; a stream completes them in order, at any later time. */
  datatype Event = Unrecorded | Recorded(stream: nat, ticket: nat)

  datatype Gpu = Gpu(recorded: map<nat, nat>, completed: map<nat, nat>)

  function At(counters: map<nat, nat>, stream: nat): nat {
    if stream in counters then counters[stream] else 0
  }

  /** A never recorded event counts as complete. */
  predicate IsComplete(gpu: Gpu, event: Event) {
    event.Recorded? ==> event.ticket <= At(gpu.completed, event.stream)
  }

  datatype Chunk = Chunk(id: nat, capacity: nat, available: nat, event: Event)

  /** The chunks of a stream, oldest first. transactionHead names the first chunk that the open
      transaction has allocated from. */
  datatype StreamBuffer = StreamBuffer(open: bool, chunks: seq<Chunk>, transactionHead: Option<nat>)

  // ---- Bookkeeping that the code does not have: who was given which bytes ----

  datatype Transaction = Transaction(stream: nat, closeTicket: Option<nat>)

  datatype Allocation = Allocation(chunk: nat, pos: nat, size: nat, transaction: nat)

  datatype State = State(
    buffers: map<nat, StreamBuffer>, curCapacity: nat, freelist: seq<Chunk>, nextId: nat, gpu: Gpu,
    transactions: seq<Transaction>, openTransaction: map<nat, nat>, allocations: seq<Allocation>)

  /** The device may still use the bytes: the transaction is open, or nothing that was recorded on
      its stream at or after its close has completed. */
  ghost predicate InUse(s: State, a: Allocation)
    requires a.transaction < |s.transactions|
  {
    var t := s.transactions[a.transaction];
    t.closeTicket.Some? ==> At(s.gpu.completed, t.stream) < t.closeTicket.value
  }

  ghost predicate Overlap(a: Allocation, b: Allocation) {
    a.chunk == b.chunk && a.pos < b.pos + b.size && b.pos < a.pos + a.size
  }

  /** Position of a chunk in a list, or the length of the list. */
  function IndexOf(chunks: seq<Chunk>, id: nat): (j: nat)
    ensures j <= |chunks|
    ensures j < |chunks| ==> chunks[j].id == id
    ensures forall k :: 0 <= k < j ==> chunks[k].id != id
  {
    if chunks == [] then 0 else if chunks[0].id == id then 0 else 1 + IndexOf(chunks[1..], id)
  }

  /** Where the open transaction's chunks start. */
  function TransactionStart(b: StreamBuffer): (j: nat)
    ensures j <= |b.chunks|
  {
    match b.transactionHead
    case None => |b.chunks|
    case Some(id) => IndexOf(b.chunks, id)
  }

  function HeadId(b: StreamBuffer): Option<nat> {
    if b.chunks == [] then None else Some(b.chunks[0].id)
  }

  // ---- Steps ----

  datatype Step =
    | Complete(gpu: Gpu)
    | Open(stream: nat)
    | ReclaimHead(stream: nat)
    | DropBuffer(stream: nat)
    | Grow(capacity: nat)
    | AppendFree(stream: nat)
    | AppendNew(stream: nat)
    | Bump(stream: nat, size: nat)
    | Close(stream: nat)

  /** Streams make progress. */
  ghost predicate Progress(before: Gpu, after: Gpu) {
    && after.recorded == before.recorded
    && forall s :: At(before.completed, s) <= At(after.completed, s) <= At(after.recorded, s)
  }

  function RecordEvents(chunks: seq<Chunk>, start: nat, stream: nat, first: nat): seq<Chunk>
    requires start <= |chunks|
  {
    seq(|chunks|, j requires 0 <= j < |chunks| =>
      if j < start then chunks[j] else chunks[j].(event := Recorded(stream, first + (j - start))))
  }

  ghost predicate Enabled(s: State, step: Step) {
    match step
    case Complete(gpu) => Progress(s.gpu, gpu)
    case Open(st) => st in s.buffers ==> !s.buffers[st].open
    case ReclaimHead(st) =>
      st in s.buffers && s.buffers[st].chunks != [] && HeadId(s.buffers[st]) != s.buffers[st].transactionHead
      && IsComplete(s.gpu, s.buffers[st].chunks[0].event)
    case DropBuffer(st) => st in s.buffers && s.buffers[st].chunks == [] && !s.buffers[st].open
    case Grow(capacity) => capacity > 0 && capacity % ALIGNMENT == 0
    case AppendFree(st) => st in s.openTransaction && st in s.buffers && s.freelist != []
    case AppendNew(st) => st in s.openTransaction && st in s.buffers
    case Bump(st, size) =>
      st in s.openTransaction && st in s.buffers && s.buffers[st].chunks != [] && size % ALIGNMENT == 0
      && size <= s.buffers[st].chunks[|s.buffers[st].chunks| - 1].available
    case Close(st) => st in s.openTransaction && st in s.buffers && s.openTransaction[st] < |s.transactions|
  }

  ghost function Apply(s: State, step: Step): State
    requires Enabled(s, step)
  {
    match step
    case Complete(gpu) => s.(gpu := gpu)
    case Open(st) =>
      var b := if st in s.buffers then s.buffers[st] else StreamBuffer(false, [], None);
      s.(buffers := s.buffers[st := b.(open := true, transactionHead := None)],
         openTransaction := s.openTransaction[st := |s.transactions|],
         transactions := s.transactions + [Transaction(st, None)])
    case ReclaimHead(st) =>
      var b := s.buffers[st];
      var chunk := b.chunks[0];
      s.(buffers := s.buffers[st := b.(chunks := b.chunks[1..])],
         freelist := if chunk.capacity == s.curCapacity then [chunk] + s.freelist else s.freelist)
    case DropBuffer(st) => s.(buffers := s.buffers - {st})
    case Grow(capacity) => s.(curCapacity := capacity, freelist := [])
    case AppendFree(st) =>
      var b := s.buffers[st];
      var chunk := s.freelist[0].(available := s.curCapacity);
      s.(buffers := s.buffers[st := AppendTo(b, chunk)], freelist := s.freelist[1..])
    case AppendNew(st) =>
      var b := s.buffers[st];
      var chunk := Chunk(s.nextId, s.curCapacity, s.curCapacity, Unrecorded);
      s.(buffers := s.buffers[st := AppendTo(b, chunk)], nextId := s.nextId + 1)
    case Bump(st, size) =>
      var b := s.buffers[st];
      var k := |b.chunks| - 1;
      var chunk := b.chunks[k].(available := b.chunks[k].available - size);
      s.(buffers := s.buffers[st := b.(chunks := b.chunks[k := chunk],
           transactionHead := if b.transactionHead == None then Some(chunk.id) else b.transactionHead)],
         allocations := s.allocations + [Allocation(chunk.id, chunk.available, size, s.openTransaction[st])])
    case Close(st) =>
      var b := s.buffers[st];
      var start, r, t := TransactionStart(b), At(s.gpu.recorded, st), s.openTransaction[st];
      s.(buffers := s.buffers[st := StreamBuffer(false, RecordEvents(b.chunks, start, st, r + 1), None)],
         gpu := s.gpu.(recorded := s.gpu.recorded[st := r + (|b.chunks| - start)]),
         transactions := s.transactions[t := Transaction(st, Some(r + 1))],
         openTransaction := s.openTransaction - {st})
  }

  /** A chunk joins the list as its new tail. The transaction that asked for it allocates from it
      right away, so it is its first chunk if it has none yet. */
  function AppendTo(b: StreamBuffer, chunk: Chunk): StreamBuffer {
    b.(chunks := b.chunks + [chunk],
       transactionHead := if b.transactionHead == None then Some(chunk.id) else b.transactionHead)
  }

  // ---- The invariant ----

  /** Every chunk that has not been deleted is in exactly one place. */
  datatype Place = Listed(stream: nat, index: nat) | Free(index: nat)

  ghost predicate IsPlace(s: State, p: Place) {
    match p
    case Listed(st, j) => st in s.buffers && j < |s.buffers[st].chunks|
    case Free(j) => j < |s.freelist|
  }

  ghost function ChunkAt(s: State, p: Place): Chunk
    requires IsPlace(s, p)
  {
    match p
    case Listed(st, j) => s.buffers[st].chunks[j]
    case Free(j) => s.freelist[j]
  }

  ghost predicate ChunkOk(s: State, c: Chunk) {
    && c.id < s.nextId
    && c.capacity % ALIGNMENT == 0 && c.available % ALIGNMENT == 0 && c.available <= c.capacity
  }

  ghost predicate ChunksOk(s: State) {
    && s.curCapacity > 0 && s.curCapacity % ALIGNMENT == 0
    && (forall p :: IsPlace(s, p) ==> ChunkOk(s, ChunkAt(s, p)))
    && (forall p, q :: IsPlace(s, p) && IsPlace(s, q) && ChunkAt(s, p).id == ChunkAt(s, q).id ==> p == q)
  }

  /** The CHECK of the fast path. */
  ghost predicate FreelistOk(s: State) {
    forall j :: 0 <= j < |s.freelist| ==> s.freelist[j].capacity == s.curCapacity
  }

  ghost predicate TransactionsOk(s: State) {
    && (forall st :: st in s.buffers && s.buffers[st].open ==> st in s.openTransaction)
    && (forall st :: st in s.openTransaction ==>
          && st in s.buffers && s.buffers[st].open
          && s.openTransaction[st] < |s.transactions|
          && s.transactions[s.openTransaction[st]] == Transaction(st, None))
    && (forall t :: 0 <= t < |s.transactions| && s.transactions[t].closeTicket == None ==>
          s.transactions[t].stream in s.openTransaction && s.openTransaction[s.transactions[t].stream] == t)
    && (forall st :: st in s.buffers && s.buffers[st].transactionHead.Some? ==>
          s.buffers[st].open && TransactionStart(s.buffers[st]) < |s.buffers[st].chunks|)
    && TicketsOk(s)
  }

  /** Tickets of closed transactions have been given out, or are the next. */
  ghost predicate TicketsOk(s: State) {
    forall t :: 0 <= t < |s.transactions| && s.transactions[t].closeTicket.Some? ==>
      s.transactions[t].closeTicket.value <= At(s.gpu.recorded, s.transactions[t].stream) + 1
  }

  /** Events in the lists are recorded on the list's stream, and tickets exist. */
  ghost predicate GpuOk(s: State) {
    && (forall st :: At(s.gpu.completed, st) <= At(s.gpu.recorded, st))
  }

  /** Where the bytes of an allocation in use are, and which event protects them. */
  ghost predicate Located(s: State, a: Allocation)
    requires a.transaction < |s.transactions|
  {
    var t := s.transactions[a.transaction];
    t.stream in s.buffers && LocatedIn(s.buffers[t.stream], t, a)
  }

  ghost predicate LocatedIn(b: StreamBuffer, t: Transaction, a: Allocation) {
    var j := IndexOf(b.chunks, a.chunk);
    j < |b.chunks| &&
    var c := b.chunks[j];
    && c.available <= a.pos && a.pos + a.size <= c.capacity && a.pos % ALIGNMENT == 0
    && match t.closeTicket
       case None => TransactionStart(b) <= j
       case Some(ticket) => c.event.Recorded? && c.event.stream == t.stream && ticket <= c.event.ticket
  }

  ghost predicate AllocationsOk(s: State) {
    && (forall i :: 0 <= i < |s.allocations| ==> s.allocations[i].transaction < |s.transactions|)
    && (forall i :: 0 <= i < |s.allocations| && InUse(s, s.allocations[i]) ==> Located(s, s.allocations[i]))
    && (forall i, j :: 0 <= i < j < |s.allocations| && InUse(s, s.allocations[i]) && InUse(s, s.allocations[j]) ==>
          !Overlap(s.allocations[i], s.allocations[j]))
  }

  ghost predicate Inv(s: State) {
    ChunksOk(s) && FreelistOk(s) && TransactionsOk(s) && GpuOk(s) && AllocationsOk(s)
  }

  // ---- Positions in a list ----

  lemma {:induction false} IndexOfSameIds(a: seq<Chunk>, b: seq<Chunk>, id: nat)
    requires |a| == |b| && forall j :: 0 <= j < |a| ==> a[j].id == b[j].id
    ensures IndexOf(a, id) == IndexOf(b, id)
  {
  }

  lemma {:induction false} IndexOfAppend(a: seq<Chunk>, c: Chunk, id: nat)
    ensures IndexOf(a, id) < |a| ==> IndexOf(a + [c], id) == IndexOf(a, id)
    ensures IndexOf(a, id) == |a| ==> IndexOf(a + [c], id) == if c.id == id then |a| else |a| + 1
  {
    var i, k := IndexOf(a, id), IndexOf(a + [c], id);
    assert forall j :: 0 <= j < |a| ==> (a + [c])[j] == a[j];
    assert (a + [c])[|a|] == c;
  }

  // ---- Each step keeps the invariant ----

  lemma CompleteKeeps(s: State, gpu: Gpu)
    requires Inv(s) && Progress(s.gpu, gpu)
    ensures Inv(Apply(s, Complete(gpu)))
  {
    var s' := Apply(s, Complete(gpu));
    assert forall p :: IsPlace(s', p) <==> IsPlace(s, p);
    assert forall p :: IsPlace(s', p) ==> ChunkAt(s', p) == ChunkAt(s, p);
    forall i | 0 <= i < |s.allocations| && InUse(s', s.allocations[i])
      ensures InUse(s, s.allocations[i]) && Located(s', s.allocations[i])
    {
      assert At(s.gpu.completed, s.transactions[s.allocations[i].transaction].stream)
             <= At(gpu.completed, s.transactions[s.allocations[i].transaction].stream);
    }
  }

  lemma OpenKeeps(s: State, st: nat)
    requires Inv(s) && Enabled(s, Open(st))
    ensures Inv(Apply(s, Open(st)))
  {
    OpenChunks(s, st);
    OpenAllocations(s, st);
  }

  lemma OpenChunks(s: State, st: nat)
    requires Inv(s) && Enabled(s, Open(st))
    ensures var s' := Apply(s, Open(st)); ChunksOk(s') && FreelistOk(s') && TransactionsOk(s')
  {
    OpenTransactions(s, st);
    hide AllocationsOk, GpuOk, TransactionsOk;
    var s' := Apply(s, Open(st));
    assert forall p :: IsPlace(s', p) ==> IsPlace(s, p) && ChunkAt(s', p) == ChunkAt(s, p);
  }

  lemma OpenTransactions(s: State, st: nat)
    requires Inv(s) && Enabled(s, Open(st))
    ensures TransactionsOk(Apply(s, Open(st)))
  {
    hide AllocationsOk, GpuOk, ChunksOk, FreelistOk, TransactionStart, TicketsOk;
    TicketsAfterOpen(s, st);
  }

  lemma TicketsAfterOpen(s: State, st: nat)
    requires TicketsOk(s) && Enabled(s, Open(st))
    ensures TicketsOk(Apply(s, Open(st)))
  {
    hide At;
  }

  lemma OpenAllocations(s: State, st: nat)
    requires Inv(s) && Enabled(s, Open(st))
    ensures AllocationsOk(Apply(s, Open(st))) && GpuOk(Apply(s, Open(st)))
  {
    hide ChunksOk, FreelistOk, IndexOf;
    var s' := Apply(s, Open(st));
    forall i | 0 <= i < |s.allocations| && InUse(s', s.allocations[i])
      ensures InUse(s, s.allocations[i]) && Located(s', s.allocations[i])
    {
      assert InUse(s, s.allocations[i]);
      assert Located(s, s.allocations[i]);
    }
  }

  lemma ReclaimHeadKeeps(s: State, st: nat)
    requires Inv(s) && Enabled(s, ReclaimHead(st))
    ensures Inv(Apply(s, ReclaimHead(st)))
  {
    ReclaimHeadChunks(s, st);
    ReclaimHeadTransactions(s, st);
    ReclaimHeadAllocations(s, st);
  }

  lemma ReclaimHeadChunks(s: State, st: nat)
    requires Inv(s) && Enabled(s, ReclaimHead(st))
    ensures var s' := Apply(s, ReclaimHead(st)); ChunksOk(s') && FreelistOk(s')
  {
    hide TransactionsOk, AllocationsOk, GpuOk;
    var s' := Apply(s, ReclaimHead(st));
    forall p | IsPlace(s', p)
      ensures IsPlace(s, PlaceBeforeReclaim(s, st, p))
      ensures ChunkAt(s, PlaceBeforeReclaim(s, st, p)) == ChunkAt(s', p) && ChunkOk(s', ChunkAt(s', p))
    {
      assert ChunkOk(s, ChunkAt(s, PlaceBeforeReclaim(s, st, p)));
    }
    forall p, q | IsPlace(s', p) && IsPlace(s', q) && ChunkAt(s', p).id == ChunkAt(s', q).id
      ensures p == q
    {
      assert PlaceBeforeReclaim(s, st, p) == PlaceBeforeReclaim(s, st, q);
    }
  }

  /** A chunk that may leave its list holds nothing in use. */
  lemma HeadHoldsNothing(s: State, st: nat, a: Allocation)
    requires ChunksOk(s) && TransactionsOk(s) && Enabled(s, ReclaimHead(st))
    requires a.transaction < |s.transactions| && Located(s, a)
    requires a.chunk == s.buffers[st].chunks[0].id
    ensures !InUse(s, a)
  {
    LocatedWhereItIs(s, st, a);
  }

  lemma LocatedWhereItIs(s: State, st: nat, a: Allocation)
    requires ChunksOk(s) && st in s.buffers && s.buffers[st].chunks != []
    requires a.transaction < |s.transactions| && Located(s, a)
    requires a.chunk == s.buffers[st].chunks[0].id
    ensures s.transactions[a.transaction].stream == st && IndexOf(s.buffers[st].chunks, a.chunk) == 0
  {
    var x := s.transactions[a.transaction].stream;
    var j := IndexOf(s.buffers[x].chunks, a.chunk);
    assert ChunkAt(s, Listed(x, j)).id == ChunkAt(s, Listed(st, 0)).id;
    assert Listed(x, j) == Listed(st, 0);
  }

  lemma ReclaimHeadTransactions(s: State, st: nat)
    requires Inv(s) && Enabled(s, ReclaimHead(st))
    ensures var s' := Apply(s, ReclaimHead(st)); TransactionsOk(s') && GpuOk(s')
    ensures var s' := Apply(s, ReclaimHead(st));
            TransactionStart(s'.buffers[st]) + 1 == TransactionStart(s.buffers[st])
  {
    hide ChunksOk, FreelistOk, ChunkOk, AllocationsOk;
  }

  lemma ReclaimHeadAllocations(s: State, st: nat)
    requires Inv(s) && Enabled(s, ReclaimHead(st))
    ensures AllocationsOk(Apply(s, ReclaimHead(st)))
  {
    hide ChunksOk, FreelistOk, TransactionsOk, TransactionStart, GpuOk, IndexOf, Located, Overlap;
    var s' := Apply(s, ReclaimHead(st));
    forall i | 0 <= i < |s.allocations| && InUse(s', s.allocations[i])
      ensures Located(s', s.allocations[i])
    {
      assert InUse(s, s.allocations[i]);
      ReclaimHeadKeepsOne(s, st, s.allocations[i]);
    }
  }

  lemma ReclaimHeadKeepsOne(s: State, st: nat, a: Allocation)
    requires Inv(s) && Enabled(s, ReclaimHead(st))
    requires a.transaction < |s.transactions| && InUse(s, a) && Located(s, a)
    ensures Located(Apply(s, ReclaimHead(st)), a)
  {
    ReclaimHeadTransactions(s, st);
    hide ChunksOk, FreelistOk, TransactionsOk, AllocationsOk, TransactionStart, GpuOk;
    var b, b' := s.buffers[st], Apply(s, ReclaimHead(st)).buffers[st];
    if a.chunk == b.chunks[0].id {
      HeadHoldsNothing(s, st, a);
    } else if s.transactions[a.transaction].stream == st {
      assert IndexOf(b'.chunks, a.chunk) + 1 == IndexOf(b.chunks, a.chunk);
    }
  }

  ghost function PlaceBeforeReclaim(s: State, st: nat, p: Place): Place
    requires st in s.buffers && s.buffers[st].chunks != []
  {
    match p
    case Listed(x, j) => if x == st then Listed(x, j + 1) else p
    case Free(j) =>
      if s.buffers[st].chunks[0].capacity != s.curCapacity then p
      else if j == 0 then Listed(st, 0) else Free(j - 1)
  }

  lemma DropBufferKeeps(s: State, st: nat)
    requires Inv(s) && Enabled(s, DropBuffer(st))
    ensures Inv(Apply(s, DropBuffer(st)))
  {
    var s' := Apply(s, DropBuffer(st));
    assert forall p :: IsPlace(s', p) ==> IsPlace(s, p) && ChunkAt(s', p) == ChunkAt(s, p);
    forall i | 0 <= i < |s.allocations| && InUse(s', s.allocations[i])
      ensures Located(s', s.allocations[i])
    {
      assert InUse(s, s.allocations[i]) && Located(s, s.allocations[i]);
    }
  }

  lemma GrowKeeps(s: State, capacity: nat)
    requires Inv(s) && Enabled(s, Grow(capacity))
    ensures Inv(Apply(s, Grow(capacity)))
  {
    var s' := Apply(s, Grow(capacity));
    assert forall p :: IsPlace(s', p) ==> IsPlace(s, p) && ChunkAt(s', p) == ChunkAt(s, p);
    forall i | 0 <= i < |s.allocations| && InUse(s', s.allocations[i])
      ensures Located(s', s.allocations[i])
    {
      assert InUse(s, s.allocations[i]) && Located(s, s.allocations[i]);
    }
  }

  /** A new tail, whose id is in none of the stream lists, changes nothing for what is in use. */
  lemma AppendedAllocations(s: State, s': State, st: nat, chunk: Chunk)
    requires Inv(s) && st in s.openTransaction
    requires s'.buffers == s.buffers[st := AppendTo(s.buffers[st], chunk)]
    requires s'.allocations == s.allocations && s'.transactions == s.transactions && s'.gpu == s.gpu
    requires s'.openTransaction == s.openTransaction
    requires forall j :: 0 <= j < |s.buffers[st].chunks| ==> s.buffers[st].chunks[j].id != chunk.id
    ensures AllocationsOk(s') && TransactionsOk(s')
  {
    hide IndexOf, ChunksOk, FreelistOk, LocatedIn, TransactionStart, TicketsOk, AppendTo;
    var b, b' := s.buffers[st], s'.buffers[st];
    AppendedBuffer(b, chunk);
    assert TicketsOk(s') by { SameTickets(s, s'); }
    forall i | 0 <= i < |s.allocations| && InUse(s', s.allocations[i])
      ensures Located(s', s.allocations[i])
    {
      var a := s.allocations[i];
      assert InUse(s, a) && Located(s, a);
      if s.transactions[a.transaction].stream == st {
        LocatedAfterAppend(b, chunk, s.transactions[a.transaction], a);
      }
    }
  }

  lemma SameTickets(s: State, s': State)
    requires TicketsOk(s) && s'.transactions == s.transactions && s'.gpu == s.gpu
    ensures TicketsOk(s')
  {
  }

  lemma AppendedBuffer(b: StreamBuffer, chunk: Chunk)
    requires b.transactionHead.Some? ==> TransactionStart(b) < |b.chunks|
    requires forall j :: 0 <= j < |b.chunks| ==> b.chunks[j].id != chunk.id
    ensures var b' := AppendTo(b, chunk);
            && b'.open == b.open && b'.transactionHead.Some? && TransactionStart(b') == TransactionStart(b)
            && |b'.chunks| == |b.chunks| + 1
  {
    hide IndexOf;
    IndexOfAppend(b.chunks, chunk, chunk.id);
    if b.transactionHead.Some? {
      IndexOfAppend(b.chunks, chunk, b.transactionHead.value);
    }
  }

  lemma LocatedAfterAppend(b: StreamBuffer, chunk: Chunk, t: Transaction, a: Allocation)
    requires LocatedIn(b, t, a) && TransactionStart(AppendTo(b, chunk)) == TransactionStart(b)
    requires forall j :: 0 <= j < |b.chunks| ==> b.chunks[j].id != chunk.id
    ensures LocatedIn(AppendTo(b, chunk), t, a)
  {
    hide IndexOf, TransactionStart;
    IndexOfAppend(b.chunks, chunk, a.chunk);
  }

  lemma AppendFreeKeeps(s: State, st: nat)
    requires Inv(s) && Enabled(s, AppendFree(st))
    ensures Inv(Apply(s, AppendFree(st)))
  {
    var s' := Apply(s, AppendFree(st));
    var b := s.buffers[st];
    assert s.freelist[0] == ChunkAt(s, Free(0));
    forall j | 0 <= j < |b.chunks| ensures b.chunks[j].id != s.freelist[0].id {
      assert ChunkAt(s, Listed(st, j)).id != ChunkAt(s, Free(0)).id;
    }
    AppendedAllocations(s, s', st, s.freelist[0].(available := s.curCapacity));
    AppendFreeChunks(s, st);
    hide AllocationsOk, TransactionsOk, ChunksOk;
  }

  lemma AppendFreeChunks(s: State, st: nat)
    requires ChunksOk(s) && FreelistOk(s) && Enabled(s, AppendFree(st))
    ensures ChunksOk(Apply(s, AppendFree(st))) && FreelistOk(Apply(s, AppendFree(st)))
  {
    var s' := Apply(s, AppendFree(st));
    assert IsPlace(s, Free(0)) && s.freelist[0] == ChunkAt(s, Free(0));
    forall p | IsPlace(s', p)
      ensures ChunkOk(s', ChunkAt(s', p))
      ensures IsPlace(s, PlaceBeforeAppend(s, st, p))
      ensures ChunkAt(s, PlaceBeforeAppend(s, st, p)).id == ChunkAt(s', p).id
    {
      assert ChunkOk(s, ChunkAt(s, PlaceBeforeAppend(s, st, p)));
    }
    forall p, q | IsPlace(s', p) && IsPlace(s', q) && ChunkAt(s', p).id == ChunkAt(s', q).id
      ensures p == q
    {
      assert PlaceBeforeAppend(s, st, p) == PlaceBeforeAppend(s, st, q);
    }
  }

  ghost function PlaceBeforeAppend(s: State, st: nat, p: Place): Place
    requires st in s.buffers
  {
    match p
    case Listed(x, j) => if x == st && j == |s.buffers[st].chunks| then Free(0) else p
    case Free(j) => Free(j + 1)
  }

  lemma AppendNewKeeps(s: State, st: nat)
    requires Inv(s) && Enabled(s, AppendNew(st))
    ensures Inv(Apply(s, AppendNew(st)))
  {
    var s' := Apply(s, AppendNew(st));
    var b := s.buffers[st];
    forall j | 0 <= j < |b.chunks| ensures b.chunks[j].id != s.nextId {
      assert ChunkOk(s, ChunkAt(s, Listed(st, j)));
    }
    AppendedAllocations(s, s', st, Chunk(s.nextId, s.curCapacity, s.curCapacity, Unrecorded));
    AppendNewChunks(s, st);
    hide AllocationsOk, TransactionsOk, ChunksOk;
  }

  lemma AppendNewChunks(s: State, st: nat)
    requires ChunksOk(s) && FreelistOk(s) && Enabled(s, AppendNew(st))
    ensures ChunksOk(Apply(s, AppendNew(st))) && FreelistOk(Apply(s, AppendNew(st)))
  {
    var s' := Apply(s, AppendNew(st));
    forall p | IsPlace(s', p) && p != Listed(st, |s.buffers[st].chunks|)
      ensures IsPlace(s, p) && ChunkAt(s', p) == ChunkAt(s, p) && ChunkOk(s, ChunkAt(s, p))
    {
    }
  }

  lemma BumpKeeps(s: State, st: nat, size: nat)
    requires Inv(s) && Enabled(s, Bump(st, size))
    ensures Inv(Apply(s, Bump(st, size)))
  {
    BumpChunks(s, st, size);
    BumpTransactions(s, st, size);
    BumpAllocations(s, st, size);
  }

  lemma BumpChunks(s: State, st: nat, size: nat)
    requires Inv(s) && Enabled(s, Bump(st, size))
    ensures var s' := Apply(s, Bump(st, size)); ChunksOk(s') && FreelistOk(s')
  {
    hide TransactionsOk, AllocationsOk, GpuOk;
    var s' := Apply(s, Bump(st, size));
    forall p | IsPlace(s', p)
      ensures IsPlace(s, p) && ChunkAt(s', p).id == ChunkAt(s, p).id && ChunkOk(s', ChunkAt(s', p))
    {
      BumpKeepsPlace(s, st, size, p);
    }
    SameIdsKeepChunks(s, s');
  }

  lemma BumpKeepsPlace(s: State, st: nat, size: nat, p: Place)
    requires ChunksOk(s) && Enabled(s, Bump(st, size))
    requires IsPlace(Apply(s, Bump(st, size)), p)
    ensures var s' := Apply(s, Bump(st, size));
            IsPlace(s, p) && ChunkAt(s', p).id == ChunkAt(s, p).id && ChunkOk(s', ChunkAt(s', p))
  {
    assert IsPlace(s, p);
    assert ChunkOk(s, ChunkAt(s, p));
  }

  lemma SameIdsKeepChunks(s: State, s': State)
    requires ChunksOk(s) && s'.curCapacity == s.curCapacity
    requires forall p :: IsPlace(s', p) ==>
               IsPlace(s, p) && ChunkAt(s', p).id == ChunkAt(s, p).id && ChunkOk(s', ChunkAt(s', p))
    ensures ChunksOk(s')
  {
  }

  /** The tail of the list is where its id is found. */
  lemma TailIndex(s: State, st: nat)
    requires ChunksOk(s) && st in s.buffers && s.buffers[st].chunks != []
    ensures var chunks := s.buffers[st].chunks; IndexOf(chunks, chunks[|chunks| - 1].id) == |chunks| - 1
  {
    var chunks := s.buffers[st].chunks;
    var k := |chunks| - 1;
    var j := IndexOf(chunks, chunks[k].id);
    assert ChunkAt(s, Listed(st, k)) == chunks[k];
    assert ChunkAt(s, Listed(st, j)) == chunks[j];
  }

  lemma BumpTransactions(s: State, st: nat, size: nat)
    requires Inv(s) && Enabled(s, Bump(st, size))
    ensures var s' := Apply(s, Bump(st, size)); TransactionsOk(s') && GpuOk(s')
    ensures var s' := Apply(s, Bump(st, size));
            TransactionStart(s'.buffers[st])
            == if s.buffers[st].transactionHead == None then |s.buffers[st].chunks| - 1
               else TransactionStart(s.buffers[st])
  {
    hide IndexOf, ChunksOk, FreelistOk, AllocationsOk;
    var s' := Apply(s, Bump(st, size));
    var b, b' := s.buffers[st], s'.buffers[st];
    forall id ensures IndexOf(b'.chunks, id) == IndexOf(b.chunks, id) {
      IndexOfSameIds(b.chunks, b'.chunks, id);
    }
    TailIndex(s, st);
  }

  lemma BumpAllocations(s: State, st: nat, size: nat)
    requires Inv(s) && Enabled(s, Bump(st, size))
    ensures AllocationsOk(Apply(s, Bump(st, size)))
  {
    hide IndexOf, TransactionStart, FreelistOk, Located;
    var s' := Apply(s, Bump(st, size));
    var n := |s.allocations|;
    var given := s'.allocations[n];
    forall i | 0 <= i < n && InUse(s', s.allocations[i])
      ensures InUse(s, s.allocations[i]) && Located(s', s.allocations[i]) && !Overlap(s.allocations[i], given)
    {
      BumpKeepsOld(s, st, size, i);
    }
    BumpLocatesGiven(s, st, size);
  }

  lemma BumpLocatesGiven(s: State, st: nat, size: nat)
    requires Inv(s) && Enabled(s, Bump(st, size))
    ensures var s' := Apply(s, Bump(st, size));
            var given := s'.allocations[|s.allocations|];
            given.transaction < |s'.transactions| && Located(s', given)
  {
    hide IndexOf, TransactionsOk, TransactionStart, FreelistOk, AllocationsOk, ChunksOk, GpuOk;
    BumpTransactions(s, st, size);
    TailIndex(s, st);
    OpenTransactionIsOpen(s, st);
    TailOk(s, st);
    var s' := Apply(s, Bump(st, size));
    var b, b' := s.buffers[st], s'.buffers[st];
    var k := |b.chunks| - 1;
    IndexOfSameIds(b.chunks, b'.chunks, b.chunks[k].id);
    assert ChunkOk(s, b.chunks[k]);
    var given := s'.allocations[|s.allocations|];
    assert given.chunk == b.chunks[k].id && given.pos == b'.chunks[k].available;
  }

  lemma TailOk(s: State, st: nat)
    requires ChunksOk(s) && st in s.buffers && s.buffers[st].chunks != []
    ensures ChunkOk(s, s.buffers[st].chunks[|s.buffers[st].chunks| - 1])
  {
    assert IsPlace(s, Listed(st, |s.buffers[st].chunks| - 1));
  }

  lemma OpenTransactionIsOpen(s: State, st: nat)
    requires TransactionsOk(s) && st in s.openTransaction
    ensures s.openTransaction[st] < |s.transactions|
    ensures s.transactions[s.openTransaction[st]] == Transaction(st, None)
    ensures st in s.buffers && TransactionStart(s.buffers[st]) <= |s.buffers[st].chunks|
    ensures s.buffers[st].transactionHead.Some? ==> TransactionStart(s.buffers[st]) < |s.buffers[st].chunks|
  {
  }

  lemma BumpKeepsOld(s: State, st: nat, size: nat, i: nat)
    requires Inv(s) && Enabled(s, Bump(st, size)) && i < |s.allocations|
    requires InUse(Apply(s, Bump(st, size)), s.allocations[i])
    ensures var s' := Apply(s, Bump(st, size));
            && InUse(s, s.allocations[i]) && Located(s', s.allocations[i])
            && !Overlap(s.allocations[i], s'.allocations[|s.allocations|])
  {
    hide Located, InUse, Overlap, Apply, Enabled, ChunksOk, FreelistOk, TransactionsOk, GpuOk;
    var a := s.allocations[i];
    BumpKeepsUse(s, st, size, a);
    BumpKeepsLocated(s, st, size, a);
    BumpIsElsewhere(s, st, size, a);
  }

  lemma BumpKeepsUse(s: State, st: nat, size: nat, a: Allocation)
    requires Enabled(s, Bump(st, size)) && a.transaction < |s.transactions|
    ensures var s' := Apply(s, Bump(st, size)); a.transaction < |s'.transactions| && (InUse(s', a) <==> InUse(s, a))
  {
  }

  lemma BumpKeepsLocated(s: State, st: nat, size: nat, a: Allocation)
    requires Inv(s) && Enabled(s, Bump(st, size)) && a.transaction < |s.transactions| && Located(s, a)
    ensures Located(Apply(s, Bump(st, size)), a)
  {
    hide Inv, TransactionStart, LocatedIn, IndexOf;
    var s' := Apply(s, Bump(st, size));
    BumpTransactions(s, st, size);
    if s.transactions[a.transaction].stream == st {
      LocatedAfterBump(s.buffers[st], s'.buffers[st], s.transactions[a.transaction], size, a);
    }
  }

  lemma LocatedAfterBump(b: StreamBuffer, b': StreamBuffer, t: Transaction, size: nat, a: Allocation)
    requires b.chunks != [] && LocatedIn(b, t, a)
    requires var k := |b.chunks| - 1;
             size <= b.chunks[k].available
             && b'.chunks == b.chunks[k := b.chunks[k].(available := b.chunks[k].available - size)]
    requires b.transactionHead.Some? ==> TransactionStart(b') == TransactionStart(b)
    ensures LocatedIn(b', t, a)
  {
    IndexOfSameIds(b.chunks, b'.chunks, a.chunk);
    hide IndexOf;
  }

  lemma BumpIsElsewhere(s: State, st: nat, size: nat, a: Allocation)
    requires Inv(s) && Enabled(s, Bump(st, size)) && a.transaction < |s.transactions| && Located(s, a)
    ensures !Overlap(a, Apply(s, Bump(st, size)).allocations[|s.allocations|])
  {
    ElsewhereOrAbove(s, st, a);
    hide Inv, Located;
  }

  /** Bytes in use are in another chunk than the tail, or above its free part. */
  lemma ElsewhereOrAbove(s: State, st: nat, a: Allocation)
    requires ChunksOk(s) && st in s.buffers && s.buffers[st].chunks != []
    requires a.transaction < |s.transactions| && Located(s, a)
    ensures var tail := s.buffers[st].chunks[|s.buffers[st].chunks| - 1];
            a.chunk == tail.id ==> tail.available <= a.pos && a.pos + a.size <= tail.capacity
  {
    hide TransactionStart;
    var k := |s.buffers[st].chunks| - 1;
    var x := s.transactions[a.transaction].stream;
    var j := IndexOf(s.buffers[x].chunks, a.chunk);
    assert ChunkAt(s, Listed(x, j)).id == a.chunk;
    assert ChunkAt(s, Listed(st, k)) == s.buffers[st].chunks[k];
  }

  /** A transaction that has no first chunk yet has allocated nothing. */
  lemma NoHeadNoOpenAllocation(s: State, a: Allocation)
    requires a.transaction < |s.transactions| && Located(s, a)
    requires s.transactions[a.transaction].stream in s.buffers
    requires s.buffers[s.transactions[a.transaction].stream].transactionHead == None
    ensures s.transactions[a.transaction].closeTicket.Some?
  {
  }

  lemma CloseKeeps(s: State, st: nat)
    requires Inv(s) && Enabled(s, Close(st))
    ensures Inv(Apply(s, Close(st)))
  {
    CloseChunks(s, st);
    CloseTransactions(s, st);
    CloseAllocations(s, st);
  }

  lemma CloseChunks(s: State, st: nat)
    requires Inv(s) && Enabled(s, Close(st))
    ensures var s' := Apply(s, Close(st)); ChunksOk(s') && FreelistOk(s')
  {
    hide TransactionsOk, AllocationsOk, GpuOk;
    var s' := Apply(s, Close(st));
    SameIdsKeepChunks(s, s') by {
      forall p | IsPlace(s', p)
        ensures IsPlace(s, p) && ChunkAt(s', p).id == ChunkAt(s, p).id && ChunkOk(s', ChunkAt(s', p))
      {
        assert IsPlace(s, p);
        assert ChunkOk(s, ChunkAt(s, p));
      }
    }
  }

  lemma CloseTransactions(s: State, st: nat)
    requires Inv(s) && Enabled(s, Close(st))
    ensures var s' := Apply(s, Close(st)); TransactionsOk(s') && GpuOk(s')
  {
    hide IndexOf, ChunksOk, FreelistOk, AllocationsOk, RecordEvents, TransactionStart, TicketsOk;
    TicketsAfterClose(s, st);
  }

  lemma TicketsAfterClose(s: State, st: nat)
    requires TicketsOk(s) && Enabled(s, Close(st)) && TransactionStart(s.buffers[st]) <= |s.buffers[st].chunks|
    ensures TicketsOk(Apply(s, Close(st)))
  {
    hide IndexOf, RecordEvents, TransactionStart;
    var s' := Apply(s, Close(st));
    assert forall x :: At(s.gpu.recorded, x) <= At(s'.gpu.recorded, x);
  }

  lemma CloseAllocations(s: State, st: nat)
    requires Inv(s) && Enabled(s, Close(st))
    ensures AllocationsOk(Apply(s, Close(st)))
  {
    hide IndexOf, ChunksOk, FreelistOk;
    var s' := Apply(s, Close(st));
    var b, b' := s.buffers[st], s'.buffers[st];
    forall id ensures IndexOf(b'.chunks, id) == IndexOf(b.chunks, id) {
      IndexOfSameIds(b.chunks, b'.chunks, id);
    }
    forall i | 0 <= i < |s.allocations| && InUse(s', s.allocations[i])
      ensures InUse(s, s.allocations[i]) && Located(s', s.allocations[i])
    {
      var a := s.allocations[i];
      assert InUse(s, a) && Located(s, a);
    }
  }

  lemma StepKeeps(s: State, step: Step)
    requires Inv(s) && Enabled(s, step)
    ensures Inv(Apply(s, step))
  {
    hide Inv, Apply;
    match step
    case Complete(gpu) => CompleteKeeps(s, gpu);
    case Open(st) => OpenKeeps(s, st);
    case ReclaimHead(st) => ReclaimHeadKeeps(s, st);
    case DropBuffer(st) => DropBufferKeeps(s, st);
    case Grow(capacity) => GrowKeeps(s, capacity);
    case AppendFree(st) => AppendFreeKeeps(s, st);
    case AppendNew(st) => AppendNewKeeps(s, st);
    case Bump(st, size) => BumpKeeps(s, st, size);
    case Close(st) => CloseKeeps(s, st);
  }

  // ---- Runs ----

  const INITIAL_CAPACITY: nat := 32 * 1024

  ghost predicate Initial(s: State) {
    && s.buffers == map[] && s.freelist == [] && s.nextId == 0 && s.curCapacity == INITIAL_CAPACITY
    && s.transactions == [] && s.openTransaction == map[] && s.allocations == []
    && forall st :: At(s.gpu.completed, st) <= At(s.gpu.recorded, st)
  }

  ghost predicate IsRun(states: seq<State>, steps: seq<Step>) {
    && |states| == |steps| + 1
    && Initial(states[0])
    && forall i :: 0 <= i < |steps| ==> Enabled(states[i], steps[i]) && states[i + 1] == Apply(states[i], steps[i])
  }

  lemma {:induction false} RunsKeepInvariant(states: seq<State>, steps: seq<Step>, k: nat)
    requires IsRun(states, steps) && k < |states|
    ensures Inv(states[k])
  {
    if k > 0 {
      RunsKeepInvariant(states, steps, k - 1);
      hide Inv, Apply, Enabled;
      StepKeeps(states[k - 1], steps[k - 1]);
    }
  }

  /** Some event recorded on the allocation's stream, at or after its transaction's close, has
      completed. */
  ghost predicate Released(s: State, a: Allocation)
    requires a.transaction < |s.transactions|
  {
    var t := s.transactions[a.transaction];
    t.closeTicket.Some? && t.closeTicket.value <= At(s.gpu.completed, t.stream)
  }

  ghost predicate InsideItsChunk(s: State, a: Allocation)
    requires a.transaction < |s.transactions|
  {
    var st := s.transactions[a.transaction].stream;
    exists j :: IsPlace(s, Listed(st, j)) &&
      var c := ChunkAt(s, Listed(st, j));
      c.id == a.chunk && a.pos + a.size <= c.capacity && a.pos % 16 == 0
  }

  /** In every state of every run: what is in use lies inside a chunk of its own stream, 16-byte
      aligned; two allocations in use do not share a byte; no chunk is in two places; and the
      free list holds chunks of the current capacity only. */
  lemma RunsAreSafe(states: seq<State>, steps: seq<Step>, k: nat)
    requires IsRun(states, steps) && k < |states|
    ensures var s := states[k];
            && (forall i :: 0 <= i < |s.allocations| ==> s.allocations[i].transaction < |s.transactions|)
            && (forall i :: 0 <= i < |s.allocations| && !Released(s, s.allocations[i]) ==>
                  InsideItsChunk(s, s.allocations[i]))
            && (forall i, j | 0 <= i < j < |s.allocations| :: !Overlap(s.allocations[i], s.allocations[j])
                  || Released(s, s.allocations[i]) || Released(s, s.allocations[j]))
            && (forall p, q :: IsPlace(s, p) && IsPlace(s, q) && ChunkAt(s, p).id == ChunkAt(s, q).id ==> p == q)
            && (forall j :: 0 <= j < |s.freelist| ==> s.freelist[j].capacity == s.curCapacity)
  {
    RunsKeepInvariant(states, steps, k);
    hide IsRun, TransactionsOk, IndexOf, TransactionStart;
    var s := states[k];
    forall i | 0 <= i < |s.allocations| && !Released(s, s.allocations[i])
      ensures InsideItsChunk(s, s.allocations[i])
    {
      var a := s.allocations[i];
      assert InUse(s, a) && Located(s, a);
      var st := s.transactions[a.transaction].stream;
      assert IsPlace(s, Listed(st, IndexOf(s.buffers[st].chunks, a.chunk)));
    }
  }

  /** Bytes are given out again only after whoever had them was released. */
  lemma ReuseAfterRelease(states: seq<State>, steps: seq<Step>, k: nat, i: nat)
    requires IsRun(states, steps) && k < |steps| && steps[k].Bump?
    requires i < |states[k].allocations|
    requires Overlap(states[k].allocations[i], states[k + 1].allocations[|states[k].allocations|])
    ensures states[k].allocations[i].transaction < |states[k].transactions|
    ensures Released(states[k], states[k].allocations[i])
  {
    RunsKeepInvariant(states, steps, k);
    RunsKeepInvariant(states, steps, k + 1);
    hide Inv, Enabled;
    BumpLog(states[k], steps[k]);
    AllocationsOfInv(states[k]);
    AllocationsOfInv(states[k + 1]);
    var n := |states[k].allocations|;
    var given := states[k + 1].allocations[n];
    assert states[k + 1].allocations[i] == states[k].allocations[i];
    assert InUse(states[k + 1], given);
  }

  lemma AllocationsOfInv(s: State)
    requires Inv(s)
    ensures AllocationsOk(s) && TransactionsOk(s)
  {
  }

  lemma BumpLog(s: State, step: Step)
    requires Inv(s) && step.Bump? && Enabled(s, step)
    ensures var s' := Apply(s, step);
            && s'.transactions == s.transactions && s'.gpu == s.gpu
            && |s'.allocations| == |s.allocations| + 1
            && (forall i :: 0 <= i < |s.allocations| ==> s'.allocations[i] == s.allocations[i])
            && s'.allocations[|s.allocations|].transaction < |s.transactions|
            && s.transactions[s'.allocations[|s.allocations|].transaction].closeTicket == None
  {
    OpenTransactionIsOpen(s, step.stream);
  }

  /** A chunk that leaves its stream's list, to be reused or deleted, holds nothing in use. */
  lemma ReclaimedIsReleased(states: seq<State>, steps: seq<Step>, k: nat, i: nat)
    requires IsRun(states, steps) && k < |steps| && steps[k].ReclaimHead?
    requires i < |states[k].allocations|
    requires steps[k].stream in states[k].buffers && states[k].buffers[steps[k].stream].chunks != []
    requires states[k].allocations[i].chunk == states[k].buffers[steps[k].stream].chunks[0].id
    ensures states[k].allocations[i].transaction < |states[k].transactions|
    ensures Released(states[k], states[k].allocations[i])
  {
    RunsKeepInvariant(states, steps, k);
    var s, st := states[k], steps[k].stream;
    assert Enabled(s, steps[k]);
    var a := s.allocations[i];
    if InUse(s, a) {
      assert Located(s, a);
      HeadHoldsNothing(s, st, a);
    }
  }

  /** Once released, an allocation stays released. */
  lemma ReleaseIsFinal(s: State, step: Step, a: Allocation)
    requires Inv(s) && Enabled(s, step) && a.transaction < |s.transactions| && Released(s, a)
    ensures a.transaction < |Apply(s, step).transactions| && Released(Apply(s, step), a)
  {
    hide IndexOf, ChunksOk, AllocationsOk, RecordEvents;
    if step.Complete? {
      var st := s.transactions[a.transaction].stream;
      assert At(s.gpu.completed, st) <= At(step.gpu.completed, st);
    }
  }
}

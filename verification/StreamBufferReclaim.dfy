/** What polling the streams gives back: which chunks leave the lists, where they go, and when there
    is one to use again. */
module StreamBufferReclaim {
  import opened StreamBufferProtocol

  /** One stream's list, before and after. Chunks leave it from the head, once their events have
      completed; those of the current capacity are on the free list then. */
  ghost predicate ListGivesBack(
      before: StreamBuffer, after: StreamBuffer, capacity: nat, gpu: Gpu, freelist: seq<Chunk>)
  {
    && after.open == before.open && after.transactionHead == before.transactionHead
    && |after.chunks| <= |before.chunks|
    && var gone := |before.chunks| - |after.chunks|;
       && after.chunks == before.chunks[gone..]
       && LeftTheList(before.chunks[..gone], capacity, gpu, freelist)
  }

  ghost predicate LeftTheList(chunks: seq<Chunk>, capacity: nat, gpu: Gpu, freelist: seq<Chunk>) {
    forall c :: c in chunks ==> IsComplete(gpu, c.event) && (c.capacity == capacity ==> c in freelist)
  }

  /** A stream buffer is dropped once it is closed and its whole list has been given back. */
  ghost predicate StreamGivesBack(s: State, t: State, st: nat)
    requires st in s.buffers
  {
    if st in t.buffers then ListGivesBack(s.buffers[st], t.buffers[st], s.curCapacity, t.gpu, t.freelist)
    else !s.buffers[st].open && LeftTheList(s.buffers[st].chunks, s.curCapacity, t.gpu, t.freelist)
  }

  ghost predicate IsSuffix<T>(tail: seq<T>, whole: seq<T>) {
    |tail| <= |whole| && whole[|whole| - |tail|..] == tail
  }

  /** Nothing else changes, apart from the progress of the streams. */
  ghost predicate GivesBack(s: State, t: State) {
    && t.curCapacity == s.curCapacity && t.nextId == s.nextId && t.transactions == s.transactions
    && t.openTransaction == s.openTransaction && t.allocations == s.allocations
    && Progress(s.gpu, t.gpu) && IsSuffix(s.freelist, t.freelist)
    && t.buffers.Keys <= s.buffers.Keys
    && forall st :: st in s.buffers ==> StreamGivesBack(s, t, st)
  }

  // ---- The steps ----

  lemma CompleteStays(before: Gpu, after: Gpu, event: Event)
    requires Progress(before, after) && IsComplete(before, event)
    ensures IsComplete(after, event)
  {
    if event.Recorded? {
      assert At(before.completed, event.stream) <= At(after.completed, event.stream);
    }
  }

  lemma LeftStays(chunks: seq<Chunk>, capacity: nat, gpu: Gpu, freelist: seq<Chunk>, gpu': Gpu, freelist': seq<Chunk>)
    requires LeftTheList(chunks, capacity, gpu, freelist) && Progress(gpu, gpu') && IsSuffix(freelist, freelist')
    ensures LeftTheList(chunks, capacity, gpu', freelist')
  {
    hide Progress, IsComplete;
    forall c | c in chunks ensures IsComplete(gpu', c.event) && (c.capacity == capacity ==> c in freelist') {
      CompleteStays(gpu, gpu', c.event);
      if c.capacity == capacity {
        assert c in freelist'[|freelist'| - |freelist|..];
      }
    }
  }

  lemma LeftTogether(a: seq<Chunk>, b: seq<Chunk>, capacity: nat, gpu: Gpu, freelist: seq<Chunk>)
    requires LeftTheList(a, capacity, gpu, freelist) && LeftTheList(b, capacity, gpu, freelist)
    ensures LeftTheList(a + b, capacity, gpu, freelist)
  {
  }

  lemma SuffixTransitive<T>(a: seq<T>, b: seq<T>, c: seq<T>)
    requires IsSuffix(a, b) && IsSuffix(b, c)
    ensures IsSuffix(a, c)
  {
    assert c[|c| - |a|..] == c[|c| - |b|..][|b| - |a|..];
  }

  lemma ListTransitive(a: StreamBuffer, b: StreamBuffer, c: StreamBuffer, capacity: nat,
                       gpu: Gpu, freelist: seq<Chunk>, gpu': Gpu, freelist': seq<Chunk>)
    requires ListGivesBack(a, b, capacity, gpu, freelist) && ListGivesBack(b, c, capacity, gpu', freelist')
    requires Progress(gpu, gpu') && IsSuffix(freelist, freelist')
    ensures ListGivesBack(a, c, capacity, gpu', freelist')
  {
    hide LeftTheList, Progress, IsSuffix;
    var first, second := |a.chunks| - |b.chunks|, |b.chunks| - |c.chunks|;
    LeftStays(a.chunks[..first], capacity, gpu, freelist, gpu', freelist');
    LeftTogether(a.chunks[..first], b.chunks[..second], capacity, gpu', freelist');
    assert a.chunks[..first + second] == a.chunks[..first] + b.chunks[..second];
    assert a.chunks[first + second..] == c.chunks;
  }

  lemma ListDropped(a: StreamBuffer, b: StreamBuffer, capacity: nat,
                    gpu: Gpu, freelist: seq<Chunk>, gpu': Gpu, freelist': seq<Chunk>)
    requires ListGivesBack(a, b, capacity, gpu, freelist) && LeftTheList(b.chunks, capacity, gpu', freelist')
    requires Progress(gpu, gpu') && IsSuffix(freelist, freelist')
    ensures LeftTheList(a.chunks, capacity, gpu', freelist')
  {
    hide LeftTheList, Progress, IsSuffix;
    var first := |a.chunks| - |b.chunks|;
    LeftStays(a.chunks[..first], capacity, gpu, freelist, gpu', freelist');
    LeftTogether(a.chunks[..first], b.chunks, capacity, gpu', freelist');
    assert a.chunks == a.chunks[..first] + b.chunks;
  }

  lemma ProgressTransitive(a: Gpu, b: Gpu, c: Gpu)
    requires Progress(a, b) && Progress(b, c)
    ensures Progress(a, c)
  {
    forall s ensures At(a.completed, s) <= At(c.completed, s) <= At(c.recorded, s) {
      assert At(a.completed, s) <= At(b.completed, s) <= At(c.completed, s);
    }
  }

  lemma GivesBackTransitive(a: State, b: State, c: State)
    requires GivesBack(a, b) && GivesBack(b, c)
    ensures GivesBack(a, c)
  {
    hide LeftTheList, ListGivesBack, Progress, IsSuffix;
    ProgressTransitive(a.gpu, b.gpu, c.gpu);
    SuffixTransitive(a.freelist, b.freelist, c.freelist);
    forall st | st in a.buffers ensures StreamGivesBack(a, c, st) {
      assert StreamGivesBack(a, b, st);
      if st in b.buffers {
        assert StreamGivesBack(b, c, st);
        if st in c.buffers {
          ListTransitive(a.buffers[st], b.buffers[st], c.buffers[st], a.curCapacity,
                         b.gpu, b.freelist, c.gpu, c.freelist);
        } else {
          ListDropped(a.buffers[st], b.buffers[st], a.curCapacity, b.gpu, b.freelist, c.gpu, c.freelist);
          SameOpen(a.buffers[st], b.buffers[st], a.curCapacity, b.gpu, b.freelist);
        }
      } else {
        LeftStays(a.buffers[st].chunks, a.curCapacity, b.gpu, b.freelist, c.gpu, c.freelist);
      }
    }
  }

  lemma SameOpen(a: StreamBuffer, b: StreamBuffer, capacity: nat, gpu: Gpu, freelist: seq<Chunk>)
    requires ListGivesBack(a, b, capacity, gpu, freelist)
    ensures b.open == a.open
  {
  }

  lemma ListKept(b: StreamBuffer, capacity: nat, gpu: Gpu, freelist: seq<Chunk>)
    ensures ListGivesBack(b, b, capacity, gpu, freelist)
  {
  }

  lemma GivesBackNothing(s: State)
    requires GpuOk(s)
    ensures GivesBack(s, s)
  {
    hide ListGivesBack;
    forall st | st in s.buffers ensures StreamGivesBack(s, s, st) {
      ListKept(s.buffers[st], s.curCapacity, s.gpu, s.freelist);
    }
  }

  lemma SuffixItself<T>(s: seq<T>)
    ensures IsSuffix(s, s)
  {
  }

  lemma SuffixOfLonger<T>(x: T, s: seq<T>)
    ensures IsSuffix(s, [x] + s)
  {
  }

  /** Streams that a step does not touch. */
  lemma StreamKept(s: State, t: State, st: nat)
    requires st in s.buffers && st in t.buffers && t.buffers[st] == s.buffers[st]
    ensures StreamGivesBack(s, t, st)
  {
    hide ListGivesBack;
    ListKept(s.buffers[st], s.curCapacity, t.gpu, t.freelist);
  }

  lemma CompleteGivesBack(s: State, gpu: Gpu)
    requires Enabled(s, Complete(gpu))
    ensures GivesBack(s, Apply(s, Complete(gpu)))
  {
    hide StreamGivesBack, Progress, IsSuffix;
    var t := Apply(s, Complete(gpu));
    SuffixItself(s.freelist);
    forall st | st in s.buffers ensures StreamGivesBack(s, t, st) {
      StreamKept(s, t, st);
    }
  }

  lemma DropGivesBack(s: State, st: nat)
    requires GpuOk(s) && Enabled(s, DropBuffer(st))
    ensures GivesBack(s, Apply(s, DropBuffer(st)))
  {
    hide StreamGivesBack, Progress, GpuOk, IsSuffix;
    var t := Apply(s, DropBuffer(st));
    GpuIsProgress(s);
    SuffixItself(s.freelist);
    forall u | u in s.buffers ensures StreamGivesBack(s, t, u) {
      if u == st {
        StreamDropped(s, t, st);
      } else {
        StreamKept(s, t, u);
      }
    }
  }

  lemma StreamDropped(s: State, t: State, st: nat)
    requires st in s.buffers && st !in t.buffers && s.buffers[st].chunks == [] && !s.buffers[st].open
    ensures StreamGivesBack(s, t, st)
  {
    hide LeftTheList;
    NothingLeft(s.curCapacity, t.gpu, t.freelist);
  }

  lemma ReclaimHeadGivesBack(s: State, st: nat)
    requires GpuOk(s) && Enabled(s, ReclaimHead(st))
    ensures GivesBack(s, Apply(s, ReclaimHead(st)))
  {
    hide StreamGivesBack, Progress, GpuOk, IsComplete, HeadId, IsSuffix;
    var t := Apply(s, ReclaimHead(st));
    GpuIsProgress(s);
    SuffixItself(s.freelist);
    SuffixOfLonger(s.buffers[st].chunks[0], s.freelist);
    forall u | u in s.buffers ensures StreamGivesBack(s, t, u) {
      if u == st {
        HeadReclaimed(s, t, st);
      } else {
        StreamKept(s, t, u);
      }
    }
  }

  lemma HeadReclaimed(s: State, t: State, st: nat)
    requires st in s.buffers && s.buffers[st].chunks != [] && IsComplete(t.gpu, s.buffers[st].chunks[0].event)
    requires st in t.buffers && t.buffers[st] == s.buffers[st].(chunks := s.buffers[st].chunks[1..])
    requires s.buffers[st].chunks[0].capacity == s.curCapacity ==>
               t.freelist != [] && t.freelist[0] == s.buffers[st].chunks[0]
    ensures StreamGivesBack(s, t, st)
  {
    hide LeftTheList, IsComplete;
    var chunks := s.buffers[st].chunks;
    assert chunks[..1] == [chunks[0]];
    HeadLeft(chunks[0], s.curCapacity, t.gpu, t.freelist);
  }

  lemma StepGivesBack(s: State, step: Step)
    requires GpuOk(s) && Enabled(s, step) && (step.Complete? || step.ReclaimHead? || step.DropBuffer?)
    ensures GivesBack(s, Apply(s, step))
  {
    hide GpuOk, Enabled, Apply, GivesBack;
    match step {
      case Complete(gpu) => CompleteGivesBack(s, gpu);
      case ReclaimHead(st) => ReclaimHeadGivesBack(s, st);
      case DropBuffer(st) => DropGivesBack(s, st);
      case _ =>
    }
  }

  lemma GpuIsProgress(s: State)
    requires GpuOk(s)
    ensures Progress(s.gpu, s.gpu)
  {
  }

  lemma NothingLeft(capacity: nat, gpu: Gpu, freelist: seq<Chunk>)
    ensures LeftTheList([], capacity, gpu, freelist)
  {
  }

  lemma HeadLeft(head: Chunk, capacity: nat, gpu: Gpu, freelist: seq<Chunk>)
    requires IsComplete(gpu, head.event) && (head.capacity == capacity ==> freelist != [] && freelist[0] == head)
    ensures LeftTheList([head], capacity, gpu, freelist)
  {
  }

  // ---- Nothing is left behind ----

  /** The poll of a stream stops at its head: it belongs to the open transaction, or its event had
      not completed. */
  ghost predicate Blocked(b: StreamBuffer, gpu: Gpu) {
    HeadId(b) == b.transactionHead || (b.chunks != [] && !IsComplete(gpu, b.chunks[0].event))
  }

  /** Every stream has been polled, and its buffer dropped if it had become empty. */
  ghost predicate AllPolled(t: State, gpu: Gpu) {
    forall st :: st in t.buffers ==>
      (t.buffers[st].open || t.buffers[st].chunks != []) && Blocked(t.buffers[st], gpu)
  }

  /** A chunk that no transaction needs any more: it and all chunks before it have completed, and
      the open transaction starts later. */
  ghost predicate Finished(b: StreamBuffer, gpu: Gpu, j: nat) {
    j < TransactionStart(b) && forall k :: 0 <= k <= j ==> IsComplete(gpu, b.chunks[k].event)
  }

  /** There is a chunk of the current capacity to be used again, if the streams have got this far. */
  ghost predicate CanReuse(s: State, gpu: Gpu) {
    s.freelist != [] || exists st: nat, j: nat :: IsReusable(s, gpu, st, j)
  }

  ghost predicate IsReusable(s: State, gpu: Gpu, st: nat, j: nat) {
    && st in s.buffers && Finished(s.buffers[st], gpu, j)
    && s.buffers[st].chunks[j].capacity == s.curCapacity
  }

  lemma FinishedBelow(b: StreamBuffer, gpu: Gpu, j: nat, k: nat)
    requires Finished(b, gpu, j) && k <= j
    ensures k < |b.chunks| && IsComplete(gpu, b.chunks[k].event) && b.transactionHead != Some(b.chunks[k].id)
  {
    hide IsComplete;
  }

  lemma BlockedHead(b: StreamBuffer, gpu: Gpu)
    requires Blocked(b, gpu) && b.chunks != []
    ensures b.transactionHead == Some(b.chunks[0].id) || !IsComplete(gpu, b.chunks[0].event)
  {
    hide IsComplete;
  }

  /** All finished chunks leave their list. */
  lemma FinishedLeaves(before: StreamBuffer, after: StreamBuffer, capacity: nat, gpu: Gpu, freelist: seq<Chunk>,
                       first: Gpu, j: nat)
    requires ListGivesBack(before, after, capacity, gpu, freelist)
    requires Blocked(after, first) && Finished(before, first, j)
    ensures j < |before.chunks| - |after.chunks|
  {
    hide LeftTheList, Blocked, Finished, IsComplete;
    var gone := |before.chunks| - |after.chunks|;
    if gone <= j {
      FinishedBelow(before, first, j, gone);
      BlockedHead(after, first);
    }
  }

  /** After a poll of all streams, the free list has a chunk if there was one to be used again. */
  lemma PolledIsReused(s: State, t: State, gpu: Gpu)
    requires GivesBack(s, t) && AllPolled(t, gpu) && CanReuse(s, gpu)
    ensures t.freelist != []
  {
    hide LeftTheList, ListGivesBack, Blocked, Finished, Progress, IsComplete;
    if s.freelist == [] {
      var st: nat, j: nat :| IsReusable(s, gpu, st, j);
      FinishedIsFree(s, t, gpu, st, j);
    }
  }

  /** Every finished chunk of the current capacity is on the free list then. */
  lemma FinishedIsFree(s: State, t: State, gpu: Gpu, st: nat, j: nat)
    requires GivesBack(s, t) && AllPolled(t, gpu) && IsReusable(s, gpu, st, j)
    ensures s.buffers[st].chunks[j] in t.freelist
  {
    hide Blocked, Finished, Progress, IsComplete, IsSuffix;
    var chunks := s.buffers[st].chunks;
    assert StreamGivesBack(s, t, st);
    if st in t.buffers {
      FinishedLeaves(s.buffers[st], t.buffers[st], s.curCapacity, t.gpu, t.freelist, gpu, j);
      assert chunks[..|chunks| - |t.buffers[st].chunks|][j] == chunks[j];
    } else {
      FinishedInList(s.buffers[st], gpu, j);
    }
  }

  lemma FinishedInList(b: StreamBuffer, gpu: Gpu, j: nat)
    requires Finished(b, gpu, j)
    ensures j < |b.chunks|
  {
  }
}

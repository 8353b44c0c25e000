/** How many accesses a call of dtype_name makes before it returns. The counter of named dtypes has
    as many bits as an id has, so it wraps around once the last id has been named; whether a call
    returns then is answered here for every id, every state and every interleaving. */
module DTypeNaming {
  import opened DTypeInterning

  // ---- Executions ----

  ghost predicate Reachable(s: State) {
    exists states: seq<State>, steps: seq<Step> :: IsRun(states, steps) && states[|steps|] == s
  }

  ghost function After(s: State, steps: seq<Step>): State {
    if steps == [] then s
    else
      var before := After(s, steps[..|steps| - 1]);
      if Enabled(before, steps[|steps| - 1]) then Apply(before, steps[|steps| - 1]) else before
  }

  /** From s on, the steps can be taken one after the other. */
  ghost predicate Possible(s: State, steps: seq<Step>) {
    steps == [] ||
    (Possible(s, steps[..|steps| - 1]) && Enabled(After(s, steps[..|steps| - 1]), steps[|steps| - 1]))
  }

  function Accesses(steps: seq<Step>, t: nat): nat {
    if steps == [] then 0
    else
      Accesses(steps[..|steps| - 1], t)
      + if steps[|steps| - 1].Act? && steps[|steps| - 1].thread == t then 1 else 0
  }

  /** Thread t begins no other call. */
  predicate SameCall(steps: seq<Step>, t: nat) {
    forall k :: 0 <= k < |steps| && steps[k].thread == t ==> steps[k].Act?
  }

  predicate InCall(th: Thread, id: nat) { th.Naming? && th.frames != [] && th.frames[0].id == id }

  lemma StepIsReachable(s: State, step: Step)
    requires Reachable(s) && Enabled(s, step)
    ensures Reachable(Apply(s, step))
  {
    hide Enabled, Apply, Initial;
    var states: seq<State>, steps: seq<Step> :| IsRun(states, steps) && states[|steps|] == s;
    var states', steps' := states + [Apply(s, step)], steps + [step];
    forall k | 0 <= k < |steps'|
      ensures Enabled(states'[k], steps'[k]) && states'[k + 1] == Apply(states'[k], steps'[k])
    {
      if k < |steps| {
        assert Enabled(states[k], steps[k]) && states[k + 1] == Apply(states[k], steps[k]);
      }
    }
    assert IsRun(states', steps') && states'[|steps'|] == Apply(s, step);
  }

  lemma {:induction false} AfterIsReachable(s: State, steps: seq<Step>)
    requires Reachable(s) && Possible(s, steps)
    ensures Reachable(After(s, steps))
  {
    hide Reachable, Enabled, Apply;
    if steps != [] {
      AfterIsReachable(s, steps[..|steps| - 1]);
      StepIsReachable(After(s, steps[..|steps| - 1]), steps[|steps| - 1]);
    }
  }

  // ---- The invariant ----

  function Next(at: NamePoint): nat {
    match at
    case Loop(n) => n
    case CheckNext(n) => n
    case Make(n) => n
    case AwaitPointee(n, _) => n
    case SetName(n, _) => n
    case Advance(n) => n
    case _ => 0
  }

  /** Looping for the last id, past any allocation. */
  predicate Spins(th: Thread) {
    InCall(th, LAST_ID) && |th.frames| == 1
    && var at := th.frames[0].at; at.Loop? || at.CheckNext? || at.Advance?
  }

  /** Until the last id has a name, the counter does not wrap around; and no call for the last id
      leaves the loop with a name. */
  predicate CounterOk(m: Memory, th: Thread) {
    && (LAST_ID !in m.names && th.Naming? && th.frames != [] ==> Next(th.frames[0].at) <= m.numNamed)
    && (InCall(th, LAST_ID) ==> !th.frames[0].at.LoadResult?)
  }

  predicate SomeoneSpins(threads: seq<Thread>) {
    exists v :: 0 <= v < |threads| && Spins(threads[v])
  }

  /** Names are given in order, so with the last id all have one; and who gave it that name is
      looping. */
  predicate LastOk(s: State) {
    && (LAST_ID in s.memory.names ==> NamedBelow(s.memory, TWO_32) && SomeoneSpins(s.threads))
    && forall t :: 0 <= t < |s.threads| ==> CounterOk(s.memory, s.threads[t])
  }

  /** No dtype has a greater id. */
  lemma KnownIsSmall(m: Memory, id: nat)
    requires RecordsOk(m) && Known(m, id)
    ensures id <= LAST_ID
  {
  }

  lemma NameActKeepsCounter(m: Memory, frames: seq<Frame>, hasMemory: bool)
    requires MemoryOk(m) && FramesOk(m, frames) && CounterOk(m, Naming(frames))
    ensures var (m', th') := NameAct(m, frames, hasMemory);
            && (LAST_ID !in m'.names ==> m.numNamed <= m'.numNamed)
            && CounterOk(m', th')
            && (th'.Naming? ==> InCall(th', frames[0].id))
  {
    hide TypeName, Format, NameOk, SlotsOk, RecordsOk, NameAct, NamedBelow, FrameAct;
    if |frames| == 1 {
      assert frames == [frames[0]];
      OneFrame(m, frames[0], hasMemory);
      FrameActKeepsCounter(m, frames[0], hasMemory);
    } else {
      TwoFrames(m, frames, hasMemory);
    }
  }

  lemma FrameActKeepsCounter(m: Memory, f: Frame, hasMemory: bool)
    requires m.numNamed < TWO_32 && FrameOk(m, f) && CounterOk(m, Naming([f])) && !f.at.AwaitPointee?
    ensures var (m', outcome) := FrameAct(m, f, hasMemory);
            && (LAST_ID !in m'.names ==> m.numNamed <= m'.numNamed)
            && match outcome
               case GoesOn(at) => CounterOk(m', Naming([f.(at := at)]))
               case Calls(at, pointee) => CounterOk(m', Naming([f.(at := at), Frame(pointee, CheckCached)]))
               case _ => true
  {
    hide TypeName, Format, NameOk;
    if f.at.Advance? {
      assert f.at.next in m.names;
    } else {
      hide NamedBelow;
    }
  }

  lemma LastNameSpins(m: Memory, frames: seq<Frame>, hasMemory: bool)
    requires MemoryOk(m) && FramesOk(m, frames) && LAST_ID !in m.names
    ensures var (m', th') := NameAct(m, frames, hasMemory);
            LAST_ID in m'.names ==> NamedBelow(m', TWO_32) && Spins(th')
  {
    hide TypeName, Format, NameOk, SlotsOk, NameAct;
    KnownIsSmall(m, frames[0].id);
    hide RecordsOk;
    if |frames| == 1 {
      assert frames == [frames[0]];
      OneFrame(m, frames[0], hasMemory);
    } else {
      TwoFrames(m, frames, hasMemory);
    }
  }

  lemma SpinnerSpins(m: Memory, th: Thread, hasMemory: bool)
    requires Spins(th) && m.numNamed < TWO_32 && NamedBelow(m, TWO_32)
    requires FrameOk(m, th.frames[0])
    ensures Spins(NameAct(m, th.frames, hasMemory).1)
  {
    hide TypeName, Format, NameOk, NameAct;
    assert th.frames == [th.frames[0]];
    OneFrame(m, th.frames[0], hasMemory);
  }

  lemma NameStepKeepsLast(s: State, t: nat, hasMemory: bool)
    requires Inv(s) && LastOk(s) && s.memory.failed == None && t < |s.threads| && s.threads[t].Naming?
    ensures var (m', th') := NameAct(s.memory, s.threads[t].frames, hasMemory); LastOk(State(m', s.threads[t := th']))
  {
    assert ThreadOk(s.memory, t, s.threads[t]);
    var m, frames, threads := s.memory, s.threads[t].frames, s.threads;
    var (m', th') := NameAct(m, frames, hasMemory);
    NameKeepsMemory(m, frames, hasMemory);
    NameActKeepsCounter(m, frames, hasMemory);
    hide NameAct, FrameOk, Spins, MemoryOk;
    var after := threads[t := th'];
    forall u | 0 <= u < |after| ensures CounterOk(m', after[u]) {
      if u != t {
        assert CounterOk(m, threads[u]);
      }
    }
    if LAST_ID in m.names {
      var v :| 0 <= v < |threads| && Spins(threads[v]);
      if v == t {
        SpinnerStays(m, threads[t], hasMemory);
      }
      assert Spins(after[v]);
    } else if LAST_ID in m'.names {
      LastNameSpins(m, frames, hasMemory);
      assert Spins(after[t]);
    }
  }

  lemma SpinnerStays(m: Memory, th: Thread, hasMemory: bool)
    requires Spins(th) && MemoryOk(m) && NamedBelow(m, TWO_32) && FramesOk(m, th.frames)
    ensures Spins(NameAct(m, th.frames, hasMemory).1)
  {
    hide TypeName, NameAct;
    SpinnerSpins(m, th, hasMemory);
  }

  lemma StepKeepsLast(s: State, step: Step)
    requires Inv(s) && LastOk(s) && Enabled(s, step)
    ensures LastOk(Apply(s, step))
  {
    hide MemoryOk, InternOk, FramesOk, NameAct, Obtainable;
    var t, s' := step.thread, Apply(s, step);
    if step.Act? && s.threads[t].Naming? {
      NameStepKeepsLast(s, t, step.hasMemory);
    } else {
      assert s'.memory.names == s.memory.names && s'.memory.numNamed == s.memory.numNamed;
      forall u | 0 <= u < |s'.threads| ensures CounterOk(s'.memory, s'.threads[u]) {
        if u != t {
          assert CounterOk(s.memory, s.threads[u]);
        }
      }
      if LAST_ID in s.memory.names {
        var v :| 0 <= v < |s.threads| && Spins(s.threads[v]);
        assert v != t && Spins(s'.threads[v]);
      }
    }
  }

  ghost predicate Good(s: State) { Inv(s) && LastOk(s) }

  lemma {:induction false} RunsKeepLast(states: seq<State>, steps: seq<Step>, k: nat)
    requires IsRun(states, steps) && k < |states|
    ensures Good(states[k])
  {
    RunsKeepInvariant(states, steps, k);
    if k > 0 {
      RunsKeepLast(states, steps, k - 1);
      assert Enabled(states[k - 1], steps[k - 1]);
      hide Inv, LastOk, Enabled, Apply;
      StepKeepsLast(states[k - 1], steps[k - 1]);
    }
  }

  lemma ReachableIsGood(s: State)
    requires Reachable(s)
    ensures Good(s)
  {
    hide Inv, LastOk, Enabled, Apply;
    var states: seq<State>, steps: seq<Step> :| IsRun(states, steps) && states[|steps|] == s;
    RunsKeepLast(states, steps, |steps|);
  }

  // ---- Bounds ----

  /** An upper bound on how many more accesses a call makes while the counter does not wrap around. */
  function Rank(f: Frame): int {
    match f.at
    case CheckCached => 6 * f.id + 10
    case LoadCounter => 6 * f.id + 9
    case Loop(n) => if n <= f.id then 6 * (f.id - n) + 8 else 2
    case CheckNext(n) => 6 * (f.id - n) + 7
    case Make(n) => 6 * (f.id - n) + 6
    case AwaitPointee(n, _) => 6 * (f.id - n) + 5
    case SetName(n, _) => 6 * (f.id - n) + 4
    case Advance(n) => 6 * (f.id - n) + 3
    case LoadResult => 1
  }

  /** At its first access, or past the loop. */
  predicate Returning(f: Frame) { f.at.CheckCached? || f.at.LoadResult? || (f.at.Loop? && f.at.next > f.id) }

  /** No other thread can hold the call up. */
  predicate Prompt(m: Memory, f: Frame) {
    LAST_ID !in m.names || (NamedBelow(m, TWO_32) && (f.id == 0 || Returning(f)))
  }

  /** Each access brings the call nearer to its end, whatever the others have done meanwhile. */
  lemma NameActIsProgress(m: Memory, frames: seq<Frame>, hasMemory: bool)
    requires MemoryOk(m) && FramesOk(m, frames) && CounterOk(m, Naming(frames)) && Prompt(m, frames[0])
    ensures Rank(frames[0]) > 0
    ensures var th' := NameAct(m, frames, hasMemory).1;
            th'.Named? || (InCall(th', frames[0].id) && Rank(th'.frames[0]) < Rank(frames[0])
                           && (LAST_ID in m.names && Returning(frames[0]) ==> Returning(th'.frames[0])))
  {
    hide TypeName, Format, NameOk, SlotsOk, NameAct, FrameAct;
    KnownIsSmall(m, frames[0].id);
    hide RecordsOk, NamedBelow;
    if |frames| == 2 {
      TwoFrames(m, frames, hasMemory);
    } else {
      assert frames == [frames[0]];
      OneFrame(m, frames[0], hasMemory);
      if frames[0].at.Make? {
        MakeIsProgress(m, frames[0], hasMemory);
      } else {
        OneFrameIsProgress(m, frames[0], hasMemory);
      }
    }
  }

  lemma MakeIsProgress(m: Memory, f: Frame, hasMemory: bool)
    requires MemoryOk(m) && FrameOk(m, f) && f.at.Make?
    ensures Rank(f) > 0
    ensures match FrameAct(m, f, hasMemory).1
            case GoesOn(at) => Rank(f.(at := at)) < Rank(f)
            case Calls(at, _) => Rank(f.(at := at)) < Rank(f)
            case Returns(_) => true
            case Aborts => false
  {
    hide TypeName, Format, NameOk, NamesOk, SlotsOk, NamedBelow;
    if f.at.next >= FIRST_DERIVED {
      KnownBelow(m, f.id, f.at.next);
    }
  }

  lemma OneFrameIsProgress(m: Memory, f: Frame, hasMemory: bool)
    requires FrameOk(m, f) && !f.at.Make? && !f.at.AwaitPointee? && f.id <= LAST_ID && m.numNamed < TWO_32
    requires CounterOk(m, Naming([f])) && Prompt(m, f)
    ensures Rank(f) > 0
    ensures match FrameAct(m, f, hasMemory).1
            case GoesOn(at) =>
              && Rank(f.(at := at)) < Rank(f)
              && (LAST_ID in m.names && Returning(f) ==> Returning(f.(at := at)))
            case Returns(_) => true
            case _ => false
  {
    hide TypeName, Format, NameOk;
    if f.at.Advance? {
      AdvanceIsProgress(m, f);
    } else if f.at.CheckCached? {
      CachedWithLast(m, f);
    }
  }

  lemma CachedWithLast(m: Memory, f: Frame)
    requires f.id <= LAST_ID && (LAST_ID in m.names ==> NamedBelow(m, TWO_32))
    ensures LAST_ID in m.names ==> f.id in m.names
  {
  }

  /** The counter is not behind, and does not wrap around: whoever wins, the call gets on. */
  lemma AdvanceIsProgress(m: Memory, f: Frame)
    requires m.numNamed < TWO_32 && FrameOk(m, f) && f.at.Advance? && f.id <= LAST_ID
    requires CounterOk(m, Naming([f])) && Prompt(m, f)
    ensures f.id == 0 || (f.at.next < LAST_ID && f.at.next <= m.numNamed)
    ensures f.id == 0 ==> f.at.next == 0
  {
    hide TypeName;
    if f.id != 0 {
      assert f.at.next in m.names;
    }
  }

  predicate StillNaming(s: State, t: nat) { t < |s.threads| && s.threads[t].Naming? }

  /** A thread that is in a call after a step and has begun none was in it before. */
  lemma CallBefore(s: State, step: Step, t: nat)
    requires Reachable(s) && Enabled(s, step) && (step.thread == t ==> step.Act?)
    requires StillNaming(Apply(s, step), t)
    ensures StillNaming(s, t) && s.threads[t].frames != []
    ensures InCall(Apply(s, step).threads[t], s.threads[t].frames[0].id)
    ensures step.thread != t ==> Apply(s, step).threads[t] == s.threads[t]
  {
    ReachableIsGood(s);
    hide MemoryOk, InternOk, FrameOk, NameAct, Obtainable, Reachable;
    assert t < |s.threads| && ThreadOk(s.memory, t, s.threads[t]) && CounterOk(s.memory, s.threads[t]);
    if step.thread == t && s.threads[t].Naming? {
      NameActKeepsCounter(s.memory, s.threads[t].frames, step.hasMemory);
    }
  }

  /** What is left of the call shrinks by at least the n accesses it has made. */
  predicate Counted(m: Memory, f: Frame, n: nat, m': Memory, f': Frame) {
    (LAST_ID !in m'.names || f.id == 0 || (LAST_ID in m.names && Returning(f))) ==>
      n + Rank(f') <= Rank(f) && (LAST_ID in m.names && Returning(f) ==> Returning(f'))
  }

  lemma {:induction false} AccessesCount(s: State, steps: seq<Step>, t: nat)
    requires Reachable(s) && Possible(s, steps) && SameCall(steps, t) && StillNaming(After(s, steps), t)
    ensures StillNaming(s, t) && s.threads[t].frames != []
    ensures InCall(After(s, steps).threads[t], s.threads[t].frames[0].id)
    ensures Extends(s.memory, After(s, steps).memory)
    ensures Counted(s.memory, s.threads[t].frames[0], Accesses(steps, t),
                    After(s, steps).memory, After(s, steps).threads[t].frames[0])
  {
    if steps == [] {
      ReachableIsGood(s);
      assert ThreadOk(s.memory, t, s.threads[t]);
    } else {
      var last := |steps| - 1;
      var before, step := After(s, steps[..last]), steps[last];
      assert After(s, steps) == Apply(before, step) && Enabled(before, step);
      assert Accesses(steps, t) == Accesses(steps[..last], t) + if step.Act? && step.thread == t then 1 else 0;
      AfterIsReachable(s, steps[..last]);
      hide Reachable, Enabled, Apply, Possible, After, Accesses, Counted, Extends, InCall;
      CallBefore(before, step, t);
      AccessesCount(s, steps[..last], t);
      StepCounts(s.memory, s.threads[t].frames[0], Accesses(steps[..last], t), before, step, t);
    }
  }

  lemma StepCounts(m: Memory, f: Frame, n: nat, s: State, step: Step, t: nat)
    requires Reachable(s) && Enabled(s, step) && StillNaming(s, t) && InCall(s.threads[t], f.id)
    requires Extends(m, s.memory) && Counted(m, f, n, s.memory, s.threads[t].frames[0])
    requires StillNaming(Apply(s, step), t) && (step.thread == t ==> step.Act?)
    ensures Extends(m, Apply(s, step).memory) && InCall(Apply(s, step).threads[t], f.id)
    ensures Counted(m, f, if step.thread == t then n + 1 else n,
                    Apply(s, step).memory, Apply(s, step).threads[t].frames[0])
  {
    ReachableIsGood(s);
    var s' := Apply(s, step);
    StepKeeps(s, step);
    ExtendsTransitively(m, s.memory, s'.memory);
    LastStaysNamed(m, s.memory);
    LastStaysNamed(s.memory, s'.memory);
    CallBefore(s, step, t);
    if step.thread == t {
      AccessApplies(s, t, step.hasMemory);
      hide Apply, Enabled, Reachable, Extends, Rank, Returning;
      assert ThreadOk(s.memory, t, s.threads[t]) && CounterOk(s.memory, s.threads[t]);
      hide MemoryOk, FrameOk, FramesOk, NameAct, NamedBelow, Inv, CounterOk;
      if LAST_ID !in s'.memory.names || f.id == 0 || (LAST_ID in m.names && Returning(f)) {
        NameActIsProgress(s.memory, s.threads[t].frames, step.hasMemory);
      }
    } else {
      hide *;
      SameCount(m, f, n, s.memory, s'.memory, s.threads[t].frames[0]);
    }
  }

  lemma LastStaysNamed(m: Memory, m': Memory)
    requires Extends(m, m')
    ensures LAST_ID in m.names ==> LAST_ID in m'.names
  {
  }

  lemma SameCount(m: Memory, f: Frame, n: nat, now: Memory, later: Memory, g: Frame)
    requires Counted(m, f, n, now, g) && (LAST_ID in now.names ==> LAST_ID in later.names)
    ensures Counted(m, f, n, later, g)
  {
    hide Rank, Returning;
  }

  lemma AccessApplies(s: State, t: nat, hasMemory: bool)
    requires StillNaming(s, t) && s.threads[t].frames != [] && Enabled(s, Act(t, hasMemory))
    ensures var (m', th') := NameAct(s.memory, s.threads[t].frames, hasMemory);
            Apply(s, Act(t, hasMemory)) == State(m', s.threads[t := th'])
  {
    hide NameAct, InternAct, Obtainable;
  }

  /** Until the last id has a name, a call of dtype_name makes at most 6 id + 10 accesses; and a call
      for id 0 does so whenever it is made. */
  lemma DTypeNameIsWaitFree(s: State, steps: seq<Step>, t: nat, id: nat)
    requires Reachable(s) && t < |s.threads| && s.threads[t] == Naming([Frame(id, CheckCached)])
    requires Possible(s, steps) && SameCall(steps, t) && StillNaming(After(s, steps), t)
    requires LAST_ID !in After(s, steps).memory.names || id == 0
    ensures Accesses(steps, t) < 6 * id + 10
  {
    AccessesCount(s, steps, t);
    RankIsPositive(s, steps, t);
  }

  lemma RankIsPositive(s: State, steps: seq<Step>, t: nat)
    requires Reachable(s) && Possible(s, steps) && StillNaming(After(s, steps), t)
    ensures After(s, steps).threads[t].frames != [] && Rank(After(s, steps).threads[t].frames[0]) > 0
  {
    var s' := After(s, steps);
    AfterIsReachable(s, steps);
    ReachableIsGood(s');
    hide Reachable, Possible, After;
    assert ThreadOk(s'.memory, t, s'.threads[t]);
    hide TypeName, NamedBelow, MemoryOk;
  }

  // ---- Calls for the last id ----

  /** Past the first access of a call for the last id. */
  predicate Stuck(th: Thread) { InCall(th, LAST_ID) && !th.frames[0].at.CheckCached? && !th.frames[0].at.LoadResult? }

  /** No 32-bit counter is above the last id. */
  lemma StuckStaysStuck(m: Memory, th: Thread)
    requires MemoryOk(m) && Stuck(th) && FramesOk(m, th.frames)
    ensures Stuck(NameAct(m, th.frames, true).1)
  {
    hide TypeName, Format, NameOk, SlotsOk, NamedBelow, NameAct;
    var frames := th.frames;
    if |frames| == 1 {
      assert frames == [frames[0]];
      OneFrame(m, frames[0], true);
      if frames[0].at.Make? && frames[0].at.next >= FIRST_DERIVED {
        KnownBelow(m, frames[0].id, frames[0].at.next);
      }
    } else {
      TwoFrames(m, frames, true);
    }
  }

  lemma StuckAfterStep(s: State, step: Step, t: nat)
    requires Reachable(s) && Enabled(s, step) && t < |s.threads| && Stuck(s.threads[t]) && step != Act(t, false)
    ensures t < |Apply(s, step).threads| && Stuck(Apply(s, step).threads[t])
  {
    ReachableIsGood(s);
    assert ThreadOk(s.memory, t, s.threads[t]);
    hide MemoryOk, NameAct, FramesOk, Reachable, Obtainable;
    if step.thread == t {
      StuckStaysStuck(s.memory, s.threads[t]);
    }
  }

  /** Once a call for the last id is past its first access, it is in progress for ever, unless an
      allocation of its own fails; and it is never blocked. */
  lemma {:induction false} LastIdNeverReturns(s: State, steps: seq<Step>, t: nat)
    requires Reachable(s) && t < |s.threads| && Stuck(s.threads[t])
    requires Possible(s, steps) && forall k :: 0 <= k < |steps| ==> steps[k] != Act(t, false)
    ensures t < |After(s, steps).threads| && Stuck(After(s, steps).threads[t])
    ensures After(s, steps).memory.failed == None ==> Enabled(After(s, steps), Act(t, true))
  {
    if steps != [] {
      var last := |steps| - 1;
      LastIdNeverReturns(s, steps[..last], t);
      AfterIsReachable(s, steps[..last]);
      hide Reachable, Stuck, Apply;
      StuckAfterStep(After(s, steps[..last]), steps[last], t);
    }
    hide Reachable, After, Possible;
  }

  /** A call for the last id returns exactly when the name is there at its first access. */
  lemma {:induction false} LastIdReturnsIffNamed(s: State, steps: seq<Step>, t: nat)
    requires Reachable(s) && t < |s.threads| && s.threads[t] == Naming([Frame(LAST_ID, CheckCached)])
    requires s.memory.failed == None
    requires Possible(Apply(s, Act(t, true)), steps) && SameCall(steps, t)
    requires forall k :: 0 <= k < |steps| ==> steps[k] != Act(t, false)
    ensures StillNaming(After(Apply(s, Act(t, true)), steps), t) <==> LAST_ID !in s.memory.names
  {
    var s' := Apply(s, Act(t, true));
    StepIsReachable(s, Act(t, true));
    OneFrame(s.memory, Frame(LAST_ID, CheckCached), true);
    assert s'.threads[t] == if LAST_ID in s.memory.names then Named(LAST_ID, Some(s.memory.names[LAST_ID]))
                            else Naming([Frame(LAST_ID, LoadCounter)]);
    hide Reachable, After, Possible, Apply;
    if LAST_ID in s.memory.names {
      if StillNaming(After(s', steps), t) {
        AccessesCount(s', steps, t);
      }
    } else {
      LastIdNeverReturns(s', steps, t);
    }
  }

  // ---- Runs that are possible ----

  /** From s0 the state s can come about in a way in which thread t makes at least n accesses of one call. */
  ghost predicate Can(s0: State, t: nat, n: int, s: State) {
    exists steps: seq<Step> ::
      Possible(s0, steps) && SameCall(steps, t) && Accesses(steps, t) >= n && After(s0, steps) == s
  }

  lemma CanStart(s0: State, t: nat)
    ensures Can(s0, t, 0, s0)
  {
    assert Possible(s0, []) && SameCall([], t) && Accesses([], t) >= 0 && After(s0, []) == s0;
  }

  lemma Take(s0: State, t: nat, n: int, s: State, step: Step)
    requires Can(s0, t, n, s) && Reachable(s) && Enabled(s, step) && (step.thread == t ==> step.Act?)
    ensures Can(s0, t, if step.thread == t then n + 1 else n, Apply(s, step)) && Reachable(Apply(s, step))
  {
    var steps: seq<Step> :|
      Possible(s0, steps) && SameCall(steps, t) && Accesses(steps, t) >= n && After(s0, steps) == s;
    StepIsReachable(s, step);
    hide Enabled, Apply, Reachable;
    var more := steps + [step];
    assert more[..|more| - 1] == steps;
    assert Possible(s0, more) && SameCall(more, t) && After(s0, more) == Apply(s, step);
  }

  /** What a thread in dtype_name can always do. */
  lemma TakeAccess(s0: State, t: nat, n: int, s: State, v: nat) returns (s': State)
    requires Can(s0, t, n, s) && Reachable(s) && s.memory.failed == None && StillNaming(s, v)
    ensures Reachable(s') && Can(s0, t, if v == t then n + 1 else n, s')
    ensures Inv(s) && FramesOk(s.memory, s.threads[v].frames)
    ensures var (m', th') := NameAct(s.memory, s.threads[v].frames, true);
            s' == State(m', s.threads[v := th']) && m'.failed == None
  {
    ReachableIsGood(s);
    assert ThreadOk(s.memory, v, s.threads[v]);
    s' := Apply(s, Act(v, true));
    Take(s0, t, n, s, Act(v, true));
    hide Reachable, Can, NameAct;
    NeverFails(s.memory, s.threads[v].frames, true);
  }

  lemma NeverFails(m: Memory, frames: seq<Frame>, hasMemory: bool)
    requires MemoryOk(m) && FramesOk(m, frames) && m.failed == None
    ensures NameAct(m, frames, hasMemory).0.failed == None
  {
    NameKeepsMemory(m, frames, hasMemory);
    hide TypeName, Format, NameOk, SlotsOk, RecordsOk, NamedBelow, NextStack;
  }

  /** In the loop, with a dtype to name. */
  predicate Looping(th: Thread, id: nat) {
    InCall(th, id)
    && var at := th.frames[0].at; !at.CheckCached? && !at.LoadCounter? && !at.LoadResult? && Next(at) <= id
  }

  function ToAdvance(at: NamePoint): nat {
    match at
    case Loop(_) => 5
    case CheckNext(_) => 4
    case Make(_) => 3
    case AwaitPointee(_, _) => 2
    case SetName(_, _) => 1
    case _ => 0
  }

  lemma LoopingGetsOn(m: Memory, th: Thread, id: nat)
    requires MemoryOk(m) && Looping(th, id) && FramesOk(m, th.frames) && !th.frames[0].at.Advance?
    ensures var (m', th') := NameAct(m, th.frames, true);
            && m'.numNamed == m.numNamed && Looping(th', id)
            && Next(th'.frames[0].at) == Next(th.frames[0].at)
            && ToAdvance(th'.frames[0].at) < ToAdvance(th.frames[0].at)
  {
    hide TypeName, Format, NameOk, SlotsOk, NamedBelow, NameAct;
    var frames := th.frames;
    if |frames| == 1 {
      assert frames == [frames[0]];
      OneFrame(m, frames[0], true);
      if frames[0].at.Make? && frames[0].at.next >= FIRST_DERIVED {
        KnownBelow(m, id, frames[0].at.next);
      }
    } else {
      TwoFrames(m, frames, true);
    }
  }

  /** s' differs from s in what thread v has done alone. */
  predicate OnlyThread(s: State, s': State, v: nat) {
    |s'.threads| == |s.threads| && forall u :: 0 <= u < |s.threads| && u != v ==> s'.threads[u] == s.threads[u]
  }

  lemma {:induction false} ReachAdvance(s0: State, t: nat, n: int, s: State, v: nat, id: nat) returns (s': State)
    requires Can(s0, t, n, s) && Reachable(s) && s.memory.failed == None
    requires v < |s.threads| && Looping(s.threads[v], id)
    ensures Can(s0, t, n, s') && Reachable(s') && s'.memory.failed == None
    ensures OnlyThread(s, s', v) && s'.memory.numNamed == s.memory.numNamed
    ensures s'.threads[v] == Naming([Frame(id, Advance(Next(s.threads[v].frames[0].at)))])
    decreases ToAdvance(s.threads[v].frames[0].at)
  {
    hide Reachable, Can, MemoryOk, NameAct;
    if s.threads[v].frames[0].at.Advance? {
      s' := s;
      ReachableIsGood(s);
      assert ThreadOk(s.memory, v, s.threads[v]);
      hide FrameOk;
      var frames := s.threads[v].frames;
      assert |frames| == 1 && frames == [frames[0]];
    } else {
      var next := TakeAccess(s0, t, n, s, v);
      LoopingGetsOn(s.memory, s.threads[v], id);
      CanFewer(s0, t, if v == t then n + 1 else n, next, n);
      s' := ReachAdvance(s0, t, n, next, v, id);
    }
  }

  lemma CanFewer(s0: State, t: nat, n: int, s: State, m: int)
    requires Can(s0, t, n, s) && m <= n
    ensures Can(s0, t, m, s)
  {
    var steps: seq<Step> :|
      Possible(s0, steps) && SameCall(steps, t) && Accesses(steps, t) >= n && After(s0, steps) == s;
    assert Accesses(steps, t) >= m;
  }

  lemma NameOfAdvance(s: State, v: nat, id: nat, a: nat)
    requires Reachable(s) && v < |s.threads| && s.threads[v] == Naming([Frame(id, Advance(a))])
    ensures a in s.memory.names && a <= id && s.memory.numNamed < TWO_32
  {
    ReachableIsGood(s);
    hide Reachable, TypeName;
    assert ThreadOk(s.memory, v, s.threads[v]);
  }

  /** The compare-exchange: the counter was as expected, or is known now. */
  lemma TryAdvance(s0: State, t: nat, n: int, s: State, v: nat, id: nat, a: nat) returns (s': State)
    requires Can(s0, t, n, s) && Reachable(s) && s.memory.failed == None
    requires v < |s.threads| && s.threads[v] == Naming([Frame(id, Advance(a))])
    ensures Reachable(s') && Can(s0, t, if v == t then n + 1 else n, s') && s'.memory.failed == None
    ensures OnlyThread(s, s', v) && s'.memory.names == s.memory.names
    ensures var k := s.memory.numNamed;
            s'.memory.numNamed == (if k == a then (a + 1) % TWO_32 else k)
            && s'.threads[v] == Naming([Frame(id, Loop(s'.memory.numNamed))])
  {
    hide Can, Reachable, Inv, FramesOk, NameAct;
    s' := TakeAccess(s0, t, n, s, v);
    OneFrame(s.memory, Frame(id, Advance(a)), true);
  }

  /** A thread that loops for the last id can bring the counter to the next number, all by itself. */
  lemma CounterUp(s0: State, t: nat, n: int, s: State, v: nat) returns (s': State)
    requires Can(s0, t, n, s) && Reachable(s) && s.memory.failed == None
    requires v != t && v < |s.threads| && Looping(s.threads[v], LAST_ID)
    ensures Can(s0, t, n, s') && Reachable(s') && s'.memory.failed == None && OnlyThread(s, s', v)
    ensures s.memory.numNamed < TWO_32 && s'.memory.numNamed == (s.memory.numNamed + 1) % TWO_32
    ensures s.memory.numNamed in s'.memory.names && Looping(s'.threads[v], LAST_ID)
  {
    hide Can, Reachable;
    var k := s.memory.numNamed;
    var ready := ReachAdvance(s0, t, n, s, v, LAST_ID);
    var a := ready.threads[v].frames[0].at.next;
    NameOfAdvance(ready, v, LAST_ID, a);
    if a != k {
      ready := TryAdvance(s0, t, n, ready, v, LAST_ID, a);
      ready := ReachAdvance(s0, t, n, ready, v, LAST_ID);
      NameOfAdvance(ready, v, LAST_ID, k);
    }
    s' := TryAdvance(s0, t, n, ready, v, LAST_ID, k);
  }

  /** It can bring the counter to any number. */
  lemma {:induction false} CounterTo(s0: State, t: nat, n: int, s: State, v: nat, c: nat) returns (s': State)
    requires Can(s0, t, n, s) && Reachable(s) && s.memory.failed == None && c < TWO_32
    requires v != t && v < |s.threads| && Looping(s.threads[v], LAST_ID)
    ensures Can(s0, t, n, s') && Reachable(s') && s'.memory.failed == None && OnlyThread(s, s', v)
    ensures s'.memory.numNamed == c && Looping(s'.threads[v], LAST_ID)
    decreases (c - s.memory.numNamed) % TWO_32
  {
    hide Can, Reachable, Looping;
    if s.memory.numNamed == c {
      s' := s;
    } else {
      s' := CounterUp(s0, t, n, s, v);
      s' := CounterTo(s0, t, n, s', v, c);
    }
  }

  // ---- Starvation ----

  /** The call goes round the loop once more, because the counter was moved and is again not above
      its id. */
  lemma OneMoreTurn(s0: State, t: nat, n: int, s: State, v: nat, id: nat) returns (s': State)
    requires Can(s0, t, n, s) && Reachable(s) && s.memory.failed == None && id > 0
    requires v != t && v < |s.threads| && Looping(s.threads[v], LAST_ID)
    requires t < |s.threads| && Looping(s.threads[t], id)
    ensures Can(s0, t, n + 1, s') && Reachable(s') && s'.memory.failed == None
    ensures |s'.threads| == |s.threads| && Looping(s'.threads[v], LAST_ID) && Looping(s'.threads[t], id)
  {
    hide Can, Reachable;
    s' := ReachAdvance(s0, t, n, s, t, id);
    var a := s'.threads[t].frames[0].at.next;
    var other := if a == 0 then 1 else 0;
    s' := CounterTo(s0, t, n, s', v, other);
    s' := TryAdvance(s0, t, n, s', t, id, a);
  }

  lemma {:induction false} ManyTurns(s0: State, t: nat, s: State, v: nat, id: nat, n: nat) returns (s': State)
    requires Can(s0, t, 0, s) && Reachable(s) && s.memory.failed == None && id > 0
    requires v != t && v < |s.threads| && Looping(s.threads[v], LAST_ID)
    requires t < |s.threads| && Looping(s.threads[t], id)
    ensures Can(s0, t, n, s') && StillNaming(s', t)
    ensures Reachable(s') && s'.memory.failed == None
    ensures |s'.threads| == |s.threads| && Looping(s'.threads[v], LAST_ID) && Looping(s'.threads[t], id)
  {
    hide Can, Reachable;
    if n == 0 {
      s' := s;
    } else {
      s' := ManyTurns(s0, t, s, v, id, n - 1);
      s' := OneMoreTurn(s0, t, n - 1, s', v, id);
    }
  }

  /** A thread that is stuck makes as many accesses as it is given. */
  lemma {:induction false} ManyStuckAccesses(s0: State, t: nat, s: State, n: nat) returns (s': State)
    requires Can(s0, t, 0, s) && Reachable(s) && s.memory.failed == None && t < |s.threads| && Stuck(s.threads[t])
    ensures Can(s0, t, n, s') && StillNaming(s', t)
    ensures Reachable(s') && s'.memory.failed == None && |s'.threads| == |s.threads| && Stuck(s'.threads[t])
  {
    hide Can, Reachable, MemoryOk, NameAct, FramesOk;
    if n == 0 {
      s' := s;
    } else {
      var before := ManyStuckAccesses(s0, t, s, n - 1);
      s' := TakeAccess(s0, t, n - 1, before, t);
      StuckStaysStuck(before.memory, before.threads[t]);
    }
  }

  /** A call that is past its first access and not past the loop, with a thread that loops for the
      last id: it can be kept from returning for any number of accesses. */
  lemma Starve(s0: State, t: nat, s: State, v: nat, id: nat, n: nat) returns (s': State)
    requires Can(s0, t, 0, s) && Reachable(s) && s.memory.failed == None && id > 0
    requires v != t && v < |s.threads| && Looping(s.threads[v], LAST_ID)
    requires t < |s.threads| && InCall(s.threads[t], id) && !Returning(s.threads[t].frames[0])
    ensures Can(s0, t, n, s') && StillNaming(s', t)
  {
    hide Can, Reachable;
    var now := s;
    if s.threads[t].frames[0].at.LoadCounter? {
      var zero := CounterTo(s0, t, 0, s, v, 0);
      LoadsCounter(zero, t);
      now := TakeAccess(s0, t, 0, zero, t);
      CanFewer(s0, t, 1, now, 0);
    } else {
      LoopingUnlessReturning(s, t, id);
    }
    hide Looping;
    s' := ManyTurns(s0, t, now, v, id, n);
  }

  lemma LoadsCounter(s: State, t: nat)
    requires Reachable(s) && StillNaming(s, t) && s.threads[t].frames != [] && s.threads[t].frames[0].at.LoadCounter?
    ensures NameAct(s.memory, s.threads[t].frames, true)
            == (s.memory, Naming([Frame(s.threads[t].frames[0].id, Loop(s.memory.numNamed))]))
  {
    ReachableIsGood(s);
    hide Reachable;
    assert ThreadOk(s.memory, t, s.threads[t]);
    hide Inv, TypeName;
    assert s.threads[t].frames == [s.threads[t].frames[0]];
    OneFrame(s.memory, s.threads[t].frames[0], true);
  }

  lemma LoopingUnlessReturning(s: State, t: nat, id: nat)
    requires Reachable(s) && t < |s.threads| && InCall(s.threads[t], id)
    requires !Returning(s.threads[t].frames[0]) && !s.threads[t].frames[0].at.LoadCounter?
    ensures Looping(s.threads[t], id)
  {
    ReachableIsGood(s);
    hide Reachable, NamedBelow, TypeName;
    assert ThreadOk(s.memory, t, s.threads[t]);
  }

  // ---- Which calls return ----

  /** There is a number of accesses after which the call has returned, whatever the other threads do. */
  ghost predicate Bounded(s: State, t: nat) {
    exists bound: nat :: BoundedBy(s, t, bound)
  }

  ghost predicate BoundedBy(s: State, t: nat, bound: nat) {
    forall steps: seq<Step> ::
      Possible(s, steps) && SameCall(steps, t) && Accesses(steps, t) >= bound ==> !StillNaming(After(s, steps), t)
  }

  lemma NotBoundedBy(s: State, t: nat, n: nat, s': State)
    requires Can(s, t, n, s') && StillNaming(s', t)
    ensures !BoundedBy(s, t, n)
  {
    hide Possible, After, Accesses;
  }

  /** Once the last id has a name, a call in progress returns within a bound exactly when it is at its
      first access, past the loop, or a call for id 0. */
  lemma ReturnsIff(s: State, t: nat)
    requires Reachable(s) && s.memory.failed == None && LAST_ID in s.memory.names && StillNaming(s, t)
    ensures s.threads[t].frames != []
    ensures Bounded(s, t) <==> s.threads[t].frames[0].id == 0 || Returning(s.threads[t].frames[0])
  {
    ReachableIsGood(s);
    assert ThreadOk(s.memory, t, s.threads[t]);
    hide Inv, Reachable, ThreadOk, FramesOk, Spins, Looping, NamedBelow;
    var f := s.threads[t].frames[0];
    if f.id == 0 || Returning(f) {
      PromptIsBounded(s, t);
    } else {
      forall n: nat ensures !BoundedBy(s, t, n) {
        HeldUp(s, t, n);
      }
    }
  }

  lemma HeldUp(s: State, t: nat, n: nat)
    requires Reachable(s) && s.memory.failed == None && LAST_ID in s.memory.names
    requires StillNaming(s, t) && s.threads[t].frames != []
    requires s.threads[t].frames[0].id > 0 && !Returning(s.threads[t].frames[0])
    ensures !BoundedBy(s, t, n)
  {
    ReachableIsGood(s);
    hide Inv, Reachable, NamedBelow, Can;
    var f := s.threads[t].frames[0];
    var v :| 0 <= v < |s.threads| && Spins(s.threads[v]);
    CanStart(s, t);
    var s';
    if f.id == LAST_ID {
      s' := ManyStuckAccesses(s, t, s, n);
    } else {
      s' := Starve(s, t, s, v, f.id, n);
    }
    NotBoundedBy(s, t, n, s');
  }

  /** Calls that begin once the last id has a name return at their first access. */
  lemma NewCallsReturnAtOnce(s: State, t: nat, id: nat, hasMemory: bool)
    requires Reachable(s) && s.memory.failed == None && LAST_ID in s.memory.names
    requires t < |s.threads| && s.threads[t] == Naming([Frame(id, CheckCached)])
    ensures id in s.memory.names
    ensures Apply(s, Act(t, hasMemory)).threads[t] == Named(id, Some(s.memory.names[id]))
  {
    ReachableIsGood(s);
    hide Reachable, TypeName;
    assert ThreadOk(s.memory, t, s.threads[t]);
    KnownIsSmall(s.memory, id);
    OneFrame(s.memory, Frame(id, CheckCached), hasMemory);
  }

  lemma PromptIsBounded(s: State, t: nat)
    requires Reachable(s) && LAST_ID in s.memory.names && StillNaming(s, t) && s.threads[t].frames != []
    requires s.threads[t].frames[0].id == 0 || Returning(s.threads[t].frames[0])
    ensures Bounded(s, t)
  {
    hide Reachable, Possible, After, Accesses, Returning, Rank;
    var bound := if Rank(s.threads[t].frames[0]) > 0 then Rank(s.threads[t].frames[0]) else 0;
    forall steps: seq<Step> | Possible(s, steps) && SameCall(steps, t) && Accesses(steps, t) >= bound
      ensures !StillNaming(After(s, steps), t)
    {
      if StillNaming(After(s, steps), t) {
        AccessesCount(s, steps, t);
        RankIsPositive(s, steps, t);
      }
    }
    assert BoundedBy(s, t, bound);
  }

  // ---- Such states are reached ----

  /** Every dtype is a pointer to the one before. */
  function Link(k: nat): Request { PointerTo(FIRST_DERIVED - 1 + k, Generic) }

  /** Thread 1 has created n dtypes, one after the other, and nothing else has happened. */
  predicate Chain(s: State, n: nat) {
    && |s.threads| == 2 && s.threads[0].Idle? && !s.threads[1].Interning? && !s.threads[1].Naming?
    && s.memory.failed == None && s.memory.lock == None
    && s.memory.numDerived == n && s.memory.names == map[] && s.memory.numNamed == 0
    && (forall r :: r in s.memory.slots ==> r.pointee < FIRST_DERIVED - 1 + n)
    && (forall k: nat :: k < n ==> Link(k) in s.memory.slots && s.memory.slots[Link(k)] == FIRST_DERIVED + k)
  }

  lemma InternAccess(s: State, r: Request, at: InternPoint) returns (s': State)
    requires Reachable(s) && s.memory.failed == None && |s.threads| == 2 && s.threads[1] == Interning(r, at)
    requires at.Acquire? ==> s.memory.lock == None
    ensures var (m', th') := InternAct(s.memory, 1, r, at); s' == State(m', s.threads[1 := th']) && Reachable(s')
  {
    hide Reachable, InternAct;
    s' := Apply(s, Act(1, true));
    StepIsReachable(s, Act(1, true));
  }

  lemma InternOne(s: State, n: nat) returns (s': State)
    requires Reachable(s) && Chain(s, n) && n <= LAST_INDEX
    ensures Reachable(s') && Chain(s', n + 1)
  {
    hide Reachable;
    var r := Link(n);
    if n > 0 {
      assert Link(n - 1) in s.memory.slots;
    }
    assert r !in s.memory.slots;
    s' := Apply(s, BeginIntern(1, r));
    StepIsReachable(s, BeginIntern(1, r));
    s' := InternAccess(s', r, LoadSlot);
    s' := InternAccess(s', r, Acquire);
    s' := InternAccess(s', r, Reload);
    s' := InternAccess(s', r, TakeIndex);
    s' := InternAccess(s', r, WriteRecord(n));
    s' := InternAccess(s', r, Publish(n));
    s' := InternAccess(s', r, Release(FIRST_DERIVED + n));
    assert s'.memory.slots == s.memory.slots[r := FIRST_DERIVED + n];
  }

  lemma {:induction false} InternMany(n: nat) returns (s: State)
    requires n <= LAST_INDEX + 1
    ensures Reachable(s) && Chain(s, n)
  {
    if n == 0 {
      s := State(Memory(map[], 0, map[], None, map[], 0, None), [Idle, Idle]);
      var steps: seq<Step> := [];
      assert IsRun([s], steps) && [s][|steps|] == s;
    } else {
      s := InternMany(n - 1);
      hide Chain, Reachable;
      s := InternOne(s, n - 1);
    }
  }

  lemma AllObtainable(s: State, id: nat)
    requires Chain(s, LAST_INDEX + 1) && id <= LAST_ID
    ensures Obtainable(s.memory, id)
  {
    if id >= FIRST_DERIVED {
      assert Link(id - FIRST_DERIVED) in s.memory.slots;
    }
  }

  /** All ids are handed out, none has a name, and thread 0 is in a call for any one of them. */
  lemma CallInFlight(id: nat) returns (s: State)
    requires id <= LAST_ID
    ensures Reachable(s) && s.memory.failed == None && |s.threads| == 2
    ensures s.threads[0] == Naming([Frame(id, CheckCached)])
    ensures Known(s.memory, LAST_ID) && s.memory.names == map[]
    ensures Enabled(s, BeginName(1, LAST_ID))
  {
    hide Reachable;
    var chain := InternMany(LAST_INDEX + 1);
    AllObtainable(chain, id);
    AllObtainable(chain, LAST_ID);
    s := Apply(chain, BeginName(0, id));
    StepIsReachable(chain, BeginName(0, id));
    assert Link(LAST_INDEX) in s.memory.slots;
    ReachableIsGood(s);
    assert SlotsOk(s.memory);
  }

  /** The first access of a call that finds no name. */
  lemma FindsNoName(m: Memory, id: nat)
    requires id !in m.names
    ensures NameAct(m, [Frame(id, CheckCached)], true) == (m, Naming([Frame(id, LoadCounter)]))
  {
    OneFrame(m, Frame(id, CheckCached), true);
  }

  /** Thread 0 is past its first access, all names have been made, and thread 1 is looping for the
      last id. */
  lemma AllNamedMeanwhile(s0: State, id: nat) returns (s: State)
    requires Reachable(s0) && s0.memory.failed == None && |s0.threads| == 2 && s0.memory.names == map[]
    requires s0.threads[0] == Naming([Frame(id, CheckCached)]) && Enabled(s0, BeginName(1, LAST_ID))
    ensures Can(s0, 0, 0, s) && Reachable(s) && s.memory.failed == None && |s.threads| == 2
    ensures s.threads[0] == Naming([Frame(id, LoadCounter)]) && Looping(s.threads[1], LAST_ID)
    ensures LAST_ID in s.memory.names
  {
    hide Reachable, Can, Inv, FramesOk, NameAct, Obtainable;
    CanStart(s0, 0);
    Take(s0, 0, 0, s0, BeginName(1, LAST_ID));
    s := Apply(s0, BeginName(1, LAST_ID));
    FindsNoName(s.memory, id);
    s := TakeAccess(s0, 0, 0, s, 0);
    CanFewer(s0, 0, 1, s, 0);
    FindsNoName(s.memory, LAST_ID);
    s := TakeAccess(s0, 0, 0, s, 1);
    LoadsCounter(s, 1);
    NamedIsSmall(s);
    s := TakeAccess(s0, 0, 0, s, 1);
    s := CounterTo(s0, 0, 0, s, 1, LAST_ID);
    s := CounterUp(s0, 0, 0, s, 1);
  }

  lemma NamedIsSmall(s: State)
    requires Reachable(s)
    ensures s.memory.numNamed < TWO_32
  {
    ReachableIsGood(s);
  }

  /** For every id but 0 there is a call that can be held up for any number of accesses. */
  lemma CallIsHeldUp(id: nat) returns (s: State)
    requires 0 < id <= LAST_ID
    ensures Reachable(s) && |s.threads| == 2 && s.threads[0] == Naming([Frame(id, CheckCached)]) && !Bounded(s, 0)
  {
    hide Reachable, Can, BoundedBy, Looping;
    s := CallInFlight(id);
    forall n: nat ensures !BoundedBy(s, 0, n) {
      var later := AllNamedMeanwhile(s, id);
      var s';
      if id == LAST_ID {
        s' := ManyStuckAccesses(s, 0, later, n);
      } else {
        s' := Starve(s, 0, later, 1, id, n);
      }
      NotBoundedBy(s, 0, n, s');
    }
  }

  /** Every call for the id returns within a bound, whatever other threads do. */
  ghost predicate WaitFree(id: nat) {
    forall s: State, t: nat ::
      Reachable(s) && t < |s.threads| && s.threads[t] == Naming([Frame(id, CheckCached)]) ==> Bounded(s, t)
  }

  /** Without regard to whether the last id gets a name, only calls for id 0 are sure to return. */
  lemma WaitFreeIff(id: nat)
    requires id <= LAST_ID
    ensures WaitFree(id) <==> id == 0
  {
    hide Reachable, Possible, After, Accesses;
    if id > 0 {
      var s := CallIsHeldUp(id);
    } else {
      forall s: State, t: nat | Reachable(s) && t < |s.threads| && s.threads[t] == Naming([Frame(id, CheckCached)])
        ensures Bounded(s, t)
      {
        forall steps: seq<Step> | Possible(s, steps) && SameCall(steps, t) && Accesses(steps, t) >= 10
          ensures !StillNaming(After(s, steps), t)
        {
          if StillNaming(After(s, steps), t) {
            DTypeNameIsWaitFree(s, steps, t, 0);
          }
        }
        assert BoundedBy(s, t, 10);
      }
    }
  }
}

/** run_coroutine: a loop with an explicit stack, which must mean the same as coroutines calling
    each other recursively. */
module Coroutines {

  datatype Option<T> = None | Some(value: T)

  /** A Python value: a coroutine, by identity, or anything else. */
  datatype Value = NoneValue | Coroutine(id: nat) | Other(tag: nat)

  /** StopIteration is how throw() reports that the coroutine has returned. */
  datatype Exception = StopIteration(value: Value) | Error(tag: nat) | NotACoroutine

  datatype SendReply = SendReturn(value: Value) | SendNext(value: Value) | SendError(error: Exception)

  datatype ThrowReply = Continuation(value: Value) | ThrowError(error: Exception)

  /** Everything the interpreter knows: frames of coroutines, globals, and so on. */
  type World = nat

  /** The Python interpreter. Resuming a coroutine may change anything. */
  datatype Interpreter = Interpreter(
    send: (World, nat, Value) -> (World, SendReply),
    throw: (World, nat, Exception) -> (World, ThrowReply),
    close: (World, nat) -> World)

  // ---- Recursive semantics ----

  /** What a coroutine is resumed with. */
  datatype Input = Result(value: Value) | Failure(error: Exception)

  datatype Reply = Returns(value: Value) | Raises(error: Exception) | Awaits(value: Value)

  function Resume(py: Interpreter, w: World, id: nat, input: Input): (World, Reply) {
    match input
    case Result(v) =>
      var (w', r) := py.send(w, id, v);
      (w', match r
           case SendReturn(x) => Returns(x)
           case SendNext(x) => Awaits(x)
           case SendError(e) => Raises(e))
    case Failure(e) =>
      var (w', r) := py.throw(w, id, e);
      (w', match r
           case Continuation(x) => Awaits(x)
           case ThrowError(StopIteration(x)) => Returns(x)
           case ThrowError(x) => Raises(x))
  }

  /** How a call ends. Broken: some coroutine awaited something that is not a coroutine; calls are
      the coroutines that were then active, outermost first. */
  datatype Outcome =
    | Finished(world: World, input: Input)
    | Broken(world: World, calls: seq<nat>)

  /** Coroutine id is resumed and runs to its end. Whatever it awaits is called, and it is resumed
      with that call's own result or exception. None: more than `fuel` nested or repeated calls. */
  function Call(py: Interpreter, fuel: nat, w: World, id: nat, input: Input): Option<Outcome> {
    if fuel == 0 then None
    else
      match Resume(py, w, id, input)
      case (w', Returns(v)) => Some(Finished(w', Result(v)))
      case (w', Raises(e)) => Some(Finished(w', Failure(e)))
      case (w', Awaits(Coroutine(child))) =>
        (match Call(py, fuel - 1, w', child, Result(NoneValue))
         case None => None
         case Some(Broken(w1, calls)) => Some(Broken(w1, [id] + calls))
         case Some(Finished(w1, result)) => Call(py, fuel - 1, w1, id, result))
      case (w', Awaits(_)) => Some(Broken(w', [id]))
  }

  /** The call ends in this way, however deep it nests. */
  ghost predicate Ends(py: Interpreter, w: World, id: nat, input: Input, o: Outcome) {
    exists fuel: nat :: Call(py, fuel, w, id, input) == Some(o)
  }

  /** What a coroutine awaits is called first; its result or exception goes to whoever awaited it. */
  ghost predicate EndsAwaiting(py: Interpreter, w: World, id: nat, awaited: Value, o: Outcome) {
    match awaited
    case Coroutine(child) => exists called: Outcome :: EndsAfter(py, w, id, child, called, o)
    case _ => o == Broken(w, [id])
  }

  ghost predicate EndsAfter(py: Interpreter, w: World, id: nat, child: nat, called: Outcome, o: Outcome) {
    && Ends(py, w, child, Result(NoneValue), called)
    && match called
       case Broken(w1, calls) => o == Broken(w1, [id] + calls)
       case Finished(w1, result) => Ends(py, w1, id, result, o)
  }

  /** The meaning of a call by what send() returns. */
  lemma EndsBySend(py: Interpreter, w: World, id: nat, v: Value, o: Outcome)
    ensures Ends(py, w, id, Result(v), o) <==>
              match py.send(w, id, v)
              case (w', SendReturn(x)) => o == Finished(w', Result(x))
              case (w', SendNext(x)) => EndsAwaiting(py, w', id, x, o)
              case (w', SendError(e)) => o == Finished(w', Failure(e))
  {
    EndsByResume(py, w, id, Result(v), o);
    hide Ends, EndsAwaiting;
  }

  /** The same for throw(). A StopIteration that it raises is a return of its value; any other
      exception is what the call ends with. */
  lemma EndsByThrow(py: Interpreter, w: World, id: nat, error: Exception, o: Outcome)
    ensures Ends(py, w, id, Failure(error), o) <==>
              match py.throw(w, id, error)
              case (w', Continuation(x)) => EndsAwaiting(py, w', id, x, o)
              case (w', ThrowError(StopIteration(x))) => o == Finished(w', Result(x))
              case (w', ThrowError(e)) => o == Finished(w', Failure(e))
  {
    EndsByResume(py, w, id, Failure(error), o);
    hide Ends, EndsAwaiting;
  }

  ghost predicate EndsByReply(py: Interpreter, id: nat, reply: (World, Reply), o: Outcome) {
    match reply
    case (w, Returns(v)) => o == Finished(w, Result(v))
    case (w, Raises(e)) => o == Finished(w, Failure(e))
    case (w, Awaits(x)) => EndsAwaiting(py, w, id, x, o)
  }

  lemma EndsByResume(py: Interpreter, w: World, id: nat, input: Input, o: Outcome)
    ensures Ends(py, w, id, input, o) <==> EndsByReply(py, id, Resume(py, w, id, input), o)
  {
    hide Resume;
    var (w', reply) := Resume(py, w, id, input);
    if reply.Awaits? && reply.value.Coroutine? {
      if Ends(py, w, id, input, o) {
        EndsOnlyAfter(py, w, id, input, o, w', reply.value.id);
      }
      if EndsAwaiting(py, w', id, reply.value, o) {
        var called: Outcome :| EndsAfter(py, w', id, reply.value.id, called, o);
        EndsIfAfter(py, w, id, input, o, w', reply.value.id, called);
      }
    } else {
      assert Call(py, 1, w, id, input).Some?;
      if EndsByReply(py, id, (w', reply), o) {
        assert Call(py, 1, w, id, input) == Some(o);
      }
    }
  }

  lemma EndsOnlyAfter(py: Interpreter, w: World, id: nat, input: Input, o: Outcome, w': World, child: nat)
    requires Resume(py, w, id, input) == (w', Awaits(Coroutine(child))) && Ends(py, w, id, input, o)
    ensures EndsAwaiting(py, w', id, Coroutine(child), o)
  {
    hide Resume;
    var fuel: nat :| Call(py, fuel, w, id, input) == Some(o);
    assert fuel > 0;
    CallOfAwaiting(py, fuel, w, id, input, w', child);
    hide Call;
    var called := Call(py, fuel - 1, w', child, Result(NoneValue)).value;
    assert Ends(py, w', child, Result(NoneValue), called);
    if called.Finished? {
      assert Call(py, fuel - 1, called.world, id, called.input) == Some(o);
    }
    assert EndsAfter(py, w', id, child, called, o);
  }

  lemma EndsIfAfter(
      py: Interpreter, w: World, id: nat, input: Input, o: Outcome, w': World, child: nat, called: Outcome)
    requires Resume(py, w, id, input) == (w', Awaits(Coroutine(child))) && EndsAfter(py, w', id, child, called, o)
    ensures Ends(py, w, id, input, o)
  {
    hide Resume, Call;
    var a: nat :| Call(py, a, w', child, Result(NoneValue)) == Some(called);
    match called {
      case Broken(w1, calls) =>
        CallOfAwaiting(py, a + 1, w, id, input, w', child);
      case Finished(w1, result) =>
        var b: nat :| Call(py, b, w1, id, result) == Some(o);
        MoreFuel(py, a, a + b, w', child, Result(NoneValue));
        MoreFuel(py, b, a + b, w1, id, result);
        CallOfAwaiting(py, a + b + 1, w, id, input, w', child);
    }
  }

  // ---- The loop, one turn at a time ----

  datatype Machine =
    | Running(world: World, stack: seq<nat>, input: Input)
    | Stopped(world: World, stack: seq<nat>)

  predicate Halted(m: Machine) { m.Stopped? || m.stack == [] }

  function Turn(py: Interpreter, m: Machine): Machine
    requires !Halted(m)
  {
    var top := |m.stack| - 1;
    match Resume(py, m.world, m.stack[top], m.input)
    case (w', Returns(v)) => Running(w', m.stack[..top], Result(v))
    case (w', Raises(e)) => Running(w', m.stack[..top], Failure(e))
    case (w', Awaits(Coroutine(child))) => Running(w', m.stack + [child], Result(NoneValue))
    case (w', Awaits(_)) => Stopped(w', m.stack)
  }

  /** At most n turns. */
  function Turns(py: Interpreter, n: nat, m: Machine): Machine {
    if n == 0 || Halted(m) then m else Turns(py, n - 1, Turn(py, m))
  }

  lemma {:induction false} TurnsSum(py: Interpreter, a: nat, b: nat, m: Machine)
    ensures Turns(py, a + b, m) == Turns(py, b, Turns(py, a, m))
  {
    if a > 0 && !Halted(m) {
      TurnsSum(py, a - 1, b, Turn(py, m));
    }
  }

  /** The state of the loop after a call made on top of `below` has ended. */
  function After(below: seq<nat>, o: Outcome): Machine {
    match o
    case Finished(w, result) => Running(w, below, result)
    case Broken(w, calls) => Stopped(w, below + calls)
  }

  /** The loop does what the call does: it pushes, runs and pops the callee without touching what
      is below, and leaves the callee's own outcome for whoever awaited it. */
  lemma {:induction false} LoopFollowsCall(
      py: Interpreter, fuel: nat, w: World, id: nat, input: Input, below: seq<nat>) returns (n: nat)
    requires Call(py, fuel, w, id, input).Some?
    ensures n > 0
    ensures Turns(py, n, Running(w, below + [id], input)) == After(below, Call(py, fuel, w, id, input).value)
  {
    hide Resume, Turn, Turns;
    var m := Running(w, below + [id], input);
    match Resume(py, w, id, input) {
      case (w', Awaits(Coroutine(child))) =>
        var stack := below + [id];
        ChildIsPushed(py, w, id, input, below, w', child);
        var a := LoopFollowsCall(py, fuel - 1, w', child, Result(NoneValue), stack);
        OneTurnMore(py, a, m);
        match Call(py, fuel - 1, w', child, Result(NoneValue)) {
          case Some(Broken(w1, calls)) =>
            assert stack + calls == below + ([id] + calls);
            n := 1 + a;
          case Some(Finished(w1, result)) =>
            var b := LoopFollowsCall(py, fuel - 1, w1, id, result, below);
            n := 1 + a + b;
            TurnsSum(py, 1 + a, b, m);
        }
      case _ =>
        n := 1;
        EndsAtOnce(py, fuel, w, id, input, below);
    }
  }

  lemma ChildIsPushed(py: Interpreter, w: World, id: nat, input: Input, below: seq<nat>, w': World, child: nat)
    requires Resume(py, w, id, input) == (w', Awaits(Coroutine(child)))
    ensures var m := Running(w, below + [id], input);
            !Halted(m) && Turn(py, m) == Running(w', below + [id] + [child], Result(NoneValue))
  {
    hide Resume;
  }

  lemma OneTurnMore(py: Interpreter, n: nat, m: Machine)
    requires !Halted(m)
    ensures Turns(py, 1 + n, m) == Turns(py, n, Turn(py, m))
  {
    hide Turn;
  }

  lemma EndsAtOnce(py: Interpreter, fuel: nat, w: World, id: nat, input: Input, below: seq<nat>)
    requires fuel > 0
    requires !(Resume(py, w, id, input).1.Awaits? && Resume(py, w, id, input).1.value.Coroutine?)
    ensures Call(py, fuel, w, id, input).Some?
    ensures Turns(py, 1, Running(w, below + [id], input)) == After(below, Call(py, fuel, w, id, input).value)
  {
    hide Resume;
    var m := Running(w, below + [id], input);
    assert m.stack[..|m.stack| - 1] == below;
    assert Turns(py, 0, Turn(py, m)) == Turn(py, m);
  }

  /** Fuel only decides whether there is an outcome, not which one. */
  lemma {:induction false} MoreFuel(py: Interpreter, a: nat, b: nat, w: World, id: nat, input: Input)
    requires a <= b && Call(py, a, w, id, input).Some?
    ensures Call(py, b, w, id, input) == Call(py, a, w, id, input)
  {
    match Resume(py, w, id, input) {
      case (w', Awaits(Coroutine(child))) =>
        MoreFuel(py, a - 1, b - 1, w', child, Result(NoneValue));
        match Call(py, a - 1, w', child, Result(NoneValue)) {
          case Some(Finished(w1, result)) => MoreFuel(py, a - 1, b - 1, w1, id, result);
          case _ =>
        }
      case _ =>
    }
  }

  /** What a call amounts to when its coroutine awaits another one. */
  lemma CallOfAwaiting(py: Interpreter, fuel: nat, w: World, id: nat, input: Input, w': World, child: nat)
    requires fuel > 0 && Resume(py, w, id, input) == (w', Awaits(Coroutine(child)))
    ensures Call(py, fuel, w, id, input)
            == match Call(py, fuel - 1, w', child, Result(NoneValue))
               case None => None
               case Some(Broken(w1, calls)) => Some(Broken(w1, [id] + calls))
               case Some(Finished(w1, result)) => Call(py, fuel - 1, w1, id, result)
  {
  }

  /** The loop's turns for a coroutine that awaits another one. */
  lemma TurnOfAwaiting(
      py: Interpreter, n: nat, w: World, id: nat, input: Input, below: seq<nat>, w': World, child: nat)
    requires n > 0 && Resume(py, w, id, input) == (w', Awaits(Coroutine(child)))
    ensures Turns(py, n, Running(w, below + [id], input))
            == Turns(py, n - 1, Running(w', below + [id] + [child], Result(NoneValue)))
  {
    hide Resume;
    var m := Running(w, below + [id], input);
    assert !Halted(m) && m.stack[|m.stack| - 1] == id;
    assert Turn(py, m) == Running(w', below + [id] + [child], Result(NoneValue));
  }

  /** The loop's turns for a coroutine that awaits nothing. */
  lemma TurnOfEnding(py: Interpreter, n: nat, w: World, id: nat, input: Input, below: seq<nat>)
    requires n > 0
    requires Resume(py, w, id, input).1.Awaits? ==> !Resume(py, w, id, input).1.value.Coroutine?
    ensures Call(py, n, w, id, input).Some?
    ensures Turns(py, 1, Running(w, below + [id], input)) == After(below, Call(py, n, w, id, input).value)
  {
    hide Resume;
    var m := Running(w, below + [id], input);
    assert !Halted(m) && m.stack[|m.stack| - 1] == id && m.stack[..|m.stack| - 1] == below;
    assert Turns(py, 1, m) == Turn(py, m);
  }

  /** Conversely, when the loop gets back below a frame, the call of that frame has ended. */
  lemma {:induction false} CallFollowsLoop(
      py: Interpreter, n: nat, w: World, id: nat, input: Input, below: seq<nat>) returns (used: nat)
    requires Turns(py, n, Running(w, below + [id], input)).Stopped?
             || |Turns(py, n, Running(w, below + [id], input)).stack| <= |below|
    ensures 0 < used <= n
    ensures Call(py, used, w, id, input).Some?
    ensures Turns(py, used, Running(w, below + [id], input)) == After(below, Call(py, used, w, id, input).value)
    decreases n
  {
    hide Resume, Call, Turn;
    var m := Running(w, below + [id], input);
    assert n > 0;
    hide *;
    match Resume(py, w, id, input) {
      case (w', Awaits(Coroutine(child))) =>
        var stack := below + [id];
        TurnOfAwaiting(py, n, w, id, input, below, w', child);
        var a := CallFollowsLoop(py, n - 1, w', child, Result(NoneValue), stack);
        TurnOfAwaiting(py, 1 + a, w, id, input, below, w', child);
        used := CallFollowsRest(py, n, w, id, input, below, w', child, a);
      case _ =>
        TurnOfEnding(py, n, w, id, input, below);
        TurnOfEnding(py, 1, w, id, input, below);
        used := 1;
    }
  }

  /** The part of CallFollowsLoop after the awaited call has ended. */
  lemma {:induction false} CallFollowsRest(
      py: Interpreter, n: nat, w: World, id: nat, input: Input, below: seq<nat>, w': World, child: nat, a: nat)
    returns (used: nat)
    requires Resume(py, w, id, input) == (w', Awaits(Coroutine(child)))
    requires 0 < a <= n - 1 && Call(py, a, w', child, Result(NoneValue)).Some?
    requires Turns(py, 1 + a, Running(w, below + [id], input))
             == After(below + [id], Call(py, a, w', child, Result(NoneValue)).value)
    requires Turns(py, n, Running(w, below + [id], input)).Stopped?
             || |Turns(py, n, Running(w, below + [id], input)).stack| <= |below|
    ensures 0 < used <= n
    ensures Call(py, used, w, id, input).Some?
    ensures Turns(py, used, Running(w, below + [id], input)) == After(below, Call(py, used, w, id, input).value)
    decreases n, 0
  {
    hide Resume, Call, Turn, Turns;
    var m := Running(w, below + [id], input);
    match Call(py, a, w', child, Result(NoneValue)) {
      case Some(Broken(w1, calls)) =>
        assert below + [id] + calls == below + ([id] + calls);
        used := 1 + a;
        CallOfAwaiting(py, used, w, id, input, w', child);
      case Some(Finished(w1, result)) =>
        TurnsSum(py, 1 + a, n - 1 - a, m);
        var b := CallFollowsLoop(py, n - 1 - a, w1, id, result, below);
        used := 1 + a + b;
        TurnsSum(py, 1 + a, b, m);
        MoreFuel(py, a, a + b, w', child, Result(NoneValue));
        MoreFuel(py, b, a + b, w1, id, result);
        CallOfAwaiting(py, used, w, id, input, w', child);
    }
  }

  /** The loop terminates exactly when the recursive call does, with the same outcome. */
  lemma LoopIsCall(py: Interpreter, w: World, id: nat, o: Outcome)
    ensures (exists fuel :: Call(py, fuel, w, id, Result(NoneValue)) == Some(o))
            <==> (exists n :: Turns(py, n, Running(w, [id], Result(NoneValue))) == After([], o)
                              && Halted(After([], o)))
  {
    assert [] + [id] == [id];
    if exists fuel :: Call(py, fuel, w, id, Result(NoneValue)) == Some(o) {
      var fuel :| Call(py, fuel, w, id, Result(NoneValue)) == Some(o);
      var n := LoopFollowsCall(py, fuel, w, id, Result(NoneValue), []);
    }
    if exists n :: Turns(py, n, Running(w, [id], Result(NoneValue))) == After([], o) && Halted(After([], o)) {
      var n :| Turns(py, n, Running(w, [id], Result(NoneValue))) == After([], o) && Halted(After([], o));
      var used := CallFollowsLoop(py, n, w, id, Result(NoneValue), []);
      TurnsSum(py, used, n - used, Running(w, [id], Result(NoneValue)));
      var o' := Call(py, used, w, id, Result(NoneValue)).value;
      assert After([], o') == After([], o);
      AfterIsInjective(o, o');
    }
  }

  lemma AfterIsInjective(o: Outcome, o': Outcome)
    requires After([], o) == After([], o')
    ensures o == o'
  {
    if o.Broken? && o'.Broken? {
      assert [] + o.calls == o.calls && [] + o'.calls == o'.calls;
    }
  }

  // ---- The code ----

  /** The world after every coroutine of the stack has been closed, innermost first. */
  function CloseAll(py: Interpreter, w: World, stack: seq<nat>): World
    decreases |stack|
  {
    if stack == [] then w
    else CloseAll(py, py.close(w, stack[|stack| - 1]), stack[..|stack| - 1])
  }

  class Runner {
    const py: Interpreter
    var world: World

    constructor (py: Interpreter, world: World)
      ensures this.py == py && this.world == world
    {
      this.py, this.world := py, world;
    }

    method Send(id: nat, value: Value) returns (r: SendReply)
      modifies this
      ensures (world, r) == py.send(old(world), id, value)
    {
      var (w, reply) := py.send(world, id, value);
      world := w;
      r := reply;
    }

    method Throw(id: nat, error: Exception) returns (r: ThrowReply)
      modifies this
      ensures (world, r) == py.throw(old(world), id, error)
    {
      var (w, reply) := py.throw(world, id, error);
      world := w;
      r := reply;
    }

    method Cleanup(stack: seq<nat>)
      modifies this
      ensures world == CloseAll(py, old(world), stack)
    {
      var left := stack;
      while left != []
        invariant CloseAll(py, world, left) == CloseAll(py, old(world), stack)
        decreases |left|
      {
        world := py.close(world, left[|left| - 1]);
        left := left[..|left| - 1];
      }
    }

    /** The result or the exception of the main coroutine. It exists if its recursive evaluation
        ends, after `fuel` calls. */
    method RunCoroutine(main: Value, ghost fuel: nat) returns (r: Input)
      requires main.Coroutine? ==> Call(py, fuel, world, main.id, Result(NoneValue)).Some?
      modifies this
      ensures !main.Coroutine? ==> r == Failure(NotACoroutine) && world == old(world)
      ensures main.Coroutine? ==>
                match Call(py, fuel, old(world), main.id, Result(NoneValue)).value
                case Finished(w, result) => r == result && world == w
                case Broken(w, calls) => r == Failure(NotACoroutine) && world == CloseAll(py, w, calls)
    {
      if !main.Coroutine? {
        return Failure(NotACoroutine);
      }
      var stack := [main.id];
      var ret := NoneValue;
      var exc: Option<Exception> := None;
      ghost var turns := LoopFollowsCall(py, fuel, world, main.id, Result(NoneValue), []);
      ghost var end := After([], Call(py, fuel, world, main.id, Result(NoneValue)).value);
      assert [] + [main.id] == stack;
      assert end.Stopped? ==> end.stack == Call(py, fuel, world, main.id, Result(NoneValue)).value.calls;
      while stack != []
        invariant exc.Some? ==> ret == NoneValue
        invariant Turns(py, turns, Running(world, stack, if exc == None then Result(ret) else Failure(exc.value))) == end
        invariant Halted(end)
        decreases turns
      {
        ghost var before := Running(world, stack, if exc == None then Result(ret) else Failure(exc.value));
        var id := stack[|stack| - 1];
        if exc == None {
          var reply := Send(id, ret);
          match reply {
            case SendReturn(v) =>
              ret := v;
              stack := stack[..|stack| - 1];
            case SendNext(next) =>
              ret := NoneValue;
              if !next.Coroutine? {
                assert Turns(py, turns, before) == Turns(py, turns - 1, Turn(py, before));
                Cleanup(stack);
                return Failure(NotACoroutine);
              }
              stack := stack + [next.id];
            case SendError(e) =>
              exc := Some(e);
              ret := NoneValue;
              stack := stack[..|stack| - 1];
          }
        } else {
          var reply := Throw(id, exc.value);
          match reply {
            case Continuation(next) =>
              ret := NoneValue;
              exc := None;
              if !next.Coroutine? {
                assert Turns(py, turns, before) == Turns(py, turns - 1, Turn(py, before));
                Cleanup(stack);
                return Failure(NotACoroutine);
              }
              stack := stack + [next.id];
            case ThrowError(e) =>
              if e.StopIteration? {
                ret := e.value;
                exc := None;
              } else {
                exc := Some(e);
                ret := NoneValue;
              }
              stack := stack[..|stack| - 1];
          }
        }
        assert Turns(py, turns, before) == Turns(py, turns - 1, Turn(py, before));
        turns := turns - 1;
      }
      if exc.Some? {
        return Failure(exc.value);
      }
      return Result(ret);
    }
  }
}

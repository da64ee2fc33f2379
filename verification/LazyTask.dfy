/** A coroutine task whose handles are closed behind it: the body, the cleaner and whoever awaits it
    (src/common/uv/uv.h, src/common/util/lazy.h). */
module LazyTask {
  import opened Util

  /** What the body ends with. */
  datatype Outcome = Returned(value: int) | Threw(error: int)

  /** A libuv handle and a suspended coroutine are only ever told apart. */
  type Handle = int
  type Coroutine = int

  datatype Resumption = Resumption(who: Coroutine, outcome: Outcome)

  // ------------------------------------------------------------ the task as a state machine

  /** The body runs; or it has ended with an outcome, and the cleaner waits for the close of handle `k` or has
      ended too. */
  datatype Phase = Body | Closing(k: nat, outcome: Outcome) | Done(outcome: Outcome)

  /** `waited` are the coroutines that were suspended on the task, `passed` those it did not suspend;
      `resumed` are all that went on, in order. */
  datatype Task = Task(phase: Phase, handles: seq<Handle>, closed: seq<Handle>,
                       waited: seq<Coroutine>, passed: seq<Coroutine>, resumed: seq<Resumption>)

  datatype Event =
    | Registers(h: Handle)
    | Ends(outcome: Outcome)
    | CloseCallback
    | Awaits(who: Coroutine)

  const NEW: Task := Task(Body, [], [], [], [], [])

  predicate Possible(t: Task, e: Event) {
    match e
    case Registers(_) => t.phase.Body?
    case Ends(_) => t.phase.Body?
    case CloseCallback => t.phase.Closing? && t.phase.k < |t.handles|
    case Awaits(_) => true
  }

  /** The one of those waiting that the cleaner will resume: the last that came. */
  function LastOf(waited: seq<Coroutine>): seq<Coroutine> {
    if waited == [] then [] else [waited[|waited| - 1]]
  }

  function Resumptions(who: seq<Coroutine>, outcome: Outcome): seq<Resumption> {
    if who == [] then [] else [Resumption(who[0], outcome)] + Resumptions(who[1..], outcome)
  }

  /** The cleaner goes on with handle `k`, or comes to its end. */
  function CleansOn(t: Task, k: nat, outcome: Outcome): Task {
    if k < |t.handles| then t.(phase := Closing(k, outcome))
    else t.(phase := Done(outcome), resumed := t.resumed + Resumptions(LastOf(t.waited), outcome))
  }

  function Next(t: Task, e: Event): Task
    requires Possible(t, e)
  {
    match e
    case Registers(h) => t.(handles := t.handles + [h])
    case Ends(outcome) => CleansOn(t, 0, outcome)
    case CloseCallback =>
      CleansOn(t.(closed := t.closed + [t.handles[t.phase.k]]), t.phase.k + 1, t.phase.outcome)
    case Awaits(who) =>
      if t.phase.Done? then
        t.(passed := t.passed + [who], resumed := t.resumed + Resumptions([who], t.phase.outcome))
      else t.(waited := t.waited + [who])
  }

  /** The task after these events from its start, if each of them was possible in its turn. */
  function After(events: seq<Event>): Option<Task>
    decreases |events|
  {
    if events == [] then Some(NEW)
    else
      var last := events[|events| - 1];
      match After(events[..|events| - 1])
      case None => None
      case Some(t) => if Possible(t, last) then Some(Next(t, last)) else None
  }

  // ------------------------------------------------------------ what the events say

  function Registered(events: seq<Event>): seq<Handle> {
    if events == [] then [] else
      Registered(events[..|events| - 1])
      + match events[|events| - 1] case Registers(h) => [h] case _ => []
  }

  function Awaiters(events: seq<Event>): seq<Coroutine> {
    if events == [] then [] else
      Awaiters(events[..|events| - 1])
      + match events[|events| - 1] case Awaits(who) => [who] case _ => []
  }

  function Ending(events: seq<Event>): Option<Outcome> {
    if events == [] then None
    else if events[|events| - 1].Ends? then Some(events[|events| - 1].outcome)
    else Ending(events[..|events| - 1])
  }

  function Callbacks(events: seq<Event>): nat {
    if events == [] then 0 else
      Callbacks(events[..|events| - 1]) + if events[|events| - 1] == CloseCallback then 1 else 0
  }

  /** The body has ended, and every close has come back. */
  predicate AllClosed(events: seq<Event>) {
    Ending(events).Some? && Callbacks(events) == |Registered(events)|
  }

  /** Those that awaited the task before that. */
  function Early(events: seq<Event>): seq<Coroutine> {
    if events == [] then [] else
      var before := events[..|events| - 1];
      Early(before)
      + match events[|events| - 1]
        case Awaits(who) => if AllClosed(before) then [] else [who]
        case _ => []
  }

  // ------------------------------------------------------------ every run

  predicate Closed(t: Task) {
    match t.phase
    case Body => t.closed == []
    case Closing(k, _) => k < |t.handles| && t.closed == t.handles[..k]
    case Done(_) => t.closed == t.handles
  }

  predicate Resumed(t: Task) {
    match t.phase
    case Done(outcome) => t.resumed == Resumptions(LastOf(t.waited) + t.passed, outcome)
    case _ => t.resumed == [] && t.passed == []
  }

  predicate Inv(t: Task) { Closed(t) && Resumed(t) }

  lemma {:induction false} ResumptionsConcat(a: seq<Coroutine>, b: seq<Coroutine>, outcome: Outcome)
    ensures Resumptions(a + b, outcome) == Resumptions(a, outcome) + Resumptions(b, outcome)
  {
    if a == [] {
      assert a + b == b;
    } else {
      assert (a + b)[1..] == a[1..] + b;
      ResumptionsConcat(a[1..], b, outcome);
      ConcatAssoc([Resumption(a[0], outcome)], Resumptions(a[1..], outcome), Resumptions(b, outcome));
    }
  }

  lemma CleansOnKeeps(t: Task, k: nat, outcome: Outcome)
    requires k <= |t.handles| && t.closed == t.handles[..k] && t.resumed == [] && t.passed == []
    ensures Inv(CleansOn(t, k, outcome))
  {
    var last := Resumptions(LastOf(t.waited), outcome);
    assert [] + last == last;
    assert LastOf(t.waited) + [] == LastOf(t.waited);
  }

  lemma NextKeeps(t: Task, e: Event)
    requires Inv(t) && Possible(t, e)
    ensures Inv(Next(t, e))
  {
    match e
    case Registers(_) =>
    case Ends(outcome) => CleansOnKeeps(t, 0, outcome);
    case CloseCallback =>
      var k := t.phase.k;
      assert t.handles[..k + 1] == t.handles[..k] + [t.handles[k]];
      CleansOnKeeps(t.(closed := t.closed + [t.handles[k]]), k + 1, t.phase.outcome);
    case Awaits(who) =>
      if t.phase.Done? {
        ResumptionsConcat(LastOf(t.waited) + t.passed, [who], t.phase.outcome);
        ConcatAssoc(LastOf(t.waited), t.passed, [who]);
      }
  }

  /** What a run's state says about its events. */
  predicate Tells(t: Task, events: seq<Event>) {
    && t.handles == Registered(events)
    && t.waited == Early(events) && t.waited + t.passed == Awaiters(events)
    && |t.closed| == Callbacks(events)
    && Ending(events) == match t.phase
      case Body => None
      case Closing(_, outcome) => Some(outcome)
      case Done(outcome) => Some(outcome)
  }

  /** Main result: in every run the handles are closed in the order they were registered, each once, after the
      body ended; nobody goes on before the last is closed; and then whoever waits goes on with the body's
      outcome, as does everyone that comes later. */
  lemma {:induction false} EveryRun(events: seq<Event>)
    requires After(events).Some?
    ensures Inv(After(events).value) && Tells(After(events).value, events)
    decreases |events|
  {
    if events != [] {
      var n := |events| - 1;
      EveryRun(events[..n]);
      var t, e := After(events[..n]).value, events[n];
      NextKeeps(t, e);
      assert t.waited + [] == t.waited;
      if e.Awaits? {
        ConcatAssoc(t.waited, t.passed, [e.who]);
      }
    }
  }

  /** It is done exactly when the body has ended and as many closes have come back as handles were registered. */
  lemma DoneExactly(events: seq<Event>)
    requires After(events).Some?
    ensures After(events).value.phase.Done? <==> AllClosed(events)
  {
    EveryRun(events);
  }

  /** What can happen next, after any events that could: handles are registered and the body ends while it runs, a
      close comes back while one is awaited, and anyone may await at any time. */
  lemma PossibleExactly(events: seq<Event>, e: Event)
    requires After(events).Some?
    ensures After(events + [e]).Some? <==>
      match e
      case Registers(_) => Ending(events).None?
      case Ends(_) => Ending(events).None?
      case CloseCallback => Ending(events).Some? && Callbacks(events) < |Registered(events)|
      case Awaits(_) => true
  {
    EveryRun(events);
    assert (events + [e])[..|events|] == events && (events + [e])[|events|] == e;
  }

  /** While it is not done and the body has ended, the next close is awaited and brings it nearer. */
  lemma CleaningGoesOn(events: seq<Event>)
    requires After(events).Some? && Ending(events).Some? && !After(events).value.phase.Done?
    ensures After(events + [CloseCallback]).Some? && Callbacks(events) < |Registered(events)|
  {
    EveryRun(events);
    assert (events + [CloseCallback])[..|events|] == events;
  }

  /** A task awaited once: its one awaiter is resumed, once, with the body's outcome, exactly when the task is
      done, whether it came before, during or after the cleaning. */
  lemma AwaitedOnce(events: seq<Event>, who: Coroutine)
    requires After(events).Some? && Awaiters(events) == [who]
    ensures var t := After(events).value;
      t.resumed == if t.phase.Done? then [Resumption(who, t.phase.outcome)] else []
  {
    EveryRun(events);
    var t := After(events).value;
    if t.phase.Done? {
      assert LastOf(t.waited) + t.passed == [who];
      assert Resumptions([who], t.phase.outcome)
          == [Resumption(who, t.phase.outcome)] + Resumptions([], t.phase.outcome);
    }
  }

  lemma {:induction false} ResumptionsLength(who: seq<Coroutine>, outcome: Outcome)
    ensures |Resumptions(who, outcome)| == |who|
  {
    if who != [] {
      ResumptionsLength(who[1..], outcome);
    }
  }

  /** Awaited by more: all of them go on exactly when at most one came before the last close. Of several that did,
      only the last goes on. */
  lemma NobodyIsForgottenExactly(events: seq<Event>)
    requires After(events).Some? && AllClosed(events)
    ensures After(events).value.resumed == Resumptions(Awaiters(events), Ending(events).value)
       <==> |Early(events)| <= 1
  {
    DoneExactly(events);
    EveryRun(events);
    var t := After(events).value;
    ResumptionsLength(Awaiters(events), t.phase.outcome);
    ResumptionsLength(LastOf(t.waited) + t.passed, t.phase.outcome);
    if |t.waited| == 1 {
      assert t.waited == LastOf(t.waited);
    }
  }

  // ------------------------------------------------------------ the coroutine objects

  /** Where the cleaner's coroutine is suspended: before its loop, in the close of a handle, or at its end. */
  datatype Cleaner = AtStart | AtClose(k: nat) | AtEnd

  /** The task's promise, with the cleaner's. */
  class LazyPromise {
    var handles: seq<Handle>
    var result: Option<Outcome>
    var cleaner: Cleaner
    var previous: Option<Coroutine>

    // what has happened
    var closed: seq<Handle>
    var resumed: seq<Resumption>
    ghost var waited: seq<Coroutine>
    ghost var passed: seq<Coroutine>

    ghost predicate Valid()
      reads this
    {
      && (cleaner.AtStart? <==> result == None)
      && (cleaner.AtClose? ==> cleaner.k < |handles|)
      && Linked()
    }

    /** The promise knows the last coroutine that was suspended on the task. */
    ghost predicate Linked()
      reads this
    {
      LastOf(waited) == if previous.Some? then [previous.value] else []
    }

    ghost function State(): Task
      requires Valid()
      reads this
    {
      var phase := match cleaner
        case AtStart => Body
        case AtClose(k) => Closing(k, result.value)
        case AtEnd => Phase.Done(result.value);
      Task(phase, handles, closed, waited, passed, resumed)
    }

    constructor ()
      ensures Valid() && State() == NEW
    {
      handles, result, cleaner, previous := [], None, AtStart, None;
      closed, resumed, waited, passed := [], [], [], [];
    }

    method RegisterHandleForClose(handle: Handle)
      requires Valid() && Possible(State(), Registers(handle))
      modifies this`handles
      ensures Valid() && State() == old(Next(State(), Registers(handle)))
    {
      handles := handles + [handle];
    }

    /** One resumption of `close_handles`: from where it is suspended to where it is suspended next. At its end
        control goes to whoever was set as the previous coroutine. */
    method ResumeCleaner()
      requires result.Some? && !cleaner.AtEnd? && (cleaner.AtClose? ==> cleaner.k < |handles|) && Linked()
      modifies this`cleaner, this`closed, this`resumed
      ensures Valid()
      ensures old(cleaner).AtStart? ==>
        State() == CleansOn(Task(Body, handles, old(closed), waited, passed, old(resumed)), 0, result.value)
      ensures old(cleaner).AtClose? ==>
        var k := old(cleaner).k;
        var now := old(closed) + [handles[k]];
        State() == CleansOn(Task(Body, handles, now, waited, passed, old(resumed)), k + 1, result.value)
    {
      var i := 0;
      if cleaner.AtClose? {
        closed := closed + [handles[cleaner.k]];
        i := cleaner.k + 1;
      }
      if i < |handles| {
        cleaner := AtClose(i);
      } else {
        cleaner := AtEnd;
        OnePrevious(previous, result.value);
        if previous.Some? {
          resumed := resumed + [Resumption(previous.value, result.value)];
        } else {
          assert resumed + [] == resumed;
        }
      }
    }

    /** `final_suspend`: the body has ended and control goes to the cleaner. */
    method FinalSuspend(outcome: Outcome)
      requires Valid() && Possible(State(), Ends(outcome))
      modifies this`result, this`cleaner, this`closed, this`resumed
      ensures Valid() && State() == old(Next(State(), Ends(outcome)))
    {
      result := Some(outcome);
      ResumeCleaner();
    }

    method CloseCb()
      requires Valid() && Possible(State(), CloseCallback)
      modifies this`cleaner, this`closed, this`resumed
      ensures Valid() && State() == old(Next(State(), CloseCallback))
    {
      ResumeCleaner();
    }

    predicate IsDone()
      reads this
      requires Valid()
      ensures IsDone() <==> State().phase.Done?
    {
      result.Some? && cleaner.AtEnd?
    }

    /** `await_suspend` on the task, and what follows at once when it does not suspend. */
    method Await(who: Coroutine) returns (suspended: bool)
      requires Valid()
      modifies this`previous, this`resumed, this`waited, this`passed
      ensures Valid() && State() == old(Next(State(), Awaits(who)))
      ensures suspended <==> !old(State()).phase.Done?
    {
      if IsDone() {
        OnePrevious(Some(who), result.value);
        resumed := resumed + [Resumption(who, result.value)];
        passed := passed + [who];
        return false;
      } else {
        previous := Some(who);
        waited := waited + [who];
        return true;
      }
    }
  }

  lemma OnePrevious(previous: Option<Coroutine>, outcome: Outcome)
    ensures previous.Some? ==> Resumptions([previous.value], outcome) == [Resumption(previous.value, outcome)]
  {
    if previous.Some? {
      assert Resumptions([previous.value], outcome)
          == [Resumption(previous.value, outcome)] + Resumptions([], outcome);
    }
  }
}

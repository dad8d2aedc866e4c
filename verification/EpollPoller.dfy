/** The epoll poller: an interest mask per descriptor in the kernel, kept beside the handler tables. */
module EpollPoller {
  import opened EventTables
  import opened Dispatch

  datatype Interest = Interest(input: bool, output: bool)

  datatype Control = ADD | MOD | DEL

  // epoll_ctl on the interest list: what it becomes, and whether the call succeeds.
  function EpollCtl(kernel: map<int, Interest>, op: Control, fd: int, events: Interest): (map<int, Interest>, bool) {
    match op
    case ADD => if fd in kernel then (kernel, false) else (kernel[fd := events], true)
    case MOD => if fd in kernel then (kernel[fd := events], true) else (kernel, false)
    case DEL => if fd in kernel then (kernel - {fd}, true) else (kernel, false)
  }

  // The kernel watches exactly what has a handler, and each descriptor for exactly those directions.
  ghost predicate Watches(kernel: map<int, Interest>, t: Tables) {
    forall fd {:trigger fd in kernel} ::
      && (fd in kernel <==> fd in t.read || fd in t.write)
      && (fd in kernel ==> kernel[fd] == Interest(fd in t.read, fd in t.write))
  }

  // What epoll_wait reports of one descriptor.
  datatype Event = Event(fd: int, input: bool, output: bool, failure: bool)

  class EpollPoller {
    var fdReadHandlers: map<int, Handler>
    var fdWriteHandlers: map<int, Handler>
    var kernel: map<int, Interest>
    // The handler calls made so far.
    var calls: seq<Call>

    ghost function Registered(): Tables
      reads this`fdReadHandlers, this`fdWriteHandlers
    {
      Tables(fdReadHandlers, fdWriteHandlers)
    }

    ghost predicate Valid()
      reads this
    {
      Watches(kernel, Registered())
    }

    ghost function Status(): State
      reads this
    {
      State(Registered(), calls)
    }

    constructor ()
      ensures Valid() && Registered() == EMPTY && calls == []
    {
      fdReadHandlers, fdWriteHandlers, kernel, calls := map[], map[], map[], [];
    }

    method IsRegistered(fd: int, isForRead: bool) returns (r: bool)
      ensures r == (fd in Registered().Of(if isForRead then Input else Output))
    {
      r := if isForRead then fd in fdReadHandlers else fd in fdWriteHandlers;
    }

    method DoRegister(fd: int, isRead: bool, isRegister: bool) returns (ok: bool)
      modifies this`kernel
      ensures var both := fd in Registered().Of(if isRead then Output else Input);
              var events := if both && isRegister then Interest(true, true)
                            else if both then Interest(!isRead, isRead) else Interest(isRead, !isRead);
              (kernel, ok) == EpollCtl(old(kernel), if both then MOD else if isRegister then ADD else DEL, fd, events)
    {
      var op, events;
      var other := IsRegistered(fd, !isRead);
      if other {
        op := MOD;
        events := if isRegister then Interest(true, true) else if isRead then Interest(false, true) else Interest(true, false);
      } else {
        events := if isRead then Interest(true, false) else Interest(false, true);
        op := if isRegister then ADD else DEL;
      }
      var (after, done) := EpollCtl(kernel, op, fd, events);
      kernel := after;
      ok := done;
    }

    method RegisterForRead(fd: int, handler: Handler) returns (ok: bool)
      requires Valid()
      modifies this
      ensures calls == old(calls)
      ensures Valid() && Outcome(Registered(), ok) == EpollStep(old(Registered()), Register(Input, fd, handler))
    {
      ok := DoRegister(fd, true, true);
      if ok { fdReadHandlers := fdReadHandlers[fd := handler]; }
    }

    method RegisterForWrite(fd: int, handler: Handler) returns (ok: bool)
      requires Valid()
      modifies this
      ensures calls == old(calls)
      ensures Valid() && Outcome(Registered(), ok) == EpollStep(old(Registered()), Register(Output, fd, handler))
    {
      ok := DoRegister(fd, false, true);
      if ok { fdWriteHandlers := fdWriteHandlers[fd := handler]; }
    }

    method DeregisterForRead(fd: int) returns (ok: bool)
      requires Valid()
      modifies this
      ensures calls == old(calls)
      ensures Valid() && Outcome(Registered(), ok) == EpollStep(old(Registered()), Deregister(Input, fd))
    {
      fdReadHandlers := fdReadHandlers - {fd};
      ok := DoRegister(fd, true, false);
    }

    method DeregisterForWrite(fd: int) returns (ok: bool)
      requires Valid()
      modifies this
      ensures calls == old(calls)
      ensures Valid() && Outcome(Registered(), ok) == EpollStep(old(Registered()), Deregister(Output, fd))
    {
      fdWriteHandlers := fdWriteHandlers - {fd};
      ok := DoRegister(fd, false, false);
    }

    method Perform(op: Op) returns (ok: bool)
      requires Valid()
      modifies this
      ensures calls == old(calls)
      ensures Valid() && Outcome(Registered(), ok) == EpollStep(old(Registered()), op)
    {
      match op
      case Register(Input, fd, handler) => ok := RegisterForRead(fd, handler);
      case Register(Output, fd, handler) => ok := RegisterForWrite(fd, handler);
      case Deregister(Input, fd) => ok := DeregisterForRead(fd);
      case Deregister(Output, fd) => ok := DeregisterForWrite(fd);
    }

    // Over every run of calls, valid or not, the kernel watches exactly what the tables say.
    method PerformAll(ops: seq<Op>) returns (oks: seq<bool>)
      requires Valid()
      modifies this
      ensures Valid() && calls == old(calls)
      ensures Results(Registered(), oks) == Run(EpollStep, old(Registered()), ops)
    {
      hide Valid, EpollStep, Run;
      oks := [];
      var i := 0;
      ghost var all := Run(EpollStep, Registered(), ops);
      assert [] + all.oks == all.oks;
      assert ops[0..] == ops;
      while i < |ops|
        invariant i <= |ops| && Valid() && calls == old(calls)
        invariant var rest := Run(EpollStep, Registered(), ops[i..]); all == Results(rest.tables, oks + rest.oks)
      {
        RunNext(EpollStep, Registered(), ops, i, oks);
        var ok := Perform(ops[i]);
        oks := oks + [ok];
        i := i + 1;
      }
      RunEnds(EpollStep, Registered(), ops[i..], oks);
    }

    method TriggerRead(fd: int, react: Reaction) returns (called: bool)
      requires Valid()
      modifies this
      ensures Valid() && called == (fd in old(fdReadHandlers))
      ensures Status() == Trigger(EpollStep, react, old(Status()), Input, fd)
    {
      if fd !in fdReadHandlers { return false; }
      calls := calls + [Call(Input, fd, fdReadHandlers[fd])];
      var _ := PerformAll(react(calls));
      return true;
    }

    method TriggerWrite(fd: int, react: Reaction) returns (called: bool)
      requires Valid()
      modifies this
      ensures Valid() && called == (fd in old(fdWriteHandlers))
      ensures Status() == Trigger(EpollStep, react, old(Status()), Output, fd)
    {
      if fd !in fdWriteHandlers { return false; }
      calls := calls + [Call(Output, fd, fdWriteHandlers[fd])];
      var _ := PerformAll(react(calls));
      return true;
    }

    method TriggerError(fd: int, react: Reaction) returns (called: bool)
      requires Valid()
      modifies this
      ensures Valid() && called == (fd in old(fdReadHandlers) || fd in old(fdWriteHandlers))
      ensures Status() == Turns(EpollStep, react, old(Status()), EventTurns(old(Registered()), Event(fd, false, false, true)))
    {
      called := TriggerRead(fd, react);
      if !called { called := TriggerWrite(fd, react); }
    }

    method ProcessPendingEvents(events: seq<Event>, react: Reaction)
      requires Valid()
      modifies this
      ensures Valid()
      ensures Status() == Events(react, old(Status()), events)
    {
      hide Valid, Trigger;
      var i := 0;
      assert events[0..] == events;
      while i < |events|
        invariant i <= |events| && Valid()
        invariant Events(react, Status(), events[i..]) == Events(react, old(Status()), events)
      {
        var event := events[i];
        assert events[i..][1..] == events[i + 1..];
        TurnsOfEvent(react, Status(), event);
        if event.failure {
          var _ := TriggerError(event.fd, react);
        } else {
          if event.input { var _ := TriggerRead(event.fd, react); }
          if event.output { var _ := TriggerWrite(event.fd, react); }
        }
        i := i + 1;
      }
    }
  }

  // The turns of one event: a failure goes to the reading handler, or to the writing one when there is
  // no reading handler; otherwise what is ready, reading first.
  function EventTurns(t: Tables, event: Event): seq<Turn> {
    if event.failure then [Turn(if event.fd in t.read then Input else Output, event.fd)]
    else TurnsOf(event.input, event.output, event.fd)
  }

  function Events(react: Reaction, st: State, events: seq<Event>): State
    decreases |events|
  {
    if events == [] then st
    else Events(react, Turns(EpollStep, react, st, EventTurns(st.tables, events[0])), events[1..])
  }

  lemma TurnsOfEvent(react: Reaction, st: State, event: Event)
    ensures Turns(EpollStep, react, st, EventTurns(st.tables, event)) ==
            if event.failure then Trigger(EpollStep, react, st, if event.fd in st.tables.read then Input else Output, event.fd)
            else TriggerIf(event.output, EpollStep, react,
                           TriggerIf(event.input, EpollStep, react, st, Input, event.fd), Output, event.fd)
  {
    hide Trigger;
    TurnsOfOne(event.input, event.output, EpollStep, react, st, event.fd);
  }

  // The turns of a whole pass, each event looking at the tables as they are when it comes.
  function PassTurns(react: Reaction, st: State, events: seq<Event>): seq<Turn>
    decreases |events|
  {
    if events == [] then []
    else
      var turns := EventTurns(st.tables, events[0]);
      turns + PassTurns(react, Turns(EpollStep, react, st, turns), events[1..])
  }

  lemma {:induction false} EventsAreTurns(react: Reaction, st: State, events: seq<Event>)
    ensures Events(react, st, events) == Turns(EpollStep, react, st, PassTurns(react, st, events))
    decreases |events|
  {
    hide Turns, EventTurns;
    if events == [] {
      assert Turns(EpollStep, react, st, []) == st by { NoTurns(react, st); }
    } else {
      var turns := EventTurns(st.tables, events[0]);
      var next := Turns(EpollStep, react, st, turns);
      EventsAreTurns(react, next, events[1..]);
      TurnsAppend(EpollStep, react, st, turns, PassTurns(react, next, events[1..]));
    }
  }

  lemma NoTurns(react: Reaction, st: State)
    ensures Turns(EpollStep, react, st, []) == st
  {
  }

  // The event a turn is for.
  lemma {:induction false} EventOf(react: Reaction, st: State, events: seq<Event>, i: nat) returns (a: nat)
    requires i < |PassTurns(react, st, events)|
    ensures a < |events| && events[a].fd == PassTurns(react, st, events)[i].fd
    decreases |events|
  {
    var these := EventTurns(st.tables, events[0]);
    var next := Turns(EpollStep, react, st, these);
    hide Turns;
    if i < |these| {
      a := 0;
    } else {
      a := EventOf(react, next, events[1..], i - |these|);
      a := a + 1;
    }
  }

  // Turns follow the events, and of one event reading comes before writing.
  lemma {:induction false} TurnsInOrder(react: Reaction, st: State, events: seq<Event>, i: nat, j: nat) returns (a: nat, b: nat)
    requires i < j < |PassTurns(react, st, events)|
    ensures var turns := PassTurns(react, st, events);
            && a <= b < |events| && events[a].fd == turns[i].fd && events[b].fd == turns[j].fd
            && (a == b ==> turns[i].direction == Input && turns[j].direction == Output)
    decreases |events|
  {
    var these := EventTurns(st.tables, events[0]);
    var next := Turns(EpollStep, react, st, these);
    hide Turns;
    if j < |these| {
      a, b := 0, 0;
    } else {
      if i < |these| {
        a := 0;
        b := EventOf(react, next, events[1..], j - |these|);
        b := b + 1;
      } else {
        a, b := TurnsInOrder(react, next, events[1..], i - |these|, j - |these|);
        a, b := a + 1, b + 1;
      }
    }
  }

  // epoll_wait reports a descriptor at most once.
  predicate DistinctEvents(events: seq<Event>) {
    forall i, j :: 0 <= i < j < |events| ==> events[i].fd != events[j].fd
  }

  lemma {:induction false} PassTurnsOf(react: Reaction, st: State, events: seq<Event>)
    requires DistinctEvents(events)
    ensures Distinct(PassTurns(react, st, events))
    ensures forall turn <- PassTurns(react, st, events) :: exists event :: event in events && event.fd == turn.fd
    ensures forall event <- events :: !event.failure ==>
              (Turn(Input, event.fd) in PassTurns(react, st, events) <==> event.input) &&
              (Turn(Output, event.fd) in PassTurns(react, st, events) <==> event.output)
    ensures forall event <- events :: event.failure ==>
              (Turn(Input, event.fd) in PassTurns(react, st, events) <==> Turn(Output, event.fd) !in PassTurns(react, st, events))
    decreases |events|
  {
    if events != [] {
      hide Turns;
      var turns := EventTurns(st.tables, events[0]);
      var next := Turns(EpollStep, react, st, turns);
      PassTurnsOf(react, next, events[1..]);
      var rest := PassTurns(react, next, events[1..]);
      forall turn | turn in rest ensures turn.fd != events[0].fd {
        var event :| event in events[1..] && event.fd == turn.fd;
      }
      forall event | event in events[1..] ensures event.fd != events[0].fd {
      }
      assert forall turn <- turns :: turn.fd == events[0].fd && events[0] in events;
    }
  }

  predicate Reported(events: seq<Event>, d: Direction, fd: int) {
    exists event <- events :: event.fd == fd && !event.failure && (if d.Input? then event.input else event.output)
  }

  lemma NotInPass(react: Reaction, st: State, events: seq<Event>, d: Direction, fd: int)
    requires DistinctEvents(events) && !Reported(events, d, fd) && !Failed(events, fd)
    ensures Turn(d, fd) !in PassTurns(react, st, events)
  {
    hide PassTurns;
    PassTurnsOf(react, st, events);
    if exists event <- events :: event.fd == fd {
      var event :| event in events && event.fd == fd;
    }
  }

  predicate Failed(events: seq<Event>, fd: int) {
    exists event <- events :: event.fd == fd && event.failure
  }

  // One pass, for every handler behaviour: nothing is called twice; a descriptor reported ready that
  // stays registered is called exactly once; one that stays unregistered, or is reported neither ready
  // nor failed, is not.
  lemma PassIsFair(react: Reaction, st: State, events: seq<Event>, d: Direction, fd: int)
    requires DistinctEvents(events)
    ensures var called := Called(EpollStep, react, st, PassTurns(react, st, events));
            var times := Times(called, d, fd);
            && Events(react, st, events).calls == st.calls + called
            && times <= 1
            && (Reported(events, d, fd) && fd in st.tables.Of(d) && NeverRemoves(react, d, fd) ==> times == 1)
            && (fd !in st.tables.Of(d) && NeverAdds(react, d, fd) ==> times == 0)
            && (!Reported(events, d, fd) && !Failed(events, fd) ==> times == 0)
  {
    hide PassTurns, Called, Events, Turns, NeverRemoves, NeverAdds;
    var turns := PassTurns(react, st, events);
    PassTurnsOf(react, st, events);
    BothPollersKeepToTheirOps();
    CalledWhileRegistered(EpollStep, react, st, turns, d, fd);
    CallsAreCalled(EpollStep, react, st, turns);
    EventsAreTurns(react, st, events);
    if !Reported(events, d, fd) && !Failed(events, fd) { NotInPass(react, st, events, d, fd); }
  }

  // A failure is told to exactly one handler, if the descriptor has any.
  lemma FailureToldOnce(react: Reaction, st: State, event: Event)
    requires event.failure
    ensures var called := Called(EpollStep, react, st, EventTurns(st.tables, event));
            && |called| == (if event.fd in st.tables.read || event.fd in st.tables.write then 1 else 0)
            && (event.fd in st.tables.read ==> called == [Call(Input, event.fd, st.tables.read[event.fd])])
            && (event.fd !in st.tables.read && event.fd in st.tables.write ==>
                 called == [Call(Output, event.fd, st.tables.write[event.fd])])
  {
  }
}

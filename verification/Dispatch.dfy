/** Dispatching ready descriptors to handlers that may change the tables while they are called. */
module Dispatch {
  import opened EventTables

  datatype Call = Call(direction: Direction, fd: int, handler: Handler)

  // What handlers do to the poller: any function of the calls made so far, the last one included.
  type Reaction = seq<Call> -> seq<Op>

  type Step = (Tables, Op) -> Outcome

  datatype State = State(tables: Tables, calls: seq<Call>)

  // One descriptor's turn in one direction.
  function Trigger(step: Step, react: Reaction, st: State, d: Direction, fd: int): State {
    if fd !in st.tables.Of(d) then st
    else
      var calls := st.calls + [Call(d, fd, st.tables.Of(d)[fd])];
      State(Run(step, st.tables, react(calls)).tables, calls)
  }

  // A list of turns, one after the other.
  datatype Turn = Turn(direction: Direction, fd: int)

  function Turns(step: Step, react: Reaction, st: State, turns: seq<Turn>): State
    decreases |turns|
  {
    if turns == [] then st
    else Turns(step, react, Trigger(step, react, st, turns[0].direction, turns[0].fd), turns[1..])
  }

  lemma {:induction false} TurnsAppend(step: Step, react: Reaction, st: State, first: seq<Turn>, second: seq<Turn>)
    ensures Turns(step, react, st, first + second) == Turns(step, react, Turns(step, react, st, first), second)
    decreases |first|
  {
    if first == [] {
      assert first + second == second;
    } else {
      assert (first + second)[1..] == first[1..] + second;
      TurnsAppend(step, react, Trigger(step, react, st, first[0].direction, first[0].fd), first[1..], second);
    }
  }

  // Up to two turns of one descriptor, reading first.
  function TriggerIf(ready: bool, step: Step, react: Reaction, st: State, d: Direction, fd: int): State {
    if ready then Trigger(step, react, st, d, fd) else st
  }

  function TurnsOf(input: bool, output: bool, fd: int): seq<Turn> {
    (if input then [Turn(Input, fd)] else []) + (if output then [Turn(Output, fd)] else [])
  }

  lemma TurnsOfOne(input: bool, output: bool, step: Step, react: Reaction, st: State, fd: int)
    ensures Turns(step, react, st, TurnsOf(input, output, fd)) ==
            TriggerIf(output, step, react, TriggerIf(input, step, react, st, Input, fd), Output, fd)
  {
    hide Trigger;
    var first, second := if input then [Turn(Input, fd)] else [], if output then [Turn(Output, fd)] else [];
    TurnsAppend(step, react, st, first, second);
    assert first != [] ==> first[1..] == [];
    assert second != [] ==> second[1..] == [];
  }

  // The state just before a turn.
  function Before(step: Step, react: Reaction, st: State, turns: seq<Turn>, k: nat): State
    requires k <= |turns|
  {
    Turns(step, react, st, turns[..k])
  }

  function CallAt(st: State, turn: Turn): (calls: seq<Call>)
    ensures |calls| <= 1
  {
    var handlers := st.tables.Of(turn.direction);
    if turn.fd in handlers then [Call(turn.direction, turn.fd, handlers[turn.fd])] else []
  }

  // The turns that led to a call are the ones whose descriptor was registered when they came.
  function Called(step: Step, react: Reaction, st: State, turns: seq<Turn>): seq<Call>
    decreases |turns|
  {
    if turns == [] then []
    else
      CallAt(st, turns[0]) + Called(step, react, Trigger(step, react, st, turns[0].direction, turns[0].fd), turns[1..])
  }

  lemma {:induction false} CallsAreCalled(step: Step, react: Reaction, st: State, turns: seq<Turn>)
    ensures Turns(step, react, st, turns).calls == st.calls + Called(step, react, st, turns)
    decreases |turns|
  {
    if turns != [] {
      CallsAreCalled(step, react, Trigger(step, react, st, turns[0].direction, turns[0].fd), turns[1..]);
    }
  }

  function Times(calls: seq<Call>, d: Direction, fd: int): nat {
    if calls == [] then 0
    else (if calls[0].direction == d && calls[0].fd == fd then 1 else 0) + Times(calls[1..], d, fd)
  }

  lemma TimesAfter(first: seq<Call>, rest: seq<Call>, d: Direction, fd: int)
    requires |first| <= 1
    ensures Times(first + rest, d, fd) == Times(first, d, fd) + Times(rest, d, fd)
  {
    assert first == [] ==> first + rest == rest;
    assert first != [] ==> (first + rest)[1..] == rest && first[1..] == [];
  }

  predicate Distinct(turns: seq<Turn>) {
    forall i, j :: 0 <= i < j < |turns| ==> turns[i] != turns[j]
  }

  lemma {:induction false} NoTurnNoCall(step: Step, react: Reaction, st: State, turns: seq<Turn>, d: Direction, fd: int)
    requires Turn(d, fd) !in turns
    ensures Times(Called(step, react, st, turns), d, fd) == 0
    decreases |turns|
  {
    if turns != [] {
      var next := Trigger(step, react, st, turns[0].direction, turns[0].fd);
      NoTurnNoCall(step, react, next, turns[1..], d, fd);
      TimesAfter(CallAt(st, turns[0]), Called(step, react, next, turns[1..]), d, fd);
    }
  }

  // A turn leads to one call if its descriptor is registered when it comes and to none otherwise, and
  // nothing else calls that handler.
  lemma {:induction false} CalledOnceExactly(step: Step, react: Reaction, st: State, turns: seq<Turn>, k: nat)
    requires Distinct(turns) && k < |turns|
    ensures var turn := turns[k];
            Times(Called(step, react, st, turns), turn.direction, turn.fd) ==
            if turn.fd in Before(step, react, st, turns, k).tables.Of(turn.direction) then 1 else 0
    decreases |turns|
  {
    var turn, first := turns[k], turns[0];
    var next := Trigger(step, react, st, first.direction, first.fd);
    TimesAfter(CallAt(st, first), Called(step, react, next, turns[1..]), turn.direction, turn.fd);
    if k == 0 {
      NoTurnNoCall(step, react, next, turns[1..], turn.direction, turn.fd);
      assert turns[..0] == [];
    } else {
      CalledOnceExactly(step, react, next, turns[1..], k - 1);
      assert turns[..k][1..] == turns[1..][..k - 1];
      assert Before(step, react, st, turns, k) == Before(step, react, next, turns[1..], k - 1);
    }
  }

  // Every call goes to the handler that its turn finds registered.
  lemma {:induction false} CallsRightHandler(step: Step, react: Reaction, st: State, turns: seq<Turn>, call: Call)
    requires call in Called(step, react, st, turns)
    ensures exists k :: 0 <= k < |turns| && turns[k] == Turn(call.direction, call.fd) &&
              var handlers := Before(step, react, st, turns, k).tables.Of(call.direction);
              call.fd in handlers && handlers[call.fd] == call.handler
    decreases |turns|
  {
    var first := turns[0];
    var next := Trigger(step, react, st, first.direction, first.fd);
    var handlers := st.tables.Of(first.direction);
    if first.fd in handlers && call == Call(first.direction, first.fd, handlers[first.fd]) {
      assert turns[..0] == [];
      assert turns[0] == Turn(call.direction, call.fd);
    } else {
      CallsRightHandler(step, react, next, turns[1..], call);
      var k :| 0 <= k < |turns[1..]| && turns[1..][k] == Turn(call.direction, call.fd) &&
               var handlers := Before(step, react, next, turns[1..], k).tables.Of(call.direction);
               call.fd in handlers && handlers[call.fd] == call.handler;
      assert turns[..k + 1][1..] == turns[1..][..k];
      assert turns[k + 1] == Turn(call.direction, call.fd);
    }
  }

  // Handlers that leave a registration alone.
  ghost predicate NeverRemoves(react: Reaction, d: Direction, fd: int) {
    forall calls: seq<Call> :: Deregister(d, fd) !in react(calls)
  }

  ghost predicate NeverAdds(react: Reaction, d: Direction, fd: int) {
    forall calls: seq<Call>, handler: Handler :: Register(d, fd, handler) !in react(calls)
  }

  ghost predicate KeepsTo(step: Step) {
    forall t: Tables, op: Op, d: Direction, fd: int ::
      && (fd in t.Of(d) && op != Deregister(d, fd) ==> fd in step(t, op).tables.Of(d))
      && (fd !in t.Of(d) && !(op.Register? && op.direction == d && op.fd == fd) ==> fd !in step(t, op).tables.Of(d))
  }

  lemma BothPollersKeepToTheirOps()
    ensures KeepsTo(SelectStep) && KeepsTo(EpollStep)
  {
  }

  lemma {:induction false} RunKeeps(step: Step, t: Tables, ops: seq<Op>, d: Direction, fd: int)
    requires KeepsTo(step)
    ensures fd in t.Of(d) && Deregister(d, fd) !in ops ==> fd in Run(step, t, ops).tables.Of(d)
    ensures fd !in t.Of(d) && (forall handler: Handler :: Register(d, fd, handler) !in ops) ==>
              fd !in Run(step, t, ops).tables.Of(d)
    decreases |ops|
  {
    if ops != [] {
      RunKeeps(step, step(t, ops[0]).tables, ops[1..], d, fd);
      assert ops[0] in ops;
    }
  }

  lemma {:induction false} TurnsKeep(step: Step, react: Reaction, st: State, turns: seq<Turn>, d: Direction, fd: int)
    requires KeepsTo(step)
    ensures fd in st.tables.Of(d) && NeverRemoves(react, d, fd) ==> fd in Turns(step, react, st, turns).tables.Of(d)
    ensures fd !in st.tables.Of(d) && NeverAdds(react, d, fd) ==> fd !in Turns(step, react, st, turns).tables.Of(d)
    decreases |turns|
  {
    if turns != [] {
      var turn := turns[0];
      if turn.fd in st.tables.Of(turn.direction) {
        var calls := st.calls + [Call(turn.direction, turn.fd, st.tables.Of(turn.direction)[turn.fd])];
        RunKeeps(step, st.tables, react(calls), d, fd);
      }
      TurnsKeep(step, react, Trigger(step, react, st, turn.direction, turn.fd), turns[1..], d, fd);
    }
  }

  // A descriptor whose turn comes and that stays registered throughout is called exactly once; one that
  // stays unregistered is not called; and without a turn there is no call.
  lemma CalledWhileRegistered(step: Step, react: Reaction, st: State, turns: seq<Turn>, d: Direction, fd: int)
    requires KeepsTo(step) && Distinct(turns)
    ensures var times := Times(Called(step, react, st, turns), d, fd);
            && times <= 1
            && (Turn(d, fd) in turns && fd in st.tables.Of(d) && NeverRemoves(react, d, fd) ==> times == 1)
            && (fd !in st.tables.Of(d) && NeverAdds(react, d, fd) ==> times == 0)
            && (Turn(d, fd) !in turns ==> times == 0)
  {
    if Turn(d, fd) in turns {
      var k :| 0 <= k < |turns| && turns[k] == Turn(d, fd);
      CalledOnceExactly(step, react, st, turns, k);
      TurnsKeep(step, react, st, turns[..k], d, fd);
    } else {
      NoTurnNoCall(step, react, st, turns, d, fd);
    }
  }
}

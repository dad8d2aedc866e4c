/** Which handler the tables hold: the one given in the last successful registration. */
module Registrations {
  import opened Collections
  import opened EventTables
  import opened Dispatch

  // The handler given in the last registration of a descriptor and direction that returned true.
  function LastGiven(step: Step, t: Tables, ops: seq<Op>, d: Direction, fd: int): Option<Handler>
    decreases |ops|
  {
    if ops == [] then None
    else
      var first := step(t, ops[0]);
      var later := LastGiven(step, first.tables, ops[1..], d, fd);
      if later.Some? then later
      else if ops[0].Register? && ops[0].direction == d && ops[0].fd == fd && first.ok then Some(ops[0].handler)
      else None
  }

  // A step stores the handler of a registration it accepts and otherwise changes no handler it keeps.
  ghost predicate StoresGiven(step: Step) {
    forall t: Tables, op: Op, d: Direction, fd: int :: fd in step(t, op).tables.Of(d) ==>
      if op.Register? && op.direction == d && op.fd == fd && step(t, op).ok then step(t, op).tables.Of(d)[fd] == op.handler
      else fd in t.Of(d) && step(t, op).tables.Of(d)[fd] == t.Of(d)[fd]
  }

  lemma BothPollersStoreGiven()
    ensures StoresGiven(SelectStep) && StoresGiven(EpollStep)
  {
  }

  // After every run the handler of a registered descriptor is the one last given, or the one there before.
  lemma {:induction false} TableHoldsLastGiven(step: Step, t: Tables, ops: seq<Op>, d: Direction, fd: int)
    requires StoresGiven(step) && fd in Run(step, t, ops).tables.Of(d)
    ensures var held, given := Run(step, t, ops).tables.Of(d)[fd], LastGiven(step, t, ops, d, fd);
            if given.Some? then held == given.value else fd in t.Of(d) && held == t.Of(d)[fd]
    decreases |ops|
  {
    if ops != [] {
      TableHoldsLastGiven(step, step(t, ops[0]).tables, ops[1..], d, fd);
    }
  }

  // From empty tables on, whatever is registered was given.
  lemma RegisteredWasGiven(step: Step, ops: seq<Op>, d: Direction, fd: int)
    requires StoresGiven(step) && fd in Run(step, EMPTY, ops).tables.Of(d)
    ensures LastGiven(step, EMPTY, ops, d, fd) == Some(Run(step, EMPTY, ops).tables.Of(d)[fd])
  {
    TableHoldsLastGiven(step, EMPTY, ops, d, fd);
  }

  // What handlers have done to the tables in some turns.
  function Done(step: Step, react: Reaction, st: State, turns: seq<Turn>): seq<Op>
    decreases |turns|
  {
    if turns == [] then []
    else
      var turn := turns[0];
      var handlers := st.tables.Of(turn.direction);
      (if turn.fd in handlers then react(st.calls + [Call(turn.direction, turn.fd, handlers[turn.fd])]) else [])
      + Done(step, react, Trigger(step, react, st, turn.direction, turn.fd), turns[1..])
  }

  lemma {:induction false} RunInTwo(step: Step, t: Tables, first: seq<Op>, second: seq<Op>)
    ensures Run(step, t, first + second).tables == Run(step, Run(step, t, first).tables, second).tables
    decreases |first|
  {
    if first == [] {
      assert first + second == second;
    } else {
      assert (first + second)[1..] == first[1..] + second;
      RunInTwo(step, step(t, first[0]).tables, first[1..], second);
    }
  }

  lemma {:induction false} TurnsDo(step: Step, react: Reaction, st: State, turns: seq<Turn>)
    ensures Turns(step, react, st, turns).tables == Run(step, st.tables, Done(step, react, st, turns)).tables
    decreases |turns|
  {
    if turns != [] {
      var turn := turns[0];
      var handlers := st.tables.Of(turn.direction);
      var next := Trigger(step, react, st, turn.direction, turn.fd);
      var ops := if turn.fd in handlers then react(st.calls + [Call(turn.direction, turn.fd, handlers[turn.fd])]) else [];
      TurnsDo(step, react, next, turns[1..]);
      RunInTwo(step, st.tables, ops, Done(step, react, next, turns[1..]));
    }
  }

  // Every call of a pass, after any run from empty tables, goes to the handler given in the last
  // successful registration before it, those by handlers called earlier in the pass included.
  lemma CallsLastGiven(step: Step, react: Reaction, ops: seq<Op>, calls: seq<Call>, turns: seq<Turn>, call: Call)
    requires StoresGiven(step)
    requires call in Called(step, react, State(Run(step, EMPTY, ops).tables, calls), turns)
    ensures var st := State(Run(step, EMPTY, ops).tables, calls);
            exists k :: 0 <= k < |turns| && turns[k] == Turn(call.direction, call.fd) &&
              LastGiven(step, EMPTY, ops + Done(step, react, st, turns[..k]), call.direction, call.fd) == Some(call.handler)
  {
    hide Called, Run, StoresGiven, LastGiven;
    var st := State(Run(step, EMPTY, ops).tables, calls);
    CallsRightHandler(step, react, st, turns, call);
    var k :| 0 <= k < |turns| && turns[k] == Turn(call.direction, call.fd) &&
             var handlers := Before(step, react, st, turns, k).tables.Of(call.direction);
             call.fd in handlers && handlers[call.fd] == call.handler;
    var done := Done(step, react, st, turns[..k]);
    TurnsDo(step, react, st, turns[..k]);
    RunInTwo(step, EMPTY, ops, done);
    RegisteredWasGiven(step, ops + done, call.direction, call.fd);
  }
}

/** The handler tables both pollers keep, and what each poller does to them in one call. */
module EventTables {
  import opened Collections

  const FD_SETSIZE: nat := 1024

  // A handler is known by its address.
  type Handler = nat

  datatype Direction = Input | Output {
    function Other(): Direction {
      if Input? then Output else Input
    }
  }

  datatype Tables = Tables(read: map<int, Handler>, write: map<int, Handler>) {
    function Of(d: Direction): map<int, Handler> {
      if d.Input? then read else write
    }

    function With(d: Direction, m: map<int, Handler>): Tables {
      if d.Input? then this.(read := m) else this.(write := m)
    }
  }

  const EMPTY: Tables := Tables(map[], map[])

  datatype Op = Register(direction: Direction, fd: int, handler: Handler) | Deregister(direction: Direction, fd: int)

  // What a call leaves in the tables, and what it returns.
  datatype Outcome = Outcome(tables: Tables, ok: bool)

  predicate InRange(fd: int) {
    0 <= fd < FD_SETSIZE
  }

  function Finish(t: Tables, op: Op, ok: bool): Outcome {
    match op
    case Register(d, fd, handler) => Outcome(if ok then t.With(d, t.Of(d)[fd := handler]) else t, ok)
    case Deregister(d, fd) => Outcome(t.With(d, t.Of(d) - {fd}), ok)
  }

  // The select poller takes a registration for a small descriptor that is not yet registered in that
  // direction, and a removal of one that is.
  function SelectStep(t: Tables, op: Op): Outcome {
    match op
    case Register(d, fd, _) => Finish(t, op, InRange(fd) && fd !in t.Of(d))
    case Deregister(d, fd) => Finish(t, op, InRange(fd) && fd in t.Of(d))
  }

  // The epoll poller goes by what the descriptor is registered for in the other direction.
  function EpollStep(t: Tables, op: Op): Outcome {
    match op
    case Register(d, fd, _) => Finish(t, op, fd !in t.Of(d) || fd in t.Of(d.Other()))
    case Deregister(d, fd) => Finish(t, op, fd in t.Of(d) || fd in t.Of(d.Other()))
  }

  // Runs of calls: the tables at the end and everything that was returned.
  datatype Results = Results(tables: Tables, oks: seq<bool>)

  function Run(step: (Tables, Op) -> Outcome, t: Tables, ops: seq<Op>): Results
    decreases |ops|
  {
    if ops == [] then Results(t, [])
    else
      var first := step(t, ops[0]);
      var rest := Run(step, first.tables, ops[1..]);
      Results(rest.tables, [first.ok] + rest.oks)
  }

  // One call of a run after those that have returned.
  lemma RunNext(step: (Tables, Op) -> Outcome, t: Tables, ops: seq<Op>, i: nat, oks: seq<bool>)
    requires i < |ops|
    ensures var first, rest := step(t, ops[i]), Run(step, t, ops[i..]);
            var later := Run(step, first.tables, ops[i + 1..]);
            rest.tables == later.tables && oks + rest.oks == oks + [first.ok] + later.oks
  {
    assert ops[i..][1..] == ops[i + 1..];
  }

  lemma RunEnds(step: (Tables, Op) -> Outcome, t: Tables, ops: seq<Op>, oks: seq<bool>)
    requires ops == []
    ensures Run(step, t, ops) == Results(t, []) && oks + Run(step, t, ops).oks == oks
  {
  }

  ghost predicate Small(t: Tables) {
    forall d: Direction, fd :: fd in t.Of(d) ==> InRange(fd)
  }

  // What the select poller takes: descriptors from 0 to 1023, once in each direction.
  lemma SelectTakes(t: Tables, d: Direction, fd: int, handler: Handler)
    ensures SelectStep(t, Register(d, fd, handler)).ok <==> 0 <= fd <= 1023 && fd !in (if d == Input then t.read else t.write)
    ensures SelectStep(t, Deregister(d, fd)).ok <==> 0 <= fd <= 1023 && fd in (if d == Input then t.read else t.write)
  {
  }

  // What the epoll poller takes.
  lemma EpollTakes(t: Tables, d: Direction, fd: int, handler: Handler)
    ensures var here, other := if d == Input then t.read else t.write, if d == Input then t.write else t.read;
            && (EpollStep(t, Register(d, fd, handler)).ok <==> fd !in here || fd in other)
            && (EpollStep(t, Deregister(d, fd)).ok <==> fd in here || fd in other)
  {
  }

  // The calls on which the pollers agree: a registration of a small descriptor that is new in its
  // direction or not registered in the other, and a removal that is not a stray one from the other
  // direction.
  predicate Agreeable(t: Tables, op: Op) {
    match op
    case Register(d, fd, _) => if fd in t.Of(d) then fd !in t.Of(d.Other()) else InRange(fd)
    case Deregister(d, fd) => fd in t.Of(d) || fd !in t.Of(d.Other())
  }

  lemma StepsAgreeExactly(t: Tables, op: Op)
    requires Small(t)
    ensures SelectStep(t, op) == EpollStep(t, op) <==> Agreeable(t, op)
    ensures SelectStep(t, op).ok == EpollStep(t, op).ok <==> Agreeable(t, op)
    ensures Small(SelectStep(t, op).tables)
  {
    var d := op.direction;
    assert op.fd in t.Of(d) ==> InRange(op.fd);
    assert op.fd in t.Of(d.Other()) ==> InRange(op.fd);
    var after := SelectStep(t, op).tables;
    assert forall e: Direction, fd :: fd in after.Of(e) ==> fd in t.Of(e) || InRange(fd);
  }

  ghost predicate RunAgreeable(t: Tables, ops: seq<Op>)
    decreases |ops|
  {
    ops != [] ==> Agreeable(t, ops[0]) && RunAgreeable(SelectStep(t, ops[0]).tables, ops[1..])
  }

  // Two pollers that start with the same tables return the same all along a run exactly when every
  // call is one they agree on; and then they end with the same tables.
  lemma {:induction false} RunsAgreeExactly(t: Tables, ops: seq<Op>)
    requires Small(t)
    ensures Run(SelectStep, t, ops).oks == Run(EpollStep, t, ops).oks <==> RunAgreeable(t, ops)
    ensures RunAgreeable(t, ops) ==> Run(SelectStep, t, ops) == Run(EpollStep, t, ops)
    decreases |ops|
  {
    if ops != [] {
      var select, epoll := SelectStep(t, ops[0]), EpollStep(t, ops[0]);
      StepsAgreeExactly(t, ops[0]);
      var a, b := Run(SelectStep, t, ops), Run(EpollStep, t, ops);
      assert a.oks[0] == select.ok && b.oks[0] == epoll.ok;
      if Agreeable(t, ops[0]) {
        RunsAgreeExactly(select.tables, ops[1..]);
        assert a.oks[1..] == Run(SelectStep, select.tables, ops[1..]).oks;
        assert b.oks[1..] == Run(EpollStep, select.tables, ops[1..]).oks;
      }
    }
  }

  // Calls that register what is not registered and remove what is, for small descriptors.
  ghost predicate Proper(t: Tables, ops: seq<Op>)
    decreases |ops|
  {
    ops != [] ==>
      var op := ops[0];
      InRange(op.fd) && (op.Register? <==> op.fd !in t.Of(op.direction)) && Proper(SelectStep(t, op).tables, ops[1..])
  }

  lemma {:induction false} ProperRunsAgree(t: Tables, ops: seq<Op>)
    requires Small(t) && Proper(t, ops)
    ensures RunAgreeable(t, ops)
    ensures Run(SelectStep, t, ops) == Run(EpollStep, t, ops)
    ensures forall ok <- Run(SelectStep, t, ops).oks :: ok
    decreases |ops|
  {
    if ops != [] {
      StepsAgreeExactly(t, ops[0]);
      ProperRunsAgree(SelectStep(t, ops[0]).tables, ops[1..]);
      RunsAgreeExactly(t, ops);
    }
  }

  // The largest descriptor of a set, or -1.
  ghost predicate IsLargest(fds: set<int>, r: int) {
    r >= -1 && (forall fd <- fds :: fd <= r) && (r == -1 || r in fds)
  }

  method LargestKey(handlers: map<int, Handler>) returns (r: int)
    ensures IsLargest(handlers.Keys, r)
  {
    r := -1;
    var left: set<int> := handlers.Keys;
    while left != {}
      invariant left <= handlers.Keys && r >= -1
      invariant forall fd :: fd in handlers && fd !in left ==> fd <= r
      invariant r == -1 || r in handlers
      decreases |left|
    {
      ghost var _ := SomeElement(left);
      var fd :| fd in left;
      if fd > r { r := fd; }
      left := left - {fd};
    }
  }

  method MaxFD(t: Tables) returns (r: int)
    ensures IsLargest(t.read.Keys + t.write.Keys, r)
  {
    var readMaxFD := LargestKey(t.read);
    var writeMaxFD := LargestKey(t.write);
    r := if readMaxFD < writeMaxFD then writeMaxFD else readMaxFD;
  }
}

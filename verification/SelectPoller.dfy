/** The select poller: bit sets, a largest descriptor and a write count kept beside the handler tables. */
module SelectPoller {
  import opened Collections
  import opened EventTables
  import opened Dispatch

  type FdSet = s: seq<bool> | |s| == FD_SETSIZE witness seq(FD_SETSIZE, _ => false)

  // The turns of a dispatch pass: descriptors upwards, reading before writing.
  function ReadyTurns(readFDs: FdSet, writeFDs: FdSet, fd: nat): seq<Turn>
    requires fd <= FD_SETSIZE
    decreases FD_SETSIZE - fd
  {
    if fd == FD_SETSIZE then []
    else TurnsOf(readFDs[fd], writeFDs[fd], fd) + ReadyTurns(readFDs, writeFDs, fd + 1)
  }

  lemma {:induction false} ReadyTurnsExactly(readFDs: FdSet, writeFDs: FdSet, from: nat, turn: Turn)
    requires from <= FD_SETSIZE
    ensures turn in ReadyTurns(readFDs, writeFDs, from) <==>
            from <= turn.fd < FD_SETSIZE && (if turn.direction.Input? then readFDs else writeFDs)[turn.fd]
    decreases FD_SETSIZE - from
  {
    if from < FD_SETSIZE {
      TurnsOfExactly(readFDs, writeFDs, from, turn);
      hide TurnsOf;
      ReadyTurnsExactly(readFDs, writeFDs, from + 1, turn);
    }
  }

  // The order of the turns: descriptors upwards, and of one descriptor reading before writing.
  predicate Precedes(first: Turn, second: Turn) {
    first.fd < second.fd || (first.fd == second.fd && first.direction == Input && second.direction == Output)
  }

  lemma {:induction false} TurnsInOrder(readFDs: FdSet, writeFDs: FdSet, from: nat)
    requires from <= FD_SETSIZE
    ensures var turns := ReadyTurns(readFDs, writeFDs, from);
            && (forall turn <- turns :: from <= turn.fd)
            && (forall i, j :: 0 <= i < j < |turns| ==> Precedes(turns[i], turns[j]))
    decreases FD_SETSIZE - from
  {
    if from < FD_SETSIZE {
      TurnsInOrder(readFDs, writeFDs, from + 1);
      var these, rest := TurnsOf(readFDs[from], writeFDs[from], from), ReadyTurns(readFDs, writeFDs, from + 1);
      var turns := ReadyTurns(readFDs, writeFDs, from);
      assert turns == these + rest;
      forall i, j | 0 <= i < j < |turns| ensures Precedes(turns[i], turns[j]) {
        if j < |these| {
          assert turns[i] == these[i] && turns[j] == these[j];
        } else if i < |these| {
          assert turns[i] == these[i] && turns[j] == rest[j - |these|];
          assert turns[j] in rest && turns[i].fd == from;
        } else {
          assert turns[i] == rest[i - |these|] && turns[j] == rest[j - |these|];
        }
      }
    }
  }

  lemma TurnsOfExactly(readFDs: FdSet, writeFDs: FdSet, fd: nat, turn: Turn)
    requires fd < FD_SETSIZE
    ensures turn in TurnsOf(readFDs[fd], writeFDs[fd], fd) <==>
            turn.fd == fd && (if turn.direction.Input? then readFDs else writeFDs)[fd]
  {
  }

  lemma {:induction false} ReadyTurnsDistinct(readFDs: FdSet, writeFDs: FdSet, from: nat)
    requires from <= FD_SETSIZE
    ensures Distinct(ReadyTurns(readFDs, writeFDs, from))
    decreases FD_SETSIZE - from
  {
    if from < FD_SETSIZE {
      ReadyTurnsDistinct(readFDs, writeFDs, from + 1);
      var now, rest := TurnsOf(readFDs[from], writeFDs[from], from), ReadyTurns(readFDs, writeFDs, from + 1);
      forall turn | turn in rest ensures turn.fd > from {
        ReadyTurnsExactly(readFDs, writeFDs, from + 1, turn);
      }
    }
  }

  // Turns of descriptors that are not registered change nothing.
  lemma {:induction false} UnregisteredTurns(react: Reaction, st: State, readFDs: FdSet, writeFDs: FdSet, from: nat)
    requires from <= FD_SETSIZE
    requires forall fd :: fd in st.tables.read.Keys + st.tables.write.Keys ==> fd < from
    ensures Turns(SelectStep, react, st, ReadyTurns(readFDs, writeFDs, from)) == st
    decreases FD_SETSIZE - from
  {
    if from < FD_SETSIZE {
      UnregisteredTurns(react, st, readFDs, writeFDs, from + 1);
      TurnsAppend(SelectStep, react, st, TurnsOf(readFDs[from], writeFDs[from], from), ReadyTurns(readFDs, writeFDs, from + 1));
      TurnsOfOne(readFDs[from], writeFDs[from], SelectStep, react, st, from);
      assert from !in st.tables.read.Keys + st.tables.write.Keys;
    }
  }

  lemma NoTurns(react: Reaction, st: State)
    ensures Turns(SelectStep, react, st, []) == st
  {
  }

  lemma NextTurns(react: Reaction, st: State, readFDs: FdSet, writeFDs: FdSet, fd: nat)
    requires fd < FD_SETSIZE
    ensures Turns(SelectStep, react, st, ReadyTurns(readFDs, writeFDs, fd)) ==
            Turns(SelectStep, react,
                  TriggerIf(writeFDs[fd], SelectStep, react, TriggerIf(readFDs[fd], SelectStep, react, st, Input, fd), Output, fd),
                  ReadyTurns(readFDs, writeFDs, fd + 1))
    ensures |ReadyTurns(readFDs, writeFDs, fd)| ==
            (if readFDs[fd] then 1 else 0) + (if writeFDs[fd] then 1 else 0) + |ReadyTurns(readFDs, writeFDs, fd + 1)|
  {
    hide TriggerIf;
    TurnsAppend(SelectStep, react, st, TurnsOf(readFDs[fd], writeFDs[fd], fd), ReadyTurns(readFDs, writeFDs, fd + 1));
    TurnsOfOne(readFDs[fd], writeFDs[fd], SelectStep, react, st, fd);
  }

  predicate NoneFrom(t: Tables, from: nat) {
    forall fd :: fd in t.read.Keys + t.write.Keys ==> fd < from
  }

  // How many ready turns a pass leaves out: those from the first descriptor on that finds nothing
  // registered at or above it.
  ghost function LeftOver(react: Reaction, st: State, readFDs: FdSet, writeFDs: FdSet, fd: nat): nat
    requires fd <= FD_SETSIZE
    decreases FD_SETSIZE - fd
  {
    if fd == FD_SETSIZE || NoneFrom(st.tables, fd) then |ReadyTurns(readFDs, writeFDs, fd)|
    else LeftOver(react, AfterTurnsOf(react, st, readFDs, writeFDs, fd), readFDs, writeFDs, fd + 1)
  }

  function AfterTurnsOf(react: Reaction, st: State, readFDs: FdSet, writeFDs: FdSet, fd: nat): State
    requires fd < FD_SETSIZE
  {
    TriggerIf(writeFDs[fd], SelectStep, react, TriggerIf(readFDs[fd], SelectStep, react, st, Input, fd), Output, fd)
  }

  // A pass that has come to a descriptor: the turns up to it are taken and nothing else has happened.
  ghost predicate InPass(react: Reaction, start: State, now: State, readFDs: FdSet, writeFDs: FdSet, fd: nat)
    requires fd <= FD_SETSIZE
  {
    var turns, left := ReadyTurns(readFDs, writeFDs, 0), ReadyTurns(readFDs, writeFDs, fd);
    && |left| <= |turns| && turns[|turns| - |left|..] == left
    && now == Turns(SelectStep, react, start, turns[..|turns| - |left|])
    && LeftOver(react, start, readFDs, writeFDs, 0) == LeftOver(react, now, readFDs, writeFDs, fd)
  }

  lemma PassBegins(react: Reaction, st: State, readFDs: FdSet, writeFDs: FdSet)
    ensures InPass(react, st, st, readFDs, writeFDs, 0)
  {
    var turns := ReadyTurns(readFDs, writeFDs, 0);
    assert turns[..0] == [];
    NoTurns(react, st);
  }

  lemma NextInPass(react: Reaction, start: State, now: State, readFDs: FdSet, writeFDs: FdSet, fd: nat)
    requires fd < FD_SETSIZE && InPass(react, start, now, readFDs, writeFDs, fd) && !NoneFrom(now.tables, fd)
    ensures InPass(react, start, AfterTurnsOf(react, now, readFDs, writeFDs, fd), readFDs, writeFDs, fd + 1)
  {
    hide ReadyTurns, NoneFrom, TriggerIf, Turns, TurnsOf, SelectStep;
    var turns, left, rest := ReadyTurns(readFDs, writeFDs, 0), ReadyTurns(readFDs, writeFDs, fd), ReadyTurns(readFDs, writeFDs, fd + 1);
    var these, done := TurnsOf(readFDs[fd], writeFDs[fd], fd), turns[..|turns| - |left|];
    FirstTurns(readFDs, writeFDs, fd);
    CutBehind(turns, done, these, rest);
    TurnsAppend(SelectStep, react, start, done, these);
    TurnsOfOne(readFDs[fd], writeFDs[fd], SelectStep, react, now, fd);
  }

  lemma FirstTurns(readFDs: FdSet, writeFDs: FdSet, fd: nat)
    requires fd < FD_SETSIZE
    ensures ReadyTurns(readFDs, writeFDs, fd) == TurnsOf(readFDs[fd], writeFDs[fd], fd) + ReadyTurns(readFDs, writeFDs, fd + 1)
  {
  }

  lemma CutBehind(all: seq<Turn>, done: seq<Turn>, these: seq<Turn>, rest: seq<Turn>)
    requires |these + rest| <= |all| && all[|all| - |these + rest|..] == these + rest && done == all[..|all| - |these + rest|]
    ensures |rest| <= |all| && all[|all| - |rest|..] == rest && all[..|all| - |rest|] == done + these
  {
    assert all == done + (these + rest);
  }

  // Whatever is left, when nothing is left or nothing is registered there, changes nothing.
  lemma PassEnds(react: Reaction, start: State, now: State, readFDs: FdSet, writeFDs: FdSet, fd: nat)
    requires fd <= FD_SETSIZE && InPass(react, start, now, readFDs, writeFDs, fd)
    requires ReadyTurns(readFDs, writeFDs, fd) == [] || NoneFrom(now.tables, fd)
    ensures var turns, left := ReadyTurns(readFDs, writeFDs, 0), |ReadyTurns(readFDs, writeFDs, fd)|;
            && left == LeftOver(react, start, readFDs, writeFDs, 0) <= |turns|
            && now == Turns(SelectStep, react, start, turns)
            && now == Turns(SelectStep, react, start, turns[..|turns| - left])
            && (forall turn <- turns[|turns| - left..] :: turn.fd !in now.tables.Of(turn.direction))
  {
    var turns, left := ReadyTurns(readFDs, writeFDs, 0), ReadyTurns(readFDs, writeFDs, fd);
    var done := turns[..|turns| - |left|];
    assert turns == done + left;
    if left == [] {
      assert done == turns;
      NothingLeftOver(react, now, readFDs, writeFDs, fd);
    } else {
      TurnsAppend(SelectStep, react, start, done, left);
      UnregisteredTurns(react, now, readFDs, writeFDs, fd);
      forall turn | turn in left ensures turn.fd !in now.tables.Of(turn.direction) {
        ReadyTurnsExactly(readFDs, writeFDs, fd, turn);
        assert turn.fd !in now.tables.read.Keys + now.tables.write.Keys;
      }
    }
  }

  lemma {:induction false} NothingLeftOver(react: Reaction, st: State, readFDs: FdSet, writeFDs: FdSet, fd: nat)
    requires fd <= FD_SETSIZE && ReadyTurns(readFDs, writeFDs, fd) == []
    ensures LeftOver(react, st, readFDs, writeFDs, fd) == 0
    decreases FD_SETSIZE - fd
  {
    if fd < FD_SETSIZE {
      assert ReadyTurns(readFDs, writeFDs, fd + 1) == [];
      NothingLeftOver(react, AfterTurnsOf(react, st, readFDs, writeFDs, fd), readFDs, writeFDs, fd + 1);
    }
  }

  lemma {:induction false} LeftOverAtMost(react: Reaction, st: State, readFDs: FdSet, writeFDs: FdSet, fd: nat)
    requires fd <= FD_SETSIZE
    ensures LeftOver(react, st, readFDs, writeFDs, fd) <= |ReadyTurns(readFDs, writeFDs, fd)|
    decreases FD_SETSIZE - fd
  {
    hide NoneFrom, AfterTurnsOf;
    if fd < FD_SETSIZE {
      LeftOverAtMost(react, AfterTurnsOf(react, st, readFDs, writeFDs, fd), readFDs, writeFDs, fd + 1);
    }
  }

  lemma SomeRegistered(st: State, readFDs: FdSet, writeFDs: FdSet, fd: nat)
    requires fd <= FD_SETSIZE && ReadyTurns(readFDs, writeFDs, fd) != []
    requires forall k :: fd <= k < FD_SETSIZE ==>
               (readFDs[k] ==> k in st.tables.read) && (writeFDs[k] ==> k in st.tables.write)
    ensures fd < FD_SETSIZE && !NoneFrom(st.tables, fd)
  {
    var turn := ReadyTurns(readFDs, writeFDs, fd)[0];
    ReadyTurnsExactly(readFDs, writeFDs, fd, turn);
    hide ReadyTurns;
    assert turn.fd in st.tables.read.Keys + st.tables.write.Keys;
  }

  // When everything ready is registered, as it is after select, what is left over is the count that select
  // returned only if that was zero.
  lemma {:induction false} LeftOverIsCountExactly(react: Reaction, st: State, readFDs: FdSet, writeFDs: FdSet, fd: nat)
    requires fd <= FD_SETSIZE
    requires forall k :: fd <= k < FD_SETSIZE ==>
               (readFDs[k] ==> k in st.tables.read) && (writeFDs[k] ==> k in st.tables.write)
    ensures LeftOver(react, st, readFDs, writeFDs, fd) == |ReadyTurns(readFDs, writeFDs, fd)| <==>
            ReadyTurns(readFDs, writeFDs, fd) == []
    decreases FD_SETSIZE - fd
  {
    if ReadyTurns(readFDs, writeFDs, fd) == [] {
      NothingLeftOver(react, st, readFDs, writeFDs, fd);
    } else {
      SomeRegistered(st, readFDs, writeFDs, fd);
      hide NoneFrom;
      if readFDs[fd] || writeFDs[fd] {
        LeftOverAtMost(react, AfterTurnsOf(react, st, readFDs, writeFDs, fd), readFDs, writeFDs, fd + 1);
      } else {
        LeftOverIsCountExactly(react, st, readFDs, writeFDs, fd + 1);
      }
    }
  }

  // The select system call on the first n descriptors: what is asked for and can be served, and how
  // many that are.  A set that is not passed is left alone and counts for nothing.
  datatype Selected = Selected(count: nat, readFDs: FdSet, writeFDs: Option<FdSet>)

  function Both(asked: FdSet, can: FdSet, n: int): (s: FdSet)
    ensures forall fd :: 0 <= fd < FD_SETSIZE ==> s[fd] == (fd < n && asked[fd] && can[fd])
  {
    seq(FD_SETSIZE, fd requires 0 <= fd < FD_SETSIZE => fd < n && asked[fd] && can[fd])
  }

  function NoFds(): FdSet {
    seq(FD_SETSIZE, _ => false)
  }

  function Select(n: int, readFDs: FdSet, writeFDs: Option<FdSet>, canRead: FdSet, canWrite: FdSet): Selected {
    var r := Both(readFDs, canRead, n);
    var w := if writeFDs.Some? then Both(writeFDs.value, canWrite, n) else NoFds();
    Selected(|ReadyTurns(r, w, 0)|, r, if writeFDs.Some? then Some(w) else None)
  }

  // The descriptors that can be served now and have a handler.
  function Ready(handlers: map<int, Handler>, can: FdSet): (s: FdSet)
    ensures forall fd :: 0 <= fd < FD_SETSIZE ==> s[fd] == (fd in handlers && can[fd])
  {
    seq(FD_SETSIZE, fd requires 0 <= fd < FD_SETSIZE => fd in handlers && can[fd])
  }

  class SelectPoller {
    var fdReadHandlers: map<int, Handler>
    var fdWriteHandlers: map<int, Handler>
    var fdReadSet: FdSet
    var fdWriteSet: FdSet
    var fdLargest: int
    var fdWriteCount: int
    // The handler calls made so far.
    var calls: seq<Call>

    ghost function Registered(): Tables
      reads this`fdReadHandlers, this`fdWriteHandlers
    {
      Tables(fdReadHandlers, fdWriteHandlers)
    }

    // The cached indexes say what the tables say.
    ghost predicate Valid()
      reads this
    {
      && (forall fd :: fd in fdReadHandlers <==> InRange(fd) && fdReadSet[fd])
      && (forall fd :: fd in fdWriteHandlers <==> InRange(fd) && fdWriteSet[fd])
      && fdWriteCount == |fdWriteHandlers|
      && IsLargest(fdReadHandlers.Keys + fdWriteHandlers.Keys, fdLargest)
    }

    constructor ()
      ensures Valid() && Registered() == EMPTY && calls == []
    {
      fdReadHandlers, fdWriteHandlers := map[], map[];
      fdReadSet, fdWriteSet := seq(FD_SETSIZE, _ => false), seq(FD_SETSIZE, _ => false);
      fdLargest, fdWriteCount, calls := -1, 0, [];
    }

    method DoRegisterForRead(fd: int) returns (ok: bool)
      modifies this`fdReadSet, this`fdLargest
      ensures ok == (InRange(fd) && !old(fdReadSet)[fd])
      ensures fdReadSet == if ok then old(fdReadSet)[fd := true] else old(fdReadSet)
      ensures fdLargest == if ok && fd > old(fdLargest) then fd else old(fdLargest)
    {
      if fd < 0 || FD_SETSIZE <= fd { return false; }
      if fdReadSet[fd] { return false; }
      fdReadSet := fdReadSet[fd := true];
      if fd > fdLargest { fdLargest := fd; }
      return true;
    }

    method DoRegisterForWrite(fd: int) returns (ok: bool)
      modifies this`fdWriteSet, this`fdLargest, this`fdWriteCount
      ensures ok == (InRange(fd) && !old(fdWriteSet)[fd])
      ensures fdWriteSet == if ok then old(fdWriteSet)[fd := true] else old(fdWriteSet)
      ensures fdLargest == if ok && fd > old(fdLargest) then fd else old(fdLargest)
      ensures fdWriteCount == if ok then old(fdWriteCount) + 1 else old(fdWriteCount)
    {
      if fd < 0 || FD_SETSIZE <= fd { return false; }
      if fdWriteSet[fd] { return false; }
      fdWriteSet := fdWriteSet[fd := true];
      if fd > fdLargest { fdLargest := fd; }
      fdWriteCount := fdWriteCount + 1;
      return true;
    }

    // The table has lost its entry already when the bit is cleared.
    method DoDeregisterForRead(fd: int) returns (ok: bool)
      modifies this`fdReadSet, this`fdLargest
      ensures ok == (InRange(fd) && old(fdReadSet)[fd])
      ensures fdReadSet == if ok then old(fdReadSet)[fd := false] else old(fdReadSet)
      ensures ok && fd == old(fdLargest) ==> IsLargest(fdReadHandlers.Keys + fdWriteHandlers.Keys, fdLargest)
      ensures !(ok && fd == old(fdLargest)) ==> fdLargest == old(fdLargest)
    {
      if fd < 0 || FD_SETSIZE <= fd { return false; }
      if !fdReadSet[fd] { return false; }
      fdReadSet := fdReadSet[fd := false];
      if fd == fdLargest { fdLargest := MaxFD(Tables(fdReadHandlers, fdWriteHandlers)); }
      return true;
    }

    method DoDeregisterForWrite(fd: int) returns (ok: bool)
      modifies this`fdWriteSet, this`fdLargest, this`fdWriteCount
      ensures ok == (InRange(fd) && old(fdWriteSet)[fd])
      ensures fdWriteSet == if ok then old(fdWriteSet)[fd := false] else old(fdWriteSet)
      ensures ok && fd == old(fdLargest) ==> IsLargest(fdReadHandlers.Keys + fdWriteHandlers.Keys, fdLargest)
      ensures !(ok && fd == old(fdLargest)) ==> fdLargest == old(fdLargest)
      ensures fdWriteCount == if ok then old(fdWriteCount) - 1 else old(fdWriteCount)
    {
      if fd < 0 || FD_SETSIZE <= fd { return false; }
      if !fdWriteSet[fd] { return false; }
      fdWriteSet := fdWriteSet[fd := false];
      if fd == fdLargest { fdLargest := MaxFD(Tables(fdReadHandlers, fdWriteHandlers)); }
      fdWriteCount := fdWriteCount - 1;
      return true;
    }

    method RegisterForRead(fd: int, handler: Handler) returns (ok: bool)
      requires Valid()
      modifies this
      ensures calls == old(calls)
      ensures Valid() && Outcome(Registered(), ok) == SelectStep(old(Registered()), Register(Input, fd, handler))
    {
      ok := DoRegisterForRead(fd);
      if ok { fdReadHandlers := fdReadHandlers[fd := handler]; }
    }

    method RegisterForWrite(fd: int, handler: Handler) returns (ok: bool)
      requires Valid()
      modifies this
      ensures calls == old(calls)
      ensures Valid() && Outcome(Registered(), ok) == SelectStep(old(Registered()), Register(Output, fd, handler))
    {
      ok := DoRegisterForWrite(fd);
      if ok { fdWriteHandlers := fdWriteHandlers[fd := handler]; }
    }

    static lemma Removed(handlers: map<int, Handler>, others: map<int, Handler>, fd: int, largest: int)
      requires IsLargest(handlers.Keys + others.Keys, largest)
      ensures fd != largest || fd !in handlers ==> IsLargest((handlers - {fd}).Keys + others.Keys, largest)
      ensures (handlers - {fd}).Keys + others.Keys == others.Keys + (handlers - {fd}).Keys
      ensures handlers.Keys + others.Keys == others.Keys + handlers.Keys
      ensures |handlers - {fd}| == if fd in handlers then |handlers| - 1 else |handlers|
      ensures forall f :: f in handlers - {fd} <==> f in handlers && f != fd
    {
      assert (handlers - {fd}).Keys == handlers.Keys - {fd};
    }

    method DeregisterForRead(fd: int) returns (ok: bool)
      requires Valid()
      modifies this
      ensures calls == old(calls)
      ensures Valid() && Outcome(Registered(), ok) == SelectStep(old(Registered()), Deregister(Input, fd))
    {
      Removed(fdReadHandlers, fdWriteHandlers, fd, fdLargest);
      hide IsLargest;
      fdReadHandlers := fdReadHandlers - {fd};
      ok := DoDeregisterForRead(fd);
    }

    method DeregisterForWrite(fd: int) returns (ok: bool)
      requires Valid()
      modifies this
      ensures calls == old(calls)
      ensures Valid() && Outcome(Registered(), ok) == SelectStep(old(Registered()), Deregister(Output, fd))
    {
      Removed(fdWriteHandlers, fdReadHandlers, fd, fdLargest);
      hide IsLargest;
      fdWriteHandlers := fdWriteHandlers - {fd};
      ok := DoDeregisterForWrite(fd);
    }

    method Perform(op: Op) returns (ok: bool)
      requires Valid()
      modifies this
      ensures calls == old(calls)
      ensures Valid() && Outcome(Registered(), ok) == SelectStep(old(Registered()), op)
    {
      match op
      case Register(Input, fd, handler) => ok := RegisterForRead(fd, handler);
      case Register(Output, fd, handler) => ok := RegisterForWrite(fd, handler);
      case Deregister(Input, fd) => ok := DeregisterForRead(fd);
      case Deregister(Output, fd) => ok := DeregisterForWrite(fd);
    }

    // Over every run of calls, valid or not, the indexes keep saying what the tables say.
    method PerformAll(ops: seq<Op>) returns (oks: seq<bool>)
      requires Valid()
      modifies this
      ensures Valid() && calls == old(calls)
      ensures Results(Registered(), oks) == Run(SelectStep, old(Registered()), ops)
    {
      hide Valid, SelectStep, Run;
      oks := [];
      var i := 0;
      ghost var all := Run(SelectStep, Registered(), ops);
      assert [] + all.oks == all.oks;
      assert ops[0..] == ops;
      while i < |ops|
        invariant i <= |ops| && Valid() && calls == old(calls)
        invariant var rest := Run(SelectStep, Registered(), ops[i..]); all == Results(rest.tables, oks + rest.oks)
      {
        RunNext(SelectStep, Registered(), ops, i, oks);
        var ok := Perform(ops[i]);
        oks := oks + [ok];
        i := i + 1;
      }
      RunEnds(SelectStep, Registered(), ops[i..], oks);
    }

    ghost function Status(): State
      reads this
    {
      State(Registered(), calls)
    }

    method TriggerRead(fd: int, react: Reaction) returns (called: bool)
      requires Valid()
      modifies this
      ensures Valid() && called == (fd in old(fdReadHandlers))
      ensures Status() == Trigger(SelectStep, react, old(Status()), Input, fd)
    {
      if fd !in fdReadHandlers { return false; }
      calls := calls + [Call(Input, fd, fdReadHandlers[fd])];
      var _ := PerformAll(react(calls));
      return true;
    }

    method TriggerWrite(fd: int, react: Reaction) returns (called: bool)
      requires Valid()
      modifies this
      ensures Valid() && called == (fd in old(fdWriteHandlers))
      ensures Status() == Trigger(SelectStep, react, old(Status()), Output, fd)
    {
      if fd !in fdWriteHandlers { return false; }
      calls := calls + [Call(Output, fd, fdWriteHandlers[fd])];
      var _ := PerformAll(react(calls));
      return true;
    }

    // The pass that stops at the largest descriptor and at the last ready bit has the effect of the whole
    // pass.  The count handed back is that of the ready turns behind the point where it stopped; none of
    // their descriptors is registered any more.
    method HandleNotifications(ready: nat, readFDs: FdSet, writeFDs: FdSet, react: Reaction) returns (countReady: nat)
      requires Valid() && ready == |ReadyTurns(readFDs, writeFDs, 0)|
      modifies this
      ensures Valid()
      ensures var turns := ReadyTurns(readFDs, writeFDs, 0);
              && countReady == LeftOver(react, old(Status()), readFDs, writeFDs, 0) <= |turns|
              && Status() == Turns(SelectStep, react, old(Status()), turns)
              && Status() == Turns(SelectStep, react, old(Status()), turns[..|turns| - countReady])
              && (forall turn <- turns[|turns| - countReady..] :: turn.fd !in Registered().Of(turn.direction))
    {
      hide ReadyTurns, LeftOver, SelectStep, InPass, Trigger, Turns;
      countReady := ready;
      var fd := 0;
      LargestInRange();
      PassBegins(react, Status(), readFDs, writeFDs);
      while fd <= fdLargest && countReady > 0
        invariant fd <= FD_SETSIZE && Valid() && fdLargest < FD_SETSIZE
        invariant countReady == |ReadyTurns(readFDs, writeFDs, fd)|
        invariant InPass(react, old(Status()), Status(), readFDs, writeFDs, fd)
        decreases FD_SETSIZE - fd
      {
        StillRegistered();
        NextTurns(react, Status(), readFDs, writeFDs, fd);
        NextInPass(react, old(Status()), Status(), readFDs, writeFDs, fd);
        if readFDs[fd] {
          countReady := countReady - 1;
          var _ := TriggerRead(fd, react);
        }
        if writeFDs[fd] {
          countReady := countReady - 1;
          var _ := TriggerWrite(fd, react);
        }
        LargestInRange();
        fd := fd + 1;
      }
      if countReady > 0 { NoneRegistered(fd); }
      PassEnds(react, old(Status()), Status(), readFDs, writeFDs, fd);
    }

    lemma StillRegistered()
      requires Valid() && fdLargest >= 0
      ensures forall from: nat :: from <= fdLargest ==> !NoneFrom(Registered(), from)
    {
      assert fdLargest in fdReadHandlers.Keys + fdWriteHandlers.Keys;
    }

    lemma NoneRegistered(from: nat)
      requires Valid() && fdLargest < from
      ensures NoneFrom(Registered(), from)
    {
    }

    lemma LargestInRange()
      requires Valid()
      ensures fdLargest < FD_SETSIZE
    {
    }

    // What is asked of select and what comes back: the two sets changed in place, and the count.
    method SelectAll(canRead: FdSet, canWrite: FdSet) returns (countReady: nat, readFDs: FdSet, writeFDs: FdSet)
      requires Valid()
      ensures readFDs == Ready(fdReadHandlers, canRead) && writeFDs == Ready(fdWriteHandlers, canWrite)
      ensures countReady == |ReadyTurns(readFDs, writeFDs, 0)|
    {
      hide ReadyTurns;
      readFDs, writeFDs := fdReadSet, fdWriteSet;
      var selected :=
        Select(fdLargest + 1, readFDs, if fdWriteCount != 0 then Some(writeFDs) else None, canRead, canWrite);
      countReady, readFDs := selected.count, selected.readFDs;
      if selected.writeFDs.Some? { writeFDs := selected.writeFDs.value; }
      SelectedAll(canRead, canWrite);
    }

    // Asking only below the largest descriptor, and not for writing while the write count is zero, loses
    // nothing: everything that can be served and has a handler gets its turn.  What is returned is what the
    // dispatch has left of the count, and never that count unless it was zero.
    method ProcessPendingEvents(canRead: FdSet, canWrite: FdSet, failed: bool, react: Reaction) returns (countReady: int)
      requires Valid()
      modifies this
      ensures Valid()
      ensures failed ==> countReady == -1 && Status() == old(Status())
      ensures var readable, writable := Ready(old(fdReadHandlers), canRead), Ready(old(fdWriteHandlers), canWrite);
              var turns := ReadyTurns(readable, writable, 0);
              !failed ==>
                && Status() == Turns(SelectStep, react, old(Status()), turns)
                && 0 <= countReady == LeftOver(react, old(Status()), readable, writable, 0) <= |turns|
                && (countReady == |turns| <==> turns == [])
                && (forall turn <- turns[|turns| - countReady..] :: turn.fd !in Registered().Of(turn.direction))
    {
      hide ReadyTurns, LeftOver, Turns, SelectStep, Valid;
      if failed { return -1; }
      var ready, readFDs, writeFDs := SelectAll(canRead, canWrite);
      countReady := ready;
      LeftOverIsCountExactly(react, Status(), readFDs, writeFDs, 0);
      if countReady > 0 {
        countReady := HandleNotifications(countReady, readFDs, writeFDs, react);
      } else {
        NoTurns(react, Status());
        NothingLeftOver(react, Status(), readFDs, writeFDs, 0);
      }
    }

    lemma SelectedAll(canRead: FdSet, canWrite: FdSet)
      requires Valid()
      ensures Both(fdReadSet, canRead, fdLargest + 1) == Ready(fdReadHandlers, canRead)
      ensures Both(fdWriteSet, canWrite, fdLargest + 1) == Ready(fdWriteHandlers, canWrite)
      ensures fdWriteCount == 0 ==> fdWriteSet == NoFds() == Ready(fdWriteHandlers, canWrite)
    {
      forall fd | 0 <= fd < FD_SETSIZE && (fdReadSet[fd] || fdWriteSet[fd]) ensures fd <= fdLargest {
        assert fd in fdReadHandlers.Keys + fdWriteHandlers.Keys;
      }
      if fdWriteCount == 0 {
        assert |fdWriteHandlers.Keys| == 0;
        assert forall fd :: fd !in fdWriteHandlers;
      }
    }
  }

  // One pass, for every handler behaviour: a descriptor that can be served and stays registered is
  // called exactly once in its direction; none is called twice, or without being ready, or when it was
  // not registered before.
  lemma PassIsFair(react: Reaction, st: State, canRead: FdSet, canWrite: FdSet, d: Direction, fd: int)
    ensures var turns := ReadyTurns(Ready(st.tables.read, canRead), Ready(st.tables.write, canWrite), 0);
            var times := Times(Called(SelectStep, react, st, turns), d, fd);
            var can := InRange(fd) && (if d.Input? then canRead else canWrite)[fd];
            && Turns(SelectStep, react, st, turns).calls == st.calls + Called(SelectStep, react, st, turns)
            && times <= 1
            && (can && fd in st.tables.Of(d) && NeverRemoves(react, d, fd) ==> times == 1)
            && (!can || fd !in st.tables.Of(d) ==> times == 0)
  {
    hide ReadyTurns, Called;
    var turns := ReadyTurns(Ready(st.tables.read, canRead), Ready(st.tables.write, canWrite), 0);
    BothPollersKeepToTheirOps();
    ReadyTurnsDistinct(Ready(st.tables.read, canRead), Ready(st.tables.write, canWrite), 0);
    ReadyTurnsExactly(Ready(st.tables.read, canRead), Ready(st.tables.write, canWrite), 0, Turn(d, fd));
    CalledWhileRegistered(SelectStep, react, st, turns, d, fd);
    CallsAreCalled(SelectStep, react, st, turns);
  }
}

/** Whole runs of the error reporter: no raised error is lost, and repeats are spaced out. */
module ErrorRuns {
  import opened Collections
  import opened ErrorReporter
  import opened MachineWords

  datatype Op = Raising(key: Key, now: nat) | Sweeping(force: bool, now: nat, order: seq<Key>)

  function LastTime(ops: seq<Op>): nat {
    if ops == [] then 0 else ops[|ops| - 1].now
  }

  // A run under a clock that never runs backwards; a sweep visits the entries in some order.
  ghost predicate Possible(frequency: nat, ops: seq<Op>)
    requires frequency > 0
    decreases |ops|, 0
  {
    ops == [] ||
    var init, last := ops[..|ops| - 1], ops[|ops| - 1];
    && Possible(frequency, init) && LastTime(init) <= last.now
    && (last.Sweeping? ==> IsOrder(last.order, After(frequency, init).entries))
  }

  ghost function After(frequency: nat, ops: seq<Op>): (st: State)
    requires frequency > 0 && Possible(frequency, ops)
    ensures SoundEntries(st.entries, LastTime(ops))
    decreases |ops|, 1
  {
    if ops == [] then State(map[], [])
    else
      var before := After(frequency, ops[..|ops| - 1]);
      SoundLater(before.entries, LastTime(ops[..|ops| - 1]), LastTime(ops));
      match ops[|ops| - 1]
      case Raising(key, now) => AfterRaise(frequency, before, key, now)
      case Sweeping(force, now, order) => AfterSweep(frequency, before, order, force, now)
  }

  function Raises(ops: seq<Op>, key: Key): nat {
    if ops == [] then 0
    else
      var last := ops[|ops| - 1];
      Raises(ops[..|ops| - 1], key) + if last.Raising? && last.key == key then 1 else 0
  }

  // How many raises the messages for a key account for.
  function Printed(log: seq<Message>, key: Key): nat {
    if log == [] then 0
    else
      var last := log[|log| - 1];
      Printed(log[..|log| - 1], key) + if last.key != key then 0 else if last.First? then 1 else last.count
  }

  function Pending(entries: map<Key, Entry>, key: Key): nat {
    if key in entries then entries[key].count else 0
  }

  lemma {:induction false} PrintedAppend(log: seq<Message>, more: seq<Message>, key: Key)
    ensures Printed(log + more, key) == Printed(log, key) + Printed(more, key)
    decreases |more|
  {
    if more == [] {
      assert log + more == log;
    } else {
      assert (log + more)[..|log + more| - 1] == log + more[..|more| - 1];
      PrintedAppend(log, more[..|more| - 1], key);
    }
  }

  // One sweep prints what is pending for a key exactly when its entry is flushed.
  lemma {:induction false} SweepPrints(frequency: nat, entries: map<Key, Entry>, order: seq<Key>, force: bool, now: nat, key: Key)
    requires frequency > 0 && SoundEntries(entries, now) && IsDistinct(order) && forall k <- order :: k in entries
    ensures Printed(SweepMessages(frequency, entries, order, force, now), key) ==
            if key in order && Flushes(frequency, entries[key], force, now) then entries[key].count else 0
    decreases |order|
  {
    hide Flushes;
    if order != [] {
      var init, last := order[..|order| - 1], order[|order| - 1];
      assert order == init + [last] && last !in init;
      SweepPrints(frequency, entries, init, force, now, key);
      var message := SweepMessage(frequency, last, entries[last], force, now);
      PrintedAppend(SweepMessages(frequency, entries, init, force, now), message, key);
      assert Printed(message, key) ==
             if last == key && Flushes(frequency, entries[last], force, now) then entries[last].count else 0;
    }
  }

  // A sweep moves what is pending into the log and loses none of it.
  lemma SweepConserves(frequency: nat, st: State, order: seq<Key>, force: bool, now: nat, key: Key)
    requires frequency > 0 && SoundEntries(st.entries, now) && IsOrder(order, st.entries)
    ensures var after := AfterSweep(frequency, st, order, force, now);
            Printed(after.log, key) + Pending(after.entries, key) == Printed(st.log, key) + Pending(st.entries, key)
  {
    hide IsStale;
    SweepPrints(frequency, st.entries, order, force, now, key);
    PrintedAppend(st.log, SweepMessages(frequency, st.entries, order, force, now), key);
    if key in st.entries && IsStale(frequency, st.entries[key], now) {
      StaleOwesNothing(frequency, st.entries[key], force, now);
    }
  }

  // A raise adds one to what is printed or pending for its key, unless the 32-bit count wraps to zero.
  lemma RaiseConserves(frequency: nat, st: State, raised: Key, now: nat, key: Key)
    requires frequency > 0 && SoundEntries(st.entries, now)
    ensures var after := AfterRaise(frequency, st, raised, now);
            var wraps := raised == key && Pending(st.entries, key) == TWO32 - 1;
            Printed(after.log, key) + Pending(after.entries, key) ==
            Printed(st.log, key) + Pending(st.entries, key) + (if raised == key then 1 else 0) - (if wraps then TWO32 else 0)
  {
    hide IsDue, Printed;
    var messages := RaiseMessage(frequency, st, raised, now);
    PrintedAppend(st.log, messages, key);
    if messages == [] {
      NothingYet(key);
    } else {
      assert messages == [messages[0]];
      PrintedOne(messages[0], key);
    }
  }

  lemma PrintedOne(m: Message, key: Key)
    ensures Printed([m], key) == if m.key != key then 0 else if m.First? then 1 else m.count
  {
    assert [m][..0] == [];
  }

  lemma NothingYet(key: Key)
    ensures Printed([], key) == Pending(map[], key) == 0
  {
  }

  // How many raises of a key find its 32-bit count at the end of its range.
  ghost function Wraps(frequency: nat, ops: seq<Op>, key: Key): nat
    requires frequency > 0 && Possible(frequency, ops)
  {
    if ops == [] then 0
    else
      var init, last := ops[..|ops| - 1], ops[|ops| - 1];
      var wraps := last.Raising? && last.key == key && Pending(After(frequency, init).entries, key) == TWO32 - 1;
      Wraps(frequency, init, key) + if wraps then 1 else 0
  }

  // Over every run and for every key: each raise is printed or still pending, but for 2^32 lost at
  // each wrap.  The account balances exactly when no raise of the key wraps its count.
  lemma {:induction false} NothingIsLost(frequency: nat, ops: seq<Op>, key: Key)
    requires frequency > 0 && Possible(frequency, ops)
    ensures var st := After(frequency, ops);
            var accounted := Printed(st.log, key) + Pending(st.entries, key);
            && Raises(ops, key) == accounted + TWO32 * Wraps(frequency, ops, key)
            && (accounted == Raises(ops, key) <==> Wraps(frequency, ops, key) == 0)
            && (Raises(ops, key) < TWO32 ==> accounted == Raises(ops, key))
    decreases |ops|
  {
    hide Printed, Pending, AfterRaise, AfterSweep, Sound;
    if ops == [] {
      assert Printed([], key) == Pending(map[], key) == 0 by { NothingYet(key); }
    } else {
      var init, last := ops[..|ops| - 1], ops[|ops| - 1];
      NothingIsLost(frequency, init, key);
      var st := After(frequency, init);
      SoundLater(st.entries, LastTime(init), last.now);
      match last
      case Raising(raised, now) => RaiseConserves(frequency, st, raised, now, key);
      case Sweeping(force, now, order) => SweepConserves(frequency, st, order, force, now, key);
    }
  }

  // After a forced sweep nothing is pending, so the log alone accounts for every raise.
  lemma ForcedSweepPrintsAll(frequency: nat, ops: seq<Op>, key: Key)
    requires frequency > 0 && Possible(frequency, ops)
    requires ops != [] && ops[|ops| - 1].Sweeping? && ops[|ops| - 1].force && Raises(ops, key) < TWO32
    ensures Printed(After(frequency, ops).log, key) == Raises(ops, key)
  {
    NothingIsLost(frequency, ops, key);
    var init, last := ops[..|ops| - 1], ops[|ops| - 1];
    var st := After(frequency, init);
    SoundLater(st.entries, LastTime(init), last.now);
  }

  // When the last message for a key was printed.
  function LastAt(log: seq<Message>, key: Key): Option<nat> {
    if log == [] then None
    else if log[|log| - 1].key == key then Some(log[|log| - 1].at)
    else LastAt(log[..|log| - 1], key)
  }

  // Every repeat tells the time since the message before it for the same key, which is the minimum period
  // at least when no sweep was forced.
  ghost predicate Spaced(frequency: nat, forced: bool, log: seq<Message>)
    requires frequency > 0
  {
    forall j {:trigger log[j]} :: 0 <= j < |log| && log[j].Repeat? ==>
      var last := LastAt(log[..j], log[j].key);
      && last.Some? && last.value <= log[j].at && log[j].since == log[j].at - last.value
      && (!forced ==> Millis(frequency, last.value, log[j].at) >= 2000)
  }

  // The entry of a key remembers when its last message was printed.
  ghost predicate Remembers(st: State) {
    forall k {:trigger st.entries[k]} | k in st.entries :: LastAt(st.log, k) == Some(st.entries[k].lastReport)
  }

  lemma SpacedAppend(frequency: nat, forced: bool, log: seq<Message>, m: Message)
    requires frequency > 0 && Spaced(frequency, forced, log)
    requires m.Repeat? ==>
               var last := LastAt(log, m.key);
               && last.Some? && last.value <= m.at && m.since == m.at - last.value
               && (!forced ==> Millis(frequency, last.value, m.at) >= 2000)
    ensures Spaced(frequency, forced, log + [m])
  {
    hide LastAt;
    var longer := log + [m];
    forall j {:trigger longer[j]} | 0 <= j < |longer|
      ensures longer[..j] == if j < |log| then log[..j] else log
    {
    }
  }

  lemma {:induction false} LastAtAppend(log: seq<Message>, more: seq<Message>, key: Key)
    requires forall m <- more :: m.key != key
    ensures LastAt(log + more, key) == LastAt(log, key)
    decreases |more|
  {
    if more == [] {
      assert log + more == log;
    } else {
      assert (log + more)[..|log + more| - 1] == log + more[..|more| - 1];
      LastAtAppend(log, more[..|more| - 1], key);
    }
  }

  lemma RaiseSpaced(frequency: nat, forced: bool, st: State, key: Key, now: nat)
    requires frequency > 0 && SoundEntries(st.entries, now) && Spaced(frequency, forced, st.log) && Remembers(st)
    ensures var after := AfterRaise(frequency, st, key, now); Spaced(frequency, forced, after.log) && Remembers(after)
  {
    var messages := RaiseMessage(frequency, st, key, now);
    if messages != [] {
      SpacedAppend(frequency, forced, st.log, messages[0]);
      assert messages == [messages[0]];
    } else {
      assert st.log + messages == st.log;
    }
    forall k | k in st.entries && k != key ensures LastAt(st.log + messages, k) == LastAt(st.log, k) {
      LastAtAppend(st.log, messages, k);
    }
  }

  lemma {:induction false} SweepSpaced(frequency: nat, forced: bool, st: State, order: seq<Key>, force: bool, now: nat)
    requires frequency > 0 && SoundEntries(st.entries, now) && Spaced(frequency, forced, st.log) && Remembers(st)
    requires IsDistinct(order) && (forall k <- order :: k in st.entries) && (force ==> forced)
    ensures var log := st.log + SweepMessages(frequency, st.entries, order, force, now);
            && Spaced(frequency, forced, log)
            && (forall k :: k in st.entries ==>
                 LastAt(log, k) == Some(if k in order then Flushed(frequency, st.entries[k], force, now).lastReport
                                        else st.entries[k].lastReport))
    decreases |order|
  {
    hide LastAt, Spaced, Flushed, SweepMessage;
    if order == [] {
      assert st.log + SweepMessages(frequency, st.entries, order, force, now) == st.log;
    } else {
      var init, last := order[..|order| - 1], order[|order| - 1];
      assert order == init + [last] && last !in init;
      SweepSpaced(frequency, forced, st, init, force, now);
      var log := st.log + SweepMessages(frequency, st.entries, init, force, now);
      VisitSpaced(frequency, forced, log, last, st.entries[last], force, now);
      assert st.log + SweepMessages(frequency, st.entries, order, force, now) ==
             log + SweepMessage(frequency, last, st.entries[last], force, now);
    }
  }

  lemma VisitSpaced(frequency: nat, forced: bool, log: seq<Message>, key: Key, e: Entry, force: bool, now: nat)
    requires frequency > 0 && Sound(e, now) && Spaced(frequency, forced, log) && (force ==> forced)
    requires LastAt(log, key) == Some(e.lastReport)
    ensures var longer := log + SweepMessage(frequency, key, e, force, now);
            && Spaced(frequency, forced, longer)
            && LastAt(longer, key) == Some(Flushed(frequency, e, force, now).lastReport)
            && (forall k :: k != key ==> LastAt(longer, k) == LastAt(log, k))
  {
    hide Spaced;
    var message := SweepMessage(frequency, key, e, force, now);
    if message == [] {
      assert log + message == log;
    } else {
      SpacedAppend(frequency, forced, log, message[0]);
      assert message == [message[0]];
      forall k | k != key ensures LastAt(log + message, k) == LastAt(log, k) {
        LastAtAppend(log, message, k);
      }
    }
  }

  predicate NeverForced(ops: seq<Op>) {
    forall op <- ops :: op.Sweeping? ==> !op.force
  }

  // In every run a repeat tells the time since the message before it, and without forced sweeps that is
  // 2000 ms at least.
  lemma {:induction false} RepeatsAreSpaced(frequency: nat, forced: bool, ops: seq<Op>)
    requires frequency > 0 && Possible(frequency, ops) && (forced || NeverForced(ops))
    ensures var st := After(frequency, ops); Spaced(frequency, forced, st.log) && Remembers(st)
    decreases |ops|
  {
    hide Spaced, AfterRaise, SweptEntries, Sound;
    if ops == [] {
      assert Spaced(frequency, forced, []) by { NothingSpaced(frequency, forced); }
    } else {
      var init, last := ops[..|ops| - 1], ops[|ops| - 1];
      RepeatsAreSpaced(frequency, forced, init);
      var st := After(frequency, init);
      SoundLater(st.entries, LastTime(init), last.now);
      match last
      case Raising(key, now) => RaiseSpaced(frequency, forced, st, key, now);
      case Sweeping(force, now, order) =>
        SweepSpaced(frequency, forced, st, order, force, now);
        SweptRemembers(frequency, st, order, force, now);
    }
  }

  lemma NothingSpaced(frequency: nat, forced: bool)
    requires frequency > 0
    ensures Spaced(frequency, forced, [])
  {
  }

  lemma SweptRemembers(frequency: nat, st: State, order: seq<Key>, force: bool, now: nat)
    requires frequency > 0 && SoundEntries(st.entries, now) && IsOrder(order, st.entries)
    requires forall k :: k in st.entries ==>
               LastAt(st.log + SweepMessages(frequency, st.entries, order, force, now), k) ==
               Some(if k in order then Flushed(frequency, st.entries[k], force, now).lastReport else st.entries[k].lastReport)
    ensures Remembers(AfterSweep(frequency, st, order, force, now))
  {
    hide LastAt, IsStale, Flushed;
  }

  // A sweep keeps exactly the entries raised in the last 10000 ms, and what it drops owes nothing.
  lemma SweepDropsExactly(frequency: nat, st: State, order: seq<Key>, force: bool, now: nat, key: Key)
    requires frequency > 0 && SoundEntries(st.entries, now) && IsOrder(order, st.entries)
    ensures var after := AfterSweep(frequency, st, order, force, now);
            && (key in after.entries <==> key in st.entries && Millis(frequency, st.entries[key].lastRaised, now) <= 10000)
            && (key in after.entries ==> after.entries[key].lastRaised == st.entries[key].lastRaised)
            && (key in st.entries && key !in after.entries ==>
                 Printed(after.log, key) == Printed(st.log, key) + Pending(st.entries, key))
  {
    SweepConserves(frequency, st, order, force, now, key);
  }

  lemma RaiseNext(frequency: nat, init: seq<Op>, key: Key, now: nat)
    requires frequency > 0 && Possible(frequency, init) && LastTime(init) <= now
    ensures SoundEntries(After(frequency, init).entries, now)
    ensures var ops := init + [Raising(key, now)];
            Possible(frequency, ops) && After(frequency, ops) == AfterRaise(frequency, After(frequency, init), key, now)
  {
    hide AfterRaise, AfterSweep, IsOrder;
    assert (init + [Raising(key, now)])[..|init|] == init;
    SoundLater(After(frequency, init).entries, LastTime(init), now);
  }

  lemma SweepNext(frequency: nat, init: seq<Op>, force: bool, now: nat, order: seq<Key>)
    requires frequency > 0 && Possible(frequency, init) && LastTime(init) <= now
    requires IsOrder(order, After(frequency, init).entries)
    ensures SoundEntries(After(frequency, init).entries, now)
    ensures var ops := init + [Sweeping(force, now, order)];
            Possible(frequency, ops) && After(frequency, ops) == AfterSweep(frequency, After(frequency, init), order, force, now)
  {
    hide AfterRaise, AfterSweep, IsOrder;
    assert (init + [Sweeping(force, now, order)])[..|init|] == init;
    SoundLater(After(frequency, init).entries, LastTime(init), now);
  }

  // A first message knows no such limit: an entry can be reported and dropped by one sweep, and the
  // next raise is a first one again, here in the same millisecond.
  lemma FirstMayFollowAtOnce()
    ensures var k := Key(1, 2, "e");
            var ops := [] + [Raising(k, 0)] + [Raising(k, 1)] + [Sweeping(false, 10002, [k])] + [Raising(k, 10002)];
            && Possible(1000, ops) && NeverForced(ops)
            && After(1000, ops).log == [First(k, 0), Repeat(k, 10002, 1, 10002), First(k, 10002)]
  {
    hide After, Possible;
    var k := Key(1, 2, "e");
    var none: seq<Op> := [];
    NothingRun();
    var ops1 := none + [Raising(k, 0)];
    RaiseNext(1000, none, k, 0);
    assert After(1000, ops1) == State(map[k := Entry(0, 0, 0)], [First(k, 0)]);
    var ops2 := ops1 + [Raising(k, 1)];
    RaiseNext(1000, ops1, k, 1);
    assert After(1000, ops2) == State(map[k := Entry(0, 1, 1)], [First(k, 0)]);
    var ops3 := ops2 + [Sweeping(false, 10002, [k])];
    SweepNext(1000, ops2, false, 10002, [k]);
    SweepOfOne(1000, map[k := Entry(0, 1, 1)], k, false, 10002);
    assert After(1000, ops3) == State(map[], [First(k, 0), Repeat(k, 10002, 1, 10002)]);
    RaiseNext(1000, ops3, k, 10002);
  }

  lemma NothingRun()
    ensures Possible(1000, []) && After(1000, []) == State(map[], [])
  {
  }

  lemma SweepOfOne(frequency: nat, entries: map<Key, Entry>, key: Key, force: bool, now: nat)
    requires frequency > 0 && SoundEntries(entries, now) && key in entries
    ensures SweepMessages(frequency, entries, [key], force, now) == SweepMessage(frequency, key, entries[key], force, now)
  {
    assert [key][..0] == [];
  }
}

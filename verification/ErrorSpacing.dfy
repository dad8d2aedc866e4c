/** How far apart the messages for one key are over whole runs, first messages included. */
module ErrorSpacing {
  import opened Collections
  import opened ErrorReporter
  import opened ErrorRuns

  // The messages one call prints.
  function OpMessages(frequency: nat, st: State, op: Op): seq<Message>
    requires frequency > 0 && SoundEntries(st.entries, op.now)
    requires op.Sweeping? ==> IsOrder(op.order, st.entries)
  {
    match op
    case Raising(key, now) => RaiseMessage(frequency, st, key, now)
    case Sweeping(force, now, order) => SweepMessages(frequency, st.entries, order, force, now)
  }

  // The call that printed the last message for a key.
  ghost function Printer(frequency: nat, ops: seq<Op>, key: Key): (i: Option<nat>)
    requires frequency > 0 && Possible(frequency, ops)
    ensures i.Some? ==> i.value < |ops|
  {
    if ops == [] then None
    else
      var init, last := ops[..|ops| - 1], ops[|ops| - 1];
      SoundLater(After(frequency, init).entries, LastTime(init), last.now);
      if LastAt(OpMessages(frequency, After(frequency, init), last), key).Some? then Some(|init|)
      else Printer(frequency, init, key)
  }

  // A sweep drops the entry of a key.
  ghost predicate Evicts(frequency: nat, ops: seq<Op>, j: nat, key: Key)
    requires frequency > 0 && j < |ops|
  {
    && Possible(frequency, ops[..j]) && Possible(frequency, ops[..j + 1])
    && ops[j].Sweeping?
    && key in After(frequency, ops[..j]).entries && key !in After(frequency, ops[..j + 1]).entries
  }

  lemma {:induction false} LastAtConcat(log: seq<Message>, more: seq<Message>, key: Key)
    ensures LastAt(log + more, key) == if LastAt(more, key).Some? then LastAt(more, key) else LastAt(log, key)
    decreases |more|
  {
    if more == [] {
      assert log + more == log;
    } else {
      assert (log + more)[..|log + more| - 1] == log + more[..|more| - 1];
      LastAtConcat(log, more[..|more| - 1], key);
    }
  }

  lemma LastAtOne(m: Message, key: Key)
    ensures LastAt([m], key) == if m.key == key then Some(m.at) else None
  {
    assert [m][..0] == [];
  }

  lemma NoneAt(key: Key)
    ensures LastAt([], key) == None
  {
  }

  // A sweep prints for exactly the entries it flushes.
  lemma {:induction false} SweepPrintsAt(frequency: nat, entries: map<Key, Entry>, order: seq<Key>, force: bool, now: nat, key: Key)
    requires frequency > 0 && SoundEntries(entries, now) && IsDistinct(order) && forall k <- order :: k in entries
    ensures LastAt(SweepMessages(frequency, entries, order, force, now), key) ==
            if key in order && Flushes(frequency, entries[key], force, now) then Some(now) else None
    decreases |order|
  {
    hide Flushes, LastAt;
    if order == [] {
      NoneAt(key);
    } else {
      var init, last := order[..|order| - 1], order[|order| - 1];
      assert order == init + [last] && last !in init;
      SweepPrintsAt(frequency, entries, init, force, now, key);
      var message := SweepMessage(frequency, last, entries[last], force, now);
      LastAtConcat(SweepMessages(frequency, entries, init, force, now), message, key);
      if message == [] {
        NoneAt(key);
      } else {
        assert message == [message[0]];
        LastAtOne(message[0], key);
      }
    }
  }

  lemma RaisePrintsAt(frequency: nat, st: State, raised: Key, now: nat, key: Key)
    requires frequency > 0 && SoundEntries(st.entries, now)
    ensures LastAt(RaiseMessage(frequency, st, raised, now), key) ==
            if key == raised && (key in st.entries ==> IsDue(frequency, st.entries[key], now)) then Some(now) else None
  {
    hide IsDue;
    var messages := RaiseMessage(frequency, st, raised, now);
    if messages != [] {
      assert messages == [messages[0]];
      LastAtOne(messages[0], key);
    }
  }

  // What is known of a key from the call that printed its last message.  A raise that prints leaves an
  // entry which stays for 10000 ms at least.
  ghost predicate Traced(frequency: nat, ops: seq<Op>, key: Key)
    requires frequency > 0 && Possible(frequency, ops)
  {
    var st, i := After(frequency, ops), Printer(frequency, ops, key);
    match i
    case None => LastAt(st.log, key) == None && key !in st.entries
    case Some(i) =>
      && LastAt(st.log, key) == Some(ops[i].now) && ops[i].now <= LastTime(ops)
      && (ops[i].Raising? ==>
           if key in st.entries then st.entries[key].lastRaised >= ops[i].now
           else Millis(frequency, ops[i].now, LastTime(ops)) > MAX_LIFETIME_MS)
      && (key !in st.entries ==> exists j :: i <= j < |ops| && Evicts(frequency, ops, j, key))
  }

  lemma LastStep(frequency: nat, ops: seq<Op>)
    requires frequency > 0 && ops != [] && Possible(frequency, ops)
    ensures var init, last := ops[..|ops| - 1], ops[|ops| - 1];
            && Possible(frequency, init) && LastTime(init) <= last.now
            && (last.Sweeping? ==> IsOrder(last.order, After(frequency, init).entries))
  {
  }

  lemma EvictsEarlier(frequency: nat, ops: seq<Op>, j: nat, key: Key)
    requires frequency > 0 && j + 1 < |ops|
    ensures Evicts(frequency, ops[..|ops| - 1], j, key) == Evicts(frequency, ops, j, key)
  {
    hide Possible, After;
    var init := ops[..|ops| - 1];
    assert init[..j] == ops[..j] && init[..j + 1] == ops[..j + 1];
  }

  lemma EvictsLast(frequency: nat, ops: seq<Op>, key: Key)
    requires frequency > 0 && ops != [] && Possible(frequency, ops) && ops[|ops| - 1].Sweeping?
    requires key in After(frequency, ops[..|ops| - 1]).entries && key !in After(frequency, ops).entries
    ensures Evicts(frequency, ops, |ops| - 1, key)
  {
    assert ops[..|ops|] == ops;
  }

  lemma LogStep(frequency: nat, ops: seq<Op>, key: Key)
    requires frequency > 0 && ops != [] && Possible(frequency, ops)
    ensures var init, last := ops[..|ops| - 1], ops[|ops| - 1];
            var st := After(frequency, init);
            && SoundEntries(st.entries, last.now)
            && var printed := LastAt(OpMessages(frequency, st, last), key);
               && Printer(frequency, ops, key) == (if printed.Some? then Some(|init|) else Printer(frequency, init, key))
               && LastAt(After(frequency, ops).log, key) == if printed.Some? then printed else LastAt(st.log, key)
  {
    hide LastAt;
    var init, last := ops[..|ops| - 1], ops[|ops| - 1];
    SoundLater(After(frequency, init).entries, LastTime(init), last.now);
    LastAtConcat(After(frequency, init).log, OpMessages(frequency, After(frequency, init), last), key);
  }

  // An eviction before the last call, and what it says when the last call does not print.
  lemma TracedLater(frequency: nat, ops: seq<Op>, key: Key)
    requires frequency > 0 && ops != [] && Possible(frequency, ops)
    requires var init, last := ops[..|ops| - 1], ops[|ops| - 1];
             && Traced(frequency, init, key) && Printer(frequency, ops, key) == Printer(frequency, init, key)
             && LastAt(After(frequency, ops).log, key) == LastAt(After(frequency, init).log, key)
             && key !in After(frequency, init).entries && key !in After(frequency, ops).entries
    ensures Traced(frequency, ops, key)
  {
    hide LastAt, Evicts, After, Possible;
    var init, last := ops[..|ops| - 1], ops[|ops| - 1];
    LastStep(frequency, ops);
    var i := Printer(frequency, init, key);
    if i.Some? {
      var j :| i.value <= j < |init| && Evicts(frequency, init, j, key);
      EvictsEarlier(frequency, ops, j, key);
      assert ops[i.value] == init[i.value];
      LongerAgo(frequency, ops[i.value].now, LastTime(init), last.now);
    }
  }

  lemma LongerAgo(frequency: nat, from: nat, to: nat, later: nat)
    requires frequency > 0 && from <= to <= later
    ensures Millis(frequency, from, to) <= Millis(frequency, from, later)
  {
    DivideMonotone(1000 * (to - from), 1000 * (later - from), frequency);
  }

  lemma RaiseTraced(frequency: nat, ops: seq<Op>, key: Key)
    requires frequency > 0 && ops != [] && Possible(frequency, ops) && ops[|ops| - 1].Raising?
    requires Traced(frequency, ops[..|ops| - 1], key)
    ensures Traced(frequency, ops, key)
  {
    hide LastAt, Evicts, Possible, Printer, IsDue, RaiseMessage;
    var init, last := ops[..|ops| - 1], ops[|ops| - 1];
    LastStep(frequency, ops);
    var st := After(frequency, init);
    LogStep(frequency, ops, key);
    RaisePrintsAt(frequency, st, last.key, last.now, key);
    if key != last.key && key !in st.entries { TracedLater(frequency, ops, key); }
  }

  lemma SweepTraced(frequency: nat, ops: seq<Op>, key: Key)
    requires frequency > 0 && ops != [] && Possible(frequency, ops) && ops[|ops| - 1].Sweeping?
    requires Traced(frequency, ops[..|ops| - 1], key)
    ensures Traced(frequency, ops, key)
  {
    hide LastAt, Evicts, Possible, Printer, IsDue, SweepMessages, Flushes;
    var init, last := ops[..|ops| - 1], ops[|ops| - 1];
    LastStep(frequency, ops);
    var st, after := After(frequency, init), After(frequency, ops);
    LogStep(frequency, ops, key);
    SweepPrintsAt(frequency, st.entries, last.order, last.force, last.now, key);
    if key !in st.entries {
      TracedLater(frequency, ops, key);
    } else if key !in after.entries {
      EvictsLast(frequency, ops, key);
      var i := Printer(frequency, init, key).value;
      if init[i].Raising? {
        MillisMonotone(frequency, init[i].now, st.entries[key].lastRaised, last.now);
      }
    }
  }

  lemma {:induction false} EveryKeyTraced(frequency: nat, ops: seq<Op>, key: Key)
    requires frequency > 0 && Possible(frequency, ops)
    ensures Traced(frequency, ops, key)
    decreases |ops|
  {
    if ops != [] {
      hide Traced;
      EveryKeyTraced(frequency, ops[..|ops| - 1], key);
      if ops[|ops| - 1].Raising? {
        RaiseTraced(frequency, ops, key);
      } else {
        SweepTraced(frequency, ops, key);
      }
    }
  }

  // The message a raise prints is a first one exactly when there is no entry.  It follows the last
  // message for its key within the minimum period exactly when a sweep printed that message, less than
  // the period ago, and a sweep dropped the entry since.
  lemma FirstIsUnspacedExactly(frequency: nat, ops: seq<Op>, key: Key, now: nat)
    requires frequency > 0 && Possible(frequency, ops) && LastTime(ops) <= now
    requires key !in After(frequency, ops).entries
    ensures SoundEntries(After(frequency, ops).entries, now)
    ensures RaiseMessage(frequency, After(frequency, ops), key, now) == [First(key, now)]
    ensures var last := LastAt(After(frequency, ops).log, key);
            && (last.Some? ==> last.value <= now)
            && (last.Some? && Millis(frequency, last.value, now) < 2000 <==>
                exists i, j :: 0 <= i <= j < |ops| && Printer(frequency, ops, key) == Some(i) && ops[i].Sweeping?
                  && ops[i].now <= now && Millis(frequency, ops[i].now, now) < 2000 && Evicts(frequency, ops, j, key))
  {
    EveryKeyTraced(frequency, ops, key);
    SoundLater(After(frequency, ops).entries, LastTime(ops), now);
    hide LastAt, Evicts, After, Possible, Printer;
    var i := Printer(frequency, ops, key);
    if i.Some? {
      LongerAgo(frequency, ops[i.value].now, LastTime(ops), now);
    }
  }

  // What a raise prints: the first message of a key without an entry, and a repeat for one with an entry
  // from 2000 ms after its last report on.
  lemma RaisePrintsExactly(frequency: nat, st: State, key: Key, now: nat)
    requires frequency > 0 && SoundEntries(st.entries, now)
    ensures var messages := RaiseMessage(frequency, st, key, now);
            && |messages| <= 1
            && (messages == [First(key, now)] <==> key !in st.entries)
            && (messages != [] <==> key in st.entries ==> 1000 * (now - st.entries[key].lastReport) / frequency >= 2000)
  {
  }

  // What a sweep prints of an entry: its pending count, from 2000 ms after the last report on or when forced.
  lemma SweepPrintsExactly(frequency: nat, key: Key, e: Entry, force: bool, now: nat)
    requires frequency > 0 && Sound(e, now)
    ensures SweepMessage(frequency, key, e, force, now) ==
            if e.count > 0 && (force || 1000 * (now - e.lastReport) / frequency >= 2000)
            then [Repeat(key, now, e.count, now - e.lastReport)] else []
  {
  }

  // When sweeps come often enough this cannot happen.

  const MAX_DELAY_MS: nat := MAX_LIFETIME_MS - 2 * MIN_PERIOD_MS

  // Every sweep finds pending counts at most 6000 ms after they became due.
  ghost predicate SweptInTime(frequency: nat, ops: seq<Op>)
    requires frequency > 0 && Possible(frequency, ops)
  {
    ops == [] ||
    var init, last := ops[..|ops| - 1], ops[|ops| - 1];
    && SweptInTime(frequency, init)
    && (last.Sweeping? ==> forall k :: k in After(frequency, init).entries ==> InTime(frequency, After(frequency, init).entries[k], last.now))
  }

  predicate InTime(frequency: nat, e: Entry, now: nat)
    requires frequency > 0
  {
    e.count > 0 ==> e.lastReport <= now && Millis(frequency, e.lastReport, now) <= 8000
  }

  // A key whose messages are far enough apart for the next one to be a first one.
  ghost predicate Aged(frequency: nat, st: State, key: Key, now: nat)
    requires frequency > 0
  {
    if key in st.entries then
      var e := st.entries[key];
      e.lastReport <= e.lastRaised || Millis(frequency, e.lastRaised, e.lastReport) <= MIN_PERIOD_MS + MAX_DELAY_MS
    else
      var last := LastAt(st.log, key);
      last.Some? ==> last.value <= now && Millis(frequency, last.value, now) >= MIN_PERIOD_MS
  }

  lemma DivideBound(x: nat, d: nat, n: nat)
    requires d > 0
    ensures x / d <= n <==> x < (n + 1) * d
  {
    var q, r := x / d, x % d;
    assert x == q * d + r;
    if q <= n { MultiplyMonotone(q, n, d); } else { MultiplyMonotone(n + 1, q, d); }
  }

  // Two spans of time after one another.
  lemma MillisAdd(frequency: nat, from: nat, via: nat, to: nat, m: nat, n: nat)
    requires frequency > 0 && from <= via <= to
    requires Millis(frequency, from, via) <= m && Millis(frequency, via, to) <= n
    ensures Millis(frequency, from, to) <= m + n + 1
  {
    var x, y := 1000 * (via - from), 1000 * (to - via);
    DivideBound(x, frequency, m);
    DivideBound(y, frequency, n);
    assert (m + 1) * frequency + (n + 1) * frequency == (m + n + 2) * frequency;
    DivideBound(x + y, frequency, m + n + 1);
  }

  // An entry that was flushed in time and is stale was flushed the minimum period ago at least.
  lemma StaleIsAged(frequency: nat, e: Entry, now: nat)
    requires frequency > 0 && e.lastReport <= now && e.lastRaised <= now && IsStale(frequency, e, now)
    requires e.lastReport <= e.lastRaised || Millis(frequency, e.lastRaised, e.lastReport) <= MIN_PERIOD_MS + MAX_DELAY_MS
    ensures Millis(frequency, e.lastReport, now) >= MIN_PERIOD_MS
  {
    if e.lastReport <= e.lastRaised {
      MillisMonotone(frequency, e.lastReport, e.lastRaised, now);
    } else if Millis(frequency, e.lastReport, now) < MIN_PERIOD_MS {
      MillisAdd(frequency, e.lastRaised, e.lastReport, now, MIN_PERIOD_MS + MAX_DELAY_MS, MIN_PERIOD_MS - 1);
    }
  }

  lemma SweepAged(frequency: nat, ops: seq<Op>, key: Key)
    requires frequency > 0 && ops != [] && Possible(frequency, ops) && ops[|ops| - 1].Sweeping?
    requires SweptInTime(frequency, ops)
    requires Aged(frequency, After(frequency, ops[..|ops| - 1]), key, LastTime(ops[..|ops| - 1]))
    requires Remembers(After(frequency, ops[..|ops| - 1]))
    ensures Aged(frequency, After(frequency, ops), key, LastTime(ops))
  {
    hide LastAt, Possible, Printer, SweepMessages;
    var init, last := ops[..|ops| - 1], ops[|ops| - 1];
    LastStep(frequency, ops);
    var st, after := After(frequency, init), After(frequency, ops);
    LogStep(frequency, ops, key);
    SweepPrintsAt(frequency, st.entries, last.order, last.force, last.now, key);
    if key !in st.entries {
      var at := LastAt(st.log, key);
      if at.Some? { LongerAgo(frequency, at.value, LastTime(init), last.now); }
    } else {
      VisitAged(frequency, st.entries[key], last.force, last.now);
    }
  }

  lemma VisitAged(frequency: nat, e: Entry, force: bool, now: nat)
    requires frequency > 0 && Sound(e, now) && InTime(frequency, e, now)
    requires e.lastReport <= e.lastRaised || Millis(frequency, e.lastRaised, e.lastReport) <= MIN_PERIOD_MS + MAX_DELAY_MS
    ensures var flushed := Flushed(frequency, e, force, now);
            && (flushed.lastReport <= flushed.lastRaised
                || Millis(frequency, flushed.lastRaised, flushed.lastReport) <= MIN_PERIOD_MS + MAX_DELAY_MS)
            && (IsStale(frequency, e, now) ==> Millis(frequency, flushed.lastReport, now) >= MIN_PERIOD_MS)
  {
    if Flushes(frequency, e, force, now) {
      MillisMonotone(frequency, e.lastReport, e.lastRaised, now);
    } else if IsStale(frequency, e, now) {
      StaleIsAged(frequency, e, now);
    }
  }

  lemma RaiseAged(frequency: nat, ops: seq<Op>, key: Key)
    requires frequency > 0 && ops != [] && Possible(frequency, ops) && ops[|ops| - 1].Raising?
    requires Aged(frequency, After(frequency, ops[..|ops| - 1]), key, LastTime(ops[..|ops| - 1]))
    ensures Aged(frequency, After(frequency, ops), key, LastTime(ops))
  {
    hide LastAt, Possible, Printer, IsDue, RaiseMessage;
    var init, last := ops[..|ops| - 1], ops[|ops| - 1];
    LastStep(frequency, ops);
    var st := After(frequency, init);
    LogStep(frequency, ops, key);
    RaisePrintsAt(frequency, st, last.key, last.now, key);
    var at := LastAt(st.log, key);
    if key !in st.entries && at.Some? { LongerAgo(frequency, at.value, LastTime(init), last.now); }
  }

  lemma {:induction false} EveryKeyAged(frequency: nat, ops: seq<Op>, key: Key)
    requires frequency > 0 && Possible(frequency, ops) && NeverForced(ops) && SweptInTime(frequency, ops)
    ensures Aged(frequency, After(frequency, ops), key, LastTime(ops))
    decreases |ops|
  {
    if ops != [] {
      hide Aged;
      var init := ops[..|ops| - 1];
      EveryKeyAged(frequency, init, key);
      RepeatsAreSpaced(frequency, false, init);
      if ops[|ops| - 1].Raising? {
        RaiseAged(frequency, ops, key);
      } else {
        SweepAged(frequency, ops, key);
      }
    }
  }

  ghost predicate SpacedAt(frequency: nat, log: seq<Message>, j: nat)
    requires frequency > 0 && j < |log|
  {
    var last := LastAt(log[..j], log[j].key);
    last.Some? ==> last.value <= log[j].at && Millis(frequency, last.value, log[j].at) >= 2000
  }

  lemma LogGrows(frequency: nat, ops: seq<Op>)
    requires frequency > 0 && ops != [] && Possible(frequency, ops)
    ensures var init, last := ops[..|ops| - 1], ops[|ops| - 1];
            var st := After(frequency, init);
            && LastTime(init) <= last.now && SoundEntries(st.entries, last.now)
            && After(frequency, ops).log == st.log + OpMessages(frequency, st, last)
  {
    var init, last := ops[..|ops| - 1], ops[|ops| - 1];
    SoundLater(After(frequency, init).entries, LastTime(init), last.now);
  }

  lemma {:induction false} SweepsRepeat(frequency: nat, entries: map<Key, Entry>, order: seq<Key>, force: bool, now: nat, m: Message)
    requires frequency > 0 && SoundEntries(entries, now) && forall k <- order :: k in entries
    requires m in SweepMessages(frequency, entries, order, force, now)
    ensures m.Repeat?
    decreases |order|
  {
    var init := order[..|order| - 1];
    if m in SweepMessages(frequency, entries, init, force, now) { SweepsRepeat(frequency, entries, init, force, now, m); }
  }

  // Only raises print first messages.
  lemma FirstsAreRaised(frequency: nat, ops: seq<Op>, j: nat)
    requires frequency > 0 && ops != [] && Possible(frequency, ops)
    requires var log := After(frequency, ops).log; |After(frequency, ops[..|ops| - 1]).log| <= j < |log| && log[j].First?
    ensures ops[|ops| - 1].Raising?
    ensures var key, st := ops[|ops| - 1].key, After(frequency, ops[..|ops| - 1]);
            && key !in st.entries && j == |st.log| && After(frequency, ops).log == st.log + [First(key, LastTime(ops))]
  {
    LogGrows(frequency, ops);
    hide Possible, After, SweepMessages, IsDue;
    var last, st := ops[|ops| - 1], After(frequency, ops[..|ops| - 1]);
    var messages := OpMessages(frequency, st, last);
    assert After(frequency, ops).log[j] == messages[j - |st.log|];
    if last.Sweeping? {
      SweepsRepeat(frequency, st.entries, last.order, last.force, last.now, messages[j - |st.log|]);
    }
  }

  lemma {:induction false} FirstsAreSpaced(frequency: nat, ops: seq<Op>, j: nat)
    requires frequency > 0 && Possible(frequency, ops) && NeverForced(ops) && SweptInTime(frequency, ops)
    requires j < |After(frequency, ops).log| && After(frequency, ops).log[j].First?
    ensures SpacedAt(frequency, After(frequency, ops).log, j)
    decreases |ops|
  {
    var init := ops[..|ops| - 1];
    LogGrows(frequency, ops);
    var st, log := After(frequency, init), After(frequency, ops).log;
    assert log[..|st.log|] == st.log;
    if j < |st.log| {
      FirstsAreSpaced(frequency, init, j);
      assert st.log[..j] == log[..j] && st.log[j] == log[j];
    } else {
      FirstsAreRaised(frequency, ops, j);
      FirstIsSpaced(frequency, init, ops[|ops| - 1].key, LastTime(ops));
    }
  }

  lemma FirstIsSpaced(frequency: nat, ops: seq<Op>, key: Key, now: nat)
    requires frequency > 0 && Possible(frequency, ops) && NeverForced(ops) && SweptInTime(frequency, ops)
    requires LastTime(ops) <= now && key !in After(frequency, ops).entries
    ensures var last := LastAt(After(frequency, ops).log, key);
            last.Some? ==> last.value <= now && Millis(frequency, last.value, now) >= MIN_PERIOD_MS
  {
    EveryKeyAged(frequency, ops, key);
    hide LastAt, After, Possible;
    var last := LastAt(After(frequency, ops).log, key);
    if last.Some? { LongerAgo(frequency, last.value, LastTime(ops), now); }
  }

  // Without forced sweeps, and with every pending count swept in time, every message, a first one
  // included, comes at least 2000 ms after the message before it for its key.
  lemma AllAreSpaced(frequency: nat, ops: seq<Op>, j: nat)
    requires frequency > 0 && Possible(frequency, ops) && NeverForced(ops) && SweptInTime(frequency, ops)
    requires j < |After(frequency, ops).log|
    ensures SpacedAt(frequency, After(frequency, ops).log, j)
  {
    if After(frequency, ops).log[j].First? {
      FirstsAreSpaced(frequency, ops, j);
    } else {
      RepeatsAreSpaced(frequency, false, ops);
    }
  }

  // Sweeps that are never more than 6000 ms apart are in time for every entry.

  // When the last sweep was; before the first one, when the reporter was started.
  function LastSweep(start: nat, ops: seq<Op>): nat {
    if ops == [] then start
    else if ops[|ops| - 1].Sweeping? then ops[|ops| - 1].now
    else LastSweep(start, ops[..|ops| - 1])
  }

  predicate RegularSweeps(frequency: nat, start: nat, ops: seq<Op>)
    requires frequency > 0
  {
    ops == [] ||
    var init, last := ops[..|ops| - 1], ops[|ops| - 1];
    && RegularSweeps(frequency, start, init)
    && LastSweep(start, init) <= last.now
    && (last.Sweeping? ==> Millis(frequency, LastSweep(start, init), last.now) <= 6000)
  }

  // At the last sweep no count that is pending now was due.
  ghost predicate NotDueThen(frequency: nat, e: Entry, sweep: nat)
    requires frequency > 0
  {
    e.count > 0 && e.lastReport <= sweep ==> Millis(frequency, e.lastReport, sweep) < MIN_PERIOD_MS
  }

  lemma {:induction false} PendingNotDue(frequency: nat, start: nat, ops: seq<Op>, key: Key)
    requires frequency > 0 && Possible(frequency, ops) && RegularSweeps(frequency, start, ops)
    requires key in After(frequency, ops).entries
    ensures NotDueThen(frequency, After(frequency, ops).entries[key], LastSweep(start, ops))
    decreases |ops|
  {
    var init, last := ops[..|ops| - 1], ops[|ops| - 1];
    var st := After(frequency, init);
    SoundLater(st.entries, LastTime(init), last.now);
    if key in st.entries {
      PendingNotDue(frequency, start, init, key);
      var e := st.entries[key];
      if last.Raising? && last.key == key && !IsDue(frequency, e, last.now) && e.lastReport <= LastSweep(start, init) {
        LongerAgo(frequency, e.lastReport, LastSweep(start, init), last.now);
      }
    }
  }

  lemma SweptSoon(frequency: nat, e: Entry, sweep: nat, now: nat)
    requires frequency > 0 && Sound(e, now) && NotDueThen(frequency, e, sweep)
    requires sweep <= now && Millis(frequency, sweep, now) <= MAX_DELAY_MS
    ensures InTime(frequency, e, now)
  {
    if e.count == 0 {
    } else if e.lastReport <= sweep {
      MillisAdd(frequency, e.lastReport, sweep, now, MIN_PERIOD_MS - 1, MAX_DELAY_MS);
    } else {
      MillisMonotone(frequency, sweep, e.lastReport, now);
    }
  }

  lemma {:induction false} RegularIsInTime(frequency: nat, start: nat, ops: seq<Op>)
    requires frequency > 0 && Possible(frequency, ops) && RegularSweeps(frequency, start, ops)
    ensures SweptInTime(frequency, ops)
    decreases |ops|
  {
    if ops != [] {
      var init, last := ops[..|ops| - 1], ops[|ops| - 1];
      RegularIsInTime(frequency, start, init);
      var entries := After(frequency, init).entries;
      SoundLater(entries, LastTime(init), last.now);
      hide After, Millis, NotDueThen, InTime;
      if last.Sweeping? {
        forall k | k in entries ensures InTime(frequency, entries[k], last.now) {
          PendingNotDue(frequency, start, init, k);
          SweptSoon(frequency, entries[k], LastSweep(start, init), last.now);
        }
      }
    }
  }

  // So a caller who never forces a sweep and sweeps every 6000 ms or sooner sees every key's messages
  // 2000 ms apart or more.
  lemma RegularSweepsSpaceAll(frequency: nat, start: nat, ops: seq<Op>, j: nat)
    requires frequency > 0 && Possible(frequency, ops) && NeverForced(ops) && RegularSweeps(frequency, start, ops)
    requires j < |After(frequency, ops).log|
    ensures SpacedAt(frequency, After(frequency, ops).log, j)
  {
    RegularIsInTime(frequency, start, ops);
    AllAreSpaced(frequency, ops, j);
  }
}

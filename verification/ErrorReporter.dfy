/** The rate-limited error log: counting repeats, reporting them, and forgetting old entries. */
module ErrorReporter {
  import opened Collections
  import opened MachineWords

  const MIN_PERIOD_MS: nat := 2000
  const MAX_LIFETIME_MS: nat := 10000

  datatype Key = Key(ip: nat, port: nat, error: string)

  // Time stamps are counted in ticks of a clock that never runs backwards.
  datatype Entry = Entry(lastReport: nat, lastRaised: nat, count: nat)

  datatype Message = First(key: Key, at: nat) | Repeat(key: Key, at: nat, count: nat, since: nat)

  // Whole milliseconds from one stamp to a later one.
  function Millis(frequency: nat, from: nat, to: nat): nat
    requires frequency > 0 && from <= to
  {
    1000 * (to - from) / frequency
  }

  // An entry of a reporter whose clock shows now.
  predicate Sound(e: Entry, now: nat) {
    && e.lastReport <= now && e.lastRaised <= now && e.count < TWO32
    && (e.count > 0 ==> e.lastReport <= e.lastRaised)
  }

  // One more raise of a known error: what the entry becomes and what is printed.
  function Counted(e: Entry): nat {
    (e.count + 1) % TWO32
  }

  predicate IsDue(frequency: nat, e: Entry, now: nat)
    requires frequency > 0 && e.lastReport <= now
  {
    Millis(frequency, e.lastReport, now) >= MIN_PERIOD_MS
  }

  function Raised(frequency: nat, e: Entry, now: nat): Entry
    requires frequency > 0 && e.lastReport <= now
  {
    if IsDue(frequency, e, now) then Entry(now, now, 0) else Entry(e.lastReport, now, Counted(e))
  }

  // A sweep over one entry.
  predicate Flushes(frequency: nat, e: Entry, force: bool, now: nat)
    requires frequency > 0 && e.lastReport <= now
  {
    e.count != 0 && (force || IsDue(frequency, e, now))
  }

  function Flushed(frequency: nat, e: Entry, force: bool, now: nat): Entry
    requires frequency > 0 && e.lastReport <= now
  {
    if Flushes(frequency, e, force, now) then Entry(now, e.lastRaised, 0) else e
  }

  predicate IsStale(frequency: nat, e: Entry, now: nat)
    requires frequency > 0 && e.lastRaised <= now
  {
    Millis(frequency, e.lastRaised, now) > MAX_LIFETIME_MS
  }

  lemma MillisMonotone(frequency: nat, from: nat, later: nat, to: nat)
    requires frequency > 0 && from <= later <= to
    ensures Millis(frequency, later, to) <= Millis(frequency, from, to)
  {
    DivideMonotone(1000 * (to - later), 1000 * (to - from), frequency);
  }

  lemma DivideMonotone(a: nat, b: nat, d: nat)
    requires a <= b && d > 0
    ensures a / d <= b / d
  {
    if a / d > b / d {
      MultiplyMonotone(b / d + 1, a / d, d);
    }
  }

  lemma MultiplyMonotone(x: nat, y: nat, d: nat)
    requires x <= y
    ensures x * d <= y * d
  {
  }

  // What an entry still owes is printed before the entry is dropped.
  lemma StaleOwesNothing(frequency: nat, e: Entry, force: bool, now: nat)
    requires frequency > 0 && Sound(e, now) && IsStale(frequency, e, now)
    ensures Flushed(frequency, e, force, now).count == 0
  {
    if e.count > 0 { MillisMonotone(frequency, e.lastReport, e.lastRaised, now); }
  }

  // The state of a reporter as a value: the entries by key, and the messages printed so far.
  datatype State = State(entries: map<Key, Entry>, log: seq<Message>)

  predicate SoundEntries(entries: map<Key, Entry>, now: nat) {
    forall k {:trigger entries[k]} | k in entries :: Sound(entries[k], now)
  }

  function RaiseMessage(frequency: nat, st: State, key: Key, now: nat): seq<Message>
    requires frequency > 0 && (key in st.entries ==> st.entries[key].lastReport <= now)
  {
    if key !in st.entries then [First(key, now)]
    else
      var e := st.entries[key];
      if IsDue(frequency, e, now) then [Repeat(key, now, Counted(e), now - e.lastReport)] else []
  }

  function AfterRaise(frequency: nat, st: State, key: Key, now: nat): State
    requires frequency > 0 && (key in st.entries ==> st.entries[key].lastReport <= now)
  {
    var e := if key in st.entries then Raised(frequency, st.entries[key], now) else Entry(now, now, 0);
    State(st.entries[key := e], st.log + RaiseMessage(frequency, st, key, now))
  }

  function SweepMessage(frequency: nat, key: Key, e: Entry, force: bool, now: nat): seq<Message>
    requires frequency > 0 && e.lastReport <= now
  {
    if Flushes(frequency, e, force, now) then [Repeat(key, now, e.count, now - e.lastReport)] else []
  }

  // The messages of a sweep that visits some keys in turn.
  function SweepMessages(frequency: nat, entries: map<Key, Entry>, order: seq<Key>, force: bool, now: nat): seq<Message>
    requires frequency > 0 && SoundEntries(entries, now) && forall k <- order :: k in entries
  {
    if order == [] then []
    else
      var last := order[|order| - 1];
      SweepMessages(frequency, entries, order[..|order| - 1], force, now) +
      SweepMessage(frequency, last, entries[last], force, now)
  }

  // The entries after a sweep: exactly those raised within the lifetime stay.
  ghost function SweptEntries(frequency: nat, entries: map<Key, Entry>, force: bool, now: nat): map<Key, Entry>
    requires frequency > 0 && SoundEntries(entries, now)
  {
    map k | k in entries && !IsStale(frequency, entries[k], now) :: Flushed(frequency, entries[k], force, now)
  }

  predicate IsDistinct(keys: seq<Key>) {
    forall i, j :: 0 <= i < j < |keys| ==> keys[i] != keys[j]
  }

  predicate IsOrder(order: seq<Key>, entries: map<Key, Entry>) {
    && (forall k <- order :: k in entries)
    && (forall k <- entries :: k in order)
    && IsDistinct(order)
  }

  ghost function AfterSweep(frequency: nat, st: State, order: seq<Key>, force: bool, now: nat): State
    requires frequency > 0 && SoundEntries(st.entries, now) && IsOrder(order, st.entries)
  {
    State(SweptEntries(frequency, st.entries, force, now),
          st.log + SweepMessages(frequency, st.entries, order, force, now))
  }

  lemma KnownOrder(order: seq<Key>, entries: map<Key, Entry>, key: Key, e: Entry)
    requires IsOrder(order, entries) && key in entries
    ensures IsOrder(order, entries[key := e])
  {
  }

  lemma InsertedOrder(order: seq<Key>, entries: map<Key, Entry>, key: Key, position: nat, e: Entry)
    requires IsOrder(order, entries) && key !in entries && position <= |order|
    ensures IsOrder(order[..position] + [key] + order[position..], entries[key := e])
  {
    var longer := order[..position] + [key] + order[position..];
    assert forall k :: k in longer <==> k in order || k == key by {
      assert order == order[..position] + order[position..];
    }
  }

  // The keys of an order that a sweep keeps.
  function Kept(frequency: nat, entries: map<Key, Entry>, order: seq<Key>, now: nat): seq<Key>
    requires frequency > 0 && SoundEntries(entries, now) && forall k <- order :: k in entries
  {
    if order == [] then []
    else
      var last := order[|order| - 1];
      Kept(frequency, entries, order[..|order| - 1], now) + if IsStale(frequency, entries[last], now) then [] else [last]
  }

  class ErrorReporter {
    // The ordered map: its entries, and its keys in iteration order.
    var errorsAndCounts: map<Key, Entry>
    var order: seq<Key>
    var log: seq<Message>
    const frequency: nat

    ghost predicate Valid(now: nat)
      reads this
    {
      frequency > 0 && IsOrder(order, errorsAndCounts) && SoundEntries(errorsAndCounts, now)
    }

    ghost function Abstract(): State
      reads this
    {
      State(errorsAndCounts, log)
    }

    constructor (frequency: nat)
      requires frequency > 0
      ensures Valid(0) && Abstract() == State(map[], []) && this.frequency == frequency
    {
      errorsAndCounts, order, log := map[], [], [];
      this.frequency := frequency;
    }

    // A new key takes the position that the map's ordering gives it.
    method AddReport(key: Key, ghost before: nat, now: nat, position: nat)
      requires Valid(before) && before <= now && position <= |order|
      modifies this`errorsAndCounts, this`order, this`log
      ensures Valid(now)
      ensures Abstract() == AfterRaise(frequency, old(Abstract()), key, now)
    {
      hide IsOrder;
      if key in errorsAndCounts {
        KnownOrder(order, errorsAndCounts, key, Raised(frequency, errorsAndCounts[key], now));
        var e := errorsAndCounts[key];
        e := e.(count := (e.count + 1) % TWO32);
        var millisSinceLastReport := 1000 * (now - e.lastReport) / frequency;
        e := e.(lastRaised := now);
        if millisSinceLastReport >= MIN_PERIOD_MS {
          log := log + [Repeat(key, now, e.count, now - e.lastReport)];
          e := e.(count := 0, lastReport := now);
        }
        errorsAndCounts := errorsAndCounts[key := e];
      } else {
        log := log + [First(key, now)];
        errorsAndCounts := errorsAndCounts[key := Entry(now, now, 0)];
        InsertedOrder(order, old(errorsAndCounts), key, position, Entry(now, now, 0));
        order := order[..position] + [key] + order[position..];
      }
    }

    // Erases the key before the iterator, if it was found stale.
    method EraseStale(stale: Option<Key>, at: nat) returns (next: nat)
      requires stale.Some? ==> 0 < at <= |order|
      modifies this`errorsAndCounts, this`order
      ensures errorsAndCounts == if stale.Some? then old(errorsAndCounts) - {stale.value} else old(errorsAndCounts)
      ensures order == if stale.Some? then old(order)[..at - 1] + old(order)[at..] else old(order)
      ensures next == if stale.Some? then at - 1 else at
    {
      next := at;
      if stale.Some? {
        errorsAndCounts, order := errorsAndCounts - {stale.value}, order[..at - 1] + order[at..];
        next := at - 1;
      }
    }

    // One entry's turn: it is reported when it is due, and marked when it is stale.
    method Visit(key: Key, reportBelowThreshold: bool, now: nat) returns (stale: Option<Key>)
      requires frequency > 0 && SoundEntries(errorsAndCounts, now) && key in errorsAndCounts
      modifies this`errorsAndCounts, this`log
      ensures var e := old(errorsAndCounts[key]);
              && errorsAndCounts == old(errorsAndCounts)[key := Flushed(frequency, e, reportBelowThreshold, now)]
              && log == old(log) + SweepMessage(frequency, key, e, reportBelowThreshold, now)
              && stale == if IsStale(frequency, e, now) then Some(key) else None
    {
      var e := errorsAndCounts[key];
      var millisSinceLastReport := 1000 * (now - e.lastReport) / frequency;
      if reportBelowThreshold || millisSinceLastReport >= MIN_PERIOD_MS {
        if e.count != 0 {
          log := log + [Repeat(key, now, e.count, now - e.lastReport)];
          errorsAndCounts := errorsAndCounts[key := e.(count := 0, lastReport := now)];
        }
      }
      var sinceLastRaisedMillis := 1000 * (now - e.lastRaised) / frequency;
      stale := if sinceLastRaisedMillis > MAX_LIFETIME_MS then Some(key) else None;
    }

    // One iteration: an entry found stale before is erased now that the iterator has moved past it.
    method NextEntry(ghost w: Sweep, ghost done: nat, stale: Option<Key>, at: nat, force: bool, now: nat)
      returns (next: nat, found: Option<Key>)
      requires w.Ready() && done <= |w.keys| && at < |order|
      requires frequency == w.frequency && force == w.force && now == w.now
      requires InStep(w, done, errorsAndCounts, order, stale, at)
      requires log == w.log + w.Messages(done)
      modifies this`errorsAndCounts, this`order, this`log
      ensures done < |w.keys| && InStep(w, done + 1, errorsAndCounts, order, found, next)
      ensures log == w.log + w.Messages(done + 1)
    {
      hide Sound, Flushed, IsStale, Kept, InStep, IsOrder, SweepMessages, SweepMessage;
      StepErases(w, done, errorsAndCounts, order, stale, at);
      next := EraseStale(stale, at);
      Step(w, done, errorsAndCounts, order, next);
      found := Visit(order[next], force, now);
      next := next + 1;
    }

    method ReportPendingExceptions(reportBelowThreshold: bool, ghost before: nat, now: nat)
      requires Valid(before) && before <= now
      modifies this`errorsAndCounts, this`order, this`log
      ensures Valid(now)
      ensures Abstract() == AfterSweep(frequency, old(Abstract()), old(order), reportBelowThreshold, now)
    {
      hide Sound, Flushed, IsStale, Kept, InStep, IsOrder, SweepMessages, SweepMessage, SweptEntries;
      ghost var w := Sweep(frequency, errorsAndCounts, order, log, reportBelowThreshold, now);
      var stale: Option<Key> := None;
      var at: nat := 0;
      ghost var done := 0;
      SoundLater(errorsAndCounts, before, now);
      StepBegins(w);
      while at < |order|
        invariant done <= |w.keys| && InStep(w, done, errorsAndCounts, order, stale, at)
        invariant log == w.log + w.Messages(done)
        decreases |w.keys| - done
      {
        at, stale := NextEntry(w, done, stale, at, reportBelowThreshold, now);
        done := done + 1;
      }
      StepErases(w, done, errorsAndCounts, order, stale, at);
      at := EraseStale(stale, at);
      StepEnds(w, done, errorsAndCounts, order, at);
    }
  }

  // A sweep: the entries and keys it starts from, and its time.
  datatype Sweep = Sweep(frequency: nat, entries: map<Key, Entry>, keys: seq<Key>, log: seq<Message>, force: bool, now: nat) {
    predicate Ready() {
      frequency > 0 && IsOrder(keys, entries) && SoundEntries(entries, now)
    }

    // What has been printed after some of the keys.
    function Messages(done: nat): seq<Message>
      requires Ready() && done <= |keys|
    {
      SweepMessages(frequency, entries, keys[..done], force, now)
    }
  }

  // How far an iteration over the keys has come: the first ones are flushed, the stale ones among them
  // are gone, except that the very last may still wait to be erased.
  ghost predicate InStep(w: Sweep, done: nat, current: map<Key, Entry>, order: seq<Key>, stale: Option<Key>, at: nat)
    requires w.Ready() && done <= |w.keys|
  {
    && InPlace(w, done, order, stale, at)
    && (forall k :: k in current <==> k in order)
    && InValue(w, done, current)
  }

  ghost predicate InPlace(w: Sweep, done: nat, order: seq<Key>, stale: Option<Key>, at: nat)
    requires w.Ready() && done <= |w.keys|
  {
    var kept := Kept(w.frequency, w.entries, w.keys[..done], w.now);
    && order == kept + (if stale.Some? then [stale.value] else []) + w.keys[done..]
    && at == |kept| + (if stale.Some? then 1 else 0)
    && (stale.Some? ==> done > 0 && w.keys[done - 1] == stale.value && IsStale(w.frequency, w.entries[stale.value], w.now))
  }

  ghost predicate InValue(w: Sweep, done: nat, current: map<Key, Entry>)
    requires w.Ready() && done <= |w.keys|
  {
    forall k :: k in current ==>
      k in w.entries && current[k] == if k in w.keys[..done] then Flushed(w.frequency, w.entries[k], w.force, w.now) else w.entries[k]
  }

  lemma {:induction false} KeptExactly(frequency: nat, entries: map<Key, Entry>, keys: seq<Key>, now: nat)
    requires frequency > 0 && SoundEntries(entries, now) && forall k <- keys :: k in entries
    ensures forall k :: k in Kept(frequency, entries, keys, now) <==> k in keys && !IsStale(frequency, entries[k], now)
    decreases |keys|
  {
    if keys != [] {
      var init, last := keys[..|keys| - 1], keys[|keys| - 1];
      KeptExactly(frequency, entries, init, now);
      assert keys == init + [last];
    }
  }

  lemma StepBegins(w: Sweep)
    requires w.Ready()
    ensures InStep(w, 0, w.entries, w.keys, None, 0)
    ensures w.Messages(0) == []
  {
  }

  lemma StepErases(w: Sweep, done: nat, current: map<Key, Entry>, order: seq<Key>, stale: Option<Key>, at: nat)
    requires w.Ready() && done <= |w.keys|
    requires InStep(w, done, current, order, stale, at)
    ensures stale.Some? ==> 0 < at <= |order|
    ensures stale.Some? ==>
              InStep(w, done, current - {stale.value}, order[..at - 1] + order[at..], None, at - 1)
  {
    hide IsStale, Sound, Flushed, InPlace;
    if stale.Some? {
      EraseInPlace(w, done, order, stale.value, at);
      var next, kept := current - {stale.value}, order[..at - 1] + order[at..];
      assert forall k :: k in next <==> k in current && k != stale.value;
      assert forall k :: k in next ==> next[k] == current[k];
      assert InValue(w, done, next);
    }
  }

  lemma EraseInPlace(w: Sweep, done: nat, order: seq<Key>, stale: Key, at: nat)
    requires w.Ready() && done <= |w.keys| && InPlace(w, done, order, Some(stale), at)
    ensures 0 < at <= |order| && InPlace(w, done, order[..at - 1] + order[at..], None, at - 1)
    ensures forall k :: k in order[..at - 1] + order[at..] <==> k in order && k != stale
  {
    hide IsStale, Sound;
    var kept, rest := Kept(w.frequency, w.entries, w.keys[..done], w.now), w.keys[done..];
    KeptExactly(w.frequency, w.entries, w.keys[..done], w.now);
    assert order[..at - 1] == kept && order[at..] == rest;
    assert stale !in kept && stale !in rest;
    assert kept + [] + rest == kept + rest;
  }

  lemma SoundLater(entries: map<Key, Entry>, before: nat, now: nat)
    requires SoundEntries(entries, before) && before <= now
    ensures SoundEntries(entries, now)
  {
  }

  lemma FlushedSound(frequency: nat, e: Entry, force: bool, now: nat)
    requires frequency > 0 && Sound(e, now)
    ensures Sound(Flushed(frequency, e, force, now), now)
  {
  }

  lemma StepSound(w: Sweep, done: nat,
                  current: map<Key, Entry>, order: seq<Key>, stale: Option<Key>, at: nat)
    requires w.Ready() && done <= |w.keys|
    requires InStep(w, done, current, order, stale, at)
    ensures SoundEntries(current, w.now)
  {
    hide IsOrder, Kept, Sound, Flushed, IsStale;
    forall k {:trigger current[k]} | k in current ensures Sound(current[k], w.now) {
      FlushedSound(w.frequency, w.entries[k], w.force, w.now);
    }
  }

  lemma StepVisits(w: Sweep, done: nat,
                   current: map<Key, Entry>, order: seq<Key>, at: nat)
    requires w.Ready() && done <= |w.keys|
    requires InStep(w, done, current, order, None, at)
    ensures at < |order| <==> done < |w.keys|
    ensures done < |w.keys| ==> order[at] == w.keys[done] && w.keys[done] in current && current[w.keys[done]] == w.entries[w.keys[done]]
  {
    hide IsStale, Sound, Flushed, Kept;
    if done < |w.keys| {
      assert w.keys[done] == w.keys[done..][0] == order[at];
      assert w.keys[done] !in w.keys[..done];
    }
  }

  lemma StepMessages(w: Sweep, done: nat)
    requires w.Ready() && done < |w.keys|
    ensures w.Messages(done + 1) ==
            w.Messages(done) + SweepMessage(w.frequency, w.keys[done], w.entries[w.keys[done]], w.force, w.now)
  {
    hide SweepMessage, Sound;
    assert w.keys[..done + 1][..done] == w.keys[..done];
  }

  lemma StepAdvances(w: Sweep, done: nat, current: map<Key, Entry>, order: seq<Key>, at: nat)
    requires w.Ready() && done < |w.keys|
    requires InStep(w, done, current, order, None, at)
    ensures var key := w.keys[done];
            var stale := if IsStale(w.frequency, w.entries[key], w.now) then Some(key) else None;
            InStep(w, done + 1,
                   current[key := Flushed(w.frequency, w.entries[key], w.force, w.now)], order, stale, at + 1)
  {
    hide IsStale, Sound, Flushed, InPlace;
    var key := w.keys[done];
    StepVisits(w, done, current, order, at);
    AdvanceInPlace(w, done, order, at);
    assert w.keys[..done + 1] == w.keys[..done] + [key];
  }

  lemma AdvanceInPlace(w: Sweep, done: nat, order: seq<Key>, at: nat)
    requires w.Ready() && done < |w.keys| && InPlace(w, done, order, None, at)
    ensures var key := w.keys[done];
            InPlace(w, done + 1, order, if IsStale(w.frequency, w.entries[key], w.now) then Some(key) else None, at + 1)
  {
    hide IsStale, Sound;
    var key := w.keys[done];
    var kept := Kept(w.frequency, w.entries, w.keys[..done], w.now);
    assert w.keys[..done + 1][..done] == w.keys[..done];
    MoveOver(kept, w.keys, done);
  }

  lemma MoveOver(kept: seq<Key>, keys: seq<Key>, done: nat)
    requires done < |keys|
    ensures kept + [] + keys[done..] == kept + [keys[done]] + keys[done + 1..]
    ensures kept + [keys[done]] + [] + keys[done + 1..] == kept + [keys[done]] + keys[done + 1..]
  {
    assert keys[done..] == [keys[done]] + keys[done + 1..];
  }

  lemma {:induction false} KeptDistinct(frequency: nat, entries: map<Key, Entry>, keys: seq<Key>, now: nat)
    requires frequency > 0 && SoundEntries(entries, now) && IsDistinct(keys) && forall k <- keys :: k in entries
    ensures IsDistinct(Kept(frequency, entries, keys, now))
    decreases |keys|
  {
    hide IsStale, Sound;
    if keys != [] {
      var init, last := keys[..|keys| - 1], keys[|keys| - 1];
      KeptDistinct(frequency, entries, init, now);
      KeptExactly(frequency, entries, init, now);
      assert keys == init + [last] && last !in init;
    }
  }

  lemma Step(w: Sweep, done: nat, current: map<Key, Entry>, order: seq<Key>, at: nat)
    requires w.Ready() && done <= |w.keys| && InStep(w, done, current, order, None, at)
    ensures at < |order| <==> done < |w.keys|
    ensures SoundEntries(current, w.now)
    ensures done < |w.keys| ==>
              var key := w.keys[done];
              var e := w.entries[key];
              var stale := if IsStale(w.frequency, e, w.now) then Some(key) else None;
              && order[at] == key && key in current && current[key] == e
              && InStep(w, done + 1, current[key := Flushed(w.frequency, e, w.force, w.now)], order, stale, at + 1)
              && w.Messages(done + 1) == w.Messages(done) + SweepMessage(w.frequency, key, e, w.force, w.now)
  {
    hide InStep, IsStale, Sound, Flushed, SweepMessages, SweepMessage;
    StepVisits(w, done, current, order, at);
    StepSound(w, done, current, order, None, at);
    if done < |w.keys| {
      StepMessages(w, done);
      StepAdvances(w, done, current, order, at);
    }
  }

  lemma StepEnds(w: Sweep, done: nat,
                 current: map<Key, Entry>, order: seq<Key>, at: nat)
    requires w.Ready() && done <= |w.keys| && at >= |order|
    requires InStep(w, done, current, order, None, at)
    ensures w.keys[..done] == w.keys && SoundEntries(current, w.now)
    ensures current == SweptEntries(w.frequency, w.entries, w.force, w.now)
    ensures IsOrder(order, current)
  {
    hide IsStale, Sound, Flushed, Kept;
    StepVisits(w, done, current, order, at);
    StepSound(w, done, current, order, None, at);
    assert w.keys[..done] == w.keys;
    KeptExactly(w.frequency, w.entries, w.keys, w.now);
    KeptDistinct(w.frequency, w.entries, w.keys, w.now);
    assert order == Kept(w.frequency, w.entries, w.keys, w.now);
  }
}

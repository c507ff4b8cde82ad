// The coordinator's iteration (the body of alarm_thread's loop) and the
// command guards of main, as pure steps over the state of the three lists.
module Coordinator {
  import opened Seqs
  import opened AlarmList
  import opened ThreadList
  import opened RemovalList

  datatype State = State(alarms: seq<Alarm>, threads: seq<ThreadRecord>, removals: seq<int>)

  /** One iteration, in the source's fixed order: sweep done alarms, prune
      thread records whose type has no live alarm, start a worker for every
      record not yet created, apply and empty the cancellation queue. The
      second component lists the types a worker is started for. */
  function Iterate(st: State): (r: (State, seq<int>))
  {
    var swept := Sweep(st.alarms);
    var pruned := Pruned(st.threads, swept);
    (State(Cancelled(swept, st.removals), MarkCreated(pruned), []), Launched(pruned))
  }

  /** A live alarm after the sweep was a live alarm before it. */
  lemma SweepKeepsNoLive(alarms: seq<Alarm>, t: int)
    requires CountLive(alarms, t, 0) == 0
    ensures CountLive(Sweep(alarms), t, 0) == 0
  {
    CountLiveMeaning(alarms, t);
    CountLiveMeaning(Sweep(alarms), t);
    SweepProperties(alarms);
  }

  /** After one iteration: no alarm is done, the cancellation queue is empty
      and no alarm carries a number that was queued; every thread record is
      created; the alarm list is still ascending and thread types still
      unique. A type with no live alarm when the iteration starts has no
      record when it ends (purge before prune), and a worker is started only
      for a type that still has a live alarm after the sweep (prune before
      launch). */
  lemma IterateProperties(st: State)
    ensures forall x :: x in Iterate(st).0.alarms ==> !x.done && x.number !in st.removals
    ensures Iterate(st).0.removals == []
    ensures forall r :: r in Iterate(st).0.threads ==> r.created
    ensures StrictlySorted(st.alarms) ==> StrictlySorted(Iterate(st).0.alarms)
    ensures UniqueTypes(st.threads) ==> UniqueTypes(Iterate(st).0.threads)
    ensures forall t :: CountLive(st.alarms, t, 0) == 0 ==> CountType(Iterate(st).0.threads, t) == 0
    ensures forall t :: t in Iterate(st).1 ==> CountLive(Sweep(st.alarms), t, 0) > 0
  {
    var swept := Sweep(st.alarms);
    var pruned := Pruned(st.threads, swept);
    var marked := MarkCreated(pruned);
    SweepProperties(st.alarms);
    CancelledProperties(swept, st.removals);
    PrunedProperties(st.threads, swept);
    LaunchProperties(pruned);
    forall r | r in marked ensures r.created && CountLive(swept, r.msgType, 0) > 0 {
      var i :| 0 <= i < |marked| && marked[i] == r;
      assert pruned[i] in pruned;
    }
    if UniqueTypes(st.threads) {
      PrunedKeepsUnique(st.threads, swept);
      assert UniqueTypes(marked);
    }
    forall t | CountLive(st.alarms, t, 0) == 0 ensures CountType(marked, t) == 0 {
      SweepKeepsNoLive(st.alarms, t);
      FilterNone(marked, OfType(t));
    }
  }

  /** With no new commands in between, a second iteration starts no worker. */
  lemma SecondIterationLaunchesNothing(st: State)
    ensures Iterate(Iterate(st).0).1 == []
  {
    var next := Iterate(st).0;
    IterateProperties(st);
    var pruned := Pruned(next.threads, Sweep(next.alarms));
    assert forall r :: r in pruned ==> r.created;
    FilterNone(pruned, Pending());
  }

  /** Convergence: once the display worker for type `t` has found every alarm
      of that type past its instant, the next iteration retires the type's
      thread record. */
  lemma ExpiredTypeIsRetired(st: State, t: int, now: int)
    requires forall x :: x in st.alarms && x.msgType == t ==> x.time < now
    ensures CountType(Iterate(State(MarkExpired(st.alarms, t, now), st.threads, st.removals)).0.threads, t) == 0
  {
    MarkExpiredProperties(st.alarms, t, now);
    FilterNone(st.alarms, Displayed(t, now));
    IterateProperties(State(MarkExpired(st.alarms, t, now), st.threads, st.removals));
  }

  // ---------------------------------------------------------------------
  // Command guards (main)
  // ---------------------------------------------------------------------

  datatype RegisterOutcome = Registered | WorkerExists | NoAlarmOfType

  datatype CancelOutcome = CancelQueued | CancelExists | NoAlarmWithNumber

  /** Create_Thread: a type is registered only when a live alarm of that type
      exists and no thread record for it does. */
  function RegisterDecision(alarms: seq<Alarm>, threads: seq<ThreadRecord>, t: int): (r: RegisterOutcome)
  {
    if CountLive(alarms, t, 0) == 0 then NoAlarmOfType
    else if CountType(threads, t) != 0 then WorkerExists
    else Registered
  }

  /** Cancel: a number is queued only when a live alarm with that number
      exists and no cancellation of it is queued yet. */
  function CancelDecision(alarms: seq<Alarm>, removals: seq<int>, n: int): (r: CancelOutcome)
  {
    if CountLive(alarms, n, 1) == 0 then NoAlarmWithNumber
    else if n in removals then CancelExists
    else CancelQueued
  }

  /** Registration happens exactly when a live alarm of the type exists and
      the type has no record, so appending the record keeps one record per
      type. */
  lemma RegisterGuard(alarms: seq<Alarm>, threads: seq<ThreadRecord>, t: int)
    ensures RegisterDecision(alarms, threads, t) == Registered <==>
              (exists x :: x in alarms && x.msgType == t && !x.done) &&
              (forall r :: r in threads ==> r.msgType != t)
    ensures RegisterDecision(alarms, threads, t) == Registered && UniqueTypes(threads) ==>
              UniqueTypes(threads + [ThreadRecord(t, false)])
  {
    CountLiveMeaning(alarms, t);
    var f := Filter(threads, OfType(t));
    if f != [] {
      assert f[0] in f;
    }
    if forall r :: r in threads ==> r.msgType != t {
      FilterNone(threads, OfType(t));
      forall i | 0 <= i < |threads| ensures threads[i].msgType != t {
        assert threads[i] in threads;
      }
    }
  }

  /** A cancellation is queued exactly when a live alarm with the number
      exists and the number is not queued, so the queue stays free of
      duplicates. */
  lemma CancelGuard(alarms: seq<Alarm>, removals: seq<int>, n: int)
    ensures CancelDecision(alarms, removals, n) == CancelQueued <==>
              (exists x :: x in alarms && x.number == n && !x.done) && n !in removals
    ensures CancelDecision(alarms, removals, n) == CancelQueued && NoDuplicates(removals) ==>
              NoDuplicates(removals + [n])
  {
    CountLiveMeaning(alarms, n);
    if n !in removals && NoDuplicates(removals) {
      AppendKeepsNoDuplicates(removals, n);
    }
  }
}

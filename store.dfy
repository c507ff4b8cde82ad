// The three global lists of alarm_cond.c and the operations on them, as an
// object whose methods update the lists in place. Each semaphore-bracketed
// operation of the source is one method call here (atomic); the walks over
// the linked lists are loops over the sequence fields.
module Store {
  import opened Seqs
  import opened AlarmList
  import opened ThreadList
  import opened RemovalList
  import opened Coordinator

  class AlarmStore {
    var alarms: seq<Alarm>
    var threads: seq<ThreadRecord>
    var removals: seq<int>

    ghost predicate Valid()
      reads this
    {
      StrictlySorted(alarms)
    }

    function Snapshot(): (r: State)
      reads this
    {
      State(alarms, threads, removals)
    }

    /** The three list heads start out empty. */
    constructor ()
      ensures Valid()
      ensures alarms == [] && threads == [] && removals == []
    {
      alarms := [];
      threads := [];
      removals := [];
    }

    // -------------------------------------------------------------------
    // Alarm list
    // -------------------------------------------------------------------

    /** add_to_alarm_list: walk to the first entry whose number is not
        smaller, then link the new alarm before it or in its place. */
    method AddToAlarmList(a: Alarm) returns (replaced: bool)
      requires Valid()
      modifies this
      ensures Valid()
      ensures alarms == Insert(old(alarms), a)
      ensures replaced == HasNumber(old(alarms), a.number)
      ensures threads == old(threads) && removals == old(removals)
    {
      var i := 0;
      while i < |alarms| && alarms[i].number < a.number
        invariant 0 <= i <= |alarms|
        invariant forall k :: 0 <= k < i ==> alarms[k].number < a.number
      {
        i := i + 1;
      }
      InsertAt(alarms, a, i);
      InsertKeepsSorted(alarms, a);
      if i < |alarms| && alarms[i].number == a.number {
        replaced := true;
        alarms := alarms[..i] + [a] + alarms[i + 1..];
      } else {
        replaced := false;
        assert forall k :: i <= k < |alarms| ==> alarms[k].number > a.number;
        alarms := alarms[..i] + [a] + alarms[i..];
      }
    }

    /** remove_from_alarm_list: rescan from the head and unlink the first
        entry with number `n`, until none is left. */
    method RemoveFromAlarmList(n: int)
      requires Valid()
      modifies this
      ensures Valid()
      ensures alarms == RemoveNumber(old(alarms), n)
      ensures threads == old(threads) && removals == old(removals)
    {
      RemoveNumberProperties(old(alarms), n);
      while true
        invariant RemoveNumber(alarms, n) == RemoveNumber(old(alarms), n)
        invariant threads == old(threads) && removals == old(removals)
        decreases |alarms|
      {
        var i := 0;
        while i < |alarms| && alarms[i].number != n
          invariant 0 <= i <= |alarms|
          invariant forall k :: 0 <= k < i ==> alarms[k].number != n
        {
          i := i + 1;
        }
        if i == |alarms| {
          RemoveAbsentNumber(alarms, n);
          break;
        }
        RemoveOneNumbered(alarms, n, i);
        alarms := alarms[..i] + alarms[i + 1..];
      }
    }

    /** alarm_exists: count the live alarms of type `key` (mode 0) or with
        number `key` (mode 1); any other mode finds nothing. */
    method AlarmExists(key: int, mode: int) returns (count: int)
      ensures count == CountLive(alarms, key, mode)
      ensures mode == 0 ==> (count > 0 <==> exists x :: x in alarms && x.msgType == key && !x.done)
      ensures mode == 1 ==> (count > 0 <==> exists x :: x in alarms && x.number == key && !x.done)
    {
      count := 0;
      if mode == 0 {
        var i := 0;
        while i < |alarms|
          invariant 0 <= i <= |alarms|
          invariant count == |Filter(alarms[..i], LiveOfType(key))|
        {
          FilterPrefix(alarms, i, LiveOfType(key));
          if alarms[i].msgType == key && !alarms[i].done {
            count := count + 1;
          }
          i := i + 1;
        }
        assert alarms[..i] == alarms;
      } else if mode == 1 {
        var i := 0;
        while i < |alarms|
          invariant 0 <= i <= |alarms|
          invariant count == |Filter(alarms[..i], LiveNumbered(key))|
        {
          FilterPrefix(alarms, i, LiveNumbered(key));
          if alarms[i].number == key && !alarms[i].done {
            count := count + 1;
          }
          i := i + 1;
        }
        assert alarms[..i] == alarms;
      }
      CountLiveMeaning(alarms, key);
    }

    /** remove_alarms_that_are_done: find the first done alarm, remove every
        alarm with its number, and start over until no done alarm is left.
        The search reports "nothing found" with a flag rather than the
        source's -1 (see AlarmList.SweepAsWritten). */
    method RemoveAlarmsThatAreDone()
      requires Valid()
      modifies this
      ensures Valid()
      ensures alarms == Sweep(old(alarms))
      ensures threads == old(threads) && removals == old(removals)
    {
      while true
        invariant Valid()
        invariant Sweep(alarms) == Sweep(old(alarms))
        invariant threads == old(threads) && removals == old(removals)
        decreases |alarms|
      {
        var i := 0;
        while i < |alarms| && !alarms[i].done
          invariant 0 <= i <= |alarms|
          invariant forall k :: 0 <= k < i ==> !alarms[k].done
        {
          i := i + 1;
        }
        if i == |alarms| {
          assert FirstDone(alarms) == None;
          break;
        }
        FirstDoneAt(alarms, i);
        assert alarms[i] in alarms && !NumberNotIn({alarms[i].number})(alarms[i]);
        RemoveFromAlarmList(alarms[i].number);
      }
    }

    // -------------------------------------------------------------------
    // Thread list
    // -------------------------------------------------------------------

    /** add_to_thread_list: append a record whose worker is not started. */
    method AddToThreadList(t: int)
      modifies this
      ensures threads == old(threads) + [ThreadRecord(t, false)]
      ensures alarms == old(alarms) && removals == old(removals)
    {
      threads := threads + [ThreadRecord(t, false)];
    }

    /** remove_from_thread_list: unlink the first record of type `t`. */
    method RemoveFromThreadList(t: int)
      modifies this
      ensures threads == RemoveType(old(threads), t)
      ensures alarms == old(alarms) && removals == old(removals)
    {
      var i := 0;
      while i < |threads| && threads[i].msgType != t
        invariant 0 <= i <= |threads|
        invariant forall k :: 0 <= k < i ==> threads[k].msgType != t
      {
        i := i + 1;
      }
      if i < |threads| {
        RemoveFirstAt(threads, OfType(t), i);
        threads := threads[..i] + threads[i + 1..];
      }
    }

    /** thread_exists: count the records of type `t`. */
    method ThreadExists(t: int) returns (count: int)
      ensures count == CountType(threads, t)
      ensures count > 0 <==> exists r :: r in threads && r.msgType == t
    {
      count := 0;
      var i := 0;
      while i < |threads|
        invariant 0 <= i <= |threads|
        invariant count == |Filter(threads[..i], OfType(t))|
      {
        FilterPrefix(threads, i, OfType(t));
        if threads[i].msgType == t {
          count := count + 1;
        }
        i := i + 1;
      }
      assert threads[..i] == threads;
      var f := Filter(threads, OfType(t));
      if f != [] {
        assert f[0] in f;
      }
    }

    /** thread_has_active_alarm: the number of live alarms of type `t`. */
    method ThreadHasActiveAlarm(t: int) returns (count: int)
      ensures count == CountLive(alarms, t, 0)
      ensures count > 0 <==> exists x :: x in alarms && x.msgType == t && !x.done
    {
      count := AlarmExists(t, 0);
    }

    /** remove_threads_if_no_active_alarm: find the first record whose type
        has no live alarm, unlink the first record of that type, and start
        over until every record's type has a live alarm. */
    method RemoveThreadsIfNoActiveAlarm()
      modifies this
      ensures threads == Pruned(old(threads), alarms)
      ensures alarms == old(alarms) && removals == old(removals)
    {
      while true
        invariant Pruned(threads, alarms) == Pruned(old(threads), alarms)
        invariant alarms == old(alarms) && removals == old(removals)
        decreases |threads|
      {
        ghost var scanned := threads;
        var i := 0;
        var found := false;
        var t := 0;
        while i < |threads|
          invariant threads == scanned && alarms == old(alarms) && removals == old(removals)
          invariant 0 <= i <= |threads|
          invariant !found
          invariant forall k :: 0 <= k < i ==> CountLive(alarms, threads[k].msgType, 0) > 0
        {
          var live := ThreadHasActiveAlarm(threads[i].msgType);
          if live == 0 {
            found := true;
            t := threads[i].msgType;
            break;
          }
          i := i + 1;
        }
        if !found {
          PruneNothing(threads, alarms);
          break;
        }
        PruneRound(threads, alarms, i);
        RemoveFromThreadList(t);
      }
    }

    /** check_thread_list_and_create_thread: flag every record not yet
        created and start its worker; the result lists the types of the
        workers started, in list order. */
    method CheckThreadListAndCreateThread() returns (launched: seq<int>)
      modifies this
      ensures threads == MarkCreated(old(threads))
      ensures launched == Launched(old(threads))
      ensures alarms == old(alarms) && removals == old(removals)
    {
      launched := [];
      var i := 0;
      while i < |threads|
        invariant 0 <= i <= |threads| == |old(threads)|
        invariant forall k :: 0 <= k < i ==> threads[k] == old(threads)[k].(created := true)
        invariant forall k :: i <= k < |threads| ==> threads[k] == old(threads)[k]
        invariant launched == Launched(old(threads)[..i])
        invariant alarms == old(alarms) && removals == old(removals)
      {
        assert old(threads)[..i + 1] == old(threads)[..i] + [old(threads)[i]];
        LaunchedSnoc(old(threads)[..i], old(threads)[i]);
        if !threads[i].created {
          threads := threads[i := threads[i].(created := true)];
          launched := launched + [threads[i].msgType];
        } else {
          threads := threads[i := threads[i].(created := true)];
        }
        i := i + 1;
      }
      assert old(threads)[..i] == old(threads);
    }

    // -------------------------------------------------------------------
    // Removal list
    // -------------------------------------------------------------------

    /** add_to_removal_list: append a cancellation request. */
    method AddToRemovalList(n: int)
      modifies this
      ensures removals == old(removals) + [n]
      ensures alarms == old(alarms) && threads == old(threads)
    {
      removals := removals + [n];
    }

    /** remove_from_removal_list: unlink the first entry equal to `n`. */
    method RemoveFromRemovalList(n: int)
      modifies this
      ensures removals == RemoveRequest(old(removals), n)
      ensures alarms == old(alarms) && threads == old(threads)
    {
      var i := 0;
      while i < |removals| && removals[i] != n
        invariant 0 <= i <= |removals|
        invariant forall k :: 0 <= k < i ==> removals[k] != n
      {
        i := i + 1;
      }
      if i < |removals| {
        RemoveFirstAt(removals, Equals(n), i);
        removals := removals[..i] + removals[i + 1..];
      }
    }

    /** remove_request_exists: 1 when `n` is queued, 0 otherwise. */
    method RemoveRequestExists(n: int) returns (found: int)
      ensures found == if n in removals then 1 else 0
    {
      found := 0;
      var i := 0;
      while i < |removals|
        invariant 0 <= i <= |removals|
        invariant found == if n in removals[..i] then 1 else 0
      {
        assert removals[..i + 1] == removals[..i] + [removals[i]];
        if removals[i] == n {
          found := 1;
        }
        i := i + 1;
      }
      assert removals[..i] == removals;
    }

    /** remove_alarms_in_removal_list: remove from the alarm list every alarm
        whose number is queued, in queue order, then empty the queue. */
    method RemoveAlarmsInRemovalList()
      requires Valid()
      modifies this
      ensures Valid()
      ensures alarms == Cancelled(old(alarms), old(removals))
      ensures removals == []
      ensures threads == old(threads)
    {
      var i := 0;
      while i < |removals|
        invariant 0 <= i <= |removals|
        invariant Valid()
        invariant alarms == Cancelled(old(alarms), removals[..i])
        invariant removals == old(removals) && threads == old(threads)
      {
        assert removals[..i + 1][..i] == removals[..i];
        RemoveFromAlarmList(removals[i]);
        i := i + 1;
      }
      assert removals[..i] == removals;
      removals := [];
    }

    // -------------------------------------------------------------------
    // The coordinator, the display worker and the command guards
    // -------------------------------------------------------------------

    /** One iteration of alarm_thread's loop. */
    method CoordinatorIteration() returns (launched: seq<int>)
      requires Valid()
      modifies this
      ensures Valid()
      ensures (Snapshot(), launched) == Iterate(old(Snapshot()))
    {
      RemoveAlarmsThatAreDone();
      RemoveThreadsIfNoActiveAlarm();
      launched := CheckThreadListAndCreateThread();
      RemoveAlarmsInRemovalList();
    }

    /** One cycle of the display worker for type `t` at instant `now`: mark
        its expired alarms done, report the ones still running, then end the
        worker when no thread record of its type is left. */
    method DisplayCycle(t: int, now: int) returns (shown: seq<Alarm>, terminate: bool)
      requires Valid()
      modifies this
      ensures Valid()
      ensures alarms == MarkExpired(old(alarms), t, now)
      ensures shown == Shown(old(alarms), t, now)
      ensures terminate <==> CountType(threads, t) == 0
      ensures threads == old(threads) && removals == old(removals)
    {
      shown := [];
      var i := 0;
      while i < |alarms|
        invariant 0 <= i <= |alarms| == |old(alarms)|
        invariant forall k :: 0 <= k < i ==> alarms[k] == Mark(t, now, old(alarms)[k])
        invariant forall k :: i <= k < |alarms| ==> alarms[k] == old(alarms)[k]
        invariant shown == Shown(old(alarms)[..i], t, now)
        invariant threads == old(threads) && removals == old(removals)
      {
        FilterPrefix(old(alarms), i, Displayed(t, now));
        if alarms[i].msgType == t && !alarms[i].done {
          if alarms[i].time - now >= 0 {
            shown := shown + [alarms[i]];
          } else {
            alarms := alarms[i := alarms[i].(done := true)];
          }
        }
        i := i + 1;
      }
      assert old(alarms)[..i] == old(alarms);
      assert alarms == MarkExpired(old(alarms), t, now);
      MarkExpiredProperties(old(alarms), t, now);
      var records := ThreadExists(t);
      terminate := records == 0;
    }

    /** A Type A command: build the alarm (expiring `seconds` after `now`,
        not done) and insert it. */
    method Submit(seconds: int, msgType: int, number: int, message: string, now: int) returns (replaced: bool)
      requires Valid()
      modifies this
      ensures Valid()
      ensures alarms == Insert(old(alarms), Alarm(number, msgType, seconds, now + seconds, message, false))
      ensures replaced == HasNumber(old(alarms), number)
      ensures threads == old(threads) && removals == old(removals)
    {
      replaced := AddToAlarmList(Alarm(number, msgType, seconds, now + seconds, message, false));
    }

    /** A Create_Thread command for type `t`. */
    method Register(t: int) returns (outcome: RegisterOutcome)
      modifies this
      ensures outcome == RegisterDecision(old(alarms), old(threads), t)
      ensures threads == if outcome == Registered then old(threads) + [ThreadRecord(t, false)] else old(threads)
      ensures alarms == old(alarms) && removals == old(removals)
    {
      var live := AlarmExists(t, 0);
      if live != 0 {
        var records := ThreadExists(t);
        if records == 0 {
          AddToThreadList(t);
          outcome := Registered;
        } else {
          outcome := WorkerExists;
        }
      } else {
        outcome := NoAlarmOfType;
      }
    }

    /** A Cancel command for number `n`. */
    method Cancel(n: int) returns (outcome: CancelOutcome)
      modifies this
      ensures outcome == CancelDecision(old(alarms), old(removals), n)
      ensures removals == if outcome == CancelQueued then old(removals) + [n] else old(removals)
      ensures alarms == old(alarms) && threads == old(threads)
    {
      var live := AlarmExists(n, 1);
      if live != 0 {
        var queued := RemoveRequestExists(n);
        if queued == 0 {
          AddToRemovalList(n);
          outcome := CancelQueued;
        } else {
          outcome := CancelExists;
        }
      } else {
        outcome := NoAlarmWithNumber;
      }
    }
  }
}

// The thread list (`thread_list` in alarm_cond.c): one record per message
// type for which a periodic display worker was requested.
module ThreadList {
  import opened Seqs
  import opened AlarmList

  /** A worker request: the message type it serves and whether its display
      worker has already been started (`is_created`). */
  datatype ThreadRecord = ThreadRecord(msgType: int, created: bool)

  function OfType(t: int): (r: ThreadRecord -> bool)
  {
    (r: ThreadRecord) => r.msgType == t
  }

  /** What thread_exists returns: the number of records of type `t`. */
  function CountType(s: seq<ThreadRecord>, t: int): (r: nat)
  {
    |Filter(s, OfType(t))|
  }

  /** At most one record per message type. */
  predicate UniqueTypes(s: seq<ThreadRecord>)
  {
    forall i, j :: 0 <= i < j < |s| ==> s[i].msgType != s[j].msgType
  }

  /** remove_from_thread_list: unlink the first record of type `t`. */
  function RemoveType(s: seq<ThreadRecord>, t: int): (r: seq<ThreadRecord>)
  {
    RemoveFirst(s, OfType(t))
  }

  /** Removing a present type removes one record of that type; the records
      of every other type stay, in their relative order; removing an absent
      type changes nothing. */
  lemma RemoveTypeProperties(s: seq<ThreadRecord>, t: int)
    ensures CountType(s, t) > 0 ==> CountType(RemoveType(s, t), t) == CountType(s, t) - 1
    ensures CountType(s, t) > 0 ==> |RemoveType(s, t)| == |s| - 1
    ensures forall u :: u != t ==> Filter(RemoveType(s, t), OfType(u)) == Filter(s, OfType(u))
    ensures Filter(RemoveType(s, t), Not(OfType(t))) == Filter(s, Not(OfType(t)))
    ensures CountType(s, t) == 0 ==> RemoveType(s, t) == s
  {
    FilterRemoveFirst(s, OfType(t), Not(OfType(t)));
    var f := Filter(s, OfType(t));
    if f != [] {
      assert f[0] in f;
      RemoveFirstCount(s, OfType(t));
    }
    forall u | u != t ensures Filter(RemoveType(s, t), OfType(u)) == Filter(s, OfType(u)) {
      FilterRemoveFirst(s, OfType(t), OfType(u));
    }
  }

  // ---------------------------------------------------------------------
  // Pruning (thread_has_active_alarm, remove_threads_if_no_active_alarm)
  // ---------------------------------------------------------------------

  /** thread_has_active_alarm, as a predicate on a record. */
  function HasLiveAlarm(alarms: seq<Alarm>): (r: ThreadRecord -> bool)
  {
    (r: ThreadRecord) => CountLive(alarms, r.msgType, 0) > 0
  }

  /** The records whose type still has a live alarm, in list order. */
  function Pruned(threads: seq<ThreadRecord>, alarms: seq<Alarm>): (r: seq<ThreadRecord>)
  {
    Filter(threads, HasLiveAlarm(alarms))
  }

  /** One round of the pruning loop, which unlinks the first record of a type
      without live alarms, shortens the list and leaves the final result
      unchanged. */
  lemma PruneRound(threads: seq<ThreadRecord>, alarms: seq<Alarm>, i: nat)
    requires i < |threads| && CountLive(alarms, threads[i].msgType, 0) == 0
    ensures |RemoveType(threads, threads[i].msgType)| == |threads| - 1
    ensures Pruned(RemoveType(threads, threads[i].msgType), alarms) == Pruned(threads, alarms)
  {
    var t := threads[i].msgType;
    assert threads[i] in threads && OfType(t)(threads[i]);
    FilterRemoveFirst(threads, OfType(t), HasLiveAlarm(alarms));
  }

  /** When every record's type has a live alarm, pruning changes nothing. */
  lemma PruneNothing(threads: seq<ThreadRecord>, alarms: seq<Alarm>)
    requires forall k :: 0 <= k < |threads| ==> CountLive(alarms, threads[k].msgType, 0) > 0
    ensures Pruned(threads, alarms) == threads
  {
    FilterAll(threads, HasLiveAlarm(alarms));
  }

  /** After pruning every record's type has a live alarm, and a record is
      kept exactly when its type has one. */
  lemma PrunedProperties(threads: seq<ThreadRecord>, alarms: seq<Alarm>)
    ensures forall r :: r in Pruned(threads, alarms) ==>
              exists x :: x in alarms && x.msgType == r.msgType && !x.done
    ensures forall r :: r in Pruned(threads, alarms) <==> r in threads && CountLive(alarms, r.msgType, 0) > 0
  {
    forall r | r in Pruned(threads, alarms)
      ensures exists x :: x in alarms && x.msgType == r.msgType && !x.done
    {
      CountLiveMeaning(alarms, r.msgType);
    }
  }

  /** Pruning keeps one record per type. */
  lemma PrunedKeepsUnique(threads: seq<ThreadRecord>, alarms: seq<Alarm>)
    requires UniqueTypes(threads)
    ensures UniqueTypes(Pruned(threads, alarms))
  {
    FilterKeepsUnique(threads, HasLiveAlarm(alarms));
  }

  lemma {:induction false} FilterKeepsUnique(s: seq<ThreadRecord>, p: ThreadRecord -> bool)
    requires UniqueTypes(s)
    ensures UniqueTypes(Filter(s, p))
    decreases |s|
  {
    if s != [] {
      FilterKeepsUnique(s[1..], p);
      var r := Filter(s[1..], p);
      forall j | 0 <= j < |r| ensures s[0].msgType != r[j].msgType {
        assert r[j] in s[1..];
      }
    }
  }

  // ---------------------------------------------------------------------
  // Starting workers (check_thread_list_and_create_thread)
  // ---------------------------------------------------------------------

  function Pending(): (r: ThreadRecord -> bool)
  {
    (r: ThreadRecord) => !r.created
  }

  /** The message types for which a worker is started, in list order: those
      of the records not yet created. */
  function Launched(s: seq<ThreadRecord>): (r: seq<int>)
  {
    var p := Filter(s, Pending());
    seq(|p|, i requires 0 <= i < |p| => p[i].msgType)
  }

  /** Every record flagged as created. */
  function MarkCreated(s: seq<ThreadRecord>): (r: seq<ThreadRecord>)
  {
    seq(|s|, i requires 0 <= i < |s| => s[i].(created := true))
  }

  lemma LaunchedSnoc(s: seq<ThreadRecord>, r: ThreadRecord)
    ensures Launched(s + [r]) == Launched(s) + (if r.created then [] else [r.msgType])
  {
    FilterConcat(s, [r], Pending());
  }

  /** A worker is started for a type exactly when a record of that type was
      not yet created, once per such record; afterwards every record is
      created, the types and length are unchanged, and a second pass starts
      nothing. */
  lemma LaunchProperties(s: seq<ThreadRecord>)
    ensures forall t :: t in Launched(s) <==> exists r :: r in s && r.msgType == t && !r.created
    ensures |Launched(s)| == |Filter(s, Pending())|
    ensures |MarkCreated(s)| == |s|
    ensures forall i :: 0 <= i < |s| ==> MarkCreated(s)[i].msgType == s[i].msgType && MarkCreated(s)[i].created
    ensures Launched(MarkCreated(s)) == []
  {
    var p := Filter(s, Pending());
    forall t | t in Launched(s) ensures exists r :: r in s && r.msgType == t && !r.created {
      var i :| 0 <= i < |p| && Launched(s)[i] == t;
      assert p[i] in p;
    }
    forall t | exists r :: r in s && r.msgType == t && !r.created ensures t in Launched(s) {
      var r :| r in s && r.msgType == t && !r.created;
      assert r in p;
      var i :| 0 <= i < |p| && p[i] == r;
      assert Launched(s)[i] == t;
    }
    FilterNone(MarkCreated(s), Pending());
  }
}

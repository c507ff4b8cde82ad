// The removal list (`removal_list` in alarm_cond.c): message numbers whose
// cancellation has been requested and not yet applied to the alarm list.
module RemovalList {
  import opened Seqs
  import opened AlarmList

  function Equals(n: int): (r: int -> bool)
  {
    (x: int) => x == n
  }

  /** remove_from_removal_list: unlink the first entry equal to `n`. */
  function RemoveRequest(q: seq<int>, n: int): (r: seq<int>)
  {
    RemoveFirst(q, Equals(n))
  }

  /** Removing a queued number drops exactly one copy of it and leaves every
      other entry in its order; on a queue without duplicates the number is
      then gone; removing an absent number changes nothing. */
  lemma RemoveRequestProperties(q: seq<int>, n: int)
    ensures n in q ==> |Filter(RemoveRequest(q, n), Equals(n))| == |Filter(q, Equals(n))| - 1
    ensures Filter(RemoveRequest(q, n), Not(Equals(n))) == Filter(q, Not(Equals(n)))
    ensures n in q && NoDuplicates(q) ==> n !in RemoveRequest(q, n) && |RemoveRequest(q, n)| == |q| - 1
    ensures n !in q ==> RemoveRequest(q, n) == q
  {
    FilterRemoveFirst(q, Equals(n), Not(Equals(n)));
    if n in q {
      assert Equals(n)(n);
      RemoveFirstCount(q, Equals(n));
      if NoDuplicates(q) {
        var i :| 0 <= i < |q| && q[i] == n;
        assert forall k :: 0 <= k < i ==> !Equals(n)(q[k]);
        RemoveFirstAt(q, Equals(n), i);
        assert n !in q[..i];
        assert n !in q[i + 1..];
      }
    }
  }

  predicate NoDuplicates(q: seq<int>)
  {
    forall i, j :: 0 <= i < j < |q| ==> q[i] != q[j]
  }

  /** Appending a number that is not yet queued keeps the queue free of
      duplicates (the guard of a Cancel command makes sure of that). */
  lemma AppendKeepsNoDuplicates(q: seq<int>, n: int)
    requires NoDuplicates(q) && n !in q
    ensures NoDuplicates(q + [n])
  {
  }

  // ---------------------------------------------------------------------
  // Applying the queue (remove_alarms_in_removal_list)
  // ---------------------------------------------------------------------

  /** The alarm list after removing, in queue order, every alarm whose number
      is queued. */
  function Cancelled(alarms: seq<Alarm>, q: seq<int>): (r: seq<Alarm>)
    decreases |q|
  {
    if q == [] then alarms
    else RemoveNumber(Cancelled(alarms, q[..|q| - 1]), q[|q| - 1])
  }

  function Queued(q: seq<int>): (r: set<int>)
  {
    set n | n in q
  }

  lemma {:induction false} CancelledIsFilter(alarms: seq<Alarm>, q: seq<int>)
    ensures Cancelled(alarms, q) == Filter(alarms, NumberNotIn(Queued(q)))
    decreases |q|
  {
    if q == [] {
      assert Queued(q) == {};
      FilterAll(alarms, NumberNotIn(Queued(q)));
    } else {
      var front, n := q[..|q| - 1], q[|q| - 1];
      CancelledIsFilter(alarms, front);
      assert q == front + [n];
      assert Queued(q) == Queued(front) + {n};
      FilterCompose(alarms, NumberNotIn(Queued(front)), NumberNotIn({n}), NumberNotIn(Queued(q)));
    }
  }

  /** After the queue is applied no alarm carries a queued number, and an
      alarm survives exactly when its number was not queued; survivors keep
      their order and the list stays ascending. */
  lemma CancelledProperties(alarms: seq<Alarm>, q: seq<int>)
    ensures forall x :: x in Cancelled(alarms, q) ==> x.number !in q
    ensures forall x :: x in Cancelled(alarms, q) <==> x in alarms && x.number !in q
    ensures StrictlySorted(alarms) ==> StrictlySorted(Cancelled(alarms, q))
  {
    CancelledIsFilter(alarms, q);
    if StrictlySorted(alarms) {
      FilterKeepsSorted(alarms, NumberNotIn(Queued(q)));
    }
  }
}

// The alarm list (`alarm_list` in alarm_cond.c) as values: the alarm record,
// the functions that say what each list operation produces, and the lemmas
// that state what those operations promise.
module AlarmList {
  import opened Seqs

  /** One alarm request. `time` is the absolute expiry instant (submission
      time plus `seconds`); `message` is carried as opaque text. */
  datatype Alarm = Alarm(number: int, msgType: int, seconds: int, time: int, message: string, done: bool)

  /** The list is kept in strictly ascending message-number order. */
  predicate StrictlySorted(s: seq<Alarm>)
  {
    forall i, j :: 0 <= i < j < |s| ==> s[i].number < s[j].number
  }

  predicate HasNumber(s: seq<Alarm>, n: int)
  {
    exists i :: 0 <= i < |s| && s[i].number == n
  }

  function NumberIs(n: int): (r: Alarm -> bool)
  {
    (x: Alarm) => x.number == n
  }

  function NumberNotIn(d: set<int>): (r: Alarm -> bool)
  {
    (x: Alarm) => x.number !in d
  }

  // ---------------------------------------------------------------------
  // Insertion (add_to_alarm_list)
  // ---------------------------------------------------------------------

  /** Walk to the first entry whose number is not smaller than the new
      alarm's: put the new alarm before it, or in its place when the numbers
      are equal; at the end of the list, append. */
  function Insert(s: seq<Alarm>, a: Alarm): (r: seq<Alarm>)
    decreases |s|
  {
    if s == [] then [a]
    else if s[0].number > a.number then [a] + s
    else if s[0].number == a.number then [a] + s[1..]
    else [s[0]] + Insert(s[1..], a)
  }

  /** Where the walk stops, Insert splices the new alarm in. */
  lemma {:induction false} InsertAt(s: seq<Alarm>, a: Alarm, i: nat)
    requires i <= |s|
    requires forall k :: 0 <= k < i ==> s[k].number < a.number
    requires i == |s| || s[i].number >= a.number
    ensures Insert(s, a) == s[..i] + [a] + (if i < |s| && s[i].number == a.number then s[i + 1..] else s[i..])
    decreases i
  {
    if i > 0 {
      InsertAt(s[1..], a, i - 1);
      assert s[1..][..i - 1] == s[1..i];
      assert s[..i] == [s[0]] + s[1..i];
      assert s[1..][i - 1..] == s[i..];
      if i < |s| {
        assert s[1..][i..] == s[i + 1..];
      }
    }
  }

  /** Every entry of Insert(s, a) is the new alarm or an entry of `s`. */
  lemma {:induction false} InsertElements(s: seq<Alarm>, a: Alarm)
    ensures a in Insert(s, a)
    ensures forall x :: x in Insert(s, a) ==> x == a || x in s
    decreases |s|
  {
    if s != [] && s[0].number < a.number {
      InsertElements(s[1..], a);
    }
  }

  /** Insertion keeps the list strictly ascending. */
  lemma {:induction false} InsertKeepsSorted(s: seq<Alarm>, a: Alarm)
    requires StrictlySorted(s)
    ensures StrictlySorted(Insert(s, a))
    decreases |s|
  {
    if s != [] && s[0].number < a.number {
      InsertKeepsSorted(s[1..], a);
      InsertElements(s[1..], a);
      var r := Insert(s[1..], a);
      forall j | 0 <= j < |r| ensures s[0].number < r[j].number {
        assert r[j] in r;
      }
      assert Insert(s, a) == [s[0]] + r;
    }
  }

  /** After insertion into an ascending list exactly one entry carries the
      new alarm's number: the new alarm itself. */
  lemma {:induction false} InsertUnique(s: seq<Alarm>, a: Alarm)
    requires StrictlySorted(s)
    ensures Filter(Insert(s, a), NumberIs(a.number)) == [a]
    decreases |s|
  {
    var p := NumberIs(a.number);
    if s == [] {
    } else if s[0].number > a.number {
      assert forall x :: x in s ==> !p(x);
      FilterNone(s, p);
      FilterConcat([a], s, p);
    } else if s[0].number == a.number {
      assert forall x :: x in s[1..] ==> !p(x);
      FilterNone(s[1..], p);
      FilterConcat([a], s[1..], p);
    } else {
      InsertUnique(s[1..], a);
      FilterConcat([s[0]], Insert(s[1..], a), p);
    }
  }

  /** Replacing keeps the length; inserting a new number adds one entry. */
  lemma {:induction false} InsertLength(s: seq<Alarm>, a: Alarm)
    requires StrictlySorted(s)
    ensures |Insert(s, a)| == if HasNumber(s, a.number) then |s| else |s| + 1
    decreases |s|
  {
    if s != [] && s[0].number < a.number {
      InsertLength(s[1..], a);
      if HasNumber(s, a.number) {
        var i :| 0 <= i < |s| && s[i].number == a.number;
        assert s[1..][i - 1].number == a.number;
      }
      if HasNumber(s[1..], a.number) {
        var i :| 0 <= i < |s[1..]| && s[1..][i].number == a.number;
        assert s[i + 1].number == a.number;
      }
    } else if s != [] && s[0].number > a.number {
      assert !HasNumber(s, a.number);
    }
  }

  /** Entries with other numbers are neither added, lost nor reordered. */
  lemma {:induction false} InsertKeepsOthers(s: seq<Alarm>, a: Alarm)
    ensures RemoveNumber(Insert(s, a), a.number) == RemoveNumber(s, a.number)
    decreases |s|
  {
    var p := NumberNotIn({a.number});
    if s == [] {
    } else if s[0].number > a.number {
      FilterConcat([a], s, p);
    } else if s[0].number == a.number {
      FilterConcat([a], s[1..], p);
      assert s == [s[0]] + s[1..];
      FilterConcat([s[0]], s[1..], p);
    } else {
      InsertKeepsOthers(s[1..], a);
      FilterConcat([s[0]], Insert(s[1..], a), p);
      assert s == [s[0]] + s[1..];
      FilterConcat([s[0]], s[1..], p);
    }
  }

  /** A second submission with the same number replaces the first: the list
      looks as if only the second had been submitted. Inserting the same
      alarm twice is therefore the same as inserting it once. */
  lemma {:induction false} InsertReplaces(s: seq<Alarm>, a: Alarm, b: Alarm)
    requires a.number == b.number
    ensures Insert(Insert(s, a), b) == Insert(s, b)
    decreases |s|
  {
    if s != [] && s[0].number < a.number {
      InsertReplaces(s[1..], a, b);
      assert (Insert(s, a))[1..] == Insert(s[1..], a);
    }
  }

  // ---------------------------------------------------------------------
  // Removal by number (remove_from_alarm_list)
  // ---------------------------------------------------------------------

  /** The list without any entry numbered `n`, others in their order. */
  function RemoveNumber(s: seq<Alarm>, n: int): (r: seq<Alarm>)
  {
    Filter(s, NumberNotIn({n}))
  }

  /** One round of the removal loop: unlinking an entry numbered `n` makes
      the list shorter without changing what the removal produces. */
  lemma RemoveOneNumbered(s: seq<Alarm>, n: int, i: nat)
    requires i < |s| && s[i].number == n
    ensures |s[..i] + s[i + 1..]| < |s|
    ensures RemoveNumber(s[..i] + s[i + 1..], n) == RemoveNumber(s, n)
  {
    FilterSkip(s, NumberNotIn({n}), i);
  }

  /** When no entry is numbered `n`, removal changes nothing. */
  lemma RemoveAbsentNumber(s: seq<Alarm>, n: int)
    requires forall k :: 0 <= k < |s| ==> s[k].number != n
    ensures RemoveNumber(s, n) == s
  {
    FilterAll(s, NumberNotIn({n}));
  }

  /** A filter of an ascending list is ascending. */
  lemma {:induction false} FilterKeepsSorted(s: seq<Alarm>, p: Alarm -> bool)
    requires StrictlySorted(s)
    ensures StrictlySorted(Filter(s, p))
    decreases |s|
  {
    if s != [] {
      FilterKeepsSorted(s[1..], p);
      var r := Filter(s[1..], p);
      forall j | 0 <= j < |r| ensures s[0].number < r[j].number {
        assert r[j] in s[1..];
      }
    }
  }

  /** After removal no entry has number `n`, every other entry is still there
      in its order, the list stays ascending, and removing again (or removing
      an absent number) changes nothing. */
  lemma RemoveNumberProperties(s: seq<Alarm>, n: int)
    ensures forall x :: x in RemoveNumber(s, n) <==> x in s && x.number != n
    ensures StrictlySorted(s) ==> StrictlySorted(RemoveNumber(s, n))
    ensures RemoveNumber(RemoveNumber(s, n), n) == RemoveNumber(s, n)
    ensures !HasNumber(s, n) ==> RemoveNumber(s, n) == s
  {
    if StrictlySorted(s) {
      FilterKeepsSorted(s, NumberNotIn({n}));
    }
    FilterAll(RemoveNumber(s, n), NumberNotIn({n}));
    if !HasNumber(s, n) {
      forall x | x in s ensures x.number != n {
        var i :| 0 <= i < |s| && s[i] == x;
      }
      FilterAll(s, NumberNotIn({n}));
    }
  }

  // ---------------------------------------------------------------------
  // Existence checks (alarm_exists)
  // ---------------------------------------------------------------------

  function LiveOfType(t: int): (r: Alarm -> bool)
  {
    (x: Alarm) => x.msgType == t && !x.done
  }

  function LiveNumbered(n: int): (r: Alarm -> bool)
  {
    (x: Alarm) => x.number == n && !x.done
  }

  /** What alarm_exists returns: mode 0 counts live alarms of message type
      `key`, mode 1 live alarms with message number `key`, any other mode 0. */
  function CountLive(s: seq<Alarm>, key: int, mode: int): (r: nat)
  {
    if mode == 0 then |Filter(s, LiveOfType(key))|
    else if mode == 1 then |Filter(s, LiveNumbered(key))|
    else 0
  }

  lemma {:induction false} AtMostOneNumbered(s: seq<Alarm>, n: int)
    requires StrictlySorted(s)
    ensures |Filter(s, LiveNumbered(n))| <= 1
    decreases |s|
  {
    if s != [] {
      if s[0].number == n {
        assert forall x :: x in s[1..] ==> x.number > n;
        FilterNone(s[1..], LiveNumbered(n));
      } else {
        AtMostOneNumbered(s[1..], n);
      }
    }
  }

  /** The count is non-zero exactly when a matching live alarm exists, and
      on an ascending list a number matches at most one alarm. */
  lemma CountLiveMeaning(s: seq<Alarm>, key: int)
    ensures CountLive(s, key, 0) > 0 <==> exists x :: x in s && x.msgType == key && !x.done
    ensures CountLive(s, key, 1) > 0 <==> exists x :: x in s && x.number == key && !x.done
    ensures StrictlySorted(s) ==> CountLive(s, key, 1) <= 1
  {
    var r0 := Filter(s, LiveOfType(key));
    if r0 != [] {
      assert r0[0] in r0;
    }
    var r1 := Filter(s, LiveNumbered(key));
    if r1 != [] {
      assert r1[0] in r1;
    }
    if StrictlySorted(s) {
      AtMostOneNumbered(s, key);
    }
  }

  // ---------------------------------------------------------------------
  // Sweeping done alarms (remove_alarms_that_are_done)
  // ---------------------------------------------------------------------

  /** The number of the first done alarm, if any. */
  function FirstDone(s: seq<Alarm>): (r: Option<int>)
    ensures r.None? <==> forall x :: x in s ==> !x.done
    ensures r.Some? ==> exists x :: x in s && x.done && x.number == r.value
    decreases |s|
  {
    if s == [] then None
    else if s[0].done then Some(s[0].number)
    else FirstDone(s[1..])
  }

  lemma {:induction false} FirstDoneAt(s: seq<Alarm>, i: nat)
    requires i < |s| && s[i].done
    requires forall k :: 0 <= k < i ==> !s[k].done
    ensures FirstDone(s) == Some(s[i].number)
    decreases i
  {
    if i > 0 {
      FirstDoneAt(s[1..], i - 1);
    }
  }

  /** Repeatedly find the first done alarm and remove every alarm with its
      number, until no done alarm is left. */
  function Sweep(s: seq<Alarm>): (r: seq<Alarm>)
    decreases |s|
  {
    match FirstDone(s)
    case None => s
    case Some(n) =>
      assert exists x :: x in s && !NumberNotIn({n})(x);
      Sweep(RemoveNumber(s, n))
  }

  function DoneNumbers(s: seq<Alarm>): (r: set<int>)
  {
    set x | x in s && x.done :: x.number
  }

  lemma {:induction false} SweepIsFilter(s: seq<Alarm>)
    ensures Sweep(s) == Filter(s, NumberNotIn(DoneNumbers(s)))
    decreases |s|
  {
    match FirstDone(s)
    case None =>
      assert DoneNumbers(s) == {};
      FilterAll(s, NumberNotIn(DoneNumbers(s)));
    case Some(n) =>
      var d := DoneNumbers(s);
      var r := RemoveNumber(s, n);
      assert exists x :: x in s && !NumberNotIn({n})(x);
      assert DoneNumbers(r) == d - {n};
      SweepIsFilter(r);
      FilterCompose(s, NumberNotIn({n}), NumberNotIn(d - {n}), NumberNotIn(d));
  }

  /** After the sweep no alarm is done; an alarm survives exactly when no
      done alarm shares its number, so (numbers being unique on an ascending
      list) every alarm that was not done survives, in order. */
  lemma SweepProperties(s: seq<Alarm>)
    ensures forall x :: x in Sweep(s) ==> !x.done
    ensures forall x :: x in Sweep(s) <==> x in s && x.number !in DoneNumbers(s)
    ensures StrictlySorted(s) ==> StrictlySorted(Sweep(s))
    ensures StrictlySorted(s) ==> forall x :: x in s && !x.done ==> x in Sweep(s)
  {
    SweepIsFilter(s);
    if StrictlySorted(s) {
      FilterKeepsSorted(s, NumberNotIn(DoneNumbers(s)));
    }
  }

  /** The sweep as the source writes it: the search result starts as -1 and
      a negative result ends the loop, so a done alarm whose number is
      negative is taken for "nothing found". */
  function SweepAsWritten(s: seq<Alarm>): (r: seq<Alarm>)
    decreases |s|
  {
    match FirstDone(s)
    case None => s
    case Some(n) =>
      if n < 0 then s
      else
        assert exists x :: x in s && !NumberNotIn({n})(x);
        SweepAsWritten(RemoveNumber(s, n))
  }

  /** An ascending list that the source's sweep leaves with two done alarms
      in it, where the intended sweep leaves nothing. */
  lemma SentinelStopsSweep()
    ensures var s := [Alarm(-1, 1, 5, 100, "a", true), Alarm(2, 1, 5, 100, "b", true)];
            StrictlySorted(s) && SweepAsWritten(s) == s && s[1].done && Sweep(s) == []
  {
  }

  // ---------------------------------------------------------------------
  // The display worker's marking step (periodic_display_threads)
  // ---------------------------------------------------------------------

  /** A live alarm of type `t` whose expiry instant is already past. */
  function Expired(t: int, now: int): (r: Alarm -> bool)
  {
    (x: Alarm) => x.msgType == t && !x.done && x.time - now < 0
  }

  /** A live alarm of type `t` that is displayed with its remaining time. */
  function Displayed(t: int, now: int): (r: Alarm -> bool)
  {
    (x: Alarm) => x.msgType == t && !x.done && x.time - now >= 0
  }

  function Mark(t: int, now: int, x: Alarm): (r: Alarm)
  {
    if Expired(t, now)(x) then x.(done := true) else x
  }

  /** One pass of the display worker for type `t` at instant `now`. */
  function MarkExpired(s: seq<Alarm>, t: int, now: int): (r: seq<Alarm>)
  {
    seq(|s|, i requires 0 <= i < |s| => Mark(t, now, s[i]))
  }

  /** The alarms the pass displays, in list order. */
  function Shown(s: seq<Alarm>, t: int, now: int): (r: seq<Alarm>)
  {
    Filter(s, Displayed(t, now))
  }

  lemma {:induction false} LiveAfterMark(s: seq<Alarm>, t: int, now: int)
    ensures Filter(MarkExpired(s, t, now), LiveOfType(t)) == Shown(s, t, now)
    decreases |s|
  {
    if s != [] {
      LiveAfterMark(s[1..], t, now);
      assert MarkExpired(s, t, now) == [Mark(t, now, s[0])] + MarkExpired(s[1..], t, now);
      FilterConcat([Mark(t, now, s[0])], MarkExpired(s[1..], t, now), LiveOfType(t));
    }
  }

  /** The pass sets the done flag of exactly the expired alarms of type `t`
      and changes nothing else: numbers, order and every other alarm stay as
      they were, so the list stays ascending. Afterwards no live alarm of type `t` is past its
      instant, and the live alarms of type `t` are exactly those displayed. */
  lemma MarkExpiredProperties(s: seq<Alarm>, t: int, now: int)
    ensures |MarkExpired(s, t, now)| == |s|
    ensures forall i :: 0 <= i < |s| ==> MarkExpired(s, t, now)[i] == s[i].(done := MarkExpired(s, t, now)[i].done)
    ensures forall i :: 0 <= i < |s| && s[i].msgType != t ==> MarkExpired(s, t, now)[i] == s[i]
    ensures StrictlySorted(s) ==> StrictlySorted(MarkExpired(s, t, now))
    ensures forall x :: x in MarkExpired(s, t, now) && x.msgType == t && !x.done ==> x.time >= now
    ensures forall i :: 0 <= i < |s| ==> MarkExpired(s, t, now)[i].done == (s[i].done || Expired(t, now)(s[i]))
    ensures Filter(MarkExpired(s, t, now), LiveOfType(t)) == Shown(s, t, now)
    ensures CountLive(MarkExpired(s, t, now), t, 0) == |Shown(s, t, now)|
    ensures forall x :: x in Shown(s, t, now) ==> x.msgType == t && !x.done && x.time >= now
  {
    LiveAfterMark(s, t, now);
  }
}

// Generic sequence helpers shared by the three lists of the alarm program:
// order-preserving filtering (what every "remove all matching" sweep amounts
// to) and removal of the first matching element (what the single-unlink
// operations of the thread and removal lists do).
module Seqs {

  datatype Option<T> = None | Some(value: T)

  /** The elements of `s` that satisfy `p`, in their original order. */
  function Filter<T(!new)>(s: seq<T>, p: T -> bool): (r: seq<T>)
    ensures |r| <= |s|
    ensures forall x :: x in r <==> x in s && p(x)
    ensures (exists x :: x in s && !p(x)) ==> |r| < |s|
    decreases |s|
  {
    if s == [] then []
    else (if p(s[0]) then [s[0]] else []) + Filter(s[1..], p)
  }

  function Not<T>(p: T -> bool): (r: T -> bool)
  {
    x => !p(x)
  }

  lemma {:induction false} FilterConcat<T(!new)>(a: seq<T>, b: seq<T>, p: T -> bool)
    ensures Filter(a + b, p) == Filter(a, p) + Filter(b, p)
    decreases |a|
  {
    if a == [] {
      assert a + b == b;
    } else {
      assert (a + b)[1..] == a[1..] + b;
      FilterConcat(a[1..], b, p);
    }
  }

  /** Extending a prefix by one element extends its filter by that element
      when it passes. */
  lemma FilterPrefix<T(!new)>(s: seq<T>, i: nat, p: T -> bool)
    requires i < |s|
    ensures Filter(s[..i + 1], p) == Filter(s[..i], p) + (if p(s[i]) then [s[i]] else [])
  {
    assert s[..i + 1] == s[..i] + [s[i]];
    FilterConcat(s[..i], [s[i]], p);
  }

  /** Filtering a sequence all of whose elements pass changes nothing. */
  lemma {:induction false} FilterAll<T(!new)>(s: seq<T>, p: T -> bool)
    requires forall x :: x in s ==> p(x)
    ensures Filter(s, p) == s
    decreases |s|
  {
    if s != [] {
      FilterAll(s[1..], p);
    }
  }

  /** Filtering a sequence none of whose elements pass leaves nothing. */
  lemma {:induction false} FilterNone<T(!new)>(s: seq<T>, p: T -> bool)
    requires forall x :: x in s ==> !p(x)
    ensures Filter(s, p) == []
    decreases |s|
  {
    if s != [] {
      FilterNone(s[1..], p);
    }
  }

  /** Two filters in a row are one filter by the conjunction. */
  lemma {:induction false} FilterCompose<T(!new)>(s: seq<T>, p: T -> bool, q: T -> bool, pq: T -> bool)
    requires forall x :: pq(x) == (p(x) && q(x))
    ensures Filter(Filter(s, p), q) == Filter(s, pq)
    decreases |s|
  {
    if s != [] {
      FilterCompose(s[1..], p, q, pq);
      FilterConcat(if p(s[0]) then [s[0]] else [], Filter(s[1..], p), q);
    }
  }

  /** Dropping one element that `p` rejects does not change the filter. */
  lemma {:induction false} FilterSkip<T(!new)>(s: seq<T>, p: T -> bool, i: nat)
    requires i < |s| && !p(s[i])
    ensures Filter(s[..i] + s[i + 1..], p) == Filter(s, p)
  {
    var a, b := s[..i], s[i + 1..];
    assert s == a + ([s[i]] + b);
    FilterConcat(a, [s[i]] + b, p);
    assert ([s[i]] + b)[1..] == b;
    assert s[..i] + s[i + 1..] == a + b;
    FilterConcat(a, b, p);
  }

  /** `s` without its first element satisfying `p`; `s` itself when none does. */
  function RemoveFirst<T(!new)>(s: seq<T>, p: T -> bool): (r: seq<T>)
    ensures (exists x :: x in s && p(x)) ==> |r| == |s| - 1
    ensures (forall x :: x in s ==> !p(x)) ==> r == s
    decreases |s|
  {
    if s == [] then []
    else if p(s[0]) then s[1..]
    else [s[0]] + RemoveFirst(s[1..], p)
  }

  /** Removing the first element at index `i` is what RemoveFirst does when
      `i` is the first index satisfying `p`. */
  lemma {:induction false} RemoveFirstAt<T(!new)>(s: seq<T>, p: T -> bool, i: nat)
    requires i < |s| && p(s[i])
    requires forall k :: 0 <= k < i ==> !p(s[k])
    ensures RemoveFirst(s, p) == s[..i] + s[i + 1..]
    decreases i
  {
    if i > 0 {
      RemoveFirstAt(s[1..], p, i - 1);
      assert s[1..][..i - 1] == s[1..i];
      assert s[1..][i..] == s[i + 1..];
      assert s[..i] == [s[0]] + s[1..i];
    }
  }

  /** Removing the first `p`-element leaves the elements that `p` excludes,
      and more generally every filter disjoint from `p`, as they were. */
  lemma {:induction false} FilterRemoveFirst<T(!new)>(s: seq<T>, p: T -> bool, q: T -> bool)
    requires forall x :: p(x) ==> !q(x)
    ensures Filter(RemoveFirst(s, p), q) == Filter(s, q)
    decreases |s|
  {
    if s != [] && !p(s[0]) {
      FilterRemoveFirst(s[1..], p, q);
      FilterConcat([s[0]], RemoveFirst(s[1..], p), q);
    }
  }

  /** Removing the first `p`-element removes exactly one `p`-element. */
  lemma {:induction false} RemoveFirstCount<T(!new)>(s: seq<T>, p: T -> bool)
    requires exists x :: x in s && p(x)
    ensures |Filter(RemoveFirst(s, p), p)| == |Filter(s, p)| - 1
    decreases |s|
  {
    if !p(s[0]) {
      var x :| x in s && p(x);
      assert x in s[1..];
      RemoveFirstCount(s[1..], p);
      FilterConcat([s[0]], RemoveFirst(s[1..], p), p);
    }
  }
}

/** Putting the snapshot in tick order and dropping entries whose tick is 0
    (every copied slot was written, so these are writes that read a zero tick):
    `sort_unstable_by_key(|e| e.tsc)` followed by `retain(|e| e.tsc > 0)`. */
module Ordering {
  import opened Events

  /** Putting an entry no later than the head in front keeps the order. */
  lemma Prepend(x: RawEvent, s: seq<RawEvent>)
    requires SortedByTsc(s)
    requires s != [] ==> x.tsc <= s[0].tsc
    ensures SortedByTsc([x] + s)
  {
    var r := [x] + s;
    forall i, j | 0 <= i < j < |r| ensures r[i].tsc <= r[j].tsc {
      if i == 0 {
        assert r[j] == s[j - 1];
      } else {
        assert r[i] == s[i - 1] && r[j] == s[j - 1];
      }
    }
  }

  /** Inserts x in front of the first entry whose tick is not smaller. */
  function Insert(x: RawEvent, s: seq<RawEvent>): (r: seq<RawEvent>)
    requires SortedByTsc(s)
    ensures SortedByTsc(r)
    ensures multiset(r) == multiset(s) + multiset{x}
    ensures r[0] == x || (s != [] && r[0] == s[0])
  {
    if s == [] || x.tsc <= s[0].tsc then
      Prepend(x, s);
      [x] + s
    else
      var rest := Insert(x, s[1..]);
      assert s == [s[0]] + s[1..];
      Prepend(s[0], rest);
      [s[0]] + rest
  }

  /** Sorts by tick value. The library sort is unstable; this is one of the
      orders it may produce (see SortedPermutationUnique for why the order of ties
      does not matter once ticks are distinct). */
  function SortByTsc(s: seq<RawEvent>): (r: seq<RawEvent>)
    ensures SortedByTsc(r)
    ensures multiset(r) == multiset(s)
    ensures |r| == |s|
  {
    if s == [] then []
    else
      assert s == [s[0]] + s[1..];
      Insert(s[0], SortByTsc(s[1..]))
  }

  /** Keeps the entries whose tick is non-zero, in their order. */
  function RetainNonzero(s: seq<RawEvent>): (r: seq<RawEvent>)
    ensures forall i :: 0 <= i < |r| ==> r[i].tsc > 0
    ensures forall e :: multiset(r)[e] == if e.tsc > 0 then multiset(s)[e] else 0
    ensures |r| <= |s|
  {
    if s == [] then []
    else
      assert s == [s[0]] + s[1..];
      (if s[0].tsc > 0 then [s[0]] else []) + RetainNonzero(s[1..])
  }

  /** Number of zero-tick entries at the front. */
  function LeadingZeros(s: seq<RawEvent>): (n: nat)
    ensures n <= |s|
    ensures forall i :: 0 <= i < n ==> s[i].tsc == 0
    ensures n < |s| ==> s[n].tsc > 0
  {
    if s == [] || s[0].tsc > 0 then 0 else 1 + LeadingZeros(s[1..])
  }

  /** On a tick-sorted sequence the zero ticks come first, so retaining the
      non-zero ones removes exactly that prefix. */
  lemma {:induction false} RetainOfSortedDropsPrefix(s: seq<RawEvent>)
    requires SortedByTsc(s)
    ensures RetainNonzero(s) == s[LeadingZeros(s)..]
  {
    if s == [] {
    } else if s[0].tsc > 0 {
      assert forall i :: 0 <= i < |s| ==> s[i].tsc > 0 by {
        forall i | 0 < i < |s| ensures s[0].tsc <= s[i].tsc { }
      }
      AllPositiveRetained(s);
      assert LeadingZeros(s) == 0;
    } else {
      var tail := s[1..];
      assert SortedByTsc(tail);
      RetainOfSortedDropsPrefix(tail);
      assert LeadingZeros(s) == 1 + LeadingZeros(tail);
      assert RetainNonzero(s) == RetainNonzero(tail);
      assert tail[LeadingZeros(tail)..] == s[LeadingZeros(s)..];
    }
  }

  /** Nothing is dropped when every tick is non-zero. */
  lemma {:induction false} AllPositiveRetained(s: seq<RawEvent>)
    requires forall i :: 0 <= i < |s| ==> s[i].tsc > 0
    ensures RetainNonzero(s) == s
  {
    if s != [] {
      AllPositiveRetained(s[1..]);
      assert s == [s[0]] + s[1..];
    }
  }

  /** Sort then retain gives a tick-sorted sequence of exactly the snapshot's
      non-zero-tick entries. */
  lemma SortThenRetain(s: seq<RawEvent>)
    ensures SortedByTsc(RetainNonzero(SortByTsc(s)))
    ensures forall i :: 0 <= i < |RetainNonzero(SortByTsc(s))| ==> RetainNonzero(SortByTsc(s))[i].tsc > 0
    ensures forall e :: multiset(RetainNonzero(SortByTsc(s)))[e] == if e.tsc > 0 then multiset(s)[e] else 0
  {
    var t := SortByTsc(s);
    RetainOfSortedDropsPrefix(t);
  }

  /** The head of a sorted permutation of a strictly increasing sequence
      is that sequence's head. */
  lemma HeadsAgree(s: seq<RawEvent>, t: seq<RawEvent>)
    requires StrictlyIncreasingTsc(s) && SortedByTsc(t)
    requires s != [] && multiset(s) == multiset(t)
    ensures t != [] && s[0] == t[0]
  {
    assert s[0] in multiset(t) && t[0] in multiset(s);
    var i :| 0 <= i < |t| && t[i] == s[0];
    var j :| 0 <= j < |s| && s[j] == t[0];
    assert t[0].tsc <= s[0].tsc;
  }

  lemma DropHead(s: seq<RawEvent>, t: seq<RawEvent>)
    requires s != [] && t != [] && s[0] == t[0] && multiset(s) == multiset(t)
    ensures multiset(s[1..]) == multiset(t[1..])
  {
    assert s == [s[0]] + s[1..] && t == [t[0]] + t[1..];
    assert multiset(s) == multiset{s[0]} + multiset(s[1..]);
    assert multiset(t) == multiset{s[0]} + multiset(t[1..]);
    forall e ensures multiset(s[1..])[e] == multiset(t[1..])[e] {
      assert multiset(s)[e] == multiset(t)[e];
    }
  }

  /** A tick-sorted permutation of a sequence with strictly increasing ticks
      is that sequence: with distinct ticks every correct sort agrees. */
  lemma {:induction false} SortedPermutationUnique(s: seq<RawEvent>, t: seq<RawEvent>)
    requires StrictlyIncreasingTsc(s)
    requires SortedByTsc(t)
    requires multiset(s) == multiset(t)
    ensures s == t
    decreases |s|
  {
    if s == [] {
      assert |t| == |multiset(t)| == 0;
    } else {
      HeadsAgree(s, t);
      DropHead(s, t);
      assert StrictlyIncreasingTsc(s[1..]) && SortedByTsc(t[1..]);
      SortedPermutationUnique(s[1..], t[1..]);
      assert s == [s[0]] + s[1..] && t == [t[0]] + t[1..];
    }
  }
}

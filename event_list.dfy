/**
 * The two Python list operations the calendar agent applies to its event list: a list
 * comprehension with a condition (`[e for e in events if ...]`) and `sorted(.., key=...)`,
 * which is a stable sort. Sort keys are integers here; the store shows that its integer keys
 * order events as Python orders the key tuples.
 */
module EventList {
  import opened CalendarEvent

  /** `[e for e in s if keep(e)]`. */
  function Filter(s: seq<Event>, keep: Event -> bool): (r: seq<Event>)
    ensures |r| <= |s|
    decreases |s|
  {
    if s == [] then []
    else (if keep(s[0]) then [s[0]] else []) + Filter(s[1..], keep)
  }

  /** The comprehension keeps exactly the elements that pass, and keeps them all exactly
      when every element passes. */
  lemma {:induction false} FilterMembers(s: seq<Event>, keep: Event -> bool)
    ensures forall e :: e in Filter(s, keep) <==> e in s && keep(e)
    ensures |Filter(s, keep)| == |s| <==> forall i :: 0 <= i < |s| ==> keep(s[i])
    decreases |s|
  {
    if s != [] {
      FilterMembers(s[1..], keep);
      FilterCons(s, keep);
      assert forall e :: e in s <==> e == s[0] || e in s[1..];
      if |Filter(s, keep)| == |s| {
        assert keep(s[0]);
      }
    }
  }

  /** A comprehension keeps the order of the list: filtering a concatenation concatenates
      the filtered parts. */
  lemma {:induction false} FilterAppend(a: seq<Event>, b: seq<Event>, keep: Event -> bool)
    ensures Filter(a + b, keep) == Filter(a, keep) + Filter(b, keep)
    decreases |a|
  {
    if a == [] {
      assert a + b == b;
    } else {
      assert (a + b)[0] == a[0] && (a + b)[1..] == a[1..] + b;
      FilterAppend(a[1..], b, keep);
      FilterCons(a + b, keep);
      FilterCons(a, keep);
    }
  }

  lemma FilterCons(s: seq<Event>, keep: Event -> bool)
    requires s != []
    ensures Filter(s, keep) == (if keep(s[0]) then [s[0]] else []) + Filter(s[1..], keep)
  {
  }

  /** Filtering a list whose every element passes gives the list back. */
  lemma {:induction false} FilterKeepsAll(s: seq<Event>, keep: Event -> bool)
    requires forall i :: 0 <= i < |s| ==> keep(s[i])
    ensures Filter(s, keep) == s
    decreases |s|
  {
    if s != [] {
      FilterKeepsAll(s[1..], keep);
    }
  }

  /** Filtering a list whose every element fails gives the empty list. */
  lemma {:induction false} FilterDropsAll(s: seq<Event>, keep: Event -> bool)
    requires forall i :: 0 <= i < |s| ==> !keep(s[i])
    ensures Filter(s, keep) == []
    decreases |s|
  {
    if s != [] {
      FilterDropsAll(s[1..], keep);
    }
  }

  predicate SortedBy(s: seq<Event>, key: Event -> int) {
    forall i, j :: 0 <= i < j < |s| ==> key(s[i]) <= key(s[j])
  }

  /** Puts `x` in front of the first element whose key is not smaller than its own. */
  function Insert(x: Event, s: seq<Event>, key: Event -> int): (r: seq<Event>)
    ensures multiset(r) == multiset(s) + multiset{x}
    decreases |s|
  {
    if s == [] || key(x) <= key(s[0]) then [x] + s
    else
      assert s == [s[0]] + s[1..];
      [s[0]] + Insert(x, s[1..], key)
  }

  lemma {:induction false} InsertSorted(x: Event, s: seq<Event>, key: Event -> int)
    requires SortedBy(s, key)
    ensures SortedBy(Insert(x, s, key), key)
    decreases |s|
  {
    if s == [] || key(x) <= key(s[0]) {
      ConsSorted(x, s, key);
    } else {
      var rest := Insert(x, s[1..], key);
      InsertSorted(x, s[1..], key);
      assert rest[0] == x || rest[0] == s[1];
      ConsSorted(s[0], rest, key);
    }
  }

  /** Putting an element whose key is at most the first key in front keeps a list sorted. */
  lemma ConsSorted(a: Event, r: seq<Event>, key: Event -> int)
    requires SortedBy(r, key)
    requires r == [] || key(a) <= key(r[0])
    ensures SortedBy([a] + r, key)
  {
    var t := [a] + r;
    forall i, j | 0 <= i < j < |t|
      ensures key(t[i]) <= key(t[j])
    {
      if i > 0 {
        assert t[i] == r[i - 1] && t[j] == r[j - 1];
      } else {
        assert t[j] == r[j - 1];
      }
    }
  }

  /** `sorted(s, key=key)`: a permutation of `s` in which the keys never decrease. */
  function SortByKey(s: seq<Event>, key: Event -> int): (r: seq<Event>)
    ensures multiset(r) == multiset(s)
    ensures SortedBy(r, key)
    decreases |s|
  {
    if s == [] then []
    else
      assert s == [s[0]] + s[1..];
      InsertSorted(s[0], SortByKey(s[1..], key), key);
      Insert(s[0], SortByKey(s[1..], key), key)
  }

  /** The elements of `s` whose key is `v`, in their order in `s`. */
  function KeyClass(s: seq<Event>, key: Event -> int, v: int): seq<Event>
    decreases |s|
  {
    if s == [] then []
    else (if key(s[0]) == v then [s[0]] else []) + KeyClass(s[1..], key, v)
  }

  lemma KeyClassCons(e: Event, s: seq<Event>, key: Event -> int, v: int)
    ensures KeyClass([e] + s, key, v) == (if key(e) == v then [e] else []) + KeyClass(s, key, v)
  {
    assert ([e] + s)[0] == e && ([e] + s)[1..] == s;
  }

  lemma {:induction false} InsertKeyClass(x: Event, s: seq<Event>, key: Event -> int, v: int)
    ensures KeyClass(Insert(x, s, key), key, v) == (if key(x) == v then [x] else []) + KeyClass(s, key, v)
    decreases |s|
  {
    if s == [] || key(x) <= key(s[0]) {
      KeyClassCons(x, s, key, v);
    } else {
      var rest := Insert(x, s[1..], key);
      var hx := if key(x) == v then [x] else [];
      var h0 := if key(s[0]) == v then [s[0]] else [];
      assert Insert(x, s, key) == [s[0]] + rest;
      InsertKeyClass(x, s[1..], key, v);
      KeyClassCons(s[0], rest, key, v);
      assert KeyClass(s, key, v) == h0 + KeyClass(s[1..], key, v);
      // x goes after s[0], so key(x) > key(s[0]) and at most one of them has key v.
      SwapOneEmpty(hx, h0, KeyClass(s[1..], key, v));
    }
  }

  lemma SwapOneEmpty(a: seq<Event>, b: seq<Event>, c: seq<Event>)
    requires a == [] || b == []
    ensures b + (a + c) == a + (b + c)
  {
  }

  /** Python's sort is stable: the elements that share a key keep their relative order. */
  lemma {:induction false} SortStable(s: seq<Event>, key: Event -> int, v: int)
    ensures KeyClass(SortByKey(s, key), key, v) == KeyClass(s, key, v)
    decreases |s|
  {
    if s != [] {
      SortStable(s[1..], key, v);
      InsertKeyClass(s[0], SortByKey(s[1..], key), key, v);
    }
  }
}

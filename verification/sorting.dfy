/** The two sorts the grouper performs: the stable descending sort of a
    colour's circuits by length, and the ascending sort of leftover lengths
    that the repair step walks through. */
module Sorting {
  import opened Cables

  /** The items of `s` whose length is exactly `len`, in their order in `s`. */
  function WithLength(s: seq<Item>, len: nat): seq<Item> {
    if s == [] then []
    else if s[0].length == len then [s[0]] + WithLength(s[1..], len)
    else WithLength(s[1..], len)
  }

  /** Places `x` after every item strictly longer than it and before all the others. */
  function Insert(x: Item, s: seq<Item>): (r: seq<Item>)
    ensures multiset(r) == multiset(s) + multiset{x}
    decreases |s|
  {
    if s == [] || s[0].length <= x.length then [x] + s
    else
      assert s == [s[0]] + s[1..];
      [s[0]] + Insert(x, s[1..])
  }

  lemma {:induction false} InsertSorted(x: Item, s: seq<Item>)
    requires SortedDesc(s)
    ensures SortedDesc(Insert(x, s))
    decreases |s|
  {
    if s != [] && s[0].length > x.length {
      var t := Insert(x, s[1..]);
      InsertSorted(x, s[1..]);
      forall k | 0 <= k < |t|
        ensures t[k].length <= s[0].length
      {
        assert t[k] in multiset(s[1..]) + multiset{x};
        if t[k] != x {
          var m :| 0 <= m < |s[1..]| && s[1..][m] == t[k];
          assert s[m + 1] == t[k];
        }
      }
      ConsSortedDesc(s[0], t);
    }
  }

  /** A head no shorter than every item of a sorted tail keeps the sequence sorted. */
  lemma ConsSortedDesc(h: Item, t: seq<Item>)
    requires SortedDesc(t) && forall k :: 0 <= k < |t| ==> t[k].length <= h.length
    ensures SortedDesc([h] + t)
  {
    var u := [h] + t;
    forall i, j | 0 <= i < j < |u|
      ensures u[i].length >= u[j].length
    {
      assert u[j] == t[j - 1];
      if i > 0 {
        assert u[i] == t[i - 1];
      }
    }
  }

  /** Descending sort by length that keeps equal lengths in input order, as the
      key-based `sorted(..., reverse=True)` does. */
  function SortDesc(s: seq<Item>): (r: seq<Item>)
    ensures multiset(r) == multiset(s)
    ensures multiset(Ids(r)) == multiset(Ids(s))
    ensures SortedDesc(r)
    decreases |s|
  {
    if s == [] then []
    else
      var t := SortDesc(s[1..]);
      assert s == [s[0]] + s[1..];
      InsertSorted(s[0], t);
      IdsPermutation(Insert(s[0], t), s);
      Insert(s[0], t)
  }

  lemma {:induction false} InsertWithLength(x: Item, s: seq<Item>, len: nat)
    ensures WithLength(Insert(x, s), len)
         == (if x.length == len then [x] + WithLength(s, len) else WithLength(s, len))
    decreases |s|
  {
    if s == [] || s[0].length <= x.length {
      assert ([x] + s)[1..] == s;
      if s != [] && s[0].length == len && x.length != len {
        assert s[0].length == len;
      }
    } else {
      var t := Insert(x, s[1..]);
      assert ([s[0]] + t)[1..] == t;
      InsertWithLength(x, s[1..], len);
    }
  }

  /** Stability: for every length, the items of that length come out in the order they went in. */
  lemma {:induction false} SortDescStable(s: seq<Item>, len: nat)
    ensures WithLength(SortDesc(s), len) == WithLength(s, len)
    decreases |s|
  {
    if s != [] {
      SortDescStable(s[1..], len);
      InsertWithLength(s[0], SortDesc(s[1..]), len);
    }
  }

  predicate SortedAsc(s: seq<nat>) {
    forall i, j :: 0 <= i < j < |s| ==> s[i] <= s[j]
  }

  function InsertAsc(v: nat, s: seq<nat>): (r: seq<nat>)
    ensures multiset(r) == multiset(s) + multiset{v}
    decreases |s|
  {
    if s == [] || v <= s[0] then [v] + s
    else
      assert s == [s[0]] + s[1..];
      [s[0]] + InsertAsc(v, s[1..])
  }

  lemma {:induction false} InsertAscSorted(v: nat, s: seq<nat>)
    requires SortedAsc(s)
    ensures SortedAsc(InsertAsc(v, s))
    decreases |s|
  {
    if s != [] && v > s[0] {
      var t := InsertAsc(v, s[1..]);
      InsertAscSorted(v, s[1..]);
      forall k | 0 <= k < |t|
        ensures s[0] <= t[k]
      {
        assert t[k] in multiset(s[1..]) + multiset{v};
        if t[k] != v {
          var m :| 0 <= m < |s[1..]| && s[1..][m] == t[k];
          assert s[m + 1] == t[k];
        }
      }
      ConsSortedAsc(s[0], t);
    }
  }

  /** A head no larger than every value of a sorted tail keeps the sequence sorted. */
  lemma ConsSortedAsc(h: nat, t: seq<nat>)
    requires SortedAsc(t) && forall k :: 0 <= k < |t| ==> h <= t[k]
    ensures SortedAsc([h] + t)
  {
    var u := [h] + t;
    forall i, j | 0 <= i < j < |u|
      ensures u[i] <= u[j]
    {
      assert u[j] == t[j - 1];
      if i > 0 {
        assert u[i] == t[i - 1];
      }
    }
  }

  /** Ascending sort of bare lengths. */
  function SortAsc(s: seq<nat>): (r: seq<nat>)
    ensures multiset(r) == multiset(s)
    ensures SortedAsc(r)
    decreases |s|
  {
    if s == [] then []
    else
      var t := SortAsc(s[1..]);
      assert s == [s[0]] + s[1..];
      InsertAscSorted(s[0], t);
      InsertAsc(s[0], t)
  }
}

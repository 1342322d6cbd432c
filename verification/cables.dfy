/** The data the grouper consumes and produces: circuits with a length, the
    exact-sum groups ("Grupos") and the leftover records ("Costums"). */
module Cables {
  import opened Sequences

  type CircuitId = int
  type Color = string

  /** The running sum of a scan may never exceed this. */
  const Limit: nat := 1000
  /** The repair step tops a sum up to at most this, and two surpluses merge while they fit under it. */
  const Half: nat := 500

  /** The two exact totals a group may have. */
  predicate IsTarget(s: nat) {
    s == Half || s == Limit
  }

  datatype Option<T> = None | Some(value: T)

  /** One row of a colour's table: the circuit and its length. */
  datatype Item = Item(id: CircuitId, length: nat)

  /** A combination hitting 500 or 1000 exactly; `rollo` is the roll size it fills. */
  datatype Group = Group(color: Color, combination: seq<CircuitId>, total: nat, rollo: nat)

  /** A combination that missed both targets; `excedente` is its leftover total. */
  datatype Surplus = Surplus(color: Color, combination: seq<CircuitId>, excedente: nat)

  predicate ValidGroup(g: Group) {
    IsTarget(g.total) && g.rollo == g.total
  }

  /** What a surplus looks like when a pass emits it, before any merge. */
  predicate FreshSurplus(s: Surplus) {
    0 < s.excedente < Limit && s.excedente != Half
  }

  /** Every circuit of positive length of `items` is listed in `ids`. */
  predicate Covered(items: seq<Item>, ids: seq<CircuitId>) {
    forall i :: 0 <= i < |items| && items[i].length > 0 ==> items[i].id in ids
  }

  predicate AllFit(pool: seq<Item>) {
    forall i :: 0 <= i < |pool| ==> pool[i].length <= Limit
  }

  predicate SortedDesc(s: seq<Item>) {
    forall i, j :: 0 <= i < j < |s| ==> s[i].length >= s[j].length
  }

  /** No running sum `sum + t[0] + ... + t[k-1]` with `0 < k < |t|` is a target:
      only the last item of `t` may complete a group. */
  predicate NoEarlyHit(sum: nat, t: seq<Item>)
    decreases |t|
  {
    |t| <= 1 || (!IsTarget(sum + t[0].length) && NoEarlyHit(sum + t[0].length, t[1..]))
  }

  /** Total length of a sequence of items. */
  function Sum(s: seq<Item>): nat {
    if s == [] then 0 else s[0].length + Sum(s[1..])
  }

  /** Total of a sequence of bare lengths. */
  function SumOf(s: seq<nat>): nat {
    if s == [] then 0 else s[0] + SumOf(s[1..])
  }

  function Ids(s: seq<Item>): seq<CircuitId> {
    seq(|s|, i requires 0 <= i < |s| => s[i].id)
  }

  function Lengths(s: seq<Item>): seq<nat> {
    seq(|s|, i requires 0 <= i < |s| => s[i].length)
  }

  /** Every circuit listed by a sequence of groups, in order. */
  function GroupIds(gs: seq<Group>): seq<CircuitId> {
    if gs == [] then [] else gs[0].combination + GroupIds(gs[1..])
  }

  /** Every circuit listed by a sequence of surpluses, in order. */
  function SurplusIds(ss: seq<Surplus>): seq<CircuitId> {
    if ss == [] then [] else ss[0].combination + SurplusIds(ss[1..])
  }

  lemma IdsConcat(a: seq<Item>, b: seq<Item>)
    ensures Ids(a + b) == Ids(a) + Ids(b)
  {
  }

  /** Items that are a permutation of each other carry the same ids, as often. */
  lemma {:induction false} IdsPermutation(a: seq<Item>, b: seq<Item>)
    requires multiset(a) == multiset(b)
    ensures multiset(Ids(a)) == multiset(Ids(b))
    decreases |a|
  {
    if a == [] {
      assert |multiset(b)| == 0;
    } else {
      var x := a[0];
      assert x in multiset(b);
      var i :| 0 <= i < |b| && b[i] == x;
      PermutationTail(a, b, i);
      IdsPermutation(a[1..], b[..i] + b[i + 1..]);
      assert Ids(a[1..]) == Ids(a)[1..];
      MultisetTail(Ids(a));
      IdsRemove(b, i);
      assert Ids(a)[0] == x.id && Ids(b)[i] == x.id;
      MultisetCancel(multiset(Ids(a)), multiset(Ids(b)), x.id);
    }
  }

  lemma PermutationTail(a: seq<Item>, b: seq<Item>, i: nat)
    requires multiset(a) == multiset(b) && a != [] && i < |b| && b[i] == a[0]
    ensures multiset(a[1..]) == multiset(b[..i] + b[i + 1..])
  {
    MultisetTail(a);
    MultisetRemove(b, i);
  }

  /** Deleting position `i` from the items deletes one occurrence of its id. */
  lemma IdsRemove(s: seq<Item>, i: nat)
    requires i < |s|
    ensures multiset(Ids(s[..i] + s[i + 1..])) == multiset(Ids(s)) - multiset{s[i].id}
  {
    var t := s[..i] + s[i + 1..];
    var u := Ids(s)[..i] + Ids(s)[i + 1..];
    assert |Ids(t)| == |u|;
    forall k | 0 <= k < |u|
      ensures Ids(t)[k] == u[k]
    {
      if k < i {
        assert t[k] == s[k];
      } else {
        assert t[k] == s[k + 1];
      }
    }
    assert Ids(t) == u;
    MultisetRemove(Ids(s), i);
  }

  /** Items split between `a` and `b` with nothing lost or gained have their ids split the same way. */
  lemma IdsPartition(a: seq<Item>, b: seq<Item>, c: seq<Item>)
    requires multiset(a) + multiset(b) == multiset(c)
    ensures multiset(Ids(a)) + multiset(Ids(b)) == multiset(Ids(c))
  {
    IdsPermutation(a + b, c);
    IdsConcat(a, b);
  }

  lemma {:induction false} SumConcat(a: seq<Item>, b: seq<Item>)
    ensures Sum(a + b) == Sum(a) + Sum(b)
    decreases |a|
  {
    if a != [] {
      assert (a + b)[1..] == a[1..] + b;
      SumConcat(a[1..], b);
    } else {
      assert a + b == b;
    }
  }

  /** No member of a sequence is longer than the whole sequence. */
  lemma {:induction false} SumBoundsMember(s: seq<Item>, x: Item)
    requires x in s
    ensures x.length <= Sum(s)
    decreases |s|
  {
    if s[0] != x {
      SumBoundsMember(s[1..], x);
    }
  }

  lemma {:induction false} GroupIdsConcat(a: seq<Group>, b: seq<Group>)
    ensures GroupIds(a + b) == GroupIds(a) + GroupIds(b)
    decreases |a|
  {
    if a != [] {
      assert (a + b)[1..] == a[1..] + b;
      GroupIdsConcat(a[1..], b);
    } else {
      assert a + b == b;
    }
  }

  lemma {:induction false} SurplusIdsConcat(a: seq<Surplus>, b: seq<Surplus>)
    ensures SurplusIds(a + b) == SurplusIds(a) + SurplusIds(b)
    decreases |a|
  {
    if a != [] {
      assert (a + b)[1..] == a[1..] + b;
      SurplusIdsConcat(a[1..], b);
    } else {
      assert a + b == b;
    }
  }

  /** Deleting items from a pool sorted by descending length leaves it sorted. */
  lemma {:induction false} SubseqSorted(a: seq<Item>, b: seq<Item>)
    requires IsSubseq(a, b)
    ensures SortedDesc(b) ==> SortedDesc(a)
    decreases |b|
  {
    if |a| > 0 && SortedDesc(b) {
      if a[0] == b[0] && IsSubseq(a[1..], b[1..]) {
        SubseqSorted(a[1..], b[1..]);
        SubseqMultiset(a[1..], b[1..]);
        forall j | 0 < j < |a|
          ensures a[0].length >= a[j].length
        {
          assert a[j] == a[1..][j - 1];
          assert a[j] in multiset(b[1..]);
        }
      } else {
        SubseqSorted(a, b[1..]);
      }
    }
  }
}

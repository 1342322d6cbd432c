/** `group_combinations` as a whole: for each requested colour, sort its
    circuits, pack them into groups and surpluses, append both to the shared
    result lists, and run the merge pass over all surpluses so far. */
module Grouping {
  import opened Cables
  import opened Sorting
  import opened Packing
  import opened Merging

  /** One colour's column of (circuit, length) rows, empty cells already dropped. */
  datatype Bucket = Bucket(color: Color, items: seq<Item>)

  /** Every circuit of the input, colour by colour. */
  function InputIds(bs: seq<Bucket>): seq<CircuitId>
    decreases |bs|
  {
    if bs == [] then [] else InputIds(bs[..|bs| - 1]) + Ids(bs[|bs| - 1].items)
  }

  function Colors(bs: seq<Bucket>): seq<Color> {
    seq(|bs|, m requires 0 <= m < |bs| => bs[m].color)
  }

  lemma CoveredMono(items: seq<Item>, a: seq<CircuitId>, b: seq<CircuitId>)
    requires Covered(items, a) && multiset(a) <= multiset(b)
    ensures Covered(items, b)
  {
    forall i | 0 <= i < |items| && items[i].length > 0
      ensures items[i].id in b
    {
      assert items[i].id in multiset(a);
    }
  }

  /** A pass leaves only circuits of the pool behind, so they still fit. */
  lemma PassPoolFits(color: Color, pool: seq<Item>, low: nat)
    requires forall i :: 0 <= i < |pool| ==> low <= pool[i].length <= Limit
    ensures var q := Pass(color, pool).pool;
            forall i :: 0 <= i < |q| ==> low <= q[i].length <= Limit
  {
    PassPartition(color, pool);
    var q := Pass(color, pool).pool;
    forall i | 0 <= i < |q| ensures low <= q[i].length <= Limit {
      assert q[i] in multiset(pool);
    }
  }

  /** A pass that emits a surplus leaves only circuits that overflowed it past 1000. */
  lemma PassOverflow(color: Color, pool: seq<Item>)
    ensures var p := Pass(color, pool);
            p.record.SurplusRecord? ==>
              forall i :: 0 <= i < |p.pool| ==> p.pool[i].length > Limit - p.record.surplus.excedente
  {
    ScanMaximal(pool, 0);
  }

  /** Surpluses built only from circuits longer than `low` have a leftover above `low`. */
  lemma {:induction false} PackSurplusesAbove(color: Color, pool: seq<Item>, low: nat)
    requires forall i :: 0 <= i < |pool| ==> low < pool[i].length <= Limit
    ensures forall k :: 0 <= k < |Pack(color, pool).surpluses| ==> Pack(color, pool).surpluses[k].excedente > low
    decreases |pool|
  {
    if pool != [] {
      var p := Pass(color, pool);
      PassProgress(color, pool);
      PassPoolFits(color, pool, low + 1);
      PackSurplusesAbove(color, p.pool, low);
      assert Pack(color, pool) == Prepend(p.record, Pack(color, p.pool));
      PassSurplusAbove(color, pool, low);
      PrependAbove(p.record, Pack(color, p.pool), low);
    }
  }

  lemma PrependAbove(rec: Record, rest: Packed, low: nat)
    requires rec.SurplusRecord? ==> rec.surplus.excedente > low
    requires forall k :: 0 <= k < |rest.surpluses| ==> rest.surpluses[k].excedente > low
    ensures forall k :: 0 <= k < |Prepend(rec, rest).surpluses| ==> Prepend(rec, rest).surpluses[k].excedente > low
  {
    if rec.SurplusRecord? {
      assert forall k :: 1 <= k < |Prepend(rec, rest).surpluses| ==>
               Prepend(rec, rest).surpluses[k] == rest.surpluses[k - 1];
    }
  }

  /** A surplus made of circuits longer than `low` has a leftover above `low`. */
  lemma PassSurplusAbove(color: Color, pool: seq<Item>, low: nat)
    requires forall i :: 0 <= i < |pool| ==> low < pool[i].length <= Limit
    ensures var p := Pass(color, pool);
            p.record.SurplusRecord? ==> p.record.surplus.excedente > low
  {
    var p := Pass(color, pool);
    if p.record.SurplusRecord? {
      var x := p.members[0];
      PassPartition(color, pool);
      assert x in multiset(pool);
      SumBoundsMember(p.members, x);
    }
  }

  /** A surplus that no later surplus can join keeps the list complete. */
  lemma CompleteCons(s: Surplus, rest: seq<Surplus>)
    requires Complete(rest) && s.excedente < Limit
    requires forall k :: 0 <= k < |rest| ==> rest[k].excedente > Limit - s.excedente
    ensures Complete([s] + rest)
  {
    var all := [s] + rest;
    forall a, b | 0 <= a < b < |all|
      ensures !Mergeable(all[a], all[b])
    {
      assert all[b] == rest[b - 1];
      if a > 0 {
        assert all[a] == rest[a - 1];
      }
    }
  }

  /** Within one colour no two surpluses can be merged: a surplus is emitted only
      when every circuit left behind overflowed its total past 1000, and every
      later surplus is made of such circuits. */
  lemma {:induction false} PackComplete(color: Color, pool: seq<Item>)
    requires AllFit(pool)
    ensures Complete(Pack(color, pool).surpluses)
    decreases |pool|
  {
    if pool != [] {
      var p := Pass(color, pool);
      PassProgress(color, pool);
      PassPoolFits(color, pool, 0);
      PackComplete(color, p.pool);
      var rest := Pack(color, p.pool);
      assert Pack(color, pool) == Prepend(p.record, rest);
      if p.record.SurplusRecord? {
        var t := p.record.surplus.excedente;
        PassOverflow(color, pool);
        PackSurplusesAbove(color, p.pool, Limit - t);
        CompleteCons(p.record.surplus, rest.surpluses);
      }
    }
  }

  /** The work for one colour: the descending stable sort followed by the passes
      of the outer `while` loop. */
  function PackColumn(color: Color, items: seq<Item>): (r: Packed)
    requires AllFit(items)
    ensures forall i :: 0 <= i < |r.groups| ==> r.groups[i].color == color && ValidGroup(r.groups[i])
    ensures forall i :: 0 <= i < |r.surpluses| ==> r.surpluses[i].color == color && FreshSurplus(r.surpluses[i])
    ensures multiset(PackedIds(r)) <= multiset(Ids(items))
    ensures Covered(items, PackedIds(r))
    // the merge pass has nothing to do inside one colour
    ensures Complete(r.surpluses)
  {
    var sorted := SortDesc(items);
    assert AllFit(sorted) by {
      forall i | 0 <= i < |sorted| ensures sorted[i].length <= Limit {
        assert sorted[i] in multiset(items);
      }
    }
    var r := Pack(color, sorted);
    PackComplete(color, sorted);
    CoveredPermuted(items, sorted, PackedIds(r));
    r
  }

  /** Coverage depends only on the multiset of circuits. */
  lemma CoveredPermuted(items: seq<Item>, sorted: seq<Item>, ids: seq<CircuitId>)
    requires multiset(sorted) == multiset(items) && Covered(sorted, ids)
    ensures Covered(items, ids)
  {
    forall i | 0 <= i < |items| && items[i].length > 0
      ensures items[i].id in ids
    {
      assert items[i] in multiset(sorted);
      var j :| 0 <= j < |sorted| && sorted[j] == items[i];
    }
  }

  lemma SortFits(items: seq<Item>)
    requires AllFit(items)
    ensures AllFit(SortDesc(items))
  {
    var sorted := SortDesc(items);
    forall i | 0 <= i < |sorted| ensures sorted[i].length <= Limit {
      assert sorted[i] in multiset(items);
    }
  }

  /** The member lists of the records of one colour. */
  function ColumnMembers(color: Color, items: seq<Item>): Members
    requires AllFit(items)
  {
    SortFits(items);
    PackMembers(color, SortDesc(items))
  }

  /** Every group and surplus of a colour lists the ids of its own member list
      and totals their lengths, and the member lists together use each of the
      colour's circuits at most once. */
  lemma ColumnBuiltFromMembers(color: Color, items: seq<Item>)
    requires AllFit(items)
    ensures GroupsBuiltFrom(PackColumn(color, items).groups, ColumnMembers(color, items).groups)
    ensures SurplusesBuiltFrom(PackColumn(color, items).surpluses, ColumnMembers(color, items).surpluses)
    ensures var m := ColumnMembers(color, items);
            multiset(Flatten(m.groups) + Flatten(m.surpluses)) <= multiset(items)
  {
    SortFits(items);
    PackBuiltFromMembers(color, SortDesc(items));
  }

  /** The input of the first `k + 1` colours is that of the first `k` followed by colour `k`. */
  lemma InputIdsStep(buckets: seq<Bucket>, k: nat)
    requires k < |buckets|
    ensures InputIds(buckets[..k + 1]) == InputIds(buckets[..k]) + Ids(buckets[k].items)
  {
    assert buckets[..k + 1][..k] == buckets[..k];
  }

  /** Appending a colour's records and merging lists the old circuits plus the colour's own. */
  lemma AppendIds(groups: seq<Group>, costums: seq<Surplus>, p: Packed, merged: seq<Surplus>)
    requires multiset(SurplusIds(merged)) == multiset(SurplusIds(costums + p.surpluses))
    ensures multiset(PackedIds(Packed(groups + p.groups, merged)))
         == multiset(PackedIds(Packed(groups, costums))) + multiset(PackedIds(p))
  {
    GroupIdsConcat(groups, p.groups);
    SurplusIdsConcat(costums, p.surpluses);
  }

  /** Appending the records of colour `k` and merging keeps the circuits of the
      first `k + 1` colours accounted for. */
  lemma ColumnStep(buckets: seq<Bucket>, k: nat, groups: seq<Group>, costums: seq<Surplus>, p: Packed, merged: seq<Surplus>)
    requires k < |buckets|
    requires multiset(PackedIds(Packed(groups, costums))) <= multiset(InputIds(buckets[..k]))
    requires forall m :: 0 <= m < k ==> Covered(buckets[m].items, PackedIds(Packed(groups, costums)))
    requires multiset(PackedIds(p)) <= multiset(Ids(buckets[k].items))
    requires Covered(buckets[k].items, PackedIds(p))
    requires multiset(SurplusIds(merged)) == multiset(SurplusIds(costums + p.surpluses))
    ensures multiset(PackedIds(Packed(groups + p.groups, merged))) <= multiset(InputIds(buckets[..k + 1]))
    ensures forall m :: 0 <= m < k + 1 ==> Covered(buckets[m].items, PackedIds(Packed(groups + p.groups, merged)))
  {
    AppendIds(groups, costums, p, merged);
    InputIdsStep(buckets, k);
    ColumnCover(buckets, k, PackedIds(Packed(groups, costums)), PackedIds(p), PackedIds(Packed(groups + p.groups, merged)));
  }

  /** Circuits listed before, or listed for colour `k`, stay listed once both lists are joined. */
  lemma ColumnCover(buckets: seq<Bucket>, k: nat, before: seq<CircuitId>, added: seq<CircuitId>, after: seq<CircuitId>)
    requires k < |buckets|
    requires forall m :: 0 <= m < k ==> Covered(buckets[m].items, before)
    requires Covered(buckets[k].items, added)
    requires multiset(after) == multiset(before) + multiset(added)
    ensures forall m :: 0 <= m < k + 1 ==> Covered(buckets[m].items, after)
  {
    forall m | 0 <= m < k + 1
      ensures Covered(buckets[m].items, after)
    {
      if m < k {
        CoveredMono(buckets[m].items, before, after);
      } else {
        CoveredMono(buckets[m].items, added, after);
      }
    }
  }

  /** The records of colour `k` are valid, carry that colour, and keep every
      surplus strictly between 0 and 1000. */
  lemma ColumnAppend(buckets: seq<Bucket>, k: nat, groups: seq<Group>, costums: seq<Surplus>, p: Packed)
    requires k < |buckets|
    requires forall i :: 0 <= i < |groups| ==> ValidGroup(groups[i]) && groups[i].color in Colors(buckets[..k])
    requires InRange(costums) && forall i :: 0 <= i < |costums| ==> costums[i].color in Colors(buckets[..k])
    requires forall i :: 0 <= i < |p.groups| ==> p.groups[i].color == buckets[k].color && ValidGroup(p.groups[i])
    requires forall i :: 0 <= i < |p.surpluses| ==> p.surpluses[i].color == buckets[k].color && FreshSurplus(p.surpluses[i])
    ensures forall i :: 0 <= i < |groups + p.groups| ==>
              ValidGroup((groups + p.groups)[i]) && (groups + p.groups)[i].color in Colors(buckets[..k + 1])
    ensures InRange(costums + p.surpluses)
    ensures forall i :: 0 <= i < |costums + p.surpluses| ==> (costums + p.surpluses)[i].color in Colors(buckets[..k + 1])
  {
    assert Colors(buckets[..k + 1]) == Colors(buckets[..k]) + [buckets[k].color];
  }

  /** Merging keeps every surplus of a colour seen so far. */
  lemma MergedColors(colors: seq<Color>, cs: seq<Surplus>, merged: seq<Surplus>)
    requires forall i :: 0 <= i < |cs| ==> cs[i].color in colors
    requires exists keep :: Survivors(cs, merged, keep)
    ensures forall i :: 0 <= i < |merged| ==> merged[i].color in colors
  {
    var keep :| Survivors(cs, merged, keep);
    forall i | 0 <= i < |merged|
      ensures merged[i].color in colors
    {
      assert Survives(cs[keep[i]], merged[i]);
    }
  }

  /** No colour is requested twice. */
  predicate DistinctColors(bs: seq<Bucket>) {
    forall a, b :: 0 <= a < b < |bs| ==> bs[a].color != bs[b].color
  }

  /** The surpluses of every colour as its own passes emit them, colour after colour. */
  function AllSurpluses(bs: seq<Bucket>, k: nat): seq<Surplus>
    requires k <= |bs| && forall m :: 0 <= m < |bs| ==> AllFit(bs[m].items)
  {
    if k == 0 then [] else AllSurpluses(bs, k - 1) + PackColumn(bs[k - 1].color, bs[k - 1].items).surpluses
  }

  /** Surpluses of a new colour can join none of the earlier ones. */
  lemma DistinctStep(buckets: seq<Bucket>, k: nat, costums: seq<Surplus>, added: seq<Surplus>)
    requires DistinctColors(buckets) && k < |buckets|
    requires Complete(costums) && forall i :: 0 <= i < |costums| ==> costums[i].color in Colors(buckets[..k])
    requires Complete(added) && forall i :: 0 <= i < |added| ==> added[i].color == buckets[k].color
    ensures Complete(costums + added)
  {
    var all := costums + added;
    forall a, b | 0 <= a < b < |all|
      ensures !Mergeable(all[a], all[b])
    {
      if b >= |costums| {
        assert all[b] == added[b - |costums|];
        if a < |costums| {
          var m :| 0 <= m < k && Colors(buckets[..k])[m] == costums[a].color;
          assert buckets[m].color == costums[a].color;
        } else {
          assert all[a] == added[a - |costums|];
        }
      }
    }
  }

  /** With distinct colours the merge after colour `k` returns its input unchanged. */
  lemma DistinctIdle(buckets: seq<Bucket>, k: nat, costums: seq<Surplus>, merged: seq<Surplus>)
    requires forall m :: 0 <= m < |buckets| ==> AllFit(buckets[m].items)
    requires DistinctColors(buckets) && k < |buckets|
    requires costums == AllSurpluses(buckets, k)
    requires Complete(costums) && forall i :: 0 <= i < |costums| ==> costums[i].color in Colors(buckets[..k])
    requires var p := PackColumn(buckets[k].color, buckets[k].items);
             Complete(costums + p.surpluses) ==> merged == costums + p.surpluses
    ensures merged == AllSurpluses(buckets, k + 1)
  {
    DistinctStep(buckets, k, costums, PackColumn(buckets[k].color, buckets[k].items).surpluses);
  }

  /** What holds once the first `k` colours have been processed. */
  ghost predicate Processed(buckets: seq<Bucket>, k: nat, groups: seq<Group>, costums: seq<Surplus>)
    requires k <= |buckets| && forall m :: 0 <= m < |buckets| ==> AllFit(buckets[m].items)
  {
    && (forall i :: 0 <= i < |groups| ==> ValidGroup(groups[i]) && groups[i].color in Colors(buckets[..k]))
    && InRange(costums) && Complete(costums)
    && (forall i :: 0 <= i < |costums| ==> costums[i].color in Colors(buckets[..k]))
    && multiset(PackedIds(Packed(groups, costums))) <= multiset(InputIds(buckets[..k]))
    && (forall m :: 0 <= m < k ==> Covered(buckets[m].items, PackedIds(Packed(groups, costums))))
    && (DistinctColors(buckets) ==> costums == AllSurpluses(buckets, k))
  }

  /** One iteration of the colour loop: pack colour `k`, append, merge. */
  lemma ColumnProgress(buckets: seq<Bucket>, k: nat, groups: seq<Group>, costums: seq<Surplus>, p: Packed, merged: seq<Surplus>)
    requires forall m :: 0 <= m < |buckets| ==> AllFit(buckets[m].items)
    requires k < |buckets| && Processed(buckets, k, groups, costums)
    requires p == PackColumn(buckets[k].color, buckets[k].items)
    requires Complete(merged)
    requires Complete(costums + p.surpluses) ==> merged == costums + p.surpluses
    requires multiset(SurplusIds(merged)) == multiset(SurplusIds(costums + p.surpluses))
    requires exists keep :: Survivors(costums + p.surpluses, merged, keep)
    requires InRange(costums + p.surpluses) ==> InRange(merged)
    ensures Processed(buckets, k + 1, groups + p.groups, merged)
  {
    ColumnAppend(buckets, k, groups, costums, p);
    MergedColors(Colors(buckets[..k + 1]), costums + p.surpluses, merged);
    ColumnStep(buckets, k, groups, costums, p, merged);
    if DistinctColors(buckets) {
      DistinctIdle(buckets, k, costums, merged);
    }
  }

  // ---------------------------------------------------------------------------
  // The circuits of each colour

  /** The groups of colour `c`, in order. */
  function GroupsOf(gs: seq<Group>, c: Color): seq<Group> {
    if gs == [] then []
    else if gs[0].color == c then [gs[0]] + GroupsOf(gs[1..], c)
    else GroupsOf(gs[1..], c)
  }

  lemma {:induction false} GroupsOfConcat(a: seq<Group>, b: seq<Group>, c: Color)
    ensures GroupsOf(a + b, c) == GroupsOf(a, c) + GroupsOf(b, c)
    decreases |a|
  {
    if a != [] {
      assert (a + b)[1..] == a[1..] + b;
      GroupsOfConcat(a[1..], b, c);
    } else {
      assert a + b == b;
    }
  }

  /** Filtering by colour keeps a list of that colour whole and empties a list of other colours. */
  lemma {:induction false} GroupsOfAllOrNone(gs: seq<Group>, c: Color)
    ensures (forall k :: 0 <= k < |gs| ==> gs[k].color == c) ==> GroupsOf(gs, c) == gs
    ensures (forall k :: 0 <= k < |gs| ==> gs[k].color != c) ==> GroupsOf(gs, c) == []
    decreases |gs|
  {
    if gs != [] {
      GroupsOfAllOrNone(gs[1..], c);
      assert forall k :: 1 <= k < |gs| ==> gs[1..][k - 1] == gs[k];
      assert gs == [gs[0]] + gs[1..];
    }
  }

  /** The circuits of every bucket of colour `c`, bucket after bucket. */
  function ColorInput(bs: seq<Bucket>, c: Color): seq<Item>
    decreases |bs|
  {
    if bs == [] then []
    else ColorInput(bs[..|bs| - 1], c) + (if bs[|bs| - 1].color == c then bs[|bs| - 1].items else [])
  }

  /** The circuits the two result lists list under colour `c`. */
  function ColorIds(groups: seq<Group>, costums: seq<Surplus>, c: Color): seq<CircuitId> {
    GroupIds(GroupsOf(groups, c)) + SurplusIds(OfColor(costums, c))
  }

  /** Ids and coverage hold colour by colour once the first `k` colours are processed. */
  ghost predicate ColorsProcessed(buckets: seq<Bucket>, k: nat, groups: seq<Group>, costums: seq<Surplus>)
    requires k <= |buckets|
  {
    && (forall c :: multiset(ColorIds(groups, costums, c)) <= multiset(Ids(ColorInput(buckets[..k], c))))
    && (forall m :: 0 <= m < k ==> Covered(buckets[m].items, ColorIds(groups, costums, buckets[m].color)))
  }

  /** Appending one colour's records and merging adds that colour's circuits to
      its own id list and leaves every other colour's list as it was. */
  lemma ColorIdsAppend(groups: seq<Group>, costums: seq<Surplus>, p: Packed, merged: seq<Surplus>, color: Color, c: Color)
    requires forall i :: 0 <= i < |p.groups| ==> p.groups[i].color == color
    requires forall i :: 0 <= i < |p.surpluses| ==> p.surpluses[i].color == color
    requires SameColorIds(merged, costums + p.surpluses, c)
    ensures multiset(ColorIds(groups + p.groups, merged, c))
         == multiset(ColorIds(groups, costums, c)) + (if c == color then multiset(PackedIds(p)) else multiset{})
  {
    GroupsOfConcat(groups, p.groups, c);
    OfColorConcat(costums, p.surpluses, c);
    GroupsOfAllOrNone(p.groups, c);
    OfColorAllOrNone(p.surpluses, c);
    GroupIdsConcat(GroupsOf(groups, c), GroupsOf(p.groups, c));
    SurplusIdsConcat(OfColor(costums, c), OfColor(p.surpluses, c));
  }

  lemma ColorInputStep(buckets: seq<Bucket>, k: nat, c: Color)
    requires k < |buckets|
    ensures Ids(ColorInput(buckets[..k + 1], c))
         == Ids(ColorInput(buckets[..k], c)) + (if buckets[k].color == c then Ids(buckets[k].items) else [])
  {
    assert buckets[..k + 1][..k] == buckets[..k];
    IdsConcat(ColorInput(buckets[..k], c), if buckets[k].color == c then buckets[k].items else []);
  }

  /** One iteration of the colour loop keeps the per-colour id facts. */
  lemma ColorProgress(buckets: seq<Bucket>, k: nat, groups: seq<Group>, costums: seq<Surplus>, p: Packed, merged: seq<Surplus>)
    requires forall m :: 0 <= m < |buckets| ==> AllFit(buckets[m].items)
    requires k < |buckets| && ColorsProcessed(buckets, k, groups, costums)
    requires p == PackColumn(buckets[k].color, buckets[k].items)
    requires forall c :: multiset(SurplusIds(OfColor(merged, c))) == multiset(SurplusIds(OfColor(costums + p.surpluses, c)))
    ensures ColorsProcessed(buckets, k + 1, groups + p.groups, merged)
  {
    assert forall c :: SameColorIds(merged, costums + p.surpluses, c);
    ColorBoundStep(buckets, k, groups, costums, p, merged);
    ColorCoverStep(buckets, k, groups, costums, p, merged);
  }

  /** Records of one colour `color`, listing only circuits of `items`, and covering them. */
  predicate ColumnOf(p: Packed, color: Color, items: seq<Item>) {
    && (forall i :: 0 <= i < |p.groups| ==> p.groups[i].color == color)
    && (forall i :: 0 <= i < |p.surpluses| ==> p.surpluses[i].color == color)
    && multiset(PackedIds(p)) <= multiset(Ids(items))
    && Covered(items, PackedIds(p))
  }

  /** Colour `k`'s records list only circuits of colour `k`, each at most as often as it occurs. */
  lemma ColorBoundStep(buckets: seq<Bucket>, k: nat, groups: seq<Group>, costums: seq<Surplus>, p: Packed, merged: seq<Surplus>)
    requires k < |buckets| && ColumnOf(p, buckets[k].color, buckets[k].items)
    requires forall c :: multiset(ColorIds(groups, costums, c)) <= multiset(Ids(ColorInput(buckets[..k], c)))
    requires forall c :: SameColorIds(merged, costums + p.surpluses, c)
    ensures forall c :: multiset(ColorIds(groups + p.groups, merged, c)) <= multiset(Ids(ColorInput(buckets[..k + 1], c)))
  {
    forall c
      ensures multiset(ColorIds(groups + p.groups, merged, c)) <= multiset(Ids(ColorInput(buckets[..k + 1], c)))
    {
      ColorIdsAppend(groups, costums, p, merged, buckets[k].color, c);
      ColorInputStep(buckets, k, c);
    }
  }

  /** Circuits listed under their colour stay listed, and colour `k`'s are listed under it. */
  lemma ColorCoverStep(buckets: seq<Bucket>, k: nat, groups: seq<Group>, costums: seq<Surplus>, p: Packed, merged: seq<Surplus>)
    requires k < |buckets| && ColumnOf(p, buckets[k].color, buckets[k].items)
    requires forall m :: 0 <= m < k ==> Covered(buckets[m].items, ColorIds(groups, costums, buckets[m].color))
    requires forall c :: SameColorIds(merged, costums + p.surpluses, c)
    ensures forall m :: 0 <= m < k + 1 ==> Covered(buckets[m].items, ColorIds(groups + p.groups, merged, buckets[m].color))
  {
    forall m | 0 <= m < k + 1
      ensures Covered(buckets[m].items, ColorIds(groups + p.groups, merged, buckets[m].color))
    {
      var c := buckets[m].color;
      ColorIdsAppend(groups, costums, p, merged, buckets[k].color, c);
      if m < k {
        CoveredMono(buckets[m].items, ColorIds(groups, costums, c), ColorIds(groups + p.groups, merged, c));
      } else {
        CoveredMono(buckets[m].items, PackedIds(p), ColorIds(groups + p.groups, merged, c));
      }
    }
  }

  // ---------------------------------------------------------------------------
  // The colour loop

  /** The groups after the first colours: every colour's groups, colour after colour. */
  function AllGroups(bs: seq<Bucket>, k: nat): seq<Group>
    requires k <= |bs| && forall m :: 0 <= m < |bs| ==> AllFit(bs[m].items)
  {
    if k == 0 then [] else AllGroups(bs, k - 1) + PackColumn(bs[k - 1].color, bs[k - 1].items).groups
  }

  /** The surpluses after the first colours: the last colour's surpluses appended
      to those before, then the merge pass over all of them. */
  function AllCostums(bs: seq<Bucket>, k: nat): seq<Surplus>
    requires k <= |bs| && forall m :: 0 <= m < |bs| ==> AllFit(bs[m].items)
  {
    if k == 0 then [] else MergeFrom(AllCostums(bs, k - 1) + PackColumn(bs[k - 1].color, bs[k - 1].items).surpluses, 0)
  }

  /** What the merge after colour `k - 1` gives the colour loop: the merged list
      is complete, is its input when that was already complete, keeps every
      circuit overall and per colour, keeps the survivors in order, and keeps
      leftovers strictly between 0 and 1000. */
  lemma FoldMerge(buckets: seq<Bucket>, k: nat)
    requires forall m :: 0 <= m < |buckets| ==> AllFit(buckets[m].items)
    requires 0 < k <= |buckets|
    ensures var cs := AllCostums(buckets, k - 1) + PackColumn(buckets[k - 1].color, buckets[k - 1].items).surpluses;
            var merged := AllCostums(buckets, k);
            && Complete(merged)
            && (Complete(cs) ==> merged == cs)
            && multiset(SurplusIds(merged)) == multiset(SurplusIds(cs))
            && (forall c :: multiset(SurplusIds(OfColor(merged, c))) == multiset(SurplusIds(OfColor(cs, c))))
            && (exists keep :: Survivors(cs, merged, keep))
            && (InRange(cs) ==> InRange(merged))
  {
    var cs := AllCostums(buckets, k - 1) + PackColumn(buckets[k - 1].color, buckets[k - 1].items).surpluses;
    var merged := MergeFrom(cs, 0);
    MergeFromComplete(cs, 0);
    if Complete(cs) {
      MergeFromIdle(cs, 0);
    }
    MergeFromIds(cs, 0);
    forall c ensures multiset(SurplusIds(OfColor(merged, c))) == multiset(SurplusIds(OfColor(cs, c))) {
      MergeFromColorIds(cs, 0, c);
    }
    var keep := MergeFromSurvivors(cs, 0);
    if InRange(cs) {
      MergeSurvivorBounds(cs, merged, keep);
    }
  }

  /** The iteration for colour `k - 1` keeps what the colour loop has processed. */
  lemma ProcessedStep(buckets: seq<Bucket>, k: nat, groups: seq<Group>, costums: seq<Surplus>, p: Packed,
                      groups': seq<Group>, merged: seq<Surplus>)
    requires forall m :: 0 <= m < |buckets| ==> AllFit(buckets[m].items)
    requires 0 < k <= |buckets| && Processed(buckets, k - 1, groups, costums)
    requires p == PackColumn(buckets[k - 1].color, buckets[k - 1].items) && groups' == groups + p.groups
    requires Complete(merged)
    requires Complete(costums + p.surpluses) ==> merged == costums + p.surpluses
    requires multiset(SurplusIds(merged)) == multiset(SurplusIds(costums + p.surpluses))
    requires exists keep :: Survivors(costums + p.surpluses, merged, keep)
    requires InRange(costums + p.surpluses) ==> InRange(merged)
    ensures Processed(buckets, k, groups', merged)
  {
    var j := k - 1;
    ColumnProgress(buckets, j, groups, costums, p, merged);
    assert j + 1 == k;
  }

  /** The iteration for colour `k - 1` keeps the per-colour facts. */
  lemma ColorsStep(buckets: seq<Bucket>, k: nat, groups: seq<Group>, costums: seq<Surplus>, p: Packed,
                   groups': seq<Group>, merged: seq<Surplus>)
    requires forall m :: 0 <= m < |buckets| ==> AllFit(buckets[m].items)
    requires 0 < k <= |buckets| && ColorsProcessed(buckets, k - 1, groups, costums)
    requires p == PackColumn(buckets[k - 1].color, buckets[k - 1].items) && groups' == groups + p.groups
    requires forall c :: multiset(SurplusIds(OfColor(merged, c))) == multiset(SurplusIds(OfColor(costums + p.surpluses, c)))
    ensures ColorsProcessed(buckets, k, groups', merged)
  {
    ColorProgress(buckets, k - 1, groups, costums, p, merged);
  }

  /** The fold over `k` colours keeps what the fold over `k - 1` colours had processed. */
  lemma ProcessedAdvance(buckets: seq<Bucket>, k: nat)
    requires forall m :: 0 <= m < |buckets| ==> AllFit(buckets[m].items)
    requires 0 < k <= |buckets| && Processed(buckets, k - 1, AllGroups(buckets, k - 1), AllCostums(buckets, k - 1))
    ensures Processed(buckets, k, AllGroups(buckets, k), AllCostums(buckets, k))
  {
    FoldMerge(buckets, k);
    ProcessedStep(buckets, k, AllGroups(buckets, k - 1), AllCostums(buckets, k - 1),
                  PackColumn(buckets[k - 1].color, buckets[k - 1].items), AllGroups(buckets, k), AllCostums(buckets, k));
  }

  /** The fold over `k` colours keeps the per-colour facts of the fold over `k - 1` colours. */
  lemma ColorsAdvance(buckets: seq<Bucket>, k: nat)
    requires forall m :: 0 <= m < |buckets| ==> AllFit(buckets[m].items)
    requires 0 < k <= |buckets| && ColorsProcessed(buckets, k - 1, AllGroups(buckets, k - 1), AllCostums(buckets, k - 1))
    ensures ColorsProcessed(buckets, k, AllGroups(buckets, k), AllCostums(buckets, k))
  {
    FoldMerge(buckets, k);
    ColorsStep(buckets, k, AllGroups(buckets, k - 1), AllCostums(buckets, k - 1),
               PackColumn(buckets[k - 1].color, buckets[k - 1].items), AllGroups(buckets, k), AllCostums(buckets, k));
  }

  /** Before the first colour both result lists are empty, which lists nothing and covers nothing. */
  lemma ProcessedStart(buckets: seq<Bucket>)
    requires forall m :: 0 <= m < |buckets| ==> AllFit(buckets[m].items)
    ensures Processed(buckets, 0, AllGroups(buckets, 0), AllCostums(buckets, 0))
  {
    assert AllGroups(buckets, 0) == [] && AllCostums(buckets, 0) == [] && AllSurpluses(buckets, 0) == [];
    assert InputIds(buckets[..0]) == [] by { assert buckets[..0] == []; }
    assert PackedIds(Packed([], [])) == [];
  }

  /** Before the first colour no colour lists a circuit. */
  lemma ColorsStart(buckets: seq<Bucket>)
    requires forall m :: 0 <= m < |buckets| ==> AllFit(buckets[m].items)
    ensures ColorsProcessed(buckets, 0, AllGroups(buckets, 0), AllCostums(buckets, 0))
  {
    assert AllGroups(buckets, 0) == [] && AllCostums(buckets, 0) == [];
    assert buckets[..0] == [];
    forall c ensures ColorIds([], [], c) == [] && ColorInput(buckets[..0], c) == [] {
    }
  }

  /** The fold over the first `k` colours has processed them. */
  lemma {:induction false} FoldProcessed(buckets: seq<Bucket>, k: nat)
    requires forall m :: 0 <= m < |buckets| ==> AllFit(buckets[m].items)
    requires k <= |buckets|
    ensures Processed(buckets, k, AllGroups(buckets, k), AllCostums(buckets, k))
    decreases k
  {
    if k == 0 {
      ProcessedStart(buckets);
    } else {
      FoldProcessed(buckets, k - 1);
      ProcessedAdvance(buckets, k);
    }
  }

  /** The fold over the first `k` colours keeps their circuits colour by colour. */
  lemma {:induction false} FoldColors(buckets: seq<Bucket>, k: nat)
    requires forall m :: 0 <= m < |buckets| ==> AllFit(buckets[m].items)
    requires k <= |buckets|
    ensures ColorsProcessed(buckets, k, AllGroups(buckets, k), AllCostums(buckets, k))
    decreases k
  {
    if k == 0 {
      ColorsStart(buckets);
    } else {
      FoldColors(buckets, k - 1);
      ColorsAdvance(buckets, k);
    }
  }

  /** Everything the colour loop promises, stated of the fold over all colours. */
  lemma FoldDone(buckets: seq<Bucket>)
    requires forall m :: 0 <= m < |buckets| ==> AllFit(buckets[m].items)
    ensures var groups, costums := AllGroups(buckets, |buckets|), AllCostums(buckets, |buckets|);
            && (forall i :: 0 <= i < |groups| ==> ValidGroup(groups[i]) && groups[i].color in Colors(buckets))
            && InRange(costums) && Complete(costums)
            && (forall i :: 0 <= i < |costums| ==> costums[i].color in Colors(buckets))
            && multiset(PackedIds(Packed(groups, costums))) <= multiset(InputIds(buckets))
            && (forall m :: 0 <= m < |buckets| ==> Covered(buckets[m].items, PackedIds(Packed(groups, costums))))
            && (forall c :: multiset(ColorIds(groups, costums, c)) <= multiset(Ids(ColorInput(buckets, c))))
            && (forall m :: 0 <= m < |buckets| ==> Covered(buckets[m].items, ColorIds(groups, costums, buckets[m].color)))
            && (DistinctColors(buckets) ==> costums == AllSurpluses(buckets, |buckets|))
  {
    FoldProcessed(buckets, |buckets|);
    FoldColors(buckets, |buckets|);
    assert buckets[..|buckets|] == buckets;
  }

  /** One iteration of the colour loop: pack colour `k`, append its groups and
      surpluses to the result lists, then merge the surpluses. */
  method ProcessColor(buckets: seq<Bucket>, k: nat, groups: seq<Group>, costums: seq<Surplus>)
    returns (groups': seq<Group>, costums': seq<Surplus>)
    requires forall m :: 0 <= m < |buckets| ==> AllFit(buckets[m].items)
    requires k < |buckets| && groups == AllGroups(buckets, k) && costums == AllCostums(buckets, k)
    ensures groups' == AllGroups(buckets, k + 1) && costums' == AllCostums(buckets, k + 1)
    // the colour loop's invariant holds after colour k
    ensures Processed(buckets, k + 1, groups', costums') && ColorsProcessed(buckets, k + 1, groups', costums')
  {
    var b := buckets[k];
    var p := PackColumn(b.color, b.items);
    var merged := MergeSurpluses(costums + p.surpluses);
    groups', costums' := groups + p.groups, merged;
    FoldProcessed(buckets, k + 1);
    FoldColors(buckets, k + 1);
  }

  /** The whole grouper over the requested colours, in order. */
  method GroupCombinations(buckets: seq<Bucket>) returns (groups: seq<Group>, costums: seq<Surplus>)
    requires forall m :: 0 <= m < |buckets| ==> AllFit(buckets[m].items)
    // each colour's groups in turn; surpluses appended and merged colour by colour
    ensures groups == AllGroups(buckets, |buckets|) && costums == AllCostums(buckets, |buckets|)
    ensures forall i :: 0 <= i < |groups| ==> ValidGroup(groups[i]) && groups[i].color in Colors(buckets)
    ensures InRange(costums)
    ensures forall i :: 0 <= i < |costums| ==> costums[i].color in Colors(buckets)
    // no two remaining surpluses of a colour fit together under 500
    ensures Complete(costums)
    // no circuit is listed more often than it occurs in the input, in all and per colour
    ensures multiset(PackedIds(Packed(groups, costums))) <= multiset(InputIds(buckets))
    ensures forall c :: multiset(ColorIds(groups, costums, c)) <= multiset(Ids(ColorInput(buckets, c)))
    // every circuit of positive length is listed, and under its own colour
    ensures forall m :: 0 <= m < |buckets| ==> Covered(buckets[m].items, PackedIds(Packed(groups, costums)))
    ensures forall m :: 0 <= m < |buckets| ==> Covered(buckets[m].items, ColorIds(groups, costums, buckets[m].color))
    // unless a colour is requested twice, the merge pass never merges anything
    ensures DistinctColors(buckets) ==> costums == AllSurpluses(buckets, |buckets|)
  {
    groups, costums := [], [];
    var k := 0;
    while k < |buckets|
      invariant k <= |buckets|
      invariant groups == AllGroups(buckets, k) && costums == AllCostums(buckets, k)
    {
      groups, costums := ProcessColor(buckets, k, groups, costums);
      k := k + 1;
    }
    FoldDone(buckets);
  }
}

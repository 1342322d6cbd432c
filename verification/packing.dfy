/** The per-colour greedy packer of `group_combinations` (Agrupaciones.py):
    repeated first-fit scans over the descending pool, each closed by a group,
    a repair attempt and a surplus record, until the pool is empty. */
module Packing {
  import opened Sequences
  import opened Cables
  import opened Sorting

  // ---------------------------------------------------------------------------
  // The scan pass

  /** Items accepted by a scan in scan order, the items it left in the pool in
      pool order, and the running sum it ended with. */
  datatype ScanResult = ScanResult(taken: seq<Item>, rest: seq<Item>, total: nat)

  /** First-fit scan from running sum `sum`: accept an item while the sum stays
      at most 1000, and stop right after an accepted item makes the sum 500 or 1000. */
  function Scan(pool: seq<Item>, sum: nat): (r: ScanResult)
    requires sum <= Limit
    ensures sum <= r.total <= Limit
    decreases |pool|
  {
    if pool == [] then ScanResult([], [], sum)
    else
      var x := pool[0];
      if sum + x.length <= Limit then
        if IsTarget(sum + x.length) then
          ScanResult([x], pool[1..], sum + x.length)
        else
          var r := Scan(pool[1..], sum + x.length);
          ScanResult([x] + r.taken, r.rest, r.total)
      else
        var r := Scan(pool[1..], sum);
        ScanResult(r.taken, [x] + r.rest, r.total)
  }

  /** The scan ends with the starting sum plus the accepted lengths, and no
      accepted item before the last one completed a group. */
  lemma {:induction false} ScanTotal(pool: seq<Item>, sum: nat)
    requires sum <= Limit
    ensures Scan(pool, sum).total == sum + Sum(Scan(pool, sum).taken)
    ensures NoEarlyHit(sum, Scan(pool, sum).taken)
    decreases |pool|
  {
    if pool != [] {
      var x := pool[0];
      if sum + x.length > Limit {
        ScanTotal(pool[1..], sum);
      } else if !IsTarget(sum + x.length) {
        ScanTotal(pool[1..], sum + x.length);
        var r := Scan(pool[1..], sum + x.length);
        assert ([x] + r.taken)[1..] == r.taken;
      }
    }
  }

  /** Every item of the pool is either accepted or left behind, exactly once. */
  lemma {:induction false} ScanPartition(pool: seq<Item>, sum: nat)
    requires sum <= Limit
    ensures multiset(Scan(pool, sum).taken) + multiset(Scan(pool, sum).rest) == multiset(pool)
    decreases |pool|, 1
  {
    if pool != [] {
      if sum + pool[0].length > Limit {
        PartitionSkip(pool, sum);
      } else if IsTarget(sum + pool[0].length) {
        PartitionStep(pool, sum, ScanResult([], pool[1..], sum + pool[0].length));
      } else {
        PartitionTake(pool, sum);
      }
    }
  }

  lemma {:induction false} PartitionSkip(pool: seq<Item>, sum: nat)
    requires pool != [] && sum <= Limit < sum + pool[0].length
    ensures multiset(Scan(pool, sum).taken) + multiset(Scan(pool, sum).rest) == multiset(pool)
    decreases |pool|, 0
  {
    ScanPartition(pool[1..], sum);
    PartitionStep(pool, sum, Scan(pool[1..], sum));
  }

  lemma {:induction false} PartitionTake(pool: seq<Item>, sum: nat)
    requires pool != [] && sum + pool[0].length <= Limit && !IsTarget(sum + pool[0].length)
    ensures multiset(Scan(pool, sum).taken) + multiset(Scan(pool, sum).rest) == multiset(pool)
    decreases |pool|, 0
  {
    ScanPartition(pool[1..], sum + pool[0].length);
    PartitionStep(pool, sum, Scan(pool[1..], sum + pool[0].length));
  }

  /** One step of `ScanPartition`: the head joins whichever side the scan puts it on. */
  lemma PartitionStep(pool: seq<Item>, sum: nat, r: ScanResult)
    requires pool != [] && sum <= Limit
    requires multiset(r.taken) + multiset(r.rest) == multiset(pool[1..])
    requires Scan(pool, sum) == ScanResult([pool[0]] + r.taken, r.rest, r.total)
          || Scan(pool, sum) == ScanResult(r.taken, [pool[0]] + r.rest, r.total)
    ensures multiset(Scan(pool, sum).taken) + multiset(Scan(pool, sum).rest) == multiset(pool)
  {
    assert pool == [pool[0]] + pool[1..];
    SplitCons(pool[0], r.taken, r.rest, pool[1..]);
  }

  /** The accepted items appear in the pool in scan order, and so do the items left behind. */
  lemma {:induction false} ScanSubseq(pool: seq<Item>, sum: nat)
    requires sum <= Limit
    ensures IsSubseq(Scan(pool, sum).taken, pool) && IsSubseq(Scan(pool, sum).rest, pool)
    decreases |pool|
  {
    if pool != [] {
      var x := pool[0];
      if sum + x.length <= Limit {
        if IsTarget(sum + x.length) {
          SubseqRefl(pool[1..]);
          SubseqKeep([], pool);
          SubseqSkip(pool[1..], pool);
        } else {
          ScanSubseq(pool[1..], sum + x.length);
          var r := Scan(pool[1..], sum + x.length);
          SubseqKeep(r.taken, pool);
          SubseqSkip(r.rest, pool);
        }
      } else {
        ScanSubseq(pool[1..], sum);
        var r := Scan(pool[1..], sum);
        SubseqSkip(r.taken, pool);
        SubseqKeep(r.rest, pool);
      }
    }
  }

  /** Without a hit the scan visited the whole pool, so every item it left
      behind was rejected for taking the sum past 1000. */
  lemma {:induction false} ScanMaximal(pool: seq<Item>, sum: nat)
    requires sum <= Limit
    ensures var r := Scan(pool, sum);
            !IsTarget(r.total) ==> forall i :: 0 <= i < |r.rest| ==> r.total + r.rest[i].length > Limit
    decreases |pool|
  {
    if pool != [] {
      var x := pool[0];
      if sum + x.length <= Limit {
        if !IsTarget(sum + x.length) {
          ScanMaximal(pool[1..], sum + x.length);
        }
      } else {
        ScanMaximal(pool[1..], sum);
        var r := Scan(pool[1..], sum);
        assert Scan(pool, sum).rest == [x] + r.rest;
        assert forall i :: 1 <= i < |[x] + r.rest| ==> ([x] + r.rest)[i] == r.rest[i - 1];
      }
    }
  }

  /** The head of the pool is accepted whenever it fits; a pool none of whose
      items fits is left untouched. */
  lemma {:induction false} ScanProgress(pool: seq<Item>, sum: nat)
    requires sum <= Limit
    ensures var r := Scan(pool, sum);
            |pool| > 0 && sum + pool[0].length <= Limit ==> r.taken != [] && r.taken[0] == pool[0]
    ensures var r := Scan(pool, sum);
            (forall i :: 0 <= i < |pool| ==> sum + pool[i].length > Limit) ==> r.taken == [] && r.rest == pool
    decreases |pool|
  {
    if pool != [] && sum + pool[0].length > Limit {
      ScanProgress(pool[1..], sum);
      if forall i :: 0 <= i < |pool| ==> sum + pool[i].length > Limit {
        assert forall i :: 0 <= i < |pool[1..]| ==> sum + pool[1..][i].length > Limit by {
          forall i | 0 <= i < |pool[1..]| ensures sum + pool[1..][i].length > Limit {
            assert pool[1..][i] == pool[i + 1];
          }
        }
        assert pool == [pool[0]] + pool[1..];
      }
    }
  }

  /** The scan has hit `break`: its last accepted item made the sum 500 or 1000. */
  predicate Stopped(r: ScanResult) {
    r.taken != [] && IsTarget(r.total)
  }

  /** One iteration of the `for` loop over item `x`, written left to right: after
      the `break` every item stays in the pool; otherwise `x` is accepted when it
      keeps the sum at most 1000 and left in the pool when it does not. */
  function ScanStep(r: ScanResult, x: Item): ScanResult {
    if Stopped(r) || r.total + x.length > Limit then ScanResult(r.taken, r.rest + [x], r.total)
    else ScanResult(r.taken + [x], r.rest, r.total + x.length)
  }

  /** The scan is the source's loop: its result on the first `k + 1` items is one
      loop step applied to its result on the first `k`. With `Scan([], sum)`
      this fixes the result on every pool. */
  lemma {:induction false} ScanSnoc(pool: seq<Item>, sum: nat, k: nat)
    requires sum <= Limit && k < |pool|
    ensures Scan(pool[..k + 1], sum) == ScanStep(Scan(pool[..k], sum), pool[k])
    decreases k, 1
  {
    var x := pool[0];
    if k == 0 {
      assert pool[..1] == [x] && [x][1..] == [] && pool[..0] == [];
      assert [x] + [] == [x] && [] + [x] == [x];
    } else if sum + x.length > Limit {
      SnocSkip(pool, sum, k);
    } else if IsTarget(sum + x.length) {
      SnocStopped(pool, sum, k);
    } else {
      SnocTake(pool, sum, k);
    }
  }

  /** `ScanSnoc` when the head of the pool overflows 1000 and stays in the pool. */
  lemma {:induction false} SnocSkip(pool: seq<Item>, sum: nat, k: nat)
    requires 0 < k < |pool| && sum <= Limit < sum + pool[0].length
    ensures Scan(pool[..k + 1], sum) == ScanStep(Scan(pool[..k], sum), pool[k])
    decreases k, 0
  {
    var x, tail, y := pool[0], pool[1..], pool[k];
    assert pool[..k + 1][0] == x && pool[..k][0] == x;
    assert pool[..k + 1][1..] == tail[..k] && pool[..k][1..] == tail[..k - 1];
    assert tail[k - 1] == y;
    ScanSnoc(tail, sum, k - 1);
    var r0 := Scan(tail[..k - 1], sum);
    assert [x] + r0.rest + [y] == [x] + (r0.rest + [y]);
  }

  /** `ScanSnoc` when the head of the pool alone reaches a target: the scan stops at once. */
  lemma SnocStopped(pool: seq<Item>, sum: nat, k: nat)
    requires 0 < k < |pool| && sum + pool[0].length <= Limit && IsTarget(sum + pool[0].length)
    ensures Scan(pool[..k + 1], sum) == ScanStep(Scan(pool[..k], sum), pool[k])
  {
    var x, tail, y := pool[0], pool[1..], pool[k];
    assert pool[..k + 1][0] == x && pool[..k][0] == x;
    assert pool[..k + 1][1..] == tail[..k] && pool[..k][1..] == tail[..k - 1];
    assert tail[..k - 1] + [y] == tail[..k];
  }

  /** `ScanSnoc` when the head of the pool is accepted without reaching a target. */
  lemma {:induction false} SnocTake(pool: seq<Item>, sum: nat, k: nat)
    requires 0 < k < |pool| && sum + pool[0].length <= Limit && !IsTarget(sum + pool[0].length)
    ensures Scan(pool[..k + 1], sum) == ScanStep(Scan(pool[..k], sum), pool[k])
    decreases k, 0
  {
    var x, tail, y := pool[0], pool[1..], pool[k];
    assert pool[..k + 1][0] == x && pool[..k][0] == x;
    assert pool[..k + 1][1..] == tail[..k] && pool[..k][1..] == tail[..k - 1];
    assert tail[k - 1] == y;
    ScanSnoc(tail, sum + x.length, k - 1);
    ScanTotal(tail[..k - 1], sum + x.length);
    var r0 := Scan(tail[..k - 1], sum + x.length);
    assert [x] + r0.taken + [y] == [x] + (r0.taken + [y]);
  }

  // ---------------------------------------------------------------------------
  // The repair step

  /** The pool without every item of length `v` (removal by value, not by position). */
  function RemoveLength(pool: seq<Item>, v: nat): (r: seq<Item>)
    ensures IsSubseq(r, pool)
    ensures forall x :: multiset(r)[x] == if x.length == v then 0 else multiset(pool)[x]
    decreases |pool|
  {
    if pool == [] then []
    else
      var t := RemoveLength(pool[1..], v);
      assert multiset(pool) == multiset{pool[0]} + multiset(pool[1..]) by {
        assert pool == [pool[0]] + pool[1..];
      }
      if pool[0].length == v then
        SubseqSkip(t, pool);
        t
      else
        SubseqKeep(t, pool);
        [pool[0]] + t
  }

  /** No running sum `sum + t[0] + ... + t[k-1]` with `0 < k < |t|` equals 500. */
  predicate NoEarlyHalf(sum: nat, t: seq<nat>)
    decreases |t|
  {
    |t| <= 1 || (sum + t[0] != Half && NoEarlyHalf(sum + t[0], t[1..]))
  }

  /** Lengths the repair step accepted, the pool it left, and the sum it reached. */
  datatype RepairResult = RepairResult(added: seq<nat>, pool: seq<Item>, total: nat)

  /** Walk the ascending leftover lengths `values`, adding each one that keeps the
      sum at most 500 and removing every pool item of that length; stop at exactly 500. */
  function Repair(values: seq<nat>, pool: seq<Item>, sum: nat): (r: RepairResult)
    ensures r.total == sum + SumOf(r.added)
    ensures r.added != [] ==> r.total <= Half
    decreases |values|
  {
    if values == [] then RepairResult([], pool, sum)
    else
      var v := values[0];
      if sum + v <= Half then
        var pool' := RemoveLength(pool, v);
        if sum + v == Half then
          RepairResult([v], pool', sum + v)
        else
          var r := Repair(values[1..], pool', sum + v);
          assert ([v] + r.added)[1..] == r.added;
          RepairResult([v] + r.added, r.pool, r.total)
      else
        Repair(values[1..], pool, sum)
  }

  /** The repair step stops at the first sum equal to 500. */
  lemma {:induction false} RepairStopsAtHalf(values: seq<nat>, pool: seq<Item>, sum: nat)
    ensures NoEarlyHalf(sum, Repair(values, pool, sum).added)
    decreases |values|
  {
    if values != [] {
      var v := values[0];
      if sum + v < Half {
        RepairStopsAtHalf(values[1..], RemoveLength(pool, v), sum + v);
        var r := Repair(values[1..], RemoveLength(pool, v), sum + v);
        assert ([v] + r.added)[1..] == r.added;
      } else if sum + v > Half {
        RepairStopsAtHalf(values[1..], pool, sum);
      }
    }
  }

  /** When every value would take the sum past 500 the repair step changes nothing. */
  lemma {:induction false} RepairIdle(values: seq<nat>, pool: seq<Item>, sum: nat)
    requires forall k :: 0 <= k < |values| ==> sum + values[k] > Half
    ensures Repair(values, pool, sum) == RepairResult([], pool, sum)
    decreases |values|
  {
    if values != [] {
      assert forall k :: 0 <= k < |values[1..]| ==> values[1..][k] == values[k + 1];
      RepairIdle(values[1..], pool, sum);
    }
  }

  /** The repair step accepts lengths in the order it walks them and only
      deletes items from the pool. */
  lemma {:induction false} RepairSubseq(values: seq<nat>, pool: seq<Item>, sum: nat)
    ensures var r := Repair(values, pool, sum);
            IsSubseq(r.added, values) && IsSubseq(r.pool, pool)
    decreases |values|
  {
    var r := Repair(values, pool, sum);
    if values == [] {
      SubseqRefl(pool);
    } else {
      var v := values[0];
      if sum + v <= Half {
        var pool' := RemoveLength(pool, v);
        if sum + v == Half {
          SubseqRefl(values[1..]);
          SubseqKeep([], values);
        } else {
          RepairSubseq(values[1..], pool', sum + v);
          var r' := Repair(values[1..], pool', sum + v);
          SubseqKeep(r'.added, values);
          SubseqTrans(r'.pool, pool', pool);
        }
      } else {
        RepairSubseq(values[1..], pool, sum);
        SubseqSkip(r.added, values);
      }
    }
  }

  /** The repair step removes pool items by value: an item survives exactly when
      its length was never accepted, and then with all its occurrences. */
  lemma {:induction false} RepairRemovesByValue(values: seq<nat>, pool: seq<Item>, sum: nat)
    ensures var r := Repair(values, pool, sum);
            forall x :: multiset(r.pool)[x] == if x.length in r.added then 0 else multiset(pool)[x]
    decreases |values|
  {
    if values != [] {
      var v := values[0];
      if sum + v <= Half {
        var pool' := RemoveLength(pool, v);
        if sum + v != Half {
          RepairRemovesByValue(values[1..], pool', sum + v);
        }
      } else {
        RepairRemovesByValue(values[1..], pool, sum);
      }
    }
  }

  /** Unless it reached 500, the repair step took every value it could: each
      value it skipped would have taken the sum past 500. */
  lemma {:induction false} RepairMaximal(values: seq<nat>, pool: seq<Item>, sum: nat)
    ensures Repair(values, pool, sum).total == Half
         || forall k :: 0 <= k < |values| ==>
              values[k] in Repair(values, pool, sum).added || Repair(values, pool, sum).total + values[k] > Half
    decreases |values|
  {
    if values != [] {
      var v := values[0];
      var tail := values[1..];
      if sum + v <= Half {
        if sum + v != Half {
          var pool' := RemoveLength(pool, v);
          RepairMaximal(tail, pool', sum + v);
          var r := Repair(tail, pool', sum + v);
          assert Repair(values, pool, sum) == RepairResult([v] + r.added, r.pool, r.total);
          assert forall k :: 1 <= k < |values| ==> values[k] == tail[k - 1];
        }
      } else {
        RepairMaximal(tail, pool, sum);
        assert Repair(values, pool, sum) == Repair(tail, pool, sum);
        assert forall k :: 1 <= k < |values| ==> values[k] == tail[k - 1];
      }
    }
  }

  // ---------------------------------------------------------------------------
  // Members of the group being built

  /** An element of the group under construction: scanned circuits carry their
      id, lengths added by the repair step carry none. */
  datatype Entry = Entry(id: Option<CircuitId>, length: nat)

  function Scanned(t: seq<Item>): seq<Entry> {
    seq(|t|, i requires 0 <= i < |t| => Entry(Some(t[i].id), t[i].length))
  }

  function TopUp(values: seq<nat>): seq<Entry> {
    seq(|values|, i requires 0 <= i < |values| => Entry(None, values[i]))
  }

  /** The ids of the entries that have one, in order. */
  function Known(es: seq<Entry>): seq<CircuitId> {
    if es == [] then []
    else if es[0].id.Some? then [es[0].id.value] + Known(es[1..])
    else Known(es[1..])
  }

  lemma {:induction false} KnownConcat(a: seq<Entry>, b: seq<Entry>)
    ensures Known(a + b) == Known(a) + Known(b)
    decreases |a|
  {
    if a == [] {
      assert a + b == b;
    } else {
      assert (a + b)[1..] == a[1..] + b;
      KnownConcat(a[1..], b);
    }
  }

  lemma {:induction false} KnownScanned(t: seq<Item>)
    ensures Known(Scanned(t)) == Ids(t)
    decreases |t|
  {
    if t != [] {
      assert Scanned(t)[1..] == Scanned(t[1..]);
      KnownScanned(t[1..]);
      IdsConcat([t[0]], t[1..]);
      assert t == [t[0]] + t[1..];
    }
  }

  lemma {:induction false} KnownTopUp(values: seq<nat>)
    ensures Known(TopUp(values)) == []
    decreases |values|
  {
    if values != [] {
      assert TopUp(values)[1..] == TopUp(values[1..]);
      KnownTopUp(values[1..]);
    }
  }

  /** The combination of a group closed after repair lists exactly the scanned
      circuits: the lengths added by repair are recorded without an id and filtered out. */
  lemma TopUpIdsFiltered(t: seq<Item>, values: seq<nat>)
    ensures Known(Scanned(t) + TopUp(values)) == Ids(t)
  {
    KnownConcat(Scanned(t), TopUp(values));
    KnownScanned(t);
    KnownTopUp(values);
  }

  // ---------------------------------------------------------------------------
  // One pass of the outer loop

  datatype Record = GroupRecord(group: Group) | SurplusRecord(surplus: Surplus) | NoRecord

  /** What one pass emitted, the scanned circuits it consumed, the lengths the
      repair step added, and the pool left for the next pass. */
  datatype PassResult = PassResult(record: Record, members: seq<Item>, topUp: seq<nat>, pool: seq<Item>)

  /** After a scan that missed both targets every leftover length overflows 500. */
  lemma RepairFindsNothing(values: seq<nat>, rest: seq<Item>, total: nat)
    requires multiset(values) == multiset(Lengths(rest))
    requires forall i :: 0 <= i < |rest| ==> total + rest[i].length > Limit
    ensures forall k :: 0 <= k < |values| ==> total + values[k] > Half
  {
    forall k | 0 <= k < |values|
      ensures total + values[k] > Half
    {
      assert values[k] in multiset(Lengths(rest));
      var i :| 0 <= i < |rest| && Lengths(rest)[i] == values[k];
    }
  }

  /** One iteration of the `while sorted_values` loop: what it emits. */
  function Pass(color: Color, pool: seq<Item>): (r: PassResult)
    ensures Sum(r.members) <= Limit
    ensures NoEarlyHit(0, r.members)
    // the repair step never finds a length to add
    ensures r.topUp == []
    ensures r.record.GroupRecord? ==>
              var g := r.record.group;
              && g.color == color && ValidGroup(g)
              && g.total == Sum(r.members) + SumOf(r.topUp)
              && g.combination == Ids(r.members)
    ensures r.record.SurplusRecord? ==>
              var s := r.record.surplus;
              && s.color == color && FreshSurplus(s)
              && s.excedente == Sum(r.members) + SumOf(r.topUp)
              && s.combination == Ids(r.members)
    ensures r.record.NoRecord? <==> Sum(r.members) == 0
    ensures r.members == Scan(pool, 0).taken && r.pool == Scan(pool, 0).rest
  {
    var scan := Scan(pool, 0);
    ScanTotal(pool, 0);
    if IsTarget(scan.total) then
      PassResult(GroupRecord(Group(color, Ids(scan.taken), scan.total, scan.total)), scan.taken, [], scan.rest)
    else if scan.total == 0 then
      PassResult(NoRecord, scan.taken, [], scan.rest)
    else
      var values := SortAsc(Lengths(scan.rest));
      ScanMaximal(pool, 0);
      RepairFindsNothing(values, scan.rest, scan.total);
      var repair := Repair(values, scan.rest, scan.total);
      RepairIdle(values, scan.rest, scan.total);
      var group := Scanned(scan.taken) + TopUp(repair.added);
      TopUpIdsFiltered(scan.taken, repair.added);
      if IsTarget(repair.total) then
        PassResult(GroupRecord(Group(color, Known(group), repair.total, repair.total)), scan.taken, repair.added, repair.pool)
      else
        PassResult(SurplusRecord(Surplus(color, Known(group), repair.total)), scan.taken, repair.added, repair.pool)
  }

  /** What one pass leaves in the pool: the scanned circuits removed by
      position, the rest kept in their original order. */
  lemma PassPool(color: Color, pool: seq<Item>)
    ensures var r := Pass(color, pool);
            && IsSubseq(r.members, pool) && IsSubseq(r.pool, pool)
            && (SortedDesc(pool) ==> SortedDesc(r.pool))
  {
    ScanSubseq(pool, 0);
    SubseqSorted(Scan(pool, 0).rest, pool);
  }

  /** Nothing is lost or duplicated by a pass: the members and the remaining
      pool together are exactly the pool it started from, and so are their ids. */
  lemma PassPartition(color: Color, pool: seq<Item>)
    ensures var r := Pass(color, pool);
            && multiset(r.members) + multiset(r.pool) == multiset(pool)
            && multiset(Ids(r.members)) + multiset(Ids(r.pool)) == multiset(Ids(pool))
  {
    var s := Scan(pool, 0);
    ScanPartition(pool, 0);
    IdsPartition(s.taken, s.rest, pool);
  }

  /** Every pass consumes the head of the pool when it fits; a pool of items
      longer than 1000 is left as it was, so the outer loop makes no progress. */
  lemma PassProgress(color: Color, pool: seq<Item>)
    ensures var r := Pass(color, pool);
            && (|pool| > 0 && pool[0].length <= Limit ==> |r.pool| < |pool|)
            && ((forall i :: 0 <= i < |pool| ==> pool[i].length > Limit) ==> r.record.NoRecord? && r.pool == pool)
  {
    var s := Scan(pool, 0);
    ScanPartition(pool, 0);
    ScanProgress(pool, 0);
    assert |multiset(s.taken)| + |multiset(s.rest)| == |multiset(pool)|;
  }

  // ---------------------------------------------------------------------------
  // The whole outer loop for one colour

  datatype Packed = Packed(groups: seq<Group>, surpluses: seq<Surplus>)

  function PackedIds(p: Packed): seq<CircuitId> {
    GroupIds(p.groups) + SurplusIds(p.surpluses)
  }

  /** Puts the record of one pass in front of the records of the later passes. */
  function Prepend(rec: Record, rest: Packed): Packed {
    match rec
    case GroupRecord(g) => Packed([g] + rest.groups, rest.surpluses)
    case SurplusRecord(s) => Packed(rest.groups, [s] + rest.surpluses)
    case NoRecord => rest
  }

  /** Runs passes until the pool is empty; groups and surpluses are listed in the
      order the passes emit them. */
  function Pack(color: Color, pool: seq<Item>): (r: Packed)
    requires AllFit(pool)
    ensures forall i :: 0 <= i < |r.groups| ==> r.groups[i].color == color && ValidGroup(r.groups[i])
    ensures forall i :: 0 <= i < |r.surpluses| ==> r.surpluses[i].color == color && FreshSurplus(r.surpluses[i])
    // no circuit is emitted more often than it occurs in the pool
    ensures multiset(PackedIds(r)) <= multiset(Ids(pool))
    // every circuit of positive length is emitted
    ensures Covered(pool, PackedIds(r))
    decreases |pool|
  {
    if pool == [] then Packed([], [])
    else
      var p := Pass(color, pool);
      PassPartition(color, pool);
      PassProgress(color, pool);
      PassFits(color, pool);
      var rest := Pack(color, p.pool);
      PackStepValid(color, p.record, rest);
      PackStepIds(color, pool, p, rest);
      PackStepCover(color, pool, p, rest);
      Prepend(p.record, rest)
  }

  /** A pass leaves only circuits of its pool behind. */
  lemma PassFits(color: Color, pool: seq<Item>)
    requires AllFit(pool)
    ensures AllFit(Pass(color, pool).pool)
  {
    PassPartition(color, pool);
    var q := Pass(color, pool).pool;
    forall i | 0 <= i < |q| ensures q[i].length <= Limit {
      assert q[i] in multiset(pool);
    }
  }

  /** The record a pass puts in front of the later records is a valid one of the colour. */
  lemma PackStepValid(color: Color, rec: Record, rest: Packed)
    requires rec.GroupRecord? ==> rec.group.color == color && ValidGroup(rec.group)
    requires rec.SurplusRecord? ==> rec.surplus.color == color && FreshSurplus(rec.surplus)
    requires forall i :: 0 <= i < |rest.groups| ==> rest.groups[i].color == color && ValidGroup(rest.groups[i])
    requires forall i :: 0 <= i < |rest.surpluses| ==> rest.surpluses[i].color == color && FreshSurplus(rest.surpluses[i])
    ensures var r := Prepend(rec, rest);
            && (forall i :: 0 <= i < |r.groups| ==> r.groups[i].color == color && ValidGroup(r.groups[i]))
            && (forall i :: 0 <= i < |r.surpluses| ==> r.surpluses[i].color == color && FreshSurplus(r.surpluses[i]))
  {
    var r := Prepend(rec, rest);
    match rec
    case GroupRecord(g) =>
      assert forall i :: 1 <= i < |r.groups| ==> r.groups[i] == rest.groups[i - 1];
    case SurplusRecord(s) =>
      assert forall i :: 1 <= i < |r.surpluses| ==> r.surpluses[i] == rest.surpluses[i - 1];
    case NoRecord =>
  }

  /** The circuits a record lists; a pass that emits nothing lists none. */
  function RecordIds(rec: Record): seq<CircuitId> {
    match rec
    case GroupRecord(g) => g.combination
    case SurplusRecord(s) => s.combination
    case NoRecord => []
  }

  lemma PrependIds(rec: Record, rest: Packed)
    ensures multiset(PackedIds(Prepend(rec, rest))) == multiset(RecordIds(rec)) + multiset(PackedIds(rest))
  {
    match rec
    case GroupRecord(g) =>
      assert GroupIds([g] + rest.groups) == g.combination + GroupIds(rest.groups);
    case SurplusRecord(s) =>
      assert SurplusIds([s] + rest.surpluses) == s.combination + SurplusIds(rest.surpluses);
    case NoRecord =>
  }

  /** The ids a pass emits are the ids of its members, so adding them to what the
      later passes emit from the remaining pool stays within the ids of the pool. */
  lemma PackStepIds(color: Color, pool: seq<Item>, p: PassResult, rest: Packed)
    requires p == Pass(color, pool)
    requires multiset(PackedIds(rest)) <= multiset(Ids(p.pool))
    ensures multiset(PackedIds(Prepend(p.record, rest))) <= multiset(Ids(pool))
  {
    PassPartition(color, pool);
    PrependIds(p.record, rest);
    assert multiset(RecordIds(p.record)) <= multiset(Ids(p.members));
  }

  /** Each circuit of positive length is either a member of the pass, and then
      listed by its record, or still in the pool for the later passes. */
  lemma PackStepCover(color: Color, pool: seq<Item>, p: PassResult, rest: Packed)
    requires p == Pass(color, pool)
    requires Covered(p.pool, PackedIds(rest))
    ensures Covered(pool, PackedIds(Prepend(p.record, rest)))
  {
    PassPartition(color, pool);
    PrependIds(p.record, rest);
    forall i | 0 <= i < |pool| && pool[i].length > 0
      ensures pool[i].id in multiset(PackedIds(Prepend(p.record, rest)))
    {
      var x := pool[i];
      assert x in multiset(pool);
      if x in p.members {
        MemberListed(color, pool, x);
      } else {
        var j :| 0 <= j < |p.pool| && p.pool[j] == x;
        assert x.id in multiset(PackedIds(rest));
      }
    }
  }

  /** A member of positive length is listed by the record of its pass. */
  lemma MemberListed(color: Color, pool: seq<Item>, x: Item)
    requires x in Pass(color, pool).members && x.length > 0
    ensures x.id in multiset(RecordIds(Pass(color, pool).record))
  {
    var p := Pass(color, pool);
    SumBoundsMember(p.members, x);
    var i :| 0 <= i < |p.members| && p.members[i] == x;
    assert RecordIds(p.record)[i] == x.id;
  }

  // ---------------------------------------------------------------------------
  // The circuits behind each record

  /** For each group and each surplus of a `Packed`, the circuits it was built from. */
  datatype Members = Members(groups: seq<seq<Item>>, surpluses: seq<seq<Item>>)

  function Flatten(ss: seq<seq<Item>>): seq<Item> {
    if ss == [] then [] else ss[0] + Flatten(ss[1..])
  }

  /** Each group lists exactly the circuits of its member list, and its total is their length. */
  predicate GroupsBuiltFrom(gs: seq<Group>, ms: seq<seq<Item>>) {
    |gs| == |ms| && forall i :: 0 <= i < |gs| ==> gs[i].combination == Ids(ms[i]) && gs[i].total == Sum(ms[i])
  }

  /** Each surplus lists exactly the circuits of its member list, and its leftover is their length. */
  predicate SurplusesBuiltFrom(ss: seq<Surplus>, ms: seq<seq<Item>>) {
    |ss| == |ms| && forall i :: 0 <= i < |ss| ==> ss[i].combination == Ids(ms[i]) && ss[i].excedente == Sum(ms[i])
  }

  /** `Prepend`, on the member lists: the members of a pass go wherever its record goes. */
  function PrependMembers(rec: Record, t: seq<Item>, rest: Members): Members {
    match rec
    case GroupRecord(_) => Members([t] + rest.groups, rest.surpluses)
    case SurplusRecord(_) => Members(rest.groups, [t] + rest.surpluses)
    case NoRecord => rest
  }

  /** The member lists of the records `Pack` emits, pass by pass. */
  function PackMembers(color: Color, pool: seq<Item>): Members
    requires AllFit(pool)
    decreases |pool|
  {
    if pool == [] then Members([], [])
    else
      var p := Pass(color, pool);
      PassProgress(color, pool);
      PassFits(color, pool);
      PrependMembers(p.record, p.members, PackMembers(color, p.pool))
  }

  /** Every group and surplus of `Pack` is built from its own member list: it
      lists their ids and totals their lengths; and the member lists together
      use each circuit of the pool at most once. */
  lemma PackBuiltFromMembers(color: Color, pool: seq<Item>)
    requires AllFit(pool)
    ensures GroupsBuiltFrom(Pack(color, pool).groups, PackMembers(color, pool).groups)
    ensures SurplusesBuiltFrom(Pack(color, pool).surpluses, PackMembers(color, pool).surpluses)
    ensures var m := PackMembers(color, pool);
            multiset(Flatten(m.groups) + Flatten(m.surpluses)) <= multiset(pool)
  {
    PackBuiltFrom(color, pool);
    PackMembersWithin(color, pool);
  }

  lemma {:induction false} PackBuiltFrom(color: Color, pool: seq<Item>)
    requires AllFit(pool)
    ensures GroupsBuiltFrom(Pack(color, pool).groups, PackMembers(color, pool).groups)
    ensures SurplusesBuiltFrom(Pack(color, pool).surpluses, PackMembers(color, pool).surpluses)
    decreases |pool|
  {
    if pool != [] {
      var p := Pass(color, pool);
      PassProgress(color, pool);
      PassFits(color, pool);
      PackBuiltFrom(color, p.pool);
      PrependBuilt(p.record, p.members, Pack(color, p.pool), PackMembers(color, p.pool));
    }
  }

  lemma {:induction false} PackMembersWithin(color: Color, pool: seq<Item>)
    requires AllFit(pool)
    ensures var m := PackMembers(color, pool);
            multiset(Flatten(m.groups) + Flatten(m.surpluses)) <= multiset(pool)
    decreases |pool|
  {
    if pool != [] {
      var p := Pass(color, pool);
      PassProgress(color, pool);
      PassFits(color, pool);
      PassPartition(color, pool);
      PackMembersWithin(color, p.pool);
      PrependWithin(p.record, p.members, PackMembers(color, p.pool));
    }
  }

  /** One step of `PackBuiltFrom`: a record built from `t` goes in front, together with `t`. */
  lemma PrependBuilt(rec: Record, t: seq<Item>, rest: Packed, m: Members)
    requires rec.GroupRecord? ==> rec.group.combination == Ids(t) && rec.group.total == Sum(t)
    requires rec.SurplusRecord? ==> rec.surplus.combination == Ids(t) && rec.surplus.excedente == Sum(t)
    requires GroupsBuiltFrom(rest.groups, m.groups) && SurplusesBuiltFrom(rest.surpluses, m.surpluses)
    ensures GroupsBuiltFrom(Prepend(rec, rest).groups, PrependMembers(rec, t, m).groups)
    ensures SurplusesBuiltFrom(Prepend(rec, rest).surpluses, PrependMembers(rec, t, m).surpluses)
  {
    match rec
    case GroupRecord(g) =>
      assert forall i :: 1 <= i < |[g] + rest.groups| ==> ([g] + rest.groups)[i] == rest.groups[i - 1];
    case SurplusRecord(s) =>
      assert forall i :: 1 <= i < |[s] + rest.surpluses| ==> ([s] + rest.surpluses)[i] == rest.surpluses[i - 1];
    case NoRecord =>
  }

  /** One step of `PackMembersWithin`: putting `t` in front adds at most the items of `t`. */
  lemma PrependWithin(rec: Record, t: seq<Item>, m: Members)
    ensures var m' := PrependMembers(rec, t, m);
            multiset(Flatten(m'.groups) + Flatten(m'.surpluses))
              <= multiset(t) + multiset(Flatten(m.groups) + Flatten(m.surpluses))
  {
    match rec
    case GroupRecord(g) =>
      assert ([t] + m.groups)[1..] == m.groups;
    case SurplusRecord(s) =>
      assert ([t] + m.surpluses)[1..] == m.surpluses;
    case NoRecord =>
  }
}

/** The merge pass over the surplus records (the "Costums" list): a same-colour
    later record whose leftover fits with an earlier one under 500 is appended
    to it and deleted, and the scan resumes at the same position. */
module Merging {
  import opened Sequences
  import opened Cables

  /** Every leftover lies strictly between 0 and 1000. */
  predicate InRange(cs: seq<Surplus>) {
    forall k :: 0 <= k < |cs| ==> 0 < cs[k].excedente < Limit
  }

  /** Two records the merge pass joins: same colour, leftovers summing to at most 500. */
  predicate Mergeable(a: Surplus, b: Surplus) {
    a.color == b.color && a.excedente + b.excedente <= Half
  }

  /** No earlier record can absorb a later one. */
  predicate Complete(cs: seq<Surplus>) {
    forall p, q :: 0 <= p < q < |cs| ==> !Mergeable(cs[p], cs[q])
  }

  /** `a` with the circuits of `b` appended and the leftovers added. */
  function Combine(a: Surplus, b: Surplus): Surplus {
    Surplus(a.color, a.combination + b.combination, a.excedente + b.excedente)
  }

  /** Record `j` folded into record `i`, then removed from the list. */
  function MergeAt(cs: seq<Surplus>, i: nat, j: nat): (r: seq<Surplus>)
    requires i < j < |cs|
    ensures |r| == |cs| - 1
    ensures r[i] == Combine(cs[i], cs[j])
    // records before `j` other than `i` keep their place, later ones move up by one
    ensures forall k :: 0 <= k < j && k != i ==> r[k] == cs[k]
    ensures forall k :: j <= k < |r| ==> r[k] == cs[k + 1]
  {
    cs[..j][i := Combine(cs[i], cs[j])] + cs[j + 1..]
  }

  /** Total leftover of the records of colour `c`. */
  function ColorTotal(cs: seq<Surplus>, c: Color): nat {
    if cs == [] then 0
    else (if cs[0].color == c then cs[0].excedente else 0) + ColorTotal(cs[1..], c)
  }

  /** The records of colour `c`, in order. */
  function OfColor(cs: seq<Surplus>, c: Color): seq<Surplus> {
    if cs == [] then []
    else if cs[0].color == c then [cs[0]] + OfColor(cs[1..], c)
    else OfColor(cs[1..], c)
  }

  lemma {:induction false} ColorTotalConcat(a: seq<Surplus>, b: seq<Surplus>, c: Color)
    ensures ColorTotal(a + b, c) == ColorTotal(a, c) + ColorTotal(b, c)
    decreases |a|
  {
    if a != [] {
      assert (a + b)[1..] == a[1..] + b;
      ColorTotalConcat(a[1..], b, c);
    } else {
      assert a + b == b;
    }
  }

  lemma {:induction false} OfColorConcat(a: seq<Surplus>, b: seq<Surplus>, c: Color)
    ensures OfColor(a + b, c) == OfColor(a, c) + OfColor(b, c)
    decreases |a|
  {
    if a != [] {
      assert (a + b)[1..] == a[1..] + b;
      OfColorConcat(a[1..], b, c);
    } else {
      assert a + b == b;
    }
  }

  /** Filtering by colour keeps a list of that colour whole and empties a list of other colours. */
  lemma {:induction false} OfColorAllOrNone(cs: seq<Surplus>, c: Color)
    ensures (forall k :: 0 <= k < |cs| ==> cs[k].color == c) ==> OfColor(cs, c) == cs
    ensures (forall k :: 0 <= k < |cs| ==> cs[k].color != c) ==> OfColor(cs, c) == []
    decreases |cs|
  {
    if cs != [] {
      OfColorAllOrNone(cs[1..], c);
      assert forall k :: 1 <= k < |cs| ==> cs[1..][k - 1] == cs[k];
      assert cs == [cs[0]] + cs[1..];
    }
  }

  /** The list around a merge, cut at the two merged records. */
  lemma MergeAtShape(cs: seq<Surplus>, i: nat, j: nat)
    requires i < j < |cs|
    ensures cs == cs[..i] + [cs[i]] + cs[i + 1..j] + [cs[j]] + cs[j + 1..]
    ensures MergeAt(cs, i, j) == cs[..i] + [Combine(cs[i], cs[j])] + cs[i + 1..j] + cs[j + 1..]
  {
  }

  /** A merge keeps the total leftover of every colour. */
  lemma MergeAtTotals(cs: seq<Surplus>, i: nat, j: nat, c: Color)
    requires i < j < |cs| && cs[i].color == cs[j].color
    ensures ColorTotal(MergeAt(cs, i, j), c) == ColorTotal(cs, c)
  {
    var a, x, b, y, d := cs[..i], cs[i], cs[i + 1..j], cs[j], cs[j + 1..];
    var z := Combine(x, y);
    MergeAtShape(cs, i, j);
    ColorTotalConcat(a + [x] + b + [y], d, c);
    ColorTotalConcat(a + [x] + b, [y], c);
    ColorTotalConcat(a + [x], b, c);
    ColorTotalConcat(a, [x], c);
    ColorTotalConcat(a + [z] + b, d, c);
    ColorTotalConcat(a + [z], b, c);
    ColorTotalConcat(a, [z], c);
    assert [x][1..] == [] && [y][1..] == [] && [z][1..] == [];
  }

  /** A merge moves circuits between records but neither loses nor duplicates any. */
  lemma MergeAtIds(cs: seq<Surplus>, i: nat, j: nat)
    requires i < j < |cs|
    ensures multiset(SurplusIds(MergeAt(cs, i, j))) == multiset(SurplusIds(cs))
  {
    MergeAtShape(cs, i, j);
    IdsMerged(cs[..i], cs[i], cs[i + 1..j], cs[j], cs[j + 1..]);
  }

  /** Folding `y` into `x` keeps the multiset of circuits of the list around them. */
  lemma IdsMerged(a: seq<Surplus>, x: Surplus, b: seq<Surplus>, y: Surplus, d: seq<Surplus>)
    ensures multiset(SurplusIds(a + [Combine(x, y)] + b + d)) == multiset(SurplusIds(a + [x] + b + [y] + d))
  {
    var ia, ix, ib, iy, id := SurplusIds(a), x.combination, SurplusIds(b), y.combination, SurplusIds(d);
    IdsAround(a, Combine(x, y), b, d);
    assert SurplusIds(a + [Combine(x, y)] + b + d) == ia + (ix + iy) + ib + id;
    IdsFive(a, x, b, y, d);
    MultisetMove(ia, ix, ib, iy, id);
  }

  lemma IdsFive(a: seq<Surplus>, x: Surplus, b: seq<Surplus>, y: Surplus, d: seq<Surplus>)
    ensures SurplusIds(a + [x] + b + [y] + d)
         == SurplusIds(a) + x.combination + SurplusIds(b) + y.combination + SurplusIds(d)
  {
    assert SurplusIds([x]) == x.combination by { assert [x][1..] == []; }
    assert SurplusIds([y]) == y.combination by { assert [y][1..] == []; }
    var ax := a + [x];
    SurplusIdsConcat(a, [x]);
    var axb := ax + b;
    SurplusIdsConcat(ax, b);
    assert SurplusIds(axb) == SurplusIds(a) + x.combination + SurplusIds(b);
    var axby := axb + [y];
    SurplusIdsConcat(axb, [y]);
    assert SurplusIds(axby) == SurplusIds(a) + x.combination + SurplusIds(b) + y.combination;
    SurplusIdsConcat(axby, d);
  }

  /** The ids of `a + [m] + b + d` are those of the pieces, in order. */
  lemma IdsAround(a: seq<Surplus>, m: Surplus, b: seq<Surplus>, d: seq<Surplus>)
    ensures SurplusIds(a + [m] + b + d) == SurplusIds(a) + m.combination + SurplusIds(b) + SurplusIds(d)
  {
    assert SurplusIds([m]) == m.combination by { assert [m][1..] == []; }
    var am := a + [m];
    SurplusIdsConcat(a, [m]);
    var amb := am + b;
    SurplusIdsConcat(am, b);
    assert SurplusIds(amb) == SurplusIds(a) + m.combination + SurplusIds(b);
    SurplusIdsConcat(amb, d);
  }

  /** A merge leaves the records of every other colour exactly as they were. */
  lemma MergeAtOtherColors(cs: seq<Surplus>, i: nat, j: nat, c: Color)
    requires i < j < |cs| && cs[i].color == cs[j].color && c != cs[i].color
    ensures OfColor(MergeAt(cs, i, j), c) == OfColor(cs, c)
  {
    var a, x, b, y, d := cs[..i], cs[i], cs[i + 1..j], cs[j], cs[j + 1..];
    var z := Combine(x, y);
    MergeAtShape(cs, i, j);
    OfColorConcat(a + [x] + b + [y], d, c);
    OfColorConcat(a + [x] + b, [y], c);
    OfColorConcat(a + [x], b, c);
    OfColorConcat(a, [x], c);
    OfColorConcat(a + [z] + b, d, c);
    OfColorConcat(a + [z], b, c);
    OfColorConcat(a, [z], c);
    assert [x][1..] == [] && [y][1..] == [] && [z][1..] == [];
  }

  /** The records of colour `c` before and after a merge, cut at the two merged records. */
  lemma OfColorShape(cs: seq<Surplus>, i: nat, j: nat, c: Color)
    requires i < j < |cs|
    ensures var a, b, d := OfColor(cs[..i], c), OfColor(cs[i + 1..j], c), OfColor(cs[j + 1..], c);
            && OfColor(cs, c) == a + OfColor([cs[i]], c) + b + OfColor([cs[j]], c) + d
            && OfColor(MergeAt(cs, i, j), c) == a + OfColor([Combine(cs[i], cs[j])], c) + b + d
  {
    var a, x, b, y, d := cs[..i], cs[i], cs[i + 1..j], cs[j], cs[j + 1..];
    var z := Combine(x, y);
    MergeAtShape(cs, i, j);
    OfColorConcat(a + [x] + b + [y], d, c);
    OfColorConcat(a + [x] + b, [y], c);
    OfColorConcat(a + [x], b, c);
    OfColorConcat(a, [x], c);
    OfColorConcat(a + [z] + b, d, c);
    OfColorConcat(a + [z], b, c);
    OfColorConcat(a, [z], c);
  }

  /** A merge neither loses nor duplicates a circuit among the records of any one colour. */
  lemma MergeAtColorIds(cs: seq<Surplus>, i: nat, j: nat, c: Color)
    requires i < j < |cs| && cs[i].color == cs[j].color
    ensures multiset(SurplusIds(OfColor(MergeAt(cs, i, j), c))) == multiset(SurplusIds(OfColor(cs, c)))
  {
    if c != cs[i].color {
      MergeAtOtherColors(cs, i, j, c);
    } else {
      var x, y := cs[i], cs[j];
      OfColorShape(cs, i, j, c);
      assert [x][1..] == [] && [y][1..] == [] && [Combine(x, y)][1..] == [];
      assert OfColor([x], c) == [x] && OfColor([y], c) == [y];
      assert OfColor([Combine(x, y)], c) == [Combine(x, y)];
      IdsMerged(OfColor(cs[..i], c), x, OfColor(cs[i + 1..j], c), y, OfColor(cs[j + 1..], c));
    }
  }

  /** `now` is what became of the input record `orig`: same colour, the original
      circuits followed by absorbed ones, a leftover at least as large, and at
      most 500 once anything was absorbed. */
  predicate Survives(orig: Surplus, now: Surplus) {
    && now.color == orig.color
    && orig.combination <= now.combination
    && orig.excedente <= now.excedente
    && (now == orig || now.excedente <= Half)
  }

  /** Record `k` of `r` descends from record `keep[k]` of `cs`, and the
      surviving records are in their original relative order. */
  ghost predicate Survivors(cs: seq<Surplus>, r: seq<Surplus>, keep: seq<nat>) {
    && |keep| == |r|
    && (forall k :: 0 <= k < |keep| ==> keep[k] < |cs| && Survives(cs[keep[k]], r[k]))
    && (forall a, b :: 0 <= a < b < |keep| ==> keep[a] < keep[b])
  }

  /** Folding record `j` into record `i` keeps the descent of every survivor. */
  lemma MergeAtSurvivors(cs: seq<Surplus>, r: seq<Surplus>, keep: seq<nat>, i: nat, j: nat)
    requires Survivors(cs, r, keep) && i < j < |r| && Mergeable(r[i], r[j])
    ensures Survivors(cs, MergeAt(r, i, j), keep[..j] + keep[j + 1..])
  {
    var r' := MergeAt(r, i, j);
    var keep' := keep[..j] + keep[j + 1..];
    assert forall k :: 0 <= k < j ==> keep'[k] == keep[k];
    assert forall k :: j <= k < |keep'| ==> keep'[k] == keep[k + 1];
    forall k | 0 <= k < |keep'|
      ensures keep'[k] < |cs| && Survives(cs[keep'[k]], r'[k])
    {
      if k == i {
        var o := cs[keep[i]];
        assert o.combination <= r[i].combination;
        assert o.combination <= r'[i].combination;
      }
    }
  }

  /** Record `i` grows by a merge, so the later records it could not absorb
      before it still cannot absorb. */
  lemma MergeAtHeadApart(r: seq<Surplus>, i: nat, j: nat)
    requires i < j < |r| && forall q :: i < q < j ==> !Mergeable(r[i], r[q])
    ensures forall q :: i < q < j ==> !Mergeable(MergeAt(r, i, j)[i], MergeAt(r, i, j)[q])
  {
  }

  /** A merge into record `i` gives no earlier record a new partner. */
  lemma MergeAtPrefixApart(r: seq<Surplus>, i: nat, j: nat)
    requires i < j < |r| && r[i].color == r[j].color
    requires forall p, q :: 0 <= p < i && p < q < |r| ==> !Mergeable(r[p], r[q])
    ensures forall p, q :: 0 <= p < i && p < q < |r| - 1 ==> !Mergeable(MergeAt(r, i, j)[p], MergeAt(r, i, j)[q])
  {
    var r' := MergeAt(r, i, j);
    forall p, q | 0 <= p < i && p < q < |r'|
      ensures !Mergeable(r'[p], r'[q])
    {
      if q == i {
        assert !Mergeable(r[p], r[i]);
      } else if q < j {
        assert !Mergeable(r[p], r[q]);
      } else {
        assert !Mergeable(r[p], r[q + 1]);
      }
    }
  }

  lemma SurvivorsRefl(cs: seq<Surplus>) returns (keep: seq<nat>)
    ensures Survivors(cs, cs, keep)
  {
    keep := seq(|cs|, k requires 0 <= k < |cs| => k);
  }

  /** Survival composes: a survivor of a survivor survives the original. */
  lemma SurvivorsCompose(cs: seq<Surplus>, s: seq<Surplus>, r: seq<Surplus>, keep1: seq<nat>, keep2: seq<nat>)
    returns (keep: seq<nat>)
    requires Survivors(cs, s, keep1) && Survivors(s, r, keep2)
    ensures Survivors(cs, r, keep)
  {
    keep := seq(|keep2|, k requires 0 <= k < |keep2| => keep1[keep2[k]]);
  }

  // ---------------------------------------------------------------------------
  // The two loops of the merge pass as functions

  /** The inner loop for record `i`, positioned at `j`: a later record that fits
      with record `i` is folded into it and the walk stays at `j`; otherwise it
      moves on. */
  function Absorb(r: seq<Surplus>, i: nat, j: nat): (r': seq<Surplus>)
    requires i < j <= |r|
    ensures i < |r'| <= |r|
    decreases |r| - j
  {
    if j == |r| then r
    else if Mergeable(r[i], r[j]) then Absorb(MergeAt(r, i, j), i, j)
    else Absorb(r, i, j + 1)
  }

  /** The outer loop from record `i` on. */
  function MergeFrom(r: seq<Surplus>, i: nat): (r': seq<Surplus>)
    ensures |r'| <= |r|
    decreases |r| - i
  {
    if i >= |r| then r else MergeFrom(Absorb(r, i, i + 1), i + 1)
  }

  /** After the inner loop record `i` can absorb none of the records after it. */
  lemma {:induction false} AbsorbApart(r: seq<Surplus>, i: nat, j: nat)
    requires i < j <= |r| && forall q :: i < q < j ==> !Mergeable(r[i], r[q])
    ensures forall q :: i < q < |Absorb(r, i, j)| ==> !Mergeable(Absorb(r, i, j)[i], Absorb(r, i, j)[q])
    decreases |r| - j
  {
    if j < |r| {
      if Mergeable(r[i], r[j]) {
        MergeAtHeadApart(r, i, j);
        AbsorbApart(MergeAt(r, i, j), i, j);
      } else {
        AbsorbApart(r, i, j + 1);
      }
    }
  }

  /** The inner loop for record `i` gives no earlier record a new partner. */
  lemma {:induction false} AbsorbPrefix(r: seq<Surplus>, i: nat, j: nat)
    requires i < j <= |r|
    requires forall p, q :: 0 <= p < i && p < q < |r| ==> !Mergeable(r[p], r[q])
    ensures forall p, q :: 0 <= p < i && p < q < |Absorb(r, i, j)| ==> !Mergeable(Absorb(r, i, j)[p], Absorb(r, i, j)[q])
    decreases |r| - j
  {
    if j < |r| {
      if Mergeable(r[i], r[j]) {
        MergeAtPrefixApart(r, i, j);
        AbsorbPrefix(MergeAt(r, i, j), i, j);
      } else {
        AbsorbPrefix(r, i, j + 1);
      }
    }
  }

  lemma {:induction false} AbsorbTotals(r: seq<Surplus>, i: nat, j: nat, c: Color)
    requires i < j <= |r|
    ensures ColorTotal(Absorb(r, i, j), c) == ColorTotal(r, c)
    decreases |r| - j
  {
    if j < |r| {
      if Mergeable(r[i], r[j]) {
        MergeAtTotals(r, i, j, c);
        AbsorbTotals(MergeAt(r, i, j), i, j, c);
      } else {
        AbsorbTotals(r, i, j + 1, c);
      }
    }
  }

  lemma {:induction false} AbsorbIds(r: seq<Surplus>, i: nat, j: nat)
    requires i < j <= |r|
    ensures multiset(SurplusIds(Absorb(r, i, j))) == multiset(SurplusIds(r))
    decreases |r| - j
  {
    if j < |r| {
      if Mergeable(r[i], r[j]) {
        MergeAtIds(r, i, j);
        AbsorbIds(MergeAt(r, i, j), i, j);
      } else {
        AbsorbIds(r, i, j + 1);
      }
    }
  }

  lemma {:induction false} AbsorbOthers(r: seq<Surplus>, i: nat, j: nat, c: Color)
    requires i < j <= |r| && c != r[i].color
    ensures OfColor(Absorb(r, i, j), c) == OfColor(r, c)
    decreases |r| - j
  {
    if j < |r| {
      if Mergeable(r[i], r[j]) {
        MergeAtOtherColors(r, i, j, c);
        AbsorbOthers(MergeAt(r, i, j), i, j, c);
      } else {
        AbsorbOthers(r, i, j + 1, c);
      }
    }
  }

  lemma {:induction false} AbsorbColorIds(r: seq<Surplus>, i: nat, j: nat, c: Color)
    requires i < j <= |r|
    ensures SameColorIds(Absorb(r, i, j), r, c)
    decreases |r| - j, 1
  {
    if j < |r| {
      if Mergeable(r[i], r[j]) {
        AbsorbColorIdsMerge(r, i, j, c);
      } else {
        AbsorbColorIdsSkip(r, i, j, c);
      }
    }
  }

  lemma {:induction false} AbsorbColorIdsSkip(r: seq<Surplus>, i: nat, j: nat, c: Color)
    requires i < j < |r| && !Mergeable(r[i], r[j])
    ensures SameColorIds(Absorb(r, i, j), r, c)
    decreases |r| - j, 0
  {
    AbsorbSkip(r, i, j);
    AbsorbColorIds(r, i, j + 1, c);
  }

  /** `a` and `b` list the same circuits, counted with multiplicity, among their records of colour `c`. */
  predicate SameColorIds(a: seq<Surplus>, b: seq<Surplus>, c: Color) {
    multiset(SurplusIds(OfColor(a, c))) == multiset(SurplusIds(OfColor(b, c)))
  }

  lemma AbsorbSkip(r: seq<Surplus>, i: nat, j: nat)
    requires i < j < |r| && !Mergeable(r[i], r[j])
    ensures Absorb(r, i, j) == Absorb(r, i, j + 1)
  {
  }

  lemma {:induction false} AbsorbColorIdsMerge(r: seq<Surplus>, i: nat, j: nat, c: Color)
    requires i < j < |r| && Mergeable(r[i], r[j])
    ensures SameColorIds(Absorb(r, i, j), r, c)
    decreases |r| - j, 0
  {
    MergeAtColorIds(r, i, j, c);
    AbsorbColorIds(MergeAt(r, i, j), i, j, c);
  }

  /** Every record after the inner loop descends from a record before it, in order. */
  lemma {:induction false} AbsorbSurvivors(r: seq<Surplus>, i: nat, j: nat) returns (keep: seq<nat>)
    requires i < j <= |r|
    ensures Survivors(r, Absorb(r, i, j), keep)
    decreases |r| - j
  {
    if j == |r| {
      keep := SurvivorsRefl(r);
    } else if Mergeable(r[i], r[j]) {
      var id := SurvivorsRefl(r);
      var m := MergeAt(r, i, j);
      MergeAtSurvivors(r, r, id, i, j);
      var keep2 := AbsorbSurvivors(m, i, j);
      keep := SurvivorsCompose(r, m, Absorb(m, i, j), id[..j] + id[j + 1..], keep2);
    } else {
      keep := AbsorbSurvivors(r, i, j + 1);
    }
  }

  /** On a list with no mergeable pair the inner loop changes nothing. */
  lemma {:induction false} AbsorbIdle(r: seq<Surplus>, i: nat, j: nat)
    requires i < j <= |r| && Complete(r)
    ensures Absorb(r, i, j) == r
    decreases |r| - j
  {
    if j < |r| {
      AbsorbIdle(r, i, j + 1);
    }
  }

  /** The merge pass leaves no mergeable pair once the records before `i` have none. */
  lemma {:induction false} MergeFromComplete(r: seq<Surplus>, i: nat)
    requires forall p, q :: 0 <= p < i && p < q < |r| ==> !Mergeable(r[p], r[q])
    ensures Complete(MergeFrom(r, i))
    decreases |r| - i
  {
    if i < |r| {
      var r' := Absorb(r, i, i + 1);
      AbsorbApart(r, i, i + 1);
      AbsorbPrefix(r, i, i + 1);
      assert forall p, q :: 0 <= p < i + 1 && p < q < |r'| ==> !Mergeable(r'[p], r'[q]) by {
        forall p, q | 0 <= p < i + 1 && p < q < |r'|
          ensures !Mergeable(r'[p], r'[q])
        {
          if p == i {
            assert i < q < |r'|;
          }
        }
      }
      MergeFromComplete(r', i + 1);
    }
  }

  lemma {:induction false} MergeFromTotals(r: seq<Surplus>, i: nat, c: Color)
    ensures ColorTotal(MergeFrom(r, i), c) == ColorTotal(r, c)
    decreases |r| - i
  {
    if i < |r| {
      AbsorbTotals(r, i, i + 1, c);
      MergeFromTotals(Absorb(r, i, i + 1), i + 1, c);
    }
  }

  lemma {:induction false} MergeFromIds(r: seq<Surplus>, i: nat)
    ensures multiset(SurplusIds(MergeFrom(r, i))) == multiset(SurplusIds(r))
    decreases |r| - i
  {
    if i < |r| {
      AbsorbIds(r, i, i + 1);
      MergeFromIds(Absorb(r, i, i + 1), i + 1);
    }
  }

  /** The merge pass keeps the multiset of circuits listed for each colour. */
  lemma {:induction false} MergeFromColorIds(r: seq<Surplus>, i: nat, c: Color)
    ensures multiset(SurplusIds(OfColor(MergeFrom(r, i), c))) == multiset(SurplusIds(OfColor(r, c)))
    decreases |r| - i
  {
    if i < |r| {
      AbsorbColorIds(r, i, i + 1, c);
      MergeFromColorIds(Absorb(r, i, i + 1), i + 1, c);
    }
  }

  lemma {:induction false} MergeFromSurvivors(r: seq<Surplus>, i: nat) returns (keep: seq<nat>)
    ensures Survivors(r, MergeFrom(r, i), keep)
    decreases |r| - i
  {
    if i < |r| {
      var m := Absorb(r, i, i + 1);
      var keep1 := AbsorbSurvivors(r, i, i + 1);
      var keep2 := MergeFromSurvivors(m, i + 1);
      keep := SurvivorsCompose(r, m, MergeFrom(m, i + 1), keep1, keep2);
    } else {
      keep := SurvivorsRefl(r);
    }
  }

  lemma {:induction false} MergeFromIdle(r: seq<Surplus>, i: nat)
    requires Complete(r)
    ensures MergeFrom(r, i) == r
    decreases |r| - i
  {
    if i < |r| {
      AbsorbIdle(r, i, i + 1);
      MergeFromIdle(r, i + 1);
    }
  }

  /** What the merge pass promises about every record of the result. */
  lemma MergeSurvivorBounds(cs: seq<Surplus>, r: seq<Surplus>, keep: seq<nat>)
    requires Survivors(cs, r, keep)
    requires InRange(cs)
    ensures InRange(r)
  {
    forall k | 0 <= k < |r|
      ensures 0 < r[k].excedente < Limit
    {
      assert Survives(cs[keep[k]], r[k]);
    }
  }

  // ---------------------------------------------------------------------------
  // The merge pass

  /** The merge pass of the source: for each record `i`, walk the later records;
      fold a mergeable one into `i` and look at the same position again. */
  method MergeSurpluses(cs: seq<Surplus>) returns (r: seq<Surplus>)
    // the two loops compute the recursive definition
    ensures r == MergeFrom(cs, 0)
    ensures Complete(r)
    // a second pass changes nothing
    ensures Complete(cs) ==> r == cs
    ensures |r| <= |cs|
    ensures forall c :: ColorTotal(r, c) == ColorTotal(cs, c)
    ensures multiset(SurplusIds(r)) == multiset(SurplusIds(cs))
    ensures forall c :: multiset(SurplusIds(OfColor(r, c))) == multiset(SurplusIds(OfColor(cs, c)))
    // every record descends from an input record, in the input order
    ensures exists keep :: Survivors(cs, r, keep)
    ensures InRange(cs) ==> InRange(r)
  {
    r := cs;
    var i := 0;
    while i < |r|
      invariant MergeFrom(r, i) == MergeFrom(cs, 0)
      decreases |r| - i
    {
      var j := i + 1;
      ghost var n := |r|;
      while j < |r|
        invariant i < j <= |r| <= n
        invariant MergeFrom(Absorb(r, i, j), i + 1) == MergeFrom(cs, 0)
        decreases |r| - j
      {
        if r[i].color == r[j].color && r[i].excedente + r[j].excedente <= Half {
          r := MergeAt(r, i, j);
        } else {
          j := j + 1;
        }
      }
      i := i + 1;
    }
    MergeFromComplete(cs, 0);
    if Complete(cs) {
      MergeFromIdle(cs, 0);
    }
    forall c | true
      ensures ColorTotal(r, c) == ColorTotal(cs, c)
    {
      MergeFromTotals(cs, 0, c);
    }
    MergeFromIds(cs, 0);
    forall c | true
      ensures multiset(SurplusIds(OfColor(r, c))) == multiset(SurplusIds(OfColor(cs, c)))
    {
      MergeFromColorIds(cs, 0, c);
    }
    ghost var keep := MergeFromSurvivors(cs, 0);
    if InRange(cs) {
      MergeSurvivorBounds(cs, r, keep);
    }
  }
}

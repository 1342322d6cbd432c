/** Small worked inputs that pin down behaviours of the grouper which are easy
    to misread from its description. */
module Scenarios {
  import opened Cables
  import opened Sorting
  import opened Packing
  import opened Merging

  /** A lone 600 cannot be completed by the 500 after it (1100 > 1000), so the
      first pass emits a surplus of 600 and the second a group of 500. */
  lemma SurplusAboveHalf()
    ensures Pack("Rojo", [Item(1, 600), Item(2, 500)])
         == Packed([Group("Rojo", [2], 500, 500)], [Surplus("Rojo", [1], 600)])
  {
    var pool := [Item(1, 600), Item(2, 500)];
    assert pool[1..] == [Item(2, 500)];
    assert Scan([Item(2, 500)], 600) == ScanResult([], [Item(2, 500)], 600);
    assert Scan(pool, 0) == ScanResult([Item(1, 600)], [Item(2, 500)], 600);
    assert Pass("Rojo", pool).record == SurplusRecord(Surplus("Rojo", [1], 600));
    assert Scan([Item(2, 500)], 0) == ScanResult([Item(2, 500)], [], 500);
    assert Pass("Rojo", [Item(2, 500)]).record == GroupRecord(Group("Rojo", [2], 500, 500));
  }

  /** Two circuits that reach 1000 together form one group of roll size 1000. */
  lemma ExactThousand()
    ensures Pack("Azul", [Item(1, 600), Item(2, 400)]) == Packed([Group("Azul", [1, 2], 1000, 1000)], [])
  {
    var pool := [Item(1, 600), Item(2, 400)];
    assert pool[1..] == [Item(2, 400)];
    assert Scan([Item(2, 400)], 600) == ScanResult([Item(2, 400)], [], 1000);
    assert Scan(pool, 0) == ScanResult([Item(1, 600), Item(2, 400)], [], 1000);
    assert Pass("Azul", pool).record == GroupRecord(Group("Azul", [1, 2], 1000, 1000));
  }

  /** A circuit of length 0 left on its own forms a pass with sum 0, which emits
      nothing: over 500, 0 the passes emit one group listing circuit 1 only, and
      circuit 2 appears in no group and no surplus. */
  lemma ZeroLengthDropped()
    ensures Pack("Verde", [Item(1, 500), Item(2, 0)]) == Packed([Group("Verde", [1], 500, 500)], [])
  {
    ZeroFirstPass();
    ZeroAlone();
  }

  /** The first pass over 500, 0 stops at 500 and leaves the length-0 circuit behind. */
  lemma ZeroFirstPass()
    ensures Pass("Verde", [Item(1, 500), Item(2, 0)])
         == PassResult(GroupRecord(Group("Verde", [1], 500, 500)), [Item(1, 500)], [], [Item(2, 0)])
  {
    var pool := [Item(1, 500), Item(2, 0)];
    assert pool[1..] == [Item(2, 0)];
    assert Scan(pool, 0) == ScanResult([Item(1, 500)], [Item(2, 0)], 500);
  }

  /** The pass over a lone circuit of length 0 ends the loop with no record. */
  lemma ZeroAlone()
    ensures Pack("Verde", [Item(2, 0)]) == Packed([], [])
  {
    assert [Item(2, 0)][1..] == [];
    assert Scan([Item(2, 0)], 0) == ScanResult([Item(2, 0)], [], 0);
    assert Pass("Verde", [Item(2, 0)]) == PassResult(NoRecord, [Item(2, 0)], [], []);
  }

  /** Two same-colour surpluses of 300 and 200 merge into one of exactly 500:
      the merge bound is inclusive. */
  lemma MergeReachesHalf()
    ensures MergeFrom([Surplus("Rojo", [1], 300), Surplus("Rojo", [2], 200)], 0)
         == [Surplus("Rojo", [1, 2], 500)]
  {
    var cs := [Surplus("Rojo", [1], 300), Surplus("Rojo", [2], 200)];
    var m := [Surplus("Rojo", [1, 2], 500)];
    assert Combine(cs[0], cs[1]) == m[0] by {
      assert [1] + [2] == [1, 2];
    }
    assert cs[..1][0 := m[0]] == m && cs[2..] == [];
    assert MergeAt(cs, 0, 1) == m;
    assert Absorb(m, 0, 1) == m;
    assert Absorb(cs, 0, 1) == m;
    assert MergeFrom(m, 1) == m;
  }

  /** A Rojo and an Azul surplus of 100 each, which together would fit in 500,
      stay apart: the merge pass joins records of one colour only. */
  lemma MergeKeepsColorsApart()
    ensures MergeFrom([Surplus("Rojo", [1], 100), Surplus("Azul", [2], 100)], 0)
         == [Surplus("Rojo", [1], 100), Surplus("Azul", [2], 100)]
  {
    var cs := [Surplus("Rojo", [1], 100), Surplus("Azul", [2], 100)];
    assert !Mergeable(cs[0], cs[1]);
    assert Absorb(cs, 0, 1) == cs;
    assert Absorb(cs, 1, 2) == cs;
    assert MergeFrom(cs, 2) == cs;
  }

  /** Taken on its own, the repair step removes leftovers by value and walks a
      list of lengths computed once, before any removal: accepting the first 100
      deletes both circuits of that length, and the second 100 of the list is
      then added again although no circuit of that length is left. */
  lemma RepairDropsDuplicates()
    ensures SortAsc(Lengths([Item(5, 100), Item(6, 100), Item(7, 200)])) == [100, 100, 200]
    ensures Repair([100, 100, 200], [Item(5, 100), Item(6, 100), Item(7, 200)], 300)
         == RepairResult([100, 100], [Item(7, 200)], 500)
  {
    AscOfDuplicates();
    HundredsRemoved();
    SecondHundred();
    assert [100, 100, 200][1..] == [100, 200];
  }

  /** Removing the length 100 deletes both circuits of that length and nothing else. */
  lemma HundredsRemoved()
    ensures RemoveLength([Item(5, 100), Item(6, 100), Item(7, 200)], 100) == [Item(7, 200)]
  {
    var pool := [Item(5, 100), Item(6, 100), Item(7, 200)];
    assert pool[1..] == [Item(6, 100), Item(7, 200)];
    assert pool[1..][1..] == [Item(7, 200)];
    assert [Item(7, 200)][1..] == [];
    assert RemoveLength([Item(7, 200)], 100) == [Item(7, 200)];
  }

  /** The second 100 of the list still fits (400 + 100 = 500) and ends the repair. */
  lemma SecondHundred()
    ensures Repair([100, 200], [Item(7, 200)], 400) == RepairResult([100], [Item(7, 200)], 500)
  {
    assert [Item(7, 200)][1..] == [];
    assert RemoveLength([Item(7, 200)], 100) == [Item(7, 200)];
  }

  /** The ascending lengths of 100, 100, 200. */
  lemma AscOfDuplicates()
    ensures SortAsc(Lengths([Item(5, 100), Item(6, 100), Item(7, 200)])) == [100, 100, 200]
  {
    assert Lengths([Item(5, 100), Item(6, 100), Item(7, 200)]) == [100, 100, 200];
    AscSmall();
  }

  /** Sorting 100, 100, 200 inserts each head into the sorted tail. */
  lemma AscSmall()
    ensures SortAsc([100, 100, 200]) == [100, 100, 200]
  {
    AscPair();
    assert [100, 100, 200][1..] == [100, 200];
    assert InsertAsc(100, [100, 200]) == [100, 100, 200];
  }

  lemma AscPair()
    ensures SortAsc([100, 200]) == [100, 200]
  {
    assert [200][1..] == [];
    assert SortAsc([200]) == InsertAsc(200, []) == [200];
    assert [100, 200][1..] == [200];
    assert InsertAsc(100, [200]) == [100, 200];
  }
}

/**
 * What Sort of common/utility.go sorts: of all orders in which three or more nodes can be listed,
 * exactly three come out ascending.
 */
module SortOrders {
  import opened Basics
  import opened Ring

  function Round(rows: seq<Row>, i: nat): (r: seq<Row>)
    requires i < |rows|
    ensures |r| == |rows|
  {
    Swap(rows, i, SwapWith(rows, i))
  }

  /** `s` with its row `r` at the very end. */
  function Late(s: seq<Row>, r: nat): (t: seq<Row>)
    requires r < |s|
    ensures |t| == |s|
    ensures forall p :: 0 <= p < |t| ==> t[p] == if p < r then s[p] else if p == |s| - 1 then s[r] else s[p + 1]
  {
    seq(|s|, p requires 0 <= p < |s| => if p < r then s[p] else if p == |s| - 1 then s[r] else s[p + 1])
  }

  /** `s` with its row `r + 1` at the very end, and then its rows 0 and `r` exchanged. */
  function Front(s: seq<Row>, r: nat): (t: seq<Row>)
    requires 0 < r < |s| - 1
    ensures |t| == |s|
    ensures forall p :: 0 <= p < |t| ==> t[p] == if p == 0 then s[r] else if p == r then s[0] else Late(s, r + 1)[p]
  {
    seq(|s|, p requires 0 <= p < |s| => if p == 0 then s[r] else if p == r then s[0] else Late(s, r + 1)[p])
  }

  /** The third row first, then the first one, then the others in order with the second one last. */
  function Third(s: seq<Row>): (t: seq<Row>)
    requires |s| >= 3
    ensures |t| == |s|
    ensures forall p :: 0 <= p < |t| ==>
      t[p] == if p == 0 then s[2] else if p == 1 then s[0] else if p == |s| - 1 then s[1] else s[p + 1]
  {
    seq(|s|, p requires 0 <= p < |s| => if p == 0 then s[2] else if p == 1 then s[0] else if p == |s| - 1 then s[1] else s[p + 1])
  }

  ghost predicate DifferentValues(rows: seq<Row>) {
    forall i, j :: 0 <= i < j < |rows| ==> rows[i].value != rows[j].value
  }

  // ---------------------------------------------------------------- forwards

  lemma LateNext(s: seq<Row>, r: nat)
    requires AscendingRows(s) && r < |s| - 1
    ensures Round(Late(s, r), r) == Late(s, r + 1)
  {
    assert SwapWith(Late(s, r), r) == |s| - 1;
  }

  lemma FrontNext(s: seq<Row>, r: nat)
    requires AscendingRows(s) && 0 < r < |s| - 1
    ensures Round(Front(s, r), r) == Late(s, r + 1)
  {
    assert forall p :: r < p < |s| ==> Front(s, r)[p].value > s[0].value;
    assert SwapWith(Front(s, r), r) == 0;
  }

  lemma ThirdNext(s: seq<Row>)
    requires AscendingRows(s) && |s| >= 3
    ensures Round(Third(s), 0) == Front(s, 1)
    ensures Round(Late(s, 1), 0) == Late(s, 1)
  {
    assert SwapWith(Third(s), 0) == |s| - 1;
    assert SwapWith(Late(s, 1), 0) == 0;
  }

  lemma LateIsAll(s: seq<Row>)
    requires s != []
    ensures Late(s, |s| - 1) == s
  {
  }

  lemma {:induction false} LateGetsSorted(rows: seq<Row>, s: seq<Row>, r: nat)
    requires AscendingRows(s) && |rows| == |s| && r < |s| && Rounds(rows, r) == Late(s, r)
    ensures Rounds(rows, |s| - 1) == s
    decreases |s| - r
  {
    LateIsAll(s);
    if r < |s| - 1 {
      LateNext(s, r);
      LateGetsSorted(rows, s, r + 1);
    }
  }

  // ---------------------------------------------------------------- backwards

  /** What a round can have been applied to. */
  lemma RoundInverse(rows: seq<Row>, i: nat)
    requires i < |rows|
    ensures var k, after := SwapWith(rows, i), Round(rows, i);
      && rows == Swap(after, i, k)
      && forall p :: 0 <= p < |rows| ==> rows[p] == if p == k then after[i] else if p == i then after[k] else after[p]
  {
  }

  /** Only two tables become `Late(s, r + 1)` in round `r`. */
  lemma BeforeLate(rows: seq<Row>, s: seq<Row>, r: nat)
    requires AscendingRows(s) && |rows| == |s| && 0 < r < |s| - 1 && Round(rows, r) == Late(s, r + 1)
    ensures rows == Late(s, r) || rows == Front(s, r)
  {
    var k, after := SwapWith(rows, r), Late(s, r + 1);
    RoundInverse(rows, r);
    assert rows[|s| - 1] == if k == |s| - 1 then after[r] else s[r + 1];
    assert rows[r] == after[k];
  }

  /** A table that becomes `Front(s, r)` in the round before ends with less than it begins with. */
  lemma BeforeFront(rows: seq<Row>, s: seq<Row>, r: nat)
    requires AscendingRows(s) && |rows| == |s| && 1 < r < |s| - 1 && Round(rows, r - 1) == Front(s, r)
    ensures rows[|s| - 1].value < rows[0].value
  {
    var q, last := r - 1, |s| - 1;
    var k, after := SwapWith(rows, q), Front(s, r);
    RoundInverse(rows, q);
    var first, own, mid, late := s[0], s[q], s[r], s[r + 1];
    assert rows[q] == after[k] && rows[k] == own;
    assert rows[last] == if k == last then own else late;
    assert rows[0] == if k == 0 then own else mid;
    assert rows[r] == if k == r then own else first;
  }

  lemma BeforeFirst(rows: seq<Row>, s: seq<Row>)
    requires AscendingRows(s) && |rows| == |s| >= 3
    ensures Round(rows, 0) == Late(s, 1) ==> rows == Late(s, 0) || rows == Late(s, 1)
    ensures Round(rows, 0) == Front(s, 1) ==> rows == Third(s)
  {
    var k, last := SwapWith(rows, 0), |s| - 1;
    RoundInverse(rows, 0);
    var after := Round(rows, 0);
    assert rows[0] == after[k] && rows[k] == after[0];
    assert rows[last] == if k == last then after[0] else after[last];
    assert rows[1] == if k == 1 then after[0] else after[1];
  }

  /** From the first round on the last value is above the first. */
  lemma {:induction false} LastAboveFirst(rows: seq<Row>, r: nat)
    requires DifferentValues(rows) && 1 <= r < |rows|
    ensures Rounds(rows, r)[|rows| - 1].value > Rounds(rows, r)[0].value
  {
    var before, last := Rounds(rows, r - 1), |rows| - 1;
    RoundsKeepDifferent(rows, r - 1);
    if r > 1 { LastAboveFirst(rows, r - 1); }
    var k := SwapWith(before, r - 1);
    assert before[last].value >= before[r - 1].value || k == last;
  }

  lemma {:induction false} RoundsKeepDifferent(rows: seq<Row>, r: nat)
    requires r <= |rows|
    ensures DifferentValues(rows) <==> DifferentValues(Rounds(rows, r))
  {
    hide DifferentValues;
    if r > 0 {
      RoundsKeepDifferent(rows, r - 1);
      var before := Rounds(rows, r - 1);
      SwapKeepsDifferent(before, r - 1, SwapWith(before, r - 1));
      SwapKeepsDifferent(Round(before, r - 1), r - 1, SwapWith(before, r - 1));
      RoundInverse(before, r - 1);
    }
  }

  lemma SwapKeepsDifferent(rows: seq<Row>, i: nat, k: nat)
    requires i < |rows| && k < |rows|
    ensures DifferentValues(rows) ==> DifferentValues(Swap(rows, i, k))
  {
  }

  lemma AscendingIsDifferent(s: seq<Row>)
    requires AscendingRows(s)
    ensures DifferentValues(s)
  {
  }

  lemma {:induction false} SortedCameLate(rows: seq<Row>, s: seq<Row>, r: nat)
    requires AscendingRows(s) && |rows| == |s| && 2 <= r < |s| && Rounds(rows, |s| - 1) == s
    ensures Rounds(rows, r) == Late(s, r)
    decreases |s| - r
  {
    hide Swap, SwapWith, Late, Front, DifferentValues;
    LateIsAll(s);
    if r < |s| - 1 {
      AscendingIsDifferent(s);
      SortedCameLate(rows, s, r + 1);
      BeforeLate(Rounds(rows, r), s, r);
      RoundsKeepDifferent(rows, |s| - 1);
      if Rounds(rows, r) == Front(s, r) {
        BeforeFront(Rounds(rows, r - 1), s, r);
        LastAboveFirst(rows, r - 1);
      }
    }
  }

  /** One of three orders of the rows of `s`. */
  predicate OneOfThree(rows: seq<Row>, s: seq<Row>)
    requires |s| >= 3
  {
    rows == s[1..] + [s[0]] || rows == [s[0]] + s[2..] + [s[1]] || rows == [s[2], s[0]] + s[3..] + [s[1]]
  }

  lemma ThreeOrders(s: seq<Row>)
    requires |s| >= 3
    ensures Late(s, 0) == s[1..] + [s[0]]
    ensures Late(s, 1) == [s[0]] + s[2..] + [s[1]]
    ensures Third(s) == [s[2], s[0]] + s[3..] + [s[1]]
  {
  }

  /** An ascending table of three or more rows is the result of Sort on exactly three tables. */
  lemma SortsThree(rows: seq<Row>, s: seq<Row>)
    requires AscendingRows(s) && |rows| == |s| >= 3
    ensures Rounds(rows, |s| - 1) == s <==> OneOfThree(rows, s)
  {
    ThreeOrders(s);
    assert Rounds(rows, 0) == rows;
    assert Rounds(rows, 1) == Round(rows, 0);
    assert Rounds(rows, 2) == Round(Rounds(rows, 1), 1);
    if Rounds(rows, |s| - 1) == s {
      SortedCameLate(rows, s, 2);
      BeforeLate(Rounds(rows, 1), s, 1);
      BeforeFirst(rows, s);
    }
    if OneOfThree(rows, s) {
      ThirdNext(s);
      FrontNext(s, 1);
      if rows == Late(s, 0) {
        LateGetsSorted(rows, s, 0);
      } else if rows == Late(s, 1) {
        LateGetsSorted(rows, s, 1);
      } else {
        LateGetsSorted(rows, s, 2);
      }
    }
  }

  /** So Sort leaves a table of three or more rows ascending exactly when it lists them in one of three orders. */
  lemma SortsExactly(rows: seq<Row>)
    requires |rows| >= 3
    ensures AscendingRows(Rounds(rows, |rows| - 1))
      <==> exists s: seq<Row> :: |s| == |rows| && AscendingRows(s) && OneOfThree(rows, s)
  {
    hide Rounds, OneOfThree;
    var result := Rounds(rows, |rows| - 1);
    if AscendingRows(result) { SortsThree(rows, result); }
    if exists s: seq<Row> :: |s| == |rows| && AscendingRows(s) && OneOfThree(rows, s) {
      var s: seq<Row> :| |s| == |rows| && AscendingRows(s) && OneOfThree(rows, s);
      SortsThree(rows, s);
    }
  }
}

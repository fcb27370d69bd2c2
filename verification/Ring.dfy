/** The sharding ring (common/utility.go): where an id falls, and which node owns it. */
module Ring {
  import opened Basics

  const RING := 0x1_0000
  const UINT64 := 0x1_0000_0000_0000_0000

  // ---------------------------------------------------------------- from player ids to ring values

  /** GetNodeValueByPlayerId, with the 64-bit addition wrapping around. */
  function NodeValue(playerId: nat): (v: nat)
    requires playerId < UINT64
    ensures v < RING
  {
    var n := playerId % 16;
    var offset := RING / 16;
    (playerId + n * offset) % UINT64 % RING
  }

  /** The same value from the low sixteen bits alone. */
  function Spread(x: int): (v: nat)
    ensures v < RING
  {
    (x + x % 16 * 4096) % RING
  }

  function Unspread(v: int): (x: nat)
    ensures x < RING
  {
    (v - v % 16 * 4096) % RING
  }

  /** The value keeps the low twelve bits of the id; its high four are moved on by the low four of the id. */
  lemma ValueExactly(playerId: nat)
    requires playerId < UINT64
    ensures NodeValue(playerId) % 4096 == playerId % 4096
    ensures NodeValue(playerId) / 4096 == (playerId / 4096 + playerId % 16) % 16
  {
    var q, low, n := playerId / 4096, playerId % 4096, playerId % 16;
    var high := q + n;
    NodeValueIsSpread(playerId);
    assert playerId + n * 4096 == 4096 * high + low;
    ModUnique(4096 * high + low, RING, high / 16, 4096 * (high % 16) + low);
    ModUnique(4096 * (high % 16) + low, 4096, high % 16, low);
  }

  lemma NodeValueIsSpread(playerId: nat)
    requires playerId < UINT64
    ensures NodeValue(playerId) == Spread(playerId)
  {
    var y := playerId + playerId % 16 * 4096;
    assert y % UINT64 % RING == y % RING;
  }

  lemma SpreadOfMod(x: int)
    ensures Spread(x % RING) == Spread(x)
  {
    var q, m := x / RING, x % RING;
    assert x == RING * q + m;
    assert x == 16 * (4096 * q) + m && m % 16 == x % 16;
    AddRounds(m + m % 16 * 4096, q);
  }

  /** Whole rounds of the ring do not matter. */
  lemma AddRounds(a: int, q: int)
    ensures (a + RING * q) % RING == a % RING
  {
    ModUnique(a + RING * q, RING, a / RING + q, a % RING);
  }

  lemma SpreadInverse(v: nat)
    requires v < RING
    ensures Spread(Unspread(v)) == v
  {
    var r, x := v % 16, Unspread(v);
    var c := if v < r * 4096 then 1 else 0;
    AddRounds(v - r * 4096, c);
    assert x == v - r * 4096 + RING * c;
    assert x % 16 == r;
    AddRounds(v, c);
  }

  lemma UnspreadInverse(x: nat)
    requires x < RING
    ensures Unspread(Spread(x)) == x
  {
    var r := x % 16;
    assert Spread(x) % 16 == r;
  }

  /** The position of a ring value's id among the 65536 ids from `start` on. */
  function PositionOf(start: nat, v: nat): (k: nat)
    ensures k < RING
  {
    (Unspread(v) - start) % RING
  }

  /**
   * Any 65536 consecutive ids, the counter wrapping at 2^64, hit every ring value exactly once.
   */
  lemma ConsecutiveIdsCoverRing(start: nat, v: nat, k: nat)
    requires start < UINT64 && v < RING && k < RING
    ensures NodeValue((start + k) % UINT64) == v <==> k == PositionOf(start, v)
  {
    hide NodeValue, Spread, Unspread;
    var id := (start + k) % UINT64;
    NodeValueIsSpread(id);
    SpreadOfMod(id);
    AddRounds(id, (start + k) / UINT64 * (UINT64 / RING));
    var low := (start + k) % RING;
    SpreadInverse(v);
    UnspreadInverse(low);
    assert Spread(low) == v <==> low == Unspread(v);
    ShiftedBack(start, k, Unspread(v));
  }

  lemma ShiftedBack(start: nat, k: nat, u: nat)
    requires k < RING && u < RING
    ensures (start + k) % RING == u <==> k == (u - start) % RING
  {
  }

  // ---------------------------------------------------------------- how evenly ids spread

  /** The ring in sixteen arcs of 4096 values. */
  function Arc(playerId: nat): (a: nat)
    requires playerId < UINT64
    ensures a < 16
  {
    NodeValue(playerId) / 4096
  }

  /** The arc the first id of a block of sixteen falls in. */
  function BlockArc(block: nat): (a: nat)
    ensures a < 16
  {
    block % 4096 / 256
  }

  /** Within an aligned block each id falls one arc further than the one before. */
  lemma ArcInBlock(block: nat, r: nat)
    requires r < 16 && 16 * block + r < UINT64
    ensures Arc(16 * block + r) == (BlockArc(block) + r) % 16
  {
    NodeValueIsSpread(16 * block + r);
    var q, low := block / 4096, block % 4096;
    SpreadParts(q, low / 256, low % 256, r);
    assert block == 4096 * q + 256 * (low / 256) + low % 256;
    ArcOfSum(low / 256 + r, 16 * (low % 256) + r);
  }

  lemma SpreadParts(q: nat, a: nat, b: nat, r: nat)
    requires a < 16 && b < 256 && r < 16
    ensures Spread(16 * (4096 * q + 256 * a + b) + r) == (4096 * (a + r) + (16 * b + r)) % RING
  {
    var x := 16 * (4096 * q + 256 * a + b) + r;
    ModUnique(x, 16, 4096 * q + 256 * a + b, r);
    var y := 4096 * (a + r) + (16 * b + r);
    assert x + r * 4096 == RING * q + y;
    ModUnique(x + r * 4096, RING, q + y / RING, y % RING);
  }

  lemma ArcOfSum(n: nat, rest: nat)
    requires rest < 4096 && n < 32
    ensures (4096 * n + rest) % RING / 4096 == n % 16
  {
    if n < 16 {
      assert (4096 * n + rest) % RING == 4096 * n + rest;
    } else {
      assert (4096 * n + rest) % RING == 4096 * (n - 16) + rest;
    }
  }

  /** So the sixteen ids of an aligned block fall in sixteen different arcs. */
  lemma BlockFillsAllArcs(block: nat, r1: nat, r2: nat)
    requires r1 < r2 < 16 && 16 * block + r2 < UINT64
    ensures Arc(16 * block + r1) != Arc(16 * block + r2)
  {
    hide Arc, BlockArc;
    ArcInBlock(block, r1);
    ArcInBlock(block, r2);
  }

  /** How many of the ids 0..n-1 fall in one arc. */
  function Load(n: nat, arc: nat): nat
    requires n <= UINT64 && arc < 16
  {
    if n == 0 then 0 else Load(n - 1, arc) + (if Arc(n - 1) == arc then 1 else 0)
  }

  /** Which id of a block falls in an arc. */
  function Turn(block: nat, arc: nat): (r: nat)
    requires arc < 16
    ensures r < 16
  {
    (arc - BlockArc(block)) % 16
  }

  lemma TurnIsArc(block: nat, r: nat, arc: nat)
    requires arc < 16 && r < 16 && 16 * block + r < UINT64
    ensures Arc(16 * block + r) == arc <==> r == Turn(block, arc)
  {
    hide Arc, BlockArc;
    ArcInBlock(block, r);
  }

  lemma {:induction false} LoadExactly(n: nat, arc: nat)
    requires n <= UINT64 && arc < 16
    ensures Load(n, arc) == n / 16 + (if Turn(n / 16, arc) < n % 16 then 1 else 0)
  {
    hide Arc, Turn;
    if n > 0 {
      LoadExactly(n - 1, arc);
      TurnIsArc((n - 1) / 16, (n - 1) % 16, arc);
    }
  }

  /** Whatever the number of ids handed out so far, no arc holds more than one id more than another. */
  lemma LoadsAreEven(n: nat, arc1: nat, arc2: nat)
    requires n <= UINT64 && arc1 < 16 && arc2 < 16
    ensures Load(n, arc1) <= Load(n, arc2) + 1
  {
    LoadExactly(n, arc1);
    LoadExactly(n, arc2);
  }

  // ---------------------------------------------------------------- looking up the owner

  /** The first node whose value is not below the given one, node 0 when there is none. */
  function Owner(values: seq<nat>, v: nat): (i: nat)
    requires values != []
    ensures i < |values|
  {
    var k := FirstAtLeast(values, v);
    if k < |values| then k else 0
  }

  function FirstAtLeast(values: seq<nat>, v: nat): (k: nat)
    ensures k <= |values|
    ensures k < |values| ==> v <= values[k]
    ensures forall j :: 0 <= j < k ==> values[j] < v
  {
    if values == [] || v <= values[0] then 0 else 1 + FirstAtLeast(values[1..], v)
  }

  ghost predicate Ascending(values: seq<nat>) {
    forall i, j :: 0 <= i < j < |values| ==> values[i] < values[j]
  }

  /** The arc of ring values that belongs to node `i` of an ascending ring. */
  predicate InArc(values: seq<nat>, i: nat, v: nat)
    requires i < |values|
  {
    if i == 0 then v <= values[0] || v > values[|values| - 1]
    else values[i - 1] < v <= values[i]
  }

  /** On an ascending ring the lookup finds the one node whose arc holds the value. */
  lemma OwnerIsSuccessor(values: seq<nat>, v: nat, i: nat)
    requires Ascending(values) && i < |values|
    ensures Owner(values, v) == i <==> InArc(values, i, v)
  {
    var k := FirstAtLeast(values, v);
    if InArc(values, i, v) && i > 0 {
      assert k == i;
    }
  }

  /** On any ring a node past the first is ever looked up exactly when its value exceeds all before it. */
  lemma ReachableNodes(values: seq<nat>, i: nat)
    requires 0 < i < |values|
    ensures (exists v :: Owner(values, v) == i) <==> forall j :: 0 <= j < i ==> values[j] < values[i]
  {
    if exists v :: Owner(values, v) == i {
      var v :| Owner(values, v) == i;
      assert FirstAtLeast(values, v) == i;
    }
    if forall j :: 0 <= j < i ==> values[j] < values[i] {
      assert FirstAtLeast(values, values[i]) == i;
      assert Owner(values, values[i]) == i;
    }
  }

  // ---------------------------------------------------------------- the node table

  /** One row of the table: what Sort must keep together. */
  datatype Row = Row(node: string, value: nat, conn: nat)

  function Zip(nodes: seq<string>, values: seq<nat>, conns: seq<nat>): (r: seq<Row>)
    requires |nodes| == |values| == |conns|
    ensures |r| == |nodes|
    ensures forall i :: 0 <= i < |r| ==> r[i] == Row(nodes[i], values[i], conns[i])
  {
    seq(|nodes|, i requires 0 <= i < |nodes| => Row(nodes[i], values[i], conns[i]))
  }

  /** The last place after `i` whose value is smaller than the one at `i`, or 0. */
  function SwapWith(rows: seq<Row>, i: nat): (k: nat)
    requires i < |rows|
    ensures k < |rows|
  {
    LastSmaller(rows, i, |rows|)
  }

  function LastSmaller(rows: seq<Row>, i: nat, j: nat): (k: nat)
    requires i < j <= |rows|
    ensures k < |rows|
    ensures k == 0 || (i < k < j && rows[k].value < rows[i].value)
    ensures (forall m :: i < m < j ==> rows[m].value >= rows[i].value) ==> k == 0
    ensures forall m :: i < m < j && (k == 0 || m > k) ==> rows[m].value >= rows[i].value
  {
    if j == i + 1 then 0
    else if rows[j - 1].value < rows[i].value then j - 1
    else LastSmaller(rows, i, j - 1)
  }

  function Swap(rows: seq<Row>, i: nat, k: nat): (r: seq<Row>)
    requires i < |rows| && k < |rows|
    ensures |r| == |rows|
  {
    rows[i := rows[k]][k := rows[i]]
  }

  /** The table after the first `n` rounds of the loop. */
  function Rounds(rows: seq<Row>, n: nat): (r: seq<Row>)
    requires n <= |rows|
    ensures |r| == |rows|
  {
    if n == 0 then rows
    else
      var before := Rounds(rows, n - 1);
      Swap(before, n - 1, SwapWith(before, n - 1))
  }

  class DbCluster {
    var nodes: seq<string>
    var nodeValues: seq<nat>
    var conns: seq<nat>
    var nodeTotal: nat

    ghost predicate Valid()
      reads this
    {
      |nodes| == |nodeValues| == |conns| == nodeTotal
    }

    ghost function Rows(): seq<Row>
      reads this
      requires Valid()
    {
      Zip(nodes, nodeValues, conns)
    }

    constructor (nodes: seq<string>, conns: seq<nat>)
      requires |nodes| == |conns|
      ensures Valid() && this.nodes == nodes && this.conns == conns
    {
      this.nodes := nodes;
      this.nodeValues := seq(|nodes|, _ => 0);
      this.conns := conns;
      nodeTotal := |nodes|;
    }

    /** Read each node's number off its id; false at the first one without a number in range. */
    method ReadValues(number: string -> Option<int>) returns (ok: bool)
      requires Valid()
      modifies this`nodeValues
      ensures Valid()
      ensures ok <==> forall i :: 0 <= i < nodeTotal ==> number(nodes[i]).Some? && 0 <= number(nodes[i]).value < 65536
      ensures ok ==> forall i :: 0 <= i < nodeTotal ==> nodeValues[i] == number(nodes[i]).value
    {
      for i := 0 to nodeTotal
        invariant Valid()
        invariant forall j :: 0 <= j < i ==>
          number(nodes[j]).Some? && 0 <= number(nodes[j]).value < RING && nodeValues[j] == number(nodes[j]).value
      {
        var n := number(nodes[i]);
        if n.None? || n.value < 0 || n.value >= RING {
          return false;
        }
        nodeValues := nodeValues[i := n.value];
      }
      return true;
    }

    /** The inner loop: where the row at `i` is swapped to. */
    method FindSwap(i: nat) returns (iMin: nat)
      requires Valid() && i < nodeTotal
      ensures iMin == SwapWith(Rows(), i)
    {
      iMin := 0;
      for j := i + 1 to nodeTotal
        invariant iMin == LastSmaller(Rows(), i, j)
      {
        if nodeValues[j] < nodeValues[i] {
          iMin := j;
        }
      }
    }

    /** The exchange loop over the table whose values have been read. */
    method Exchange()
      requires Valid() && nodeTotal > 0
      modifies this`nodes, this`nodeValues, this`conns
      ensures Valid() && Rows() == Rounds(old(Rows()), nodeTotal - 1)
    {
      hide SwapWith;
      for i := 0 to nodeTotal - 1
        invariant Valid() && Rows() == Rounds(old(Rows()), i)
      {
        var iMin := FindSwap(i);
        if i != iMin {
          nodes, nodeValues, conns :=
            nodes[i := nodes[iMin]][iMin := nodes[i]],
            nodeValues[i := nodeValues[iMin]][iMin := nodeValues[i]],
            conns[i := conns[iMin]][iMin := conns[i]];
        }
        assert Rows() == Swap(Rounds(old(Rows()), i), i, iMin);
      }
    }

    /** The lookup loop. */
    method GetNodeIndex(nodeValue: nat) returns (index: nat)
      requires Valid() && nodeTotal > 0
      ensures index == Owner(nodeValues, nodeValue)
    {
      for i := 0 to nodeTotal
        invariant forall j :: 0 <= j < i ==> nodeValues[j] < nodeValue
      {
        if nodeValue <= nodeValues[i] {
          assert FirstAtLeast(nodeValues, nodeValue) == i;
          return i;
        }
      }
      return 0;
    }

    method GetNodeIndexByPlayerId(playerId: nat) returns (index: nat)
      requires Valid() && nodeTotal > 0 && playerId < UINT64
      ensures index == Owner(nodeValues, NodeValue(playerId))
    {
      index := GetNodeIndex(NodeValue(playerId));
    }
  }

  // ---------------------------------------------------------------- what Sort does

  lemma SwapKeepsRows(rows: seq<Row>, i: nat, k: nat)
    requires i < |rows| && k < |rows|
    ensures multiset(Swap(rows, i, k)) == multiset(rows)
  {
  }

  /** Sort never tears a node from its value or its connection: whole rows are permuted. */
  lemma {:induction false} SortPermutesRows(rows: seq<Row>, n: nat)
    requires n <= |rows|
    ensures multiset(Rounds(rows, n)) == multiset(rows)
  {
    hide SwapWith, Swap;
    if n > 0 {
      SortPermutesRows(rows, n - 1);
      var before := Rounds(rows, n - 1);
      SwapKeepsRows(before, n - 1, SwapWith(before, n - 1));
    }
  }

  ghost predicate AscendingRows(rows: seq<Row>) {
    forall i, j :: 0 <= i < j < |rows| ==> rows[i].value < rows[j].value
  }

  /** Two nodes with different values are put in order. */
  lemma SortsTwo(rows: seq<Row>)
    requires |rows| == 2 && rows[0].value != rows[1].value
    ensures AscendingRows(Rounds(rows, 1))
  {
    assert Rounds(rows, 0) == rows;
    assert SwapWith(rows, 0) == if rows[1].value < rows[0].value then 1 else 0;
  }

  /** What the first `n` rounds do to a table already in order: the last row touched goes to the front. */
  lemma {:induction false} SortRotates(rows: seq<Row>, n: nat)
    requires AscendingRows(rows) && 1 <= n < |rows|
    ensures Rounds(rows, n) == [rows[n - 1]] + rows[..n - 1] + rows[n..]
  {
    if n == 1 {
      assert Rounds(rows, 0) == rows;
      assert SwapWith(rows, 0) == 0;
    } else {
      SortRotates(rows, n - 1);
      var before := Rounds(rows, n - 1);
      RotateStep(rows, before, n);
    }
  }

  lemma RotateStep(rows: seq<Row>, before: seq<Row>, n: nat)
    requires AscendingRows(rows) && 2 <= n < |rows|
    requires before == [rows[n - 2]] + rows[..n - 2] + rows[n - 1..]
    ensures SwapWith(before, n - 1) == 0
    ensures Swap(before, n - 1, 0) == [rows[n - 1]] + rows[..n - 1] + rows[n..]
  {
    assert forall m :: n - 1 <= m < |rows| ==> before[m] == rows[m];
    assert SwapWith(before, n - 1) == 0;
    assert rows[..n - 1] == rows[..n - 2] + [rows[n - 2]];
  }

  /** So a table already in order stays in order exactly when it has at most two rows: [1,2,3] becomes [2,1,3]. */
  lemma SortKeepsOrderExactly(rows: seq<Row>)
    requires AscendingRows(rows) && rows != []
    ensures AscendingRows(Rounds(rows, |rows| - 1)) <==> |rows| <= 2
  {
    if |rows| == 1 {
      assert Rounds(rows, 0) == rows;
    } else {
      SortRotates(rows, |rows| - 1);
      var r := Rounds(rows, |rows| - 1);
      assert r[0] == rows[|rows| - 2];
      if |rows| > 2 { assert r[1] == rows[0]; }
    }
  }
}

/**
 * The account loops of the sharding tool (db_server/db_tool/main.go): records moved when a node
 * joins or leaves the ring, against where the lookup of the new ring will search for them.
 */
module Migration {
  import opened Basics
  import opened Ring

  /** The account databases a node's records leave and go to: player id to record. */
  datatype Databases = Databases(from: map<nat, string>, to: map<nat, string>)

  /** One call to a database; the error of one that fails is only printed. */
  datatype Call = Put(key: nat, value: string, fails: bool) | Delete(key: nat, fails: bool)

  ghost predicate Keyed(records: map<nat, string>) {
    forall k :: k in records ==> k < UINT64
  }

  // ---------------------------------------------------------------- the two loops

  /**
   * The records of `from` that leave it, `to` receiving them; a failing put or delete is only
   * printed. `putFails` and `delFails` say for which keys the databases fail.
   */
  ghost predicate Moved(from: map<nat, string>, to: map<nat, string>, moving: set<nat>, putFails: set<nat>, delFails: set<nat>,
                        from': map<nat, string>, to': map<nat, string>)
    requires moving <= from.Keys
  {
    && from' == from - (moving - delFails)
    && to' == to + (map k | k in moving && k !in putFails :: from[k])
  }

  /** The keys of a snapshot that fall below the new node's id, of those already walked. */
  ghost function BelowNode(walked: set<nat>, nodeId: int): set<nat>
    requires forall k :: k in walked ==> k < UINT64
  {
    set k | k in walked && NodeValue(k) < nodeId
  }

  function Apply(s: Databases, call: Call): Databases {
    if call.fails then s
    else
      match call
      case Put(key, value, _) => s.(to := s.to[key := value])
      case Delete(key, _) => s.(from := s.from - {key})
  }

  function Play(s: Databases, calls: seq<Call>): Databases {
    if calls == [] then s else Apply(Play(s, calls[..|calls| - 1]), calls[|calls| - 1])
  }

  /** The calls for the records of a snapshot, one key after the other: put there, then deleted here. */
  function CallsFor(keys: seq<nat>, snapshot: map<nat, string>, putFails: set<nat>, delFails: set<nat>): (r: seq<Call>)
    requires forall k :: k in keys ==> k in snapshot
    ensures |r| == 2 * |keys|
  {
    if keys == [] then []
    else
      var init, k := keys[..|keys| - 1], keys[|keys| - 1];
      CallsFor(init, snapshot, putFails, delFails) + [Put(k, snapshot[k], k in putFails), Delete(k, k in delFails)]
  }

  /** The tool at work on two databases, with a record of every call it has made. */
  class Tool {
    var from: map<nat, string>
    var to: map<nat, string>
    ghost var calls: seq<Call>

    ghost function State(): Databases
      reads this
    {
      Databases(from, to)
    }

    constructor (from: map<nat, string>, to: map<nat, string>)
      ensures State() == Databases(from, to) && calls == []
    {
      this.from, this.to, calls := from, to, [];
    }

    method PutRecord(key: nat, value: string, fails: bool)
      modifies this`to, this`calls
      ensures calls == old(calls) + [Put(key, value, fails)]
      ensures State() == Apply(old(State()), Put(key, value, fails))
    {
      calls := calls + [Put(key, value, fails)];
      if !fails {
        to := to[key := value];
      }
    }

    method DeleteRecord(key: nat, fails: bool)
      modifies this`from, this`calls
      ensures calls == old(calls) + [Delete(key, fails)]
      ensures State() == Apply(old(State()), Delete(key, fails))
    {
      calls := calls + [Delete(key, fails)];
      if !fails {
        from := from - {key};
      }
    }

    /** One record: put there first, then deleted here, whatever the first call answered. */
    method MoveRecord(key: nat, value: string, putFails: bool, delFails: bool)
      modifies this
      ensures calls == old(calls) + [Put(key, value, putFails), Delete(key, delFails)]
      ensures State() == Apply(Apply(old(State()), Put(key, value, putFails)), Delete(key, delFails))
    {
      PutRecord(key, value, putFails);
      DeleteRecord(key, delFails);
    }

    /**
     * addNodef, accounts: the records below the new node's id go to it, in the order in which the
     * iterator walks a snapshot of the old node.
     */
    method AddNode(nodeId: int, putFails: set<nat>, delFails: set<nat>) returns (ghost keys: seq<nat>)
      requires Keyed(from)
      modifies this
      ensures Distinct(keys) && forall k :: k in keys <==> k in BelowNode(old(from).Keys, nodeId)
      ensures calls == old(calls) + CallsFor(keys, old(from), putFails, delFails)
      ensures State() == Play(old(State()), CallsFor(keys, old(from), putFails, delFails))
      ensures Moved(old(from), old(to), BelowNode(old(from).Keys, nodeId), putFails, delFails, from, to)
    {
      hide Moved, Distinct, Play, CallsFor, Apply;
      NothingDone(State(), from, putFails, delFails);
      var snapshot := from;
      var todo := snapshot.Keys;
      keys := [];
      while todo != {}
        invariant todo <= snapshot.Keys && Distinct(keys)
        invariant forall k :: k in keys <==> k in BelowNode(snapshot.Keys - todo, nodeId)
        invariant calls == old(calls) + CallsFor(keys, snapshot, putFails, delFails)
        invariant State() == Play(old(State()), CallsFor(keys, snapshot, putFails, delFails))
      {
        var key :| key in todo;
        todo := todo - {key};
        if NodeValue(key) < nodeId {
          DistinctAppend(keys, key);
          CallsMore(old(State()), keys, key, snapshot, putFails, delFails);
          MoveRecord(key, snapshot[key], key in putFails, key in delFails);
          keys := keys + [key];
        }
      }
      assert snapshot.Keys - todo == snapshot.Keys;
      PlaysMoved(old(from), old(to), keys, BelowNode(old(from).Keys, nodeId), putFails, delFails);
    }

    /** delNodef, accounts: every record goes to the upper neighbour. */
    method DelNode(putFails: set<nat>, delFails: set<nat>) returns (ghost keys: seq<nat>)
      modifies this
      ensures Distinct(keys) && forall k :: k in keys <==> k in old(from)
      ensures calls == old(calls) + CallsFor(keys, old(from), putFails, delFails)
      ensures State() == Play(old(State()), CallsFor(keys, old(from), putFails, delFails))
      ensures Moved(old(from), old(to), old(from).Keys, putFails, delFails, from, to)
    {
      hide Moved, Distinct, Play, CallsFor, Apply;
      NothingDone(State(), from, putFails, delFails);
      var snapshot := from;
      var todo := snapshot.Keys;
      keys := [];
      while todo != {}
        invariant todo <= snapshot.Keys && Distinct(keys)
        invariant forall k :: k in keys <==> k in snapshot && k !in todo
        invariant calls == old(calls) + CallsFor(keys, snapshot, putFails, delFails)
        invariant State() == Play(old(State()), CallsFor(keys, snapshot, putFails, delFails))
      {
        var key :| key in todo;
        DistinctAppend(keys, key);
        CallsMore(old(State()), keys, key, snapshot, putFails, delFails);
        MoveRecord(key, snapshot[key], key in putFails, key in delFails);
        keys := keys + [key];
        todo := todo - {key};
      }
      PlaysMoved(old(from), old(to), keys, old(from).Keys, putFails, delFails);
    }
  }

  lemma PlayTwo(s: Databases, calls: seq<Call>, a: Call, b: Call)
    ensures Play(s, calls + [a]) == Apply(Play(s, calls), a)
    ensures Play(s, calls + [a, b]) == Apply(Apply(Play(s, calls), a), b)
  {
    assert (calls + [a])[..|calls|] == calls;
    assert (calls + [a, b])[..|calls| + 1] == calls + [a];
  }

  lemma CallsMore(s: Databases, keys: seq<nat>, key: nat, snapshot: map<nat, string>, putFails: set<nat>, delFails: set<nat>)
    requires key in snapshot && forall k :: k in keys ==> k in snapshot
    ensures var calls := CallsFor(keys, snapshot, putFails, delFails);
      var put, delete := Put(key, snapshot[key], key in putFails), Delete(key, key in delFails);
      && CallsFor(keys + [key], snapshot, putFails, delFails) == calls + [put, delete]
      && Play(s, CallsFor(keys + [key], snapshot, putFails, delFails)) == Apply(Apply(Play(s, calls), put), delete)
  {
    assert (keys + [key])[..|keys|] == keys;
    PlayTwo(s, CallsFor(keys, snapshot, putFails, delFails), Put(key, snapshot[key], key in putFails), Delete(key, key in delFails));
  }

  lemma {:induction false} PlaysMoved(from: map<nat, string>, to: map<nat, string>, keys: seq<nat>, moving: set<nat>,
                                      putFails: set<nat>, delFails: set<nat>)
    requires moving <= from.Keys && forall k :: k in keys <==> k in moving
    ensures var s := Play(Databases(from, to), CallsFor(keys, from, putFails, delFails));
      Moved(from, to, moving, putFails, delFails, s.from, s.to)
    decreases |keys|
  {
    if keys == [] {
      assert moving == {};
    } else {
      var init, key := keys[..|keys| - 1], keys[|keys| - 1];
      var less := set k | k in init;
      assert keys == init + [key] && moving == less + {key};
      PlaysMoved(from, to, init, less, putFails, delFails);
      CallsMore(Databases(from, to), init, key, from, putFails, delFails);
      MovedMore(from, to, less, key, putFails, delFails, Play(Databases(from, to), CallsFor(init, from, putFails, delFails)));
    }
  }

  lemma MovedMore(from: map<nat, string>, to: map<nat, string>, moving: set<nat>, key: nat,
                  putFails: set<nat>, delFails: set<nat>, s: Databases)
    requires moving <= from.Keys && key in from && Moved(from, to, moving, putFails, delFails, s.from, s.to)
    ensures var s' := Apply(Apply(s, Put(key, from[key], key in putFails)), Delete(key, key in delFails));
      Moved(from, to, moving + {key}, putFails, delFails, s'.from, s'.to)
  {
  }

  lemma NothingDone(s: Databases, snapshot: map<nat, string>, putFails: set<nat>, delFails: set<nat>)
    ensures Distinct<nat>([]) && CallsFor([], snapshot, putFails, delFails) == [] && Play(s, []) == s
  {
  }

  // ---------------------------------------------------------------- nothing is lost on the way

  predicate Somewhere(s: Databases, k: nat) { k in s.from || k in s.to }

  /** The tool has come past the deletion of `k` within its first `n` calls. */
  predicate Past(keys: seq<nat>, n: nat, k: nat) {
    exists i :: 0 <= i < |keys| && keys[i] == k && 2 * i + 1 < n
  }

  /**
   * After any number of calls, also between the two for one record: a record of the old node is
   * on neither database exactly when its put failed and its delete, already made, succeeded.
   * Wherever it is, it is unchanged.
   */
  lemma {:induction false} LostExactly(from: map<nat, string>, to: map<nat, string>, keys: seq<nat>,
                                       putFails: set<nat>, delFails: set<nat>, n: nat, k: nat)
    requires (forall x :: x in keys ==> x in from) && Distinct(keys) && n <= 2 * |keys|
    requires k in from && k !in to
    ensures var s := Play(Databases(from, to), CallsFor(keys, from, putFails, delFails)[..n]);
      && (!Somewhere(s, k) <==> Past(keys, n, k) && k in putFails && k !in delFails)
      && (k in s.from ==> s.from[k] == from[k]) && (k in s.to ==> s.to[k] == from[k])
      && (k in s.from <==> !Past(keys, n, k) || k in delFails)
      && (k in s.to ==> k in keys && k !in putFails)
    decreases |keys|
  {
    hide Past, Somewhere, Play;
    var start, calls := Databases(from, to), CallsFor(keys, from, putFails, delFails);
    if keys == [] {
      NothingPast(start, k);
      assert calls[..n] == [];
    } else {
      var last := |keys| - 1;
      var init, key := keys[..last], keys[last];
      assert keys == init + [key];
      var before := CallsFor(init, from, putFails, delFails);
      if n <= 2 * last {
        assert calls[..n] == before[..n];
        LostExactly(from, to, init, putFails, delFails, n, k);
        PastInit(init, key, n, k);
      } else {
        var put, delete := Put(key, from[key], key in putFails), Delete(key, key in delFails);
        assert before[..2 * last] == before;
        LostExactly(from, to, init, putFails, delFails, 2 * last, k);
        assert calls[..n] == if n == 2 * last + 1 then before + [put] else before + [put, delete];
        PlayTwo(start, before, put, delete);
        PastLast(init, key, n, k);
        assert key !in init by { LastIsNew(init, key); }
        OneMoreKept(from, key, putFails, delFails, Play(start, before), Play(start, calls[..n]),
                    n == 2 * last + 2, k, Past(init, 2 * last, k));
      }
    }
  }

  lemma NothingPast(s: Databases, k: nat)
    ensures !Past([], 0, k) && Play(s, []) == s && (k in s.from ==> Somewhere(s, k))
  {
  }

  lemma LastIsNew(init: seq<nat>, key: nat)
    requires Distinct(init + [key])
    ensures key !in init
  {
    forall i | 0 <= i < |init| ensures init[i] != key {
      assert (init + [key])[i] != (init + [key])[|init|];
    }
  }

  /** What the put, and perhaps the delete, of one more key do to the record of `k`. */
  lemma OneMoreKept(from: map<nat, string>, key: nat, putFails: set<nat>, delFails: set<nat>,
                    s: Databases, s': Databases, deleted: bool, k: nat, past: bool)
    requires k in from && key in from && (past ==> k != key)
    requires !Somewhere(s, k) <==> past && k in putFails && k !in delFails
    requires (k in s.from ==> s.from[k] == from[k]) && (k in s.to ==> s.to[k] == from[k])
    requires k in s.from <==> !past || k in delFails
    requires var one := Apply(s, Put(key, from[key], key in putFails));
      s' == if deleted then Apply(one, Delete(key, key in delFails)) else one
    requires !past && k == key && k in putFails ==> k !in s.to
    ensures var now := past || (k == key && deleted);
      && (!Somewhere(s', k) <==> now && k in putFails && k !in delFails)
      && (k in s'.from <==> !now || k in delFails)
    ensures (k in s'.from ==> s'.from[k] == from[k]) && (k in s'.to ==> s'.to[k] == from[k])
  {
  }

  lemma PastInit(init: seq<nat>, key: nat, n: nat, k: nat)
    requires n <= 2 * |init|
    ensures Past(init + [key], n, k) == Past(init, n, k)
  {
    var keys := init + [key];
    if Past(init, n, k) {
      var i :| 0 <= i < |init| && init[i] == k && 2 * i + 1 < n;
      assert keys[i] == k;
    }
  }

  lemma PastLast(init: seq<nat>, key: nat, n: nat, k: nat)
    requires 2 * |init| < n <= 2 * |init| + 2
    ensures Past(init + [key], n, k) <==> Past(init, 2 * |init|, k) || (k == key && n == 2 * |init| + 2)
    ensures Past(init, 2 * |init|, k) ==> k in init
  {
    var keys := init + [key];
    if Past(init, 2 * |init|, k) {
      var i :| 0 <= i < |init| && init[i] == k && 2 * i + 1 < 2 * |init|;
      assert keys[i] == k;
    }
    assert keys[|init|] == key;
  }

  /** So at every moment of the loop a record is somewhere, exactly unless its put fails and its delete succeeds. */
  lemma NeverLost(from: map<nat, string>, to: map<nat, string>, keys: seq<nat>, putFails: set<nat>, delFails: set<nat>, k: nat)
    requires (forall x :: x in keys ==> x in from) && Distinct(keys) && k in keys && k !in to
    ensures (forall n :: 0 <= n <= 2 * |keys| ==>
               Somewhere(Play(Databases(from, to), CallsFor(keys, from, putFails, delFails)[..n]), k))
      <==> !(k in putFails && k !in delFails)
  {
    hide Play, CallsFor, Somewhere;
    forall n | 0 <= n <= 2 * |keys|
      ensures !Somewhere(Play(Databases(from, to), CallsFor(keys, from, putFails, delFails)[..n]), k)
        <==> Past(keys, n, k) && k in putFails && k !in delFails
    {
      LostExactly(from, to, keys, putFails, delFails, n, k);
    }
    var i :| 0 <= i < |keys| && keys[i] == k;
    assert Past(keys, 2 * |keys|, k);
    if k in putFails && k !in delFails {
      var all := 2 * |keys|;
      assert !Somewhere(Play(Databases(from, to), CallsFor(keys, from, putFails, delFails)[..all]), k);
    }
  }

  // ---------------------------------------------------------------- the ring and its records

  /** Every record is on the node the lookup picks for it, and on no other. */
  ghost predicate Placed(values: seq<nat>, stores: seq<map<nat, string>>) {
    && |stores| == |values| && values != []
    && (forall i :: 0 <= i < |stores| ==> Keyed(stores[i]))
    && forall i, k :: 0 <= i < |stores| && k in stores[i] ==> Owner(values, NodeValue(k)) == i
  }

  /** The ring with a node of value `x` put in front of node `j`. */
  function WithNode(values: seq<nat>, j: nat, x: nat): seq<nat>
    requires j < |values|
  {
    values[..j] + [x] + values[j..]
  }

  /** The new node gets its place in the ring before node `j` and below its value. */
  ghost predicate FitsBefore(values: seq<nat>, j: nat, x: nat) {
    Ascending(values) && j < |values| && x < values[j] && (j > 0 ==> values[j - 1] < x)
  }

  lemma WithNodeAscending(values: seq<nat>, j: nat, x: nat)
    requires FitsBefore(values, j, x)
    ensures Ascending(WithNode(values, j, x))
  {
  }

  /** Where the tool leaves a record of node `j`: on the new node, now `j`, or on the old one, now `j + 1`. */
  function LeftOn(j: nat, x: nat, k: nat): nat
    requires k < UINT64
  {
    if NodeValue(k) < x then j else j + 1
  }

  /**
   * After inserting a node, a record of the split node is where the enlarged ring looks for it
   * exactly when its ring value is not the new node's own, and does not wrap round to a node
   * inserted at the very front.
   */
  lemma AddedWhereLookedUp(values: seq<nat>, j: nat, x: nat, k: nat)
    requires FitsBefore(values, j, x) && k < UINT64 && Owner(values, NodeValue(k)) == j
    ensures Owner(WithNode(values, j, x), NodeValue(k)) == LeftOn(j, x, k)
       <==> NodeValue(k) != x && !(j == 0 && NodeValue(k) > values[|values| - 1])
  {
    hide Owner, NodeValue;
    var v, ring := NodeValue(k), WithNode(values, j, x);
    WithNodeAscending(values, j, x);
    OwnerIsSuccessor(values, v, j);
    OwnerIsSuccessor(ring, v, j);
    OwnerIsSuccessor(ring, v, j + 1);
    assert ring[j] == x && ring[j + 1] == values[j];
    if j > 0 { assert ring[j - 1] == values[j - 1]; }
    assert ring[|ring| - 1] == values[|values| - 1];
  }

  /** Records of other nodes stay where they are looked up, one place further when they come after. */
  lemma OthersStay(values: seq<nat>, j: nat, x: nat, i: nat, v: nat)
    requires FitsBefore(values, j, x) && i < |values| && i != j && Owner(values, v) == i
    ensures Owner(WithNode(values, j, x), v) == if i < j then i else i + 1
  {
    hide Owner;
    var ring := WithNode(values, j, x);
    var i' := if i < j then i else i + 1;
    WithNodeAscending(values, j, x);
    OwnerIsSuccessor(values, v, i);
    OwnerIsSuccessor(ring, v, i');
    assert ring[i'] == values[i];
    if i > 0 { assert i' > 0 && ring[i' - 1] == values[i - 1]; }
    assert ring[|ring| - 1] == values[|values| - 1];
  }

  /** The ring without node `j`. */
  function WithoutNode(values: seq<nat>, j: nat): seq<nat>
    requires j < |values|
  {
    values[..j] + values[j + 1..]
  }

  /** Where a node other than `j` ends up once `j` is gone. */
  function Shifted(j: nat, i: nat): nat
    requires i != j
  {
    if i < j then i else i - 1
  }

  /**
   * After moving a node's records to node `b` of higher value, which is all the tool accepts,
   * they are where the shrunk ring looks for them exactly when `b` is the next node up.
   */
  lemma DeletedWhereLookedUp(values: seq<nat>, j: nat, b: nat, v: nat)
    requires Ascending(values) && j < b < |values| && Owner(values, v) == j
    ensures Owner(WithoutNode(values, j), v) == Shifted(j, b) <==> b == j + 1
  {
    hide Owner;
    var ring := WithoutNode(values, j);
    OwnerIsSuccessor(values, v, j);
    WithoutNodeAscending(values, j);
    OwnerIsSuccessor(ring, v, j);
    assert ring[j] == values[j + 1];
    if j > 0 { assert ring[j - 1] == values[j - 1]; }
    assert ring[|ring| - 1] == values[|values| - 1];
    assert InArc(ring, j, v);
  }

  lemma WithoutNodeAscending(values: seq<nat>, j: nat)
    requires Ascending(values) && j < |values|
    ensures Ascending(WithoutNode(values, j))
  {
  }

  lemma OthersStayDeleted(values: seq<nat>, j: nat, i: nat, v: nat)
    requires Ascending(values) && j < |values| - 1 && i < |values| && i != j && Owner(values, v) == i
    ensures Owner(WithoutNode(values, j), v) == Shifted(j, i)
  {
    hide Owner;
    var ring := WithoutNode(values, j);
    var i' := Shifted(j, i);
    OwnerIsSuccessor(values, v, i);
    WithoutNodeAscending(values, j);
    OwnerIsSuccessor(ring, v, i');
    assert ring[i'] == values[i];
    if i' > 0 { assert ring[i' - 1] == values[if i' - 1 < j then i' - 1 else i']; }
    assert ring[|ring| - 1] == values[|values| - 1];
  }

  // ---------------------------------------------------------------- whole rings

  function Inserted(stores: seq<map<nat, string>>, j: nat, added: map<nat, string>, before: map<nat, string>): seq<map<nat, string>>
    requires j < |stores|
  {
    stores[..j] + [added, before] + stores[j + 1..]
  }

  /** The new node's own value stays behind, and so does what wraps round to a node inserted at the front. */
  predicate MovesRight(values: seq<nat>, j: nat, x: nat, k: nat)
    requires k < UINT64 && values != []
  {
    NodeValue(k) != x && !(j == 0 && NodeValue(k) > values[|values| - 1])
  }

  lemma InsertedStores(stores: seq<map<nat, string>>, j: nat, x: nat, added: map<nat, string>, before: map<nat, string>)
    requires j < |stores| && Keyed(stores[j])
    requires Moved(stores[j], map[], BelowNode(stores[j].Keys, x), {}, {}, before, added)
    ensures forall k :: k in stores[j] ==> k in Inserted(stores, j, added, before)[LeftOn(j, x, k)]
    ensures forall k :: k in added ==> k in stores[j] && LeftOn(j, x, k) == j
    ensures forall k :: k in before ==> k in stores[j] && LeftOn(j, x, k) == j + 1
  {
    hide NodeValue;
  }

  lemma InsertedRight(values: seq<nat>, stores: seq<map<nat, string>>, j: nat, x: nat,
                      added: map<nat, string>, before: map<nat, string>, i: nat, k: nat)
    requires Placed(values, stores) && FitsBefore(values, j, x)
    requires Moved(stores[j], map[], BelowNode(stores[j].Keys, x), {}, {}, before, added)
    requires forall k :: k in stores[j] ==> MovesRight(values, j, x, k)
    requires i < |stores| + 1 && k in Inserted(stores, j, added, before)[i]
    ensures k < UINT64 && Owner(WithNode(values, j, x), NodeValue(k)) == i
  {
    hide NodeValue, Owner, Moved, BelowNode;
    var after := Inserted(stores, j, added, before);
    if i < j {
      assert after[i] == stores[i];
      OthersStay(values, j, x, i, NodeValue(k));
    } else if i > j + 1 {
      assert after[i] == stores[i - 1];
      OthersStay(values, j, x, i - 1, NodeValue(k));
    } else {
      InsertedStores(stores, j, x, added, before);
      AddedWhereLookedUp(values, j, x, k);
    }
  }

  /**
   * Running the tool on a well placed ring with an empty new node and no failing database: the
   * enlarged ring is well placed exactly when no record of the split node has the new node's own
   * value or wraps round to a node inserted at the front.
   */
  lemma InsertKeepsPlaced(values: seq<nat>, stores: seq<map<nat, string>>, j: nat, x: nat,
                          added: map<nat, string>, before: map<nat, string>)
    requires Placed(values, stores) && FitsBefore(values, j, x)
    requires Moved(stores[j], map[], BelowNode(stores[j].Keys, x), {}, {}, before, added)
    ensures Placed(WithNode(values, j, x), Inserted(stores, j, added, before)) <==>
      forall k :: k in stores[j] ==> MovesRight(values, j, x, k)
  {
    hide NodeValue, Owner, Moved, BelowNode, LeftOn;
    var ring, after := WithNode(values, j, x), Inserted(stores, j, added, before);
    InsertedStores(stores, j, x, added, before);
    if Placed(ring, after) {
      forall k | k in stores[j]
        ensures MovesRight(values, j, x, k)
      {
        LeftOnOne(j, x, k);
        AddedWhereLookedUp(values, j, x, k);
      }
    }
    if forall k :: k in stores[j] ==> MovesRight(values, j, x, k) {
      forall i, k | 0 <= i < |after| && k in after[i]
        ensures k < UINT64 && Owner(ring, NodeValue(k)) == i
      {
        InsertedRight(values, stores, j, x, added, before, i, k);
      }
    }
  }

  lemma LeftOnOne(j: nat, x: nat, k: nat)
    requires k < UINT64
    ensures LeftOn(j, x, k) == j || LeftOn(j, x, k) == j + 1
  {
  }

  /** Such as a ring of one node at 32 whose one record has the value 16 of the node to be inserted. */
  lemma NewValueExample()
    ensures var values, stores, moved := [32], [map[16 := "record"]], map[];
      && Placed(values, stores) && FitsBefore(values, 0, 16) && NodeValue(16) == 16
      && Moved(stores[0], map[], BelowNode(stores[0].Keys, 16), {}, {}, stores[0], moved)
      && Owner(WithNode(values, 0, 16), NodeValue(16)) == 0 && stores[0] == Inserted(stores, 0, moved, stores[0])[1]
      && !Placed(WithNode(values, 0, 16), Inserted(stores, 0, moved, stores[0]))
  {
    var values, stores, moved: map<nat, string> := [32], [map[16 := "record"]], map[];
    assert NodeValue(16) == 16;
    assert BelowNode(stores[0].Keys, 16) == {};
    OwnerIsSuccessor(values, 16, 0);
    OwnerIsSuccessor(WithNode(values, 0, 16), 16, 0);
    InsertKeepsPlaced(values, stores, 0, 16, moved, stores[0]);
  }

  function Merged(stores: seq<map<nat, string>>, j: nat, before: map<nat, string>): seq<map<nat, string>>
    requires j + 1 < |stores|
  {
    stores[..j] + [before] + stores[j + 2..]
  }

  /** Deleting a node into its upper neighbour leaves the shrunk ring well placed. */
  lemma DeleteKeepsPlaced(values: seq<nat>, stores: seq<map<nat, string>>, j: nat,
                          deleted: map<nat, string>, before: map<nat, string>)
    requires Placed(values, stores) && Ascending(values) && j + 1 < |values|
    requires Moved(stores[j], stores[j + 1], stores[j].Keys, {}, {}, deleted, before)
    ensures deleted == map[]
    ensures Placed(WithoutNode(values, j), Merged(stores, j, before))
  {
    hide NodeValue;
    var ring, after := WithoutNode(values, j), Merged(stores, j, before);
    forall i, k | 0 <= i < |after| && k in after[i]
      ensures k < UINT64 && Owner(ring, NodeValue(k)) == i
    {
      if i == j {
        if k in stores[j] {
          DeletedWhereLookedUp(values, j, j + 1, NodeValue(k));
        } else {
          assert k in stores[j + 1];
          OthersStayDeleted(values, j, j + 1, NodeValue(k));
        }
      } else {
        var i0 := if i < j then i else i + 1;
        assert after[i] == stores[i0];
        OthersStayDeleted(values, j, i0, NodeValue(k));
      }
    }
  }
}

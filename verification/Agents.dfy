/**
 * The round-robin choice of an agent for a player (the allocation loops of
 * master_server/grpc_service.go), with its 32-bit position counter.
 */
module Agents {
  import opened Basics

  const UINT32 := 0x1_0000_0000

  datatype Agent = Agent(id: string, addr: string, available: bool)

  /** Try the next nodes in turn, at most `tries` of them; also the counter afterwards. */
  function Scan(agents: seq<Agent>, index: nat, tries: nat): (r: (Option<nat>, nat))
    ensures r.0.Some? ==> r.0.value < |agents| && agents[r.0.value].available
    ensures index < UINT32 ==> r.1 < UINT32
    decreases tries
  {
    if tries == 0 || agents == [] then (None, index)
    else if agents[index % |agents|].available then (Some(index % |agents|), (index + 1) % UINT32)
    else Scan(agents, (index + 1) % UINT32, tries - 1)
  }

  function Allocate(agents: seq<Agent>, index: nat): (r: (Option<nat>, nat))
    ensures r.0.Some? ==> r.0.value < |agents| && agents[r.0.value].available
    ensures index < UINT32 ==> r.1 < UINT32
  {
    Scan(agents, index, |agents|)
  }

  /** The loop, with the counter it leaves. */
  method AllocateAgent(agents: seq<Agent>, index: nat) returns (agent: Option<nat>, next: nat)
    requires index < UINT32
    ensures (agent, next) == Allocate(agents, index)
  {
    agent, next := None, index;
    var i := 0;
    while i < |agents|
      invariant i <= |agents| && next < UINT32
      invariant agent == None
      invariant Allocate(agents, index) == Scan(agents, next, |agents| - i)
    {
      var at := next % |agents|;
      next := (next + 1) % UINT32;
      if agents[at].available {
        agent := Some(at);
        return;
      }
      i := i + 1;
    }
  }

  ghost predicate SomeAvailable(agents: seq<Agent>) {
    exists a :: 0 <= a < |agents| && agents[a].available
  }

  // ---------------------------------------------------------------- finding an agent

  /** The node tried at attempt `t`. */
  function Tried(n: nat, index: nat, t: nat): (a: nat)
    requires 0 < n
    ensures a < n
  {
    (index + t) % UINT32 % n
  }

  lemma {:induction false} ScanFails(agents: seq<Agent>, index: nat, tries: nat)
    requires agents != [] && index < UINT32
    ensures Scan(agents, index, tries).0 == None
      <==> forall t :: 0 <= t < tries ==> !agents[Tried(|agents|, index, t)].available
    decreases tries
  {
    if tries > 0 {
      assert Tried(|agents|, index, 0) == index % |agents|;
      var next := (index + 1) % UINT32;
      ScanFails(agents, next, tries - 1);
      forall t: nat ensures Tried(|agents|, next, t) == Tried(|agents|, index, t + 1) {
        WrapTwice(index, t);
      }
      hide Tried;
      if !agents[index % |agents|].available {
        forall t | 0 < t < tries ensures Tried(|agents|, index, t) == Tried(|agents|, next, t - 1) {
          assert Tried(|agents|, next, t - 1) == Tried(|agents|, index, t - 1 + 1);
        }
      }
    }
  }

  lemma WrapTwice(x: nat, t: nat)
    ensures ((x + 1) % UINT32 + t) % UINT32 == (x + (t + 1)) % UINT32
  {
  }

  /** Without a wrap of the counter, or when the node count divides 2^32, every node is tried. */
  lemma TriesEveryNode(n: nat, index: nat, a: nat) returns (t: nat)
    requires a < n && index < UINT32
    requires index + n <= UINT32 || UINT32 % n == 0
    ensures t < n && Tried(n, index, t) == a
  {
    t := StepsTo(n, index, a);
    if index + t >= UINT32 {
      LessTheWrap(n, index + t);
      assert (index + t) % UINT32 == index + t - UINT32;
    }
  }

  lemma StepsTo(n: nat, index: nat, a: nat) returns (t: nat)
    requires a < n
    ensures t < n && (index + t) % n == a
  {
    var r, q := index % n, index / n;
    assert index == n * q + r;
    if a >= r {
      t := a - r;
      ModUnique(index + t, n, q, a);
    } else {
      t := a - r + n;
      assert n * (q + 1) == n * q + n;
      ModUnique(index + t, n, q + 1, a);
    }
  }

  lemma LessTheWrap(n: nat, x: nat)
    requires 0 < n && UINT32 % n == 0 && x >= UINT32
    ensures (x - UINT32) % n == x % n
  {
    var w, p := UINT32 / n, x / n;
    assert UINT32 == n * w && x == n * p + x % n;
    assert n * (p - w) == n * p - n * w;
    ModUnique(x - UINT32, n, p - w, x % n);
  }

  /** Otherwise the wrap makes the loop pass over some node. */
  lemma PassesOver(n: nat, index: nat) returns (a: nat)
    requires 0 < n < UINT32 && index < UINT32 < index + n && UINT32 % n != 0
    ensures a < n && forall t :: 0 <= t < n ==> Tried(n, index, t) != a
  {
    var before, r, w := UINT32 - index, UINT32 % n, UINT32 / n;
    assert UINT32 == n * w + r;
    a := if r >= before then n - 1 else if r >= n - before then r else n - before;
    forall t | 0 <= t < n
      ensures Tried(n, index, t) != a
    {
      if t >= before {
        assert (index + t) % UINT32 == t - before;
        ModUnique(t - before, n, 0, t - before);
      } else if r - before + t >= 0 {
        ModUnique(index + t, n, w, r - before + t);
      } else {
        assert n * (w - 1) == n * w - n;
        ModUnique(index + t, n, w - 1, n + r - before + t);
      }
    }
  }

  /**
   * The allocator returns an available agent whenever there is one, for every pattern of
   * availability, exactly when the counter does not wrap meanwhile or the wrap falls between two
   * rounds.
   */
  lemma AlwaysFindsExactly(n: nat, index: nat)
    requires 0 < n < UINT32 && index < UINT32
    ensures (forall agents: seq<Agent> :: |agents| == n && SomeAvailable(agents) ==> Allocate(agents, index).0.Some?)
      <==> (index + n <= UINT32 || UINT32 % n == 0)
  {
    if index + n <= UINT32 || UINT32 % n == 0 {
      forall agents: seq<Agent> | |agents| == n && SomeAvailable(agents)
        ensures Allocate(agents, index).0.Some?
      {
        var a :| 0 <= a < n && agents[a].available;
        var t := TriesEveryNode(n, index, a);
        ScanFails(agents, index, n);
      }
    } else {
      var a := PassesOver(n, index);
      var agents := seq(n, i => Agent("", "", i == a));
      assert agents[a].available;
      ScanFails(agents, index, n);
      assert Allocate(agents, index).0 == None;
    }
  }

  // ---------------------------------------------------------------- fair shares

  /** Positions `from .. from + len` that fall on node `a` of `n`. */
  function Hits(n: nat, from: nat, len: nat, a: nat): nat
    requires 0 < n
  {
    if len == 0 then 0 else Hits(n, from, len - 1, a) + (if (from + len - 1) % n == a then 1 else 0)
  }

  lemma {:induction false} HitsSplit(n: nat, from: nat, len: nat, more: nat, a: nat)
    requires 0 < n
    ensures Hits(n, from, len + more, a) == Hits(n, from, len, a) + Hits(n, from + len, more, a)
  {
    if more > 0 {
      HitsSplit(n, from, len, more - 1, a);
    }
  }

  lemma {:induction false} NoHits(n: nat, from: nat, len: nat, a: nat)
    requires 0 < n && forall x :: from <= x < from + len ==> x % n != a
    ensures Hits(n, from, len, a) == 0
  {
    if len > 0 {
      NoHits(n, from, len - 1, a);
      assert (from + (len - 1)) % n != a;
    }
  }

  lemma {:induction false} HitsClosed(n: nat, from: nat, len: nat, a: nat)
    requires a < n
    ensures Hits(n, from, len, a) == (from + n - 1 - a + len) / n - (from + n - 1 - a) / n
  {
    if len > 0 {
      HitsClosed(n, from, len - 1, a);
      NextQuotient(n, from + len - 1, a);
    }
  }

  lemma NextQuotient(n: nat, y: nat, a: nat)
    requires a < n
    ensures (y + n - a) / n == (y + n - a - 1) / n + (if y % n == a then 1 else 0)
  {
    QuotientAt(n, y / n, y % n, y, a);
  }

  lemma QuotientAt(n: nat, q: nat, r: nat, y: nat, a: nat)
    requires a < n && r < n && y == n * q + r
    ensures (y + n - a) / n == (y + n - a - 1) / n + (if r == a then 1 else 0)
  {
    if r >= a {
      Quotient(n, q + 1, r - a, y + n - a);
    } else {
      Quotient(n, q, n + r - a, y + n - a);
    }
    if r > a {
      Quotient(n, q + 1, r - a - 1, y + n - a - 1);
    } else {
      Quotient(n, q, n + r - a - 1, y + n - a - 1);
    }
  }

  lemma Quotient(n: nat, q: nat, r: nat, x: nat)
    requires r < n && (x == n * q + r || x == n * (q - 1) + n + r)
    ensures x / n == q
  {
    assert n * (q - 1) + n == n * q;
    ModUnique(x, n, q, r);
  }

  /** Any two nodes are hit equally often by a window, give or take one. */
  lemma HitsAreEven(n: nat, from: nat, len: nat, a: nat)
    requires a < n
    ensures len / n <= Hits(n, from, len, a) <= len / n + 1
  {
    HitsClosed(n, from, len, a);
    SumQuotient(n, from + n - 1 - a, len);
  }

  lemma SumQuotient(n: nat, c: nat, len: nat)
    requires 0 < n
    ensures len / n <= (c + len) / n - c / n <= len / n + 1
  {
    var q1, r1, q2, r2 := c / n, c % n, len / n, len % n;
    assert c == n * q1 + r1 && len == n * q2 + r2;
    var q := q1 + q2;
    assert n * q == n * q1 + n * q2;
    if r1 + r2 < n {
      ModUnique(c + len, n, q, r1 + r2);
    } else {
      assert n * (q + 1) == n * q + n;
      ModUnique(c + len, n, q + 1, r1 + r2 - n);
    }
  }

  /** The agents chosen by `k` allocations in a row, and the counter afterwards. */
  function Allocations(agents: seq<Agent>, index: nat, k: nat): (r: (seq<nat>, nat))
  {
    if k == 0 then ([], index)
    else
      var before := Allocations(agents, index, k - 1);
      var (agent, next) := Allocate(agents, before.1);
      (if agent.Some? then before.0 + [agent.value] else before.0, next)
  }

  function Count(picks: seq<nat>, a: nat): nat {
    if picks == [] then 0
    else Count(picks[..|picks| - 1], a) + (if picks[|picks| - 1] == a then 1 else 0)
  }

  function AvailableBelow(agents: seq<Agent>, n: nat): (m: nat)
    requires n <= |agents|
    ensures m <= n
  {
    if n == 0 then 0 else AvailableBelow(agents, n - 1) + (if agents[n - 1].available then 1 else 0)
  }

  lemma {:induction false} ScanStops(agents: seq<Agent>, index: nat, tries: nat)
    requires agents != [] && index + tries < UINT32
    ensures var (agent, next) := Scan(agents, index, tries);
      && index <= next <= index + tries
      && (agent.Some? ==> index < next && agent.value == (next - 1) % |agents|)
      && (agent.Some? ==> forall x :: index <= x < next - 1 ==> !agents[x % |agents|].available)
    decreases tries
  {
    if tries > 0 {
      assert (index + 1) % UINT32 == index + 1;
      if !agents[index % |agents|].available {
        ScanStops(agents, index + 1, tries - 1);
      }
    }
  }

  /** What the first `k` allocations have done, as a window of the counter. */
  ghost predicate Follows(agents: seq<Agent>, index: nat, picks: seq<nat>, end: nat)
    requires agents != []
  {
    && index <= end
    && (forall i :: 0 <= i < |picks| ==> picks[i] < |agents|)
    && forall a :: 0 <= a < |agents| ==>
         Count(picks, a) == if agents[a].available then Hits(|agents|, index, end - index, a) else 0
  }

  lemma OnePick(agents: seq<Agent>, index: nat, picks: seq<nat>, end: nat, next: nat)
    requires agents != [] && Follows(agents, index, picks, end) && end < next
    requires agents[(next - 1) % |agents|].available
    requires forall x :: end <= x < next - 1 ==> !agents[x % |agents|].available
    ensures Follows(agents, index, picks + [(next - 1) % |agents|], next)
  {
    var n, pick := |agents|, (next - 1) % |agents|;
    var more := picks + [pick];
    forall a | 0 <= a < n
      ensures Count(more, a) == if agents[a].available then Hits(n, index, next - index, a) else 0
    {
      assert more[..|more| - 1] == picks;
      if agents[a].available {
        HitsSplit(n, index, end - index, next - end, a);
        forall x | end <= x < next - 1 ensures x % n != a {
          assert !agents[x % n].available;
        }
        NoHits(n, end, next - 1 - end, a);
      }
    }
  }

  lemma {:induction false} AllocationsFollow(agents: seq<Agent>, index: nat, k: nat)
    requires SomeAvailable(agents) && index + |agents| * k < UINT32
    ensures var (picks, end) := Allocations(agents, index, k);
      && |picks| == k && end <= index + |agents| * k
      && Follows(agents, index, picks, end)
  {
    hide Follows, Allocate, SomeAvailable;
    if k == 0 {
      NothingYet(agents, index);
    } else {
      assert |agents| * k == |agents| * (k - 1) + |agents|;
      AllocationsFollow(agents, index, k - 1);
      var (picks, end) := Allocations(agents, index, k - 1);
      OneMore(agents, index, picks, end);
    }
  }

  lemma NothingYet(agents: seq<Agent>, index: nat)
    requires SomeAvailable(agents)
    ensures Follows(agents, index, [], index)
  {
  }

  lemma OneMore(agents: seq<Agent>, index: nat, picks: seq<nat>, end: nat)
    requires SomeAvailable(agents) && Follows(agents, index, picks, end) && end + |agents| < UINT32
    ensures var (agent, next) := Allocate(agents, end);
      agent.Some? && next <= end + |agents| && Follows(agents, index, picks + [agent.value], next)
  {
    hide Follows, Hits, Count;
    AlwaysFindsExactly(|agents|, end);
    ScanStops(agents, end, |agents|);
    OnePick(agents, index, picks, end, Allocate(agents, end).1);
  }

  /** The choices that fell on the first `n` nodes. */
  function CountBelow(picks: seq<nat>, n: nat): nat {
    if n == 0 then 0 else CountBelow(picks, n - 1) + Count(picks, n - 1)
  }

  lemma {:induction false} CountOneMore(init: seq<nat>, x: nat, n: nat)
    ensures CountBelow(init + [x], n) == CountBelow(init, n) + (if x < n then 1 else 0)
  {
    if n > 0 {
      CountOneMore(init, x, n - 1);
      assert (init + [x])[..|init|] == init;
    }
  }

  lemma {:induction false} CountNothing(n: nat)
    ensures CountBelow([], n) == 0
  {
    if n > 0 { CountNothing(n - 1); }
  }

  lemma {:induction false} CountsAddUp(picks: seq<nat>, n: nat)
    requires forall i :: 0 <= i < |picks| ==> picks[i] < n
    ensures CountBelow(picks, n) == |picks|
  {
    if picks == [] {
      CountNothing(n);
    } else {
      var init := picks[..|picks| - 1];
      assert picks == init + [picks[|picks| - 1]];
      CountsAddUp(init, n);
      CountOneMore(init, picks[|picks| - 1], n);
    }
  }

  /** Counts of `q` or `q + 1` on the available nodes bound their sum, strictly when one is off the bound. */
  lemma {:induction false} SumBounds(agents: seq<Agent>, picks: seq<nat>, q: nat, a: nat, n: nat)
    requires n <= |agents| && a < |agents| && agents[a].available
    requires forall b :: 0 <= b < n ==> if agents[b].available then q <= Count(picks, b) <= q + 1 else Count(picks, b) == 0
    ensures var m, sum := AvailableBelow(agents, n), CountBelow(picks, n);
      && q * m <= sum <= (q + 1) * m
      && (a < n && Count(picks, a) == q ==> sum < (q + 1) * m)
      && (a < n && Count(picks, a) == q + 1 ==> q * m < sum)
  {
    if n > 0 {
      SumBounds(agents, picks, q, a, n - 1);
      OneMoreTerm(q, AvailableBelow(agents, n - 1));
    }
  }

  lemma OneMoreTerm(q: nat, m: nat)
    ensures q * (m + 1) == q * m + q && (q + 1) * (m + 1) == (q + 1) * m + q + 1
  {
  }

  lemma BothQuotients(k: nat, m: nat, q: nat, r: nat)
    requires r < m && k == q * m + r
    ensures k / m == q && (k + m - 1) / m == if r == 0 then q else q + 1
  {
    ModUnique(k, m, q, r);
    if r == 0 {
      ModUnique(k + m - 1, m, q, m - 1);
    } else {
      assert (q + 1) * m == q * m + m;
      ModUnique(k + m - 1, m, q + 1, r - 1);
    }
  }

  lemma Shares(k: nat, m: nat, q: nat, count: nat)
    requires 0 < m && q <= count <= q + 1
    requires q * m <= k <= (q + 1) * m
    requires count == q ==> k < (q + 1) * m
    requires count == q + 1 ==> q * m < k
    ensures k / m <= count <= (k + m - 1) / m
  {
    assert (q + 1) * m == q * m + m;
    if k < (q + 1) * m { BothQuotients(k, m, q, k - q * m); } else { BothQuotients(k, m, q + 1, 0); }
  }

  lemma {:induction false} SomeBelow(agents: seq<Agent>, a: nat, n: nat)
    requires a < n <= |agents| && agents[a].available
    ensures AvailableBelow(agents, n) > 0
  {
    if a < n - 1 { SomeBelow(agents, a, n - 1); }
  }

  /**
   * Round robin is fair: over any `k` allocations that do not wrap the counter, every one of the
   * `m` available agents is chosen k/m times, rounded down or up.
   */
  lemma AllocationsAreFair(agents: seq<Agent>, index: nat, k: nat, a: nat)
    requires a < |agents| && agents[a].available && index + |agents| * k < UINT32
    ensures var (picks, _) := Allocations(agents, index, k);
      var m := AvailableBelow(agents, |agents|);
      |picks| == k && m > 0 && k / m <= Count(picks, a) <= (k + m - 1) / m
  {
    hide Allocations, Count, Hits, CountBelow, AvailableBelow;
    assert SomeAvailable(agents);
    AllocationsFollow(agents, index, k);
    var (picks, end) := Allocations(agents, index, k);
    var n, m, q := |agents|, AvailableBelow(agents, |agents|), (end - index) / |agents|;
    forall b | 0 <= b < n
      ensures if agents[b].available then q <= Count(picks, b) <= q + 1 else Count(picks, b) == 0
    {
      HitsAreEven(n, index, end - index, b);
    }
    CountsAddUp(picks, n);
    SomeBelow(agents, a, n);
    SumBounds(agents, picks, q, a, n);
    Shares(k, m, q, Count(picks, a));
  }
}

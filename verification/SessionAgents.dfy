/**
 * Which agent a player is sent to (Signin and CheckSession of master_server/grpc_service.go): the
 * answers and the stored records, told from the table of agents and the 32-bit counter alone.
 */
module SessionAgents {
  import opened Basics
  import opened Agents
  import opened Sessions

  /** The node that the counter points at after `t` steps. */
  function At(agents: seq<Agent>, index: nat, t: nat): (a: Agent)
    requires agents != []
  {
    agents[(index + t) % 0x1_0000_0000 % |agents|]
  }

  /** After `t` steps, fewer than there are nodes, the counter first points at an available node. */
  ghost predicate FirstAt(agents: seq<Agent>, index: nat, t: nat) {
    && t < |agents| && At(agents, index, t).available
    && forall u :: 0 <= u < t ==> !At(agents, index, u).available
  }

  ghost predicate NoneAt(agents: seq<Agent>, index: nat) {
    forall u :: 0 <= u < |agents| ==> !At(agents, index, u).available
  }

  /** The counter after `t` steps. */
  function Later(index: nat, t: nat): (r: nat)
    ensures r < 0x1_0000_0000
  {
    (index + t) % 0x1_0000_0000
  }

  lemma LaterStill(index: nat, t: nat)
    ensures Later(Later(index, 1), t) == Later(index, t + 1)
    ensures index < UINT32 ==> Later(index, 0) == index
  {
    WrapTwice(index, t);
  }

  lemma AtIs(agents: seq<Agent>, index: nat, t: nat)
    requires agents != []
    ensures At(agents, index, t) == agents[Later(index, t) % |agents|]
    ensures At(agents, Later(index, 1), t) == At(agents, index, t + 1)
  {
    LaterStill(index, t);
  }

  lemma ScanNext(agents: seq<Agent>, index: nat, tries: nat)
    requires agents != [] && index < UINT32
    ensures tries == 0 ==> Scan(agents, index, tries) == (None, index)
    ensures tries > 0 && agents[index % |agents|].available ==>
      Scan(agents, index, tries) == (Some(index % |agents|), Later(index, 1))
    ensures tries > 0 && !agents[index % |agents|].available ==>
      Scan(agents, index, tries) == Scan(agents, Later(index, 1), tries - 1)
  {
  }

  /** `t` tries find nothing; then there are none left or the next one finds a node. */
  lemma {:induction false} ScanIsFirst(agents: seq<Agent>, index: nat, tries: nat) returns (t: nat)
    requires agents != [] && index < UINT32
    ensures t <= tries && forall u :: 0 <= u < t ==> !At(agents, index, u).available
    ensures t < tries ==> At(agents, index, t).available
    ensures t < tries ==> Scan(agents, index, tries) == (Some(Later(index, t) % |agents|), Later(index, t + 1))
    ensures t == tries ==> Scan(agents, index, tries) == (None, Later(index, t))
    decreases tries
  {
    hide Scan, Later, At;
    ScanNext(agents, index, tries);
    LaterStill(index, 0);
    AtIs(agents, index, 0);
    if tries == 0 || At(agents, index, 0).available {
      t := 0;
    } else {
      var before := ScanIsFirst(agents, Later(index, 1), tries - 1);
      t := before + 1;
      AtIs(agents, index, before);
      LaterStill(index, before);
      LaterStill(index, before + 1);
      forall u | 0 < u < t ensures !At(agents, index, u).available {
        AtIs(agents, index, u - 1);
      }
    }
  }

  /** What the loop of both calls comes to. */
  lemma PickIsFirst(s: Master)
    requires s.index < UINT32
    ensures var (id, addr, next) := PickAgent(s);
      || (exists t :: 0 <= t < |s.agents| && FirstAt(s.agents, s.index, t)
            && (id, addr) == (At(s.agents, s.index, t).id, At(s.agents, s.index, t).addr)
            && next == (s.index + t + 1) % 0x1_0000_0000)
      || (NoneAt(s.agents, s.index) && (id, addr) == ("", "") && next == (s.index + |s.agents|) % 0x1_0000_0000)
  {
    hide At, Later, Scan;
    if s.agents == [] {
      assert Allocate(s.agents, s.index) == (None, s.index) by { NothingToScan(s.index); }
      assert s.index % 0x1_0000_0000 == s.index;
    } else {
      var t := ScanIsFirst(s.agents, s.index, |s.agents|);
      AtIs(s.agents, s.index, t);
      LaterIs(s.index, t);
      if t < |s.agents| { assert FirstAt(s.agents, s.index, t); }
    }
  }

  lemma NothingToScan(index: nat)
    ensures Scan([], index, 0) == (None, index)
  {
  }

  lemma LaterIs(index: nat, t: nat)
    ensures Later(index, t) == (index + t) % 0x1_0000_0000 && Later(index, t + 1) == (index + t + 1) % 0x1_0000_0000
  {
  }

  // ---------------------------------------------------------------- what the answers name

  /** The reply names the node that the counter points at after `t` steps. */
  predicate Sends(reply: Reply, s: Master, t: nat)
    requires s.agents != []
  {
    (reply.agentId, reply.agentAddr) == (At(s.agents, s.index, t).id, At(s.agents, s.index, t).addr)
  }

  /** The record and the counter after agent `t` steps on is taken for a sign-in. */
  ghost predicate SignedIn(s: Master, s': Master, p: nat, token: string, expiration: int, t: nat) {
    && FirstAt(s.agents, s.index, t)
    && s' == s.(index := (s.index + t + 1) % 0x1_0000_0000,
                records := s.records[p := Session(token, expiration, false,
                                                  At(s.agents, s.index, t).id, At(s.agents, s.index, t).addr, "")])
  }

  /**
   * A sign-in answered OK names, in the reply and in the stored record alike, the first available
   * node from the counter on; it is answered OK exactly when there is such a node, with an id, and
   * the record is stored.
   */
  lemma SigninNamesFirst(s: Master, r: Request, token: string, expiration: int, store: Store)
    requires s.index < 0x1_0000_0000
    ensures var (s', reply) := SigninStep(s, r, token, expiration, store);
      && (reply.code == OK <==>
            && r.playerId != 0 && store.reachable && store.saving == Saved
            && exists t :: FirstAt(s.agents, s.index, t) && At(s.agents, s.index, t).id != "")
      && (reply.code == OK ==>
            exists t :: SignedIn(s, s', r.playerId, token, expiration, t) && Sends(reply, s, t) && reply.sessionId == token)
      && (reply.code == InvalidParameter <==> r.playerId == 0) && reply.code != InvalidSession
      && (s'.records == s.records || exists t :: SignedIn(s, s', r.playerId, token, expiration, t))
  {
    hide At, PickAgent;
    PickIsFirst(s);
    if exists t :: FirstAt(s.agents, s.index, t) {
      var t: nat :| FirstAt(s.agents, s.index, t);
      assert FirstAt(s.agents, s.index, t);
      OneFirst(s.agents, s.index, t);
      var (id, addr, next) := PickAgent(s);
      assert (id, addr) == (At(s.agents, s.index, t).id, At(s.agents, s.index, t).addr);
      assert SignedIn(s, s.(index := next, records := s.records[r.playerId := Session(token, expiration, false, id, addr, "")]),
                      r.playerId, token, expiration, t);
    }
  }

  lemma OneFirst(agents: seq<Agent>, index: nat, t: nat)
    requires FirstAt(agents, index, t)
    ensures forall u :: FirstAt(agents, index, u) ==> u == t
    ensures !NoneAt(agents, index)
  {
    hide At;
    forall u | FirstAt(agents, index, u) ensures u == t { }
  }

  /**
   * A check answered OK names the first available node from the counter on when it asks for
   * another agent, and that of the record when it does not; the record is left with this agent,
   * and with the asking server, if one asks, in place of the one the reply gives.
   */
  lemma CheckNamesAgent(s: Master, r: Request, now: int, store: Store)
    requires s.index < 0x1_0000_0000 && CheckStep(s, r, now, store).1.code == OK
    ensures r.playerId in s.records
    ensures var (s', reply) := CheckStep(s, r, now, store);
      var was := s.records[r.playerId];
      && (r.reallocate ==>
            exists t :: FirstAt(s.agents, s.index, t) && Sends(reply, s, t) && s'.index == (s.index + t + 1) % 0x1_0000_0000)
      && (!r.reallocate ==> (reply.agentId, reply.agentAddr, s'.index) == (was.agentId, was.agentAddr, s.index))
      && reply.lastServer == (if r.server != "" then was.server else "") && reply.sessionId == ""
      && s'.agents == s.agents
      && s'.records == s.records[r.playerId := Session(
           was.id, was.expiration, was.online || r.server != "", reply.agentId, reply.agentAddr,
           if r.server != "" then r.server else was.server)]
  {
    hide At, PickAgent;
    PickIsFirst(s);
    var was := s.records[r.playerId];
    assert s.records[r.playerId := was] == s.records;
  }

  /**
   * Why a check is refused: a request that is not complete or a record that cannot be decoded; a
   * session that cannot be read, is another one or has expired; and for the rest an error.
   */
  lemma CheckRefusedExactly(s: Master, r: Request, now: int, store: Store)
    ensures var code := CheckStep(s, r, now, store).1.code;
      var complete := r.playerId != 0 && r.sessionId != "";
      && (code == InvalidParameter <==>
            !complete || (store.reachable && store.fetch == Garbled && r.playerId in s.records))
      && (code == InvalidSession <==>
            && complete && store.reachable
            && (|| store.fetch == Unfetched || r.playerId !in s.records
                || (&& store.fetch == Fetched
                    && (s.records[r.playerId].id != r.sessionId || now >= s.records[r.playerId].expiration))))
      && (complete && !store.reachable ==> code == Unknown)
  {
    hide PickAgent;
  }

  /** A sign-off that is answered well, or stored and reported as failed, leaves the record offline and otherwise as it was. */
  lemma OfflineKeepsRest(s: Master, r: Request, store: Store)
    ensures var (s', ok) := OfflineStep(s, r, store);
      var found := r.playerId != 0 && store.reachable && store.fetch == Fetched && r.playerId in s.records;
      && (ok <==> found && store.saving == Saved)
      && (s' != s ==> found && store.saving != NotSaved)
      && (found && store.saving != NotSaved ==>
            var was := s.records[r.playerId];
            s' == s.(records := s.records[r.playerId :=
              Session(was.id, was.expiration, false, was.agentId, was.agentAddr, was.server)]))
  {
  }

  // ---------------------------------------------------------------- sign-ins in a row

  /** The agents named by the answers to a run of sign-ins. */
  function Named(s: Master, steps: seq<Step>): seq<string> {
    if steps == [] then []
    else
      var init, step := steps[..|steps| - 1], steps[|steps| - 1];
      Named(s, init) +
      (if step.Signin? then [SigninStep(Run(s, init), step.r, step.token, step.expiration, step.store).1.agentId] else [])
  }

  /** A player signs in, and the store works. */
  predicate Good(step: Step) {
    step.Signin? && step.r.playerId != 0 && step.store.reachable && step.store.saving == Saved
  }

  ghost predicate AgentsOk(agents: seq<Agent>) {
    && (forall i :: 0 <= i < |agents| ==> agents[i].id != "")
    && forall i, j :: 0 <= i < j < |agents| ==> agents[i].id != agents[j].id
  }

  lemma SigninTakes(s: Master, step: Step)
    requires Good(step) && Allocate(s.agents, s.index).0.Some?
    requires s.agents[Allocate(s.agents, s.index).0.value].id != ""
    ensures var (pick, next) := Allocate(s.agents, s.index);
      var reply := SigninStep(s, step.r, step.token, step.expiration, step.store).1;
      && reply.code == OK && reply.agentId == s.agents[pick.value].id
      && Next(s, step).agents == s.agents && Next(s, step).index == next
  {
    hide Allocate;
  }

  /** The answers so far name the nodes picked so far. */
  ghost predicate Names(agents: seq<Agent>, picks: seq<nat>, names: seq<string>) {
    |names| == |picks| && forall i :: 0 <= i < |picks| ==> picks[i] < |agents| && names[i] == agents[picks[i]].id
  }

  lemma AllocationsNext(agents: seq<Agent>, index: nat, k: nat)
    requires SomeAvailable(agents) && index + |agents| * (k + 1) < UINT32
    ensures var (picks, end) := Allocations(agents, index, k);
      var (pick, next) := Allocate(agents, end);
      && pick.Some? && |picks| == k
      && Allocations(agents, index, k + 1) == (picks + [pick.value], next)
  {
    hide Allocate, SomeAvailable;
    assert |agents| * (k + 1) == |agents| * k + |agents|;
    AllocationsFollow(agents, index, k);
    AllocationsFollow(agents, index, k + 1);
  }

  lemma {:induction false} SigninsFollow(s: Master, steps: seq<Step>)
    requires AgentsOk(s.agents) && SomeAvailable(s.agents) && s.index + |s.agents| * |steps| < UINT32
    requires forall i :: 0 <= i < |steps| ==> Good(steps[i])
    ensures var (picks, end) := Allocations(s.agents, s.index, |steps|);
      && Run(s, steps).agents == s.agents && Run(s, steps).index == end
      && |picks| == |steps| && Names(s.agents, picks, Named(s, steps))
  {
    hide Allocate, SomeAvailable, Next, SigninStep, Good, Allocations, Names;
    if steps == [] {
      NothingAllocated(s);
    } else {
      var n := |steps| - 1;
      var init, step := steps[..n], steps[n];
      assert |s.agents| * |steps| == |s.agents| * n + |s.agents|;
      SigninsFollow(s, init);
      AllocationsNext(s.agents, s.index, n);
      assert Good(step);
      SigninTakes(Run(s, init), step);
      var (picks, end) := Allocations(s.agents, s.index, n);
      OneMoreName(s.agents, picks, Named(s, init), Allocate(s.agents, end).0.value);
      GoodIsSignin(step);
    }
  }

  lemma GoodIsSignin(step: Step)
    requires Good(step)
    ensures step.Signin?
  {
  }

  lemma NothingAllocated(s: Master)
    ensures Allocations(s.agents, s.index, 0) == ([], s.index) && Names(s.agents, [], [])
  {
  }

  lemma OneMoreName(agents: seq<Agent>, picks: seq<nat>, names: seq<string>, pick: nat)
    requires Names(agents, picks, names) && pick < |agents|
    ensures Names(agents, picks + [pick], names + [agents[pick].id])
  {
  }

  lemma {:induction false} NamesAreCounted(agents: seq<Agent>, picks: seq<nat>, names: seq<string>, a: nat)
    requires AgentsOk(agents) && a < |agents| && Names(agents, picks, names)
    ensures multiset(names)[agents[a].id] == Count(picks, a)
  {
    if picks != [] {
      var n := |picks| - 1;
      NamesAreCounted(agents, picks[..n], names[..n], a);
      assert names == names[..n] + [names[n]];
    }
  }

  lemma {:induction false} AvailableAreCounted(agents: seq<Agent>, n: nat)
    requires n <= |agents|
    ensures AvailableBelow(agents, n) == |set i | 0 <= i < n && agents[i].available|
  {
    var all := set i | 0 <= i < n && agents[i].available;
    if n > 0 {
      AvailableAreCounted(agents, n - 1);
      var before := set i | 0 <= i < n - 1 && agents[i].available;
      assert all == if agents[n - 1].available then before + {n - 1} else before;
    }
  }

  /**
   * The answers to any number of sign-ins in a row, with a working store and no wrap of the
   * counter, name each of the `m` available agents k/m times, rounded down or up.
   */
  lemma SigninsAreFair(s: Master, steps: seq<Step>, a: nat)
    requires AgentsOk(s.agents) && s.index + |s.agents| * |steps| < 0x1_0000_0000
    requires forall i :: 0 <= i < |steps| ==> Good(steps[i])
    requires a < |s.agents| && s.agents[a].available
    ensures var k, m := |steps|, |set i | 0 <= i < |s.agents| && s.agents[i].available|;
      && |Named(s, steps)| == k && m > 0
      && k / m <= multiset(Named(s, steps))[s.agents[a].id] <= (k + m - 1) / m
  {
    hide Count, AvailableBelow, Allocations, Named, Run;
    assert SomeAvailable(s.agents);
    SigninsFollow(s, steps);
    AllocationsAreFair(s.agents, s.index, |steps|, a);
    AvailableAreCounted(s.agents, |s.agents|);
    NamesAreCounted(s.agents, Allocations(s.agents, s.index, |steps|).0, Named(s, steps), a);
  }
}

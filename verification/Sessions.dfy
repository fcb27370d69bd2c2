/**
 * The master's session records (Signin, CheckSession and Offline of master_server/grpc_service.go)
 * over a store whose reads and writes may fail, and whose records may run out at any time.
 */
module Sessions {
  import opened Basics
  import opened Agents

  datatype Session = Session(
    id: string, expiration: int, online: bool,
    agentId: string, agentAddr: string, server: string)

  const BLANK := Session("", 0, false, "", "", "")

  datatype Request = Request(playerId: nat, sessionId: string, server: string, reallocate: bool)

  datatype Code = OK | InvalidParameter | InvalidSession | Unknown

  datatype Reply = Reply(code: Code, sessionId: string, agentId: string, agentAddr: string, lastServer: string)

  function Failure(code: Code): Reply { Reply(code, "", "", "", "") }

  /** What a read of the store brings, and what a write did and reported. */
  datatype Fetch = Fetched | Unfetched | Garbled
  datatype Saving = Saved | NotSaved | SavedButFailed

  /** How the store behaves during one call. */
  datatype Store = Store(reachable: bool, fetch: Fetch, saving: Saving)

  datatype Master = Master(records: map<nat, Session>, agents: seq<Agent>, index: nat)

  datatype Step =
    | Signin(r: Request, token: string, expiration: int, store: Store)
    | Check(r: Request, now: int, store: Store)
    | Offline(r: Request, store: Store)
    | Evict(playerId: nat)
    | SetAgents(agents: seq<Agent>)

  // ---------------------------------------------------------------- the calls

  function Save(s: Master, playerId: nat, session: Session, saving: Saving): Master {
    if saving == NotSaved then s else s.(records := s.records[playerId := session])
  }

  /** The agent picked, as id and address; both empty when there is none. */
  function PickAgent(s: Master): (string, string, nat) {
    var (pick, next) := Allocate(s.agents, s.index);
    if pick.Some? then (s.agents[pick.value].id, s.agents[pick.value].addr, next) else ("", "", next)
  }

  function SigninStep(s: Master, r: Request, token: string, expiration: int, store: Store): (Master, Reply) {
    if r.playerId == 0 then (s, Failure(InvalidParameter))
    else if !store.reachable then (s, Failure(Unknown))
    else
      var (agentId, agentAddr, next) := PickAgent(s);
      var s1 := s.(index := next);
      if agentId == "" then (s1, Failure(Unknown))
      else
        var session := Session(token, expiration, false, agentId, agentAddr, "");
        (Save(s1, r.playerId, session, store.saving),
         if store.saving == Saved then Reply(OK, token, agentId, agentAddr, "") else Failure(Unknown))
  }

  /** The record a request may use: present, of its session id, not yet expired. */
  predicate Usable(s: Master, r: Request, now: int) {
    && r.playerId in s.records
    && s.records[r.playerId].id == r.sessionId && now < s.records[r.playerId].expiration
  }

  function CheckStep(s: Master, r: Request, now: int, store: Store): (Master, Reply) {
    if r.playerId == 0 || r.sessionId == "" then (s, Failure(InvalidParameter))
    else if !store.reachable then (s, Failure(Unknown))
    else if store.fetch == Unfetched || r.playerId !in s.records then (s, Failure(InvalidSession))
    else if store.fetch == Garbled then (s, Failure(InvalidParameter))
    else if !Usable(s, r, now) then (s, Failure(InvalidSession))
    else Admit(s, r, store.saving)
  }

  /** CheckSession past its checks. */
  function Admit(s: Master, r: Request, saving: Saving): (Master, Reply)
    requires r.playerId in s.records
  {
    var old0 := s.records[r.playerId];
    var (agentId, agentAddr, next) := if r.reallocate then PickAgent(s) else (old0.agentId, old0.agentAddr, s.index);
    var s1 := s.(index := next);
    var moved := r.reallocate && agentAddr != "";
    var noAgent := r.reallocate && agentAddr == "";
    var elsewhere := r.server != "" && old0.online && old0.server != r.server;
    var claims := r.server != "" && !elsewhere;
    var session1 := if moved then old0.(agentId := agentId, agentAddr := agentAddr) else old0;
    var session2 := if claims then session1.(server := r.server, online := true) else session1;
    var lost := (moved || claims) && saving != Saved;
    (if moved || claims then Save(s1, r.playerId, session2, saving) else s1,
     Reply(if noAgent || elsewhere || lost then Unknown else OK, "",
           if noAgent then "" else agentId, if noAgent then "" else agentAddr,
           if claims then old0.server else ""))
  }

  /** Offline never looks at the session id; the reply is whether it worked. */
  function OfflineStep(s: Master, r: Request, store: Store): (Master, bool) {
    if r.playerId == 0 || !store.reachable || store.fetch != Fetched || r.playerId !in s.records then (s, false)
    else (Save(s, r.playerId, s.records[r.playerId].(online := false), store.saving), store.saving == Saved)
  }

  function Next(s: Master, step: Step): Master {
    match step
    case Signin(r, token, expiration, store) => SigninStep(s, r, token, expiration, store).0
    case Check(r, now, store) => CheckStep(s, r, now, store).0
    case Offline(r, store) => OfflineStep(s, r, store).0
    case Evict(playerId) => s.(records := s.records - {playerId})
    case SetAgents(agents) => s.(agents := agents)
  }

  function Run(s: Master, steps: seq<Step>): Master {
    if steps == [] then s else Next(Run(s, steps[..|steps| - 1]), steps[|steps| - 1])
  }

  // ---------------------------------------------------------------- the handlers

  class Service {
    var records: map<nat, Session>
    var agents: seq<Agent>
    var index: nat

    constructor (nodes: seq<Agent>)
      ensures Value() == Master(map[], nodes, 0)
    {
      records, agents, index := map[], nodes, 0;
    }

    ghost function Value(): Master
      reads this
    {
      Master(records, agents, index)
    }

    method Set(playerId: nat, session: Session, saving: Saving) returns (failed: bool)
      modifies this`records
      ensures Value() == Save(old(Value()), playerId, session, saving)
      ensures failed == (saving != Saved)
    {
      if saving != NotSaved {
        records := records[playerId := session];
      }
      failed := saving != Saved;
    }

    method TakeAgent() returns (id: string, addr: string)
      requires index < UINT32
      modifies this`index
      ensures (id, addr, index) == PickAgent(old(Value()))
      ensures index < UINT32
    {
      id, addr := "", "";
      var pick, next := AllocateAgent(agents, index);
      index := next;
      if pick.Some? {
        id, addr := agents[pick.value].id, agents[pick.value].addr;
      }
    }

    /** The stored record is never loaded: the test on the read's error is the wrong way round. */
    method SignIn(r: Request, token: string, expiration: int, store: Store) returns (reply: Reply)
      requires index < UINT32
      modifies this
      ensures (Value(), reply) == SigninStep(old(Value()), r, token, expiration, store)
    {
      reply := Failure(InvalidParameter);
      if r.playerId != 0 {
        if !store.reachable {
          reply := Failure(Unknown);
          return;
        }
        var session := BLANK.(id := token, expiration := expiration);
        var id, addr := TakeAgent();
        session := session.(agentId := id, agentAddr := addr);
        if session.agentId == "" {
          reply := Failure(Unknown);
        } else {
          var failed := Set(r.playerId, session, store.saving);
          reply := if failed then Failure(Unknown) else Reply(OK, token, session.agentId, session.agentAddr, "");
        }
      }
    }

    method CheckSession(r: Request, now: int, store: Store) returns (reply: Reply)
      requires index < UINT32
      modifies this
      ensures (Value(), reply) == CheckStep(old(Value()), r, now, store)
    {
      reply := Failure(InvalidParameter);
      if r.playerId != 0 && r.sessionId != "" {
        if !store.reachable {
          reply := Failure(Unknown);
          return;
        }
        if store.fetch == Unfetched || r.playerId !in records {
          reply := Failure(InvalidSession);
        } else if store.fetch != Garbled {
          var session := records[r.playerId];
          if session.id != r.sessionId || now - session.expiration >= 0 {
            reply := Failure(InvalidSession);
          } else {
            reply := Renew(r, store.saving);
          }
        }
      }
    }

    /** The rest of CheckSession: another agent, the server's claim, and saving. */
    method Renew(r: Request, saving: Saving) returns (reply: Reply)
      requires index < UINT32 && r.playerId in records
      modifies this
      ensures (Value(), reply) == Admit(old(Value()), r, saving)
    {
      var session := records[r.playerId];
      var needSave := false;
      reply := Failure(InvalidParameter);
      if r.reallocate {
        var id, addr := TakeAgent();
        if addr == "" {
          reply := reply.(code := Unknown);
        } else {
          reply := reply.(code := OK, agentId := id, agentAddr := addr);
          session := session.(agentId := id, agentAddr := addr);
          needSave := true;
        }
      } else {
        reply := reply.(code := OK, agentId := session.agentId, agentAddr := session.agentAddr);
      }
      if r.server != "" {
        if session.online && session.server != r.server {
          reply := reply.(code := Unknown);
        } else {
          reply := reply.(lastServer := session.server);
          session := session.(server := r.server, online := true);
          needSave := true;
        }
      }
      if needSave {
        var failed := Set(r.playerId, session, saving);
        if failed {
          reply := reply.(code := Unknown);
        }
      }
    }

    method GoOffline(r: Request, store: Store) returns (ok: bool)
      modifies this
      ensures (Value(), ok) == OfflineStep(old(Value()), r, store)
    {
      ok := false;
      if r.playerId != 0 {
        if !store.reachable {
          return;
        }
        if store.fetch != Unfetched && r.playerId in records && store.fetch != Garbled {
          var failed := Set(r.playerId, records[r.playerId].(online := false), store.saving);
          ok := !failed;
        }
      }
    }
  }

  // ---------------------------------------------------------------- one server at a time

  /** The player's record is online at `server`. */
  predicate OnlineAt(s: Master, p: nat, server: string) {
    p in s.records && s.records[p].online && s.records[p].server == server
  }

  /** A stored sign-in, a stored sign-off, or the record running out. */
  predicate Releases(s: Master, step: Step, p: nat) {
    match step
    case Signin(r, _, _, store) =>
      r.playerId == p && p != 0 && store.reachable && store.saving != NotSaved && PickAgent(s).0 != ""
    case Offline(r, store) =>
      r.playerId == p && p != 0 && store.reachable && store.saving != NotSaved && store.fetch == Fetched
    case Evict(playerId) => playerId == p
    case _ => false
  }

  /** A stored claim by a server that shows the current, unexpired session id of an offline player. */
  predicate Claims(s: Master, step: Step, p: nat, server: string) {
    && step.Check? && step.r.playerId == p && p != 0 && step.r.server == server && server != ""
    && step.r.sessionId != "" && Usable(s, step.r, step.now)
    && step.store.reachable && step.store.fetch == Fetched && step.store.saving != NotSaved
    && !s.records[p].online
  }

  /** Who holds a player after a step: the holder before, unless released, or a claimant. */
  lemma HolderAfter(s: Master, step: Step, p: nat, server: string)
    ensures OnlineAt(Next(s, step), p, server)
      <==> (OnlineAt(s, p, server) && !Releases(s, step, p)) || Claims(s, step, p, server)
  {
    hide PickAgent;
    match step
    case Signin(r, token, expiration, store) =>
    case Check(r, now, store) =>
    case _ =>
  }

  /** Who holds a player after a run: the last claimant, unless released since. */
  function Holder(s: Master, steps: seq<Step>, p: nat): Option<string> {
    if steps == [] then
      if p in s.records && s.records[p].online then Some(s.records[p].server) else None
    else
      var init, step := steps[..|steps| - 1], steps[|steps| - 1];
      NextHolder(Run(s, init), step, p, Holder(s, init, p))
  }

  function NextHolder(s: Master, step: Step, p: nat, holder: Option<string>): Option<string> {
    if Releases(s, step, p) then None
    else if step.Check? && Claims(s, step, p, step.r.server) then Some(step.r.server)
    else holder
  }

  ghost predicate HeldBy(s: Master, p: nat, holder: Option<string>) {
    forall server :: OnlineAt(s, p, server) <==> holder == Some(server)
  }

  lemma {:induction false} RecordShowsHolder(s: Master, steps: seq<Step>, p: nat)
    ensures HeldBy(Run(s, steps), p, Holder(s, steps, p))
  {
    hide Releases, Next, Claims;
    if steps != [] {
      var init, step := steps[..|steps| - 1], steps[|steps| - 1];
      RecordShowsHolder(s, init, p);
      HolderMoves(Run(s, init), step, p, Holder(s, init, p));
    }
  }

  lemma HolderMoves(s: Master, step: Step, p: nat, holder: Option<string>)
    requires HeldBy(s, p, holder)
    ensures HeldBy(Next(s, step), p, NextHolder(s, step, p, holder))
  {
    hide Releases, Next, Usable;
    forall server
      ensures OnlineAt(Next(s, step), p, server) <==> NextHolder(s, step, p, holder) == Some(server)
    {
      HolderAfter(s, step, p, server);
      assert OnlineAt(s, p, server) <==> holder == Some(server);
      if p in s.records && s.records[p].online { assert OnlineAt(s, p, s.records[p].server); }
      ReleasesAreNoChecks(s, step, p);
    }
  }

  lemma ReleasesAreNoChecks(s: Master, step: Step, p: nat)
    ensures Releases(s, step, p) ==> !step.Check?
  {
  }

  /** A player stays online at its server all through a run exactly when no step releases it. */
  lemma HeldUntilReleased(s: Master, steps: seq<Step>, p: nat, server: string)
    requires OnlineAt(s, p, server)
    ensures (forall k :: 0 <= k <= |steps| ==> OnlineAt(Run(s, steps[..k]), p, server))
      <==> (forall k :: 0 <= k < |steps| ==> !Releases(Run(s, steps[..k]), steps[k], p))
  {
    hide Releases, Next, OnlineAt, Run;
    if forall k :: 0 <= k <= |steps| ==> OnlineAt(Run(s, steps[..k]), p, server) {
      forall k | 0 <= k < |steps|
        ensures !Releases(Run(s, steps[..k]), steps[k], p)
      {
        RunNext(s, steps, k);
        assert OnlineAt(Run(s, steps[..k + 1]), p, server);
        HeldStep(Run(s, steps[..k]), steps[k], p, server);
      }
    }
    if forall k :: 0 <= k < |steps| ==> !Releases(Run(s, steps[..k]), steps[k], p) {
      forall k | 0 <= k <= |steps|
        ensures OnlineAt(Run(s, steps[..k]), p, server)
      {
        HeldUpTo(s, steps, k, p, server);
      }
    }
  }

  lemma {:induction false} HeldUpTo(s: Master, steps: seq<Step>, k: nat, p: nat, server: string)
    requires k <= |steps| && OnlineAt(s, p, server)
    requires forall i :: 0 <= i < k ==> !Releases(Run(s, steps[..i]), steps[i], p)
    ensures OnlineAt(Run(s, steps[..k]), p, server)
  {
    hide Releases, Next, OnlineAt;
    if k > 0 {
      hide Run;
      HeldUpTo(s, steps, k - 1, p, server);
      RunNext(s, steps, k - 1);
      HeldStep(Run(s, steps[..k - 1]), steps[k - 1], p, server);
    }
  }

  lemma RunNext(s: Master, steps: seq<Step>, k: nat)
    requires k < |steps|
    ensures Run(s, steps[..k + 1]) == Next(Run(s, steps[..k]), steps[k])
  {
    assert steps[..k + 1][..k] == steps[..k];
  }

  lemma HeldStep(s: Master, step: Step, p: nat, server: string)
    requires OnlineAt(s, p, server)
    ensures OnlineAt(Next(s, step), p, server) <==> !Releases(s, step, p)
  {
    hide Next, Releases;
    HolderAfter(s, step, p, server);
  }

  /** Another server gets the player only after a sign-off, a sign-in or the record running out. */
  lemma TakeoverNeedsRelease(s: Master, steps: seq<Step>, p: nat, server: string, other: string)
    requires OnlineAt(s, p, server) && OnlineAt(Run(s, steps), p, other) && other != server
    ensures exists k :: 0 <= k < |steps| && Releases(Run(s, steps[..k]), steps[k], p)
  {
    hide Releases, Run;
    HeldUntilReleased(s, steps, p, server);
    if forall k :: 0 <= k < |steps| ==> !Releases(Run(s, steps[..k]), steps[k], p) {
      assert steps[..|steps|] == steps;
      assert OnlineAt(Run(s, steps[..|steps|]), p, server);
      assert false;
    }
  }

  // ---------------------------------------------------------------- only the latest session id

  /** The id and expiry of the last stored sign-in, unless the record ran out after it. */
  function Latest(s: Master, steps: seq<Step>, p: nat): Option<(string, int)> {
    if steps == [] then
      if p in s.records then Some((s.records[p].id, s.records[p].expiration)) else None
    else
      var init, step := steps[..|steps| - 1], steps[|steps| - 1];
      LatestAfter(Run(s, init), step, p, Latest(s, init, p))
  }

  function LatestAfter(s: Master, step: Step, p: nat, latest: Option<(string, int)>): Option<(string, int)> {
    if Releases(s, step, p) && step.Signin? then Some((step.token, step.expiration))
    else if step == Evict(p) then None
    else latest
  }

  ghost predicate Holds(s: Master, p: nat, latest: Option<(string, int)>) {
    && (p in s.records <==> latest.Some?)
    && (latest.Some? ==> (s.records[p].id, s.records[p].expiration) == latest.value)
  }

  lemma {:induction false} RecordIsLatest(s: Master, steps: seq<Step>, p: nat)
    ensures Holds(Run(s, steps), p, Latest(s, steps, p))
  {
    hide Releases, Next;
    if steps != [] {
      var init, step := steps[..|steps| - 1], steps[|steps| - 1];
      RecordIsLatest(s, init, p);
      StepKeepsId(Run(s, init), step, p);
    }
  }

  lemma StepKeepsId(s: Master, step: Step, p: nat)
    ensures var s' := Next(s, step);
      forall latest :: Holds(s, p, latest) ==> Holds(s', p, LatestAfter(s, step, p, latest))
  {
    hide PickAgent;
  }

  /**
   * A call that reaches the store and reads it is let past the session checks exactly when it
   * shows the id of the last stored sign-in, that id is not expired and the record is still there.
   */
  lemma AdmittedExactly(s: Master, steps: seq<Step>, r: Request, now: int, store: Store)
    requires r.playerId != 0 && r.sessionId != "" && store.reachable && store.fetch == Fetched
    ensures var reply := CheckStep(Run(s, steps), r, now, store).1;
      var latest := Latest(s, steps, r.playerId);
      reply.code != InvalidSession <==> latest.Some? && latest.value.0 == r.sessionId && now < latest.value.1
  {
    hide PickAgent, Run, Latest;
    RecordIsLatest(s, steps, r.playerId);
  }

  /** No two sign-ins of the run draw the same session id. */
  ghost predicate FreshIds(steps: seq<Step>) {
    forall i, j :: 0 <= i < j < |steps| && steps[i].Signin? && steps[j].Signin? ==> steps[i].token != steps[j].token
  }

  ghost predicate StoredSignin(s: Master, steps: seq<Step>, k: nat, p: nat)
    requires k < |steps|
  {
    steps[k].Signin? && Releases(Run(s, steps[..k]), steps[k], p)
  }

  /** The latest id, if there is one, was drawn by a sign-in no older than step `j`. */
  lemma {:induction false} LatestIsRecent(s: Master, steps: seq<Step>, j: nat, p: nat)
    requires j < |steps| && StoredSignin(s, steps, j, p)
    ensures var latest := Latest(s, steps, p);
      latest.Some? ==> exists k :: j <= k < |steps| && steps[k].Signin? && steps[k].token == latest.value.0
  {
    hide Releases;
    var n := |steps| - 1;
    var init := steps[..n];
    if j < n {
      assert init[..j] == steps[..j];
      LatestIsRecent(s, init, j, p);
      if Latest(s, init, p).Some? {
        var k :| j <= k < n && init[k].Signin? && init[k].token == Latest(s, init, p).value.0;
        assert steps[k] == init[k];
      }
    }
  }

  /**
   * A session id is refused for good once a later sign-in of its player has been stored: whatever
   * happens afterwards, a check that shows it changes nothing and is never answered OK.
   */
  lemma OldSessionsRefused(s: Master, steps: seq<Step>, i: nat, j: nat, r: Request, now: int, store: Store)
    requires FreshIds(steps) && i < j < |steps| && steps[i].Signin?
    requires StoredSignin(s, steps, j, r.playerId) && r.sessionId == steps[i].token
    ensures var (s', reply) := CheckStep(Run(s, steps), r, now, store);
      s' == Run(s, steps) && reply.code != OK
  {
    hide Run, Latest, Releases, StoredSignin;
    LatestIsRecent(s, steps, j, r.playerId);
    RecordIsLatest(s, steps, r.playerId);
  }

  /** A sign-in that is answered OK is stored, and its session id is admitted right away. */
  lemma SigninOpens(s: Master, r: Request, token: string, expiration: int, store: Store)
    requires SigninStep(s, r, token, expiration, store).1.code == OK
    ensures Releases(s, Signin(r, token, expiration, store), r.playerId)
    ensures forall q: Request, now: int :: q.playerId == r.playerId ==>
      (Usable(SigninStep(s, r, token, expiration, store).0, q, now) <==> q.sessionId == token && now < expiration)
  {
  }

  /**
   * The session id of a sign-in answered OK is the latest one until another sign-in of its player
   * is stored or the record runs out.
   */
  lemma {:induction false} SigninLasts(s: Master, steps: seq<Step>, j: nat, p: nat)
    requires j < |steps| && steps[j].Signin? && steps[j].r.playerId == p
    requires var step := steps[j];
      SigninStep(Run(s, steps[..j]), step.r, step.token, step.expiration, step.store).1.code == OK
    requires forall k :: j < k < |steps| ==> !StoredSignin(s, steps, k, p) && steps[k] != Evict(p)
    ensures Latest(s, steps, p) == Some((steps[j].token, steps[j].expiration))
  {
    hide Releases, Run;
    var n := |steps| - 1;
    var init := steps[..n];
    if j == n {
      SigninOpens(Run(s, init), steps[j].r, steps[j].token, steps[j].expiration, steps[j].store);
    } else {
      assert init[..j] == steps[..j];
      forall k | j < k < n ensures !StoredSignin(s, init, k, p) && init[k] != Evict(p) {
        assert init[..k] == steps[..k];
        assert !StoredSignin(s, steps, k, p);
      }
      SigninLasts(s, init, j, p);
      assert !StoredSignin(s, steps, n, p);
    }
  }

  /**
   * A sign-in forgets the server the player was online at, so the next server that shows the new
   * session takes the player while the first still runs it.
   */
  lemma SigninForgetsServer(s: Master, r: Request, token: string, expiration: int, store: Store, server: string)
    requires SigninStep(s, r, token, expiration, store).1.code == OK && server != "" && token != ""
    ensures var s1 := SigninStep(s, r, token, expiration, store).0;
      forall now: int :: now < expiration ==>
        OnlineAt(CheckStep(s1, Request(r.playerId, token, server, false), now, Store(true, Fetched, Saved)).0, r.playerId, server)
  {
    hide PickAgent;
  }

  /**
   * CheckSession is answered OK exactly when the session is usable, an agent is found if one is
   * asked for, the player is not online elsewhere, and nothing to be saved fails to be.
   */
  lemma CheckIsOKExactly(s: Master, r: Request, now: int, store: Store)
    ensures CheckStep(s, r, now, store).1.code == OK
      <==> (&& r.playerId != 0 && r.sessionId != "" && store.reachable && store.fetch == Fetched
            && Usable(s, r, now)
            && (r.reallocate ==> PickAgent(s).1 != "")
            && (r.server != "" && s.records[r.playerId].online ==> s.records[r.playerId].server == r.server)
            && (r.reallocate || r.server != "" ==> store.saving == Saved))
  {
    hide PickAgent;
  }

  /**
   * After any run, a check is answered OK exactly when it shows the id of the last stored sign-in,
   * unexpired and still on record, an agent is found if one is asked for, nobody but the asking
   * server holds the player, and nothing to be saved fails to be.
   */
  lemma ServedExactly(s: Master, steps: seq<Step>, r: Request, now: int, store: Store)
    ensures var latest, holder := Latest(s, steps, r.playerId), Holder(s, steps, r.playerId);
      CheckStep(Run(s, steps), r, now, store).1.code == OK
      <==> (&& r.playerId != 0 && r.sessionId != "" && store.reachable && store.fetch == Fetched
            && latest.Some? && latest.value.0 == r.sessionId && now < latest.value.1
            && (r.reallocate ==> PickAgent(Run(s, steps)).1 != "")
            && (r.server != "" ==> holder == None || holder == Some(r.server))
            && (r.reallocate || r.server != "" ==> store.saving == Saved))
  {
    hide PickAgent, Run, Latest, Holder, CheckStep;
    var p, now' := r.playerId, Run(s, steps);
    RecordIsLatest(s, steps, p);
    RecordShowsHolder(s, steps, p);
    CheckIsOKExactly(now', r, now, store);
    if p in now'.records && now'.records[p].online {
      assert OnlineAt(now', p, now'.records[p].server);
    } else if Holder(s, steps, p).Some? {
      assert !OnlineAt(now', p, Holder(s, steps, p).value);
    }
  }

  /**
   * A check can claim the player and still be answered with an error: when no agent is left to
   * reallocate, or when the write is applied but reported as failed.
   */
  lemma ClaimedDespiteError(s: Master, r: Request, now: int, store: Store)
    requires Claims(s, Check(r, now, store), r.playerId, r.server)
    ensures OnlineAt(CheckStep(s, r, now, store).0, r.playerId, r.server)
    ensures CheckStep(s, r, now, store).1.code != OK
      <==> (r.reallocate && PickAgent(s).1 == "") || store.saving == SavedButFailed
  {
    hide PickAgent;
  }

  /** Such as a server's first claim that also asks for another agent when none is available. */
  lemma ClaimedExample()
    ensures var s := Master(map[1 := Session("token", 10, false, "agent", "address", "")], [], 0);
      var r := Request(1, "token", "server", true);
      var (s', reply) := CheckStep(s, r, 0, Store(true, Fetched, Saved));
      OnlineAt(s', 1, "server") && reply.code == Unknown
  {
  }
}

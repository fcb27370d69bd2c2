/**
 * Signing up (account_server/account.go): a name is checked and indexed on the node that owns the
 * name, the record is stored on the node that owns the player id, and ids come from the leading
 * master (master_server/grpc_service.go). Every call may fail, or do its work and still report
 * failure; any number of signups interleave call by call.
 */
module Signup {
  import opened Basics
  import opened Ring

  /** The database ring and the hash that places names on it. */
  datatype Nodes = Nodes(values: seq<nat>, hash: string -> nat)

  type Cluster = c: Nodes | c.values != [] witness Nodes([0], _ => 0)

  function NodeOfName(c: Cluster, name: string): nat
  {
    Owner(c.values, c.hash(name))
  }

  function NodeOfId(c: Cluster, id: nat): nat
    requires id < UINT64
  {
    Owner(c.values, NodeValue(id))
  }

  datatype Account = Account(playerId: nat, name: string, password: string)

  /** Where a signup stands; `Over` holds the id it reports, 0 when it failed. */
  datatype Phase = Asking | Free | Drawn(id: nat) | Indexed(id: nat) | Over(id: nat)

  datatype Process = Process(name: string, password: string, phase: Phase)

  /**
   * Databases are keyed by node and key. `drawn` remembers, for the statements only, which
   * signup drew each id.
   */
  datatype State = State(
    counter: nat,
    index: map<(nat, string), nat>,
    accounts: map<(nat, nat), Account>,
    processes: seq<Process>,
    drawn: map<nat, nat>)

  /** What a call did and what its caller was told. */
  datatype Effect = Fine | NotDone | DoneButFailed

  datatype Step =
    | Join(name: string, password: string)
    | Check(p: nat, effect: Effect, unreadable: bool)
    | Draw(p: nat, effect: Effect)
    | PutIndex(p: nat, effect: Effect)
    | PutAccount(p: nat, effect: Effect)

  function Move(s: State, p: nat, phase: Phase): State
    requires p < |s.processes|
  {
    s.(processes := s.processes[p := s.processes[p].(phase := phase)])
  }

  // ---------------------------------------------------------------- the calls

  /** CHK: an entry that cannot be read counts as absent. */
  function CheckStep(c: Cluster, s: State, p: nat, effect: Effect, unreadable: bool): State
    requires p < |s.processes| && s.processes[p].phase == Asking
  {
    var name := s.processes[p].name;
    if effect != Fine then Move(s, p, Over(0))
    else if (NodeOfName(c, name), name) in s.index && !unreadable then Move(s, p, Over(0))
    else Move(s, p, Free)
  }

  /** GetNewPlayerId: the leader's 64-bit counter. */
  function DrawStep(s: State, p: nat, effect: Effect): State
    requires p < |s.processes| && s.processes[p].phase == Free
  {
    if effect == NotDone then Move(s, p, Over(0))
    else
      var id := (s.counter + 1) % UINT64;
      var s1 := s.(counter := id, drawn := s.drawn[id := p]);
      Move(s1, p, if effect == Fine then Drawn(id) else Over(0))
  }

  function PutIndexStep(c: Cluster, s: State, p: nat, effect: Effect): State
    requires p < |s.processes| && s.processes[p].phase.Drawn?
  {
    var name, id := s.processes[p].name, s.processes[p].phase.id;
    var s1 := if effect == NotDone then s else s.(index := s.index[(NodeOfName(c, name), name) := id]);
    Move(s1, p, if effect == Fine then Indexed(id) else Over(0))
  }

  function PutAccountStep(c: Cluster, s: State, p: nat, effect: Effect): State
    requires p < |s.processes| && s.processes[p].phase.Indexed? && s.processes[p].phase.id < UINT64
  {
    var id := s.processes[p].phase.id;
    var record := Account(id, s.processes[p].name, s.processes[p].password);
    var s1 := if effect == NotDone then s else s.(accounts := s.accounts[(NodeOfId(c, id), id) := record]);
    Move(s1, p, if effect == Fine then Over(id) else Over(0))
  }

  /** One step; a step whose process is not at that point changes nothing. */
  function Next(c: Cluster, s: State, step: Step): State
  {
    match step
    case Join(name, password) => s.(processes := s.processes + [Process(name, password, Asking)])
    case Check(p, effect, unreadable) =>
      if p < |s.processes| && s.processes[p].phase == Asking then CheckStep(c, s, p, effect, unreadable) else s
    case Draw(p, effect) =>
      if p < |s.processes| && s.processes[p].phase == Free then DrawStep(s, p, effect) else s
    case PutIndex(p, effect) =>
      if p < |s.processes| && s.processes[p].phase.Drawn? then PutIndexStep(c, s, p, effect) else s
    case PutAccount(p, effect) =>
      if p < |s.processes| && s.processes[p].phase.Indexed? && s.processes[p].phase.id < UINT64
      then PutAccountStep(c, s, p, effect) else s
  }

  function Run(c: Cluster, s: State, steps: seq<Step>): State
  {
    if steps == [] then s
    else Next(c, Run(c, s, steps[..|steps| - 1]), steps[|steps| - 1])
  }

  // ---------------------------------------------------------------- signing in by name

  datatype FindResult = Found(account: Account) | NoSuchName | NoRecord

  /** getAccountDataByAccount: through the index to the record. */
  function Find(c: Cluster, s: State, name: string): FindResult
  {
    var key := (NodeOfName(c, name), name);
    if key !in s.index then NoSuchName
    else
      var id := s.index[key];
      if id < UINT64 && (NodeOfId(c, id), id) in s.accounts then Found(s.accounts[(NodeOfId(c, id), id)])
      else NoRecord
  }

  // ---------------------------------------------------------------- the invariant

  const START := State(0, map[], map[], [], map[])

  /** The signup that drew an id. */
  function Drawer(s: State, id: nat): Process
    requires id in s.drawn && s.drawn[id] < |s.processes|
  {
    s.processes[s.drawn[id]]
  }

  /** Ids in use are distinct, were drawn once each, and lie between 1 and the counter. */
  ghost predicate DrawnOk(s: State) {
    && s.counter < UINT64
    && (forall id :: id in s.drawn ==> 0 < id <= s.counter && s.drawn[id] < |s.processes|)
    && (forall id1, id2 :: id1 in s.drawn && id2 in s.drawn && s.drawn[id1] == s.drawn[id2] ==> id1 == id2)
  }

  ghost predicate NeverDrew(s: State, p: nat) {
    forall id :: id in s.drawn ==> s.drawn[id] != p
  }

  ghost predicate Drew(s: State, p: nat, id: nat) {
    id in s.drawn && s.drawn[id] == p
  }

  /** A signup before its draw has no id; after it, it works with the id it drew. */
  ghost predicate PhaseOk(s: State, p: nat)
    requires p < |s.processes|
  {
    match s.processes[p].phase
    case Asking => NeverDrew(s, p)
    case Free => NeverDrew(s, p)
    case Drawn(id) => Drew(s, p, id)
    case Indexed(id) => Drew(s, p, id)
    case Over(id) => id != 0 ==> Drew(s, p, id)
  }

  ghost predicate IndexOk(c: Cluster, s: State)
    requires DrawnOk(s)
  {
    forall key :: key in s.index ==>
      && key.0 == NodeOfName(c, key.1)
      && s.index[key] in s.drawn && Drawer(s, s.index[key]).name == key.1
  }

  ghost predicate AccountsOk(c: Cluster, s: State)
    requires DrawnOk(s)
  {
    forall key :: key in s.accounts ==>
      && key.1 in s.drawn && key.0 == NodeOfId(c, key.1)
      && s.accounts[key] == Account(key.1, Drawer(s, key.1).name, Drawer(s, key.1).password)
  }

  /** A signup past a store finds an entry there: of its index, and at the end of its record. */
  ghost predicate Stored(c: Cluster, s: State, p: nat)
    requires p < |s.processes|
  {
    var phase, name := s.processes[p].phase, s.processes[p].name;
    && (phase.Over? && phase.id != 0 ==> phase.id < UINT64 && (NodeOfId(c, phase.id), phase.id) in s.accounts)
    && (phase.Indexed? || (phase.Over? && phase.id != 0) ==> (NodeOfName(c, name), name) in s.index)
  }

  ghost predicate Inv(c: Cluster, s: State)
  {
    && DrawnOk(s)
    && (forall p :: 0 <= p < |s.processes| ==> PhaseOk(s, p) && Stored(c, s, p))
    && IndexOk(c, s) && AccountsOk(c, s)
  }

  // ---------------------------------------------------------------- every call keeps it

  /** Signups keep their names and passwords, ids the signup that drew them. */
  ghost predicate Extends(s: State, s': State) {
    && |s.processes| <= |s'.processes|
    && (forall p :: 0 <= p < |s.processes| ==>
          s'.processes[p].name == s.processes[p].name && s'.processes[p].password == s.processes[p].password)
    && forall id :: id in s.drawn ==> id in s'.drawn && s'.drawn[id] == s.drawn[id]
  }

  lemma DataStays(c: Cluster, s: State, s': State)
    requires DrawnOk(s) && DrawnOk(s') && Extends(s, s')
    ensures IndexOk(c, s) && s'.index == s.index ==> IndexOk(c, s')
    ensures AccountsOk(c, s) && s'.accounts == s.accounts ==> AccountsOk(c, s')
  {
    hide NodeOfName, NodeOfId;
    assert forall id :: id in s.drawn ==>
      Drawer(s', id).name == Drawer(s, id).name && Drawer(s', id).password == Drawer(s, id).password;
  }

  lemma JoinKeepsInv(c: Cluster, s: State, name: string, password: string)
    requires Inv(c, s)
    ensures Inv(c, Next(c, s, Join(name, password)))
  {
    hide NodeOfName, NodeOfId, IndexOk, AccountsOk;
    var s' := Next(c, s, Join(name, password));
    DataStays(c, s, s');
    forall p | 0 <= p < |s'.processes|
      ensures PhaseOk(s', p) && Stored(c, s', p)
    {
      if p < |s.processes| { assert PhaseOk(s, p) && Stored(c, s, p) && s'.processes[p] == s.processes[p]; }
    }
  }

  /** Everyone else is untouched when one signup moves and the data only grows. */
  lemma OthersKeep(c: Cluster, s: State, s': State, p: nat)
    requires Inv(c, s) && p < |s.processes|
    requires |s'.processes| == |s.processes|
    requires forall q :: 0 <= q < |s.processes| && q != p ==> s'.processes[q] == s.processes[q]
    requires s'.drawn == s.drawn && s.accounts.Keys <= s'.accounts.Keys && s.index.Keys <= s'.index.Keys
    requires PhaseOk(s', p) && Stored(c, s', p)
    ensures forall q :: 0 <= q < |s'.processes| ==> PhaseOk(s', q) && Stored(c, s', q)
  {
    hide NodeOfName, NodeOfId, IndexOk, AccountsOk;
    forall q | 0 <= q < |s'.processes|
      ensures PhaseOk(s', q) && Stored(c, s', q)
    {
      if q != p { assert PhaseOk(s, q) && Stored(c, s, q); }
    }
  }

  /** Moving a signup to a phase its id allows. */
  lemma MoveKeepsInv(c: Cluster, s: State, p: nat, phase: Phase)
    requires Inv(c, s) && p < |s.processes|
    requires phase == Over(0) || (phase == Free && s.processes[p].phase == Asking)
    ensures Inv(c, Move(s, p, phase))
  {
    hide NodeOfName, NodeOfId, IndexOk, AccountsOk;
    var s' := Move(s, p, phase);
    assert PhaseOk(s, p);
    DataStays(c, s, s');
    OthersKeep(c, s, s', p);
  }

  lemma StoredKeeps(c: Cluster, s: State, s': State, q: nat)
    requires s'.index == s.index && s'.accounts == s.accounts && q < |s.processes| && q < |s'.processes|
    ensures s'.processes[q] == s.processes[q] && Stored(c, s, q) ==> Stored(c, s', q)
    ensures s'.processes[q].phase.Drawn? || s'.processes[q].phase == Over(0) ==> Stored(c, s', q)
  {
  }

  lemma DrawKeepsInv(c: Cluster, s: State, p: nat, effect: Effect)
    requires Inv(c, s) && s.counter + 1 < UINT64
    requires p < |s.processes| && s.processes[p].phase == Free
    ensures Inv(c, DrawStep(s, p, effect))
  {
    hide NodeOfName, NodeOfId, IndexOk, AccountsOk, Stored;
    if effect == NotDone {
      MoveKeepsInv(c, s, p, Over(0));
    } else {
      var id := s.counter + 1;
      assert id % UINT64 == id && id !in s.drawn;
      var s' := DrawStep(s, p, effect);
      assert PhaseOk(s, p);
      DataStays(c, s, s');
      forall q | 0 <= q < |s'.processes|
        ensures PhaseOk(s', q) && Stored(c, s', q)
      {
        StoredKeeps(c, s, s', q);
        if q != p { assert PhaseOk(s, q) && Stored(c, s, q) && s'.processes[q] == s.processes[q]; }
      }
    }
  }

  /** The entry stored is that of the signup which drew the id. */
  lemma EntryIsRight(c: Cluster, s: State, p: nat, effect: Effect)
    requires DrawnOk(s) && IndexOk(c, s)
    requires p < |s.processes| && s.processes[p].phase.Drawn? && PhaseOk(s, p)
    ensures DrawnOk(PutIndexStep(c, s, p, effect)) && IndexOk(c, PutIndexStep(c, s, p, effect))
  {
    hide NodeOfName;
    var s' := PutIndexStep(c, s, p, effect);
    assert forall id :: id in s.drawn ==> Drawer(s', id).name == Drawer(s, id).name;
  }

  lemma PutIndexKeepsInv(c: Cluster, s: State, p: nat, effect: Effect)
    requires Inv(c, s)
    requires p < |s.processes| && s.processes[p].phase.Drawn?
    ensures Inv(c, PutIndexStep(c, s, p, effect))
  {
    hide NodeOfName, NodeOfId, IndexOk, AccountsOk;
    var s' := PutIndexStep(c, s, p, effect);
    assert PhaseOk(s, p);
    EntryIsRight(c, s, p, effect);
    DataStays(c, s, s');
    OthersKeep(c, s, s', p);
  }

  /** The record stored is that of the signup which drew the id. */
  lemma RecordIsRight(c: Cluster, s: State, p: nat, effect: Effect)
    requires DrawnOk(s) && AccountsOk(c, s)
    requires p < |s.processes| && s.processes[p].phase.Indexed? && s.processes[p].phase.id < UINT64 && PhaseOk(s, p)
    ensures DrawnOk(PutAccountStep(c, s, p, effect)) && AccountsOk(c, PutAccountStep(c, s, p, effect))
  {
    hide NodeOfId;
    var s' := PutAccountStep(c, s, p, effect);
    assert forall id :: id in s.drawn ==>
      Drawer(s', id).name == Drawer(s, id).name && Drawer(s', id).password == Drawer(s, id).password;
  }

  lemma PutAccountKeepsInv(c: Cluster, s: State, p: nat, effect: Effect)
    requires Inv(c, s)
    requires p < |s.processes| && s.processes[p].phase.Indexed? && s.processes[p].phase.id < UINT64
    ensures Inv(c, PutAccountStep(c, s, p, effect))
  {
    hide NodeOfName, NodeOfId, IndexOk, AccountsOk;
    var s' := PutAccountStep(c, s, p, effect);
    assert PhaseOk(s, p);
    RecordIsRight(c, s, p, effect);
    DataStays(c, s, s');
    OthersKeep(c, s, s', p);
  }

  lemma NextKeepsInv(c: Cluster, s: State, step: Step)
    requires Inv(c, s) && s.counter + 1 < UINT64
    ensures Inv(c, Next(c, s, step))
    ensures s.counter <= Next(c, s, step).counter <= s.counter + 1
  {
    hide Inv;
    match step
    case Join(name, password) => JoinKeepsInv(c, s, name, password);
    case Check(p, effect, unreadable) =>
      if p < |s.processes| && s.processes[p].phase == Asking {
        MoveKeepsInv(c, s, p, Over(0));
        MoveKeepsInv(c, s, p, Free);
      }
    case Draw(p, effect) =>
      if p < |s.processes| && s.processes[p].phase == Free {
        DrawKeepsInv(c, s, p, effect);
        assert (s.counter + 1) % UINT64 == s.counter + 1;
      }
    case PutIndex(p, effect) =>
      if p < |s.processes| && s.processes[p].phase.Drawn? { PutIndexKeepsInv(c, s, p, effect); }
    case PutAccount(p, effect) =>
      if p < |s.processes| && s.processes[p].phase.Indexed? && s.processes[p].phase.id < UINT64 {
        PutAccountKeepsInv(c, s, p, effect);
      }
  }

  // ---------------------------------------------------------------- over whole runs

  lemma StartIsOk(c: Cluster)
    ensures Inv(c, START)
  {
  }

  lemma {:induction false} RunKeepsInv(c: Cluster, steps: seq<Step>)
    requires |steps| < UINT64
    ensures Inv(c, Run(c, START, steps)) && Run(c, START, steps).counter <= |steps|
  {
    hide Inv, Next;
    if steps == [] {
      StartIsOk(c);
    } else {
      RunKeepsInv(c, steps[..|steps| - 1]);
      NextKeepsInv(c, Run(c, START, steps[..|steps| - 1]), steps[|steps| - 1]);
    }
  }

  /**
   * In every interleaving: no two names index the same id, and a record reached through a name's
   * index entry carries that name.
   */
  lemma IndexIsSound(c: Cluster, steps: seq<Step>, name: string, other: string)
    requires |steps| < UINT64
    ensures var s := Run(c, START, steps);
      && (name != other && (NodeOfName(c, name), name) in s.index && (NodeOfName(c, other), other) in s.index ==>
            s.index[(NodeOfName(c, name), name)] != s.index[(NodeOfName(c, other), other)])
      && (Find(c, s, name).Found? ==> Find(c, s, name).account.name == name)
  {
    hide NodeOfName, NodeOfId, Run;
    RunKeepsInv(c, steps);
  }

  /** The signup whose index entry for a name was stored last. */
  function LastIndexer(c: Cluster, steps: seq<Step>, name: string): Option<nat>
  {
    if steps == [] then None
    else
      var before, step := steps[..|steps| - 1], steps[|steps| - 1];
      var s := Run(c, START, before);
      if step.PutIndex? && step.effect != NotDone && step.p < |s.processes|
         && s.processes[step.p].phase.Drawn? && s.processes[step.p].name == name
      then Some(step.p)
      else LastIndexer(c, before, name)
  }

  ghost predicate IndexedBy(c: Cluster, s: State, name: string, last: Option<nat>)
  {
    var key := (NodeOfName(c, name), name);
    match last
    case None => key !in s.index
    case Some(p) => key in s.index && s.index[key] in s.drawn && s.drawn[s.index[key]] == p
  }

  lemma StepIndexedBy(c: Cluster, s: State, step: Step, name: string, last: Option<nat>)
    requires Inv(c, s) && IndexedBy(c, s, name, last) && s.counter + 1 < UINT64
    ensures IndexedBy(c, Next(c, s, step), name,
      if step.PutIndex? && step.effect != NotDone && step.p < |s.processes|
         && s.processes[step.p].phase.Drawn? && s.processes[step.p].name == name
      then Some(step.p) else last)
  {
    hide NodeOfName, NodeOfId, IndexOk, AccountsOk;
    if step.PutIndex? && step.p < |s.processes| { assert PhaseOk(s, step.p); }
    if step.Draw? { assert s.counter + 1 !in s.drawn && (s.counter + 1) % UINT64 == s.counter + 1; }
  }

  lemma {:induction false} LastIndexerWins(c: Cluster, steps: seq<Step>, name: string)
    requires |steps| < UINT64
    ensures IndexedBy(c, Run(c, START, steps), name, LastIndexer(c, steps, name))
  {
    hide Inv, Next, IndexedBy;
    if steps == [] {
      NothingIndexed(c, name);
    } else {
      var before := steps[..|steps| - 1];
      LastIndexerWins(c, before, name);
      RunKeepsInv(c, before);
      StepIndexedBy(c, Run(c, START, before), steps[|steps| - 1], name, LastIndexer(c, before, name));
    }
  }

  lemma NothingIndexed(c: Cluster, name: string)
    ensures IndexedBy(c, START, name, None)
  {
  }

  /**
   * A signup that reported success is found by its name, with its own id and password, exactly
   * when its index entry is the last one stored for that name. Without a rival it always is.
   */
  lemma FoundExactlyWhenLast(c: Cluster, steps: seq<Step>, p: nat)
    requires |steps| < UINT64
    requires var s := Run(c, START, steps);
      p < |s.processes| && s.processes[p].phase.Over? && s.processes[p].phase.id != 0
    ensures var s := Run(c, START, steps);
      var me := s.processes[p];
      Find(c, s, me.name) == Found(Account(me.phase.id, me.name, me.password))
      <==> LastIndexer(c, steps, me.name) == Some(p)
  {
    hide NodeOfName, NodeOfId, Run;
    var s := Run(c, START, steps);
    RunKeepsInv(c, steps);
    LastIndexerWins(c, steps, s.processes[p].name);
    assert PhaseOk(s, p) && Stored(c, s, p);
  }

  lemma {:induction false} LastIndexerHasName(c: Cluster, steps: seq<Step>, name: string)
    requires |steps| < UINT64 && LastIndexer(c, steps, name).Some?
    ensures var s, p := Run(c, START, steps), LastIndexer(c, steps, name).value;
      p < |s.processes| && s.processes[p].name == name
  {
    var before := steps[..|steps| - 1];
    NamesStay(c, Run(c, START, before), steps[|steps| - 1]);
    hide Next;
    if LastIndexer(c, before, name).Some? { LastIndexerHasName(c, before, name); }
  }

  lemma NamesStay(c: Cluster, s: State, step: Step)
    ensures |s.processes| <= |Next(c, s, step).processes|
    ensures forall p :: 0 <= p < |s.processes| ==> Next(c, s, step).processes[p].name == s.processes[p].name
  {
    hide NodeOfName, NodeOfId;
  }

  /** With no rival for its name, a signup that reported success is found again by name. */
  lemma NoRivalIsFound(c: Cluster, steps: seq<Step>, p: nat)
    requires |steps| < UINT64
    requires var s := Run(c, START, steps);
      && p < |s.processes| && s.processes[p].phase.Over? && s.processes[p].phase.id != 0
      && forall q :: 0 <= q < |s.processes| && q != p ==> s.processes[q].name != s.processes[p].name
    ensures var s := Run(c, START, steps);
      var me := s.processes[p];
      Find(c, s, me.name) == Found(Account(me.phase.id, me.name, me.password))
  {
    var s := Run(c, START, steps);
    var name := s.processes[p].name;
    hide NodeOfName, NodeOfId, Run, LastIndexer;
    RunKeepsInv(c, steps);
    LastIndexerWins(c, steps, name);
    assert Stored(c, s, p);
    LastIndexerHasName(c, steps, name);
    FoundExactlyWhenLast(c, steps, p);
  }

  // ---------------------------------------------------------------- the race that loses a signup

  /** The step stores the index entry of signup `q`. */
  predicate Stores(s: State, step: Step, q: nat) {
    step.PutIndex? && step.p == q && step.effect != NotDone && q < |s.processes| && s.processes[q].phase.Drawn?
  }

  /** The step is the check that lets signup `q` go on. */
  predicate LetsPass(c: Cluster, s: State, step: Step, q: nat) {
    && step.Check? && step.p == q && q < |s.processes| && s.processes[q].phase == Asking
    && (step.unreadable || (NodeOfName(c, s.processes[q].name), s.processes[q].name) !in s.index)
  }

  predicate StoresEntry(c: Cluster, steps: seq<Step>, k: nat, q: nat)
    requires k < |steps|
  {
    Stores(Run(c, START, steps[..k]), steps[k], q)
  }

  predicate Passes(c: Cluster, steps: seq<Step>, k: nat, q: nat)
    requires k < |steps|
  {
    LetsPass(c, Run(c, START, steps[..k]), steps[k], q)
  }

  ghost predicate Passed(c: Cluster, steps: seq<Step>, q: nat) {
    exists k :: 0 <= k < |steps| && Passes(c, steps, k, q)
  }

  ghost predicate Entered(c: Cluster, steps: seq<Step>, q: nat) {
    exists k :: 0 <= k < |steps| && StoresEntry(c, steps, k, q)
  }

  predicate Begun(s: State, q: nat) {
    q < |s.processes| && s.processes[q].phase != Asking && s.processes[q].phase != Over(0)
  }

  predicate HasStored(s: State, q: nat) {
    q < |s.processes| && (s.processes[q].phase.Indexed? || (s.processes[q].phase.Over? && s.processes[q].phase != Over(0)))
  }

  /** What one step can bring of that. */
  lemma StepHistory(c: Cluster, s: State, step: Step, q: nat)
    ensures Begun(Next(c, s, step), q) ==> Begun(s, q) || LetsPass(c, s, step, q)
    ensures HasStored(Next(c, s, step), q) ==> HasStored(s, q) || Stores(s, step, q)
  {
    hide NodeOfName, NodeOfId;
  }

  lemma HistoryGrows(c: Cluster, steps: seq<Step>, step: Step, q: nat)
    ensures Passed(c, steps, q) || LetsPass(c, Run(c, START, steps), step, q) ==> Passed(c, steps + [step], q)
    ensures Entered(c, steps, q) || Stores(Run(c, START, steps), step, q) ==> Entered(c, steps + [step], q)
  {
    hide Run, LetsPass, Stores;
    var more := steps + [step];
    assert more[..|steps|] == steps;
    if Passed(c, steps, q) {
      var k :| 0 <= k < |steps| && Passes(c, steps, k, q);
      assert more[..k] == steps[..k] && Passes(c, more, k, q);
    }
    if LetsPass(c, Run(c, START, steps), step, q) { assert Passes(c, more, |steps|, q); }
    if Entered(c, steps, q) {
      var k :| 0 <= k < |steps| && StoresEntry(c, steps, k, q);
      assert more[..k] == steps[..k] && StoresEntry(c, more, k, q);
    }
    if Stores(Run(c, START, steps), step, q) { assert StoresEntry(c, more, |steps|, q); }
  }

  /** A signup past its check passed one; a signup past its entry stored it. */
  lemma {:induction false} SignupHistory(c: Cluster, steps: seq<Step>, q: nat)
    ensures Begun(Run(c, START, steps), q) ==> Passed(c, steps, q)
    ensures HasStored(Run(c, START, steps), q) ==> Entered(c, steps, q)
  {
    hide Next, Passed, Entered, LetsPass, Stores;
    if steps != [] {
      var init, step := steps[..|steps| - 1], steps[|steps| - 1];
      SignupHistory(c, init, q);
      StepHistory(c, Run(c, START, init), step, q);
      HistoryGrows(c, init, step, q);
      assert init + [step] == steps;
    }
  }

  /** No signup stores an entry for the name after step `k`. */
  ghost predicate NoneAfter(c: Cluster, steps: seq<Step>, k: nat, name: string) {
    forall m: nat, q: nat :: k < m < |steps| && StoresEntry(c, steps, m, q) ==>
      Run(c, START, steps[..m]).processes[q].name != name
  }

  /** The last indexer stored its entry, and nobody of its name did later. */
  lemma {:induction false} LastIndexerStored(c: Cluster, steps: seq<Step>, name: string) returns (k: nat)
    requires LastIndexer(c, steps, name).Some?
    ensures k < |steps| && StoresEntry(c, steps, k, LastIndexer(c, steps, name).value)
    ensures Run(c, START, steps[..k]).processes[LastIndexer(c, steps, name).value].name == name
    ensures NoneAfter(c, steps, k, name)
  {
    var n := |steps| - 1;
    var init, step := steps[..n], steps[n];
    hide Run;
    if step.PutIndex? && Stores(Run(c, START, init), step, step.p) && Run(c, START, init).processes[step.p].name == name {
      k := n;
    } else {
      hide Stores;
      k := LastIndexerStored(c, init, name);
      assert init[..k] == steps[..k];
      LaterIsNone(c, steps, k, name);
    }
  }

  lemma LaterIsNone(c: Cluster, steps: seq<Step>, k: nat, name: string)
    requires k < |steps| - 1 && NoneAfter(c, steps[..|steps| - 1], k, name)
    requires var step, s := steps[|steps| - 1], Run(c, START, steps[..|steps| - 1]);
      !(step.PutIndex? && Stores(s, step, step.p) && s.processes[step.p].name == name)
    ensures NoneAfter(c, steps, k, name)
  {
    hide Run;
    var n := |steps| - 1;
    forall m: nat, q: nat | k < m < |steps| && StoresEntry(c, steps, m, q)
      ensures Run(c, START, steps[..m]).processes[q].name != name
    {
      if m < n { assert steps[..n][..m] == steps[..m] && StoresEntry(c, steps[..n], m, q); }
    }
  }

  lemma {:induction false} EntriesStay(c: Cluster, steps: seq<Step>, i: nat, j: nat)
    requires i <= j <= |steps|
    ensures Run(c, START, steps[..i]).index.Keys <= Run(c, START, steps[..j]).index.Keys
    ensures |Run(c, START, steps[..i]).processes| <= |Run(c, START, steps[..j]).processes|
    ensures forall q :: 0 <= q < |Run(c, START, steps[..i]).processes| ==>
      Run(c, START, steps[..j]).processes[q].name == Run(c, START, steps[..i]).processes[q].name
    decreases j
  {
    hide Run, Next;
    if i < j {
      EntriesStay(c, steps, i, j - 1);
      RunStep(c, steps, j - 1);
      EntriesStayStep(c, Run(c, START, steps[..j - 1]), steps[j - 1]);
      NamesStay(c, Run(c, START, steps[..j - 1]), steps[j - 1]);
    }
  }

  lemma EntriesStayStep(c: Cluster, s: State, step: Step)
    ensures s.index.Keys <= Next(c, s, step).index.Keys
  {
    hide NodeOfName, NodeOfId;
  }

  /** A signup keeps the name it stored its entry under. */
  lemma NamesAtStore(c: Cluster, steps: seq<Step>, j: nat, p: nat)
    requires j < |steps| && StoresEntry(c, steps, j, p)
    ensures p < |Run(c, START, steps).processes|
    ensures Run(c, START, steps).processes[p].name == Run(c, START, steps[..j]).processes[p].name
  {
    hide Run;
    EntriesStay(c, steps, j, |steps|);
    assert steps[..|steps|] == steps;
  }

  lemma {:induction false} LastIndexerKnown(c: Cluster, steps: seq<Step>, j: nat, p: nat)
    requires j < |steps| && StoresEntry(c, steps, j, p)
    ensures LastIndexer(c, steps, Run(c, START, steps[..j]).processes[p].name).Some?
  {
    hide Run;
    var n := |steps| - 1;
    if j < n {
      assert steps[..n][..j] == steps[..j];
      LastIndexerKnown(c, steps[..n], j, p);
    }
  }

  predicate Beyond(phase: Phase) { phase.Indexed? || phase.Over? }

  lemma {:induction false} BeyondStays(c: Cluster, steps: seq<Step>, j: nat, m: nat, p: nat)
    requires j < m <= |steps| && StoresEntry(c, steps, j, p)
    ensures p < |Run(c, START, steps[..m]).processes| && Beyond(Run(c, START, steps[..m]).processes[p].phase)
    decreases m
  {
    hide Run, Next, Beyond;
    RunStep(c, steps, m - 1);
    if j < m - 1 { BeyondStays(c, steps, j, m - 1, p); }
    BeyondStep(c, Run(c, START, steps[..m - 1]), steps[m - 1], p);
  }

  lemma BeyondStep(c: Cluster, s: State, step: Step, p: nat)
    requires p < |s.processes|
    requires Beyond(s.processes[p].phase)
      || (step.PutIndex? && step.p == p && step.effect != NotDone && s.processes[p].phase.Drawn?)
    ensures p < |Next(c, s, step).processes| && Beyond(Next(c, s, step).processes[p].phase)
  {
    hide NodeOfName, NodeOfId;
  }

  /** A signup stores its entry once. */
  lemma StoresOnce(c: Cluster, steps: seq<Step>, j: nat, k: nat, p: nat)
    requires j < |steps| && k < |steps| && StoresEntry(c, steps, j, p) && StoresEntry(c, steps, k, p)
    ensures j == k
  {
    hide Run;
    if j < k { BeyondStays(c, steps, j, k, p); }
    if k < j { BeyondStays(c, steps, k, j, p); }
  }

  lemma EntryIsThere(c: Cluster, steps: seq<Step>, j: nat, p: nat)
    requires j < |steps| && StoresEntry(c, steps, j, p)
    ensures var name := Run(c, START, steps[..j]).processes[p].name;
      (NodeOfName(c, name), name) in Run(c, START, steps[..j + 1]).index
  {
    hide Run, NodeOfName;
    RunStep(c, steps, j);
  }

  /** Whoever stores an entry after another signup for the name passed its check before. */
  lemma RivalPassedBefore(c: Cluster, steps: seq<Step>, p: nat, j: nat, q: nat, k: nat) returns (i: nat)
    requires Readable(steps) && j < k < |steps| && StoresEntry(c, steps, j, p) && StoresEntry(c, steps, k, q)
    requires Run(c, START, steps[..k]).processes[q].name == Run(c, START, steps[..j]).processes[p].name
    ensures i < j && Passes(c, steps, i, q)
  {
    hide Run, NodeOfName;
    SignupHistory(c, steps[..k], q);
    i :| 0 <= i < k && Passes(c, steps[..k], i, q);
    assert steps[..k][..i] == steps[..i];
    if i > j {
      EntryIsThere(c, steps, j, p);
      EntriesStay(c, steps, j + 1, i);
      EntriesStay(c, steps, i, k);
    }
  }

  /** Another signup for the name passes its check before step `j` and stores its entry after it. */
  ghost predicate Overtaken(c: Cluster, steps: seq<Step>, p: nat, j: nat, q: nat, i: nat, k: nat) {
    && i < j < k < |steps| && q != p
    && Passes(c, steps, i, q) && StoresEntry(c, steps, j, p) && StoresEntry(c, steps, k, q)
    && Run(c, START, steps[..k]).processes[q].name == Run(c, START, steps[..j]).processes[p].name
  }

  /** Checks that are answered read the entry. */
  ghost predicate Readable(steps: seq<Step>) {
    forall i :: 0 <= i < |steps| && steps[i].Check? ==> !steps[i].unreadable
  }

  /**
   * With readable checks, a signup that reported success is not found by its name exactly when
   * another signup for that name passed its check before this one stored its entry, and stored its
   * own entry after it.
   */
  lemma LostExactlyWhenOvertaken(c: Cluster, steps: seq<Step>, p: nat)
    requires |steps| < UINT64 && Readable(steps)
    requires var s := Run(c, START, steps);
      p < |s.processes| && s.processes[p].phase.Over? && s.processes[p].phase.id != 0
    ensures var s := Run(c, START, steps);
      var me := s.processes[p];
      Find(c, s, me.name) != Found(Account(me.phase.id, me.name, me.password))
      <==> exists j: nat, q: nat, i: nat, k: nat :: Overtaken(c, steps, p, j, q, i, k)
  {
    hide Run, LastIndexer, NodeOfName, Stores, LetsPass, Find, NoneAfter;
    var name := Run(c, START, steps).processes[p].name;
    FoundExactlyWhenLast(c, steps, p);
    SignupHistory(c, steps, p);
    var j: nat :| j < |steps| && StoresEntry(c, steps, j, p);
    LastIndexerKnown(c, steps, j, p);
    NamesAtStore(c, steps, j, p);
    var k := LastIndexerStored(c, steps, name);
    var last := LastIndexer(c, steps, name).value;
    if last != p {
      NotLater(c, steps, k, j, p, name);
      if j == k { StoresOfOne(c, steps, k, p, last); }
      var i := RivalPassedBefore(c, steps, p, j, last, k);
      assert Overtaken(c, steps, p, j, last, i, k);
    }
    if exists j: nat, q: nat, i: nat, k: nat :: Overtaken(c, steps, p, j, q, i, k) {
      var j': nat, q: nat, i: nat, k': nat :| Overtaken(c, steps, p, j', q, i, k');
      NamesAtStore(c, steps, j', p);
      NotLater(c, steps, k, k', q, name);
      if last == p { StoresOnce(c, steps, j', k, p); }
    }
  }

  lemma NotLater(c: Cluster, steps: seq<Step>, k: nat, m: nat, q: nat, name: string)
    requires NoneAfter(c, steps, k, name) && m < |steps| && StoresEntry(c, steps, m, q)
    requires Run(c, START, steps[..m]).processes[q].name == name
    ensures m <= k
  {
    hide Run, Stores;
  }

  lemma StoresOfOne(c: Cluster, steps: seq<Step>, k: nat, p: nat, q: nat)
    requires k < |steps| && StoresEntry(c, steps, k, p) && StoresEntry(c, steps, k, q)
    ensures p == q
  {
    hide Run;
  }

  /** Both signups for one name can report success; the first is then not found. */
  function Rivals(name: string): seq<Step> {
    [Join(name, "first"), Join(name, "second"), Check(0, Fine, false), Check(1, Fine, false), Draw(0, Fine), Draw(1, Fine),
     PutIndex(0, Fine), PutIndex(1, Fine), PutAccount(0, Fine), PutAccount(1, Fine)]
  }

  /** Both have passed the check and drawn their ids. */
  lemma RivalsDraw(c: Cluster, name: string)
    ensures Run(c, START, Rivals(name)[..6]) ==
      State(2, map[], map[], [Process(name, "first", Drawn(1)), Process(name, "second", Drawn(2))], map[1 := 0, 2 := 1])
  {
    hide Run, NodeOfName, NodeOfId;
    var r := Rivals(name);
    RunStart(c);
    RunStep(c, r, 0);
    RunStep(c, r, 1);
    RunStep(c, r, 2);
    RunStep(c, r, 3);
    RunStep(c, r, 4);
    RunStep(c, r, 5);
  }

  lemma FirstRivalIsLost(c: Cluster, name: string)
    ensures var s := Run(c, START, Rivals(name));
      && |s.processes| == 2 && s.processes[0].phase == Over(1) && s.processes[1].phase == Over(2)
      && Find(c, s, name) == Found(Account(2, name, "second"))
  {
    hide Run, NodeOfName, NodeOfId;
    var r := Rivals(name);
    RivalsDraw(c, name);
    RunStep(c, r, 6);
    RunStep(c, r, 7);
    RunStep(c, r, 8);
    RunStep(c, r, 9);
    assert r[..10] == r;
  }

  lemma RunStart(c: Cluster)
    ensures Run(c, START, []) == START
  {
  }

  lemma RunStep(c: Cluster, steps: seq<Step>, n: nat)
    requires n < |steps|
    ensures steps[..0] == []
    ensures Run(c, START, steps[..n + 1]) == Next(c, Run(c, START, steps[..n]), steps[n])
  {
    assert steps[..n + 1][..n] == steps[..n];
  }

  // ---------------------------------------------------------------- one signup as the source writes it

  /** The three calls after the check, on their own. */
  function MakeAlone(c: Cluster, s: State, p: nat, e2: Effect, e3: Effect, e4: Effect): State
  {
    Next(c, Next(c, Next(c, s, Draw(p, e2)), PutIndex(p, e3)), PutAccount(p, e4))
  }

  /** The steps of a signup nobody interferes with. */
  function Alone(c: Cluster, s: State, name: string, password: string,
                 e1: Effect, unreadable: bool, e2: Effect, e3: Effect, e4: Effect): State
  {
    var p := |s.processes|;
    MakeAlone(c, Next(c, Next(c, s, Join(name, password)), Check(p, e1, unreadable)), p, e2, e3, e4)
  }

  class Directory {
    var counter: nat
    var index: map<(nat, string), nat>
    var accounts: map<(nat, nat), Account>

    constructor ()
      ensures counter == 0 && index == map[] && accounts == map[]
    {
      counter, index, accounts := 0, map[], map[];
    }

    ghost function With(process: Process): State
      reads this
    {
      State(counter, index, accounts, [process], map[])
    }

    /** The databases and the counter are those of `s`, whose one signup reports `id`. */
    ghost predicate Is(s: State, id: nat)
      reads this
    {
      && counter == s.counter && index == s.index && accounts == s.accounts
      && |s.processes| == 1 && s.processes[0].phase == Over(id)
    }

    /** Draw an id, store the index entry, store the record; stop at the first failure. */
    method MakeAccount(c: Cluster, name: string, password: string, e2: Effect, e3: Effect, e4: Effect) returns (id: nat)
      requires counter < UINT64
      modifies this
      ensures Is(MakeAlone(c, old(With(Process(name, password, Free))), 0, e2, e3, e4), id)
    {
      hide NodeOfName, NodeOfId;
      if e2 == NotDone {
        return 0;
      }
      counter := (counter + 1) % UINT64;
      if e2 != Fine {
        return 0;
      }
      var newId := counter;
      if e3 != NotDone {
        index := index[(NodeOfName(c, name), name) := newId];
      }
      if e3 != Fine {
        return 0;
      }
      if e4 != NotDone {
        accounts := accounts[(NodeOfId(c, newId), newId) := Account(newId, name, password)];
      }
      if e4 != Fine {
        return 0;
      }
      return newId;
    }

    /** checkAndMakeAccount: each call's effect is given; 0 is returned on failure. */
    method CheckAndMakeAccount(c: Cluster, name: string, password: string,
                               e1: Effect, unreadable: bool, e2: Effect, e3: Effect, e4: Effect) returns (id: nat)
      requires counter < UINT64
      modifies this
      ensures Is(Alone(c, State(old(counter), old(index), old(accounts), [], map[]),
                       name, password, e1, unreadable, e2, e3, e4), id)
    {
      hide NodeOfName, NodeOfId, MakeAlone, Next;
      var node := NodeOfName(c, name);
      JoinAndCheck(c, State(counter, index, accounts, [], map[]), name, password, e1, unreadable);
      if e1 != Fine || ((node, name) in index && !unreadable) {
        MakeNothing(c, With(Process(name, password, Over(0))), e2, e3, e4);
        return 0;
      }
      id := MakeAccount(c, name, password, e2, e3, e4);
    }
  }

  /** A signup alone on its databases is past the check, or already over. */
  lemma JoinAndCheck(c: Cluster, s: State, name: string, password: string, e1: Effect, unreadable: bool)
    requires s.processes == []
    ensures var refused := e1 != Fine || ((NodeOfName(c, name), name) in s.index && !unreadable);
      Next(c, Next(c, s, Join(name, password)), Check(0, e1, unreadable))
      == s.(processes := [Process(name, password, if refused then Over(0) else Free)])
  {
    hide NodeOfName;
    var refused := e1 != Fine || ((NodeOfName(c, name), name) in s.index && !unreadable);
    assert [Process(name, password, Asking)][0 := Process(name, password, if refused then Over(0) else Free)]
      == [Process(name, password, if refused then Over(0) else Free)];
  }

  lemma MakeNothing(c: Cluster, s: State, e2: Effect, e3: Effect, e4: Effect)
    requires |s.processes| == 1 && s.processes[0].phase == Over(0)
    ensures MakeAlone(c, s, 0, e2, e3, e4) == s
  {
  }
}

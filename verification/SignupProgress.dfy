/**
 * How far a signup gets (checkAndMakeAccount in account_server/account.go), told from the calls
 * made for it and their answers, whatever other signups do in between.
 */
module SignupProgress {
  import opened Basics
  import opened Ring
  import opened Signup

  // ---------------------------------------------------------------- when a name is taken

  /** Step `j` stores an entry for the name, in the course of signup `q`. */
  ghost predicate StoredFor(c: Cluster, steps: seq<Step>, name: string, j: nat, q: nat) {
    j < |steps| && StoresEntry(c, steps, j, q) && Run(c, START, steps[..j]).processes[q].name == name
  }

  ghost predicate TakenName(c: Cluster, steps: seq<Step>, name: string) {
    exists j, q :: StoredFor(c, steps, name, j, q)
  }

  /** The index has an entry for a name exactly when some signup has stored one. */
  lemma TakenExactly(c: Cluster, steps: seq<Step>, name: string)
    requires |steps| < UINT64
    ensures (NodeOfName(c, name), name) in Run(c, START, steps).index <==> TakenName(c, steps, name)
  {
    hide Run, NodeOfName, StoresEntry, LastIndexer;
    LastIndexerWins(c, steps, name);
    if LastIndexer(c, steps, name).Some? {
      var j := LastIndexerStored(c, steps, name);
      assert StoredFor(c, steps, name, j, LastIndexer(c, steps, name).value);
    }
    if TakenName(c, steps, name) {
      var j, q :| StoredFor(c, steps, name, j, q);
      LastIndexerKnown(c, steps, j, q);
    }
  }

  // ---------------------------------------------------------------- how far a signup is

  /** Not begun, past its first calls, or failed for good. */
  datatype Progress = Absent | Past(calls: nat) | Failed

  function Joins(steps: seq<Step>): nat {
    if steps == [] then 0 else Joins(steps[..|steps| - 1]) + (if steps[|steps| - 1].Join? then 1 else 0)
  }

  /** The step makes call `n` for signup `p`: check, draw, store the entry, store the record. */
  predicate Makes(step: Step, p: nat, n: nat) {
    || (n == 0 && step.Check? && step.p == p)
    || (n == 1 && step.Draw? && step.p == p)
    || (n == 2 && step.PutIndex? && step.p == p)
    || (n == 3 && step.PutAccount? && step.p == p)
  }

  /** The name signup `p` came with. */
  function NameOf(steps: seq<Step>, p: nat): string {
    if steps == [] then ""
    else
      var init, last := steps[..|steps| - 1], steps[|steps| - 1];
      if last.Join? && Joins(init) == p then last.name else NameOf(init, p)
  }

  /**
   * Each call in turn has to be answered fine, and the first one must not read an entry that is
   * there; any other answer is the end.
   */
  ghost function Far(c: Cluster, steps: seq<Step>, p: nat): Progress {
    if steps == [] then Absent
    else
      var init, step := steps[..|steps| - 1], steps[|steps| - 1];
      match Far(c, init, p)
      case Absent => if step.Join? && Joins(init) == p then Past(0) else Absent
      case Failed => Failed
      case Past(n) =>
        if !Makes(step, p, n) then Past(n)
        else if step.effect != Fine || (n == 0 && !step.unreadable && TakenName(c, init, NameOf(init, p))) then Failed
        else Past(n + 1)
  }

  /** The phase of a signup that is past `n` calls. */
  predicate AtCall(phase: Phase, n: nat) {
    match phase
    case Asking => n == 0
    case Free => n == 1
    case Drawn(_) => n == 2
    case Indexed(_) => n == 3
    case Over(id) => n == 4 && id != 0
  }

  /** The signup in the state is as far as `far` says. */
  predicate Shows(s: State, p: nat, far: Progress) {
    match far
    case Absent => p >= |s.processes|
    case Past(n) => p < |s.processes| && AtCall(s.processes[p].phase, n)
    case Failed => p < |s.processes| && s.processes[p].phase == Over(0)
  }

  lemma CallMoves(c: Cluster, s: State, step: Step, p: nat, n: nat)
    requires Inv(c, s) && s.counter + 1 < UINT64
    requires p < |s.processes| && AtCall(s.processes[p].phase, n)
    ensures var refused := Makes(step, p, n) && n == 0 && !step.unreadable
                           && (NodeOfName(c, s.processes[p].name), s.processes[p].name) in s.index;
      Shows(Next(c, s, step), p,
            if !Makes(step, p, n) then Past(n) else if step.effect != Fine || refused then Failed else Past(n + 1))
  {
    hide NodeOfName, NodeOfId, IndexOk, AccountsOk, Stored;
    assert PhaseOk(s, p);
  }

  lemma OthersStand(c: Cluster, s: State, step: Step, p: nat)
    ensures p < |s.processes| && s.processes[p].phase == Over(0) ==> Shows(Next(c, s, step), p, Failed)
    ensures |Next(c, s, step).processes| == |s.processes| + (if step.Join? then 1 else 0)
    ensures step.Join? ==> Next(c, s, step).processes == s.processes + [Process(step.name, step.password, Asking)]
    ensures forall q :: 0 <= q < |s.processes| ==> Next(c, s, step).processes[q].name == s.processes[q].name
  {
    hide NodeOfName, NodeOfId;
  }

  lemma {:induction false} NamesKnown(c: Cluster, steps: seq<Step>, p: nat)
    ensures |Run(c, START, steps).processes| == Joins(steps)
    ensures p < Joins(steps) ==> Run(c, START, steps).processes[p].name == NameOf(steps, p)
  {
    hide Next;
    if steps != [] {
      NamesKnown(c, steps[..|steps| - 1], p);
      OthersStand(c, Run(c, START, steps[..|steps| - 1]), steps[|steps| - 1], p);
    }
  }

  /**
   * In every interleaving a signup is exactly as far as the calls made for it say: past each call
   * that was made in its turn and answered fine, failed with the first other answer, refused by
   * its check exactly when an entry for its name was stored before and could be read; and so it
   * reports success, with an id, exactly after all four.
   */
  lemma {:induction false} ReportsExactly(c: Cluster, steps: seq<Step>, p: nat)
    requires |steps| < UINT64
    ensures Shows(Run(c, START, steps), p, Far(c, steps, p))
  {
    hide Inv, Next, TakenName, AtCall, Makes, NodeOfName;
    if steps != [] {
      var init, step := steps[..|steps| - 1], steps[|steps| - 1];
      var s := Run(c, START, init);
      ReportsExactly(c, init, p);
      RunKeepsInv(c, init);
      NamesKnown(c, init, p);
      OthersStand(c, s, step, p);
      TakenExactly(c, init, NameOf(init, p));
      match Far(c, init, p)
      case Absent => NewIsAsking();
      case Failed =>
      case Past(n) =>
        CallMoves(c, s, step, p, n);
        ChecksCome(step, p, n);
    }
  }

  lemma NewIsAsking()
    ensures AtCall(Asking, 0)
  {
  }

  lemma ChecksCome(step: Step, p: nat, n: nat)
    ensures Makes(step, p, n) && n == 0 ==> step.Check?
    ensures Makes(step, p, n) ==> !step.Join?
  {
  }
}

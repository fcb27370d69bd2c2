/**
 * Who waits for a room and in what order (playerMatchingRoutine in game_server/room.go), told from
 * who asked to join and who has left the list since.
 */
module MatchingOrder {
  import opened Basics
  import Room
  import opened Matching

  // ---------------------------------------------------------------- one request

  /** The entries of `kept` stand in `list` at the places `at`. */
  ghost predicate Picked(list: seq<Entry>, kept: seq<Entry>, at: seq<nat>) {
    && |at| == |kept|
    && (forall i :: 0 <= i < |at| ==> at[i] < |list| && kept[i] == list[at[i]])
    && forall i, j :: 0 <= i < j < |at| ==> at[i] < at[j]
  }

  /** The entries of a list that are, or are not, connected, in the order of the list. */
  ghost predicate JustThe(list: seq<Entry>, kept: seq<Entry>, connected: bool) {
    && (exists at :: Picked(list, kept, at))
    && forall e :: e in kept <==> e in list && e.conn.Alive? == connected
  }

  lemma PickedMore(list: seq<Entry>, kept: seq<Entry>, last: Entry)
    requires exists at :: Picked(list, kept, at)
    ensures exists at :: Picked(list + [last], kept, at)
    ensures exists at :: Picked(list + [last], kept + [last], at)
  {
    var at: seq<nat> :| Picked(list, kept, at);
    assert Picked(list + [last], kept, at);
    assert Picked(list + [last], kept + [last], at + [|list|]);
  }

  lemma {:induction false} LiveAndGone(list: seq<Entry>)
    ensures JustThe(list, Live(list), true) && JustThe(list, Gone(list), false)
  {
    hide Picked;
    if list == [] {
      assert Picked([], [], []) by { NothingPicked(); }
    } else {
      var init, last := list[..|list| - 1], list[|list| - 1];
      assert list == init + [last];
      LiveAndGone(init);
      PickedMore(init, Live(init), last);
      PickedMore(init, Gone(init), last);
    }
  }

  lemma NothingPicked()
    ensures Picked([], [], [])
  {
  }

  ghost predicate Lists(waiting: seq<Entry>, player: nat) {
    exists i :: 0 <= i < |waiting| && waiting[i].playerId == player
  }

  ghost predicate AllAlive(list: seq<Entry>) {
    forall i :: 0 <= i < |list| ==> list[i].conn.Alive?
  }

  /** One who is listed already changes nothing; a new one waits at the end of the list, as long as it is too short. */
  lemma JoinerWaits(s: Matcher, session: Entry)
    requires WaitingOk(s)
    ensures var (s', now) := AddStep(s, session);
      && (s'.playerTotal, s'.exited) == (s.playerTotal, s.exited)
      && (Lists(s.waiting, session.playerId) ==> s'.waiting == s.waiting && now == Outcome([], [], [], []))
      && (!Lists(s.waiting, session.playerId) && |s.waiting| + 1 < s.playerTotal ==>
            s'.waiting == s.waiting + [session] && now == Outcome([session.playerId], [], [], []))
  {
  }

  /**
   * One who completes the number opens a room for the whole list when all of it is connected;
   * otherwise those who are not connected are dropped, and the others keep their places.
   */
  lemma JoinerCompletes(s: Matcher, session: Entry)
    requires WaitingOk(s) && !Lists(s.waiting, session.playerId) && |s.waiting| + 1 == s.playerTotal
    ensures var (s', now) := AddStep(s, session);
      var list := s.waiting + [session];
      && (AllAlive(list) ==> s'.waiting == [] && now == Outcome([session.playerId], [list], [], []))
      && (!AllAlive(list) ==>
            && JustThe(list, s'.waiting, true)
            && exists gone :: JustThe(list, gone, false) && now == Outcome([session.playerId], [], [], Ids(gone)))
  {
    hide Live, Gone, JustThe, Ids;
    NobodyGone(s.waiting + [session]);
    LiveAndGone(s.waiting + [session]);
  }

  /** A listed player who cancels leaves the list and is reported cancelled; nobody else moves. */
  lemma CancellerLeaves(s: Matcher, player: nat)
    requires WaitingOk(s) && !s.exited
    ensures var (s', now) := Take(s, Remove(Some(player)));
      && (Lists(s.waiting, player) ==>
            && now == Outcome([], [], [player], [])
            && exists i :: 0 <= i < |s.waiting| && s.waiting[i].playerId == player
                           && s'.waiting == s.waiting[..i] + s.waiting[i + 1..])
      && (!Lists(s.waiting, player) ==> s' == s && now == Outcome([], [], [], []))
  {
    hide Distinct, Ids;
  }

  // ---------------------------------------------------------------- the list over whole runs

  /** Who leaves the list in a step: by cancelling, for being gone, or for a room. */
  function Leavers(now: Outcome): set<nat> {
    (set p | p in now.cancelled) + (set p | p in now.dropped)
    + (set i, j | 0 <= i < |now.rooms| && 0 <= j < |now.rooms[i]| :: now.rooms[i][j].playerId)
  }

  function Staying(queue: seq<nat>, leavers: set<nat>): seq<nat> {
    if queue == [] then []
    else
      var init, last := queue[..|queue| - 1], queue[|queue| - 1];
      Staying(init, leavers) + (if last in leavers then [] else [last])
  }

  /** Whoever asks to join lines up behind the others, unless in line already. */
  function Joined(queue: seq<nat>, step: Step): seq<nat> {
    if step.Add? && step.session.Some? && step.session.value.playerId !in queue
    then queue + [step.session.value.playerId] else queue
  }

  /** The line of those who asked to join and have not left since, in the order in which they asked. */
  function Line(playerTotal: nat, steps: seq<Step>): seq<nat> {
    if steps == [] then []
    else
      var init, step := steps[..|steps| - 1], steps[|steps| - 1];
      var now := Take(Run(playerTotal, init).0, step).1;
      Staying(if Exit in init then Line(playerTotal, init) else Joined(Line(playerTotal, init), step), Leavers(now))
  }

  lemma {:induction false} AllStay(queue: seq<nat>, leavers: set<nat>)
    requires forall x :: x in queue ==> x !in leavers
    ensures Staying(queue, leavers) == queue
  {
    if queue != [] { AllStay(queue[..|queue| - 1], leavers); }
  }

  lemma {:induction false} NobodyStays(queue: seq<nat>, leavers: set<nat>)
    requires forall x :: x in queue ==> x in leavers
    ensures Staying(queue, leavers) == []
  {
    if queue != [] { NobodyStays(queue[..|queue| - 1], leavers); }
  }

  lemma {:induction false} LiveStay(list: seq<Entry>, leavers: set<nat>)
    requires forall e :: e in list ==> (e.playerId in leavers <==> !e.conn.Alive?)
    ensures Staying(Ids(list), leavers) == Ids(Live(list))
  {
    hide Ids;
    if list == [] {
      assert Ids(list) == [];
    } else {
      var init, last := list[..|list| - 1], list[|list| - 1];
      assert list == init + [last];
      LiveStay(init, leavers);
      IdsOfMore(init, last);
      IdsOfMore(Live(init), last);
      assert Ids(list)[..|list| - 1] == Ids(init);
    }
  }

  lemma {:induction false} StayingParts(a: seq<nat>, b: seq<nat>, leavers: set<nat>)
    ensures Staying(a + b, leavers) == Staying(a, leavers) + Staying(b, leavers)
  {
    if b == [] {
      assert a + b == a;
    } else {
      var init := b[..|b| - 1];
      StayingParts(a, init, leavers);
      assert (a + b)[..|a + b| - 1] == a + init;
    }
  }

  lemma DistinctAround(ids: seq<nat>, i: nat)
    requires Distinct(ids) && i < |ids|
    ensures ids[i] !in ids[..i] && ids[i] !in ids[i + 1..]
  {
  }

  lemma OneLeaves(ids: seq<nat>, i: nat)
    requires Distinct(ids) && i < |ids|
    ensures Staying(ids, {ids[i]}) == ids[..i] + ids[i + 1..]
  {
    hide Distinct, Staying;
    var a, x, b := ids[..i], ids[i], ids[i + 1..];
    DistinctAround(ids, i);
    assert ids == a + [x] + b;
    StayingParts(a + [x], b, {x});
    StayingParts(a, [x], {x});
    AllStay(a, {x});
    AllStay(b, {x});
    NobodyStays([x], {x});
    assert a + [] + b == a + b;
  }

  lemma IdsKnown(list: seq<Entry>, player: nat)
    ensures player in Ids(list) <==> Lists(list, player)
    ensures player in Ids(list) <==> exists e :: e in list && e.playerId == player
  {
  }

  lemma NoLeavers()
    ensures Leavers(Outcome([], [], [], [])) == {}
    ensures forall q :: Leavers(Outcome(q, [], [], [])) == {}
  {
  }

  lemma RoomLeavers(queued: seq<nat>, list: seq<Entry>)
    ensures forall p :: p in Ids(list) ==> p in Leavers(Outcome(queued, [list], [], []))
  {
    var now := Outcome(queued, [list], [], []);
    forall p | p in Ids(list) ensures p in Leavers(now) {
      var j :| 0 <= j < |list| && Ids(list)[j] == p;
      assert now.rooms[0][j].playerId == p;
    }
  }

  lemma GoneLeavers(queued: seq<nat>, list: seq<Entry>)
    requires Distinct(Ids(list))
    ensures forall e :: e in list ==> (e.playerId in Leavers(Outcome(queued, [], [], Ids(Gone(list)))) <==> !e.conn.Alive?)
  {
    LiveAndGone(list);
    hide Live, Gone;
    var gone := Gone(list);
    forall e | e in list
      ensures e.playerId in Ids(gone) <==> !e.conn.Alive?
    {
      IdsKnown(gone, e.playerId);
      if e.playerId in Ids(gone) {
        var f :| f in gone && f.playerId == e.playerId;
        var i :| 0 <= i < |list| && list[i] == e;
        var j :| 0 <= j < |list| && list[j] == f;
        assert Ids(list)[i] == Ids(list)[j];
      }
    }
  }

  /** One request moves the line as it moves the list. */
  lemma JoinMovesLine(s: Matcher, session: Entry)
    requires WaitingOk(s)
    ensures var (s', now) := AddStep(s, session);
      Ids(s'.waiting) == Staying(Joined(Ids(s.waiting), Add(Some(session))), Leavers(now))
  {
    hide Live, Gone, Distinct, Ids, AddStep, Leavers;
    var (s', now) := AddStep(s, session);
    var list := s.waiting + [session];
    IdsKnown(s.waiting, session.playerId);
    IdsOfMore(s.waiting, session);
    NoLeavers();
    JoinerWaits(s, session);
    if Lists(s.waiting, session.playerId) {
      AllStay(Ids(s.waiting), {});
    } else if |s.waiting| + 1 < s.playerTotal {
      AllStay(Ids(list), {});
    } else {
      CompletingMovesLine(s, session);
    }
  }

  lemma CompletingMovesLine(s: Matcher, session: Entry)
    requires WaitingOk(s) && !Lists(s.waiting, session.playerId) && |s.waiting| + 1 == s.playerTotal
    ensures var (s', now) := AddStep(s, session);
      Ids(s'.waiting) == Staying(Ids(s.waiting + [session]), Leavers(now))
  {
    hide Live, Gone, Distinct, Ids, Leavers, Lists;
    var list := s.waiting + [session];
    NotYetListed(s.waiting, session.playerId);
    NewIsOk(s, session);
    NobodyGone(list);
    NoIds();
    if Gone(list) == [] {
      RoomLeavers([session.playerId], list);
      NobodyStays(Ids(list), Leavers(Outcome([session.playerId], [list], [], [])));
    } else {
      GoneLeavers([session.playerId], list);
      LiveStay(list, Leavers(Outcome([session.playerId], [], [], Ids(Gone(list)))));
    }
  }

  lemma NotYetListed(waiting: seq<Entry>, player: nat)
    ensures Lists(waiting, player) <==> PlaceOf(waiting, player) < |waiting|
  {
  }

  lemma CancelMovesLine(s: Matcher, player: nat)
    requires WaitingOk(s)
    ensures Ids(RemoveStep(s, player).0.waiting) == Staying(Ids(s.waiting), Leavers(RemoveStep(s, player).1))
  {
    hide Distinct;
    var i := PlaceOf(s.waiting, player);
    if i == |s.waiting| {
      NoLeavers();
      AllStay(Ids(s.waiting), {});
    } else {
      assert Leavers(Outcome([], [], [player], [])) == {player};
      OneLeaves(Ids(s.waiting), i);
      assert Ids(s.waiting[..i] + s.waiting[i + 1..]) == Ids(s.waiting)[..i] + Ids(s.waiting)[i + 1..];
    }
  }

  lemma StepMovesLine(s: Matcher, step: Step)
    requires WaitingOk(s)
    ensures var (s', now) := Take(s, step);
      Ids(s'.waiting) == Staying(if s.exited then Ids(s.waiting) else Joined(Ids(s.waiting), step), Leavers(now))
  {
    hide Ids, AddStep, RemoveStep, Leavers, WaitingOk;
    NoLeavers();
    AllStay(Ids(s.waiting), {});
    if !s.exited {
      match step
      case Add(session) => if session.Some? { JoinMovesLine(s, session.value); }
      case Remove(player) => if player.Some? { CancelMovesLine(s, player.value); }
      case Exit =>
      case Reconnect(at, conn) => if at < |s.waiting| { SameIds(s.waiting, at, conn); }
    }
  }

  lemma SameIds(waiting: seq<Entry>, at: nat, conn: Room.Connection)
    requires at < |waiting|
    ensures Ids(waiting[at := waiting[at].(conn := conn)]) == Ids(waiting)
  {
  }

  lemma {:induction false} ExitedExactly(playerTotal: nat, steps: seq<Step>)
    ensures Run(playerTotal, steps).0.exited <==> Exit in steps
  {
    hide PlaceOf, Live, Gone;
    if steps != [] {
      ExitedExactly(playerTotal, steps[..|steps| - 1]);
      assert steps == steps[..|steps| - 1] + [steps[|steps| - 1]];
    }
  }

  /**
   * In every run the waiting players are exactly those who asked to join and have since neither
   * cancelled nor been dropped nor got a room, in the order in which they asked.
   */
  lemma {:induction false} WaitingInOrder(playerTotal: nat, steps: seq<Step>)
    requires 0 < playerTotal
    ensures Ids(Run(playerTotal, steps).0.waiting) == Line(playerTotal, steps)
  {
    hide Take, Ids, WaitingOk, Leavers, Joined;
    if steps == [] {
      NoIds();
    } else {
      var init := steps[..|steps| - 1];
      WaitingInOrder(playerTotal, init);
      RunIsOk(playerTotal, init);
      ExitedExactly(playerTotal, init);
      StepMovesLine(Run(playerTotal, init).0, steps[|steps| - 1]);
    }
  }

  // ---------------------------------------------------------------- a room for those who join in a row

  function Joins(entries: seq<Entry>): (steps: seq<Step>)
    ensures |steps| == |entries|
  {
    if entries == [] then []
    else Joins(entries[..|entries| - 1]) + [Add(Some(entries[|entries| - 1]))]
  }

  lemma RunMore(playerTotal: nat, steps: seq<Step>, step: Step)
    ensures var (s, done) := Run(playerTotal, steps);
      var (s', now) := Take(s, step);
      Run(playerTotal, steps + [step]) == (s', Both(done, now))
  {
    assert (steps + [step])[..|steps|] == steps;
  }

  lemma {:induction false} JoinersLineUp(playerTotal: nat, before: seq<Step>, entries: seq<Entry>)
    requires Exit !in before && Run(playerTotal, before).0.waiting == []
    requires |entries| < playerTotal && Distinct(Ids(entries))
    ensures var (s, done) := Run(playerTotal, before + Joins(entries));
      && s.waiting == entries && !s.exited && s.playerTotal == playerTotal
      && done == Both(Run(playerTotal, before).1, Outcome(Ids(entries), [], [], []))
  {
    hide Take, Distinct, Ids, Run, WaitingOk, Accounted, FullRoom, Joins;
    ExitedExactly(playerTotal, before);
    RunIsOk(playerTotal, before);
    if entries == [] {
      assert Joins([]) == [] && before + [] == before by { assert |Joins([])| == 0; }
      NoIds();
      var (s, done) := Run(playerTotal, before);
      assert Both(done, Outcome(Ids(entries), [], [], [])) == done;
    } else {
      var init, last := entries[..|entries| - 1], entries[|entries| - 1];
      assert entries == init + [last];
      DistinctPrefix(init, last);
      IdsOfMore(init, last);
      JoinersLineUp(playerTotal, before, init);
      var steps := before + Joins(init);
      JoinsMore(init, last);
      assert before + (Joins(init) + [Add(Some(last))]) == steps + [Add(Some(last))];
      RunMore(playerTotal, steps, Add(Some(last)));
      RunIsOk(playerTotal, steps);
      NextLinesUp(Run(playerTotal, steps).0, last);
    }
  }

  lemma NextLinesUp(s: Matcher, last: Entry)
    requires WaitingOk(s) && !s.exited && |s.waiting| + 1 < s.playerTotal
    requires forall i :: 0 <= i < |s.waiting| ==> s.waiting[i].playerId != last.playerId
    ensures var (s', now) := Take(s, Add(Some(last)));
      && s'.waiting == s.waiting + [last] && !s'.exited && s'.playerTotal == s.playerTotal
      && now == Outcome([last.playerId], [], [], [])
  {
    hide AddStep, WaitingOk;
    JoinerWaits(s, last);
  }

  /** When nobody waits, as many different connected players as a room takes, joining in a row, get a room of their own. */
  lemma JoinersGetRoom(playerTotal: nat, before: seq<Step>, entries: seq<Entry>)
    requires 0 < playerTotal && Exit !in before && Run(playerTotal, before).0.waiting == []
    requires |entries| == playerTotal && Distinct(Ids(entries)) && AllAlive(entries)
    ensures var (s, done) := Run(playerTotal, before + Joins(entries));
      && s.waiting == []
      && done == Both(Run(playerTotal, before).1, Outcome(Ids(entries), [entries], [], []))
  {
    hide Take, Distinct, Ids, Joins, Run;
    var init, last := entries[..|entries| - 1], entries[|entries| - 1];
    assert entries == init + [last];
    DistinctPrefix(init, last);
    IdsOfMore(init, last);
    JoinersLineUp(playerTotal, before, init);
    var steps := before + Joins(init);
    assert before + Joins(entries) == steps + [Add(Some(last))] by { JoinsMore(init, last); }
    RunMore(playerTotal, steps, Add(Some(last)));
    RunIsOk(playerTotal, steps);
    LastGetsRoom(Run(playerTotal, steps).0, last);
  }

  lemma JoinsMore(init: seq<Entry>, last: Entry)
    ensures Joins(init + [last]) == Joins(init) + [Add(Some(last))]
  {
    assert (init + [last])[..|init|] == init;
  }

  lemma LastGetsRoom(s: Matcher, last: Entry)
    requires WaitingOk(s) && !s.exited && |s.waiting| + 1 == s.playerTotal && AllAlive(s.waiting + [last])
    requires forall i :: 0 <= i < |s.waiting| ==> s.waiting[i].playerId != last.playerId
    ensures var (s', now) := Take(s, Add(Some(last)));
      s'.waiting == [] && now == Outcome([last.playerId], [s.waiting + [last]], [], [])
  {
    hide AddStep, WaitingOk;
    JoinerCompletes(s, last);
  }
}

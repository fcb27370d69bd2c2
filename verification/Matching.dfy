/**
 * Gathering players for one kind of room (playerMatchingRoutine in game_server/room.go): requests
 * to join and to cancel, one at a time, while connections may fail at any moment.
 */
module Matching {
  import opened Basics
  import opened Room

  /** A waiting session, as far as the matching looks at it. */
  datatype Entry = Entry(playerId: nat, conn: Connection)

  /** `hasRoom`: a room object has been made for the players waiting now. */
  datatype Matcher = Matcher(playerTotal: nat, waiting: seq<Entry>, hasRoom: bool, exited: bool)

  datatype Step =
    | Add(session: Option<Entry>)
    | Remove(player: Option<nat>)
    | Exit
    | Reconnect(at: nat, conn: Connection)

  /** What one step did: who was queued, which room opened, who cancelled, who was dropped. */
  datatype Outcome = Outcome(queued: seq<nat>, rooms: seq<seq<Entry>>, cancelled: seq<nat>, dropped: seq<nat>)

  const NOTHING := Outcome([], [], [], [])

  function Ids(entries: seq<Entry>): (ids: seq<nat>)
    ensures |ids| == |entries| && forall i :: 0 <= i < |ids| ==> ids[i] == entries[i].playerId
  {
    seq(|entries|, i requires 0 <= i < |entries| => entries[i].playerId)
  }

  function Live(entries: seq<Entry>): seq<Entry> {
    if entries == [] then []
    else
      var init, last := entries[..|entries| - 1], entries[|entries| - 1];
      if last.conn == Alive then Live(init) + [last] else Live(init)
  }

  function Gone(entries: seq<Entry>): seq<Entry> {
    if entries == [] then []
    else
      var init, last := entries[..|entries| - 1], entries[|entries| - 1];
      if last.conn == Alive then Gone(init) else Gone(init) + [last]
  }

  /** The place of a player in the list, or its length. */
  function PlaceOf(entries: seq<Entry>, player: nat): (i: nat)
    ensures i <= |entries|
    ensures i < |entries| ==> entries[i].playerId == player
    ensures forall j :: 0 <= j < i ==> entries[j].playerId != player
  {
    if entries == [] then 0
    else if entries[0].playerId == player then 0
    else PlaceOf(entries[1..], player) + 1
  }

  // ---------------------------------------------------------------- the steps

  function AddStep(s: Matcher, session: Entry): (Matcher, Outcome) {
    var known := PlaceOf(s.waiting, session.playerId) < |s.waiting|;
    var list := if known then s.waiting else s.waiting + [session];
    var queued := if known then [] else [session.playerId];
    if |list| < s.playerTotal then (s.(waiting := list, hasRoom := true), Outcome(queued, [], [], []))
    else if Gone(list) != [] then
      (s.(waiting := Live(list), hasRoom := true), Outcome(queued, [], [], Ids(Gone(list))))
    else (s.(waiting := [], hasRoom := false), Outcome(queued, [list], [], []))
  }

  function RemoveStep(s: Matcher, player: nat): (Matcher, Outcome) {
    var i := PlaceOf(s.waiting, player);
    if i == |s.waiting| then (s, NOTHING)
    else (s.(waiting := s.waiting[..i] + s.waiting[i + 1..]), Outcome([], [], [player], []))
  }

  function Take(s: Matcher, step: Step): (Matcher, Outcome) {
    if s.exited then (s, NOTHING)
    else
      match step
      case Add(session) => if session.Some? then AddStep(s, session.value) else (s, NOTHING)
      case Remove(player) => if player.Some? && s.hasRoom then RemoveStep(s, player.value) else (s, NOTHING)
      case Exit => (s.(exited := true), NOTHING)
      case Reconnect(at, conn) =>
        (if at < |s.waiting| then s.(waiting := s.waiting[at := s.waiting[at].(conn := conn)]) else s, NOTHING)
  }

  function Both(a: Outcome, b: Outcome): Outcome {
    Outcome(a.queued + b.queued, a.rooms + b.rooms, a.cancelled + b.cancelled, a.dropped + b.dropped)
  }

  /** A whole run: the state it leaves and everything it did. */
  function Run(playerTotal: nat, steps: seq<Step>): (Matcher, Outcome) {
    if steps == [] then (Matcher(playerTotal, [], false, false), NOTHING)
    else
      var (s, done) := Run(playerTotal, steps[..|steps| - 1]);
      var (s', now) := Take(s, steps[|steps| - 1]);
      (s', Both(done, now))
  }

  // ---------------------------------------------------------------- what every run keeps

  /** Between steps fewer players wait than a room takes, each player once. */
  ghost predicate WaitingOk(s: Matcher) {
    && |s.waiting| < s.playerTotal
    && Distinct(Ids(s.waiting))
    && (s.waiting != [] ==> s.hasRoom)
  }

  /** A full room of different players, all connected. */
  ghost predicate FullRoom(room: seq<Entry>, playerTotal: nat) {
    && |room| == playerTotal && Distinct(Ids(room))
    && forall i :: 0 <= i < |room| ==> room[i].conn == Alive
  }

  function AllIds(rooms: seq<seq<Entry>>): multiset<nat> {
    if rooms == [] then multiset{}
    else AllIds(rooms[..|rooms| - 1]) + multiset(Ids(rooms[|rooms| - 1]))
  }

  /** Everyone who was queued is waiting, in a room, has cancelled or was dropped. */
  ghost predicate Accounted(s: Matcher, done: Outcome) {
    multiset(done.queued)
    == multiset(Ids(s.waiting)) + AllIds(done.rooms) + multiset(done.cancelled) + multiset(done.dropped)
  }

  /** The live and the gone entries are all of them. */
  lemma {:induction false} SplitByConnection(entries: seq<Entry>)
    ensures multiset(Ids(entries)) == multiset(Ids(Live(entries))) + multiset(Ids(Gone(entries)))
    ensures |Live(entries)| + |Gone(entries)| == |entries|
  {
    hide Ids;
    if entries != [] {
      var init, last := entries[..|entries| - 1], entries[|entries| - 1];
      assert entries == init + [last];
      SplitByConnection(init);
      IdsOfMore(init, last);
      IdsOfMore(Live(init), last);
      IdsOfMore(Gone(init), last);
    } else {
      assert multiset(Ids([])) == multiset{};
    }
  }

  lemma {:induction false} NobodyGone(entries: seq<Entry>)
    ensures Gone(entries) == [] <==> forall i :: 0 <= i < |entries| ==> entries[i].conn == Alive
    ensures Gone(entries) == [] ==> Live(entries) == entries
  {
    if entries != [] {
      NobodyGone(entries[..|entries| - 1]);
    }
  }

  lemma {:induction false} LiveAreDistinct(entries: seq<Entry>)
    requires Distinct(Ids(entries))
    ensures Distinct(Ids(Live(entries)))
    ensures forall e :: e in Live(entries) ==> e in entries
  {
    hide Ids, Distinct;
    if entries != [] {
      var init, last := entries[..|entries| - 1], entries[|entries| - 1];
      assert entries == init + [last];
      DistinctPrefix(init, last);
      LiveAreDistinct(init);
      DistinctMore(Live(init), last);
    }
  }

  lemma IdsOfMore(entries: seq<Entry>, last: Entry)
    ensures Ids(entries + [last]) == Ids(entries) + [last.playerId]
    ensures multiset(Ids(entries + [last])) == multiset(Ids(entries)) + multiset{last.playerId}
  {
    assert Ids(entries + [last]) == Ids(entries) + [last.playerId];
  }

  lemma DistinctPrefix(init: seq<Entry>, last: Entry)
    requires Distinct(Ids(init + [last]))
    ensures Distinct(Ids(init))
    ensures forall i :: 0 <= i < |init| ==> init[i].playerId != last.playerId
  {
    var ids := Ids(init + [last]);
    forall i, j | 0 <= i < j < |init| ensures Ids(init)[i] != Ids(init)[j] {
      assert ids[i] != ids[j];
    }
    forall i | 0 <= i < |init| ensures init[i].playerId != last.playerId {
      assert ids[i] != ids[|init|];
    }
  }

  lemma DistinctMore(init: seq<Entry>, last: Entry)
    requires Distinct(Ids(init)) && forall e :: e in init ==> e.playerId != last.playerId
    ensures Distinct(Ids(init + [last]))
  {
    IdsOfMore(init, last);
  }

  lemma AllIdsMore(rooms: seq<seq<Entry>>, more: seq<seq<Entry>>)
    requires |more| <= 1
    ensures AllIds(rooms + more) == AllIds(rooms) + AllIds(more)
  {
    if |more| == 0 {
      assert rooms + more == rooms;
    } else {
      assert (rooms + more)[..|rooms|] == rooms;
      assert more[..0] == [];
    }
  }

  /** What a step does with the players, and what it promises of an opened room. */
  ghost predicate StepOk(s: Matcher, s': Matcher, now: Outcome) {
    && s'.playerTotal == s.playerTotal && WaitingOk(s')
    && |now.rooms| <= 1
    && (forall i :: 0 <= i < |now.rooms| ==> FullRoom(now.rooms[i], s.playerTotal))
    && multiset(Ids(s.waiting)) + multiset(now.queued)
       == multiset(Ids(s'.waiting)) + AllIds(now.rooms) + multiset(now.cancelled) + multiset(now.dropped)
  }

  lemma AddIsOk(s: Matcher, session: Entry)
    requires WaitingOk(s)
    ensures StepOk(s, AddStep(s, session).0, AddStep(s, session).1)
  {
    hide WaitingOk, StepOk, Live, Gone, PlaceOf;
    if PlaceOf(s.waiting, session.playerId) < |s.waiting| {
      KnownIsOk(s);
    } else {
      NewIsOk(s, session);
      if |s.waiting| + 1 == s.playerTotal {
        DropsIsOk(s, session);
        OpensIsOk(s, session);
      }
    }
  }

  /** A player who is listed already changes nothing but that there is a room. */
  lemma KnownIsOk(s: Matcher)
    requires WaitingOk(s)
    ensures |s.waiting| < s.playerTotal && StepOk(s, s.(hasRoom := true), NOTHING)
  {
    OneRoom([]);
  }

  /** A new player waits at the end of the list, if it is still too short. */
  lemma NewIsOk(s: Matcher, session: Entry)
    requires WaitingOk(s) && PlaceOf(s.waiting, session.playerId) == |s.waiting|
    ensures var list := s.waiting + [session];
      && Distinct(Ids(list)) && |list| <= s.playerTotal
      && (|list| < s.playerTotal ==> StepOk(s, s.(waiting := list, hasRoom := true), Outcome([session.playerId], [], [], [])))
  {
    hide Ids, Distinct;
    OneRoom([]);
    IdsOfMore(s.waiting, session);
    NotListed(s.waiting, session.playerId);
    DistinctMore(s.waiting, session);
  }

  /** With the number complete the gone players are dropped, if there are any. */
  lemma DropsIsOk(s: Matcher, session: Entry)
    requires WaitingOk(s) && PlaceOf(s.waiting, session.playerId) == |s.waiting| && |s.waiting| + 1 == s.playerTotal
    ensures var list := s.waiting + [session];
      Gone(list) != [] ==>
        StepOk(s, s.(waiting := Live(list), hasRoom := true), Outcome([session.playerId], [], [], Ids(Gone(list))))
  {
    hide Ids, Distinct, Live, Gone;
    var list := s.waiting + [session];
    NewIsOk(s, session);
    OneRoom([]);
    IdsOfMore(s.waiting, session);
    SplitByConnection(list);
    LiveAreDistinct(list);
  }

  /** Otherwise the room opens for exactly the list. */
  lemma OpensIsOk(s: Matcher, session: Entry)
    requires WaitingOk(s) && PlaceOf(s.waiting, session.playerId) == |s.waiting| && |s.waiting| + 1 == s.playerTotal
    ensures var list := s.waiting + [session];
      Gone(list) == [] ==>
        StepOk(s, s.(waiting := [], hasRoom := false), Outcome([session.playerId], [list], [], []))
  {
    hide Ids, Distinct, Live, Gone;
    var list := s.waiting + [session];
    NewIsOk(s, session);
    OneRoom(list);
    IdsOfMore(s.waiting, session);
    NobodyGone(list);
    NoIds();
  }

  lemma NotListed(entries: seq<Entry>, player: nat)
    ensures PlaceOf(entries, player) == |entries| ==> forall e :: e in entries ==> e.playerId != player
  {
  }

  lemma NoIds()
    ensures Ids([]) == [] && Distinct(Ids([]))
  {
  }

  lemma AddKeepsWaitingOk(s: Matcher, session: Entry)
    requires WaitingOk(s)
    ensures WaitingOk(AddStep(s, session).0)
  {
    hide AddStep, WaitingOk;
    AddIsOk(s, session);
  }

  lemma RemoveKeepsWaitingOk(s: Matcher, player: nat)
    requires WaitingOk(s)
    ensures WaitingOk(RemoveStep(s, player).0)
  {
    hide RemoveStep, WaitingOk;
    RemoveIsOk(s, player);
  }

  lemma ExitKeepsWaitingOk(s: Matcher)
    requires WaitingOk(s)
    ensures WaitingOk(s.(exited := true))
  {
  }

  lemma OnlyWithRoom(s: Matcher)
    requires WaitingOk(s)
    ensures s.hasRoom || |s.waiting| == 0
  {
  }

  lemma PlaceIsNowhere(entries: seq<Entry>, player: nat)
    requires forall j :: 0 <= j < |entries| ==> entries[j].playerId != player
    ensures PlaceOf(entries, player) == |entries|
  {
  }

  lemma OneRoom(room: seq<Entry>)
    ensures AllIds([room]) == multiset(Ids(room)) && AllIds([]) == multiset{}
  {
    assert [room][..0] == [];
  }

  lemma RemoveIsOk(s: Matcher, player: nat)
    requires WaitingOk(s)
    ensures StepOk(s, RemoveStep(s, player).0, RemoveStep(s, player).1)
  {
    hide Ids, Distinct;
    var i := PlaceOf(s.waiting, player);
    OneRoom([]);
    if i < |s.waiting| {
      WithoutOne(s.waiting, i);
    }
  }

  lemma WithoutOne(entries: seq<Entry>, i: nat)
    requires i < |entries|
    ensures var rest := entries[..i] + entries[i + 1..];
      && multiset(Ids(entries)) == multiset(Ids(rest)) + multiset{entries[i].playerId}
      && (Distinct(Ids(entries)) ==> Distinct(Ids(rest)))
  {
    var ids := Ids(entries);
    assert ids == ids[..i] + [ids[i]] + ids[i + 1..];
    assert Ids(entries[..i] + entries[i + 1..]) == ids[..i] + ids[i + 1..];
  }

  lemma TakeIsOk(s: Matcher, step: Step)
    requires WaitingOk(s)
    ensures StepOk(s, Take(s, step).0, Take(s, step).1)
  {
    hide AddStep, RemoveStep;
    OneRoom([]);
    match step
    case Add(session) => if session.Some? { AddIsOk(s, session.value); }
    case Remove(player) => if player.Some? { RemoveIsOk(s, player.value); }
    case Exit =>
    case Reconnect(at, conn) =>
      if at < |s.waiting| {
        assert Ids(s.waiting[at := s.waiting[at].(conn := conn)]) == Ids(s.waiting);
      }
  }

  /**
   * In every run: the waiting players are different and fewer than a room takes; every opened room
   * is full of different connected players; and whoever was queued is still waiting, is in a room,
   * has cancelled or was dropped.
   */
  lemma {:induction false} RunIsOk(playerTotal: nat, steps: seq<Step>)
    requires 0 < playerTotal
    ensures var (s, done) := Run(playerTotal, steps);
      && s.playerTotal == playerTotal && WaitingOk(s) && Accounted(s, done)
      && (forall i :: 0 <= i < |done.rooms| ==> FullRoom(done.rooms[i], playerTotal))
  {
    hide Take, WaitingOk, FullRoom, Ids, AllIds, Accounted;
    if steps == [] {
      NobodyWaits(playerTotal);
    } else {
      RunIsOk(playerTotal, steps[..|steps| - 1]);
      var (s, done) := Run(playerTotal, steps[..|steps| - 1]);
      TakeIsOk(s, steps[|steps| - 1]);
      AccountMore(s, done, Take(s, steps[|steps| - 1]).0, Take(s, steps[|steps| - 1]).1);
    }
  }

  lemma AccountMore(s: Matcher, done: Outcome, s': Matcher, now: Outcome)
    requires Accounted(s, done) && StepOk(s, s', now)
    ensures Accounted(s', Both(done, now))
  {
    hide WaitingOk, FullRoom, Ids, AllIds;
    AllIdsMore(done.rooms, now.rooms);
    assert multiset(done.queued + now.queued) == multiset(done.queued) + multiset(now.queued);
    assert multiset(done.cancelled + now.cancelled) == multiset(done.cancelled) + multiset(now.cancelled);
    assert multiset(done.dropped + now.dropped) == multiset(done.dropped) + multiset(now.dropped);
    Rearrange(multiset(done.queued), multiset(Ids(s.waiting)), AllIds(done.rooms), multiset(done.cancelled), multiset(done.dropped),
              multiset(now.queued), multiset(Ids(s'.waiting)), AllIds(now.rooms), multiset(now.cancelled), multiset(now.dropped));
  }

  lemma Rearrange(q: multiset<nat>, w: multiset<nat>, r: multiset<nat>, c: multiset<nat>, d: multiset<nat>,
                  q': multiset<nat>, w': multiset<nat>, r': multiset<nat>, c': multiset<nat>, d': multiset<nat>)
    requires q == w + r + c + d && w + q' == w' + r' + c' + d'
    ensures q + q' == w' + (r + r') + (c + c') + (d + d')
  {
    assert q + q' == (w + q') + r + c + d;
  }

  lemma NobodyWaits(playerTotal: nat)
    requires 0 < playerTotal
    ensures WaitingOk(Matcher(playerTotal, [], false, false))
    ensures Accounted(Matcher(playerTotal, [], false, false), NOTHING)
  {
  }

  /** In numbers: queued = waiting + playerTotal for each room + cancelled + dropped. */
  lemma PlayersAddUp(playerTotal: nat, steps: seq<Step>)
    requires 0 < playerTotal
    ensures var (s, done) := Run(playerTotal, steps);
      |done.queued| == |s.waiting| + playerTotal * |done.rooms| + |done.cancelled| + |done.dropped|
  {
    hide Run, WaitingOk;
    var (s, done) := Run(playerTotal, steps);
    RunIsOk(playerTotal, steps);
    RoomsHold(done.rooms, playerTotal);
    assert |multiset(done.queued)| == |done.queued|;
    assert |multiset(Ids(s.waiting)) + AllIds(done.rooms) + multiset(done.cancelled) + multiset(done.dropped)|
      == |s.waiting| + playerTotal * |done.rooms| + |done.cancelled| + |done.dropped|;
  }

  lemma {:induction false} RoomsHold(rooms: seq<seq<Entry>>, playerTotal: nat)
    requires forall i :: 0 <= i < |rooms| ==> FullRoom(rooms[i], playerTotal)
    ensures |AllIds(rooms)| == playerTotal * |rooms|
  {
    if rooms != [] {
      RoomsHold(rooms[..|rooms| - 1], playerTotal);
      assert FullRoom(rooms[|rooms| - 1], playerTotal);
      assert playerTotal * |rooms| == playerTotal * (|rooms| - 1) + playerTotal;
    }
  }

  /** A room opens exactly when a new player completes the number and nobody listed is gone. */
  lemma OpensExactly(s: Matcher, session: Entry)
    requires WaitingOk(s)
    ensures AddStep(s, session).1.rooms != []
      <==> (&& |s.waiting| + 1 == s.playerTotal
            && session.conn == Alive
            && forall i :: 0 <= i < |s.waiting| ==> s.waiting[i].playerId != session.playerId && s.waiting[i].conn == Alive)
    ensures AddStep(s, session).1.rooms != [] ==> AddStep(s, session).1.rooms == [s.waiting + [session]]
  {
    hide Live, Gone;
    NobodyGone(s.waiting + [session]);
    assert (s.waiting + [session])[|s.waiting|] == session;
    assert forall i :: 0 <= i < |s.waiting| ==> (s.waiting + [session])[i] == s.waiting[i];
  }

  // ---------------------------------------------------------------- the routine as it updates its list

  ghost function Entries(sessions: seq<Session>): (r: seq<Entry>)
    reads sessions
    ensures |r| == |sessions|
  {
    seq(|sessions|, i requires 0 <= i < |sessions| reads sessions => Entry(sessions[i].playerId, sessions[i].conn))
  }

  /** Sessions of different players are different. */
  lemma DifferentSessions(sessions: seq<Session>)
    requires Distinct(Ids(Entries(sessions)))
    ensures Distinct(sessions)
  {
    forall i, j | 0 <= i < j < |sessions| ensures sessions[i] != sessions[j] {
      assert Ids(Entries(sessions))[i] != Ids(Entries(sessions))[j];
    }
  }

  lemma EntriesAt(sessions: seq<Session>)
    ensures |sessions| == |Entries(sessions)|
    ensures forall i :: 0 <= i < |sessions| ==> Entries(sessions)[i] == Entry(sessions[i].playerId, sessions[i].conn)
  {
  }

  lemma EntriesMore(sessions: seq<Session>, session: Session)
    ensures Entries(sessions + [session]) == Entries(sessions) + [Entry(session.playerId, session.conn)]
  {
  }

  lemma LiveStart()
    ensures Live([]) == [] && Gone([]) == [] && Entries([]) == []
  {
  }

  lemma LiveNext(entries: seq<Entry>, i: nat)
    requires i < |entries|
    ensures entries[..0] == []
    ensures Live(entries[..i + 1]) == Live(entries[..i]) + (if entries[i].conn == Alive then [entries[i]] else [])
    ensures Gone(entries[..i + 1]) == Gone(entries[..i]) + (if entries[i].conn == Alive then [] else [entries[i]])
  {
    assert entries[..i + 1][..i] == entries[..i];
  }

  method SendHome(session: Session, ghost all: seq<Session>, ghost kept: seq<Session>)
    modifies session`state
    ensures session.state == InHall
    ensures Entries(all) == old(Entries(all)) && Entries(kept) == old(Entries(kept))
  {
    session.state := InHall;
  }

  method Leave(session: Session, ghost waiting: seq<Session>)
    modifies session`state, session`inRoom
    ensures session.state == InHall && !session.inRoom
    ensures Entries(waiting) == old(Entries(waiting))
  {
    session.state := InHall;
    session.inRoom := false;
  }

  class Routine {
    const playerTotal: nat
    var waiting: seq<Session>
    var curPlayerNum: nat
    var hasRoom: bool
    var exited: bool

    ghost predicate Valid()
      reads this, waiting
    {
      curPlayerNum == |waiting| && WaitingOk(View())
    }

    ghost function View(): Matcher
      reads this, waiting
    {
      Matcher(playerTotal, Entries(waiting), hasRoom, exited)
    }

    constructor (total: nat)
      requires 0 < total
      ensures Valid() && View() == Matcher(total, [], false, false)
    {
      playerTotal, waiting, curPlayerNum, hasRoom, exited := total, [], 0, false, false;
    }

    method Listed(session: Session) returns (known: bool)
      ensures known == (PlaceOf(Entries(waiting), session.playerId) < |waiting|)
    {
      known := false;
      for i := 0 to |waiting|
        invariant known <==> exists j :: 0 <= j < i && Entries(waiting)[j].playerId == session.playerId
      {
        if waiting[i].playerId == session.playerId {
          assert Entries(waiting)[i].playerId == session.playerId;
          known := true;
        }
      }
    }

    /** Take gone sessions off the list and send them to the hall. */
    method DropGone() returns (ok: bool)
      requires curPlayerNum == |waiting| && Distinct(waiting)
      modifies this`waiting, this`curPlayerNum, waiting
      ensures Entries(waiting) == Live(old(Entries(waiting))) && curPlayerNum == |waiting|
      ensures ok <==> Gone(old(Entries(waiting))) == []
      ensures ok ==> waiting == old(waiting)
      ensures forall i :: 0 <= i < |waiting| ==> waiting[i] in old(waiting)
    {
      hide Live, Gone, Entries, Distinct;
      var all := waiting;
      ghost var entries := Entries(all);
      ok, waiting := true, [];
      EntriesAt(all);
      EntriesAt(waiting);
      LiveStart();
      for i := 0 to |all|
        invariant curPlayerNum == |waiting| + |all| - i
        invariant Entries(waiting) == Live(entries[..i]) && Entries(all) == entries
        invariant ok <==> Gone(entries[..i]) == []
        invariant ok ==> waiting == all[..i]
        invariant forall k :: 0 <= k < |waiting| ==> waiting[k] in all
      {
        LiveNext(entries, i);
        EntriesAt(all);
        if all[i].conn == Dead || all[i].conn == WaitingForClose {
          ok := false;
          SendHome(all[i], all, waiting);
          curPlayerNum := curPlayerNum - 1;
        } else {
          EntriesMore(waiting, all[i]);
          waiting := waiting + [all[i]];
        }
      }
      assert entries[..|all|] == entries && all[..|all|] == all;
    }

    /** ADD: the room that opens, if one does. */
    method Enlist(session: Session) returns (room: Option<RoomInfo>)
      requires Valid() && !exited
      modifies this, waiting, session
      ensures Valid() && View() == AddStep(old(View()), old(Entry(session.playerId, session.conn))).0
      ensures room.Some? <==> AddStep(old(View()), old(Entry(session.playerId, session.conn))).1.rooms != []
      ensures room.Some? ==> fresh(room.value) && Opened(room.value, old(waiting) + [session])
    {
      hide Live, Gone, Entries, PlaceOf, Ids, Distinct, Opened;
      room := None;
      AddKeepsWaitingOk(View(), Entry(session.playerId, session.conn));
      ListsGrow(waiting, session);
      var known := Listed(session);
      hasRoom := true;
      if !known {
        waiting := waiting + [session];
        curPlayerNum := curPlayerNum + 1;
      }
      SetMatching(session, waiting);
      if curPlayerNum >= playerTotal {
        room := CheckAndOpen();
      }
    }

    /** REM: the asking session goes to the hall, and the first one listed for its player leaves the list. */
    method Cancel(session: Session) returns (ok: bool)
      requires Valid() && !exited
      modifies this`waiting, this`curPlayerNum, session`state, session`inRoom
      ensures Valid() && View() == Take(old(View()), Remove(Some(session.playerId))).0
      ensures ok <==> Take(old(View()), Remove(Some(session.playerId))).1.cancelled == [session.playerId]
      ensures ok ==> session.state == InHall && !session.inRoom
      ensures !ok ==> session.state == old(session.state) && session.inRoom == old(session.inRoom)
    {
      hide Ids, Entries, PlaceOf, WaitingOk;
      ok := false;
      ghost var entries := Entries(waiting);
      RemoveKeepsWaitingOk(View(), session.playerId);
      EntriesAt(waiting);
      if hasRoom {
        for i := 0 to |waiting|
          invariant !ok && Entries(waiting) == entries
          invariant forall j :: 0 <= j < i ==> entries[j].playerId != session.playerId
        {
          if waiting[i].playerId == session.playerId {
            ok := true;
            PlaceIs(entries, session.playerId, i);
            EntriesWithout(waiting, i);
            waiting := waiting[..i] + waiting[i + 1..];
            curPlayerNum := curPlayerNum - 1;
            Leave(session, waiting);
            return;
          }
        }
        PlaceIsNowhere(entries, session.playerId);
      } else {
        assert |waiting| == 0 by { OnlyWithRoom(View()); }
      }
    }

    /** EXIT: everyone waiting goes to the hall. */
    method Quit()
      requires Valid() && !exited
      modifies this`exited, waiting
      ensures Valid() && View() == Take(old(View()), Exit).0
      ensures waiting == old(waiting) && forall i :: 0 <= i < |waiting| ==> waiting[i].state == InHall && !waiting[i].inRoom
    {
      hide WaitingOk;
      OnlyWithRoom(View());
      ExitKeepsWaitingOk(View());
      EntriesAt(waiting);
      exited := true;
      if hasRoom {
        for i := 0 to |waiting|
          invariant exited
          invariant forall k :: 0 <= k < i ==> waiting[k].state == InHall && !waiting[k].inRoom
          invariant Entries(waiting) == old(Entries(waiting))
        {
          waiting[i].state := InHall;
          waiting[i].inRoom := false;
        }
      }
    }

    /** Enough players: open a room for them, unless some are gone and have to be dropped. */
    method CheckAndOpen() returns (room: Option<RoomInfo>)
      requires curPlayerNum == |waiting| && Distinct(waiting)
      modifies this`waiting, this`curPlayerNum, this`hasRoom, waiting
      ensures curPlayerNum == |waiting| && (room.Some? <==> Gone(old(Entries(waiting))) == [])
      ensures room == None ==> Entries(waiting) == Live(old(Entries(waiting))) && hasRoom == old(hasRoom)
      ensures room.Some? ==> Entries(waiting) == [] && !hasRoom && Opened(room.value, old(waiting))
      ensures room.Some? ==> fresh(room.value)
    {
      hide Live, Gone, Distinct;
      room := None;
      NobodyGone(Entries(waiting));
      EntriesAt(waiting);
      var ok := DropGone();
      if ok {
        var info := OpenRoom(waiting);
        room := Some(info);
        waiting, curPlayerNum, hasRoom := [], 0, false;
      }
    }
  }

  /** Who is on the list is on it at one place only. */
  lemma PlaceIs(entries: seq<Entry>, player: nat, i: nat)
    requires i < |entries| && entries[i].playerId == player
    requires forall j :: 0 <= j < i ==> entries[j].playerId != player
    ensures PlaceOf(entries, player) == i
  {
  }

  lemma EntriesWithout(sessions: seq<Session>, i: nat)
    requires i < |sessions|
    ensures Entries(sessions[..i] + sessions[i + 1..]) == Entries(sessions)[..i] + Entries(sessions)[i + 1..]
  {
  }

  /** A new room for exactly these sessions, which are now in it. */
  ghost predicate Opened(room: RoomInfo, sessions: seq<Session>)
    reads room, room.players, room.former, room.buffer, room.slots, sessions
  {
    && room.Valid() && room.players == sessions
    && room.View() == Open(Members(sessions))
    && forall i :: 0 <= i < |sessions| ==> Joined(sessions[i])
  }

  method SetMatching(session: Session, ghost waiting: seq<Session>)
    modifies session`state
    ensures Entries(waiting) == old(Entries(waiting))
  {
    session.state := PlayerState.Matching;
  }

  lemma ListsGrow(waiting: seq<Session>, session: Session)
    ensures Entries(waiting + [session]) == Entries(waiting) + [Entry(session.playerId, session.conn)]
    ensures |Entries(waiting)| == |waiting|
    requires Distinct(Ids(Entries(waiting)))
    ensures Distinct(waiting)
    ensures PlaceOf(Entries(waiting), session.playerId) == |waiting| ==> Distinct(waiting + [session])
  {
    DifferentSessions(waiting);
    if PlaceOf(Entries(waiting), session.playerId) == |waiting| {
      DistinctMore(Entries(waiting), Entry(session.playerId, session.conn));
      EntriesMore(waiting, session);
      DifferentSessions(waiting + [session]);
    }
  }

  ghost predicate Joined(session: Session)
    reads session
  {
    session.state == InRoom && session.inRoom && session.conn == Alive
  }

  method JoinRoom(sessions: seq<Session>)
    modifies sessions
    ensures forall i :: 0 <= i < |sessions| ==> sessions[i].state == InRoom && sessions[i].inRoom
    ensures forall i :: 0 <= i < |sessions| ==> sessions[i].conn == old(sessions[i].conn)
    ensures Entries(sessions) == old(Entries(sessions))
  {
    for i := 0 to |sessions|
      invariant forall k :: 0 <= k < i ==> sessions[k].state == InRoom && sessions[k].inRoom
      invariant forall k :: 0 <= k < |sessions| ==> sessions[k].conn == old(sessions[k].conn)
      invariant Entries(sessions) == old(Entries(sessions))
    {
      sessions[i].state := InRoom;
      sessions[i].inRoom := true;
    }
  }

  method OpenRoom(sessions: seq<Session>) returns (room: RoomInfo)
    requires Distinct(sessions) && forall i :: 0 <= i < |sessions| ==> sessions[i].conn == Alive
    modifies sessions
    ensures fresh(room) && Opened(room, sessions)
    ensures Entries(sessions) == old(Entries(sessions))
  {
    JoinRoom(sessions);
    EntriesAt(sessions);
    room := new RoomInfo(sessions);
  }
}

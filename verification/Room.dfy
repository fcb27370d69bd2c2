/**
 * A game room (game_server/room.go): the routine that works off the room's action queue, the
 * routine that ticks, and the sessions, which may change at any moment. One action and one tick
 * are one step each; a tick that has to wait for space in the queue goes on in a later step.
 */
module Room {
  import opened Basics

  const MAX_COMMANDS: nat := 256
  const MAX_QUEUE: nat := 1024
  const UINT32 := 0x1_0000_0000

  datatype Stage = Preparing | Playing | GameOver | NonNormal {
    predicate Terminal() { GameOver? || NonNormal? }
    function Rank(): nat { if Preparing? then 0 else if Playing? then 1 else 2 }
  }

  datatype PlayerState = InHall | Matching | InRoom | Prepared | InGame | Finished

  datatype Connection = Alive | WaitingForClose | Dead

  datatype Member = Member(playerId: nat, state: PlayerState, conn: Connection, inRoom: bool) {
    predicate Offline() { conn != Alive }
    predicate Done() { state == Finished || Offline() }
  }

  datatype PlayerCommand = PlayerCommand(player: nat, data: seq<nat>)

  const EMPTY_CELL := PlayerCommand(0, [])

  datatype Action =
    | Disconn(player: nat)
    | LoadingOver
    | Commands(player: nat, data: Option<seq<nat>>)
    | Gameover
    | RoomCancel
    | StatusCheck
    | Nil

  datatype Frame = Frame(id: nat, commands: seq<PlayerCommand>)

  /** Where the tick routine is: between ticks, waiting to push a cancel or the final nil, or gone. */
  datatype Phase = Ready | Cancelling | Stopping | Ended

  /** `slots` are the pointers into `buffer`; `former` the sessions let go by Free. */
  datatype Room = Room(
    playerTotal: nat, stage: Stage, players: seq<Member>, former: seq<Member>,
    queue: seq<Action>, actionDone: bool, phase: Phase,
    frameId: nat, buffer: seq<PlayerCommand>, slots: seq<Option<nat>>, total: nat)

  datatype Step =
    | Post(action: Action)
    | Change(player: nat, member: Member)
    | Act
    | Tick(late: bool, stop: bool)
    | Resume(stop: bool)

  function Open(members: seq<Member>): Room {
    Room(|members|, Preparing, members, [], [], false, Ready, 0, [], [], 0)
  }

  // ---------------------------------------------------------------- the steps

  function CountPrepared(players: seq<Member>): (n: nat)
    ensures n <= |players|
    ensures n == |players| <==> forall i :: 0 <= i < |players| ==> players[i].state == Prepared
  {
    if players == [] then 0
    else
      var last := |players| - 1;
      CountPrepared(players[..last]) + (if players[last].state == Prepared then 1 else 0)
  }

  function CountDone(players: seq<Member>): (n: nat)
    ensures n <= |players|
    ensures n == |players| <==> forall i :: 0 <= i < |players| ==> players[i].Done()
  {
    if players == [] then 0
    else
      var last := |players| - 1;
      CountDone(players[..last]) + (if players[last].Done() then 1 else 0)
  }

  function InGameNow(players: seq<Member>): (r: seq<Member>)
    ensures |r| == |players|
  {
    seq(|players|, i requires 0 <= i < |players| => players[i].(state := InGame))
  }

  function Released(players: seq<Member>): (r: seq<Member>)
    ensures |r| == |players|
  {
    seq(|players|, i requires 0 <= i < |players| => players[i].(state := InHall, inRoom := false))
  }

  function StartGame(s: Room): Room {
    s.(stage := Playing, frameId := 0, total := 0, players := InGameNow(s.players),
       buffer := seq(MAX_COMMANDS, _ => EMPTY_CELL), slots := seq(MAX_COMMANDS, _ => None))
  }

  /** Store a command in the next cell and point the next slot at it, unless the frame is full. */
  function Accept(s: Room, command: PlayerCommand): Room {
    if s.total < MAX_COMMANDS && s.total < |s.buffer| && s.total < |s.slots|
    then s.(buffer := s.buffer[s.total := command], slots := s.slots[s.total := Some(s.total)], total := s.total + 1)
    else s
  }

  function Perform(s: Room, action: Action): Room {
    match action
    case Nil => s.(actionDone := true)
    case Disconn(player) => if player > 0 then s.(stage := NonNormal, actionDone := true) else s
    case LoadingOver =>
      if s.stage == Preparing && CountPrepared(s.players) >= s.playerTotal then StartGame(s) else s
    case Commands(player, data) =>
      if s.stage == Playing && player > 0 && data.Some? then Accept(s, PlayerCommand(player, data.value)) else s
    case Gameover =>
      if s.stage == Playing && CountDone(s.players) >= s.playerTotal then s.(stage := GameOver, actionDone := true) else s
    case RoomCancel => s.(stage := NonNormal, actionDone := true)
    case StatusCheck => s
  }

  function Free(s: Room): Room {
    s.(players := [], former := s.former + Released(s.players), phase := Ended)
  }

  /** The end of a tick: when the room is over or the server stops, push nil and let everyone go. */
  function Finish(s: Room, stop: bool): Room {
    if !s.stage.Terminal() && !stop then s.(phase := Ready)
    else if |s.queue| >= MAX_QUEUE then s.(phase := Stopping)
    else Free(s.(queue := s.queue + [Nil]))
  }

  /** The commands that the first `total` slots point at. */
  function Buffered(s: Room): (r: seq<PlayerCommand>)
    ensures |r| == s.total
  {
    seq(s.total, i requires 0 <= i < s.total =>
      if i < |s.slots| && s.slots[i].Some? && s.slots[i].value < |s.buffer|
      then s.buffer[s.slots[i].value] else EMPTY_CELL)
  }

  function TickStep(s: Room, late: bool, stop: bool): Room {
    if s.stage == Playing then Finish(s.(frameId := (s.frameId + 1) % UINT32, total := 0), stop)
    else if s.stage == Preparing && late then
      if |s.queue| >= MAX_QUEUE then s.(phase := Cancelling)
      else Finish(s.(queue := s.queue + [RoomCancel]), stop)
    else Finish(s, stop)
  }

  function Next(s: Room, step: Step): Room {
    match step
    case Post(action) => if |s.queue| < MAX_QUEUE then s.(queue := s.queue + [action]) else s
    case Change(player, member) =>
      if player < |s.players| then s.(players := s.players[player := member]) else s
    case Act =>
      if s.actionDone || s.queue == [] then s else Perform(s.(queue := s.queue[1..]), s.queue[0])
    case Tick(late, stop) => if s.phase == Ready then TickStep(s, late, stop) else s
    case Resume(stop) =>
      if |s.queue| >= MAX_QUEUE then s
      else if s.phase == Cancelling then Finish(s.(queue := s.queue + [RoomCancel]), stop)
      else if s.phase == Stopping then Free(s.(queue := s.queue + [Nil]))
      else s
  }

  function Run(s: Room, steps: seq<Step>): Room {
    if steps == [] then s else Next(Run(s, steps[..|steps| - 1]), steps[|steps| - 1])
  }

  lemma RunNext(s: Room, steps: seq<Step>, k: nat)
    requires k < |steps|
    ensures Run(s, steps[..k + 1]) == Next(Run(s, steps[..k]), steps[k])
  {
    assert steps[..k + 1][..k] == steps[..k];
  }

  // ---------------------------------------------------------------- what every step keeps

  /** Every filled slot points at its own cell; there are cells as soon as the game has begun. */
  ghost predicate SlotsAgree(s: Room) {
    && s.total <= |s.slots| == |s.buffer|
    && (s.stage == Preparing ==> s.total == 0)
    && (s.stage == Playing ==> |s.buffer| == MAX_COMMANDS)
    && s.total <= MAX_COMMANDS
    && (forall i :: 0 <= i < s.total ==> s.slots[i] == Some(i))
  }

  ghost predicate Inv(s: Room) {
    && SlotsAgree(s)
    && 0 < s.playerTotal && s.frameId < UINT32
    && (s.stage.Terminal() ==> s.actionDone)
    && (s.phase == Ended ==> s.players == [])
    && (s.phase != Ended ==> |s.players| == s.playerTotal && s.former == [])
    && (forall i :: 0 <= i < |s.former| ==> s.former[i].state == InHall && !s.former[i].inRoom)
  }

  lemma PerformKeepsInv(s: Room, action: Action)
    requires Inv(s) && !s.actionDone
    ensures Inv(Perform(s, action))
  {
    hide CountPrepared, CountDone;
  }

  lemma FinishKeepsInv(s: Room, stop: bool)
    requires Inv(s) && s.phase != Ended
    ensures Inv(Finish(s, stop))
    ensures Inv(Free(s.(queue := s.queue + [Nil])))
  {
  }

  lemma TickKeepsInv(s: Room, late: bool, stop: bool)
    requires Inv(s) && s.phase == Ready
    ensures Inv(TickStep(s, late, stop))
  {
    hide Finish;
    if s.stage == Playing {
      FinishKeepsInv(s.(frameId := (s.frameId + 1) % UINT32, total := 0), stop);
    } else if s.stage == Preparing && late {
      FinishKeepsInv(s.(queue := s.queue + [RoomCancel]), stop);
    } else {
      FinishKeepsInv(s, stop);
    }
  }

  lemma NextKeepsInv(s: Room, step: Step)
    requires Inv(s)
    ensures Inv(Next(s, step))
  {
    hide Perform, TickStep, Finish, Free, SlotsAgree;
    match step
    case Post(_) => SameSlots(s, Next(s, step));
    case Change(_, _) => SameSlots(s, Next(s, step));
    case Act =>
      if !s.actionDone && s.queue != [] {
        SameSlots(s, s.(queue := s.queue[1..]));
        PerformKeepsInv(s.(queue := s.queue[1..]), s.queue[0]);
      }
    case Tick(late, stop) => if s.phase == Ready { TickKeepsInv(s, late, stop); }
    case Resume(stop) =>
      SameSlots(s, s.(queue := s.queue + [RoomCancel]));
      if s.phase == Cancelling { FinishKeepsInv(s.(queue := s.queue + [RoomCancel]), stop); }
      if s.phase == Stopping { FinishKeepsInv(s, stop); }
  }

  lemma SameSlots(s: Room, s': Room)
    requires (s.total, s.slots, s.buffer, s.stage) == (s'.total, s'.slots, s'.buffer, s'.stage)
    ensures SlotsAgree(s) == SlotsAgree(s')
  {
  }

  lemma {:induction false} RunKeepsInv(s: Room, steps: seq<Step>)
    requires Inv(s)
    ensures Inv(Run(s, steps))
  {
    hide Inv, Next;
    if steps != [] {
      RunKeepsInv(s, steps[..|steps| - 1]);
      NextKeepsInv(Run(s, steps[..|steps| - 1]), steps[|steps| - 1]);
    }
  }

  /** The stage only moves forward, and never once it is terminal. */
  lemma StageMovesOn(s: Room, step: Step)
    requires Inv(s)
    ensures s.stage.Rank() <= Next(s, step).stage.Rank()
    ensures s.stage.Terminal() ==> Next(s, step).stage == s.stage
  {
    hide CountPrepared, CountDone;
  }

  lemma {:induction false} StageNeverGoesBack(s: Room, steps: seq<Step>, i: nat, j: nat)
    requires Inv(s) && i <= j <= |steps|
    ensures var before, after := Run(s, steps[..i]), Run(s, steps[..j]);
      before.stage.Rank() <= after.stage.Rank() && (before.stage.Terminal() ==> after.stage == before.stage)
  {
    hide Inv, Next, Run;
    if i < j {
      StageNeverGoesBack(s, steps, i, j - 1);
      RunNext(s, steps, j - 1);
      RunKeepsInv(s, steps[..j - 1]);
      StageMovesOn(Run(s, steps[..j - 1]), steps[j - 1]);
    }
  }

  /** A loading report that finds every member of the full room prepared. */
  predicate Begins(s: Room, step: Step) {
    && s.stage == Preparing && step.Act? && !s.actionDone && s.queue != [] && s.queue[0] == LoadingOver
    && |s.players| == s.playerTotal && forall i :: 0 <= i < |s.players| ==> s.players[i].state == Prepared
  }

  /** A result report that finds every member of the full room finished or offline. */
  predicate Concludes(s: Room, step: Step) {
    && s.stage == Playing && step.Act? && !s.actionDone && s.queue != [] && s.queue[0] == Gameover
    && |s.players| == s.playerTotal
    && forall i :: 0 <= i < |s.players| ==>
         s.players[i].state == Finished || s.players[i].conn == Dead || s.players[i].conn == WaitingForClose
  }

  /** The game starts exactly at a loading report that finds every member of a full room prepared. */
  lemma StartsExactlyWhenPrepared(s: Room, step: Step)
    requires Inv(s) && s.stage == Preparing
    ensures Next(s, step).stage == Playing <==> Begins(s, step)
  {
  }

  /** It ends normally exactly at a result report after which every member has finished or is offline. */
  lemma EndsExactlyWhenDone(s: Room, step: Step)
    requires Inv(s) && s.stage == Playing
    ensures Next(s, step).stage == GameOver <==> Concludes(s, step)
  {
  }

  /** A disconnect of a named player or a cancel is worked off. */
  predicate Cancels(s: Room, step: Step) {
    && !s.stage.Terminal() && step.Act? && !s.actionDone && s.queue != []
    && (s.queue[0] == RoomCancel || (s.queue[0].Disconn? && s.queue[0].player > 0))
  }

  /** The room breaks off exactly there, prepared or playing. */
  lemma BreaksOffExactly(s: Room, step: Step)
    requires Inv(s) && !s.stage.Terminal()
    ensures Next(s, step).stage == NonNormal <==> Cancels(s, step)
  {
    hide CountPrepared, CountDone;
  }

  /**
   * In every run, a room whose game has begun came past a loading report that found every member
   * prepared; one that ended normally also past a result report that found every member finished
   * or offline; and one that broke off past a disconnect or a cancel.
   */
  lemma {:induction false} GamesHaveCause(members: seq<Member>, steps: seq<Step>)
    requires members != []
    ensures var s := Run(Open(members), steps);
      && (s.stage == Playing || s.stage == GameOver ==>
            exists k :: 0 <= k < |steps| && Begins(Run(Open(members), steps[..k]), steps[k]))
      && (s.stage == GameOver ==> exists k :: 0 <= k < |steps| && Concludes(Run(Open(members), steps[..k]), steps[k]))
      && (s.stage == NonNormal ==> exists k :: 0 <= k < |steps| && Cancels(Run(Open(members), steps[..k]), steps[k]))
  {
    hide Inv, Next, Begins, Concludes, Cancels;
    if steps != [] {
      var n := |steps| - 1;
      var init, before := steps[..n], Run(Open(members), steps[..n]);
      GamesHaveCause(members, init);
      OpenIsOk(members);
      RunKeepsInv(Open(members), init);
      OneMoreCause(before, steps[n]);
      forall k | 0 <= k < n ensures init[..k] == steps[..k] && init[k] == steps[k] { }
      if before.stage == Playing || before.stage == GameOver {
        var k :| 0 <= k < n && Begins(Run(Open(members), init[..k]), init[k]);
        assert Begins(Run(Open(members), steps[..k]), steps[k]);
      }
      if before.stage == GameOver {
        var k :| 0 <= k < n && Concludes(Run(Open(members), init[..k]), init[k]);
        assert Concludes(Run(Open(members), steps[..k]), steps[k]);
      }
      if before.stage == NonNormal {
        var k :| 0 <= k < n && Cancels(Run(Open(members), init[..k]), init[k]);
        assert Cancels(Run(Open(members), steps[..k]), steps[k]);
      }
    }
  }

  lemma OneMoreCause(s: Room, step: Step)
    requires Inv(s)
    ensures Next(s, step).stage == GameOver ==> s.stage == GameOver || (s.stage == Playing && Concludes(s, step))
    ensures Next(s, step).stage == Playing ==> s.stage == Playing || Begins(s, step)
    ensures Next(s, step).stage == NonNormal ==> s.stage == NonNormal || Cancels(s, step)
  {
    if !s.stage.Terminal() { BreaksOffExactly(s, step); }
    StageMovesOn(s, step);
    if s.stage == Preparing { StartsExactlyWhenPrepared(s, step); }
    if s.stage == Playing { EndsExactlyWhenDone(s, step); }
  }

  // ---------------------------------------------------------------- commands and frames

  /** The frame a step builds, and the command it accepts. */
  function Emits(s: Room, step: Step): Option<Frame> {
    if step.Tick? && s.phase == Ready && s.stage == Playing
    then Some(Frame((s.frameId + 1) % UINT32, Buffered(s))) else None
  }

  function Accepts(s: Room, step: Step, room: nat): Option<PlayerCommand> {
    if step.Act? && !s.actionDone && s.queue != [] && s.queue[0].Commands? && s.stage == Playing
       && s.queue[0].player > 0 && s.queue[0].data.Some? && room > 0
    then Some(PlayerCommand(s.queue[0].player, s.queue[0].data.value)) else None
  }

  /**
   * The record of a run kept apart from the room's buffers: the frames built, and the commands
   * accepted. A command is accepted as long as fewer than 256 were since the last frame.
   */
  datatype History = History(frames: seq<Frame>, accepted: seq<PlayerCommand>)

  function Flatten(frames: seq<Frame>): seq<PlayerCommand> {
    if frames == [] then [] else Flatten(frames[..|frames| - 1]) + frames[|frames| - 1].commands
  }

  /** The room left in the frame that is being collected. */
  function RoomLeft(h: History): nat {
    var waiting := |h.accepted| - |Flatten(h.frames)|;
    if waiting < 256 then 256 - waiting else 0
  }

  function Extend(h: History, s: Room, step: Step): History {
    var frame, command := Emits(s, step), Accepts(s, step, RoomLeft(h));
    History(if frame.Some? then h.frames + [frame.value] else h.frames,
            if command.Some? then h.accepted + [command.value] else h.accepted)
  }

  function HistoryOf(s: Room, steps: seq<Step>): History {
    if steps == [] then History([], [])
    else Extend(HistoryOf(s, steps[..|steps| - 1]), Run(s, steps[..|steps| - 1]), steps[|steps| - 1])
  }

  /** Accepted commands are in the frames or still buffered, each once and in order. */
  ghost predicate Conserved(s: Room, h: History) {
    && Flatten(h.frames) + Buffered(s) == h.accepted
    && (forall i :: 0 <= i < |h.frames| ==> h.frames[i].id == (i + 1) % 0x1_0000_0000 && |h.frames[i].commands| <= 256)
    && s.frameId == |h.frames| % 0x1_0000_0000
    && (s.stage == Preparing ==> h.frames == [])
  }

  lemma FlattenMore(frames: seq<Frame>, frame: Frame)
    ensures Flatten(frames + [frame]) == Flatten(frames) + frame.commands
  {
    assert (frames + [frame])[..|frames|] == frames;
  }

  lemma TickConserves(s: Room, h: History, late: bool, stop: bool)
    requires Inv(s) && Conserved(s, h) && s.phase == Ready
    ensures Conserved(Next(s, Tick(late, stop)), Extend(h, s, Tick(late, stop)))
  {
    hide Flatten, Conserved, Extend, Finish;
    var s1 := if s.stage == Playing then s.(frameId := (s.frameId + 1) % UINT32, total := 0) else s;
    var h1 := Extend(h, s, Tick(late, stop));
    FrameConserves(s, h, late, stop);
    var s2 := if s.stage == Preparing && late && |s.queue| < MAX_QUEUE then s1.(queue := s1.queue + [RoomCancel]) else s1;
    SameBuffers(s1, s2, h1);
    SameBuffers(s1, s1.(phase := Cancelling), h1);
    FinishKeepsBuffers(s2, stop);
    SameBuffers(s2, Finish(s2, stop), h1);
  }

  lemma NextId(n: nat)
    ensures (n % 0x1_0000_0000 + 1) % UINT32 == (n + 1) % 0x1_0000_0000
  {
  }

  lemma FrameConserves(s: Room, h: History, late: bool, stop: bool)
    requires Inv(s) && Conserved(s, h) && s.phase == Ready
    ensures Conserved(if s.stage == Playing then s.(frameId := (s.frameId + 1) % UINT32, total := 0) else s,
                      Extend(h, s, Tick(late, stop)))
  {
    hide Flatten, Buffered, RoomLeft;
    if s.stage == Playing {
      NextId(|h.frames|);
      FlattenMore(h.frames, Frame((s.frameId + 1) % UINT32, Buffered(s)));
      assert Buffered(s.(frameId := (s.frameId + 1) % UINT32, total := 0)) == [];
    }
  }

  lemma FinishKeepsBuffers(s: Room, stop: bool)
    ensures var s' := Finish(s, stop);
      (s'.stage, s'.frameId, s'.total, s'.slots, s'.buffer) == (s.stage, s.frameId, s.total, s.slots, s.buffer)
  {
  }

  lemma SameBuffers(s: Room, s': Room, h: History)
    requires (s'.stage, s'.frameId, s'.total, s'.slots, s'.buffer) == (s.stage, s.frameId, s.total, s.slots, s.buffer)
    ensures Conserved(s, h) ==> Conserved(s', h)
  {
    assert Buffered(s') == Buffered(s);
  }

  lemma ActConserves(s: Room, h: History)
    requires Inv(s) && Conserved(s, h) && !s.actionDone && s.queue != []
    ensures Conserved(Next(s, Act), Extend(h, s, Act))
  {
    hide Flatten, CountPrepared, CountDone;
    var s1 := s.(queue := s.queue[1..]);
    assert Buffered(s1) == Buffered(s);
    match s.queue[0]
    case Commands(player, data) =>
      if s.stage == Playing && player > 0 && data.Some? {
        assert RoomLeft(h) > 0 <==> s.total < MAX_COMMANDS;
      }
    case LoadingOver =>
      if s.stage == Preparing {
        assert Buffered(StartGame(s1)) == [] == Buffered(s);
      }
    case _ =>
      assert Buffered(Next(s, Act)) == Buffered(s);
  }

  lemma OtherConserves(s: Room, h: History, step: Step)
    requires Inv(s) && Conserved(s, h) && !step.Act? && !step.Tick?
    ensures Conserved(Next(s, step), Extend(h, s, step))
  {
    hide Flatten;
    assert Buffered(Next(s, step)) == Buffered(s);
  }

  lemma StepConserves(s: Room, h: History, step: Step)
    requires Inv(s) && Conserved(s, h)
    ensures Conserved(Next(s, step), Extend(h, s, step))
  {
    hide Conserved, Inv;
    if step.Tick? && s.phase == Ready {
      TickConserves(s, h, step.late, step.stop);
    } else if step.Act? && !s.actionDone && s.queue != [] {
      ActConserves(s, h);
    } else if !step.Act? && !step.Tick? {
      OtherConserves(s, h, step);
    }
  }

  /**
   * Over every interleaving: the commands of all frames built, followed by those still buffered,
   * are the commands accepted, in order and each once; frame ids are 1, 2, 3 and so on (as 32-bit
   * numbers); no frame has more than 256 commands.
   */
  lemma {:induction false} CommandsConserved(members: seq<Member>, steps: seq<Step>)
    requires members != []
    ensures Conserved(Run(Open(members), steps), HistoryOf(Open(members), steps))
  {
    hide Inv, Next, Conserved;
    var s := Open(members);
    if steps == [] {
      OpenConserves(members);
    } else {
      var init := steps[..|steps| - 1];
      CommandsConserved(members, init);
      OpenIsOk(members);
      RunKeepsInv(s, init);
      StepConserves(Run(s, init), HistoryOf(s, init), steps[|steps| - 1]);
    }
  }

  /** The ticks of a run that find the room playing. */
  function TicksInGame(s: Room, steps: seq<Step>): nat {
    if steps == [] then 0
    else
      var init, step := steps[..|steps| - 1], steps[|steps| - 1];
      TicksInGame(s, init) + (if step.Tick? && Run(s, init).phase == Ready && Run(s, init).stage == Playing then 1 else 0)
  }

  /**
   * Each tick of a game builds a frame, with or without commands, and nothing else does: the frame
   * counter is the number of those ticks, in 32 bits.
   */
  lemma {:induction false} EveryTickBuilds(members: seq<Member>, steps: seq<Step>)
    requires members != []
    ensures |HistoryOf(Open(members), steps).frames| == TicksInGame(Open(members), steps)
    ensures Run(Open(members), steps).frameId == TicksInGame(Open(members), steps) % 0x1_0000_0000
  {
    hide Next, Conserved;
    CommandsConserved(members, steps);
    FramesCounted(members, steps);
    FramesAreNumbered(Run(Open(members), steps), HistoryOf(Open(members), steps));
  }

  lemma FramesAreNumbered(s: Room, h: History)
    requires Conserved(s, h)
    ensures s.frameId == |h.frames| % 0x1_0000_0000
  {
  }

  lemma {:induction false} FramesCounted(members: seq<Member>, steps: seq<Step>)
    ensures |HistoryOf(Open(members), steps).frames| == TicksInGame(Open(members), steps)
  {
    hide Next, Accepts;
    if steps != [] { FramesCounted(members, steps[..|steps| - 1]); }
  }

  lemma OpenIsOk(members: seq<Member>)
    requires members != []
    ensures Inv(Open(members))
  {
  }

  lemma OpenConserves(members: seq<Member>)
    ensures Conserved(Open(members), History([], []))
  {
  }

  // ---------------------------------------------------------------- letting everyone go

  /** The step that runs Free. */
  predicate Frees(s: Room, step: Step) {
    s.phase != Ended && Next(s, step).phase == Ended
  }

  /** Free runs after a terminal stage or a server stop only, and lets everyone go. */
  lemma FreeLetsGo(s: Room, step: Step)
    requires Inv(s) && Frees(s, step)
    ensures s.stage.Terminal() || s.phase == Stopping || (step.Tick? && step.stop) || (step.Resume? && step.stop)
    ensures var s' := Next(s, step);
      && s'.players == [] && |s'.former| == s.playerTotal
      && forall i :: 0 <= i < s.playerTotal ==>
           s'.former[i].playerId == s.players[i].playerId && s'.former[i].state == InHall && !s'.former[i].inRoom
  {
  }

  lemma EndedStays(s: Room, step: Step)
    requires Inv(s) && s.phase == Ended
    ensures Next(s, step).phase == Ended && Next(s, step).former == s.former
  {
  }

  /** The step at which the server's stop is seen, or after which the room is over. */
  predicate Closing(s: Room, step: Step) {
    s.stage.Terminal() || (step.Tick? && step.stop) || (step.Resume? && step.stop)
  }

  lemma {:induction false} StoppingHasCause(s: Room, steps: seq<Step>)
    requires Inv(s) && s.phase == Ready && Run(s, steps).phase == Stopping
    ensures exists k :: 0 <= k < |steps| && Closing(Run(s, steps[..k]), steps[k])
  {
    hide Inv, Closing, Next;
    if steps != [] {
      var n := |steps| - 1;
      var init := steps[..n];
      RunKeepsInv(s, init);
      if Run(s, init).phase == Stopping {
        StoppingHasCause(s, init);
        var k :| 0 <= k < n && Closing(Run(s, init[..k]), init[k]);
        assert init[..k] == steps[..k];
      } else {
        StoppingBegins(Run(s, init), steps[n]);
      }
    }
  }

  lemma StoppingBegins(s: Room, step: Step)
    requires Inv(s) && s.phase != Stopping && Next(s, step).phase == Stopping
    ensures Closing(s, step)
  {
  }

  /** In every run Free happens at most once, and only once the room is over or a stop was seen. */
  lemma FreedAtMostOnce(members: seq<Member>, steps: seq<Step>, i: nat)
    requires members != [] && i < |steps| && Frees(Run(Open(members), steps[..i]), steps[i])
    ensures var s := Open(members);
      && (forall j :: 0 <= j < |steps| && j != i ==> !Frees(Run(s, steps[..j]), steps[j]))
      && exists k :: 0 <= k <= i && Closing(Run(s, steps[..k]), steps[k])
  {
    var s := Open(members);
    OpenIsOk(members);
    hide Inv, Next, Closing, Run;
    RunNext(s, steps, i);
    forall j | 0 <= j < |steps| && j != i
      ensures !Frees(Run(s, steps[..j]), steps[j])
    {
      if i < j { StaysEnded(s, steps, i + 1, j); }
      if j < i && Frees(Run(s, steps[..j]), steps[j]) {
        RunNext(s, steps, j);
        StaysEnded(s, steps, j + 1, i);
      }
    }
    FreeHasCause(s, steps, i);
  }

  lemma FreeHasCause(s: Room, steps: seq<Step>, i: nat)
    requires Inv(s) && s.phase == Ready && i < |steps| && Frees(Run(s, steps[..i]), steps[i])
    ensures exists k :: 0 <= k <= i && Closing(Run(s, steps[..k]), steps[k])
  {
    hide Inv, Next, Run, Frees;
    RunKeepsInv(s, steps[..i]);
    FreeLetsGo(Run(s, steps[..i]), steps[i]);
    if Run(s, steps[..i]).phase == Stopping {
      StoppingHasCause(s, steps[..i]);
      var k :| 0 <= k < |steps[..i]| && Closing(Run(s, steps[..i][..k]), steps[..i][k]);
      assert steps[..i][..k] == steps[..k];
      assert Closing(Run(s, steps[..k]), steps[k]);
    } else {
      assert Closing(Run(s, steps[..i]), steps[i]);
    }
  }

  lemma {:induction false} StaysEnded(s: Room, steps: seq<Step>, i: nat, j: nat)
    requires Inv(s) && i <= j <= |steps| && Run(s, steps[..i]).phase == Ended
    ensures Run(s, steps[..j]).phase == Ended
  {
    hide Inv, Next, Run;
    if i < j {
      StaysEnded(s, steps, i, j - 1);
      RunNext(s, steps, j - 1);
      RunKeepsInv(s, steps[..j - 1]);
      EndedStays(Run(s, steps[..j - 1]), steps[j - 1]);
    }
  }

  /**
   * Everyone is let go exactly by a tick, or the end of one that waits, that finds the room over or
   * the server stopping and space in the queue for the final nil, and for a cancel pushed before it;
   * a tick that waits for the nil alone needs only the space.
   */
  lemma FreedExactlyWithSpace(s: Room, step: Step)
    requires Inv(s)
    ensures Frees(s, step) <==>
      match step
      case Tick(late, stop) =>
        && s.phase == Ready && (s.stage.Terminal() || stop)
        && |s.queue| + (if s.stage == Preparing && late then 1 else 0) < 1024
      case Resume(stop) =>
        || (s.phase == Stopping && |s.queue| < 1024)
        || (s.phase == Cancelling && (s.stage.Terminal() || stop) && |s.queue| + 1 < 1024)
      case _ => false
  {
    hide CountPrepared, CountDone;
  }

  /**
   * Nobody works off the queue of a room that is over: if it is full by then, its members are
   * never let go, whatever happens.
   */
  lemma {:induction false} FullQueueKeepsMembers(s: Room, steps: seq<Step>)
    requires Inv(s) && s.stage.Terminal() && s.phase != Ended && |s.queue| >= 1024
    ensures var s' := Run(s, steps);
      s'.phase != Ended && |s'.players| == s.playerTotal && |s'.queue| >= 1024 && s'.stage == s.stage && Inv(s')
  {
    hide Inv, Next;
    if steps != [] {
      var init := steps[..|steps| - 1];
      FullQueueKeepsMembers(s, init);
      FullStaysFull(Run(s, init), steps[|steps| - 1]);
      NextKeepsInv(Run(s, init), steps[|steps| - 1]);
    } else {
      assert |s.players| == s.playerTotal by { MembersPresent(s); }
    }
  }

  /**
   * The game begins, one player disconnects, and before the next tick `n` status checks come in:
   * a session that still plays may send them at any time, and they wait for space in the queue.
   */
  function Flood(leaver: nat, gone: Member, n: nat): (steps: seq<Step>)
    ensures |steps| == n + 5
  {
    if n == 0 then [Post(LoadingOver), Act, Change(leaver, gone), Post(Disconn(gone.playerId)), Act]
    else Flood(leaver, gone, n - 1) + [Post(StatusCheck)]
  }

  /** All members have loaded, and are connected. */
  ghost predicate AllPrepared(members: seq<Member>) {
    forall i :: 0 <= i < |members| ==> members[i].state == Prepared && members[i].conn == Alive && members[i].inRoom
  }

  /** The session that leaves, as its own disconnect has left it. */
  function Disconnected(member: Member): Member {
    member.(state := InGame, conn := Dead)
  }

  /** The game is broken off with the queue empty and the others still playing. */
  lemma GameBreaksOff(members: seq<Member>, leaver: nat)
    requires AllPrepared(members) && leaver < |members| && members[leaver].playerId > 0
    ensures var s := Run(Open(members), Flood(leaver, Disconnected(members[leaver]), 0));
      && s.stage == NonNormal && s.phase == Ready && s.queue == []
      && s.players == InGameNow(members)[leaver := Disconnected(members[leaver])]
  {
    hide Run, Next;
    var s, gone := Open(members), Disconnected(members[leaver]);
    NextFive(members, leaver);
    var steps := Flood(leaver, gone, 0);
    RunNothing(s);
    RunNext(s, steps, 0);
    RunNext(s, steps, 1);
    RunNext(s, steps, 2);
    RunNext(s, steps, 3);
    RunNext(s, steps, 4);
    assert steps[..0] == [] && steps[..5] == steps;
  }

  lemma RunNothing(s: Room)
    ensures Run(s, []) == s
  {
  }

  lemma NextFive(members: seq<Member>, leaver: nat)
    requires AllPrepared(members) && leaver < |members| && members[leaver].playerId > 0
    ensures var s, gone := Open(members), Disconnected(members[leaver]);
      var s2 := StartGame(s);
      var s3 := s2.(players := s2.players[leaver := gone]);
      && Next(s, Post(LoadingOver)) == s.(queue := [LoadingOver])
      && Next(s.(queue := [LoadingOver]), Act) == s2
      && Next(s2, Change(leaver, gone)) == s3
      && Next(s3, Post(Disconn(gone.playerId))) == s3.(queue := [Disconn(gone.playerId)])
      && Next(s3.(queue := [Disconn(gone.playerId)]), Act) == s3.(stage := NonNormal, actionDone := true)
  {
    var s := Open(members);
    assert CountPrepared(members) == |members|;
    assert s.(queue := [LoadingOver]).queue[1..] == [];
    assert [Disconn(Disconnected(members[leaver]).playerId)][1..] == [];
  }

  lemma {:induction false} FloodFills(members: seq<Member>, leaver: nat, n: nat)
    requires AllPrepared(members) && leaver < |members| && members[leaver].playerId > 0 && n <= MAX_QUEUE
    ensures var s := Run(Open(members), Flood(leaver, Disconnected(members[leaver]), n));
      && s.stage == NonNormal && s.phase == Ready && |s.queue| == n
      && s.players == InGameNow(members)[leaver := Disconnected(members[leaver])]
  {
    hide Run, Next, InGameNow;
    var gone := Disconnected(members[leaver]);
    if n == 0 {
      GameBreaksOff(members, leaver);
    } else {
      FloodFills(members, leaver, n - 1);
      var steps := Flood(leaver, gone, n);
      RunNext(Open(members), steps, n + 4);
      assert steps[..n + 4] == Flood(leaver, gone, n - 1) && steps[..n + 5] == steps;
      PostFills(Run(Open(members), Flood(leaver, gone, n - 1)), StatusCheck);
    }
  }

  lemma PostFills(s: Room, action: Action)
    requires |s.queue| < MAX_QUEUE
    ensures Next(s, Post(action)) == s.(queue := s.queue + [action])
  {
  }

  lemma {:induction false} TotalStays(s: Room, steps: seq<Step>)
    ensures Run(s, steps).playerTotal == s.playerTotal
  {
    if steps != [] {
      TotalStays(s, steps[..|steps| - 1]);
      TotalStaysOne(Run(s, steps[..|steps| - 1]), steps[|steps| - 1]);
    }
  }

  lemma TotalStaysOne(s: Room, step: Step)
    ensures Next(s, step).playerTotal == s.playerTotal
  {
    hide CountPrepared, CountDone;
  }

  /** The member with its session plays on. */
  predicate PlaysOn(s: Room, at: nat, member: Member) {
    at < |s.players| && s.players[at] == member.(state := InGame)
  }

  lemma {:induction false} RunOn(s: Room, a: seq<Step>, b: seq<Step>)
    ensures Run(s, a + b) == Run(Run(s, a), b)
  {
    hide Next;
    if b == [] {
      assert a + b == a;
    } else {
      RunOn(s, a, b[..|b| - 1]);
      assert (a + b)[..|a + b| - 1] == a + b[..|b| - 1];
    }
  }

  /**
   * Such a run exists for every room of two or more members: each status check is sent while
   * another member still plays, and with 1024 of them nobody is ever let go, whatever comes after.
   */
  lemma FloodKeepsMembers(members: seq<Member>, leaver: nat, other: nat, n: nat, more: seq<Step>)
    requires AllPrepared(members) && leaver < |members| && members[leaver].playerId > 0
    requires other < |members| && other != leaver && n == 1024
    ensures forall i :: 0 <= i <= n ==>
      PlaysOn(Run(Open(members), Flood(leaver, Disconnected(members[leaver]), i)), other, members[other])
    ensures var s := Run(Open(members), Flood(leaver, Disconnected(members[leaver]), n) + more);
      s.stage == NonNormal && s.phase != Ended && |s.players| == |members|
  {
    hide Inv, Next, Run, Flood;
    var flood := Flood(leaver, Disconnected(members[leaver]), n);
    forall i | 0 <= i <= n
      ensures PlaysOn(Run(Open(members), Flood(leaver, Disconnected(members[leaver]), i)), other, members[other])
    {
      FloodFills(members, leaver, i);
    }
    FloodFills(members, leaver, n);
    OpenIsOk(members);
    RunKeepsInv(Open(members), flood);
    TotalStays(Open(members), flood);
    RunOn(Open(members), flood, more);
    FullQueueKeepsMembers(Run(Open(members), flood), more);
  }

  lemma MembersPresent(s: Room)
    requires Inv(s) && s.phase != Ended
    ensures |s.players| == s.playerTotal
  {
  }

  lemma FullStaysFull(s: Room, step: Step)
    requires Inv(s) && s.stage.Terminal() && s.phase != Ended && |s.queue| >= 1024
    ensures var s' := Next(s, step);
      s'.phase != Ended && |s'.players| == |s.players| && |s'.queue| >= 1024 && s'.stage == s.stage
  {
  }

  // ---------------------------------------------------------------- the queue

  /** The action a step puts in the queue, by a session or by the tick itself. */
  function Pushes(s: Room, step: Step): seq<Action> {
    var full := |s.queue| >= 1024;
    match step
    case Post(action) => if full then [] else [action]
    case Tick(late, stop) =>
      if s.phase != Ready then []
      else if s.stage == Preparing && late then
        if full then [] else [RoomCancel] + (if stop && |s.queue| + 1 < 1024 then [Nil] else [])
      else if (s.stage.Terminal() || stop) && !full then [Nil] else []
    case Resume(stop) =>
      if full then []
      else if s.phase == Cancelling then
        [RoomCancel] + (if (s.stage.Terminal() || stop) && |s.queue| + 1 < 1024 then [Nil] else [])
      else if s.phase == Stopping then [Nil] else []
    case _ => []
  }

  function Pops(s: Room, step: Step): seq<Action> {
    if step.Act? && !s.actionDone && s.queue != [] then [s.queue[0]] else []
  }

  function AllPushed(s: Room, steps: seq<Step>): seq<Action> {
    if steps == [] then []
    else AllPushed(s, steps[..|steps| - 1]) + Pushes(Run(s, steps[..|steps| - 1]), steps[|steps| - 1])
  }

  function AllPopped(s: Room, steps: seq<Step>): seq<Action> {
    if steps == [] then []
    else AllPopped(s, steps[..|steps| - 1]) + Pops(Run(s, steps[..|steps| - 1]), steps[|steps| - 1])
  }

  lemma StepIsFifo(s: Room, step: Step)
    ensures s.queue + Pushes(s, step) == Pops(s, step) + Next(s, step).queue
    ensures |s.queue| <= MAX_QUEUE ==> |Next(s, step).queue| <= MAX_QUEUE
  {
    hide Perform;
    if step.Act? && !s.actionDone && s.queue != [] {
      PerformKeepsQueue(s.(queue := s.queue[1..]), s.queue[0]);
    }
  }

  lemma PerformKeepsQueue(s: Room, action: Action)
    ensures Perform(s, action).queue == s.queue
  {
    hide CountPrepared, CountDone;
  }

  /** Actions are worked off in the order they came in, and the queue never holds more than 1024. */
  lemma {:induction false} QueueIsFifo(members: seq<Member>, steps: seq<Step>)
    ensures var s := Open(members);
      AllPushed(s, steps) == AllPopped(s, steps) + Run(s, steps).queue && |Run(s, steps).queue| <= 1024
  {
    hide Next, Pushes, Pops;
    var s := Open(members);
    if steps != [] {
      var init, step := steps[..|steps| - 1], steps[|steps| - 1];
      QueueIsFifo(members, init);
      StepIsFifo(Run(s, init), step);
      Regroup(AllPopped(s, init), Run(s, init).queue, Pushes(Run(s, init), step),
              Pops(Run(s, init), step), Run(s, steps).queue);
    }
  }

  lemma Regroup<T>(a: seq<T>, b: seq<T>, c: seq<T>, d: seq<T>, e: seq<T>)
    requires b + c == d + e
    ensures a + b + c == a + d + e
  {
    assert a + b + c == a + (b + c) == a + (d + e) == a + d + e;
  }

  // ---------------------------------------------------------------- the room as it is updated

  class Session {
    const playerId: nat
    var state: PlayerState
    var conn: Connection
    var inRoom: bool

    constructor (id: nat)
      ensures Value() == Member(id, InHall, Alive, false)
    {
      playerId, state, conn, inRoom := id, InHall, Alive, false;
    }

    ghost function Value(): Member
      reads this
    {
      Member(playerId, state, conn, inRoom)
    }
  }

  /** The values of sessions. */
  ghost function Members(sessions: seq<Session>): (r: seq<Member>)
    reads sessions
    ensures |r| == |sessions|
  {
    seq(|sessions|, i requires 0 <= i < |sessions| reads sessions => sessions[i].Value())
  }

  class RoomInfo {
    const playerTotal: nat
    var stage: Stage
    var players: seq<Session>
    ghost var former: seq<Session>
    var queue: seq<Action>
    var actionDone: bool
    var phase: Phase
    var frameId: nat
    var buffer: array<PlayerCommand>
    var slots: array<Option<nat>>
    var total: nat

    /** No session is listed twice. */
    ghost predicate Valid()
      reads this
    {
      Distinct(players + former)
    }

    ghost function View(): Room
      reads this, players, former, buffer, slots
    {
      Room(playerTotal, stage, Members(players), Members(former), queue, actionDone, phase, frameId,
           buffer[..], slots[..], total)
    }

    constructor (sessions: seq<Session>)
      requires Distinct(sessions)
      ensures Valid() && View() == Open(Members(sessions))
      ensures players == sessions && fresh(buffer) && fresh(slots)
    {
      playerTotal, stage, players, former := |sessions|, Preparing, sessions, [];
      queue, actionDone, phase, frameId, total := [], false, Ready, 0, 0;
      buffer, slots := new PlayerCommand[0], new Option<nat>[0];
      new;
      assert players + former == sessions;
      assert buffer[..] == [] && slots[..] == [];
    }

    method Send(action: Action)
      requires Valid()
      modifies this`queue
      ensures Valid() && View() == Next(old(View()), Post(action))
    {
      if |queue| < MAX_QUEUE {
        queue := queue + [action];
      }
    }

    method PreparedPlayers() returns (n: nat)
      ensures n == CountPrepared(Members(players))
    {
      n := 0;
      for i := 0 to |players|
        invariant n == CountPrepared(Members(players)[..i])
      {
        assert Members(players)[..i + 1][..i] == Members(players)[..i];
        if players[i].state == Prepared {
          n := n + 1;
        }
      }
      assert Members(players)[..|players|] == Members(players);
    }

    /** Counts the members with a result and the others that are offline. */
    method DonePlayers() returns (finished: nat, offline: nat)
      ensures finished + offline == CountDone(Members(players))
      ensures finished <= |players|
    {
      finished, offline := 0, 0;
      for i := 0 to |players|
        invariant finished + offline == CountDone(Members(players)[..i]) && finished <= i
      {
        assert Members(players)[..i + 1][..i] == Members(players)[..i];
        if players[i].state == Finished {
          finished := finished + 1;
        } else if players[i].conn == WaitingForClose || players[i].conn == Dead {
          offline := offline + 1;
        }
      }
      assert Members(players)[..|players|] == Members(players);
    }

    method Start()
      requires Valid()
      modifies this, players
      ensures Valid() && View() == StartGame(old(View()))
      ensures players == old(players) && former == old(former) && fresh(buffer) && fresh(slots)
    {
      hide Distinct, InGameNow, Members;
      stage, frameId, total := Playing, 0, 0;
      SetInGame(players, former);
      buffer, slots := EmptyCells();
    }

    method AddCommand(player: nat, data: seq<nat>)
      requires SlotsAgree(View()) && stage == Playing
      modifies this`total, buffer, slots
      ensures View() == Accept(old(View()), PlayerCommand(player, data))
    {
      if total < MAX_COMMANDS {
        buffer[total] := PlayerCommand(player, data);
        slots[total] := Some(total);
        total := total + 1;
      }
    }

    /** The action routine takes one action off the queue. */
    method WorkOff()
      requires Valid() && Inv(View()) && queue != [] && !actionDone
      modifies this, players, buffer, slots
      ensures Valid() && View() == Next(old(View()), Act)
      ensures players == old(players) && former == old(former)
    {
      hide Distinct, Perform;
      var action := queue[0];
      queue := queue[1..];
      PerformAction(action);
    }

    method PerformAction(action: Action)
      requires Valid() && SlotsAgree(View())
      modifies this, players, buffer, slots
      ensures Valid() && View() == Perform(old(View()), action)
      ensures players == old(players) && former == old(former)
    {
      hide Distinct, SlotsAgree, StartGame, Accept, CountPrepared, CountDone;
      match action
      case Nil =>
        actionDone := true;
      case Disconn(player) =>
        if player > 0 {
          stage, actionDone := NonNormal, true;
        }
      case LoadingOver =>
        if stage == Preparing {
          var n := PreparedPlayers();
          if n >= playerTotal {
            Start();
          }
        }
      case Commands(player, data) =>
        if stage == Playing && player > 0 && data.Some? {
          AddCommand(player, data.value);
        }
      case Gameover =>
        if stage == Playing {
          var finished, offline := DonePlayers();
          if finished + offline >= playerTotal {
            stage, actionDone := GameOver, true;
          }
        }
      case RoomCancel =>
        stage, actionDone := NonNormal, true;
      case StatusCheck =>
    }

    /** Send every member back to the hall. */
    method FreeAll()
      requires Valid()
      modifies this, players
      ensures Valid() && View() == Free(old(View()))
      ensures players == [] && former == old(former + players)
    {
      phase := Ended;
      LetGo(players, former);
      former := former + players;
      players := [];
    }

    /** One tick; the frame that was built, if any. */
    method RunTick(late: bool, stop: bool) returns (frame: Option<Frame>)
      requires Valid() && SlotsAgree(View()) && phase == Ready
      modifies this, players
      ensures Valid() && View() == Next(old(View()), Tick(late, stop))
      ensures frame == Emits(old(View()), Tick(late, stop))
    {
      hide Distinct, SlotsAgree, Buffered, Finish;
      frame := None;
      if stage == Playing {
        var commands := Collect();
        frameId := (frameId + 1) % UINT32;
        frame := Some(Frame(frameId, commands));
        total := 0;
      } else if stage == Preparing && late {
        if |queue| >= MAX_QUEUE {
          phase := Cancelling;
          return;
        }
        queue := queue + [RoomCancel];
      }
      Close(stop);
    }

    /** The commands behind the first `total` slots. */
    method Collect() returns (commands: seq<PlayerCommand>)
      requires SlotsAgree(View())
      ensures commands == Buffered(View())
    {
      commands := [];
      for i := 0 to total
        invariant commands == Buffered(View())[..i]
      {
        commands := commands + [buffer[slots[i].value]];
      }
    }

    method Close(stop: bool)
      requires Valid()
      modifies this, players
      ensures Valid() && View() == Finish(old(View()), stop)
    {
      hide Distinct;
      if stage.Terminal() || stop {
        if |queue| >= MAX_QUEUE {
          phase := Stopping;
        } else {
          queue := queue + [Nil];
          FreeAll();
        }
      } else {
        phase := Ready;
      }
    }

    /** A tick that waited for space in the queue goes on. */
    method GoOn(stop: bool)
      requires Valid() && |queue| < MAX_QUEUE && (phase == Cancelling || phase == Stopping)
      modifies this, players
      ensures Valid() && View() == Next(old(View()), Resume(stop))
    {
      hide Distinct;
      if phase == Cancelling {
        queue := queue + [RoomCancel];
        Close(stop);
      } else {
        queue := queue + [Nil];
        FreeAll();
      }
    }
  }

  method EmptyCells() returns (buffer: array<PlayerCommand>, slots: array<Option<nat>>)
    ensures fresh(buffer) && buffer[..] == seq(MAX_COMMANDS, _ => EMPTY_CELL)
    ensures fresh(slots) && slots[..] == seq(MAX_COMMANDS, _ => None)
  {
    buffer := new PlayerCommand[MAX_COMMANDS](_ => EMPTY_CELL);
    slots := new Option<nat>[MAX_COMMANDS](_ => None);
  }

  method SetInGame(players: seq<Session>, ghost others: seq<Session>)
    requires Distinct(players + others)
    modifies players
    ensures Members(players) == InGameNow(old(Members(players))) && Members(others) == old(Members(others))
  {
    for i := 0 to |players|
      invariant forall k :: 0 <= k < i ==> players[k].Value() == old(players[k].Value()).(state := InGame)
      invariant forall k :: i <= k < |players| ==> players[k].Value() == old(players[k].Value())
      invariant forall k :: 0 <= k < |others| ==> others[k].Value() == old(others[k].Value())
    {
      NotListedElsewhere(players, others, i);
      players[i].state := InGame;
    }
  }

  method LetGo(players: seq<Session>, ghost others: seq<Session>)
    requires Distinct(players + others)
    modifies players
    ensures Members(players) == Released(old(Members(players))) && Members(others) == old(Members(others))
    ensures Members(others + players) == Members(others) + Members(players)
    ensures Distinct(others + players)
  {
    for i := 0 to |players|
      invariant forall k :: 0 <= k < i ==> players[k].Value() == old(players[k].Value()).(state := InHall, inRoom := false)
      invariant forall k :: i <= k < |players| ==> players[k].Value() == old(players[k].Value())
      invariant forall k :: 0 <= k < |others| ==> others[k].Value() == old(others[k].Value())
    {
      NotListedElsewhere(players, others, i);
      players[i].state := InHall;
      players[i].inRoom := false;
    }
    Reorder(players, others);
  }

  lemma NotListedElsewhere(players: seq<Session>, others: seq<Session>, i: nat)
    requires Distinct(players + others) && i < |players|
    ensures forall k :: 0 <= k < |players| && k != i ==> players[k] != players[i]
    ensures forall k :: 0 <= k < |others| ==> others[k] != players[i]
  {
    var all := players + others;
    forall k | 0 <= k < |others| ensures others[k] != players[i] {
      assert all[i] != all[|players| + k];
    }
    forall k | 0 <= k < |players| && k != i ensures players[k] != players[i] {
      assert all[i] == players[i] && all[k] == players[k];
    }
  }

  lemma Reorder(a: seq<Session>, b: seq<Session>)
    requires Distinct(a + b)
    ensures Distinct(b + a)
  {
    var ab, ba := a + b, b + a;
    forall i, j | 0 <= i < j < |ba| ensures ba[i] != ba[j] {
      var i' := if i < |b| then i + |a| else i - |b|;
      var j' := if j < |b| then j + |a| else j - |b|;
      assert ab[i'] == ba[i] && ab[j'] == ba[j];
    }
  }
}

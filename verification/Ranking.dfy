/** The leaderboard kept by `rankingRoutine` (game_server/tcp_service.go). */
module Ranking {
  import opened Basics

  const LIMIT := 10
  const ROBOT_PLAYER_ID := 1000000000

  datatype Player = Player(playerId: nat, nickname: string, icon: int, exp: int)

  /** One message on the ranking channel; `session` is the sender's player id. */
  datatype Action =
    | Add(session: Option<nat>, param: Option<Player>)
    | Get(session: Option<nat>)

  // ---------------------------------------------------------------- meaning of one submission

  /** The score an action submits; robots and incomplete messages submit nothing. */
  function Submitted(a: Action): Option<Player> {
    match a
    case Add(Some(sender), Some(p)) => if sender < ROBOT_PLAYER_ID then Some(p) else None
    case _ => None
  }

  /** Where a player is listed, or the length of the board. */
  function IndexOf(board: seq<Player>, id: nat): (k: nat)
    ensures k <= |board|
    ensures k < |board| ==> board[k].playerId == id
    ensures forall j :: 0 <= j < k ==> board[j].playerId != id
  {
    if board == [] || board[0].playerId == id then 0 else 1 + IndexOf(board[1..], id)
  }

  /** The first place whose score `exp` ties with or beats, or the length of the board. */
  function Place(board: seq<Player>, exp: int): (k: nat)
    ensures k <= |board|
    ensures k < |board| ==> exp >= board[k].exp
    ensures forall j :: 0 <= j < k ==> exp < board[j].exp
  {
    if board == [] || exp >= board[0].exp then 0 else 1 + Place(board[1..], exp)
  }

  function Without(board: seq<Player>, id: nat): seq<Player> {
    var k := IndexOf(board, id);
    if k < |board| then board[..k] + board[k + 1..] else board
  }

  function Insert(board: seq<Player>, p: Player): seq<Player> {
    var k := Place(board, p.exp);
    board[..k] + [p] + board[k..]
  }

  function Top(board: seq<Player>): seq<Player> {
    if |board| > LIMIT then board[..LIMIT] else board
  }

  predicate Qualifies(board: seq<Player>, p: Player) {
    |board| < LIMIT || p.exp > board[LIMIT - 1].exp
  }

  function Submit(board: seq<Player>, p: Player): seq<Player> {
    if Qualifies(board, p) then Top(Insert(Without(board, p.playerId), p)) else board
  }

  function Apply(board: seq<Player>, a: Action): seq<Player> {
    var p := Submitted(a);
    if p.Some? then Submit(board, p.value) else board
  }

  /** The board after a whole history of actions, starting empty. */
  function Board(history: seq<Action>): seq<Player> {
    if history == [] then [] else Apply(Board(history[..|history| - 1]), history[|history| - 1])
  }

  /** The action names a player's record, and does not come from a robot. */
  predicate Names(a: Action, id: nat) {
    && a.Add? && a.session.Some? && a.session.value < 1000000000
    && a.param.Some? && a.param.value.playerId == id
  }

  /** The most recent record a player submitted. */
  function Latest(history: seq<Action>, id: nat): Option<Player> {
    if history == [] then None
    else
      var last := history[|history| - 1];
      if Names(last, id) then last.param else Latest(history[..|history| - 1], id)
  }

  // ---------------------------------------------------------------- the shape of the board

  ghost predicate Sorted(board: seq<Player>) {
    forall i, j :: 0 <= i < j < |board| ==> board[i].exp >= board[j].exp
  }

  ghost predicate UniqueIds(board: seq<Player>) {
    forall i, j :: 0 <= i < j < |board| ==> board[i].playerId != board[j].playerId
  }

  ghost predicate Valid(board: seq<Player>) {
    Sorted(board) && UniqueIds(board) && |board| <= 10
  }

  lemma WithoutSpec(board: seq<Player>, id: nat)
    requires UniqueIds(board)
    ensures forall p :: p in Without(board, id) <==> p in board && p.playerId != id
    ensures |Without(board, id)| == |board| - (if exists p :: p in board && p.playerId == id then 1 else 0)
  {
    var k := IndexOf(board, id);
    if k < |board| {
      assert board == board[..k] + [board[k]] + board[k + 1..];
    }
  }

  lemma WithoutKeepsOrder(board: seq<Player>, id: nat)
    requires Sorted(board) && UniqueIds(board)
    ensures Sorted(Without(board, id)) && UniqueIds(Without(board, id))
  {
  }

  lemma InsertSpec(board: seq<Player>, p: Player)
    ensures forall q :: q in Insert(board, p) <==> q in board || q == p
    ensures |Insert(board, p)| == |board| + 1
  {
    var k := Place(board, p.exp);
    assert board == board[..k] + board[k..];
  }

  lemma InsertKeepsOrder(board: seq<Player>, p: Player)
    requires Sorted(board) && UniqueIds(board)
    requires forall q :: q in board ==> q.playerId != p.playerId
    ensures Sorted(Insert(board, p)) && UniqueIds(Insert(board, p))
  {
  }

  lemma SubmitKeepsValid(board: seq<Player>, p: Player)
    requires Valid(board)
    ensures Valid(Submit(board, p))
  {
    var rest := Without(board, p.playerId);
    WithoutSpec(board, p.playerId);
    WithoutKeepsOrder(board, p.playerId);
    InsertSpec(rest, p);
    InsertKeepsOrder(rest, p);
  }

  /** Whatever was submitted, in whatever order: sorted, one entry a player, at most ten. */
  lemma {:induction false} BoardIsValid(history: seq<Action>)
    ensures Valid(Board(history))
  {
    if history != [] {
      BoardIsValid(history[..|history| - 1]);
      var a := history[|history| - 1];
      if Submitted(a).Some? {
        SubmitKeepsValid(Board(history[..|history| - 1]), Submitted(a).value);
      }
    }
  }

  // ---------------------------------------------------------------- the tenth score

  ghost predicate Full(board: seq<Player>) { |board| == 10 }

  /** `exp` is below what the board still admits. */
  ghost predicate BelowTenth(board: seq<Player>, exp: int) {
    Full(board) && exp <= board[9].exp
  }

  /** The board after an accepted submission: who stays and who drops out. */
  lemma SubmitSpec(board: seq<Player>, p: Player)
    requires Valid(board) && Qualifies(board, p)
    ensures p in Submit(board, p)
    ensures forall q :: q in Submit(board, p) ==> q == p || (q in board && q.playerId != p.playerId)
    ensures forall q :: q in board && q.playerId != p.playerId ==>
      q in Submit(board, p) || BelowTenth(Submit(board, p), q.exp)
    ensures Full(board) ==> Full(Submit(board, p)) && Submit(board, p)[LIMIT - 1].exp >= board[LIMIT - 1].exp
  {
    var rest := Without(board, p.playerId);
    WithoutSpec(board, p.playerId);
    WithoutKeepsOrder(board, p.playerId);
    InsertSpec(rest, p);
    InsertKeepsOrder(rest, p);
    var all := Insert(rest, p);
    var top := Submit(board, p);
    assert Top(all) == top;
    if |all| > LIMIT {
      assert all == top + [all[LIMIT]];
    }
    if Full(board) {
      TenthRises(board, top, p);
    }
  }

  /** The record stands behind all higher scores of the others and before all other scores; the last of eleven is gone. */
  ghost predicate EnteredAt(board: seq<Player>, p: Player, after: seq<Player>, k: nat) {
    var others := Others(board, p.playerId);
    && k <= |others|
    && (forall i :: 0 <= i < k ==> others[i].exp > p.exp)
    && (forall i :: k <= i < |others| ==> others[i].exp <= p.exp)
    && after == FirstTen(others[..k] + [p] + others[k..])
  }

  /**
   * What any action does to the board: a complete record from no robot is entered exactly when
   * there is room or its score beats the tenth, in place of the player's old record. Nothing else
   * changes the board.
   */
  lemma EntersExactly(board: seq<Player>, a: Action)
    requires Valid(board)
    ensures var after := Apply(board, a);
      if a.Add? && a.param.Some? && Names(a, a.param.value.playerId) && (|board| < 10 || a.param.value.exp > board[9].exp)
      then exists k :: EnteredAt(board, a.param.value, after, k)
      else after == board
  {
    hide Submit, EnteredAt, Sorted, UniqueIds;
    SubmittedExactly(a);
    if Submitted(a).Some? {
      var p := a.param.value;
      SubmitEnters(board, p);
      assert Apply(board, a) == Submit(board, p);
      assert Qualifies(board, p) <==> |board| < 10 || p.exp > board[9].exp;
    }
  }

  lemma SubmittedExactly(a: Action)
    ensures Submitted(a).Some? <==> a.Add? && a.param.Some? && Names(a, a.param.value.playerId)
    ensures Submitted(a).Some? ==> Submitted(a) == a.param
  {
  }

  lemma PlaceSplits(board: seq<Player>, exp: int)
    requires Sorted(board)
    ensures forall i :: 0 <= i < Place(board, exp) ==> board[i].exp > exp
    ensures forall i :: Place(board, exp) <= i < |board| ==> board[i].exp <= exp
  {
  }

  lemma SubmitEnters(board: seq<Player>, p: Player)
    requires Valid(board)
    ensures !Qualifies(board, p) ==> Submit(board, p) == board
    ensures Qualifies(board, p) ==> exists k :: EnteredAt(board, p, Submit(board, p), k)
  {
    WithoutIsOthers(board, p.playerId);
    WithoutKeepsOrder(board, p.playerId);
    hide Others, Without, UniqueIds;
    if Qualifies(board, p) {
      PlaceSplits(Without(board, p.playerId), p.exp);
      hide Place;
      assert EnteredAt(board, p, Submit(board, p), Place(Without(board, p.playerId), p.exp));
    }
  }

  function FirstTen(board: seq<Player>): seq<Player> {
    if |board| > 10 then board[..10] else board
  }

  /** The records of the other players, in their order. */
  function Others(board: seq<Player>, id: nat): seq<Player> {
    if board == [] then []
    else Others(board[..|board| - 1], id) + (if board[|board| - 1].playerId == id then [] else [board[|board| - 1]])
  }

  lemma {:induction false} OthersOfNone(board: seq<Player>, id: nat)
    requires forall p :: p in board ==> p.playerId != id
    ensures Others(board, id) == board
  {
    if board != [] {
      OthersOfNone(board[..|board| - 1], id);
      assert board == board[..|board| - 1] + [board[|board| - 1]];
    }
  }

  lemma {:induction false} WithoutIsOthers(board: seq<Player>, id: nat)
    requires UniqueIds(board)
    ensures Without(board, id) == Others(board, id)
  {
    var k := IndexOf(board, id);
    if k == |board| {
      OthersOfNone(board, id);
    } else {
      var init, last := board[..|board| - 1], board[|board| - 1];
      assert board == init + [last];
      if k == |board| - 1 {
        OthersOfNone(init, id);
      } else {
        assert init[k].playerId == id;
        assert IndexOf(init, id) == k;
        WithoutIsOthers(init, id);
        assert Without(board, id) == Without(init, id) + [last];
      }
    }
  }

  /** Ten entries that all come from `board` or beat its tenth have a tenth at least as good. */
  lemma TenthRises(board: seq<Player>, top: seq<Player>, p: Player)
    requires Valid(board) && Full(board) && Full(top)
    requires p.exp > board[LIMIT - 1].exp
    requires forall q :: q in top ==> q == p || q in board
    ensures top[LIMIT - 1].exp >= board[LIMIT - 1].exp
  {
    var q := top[LIMIT - 1];
    assert q in top;
    if q != p {
      var i :| 0 <= i < |board| && board[i] == q;
    }
  }

  lemma TenthStep(h: seq<Action>, a: Action)
    requires Full(Board(h))
    ensures Full(Board(h + [a])) && Board(h + [a])[LIMIT - 1].exp >= Board(h)[LIMIT - 1].exp
  {
    BoardIsValid(h);
    assert (h + [a])[..|h|] == h;
    var p := Submitted(a);
    if p.Some? && Qualifies(Board(h), p.value) {
      SubmitSpec(Board(h), p.value);
    }
  }

  /** Once there are ten, there are always ten, and the tenth score never falls. */
  lemma {:induction false} TenthNeverFalls(history: seq<Action>, more: seq<Action>)
    requires Full(Board(history))
    ensures Full(Board(history + more))
    ensures Board(history + more)[LIMIT - 1].exp >= Board(history)[LIMIT - 1].exp
    decreases |more|
  {
    if more == [] {
      assert history + more == history;
    } else {
      var init, a := more[..|more| - 1], more[|more| - 1];
      TenthNeverFalls(history, init);
      TenthStep(history + init, a);
      assert history + more == history + init + [a];
    }
  }

  // ---------------------------------------------------------------- the board against all latest scores

  /** `p` is listed out of date only when its player's latest score would not make the board. */
  ghost predicate ListedFairly(history: seq<Action>, p: Player) {
    var latest := Latest(history, p.playerId);
    latest.Some? && (p == latest.value || BelowTenth(Board(history), latest.value.exp))
  }

  /** A player missing from the board has a latest score that would not make it. */
  ghost predicate MissingFairly(history: seq<Action>, id: nat) {
    var latest := Latest(history, id);
    latest.Some? ==> latest.value in Board(history) || BelowTenth(Board(history), latest.value.exp)
  }

  /**
   * The board against the whole history: every player whose latest score beats the tenth
   * (or any score, while there is room) is listed with exactly the record last submitted,
   * and every listed record is its player's latest unless that latest score is below the tenth.
   */
  lemma {:induction false} BoardShowsLatest(history: seq<Action>)
    ensures forall p :: p in Board(history) ==> ListedFairly(history, p)
    ensures forall id: nat :: MissingFairly(history, id)
  {
    if history != [] {
      var h, a := history[..|history| - 1], history[|history| - 1];
      BoardShowsLatest(h);
      BoardIsValid(h);
      assert Board(history) == Apply(Board(h), a);
      var p := Submitted(a);
      forall q | q in Board(history) ensures ListedFairly(history, q) { StepListed(h, a, q); }
      forall id: nat ensures MissingFairly(history, id) { StepMissing(h, a, id); }
    }
  }

  lemma LatestNext(h: seq<Action>, a: Action, id: nat)
    ensures Latest(h + [a], id) ==
      if Submitted(a).Some? && Submitted(a).value.playerId == id then Submitted(a) else Latest(h, id)
    ensures Board(h + [a]) == Apply(Board(h), a)
  {
    assert (h + [a])[..|h|] == h;
  }

  lemma StepListed(h: seq<Action>, a: Action, q: Player)
    requires Valid(Board(h))
    requires forall p :: p in Board(h) ==> ListedFairly(h, p)
    requires q in Board(h + [a])
    ensures ListedFairly(h + [a], q)
  {
    hide Submitted, Latest, Names, Board, Sorted, UniqueIds;
    LatestNext(h, a, q.playerId);
    var p := Submitted(a);
    if p.Some? && Qualifies(Board(h), p.value) {
      SubmitSpec(Board(h), p.value);
    }
  }

  lemma StepMissing(h: seq<Action>, a: Action, id: nat)
    requires Valid(Board(h))
    requires MissingFairly(h, id)
    ensures MissingFairly(h + [a], id)
  {
    hide Submitted, Latest, Names, Board, Sorted, UniqueIds;
    LatestNext(h, a, id);
    var p := Submitted(a);
    LatestBelongs(h, id);
    if p.Some? && Qualifies(Board(h), p.value) {
      SubmitSpec(Board(h), p.value);
    }
  }

  lemma {:induction false} LatestBelongs(history: seq<Action>, id: nat)
    ensures Latest(history, id).Some? ==> Latest(history, id).value.playerId == id
  {
    if history != [] { LatestBelongs(history[..|history| - 1], id); }
  }

  // ---------------------------------------------------------------- when the board is a true top ten

  /** No player's score ever goes down from one submission to a later one. */
  ghost predicate NeverDecreasing(history: seq<Action>) {
    forall i, j :: 0 <= i < j < |history| && Submitted(history[i]).Some? && Submitted(history[j]).Some?
      && Submitted(history[i]).value.playerId == Submitted(history[j]).value.playerId
      ==> Submitted(history[i]).value.exp <= Submitted(history[j]).value.exp
  }

  /** Listed scores are latest scores, and whoever is not listed does not beat anyone who is. */
  ghost predicate IsTopTen(history: seq<Action>) {
    var board := Board(history);
    && (forall p :: p in board ==> Latest(history, p.playerId).Some?
                                   && Latest(history, p.playerId).value.exp == p.exp)
    && (forall id: nat :: Latest(history, id).Some? && (forall p :: p in board ==> p.playerId != id)
          ==> BelowTenth(board, Latest(history, id).value.exp))
  }

  /** The board is exactly a top ten of latest scores iff no listed score is out of date. */
  lemma TopTenExactly(history: seq<Action>)
    ensures IsTopTen(history) <==>
      forall p :: p in Board(history) ==>
        Latest(history, p.playerId).Some? && Latest(history, p.playerId).value.exp == p.exp
  {
    BoardShowsLatest(history);
    forall id: nat | Latest(history, id).Some? && (forall p :: p in Board(history) ==> p.playerId != id)
      ensures BelowTenth(Board(history), Latest(history, id).value.exp)
    {
      LatestBelongs(history, id);
      assert MissingFairly(history, id);
    }
  }

  lemma NewlyListed(board: seq<Player>, a: Action, p: Player)
    requires Valid(board) && p !in board && p in Apply(board, a)
    ensures Submitted(a) == Some(p)
  {
    SubmitSpec(board, Submitted(a).value);
  }

  lemma {:induction false} ListedWasSubmitted(history: seq<Action>, p: Player) returns (i: nat)
    requires p in Board(history)
    ensures i < |history| && Submitted(history[i]) == Some(p)
  {
    var h, a := history[..|history| - 1], history[|history| - 1];
    BoardIsValid(h);
    if p in Board(h) {
      i := ListedWasSubmitted(h, p);
      assert history[i] == h[i];
    } else {
      NewlyListed(Board(h), a, p);
      i := |history| - 1;
    }
  }

  lemma {:induction false} LatestIsLast(history: seq<Action>, i: nat, id: nat)
    requires NeverDecreasing(history)
    requires i < |history| && Submitted(history[i]).Some? && Submitted(history[i]).value.playerId == id
    ensures Latest(history, id).Some? && Latest(history, id).value.exp >= Submitted(history[i]).value.exp
  {
    var h, a := history[..|history| - 1], history[|history| - 1];
    var p := Submitted(a);
    if i < |history| - 1 && !(p.Some? && p.value.playerId == id) {
      LatestIsLast(h, i, id);
    }
  }

  /** If no player's score ever falls, the board is a true top ten of latest scores. */
  lemma RisingScoresGiveTopTen(history: seq<Action>)
    requires NeverDecreasing(history)
    ensures IsTopTen(history)
  {
    BoardShowsLatest(history);
    BoardIsValid(history);
    forall p | p in Board(history)
      ensures Latest(history, p.playerId).Some? && Latest(history, p.playerId).value.exp == p.exp
    {
      var i := ListedWasSubmitted(history, p);
      LatestIsLast(history, i, p.playerId);
      assert ListedFairly(history, p);
    }
    TopTenExactly(history);
  }

  /** The submission that leaves an out-of-date entry behind: a listed player falls to the tenth score or below. */
  ghost predicate LeavesStale(board: seq<Player>, p: Player) {
    BelowTenth(board, p.exp) && exists q :: q in board && q.playerId == p.playerId && q.exp != p.exp
  }

  /** A board that is a true top ten stays one exactly when the next submission is not such a fall. */
  lemma TopTenStep(h: seq<Action>, a: Action)
    requires IsTopTen(h)
    ensures IsTopTen(h + [a]) <==> !(Submitted(a).Some? && LeavesStale(Board(h), Submitted(a).value))
  {
    assert (h + [a])[..|h|] == h;
    BoardIsValid(h);
    TopTenExactly(h + [a]);
    if Submitted(a).Some? {
      var p := Submitted(a).value;
      if Qualifies(Board(h), p) {
        SubmitSpec(Board(h), p);
      } else if LeavesStale(Board(h), p) {
        var q :| q in Board(h) && q.playerId == p.playerId && q.exp != p.exp;
        assert Latest(h + [a], q.playerId) == Some(p);
      }
    }
  }

  /** Players 1 to `n`, each from its own session, with 5 points. */
  function Tied(n: nat): seq<Action> {
    if n == 0 then [] else Tied(n - 1) + [Add(Some(n), Some(Player(n, "", 0, 5)))]
  }

  function TiedPlayers(n: nat): (r: seq<Player>)
    ensures |r| == n
    ensures forall p :: p in r ==> 0 < p.playerId <= n && p.exp == 5
  {
    if n == 0 then [] else [Player(n, "", 0, 5)] + TiedPlayers(n - 1)
  }

  lemma {:induction false} TiedBoard(n: nat)
    requires n <= LIMIT
    ensures Board(Tied(n)) == TiedPlayers(n)
  {
    if n > 0 {
      TiedBoard(n - 1);
      assert Tied(n)[..|Tied(n)| - 1] == Tied(n - 1);
      TieGoesFirst(TiedPlayers(n - 1), Player(n, "", 0, 5));
    }
  }

  lemma TieGoesFirst(board: seq<Player>, p: Player)
    requires |board| < LIMIT
    requires forall q :: q in board ==> q.playerId != p.playerId && q.exp == p.exp
    ensures Submit(board, p) == [p] + board
  {
    assert Without(board, p.playerId) == board;
    assert Place(board, p.exp) == 0;
    assert Insert(board, p) == [p] + board;
  }

  /** Ten players win their way to 5 points each, then the tenth loses a game and falls to 0: the board still shows 5. */
  lemma FallingScoreStaysListed(n: nat)
    requires n == 10
    ensures IsTopTen(Tied(n))
    ensures !IsTopTen(Tied(n) + [Add(Some(n), Some(Player(n, "", 0, 0)))])
  {
    TiedRises(n);
    RisingScoresGiveTopTen(Tied(n));
    TiedIsStale(n);
    TopTenStep(Tied(n), Add(Some(n), Some(Player(n, "", 0, 0))));
  }

  lemma TiedIsStale(n: nat)
    requires n == LIMIT
    ensures LeavesStale(Board(Tied(n)), Player(n, "", 0, 0))
  {
    TiedBoard(n);
    var board := TiedPlayers(n);
    assert board[0] == Player(n, "", 0, 5);
    assert board[LIMIT - 1] in board;
  }

  lemma {:induction false} TiedSubmits(n: nat, i: nat)
    requires n <= LIMIT && i < |Tied(n)|
    ensures Submitted(Tied(n)[i]).Some? && Submitted(Tied(n)[i]).value.exp == 5
  {
    if i < |Tied(n - 1)| { TiedSubmits(n - 1, i); }
  }

  lemma TiedRises(n: nat)
    requires n <= LIMIT
    ensures NeverDecreasing(Tied(n))
  {
    forall i | 0 <= i < |Tied(n)|
      ensures Submitted(Tied(n)[i]).Some? && Submitted(Tied(n)[i]).value.exp == 5
    {
      TiedSubmits(n, i);
    }
  }

  // ---------------------------------------------------------------- the routine itself

  /** A reply to a `Get`: the receiver and the board as it stood. */
  datatype Reply = Reply(receiver: nat, players: seq<Player>)

  /** The replies owed to the queries in a history. */
  function Replies(history: seq<Action>): seq<Reply> {
    if history == [] then [] else
      var h, a := history[..|history| - 1], history[|history| - 1];
      Replies(h) + (if a.Get? && a.session.Some? && a.session.value > 0
                    then [Reply(a.session.value, Board(h))] else [])
  }

  /** Step `k` is a query of the player, and the board stood so then. */
  ghost predicate Asked(history: seq<Action>, k: nat, id: nat, board: seq<Player>) {
    k < |history| && history[k] == Get(Some(id)) && id > 0 && board == Board(history[..k])
  }

  /** A player is sent exactly the boards of the moments of its queries. */
  lemma {:induction false} AnsweredExactly(history: seq<Action>, id: nat, board: seq<Player>)
    ensures Reply(id, board) in Replies(history) <==> exists k :: Asked(history, k, id, board)
  {
    hide Board;
    if history != [] {
      var n := |history| - 1;
      var h := history[..n];
      AnsweredExactly(h, id, board);
      forall k: nat | k < n ensures Asked(history, k, id, board) <==> Asked(h, k, id, board) {
        assert history[..k] == h[..k];
      }
      if history[n] == Get(Some(id)) && id > 0 && board == Board(h) { assert Asked(history, n, id, board); }
    }
  }

  class RankingList {
    var players: seq<Player>

    constructor ()
      ensures players == []
    {
      players := [];
    }

    /** One pass over the board for both positions, -1 when there is none. */
    method Positions(p: Player) returns (posNew: int, posOld: int)
      requires UniqueIds(players)
      ensures posNew == if Place(players, p.exp) < |players| then Place(players, p.exp) else -1
      ensures posOld == if IndexOf(players, p.playerId) < |players| then IndexOf(players, p.playerId) else -1
    {
      posNew, posOld := -1, -1;
      for i := 0 to |players|
        invariant posNew == if Place(players, p.exp) < i then Place(players, p.exp) else -1
        invariant posOld == if IndexOf(players, p.playerId) < i then IndexOf(players, p.playerId) else -1
      {
        if posNew == -1 && p.exp >= players[i].exp {
          posNew := i;
        }
        if p.playerId == players[i].playerId {
          posOld := i;
        }
      }
    }

    method Cut(posOld: int, ghost id: nat)
      requires posOld == if IndexOf(players, id) < |players| then IndexOf(players, id) else -1
      modifies this
      ensures players == Without(old(players), id)
    {
      if posOld != -1 {
        if posOld + 1 < |players| {
          players := players[..posOld] + players[posOld + 1..];
        } else {
          players := players[..posOld];
        }
      }
    }

    method Splice(posNew: int, p: Player)
      requires Place(players, p.exp) == if posNew == -1 then |players| else posNew
      modifies this
      ensures players == Insert(old(players), p)
    {
      if posNew == -1 {
        players := players + [p];
      } else {
        var rear := players[posNew..];
        players := players[..posNew] + [p];
        players := players + rear;
      }
    }

    /** Cut the player's old entry out, splice the new one in, keep ten. */
    method Enter(p: Player)
      requires Valid(players) && Qualifies(players, p)
      modifies this
      ensures players == Submit(old(players), p)
    {
      var posNew, posOld := Positions(p);
      SplicePlace(players, p, posNew, posOld);
      if posOld != -1 && posOld < posNew {
        posNew := posNew - 1;
      }
      Cut(posOld, p.playerId);
      Splice(posNew, p);
      if |players| > LIMIT {
        players := players[..LIMIT];
      }
    }

    method Record(sender: Option<nat>, param: Option<Player>)
      requires Valid(players)
      modifies this
      ensures players == Apply(old(players), Add(sender, param))
    {
      var total := |players|;
      if param.Some? && sender.Some? && sender.value < ROBOT_PLAYER_ID {
        if total < LIMIT || param.value.exp > players[LIMIT - 1].exp {
          Enter(param.value);
        }
      }
    }

    method Perform(action: Action) returns (replies: seq<Reply>)
      requires Valid(players)
      modifies this
      ensures players == Apply(old(players), action)
      ensures replies == if action.Get? && action.session.Some? && action.session.value > 0
                         then [Reply(action.session.value, old(players))] else []
    {
      replies := [];
      match action {
        case Add(session, param) => Record(session, param);
        case Get(session) =>
          if session.Some? && session.value > 0 {
            replies := [Reply(session.value, players)];
          }
      }
    }

    /** The channel loop; `None` stands for the nil that ends it. */
    method Serve(actions: seq<Option<Action>>) returns (served: seq<Action>, replies: seq<Reply>)
      requires players == []
      modifies this
      ensures |served| <= |actions|
      ensures forall i :: 0 <= i < |served| ==> actions[i] == Some(served[i])
      ensures |served| < |actions| ==> actions[|served|] == None
      ensures players == Board(served) && replies == Replies(served)
    {
      hide Board, Replies, Apply;
      served, replies := [], [];
      NothingServed();
      for n := 0 to |actions|
        invariant |served| == n
        invariant forall i :: 0 <= i < n ==> actions[i] == Some(served[i])
        invariant players == Board(served) && replies == Replies(served)
      {
        if actions[n].None? {
          return;
        }
        var action := actions[n].value;
        BoardIsValid(served);
        var reply := Perform(action);
        replies := replies + reply;
        ServedMore(served, action);
        served := served + [action];
      }
    }
  }

  lemma NothingServed()
    ensures Board([]) == [] && Replies([]) == []
  {
  }

  lemma ServedMore(served: seq<Action>, a: Action)
    ensures Board(served + [a]) == Apply(Board(served), a)
    ensures Replies(served + [a]) == Replies(served) + (
      if a.Get? && a.session.Some? && a.session.value > 0 then [Reply(a.session.value, Board(served))] else [])
  {
    assert (served + [a])[..|served|] == served;
  }

  lemma PlaceIs(board: seq<Player>, exp: int, k: nat)
    requires k <= |board|
    requires k < |board| ==> exp >= board[k].exp
    requires forall j :: 0 <= j < k ==> exp < board[j].exp
    ensures Place(board, exp) == k
  {
  }

  /** Cutting the same player's old entry moves the new one's place down by one, or not at all. */
  lemma PlaceWithout(board: seq<Player>, p: Player)
    requires Sorted(board)
    ensures Place(Without(board, p.playerId), p.exp)
         == Place(board, p.exp) - (if IndexOf(board, p.playerId) < Place(board, p.exp) then 1 else 0)
  {
    var rest := Without(board, p.playerId);
    var k, cut := Place(board, p.exp), IndexOf(board, p.playerId);
    if cut < |board| {
      assert forall i :: 0 <= i < |rest| ==> rest[i] == board[if i < cut then i else i + 1];
      PlaceIs(rest, p.exp, if cut < k then k - 1 else k);
    }
  }

  lemma SplicePlace(board: seq<Player>, p: Player, posNew: int, posOld: int)
    requires Sorted(board)
    requires posNew == if Place(board, p.exp) < |board| then Place(board, p.exp) else -1
    requires posOld == if IndexOf(board, p.playerId) < |board| then IndexOf(board, p.playerId) else -1
    ensures var rest := Without(board, p.playerId);
      Place(rest, p.exp) ==
        if posNew == -1 then |rest|
        else if posOld != -1 && posOld < posNew then posNew - 1 else posNew
  {
    PlaceWithout(board, p);
  }
}

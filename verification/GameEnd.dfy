/**
 * The end of a game (the GameOver action in game_server/room.go): the players' reports are counted
 * as votes, and every reported player is rewarded. Random gold is a parameter; so is the order in
 * which the counted players are walked; a panic is an outcome.
 */
module GameEnd {
  import opened Basics

  const DAILY_LIMIT := 100
  const MOST_COUNTED := 108
  const INT32_MAX := 0x7FFF_FFFF

  datatype Verdict = Win | Lose | Other
  datatype Vote = Vote(player: nat, verdict: Verdict)

  /** One report for each player who finished. */
  type Report = seq<Vote>

  datatype Account = Account(gold: int, exp: int, counter: int)

  datatype Tally = Tally(win: nat, lose: nat)

  // ---------------------------------------------------------------- votes

  function VotesIn(report: Report, player: nat, verdict: Verdict): nat {
    if report == [] then 0
    else
      VotesIn(report[..|report| - 1], player, verdict)
      + (if report[|report| - 1] == Vote(player, verdict) then 1 else 0)
  }

  function Votes(reports: seq<Report>, player: nat, verdict: Verdict): nat {
    if reports == [] then 0
    else Votes(reports[..|reports| - 1], player, verdict) + VotesIn(reports[|reports| - 1], player, verdict)
  }

  predicate Reported(reports: seq<Report>, player: nat) {
    exists i, j :: 0 <= i < |reports| && 0 <= j < |reports[i]| && reports[i][j].player == player
  }

  predicate Winner(reports: seq<Report>, player: nat) {
    Votes(reports, player, Win) > Votes(reports, player, Lose)
  }

  lemma {:induction false} VotesWithout(reports: seq<Report>, i: nat, player: nat, verdict: Verdict)
    requires i < |reports|
    ensures Votes(reports, player, verdict)
      == Votes(reports[..i] + reports[i + 1..], player, verdict) + VotesIn(reports[i], player, verdict)
  {
    var last := |reports| - 1;
    if i == last {
      assert reports[..i] + reports[i + 1..] == reports[..last];
    } else {
      var rest := reports[..i] + reports[i + 1..];
      assert reports[..last][..i] + reports[..last][i + 1..] == rest[..|rest| - 1];
      VotesWithout(reports[..last], i, player, verdict);
    }
  }

  /** Who wins does not depend on the order of the reports. */
  lemma {:induction false} VotesInAnyOrder(a: seq<Report>, b: seq<Report>, player: nat, verdict: Verdict)
    requires multiset(a) == multiset(b)
    ensures Votes(a, player, verdict) == Votes(b, player, verdict)
    decreases |a|
  {
    if a == [] {
      assert |b| == |multiset(b)| == |multiset(a)| == 0;
    } else {
      var last := |a| - 1;
      var i := PlaceIn(a, b);
      VotesWithout(b, i, player, verdict);
      VotesInAnyOrder(a[..last], b[..i] + b[i + 1..], player, verdict);
    }
  }

  /** Where the last report of `a` stands in `b`; without it both are the same again. */
  lemma PlaceIn(a: seq<Report>, b: seq<Report>) returns (i: nat)
    requires a != [] && multiset(a) == multiset(b)
    ensures i < |b| && b[i] == a[|a| - 1]
    ensures multiset(a[..|a| - 1]) == multiset(b[..i] + b[i + 1..])
  {
    var last := |a| - 1;
    assert a == a[..last] + [a[last]];
    assert a[last] in multiset(b);
    i :| 0 <= i < |b| && b[i] == a[last];
    WithoutSame(a[..last], b[..i], b[i + 1..], a[last]);
    assert b == b[..i] + [a[last]] + b[i + 1..];
  }

  lemma WithoutSame<T>(a: seq<T>, b1: seq<T>, b2: seq<T>, x: T)
    ensures multiset(a + [x]) == multiset(b1 + [x] + b2) ==> multiset(a) == multiset(b1 + b2)
  {
    if multiset(a + [x]) == multiset(b1 + [x] + b2) {
      assert multiset(a) == multiset(a + [x]) - multiset{x};
      assert multiset(b1 + b2) == multiset(b1 + [x] + b2) - multiset{x};
    }
  }

  lemma WinnersInAnyOrder(a: seq<Report>, b: seq<Report>, player: nat)
    requires multiset(a) == multiset(b)
    ensures Winner(a, player) == Winner(b, player) && Reported(a, player) == Reported(b, player)
  {
    VotesInAnyOrder(a, b, player, Win);
    VotesInAnyOrder(a, b, player, Lose);
    ReportedInAnyOrder(a, b, player);
    ReportedInAnyOrder(b, a, player);
  }

  lemma ReportedInAnyOrder(a: seq<Report>, b: seq<Report>, player: nat)
    requires multiset(a) == multiset(b)
    ensures Reported(a, player) ==> Reported(b, player)
  {
    if Reported(a, player) {
      var i, j :| 0 <= i < |a| && 0 <= j < |a[i]| && a[i][j].player == player;
      assert a[i] in multiset(b);
      var k :| 0 <= k < |b| && b[k] == a[i];
      assert b[k][j].player == player;
    }
  }

  // ---------------------------------------------------------------- rewards

  /** 5 to 9 gold for a win while the day's counter is below 100; experience up or down by 5. */
  function Reward(a: Account, won: bool, roll: nat): Account {
    if !won then a.(exp := ToInt32(a.exp - 5))
    else if a.counter < DAILY_LIMIT then
      var gold := 5 + roll % 5;
      Account(ToInt32(a.gold + gold), ToInt32(a.exp + 5), ToInt32(a.counter + gold))
    else a.(exp := ToInt32(a.exp + 5))
  }

  /** Reward the players of `order` in turn; None is a panic, at a player who is not in the room. */
  function Settle(accounts: map<nat, Account>, reports: seq<Report>, order: seq<nat>, rolls: nat -> nat)
    : Option<map<nat, Account>>
  {
    if order == [] then Some(accounts)
    else
      var player := order[0];
      if player !in accounts then None
      else
        var account := Reward(accounts[player], Winner(reports, player), rolls(player));
        Settle(accounts[player := account], reports, order[1..], rolls)
  }

  /** The counted players are walked in some order. */
  ghost predicate OrderOk(reports: seq<Report>, order: seq<nat>) {
    Distinct(order) && forall player :: player in order <==> Reported(reports, player)
  }

  ghost predicate Settled(accounts: map<nat, Account>, result: map<nat, Account>, reports: seq<Report>,
                          order: seq<nat>, rolls: nat -> nat)
  {
    && result.Keys == accounts.Keys
    && forall player :: player in accounts ==>
         result[player] == if player in order then Reward(accounts[player], Winner(reports, player), rolls(player))
                           else accounts[player]
  }

  lemma {:induction false} SettlesInTurn(accounts: map<nat, Account>, reports: seq<Report>, order: seq<nat>, rolls: nat -> nat)
    requires Distinct(order)
    ensures var result := Settle(accounts, reports, order, rolls);
      && (result.Some? <==> forall player :: player in order ==> player in accounts)
      && (result.Some? ==> Settled(accounts, result.value, reports, order, rolls))
    decreases |order|
  {
    hide Winner, Reward;
    if order != [] {
      var player := order[0];
      assert order == [player] + order[1..];
      if player in accounts {
        var account := Reward(accounts[player], Winner(reports, player), rolls(player));
        SettlesInTurn(accounts[player := account], reports, order[1..], rolls);
      }
    }
  }

  /** More votes say that the player won than that the player lost. */
  predicate Outvotes(reports: seq<Report>, player: nat) {
    Votes(reports, player, Win) > Votes(reports, player, Lose)
  }

  /**
   * A winner gets 5 experience and, while the day's counter is below 100, 5 to 9 gold that the
   * counter adds up; anyone else loses 5 experience, on a tie of votes too. All in 32 bits.
   */
  ghost predicate Rewarded(before: Account, after: Account, won: bool, roll: nat) {
    && after.exp == ToInt32(if won then before.exp + 5 else before.exp - 5)
    && (won && before.counter < 100 ==>
          && after.gold == ToInt32(before.gold + 5 + roll % 5)
          && after.counter == ToInt32(before.counter + 5 + roll % 5))
    && (!won || before.counter >= 100 ==> after.gold == before.gold && after.counter == before.counter)
  }

  lemma RewardIsRewarded(a: Account, won: bool, roll: nat)
    ensures Rewarded(a, Reward(a, won, roll), won, roll)
  {
  }

  /** The places of the votes of one kind for a player. */
  function Places(reports: seq<Report>, player: nat, verdict: Verdict): set<(int, int)> {
    set i, j | 0 <= i < |reports| && 0 <= j < |reports[i]| && reports[i][j] == Vote(player, verdict) :: (i, j)
  }

  lemma OneMorePlace(reports: seq<Report>, report: Report, vote: Vote, player: nat, verdict: Verdict)
    ensures var one := (|reports|, |report|);
      && one !in Places(reports + [report], player, verdict)
      && Places(reports + [report + [vote]], player, verdict)
         == Places(reports + [report], player, verdict) + (if vote == Vote(player, verdict) then {one} else {})
  {
    var less, more: seq<Report> := reports + [report], reports + [report + [vote]];
    forall i, j
      ensures (i, j) in Places(more, player, verdict)
        <==> (i, j) in Places(less, player, verdict) || ((i, j) == (|reports|, |report|) && vote == Vote(player, verdict))
    {
      PlaceInBoth(reports, report, vote, i, j);
    }
  }

  lemma PlaceInBoth(reports: seq<Report>, report: Report, vote: Vote, i: int, j: int)
    ensures var less, more: seq<Report> := reports + [report], reports + [report + [vote]];
      && |less| == |more|
      && (0 <= i < |more| && 0 <= j < |more[i]| ==>
            if (i, j) == (|reports|, |report|) then more[i][j] == vote else j < |less[i]| && less[i][j] == more[i][j])
      && (0 <= i < |less| && 0 <= j < |less[i]| ==>
            (i, j) != (|reports|, |report|) && j < |more[i]| && less[i][j] == more[i][j])
  {
  }

  lemma {:induction false} PlacesInLast(reports: seq<Report>, report: Report, player: nat, verdict: Verdict)
    ensures |Places(reports + [report], player, verdict)| == |Places(reports, player, verdict)| + VotesIn(report, player, verdict)
    decreases |report|
  {
    if report == [] {
      var after: seq<Report> := reports + [[]];
      assert forall i :: 0 <= i < |reports| ==> after[i] == reports[i];
      assert Places(after, player, verdict) == Places(reports, player, verdict);
    } else {
      hide Places;
      var init, last := report[..|report| - 1], report[|report| - 1];
      assert report == init + [last];
      PlacesInLast(reports, init, player, verdict);
      OneMorePlace(reports, init, last, player, verdict);
    }
  }

  /** Votes are counted one by one, wherever they are. */
  lemma {:induction false} VotesAreCounted(reports: seq<Report>, player: nat, verdict: Verdict)
    ensures Votes(reports, player, verdict) == |Places(reports, player, verdict)|
  {
    if reports == [] {
      assert Places(reports, player, verdict) == {};
    } else {
      hide Places;
      var init, last := reports[..|reports| - 1], reports[|reports| - 1];
      VotesAreCounted(init, player, verdict);
      PlacesInLast(init, last, player, verdict);
      assert reports == init + [last];
    }
  }

  /**
   * In whatever order the counted players are walked: the end of a game panics exactly when a
   * report names someone who is not in the room; otherwise every reported player, and nobody else,
   * is rewarded, as a winner exactly when more votes say Win than Lose.
   */
  lemma SettledExactly(accounts: map<nat, Account>, reports: seq<Report>, order: seq<nat>, rolls: nat -> nat)
    requires OrderOk(reports, order)
    ensures var result := Settle(accounts, reports, order, rolls);
      && (result == None <==> exists player :: Reported(reports, player) && player !in accounts)
      && (result.Some? ==>
            result.value == map player | player in accounts ::
              if Reported(reports, player) then Reward(accounts[player], Winner(reports, player), rolls(player))
              else accounts[player])
      && (result.Some? ==> forall player :: player in accounts && Reported(reports, player) ==>
            Rewarded(accounts[player], result.value[player], Outvotes(reports, player), rolls(player)))
  {
    hide Reward, Settle, Reported, Rewarded, Votes;
    SettlesInTurn(accounts, reports, order, rolls);
    forall player | player in accounts
      ensures Rewarded(accounts[player], Reward(accounts[player], Winner(reports, player), rolls(player)),
                       Outvotes(reports, player), rolls(player))
    {
      RewardIsRewarded(accounts[player], Winner(reports, player), rolls(player));
    }
  }

  /** Such as a room of player 1 alone, who reports a win of player 2. */
  lemma StrangerExample(account: Account, rolls: nat -> nat)
    ensures var reports := [[Vote(2, Win)]];
      OrderOk(reports, [2]) && Settle(map[1 := account], reports, [2], rolls) == None
  {
    var reports: seq<Report> := [[Vote(2, Win)]];
    assert reports[0][0].player == 2;
  }

  // ---------------------------------------------------------------- days of games

  datatype Game = Game(reports: seq<Report>, order: seq<nat>, rolls: nat -> nat)

  function Play(accounts: map<nat, Account>, games: seq<Game>): Option<map<nat, Account>> {
    if games == [] then Some(accounts)
    else
      var before := Play(accounts, games[..|games| - 1]);
      var game := games[|games| - 1];
      if before == None then None else Settle(before.value, game.reports, game.order, game.rolls)
  }

  ghost predicate GamesOk(games: seq<Game>) {
    forall i :: 0 <= i < |games| ==> OrderOk(games[i].reports, games[i].order)
  }

  function Wins(games: seq<Game>, player: nat): nat {
    if games == [] then 0
    else
      var reports := games[|games| - 1].reports;
      Wins(games[..|games| - 1], player) + (if Reported(reports, player) && Winner(reports, player) then 1 else 0)
  }

  function Losses(games: seq<Game>, player: nat): nat {
    if games == [] then 0
    else
      var reports := games[|games| - 1].reports;
      Losses(games[..|games| - 1], player) + (if Reported(reports, player) && !Winner(reports, player) then 1 else 0)
  }

  /** What `wins` wins and `losses` losses since the day began make of an account. */
  ghost predicate Earned(a: Account, b: Account, wins: nat, losses: nat) {
    && a.counter <= b.counter <= 108
    && b.gold - a.gold == b.counter - a.counter
    && b.exp == a.exp + 5 * wins - 5 * losses
    && (b.counter - a.counter <= 9 * wins)
    && (b.counter < 100 ==> 5 * wins <= b.counter - a.counter)
  }

  lemma RewardEarns(a: Account, b: Account, wins: nat, losses: nat, won: bool, roll: nat)
    requires Earned(a, b, wins, losses) && 0 <= a.counter
    requires 0 <= a.gold && a.gold + MOST_COUNTED <= INT32_MAX
    requires -INT32_MAX <= a.exp - 5 * (losses + 1) && a.exp + 5 * (wins + 1) <= INT32_MAX
    ensures Earned(a, Reward(b, won, roll), if won then wins + 1 else wins, if won then losses else losses + 1)
  {
  }

  /**
   * Between two daily resets, over any run of games: the gold paid is the growth of the day's
   * counter, which never exceeds 108; below 100 every win pays 5 to 9; experience is 5 for each
   * win less 5 for each loss.
   */
  lemma {:induction false} GoldFollowsCounter(accounts: map<nat, Account>, games: seq<Game>, player: nat)
    requires GamesOk(games) && player in accounts && Play(accounts, games).Some?
    requires var a := accounts[player];
      && 0 <= a.counter <= MOST_COUNTED && 0 <= a.gold && a.gold + MOST_COUNTED <= INT32_MAX
      && -INT32_MAX <= a.exp - 5 * |games| && a.exp + 5 * |games| <= INT32_MAX
    ensures player in Play(accounts, games).value
    ensures Earned(accounts[player], Play(accounts, games).value[player], Wins(games, player), Losses(games, player))
    ensures Wins(games, player) <= |games| && Losses(games, player) <= |games|
  {
    hide Reported, Winner, Reward, Settle, OrderOk;
    if games != [] {
      var init, game := games[..|games| - 1], games[|games| - 1];
      GoldFollowsCounter(accounts, init, player);
      var before := Play(accounts, init).value;
      assert OrderOk(game.reports, game.order);
      SettledExactly(before, game.reports, game.order, game.rolls);
      if Reported(game.reports, player) {
        RewardEarns(accounts[player], before[player], Wins(init, player), Losses(init, player),
                    Winner(game.reports, player), game.rolls(player));
      }
    }
  }

  // ---------------------------------------------------------------- the loops of the source

  /** One counter for each player a report names. */
  ghost predicate Counted(counters: map<nat, Tally>, reports: seq<Report>) {
    && (forall player :: player in counters <==> Reported(reports, player))
    && forall player :: player in counters ==>
         counters[player] == Tally(Votes(reports, player, Win), Votes(reports, player, Lose))
  }

  function Add(tally: Tally, verdict: Verdict): Tally {
    match verdict
    case Win => tally.(win := tally.win + 1)
    case Lose => tally.(lose := tally.lose + 1)
    case Other => tally
  }

  lemma CountsOneMore(counters: map<nat, Tally>, reports: seq<Report>, done: Report, vote: Vote)
    requires Counted(counters, reports + [done])
    ensures var was := if vote.player in counters then counters[vote.player] else Tally(0, 0);
      Counted(counters[vote.player := Add(was, vote.verdict)], reports + [done + [vote]])
  {
    hide Votes, Reported;
    var before: seq<Report>, after: seq<Report> := reports + [done], reports + [done + [vote]];
    forall player
      ensures Reported(after, player) <==> Reported(before, player) || player == vote.player
      ensures Votes(after, player, Win) == Votes(before, player, Win) + (if vote == Vote(player, Win) then 1 else 0)
      ensures Votes(after, player, Lose) == Votes(before, player, Lose) + (if vote == Vote(player, Lose) then 1 else 0)
    {
      ReportedOneMore(reports, done, vote, player);
      VotesOneMore(reports, done, vote, player, Win);
      VotesOneMore(reports, done, vote, player, Lose);
    }
    if vote.player !in counters { NoVotes(before, vote.player); }
  }

  lemma VotesOneMore(reports: seq<Report>, done: Report, vote: Vote, player: nat, verdict: Verdict)
    ensures Votes(reports + [done + [vote]], player, verdict)
      == Votes(reports + [done], player, verdict) + (if vote == Vote(player, verdict) then 1 else 0)
  {
    assert (reports + [done])[..|reports|] == reports == (reports + [done + [vote]])[..|reports|];
    assert (done + [vote])[..|done|] == done;
  }

  lemma ReportedOneMore(reports: seq<Report>, done: Report, vote: Vote, player: nat)
    ensures Reported(reports + [done + [vote]], player) <==> Reported(reports + [done], player) || player == vote.player
  {
    var before: seq<Report>, after: seq<Report> := reports + [done], reports + [done + [vote]];
    if Reported(before, player) {
      var i, j :| 0 <= i < |before| && 0 <= j < |before[i]| && before[i][j].player == player;
      assert after[i][j].player == player;
    }
    assert after[|reports|][|done|] == vote;
    if Reported(after, player) && player != vote.player {
      var i, j :| 0 <= i < |after| && 0 <= j < |after[i]| && after[i][j].player == player;
      assert before[i][j].player == player;
    }
  }

  lemma ReportedGrows(reports: seq<Report>, report: Report, player: nat)
    ensures Reported(reports, player) ==> Reported(reports + [report], player)
  {
    var more: seq<Report> := reports + [report];
    if Reported(reports, player) {
      var i, j :| 0 <= i < |reports| && 0 <= j < |reports[i]| && reports[i][j].player == player;
      assert more[i][j].player == player;
    }
  }

  lemma {:induction false} NoVotes(reports: seq<Report>, player: nat)
    requires !Reported(reports, player)
    ensures forall verdict :: Votes(reports, player, verdict) == 0
  {
    if reports != [] {
      var init, report := reports[..|reports| - 1], reports[|reports| - 1];
      ReportedGrows(init, report, player);
      assert reports == init + [report];
      NoVotes(init, player);
      forall j | 0 <= j < |report| ensures report[j].player != player {
        assert reports[|reports| - 1][j].player != player;
      }
      NoVotesIn(report, player);
    }
  }

  lemma {:induction false} NoVotesIn(report: Report, player: nat)
    requires forall j :: 0 <= j < |report| ==> report[j].player != player
    ensures forall verdict :: VotesIn(report, player, verdict) == 0
  {
    if report != [] { NoVotesIn(report[..|report| - 1], player); }
  }

  lemma EmptyReportCountsNothing(counters: map<nat, Tally>, reports: seq<Report>)
    requires Counted(counters, reports)
    ensures Counted(counters, reports + [[]])
  {
    var more: seq<Report> := reports + [[]];
    assert more[..|reports|] == reports;
    forall player ensures Reported(more, player) <==> Reported(reports, player) {
      ReportedGrows(reports, [], player);
      if Reported(more, player) {
        var i, j :| 0 <= i < |more| && 0 <= j < |more[i]| && more[i][j].player == player;
        assert reports[i][j].player == player;
      }
    }
  }

  /** The two nested loops over the finished players' reports. */
  method CountVotes(reports: seq<Report>) returns (counters: map<nat, Tally>)
    ensures Counted(counters, reports)
  {
    hide Counted;
    counters := map[];
    assert Counted(counters, []) by { NothingCounted(); }
    for i := 0 to |reports|
      invariant Counted(counters, reports[..i])
    {
      EmptyReportCountsNothing(counters, reports[..i]);
      var report := reports[i];
      assert report[..0] == [];
      for j := 0 to |report|
        invariant Counted(counters, reports[..i] + [report[..j]])
      {
        CountsOneMore(counters, reports[..i], report[..j], report[j]);
        assert report[..j] + [report[j]] == report[..j + 1];
        var tally := if report[j].player in counters then counters[report[j].player] else Tally(0, 0);
        counters := counters[report[j].player := Add(tally, report[j].verdict)];
      }
      assert report[..|report|] == report && reports[..i] + [report] == reports[..i + 1];
    }
    assert reports[..|reports|] == reports;
  }

  lemma NothingCounted()
    ensures Counted(map[], [])
  {
  }

  class Settlement {
    var accounts: map<nat, Account>

    constructor (members: map<nat, Account>)
      ensures accounts == members
    {
      accounts := members;
    }

    /** Count the votes and reward the counted players in the given order; false is a panic. */
    method SettleGame(reports: seq<Report>, order: seq<nat>, rolls: nat -> nat) returns (fine: bool)
      requires OrderOk(reports, order)
      modifies this
      ensures fine <==> Settle(old(accounts), reports, order, rolls).Some?
      ensures fine ==> Some(accounts) == Settle(old(accounts), reports, order, rolls)
    {
      hide Votes, Reported, Reward;
      var counters := CountVotes(reports);
      for i := 0 to |order|
        invariant Settle(accounts, reports, order[i..], rolls) == Settle(old(accounts), reports, order, rolls)
      {
        var player := order[i];
        assert order[i..][1..] == order[i + 1..] && player in order;
        if player !in accounts {
          return false;
        }
        var won := counters[player].win > counters[player].lose;
        accounts := accounts[player := Reward(accounts[player], won, rolls(player))];
      }
      return true;
    }
  }
}

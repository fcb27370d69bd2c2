/**
 * The shops and treasure boxes of the game hall (MsgHallOperation.Handle in
 * game_server/message_handler.go, and the helpers in game_server/game.go). The loaded tables are
 * given; random draws are parameters; a panic is an outcome.
 */
module Hall {
  import opened Basics

  const GOLD := 1
  const SOUL := 2
  const GRAY_BOX: nat := 9059000
  const BLUE_BOX: nat := 9059001
  const GOLD_BOX: nat := 9059002
  const INT32_MAX := 0x7FFF_FFFF
  const OFFERS: nat := 3

  /** Heroes and equips that may be shown in the shop; items have a price in each currency. */
  datatype Row = Row(price: int, refund: int, shown: bool)
  datatype ItemRow = ItemRow(gold: int, soul: int)
  datatype Rarities = Rarities(normal: seq<nat>, advance: seq<nat>, rare: seq<nat>)

  datatype Tables = Tables(
    heroes: map<nat, Row>, items: map<nat, ItemRow>, equips: map<nat, Row>,
    heroSets: Rarities, equipSets: Rarities)

  datatype Grid = Grid(id: nat, total: int)
  datatype Offer = Offer(id: nat, deal: bool)
  datatype Player = Player(gold: int, soul: int, pack: seq<Grid>, heroes: seq<nat>, offers: seq<Offer>)

  datatype Code = OK | InvalidParameter | NotEnoughMoney | HeroExists | EquipExists
  datatype Result = Reply(code: Code, player: Player) | Crash

  /** A roll of 0..98 and a pick, taken modulo what there is to pick from. */
  datatype Draw = Draw(roll: nat, pick: nat)
  datatype Draws = Draws(hero: Draw, first: Draw, second: Draw)

  datatype Operation =
    | BuyHero(param: int, unit: int)
    | BuyItem(param: int, unit: int)
    | BuyEquip(param: int, unit: int)
    | BlackBuy(param: int, unit: int)
    | OpenBox(param: int, draws: Draws)
    | Restock(order: seq<nat>, picks: seq<nat>)

  /** Go's uint32(x). */
  function ToUint32(x: int): (r: nat)
    ensures r < 0x1_0000_0000 && (x - r) % 0x1_0000_0000 == 0
  {
    x % 0x1_0000_0000
  }

  // ---------------------------------------------------------------- the player's data

  predicate InPack(pack: seq<Grid>, id: nat) {
    exists i :: 0 <= i < |pack| && pack[i].id == id && pack[i].total > 0
  }

  /** The place of an id in the pack, or its length. */
  function GridOf(pack: seq<Grid>, id: nat): (i: nat)
    ensures i <= |pack|
    ensures i < |pack| ==> pack[i].id == id
    ensures forall j :: 0 <= j < i ==> pack[j].id != id
  {
    if pack == [] then 0 else if pack[0].id == id then 0 else GridOf(pack[1..], id) + 1
  }

  function OfferOf(offers: seq<Offer>, id: nat): (i: nat)
    ensures i <= |offers|
    ensures i < |offers| ==> offers[i].id == id
    ensures forall j :: 0 <= j < i ==> offers[j].id != id
  {
    if offers == [] then 0 else if offers[0].id == id then 0 else OfferOf(offers[1..], id) + 1
  }

  predicate Known(t: Tables, id: nat) {
    id in t.items || id in t.heroes || id in t.equips
  }

  function AddToPack(t: Tables, pack: seq<Grid>, id: nat, num: int): seq<Grid> {
    if !Known(t, id) then pack
    else
      var i := GridOf(pack, id);
      if i == |pack| then pack + [Grid(id, num)]
      else
        var total := ToInt32(pack[i].total + num);
        pack[i := Grid(id, if total <= 0 then 0 else total)]
  }

  function AddGold(p: Player, num: int): Player { p.(gold := ToInt32(p.gold + num)) }

  function Pay(p: Player, unit: int, cost: int): Player {
    if unit == GOLD then p.(gold := ToInt32(p.gold - cost))
    else if unit == SOUL then p.(soul := ToInt32(p.soul - cost))
    else p
  }

  /** What the player has of a currency. */
  function Balance(p: Player, unit: int): int {
    if unit == GOLD then p.gold else if unit == SOUL then p.soul else 0
  }

  // ---------------------------------------------------------------- the shops

  function BuyHeroStep(t: Tables, p: Player, id: nat, unit: int): Result {
    if id !in t.heroes || !t.heroes[id].shown then Reply(InvalidParameter, p)
    else if unit != GOLD && unit != SOUL then Reply(InvalidParameter, p)
    else if Balance(p, unit) < t.heroes[id].price then Reply(NotEnoughMoney, p)
    else if id in p.heroes then Reply(HeroExists, p)
    else Reply(OK, Pay(p.(heroes := p.heroes + [id]), unit, t.heroes[id].price))
  }

  function ItemPrice(row: ItemRow, unit: int): int { if unit == GOLD then row.gold else row.soul }

  function BuyItemStep(t: Tables, p: Player, id: nat, unit: int): Result {
    if id !in t.items then Reply(InvalidParameter, p)
    else if unit != GOLD && unit != SOUL then Reply(InvalidParameter, p)
    else if Balance(p, unit) < ItemPrice(t.items[id], unit) then Reply(NotEnoughMoney, p)
    else Reply(OK, Pay(p.(pack := AddToPack(t, p.pack, id, 1)), unit, ItemPrice(t.items[id], unit)))
  }

  /** Ownership is checked before the money, the currency last. */
  function BuyEquipStep(t: Tables, p: Player, id: nat, unit: int): Result {
    if id !in t.equips || !t.equips[id].shown then Reply(InvalidParameter, p)
    else if InPack(p.pack, id) then Reply(EquipExists, p)
    else if unit != GOLD then Reply(InvalidParameter, p)
    else if p.gold < t.equips[id].price then Reply(NotEnoughMoney, p)
    else Reply(OK, Pay(p.(pack := AddToPack(t, p.pack, id, 1)), GOLD, t.equips[id].price))
  }

  /** The black market: the money is checked before ownership, and the offer is marked as taken. */
  function BlackBuyStep(t: Tables, p: Player, id: nat, unit: int): Result {
    var at := OfferOf(p.offers, id);
    if id !in t.equips || !t.equips[id].shown then Reply(InvalidParameter, p)
    else if at == |p.offers| || p.offers[at].deal then Reply(InvalidParameter, p)
    else if unit != GOLD then Reply(InvalidParameter, p)
    else if p.gold < t.equips[id].price then Reply(NotEnoughMoney, p)
    else if InPack(p.pack, id) then Reply(EquipExists, p)
    else
      Reply(OK, Pay(p.(offers := p.offers[at := Offer(id, true)], pack := AddToPack(t, p.pack, id, 1)),
                    GOLD, t.equips[id].price))
  }

  // ---------------------------------------------------------------- treasure boxes

  /** A number of an empty range is a panic. */
  datatype Award = Got(id: nat) | Panic

  /** The last entry is never picked; a list of one panics unless `strict`. */
  function PickFrom(ids: seq<nat>, pick: nat, strict: bool): Award {
    if |ids| == 0 || (strict && |ids| == 1) then Got(0)
    else if |ids| == 1 then Panic
    else Got(ids[pick % (|ids| - 1)])
  }

  /** randRoll over two options: the first with `percent` of 99. */
  predicate First(percent: nat, draw: Draw) { draw.roll % 99 < percent }

  function HeroAward(t: Tables, box: nat, draw: Draw): Award {
    if box == GRAY_BOX then PickFrom(if First(60, draw) then t.heroSets.advance else t.heroSets.normal, draw.pick, false)
    else if box == BLUE_BOX then PickFrom(if First(70, draw) then t.heroSets.rare else t.heroSets.advance, draw.pick, false)
    else PickFrom(if First(50, draw) then t.heroSets.rare else t.heroSets.advance, draw.pick, true)
  }

  function EquipAward(t: Tables, box: nat, draw: Draw): Award {
    if box == GRAY_BOX then PickFrom(if First(60, draw) then t.equipSets.advance else t.equipSets.normal, draw.pick, false)
    else if box == BLUE_BOX then PickFrom(if First(70, draw) then t.equipSets.rare else t.equipSets.advance, draw.pick, true)
    else PickFrom(if First(50, draw) then t.equipSets.rare else t.equipSets.advance, draw.pick, true)
  }

  predicate IsBox(id: nat) { id == GRAY_BOX || id == BLUE_BOX || id == GOLD_BOX }

  function AwardHero(t: Tables, p: Player, hero: nat): Result {
    if hero !in p.heroes then Reply(OK, p.(heroes := p.heroes + [hero]))
    else if hero in t.heroes then Reply(OK, AddGold(p, t.heroes[hero].refund))
    else Crash
  }

  function AwardEquip(t: Tables, p: Player, equip: nat): Result {
    if !InPack(p.pack, equip) then Reply(OK, p.(pack := AddToPack(t, p.pack, equip, 1)))
    else if equip in t.equips then Reply(OK, AddGold(p, t.equips[equip].refund))
    else Crash
  }

  function AwardAll(t: Tables, p: Player, hero: nat, first: nat, second: nat): Result {
    var r1 := AwardHero(t, p, hero);
    if r1.Crash? then Crash
    else
      var r2 := AwardEquip(t, r1.player, first);
      if r2.Crash? then Crash else AwardEquip(t, r2.player, second)
  }

  function OpenBoxStep(t: Tables, p: Player, id: nat, draws: Draws): Result {
    if id !in t.items || !InPack(p.pack, id) then Reply(InvalidParameter, p)
    else if !IsBox(id) then Crash
    else
      var hero, first, second :=
        HeroAward(t, id, draws.hero), EquipAward(t, id, draws.first), EquipAward(t, id, draws.second);
      if hero == Panic || first == Panic || second == Panic then Crash
      else AwardAll(t, p.(pack := AddToPack(t, p.pack, id, -1)), hero.id, first.id, second.id)
  }

  // ---------------------------------------------------------------- the black market's stock

  /** The equips that may be offered, in the order the table is walked. */
  function Eligible(t: Tables, pack: seq<Grid>, order: seq<nat>): (ids: seq<nat>)
    ensures forall id :: id in ids <==> id in order && id in t.equips && t.equips[id].shown && !InPack(pack, id)
  {
    if order == [] then []
    else
      var init, id := order[..|order| - 1], order[|order| - 1];
      if id in t.equips && t.equips[id].shown && !InPack(pack, id) then Eligible(t, pack, init) + [id]
      else Eligible(t, pack, init)
  }

  function Without(ids: seq<nat>, id: nat): (rest: seq<nat>)
    ensures forall x :: x in rest <==> x in ids && x != id
  {
    if ids == [] then []
    else
      var init, last := ids[..|ids| - 1], ids[|ids| - 1];
      if last == id then Without(init, id) else Without(init, id) + [last]
  }

  /** Up to `n` picks, each taken off the list. */
  function Choose(ids: seq<nat>, picks: seq<nat>, n: nat): (chosen: seq<nat>)
    ensures |chosen| <= n
    decreases n
  {
    if n == 0 || ids == [] then []
    else
      var pick := if picks == [] then 0 else picks[0];
      var id := ids[pick % |ids|];
      [id] + Choose(Without(ids, id), if picks == [] then [] else picks[1..], n - 1)
  }

  function Fresh(ids: seq<nat>): (offers: seq<Offer>)
    ensures |offers| == |ids|
  {
    seq(|ids|, i requires 0 <= i < |ids| => Offer(ids[i], false))
  }

  function RestockStep(t: Tables, p: Player, order: seq<nat>, picks: seq<nat>): Player {
    p.(offers := Fresh(Choose(Eligible(t, p.pack, order), picks, OFFERS)))
  }

  function Step(t: Tables, p: Player, op: Operation): Result {
    match op
    case BuyHero(param, unit) => BuyHeroStep(t, p, ToUint32(param), unit)
    case BuyItem(param, unit) => BuyItemStep(t, p, ToUint32(param), unit)
    case BuyEquip(param, unit) => BuyEquipStep(t, p, ToUint32(param), unit)
    case BlackBuy(param, unit) => BlackBuyStep(t, p, ToUint32(param), unit)
    case OpenBox(param, draws) => OpenBoxStep(t, p, ToUint32(param), draws)
    case Restock(order, picks) => Reply(OK, RestockStep(t, p, order, picks))
  }

  // ---------------------------------------------------------------- sound tables and players

  ghost predicate RowOk(row: Row) { 0 <= row.price <= INT32_MAX && 0 <= row.refund <= INT32_MAX }

  ghost predicate SetsOk(sets: Rarities, all: map<nat, Row>) {
    && |sets.normal| > 1 && |sets.advance| > 1 && |sets.rare| > 1
    && forall id :: id in sets.normal || id in sets.advance || id in sets.rare ==> id in all
  }

  ghost predicate TablesOk(t: Tables) {
    && (forall id :: id in t.heroes ==> RowOk(t.heroes[id]) && id !in t.items && id !in t.equips)
    && (forall id :: id in t.equips ==> RowOk(t.equips[id]) && id !in t.items)
    && (forall id :: id in t.items ==> 0 <= t.items[id].gold <= INT32_MAX && 0 <= t.items[id].soul <= INT32_MAX)
    && SetsOk(t.heroSets, t.heroes) && SetsOk(t.equipSets, t.equips)
  }

  /** Each id has one place in the pack, no total is negative, each equip is owned at most once. */
  ghost predicate PackOk(t: Tables, pack: seq<Grid>) {
    && (forall i, j :: 0 <= i < j < |pack| ==> pack[i].id != pack[j].id)
    && (forall i :: 0 <= i < |pack| ==> 0 <= pack[i].total <= INT32_MAX)
    && (forall i :: 0 <= i < |pack| && pack[i].id in t.equips ==> pack[i].total <= 1)
  }

  ghost predicate OffersOk(offers: seq<Offer>) {
    |offers| <= 3 && forall i, j :: 0 <= i < j < |offers| ==> offers[i].id != offers[j].id
  }

  ghost predicate PlayerOk(t: Tables, p: Player) {
    && 0 <= p.gold <= INT32_MAX && 0 <= p.soul <= INT32_MAX
    && PackOk(t, p.pack) && Distinct(p.heroes) && OffersOk(p.offers)
  }

  /** How many of an id the player holds. */
  function Held(pack: seq<Grid>, id: nat): int {
    var i := GridOf(pack, id);
    if i == |pack| then 0 else pack[i].total
  }

  lemma InPackIsHeld(t: Tables, pack: seq<Grid>, id: nat)
    requires PackOk(t, pack)
    ensures InPack(pack, id) <==> Held(pack, id) > 0
    ensures id in t.equips ==> 0 <= Held(pack, id) <= 1
    ensures 0 <= Held(pack, id) <= INT32_MAX
  {
  }

  /** Adding changes the count of that id alone. */
  lemma AddChangesOne(t: Tables, pack: seq<Grid>, id: nat, num: int)
    requires PackOk(t, pack) && Known(t, id) && 0 <= Held(pack, id) + num <= INT32_MAX
    requires id in t.equips ==> Held(pack, id) + num <= 1
    ensures PackOk(t, AddToPack(t, pack, id, num))
    ensures forall x: nat :: Held(AddToPack(t, pack, id, num), x) == Held(pack, x) + (if x == id then num else 0)
  {
    hide PackOk, GridOf;
    AddKeepsPack(t, pack, id, num);
    var pack' := AddToPack(t, pack, id, num);
    var i := GridOf(pack, id);
    forall x: nat ensures Held(pack', x) == Held(pack, x) + (if x == id then num else 0) {
      var k := GridOf(pack, x);
      if x == id {
        GridIs(pack', x, i);
      } else if k < |pack| {
        GridIs(pack', x, k);
      }
    }
  }

  lemma AddKeepsPack(t: Tables, pack: seq<Grid>, id: nat, num: int)
    requires PackOk(t, pack) && Known(t, id) && 0 <= Held(pack, id) + num <= INT32_MAX
    requires id in t.equips ==> Held(pack, id) + num <= 1
    ensures PackOk(t, AddToPack(t, pack, id, num))
    ensures GridOf(pack, id) < |pack| ==> AddToPack(t, pack, id, num) == pack[GridOf(pack, id) := Grid(id, Held(pack, id) + num)]
    ensures GridOf(pack, id) == |pack| ==> AddToPack(t, pack, id, num) == pack + [Grid(id, num)]
  {
    hide GridOf;
  }

  lemma GridIs(pack: seq<Grid>, id: nat, i: nat)
    requires i < |pack| && pack[i].id == id && forall j :: 0 <= j < i ==> pack[j].id != id
    ensures GridOf(pack, id) == i
  {
  }

  // ---------------------------------------------------------------- what an operation costs and brings

  /** The award of a draw from sound tables. */
  lemma AwardsAreKnown(t: Tables, box: nat, draw: Draw)
    requires TablesOk(t)
    ensures HeroAward(t, box, draw).Got? && HeroAward(t, box, draw).id in t.heroes
    ensures EquipAward(t, box, draw).Got? && EquipAward(t, box, draw).id in t.equips
  {
    hide First, RowOk;
  }

  /** The box operation goes ahead. */
  predicate Opens(t: Tables, p: Player, op: Operation) {
    op.OpenBox? && ToUint32(op.param) in t.items && InPack(p.pack, ToUint32(op.param)) && IsBox(ToUint32(op.param))
  }

  /** The purchase is allowed, as the shop promises it. */
  predicate Allowed(t: Tables, p: Player, op: Operation) {
    match op
    case BuyHero(param, unit) =>
      var id := ToUint32(param);
      && id in t.heroes && t.heroes[id].shown && (unit == 1 || unit == 2)
      && t.heroes[id].price <= (if unit == 1 then p.gold else p.soul) && id !in p.heroes
    case BuyItem(param, unit) =>
      var id := ToUint32(param);
      && id in t.items && (unit == 1 || unit == 2)
      && (if unit == 1 then t.items[id].gold <= p.gold else t.items[id].soul <= p.soul)
    case BuyEquip(param, unit) =>
      var id := ToUint32(param);
      id in t.equips && t.equips[id].shown && unit == 1 && t.equips[id].price <= p.gold && Held(p.pack, id) == 0
    case BlackBuy(param, unit) =>
      var id := ToUint32(param);
      && id in t.equips && t.equips[id].shown && unit == 1 && t.equips[id].price <= p.gold && Held(p.pack, id) == 0
      && Offer(id, false) in p.offers
    case OpenBox(param, _) => Opens(t, p, op)
    case Restock(_, _) => true
  }

  function Price(t: Tables, op: Operation): int {
    match op
    case BuyHero(param, unit) => if ToUint32(param) in t.heroes then t.heroes[ToUint32(param)].price else 0
    case BuyItem(param, unit) =>
      if ToUint32(param) in t.items then
        var row := t.items[ToUint32(param)];
        if unit == 1 then row.gold else row.soul
      else 0
    case BuyEquip(param, unit) => if ToUint32(param) in t.equips then t.equips[ToUint32(param)].price else 0
    case BlackBuy(param, unit) => if ToUint32(param) in t.equips then t.equips[ToUint32(param)].price else 0
    case _ => 0
  }

  function Unit(op: Operation): int {
    match op
    case BuyHero(_, unit) => unit
    case BuyItem(_, unit) => unit
    case BuyEquip(_, unit) => unit
    case BlackBuy(_, unit) => unit
    case _ => 0
  }

  /** What an operation costs in a currency; nothing when it is not allowed. */
  function PaidIn(t: Tables, p: Player, op: Operation, unit: int): int {
    if Allowed(t, p, op) && Unit(op) == unit then Price(t, op) else 0
  }

  function RefundOf(rows: map<nat, Row>, id: nat): int { if id in rows then rows[id].refund else 0 }

  /** The hero and equips of a box. */
  function HeroOf(t: Tables, op: Operation): nat
    requires op.OpenBox?
  {
    var award := HeroAward(t, ToUint32(op.param), op.draws.hero);
    if award.Got? then award.id else 0
  }

  function EquipsOf(t: Tables, op: Operation): (nat, nat)
    requires op.OpenBox?
  {
    var first, second := EquipAward(t, ToUint32(op.param), op.draws.first), EquipAward(t, ToUint32(op.param), op.draws.second);
    (if first.Got? then first.id else 0, if second.Got? then second.id else 0)
  }

  /** A box pays for what the player has already: the hero, each equip, and the second of two equal ones. */
  function Refunds(t: Tables, p: Player, op: Operation): int {
    if !Opens(t, p, op) then 0
    else
      var hero, (first, second) := HeroOf(t, op), EquipsOf(t, op);
      (if hero in p.heroes then RefundOf(t.heroes, hero) else 0)
      + (if Held(p.pack, first) > 0 then RefundOf(t.equips, first) else 0)
      + (if Held(p.pack, second) > 0 || second == first then RefundOf(t.equips, second) else 0)
  }

  /** By how much the count of an id in the pack changes. */
  function Gains(t: Tables, p: Player, op: Operation, id: nat): int {
    if !Allowed(t, p, op) then 0
    else
      match op
      case BuyItem(param, _) => if id == ToUint32(param) then 1 else 0
      case BuyEquip(param, _) => if id == ToUint32(param) then 1 else 0
      case BlackBuy(param, _) => if id == ToUint32(param) then 1 else 0
      case OpenBox(param, _) =>
        var (first, second) := EquipsOf(t, op);
        if id == ToUint32(param) then -1
        else if (id == first || id == second) && Held(p.pack, id) == 0 then 1 else 0
      case _ => 0
  }

  /** The hero an operation brings. */
  function NewHero(t: Tables, p: Player, op: Operation): seq<nat> {
    if !Allowed(t, p, op) then []
    else if op.BuyHero? then [ToUint32(op.param)]
    else if op.OpenBox? && HeroOf(t, op) !in p.heroes then [HeroOf(t, op)]
    else []
  }

  /** No 32-bit number of the player overflows. */
  predicate Fits(t: Tables, p: Player, op: Operation) {
    && p.gold + Refunds(t, p, op) <= INT32_MAX
    && (op.BuyItem? ==> Held(p.pack, ToUint32(op.param)) < INT32_MAX)
  }

  /** What an operation that does not crash does. */
  ghost predicate DoneAsPromised(t: Tables, p: Player, op: Operation, r: Result) {
    && r.Reply? && PlayerOk(t, r.player)
    && (r.code == OK <==> Allowed(t, p, op))
    && (r.code != OK ==> r.player == p)
    && r.player.gold == p.gold + Refunds(t, p, op) - PaidIn(t, p, op, 1)
    && r.player.soul == p.soul - PaidIn(t, p, op, 2)
    && r.player.heroes == p.heroes + NewHero(t, p, op)
    && (forall id: nat :: Held(r.player.pack, id) == Held(p.pack, id) + Gains(t, p, op, id))
  }

  lemma PaysExactly(p: Player, unit: int, cost: int)
    requires 0 <= p.gold <= INT32_MAX && 0 <= p.soul <= INT32_MAX
    requires unit == GOLD || unit == SOUL
    requires 0 <= cost <= Balance(p, unit)
    ensures var p' := Pay(p, unit, cost);
      && p'.gold == p.gold - (if unit == GOLD then cost else 0)
      && p'.soul == p.soul - (if unit == SOUL then cost else 0)
      && 0 <= p'.gold <= INT32_MAX && 0 <= p'.soul <= INT32_MAX
      && (p'.pack, p'.heroes, p'.offers) == (p.pack, p.heroes, p.offers)
  {
  }

  lemma BuyHeroIsOk(t: Tables, p: Player, op: Operation)
    requires TablesOk(t) && PlayerOk(t, p) && op.BuyHero?
    ensures DoneAsPromised(t, p, op, Step(t, p, op))
  {
    hide PackOk, Held, AddToPack, ToUint32, SetsOk, Distinct, Pay;
    if Allowed(t, p, op) {
      PaysExactly(p.(heroes := p.heroes + [ToUint32(op.param)]), op.unit, Price(t, op));
      DistinctAppend(p.heroes, ToUint32(op.param));
    }
  }

  lemma BuyItemIsOk(t: Tables, p: Player, op: Operation)
    requires TablesOk(t) && PlayerOk(t, p) && Fits(t, p, op) && op.BuyItem?
    ensures DoneAsPromised(t, p, op, Step(t, p, op))
  {
    hide PackOk, Held, AddToPack, ToUint32, SetsOk, Distinct, Pay;
    InPackIsHeld(t, p.pack, ToUint32(op.param));
    if Allowed(t, p, op) {
      AddChangesOne(t, p.pack, ToUint32(op.param), 1);
      PaysExactly(p.(pack := AddToPack(t, p.pack, ToUint32(op.param), 1)), op.unit, Price(t, op));
    }
  }

  lemma BuyEquipIsOk(t: Tables, p: Player, op: Operation)
    requires TablesOk(t) && PlayerOk(t, p) && op.BuyEquip?
    ensures DoneAsPromised(t, p, op, Step(t, p, op))
  {
    hide PackOk, Held, AddToPack, ToUint32, SetsOk, Distinct, Pay, InPack;
    InPackIsHeld(t, p.pack, ToUint32(op.param));
    if Allowed(t, p, op) {
      AddChangesOne(t, p.pack, ToUint32(op.param), 1);
      PaysExactly(p.(pack := AddToPack(t, p.pack, ToUint32(op.param), 1)), GOLD, Price(t, op));
    }
  }

  lemma OfferIsFound(offers: seq<Offer>, id: nat)
    requires OffersOk(offers)
    ensures Offer(id, false) in offers <==> OfferOf(offers, id) < |offers| && !offers[OfferOf(offers, id)].deal
    ensures OfferOf(offers, id) < |offers| ==> OffersOk(offers[OfferOf(offers, id) := Offer(id, true)])
  {
  }

  lemma BlackBuyIsOk(t: Tables, p: Player, op: Operation)
    requires TablesOk(t) && PlayerOk(t, p) && op.BlackBuy?
    ensures DoneAsPromised(t, p, op, Step(t, p, op))
  {
    hide PackOk, Held, AddToPack, ToUint32, SetsOk, Distinct, Pay, InPack, OffersOk, OfferOf;
    var id := ToUint32(op.param);
    InPackIsHeld(t, p.pack, id);
    OfferIsFound(p.offers, id);
    if Allowed(t, p, op) {
      AddChangesOne(t, p.pack, id, 1);
      PaysExactly(p.(offers := p.offers[OfferOf(p.offers, id) := Offer(id, true)], pack := AddToPack(t, p.pack, id, 1)),
                  GOLD, Price(t, op));
    }
  }

  lemma HeroAwarded(t: Tables, p: Player, hero: nat)
    requires PlayerOk(t, p) && hero in t.heroes && RowOk(t.heroes[hero])
    requires p.gold + (if hero in p.heroes then t.heroes[hero].refund else 0) <= INT32_MAX
    ensures var r := AwardHero(t, p, hero);
      && r.Reply? && r.code == OK && PlayerOk(t, r.player)
      && r.player.gold == p.gold + (if hero in p.heroes then t.heroes[hero].refund else 0)
      && r.player.heroes == p.heroes + (if hero in p.heroes then [] else [hero])
      && (r.player.soul, r.player.pack, r.player.offers) == (p.soul, p.pack, p.offers)
  {
    hide PackOk, OffersOk, Distinct;
    if hero !in p.heroes { DistinctAppend(p.heroes, hero); }
  }

  lemma EquipAwarded(t: Tables, p: Player, equip: nat)
    requires PlayerOk(t, p) && equip in t.equips && RowOk(t.equips[equip])
    requires p.gold + (if Held(p.pack, equip) > 0 then t.equips[equip].refund else 0) <= INT32_MAX
    ensures var r := AwardEquip(t, p, equip);
      && r.Reply? && r.code == OK && PlayerOk(t, r.player)
      && r.player.gold == p.gold + (if Held(p.pack, equip) > 0 then t.equips[equip].refund else 0)
      && (forall id: nat :: Held(r.player.pack, id) == Held(p.pack, id)
                            + (if id == equip && Held(p.pack, equip) == 0 then 1 else 0))
      && (r.player.soul, r.player.heroes, r.player.offers) == (p.soul, p.heroes, p.offers)
  {
    hide PackOk, OffersOk, Distinct, Held, InPack, AddToPack;
    InPackIsHeld(t, p.pack, equip);
    if Held(p.pack, equip) == 0 { AddChangesOne(t, p.pack, equip, 1); }
  }

  /** The box leaves the pack, then its three awards are given in turn. */
  lemma OpenBoxIsOk(t: Tables, p: Player, op: Operation)
    requires TablesOk(t) && PlayerOk(t, p) && Fits(t, p, op) && Opens(t, p, op)
    ensures DoneAsPromised(t, p, op, Step(t, p, op))
  {
    hide PackOk, OffersOk, Distinct, Held, InPack, AddToPack, ToUint32, SetsOk,
      HeroAward, EquipAward, AwardHero, AwardEquip, IsBox, PlayerOk;
    var id := ToUint32(op.param);
    AwardsAreKnown(t, id, op.draws.hero);
    AwardsAreKnown(t, id, op.draws.first);
    AwardsAreKnown(t, id, op.draws.second);
    var hero := HeroOf(t, op);
    var (first, second) := EquipsOf(t, op);
    var p1 := p.(pack := AddToPack(t, p.pack, id, -1));
    BoxLeaves(t, p, id);
    HeroAwarded(t, p1, hero);
    var p2 := AwardHero(t, p1, hero).player;
    EquipAwarded(t, p2, first);
    var p3 := AwardEquip(t, p2, first).player;
    EquipAwarded(t, p3, second);
    EquipsAtMostOnce(t, p, first);
    EquipsAtMostOnce(t, p, second);
  }

  lemma EquipsAtMostOnce(t: Tables, p: Player, equip: nat)
    requires PlayerOk(t, p) && equip in t.equips
    ensures 0 <= Held(p.pack, equip) <= 1
  {
  }

  lemma BoxLeaves(t: Tables, p: Player, id: nat)
    requires PlayerOk(t, p) && id in t.items && id !in t.equips && InPack(p.pack, id)
    ensures var p1 := p.(pack := AddToPack(t, p.pack, id, -1));
      && PlayerOk(t, p1)
      && forall x: nat :: Held(p1.pack, x) == Held(p.pack, x) - (if x == id then 1 else 0)
  {
    hide PackOk, OffersOk, Distinct, Held, InPack, AddToPack;
    InPackIsHeld(t, p.pack, id);
    AddChangesOne(t, p.pack, id, -1);
  }

  // ---------------------------------------------------------------- restocking

  lemma {:induction false} WithoutOne(ids: seq<nat>, id: nat)
    requires Distinct(ids)
    ensures Distinct(Without(ids, id))
    ensures |Without(ids, id)| == if id in ids then |ids| - 1 else |ids|
  {
    if ids != [] {
      var init, last := ids[..|ids| - 1], ids[|ids| - 1];
      assert ids == init + [last];
      WithoutOne(init, id);
      if last == id {
        assert id !in init;
      } else {
        DistinctAppend(Without(init, id), last);
      }
    }
  }

  lemma {:induction false} ChoosesDistinct(ids: seq<nat>, picks: seq<nat>, n: nat)
    requires Distinct(ids)
    ensures var chosen := Choose(ids, picks, n);
      && |chosen| == (if n < |ids| then n else |ids|) && Distinct(chosen)
      && forall id :: id in chosen ==> id in ids
    decreases n
  {
    if n > 0 && ids != [] {
      var pick := if picks == [] then 0 else picks[0];
      var id := ids[pick % |ids|];
      WithoutOne(ids, id);
      var more := if picks == [] then [] else picks[1..];
      ChoosesDistinct(Without(ids, id), more, n - 1);
    }
  }

  lemma {:induction false} EligibleAreDistinct(t: Tables, pack: seq<Grid>, order: seq<nat>)
    requires Distinct(order)
    ensures Distinct(Eligible(t, pack, order))
  {
    if order != [] {
      var init, id := order[..|order| - 1], order[|order| - 1];
      assert order == init + [id];
      EligibleAreDistinct(t, pack, init);
      assert id !in init;
      DistinctAppend(Eligible(t, pack, init), id);
    }
  }

  /** The shown equips that the player does not own. */
  ghost function Buyable(t: Tables, pack: seq<Grid>): set<nat> {
    set id | id in t.equips && t.equips[id].shown && !InPack(pack, id)
  }

  /**
   * Whatever the order in which the table is walked and the random picks, a restock offers
   * min(3, eligible) different shown equips that the player does not own, all still to be sold.
   */
  lemma RestockOffersFresh(t: Tables, p: Player, order: seq<nat>, picks: seq<nat>)
    requires Distinct(order) && forall id :: id in order <==> id in t.equips
    ensures var offers := RestockStep(t, p, order, picks).offers;
      var n := |Buyable(t, p.pack)|;
      && |offers| == (if 3 < n then 3 else n) && OffersOk(offers)
      && forall offer :: offer in offers ==> !offer.deal && offer.id in Buyable(t, p.pack)
  {
    hide InPack, Choose, Eligible;
    var ids := Eligible(t, p.pack, order);
    EligibleAreDistinct(t, p.pack, order);
    forall id | id in ids ensures id in Buyable(t, p.pack) { }
    DistinctFits(ids, Buyable(t, p.pack));
    ChoosesDistinct(ids, picks, OFFERS);
  }

  lemma RestockIsOk(t: Tables, p: Player, op: Operation)
    requires PlayerOk(t, p) && op.Restock?
    requires Distinct(op.order) && forall id :: id in op.order <==> id in t.equips
    ensures DoneAsPromised(t, p, op, Step(t, p, op))
  {
    hide PackOk, OffersOk, Held;
    RestockOffersFresh(t, p, op.order, op.picks);
  }

  // ---------------------------------------------------------------- every operation

  /** Restocking walks the equip table in some order. */
  ghost predicate OrderOk(t: Tables, op: Operation) {
    op.Restock? ==> Distinct(op.order) && forall id :: id in op.order <==> id in t.equips
  }

  lemma NotOpened(t: Tables, p: Player, op: Operation)
    requires PlayerOk(t, p) && op.OpenBox? && !Opens(t, p, op)
    ensures Step(t, p, op).Crash? <==> ToUint32(op.param) in t.items && InPack(p.pack, ToUint32(op.param))
    ensures Step(t, p, op).Reply? ==> DoneAsPromised(t, p, op, Step(t, p, op))
  {
    hide PackOk, OffersOk, Held, ToUint32, InPack, Distinct;
  }

  /** With sound tables only opening an owned item that is not one of the three boxes crashes. */
  lemma CrashesExactly(t: Tables, p: Player, op: Operation)
    requires TablesOk(t) && PlayerOk(t, p) && Fits(t, p, op) && OrderOk(t, op)
    ensures Step(t, p, op).Crash?
      <==> (&& op.OpenBox? && ToUint32(op.param) in t.items && InPack(p.pack, ToUint32(op.param))
            && ToUint32(op.param) !in [9059000, 9059001, 9059002])
    ensures Step(t, p, op).Reply? ==> DoneAsPromised(t, p, op, Step(t, p, op))
  {
    hide TablesOk, PlayerOk, Fits, Step, InPack, ToUint32;
    match op
    case BuyHero(_, _) => BuyHeroIsOk(t, p, op);
    case BuyItem(_, _) => BuyItemIsOk(t, p, op);
    case BuyEquip(_, _) => BuyEquipIsOk(t, p, op);
    case BlackBuy(_, _) => BlackBuyIsOk(t, p, op);
    case OpenBox(_, _) => if Opens(t, p, op) { OpenBoxIsOk(t, p, op); } else { NotOpened(t, p, op); }
    case Restock(_, _) => RestockIsOk(t, p, op);
  }

  /** The request names nothing that is for sale, or no currency it is sold for. */
  predicate Invalid(t: Tables, p: Player, op: Operation) {
    match op
    case BuyHero(param, unit) =>
      var id := ToUint32(param);
      id !in t.heroes || !t.heroes[id].shown || (unit != 1 && unit != 2)
    case BuyItem(param, unit) => ToUint32(param) !in t.items || (unit != 1 && unit != 2)
    case BuyEquip(param, unit) =>
      var id := ToUint32(param);
      id !in t.equips || !t.equips[id].shown || (Held(p.pack, id) == 0 && unit != 1)
    case BlackBuy(param, unit) =>
      var id := ToUint32(param);
      id !in t.equips || !t.equips[id].shown || Offer(id, false) !in p.offers || unit != 1
    case OpenBox(param, _) => ToUint32(param) !in t.items || Held(p.pack, ToUint32(param)) == 0
    case Restock(_, _) => false
  }

  /** The price exceeds what the player has of the currency. */
  predicate TooPoor(t: Tables, p: Player, op: Operation) {
    Price(t, op) > if Unit(op) == 2 then p.soul else p.gold
  }

  /** Why an operation is refused: an equip owned already comes before the money, but not in the black market. */
  lemma RefusedExactly(t: Tables, p: Player, op: Operation)
    requires PlayerOk(t, p) && Step(t, p, op).Reply?
    ensures var code := Step(t, p, op).code;
      && (code == InvalidParameter <==> Invalid(t, p, op))
      && (code == HeroExists <==>
            op.BuyHero? && !Invalid(t, p, op) && !TooPoor(t, p, op) && ToUint32(op.param) in p.heroes)
      && (code == EquipExists <==>
            && !Invalid(t, p, op) && (op.BuyEquip? || (op.BlackBuy? && !TooPoor(t, p, op)))
            && Held(p.pack, ToUint32(op.param)) > 0)
      && (code == NotEnoughMoney <==>
            && !Invalid(t, p, op) && !op.OpenBox? && !op.Restock? && TooPoor(t, p, op)
            && (op.BuyEquip? ==> Held(p.pack, ToUint32(op.param)) == 0))
  {
    hide PackOk, Held, AddToPack, ToUint32, Distinct, Pay, InPack, OffersOk, OfferOf, AwardAll, HeroAward, EquipAward;
    match op
    case BuyHero(_, _) =>
    case BuyItem(_, _) =>
    case BuyEquip(param, _) => InPackIsHeld(t, p.pack, ToUint32(param));
    case BlackBuy(param, _) =>
      InPackIsHeld(t, p.pack, ToUint32(param));
      OfferIsFound(p.offers, ToUint32(param));
    case OpenBox(param, _) =>
      InPackIsHeld(t, p.pack, ToUint32(param));
      if ToUint32(param) in t.items && InPack(p.pack, ToUint32(param)) { AwardsAreOK(t, p, op); }
    case Restock(_, _) =>
  }

  lemma AwardsAreOK(t: Tables, p: Player, op: Operation)
    requires op.OpenBox? && ToUint32(op.param) in t.items && InPack(p.pack, ToUint32(op.param)) && Step(t, p, op).Reply?
    ensures Step(t, p, op).code == OK
  {
    hide InPack, HeroAward, EquipAward, AddToPack, ToUint32;
  }

  // ---------------------------------------------------------------- whole runs

  function Run(t: Tables, p: Player, ops: seq<Operation>): Result {
    if ops == [] then Reply(OK, p)
    else
      var before := Run(t, p, ops[..|ops| - 1]);
      if before.Crash? then Crash else Step(t, before.player, ops[|ops| - 1])
  }

  ghost predicate RunFits(t: Tables, p: Player, ops: seq<Operation>) {
    forall k :: 0 <= k < |ops| ==>
      OrderOk(t, ops[k]) && (Run(t, p, ops[..k]).Reply? ==> Fits(t, Run(t, p, ops[..k]).player, ops[k]))
  }

  /** A shop of two heroes and two equips in boxes, and one item for one gold that is no box. */
  function SmallShop(): Tables {
    var row := Row(1, 0, true);
    Tables(map[1 := row, 2 := row], map[5 := ItemRow(1, 1)], map[3 := row, 4 := row],
           Rarities([1, 2], [1, 2], [1, 2]), Rarities([3, 4], [3, 4], [3, 4]))
  }

  /** With sound tables a player of one gold who buys that item and then opens it is a panic. */
  lemma OpenedItemCrashes(draws: Draws)
    ensures var t, p := SmallShop(), Player(1, 0, [], [], []);
      && TablesOk(t) && PlayerOk(t, p)
      && Run(t, p, [BuyItem(5, GOLD)]) == Reply(OK, Player(0, 0, [Grid(5, 1)], [], []))
      && Run(t, p, [BuyItem(5, GOLD), OpenBox(5, draws)]) == Crash
  {
    hide TablesOk;
    SmallShopIsOk();
    var t, p, buy, open := SmallShop(), Player(1, 0, [], [], []), BuyItem(5, GOLD), OpenBox(5, draws);
    assert AddToPack(t, [], 5, 1) == [Grid(5, 1)];
    assert [buy][..0] == [] && [buy, open][..1] == [buy];
    assert Run(t, p, []) == Reply(OK, p);
    assert [Grid(5, 1)][0].total > 0;
  }

  lemma SmallShopIsOk()
    ensures TablesOk(SmallShop())
  {
  }

  /** Refunds less prices paid in gold, over a run; and prices paid in soul. */
  function GoldFlow(t: Tables, p: Player, ops: seq<Operation>): int {
    if ops == [] then 0
    else
      var init, op := ops[..|ops| - 1], ops[|ops| - 1];
      var before := Run(t, p, init);
      if before.Crash? then 0
      else GoldFlow(t, p, init) + Refunds(t, before.player, op) - PaidIn(t, before.player, op, 1)
  }

  function SoulFlow(t: Tables, p: Player, ops: seq<Operation>): int {
    if ops == [] then 0
    else
      var init, op := ops[..|ops| - 1], ops[|ops| - 1];
      var before := Run(t, p, init);
      if before.Crash? then 0
      else SoulFlow(t, p, init) - PaidIn(t, before.player, op, 2)
  }

  function ItemFlow(t: Tables, p: Player, ops: seq<Operation>, id: nat): int {
    if ops == [] then 0
    else
      var init, op := ops[..|ops| - 1], ops[|ops| - 1];
      var before := Run(t, p, init);
      if before.Crash? then 0 else ItemFlow(t, p, init, id) + Gains(t, before.player, op, id)
  }

  /** The heroes a run brings, in order. */
  function HeroFlow(t: Tables, p: Player, ops: seq<Operation>): seq<nat> {
    if ops == [] then []
    else
      var init, op := ops[..|ops| - 1], ops[|ops| - 1];
      var before := Run(t, p, init);
      if before.Crash? then [] else HeroFlow(t, p, init) + NewHero(t, before.player, op)
  }

  /**
   * Over every run: no balance goes negative, pack and hero ids stay different, no total goes
   * negative, no equip is owned twice, and balances, heroes and holdings change by exactly what
   * was paid, refunded, bought, opened and awarded.
   */
  lemma {:induction false} RunKeepsBooks(t: Tables, p: Player, ops: seq<Operation>)
    requires TablesOk(t) && PlayerOk(t, p) && RunFits(t, p, ops)
    ensures var r := Run(t, p, ops);
      r.Reply? ==>
        && PlayerOk(t, r.player)
        && r.player.gold == p.gold + GoldFlow(t, p, ops) && r.player.soul == p.soul + SoulFlow(t, p, ops)
        && r.player.heroes == p.heroes + HeroFlow(t, p, ops)
        && forall id: nat :: Held(r.player.pack, id) == Held(p.pack, id) + ItemFlow(t, p, ops, id)
  {
    hide TablesOk, PlayerOk, Fits, Step, Held, Allowed, Gains, Refunds, Price, Unit, OrderOk, NewHero;
    if ops != [] {
      var init, op := ops[..|ops| - 1], ops[|ops| - 1];
      PrefixFits(t, p, ops);
      RunKeepsBooks(t, p, init);
      if Run(t, p, init).Reply? {
        CrashesExactly(t, Run(t, p, init).player, op);
      }
    }
  }

  lemma PrefixFits(t: Tables, p: Player, ops: seq<Operation>)
    requires ops != [] && RunFits(t, p, ops)
    ensures var init, op := ops[..|ops| - 1], ops[|ops| - 1];
      RunFits(t, p, init) && OrderOk(t, op) && (Run(t, p, init).Reply? ==> Fits(t, Run(t, p, init).player, op))
  {
    hide Fits, Run, OrderOk;
    var n := |ops| - 1;
    var init := ops[..n];
    forall k | 0 <= k < n ensures init[..k] == ops[..k] && init[k] == ops[k] { }
    assert OrderOk(t, ops[n]);
  }

  // ---------------------------------------------------------------- each offer once

  /** How often a run buys an equip from the black market. */
  function BlackBought(t: Tables, p: Player, ops: seq<Operation>, id: nat): nat {
    if ops == [] then 0
    else
      var init, op := ops[..|ops| - 1], ops[|ops| - 1];
      var before := Run(t, p, init);
      if before.Crash? then 0
      else BlackBought(t, p, init, id) + (if BuysOffer(t, before.player, op, id) then 1 else 0)
  }

  predicate BuysOffer(t: Tables, p: Player, op: Operation, id: nat) {
    op.BlackBuy? && ToUint32(op.param) == id && Step(t, p, op).Reply? && Step(t, p, op).code == OK
  }

  predicate Taken(p: Player, id: nat) { Offer(id, true) in p.offers }

  lemma OffersChange(t: Tables, p: Player, op: Operation, id: nat)
    requires OffersOk(p.offers) && !op.Restock? && Step(t, p, op).Reply?
    ensures var p' := Step(t, p, op).player;
      && OffersOk(p'.offers)
      && (if BuysOffer(t, p, op, id)
          then !Taken(p, id) && Taken(p', id) else Taken(p', id) == Taken(p, id))
  {
    hide InPack, AddToPack, ToUint32, HeroAward, EquipAward, IsBox;
    if op.BlackBuy? {
      TakenChanges(p.offers, ToUint32(op.param), id);
    }
  }

  lemma TakenChanges(offers: seq<Offer>, id: nat, x: nat)
    requires OffersOk(offers)
    ensures var i := OfferOf(offers, id);
      i < |offers| && !offers[i].deal ==>
        var offers' := offers[i := Offer(id, true)];
        && OffersOk(offers') && Offer(id, true) !in offers && Offer(id, true) in offers'
        && (x != id ==> (Offer(x, true) in offers' <==> Offer(x, true) in offers))
  {
    var i := OfferOf(offers, id);
    if i < |offers| && !offers[i].deal {
      var offers' := offers[i := Offer(id, true)];
      assert offers'[i] == Offer(id, true);
      if Offer(x, true) in offers && x != id {
        var j :| 0 <= j < |offers| && offers[j] == Offer(x, true);
        assert offers'[j] == Offer(x, true);
      }
    }
  }

  /** Between two restocks an offer is bought at most once: exactly when it becomes taken. */
  lemma {:induction false} OfferBoughtOnce(t: Tables, p: Player, ops: seq<Operation>, id: nat)
    requires OffersOk(p.offers) && (forall k :: 0 <= k < |ops| ==> !ops[k].Restock?)
    requires Run(t, p, ops).Reply?
    ensures var p' := Run(t, p, ops).player;
      && OffersOk(p'.offers)
      && BlackBought(t, p, ops, id) == (if !Taken(p, id) && Taken(p', id) then 1 else 0)
      && (Taken(p, id) ==> Taken(p', id))
  {
    hide OffersOk, Step, Taken;
    if ops != [] {
      var init := ops[..|ops| - 1];
      OfferBoughtOnce(t, p, init, id);
      OffersChange(t, Run(t, p, init).player, ops[|ops| - 1], id);
    }
  }
}

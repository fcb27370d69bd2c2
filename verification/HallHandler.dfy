/** The hall operations as they update a player's record (game_server/message_handler.go, game_server/game.go). */
module HallHandler {
  import opened Basics
  import opened Hall

  class Record {
    var gold: int
    var soul: int
    var pack: seq<Grid>
    var heroes: seq<nat>
    var offers: seq<Offer>

    constructor (p: Player)
      ensures View() == p
    {
      gold, soul, pack, heroes, offers := p.gold, p.soul, p.pack, p.heroes, p.offers;
    }

    ghost function View(): Player
      reads this
    {
      Player(gold, soul, pack, heroes, offers)
    }

    method IsInPack(id: nat) returns (found: bool)
      ensures found == InPack(pack, id)
    {
      for i := 0 to |pack|
        invariant forall j :: 0 <= j < i ==> !(pack[j].id == id && pack[j].total > 0)
      {
        if id == pack[i].id && pack[i].total > 0 {
          return true;
        }
      }
      return false;
    }

    method AddItem(t: Tables, id: nat, num: int) returns (known: bool)
      modifies this`pack
      ensures pack == AddToPack(t, old(pack), id, num)
      ensures known == Known(t, id)
    {
      if id !in t.items && id !in t.heroes && id !in t.equips {
        return false;
      }
      for i := 0 to |pack|
        invariant pack == old(pack)
        invariant forall j :: 0 <= j < i ==> pack[j].id != id
      {
        if id == pack[i].id {
          GridIs(pack, id, i);
          var total := ToInt32(pack[i].total + num);
          pack := pack[i := Grid(id, if total <= 0 then 0 else total)];
          return true;
        }
      }
      pack := pack + [Grid(id, num)];
      return true;
    }

    /** addProperty, for the two currencies. */
    method AddProperty(unit: int, num: int)
      modifies this`gold, this`soul
      ensures View() == Pay(old(View()), unit, -num)
    {
      if unit == GOLD {
        gold := ToInt32(gold + num);
      } else if unit == SOUL {
        soul := ToInt32(soul + num);
      }
    }

    method HadHero(id: nat) returns (found: bool)
      ensures found == (id in heroes)
    {
      for i := 0 to |heroes|
        invariant forall j :: 0 <= j < i ==> heroes[j] != id
      {
        if id == heroes[i] {
          return true;
        }
      }
      return false;
    }

    method AddHero(id: nat)
      modifies this`heroes
      ensures heroes == old(heroes) + [id]
    {
      heroes := heroes + [id];
    }

    /** The first offer of an equip, or the number of offers when there is none. */
    method GetBlackItem(id: nat) returns (at: nat)
      ensures at == OfferOf(offers, id)
    {
      for i := 0 to |offers|
        invariant forall j :: 0 <= j < i ==> offers[j].id != id
      {
        if id == offers[i].id {
          return i;
        }
      }
      return |offers|;
    }

    method CollectEquips(t: Tables, order: seq<nat>) returns (equips: seq<nat>)
      ensures equips == Eligible(t, pack, order)
    {
      equips := [];
      for i := 0 to |order|
        invariant equips == Eligible(t, pack, order[..i])
      {
        assert order[..i + 1][..i] == order[..i];
        var id := order[i];
        if id in t.equips && t.equips[id].shown {
          var owned := IsInPack(id);
          if !owned {
            equips := equips + [id];
          }
        }
      }
      assert order[..|order|] == order;
    }

    /** makeBlackStoreEquip: the order in which the table is walked and the random picks are given. */
    method MakeBlackStoreEquip(t: Tables, order: seq<nat>, picks: seq<nat>)
      modifies this`offers
      ensures View() == RestockStep(t, old(View()), order, picks)
    {
      hide Choose, Fresh, Eligible;
      var equips := CollectEquips(t, order);
      var rest, chosen := picks, [];
      offers := [];
      ghost var all := Choose(equips, picks, OFFERS);
      var n: nat := OFFERS;
      while n > 0 && equips != []
        invariant n <= OFFERS
        invariant offers == Fresh(chosen) && chosen + Choose(equips, rest, n) == all
      {
        var pick := if rest == [] then 0 else rest[0];
        var id := equips[pick % |equips|];
        ChooseNext(equips, rest, n);
        FreshMore(chosen, id);
        assert chosen + Choose(equips, rest, n) == chosen + [id] + Choose(equips, rest, n)[1..];
        offers := offers + [Offer(id, false)];
        chosen := chosen + [id];
        equips := RemoveAll(equips, id);
        rest := if rest == [] then [] else rest[1..];
        n := n - 1;
      }
      ChooseNext(equips, rest, n);
      assert chosen == all;
    }

    // ---------------------------------------------------------------- the operations

    /** Whether a price can be paid; None when the currency is not one of the two. */
    method CanPay(unit: int, price: int) returns (enough: Option<bool>)
      ensures enough == if unit != GOLD && unit != SOUL then None else Some(price <= Balance(View(), unit))
    {
      if unit == GOLD {
        return Some(gold >= price);
      } else if unit == SOUL {
        return Some(soul >= price);
      }
      return None;
    }

    method DoBuyHero(t: Tables, id: nat, unit: int) returns (code: Code)
      modifies this
      ensures BuyHeroStep(t, old(View()), id, unit) == Reply(code, View())
    {
      if id !in t.heroes || !t.heroes[id].shown {
        return InvalidParameter;
      }
      var enough := CanPay(unit, t.heroes[id].price);
      if enough == None {
        return InvalidParameter;
      }
      if !enough.value {
        return NotEnoughMoney;
      }
      var had := HadHero(id);
      if had {
        return HeroExists;
      }
      AddHero(id);
      AddProperty(unit, -t.heroes[id].price);
      return OK;
    }

    method DoBuyItem(t: Tables, id: nat, unit: int) returns (code: Code)
      modifies this
      ensures BuyItemStep(t, old(View()), id, unit) == Reply(code, View())
    {
      hide AddToPack;
      if id !in t.items {
        return InvalidParameter;
      }
      var price := ItemPrice(t.items[id], unit);
      var enough := CanPay(unit, price);
      if enough == None {
        return InvalidParameter;
      }
      if !enough.value {
        return NotEnoughMoney;
      }
      var _ := AddItem(t, id, 1);
      AddProperty(unit, -price);
      return OK;
    }

    method DoBuyEquip(t: Tables, id: nat, unit: int) returns (code: Code)
      modifies this
      ensures BuyEquipStep(t, old(View()), id, unit) == Reply(code, View())
    {
      hide AddToPack, InPack;
      if id !in t.equips || !t.equips[id].shown {
        return InvalidParameter;
      }
      var owned := IsInPack(id);
      if owned {
        return EquipExists;
      }
      if unit != GOLD {
        return InvalidParameter;
      }
      if gold < t.equips[id].price {
        return NotEnoughMoney;
      }
      var _ := AddItem(t, id, 1);
      AddProperty(GOLD, -t.equips[id].price);
      return OK;
    }

    method DoBlackBuy(t: Tables, id: nat, unit: int) returns (code: Code)
      modifies this
      ensures BlackBuyStep(t, old(View()), id, unit) == Reply(code, View())
    {
      hide AddToPack, InPack;
      var at := GetBlackItem(id);
      if id !in t.equips || !t.equips[id].shown {
        return InvalidParameter;
      }
      if at == |offers| || offers[at].deal {
        return InvalidParameter;
      }
      if unit != GOLD {
        return InvalidParameter;
      }
      if gold < t.equips[id].price {
        return NotEnoughMoney;
      }
      var owned := IsInPack(id);
      if owned {
        return EquipExists;
      }
      offers := offers[at := Offer(id, true)];
      var _ := AddItem(t, id, 1);
      AddProperty(GOLD, -t.equips[id].price);
      return OK;
    }

    /** Give a hero, or its refund; false when the table does not know an owned hero. */
    method GiveHero(t: Tables, hero: nat) returns (fine: bool)
      modifies this
      ensures if fine then AwardHero(t, old(View()), hero) == Reply(OK, View()) else AwardHero(t, old(View()), hero).Crash?
    {
      var had := HadHero(hero);
      if had {
        if hero !in t.heroes {
          return false;
        }
        AddProperty(GOLD, t.heroes[hero].refund);
      } else {
        AddHero(hero);
      }
      return true;
    }

    method GiveEquip(t: Tables, equip: nat) returns (fine: bool)
      modifies this
      ensures if fine then AwardEquip(t, old(View()), equip) == Reply(OK, View()) else AwardEquip(t, old(View()), equip).Crash?
    {
      hide AddToPack, InPack;
      var owned := IsInPack(equip);
      if owned {
        if equip !in t.equips {
          return false;
        }
        AddProperty(GOLD, t.equips[equip].refund);
      } else {
        var _ := AddItem(t, equip, 1);
      }
      return true;
    }

    /** None stands for a panic. */
    method DoOpenBox(t: Tables, id: nat, draws: Draws) returns (code: Option<Code>)
      modifies this
      ensures match code
        case Some(c) => OpenBoxStep(t, old(View()), id, draws) == Reply(c, View())
        case None => OpenBoxStep(t, old(View()), id, draws).Crash?
    {
      hide AddToPack, InPack, HeroAward, EquipAward, AwardHero, AwardEquip;
      if id !in t.items {
        return Some(InvalidParameter);
      }
      var owned := IsInPack(id);
      if !owned {
        return Some(InvalidParameter);
      }
      if !IsBox(id) {
        return None;
      }
      var hero, first, second :=
        HeroAward(t, id, draws.hero), EquipAward(t, id, draws.first), EquipAward(t, id, draws.second);
      if hero == Panic || first == Panic || second == Panic {
        return None;
      }
      var _ := AddItem(t, id, -1);
      var fine := GiveHero(t, hero.id);
      if fine {
        fine := GiveEquip(t, first.id);
      }
      if fine {
        fine := GiveEquip(t, second.id);
      }
      return if fine then Some(OK) else None;
    }

    /** Handle, one operation; None stands for a panic. */
    method Handle(t: Tables, op: Operation) returns (code: Option<Code>)
      modifies this
      ensures match code
        case Some(c) => Step(t, old(View()), op) == Reply(c, View())
        case None => Step(t, old(View()), op).Crash?
    {
      hide BuyHeroStep, BuyItemStep, BuyEquipStep, BlackBuyStep, OpenBoxStep, RestockStep;
      match op
      case BuyHero(param, unit) =>
        var c := DoBuyHero(t, ToUint32(param), unit);
        return Some(c);
      case BuyItem(param, unit) =>
        var c := DoBuyItem(t, ToUint32(param), unit);
        return Some(c);
      case BuyEquip(param, unit) =>
        var c := DoBuyEquip(t, ToUint32(param), unit);
        return Some(c);
      case BlackBuy(param, unit) =>
        var c := DoBlackBuy(t, ToUint32(param), unit);
        return Some(c);
      case OpenBox(param, draws) =>
        code := DoOpenBox(t, ToUint32(param), draws);
      case Restock(order, picks) =>
        MakeBlackStoreEquip(t, order, picks);
        return Some(OK);
    }
  }

  lemma ChooseNext(ids: seq<nat>, picks: seq<nat>, n: nat)
    ensures n == 0 || ids == [] ==> Choose(ids, picks, n) == []
    ensures n > 0 && ids != [] ==>
      var id := ids[(if picks == [] then 0 else picks[0]) % |ids|];
      Choose(ids, picks, n) == [id] + Choose(Without(ids, id), if picks == [] then [] else picks[1..], n - 1)
  {
  }

  lemma FreshMore(chosen: seq<nat>, id: nat)
    ensures Fresh(chosen + [id]) == Fresh(chosen) + [Offer(id, false)]
  {
  }

  /** All entries but those of one id. */
  method RemoveAll(ids: seq<nat>, id: nat) returns (rest: seq<nat>)
    ensures rest == Without(ids, id)
  {
    rest := [];
    for i := 0 to |ids|
      invariant rest == Without(ids[..i], id)
    {
      assert ids[..i + 1][..i] == ids[..i];
      if id != ids[i] {
        rest := rest + [ids[i]];
      }
    }
    assert ids[..|ids|] == ids;
  }
}

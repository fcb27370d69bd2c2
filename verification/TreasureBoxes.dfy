/**
 * What a treasure box can hold (openTreasureBoxGray, openTreasureBoxBlue and openTreasureBoxGold in
 * game_server/game.go): the lists drawn from, how often each, and which of their entries; and what
 * the black market can offer.
 */
module TreasureBoxes {
  import opened Basics
  import opened Hall

  // ---------------------------------------------------------------- the lists of a box

  /** The two lists a box draws from, the better one on `chance` of 99 rolls. */
  ghost predicate DrawsFrom(box: nat, sets: Rarities, better: seq<nat>, worse: seq<nat>, chance: nat) {
    || (box == 9059000 && better == sets.advance && worse == sets.normal && chance == 60)
    || (box == 9059001 && better == sets.rare && worse == sets.advance && chance == 70)
    || (box == 9059002 && better == sets.rare && worse == sets.advance && chance == 50)
  }

  /** An entry of the list other than its last. */
  ghost predicate Before(ids: seq<nat>, id: nat) {
    exists i :: 0 <= i < |ids| - 1 && ids[i] == id
  }

  lemma PickReaches(ids: seq<nat>, strict: bool)
    requires |ids| > 1
    ensures forall pick :: PickFrom(ids, pick, strict).Got? && Before(ids, PickFrom(ids, pick, strict).id)
    ensures forall id :: Before(ids, id) ==> exists pick :: PickFrom(ids, pick, strict) == Got(id)
  {
    forall id | Before(ids, id)
      ensures exists pick :: PickFrom(ids, pick, strict) == Got(id)
    {
      var i: nat :| i < |ids| - 1 && ids[i] == id;
      ModUnique(i, |ids| - 1, 0, i);
      assert PickFrom(ids, i, strict) == Got(id);
    }
  }

  /**
   * A hero comes from the better list on a roll below the chance and from the worse one otherwise;
   * every entry of the list is drawn by some pick, but for the last one, which never is.
   */
  lemma HeroesOfBox(t: Tables, box: nat, better: seq<nat>, worse: seq<nat>, chance: nat, roll: nat)
    requires DrawsFrom(box, t.heroSets, better, worse, chance) && |better| > 1 && |worse| > 1
    ensures var ids := if roll % 99 < chance then better else worse;
      && (forall pick :: HeroAward(t, box, Draw(roll, pick)).Got? && Before(ids, HeroAward(t, box, Draw(roll, pick)).id))
      && (forall id :: Before(ids, id) ==> exists pick :: HeroAward(t, box, Draw(roll, pick)) == Got(id))
  {
    var ids := if roll % 99 < chance then better else worse;
    var strict := box == 9059002;
    assert forall pick :: HeroAward(t, box, Draw(roll, pick)) == PickFrom(ids, pick, strict);
    hide PickFrom, Before, HeroAward;
    PickReaches(ids, strict);
    forall id | Before(ids, id)
      ensures exists pick :: HeroAward(t, box, Draw(roll, pick)) == Got(id)
    {
      var pick :| PickFrom(ids, pick, strict) == Got(id);
      assert HeroAward(t, box, Draw(roll, pick)) == Got(id);
    }
  }

  /** And so does each of the two equips. */
  lemma EquipsOfBox(t: Tables, box: nat, better: seq<nat>, worse: seq<nat>, chance: nat, roll: nat)
    requires DrawsFrom(box, t.equipSets, better, worse, chance) && |better| > 1 && |worse| > 1
    ensures var ids := if roll % 99 < chance then better else worse;
      && (forall pick :: EquipAward(t, box, Draw(roll, pick)).Got? && Before(ids, EquipAward(t, box, Draw(roll, pick)).id))
      && (forall id :: Before(ids, id) ==> exists pick :: EquipAward(t, box, Draw(roll, pick)) == Got(id))
  {
    var ids := if roll % 99 < chance then better else worse;
    var strict := box != 9059000;
    assert forall pick :: EquipAward(t, box, Draw(roll, pick)) == PickFrom(ids, pick, strict);
    hide PickFrom, Before, EquipAward;
    PickReaches(ids, strict);
    forall id | Before(ids, id)
      ensures exists pick :: EquipAward(t, box, Draw(roll, pick)) == Got(id)
    {
      var pick :| PickFrom(ids, pick, strict) == Got(id);
      assert EquipAward(t, box, Draw(roll, pick)) == Got(id);
    }
  }

  // ---------------------------------------------------------------- how often

  /** The rolls of 0..98 on which a pick yields an entry of the list. */
  ghost function RollsForHero(t: Tables, box: nat, pick: nat, ids: seq<nat>): set<int> {
    set roll | 0 <= roll < 99 && HeroAward(t, box, Draw(roll, pick)).Got? && HeroAward(t, box, Draw(roll, pick)).id in ids
  }

  ghost function RollsForEquip(t: Tables, box: nat, pick: nat, ids: seq<nat>): set<int> {
    set roll | 0 <= roll < 99 && EquipAward(t, box, Draw(roll, pick)).Got? && EquipAward(t, box, Draw(roll, pick)).id in ids
  }

  function UpTo(a: int, b: int): (r: set<int>)
    requires a <= b
    ensures forall x :: x in r <==> a <= x < b
    decreases b - a
  {
    if a == b then {} else UpTo(a, b - 1) + {b - 1}
  }

  lemma {:induction false} UpToSize(a: int, b: int)
    requires a <= b
    ensures |UpTo(a, b)| == b - a
    decreases b - a
  {
    if a < b {
      UpToSize(a, b - 1);
    }
  }

  /** Of the 99 rolls exactly `chance` bring a hero of the better list; no hero is on both. */
  lemma HeroChances(t: Tables, box: nat, better: seq<nat>, worse: seq<nat>, chance: nat, pick: nat)
    requires DrawsFrom(box, t.heroSets, better, worse, chance) && |better| > 1 && |worse| > 1
    requires forall id :: id in better ==> id !in worse
    ensures |RollsForHero(t, box, pick, better)| == chance && |RollsForHero(t, box, pick, worse)| == 99 - chance
  {
    hide HeroAward;
    forall roll: nat | roll < 99
      ensures var award := HeroAward(t, box, Draw(roll, pick));
        award.Got? && (award.id in better <==> roll < chance) && (award.id in worse <==> roll >= chance)
    {
      HeroesOfBox(t, box, better, worse, chance, roll);
    }
    assert RollsForHero(t, box, pick, better) == UpTo(0, chance);
    assert RollsForHero(t, box, pick, worse) == UpTo(chance, 99);
    UpToSize(0, chance);
    UpToSize(chance, 99);
  }

  lemma EquipChances(t: Tables, box: nat, better: seq<nat>, worse: seq<nat>, chance: nat, pick: nat)
    requires DrawsFrom(box, t.equipSets, better, worse, chance) && |better| > 1 && |worse| > 1
    requires forall id :: id in better ==> id !in worse
    ensures |RollsForEquip(t, box, pick, better)| == chance && |RollsForEquip(t, box, pick, worse)| == 99 - chance
  {
    hide EquipAward;
    forall roll: nat | roll < 99
      ensures var award := EquipAward(t, box, Draw(roll, pick));
        award.Got? && (award.id in better <==> roll < chance) && (award.id in worse <==> roll >= chance)
    {
      EquipsOfBox(t, box, better, worse, chance, roll);
    }
    assert RollsForEquip(t, box, pick, better) == UpTo(0, chance);
    assert RollsForEquip(t, box, pick, worse) == UpTo(chance, 99);
    UpToSize(0, chance);
    UpToSize(chance, 99);
  }

  /**
   * Shorter lists: an empty one gives id 0; one of a single entry too where the source asks for more
   * than one, and is a panic where it does not: heroes of the gray and blue box, equips of the gray one.
   */
  lemma ShortLists(t: Tables, box: nat, better: seq<nat>, worse: seq<nat>, chance: nat, draw: Draw)
    ensures DrawsFrom(box, t.heroSets, better, worse, chance) ==>
      var ids := if draw.roll % 99 < chance then better else worse;
      && (|ids| == 0 ==> HeroAward(t, box, draw) == Got(0))
      && (|ids| == 1 ==> HeroAward(t, box, draw) == if box == 9059002 then Got(0) else Panic)
    ensures DrawsFrom(box, t.equipSets, better, worse, chance) ==>
      var ids := if draw.roll % 99 < chance then better else worse;
      && (|ids| == 0 ==> EquipAward(t, box, draw) == Got(0))
      && (|ids| == 1 ==> EquipAward(t, box, draw) == if box == 9059000 then Panic else Got(0))
  {
  }

  // ---------------------------------------------------------------- what the black market can offer

  /** Some picks lead to any list of different entries that is as long as it can be. */
  lemma {:induction false} AnyChoice(ids: seq<nat>, wanted: seq<nat>, n: nat) returns (picks: seq<nat>)
    requires Distinct(ids) && Distinct(wanted) && forall x :: x in wanted ==> x in ids
    requires |wanted| == if n < |ids| then n else |ids|
    ensures Choose(ids, picks, n) == wanted
    decreases n
  {
    picks := [];
    if wanted != [] {
      var first, rest := wanted[0], wanted[1..];
      assert wanted == [first] + rest;
      WithoutOne(ids, first);
      var more := AnyChoice(Without(ids, first), rest, n - 1);
      var i: nat :| i < |ids| && ids[i] == first;
      ModUnique(i, |ids|, 0, i);
      picks := [i] + more;
    }
  }

  /**
   * Any three different shown equips that the player does not own, or all of them when there are
   * fewer, are offered in any order on some picks.
   */
  lemma AnyOffers(t: Tables, p: Player, order: seq<nat>, wanted: seq<nat>) returns (picks: seq<nat>)
    requires Distinct(order) && forall id :: id in order <==> id in t.equips
    requires Distinct(wanted) && forall id :: id in wanted ==> id in Buyable(t, p.pack)
    requires |wanted| == if 3 < |Buyable(t, p.pack)| then 3 else |Buyable(t, p.pack)|
    ensures |RestockStep(t, p, order, picks).offers| == |wanted|
    ensures forall i :: 0 <= i < |wanted| ==> RestockStep(t, p, order, picks).offers[i] == Offer(wanted[i], false)
  {
    hide InPack, Choose, Eligible;
    var ids := Eligible(t, p.pack, order);
    EligibleAreDistinct(t, p.pack, order);
    forall id | id in ids ensures id in Buyable(t, p.pack) { }
    DistinctFits(ids, Buyable(t, p.pack));
    picks := AnyChoice(ids, wanted, 3);
  }
}

/**
  The static card catalog (`CHARACTERS` in index.js) and the lookups over it:
  the rarity of a card by exact name, the rarity-name validation used by the
  marketplace filter, and the case-insensitive first-match search used by the
  trade and listing commands.
 */
module Catalog {
  import opened Wrappers
  import opened Text

  /** The five rarity tiers, in the catalog's key order. */
  datatype Tier = Common | Uncommon | Rare | Legend | Secret

  /** A card definition; the image reference is not modelled. */
  datatype Card = Card(name: string, value: nat, tier: Tier, isJaden: bool)

  /** The one card carrying the `isJaden` flag. */
  const JadenCard: Card := Card("Jaden", 100, Legend, true)

  /** `CHARACTERS[t]`, in source order. */
  function TierCards(t: Tier): (cards: seq<Card>)
    ensures |cards| > 0
    ensures forall c :: c in cards ==> c.tier == t
  {
    match t
    case Common => [
      Card("Ronald", 1, Common, false),
      Card("Greenshirt", 1, Common, false),
      Card("Unpopular Opinion", 1, Common, false)]
    case Uncommon => [
      Card("Bert", 3, Uncommon, false),
      Card("Harvey", 3, Uncommon, false),
      Card("Mr Ingrata", 3, Uncommon, false),
      Card("Ron", 3, Uncommon, false),
      Card("Grayson", 3, Uncommon, false),
      Card("Jacob", 3, Uncommon, false),
      Card("Bank Robbery IOU", 3, Uncommon, false)]
    case Rare => [
      Card("Dad", 5, Rare, false),
      Card("Grandpa", 5, Rare, false),
      Card("Uncle", 5, Rare, false),
      Card("Officer Leslie", 5, Rare, false)]
    case Legend => [
      Card("Chase Bank Glitch", 15, Legend, false),
      JadenCard,
      Card("Florida Man", 15, Legend, false),
      Card("Miguel", 15, Legend, false)]
    case Secret => [
      Card("donutello", 50, Secret, false)]
  }

  /** `Object.values(CHARACTERS).flat()`: every card, tier by tier. */
  function AllCards(): (cards: seq<Card>)
    ensures forall t, c :: c in TierCards(t) ==> c in cards
    ensures forall c :: c in cards ==> c in TierCards(c.tier)
  {
    TierCards(Common) + TierCards(Uncommon) + TierCards(Rare) + TierCards(Legend) + TierCards(Secret)
  }

  /** Whether some card of `cards` has exactly this name (`some(c => c.name === name)`). */
  predicate HasName(cards: seq<Card>, name: string)
  {
    exists c :: c in cards && c.name == name
  }

  /** Position of a tier in the catalog's key order (`Object.keys(CHARACTERS)`). */
  function TierRank(t: Tier): nat
  {
    match t
    case Common => 0
    case Uncommon => 1
    case Rare => 2
    case Legend => 3
    case Secret => 4
  }

  /**
    `getRarityByCard`: the first tier, in key order, holding a card with exactly
    this name; `None` stands for "Unknown".
   */
  function RarityOf(card: Card): (r: Option<Tier>)
    ensures r.Some? ==> HasName(TierCards(r.value), card.name)
    ensures r.Some? ==> forall t :: TierRank(t) < TierRank(r.value) ==> !HasName(TierCards(t), card.name)
    ensures r.None? <==> forall c :: c in AllCards() ==> c.name != card.name
  {
    if HasName(TierCards(Common), card.name) then Some(Common)
    else if HasName(TierCards(Uncommon), card.name) then Some(Uncommon)
    else if HasName(TierCards(Rare), card.name) then Some(Rare)
    else if HasName(TierCards(Legend), card.name) then Some(Legend)
    else if HasName(TierCards(Secret), card.name) then Some(Secret)
    else None
  }

  /** Only the Jaden card carries the `isJaden` flag, and it sits in the Legend tier. */
  lemma JadenIsUnique()
    ensures JadenCard in TierCards(Legend)
    ensures forall c :: c in AllCards() && c.isJaden ==> c == JadenCard
  {
    forall c | c in AllCards() && c.isJaden
      ensures c == JadenCard
    {
      assert c in TierCards(c.tier);
      match c.tier
      case Legend => assert c in TierCards(Legend);
      case _ =>
    }
  }

  /** The key under which a tier's cards are stored. */
  function TierName(t: Tier): string
  {
    match t
    case Common => "Common"
    case Uncommon => "Uncommon"
    case Rare => "Rare"
    case Legend => "Legend"
    case Secret => "Secret"
  }

  /** `validateRarity`: only the five tier names are accepted. */
  predicate ValidateRarity(s: string)
  {
    s in ["Common", "Uncommon", "Rare", "Legend", "Secret"]
  }

  /** The tier a valid rarity argument names. */
  function TierNamed(s: string): (r: Option<Tier>)
    ensures r.Some? <==> ValidateRarity(s)
    ensures r.Some? ==> TierName(r.value) == s
  {
    if s == "Common" then Some(Common)
    else if s == "Uncommon" then Some(Uncommon)
    else if s == "Rare" then Some(Rare)
    else if s == "Legend" then Some(Legend)
    else if s == "Secret" then Some(Secret)
    else None
  }

  /** `c` occurs in `s`, unfolded one card at a time from the back. */
  predicate Among(c: Card, s: seq<Card>)
  {
    |s| > 0 && (s[|s| - 1] == c || Among(c, s[..|s| - 1]))
  }

  lemma {:induction false} AmongIsIn(c: Card, s: seq<Card>)
    ensures Among(c, s) <==> c in s
  {
    if |s| > 0 {
      AmongIsIn(c, s[..|s| - 1]);
      assert s == s[..|s| - 1] + [s[|s| - 1]];
    }
  }

  /** A card the catalog defines (one of `Object.values(CHARACTERS).flat()`). */
  predicate InCatalog(c: Card)
  {
    Among(c, AllCards())
  }

  lemma InCatalogIsInAllCards(c: Card)
    ensures InCatalog(c) <==> c in AllCards()
  {
    AmongIsIn(c, AllCards());
  }

  /** A rarity argument is valid exactly when it is the name of some tier. */
  lemma ValidateRarityNamesTier(s: string)
    ensures ValidateRarity(s) <==> exists t :: TierName(t) == s
  {
    if ValidateRarity(s) {
      assert TierName(TierNamed(s).value) == s;
    }
  }

  /** Case-insensitive name match (`c.name.toLowerCase() === name.toLowerCase()`). */
  predicate Matches(c: Card, name: string)
  {
    SameIgnoringCase(c.name, name)
  }

  /** `findIndex` with a case-insensitive name test. */
  function FirstMatch(cards: seq<Card>, name: string): (r: Option<nat>)
    ensures r.Some? ==> r.value < |cards| && Matches(cards[r.value], name)
    ensures r.Some? ==> forall j :: 0 <= j < r.value ==> !Matches(cards[j], name)
    ensures r.None? <==> forall j :: 0 <= j < |cards| ==> !Matches(cards[j], name)
  {
    if |cards| == 0 then None
    else if Matches(cards[0], name) then Some(0)
    else match FirstMatch(cards[1..], name)
      case None => None
      case Some(k) => Some(k + 1)
  }

  /**
    The template the trade command hands out: the first catalog card whose name
    matches case-insensitively (`Object.values(CHARACTERS).flat().find(...)`).
   */
  function CatalogCardNamed(name: string): (r: Option<Card>)
    ensures r.Some? ==> r.value in AllCards() && Matches(r.value, name)
    ensures r.None? <==> forall c :: c in AllCards() ==> !Matches(c, name)
  {
    match FirstMatch(AllCards(), name)
    case None => None
    case Some(i) => Some(AllCards()[i])
  }

  /** `find` returns the first catalog card, in tier order, whose name matches. */
  lemma CatalogCardNamedIsFirst(name: string)
    ensures CatalogCardNamed(name).Some? ==>
      exists i :: 0 <= i < |AllCards()| && AllCards()[i] == CatalogCardNamed(name).value
        && (forall j :: 0 <= j < i ==> !Matches(AllCards()[j], name))
  {
    var all := AllCards();
    match FirstMatch(all, name)
    case None =>
    case Some(i) =>
      assert all[i] == CatalogCardNamed(name).value;
  }
}

/**
  The draw engine: rarity-band selection from a uniform roll, the uniform pick
  within a tier, and the assembly of regular and legend packs. `Math.random()`
  is replaced by explicit rolls in [0, 1), one per call the source makes.
 */
module Draws {
  import opened Catalog

  /** A value of `Math.random()`. */
  type Roll = r: real | 0.0 <= r < 1.0

  /** The two random values one card draw may consume: the band roll and the index pick. */
  datatype Draw = Draw(roll: Roll, pick: Roll)

  /** The string `getRandomRarityRegular` returns: a tier name, or "Jaden". */
  datatype Band = TierBand(tier: Tier) | JadenBand

  /** The tier of the cards a band yields (the Jaden card is a Legend). */
  function BandTier(b: Band): Tier
  {
    match b
    case TierBand(t) => t
    case JadenBand => Legend
  }

  /**
    `getRandomRarityRegular`: inclusive thresholds checked in this fixed order.
    The band chosen is the one of the chance table whose interval holds the roll.
   */
  function RegularBand(roll: Roll): (b: Band)
    ensures BandRank(b) < |RegularBands| && RegularBands[BandRank(b)] == b
    ensures InBand(roll, BandRank(b))
  {
    ChanceBelowValues();
    if roll <= 0.00002 then TierBand(Secret)
    else if roll <= 0.00004 then JadenBand
    else if roll <= 0.03 then TierBand(Legend)
    else if roll <= 0.10 then TierBand(Rare)
    else if roll <= 0.40 then TierBand(Uncommon)
    else TierBand(Common)
  }

  /** The regular bands from rarest to commonest. */
  const RegularBands: seq<Band> :=
    [TierBand(Secret), JadenBand, TierBand(Legend), TierBand(Rare), TierBand(Uncommon), TierBand(Common)]

  /** The declared chance of each regular band. */
  function BandChance(b: Band): real
  {
    match b
    case TierBand(Secret) => 0.00002
    case JadenBand => 0.00002
    case TierBand(Legend) => 0.02996
    case TierBand(Rare) => 0.07
    case TierBand(Uncommon) => 0.30
    case TierBand(Common) => 0.60
  }

  /** Total chance of the first `k` bands of `RegularBands`. */
  function ChanceBelow(k: nat): real
    requires k <= |RegularBands|
  {
    if k == 0 then 0.0 else ChanceBelow(k - 1) + BandChance(RegularBands[k - 1])
  }

  /**
    Roll `roll` falls in band number `k` when it lies in the half-open interval
    of width `BandChance` that follows the bands before it; the rarest band also
    takes the roll 0.
   */
  predicate InBand(roll: Roll, k: nat)
    requires k < |RegularBands|
  {
    roll <= ChanceBelow(k + 1) && (k == 0 || ChanceBelow(k) < roll)
  }

  /**
    The threshold cascade partitions [0, 1) into consecutive intervals whose
    widths are the declared band chances, and those chances add up to one.
   */
  lemma RegularBandIsChanceTable(roll: Roll, k: nat)
    requires k < |RegularBands|
    ensures RegularBand(roll) == RegularBands[k] <==> InBand(roll, k)
    ensures ChanceBelow(|RegularBands|) == 1.0
  {
    ChanceBelowValues();
  }

  /** The cumulative chances are exactly the source's thresholds, ending at 1. */
  lemma ChanceBelowValues()
    ensures ChanceBelow(1) == 0.00002 && ChanceBelow(2) == 0.00004 && ChanceBelow(3) == 0.03
    ensures ChanceBelow(4) == 0.10 && ChanceBelow(5) == 0.40 && ChanceBelow(6) == 1.0
  {
    assert ChanceBelow(1) == 0.00002;
    assert ChanceBelow(2) == 0.00004;
    assert ChanceBelow(3) == 0.03;
    assert ChanceBelow(4) == 0.10;
    assert ChanceBelow(5) == 0.40;
  }

  /** Order of a band in `RegularBands`: 0 is the rarest. */
  function BandRank(b: Band): nat
  {
    match b
    case TierBand(Secret) => 0
    case JadenBand => 1
    case TierBand(Legend) => 2
    case TierBand(Rare) => 3
    case TierBand(Uncommon) => 4
    case TierBand(Common) => 5
  }

  /** A lower roll never yields a commoner band. */
  lemma RegularBandMonotone(lo: Roll, hi: Roll)
    requires lo <= hi
    ensures BandRank(RegularBand(lo)) <= BandRank(RegularBand(hi))
  {
  }

  /** `Math.floor(u * n)`: a uniform index into a list of `n` entries. */
  function PickIndex(u: Roll, n: nat): (i: nat)
    requires n > 0
    ensures i < n
  {
    var m: real := n as real;
    var x: real := u * m;
    assert x < m by {
      assert m - x == (1.0 - u) * m;
      PositiveProduct(1.0 - u, m);
    }
    x.Floor
  }

  lemma PositiveProduct(a: real, b: real)
    requires 0.0 < a && 0.0 < b
    ensures 0.0 < a * b
  {
  }

  /** Every index is hit by some roll, so no entry of a list is unreachable. */
  lemma PickIndexReachesAll(i: nat, n: nat)
    requires i < n
    ensures 0.0 <= i as real / n as real < 1.0
    ensures PickIndex(i as real / n as real, n) == i
  {
    var u: real := i as real / n as real;
    assert u * n as real == i as real;
  }

  /** `pickCardRegular`: a band roll, then (except for Jaden) a uniform pick in the band's tier. */
  function PickCardRegular(d: Draw): (c: Card)
    ensures c in AllCards()
    ensures c in TierCards(BandTier(RegularBand(d.roll)))
    ensures c.tier == BandTier(RegularBand(d.roll))
    ensures RegularBand(d.roll) == JadenBand ==> c == JadenCard
  {
    match RegularBand(d.roll)
    case JadenBand => JadenCard
    case TierBand(t) =>
      var list := TierCards(t);
      list[PickIndex(d.pick, |list|)]
  }

  /**
    The Legend list a regular draw picks from still holds the Jaden card, so a
    regular draw can yield Jaden outside its own band.
   */
  lemma RegularLegendBandCanYieldJaden()
    ensures RegularBand(0.01) == TierBand(Legend)
    ensures PickCardRegular(Draw(0.01, 0.25)) == JadenCard
  {
    assert PickIndex(0.25, 4) == 1;
  }

  /** `CHARACTERS.Legend.filter(c => !c.isJaden)` */
  function NonJaden(cards: seq<Card>): (r: seq<Card>)
    ensures forall c :: c in r <==> c in cards && !c.isJaden
    ensures |r| <= |cards|
  {
    if |cards| == 0 then []
    else (if cards[0].isJaden then [] else [cards[0]]) + NonJaden(cards[1..])
  }

  /**
    The list a legend draw picks from when the roll misses Jaden: the three
    other Legend cards, in catalog order, once each.
   */
  lemma NonJadenLegends()
    ensures NonJaden(TierCards(Legend))
      == [Card("Chase Bank Glitch", 15, Legend, false), Card("Florida Man", 15, Legend, false), Card("Miguel", 15, Legend, false)]
  {
    var legends := TierCards(Legend);
    assert legends[1..][1..][1..][1..] == [];
    assert NonJaden(legends[1..][1..][1..]) == [legends[3]];
    assert NonJaden(legends[1..][1..]) == [legends[2], legends[3]];
    assert NonJaden(legends[1..]) == [legends[2], legends[3]];
  }

  /**
    `getRandomRarityLegend`: Jaden on a roll up to 0.01, Legend otherwise; the
    band always yields Legend-tier cards.
   */
  function LegendBand(roll: Roll): (b: Band)
    ensures BandTier(b) == Legend
    ensures b == JadenBand <==> roll <= 0.01
    ensures b != JadenBand ==> b == TierBand(Legend)
  {
    if roll <= 0.01 then JadenBand else TierBand(Legend)
  }

  /** `pickCardLegend`: the Jaden card, or a uniform pick among the other Legend cards. */
  function PickCardLegend(d: Draw): (c: Card)
    ensures c in AllCards()
    ensures c in TierCards(Legend)
    ensures c.isJaden <==> d.roll <= 0.01
    ensures c == JadenCard <==> d.roll <= 0.01
  {
    match LegendBand(d.roll)
    case JadenBand => JadenCard
    case TierBand(_) =>
      var list := NonJaden(TierCards(Legend));
      assert TierCards(Legend)[0] in list;
      list[PickIndex(d.pick, |list|)]
  }

  /** The random values for the three draws of one pack. */
  datatype PackDraws = PackDraws(first: Draw, second: Draw, third: Draw)

  /** `openRegularPack`: three independent regular draws. */
  function OpenRegularPack(p: PackDraws): (cards: seq<Card>)
    ensures |cards| == 3
    ensures forall c :: c in cards ==> c in AllCards()
    ensures cards[0].tier == BandTier(RegularBand(p.first.roll))
    ensures cards[1].tier == BandTier(RegularBand(p.second.roll))
    ensures cards[2].tier == BandTier(RegularBand(p.third.roll))
    ensures RegularBand(p.first.roll) == JadenBand ==> cards[0] == JadenCard
    ensures RegularBand(p.second.roll) == JadenBand ==> cards[1] == JadenCard
    ensures RegularBand(p.third.roll) == JadenBand ==> cards[2] == JadenCard
  {
    var first := PickCardRegular(p.first);
    var second := PickCardRegular(p.second);
    var third := PickCardRegular(p.third);
    [first, second, third]
  }

  /** `openLegendPack`: one legend draw, then two regular draws. */
  function OpenLegendPack(p: PackDraws): (cards: seq<Card>)
    ensures |cards| == 3
    ensures forall c :: c in cards ==> c in AllCards()
    ensures cards[0].tier == Legend
    ensures cards[0] == JadenCard <==> p.first.roll <= 0.01
    ensures cards[1].tier == BandTier(RegularBand(p.second.roll))
    ensures cards[2].tier == BandTier(RegularBand(p.third.roll))
    ensures RegularBand(p.second.roll) == JadenBand ==> cards[1] == JadenCard
    ensures RegularBand(p.third.roll) == JadenBand ==> cards[2] == JadenCard
  {
    var lead := PickCardLegend(p.first);
    var second := PickCardRegular(p.second);
    var third := PickCardRegular(p.third);
    assert lead.tier == Legend && (lead == JadenCard <==> p.first.roll <= 0.01);
    assert lead in AllCards() && second in AllCards() && third in AllCards();
    [lead, second, third]
  }
}

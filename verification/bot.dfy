/**
  The bot's game state (balances, inventories, daily stamps, marketplace
  listings) and the state transformation of each game command. Every handler
  is a pure function of the state, the invoking user, the command's already
  parsed arguments, the clock value and the random draws; it returns the new
  state, or the reason the command was refused (the state is then unchanged).
 */
module Bot {
  import opened Wrappers
  import opened Catalog
  import opened Draws
  import opened Inventory
  import opened Marketplace

  const RegularPackCost: int := 70
  const LegendPackCost: int := 400
  /** Four hours, in milliseconds. */
  const DailyCooldown: int := 4 * 60 * 60 * 1000
  const DailyReward: int := 100

  /** `userCurrency`, `userInventory`, `userDailyCooldown`, `marketplaceListings`. */
  datatype State = State(
    balances: map<UserId, int>,
    inventories: map<UserId, seq<Card>>,
    daily: map<UserId, int>,
    listings: seq<Listing>)

  /** Why a command was refused. */
  datatype Error =
    | Usage             // missing or malformed argument
    | OnCooldown        // daily reward claimed less than four hours ago
    | InsufficientFunds
    | NotEnoughCards
    | RemovalFailed     // `removeCardsFromInventory` returned false
    | UnknownCard       // traded name matches no catalog card
    | CardNotOwned
    | ListingNotFound
    | OwnListing        // buyer is the seller
    | NotListingOwner   // canceller is not the seller

  /** `userCurrency[u] || 0` */
  function CoinsIn(balances: map<UserId, int>, u: UserId): int
  {
    if u in balances then balances[u] else 0
  }

  function BalanceOf(st: State, u: UserId): int
  {
    CoinsIn(st.balances, u)
  }

  /** `userInventory[u] || []` */
  function InventoryIn(invs: map<UserId, seq<Card>>, u: UserId): seq<Card>
  {
    if u in invs then invs[u] else []
  }

  function InventoryOf(st: State, u: UserId): seq<Card>
  {
    InventoryIn(st.inventories, u)
  }

  /** `a` and `b` hold the same entries outside the keys `ks`. */
  ghost predicate AgreeExcept<K(!new), V>(a: map<K, V>, b: map<K, V>, ks: set<K>)
  {
    forall k :: k !in ks ==> (k in a <==> k in b) && (k in a ==> a[k] == b[k])
  }

  /** Every card of `s` is a catalog card. */
  predicate CatalogCards(s: seq<Card>)
  {
    forall c :: c in s ==> InCatalog(c)
  }

  predicate BalancesOk(balances: map<UserId, int>)
  {
    forall u :: u in balances ==> balances[u] >= 0
  }

  predicate LedgerOk(ls: seq<Listing>)
  {
    IdsIncreasing(ls) && forall l :: l in ls ==> l.price > 0 && InCatalog(l.card)
  }

  predicate InventoriesOk(invs: map<UserId, seq<Card>>)
  {
    forall u :: u in invs ==> CatalogCards(invs[u])
  }

  /**
    The invariant the handlers keep: listing ids increase along the ledger,
    every listed price is positive, no balance is negative, and every held or
    listed card is a catalog card.
   */
  predicate Valid(st: State)
  {
    LedgerOk(st.listings) && BalancesOk(st.balances) && InventoriesOk(st.inventories)
  }

  /** The state before any command: no coins, cards, stamps or listings. */
  const Initial: State := State(map[], map[], map[], [])

  lemma InitialValid()
    ensures Valid(Initial)
  {
  }

  /** Replacing one user's inventory by catalog cards keeps every inventory catalog-only. */
  lemma SetInventoryOk(invs: map<UserId, seq<Card>>, u: UserId, inv: seq<Card>)
    requires InventoriesOk(invs) && CatalogCards(inv)
    ensures InventoriesOk(invs[u := inv])
  {
  }

  lemma InventoryOfOk(st: State, u: UserId)
    requires InventoriesOk(st.inventories)
    ensures CatalogCards(InventoryOf(st, u))
  {
  }

  // ---------------------------------------------------------------- daily

  /**
    `canClaimDaily`: no stamp (or a falsy zero stamp), or four hours have
    passed. A refusal always means a stamp whose cooldown ends after `now`.
   */
  predicate CanClaimDaily(st: State, u: UserId, now: int)
    ensures !CanClaimDaily(st, u, now) ==> u in st.daily && st.daily[u] != 0 && now < st.daily[u] + DailyCooldown
  {
    u !in st.daily || st.daily[u] == 0 || now - st.daily[u] >= DailyCooldown
  }

  /** Waiting never takes a claim away: a claim allowed now stays allowed later. */
  lemma CanClaimDailyLater(st: State, u: UserId, now: int, later: int)
    requires CanClaimDaily(st, u, now) && now <= later
    ensures CanClaimDaily(st, u, later)
  {
  }

  /** The `daily` command at clock value `now` (milliseconds). */
  function Daily(st: State, u: UserId, now: int): (r: Result<State, Error>)
    ensures r.Success? <==> (u !in st.daily || st.daily[u] == 0 || now - st.daily[u] >= DailyCooldown)
    ensures r.Failure? ==> r.error == OnCooldown
    ensures r.Success? ==>
      && BalanceOf(r.value, u) == BalanceOf(st, u) + DailyReward
      && u in r.value.daily && r.value.daily[u] == now
      && AgreeExcept(r.value.balances, st.balances, {u})
      && AgreeExcept(r.value.daily, st.daily, {u})
      && r.value.inventories == st.inventories
      && r.value.listings == st.listings
    ensures Valid(st) && r.Success? ==> Valid(r.value)
  {
    if !CanClaimDaily(st, u, now) then Failure(OnCooldown)
    else
      Success(st.(
        balances := st.balances[u := BalanceOf(st, u) + DailyReward],
        daily := st.daily[u := now]))
  }

  /**
    A successful claim is refused when repeated at the same (non-zero) clock
    value, and allowed again exactly one cooldown later.
   */
  lemma DailyCooldownCycle(st: State, u: UserId, now: int)
    requires Daily(st, u, now).Success?
    ensures now != 0 ==> Daily(Daily(st, u, now).value, u, now) == Failure(OnCooldown)
    ensures Daily(Daily(st, u, now).value, u, now + DailyCooldown).Success?
  {
  }

  // ---------------------------------------------------------------- packs

  /** `cards.forEach(card => addCardToInventory(u, card))` */
  function AddAllToInventory(invs: map<UserId, seq<Card>>, u: UserId, cards: seq<Card>): (r: map<UserId, seq<Card>>)
    ensures InventoryIn(r, u) == InventoryIn(invs, u) + cards
    ensures u in r <==> u in invs || |cards| > 0
    ensures AgreeExcept(r, invs, {u})
    decreases |cards|
  {
    if |cards| == 0 then invs
    else
      var invs' := invs[u := AddCard(InventoryIn(invs, u), cards[0])];
      var r := AddAllToInventory(invs', u, cards[1..]);
      AddFirstThenRest(invs, u, cards, r);
      r
  }

  /** Adding the first card and then the rest adds them all, and touches only `u`. */
  lemma AddFirstThenRest(invs: map<UserId, seq<Card>>, u: UserId, cards: seq<Card>, r: map<UserId, seq<Card>>)
    requires |cards| > 0
    requires InventoryIn(r, u) == InventoryIn(invs[u := AddCard(InventoryIn(invs, u), cards[0])], u) + cards[1..]
    requires u in r
    requires AgreeExcept(r, invs[u := AddCard(InventoryIn(invs, u), cards[0])], {u})
    ensures InventoryIn(r, u) == InventoryIn(invs, u) + cards
    ensures AgreeExcept(r, invs, {u})
  {
    var inv := InventoryIn(invs, u);
    assert cards == [cards[0]] + cards[1..];
    assert (inv + [cards[0]]) + cards[1..] == inv + cards;
  }

  /** Shared body of `openpack` and `legendpack` once the balance check passed: debit, then grant. */
  function BuyPack(st: State, u: UserId, cost: int, pack: seq<Card>): State
    requires u in st.balances
  {
    st.(
      balances := st.balances[u := st.balances[u] - cost],
      inventories := AddAllToInventory(st.inventories, u, pack))
  }

  /** What a successful pack purchase of cost `cost` does to the state. */
  ghost predicate PackBought(st: State, st': State, u: UserId, cost: int, pack: seq<Card>)
  {
    && u in st.balances && u in st'.balances
    && st'.balances[u] == st.balances[u] - cost
    && AgreeExcept(st'.balances, st.balances, {u})
    && InventoryOf(st', u) == InventoryOf(st, u) + pack
    && AgreeExcept(st'.inventories, st.inventories, {u})
    && st'.daily == st.daily
    && st'.listings == st.listings
  }

  lemma BuyPackFacts(st: State, u: UserId, cost: int, pack: seq<Card>)
    requires u in st.balances && st.balances[u] >= cost && |pack| > 0
    requires forall c :: c in pack ==> c in AllCards()
    ensures PackBought(st, BuyPack(st, u, cost, pack), u, cost, pack)
    ensures InventoryOf(BuyPack(st, u, cost, pack), u)[|InventoryOf(st, u)|..] == pack
    ensures Valid(st) ==> Valid(BuyPack(st, u, cost, pack))
  {
    var st' := BuyPack(st, u, cost, pack);
    assert InventoryOf(st', u) == InventoryOf(st, u) + pack;
    forall c | c in pack ensures InCatalog(c) {
      InCatalogIsInAllCards(c);
    }
    if Valid(st) {
      InventoryOfOk(st, u);
      SetInventoryOk(st.inventories, u, InventoryOf(st, u) + pack);
      assert st'.inventories == st.inventories[u := InventoryOf(st, u) + pack];
    }
  }

  /** The `openpack` command with the random values of its three draws. */
  function OpenPack(st: State, u: UserId, draws: PackDraws): (r: Result<State, Error>)
    ensures r.Success? <==> u in st.balances && st.balances[u] >= RegularPackCost
    ensures r.Failure? ==> r.error == InsufficientFunds
    ensures r.Success? ==>
      && PackBought(st, r.value, u, RegularPackCost, OpenRegularPack(draws))
      && r.value.balances[u] >= 0
      && |InventoryOf(r.value, u)| == |InventoryOf(st, u)| + 3
      && (forall c :: c in InventoryOf(r.value, u)[|InventoryOf(st, u)|..] ==> c in AllCards())
    ensures Valid(st) && r.Success? ==> Valid(r.value)
  {
    if u !in st.balances || st.balances[u] == 0 || st.balances[u] < RegularPackCost then
      Failure(InsufficientFunds)
    else
      var pack := OpenRegularPack(draws);
      BuyPackFacts(st, u, RegularPackCost, pack);
      Success(BuyPack(st, u, RegularPackCost, pack))
  }

  /** The `legendpack` command with the random values of its three draws. */
  function LegendPack(st: State, u: UserId, draws: PackDraws): (r: Result<State, Error>)
    ensures r.Success? <==> u in st.balances && st.balances[u] >= LegendPackCost
    ensures r.Failure? ==> r.error == InsufficientFunds
    ensures r.Success? ==>
      && PackBought(st, r.value, u, LegendPackCost, OpenLegendPack(draws))
      && r.value.balances[u] >= 0
      && |InventoryOf(r.value, u)| == |InventoryOf(st, u)| + 3
      && (forall c :: c in InventoryOf(r.value, u)[|InventoryOf(st, u)|..] ==> c in AllCards())
      && InventoryOf(r.value, u)[|InventoryOf(st, u)|].tier == Legend
    ensures Valid(st) && r.Success? ==> Valid(r.value)
  {
    if u !in st.balances || st.balances[u] == 0 || st.balances[u] < LegendPackCost then
      Failure(InsufficientFunds)
    else
      var pack := OpenLegendPack(draws);
      BuyPackFacts(st, u, LegendPackCost, pack);
      Success(BuyPack(st, u, LegendPackCost, pack))
  }

  // ---------------------------------------------------------------- trade

  /**
    `removeCardsFromInventory`: false when the user has no inventory; otherwise
    matching cards are taken from the back, and the result says whether exactly
    `amount` were taken (cards already taken are not put back).
   */
  function RemoveCardsFromInventory(invs: map<UserId, seq<Card>>, u: UserId, name: string, amount: int)
    : (r: (map<UserId, seq<Card>>, bool))
    ensures r.1 <==> u in invs && 0 <= amount <= Count(invs[u], name)
    ensures u !in invs ==> r.0 == invs
    ensures u in invs ==> u in r.0 && r.0 == invs[u := r.0[u]]
    ensures u in invs ==> r.0[u] == RemoveFromBack(invs[u], name, if amount < 0 then 0 else amount).rest
    ensures u in invs ==> Others(r.0[u], name) == Others(invs[u], name)
    ensures u in invs && r.1 ==> Count(r.0[u], name) == Count(invs[u], name) - amount
    ensures u in invs && !r.1 && amount > 0 ==> Count(r.0[u], name) == 0
    ensures u in invs ==> forall c :: c in r.0[u] ==> c in invs[u]
  {
    if u !in invs then (invs, false)
    else
      var k: nat := if amount < 0 then 0 else amount;
      var removal := RemoveFromBack(invs[u], name, k);
      RemoveFromBackCounts(invs[u], name, k);
      RemoveFromBackKeeps(invs[u], name, k);
      (invs[u := removal.rest], removal.removed == amount)
  }

  /** `!target || !cardName || isNaN(amount) || amount < 1` */
  predicate TradeUsageBad(target: Option<UserId>, name: string, amount: Option<int>)
  {
    target.None? || name == "" || amount.None? || amount.value < 1
  }

  /** The receiving half of a trade: `n` copies of `template` pushed onto `t`'s inventory. */
  function Grant(st: State, t: UserId, template: Card, n: nat): State
  {
    st.(inventories := st.inventories[t := InventoryOf(st, t) + Copies(template, n)])
  }

  /** What a successful trade of `n` cards named `name` from `u` to `t` does. */
  ghost predicate Traded(st: State, st': State, u: UserId, t: UserId, name: string, n: nat, template: Card)
  {
    && st'.balances == st.balances
    && st'.daily == st.daily
    && st'.listings == st.listings
    && AgreeExcept(st'.inventories, st.inventories, {u, t})
    && (t != u ==>
          && InventoryOf(st', u) == RemoveFromBack(InventoryOf(st, u), name, n).rest
          && Count(InventoryOf(st', u), name) == Count(InventoryOf(st, u), name) - n
          && Others(InventoryOf(st', u), name) == Others(InventoryOf(st, u), name)
          && InventoryOf(st', t) == InventoryOf(st, t) + Copies(template, n))
    && (t == u ==>
          && InventoryOf(st', u) == RemoveFromBack(InventoryOf(st, u), name, n).rest + Copies(template, n)
          && Count(InventoryOf(st', u), name) == Count(InventoryOf(st, u), name)
          && Others(InventoryOf(st', u), name) == Others(InventoryOf(st, u), name))
  }

  /** The sending half followed by the receiving half has the effect `Traded` describes. */
  lemma TradeFacts(st: State, u: UserId, t: UserId, name: string, n: nat, template: Card)
    requires u in st.inventories && 0 < n <= Count(st.inventories[u], name) && Matches(template, name)
    ensures Traded(st, Grant(st.(inventories := RemoveCardsFromInventory(st.inventories, u, name, n).0), t, template, n),
                   u, t, name, n, template)
  {
    var mid := st.(inventories := RemoveCardsFromInventory(st.inventories, u, name, n).0);
    var st' := Grant(mid, t, template, n);
    var rest := RemoveFromBack(InventoryOf(st, u), name, n).rest;
    assert InventoryOf(mid, u) == rest;
    CopiesCount(template, n, name);
    AppendFacts(InventoryOf(mid, t), Copies(template, n), name);
    assert InventoryOf(st', t) == InventoryOf(mid, t) + Copies(template, n);
    if t != u {
      assert InventoryOf(st', u) == rest;
    }
  }

  lemma TradeKeepsValid(st: State, u: UserId, t: UserId, name: string, n: nat, template: Card)
    requires InCatalog(template)
    ensures Valid(st) ==> Valid(Grant(st.(inventories := RemoveCardsFromInventory(st.inventories, u, name, n).0), t, template, n))
  {
    if Valid(st) {
      var invs := RemoveCardsFromInventory(st.inventories, u, name, n).0;
      var mid := st.(inventories := invs);
      if u in st.inventories {
        InventoryOfOk(st, u);
        SetInventoryOk(st.inventories, u, invs[u]);
      }
      InventoryOfOk(mid, t);
      SetInventoryOk(invs, t, InventoryOf(mid, t) + Copies(template, n));
    }
  }

  /**
    The `trade` command: `target` is the mentioned user, `amount` the parsed
    count (None when it is not a number). The receiver gets `amount` copies of
    the first catalog card with that name, whatever the sent cards were.
   */
  function Trade(st: State, u: UserId, target: Option<UserId>, name: string, amount: Option<int>)
    : (r: Result<State, Error>)
    ensures TradeUsageBad(target, name, amount) ==> r == Failure(Usage)
    ensures !TradeUsageBad(target, name, amount) && Count(InventoryOf(st, u), name) < amount.value ==>
      r == Failure(NotEnoughCards)
    ensures r.Success? <==>
      && !TradeUsageBad(target, name, amount)
      && Count(InventoryOf(st, u), name) >= amount.value
      && CatalogCardNamed(name).Some?
    ensures r.Failure? ==> r.error in {Usage, NotEnoughCards, UnknownCard}
    ensures r.Success? ==>
      Traded(st, r.value, u, target.value, name, amount.value, CatalogCardNamed(name).value)
    ensures Valid(st) && r.Success? ==> Valid(r.value)
  {
    if TradeUsageBad(target, name, amount) then Failure(Usage)
    else
      var n := amount.value;
      if Count(InventoryOf(st, u), name) < n then Failure(NotEnoughCards)
      else
        var (invs, removed) := RemoveCardsFromInventory(st.inventories, u, name, n);
        if !removed then Failure(RemovalFailed)
        else
          match CatalogCardNamed(name)
          case None => Failure(UnknownCard)
          case Some(template) =>
            InCatalogIsInAllCards(template);
            TradeFacts(st, u, target.value, name, n, template);
            TradeKeepsValid(st, u, target.value, name, n, template);
            Success(Grant(st.(inventories := invs), target.value, template, n))
  }

  /**
    On a valid state the catalog lookup cannot fail: a held card matching the
    name is itself a catalog card. So a trade succeeds exactly when its
    arguments are well formed and the sender holds enough matching cards.
   */
  lemma TradeSucceedsOnValid(st: State, u: UserId, target: Option<UserId>, name: string, amount: Option<int>)
    requires Valid(st)
    ensures Trade(st, u, target, name, amount).Success? <==>
      !TradeUsageBad(target, name, amount) && Count(InventoryOf(st, u), name) >= amount.value
  {
    if !TradeUsageBad(target, name, amount) && Count(InventoryOf(st, u), name) >= amount.value {
      var inv := InventoryOf(st, u);
      CountWitness(inv, name);
      var i :| 0 <= i < |inv| && Matches(inv[i], name);
      InventoryOfOk(st, u);
      InCatalogIsInAllCards(inv[i]);
    }
  }

  // ---------------------------------------------------------------- listcard

  /** What a successful listing of the card at index `i` of `u`'s inventory does. */
  ghost predicate Listed(st: State, st': State, u: UserId, i: nat, price: int, now: int)
    requires i < |InventoryOf(st, u)|
  {
    var inv := InventoryOf(st, u);
    && st'.listings == st.listings + [Listing(NextId(st.listings), u, inv[i], price, RarityOf(inv[i]), now)]
    && InventoryOf(st', u) == inv[..i] + inv[i + 1..]
    && multiset(InventoryOf(st', u)) + multiset{inv[i]} == multiset(inv)
    && AgreeExcept(st'.inventories, st.inventories, {u})
    && st'.balances == st.balances
    && st'.daily == st.daily
  }

  /**
    The `listcard` command: `price` is the parsed price (None when it is not a
    number). The first card whose name matches is taken out of the inventory
    and listed under the next id at the clock value `now`.
   */
  function ListCard(st: State, u: UserId, name: string, price: Option<int>, now: int): (r: Result<State, Error>)
    ensures name == "" || price.None? || price.value <= 0 ==> r == Failure(Usage)
    ensures r.Success? <==> name != "" && price.Some? && price.value > 0 && Count(InventoryOf(st, u), name) > 0
    ensures r.Failure? ==> r.error in {Usage, CardNotOwned}
    ensures r.Success? ==>
      && FirstMatch(InventoryOf(st, u), name).Some?
      && Listed(st, r.value, u, FirstMatch(InventoryOf(st, u), name).value, price.value, now)
      && Count(InventoryOf(r.value, u), name) == Count(InventoryOf(st, u), name) - 1
    ensures Valid(st) && r.Success? ==> Valid(r.value)
  {
    if name == "" || price.None? || price.value <= 0 then Failure(Usage)
    else
      var inv := InventoryOf(st, u);
      CountPositiveIffFound(inv, name);
      match FirstMatch(inv, name)
      case None => Failure(CardNotOwned)
      case Some(i) =>
        var card := inv[i];
        var listing := Listing(NextId(st.listings), u, card, price.value, RarityOf(card), now);
        SpliceFacts(inv, i, name);
        ListCardKeepsValid(st, u, i, listing);
        Success(st.(
          inventories := st.inventories[u := RemoveAt(inv, i)],
          listings := st.listings + [listing]))
  }

  /** Taking the card at `i` out of an inventory: its shape, its multiset and its count. */
  lemma SpliceFacts(inv: seq<Card>, i: nat, name: string)
    requires i < |inv| && Matches(inv[i], name)
    ensures RemoveAt(inv, i) == inv[..i] + inv[i + 1..]
    ensures multiset(inv[..i] + inv[i + 1..]) + multiset{inv[i]} == multiset(inv)
    ensures Count(inv[..i] + inv[i + 1..], name) == Count(inv, name) - 1
  {
    assert inv == inv[..i] + [inv[i]] + inv[i + 1..];
    DropOne(inv[..i], inv[i], inv[i + 1..], name);
  }

  lemma ListCardKeepsValid(st: State, u: UserId, i: nat, listing: Listing)
    requires i < |InventoryOf(st, u)|
    requires listing.id == NextId(st.listings) && listing.card == InventoryOf(st, u)[i] && listing.price > 0
    ensures Valid(st) ==>
      Valid(st.(
        inventories := st.inventories[u := RemoveAt(InventoryOf(st, u), i)],
        listings := st.listings + [listing]))
  {
    if Valid(st) {
      InventoryOfOk(st, u);
      RemoveKeepsCatalogCards(InventoryOf(st, u), i);
      SetInventoryOk(st.inventories, u, RemoveAt(InventoryOf(st, u), i));
      AppendListingOk(st.listings, listing);
    }
  }

  lemma RemoveKeepsCatalogCards(inv: seq<Card>, i: nat)
    requires i < |inv| && CatalogCards(inv)
    ensures CatalogCards(RemoveAt(inv, i)) && InCatalog(inv[i])
  {
    forall c | c in RemoveAt(inv, i) ensures InCatalog(c) {
      assert c in multiset(RemoveAt(inv, i));
      assert c in inv;
    }
  }

  lemma AppendListingOk(ls: seq<Listing>, l: Listing)
    requires LedgerOk(ls) && l.id == NextId(ls) && l.price > 0 && InCatalog(l.card)
    ensures LedgerOk(ls + [l])
  {
    AppendKeepsIdsIncreasing(ls, l);
    forall x | x in ls + [l] ensures x.price > 0 && InCatalog(x.card) {
      assert x in ls || x == l;
    }
  }

  // ---------------------------------------------------------------- buycard

  /** What a successful purchase of the listing at index `i` by `u` does. */
  ghost predicate Bought(st: State, st': State, u: UserId, i: nat)
    requires i < |st.listings|
  {
    var l := st.listings[i];
    && BalanceOf(st', u) == BalanceOf(st, u) - l.price
    && BalanceOf(st', l.seller) == BalanceOf(st, l.seller) + l.price
    && BalanceOf(st', u) + BalanceOf(st', l.seller) == BalanceOf(st, u) + BalanceOf(st, l.seller)
    && AgreeExcept(st'.balances, st.balances, {u, l.seller})
    && InventoryOf(st', u) == InventoryOf(st, u) + [l.card]
    && AgreeExcept(st'.inventories, st.inventories, {u})
    && st'.listings == RemoveAt(st.listings, i)
    && st'.daily == st.daily
  }

  /** The listing a parsed id refers to: the first with that id. */
  function Lookup(st: State, id: Option<int>): (r: Option<Listing>)
    ensures r.Some? <==> id.Some? && exists j :: 0 <= j < |st.listings| && st.listings[j].id == id.value
    ensures r.Some? ==> r.value in st.listings && r.value.id == id.value
  {
    if id.None? then None
    else match FindListing(st.listings, id.value)
      case None => None
      case Some(i) => Some(st.listings[i])
  }

  /** Removing one listing keeps the ledger's invariant and makes its id unfindable. */
  lemma LeaveLedgerFacts(ls: seq<Listing>, i: nat)
    requires i < |ls|
    ensures forall l :: l in RemoveAt(ls, i) ==> l in ls
    ensures LedgerOk(ls) ==> LedgerOk(RemoveAt(ls, i)) && FindListing(RemoveAt(ls, i), ls[i].id).None?
  {
    forall l | l in RemoveAt(ls, i) ensures l in ls {
      assert l in multiset(RemoveAt(ls, i));
    }
    if LedgerOk(ls) {
      RemoveAtKeepsIdsIncreasing(ls, i);
      RemovedIdIsGone(ls, i);
    }
  }

  /** The new state of a purchase of the listing at index `i` by `u`. */
  function Purchase(st: State, u: UserId, i: nat): State
    requires i < |st.listings|
  {
    var l := st.listings[i];
    st.(
      balances := Pay(st.balances, u, l.seller, l.price),
      inventories := st.inventories[u := InventoryOf(st, u) + [l.card]],
      listings := RemoveAt(st.listings, i))
  }

  /** The buyer is debited first, then the seller credited (reading the updated map). */
  function Pay(balances: map<UserId, int>, buyer: UserId, seller: UserId, price: int): map<UserId, int>
  {
    var debited := balances[buyer := CoinsIn(balances, buyer) - price];
    debited[seller := CoinsIn(debited, seller) + price]
  }

  lemma PurchaseFacts(st: State, u: UserId, i: nat)
    requires i < |st.listings| && st.listings[i].seller != u
    ensures Bought(st, Purchase(st, u, i), u, i)
  {
  }

  lemma PurchaseKeepsValid(st: State, u: UserId, i: nat)
    requires i < |st.listings| && BalanceOf(st, u) >= st.listings[i].price
    ensures Valid(st) ==> Valid(Purchase(st, u, i)) && FindListing(Purchase(st, u, i).listings, st.listings[i].id).None?
  {
    if Valid(st) {
      var l := st.listings[i];
      LeaveLedgerFacts(st.listings, i);
      assert l in st.listings;
      assert InCatalog(l.card);
      InventoryOfOk(st, u);
      assert CatalogCards(InventoryOf(st, u) + [l.card]);
      SetInventoryOk(st.inventories, u, InventoryOf(st, u) + [l.card]);
      PayKeepsBalancesOk(st.balances, u, l.seller, l.price);
    }
  }

  /** Paying a positive price the buyer can afford leaves no balance negative. */
  lemma PayKeepsBalancesOk(balances: map<UserId, int>, buyer: UserId, seller: UserId, price: int)
    requires BalancesOk(balances) && price > 0 && CoinsIn(balances, buyer) >= price
    ensures BalancesOk(Pay(balances, buyer, seller, price))
  {
  }

  /**
    The `buycard` command: `id` is the parsed listing id (None when it is not
    a number). Coins move from buyer to seller, the card to the buyer, and the
    listing leaves the ledger.
   */
  function BuyCard(st: State, u: UserId, id: Option<int>): (r: Result<State, Error>)
    ensures id.None? ==> r == Failure(Usage)
    ensures id.Some? && Lookup(st, id).None? ==> r == Failure(ListingNotFound)
    ensures r.Success? <==>
      Lookup(st, id).Some? && Lookup(st, id).value.seller != u && BalanceOf(st, u) >= Lookup(st, id).value.price
    ensures r.Failure? ==> r.error in {Usage, ListingNotFound, OwnListing, InsufficientFunds}
    ensures r.Success? ==>
      && FindListing(st.listings, id.value).Some?
      && Bought(st, r.value, u, FindListing(st.listings, id.value).value)
    ensures Valid(st) && r.Success? ==> Valid(r.value) && FindListing(r.value.listings, id.value).None?
  {
    if id.None? then Failure(Usage)
    else match FindListing(st.listings, id.value)
      case None => Failure(ListingNotFound)
      case Some(i) =>
        var l := st.listings[i];
        if l.seller == u then Failure(OwnListing)
        else if BalanceOf(st, u) < l.price then Failure(InsufficientFunds)
        else
          PurchaseFacts(st, u, i);
          PurchaseKeepsValid(st, u, i);
          Success(Purchase(st, u, i))
  }

  // ---------------------------------------------------------------- cancelcard

  /** What a successful cancellation of the listing at index `i` by its seller `u` does. */
  ghost predicate Cancelled(st: State, st': State, u: UserId, i: nat)
    requires i < |st.listings|
  {
    && st'.listings == RemoveAt(st.listings, i)
    && InventoryOf(st', u) == InventoryOf(st, u) + [st.listings[i].card]
    && AgreeExcept(st'.inventories, st.inventories, {u})
    && st'.balances == st.balances
    && st'.daily == st.daily
  }

  /** The new state of withdrawing the listing at index `i`, returning its card to `u`. */
  function Withdrawal(st: State, u: UserId, i: nat): State
    requires i < |st.listings|
  {
    st.(
      listings := RemoveAt(st.listings, i),
      inventories := st.inventories[u := InventoryOf(st, u) + [st.listings[i].card]])
  }

  lemma WithdrawalFacts(st: State, u: UserId, i: nat)
    requires i < |st.listings|
    ensures Cancelled(st, Withdrawal(st, u, i), u, i)
    ensures Valid(st) ==> Valid(Withdrawal(st, u, i)) && FindListing(Withdrawal(st, u, i).listings, st.listings[i].id).None?
  {
    LeaveLedgerFacts(st.listings, i);
    if Valid(st) {
      assert st.listings[i] in st.listings;
      InventoryOfOk(st, u);
      SetInventoryOk(st.inventories, u, InventoryOf(st, u) + [st.listings[i].card]);
    }
  }

  /** The `cancelcard` command: only the seller may withdraw a listing; the card goes back to them. */
  function CancelCard(st: State, u: UserId, id: Option<int>): (r: Result<State, Error>)
    ensures id.None? ==> r == Failure(Usage)
    ensures id.Some? && Lookup(st, id).None? ==> r == Failure(ListingNotFound)
    ensures Lookup(st, id).Some? && Lookup(st, id).value.seller != u ==> r == Failure(NotListingOwner)
    ensures r.Success? <==> Lookup(st, id).Some? && Lookup(st, id).value.seller == u
    ensures r.Success? ==>
      && FindListing(st.listings, id.value).Some?
      && Cancelled(st, r.value, u, FindListing(st.listings, id.value).value)
    ensures Valid(st) && r.Success? ==> Valid(r.value) && FindListing(r.value.listings, id.value).None?
  {
    if id.None? then Failure(Usage)
    else match FindListing(st.listings, id.value)
      case None => Failure(ListingNotFound)
      case Some(i) =>
        if st.listings[i].seller != u then Failure(NotListingOwner)
        else
          WithdrawalFacts(st, u, i);
          Success(Withdrawal(st, u, i))
  }

  // ---------------------------------------------------------------- sequences of commands

  /** A bought listing is gone: buying it again, by anyone, finds nothing. */
  lemma BuyTwiceNotFound(st: State, u: UserId, v: UserId, id: Option<int>)
    requires Valid(st) && BuyCard(st, u, id).Success?
    ensures BuyCard(BuyCard(st, u, id).value, v, id) == Failure(ListingNotFound)
  {
  }

  /** A cancelled listing is gone: cancelling it again finds nothing. */
  lemma CancelTwiceNotFound(st: State, u: UserId, id: Option<int>)
    requires Valid(st) && CancelCard(st, u, id).Success?
    ensures CancelCard(CancelCard(st, u, id).value, u, id) == Failure(ListingNotFound)
  {
  }

  /** The newest listing is found at the end of the ledger. */
  lemma NewestListingFound(ls: seq<Listing>, l: Listing)
    requires IdsIncreasing(ls) && l.id == NextId(ls)
    ensures FindListing(ls + [l], l.id) == Some(|ls|)
  {
    forall j | 0 <= j < |ls| ensures (ls + [l])[j].id != l.id {
      assert ls[j] in ls;
    }
  }

  /** Removing the last listing restores the ledger before it. */
  lemma RemoveLastListing(ls: seq<Listing>, l: Listing)
    ensures RemoveAt(ls + [l], |ls|) == ls
  {
    assert (ls + [l])[..|ls|] == ls && (ls + [l])[|ls| + 1..] == [];
  }

  /**
    Listing a card and cancelling that listing restores the ledger and the
    seller's cards (as a multiset: the card comes back at the end). The next
    listing then receives the id just withdrawn, so ids are reused.
   */
  lemma ListThenCancel(st: State, u: UserId, name: string, price: Option<int>, now: int)
    requires Valid(st) && ListCard(st, u, name, price, now).Success?
    ensures var st1 := ListCard(st, u, name, price, now).value;
      var id := NextId(st.listings);
      && CancelCard(st1, u, Some(id)).Success?
      && CancelCard(st1, u, Some(id)).value.listings == st.listings
      && multiset(InventoryOf(CancelCard(st1, u, Some(id)).value, u)) == multiset(InventoryOf(st, u))
      && CancelCard(st1, u, Some(id)).value.balances == st.balances
      && NextId(CancelCard(st1, u, Some(id)).value.listings) == id
  {
    var st1 := ListCard(st, u, name, price, now).value;
    var inv := InventoryOf(st, u);
    var i := FirstMatch(inv, name).value;
    var l := st1.listings[|st.listings|];
    assert st1.listings == st.listings + [l];
    NewestListingFound(st.listings, l);
    RemoveLastListing(st.listings, l);
    var st2 := CancelCard(st1, u, Some(l.id)).value;
    assert InventoryOf(st2, u) == InventoryOf(st1, u) + [inv[i]];
  }
}

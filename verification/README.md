# BimCards game state in Dafny

BimCards is a chat bot running a collectible-card game. Users earn coins with a
daily reward and spend them on card packs. They trade cards with each other and
sell them on a marketplace. The bot keeps four pieces of state:

- `userCurrency`: coins per user.
- `userInventory`: an ordered list of cards per user.
- `userDailyCooldown`: the time of each user's last daily claim.
- `marketplaceListings`: the marketplace ledger.

Every game command is a fixed transformation of these four. This project
models that state and those transformations from `index.js` as pure
functions, and proves what each command does to the state.

Modules, one per part of the program:

- `Wrappers`: `Option` and `Result`.
- `Text`: case-insensitive comparison of card names (`toLowerCase`).
- `Catalog`: the card catalog `CHARACTERS`, `getRarityByCard`,
  `validateRarity`, and the case-insensitive `findIndex` / `find` over cards.
- `Draws`: the rarity bands of regular and legend draws, the uniform pick
  within a tier, and the assembly of 3-card packs.
  - `Math.random()` values are parameters of type `Roll`, a `real` in [0, 1).
  - The source's literal thresholds are compared with `<=`, in its order.
- `Inventory`: `addCardToInventory`, counting cards by name, and
  `removeCardsFromInventory`.
  - Removal has a recursive reference definition, `RemoveFromBack`.
  - It also has a loop, `ScanFromBack`, written as the source's backward scan
    and proved equal to the reference.
- `Marketplace`: the ledger with its `last id + 1` numbering, lookup by id,
  `splice`, the rarity filter, `Array.prototype.slice`, `paginate`, and the
  `marketplace` browse command with its page clamping.
- `Bot`: the state plus the handlers `daily`, `openpack`, `legendpack`,
  `trade`, `listcard`, `buycard` and `cancelcard`.
  - Each handler returns the new state or an `Error`; on an error the state is
    unchanged, as in the source.
  - Handler arguments arrive already parsed: `parseInt` gives `Option<int>`,
    with `None` for NaN. A missing mention or a missing name is `None` or `""`.
  - The clock (`Date.now()`) and the random draws are parameters.

`Bot.Valid` is the state invariant every handler preserves:

- listing ids strictly increase along the ledger;
- every listed price is positive;
- no balance is negative;
- every held or listed card is a catalog card.

Behaviour to note:

- **Listing ids are reused.** A new id is the last listing's id plus one. After
  the newest listing is bought or cancelled, the next listing gets the same id
  again (`Bot.ListThenCancel`). Ids are unique only among the listings active
  at one time (`Marketplace.IdsIncreasing`).
- **The regular Legend band can yield Jaden.** The regular draw's Legend band
  picks from the whole Legend list, Jaden included
  (`Draws.RegularLegendBandCanYieldJaden`). So a regular draw can return Jaden
  from two bands: the Jaden band and the Legend band.
- **Common takes 60% of regular draws.** The thresholds are cumulative, so
  Common takes 1 − 0.40 = 60% of the rolls (`Draws.ChanceBelowValues`,
  `Draws.RegularBandIsChanceTable`).
- **No self-trade check.** `trade` does not reject a trade with oneself.
  Matching cards are taken from the back and copies of the catalog card are
  appended to the same inventory (`Bot.Traded`, case `t == u`).
- **Trade hands out the catalog card.** The receiver gets copies of the first
  catalog card with the traded name, whatever the sender's cards were
  (`Catalog.CatalogCardNamedIsFirst`).

## Model

| member | source | states |
|---|---|---|
| Text.Lower | index.js:179 | `toLowerCase` keeps the length and lower-cases each character in place, ASCII A-Z only |
| Text.SameIgnoringCaseIsLowerEqual | index.js:179 | comparing names character by character with ASCII case folding is exactly equality of the two lower-cased strings |
| Catalog.TierCards | index.js:56-86 | every tier owns a non-empty list of cards, and every card in it is of that tier |
| Catalog.AllCards | index.js:317 | the flattened catalog holds every card of every tier, and each of its cards sits in its own tier's list |
| Catalog.RarityOf | index.js:103-108 | the result is the first tier in key order holding a card with exactly that name; no earlier tier holds it; "Unknown" exactly when no catalog card has the name |
| Catalog.JadenIsUnique | index.js:77-82 | the Jaden card is in the Legend tier and is the only catalog card with the `isJaden` flag |
| Catalog.TierNamed | index.js:194-196 | a rarity argument names a tier exactly when `validateRarity` accepts it, and that tier's key is the argument |
| Catalog.ValidateRarityNamesTier | index.js:194-196 | `validateRarity` accepts exactly the five tier names |
| Catalog.FirstMatch | index.js:386 | `findIndex` by case-insensitive name: the index found matches and no earlier card does; not found exactly when no card matches |
| Catalog.CatalogCardNamed | index.js:317 | the trade template is a catalog card matching the name; there is none exactly when no catalog card matches |
| Catalog.CatalogCardNamedIsFirst | index.js:317 | the trade template is the first card of the flattened catalog, in tier order, whose name matches; no earlier catalog card matches |
| Draws.RegularBand | index.js:110-118 | the threshold cascade returns one of the six bands, and the roll lies in that band's interval of the cumulative thresholds |
| Draws.RegularBandIsChanceTable | index.js:110-118 | the threshold cascade puts each roll in exactly one band; the bands are consecutive intervals whose widths are the band chances, and the chances sum to 1 |
| Draws.ChanceBelowValues | index.js:110-118 | the cumulative thresholds are the source's literals 0.00002, 0.00004, 0.03, 0.10, 0.40 and finally 1 |
| Draws.RegularBandMonotone | index.js:110-118 | a lower roll never selects a commoner band |
| Draws.PickIndex | index.js:134 | `Math.floor(random * length)` is always a valid index |
| Draws.PickIndexReachesAll | index.js:134 | every index of a list is picked by some roll in [0, 1) |
| Draws.PickCardRegular | index.js:126-136 | a regular draw returns a catalog card of the band's tier, and the Jaden card in the Jaden band |
| Draws.RegularLegendBandCanYieldJaden | index.js:133-134 | a roll in the Legend band can still return the Jaden card |
| Draws.NonJaden | index.js:143 | the filtered Legend list holds exactly the cards without the `isJaden` flag and is no longer than the input |
| Draws.NonJadenLegends | index.js:143 | on the Legend tier the filter yields exactly Chase Bank Glitch, Florida Man and Miguel, in catalog order |
| Draws.LegendBand | index.js:120-124 | a legend draw always lands in a Legend-tier band; it is the Jaden band exactly when the roll is at most 0.01, and the plain Legend band otherwise |
| Draws.PickCardLegend | index.js:138-146 | a legend draw returns a Legend-tier catalog card, and it is the Jaden card exactly when the roll is at most 0.01 |
| Draws.OpenRegularPack | index.js:148-154 | a regular pack is three catalog cards, each of the tier its own roll selects, and each is the Jaden card when its roll falls in the Jaden band |
| Draws.OpenLegendPack | index.js:156-163 | a legend pack is three catalog cards: first a Legend card that is Jaden exactly when its roll is at most 0.01, then two regular draws, each Jaden when its roll falls in the Jaden band |
| Inventory.CountPlusOthers | index.js:310 | every card is either counted by the trade pre-check's `filter(...).length` or kept among the non-matching cards, so the two add up to the inventory length |
| Inventory.CountPositiveIffFound | index.js:386 | a name occurs in an inventory (positive count) exactly when `findIndex` finds it |
| Inventory.RemoveFromBackCounts | index.js:175-185 | a removal takes min(amount, count) matching cards, lowers the count by that much, keeps the non-matching cards in order, and shortens the inventory by exactly the removed number |
| Inventory.RemoveFromBackTakesLast | index.js:178-183 | the cards taken are the last matches: a prefix stays untouched and the suffix after it loses exactly its matches, which are the removed cards |
| Inventory.ScanFromBack | index.js:178-183 | the backward loop that splices out matches until `amount` are taken computes exactly the reference removal |
| Inventory.RemoveCards | index.js:177-184 | the result is true exactly when 0 <= amount <= count; on success the count drops by `amount`; on a shortfall every match is gone and nothing is put back |
| Inventory.RemoveFromBackKeeps | index.js:178-183 | a removal never introduces a card that was not in the inventory |
| Inventory.CopiesCount | index.js:318-320 | `amount` pushes of a template matching the name add exactly `amount` to its count and no other card |
| Inventory.AddCard | index.js:170-173 | adding a card keeps the inventory as a prefix and puts the card last |
| Inventory.AddCardCounts | index.js:170-173 | adding a card raises the count of the names it matches by one and leaves every other card in place |
| Marketplace.NextId | index.js:394 | on an increasing ledger the new id exceeds every existing id |
| Marketplace.AppendKeepsIdsIncreasing | index.js:393-401 | appending a listing numbered by `NextId` keeps ids strictly increasing |
| Marketplace.FindListing | index.js:454 | `findIndex` by id: the index found has that id and no earlier listing does; not found exactly when no listing has it |
| Marketplace.RemoveAt | index.js:471 | `splice(i, 1)` drops exactly the entry at `i`: entries before it keep their place, later ones shift down one, and the multiset loses only that entry |
| Marketplace.RemoveAtKeepsIdsIncreasing | index.js:471 | removing a listing keeps the others' ids strictly increasing |
| Marketplace.RemovedIdIsGone | index.js:471 | on an increasing ledger a removed listing's id is no longer found |
| Marketplace.ByRarity | index.js:198-200 | the rarity filter keeps exactly the listings of that rarity |
| Marketplace.ByRarityKeepsIdsIncreasing | index.js:422 | filtering keeps the ledger order, so the selection's ids still increase |
| Marketplace.SliceIndex | index.js:204 | a slice bound is clamped into [0, length]: a bound in range is kept, one past the end becomes the length, and a negative one counts from the end, stopping at 0 |
| Marketplace.JsSlice | index.js:204 | `slice(start, end)` has length end − start after clamping (0 when that is not positive), and its elements are the array's from the clamped start on |
| Marketplace.Paginate | index.js:202-205 | for page and page size of at least 1, the page is the window at `(page-1)*pageSize`: `pageSize` elements, or all that remain when fewer do, in order; empty exactly when that start is past the end |
| Marketplace.TotalPages | index.js:429 | `ceil(n/5)` pages cover all `n` listings, the last page starts inside them, and there are no pages only when there are no listings |
| Marketplace.ResolveQuery | index.js:408-419 | a valid rarity as first argument selects that filter and takes the page from the second argument; otherwise the first argument is the page; the page is a positive parse or 1 |
| Marketplace.PageFacts | index.js:428-432 | every page from 1 to the last is a non-empty window at `(page-1)*5` holding five listings, or the rest of the selection on the last page |
| Marketplace.ShowPage | index.js:424-432 | an empty selection is refused; otherwise the page is clamped to the last page and holds five listings from `(page-1)*5` on, or the rest of the selection when fewer remain |
| Marketplace.Browse | index.js:407-432 | the `marketplace` command shows the clamped page of the rarity-filtered ledger: five listings from `(page-1)*5` on, or the rest when fewer remain; or it reports that no listing matched |
| Marketplace.PageCovers | index.js:428-432 | every listing of a selection appears on exactly the page `j/5 + 1`, at position `j%5`, and that page is within the page count |
| Bot.InitialValid | index.js:42-45 | the empty start state satisfies the invariant `Valid` |
| Bot.CanClaimDaily | index.js:165-168 | a claim is refused only when the user holds a non-zero stamp and less than four hours have passed since it |
| Bot.CanClaimDailyLater | index.js:165-168 | once a claim is allowed it stays allowed at every later time |
| Bot.Daily | index.js:224-233 | a claim succeeds exactly when there is no stamp, the stamp is 0, or four hours have passed; it adds exactly 100 coins, stamps `now`, changes nothing else, and keeps `Valid` |
| Bot.DailyCooldownCycle | index.js:165-168 | after a successful claim at a non-zero `now`, a second claim at the same `now` is refused, and a claim one cooldown later succeeds |
| Bot.AddAllToInventory | index.js:244 | adding a pack card by card appends exactly the pack to that user's inventory, creates the inventory when the pack is non-empty, and touches no other user |
| Bot.BuyPackFacts | index.js:242-244 | debit then grant: the balance drops by the cost, the pack is appended, nothing else changes, and `Valid` is kept |
| Bot.OpenPack | index.js:238-244 | a regular pack is refused exactly when the balance is missing or below 70; otherwise the balance drops by 70 and stays non-negative, and three catalog cards are appended |
| Bot.LegendPack | index.js:260-266 | a legend pack is refused exactly when the balance is missing or below 400; otherwise the balance drops by 400 and stays non-negative, three catalog cards are appended, and the first is a Legend |
| Bot.RemoveCardsFromInventory | index.js:175-185 | false when the user has no inventory; true exactly when `amount` matches could be taken; the new inventory is the backward removal of the matches; only that user's inventory changes; non-matching cards are kept; no card is added; no rollback on a shortfall |
| Bot.TradeFacts | index.js:313-320 | removing `n` matches from the back and pushing `n` copies of the template: the sender's inventory is the backward removal, its count drops by `n` and its other cards stay; the receiver's inventory gains the copies at the end; with sender and receiver the same, both happen to one inventory |
| Bot.TradeKeepsValid | index.js:313-320 | a trade handing out a catalog card keeps `Valid` |
| Bot.Trade | index.js:302-324 | a missing target or name or an amount below 1 is a usage error; fewer matches than `amount` is refused; a trade succeeds exactly when both checks pass and a catalog card has the name; balances, stamps and listings are unchanged |
| Bot.TradeSucceedsOnValid | index.js:309-317 | on a valid state the template lookup cannot fail, so a trade succeeds exactly when its arguments are well formed and the sender holds enough matching cards |
| Bot.SpliceFacts | index.js:389 | splicing out the found card removes exactly one copy and lowers that name's count by one |
| Bot.AppendListingOk | index.js:393-401 | appending a listing with the next id, a positive price and a catalog card keeps the ledger invariant |
| Bot.ListCardKeepsValid | index.js:389-401 | taking the card out of the inventory and appending its listing keeps `Valid` |
| Bot.ListCard | index.js:378-405 | a missing name or a non-positive price is a usage error; listing succeeds exactly when the user holds a matching card; the first match leaves the inventory and is appended under the next id with its rarity, price and time |
| Bot.Lookup | index.js:454-457 | a parsed id refers to a listing exactly when some listing carries that id |
| Bot.LeaveLedgerFacts | index.js:471 | removing one listing keeps the ledger invariant and makes its id unfindable |
| Bot.PurchaseFacts | index.js:460-471 | a purchase debits the buyer and credits the seller by the price, conserving their total; it gives the card to the buyer and removes exactly that listing |
| Bot.PayKeepsBalancesOk | index.js:460-465 | paying an affordable positive price leaves no balance negative |
| Bot.PurchaseKeepsValid | index.js:460-471 | a purchase keeps `Valid` and the bought id is gone |
| Bot.BuyCard | index.js:449-476 | a NaN id is a usage error and an unknown id is not found; a purchase succeeds exactly when the listing exists, is not the buyer's own, and the buyer can pay; coins move buyer to seller, the card goes to the buyer, the listing leaves; `Valid` is kept |
| Bot.WithdrawalFacts | index.js:489-492 | a withdrawal removes exactly that listing, appends its card to the seller's inventory, keeps `Valid`, and the id is gone |
| Bot.CancelCard | index.js:478-497 | a NaN id is a usage error, an unknown id is not found, and anyone but the seller is refused; on success the listing leaves, its card returns to the seller, and balances are unchanged |
| Bot.BuyTwiceNotFound | index.js:454-455 | once a listing is bought, buying the same id again, by anyone, fails with "not found" |
| Bot.CancelTwiceNotFound | index.js:483-484 | once a listing is cancelled, cancelling the same id again fails with "not found" |
| Bot.NewestListingFound | index.js:394 | the listing just appended with the next id is found at the end of the ledger |
| Bot.RemoveLastListing | index.js:489 | splicing out the last listing restores the earlier ledger |
| Bot.ListThenCancel | index.js:393-401 | listing a card then cancelling it restores the ledger, the seller's cards as a multiset, and the balances; the next listing receives the withdrawn id again |

## Left out

- File storage (`Storage/storage.js`, `loadJSON`, `loadJSONobj`, `saveAllData`, `loadAllData`): persistence I/O, not game logic.
- The Discord client, message tokenising, embeds, `rarityColor`, `delay` and all message text: presentation and plumbing. Error messages are reduced to the `Error` variants, plus the marketplace's "no listings" text.
- `parseInt` and argument splitting: arguments arrive already parsed. `Option<int>` stands for a number or NaN; a missing name is `""`.
- `Math.random` and `Date.now`: random values and the clock are parameters. No claim is made about the distribution of random values.
- The `balance`, `inventory`, `leaderboard`, `credits` and `secret` commands: they only read state for display. The leaderboard also fetches users over the network.
- The "hours/minutes remaining" arithmetic of `daily` (index.js:226-228): display only.
- Battle, casino, stats and admin commands: their code is not part of this model.
- Card images: not modelled.
- Text.Lower: folds only the ASCII letters A-Z. JavaScript's `toLowerCase` also folds other Unicode letters, and it does so in the names users type as well as in catalog names. A typed name with such a letter can therefore match a card in the source but not in the model: KELVIN SIGN (U+212A) lower-cases to `k`, so "Chase Ban\u212A Glitch" matches the card "Chase Bank Glitch" in the source and nothing in the model. The model's matching is weaker for such names; for names of ASCII characters it is the same.
- Bot.Trade: when no catalog card has the traded name, the source has already removed the sender's cards and pushes `undefined` to the receiver. The model refuses with `UnknownCard` and leaves the state unchanged. `Bot.TradeSucceedsOnValid` shows this case cannot arise from a `Valid` state.
- Bot.Trade: the source's "error removing cards" branch (`RemovalFailed`) is kept. It is unreachable after the count check, and the error set in the contract shows it.
- Bot.Daily: stamps and `now` are unbounded integers, not JavaScript numbers.
- Bot.Daily: the source reads the clock twice, once in the cooldown check (index.js:167) and once for the new stamp (index.js:233). The model takes one `now` for both, so it does not cover a stamp later than the time that was checked.
- Inventory.RemoveCards: an `amount` of NaN is not modelled. The trade handler never passes one.
- Catalog.RarityOf: a listing's `rarity` is `Option<Tier>`, with `None` for "Unknown". Listings of catalog cards therefore never carry "Unknown".

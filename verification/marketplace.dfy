/**
  The marketplace ledger: listings with sequential ids, lookup by id
  (`findIndex`), removal by index (`splice`), the rarity filter, and the
  paginated browse view.
 */
module Marketplace {
  import opened Wrappers
  import opened Catalog

  /** A user identity as the chat platform reports it. */
  type UserId = string

  /** One marketplace listing; `rarity` is `getRarityByCard(card)`, `None` for "Unknown". */
  datatype Listing = Listing(id: int, seller: UserId, card: Card, price: int, rarity: Option<Tier>, createdAt: int)

  /** Listing ids strictly increase in array order (so no id occurs twice). */
  predicate IdsIncreasing(ls: seq<Listing>)
  {
    forall i, j :: 0 <= i < j < |ls| ==> ls[i].id < ls[j].id
  }

  /** The id a new listing gets: the last listing's id plus one, or 1 when there is none. */
  function NextId(ls: seq<Listing>): (id: int)
    ensures IdsIncreasing(ls) ==> forall l :: l in ls ==> l.id < id
  {
    if |ls| > 0 then ls[|ls| - 1].id + 1 else 1
  }

  /** Appending a listing carrying `NextId` keeps ids increasing. */
  lemma AppendKeepsIdsIncreasing(ls: seq<Listing>, l: Listing)
    requires IdsIncreasing(ls) && l.id == NextId(ls)
    ensures IdsIncreasing(ls + [l])
  {
    var ls' := ls + [l];
    forall i, j | 0 <= i < j < |ls'|
      ensures ls'[i].id < ls'[j].id
    {
      if j == |ls| {
        assert ls'[i] in ls;
      }
    }
  }

  /** `marketplaceListings.findIndex(l => l.id === id)` */
  function FindListing(ls: seq<Listing>, id: int): (r: Option<nat>)
    ensures r.Some? ==> r.value < |ls| && ls[r.value].id == id
    ensures r.Some? ==> forall j :: 0 <= j < r.value ==> ls[j].id != id
    ensures r.None? <==> forall j :: 0 <= j < |ls| ==> ls[j].id != id
  {
    if |ls| == 0 then None
    else if ls[0].id == id then Some(0)
    else match FindListing(ls[1..], id)
      case None => None
      case Some(k) => Some(k + 1)
  }

  /** `splice(i, 1)`: drops exactly the entry at `i`. */
  function RemoveAt<T>(s: seq<T>, i: nat): (r: seq<T>)
    requires i < |s|
    ensures |r| == |s| - 1
    ensures forall j :: 0 <= j < i ==> r[j] == s[j]
    ensures forall j :: i <= j < |r| ==> r[j] == s[j + 1]
    ensures multiset(r) + multiset{s[i]} == multiset(s)
  {
    assert s == s[..i] + [s[i]] + s[i + 1..];
    s[..i] + s[i + 1..]
  }

  /** Removing a listing keeps the others' ids increasing. */
  lemma RemoveAtKeepsIdsIncreasing(ls: seq<Listing>, i: nat)
    requires i < |ls| && IdsIncreasing(ls)
    ensures IdsIncreasing(RemoveAt(ls, i))
  {
    var r := RemoveAt(ls, i);
    forall a, b | 0 <= a < b < |r|
      ensures r[a].id < r[b].id
    {
      var a' := if a < i then a else a + 1;
      var b' := if b < i then b else b + 1;
      assert r[a] == ls[a'] && r[b] == ls[b'];
    }
  }

  /** With increasing ids, once a listing is removed its id is no longer found. */
  lemma RemovedIdIsGone(ls: seq<Listing>, i: nat)
    requires i < |ls| && IdsIncreasing(ls)
    ensures FindListing(RemoveAt(ls, i), ls[i].id) == None
  {
    var r := RemoveAt(ls, i);
    forall j | 0 <= j < |r|
      ensures r[j].id != ls[i].id
    {
      if j < i {
        assert r[j] == ls[j];
      } else {
        assert r[j] == ls[j + 1];
      }
    }
  }

  /** `listings.filter(l => l.rarity === t)` */
  function ByRarity(ls: seq<Listing>, t: Tier): (r: seq<Listing>)
    ensures forall l :: l in r <==> l in ls && l.rarity == Some(t)
    ensures |r| <= |ls|
  {
    if |ls| == 0 then []
    else
      var tail := ByRarity(ls[1..], t);
      if ls[0].rarity == Some(t) then [ls[0]] + tail else tail
  }

  /** In an increasing ledger the head's id is below every later id. */
  lemma HeadIdIsLeast(ls: seq<Listing>)
    requires |ls| > 0 && IdsIncreasing(ls)
    ensures forall l :: l in ls[1..] ==> ls[0].id < l.id
  {
    forall l | l in ls[1..]
      ensures ls[0].id < l.id
    {
      var k :| 0 <= k < |ls[1..]| && ls[1..][k] == l;
      assert ls[k + 1] == l;
    }
  }

  /** Filtering keeps the ledger order, so ids stay increasing. */
  lemma {:induction false} ByRarityKeepsIdsIncreasing(ls: seq<Listing>, t: Tier)
    requires IdsIncreasing(ls)
    ensures IdsIncreasing(ByRarity(ls, t))
    decreases |ls|
  {
    if |ls| > 0 {
      var tail := ByRarity(ls[1..], t);
      assert IdsIncreasing(ls[1..]);
      ByRarityKeepsIdsIncreasing(ls[1..], t);
      if ls[0].rarity == Some(t) {
        HeadIdIsLeast(ls);
        assert forall l :: l in tail ==> ls[0].id < l.id;
        var r := [ls[0]] + tail;
        forall i, j | 0 <= i < j < |r|
          ensures r[i].id < r[j].id
        {
          assert r[j] == tail[j - 1];
          if i > 0 {
            assert r[i] == tail[i - 1];
          }
        }
      }
    }
  }

  /** `Array.prototype.slice` index normalisation: negatives count from the end, then clamp. */
  function SliceIndex(x: int, len: nat): (r: nat)
    ensures r <= len
    ensures 0 <= x <= len ==> r == x
    ensures x > len ==> r == len
    ensures x < 0 ==> r == (if len + x < 0 then 0 else len + x)
  {
    if x < 0 then (if len + x < 0 then 0 else len + x)
    else if x > len then len
    else x
  }

  /**
    `s.slice(start, end)`: the elements from the normalised start up to the
    normalised end, or nothing when the end does not lie after the start.
   */
  function JsSlice<T>(s: seq<T>, start: int, end: int): (r: seq<T>)
    ensures |r| == (if SliceIndex(end, |s|) <= SliceIndex(start, |s|) then 0
                    else SliceIndex(end, |s|) - SliceIndex(start, |s|))
    ensures forall k :: 0 <= k < |r| ==> r[k] == s[SliceIndex(start, |s|) + k]
  {
    var a := SliceIndex(start, |s|);
    var b := SliceIndex(end, |s|);
    if b <= a then [] else s[a..b]
  }

  /**
    `r` is the window of `s` of width `n` from `start`: the elements from
    `start` on, `n` of them or all that remain, and empty only past the end.
   */
  ghost predicate Window<T>(s: seq<T>, r: seq<T>, start: int, n: int)
  {
    && |r| <= n
    && (start < |s| ==> |r| == WindowLength(|s|, start, n))
    && (forall k :: 0 <= k < |r| ==> 0 <= start + k < |s| && r[k] == s[start + k])
    && (|r| > 0 <==> start < |s|)
  }

  /** How many of `n` elements a window of width `w` starting at `start < n` holds. */
  function WindowLength(n: nat, start: int, w: int): int
  {
    if n - start < w then n - start else w
  }

  /** A slice of width `n` from a non-negative `start` is exactly that window. */
  lemma SliceWindow<T>(s: seq<T>, start: int, n: int)
    requires start >= 0 && n >= 1
    ensures Window(s, JsSlice(s, start, start + n), start, n)
  {
  }

  lemma ProductNonNegative(a: int, b: int)
    requires a >= 0 && b >= 0
    ensures a * b >= 0
  {
  }

  /**
    `paginate(array, page, pageSize)`: for a page number and page size of at
    least 1, the page is the window of width `pageSize` from `(page - 1) * pageSize`.
   */
  function Paginate<T>(s: seq<T>, page: int, pageSize: int): (r: seq<T>)
    ensures page >= 1 && pageSize >= 1 ==> Window(s, r, (page - 1) * pageSize, pageSize)
  {
    var start := (page - 1) * pageSize;
    if page >= 1 && pageSize >= 1 then
      ProductNonNegative(page - 1, pageSize);
      SliceWindow(s, start, pageSize);
      JsSlice(s, start, start + pageSize)
    else
      JsSlice(s, start, start + pageSize)
  }

  /** Listings shown per marketplace page. */
  const PageSize: nat := 5

  /** `Math.ceil(n / PageSize)` for a count `n`. */
  function TotalPages(n: nat): (pages: nat)
    ensures n <= pages * PageSize
    ensures n > 0 ==> (pages - 1) * PageSize < n
    ensures pages == 0 <==> n == 0
  {
    (n + PageSize - 1) / PageSize
  }

  /**
    The browse command's already-tokenised arguments: the first argument, and
    `parseInt` of the first and second arguments (`None` when absent or NaN).
   */
  datatype BrowseArgs = BrowseArgs(first: Option<string>, firstNumber: Option<int>, secondNumber: Option<int>)

  /** A rarity filter and a requested page number. */
  datatype Query = Query(filter: Option<Tier>, page: int)

  /** A positive parsed page number, or the default page 1. */
  function PageOr1(n: Option<int>): (p: int)
    ensures p >= 1
    ensures n.Some? && n.value > 0 ==> p == n.value
    ensures !(n.Some? && n.value > 0) ==> p == 1
  {
    if n.Some? && n.value > 0 then n.value else 1
  }

  /** Every page up to the last starts inside the listing. */
  lemma PageStartsInside(n: nat, page: int)
    requires 1 <= page <= TotalPages(n)
    ensures (page - 1) * PageSize < n
  {
    var total := TotalPages(n);
    assert (page - 1) * PageSize <= (total - 1) * PageSize;
  }

  /** A page between 1 and the last is a non-empty window of at most `PageSize` listings. */
  lemma PageFacts<T>(sel: seq<T>, page: int)
    requires 1 <= page <= TotalPages(|sel|)
    ensures var items := Paginate(sel, page, PageSize);
      && 0 < |items| <= PageSize
      && |items| == WindowLength(|sel|, (page - 1) * PageSize, PageSize)
      && forall k :: 0 <= k < |items| ==> (page - 1) * PageSize + k < |sel| && items[k] == sel[(page - 1) * PageSize + k]
  {
    PageStartsInside(|sel|, page);
  }

  /**
    Argument handling of the `marketplace` command: a valid rarity name first
    selects a filter and the page comes second; otherwise the first argument
    is the page.
   */
  function ResolveQuery(a: BrowseArgs): (q: Query)
    ensures q.page >= 1
    ensures q.filter.Some? <==> a.first.Some? && ValidateRarity(a.first.value)
    ensures q.filter.Some? ==> TierName(q.filter.value) == a.first.value && q.page == PageOr1(a.secondNumber)
    ensures q.filter.None? && a.first.Some? ==> q.page == PageOr1(a.firstNumber)
    ensures a.first.None? ==> q.page == 1
  {
    match a.first
    case Some(s) =>
      if ValidateRarity(s) then Query(TierNamed(s), PageOr1(a.secondNumber))
      else Query(None, PageOr1(a.firstNumber))
    case None => Query(None, 1)
  }

  /** One page of the browse view. */
  datatype Page = Page(page: int, totalPages: nat, items: seq<Listing>)

  /** The listings a query selects, in ledger order. */
  function Selected(ls: seq<Listing>, q: Query): seq<Listing>
  {
    match q.filter
    case Some(t) => ByRarity(ls, t)
    case None => ls
  }

  /**
    The view of a selection: with nothing selected it reports that no listing
    matched; otherwise the requested page is clamped to the last page and
    that page is cut out.
   */
  function ShowPage(sel: seq<Listing>, requested: int): (r: Result<Page, string>)
    requires requested >= 1
    ensures r.Success? <==> |sel| > 0
    ensures r.Success? ==>
      && r.value.totalPages == TotalPages(|sel|)
      && 1 <= r.value.page <= r.value.totalPages
      && r.value.page == (if requested > r.value.totalPages then r.value.totalPages else requested)
      && 0 < |r.value.items| <= PageSize
      && |r.value.items| == WindowLength(|sel|, (r.value.page - 1) * PageSize, PageSize)
      && forall k :: 0 <= k < |r.value.items| ==>
           (r.value.page - 1) * PageSize + k < |sel| && r.value.items[k] == sel[(r.value.page - 1) * PageSize + k]
  {
    if |sel| == 0 then Failure("No marketplace listings found for the given filters.")
    else
      var total := TotalPages(|sel|);
      var page := if requested > total then total else requested;
      PageFacts(sel, page);
      Success(Page(page, total, Paginate(sel, page, PageSize)))
  }

  /**
    The `marketplace` command: resolve the arguments, select the listings, and
    show the requested page of the selection.
   */
  function Browse(ls: seq<Listing>, a: BrowseArgs): (r: Result<Page, string>)
    ensures var q := ResolveQuery(a);
      var sel := Selected(ls, q);
      && (r.Success? <==> |sel| > 0)
      && (r.Success? ==>
        && r.value.totalPages == TotalPages(|sel|)
        && 1 <= r.value.page <= r.value.totalPages
        && r.value.page == (if q.page > r.value.totalPages then r.value.totalPages else q.page)
        && 0 < |r.value.items| <= PageSize
        && |r.value.items| == WindowLength(|sel|, (r.value.page - 1) * PageSize, PageSize)
        && forall k :: 0 <= k < |r.value.items| ==>
             (r.value.page - 1) * PageSize + k < |sel| && r.value.items[k] == sel[(r.value.page - 1) * PageSize + k])
  {
    var q := ResolveQuery(a);
    ShowPage(Selected(ls, q), q.page)
  }

  /**
    Every selected listing is shown on exactly the page its position puts it
    on: listing `j` is entry `j % PageSize` of page `j / PageSize + 1`, and
    that page is one the browse view can show.
   */
  lemma PageCovers<T>(sel: seq<T>, j: nat)
    requires j < |sel|
    ensures var page := j / PageSize + 1;
      && 1 <= page <= TotalPages(|sel|)
      && j % PageSize < |Paginate(sel, page, PageSize)|
      && Paginate(sel, page, PageSize)[j % PageSize] == sel[j]
  {
    var page := j / PageSize + 1;
    assert (page - 1) * PageSize + j % PageSize == j;
    assert (page - 1) * PageSize < |sel|;
    assert page <= TotalPages(|sel|);
  }
}

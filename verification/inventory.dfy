/**
  Per-user card sequences: appending a card (`addCardToInventory`), counting
  cards by case-insensitive name, and removing a number of matching cards
  scanning from the back (`removeCardsFromInventory`).
 */
module Inventory {
  import opened Catalog

  /**
    Number of cards of `s` whose name matches `name` ignoring case: the
    `filter(...).length` of the trade command's pre-check.
   */
  function Count(s: seq<Card>, name: string): nat
  {
    if |s| == 0 then 0
    else Count(s[..|s| - 1], name) + (if Matches(s[|s| - 1], name) then 1 else 0)
  }

  /** The cards of `s` that do not match `name`, in their original order. */
  function Others(s: seq<Card>, name: string): seq<Card>
  {
    if |s| == 0 then []
    else Others(s[..|s| - 1], name) + (if Matches(s[|s| - 1], name) then [] else [s[|s| - 1]])
  }

  /** Every card is either counted as a match or kept among the others (so the count is at most the length). */
  lemma {:induction false} CountPlusOthers(s: seq<Card>, name: string)
    ensures Count(s, name) + |Others(s, name)| == |s|
    decreases |s|
  {
    if |s| > 0 {
      CountPlusOthers(s[..|s| - 1], name);
    }
  }

  /** Appending one card extends both views by that card alone. */
  lemma SnocFacts(s: seq<Card>, c: Card, name: string)
    ensures Count(s + [c], name) == Count(s, name) + (if Matches(c, name) then 1 else 0)
    ensures Others(s + [c], name) == Others(s, name) + (if Matches(c, name) then [] else [c])
  {
    SnocCount(s, c, name);
    SnocOthers(s, c, name);
  }

  lemma SnocCount(s: seq<Card>, c: Card, name: string)
    ensures Count(s + [c], name) == Count(s, name) + (if Matches(c, name) then 1 else 0)
  {
    assert (s + [c])[..|s|] == s;
  }

  lemma SnocOthers(s: seq<Card>, c: Card, name: string)
    ensures Others(s + [c], name) == Others(s, name) + (if Matches(c, name) then [] else [c])
  {
    assert (s + [c])[..|s|] == s;
  }

  /** A non-empty `b` is its front plus its last card, also after a prefix `a`. */
  lemma SplitLast(a: seq<Card>, b: seq<Card>)
    requires |b| > 0
    ensures b == b[..|b| - 1] + [b[|b| - 1]]
    ensures a + b == (a + b[..|b| - 1]) + [b[|b| - 1]]
  {
  }

  /** `s` is its cards before `i`, the card at `i` and its cards after `i`. */
  lemma SplitAt(s: seq<Card>, i: nat)
    requires i < |s|
    ensures s == (s[..i] + [s[i]]) + s[i + 1..]
  {
  }

  /** Counting and filtering distribute over concatenation. */
  lemma AppendFacts(a: seq<Card>, b: seq<Card>, name: string)
    ensures Count(a + b, name) == Count(a, name) + Count(b, name)
    ensures Others(a + b, name) == Others(a, name) + Others(b, name)
  {
    AppendCount(a, b, name);
    AppendOthers(a, b, name);
  }

  lemma {:induction false} AppendCount(a: seq<Card>, b: seq<Card>, name: string)
    ensures Count(a + b, name) == Count(a, name) + Count(b, name)
    decreases |b|
  {
    if |b| == 0 {
      assert a + b == a;
    } else {
      var b', c := b[..|b| - 1], b[|b| - 1];
      SplitLast(a, b);
      AppendCount(a, b', name);
      SnocCount(a + b', c, name);
      SnocCount(b', c, name);
    }
  }

  lemma {:induction false} AppendOthers(a: seq<Card>, b: seq<Card>, name: string)
    ensures Others(a + b, name) == Others(a, name) + Others(b, name)
    decreases |b|
  {
    if |b| == 0 {
      assert a + b == a;
    } else {
      var b', c := b[..|b| - 1], b[|b| - 1];
      var kept := if Matches(c, name) then [] else [c];
      SplitLast(a, b);
      AppendOthers(a, b', name);
      SnocOthers(a + b', c, name);
      SnocOthers(b', c, name);
      assert Others(a, name) + Others(b', name) + kept == Others(a, name) + (Others(b', name) + kept);
    }
  }

  /** Taking out one matching card lowers the count by one and keeps the other cards. */
  lemma DropOne(a: seq<Card>, c: Card, b: seq<Card>, name: string)
    requires Matches(c, name)
    ensures Count(a + [c] + b, name) == Count(a + b, name) + 1
    ensures Others(a + [c] + b, name) == Others(a + b, name)
  {
    AppendFacts(a + [c], b, name);
    SnocFacts(a, c, name);
    AppendFacts(a, b, name);
    assert Others(a, name) + [] == Others(a, name);
  }

  /** A positive count means some card matches. */
  lemma {:induction false} CountWitness(s: seq<Card>, name: string)
    requires Count(s, name) > 0
    ensures exists i :: 0 <= i < |s| && Matches(s[i], name)
    decreases |s|
  {
    if !Matches(s[|s| - 1], name) {
      CountWitness(s[..|s| - 1], name);
      var i :| 0 <= i < |s| - 1 && Matches(s[..|s| - 1][i], name);
      assert s[i] == s[..|s| - 1][i];
    }
  }

  /** Conversely, any matching card makes the count positive. */
  lemma {:induction false} MatchCounts(s: seq<Card>, name: string, i: nat)
    requires i < |s| && Matches(s[i], name)
    ensures Count(s, name) > 0
  {
    SplitAt(s, i);
    SnocCount(s[..i], s[i], name);
    AppendCount(s[..i] + [s[i]], s[i + 1..], name);
  }

  /** A name occurs in an inventory exactly when `findIndex` finds it. */
  lemma CountPositiveIffFound(s: seq<Card>, name: string)
    ensures Count(s, name) > 0 <==> FirstMatch(s, name).Some?
  {
    if Count(s, name) > 0 {
      CountWitness(s, name);
    }
    if FirstMatch(s, name).Some? {
      MatchCounts(s, name, FirstMatch(s, name).value);
    }
  }

  /** Filtering keeps only cards that were there. */
  lemma {:induction false} OthersSubset(s: seq<Card>, name: string)
    ensures forall c :: c in Others(s, name) ==> c in s
    decreases |s|
  {
    if |s| > 0 {
      OthersSubset(s[..|s| - 1], name);
      assert s == s[..|s| - 1] + [s[|s| - 1]];
    }
  }

  function Min(a: nat, b: nat): nat
  {
    if a <= b then a else b
  }

  /** What is left of an inventory after a removal, and how many cards were taken. */
  datatype Removal = Removal(rest: seq<Card>, removed: nat)

  /**
    Takes up to `k` cards matching `name` from `s`, looking at the last card
    first: the reference meaning of `removeCardsFromInventory`'s loop.
   */
  function RemoveFromBack(s: seq<Card>, name: string, k: nat): Removal
    decreases |s|
  {
    if |s| == 0 || k == 0 then Removal(s, 0)
    else
      var last := s[|s| - 1];
      if Matches(last, name) then
        var r := RemoveFromBack(s[..|s| - 1], name, k - 1);
        Removal(r.rest, r.removed + 1)
      else
        var r := RemoveFromBack(s[..|s| - 1], name, k);
        Removal(r.rest + [last], r.removed)
  }

  /** One step of the backward scan: the last card is either taken or kept. */
  lemma RemoveFromBackStep(p: seq<Card>, c: Card, name: string, k: nat)
    requires k > 0
    ensures Matches(c, name) ==>
      RemoveFromBack(p + [c], name, k)
        == Removal(RemoveFromBack(p, name, k - 1).rest, RemoveFromBack(p, name, k - 1).removed + 1)
    ensures !Matches(c, name) ==>
      RemoveFromBack(p + [c], name, k)
        == Removal(RemoveFromBack(p, name, k).rest + [c], RemoveFromBack(p, name, k).removed)
  {
    assert (p + [c])[..|p|] == p;
  }

  /**
    A removal takes `min(k, count)` matching cards and nothing else: the
    non-matching cards stay, in order, and on a shortfall no match is left.
   */
  lemma {:induction false} RemoveFromBackCounts(s: seq<Card>, name: string, k: nat)
    ensures RemoveFromBack(s, name, k).removed == Min(k, Count(s, name))
    ensures Count(RemoveFromBack(s, name, k).rest, name) == Count(s, name) - RemoveFromBack(s, name, k).removed
    ensures Others(RemoveFromBack(s, name, k).rest, name) == Others(s, name)
    ensures |RemoveFromBack(s, name, k).rest| + RemoveFromBack(s, name, k).removed == |s|
    decreases |s|
  {
    if |s| > 0 && k > 0 {
      var s' := s[..|s| - 1];
      var last := s[|s| - 1];
      var k' := if Matches(last, name) then k - 1 else k;
      RemoveFromBackCounts(s', name, k');
      SnocFacts(RemoveFromBack(s', name, k').rest, last, name);
    }
  }

  /**
    `r` keeps the prefix `pre` of `s` untouched and deletes every match of the
    suffix `suf` after it, and that suffix holds exactly the cards `r` removed.
   */
  predicate SplitsAt(s: seq<Card>, name: string, r: Removal, pre: seq<Card>, suf: seq<Card>)
  {
    && s == pre + suf
    && r.rest == pre + Others(suf, name)
    && Count(suf, name) == r.removed
  }

  /**
    The matches a removal takes are the last ones of the inventory: the
    returned split point leaves `pre` untouched and empties `suf` of matches.
   */
  lemma {:induction false} RemoveFromBackTakesLast(s: seq<Card>, name: string, k: nat)
    returns (pre: seq<Card>, suf: seq<Card>)
    ensures SplitsAt(s, name, RemoveFromBack(s, name, k), pre, suf)
    decreases |s|
  {
    if |s| == 0 || k == 0 {
      pre, suf := s, [];
      assert s + [] == s;
    } else {
      var s' := s[..|s| - 1];
      var last := s[|s| - 1];
      var k' := if Matches(last, name) then k - 1 else k;
      pre, suf := RemoveFromBackTakesLast(s', name, k');
      SplitLast([], s);
      SplitsSnoc(s', last, name, k, pre, suf);
      suf := suf + [last];
    }
  }

  /** A split of the shorter inventory extends to one of the inventory with `c` appended. */
  lemma SplitsSnoc(p: seq<Card>, c: Card, name: string, k: nat, pre: seq<Card>, suf: seq<Card>)
    requires k > 0
    requires SplitsAt(p, name, RemoveFromBack(p, name, if Matches(c, name) then k - 1 else k), pre, suf)
    ensures SplitsAt(p + [c], name, RemoveFromBack(p + [c], name, k), pre, suf + [c])
  {
    RemoveFromBackStep(p, c, name, k);
    SnocFacts(suf, c, name);
    if Matches(c, name) {
      assert Others(suf, name) + [] == Others(suf, name);
    } else {
      assert (pre + Others(suf, name)) + [c] == pre + (Others(suf, name) + [c]);
    }
  }

  /**
    Scan state: the unscanned prefix `pre`, the kept suffix `tail` and the
    `removed` cards taken so far account for the whole removal from `inv`.
   */
  predicate Scanned(inv: seq<Card>, name: string, k: nat, pre: seq<Card>, tail: seq<Card>, removed: nat)
    requires removed <= k
  {
    var r := RemoveFromBack(pre, name, k - removed);
    RemoveFromBack(inv, name, k) == Removal(r.rest + tail, r.removed + removed)
  }

  /** Scanning one more card from the back keeps the account. */
  lemma ScanOne(inv: seq<Card>, name: string, k: nat, pre: seq<Card>, tail: seq<Card>, removed: nat)
    requires |pre| > 0 && removed < k && Scanned(inv, name, k, pre, tail, removed)
    ensures var c := pre[|pre| - 1];
      Matches(c, name) ==> Scanned(inv, name, k, pre[..|pre| - 1], tail, removed + 1)
    ensures var c := pre[|pre| - 1];
      !Matches(c, name) ==> Scanned(inv, name, k, pre[..|pre| - 1], [c] + tail, removed)
  {
    var p, c := pre[..|pre| - 1], pre[|pre| - 1];
    assert pre == p + [c];
    RemoveFromBackStep(p, c, name, k - removed);
    var r := RemoveFromBack(p, name, k - removed);
    assert (r.rest + [c]) + tail == r.rest + ([c] + tail);
  }

  /**
    The loop of `removeCardsFromInventory`: walk from the last card to the
    first, splicing out matches until `k` have been taken.
   */
  method ScanFromBack(inv: seq<Card>, name: string, k: nat) returns (rest: seq<Card>, removed: nat)
    ensures Removal(rest, removed) == RemoveFromBack(inv, name, k)
  {
    ghost var pre, tail := inv, [];
    rest := inv;
    removed := 0;
    var i := |inv| - 1;
    assert rest == pre + tail;
    while i >= 0 && removed < k
      invariant |pre| == i + 1
      invariant rest == pre + tail
      invariant 0 <= removed <= k
      invariant Scanned(inv, name, k, pre, tail, removed)
      decreases i + 1
    {
      var c := rest[i];
      ghost var p := pre[..i];
      assert c == pre[i] && pre == p + [c];
      ScanOne(inv, name, k, pre, tail, removed);
      if Matches(c, name) {
        assert rest[..i] == p && rest[i + 1..] == tail;
        rest := rest[..i] + rest[i + 1..];
        removed := removed + 1;
      } else {
        assert rest == p + ([c] + tail);
        tail := [c] + tail;
      }
      pre := p;
      i := i - 1;
    }
    assert [] + tail == tail;
  }

  /**
    `removeCardsFromInventory` on an existing inventory: the result is true
    exactly when `amount` cards were taken; on a shortfall the matches already
    taken stay removed.
   */
  method RemoveCards(inv: seq<Card>, name: string, amount: int) returns (rest: seq<Card>, ok: bool)
    ensures rest == RemoveFromBack(inv, name, if amount < 0 then 0 else amount).rest
    ensures ok <==> 0 <= amount <= Count(inv, name)
    ensures ok ==> Count(rest, name) == Count(inv, name) - amount
    ensures !ok && amount > 0 ==> Count(rest, name) == 0
  {
    var k: nat := if amount < 0 then 0 else amount;
    var removed;
    rest, removed := ScanFromBack(inv, name, k);
    ok := removed == amount;
    RemoveFromBackCounts(inv, name, k);
  }

  /** A removal never introduces a card that was not in the inventory. */
  lemma RemoveFromBackKeeps(s: seq<Card>, name: string, k: nat)
    ensures forall c :: c in RemoveFromBack(s, name, k).rest ==> c in s
  {
    var pre, suf := RemoveFromBackTakesLast(s, name, k);
    OthersSubset(suf, name);
  }

  /** `n` copies of one card, as pushed one by one by a trade. */
  function Copies(c: Card, n: nat): (r: seq<Card>)
    ensures |r| == n
    ensures forall x :: x in r ==> x == c
  {
    if n == 0 then [] else Copies(c, n - 1) + [c]
  }

  /** Copies of a card matching `name` add exactly `n` to its count and nothing else. */
  lemma {:induction false} CopiesCount(c: Card, n: nat, name: string)
    requires Matches(c, name)
    ensures Count(Copies(c, n), name) == n
    ensures Others(Copies(c, n), name) == []
  {
    if n > 0 {
      CopiesCount(c, n - 1, name);
      SnocFacts(Copies(c, n - 1), c, name);
    }
  }

  /** `addCardToInventory` on an existing (or empty) inventory. */
  function AddCard(inv: seq<Card>, card: Card): (r: seq<Card>)
    ensures |r| == |inv| + 1 && r[..|inv|] == inv && r[|inv|] == card
  {
    assert (inv + [card])[..|inv|] == inv;
    inv + [card]
  }

  /** Adding a card raises the count of exactly the names it matches, by one. */
  lemma AddCardCounts(inv: seq<Card>, card: Card, name: string)
    ensures Count(AddCard(inv, card), name) == Count(inv, name) + (if Matches(card, name) then 1 else 0)
    ensures Others(AddCard(inv, card), name) == Others(inv, name) + (if Matches(card, name) then [] else [card])
  {
    SnocFacts(inv, card, name);
  }
}

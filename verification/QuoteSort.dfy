/** Quotes with their prices, the stable sort that orders them, and the ranks
    that sorting gives. */
module QuoteSort {
  import ByteStrings
  import opened Pricing

  type QuoteHash = ByteStrings.XorName

  type RewardsAddress = b: ByteStrings.Bytes | |b| == 20 witness seq(20, _ => 0)

  /** A quote as the payment needs it: its hash and where its node is paid. */
  datatype PaymentQuote = PaymentQuote(hash: QuoteHash, rewards: RewardsAddress)

  datatype PricedQuote = PricedQuote(quote: PaymentQuote, price: Amount)

  ghost predicate Sorted(s: seq<PricedQuote>) {
    forall i, j :: 0 <= i < j < |s| ==> s[i].price <= s[j].price
  }

  /** The quotes at one price, in order. */
  function AtPrice(s: seq<PricedQuote>, price: Amount): seq<PricedQuote> {
    if s == [] then [] else
      AtPrice(s[..|s| - 1], price) + if s[|s| - 1].price == price then [s[|s| - 1]] else []
  }

  /** `x` after everything that costs no more. */
  function Insert(x: PricedQuote, s: seq<PricedQuote>): (r: seq<PricedQuote>)
    ensures multiset(r) == multiset(s) + multiset{x} && |r| == |s| + 1
  {
    if s == [] || s[|s| - 1].price <= x.price then s + [x] else
      var last := s[|s| - 1];
      assert s == s[..|s| - 1] + [last];
      Insert(x, s[..|s| - 1]) + [last]
  }

  /** The stable sort by price, cheapest first. */
  function Sort(s: seq<PricedQuote>): (r: seq<PricedQuote>)
    ensures multiset(r) == multiset(s) && |r| == |s|
  {
    if s == [] then [] else
      assert s == s[..|s| - 1] + [s[|s| - 1]];
      Insert(s[|s| - 1], Sort(s[..|s| - 1]))
  }

  /** Sorts in place. */
  method SortByPrice(a: array<PricedQuote>)
    modifies a
    ensures a[..] == Sort(old(a[..]))
  {
    ghost var all := a[..];
    var i := 0;
    while i < a.Length
      invariant 0 <= i <= a.Length
      invariant a[..i] == Sort(all[..i])
      invariant forall k :: i <= k < a.Length ==> a[k] == all[k]
    {
      assert all[..i + 1][..i] == all[..i];
      InsertAt(a, i);
      i := i + 1;
    }
    assert a[..] == a[..i] && all == all[..i];
  }

  /** Moves the element at `i` down into the ordered part before it. */
  method InsertAt(a: array<PricedQuote>, i: nat)
    requires i < a.Length
    modifies a
    ensures a[..i + 1] == Insert(old(a[i]), old(a[..i]))
    ensures forall k :: i < k < a.Length ==> a[k] == old(a[k])
  {
    var x, j := a[i], i;
    ghost var was := a[..i];
    while 0 < j && a[j - 1].price > x.price
      invariant 0 <= j <= i && a[j] == x
      invariant forall k :: 0 <= k < j ==> a[k] == was[k]
      invariant forall k :: j < k <= i ==> a[k] == was[k - 1]
      invariant forall k :: i < k < a.Length ==> a[k] == old(a[k])
      invariant forall k :: j <= k < i ==> was[k].price > x.price
    {
      a[j - 1], a[j] := a[j], a[j - 1];
      j := j - 1;
    }
    InsertPlace(x, was, j);
  }

  /** Where an insertion lands: before all that cost more, after the rest. */
  lemma {:induction false} InsertPlace(x: PricedQuote, s: seq<PricedQuote>, j: nat)
    requires j <= |s| && (j > 0 ==> s[j - 1].price <= x.price)
    requires forall k :: j <= k < |s| ==> s[k].price > x.price
    ensures Insert(x, s)[j] == x
    ensures forall k :: 0 <= k < j ==> Insert(x, s)[k] == s[k]
    ensures forall k :: j < k <= |s| ==> Insert(x, s)[k] == s[k - 1]
  {
    if j == |s| {
      assert Insert(x, s) == s + [x];
    } else {
      var init, last := s[..|s| - 1], s[|s| - 1];
      InsertPlace(x, init, j);
      assert Insert(x, s) == Insert(x, init) + [last];
    }
  }

  lemma {:induction false} InsertKeepsOrder(x: PricedQuote, s: seq<PricedQuote>)
    requires Sorted(s)
    ensures Sorted(Insert(x, s))
    ensures forall q :: q in Insert(x, s) ==> q == x || q in s
  {
    if s != [] && s[|s| - 1].price > x.price {
      var init := s[..|s| - 1];
      InsertKeepsOrder(x, init);
      assert forall q :: q in Insert(x, init) ==> q.price <= s[|s| - 1].price;
    }
  }

  lemma {:induction false} InsertIsStable(x: PricedQuote, s: seq<PricedQuote>, price: Amount)
    requires Sorted(s)
    ensures AtPrice(Insert(x, s), price) == AtPrice(s + [x], price)
  {
    assert (s + [x])[..|s|] == s;
    if s != [] && s[|s| - 1].price > x.price {
      var init, last := s[..|s| - 1], s[|s| - 1];
      InsertIsStable(x, init, price);
      assert (init + [x])[..|init|] == init;
      assert (Insert(x, init) + [last])[..|s|] == Insert(x, init);
    }
  }

  /** Sorting orders the quotes and keeps those of one price in their order. */
  lemma {:induction false} SortIsStable(s: seq<PricedQuote>)
    ensures Sorted(Sort(s))
    ensures forall price: Amount :: AtPrice(Sort(s), price) == AtPrice(s, price)
  {
    if s != [] {
      var init, last := s[..|s| - 1], s[|s| - 1];
      SortIsStable(init);
      InsertKeepsOrder(last, Sort(init));
      forall price: Amount
        ensures AtPrice(Sort(s), price) == AtPrice(s, price)
      {
        InsertIsStable(last, Sort(init), price);
        assert (Sort(init) + [last])[..|init|] == Sort(init);
      }
    }
  }

  lemma {:induction false} AtPriceFinds(s: seq<PricedQuote>, q: PricedQuote, price: Amount)
    ensures q in AtPrice(s, price) <==> q in s && q.price == price
  {
    if s != [] {
      AtPriceFinds(s[..|s| - 1], q, price);
      assert s == s[..|s| - 1] + [s[|s| - 1]];
    }
  }

  lemma SameTails(a: seq<PricedQuote>, b: seq<PricedQuote>, x: PricedQuote, y: PricedQuote)
    requires a + [x] == b + [y]
    ensures a == b && x == y
  {
    assert a == (a + [x])[..|a|] && b == (b + [y])[..|b|];
    assert (a + [x])[|a|] == x && (b + [y])[|b|] == y;
  }

  /** Being sorted and stable leaves no choice: whatever algorithm the library
      uses, its result is `Sort`. */
  lemma {:induction false} StableSortIsUnique(s: seq<PricedQuote>, t: seq<PricedQuote>)
    requires Sorted(s) && Sorted(t) && forall price: Amount :: AtPrice(s, price) == AtPrice(t, price)
    ensures s == t
  {
    if s == [] {
      if t != [] {
        var q := t[0];
        AtPriceFinds(t, q, q.price);
        AtPriceFinds(s, q, q.price);
      }
    } else {
      var x := s[|s| - 1];
      AtPriceFinds(s, x, x.price);
      AtPriceFinds(t, x, x.price);
      var y := t[|t| - 1];
      AtPriceFinds(s, y, y.price);
      AtPriceFinds(t, y, y.price);
      assert x.price == y.price;
      SameTails(AtPrice(s[..|s| - 1], x.price), AtPrice(t[..|t| - 1], x.price), x, y);
      var a, b := s[..|s| - 1], t[..|t| - 1];
      forall price: Amount
        ensures AtPrice(a, price) == AtPrice(b, price)
      {
        assert AtPrice(s, price) == AtPrice(t, price);
        if price == x.price {
          SameTails(AtPrice(a, price), AtPrice(b, price), x, y);
        } else {
          assert AtPrice(a, price) == AtPrice(s, price);
          assert AtPrice(b, price) == AtPrice(t, price);
        }
      }
      StableSortIsUnique(a, b);
      assert s == a + [x] && t == b + [y];
    }
  }

  // ---------------------------------------------------------------------------
  // Ranks
  // ---------------------------------------------------------------------------

  /** How many quotes cost less than `m`. */
  function Below(s: seq<PricedQuote>, m: Amount): nat {
    if s == [] then 0 else Below(s[..|s| - 1], m) + if s[|s| - 1].price < m then 1 else 0
  }

  /** How many cost at most `m`. */
  function AtMost(s: seq<PricedQuote>, m: Amount): nat {
    if s == [] then 0 else AtMost(s[..|s| - 1], m) + if s[|s| - 1].price <= m then 1 else 0
  }

  lemma {:induction false} CountsAreBounded(s: seq<PricedQuote>, m: Amount)
    ensures Below(s, m) <= AtMost(s, m) <= |s|
    ensures (forall q :: q in s ==> q.price <= m) ==> AtMost(s, m) == |s|
  {
    if s != [] {
      CountsAreBounded(s[..|s| - 1], m);
    }
  }

  lemma {:induction false} CountsAscend(s: seq<PricedQuote>, m: Amount, n: Amount)
    requires m < n
    ensures AtMost(s, m) <= Below(s, n)
  {
    if s != [] {
      CountsAscend(s[..|s| - 1], m, n);
    }
  }

  lemma {:induction false} InsertIsCounted(x: PricedQuote, s: seq<PricedQuote>, m: Amount)
    ensures Below(Insert(x, s), m) == Below(s, m) + if x.price < m then 1 else 0
    ensures AtMost(Insert(x, s), m) == AtMost(s, m) + if x.price <= m then 1 else 0
  {
    if s == [] || s[|s| - 1].price <= x.price {
      assert (s + [x])[..|s|] == s;
    } else {
      var init := s[..|s| - 1];
      InsertIsCounted(x, init, m);
      assert (Insert(x, init) + [s[|s| - 1]])[..|s|] == Insert(x, init);
    }
  }

  lemma {:induction false} SortIsCounted(s: seq<PricedQuote>, m: Amount)
    ensures Below(Sort(s), m) == Below(s, m) && AtMost(Sort(s), m) == AtMost(s, m)
  {
    if s != [] {
      SortIsCounted(s[..|s| - 1], m);
      InsertIsCounted(s[|s| - 1], Sort(s[..|s| - 1]), m);
    }
  }

  /** In a sorted sequence the price at `i` has at most `i` below it and more
      than `i` at or below it. */
  lemma {:induction false} SortedRanks(s: seq<PricedQuote>, i: nat)
    requires Sorted(s) && i < |s|
    ensures Below(s, s[i].price) <= i < AtMost(s, s[i].price)
  {
    var init := s[..|s| - 1];
    if i < |init| {
      SortedRanks(init, i);
    } else {
      CountsAreBounded(init, s[i].price);
    }
  }

  /** The price of rank `i`, by counting alone. */
  ghost predicate HasRank(s: seq<PricedQuote>, i: nat, m: Amount) {
    Below(s, m) <= i < AtMost(s, m)
  }

  lemma RankIsUnique(s: seq<PricedQuote>, i: nat, m: Amount, n: Amount)
    requires HasRank(s, i, m) && HasRank(s, i, n)
    ensures m == n
  {
    if m < n {
      CountsAscend(s, m, n);
    } else if n < m {
      CountsAscend(s, n, m);
    }
  }

  /** Sorting puts at index `i` the one price of rank `i`. */
  lemma SortFindsTheRank(s: seq<PricedQuote>, i: nat, m: Amount)
    requires i < |s|
    ensures Sort(s)[i].price == m <==> HasRank(s, i, m)
  {
    var found := Sort(s)[i].price;
    SortIsStable(s);
    SortedRanks(Sort(s), i);
    SortIsCounted(s, found);
    if HasRank(s, i, m) {
      RankIsUnique(s, i, m, found);
    }
  }

  lemma {:induction false} RemoveIsCounted(s: seq<PricedQuote>, k: nat, m: Amount)
    requires k < |s|
    ensures Below(s, m) == Below(s[..k] + s[k + 1..], m) + if s[k].price < m then 1 else 0
    ensures AtMost(s, m) == AtMost(s[..k] + s[k + 1..], m) + if s[k].price <= m then 1 else 0
  {
    var n := |s| - 1;
    if k == n {
      assert s[..k] + s[k + 1..] == s[..n];
    } else {
      var fewer := s[..k] + s[k + 1..];
      RemoveIsCounted(s[..n], k, m);
      assert fewer[..n - 1] == s[..n][..k] + s[..n][k + 1..];
    }
  }

  lemma TakeOut(t: seq<PricedQuote>, x: PricedQuote) returns (k: nat)
    requires x in multiset(t)
    ensures k < |t| && t[k] == x
    ensures multiset(t[..k] + t[k + 1..]) == multiset(t) - multiset{x}
  {
    k :| 0 <= k < |t| && t[k] == x;
    assert t == t[..k] + [x] + t[k + 1..];
  }

  /** Counting does not see the order. */
  lemma {:induction false} CountsIgnoreOrder(s: seq<PricedQuote>, t: seq<PricedQuote>, m: Amount)
    requires multiset(s) == multiset(t)
    ensures Below(s, m) == Below(t, m) && AtMost(s, m) == AtMost(t, m)
    decreases |s|
  {
    assert |multiset(s)| == |s| && |multiset(t)| == |t|;
    if s != [] {
      var init, x := s[..|s| - 1], s[|s| - 1];
      assert multiset(s) == multiset(init) + multiset{x} by {
        assert s == init + [x];
      }
      var k := TakeOut(t, x);
      CountsIgnoreOrder(init, t[..k] + t[k + 1..], m);
      RemoveIsCounted(t, k, m);
    }
  }

  // ---------------------------------------------------------------------------
  // Replaced prices
  // ---------------------------------------------------------------------------

  /** At how many places the prices differ. */
  function Changed(s: seq<PricedQuote>, t: seq<PricedQuote>): nat
    requires |s| == |t|
  {
    if s == [] then 0 else
      Changed(s[..|s| - 1], t[..|t| - 1]) + if s[|s| - 1].price != t[|t| - 1].price then 1 else 0
  }

  /** More cheap quotes than changes: a cheap one was kept. */
  lemma {:induction false} KeptCheap(s: seq<PricedQuote>, t: seq<PricedQuote>, m: Amount) returns (i: nat)
    requires |s| == |t| && AtMost(t, m) > Changed(s, t)
    ensures i < |s| && s[i].price == t[i].price <= m
  {
    i := |s| - 1;
    if s[i].price != t[i].price || t[i].price > m {
      i := KeptCheap(s[..i], t[..i], m);
    }
  }

  /** More dear quotes than changes: a dear one was kept. */
  lemma {:induction false} KeptDear(s: seq<PricedQuote>, t: seq<PricedQuote>, m: Amount) returns (i: nat)
    requires |s| == |t| && |t| - Below(t, m) > Changed(s, t)
    ensures i < |s| && s[i].price == t[i].price >= m
  {
    i := |s| - 1;
    if s[i].price != t[i].price || t[i].price < m {
      i := KeptDear(s[..i], t[..i], m);
    }
  }

  /** Replacing `k` prices by `m` puts `k` quotes on both sides of `m`. */
  lemma {:induction false} Flood(s: seq<PricedQuote>, k: nat, m: Amount) returns (t: seq<PricedQuote>)
    requires k <= |s|
    ensures |t| == |s| && Changed(s, t) <= k
    ensures AtMost(t, m) >= k && |t| - Below(t, m) >= k
  {
    if s == [] {
      t := [];
    } else {
      var last := s[|s| - 1];
      var init := Flood(s[..|s| - 1], if k > 0 then k - 1 else 0, m);
      CountsAreBounded(init, m);
      t := init + [if k > 0 then last.(price := m) else last];
      assert t[..|t| - 1] == init;
    }
  }
}

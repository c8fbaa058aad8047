/** What the payment strategy promises: the construction, the agreement of payer
    and verifier whatever the order of the quotes, and the median's robustness. */
module SingleNodePaymentProofs {
  import opened Wrappers
  import opened Pricing
  import opened QuoteSort
  import opened SingleNodePayment

  /** `m` is the median price of seven quotes: at most three below, at least four
      at or below. It does not mention sorting. */
  ghost predicate IsMedian(quotes: seq<PricedQuote>, m: Amount) {
    |quotes| == 7 && HasRank(quotes, 3, m)
  }

  /** A payment can be built, and its amount is three times `m`. */
  ghost predicate Payable(quotes: seq<PricedQuote>, m: Amount) {
    IsMedian(quotes, m) && 3 * m <= UINT256_MAX && Build(quotes).Success?
  }

  lemma MedianExists(quotes: seq<PricedQuote>) returns (m: Amount)
    requires |quotes| == 7
    ensures IsMedian(quotes, m)
  {
    m := Sort(quotes)[3].price;
    SortFindsTheRank(quotes, 3, m);
  }

  lemma MedianIgnoresOrder(quotes: seq<PricedQuote>, shuffled: seq<PricedQuote>, m: Amount)
    requires multiset(quotes) == multiset(shuffled)
    ensures IsMedian(quotes, m) <==> IsMedian(shuffled, m)
  {
    assert |multiset(quotes)| == |quotes| && |multiset(shuffled)| == |shuffled|;
    CountsIgnoreOrder(quotes, shuffled, m);
  }

  /** Everything but the entry at `i` is a zero payment. */
  ghost predicate OnlyPays(infos: seq<QuotePaymentInfo>, i: nat) {
    forall k :: 0 <= k < |infos| && k != i ==> infos[k].amount == 0
  }

  /** Entry `k` of a payment is quote `k`, field by field. */
  ghost predicate Lists(infos: seq<QuotePaymentInfo>, quotes: seq<PricedQuote>) {
    && |infos| == |quotes|
    && forall k :: 0 <= k < |infos| ==>
         && infos[k].quoteHash == quotes[k].quote.hash
         && infos[k].rewardsAddress == quotes[k].quote.rewards
         && infos[k].price == quotes[k].price
  }

  /** The entry pays the node of one of the quotes at price `m`. */
  ghost predicate PaysOneOf(quotes: seq<PricedQuote>, m: Amount, paid: QuotePaymentInfo) {
    exists x :: x in quotes && x.price == m
                && paid.quoteHash == x.quote.hash && paid.rewardsAddress == x.quote.rewards
  }

  /** A payment is built exactly when there are seven quotes and three times the
      median fits a word. It lists the quotes cheapest first, as the stable sort
      of the input, and pays only the median one: three times the median, to the
      node of a quote at that price. */
  lemma BuildOutcome(quotes: seq<PricedQuote>, m: Amount) returns (sorted: seq<PricedQuote>)
    requires |quotes| == 7 ==> IsMedian(quotes, m)
    ensures |quotes| != 7 ==> Build(quotes) == Failure(WrongCount(|quotes|))
    ensures |quotes| == 7 && 3 * m > UINT256_MAX ==> Build(quotes) == Failure(PriceOverflow)
    ensures |quotes| == 7 && 3 * m <= UINT256_MAX ==> Build(quotes).Success?
    ensures multiset(sorted) == multiset(quotes) && Sorted(sorted)
    ensures forall price: Amount :: AtPrice(sorted, price) == AtPrice(quotes, price)
    ensures Build(quotes).Success? ==>
              var p := Build(quotes).value;
              && Lists(p.quotes, sorted) && OnlyPays(p.quotes, 3)
              && p.PaidQuote() == p.quotes[3] && PaysOneOf(quotes, m, p.quotes[3])
              && p.quotes[3].price == m && p.quotes[3].amount == 3 * m == p.TotalAmount()
  {
    sorted := Sort(quotes);
    SortIsStable(quotes);
    if |quotes| == 7 {
      SortFindsTheRank(quotes, 3, m);
      assert sorted[3] in multiset(quotes);
      if Build(quotes).Success? {
        SumOfOnePayment(Build(quotes).value.quotes, 3);
      }
    }
  }

  /** The exact sum of the amounts. */
  function Sum(infos: seq<QuotePaymentInfo>): nat {
    if infos == [] then 0 else Sum(infos[..|infos| - 1]) + infos[|infos| - 1].amount
  }

  /** The total of any payment is the sum, less whole words of 2 to the 256. */
  lemma {:induction false} TotalWrapsAround(infos: seq<QuotePaymentInfo>) returns (words: nat)
    ensures Sum(infos) == WrappingSum(infos) + words * (UINT256_MAX + 1)
  {
    words := 0;
    if infos != [] {
      var before := TotalWrapsAround(infos[..|infos| - 1]);
      var sum, last := WrappingSum(infos[..|infos| - 1]), infos[|infos| - 1].amount;
      words := if sum + last <= UINT256_MAX then before else before + 1;
    }
  }

  lemma {:induction false} SumOfOnePayment(infos: seq<QuotePaymentInfo>, i: nat)
    requires OnlyPays(infos, i)
    ensures WrappingSum(infos) == if i < |infos| then infos[i].amount else 0
  {
    if infos != [] {
      SumOfOnePayment(infos[..|infos| - 1], i);
    }
  }

  lemma {:induction false} SettlingOnePayment(ledger: Ledger, infos: seq<QuotePaymentInfo>, i: nat)
    requires OnlyPays(infos, i)
    ensures Settled(ledger, infos) ==
            if i < |infos| && infos[i].amount > 0 then ledger[infos[i].quoteHash := infos[i].amount] else ledger
  {
    if infos != [] {
      SettlingOnePayment(ledger, infos[..|infos| - 1], i);
    }
  }

  lemma {:induction false} MovingOnePayment(infos: seq<QuotePaymentInfo>, i: nat)
    requires OnlyPays(infos, i)
    ensures Transfers(infos) ==
            if i < |infos| && infos[i].amount > 0 then [Transfer(infos[i].rewardsAddress, infos[i].amount)] else []
  {
    if infos != [] {
      MovingOnePayment(infos[..|infos| - 1], i);
    }
  }

  lemma {:induction false} ReceiptOfOnePayment(infos: seq<QuotePaymentInfo>, i: nat,
                                               transactions: map<QuoteHash, TxHash>)
    requires OnlyPays(infos, i)
    ensures Receipts(infos, transactions) ==
            if i >= |infos| || infos[i].amount == 0 then Success([])
            else if infos[i].quoteHash in transactions then Success([transactions[infos[i].quoteHash]])
            else Failure(MissingTransaction(infos[i].quoteHash))
  {
    if infos != [] {
      ReceiptOfOnePayment(infos[..|infos| - 1], i, transactions);
      var last := infos[|infos| - 1].quoteHash;
      assert last in transactions ==> [] + [transactions[last]] == [transactions[last]];
    }
  }

  /** What a built payment with a non-zero median comes to: three medians recorded
      under the median quote, the same moved to its node, and one transaction. */
  lemma PayingMovesThreeMedians(quotes: seq<PricedQuote>, m: Amount, ledger: Ledger,
                                transactions: map<QuoteHash, TxHash>)
    requires Payable(quotes, m) && m > 0
    ensures var (p, paid) := (Build(quotes).value, Build(quotes).value.quotes[3]);
            && PaysOneOf(quotes, m, paid)
            && Settled(ledger, p.quotes) == ledger[paid.quoteHash := 3 * m]
            && Transfers(p.quotes) == [Transfer(paid.rewardsAddress, 3 * m)]
            && Receipts(p.quotes, transactions) ==
               if paid.quoteHash in transactions then Success([transactions[paid.quoteHash]])
               else Failure(MissingTransaction(paid.quoteHash))
  {
    var sorted := BuildOutcome(quotes, m);
    var p := Build(quotes).value;
    SettlingOnePayment(ledger, p.quotes, 3);
    MovingOnePayment(p.quotes, 3);
    ReceiptOfOnePayment(p.quotes, 3, transactions);
  }

  /** Paying a built payment. With a non-zero median, the wallet's success or a
      failure after the median entry leaves exactly one new record and one
      transfer: three medians, under the median quote and to its node. Otherwise
      nothing is recorded or moved. The result is that one transaction, or why
      there is none. */
  method PayBuilt(quotes: seq<PricedQuote>, ghost m: Amount, vault: Vault, reply: WalletReply)
    returns (r: Result<seq<TxHash>, PaymentError>)
    requires Payable(quotes, m)
    modifies vault
    ensures m > 0 && (reply.Paid? || reply.settled > 3) ==>
              var paid := Build(quotes).value.quotes[3];
              && vault.completed == old(vault.completed)[paid.quoteHash := 3 * m]
              && vault.moved == old(vault.moved) + [Transfer(paid.rewardsAddress, 3 * m)]
              && PaysOneOf(quotes, m, paid)
    ensures m == 0 || (reply.Failed? && reply.settled <= 3) ==>
              vault.completed == old(vault.completed) && vault.moved == old(vault.moved)
    ensures reply.Failed? ==> r == Failure(WalletFailed)
    ensures reply.Paid? ==>
              var hash := Build(quotes).value.quotes[3].quoteHash;
              r == if m == 0 then Success([])
                   else if hash in reply.transactions then Success([reply.transactions[hash]])
                   else Failure(MissingTransaction(hash))
  {
    var p := Build(quotes).value;
    ghost var sorted := BuildOutcome(quotes, m);
    ghost var some := if reply.Failed? && reply.settled < 7 then p.quotes[..reply.settled] else p.quotes;
    SettlingOnePayment(vault.completed, some, 3);
    MovingOnePayment(some, 3);
    if reply.Paid? {
      ReceiptOfOnePayment(p.quotes, 3, reply.transactions);
    }
    r := Pay(p, vault, reply);
  }

  // ---------------------------------------------------------------------------
  // Verification
  // ---------------------------------------------------------------------------

  lemma {:induction false} TiedLikeAtPrice(infos: seq<QuotePaymentInfo>, quotes: seq<PricedQuote>, m: Amount)
    requires Lists(infos, quotes)
    ensures |Tied(infos, m)| == |AtPrice(quotes, m)|
    ensures forall k :: 0 <= k < |Tied(infos, m)| ==> Tied(infos, m)[k].quoteHash == AtPrice(quotes, m)[k].quote.hash
  {
    if infos != [] {
      TiedLikeAtPrice(infos[..|infos| - 1], quotes[..|quotes| - 1], m);
    }
  }

  /** The hashes of the quotes at one price, in the order given. */
  function Asked(quotes: seq<PricedQuote>, price: Amount): (hashes: seq<QuoteHash>)
    ensures |hashes| == |AtPrice(quotes, price)|
    ensures forall k :: 0 <= k < |hashes| ==> hashes[k] == AtPrice(quotes, price)[k].quote.hash
  {
    var at := AtPrice(quotes, price);
    seq(|at|, k requires 0 <= k < |at| => at[k].quote.hash)
  }

  /** The quotes a verifier asks about are those at the median price, in the order
      in which it was given them. */
  lemma TiedQuotes(quotes: seq<PricedQuote>, m: Amount)
    requires Payable(quotes, m)
    ensures Hashes(Tied(Build(quotes).value.quotes, m)) == Asked(quotes, m) != []
    ensures forall x :: x in AtPrice(quotes, m) <==> x in quotes && x.price == m
  {
    var sorted := BuildOutcome(quotes, m);
    var infos := Build(quotes).value.quotes;
    TiedLikeAtPrice(infos, sorted, m);
    assert infos[3] in Tied(infos, m);
    forall x
      ensures x in AtPrice(quotes, m) <==> x in quotes && x.price == m
    {
      AtPriceFinds(quotes, x, m);
    }
  }

  /** A quote at the median price with three times the median on record. */
  ghost predicate PaidFor(quotes: seq<PricedQuote>, m: Amount, ledger: Ledger) {
    exists x :: x in quotes && x.price == m && PaidEnough(ledger, x.quote.hash, 3 * m)
  }

  /** The verdict on a built payment, over the quotes at the median price in the
      order given and the record itself. A zero median is refused. Otherwise the
      first of these quotes whose lookup fails or that was paid enough decides;
      when there is none, the answer says how many were asked about. */
  lemma VerdictOnQuotes(quotes: seq<PricedQuote>, m: Amount, ledger: Ledger, down: set<QuoteHash>,
                        r: Result<Amount, PaymentError>) returns (k: nat)
    requires Payable(quotes, m) && Verdict(Build(quotes).value, ledger, down, r)
    ensures m == 0 ==> r == Failure(ZeroMedian(0, 0))
    ensures m > 0 ==> FirstDecides(Asked(quotes, m), k, 3 * m, ledger, down, r)
  {
    var sorted := BuildOutcome(quotes, m);
    TiedQuotes(quotes, m);
    k := 0;
    if m > 0 {
      k :| FirstDecides(Hashes(Tied(Build(quotes).value.quotes, m)), k, 3 * m, ledger, down, r);
    }
  }

  /** Acceptance implies a payment: some median-priced quote has the returned
      amount on record, and it is at least three times a non-zero median. */
  lemma AcceptanceMeansPaid(quotes: seq<PricedQuote>, m: Amount, ledger: Ledger, down: set<QuoteHash>, amount: Amount)
    requires Payable(quotes, m)
    requires Verdict(Build(quotes).value, ledger, down, Success(amount))
    ensures amount >= 3 * m > 0 && PaidFor(quotes, m, ledger)
    ensures exists x :: x in quotes && x.price == m && x.quote.hash in ledger && ledger[x.quote.hash] == amount
  {
    TiedQuotes(quotes, m);
    var k := VerdictOnQuotes(quotes, m, ledger, down, Success(amount));
    assert AtPrice(quotes, m)[k] in quotes;
  }

  /** Where a median-priced quote was paid, only a failed lookup stands in the
      way of acceptance. */
  lemma PaidIsNotRefused(quotes: seq<PricedQuote>, m: Amount, ledger: Ledger, down: set<QuoteHash>,
                         r: Result<Amount, PaymentError>)
    requires Payable(quotes, m) && m > 0 && PaidFor(quotes, m, ledger)
    requires Verdict(Build(quotes).value, ledger, down, r)
    ensures r.Success? || r == Failure(LookupFailed)
  {
    TiedQuotes(quotes, m);
    var k := VerdictOnQuotes(quotes, m, ledger, down, r);
    var x :| x in quotes && x.price == m && PaidEnough(ledger, x.quote.hash, 3 * m);
    assert x in AtPrice(quotes, m);
  }

  /** Every lookup the verifier may make succeeds. */
  ghost predicate LookupsSucceed(quotes: seq<PricedQuote>, m: Amount, down: set<QuoteHash>) {
    forall x :: x in quotes && x.price == m ==> x.quote.hash !in down
  }

  lemma LookupFailureIsReported(quotes: seq<PricedQuote>, m: Amount, ledger: Ledger, down: set<QuoteHash>)
    requires Payable(quotes, m)
    requires Verdict(Build(quotes).value, ledger, down, Failure(LookupFailed))
    ensures !LookupsSucceed(quotes, m, down)
  {
    TiedQuotes(quotes, m);
    var k := VerdictOnQuotes(quotes, m, ledger, down, Failure(LookupFailed));
    assert AtPrice(quotes, m)[k] in quotes;
  }

  /** A verifier that was not stopped by a failed lookup accepts exactly when
      some quote at the non-zero median price was paid three times it; with a
      non-zero median it refuses only for want of payment. */
  lemma AcceptedExactlyWhenPaid(quotes: seq<PricedQuote>, m: Amount, ledger: Ledger, down: set<QuoteHash>,
                                r: Result<Amount, PaymentError>)
    requires Payable(quotes, m)
    requires Verdict(Build(quotes).value, ledger, down, r) && r != Failure(LookupFailed)
    ensures r.Success? <==>
              && m > 0
              && exists x :: x in quotes && x.price == m && x.quote.hash in ledger && ledger[x.quote.hash] >= 3 * m
    ensures m > 0 && r.Failure? ==> r == Failure(NotPaidEnough(3 * m, |AtPrice(quotes, m)|))
  {
    var k := VerdictOnQuotes(quotes, m, ledger, down, r);
    if r.Success? {
      AcceptanceMeansPaid(quotes, m, ledger, down, r.value);
      var x :| x in quotes && x.price == m && PaidEnough(ledger, x.quote.hash, 3 * m);
    } else if x :| m > 0 && x in quotes && x.price == m && x.quote.hash in ledger && ledger[x.quote.hash] >= 3 * m {
      assert PaidEnough(ledger, x.quote.hash, 3 * m);
      PaidIsNotRefused(quotes, m, ledger, down, r);
    }
  }

  /** With nothing on record for any median-priced quote, nothing is accepted,
      whatever the wallet or anyone else paid for other quotes. */
  lemma UnpaidIsRefused(quotes: seq<PricedQuote>, m: Amount, ledger: Ledger, down: set<QuoteHash>,
                        r: Result<Amount, PaymentError>)
    requires Payable(quotes, m) && m > 0 && Verdict(Build(quotes).value, ledger, down, r)
    requires forall x :: x in quotes && x.price == m ==> x.quote.hash !in ledger
    ensures r == Failure(NotPaidEnough(3 * m, |AtPrice(quotes, m)|)) || r == Failure(LookupFailed)
    ensures LookupsSucceed(quotes, m, down) ==> r == Failure(NotPaidEnough(3 * m, |AtPrice(quotes, m)|))
  {
    if r == Failure(LookupFailed) {
      LookupFailureIsReported(quotes, m, ledger, down);
    } else {
      AcceptedExactlyWhenPaid(quotes, m, ledger, down, r);
    }
  }

  lemma PaidForIgnoresOrder(quotes: seq<PricedQuote>, shuffled: seq<PricedQuote>, m: Amount, ledger: Ledger)
    requires multiset(quotes) == multiset(shuffled)
    ensures PaidFor(quotes, m, ledger) == PaidFor(shuffled, m, ledger)
  {
    assert forall x :: x in quotes <==> x in multiset(quotes);
    assert forall x :: x in shuffled <==> x in multiset(shuffled);
  }

  /** Two verifiers with the same quotes in any two orders agree, whichever
      lookups fail for either, unless a failure stopped one of them. */
  lemma VerifiersAgree(quotes: seq<PricedQuote>, shuffled: seq<PricedQuote>, ledger: Ledger,
                       down1: set<QuoteHash>, r1: Result<Amount, PaymentError>,
                       down2: set<QuoteHash>, r2: Result<Amount, PaymentError>)
    requires multiset(quotes) == multiset(shuffled) && Build(quotes).Success? && Build(shuffled).Success?
    requires Verdict(Build(quotes).value, ledger, down1, r1) && Verdict(Build(shuffled).value, ledger, down2, r2)
    requires r1 != Failure(LookupFailed) && r2 != Failure(LookupFailed)
    ensures r1.Success? == r2.Success?
  {
    var m := MedianExists(quotes);
    MedianIgnoresOrder(quotes, shuffled, m);
    var sorted := BuildOutcome(quotes, m);
    AcceptedExactlyWhenPaid(quotes, m, ledger, down1, r1);
    AcceptedExactlyWhenPaid(shuffled, m, ledger, down2, r2);
    assert forall x :: x in quotes <==> x in multiset(quotes);
    assert forall x :: x in shuffled <==> x in multiset(shuffled);
  }

  // ---------------------------------------------------------------------------
  // Payer and verifier
  // ---------------------------------------------------------------------------

  /** What the payer put on record is what a verifier, with the quotes in any
      other order, looks for. */
  lemma PaymentIsOnRecord(quotes: seq<PricedQuote>, shuffled: seq<PricedQuote>, m: Amount, ledger: Ledger)
    requires multiset(quotes) == multiset(shuffled) && Payable(quotes, m) && m > 0
    ensures Payable(shuffled, m)
    ensures PaidFor(shuffled, m, ledger[Build(quotes).value.quotes[3].quoteHash := 3 * m])
  {
    MedianIgnoresOrder(quotes, shuffled, m);
    var sorted := BuildOutcome(quotes, m);
    var resorted := BuildOutcome(shuffled, m);
    var paid := Build(quotes).value.quotes[3];
    var after := ledger[paid.quoteHash := 3 * m];
    var x :| x in quotes && x.price == m && paid.quoteHash == x.quote.hash && paid.rewardsAddress == x.quote.rewards;
    assert PaidEnough(after, x.quote.hash, 3 * m);
    assert PaidFor(quotes, m, after);
    PaidForIgnoresOrder(quotes, shuffled, m, after);
  }

  /** After the record `PayBuilt` leaves: whichever tied quote was paid, and
      whatever else is on record, a node with the quotes in any other order can
      build its payment and accepts unless one of its lookups fails. With nothing
      else on record for these quotes, it reports exactly three times the median. */
  lemma PayerAndVerifierAgree(quotes: seq<PricedQuote>, shuffled: seq<PricedQuote>, m: Amount, ledger: Ledger,
                              down: set<QuoteHash>, r: Result<Amount, PaymentError>)
    requires multiset(quotes) == multiset(shuffled) && Payable(quotes, m) && m > 0
    requires Build(shuffled).Success? ==>
               Verdict(Build(shuffled).value, ledger[Build(quotes).value.quotes[3].quoteHash := 3 * m], down, r)
    ensures Build(shuffled).Success?
    ensures r.Success? || r == Failure(LookupFailed)
    ensures LookupsSucceed(shuffled, m, down) ==> r.Success?
    ensures r.Success? ==> r.value >= 3 * m
    ensures r.Success? && (forall x :: x in shuffled ==> x.quote.hash !in ledger) ==> r.value == 3 * m
  {
    PaymentIsOnRecord(quotes, shuffled, m, ledger);
    var after := ledger[Build(quotes).value.quotes[3].quoteHash := 3 * m];
    PaidIsNotRefused(shuffled, m, after, down, r);
    match r {
      case Success(amount) => AcceptanceMeansPaid(shuffled, m, after, down, amount);
      case Failure(_) => LookupFailureIsReported(shuffled, m, after, down);
    }
  }

  /** The whole exchange. The client builds its payment from one order of the
      quotes and pays; a node with the same quotes in any other order builds its
      own and verifies. Where the wallet made the median payment, the node accepts
      unless one of its lookups fails. */
  method PayThenVerify(client: array<PricedQuote>, node: array<PricedQuote>, ghost m: Amount, vault: Vault,
                       reply: WalletReply, down: set<QuoteHash>)
    returns (paid: Result<seq<TxHash>, PaymentError>, verdict: Result<Amount, PaymentError>)
    requires client != node && multiset(client[..]) == multiset(node[..])
    requires IsMedian(client[..], m) && 0 < 3 * m <= UINT256_MAX && (reply.Paid? || reply.settled > 3)
    modifies client, node, vault
    ensures verdict.Success? || verdict == Failure(LookupFailed)
    ensures LookupsSucceed(old(node[..]), m, down) ==> verdict.Success?
    ensures verdict.Success? ==> verdict.value >= 3 * m
    ensures verdict.Success? && (forall x :: x in old(node[..]) ==> x.quote.hash !in old(vault.completed)) ==>
              verdict.value == 3 * m
  {
    ghost var quotes, shuffled, ledger := client[..], node[..], vault.completed;
    ghost var sorted := BuildOutcome(quotes, m);
    PaymentIsOnRecord(quotes, shuffled, m, ledger);
    var asked := client[..];
    var payment := FromQuotes(client);
    paid := PayBuilt(asked, m, vault, reply);
    assert node[..] == shuffled;
    var own := FromQuotes(node);
    verdict := Verify(own.value, vault, down);
    PayerAndVerifierAgree(quotes, shuffled, m, ledger, down, verdict);
  }

  /** The verdict is determined by the payment, the record and the failures. */
  lemma VerdictIsUnique(p: Payment, ledger: Ledger, down: set<QuoteHash>,
                        r: Result<Amount, PaymentError>, s: Result<Amount, PaymentError>)
    requires Verdict(p, ledger, down, r) && Verdict(p, ledger, down, s)
    ensures r == s
  {
  }

  // ---------------------------------------------------------------------------
  // Robustness of the median
  // ---------------------------------------------------------------------------

  /** However three of the seven prices are replaced, the median stays between
      two of the prices that were kept. */
  lemma MedianIsRobust(quotes: seq<PricedQuote>, replaced: seq<PricedQuote>, m: Amount) returns (i: nat, j: nat)
    requires |quotes| == 7 && IsMedian(replaced, m) && Changed(quotes, replaced) <= 3
    ensures i < 7 && quotes[i].price == replaced[i].price
    ensures j < 7 && quotes[j].price == replaced[j].price
    ensures quotes[i].price <= m <= quotes[j].price
  {
    i := KeptCheap(quotes, replaced, m);
    j := KeptDear(quotes, replaced, m);
  }

  /** Three is the limit: four replacements give any median at all. */
  lemma FourReplacementsChooseTheMedian(quotes: seq<PricedQuote>, m: Amount) returns (replaced: seq<PricedQuote>)
    requires |quotes| == 7
    ensures |replaced| == 7 && Changed(quotes, replaced) <= 4 && IsMedian(replaced, m)
  {
    replaced := Flood(quotes, 4, m);
  }
}

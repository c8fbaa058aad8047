/** Paying one node for a chunk: seven quotes, three times the median price to
    the median quote, nothing to the others; and the node's check of it. */
module SingleNodePayment {
  import opened Wrappers
  import ByteStrings
  import opened Pricing
  import opened QuoteSort

  const CLOSE_GROUP_SIZE := 7
  const MEDIAN_INDEX := CLOSE_GROUP_SIZE / 2

  type TxHash = ByteStrings.XorName

  datatype QuotePaymentInfo =
    QuotePaymentInfo(quoteHash: QuoteHash, rewardsAddress: RewardsAddress, amount: Amount, price: Amount)

  type CloseGroup = s: seq<QuotePaymentInfo> | |s| == CLOSE_GROUP_SIZE
    witness seq(CLOSE_GROUP_SIZE, _ => QuotePaymentInfo(ByteStrings.ZERO_NAME, seq(20, _ => 0), 0, 0))

  datatype PaymentError =
    | WrongCount(got: nat)
    | PriceOverflow
    | WalletFailed
    | MissingTransaction(quoteHash: QuoteHash)
    | ZeroMedian(price: Amount, amount: Amount)
    | LookupFailed
    | NotPaidEnough(expected: Amount, checked: nat)

  datatype Payment = Payment(quotes: CloseGroup) {
    /** The library's sum over 256-bit words wraps around. */
    function TotalAmount(): Amount {
      WrappingSum(quotes)
    }

    function PaidQuote(): QuotePaymentInfo {
      quotes[MEDIAN_INDEX]
    }
  }

  function WrappingAdd(x: Amount, y: Amount): Amount {
    if x + y <= UINT256_MAX then x + y else x + y - UINT256_MAX - 1
  }

  function WrappingSum(infos: seq<QuotePaymentInfo>): Amount {
    if infos == [] then 0 else WrappingAdd(WrappingSum(infos[..|infos| - 1]), infos[|infos| - 1].amount)
  }

  function Info(q: PricedQuote, amount: Amount): QuotePaymentInfo {
    QuotePaymentInfo(q.quote.hash, q.quote.rewards, amount, q.price)
  }

  /** Sorted quotes, with `enhanced` for the median and zero for the rest. */
  function Infos(sorted: seq<PricedQuote>, enhanced: Amount): seq<QuotePaymentInfo> {
    seq(|sorted|, i requires 0 <= i < |sorted| => Info(sorted[i], if i == MEDIAN_INDEX then enhanced else 0))
  }

  /** What `from_quotes` makes of the quotes. */
  function Build(quotes: seq<PricedQuote>): Result<Payment, PaymentError> {
    if |quotes| != CLOSE_GROUP_SIZE then Failure(WrongCount(|quotes|)) else
    var sorted := Sort(quotes);
    var tripled := 3 * sorted[MEDIAN_INDEX].price;
    if tripled > UINT256_MAX then Failure(PriceOverflow) else
    Success(Payment(Infos(sorted, tripled)))
  }

  /** `from_quotes`: sorts the caller's quotes in place. */
  method FromQuotes(quotes: array<PricedQuote>) returns (r: Result<Payment, PaymentError>)
    modifies quotes
    ensures r == Build(old(quotes[..]))
    ensures quotes[..] == if quotes.Length == CLOSE_GROUP_SIZE then Sort(old(quotes[..])) else old(quotes[..])
  {
    if quotes.Length != CLOSE_GROUP_SIZE {
      return Failure(WrongCount(quotes.Length));
    }
    SortByPrice(quotes);
    var enhanced := 3 * quotes[MEDIAN_INDEX].price;
    if enhanced > UINT256_MAX {
      return Failure(PriceOverflow);
    }
    var infos := [];
    for i := 0 to quotes.Length
      invariant |infos| == i
      invariant forall k :: 0 <= k < i ==> infos[k] == Info(quotes[k], if k == MEDIAN_INDEX then enhanced else 0)
    {
      infos := infos + [Info(quotes[i], if i == MEDIAN_INDEX then enhanced else 0)];
    }
    assert infos == Infos(quotes[..], enhanced);
    return Success(Payment(infos));
  }

  // ---------------------------------------------------------------------------
  // The ledger
  // ---------------------------------------------------------------------------

  /** The wallet's answer: a transaction per payment it made, or a failure after
      some of the payments were made. */
  datatype WalletReply = Paid(transactions: map<QuoteHash, TxHash>) | Failed(settled: nat)

  type Ledger = map<QuoteHash, Amount>

  /** The amount the contract reports; it reports zero for an unknown hash. */
  function Recorded(ledger: Ledger, hash: QuoteHash): Amount {
    if hash in ledger then ledger[hash] else 0
  }

  /** The ledger after the payments: each non-zero amount under its hash. */
  function Settled(ledger: Ledger, payments: seq<QuotePaymentInfo>): Ledger {
    if payments == [] then ledger else
      var before := Settled(ledger, payments[..|payments| - 1]);
      var last := payments[|payments| - 1];
      if last.amount == 0 then before else before[last.quoteHash := last.amount]
  }

  datatype Transfer = Transfer(to: RewardsAddress, amount: Amount)

  /** What the payments move: each non-zero amount to its node, in order. */
  function Transfers(payments: seq<QuotePaymentInfo>): seq<Transfer> {
    if payments == [] then [] else
      var last := payments[|payments| - 1];
      Transfers(payments[..|payments| - 1]) +
      if last.amount == 0 then [] else [Transfer(last.rewardsAddress, last.amount)]
  }

  /** The payment contract: its record of completed payments, and what it has
      moved to nodes. */
  class Vault {
    var completed: Ledger
    var moved: seq<Transfer>

    constructor ()
      ensures completed == map[] && moved == []
    {
      completed, moved := map[], [];
    }

    /** What the wallet does: all the payments, or those before it failed. Its
        answer comes from outside. */
    method PayForQuotes(payments: seq<QuotePaymentInfo>, reply: WalletReply)
      modifies this
      ensures reply.Paid? || reply.settled >= |payments| ==>
                completed == Settled(old(completed), payments) && moved == old(moved) + Transfers(payments)
      ensures reply.Failed? && reply.settled < |payments| ==>
                && completed == Settled(old(completed), payments[..reply.settled])
                && moved == old(moved) + Transfers(payments[..reply.settled])
    {
      var made := if reply.Failed? && reply.settled < |payments| then reply.settled else |payments|;
      for i := 0 to made
        invariant completed == Settled(old(completed), payments[..i])
        invariant moved == old(moved) + Transfers(payments[..i])
      {
        assert payments[..i + 1][..i] == payments[..i];
        if payments[i].amount > 0 {
          completed := completed[payments[i].quoteHash := payments[i].amount];
          moved := moved + [Transfer(payments[i].rewardsAddress, payments[i].amount)];
        }
      }
      assert payments[..|payments|] == payments;
    }
  }

  /** The transaction hashes of the non-zero payments, in order. */
  function Receipts(infos: seq<QuotePaymentInfo>, transactions: map<QuoteHash, TxHash>)
    : Result<seq<TxHash>, PaymentError>
  {
    if infos == [] then Success([]) else
      var init, last := infos[..|infos| - 1], infos[|infos| - 1];
      match Receipts(init, transactions)
      case Failure(e) => Failure(e)
      case Success(hashes) =>
        if last.amount == 0 then Success(hashes)
        else if last.quoteHash in transactions then Success(hashes + [transactions[last.quoteHash]])
        else Failure(MissingTransaction(last.quoteHash))
  }

  lemma {:induction false} ReceiptsStopAtTheFirstGap(infos: seq<QuotePaymentInfo>, i: nat,
                                                     transactions: map<QuoteHash, TxHash>)
    requires i <= |infos| && Receipts(infos[..i], transactions).Failure?
    ensures Receipts(infos, transactions) == Receipts(infos[..i], transactions)
  {
    if i < |infos| {
      assert infos[..|infos| - 1][..i] == infos[..i];
      ReceiptsStopAtTheFirstGap(infos[..|infos| - 1], i, transactions);
    } else {
      assert infos[..i] == infos;
    }
  }

  /** `pay`: the wallet pays all seven, then the receipts are collected. */
  method Pay(p: Payment, vault: Vault, reply: WalletReply) returns (r: Result<seq<TxHash>, PaymentError>)
    modifies vault
    ensures reply.Paid? || reply.settled >= CLOSE_GROUP_SIZE ==>
              && vault.completed == Settled(old(vault.completed), p.quotes)
              && vault.moved == old(vault.moved) + Transfers(p.quotes)
    ensures reply.Failed? && reply.settled < CLOSE_GROUP_SIZE ==>
              && vault.completed == Settled(old(vault.completed), p.quotes[..reply.settled])
              && vault.moved == old(vault.moved) + Transfers(p.quotes[..reply.settled])
    ensures r == if reply.Failed? then Failure(WalletFailed) else Receipts(p.quotes, reply.transactions)
  {
    vault.PayForQuotes(p.quotes, reply);
    if reply.Failed? {
      return Failure(WalletFailed);
    }
    var hashes := [];
    for i := 0 to |p.quotes|
      invariant Receipts(p.quotes[..i], reply.transactions) == Success(hashes)
    {
      assert p.quotes[..i + 1][..i] == p.quotes[..i];
      if p.quotes[i].amount > 0 {
        if p.quotes[i].quoteHash !in reply.transactions {
          ReceiptsStopAtTheFirstGap(p.quotes, i + 1, reply.transactions);
          return Failure(MissingTransaction(p.quotes[i].quoteHash));
        }
        hashes := hashes + [reply.transactions[p.quotes[i].quoteHash]];
      }
    }
    assert p.quotes[..|p.quotes|] == p.quotes;
    return Success(hashes);
  }

  // ---------------------------------------------------------------------------
  // Verification
  // ---------------------------------------------------------------------------

  /** One answer of the contract: an amount, unless the lookup fails. */
  function Lookup(ledger: Ledger, down: set<QuoteHash>, hash: QuoteHash): Option<Amount> {
    if hash in down then None else Some(Recorded(ledger, hash))
  }

  /** The quotes at the median price, in order. */
  function Tied(infos: seq<QuotePaymentInfo>, price: Amount): (r: seq<QuotePaymentInfo>)
    ensures forall q :: q in r <==> q in infos && q.price == price
  {
    if infos == [] then [] else
      var init, last := infos[..|infos| - 1], infos[|infos| - 1];
      assert infos == init + [last];
      Tied(init, price) + if last.price == price then [last] else []
  }

  function Hashes(infos: seq<QuotePaymentInfo>): (hashes: seq<QuoteHash>)
    ensures |hashes| == |infos| && forall k :: 0 <= k < |infos| ==> hashes[k] == infos[k].quoteHash
  {
    seq(|infos|, k requires 0 <= k < |infos| => infos[k].quoteHash)
  }

  /** Enough is on record under this hash. */
  ghost predicate PaidEnough(ledger: Ledger, hash: QuoteHash, least: nat) {
    hash in ledger && ledger[hash] >= least
  }

  /** The lookup at `k` is the first that fails or finds enough, and decides; at
      the end of the list, none does. */
  ghost predicate FirstDecides(hashes: seq<QuoteHash>, k: nat, least: Amount, ledger: Ledger, down: set<QuoteHash>,
                               r: Result<Amount, PaymentError>)
  {
    && k <= |hashes|
    && (forall j :: 0 <= j < k ==> hashes[j] !in down && !PaidEnough(ledger, hashes[j], least))
    && if k == |hashes| then r == Failure(NotPaidEnough(least, |hashes|))
       else if hashes[k] in down then r == Failure(LookupFailed)
       else PaidEnough(ledger, hashes[k], least) && r == Success(ledger[hashes[k]])
  }

  /** The verdict of `verify` on a payment. */
  ghost predicate Verdict(p: Payment, ledger: Ledger, down: set<QuoteHash>, r: Result<Amount, PaymentError>) {
    var median := p.quotes[MEDIAN_INDEX];
    if median.amount == 0 || median.price == 0 then
      r == Failure(ZeroMedian(median.price, median.amount))
    else
      exists k :: FirstDecides(Hashes(Tied(p.quotes, median.price)), k, median.amount, ledger, down, r)
  }

  method CollectTied(infos: seq<QuotePaymentInfo>, price: Amount) returns (tied: seq<QuotePaymentInfo>)
    ensures tied == Tied(infos, price)
  {
    tied := [];
    for i := 0 to |infos|
      invariant tied == Tied(infos[..i], price)
    {
      assert infos[..i + 1][..i] == infos[..i];
      if infos[i].price == price {
        tied := tied + [infos[i]];
      }
    }
    assert infos[..|infos|] == infos;
  }

  /** The loop of `verify`: looks the candidates up one after another. */
  method AskInTurn(tied: seq<QuotePaymentInfo>, least: Amount, vault: Vault, down: set<QuoteHash>)
    returns (r: Result<Amount, PaymentError>)
    requires least > 0
    ensures exists k :: FirstDecides(Hashes(tied), k, least, vault.completed, down, r)
  {
    for i := 0 to |tied|
      invariant forall j :: 0 <= j < i ==>
                  Hashes(tied)[j] !in down && !PaidEnough(vault.completed, Hashes(tied)[j], least)
    {
      var answer := Lookup(vault.completed, down, tied[i].quoteHash);
      if answer.None? || answer.value >= least {
        r := if answer.None? then Failure(LookupFailed) else Success(answer.value);
        assert FirstDecides(Hashes(tied), i, least, vault.completed, down, r);
        return;
      }
    }
    r := Failure(NotPaidEnough(least, |tied|));
    assert FirstDecides(Hashes(tied), |tied|, least, vault.completed, down, r);
  }

  /** `verify`: any quote tied at the median price may be the paid one. */
  method Verify(p: Payment, vault: Vault, down: set<QuoteHash>) returns (r: Result<Amount, PaymentError>)
    ensures Verdict(p, vault.completed, down, r)
  {
    var median := p.quotes[MEDIAN_INDEX];
    if median.amount == 0 || median.price == 0 {
      return Failure(ZeroMedian(median.price, median.amount));
    }
    var tied := CollectTied(p.quotes, median.price);
    r := AskInTurn(tied, median.amount, vault, down);
  }
}

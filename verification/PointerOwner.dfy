/** What an owner can sign, along whole runs of `create`, `update`, `finalize`
    and `transfer_to`. */
module PointerOwner {
  import opened Wrappers
  import opened ByteStrings
  import opened Crypto
  import opened PointerRecord
  import PointerCodec
  import PointerMerge

  /** Each operation takes the secret key to sign with. */
  datatype OwnerOp =
    | Update(sk: SecretKey, target: PointerTarget, coins: int)
    | Finalize(sk: SecretKey, target: PointerTarget, coins: int)
    | TransferTo(sk: SecretKey, recipient: XorName, coins: int)

  function FinalizePointer(c: Scheme, sk: SecretKey, p: Pointer, target: PointerTarget, coins: int)
    : Result<Pointer, PointerError>
  {
    if p.IsTerminal() then Failure(CounterExhausted)
    else Sign(c, sk, p.owner, FINAL_COUNTER, target, coins)
  }

  function Apply(c: Scheme, p: Pointer, op: OwnerOp): Result<Pointer, PointerError> {
    match op
    case Update(sk, target, coins) =>
      var counter :- p.NextCounter();
      Sign(c, sk, p.owner, counter, target, coins)
    case Finalize(sk, target, coins) =>
      FinalizePointer(c, sk, p, target, coins)
    case TransferTo(sk, recipient, coins) =>
      FinalizePointer(c, sk, p, PointerTarget.New(AnotherPointer, recipient), coins)
  }

  /** All records of a run: `create`, then `ops`, stopping at the first failure. */
  function OwnerRun(c: Scheme, sk: SecretKey, owner: PublicKey, target: PointerTarget, coins: int, ops: seq<OwnerOp>)
    : (r: Result<seq<Pointer>, PointerError>)
    ensures r.Success? ==> |r.value| == |ops| + 1
  {
    if ops == [] then
      var created :- Sign(c, sk, owner, 0, target, coins);
      Success([created])
    else
      var records :- OwnerRun(c, sk, owner, target, coins, ops[..|ops| - 1]);
      var next :- Apply(c, records[|records| - 1], ops[|ops| - 1]);
      Success(records + [next])
  }

  /** Each operation fails on a final record, and otherwise, with the owner's own
      key, only where the signer does. With any key, what it returns is a
      well-signed record that carries the counter and target it names. */
  lemma OperationOutcome(c: Scheme, p: Pointer, op: OwnerOp)
    requires c.Sound()
    ensures p.IsTerminal() ==> Apply(c, p, op) == Failure(CounterExhausted)
    ensures !p.IsTerminal() && Apply(c, p, op).Failure?
            && (c.isPair)(op.sk, p.owner) && |(c.encodeKey)(p.owner)| == PUBLIC_KEY_LEN ==>
              Apply(c, p, op).error.SigningFailed?
    ensures Apply(c, p, op).Success? ==>
              var next := Apply(c, p, op).value;
              && PointerCodec.WellSigned(c, next) && next.owner == p.owner
              && next.counter == (if op.Update? then p.counter + 1 else 0xFFFF_FFFF_FFFF_FFFF)
              && next.target.ToBytes() == (if op.TransferTo? then [1] + op.recipient else op.target.ToBytes())
              && (op.TransferTo? ==> next.TransferredTo() == Some(op.recipient))
              && (!op.TransferTo? && op.target.ToBytes()[0] == 0 ==> next.TransferredTo() == None)
              && next.Replaces(c, p)
  {
    if !p.IsTerminal() {
      var counter := if op.Update? then p.counter + 1 else FINAL_COUNTER;
      var target := if op.TransferTo? then PointerTarget.New(AnotherPointer, op.recipient) else op.target;
      assert Apply(c, p, op) == Sign(c, op.sk, p.owner, counter, target, op.coins);
      if Apply(c, p, op).Success? {
        PointerCodec.SignedRecordsRoundTrip(c, op.sk, p.owner, counter, target, op.coins);
        PointerCodec.KindsOnTheWire(target, target.address);
        PointerCodec.TransferIsFinalRedirection(Apply(c, p, op).value.State(c), target.address);
        HigherCounterReplaces(c, p, Apply(c, p, op).value);
      } else if (c.isPair)(op.sk, p.owner) && |(c.encodeKey)(p.owner)| == PUBLIC_KEY_LEN {
        PointerCodec.SignOutcome(c, op.sk, p.owner, counter, target, op.coins);
      }
    }
  }

  lemma HigherCounterReplaces(c: Scheme, p: Pointer, q: Pointer)
    requires p.owner == q.owner && p.counter < q.counter
    ensures !p.IsTerminal() && q.Replaces(c, p)
  {
  }

  /** The records of a run: one owner, counters from 0 strictly upward. */
  ghost predicate Ascending(c: Scheme, owner: PublicKey, records: seq<Pointer>) {
    && |records| > 0 && records[0].counter == 0
    && (forall i :: 0 <= i < |records| ==> PointerCodec.WellSigned(c, records[i]) && records[i].owner == owner)
    && (forall i, j :: 0 <= i < j < |records| ==> records[i].counter < records[j].counter)
  }

  lemma AscendingGrows(c: Scheme, owner: PublicKey, records: seq<Pointer>, next: Pointer)
    requires Ascending(c, owner, records)
    requires PointerCodec.WellSigned(c, next) && next.owner == owner
    requires records[|records| - 1].counter < next.counter
    ensures Ascending(c, owner, records + [next])
  {
  }

  lemma {:induction false} CountersAscend(c: Scheme, sk: SecretKey, owner: PublicKey, target: PointerTarget,
                                          coins: int, ops: seq<OwnerOp>)
    requires c.Sound() && OwnerRun(c, sk, owner, target, coins, ops).Success?
    ensures var records := OwnerRun(c, sk, owner, target, coins, ops).value;
            && Ascending(c, owner, records)
            && (forall i :: 0 <= i < |ops| && ops[i].Update? ==> records[i + 1].counter == records[i].counter + 1)
  {
    if ops == [] {
      PointerCodec.SignedRecordsRoundTrip(c, sk, owner, 0, target, coins);
    } else {
      var k := |ops| - 1;
      CountersAscend(c, sk, owner, target, coins, ops[..k]);
      var before, next := RunStep(c, sk, owner, target, coins, ops);
      OperationOutcome(c, before[k], ops[k]);
      AscendingGrows(c, owner, before, next);
      forall i | 0 <= i < |ops| && ops[i].Update?
        ensures (before + [next])[i + 1].counter == (before + [next])[i].counter + 1
      {
        if i < k {
          assert ops[..k][i] == ops[i];
        }
      }
    }
  }

  /** The last step of a successful run. */
  lemma RunStep(c: Scheme, sk: SecretKey, owner: PublicKey, target: PointerTarget, coins: int, ops: seq<OwnerOp>)
    returns (before: seq<Pointer>, next: Pointer)
    requires ops != [] && OwnerRun(c, sk, owner, target, coins, ops).Success?
    ensures OwnerRun(c, sk, owner, target, coins, ops[..|ops| - 1]) == Success(before) && |before| == |ops|
    ensures Apply(c, before[|ops| - 1], ops[|ops| - 1]) == Success(next)
    ensures OwnerRun(c, sk, owner, target, coins, ops) == Success(before + [next])
  {
    before := OwnerRun(c, sk, owner, target, coins, ops[..|ops| - 1]).value;
    next := Apply(c, before[|ops| - 1], ops[|ops| - 1]).value;
  }

  /** A key that signs for the owner whatever it is asked to. */
  ghost predicate SignsFor(c: Scheme, sk: SecretKey, owner: PublicKey) {
    c.isPair(sk, owner) && forall message, context, coins :: c.sign(sk, message, context, coins).Success?
  }

  /** Every operation but the last is an update, and there are counters for all. */
  ghost predicate OnlyLastIsFinal(ops: seq<OwnerOp>) {
    |ops| <= UINT64_MAX && forall i :: 0 <= i < |ops| - 1 ==> ops[i].Update?
  }

  function LastCounter(ops: seq<OwnerOp>): int {
    if ops == [] || ops[|ops| - 1].Update? then |ops| else UINT64_MAX
  }

  ghost predicate GoesAsPlanned(ops: seq<OwnerOp>, run: Result<seq<Pointer>, PointerError>) {
    match run
    case Success(records) =>
      OnlyLastIsFinal(ops) && |records| == |ops| + 1 && records[|ops|].counter == LastCounter(ops)
    case Failure(e) =>
      !OnlyLastIsFinal(ops) && e == CounterExhausted
  }

  /** How a run of one more operation ends, given how it was before. */
  ghost predicate OneOn(op: OwnerOp, before: Result<seq<Pointer>, PointerError>,
                        run: Result<seq<Pointer>, PointerError>)
    requires before.Success? ==> |before.value| > 0
  {
    if before.Failure? then run == before else
      var n := |before.value|;
      var counter := before.value[n - 1].counter;
      if counter == UINT64_MAX then run == Failure(CounterExhausted)
      else run.Success? && |run.value| == n + 1
           && run.value[n].counter == if op.Update? then counter + 1 else UINT64_MAX
  }

  /** With the owner's own keys a run goes through exactly when every operation
      but the last is an update and they leave room below the last counter; else
      it ends in the exhausted counter. */
  lemma {:induction false} RunsExactlyUntilFinal(c: Scheme, sk: SecretKey, owner: PublicKey, target: PointerTarget,
                                                 coins: int, ops: seq<OwnerOp>)
    requires c.Sound() && |c.encodeKey(owner)| == PUBLIC_KEY_LEN && SignsFor(c, sk, owner)
    requires forall op :: op in ops ==> SignsFor(c, op.sk, owner)
    ensures GoesAsPlanned(ops, OwnerRun(c, sk, owner, target, coins, ops))
  {
    if ops == [] {
      FirstRecord(c, sk, owner, target, coins);
    } else {
      var k := |ops| - 1;
      RunsExactlyUntilFinal(c, sk, owner, target, coins, ops[..k]);
      var before := OwnerRun(c, sk, owner, target, coins, ops[..k]);
      NextRecord(c, sk, owner, target, coins, ops);
      OneMoreOperation(ops, k, before, OwnerRun(c, sk, owner, target, coins, ops));
    }
  }

  lemma FirstRecord(c: Scheme, sk: SecretKey, owner: PublicKey, target: PointerTarget, coins: int)
    requires c.Sound() && |c.encodeKey(owner)| == PUBLIC_KEY_LEN && SignsFor(c, sk, owner)
    ensures var run := OwnerRun(c, sk, owner, target, coins, []);
            run.Success? && run.value[0].counter == 0
  {
    PointerCodec.SignOutcome(c, sk, owner, 0, target, coins);
  }

  lemma NextRecord(c: Scheme, sk: SecretKey, owner: PublicKey, target: PointerTarget, coins: int, ops: seq<OwnerOp>)
    requires c.Sound() && |c.encodeKey(owner)| == PUBLIC_KEY_LEN
    requires ops != [] && SignsFor(c, ops[|ops| - 1].sk, owner)
    ensures OneOn(ops[|ops| - 1], OwnerRun(c, sk, owner, target, coins, ops[..|ops| - 1]),
                  OwnerRun(c, sk, owner, target, coins, ops))
  {
    var before := OwnerRun(c, sk, owner, target, coins, ops[..|ops| - 1]);
    if before.Success? {
      CountersAscend(c, sk, owner, target, coins, ops[..|ops| - 1]);
      NextStep(c, before.value[|ops| - 1], ops[|ops| - 1]);
    }
  }

  lemma OneMoreOperation(ops: seq<OwnerOp>, k: nat, before: Result<seq<Pointer>, PointerError>,
                         run: Result<seq<Pointer>, PointerError>)
    requires k + 1 == |ops| && GoesAsPlanned(ops[..k], before) && OneOn(ops[k], before, run)
    ensures GoesAsPlanned(ops, run)
  {
    assert k > 0 ==> ops[..k][k - 1] == ops[k - 1];
  }

  /** One operation with a key that signs for the owner. */
  lemma NextStep(c: Scheme, p: Pointer, op: OwnerOp)
    requires c.Sound() && |c.encodeKey(p.owner)| == PUBLIC_KEY_LEN && SignsFor(c, op.sk, p.owner)
    ensures Apply(c, p, op).Success? <==> p.counter < UINT64_MAX
    ensures Apply(c, p, op).Failure? ==> Apply(c, p, op).error == CounterExhausted
    ensures Apply(c, p, op).Success? ==>
              Apply(c, p, op).value.counter == if op.Update? then p.counter + 1 else UINT64_MAX
  {
    OperationOutcome(c, p, op);
    if p.counter < UINT64_MAX {
      var counter := if op.Update? then p.counter + 1 else FINAL_COUNTER;
      var target := if op.TransferTo? then PointerTarget.New(AnotherPointer, op.recipient) else op.target;
      PointerCodec.SignOutcome(c, op.sk, p.owner, counter, target, op.coins);
    }
  }

  /** Along every successful run the address never changes, the counter starts
      at 0 and only grows (`update` by exactly one), every later record replaces
      every earlier one, and nothing follows a final record. */
  lemma OwnerRunAscends(c: Scheme, sk: SecretKey, owner: PublicKey, target: PointerTarget, coins: int,
                        ops: seq<OwnerOp>)
    requires c.Sound() && OwnerRun(c, sk, owner, target, coins, ops).Success?
    ensures var records := OwnerRun(c, sk, owner, target, coins, ops).value;
            && records[0].counter == 0
            && (forall i :: 0 <= i < |records| ==>
                  PointerCodec.WellSigned(c, records[i]) && records[i].Address(c) == PointerAddress(c, owner))
            && (forall i :: 0 <= i < |ops| && ops[i].Update? ==> records[i + 1].counter == records[i].counter + 1)
            && (forall i :: 0 <= i < |ops| ==> !records[i].IsTerminal())
            && LaterReplacesEarlier(c, records)
  {
    CountersAscend(c, sk, owner, target, coins, ops);
    AscendingReplaces(c, owner, OwnerRun(c, sk, owner, target, coins, ops).value);
  }

  ghost predicate LaterReplacesEarlier(c: Scheme, records: seq<Pointer>) {
    forall i, j :: 0 <= i < j < |records| ==> records[j].Replaces(c, records[i])
  }

  lemma AscendingReplaces(c: Scheme, owner: PublicKey, records: seq<Pointer>)
    requires Ascending(c, owner, records)
    ensures forall i :: 0 <= i < |records| - 1 ==> !records[i].IsTerminal()
    ensures LaterReplacesEarlier(c, records)
  {
    forall i | 0 <= i < |records| - 1
      ensures !records[i].IsTerminal()
    {
      assert records[i].counter < records[i + 1].counter;
    }
    forall i, j | 0 <= i < j < |records|
      ensures records[j].Replaces(c, records[i])
    {
      assert records[i].counter < records[j].counter;
    }
  }

  /** The fork only the owner can make: two finalizations of one earlier record
      both replace it, and neither replaces the other. */
  lemma FinalizingTwiceForks(c: Scheme, p: Pointer, op1: OwnerOp, op2: OwnerOp)
    requires c.Sound()
    requires !op1.Update? && !op2.Update?
    requires Apply(c, p, op1).Success? && Apply(c, p, op2).Success?
    ensures var (f, g) := (Apply(c, p, op1).value, Apply(c, p, op2).value);
            && f.Replaces(c, p) && g.Replaces(c, p)
            && !f.Replaces(c, g) && !g.Replaces(c, f)
            && (f.target != g.target ==> PointerMerge.Forked(PointerMerge.Claims([f.State(c), g.State(c)])))
  {
    OperationOutcome(c, p, op1);
    OperationOutcome(c, p, op2);
    TwoFinalsFork(Apply(c, p, op1).value.State(c), Apply(c, p, op2).value.State(c));
  }

  lemma TwoFinalsFork(f: PointerState, g: PointerState)
    requires f.counter == FINAL_COUNTER && g.counter == FINAL_COUNTER
    ensures !f.Replaces(g) && !g.Replaces(f)
    ensures f.target != g.target ==> PointerMerge.Forked(PointerMerge.Claims([f, g]))
  {
    assert PointerMerge.ClaimOf(f) in PointerMerge.Claims([f, g]) && PointerMerge.ClaimOf(g) in PointerMerge.Claims([f, g]);
  }
}

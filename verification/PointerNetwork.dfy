/** Nodes that exchange pointer states, over whole runs. */
module PointerNetwork {
  import opened Wrappers
  import opened ByteStrings
  import opened PointerRecord
  import opened PointerMerge

  type NodeId = nat

  /** Each node's slots; a node that has not been heard of holds nothing. */
  type Network = map<NodeId, Slots>

  /** An arrival from outside, or one node copying another's slot. Repeats and
      any interleaving are allowed; an empty slot copies nothing. */
  datatype Step =
    | Deliver(to: NodeId, state: PointerState)
    | Copy(from: NodeId, to: NodeId, address: XorName)

  function Held(net: Network, n: NodeId, a: XorName): Option<PointerState> {
    if n in net then Lookup(net[n], a) else None
  }

  function Receive(net: Network, n: NodeId, s: PointerState): Network {
    var slots: Slots := if n in net then net[n] else map[];
    net[n := slots[s.address := Hold(Held(net, n, s.address), s).value]]
  }

  /** The state a step offers to its receiver, if any. */
  function Offered(net: Network, step: Step): Option<PointerState> {
    match step
    case Deliver(_, s) => Some(s)
    case Copy(from, _, a) => Held(net, from, a)
  }

  function Next(net: Network, step: Step): Network {
    var s := Offered(net, step);
    if s.None? then net else Receive(net, step.to, s.value)
  }

  /** The network after `steps`, from one where nobody holds anything. */
  function Run(steps: seq<Step>): Network {
    if steps == [] then map[] else Next(Run(steps[..|steps| - 1]), steps[|steps| - 1])
  }

  /** What reached node `n` at address `a` along a run, in order. */
  function Inbox(steps: seq<Step>, n: NodeId, a: XorName): seq<PointerState> {
    if steps == [] then [] else
      var rest := Inbox(steps[..|steps| - 1], n, a);
      var step := steps[|steps| - 1];
      var s := Offered(Run(steps[..|steps| - 1]), step);
      if step.to == n && s.Some? && s.value.address == a then rest + [s.value] else rest
  }

  ghost predicate Delivered(steps: seq<Step>, s: PointerState) {
    exists i :: 0 <= i < |steps| && steps[i].Deliver? && steps[i].state == s
  }

  /** The final claims that entered the network at one address. */
  ghost predicate FinalForkDelivered(steps: seq<Step>, a: XorName) {
    exists f, g ::
      && Delivered(steps, f) && Delivered(steps, g)
      && f.address == a && g.address == a
      && f.IsTerminal() && g.IsTerminal() && ClaimOf(f) != ClaimOf(g)
  }

  /** Every slot holds, at its own address, something that was delivered
      earlier in the run: nodes never make states up. */
  lemma {:induction false} HeldWasDelivered(steps: seq<Step>, n: NodeId, a: XorName)
    ensures Held(Run(steps), n, a).Some? ==>
              Held(Run(steps), n, a).value.address == a && Delivered(steps, Held(Run(steps), n, a).value)
  {
    if steps != [] {
      var k := |steps| - 1;
      var before, step := steps[..k], steps[k];
      HeldWasDelivered(before, n, a);
      forall s | Delivered(before, s)
        ensures Delivered(steps, s)
      {
        var i :| 0 <= i < k && before[i].Deliver? && before[i].state == s;
        assert steps[i] == before[i];
      }
      match step {
        case Deliver(_, s) => assert steps[k].state == s;
        case Copy(from, _, b) => HeldWasDelivered(before, from, b);
      }
    }
  }

  /** What a step does to every slot: the receiver's slot at the address of what it
      is offered takes it when it is empty or outranked, and no other slot moves. */
  lemma StepOutcome(steps: seq<Step>, step: Step, n: NodeId, a: XorName)
    ensures var net, after := Run(steps), Run(steps + [step]);
            var offered := if step.Deliver? then Some(step.state) else Held(net, step.from, step.address);
            && (offered.None? || n != step.to || a != offered.value.address ==> Held(after, n, a) == Held(net, n, a))
            && (offered.Some? && n == step.to && a == offered.value.address ==>
                  Held(after, n, a) ==
                  if Held(net, n, a).None? || offered.value.Replaces(Held(net, n, a).value) then offered
                  else Held(net, n, a))
    ensures forall m: NodeId, b: XorName :: Held(Run([]), m, b) == None
  {
    assert (steps + [step])[..|steps|] == steps;
  }

  /** A slot is the fold of its inbox, so it holds the exact winner of what
      reached it, in every run. */
  lemma {:induction false} SlotIsTheFoldOfItsInbox(steps: seq<Step>, n: NodeId, a: XorName)
    ensures Held(Run(steps), n, a) == Fold(Inbox(steps, n, a))
    ensures AtOneAddress(Inbox(steps, n, a), a)
  {
    if steps != [] {
      var k := |steps| - 1;
      SlotIsTheFoldOfItsInbox(steps[..k], n, a);
      var before, after := Inbox(steps[..k], n, a), Inbox(steps, n, a);
      if after != before {
        assert after[..|after| - 1] == before;
      }
    }
  }

  /** Step `k` brings `s` to node `n` at address `a`. */
  ghost predicate Brings(steps: seq<Step>, k: nat, n: NodeId, a: XorName, s: PointerState) {
    && k < |steps| && steps[k].to == n && s.address == a
    && match steps[k]
       case Deliver(_, state) => s == state
       case Copy(from, _, address) => Held(Run(steps[..k]), from, address) == Some(s)
  }

  /** An inbox holds exactly what the steps of the run brought to it. */
  lemma {:induction false} InboxIsWhatWasBrought(steps: seq<Step>, n: NodeId, a: XorName, s: PointerState)
    ensures s in Inbox(steps, n, a) <==> exists k: nat :: Brings(steps, k, n, a, s)
  {
    if steps != [] {
      var last := |steps| - 1;
      InboxIsWhatWasBrought(steps[..last], n, a, s);
      forall k: nat | k < last
        ensures Brings(steps[..last], k, n, a, s) <==> Brings(steps, k, n, a, s)
      {
        assert steps[..last][..k] == steps[..k];
      }
      LastBrings(steps, last, n, a, s);
      if k: nat :| Brings(steps, k, n, a, s) {
        assert k < last ==> Brings(steps[..last], k, n, a, s);
      }
    }
  }

  lemma LastBrings(steps: seq<Step>, last: nat, n: NodeId, a: XorName, s: PointerState)
    requires last + 1 == |steps|
    ensures s in Inbox(steps, n, a) <==> s in Inbox(steps[..last], n, a) || Brings(steps, last, n, a, s)
  {
  }

  /** The claims that entered the network from outside at one address. */
  function DeliveredClaims(steps: seq<Step>, a: XorName): set<Claim> {
    set step | step in steps && step.Deliver? && step.state.address == a :: ClaimOf(step.state)
  }

  lemma {:induction false} InboxWasDelivered(steps: seq<Step>, n: NodeId, a: XorName, s: PointerState)
    requires s in Inbox(steps, n, a)
    ensures Delivered(steps, s) && s.address == a
  {
    var k := |steps| - 1;
    var before, step := steps[..k], steps[k];
    if s in Inbox(before, n, a) {
      InboxWasDelivered(before, n, a, s);
      var i :| 0 <= i < k && before[i].Deliver? && before[i].state == s;
      assert steps[i] == before[i];
    } else if step.Copy? {
      HeldWasDelivered(before, step.from, step.address);
      var i :| 0 <= i < k && before[i].Deliver? && before[i].state == s;
      assert steps[i] == before[i];
    } else {
      assert steps[k].state == s;
    }
  }

  /** Bounded churn in a network: however many times nodes copy and re-deliver, a
      slot is replaced fewer times than distinct claims entered from outside. */
  lemma ChurnIsBoundedByDeliveries(steps: seq<Step>, n: NodeId, a: XorName)
    requires Inbox(steps, n, a) != []
    ensures Replacements(Inbox(steps, n, a)) < |DeliveredClaims(steps, a)|
  {
    SlotIsTheFoldOfItsInbox(steps, n, a);
    ReplacementsAreBounded(Inbox(steps, n, a), a);
    forall x | x in Claims(Inbox(steps, n, a))
      ensures x in DeliveredClaims(steps, a)
    {
      var s :| s in Inbox(steps, n, a) && ClaimOf(s) == x;
      InboxWasDelivered(steps, n, a, s);
      var i :| 0 <= i < |steps| && steps[i].Deliver? && steps[i].state == s;
      assert steps[i] in steps;
    }
    NoLarger(Claims(Inbox(steps, n, a)), DeliveredClaims(steps, a));
  }

  /** What may happen to a slot: it fills, keeps its state, or ascends from a
      state that is not final. */
  ghost predicate Ascends(before: Option<PointerState>, after: Option<PointerState>) {
    before.None? || before == after ||
    (after.Some? && !before.value.IsTerminal() && ClaimOf(after.value).Above(ClaimOf(before.value)))
  }

  lemma StepAscends(steps: seq<Step>, k: nat, n: NodeId, a: XorName)
    requires k < |steps|
    ensures Ascends(Held(Run(steps[..k]), n, a), Held(Run(steps[..k + 1]), n, a))
  {
    assert steps[..k + 1][..k] == steps[..k];
    HeldWasDelivered(steps[..k], n, a);
    var before := Held(Run(steps[..k]), n, a);
    var offered := Offered(Run(steps[..k]), steps[k]);
    if before.Some? && offered.Some? {
      ReplacesByClaim(offered.value, before.value);
    }
  }

  /** Whole-run safety: between any two moments of any run no slot descends,
      and a slot that is final keeps that very state. */
  lemma {:induction false} SlotsOnlyAscend(steps: seq<Step>, i: nat, j: nat, n: NodeId, a: XorName)
    requires i <= j <= |steps|
    ensures Ascends(Held(Run(steps[..i]), n, a), Held(Run(steps[..j]), n, a))
    decreases j - i
  {
    if i < j {
      SlotsOnlyAscend(steps, i, j - 1, n, a);
      StepAscends(steps, j - 1, n, a);
      var (x, y, z) := (Held(Run(steps[..i]), n, a), Held(Run(steps[..j - 1]), n, a), Held(Run(steps[..j]), n, a));
      if x.Some? && y.Some? && z.Some? {
        AboveIsTotal(ClaimOf(z.value), ClaimOf(y.value), ClaimOf(x.value));
      }
    }
  }

  /** A final state, once held, is held for the rest of the run. */
  lemma FinalIsNeverGivenUp(steps: seq<Step>, i: nat, j: nat, n: NodeId, a: XorName)
    requires i <= j <= |steps|
    requires Held(Run(steps[..i]), n, a).Some? && Held(Run(steps[..i]), n, a).value.IsTerminal()
    ensures Held(Run(steps[..j]), n, a) == Held(Run(steps[..i]), n, a)
  {
    SlotsOnlyAscend(steps, i, j, n, a);
  }

  /** A final state only ever lands on a node that has held no final state at
      any earlier moment, so a fork cannot take one back. */
  lemma FinalLandsOnlyWhereNoneWas(steps: seq<Step>, k: nat, n: NodeId, a: XorName, i: nat)
    requires k < |steps| && i <= k
    requires Held(Run(steps[..k]), n, a) != Held(Run(steps[..k + 1]), n, a)
    ensures Held(Run(steps[..i]), n, a).Some? ==> !Held(Run(steps[..i]), n, a).value.IsTerminal()
  {
    if Held(Run(steps[..i]), n, a).Some? && Held(Run(steps[..i]), n, a).value.IsTerminal() {
      FinalIsNeverGivenUp(steps, i, k, n, a);
      FinalIsNeverGivenUp(steps, i, k + 1, n, a);
    }
  }

  /** Nodes can hold different finals only if the owner let two of them in. */
  lemma OneFinalNoFork(steps: seq<Step>, n: NodeId, m: NodeId, a: XorName)
    requires !FinalForkDelivered(steps, a)
    requires Held(Run(steps), n, a).Some? && Held(Run(steps), n, a).value.IsTerminal()
    requires Held(Run(steps), m, a).Some? && Held(Run(steps), m, a).value.IsTerminal()
    ensures ClaimOf(Held(Run(steps), n, a).value) == ClaimOf(Held(Run(steps), m, a).value)
  {
    HeldWasDelivered(steps, n, a);
    HeldWasDelivered(steps, m, a);
  }

  // ---------------------------------------------------------------------------
  // Agreement
  // ---------------------------------------------------------------------------

  /** Both empty, one claim, or two finals that will never be reconciled. */
  ghost predicate Agree(x: Option<PointerState>, y: Option<PointerState>) {
    if x.None? || y.None? then x.None? && y.None?
    else ClaimOf(x.value) == ClaimOf(y.value) || (x.value.IsTerminal() && y.value.IsTerminal())
  }

  /** Copying between these nodes changes nothing any more. */
  ghost predicate Quiescent(net: Network, nodes: set<NodeId>, a: XorName) {
    forall n, m :: n in nodes && m in nodes ==>
      Held(Next(net, Copy(n, m, a)), m, a) == Held(net, m, a)
  }

  /** Replication stops exactly when every pair agrees or holds rival finals. */
  lemma QuiescentExactlyWhenAgreed(steps: seq<Step>, nodes: set<NodeId>, a: XorName)
    ensures Quiescent(Run(steps), nodes, a) <==>
              forall n, m :: n in nodes && m in nodes ==> Agree(Held(Run(steps), n, a), Held(Run(steps), m, a))
  {
    var net := Run(steps);
    forall n, m | n in nodes && m in nodes
      ensures (Held(Next(net, Copy(n, m, a)), m, a) == Held(net, m, a) &&
               Held(Next(net, Copy(m, n, a)), n, a) == Held(net, n, a))
              <==> Agree(Held(net, n, a), Held(net, m, a))
    {
      HeldWasDelivered(steps, n, a);
      HeldWasDelivered(steps, m, a);
      var x, y := Held(net, n, a), Held(net, m, a);
      if x.Some? && y.Some? {
        ReplacesByClaim(x.value, y.value);
        ReplacesByClaim(y.value, x.value);
        AboveIsTotal(ClaimOf(x.value), ClaimOf(y.value), ClaimOf(x.value));
      }
    }
  }

  /** `y` is at least `x`, or both are final. */
  ghost predicate Dominates(y: Option<PointerState>, x: Option<PointerState>) {
    x.None? || Agree(x, y) || (y.Some? && ClaimOf(y.value).Above(ClaimOf(x.value)))
  }

  function Gather(nodes: seq<NodeId>, hub: NodeId, a: XorName): seq<Step> {
    if nodes == [] then []
    else Gather(nodes[..|nodes| - 1], hub, a) + [Copy(nodes[|nodes| - 1], hub, a)]
  }

  function Spread(nodes: seq<NodeId>, hub: NodeId, a: XorName): seq<Step> {
    if nodes == [] then []
    else Spread(nodes[..|nodes| - 1], hub, a) + [Copy(hub, nodes[|nodes| - 1], a)]
  }

  /** One copy: only the receiver's slot moves, and it comes to dominate what
      the sender held. */
  lemma CopyOutcome(steps: seq<Step>, from: NodeId, to: NodeId, a: XorName)
    ensures var net, after := Run(steps), Run(steps + [Copy(from, to, a)]);
            && (forall n: NodeId :: n != to ==> Held(after, n, a) == Held(net, n, a))
            && Ascends(Held(net, to, a), Held(after, to, a))
            && Dominates(Held(after, to, a), Held(net, from, a))
            && (Dominates(Held(net, from, a), Held(net, to, a)) ==> Agree(Held(net, from, a), Held(after, to, a)))
  {
    var all := steps + [Copy(from, to, a)];
    assert all[..|steps|] == steps && all[..|steps| + 1] == all;
    StepAscends(all, |steps|, to, a);
    HeldWasDelivered(steps, from, a);
    HeldWasDelivered(steps, to, a);
    var x, y := Held(Run(steps), from, a), Held(Run(steps), to, a);
    if x.Some? && y.Some? {
      ReplacesByClaim(x.value, y.value);
      AboveIsTotal(ClaimOf(x.value), ClaimOf(y.value), ClaimOf(x.value));
    }
  }

  lemma AscentKeepsDominance(x: Option<PointerState>, y: Option<PointerState>, z: Option<PointerState>)
    requires Dominates(y, x) && Ascends(y, z)
    ensures Dominates(z, x)
  {
    if x.Some? && z.Some? && y.Some? {
      AboveIsTotal(ClaimOf(z.value), ClaimOf(y.value), ClaimOf(x.value));
    }
  }

  lemma {:induction false} GatherDominates(steps: seq<Step>, nodes: seq<NodeId>, hub: NodeId, a: XorName)
    ensures var after := Run(steps + Gather(nodes, hub, a));
            forall n :: n in nodes ==> Dominates(Held(after, hub, a), Held(after, n, a))
  {
    if nodes != [] {
      var init, last := nodes[..|nodes| - 1], nodes[|nodes| - 1];
      GatherDominates(steps, init, hub, a);
      var all := steps + Gather(init, hub, a);
      assert steps + Gather(nodes, hub, a) == all + [Copy(last, hub, a)];
      CopyOutcome(all, last, hub, a);
      var net, after := Run(all), Run(all + [Copy(last, hub, a)]);
      forall n | n in nodes
        ensures Dominates(Held(after, hub, a), Held(after, n, a))
      {
        if n != hub && n != last {
          assert n in init;
          AscentKeepsDominance(Held(net, n, a), Held(net, hub, a), Held(after, hub, a));
        }
      }
    }
  }

  lemma {:induction false} SpreadAgrees(steps: seq<Step>, nodes: seq<NodeId>, done: nat, hub: NodeId, a: XorName)
    requires done <= |nodes|
    requires forall n :: n in nodes ==> Dominates(Held(Run(steps), hub, a), Held(Run(steps), n, a))
    ensures var after := Run(steps + Spread(nodes[..done], hub, a));
            && Held(after, hub, a) == Held(Run(steps), hub, a)
            && (forall n :: n in nodes ==> Dominates(Held(after, hub, a), Held(after, n, a)))
            && (forall n :: n in nodes[..done] ==> Agree(Held(after, hub, a), Held(after, n, a)))
  {
    if done == 0 {
      assert steps + Spread(nodes[..0], hub, a) == steps;
    } else {
      SpreadAgrees(steps, nodes, done - 1, hub, a);
      var last := nodes[done - 1];
      var init := nodes[..done][..done - 1];
      assert init == nodes[..done - 1];
      var all := steps + Spread(init, hub, a);
      assert steps + Spread(nodes[..done], hub, a) == all + [Copy(hub, last, a)];
      SpreadStep(all, nodes, init, hub, last, a);
      assert nodes[..done] == init + [last];
    }
  }

  /** One copy out of a hub that dominates: it agrees with one node more. */
  lemma SpreadStep(steps: seq<Step>, nodes: seq<NodeId>, done: seq<NodeId>, hub: NodeId, last: NodeId, a: XorName)
    requires last in nodes
    requires forall n :: n in nodes ==> Dominates(Held(Run(steps), hub, a), Held(Run(steps), n, a))
    requires forall n :: n in done ==> Agree(Held(Run(steps), hub, a), Held(Run(steps), n, a))
    ensures var after := Run(steps + [Copy(hub, last, a)]);
            && Held(after, hub, a) == Held(Run(steps), hub, a)
            && (forall n :: n in nodes ==> Dominates(Held(after, hub, a), Held(after, n, a)))
            && (forall n :: n in done + [last] ==> Agree(Held(after, hub, a), Held(after, n, a)))
  {
    CopyOutcome(steps, hub, last, a);
    if last == hub {
      CopyToSelf(steps, hub, a);
    }
  }

  lemma CopyToSelf(steps: seq<Step>, n: NodeId, a: XorName)
    ensures Held(Run(steps + [Copy(n, n, a)]), n, a) == Held(Run(steps), n, a)
  {
    var all := steps + [Copy(n, n, a)];
    assert all[..|steps|] == steps;
    HeldWasDelivered(steps, n, a);
    if Held(Run(steps), n, a).Some? {
      ReplacesIsAStrictPartialOrder(Held(Run(steps), n, a).value, Held(Run(steps), n, a).value, Held(Run(steps), n, a).value);
    }
  }

  lemma {:induction false} GossipDeliversNothing(nodes: seq<NodeId>, hub: NodeId, a: XorName)
    ensures forall i :: 0 <= i < |Gather(nodes, hub, a)| ==> Gather(nodes, hub, a)[i].Copy?
    ensures forall i :: 0 <= i < |Spread(nodes, hub, a)| ==> Spread(nodes, hub, a)[i].Copy?
  {
    if nodes != [] {
      GossipDeliversNothing(nodes[..|nodes| - 1], hub, a);
    }
  }

  /** Healing: after any run at all, one round through any hub leaves all the
      nodes of the round agreed, on one claim unless the owner let in two
      finals at that address. */
  lemma OneRoundHeals(steps: seq<Step>, nodes: seq<NodeId>, hub: NodeId, a: XorName, n: NodeId, m: NodeId)
    requires n in nodes && m in nodes
    ensures var after := Run(steps + Gather(nodes, hub, a) + Spread(nodes, hub, a));
            && Agree(Held(after, n, a), Held(after, m, a))
            && (!FinalForkDelivered(steps, a) && Held(after, n, a).Some? ==>
                  ClaimOf(Held(after, n, a).value) == ClaimOf(Held(after, m, a).value))
  {
    GatherDominates(steps, nodes, hub, a);
    var gathered := steps + Gather(nodes, hub, a);
    assert nodes[..|nodes|] == nodes;
    SpreadAgrees(gathered, nodes, |nodes|, hub, a);
    var all := gathered + Spread(nodes, hub, a);
    GossipDeliversNothing(nodes, hub, a);
    forall s | Delivered(all, s)
      ensures Delivered(steps, s)
    {
      var i :| 0 <= i < |all| && all[i].Deliver? && all[i].state == s;
      assert i < |steps| && steps[i] == all[i];
    }
    if Held(Run(all), n, a).Some? && Held(Run(all), n, a).value.IsTerminal()
       && Held(Run(all), m, a).Some? && Held(Run(all), m, a).value.IsTerminal()
       && !FinalForkDelivered(steps, a) {
      OneFinalNoFork(all, n, m, a);
    }
  }
}

/** The merge rule as an order, and what folding it over arrivals ends in. */
module PointerMerge {
  import opened Wrappers
  import opened ByteStrings
  import opened PointerRecord

  /** What a state claims at its address: the merge rule's two keys. */
  datatype Claim = Claim(counter: uint64, target: PointerTarget) {
    /** Larger counter first, then smaller target. */
    ghost predicate Above(other: Claim) {
      counter > other.counter ||
      (counter == other.counter && Value(target.ToBytes()) < Value(other.target.ToBytes()))
    }

    predicate Final() {
      counter == FINAL_COUNTER
    }
  }

  function ClaimOf(s: PointerState): Claim {
    Claim(s.counter, s.target)
  }

  /** Targets are ordered by their 33 bytes, and no two share them. */
  lemma TargetBytesSeparate(t: PointerTarget, u: PointerTarget)
    ensures LexLess(t.ToBytes(), u.ToBytes()) <==> Value(t.ToBytes()) < Value(u.ToBytes())
    ensures Value(t.ToBytes()) == Value(u.ToBytes()) <==> t == u
  {
    LexIsValueOrder(t.ToBytes(), u.ToBytes());
    TargetRoundTrip(t, []);
    TargetRoundTrip(u, []);
  }

  /** `Above` is a strict total order on claims. */
  lemma AboveIsTotal(x: Claim, y: Claim, z: Claim)
    ensures !x.Above(x)
    ensures !(x.Above(y) && y.Above(x))
    ensures x.Above(y) && y.Above(z) ==> x.Above(z)
    ensures x.Above(y) || y.Above(x) || x == y
  {
    TargetBytesSeparate(x.target, y.target);
  }

  /** `replaces`, with the byte comparison read as an order on claims. */
  lemma ReplacesByClaim(a: PointerState, b: PointerState)
    ensures a.Replaces(b) <==>
              a.address == b.address && !ClaimOf(b).Final() && ClaimOf(a).Above(ClaimOf(b))
  {
    TargetBytesSeparate(a.target, b.target);
  }

  /** Never both ways round, never itself, and transitive, for all states. */
  lemma ReplacesIsAStrictPartialOrder(a: PointerState, b: PointerState, d: PointerState)
    ensures !a.Replaces(a)
    ensures !(a.Replaces(b) && b.Replaces(a))
    ensures a.Replaces(b) && b.Replaces(d) ==> a.Replaces(d)
  {
    ReplacesByClaim(a, a);
    ReplacesByClaim(a, b);
    ReplacesByClaim(b, a);
    ReplacesByClaim(b, d);
    ReplacesByClaim(a, d);
    AboveIsTotal(ClaimOf(a), ClaimOf(b), ClaimOf(d));
  }

  /** Two states are ordered exactly when they differ at one address and are
      not both final. */
  lemma ReplacesIsTotalBelowFinal(a: PointerState, b: PointerState)
    ensures (a.Replaces(b) || b.Replaces(a)) <==>
              a.address == b.address
              && (a.counter != b.counter || a.target != b.target)
              && !(a.IsTerminal() && b.IsTerminal())
  {
    ReplacesByClaim(a, b);
    ReplacesByClaim(b, a);
    AboveIsTotal(ClaimOf(a), ClaimOf(b), ClaimOf(b));
  }

  // ---------------------------------------------------------------------------
  // The fold
  // ---------------------------------------------------------------------------

  function Hold(held: Option<PointerState>, arrival: PointerState): Option<PointerState> {
    if held.None? || arrival.Replaces(held.value) then Some(arrival) else held
  }

  /** A node's slot after `arrivals`, in arrival order. */
  function Fold(arrivals: seq<PointerState>): (held: Option<PointerState>)
    ensures held.None? <==> arrivals == []
    ensures held.Some? ==> held.value in arrivals
  {
    if arrivals == [] then None
    else Hold(Fold(arrivals[..|arrivals| - 1]), arrivals[|arrivals| - 1])
  }

  /** How often an arrival displaced a held state. */
  function Replacements(arrivals: seq<PointerState>): nat {
    if arrivals == [] then 0 else
      var before := Fold(arrivals[..|arrivals| - 1]);
      Replacements(arrivals[..|arrivals| - 1]) +
      if before.Some? && arrivals[|arrivals| - 1].Replaces(before.value) then 1 else 0
  }

  /** The fold as a loop over a mutable slot. */
  method FoldArrivals(arrivals: seq<PointerState>) returns (held: Option<PointerState>)
    ensures held == Fold(arrivals)
  {
    held := None;
    for i := 0 to |arrivals|
      invariant held == Fold(arrivals[..i])
    {
      if held.None? || arrivals[i].Replaces(held.value) {
        held := Some(arrivals[i]);
      }
      assert arrivals[..i + 1][..i] == arrivals[..i];
    }
    assert arrivals[..|arrivals|] == arrivals;
  }

  ghost predicate AtOneAddress(arrivals: seq<PointerState>, address: XorName) {
    forall s :: s in arrivals ==> s.address == address
  }

  function Claims(arrivals: seq<PointerState>): set<Claim> {
    set s | s in arrivals :: ClaimOf(s)
  }

  /** Two different final claims are present. */
  ghost predicate Forked(claims: set<Claim>) {
    exists f, g :: f in claims && g in claims && f.Final() && g.Final() && f != g
  }

  /** The winning position, defined without reference to `replaces`: the first
      final arrival if there is one, else the first arrival nothing is above. */
  ghost predicate Winner(arrivals: seq<PointerState>, w: int) {
    && 0 <= w < |arrivals|
    && if exists s :: s in arrivals && s.IsTerminal() then
         arrivals[w].IsTerminal() && forall i :: 0 <= i < w ==> !arrivals[i].IsTerminal()
       else
         && (forall i :: 0 <= i < |arrivals| ==> !ClaimOf(arrivals[i]).Above(ClaimOf(arrivals[w])))
         && (forall i :: 0 <= i < w ==> ClaimOf(arrivals[w]).Above(ClaimOf(arrivals[i])))
  }

  lemma {:induction false} FoldHoldsTheWinner(arrivals: seq<PointerState>, address: XorName) returns (w: int)
    requires arrivals != [] && AtOneAddress(arrivals, address)
    ensures Winner(arrivals, w) && Fold(arrivals) == Some(arrivals[w])
  {
    var n := |arrivals| - 1;
    var before, last := arrivals[..n], arrivals[n];
    assert arrivals == before + [last];
    if before == [] {
      AboveIsTotal(ClaimOf(last), ClaimOf(last), ClaimOf(last));
      return 0;
    }
    var v := FoldHoldsTheWinner(before, address);
    ReplacesByClaim(last, before[v]);
    AboveIsTotal(ClaimOf(last), ClaimOf(before[v]), ClaimOf(last));
    if last.Replaces(before[v]) {
      w := n;
      forall i | 0 <= i < n && !last.IsTerminal()
        ensures ClaimOf(last).Above(ClaimOf(arrivals[i]))
      {
        assert before[i] == arrivals[i];
        AboveIsTotal(ClaimOf(before[i]), ClaimOf(before[v]), ClaimOf(last));
        AboveIsTotal(ClaimOf(last), ClaimOf(before[v]), ClaimOf(before[i]));
      }
      forall i | 0 <= i < n
        ensures !arrivals[i].IsTerminal()
      {
        assert before[i] == arrivals[i] && before[i] in before;
      }
      AboveIsTotal(ClaimOf(last), ClaimOf(last), ClaimOf(last));
    } else {
      w := v;
      assert forall i :: 0 <= i < n ==> arrivals[i] == before[i];
      if last.IsTerminal() {
        assert ClaimOf(before[v]).Final();
      }
    }
  }

  /** Exact fold: the state held after any non-empty arrival sequence at one
      address is the winner's, and nothing else. */
  lemma FoldIsExactlyTheWinner(arrivals: seq<PointerState>, address: XorName)
    requires arrivals != [] && AtOneAddress(arrivals, address)
    ensures exists w :: Winner(arrivals, w)
    ensures forall w :: Winner(arrivals, w) ==> Fold(arrivals) == Some(arrivals[w])
  {
    var v := FoldHoldsTheWinner(arrivals, address);
    forall w | Winner(arrivals, w)
      ensures w == v
    {
      AboveIsTotal(ClaimOf(arrivals[v]), ClaimOf(arrivals[w]), ClaimOf(arrivals[v]));
    }
  }

  /** Unforked, the held claim is the greatest one that arrived. */
  lemma FoldHoldsTheMaximum(arrivals: seq<PointerState>, address: XorName)
    requires arrivals != [] && AtOneAddress(arrivals, address)
    requires !Forked(Claims(arrivals))
    ensures ClaimOf(Fold(arrivals).value) in Claims(arrivals)
    ensures forall x :: x in Claims(arrivals) ==>
              x == ClaimOf(Fold(arrivals).value) || ClaimOf(Fold(arrivals).value).Above(x)
  {
    var w := FoldHoldsTheWinner(arrivals, address);
    var top := ClaimOf(arrivals[w]);
    forall x | x in Claims(arrivals)
      ensures x == top || top.Above(x)
    {
      var s :| s in arrivals && ClaimOf(s) == x;
      AboveIsTotal(top, x, x);
      assert top in Claims(arrivals);
      if x.Final() {
        assert s.IsTerminal();
        assert top.Final();
      }
    }
  }

  /** Convergence: whatever the order and the duplication, two nodes that saw
      the same claims at an address, at most one of them final, hold the same. */
  lemma Convergence(xs: seq<PointerState>, ys: seq<PointerState>, address: XorName)
    requires AtOneAddress(xs, address) && AtOneAddress(ys, address)
    requires xs != [] && Claims(xs) == Claims(ys) && !Forked(Claims(xs))
    ensures Fold(ys).Some? && ClaimOf(Fold(xs).value) == ClaimOf(Fold(ys).value)
  {
    assert ClaimOf(xs[0]) in Claims(ys);
    FoldHoldsTheMaximum(xs, address);
    FoldHoldsTheMaximum(ys, address);
    AboveIsTotal(ClaimOf(Fold(xs).value), ClaimOf(Fold(ys).value), ClaimOf(Fold(xs).value));
  }

  lemma {:induction false} FirstFinalStays(first: PointerState, rest: seq<PointerState>)
    requires first.IsTerminal()
    ensures Fold([first] + rest) == Some(first)
  {
    var all := [first] + rest;
    if rest == [] {
      assert all[..0] == [];
    } else {
      FirstFinalStays(first, rest[..|rest| - 1]);
      assert all[..|all| - 1] == [first] + rest[..|rest| - 1];
    }
  }

  /** `x` is what some arrival sequence carrying exactly `claims` ends in. */
  ghost predicate Outcome(claims: set<Claim>, address: XorName, x: Claim) {
    exists ys :: ys != [] && AtOneAddress(ys, address) && Claims(ys) == claims && ClaimOf(Fold(ys).value) == x
  }

  lemma FinalsAreOutcomes(xs: seq<PointerState>, address: XorName, f: Claim)
    requires AtOneAddress(xs, address) && f in Claims(xs) && f.Final()
    ensures Outcome(Claims(xs), address, f)
  {
    var s :| s in xs && ClaimOf(s) == f;
    FirstFinalStays(s, xs);
    assert Claims([s] + xs) == Claims(xs);
  }

  /** Arrival order matters exactly when two distinct final claims arrived. */
  lemma OrderMattersExactlyWhenForked(xs: seq<PointerState>, address: XorName)
    requires xs != [] && AtOneAddress(xs, address)
    ensures Forked(Claims(xs)) <==>
              exists x, y :: Outcome(Claims(xs), address, x) && Outcome(Claims(xs), address, y) && x != y
  {
    var claims := Claims(xs);
    if Forked(claims) {
      var f, g :| f in claims && g in claims && f.Final() && g.Final() && f != g;
      FinalsAreOutcomes(xs, address, f);
      FinalsAreOutcomes(xs, address, g);
    } else {
      forall x, y | Outcome(claims, address, x) && Outcome(claims, address, y)
        ensures x == y
      {
        var ys :| ys != [] && AtOneAddress(ys, address) && Claims(ys) == claims && ClaimOf(Fold(ys).value) == x;
        var zs :| zs != [] && AtOneAddress(zs, address) && Claims(zs) == claims && ClaimOf(Fold(zs).value) == y;
        Convergence(ys, zs, address);
      }
    }
  }

  /** Arrival `k` changes a slot that was filled before it. */
  predicate ChangesAt(arrivals: seq<PointerState>, k: nat) {
    0 < k < |arrivals| && Fold(arrivals[..k + 1]) != Fold(arrivals[..k])
  }

  function Changes(arrivals: seq<PointerState>): set<nat> {
    set k: nat | k < |arrivals| && ChangesAt(arrivals, k)
  }

  lemma ChangesOneOn(arrivals: seq<PointerState>, n: nat, k: nat)
    requires n + 1 == |arrivals|
    ensures k in Changes(arrivals) <==> k in Changes(arrivals[..n]) || (k == n && ChangesAt(arrivals, n))
  {
    if k < n {
      assert arrivals[..n][..k] == arrivals[..k] && arrivals[..n][..k + 1] == arrivals[..k + 1];
    }
  }

  lemma CountOneOn(s: set<nat>, t: set<nat>, n: nat, more: bool)
    requires n !in s && forall k: nat :: k in t <==> k in s || (k == n && more)
    ensures |t| == |s| + if more then 1 else 0
  {
    assert t == if more then s + {n} else s;
  }

  /** `Replacements` counts exactly the arrivals that change a filled slot. */
  lemma {:induction false} ReplacementsAreChanges(arrivals: seq<PointerState>)
    ensures Replacements(arrivals) == |Changes(arrivals)|
  {
    if arrivals != [] {
      var n := |arrivals| - 1;
      ReplacementsAreChanges(arrivals[..n]);
      LastChange(arrivals);
      forall k: nat
        ensures k in Changes(arrivals) <==> k in Changes(arrivals[..n]) || (k == n && ChangesAt(arrivals, n))
      {
        ChangesOneOn(arrivals, n, k);
      }
      CountOneOn(Changes(arrivals[..n]), Changes(arrivals), n, ChangesAt(arrivals, n));
    }
  }

  lemma LastChange(arrivals: seq<PointerState>)
    requires arrivals != []
    ensures var n := |arrivals| - 1;
            Replacements(arrivals) == Replacements(arrivals[..n]) + if ChangesAt(arrivals, n) then 1 else 0
  {
    var n := |arrivals| - 1;
    assert arrivals[..n + 1] == arrivals;
    if n > 0 {
      var held := Fold(arrivals[..n]).value;
      ReplacesIsAStrictPartialOrder(held, held, held);
    }
  }

  /** Bounded churn: fewer replacements than distinct claims, however many
      re-signed encodings arrive, because each replacement ascends past every
      claim held before. */
  lemma {:induction false} ReplacementsAreBounded(arrivals: seq<PointerState>, address: XorName)
    requires arrivals != [] && AtOneAddress(arrivals, address)
    ensures Replacements(arrivals) < |NotAbove(arrivals, ClaimOf(Fold(arrivals).value))|
    ensures Replacements(arrivals) < |Claims(arrivals)|
  {
    var n := |arrivals| - 1;
    var before, last := arrivals[..n], arrivals[n];
    assert arrivals == before + [last];
    var top := ClaimOf(Fold(arrivals).value);
    AboveIsTotal(top, top, top);
    var under := NotAbove(arrivals, top);
    assert top in under;
    if before != [] {
      ReplacementsAreBounded(before, address);
      var previous := ClaimOf(Fold(before).value);
      var under' := NotAbove(before, previous);
      ReplacesByClaim(last, Fold(before).value);
      if last.Replaces(Fold(before).value) {
        AboveIsTotal(top, previous, top);
        forall x | x in under'
          ensures x in under
        {
          AboveIsTotal(x, top, previous);
        }
        assert top !in under';
        NoLarger(under' + {top}, under);
      } else {
        NoLarger(under', under);
      }
    } else {
      assert Replacements(before) == 0;
      NoLarger({top}, under);
    }
    NoLarger(under, Claims(arrivals));
  }

  ghost function NotAbove(arrivals: seq<PointerState>, top: Claim): set<Claim> {
    set x | x in Claims(arrivals) && !x.Above(top)
  }

  lemma NoLarger<T>(a: set<T>, b: set<T>)
    requires a <= b
    ensures |a| <= |b|
  {
    assert b == a + (b - a);
  }

  // ---------------------------------------------------------------------------
  // A node's store
  // ---------------------------------------------------------------------------

  /** The arrivals for one address, in order. */
  function At(arrivals: seq<PointerState>, address: XorName): (here: seq<PointerState>)
    ensures forall s :: s in here ==> s in arrivals && s.address == address
  {
    if arrivals == [] then [] else
      var rest := At(arrivals[..|arrivals| - 1], address);
      var last := arrivals[|arrivals| - 1];
      if last.address == address then rest + [last] else rest
  }

  type Slots = map<XorName, PointerState>

  function Lookup(slots: Slots, address: XorName): Option<PointerState> {
    if address in slots then Some(slots[address]) else None
  }

  /** The store holds, at every address, the fold of what arrived there. */
  class Store {
    var held: Slots
    ghost var arrivals: seq<PointerState>

    ghost predicate Valid()
      reads this
    {
      forall a: XorName :: Lookup(held, a) == Fold(At(arrivals, a))
    }

    constructor ()
      ensures Valid() && held == map[] && arrivals == []
    {
      held, arrivals := map[], [];
    }

    /** Takes the arrival when its slot is empty or it replaces what is there. */
    method Receive(s: PointerState) returns (taken: bool)
      requires Valid()
      modifies this
      ensures Valid() && arrivals == old(arrivals) + [s]
      ensures taken <==> s.address !in old(held) || s.Replaces(old(held)[s.address])
      ensures held == if taken then old(held)[s.address := s] else old(held)
    {
      taken := s.address !in held || s.Replaces(held[s.address]);
      ghost var before := arrivals;
      if taken {
        held := held[s.address := s];
      }
      arrivals := arrivals + [s];
      forall a: XorName
        ensures Lookup(held, a) == Fold(At(arrivals, a))
      {
        assert arrivals[..|arrivals| - 1] == before;
        assert Lookup(old(held), a) == Fold(At(before, a));
        if a == s.address {
          var here := At(arrivals, a);
          assert here[..|here| - 1] == At(before, a);
        }
      }
    }
  }
}

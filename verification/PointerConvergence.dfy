/** Convergence from the bytes up: nodes fed encoded records, under any
    signatures and with anything that does not validate among them. */
module PointerConvergence {
  import opened Wrappers
  import opened ByteStrings
  import opened Crypto
  import opened PointerRecord
  import PointerCodec
  import opened PointerMerge

  /** The states of the records that validate, in order of arrival. */
  function States(c: Scheme, wires: seq<Bytes>): seq<PointerState> {
    if wires == [] then [] else
      var record := FromBytes(c, wires[|wires| - 1]);
      States(c, wires[..|wires| - 1]) + if record.Success? then [record.value.State(c)] else []
  }

  lemma {:induction false} StateOfRecord(c: Scheme, wires: seq<Bytes>, s: PointerState) returns (p: Pointer)
    requires c.Sound() && s in States(c, wires)
    ensures PointerCodec.WellSigned(c, p) && p.State(c) == s && p.ToBytes(c) in wires
  {
    var init, last := wires[..|wires| - 1], wires[|wires| - 1];
    if s in States(c, init) {
      p := StateOfRecord(c, init, s);
    } else {
      p := FromBytes(c, last).value;
      PointerCodec.AcceptedBytesAreCanonical(c, last);
    }
  }

  /** `s` is the state of a record that validates. */
  ghost predicate StateOfValid(c: Scheme, wire: Bytes, s: PointerState) {
    FromBytes(c, wire).Success? && FromBytes(c, wire).value.State(c) == s
  }

  /** A node takes the state of every record that validates, and no other. */
  lemma {:induction false} StatesAreOfTheValidRecords(c: Scheme, wires: seq<Bytes>, s: PointerState)
    ensures s in States(c, wires) <==> exists wire :: wire in wires && StateOfValid(c, wire, s)
  {
    if wires != [] {
      var init, last := wires[..|wires| - 1], wires[|wires| - 1];
      StatesAreOfTheValidRecords(c, init, s);
      assert wires == init + [last];
      assert s in States(c, wires) <==> s in States(c, init) || StateOfValid(c, last, s);
    }
  }

  /** Two owner keys among the records share an address digest. */
  ghost predicate OwnersCollide(c: Scheme, xs: seq<Bytes>, ys: seq<Bytes>) {
    exists p: Pointer, q: Pointer ::
      && PointerCodec.WellSigned(c, p) && PointerCodec.WellSigned(c, q) && p.ToBytes(c) in xs && q.ToBytes(c) in ys
      && c.Collision(DeriveKey(CONTEXT_ADDRESS), (c.encodeKey)(p.owner), (c.encodeKey)(q.owner))
  }

  /** Two records that claim the same at one address have one state, identifier
      included, or their owners' keys collide. */
  lemma SameClaimSameState(c: Scheme, p: Pointer, q: Pointer)
    requires c.Sound() && PointerCodec.WellSigned(c, p) && PointerCodec.WellSigned(c, q)
    requires p.Address(c) == q.Address(c) && p.counter == q.counter && p.target == q.target
    ensures p.State(c) == q.State(c)
            || c.Collision(DeriveKey(CONTEXT_ADDRESS), (c.encodeKey)(p.owner), (c.encodeKey)(q.owner))
  {
    PointerCodec.AddressNamesTheOwner(c, p, q);
  }

  /** Two nodes received records for any addresses, in any order, with any repeats
      and whatever the signatures. At an address where the records make the same
      claims, at most one of them final, the nodes hold one state with one
      identifier, unless two owner keys collide. */
  lemma RecordsConverge(c: Scheme, xs: seq<Bytes>, ys: seq<Bytes>, address: XorName)
    requires c.Sound()
    requires var (here, there) := (At(States(c, xs), address), At(States(c, ys), address));
             here != [] && Claims(here) == Claims(there) && !Forked(Claims(here))
    ensures Fold(At(States(c, xs), address)) == Fold(At(States(c, ys), address)) || OwnersCollide(c, xs, ys)
  {
    var (here, there) := (At(States(c, xs), address), At(States(c, ys), address));
    Convergence(here, there, address);
    var p := StateOfRecord(c, xs, Fold(here).value);
    var q := StateOfRecord(c, ys, Fold(there).value);
    SameClaimSameState(c, p, q);
  }
}

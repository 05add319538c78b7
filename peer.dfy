/**
 * Peer records of `peer.rs` and the rule that reconciles a newly observed
 * address with the stored one.
 */
module Peer {
  import opened Types
  import opened Wrappers

  datatype PeerState = Unknown | Known(key: PublicKey)

  /**
   * An address with its provenance: Implicit when inferred from traffic,
   * Explicit when requested by the operator.
   */
  datatype PeerAddress = Implicit(addr: Address) | Explicit(addr: Address)

  /**
   * The merge rule of `update_address`: an Explicit observation always
   * replaces, an Implicit one replaces only an Implicit address.
   */
  function Reconcile(current: PeerAddress, incoming: PeerAddress): (r: PeerAddress)
    ensures incoming.Explicit? ==> r == incoming
    ensures current.Implicit? && incoming.Implicit? ==> r == incoming
    ensures current.Explicit? && incoming.Implicit? ==> r == current
  {
    match (current, incoming)
    case (_, Explicit(_)) => incoming
    case (Implicit(_), Implicit(_)) => incoming
    case _ => current
  }

  /** Observing the same address again changes nothing. */
  lemma ReconcileIdempotent(current: PeerAddress, incoming: PeerAddress)
    ensures Reconcile(Reconcile(current, incoming), incoming) == Reconcile(current, incoming)
  {
  }

  /** Observations applied one after another, oldest first. */
  function ReconcileAll(current: PeerAddress, updates: seq<PeerAddress>): PeerAddress
    decreases |updates|
  {
    if updates == [] then current
    else ReconcileAll(Reconcile(current, updates[0]), updates[1..])
  }

  /** Index of the last Explicit observation, or -1 when there is none. */
  function LastExplicit(updates: seq<PeerAddress>): (j: int)
    ensures -1 <= j < |updates|
    ensures j >= 0 ==> updates[j].Explicit?
    ensures forall i :: j < i < |updates| ==> updates[i].Implicit?
    decreases |updates|
  {
    if updates == [] then -1
    else if updates[|updates| - 1].Explicit? then |updates| - 1
    else LastExplicit(updates[..|updates| - 1])
  }

  /**
   * Which address is authoritative after a run of observations: the last
   * Explicit one if any; otherwise an Explicit starting address; otherwise
   * the last Implicit observation, or the starting address if there was none.
   */
  function Authoritative(current: PeerAddress, updates: seq<PeerAddress>): PeerAddress {
    var j := LastExplicit(updates);
    if j >= 0 then updates[j]
    else if current.Explicit? || updates == [] then current
    else updates[|updates| - 1]
  }

  lemma {:induction false} ReconcileAllSnoc(current: PeerAddress, updates: seq<PeerAddress>, u: PeerAddress)
    ensures ReconcileAll(current, updates + [u]) == Reconcile(ReconcileAll(current, updates), u)
    decreases |updates|
  {
    if updates == [] {
      assert [u][1..] == [];
    } else {
      assert (updates + [u])[0] == updates[0];
      assert (updates + [u])[1..] == updates[1..] + [u];
      ReconcileAllSnoc(Reconcile(current, updates[0]), updates[1..], u);
    }
  }

  /** Folding the merge rule agrees with the reference description of the authoritative address. */
  lemma {:induction false} ReconcileAllIsAuthoritative(current: PeerAddress, updates: seq<PeerAddress>)
    ensures ReconcileAll(current, updates) == Authoritative(current, updates)
    decreases |updates|
  {
    if updates != [] {
      var init := updates[..|updates| - 1];
      var u := updates[|updates| - 1];
      assert updates == init + [u];
      ReconcileAllSnoc(current, init, u);
      ReconcileAllIsAuthoritative(current, init);
    }
  }

  /** Once Explicit, the address stays Explicit whatever is observed later. */
  lemma ExplicitIsSticky(current: PeerAddress, updates: seq<PeerAddress>)
    requires current.Explicit?
    ensures ReconcileAll(current, updates).Explicit?
  {
    ReconcileAllIsAuthoritative(current, updates);
  }

  /** The address ends Explicit exactly when it started so or some observation was. */
  lemma ExplicitIff(current: PeerAddress, updates: seq<PeerAddress>)
    ensures ReconcileAll(current, updates).Explicit?
        <==> current.Explicit? || exists i :: 0 <= i < |updates| && updates[i].Explicit?
  {
    ReconcileAllIsAuthoritative(current, updates);
  }

  /** Implicit A, then Explicit B, then Implicit C leaves Explicit B. */
  lemma ExplicitWinsOverLaterImplicit(a: Address, b: Address, c: Address)
    ensures ReconcileAll(Implicit(a), [Explicit(b), Implicit(c)]) == Explicit(b)
  {
    var updates := [Explicit(b), Implicit(c)];
    assert updates[1..] == [Implicit(c)] && updates[1..][1..] == [];
    assert ReconcileAll(Explicit(b), []) == Explicit(b);
    assert ReconcileAll(Explicit(b), [Implicit(c)]) == Explicit(b);
    assert ReconcileAll(Implicit(a), updates) == ReconcileAll(Explicit(b), [Implicit(c)]);
  }

  /** Information about one peer, held and updated in place by the daemon. */
  class PeerInfo {
    var id: Id
    var address: PeerAddress
    var state: PeerState
    var seen: Option<SystemTime>
    var sent: u64
    var received: u64

    constructor (id: Id, address: PeerAddress, state: PeerState, seen: Option<SystemTime>)
      ensures this.id == id && this.address == address
      ensures this.state == state && this.seen == seen
      ensures sent == 0 && received == 0
    {
      this.id := id;
      this.address := address;
      this.state := state;
      this.seen := seen;
      sent := 0;
      received := 0;
    }

    /** Rust's `address()`: the endpoint, whatever its provenance. */
    function Endpoint(): (a: Address)
      reads this
      ensures address == Implicit(a) || address == Explicit(a)
    {
      match address
      case Explicit(e) => e
      case Implicit(i) => i
    }

    method UpdateAddress(addr: PeerAddress)
      modifies this
      ensures address == Reconcile(old(address), addr)
      ensures old(address).Explicit? ==> address.Explicit?
      ensures id == old(id) && state == old(state) && seen == old(seen)
      ensures sent == old(sent) && received == old(received)
    {
      match (address, addr)
      case (_, Explicit(_)) => address := addr;
      case (Implicit(_), Implicit(_)) => address := addr;
      case _ =>
    }

    function State(): (s: PeerState)
      reads this
      ensures s == state
    {
      state
    }

    /** Overwrites the state unconditionally, a learned key included. */
    method SetState(state: PeerState)
      modifies this
      ensures this.state == state
      ensures id == old(id) && address == old(address) && seen == old(seen)
      ensures sent == old(sent) && received == old(received)
    {
      this.state := state;
    }

    function Seen(): (t: Option<SystemTime>)
      reads this
      ensures t == seen
    {
      seen
    }

    /** Overwrites the last-seen time unconditionally, even with an earlier one. */
    method SetSeen(seen: SystemTime)
      modifies this
      ensures this.seen == Some(seen)
      ensures id == old(id) && address == old(address) && state == old(state)
      ensures sent == old(sent) && received == old(received)
    {
      this.seen := Some(seen);
    }
  }

  /** The reconciliation scenario driven through a peer record. */
  method ExplicitWinsScenario(id: Id, a: Address, b: Address, c: Address) returns (p: PeerInfo)
    ensures p.address == Explicit(b) && p.Endpoint() == b
    ensures p.id == id && p.state == Unknown && p.seen == None
  {
    p := new PeerInfo(id, Implicit(a), Unknown, None);
    p.UpdateAddress(Explicit(b));
    p.UpdateAddress(Implicit(c));
  }
}

/**
 * The edge value (src/Edge.js): a handle that copies the identity of a node and points
 * at the node's address.  The earlier revision calls it Connection (src/index.js:633-678);
 * both are modelled by one datatype tagged with the revision.
 */
module Edges {
  import opened Wrappers
  import opened Identity

  /** Node.js/Edge.js (Current) or the Node/Connection classes of index.js (Legacy). */
  datatype Revision = Current | Legacy

  /** The handle of a node object; the source stores the node object itself. */
  type Address = nat

  /** A shared secret: the 40-character string produced by generateSecret. */
  type Secret = string

  /** What an edge copies from a node: revision, keys and handle. */
  datatype NodeInfo = NodeInfo(rev: Revision, keys: Keys, address: Address)
  {
    /** `get ID()` of the node: keys.ID on Current, the bare public key on Legacy (src/index.js:131). */
    function ID(): real
    {
      if rev == Current then keys.ID() else keys.publicKey
    }
  }

  /**
   * An Edge (Current) or a Connection (Legacy).
   *  - hopCount is set by the Edge constructor only; jumpCount by the Connection
   *    constructor only.  On an Edge jumpCount is `undefined`, and `undefined++` is NaN:
   *    both are None here, and incrementing None gives None.
   *  - publicIP, publicPort and natType are only ever assigned by the NAT layer, so
   *    they stay None (undefined, or null copied from the node on Legacy).
   *  - secret and sharedSecret are set by the node on particular edges afterwards.
   */
  datatype Edge = Edge(
    rev: Revision,
    publicKey: real,
    geolocation: int,
    sponsor: Option<Address>,
    address: Address,
    lastAccessed: nat,
    hopCount: Option<nat>,
    jumpCount: Option<nat>,
    publicIP: Option<string>,
    publicPort: Option<nat>,
    natType: Option<string>,
    secret: Option<Secret>,
    sharedSecret: Option<Secret>)
  {
    /** `get ID()`: geolocation + publicKey on an Edge (src/Edge.js:21), publicKey on a Connection. */
    function ID(): real
    {
      if rev == Current then geolocation as real + publicKey else publicKey
    }

    /**
     * `new Edge(this)` / `new Connection(this)` built at time `now`: identity, sponsor and
     * address are copied, the counters start afresh and nothing else is carried over.
     */
    function Copy(now: nat): (e: Edge)
      ensures e.rev == rev && e.ID() == ID() && e.address == address
      ensures e.publicKey == publicKey && e.sponsor == (if rev == Current then sponsor else None)
      ensures rev == Current ==> e.geolocation == geolocation
      ensures e.lastAccessed == now
      ensures e.hopCount == (if rev == Current then Some(0) else None)
      ensures e.jumpCount == (if rev == Current then None else Some(0))
      ensures e.secret == None && e.sharedSecret == None
    {
      Fresh(rev, publicKey, if rev == Current then geolocation else 0,
            if rev == Current then sponsor else None, address, now)
    }

    /** The effect of `clone()` on the edge it is called on: a new timestamp and nothing else. */
    function Touch(now: nat): (e: Edge)
      ensures e.lastAccessed == now
      ensures e.ID() == ID()
    {
      this.(lastAccessed := now)
    }

    /** `fromEdge.jumpCount++` (src/Node.js:238, src/index.js:355). */
    function Jumped(): (e: Edge)
      ensures e.rev == rev && e.ID() == ID() && e.address == address
      ensures jumpCount.Some? ==> e.jumpCount == Some(jumpCount.value + 1)
      ensures jumpCount.None? ==> e.jumpCount.None?
      ensures e == this.(jumpCount := e.jumpCount)
    {
      this.(jumpCount := if jumpCount.Some? then Some(jumpCount.value + 1) else None)
    }

    /** getPublicInfo(): the four shareable fields. */
    function GetPublicInfo(): PublicInfo
    {
      PublicInfo(ID(), publicIP, publicPort, natType)
    }
  }

  /** `{ID, publicIP, publicPort, natType}` as returned by getPublicInfo. */
  datatype PublicInfo = PublicInfo(ID: real, publicIP: Option<string>, publicPort: Option<nat>, natType: Option<string>)

  /** The field values every constructor call produces. */
  function Fresh(rev: Revision, publicKey: real, geolocation: int, sponsor: Option<Address>,
                 address: Address, now: nat): Edge
  {
    Edge(rev, publicKey, geolocation, sponsor, address, now,
         if rev == Current then Some(0) else None,
         if rev == Current then None else Some(0),
         None, None, None, None, None)
  }

  /**
   * `new Edge(node)` / `new Connection(node)` for a node: the node object is its own
   * `address`, a Node has no sponsor, and a Legacy node has no geolocation.
   */
  function FromNode(n: NodeInfo, now: nat): (e: Edge)
    ensures e.rev == n.rev && e.ID() == n.ID() && e.address == n.address
    ensures e.sponsor == None && e.lastAccessed == now
    ensures e.hopCount == (if n.rev == Current then Some(0) else None)
    ensures e.jumpCount == (if n.rev == Current then None else Some(0))
    ensures e.secret == None && e.sharedSecret == None
  {
    Fresh(n.rev, n.keys.publicKey, if n.rev == Current then n.keys.geolocation else 0,
          None, n.address, now)
  }

  /**
   * `clone()`: the edge it is called on gets the new timestamp, and the result is a new
   * edge built from it.  Returns the pair (edge after the call, result).
   */
  function Clone(e: Edge, now: nat): (r: (Edge, Edge))
    ensures r.0 == e.(lastAccessed := now)
    ensures r.1.ID() == e.ID() && r.1.address == e.address && r.1.lastAccessed == now
    ensures r.1.secret == None && r.1.sharedSecret == None
    ensures e.rev == Current ==> r.1.hopCount == Some(0)
    ensures e.rev == Legacy ==> r.1.jumpCount == Some(0)
  {
    var touched := e.Touch(now);
    (touched, touched.Copy(now))
  }

  /** Copying a copy at the same time gives the same copy: `new Edge(newEdge.clone())` is `newEdge.clone()`. */
  lemma CopyIdempotent(e: Edge, now: nat, later: nat)
    ensures e.Copy(now).Copy(later) == e.Copy(later)
    ensures e.Touch(now).Copy(later) == e.Copy(later)
  {
  }

  /** An edge built from a node, and every copy of it, identifies and targets that node. */
  lemma CopyOfNodeTargetsNode(n: NodeInfo, now: nat, later: nat)
    ensures FromNode(n, now).Copy(later) == FromNode(n, later)
  {
  }

  /** getPublicInfo reveals neither the secrets, nor the address, nor the timestamp or counters. */
  lemma PublicInfoHidesPrivateFields(e: Edge, s: Option<Secret>, t: Option<Secret>, a: Address, now: nat)
    ensures e.(secret := s, sharedSecret := t, address := a, lastAccessed := now).GetPublicInfo()
            == e.GetPublicInfo()
    ensures e.Jumped().GetPublicInfo() == e.GetPublicInfo()
    ensures e.GetPublicInfo().ID == e.ID()
  {
  }

  /** On an Edge (Current) the jump counter is never 0, so the message counter never moves. */
  lemma CurrentEdgesHaveNoJumpCount(n: NodeInfo, e: Edge, now: nat)
    requires n.rev == Current && e.rev == Current
    ensures FromNode(n, now).jumpCount != Some(0)
    ensures e.Copy(now).jumpCount != Some(0)
    ensures e.Copy(now).Jumped().jumpCount.None?
  {
  }
}

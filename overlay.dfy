/**
 * The mesh: every node object, reachable by its handle, and the synchronous delivery of
 * sendMessage calls between them (src/Node.js:235-255, src/index.js:352-372), with the
 * module-level counters messageCount and messageJumpCount (src/index.js:58-59).
 *
 * A sendMessage call runs to completion -- including every call it causes -- before the
 * caller's next statement; each handler makes all its table changes before its first
 * send.  Delivery is therefore a depth-first stack of pending calls: a handler's sends
 * go on top, in order.  The recursion need not terminate, so delivery takes a fuel bound.
 */
module Overlay {
  import opened Wrappers
  import opened Identity
  import opened Utilities
  import opened Edges
  import opened Tables
  import opened Peer

  /** What a delivery run sees of the mesh: each node's table, by handle, the counters and the clock. */
  datatype World = World(tables: map<Address, Table>, counters: Counters, clock: nat)

  /** Every handle holds a node of revision `rev` sitting at it, and every table points at known handles. */
  ghost predicate WorldIn(infos: map<Address, NodeInfo>, w: World, rev: Revision)
  {
    infos.Keys == w.tables.Keys &&
    (forall a :: a in infos ==> infos[a].address == a && infos[a].rev == rev) &&
    (forall a :: a in w.tables ==> TableIn(w.tables[a], w.tables.Keys, rev))
  }

  /** Replacing one table by a closed one keeps the world closed and its handles. */
  lemma WorldUpdate(infos: map<Address, NodeInfo>, rev: Revision, w: World, a: Address, t: Table,
                    c: Counters, now: nat)
    requires WorldIn(infos, w, rev) && a in w.tables && TableIn(t, w.tables.Keys, rev)
    ensures w.tables[a := t].Keys == w.tables.Keys
    ensures WorldIn(infos, World(w.tables[a := t], c, now), rev)
  {
    assert w.tables[a := t].Keys == w.tables.Keys;
  }

  /** A receiveMessage handler, shaped as Tables.ReceiveStep: table, node, sender, message, secret, time. */
  type Handler = (Table, NodeInfo, Edge, Message, Secret, nat) -> Outcome

  /**
   * The handler keeps a table of known nodes closed, and makes only calls that target
   * known nodes and, on Current, carry no jump counter.
   */
  ghost predicate HandlerIn(handle: Handler, nodes: set<Address>, rev: Revision)
  {
    forall t: Table, self: NodeInfo, from: Edge, msg: Message, secret: Secret, now: nat ::
      TableIn(t, nodes, rev) && EdgeIn(from, nodes, rev) && MessageIn(msg, nodes, rev) &&
      self.address in nodes && self.rev == rev ==>
        TableIn(handle(t, self, from, msg, secret, now).table, nodes, rev) &&
        SendsIn(handle(t, self, from, msg, secret, now).out, nodes, rev) &&
        CountFree(handle(t, self, from, msg, secret, now).out, rev)
  }

  /** A handler's sends are closed and, on Current, carry no jump counter. */
  lemma HandlerCountFree(t: Table, self: NodeInfo, from: Edge, msg: Message, secret: Secret, now: nat,
                         nodes: set<Address>)
    requires TableIn(t, nodes, self.rev) && EdgeIn(from, nodes, self.rev) && MessageIn(msg, nodes, self.rev)
    requires self.address in nodes
    ensures var o := ReceiveStep(t, self, from, msg, secret, now);
            TableIn(o.table, nodes, self.rev) && SendsIn(o.out, nodes, self.rev) && CountFree(o.out, self.rev)
  {
    var o := ReceiveStep(t, self, from, msg, secret, now);
    ReceiveStepIn(t, self, from, msg, secret, now, nodes);
    forall i | 0 <= i < |o.out|
      ensures self.rev == Current ==> o.out[i].from.jumpCount.None?
    {
      assert SendIn(o.out[i], nodes, self.rev);
    }
  }

  /** receiveMessage is such a handler on every set of nodes. */
  lemma ReceiveStepIsIn(nodes: set<Address>, rev: Revision)
    ensures HandlerIn(ReceiveStep, nodes, rev)
  {
    forall t: Table, self: NodeInfo, from: Edge, msg: Message, secret: Secret, now: nat |
      TableIn(t, nodes, rev) && EdgeIn(from, nodes, rev) && MessageIn(msg, nodes, rev) &&
      self.address in nodes && self.rev == rev
      ensures TableIn(ReceiveStep(t, self, from, msg, secret, now).table, nodes, rev) &&
              SendsIn(ReceiveStep(t, self, from, msg, secret, now).out, nodes, rev) &&
              CountFree(ReceiveStep(t, self, from, msg, secret, now).out, rev)
    {
      HandlerCountFree(t, self, from, msg, secret, now, nodes);
    }
  }

  /**
   * What one sendMessage call does at the node `self` with table `t`, once the hop is
   * counted (src/Node.js:240-254): handle the message here, forward it to the nearest
   * entry, or drop it.  Returns the node's new table, the calls it makes and whether it threw.
   */
  function StepAt(handle: Handler, self: NodeInfo, t: Table, from: Edge, to: Edge, msg: Message, now: nat,
                  randomValues: nat -> seq<CodeUnit>): (Table, seq<Send>, bool)
  {
    match RouteOf(t, self.ID(), to)
    case Local =>
      var secret := if msg.RequestEdge? then HashHex(randomValues(now)) else [];
      var o := handle(t, self, from, msg, secret, now);
      (o.table, o.out, o.threw)
    case Forward(via) =>
      (t, [Send(via.address, from, to, msg)], false)
    case NoRoute =>
      (t, [], false)
  }

  /**
   * On a closed table, a call from a known sender leaves a closed table and makes only
   * calls that target known nodes and, on Current, carry no jump counter.
   */
  lemma StepAtIn(handle: Handler, self: NodeInfo, t: Table, from: Edge, to: Edge, msg: Message, now: nat,
                 randomValues: nat -> seq<CodeUnit>, nodes: set<Address>)
    requires HandlerIn(handle, nodes, self.rev)
    requires TableIn(t, nodes, self.rev) && EdgeIn(from, nodes, self.rev) && EdgeIn(to, nodes, self.rev)
    requires MessageIn(msg, nodes, self.rev) && self.address in nodes
    requires self.rev == Current ==> from.jumpCount.None?
    ensures var r := StepAt(handle, self, t, from, to, msg, now, randomValues);
            TableIn(r.0, nodes, self.rev) && SendsIn(r.1, nodes, self.rev) && CountFree(r.1, self.rev)
  {
    match RouteOf(t, self.ID(), to)
    case Local =>
    case Forward(via) =>
      FindEdgeIn(t, to.ID(), All, nodes, self.rev);
    case NoRoute =>
  }

  /** One sendMessage call at `s.at` (src/Node.js:235-255, src/index.js:352-372) on the whole mesh. */
  function StepWorld(handle: Handler, infos: map<Address, NodeInfo>, w: World, s: Send,
                     randomValues: nat -> seq<CodeUnit>): (World, seq<Send>, bool)
    requires s.at in infos && s.at in w.tables
  {
    var hop := CountHop(w.counters, s.from);
    var r := StepAt(handle, infos[s.at], w.tables[s.at], hop.1, s.to, s.msg, w.clock + 1, randomValues);
    (World(w.tables[s.at := r.0], hop.0, w.clock + 1), r.1, r.2)
  }

  /**
   * The reference for Mesh.Deliver: the calls on the stack run top first, each replaced by
   * the calls it makes, for at most `fuel` calls or until a handler throws.  Returns the
   * world after the run, the calls left over, the number of calls run and whether one threw.
   * A call to a handle the world does not have throws, as calling a method on a missing
   * object does; on a closed mesh it cannot happen (RunIn).
   */
  function Run(handle: Handler, infos: map<Address, NodeInfo>, w: World, pending: seq<Send>, fuel: nat,
               randomValues: nat -> seq<CodeUnit>): (World, seq<Send>, nat, bool)
    decreases fuel
  {
    if pending == [] || fuel == 0 then (w, pending, 0, false)
    else if pending[0].at !in infos || pending[0].at !in w.tables then (w, pending, 0, true)
    else
      var st := StepWorld(handle, infos, w, pending[0], randomValues);
      if st.2 then (st.0, st.1 + pending[1..], 1, true)
      else
        var r := Run(handle, infos, st.0, st.1 + pending[1..], fuel - 1, randomValues);
        (r.0, r.1, r.2 + 1, r.3)
  }

  /**
   * One call to a known node of a closed mesh keeps it closed, leaves only calls between
   * known nodes, and adds one jump and at most one message -- none on Current -- and one tick.
   */
  lemma StepWorldIn(handle: Handler, infos: map<Address, NodeInfo>, rev: Revision, w: World,
                    pending: seq<Send>, randomValues: nat -> seq<CodeUnit>)
    requires HandlerIn(handle, w.tables.Keys, rev)
    requires WorldIn(infos, w, rev) && SendsIn(pending, w.tables.Keys, rev) && CountFree(pending, rev)
    requires pending != []
    ensures pending[0].at in infos && pending[0].at in w.tables
    ensures var st := StepWorld(handle, infos, w, pending[0], randomValues);
            var rest := st.1 + pending[1..];
            WorldIn(infos, st.0, rev) && st.0.tables.Keys == w.tables.Keys &&
            SendsIn(rest, w.tables.Keys, rev) && CountFree(rest, rev)
    ensures var st := StepWorld(handle, infos, w, pending[0], randomValues);
            st.0.counters.messageJumpCount == w.counters.messageJumpCount + 1 &&
            st.0.counters.messageCount <= w.counters.messageCount + 1 &&
            (rev == Current ==> st.0.counters.messageCount == w.counters.messageCount) &&
            st.0.clock == w.clock + 1
  {
    var s := pending[0];
    assert SendIn(s, w.tables.Keys, rev);
    var hop := CountHop(w.counters, s.from);
    var st := StepWorld(handle, infos, w, s, randomValues);
    StepAtIn(handle, infos[s.at], w.tables[s.at], hop.1, s.to, s.msg, w.clock + 1, randomValues, w.tables.Keys);
    WorldUpdate(infos, rev, w, s.at, st.0.tables[s.at], hop.0, w.clock + 1);
    PushIn(st.1, pending, w.tables.Keys, rev);
  }

  /** A run on a closed mesh keeps it closed and leaves only calls between known nodes. */
  lemma {:induction false} RunIn(handle: Handler, infos: map<Address, NodeInfo>, rev: Revision, w: World,
                                 pending: seq<Send>, fuel: nat, randomValues: nat -> seq<CodeUnit>)
    requires HandlerIn(handle, w.tables.Keys, rev)
    requires WorldIn(infos, w, rev) && SendsIn(pending, w.tables.Keys, rev) && CountFree(pending, rev)
    ensures var r := Run(handle, infos, w, pending, fuel, randomValues);
            WorldIn(infos, r.0, rev) && r.0.tables.Keys == w.tables.Keys &&
            SendsIn(r.1, w.tables.Keys, rev) && CountFree(r.1, rev)
    decreases fuel
  {
    if pending != [] && fuel != 0 {
      StepWorldIn(handle, infos, rev, w, pending, randomValues);
      var st := StepWorld(handle, infos, w, pending[0], randomValues);
      if !st.2 {
        RunIn(handle, infos, rev, st.0, st.1 + pending[1..], fuel - 1, randomValues);
      }
    }
  }

  /** A run makes at most `fuel` calls, and all of them unless a call throws or no call is left. */
  lemma {:induction false} RunFuel(handle: Handler, infos: map<Address, NodeInfo>, w: World,
                                   pending: seq<Send>, fuel: nat, randomValues: nat -> seq<CodeUnit>)
    ensures var r := Run(handle, infos, w, pending, fuel, randomValues);
            r.2 <= fuel && (!r.3 && r.1 != [] ==> r.2 == fuel)
    decreases fuel
  {
    if pending != [] && fuel != 0 && pending[0].at in infos && pending[0].at in w.tables {
      var st := StepWorld(handle, infos, w, pending[0], randomValues);
      if !st.2 {
        RunFuel(handle, infos, st.0, st.1 + pending[1..], fuel - 1, randomValues);
      }
    }
  }

  /**
   * On a closed mesh, each call of a run adds one jump and at most one message -- none on
   * Current -- and one tick of the clock.
   */
  lemma {:induction false} RunCounts(handle: Handler, infos: map<Address, NodeInfo>, rev: Revision, w: World,
                                     pending: seq<Send>, fuel: nat, randomValues: nat -> seq<CodeUnit>)
    requires HandlerIn(handle, w.tables.Keys, rev)
    requires WorldIn(infos, w, rev) && SendsIn(pending, w.tables.Keys, rev) && CountFree(pending, rev)
    ensures var r := Run(handle, infos, w, pending, fuel, randomValues);
            r.0.counters.messageJumpCount == w.counters.messageJumpCount + r.2 &&
            r.0.counters.messageCount <= w.counters.messageCount + r.2 &&
            (rev == Current ==> r.0.counters.messageCount == w.counters.messageCount) &&
            r.0.clock == w.clock + r.2
    decreases fuel
  {
    if pending != [] && fuel != 0 {
      StepWorldIn(handle, infos, rev, w, pending, randomValues);
      var st := StepWorld(handle, infos, w, pending[0], randomValues);
      if !st.2 {
        RunCounts(handle, infos, rev, st.0, st.1 + pending[1..], fuel - 1, randomValues);
      }
    }
  }

  /** `total` is a run that, `hops` calls in, is left with `left` more calls from `w` and `pending`. */
  ghost predicate Resumes(handle: Handler, infos: map<Address, NodeInfo>, w: World, pending: seq<Send>, left: nat,
                          randomValues: nat -> seq<CodeUnit>, hops: nat, total: (World, seq<Send>, nat, bool))
  {
    var r := Run(handle, infos, w, pending, left, randomValues);
    total == (r.0, r.1, r.2 + hops, r.3)
  }

  /**
   * A run resumed at a call to a known node, one call later: in the world `w'` after that
   * call, with the calls `rest` it leaves, or finished when the call threw.
   */
  lemma RunNext(handle: Handler, infos: map<Address, NodeInfo>, w: World, pending: seq<Send>, left: nat,
                randomValues: nat -> seq<CodeUnit>, hops: nat, total: (World, seq<Send>, nat, bool),
                w': World, rest: seq<Send>, left': nat, hops': nat)
    requires pending != [] && pending[0].at in infos && pending[0].at in w.tables
    requires Resumes(handle, infos, w, pending, left, randomValues, hops, total)
    requires var st := StepWorld(handle, infos, w, pending[0], randomValues);
             w' == st.0 && rest == st.1 + pending[1..] && left == left' + 1 && hops' == hops + 1
    ensures var st := StepWorld(handle, infos, w, pending[0], randomValues);
            (st.2 ==> total == (w', rest, hops', true)) &&
            (!st.2 ==> Resumes(handle, infos, w', rest, left', randomValues, hops', total))
  {
    assert left - 1 == left';
  }

  class Mesh {
    const rev: Revision
    var nodes: map<Address, Node>
    var counters: Counters
    /** A logical clock standing for `new Date()`: one tick per sendMessage call and per new node. */
    var clock: nat

    /** Every node sits at its own handle, runs this revision, and all its edges point at known nodes. */
    ghost predicate Valid()
      reads this, nodes.Values
    {
      (forall a :: a in nodes ==> nodes[a].info.address == a && nodes[a].info.rev == rev) &&
      (forall a :: a in nodes ==> TableIn(nodes[a].State(), nodes.Keys, rev))
    }

    /** The table of every node, by handle. */
    ghost function Tables(): map<Address, Table>
      reads this, nodes.Values
    {
      map a | a in nodes :: nodes[a].State()
    }

    /** The identity and handle of every node, by handle. */
    ghost function Infos(): map<Address, NodeInfo>
      reads this
    {
      map a | a in nodes :: nodes[a].info
    }

    /** The mesh is in the world `w`: the same handles, tables, counters and clock. */
    ghost predicate Sees(w: World)
      reads this, nodes.Values
    {
      w.tables.Keys == nodes.Keys && (forall b :: b in nodes ==> nodes[b].State() == w.tables[b]) &&
      w.counters == counters && w.clock == clock
    }

    constructor (rev: Revision)
      ensures Valid() && this.rev == rev
      ensures nodes == map[] && counters == Counters(0, 0) && clock == 0
    {
      this.rev := rev;
      nodes := map[];
      counters := Counters(0, 0);
      clock := 0;
    }

    /**
     * The node at `a` handles a message addressed to it (the `toEdge.ID === this.ID` branch
     * of sendMessage).  A confirmEdge is given the secret generateSecret makes from
     * `randomValue`.
     */
    method Receive(a: Address, fromEdge: Edge, msg: Message, randomValue: seq<CodeUnit>)
      returns (out: seq<Send>, threw: bool)
      requires Valid() && a in nodes && EdgeIn(fromEdge, nodes.Keys, rev) && MessageIn(msg, nodes.Keys, rev)
      modifies nodes[a]
      ensures Valid() && nodes == old(nodes)
      ensures var secret := if msg.RequestEdge? then HashHex(randomValue) else [];
              var o := ReceiveStep(old(nodes[a].State()), nodes[a].info, fromEdge, msg, secret, clock);
              nodes[a].State() == o.table && out == o.out && threw == o.threw
      ensures SendsIn(out, nodes.Keys, rev) && FreshSenders(out)
    {
      var node := nodes[a];
      var secret: Secret := [];
      if msg.RequestEdge? {
        secret := GenerateSecret(randomValue);
      }
      ghost var before := node.State();
      out, threw := node.ReceiveMessage(fromEdge, msg, secret, clock);
      ReceiveStepIn(before, node.info, fromEdge, msg, secret, clock, nodes.Keys);
      forall b | b in nodes
        ensures TableIn(nodes[b].State(), nodes.Keys, rev)
      {
        if b != a {
          assert nodes[b] != node;
          assert nodes[b].State() == old(nodes[b].State());
        }
      }
    }

    /**
     * The rest of sendMessage at the node `a`, once the hop is counted (src/Node.js:240-254):
     * handle the message here when it is addressed to this node, or pass it on to the
     * nearest entry, or drop it when the node knows nobody.  A message handled here is
     * given the secret generateSecret makes from `randomValues(clock)`.
     */
    method Handle(a: Address, fromEdge: Edge, to: Edge, msg: Message, randomValues: nat -> seq<CodeUnit>)
      returns (out: seq<Send>, threw: bool)
      requires Valid() && a in nodes && EdgeIn(fromEdge, nodes.Keys, rev) && EdgeIn(to, nodes.Keys, rev)
      requires MessageIn(msg, nodes.Keys, rev)
      requires rev == Current ==> fromEdge.jumpCount.None?
      modifies nodes[a]
      ensures Valid() && nodes == old(nodes)
      ensures (nodes[a].State(), out, threw)
              == StepAt(ReceiveStep, nodes[a].info, old(nodes[a].State()), fromEdge, to, msg, clock, randomValues)
      ensures SendsIn(out, nodes.Keys, rev) && CountFree(out, rev)
    {
      var node := nodes[a];
      if to.ID() == node.ID() {
        out, threw := Receive(a, fromEdge, msg, randomValues(clock));
      } else {
        var closest := node.FindEdge(to.ID(), All);
        FindEdgeIn(node.State(), to.ID(), All, nodes.Keys, rev);
        threw := false;
        if closest.Some? {
          // closest.address.sendMessage(fromEdge, toEdge, messageType, message)
          out := [Send(closest.value.address, fromEdge, to, msg)];
        } else {
          out := [];
        }
      }
    }

    /**
     * One sendMessage call at the node `s.at` (src/Node.js:235-255, src/index.js:352-372):
     * count the hop, then handle, forward or drop the message.  Whatever world `w` the mesh
     * was in, it is afterwards in the world StepWorld makes of `w`, and the calls made are
     * StepWorld's.
     */
    method Step(s: Send, randomValues: nat -> seq<CodeUnit>, ghost w: World) returns (out: seq<Send>, threw: bool)
      requires Valid() && SendIn(s, nodes.Keys, rev) && Sees(w)
      requires rev == Current ==> s.from.jumpCount.None?
      modifies this, nodes[s.at]
      ensures Valid() && nodes == old(nodes)
      ensures counters == CountHop(old(counters), s.from).0 && clock == old(clock) + 1
      ensures (nodes[s.at].State(), out, threw)
              == StepAt(ReceiveStep, nodes[s.at].info, old(nodes[s.at].State()), s.from.Jumped(), s.to, s.msg, clock, randomValues)
      ensures SendsIn(out, nodes.Keys, rev)
      ensures CountFree(out, rev)
      ensures Infos() == old(Infos())
      ensures var r := StepWorld(ReceiveStep, old(Infos()), w, s, randomValues);
              Sees(r.0) && out == r.1 && threw == r.2
    {
      var node := nodes[s.at];
      ghost var infos := Infos();
      ghost var t0 := node.State();
      var (c, fromEdge) := CountHop(counters, s.from);
      counters := c;
      clock := clock + 1;
      out, threw := Handle(s.at, fromEdge, s.to, s.msg, randomValues);
      ghost var here := StepAt(ReceiveStep, node.info, t0, fromEdge, s.to, s.msg, clock, randomValues);
      assert infos[s.at] == node.info && w.tables[s.at] == t0 && w.clock + 1 == clock;
      assert CountHop(w.counters, s.from) == (c, fromEdge);
      ghost var r := StepWorld(ReceiveStep, infos, w, s, randomValues);
      assert r == (World(w.tables[s.at := here.0], c, clock), here.1, here.2);
      forall b | b in nodes
        ensures nodes[b].State() == r.0.tables[b]
      {
        if b != s.at {
          assert nodes[b] != node;
        }
      }
    }

    /**
     * Runs pending sendMessage calls, the top of the stack first, for at most `fuel` calls:
     * the sends a call makes go on top of the stack, in order.  Stops early when a handler
     * throws; the calls left over are returned.
     */
    method Deliver(stack: seq<Send>, fuel: nat, randomValues: nat -> seq<CodeUnit>, ghost w: World)
      returns (pending: seq<Send>, hops: nat, threw: bool)
      requires Valid() && SendsIn(stack, nodes.Keys, rev) && Sees(w)
      requires CountFree(stack, rev)
      modifies this, nodes.Values
      ensures Valid() && nodes == old(nodes)
      ensures SendsIn(pending, nodes.Keys, rev)
      ensures hops <= fuel && (!threw && pending != [] ==> hops == fuel)
      ensures counters.messageJumpCount == old(counters.messageJumpCount) + hops
      ensures counters.messageCount <= old(counters.messageCount) + hops
      ensures rev == Current ==> counters.messageCount == old(counters.messageCount)
      ensures clock == old(clock) + hops
      ensures var r := Run(ReceiveStep, Infos(), w, stack, fuel, randomValues);
              Sees(r.0) && pending == r.1 && hops == r.2 && threw == r.3
    {
      ghost var infos := Infos();
      assert infos.Keys == nodes.Keys;
      ghost var total := Run(ReceiveStep, infos, w, stack, fuel, randomValues);
      ghost var cur := w;
      ghost var left: nat := fuel;
      pending, hops, threw := stack, 0, false;
      while pending != [] && hops < fuel && !threw
        invariant Valid() && nodes == old(nodes)
        invariant SendsIn(pending, nodes.Keys, rev)
        invariant CountFree(pending, rev)
        invariant hops <= fuel
        invariant counters.messageJumpCount == old(counters.messageJumpCount) + hops
        invariant counters.messageCount <= old(counters.messageCount) + hops
        invariant rev == Current ==> counters.messageCount == old(counters.messageCount)
        invariant clock == old(clock) + hops
        invariant Infos() == infos && infos.Keys == nodes.Keys && Sees(cur)
        invariant left + hops == fuel
        invariant !threw ==> Resumes(ReceiveStep, infos, cur, pending, left, randomValues, hops, total)
        invariant threw ==> total == (cur, pending, hops, true)
        decreases fuel - hops
      {
        var s := pending[0];
        assert SendIn(s, nodes.Keys, rev);
        var out;
        ghost var cur0, pending0, left0, hops0 := cur, pending, left, hops;
        ghost var st := StepWorld(ReceiveStep, infos, cur, s, randomValues);
        out, threw := Step(s, randomValues, cur);
        assert out == st.1 && threw == st.2 && Sees(st.0);
        cur := st.0;
        PushIn(out, pending, nodes.Keys, rev);
        pending := out + pending[1..];
        hops, left := hops + 1, left - 1;
        RunNext(ReceiveStep, infos, cur0, pending0, left0, randomValues, hops0, total, cur, pending, left, hops);
      }
    }

    /** `new Node()` without a sponsor: the first node of a mesh, at the fresh handle `a`. */
    method AddNode(keys: Keys, a: Address) returns (node: Node)
      requires Valid() && a !in nodes
      modifies this
      ensures Valid() && nodes == old(nodes)[a := node] && fresh(node)
      ensures node.info == NodeInfo(rev, keys, a) && node.State() == Table([], [], [])
      ensures counters == old(counters) && clock == old(clock) + 1
    {
      clock := clock + 1;
      node := new Node(NodeInfo(rev, keys, a), clock);
      nodes := nodes[a := node];
      assert forall b :: b in old(nodes) ==> TableIn(nodes[b].State(), old(nodes).Keys, rev);
      forall b | b in nodes
        ensures TableIn(nodes[b].State(), nodes.Keys, rev)
      {
        if b != a {
          TableInGrows(nodes[b].State(), old(nodes).Keys, nodes.Keys, rev);
        }
      }
    }

    /**
     * connectTo between two nodes of the mesh (src/Node.js:40-48): each gets, in front of
     * its pool, an edge to the other carrying the secret generateSecret makes from
     * `randomValue`.
     */
    method Connect(a: Address, b: Address, randomValue: seq<CodeUnit>)
      requires Valid() && a in nodes && b in nodes
      modifies this, nodes[a], nodes[b]
      ensures Valid() && nodes == old(nodes) && counters == old(counters) && clock == old(clock) + 1
      ensures var secret := Some(HashHex(randomValue));
              var yourEdge := FromNode(nodes[b].info, clock).(sharedSecret := secret);
              var myEdge := FromNode(nodes[a].info, clock).(sharedSecret := secret);
              (a != b ==> nodes[a].State() == old(nodes[a].State()).(edges := [yourEdge] + old(nodes[a].edges)) &&
                          nodes[b].State() == old(nodes[b].State()).(edges := [myEdge] + old(nodes[b].edges))) &&
              (a == b ==> nodes[a].State() == old(nodes[a].State()).(edges := [yourEdge, myEdge] + old(nodes[a].edges)))
    {
      clock := clock + 1;
      var secret := GenerateSecret(randomValue);
      assert a != b ==> nodes[a] != nodes[b];
      nodes[a].ConnectTo(nodes[b], secret, clock);
    }

    /**
     * The first half of `new Node(initNode)` (src/Node.js:12-30): the new node is put at the
     * fresh handle `a` and connects to the sponsor at `init`; findEdge(initNode.ID) then
     * returns the edge to the sponsor, whose shared secret is the one just made.  Returns
     * the joinMesh call the constructor makes with it.
     */
    method Sponsor(keys: Keys, a: Address, init: Address, randomValue: seq<CodeUnit>)
      returns (node: Node, first: Send)
      requires Valid() && a !in nodes && init in nodes
      modifies this, nodes[init]
      ensures Valid() && nodes == old(nodes)[a := node] && fresh(node)
      ensures node.info == NodeInfo(rev, keys, a) && counters == old(counters)
      ensures first == Send(a, FromNode(node.info, clock), FromNode(nodes[init].info, clock),
                            JoinMesh(Some(HashHex(randomValue))))
      ensures SendIn(first, nodes.Keys, rev) && CountFree([first], rev)
      ensures Admits(nodes[init].State(), first.from, first.msg.payload)
      ensures clock == old(clock) + 2
      ensures var secret := Some(HashHex(randomValue));
              node.State() == Table([FromNode(nodes[init].info, clock).(sharedSecret := secret)], [], []) &&
              nodes[init].State() == old(nodes[init].State()).(edges := [FromNode(node.info, clock).(sharedSecret := secret)]
                                                                         + old(nodes[init].edges))
      ensures forall b :: b in old(nodes) && b != init ==> nodes[b].State() == old(nodes[b].State())
    {
      var initNode := nodes[init];
      node := AddNode(keys, a);
      Connect(a, init, randomValue);
      DigestWellFormed(randomValue);
      var yourEdge := FromNode(initNode.info, clock).(sharedSecret := Some(HashHex(randomValue)));
      JoinHandshake(old(initNode.State()), node.info, initNode.info, HashHex(randomValue), clock, clock);
      var closest := node.FindEdge(initNode.ID(), All);
      assert closest == Some(yourEdge);
      var sharedSecret := closest.value.sharedSecret;
      first := Send(a, FromNode(node.info, clock), FromNode(initNode.info, clock), Message.JoinMesh(sharedSecret));
    }

    /**
     * `new Node(initNode)` (src/Node.js:12-33): the sponsoring handshake, then the delivery
     * of joinMesh and of every call it causes.
     */
    method Join(keys: Keys, a: Address, init: Address, randomValue: seq<CodeUnit>, fuel: nat,
                randomValues: nat -> seq<CodeUnit>)
      returns (node: Node, pending: seq<Send>, hops: nat, threw: bool)
      requires Valid() && a !in nodes && init in nodes
      modifies this, nodes.Values
      ensures Valid() && nodes == old(nodes)[a := node] && fresh(node)
      ensures node.info == NodeInfo(rev, keys, a)
      ensures hops <= fuel && counters.messageJumpCount == old(counters.messageJumpCount) + hops
      ensures rev == Current ==> counters.messageCount == old(counters.messageCount)
      ensures var now := old(clock) + 2;
              var secret := Some(HashHex(randomValue));
              var sponsor := old(nodes[init]).info;
              var start := World(old(Tables())[a := Table([FromNode(sponsor, now).(sharedSecret := secret)], [], [])]
                                   [init := old(nodes[init].State()).(edges := [FromNode(node.info, now).(sharedSecret := secret)]
                                                                               + old(nodes[init].edges))],
                                 old(counters), now);
              var first := Send(a, FromNode(node.info, now), FromNode(sponsor, now), JoinMesh(secret));
              var r := Run(ReceiveStep, Infos(), start, [first], fuel, randomValues);
              Sees(r.0) && pending == r.1 && hops == r.2 && threw == r.3
    {
      ghost var before := Tables();
      var first;
      node, first := Sponsor(keys, a, init, randomValue);
      ghost var start := World(before[a := node.State()][init := nodes[init].State()], counters, clock);
      forall b | b in nodes
        ensures nodes[b].State() == start.tables[b]
      {
        if b != a && b != init {
          assert b in old(nodes);
        }
      }
      assert start.tables.Keys == nodes.Keys;
      pending, hops, threw := Deliver([first], fuel, randomValues, start);
    }
  }
}

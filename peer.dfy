/**
 * The Node class (src/Node.js, and its earlier revision at src/index.js:85-526): a node's
 * three lists are fields that each handler updates step by step, as the source does.
 * Every method is proved to leave exactly the table the corresponding function of
 * tables.dfy describes; the sends a handler makes are returned, in order, as its outbox.
 */
module Peer {
  import opened Wrappers
  import opened Identity
  import opened Utilities
  import opened Edges
  import opened Tables

  /**
   * generateSecret(key) (src/Node.js:57-63): the hash of a random string.  The string
   * (Math.random, Date.now, the IDs) is the argument.
   */
  method GenerateSecret(randomValue: seq<CodeUnit>) returns (secret: Secret)
    ensures secret == HashHex(randomValue)
    ensures |secret| == 40
  {
    secret := GenerateSHA1HashSync(randomValue);
    DigestWellFormed(randomValue);
  }

  /** `array.map(conn => conn.ID === id ? r : conn)`, setting the `updated` flag on a match. */
  method ReplaceMatches(s: seq<Edge>, id: real, r: Edge) returns (res: seq<Edge>, hit: bool)
    ensures res == Replace(s, id, r)
    ensures hit == Matches(s, id)
  {
    res := [];
    hit := false;
    for i := 0 to |s|
      invariant res == Replace(s[..i], id, r)
      invariant hit == Matches(s[..i], id)
    {
      assert s[..i + 1] == s[..i] + [s[i]];
      assert s[..i + 1][..i] == s[..i];
      MatchesConcat(s[..i], [s[i]], id);
      assert Matches([s[i]], id) <==> s[i].ID() == id;
      if s[i].ID() == id {
        hit := true;
        res := res + [r];
      } else {
        res := res + [s[i]];
      }
    }
    assert s[..|s|] == s;
  }

  /**
   * One `for (const edge of list) checkEdge(edge)` loop of findEdge, continuing a scan that
   * has already covered `before`.  `bestDistance` is meaningful once `best` is set; before
   * that it stands for the initial Infinity.
   */
  method CheckEdges(list: seq<Edge>, nodeId: real, direction: Direction, best0: Option<Edge>,
                    bestDistance0: real, ghost before: seq<Edge>)
    returns (best: Option<Edge>, bestDistance: real)
    requires best0 == Closest(before, nodeId, direction)
    requires best0.Some? ==> bestDistance0 == Dist(nodeId, best0.value)
    ensures best == Closest(before + list, nodeId, direction)
    ensures best.Some? ==> bestDistance == Dist(nodeId, best.value)
  {
    best, bestDistance := best0, bestDistance0;
    assert before + list[..0] == before;
    for i := 0 to |list|
      invariant best == Closest(before + list[..i], nodeId, direction)
      invariant best.Some? ==> bestDistance == Dist(nodeId, best.value)
    {
      var edge := list[i];
      ghost var prefix := before + list[..i + 1];
      assert prefix[..|prefix| - 1] == before + list[..i] && prefix[|prefix| - 1] == edge;
      assert Closest(prefix, nodeId, direction) == Better(best, edge, nodeId, direction);
      if direction != All && nodeId == edge.ID() {
        continue;
      }
      var distance := GetDistance(nodeId, edge.ID());
      distance := if distance < 0.0 then -distance else distance;
      if best.None? || distance < bestDistance {
        bestDistance := distance;
        best := Some(edge);
      }
    }
    assert list[..|list|] == list;
  }

  /** A node: its identity and handle never change; its three lists do. */
  class Node {
    const info: NodeInfo
    var edges: seq<Edge>
    var previous: seq<Edge>
    var next: seq<Edge>
    var lastAccessed: nat

    /** The table the three lists make up. */
    function State(): Table
      reads this
    {
      Table(edges, previous, next)
    }

    /** `get ID()` */
    function ID(): real
    {
      info.ID()
    }

    /** A node with empty lists (src/Node.js:19-25), before any connectTo. */
    constructor (info: NodeInfo, now: nat)
      ensures this.info == info
      ensures State() == Table([], [], []) && lastAccessed == now
    {
      this.info := info;
      edges := [];
      previous := [];
      next := [];
      lastAccessed := now;
    }

    /** findEdge(nodeId, direction) (src/Node.js:201-233). */
    method FindEdge(nodeId: real, direction: Direction) returns (best: Option<Edge>)
      ensures best == Tables.FindEdge(State(), nodeId, direction)
    {
      ghost var a := if direction == All || direction == NotEqual then edges else [];
      ghost var b := if direction != Next then previous else [];
      ghost var c := if direction != Previous then next else [];
      assert Scope(State(), direction) == a + b + c;
      best := None;
      var bestDistance := 0.0;
      if direction == All || direction == NotEqual {
        best, bestDistance := CheckEdges(edges, nodeId, direction, best, bestDistance, []);
        assert [] + edges == a;
      }
      assert best == Closest(a, nodeId, direction);
      if direction != Next {
        best, bestDistance := CheckEdges(previous, nodeId, direction, best, bestDistance, a);
      } else {
        assert a + b == a;
      }
      assert best == Closest(a + b, nodeId, direction);
      if direction != Previous {
        best, bestDistance := CheckEdges(next, nodeId, direction, best, bestDistance, a + b);
      } else {
        assert a + b + c == a + b;
      }
    }

    /** updateEdge(newEdge) (src/Node.js:323-354). */
    method UpdateEdge(newEdge: Edge, now: nat) returns (updated: bool)
      modifies this
      ensures State() == Updated(old(State()), newEdge, now).0
      ensures updated == Updated(old(State()), newEdge, now).1
    {
      var id := newEdge.ID();
      var hitPool, hitPrevious, hitNext;
      edges, hitPool := ReplaceMatches(edges, id, newEdge);
      // each previous/next match is `newEdge.clone()`, which also stamps `now` on newEdge itself
      var current := newEdge;
      previous, hitPrevious := ReplaceMatches(previous, id, newEdge.Copy(now));
      if hitPrevious {
        current := current.Touch(now);
      }
      next, hitNext := ReplaceMatches(next, id, newEdge.Copy(now));
      if hitNext {
        current := current.Touch(now);
      }
      // the pool matches are the object newEdge itself, so they show its latest timestamp
      assert current == if hitPrevious || hitNext then newEdge.Touch(now) else newEdge;
      ReplaceTwice(old(edges), id, newEdge, current);
      edges := Replace(edges, id, current);
      updated := hitPool || hitPrevious || hitNext;
    }

    /** updateEdgeAlt(newEdge) (src/Node.js:357-372). */
    method UpdateEdgeAlt(newEdge: Edge, now: nat) returns (updated: bool)
      modifies this
      ensures (State(), updated) == UpdatedAlt(old(State()), newEdge, now)
    {
      var id := newEdge.ID();
      var hit;
      edges, hit := ReplaceMatches(edges, id, newEdge.Copy(now));
      previous, hit := ReplaceMatches(previous, id, newEdge.Copy(now));
      next, hit := ReplaceMatches(next, id, newEdge.Copy(now));
      updated := Matches(edges + previous + next, id);
    }

    /** approvedEdge(newEdge) (src/Node.js:98-106). */
    method ApprovedEdge(newEdge: Edge, now: nat)
      modifies this
      ensures State() == Approved(old(State()), newEdge, now)
    {
      var updated := UpdateEdge(newEdge, now);
      if !updated {
        edges := edges + [newEdge.Copy(now)];
        edges := SortDates(edges);
        edges := SliceFrom(edges, -(MAX_EDGES as int));
      }
    }

    /** confirmEdge(newEdge) (src/Node.js:82-95), with the secret generateSecret returned. */
    method ConfirmEdge(newEdge: Edge, secret: Secret, now: nat) returns (out: seq<Send>)
      modifies this
      ensures State() == Confirmed(old(State()), info, newEdge, secret, now).0
      ensures out == Confirmed(old(State()), info, newEdge, secret, now).1
    {
      var myEdge := FromNode(info, now).(secret := Some(secret));
      var e := newEdge.(secret := Some(secret));
      assert e.ID() == newEdge.ID();
      ghost var before := State();
      var updated := UpdateEdge(e, now);
      ghost var u := Updated(before, e, now).0;
      assert State() == u && updated == Updated(before, e, now).1;
      if !updated {
        edges := edges + [e.Copy(now)];
        edges := SortDates(edges);
        edges := SliceFrom(edges, -(MAX_EDGES as int));
      } else {
        // `newEdge.clone()` below stamps `now` on the pool entries that are newEdge itself
        edges := Replace(edges, e.ID(), e.Touch(now));
      }
      out := [Send(info.address, myEdge, e.Copy(now), Message.ApprovedEdge)];
    }

    /** insertEdge(newEdge) (src/Node.js:123-178); `threw` is the TypeError of `closest.ID` on null. */
    method InsertEdge(newEdge: Edge, now: nat) returns (rval: bool, out: seq<Send>, threw: bool)
      modifies this
      ensures Outcome(State(), out, rval, threw) == Inserted(old(State()), info, newEdge, now)
    {
      rval, out, threw := false, [], false;
      var me := ID();
      var order := GetOrder(me, newEdge.ID());
      if order < 0 {
        if |previous| > 0 {
          var closest := FindEdge(me, Previous);
          if closest.None? {
            threw := true;
            return;
          }
          if closest.value.ID() < newEdge.ID() {
            previous := [newEdge.Copy(now)] + previous;
            out := [Send(info.address, FromNode(info, now), newEdge.Copy(now), Message.SetNextEdge),
                    Send(info.address, closest.value.Copy(now), newEdge.Copy(now), Message.SetPreviousEdge),
                    Send(info.address, newEdge.Copy(now), closest.value, Message.SetNextEdge)];
            rval := true;
          } else {
            var other := FindEdge(newEdge.ID(), NotEqual);
            if other.Some? {
              out := [Send(info.address, FromNode(info, now), other.value, Message.InsertEdge(newEdge.Copy(now)))];
            }
          }
        } else {
          previous := [newEdge.Copy(now)] + previous;
          out := [Send(info.address, FromNode(info, now), newEdge.Copy(now), Message.SetNextEdge)];
          rval := true;
        }
      } else if order > 0 {
        if |next| > 0 {
          var closest := FindEdge(me, Next);
          if closest.None? {
            threw := true;
            return;
          }
          if closest.value.ID() > newEdge.ID() {
            next := [newEdge.Copy(now)] + next;
            out := [Send(info.address, FromNode(info, now), newEdge.Copy(now), Message.SetPreviousEdge),
                    Send(info.address, closest.value.Copy(now), newEdge.Copy(now), Message.SetNextEdge),
                    Send(info.address, newEdge.Copy(now), closest.value, Message.SetPreviousEdge)];
            rval := true;
          } else {
            var other := FindEdge(newEdge.ID(), NotEqual);
            if other.Some? {
              out := [Send(info.address, FromNode(info, now), other.value, Message.InsertEdge(newEdge.Copy(now)))];
            }
          }
        } else {
          next := [newEdge.Copy(now)] + next;
          out := [Send(info.address, FromNode(info, now), newEdge, Message.SetPreviousEdge)];
          rval := true;
        }
      }
    }

    /** joinMesh(newEdge, encryptedSharedSecret) (src/Node.js:109-119); decryption is the identity. */
    method JoinMesh(newEdge: Edge, encryptedSharedSecret: Option<Secret>, now: nat) returns (out: seq<Send>, threw: bool)
      modifies this
      ensures Admits(old(State()), newEdge, encryptedSharedSecret) ==>
                Outcome(State(), out, true, threw) == Inserted(old(State()), info, newEdge.Copy(now), now).(inserted := true)
      ensures !Admits(old(State()), newEdge, encryptedSharedSecret) ==>
                State() == old(State()) && out == [] && !threw
    {
      out, threw := [], false;
      var sharedSecret := encryptedSharedSecret;
      var closest := FindEdge(newEdge.ID(), All);
      if closest.Some? && closest.value.ID() == newEdge.ID() && closest.value.sharedSecret.Some? &&
         |closest.value.sharedSecret.value| > 0 && closest.value.sharedSecret == sharedSecret {
        var rval;
        rval, out, threw := InsertEdge(newEdge.Copy(now), now);
      }
    }

    /** The effective setPreviousEdge (src/Node.js:257-262). */
    method SetPreviousEdge(fromEdge: Edge, now: nat)
      modifies this
      ensures State() == SetPrevious(old(State()), fromEdge, now)
    {
      var edge := fromEdge.Copy(now);
      previous := [edge] + previous;
      ApprovedEdge(edge, now);
    }

    /** The effective setNextEdge (src/Node.js:264-269). */
    method SetNextEdge(fromEdge: Edge, now: nat)
      modifies this
      ensures State() == SetNext(old(State()), fromEdge, now)
    {
      var edge := fromEdge.Copy(now);
      next := [edge] + next;
      ApprovedEdge(edge, now);
    }

    /** receiveMessage(fromEdge, messageType, message) (src/Node.js:271-304). */
    method ReceiveMessage(fromEdge: Edge, msg: Message, secret: Secret, now: nat) returns (out: seq<Send>, threw: bool)
      modifies this
      ensures var o := ReceiveStep(old(State()), info, fromEdge, msg, secret, now);
              State() == o.table && out == o.out && threw == o.threw
    {
      out, threw := [], false;
      match msg {
        case JoinMesh(payload) =>
          out, threw := JoinMesh(fromEdge, payload, now);
        case RequestEdge =>
          out := ConfirmEdge(fromEdge, secret, now);
        case ApprovedEdge =>
          ApprovedEdge(fromEdge, now);
        case InsertEdge(e) =>
          var rval;
          rval, out, threw := InsertEdge(e, now);
        case SetPreviousEdge =>
          SetPreviousEdge(fromEdge, now);
        case SetNextEdge =>
          SetNextEdge(fromEdge, now);
        case AppMessage(_) =>
          // processMessage does nothing
      }
    }

    /**
     * connectTo(newEdge) (src/Node.js:40-48): both sides get an edge to the other at the
     * front of their pool, carrying the same shared secret.  It works on `other`'s fields
     * directly, and `other` may be this node itself.
     */
    method ConnectTo(other: Node, secret: Secret, now: nat)
      modifies this, other
      ensures var yourEdge := FromNode(other.info, now).(sharedSecret := Some(secret));
              var myEdge := FromNode(info, now).(sharedSecret := Some(secret));
              (other != this ==> edges == [yourEdge] + old(edges) && other.edges == [myEdge] + old(other.edges)) &&
              (other == this ==> edges == [yourEdge, myEdge] + old(edges))
      ensures previous == old(previous) && next == old(next)
      ensures other.previous == old(other.previous) && other.next == old(other.next)
      ensures lastAccessed == old(lastAccessed) && other.lastAccessed == old(other.lastAccessed)
    {
      var yourEdge := FromNode(other.info, now);
      var myEdge := FromNode(info, now);
      yourEdge := yourEdge.(sharedSecret := Some(secret));
      myEdge := myEdge.(sharedSecret := Some(secret));
      other.edges := [myEdge] + other.edges;
      edges := [yourEdge] + edges;
    }
  }
}

/**
 * The connection table of a node and the effect of each message handler on it, as
 * functions of the table before the call (src/Node.js, and the same logic in the
 * Node class of src/index.js).  The Node class in peer.dfy implements these
 * step by step; this module states what the steps amount to and proves it.
 *
 * A node keeps three lists: `edges` (the pool, `connections` on Legacy), `previous`
 * (the ring neighbours below it) and `next` (those above it).
 */
module Tables {
  import opened Wrappers
  import opened Identity
  import opened Utilities
  import opened Edges

  /** MAX_EDGES (src/Constants.js:3), MAX_CONNECTIONS on Legacy (src/index.js:57). */
  const MAX_EDGES: nat := 100

  datatype Table = Table(edges: seq<Edge>, previous: seq<Edge>, next: seq<Edge>)
  {
    /** `[...edges, ...previous, ...next]` */
    function Entries(): seq<Edge>
    {
      edges + previous + next
    }
  }

  /** The `direction` argument of findEdge. */
  datatype Direction = All | NotEqual | Previous | Next

  /** The lists findEdge scans for a direction, in scan order (src/Node.js:217-230). */
  function Scope(t: Table, d: Direction): seq<Edge>
  {
    (if d == All || d == NotEqual then t.edges else [])
    + (if d != Next then t.previous else [])
    + (if d != Previous then t.next else [])
  }

  /** Every direction but "all" skips an entry whose ID is the target itself (src/Node.js:208). */
  predicate Eligible(id: real, d: Direction, e: Edge)
  {
    d == All || e.ID() != id
  }

  /** `|getDistance(nodeId, edge.ID)|` */
  function Dist(id: real, e: Edge): real
  {
    var x := GetDistance(id, e.ID());
    if x < 0.0 then -x else x
  }

  /** One `checkEdge` call: take `e` when it is eligible and strictly nearer than the best so far. */
  function Better(best: Option<Edge>, e: Edge, id: real, d: Direction): Option<Edge>
  {
    if Eligible(id, d, e) && (best.None? || Dist(id, e) < Dist(id, best.value)) then Some(e) else best
  }

  /** The scan of `s`, in order, starting from `bestEdge = null`. */
  function Closest(s: seq<Edge>, id: real, d: Direction): Option<Edge>
  {
    if s == [] then None else Better(Closest(s[..|s| - 1], id, d), s[|s| - 1], id, d)
  }

  /** findEdge(nodeId, direction) */
  function FindEdge(t: Table, id: real, d: Direction): Option<Edge>
  {
    Closest(Scope(t, d), id, d)
  }

  /** `s[i]` is eligible, no eligible entry is nearer, and every earlier eligible entry is farther. */
  ghost predicate ClosestAt(s: seq<Edge>, id: real, d: Direction, i: int)
  {
    0 <= i < |s| && Eligible(id, d, s[i]) &&
    (forall j :: 0 <= j < |s| && Eligible(id, d, s[j]) ==> Dist(id, s[i]) <= Dist(id, s[j])) &&
    (forall j :: 0 <= j < i && Eligible(id, d, s[j]) ==> Dist(id, s[i]) < Dist(id, s[j]))
  }

  /**
   * The scan returns null exactly when no entry is eligible, and otherwise a nearest
   * eligible entry, the earliest one among equally near entries.
   */
  lemma {:induction false} ClosestSpec(s: seq<Edge>, id: real, d: Direction)
    ensures Closest(s, id, d).None? <==> forall j :: 0 <= j < |s| ==> !Eligible(id, d, s[j])
    ensures Closest(s, id, d).Some? ==>
              exists i :: ClosestAt(s, id, d, i) && s[i] == Closest(s, id, d).value
  {
    if s != [] {
      var init := s[..|s| - 1];
      var last := s[|s| - 1];
      ClosestSpec(init, id, d);
      var b := Closest(init, id, d);
      assert forall j :: 0 <= j < |init| ==> init[j] == s[j];
      if Better(b, last, id, d) != b {
        assert ClosestAt(s, id, d, |s| - 1);
      } else if b.Some? {
        var i :| ClosestAt(init, id, d, i) && init[i] == b.value;
        assert ClosestAt(s, id, d, i);
      } else {
        assert !Eligible(id, d, last);
      }
    }
  }

  /** A strictly nearest eligible entry is the one the scan returns. */
  lemma ClosestUnique(s: seq<Edge>, id: real, d: Direction, k: int)
    requires 0 <= k < |s| && Eligible(id, d, s[k])
    requires forall j :: 0 <= j < |s| && j != k && Eligible(id, d, s[j]) ==> Dist(id, s[k]) < Dist(id, s[j])
    ensures Closest(s, id, d) == Some(s[k])
  {
    ClosestSpec(s, id, d);
    var i :| ClosestAt(s, id, d, i) && s[i] == Closest(s, id, d).value;
    assert Dist(id, s[i]) <= Dist(id, s[k]);
    assert i == k;
  }

  /** The scopes of the four directions. */
  lemma ScopeOfDirections(t: Table)
    ensures Scope(t, All) == t.Entries() && Scope(t, NotEqual) == t.Entries()
    ensures Scope(t, Previous) == t.previous && Scope(t, Next) == t.next
  {
    assert Scope(t, Previous) == [] + t.previous + [];
    assert Scope(t, Next) == [] + [] + t.next;
  }

  /**
   * findEdge(id) with the default direction: null exactly when all three lists are empty,
   * otherwise an entry of the three lists nearest to `id`, the first such in scan order.
   */
  lemma FindEdgeAll(t: Table, id: real)
    ensures FindEdge(t, id, All).None? <==> t.edges == [] && t.previous == [] && t.next == []
    ensures FindEdge(t, id, All).Some? ==>
              exists i :: ClosestAt(t.Entries(), id, All, i) && t.Entries()[i] == FindEdge(t, id, All).value
  {
    ScopeOfDirections(t);
    ClosestSpec(t.Entries(), id, All);
    if t.Entries() != [] {
      assert Eligible(id, All, t.Entries()[0]);
    }
  }

  /**
   * findEdge(id, "previous") / findEdge(id, "next") scan one list, skip entries whose ID is
   * `id`, and return null exactly when every entry of that list has ID `id`.
   */
  lemma FindEdgeOneSide(t: Table, id: real, d: Direction)
    requires d == Previous || d == Next
    ensures var s := if d == Previous then t.previous else t.next;
            (FindEdge(t, id, d).None? <==> forall j :: 0 <= j < |s| ==> s[j].ID() == id) &&
            (FindEdge(t, id, d).Some? ==>
               exists i :: ClosestAt(s, id, d, i) && s[i] == FindEdge(t, id, d).value && s[i].ID() != id)
  {
    ScopeOfDirections(t);
    var s := if d == Previous then t.previous else t.next;
    ClosestSpec(s, id, d);
  }

  // ----- updateEdge, updateEdgeAlt, hasEdge -----------------------------------------

  /** `array.map(conn => conn.ID === id ? r : conn)` */
  function Replace(s: seq<Edge>, id: real, r: Edge): (res: seq<Edge>)
    ensures |res| == |s|
    ensures forall i :: 0 <= i < |s| ==> res[i] == if s[i].ID() == id then r else s[i]
  {
    if s == [] then [] else Replace(s[..|s| - 1], id, r) + [if s[|s| - 1].ID() == id then r else s[|s| - 1]]
  }

  /** Replacing twice replaces with the second value, when the first keeps the ID. */
  lemma ReplaceTwice(s: seq<Edge>, id: real, a: Edge, b: Edge)
    requires a.ID() == id
    ensures Replace(Replace(s, id, a), id, b) == Replace(s, id, b)
  {
  }

  /** `array.some(conn => conn.ID === id)` */
  predicate Matches(s: seq<Edge>, id: real)
  {
    exists i :: 0 <= i < |s| && s[i].ID() == id
  }

  lemma MatchesConcat(a: seq<Edge>, b: seq<Edge>, id: real)
    ensures Matches(a + b, id) <==> Matches(a, id) || Matches(b, id)
  {
    if Matches(a + b, id) {
      var i :| 0 <= i < |a + b| && (a + b)[i].ID() == id;
      if i >= |a| {
        assert b[i - |a|].ID() == id;
      }
    }
    if Matches(a, id) {
      var i :| 0 <= i < |a| && a[i].ID() == id;
      assert (a + b)[i] == a[i];
    }
    if Matches(b, id) {
      var i :| 0 <= i < |b| && b[i].ID() == id;
      assert (a + b)[|a| + i] == b[i];
    }
  }

  /** The three lists with pool matches replaced by `poolEntry` and ring matches by `copy`. */
  function ReplaceAll(t: Table, id: real, poolEntry: Edge, copy: Edge): Table
  {
    Table(Replace(t.edges, id, poolEntry), Replace(t.previous, id, copy), Replace(t.next, id, copy))
  }

  /**
   * updateEdge(newEdge) at time `now` (src/Node.js:323-354): a pool match becomes `newEdge`
   * itself, a previous/next match becomes `newEdge.clone()`.  Each of those clone() calls
   * gives `newEdge` -- the very object now in the pool -- the time `now`.
   * Returns the new table and `updated`.
   */
  function Updated(t: Table, e: Edge, now: nat): (Table, bool)
  {
    var ring := Matches(t.previous, e.ID()) || Matches(t.next, e.ID());
    (ReplaceAll(t, e.ID(), if ring then e.Touch(now) else e, e.Copy(now)),
     Matches(t.edges, e.ID()) || ring)
  }

  /** hasEdge(edge): some entry of the three lists has the edge's ID (src/Node.js:405-409). */
  predicate HasEdge(t: Table, e: Edge)
  {
    Matches(t.Entries(), e.ID())
  }

  /**
   * updateEdge keeps all three lengths and every entry with another ID, replaces every entry
   * with the ID, returns true exactly when hasEdge holds, and changes nothing when it is false.
   */
  lemma UpdatedSpec(t: Table, e: Edge, now: nat)
    ensures var (u, updated) := Updated(t, e, now);
            |u.edges| == |t.edges| && |u.previous| == |t.previous| && |u.next| == |t.next| &&
            (forall i :: 0 <= i < |t.edges| && t.edges[i].ID() != e.ID() ==> u.edges[i] == t.edges[i]) &&
            (forall i :: 0 <= i < |t.previous| && t.previous[i].ID() != e.ID() ==> u.previous[i] == t.previous[i]) &&
            (forall i :: 0 <= i < |t.next| && t.next[i].ID() != e.ID() ==> u.next[i] == t.next[i]) &&
            (forall i :: 0 <= i < |t.edges| && t.edges[i].ID() == e.ID() ==>
               u.edges[i] == (if Matches(t.previous, e.ID()) || Matches(t.next, e.ID()) then e.Touch(now) else e)) &&
            (forall i :: 0 <= i < |t.previous| && t.previous[i].ID() == e.ID() ==> u.previous[i] == e.Copy(now)) &&
            (forall i :: 0 <= i < |t.next| && t.next[i].ID() == e.ID() ==> u.next[i] == e.Copy(now)) &&
            (updated <==> HasEdge(t, e)) &&
            (!updated ==> u == t)
  {
    MatchesConcat(t.edges + t.previous, t.next, e.ID());
    MatchesConcat(t.edges, t.previous, e.ID());
    var (u, updated) := Updated(t, e, now);
    if !updated {
      assert u.edges == t.edges;
      assert u.previous == t.previous;
      assert u.next == t.next;
    }
  }

  /** updateEdgeAlt (src/Node.js:357-372): every match becomes a clone; the flag is recomputed. */
  function UpdatedAlt(t: Table, e: Edge, now: nat): (Table, bool)
  {
    var u := ReplaceAll(t, e.ID(), e.Copy(now), e.Copy(now));
    (u, Matches(u.Entries(), e.ID()))
  }

  predicate SameIDs(a: seq<Edge>, b: seq<Edge>)
  {
    |a| == |b| && forall i :: 0 <= i < |a| ==> a[i].ID() == b[i].ID()
  }

  /** Replacing matches of `id` by an edge with that ID keeps the sequence of IDs. */
  lemma ReplaceKeepsIDs(s: seq<Edge>, id: real, r: Edge)
    requires r.ID() == id
    ensures SameIDs(Replace(s, id, r), s)
    ensures Matches(Replace(s, id, r), id) <==> Matches(s, id)
  {
    var res := Replace(s, id, r);
    if Matches(s, id) {
      var i :| 0 <= i < |s| && s[i].ID() == id;
      assert res[i].ID() == id;
    }
  }

  /** updateEdgeAlt returns the same flag as updateEdge and leaves the same IDs in all three lists. */
  lemma UpdatedAltAgrees(t: Table, e: Edge, now: nat)
    ensures UpdatedAlt(t, e, now).1 == Updated(t, e, now).1
    ensures SameIDs(UpdatedAlt(t, e, now).0.edges, Updated(t, e, now).0.edges)
    ensures SameIDs(UpdatedAlt(t, e, now).0.previous, Updated(t, e, now).0.previous)
    ensures SameIDs(UpdatedAlt(t, e, now).0.next, Updated(t, e, now).0.next)
  {
    var id := e.ID();
    var (a, _) := UpdatedAlt(t, e, now);
    var (u, _) := Updated(t, e, now);
    var ring := Matches(t.previous, id) || Matches(t.next, id);
    var pe := if ring then e.Touch(now) else e;
    ReplaceKeepsIDs(t.edges, id, e.Copy(now));
    ReplaceKeepsIDs(t.previous, id, e.Copy(now));
    ReplaceKeepsIDs(t.next, id, e.Copy(now));
    ReplaceKeepsIDs(t.edges, id, pe);
    MatchesConcat(a.edges + a.previous, a.next, id);
    MatchesConcat(a.edges, a.previous, id);
  }

  /** hasEdge is exactly the flag updateEdge would return. */
  lemma HasEdgeIsUpdateFlag(t: Table, e: Edge, now: nat)
    ensures HasEdge(t, e) == Updated(t, e, now).1
  {
    UpdatedSpec(t, e, now);
  }

  // ----- bounded insertion into the pool ------------------------------------------

  function LastAccessed(e: Edge): int
  {
    e.lastAccessed
  }

  /** sortDates(edges): ascending by lastAccessed, stable (src/Node.js:73-78). */
  function SortDates(s: seq<Edge>): seq<Edge>
  {
    SortByKey(s, LastAccessed)
  }

  /** `edges.push(e); edges = sortDates(edges); edges = edges.slice(-MAX_EDGES)` */
  function PoolInsert(pool: seq<Edge>, e: Edge): seq<Edge>
  {
    SliceFrom(SortDates(pool + [e]), -(MAX_EDGES as int))
  }

  /**
   * The pool after a bounded insertion holds min(|pool|+1, MAX_EDGES) entries taken from the
   * pool and the new edge, ascending by time, and they are the newest: every entry the
   * slice drops is no newer than any entry it keeps.
   */
  lemma PoolInsertSpec(pool: seq<Edge>, e: Edge)
    ensures var r := PoolInsert(pool, e);
            var sorted := SortDates(pool + [e]);
            |r| == (if |pool| + 1 <= MAX_EDGES then |pool| + 1 else MAX_EDGES) &&
            multiset(r) <= multiset(pool) + multiset{e} &&
            SortedByKey(r, LastAccessed) &&
            r == sorted[|sorted| - |r|..] &&
            (forall i, j :: 0 <= i < |sorted| - |r| <= j < |sorted| ==>
               sorted[i].lastAccessed <= sorted[j].lastAccessed)
  {
    var sorted := SortDates(pool + [e]);
    SortByKeySorted(pool + [e], LastAccessed);
    var k := |sorted| - (if |pool| + 1 <= MAX_EDGES then |pool| + 1 else MAX_EDGES);
    assert PoolInsert(pool, e) == sorted[k..];
    SortedSuffix(sorted, k);
  }

  /** A suffix of a list sorted by date is sorted, drawn from the list, and no older than what precedes it. */
  lemma SortedSuffix(sorted: seq<Edge>, k: nat)
    requires SortedByKey(sorted, LastAccessed) && k <= |sorted|
    ensures SortedByKey(sorted[k..], LastAccessed)
    ensures multiset(sorted[k..]) <= multiset(sorted)
    ensures forall i, j :: 0 <= i < k <= j < |sorted| ==> sorted[i].lastAccessed <= sorted[j].lastAccessed
  {
    var r := sorted[k..];
    assert sorted == sorted[..k] + r;
    forall i, j | 0 <= i < j < |r|
      ensures LastAccessed(r[i]) <= LastAccessed(r[j])
    {
      assert r[i] == sorted[k + i] && r[j] == sorted[k + j];
    }
    forall i, j | 0 <= i < k <= j < |sorted|
      ensures sorted[i].lastAccessed <= sorted[j].lastAccessed
    {
      assert LastAccessed(sorted[i]) <= LastAccessed(sorted[j]);
    }
  }

  /** An edge at least as new as every pool entry is kept, as the last entry. */
  lemma PoolInsertKeepsNewest(pool: seq<Edge>, e: Edge)
    requires forall i :: 0 <= i < |pool| ==> pool[i].lastAccessed <= e.lastAccessed
    ensures |PoolInsert(pool, e)| >= 1
    ensures PoolInsert(pool, e)[|PoolInsert(pool, e)| - 1] == e
  {
    var sp := SortByKey(pool, LastAccessed);
    assert pool + [e] != [];
    assert (pool + [e])[..|pool + [e]| - 1] == pool;
    assert forall i :: 0 <= i < |sp| ==> sp[i].lastAccessed <= e.lastAccessed by {
      forall i | 0 <= i < |sp|
        ensures sp[i].lastAccessed <= e.lastAccessed
      {
        assert sp[i] in multiset(sp);
        assert sp[i] in multiset(pool);
        var k :| 0 <= k < |pool| && pool[k] == sp[i];
      }
    }
    assert SortDates(pool + [e]) == sp + [e];
    PoolInsertSpec(pool, e);
  }

  /**
   * approvedEdge(newEdge) (src/Node.js:98-106): update in place, or when no list has the ID,
   * insert `new Edge(newEdge)` into the pool with the bound.
   */
  function Approved(t: Table, e: Edge, now: nat): Table
  {
    var (u, updated) := Updated(t, e, now);
    if updated then u else u.(edges := PoolInsert(u.edges, e.Copy(now)))
  }

  /**
   * On a known ID the lengths stay, every pool entry with the ID becomes the approved edge
   * itself (stamped `now` when the ring also has it), every ring entry with the ID a fresh
   * copy, and every other entry stays; on a new ID only the pool changes, by a bounded
   * insertion of the copy.  Either way a pool within MAX_EDGES stays within it.
   */
  lemma ApprovedSpec(t: Table, e: Edge, now: nat)
    ensures var r := Approved(t, e, now);
            (HasEdge(t, e) ==> |r.edges| == |t.edges| && |r.previous| == |t.previous| && |r.next| == |t.next|) &&
            (HasEdge(t, e) ==> forall i :: 0 <= i < |t.edges| ==>
               r.edges[i] == (if t.edges[i].ID() != e.ID() then t.edges[i]
                              else if Matches(t.previous, e.ID()) || Matches(t.next, e.ID()) then e.Touch(now)
                              else e)) &&
            (HasEdge(t, e) ==> forall i :: 0 <= i < |t.previous| ==>
               r.previous[i] == (if t.previous[i].ID() != e.ID() then t.previous[i] else e.Copy(now))) &&
            (HasEdge(t, e) ==> forall i :: 0 <= i < |t.next| ==>
               r.next[i] == (if t.next[i].ID() != e.ID() then t.next[i] else e.Copy(now))) &&
            (!HasEdge(t, e) ==> r == t.(edges := PoolInsert(t.edges, e.Copy(now)))) &&
            (|t.edges| <= MAX_EDGES ==> |r.edges| <= MAX_EDGES)
  {
    UpdatedSpec(t, e, now);
    PoolInsertSpec(t.edges, e.Copy(now));
  }

  /** The copy approvedEdge inserts for a new ID is stamped `now`, so it survives the bound. */
  lemma ApprovedKeepsNewEdge(t: Table, e: Edge, now: nat)
    requires !HasEdge(t, e)
    requires forall i :: 0 <= i < |t.edges| ==> t.edges[i].lastAccessed <= now
    ensures e.Copy(now) in Approved(t, e, now).edges
  {
    UpdatedSpec(t, e, now);
    PoolInsertKeepsNewest(t.edges, e.Copy(now));
  }

  // ----- messages -----------------------------------------------------------------

  /** The message types of receiveMessage that the model covers, with their payloads. */
  datatype Message =
    | JoinMesh(payload: Option<Secret>)
    | RequestEdge
    | ApprovedEdge
    | InsertEdge(edge: Edge)
    | SetPreviousEdge
    | SetNextEdge
    | AppMessage(text: string)

  /** A call `at.sendMessage(from, to, msg)`: `at` is the node the call runs on. */
  datatype Send = Send(at: Address, from: Edge, to: Edge, msg: Message)

  /** What a handler leaves: the new table, the sends it makes in order, insertEdge's rval, and whether it threw. */
  datatype Outcome = Outcome(table: Table, out: seq<Send>, inserted: bool, threw: bool)

  /**
   * confirmEdge(newEdge) with the generated `secret` (src/Node.js:82-95): `newEdge.secret` is
   * set, updateEdge runs, a new ID is inserted as `newEdge.clone()` -- which does not carry
   * the secret -- and approvedEdge is sent back from an edge that carries it.  The final
   * `newEdge.clone()` stamps `now` on the pool entries that are `newEdge` itself.
   */
  function Confirmed(t: Table, self: NodeInfo, e: Edge, secret: Secret, now: nat): (Table, seq<Send>)
  {
    var withSecret := e.(secret := Some(secret));
    var (u, updated) := Updated(t, withSecret, now);
    var table := if updated then u.(edges := Replace(u.edges, e.ID(), withSecret.Touch(now)))
                 else u.(edges := PoolInsert(u.edges, withSecret.Copy(now)));
    (table, [Send(self.address, FromNode(self, now).(secret := Some(secret)), withSecret.Copy(now), ApprovedEdge)])
  }

  /**
   * confirmEdge on a known ID keeps every length and every entry with another ID, turns each
   * pool entry with the ID into the requester's edge carrying the secret, stamped `now`, and
   * each ring entry with the ID into a fresh copy without it; on a new ID it inserts a copy
   * without the secret.  It sends one approvedEdge message, addressed to the requester and
   * carrying the secret on its sender edge.
   */
  lemma ConfirmedSpec(t: Table, self: NodeInfo, e: Edge, secret: Secret, now: nat)
    ensures var (r, out) := Confirmed(t, self, e, secret, now);
            |out| == 1 && out[0].msg == ApprovedEdge && out[0].to.ID() == e.ID() &&
            out[0].from.ID() == self.ID() && out[0].from.secret == Some(secret) &&
            (HasEdge(t, e) ==>
               |r.edges| == |t.edges| && |r.previous| == |t.previous| && |r.next| == |t.next| &&
               (forall i :: 0 <= i < |t.edges| ==>
                  r.edges[i] == (if t.edges[i].ID() != e.ID() then t.edges[i]
                                 else e.(secret := Some(secret)).Touch(now))) &&
               (forall i :: 0 <= i < |t.previous| ==>
                  r.previous[i] == (if t.previous[i].ID() != e.ID() then t.previous[i] else e.Copy(now))) &&
               (forall i :: 0 <= i < |t.next| ==>
                  r.next[i] == (if t.next[i].ID() != e.ID() then t.next[i] else e.Copy(now)))) &&
            (!HasEdge(t, e) ==>
               r == t.(edges := PoolInsert(t.edges, e.Copy(now))) && e.Copy(now).secret == None)
  {
    var withSecret := e.(secret := Some(secret));
    assert withSecret.ID() == e.ID();
    assert withSecret.Copy(now) == e.Copy(now);
    UpdatedSpec(t, withSecret, now);
    assert HasEdge(t, withSecret) == HasEdge(t, e);
  }

  /**
   * The join gate (src/Node.js:114): the nearest entry to the newcomer's ID has exactly
   * that ID and a truthy shared secret equal to the (identity-decrypted) payload.
   */
  predicate Admits(t: Table, from: Edge, payload: Option<Secret>)
  {
    var closest := FindEdge(t, from.ID(), All);
    closest.Some? && closest.value.ID() == from.ID() &&
    closest.value.sharedSecret.Some? && |closest.value.sharedSecret.value| > 0 &&
    closest.value.sharedSecret == payload
  }

  /** `s[i]` is the first entry of `s` with ID `id`. */
  ghost predicate FirstWithID(s: seq<Edge>, id: real, i: int)
  {
    0 <= i < |s| && s[i].ID() == id && forall j :: 0 <= j < i ==> s[j].ID() != id
  }

  /**
   * joinMesh admits the newcomer exactly when the first entry (pool, then previous, then
   * next) with the newcomer's ID carries a non-empty shared secret equal to the payload.
   */
  lemma AdmitsSpec(t: Table, from: Edge, payload: Option<Secret>)
    ensures Admits(t, from, payload) <==>
              exists i :: FirstWithID(t.Entries(), from.ID(), i) &&
                          t.Entries()[i].sharedSecret == payload &&
                          payload.Some? && |payload.value| > 0
  {
    var s := t.Entries();
    var id := from.ID();
    FindEdgeAll(t, id);
    var c := FindEdge(t, id, All);
    if Admits(t, from, payload) {
      var i :| ClosestAt(s, id, All, i) && s[i] == c.value;
      assert Dist(id, s[i]) == 0.0;
      assert FirstWithID(s, id, i) by {
        forall j | 0 <= j < i
          ensures s[j].ID() != id
        {
          assert Dist(id, s[i]) < Dist(id, s[j]);
        }
      }
    }
    if exists i :: FirstWithID(s, id, i) && s[i].sharedSecret == payload && payload.Some? && |payload.value| > 0 {
      var i :| FirstWithID(s, id, i) && s[i].sharedSecret == payload && payload.Some? && |payload.value| > 0;
      assert c.Some?;
      var k :| ClosestAt(s, id, All, k) && s[k] == c.value;
      assert Dist(id, s[k]) <= Dist(id, s[i]);
      assert Dist(id, s[k]) == 0.0;
      assert s[k].ID() == id;
      assert k == i;
    }
  }

  /**
   * The handshake of a new node (src/Node.js:27-31, src/Node.js:40-48): the new node's only
   * entry is the edge to its sponsor carrying the shared secret, so findEdge(sponsor.ID)
   * returns it; and the sponsor, whose pool now starts with the edge to the new node
   * carrying the same secret, admits that secret at joinMesh.
   */
  lemma JoinHandshake(sponsor: Table, newcomer: NodeInfo, target: NodeInfo, secret: Secret, now: nat, later: nat)
    requires |secret| > 0
    ensures var yourEdge := FromNode(target, now).(sharedSecret := Some(secret));
            FindEdge(Table([yourEdge], [], []), target.ID(), All) == Some(yourEdge)
    ensures var myEdge := FromNode(newcomer, now).(sharedSecret := Some(secret));
            Admits(sponsor.(edges := [myEdge] + sponsor.edges), FromNode(newcomer, later), Some(secret))
  {
    var yourEdge := FromNode(target, now).(sharedSecret := Some(secret));
    assert Scope(Table([yourEdge], [], []), All) == [yourEdge];
    ClosestUnique([yourEdge], target.ID(), All, 0);
    var myEdge := FromNode(newcomer, now).(sharedSecret := Some(secret));
    var t := sponsor.(edges := [myEdge] + sponsor.edges);
    assert t.Entries()[0] == myEdge;
    assert FirstWithID(t.Entries(), FromNode(newcomer, later).ID(), 0);
    AdmitsSpec(t, FromNode(newcomer, later), Some(secret));
  }

  /** Enlarging the set of known nodes keeps a closed table closed. */
  lemma TableInGrows(t: Table, nodes: set<Address>, more: set<Address>, rev: Revision)
    requires TableIn(t, nodes, rev) && nodes <= more
    ensures TableIn(t, more, rev)
  {
  }

  // ----- ring insertion -----------------------------------------------------------

  /**
   * insertEdge(newEdge) on the node `self` (src/Node.js:123-178, src/index.js:240-295).
   * `the clone` below is `newEdge.clone()`; `new Edge(newEdge.clone())` is the same value.
   */
  function Inserted(t: Table, self: NodeInfo, n: Edge, now: nat): Outcome
  {
    var order := GetOrder(self.ID(), n.ID());
    if order < 0 then InsertBelow(t, self, n, now)
    else if order > 0 then InsertAbove(t, self, n, now)
    else Outcome(t, [], false, false)
  }

  /** The `order < 0` branch of insertEdge: the newcomer lies to the left. */
  function InsertBelow(t: Table, self: NodeInfo, n: Edge, now: nat): Outcome
  {
    var me := self.ID();
    var a := self.address;
    var c := n.Copy(now);
    if |t.previous| > 0 then
      var closest := FindEdge(t, me, Previous);
      if closest.None? then Outcome(t, [], false, true)  // `closest.ID` on null: a TypeError
      else if closest.value.ID() < n.ID() then
        Outcome(t.(previous := [c] + t.previous),
                [Send(a, FromNode(self, now), c, SetNextEdge),
                 Send(a, closest.value.Copy(now), c, SetPreviousEdge),
                 Send(a, c, closest.value, SetNextEdge)],
                true, false)
      else
        var other := FindEdge(t, n.ID(), NotEqual);
        Outcome(t, if other.Some? then [Send(a, FromNode(self, now), other.value, InsertEdge(c))] else [],
                false, false)
    else
      Outcome(t.(previous := [c] + t.previous), [Send(a, FromNode(self, now), c, SetNextEdge)], true, false)
  }

  /** The `order > 0` branch of insertEdge: the newcomer lies to the right. */
  function InsertAbove(t: Table, self: NodeInfo, n: Edge, now: nat): Outcome
  {
    var me := self.ID();
    var a := self.address;
    var c := n.Copy(now);
    if |t.next| > 0 then
      var closest := FindEdge(t, me, Next);
      if closest.None? then Outcome(t, [], false, true)
      else if closest.value.ID() > n.ID() then
        Outcome(t.(next := [c] + t.next),
                [Send(a, FromNode(self, now), c, SetPreviousEdge),
                 Send(a, closest.value.Copy(now), c, SetNextEdge),
                 Send(a, c, closest.value, SetPreviousEdge)],
                true, false)
      else
        var other := FindEdge(t, n.ID(), NotEqual);
        Outcome(t, if other.Some? then [Send(a, FromNode(self, now), other.value, InsertEdge(c))] else [],
                false, false)
    else
      // the source sends `newEdge` itself here, not a clone
      Outcome(t.(next := [c] + t.next), [Send(a, FromNode(self, now), n, SetPreviousEdge)], true, false)
  }

  /** insertEdge of this node's own ID changes nothing, sends nothing and returns false. */
  lemma InsertedSelf(t: Table, self: NodeInfo, n: Edge, now: nat)
    requires n.ID() == self.ID()
    ensures Inserted(t, self, n, now) == Outcome(t, [], false, false)
  {
  }

  /**
   * insertEdge of a lower ID: when previous is empty or its nearest entry (skipping this
   * node's own ID) is below the newcomer, the newcomer's clone is prepended to previous with
   * nothing else changed and true returned; when that nearest entry is not below, nothing
   * changes locally, false is returned and at most one insertEdge is forwarded.  It throws
   * only when every previous entry has this node's own ID.
   */
  lemma InsertedLeft(t: Table, self: NodeInfo, n: Edge, now: nat)
    requires n.ID() < self.ID()
    ensures var o := Inserted(t, self, n, now);
            var closest := FindEdge(t, self.ID(), Previous);
            (o.threw <==> |t.previous| > 0 && closest.None?) &&
            (o.threw ==> o.table == t && o.out == []) &&
            (!o.threw && (|t.previous| == 0 || closest.value.ID() < n.ID()) ==>
               o.inserted && o.table == t.(previous := [n.Copy(now)] + t.previous) &&
               |o.out| >= 1 && o.out[0].msg == SetNextEdge && o.out[0].to.ID() == n.ID()) &&
            (!o.threw && |t.previous| > 0 && closest.value.ID() >= n.ID() ==>
               !o.inserted && o.table == t && |o.out| <= 1 &&
               (|o.out| == 1 <==> FindEdge(t, n.ID(), NotEqual).Some?) &&
               (|o.out| == 1 ==> o.out[0].msg == InsertEdge(n.Copy(now)) &&
                                 o.out[0].to == FindEdge(t, n.ID(), NotEqual).value))
  {
  }

  /** The mirror image for a higher ID and the `next` list. */
  lemma InsertedRight(t: Table, self: NodeInfo, n: Edge, now: nat)
    requires n.ID() > self.ID()
    ensures var o := Inserted(t, self, n, now);
            var closest := FindEdge(t, self.ID(), Next);
            (o.threw <==> |t.next| > 0 && closest.None?) &&
            (o.threw ==> o.table == t && o.out == []) &&
            (!o.threw && (|t.next| == 0 || closest.value.ID() > n.ID()) ==>
               o.inserted && o.table == t.(next := [n.Copy(now)] + t.next) &&
               |o.out| >= 1 && o.out[0].msg == SetPreviousEdge && o.out[0].to.ID() == n.ID()) &&
            (!o.threw && |t.next| > 0 && closest.value.ID() <= n.ID() ==>
               !o.inserted && o.table == t && |o.out| <= 1 &&
               (|o.out| == 1 <==> FindEdge(t, n.ID(), NotEqual).Some?) &&
               (|o.out| == 1 ==> o.out[0].msg == InsertEdge(n.Copy(now)) &&
                                 o.out[0].to == FindEdge(t, n.ID(), NotEqual).value))
  {
  }

  /** The ring is ordered around `me`: previous entries lie below it and next entries above. */
  ghost predicate Ordered(t: Table, me: real)
  {
    (forall i :: 0 <= i < |t.previous| ==> t.previous[i].ID() < me) &&
    (forall i :: 0 <= i < |t.next| ==> t.next[i].ID() > me)
  }

  /** Prepending an entry strictly nearer than all others on an ordered side makes it the nearest. */
  lemma NearestAfterPrepend(side: seq<Edge>, c: Edge, me: real, d: Direction)
    requires d == Previous || d == Next
    requires c.ID() != me
    requires side != [] ==> exists i :: ClosestAt(side, me, d, i) && Dist(me, c) < Dist(me, side[i])
    ensures Closest([c] + side, me, d) == Some(c)
  {
    var s := [c] + side;
    if side != [] {
      var i :| ClosestAt(side, me, d, i) && Dist(me, c) < Dist(me, side[i]);
      forall j | 0 <= j < |s| && j != 0 && Eligible(me, d, s[j])
        ensures Dist(me, s[0]) < Dist(me, s[j])
      {
        assert s[j] == side[j - 1];
      }
    }
    ClosestUnique(s, me, d, 0);
  }

  /** Prepending an entry on its own side keeps the ring ordered. */
  lemma OrderedPrepend(t: Table, c: Edge, me: real)
    requires Ordered(t, me)
    ensures c.ID() < me ==> Ordered(t.(previous := [c] + t.previous), me)
    ensures c.ID() > me ==> Ordered(t.(next := [c] + t.next), me)
  {
    forall i | 0 <= i < |t.previous| ensures ([c] + t.previous)[i + 1] == t.previous[i] {}
    forall i | 0 <= i < |t.next| ensures ([c] + t.next)[i + 1] == t.next[i] {}
  }

  /** The left half of InsertedOnOrderedRing. */
  lemma InsertedOnOrderedLeft(t: Table, self: NodeInfo, n: Edge, now: nat)
    requires Ordered(t, self.ID()) && n.ID() < self.ID()
    ensures var o := Inserted(t, self, n, now);
            !o.threw && Ordered(o.table, self.ID()) &&
            (o.inserted ==> FindEdge(o.table, self.ID(), Previous) == Some(n.Copy(now)))
  {
    var me := self.ID();
    var c := n.Copy(now);
    assert Inserted(t, self, n, now) == InsertBelow(t, self, n, now);
    var grown := t.(previous := [c] + t.previous);
    OrderedPrepend(t, c, me);
    ScopeOfDirections(grown);
    if |t.previous| > 0 {
      assert Eligible(me, Previous, t.previous[0]);
      FindEdgeOneSide(t, me, Previous);
      var closest := FindEdge(t, me, Previous).value;
      if closest.ID() < n.ID() {
        var i :| ClosestAt(t.previous, me, Previous, i) && t.previous[i] == closest;
        assert Dist(me, c) < Dist(me, t.previous[i]);
        NearestAfterPrepend(t.previous, c, me, Previous);
      }
    } else {
      NearestAfterPrepend(t.previous, c, me, Previous);
    }
  }



  /** The right half of InsertedOnOrderedRing. */
  lemma InsertedOnOrderedRight(t: Table, self: NodeInfo, n: Edge, now: nat)
    requires Ordered(t, self.ID()) && n.ID() > self.ID()
    ensures var o := Inserted(t, self, n, now);
            !o.threw && Ordered(o.table, self.ID()) &&
            (o.inserted ==> FindEdge(o.table, self.ID(), Next) == Some(n.Copy(now)))
  {
    var me := self.ID();
    var c := n.Copy(now);
    assert Inserted(t, self, n, now) == InsertAbove(t, self, n, now);
    var grown := t.(next := [c] + t.next);
    OrderedPrepend(t, c, me);
    ScopeOfDirections(grown);
    if |t.next| > 0 {
      assert Eligible(me, Next, t.next[0]);
      FindEdgeOneSide(t, me, Next);
      var closest := FindEdge(t, me, Next).value;
      if closest.ID() > n.ID() {
        var i :| ClosestAt(t.next, me, Next, i) && t.next[i] == closest;
        assert Dist(me, c) < Dist(me, t.next[i]);
        NearestAfterPrepend(t.next, c, me, Next);
      }
    } else {
      NearestAfterPrepend(t.next, c, me, Next);
    }
  }



  /**
   * On an ordered ring insertEdge never throws, keeps the ring ordered, and an edge it
   * inserts becomes the nearest neighbour on its side.
   */
  lemma InsertedOnOrderedRing(t: Table, self: NodeInfo, n: Edge, now: nat)
    requires Ordered(t, self.ID())
    ensures var o := Inserted(t, self, n, now);
            !o.threw && Ordered(o.table, self.ID()) &&
            (o.inserted && n.ID() < self.ID() ==> FindEdge(o.table, self.ID(), Previous) == Some(n.Copy(now))) &&
            (o.inserted && n.ID() > self.ID() ==> FindEdge(o.table, self.ID(), Next) == Some(n.Copy(now)))
  {
    if n.ID() < self.ID() {
      InsertedOnOrderedLeft(t, self, n, now);
    } else if n.ID() > self.ID() {
      InsertedOnOrderedRight(t, self, n, now);
    } else {
      InsertedSelf(t, self, n, now);
    }
  }

  // ----- setPreviousEdge / setNextEdge and dispatch ------------------------------

  /** The effective setPreviousEdge (src/Node.js:257-262): prepend a clone, then approvedEdge on it. */
  function SetPrevious(t: Table, from: Edge, now: nat): Table
  {
    var e := from.Copy(now);
    Approved(t.(previous := [e] + t.previous), e, now)
  }

  /** The effective setNextEdge (src/Node.js:264-269). */
  function SetNext(t: Table, from: Edge, now: nat): Table
  {
    var e := from.Copy(now);
    Approved(t.(next := [e] + t.next), e, now)
  }

  /**
   * setPreviousEdge (src/Node.js:257-262): updateEdge always finds the copy just prepended, so
   * every entry of the three lists with the sender's ID becomes that copy and the pool never grows.
   */
  lemma SetPreviousSpec(t: Table, from: Edge, now: nat)
    ensures var e := from.Copy(now);
            SetPrevious(t, from, now) ==
              Table(Replace(t.edges, e.ID(), e), [e] + Replace(t.previous, e.ID(), e), Replace(t.next, e.ID(), e))
  {
    var e := from.Copy(now);
    assert e.Copy(now) == e;
    assert e.Touch(now) == e;
    var tp := t.(previous := [e] + t.previous);
    assert tp.previous[0] == e;
    assert Matches(tp.Entries(), e.ID()) by { assert tp.Entries()[|t.edges|] == e; }
    assert Replace(tp.previous, e.ID(), e) == [e] + Replace(t.previous, e.ID(), e);
  }

  /** setNextEdge (src/Node.js:264-269), the mirror of SetPreviousSpec. */
  lemma SetNextSpec(t: Table, from: Edge, now: nat)
    ensures var e := from.Copy(now);
            SetNext(t, from, now) ==
              Table(Replace(t.edges, e.ID(), e), Replace(t.previous, e.ID(), e), [e] + Replace(t.next, e.ID(), e))
  {
    var e := from.Copy(now);
    assert e.Copy(now) == e;
    assert e.Touch(now) == e;
    var tn := t.(next := [e] + t.next);
    assert tn.next[0] == e;
    assert Matches(tn.Entries(), e.ID()) by { assert tn.Entries()[|t.edges| + |t.previous|] == e; }
    assert Replace(tn.next, e.ID(), e) == [e] + Replace(t.next, e.ID(), e);
  }

  /**
   * setPreviousEdge / setNextEdge grow their list by exactly one entry, a fresh copy of the
   * sender at the front, and keep the other lengths, even when the ID is already present.
   * Every entry with the sender's ID becomes that copy, and every other entry stays.
   */
  lemma SetSidesSpec(t: Table, from: Edge, now: nat)
    ensures |SetPrevious(t, from, now).previous| == |t.previous| + 1
    ensures |SetPrevious(t, from, now).next| == |t.next|
    ensures |SetPrevious(t, from, now).edges| == |t.edges|
    ensures |SetNext(t, from, now).next| == |t.next| + 1
    ensures |SetNext(t, from, now).previous| == |t.previous|
    ensures |SetNext(t, from, now).edges| == |t.edges|
    ensures SetPrevious(t, from, now).previous[0] == from.Copy(now)
    ensures SetNext(t, from, now).next[0] == from.Copy(now)
    ensures var e := from.Copy(now);
            SetPrevious(t, from, now) ==
              Table(Replace(t.edges, e.ID(), e), [e] + Replace(t.previous, e.ID(), e), Replace(t.next, e.ID(), e))
    ensures var e := from.Copy(now);
            SetNext(t, from, now) ==
              Table(Replace(t.edges, e.ID(), e), Replace(t.previous, e.ID(), e), [e] + Replace(t.next, e.ID(), e))
  {
    SetPreviousSpec(t, from, now);
    SetNextSpec(t, from, now);
  }

  /**
   * receiveMessage(fromEdge, type, message) at the node `self` (src/Node.js:271-304);
   * `secret` is what generateSecret returns if the handler asks for one.
   */
  function ReceiveStep(t: Table, self: NodeInfo, from: Edge, msg: Message, secret: Secret, now: nat): Outcome
  {
    match msg
    case JoinMesh(payload) =>
      if Admits(t, from, payload) then Inserted(t, self, from.Copy(now), now) else Outcome(t, [], false, false)
    case RequestEdge =>
      var (r, out) := Confirmed(t, self, from, secret, now);
      Outcome(r, out, false, false)
    case ApprovedEdge => Outcome(Approved(t, from, now), [], false, false)
    case InsertEdge(e) => Inserted(t, self, e, now)
    case SetPreviousEdge => Outcome(SetPrevious(t, from, now), [], false, false)
    case SetNextEdge => Outcome(SetNext(t, from, now), [], false, false)
    case AppMessage(_) => Outcome(t, [], false, false)
  }

  // ----- routing ------------------------------------------------------------------

  /** The three outcomes of sendMessage on one node. */
  datatype Route = Local | Forward(via: Edge) | NoRoute

  /** sendMessage's decision (src/Node.js:240-254): deliver here, forward to the nearest entry, or drop. */
  function RouteOf(t: Table, me: real, to: Edge): Route
  {
    if to.ID() == me then Local
    else
      var closest := FindEdge(t, to.ID(), All);
      if closest.Some? then Forward(closest.value) else NoRoute
  }

  /**
   * A message is delivered locally exactly when its target ID is this node's ID; otherwise
   * it goes to an entry of the table nearest the target, and it is dropped exactly when the
   * table is empty.
   */
  lemma RouteSpec(t: Table, me: real, to: Edge)
    ensures RouteOf(t, me, to) == Local <==> to.ID() == me
    ensures RouteOf(t, me, to) == NoRoute <==> to.ID() != me && t.Entries() == []
    ensures RouteOf(t, me, to).Forward? ==>
              exists i :: ClosestAt(t.Entries(), to.ID(), All, i) && t.Entries()[i] == RouteOf(t, me, to).via
  {
    FindEdgeAll(t, to.ID());
  }

  /** The message counters of sendMessage. */
  datatype Counters = Counters(messageCount: nat, messageJumpCount: nat)

  /**
   * The bookkeeping of one sendMessage call (src/Node.js:237-239, src/index.js:354-356):
   * messageCount grows when the sender edge's jumpCount is 0, then jumpCount and
   * messageJumpCount grow by one.
   */
  function CountHop(c: Counters, from: Edge): (r: (Counters, Edge))
  {
    (Counters(if from.jumpCount == Some(0) then c.messageCount + 1 else c.messageCount,
              c.messageJumpCount + 1),
     from.Jumped())
  }

  /**
   * Each call adds exactly one jump; a message is counted once, on its first call: a
   * Connection built at time `now` counts on its first hop and no later one, and an
   * Edge never counts because it has no jumpCount.
   */
  lemma CountHopSpec(c: Counters, from: Edge, now: nat)
    ensures CountHop(c, from).0.messageJumpCount == c.messageJumpCount + 1
    ensures CountHop(c, from).0.messageCount == c.messageCount + (if from.jumpCount == Some(0) then 1 else 0)
    ensures from.jumpCount.Some? ==> CountHop(c, from).1.jumpCount == Some(from.jumpCount.value + 1)
    ensures var e := from.Copy(now);
            var (c1, e1) := CountHop(c, e);
            var (c2, _) := CountHop(c1, e1);
            c1.messageCount == c.messageCount + (if from.rev == Legacy then 1 else 0) &&
            c2.messageCount == c1.messageCount
  {
  }

  // ----- closure: every edge points at a known node of the right revision ---------

  ghost predicate EdgeIn(e: Edge, nodes: set<Address>, rev: Revision)
  {
    e.address in nodes && e.rev == rev
  }

  ghost predicate AllIn(s: seq<Edge>, nodes: set<Address>, rev: Revision)
  {
    forall i :: 0 <= i < |s| ==> EdgeIn(s[i], nodes, rev)
  }

  ghost predicate TableIn(t: Table, nodes: set<Address>, rev: Revision)
  {
    AllIn(t.edges, nodes, rev) && AllIn(t.previous, nodes, rev) && AllIn(t.next, nodes, rev)
  }

  ghost predicate MessageIn(m: Message, nodes: set<Address>, rev: Revision)
  {
    m.InsertEdge? ==> EdgeIn(m.edge, nodes, rev)
  }

  ghost predicate SendIn(s: Send, nodes: set<Address>, rev: Revision)
  {
    s.at in nodes && EdgeIn(s.from, nodes, rev) && EdgeIn(s.to, nodes, rev) && MessageIn(s.msg, nodes, rev)
  }

  ghost predicate SendsIn(out: seq<Send>, nodes: set<Address>, rev: Revision)
  {
    forall i :: 0 <= i < |out| ==> SendIn(out[i], nodes, rev)
  }

  /** Every send a handler makes starts from an edge built during the handler: jumpCount fresh. */
  ghost predicate FreshSenders(out: seq<Send>)
  {
    forall i :: 0 <= i < |out| ==>
      out[i].from.jumpCount == (if out[i].from.rev == Current then None else Some(0))
  }

  /** On Current no edge has a jump counter, so no send can bump messageCount. */
  ghost predicate CountFree(out: seq<Send>, rev: Revision)
  {
    rev == Current ==> forall i :: 0 <= i < |out| ==> out[i].from.jumpCount.None?
  }

  /** Replacing the top of a stack of sends by the sends it makes keeps both properties. */
  lemma PushIn(out: seq<Send>, pending: seq<Send>, nodes: set<Address>, rev: Revision)
    requires pending != []
    requires SendsIn(out, nodes, rev) && SendsIn(pending, nodes, rev)
    requires CountFree(out, rev) && CountFree(pending, rev)
    ensures SendsIn(out + pending[1..], nodes, rev) && CountFree(out + pending[1..], rev)
  {
    var r := out + pending[1..];
    forall i | 0 <= i < |r|
      ensures SendIn(r[i], nodes, rev) && (rev == Current ==> r[i].from.jumpCount.None?)
    {
      if i >= |out| {
        assert r[i] == pending[i - |out| + 1];
      }
    }
  }

  lemma ClosestIn(s: seq<Edge>, id: real, d: Direction, nodes: set<Address>, rev: Revision)
    requires AllIn(s, nodes, rev)
    ensures Closest(s, id, d).Some? ==> EdgeIn(Closest(s, id, d).value, nodes, rev)
  {
    ClosestSpec(s, id, d);
  }

  lemma FindEdgeIn(t: Table, id: real, d: Direction, nodes: set<Address>, rev: Revision)
    requires TableIn(t, nodes, rev)
    ensures FindEdge(t, id, d).Some? ==> EdgeIn(FindEdge(t, id, d).value, nodes, rev)
  {
    var s := Scope(t, d);
    forall i | 0 <= i < |s|
      ensures EdgeIn(s[i], nodes, rev)
    {
      var a := if d == All || d == NotEqual then t.edges else [];
      var b := if d != Next then t.previous else [];
      var c := if d != Previous then t.next else [];
      assert s == a + b + c;
      if i < |a| { assert s[i] == a[i]; }
      else if i < |a| + |b| { assert s[i] == b[i - |a|]; }
      else { assert s[i] == c[i - |a| - |b|]; }
    }
    ClosestIn(s, id, d, nodes, rev);
  }

  lemma ReplaceIn(s: seq<Edge>, id: real, r: Edge, nodes: set<Address>, rev: Revision)
    requires AllIn(s, nodes, rev) && EdgeIn(r, nodes, rev)
    ensures AllIn(Replace(s, id, r), nodes, rev)
  {
  }

  lemma PoolInsertIn(pool: seq<Edge>, e: Edge, nodes: set<Address>, rev: Revision)
    requires AllIn(pool, nodes, rev) && EdgeIn(e, nodes, rev)
    ensures AllIn(PoolInsert(pool, e), nodes, rev)
  {
    var r := PoolInsert(pool, e);
    PoolInsertSpec(pool, e);
    forall i | 0 <= i < |r|
      ensures EdgeIn(r[i], nodes, rev)
    {
      assert r[i] in multiset(r);
      assert r[i] in multiset(pool + [e]);
      var k :| 0 <= k < |pool + [e]| && (pool + [e])[k] == r[i];
    }
  }

  lemma UpdatedIn(t: Table, e: Edge, now: nat, nodes: set<Address>, rev: Revision)
    requires TableIn(t, nodes, rev) && EdgeIn(e, nodes, rev)
    ensures TableIn(Updated(t, e, now).0, nodes, rev)
  {
    var ring := Matches(t.previous, e.ID()) || Matches(t.next, e.ID());
    ReplaceIn(t.edges, e.ID(), if ring then e.Touch(now) else e, nodes, rev);
    ReplaceIn(t.previous, e.ID(), e.Copy(now), nodes, rev);
    ReplaceIn(t.next, e.ID(), e.Copy(now), nodes, rev);
  }

  lemma ApprovedIn(t: Table, e: Edge, now: nat, nodes: set<Address>, rev: Revision)
    requires TableIn(t, nodes, rev) && EdgeIn(e, nodes, rev)
    ensures TableIn(Approved(t, e, now), nodes, rev)
  {
    UpdatedIn(t, e, now, nodes, rev);
    var (u, _) := Updated(t, e, now);
    PoolInsertIn(u.edges, e.Copy(now), nodes, rev);
  }

  lemma InsertedIn(t: Table, self: NodeInfo, n: Edge, now: nat, nodes: set<Address>)
    requires TableIn(t, nodes, self.rev) && EdgeIn(n, nodes, self.rev) && self.address in nodes
    ensures var o := Inserted(t, self, n, now);
            TableIn(o.table, nodes, self.rev) && SendsIn(o.out, nodes, self.rev) && FreshSenders(o.out)
  {
    if n.ID() < self.ID() {
      InsertBelowIn(t, self, n, now, nodes);
    } else if n.ID() > self.ID() {
      InsertAboveIn(t, self, n, now, nodes);
    }
  }

  lemma InsertBelowIn(t: Table, self: NodeInfo, n: Edge, now: nat, nodes: set<Address>)
    requires TableIn(t, nodes, self.rev) && EdgeIn(n, nodes, self.rev) && self.address in nodes
    ensures var o := InsertBelow(t, self, n, now);
            TableIn(o.table, nodes, self.rev) && SendsIn(o.out, nodes, self.rev) && FreshSenders(o.out)
  {
    FindEdgeIn(t, self.ID(), Previous, nodes, self.rev);
    FindEdgeIn(t, n.ID(), NotEqual, nodes, self.rev);
    var c := n.Copy(now);
    assert EdgeIn(c, nodes, self.rev);
    assert AllIn([c] + t.previous, nodes, self.rev);
  }

  lemma InsertAboveIn(t: Table, self: NodeInfo, n: Edge, now: nat, nodes: set<Address>)
    requires TableIn(t, nodes, self.rev) && EdgeIn(n, nodes, self.rev) && self.address in nodes
    ensures var o := InsertAbove(t, self, n, now);
            TableIn(o.table, nodes, self.rev) && SendsIn(o.out, nodes, self.rev) && FreshSenders(o.out)
  {
    FindEdgeIn(t, self.ID(), Next, nodes, self.rev);
    FindEdgeIn(t, n.ID(), NotEqual, nodes, self.rev);
    var c := n.Copy(now);
    assert EdgeIn(c, nodes, self.rev);
    assert AllIn([c] + t.next, nodes, self.rev);
  }

  lemma ConfirmedIn(t: Table, self: NodeInfo, from: Edge, secret: Secret, now: nat, nodes: set<Address>)
    requires TableIn(t, nodes, self.rev) && EdgeIn(from, nodes, self.rev) && self.address in nodes
    ensures var (r, out) := Confirmed(t, self, from, secret, now);
            TableIn(r, nodes, self.rev) && SendsIn(out, nodes, self.rev) && FreshSenders(out)
  {
    var rev := self.rev;
    var withSecret := from.(secret := Some(secret));
    UpdatedIn(t, withSecret, now, nodes, rev);
    var (u, updated) := Updated(t, withSecret, now);
    ReplaceIn(u.edges, from.ID(), withSecret.Touch(now), nodes, rev);
    PoolInsertIn(u.edges, withSecret.Copy(now), nodes, rev);
  }

  lemma SetSidesIn(t: Table, from: Edge, now: nat, nodes: set<Address>, rev: Revision)
    requires TableIn(t, nodes, rev) && EdgeIn(from, nodes, rev)
    ensures TableIn(SetPrevious(t, from, now), nodes, rev) && TableIn(SetNext(t, from, now), nodes, rev)
  {
    var e := from.Copy(now);
    assert AllIn([e] + t.previous, nodes, rev);
    ApprovedIn(t.(previous := [e] + t.previous), e, now, nodes, rev);
    assert AllIn([e] + t.next, nodes, rev);
    ApprovedIn(t.(next := [e] + t.next), e, now, nodes, rev);
  }

  /**
   * Closure: a handler run on a table whose edges all point at known nodes of the mesh's
   * revision, for a message whose edges do too, leaves such a table and makes only such
   * sends, each from an edge built during the handler.
   */
  lemma ReceiveStepIn(t: Table, self: NodeInfo, from: Edge, msg: Message, secret: Secret, now: nat,
                      nodes: set<Address>)
    requires TableIn(t, nodes, self.rev) && EdgeIn(from, nodes, self.rev) && MessageIn(msg, nodes, self.rev)
    requires self.address in nodes
    ensures var o := ReceiveStep(t, self, from, msg, secret, now);
            TableIn(o.table, nodes, self.rev) && SendsIn(o.out, nodes, self.rev) && FreshSenders(o.out)
  {
    var rev := self.rev;
    match msg
    case JoinMesh(payload) =>
      InsertedIn(t, self, from.Copy(now), now, nodes);
    case RequestEdge =>
      ConfirmedIn(t, self, from, secret, now, nodes);
    case ApprovedEdge =>
      ApprovedIn(t, from, now, nodes, rev);
    case InsertEdge(e) =>
      InsertedIn(t, self, e, now, nodes);
    case SetPreviousEdge =>
      SetSidesIn(t, from, now, nodes, rev);
    case SetNextEdge =>
      SetSidesIn(t, from, now, nodes, rev);
    case AppMessage(_) =>
  }
}

# NodeMesh overlay core in Dafny

NodeMesh simulates a peer-to-peer overlay. Every node owns random keys. Its ID is a locality (the integer part) plus a public key (the fraction). Each node keeps three lists of edges:

- a pool of general edges, capped at `MAX_EDGES` = 100;
- a `previous` list of neighbours with smaller IDs;
- a `next` list of neighbours with larger IDs.

An edge is a small record that copies a node's identity and holds a handle to that node object.

A message between nodes is sent with `sendMessage`. The message is handled where it arrives when the target is the node itself. Otherwise it is passed greedily to the entry nearest the target, or dropped when the node knows nobody. A new node joins in three steps:

1. It connects to a sponsor, so both sides hold an edge carrying the same shared secret.
2. It sends `joinMesh` with that secret.
3. The sponsor checks the secret and runs `insertEdge`. That walks the ID ring and splices the newcomer between its neighbours with `setPreviousEdge` and `setNextEdge`.

The project models two revisions of this core side by side, told apart by `Edges.Revision`:

- `Current`: `src/Node.js` and `src/Edge.js`. The ID is the locality plus the public key, and edges carry `hopCount`.
- `Legacy`: the `Node` and `Connection` classes of `src/index.js`. The ID is the bare public key, and connections carry `jumpCount`, which drives the `messageCount` and `messageJumpCount` counters.

Modules:

- `Identity` (`src/keys.js`): the ID order and distance, chord positions, key material.
- `Utilities` (`src/Utilities.js`): the 32-bit string hash and its 40-digit hex form, `capArraySize`, a stable sort by key.
- `Edges` (`src/Edge.js`, `Connection`): the edge value, its copy and `clone()`, node-to-edge construction, public info.
- `Tables`: the specification. A node's three lists form a `Table` value, and every handler is a function from the old table to the new table plus the sends it makes.
- `Peer`: `class Node`. Its mutable lists are fields, and each handler is a method proved equal to its `Tables` function.
- `Overlay`: `class Mesh`. It holds every node by handle, plus the counters and a logical clock. It runs the synchronous `sendMessage` recursion as a depth-first stack of pending calls bounded by fuel, and it models the node constructor with a sponsor.

Modelling choices:

- Node objects are referred to by `Address` handles.
- `new Date()` is a logical clock `now` passed to each handler.
- Every random draw is a parameter: key material, and the string `generateSecret` hashes.
- `encryptMessage` and `decryptMessage` are the identity, as in the source.
- IDs are exact reals.
- A `TypeError` thrown by `closest.ID` on a `null` result is the `threw` flag of an outcome. The mesh stops delivering when it is set.

The model follows the code in two places where it does what a reader might not expect:

- A repeated `setNextEdge` or `setPreviousEdge` always prepends a new entry in the code; nothing de-duplicates it (`Tables.SetSidesSpec`).
- `Node.js` defines `setPreviousEdge` and `setNextEdge` twice. The later definitions, lines 257-269, also call `approvedEdge`, and they are the ones a class keeps.

## Model

| member | source | states |
|---|---|---|
| Identity.GetOrder | src/keys.js:48-52 | the order is 1, -1 or 0 exactly when the second ID is after, before or equal to the first |
| Identity.OrderAntisymmetric | src/index.js:139-143 | an ID is level with itself; swapping the two IDs negates the order |
| Identity.DistanceAntisymmetric | src/keys.js:43-46 | the distance of an ID to itself is zero; swapping the IDs negates the distance |
| Identity.OrderIsSignOfDistance | src/keys.js:43-52 | the sign of getDistance(a, b) is getOrder(a, b) |
| Identity.DistanceToAgreesWithOrderTo | src/keys.js:55-62 | distanceTo is the other ID minus this ID and its sign is orderTo; orderTo is antisymmetric |
| Identity.Keys.ChordsGlobal | src/keys.js:68-83 | returns 2*count-1 chords (one when count < 1); chord 0 is the antipode and chords 2i-1 and 2i are ID plus and minus maxKey/2^(i+1), each wrapped once into range |
| Identity.Keys.ChordsLocal | src/keys.js:89-104 | the same chord layout on the public key within maxPK, each shifted by the locality |
| Identity.OffsetBounds | src/keys.js:74 | the chord offset maxKey/2^(i+1) lies between 0 and maxKey/2 |
| Identity.ChordAtInRange | src/keys.js:70-80 | every chord of a position in [0, max] lies in [0, max] |
| Identity.GenerateKeys | src/keys.js:21-39 | the non-BIGINT key draw keeps the random keys and the key-space sizes; with a draw in [0, 1) the locality lies in [0, maxKey) |
| Identity.GeneratedChordsInRange | src/keys.js:36-41 | with the draws in [0, 1), the ID lies in [0, maxKey) and every global and local chord lies in its space |
| Identity.ConstantKeysInRange | src/keys.js:12-19 | a key made with MAX_KEY = MAX_PK = 10 has its ID and all its chords in range |
| Utilities.ToInt32 | src/Utilities.js:18-19 | a 32-bit conversion gives a value in [-2^31, 2^31) congruent to its argument modulo 2^32 |
| Utilities.ToInt32Congruent | src/Utilities.js:18-19 | two values congruent modulo 2^32 convert to the same 32-bit integer |
| Utilities.ShiftStepIsHashStep | src/Utilities.js:18-19 | `((hash << 5) - hash) + char` followed by `hash & hash` is the 32-bit value of 31*hash + char |
| Utilities.HashOf | src/Utilities.js:15-20 | the hash of any string is a signed 32-bit integer |
| Utilities.GenerateSHA1HashSync | src/Utilities.js:13-25 | the loop computes the 32-bit hash of the whole input and returns its absolute value in hex, padded to 40 characters |
| Utilities.HexRoundTrip | src/Utilities.js:23 | reading the hex digits of `toString(16)` back gives the number; every character is a hex digit |
| Utilities.HexLength | src/Utilities.js:23 | a number below 16^k has at most k hex digits |
| Utilities.LeadingZeros | src/Utilities.js:24 | zeros padded at the start do not change the hex value |
| Utilities.DigestWellFormed | src/Utilities.js:13-25 | every digest has exactly 40 hex digits and denotes the absolute value of the 32-bit hash |
| Utilities.EmptyDigest | src/Utilities.js:15-24 | the empty string hashes to forty zeros |
| Utilities.InsertByKeySorted | src/Node.js:73-78 | inserting after all entries with a key at most its own keeps a list sorted by key |
| Utilities.SortByKey | src/Node.js:73-78 | the stable sort returns a permutation of its input |
| Utilities.SortByKeySorted | src/Node.js:73-78 | the stable sort's result is sorted by the key |
| Utilities.InsertByKeyStable | src/Node.js:73-78 | inserting an element after every entry of a key at most its own keeps, for every key, the entries of that key in their order, the new one last |
| Utilities.SortByKeyStable | src/Node.js:73-78 | the sort is stable: for every key, the elements with that key come out in their input order |
| Utilities.CapArraySize | src/Utilities.js:28-38 | returns the input when it fits, else the last maxSize elements, after sorting the array in place when a sort key is given |
| Utilities.CappedKeepsNewest | src/Utilities.js:29-37 | with 1 <= maxSize < length the result is exactly the maxSize last elements of the (sorted) input, a sub-multiset of it |
| Utilities.CappedShortUnchanged | src/Utilities.js:29 | an array that fits is returned unchanged |
| Utilities.CappedZeroKeepsAll | src/Utilities.js:37 | with maxSize 0 a non-empty array is returned whole: `slice(-0)` is `slice(0)` |
| Utilities.CappedIntended | src/Utilities.js:28-38 | the intended cap never exceeds maxSize elements and keeps a sub-multiset of the input |
| Utilities.CappedIntendedAgrees | src/Utilities.js:29-37 | for every maxSize >= 1 the intended cap and the code agree |
| Edges.Edge.Copy | src/Edge.js:3-19 | `new Edge(edge)` keeps the revision, ID and address, takes the new timestamp, resets the counters (hopCount 0 on an Edge, jumpCount 0 on a Connection) and carries no secret |
| Edges.Edge.Touch | src/Edge.js:24 | clone's first statement changes the timestamp and keeps the ID |
| Edges.Edge.Jumped | src/index.js:355 | `jumpCount++` adds one to a number and keeps `undefined` as NaN; every other field of the edge is unchanged |
| Edges.FromNode | src/Edge.js:3-19 | an edge built from a node has the node's ID, targets the node, has no sponsor, fresh counters and no secret |
| Edges.Clone | src/Edge.js:23-26 | clone() stamps the edge it is called on and returns a fresh copy with the same ID and address |
| Edges.CopyIdempotent | src/Edge.js:23-26 | a copy of a copy, or of a clone, is a copy: `new Edge(x.clone())` equals `x.clone()` |
| Edges.CopyOfNodeTargetsNode | src/index.js:634-660 | copying an edge built from a node gives the edge built from that node at the new time |
| Edges.PublicInfoHidesPrivateFields | src/Edge.js:29-36 | getPublicInfo does not depend on secrets, address, timestamp or counters, and reports the ID |
| Edges.CurrentEdgesHaveNoJumpCount | src/Node.js:237-238 | an Edge never has jumpCount 0, so the Current message counter never moves |
| Tables.ClosestSpec | src/Node.js:201-233 | the scan is null exactly when no entry is eligible, else a nearest eligible entry, the first among equally near ones |
| Tables.ClosestUnique | src/Node.js:206-215 | a strictly nearest eligible entry is the one returned |
| Tables.ScopeOfDirections | src/Node.js:217-230 | "all" and "notEqual" scan pool, previous then next; "previous" and "next" scan only that list |
| Tables.FindEdgeAll | src/index.js:318-350 | findEdge(id) is null exactly when all three lists are empty, else a nearest entry of the three |
| Tables.FindEdgeOneSide | src/Node.js:201-233 | findEdge(id, "previous"/"next") is null exactly when every entry of that list has ID id, else a nearest one with another ID |
| Tables.Replace | src/Node.js:327-351 | replacing by ID keeps the length and changes exactly the entries with that ID |
| Tables.ReplaceTwice | src/Node.js:323-354 | a second replacement of the same ID overrides the first |
| Tables.MatchesConcat | src/Node.js:405-409 | some entry of a+b has the ID exactly when one of a or b has |
| Tables.UpdatedSpec | src/Node.js:323-354 | updateEdge keeps every length and every entry with another ID; every pool match becomes the new edge itself, stamped with the new time when previous or next also has the ID (their clone() call stamps it); every previous/next match becomes a fresh copy; the flag is true exactly when some list has the ID, and otherwise nothing changes |
| Tables.UpdatedAltAgrees | src/Node.js:357-372 | updateEdgeAlt returns the same flag as updateEdge and leaves the same IDs in every position |
| Tables.ReplaceKeepsIDs | src/index.js:474-489 | replacing entries by an edge with the same ID keeps every position's ID and whether the ID occurs |
| Tables.HasEdgeIsUpdateFlag | src/Node.js:405-409 | hasEdge(e) is exactly the flag updateEdge returns |
| Tables.PoolInsertSpec | src/Node.js:100-105 | push, sortDates and slice(-MAX_EDGES) give min(n+1, 100) entries, sorted by date, taken from the end of the sorted list, every dropped entry no newer than every kept one |
| Tables.PoolInsertKeepsNewest | src/Node.js:100-105 | an edge at least as new as the whole pool ends up last in it |
| Tables.ApprovedSpec | src/Node.js:98-106 | approvedEdge on a known ID keeps every length and gives every entry of the three lists exactly its updateEdge value (the edge itself, stamped when the ring has it, in the pool; a fresh copy in previous/next; other IDs unchanged); on a new ID it changes only the pool, by the bounded insertion of a fresh copy; a pool within MAX_EDGES stays within |
| Tables.ApprovedKeepsNewEdge | src/index.js:215-223 | a new ID approved at the latest time is in the pool afterwards |
| Tables.ConfirmedSpec | src/Node.js:82-95 | confirmEdge sends one approvedEdge from this node, carrying the secret, back to the requester; on a known ID every length and every entry with another ID stay, each pool entry with the ID becomes the requester's edge with the secret stamped now, and each previous/next entry with the ID a fresh copy without the secret; a new ID goes into the pool as a fresh copy |
| Tables.AdmitsSpec | src/Node.js:109-119 | joinMesh admits exactly when the first entry with the newcomer's ID carries a non-empty shared secret equal to the payload |
| Tables.JoinHandshake | src/Node.js:27-48 | after connectTo, findEdge(sponsor.ID) on the new node returns the edge with the shared secret, and the sponsor admits that secret |
| Tables.TableInGrows | src/Node.js:12-33 | a table whose edges target known nodes still does so when more nodes are known |
| Tables.InsertedSelf | src/Node.js:174-176 | insertEdge of an edge with this node's own ID changes nothing and sends nothing |
| Tables.InsertedLeft | src/Node.js:128-150 | to the left: throws exactly when previous is non-empty and all its IDs equal this ID; inserts and sends setNextEdge when previous is empty or its nearest is smaller; else forwards insertEdge to the nearest other-ID entry, when one exists |
| Tables.InsertedRight | src/Node.js:151-173 | the mirror image for the right side with next and setPreviousEdge |
| Tables.NearestAfterPrepend | src/Node.js:134 | an entry nearer than the nearest of a list is the nearest after it is put in front |
| Tables.OrderedPrepend | src/Node.js:133-134 | putting an entry below this ID in front of previous, or above it in front of next, keeps the ring ordered |
| Tables.InsertedOnOrderedLeft | src/index.js:245-267 | on a node whose sides hold only smaller and larger IDs, a left insertion never throws, keeps the sides ordered, and makes the newcomer the nearest previous |
| Tables.InsertedOnOrderedRight | src/index.js:268-290 | the mirror image for the right side |
| Tables.InsertedOnOrderedRing | src/Node.js:123-178 | on an ordered node insertEdge never throws, keeps the order, and an inserted edge becomes the nearest neighbour on its side |
| Tables.SetPreviousSpec | src/Node.js:257-262 | setPreviousEdge prepends a fresh copy of the sender to previous, and every pool, previous and next entry with the sender's ID becomes that copy while every other entry stays (the approvedEdge call always finds the prepended copy) |
| Tables.SetNextSpec | src/Node.js:264-269 | the mirror for setNextEdge and next |
| Tables.SetSidesSpec | src/Node.js:257-269 | setPreviousEdge/setNextEdge add exactly one entry, a fresh copy of the sender, at the front of their list, keep the other lengths even when the ID is already known, turn every entry with the sender's ID into that copy and keep every other entry |
| Tables.RouteSpec | src/Node.js:240-254 | a message is handled here exactly when it is addressed to this ID, dropped exactly when it is not and the node knows nobody, else passed to a nearest entry |
| Tables.CountHopSpec | src/index.js:354-356 | every call adds one jump; a message is counted only on the call whose sender has jumpCount 0, so a freshly built Connection counts once and an Edge never |
| Tables.FindEdgeIn | src/Node.js:243-251 | the entry returned by findEdge targets a known node |
| Tables.UpdatedIn | src/Node.js:323-354 | updateEdge with an edge to a known node keeps every edge of the table targeting known nodes |
| Tables.ApprovedIn | src/Node.js:98-106 | approvedEdge keeps every edge of the table targeting known nodes |
| Tables.InsertedIn | src/Node.js:123-178 | insertEdge keeps the table closed and every send it makes targets known nodes from a freshly built sender |
| Tables.ConfirmedIn | src/Node.js:82-95 | confirmEdge keeps the table closed, and its approvedEdge send targets a known node from a freshly built sender |
| Tables.SetSidesIn | src/Node.js:257-269 | setPreviousEdge and setNextEdge keep the table closed |
| Tables.ReceiveStepIn | src/Node.js:271-304 | each handler keeps the table closed and its sends target known nodes from freshly built senders |
| Tables.PushIn | src/Node.js:241-251 | replacing the call on top of the stack by the calls it makes keeps every pending call targeting known nodes, and on Current keeps every sender without a jump counter |
| Peer.GenerateSecret | src/Node.js:57-63 | the secret is the 40-character digest of the random string |
| Peer.ReplaceMatches | src/Node.js:327-333 | the map over a list replaces exactly the entries with the ID and reports whether one matched |
| Peer.CheckEdges | src/Node.js:206-220 | feeding a list to checkEdge continues the scan: the best edge is the scan of all entries seen so far, and the best distance is its distance |
| Peer.Node.constructor | src/Node.js:12-26 | a new node has empty lists |
| Peer.Node.FindEdge | src/Node.js:201-233 | findEdge returns the scan of the direction's lists |
| Peer.Node.UpdateEdge | src/Node.js:323-354 | the three lists and the flag are those of the update specification |
| Peer.Node.UpdateEdgeAlt | src/Node.js:357-372 | the lists and the flag are those of the alternative update |
| Peer.Node.ApprovedEdge | src/Node.js:98-106 | the lists become those of approvedEdge's specification |
| Peer.Node.ConfirmEdge | src/Node.js:82-95 | the lists and the approvedEdge send are those of confirmEdge's specification |
| Peer.Node.InsertEdge | src/Node.js:123-178 | the lists, the sends, the return value and the TypeError case are those of insertEdge's specification |
| Peer.Node.JoinMesh | src/Node.js:109-119 | an admitted newcomer is inserted as a clone; otherwise nothing changes and nothing is sent |
| Peer.Node.SetPreviousEdge | src/Node.js:257-262 | previous gets a copy of the sender in front, then approvedEdge runs on it |
| Peer.Node.SetNextEdge | src/Node.js:264-269 | next gets a copy of the sender in front, then approvedEdge runs on it |
| Peer.Node.ReceiveMessage | src/Node.js:271-304 | the dispatch on the message type results in the handler's specified table, sends and TypeError flag |
| Peer.Node.ConnectTo | src/Node.js:40-48 | each side gets, in front of its pool, an edge to the other carrying one shared secret; a node connected to itself gets both; nothing else changes |
| Overlay.Mesh.Receive | src/Node.js:240-241 | the node handles the message as its specification says, keeps every edge of the mesh targeting a node of the mesh, and sends only from fresh senders |
| Overlay.StepAtIn | src/Node.js:240-254 | on a closed table, one call from a known sender, handled by a closed handler, forwarded or dropped, leaves the table closed and makes only calls to known nodes, from senders without a jump counter on Current |
| Overlay.ReceiveStepIsIn | src/Node.js:271-304 | receiveMessage is such a closed handler on every set of nodes |
| Overlay.StepWorldIn | src/Node.js:235-255 | one sendMessage call at a known node of a closed mesh keeps the mesh closed, leaves only calls between known nodes, adds one jump and at most one message (none on Current) and one tick |
| Overlay.RunIn | src/Node.js:235-255 | a whole delivery run on a closed mesh keeps it closed, keeps its handles and leaves only calls between known nodes |
| Overlay.RunFuel | src/Node.js:235-255 | a run makes at most `fuel` calls, and all of them unless a call throws or no call is left |
| Overlay.RunCounts | src/index.js:352-372 | on a closed mesh each call of a run adds exactly one to messageJumpCount and at most one to messageCount, none on Current, and one tick of the clock |
| Overlay.RunNext | src/Node.js:241-251 | a run resumed one call later goes on from the world after that call with its sends on top of the stack, or ends there when the call threw |
| Overlay.Mesh.Handle | src/Node.js:240-254 | the node's new table, the calls it makes and the TypeError flag are StepAt's: handled here when addressed to this node, else passed to the nearest entry or dropped |
| Overlay.Mesh.Step | src/Node.js:235-255 | one sendMessage call counts the hop (Legacy counters, src/index.js:354-356) and then does what StepAt says; the whole mesh -- every table, the counters and the clock -- is afterwards the world StepWorld makes of the world before |
| Overlay.Mesh.Deliver | src/index.js:352-372 | the nested calls run depth-first; every table, the counters, the clock, the calls left over, the number of calls run and the throw flag are exactly those of the reference run Run from the world before; each call adds one jump, messageCount grows by at most one per call and never on Current, and the nodes stay closed |
| Overlay.Mesh.AddNode | src/Node.js:12-26 | a node without a sponsor joins the mesh with empty lists |
| Overlay.Mesh.Connect | src/Node.js:40-48 | connectTo between two mesh nodes puts in front of each pool an edge to the other with the new secret (both on the node itself when it connects to itself); the mesh stays closed |
| Overlay.Mesh.Sponsor | src/Node.js:12-30 | the new node's table is exactly one pool edge, to its sponsor, with the new secret; the sponsor's pool gains, in front, an edge to the new node with the same secret; every other node is unchanged; findEdge(sponsor.ID) reads back the secret; the joinMesh call targets known nodes and is admitted by the sponsor's table |
| Overlay.Mesh.Join | src/Node.js:12-33 | the sponsoring handshake, then the delivery of joinMesh: every table, the counters and the clock end as the reference run Run of joinMesh says, started from the mesh with the two handshake edges added; the mesh stays closed and the counters move as in Deliver |

## Left out

- The NAT traversal layer is not modelled: introduceNodes, handleIntroduction, establishP2PConnection, connectDirect, handleUDPPacket and the `endpointInfo`/`introducedTo` messages (src/Node.js:374-508, src/index.js:491-625). It exchanges UDP packets and needs network state the overlay core does not use. The public IP, port and NAT type of every edge therefore stay unset.
- The asynchronous `generateSHA1Hash` (Web Crypto SHA-1), `processEdges` and `processEdgesAsync` (Promises): foreign, asynchronous code.
- The BIGINT branches of getDistance and generateKeys: the shipped constant `BIGINT` is false.
- IEEE double rounding of IDs and chord positions: IDs are exact reals.
- sortEdges and sortConnections: nothing calls them.
- The telemetry arrays `sendMessageData` and the logging in sendMessage (src/Node.js:245-250): they do not affect the overlay.
- The simulation driver, `nodeMesh`/`nodeMeshx` (Simulation.js, src/index.js:688-790): they are not part of the overlay core.
- Overlay.Mesh.Deliver: runs at most `fuel` calls. The synchronous recursion need not terminate, because greedy forwarding can bounce between two nodes.
- Overlay.Run treats a call to a handle the world does not hold as a throw, as calling a method on a missing object does in JavaScript. On a closed mesh this cannot happen, which Overlay.StepWorldIn and Overlay.RunIn state.
- The timestamps that clone() writes on `previous`/`next` entries and on its argument are not modelled. Nothing reads them before they are overwritten. The pool entry that aliases the updated edge is refreshed (`Edges.Edge.Touch`).
- Time is a logical clock with one value per handler call. `new Date()` inside one handler is a single instant. Every call of a mesh run advances the clock by one, so no two calls of a run share a timestamp. `new Date()` has millisecond resolution, so in the program calls often do share one, and sortDates then keeps such entries in array order. Mesh runs cannot show such ties; Tables.PoolInsertSpec covers them on its own, because it holds for any timestamps.
- `Math.random` and `Date.now`: the random strings behind generateSecret, and the key draws of generateKeys, are parameters.
- `if(index) this.publicKey = index` in the Legacy constructor (src/index.js:91): the keys are a parameter of the model.
- The node's own `lastAccessed` (src/Node.js:25) and the Legacy `privateIP`/`privatePort` fields: nothing reads them.
- Utilities.CapArraySize: returns a copy of the kept elements. The source returns the very array when it fits, an alias the model does not express.
- Utilities.SortByKey models the date comparator only as a difference of integer keys, not an arbitrary comparison function.
- A handler that throws a `TypeError` aborts the rest of the mesh delivery, with the node's table as it was at the throw. Uncaught exceptions beyond that are not modelled.
- The code has neither an idempotent insertion nor an `available` flag on edges, so the model has neither.
- The import `./constants.js` names a file whose on-disk name is `Constants.js`; the model uses the constants' values.

## Findings

| source | as written | input that shows it | evidently intended | confidence | as-written member | corrected member |
|---|---|---|---|---|---|---|
| src/Utilities.js:37 | `array.slice(-maxSize)` keeps the last maxSize elements | maxSize 0 and a non-empty array: `slice(-0)` is `slice(0)`, which returns every element | at most maxSize elements, so none for maxSize 0 | not executed | Utilities.CappedZeroKeepsAll | Utilities.CappedIntended |

/**
 * Identity arithmetic of a node (src/keys.js): the total order and the signed
 * distance over numeric IDs, the key material of a node, and the positions of its
 * chord shortcuts.  IDs are exact reals here; the source uses IEEE doubles.
 */
module Identity {

  /** Position of `id2` relative to `id1` (Keys.getDistance, non-BIGINT branch). */
  function GetDistance(id1: real, id2: real): real
  {
    id2 - id1
  }

  /** Keys.getOrder: 1 when `id2` comes after `id1`, -1 when before, 0 when equal. */
  function GetOrder(id1: real, id2: real): (r: int)
    ensures r == 1 <==> id1 < id2
    ensures r == -1 <==> id2 < id1
    ensures r == 0 <==> id1 == id2
  {
    if id1 > id2 then -1 else if id1 < id2 then 1 else 0
  }

  /** The sign of a real number, as -1, 0 or 1. */
  function Sign(x: real): int
  {
    if x > 0.0 then 1 else if x < 0.0 then -1 else 0
  }

  lemma OrderAntisymmetric(a: real, b: real)
    ensures GetOrder(a, a) == 0
    ensures GetOrder(a, b) == -GetOrder(b, a)
  {
  }

  lemma DistanceAntisymmetric(a: real, b: real)
    ensures GetDistance(a, a) == 0.0
    ensures GetDistance(a, b) == -GetDistance(b, a)
  {
  }

  /** The order and the distance agree: the sign of the distance is the order. */
  lemma OrderIsSignOfDistance(a: real, b: real)
    ensures Sign(GetDistance(a, b)) == GetOrder(a, b)
  {
  }

  /** 2^n as a natural number; the source writes `2**(i+1)`. */
  function Pow2(n: nat): (p: nat)
    ensures p >= 1
    ensures n >= 1 ==> p >= 2
  {
    if n == 0 then 1 else 2 * Pow2(n - 1)
  }

  /** `if(c > max) c = c - max`: one wrap from above. */
  function WrapAbove(c: real, max: real): real
  {
    if c > max then c - max else c
  }

  /** `if(c < 0) c = c + max`: one wrap from below. */
  function WrapBelow(c: real, max: real): real
  {
    if c < 0.0 then c + max else c
  }

  /** Number of chords `count` asks for: 2*count-1, and a single one when the loop does not run. */
  function ChordCount(count: int): nat
  {
    if count >= 1 then 2 * count - 1 else 1
  }

  /**
   * Closed form of entry `j` of the chord list around `center` in a space of size `max`:
   * entry 0 is the antipode, entries 2i-1 and 2i are the offsets +max/2^(i+1) and -max/2^(i+1).
   */
  function ChordAt(center: real, max: real, j: nat): real
  {
    if j == 0 then WrapAbove(center + max / 2.0, max)
    else
      var i := (j + 1) / 2;
      if j % 2 == 1 then WrapAbove(center + max / (Pow2(i + 1) as real), max)
      else WrapBelow(center - max / (Pow2(i + 1) as real), max)
  }

  /** The offset max/2^(i+1) for i >= 1 is positive and at most max/2. */
  lemma OffsetBounds(max: real, n: nat)
    requires max >= 0.0 && n >= 1
    ensures 0.0 <= max / (Pow2(n) as real) <= max / 2.0
  {
    var p := Pow2(n) as real;
    var d := max / p;
    assert d * p == max;
    assert d >= 0.0;
    assert d * 2.0 <= d * p;
  }

  /** A chord of a position inside [0, max] lies inside [0, max]. */
  lemma ChordAtInRange(center: real, max: real, j: nat)
    requires 0.0 <= max && 0.0 <= center <= max
    ensures 0.0 <= ChordAt(center, max, j) <= max
  {
    if j > 0 {
      OffsetBounds(max, (j + 1) / 2 + 1);
    }
  }

  /**
   * The key material of a node (class Keys).  `generateKeys` draws the three random
   * values; here they are the arguments of GenerateKeys.
   */
  datatype Keys = Keys(publicKey: real, privateKey: real, geolocation: int, maxKey: real, maxPK: real)
  {
    /** `get ID()`: the locality is the integer part, the public key the fraction. */
    function ID(): real
    {
      geolocation as real + publicKey
    }

    /** distanceTo(otherNode) */
    function DistanceTo(other: Keys): real
    {
      GetDistance(ID(), other.ID())
    }

    /** orderTo(otherNode) */
    function OrderTo(other: Keys): int
    {
      GetOrder(ID(), other.ID())
    }

    /** chordsGlobal(count): the shortcut targets in the whole ID space. */
    method ChordsGlobal(count: int) returns (chords: seq<real>)
      ensures |chords| == ChordCount(count)
      ensures forall j :: 0 <= j < |chords| ==> chords[j] == ChordAt(ID(), maxKey, j)
    {
      chords := [];
      var c := ID() + maxKey / 2.0;
      if c > maxKey {
        c := c - maxKey;
      }
      chords := chords + [c];
      var i := 1;
      while i < count
        invariant 1 <= i <= if count >= 1 then count else 1
        invariant |chords| == 2 * i - 1
        invariant forall j :: 0 <= j < |chords| ==> chords[j] == ChordAt(ID(), maxKey, j)
      {
        var delta := maxKey / (Pow2(i + 1) as real);
        c := ID() + delta;
        if c > maxKey {
          c := c - maxKey;
        }
        chords := chords + [c];
        c := ID() - delta;
        if c < 0.0 {
          c := c + maxKey;
        }
        chords := chords + [c];
        i := i + 1;
      }
    }

    /** chordsLocal(count): the shortcut targets inside the node's own locality. */
    method ChordsLocal(count: int) returns (chords: seq<real>)
      ensures |chords| == ChordCount(count)
      ensures forall j :: 0 <= j < |chords| ==>
                chords[j] == ChordAt(publicKey, maxPK, j) + geolocation as real
    {
      chords := [];
      var c := publicKey + maxPK / 2.0;
      if c > maxPK {
        c := c - maxPK;
      }
      chords := chords + [c + geolocation as real];
      var i := 1;
      while i < count
        invariant 1 <= i <= if count >= 1 then count else 1
        invariant |chords| == 2 * i - 1
        invariant forall j :: 0 <= j < |chords| ==>
                    chords[j] == ChordAt(publicKey, maxPK, j) + geolocation as real
      {
        var delta := maxPK / (Pow2(i + 1) as real);
        c := publicKey + delta;
        if c > maxPK {
          c := c - maxPK;
        }
        chords := chords + [c + geolocation as real];
        c := publicKey - delta;
        if c < 0.0 {
          c := c + maxPK;
        }
        chords := chords + [c + geolocation as real];
        i := i + 1;
      }
    }
  }

  /** distanceTo and orderTo are getDistance and getOrder on the two IDs, and agree in sign. */
  lemma DistanceToAgreesWithOrderTo(k: Keys, other: Keys)
    ensures k.DistanceTo(other) == other.ID() - k.ID()
    ensures Sign(k.DistanceTo(other)) == k.OrderTo(other)
    ensures k.OrderTo(other) == -other.OrderTo(k)
  {
  }

  /** MAX_KEY and MAX_PK of src/Constants.js: the sizes of the locality space and of the public-key space. */
  const MAX_KEY: real := 10.0
  const MAX_PK: real := 10.0

  /**
   * generateKeys (non-BIGINT branch) with the three `Math.random()` draws given:
   * the locality is `Math.floor(random * maxKey)`.
   */
  function GenerateKeys(maxKey: real, maxPK: real, randomPrivate: real, randomPublic: real, randomGeo: real): (k: Keys)
    ensures k.privateKey == randomPrivate && k.publicKey == randomPublic
    ensures k.maxKey == maxKey && k.maxPK == maxPK
    ensures 0.0 <= randomGeo < 1.0 && 0.0 < maxKey ==>
              0 <= k.geolocation && k.geolocation as real < maxKey
  {
    Keys(randomPublic, randomPrivate, (randomGeo * maxKey).Floor, maxKey, maxPK)
  }

  /**
   * With an integral key space and the random draws in [0, 1), the ID lies in [0, maxKey),
   * so every global chord lies in [0, maxKey] and every local chord minus the locality in [0, maxPK].
   */
  lemma GeneratedChordsInRange(maxKey: nat, maxPK: real, rPriv: real, rPub: real, rGeo: real, j: nat)
    requires 0 < maxKey && 1.0 <= maxPK
    requires 0.0 <= rPub < 1.0 && 0.0 <= rGeo < 1.0
    ensures var k := GenerateKeys(maxKey as real, maxPK, rPriv, rPub, rGeo);
            0.0 <= k.ID() < maxKey as real &&
            0.0 <= ChordAt(k.ID(), k.maxKey, j) <= k.maxKey &&
            0.0 <= ChordAt(k.publicKey, k.maxPK, j) <= k.maxPK
  {
    var k := GenerateKeys(maxKey as real, maxPK, rPriv, rPub, rGeo);
    assert k.geolocation < maxKey;
    ChordAtInRange(k.ID(), k.maxKey, j);
    ChordAtInRange(k.publicKey, k.maxPK, j);
  }

  /** With the shipped constants, `new Keys()` followed by generateKeys has every chord in range. */
  lemma ConstantKeysInRange(rPriv: real, rPub: real, rGeo: real, j: nat)
    requires 0.0 <= rPub < 1.0 && 0.0 <= rGeo < 1.0
    ensures var k := GenerateKeys(MAX_KEY, MAX_PK, rPriv, rPub, rGeo);
            0.0 <= k.ID() < MAX_KEY &&
            0.0 <= ChordAt(k.ID(), k.maxKey, j) <= k.maxKey &&
            0.0 <= ChordAt(k.publicKey, k.maxPK, j) <= k.maxPK
  {
    GeneratedChordsInRange(10, MAX_PK, rPriv, rPub, rGeo, j);
  }
}

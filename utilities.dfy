/**
 * The helpers of src/Utilities.js: the deterministic 32-bit string hash that the
 * source calls generateSHA1HashSync, and capArraySize, with the stable sort and the
 * one-argument `slice` they rely on.
 */
module Utilities {
  import opened Wrappers

  const TWO_32: int := 0x1_0000_0000
  const TWO_31: int := 0x8000_0000

  /** ECMAScript ToInt32: the signed 32-bit integer congruent to `x` modulo 2^32. */
  function ToInt32(x: int): (r: int)
    ensures -TWO_31 <= r < TWO_31
    ensures (x - r) % TWO_32 == 0
  {
    var m := x % TWO_32;
    if m >= TWO_31 then m - TWO_32 else m
  }

  /** ToInt32 only depends on its argument modulo 2^32. */
  lemma ToInt32Congruent(x: int, y: int)
    requires (x - y) % TWO_32 == 0
    ensures ToInt32(x) == ToInt32(y)
  {
    var q := (x - y) / TWO_32;
    assert x == y + q * TWO_32;
    assert x % TWO_32 == y % TWO_32 by {
      ModShift(y, q);
    }
  }

  lemma ModShift(y: int, q: int)
    ensures (y + q * TWO_32) % TWO_32 == y % TWO_32
  {
  }

  /** A UTF-16 code unit, which is what `charCodeAt` returns. */
  type CodeUnit = c: int | 0 <= c < 0x1_0000

  /** One round of the hash: `hash = (((hash << 5) - hash) + char) & (same)`, i.e. hash*31 + char in 32 bits. */
  function HashStep(hash: int, ch: CodeUnit): int
  {
    ToInt32(31 * hash + ch)
  }

  /** The accumulated hash of a string of code units. */
  function HashOf(s: seq<CodeUnit>): (h: int)
    ensures -TWO_31 <= h < TWO_31
  {
    if s == [] then 0 else HashStep(HashOf(s[..|s| - 1]), s[|s| - 1])
  }

  /** `hash << 5` on a 32-bit value, followed by the exact subtraction and addition and `& hash`, is HashStep. */
  lemma ShiftStepIsHashStep(hash: int, ch: CodeUnit)
    ensures ToInt32(ToInt32(hash * 32) - hash + ch) == HashStep(hash, ch)
  {
    var shifted := ToInt32(hash * 32);
    var k := (hash * 32 - shifted) / TWO_32;
    assert hash * 32 - shifted == k * TWO_32;
    assert (shifted - hash + ch) - (31 * hash + ch) == -(k * TWO_32);
    ModMultiple(-k);
    ToInt32Congruent(shifted - hash + ch, 31 * hash + ch);
  }

  lemma ModMultiple(k: int)
    ensures (k * TWO_32) % TWO_32 == 0
  {
  }

  function Abs(x: int): nat
  {
    if x < 0 then -x else x
  }

  predicate IsHexDigit(c: char)
  {
    '0' <= c <= '9' || 'a' <= c <= 'f'
  }

  function HexDigit(d: nat): (c: char)
    requires d < 16
    ensures IsHexDigit(c)
  {
    if d < 10 then (48 + d) as char else (87 + d) as char
  }

  function DigitValue(c: char): nat
  {
    if '0' <= c <= '9' then c as nat - 48
    else if 'a' <= c <= 'f' then c as nat - 87
    else 0
  }

  /** `n.toString(16)`: lower-case hexadecimal without leading zeros. */
  function ToHex(n: nat): (s: string)
    ensures |s| >= 1
    decreases n
  {
    if n < 16 then [HexDigit(n)] else ToHex(n / 16) + [HexDigit(n % 16)]
  }

  /** The value of a string of hexadecimal digits, most significant first. */
  function FromHex(s: string): nat
  {
    if s == [] then 0 else FromHex(s[..|s| - 1]) * 16 + DigitValue(s[|s| - 1])
  }

  function Repeat(c: char, n: nat): (r: string)
    ensures |r| == n
    ensures forall i :: 0 <= i < n ==> r[i] == c
  {
    if n == 0 then [] else [c] + Repeat(c, n - 1)
  }

  /** `s.padStart(len, fill)` for a one-character fill. */
  function PadStart(s: string, len: nat, fill: char): string
  {
    if |s| >= len then s else Repeat(fill, len - |s|) + s
  }

  /** What generateSHA1HashSync returns: |hash| in hexadecimal, left-padded with '0' to 40 characters. */
  function HashHex(input: seq<CodeUnit>): string
  {
    PadStart(ToHex(Abs(HashOf(input))), 40, '0')
  }

  /** generateSHA1HashSync (src/Utilities.js:13-25); the same function is at src/index.js:71-83. */
  method GenerateSHA1HashSync(input: seq<CodeUnit>) returns (digest: string)
    ensures digest == HashHex(input)
  {
    var hash := 0;
    for i := 0 to |input|
      invariant hash == HashOf(input[..i])
    {
      var ch := input[i];
      assert input[..i + 1][..i] == input[..i];
      ShiftStepIsHashStep(hash, ch);
      hash := ToInt32(hash * 32) - hash + ch;
      hash := ToInt32(hash);
    }
    assert input[..|input|] == input;
    var hexString := ToHex(Abs(hash));
    digest := PadStart(hexString, 40, '0');
  }

  /** Hexadecimal printing and reading are inverse, and use only hexadecimal digits. */
  lemma {:induction false} HexRoundTrip(n: nat)
    ensures FromHex(ToHex(n)) == n
    ensures forall i :: 0 <= i < |ToHex(n)| ==> IsHexDigit(ToHex(n)[i])
    decreases n
  {
    if n >= 16 {
      HexRoundTrip(n / 16);
      var s := ToHex(n);
      assert s[..|s| - 1] == ToHex(n / 16);
    }
  }

  function Pow16(k: nat): (p: nat)
    ensures p >= 1
  {
    if k == 0 then 1 else 16 * Pow16(k - 1)
  }

  /** A number below 16^k has at most k hexadecimal digits. */
  lemma {:induction false} HexLength(n: nat, k: nat)
    requires 1 <= k && n < Pow16(k)
    ensures |ToHex(n)| <= k
    decreases k
  {
    if n >= 16 {
      assert k >= 2;
      assert n / 16 < Pow16(k - 1);
      HexLength(n / 16, k - 1);
    }
  }

  /** Leading '0' characters do not change the value of a hexadecimal string. */
  lemma {:induction false} LeadingZeros(z: nat, s: string)
    ensures FromHex(Repeat('0', z) + s) == FromHex(s)
    decreases |s|
  {
    if s == [] {
      ZerosValue(z);
      assert Repeat('0', z) + s == Repeat('0', z);
    } else {
      var t := Repeat('0', z) + s;
      assert t[..|t| - 1] == Repeat('0', z) + s[..|s| - 1];
      LeadingZeros(z, s[..|s| - 1]);
    }
  }

  lemma {:induction false} ZerosValue(z: nat)
    ensures FromHex(Repeat('0', z)) == 0
  {
    if z > 0 {
      var r := Repeat('0', z);
      assert r[..z - 1] == Repeat('0', z - 1);
      ZerosValue(z - 1);
    }
  }

  /**
   * The output always has 40 characters, all of them lower-case hexadecimal digits, and
   * reads back as the absolute value of the 32-bit hash.
   */
  lemma DigestWellFormed(input: seq<CodeUnit>)
    ensures |HashHex(input)| == 40
    ensures forall i :: 0 <= i < 40 ==> IsHexDigit(HashHex(input)[i])
    ensures FromHex(HashHex(input)) == Abs(HashOf(input))
  {
    var n := Abs(HashOf(input));
    var hex := ToHex(n);
    assert Pow16(8) == TWO_32;
    HexLength(n, 8);
    HexRoundTrip(n);
    LeadingZeros(40 - |hex|, hex);
    var d := HashHex(input);
    assert d == Repeat('0', 40 - |hex|) + hex;
    forall i | 0 <= i < 40
      ensures IsHexDigit(d[i])
    {
      if i >= 40 - |hex| {
        assert d[i] == hex[i - (40 - |hex|)];
      }
    }
  }

  /** The empty string hashes to forty '0' characters. */
  lemma EmptyDigest()
    ensures HashHex([]) == Repeat('0', 40)
  {
    assert ToHex(0) == ['0'];
    assert Repeat('0', 39) + ['0'] == Repeat('0', 40) by {
      RepeatSnoc('0', 39);
    }
  }

  lemma {:induction false} RepeatSnoc(c: char, n: nat)
    ensures Repeat(c, n) + [c] == Repeat(c, n + 1)
  {
    if n > 0 {
      RepeatSnoc(c, n - 1);
    }
  }

  // ----- sorting and slicing --------------------------------------------------

  ghost predicate SortedByKey<T>(s: seq<T>, key: T -> int)
  {
    forall i, j :: 0 <= i < j < |s| ==> key(s[i]) <= key(s[j])
  }

  /** Every element of `s` has a key of at most `bound`. */
  ghost predicate KeysAtMost<T>(s: seq<T>, key: T -> int, bound: int)
  {
    forall i :: 0 <= i < |s| ==> key(s[i]) <= bound
  }

  /** Insert `x` after every element whose key is at most key(x): the step of a stable insertion sort. */
  function InsertByKey<T>(sorted: seq<T>, x: T, key: T -> int): (r: seq<T>)
    ensures multiset(r) == multiset(sorted) + multiset{x}
    ensures |r| == |sorted| + 1
  {
    if sorted == [] then [x]
    else
      var last := sorted[|sorted| - 1];
      if key(last) <= key(x) then sorted + [x]
      else
        assert sorted == sorted[..|sorted| - 1] + [last];
        InsertByKey(sorted[..|sorted| - 1], x, key) + [last]
  }

  /** A bound on the keys survives a rearrangement that adds one element under the bound. */
  lemma KeysAtMostMultiset<T>(s: seq<T>, t: seq<T>, x: T, key: T -> int, bound: int)
    requires KeysAtMost(s, key, bound) && key(x) <= bound
    requires multiset(t) == multiset(s) + multiset{x}
    ensures KeysAtMost(t, key, bound)
  {
    forall i | 0 <= i < |t|
      ensures key(t[i]) <= bound
    {
      assert t[i] in multiset(t);
      if t[i] != x {
        assert t[i] in multiset(s);
        var k :| 0 <= k < |s| && s[k] == t[i];
      }
    }
  }

  /** Inserting into a sorted sequence keeps it sorted. */
  lemma {:induction false} InsertByKeySorted<T>(sorted: seq<T>, x: T, key: T -> int)
    requires SortedByKey(sorted, key)
    ensures SortedByKey(InsertByKey(sorted, x, key), key)
    decreases |sorted|
  {
    if sorted != [] {
      var last := sorted[|sorted| - 1];
      if key(last) > key(x) {
        var init := sorted[..|sorted| - 1];
        InsertByKeySorted(init, x, key);
        var r0 := InsertByKey(init, x, key);
        assert KeysAtMost(init, key, key(last));
        KeysAtMostMultiset(init, r0, x, key, key(last));
        var r := r0 + [last];
        assert r == InsertByKey(sorted, x, key);
        forall i, j | 0 <= i < j < |r|
          ensures key(r[i]) <= key(r[j])
        {
          if j == |r| - 1 {
            assert r[i] == r0[i];
          } else {
            assert r[i] == r0[i] && r[j] == r0[j];
          }
        }
      } else {
        var r := sorted + [x];
        forall i, j | 0 <= i < j < |r|
          ensures key(r[i]) <= key(r[j])
        {
          if j == |r| - 1 {
            assert key(r[i]) <= key(last);
          }
        }
      }
    }
  }

  /**
   * Array.prototype.sort with the comparator `(a, b) => key(a) - key(b)`: stable (as the
   * language requires since ECMAScript 2019), ascending by key.
   */
  function SortByKey<T>(s: seq<T>, key: T -> int): (r: seq<T>)
    ensures multiset(r) == multiset(s)
    ensures |r| == |s|
  {
    if s == [] then []
    else
      assert s == s[..|s| - 1] + [s[|s| - 1]];
      InsertByKey(SortByKey(s[..|s| - 1], key), s[|s| - 1], key)
  }

  /** The result of SortByKey is ascending by key. */
  lemma {:induction false} SortByKeySorted<T>(s: seq<T>, key: T -> int)
    ensures SortedByKey(SortByKey(s, key), key)
  {
    if s != [] {
      SortByKeySorted(s[..|s| - 1], key);
      InsertByKeySorted(SortByKey(s[..|s| - 1], key), s[|s| - 1], key);
    }
  }

  /** The elements of `s` whose key is `k`, in their order in `s`. */
  ghost function WithKey<T>(s: seq<T>, key: T -> int, k: int): seq<T>
  {
    if s == [] then []
    else WithKey(s[..|s| - 1], key, k) + (if key(s[|s| - 1]) == k then [s[|s| - 1]] else [])
  }

  lemma WithKeySnoc<T>(s: seq<T>, y: T, key: T -> int, k: int)
    ensures WithKey(s + [y], key, k) == WithKey(s, key, k) + (if key(y) == k then [y] else [])
  {
    assert (s + [y])[..|s + [y]| - 1] == s;
  }

  /** Passing `x` over an element of greater key does not reorder the elements of either key. */
  lemma PassOverStable<T>(init: seq<T>, last: T, x: T, r0: seq<T>, key: T -> int, k: int)
    requires key(last) > key(x)
    requires WithKey(r0, key, k) == WithKey(init + [x], key, k)
    ensures WithKey(r0 + [last], key, k) == WithKey(init + [last] + [x], key, k)
  {
    var wx := if key(x) == k then [x] else [];
    var wl := if key(last) == k then [last] else [];
    assert wx + wl == wl + wx;
    calc {
      WithKey(r0 + [last], key, k);
      { WithKeySnoc(r0, last, key, k); }
      WithKey(r0, key, k) + wl;
      { WithKeySnoc(init, x, key, k); }
      WithKey(init, key, k) + wx + wl;
      WithKey(init, key, k) + wl + wx;
      { WithKeySnoc(init, last, key, k); }
      WithKey(init + [last], key, k) + wx;
      { WithKeySnoc(init + [last], x, key, k); }
      WithKey(init + [last] + [x], key, k);
    }
  }

  /** Insertion passes over elements of greater key only, so no element of x's key is overtaken. */
  lemma {:induction false} InsertByKeyStable<T>(sorted: seq<T>, x: T, key: T -> int, k: int)
    ensures WithKey(InsertByKey(sorted, x, key), key, k) == WithKey(sorted + [x], key, k)
    decreases |sorted|
  {
    if sorted != [] {
      var last := sorted[|sorted| - 1];
      if key(last) > key(x) {
        var init := sorted[..|sorted| - 1];
        assert init + [last] == sorted;
        InsertByKeyStable(init, x, key, k);
        PassOverStable(init, last, x, InsertByKey(init, x, key), key, k);
      }
    }
  }

  /** SortByKey is stable: for every key, the elements with that key keep their relative order. */
  lemma {:induction false} SortByKeyStable<T>(s: seq<T>, key: T -> int, k: int)
    ensures WithKey(SortByKey(s, key), key, k) == WithKey(s, key, k)
  {
    if s != [] {
      var init := s[..|s| - 1];
      var last := s[|s| - 1];
      var sorted := SortByKey(init, key);
      assert SortByKey(s, key) == InsertByKey(sorted, last, key);
      calc {
        WithKey(InsertByKey(sorted, last, key), key, k);
        { InsertByKeyStable(sorted, last, key, k); }
        WithKey(sorted + [last], key, k);
        { WithKeySnoc(sorted, last, key, k); SortByKeyStable(init, key, k); WithKeySnoc(init, last, key, k); }
        WithKey(init + [last], key, k);
        { assert init + [last] == s; }
        WithKey(s, key, k);
      }
    }
  }

  /** `array.slice(start)` with one argument: a negative start counts from the end. */
  function SliceFrom<T>(s: seq<T>, start: int): seq<T>
  {
    var from := if start < 0 then (if |s| + start < 0 then 0 else |s| + start)
                else (if start > |s| then |s| else start);
    s[from..]
  }

  /** What capArraySize returns for the array contents `s` (src/Utilities.js:28-38). */
  function Capped<T>(s: seq<T>, maxSize: int, sortKey: Option<T -> int>): seq<T>
  {
    if |s| <= maxSize then s
    else SliceFrom(if sortKey.Some? then SortByKey(s, sortKey.value) else s, -maxSize)
  }

  /**
   * capArraySize: leaves a short array alone; otherwise sorts it in place when a sort
   * key is given and returns its last `maxSize` elements.
   */
  method CapArraySize<T>(a: array<T>, maxSize: int, sortKey: Option<T -> int>) returns (r: seq<T>)
    modifies a
    ensures r == Capped(old(a[..]), maxSize, sortKey)
    ensures a[..] == if a.Length > maxSize && sortKey.Some? then SortByKey(old(a[..]), sortKey.value)
                     else old(a[..])
  {
    if a.Length <= maxSize {
      return a[..];
    }
    if sortKey.Some? {
      var sorted := SortByKey(a[..], sortKey.value);
      forall i | 0 <= i < a.Length {
        a[i] := sorted[i];
      }
    }
    r := SliceFrom(a[..], -maxSize);
  }

  /**
   * For a positive bound, capArraySize keeps exactly `maxSize` elements: the last ones of the
   * (sorted) input, in order, taken from the input.
   */
  lemma CappedKeepsNewest<T>(s: seq<T>, maxSize: int, sortKey: Option<T -> int>)
    requires 1 <= maxSize < |s|
    ensures var base := if sortKey.Some? then SortByKey(s, sortKey.value) else s;
            Capped(s, maxSize, sortKey) == base[|s| - maxSize..] &&
            |Capped(s, maxSize, sortKey)| == maxSize &&
            multiset(Capped(s, maxSize, sortKey)) <= multiset(s)
  {
    var base := if sortKey.Some? then SortByKey(s, sortKey.value) else s;
    assert base == base[..|s| - maxSize] + base[|s| - maxSize..];
    assert multiset(base) == multiset(s);
  }

  /** A short array is returned unchanged. */
  lemma CappedShortUnchanged<T>(s: seq<T>, maxSize: int, sortKey: Option<T -> int>)
    requires |s| <= maxSize
    ensures Capped(s, maxSize, sortKey) == s
  {
  }

  /** As written, a bound of 0 keeps the whole array: `slice(-0)` is `slice(0)`. */
  lemma CappedZeroKeepsAll<T>(s: seq<T>)
    requires |s| > 0
    ensures Capped(s, 0, None) == s
    ensures |Capped(s, 0, None)| != 0
  {
  }

  /** The evidently intended capArraySize: at most `maxSize` of the newest elements, for every bound. */
  function CappedIntended<T>(s: seq<T>, maxSize: int, sortKey: Option<T -> int>): (r: seq<T>)
    ensures |r| == if |s| <= maxSize then |s| else if maxSize < 0 then 0 else maxSize
    ensures multiset(r) <= multiset(s)
  {
    if |s| <= maxSize then s
    else
      var base := if sortKey.Some? then SortByKey(s, sortKey.value) else s;
      var keep := if maxSize < 0 then 0 else maxSize;
      assert base == base[..|s| - keep] + base[|s| - keep..];
      base[|s| - keep..]
  }

  /** The intended version agrees with the source for every positive bound. */
  lemma CappedIntendedAgrees<T>(s: seq<T>, maxSize: int, sortKey: Option<T -> int>)
    requires maxSize >= 1
    ensures CappedIntended(s, maxSize, sortKey) == Capped(s, maxSize, sortKey)
  {
  }
}

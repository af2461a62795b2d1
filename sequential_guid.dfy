/**
  The sequential Guid value generator: a random Guid whose last six bytes are
  overwritten with the low 48 bits of the current tick count, most
  significant byte first, so that ids generated later sort later within a
  window of 2^48 ticks.
 */
module SequentialGuid {
  import opened Shared

  /** Ids it generates are permanent: EF Core stores them as they are. */
  const GeneratesTemporaryValues: bool := false

  /** The largest DateTime tick count (the last tick of 31 December 9999). */
  const MaxTicks: nat := 3155378975999999999

  function Pow256(n: nat): (r: nat)
    ensures r > 0
  {
    if n == 0 then 1 else 256 * Pow256(n - 1)
  }

  /** Byte j of x counted from the least significant end. */
  function ByteAt(x: nat, j: nat): byte {
    ((x / Pow256(j)) % 256) as byte
  }

  /** BitConverter.GetBytes(long) on a little-endian host: least significant byte first. */
  function LittleEndian(x: nat, n: nat): (r: seq<byte>)
    ensures |r| == n
  {
    seq(n, i requires 0 <= i < n => ByteAt(x, i))
  }

  /** The n low bytes of x, most significant first (BitConverter.GetBytes on a big-endian host when n is 8). */
  function BigEndian(x: nat, n: nat): (r: seq<byte>)
    ensures |r| == n
    decreases n
  {
    if n == 0 then [] else [ByteAt(x, n - 1)] + BigEndian(x % Pow256(n - 1), n - 1)
  }

  /** BitConverter.GetBytes(ticks) on a host of the given byte order. */
  function GetBytes(ticks: nat, isLittleEndian: bool): (r: seq<byte>)
    ensures |r| == 8
  {
    if isLittleEndian then LittleEndian(ticks, 8) else BigEndian(ticks, 8)
  }

  function Reversed(s: seq<byte>): (r: seq<byte>)
    ensures |r| == |s|
  {
    seq(|s|, i requires 0 <= i < |s| => s[|s| - 1 - i])
  }

  /** Strict lexicographic order on byte strings, as a byte-wise comparison sorts them. */
  predicate LexLess(a: seq<byte>, b: seq<byte>) {
    |a| > 0 && |b| > 0 && (a[0] < b[0] || (a[0] == b[0] && LexLess(a[1..], b[1..])))
  }

  /** The Guid Next produces: the random Guid's first ten bytes, then bytes 2..7 of the big-endian tick count. */
  function Spliced(random: Guid, ticks: nat): Guid {
    random[..10] + BigEndian(ticks, 8)[2..]
  }

  // ---------------------------------------------------------------- arithmetic on bytes

  lemma {:induction false} PowAdd(a: nat, b: nat)
    ensures Pow256(a + b) == Pow256(a) * Pow256(b)
    decreases a
  {
    if a > 0 {
      PowAdd(a - 1, b);
      assert Pow256(a + b) == 256 * Pow256(a - 1 + b);
    }
  }

  /** A positive multiplier keeps the sign and at least the size of its factor. */
  lemma MulSign(d: int, k: int)
    requires d > 0
    ensures k >= 1 ==> d * k >= d
    ensures k <= -1 ==> d * k <= -d
  {
    if k >= 1 {
      assert d * k == d + d * (k - 1);
    } else if k <= -1 {
      assert d * k == -d + d * (k + 1);
    }
  }

  /** Quotient and remainder are the unique q and m with a == d * q + m and 0 <= m < d. */
  lemma DivModUnique(a: int, d: int, q: int, m: int)
    requires d > 0 && 0 <= m < d && a == d * q + m
    ensures a / d == q && a % d == m
  {
    var q0, m0 := a / d, a % d;
    assert a == d * q0 + m0 && 0 <= m0 < d;
    assert d * (q - q0) == m0 - m;
    MulSign(d, q - q0);
  }

  /** (d * k + r) / d == k + r / d and (d * k + r) % d == r % d, for a positive d. */
  lemma DivPlusMultiple(d: nat, k: nat, r: nat)
    requires d > 0
    ensures (d * k + r) / d == k + r / d
    ensures (d * k + r) % d == r % d
  {
    var q, m := r / d, r % d;
    assert d * k + r == d * (k + q) + m;
    DivModUnique(d * k + r, d, k + q, m);
  }

  /** (x mod p*c) div p == (x div p) mod c: the digits between p and p*c survive the reduction. */
  lemma ModThenDiv(x: nat, p: nat, c: nat)
    requires p > 0 && c > 0
    ensures (x % (p * c)) / p == (x / p) % c
  {
    var pc := p * c;
    var q, r := x / pc, x % pc;
    var s, u := r / p, r % p;
    assert x == pc * q + r && r == p * s + u && r < pc;
    assert s < c by {
      assert p * (s - c + 1) == p * s - pc + p;
      MulSign(p, s - c + 1);
    }
    assert x == p * (c * q + s) + u by {
      assert pc * q == p * (c * q);
    }
    DivModUnique(x, p, c * q + s, u);
    DivModUnique(x / p, c, q, s);
  }

  /** Reducing modulo a multiple of 256 first does not change the last byte. */
  lemma ModMod(z: nat, a: nat)
    requires a > 0
    ensures (z % (256 * a)) % 256 == z % 256
  {
    var q, r := z / (256 * a), z % (256 * a);
    var s, u := r / 256, r % 256;
    assert z == (256 * a) * q + r && r == 256 * s + u;
    assert (256 * a) * q == 256 * (a * q);
    DivModUnique(z, 256, a * q + s, u);
  }

  /** Dropping bytes from position m upwards does not change any byte below m. */
  lemma ByteAtMod(x: nat, m: nat, j: nat)
    requires j < m
    ensures ByteAt(x % Pow256(m), j) == ByteAt(x, j)
  {
    var p := Pow256(j);
    var above := Pow256(m - j - 1);
    var c := 256 * above;
    assert Pow256(m - j) == c;
    PowAdd(j, m - j);
    var y := x % Pow256(m);
    assert y == x % (p * c);
    ModThenDiv(x, p, c);
    assert y / p == (x / p) % c;
    ModMod(x / p, above);
    assert (y / p) % 256 == (x / p) % 256;
  }

  /** Byte i of the big-endian encoding is byte n-1-i from the least significant end. */
  lemma {:induction false} BigEndianAt(x: nat, n: nat, i: nat)
    requires i < n
    ensures BigEndian(x, n)[i] == ByteAt(x, n - 1 - i)
    decreases n
  {
    if i > 0 {
      BigEndianAt(x % Pow256(n - 1), n - 1, i - 1);
      ByteAtMod(x, n - 1, n - 1 - i);
    }
  }

  /** Array.Reverse of the little-endian bytes gives the big-endian bytes. */
  lemma ReverseLittleEndian(x: nat, n: nat)
    ensures Reversed(LittleEndian(x, n)) == BigEndian(x, n)
  {
    forall i | 0 <= i < n ensures Reversed(LittleEndian(x, n))[i] == BigEndian(x, n)[i] {
      BigEndianAt(x, n, i);
    }
  }

  /** On either host, the timestamp bytes after the conditional reversal are the big-endian tick count. */
  lemma TimestampBigEndian(ticks: nat, isLittleEndian: bool)
    ensures (if isLittleEndian then Reversed(GetBytes(ticks, isLittleEndian)) else GetBytes(ticks, isLittleEndian))
         == BigEndian(ticks, 8)
  {
    ReverseLittleEndian(ticks, 8);
  }

  /** Below 256 * p, the leading digits of x < y in base p are bytes, ordered, and equal ones leave the remainders ordered. */
  lemma LeadingDigit(x: nat, y: nat, p: nat)
    requires p > 0 && x < y < 256 * p
    ensures x / p < 256 && y / p < 256 && x / p <= y / p
    ensures x / p == y / p ==> x % p < y % p
  {
    var qx, rx := x / p, x % p;
    var qy, ry := y / p, y % p;
    assert x == p * qx + rx && y == p * qy + ry;
    assert p * (qx - 255) == p * qx - 256 * p + p;
    assert p * (qy - 255) == p * qy - 256 * p + p;
    MulSign(p, qx - 255);
    MulSign(p, qy - 255);
    assert p * (qy - qx) == p * qy - p * qx;
    MulSign(p, qy - qx);
  }

  /** Below 256^n, a smaller number has a lexicographically smaller big-endian encoding. */
  lemma {:induction false} BigEndianOrdered(x: nat, y: nat, n: nat)
    requires x < y < Pow256(n)
    ensures LexLess(BigEndian(x, n), BigEndian(y, n))
    decreases n
  {
    assert n > 0;
    var p := Pow256(n - 1);
    LeadingDigit(x, y, p);
    var a, b := BigEndian(x, n), BigEndian(y, n);
    assert a[0] == (x / p) as byte && b[0] == (y / p) as byte;
    assert a[1..] == BigEndian(x % p, n - 1) && b[1..] == BigEndian(y % p, n - 1);
    if x / p == y / p {
      BigEndianOrdered(x % p, y % p, n - 1);
    }
  }

  /** Bytes 2..7 of the eight big-endian bytes are the six big-endian bytes of the low 48 bits. */
  lemma LowSixBytes(t: nat)
    ensures BigEndian(t, 8)[2..] == BigEndian(t % Pow256(6), 6)
  {
    var p6, p7 := Pow256(6), Pow256(7);
    var r := t % p7;
    assert r % p6 == t % p6 by {
      assert p7 == 256 * p6;
      var q := t / p7;
      var s, u := r / p6, r % p6;
      assert t == p7 * q + r && r == p6 * s + u;
      assert p7 * q == p6 * (256 * q);
      DivModUnique(t, p6, 256 * q + s, u);
    }
    assert BigEndian(t, 8)[1..] == BigEndian(r, 7);
    assert BigEndian(r, 7)[1..] == BigEndian(r % p6, 6);
  }

  // ---------------------------------------------------------------- the generator

  /** Array.Reverse: reverses the array in place. */
  method Reverse(a: array<byte>)
    modifies a
    ensures a[..] == Reversed(old(a[..]))
  {
    var i, j := 0, a.Length - 1;
    while i < j
      invariant 0 <= i <= a.Length && j == a.Length - 1 - i
      invariant forall k :: 0 <= k < i || j < k < a.Length ==> a[k] == old(a[a.Length - 1 - k])
      invariant forall k :: i <= k <= j ==> a[k] == old(a[k])
    {
      a[i], a[j] := a[j], a[i];
      i, j := i + 1, j - 1;
    }
  }

  /**
    Array.Copy(source, sourceIndex, destination, destinationIndex, length):
    the range is copied as if through a temporary buffer, so it is also
    right when source and destination are the same array.
   */
  method Copy(source: array<byte>, sourceIndex: nat, destination: array<byte>, destinationIndex: nat, length: nat)
    requires sourceIndex + length <= source.Length
    requires destinationIndex + length <= destination.Length
    modifies destination
    ensures destination[..] == old(destination[..destinationIndex])
                             + old(source[sourceIndex..sourceIndex + length])
                             + old(destination[destinationIndex + length..])
  {
    var chunk := source[sourceIndex..sourceIndex + length];
    var k := 0;
    while k < length
      invariant 0 <= k <= length
      invariant destination[..destinationIndex] == old(destination[..destinationIndex])
      invariant destination[destinationIndex..destinationIndex + k] == chunk[..k]
      invariant destination[destinationIndex + k..] == old(destination[destinationIndex + k..])
    {
      destination[destinationIndex + k] := chunk[k];
      k := k + 1;
    }
    assert destination[..] == destination[..destinationIndex]
                            + destination[destinationIndex..destinationIndex + length]
                            + destination[destinationIndex + length..];
  }

  /** BitConverter.GetBytes(ticks), reversed on a little-endian host: the tick count most significant byte first. */
  method TimestampBytes(ticks: nat, isLittleEndian: bool) returns (timestamp: array<byte>)
    ensures fresh(timestamp)
    ensures timestamp[..] == BigEndian(ticks, 8)
  {
    var bytes := GetBytes(ticks, isLittleEndian);
    timestamp := new byte[8](i => if 0 <= i < 8 then bytes[i] else 0);
    assert timestamp[..] == bytes;
    if isLittleEndian {
      Reverse(timestamp);
    }
    TimestampBigEndian(ticks, isLittleEndian);
  }

  /**
    Next: a fresh random Guid (Guid.NewGuid, passed in) with its bytes 10..15
    replaced by bytes 2..7 of the big-endian tick count (DateTime.UtcNow.Ticks,
    passed in).  The result does not depend on the host's byte order.
   */
  method Next(random: Guid, ticks: nat, isLittleEndian: bool) returns (g: Guid)
    requires ticks <= MaxTicks
    ensures g == Spliced(random, ticks)
  {
    var guidBytes := new byte[16](i => if 0 <= i < 16 then random[i] else 0);
    assert guidBytes[..] == random;
    var timestamp := TimestampBytes(ticks, isLittleEndian);
    Copy(timestamp, 2, guidBytes, 10, 6);
    assert guidBytes[..] == random[..10] + timestamp[2..8] + [];
    g := guidBytes[..];
  }

  /** Bytes 10..15 of two ids compare as the low 48 bits of their tick counts do. */
  lemma SplicedBefore(r1: Guid, r2: Guid, t1: nat, t2: nat)
    requires t1 % Pow256(6) < t2 % Pow256(6)
    ensures LexLess(Spliced(r1, t1)[10..], Spliced(r2, t2)[10..])
  {
    var p := Pow256(6);
    LowSixBytes(t1);
    LowSixBytes(t2);
    assert Spliced(r1, t1)[10..] == BigEndian(t1 % p, 6);
    assert Spliced(r2, t2)[10..] == BigEndian(t2 % p, 6);
    BigEndianOrdered(t1 % p, t2 % p, 6);
  }

  /**
    Two ids generated at tick counts that agree in their top 16 bits sort in
    generation order on bytes 10..15.
   */
  lemma SplicedOrdered(r1: Guid, r2: Guid, t1: nat, t2: nat)
    requires t1 < t2 && t1 / Pow256(6) == t2 / Pow256(6)
    ensures LexLess(Spliced(r1, t1)[10..], Spliced(r2, t2)[10..])
  {
    var p := Pow256(6);
    var q := t1 / p;
    assert t1 == p * q + t1 % p && t2 == p * q + t2 % p;
    SplicedBefore(r1, r2, t1, t2);
  }

  /** A positive power of 256 is at least 256. */
  lemma PowAtLeast(n: nat)
    requires n > 0
    ensures Pow256(n) >= 256
  {
    assert Pow256(n) == 256 * Pow256(n - 1);
  }

  /** One tick before a positive multiple of d leaves the largest remainder. */
  lemma RemainderBeforeMultiple(t: nat, d: nat)
    requires d > 0 && t > 0 && t % d == 0
    ensures (t - 1) % d == d - 1
  {
    var q := t / d;
    assert t == d * q;
    MulSign(d, q);
    assert t - 1 == d * (q - 1) + (d - 1);
    DivModUnique(t - 1, d, q - 1, d - 1);
  }

  /** The order wraps: at every multiple of 2^48 ticks the id sorts before the one generated a tick earlier. */
  lemma SplicedWraps(r1: Guid, r2: Guid, t: nat)
    requires t > 0 && t % Pow256(6) == 0
    ensures LexLess(Spliced(r2, t)[10..], Spliced(r1, t - 1)[10..])
  {
    PowAtLeast(6);
    RemainderBeforeMultiple(t, Pow256(6));
    SplicedBefore(r2, r1, t, t - 1);
  }
}

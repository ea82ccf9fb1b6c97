/**
 Big-endian integers of a fixed number of bytes, unsigned and two's complement.
 */
module BigEndian {
  import opened KeyOrder

  function Limit(width: nat): (r: nat)
    ensures r >= 1
  {
    if width == 0 then 1 else 256 * Limit(width - 1)
  }

  /** The low `width` bytes of `x`, most significant first. */
  function Put(width: nat, x: nat): (s: seq<Byte>)
    ensures |s| == width
  {
    if width == 0 then [] else Put(width - 1, x / 256) + [x % 256]
  }

  function Get(s: seq<Byte>): (x: nat)
    ensures x < Limit(|s|)
  {
    if s == [] then 0 else Get(s[..|s| - 1]) * 256 + s[|s| - 1]
  }

  lemma {:induction false} GetPut(width: nat, x: nat)
    ensures Get(Put(width, x)) == x % Limit(width)
  {
    if width > 0 {
      GetPut(width - 1, x / 256);
      assert Put(width, x)[..width - 1] == Put(width - 1, x / 256);
      DigitMod(x, Limit(width - 1));
    }
  }

  /** Different bytes are different numbers. */
  lemma {:induction false} GetInjective(a: seq<Byte>, b: seq<Byte>)
    requires |a| == |b| && Get(a) == Get(b)
    ensures a == b
  {
    if a != [] {
      var n := |a| - 1;
      ModUnique(Get(a), 256, Get(a[..n]), a[n]);
      ModUnique(Get(b), 256, Get(b[..n]), b[n]);
      GetInjective(a[..n], b[..n]);
      assert a == a[..n] + [a[n]] && b == b[..n] + [b[n]];
    }
  }

  lemma {:induction false} DigitMod(x: nat, l: nat)
    requires l >= 1
    ensures (x / 256) % l * 256 + x % 256 == x % (256 * l)
  {
    var q, r := x / 256 / l, x / 256 % l;
    assert x / 256 == q * l + r;
    var d := r * 256 + x % 256;
    assert x == q * (256 * l) + d;
    assert r <= l - 1;
    assert d < 256 * l;
    ModUnique(x, 256 * l, q, d);
  }

  lemma {:induction false} ModUnique(x: nat, m: nat, q: nat, d: nat)
    requires m >= 1 && d < m && x == q * m + d
    ensures x % m == d && x / m == q
  {
    var k: int := x / m;
    assert x == k * m + x % m;
    assert (k - q) * m == d - x % m;
    MultipleFar(k - q, m);
  }

  /** Different multiples of `m` are at least `m` apart. */
  lemma {:induction false} MultipleFar(t: int, m: nat)
    ensures t >= 1 ==> t * m >= m
    ensures t <= -1 ==> t * m <= -(m as int)
  {
  }

  // ---------------------------------------------------------------- two's complement

  const TWO31: int := 0x8000_0000
  const TWO32: int := 0x1_0000_0000
  const TWO63: int := 0x8000_0000_0000_0000
  const TWO64: int := 0x1_0000_0000_0000_0000

  lemma {:induction false} Limits()
    ensures Limit(2) == 0x1_0000 && Limit(4) == TWO32 && Limit(8) == TWO64
  {
    assert Limit(1) == 256 && Limit(2) == 0x1_0000 && Limit(3) == 0x100_0000 && Limit(4) == TWO32;
    assert Limit(5) == 0x100_0000_0000 && Limit(6) == 0x1_0000_0000_0000 && Limit(7) == 0x100_0000_0000_0000;
  }

  type Word = x: int | 0 <= x < TWO32

  /** A checksum: any total function from byte strings to 32-bit words. */
  type Crc = seq<Byte> -> Word

  type Int32 = x: int | -TWO31 <= x < TWO31
  type Int64 = x: int | -TWO63 <= x < TWO63

  function Put64(x: Int64): (s: seq<Byte>)
    ensures |s| == 8
  {
    Put(8, if x < 0 then x + TWO64 else x)
  }

  function Get64(s: seq<Byte>): Int64
    requires |s| == 8
  {
    Limits();
    var u := Get(s);
    if u < TWO63 then u else u - TWO64
  }

  function Put32(x: Int32): (s: seq<Byte>)
    ensures |s| == 4
  {
    Put(4, if x < 0 then x + TWO32 else x)
  }

  function Get32(s: seq<Byte>): Int32
    requires |s| == 4
  {
    Limits();
    var u := Get(s);
    if u < TWO31 then u else u - TWO32
  }

  lemma {:induction false} GetPut64(x: Int64)
    ensures Get64(Put64(x)) == x
  {
    Limits();
    var u: nat := if x < 0 then x + TWO64 else x;
    GetPut(8, u);
    ModUnique(u, Limit(8), 0, u);
  }

  lemma {:induction false} GetPut32(x: Int32)
    ensures Get32(Put32(x)) == x
  {
    Limits();
    var u: nat := if x < 0 then x + TWO32 else x;
    GetPut(4, u);
    ModUnique(u, Limit(4), 0, u);
  }
}

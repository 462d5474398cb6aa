/** Machine words and the byte-block primitives the runtime's C code is built from. */
module Words {

  type byte = b: int | 0 <= b < 0x100
  type uint16 = w: int | 0 <= w < 0x1_0000
  type uint32 = w: int | 0 <= w < 0x1_0000_0000
  type uint64 = w: int | 0 <= w < 0x1_0000_0000_0000_0000

  const UINT32_MAX: uint32 := 0xFFFF_FFFF

  datatype Option<+T> = None | Some(value: T)

  /** Unsigned 32-bit wrap-around. */
  function Wrap32(x: int): uint32 {
    x % 0x1_0000_0000
  }

  lemma WrapSmall(x: nat)
    ensures x <= UINT32_MAX ==> Wrap32(x) == x
  {}

  function Wrap64(x: int): uint64 {
    x % 0x1_0000_0000_0000_0000
  }

  // ---- Bits ----

  function Pow2(n: nat): (p: nat)
    ensures p > 0
  {
    if n == 0 then 1 else 2 * Pow2(n - 1)
  }

  /** a & b, from the lowest bit on. */
  function And(a: nat, b: nat): nat {
    if a == 0 || b == 0 then 0 else 2 * And(a / 2, b / 2) + if a % 2 == b % 2 == 1 then 1 else 0
  }

  /** a | b, from the lowest bit on. */
  function Or(a: nat, b: nat): nat {
    if a == 0 then b else if b == 0 then a else 2 * Or(a / 2, b / 2) + if a % 2 == b % 2 == 0 then 0 else 1
  }

  /** Or-ing in bits above those of a adds them. */
  lemma {:induction false} OrAbove(a: nat, q: nat, k: nat)
    requires a < Pow2(k)
    ensures Or(a, Pow2(k) * q) == a + Pow2(k) * q
    decreases k
  {
    if k > 0 && a > 0 && q > 0 {
      var p := Pow2(k - 1);
      assert Pow2(k) * q == 2 * (p * q);
      OrAbove(a / 2, q, k - 1);
    }
  }

  lemma {:induction false} OrBelow(a: nat, b: nat, k: nat)
    requires a < Pow2(k) && b < Pow2(k)
    ensures Or(a, b) < Pow2(k)
  {
    if k > 0 && a > 0 && b > 0 { OrBelow(a / 2, b / 2, k - 1); }
  }

  /** One byte or-ed into another. */
  function OrByte(a: byte, b: byte): byte {
    assert Pow2(0) == 1 && Pow2(4) == 0x10 && Pow2(8) == 0x10 * Pow2(4) by {
      assert Pow2(8) == 2 * Pow2(7) == 4 * Pow2(6) == 8 * Pow2(5);
      assert Pow2(4) == 2 * Pow2(3) == 4 * Pow2(2) == 8 * Pow2(1);
    }
    OrBelow(a, b, 8);
    Or(a, b)
  }

  // Little-endian words: how a C integer lies in memory on the hosts modelled here.

  function LE16(v: uint16): (s: seq<byte>)
    ensures |s| == 2
  {
    [v % 0x100, v / 0x100]
  }

  function LE32(v: uint32): (s: seq<byte>)
    ensures |s| == 4
  {
    [v % 0x100, v / 0x100 % 0x100, v / 0x1_0000 % 0x100, v / 0x100_0000]
  }

  function GetLE16(s: seq<byte>, at: nat): uint16
    requires at + 2 <= |s|
  {
    s[at] as int + 0x100 * (s[at + 1] as int)
  }

  function GetLE32(s: seq<byte>, at: nat): uint32
    requires at + 4 <= |s|
  {
    s[at] as int + 0x100 * (s[at + 1] as int) + 0x1_0000 * (s[at + 2] as int) + 0x100_0000 * (s[at + 3] as int)
  }

  lemma LE16At(s: seq<byte>, at: nat, v: uint16)
    requires at + 2 <= |s| && s[at..at + 2] == LE16(v)
    ensures GetLE16(s, at) == v
  {
    var w := s[at..at + 2];
    assert w[0] == s[at] && w[1] == s[at + 1];
  }

  lemma LE32Digits(v: uint32)
    ensures v % 0x100 + 0x100 * (v / 0x100 % 0x100) + 0x1_0000 * (v / 0x1_0000 % 0x100)
         + 0x100_0000 * (v / 0x100_0000) == v
  {
    assert v / 0x1_0000 == v / 0x100 / 0x100 && v / 0x100_0000 == v / 0x1_0000 / 0x100;
  }

  lemma LE32At(s: seq<byte>, at: nat, v: uint32)
    requires at + 4 <= |s| && s[at..at + 4] == LE32(v)
    ensures GetLE32(s, at) == v
  {
    var w := s[at..at + 4];
    assert w[0] == s[at] && w[1] == s[at + 1] && w[2] == s[at + 2] && w[3] == s[at + 3];
    LE32Digits(v);
  }

  // Big-endian words: network order, as htons and htonl leave them.

  function BE16(v: uint16): (s: seq<byte>)
    ensures |s| == 2
  {
    [v / 0x100, v % 0x100]
  }

  function BE32(v: uint32): (s: seq<byte>)
    ensures |s| == 4
  {
    [v / 0x100_0000, v / 0x1_0000 % 0x100, v / 0x100 % 0x100, v % 0x100]
  }

  function FromBE16(w: seq<byte>): uint16
    requires |w| == 2
  {
    0x100 * (w[0] as int) + w[1] as int
  }

  function FromBE32(w: seq<byte>): uint32
    requires |w| == 4
  {
    0x100_0000 * (w[0] as int) + 0x1_0000 * (w[1] as int) + 0x100 * (w[2] as int) + w[3] as int
  }

  function FromLE32(w: seq<byte>): uint32
    requires |w| == 4
  {
    GetLE32(w, 0)
  }

  /** htons and htonl undo ntohs and ntohl. */
  lemma BigEndianRoundTrip(v: uint16, w: uint32)
    ensures FromBE16(BE16(v)) == v
    ensures FromBE32(BE32(w)) == w
  {
    LE32Digits(w);
  }

  // ---- Blocks of bytes ----

  lemma SubSlice<T>(m: seq<T>, p: nat, q: nat, i: nat, j: nat)
    requires p <= q <= |m| && i <= j <= q - p
    ensures m[p..q][i..j] == m[p + i..p + j]
  {
    var s, t := m[p..q][i..j], m[p + i..p + j];
    forall k | 0 <= k < j - i ensures s[k] == t[k] {
      assert m[p..q][i + k] == m[p + i + k];
    }
  }

  /** The n bytes of g from p on are those of m from q on. */
  ghost predicate Same(m: seq<byte>, q: nat, g: seq<byte>, p: nat, n: int) {
    && q + n <= |m| && p + n <= |g|
    && forall k :: p <= k < p + n ==> g[k] == m[k - p + q]
  }

  lemma SameTail(m: seq<byte>, g: seq<byte>, a: nat, b: nat, e: nat)
    requires a <= b <= e && Same(m, a, g, a, e - a)
    ensures Same(m, b, g, b, e - b)
  {}

  lemma SameSlice(m: seq<byte>, q: nat, g: seq<byte>, p: nat, n: nat)
    requires Same(m, q, g, p, n)
    ensures g[p..p + n] == m[q..q + n]
  {}

  /** memcpy/memmove: the source is a snapshot, so overlapping ranges are covered. */
  method Store(dst: array<byte>, at: nat, src: seq<byte>)
    requires at + |src| <= dst.Length
    modifies dst
    ensures forall k :: 0 <= k < dst.Length ==>
      dst[k] == if at <= k < at + |src| then src[k - at] else old(dst[k])
  {
    for i := 0 to |src|
      invariant forall k :: 0 <= k < dst.Length ==>
        dst[k] == if at <= k < at + i then src[k - at] else old(dst[k])
    {
      dst[at + i] := src[i];
    }
  }

  /** A field written behind the first at bytes. */
  method Append(dst: array<byte>, at: nat, src: seq<byte>)
    requires at + |src| <= dst.Length
    modifies dst
    ensures dst[..at + |src|] == old(dst[..at]) + src
  {
    Store(dst, at, src);
  }
}

/**
 * The attribute container: a key/value map kept in one flat block of bytes.
 *
 *   offset 0      2      6           8     8+t           10+t
 *          flags  total  tag length  tag   record count  records ...  slack
 *
 * t is the tag's length with its NUL, total counts the bytes from offset 2 on.
 */
module AttrContainers {
  import opened AssocList
  import opened Tiling
  import opened Words

  const SHORT := 1
  const BOOLEAN := 8
  const STRING := 9
  const BYTEARRAY := 10

  datatype Attr = Attr(key: seq<byte>, kind: byte, value: seq<byte>)

  // ---- The format ----

  /** 1 << (type & 3). */
  function ScalarSize(kind: byte): (n: nat)
    ensures 1 <= n <= 8
  {
    match kind % 4
    case 0 => 1
    case 1 => 2
    case 2 => 4
    case _ => 8
  }

  lemma ScalarSizeIs(kind: byte)
    ensures ScalarSize(kind) == Pow2(kind % 4)
  {
    assert Pow2(0) == 1 && Pow2(1) == 2 && Pow2(2) == 4 && Pow2(3) == 8;
  }

  predicate CString(s: seq<byte>) {
    0 !in s && |s| + 1 < 0x1_0000
  }

  predicate ValidValue(kind: byte, value: seq<byte>) {
    && SHORT <= kind <= BYTEARRAY
    && (kind <= BOOLEAN ==> |value| == ScalarSize(kind))
    && (kind == STRING ==> |value| < 0x1_0000)
    && (kind == BYTEARRAY ==> |value| < 0x1_0000_0000)
  }

  /** Width of the length field in front of a value. */
  function LengthField(kind: byte): nat {
    if kind == STRING then 2 else if kind == BYTEARRAY then 4 else 0
  }

  /** Length and text of the key with its NUL, the type byte, the value with its length if it needs one. */
  function Size(a: Attr): nat {
    2 + |a.key| + 1 + 1 + LengthField(a.kind) + |a.value|
  }

  /** The bytes r encode record a. */
  ghost predicate Encodes(r: seq<byte>, a: Attr) {
    var v := 4 + |a.key|;
    && ValidValue(a.kind, a.value) && |r| == Size(a)
    && GetLE16(r, 0) == |a.key| + 1
    && r[2..v - 2] == a.key && r[v - 2] == 0
    && r[v - 1] == a.kind
    && (a.kind == STRING ==> GetLE16(r, v) == |a.value|)
    && (a.kind == BYTEARRAY ==> GetLE32(r, v) == |a.value|)
    && r[|r| - |a.value|..] == a.value
  }

  /** The bytes of a record, all of them. */
  lemma RecordBytes(r: seq<byte>, a: Attr)
    requires Encodes(r, a) && CString(a.key)
    ensures
      var length := if a.kind == STRING then LE16(|a.value|) else if a.kind == BYTEARRAY then LE32(|a.value|) else [];
      && r == LE16(|a.key| + 1) + a.key + [0, a.kind] + length + a.value
      && (a.kind <= 8 ==> |a.value| == Pow2(a.kind % 4))
  {
    ScalarSizeIs(a.kind);
    RecordParts(r, a);
    var v, w := 4 + |a.key|, |r| - |a.value|;
    Cuts(r, 2, v - 2, v, w);
    hide Encodes;
    hide Pow2;
    hide LE16;
    hide LE32;
  }

  lemma Cuts(s: seq<byte>, a: nat, b: nat, c: nat, d: nat)
    requires a <= b <= c <= d <= |s|
    ensures s == s[..a] + s[a..b] + s[b..c] + s[c..d] + s[d..]
  {}

  lemma RecordParts(r: seq<byte>, a: Attr)
    requires Encodes(r, a) && CString(a.key)
    ensures
      var v, w := 4 + |a.key|, |r| - |a.value|;
      && 4 <= v <= w && r[..2] == LE16(|a.key| + 1) && r[2..v - 2] == a.key && r[v - 2..v] == [0, a.kind]
      && r[v..w] == (if a.kind == STRING then LE16(|a.value|) else if a.kind == BYTEARRAY then LE32(|a.value|) else [])
      && r[w..] == a.value && (a.kind <= 8 ==> |a.value| == ScalarSize(a.kind))
  {
    var v := 4 + |a.key|;
    if a.kind == BYTEARRAY { LE32Bytes(r[v..v + 4], |a.value|); }
    hide LE32;
  }

  lemma LE32Bytes(s: seq<byte>, v: uint32)
    requires |s| == 4 && GetLE32(s, 0) == v
    ensures s == LE32(v)
  {
    var u := s[2] as int + 0x100 * (s[3] as int);
    var t := s[1] as int + 0x100 * u;
    Digit(t, s[0]);
    Digit(u, s[1]);
    Digit(s[3], s[2]);
    assert v / 0x1_0000 == v / 0x100 / 0x100 && v / 0x100_0000 == v / 0x1_0000 / 0x100;
  }

  lemma Digit(q: nat, b: byte)
    ensures (b as int + 0x100 * q) % 0x100 == b as int && (b as int + 0x100 * q) / 0x100 == q
  {}

  function KeyOf(a: Attr): seq<byte> { a.key }

  function ValueOf(a: Attr): (byte, seq<byte>) { (a.kind, a.value) }

  /** Offset of the first record. */
  function HeaderSize(tag: seq<byte>): nat {
    4 + 2 + |tag| + 1 + 2 + 2
  }

  ghost predicate HeaderAt(m: seq<byte>, tag: seq<byte>, count: nat) {
    && CString(tag)
    && HeaderSize(tag) < |m| < 0x1_0000_0002
    && GetLE32(m, 2) == |m| - 2
    && GetLE16(m, 6) == |tag| + 1
    && m[8..8 + |tag|] == tag && m[8 + |tag|] == 0
    && GetLE16(m, 9 + |tag|) == count
  }

  /** A block of bytes with the tag and records it holds; whatever follows them is slack. */
  datatype Image = Image(bytes: seq<byte>, tag: seq<byte>, attrs: seq<Attr>, offs: seq<nat>) {
    ghost predicate Valid() {
      && HeaderAt(bytes, tag, |attrs|)
      && Tiles(bytes, attrs, offs, Encodes)
      && offs[0] == HeaderSize(tag)
    }
  }

  lemma OffsetsInBounds(b: Image, i: nat)
    requires b.Valid() && i <= |b.attrs|
    ensures HeaderSize(b.tag) == b.offs[0] <= b.offs[i] <= b.offs[|b.attrs|] <= |b.bytes|
    ensures i < |b.attrs| ==> b.offs[i] + Size(b.attrs[i]) == b.offs[i + 1] <= b.offs[|b.attrs|]
    ensures i < |b.attrs| ==> Tile(b.bytes, b.offs[i], b.attrs[i], b.offs[i + 1], Encodes)
  {
    Ascend(b.bytes, b.attrs, b.offs, Encodes, 0, i);
    Ascend(b.bytes, b.attrs, b.offs, Encodes, i, |b.attrs|);
    if i < |b.attrs| {
      Ascend(b.bytes, b.attrs, b.offs, Encodes, i + 1, |b.attrs|);
      assert Tile(b.bytes, b.offs[i], b.attrs[i], b.offs[i + 1], Encodes);
    }
  }

  /** The bytes at p determine the record there and where it ends. */
  lemma RecordUnique(m: seq<byte>, p: nat, a: Attr, q: nat, a': Attr, q': nat)
    requires Tile(m, p, a, q, Encodes) && Tile(m, p, a', q', Encodes)
    ensures a == a' && q == q'
  {
    var r, r', n := m[p..q], m[p..q'], |a.key|;
    forall k | 0 <= k < |r| && k < |r'| ensures r[k] == r'[k] == m[p + k] {}
    assert GetLE16(r, 0) == GetLE16(r', 0);
    assert a.key == r[2..2 + n] == r'[2..2 + n] == a'.key;
    assert a.kind == a'.kind && Size(a) == Size(a');
    assert r == r';
  }

  /** A block has one reading: its bytes determine the tag and the records. */
  lemma {:induction false} ImageUnique(b: Image, c: Image)
    requires b.Valid() && c.Valid() && b.bytes == c.bytes
    ensures b.tag == c.tag && b.attrs == c.attrs
  {
    RecordsUnique(b, c, |b.attrs|);
  }

  lemma {:induction false} RecordsUnique(b: Image, c: Image, n: nat)
    requires b.Valid() && c.Valid() && b.bytes == c.bytes && n <= |b.attrs|
    ensures b.tag == c.tag && |b.attrs| == |c.attrs|
    ensures b.attrs[..n] == c.attrs[..n] && b.offs[n] == c.offs[n]
  {
    if n > 0 {
      var i := n - 1;
      RecordsUnique(b, c, i);
      assert Tile(b.bytes, b.offs[i], b.attrs[i], b.offs[i + 1], Encodes);
      assert Tile(c.bytes, c.offs[i], c.attrs[i], c.offs[i + 1], Encodes);
      RecordUnique(b.bytes, b.offs[i], b.attrs[i], b.offs[i + 1], c.attrs[i], c.offs[i + 1]);
    }
  }

  // ---- Walking the block ----

  /** attr_container_get_attr_begin: the first record's offset, the total and the count. */
  method GetAttrBegin(m: seq<byte>, ghost b: Image) returns (p: Option<nat>, total: uint32, num: uint16)
    requires b.Valid() && m == b.bytes
    ensures p == Some(b.offs[0])
    ensures total == |m| - 2 && num == |b.attrs|
  {
    num, total := 0, GetLE32(m, 2);
    if total == 0 { return None, total, num; }
    var strLen: int := GetLE16(m, 6);
    if strLen == 0 { return None, total, num; }
    var q := 8 + strLen;
    if q - 2 >= total { return None, total, num; }
    num := GetLE16(m, q);
    q := q + 2;
    if q - 2 >= total { return None, total, num; }
    p := Some(q);
  }

  /** What a walk over the records looks at. */
  lemma RecordAt(m: seq<byte>, p: nat, a: Attr, q: nat)
    requires Tile(m, p, a, q, Encodes)
    ensures
      var v := p + 4 + |a.key|;
      && ValidValue(a.kind, a.value) && q == p + Size(a) <= |m|
      && GetLE16(m, p) == |a.key| + 1 && m[v - 1] == a.kind
      && (a.kind == STRING ==> GetLE16(m, v) == |a.value|)
      && (a.kind == BYTEARRAY ==> GetLE32(m, v) == |a.value|)
  {
    var r := m[p..q];
    assert forall k :: 0 <= k < |r| ==> r[k] == m[p + k];
  }

  /** attr_container_get_attr_next: from one record to the byte after it. */
  method GetAttrNext(m: seq<byte>, p: nat, ghost a: Attr, ghost q: nat) returns (next: Option<nat>)
    requires Tile(m, p, a, q, Encodes)
    ensures next == Some(q)
  {
    RecordAt(m, p, a, q);
    hide Tile;
    hide Encodes;
    var keyLen: int := GetLE16(m, p);
    var r := p + 2 + keyLen;
    var kind := m[r];
    r := r + 1;
    if SHORT <= kind <= BOOLEAN {
      next := Some(r + ScalarSize(kind));
    } else if kind == STRING {
      var n: int := GetLE16(m, r);
      next := Some(r + 2 + n);
    } else if kind == BYTEARRAY {
      next := Some(r + 4 + GetLE32(m, r));
    } else {
      next := None;
    }
  }

  lemma KeyAt(m: seq<byte>, p: nat, a: Attr, q: nat)
    requires Tile(m, p, a, q, Encodes)
    ensures p + 3 + |a.key| < q
    ensures GetLE16(m, p) == |a.key| + 1
    ensures m[p + 2..p + 3 + |a.key|] == a.key + [0]
  {
    var r, n := m[p..q], 3 + |a.key|;
    SubSlice(m, p, q, 2, n);
    assert r[2..n] == r[2..n - 1] + [r[n - 1]];
  }

  lemma TerminatedInjective(s: seq<byte>, t: seq<byte>)
    requires s + [0] == t + [0]
    ensures s == t
  {
    assert s == (s + [0])[..|s|];
    assert t == (t + [0])[..|t|];
  }

  /** attr_container_find_attr: the record of a key, or nothing. */
  method FindAttr(m: seq<byte>, key: seq<byte>, ghost b: Image) returns (r: Option<nat>)
    requires b.Valid() && m == b.bytes && CString(key)
    ensures
      var i := IndexOf(b.attrs, KeyOf, key);
      r == if i < |b.attrs| then Some(b.offs[i]) else None
  {
    var begin, total, num := GetAttrBegin(m, b);
    if begin.None? { return None; }
    var p := begin.value;
    for i := 0 to num
      invariant p == b.offs[i]
      invariant i <= IndexOf(b.attrs, KeyOf, key)
    {
      ghost var a, q := b.attrs[i], b.offs[i + 1];
      assert Tile(m, p, a, q, Encodes);
      KeyAt(m, p, a, q);
      var strLen: int := GetLE16(m, p);
      if strLen == 0 { return None; }
      if strLen == |key| + 1 && m[p + 2..p + 2 + strLen] == key + [0] {
        TerminatedInjective(a.key, key);
        if p + 2 + strLen - 2 >= total { return None; }
        return Some(p);
      }
      assert a.key != key;
      var next := GetAttrNext(m, p, a, q);
      if next.None? { return None; }
      p := next.value;
    }
    return None;
  }

  /** attr_container_get_attr_end: the end of the last record. */
  method GetAttrEnd(m: seq<byte>, ghost b: Image) returns (r: Option<nat>)
    requires b.Valid() && m == b.bytes
    ensures r == Some(b.offs[|b.attrs|])
  {
    var begin, total, num := GetAttrBegin(m, b);
    if begin.None? { return None; }
    var p := begin.value;
    for i := 0 to num
      invariant p == b.offs[i]
    {
      assert Tile(m, p, b.attrs[i], b.offs[i + 1], Encodes);
      var next := GetAttrNext(m, p, b.attrs[i], b.offs[i + 1]);
      if next.None? { return None; }
      p := next.value;
    }
    return Some(p);
  }

  /** The tail of attr_container_get_as_bytearray: the value behind the key, from its type byte at addr on. */
  method ReadValue(m: seq<byte>, addr: nat, ghost p: nat, ghost a: Attr, ghost q: nat) returns (r: Option<seq<byte>>)
    requires Tile(m, p, a, q, Encodes) && addr == p + 3 + |a.key|
    ensures r == Some(a.value)
  {
    SubSlice(m, p, q, q - p - |a.value|, q - p);
    var kind := m[addr];
    var v := addr + 1;
    if SHORT <= kind <= BOOLEAN {
      r := Some(m[v..v + ScalarSize(kind)]);
    } else if kind == STRING {
      var n: int := GetLE16(m, v);
      r := Some(m[v + 2..v + 2 + n]);
    } else if kind == BYTEARRAY {
      var n: int := GetLE32(m, v);
      r := Some(m[v + 4..v + 4 + n]);
    } else {
      r := None;
    }
  }

  // ---- The steps of set_attr ----

  lemma EncodedBytewise(r: seq<byte>, a: Attr)
    requires CString(a.key) && ValidValue(a.kind, a.value) && |r| == Size(a)
    requires
      var v := 4 + |a.key|;
      var value := v + LengthField(a.kind);
      && (forall k :: 0 <= k < 2 ==> r[k] == LE16(|a.key| + 1)[k])
      && (forall k :: 2 <= k < v - 2 ==> r[k] == a.key[k - 2]) && r[v - 2] == 0
      && r[v - 1] == a.kind
      && (a.kind == STRING ==> forall k :: v <= k < value ==> r[k] == LE16(|a.value|)[k - v])
      && (a.kind == BYTEARRAY ==> forall k :: v <= k < value ==> r[k] == LE32(|a.value|)[k - v])
      && forall k :: value <= k < |r| ==> r[k] == a.value[k - value]
    ensures Encodes(r, a)
  {
    assert r[..2] == LE16(|a.key| + 1);
    LE16At(r, 0, |a.key| + 1);
    var v := 4 + |a.key|;
    if a.kind == STRING {
      assert r[v..v + 2] == LE16(|a.value|);
      LE16At(r, v, |a.value|);
    } else if a.kind == BYTEARRAY {
      assert r[v..v + 4] == LE32(|a.value|);
      LE32At(r, v, |a.value|);
    }
  }

  /** The record's bytes, field after field. */
  method BuildRecord(a: Attr) returns (buf: array<byte>)
    requires CString(a.key) && ValidValue(a.kind, a.value)
    ensures fresh(buf) && Encodes(buf[..], a)
  {
    buf := new byte[Size(a)];
    var v := 4 + |a.key|;
    Store(buf, 0, LE16(|a.key| + 1));
    Store(buf, 2, a.key + [0]);
    buf[v - 1] := a.kind;
    if a.kind == STRING {
      Store(buf, v, LE16(|a.value|));
    } else if a.kind == BYTEARRAY {
      Store(buf, v, LE32(|a.value|));
    }
    Store(buf, v + LengthField(a.kind), a.value);
    EncodedBytewise(buf[..], a);
  }

  /** The header of a block whose first bytes came from m and whose total and count were then set. */
  lemma HeaderCopied(m: seq<byte>, g: seq<byte>, tag: seq<byte>, count: nat, count': nat)
    requires HeaderAt(m, tag, count)
    requires |m| <= |g| < 0x1_0000_0002 && GetLE32(g, 2) == |g| - 2
    requires Same(m, 6, g, 6, 3 + |tag|) && GetLE16(g, 9 + |tag|) == count'
    ensures HeaderAt(g, tag, count')
  {
    assert Same(m, 8, g, 8, |tag|);
    SameSlice(m, 8, g, 8, |tag|);
  }

  /** b' holds the given records under b's tag and flags. */
  ghost predicate Updated(b: Image, attrs: seq<Attr>, b': Image) {
    && b'.Valid() && b'.tag == b.tag && b'.attrs == attrs
    && b.Valid() && b'.bytes[0] == b.bytes[0] && b'.bytes[1] == b.bytes[1]
  }

  /** Same size: the record is overwritten where it stands. */
  lemma RecordReplaced(b: Image, g: seq<byte>, i: nat, p: nat, a: Attr, r: seq<byte>) returns (b': Image)
    requires b.Valid() && i < |b.attrs| && p == b.offs[i]
    requires Encodes(r, a) && Size(a) == Size(b.attrs[i])
    requires |g| == |b.bytes| && Same(b.bytes, 0, g, 0, p) && Same(r, 0, g, p, |r|)
    requires Same(b.bytes, p + |r|, g, p + |r|, |g| - p - |r|)
    ensures b'.bytes == g && Updated(b, Place(b.attrs, i, a, true), b')
  {
    OffsetsInBounds(b, i);
    HeaderCopied(b.bytes, g, b.tag, |b.attrs|, |b.attrs|);
    Replaced(b.bytes, g, b.attrs, b.offs, i, a, r, Encodes);
    b' := Image(g, b.tag, b.attrs[i := a], b.offs);
  }

  /**
   * Another size: g, the old block or a bigger one, holds the records before and after the old one,
   * then the new one.
   */
  lemma RecordMoved(b: Image, g: seq<byte>, i: nat, p: nat, p1: nat, e: nat, a: Attr, r: seq<byte>)
    returns (b': Image)
    requires b.Valid() && i < |b.attrs| && Encodes(r, a)
    requires p == b.offs[i] && p1 == b.offs[i + 1] && e == b.offs[|b.attrs|] && 11 <= p <= p1 <= e
    requires |b.bytes| <= |g| < 0x1_0000_0002 && GetLE32(g, 2) == |g| - 2
    requires g[0] == b.bytes[0] && g[1] == b.bytes[1] && Same(b.bytes, 6, g, 6, p - 6)
    requires Same(b.bytes, p1, g, p, e - p1) && Same(r, 0, g, p + e - p1, |r|)
    ensures b'.bytes == g && Updated(b, Place(b.attrs, i, a, false), b')
  {
    OffsetsInBounds(b, i);
    HeaderCopied(b.bytes, g, b.tag, |b.attrs|, |b.attrs|);
    SameTail(b.bytes, g, 6, b.offs[0], p);
    hide Tiles;
    hide Encodes;
    hide Same;
    hide HeaderAt;
    var offs' := Moved(b.bytes, g, b.attrs, b.offs, i, a, r, Encodes);
    b' := Image(g, b.tag, b.attrs[..i] + b.attrs[i + 1..] + [a], offs');
  }

  lemma RecordSlid(b: Image, g: seq<byte>, i: nat, p: nat, p1: nat, e: nat, a: Attr, r: seq<byte>)
    returns (b': Image)
    requires b.Valid() && i < |b.attrs| && Encodes(r, a)
    requires p == b.offs[i] && p1 == b.offs[i + 1] && e == b.offs[|b.attrs|] && 11 <= p <= p1 <= e
    requires |g| == |b.bytes| && Same(b.bytes, 0, g, 0, p)
    requires Same(b.bytes, p1, g, p, e - p1) && Same(r, 0, g, p + e - p1, |r|)
    ensures b'.bytes == g && Updated(b, Place(b.attrs, i, a, false), b')
  {
    b' := RecordMoved(b, g, i, p, p1, e, a, r);
  }

  /** A new key: the record follows the others and the count goes up, in the old block or a bigger one. */
  lemma RecordAppended(b: Image, g: seq<byte>, e: nat, n: nat, a: Attr, r: seq<byte>) returns (b': Image)
    requires b.Valid() && |b.attrs| < 0xFFFF && Encodes(r, a) && e == b.offs[|b.attrs|] && n == 9 + |b.tag|
    requires |b.bytes| <= |g| < 0x1_0000_0002 && GetLE32(g, 2) == |g| - 2
    requires g[0] == b.bytes[0] && g[1] == b.bytes[1]
    requires Same(b.bytes, 6, g, 6, n - 6) && GetLE16(g, n) == (GetLE16(b.bytes, n) + 1) % 0x1_0000
    requires Same(b.bytes, n + 2, g, n + 2, e - n - 2) && Same(r, 0, g, e, |r|)
    ensures b'.bytes == g && Updated(b, Place(b.attrs, |b.attrs|, a, false), b')
  {
    OffsetsInBounds(b, |b.attrs|);
    HeaderCopied(b.bytes, g, b.tag, |b.attrs|, |b.attrs| + 1);
    hide Tiles;
    hide Encodes;
    hide HeaderAt;
    var offs' := Appended(b.bytes, g, b.attrs, b.offs, a, r, Encodes);
    b' := Image(g, b.tag, b.attrs + [a], offs');
  }

  /** attr_container_inc_attr_num; n is the count's offset. */
  method IncAttrNum(block: array<byte>, ghost n: nat)
    requires 8 <= block.Length && n == 8 + GetLE16(block[..], 6) && n + 2 <= block.Length
    modifies block
    ensures GetLE16(block[..], n) == (GetLE16(old(block[..]), n) + 1) % 0x1_0000
    ensures forall k :: 0 <= k < block.Length && k != n && k != n + 1 ==> block[k] == old(block[k])
  {
    var strLen: int := GetLE16(block[..], 6);
    var p := 8 + strLen;
    var num: int := GetLE16(block[..], p);
    num := (num + 1) % 0x1_0000;
    Store(block, p, LE16(num));
  }

  // The branches of set_attr on the bytes; r holds the new record.

  /** memmove of the bytes from p1 to e down to p, memcpy of r behind them. */
  method SlideBytes(mem: array<byte>, p: nat, p1: nat, e: nat, r: seq<byte>, ghost m: seq<byte>)
    returns (ghost g: seq<byte>)
    requires m == mem[..]
    requires 6 <= p <= p1 <= e <= mem.Length && p + e - p1 + |r| <= mem.Length
    modifies mem
    ensures g == mem[..] && |g| == |m|
    ensures Same(m, 0, g, 0, p) && Same(m, p1, g, p, e - p1) && Same(r, 0, g, p + e - p1, |r|)
  {
    Store(mem, p, mem[p1..e]);
    Store(mem, p + (e - p1), r);
    g := mem[..];
  }

  /** A bigger block with the bytes before p, those from p1 to e, and r. */
  method GrowMoving(mem: array<byte>, p: nat, p1: nat, e: nat, r: seq<byte>, ghost m: seq<byte>)
    returns (block: array<byte>, ghost g: seq<byte>)
    requires m == mem[..]
    requires 6 <= p <= p1 <= e <= mem.Length && mem.Length + |r| + 100 < 0x1_0000_0002
    ensures fresh(block) && g == block[..] && |g| == |m| + |r| + 100
    ensures g[0] == m[0] && g[1] == m[1] && GetLE32(g, 2) == |g| - 2
    ensures Same(m, 6, g, 6, p - 6) && Same(m, p1, g, p, e - p1) && Same(r, 0, g, p + e - p1, |r|)
  {
    hide GetLE32;
    hide LE32;
    var total := mem.Length - 2 + |r| + 100;
    block := new byte[2 + total];
    Store(block, 0, mem[..p]);
    Store(block, p, mem[p1..e]);
    Store(block, p + (e - p1), r);
    Store(block, 2, LE32(total));
    g := block[..];
    LE32At(g, 2, total);
    assert Same(m, p1, g, p, e - p1);
  }

  /** r behind the bytes before e, and one more in the count at n. */
  method AppendBytes(mem: array<byte>, e: nat, r: seq<byte>, ghost m: seq<byte>, ghost n: nat)
    returns (ghost g: seq<byte>)
    requires m == mem[..] && 8 <= |m| && n == 8 + GetLE16(m, 6) && n + 2 <= e && e + |r| <= |m|
    modifies mem
    ensures g == mem[..] && |g| == |m| && GetLE16(g, n) == (GetLE16(m, n) + 1) % 0x1_0000
    ensures Same(m, 0, g, 0, n) && Same(m, n + 2, g, n + 2, e - n - 2) && Same(r, 0, g, e, |r|)
  {
    Store(mem, e, r);
    IncAttrNum(mem, n);
    g := mem[..];
  }

  /** The same in a bigger block, whose total is set last. */
  method GrowAppending(mem: array<byte>, e: nat, r: seq<byte>, ghost m: seq<byte>, ghost n: nat)
    returns (block: array<byte>, ghost g: seq<byte>)
    requires m == mem[..] && 8 <= |m| && n == 8 + GetLE16(m, 6) && n + 2 <= e <= |m|
    requires mem.Length + |r| + 100 < 0x1_0000_0002
    ensures fresh(block) && g == block[..] && |g| == |m| + |r| + 100
    ensures g[0] == m[0] && g[1] == m[1] && GetLE32(g, 2) == |g| - 2
    ensures GetLE16(g, n) == (GetLE16(m, n) + 1) % 0x1_0000
    ensures Same(m, 6, g, 6, n - 6) && Same(m, n + 2, g, n + 2, e - n - 2) && Same(r, 0, g, e, |r|)
  {
    hide GetLE32;
    hide LE16;
    hide LE32;
    var total := mem.Length - 2 + |r| + 100;
    block := new byte[2 + total];
    Store(block, 0, mem[..e]);
    Store(block, e, r);
    IncAttrNum(block, n);
    Store(block, 2, LE32(total));
    g := block[..];
    LE32At(g, 2, total);
  }

  // The branches of set_attr on the records.

  method OverwriteRecord(mem: array<byte>, p: nat, r: seq<byte>, ghost b: Image, ghost i: nat, ghost a: Attr)
    returns (ghost b': Image)
    requires b.Valid() && b.bytes == mem[..] && i < |b.attrs|
    requires p == b.offs[i] && Encodes(r, a) && Size(a) == Size(b.attrs[i])
    modifies mem
    ensures Updated(b, Place(b.attrs, i, a, true), b') && b'.bytes == mem[..]
  {
    OffsetsInBounds(b, i);
    Store(mem, p, r);
    b' := RecordReplaced(b, mem[..], i, p, a, r);
  }

  method SlideRecords(mem: array<byte>, p: nat, p1: nat, e: nat, r: seq<byte>,
                      ghost b: Image, ghost i: nat, ghost a: Attr)
    returns (ghost b': Image)
    requires b.Valid() && b.bytes == mem[..] && i < |b.attrs|
    requires p == b.offs[i] && p1 == b.offs[i + 1] && e == b.offs[|b.attrs|]
    requires Encodes(r, a) && p + e - p1 + |r| <= mem.Length
    modifies mem
    ensures Updated(b, Place(b.attrs, i, a, false), b') && b'.bytes == mem[..]
  {
    OffsetsInBounds(b, i);
    ghost var g := SlideBytes(mem, p, p1, e, r, b.bytes);
    b' := RecordSlid(b, g, i, p, p1, e, a, r);
  }

  method MoveToNewBlock(mem: array<byte>, p: nat, p1: nat, e: nat, r: seq<byte>,
                        ghost b: Image, ghost i: nat, ghost a: Attr)
    returns (block: array<byte>, ghost b': Image)
    requires b.Valid() && b.bytes == mem[..] && i < |b.attrs|
    requires p == b.offs[i] && p1 == b.offs[i + 1] && e == b.offs[|b.attrs|]
    requires Encodes(r, a) && mem.Length + |r| + 100 < 0x1_0000_0002
    ensures Updated(b, Place(b.attrs, i, a, false), b') && b'.bytes == block[..]
    ensures fresh(block) && block.Length == mem.Length + |r| + 100
  {
    OffsetsInBounds(b, i);
    ghost var g;
    block, g := GrowMoving(mem, p, p1, e, r, b.bytes);
    b' := RecordMoved(b, g, i, p, p1, e, a, r);
  }

  method AppendRecord(mem: array<byte>, e: nat, r: seq<byte>, ghost b: Image, ghost a: Attr) returns (ghost b': Image)
    requires b.Valid() && b.bytes == mem[..] && |b.attrs| < 0xFFFF
    requires e == b.offs[|b.attrs|] && Encodes(r, a) && e + |r| <= mem.Length
    modifies mem
    ensures Updated(b, Place(b.attrs, |b.attrs|, a, false), b') && b'.bytes == mem[..]
  {
    OffsetsInBounds(b, |b.attrs|);
    ghost var n := 9 + |b.tag|;
    ghost var g := AppendBytes(mem, e, r, b.bytes, n);
    b' := RecordAppended(b, g, e, n, a, r);
  }

  method AppendInNewBlock(mem: array<byte>, e: nat, r: seq<byte>, ghost b: Image, ghost a: Attr)
    returns (block: array<byte>, ghost b': Image)
    requires b.Valid() && b.bytes == mem[..] && |b.attrs| < 0xFFFF
    requires e == b.offs[|b.attrs|] && Encodes(r, a) && mem.Length + |r| + 100 < 0x1_0000_0002
    ensures Updated(b, Place(b.attrs, |b.attrs|, a, false), b') && b'.bytes == block[..]
    ensures fresh(block) && block.Length == mem.Length + |r| + 100
  {
    OffsetsInBounds(b, |b.attrs|);
    ghost var g, n := b.bytes, 9 + |b.tag|;
    block, g := GrowAppending(mem, e, r, b.bytes, n);
    b' := RecordAppended(b, g, e, n, a, r);
  }

  /** The bit check_set_attr looks at: bit 1 of the first flag byte. */
  predicate WriteRefused(flags: byte) {
    flags / 2 % 2 == 1
  }

  /** The bit attr_container_serialize sets and attr_container_is_constant reads. */
  predicate ReadOnly(flags: byte) {
    flags / 4 % 2 == 1
  }

  /** flags & 2 and flags & 4 */
  lemma FlagBits(flags: byte)
    ensures WriteRefused(flags) <==> And(flags, 2) != 0
    ensures ReadOnly(flags) <==> And(flags, 4) != 0
    ensures Or(flags, 4) == if ReadOnly(flags) then flags as int else flags + 4
  {
    assert And(flags, 2) == 2 * And(flags / 2, 1) && And(flags / 2, 1) == flags / 2 % 2;
    assert And(flags, 4) == 2 * And(flags / 2, 2) && And(flags / 2, 2) == 2 * And(flags / 4, 1);
    assert And(flags / 4, 1) == flags / 4 % 2;
    assert Or(flags / 4, 1) == flags / 4 + 1 - flags / 4 % 2;
    assert Or(flags / 2, 2) == 2 * Or(flags / 4, 1) + flags / 2 % 2;
    assert Or(flags, 4) == 2 * Or(flags / 2, 2) + flags % 2;
  }

  lemma SameBehind(m: seq<byte>, g: seq<byte>, k: nat)
    requires k <= |m| == |g| && forall i :: k <= i < |m| ==> g[i] == m[i]
    ensures Same(m, k, g, k, |m| - k)
  {}

  method CopyReadOnly(buf: array<byte>, m: seq<byte>)
    requires 2 <= |m| <= buf.Length
    modifies buf
    ensures ReadOnly(buf[0]) && WriteRefused(buf[0]) == WriteRefused(m[0])
    ensures buf[0] as int == Or(m[0], 4) && buf[1] == m[1]
    ensures Same(m, 2, buf[..|m|], 2, |m| - 2)
    ensures forall k :: |m| <= k < buf.Length ==> buf[k] == old(buf[k])
  {
    hide And;
    hide Or;
    FlagBits(m[0]);
    hide Same;
    Store(buf, 0, m);
    if !ReadOnly(buf[0]) { buf[0] := buf[0] + 4; }
    SameBehind(m, buf[..|m|], 2);
  }

  /** A block that agrees with a container's beyond the flags holds the same records. */
  lemma Copy(b: Image, g: seq<byte>) returns (b': Image)
    requires b.Valid() && |g| == |b.bytes| && Same(b.bytes, 2, g, 2, |g| - 2)
    ensures b'.Valid() && b'.bytes == g && b'.tag == b.tag && b'.attrs == b.attrs && b'.offs == b.offs
  {
    var n := |b.attrs|;
    OffsetsInBounds(b, n);
    HeaderCopied(b.bytes, g, b.tag, n, n);
    var offs := Copied(b.bytes, b.attrs, b.offs, Encodes, g, b.offs[0]);
    b' := Image(g, b.tag, b.attrs, offs);
  }

  lemma Created(m: seq<byte>, tag: seq<byte>)
    requires CString(tag) && |m| == |tag| + 109
    requires m[2..6] == LE32(|m| - 2) && m[6..8] == LE16(|tag| + 1) && m[8..9 + |tag|] == tag + [0]
    requires m[9 + |tag|] == m[10 + |tag|] == 0
    ensures Image(m, tag, [], [HeaderSize(tag)]).Valid()
  {
    LE32At(m, 2, |m| - 2);
    LE16At(m, 6, |tag| + 1);
    assert m[8..8 + |tag|] == (tag + [0])[..|tag|] == tag && m[8 + |tag|] == (tag + [0])[|tag|];
  }

  // ---- The container ----

  class AttrContainer {
    var mem: array<byte>
    ghost var image: Image

    ghost predicate Valid()
      reads this, mem
    {
      image.Valid() && image.bytes == mem[..] && DistinctKeys(image.attrs, KeyOf)
    }

    /** The key/value map the block stands for. */
    ghost function Contents(): map<seq<byte>, (byte, seq<byte>)>
      reads this
    {
      AsMap(image.attrs, KeyOf, ValueOf)
    }

    /** attr_container_create: 100 spare bytes, everything zeroed; no tag is the empty tag. */
    constructor (tag: seq<byte>)
      requires CString(tag)
      ensures Valid() && fresh(mem)
      ensures image.tag == tag && image.attrs == [] && Contents() == map[]
      ensures mem.Length == |tag| + 109 && mem[0] == mem[1] == 0
    {
      hide LE32;
      hide LE16;
      hide HeaderAt;
      var length := 2 + 4 + 2 + |tag| + 1 + 100;
      var block := new byte[length](_ => 0);
      mem := block;
      new;
      Store(block, 2, LE32(length - 2));
      Store(block, 6, LE16(|tag| + 1));
      Store(block, 8, tag + [0]);
      image := Image(block[..], tag, [], [HeaderSize(tag)]);
      Created(block[..], tag);
    }

    /** A serialised block taken for a container, as a cast of the pointer to it does. */
    constructor Open(buf: array<byte>, ghost copy: Image)
      requires copy.Valid() && copy.bytes == buf[..] && DistinctKeys(copy.attrs, KeyOf)
      ensures Valid() && mem == buf && image == copy
    {
      mem, image := buf, copy;
    }

    /** set_attr for a key that has a record at p. */
    method SetKnown(p: nat, attrEnd: nat, r: seq<byte>, growOk: bool, ghost i: nat, ghost a: Attr) returns (ok: bool)
      requires image.Valid() && image.bytes == mem[..] && i < |image.attrs|
      requires p == image.offs[i] && attrEnd == image.offs[|image.attrs|]
      requires Encodes(r, a) && mem.Length + |r| + 100 < 0x1_0000_0002
      modifies this, mem
      ensures image.Valid() && image.bytes == mem[..] && (mem == old(mem) || fresh(mem))
      ensures
        var room := old(mem).Length - attrEnd + Size(old(image.attrs)[i]);
        && (ok <==> growOk || Size(a) <= room)
        && mem.Length == old(mem).Length + if ok && Size(a) > room then Size(a) + 100 else 0
      ensures !ok ==> image == old(image) && mem == old(mem)
      ensures ok ==>
        var attrs := old(image.attrs);
        Updated(old(image), Place(attrs, i, a, Size(a) == Size(attrs[i])), image)
    {
      ok := false;
      OffsetsInBounds(image, i);
      var next := GetAttrNext(mem[..], p, image.attrs[i], image.offs[i + 1]);
      if next.None? { return; }
      var p1 := next.value;
      if p1 - p == |r| {
        image := OverwriteRecord(mem, p, r, image, i, a);
        ok := true;
      } else if p1 - p + mem.Length - attrEnd >= |r| {
        image := SlideRecords(mem, p, p1, attrEnd, r, image, i, a);
        ok := true;
      } else if growOk {
        mem, image := MoveToNewBlock(mem, p, p1, attrEnd, r, image, i, a);
        ok := true;
      }
    }

    /** set_attr for a key that has none. */
    method SetNew(attrEnd: nat, r: seq<byte>, growOk: bool, ghost a: Attr) returns (ok: bool)
      requires image.Valid() && image.bytes == mem[..] && |image.attrs| < 0xFFFF
      requires attrEnd == image.offs[|image.attrs|]
      requires Encodes(r, a) && mem.Length + |r| + 100 < 0x1_0000_0002
      modifies this, mem
      ensures image.Valid() && image.bytes == mem[..] && (mem == old(mem) || fresh(mem))
      ensures
        var room := old(mem).Length - attrEnd;
        && (ok <==> growOk || Size(a) <= room)
        && mem.Length == old(mem).Length + if ok && Size(a) > room then Size(a) + 100 else 0
      ensures !ok ==> image == old(image) && mem == old(mem)
      ensures ok ==> Updated(old(image), Place(old(image.attrs), |old(image.attrs)|, a, false), image)
    {
      ok := false;
      if mem.Length - attrEnd >= |r| {
        image := AppendRecord(mem, attrEnd, r, image, a);
        ok := true;
      } else if growOk {
        mem, image := AppendInNewBlock(mem, attrEnd, r, image, a);
        ok := true;
      }
    }

    /** Bytes a record with this key may take without a new block: the slack, and its present bytes. */
    ghost function Room(key: seq<byte>): int
      requires Valid()
      reads this, mem
    {
      var i := IndexOf(image.attrs, KeyOf, key);
      mem.Length - image.offs[|image.attrs|] + if i < |image.attrs| then Size(image.attrs[i]) else 0
    }

    /** The second half of set_attr, once the record's bytes are built. */
    method StoreRecord(attrEnd: nat, r: seq<byte>, growOk: bool, a: Attr) returns (ok: bool)
      requires Valid() && CString(a.key) && |image.attrs| < 0xFFFF
      requires attrEnd == image.offs[|image.attrs|] && Encodes(r, a) && mem.Length + |r| + 100 < 0x1_0000_0002
      modifies this, mem
      ensures Valid() && (mem == old(mem) || fresh(mem))
      ensures image.tag == old(image.tag) && mem[0] == old(mem[0]) && mem[1] == old(mem[1])
      ensures |image.attrs| <= |old(image.attrs)| + 1
      ensures ok <==> growOk || Size(a) <= old(Room(a.key))
      ensures mem.Length == old(mem).Length + if ok && Size(a) > old(Room(a.key)) then Size(a) + 100 else 0
      ensures Contents() == if ok then old(Contents())[a.key := (a.kind, a.value)] else old(Contents())
    {
      ghost var attrs, i := image.attrs, IndexOf(image.attrs, KeyOf, a.key);
      var found := FindAttr(mem[..], a.key, image);
      if found.Some? {
        ok := SetKnown(found.value, attrEnd, r, growOk, i, a);
      } else {
        ok := SetNew(attrEnd, r, growOk, a);
      }
      ghost var inPlace := i < |attrs| && Size(a) == Size(attrs[i]);
      PlaceKeepsDistinct(attrs, KeyOf, i, a, inPlace);
      PlaceUpdatesMap(attrs, KeyOf, ValueOf, i, a, inPlace);
    }

    /**
     * attr_container_set_attr. bufOk and growOk are the outcomes of its two allocations: the record
     * buffer, and the bigger block when the record does not fit.
     */
    method SetAttr(key: seq<byte>, kind: byte, value: seq<byte>, bufOk: bool, growOk: bool) returns (ok: bool)
      requires Valid() && CString(key) && ValidValue(kind, value) && |image.attrs| < 0xFFFF
      requires mem.Length + Size(Attr(key, kind, value)) + 100 < 0x1_0000_0002
      modifies this, mem
      ensures Valid() && (mem == old(mem) || fresh(mem))
      ensures image.tag == old(image.tag) && mem[0] == old(mem[0]) && mem[1] == old(mem[1])
      ensures |image.attrs| <= |old(image.attrs)| + 1
      ensures
        var size, room := Size(Attr(key, kind, value)), old(Room(key));
        && (ok <==> key != [] && !WriteRefused(old(mem[0])) && bufOk && (growOk || size <= room))
        && mem.Length == old(mem).Length + if ok && size > room then size + 100 else 0
      ensures Contents() == if ok then old(Contents())[key := (kind, value)] else old(Contents())
    {
      ok := false;
      if key != [] && !WriteRefused(mem[0]) {
        var attrEnd := GetAttrEnd(mem[..], image);
        if attrEnd.Some? && bufOk {
          var a := Attr(key, kind, value);
          var attrBuf := BuildRecord(a);
          ok := StoreRecord(attrEnd.value, attrBuf[..], growOk, a);
        }
      }
    }

    /** attr_container_get_as_bytearray: a value's bytes, whatever its type; nothing for an unknown key. */
    method GetAsByteArray(key: seq<byte>) returns (r: Option<seq<byte>>)
      requires Valid() && CString(key)
      ensures r == if key in Contents() then Some(Contents()[key].1) else None
    {
      var m := mem[..];
      var found := FindAttr(m, key, image);
      ghost var i := IndexOf(image.attrs, KeyOf, key);
      if found.None? {
        return None;
      }
      Entry(image.attrs, KeyOf, ValueOf, i);
      r := ReadValue(m, found.value + 2 + |key| + 1, found.value, image.attrs[i], image.offs[i + 1]);
    }

    /** attr_container_serialize: a copy of the block with the read-only bit set. */
    method Serialize(buf: array<byte>) returns (ghost copy: Image)
      requires Valid() && buf != mem && mem.Length <= buf.Length
      modifies buf
      ensures copy.Valid() && copy.bytes == buf[..mem.Length]
      ensures copy.tag == image.tag && copy.attrs == image.attrs && copy.offs == image.offs
      ensures ReadOnly(buf[0]) && WriteRefused(buf[0]) == WriteRefused(mem[0])
      ensures buf[0] as int == Or(mem[0], 4) && buf[1] == mem[1]
      ensures forall k :: mem.Length <= k < buf.Length ==> buf[k] == old(buf[k])
    {
      var length := 2 + GetLE32(mem[..], 2);
      CopyReadOnly(buf, mem[..length]);
      copy := Copy(image, buf[..mem.Length]);
    }
  }

  /**
   * A container is serialised and an attribute is set on the copy, which has the read-only bit. The flags
   * refuse this exactly if bit 1 of the original's flags is set; all else being well the map is updated.
   */
  method SetOnCopy(c: AttrContainer, key: seq<byte>, kind: byte, value: seq<byte>, bufOk: bool, growOk: bool)
    returns (copy: AttrContainer, ok: bool)
    requires c.Valid() && CString(key) && ValidValue(kind, value) && |c.image.attrs| < 0xFFFF
    requires c.mem.Length + Size(Attr(key, kind, value)) + 100 < 0x1_0000_0002
    ensures fresh(copy) && copy.Valid() && ReadOnly(copy.mem[0])
    ensures
      var fits := Size(Attr(key, kind, value)) <= c.Room(key);
      ok <==> key != [] && !WriteRefused(c.mem[0]) && bufOk && (growOk || fits)
    ensures copy.Contents() == if ok then c.Contents()[key := (kind, value)] else c.Contents()
  {
    var buf := new byte[c.mem.Length];
    ghost var image := c.Serialize(buf);
    assert buf[..c.mem.Length] == buf[..];
    copy := new AttrContainer.Open(buf, image);
    ok := copy.SetAttr(key, kind, value, bufOk, growOk);
  }

  /** No container that was created here refuses it: create, set, serialise, and set on the read-only copy. */
  method SetOnFreshCopy(tag: seq<byte>, a: Attr, b: Attr) returns (copy: AttrContainer)
    requires CString(tag) && CString(a.key) && a.key != [] && ValidValue(a.kind, a.value)
    requires CString(b.key) && b.key != [] && ValidValue(b.kind, b.value)
    requires |tag| + 2 * Size(a) + Size(b) + 400 < 0x1_0000_0002
    ensures copy.Valid() && ReadOnly(copy.mem[0])
    ensures copy.Contents() == map[a.key := (a.kind, a.value)][b.key := (b.kind, b.value)]
  {
    var c := new AttrContainer(tag);
    var ok := c.SetAttr(a.key, a.kind, a.value, true, true);
    copy, ok := SetOnCopy(c, b.key, b.kind, b.value, true, true);
  }
}

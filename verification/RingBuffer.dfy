/** The ring buffer of the benchmark driver: a block and two pointers that may rest at its tail. */
module RingBuffers {
  import opened Words

  const BUFF_MAX_LEN := 8192

  /** The block, and the offsets of pValidRead and pValidWrite in it. */
  datatype Ring = Ring(cells: seq<byte>, read: nat, write: nat)

  ghost predicate ValidRing(r: Ring) {
    |r.cells| == BUFF_MAX_LEN && r.read <= BUFF_MAX_LEN && r.write <= BUFF_MAX_LEN
  }

  /** How far cell c lies behind the write pointer. */
  function Behind(r: Ring, c: int): nat
    requires ValidRing(r) && 0 <= c < BUFF_MAX_LEN
  {
    (c + BUFF_MAX_LEN - r.write) % BUFF_MAX_LEN
  }

  function Advanced(p: nat, n: nat): nat {
    if p + n > BUFF_MAX_LEN then p + n - BUFF_MAX_LEN else p + n
  }

  /** The byte that is k bytes ahead of the read pointer. */
  function Ahead(r: Ring, k: nat): byte
    requires ValidRing(r)
  {
    r.cells[(r.read + k) % BUFF_MAX_LEN]
  }

  function Peek(r: Ring, n: nat): (s: seq<byte>)
    requires ValidRing(r)
  {
    seq(n, k requires 0 <= k < n => Ahead(r, k))
  }

  function Written(r: Ring, bytes: seq<byte>): Ring
    requires ValidRing(r) && |bytes| <= BUFF_MAX_LEN
  {
    Ring(seq(BUFF_MAX_LEN, c requires 0 <= c < BUFF_MAX_LEN =>
               if Behind(r, c) < |bytes| then bytes[Behind(r, c)] else r.cells[c]),
         r.read, Advanced(r.write, |bytes|))
  }

  /** The buffer does not know how many bytes are unread; u of them are if the write pointer is u cells ahead. */
  ghost predicate Holds(r: Ring, u: nat) {
    ValidRing(r) && u <= BUFF_MAX_LEN && (r.read + u) % BUFF_MAX_LEN == r.write % BUFF_MAX_LEN
  }

  // ---- First in, first out ----

  /**
   * What is ahead of the reader after a write: the unread bytes and then the new ones, as long as both fit;
   * what does not fit takes the place of the oldest unread bytes.
   */
  lemma WriteAhead(r: Ring, u: nat, bytes: seq<byte>, k: nat)
    requires Holds(r, u) && |bytes| <= BUFF_MAX_LEN && k < BUFF_MAX_LEN
    ensures
      Ahead(Written(r, bytes), k) ==
        if k < u + |bytes| - BUFF_MAX_LEN then bytes[k + BUFF_MAX_LEN - u]
        else if u <= k < u + |bytes| then bytes[k - u]
        else Ahead(r, k)
  {
    var c := (r.read + k) % BUFF_MAX_LEN;
    BehindAhead(r, u, k);
  }

  lemma BehindAhead(r: Ring, u: nat, k: nat)
    requires Holds(r, u) && k < BUFF_MAX_LEN
    ensures Behind(r, (r.read + k) % BUFF_MAX_LEN) ==
      if k >= u then (if k - u < BUFF_MAX_LEN then k - u else 0) else k - u + BUFF_MAX_LEN
  {
  }

  lemma AdvancedHolds(r: Ring, u: nat, bytes: seq<byte>)
    requires Holds(r, u) && u + |bytes| <= BUFF_MAX_LEN
    ensures Holds(Written(r, bytes), u + |bytes|)
  {}

  lemma WriteFits(r: Ring, u: nat, bytes: seq<byte>)
    requires Holds(r, u) && u + |bytes| <= BUFF_MAX_LEN
    ensures ValidRing(Written(r, bytes)) && Peek(Written(r, bytes), u + |bytes|) == Peek(r, u) + bytes
  {
    var next, all := Peek(Written(r, bytes), u + |bytes|), Peek(r, u) + bytes;
    forall k: nat | k < u + |bytes| ensures next[k] == all[k] {
      WriteAhead(r, u, bytes, k);
    }
  }

  /** A write keeps what is unread if and only if it fits, or happens to put the same bytes in their place. */
  lemma WriteKeepsWhen(r: Ring, u: nat, bytes: seq<byte>)
    requires Holds(r, u) && |bytes| <= BUFF_MAX_LEN
    ensures ValidRing(Written(r, bytes))
    ensures Peek(Written(r, bytes), u) == Peek(r, u) <==>
      u + |bytes| <= BUFF_MAX_LEN || bytes[BUFF_MAX_LEN - u..] == Peek(r, u)[..u + |bytes| - BUFF_MAX_LEN]
  {
    forall k: nat | k < u ensures Peek(Written(r, bytes), u)[k] ==
      if k < u + |bytes| - BUFF_MAX_LEN then bytes[k + BUFF_MAX_LEN - u] else Peek(r, u)[k]
    {
      WriteAhead(r, u, bytes, k);
    }
    if u + |bytes| > BUFF_MAX_LEN {
      var lost := u + |bytes| - BUFF_MAX_LEN;
      assert Peek(Written(r, bytes), u)[..lost] == bytes[BUFF_MAX_LEN - u..];
      if bytes[BUFF_MAX_LEN - u..] == Peek(r, u)[..lost] {
        forall k: nat | k < u ensures Peek(Written(r, bytes), u)[k] == Peek(r, u)[k] {
          if k < lost { assert bytes[BUFF_MAX_LEN - u..][k] == Peek(r, u)[..lost][k]; }
        }
      }
    }
  }

  /** The read pointer n bytes on. */
  function Consumed(r: Ring, n: nat): Ring {
    r.(read := Advanced(r.read, n))
  }

  lemma ReadMovesOn(r: Ring, u: nat, n: nat)
    requires Holds(r, u) && n <= u
    ensures Holds(Consumed(r, n), u - n) && Peek(r, u) == Peek(r, n) + Peek(Consumed(r, n), u - n)
  {
    forall k: nat | k < u - n ensures Ahead(Consumed(r, n), k) == Ahead(r, n + k) {}
  }

  /** The pointers go round, and rest at the tail, not at the head, when they come to both. */
  lemma PointersMove(r: Ring, bytes: seq<byte>, n: nat)
    requires ValidRing(r) && |bytes| <= BUFF_MAX_LEN && n <= BUFF_MAX_LEN
    ensures
      var w, c := Written(r, bytes), Consumed(r, n);
      && w.read == r.read && w.write <= 8192 && w.write % 8192 == (r.write + |bytes|) % 8192
      && c.write == r.write && c.cells == r.cells && c.read <= 8192 && c.read % 8192 == (r.read + n) % 8192
      && (w.write == 0 <==> r.write == 0 && bytes == []) && (c.read == 0 <==> r.read == 0 && n == 0)
  {}

  datatype Operation = Write(bytes: seq<byte>) | Read(n: nat)

  /** Writes fit the free space, reads ask for no more than is unread. */
  predicate InBounds(u: nat, ops: seq<Operation>)
    decreases |ops|
  {
    ops == [] ||
    match ops[0]
    case Write(bytes) => u + |bytes| <= BUFF_MAX_LEN && InBounds(u + |bytes|, ops[1..])
    case Read(n) => n <= u && InBounds(u - n, ops[1..])
  }

  /** The buffer after the operations and all bytes read. */
  function Run(r: Ring, u: nat, ops: seq<Operation>): (Ring, seq<byte>)
    requires Holds(r, u) && InBounds(u, ops)
    decreases |ops|
  {
    if ops == [] then (r, [])
    else
      match ops[0]
      case Write(bytes) =>
        AdvancedHolds(r, u, bytes);
        Run(Written(r, bytes), u + |bytes|, ops[1..])
      case Read(n) =>
        ReadMovesOn(r, u, n);
        var (r', out) := Run(Consumed(r, n), u - n, ops[1..]);
        (r', Peek(r, n) + out)
  }

  function AllWritten(ops: seq<Operation>): seq<byte> {
    if ops == [] then []
    else (if ops[0].Write? then ops[0].bytes else []) + AllWritten(ops[1..])
  }

  lemma Associative(a: seq<byte>, b: seq<byte>, c: seq<byte>)
    ensures a + b + c == a + (b + c)
  {}

  /**
   * First in, first out over any run and any number of wraps: what was read and what is left are, in order,
   * what was unread before and everything written.
   */
  lemma {:induction false} FirstInFirstOut(r: Ring, u: nat, ops: seq<Operation>) returns (left: nat)
    requires Holds(r, u) && InBounds(u, ops)
    ensures
      var (r', out) := Run(r, u, ops);
      Holds(r', left) && out + Peek(r', left) == Peek(r, u) + AllWritten(ops)
    decreases |ops|
  {
    hide Peek;
    hide Written;
    hide Advanced;
    if ops == [] {
      left := u;
    } else {
      var rest := AllWritten(ops[1..]);
      match ops[0]
      case Write(bytes) =>
        AdvancedHolds(r, u, bytes);
        WriteFits(r, u, bytes);
        left := FirstInFirstOut(Written(r, bytes), u + |bytes|, ops[1..]);
        Associative(Peek(r, u), bytes, rest);
      case Read(n) =>
        ReadMovesOn(r, u, n);
        left := FirstInFirstOut(Consumed(r, n), u - n, ops[1..]);
        var (r', out) := Run(Consumed(r, n), u - n, ops[1..]);
        Associative(Peek(r, n), out, Peek(r', left));
        Associative(Peek(r, n), Peek(Consumed(r, n), u - n), rest);
        assert [] + rest == rest;
    }
  }

  /** From an empty buffer, the reads are a prefix of the writes. */
  lemma ReadsArePrefix(r: Ring, ops: seq<Operation>)
    requires Holds(r, 0) && InBounds(0, ops)
    ensures Run(r, 0, ops).1 <= AllWritten(ops)
  {
    var left := FirstInFirstOut(r, 0, ops);
    var (r', out) := Run(r, 0, ops);
    assert Peek(r, 0) + AllWritten(ops) == AllWritten(ops);
    assert (out + Peek(r', left))[..|out|] == out;
  }

  // ---- The object ----

  datatype Status = Done(n: nat) | Error

  class RingBuffer {
    const head: array<byte>
    var validRead: nat
    var validWrite: nat

    ghost function Value(): Ring
      reads this, head
    {
      Ring(head[..], validRead, validWrite)
    }

    ghost predicate Valid()
      reads this, head
    {
      ValidRing(Value())
    }

    /** InitRingBuff */
    constructor ()
      ensures Valid() && fresh(head) && Holds(Value(), 0)
    {
      head := new byte[BUFF_MAX_LEN];
      validRead, validWrite := 0, 0;
    }

    /** WriteRingBuff */
    method Write(buff: seq<byte>) returns (s: Status)
      requires Valid()
      modifies this`validWrite, head
      ensures Valid() && (s.Error? <==> |buff| > BUFF_MAX_LEN)
      ensures Value() == if s.Error? then old(Value()) else Written(old(Value()), buff)
    {
      if |buff| > BUFF_MAX_LEN { return Error; }
      ghost var was := Value();
      if validWrite + |buff| > BUFF_MAX_LEN {
        var preLen := BUFF_MAX_LEN - validWrite;
        var lastLen := |buff| - preLen;
        Store(head, validWrite, buff[..preLen]);
        Store(head, 0, buff[preLen..]);
        validWrite := lastLen;
      } else {
        Store(head, validWrite, buff);
        validWrite := validWrite + |buff|;
      }
      var cells, expected := head[..], Written(was, buff).cells;
      forall c | 0 <= c < BUFF_MAX_LEN ensures cells[c] == expected[c] {}
      s := Done(0);
    }

    /** ReadRingBuff: the bytes read and their number. */
    method Read(n: nat) returns (s: Status, buff: seq<byte>)
      requires Valid()
      modifies this`validRead
      ensures Valid() && (s.Error? <==> n > BUFF_MAX_LEN)
      ensures if s.Error? then Value() == old(Value()) && buff == []
              else s.n == n && Value() == Consumed(old(Value()), n) && buff == Peek(old(Value()), n)
    {
      if n > BUFF_MAX_LEN { return Error, []; }
      if n == 0 { return Done(0), []; }
      ghost var was := Value();
      if validRead + n > BUFF_MAX_LEN {
        var preLen := BUFF_MAX_LEN - validRead;
        var lastLen := n - preLen;
        buff := head[validRead..] + head[..lastLen];
        validRead := lastLen;
      } else {
        buff := head[validRead..validRead + n];
        validRead := validRead + n;
      }
      ghost var expected := Peek(was, n);
      forall k | 0 <= k < n ensures buff[k] == expected[k] {}
      s := Done(n);
    }
  }
}

/**
 * The bit-counting intrinsics: loops over a machine word, against the definitions of section 4.3.2 of the
 * WebAssembly Core Specification on the word's bits. The width is 32 or 64 in the runtime; nothing depends on it.
 */
module BitCounts {
  import opened Words

  /** A word of n bits as its bits, the most significant one first. */
  function Bits(v: nat, n: nat): (s: seq<bool>)
    ensures |s| == n
  {
    if n == 0 then [] else Bits(v / 2, n - 1) + [v % 2 == 1]
  }

  // ---- The specification: counting in a list of bits ----

  function Leading(bits: seq<bool>): nat {
    if bits == [] || bits[0] then 0 else 1 + Leading(bits[1..])
  }

  function Trailing(bits: seq<bool>): (k: nat)
    ensures k <= |bits|
  {
    if bits == [] || bits[|bits| - 1] then 0 else 1 + Trailing(bits[..|bits| - 1])
  }

  function Ones(bits: seq<bool>): nat {
    if bits == [] then 0 else Ones(bits[..|bits| - 1]) + if bits[|bits| - 1] then 1 else 0
  }

  // ---- Bitwise and ----

  /** And works bit by bit. */
  lemma {:induction false} AndBits(a: nat, b: nat, n: nat, k: nat)
    requires k < n
    ensures Bits(And(a, b), n)[k] <==> Bits(a, n)[k] && Bits(b, n)[k]
  {
    if a == 0 || b == 0 {
      ZeroBits(n, k);
    } else {
      assert And(a, b) / 2 == And(a / 2, b / 2) && And(a, b) % 2 == if a % 2 == b % 2 == 1 then 1 else 0;
      if k < n - 1 { AndBits(a / 2, b / 2, n - 1, k); }
    }
  }

  /** So does Or. */
  lemma {:induction false} OrBits(a: nat, b: nat, n: nat, k: nat)
    requires k < n
    ensures Bits(Or(a, b), n)[k] <==> Bits(a, n)[k] || Bits(b, n)[k]
  {
    if a == 0 || b == 0 {
      ZeroBits(n, k);
    } else {
      assert Or(a, b) / 2 == Or(a / 2, b / 2) && Or(a, b) % 2 == if a % 2 == b % 2 == 0 then 0 else 1;
      if k < n - 1 { OrBits(a / 2, b / 2, n - 1, k); }
    }
  }

  lemma {:induction false} ZeroBits(n: nat, k: nat)
    requires k < n
    ensures !Bits(0, n)[k]
  {
    if k < n - 1 { ZeroBits(n - 1, k); }
  }

  lemma {:induction false} AndSelf(a: nat)
    ensures And(a, a) == a
  {
    if a > 0 { AndSelf(a / 2); }
  }

  lemma AndHalves(a: nat, b: nat)
    ensures And(a, b) == 2 * And(a / 2, b / 2) + if a % 2 == b % 2 == 1 then 1 else 0
  {}

  /** u & (u - 1), for an odd and for an even word. */
  lemma AndPredecessor(u: nat)
    requires u > 0
    ensures u % 2 == 1 ==> And(u, u - 1) == u - 1
    ensures u % 2 == 0 ==> And(u, u - 1) == 2 * And(u / 2, u / 2 - 1)
  {
    AndHalves(u, u - 1);
    AndSelf(u / 2);
    hide And;
    if u % 2 == 1 {
      assert (u - 1) / 2 == u / 2 && (u - 1) % 2 == 0;
    } else {
      assert (u - 1) / 2 == u / 2 - 1;
    }
  }

  lemma {:induction false} AndShrinks(u: nat)
    requires u > 0
    ensures And(u, u - 1) < u
    decreases u
  {
    AndPredecessor(u);
    if u % 2 == 0 { AndShrinks(u / 2); }
  }

  /** A word's bits are those of its upper half and the last one. */
  lemma LastBit(v: nat, n: nat)
    requires n > 0
    ensures Bits(v, n) == Bits(v / 2, n - 1) + [v % 2 == 1]
    ensures Trailing(Bits(v, n)) == if v % 2 == 1 then 0 else 1 + Trailing(Bits(v / 2, n - 1))
  {
    assert Bits(v, n)[..n - 1] == Bits(v / 2, n - 1);
  }

  /** A word that is not zero has a bit set. */
  lemma {:induction false} SomeBit(u: nat, n: nat)
    requires 0 < u < Pow2(n)
    ensures Trailing(Bits(u, n)) < n
    decreases n
  {
    LastBit(u, n);
    hide Bits;
    hide Trailing;
    if u % 2 == 0 { SomeBit(u / 2, n - 1); }
  }

  /** u & (u - 1) clears the lowest set bit and no other. */
  lemma {:induction false} LowestCleared(u: nat, n: nat)
    requires 0 < u < Pow2(n)
    ensures Trailing(Bits(u, n)) < n
    ensures Bits(And(u, u - 1), n) == Bits(u, n)[n - 1 - Trailing(Bits(u, n)) := false]
    decreases n
  {
    hide And;
    hide Bits;
    hide Trailing;
    SomeBit(u, n);
    AndPredecessor(u);
    LastBit(u, n);
    LastBit(And(u, u - 1), n);
    var bits := Bits(u / 2, n - 1);
    if u % 2 == 1 {
      assert (u - 1) / 2 == u / 2;
      assert (bits + [true])[n - 1 := false] == bits + [false];
    } else {
      LowestCleared(u / 2, n - 1);
      ClearedInFront(bits, n - 2 - Trailing(bits));
    }
  }

  lemma ClearedInFront(bits: seq<bool>, k: nat)
    requires k < |bits|
    ensures (bits + [false])[k := false] == bits[k := false] + [false]
  {}

  lemma {:induction false} OneLess(bits: seq<bool>, k: nat)
    requires k < |bits| && bits[k]
    ensures Ones(bits[k := false]) == Ones(bits) - 1
    decreases |bits|
  {
    var n := |bits| - 1;
    if k < n {
      OneLess(bits[..n], k);
      assert bits[k := false][..n] == bits[..n][k := false];
    } else {
      assert bits[k := false][..n] == bits[..n];
    }
  }

  lemma {:induction false} LowestIsSet(bits: seq<bool>)
    requires Trailing(bits) < |bits|
    ensures bits[|bits| - 1 - Trailing(bits)]
    decreases |bits|
  {
    if !bits[|bits| - 1] { LowestIsSet(bits[..|bits| - 1]); }
  }

  lemma {:induction false} OnesOfZero(n: nat)
    ensures Ones(Bits(0, n)) == 0
  {
    if n > 0 {
      OnesOfZero(n - 1);
      assert Bits(0, n)[..n - 1] == Bits(0, n - 1);
    }
  }

  // ---- Shifts ----

  lemma {:induction false} TopBit(v: nat, n: nat)
    requires 0 < n && v < Pow2(n)
    ensures Bits(v, n)[0] <==> v >= Pow2(n - 1)
  {
    if n > 1 { TopBit(v / 2, n - 1); }
  }

  /** v << 1 in n bits. */
  function ShiftedLeft(v: nat, n: nat): nat
    requires 0 < n && v < Pow2(n)
  {
    if v >= Pow2(n - 1) then 2 * v - Pow2(n) else 2 * v
  }

  /** Shifting left drops the top bit. */
  lemma ShiftLeft(v: nat, n: nat)
    requires 0 < n && v < Pow2(n)
    ensures ShiftedLeft(v, n) < Pow2(n) && Bits(ShiftedLeft(v, n), n) == Bits(v, n)[1..] + [false]
  {
    DropTop(v, n);
  }

  lemma {:induction false} DropTop(v: nat, n: nat)
    requires 0 < n && v < Pow2(n)
    ensures
      var w := if v >= Pow2(n - 1) then v - Pow2(n - 1) else v;
      w < Pow2(n - 1) && Bits(w, n - 1) == Bits(v, n)[1..]
  {
    var w := if v >= Pow2(n - 1) then v - Pow2(n - 1) else v;
    if n > 1 {
      DropTop(v / 2, n - 1);
      assert Bits(v, n)[1..] == Bits(v / 2, n - 1)[1..] + [v % 2 == 1];
      assert Pow2(n - 1) == 2 * Pow2(n - 2);
    }
  }

  /** Shifting right drops the last bit. */
  lemma {:induction false} ShiftRight(v: nat, n: nat)
    requires 0 < n && v < Pow2(n)
    ensures Bits(v / 2, n) == [false] + Bits(v, n)[..n - 1]
  {
    TopBit(v / 2, n);
    DropTop(v / 2, n);
    assert Bits(v / 2, n) == [Bits(v / 2, n)[0]] + Bits(v / 2, n)[1..];
  }

  lemma {:induction false} LeadingMoves(bits: seq<bool>)
    requires bits != [] && !bits[0] && true in bits
    ensures Leading(bits) == 1 + Leading(bits[1..] + [false])
  {
    EndsMatterNot(bits[1..]);
  }

  /** A bit behind the first one that is set does not count. */
  lemma {:induction false} EndsMatterNot(bits: seq<bool>)
    requires true in bits
    ensures Leading(bits + [false]) == Leading(bits)
    decreases |bits|
  {
    if !bits[0] {
      assert (bits + [false])[1..] == bits[1..] + [false];
      EndsMatterNot(bits[1..]);
    }
  }

  lemma {:induction false} BeginningsMatterNot(bits: seq<bool>)
    requires true in bits
    ensures Trailing([false] + bits) == Trailing(bits)
    decreases |bits|
  {
    var n := |bits| - 1;
    if !bits[n] {
      assert ([false] + bits)[..n + 1] == [false] + bits[..n];
      BeginningsMatterNot(bits[..n]);
    }
  }

  lemma {:induction false} NotZero(v: nat, n: nat)
    requires 0 < v < Pow2(n)
    ensures true in Bits(v, n)
  {
    SomeBit(v, n);
    LowestIsSet(Bits(v, n));
  }

  lemma {:induction false} AllZeros(bits: seq<bool>)
    requires true !in bits
    ensures Leading(bits) == Trailing(bits) == |bits|
    decreases |bits|
  {
    if bits != [] {
      AllZeros(bits[1..]);
      AllZeros(bits[..|bits| - 1]);
    }
  }

  lemma ZeroWord(n: nat)
    ensures Leading(Bits(0, n)) == Trailing(Bits(0, n)) == n
  {
    forall k: nat | k < n ensures !Bits(0, n)[k] { ZeroBits(n, k); }
    AllZeros(Bits(0, n));
  }

  // ---- The counts in numbers ----

  /** The number of leading zeros is that of the powers of two the word stays below. */
  lemma {:induction false} LeadingIs(v: nat, n: nat)
    requires 0 < v < Pow2(n)
    ensures Leading(Bits(v, n)) < n
    ensures Pow2(n - 1 - Leading(Bits(v, n))) <= v < Pow2(n - Leading(Bits(v, n)))
    decreases n
  {
    TopBit(v, n);
    if v < Pow2(n - 1) {
      DropTop(v, n);
      LeadingIs(v, n - 1);
    }
  }

  /** The number of trailing zeros is that of the factors two in the word: the rest q of it is odd. */
  lemma {:induction false} TrailingIs(v: nat, n: nat) returns (q: nat)
    requires 0 < v < Pow2(n)
    ensures q % 2 == 1 && v == Pow2(Trailing(Bits(v, n))) * q
    decreases n
  {
    LastBit(v, n);
    hide Bits;
    hide Trailing;
    if v % 2 == 1 {
      q := v;
    } else {
      q := TrailingIs(v / 2, n - 1);
      DoublePower(Trailing(Bits(v / 2, n - 1)), q);
      hide Pow2;
    }
  }

  lemma DoublePower(t: nat, q: nat)
    ensures Pow2(1 + t) * q == 2 * (Pow2(t) * q)
  {}

  // ---- The loops ----

  /** aot_intrinsic_clz_i32 and aot_intrinsic_clz_i64 */
  method Clz(word: nat, n: nat) returns (num: nat)
    requires 0 < n && word < Pow2(n)
    ensures num == Leading(Bits(word, n))
  {
    num := 0;
    if word == 0 {
      ZeroWord(n);
      return n;
    }
    var w := word;
    TopBit(w, n);
    NotZero(w, n);
    while w < Pow2(n - 1)
      invariant 0 < w < Pow2(n) && true in Bits(w, n)
      invariant Bits(w, n)[0] <==> w >= Pow2(n - 1)
      invariant Leading(Bits(word, n)) == num + Leading(Bits(w, n))
      decreases Pow2(n) - w
    {
      LeadingMoves(Bits(w, n));
      ShiftLeft(w, n);
      num := num + 1;
      w := ShiftedLeft(w, n);
      TopBit(w, n);
      NotZero(w, n);
    }
  }

  /** aot_intrinsic_ctz_i32 and aot_intrinsic_ctz_i64 */
  method Ctz(word: nat, n: nat) returns (num: nat)
    requires 0 < n && word < Pow2(n)
    ensures num == Trailing(Bits(word, n))
  {
    num := 0;
    if word == 0 {
      ZeroWord(n);
      return n;
    }
    var w := word;
    while w % 2 == 0
      invariant 0 < w < Pow2(n)
      invariant Trailing(Bits(word, n)) == num + Trailing(Bits(w, n))
      decreases w
    {
      TrailingMoves(w, n);
      num := num + 1;
      w := w / 2;
    }
  }

  lemma {:induction false} TrailingMoves(w: nat, n: nat)
    requires 0 < n && 0 < w < Pow2(n) && w % 2 == 0
    ensures Trailing(Bits(w, n)) == 1 + Trailing(Bits(w / 2, n))
  {
    var rest := Bits(w, n)[..n - 1];
    assert rest == Bits(w / 2, n - 1);
    NotZero(w / 2, n - 1);
    ShiftRight(w, n);
    BeginningsMatterNot(rest);
  }

  /** aot_intrinsic_popcnt_i32 and aot_intrinsic_popcnt_i64 */
  method Popcnt(word: nat, n: nat) returns (ret: nat)
    requires word < Pow2(n)
    ensures ret == Ones(Bits(word, n))
  {
    hide And;
    hide Ones;
    hide Bits;
    var u: nat := word;
    ret := 0;
    while u != 0
      invariant u < Pow2(n)
      decreases u
      invariant Ones(Bits(word, n)) == ret + Ones(Bits(u, n))
    {
      OneCleared(u, n);
      u := And(u, u - 1);
      ret := ret + 1;
    }
    OnesOfZero(n);
  }

  lemma OneCleared(u: nat, n: nat)
    requires 0 < u < Pow2(n)
    ensures And(u, u - 1) < u && Ones(Bits(And(u, u - 1), n)) == Ones(Bits(u, n)) - 1
  {
    AndShrinks(u);
    LowestCleared(u, n);
    LowestIsSet(Bits(u, n));
    OneLess(Bits(u, n), n - 1 - Trailing(Bits(u, n)));
  }
}

/** The loader's check of a symbol table: records of a 16-bit length and a string, each starting at an even offset. */
module SymbolTables {
  import opened Words

  /** The least even number that is not below n. */
  function Align2(n: nat): (r: nat)
    ensures r % 2 == 0 && n <= r < n + 2
  {
    (n + 1) / 2 * 2
  }

  /** What a record takes up that starts at an offset. */
  function RecordSize(buf: seq<byte>, at: nat): nat
    requires at + 2 <= |buf|
  {
    Align2(2 + GetLE16(buf, at))
  }

  /** The end of record i: the next record's offset, or the table's end. */
  function RecordEnd(buf: seq<byte>, offsets: seq<uint32>, i: nat): nat
    requires i < |offsets|
  {
    if i + 1 < |offsets| then offsets[i + 1] else |buf|
  }

  ghost predicate RecordFits(buf: seq<byte>, offsets: seq<uint32>, i: nat)
    requires i < |offsets|
  {
    && offsets[i] + 2 <= |buf|
    && offsets[i] + RecordSize(buf, offsets[i]) == RecordEnd(buf, offsets, i)
  }

  /** The records lie one behind the other at the given offsets, from the table's start to its end. */
  ghost predicate Covers(buf: seq<byte>, offsets: seq<uint32>) {
    && (if offsets == [] then buf == [] else offsets[0] == 0)
    && forall i :: 0 <= i < |offsets| ==> RecordFits(buf, offsets, i)
  }

  lemma WrapPlus(p: nat, n: nat)
    ensures Wrap32(Wrap32(p) + n) == Wrap32(p + n)
  {}

  lemma WrapAlign(p: nat)
    ensures Wrap32(Align2(Wrap32(p))) == Wrap32(Align2(p))
  {}

  lemma AlignPlus(p: nat, n: nat)
    requires p % 2 == 0
    ensures Align2(p + n) == p + Align2(n) && Align2(p + n) % 2 == 0
  {}

  lemma OffsetStep(p: nat, n: nat)
    ensures Wrap32(Align2(Wrap32(Wrap32(p) + n))) == Wrap32(Align2(p + n))
  {
    WrapPlus(p, n);
    WrapAlign(p + n);
    hide Wrap32;
    hide Align2;
  }

  /** In a covered table the cursor is on the next offset, with room for a length. */
  lemma OnNext(buf: seq<byte>, offsets: seq<uint32>, i: nat, p: nat)
    requires |buf| <= UINT32_MAX && i < |offsets| && Covers(buf, offsets) && (i == 0 ==> p == 0)
    requires i > 0 ==> offsets[i - 1] + 2 <= |buf| && p == offsets[i - 1] + RecordSize(buf, offsets[i - 1])
    ensures offsets[i] == Wrap32(p) && p + 2 <= |buf|
  {
    assert RecordFits(buf, offsets, i);
    if i > 0 { assert RecordFits(buf, offsets, i - 1); }
  }

  /**
   * validate_symbol_table: a table is accepted if and only if its records cover it, although a record that
   * runs past the end is only noticed by the next read, or by the comparison at the end. The offset sum has
   * 32 bits.
   */
  method ValidateSymbolTable(buf: seq<byte>, offsets: seq<uint32>) returns (ok: bool)
    requires |buf| <= UINT32_MAX
    ensures ok <==> Covers(buf, offsets)
  {
    WrapSmall(0);
    hide Wrap32;
    hide Align2;
    var p: nat, strLenAddr: uint32 := 0, 0;
    for i := 0 to |offsets|
      invariant p % 2 == 0 && strLenAddr == Wrap32(p)
      invariant i == 0 ==> p == 0
      invariant forall k :: 0 <= k < i - 1 ==> RecordFits(buf, offsets, k)
      invariant i > 0 ==> offsets[0] == 0 && offsets[i - 1] + 2 <= |buf|
      invariant i > 0 ==> p == offsets[i - 1] + RecordSize(buf, offsets[i - 1])
    {
      if offsets[i] != strLenAddr || p + 2 > |buf| {
        if Covers(buf, offsets) { OnNext(buf, offsets, i, p); }
        return false;
      }
      WrapSmall(p);
      var strLen: int := GetLE16(buf, p);
      OffsetStep(p, 2 + strLen);
      AlignPlus(p, 2 + strLen);
      strLenAddr := Wrap32(Align2(Wrap32(strLenAddr + (2 + strLen))));
      p := Align2(p + (2 + strLen));
    }
    if |offsets| > 0 { assert RecordFits(buf, offsets, |offsets| - 1) <==> p == |buf|; }
    ok := p == |buf|;
  }

  /** The length of the string of a record. */
  function NameLength(buf: seq<byte>, at: nat): uint16 {
    if at + 2 <= |buf| then GetLE16(buf, at) else 0
  }

  /** A record starts right behind the one before it, at the least even offset, and the last ends the table there. */
  lemma NextRecord(buf: seq<byte>, offsets: seq<uint32>, i: nat)
    requires Covers(buf, offsets) && i < |offsets|
    ensures offsets[0] == 0 && offsets[i] + 2 <= |buf|
    ensures
      var length: nat := buf[offsets[i]] as int + 0x100 * buf[offsets[i] + 1] as int;
      var next := if i + 1 < |offsets| then offsets[i + 1] as int else |buf|;
      next % 2 == 0 && offsets[i] + 2 + length <= next < offsets[i] + 2 + length + 2
  {
    EvenOffset(buf, offsets, i);
    assert RecordFits(buf, offsets, i);
  }

  /** In an accepted table every record starts at an even offset, ends before any later one starts, and lies inside. */
  lemma {:induction false} RecordsInOrder(buf: seq<byte>, offsets: seq<uint32>, i: nat, j: nat)
    requires Covers(buf, offsets) && i <= j < |offsets|
    ensures offsets[i] % 2 == 0 && offsets[i] + 2 + NameLength(buf, offsets[i]) <= |buf|
    ensures i < j ==> offsets[i] + 2 + NameLength(buf, offsets[i]) <= offsets[j]
    ensures RecordEnd(buf, offsets, i) <= RecordEnd(buf, offsets, j) <= |buf|
    decreases j + (|offsets| - i)
  {
    EvenOffset(buf, offsets, i);
    assert RecordFits(buf, offsets, i) && RecordFits(buf, offsets, j);
    if i < j {
      RecordsInOrder(buf, offsets, i + 1, j);
    } else if j + 1 < |offsets| {
      EndsInside(buf, offsets, j);
    }
  }

  lemma {:induction false} EvenOffset(buf: seq<byte>, offsets: seq<uint32>, i: nat)
    requires Covers(buf, offsets) && i < |offsets|
    ensures offsets[i] % 2 == 0
  {
    if i > 0 {
      assert RecordFits(buf, offsets, i - 1);
      EvenOffset(buf, offsets, i - 1);
    }
  }

  lemma {:induction false} EndsInside(buf: seq<byte>, offsets: seq<uint32>, i: nat)
    requires Covers(buf, offsets) && i < |offsets|
    ensures RecordEnd(buf, offsets, i) <= |buf|
    decreases |offsets| - i
  {
    if i + 1 < |offsets| {
      assert RecordFits(buf, offsets, i + 1);
      EndsInside(buf, offsets, i + 1);
    }
  }

  lemma {:induction false} SameOffset(buf: seq<byte>, offsets: seq<uint32>, others: seq<uint32>, i: nat)
    requires Covers(buf, offsets) && Covers(buf, others) && i < |offsets| && i < |others|
    ensures offsets[i] == others[i]
  {
    if i > 0 {
      assert RecordFits(buf, offsets, i - 1) && RecordFits(buf, others, i - 1);
      SameOffset(buf, offsets, others, i - 1);
    }
  }

  /** A table leaves no choice: at most one list of offsets is accepted for it, the sums of its aligned records. */
  lemma OffsetsUnique(buf: seq<byte>, offsets: seq<uint32>, others: seq<uint32>)
    requires Covers(buf, offsets) && Covers(buf, others)
    ensures offsets == others
  {
    forall i: nat | i < |offsets| && i < |others| ensures offsets[i] == others[i] {
      SameOffset(buf, offsets, others, i);
    }
    NotShorter(buf, offsets, others);
    NotShorter(buf, others, offsets);
  }

  lemma NotShorter(buf: seq<byte>, offsets: seq<uint32>, others: seq<uint32>)
    requires Covers(buf, offsets) && Covers(buf, others)
    ensures |offsets| >= |others|
  {
    var n := |offsets|;
    if n < |others| {
      assert RecordFits(buf, others, n);
      if n > 0 {
        assert RecordFits(buf, offsets, n - 1) && RecordFits(buf, others, n - 1);
        SameOffset(buf, offsets, others, n - 1);
      }
      assert false;
    }
  }
}

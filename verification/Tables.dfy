/** Tables with slots reserved at instantiation: growth within the slots, and copying. */
module Tables {
  import opened Words

  const FAILED: uint32 := UINT32_MAX

  /** The entries a table has now, and how many it can have. */
  datatype Table = Table(entries: seq<uint32>, slots: nat)

  /** All tables of an instance lie in one block of less than 4 GiB - 1, so no table reaches this size. */
  ghost predicate ValidTable(t: Table) {
    |t.entries| <= t.slots && 4 * t.slots < UINT32_MAX
  }

  /** Entries from d on replaced by others. */
  function Overwritten(entries: seq<uint32>, d: nat, others: seq<uint32>): (r: seq<uint32>)
    requires d + |others| <= |entries|
    ensures |r| == |entries|
    ensures forall k :: 0 <= k < |r| ==> r[k] == if d <= k < d + |others| then others[k - d] else entries[k]
  {
    entries[..d] + others + entries[d + |others|..]
  }

  lemma OverwrittenInFront(entries: seq<uint32>, n: nat, d: nat, others: seq<uint32>)
    requires d + |others| <= n <= |entries|
    ensures Overwritten(entries, d, others)[..n] == Overwritten(entries[..n], d, others)
  {}

  // ---- Operations on the tables of an instance ----

  /** Growth: the old size, or FAILED and nothing changed. */
  function Grown(t: Table, inc: uint32, value: uint32): (Table, uint32)
    requires ValidTable(t)
  {
    if |t.entries| + inc > t.slots then (t, FAILED)
    else (t.(entries := t.entries + seq(inc, _ => value)), |t.entries|)
  }

  /** Copying from a snapshot; the flag says whether the ranges were in bounds. */
  function Copied(tables: seq<Table>, x: nat, y: nat, d: uint32, s: uint32, n: uint32): (seq<Table>, bool)
    requires x < |tables| && y < |tables|
  {
    if d + n > |tables[x].entries| || s + n > |tables[y].entries| then (tables, false)
    else (tables[x := tables[x].(entries := Overwritten(tables[x].entries, d, tables[y].entries[s..s + n]))], true)
  }

  datatype Operation = Grow(x: nat, inc: uint32, value: uint32) | Copy(x: nat, y: nat, d: uint32, s: uint32, n: uint32)

  predicate Names(op: Operation, count: nat) {
    op.x < count && (op.Copy? ==> op.y < count)
  }

  function After(tables: seq<Table>, op: Operation): seq<Table>
    requires Names(op, |tables|) && forall t <- tables :: ValidTable(t)
  {
    match op
    case Grow(x, inc, value) => tables[x := Grown(tables[x], inc, value).0]
    case Copy(x, y, d, s, n) => Copied(tables, x, y, d, s, n).0
  }

  /** No table shrinks, changes its slots or outgrows them. */
  ghost predicate Kept(before: seq<Table>, after: seq<Table>) {
    && |after| == |before|
    && forall i :: 0 <= i < |before| ==>
         ValidTable(after[i]) && after[i].slots == before[i].slots && |before[i].entries| <= |after[i].entries|
  }

  lemma OperationKeeps(tables: seq<Table>, op: Operation)
    requires Names(op, |tables|) && forall t <- tables :: ValidTable(t)
    ensures Kept(tables, After(tables, op)) && forall t <- After(tables, op) :: ValidTable(t)
  {
    var after := After(tables, op);
    forall i | 0 <= i < |tables|
      ensures ValidTable(after[i]) && after[i].slots == tables[i].slots && |tables[i].entries| <= |after[i].entries|
    {
      assert ValidTable(tables[i]);
    }
  }

  function Run(tables: seq<Table>, ops: seq<Operation>): (after: seq<Table>)
    requires (forall t <- tables :: ValidTable(t)) && forall op <- ops :: Names(op, |tables|)
    ensures |after| == |tables| && forall t <- after :: ValidTable(t)
    decreases |ops|
  {
    if ops == [] then tables
    else
      OperationKeeps(tables, ops[0]);
      Run(After(tables, ops[0]), ops[1..])
  }

  /** Over any run of growing and copying. */
  lemma {:induction false} RunKeeps(tables: seq<Table>, ops: seq<Operation>)
    requires (forall t <- tables :: ValidTable(t)) && forall op <- ops :: Names(op, |tables|)
    ensures Kept(tables, Run(tables, ops))
    decreases |ops|
  {
    if ops == [] {
      assert forall i :: 0 <= i < |tables| ==> ValidTable(tables[i]);
    } else {
      OperationKeeps(tables, ops[0]);
      RunKeeps(After(tables, ops[0]), ops[1..]);
    }
  }

  /** Entry k of table i is one that a copy is to overwrite. */
  predicate Targets(op: Operation, i: nat, k: nat) {
    op.Copy? && op.x == i && op.d <= k < op.d + op.n
  }

  lemma EntryStays(tables: seq<Table>, op: Operation, i: nat, k: nat)
    requires Names(op, |tables|) && (forall t <- tables :: ValidTable(t))
    requires i < |tables| && k < |tables[i].entries| && !Targets(op, i, k)
    ensures |After(tables, op)| == |tables| && k < |After(tables, op)[i].entries|
    ensures After(tables, op)[i].entries[k] == tables[i].entries[k]
  {}

  /** Over any run, an entry that no copy targets keeps its value, however much its table grows. */
  lemma {:induction false} RunKeepsEntry(tables: seq<Table>, ops: seq<Operation>, i: nat, k: nat)
    requires (forall t <- tables :: ValidTable(t)) && forall op <- ops :: Names(op, |tables|)
    requires i < |tables| && k < |tables[i].entries| && forall op <- ops :: !Targets(op, i, k)
    ensures |Run(tables, ops)| == |tables| && k < |Run(tables, ops)[i].entries|
    ensures Run(tables, ops)[i].entries[k] == tables[i].entries[k]
    decreases |ops|
  {
    if ops != [] {
      OperationKeeps(tables, ops[0]);
      EntryStays(tables, ops[0], i, k);
      hide After;
      RunKeepsEntry(After(tables, ops[0]), ops[1..], i, k);
    }
  }

  /** Growth within the slots: the old size is returned, old entries stay, and the value is in every new one. */
  lemma GrowsWhen(t: Table, inc: uint32, value: uint32)
    requires ValidTable(t)
    ensures
      var (t', r) := Grown(t, inc, value);
      var n := |t.entries|;
      && t'.slots == t.slots
      && if n + inc <= t.slots then
           && r as int == n && |t'.entries| == n + inc
           && forall k :: 0 <= k < n + inc ==> t'.entries[k] == if k < n then t.entries[k] else value
         else r == 0xFFFF_FFFF && t' == t
  {}

  lemma {:induction false} RunAppend(tables: seq<Table>, xs: seq<Operation>, ys: seq<Operation>)
    requires (forall t <- tables :: ValidTable(t)) && forall op <- xs + ys :: Names(op, |tables|)
    ensures (forall op <- xs :: Names(op, |tables|)) && forall op <- ys :: Names(op, |tables|)
    ensures Run(tables, xs + ys) == Run(Run(tables, xs), ys)
    decreases |xs|
  {
    assert forall op <- xs :: op in xs + ys;
    assert forall op <- ys :: op in xs + ys;
    if xs == [] {
      assert xs + ys == ys;
    } else {
      assert (xs + ys)[0] == xs[0] && (xs + ys)[1..] == xs[1..] + ys;
      OperationKeeps(tables, xs[0]);
      hide After;
      RunAppend(After(tables, xs[0]), xs[1..], ys);
    }
  }

  /** Over any run, an entry that growth has added reads the value it was given until a copy targets it. */
  lemma RunReadsGrown(tables: seq<Table>, xs: seq<Operation>, x: nat, inc: uint32, value: uint32,
                      ys: seq<Operation>, k: nat)
    requires forall t <- tables :: ValidTable(t)
    requires x < |tables| && forall op <- xs + [Grow(x, inc, value)] + ys :: Names(op, |tables|)
    requires forall op <- ys :: !Targets(op, x, k)
    ensures forall op <- xs :: Names(op, |tables|)
    ensures
      var before, after := Run(tables, xs)[x], Run(tables, xs + [Grow(x, inc, value)] + ys)[x];
      |before.entries| <= k < |before.entries| + inc <= before.slots ==>
        k < |after.entries| && after.entries[k] == value
  {
    var op := Grow(x, inc, value);
    RunAppend(tables, xs + [op], ys);
    RunAppend(tables, xs, [op]);
    var mid := Run(tables, xs);
    assert mid[x] in mid;
    assert [op][1..] == [];
    assert Run(mid, [op]) == After(mid, op);
    GrowsWhen(mid[x], inc, value);
    if |mid[x].entries| <= k < |mid[x].entries| + inc <= mid[x].slots {
      RunKeepsEntry(After(mid, op), ys, x, k);
    }
  }

  // ---- table.copy of the WebAssembly specification ----

  /**
   * table.copy as section 4.4.6 of the WebAssembly Core Specification 2.0 reduces it: one entry at a time,
   * from the front if the destination is not behind the source, else from the back.
   */
  function SpecCopy(tables: seq<seq<uint32>>, x: nat, y: nat, d: nat, s: nat, n: nat): seq<seq<uint32>>
    requires x < |tables| && y < |tables| && d + n <= |tables[x]| && s + n <= |tables[y]|
    decreases n
  {
    if n == 0 then tables
    else if d <= s then SpecCopy(tables[x := tables[x][d := tables[y][s]]], x, y, d + 1, s + 1, n - 1)
    else SpecCopy(tables[x := tables[x][d + n - 1 := tables[y][s + n - 1]]], x, y, d, s, n - 1)
  }

  /** The first entry copied, the rest still to do; same: the table is copied into itself. */
  lemma FrontFirst(a: seq<uint32>, b: seq<uint32>, same: bool, d: nat, s: nat, n: nat)
    requires 0 < n && d + n <= |a| && s + n <= |b| && d <= s && (same ==> a == b)
    ensures
      var a1 := a[d := b[s]];
      var b1 := if same then a1 else b;
      Overwritten(a1, d + 1, b1[s + 1..s + n]) == Overwritten(a, d, b[s..s + n])
  {
    var a1 := a[d := b[s]];
    var b1 := if same then a1 else b;
    assert b1[s + 1..s + n] == b[s + 1..s + n];
    assert b[s..s + n] == [b[s]] + b[s + 1..s + n];
  }

  /** The last entry copied. */
  lemma BackFirst(a: seq<uint32>, b: seq<uint32>, same: bool, d: nat, s: nat, n: nat)
    requires 0 < n && d + n <= |a| && s + n <= |b| && d > s && (same ==> a == b)
    ensures
      var a1 := a[d + n - 1 := b[s + n - 1]];
      var b1 := if same then a1 else b;
      Overwritten(a1, d, b1[s..s + n - 1]) == Overwritten(a, d, b[s..s + n])
  {
    var a1 := a[d + n - 1 := b[s + n - 1]];
    var b1 := if same then a1 else b;
    assert b1[s..s + n - 1] == b[s..s + n - 1];
    assert b[s..s + n] == b[s..s + n - 1] + [b[s + n - 1]];
  }

  lemma UpdateTwice<T>(tables: seq<T>, x: nat, a: T, b: T)
    requires x < |tables|
    ensures tables[x := a][x := b] == tables[x := b]
  {}

  /** The result of copying from a snapshot. */
  function SnapshotCopy(tables: seq<seq<uint32>>, x: nat, y: nat, d: nat, s: nat, n: nat): seq<seq<uint32>>
    requires x < |tables| && y < |tables| && d + n <= |tables[x]| && s + n <= |tables[y]|
  {
    tables[x := Overwritten(tables[x], d, tables[y][s..s + n])]
  }

  lemma SnapshotFront(tables: seq<seq<uint32>>, x: nat, y: nat, d: nat, s: nat, n: nat)
    requires x < |tables| && y < |tables| && d + n <= |tables[x]| && s + n <= |tables[y]| && 0 < n && d <= s
    ensures SnapshotCopy(tables[x := tables[x][d := tables[y][s]]], x, y, d + 1, s + 1, n - 1)
         == SnapshotCopy(tables, x, y, d, s, n)
  {
    var a1 := tables[x][d := tables[y][s]];
    FrontFirst(tables[x], tables[y], x == y, d, s, n);
    UpdateTwice(tables, x, a1, Overwritten(tables[x], d, tables[y][s..s + n]));
  }

  lemma SnapshotBack(tables: seq<seq<uint32>>, x: nat, y: nat, d: nat, s: nat, n: nat)
    requires x < |tables| && y < |tables| && d + n <= |tables[x]| && s + n <= |tables[y]| && 0 < n && d > s
    ensures SnapshotCopy(tables[x := tables[x][d + n - 1 := tables[y][s + n - 1]]], x, y, d, s, n - 1)
         == SnapshotCopy(tables, x, y, d, s, n)
  {
    var a1 := tables[x][d + n - 1 := tables[y][s + n - 1]];
    BackFirst(tables[x], tables[y], x == y, d, s, n);
    UpdateTwice(tables, x, a1, Overwritten(tables[x], d, tables[y][s..s + n]));
  }

  lemma SnapshotNone(tables: seq<seq<uint32>>, x: nat, y: nat, d: nat, s: nat)
    requires x < |tables| && y < |tables| && d <= |tables[x]| && s <= |tables[y]|
    ensures SnapshotCopy(tables, x, y, d, s, 0) == tables
  {
    assert Overwritten(tables[x], d, tables[y][s..s]) == tables[x];
  }

  /** Entry by entry or from a snapshot, it is the same, whether or not the ranges overlap. */
  lemma {:induction false} SpecCopyIsSnapshot(tables: seq<seq<uint32>>, x: nat, y: nat, d: nat, s: nat, n: nat)
    requires x < |tables| && y < |tables| && d + n <= |tables[x]| && s + n <= |tables[y]|
    ensures SpecCopy(tables, x, y, d, s, n) == SnapshotCopy(tables, x, y, d, s, n)
    decreases n
  {
    hide SnapshotCopy;
    if n == 0 {
      SnapshotNone(tables, x, y, d, s);
    } else if d <= s {
      SnapshotFront(tables, x, y, d, s, n);
      SpecCopyIsSnapshot(tables[x := tables[x][d := tables[y][s]]], x, y, d + 1, s + 1, n - 1);
    } else {
      SnapshotBack(tables, x, y, d, s, n);
      SpecCopyIsSnapshot(tables[x := tables[x][d + n - 1 := tables[y][s + n - 1]]], x, y, d, s, n - 1);
    }
  }

  function Lists(tables: seq<Table>): (lists: seq<seq<uint32>>)
    ensures |lists| == |tables| && forall i :: 0 <= i < |tables| ==> lists[i] == tables[i].entries
  {
    if tables == [] then [] else [tables[0].entries] + Lists(tables[1..])
  }

  /** Copying traps exactly when the specification does, and otherwise does what it says. */
  lemma CopyAsSpecified(tables: seq<Table>, x: nat, y: nat, d: uint32, s: uint32, n: uint32)
    requires x < |tables| && y < |tables|
    ensures
      var lists := Lists(tables);
      var (after, ok) := Copied(tables, x, y, d, s, n);
      && (ok <==> d + n <= |lists[x]| && s + n <= |lists[y]|)
      && if ok then Lists(after) == SpecCopy(lists, x, y, d, s, n) else after == tables
  {
    var lists := Lists(tables);
    var (after, ok) := Copied(tables, x, y, d, s, n);
    if ok {
      SpecCopyIsSnapshot(lists, x, y, d, s, n);
      assert Lists(after) == SnapshotCopy(lists, x, y, d, s, n);
    }
  }

  // ---- The object ----

  /** A table's declaration. */
  datatype TableType = TableType(init: uint32, max: uint32, possibleGrow: bool)

  function DataSlots(t: TableType): uint32 {
    if t.possibleGrow then t.max else t.init
  }

  class TableInstance {
    const elems: array<uint32>
    var curSize: uint32

    ghost function Value(): Table
      requires curSize <= elems.Length
      reads this, elems
    {
      Table(elems[..curSize], elems.Length)
    }

    ghost predicate Valid()
      reads this, elems
    {
      curSize <= elems.Length && ValidTable(Value())
    }

    /** The part of tables_instantiate for one table: all slots marked uninitialised. */
    constructor (t: TableType)
      requires t.init <= t.max && 4 * DataSlots(t) < UINT32_MAX
      ensures Valid() && fresh(elems)
      ensures Value() == Table(seq(t.init, _ => 0xFFFF_FFFF), if t.possibleGrow then t.max else t.init)
    {
      elems := new uint32[DataSlots(t)](_ => FAILED);
      curSize := t.init;
    }

    /** aot_table_grow */
    method Grow(inc: uint32, value: uint32) returns (r: uint32)
      requires Valid()
      modifies this, elems
      ensures Valid() && (Value(), r) == Grown(old(Value()), inc, value)
    {
      var before := curSize;
      ghost var was := elems[..curSize];
      if inc == 0 {
        assert was + seq(0, _ => value) == was;
        return before;
      }
      if curSize > UINT32_MAX - inc { return FAILED; }
      var count := curSize + inc;
      if count > elems.Length { return FAILED; }
      for i := 0 to inc
        invariant curSize == before && elems[..before] == was
        invariant forall k :: before <= k < before + i ==> elems[k] == value
      {
        elems[curSize + i] := value;
      }
      curSize := count;
      assert elems[..curSize] == was + seq(inc, _ => value);
      r := before;
    }

    /** bh_memmove_s: the loop runs away from the overlap. */
    method Move(src: TableInstance, d: nat, s: nat, n: nat)
      requires d + n <= elems.Length && s + n <= src.elems.Length && (src == this || src.elems != elems)
      modifies elems
      ensures elems[..] == Overwritten(old(elems[..]), d, old(src.elems[s..s + n]))
    {
      ghost var was, from := elems[..], src.elems[..];
      if s >= d {
        for i := 0 to n
          invariant src.elems != elems ==> src.elems[..] == from
          invariant forall k :: 0 <= k < elems.Length ==> elems[k] == if d <= k < d + i then from[k - d + s] else was[k]
        {
          elems[d + i] := src.elems[s + i];
        }
      } else {
        for i := n downto 0
          invariant src.elems != elems ==> src.elems[..] == from
          invariant forall k :: 0 <= k < elems.Length ==>
            elems[k] == if d + i <= k < d + n then from[k - d + s] else was[k]
        {
          elems[d + i] := src.elems[s + i];
        }
      }
      assert elems[..] == Overwritten(was, d, from[s..s + n]);
      assert from[s..s + n] == old(src.elems[s..s + n]);
    }

    /** aot_table_copy into this table; src may be this table itself. */
    method CopyFrom(src: TableInstance, length: uint32, srcOffset: uint32, dstOffset: uint32) returns (ok: bool)
      requires Valid() && src.Valid() && (src == this || src.elems != elems)
      modifies elems
      ensures Valid() && src.Valid()
      ensures
        var tables := if src == this then [old(Value())] else [old(Value()), old(src.Value())];
        Copied(tables, 0, |tables| - 1, dstOffset, srcOffset, length) == (tables[0 := Value()], ok)
    {
      ghost var tables := if src == this then [Value()] else [Value(), src.Value()];
      if dstOffset + length > curSize || srcOffset + length > src.curSize {
        assert tables[0 := Value()] == tables;
        return false;
      }
      ghost var was, from := Value(), src.Value().entries[srcOffset..srcOffset + length];
      MoveInFront(src, dstOffset, srcOffset, length);
      hide Overwritten;
      assert tables[0] == was && tables[|tables| - 1].entries[srcOffset..srcOffset + length] == from;
      ok := true;
    }

    /** The same for the entries the tables have. */
    method MoveInFront(src: TableInstance, d: nat, s: nat, n: nat)
      requires Valid() && src.Valid() && (src == this || src.elems != elems)
      requires d + n <= curSize && s + n <= src.curSize
      modifies elems
      ensures Valid() && src.Valid()
      ensures
        var from := old(src.Value()).entries[s..s + n];
        Value() == old(Value()).(entries := Overwritten(old(Value()).entries, d, from))
    {
      hide Overwritten;
      ghost var was, from := elems[..], src.elems[..];
      SubSlice(from, 0, src.curSize, s, s + n);
      assert from[0..src.curSize] == src.Value().entries && src.elems[s..s + n] == from[s..s + n];
      Move(src, d, s, n);
      OverwrittenInFront(was, curSize, d, from[s..s + n]);
      assert was[..curSize] == old(Value()).entries && elems[..][..curSize] == Value().entries;
    }
  }
}

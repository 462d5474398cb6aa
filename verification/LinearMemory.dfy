/**
 * A linear memory: instantiation from a layout, growth, and the translation between its offsets and
 * addresses. Non-shared memories, checked in software.
 */
module LinearMemories {
  import opened Words
  import opened MemoryLayouts

  /** A memory as a value. The heap is a part of it that the app heap's allocator looks after. */
  datatype Memory = Memory(bytes: seq<byte>, pageBytes: uint32, cur: uint32, max: uint32,
                           heapOffset: nat, heapSize: nat)

  ghost predicate ValidMemory(m: Memory) {
    && 0 < m.pageBytes && m.cur <= m.max
    && |m.bytes| == m.pageBytes * m.cur <= UINT32_MAX
    && m.pageBytes * m.max <= GB4
    && m.heapOffset + m.heapSize <= |m.bytes|
  }

  predicate InHeap(m: Memory, k: int) {
    m.heapOffset <= k < m.heapOffset + m.heapSize
  }

  /**
   * What growth cannot foresee: whether the heap is marked corrupted, what the allocator grants, and what
   * moving the heap to the new block makes of its bytes.
   */
  datatype Outcome = Outcome(corrupted: bool, reallocOk: bool, mallocOk: bool, migrateOk: bool, heap: seq<byte>)

  // ---- Growth ----

  predicate Refused(m: Memory, inc: uint32, o: Outcome) {
    || m.cur + inc > m.max
    || (m.heapSize > 0 && o.corrupted)
    || (!o.reallocOk && !o.mallocOk)
  }

  /** The bytes after growth to a size: heap bytes as its allocator left them, new bytes zero. */
  function GrownBytes(m: Memory, size: nat, o: Outcome): (r: seq<byte>)
    requires |m.bytes| <= size && |o.heap| == m.heapSize
    ensures |r| == size
  {
    seq(size, k requires 0 <= k < size =>
      if InHeap(m, k) then o.heap[k - m.heapOffset] else if k < |m.bytes| then m.bytes[k] else 0)
  }

  lemma GrownSize(m: Memory, inc: uint32)
    requires ValidMemory(m) && m.cur + inc <= m.max
    ensures |m.bytes| <= m.pageBytes * (m.cur + inc) <= m.pageBytes * m.max <= GB4
    ensures |m.bytes| == GB4 - 1 ==> m.pageBytes * (m.cur + inc) >= GB4 - 1
  {
    var k := m.max - (m.cur + inc);
    assert m.pageBytes * m.max == m.pageBytes * (m.cur + inc) + m.pageBytes * k;
    assert m.pageBytes * (m.cur + inc) == m.pageBytes * m.cur + m.pageBytes * inc;
  }

  /** The sum of two page counts is compared with one of them to see whether it wrapped around. */
  lemma PageCountWraps(cur: uint32, inc: uint32)
    ensures Wrap32(inc + cur) == if cur + inc < GB4 then cur + inc else cur + inc - GB4
  {}

  /** wasm_enlarge_memory; the flag is its return value, which is false after growth if the heap did not follow. */
  function Enlarged(m: Memory, inc: uint32, o: Outcome): (Memory, bool)
    requires ValidMemory(m) && |o.heap| == m.heapSize
  {
    if inc == 0 then (m, true)
    else if Refused(m, inc, o) then (m, false)
    else
      GrownSize(m, inc);
      var size := m.pageBytes * (m.cur + inc);
      var ok := m.heapSize > 0 ==> o.migrateOk;
      if size > UINT32_MAX then
        (Memory(GrownBytes(m, UINT32_MAX, o), UINT32_MAX, 1, 1, m.heapOffset, m.heapSize), ok)
      else
        (Memory(GrownBytes(m, size, o), m.pageBytes, m.cur + inc, m.max, m.heapOffset, m.heapSize), ok)
  }

  /** m' has everything m has: the same bytes outside the heap, the heap in its place, and only zeros added. */
  ghost predicate Extends(m': Memory, m: Memory) {
    && |m.bytes| <= |m'.bytes| && m'.heapOffset == m.heapOffset && m'.heapSize == m.heapSize
    && forall k :: 0 <= k < |m'.bytes| && !InHeap(m, k) ==> m'.bytes[k] == if k < |m.bytes| then m.bytes[k] else 0
  }

  /** What one growth keeps, refused or not, and whether or not the heap could be moved. */
  lemma EnlargedKeeps(m: Memory, inc: uint32, o: Outcome)
    requires ValidMemory(m) && |o.heap| == m.heapSize
    ensures
      var (m', ok) := Enlarged(m, inc, o);
      && ValidMemory(m') && Extends(m', m) && (m'.max == m.max || m'.max == m'.cur == 1)
      && (ok && |m'.bytes| < UINT32_MAX ==> m'.cur == m.cur + inc && m'.pageBytes == m.pageBytes)
      && (inc > 0 && Refused(m, inc, o) ==> m' == m && !ok)
  {
    if inc > 0 && !Refused(m, inc, o) {
      GrownSize(m, inc);
      var m' := Enlarged(m, inc, o).0;
      assert m'.pageBytes * m'.cur == |m'.bytes|;
    }
  }

  /** False is returned exactly for a refusal, and for growth after which the heap could not be moved. */
  lemma GrownUnreported(m: Memory, inc: uint32, o: Outcome)
    requires ValidMemory(m) && |o.heap| == m.heapSize
    ensures
      var (m', ok) := Enlarged(m, inc, o);
      var unreported := inc > 0 && !Refused(m, inc, o) && m.heapSize > 0 && !o.migrateOk;
      && (!ok <==> inc > 0 && (Refused(m, inc, o) || unreported))
      && (!ok && m' != m <==> unreported)
      && (unreported ==> |m'.bytes| > |m.bytes|)
  {
    hide GrownBytes;
    if inc > 0 && !Refused(m, inc, o) {
      GrownSize(m, inc);
      MoreBytes(m, inc);
    }
  }

  lemma MoreBytes(m: Memory, inc: uint32)
    requires ValidMemory(m) && inc > 0 && m.cur + inc <= m.max
    ensures |m.bytes| < UINT32_MAX && |m.bytes| < m.pageBytes * (m.cur + inc)
  {
    if |m.bytes| == UINT32_MAX { FullIsMax(m, inc); }
    assert m.pageBytes * (m.cur + inc) == m.pageBytes * m.cur + m.pageBytes * inc;
    AtLeastOnce(m.pageBytes, inc);
  }

  /**
   * Exactly when a memory grows, and what it is then: as many bytes as asked for, or one page of 4 GiB - 1 if
   * that is more than 32 bits hold, with its heap as the allocator left it; and what is returned.
   */
  lemma GrowsWhen(m: Memory, inc: uint32, o: Outcome)
    requires ValidMemory(m) && |o.heap| == m.heapSize
    ensures
      var (m', ok) := Enlarged(m, inc, o);
      var size := m.pageBytes * (m.cur + inc);
      var grows := && inc > 0 && m.cur + inc <= m.max && !(m.heapSize > 0 && o.corrupted)
                   && (o.reallocOk || o.mallocOk);
      && (ok <==> inc == 0 || (grows && (m.heapSize == 0 || o.migrateOk)))
      && (!grows ==> m' == m)
      && (grows ==>
           && |m'.bytes| == (if size <= 0xFFFF_FFFF then size else 0xFFFF_FFFF) && |m'.bytes| > |m.bytes|
           && (m'.pageBytes, m'.cur, m'.max)
              == (if size <= 0xFFFF_FFFF then (m.pageBytes, m.cur + inc, m.max) else (0xFFFF_FFFF, 1, 1))
           && m'.bytes[m.heapOffset..m.heapOffset + m.heapSize] == o.heap)
  {
    hide GrownBytes;
    if inc > 0 && !Refused(m, inc, o) {
      GrownSize(m, inc);
      MoreBytes(m, inc);
      var size := m.pageBytes * (m.cur + inc);
      HeapBytes(m, if size > UINT32_MAX then UINT32_MAX else size, o);
    }
  }

  lemma HeapBytes(m: Memory, size: nat, o: Outcome)
    requires ValidMemory(m) && |m.bytes| <= size && |o.heap| == m.heapSize
    ensures GrownBytes(m, size, o)[m.heapOffset..m.heapOffset + m.heapSize] == o.heap
  {}

  /** A memory of 4 GiB - 1 bytes has no page to grow by. */
  lemma FullIsMax(m: Memory, inc: uint32)
    requires ValidMemory(m) && |m.bytes| == UINT32_MAX && inc > 0
    ensures m.cur + inc > m.max
  {
    if m.cur + inc <= m.max {
      GrownSize(m, inc);
      NoRoomForPage(m.pageBytes, m.cur, inc);
    }
  }

  lemma NoRoomForPage(pageBytes: uint32, cur: uint32, inc: nat)
    requires pageBytes * cur == UINT32_MAX && pageBytes * (cur + inc) <= GB4 && inc > 0
    ensures cur == UINT32_MAX
  {
    assert pageBytes * (cur + inc) == pageBytes * cur + pageBytes * inc;
    AtLeastOnce(pageBytes, inc);
  }

  lemma AtLeastOnce(a: nat, b: nat)
    requires b > 0
    ensures a * b >= a
  {
    assert a * b == a * (b - 1) + a;
  }

  /** Requests to grow, each with what came of it; the heap's size does not change, so neither does its image's. */
  function EnlargedBy(m: Memory, steps: seq<(uint32, Outcome)>): Memory
    requires ValidMemory(m) && forall s <- steps :: |s.1.heap| == m.heapSize
    decreases |steps|
  {
    if steps == [] then m
    else
      EnlargedKeeps(m, steps[0].0, steps[0].1);
      EnlargedBy(Enlarged(m, steps[0].0, steps[0].1).0, steps[1..])
  }

  /** Over any run, bytes outside the heap survive, what was added is zero, and the memory stays in bounds. */
  lemma {:induction false} RunExtends(m: Memory, steps: seq<(uint32, Outcome)>)
    requires ValidMemory(m) && forall s <- steps :: |s.1.heap| == m.heapSize
    ensures ValidMemory(EnlargedBy(m, steps)) && Extends(EnlargedBy(m, steps), m)
    decreases |steps|
  {
    if steps != [] {
      var m1 := Enlarged(m, steps[0].0, steps[0].1).0;
      EnlargedKeeps(m, steps[0].0, steps[0].1);
      RunExtends(m1, steps[1..]);
    }
  }

  // ---- Offsets and addresses ----

  /** Where the memory lies; pointers have a width of 32 bits or more, and the block does not wrap around. */
  datatype Place = Place(start: nat, pointers: nat)

  ghost predicate ValidPlace(p: Place, m: Memory) {
    GB4 <= p.pointers && (m.bytes != [] ==> 0 < p.start) && p.start + |m.bytes| < p.pointers
  }

  /** Pointer arithmetic, which wraps around at the pointers' width. */
  function Advance(p: Place, n: uint32): int {
    if p.start + n < p.pointers then p.start + n else p.start + n - p.pointers
  }

  predicate Inside(p: Place, m: Memory, addr: int) {
    p.start <= addr < p.start + |m.bytes|
  }

  /** wasm_runtime_addr_app_to_native; none for NULL. */
  function AppToNative(p: Place, m: Memory, offset: uint32): Option<int> {
    if Inside(p, m, Advance(p, offset)) then Some(Advance(p, offset)) else None
  }

  /** wasm_runtime_addr_native_to_app; 0 also for addresses outside. */
  function NativeToApp(p: Place, m: Memory, addr: int): uint32 {
    if Inside(p, m, addr) then Wrap32(addr - p.start) else 0
  }

  /** Exactly the offsets inside have an address, and it leads back to them; and the other way round. */
  lemma AddressRoundTrip(p: Place, m: Memory, offset: uint32, addr: int)
    requires ValidMemory(m) && ValidPlace(p, m)
    ensures AppToNative(p, m, offset) == if offset < |m.bytes| then Some(p.start + offset) else None
    ensures offset < |m.bytes| ==> NativeToApp(p, m, AppToNative(p, m, offset).value) == offset
    ensures NativeToApp(p, m, addr) as int == if p.start <= addr < p.start + |m.bytes| then addr - p.start else 0
    ensures Inside(p, m, addr) ==> AppToNative(p, m, NativeToApp(p, m, addr)) == Some(addr)
  {}

  /** wasm_runtime_validate_app_addr */
  predicate ValidateAppAddr(m: Memory, offset: uint32, size: uint32) {
    offset <= UINT32_MAX - size && Wrap32(offset + size) <= |m.bytes|
  }

  /** The end of a native range, or nothing when it wraps around. */
  predicate ValidateNativeAddr(p: Place, m: Memory, addr: nat, size: uint32) {
    addr + size < p.pointers && p.start <= addr && addr + size <= p.start + |m.bytes|
  }

  /** The part of wasm_check_app_addr_and_convert for buffers. */
  predicate ConvertsBuffer(m: Memory, offset: uint32, size: uint32) {
    offset < |m.bytes| && size <= |m.bytes| - offset
  }

  /**
   * The range check accepts exactly the ranges that lie in the memory; the checked conversion differs from it
   * for the empty range at the very end, and only there.
   */
  lemma RangesInMemory(m: Memory, offset: uint32, size: uint32)
    requires ValidMemory(m)
    ensures ValidateAppAddr(m, offset, size) <==> offset + size <= |m.bytes|
    ensures ConvertsBuffer(m, offset, size) <==>
      ValidateAppAddr(m, offset, size) && !(size == 0 && offset == |m.bytes|)
  {}

  /** Checking an offset and checking its address come to the same. */
  lemma NativeRangeAgrees(p: Place, m: Memory, offset: uint32, size: uint32)
    requires ValidMemory(m) && ValidPlace(p, m) && offset < |m.bytes|
    ensures ValidateNativeAddr(p, m, AppToNative(p, m, offset).value, size) <==> ValidateAppAddr(m, offset, size)
  {
    AddressRoundTrip(p, m, offset, 0);
  }

  /** A string starts at the offset and ends before the memory does. */
  ghost predicate StringAt(m: Memory, offset: nat) {
    exists k :: offset <= k < |m.bytes| && m.bytes[k] == 0
  }

  /** Whatever was accepted before a run of growth is accepted after it, and outside the heap it reads the same. */
  lemma OffsetsStayValid(m: Memory, steps: seq<(uint32, Outcome)>, offset: uint32, size: uint32)
    requires ValidMemory(m) && (forall s <- steps :: |s.1.heap| == m.heapSize) && ValidateAppAddr(m, offset, size)
    ensures ValidateAppAddr(EnlargedBy(m, steps), offset, size)
    ensures forall k :: offset <= k < offset + size && !InHeap(m, k) ==> EnlargedBy(m, steps).bytes[k] == m.bytes[k]
  {
    RunExtends(m, steps);
  }

  // ---- The object ----

  class LinearMemory {
    var data: array<byte>
    var pageBytes: uint32
    var curPageCount: uint32
    var maxPageCount: uint32
    var heapOffset: nat
    var heapSize: nat
    /** The last offsets at which 1, 2, 4, 8 and 16 bytes can be accessed. */
    var boundCheck1: uint64
    var boundCheck2: uint64
    var boundCheck4: uint64
    var boundCheck8: uint64
    var boundCheck16: uint64

    ghost function Value(): Memory
      reads this, data
    {
      Memory(data[..], pageBytes, curPageCount, maxPageCount, heapOffset, heapSize)
    }

    /** Smaller memories than the access leave a bound that wrapped around. */
    ghost predicate BoundsSet()
      reads this, data
    {
      && boundCheck1 == Wrap64(data.Length - 1) && boundCheck2 == Wrap64(data.Length - 2)
      && boundCheck4 == Wrap64(data.Length - 4) && boundCheck8 == Wrap64(data.Length - 8)
      && boundCheck16 == Wrap64(data.Length - 16)
    }

    ghost predicate Valid()
      reads this, data
    {
      ValidMemory(Value()) && (data.Length > 0 ==> BoundsSet())
    }

    /** What the bounds are for: an access of 1, 2, 4, 8 or 16 bytes lies inside exactly up to its bound. */
    lemma BoundsMean(offset: nat)
      requires Valid() && data.Length >= 16
      ensures offset <= boundCheck1 <==> offset + 1 <= data.Length
      ensures offset <= boundCheck2 <==> offset + 2 <= data.Length
      ensures offset <= boundCheck4 <==> offset + 4 <= data.Length
      ensures offset <= boundCheck8 <==> offset + 8 <= data.Length
      ensures offset <= boundCheck16 <==> offset + 16 <= data.Length
    {}

    /** The part of memory_instantiate behind the layout: heap is what the heap's allocator makes of its pool. */
    constructor (l: Layout, heap: seq<byte>)
      requires 0 < l.pageBytes && l.init <= l.max && TotalSize(l) < UINT32_MAX && l.pageBytes * l.max <= GB4
      requires l.heapOffset + l.heapSize <= TotalSize(l) && |heap| == l.heapSize
      ensures Valid() && fresh(data) && data.Length == TotalSize(l)
      ensures Value() == Memory(data[..], l.pageBytes, l.init, l.max, l.heapOffset, l.heapSize)
      ensures forall k :: 0 <= k < TotalSize(l) ==> data[k] == if InHeap(Value(), k) then heap[k - l.heapOffset] else 0
    {
      var total := l.pageBytes * l.init;
      pageBytes, curPageCount, maxPageCount := l.pageBytes, l.init, l.max;
      heapOffset, heapSize := l.heapOffset, l.heapSize;
      data := new byte[total](_ => 0);
      boundCheck1, boundCheck2, boundCheck4, boundCheck8, boundCheck16 := 0, 0, 0, 0, 0;
      new;
      Store(data, heapOffset, heap);
      if total > 0 { SetBounds(); }
    }

    method SetBounds()
      modifies this
      ensures BoundsSet() && data == old(data) && Value() == old(Value())
    {
      var total := data.Length;
      boundCheck1, boundCheck2, boundCheck4 := Wrap64(total - 1), Wrap64(total - 2), Wrap64(total - 4);
      boundCheck8, boundCheck16 := Wrap64(total - 8), Wrap64(total - 16);
    }

    /** The memory's bytes in a new block, the rest of it zero, and the heap moved. */
    method MoveTo(size: nat, o: Outcome) returns (block: array<byte>)
      requires |o.heap| == heapSize && data.Length <= size && heapOffset + heapSize <= data.Length
      ensures fresh(block) && block[..] == GrownBytes(Value(), size, o)
    {
      block := new byte[size](_ => 0);
      Store(block, 0, data[..]);
      if heapSize > 0 { Store(block, heapOffset, o.heap); }
    }

    /** wasm_enlarge_memory */
    method Enlarge(inc: uint32, o: Outcome) returns (ok: bool)
      requires Valid() && |o.heap| == heapSize
      modifies this
      ensures Valid() && (data == old(data) || fresh(data))
      ensures (Value(), ok) == Enlarged(old(Value()), inc, o)
    {
      hide Wrap32;
      PageCountWraps(curPageCount, inc);
      var totalPageCount := Wrap32(inc + curPageCount);
      var totalSize: int := pageBytes * totalPageCount;
      if inc <= 0 { return true; }
      if totalPageCount < curPageCount || totalPageCount > maxPageCount { return false; }
      ghost var was := Value();
      assert heapOffset + heapSize <= data.Length <= UINT32_MAX;
      GrownSize(was, inc);
      assert totalPageCount == was.cur + inc && totalSize <= GB4;
      EnlargedKeeps(was, inc, o);
      hide GrownBytes;
      hide ValidMemory;
      var newPageBytes, newMax := pageBytes, maxPageCount;
      if totalSize > UINT32_MAX {
        newPageBytes, totalPageCount, newMax, totalSize := UINT32_MAX, 1, 1, UINT32_MAX;
      }
      if heapSize > 0 && o.corrupted { return false; }
      if !o.reallocOk && !o.mallocOk { return false; }
      assert data.Length <= totalSize && heapOffset + heapSize <= data.Length;
      var block := MoveTo(totalSize, o);
      ok := heapSize > 0 ==> o.migrateOk;
      pageBytes, curPageCount, maxPageCount, data := newPageBytes, totalPageCount, newMax, block;
      SetBounds();
    }

    /** wasm_runtime_validate_app_str_addr */
    method ValidateAppStr(offset: uint32) returns (ok: bool)
      requires Valid()
      ensures ok <==> offset < data.Length && StringAt(Value(), offset)
    {
      if offset >= data.Length { return false; }
      var str := offset;
      while str < data.Length && data[str] != 0
        invariant offset <= str <= data.Length
        invariant forall k :: offset <= k < str ==> data[k] != 0
      {
        str := str + 1;
      }
      if str == data.Length { return false; }
      assert Value().bytes[str] == 0;
      ok := true;
    }

    /** wasm_check_app_addr_and_convert; the address is that of the offset. */
    method CheckAndConvert(isStr: bool, offset: uint32, size: uint32) returns (ok: bool)
      requires Valid()
      ensures ok <==> if isStr then offset < data.Length && StringAt(Value(), offset)
                      else ConvertsBuffer(Value(), offset, size)
    {
      if offset >= data.Length { return false; }
      if !isStr { return size <= data.Length - offset; }
      var str := offset;
      while str < data.Length && data[str] != 0
        invariant offset <= str <= data.Length
        invariant forall k :: offset <= k < str ==> data[k] != 0
      {
        str := str + 1;
      }
      if str == data.Length { return false; }
      assert Value().bytes[str] == 0;
      ok := true;
    }
  }

  lemma LayoutFits(m: MemoryType, requested: nat)
    requires ValidType(m) && requested <= APP_HEAP_SIZE_MAX && IdealLayout(m, requested).Some?
    requires TotalSize(IdealLayout(m, requested).value) < UINT32_MAX
    ensures
      var l := IdealLayout(m, requested).value;
      && 0 < l.pageBytes && l.init <= l.max && l.pageBytes * l.max <= GB4
      && l.heapOffset + l.heapSize <= TotalSize(l)
  {
    if requested > 0 && !m.ownAllocator { LayoutSound(m, requested); } else { NoHeapFits(m, requested); }
  }

  /** memory_instantiate, from the memory's type; none if the layout or an allocation fails. */
  method Instantiate(m: MemoryType, requested: uint32, mallocOk: bool, heapOk: bool, heap: nat -> byte)
    returns (r: LinearMemory?, heapBase: Option<uint32>)
    requires ValidType(m) && requested <= APP_HEAP_SIZE_MAX
    ensures
      var l := IdealLayout(m, requested);
      r != null <==> && l.Some? && TotalSize(l.value) < UINT32_MAX && (TotalSize(l.value) > 0 ==> mallocOk)
                     && (l.value.heapSize > 0 ==> heapOk)
    ensures r != null ==> fresh(r) && fresh(r.data) && r.Valid() && heapBase == IdealLayout(m, requested).value.heapBase
    ensures r != null ==>
      var l := IdealLayout(m, requested).value;
      r.Value() == Memory(r.data[..], l.pageBytes, l.init, l.max, l.heapOffset, l.heapSize)
    ensures r != null ==> forall k :: 0 <= k < r.data.Length ==>
      r.data[k] == if r.heapOffset <= k < r.heapOffset + r.heapSize then heap(k - r.heapOffset) else 0
  {
    hide IdealLayout;
    hide ValidMemory;
    var layout := LayoutMemory(m, requested);
    if layout.None? { return null, None; }
    var l := layout.value;
    if TotalSize(l) < UINT32_MAX { LayoutFits(m, requested); }
    var total := l.pageBytes * l.init;
    if total > 0 && (total >= UINT32_MAX || !mallocOk) { return null, None; }
    if l.heapSize > 0 && !heapOk { return null, None; }
    r := new LinearMemory(l, seq(l.heapSize, i requires 0 <= i < l.heapSize => heap(i)));
    heapBase := l.heapBase;
  }

  /**
   * A memory of one page that may have two, with a heap: instantiated, it has two pages and may have three. A
   * page more is refused, as the return value has it, and yet it is there.
   */
  method GrownUnreportedExample(heap: nat -> byte) returns (m: LinearMemory?, ok: bool)
    ensures m != null && m.Valid() && m.heapSize == PAGE - KB
    ensures !ok && m.curPageCount == m.maxPageCount == 3 && m.data.Length == 3 * PAGE
  {
    HeapSmallerExample();
    var base;
    m, base := Instantiate(MemoryType(1, 2, None, false), PAGE, true, true, heap);
    hide IdealLayout;
    ghost var was := m.Value();
    assert was.pageBytes == PAGE && was.cur == 2 && was.max == 3;
    var o := Outcome(false, true, true, false, seq(PAGE - KB, _ => 0));
    ok := m.Enlarge(1, o);
    assert m.Value() == Enlarged(was, 1, o).0;
    assert |m.Value().bytes| == 3 * PAGE;
  }
}

/** How memory_instantiate makes room for the app heap in a linear memory. */
module MemoryLayouts {
  import opened Words

  const PAGE := 0x1_0000
  const MAX_PAGES := 0x1_0000
  const KB := 1024
  const GB4 := 0x1_0000_0000
  /** The largest heap aot_instantiate asks for: 512 MiB. */
  const APP_HEAP_SIZE_MAX := 0x2000_0000

  /** ownAllocator: the module exports malloc and free; auxHeapBase: the value of its __heap_base global, if known. */
  datatype MemoryType = MemoryType(init: uint32, max: uint32, auxHeapBase: Option<uint32>, ownAllocator: bool)

  /** heapBase is what __heap_base is reset to, if it is. */
  datatype Layout = Layout(pageBytes: uint32, init: uint32, max: uint32, heapOffset: uint32, heapSize: uint32,
                           heapBase: Option<uint32>)

  predicate ValidType(m: MemoryType) {
    m.init <= m.max <= MAX_PAGES
  }

  function TotalSize(l: Layout): nat {
    l.pageBytes * l.init
  }

  // ---- The layout in unbounded arithmetic ----

  function CeilPages(n: int): nat {
    if n <= 0 then 0 else (n + PAGE - 1) / PAGE
  }

  /** The end of the page a lies in or ends. */
  function PageEnd(a: nat): nat {
    PAGE * CeilPages(a)
  }

  /** A heap put into a memory: where, how large, and how many pages more that takes. */
  datatype Insertion = Insertion(pageBytes: nat, pages: nat, heapOffset: nat, heapSize: nat, heapBase: Option<nat>)

  /** The heap goes in front of __heap_base, which moves behind it and keeps 1 KiB to the end of its page. */
  function BeforeBase(base: nat, heap: nat): Insertion {
    var end := base + heap;
    var tight := PageEnd(end) - end < KB;
    Insertion(PAGE, CeilPages(end - PageEnd(base)) + (if tight then 1 else 0), base, heap,
              Some(if tight then end + KB else end))
  }

  lemma InFront(base: nat, heap: nat)
    ensures
      var i := BeforeBase(base, heap);
      i.pageBytes == PAGE && i.heapOffset == base && i.heapSize == heap && i.heapBase.Some?
  {}

  /** __heap_base is known and lies inside: the heap takes its place. */
  predicate MovesBase(m: MemoryType) {
    m.auxHeapBase.Some? && m.auxHeapBase.value < PAGE * m.init && m.init < MAX_PAGES
  }

  function Inserted(m: MemoryType, heap: nat): Insertion {
    if m.max == 0 then Insertion(heap, 1, 0, heap, None)
    else if MovesBase(m) then BeforeBase(m.auxHeapBase.value, heap)
    else Insertion(PAGE, CeilPages(heap), PAGE * m.init, RoundedHeap(heap), None)
  }

  /** A heap in pages of its own fills them up to 1 KiB, even if that is less than was asked for. */
  function RoundedHeap(heap: nat): nat {
    if heap == 0 then 0 else PAGE * CeilPages(heap) - KB
  }

  /** The layout the step should come to, with no wrap-around anywhere but in an offset nobody uses. */
  function IdealLayout(m: MemoryType, requested: nat): Option<Layout>
    requires ValidType(m) && requested <= APP_HEAP_SIZE_MAX
  {
    var heap := if m.ownAllocator then 0 else requested;
    if m.init == m.max == 1 then Some(Layout(PAGE + heap, 1, 1, PAGE, heap, None))
    else if heap == 0 then Some(Layout(PAGE, m.init, m.max, Wrap32(PAGE * m.init), 0, None))
    else
      var i := Inserted(m, heap);
      if m.init + i.pages > MAX_PAGES then None
      else
        InsertionFits(m, heap);
        var max := if m.max + i.pages > MAX_PAGES then MAX_PAGES else m.max + i.pages;
        var base := if i.heapBase.None? then None else Some(i.heapBase.value);
        if m.init + i.pages == MAX_PAGES then Some(Layout(UINT32_MAX, 1, 1, i.heapOffset, i.heapSize, base))
        else Some(Layout(i.pageBytes, m.init + i.pages, max, i.heapOffset, i.heapSize, base))
  }

  /** What is inserted ends, with the moved __heap_base, 1 KiB before the memory's end or earlier. */
  lemma InsertionFits(m: MemoryType, heap: nat)
    requires ValidType(m) && 0 < heap <= APP_HEAP_SIZE_MAX && m.init + Inserted(m, heap).pages <= MAX_PAGES
    ensures
      var i := Inserted(m, heap);
      var end := PAGE * (m.init + i.pages);
      && (m.max > 0 ==> i.pageBytes == PAGE && i.heapOffset + i.heapSize + KB <= end)
      && (i.heapBase.Some? ==> i.heapOffset + i.heapSize <= i.heapBase.value && i.heapBase.value + KB <= end)
  {}

  /** The bytes of a's last page, a whole page when a is a page boundary. */
  function LastPageBytes(a: uint32, pageBytes: uint32): (r: uint32)
    requires pageBytes > 0
    ensures 0 < r <= pageBytes
  {
    if a % pageBytes == 0 then pageBytes else a % pageBytes
  }

  lemma ToPageEnd(a: uint32)
    ensures PAGE - LastPageBytes(a, PAGE) == PageEnd(a) - a
  {}

  /** The difference may wrap around, the page count does not see it. */
  lemma PagesBehind(toPageEnd: uint32, heap: uint32)
    requires toPageEnd < PAGE && 0 < heap <= APP_HEAP_SIZE_MAX
    ensures Wrap32(Wrap32(heap - toPageEnd) + PAGE - 1) / PAGE == CeilPages(heap - toPageEnd) <= MAX_PAGES
  {}

  /** An address beyond 32 bits needs more pages than there can be. */
  lemma BeyondMemory(init: uint32, base: uint32, heap: uint32)
    requires init < MAX_PAGES && base < PAGE * init && 0 < heap <= APP_HEAP_SIZE_MAX && base + heap + KB >= GB4
    ensures init + CeilPages(base + heap - PageEnd(base)) >= MAX_PAGES
    ensures base + heap < GB4 ==> PageEnd(base + heap) == GB4
    ensures base + heap > GB4 ==> init + CeilPages(base + heap - PageEnd(base)) > MAX_PAGES
    ensures base + heap == GB4 ==> PageEnd(base + heap) == base + heap
  {}

  /** With the new base computed modulo 2^32 the outcome is the ideal one, or too many pages in both. */
  lemma WrappedBase(init: uint32, base: uint32, heap: uint32)
    requires init < MAX_PAGES && base < PAGE * init && 0 < heap <= APP_HEAP_SIZE_MAX
    ensures
      var end, i := base + heap, BeforeBase(base, heap);
      var wrapped := Wrap32(end);
      var tight := PageEnd(wrapped) - wrapped < KB;
      var pages := CeilPages(end - PageEnd(base)) + if tight then 1 else 0;
      if init + i.pages <= MAX_PAGES then
        pages == i.pages && i.heapBase == Some(if tight then Wrap32(wrapped + KB) else wrapped)
      else init + pages > MAX_PAGES
  {
    var end := base + heap;
    WrapSmall(end);
    WrapSmall(end + KB);
    if end + KB >= GB4 {
      BeyondMemory(init, base, heap);
      assert end == GB4 ==> Wrap32(end) == 0;
    }
    hide Wrap32;
    hide CeilPages;
  }

  /** Room for a heap in front of __heap_base; when the address wraps around, the page count is beyond the limit. */
  method MoveBase(init: uint32, auxHeapBase: uint32, heapSize: uint32) returns (inc: uint32, base: uint32)
    requires init < MAX_PAGES && auxHeapBase < PAGE * init && 0 < heapSize <= APP_HEAP_SIZE_MAX
    ensures inc <= 2 * MAX_PAGES
    ensures
      var i := BeforeBase(auxHeapBase, heapSize);
      if init + i.pages <= MAX_PAGES then inc == i.pages && i.heapBase == Some(base)
      else init + inc > MAX_PAGES
  {
    var lastPage := LastPageBytes(auxHeapBase, PAGE);
    var toPageEnd := PAGE - lastPage;
    ToPageEnd(auxHeapBase);
    PagesBehind(toPageEnd, heapSize);
    WrappedBase(init, auxHeapBase, heapSize);
    inc := Wrap32(Wrap32(heapSize - toPageEnd) + PAGE - 1) / PAGE;
    WrapSmall(inc + 1);
    hide CeilPages;
    hide PageEnd;
    hide LastPageBytes;
    hide BeforeBase;
    hide Wrap32;
    base := Wrap32(auxHeapBase + heapSize);
    ToPageEnd(base);
    lastPage := LastPageBytes(base, PAGE);
    toPageEnd := PAGE - lastPage;
    if toPageEnd < KB {
      base := Wrap32(base + KB);
      inc := Wrap32(inc + 1);
    }
  }

  /** Room for a heap in new pages behind the memory. */
  method NewPages(init: uint32, requested: uint32) returns (inc: uint32, heapOffset: uint32, heapSize: uint32)
    requires init <= MAX_PAGES && 0 < requested <= APP_HEAP_SIZE_MAX
    ensures 0 < inc == CeilPages(requested) <= MAX_PAGES && heapSize == RoundedHeap(requested)
    ensures heapOffset == Wrap32(PAGE * init)
  {
    inc := Wrap32(requested + PAGE - 1) / PAGE;
    heapOffset := Wrap32(PAGE * init);
    heapSize := Wrap32(PAGE * inc);
    if heapSize > 0 { heapSize := heapSize - KB; }
  }

  /** The page counts go up by inc, within their limits; 65536 pages become one of 4 GiB - 1. */
  method AddPages(oldBytes: uint32, oldInit: uint32, oldMax: uint32, inc: uint32)
    returns (pageBytes: uint32, init: uint32, max: uint32)
    requires oldInit <= oldMax <= MAX_PAGES && inc <= 2 * MAX_PAGES
    ensures init > MAX_PAGES <==> oldInit + inc > MAX_PAGES
    ensures oldInit + inc == MAX_PAGES ==> (pageBytes, init, max) == (UINT32_MAX, 1, 1)
    ensures oldInit + inc < MAX_PAGES ==>
      pageBytes == oldBytes && init == oldInit + inc
      && max == if oldMax + inc > MAX_PAGES then MAX_PAGES else oldMax + inc
  {
    pageBytes, init, max := oldBytes, Wrap32(oldInit + inc), Wrap32(oldMax + inc);
    if init > MAX_PAGES { return; }
    if init == MAX_PAGES { pageBytes, init, max := UINT32_MAX, 1, 1; }
    if max > MAX_PAGES { max := MAX_PAGES; }
  }

  /**
   * The layout step of memory_instantiate, every operation on 32 bits: its results are the ideal ones,
   * although differences and products wrap around on the way.
   */
  method LayoutMemory(m: MemoryType, requested: uint32) returns (r: Option<Layout>)
    requires ValidType(m) && requested <= APP_HEAP_SIZE_MAX
    ensures r == IdealLayout(m, requested)
  {
    hide BeforeBase;
    hide CeilPages;
    hide RoundedHeap;
    hide PageEnd;
    var heapSize: uint32 := requested;
    var pageBytes: uint32, init, max := PAGE, m.init, m.max;
    var heapOffset := Wrap32(pageBytes * init);
    var heapBase: Option<uint32> := None;
    if heapSize > 0 && m.ownAllocator { heapSize := 0; }
    if init == max && init == 1 {
      heapOffset := pageBytes;
      pageBytes := Wrap32(pageBytes + heapSize);
      if pageBytes < heapSize { return None; }
    } else if heapSize > 0 {
      var inc: uint32;
      if init == max && init == 0 {
        pageBytes, heapOffset, inc := heapSize, 0, 1;
      } else if m.auxHeapBase.Some? && m.auxHeapBase.value < Wrap32(pageBytes * init) {
        var base: uint32;
        heapOffset := m.auxHeapBase.value;
        inc, base := MoveBase(init, heapOffset, heapSize);
        InFront(heapOffset, heapSize);
        heapBase := Some(base);
      } else {
        inc, heapOffset, heapSize := NewPages(init, heapSize);
      }
      ghost var i := Inserted(m, requested);
      assert init + inc > MAX_PAGES <==> init + i.pages > MAX_PAGES;
      assert init + inc <= MAX_PAGES ==>
        && inc == i.pages && pageBytes == i.pageBytes
        && heapOffset == i.heapOffset && heapSize == i.heapSize && heapBase == i.heapBase;
      hide Inserted;
      pageBytes, init, max := AddPages(pageBytes, init, max, inc);
      if init > MAX_PAGES { return None; }
    }
    r := Some(Layout(pageBytes, init, max, heapOffset, heapSize, heapBase));
  }

  /**
   * A layout that does not fail: the memory is no larger than 4 GiB - 1 and no smaller than it was (but for
   * its last byte), the heap lies inside, and so does __heap_base if it was moved, behind the heap, which
   * starts where __heap_base was, or else where the memory ended. The heap is as large as asked for, or up to
   * 1 KiB smaller in new pages of its own. Nothing can grow past 4 GiB.
   */
  lemma LayoutSound(m: MemoryType, requested: nat)
    requires ValidType(m) && 0 < requested <= APP_HEAP_SIZE_MAX && !m.ownAllocator && IdealLayout(m, requested).Some?
    ensures
      var l := IdealLayout(m, requested).value;
      && PAGE * m.init <= TotalSize(l) + 1 && TotalSize(l) <= UINT32_MAX
      && l.init <= l.max && l.pageBytes * l.max <= GB4
      && l.heapOffset + l.heapSize <= TotalSize(l)
      && l.heapSize + KB >= requested && (l.heapBase.None? ==> l.heapOffset == PAGE * m.init)
      && (l.heapBase.Some? ==>
           && m.auxHeapBase == Some(l.heapOffset) && l.heapSize == requested
           && l.heapOffset + l.heapSize <= l.heapBase.value && l.heapBase.value + KB <= TotalSize(l) + 1)
  {
    var l := IdealLayout(m, requested).value;
    if m.init == m.max == 1 {
      assert TotalSize(l) == PAGE + requested;
    } else {
      var i := Inserted(m, requested);
      InsertionFits(m, requested);
      if m.max == 0 {
        assert TotalSize(l) == requested;
      } else if m.init + i.pages == MAX_PAGES {
        assert TotalSize(l) == UINT32_MAX && l.pageBytes * l.max == UINT32_MAX;
      } else {
        assert TotalSize(l) == PAGE * (m.init + i.pages);
      }
    }
  }

  /**
   * The whole layout when it does not fail, number by number. Pages are added as few as will do: for a heap in
   * front of __heap_base (at base) so that 1 KiB is left between its new value and the end of its page, with what
   * was free behind it in its old page; for any other so that the heap fits.
   */
  lemma LayoutIs(m: MemoryType, requested: nat)
    requires ValidType(m) && 0 < requested <= APP_HEAP_SIZE_MAX && !m.ownAllocator && IdealLayout(m, requested).Some?
    ensures
      var l := IdealLayout(m, requested).value;
      if m.init == 1 && m.max == 1 then l == Layout(0x1_0000 + requested, 1, 1, 0x1_0000, requested, None)
      else if m.max == 0 then l == Layout(requested, 1, 1, 0, requested, None)
      else
        var k := (if l.pageBytes == 0x1_0000 then l.init else 0x1_0000) - m.init;
        && 0 <= k
        && (l.pageBytes, l.init, l.max) == (
             if m.init + k == 0x1_0000 then (0xFFFF_FFFF, 1, 1)
             else (0x1_0000, m.init + k, if m.max + k > 0x1_0000 then 0x1_0000 else m.max + k))
        && if m.auxHeapBase.Some? && m.auxHeapBase.value < 0x1_0000 * m.init then
             var base := m.auxHeapBase.value;
             var end := base + requested;
             var moved := if 0 < end % 0x1_0000 <= 0x1_0000 - 1024 then end else end + 1024;
             && (l.heapOffset, l.heapSize, l.heapBase) == (base, requested, Some(moved))
             && AddedPages(k, requested + 1024 - (0x1_0000 - base % 0x1_0000) % 0x1_0000)
           else
             && l.heapOffset == 0x1_0000 * m.init && l.heapSize == 0x1_0000 * k - 1024 && l.heapBase == None
             && AddedPages(k, requested)
  {
    if m.max > 0 && !(m.init == m.max == 1) {
      FewestPages(requested);
      if MovesBase(m) {
        var base := m.auxHeapBase.value;
        PagesBeforeBase(base, requested);
        FewestPages(base + requested + KB - PageEnd(base));
        BaseMoved(base, requested);
      }
      hide CeilPages;
      hide BeforeBase;
      hide PageEnd;
    }
  }

  /** k pages are room for n bytes, and one less is not. */
  predicate AddedPages(k: nat, n: int) {
    n <= 0x1_0000 * k && (k > 0 ==> 0x1_0000 * (k - 1) < n)
  }

  lemma FewestPages(n: int)
    ensures AddedPages(CeilPages(n), n)
  {}

  lemma BaseMoved(base: nat, heap: nat)
    ensures
      var end, i := base + heap, BeforeBase(base, heap);
      && i.heapBase == Some(if 0 < end % 0x1_0000 <= 0x1_0000 - 1024 then end else end + 1024)
      && i.pageBytes == 0x1_0000 && i.heapOffset == base && i.heapSize == heap
      && PageEnd(base) - base == (0x1_0000 - base % 0x1_0000) % 0x1_0000
  {
    PageRest(base);
    PageRest(base + heap);
    hide PageEnd;
    hide CeilPages;
  }

  lemma PageRest(a: nat)
    ensures PageEnd(a) - a == (0x1_0000 - a % 0x1_0000) % 0x1_0000
  {}

  /**
   * The heap is as large as asked for unless it gets pages of its own and the request leaves less than
   * 1 KiB of the last one free; then it is smaller, by 1 KiB at most.
   */
  lemma HeapSmallerWhen(m: MemoryType, requested: nat)
    requires ValidType(m) && 0 < requested <= APP_HEAP_SIZE_MAX && !m.ownAllocator && IdealLayout(m, requested).Some?
    ensures
      var heapSize := IdealLayout(m, requested).value.heapSize;
      var inPlace := m.max == 0 || m.init == m.max == 1 || MovesBase(m);
      && (heapSize >= requested <==> inPlace || 0 < requested % PAGE <= PAGE - KB)
      && (heapSize == requested <==> inPlace || requested % PAGE == PAGE - KB)
      && heapSize + KB >= requested
  {}

  /** One page is asked for, 1 KiB less comes of it. */
  lemma HeapSmallerExample()
    ensures IdealLayout(MemoryType(1, 2, None, false), PAGE) == Some(Layout(PAGE, 2, 3, PAGE, PAGE - KB, None))
  {}

  /** Without an app heap the size assertion fails exactly for a memory of 65536 pages. */
  lemma NoHeapFits(m: MemoryType, requested: nat)
    requires ValidType(m) && requested <= APP_HEAP_SIZE_MAX && (requested == 0 || m.ownAllocator)
    ensures IdealLayout(m, requested).Some?
    ensures
      var l := IdealLayout(m, requested).value;
      l.pageBytes == 0x1_0000 && l.init == m.init && l.max == m.max && l.heapSize == 0 && l.heapBase == None
    ensures m.init != m.max || m.init != 1 ==> TotalSize(IdealLayout(m, requested).value) == PAGE * m.init
    ensures TotalSize(IdealLayout(m, requested).value) <= UINT32_MAX <==> m.init < MAX_PAGES
  {
    var l := IdealLayout(m, requested).value;
    assert TotalSize(l) == l.pageBytes * l.init;
    if m.init == m.max == 1 { assert TotalSize(l) == PAGE; } else { assert TotalSize(l) == PAGE * m.init; }
  }

  /** In front of __heap_base the heap needs 1 KiB more, and what is free behind __heap_base in its page is used. */
  lemma PagesBeforeBase(base: nat, heap: nat)
    requires heap > 0
    ensures BeforeBase(base, heap).pages == CeilPages(base + heap + KB - PageEnd(base))
  {}

  /** All the pages there can be: 4 GiB, of which 32 bits hold one byte less. */
  lemma NoHeapExample()
    ensures
      var l := IdealLayout(MemoryType(MAX_PAGES, MAX_PAGES, None, false), 0);
      l == Some(Layout(PAGE, MAX_PAGES, MAX_PAGES, 0, 0, None)) && TotalSize(l.value) == UINT32_MAX + 1
  {}

  /** Pages that do not fit in are bytes that do not fit in. */
  lemma PagesFit(init: nat, n: int)
    requires init <= MAX_PAGES
    ensures init + CeilPages(n) > MAX_PAGES <==> n > 0 && PAGE * init + n > GB4
  {}

  /**
   * The layout fails exactly when the memory and the heap need more than 4 GiB; for a heap in front of
   * __heap_base that counts 1 KiB more, and what is free behind __heap_base in its page less.
   */
  lemma LayoutFailsWhen(m: MemoryType, requested: nat)
    requires ValidType(m) && 0 < requested <= APP_HEAP_SIZE_MAX && !m.ownAllocator
    ensures IdealLayout(m, requested).None? <==>
      if MovesBase(m) then
        PAGE * m.init + requested + KB > GB4 + (PageEnd(m.auxHeapBase.value) - m.auxHeapBase.value)
      else PAGE * m.init + requested > GB4
  {
    if MovesBase(m) {
      var base := m.auxHeapBase.value;
      PagesBeforeBase(base, requested);
      PagesFit(m.init, base + requested + KB - PageEnd(base));
      assert base <= PageEnd(base) < base + PAGE;
    } else {
      PagesFit(m.init, requested);
    }
    hide CeilPages;
    hide PageEnd;
    hide BeforeBase;
  }
}

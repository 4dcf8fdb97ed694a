/**
 * Model of the queue-pair memory layer of the Linux VMCI driver
 * (modules/linux/vmci/vmciKernelIf.c): queue page allocation and release,
 * the page-number (PPN) set handed to the hypervisor, the page-walking copy
 * between a buffer or iovec and a queue, and the well-known-ID guard.
 */
module VmciKernelIf {

  type Byte = x: int | 0 <= x < 256

  /** Size of one physical page. A power of two, so the source's
      `x & (PAGE_SIZE - 1)` is `x % PAGE_SIZE`. */
  const PAGE_SIZE: nat := 4096

  /** One more than the largest element of a VMCIPpnList (32 bits wide). */
  const PPN_LIMIT: nat := 0x1_0000_0000

  /** One element of a VMCIPpnList. */
  type Ppn = x: int | 0 <= x < 0x1_0000_0000

  /** Linux error code returned by the iovec copy helpers when the user
      buffer cannot be accessed. */
  const EFAULT: int := 14

  /** A physical page, as reached through a transient kmap() mapping. */
  type Page = array<Byte>

  /** The VMCI_* result codes this layer returns. */
  datatype Status = Success | ErrorInvalidArgs | ErrorNoMem | ErrorAlreadyExists

  // ---------------------------------------------------------------------
  // Page arithmetic
  // ---------------------------------------------------------------------

  /** The CEILING(x, y) macro: x divided by y, rounded up. */
  function Ceiling(x: nat, y: nat): nat
    requires y > 0
  {
    (x + y - 1) / y
  }

  /** Number of data pages a queue of `size` bytes occupies. */
  function NumPages(size: nat): nat
  {
    Ceiling(size, PAGE_SIZE)
  }

  /** The pages requested cover the queue, and one page fewer would not. */
  lemma NumPagesIsLeastCover(size: nat)
    ensures NumPages(size) * PAGE_SIZE >= size
    ensures size > 0 ==> (NumPages(size) - 1) * PAGE_SIZE < size
    ensures size == 0 ==> NumPages(size) == 0
  {
  }

  // ---------------------------------------------------------------------
  // Kernel allocators
  // ---------------------------------------------------------------------

  /**
   * Stand-in for the kernel allocators the layer calls: alloc_pages and
   * __free_page for single pages, and vmalloc/VMCI_AllocKernelMem with
   * vfree/VMCI_FreeKernelMem for records and page-number lists. An
   * allocation fails exactly when the corresponding pool is exhausted; the
   * ghost sets record what is handed out and not yet returned.
   */
  class Allocator {
    var freePages: nat
    var freeBlocks: nat
    ghost var livePages: set<Page>
    ghost var liveBlocks: set<object>

    constructor (pages: nat, blocks: nat)
      ensures freePages == pages && freeBlocks == blocks
      ensures livePages == {} && liveBlocks == {}
    {
      freePages, freeBlocks := pages, blocks;
      livePages, liveBlocks := {}, {};
    }

    /** alloc_pages(GFP_KERNEL, 0): one page, or null. */
    method AllocPage() returns (p: array?<Byte>)
      modifies this
      ensures p == null <==> old(freePages) == 0
      ensures p != null ==> fresh(p) && p.Length == PAGE_SIZE
      ensures freePages == if p == null then old(freePages) else old(freePages) - 1
      ensures livePages == if p == null then old(livePages) else old(livePages) + {p}
      ensures freeBlocks == old(freeBlocks) && liveBlocks == old(liveBlocks)
    {
      if freePages == 0 {
        p := null;
      } else {
        p := new Byte[PAGE_SIZE];
        freePages := freePages - 1;
        livePages := livePages + {p};
      }
    }

    /** __free_page. */
    method FreePage(p: Page)
      requires p in livePages
      modifies this
      ensures livePages == old(livePages) - {p} && freePages == old(freePages) + 1
      ensures freeBlocks == old(freeBlocks) && liveBlocks == old(liveBlocks)
    {
      livePages := livePages - {p};
      freePages := freePages + 1;
    }

    /** vmalloc of a VMCIQueue record with room for `numPages` page pointers. */
    method AllocQueueRecord(numPages: nat) returns (q: Queue?)
      modifies this
      ensures q == null <==> old(freeBlocks) == 0
      ensures q != null ==> fresh(q) && fresh(q.pages) && q.pages.Length == numPages
      ensures q != null ==> forall i :: 0 <= i < numPages ==> q.pages[i] == null
      ensures freeBlocks == if q == null then old(freeBlocks) else old(freeBlocks) - 1
      ensures liveBlocks == if q == null then old(liveBlocks) else old(liveBlocks) + {q}
      ensures freePages == old(freePages) && livePages == old(livePages)
    {
      if freeBlocks == 0 {
        q := null;
      } else {
        q := new Queue(numPages);
        freeBlocks := freeBlocks - 1;
        liveBlocks := liveBlocks + {q};
      }
    }

    /** VMCI_AllocKernelMem of a list of `n` page numbers. */
    method AllocPpnList(n: nat) returns (a: array?<Ppn>)
      modifies this
      ensures a == null <==> old(freeBlocks) == 0
      ensures a != null ==> fresh(a) && a.Length == n
      ensures freeBlocks == if a == null then old(freeBlocks) else old(freeBlocks) - 1
      ensures liveBlocks == if a == null then old(liveBlocks) else old(liveBlocks) + {a}
      ensures freePages == old(freePages) && livePages == old(livePages)
    {
      if freeBlocks == 0 {
        a := null;
      } else {
        a := new Ppn[n];
        freeBlocks := freeBlocks - 1;
        liveBlocks := liveBlocks + {a};
      }
    }

    /** vfree / VMCI_FreeKernelMem. */
    method FreeBlock(o: object)
      requires o in liveBlocks
      modifies this
      ensures liveBlocks == old(liveBlocks) - {o} && freeBlocks == old(freeBlocks) + 1
      ensures freePages == old(freePages) && livePages == old(livePages)
    {
      liveBlocks := liveBlocks - {o};
      freeBlocks := freeBlocks + 1;
    }
  }

  // ---------------------------------------------------------------------
  // Queues
  // ---------------------------------------------------------------------

  /**
   * A VMCIQueue: the header record plus `page[]`, the offset-to-page
   * translation structure. Byte k of the queue's data area lives in page
   * k / PAGE_SIZE at offset k % PAGE_SIZE.
   */
  class Queue {
    const pages: array<array?<Byte>>
    /** The queue's data area as one byte sequence. */
    ghost var Contents: seq<Byte>
    /** The pages the translation structure points to. */
    ghost var Repr: set<array?<Byte>>

    constructor (numPages: nat)
      ensures fresh(pages) && pages.Length == numPages
      ensures forall i :: 0 <= i < numPages ==> pages[i] == null
    {
      pages := new array?<Byte>[numPages](_ => null);
    }

    /** Every slot holds a whole page, and no page is used twice. */
    ghost predicate WellFormed()
      reads this, pages
    {
      && (forall i :: 0 <= i < pages.Length ==> pages[i] != null && pages[i].Length == PAGE_SIZE)
      && (forall i, j :: 0 <= i < j < pages.Length ==> pages[i] != pages[j])
      && (forall i :: 0 <= i < pages.Length ==> pages[i] in Repr)
    }

    /** The pages the queue owns. */
    ghost function PageSet(): set<array?<Byte>>
      reads this, pages
    {
      set i | 0 <= i < pages.Length :: pages[i]
    }

    /** Bytes addressable through the translation structure. */
    function Capacity(): nat
      reads this
    {
      pages.Length * PAGE_SIZE
    }

    /** `Contents` is what the pages hold: byte k lives in page k / PAGE_SIZE
        at offset k % PAGE_SIZE. */
    ghost predicate Valid()
      reads this, pages, Repr
    {
      && WellFormed()
      && |Contents| == Capacity()
      && forall k {:trigger PageByte(k)} :: 0 <= k < |Contents| ==> Contents[k] == PageByte(k)
    }

    /** Byte k of the data area, read through the translation structure. */
    ghost function PageByte(k: nat): Byte
      requires WellFormed() && k < Capacity()
      reads this, pages, Repr
    {
      assert pages[k / PAGE_SIZE] in Repr;
      pages[k / PAGE_SIZE][k % PAGE_SIZE]
    }

    /** What the pages hold right now, in data-area order. */
    ghost function PageBytes(): (s: seq<Byte>)
      requires WellFormed()
      reads this, pages, Repr
      ensures |s| == Capacity() && forall k :: 0 <= k < |s| ==> s[k] == PageByte(k)
    {
      seq(Capacity(), k requires 0 <= k < Capacity() && WellFormed() reads this, pages, Repr => PageByte(k))
    }
  }

  /** The pages held by the first `n` slots of a translation structure. */
  ghost function Prefix(slots: seq<array?<Byte>>, n: nat): set<array?<Byte>>
    requires n <= |slots|
  {
    set k | 0 <= k < n :: slots[k]
  }

  lemma PrefixGrow(slots: seq<array?<Byte>>, n: nat, p: array?<Byte>)
    requires n < |slots|
    ensures Prefix(slots[n := p], n + 1) == Prefix(slots, n) + {p}
  {
    var grown := slots[n := p];
    forall x | x in Prefix(grown, n + 1) ensures x in Prefix(slots, n) + {p} {
      var k :| 0 <= k < n + 1 && grown[k] == x;
      if k < n { assert slots[k] == x; }
    }
    forall x | x in Prefix(slots, n) + {p} ensures x in Prefix(grown, n + 1) {
      if x == p { assert grown[n] == x; } else {
        var k :| 0 <= k < n && slots[k] == x;
        assert grown[k] == x;
      }
    }
  }

  lemma PrefixShrink(slots: seq<array?<Byte>>, n: nat)
    requires n < |slots|
    requires forall k :: 0 <= k < n ==> slots[k] != slots[n]
    ensures Prefix(slots, n + 1) == Prefix(slots, n) + {slots[n]}
    ensures slots[n] !in Prefix(slots, n)
  {
  }

  /**
   * VMCI_AllocQueueKVA: allocate the record, then one page per
   * CEILING(size, PAGE_SIZE); on the first page that cannot be had, free the
   * pages already obtained and the record, and return null.
   */
  method AllocQueueKVA(size: nat, alloc: Allocator) returns (q: Queue?)
    modifies alloc
    ensures q == null <==> old(alloc.freeBlocks) == 0 || old(alloc.freePages) < NumPages(size)
    ensures q == null ==> && alloc.freePages == old(alloc.freePages)
                          && alloc.livePages == old(alloc.livePages)
                          && alloc.freeBlocks == old(alloc.freeBlocks)
                          && alloc.liveBlocks == old(alloc.liveBlocks)
    ensures q != null ==> && fresh(q) && fresh(q.pages) && q.Valid() && q.Repr == q.PageSet()
                          && q.pages.Length == NumPages(size)
                          && (forall i :: 0 <= i < q.pages.Length ==> fresh(q.pages[i]))
                          && alloc.livePages == old(alloc.livePages) + q.PageSet()
                          && alloc.freePages == old(alloc.freePages) - NumPages(size)
                          && alloc.liveBlocks == old(alloc.liveBlocks) + {q}
                          && alloc.freeBlocks == old(alloc.freeBlocks) - 1
  {
    var numPages := NumPages(size);
    q := alloc.AllocQueueRecord(numPages);
    if q != null {
      var i := 0;
      while i < numPages
        invariant q != null && fresh(q) && fresh(q.pages) && q.pages.Length == numPages
        invariant 0 <= i <= numPages
        invariant forall k :: 0 <= k < i ==> q.pages[k] != null && fresh(q.pages[k]) && q.pages[k].Length == PAGE_SIZE
        invariant forall k, l :: 0 <= k < l < i ==> q.pages[k] != q.pages[l]
        invariant alloc.livePages == old(alloc.livePages) + Prefix(q.pages[..], i)
        invariant alloc.freePages == old(alloc.freePages) - i
        invariant alloc.liveBlocks == old(alloc.liveBlocks) + {q}
        invariant alloc.freeBlocks == old(alloc.freeBlocks) - 1
      {
        var p := alloc.AllocPage();
        if p == null {
          // Free all pages allocated so far, then the record.
          while i > 0
            invariant 0 <= i <= numPages
            invariant forall k :: 0 <= k < i ==> q.pages[k] != null && fresh(q.pages[k])
            invariant forall k, l :: 0 <= k < l < i ==> q.pages[k] != q.pages[l]
            invariant alloc.livePages == old(alloc.livePages) + Prefix(q.pages[..], i)
            invariant alloc.freePages == old(alloc.freePages) - i
            invariant alloc.liveBlocks == old(alloc.liveBlocks) + {q}
            invariant alloc.freeBlocks == old(alloc.freeBlocks) - 1
          {
            i := i - 1;
            PrefixShrink(q.pages[..], i);
            assert q.pages[i] !in old(alloc.livePages);
            alloc.FreePage(q.pages[i]);
          }
          alloc.FreeBlock(q);
          q := null;
          break;
        }
        PrefixGrow(q.pages[..], i, p);
        q.pages[i] := p;
        i := i + 1;
      }
      if q != null {
        q.Repr := q.PageSet();
        q.Contents := q.PageBytes();
      }
    }
  }

  /**
   * VMCI_FreeQueueKVA: nothing on a null queue; otherwise free each of the
   * CEILING(size, PAGE_SIZE) pages and then the record.
   */
  method FreeQueueKVA(q: Queue?, size: nat, alloc: Allocator)
    requires q != null ==> && q.WellFormed() && q.pages.Length == NumPages(size)
                           && q.PageSet() <= alloc.livePages && q in alloc.liveBlocks
    modifies alloc
    ensures q == null ==> && alloc.freePages == old(alloc.freePages)
                          && alloc.livePages == old(alloc.livePages)
                          && alloc.freeBlocks == old(alloc.freeBlocks)
                          && alloc.liveBlocks == old(alloc.liveBlocks)
    ensures q != null ==> && alloc.livePages == old(alloc.livePages) - q.PageSet()
                          && alloc.freePages == old(alloc.freePages) + NumPages(size)
                          && alloc.liveBlocks == old(alloc.liveBlocks) - {q}
                          && alloc.freeBlocks == old(alloc.freeBlocks) + 1
  {
    if q != null {
      var i := 0;
      while i < NumPages(size)
        invariant 0 <= i <= NumPages(size)
        invariant alloc.livePages == old(alloc.livePages) - Prefix(q.pages[..], i)
        invariant alloc.freePages == old(alloc.freePages) + i
        invariant alloc.liveBlocks == old(alloc.liveBlocks)
        invariant alloc.freeBlocks == old(alloc.freeBlocks)
      {
        PrefixShrink(q.pages[..], i);
        assert q.pages[i] in q.PageSet();
        alloc.FreePage(q.pages[i]);
        i := i + 1;
      }
      assert Prefix(q.pages[..], i) == q.PageSet();
      alloc.FreeBlock(q);
    }
  }

  // ---------------------------------------------------------------------
  // PPN sets
  // ---------------------------------------------------------------------

  /** A PPNSet: the page-number lists of a produce and a consume queue. */
  class PPNSet {
    var numProducePages: nat
    var numConsumePages: nat
    var producePPNs: array?<Ppn>
    var consumePPNs: array?<Ppn>
    var initialized: bool

    /** A zero-filled set, as callers declare it before the build. */
    constructor ()
      ensures IsZero()
    {
      numProducePages, numConsumePages := 0, 0;
      producePPNs, consumePPNs := null, null;
      initialized := false;
    }

    /** The all-zero state memset leaves behind. */
    predicate IsZero()
      reads this
    {
      numProducePages == 0 && numConsumePages == 0 &&
      producePPNs == null && consumePPNs == null && !initialized
    }

    /** An initialized set owns two distinct lists of the recorded lengths. */
    ghost predicate Valid()
      reads this
    {
      initialized ==>
        && producePPNs != null && consumePPNs != null && producePPNs != consumePPNs
        && producePPNs.Length == numProducePages && consumePPNs.Length == numConsumePages
    }
  }

  /** A page number narrowed to a list element, as the C assignment does. */
  function Truncate(x: nat): Ppn
  {
    x % PPN_LIMIT
  }

  /**
   * The native-width page numbers of the first `n` pages of a queue: the
   * MPN of the queue's header (its own virtual address), then the PFN of
   * each data page in order.
   */
  ghost function PageNumbers(q: Queue, n: nat, kvaToMpn: Queue -> nat, pfnOf: Page -> nat): (ns: seq<nat>)
    requires q.WellFormed() && 1 <= n <= q.pages.Length + 1
    reads q, q.pages
    ensures |ns| == n
  {
    [kvaToMpn(q)] + seq(n - 1, i requires 0 <= i < n - 1 && q.pages[i] != null reads q.pages => pfnOf(q.pages[i]))
  }

  /** The source checks the data-page entries, not entry 0, against the element width. */
  ghost predicate DataPagesFit(ns: seq<nat>)
  {
    forall i :: 1 <= i < |ns| ==> ns[i] < PPN_LIMIT
  }

  /** The list a successful fill leaves behind. */
  ghost function Narrowed(ns: seq<nat>): (r: seq<Ppn>)
    ensures |r| == |ns|
  {
    seq(|ns|, i requires 0 <= i < |ns| => Truncate(ns[i]))
  }

  /** Page numbers that fit are stored unchanged. */
  lemma NarrowedKeepsFittingNumbers(ns: seq<nat>)
    requires DataPagesFit(ns)
    ensures forall i :: 1 <= i < |ns| ==> Narrowed(ns)[i] == ns[i]
    ensures |ns| > 0 ==> Narrowed(ns)[0] == ns[0] % PPN_LIMIT
  {
  }

  /**
   * One of the two fill loops of VMCI_AllocPPNSet: entry 0 gets the header
   * MPN, entry i the PFN of data page i-1; stop with false at the first PFN
   * that does not survive narrowing to the element width.
   */
  method FillPpnList(list: array<Ppn>, q: Queue, kvaToMpn: Queue -> nat, pfnOf: Page -> nat) returns (ok: bool)
    requires q.WellFormed() && 1 <= list.Length <= q.pages.Length + 1
    modifies list
    ensures ok == DataPagesFit(PageNumbers(q, list.Length, kvaToMpn, pfnOf))
    ensures ok ==> list[..] == Narrowed(PageNumbers(q, list.Length, kvaToMpn, pfnOf))
  {
    ghost var ns := PageNumbers(q, list.Length, kvaToMpn, pfnOf);
    list[0] := Truncate(kvaToMpn(q));
    var i := 1;
    while i < list.Length
      invariant 1 <= i <= list.Length
      invariant forall k :: 0 <= k < i ==> list[k] == Truncate(ns[k])
      invariant forall k :: 1 <= k < i ==> ns[k] < PPN_LIMIT
    {
      var pfn := pfnOf(q.pages[i - 1]);
      assert pfn == ns[i];
      list[i] := Truncate(pfn);
      if pfn != list[i] {
        return false;
      }
      i := i + 1;
    }
    assert list[..] == Narrowed(ns);
    return true;
  }

  /**
   * The allocating part of VMCI_AllocPPNSet, after the argument and state
   * checks: both lists or neither stay allocated.
   */
  method AllocAndFillLists(produceQ: Queue, numProducePages: nat, consumeQ: Queue, numConsumePages: nat,
                           alloc: Allocator, kvaToMpn: Queue -> nat, pfnOf: Page -> nat)
    returns (status: Status, producePPNs: array?<Ppn>, consumePPNs: array?<Ppn>)
    requires produceQ.WellFormed() && 1 <= numProducePages <= produceQ.pages.Length + 1
    requires consumeQ.WellFormed() && 1 <= numConsumePages <= consumeQ.pages.Length + 1
    modifies alloc
    ensures status == if old(alloc.freeBlocks) < 2 then ErrorNoMem
                      else if DataPagesFit(PageNumbers(produceQ, numProducePages, kvaToMpn, pfnOf))
                              && DataPagesFit(PageNumbers(consumeQ, numConsumePages, kvaToMpn, pfnOf))
                      then Success
                      else ErrorInvalidArgs
    ensures status != Success ==> alloc.liveBlocks == old(alloc.liveBlocks) && alloc.freeBlocks == old(alloc.freeBlocks)
    ensures status == Success ==>
              && producePPNs != null && consumePPNs != null && producePPNs != consumePPNs
              && fresh(producePPNs) && fresh(consumePPNs)
              && producePPNs[..] == Narrowed(PageNumbers(produceQ, numProducePages, kvaToMpn, pfnOf))
              && consumePPNs[..] == Narrowed(PageNumbers(consumeQ, numConsumePages, kvaToMpn, pfnOf))
              && alloc.liveBlocks == old(alloc.liveBlocks) + {producePPNs, consumePPNs}
              && alloc.freeBlocks == old(alloc.freeBlocks) - 2
    ensures alloc.freePages == old(alloc.freePages) && alloc.livePages == old(alloc.livePages)
  {
    producePPNs := alloc.AllocPpnList(numProducePages);
    consumePPNs := null;
    if producePPNs == null {
      return ErrorNoMem, producePPNs, consumePPNs;
    }
    consumePPNs := alloc.AllocPpnList(numConsumePages);
    if consumePPNs == null {
      alloc.FreeBlock(producePPNs);
      return ErrorNoMem, producePPNs, consumePPNs;
    }
    var ok := FillPpnList(producePPNs, produceQ, kvaToMpn, pfnOf);
    if ok {
      ok := FillPpnList(consumePPNs, consumeQ, kvaToMpn, pfnOf);
    }
    if !ok {
      // ppnError: release both lists.
      alloc.FreeBlock(producePPNs);
      alloc.FreeBlock(consumePPNs);
      assert alloc.liveBlocks == old(alloc.liveBlocks);
      return ErrorInvalidArgs, producePPNs, consumePPNs;
    }
    return Success, producePPNs, consumePPNs;
  }

  /** The argument check at the top of VMCI_AllocPPNSet. */
  predicate BadPpnArgs(produceQ: Queue?, numProducePages: nat, consumeQ: Queue?, numConsumePages: nat, ppnSet: PPNSet?)
  {
    produceQ == null || numProducePages == 0 || consumeQ == null || numConsumePages == 0 || ppnSet == null
  }

  /**
   * VMCI_AllocPPNSet. Fails with InvalidArgs on a null or zero argument,
   * AlreadyExists on an initialized set, NoMem when either list cannot be
   * allocated, and InvalidArgs when a data-page PFN overflows the element
   * width; on every failure the set is not written and no list stays
   * allocated. On success both lists hold the queue's narrowed page numbers.
   */
  method AllocPPNSet(produceQ: Queue?, numProducePages: nat, consumeQ: Queue?, numConsumePages: nat,
                     ppnSet: PPNSet?, alloc: Allocator, kvaToMpn: Queue -> nat, pfnOf: Page -> nat)
    returns (status: Status)
    requires produceQ != null && numProducePages > 0 ==> produceQ.WellFormed() && numProducePages <= produceQ.pages.Length + 1
    requires consumeQ != null && numConsumePages > 0 ==> consumeQ.WellFormed() && numConsumePages <= consumeQ.pages.Length + 1
    modifies ppnSet, alloc
    ensures BadPpnArgs(produceQ, numProducePages, consumeQ, numConsumePages, ppnSet) ==> status == ErrorInvalidArgs
    ensures !BadPpnArgs(produceQ, numProducePages, consumeQ, numConsumePages, ppnSet) ==>
              if old(ppnSet.initialized) then status == ErrorAlreadyExists
              else if old(alloc.freeBlocks) < 2 then status == ErrorNoMem
              else if DataPagesFit(PageNumbers(produceQ, numProducePages, kvaToMpn, pfnOf))
                   && DataPagesFit(PageNumbers(consumeQ, numConsumePages, kvaToMpn, pfnOf))
              then status == Success
              else status == ErrorInvalidArgs
    ensures status != Success ==> && (ppnSet != null ==> unchanged(ppnSet))
                                  && alloc.liveBlocks == old(alloc.liveBlocks)
                                  && alloc.freeBlocks == old(alloc.freeBlocks)
    ensures status == Success ==>
              && ppnSet != null && produceQ != null && consumeQ != null
              && ppnSet.initialized && ppnSet.Valid()
              && ppnSet.numProducePages == numProducePages && ppnSet.numConsumePages == numConsumePages
              && fresh(ppnSet.producePPNs) && fresh(ppnSet.consumePPNs)
              && ppnSet.producePPNs[..] == Narrowed(PageNumbers(produceQ, numProducePages, kvaToMpn, pfnOf))
              && ppnSet.consumePPNs[..] == Narrowed(PageNumbers(consumeQ, numConsumePages, kvaToMpn, pfnOf))
              && alloc.liveBlocks == old(alloc.liveBlocks) + {ppnSet.producePPNs, ppnSet.consumePPNs}
              && alloc.freeBlocks == old(alloc.freeBlocks) - 2
    ensures alloc.freePages == old(alloc.freePages) && alloc.livePages == old(alloc.livePages)
  {
    if BadPpnArgs(produceQ, numProducePages, consumeQ, numConsumePages, ppnSet) {
      return ErrorInvalidArgs;
    }
    if ppnSet.initialized {
      return ErrorAlreadyExists;
    }
    var producePPNs, consumePPNs;
    status, producePPNs, consumePPNs := AllocAndFillLists(produceQ, numProducePages, consumeQ, numConsumePages,
                                                          alloc, kvaToMpn, pfnOf);
    if status != Success {
      return;
    }
    ppnSet.numProducePages := numProducePages;
    ppnSet.numConsumePages := numConsumePages;
    ppnSet.producePPNs := producePPNs;
    ppnSet.consumePPNs := consumePPNs;
    ppnSet.initialized := true;
    return Success;
  }

  /**
   * VMCI_FreePPNSet: free both lists only when the set is initialized, then
   * zero the whole set.
   */
  method FreePPNSet(ppnSet: PPNSet, alloc: Allocator)
    requires ppnSet.Valid()
    requires ppnSet.initialized ==> ppnSet.producePPNs in alloc.liveBlocks && ppnSet.consumePPNs in alloc.liveBlocks
    modifies ppnSet, alloc
    ensures ppnSet.IsZero()
    ensures alloc.liveBlocks == if old(ppnSet.initialized)
                                then old(alloc.liveBlocks) - {old(ppnSet.producePPNs), old(ppnSet.consumePPNs)}
                                else old(alloc.liveBlocks)
    ensures alloc.freeBlocks == if old(ppnSet.initialized) then old(alloc.freeBlocks) + 2 else old(alloc.freeBlocks)
    ensures alloc.freePages == old(alloc.freePages) && alloc.livePages == old(alloc.livePages)
  {
    if ppnSet.initialized {
      alloc.FreeBlock(ppnSet.producePPNs);
      alloc.FreeBlock(ppnSet.consumePPNs);
    }
    ppnSet.numProducePages, ppnSet.numConsumePages := 0, 0;
    ppnSet.producePPNs, ppnSet.consumePPNs := null, null;
    ppnSet.initialized := false;
  }

  // ---------------------------------------------------------------------
  // The hypercall page-number list
  // ---------------------------------------------------------------------

  /** Size in bytes of one list element. */
  const PPN_BYTES: nat := 4

  /** The bytes memcpy lays down for one element, in the host's
      little-endian order. */
  function EncodePpn(x: Ppn): (b: seq<Byte>)
    ensures |b| == PPN_BYTES
  {
    [x % 0x100, (x / 0x100) % 0x100, (x / 0x1_0000) % 0x100, x / 0x100_0000]
  }

  /** How the peer reads one element back. */
  function DecodePpn(b: seq<Byte>): Ppn
    requires |b| == PPN_BYTES
  {
    b[0] as int + 0x100 * (b[1] as int) + 0x1_0000 * (b[2] as int) + 0x100_0000 * (b[3] as int)
  }

  /** A list of elements laid out back to back, with no padding. */
  function EncodePpns(xs: seq<Ppn>): seq<Byte>
  {
    if xs == [] then [] else EncodePpn(xs[0]) + EncodePpns(xs[1..])
  }

  function DecodePpns(b: seq<Byte>): seq<Ppn>
    requires |b| % PPN_BYTES == 0
  {
    if b == [] then [] else [DecodePpn(b[..PPN_BYTES])] + DecodePpns(b[PPN_BYTES..])
  }

  lemma DecodeEncodePpn(x: Ppn)
    ensures DecodePpn(EncodePpn(x)) == x
  {
    var r1 := x / 0x100;
    var r2 := r1 / 0x100;
    var r3 := r2 / 0x100;
    assert x == x % 0x100 + 0x100 * r1;
    assert r1 == r1 % 0x100 + 0x100 * r2;
    assert r2 == r2 % 0x100 + 0x100 * r3;
    assert r2 == x / 0x1_0000 && r3 == x / 0x100_0000;
  }

  lemma {:induction false} EncodePpnsLength(xs: seq<Ppn>)
    ensures |EncodePpns(xs)| == PPN_BYTES * |xs|
  {
    if xs != [] {
      EncodePpnsLength(xs[1..]);
    }
  }

  /** Byte j of the layout is byte j % 4 of element j / 4. */
  lemma {:induction false} EncodePpnsAt(xs: seq<Ppn>, j: nat)
    requires j < PPN_BYTES * |xs|
    ensures |EncodePpns(xs)| == PPN_BYTES * |xs|
    ensures EncodePpns(xs)[j] == EncodePpn(xs[j / PPN_BYTES])[j % PPN_BYTES]
  {
    EncodePpnsLength(xs);
    if j >= PPN_BYTES {
      EncodePpnsAt(xs[1..], j - PPN_BYTES);
    }
  }

  /** The peer recovers exactly the lists that were laid out. */
  lemma {:induction false} DecodeEncodePpns(xs: seq<Ppn>)
    ensures |EncodePpns(xs)| % PPN_BYTES == 0
    ensures DecodePpns(EncodePpns(xs)) == xs
  {
    EncodePpnsLength(xs);
    if xs != [] {
      var e := EncodePpns(xs);
      assert e[..PPN_BYTES] == EncodePpn(xs[0]);
      assert e[PPN_BYTES..] == EncodePpns(xs[1..]);
      DecodeEncodePpn(xs[0]);
      DecodeEncodePpns(xs[1..]);
    }
  }

  /** Two lists laid out one after the other read back as their concatenation. */
  lemma {:induction false} DecodeConcat(a: seq<Byte>, b: seq<Byte>)
    requires |a| % PPN_BYTES == 0 && |b| % PPN_BYTES == 0
    ensures DecodePpns(a + b) == DecodePpns(a) + DecodePpns(b)
  {
    if a != [] {
      assert (a + b)[..PPN_BYTES] == a[..PPN_BYTES];
      assert (a + b)[PPN_BYTES..] == a[PPN_BYTES..] + b;
      DecodeConcat(a[PPN_BYTES..], b);
    } else {
      assert a + b == b;
    }
  }

  /** The hypercall payload built from a produce and a consume list. */
  function PpnPayload(produce: seq<Ppn>, consume: seq<Ppn>): seq<Byte>
  {
    EncodePpns(produce) + EncodePpns(consume)
  }

  /**
   * The payload reads back as the produce list followed immediately by the
   * consume list; for a 3-page produce and 2-page consume list that is five
   * elements, with the two header entries at 0 and 3.
   */
  lemma PpnPayloadLayout(produce: seq<Ppn>, consume: seq<Ppn>)
    ensures |PpnPayload(produce, consume)| == PPN_BYTES * (|produce| + |consume|)
    ensures |PpnPayload(produce, consume)| % PPN_BYTES == 0
    ensures DecodePpns(PpnPayload(produce, consume)) == produce + consume
    ensures |produce| == 3 && |consume| == 2 ==>
              var list := DecodePpns(PpnPayload(produce, consume));
              |list| == 5 && list[0] == produce[0] && list[3] == consume[0]
  {
    EncodePpnsLength(produce);
    EncodePpnsLength(consume);
    DecodeEncodePpns(produce);
    DecodeEncodePpns(consume);
    DecodeConcat(EncodePpns(produce), EncodePpns(consume));
  }

  /**
   * VMCI_PopulatePPNList: copy the produce list to bytes [0, np*4) of the
   * call buffer and the consume list right after it; nothing else changes.
   */
  method PopulatePPNList(callBuf: array<Byte>, ppnSet: PPNSet) returns (status: Status)
    requires ppnSet.Valid() && ppnSet.initialized
    requires PPN_BYTES * (ppnSet.numProducePages + ppnSet.numConsumePages) <= callBuf.Length
    modifies callBuf
    ensures status == Success
    ensures var n := PPN_BYTES * (ppnSet.numProducePages + ppnSet.numConsumePages);
            && callBuf[..n] == PpnPayload(ppnSet.producePPNs[..], ppnSet.consumePPNs[..])
            && callBuf[n..] == old(callBuf[n..])
  {
    var produce := ppnSet.producePPNs;
    var consume := ppnSet.consumePPNs;
    var np := PPN_BYTES * ppnSet.numProducePages;
    var nc := PPN_BYTES * ppnSet.numConsumePages;
    forall j | 0 <= j < np {
      callBuf[j] := EncodePpn(produce[j / PPN_BYTES])[j % PPN_BYTES];
    }
    forall j | np <= j < np + nc {
      callBuf[j] := EncodePpn(consume[(j - np) / PPN_BYTES])[(j - np) % PPN_BYTES];
    }
    ghost var payload := PpnPayload(produce[..], consume[..]);
    EncodePpnsLength(produce[..]);
    EncodePpnsLength(consume[..]);
    forall j | 0 <= j < np + nc
      ensures callBuf[j] == payload[j]
    {
      if j < np {
        EncodePpnsAt(produce[..], j);
      } else {
        EncodePpnsAt(consume[..], j - np);
      }
    }
    assert callBuf[..np + nc] == payload;
    return Success;
  }

  // ---------------------------------------------------------------------
  // Page-walking copies
  // ---------------------------------------------------------------------

  /**
   * Stand-in for a struct iovec as memcpy_fromiovec and memcpy_toiovec use
   * it: the user bytes it describes, flattened, and the cursor the helpers
   * advance. A transfer of `len` bytes fails with -EFAULT, leaving
   * everything as it was, when fewer than `len` bytes remain.
   */
  class IoVec {
    var data: seq<Byte>
    var pos: nat

    constructor (data: seq<Byte>)
      ensures this.data == data && pos == 0 && Valid()
    {
      this.data, pos := data, 0;
    }

    predicate Valid()
      reads this
    {
      pos <= |data|
    }

    /** memcpy_fromiovec: take the next `len` bytes. */
    method FromIovec(len: nat) returns (err: int, chunk: seq<Byte>)
      requires Valid()
      modifies this
      ensures Valid() && data == old(data)
      ensures err == 0 <==> old(pos) + len <= |data|
      ensures err == 0 ==> chunk == data[old(pos)..old(pos) + len] && pos == old(pos) + len
      ensures err != 0 ==> err == -EFAULT && pos == old(pos)
    {
      if pos + len <= |data| {
        chunk := data[pos..pos + len];
        pos := pos + len;
        err := 0;
      } else {
        chunk := [];
        err := -EFAULT;
      }
    }

    /** memcpy_toiovec: store `bytes` at the cursor. */
    method ToIovec(bytes: seq<Byte>) returns (err: int)
      requires Valid()
      modifies this
      ensures Valid() && |data| == |old(data)|
      ensures err == 0 <==> old(pos) + |bytes| <= |data|
      ensures err == 0 ==> && data == old(data)[..old(pos)] + bytes + old(data)[old(pos) + |bytes|..]
                           && pos == old(pos) + |bytes|
      ensures err != 0 ==> err == -EFAULT && data == old(data) && pos == old(pos)
    {
      if pos + |bytes| <= |data| {
        data := data[..pos] + bytes + data[pos + |bytes|..];
        pos := pos + |bytes|;
        err := 0;
      } else {
        err := -EFAULT;
      }
    }
  }

  /** What __VMCIMemcpyToQueue copies from: a flat buffer seen from offset
      `start`, or an iovec (the `isIovec` flag). */
  datatype Source = Flat(buf: seq<Byte>, start: nat) | Iov(iov: IoVec)

  /** What __VMCIMemcpyFromQueue copies to. */
  datatype Dest = FlatDest(buf: array<Byte>, start: nat) | IovDest(iov: IoVec)

  /** One step of the copy loop: the page, the offset in it, and the length. */
  datatype Chunk = Chunk(pageIndex: nat, pageOffset: nat, toCopy: nat)

  /**
   * The chunk the copy loops handle after `bytesCopied` bytes: it starts at
   * queue byte queueOffset + bytesCopied, stays inside one page, is not
   * empty, and ends either at the page end or at the end of the request.
   */
  function NextChunk(queueOffset: nat, bytesCopied: nat, size: nat): (c: Chunk)
    requires bytesCopied < size
    ensures c.pageIndex * PAGE_SIZE + c.pageOffset == queueOffset + bytesCopied
    ensures c.pageOffset < PAGE_SIZE && c.pageOffset + c.toCopy <= PAGE_SIZE
    ensures 0 < c.toCopy <= size - bytesCopied
    ensures c.toCopy == PAGE_SIZE - c.pageOffset || c.toCopy == size - bytesCopied
  {
    var pageIndex := (queueOffset + bytesCopied) / PAGE_SIZE;
    var pageOffset := (queueOffset + bytesCopied) % PAGE_SIZE;
    var toCopy := if size - bytesCopied > PAGE_SIZE - pageOffset then PAGE_SIZE - pageOffset else size - bytesCopied;
    Chunk(pageIndex, pageOffset, toCopy)
  }

  /** A queue byte belongs to a chunk exactly when it sits in the chunk's
      page within the chunk's offsets. */
  lemma InChunk(c: Chunk, k: nat)
    requires c.pageOffset + c.toCopy <= PAGE_SIZE
    ensures var base := c.pageIndex * PAGE_SIZE + c.pageOffset;
            (base <= k < base + c.toCopy) <==>
            (k / PAGE_SIZE == c.pageIndex && c.pageOffset <= k % PAGE_SIZE < c.pageOffset + c.toCopy)
  {
  }

  /** Store one chunk into its page (the memcpy to `va + pageOffset`). */
  method WriteChunk(queue: Queue, c: Chunk, chunk: seq<Byte>, ghost at: nat)
    requires queue.Valid() && c.pageIndex < queue.pages.Length
    requires c.pageOffset + c.toCopy <= PAGE_SIZE && |chunk| == c.toCopy
    requires at == c.pageIndex * PAGE_SIZE + c.pageOffset
    modifies queue, queue.pages[c.pageIndex]
    ensures queue.Repr == old(queue.Repr)
    ensures queue.Valid()
    ensures queue.Contents == old(queue.Contents)[..at] + chunk + old(queue.Contents)[at + |chunk|..]
  {
    var page := queue.pages[c.pageIndex];
    forall j | 0 <= j < c.toCopy {
      page[c.pageOffset + j] := chunk[j];
    }
    queue.Contents := queue.Contents[..at] + chunk + queue.Contents[at + |chunk|..];
    forall k | 0 <= k < |queue.Contents|
      ensures queue.Contents[k] == queue.PageByte(k)
    {
      InChunk(c, k);
      if !(at <= k < at + c.toCopy) {
        assert old(queue.Contents)[k] == old(queue.PageByte(k));
        assert queue.pages[k / PAGE_SIZE][k % PAGE_SIZE] == old(queue.pages[k / PAGE_SIZE][k % PAGE_SIZE]);
      }
    }
  }

  /** The bytes of one chunk, read from its page, are the bytes of the
      requested range [queueOffset, queueOffset + size) the chunk covers. */
  lemma ChunkBytes(queue: Queue, c: Chunk, queueOffset: nat, bytesCopied: nat, size: nat)
    requires queue.Valid() && c.pageIndex < queue.pages.Length
    requires c.pageOffset + c.toCopy <= PAGE_SIZE && bytesCopied + c.toCopy <= size
    requires queueOffset + size <= queue.Capacity()
    requires c.pageIndex * PAGE_SIZE + c.pageOffset == queueOffset + bytesCopied
    ensures queue.pages[c.pageIndex] != null
    ensures queue.pages[c.pageIndex][c.pageOffset..c.pageOffset + c.toCopy]
            == queue.Contents[queueOffset..queueOffset + size][bytesCopied..bytesCopied + c.toCopy]
  {
    var range := queue.Contents[queueOffset..queueOffset + size];
    var page := queue.pages[c.pageIndex];
    forall j | bytesCopied <= j < bytesCopied + c.toCopy
      ensures range[j] == page[j - bytesCopied + c.pageOffset]
    {
      var k := queueOffset + j;
      InChunk(c, k);
      assert range[j] == queue.Contents[k];
      assert queue.Contents[k] == queue.PageByte(k);
    }
    assert page[c.pageOffset..c.pageOffset + c.toCopy] == range[bytesCopied..bytesCopied + c.toCopy];
  }

  /** Writing the next `t` input bytes after the `n` already copied extends
      the copied window by `t`. */
  lemma SpliceGrows(before: seq<Byte>, input: seq<Byte>, prev: seq<Byte>, next: seq<Byte>, chunk: seq<Byte>,
                    o: nat, n: nat, t: nat)
    requires o + n + t <= |before| && n + t <= |input|
    requires chunk == input[n..n + t]
    requires prev == before[..o] + input[..n] + before[o + n..]
    requires next == prev[..o + n] + chunk + prev[o + n + t..]
    ensures next == before[..o] + input[..n + t] + before[o + n + t..]
  {
    assert |next| == |before|;
    forall k | 0 <= k < |next|
      ensures next[k] == (before[..o] + input[..n + t] + before[o + n + t..])[k]
    {
      if k < o + n { assert next[k] == prev[k]; }
      else if k >= o + n + t { assert next[k] == prev[k]; }
    }
  }

  /** Store bytes into a flat buffer (the memcpy to `dest + bytesCopied`). */
  method WriteFlat(buf: array<Byte>, at: nat, chunk: seq<Byte>)
    requires at + |chunk| <= buf.Length
    modifies buf
    ensures buf[..] == old(buf[..])[..at] + chunk + old(buf[..])[at + |chunk|..]
  {
    forall j | 0 <= j < |chunk| {
      buf[at + j] := chunk[j];
    }
    assert forall k | 0 <= k < buf.Length :: buf[k] == (old(buf[..])[..at] + chunk + old(buf[..])[at + |chunk|..])[k];
  }

  /** The frame of a copy: the iovec, when there is one. */
  ghost function SourceFrame(src: Source): set<object>
  {
    if src.Iov? then {src.iov} else {}
  }

  /** The frame of a copy out of a queue: the flat buffer or the iovec. */
  ghost function DestFrame(dest: Dest): set<object>
  {
    if dest.IovDest? then {dest.iov} else {dest.buf}
  }

  /** With `mid` written over `before` at `o`, the length and the bytes
      outside [o, o + size) stay as they were, for any size >= |mid|. */
  lemma SpliceOutside(before: seq<Byte>, mid: seq<Byte>, o: nat, size: nat)
    requires |mid| <= size && o + size <= |before|
    ensures var r := before[..o] + mid + before[o + |mid|..];
            && |r| == |before|
            && r[..o] == before[..o]
            && r[o + size..] == before[o + size..]
  {
    var r := before[..o] + mid + before[o + |mid|..];
    assert r[o + size..] == before[o + |mid|..][size - |mid|..];
  }

  /*
   * The copy engine tests `isIovec` inside its loop; the flag never changes
   * between passes, so the model tests it once and runs one loop per kind
   * of buffer, each pass doing what the corresponding branch does.
   */

  /** The __VMCIMemcpyToQueue loop over a flat source: `src` holds the bytes
      from the source pointer on, and pass after pass stores the next
      page-bounded chunk of it. */
  method CopyBufferToQueue(queue: Queue, queueOffset: nat, src: seq<Byte>, size: nat)
    requires queue.Valid()
    requires queueOffset + size <= queue.Capacity() && size <= |src|
    modifies queue, queue.Repr
    ensures queue.Repr == old(queue.Repr)
    ensures queue.Valid()
    ensures queue.Contents == old(queue.Contents)[..queueOffset] + src[..size] + old(queue.Contents)[queueOffset + size..]
  {
    ghost var before := queue.Contents;
    var bytesCopied := 0;
    while bytesCopied < size
      invariant bytesCopied <= size && queue.Valid() && queue.Repr == old(queue.Repr)
      invariant queue.Contents == before[..queueOffset] + src[..bytesCopied] + before[queueOffset + bytesCopied..]
    {
      var c := NextChunk(queueOffset, bytesCopied, size);
      var chunk := src[bytesCopied..bytesCopied + c.toCopy];
      ghost var prev := queue.Contents;
      WriteChunk(queue, c, chunk, queueOffset + bytesCopied);
      SpliceGrows(before, src, prev, queue.Contents, chunk, queueOffset, bytesCopied, c.toCopy);
      bytesCopied := bytesCopied + c.toCopy;
    }
  }

  /** One pass of the __VMCIMemcpyToQueue loop over an iovec: draw the next
      chunk with memcpy_fromiovec and store it in its page; on failure
      neither the queue nor the cursor moves. */
  method IovecChunkToQueue(queue: Queue, queueOffset: nat, iov: IoVec, size: nat, bytesCopied: nat,
                           ghost before: seq<Byte>, ghost input: seq<Byte>, ghost pos0: nat)
    returns (err: int, toCopy: nat)
    requires bytesCopied < size && queueOffset + size <= queue.Capacity() && |before| == queue.Capacity()
    requires queue.Valid() && iov.Valid() && iov.pos == pos0 + bytesCopied && pos0 <= |iov.data|
    requires input == iov.data[pos0..] && bytesCopied <= |input|
    requires queue.Contents == before[..queueOffset] + input[..bytesCopied] + before[queueOffset + bytesCopied..]
    modifies queue, queue.Repr, iov
    ensures queue.Repr == old(queue.Repr)
    ensures queue.Valid() && iov.Valid() && iov.data == old(iov.data)
    ensures 0 < toCopy <= size - bytesCopied
    ensures err == 0 <==> old(iov.pos) + toCopy <= |iov.data|
    ensures err != 0 ==> err == -EFAULT && iov.pos == old(iov.pos) && queue.Contents == old(queue.Contents)
    ensures err == 0 ==> && iov.pos == old(iov.pos) + toCopy
                         && queue.Contents == before[..queueOffset] + input[..bytesCopied + toCopy]
                                              + before[queueOffset + bytesCopied + toCopy..]
  {
    var c := NextChunk(queueOffset, bytesCopied, size);
    toCopy := c.toCopy;
    var chunk;
    err, chunk := iov.FromIovec(c.toCopy);
    if err != 0 {
      return;
    }
    assert chunk == input[bytesCopied..bytesCopied + c.toCopy];
    ghost var prev := queue.Contents;
    WriteChunk(queue, c, chunk, queueOffset + bytesCopied);
    SpliceGrows(before, input, prev, queue.Contents, chunk, queueOffset, bytesCopied, c.toCopy);
  }

  /** The __VMCIMemcpyToQueue loop over an iovec: pass after pass draws the
      next chunk, and the first error is returned at once. */
  method CopyIovecToQueue(queue: Queue, queueOffset: nat, iov: IoVec, size: nat) returns (err: int)
    requires queue.Valid() && iov.Valid()
    requires queueOffset + size <= queue.Capacity()
    modifies queue, queue.Repr, iov
    ensures queue.Repr == old(queue.Repr)
    ensures queue.Valid() && iov.Valid() && iov.data == old(iov.data)
    ensures err == 0 <==> old(iov.pos) + size <= |iov.data|
    ensures err != 0 ==> err == -EFAULT
    ensures err == 0 ==> && queue.Contents == old(queue.Contents)[..queueOffset]
                                              + iov.data[old(iov.pos)..old(iov.pos) + size]
                                              + old(queue.Contents)[queueOffset + size..]
                         && iov.pos == old(iov.pos) + size
    ensures |queue.Contents| == |old(queue.Contents)|
    ensures queue.Contents[..queueOffset] == old(queue.Contents)[..queueOffset]
    ensures queue.Contents[queueOffset + size..] == old(queue.Contents)[queueOffset + size..]
  {
    ghost var before := queue.Contents;
    ghost var input := iov.data[iov.pos..];
    ghost var pos0 := iov.pos;
    var bytesCopied := 0;
    while bytesCopied < size
      invariant bytesCopied <= size && bytesCopied <= |input| && queue.Valid() && queue.Repr == old(queue.Repr)
      invariant iov.Valid() && iov.data == old(iov.data) && iov.pos == pos0 + bytesCopied
      invariant queue.Contents == before[..queueOffset] + input[..bytesCopied] + before[queueOffset + bytesCopied..]
    {
      var e, toCopy := IovecChunkToQueue(queue, queueOffset, iov, size, bytesCopied, before, input, pos0);
      if e != 0 {
        SpliceOutside(before, input[..bytesCopied], queueOffset, size);
        return e;
      }
      bytesCopied := bytesCopied + toCopy;
    }
    SpliceOutside(before, input[..size], queueOffset, size);
    assert input[..size] == iov.data[pos0..pos0 + size];
    return 0;
  }

  /**
   * __VMCIMemcpyToQueue: copy `size` bytes from `src` to queue bytes
   * [queueOffset, queueOffset + size). A flat copy cannot fail; an iovec
   * failure is returned as it comes. The bytes outside the range are never
   * touched.
   */
  method CopyToQueue(queue: Queue, queueOffset: nat, src: Source, size: nat) returns (err: int)
    requires queue.Valid()
    requires queueOffset + size <= queue.Capacity()
    requires src.Flat? ==> src.start + size <= |src.buf|
    requires src.Iov? ==> src.iov.Valid()
    modifies queue, queue.Repr, SourceFrame(src)
    ensures queue.Repr == old(queue.Repr)
    ensures queue.Valid()
    ensures src.Flat? ==> && err == 0
                          && queue.Contents == old(queue.Contents)[..queueOffset]
                                               + src.buf[src.start..src.start + size]
                                               + old(queue.Contents)[queueOffset + size..]
    ensures src.Iov? ==> && src.iov.Valid() && src.iov.data == old(src.iov.data)
                         && (err == 0 <==> old(src.iov.pos) + size <= |src.iov.data|)
                         && (err != 0 ==> err == -EFAULT)
                         && (err == 0 ==> && queue.Contents == old(queue.Contents)[..queueOffset]
                                                              + src.iov.data[old(src.iov.pos)..old(src.iov.pos) + size]
                                                              + old(queue.Contents)[queueOffset + size..]
                                          && src.iov.pos == old(src.iov.pos) + size)
    ensures |queue.Contents| == |old(queue.Contents)|
    ensures queue.Contents[..queueOffset] == old(queue.Contents)[..queueOffset]
    ensures queue.Contents[queueOffset + size..] == old(queue.Contents)[queueOffset + size..]
  {
    if src.Iov? {
      err := CopyIovecToQueue(queue, queueOffset, src.iov, size);
    } else {
      CopyBufferToQueue(queue, queueOffset, src.buf[src.start..], size);
      assert src.buf[src.start..][..size] == src.buf[src.start..src.start + size];
      SpliceOutside(old(queue.Contents), src.buf[src.start..src.start + size], queueOffset, size);
      err := 0;
    }
  }

  /** The memcpy out of `va + pageOffset`: the bytes of one chunk, which
      are the bytes of the requested range the chunk covers. */
  method ReadChunk(queue: Queue, c: Chunk, queueOffset: nat, bytesCopied: nat, size: nat) returns (chunk: seq<Byte>)
    requires queue.Valid() && c.pageIndex < queue.pages.Length
    requires c.pageOffset + c.toCopy <= PAGE_SIZE && bytesCopied + c.toCopy <= size
    requires queueOffset + size <= queue.Capacity()
    requires c.pageIndex * PAGE_SIZE + c.pageOffset == queueOffset + bytesCopied
    ensures chunk == queue.Contents[queueOffset..queueOffset + size][bytesCopied..bytesCopied + c.toCopy]
  {
    ChunkBytes(queue, c, queueOffset, bytesCopied, size);
    chunk := queue.pages[c.pageIndex][c.pageOffset..c.pageOffset + c.toCopy];
  }

  /** One pass of the __VMCIMemcpyFromQueue loop into a flat buffer: read
      the next chunk and store it at `dest + start + bytesCopied`. */
  method QueueChunkToBuffer(dest: array<Byte>, start: nat, queue: Queue, queueOffset: nat, size: nat,
                            bytesCopied: nat, ghost out0: seq<Byte>)
    returns (toCopy: nat)
    requires queue.Valid() && dest !in queue.Repr
    requires bytesCopied < size && queueOffset + size <= queue.Capacity()
    requires start + size <= dest.Length && |out0| == dest.Length
    requires dest[..] == out0[..start] + queue.Contents[queueOffset..queueOffset + size][..bytesCopied]
                         + out0[start + bytesCopied..]
    modifies dest
    ensures queue.Valid() && 0 < toCopy <= size - bytesCopied
    ensures dest[..] == out0[..start] + queue.Contents[queueOffset..queueOffset + size][..bytesCopied + toCopy]
                        + out0[start + bytesCopied + toCopy..]
  {
    ghost var data := queue.Contents[queueOffset..queueOffset + size];
    var c := NextChunk(queueOffset, bytesCopied, size);
    toCopy := c.toCopy;
    var chunk := ReadChunk(queue, c, queueOffset, bytesCopied, size);
    ghost var prev := dest[..];
    WriteFlat(dest, start + bytesCopied, chunk);
    SpliceGrows(out0, data, prev, dest[..], chunk, start, bytesCopied, c.toCopy);
  }

  /** The __VMCIMemcpyFromQueue loop into a flat buffer: pass after pass
      stores the next page-bounded chunk. */
  method CopyQueueToBuffer(dest: array<Byte>, start: nat, queue: Queue, queueOffset: nat, size: nat)
    requires queue.Valid()
    requires queueOffset + size <= queue.Capacity() && start + size <= dest.Length
    requires dest !in queue.Repr
    modifies dest
    ensures queue.Valid()
    ensures dest[..] == old(dest[..])[..start] + queue.Contents[queueOffset..queueOffset + size]
                        + old(dest[..])[start + size..]
  {
    ghost var out0 := dest[..];
    var bytesCopied := 0;
    while bytesCopied < size
      invariant bytesCopied <= size && queue.Valid()
      invariant dest[..] == out0[..start] + queue.Contents[queueOffset..queueOffset + size][..bytesCopied]
                           + out0[start + bytesCopied..]
    {
      var toCopy := QueueChunkToBuffer(dest, start, queue, queueOffset, size, bytesCopied, out0);
      bytesCopied := bytesCopied + toCopy;
    }
    assert queue.Contents[queueOffset..queueOffset + size][..size] == queue.Contents[queueOffset..queueOffset + size];
  }

  /** One pass of the __VMCIMemcpyFromQueue loop into an iovec: read the
      next chunk and hand it to memcpy_toiovec; on failure the iovec does
      not change. */
  method QueueChunkToIovec(iov: IoVec, queue: Queue, queueOffset: nat, size: nat, bytesCopied: nat,
                           ghost out0: seq<Byte>, ghost at0: nat)
    returns (err: int, toCopy: nat)
    requires queue.Valid() && iov.Valid()
    requires bytesCopied < size && queueOffset + size <= queue.Capacity()
    requires |iov.data| == |out0| && iov.pos == at0 + bytesCopied
    requires iov.data == out0[..at0] + queue.Contents[queueOffset..queueOffset + size][..bytesCopied]
                         + out0[at0 + bytesCopied..]
    modifies iov
    ensures queue.Valid() && iov.Valid() && |iov.data| == |out0| && 0 < toCopy <= size - bytesCopied
    ensures err == 0 <==> old(iov.pos) + toCopy <= |out0|
    ensures err != 0 ==> err == -EFAULT
    ensures err == 0 ==> && iov.pos == at0 + bytesCopied + toCopy
                         && iov.data == out0[..at0] + queue.Contents[queueOffset..queueOffset + size][..bytesCopied + toCopy]
                                        + out0[at0 + bytesCopied + toCopy..]
  {
    ghost var data := queue.Contents[queueOffset..queueOffset + size];
    var c := NextChunk(queueOffset, bytesCopied, size);
    toCopy := c.toCopy;
    var chunk := ReadChunk(queue, c, queueOffset, bytesCopied, size);
    ghost var prev := iov.data;
    err := iov.ToIovec(chunk);
    if err == 0 {
      SpliceGrows(out0, data, prev, iov.data, chunk, at0, bytesCopied, c.toCopy);
    }
  }

  /** The __VMCIMemcpyFromQueue loop into an iovec: pass after pass hands
      the next chunk over, and the first error is returned at once. */
  method CopyQueueToIovec(iov: IoVec, queue: Queue, queueOffset: nat, size: nat) returns (err: int)
    requires queue.Valid() && iov.Valid()
    requires queueOffset + size <= queue.Capacity()
    modifies iov
    ensures queue.Valid() && iov.Valid() && |iov.data| == |old(iov.data)|
    ensures err == 0 <==> old(iov.pos) + size <= |old(iov.data)|
    ensures err != 0 ==> err == -EFAULT
    ensures err == 0 ==> && iov.data == old(iov.data)[..old(iov.pos)] + queue.Contents[queueOffset..queueOffset + size]
                                        + old(iov.data)[old(iov.pos) + size..]
                         && iov.pos == old(iov.pos) + size
  {
    ghost var out0 := iov.data;
    ghost var at0 := iov.pos;
    var bytesCopied := 0;
    while bytesCopied < size
      invariant bytesCopied <= size && queue.Valid()
      invariant iov.Valid() && |iov.data| == |out0| && iov.pos == at0 + bytesCopied
      invariant iov.data == out0[..at0] + queue.Contents[queueOffset..queueOffset + size][..bytesCopied]
                            + out0[at0 + bytesCopied..]
    {
      var e, toCopy := QueueChunkToIovec(iov, queue, queueOffset, size, bytesCopied, out0, at0);
      if e != 0 {
        return e;
      }
      bytesCopied := bytesCopied + toCopy;
    }
    assert queue.Contents[queueOffset..queueOffset + size][..size] == queue.Contents[queueOffset..queueOffset + size];
    return 0;
  }

  /**
   * __VMCIMemcpyFromQueue: copy queue bytes [queueOffset, queueOffset + size)
   * to `dest`. A flat copy cannot fail; an iovec failure is returned as it
   * comes. The queue is only read.
   */
  method CopyFromQueue(dest: Dest, queue: Queue, queueOffset: nat, size: nat) returns (err: int)
    requires queue.Valid()
    requires queueOffset + size <= queue.Capacity()
    requires dest.FlatDest? ==> dest.start + size <= dest.buf.Length && dest.buf !in queue.Repr
    requires dest.IovDest? ==> dest.iov.Valid()
    modifies DestFrame(dest)
    ensures queue.Valid()
    ensures dest.FlatDest? ==> && err == 0
                               && dest.buf[..] == old(dest.buf[..])[..dest.start]
                                                  + queue.Contents[queueOffset..queueOffset + size]
                                                  + old(dest.buf[..])[dest.start + size..]
    ensures dest.IovDest? ==> && dest.iov.Valid() && |dest.iov.data| == |old(dest.iov.data)|
                              && (err == 0 <==> old(dest.iov.pos) + size <= |old(dest.iov.data)|)
                              && (err != 0 ==> err == -EFAULT)
                              && (err == 0 ==> && dest.iov.data == old(dest.iov.data)[..old(dest.iov.pos)]
                                                                  + queue.Contents[queueOffset..queueOffset + size]
                                                                  + old(dest.iov.data)[old(dest.iov.pos) + size..]
                                               && dest.iov.pos == old(dest.iov.pos) + size)
  {
    if dest.IovDest? {
      err := CopyQueueToIovec(dest.iov, queue, queueOffset, size);
    } else {
      CopyQueueToBuffer(dest.buf, dest.start, queue, queueOffset, size);
      err := 0;
    }
  }

  /** VMCIMemcpyToQueue: a flat copy from `src + srcOffset`; it cannot fail. */
  method MemcpyToQueue(queue: Queue, queueOffset: nat, src: seq<Byte>, srcOffset: nat, size: nat) returns (err: int)
    requires queue.Valid()
    requires queueOffset + size <= queue.Capacity() && srcOffset + size <= |src|
    modifies queue, queue.Repr
    ensures queue.Repr == old(queue.Repr)
    ensures queue.Valid() && err == 0
    ensures queue.Contents == old(queue.Contents)[..queueOffset] + src[srcOffset..srcOffset + size]
                              + old(queue.Contents)[queueOffset + size..]
  {
    err := CopyToQueue(queue, queueOffset, Flat(src, srcOffset), size);
  }

  /** VMCIMemcpyFromQueue: a flat copy to `dest + destOffset`; it cannot fail. */
  method MemcpyFromQueue(dest: array<Byte>, destOffset: nat, queue: Queue, queueOffset: nat, size: nat) returns (err: int)
    requires queue.Valid()
    requires queueOffset + size <= queue.Capacity() && destOffset + size <= dest.Length
    requires dest !in queue.Repr
    modifies dest
    ensures queue.Valid() && err == 0
    ensures dest[..] == old(dest[..])[..destOffset] + queue.Contents[queueOffset..queueOffset + size]
                        + old(dest[..])[destOffset + size..]
  {
    err := CopyFromQueue(FlatDest(dest, destOffset), queue, queueOffset, size);
  }

  /** VMCIMemcpyToQueueV: an iovec copy; `srcOffset` is ignored, since the
      iovec keeps its own cursor. */
  method MemcpyToQueueV(queue: Queue, queueOffset: nat, src: IoVec, srcOffset: nat, size: nat) returns (err: int)
    requires queue.Valid() && src.Valid()
    requires queueOffset + size <= queue.Capacity()
    modifies queue, queue.Repr, src
    ensures queue.Repr == old(queue.Repr)
    ensures queue.Valid() && src.Valid() && src.data == old(src.data)
    ensures err == 0 <==> old(src.pos) + size <= |src.data|
    ensures err != 0 ==> err == -EFAULT
    ensures err == 0 ==> && queue.Contents == old(queue.Contents)[..queueOffset] + src.data[old(src.pos)..old(src.pos) + size]
                                              + old(queue.Contents)[queueOffset + size..]
                         && src.pos == old(src.pos) + size
    ensures |queue.Contents| == |old(queue.Contents)|
    ensures queue.Contents[..queueOffset] == old(queue.Contents)[..queueOffset]
    ensures queue.Contents[queueOffset + size..] == old(queue.Contents)[queueOffset + size..]
  {
    err := CopyToQueue(queue, queueOffset, Iov(src), size);
  }

  /** VMCIMemcpyFromQueueV: an iovec copy; `destOffset` is ignored, since the
      iovec keeps its own cursor. */
  method MemcpyFromQueueV(dest: IoVec, destOffset: nat, queue: Queue, queueOffset: nat, size: nat) returns (err: int)
    requires queue.Valid() && dest.Valid()
    requires queueOffset + size <= queue.Capacity()
    modifies dest
    ensures queue.Valid() && dest.Valid() && |dest.data| == |old(dest.data)|
    ensures err == 0 <==> old(dest.pos) + size <= |old(dest.data)|
    ensures err != 0 ==> err == -EFAULT
    ensures err == 0 ==> && dest.data == old(dest.data)[..old(dest.pos)] + queue.Contents[queueOffset..queueOffset + size]
                                         + old(dest.data)[old(dest.pos) + size..]
                         && dest.pos == old(dest.pos) + size
  {
    err := CopyFromQueue(IovDest(dest), queue, queueOffset, size);
  }

  /**
   * Bytes written to a queue range and read back from the same range come
   * back unchanged: the page walk of both copies addresses the same bytes.
   * The rest of the destination is not touched.
   */
  method RoundTrip(queue: Queue, queueOffset: nat, src: seq<Byte>, srcOffset: nat,
                   dest: array<Byte>, destOffset: nat, size: nat) returns (err: int)
    requires queue.Valid()
    requires queueOffset + size <= queue.Capacity() && srcOffset + size <= |src| && destOffset + size <= dest.Length
    requires dest !in queue.Repr
    modifies queue, queue.Repr, dest
    ensures queue.Valid() && queue.Repr == old(queue.Repr)
    ensures queue.Contents == old(queue.Contents)[..queueOffset] + src[srcOffset..srcOffset + size]
                              + old(queue.Contents)[queueOffset + size..]
    ensures err == 0 && dest[destOffset..destOffset + size] == src[srcOffset..srcOffset + size]
    ensures dest[..destOffset] == old(dest[..destOffset]) && dest[destOffset + size..] == old(dest[destOffset + size..])
  {
    err := MemcpyToQueue(queue, queueOffset, src, srcOffset, size);
    assert queue.Contents[queueOffset..queueOffset + size] == src[srcOffset..srcOffset + size];
    err := MemcpyFromQueue(dest, destOffset, queue, queueOffset, size);
    assert dest[destOffset..destOffset + size] == dest[..][destOffset..destOffset + size];
    assert dest[..destOffset] == dest[..][..destOffset] && dest[destOffset + size..] == dest[..][destOffset + size..];
  }

  /**
   * The same round trip through two iovecs: it succeeds exactly when the
   * source holds `size` more bytes and the destination has room for them,
   * and then the destination receives the source's next `size` bytes.
   */
  method RoundTripV(queue: Queue, queueOffset: nat, src: IoVec, dest: IoVec, size: nat) returns (err: int)
    requires queue.Valid() && src.Valid() && dest.Valid() && src != dest
    requires queueOffset + size <= queue.Capacity()
    modifies queue, queue.Repr, src, dest
    ensures src.data == old(src.data) && queue.Valid() && queue.Repr == old(queue.Repr)
    ensures err == 0 <==> old(src.pos) + size <= |src.data| && old(dest.pos) + size <= |old(dest.data)|
    ensures err != 0 ==> err == -EFAULT
    ensures err == 0 ==> dest.data == old(dest.data)[..old(dest.pos)] + src.data[old(src.pos)..old(src.pos) + size]
                                      + old(dest.data)[old(dest.pos) + size..]
  {
    err := MemcpyToQueueV(queue, queueOffset, src, 0, size);
    if err != 0 {
      return;
    }
    err := MemcpyFromQueueV(dest, 0, queue, queueOffset, size);
  }

  // ---------------------------------------------------------------------
  // Well-known IDs
  // ---------------------------------------------------------------------

  /** Resource IDs below this bound are reserved. */
  const RESERVED_RESOURCE_ID_MAX: int := 1023

  /** The privilege bit that admits a context to the reserved range. */
  const PRIVILEGE_FLAG_TRUSTED: bv32 := 0x02

  /** VMCIWellKnownID_AllowMap: refuse a reserved ID to an untrusted caller. */
  predicate AllowMap(wellKnownId: bv32, privFlags: bv32)
  {
    !((wellKnownId as int) < RESERVED_RESOURCE_ID_MAX && privFlags & PRIVILEGE_FLAG_TRUSTED == 0)
  }

  /** Of the privilege flags, only the trusted bit bears on the decision. */
  lemma AllowMapOnlyTrustedMatters(wellKnownId: bv32, privFlags: bv32)
    ensures AllowMap(wellKnownId, privFlags) <==> AllowMap(wellKnownId, privFlags & PRIVILEGE_FLAG_TRUSTED)
  {
  }

  /** An ID outside the reserved range may be mapped by anyone. */
  lemma AllowMapUnreserved(wellKnownId: bv32, privFlags: bv32)
    requires wellKnownId as int >= RESERVED_RESOURCE_ID_MAX
    ensures AllowMap(wellKnownId, privFlags)
  {
  }

  /** A trusted caller may map every ID; an untrusted one no reserved ID. */
  lemma AllowMapTrusted(wellKnownId: bv32, privFlags: bv32)
    ensures privFlags & PRIVILEGE_FLAG_TRUSTED != 0 ==> AllowMap(wellKnownId, privFlags)
    ensures privFlags & PRIVILEGE_FLAG_TRUSTED == 0 && (wellKnownId as int) < RESERVED_RESOURCE_ID_MAX
            ==> !AllowMap(wellKnownId, privFlags)
  {
  }

  /** Granting more privileges never takes access away. */
  lemma AllowMapMonotone(wellKnownId: bv32, privFlags: bv32, more: bv32)
    requires AllowMap(wellKnownId, privFlags)
    ensures AllowMap(wellKnownId, privFlags | more)
  {
  }
}

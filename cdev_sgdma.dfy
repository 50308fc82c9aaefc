/**
 * The scatter-gather DMA character device (src/cdev_sgdma.c): the transfer
 * alignment check, the page arithmetic that maps a user buffer onto a
 * scatter-gather list and releases it again, the synchronous read/write
 * path, the asynchronous fan-out over an I/O vector with its completion
 * fan-in, seeking, and the single-open rule of streaming receive nodes.
 *
 * Page pinning, table allocation, transfer submission and completion are
 * kernel and engine services: their results are parameters and the calls
 * are recorded in a `Log`.
 */
module SgDma {
  import opened Kernel
  import opened LibMdlx
  import opened CharDev

  const PAGE_SIZE: nat := 4096
  const TWO32: nat := 0x1_0000_0000
  const TWO64: nat := 0x1_0000_0000_0000_0000
  /** Highest user address on x86-64; the VFS has checked user ranges against it. */
  const TASK_SIZE: nat := 0x7fff_ffff_f000
  /** Largest byte count the VFS passes on (INT_MAX rounded down to a page). */
  const MAX_RW_COUNT: nat := 0x7fff_f000

  /** A user buffer the VFS lets through to the driver. */
  predicate UserRange(buf: nat, len: nat) {
    buf + len <= TASK_SIZE && len <= MAX_RW_COUNT
  }

  // ----- transfer alignment -----

  /**
   * `addr_align - 1` applied to an `int`-cast address: the 32-bit mask,
   * zero-extended, so masking the 64-bit value keeps only low bits.
   */
  function AlignMask(align: bv32): bv64 {
    (align - 1) as bv64
  }

  /** `(size_t)len_granularity - 1`: the `int` is sign-extended first. */
  function GranularityMask(gran: bv32): bv64 {
    if gran & 0x8000_0000 != 0 then ((gran as bv64) | 0xffff_ffff_0000_0000) - 1
    else (gran as bv64) - 1
  }

  /**
   * `check_transfer_align` on the engine's addressing mode, alignment and
   * granularity: in non-incremental mode the buffer, the device address
   * (when the `sync` argument is set, which every caller does) and the
   * length must each be aligned; in
   * incremental mode the buffer and device address must share their offset
   * within the alignment.
   */
  function AlignVerdict(nonIncr: bool, align: bv32, gran: bv32,
                        buf: bv64, count: bv64, pos: bv64, sync: bool): (rv: int)
    ensures rv == 0 || rv == -EINVAL
    ensures nonIncr ==> (rv == 0 <==>
      buf & AlignMask(align) == 0 && (!sync || pos & AlignMask(align) == 0)
      && count & GranularityMask(gran) == 0)
    ensures !nonIncr ==> (rv == 0 <==> buf & AlignMask(align) == pos & AlignMask(align))
  {
    if nonIncr then
      if buf & AlignMask(align) != 0 then -EINVAL
      else if pos & AlignMask(align) != 0 && sync then -EINVAL
      else if count & GranularityMask(gran) != 0 then -EINVAL
      else 0
    else
      if buf & AlignMask(align) != pos & AlignMask(align) then -EINVAL else 0
  }

  /** `check_transfer_align`: a missing engine is rejected. */
  function CheckTransferAlign(engine: Engine?, buf: bv64, count: bv64, pos: bv64, sync: bool): (rv: int)
    ensures engine == null ==> rv == -EINVAL
    ensures engine != null ==>
      rv == AlignVerdict(engine.nonIncrAddr, engine.addrAlign, engine.lenGranularity, buf, count, pos, sync)
  {
    if engine == null then -EINVAL
    else AlignVerdict(engine.nonIncrAddr, engine.addrAlign, engine.lenGranularity, buf, count, pos, sync)
  }

  /**
   * Alignment 64 and granularity 4096 in non-incremental mode: 8192 bytes
   * from a 64-aligned buffer go to device address 0 but not to address 4.
   */
  lemma NonIncrementalScenario()
    ensures AlignVerdict(true, 64, 4096, 0x7f00_0000_1040, 8192, 0, true) == 0
    ensures AlignVerdict(true, 64, 4096, 0x7f00_0000_1040, 8192, 4, true) == -EINVAL
    ensures AlignVerdict(true, 64, 4096, 0x7f00_0000_1040, 8192, 4, false) == 0
    ensures AlignVerdict(true, 64, 4096, 0x7f00_0000_1040, 8000, 0, true) == -EINVAL
  {
  }

  /**
   * Incremental mode with alignment 64: the buffer and device address must
   * agree in their low six bits, wherever they lie.
   */
  lemma IncrementalScenario()
    ensures AlignVerdict(false, 64, 1, 0x7f00_0000_1044, 3, 0x1_0004, true) == 0
    ensures AlignVerdict(false, 64, 1, 0x7f00_0000_1044, 3, 0x1_0000, true) == -EINVAL
  {
  }

  /**
   * What non-incremental mode accepts with the `sync` argument set it also
   * accepts with the argument clear, which drops the device-address
   * condition, and the incremental rule accepts it too (both offsets are 0).
   */
  lemma NonIncrementalIsStricter(align: bv32, gran: bv32, buf: bv64, count: bv64, pos: bv64)
    requires AlignVerdict(true, align, gran, buf, count, pos, true) == 0
    ensures AlignVerdict(true, align, gran, buf, count, pos, false) == 0
    ensures AlignVerdict(false, align, gran, buf, count, pos, true) == 0
  {
  }

  /** The incremental rule relates buffers and device addresses symmetrically and transitively. */
  lemma IncrementalIsEquivalence(align: bv32, gran: bv32, b: bv64, p: bv64, q: bv64, count: bv64, sync: bool)
    ensures AlignVerdict(false, align, gran, b, count, p, sync) == AlignVerdict(false, align, gran, p, count, b, sync)
    ensures AlignVerdict(false, align, gran, b, count, p, sync) == 0
         && AlignVerdict(false, align, gran, p, count, q, sync) == 0
         ==> AlignVerdict(false, align, gran, b, count, q, sync) == 0
  {
  }

  // ----- seeking -----

  const UINT_MAX: int := 0xffff_ffff

  /** A `loff_t` value. */
  predicate IsLoff(x: int) {
    -0x8000_0000_0000_0000 <= x < 0x8000_0000_0000_0000
  }

  /** Signed 64-bit wrap-around of an exact sum. */
  function WrapLoff(x: int): (r: int)
    ensures IsLoff(r)
    ensures IsLoff(x) ==> r == x
    ensures (r - x) % TWO64 == 0
  {
    (x + 0x8000_0000_0000_0000) % TWO64 - 0x8000_0000_0000_0000
  }

  /**
   * The position `char_sgdma_llseek` computes: the offset itself, the offset
   * from the current position, or the offset from the end of a 32-bit
   * space; None for any other `whence`.
   */
  function SeekTarget(pos: int, off: int, whence: int): (r: Option<int>)
    ensures r.None? <==> !(0 <= whence <= 2)
    ensures r.Some? ==> IsLoff(r.value)
  {
    if whence == 0 then Some(WrapLoff(off))
    else if whence == 1 then Some(WrapLoff(pos + off))
    else if whence == 2 then Some(WrapLoff(UINT_MAX + off))
    else None
  }

  /**
   * `char_sgdma_llseek`: a bad `whence` or a negative target is -EINVAL and
   * leaves the position alone; otherwise the target becomes the position
   * and is returned.
   */
  method Llseek(file: File, off: int, whence: int) returns (r: int)
    requires IsLoff(off) && IsLoff(file.pos)
    modifies file
    ensures file.privateData == old(file.privateData)
    ensures SeekTarget(old(file.pos), off, whence).None? ==> r == -EINVAL && file.pos == old(file.pos)
    ensures SeekTarget(old(file.pos), off, whence).Some? ==>
      var t := SeekTarget(old(file.pos), off, whence).value;
      (t < 0 ==> r == -EINVAL && file.pos == old(file.pos)) && (t >= 0 ==> r == t && file.pos == t)
  {
    var newpos := 0;
    if whence == 0 {
      newpos := off;
    } else if whence == 1 {
      newpos := WrapLoff(file.pos + off);
    } else if whence == 2 {
      newpos := WrapLoff(UINT_MAX + off);
    } else {
      return -EINVAL;
    }
    if newpos < 0 {
      return -EINVAL;
    }
    file.pos := newpos;
    r := newpos;
  }

  /** Within range, seeking from the current position adds the offset; seeking by 0 stays put. */
  lemma SeekCurrent(pos: int, off: int)
    requires IsLoff(pos) && IsLoff(pos + off)
    ensures SeekTarget(pos, off, 1) == Some(pos + off)
    ensures SeekTarget(pos, 0, 1) == Some(pos)
  {
  }

  /**
   * Seeking from the end counts from 2^32 - 1; an offset below -(2^32 - 1)
   * is refused and an offset that runs past the 64-bit range wraps negative
   * and is refused as well.
   */
  lemma SeekEnd(off: int)
    requires IsLoff(off)
    ensures off >= -UINT_MAX && UINT_MAX + off < 0x8000_0000_0000_0000 ==> SeekTarget(0, off, 2) == Some(UINT_MAX + off)
    ensures off < -UINT_MAX ==> SeekTarget(0, off, 2).value < 0
    ensures UINT_MAX + off >= 0x8000_0000_0000_0000 ==> SeekTarget(0, off, 2).value < 0
  {
  }

  // ----- page arithmetic -----

  /**
   * The page count of `char_sgdma_map_user_buf_to_sgl`: end rounded up
   * minus start rounded down, in pages, with the `unsigned long` wrap-around
   * and the truncation to `unsigned int` written out.
   */
  function PagesNr(buf: nat, len: nat): (n: nat)
    requires buf < TWO64 && len < TWO64
    ensures n < TWO32
  {
    var last := (buf + len + PAGE_SIZE - 1) % TWO64;
    var first := buf - buf % PAGE_SIZE;
    (((last - first) % TWO64) / PAGE_SIZE) % TWO32
  }

  /**
   * For a buffer the VFS lets through, the count is the number of pages the
   * range [buf, buf + len) touches; it is 0 only for an empty range that
   * starts on a page boundary.
   */
  lemma PagesSpanned(buf: nat, len: nat)
    requires UserRange(buf, len)
    ensures PagesNr(buf, len) == (buf % PAGE_SIZE + len + PAGE_SIZE - 1) / PAGE_SIZE
    ensures PagesNr(buf, len) == 0 <==> len == 0 && buf % PAGE_SIZE == 0
    ensures len > 0 ==> (PagesNr(buf, len) - 1) * PAGE_SIZE < buf % PAGE_SIZE + len <= PagesNr(buf, len) * PAGE_SIZE
  {
    var off := buf % PAGE_SIZE;
    var last := (buf + len + PAGE_SIZE - 1) % TWO64;
    assert last == buf + len + PAGE_SIZE - 1;
    var first := buf - off;
    assert (last - first) % TWO64 == off + len + PAGE_SIZE - 1;
    var n := (off + len + PAGE_SIZE - 1) / PAGE_SIZE;
    assert n < TWO32;
  }

  function Min(a: int, b: int): int {
    if a <= b then a else b
  }

  /** Bytes of a buffer (offset `off` in its first page, `len` long) held by pages 0 .. j-1. */
  function Consumed(off: nat, len: nat, j: nat): (c: nat)
    requires off < PAGE_SIZE
    ensures c <= len
  {
    if j == 0 then 0 else Min(len, j * PAGE_SIZE - off)
  }

  /** Offset of segment j within its page: only the first segment starts mid-page. */
  function SegOffset(off: nat, j: nat): nat {
    if j == 0 then off else 0
  }

  /** Length of segment j: the rest of its page or the rest of the buffer. */
  function SegLength(off: nat, len: nat, j: nat): (l: nat)
    requires off < PAGE_SIZE
    ensures l <= PAGE_SIZE - SegOffset(off, j)
  {
    Min(PAGE_SIZE - SegOffset(off, j), len - Consumed(off, len, j))
  }

  /** Each segment carries the buffer on from where the previous one stopped. */
  lemma ConsumedStep(off: nat, len: nat, j: nat)
    requires off < PAGE_SIZE
    ensures Consumed(off, len, j + 1) == Consumed(off, len, j) + SegLength(off, len, j)
  {
  }

  /** With as many segments as pages spanned, the whole buffer is covered. */
  lemma ConsumedAll(off: nat, len: nat)
    requires off < PAGE_SIZE
    ensures Consumed(off, len, (off + len + PAGE_SIZE - 1) / PAGE_SIZE) == len
  {
    var n := (off + len + PAGE_SIZE - 1) / PAGE_SIZE;
    if n > 0 {
      assert n * PAGE_SIZE >= off + len;
    } else {
      assert len == 0;
    }
  }

  /** The list the segment loop builds over the pinned pages. */
  function SgList(off: nat, len: nat, pages: seq<PageId>): (sg: seq<Segment>)
    requires off < PAGE_SIZE
    ensures |sg| == |pages|
    ensures forall j :: 0 <= j < |pages| ==> sg[j] == Segment(pages[j], SegLength(off, len, j), SegOffset(off, j))
  {
    seq(|pages|, j requires 0 <= j < |pages| => Segment(pages[j], SegLength(off, len, j), SegOffset(off, j)))
  }

  /** The lengths of a list of segments, added up. */
  function TotalLength(sg: seq<Segment>): nat {
    if sg == [] then 0 else TotalLength(sg[..|sg| - 1]) + sg[|sg| - 1].length
  }

  /** The segments of the first k pages hold exactly the bytes those pages consume. */
  lemma {:induction false} SgListPrefixTotal(off: nat, len: nat, pages: seq<PageId>, k: nat)
    requires off < PAGE_SIZE && k <= |pages|
    ensures TotalLength(SgList(off, len, pages)[..k]) == Consumed(off, len, k)
  {
    if k > 0 {
      var sg := SgList(off, len, pages);
      assert sg[..k][..k - 1] == sg[..k - 1];
      SgListPrefixTotal(off, len, pages, k - 1);
      ConsumedStep(off, len, k - 1);
    }
  }

  /**
   * A successful map's list: every segment but the first starts at offset
   * 0, each is as long as its page or the rest of the buffer allows, and
   * the lengths add up to the buffer length.
   */
  lemma SgListCoversBuffer(buf: nat, len: nat, pages: seq<PageId>)
    requires UserRange(buf, len) && |pages| == PagesNr(buf, len)
    ensures var sg := SgList(buf % PAGE_SIZE, len, pages);
      && TotalLength(sg) == len
      && (forall j :: 0 < j < |sg| ==> sg[j].offset == 0)
      && (|sg| > 0 ==> sg[0].offset == buf % PAGE_SIZE)
      && (forall j :: 0 <= j < |sg| ==> sg[j].length == Min(PAGE_SIZE - sg[j].offset, len - Consumed(buf % PAGE_SIZE, len, j)))
  {
    var off := buf % PAGE_SIZE;
    var sg := SgList(off, len, pages);
    PagesSpanned(buf, len);
    SgListPrefixTotal(off, len, pages, |pages|);
    assert sg[..|pages|] == sg;
    ConsumedAll(off, len);
  }

  /**
   * The scatter-gather list a control block hands to the engine: its table,
   * or the empty list while none is built (the table is a member of the
   * block, so the engine is never given a null list).
   */
  function Table(sgt: Option<seq<Segment>>): seq<Segment> {
    if sgt.Some? then sgt.value else []
  }

  // ----- the I/O control block and its pages -----

  /**
   * `struct mdlx_io_cb`: the user buffer, the device address and direction,
   * the page array (None while it is not allocated, a None slot for a NULL
   * entry), the number of pages to release, the scatter-gather table and
   * the asynchronous aggregate the block belongs to.
   */
  class IoCb {
    var buf: nat
    var len: nat
    var epAddr: int
    var write: bool
    var pagesNr: nat
    var pages: Option<seq<Option<PageId>>>
    var sgt: Option<seq<Segment>>
    var owner: AsyncIo?

    /** A zeroed block that then receives the request's buffer, address, direction and owner. */
    constructor (buf: nat, len: nat, epAddr: int, write: bool, owner: AsyncIo?)
      ensures this.buf == buf && this.len == len && this.epAddr == epAddr
      ensures this.write == write && this.owner == owner
      ensures pagesNr == 0 && pages == None && sgt == None
    {
      this.buf := buf;
      this.len := len;
      this.epAddr := epAddr;
      this.write := write;
      this.owner := owner;
      pagesNr := 0;
      pages := None;
      sgt := None;
    }

    /** The page count never runs past the page array. */
    ghost predicate Valid()
      reads this
    {
      pages.Some? ==> pagesNr <= |pages.value|
    }
  }

  /** The page values of a run of non-NULL slots. */
  function Values(s: seq<Option<PageId>>): (r: seq<PageId>)
    requires forall j :: 0 <= j < |s| ==> s[j].Some?
    ensures |r| == |s|
    ensures forall j :: 0 <= j < |s| ==> s[j] == Some(r[j])
  {
    seq(|s|, j requires 0 <= j < |s| => s[j].value)
  }

  /** Pages as filled-in slots. */
  function Somes(ps: seq<PageId>): (r: seq<Option<PageId>>)
    ensures |r| == |ps|
    ensures forall j :: 0 <= j < |ps| ==> r[j] == Some(ps[j])
  {
    seq(|ps|, j requires 0 <= j < |ps| => Some(ps[j]))
  }

  /**
   * How many of the first k slots the release loop of
   * `char_sgdma_unmap_user_buf` gets through: it stops at the first NULL.
   */
  function ReleaseCount(ps: seq<Option<PageId>>, k: nat): (i: nat)
    requires k <= |ps|
    ensures i <= k
    ensures forall j :: 0 <= j < i ==> ps[j].Some?
    ensures i < k ==> ps[i].None?
  {
    if k == 0 then 0
    else
      var i := ReleaseCount(ps, k - 1);
      if i < k - 1 then i else if ps[k - 1].Some? then k else k - 1
  }

  /** The pages an unmap releases: none without an array or a count. */
  function ReleasedPages(pages: Option<seq<Option<PageId>>>, k: nat): (r: seq<PageId>)
    requires pages.Some? ==> k <= |pages.value|
    ensures |r| <= k
  {
    if pages.None? || k == 0 then []
    else Values(pages.value[..ReleaseCount(pages.value, k)])
  }

  /** The page array after an unmap: freed, unless the unmap returned early. */
  function PagesAfterUnmap(pages: Option<seq<Option<PageId>>>, k: nat): Option<seq<Option<PageId>>> {
    if pages.None? || k == 0 then pages else None
  }

  /** The calls releasing one page: marked dirty (reads only), then put. */
  function ReleaseCalls(p: PageId, write: bool): seq<Call> {
    if write then [PutPage(p)] else [SetPageDirty(p), PutPage(p)]
  }

  /** The calls releasing `ps`, page after page. */
  function UnmapCalls(ps: seq<PageId>, write: bool): (r: seq<Call>)
    ensures |r| == if write then |ps| else 2 * |ps|
  {
    if ps == [] then [] else UnmapCalls(ps[..|ps| - 1], write) + ReleaseCalls(ps[|ps| - 1], write)
  }

  /** Releasing one page puts it, pins nothing, and dirties it only for a read. */
  lemma ReleaseCallsViews(p: PageId, write: bool)
    ensures PutPagesOf(ReleaseCalls(p, write)) == [p]
    ensures DirtiedPagesOf(ReleaseCalls(p, write)) == (if write then [] else [p])
    ensures PinnedPagesOf(ReleaseCalls(p, write)) == []
  {
    assert [PutPage(p)][..0] == [];
    if !write {
      assert [SetPageDirty(p)][..0] == [];
      ViewsAppend([SetPageDirty(p)], [PutPage(p)]);
      assert [SetPageDirty(p)] + [PutPage(p)] == ReleaseCalls(p, write);
    }
  }

  /**
   * Releasing pages puts each of them exactly once, in order, pins
   * nothing, and marks each one dirty exactly when the device wrote into
   * it (a read).
   */
  lemma {:induction false} UnmapReleasesEachOnce(ps: seq<PageId>, write: bool)
    ensures PutPagesOf(UnmapCalls(ps, write)) == ps
    ensures DirtiedPagesOf(UnmapCalls(ps, write)) == (if write then [] else ps)
    ensures PinnedPagesOf(UnmapCalls(ps, write)) == []
  {
    UnmapPuts(ps, write);
    UnmapDirties(ps, write);
    UnmapPins(ps, write);
  }

  /** Releasing pages puts each of them once, in order. */
  lemma {:induction false} UnmapPuts(ps: seq<PageId>, write: bool)
    ensures PutPagesOf(UnmapCalls(ps, write)) == ps
  {
    if ps != [] {
      var init, p := ps[..|ps| - 1], ps[|ps| - 1];
      UnmapPuts(init, write);
      UnmapViewsLast(ps, write);
      assert init + [p] == ps;
    }
  }

  /** Releasing pages marks each one dirty, in order, only for a read. */
  lemma {:induction false} UnmapDirties(ps: seq<PageId>, write: bool)
    ensures DirtiedPagesOf(UnmapCalls(ps, write)) == (if write then [] else ps)
  {
    if ps != [] {
      var init, p := ps[..|ps| - 1], ps[|ps| - 1];
      UnmapDirties(init, write);
      UnmapViewsLast(ps, write);
      assert init + [p] == ps;
    }
  }

  /** Releasing pages pins nothing. */
  lemma {:induction false} UnmapPins(ps: seq<PageId>, write: bool)
    ensures PinnedPagesOf(UnmapCalls(ps, write)) == []
  {
    if ps != [] {
      UnmapPins(ps[..|ps| - 1], write);
      UnmapViewsLast(ps, write);
    }
  }

  /** The views of the release calls grow by the last page's release. */
  lemma UnmapViewsLast(ps: seq<PageId>, write: bool)
    requires ps != []
    ensures var init, p := UnmapCalls(ps[..|ps| - 1], write), ps[|ps| - 1];
      && PutPagesOf(UnmapCalls(ps, write)) == PutPagesOf(init) + [p]
      && DirtiedPagesOf(UnmapCalls(ps, write)) == DirtiedPagesOf(init) + (if write then [] else [p])
      && PinnedPagesOf(UnmapCalls(ps, write)) == PinnedPagesOf(init)
  {
    var head, tail := UnmapCalls(ps[..|ps| - 1], write), ReleaseCalls(ps[|ps| - 1], write);
    assert UnmapCalls(ps, write) == head + tail;
    ReleaseCallsViews(ps[|ps| - 1], write);
    ViewsAppend(head, tail);
  }

  /**
   * Releasing one more slot's page, past a run of non-NULL slots, extends
   * the run and the calls by that page's release.
   */
  lemma UnmapCallsStep(ps: seq<Option<PageId>>, i: nat, write: bool)
    requires i < |ps| && ReleaseCount(ps, i) == i && ps[i].Some?
    ensures ReleaseCount(ps, i + 1) == i + 1
    ensures UnmapCalls(Values(ps[..i + 1]), write) == UnmapCalls(Values(ps[..i]), write) + ReleaseCalls(ps[i].value, write)
  {
    assert Values(ps[..i + 1])[..i] == Values(ps[..i]);
  }

  /**
   * `char_sgdma_unmap_user_buf`: the table is freed; with an array and a
   * count, the pages up to the first NULL slot are released and the array
   * is freed. The count itself is left as it was.
   */
  method Unmap(cb: IoCb, write: bool, log: Log)
    requires cb.Valid()
    modifies cb, log
    ensures cb.sgt == None
    ensures cb.pages == PagesAfterUnmap(old(cb.pages), old(cb.pagesNr))
    ensures log.calls == old(log.calls) + UnmapCalls(ReleasedPages(old(cb.pages), old(cb.pagesNr)), write)
    ensures cb.buf == old(cb.buf) && cb.len == old(cb.len) && cb.epAddr == old(cb.epAddr)
    ensures cb.write == old(cb.write) && cb.pagesNr == old(cb.pagesNr) && cb.owner == old(cb.owner)
    ensures cb.Valid()
  {
    cb.sgt := None;
    if cb.pages.None? || cb.pagesNr == 0 {
      return;
    }
    ReleasePages(cb.pages.value, cb.pagesNr, write, log);
    cb.pages := None;
  }

  /** The release loop of the unmap: slots in order, stopping at the first NULL. */
  method ReleasePages(ps: seq<Option<PageId>>, k: nat, write: bool, log: Log)
    requires 0 < k <= |ps|
    modifies log
    ensures log.calls == old(log.calls) + UnmapCalls(ReleasedPages(Some(ps), k), write)
  {
    var i := 0;
    while i < k && ps[i].Some?
      invariant i <= k
      invariant ReleaseCount(ps, i) == i
      invariant log.calls == old(log.calls) + UnmapCalls(Values(ps[..i]), write)
    {
      UnmapCallsStep(ps, i, write);
      ReleasePage(ps[i].value, write, log);
      i := i + 1;
    }
    ReleasedUpTo(ps, i, k);
  }

  /** Where the release loop stops, it has released exactly the released pages. */
  lemma ReleasedUpTo(ps: seq<Option<PageId>>, i: nat, k: nat)
    requires 0 < k <= |ps| && i <= k && ReleaseCount(ps, i) == i && (i < k ==> ps[i].None?)
    ensures ReleasedPages(Some(ps), k) == Values(ps[..i])
  {
    if i < k {
      ReleaseCountStops(ps, i, k);
    }
  }

  /** One step of the release loop: the page is marked dirty for a read, then put. */
  method ReleasePage(p: PageId, write: bool, log: Log)
    modifies log
    ensures log.calls == old(log.calls) + ReleaseCalls(p, write)
  {
    if !write {
      log.calls := log.calls + [SetPageDirty(p)];
    }
    log.calls := log.calls + [PutPage(p)];
  }

  /** Once the loop meets a NULL slot, further slots do not matter. */
  lemma {:induction false} ReleaseCountStops(ps: seq<Option<PageId>>, i: nat, k: nat)
    requires i < k <= |ps| && ReleaseCount(ps, i) == i && ps[i].None?
    ensures ReleaseCount(ps, k) == i
  {
    if k > i + 1 {
      ReleaseCountStops(ps, i, k - 1);
    }
  }

  /** A second unmap finds nothing left to release. */
  lemma UnmapTwiceReleasesNothing(pages: Option<seq<Option<PageId>>>, k: nat)
    requires pages.Some? ==> k <= |pages.value|
    ensures ReleasedPages(PagesAfterUnmap(pages, k), k) == []
    ensures PagesAfterUnmap(PagesAfterUnmap(pages, k), k) == PagesAfterUnmap(pages, k)
  {
  }

  // ----- mapping a user buffer -----

  /**
   * What the kernel answers while a buffer is mapped: whether the
   * scatter-gather table and the page array could be allocated, the value
   * `get_user_pages_fast` returns, and the pages it pinned.
   */
  datatype MapOracle = MapOracle(sgAllocOk: bool, pagesAllocOk: bool, pinResult: int, pinned: seq<PageId>)

  /** Pinning never reports more than the `n` pages asked for, and reports the pages it did pin. */
  predicate Fits(o: MapOracle, n: nat) {
    o.pinResult <= n && |o.pinned| == (if o.pinResult < 0 then 0 else o.pinResult)
  }

  /** Two neighbouring slots hold the same page. */
  predicate HasAdjacentDuplicate(ps: seq<PageId>) {
    exists j :: 1 <= j < |ps| && ps[j - 1] == ps[j]
  }

  /** The `n`-slot array `kcalloc` zeroed and pinning filled from the front. */
  function PinnedArray(pinned: seq<PageId>, n: nat): (arr: seq<Option<PageId>>)
    requires |pinned| <= n
    ensures |arr| == n
    ensures forall j :: 0 <= j < n ==> arr[j] == if j < |pinned| then Some(pinned[j]) else None
  {
    Somes(pinned) + seq(n - |pinned|, _ => None)
  }

  /** The control block's state and the calls a map leaves behind. */
  datatype MapOutcome = MapOutcome(rv: int, pagesNr: nat, pages: Option<seq<Option<PageId>>>,
                                   sgt: Option<seq<Segment>>, calls: seq<Call>)

  /** A failure after the array was filled: `pagesNr` set to `k`, then unmapped. */
  function Unwound(rv: int, k: nat, arr: seq<Option<PageId>>, calls: seq<Call>, write: bool): MapOutcome
    requires k <= |arr|
  {
    MapOutcome(rv, k, PagesAfterUnmap(Some(arr), k), None,
               calls + UnmapCalls(ReleasedPages(Some(arr), k), write))
  }

  /**
   * `char_sgdma_map_user_buf_to_sgl` on a zeroed control block: an empty
   * page count is -EINVAL; either allocation failing is -ENOMEM; a pinning
   * error is returned as it is; pinning fewer pages than asked, or two
   * neighbouring slots holding the same page, is -EFAULT; otherwise the
   * table describes the buffer page by page. Every failure after the
   * allocations goes through the unmap.
   */
  function MapSpec(buf: nat, len: nat, write: bool, o: MapOracle): (m: MapOutcome)
    requires UserRange(buf, len) && Fits(o, PagesNr(buf, len))
    ensures m.rv <= 0
    ensures m.pages.Some? ==> m.pagesNr <= |m.pages.value|
  {
    var n := PagesNr(buf, len);
    if n == 0 then MapOutcome(-EINVAL, 0, None, None, [])
    else if !o.sgAllocOk then MapOutcome(-ENOMEM, 0, None, None, [])
    else if !o.pagesAllocOk then MapOutcome(-ENOMEM, 0, None, None, [])
    else PinStage(buf, len, n, write, o)
  }

  /** The map once both allocations succeeded: pin, check the pages, fill the table. */
  function PinStage(buf: nat, len: nat, n: nat, write: bool, o: MapOracle): (m: MapOutcome)
    requires UserRange(buf, len) && n == PagesNr(buf, len) && n > 0 && Fits(o, n)
    ensures m.rv <= 0
    ensures m.pages.Some? ==> m.pagesNr <= |m.pages.value|
  {
    var arr := PinnedArray(o.pinned, n);
    var gup := [GetUserPages(o.pinned)];
    if o.pinResult < 0 then Unwound(o.pinResult, 0, arr, gup, write)
    else if o.pinResult != n then Unwound(-EFAULT, o.pinResult, arr, gup, write)
    else if HasAdjacentDuplicate(o.pinned) then Unwound(-EFAULT, n, arr, gup, write)
    else MapOutcome(0, n, Some(arr), Some(SgList(buf % PAGE_SIZE, len, o.pinned)), gup)
  }

  /** The pages of an unwound map: the first k slots, all filled. */
  lemma UnwoundReleases(pinned: seq<PageId>, n: nat, k: nat)
    requires |pinned| <= n && k <= |pinned|
    ensures ReleasedPages(Some(PinnedArray(pinned, n)), k) == pinned[..k]
  {
    var arr := PinnedArray(pinned, n);
    if k > 0 {
      ReleaseCountFull(arr, k);
    }
  }

  /** With no NULL among the first k slots, the release loop runs to k. */
  lemma {:induction false} ReleaseCountFull(ps: seq<Option<PageId>>, k: nat)
    requires k <= |ps| && forall j :: 0 <= j < k ==> ps[j].Some?
    ensures ReleaseCount(ps, k) == k
  {
    if k > 0 {
      ReleaseCountFull(ps, k - 1);
    }
  }

  /**
   * A map succeeds exactly when the buffer spans a page, both allocations
   * succeed, every page is pinned and no two neighbouring pages coincide;
   * the table then covers the buffer and nothing is released. A failure
   * leaves no table.
   */
  lemma MapSucceeds(buf: nat, len: nat, write: bool, o: MapOracle)
    requires UserRange(buf, len) && Fits(o, PagesNr(buf, len))
    ensures var m := MapSpec(buf, len, write, o);
      m.rv == 0 <==> PagesNr(buf, len) > 0 && o.sgAllocOk && o.pagesAllocOk
                     && o.pinResult == PagesNr(buf, len) && !HasAdjacentDuplicate(o.pinned)
    ensures var m := MapSpec(buf, len, write, o);
      m.rv == 0 ==> m.pagesNr == |o.pinned| && m.pages == Some(Somes(o.pinned))
                    && m.sgt == Some(SgList(buf % PAGE_SIZE, len, o.pinned))
                    && TotalLength(m.sgt.value) == len
                    && m.calls == [GetUserPages(o.pinned)]
    ensures var m := MapSpec(buf, len, write, o);
      m.rv != 0 ==> m.rv < 0 && m.sgt == None
  {
    var m := MapSpec(buf, len, write, o);
    var n := PagesNr(buf, len);
    if m.rv == 0 {
      assert PinnedArray(o.pinned, n) == Somes(o.pinned);
      SgListCoversBuffer(buf, len, o.pinned);
    }
  }

  /**
   * A failed map gives back every page it pinned, each exactly once, and
   * marks them dirty only for a read; a successful map keeps all of them
   * pinned. Either way pages are pinned only by the one
   * `get_user_pages_fast` call.
   */
  lemma MapReleasesWhatItPinned(buf: nat, len: nat, write: bool, o: MapOracle)
    requires UserRange(buf, len) && Fits(o, PagesNr(buf, len))
    ensures var m := MapSpec(buf, len, write, o);
      m.rv < 0 ==> PutPagesOf(m.calls) == PinnedPagesOf(m.calls)
    ensures var m := MapSpec(buf, len, write, o);
      m.rv == 0 ==> PutPagesOf(m.calls) == [] && PinnedPagesOf(m.calls) == o.pinned
    ensures var m := MapSpec(buf, len, write, o);
      DirtiedPagesOf(m.calls) == (if write then [] else PutPagesOf(m.calls))
  {
    var n := PagesNr(buf, len);
    if n > 0 && o.sgAllocOk && o.pagesAllocOk {
      PinStageReleases(buf, len, n, write, o);
    }
  }

  /** The release property once the allocations succeeded. */
  lemma PinStageReleases(buf: nat, len: nat, n: nat, write: bool, o: MapOracle)
    requires UserRange(buf, len) && n == PagesNr(buf, len) && n > 0 && Fits(o, n)
    ensures var m := PinStage(buf, len, n, write, o);
      && (m.rv < 0 ==> PutPagesOf(m.calls) == PinnedPagesOf(m.calls))
      && (m.rv == 0 ==> PutPagesOf(m.calls) == [] && PinnedPagesOf(m.calls) == o.pinned)
      && DirtiedPagesOf(m.calls) == (if write then [] else PutPagesOf(m.calls))
  {
    var m := PinStage(buf, len, n, write, o);
    var gup := [GetUserPages(o.pinned)];
    UnwoundViews(o.pinned, n, |o.pinned|, write);
    if m.rv == 0 {
      assert m.calls == gup;
    } else {
      assert m.calls == gup + UnmapCalls(ReleasedPages(Some(PinnedArray(o.pinned, n)), |o.pinned|), write);
    }
  }

  /** The calls of an unwound map: one pin, then the release of the first k pages. */
  lemma UnwoundViews(pinned: seq<PageId>, n: nat, k: nat, write: bool)
    requires |pinned| <= n && k == |pinned|
    ensures var calls := [GetUserPages(pinned)] + UnmapCalls(ReleasedPages(Some(PinnedArray(pinned, n)), k), write);
      && PutPagesOf(calls) == pinned && PinnedPagesOf(calls) == pinned
      && DirtiedPagesOf(calls) == (if write then [] else pinned)
    ensures PutPagesOf([GetUserPages(pinned)]) == [] && PinnedPagesOf([GetUserPages(pinned)]) == pinned
    ensures DirtiedPagesOf([GetUserPages(pinned)]) == []
  {
    var gup := [GetUserPages(pinned)];
    assert gup[..0] == [];
    UnwoundReleases(pinned, n, k);
    assert pinned[..k] == pinned;
    UnmapReleasesEachOnce(pinned, write);
    ViewsAppend(gup, UnmapCalls(pinned, write));
  }

  /**
   * A pinning error, or pinning no page at all, leaves the page count at 0,
   * so the unmap returns before freeing the page array: the array stays
   * allocated after the failed map.
   */
  lemma MapKeepsArrayWhenNothingPinned(buf: nat, len: nat, write: bool, o: MapOracle)
    requires UserRange(buf, len) && Fits(o, PagesNr(buf, len))
    requires PagesNr(buf, len) > 0 && o.sgAllocOk && o.pagesAllocOk && o.pinResult <= 0
    ensures var m := MapSpec(buf, len, write, o);
      m.rv < 0 && m.pagesNr == 0 && m.pages.Some? && |m.pages.value| == PagesNr(buf, len)
  {
  }

  /**
   * An empty range on a page boundary maps nothing; an empty range in the
   * middle of a page still spans, and pins, one page.
   */
  lemma MapEmptyRange(buf: nat, write: bool, o: MapOracle)
    requires UserRange(buf, 0) && Fits(o, PagesNr(buf, 0))
    ensures buf % PAGE_SIZE == 0 ==> MapSpec(buf, 0, write, o) == MapOutcome(-EINVAL, 0, None, None, [])
    ensures buf % PAGE_SIZE != 0 ==> PagesNr(buf, 0) == 1
  {
    PagesSpanned(buf, 0);
  }

  /** A page boundary plus whole pages is a page boundary. */
  lemma PageBoundary(buf: nat, i: nat)
    ensures (buf - buf % PAGE_SIZE + i * PAGE_SIZE) % PAGE_SIZE == 0
  {
    assert buf - buf % PAGE_SIZE == (buf / PAGE_SIZE) * PAGE_SIZE;
    assert buf - buf % PAGE_SIZE + i * PAGE_SIZE == (buf / PAGE_SIZE + i) * PAGE_SIZE;
  }

  /** The duplicate scan of the map: neighbouring slots are compared from the second on. */
  method FindAdjacentDuplicate(ps: seq<PageId>) returns (found: bool)
    ensures found <==> HasAdjacentDuplicate(ps)
  {
    var i := 1;
    while i < |ps|
      invariant 1 <= i <= |ps| || (ps == [] && i == 1)
      invariant forall j :: 1 <= j < i && j < |ps| ==> ps[j - 1] != ps[j]
    {
      if ps[i - 1] == ps[i] {
        return true;
      }
      i := i + 1;
    }
    return false;
  }

  /**
   * The segment loop of the map: each page receives the offset of the
   * walking buffer address in its page and as many bytes as the page or
   * the rest of the buffer hold (the length always fits `unsigned int`);
   * the buffer is used up exactly when the pages are.
   */
  method FillSegments(buf: nat, len: nat, pinned: seq<PageId>) returns (table: seq<Segment>)
    requires UserRange(buf, len) && |pinned| == PagesNr(buf, len)
    ensures table == SgList(buf % PAGE_SIZE, len, pinned)
  {
    var n := |pinned|;
    table := seq(n, _ => Segment(0, 0, 0));
    var off := buf % PAGE_SIZE;
    var curBuf := buf;
    var curLen := len;
    PagesSpanned(buf, len);
    var i := 0;
    while i < n
      invariant 0 <= i <= n && |table| == n
      invariant curBuf == buf + Consumed(off, len, i)
      invariant curLen == len - Consumed(off, len, i)
      invariant forall j :: 0 <= j < i ==> table[j] == SgList(off, len, pinned)[j]
    {
      if i > 0 {
        assert Consumed(off, len, i) == i * PAGE_SIZE - off;
        PageBoundary(buf, i);
      }
      var offset := curBuf % PAGE_SIZE;
      assert offset == SegOffset(off, i);
      var nbytes := Min(PAGE_SIZE - offset, curLen);
      table := table[i := Segment(pinned[i], nbytes, offset)];
      ConsumedStep(off, len, i);
      curBuf := curBuf + nbytes;
      curLen := curLen - nbytes;
      i := i + 1;
    }
    ConsumedAll(off, len);
    if curLen != 0 {
      // the map's -EINVAL for a buffer left over cannot be reached
      assert false;
    }
  }

  /**
   * `char_sgdma_map_user_buf_to_sgl`: allocates the table and the page
   * array, pins the pages, rejects a short pin or neighbouring duplicates,
   * then fills one segment per page while walking the buffer forward.
   */
  method Map(cb: IoCb, write: bool, o: MapOracle, log: Log) returns (rv: int)
    requires cb.pages == None && cb.pagesNr == 0 && cb.sgt == None
    requires UserRange(cb.buf, cb.len) && Fits(o, PagesNr(cb.buf, cb.len))
    modifies cb, log
    ensures var m := MapSpec(old(cb.buf), old(cb.len), write, o);
      && rv == m.rv && cb.pagesNr == m.pagesNr && cb.pages == m.pages && cb.sgt == m.sgt
      && log.calls == old(log.calls) + m.calls
    ensures cb.buf == old(cb.buf) && cb.len == old(cb.len) && cb.epAddr == old(cb.epAddr)
    ensures cb.write == old(cb.write) && cb.owner == old(cb.owner)
    ensures cb.Valid()
  {
    var n := PagesNr(cb.buf, cb.len);
    if n == 0 {
      return -EINVAL;
    }
    if !o.sgAllocOk {
      return -ENOMEM;
    }
    var table := seq(n, _ => Segment(0, 0, 0));
    cb.sgt := Some(table);
    if !o.pagesAllocOk {
      rv := -ENOMEM;
      Unmap(cb, write, log);
      return;
    }
    rv := PinAndFill(cb, n, write, o, log);
  }

  /** The `err_out` path once the page array exists: set the count to release, then unmap. */
  method Unwind(cb: IoCb, k: nat, write: bool, log: Log)
    requires cb.pages.Some? && k <= |cb.pages.value|
    modifies cb, log
    ensures var u := Unwound(0, k, old(cb.pages.value), old(log.calls), write);
      && cb.pagesNr == k && cb.pages == u.pages && cb.sgt == None && log.calls == u.calls
    ensures cb.buf == old(cb.buf) && cb.len == old(cb.len) && cb.epAddr == old(cb.epAddr)
    ensures cb.write == old(cb.write) && cb.owner == old(cb.owner)
    ensures cb.Valid()
  {
    cb.pagesNr := k;
    Unmap(cb, write, log);
  }

  /** The second half of the map, from the pinning on. */
  method PinAndFill(cb: IoCb, n: nat, write: bool, o: MapOracle, log: Log) returns (rv: int)
    requires cb.pages == None && cb.pagesNr == 0 && cb.sgt.Some?
    requires UserRange(cb.buf, cb.len) && n == PagesNr(cb.buf, cb.len) && n > 0 && Fits(o, n)
    modifies cb, log
    ensures var m := PinStage(old(cb.buf), old(cb.len), n, write, o);
      && rv == m.rv && cb.pagesNr == m.pagesNr && cb.pages == m.pages && cb.sgt == m.sgt
      && log.calls == old(log.calls) + m.calls
    ensures cb.buf == old(cb.buf) && cb.len == old(cb.len) && cb.epAddr == old(cb.epAddr)
    ensures cb.write == old(cb.write) && cb.owner == old(cb.owner)
    ensures cb.Valid()
  {
    ghost var m := PinStage(cb.buf, cb.len, n, write, o);
    ghost var log0 := log.calls;
    ghost var gup := [GetUserPages(o.pinned)];
    var arr := PinnedArray(o.pinned, n);
    cb.pages := Some(arr);
    log.calls := log.calls + [GetUserPages(o.pinned)];
    if o.pinResult < 0 {
      assert m == Unwound(o.pinResult, 0, arr, gup, write);
      rv := o.pinResult;
      Unwind(cb, 0, write, log);
      assert log.calls == log0 + m.calls;
      return;
    }
    if o.pinResult != n {
      assert m == Unwound(-EFAULT, o.pinResult, arr, gup, write);
      rv := -EFAULT;
      Unwind(cb, o.pinResult, write, log);
      assert log.calls == log0 + m.calls;
      return;
    }
    var dup := FindAdjacentDuplicate(o.pinned);
    if dup {
      assert m == Unwound(-EFAULT, n, arr, gup, write);
      rv := -EFAULT;
      Unwind(cb, n, write, log);
      assert log.calls == log0 + m.calls;
      return;
    }
    var table := FillSegments(cb.buf, cb.len, o.pinned);
    cb.sgt := Some(table);
    cb.pagesNr := n;
    rv := 0;
  }

  // ----- synchronous read and write -----

  /** The engine's direction does not suit the request: writes need host-to-card, reads card-to-host. */
  predicate DirectionMismatch(e: Engine, write: bool) {
    (write && e.dir != ToDevice) || (!write && e.dir != FromDevice)
  }

  /** A `loff_t` as the 64-bit pattern the alignment check masks. */
  function LoffBits(pos: int): bv64
    requires IsLoff(pos)
  {
    if pos >= 0 then pos as bv64 else (pos + TWO64) as bv64
  }

  /** The alignment check on a user buffer and a device position. */
  function RangeAlign(e: Engine, buf: nat, count: nat, pos: int, sync: bool): int
    requires UserRange(buf, count) && IsLoff(pos)
  {
    CheckTransferAlign(e, buf as bv64, count as bv64, LoffBits(pos), sync)
  }

  /**
   * The checks `char_sgdma_read_write` makes before touching the buffer, in
   * order: the node (with its engine), the engine's direction, the
   * alignment. The first failure is returned.
   */
  function AdmitVerdict(x: Cdev?, buf: nat, count: nat, pos: int, write: bool): (v: int)
    requires UserRange(buf, count) && IsLoff(pos)
    ensures v == 0 || v == -EINVAL
    ensures v == 0 <==> XcdevCheck(x, true) == 0 && !DirectionMismatch(x.engine, write)
                        && RangeAlign(x.engine, buf, count, pos, true) == 0
  {
    if XcdevCheck(x, true) != 0 then XcdevCheck(x, true)
    else if DirectionMismatch(x.engine, write) then -EINVAL
    else RangeAlign(x.engine, buf, count, pos, true)
  }

  /** What a synchronous call returns and the calls it makes. */
  datatype RwOutcome = RwOutcome(res: int, calls: seq<Call>)

  /**
   * `char_sgdma_read_write` once the checks gave `verdict`: a failed check
   * is returned before any page is touched; the buffer is mapped; only a
   * mapped buffer is submitted, and it is unmapped after the transfer
   * whatever the transfer returned. `submitRes` is what `mdlx_xfer_submit`
   * returns.
   */
  function AfterAdmission(verdict: int, buf: nat, count: nat, pos: int, write: bool,
                          o: MapOracle, submitRes: int): (r: RwOutcome)
    requires UserRange(buf, count) && Fits(o, PagesNr(buf, count))
    ensures verdict != 0 ==> r == RwOutcome(verdict, [])
  {
    if verdict != 0 then RwOutcome(verdict, [])
    else
      var m := MapSpec(buf, count, write, o);
      if m.rv < 0 then RwOutcome(m.rv, m.calls)
      else RwOutcome(submitRes, m.calls + [XferSubmit(write, pos, Table(m.sgt))]
                                + UnmapCalls(ReleasedPages(m.pages, m.pagesNr), write))
  }

  /** `char_sgdma_read_write` on the node `x`. */
  function ReadWriteSpec(x: Cdev?, buf: nat, count: nat, pos: int, write: bool,
                         o: MapOracle, submitRes: int): RwOutcome
    requires UserRange(buf, count) && IsLoff(pos) && Fits(o, PagesNr(buf, count))
  {
    AfterAdmission(AdmitVerdict(x, buf, count, pos, write), buf, count, pos, write, o, submitRes)
  }

  /**
   * `char_sgdma_read_write` on the file's node: the checks, then the
   * transfer on a control block that lives for the call only.
   */
  method ReadWrite(file: File, buf: nat, count: nat, pos: int, write: bool,
                   o: MapOracle, submitRes: int, log: Log) returns (res: int)
    requires UserRange(buf, count) && IsLoff(pos) && Fits(o, PagesNr(buf, count))
    modifies log
    ensures var r := ReadWriteSpec(file.privateData, buf, count, pos, write, o, submitRes);
      res == r.res && log.calls == old(log.calls) + r.calls
  {
    var xcdev := file.privateData;
    var rv := XcdevCheck(xcdev, true);
    if rv < 0 {
      return rv;
    }
    var engine := xcdev.engine;
    if (write && engine.dir != ToDevice) || (!write && engine.dir != FromDevice) {
      return -EINVAL;
    }
    rv := CheckTransferAlign(engine, buf as bv64, count as bv64, LoffBits(pos), true);
    if rv != 0 {
      return rv;
    }
    res := MapSubmitUnmap(buf, count, pos, write, o, submitRes, log);
  }

  /** An admitted call: the map's failure, or the transfer between the map and the unmap. */
  lemma AdmittedOutcome(buf: nat, count: nat, pos: int, write: bool, o: MapOracle, submitRes: int)
    requires UserRange(buf, count) && Fits(o, PagesNr(buf, count))
    ensures var m := MapSpec(buf, count, write, o);
      m.rv < 0 ==> AfterAdmission(0, buf, count, pos, write, o, submitRes) == RwOutcome(m.rv, m.calls)
    ensures var m := MapSpec(buf, count, write, o);
      m.rv >= 0 ==> AfterAdmission(0, buf, count, pos, write, o, submitRes)
                    == RwOutcome(submitRes, m.calls + [XferSubmit(write, pos, Table(m.sgt))]
                                            + UnmapCalls(ReleasedPages(m.pages, m.pagesNr), write))
  {
  }

  /** The admitted part of `char_sgdma_read_write`: map, submit, unmap. */
  method MapSubmitUnmap(buf: nat, count: nat, pos: int, write: bool,
                        o: MapOracle, submitRes: int, log: Log) returns (res: int)
    requires UserRange(buf, count) && Fits(o, PagesNr(buf, count))
    modifies log
    ensures var r := AfterAdmission(0, buf, count, pos, write, o, submitRes);
      res == r.res && log.calls == old(log.calls) + r.calls
  {
    AdmittedOutcome(buf, count, pos, write, o, submitRes);
    ghost var m := MapSpec(buf, count, write, o);
    var cb := new IoCb(buf, count, pos, write, null);
    var rv := Map(cb, write, o, log);
    if rv < 0 {
      return rv;
    }
    ghost var released := UnmapCalls(ReleasedPages(m.pages, m.pagesNr), write);
    log.calls := log.calls + [XferSubmit(write, pos, Table(cb.sgt))];
    res := submitRes;
    Unmap(cb, write, log);
    assert log.calls == old(log.calls) + m.calls + [XferSubmit(write, pos, Table(m.sgt))] + released;
  }

  /** The calls of a synchronous call that submit a transfer. */
  predicate Submits(calls: seq<Call>) {
    exists i :: 0 <= i < |calls| && calls[i].XferSubmit?
  }

  /**
   * A transfer is submitted exactly when the checks pass and the map
   * succeeds; it then comes after the one pin and before the release of
   * every pinned page, it carries the list of the pinned pages, which
   * covers the `count` bytes of the buffer, and its result is returned.
   */
  lemma ReadWriteSubmitsOnlyMapped(verdict: int, buf: nat, count: nat, pos: int, write: bool, o: MapOracle, submitRes: int)
    requires UserRange(buf, count) && Fits(o, PagesNr(buf, count))
    ensures var r := AfterAdmission(verdict, buf, count, pos, write, o, submitRes);
      Submits(r.calls) <==> verdict == 0 && MapSpec(buf, count, write, o).rv == 0
    ensures var r := AfterAdmission(verdict, buf, count, pos, write, o, submitRes);
      var sg := SgList(buf % PAGE_SIZE, count, o.pinned);
      Submits(r.calls) ==>
        r.res == submitRes
        && r.calls == [GetUserPages(o.pinned), XferSubmit(write, pos, sg)] + UnmapCalls(o.pinned, write)
        && TotalLength(sg) == count
  {
    var r := AfterAdmission(verdict, buf, count, pos, write, o, submitRes);
    if verdict == 0 {
      var m := MapSpec(buf, count, write, o);
      MapSucceeds(buf, count, write, o);
      if m.rv == 0 {
        UnwoundReleases(o.pinned, |o.pinned|, |o.pinned|);
        assert PinnedArray(o.pinned, |o.pinned|) == Somes(o.pinned);
        assert o.pinned[..|o.pinned|] == o.pinned;
        assert r.calls[|m.calls|].XferSubmit?;
      } else {
        MapCallsHaveNoSubmit(buf, count, write, o);
        assert forall i :: 0 <= i < |r.calls| ==> r.calls[i] in m.calls;
      }
    }
  }

  /** The calls of a map contain no submission. */
  lemma MapCallsHaveNoSubmit(buf: nat, len: nat, write: bool, o: MapOracle)
    requires UserRange(buf, len) && Fits(o, PagesNr(buf, len))
    ensures forall c :: c in MapSpec(buf, len, write, o).calls ==> c.GetUserPages? || c.SetPageDirty? || c.PutPage?
  {
    var n := PagesNr(buf, len);
    if n > 0 && o.sgAllocOk && o.pagesAllocOk {
      var k := if o.pinResult < 0 then 0 else if o.pinResult != n then o.pinResult else n;
      UnmapCallsArePageCalls(ReleasedPages(Some(PinnedArray(o.pinned, n)), k), write);
    }
  }

  /** Releasing pages makes page calls only. */
  lemma {:induction false} UnmapCallsArePageCalls(ps: seq<PageId>, write: bool)
    ensures forall c :: c in UnmapCalls(ps, write) ==> c.SetPageDirty? || c.PutPage?
  {
    if ps != [] {
      UnmapCallsArePageCalls(ps[..|ps| - 1], write);
    }
  }

  /**
   * Whatever happens, a synchronous call gives back every page it pinned,
   * exactly once and in pinning order, and marks them dirty only for a read.
   */
  lemma ReadWriteReleasesEveryPin(verdict: int, buf: nat, count: nat, pos: int, write: bool, o: MapOracle, submitRes: int)
    requires UserRange(buf, count) && Fits(o, PagesNr(buf, count))
    ensures var r := AfterAdmission(verdict, buf, count, pos, write, o, submitRes);
      PutPagesOf(r.calls) == PinnedPagesOf(r.calls)
    ensures var r := AfterAdmission(verdict, buf, count, pos, write, o, submitRes);
      DirtiedPagesOf(r.calls) == (if write then [] else PutPagesOf(r.calls))
  {
    if verdict == 0 {
      var m := MapSpec(buf, count, write, o);
      MapReleasesWhatItPinned(buf, count, write, o);
      if m.rv == 0 {
        ReadWriteSubmitsOnlyMapped(verdict, buf, count, pos, write, o, submitRes);
        SubmittedViews(o.pinned, write, pos, SgList(buf % PAGE_SIZE, count, o.pinned));
      }
    }
  }

  /** The views of a successful call's log: one pin, one submission, the release of every page. */
  lemma SubmittedViews(pinned: seq<PageId>, write: bool, pos: int, sg: seq<Segment>)
    ensures var calls := [GetUserPages(pinned), XferSubmit(write, pos, sg)] + UnmapCalls(pinned, write);
      && PutPagesOf(calls) == pinned && PinnedPagesOf(calls) == pinned
      && DirtiedPagesOf(calls) == (if write then [] else pinned)
  {
    var head := [GetUserPages(pinned), XferSubmit(write, pos, sg)];
    assert head[..1][..0] == [];
    assert head[..1] == [GetUserPages(pinned)];
    assert PinnedPagesOf(head[..1]) == pinned;
    assert PinnedPagesOf(head) == pinned;
    assert PutPagesOf(head[..1]) == [] && DirtiedPagesOf(head[..1]) == [];
    assert PutPagesOf(head) == [] && DirtiedPagesOf(head) == [];
    UnmapReleasesEachOnce(pinned, write);
    ViewsAppend(head, UnmapCalls(pinned, write));
  }

  // ----- the asynchronous aggregate -----

  /**
   * `struct cdev_async_io`: one asynchronous request over an I/O vector.
   * `filp` is the file of its `kiocb`; `cmplCnt` of `reqCnt` legs have
   * completed, `res` adds up their byte counts, `res2` accumulates (by
   * bitwise or) their negative error codes and `errCnt` counts completions
   * seen while `res2` was non-zero. `released` records that the aggregate
   * was handed back to its cache.
   */
  class AsyncIo {
    const filp: File
    var write: bool
    var cancel: bool
    var cmplCnt: int
    var reqCnt: int
    var res: int
    var res2: bv64
    var errCnt: int
    var legs: seq<IoCb>
    var released: bool

    /** A zeroed aggregate for `reqCnt` legs on `filp`. */
    constructor (filp: File, write: bool, reqCnt: int)
      ensures this.filp == filp && this.write == write && this.reqCnt == reqCnt
      ensures !cancel && cmplCnt == 0 && res == 0 && res2 == 0 && errCnt == 0
      ensures legs == [] && !released
    {
      this.filp := filp;
      this.write := write;
      this.reqCnt := reqCnt;
      cancel := false;
      cmplCnt := 0;
      res := 0;
      res2 := 0;
      errCnt := 0;
      legs := [];
      released := false;
    }

    /**
     * The counter updates of `async_io_handler` for one leg: the error
     * or-ed into `res2`, the error count, the completion count, the bytes.
     */
    method Account(e: LegResult)
      modifies this
      ensures Counters() == Fold(old(Counters()), e)
      ensures write == old(write) && cancel == old(cancel)
      ensures legs == old(legs) && released == old(released)
    {
      var numbytes := if e.err == 0 then e.bytes else 0;
      res2 := res2 | ErrBits(e.err);
      if res2 != 0 {
        errCnt := errCnt + 1;
      }
      cmplCnt := cmplCnt + 1;
      res := res + numbytes;
    }

    /** The completion counters. */
    function Counters(): AioCounters
      reads this
    {
      AioCounters(cmplCnt, reqCnt, res, res2, errCnt)
    }
  }

  /** The completion counters of an aggregate. */
  datatype AioCounters = AioCounters(cmplCnt: int, reqCnt: int, res: int, res2: bv64, errCnt: int)

  /** The sign bit of an `int` error code. */
  predicate Negative(err: bv32) {
    err & 0x8000_0000 != 0
  }

  /** `(err < 0) ? err : 0` widened to 64 bits: a negative code is sign-extended. */
  function ErrBits(err: bv32): bv64 {
    if Negative(err) then (err as bv64) | 0xffff_ffff_0000_0000 else 0
  }

  /** Exactly a negative code leaves bits behind. */
  lemma ErrBitsNonZero(err: bv32)
    ensures ErrBits(err) != 0 <==> Negative(err)
  {
  }

  /** An or is zero exactly when both sides are. */
  lemma OrZero(a: bv64, b: bv64)
    ensures a | b == 0 <==> a == 0 && b == 0
  {
  }

  /** The outcome of one leg: its `int` error code and what `mdlx_xfer_completion` reports for it. */
  datatype LegResult = LegResult(err: bv32, bytes: int)

  /** Bytes a leg adds: its completion's count, only when it ended without error. */
  function Numbytes(e: LegResult): int {
    if e.err == 0 then e.bytes else 0
  }

  /**
   * One completion folded into the counters, as `async_io_handler` does it:
   * the error is or-ed into `res2`, the error count grows while `res2` is
   * non-zero, the completion count grows by one and the bytes are added.
   */
  function Fold(c: AioCounters, e: LegResult): (d: AioCounters)
    ensures d.cmplCnt == c.cmplCnt + 1 && d.reqCnt == c.reqCnt && d.res == c.res + Numbytes(e)
    ensures d.errCnt == c.errCnt + (if d.res2 != 0 then 1 else 0)
  {
    AioCounters(c.cmplCnt + 1, c.reqCnt, c.res + Numbytes(e), c.res2 | ErrBits(e.err),
                if c.res2 | ErrBits(e.err) != 0 then c.errCnt + 1 else c.errCnt)
  }

  /** After a fold, `res2` is zero exactly when it was and the leg did not fail. */
  lemma FoldRes2(c: AioCounters, e: LegResult)
    ensures Fold(c, e).res2 == 0 <==> c.res2 == 0 && !Negative(e.err)
  {
    ErrBitsNonZero(e.err);
    OrZero(c.res2, ErrBits(e.err));
  }

  /** Completions folded in order. */
  function FoldAll(c: AioCounters, evs: seq<LegResult>): AioCounters
    decreases |evs|
  {
    if evs == [] then c else FoldAll(Fold(c, evs[0]), evs[1..])
  }

  /** How many of the folds bring the completion count to the request count. */
  function Notifications(c: AioCounters, evs: seq<LegResult>): nat
    decreases |evs|
  {
    if evs == [] then 0
    else
      var d := Fold(c, evs[0]);
      (if d.cmplCnt == d.reqCnt then 1 else 0) + Notifications(d, evs[1..])
  }

  /** The bytes of all legs. */
  function SumBytes(evs: seq<LegResult>): int {
    if evs == [] then 0 else Numbytes(evs[0]) + SumBytes(evs[1..])
  }

  /** The first leg that failed, or the number of legs. */
  function FirstFailed(evs: seq<LegResult>): (k: nat)
    ensures k <= |evs|
    ensures forall i :: 0 <= i < k ==> !Negative(evs[i].err)
    ensures k < |evs| ==> Negative(evs[k].err)
  {
    if evs == [] then 0 else if Negative(evs[0].err) then 0 else 1 + FirstFailed(evs[1..])
  }

  /**
   * Folding completions counts each one, keeps the request count and adds
   * up the byte counts of the legs that ended without error.
   */
  lemma {:induction false} FoldAllCounts(c: AioCounters, evs: seq<LegResult>)
    decreases |evs|
    ensures FoldAll(c, evs).cmplCnt == c.cmplCnt + |evs|
    ensures FoldAll(c, evs).reqCnt == c.reqCnt
    ensures FoldAll(c, evs).res == c.res + SumBytes(evs)
  {
    if evs != [] {
      FoldAllCounts(Fold(c, evs[0]), evs[1..]);
    }
  }

  /**
   * Completion is reported exactly once when the outstanding legs all
   * complete, and not at all while some are outstanding or once the count
   * was already reached.
   */
  lemma {:induction false} NotifiedOnce(c: AioCounters, evs: seq<LegResult>)
    decreases |evs|
    ensures Notifications(c, evs) == if c.cmplCnt < c.reqCnt <= c.cmplCnt + |evs| then 1 else 0
  {
    if evs != [] {
      NotifiedOnce(Fold(c, evs[0]), evs[1..]);
    }
  }

  /** `res2` ends at zero exactly when it started there and no leg failed. */
  lemma {:induction false} FoldAllRes2(c: AioCounters, evs: seq<LegResult>)
    decreases |evs|
    ensures FoldAll(c, evs).res2 == 0 <==> c.res2 == 0 && FirstFailed(evs) == |evs|
  {
    if evs != [] {
      FoldRes2(c, evs[0]);
      FoldAllRes2(Fold(c, evs[0]), evs[1..]);
    }
  }

  /**
   * Starting clean, the error count is the number of completions from the
   * first failed leg on: once an error is in `res2` it is never cleared.
   */
  lemma {:induction false} FoldAllErrCnt(c: AioCounters, evs: seq<LegResult>)
    requires c.res2 == 0
    decreases |evs|
    ensures FoldAll(c, evs).errCnt == c.errCnt + |evs| - FirstFailed(evs)
  {
    if evs != [] {
      FoldRes2(c, evs[0]);
      if Negative(evs[0].err) {
        StickyErrCnt(Fold(c, evs[0]), evs[1..]);
      } else {
        FoldAllErrCnt(Fold(c, evs[0]), evs[1..]);
      }
    }
  }

  /** With `res2` already non-zero, every completion counts as an error. */
  lemma {:induction false} StickyErrCnt(c: AioCounters, evs: seq<LegResult>)
    requires c.res2 != 0
    decreases |evs|
    ensures FoldAll(c, evs).errCnt == c.errCnt + |evs|
    ensures FoldAll(c, evs).res2 != 0
  {
    if evs != [] {
      FoldRes2(c, evs[0]);
      StickyErrCnt(Fold(c, evs[0]), evs[1..]);
    }
  }

  /** The 64-bit pattern of -EBUSY, the `res2` of a completion refused for a busy lock. */
  const EBUSY_BITS: bv64 := 0xffff_ffff_ffff_fff0

  /**
   * `async_io_handler` for the leg `cb` ending with `err`: without an
   * aggregate, or with a node that fails its check, nothing happens. When
   * the aggregate's lock is busy the whole request is completed with
   * (0, -EBUSY) and the aggregate released; a cancelled aggregate is
   * released. Otherwise the leg's completion is collected (only when it
   * ended without error), its pages are released as its direction asks,
   * the counters are folded, and the request is completed and the
   * aggregate released when the last leg is in. `locked` is the outcome of
   * the trylock and `bytes` what `mdlx_xfer_completion` returns.
   */
  method AsyncIoHandler(cb: IoCb, err: bv32, locked: bool, bytes: int, log: Log)
    requires cb.Valid()
    modifies cb, cb.owner, log
    ensures cb.owner == old(cb.owner)
    ensures cb.owner == null || XcdevCheck(cb.owner.filp.privateData, true) != 0 ==>
      log.calls == old(log.calls) && unchanged(cb) && (cb.owner != null ==> unchanged(cb.owner))
    ensures cb.owner != null && XcdevCheck(cb.owner.filp.privateData, true) == 0 && !locked ==>
      && log.calls == old(log.calls) + [KiComplete(0, EBUSY_BITS)]
      && cb.owner.released && cb.owner.Counters() == old(cb.owner.Counters()) && unchanged(cb)
    ensures cb.owner != null && XcdevCheck(cb.owner.filp.privateData, true) == 0 && locked && old(cb.owner.cancel) ==>
      && log.calls == old(log.calls)
      && cb.owner.released && cb.owner.Counters() == old(cb.owner.Counters()) && unchanged(cb)
    ensures cb.owner != null && XcdevCheck(cb.owner.filp.privateData, true) == 0 && locked && !old(cb.owner.cancel) ==>
      var c := Fold(old(cb.owner.Counters()), LegResult(err, bytes));
      && cb.owner.Counters() == c
      && cb.owner.released == (old(cb.owner.released) || c.cmplCnt == c.reqCnt)
      && cb.pages == PagesAfterUnmap(old(cb.pages), old(cb.pagesNr)) && cb.sgt == None
      && log.calls == old(log.calls)
                      + (if err == 0 then [XferCompletion(cb.write, cb.epAddr, Table(old(cb.sgt)))] else [])
                      + UnmapCalls(ReleasedPages(old(cb.pages), old(cb.pagesNr)), cb.write)
                      + (if c.cmplCnt == c.reqCnt then [KiComplete(c.res, c.res2)] else [])
    ensures cb.owner != null ==>
      cb.owner.legs == old(cb.owner.legs) && cb.owner.write == old(cb.owner.write) && cb.owner.cancel == old(cb.owner.cancel)
  {
    var caio := cb.owner;
    if caio == null {
      return;
    }
    var rv := XcdevCheck(caio.filp.privateData, true);
    if rv < 0 {
      return;
    }
    if !locked {
      log.calls := log.calls + [KiComplete(0, EBUSY_BITS)];
      caio.released := true;
      return;
    }
    if caio.cancel {
      caio.released := true;
      return;
    }
    CompleteLeg(cb, caio, err, bytes, log);
  }

  /** The part of `async_io_handler` that runs under the lock of a live aggregate. */
  method CompleteLeg(cb: IoCb, caio: AsyncIo, err: bv32, bytes: int, log: Log)
    requires cb.Valid()
    modifies cb, caio, log
    ensures var c := Fold(old(caio.Counters()), LegResult(err, bytes));
      && caio.Counters() == c
      && caio.released == (old(caio.released) || c.cmplCnt == c.reqCnt)
      && cb.pages == PagesAfterUnmap(old(cb.pages), old(cb.pagesNr)) && cb.sgt == None
      && log.calls == old(log.calls)
                      + (if err == 0 then [XferCompletion(cb.write, cb.epAddr, Table(old(cb.sgt)))] else [])
                      + UnmapCalls(ReleasedPages(old(cb.pages), old(cb.pagesNr)), cb.write)
                      + (if c.cmplCnt == c.reqCnt then [KiComplete(c.res, c.res2)] else [])
    ensures cb.owner == old(cb.owner) && cb.write == old(cb.write) && cb.epAddr == old(cb.epAddr)
    ensures caio.legs == old(caio.legs)
    ensures caio.write == old(caio.write) && caio.cancel == old(caio.cancel)
  {
    ghost var done := if err == 0 then [XferCompletion(cb.write, cb.epAddr, Table(cb.sgt))] else [];
    ghost var released := UnmapCalls(ReleasedPages(cb.pages, cb.pagesNr), cb.write);
    if err == 0 {
      log.calls := log.calls + [XferCompletion(cb.write, cb.epAddr, Table(cb.sgt))];
    }
    assert log.calls == old(log.calls) + done;
    Unmap(cb, cb.write, log);
    assert log.calls == old(log.calls) + done + released;
    caio.Account(LegResult(err, bytes));
    if caio.cmplCnt == caio.reqCnt {
      log.calls := log.calls + [KiComplete(caio.res, caio.res2)];
      caio.released := true;
    }
  }

  // ----- asynchronous submission -----

  /** One element of the caller's I/O vector. */
  datatype IoVec = IoVec(base: nat, len: nat)

  /** Every leg is a user range, and its map answers fit its page count. */
  predicate LegsFit(iov: seq<IoVec>, oracles: seq<MapOracle>) {
    && |oracles| == |iov|
    && (forall i :: 0 <= i < |iov| ==> UserRange(iov[i].base, iov[i].len))
    && forall i {:trigger Fits(oracles[i], PagesNr(iov[i].base, iov[i].len))} :: 0 <= i < |iov| ==>
         Fits(oracles[i], PagesNr(iov[i].base, iov[i].len))
  }

  /** Every leg is a user range. */
  predicate UserRanges(iov: seq<IoVec>) {
    forall i :: 0 <= i < |iov| ==> UserRange(iov[i].base, iov[i].len)
  }

  /** Verdict j is the alignment check of leg j against the device position. */
  predicate AlignedAs(e: Engine, iov: seq<IoVec>, pos: int, aligns: seq<int>, j: int)
    requires IsLoff(pos) && UserRanges(iov) && |aligns| == |iov| && 0 <= j < |iov|
  {
    aligns[j] == RangeAlign(e, iov[j].base, iov[j].len, pos, true)
  }

  /** `aligns` holds the alignment verdict of every leg. */
  predicate AlignsOf(e: Engine, iov: seq<IoVec>, pos: int, aligns: seq<int>) {
    && IsLoff(pos) && UserRanges(iov) && |aligns| == |iov|
    && forall j :: 0 <= j < |iov| ==> AlignedAs(e, iov, pos, aligns, j)
  }

  /** Every leg has its alignment verdict. */
  lemma LegAligns(e: Engine, iov: seq<IoVec>, pos: int) returns (aligns: seq<int>)
    requires IsLoff(pos) && UserRanges(iov)
    ensures AlignsOf(e, iov, pos, aligns)
  {
    aligns := seq(|iov|, j requires 0 <= j < |iov| => RangeAlign(e, iov[j].base, iov[j].len, pos, true));
  }

  /** The alignment check of one leg in the submission loop. */
  method AlignLeg(engine: Engine, iov: seq<IoVec>, i: nat, pos: int, ghost aligns: seq<int>) returns (rv: int)
    requires AlignsOf(engine, iov, pos, aligns) && i < |iov|
    ensures rv == aligns[i]
  {
    rv := CheckTransferAlign(engine, iov[i].base as bv64, iov[i].len as bv64, LoffBits(pos), true);
    assert AlignedAs(engine, iov, pos, aligns, i);
  }

  /** Outcome j is the map of leg j's buffer with its own oracle. */
  predicate MappedAs(iov: seq<IoVec>, oracles: seq<MapOracle>, maps: seq<MapOutcome>, j: int)
    requires LegsFit(iov, oracles) && |maps| == |iov| && 0 <= j < |iov|
  {
    maps[j] == MapSpec(iov[j].base, iov[j].len, true, oracles[j])
  }

  /** `maps` holds the map outcome of every leg. */
  predicate MapsOf(iov: seq<IoVec>, oracles: seq<MapOracle>, maps: seq<MapOutcome>) {
    && LegsFit(iov, oracles) && |maps| == |iov|
    && forall j :: 0 <= j < |iov| ==> MappedAs(iov, oracles, maps, j)
  }

  /** Every leg has its map outcome: the pages are always pinned for writing. */
  lemma LegMaps(iov: seq<IoVec>, oracles: seq<MapOracle>) returns (maps: seq<MapOutcome>)
    requires LegsFit(iov, oracles)
    ensures MapsOf(iov, oracles, maps)
  {
    maps := seq(|iov|, j requires 0 <= j < |iov| => MapSpec(iov[j].base, iov[j].len, true, oracles[j]));
  }

  /** Leg i is aligned and its map did not fail, so it is submitted. */
  predicate Goes(aligns: seq<int>, maps: seq<MapOutcome>, i: nat)
    requires |aligns| == |maps| && i < |maps|
  {
    aligns[i] == 0 && maps[i].rv >= 0
  }

  /** The first leg from i on that is not submitted, or the number of legs. */
  function FirstStopFrom(aligns: seq<int>, maps: seq<MapOutcome>, i: nat): (k: nat)
    requires |aligns| == |maps| && i <= |maps|
    ensures i <= k <= |maps|
    ensures forall j :: i <= j < k ==> Goes(aligns, maps, j)
    ensures k < |maps| ==> !Goes(aligns, maps, k)
    decreases |maps| - i
  {
    if i == |maps| || !Goes(aligns, maps, i) then i
    else FirstStopFrom(aligns, maps, i + 1)
  }

  /** The first leg that is not submitted is the one after a run of legs that are. */
  lemma {:induction false} StopsAt(aligns: seq<int>, maps: seq<MapOutcome>, i: nat, k: nat)
    requires |aligns| == |maps| && i <= k <= |maps|
    requires forall j :: i <= j < k ==> Goes(aligns, maps, j)
    requires k < |maps| ==> !Goes(aligns, maps, k)
    ensures FirstStopFrom(aligns, maps, i) == k
    decreases k - i
  {
    if i < k {
      StopsAt(aligns, maps, i + 1, k);
    }
  }

  /** The calls of the first k legs: each one's map, then its submission at `pos` with its table. */
  function QueuedCalls(maps: seq<MapOutcome>, pos: int, write: bool, k: nat): seq<Call>
    requires k <= |maps|
  {
    if k == 0 then []
    else QueuedCalls(maps, pos, write, k - 1) + maps[k - 1].calls + [XferSubmitNowait(write, pos, Table(maps[k - 1].sgt))]
  }

  /** The wake-up of the engine's completion worker, when it has one. */
  function Wake(e: Engine): seq<Call>
    reads e
  {
    if e.cmplthp.Some? then [KthreadWakeup(e.cmplthp.value)] else []
  }

  /**
   * What the submission returns, the calls it makes, whether it freed the
   * aggregate, how many legs it set up, and whether the request was queued.
   */
  datatype AioOutcome = AioOutcome(rv: int, calls: seq<Call>, released: bool, legs: nat, queued: bool)

  /**
   * `cdev_aio_write` / `cdev_aio_read` once the node and direction passed,
   * given each leg's alignment verdict and map outcome: legs are aligned,
   * mapped and submitted in order. A misaligned leg frees the aggregate and
   * returns its verdict; a leg whose map fails returns the map's error and
   * keeps the aggregate; when every leg is submitted the completion worker
   * is woken and the request is queued.
   */
  function AioSpec(aligns: seq<int>, maps: seq<MapOutcome>, pos: int, write: bool, wake: seq<Call>): (r: AioOutcome)
    requires |aligns| == |maps|
    ensures r.legs <= |maps|
  {
    var k := FirstStopFrom(aligns, maps, 0);
    if k == |maps| then AioOutcome(-EIOCBQUEUED, QueuedCalls(maps, pos, write, k) + wake, false, k, true)
    else if aligns[k] != 0 then AioOutcome(aligns[k], QueuedCalls(maps, pos, write, k), true, k, false)
    else AioOutcome(maps[k].rv, QueuedCalls(maps, pos, write, k) + maps[k].calls, false, k + 1, false)
  }

  /** The state of a set-up leg: its buffer, the one device position, its direction, its owner, its map. */
  ghost predicate LegState(cb: IoCb, caio: AsyncIo, v: IoVec, pos: int, write: bool, m: MapOutcome)
    reads cb
  {
    && cb.buf == v.base && cb.len == v.len && cb.epAddr == pos && cb.write == write && cb.owner == caio
    && cb.pagesNr == m.pagesNr && cb.pages == m.pages && cb.sgt == m.sgt && cb.Valid()
  }

  /** The legs set up so far, each in the state its buffer and map outcome give it. */
  ghost predicate LegsSetUp(legs: seq<IoCb>, caio: AsyncIo, iov: seq<IoVec>, maps: seq<MapOutcome>, pos: int, write: bool)
    requires |legs| <= |iov| && |maps| == |iov|
    reads legs
  {
    forall j :: 0 <= j < |legs| ==> LegState(legs[j], caio, iov[j], pos, write, maps[j])
  }

  /**
   * A new control block for leg i after `legs`, owned by the aggregate and
   * mapped for writing into its pages.
   */
  method SetUpLeg(caio: AsyncIo, iov: seq<IoVec>, oracles: seq<MapOracle>, i: nat, pos: int, write: bool,
                  ghost maps: seq<MapOutcome>, legs: seq<IoCb>, log: Log) returns (cb: IoCb, rv: int)
    requires MapsOf(iov, oracles, maps) && i < |iov|
    requires |legs| == i && LegsSetUp(legs, caio, iov, maps, pos, write)
    modifies log
    ensures fresh(cb) && LegsSetUp(legs + [cb], caio, iov, maps, pos, write)
    ensures rv == maps[i].rv && log.calls == old(log.calls) + maps[i].calls
  {
    cb := new IoCb(iov[i].base, iov[i].len, pos, write, caio);
    rv := Map(cb, true, oracles[i], log);
    assert MappedAs(iov, oracles, maps, i);
  }

  /**
   * Leg i once it passed the alignment check: its control block is set up
   * after `legs` and mapped, and the leg is submitted unless the map failed.
   */
  method GoLeg(caio: AsyncIo, iov: seq<IoVec>, i: nat, pos: int, write: bool, oracles: seq<MapOracle>,
               ghost maps: seq<MapOutcome>, ghost before: seq<Call>, legs: seq<IoCb>, log: Log)
    returns (rv: int, legs': seq<IoCb>)
    requires MapsOf(iov, oracles, maps) && i < |iov|
    requires |legs| == i && LegsSetUp(legs, caio, iov, maps, pos, write)
    requires log.calls == before + QueuedCalls(maps, pos, write, i)
    modifies log
    ensures rv == maps[i].rv
    ensures |legs'| == i + 1 && legs'[..i] == legs && fresh(legs'[i])
    ensures LegsSetUp(legs', caio, iov, maps, pos, write)
    ensures rv >= 0 ==> log.calls == before + QueuedCalls(maps, pos, write, i + 1)
    ensures rv < 0 ==> log.calls == before + QueuedCalls(maps, pos, write, i) + maps[i].calls
  {
    var cb;
    cb, rv := SetUpLeg(caio, iov, oracles, i, pos, write, maps, legs, log);
    legs' := legs + [cb];
    if rv < 0 {
      return;
    }
    assert LegState(legs'[i], caio, iov[i], pos, write, maps[i]);
    log.calls := log.calls + [XferSubmitNowait(write, pos, Table(cb.sgt))];
  }

  /**
   * One pass of the submission loop over `legs`, the control blocks set up
   * before leg i: leg i is checked for alignment, then set up, mapped for
   * writing into its pages, and submitted unless the map failed. `stop`
   * says the loop ends here.
   */
  method SubmitLeg(caio: AsyncIo, engine: Engine, iov: seq<IoVec>, i: nat, pos: int, write: bool,
                   oracles: seq<MapOracle>, ghost aligns: seq<int>, ghost maps: seq<MapOutcome>,
                   ghost before: seq<Call>, legs: seq<IoCb>, log: Log)
    returns (rv: int, legs': seq<IoCb>, stop: bool)
    requires AlignsOf(engine, iov, pos, aligns) && MapsOf(iov, oracles, maps) && i < |iov|
    requires |legs| == i && LegsSetUp(legs, caio, iov, maps, pos, write)
    requires log.calls == before + QueuedCalls(maps, pos, write, i)
    modifies log
    ensures stop == !Goes(aligns, maps, i)
    ensures stop ==> rv == if aligns[i] != 0 then aligns[i] else maps[i].rv
    ensures |legs'| == (if aligns[i] == 0 then i + 1 else i) && legs'[..i] == legs
    ensures aligns[i] == 0 ==> fresh(legs'[i])
    ensures LegsSetUp(legs', caio, iov, maps, pos, write)
    ensures !stop ==> log.calls == before + QueuedCalls(maps, pos, write, i + 1)
    ensures stop ==> log.calls == before + QueuedCalls(maps, pos, write, i) + (if aligns[i] == 0 then maps[i].calls else [])
  {
    rv := AlignLeg(engine, iov, i, pos, aligns);
    if rv != 0 {
      return rv, legs, true;
    }
    rv, legs' := GoLeg(caio, iov, i, pos, write, oracles, maps, before, legs, log);
    stop := rv < 0;
  }

  /**
   * The submission loop: legs are submitted in order until one is
   * misaligned or fails to map. On return `k` is that leg (or the number of
   * legs), `legs` are the control blocks set up, and `released` says the
   * loop stopped on a misaligned leg, which frees the aggregate.
   */
  method SubmitLegs(caio: AsyncIo, engine: Engine, iov: seq<IoVec>, pos: int, write: bool,
                    oracles: seq<MapOracle>, ghost aligns: seq<int>, ghost maps: seq<MapOutcome>, log: Log)
    returns (rv: int, k: nat, stop: bool, legs: seq<IoCb>, released: bool)
    requires AlignsOf(engine, iov, pos, aligns) && MapsOf(iov, oracles, maps)
    modifies log
    ensures k <= |iov| && (forall j :: 0 <= j < k ==> Goes(aligns, maps, j)) && (stop <==> k < |iov|)
    ensures stop ==> !Goes(aligns, maps, k) && rv == if aligns[k] != 0 then aligns[k] else maps[k].rv
    ensures released == (stop && aligns[k] != 0)
    ensures log.calls == old(log.calls) + QueuedCalls(maps, pos, write, k) + (if stop && aligns[k] == 0 then maps[k].calls else [])
    ensures |legs| == (if stop && aligns[k] == 0 then k + 1 else k)
    ensures forall j :: 0 <= j < |legs| ==> fresh(legs[j])
    ensures LegsSetUp(legs, caio, iov, maps, pos, write)
  {
    rv, k, stop, legs, released := 0, 0, false, [], false;
    ghost var before := log.calls;
    while k < |iov| && !stop
      invariant k <= |iov|
      invariant forall j :: 0 <= j < k ==> Goes(aligns, maps, j)
      invariant stop ==> k < |iov| && !Goes(aligns, maps, k) && rv == if aligns[k] != 0 then aligns[k] else maps[k].rv
      invariant released == (stop && aligns[k] != 0)
      invariant log.calls == before + QueuedCalls(maps, pos, write, k) + (if stop && aligns[k] == 0 then maps[k].calls else [])
      invariant |legs| == (if stop && aligns[k] == 0 then k + 1 else k)
      invariant forall j :: 0 <= j < |legs| ==> fresh(legs[j])
      invariant LegsSetUp(legs, caio, iov, maps, pos, write)
      decreases |iov| - k, !stop
    {
      var next;
      rv, next, stop := SubmitLeg(caio, engine, iov, k, pos, write, oracles, aligns, maps, before, legs, log);
      released := stop && |next| == k;
      legs := next;
      if !stop {
        k := k + 1;
      }
    }
  }

  /** The submission outcome, once the loop stopped at leg k. */
  lemma AioSpecStopsAt(aligns: seq<int>, maps: seq<MapOutcome>, pos: int, write: bool, wake: seq<Call>, k: nat)
    requires |aligns| == |maps| && k <= |maps|
    requires forall j :: 0 <= j < k ==> Goes(aligns, maps, j)
    requires k < |maps| ==> !Goes(aligns, maps, k)
    ensures AioSpec(aligns, maps, pos, write, wake) ==
      if k == |maps| then AioOutcome(-EIOCBQUEUED, QueuedCalls(maps, pos, write, k) + wake, false, k, true)
      else if aligns[k] != 0 then AioOutcome(aligns[k], QueuedCalls(maps, pos, write, k), true, k, false)
      else AioOutcome(maps[k].rv, QueuedCalls(maps, pos, write, k) + maps[k].calls, false, k + 1, false)
  {
    StopsAt(aligns, maps, 0, k);
  }

  /**
   * The part of `cdev_aio_write` / `cdev_aio_read` after the aggregate is
   * allocated: the submission loop, then the wake-up of the completion
   * worker when every leg is in.
   */
  method QueueLegs(caio: AsyncIo, engine: Engine, iov: seq<IoVec>, pos: int, write: bool,
                   oracles: seq<MapOracle>, log: Log)
    returns (rv: int, legs: seq<IoCb>, released: bool, ghost aligns: seq<int>, ghost maps: seq<MapOutcome>)
    requires IsLoff(pos) && LegsFit(iov, oracles)
    modifies log
    ensures AlignsOf(engine, iov, pos, aligns) && MapsOf(iov, oracles, maps)
    ensures var r := AioSpec(aligns, maps, pos, write, Wake(engine));
      && rv == r.rv && log.calls == old(log.calls) + r.calls
      && released == r.released && |legs| == r.legs
      && (forall j :: 0 <= j < |legs| ==> fresh(legs[j]))
      && LegsSetUp(legs, caio, iov, maps, pos, write)
  {
    aligns := LegAligns(engine, iov, pos);
    maps := LegMaps(iov, oracles);
    var k, stop;
    rv, k, stop, legs, released := SubmitLegs(caio, engine, iov, pos, write, oracles, aligns, maps, log);
    AioSpecStopsAt(aligns, maps, pos, write, Wake(engine), k);
    if stop {
      return;
    }
    if engine.cmplthp.Some? {
      log.calls := log.calls + [KthreadWakeup(engine.cmplthp.value)];
    }
    rv := -EIOCBQUEUED;
  }

  /**
   * `cdev_aio_write` (write) and `cdev_aio_read` (read): a file without a
   * node, or an engine of the wrong direction, is -EINVAL; otherwise an
   * aggregate for all legs is created, the legs are submitted as `AioSpec`
   * says, and the completion worker is woken once all are in.
   */
  method AioSubmit(file: File, iov: seq<IoVec>, pos: int, write: bool, oracles: seq<MapOracle>, log: Log)
    returns (rv: int, caio: AsyncIo?, ghost aligns: seq<int>, ghost maps: seq<MapOutcome>)
    requires IsLoff(pos) && LegsFit(iov, oracles)
    requires file.privateData != null ==> file.privateData.engine != null
    modifies log
    ensures file.privateData == null || DirectionMismatch(file.privateData.engine, write) ==>
      rv == -EINVAL && caio == null && log.calls == old(log.calls)
    ensures file.privateData != null && !DirectionMismatch(file.privateData.engine, write) ==>
      && AlignsOf(file.privateData.engine, iov, pos, aligns) && MapsOf(iov, oracles, maps)
      && caio != null && fresh(caio) && caio.filp == file && caio.write == write && !caio.cancel
      && caio.Counters() == AioCounters(0, |iov|, 0, 0, 0)
      && var r := AioSpec(aligns, maps, pos, write, Wake(file.privateData.engine));
         && rv == r.rv && log.calls == old(log.calls) + r.calls
         && caio.released == r.released && |caio.legs| == r.legs
         && (forall j :: 0 <= j < |caio.legs| ==> fresh(caio.legs[j]))
         && LegsSetUp(caio.legs, caio, iov, maps, pos, write)
  {
    var xcdev := file.privateData;
    if xcdev == null {
      return -EINVAL, null, [], [];
    }
    var engine := xcdev.engine;
    if (write && engine.dir != ToDevice) || (!write && engine.dir != FromDevice) {
      return -EINVAL, null, [], [];
    }
    caio := new AsyncIo(file, write, |iov|);
    var legs, released;
    rv, legs, released, aligns, maps := QueueLegs(caio, engine, iov, pos, write, oracles, log);
    caio.legs := legs;
    caio.released := released;
  }

  // ----- what the fan-out promises -----

  /** A map makes page calls only, and releases nothing unless it failed. */
  predicate MapSound(m: MapOutcome) {
    PageCallsOnly(m.calls) && (m.rv >= 0 ==> PutPagesOf(m.calls) == [])
  }

  /** Every leg's map is sound. */
  predicate MapsSound(maps: seq<MapOutcome>) {
    forall j :: 0 <= j < |maps| ==> MapSound(maps[j])
  }

  /** The map outcomes of an I/O vector are sound. */
  lemma LegMapsSound(iov: seq<IoVec>, oracles: seq<MapOracle>, maps: seq<MapOutcome>)
    requires MapsOf(iov, oracles, maps)
    ensures MapsSound(maps)
  {
    forall j | 0 <= j < |maps|
      ensures MapSound(maps[j])
    {
      assert MappedAs(iov, oracles, maps, j);
      MapCallsHaveNoSubmit(iov[j].base, iov[j].len, true, oracles[j]);
      MapReleasesWhatItPinned(iov[j].base, iov[j].len, true, oracles[j]);
    }
  }

  /** The first k legs, all mapped without failure, release no page. */
  lemma {:induction false} QueuedReleaseNothing(aligns: seq<int>, maps: seq<MapOutcome>, pos: int, write: bool, k: nat)
    requires |aligns| == |maps| && k <= |maps| && MapsSound(maps)
    requires forall j :: 0 <= j < k ==> Goes(aligns, maps, j)
    ensures PutPagesOf(QueuedCalls(maps, pos, write, k)) == []
  {
    if k > 0 {
      QueuedReleaseNothing(aligns, maps, pos, write, k - 1);
      assert Goes(aligns, maps, k - 1) && MapSound(maps[k - 1]);
      LegReleasesNothing(QueuedCalls(maps, pos, write, k - 1), maps[k - 1].calls, XferSubmitNowait(write, pos, Table(maps[k - 1].sgt)));
    }
  }

  /** A leg that releases no page, submitted after calls that release none, releases none. */
  lemma LegReleasesNothing(prev: seq<Call>, m: seq<Call>, submit: Call)
    requires PutPagesOf(prev) == [] && PutPagesOf(m) == [] && submit.XferSubmitNowait?
    ensures PutPagesOf(prev + m + [submit]) == []
  {
    var sub := [submit];
    PutsAppend(prev, m);
    PutsAppend(prev + m, sub);
    assert sub[..0] == [];
  }

  /** The submissions of the first k legs: each at `pos`, with the leg's own table. */
  function Submissions(maps: seq<MapOutcome>, pos: int, write: bool, k: nat): seq<Call>
    requires k <= |maps|
  {
    seq(k, j requires 0 <= j < k => XferSubmitNowait(write, pos, Table(maps[j].sgt)))
  }

  /** The first k legs queue k transfers, leg j at `pos` with leg j's table. */
  lemma {:induction false} QueuedSubmits(maps: seq<MapOutcome>, pos: int, write: bool, k: nat)
    requires k <= |maps| && MapsSound(maps)
    ensures NowaitSubmitsOf(QueuedCalls(maps, pos, write, k)) == Submissions(maps, pos, write, k)
  {
    if k > 0 {
      QueuedSubmits(maps, pos, write, k - 1);
      assert MapSound(maps[k - 1]);
      PageCallsSubmitNothing(maps[k - 1].calls);
      var submit := XferSubmitNowait(write, pos, Table(maps[k - 1].sgt));
      LegSubmitsOnce(QueuedCalls(maps, pos, write, k - 1), maps[k - 1].calls, submit);
      SubmissionsStep(maps, pos, write, k);
    }
  }

  /** The submissions of k legs are those of the first k - 1, then leg k - 1's. */
  lemma SubmissionsStep(maps: seq<MapOutcome>, pos: int, write: bool, k: nat)
    requires 0 < k <= |maps|
    ensures Submissions(maps, pos, write, k)
         == Submissions(maps, pos, write, k - 1) + [XferSubmitNowait(write, pos, Table(maps[k - 1].sgt))]
  {
    var s, t := Submissions(maps, pos, write, k), Submissions(maps, pos, write, k - 1);
    assert forall j :: 0 <= j < k - 1 ==> s[j] == t[j];
  }

  /** A leg whose map queues nothing adds exactly its own submission. */
  lemma LegSubmitsOnce(prev: seq<Call>, m: seq<Call>, submit: Call)
    requires NowaitSubmitsOf(m) == [] && submit.XferSubmitNowait?
    ensures NowaitSubmitsOf(prev + m + [submit]) == NowaitSubmitsOf(prev) + [submit]
  {
    var sub := [submit];
    SubmitsAppend(prev, m);
    SubmitsAppend(prev + m, sub);
    assert sub[..0] == [];
  }

  /**
   * The request is queued exactly when every leg is aligned and mapped, and
   * then every leg is set up; the aggregate is freed exactly when a leg is
   * misaligned with every leg before it submitted.
   */
  lemma AioQueuedOrStopped(aligns: seq<int>, maps: seq<MapOutcome>, pos: int, write: bool, wake: seq<Call>)
    requires |aligns| == |maps|
    ensures var r := AioSpec(aligns, maps, pos, write, wake);
      r.queued <==> forall j :: 0 <= j < |maps| ==> Goes(aligns, maps, j)
    ensures var r := AioSpec(aligns, maps, pos, write, wake);
      r.queued ==> r.rv == -EIOCBQUEUED && r.legs == |maps| && !r.released
    ensures var r := AioSpec(aligns, maps, pos, write, wake);
      r.released <==> exists k :: 0 <= k < |maps| && aligns[k] != 0 && forall j :: 0 <= j < k ==> Goes(aligns, maps, j)
  {
    var k := FirstStopFrom(aligns, maps, 0);
    var r := AioSpec(aligns, maps, pos, write, wake);
    if r.released {
      assert aligns[k] != 0;
    }
    if exists k' :: 0 <= k' < |maps| && aligns[k'] != 0 && forall j :: 0 <= j < k' ==> Goes(aligns, maps, j) {
      var k' :| 0 <= k' < |maps| && aligns[k'] != 0 && forall j :: 0 <= j < k' ==> Goes(aligns, maps, j);
      assert !Goes(aligns, maps, k');
    }
  }

  /**
   * The transfers the fan-out queues are one per leg set up, except a leg
   * whose map failed, in leg order: leg j's transfer goes in the direction
   * of the request, to the one device address `pos`, with the list of leg
   * j's pinned pages, which covers leg j's buffer.
   */
  lemma AioSubmissions(iov: seq<IoVec>, oracles: seq<MapOracle>, aligns: seq<int>, maps: seq<MapOutcome>,
                       pos: int, write: bool, wake: seq<Call>)
    requires MapsOf(iov, oracles, maps) && |aligns| == |maps| && NowaitSubmitsOf(wake) == []
    ensures var r := AioSpec(aligns, maps, pos, write, wake);
      var n := if r.queued || r.released then r.legs else r.legs - 1;
      var subs := NowaitSubmitsOf(r.calls);
      && |subs| == n
      && forall j :: 0 <= j < n ==>
           && subs[j] == XferSubmitNowait(write, pos, SgList(iov[j].base % PAGE_SIZE, iov[j].len, oracles[j].pinned))
           && TotalLength(subs[j].sgl) == iov[j].len
  {
    LegMapsSound(iov, oracles, maps);
    var k := FirstStopFrom(aligns, maps, 0);
    var q := QueuedCalls(maps, pos, write, k);
    QueuedSubmits(maps, pos, write, k);
    if k == |maps| {
      SubmitsAppend(q, wake);
    } else if aligns[k] == 0 {
      assert MapSound(maps[k]);
      PageCallsSubmitNothing(maps[k].calls);
      SubmitsAppend(q, maps[k].calls);
    }
    assert NowaitSubmitsOf(AioSpec(aligns, maps, pos, write, wake).calls) == Submissions(maps, pos, write, k);
    forall j | 0 <= j < k
      ensures Table(maps[j].sgt) == SgList(iov[j].base % PAGE_SIZE, iov[j].len, oracles[j].pinned)
      ensures TotalLength(Table(maps[j].sgt)) == iov[j].len
    {
      assert Goes(aligns, maps, j) && MappedAs(iov, oracles, maps, j);
      MapSucceeds(iov[j].base, iov[j].len, true, oracles[j]);
    }
  }

  /** The only pages the fan-out gives back are those of a leg whose map failed. */
  lemma AioReleases(aligns: seq<int>, maps: seq<MapOutcome>, pos: int, write: bool, wake: seq<Call>)
    requires |aligns| == |maps| && MapsSound(maps) && PutPagesOf(wake) == []
    ensures var r := AioSpec(aligns, maps, pos, write, wake);
      PutPagesOf(r.calls) == if r.queued || r.released then [] else PutPagesOf(maps[r.legs - 1].calls)
  {
    var k := FirstStopFrom(aligns, maps, 0);
    var q := QueuedCalls(maps, pos, write, k);
    var r := AioSpec(aligns, maps, pos, write, wake);
    QueuedReleaseNothing(aligns, maps, pos, write, k);
    if k == |maps| {
      assert r.calls == q + wake && r.queued;
      PutsAppend(q, wake);
    } else if aligns[k] == 0 {
      assert r.calls == q + maps[k].calls && r.legs == k + 1 && !r.queued && !r.released;
      PutsAppend(q, maps[k].calls);
    } else {
      assert r.calls == q && r.released;
    }
  }

  // ----- open and release -----

  /** A card-to-host streaming engine: its node may be open only once at a time. */
  predicate StreamingReceive(e: Engine)
    reads e
  {
    e.streaming && e.dir == FromDevice
  }

  /**
   * `char_sgdma_open`: attaches the node to the file, then refuses a second
   * open of a streaming receive node with -EBUSY and marks it open
   * otherwise. The result of attaching is not looked at.
   */
  method SgdmaOpen(xcdev: Cdev, file: File) returns (rv: int)
    requires xcdev.magic == MAGIC_CHAR && xcdev.engine != null
    modifies file, xcdev.engine
    ensures file.privateData == xcdev && file.pos == old(file.pos)
    ensures StreamingReceive(xcdev.engine) ==>
      (rv == -EBUSY <==> old(xcdev.engine.deviceOpen) == 1) && xcdev.engine.deviceOpen == 1
    ensures !StreamingReceive(xcdev.engine) ==> rv == 0 && xcdev.engine.deviceOpen == old(xcdev.engine.deviceOpen)
    ensures rv == 0 || rv == -EBUSY
    ensures xcdev.engine.cyclicReq == old(xcdev.engine.cyclicReq)
    ensures xcdev.engine.transfers == old(xcdev.engine.transfers) && xcdev.engine.cmplthp == old(xcdev.engine.cmplthp)
    ensures xcdev.engine.intrWorkCpu == old(xcdev.engine.intrWorkCpu)
  {
    var attached := CharOpen(xcdev, file);
    var engine := file.privateData.engine;
    if engine.streaming && engine.dir == FromDevice {
      if engine.deviceOpen == 1 {
        return -EBUSY;
      }
      engine.deviceOpen := 1;
    }
    rv := 0;
  }

  /**
   * `char_sgdma_close`: a node that fails the full node check is refused
   * with -EINVAL; a streaming receive node is marked closed, and when a
   * cyclic request is set up the result of tearing it down (`teardownRv`)
   * is returned.
   */
  method SgdmaClose(file: File, teardownRv: int) returns (rv: int)
    modifies if file.privateData != null && file.privateData.engine != null then {file.privateData.engine} else {}
    ensures XcdevCheck(file.privateData, true) != 0 ==> rv == -EINVAL
    ensures XcdevCheck(file.privateData, true) == 0 ==>
      var e := file.privateData.engine;
      && (StreamingReceive(e) ==> e.deviceOpen == 0 && rv == (if e.cyclicReq then teardownRv else 0))
      && (!StreamingReceive(e) ==> rv == 0 && e.deviceOpen == old(e.deviceOpen))
    ensures file.privateData != null && file.privateData.engine != null ==>
      var e := file.privateData.engine;
      && (XcdevCheck(file.privateData, true) != 0 ==> e.deviceOpen == old(e.deviceOpen))
      && e.cyclicReq == old(e.cyclicReq) && e.transfers == old(e.transfers)
      && e.cmplthp == old(e.cmplthp) && e.intrWorkCpu == old(e.intrWorkCpu)
  {
    var xcdev := file.privateData;
    rv := XcdevCheck(xcdev, true);
    if rv < 0 {
      return;
    }
    var engine := xcdev.engine;
    if engine.streaming && engine.dir == FromDevice {
      engine.deviceOpen := 0;
      if engine.cyclicReq {
        return teardownRv;
      }
    }
    rv := 0;
  }

  /**
   * A card-to-host streaming node is open to one file at a time: a second
   * open is refused until the first file is released, and then succeeds.
   */
  method StreamingNodeOpensOnce(teardownRv: int) returns (first: int, second: int, released: int, retried: int)
    ensures first == 0 && second == -EBUSY && released == 0 && retried == 0
  {
    var mdev := new Dev(MAGIC_DEVICE);
    var engine := new Engine(MAGIC_ENGINE, FromDevice, false, true, 1, 1, 0);
    var xcdev := new Cdev(MAGIC_CHAR, mdev, engine, 0);
    var a := new File();
    var b := new File();
    first := SgdmaOpen(xcdev, a);
    second := SgdmaOpen(xcdev, b);
    released := SgdmaClose(a, teardownRv);
    retried := SgdmaOpen(xcdev, b);
  }
}

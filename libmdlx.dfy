/**
 * The register layout, address helpers, engine and device records and the
 * device-flag helpers of the driver's library header (src/libmdlx.h).
 *
 * The transfer engine itself (descriptor chains, the transfer state machine,
 * `engine_service_poll`) is only declared by that header; its records are
 * given here as data, and its operations appear elsewhere only as oracle
 * results.
 */
module LibMdlx {
  import opened Kernel

  const CHANNEL_NUM_MAX: nat := 4

  /** Maximum byte count of a single descriptor: a 28-bit length field. */
  const DESC_BLEN_BITS: nat := 28
  const DESC_BLEN_MAX: bv32 := (1 << 28) - 1

  const MAGIC_ENGINE: nat := 0xEEEE_EEEE
  const MAGIC_DEVICE: nat := 0xDDDD_DDDD

  /** Bit n of a 32-bit register. */
  function Bit(n: nat): (b: bv32)
    requires n < 32
    ensures b != 0
  {
    (1 as bv32) << n
  }

  predicate HasBit(mask: bv32, n: nat)
    requires n < 32
  {
    mask & Bit(n) != 0
  }

  // Bits of the SG DMA status register.
  const STAT_BUSY: bv32 := 1 << 0
  const STAT_DESC_STOPPED: bv32 := 1 << 1
  const STAT_DESC_COMPLETED: bv32 := 1 << 2
  const STAT_ALIGN_MISMATCH: bv32 := 1 << 3
  const STAT_MAGIC_STOPPED: bv32 := 1 << 4
  const STAT_INVALID_LEN: bv32 := 1 << 5
  const STAT_IDLE_STOPPED: bv32 := 1 << 6

  const STAT_COMMON_ERR_MASK: bv32 :=
    STAT_ALIGN_MISMATCH | STAT_MAGIC_STOPPED | STAT_INVALID_LEN

  // Descriptor errors, both directions.
  const STAT_DESC_ERR_MASK: bv32 :=
    (1 << 19) | (1 << 20) | (1 << 21) | (1 << 22) | (1 << 23)

  // Read errors, host-to-card.
  const STAT_H2C_R_ERR_MASK: bv32 :=
    (1 << 9) | (1 << 10) | (1 << 11) | (1 << 12) | (1 << 13)

  // Write errors, host-to-card only.
  const STAT_H2C_W_ERR_MASK: bv32 := (1 << 14) | (1 << 15)

  // Read errors, card-to-host.
  const STAT_C2H_R_ERR_MASK: bv32 := (1 << 9) | (1 << 10)

  const STAT_H2C_ERR_MASK: bv32 :=
    STAT_COMMON_ERR_MASK | STAT_DESC_ERR_MASK | STAT_H2C_R_ERR_MASK | STAT_H2C_W_ERR_MASK

  const STAT_C2H_ERR_MASK: bv32 :=
    STAT_COMMON_ERR_MASK | STAT_DESC_ERR_MASK | STAT_C2H_R_ERR_MASK

  /** The status bits that report progress rather than an error. */
  const STAT_PROGRESS_BITS: bv32 :=
    STAT_BUSY | STAT_DESC_STOPPED | STAT_DESC_COMPLETED | STAT_IDLE_STOPPED

  // Poll-mode write-back word: completed descriptor count and error flag.
  const WB_COUNT_MASK: bv32 := 0x00ff_ffff
  const WB_ERR_MASK: bv32 := 1 << 31

  /** The four error groups occupy exactly the bit positions the header names. */
  lemma ErrorGroupBits(n: nat)
    requires n < 32
    ensures HasBit(STAT_COMMON_ERR_MASK, n) <==> 3 <= n <= 5
    ensures HasBit(STAT_DESC_ERR_MASK, n) <==> 19 <= n <= 23
    ensures HasBit(STAT_H2C_R_ERR_MASK, n) <==> 9 <= n <= 13
    ensures HasBit(STAT_H2C_W_ERR_MASK, n) <==> 14 <= n <= 15
    ensures HasBit(STAT_C2H_R_ERR_MASK, n) <==> 9 <= n <= 10
  {
  }

  /**
   * The host-to-card error mask is the union of four pairwise disjoint groups;
   * the card-to-host mask drops the write group and narrows the read group,
   * so it is contained in the host-to-card mask.
   */
  lemma ErrorMaskComposition()
    ensures STAT_COMMON_ERR_MASK & STAT_DESC_ERR_MASK == 0
    ensures STAT_COMMON_ERR_MASK & STAT_H2C_R_ERR_MASK == 0
    ensures STAT_COMMON_ERR_MASK & STAT_H2C_W_ERR_MASK == 0
    ensures STAT_DESC_ERR_MASK & STAT_H2C_R_ERR_MASK == 0
    ensures STAT_DESC_ERR_MASK & STAT_H2C_W_ERR_MASK == 0
    ensures STAT_H2C_R_ERR_MASK & STAT_H2C_W_ERR_MASK == 0
    ensures STAT_C2H_R_ERR_MASK & !STAT_H2C_R_ERR_MASK == 0
    ensures STAT_C2H_ERR_MASK & !STAT_H2C_ERR_MASK == 0
    ensures STAT_C2H_ERR_MASK != STAT_H2C_ERR_MASK
  {
  }

  /**
   * Neither error mask reports busy, descriptor-stopped, descriptor-completed
   * or idle-stopped as an error, and the write-back count and error fields
   * do not overlap.
   */
  lemma ProgressBitsAreNotErrors()
    ensures STAT_H2C_ERR_MASK & STAT_PROGRESS_BITS == 0
    ensures STAT_C2H_ERR_MASK & STAT_PROGRESS_BITS == 0
    ensures WB_COUNT_MASK & WB_ERR_MASK == 0
    ensures WB_COUNT_MASK | WB_ERR_MASK != 0xffff_ffff
  {
  }

  /** The largest descriptor length is all ones in the 28-bit length field. */
  lemma DescLengthLimit()
    ensures DESC_BLEN_MAX as int == 0x0fff_ffff
    ensures DESC_BLEN_MAX + 1 == 1 << DESC_BLEN_BITS
    ensures DESC_BLEN_MAX & !((1 << DESC_BLEN_BITS) - 1) == 0
  {
  }

  /** The 32 most significant bits of a bus address. */
  function DmaHigh(addr: bv64): (h: bv64)
    ensures h < 0x1_0000_0000
  {
    (addr >> 16) >> 16
  }

  /** The 32 least significant bits of a bus address. */
  function DmaLow(addr: bv64): (l: bv64)
    ensures l < 0x1_0000_0000
  {
    addr & 0xffff_ffff
  }

  /** Splitting an address into high and low words loses nothing. */
  lemma AddressSplit(a: bv64)
    ensures (DmaHigh(a) << 32) | DmaLow(a) == a
    ensures (DmaHigh(a) << 32) & DmaLow(a) == 0
    ensures DmaHigh(a) * 0x1_0000_0000 + DmaLow(a) == a
  {
    SplitBits(a, DmaHigh(a), DmaLow(a));
  }

  lemma SplitBits(a: bv64, h: bv64, l: bv64)
    requires h == (a >> 16) >> 16 && l == a & 0xffff_ffff
    ensures (h << 32) | l == a
    ensures (h << 32) & l == 0
    ensures h * 0x1_0000_0000 + l == a
  {
  }

  // ----- engine and device records -----

  /** `enum dma_data_direction`. */
  datatype DmaDirection = Bidirectional | ToDevice | FromDevice | NoDirection

  /** `enum transfer_state`. */
  datatype TransferState = New | Submitted | Completed | Failed | Aborted

  /** A submitted descriptor chain, as far as the completion workers see it. */
  datatype Transfer = Transfer(descNum: int, state: TransferState, cyclic: bool)

  /** One DMA channel (`struct mdlx_engine`). */
  class Engine {
    const magic: nat
    const dir: DmaDirection
    const nonIncrAddr: bool
    const streaming: bool
    /** Address alignment in bytes (an `int` register value, as its bits). */
    const addrAlign: bv32
    /** Transfer length multiple (an `int` register value, as its bits). */
    const lenGranularity: bv32
    const channel: int
    /** Set while the card-to-host streaming node is open. */
    var deviceOpen: int
    /** A cyclic (streaming receive) request is set up. */
    var cyclicReq: bool
    /** `transfer_list`: in-flight transfers, oldest first. */
    var transfers: seq<Transfer>
    /** `cmplthp`: the index of the completion worker polling this engine. */
    var cmplthp: Option<nat>
    var intrWorkCpu: nat

    constructor (magic: nat, dir: DmaDirection, nonIncrAddr: bool, streaming: bool,
                 addrAlign: bv32, lenGranularity: bv32, channel: int)
      ensures this.magic == magic && this.dir == dir && this.nonIncrAddr == nonIncrAddr
      ensures this.streaming == streaming && this.addrAlign == addrAlign
      ensures this.lenGranularity == lenGranularity && this.channel == channel
      ensures deviceOpen == 0 && !cyclicReq && transfers == [] && cmplthp == None
      ensures intrWorkCpu == 0
    {
      this.magic := magic;
      this.dir := dir;
      this.nonIncrAddr := nonIncrAddr;
      this.streaming := streaming;
      this.addrAlign := addrAlign;
      this.lenGranularity := lenGranularity;
      this.channel := channel;
      deviceOpen := 0;
      cyclicReq := false;
      transfers := [];
      cmplthp := None;
      intrWorkCpu := 0;
    }
  }

  /** The PCIe device record (`struct mdlx_dev`), with its flag word. */
  class Dev {
    const magic: nat
    var flags: bv32

    constructor (magic: nat)
      ensures this.magic == magic && flags == 0
    {
      this.magic := magic;
      flags := 0;
    }

    /** `mdlx_device_flag_check`: 1 when any bit of `f` is set. */
    function FlagCheck(f: bv32): (r: int)
      reads this
      ensures r == 0 || r == 1
      ensures r == 1 <==> flags & f != 0
    {
      if flags & f != 0 then 1 else 0
    }

    /**
     * `mdlx_device_flag_test_n_set`: reports 1 and changes nothing when a bit
     * of `f` is already set; otherwise sets `f` and reports 0.
     */
    method FlagTestAndSet(f: bv32) returns (rv: int)
      modifies this
      ensures rv == old(FlagCheck(f))
      ensures flags == if rv == 1 then old(flags) else old(flags) | f
    {
      if flags & f != 0 {
        rv := 1;
      } else {
        flags := flags | f;
        rv := 0;
      }
    }

    /** `mdlx_device_flag_set`: sets the bits of `f` (see `SetFlagEffects`). */
    method FlagSet(f: bv32)
      modifies this
      ensures flags == old(flags) | f
    {
      flags := flags | f;
    }

    /** `mdlx_device_flag_clear`: clears the bits of `f` (see `ClearFlagEffects`). */
    method FlagClear(f: bv32)
      modifies this
      ensures flags == old(flags) & !f
    {
      flags := flags & !f;
    }
  }

  /** After setting `f`, a check of a non-zero `f` reports 1; no other bit moves. */
  lemma SetFlagEffects(flags: bv32, f: bv32)
    ensures (flags | f) & f == f
    ensures f != 0 ==> (flags | f) & f != 0
    ensures (flags | f) & !f == flags & !f
  {
  }

  /** After clearing `f`, a check of `f` reports 0; no other bit moves. */
  lemma ClearFlagEffects(flags: bv32, f: bv32)
    ensures (flags & !f) & f == 0
    ensures (flags & !f) & !f == flags & !f
  {
  }

  /**
   * Whatever a first test-and-set of a non-zero `f` reported, the flag word it
   * leaves behind makes an immediate repeat report 1 and change nothing.
   */
  lemma TestAndSetTwice(flags: bv32, f: bv32)
    requires f != 0
    ensures var after := if flags & f != 0 then flags else flags | f;
            after & f != 0
  {
    if flags & f == 0 {
      SetFlagEffects(flags, f);
    }
  }
}

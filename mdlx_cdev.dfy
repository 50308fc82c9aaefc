/**
 * Character-device records of the driver (src/mdlx_cdev.c): the magic-number
 * validation every data-path entry point runs first, the release checks, the
 * naming guard and the minor-number table used when a node is created, and
 * the interface-flag bits of the PCI device record.
 *
 * Registering, naming and destroying the nodes (`cdev_add`, `device_create`,
 * `kobject_set_name`, ...) is kernel work and enters only as results.
 */
module CharDev {
  import opened Kernel
  import opened LibMdlx

  const MAGIC_CHAR: nat := 0xCCCC_CCCC
  const MINOR_COUNT: nat := 255

  /** `enum cdev_type`. */
  const CHAR_USER: int := 0
  const CHAR_CTRL: int := 1
  const CHAR_XVC: int := 2
  const CHAR_EVENTS: int := 3
  const CHAR_MDLX_H2C: int := 4
  const CHAR_MDLX_C2H: int := 5
  const CHAR_BYPASS_H2C: int := 6
  const CHAR_BYPASS_C2H: int := 7
  const CHAR_BYPASS: int := 8

  /** The node types that carry a DMA engine. */
  predicate IsEngineType(t: int) {
    t == CHAR_MDLX_H2C || t == CHAR_MDLX_C2H || t == CHAR_BYPASS_H2C || t == CHAR_BYPASS_C2H
  }

  predicate IsKnownType(t: int) {
    CHAR_USER <= t <= CHAR_BYPASS
  }

  /** A character-device node (`struct mdlx_cdev`). */
  class Cdev {
    const magic: nat
    const mdev: Dev?
    const engine: Engine?
    const bar: int

    constructor (magic: nat, mdev: Dev?, engine: Engine?, bar: int)
      ensures this.magic == magic && this.mdev == mdev && this.engine == engine && this.bar == bar
    {
      this.magic := magic;
      this.mdev := mdev;
      this.engine := engine;
      this.bar := bar;
    }
  }

  /** An open file (`struct file`): the node it refers to and its position. */
  class File {
    var privateData: Cdev?
    var pos: int

    constructor ()
      ensures privateData == null && pos == 0
    {
      privateData := null;
      pos := 0;
    }
  }

  /**
   * `xcdev_check`: 0 exactly when the node, its device and (when asked) its
   * engine are all present and carry their magic numbers; -EINVAL otherwise.
   */
  function XcdevCheck(xcdev: Cdev?, checkEngine: bool): (rv: int)
    ensures rv == 0 || rv == -EINVAL
    ensures rv == 0 <==>
      && xcdev != null && xcdev.magic == MAGIC_CHAR
      && xcdev.mdev != null && xcdev.mdev.magic == MAGIC_DEVICE
      && (checkEngine ==> xcdev.engine != null && xcdev.engine.magic == MAGIC_ENGINE)
  {
    if xcdev == null || xcdev.magic != MAGIC_CHAR then -EINVAL
    else if xcdev.mdev == null || xcdev.mdev.magic != MAGIC_DEVICE then -EINVAL
    else if checkEngine && (xcdev.engine == null || xcdev.engine.magic != MAGIC_ENGINE) then -EINVAL
    else 0
  }

  /** Checking the engine as well can only turn acceptance into rejection. */
  lemma EngineCheckIsStricter(xcdev: Cdev?)
    ensures XcdevCheck(xcdev, true) == 0 ==> XcdevCheck(xcdev, false) == 0
  {
  }

  /**
   * `char_close`: the release of a node rejects exactly what `xcdev_check`
   * without the engine check rejects, one condition at a time.
   */
  function CharClose(xcdev: Cdev?): (rv: int)
    ensures rv == XcdevCheck(xcdev, false)
  {
    if xcdev == null then -EINVAL
    else if xcdev.magic != MAGIC_CHAR then -EINVAL
    else if xcdev.mdev == null then -EINVAL
    else if xcdev.mdev.magic != MAGIC_DEVICE then -EINVAL
    else 0
  }

  /**
   * `char_open`: attaches the node to the file when its magic number is right.
   */
  method CharOpen(xcdev: Cdev, file: File) returns (rv: int)
    modifies file
    ensures rv == 0 <==> xcdev.magic == MAGIC_CHAR
    ensures rv != 0 ==> rv == -EINVAL
    ensures file.pos == old(file.pos)
    ensures file.privateData == if rv == 0 then xcdev else old(file.privateData)
  {
    if xcdev.magic != MAGIC_CHAR {
      return -EINVAL;
    }
    file.privateData := xcdev;
    rv := 0;
  }

  /**
   * The guard of `config_kobject`: an engine-bearing type without an engine
   * and an unknown type are rejected with -EINVAL; every other node gets the
   * result of naming its kernel object (`setNameRv`).
   */
  function ConfigKobject(t: int, engine: Engine?, setNameRv: int): (rv: int)
    ensures IsEngineType(t) && engine == null ==> rv == -EINVAL
    ensures !IsKnownType(t) ==> rv == -EINVAL
    ensures IsKnownType(t) && !(IsEngineType(t) && engine == null) ==> rv == setNameRv
  {
    if IsEngineType(t) then
      if engine == null then -EINVAL else setNameRv
    else if t == CHAR_BYPASS || t == CHAR_USER || t == CHAR_CTRL || t == CHAR_XVC then
      setNameRv
    else if t == CHAR_EVENTS then
      setNameRv
    else
      -EINVAL
  }

  /** The minor-number switch of `create_xcdev`. */
  function MinorNumber(t: int, bar: int, channel: int): (m: Option<int>)
    ensures m.None? <==> !IsKnownType(t)
  {
    if t == CHAR_USER || t == CHAR_CTRL then Some(t)
    else if t == CHAR_XVC then Some(t)
    else if t == CHAR_MDLX_H2C then Some(32 + channel)
    else if t == CHAR_MDLX_C2H then Some(36 + channel)
    else if t == CHAR_EVENTS then Some(10 + bar)
    else if t == CHAR_BYPASS_H2C then Some(64 + channel)
    else if t == CHAR_BYPASS_C2H then Some(68 + channel)
    else if t == CHAR_BYPASS then Some(100)
    else None
  }

  /** The table itself, type by type. */
  lemma MinorTable(bar: int, ch: int)
    ensures MinorNumber(CHAR_USER, bar, ch) == Some(0)
    ensures MinorNumber(CHAR_CTRL, bar, ch) == Some(1)
    ensures MinorNumber(CHAR_XVC, bar, ch) == Some(2)
    ensures MinorNumber(CHAR_EVENTS, bar, ch) == Some(10 + bar)
    ensures MinorNumber(CHAR_MDLX_H2C, bar, ch) == Some(32 + ch)
    ensures MinorNumber(CHAR_MDLX_C2H, bar, ch) == Some(36 + ch)
    ensures MinorNumber(CHAR_BYPASS_H2C, bar, ch) == Some(64 + ch)
    ensures MinorNumber(CHAR_BYPASS_C2H, bar, ch) == Some(68 + ch)
    ensures MinorNumber(CHAR_BYPASS, bar, ch) == Some(100)
  {
  }

  /** The parameter a node type's minor number depends on, if any. */
  function MinorKey(t: int, bar: int, channel: int): int {
    if t == CHAR_EVENTS then bar else if IsEngineType(t) then channel else 0
  }

  /**
   * With channels below the channel maximum (4) and BAR indices below 16, no
   * two distinct nodes share a minor number, and every minor lies inside the
   * region of `MINOR_COUNT` minors the driver reserves.
   */
  lemma MinorsDisjoint(t1: int, bar1: int, ch1: int, t2: int, bar2: int, ch2: int)
    requires IsKnownType(t1) && IsKnownType(t2)
    requires 0 <= bar1 < 16 && 0 <= bar2 < 16
    requires 0 <= ch1 < CHANNEL_NUM_MAX && 0 <= ch2 < CHANNEL_NUM_MAX
    ensures 0 <= MinorNumber(t1, bar1, ch1).value < MINOR_COUNT
    ensures MinorNumber(t1, bar1, ch1) == MinorNumber(t2, bar2, ch2) <==>
      t1 == t2 && MinorKey(t1, bar1, ch1) == MinorKey(t2, bar2, ch2)
  {
  }

  /**
   * The part of `create_xcdev` that picks the minor number: the naming guard
   * runs first, so a failure there is returned as it is, and the switch's own
   * unknown-type branch can never be reached.
   */
  function CreateXcdevMinor(t: int, bar: int, engine: Engine?, setNameRv: int): (r: Result<int>)
    ensures r.Err? <==> ConfigKobject(t, engine, setNameRv) < 0
    ensures r.Err? ==> r.code == ConfigKobject(t, engine, setNameRv)
    ensures r.Ok? ==> IsKnownType(t) && (IsEngineType(t) ==> engine != null)
    ensures r.Ok? ==> MinorNumber(t, bar, if engine != null then engine.channel else 0) == Some(r.value)
  {
    var rv := ConfigKobject(t, engine, setNameRv);
    if rv < 0 then Err(rv)
    else
      var channel := if engine != null then engine.channel else 0;
      match MinorNumber(t, bar, channel)
      case Some(m) => Ok(m)
      case None => assert false; Err(-EINVAL)
  }

  /** `enum mddev_flags_bits`: which interface groups were created. */
  const XDF_CDEV_USER: nat := 0
  const XDF_CDEV_CTRL: nat := 1
  const XDF_CDEV_XVC: nat := 2
  const XDF_CDEV_EVENT: nat := 3
  const XDF_CDEV_SG: nat := 4
  const XDF_CDEV_BYPASS: nat := 5

  /** The driver's per-PCI-device record (`struct mdlx_pci_dev`), its flags only. */
  class PciDev {
    var flags: bv32

    constructor ()
      ensures flags == 0
    {
      flags := 0;
    }

    /** `mddev_flag_set`: sets bit `fbit` (see `LibMdlx.SetFlagEffects`). */
    method FlagSet(fbit: nat)
      requires fbit <= XDF_CDEV_BYPASS
      modifies this
      ensures flags == old(flags) | Bit(fbit)
    {
      flags := flags | Bit(fbit);
    }

    /** `xcdev_flag_clear`: clears bit `fbit` (see `LibMdlx.ClearFlagEffects`). */
    method FlagClear(fbit: nat)
      requires fbit <= XDF_CDEV_BYPASS
      modifies this
      ensures flags == old(flags) & !Bit(fbit)
    {
      flags := flags & !Bit(fbit);
    }

    /** `mddev_flag_test`: non-zero exactly when bit `fbit` is set. */
    function FlagTest(fbit: nat): (r: bv32)
      requires fbit <= XDF_CDEV_BYPASS
      reads this
      ensures r != 0 <==> HasBit(flags, fbit)
      ensures r == 0 || r == Bit(fbit)
    {
      flags & Bit(fbit)
    }
  }

  /**
   * Setting one interface bit makes its test non-zero and leaves the test of
   * every other interface bit as it was.
   */
  lemma SetBitIndependence(flags: bv32, fbit: nat, other: nat)
    requires fbit <= XDF_CDEV_BYPASS && other <= XDF_CDEV_BYPASS && other != fbit
    ensures HasBit(flags | Bit(fbit), fbit)
    ensures HasBit(flags | Bit(fbit), other) == HasBit(flags, other)
  {
    DistinctBits(fbit, other);
    SetFlagEffects(flags, Bit(fbit));
    SetKeepsOther(flags, Bit(fbit), Bit(other));
  }

  /**
   * Clearing one interface bit makes its test zero and leaves the test of
   * every other interface bit as it was.
   */
  lemma ClearBitIndependence(flags: bv32, fbit: nat, other: nat)
    requires fbit <= XDF_CDEV_BYPASS && other <= XDF_CDEV_BYPASS && other != fbit
    ensures !HasBit(flags & !Bit(fbit), fbit)
    ensures HasBit(flags & !Bit(fbit), other) == HasBit(flags, other)
  {
    DistinctBits(fbit, other);
    ClearFlagEffects(flags, Bit(fbit));
    ClearKeepsOther(flags, Bit(fbit), Bit(other));
  }

  /** Two different interface bits share no set bit. */
  lemma DistinctBits(a: nat, b: nat)
    requires a <= XDF_CDEV_BYPASS && b <= XDF_CDEV_BYPASS && a != b
    ensures Bit(a) & Bit(b) == 0
  {
    assert Bit(a) == [1, 2, 4, 8, 16, 32][a];
    assert Bit(b) == [1, 2, 4, 8, 16, 32][b];
  }

  lemma SetKeepsOther(flags: bv32, f: bv32, g: bv32)
    requires f & g == 0
    ensures (flags | f) & g == flags & g
  {
  }

  lemma ClearKeepsOther(flags: bv32, f: bv32, g: bv32)
    requires f & g == 0
    ensures (flags & !f) & g == flags & g
  {
  }
}

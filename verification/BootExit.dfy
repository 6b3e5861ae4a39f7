/**
 Leaving boot services: fetching the memory map (apps/mem.c), recording it in the device tree
 (apps/fdt.c), and the two-attempt exit protocol (apps/helper.c), against any firmware.
 */
module BootExit {
  import opened Word64
  import opened VirtMap
  import opened Firmware

  const EFI_MMAP_NR_SLACK_SLOTS: nat := 8

  // ----- the device tree's /chosen node as a property map

  /** A property of four or of eight bytes. */
  datatype Cell = Cell32(w: nat) | Cell64(d: u64)

  const MMAP_START := "linux,uefi-mmap-start"
  const MMAP_SIZE := "linux,uefi-mmap-size"
  const MMAP_DESC_SIZE := "linux,uefi-mmap-desc-size"
  const MMAP_DESC_VER := "linux,uefi-mmap-desc-ver"

  const MAP_PROPERTIES := {MMAP_START, MMAP_SIZE, MMAP_DESC_SIZE, MMAP_DESC_VER}

  type Properties = map<string, Cell>

  predicate Holds32(props: Properties, name: string, w: nat) {
    name in props && props[name] == Cell32(w)
  }

  predicate Holds64(props: Properties, name: string, d: u64) {
    name in props && props[name] == Cell64(d)
  }

  /** fdt_setprop_inplace succeeds exactly for a property that exists with the same length. */
  predicate Settable(props: Properties, name: string, value: Cell) {
    name in props && props[name].Cell32? == value.Cell32?
  }

  /** The memory-map properties all exist with the lengths their values have. */
  predicate Ready(props: Properties) {
    && MMAP_START in props && props[MMAP_START].Cell64?
    && MMAP_SIZE in props && props[MMAP_SIZE].Cell32?
    && MMAP_DESC_SIZE in props && props[MMAP_DESC_SIZE].Cell32?
    && MMAP_DESC_VER in props && props[MMAP_DESC_VER].Cell32?
  }

  /** The four recorded values; the size is cut to 32 bits. */
  function Recorded(props: Properties, start: u64, size: nat, descSize: nat, descVer: nat): Properties {
    props[MMAP_START := Cell64(start)][MMAP_SIZE := Cell32(size % 0x1_0000_0000)]
         [MMAP_DESC_SIZE := Cell32(descSize % 0x1_0000_0000)][MMAP_DESC_VER := Cell32(descVer % 0x1_0000_0000)]
  }

  /** The properties read back as the map's address, size and descriptor format. */
  predicate Records(props: Properties, start: u64, size: nat, descSize: nat, descVer: nat) {
    && Holds64(props, MMAP_START, start) && Holds32(props, MMAP_SIZE, size % 0x1_0000_0000)
    && Holds32(props, MMAP_DESC_SIZE, descSize % 0x1_0000_0000)
    && Holds32(props, MMAP_DESC_VER, descVer % 0x1_0000_0000)
  }

  const SYSTEM_TABLE := "linux,uefi-system-table"

  /** The properties that efi_exit_boot_services will fill in, with all bits set. */
  function Placeholders(props: Properties, systemTable: u64): Properties {
    props[SYSTEM_TABLE := Cell64(systemTable)]
         [MMAP_START := Cell64(UINT64_MAX)][MMAP_SIZE := Cell32(0xFFFF_FFFF)]
         [MMAP_DESC_SIZE := Cell32(0xFFFF_FFFF)][MMAP_DESC_VER := Cell32(0xFFFF_FFFF)]
  }

  const FDT_ERR_NOSPACE: int := 3

  /** fdt_set_fail. */
  function FailedFor(err: int): Status {
    if err == -FDT_ERR_NOSPACE then BufferTooSmall else LoadError
  }

  /** The recorded size is the size of the map exactly if that fits 32 bits. */
  lemma SizeRecorded(props: Properties, start: u64, size: nat, descSize: nat, descVer: nat)
    requires Records(props, start, size, descSize, descVer)
    ensures props[MMAP_SIZE].w == size <==> size < TWO32
  {
  }

  class DeviceTree {
    /** The properties of /chosen, if the node is there. */
    var hasChosen: bool
    var chosen: Properties
    /** What the calls of fdt_setprop returned. */
    ghost var errors: seq<int>

    method SetPropInplace(name: string, value: Cell) returns (err: int)
      modifies this`chosen
      ensures err == 0 <==> Settable(old(chosen), name, value)
      ensures chosen == if err == 0 then old(chosen)[name := value] else old(chosen)
    {
      if name !in chosen {
        return -1;
      }
      if chosen[name].Cell32? != value.Cell32? {
        return -3;
      }
      chosen := chosen[name := value];
      return 0;
    }

    /** fdt_setprop may fail, for want of space or else; then nothing changes. */
    method SetProp(name: string, value: Cell) returns (err: int)
      modifies this`chosen, this`errors
      ensures errors == old(errors) + [err]
      ensures chosen == if err == 0 then old(chosen)[name := value] else old(chosen)
    {
      err :| true;
      if err == 0 {
        chosen := chosen[name := value];
      }
      errors := errors + [err];
    }

    /** The last call of fdt_setprop since there were `n` returned `err`. */
    ghost predicate LastError(n: nat, err: int)
      reads this`errors
    {
      |errors| > n && errors[|errors| - 1] == err
    }

    /** The part of update_fdt behind the command line: the address of the system table, and a placeholder
        of all ones for each property of the memory map. No other property changes, even on failure. It
        fails with the first error of fdt_setprop. */
    method UpdateFdt(systemTable: u64) returns (status: Status)
      requires hasChosen
      modifies this`chosen, this`errors
      ensures exists err ::
        LastError(|old(errors)|, err)
        && status == if err == 0 then Success else if err == -3 then BufferTooSmall else LoadError
      ensures status == Success ==> chosen == Placeholders(old(chosen), systemTable) && Ready(chosen)
      ensures status == Success ==> Holds64(chosen, "linux,uefi-system-table", systemTable)
      ensures status == Success ==>
        && Holds64(chosen, "linux,uefi-mmap-start", 0xFFFF_FFFF_FFFF_FFFF)
        && Holds32(chosen, "linux,uefi-mmap-size", 0xFFFF_FFFF)
        && Holds32(chosen, "linux,uefi-mmap-desc-size", 0xFFFF_FFFF)
        && Holds32(chosen, "linux,uefi-mmap-desc-ver", 0xFFFF_FFFF)
      ensures chosen - MAP_PROPERTIES - {SYSTEM_TABLE} == old(chosen) - MAP_PROPERTIES - {SYSTEM_TABLE}
      ensures forall name | name in old(chosen) :: name in chosen
    {
      var e := SetProp(SYSTEM_TABLE, Cell64(systemTable));
      if e != 0 { assert LastError(|old(errors)|, e); return FailedFor(e); }
      e := SetProp(MMAP_START, Cell64(UINT64_MAX));
      if e != 0 { assert LastError(|old(errors)|, e); return FailedFor(e); }
      e := SetProp(MMAP_SIZE, Cell32(0xFFFF_FFFF));
      if e != 0 { assert LastError(|old(errors)|, e); return FailedFor(e); }
      e := SetProp(MMAP_DESC_SIZE, Cell32(0xFFFF_FFFF));
      if e != 0 { assert LastError(|old(errors)|, e); return FailedFor(e); }
      e := SetProp(MMAP_DESC_VER, Cell32(0xFFFF_FFFF));
      if e != 0 { assert LastError(|old(errors)|, e); return FailedFor(e); }
      assert LastError(|old(errors)|, 0);
      return Success;
    }

    /** Succeeds exactly where the placeholders are, and then records the map. */
    method UpdateMemmap(map_: BootMap) returns (status: Status)
      modifies this`chosen
      ensures status == Success <==> hasChosen && Ready(old(chosen))
      ensures status == Success ==>
        && chosen == Recorded(old(chosen), map_.start, map_.mapSize, map_.descSize, map_.descVer)
        && Records(chosen, map_.start, map_.mapSize, map_.descSize, map_.descVer)
      ensures Ready(old(chosen)) ==> Ready(chosen)
      ensures status != Success ==> status == LoadError
      ensures chosen - MAP_PROPERTIES == old(chosen) - MAP_PROPERTIES
    {
      if !hasChosen {
        return LoadError;
      }
      var err := SetPropInplace(MMAP_START, Cell64(map_.start));
      if err != 0 { return LoadError; }
      err := SetPropInplace(MMAP_SIZE, Cell32(map_.mapSize % 0x1_0000_0000));
      if err != 0 { return LoadError; }
      err := SetPropInplace(MMAP_DESC_SIZE, Cell32(map_.descSize % 0x1_0000_0000));
      if err != 0 { return LoadError; }
      err := SetPropInplace(MMAP_DESC_VER, Cell32(map_.descVer % 0x1_0000_0000));
      if err != 0 { return LoadError; }
      return Success;
    }
  }

  /** struct efi_boot_memmap; `start` is the address of its descriptors. */
  class BootMap {
    const start: u64
    const map_: array<Descriptor>
    var mapSize: u64
    var descSize: nat
    var descVer: nat
    var mapKey: nat
    var buffSize: u64

    constructor (start: u64, slots: nat, filler: Descriptor)
      ensures this.start == start && map_.Length == slots && fresh(map_)
    {
      this.start := start;
      this.map_ := new Descriptor[slots](_ => filler);
    }
  }

  /** struct exit_boot_struct. */
  class ExitBootPriv {
    const config: Config
    const runtimeMap: array<Descriptor>
    const tree: DeviceTree
    var bootMap: BootMap?
    var runtimeEntryCount: nat

    constructor (config: Config, runtimeMap: array<Descriptor>, tree: DeviceTree)
      ensures this.config == config && this.runtimeMap == runtimeMap && this.tree == tree
    {
      this.config, this.runtimeMap, this.tree := config, runtimeMap, tree;
    }
  }

  // ----- what a run looks like

  function ExitCount(t: seq<Event>): nat {
    if t == [] then 0 else ExitCount(t[..|t| - 1]) + if t[|t| - 1].Exit? then 1 else 0
  }

  /** `t[i]` is a GetMap that delivered key `key`, `t[i + 1]` the processing of that map. */
  predicate Delivered(t: seq<Event>, i: nat, key: nat) {
    && i + 1 < |t| && t[i].GetMap? && t[i].status == Success && t[i].key == key
    && t[i + 1] == Process(Success, key)
  }

  /** At most two exit attempts, each right after the map with its key was fetched and processed;
      from the first attempt on nothing else is called. */
  ghost predicate Protocol(t: seq<Event>) {
    && ExitCount(t) <= 2
    && (forall i | 0 <= i < |t| && t[i].Exit? :: i >= 2 && Delivered(t, i - 2, t[i].key))
    && (forall i, j | 0 <= i < j < |t| && t[i].Exit? :: t[j].GetMap? || t[j].Process? || t[j].Exit?)
  }

  /** The map buffer was too small only if the map grew by more than the slack since the probe. */
  ghost predicate RoomEnough(t: seq<Event>) {
    forall i | 0 < i < |t| && t[i].GetMap? && t[i].status == BufferTooSmall ::
      t[0].GetMap? && t[i].entries > t[0].entries + 8
  }

  /** How a run with an attempt to exit ends, in success or not: with the first attempt, unless it was refused for
      its key; else with a second one, or for want of a map for it. The last event has the status of the run. */
  ghost predicate Concluded(t: seq<Event>, status: Status) {
    && t != [] && (t[|t| - 1].Exit? || t[|t| - 1].GetMap?) && t[|t| - 1].status == status
    && (t[|t| - 1].GetMap? ==>
      status != Success && |t| >= 2 && t[|t| - 2].Exit? && t[|t| - 2].status == InvalidParameter)
    && (t[|t| - 1].Exit? && ExitCount(t) == 1 ==> status != InvalidParameter)
    && (t[|t| - 1].Exit? && ExitCount(t) != 1 ==>
      |t| >= 4 && t[|t| - 4].Exit? && t[|t| - 4].status == InvalidParameter)
  }

  /** The firmware answered a call with another status than success. */
  predicate Refusal(e: Event) {
    (e.GetMap? || e.Allocate? || e.Install? || e.Exit?) && e.status != Success
  }

  /** The probe with no room at all failed otherwise than by asking for room, or a later call was refused. */
  ghost predicate FirmwareRefused(t: seq<Event>) {
    && t != []
    && ((Refusal(t[0]) && t[0].status != BufferTooSmall) || exists i | 0 < i < |t| :: Refusal(t[i]))
  }

  lemma ProbeRefused(t: seq<Event>)
    requires |t| == 1 && t[0].GetMap? && t[0].status != Success && t[0].status != BufferTooSmall
    ensures FirmwareRefused(t)
  {
  }

  lemma StaysRefused(t: seq<Event>, e: Event)
    ensures FirmwareRefused(t) ==> FirmwareRefused(t + [e])
    ensures t != [] && Refusal(e) ==> FirmwareRefused(t + [e])
  {
    hide Refusal;
    var t' := t + [e];
    assert t'[|t|] == e && forall i | 0 <= i < |t| :: t'[i] == t[i];
    if FirmwareRefused(t) {
      if i :| 0 < i < |t| && Refusal(t[i]) {
        assert Refusal(t'[i]);
      }
    }
  }

  /** Every processing of a map succeeded. */
  ghost predicate NeverFails(t: seq<Event>) {
    forall i | 0 <= i < |t| && t[i].Process? :: t[i].status == Success
  }

  lemma {:induction false} NoExits(t: seq<Event>, i: nat)
    requires i < |t| && ExitCount(t) == 0
    ensures !t[i].Exit?
  {
    if i < |t| - 1 {
      NoExits(t[..|t| - 1], i);
    }
  }

  lemma ProtocolStep(t: seq<Event>, e: Event)
    requires Protocol(t)
    requires e.Exit? ==> |t| >= 2 && ExitCount(t) < 2 && Delivered(t, |t| - 2, e.key)
    requires e.GetMap? || e.Process? || e.Exit? || ExitCount(t) == 0
    ensures Protocol(t + [e])
    ensures ExitCount(t + [e]) == ExitCount(t) + if e.Exit? then 1 else 0
  {
    var t' := t + [e];
    assert t'[..|t|] == t;
    assert forall i | 0 <= i < |t| :: t'[i] == t[i];
    forall i | 0 <= i < |t'| && t'[i].Exit? ensures i >= 2 && Delivered(t', i - 2, t'[i].key) {
      if i < |t| {
        assert t[i].Exit?;
        assert Delivered(t, i - 2, t[i].key);
      }
    }
    forall i, j | 0 <= i < j < |t'| && t'[i].Exit? ensures t'[j].GetMap? || t'[j].Process? || t'[j].Exit? {
      if j == |t| && ExitCount(t) == 0 {
        NoExits(t, i);
      }
    }
  }

  lemma ProcessStep(t: seq<Event>, e: Event)
    ensures NeverFails(t + [e]) <==> NeverFails(t) && (e.Process? ==> e.status == Success)
  {
    var t' := t + [e];
    assert t'[|t|] == e && forall i | 0 <= i < |t| :: t'[i] == t[i];
  }

  lemma RoomStep(t: seq<Event>, e: Event)
    requires RoomEnough(t)
    requires t != [] && e.GetMap? && e.status == BufferTooSmall ==>
      t[0].GetMap? && e.entries > t[0].entries + EFI_MMAP_NR_SLACK_SLOTS
    ensures RoomEnough(t + [e])
  {
  }

  // ----- the calls

  /** The buffer holds the map with key `m.mapKey`. */
  ghost predicate Holds(fw: BootServices, m: BootMap)
    reads fw, m, m.map_
  {
    && m.descSize == fw.descSize && m.descVer == fw.descVer
    && m.mapKey < |fw.history|
    && var current := fw.history[m.mapKey];
    && m.mapSize == |current| * m.descSize && |current| <= m.map_.Length && m.map_[..|current|] == current
  }

  /** The buffer was sized for the probed map plus the slack. */
  ghost predicate Sized(fw: BootServices, m: BootMap)
    reads fw, m
  {
    && |fw.trace| > 0 && fw.trace[0].GetMap?
    && m.map_.Length == fw.trace[0].entries + EFI_MMAP_NR_SLACK_SLOTS
    && m.buffSize == m.map_.Length * fw.descSize
  }

  /** The last call delivered the map that the buffer holds. */
  ghost predicate JustFetched(fw: BootServices, m: BootMap)
    reads fw, m, m.map_
  {
    && Holds(fw, m) && |fw.trace| > 0
    && var last := fw.trace[|fw.trace| - 1]; last.GetMap? && last.status == Success && last.key == m.mapKey
  }

  /** GetMemoryMap into the whole buffer. */
  method Fetch(fw: BootServices, m: BootMap) returns (status: Status)
    requires fw.Valid() && !fw.exited && Sized(fw, m) && Protocol(fw.trace) && RoomEnough(fw.trace)
    modifies fw`history, fw`trace, m, m.map_
    ensures fw.Valid() && old(fw.history) <= fw.history && Sized(fw, m)
    ensures Protocol(fw.trace) && RoomEnough(fw.trace) && ExitCount(fw.trace) == ExitCount(old(fw.trace))
    ensures status == Success ==> JustFetched(fw, m)
    ensures var n := |old(fw.trace)|;
      |fw.trace| == n + 1 && fw.trace[..n] == old(fw.trace) && fw.trace[n].GetMap? && fw.trace[n].status == status
    ensures status != Success ==> FirmwareRefused(fw.trace)
    ensures NeverFails(fw.trace) == NeverFails(old(fw.trace)) && (status == Success ==> m.mapKey == fw.Key())
  {
    hide BootServices.Legal, Protocol, RoomEnough, ExitCount, Delivered, NeverFails, FirmwareRefused;
    ghost var t := fw.trace;
    m.mapSize := m.buffSize;
    status, m.mapSize, m.mapKey := fw.GetMemoryMap(m.mapSize, m.map_);
    m.descSize, m.descVer := fw.descSize, fw.descVer;
    ghost var e := fw.trace[|t|];
    if status == BufferTooSmall {
      LessRoom(m.map_.Length, e.entries, fw.descSize);
    }
    Logged(t, e);
  }

  /** efi_get_memory_map; with `install` the map is installed as a configuration table. */
  method EfiGetMemoryMap(fw: BootServices, install: bool, filler: Descriptor) returns (status: Status, result: BootMap?)
    requires fw.Valid() && !fw.attempted && !fw.exited && fw.trace == []
    modifies fw
    ensures fw.Valid() && !fw.attempted && !fw.exited && old(fw.history) <= fw.history
    ensures Protocol(fw.trace) && ExitCount(fw.trace) == 0 && RoomEnough(fw.trace) && NeverFails(fw.trace)
    ensures status == Success <==> result != null
    ensures result == null ==> fw.live == old(fw.live) && FirmwareRefused(fw.trace)
    ensures result != null ==>
      && fresh(result) && fresh(result.map_) && fw.live == old(fw.live) + 1
      && Sized(fw, result) && JustFetched(fw, result)
  {
    hide BootServices.Legal, Protocol, RoomEnough, ExitCount, Delivered, NeverFails, FirmwareRefused, Wrap, Holds,
         JustFetched;
    EmptyRun();
    result := null;
    ghost var t := fw.trace;
    var probed, probedKey;
    status, probed, probedKey := fw.GetMemoryMap(0, null);
    Logged(t, fw.trace[0]);
    if status != BufferTooSmall {
      ProbeRefused(fw.trace);
      status := LoadError;
      return;
    }
    var size := Wrap(probed + fw.descSize * EFI_MMAP_NR_SLACK_SLOTS);
    SlotsOf(fw.trace[0].entries, fw.descSize);
    t := fw.trace;
    status := fw.AllocatePool();
    Logged(t, Allocate(status));
    if status != Success {
      return;
    }
    var address: u64 :| true;
    var m := new BootMap(address, size / fw.descSize, filler);
    m.buffSize := size;
    if install {
      t := fw.trace;
      status := fw.InstallConfigurationTable();
      Logged(t, Install(status));
    }
    if status == Success {
      status := Fetch(fw, m);
      if status == Success {
        result := m;
        return;
      }
      if install {
        t := fw.trace;
        var uninstalled := fw.InstallConfigurationTable();
        Logged(t, Install(uninstalled));
      }
    }
    t := fw.trace;
    fw.FreePool();
    Logged(t, Free);
  }

  /** A fetched map: the buffer holds the map of its key, with the firmware's descriptor format, and has eight
      slots more than the first call of the run found descriptors. */
  lemma FetchedHolds(fw: BootServices, m: BootMap)
    requires JustFetched(fw, m) && Sized(fw, m)
    ensures m.mapKey < |fw.history| && m.descSize == fw.descSize && m.descVer == fw.descVer
    ensures var current := fw.history[m.mapKey];
      m.mapSize == |current| * fw.descSize && |current| <= m.map_.Length && m.map_[..|current|] == current
    ensures |fw.trace| > 0 && fw.trace[0].GetMap? && m.map_.Length == fw.trace[0].entries + 8
  {
  }

  /** What processing `current`, held by `m`, leaves behind: the map with its virtual addresses in
      place, the runtime entries behind each other if there is room for them, and the four properties. */
  ghost predicate Processed(fw: BootServices, m: BootMap, priv: ExitBootPriv, current: MemoryMap)
    reads m, m.map_, priv, priv.runtimeMap, priv.tree
  {
    && priv.bootMap == m && |current| <= m.map_.Length
    && m.map_[..|current|] == Assigned(priv.config, current)
    && priv.runtimeEntryCount == |RuntimeMap(priv.config, current)|
    && (priv.runtimeEntryCount <= priv.runtimeMap.Length ==>
      priv.runtimeMap[..priv.runtimeEntryCount] == RuntimeMap(priv.config, current))
    && Records(priv.tree.chosen, m.start, |current| * fw.descSize, fw.descSize, fw.descVer)
  }

  /** exit_boot_func, with its effect on the log of the run. */
  method ExitBootFunc(ghost fw: BootServices, m: BootMap, priv: ExitBootPriv) returns (status: Status)
    requires fw.Valid() && JustFetched(fw, m) && Protocol(fw.trace) && RoomEnough(fw.trace)
    requires m.map_ != priv.runtimeMap
    modifies fw`trace, m.map_, priv, priv.runtimeMap, priv.tree`chosen
    ensures fw.trace == old(fw.trace) + [Process(status, m.mapKey)]
    ensures Protocol(fw.trace) && RoomEnough(fw.trace) && ExitCount(fw.trace) == ExitCount(old(fw.trace))
    ensures status == Success <==> priv.tree.hasChosen && Ready(old(priv.tree.chosen))
    ensures Ready(old(priv.tree.chosen)) ==> Ready(priv.tree.chosen)
    ensures NeverFails(fw.trace) <==> NeverFails(old(fw.trace)) && status == Success
    ensures priv.tree.chosen - MAP_PROPERTIES == old(priv.tree.chosen) - MAP_PROPERTIES
    ensures m.mapKey < |fw.history|
    ensures status == Success ==> priv.bootMap == m && Processed(fw, m, priv, fw.history[m.mapKey])
    ensures status == Success ==> Delivered(fw.trace, |fw.trace| - 2, m.mapKey)
  {
    hide Protocol, RoomEnough, ExitCount, NeverFails, RuntimeMap, Assigned, BootServices.Legal, Settable, Recorded;
    ghost var current, t := fw.history[m.mapKey], fw.trace;
    EntriesOf(|current|, m.descSize);
    priv.bootMap := m;
    priv.runtimeEntryCount := GetVirtmap(priv.config, m.map_, m.mapSize / m.descSize, priv.runtimeMap);
    status := priv.tree.UpdateMemmap(m);
    fw.trace := fw.trace + [Process(status, m.mapKey)];
    Logged(t, Process(status, m.mapKey));
  }

  lemma EntriesOf(entries: nat, descSize: nat)
    requires descSize > 0
    ensures entries * descSize / descSize == entries
  {
    RemainderUnique(entries * descSize, descSize, entries, 0);
  }

  /** MAIN: efi_exit_boot_services keeps the protocol in every run. When it succeeds, the device tree,
      the map buffer and the runtime map describe the firmware's final map; when it fails without an
      attempt to exit, the buffer is freed. Without the placeholders there is no attempt, and with them no
      processing of a map fails. */
  method EfiExitBootServices(fw: BootServices, priv: ExitBootPriv, filler: Descriptor) returns (status: Status)
    requires fw.Valid() && !fw.attempted && !fw.exited && fw.trace == []
    modifies fw, priv, priv.runtimeMap, priv.tree`chosen
    ensures fw.Valid() && Protocol(fw.trace) && RoomEnough(fw.trace)
    ensures fw.exited <==> status == Success
    ensures status == Success ==>
      && priv.bootMap != null && priv.bootMap.mapKey == fw.Key()
      && Processed(fw, priv.bootMap, priv, fw.Current())
    ensures status == Success ==>
      && |fw.Current()| <= priv.bootMap.map_.Length
      && priv.bootMap.map_[..|fw.Current()|] == Assigned(priv.config, fw.Current())
      && priv.runtimeEntryCount == (if priv.config.novamap then 0 else TopBits(fw.Current()))
      && (priv.runtimeEntryCount <= priv.runtimeMap.Length ==>
        priv.runtimeMap[..priv.runtimeEntryCount] == RuntimeMap(priv.config, fw.Current()))
    ensures status == Success ==>
      && Holds64(priv.tree.chosen, "linux,uefi-mmap-start", priv.bootMap.start)
      && Holds32(priv.tree.chosen, "linux,uefi-mmap-size", |fw.Current()| * fw.descSize % 0x1_0000_0000)
      && Holds32(priv.tree.chosen, "linux,uefi-mmap-desc-size", fw.descSize)
      && Holds32(priv.tree.chosen, "linux,uefi-mmap-desc-ver", fw.descVer)
    ensures priv.tree.chosen - MAP_PROPERTIES == old(priv.tree.chosen) - MAP_PROPERTIES
    ensures fw.attempted ==> Concluded(fw.trace, status)
    ensures status != Success && priv.tree.hasChosen && Ready(old(priv.tree.chosen)) ==> FirmwareRefused(fw.trace)
    ensures !fw.attempted ==> fw.live == old(fw.live) && ExitCount(fw.trace) == 0
    ensures !(priv.tree.hasChosen && Ready(old(priv.tree.chosen))) ==> !fw.attempted
    ensures priv.tree.hasChosen && Ready(old(priv.tree.chosen)) ==> NeverFails(fw.trace)
  {
    hide Protocol, RoomEnough, ExitCount, NeverFails, FirmwareRefused, RuntimeMap, Assigned, TopBits, Processed, Holds,
         BootServices.Legal, Records, Ready, Delivered, Holds32, Holds64;
    var m;
    status, m := EfiGetMemoryMap(fw, true, filler);
    if status != Success {
      return;
    }
    status := ExitBootFunc(fw, m, priv);
    ghost var t := fw.trace;
    if status != Success {
      fw.FreePool();
      Logged(t, Free);
      return;
    }
    ghost var current := fw.history[m.mapKey];
    status := fw.ExitBootServices(m.mapKey);
    Logged(t, Exit(status, m.mapKey));
    assert fw.history[m.mapKey] == current && Processed(fw, m, priv, current);
    if status == InvalidParameter {
      status := Fetch(fw, m);
      if status != Success {
        return;
      }
      status := ExitBootFunc(fw, m, priv);
      if status != Success {
        return;
      }
      t, current := fw.trace, fw.history[m.mapKey];
      status := fw.ExitBootServices(m.mapKey);
      Logged(t, Exit(status, m.mapKey));
      assert fw.history[m.mapKey] == current && Processed(fw, m, priv, current);
    }
    if status == Success {
      ChosenDescribesMap(fw, m, priv, fw.Current());
      MapsDescribed(fw, m, priv, fw.Current());
    }
  }

  lemma ChosenDescribesMap(fw: BootServices, m: BootMap, priv: ExitBootPriv, current: MemoryMap)
    requires fw.Valid() && Processed(fw, m, priv, current)
    ensures Holds64(priv.tree.chosen, "linux,uefi-mmap-start", m.start)
    ensures Holds32(priv.tree.chosen, "linux,uefi-mmap-size", |current| * fw.descSize % 0x1_0000_0000)
    ensures Holds32(priv.tree.chosen, "linux,uefi-mmap-desc-size", fw.descSize)
    ensures Holds32(priv.tree.chosen, "linux,uefi-mmap-desc-ver", fw.descVer)
  {
    hide BootServices.Legal, Assigned, RuntimeMap, Holds32, Holds64;
  }

  lemma MapsDescribed(fw: BootServices, m: BootMap, priv: ExitBootPriv, current: MemoryMap)
    requires Processed(fw, m, priv, current)
    ensures |current| <= m.map_.Length && m.map_[..|current|] == Assigned(priv.config, current)
    ensures priv.runtimeEntryCount == if priv.config.novamap then 0 else TopBits(current)
    ensures priv.runtimeEntryCount <= priv.runtimeMap.Length ==>
      priv.runtimeMap[..priv.runtimeEntryCount] == RuntimeMap(priv.config, current)
  {
    hide Records, Assigned, RuntimeMap, TopBits;
    CopiedHaveBit(priv.config, current);
  }

  lemma {:induction false} ExitsCounted(t: seq<Event>, i: nat, j: nat, k: nat)
    requires i < j < k <= |t| && t[i].Exit? && t[j].Exit? && (k < |t| ==> t[k].Exit?)
    ensures ExitCount(t) >= if k < |t| then 3 else 2
  {
    if k < |t| - 1 {
      ExitsCounted(t[..|t| - 1], i, j, k);
    } else if k == |t| - 1 {
      ExitsCounted(t[..|t| - 1], i, j, |t| - 1);
    } else if j < |t| - 1 {
      ExitsCounted(t[..|t| - 1], i, j, |t| - 1);
    } else {
      SomeExit(t[..|t| - 1], i);
    }
  }

  lemma {:induction false} SomeExit(t: seq<Event>, i: nat)
    requires i < |t| && t[i].Exit?
    ensures ExitCount(t) >= 1
  {
    if i < |t| - 1 {
      SomeExit(t[..|t| - 1], i);
    }
  }

  /** MAIN: a run that keeps the protocol never tries to exit three times; two calls before an attempt the map with
      its key was delivered, and right before it that map was processed; and behind an attempt nothing else is
      called. */
  lemma ProtocolMeans(t: seq<Event>, i: nat)
    requires Protocol(t) && i < |t| && t[i].Exit?
    ensures i >= 2 && t[i - 1] == Process(Success, t[i].key)
    ensures t[i - 2].GetMap? && t[i - 2].status == Success && t[i - 2].key == t[i].key
    ensures forall j | i < j < |t| :: t[j].GetMap? || t[j].Process? || t[j].Exit?
    ensures forall j, k | i < j < k < |t| :: !(t[j].Exit? && t[k].Exit?)
  {
    assert Delivered(t, i - 2, t[i].key);
    forall j, k | i < j < k < |t| ensures !(t[j].Exit? && t[k].Exit?) {
      if t[j].Exit? && t[k].Exit? {
        ExitsCounted(t, i, j, k);
        assert false;
      }
    }
  }

  lemma EmptyRun()
    ensures Protocol([]) && RoomEnough([]) && ExitCount([]) == 0 && NeverFails([])
  {
  }

  /** One more event keeps what holds of a run. */
  lemma Logged(t: seq<Event>, e: Event)
    requires Protocol(t) && RoomEnough(t)
    requires e.Exit? ==> |t| >= 2 && ExitCount(t) < 2 && Delivered(t, |t| - 2, e.key)
    requires e.GetMap? || e.Process? || e.Exit? || ExitCount(t) == 0
    requires t != [] && e.GetMap? && e.status == BufferTooSmall ==>
      t[0].GetMap? && e.entries > t[0].entries + EFI_MMAP_NR_SLACK_SLOTS
    ensures Protocol(t + [e]) && RoomEnough(t + [e])
    ensures ExitCount(t + [e]) == ExitCount(t) + if e.Exit? then 1 else 0
    ensures NeverFails(t + [e]) <==> NeverFails(t) && (e.Process? ==> e.status == Success)
    ensures FirmwareRefused(t) || (t != [] && Refusal(e)) ==> FirmwareRefused(t + [e])
  {
    hide *;
    StaysRefused(t, e);
    ProtocolStep(t, e);
    RoomStep(t, e);
    ProcessStep(t, e);
  }

  lemma SlotsOf(entries: nat, descSize: nat)
    requires 0 < descSize <= 0x1_0000 && entries * descSize <= 0x4000_0000_0000_0000
    ensures var slots := entries + 8;
      var size := Wrap(entries * descSize + descSize * EFI_MMAP_NR_SLACK_SLOTS);
      size == slots * descSize && size / descSize == slots
  {
    var slots := entries + EFI_MMAP_NR_SLACK_SLOTS;
    assert slots * descSize == entries * descSize + descSize * EFI_MMAP_NR_SLACK_SLOTS;
    RemainderUnique(slots * descSize, descSize, slots, 0);
  }

  lemma LessRoom(slots: nat, entries: nat, descSize: nat)
    requires descSize > 0 && entries * descSize > slots * descSize
    ensures entries > slots
  {
    if entries <= slots {
      Scaled(entries, slots, descSize);
    }
  }

  lemma Scaled(x: nat, y: nat, d: nat)
    requires x <= y
    ensures x * d <= y * d
  {
    assert (y - x) * d == y * d - x * d;
  }
}

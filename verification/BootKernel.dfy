/**
 The way to the exit from boot services (apps/fdt.c, apps/stub.c): the buffer for the runtime map, the
 placeholders in the device tree, and the exit itself.
 */
module BootKernel {
  import opened Word64
  import opened VirtMap
  import opened Firmware
  import opened BootExit

  /** The last call was refused; a probe, otherwise than by asking for room. */
  ghost predicate JustRefused(t: seq<Event>) {
    t != [] && Refusal(t[|t| - 1]) && (t[|t| - 1].GetMap? ==> t[|t| - 1].status != BufferTooSmall)
  }

  /** efi_alloc_virtmap: room for as many descriptors as the memory map has now, `probed`. */
  method EfiAllocVirtmap(fw: BootServices, filler: Descriptor)
    returns (status: Status, virtmap: array?<Descriptor>, ghost probed: MemoryMap)
    requires fw.Valid() && !fw.attempted && !fw.exited
    modifies fw`history, fw`trace, fw`live
    ensures fw.Valid() && old(fw.history) <= fw.history
    ensures status == Success <==> virtmap != null
    ensures status != Success ==> JustRefused(fw.trace)
    ensures virtmap != null ==> fresh(virtmap) && probed in fw.history && virtmap.Length == |probed|
    ensures fw.live == old(fw.live) + if status == Success then 1 else 0
  {
    hide BootServices.Legal;
    virtmap := null;
    var size, key;
    status, size, key := fw.GetMemoryMap(0, null);
    probed := fw.Current();
    if status != BufferTooSmall {
      status := LoadError;
      return;
    }
    status := fw.AllocatePool();
    if status == Success {
      EntriesOf(|probed|, fw.descSize);
      virtmap := new Descriptor[size / fw.descSize](_ => filler);
    }
  }

  /** MAIN: the buffer sized by one map has room for the runtime map of a later one exactly if nothing is to
      be copied or the later map has no more runtime regions than the first has entries. */
  lemma RoomExactly(c: Config, probed: MemoryMap, final: MemoryMap)
    ensures |RuntimeMap(c, final)| <= |probed| <==> c.novamap || TopBits(final) <= |probed|
  {
    hide RuntimeMap, TopBits;
    CopiedHaveBit(c, final);
  }

  /** MAIN: allocate_new_fdt_and_exit_boot up to the exit. On success the device tree leads the kernel to the
      system table and to the firmware's final map, memory map and runtime map describe that map, and the
      runtime map is complete exactly if the buffer had room. No other property changes in any case. It fails
      only where the firmware or fdt_setprop does. */
  method PrepareAndExit(fw: BootServices, config: Config, tree: DeviceTree, systemTable: u64, filler: Descriptor)
    returns (status: Status, priv: ExitBootPriv?, ghost probed: MemoryMap)
    requires fw.Valid() && !fw.attempted && !fw.exited && tree.hasChosen
    modifies fw, tree`chosen, tree`errors
    ensures fw.Valid() && (priv == null ==> !fw.attempted)
    ensures priv != null ==> Protocol(fw.trace) && RoomEnough(fw.trace) && NeverFails(fw.trace)
    ensures fw.exited <==> status == Success
    ensures status != Success ==>
      if priv != null then FirmwareRefused(fw.trace)
      else JustRefused(fw.trace) || exists err :: err != 0 && tree.LastError(|old(tree.errors)|, err)
    ensures fw.attempted ==> Concluded(fw.trace, status)
    ensures status == Success ==>
      && priv != null && priv.bootMap != null && priv.tree == tree && priv.config == config
      && Processed(fw, priv.bootMap, priv, fw.Current())
      && (priv.runtimeEntryCount <= priv.runtimeMap.Length
        <==> config.novamap || TopBits(fw.Current()) <= |probed|)
    ensures status == Success ==>
      && |fw.Current()| <= priv.bootMap.map_.Length
      && priv.bootMap.map_[..|fw.Current()|] == Assigned(config, fw.Current())
      && priv.runtimeEntryCount == (if config.novamap then 0 else TopBits(fw.Current()))
      && (priv.runtimeEntryCount <= priv.runtimeMap.Length ==>
        priv.runtimeMap[..priv.runtimeEntryCount] == RuntimeMap(config, fw.Current()))
    ensures status == Success ==>
      && Holds64(tree.chosen, "linux,uefi-system-table", systemTable)
      && Holds64(tree.chosen, "linux,uefi-mmap-start", priv.bootMap.start)
      && Holds32(tree.chosen, "linux,uefi-mmap-size", |fw.Current()| * fw.descSize % 0x1_0000_0000)
      && Holds32(tree.chosen, "linux,uefi-mmap-desc-size", fw.descSize)
      && Holds32(tree.chosen, "linux,uefi-mmap-desc-ver", fw.descVer)
    ensures tree.chosen - MAP_PROPERTIES - {SYSTEM_TABLE} == old(tree.chosen) - MAP_PROPERTIES - {SYSTEM_TABLE}
  {
    hide Protocol, RoomEnough, NeverFails, Concluded, FirmwareRefused, Processed, RuntimeMap, TopBits,
         BootServices.Legal, Ready, Placeholders, Holds32, Holds64, MAP_PROPERTIES;
    priv, probed := null, [];
    var runtimeMap := new Descriptor[0](_ => filler);
    if !config.novamap {
      var virtmap;
      status, virtmap, probed := EfiAllocVirtmap(fw, filler);
      if virtmap == null {
        return;
      }
      runtimeMap := virtmap;
    }
    status := tree.UpdateFdt(systemTable);
    if status != Success {
      return;
    }
    priv := new ExitBootPriv(config, runtimeMap, tree);
    fw.trace := [];
    ghost var prepared := tree.chosen;
    status := EfiExitBootServices(fw, priv, filler);
    if status == Success {
      OutsideMap(prepared, tree.chosen, systemTable);
      ProcessedCount(fw, priv.bootMap, priv, fw.Current());
      RoomExactly(config, probed, fw.Current());
      NothingCopied(config, fw.Current());
    }
  }

  lemma OutsideMap(before: Properties, after: Properties, systemTable: u64)
    requires Holds64(before, "linux,uefi-system-table", systemTable)
    requires after - MAP_PROPERTIES == before - MAP_PROPERTIES
    ensures Holds64(after, "linux,uefi-system-table", systemTable)
  {
    assert "linux,uefi-system-table" in before - MAP_PROPERTIES;
    assert (after - MAP_PROPERTIES)["linux,uefi-system-table"] == Cell64(systemTable);
  }

  lemma ProcessedCount(fw: BootServices, m: BootMap, priv: ExitBootPriv, current: MemoryMap)
    requires Processed(fw, m, priv, current)
    ensures priv.runtimeEntryCount == |RuntimeMap(priv.config, current)|
  {
  }

  lemma NothingCopied(c: Config, ds: MemoryMap)
    ensures c.novamap ==> RuntimeMap(c, ds) == []
  {
  }
}

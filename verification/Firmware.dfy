/**
 The boot services that leaving the firmware needs, as far as their callers may rely on them
 (sections 7.2 and 7.4 of the UEFI Specification). Everything else is left to chance: the memory map may
 change before any call, and any call may fail.
 */
module Firmware {
  import opened Word64
  import opened VirtMap

  datatype Status = Success | InvalidParameter | BufferTooSmall | LoadError | OtherError(code: nat)

  type MemoryMap = seq<Descriptor>

  /** What is observed of a run. `GetMap` records the length of the map and the room offered for it. */
  datatype Event =
    | GetMap(status: Status, key: nat, entries: nat, room: nat)
    | Allocate(status: Status)
    | Install(status: Status)
    | Free
    | Process(status: Status, key: nat)
    | Exit(status: Status, key: nat)

  class BootServices {
    const descSize: nat
    const descVer: nat
    /** Every memory map so far; a map's position is its key, the last one is current. */
    var history: seq<MemoryMap>
    var attempted: bool
    var exited: bool
    /** Pool buffers of the caller. */
    var live: nat
    ghost var trace: seq<Event>

    predicate Legal(m: MemoryMap) {
      |m| > 0 && |m| * descSize <= 0x4000_0000_0000_0000
    }

    predicate Valid()
      reads this
    {
      && 0 < descSize <= 0x1_0000 && descVer < TWO32
      && history != [] && (forall m | m in history :: Legal(m))
    }

    function Current(): MemoryMap
      requires history != []
      reads this
    {
      history[|history| - 1]
    }

    function Key(): nat
      requires history != []
      reads this
    {
      |history| - 1
    }

    /** Timers and other handlers run: any number of changes to the memory map, each with a new key. */
    method Interrupts()
      requires Valid() && !exited
      modifies `history
      ensures Valid() && old(history) <= history
    {
      hide Legal;
      var changes: seq<MemoryMap> :| true;
      if forall m | m in changes :: Legal(m) {
        history := history + changes;
      }
    }

    /** GetMemoryMap with `room` bytes at `buffer`; the needed size comes back in any case but failure. */
    method GetMemoryMap(room: nat, buffer: array?<Descriptor>) returns (status: Status, size: u64, key: nat)
      requires Valid() && !exited
      requires if buffer == null then room == 0 else room <= buffer.Length * descSize
      modifies `history, `trace, buffer
      ensures Valid() && old(history) <= history
      ensures trace == old(trace) + [GetMap(status, key, |Current()|, room)]
      ensures size == |Current()| * descSize <= 0x4000_0000_0000_0000
      ensures status == BufferTooSmall ==> size > room
      ensures status == Success ==>
        && key == Key() && size <= room
        && buffer != null && |Current()| <= buffer.Length && buffer[..|Current()|] == Current()
    {
      Interrupts();
      var current := Current();
      assert Legal(current);
      Positive(|current|, descSize);
      size, key := |current| * descSize, Key();
      var failure: Status :| true;
      if failure.Success? {
        status := if room < size then BufferTooSmall else Success;
      } else {
        status := if failure == BufferTooSmall then LoadError else failure;
      }
      if status == Success {
        Cancel(|current|, buffer.Length, descSize);
        forall i | 0 <= i < |current| {
          buffer[i] := current[i];
        }
      }
      trace := trace + [GetMap(status, key, |current|, room)];
    }

    method AllocatePool() returns (status: Status)
      requires Valid() && !attempted && !exited
      modifies `history, `trace, `live
      ensures Valid() && old(history) <= history
      ensures trace == old(trace) + [Allocate(status)]
      ensures live == old(live) + if status == Success then 1 else 0
    {
      Interrupts();
      status :| true;
      if status == Success {
        live := live + 1;
      }
      trace := trace + [Allocate(status)];
    }

    method FreePool()
      requires Valid() && !attempted && !exited && live > 0
      modifies `history, `trace, `live
      ensures Valid() && old(history) <= history
      ensures trace == old(trace) + [Free] && live == old(live) - 1
    {
      Interrupts();
      live := live - 1;
      trace := trace + [Free];
    }

    method InstallConfigurationTable() returns (status: Status)
      requires Valid() && !attempted && !exited
      modifies `history, `trace
      ensures Valid() && old(history) <= history
      ensures trace == old(trace) + [Install(status)]
    {
      Interrupts();
      status :| true;
      trace := trace + [Install(status)];
    }

    /** ExitBootServices succeeds only with the key of the current map; a stale key is refused. */
    method ExitBootServices(key: nat) returns (status: Status)
      requires Valid() && !exited
      modifies `history, `trace, `attempted, `exited
      ensures Valid() && old(history) <= history && attempted
      ensures trace == old(trace) + [Exit(status, key)]
      ensures exited <==> status == Success
      ensures status == Success ==> key == Key()
      ensures key != Key() ==> status == InvalidParameter
    {
      Interrupts();
      status :| true;
      if key != Key() {
        status := InvalidParameter;
      }
      attempted, exited := true, status == Success;
      trace := trace + [Exit(status, key)];
    }
  }

  lemma Positive(x: nat, d: nat)
    requires x > 0 && d > 0
    ensures x * d > 0
  {
  }

  lemma Cancel(x: nat, y: nat, d: nat)
    requires d > 0 && x * d <= y * d
    ensures x <= y
  {
    if x > y {
      assert (x - y) * d == x * d - y * d;
      MultipleBounds(x - y, d);
    }
  }
}

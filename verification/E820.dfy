/**
  The E820 conversion of efi/efimm.c as the code performs it: a bounded table
  filled in place, with the write-only statics of `add_memory_region`, and its
  enumeration by continuation values.
 */
module E820 {
  import opened Wrappers
  import opened E820Spec

  class Table {
    const map_: array<Entry>     // e820_map; its length is E820_MAX
    var nr: nat
    // function statics of add_memory_region, kept between calls
    var estart: nat
    var esize: nat
    var etype: Option<Kind>
    var merge: int

    ghost predicate Valid()
      reads this
    {
      nr <= map_.Length
    }

    ghost function Entries(): seq<Entry>
      requires Valid()
      reads this, map_
    {
      map_[..nr]
    }

    constructor (capacity: nat)
      ensures Valid() && Entries() == [] && map_.Length == capacity && fresh(map_)
    {
      map_ := new Entry[capacity](_ => Entry(0, 0, Ram));
      nr, estart, esize, etype, merge := 0, 0, 0, None, 0;
    }

    /** `add_memory_region`: what happens to the table does not depend on the statics. */
    method AddMemoryRegion(start: nat, size: nat, kind: Kind)
      requires Valid()
      modifies this, map_
      ensures Valid() && Entries() == Add(old(Entries()), Entry(start, size, kind), map_.Length)
    {
      var x := nr;
      if x > 0 && (map_[x - 1].addr + map_[x - 1].size) % U64 == start && map_[x - 1].kind == kind {
        map_[x - 1] := map_[x - 1].(size := (map_[x - 1].size + size) % U64);
        estart, esize, etype := map_[x - 1].addr, map_[x - 1].size, Some(map_[x - 1].kind);
        merge := merge + 1;
        return;
      }
      if x < map_.Length {
        map_[x] := Entry(start, size, kind);
        nr := nr + 1;
        merge := 0;
        return;
      }
      if etype != Some(kind) || (estart + esize) % U64 != start {
        merge := 0;
        estart, esize, etype := start, size, Some(kind);
        return;
      }
      estart := (estart + esize) % U64;
      esize := (esize + size) % U64;
      merge := merge + 1;
    }

    /** Adds a region behind the regions `done` that were added before. */
    method AddNext(start: nat, size: nat, kind: Kind, ghost done: seq<Entry>)
      requires Valid() && Entries() == Build(done, map_.Length)
      modifies this, map_
      ensures Valid() && Entries() == Build(done + [Entry(start, size, kind)], map_.Length)
    {
      BuildOneMore(done, Entry(start, size, kind), map_.Length);
      AddMemoryRegion(start, size, kind);
    }

    /** One descriptor of `e820_map_from_efi_map`. */
    method AddDescriptor(d: Descriptor, ghost done: seq<Entry>)
      requires Valid() && Entries() == Build(done, map_.Length)
      modifies this, map_
      ensures Valid() && Entries() == Build(done + Regions(d), map_.Length)
    {
      hide Build;
      assert done + [] == done;
      var size := d.pages * PAGE % U64;
      if d.efiType.AcpiReclaimMemory? {
        AddNext(d.start, size, Acpi, done);
      } else if d.efiType.AcpiMemoryNvs? {
        AddNext(d.start, size, Nvs, done);
      } else if IsReserved(d.efiType) {
        AddNext(d.start, size, Reserved, done);
      } else if IsRam(d.efiType) {
        AddRam(d.start, size, done);
      }
    }

    /** RAM is added around the 640K-1M hole. */
    method AddRam(first: nat, length: nat, ghost done: seq<Entry>)
      requires Valid() && Entries() == Build(done, map_.Length)
      modifies this, map_
      ensures Valid() && Entries() == Build(done + RamRegions(first, length), map_.Length)
    {
      hide Build;
      ghost var low := done;
      var start, size := first, length;
      var end := (start + size) % U64;
      if start < HIGH_START && end > LOW_END {
        if start < LOW_END {
          AddNext(start, LOW_END - start, Ram, done);
          low := done + [Entry(start, LOW_END - start, Ram)];
        }
        if end <= HIGH_START {
          assert low == done + RamRegions(first, length);
          return;
        }
        start := HIGH_START;
        size := end - start;
      }
      AddNext(start, size, Ram, low);
      assert low + [Entry(start, size, Ram)] == done + RamRegions(first, length);
    }

    /** `e820_map_from_efi_map`. */
    method FromEfiMap(ds: seq<Descriptor>)
      requires Valid()
      modifies this, map_
      ensures Valid() && Entries() == Convert(ds, map_.Length)
    {
      nr := 0;
      for i := 0 to |ds|
        invariant Valid() && Entries() == Build(AllRegions(ds[..i]), map_.Length)
      {
        assert ds[..i + 1][..i] == ds[..i];
        AddDescriptor(ds[i], AllRegions(ds[..i]));
      }
      assert ds[..|ds|] == ds;
    }

    /** `get_mmap_entry`: the entry at a continuation value, and the next such value or 0. */
    method GetMmapEntry(cont: int) returns (desc: Option<Entry>, next: int)
      requires Valid()
      ensures desc == if 0 <= cont < nr then Some(Entries()[cont]) else None
      ensures next == if 0 <= cont < nr - 1 then cont + 1 else 0
    {
      if cont < 0 || cont >= nr {
        return None, 0;
      }
      desc := Some(map_[cont]);
      next := if cont + 1 < nr then cont + 1 else 0;
    }

    /** Following the continuation values from 0 until 0 comes back yields every entry once, in order. */
    method Enumerate() returns (found: seq<Entry>)
      requires Valid()
      ensures found == Entries()
    {
      found := [];
      var cont := 0;
      while true
        invariant 0 <= cont <= nr && (cont < nr || nr == 0) && found == map_[..cont]
        decreases nr - cont
      {
        var desc, next := GetMmapEntry(cont);
        if desc.None? {
          return;
        }
        found := found + [desc.value];
        if next == 0 {
          return;
        }
        cont := next;
      }
    }
  }

  /** The firmware's map, converted and enumerated again: the operating system is told of no memory it was
      not granted, and of all of it when the merged regions fit the table. */
  method TellMemory(ds: seq<Descriptor>, table: Table) returns (found: seq<Entry>)
    requires table.Valid() && forall i :: 0 <= i < |ds| ==> Fits(ds[i])
    modifies table, table.map_
    ensures forall a: nat, k :: Covers(found, a, k) ==> Granted(ds, a, k)
    ensures |Merged(AllRegions(ds))| <= table.map_.Length ==>
              forall a: nat, k :: Granted(ds, a, k) ==> Covers(found, a, k)
  {
    table.FromEfiMap(ds);
    found := table.Enumerate();
    forall a: nat, k: Kind
      ensures Covers(found, a, k) ==> Granted(ds, a, k)
      ensures |Merged(AllRegions(ds))| <= table.map_.Length && Granted(ds, a, k) ==> Covers(found, a, k)
    {
      TableMeansMap(ds, table.map_.Length, a, k);
    }
  }
}

/**
  What the E820 conversion of efi/efimm.c is for: which addresses the EFI
  memory map hands to the operating system as which kind of memory, and how a
  list of regions is merged into a bounded table.
 */
module E820Spec {
  import opened Wrappers

  const U64: nat := 0x1_0000_0000_0000_0000
  const PAGE: nat := 4096
  const LOW_END: nat := 0xA0000
  const HIGH_START: nat := 0x100000

  datatype Kind = Ram | Reserved | Acpi | Nvs

  datatype Entry = Entry(addr: nat, size: nat, kind: Kind)

  /** GRUB_EFI memory types; the conversion ignores any other number. */
  datatype EfiType =
    | ReservedMemoryType | LoaderCode | LoaderData | BootServicesCode | BootServicesData
    | RuntimeServicesCode | RuntimeServicesData | ConventionalMemory | UnusableMemory | AcpiReclaimMemory
    | AcpiMemoryNvs | MemoryMappedIo | MemoryMappedIoPortSpace | PalCode | UnknownType

  datatype Descriptor = Descriptor(efiType: EfiType, start: nat, pages: nat)

  /** RAM for the operating system once boot services are gone. */
  predicate IsRam(t: EfiType) {
    t.LoaderCode? || t.LoaderData? || t.BootServicesCode? || t.BootServicesData? || t.ConventionalMemory?
  }

  predicate IsReserved(t: EfiType) {
    || t.RuntimeServicesCode? || t.RuntimeServicesData? || t.ReservedMemoryType? || t.MemoryMappedIo?
    || t.MemoryMappedIoPortSpace? || t.UnusableMemory? || t.PalCode?
  }

  // ----- meaning of descriptors and of tables

  /** The descriptor lies below the top of the 64-bit address space. */
  ghost predicate Fits(d: Descriptor) {
    d.start + d.pages * PAGE < U64
  }

  ghost predicate Spans(d: Descriptor, a: nat) {
    d.start <= a < d.start + d.pages * 4096
  }

  /** What memory of each type is for the operating system. */
  function KindOf(t: EfiType): Option<Kind> {
    match t
    case ReservedMemoryType => Some(Reserved)
    case LoaderCode => Some(Ram)
    case LoaderData => Some(Ram)
    case BootServicesCode => Some(Ram)
    case BootServicesData => Some(Ram)
    case RuntimeServicesCode => Some(Reserved)
    case RuntimeServicesData => Some(Reserved)
    case ConventionalMemory => Some(Ram)
    case UnusableMemory => Some(Reserved)
    case AcpiReclaimMemory => Some(Acpi)
    case AcpiMemoryNvs => Some(Nvs)
    case MemoryMappedIo => Some(Reserved)
    case MemoryMappedIoPortSpace => Some(Reserved)
    case PalCode => Some(Reserved)
    case UnknownType => None
  }

  /** `d` makes address `a` memory of kind `k`; RAM never includes the 640K-1M hole. */
  ghost predicate Grants(d: Descriptor, a: nat, k: Kind) {
    Spans(d, a) && KindOf(d.efiType) == Some(k) && !(k.Ram? && 0xA0000 <= a < 0x100000)
  }

  ghost predicate Holds(e: Entry, a: nat, k: Kind) {
    e.addr <= a < e.addr + e.size && e.kind == k
  }

  ghost predicate Covers(m: seq<Entry>, a: nat, k: Kind) {
    exists i :: 0 <= i < |m| && Holds(m[i], a, k)
  }

  // ----- the regions of a descriptor

  /** The regions of a RAM descriptor, around the 640K-1M hole. */
  function RamRegions(start: nat, size: nat): seq<Entry> {
    var end := (start + size) % U64;
    if start < HIGH_START && end > LOW_END then
      (if start < LOW_END then [Entry(start, LOW_END - start, Ram)] else [])
      + (if end <= HIGH_START then [] else [Entry(HIGH_START, end - HIGH_START, Ram)])
    else [Entry(start, size, Ram)]
  }

  /** The regions `e820_map_from_efi_map` adds for one descriptor, in 64-bit arithmetic. */
  function Regions(d: Descriptor): seq<Entry> {
    var size := d.pages * PAGE % U64;
    if d.efiType.AcpiReclaimMemory? then [Entry(d.start, size, Acpi)]
    else if d.efiType.AcpiMemoryNvs? then [Entry(d.start, size, Nvs)]
    else if IsReserved(d.efiType) then [Entry(d.start, size, Reserved)]
    else if IsRam(d.efiType) then RamRegions(d.start, size)
    else []
  }

  function AllRegions(ds: seq<Descriptor>): seq<Entry> {
    if ds == [] then [] else AllRegions(ds[..|ds| - 1]) + Regions(ds[|ds| - 1])
  }

  // ----- merging into a table

  /** `e` continues the last entry of `m`: same kind, no gap. */
  predicate Continues(m: seq<Entry>, e: Entry) {
    m != [] && var last := m[|m| - 1]; (last.addr + last.size) % U64 == e.addr && last.kind == e.kind
  }

  function Extend(m: seq<Entry>, e: Entry): seq<Entry>
    requires m != []
  {
    var n := |m| - 1;
    m[n := m[n].(size := (m[n].size + e.size) % U64)]
  }

  /** A region joins the last entry or becomes a new one, as long as there is room. */
  function Add(m: seq<Entry>, e: Entry, capacity: nat): seq<Entry> {
    if Continues(m, e) then Extend(m, e) else if |m| < capacity then m + [e] else m
  }

  function Build(rs: seq<Entry>, capacity: nat): seq<Entry> {
    if rs == [] then [] else Add(Build(rs[..|rs| - 1], capacity), rs[|rs| - 1], capacity)
  }

  function Join(m: seq<Entry>, e: Entry): seq<Entry> {
    if Continues(m, e) then Extend(m, e) else m + [e]
  }

  /** Merging without any limit on the table. */
  function Merged(rs: seq<Entry>): (m: seq<Entry>)
    ensures |m| <= |rs|
  {
    if rs == [] then [] else Join(Merged(rs[..|rs| - 1]), rs[|rs| - 1])
  }

  function Convert(ds: seq<Descriptor>, capacity: nat): seq<Entry> {
    Build(AllRegions(ds), capacity)
  }

  lemma BuildOneMore(rs: seq<Entry>, e: Entry, capacity: nat)
    ensures Build(rs + [e], capacity) == Add(Build(rs, capacity), e, capacity)
  {
    assert (rs + [e])[..|rs|] == rs;
  }

  // ----- descriptors and their regions mean the same

  ghost predicate EntryFits(e: Entry) {
    e.addr + e.size < U64
  }

  ghost predicate AllFit(m: seq<Entry>) {
    forall i :: 0 <= i < |m| ==> EntryFits(m[i])
  }

  lemma RegionsMean(d: Descriptor, a: nat, k: Kind)
    requires Fits(d)
    ensures AllFit(Regions(d))
    ensures Covers(Regions(d), a, k) <==> Grants(d, a, k)
  {
    var rs := Regions(d);
    assert d.pages * PAGE % U64 == d.pages * PAGE;
    if Grants(d, a, k) {
      if |rs| == 1 {
        assert Holds(rs[0], a, k);
      } else if |rs| == 2 {
        assert Holds(rs[0], a, k) || Holds(rs[1], a, k);
      }
    }
  }

  lemma CoversConcat(m: seq<Entry>, m': seq<Entry>, a: nat, k: Kind)
    ensures Covers(m + m', a, k) <==> Covers(m, a, k) || Covers(m', a, k)
  {
    if Covers(m, a, k) {
      var i :| 0 <= i < |m| && Holds(m[i], a, k);
      assert (m + m')[i] == m[i];
    }
    if Covers(m', a, k) {
      var i :| 0 <= i < |m'| && Holds(m'[i], a, k);
      assert (m + m')[|m| + i] == m'[i];
    }
    if Covers(m + m', a, k) {
      var i :| 0 <= i < |m + m'| && Holds((m + m')[i], a, k);
      assert if i < |m| then (m + m')[i] == m[i] else (m + m')[i] == m'[i - |m|];
    }
  }

  ghost predicate Granted(ds: seq<Descriptor>, a: nat, k: Kind) {
    exists i :: 0 <= i < |ds| && Grants(ds[i], a, k)
  }

  lemma {:induction false} AllRegionsMean(ds: seq<Descriptor>, a: nat, k: Kind)
    requires forall i :: 0 <= i < |ds| ==> Fits(ds[i])
    ensures AllFit(AllRegions(ds))
    ensures Covers(AllRegions(ds), a, k) <==> Granted(ds, a, k)
  {
    hide Grants, Granted, Covers, Regions, Fits;
    if ds == [] {
      NothingGranted(a, k);
    } else {
      var n := |ds| - 1;
      AllRegionsMean(ds[..n], a, k);
      RegionsMean(ds[n], a, k);
      CoversConcat(AllRegions(ds[..n]), Regions(ds[n]), a, k);
      GrantedConcat(ds, a, k);
    }
  }

  lemma NothingGranted(a: nat, k: Kind)
    ensures !Granted([], a, k) && !Covers([], a, k)
  {
  }

  lemma GrantedConcat(ds: seq<Descriptor>, a: nat, k: Kind)
    requires ds != []
    ensures Granted(ds, a, k) <==> Granted(ds[..|ds| - 1], a, k) || Grants(ds[|ds| - 1], a, k)
  {
    hide Grants;
    var n := |ds| - 1;
    var front := ds[..n];
    if Granted(front, a, k) {
      var i :| 0 <= i < |front| && Grants(front[i], a, k);
      assert Grants(ds[i], a, k);
    }
    if Granted(ds, a, k) {
      var i :| 0 <= i < |ds| && Grants(ds[i], a, k);
      assert i < n ==> Grants(front[i], a, k);
    }
  }

  // ----- merging keeps the meaning

  /** Extending the last entry adds exactly the new region. */
  lemma ExtendMeans(m: seq<Entry>, e: Entry, a: nat, k: Kind)
    requires Continues(m, e) && AllFit(m) && EntryFits(e)
    ensures AllFit(Extend(m, e))
    ensures Covers(Extend(m, e), a, k) <==> Covers(m, a, k) || Holds(e, a, k)
  {
    var n := |m| - 1;
    var x := Extend(m, e);
    assert m == m[..n] + [m[n]] && x == x[..n] + [x[n]] && x[..n] == m[..n];
    CoversConcat(m[..n], [m[n]], a, k);
    CoversConcat(m[..n], [x[n]], a, k);
    assert Covers([m[n]], a, k) <==> Holds(m[n], a, k) by { assert [m[n]][0] == m[n]; }
    assert Covers([x[n]], a, k) <==> Holds(x[n], a, k) by { assert [x[n]][0] == x[n]; }
  }

  lemma {:induction false} MergedMeans(rs: seq<Entry>, a: nat, k: Kind)
    requires AllFit(rs)
    ensures AllFit(Merged(rs))
    ensures Covers(Merged(rs), a, k) <==> Covers(rs, a, k)
  {
    if rs != [] {
      var n := |rs| - 1;
      var e, m := rs[n], Merged(rs[..n]);
      MergedMeans(rs[..n], a, k);
      assert rs == rs[..n] + [e];
      CoversConcat(rs[..n], [e], a, k);
      assert Covers([e], a, k) <==> Holds(e, a, k) by { assert [e][0] == e; }
      if Continues(m, e) {
        ExtendMeans(m, e, a, k);
      } else {
        CoversConcat(m, [e], a, k);
      }
    }
  }

  lemma {:induction false} BuildIsSound(rs: seq<Entry>, capacity: nat, a: nat, k: Kind)
    requires AllFit(rs)
    ensures AllFit(Build(rs, capacity)) && |Build(rs, capacity)| <= capacity
    ensures Covers(Build(rs, capacity), a, k) ==> Covers(rs, a, k)
  {
    if rs != [] {
      var n := |rs| - 1;
      var e, m := rs[n], Build(rs[..n], capacity);
      BuildIsSound(rs[..n], capacity, a, k);
      assert rs == rs[..n] + [e];
      CoversConcat(rs[..n], [e], a, k);
      assert Covers([e], a, k) <==> Holds(e, a, k) by { assert [e][0] == e; }
      if Continues(m, e) {
        ExtendMeans(m, e, a, k);
      } else if |m| < capacity {
        CoversConcat(m, [e], a, k);
      }
    }
  }

  lemma {:induction false} BuildIsMerged(rs: seq<Entry>, capacity: nat)
    requires |Merged(rs)| <= capacity
    ensures Build(rs, capacity) == Merged(rs)
  {
    if rs != [] {
      BuildIsMerged(rs[..|rs| - 1], capacity);
    }
  }

  /** The table never claims memory the firmware did not grant, whatever the order, the overlaps and the
      number of descriptors; and when no region is dropped it claims all of it. */
  lemma TableMeansMap(ds: seq<Descriptor>, capacity: nat, a: nat, k: Kind)
    requires forall i :: 0 <= i < |ds| ==> Fits(ds[i])
    ensures |Convert(ds, capacity)| <= capacity
    ensures Covers(Convert(ds, capacity), a, k) ==> Granted(ds, a, k)
    ensures |Merged(AllRegions(ds))| <= capacity ==>
              (Covers(Convert(ds, capacity), a, k) <==> Granted(ds, a, k))
  {
    var rs := AllRegions(ds);
    AllRegionsMean(ds, a, k);
    BuildIsSound(rs, capacity, a, k);
    if |Merged(rs)| <= capacity {
      BuildIsMerged(rs, capacity);
      MergedMeans(rs, a, k);
    }
  }

  /** What becomes of one descriptor of each type. */
  lemma OneDescriptor(t: EfiType, start: nat, pages: nat, capacity: nat, a: nat, k: Kind)
    requires start + pages * 4096 < 0x1_0000_0000_0000_0000 && capacity >= 2
    ensures Covers(Convert([Descriptor(t, start, pages)], capacity), a, k) <==>
              && start <= a < start + pages * 4096
              && match t
                 case ReservedMemoryType => k == Reserved
                 case LoaderCode => k == Ram && !(0xA0000 <= a < 0x100000)
                 case LoaderData => k == Ram && !(0xA0000 <= a < 0x100000)
                 case BootServicesCode => k == Ram && !(0xA0000 <= a < 0x100000)
                 case BootServicesData => k == Ram && !(0xA0000 <= a < 0x100000)
                 case RuntimeServicesCode => k == Reserved
                 case RuntimeServicesData => k == Reserved
                 case ConventionalMemory => k == Ram && !(0xA0000 <= a < 0x100000)
                 case UnusableMemory => k == Reserved
                 case AcpiReclaimMemory => k == Acpi
                 case AcpiMemoryNvs => k == Nvs
                 case MemoryMappedIo => k == Reserved
                 case MemoryMappedIoPortSpace => k == Reserved
                 case PalCode => k == Reserved
                 case UnknownType => false
  {
    hide Convert, Covers;
    AloneMeans(Descriptor(t, start, pages), capacity, a, k);
  }

  lemma AloneMeans(d: Descriptor, capacity: nat, a: nat, k: Kind)
    requires Fits(d) && capacity >= 2
    ensures Covers(Convert([d], capacity), a, k) <==> Grants(d, a, k)
  {
    assert Granted([d], a, k) <==> Grants([d][0], a, k);
    assert AllRegions([d]) == [] + Regions(d) by {
      assert [d][..0] == [];
    }
    AtMostTwo(d);
    hide Convert, Covers, Merged, Regions, Granted, Grants;
    assert [] + Regions(d) == Regions(d);
    TableMeansMap([d], capacity, a, k);
  }

  lemma AtMostTwo(d: Descriptor)
    ensures |Regions(d)| <= 2
  {
  }

  // ----- shape of the table

  /** No two neighbouring entries could have been merged. */
  ghost predicate Compact(m: seq<Entry>) {
    forall i :: 0 <= i < |m| - 1 ==> !((m[i].addr + m[i].size) % U64 == m[i + 1].addr && m[i].kind == m[i + 1].kind)
  }

  lemma {:induction false} BuildIsCompact(rs: seq<Entry>, capacity: nat)
    ensures Compact(Build(rs, capacity))
  {
    if rs != [] {
      BuildIsCompact(rs[..|rs| - 1], capacity);
    }
  }

  /** Ascending and without overlap. */
  ghost predicate Ascending(m: seq<Entry>) {
    forall i, j :: 0 <= i < j < |m| ==> m[i].addr + m[i].size <= m[j].addr
  }

  ghost predicate AllNonempty(m: seq<Entry>) {
    forall i :: 0 <= i < |m| ==> m[i].size > 0
  }

  /** Nothing in `m` reaches beyond `top`. */
  ghost predicate Below(m: seq<Entry>, top: nat) {
    forall i :: 0 <= i < |m| ==> m[i].addr + m[i].size <= top
  }

  lemma AddIsAscending(m: seq<Entry>, e: Entry, capacity: nat, top: nat)
    requires AllFit(m) && EntryFits(e) && Ascending(m) && Below(m, e.addr) && e.addr + e.size <= top
    ensures var r := Add(m, e, capacity); AllFit(r) && Ascending(r) && Below(r, top)
  {
  }

  lemma {:induction false} BuildIsAscending(rs: seq<Entry>, capacity: nat, top: nat)
    requires AllFit(rs) && Ascending(rs) && Below(rs, top)
    ensures AllFit(Build(rs, capacity)) && Ascending(Build(rs, capacity)) && Below(Build(rs, capacity), top)
  {
    if rs != [] {
      var n := |rs| - 1;
      BuildIsAscending(rs[..n], capacity, rs[n].addr);
      hide Build;
      AddIsAscending(Build(rs[..n], capacity), rs[n], capacity, top);
    }
  }

  /** Behind a non-empty entry, nothing continues an entry that was cut off before it. */
  lemma CutIsFinal(m: seq<Entry>, e: Entry, capacity: nat)
    requires AllFit(m) && Ascending(m) && AllNonempty(m) && Below(m, e.addr) && capacity < |m|
    ensures !Continues(m[..capacity], e)
  {
    if capacity > 0 {
      assert EntryFits(m[capacity - 1]);
      assert m[capacity - 1].addr + m[capacity - 1].size <= m[capacity].addr;
    }
  }

  function Cut(m: seq<Entry>, capacity: nat): seq<Entry> {
    if |m| <= capacity then m else m[..capacity]
  }

  lemma CutStep(m: seq<Entry>, e: Entry, capacity: nat)
    requires |m| > capacity ==> !Continues(m[..capacity], e)
    ensures Add(Cut(m, capacity), e, capacity) == Cut(Join(m, e), capacity)
  {
  }

  lemma {:induction false} MergedIsNonempty(rs: seq<Entry>)
    requires AllFit(rs) && Ascending(rs) && AllNonempty(rs)
    ensures AllFit(Merged(rs)) && AllNonempty(Merged(rs))
  {
    if rs != [] {
      var n := |rs| - 1;
      MergedIsNonempty(rs[..n]);
      var m := Merged(rs[..n]);
      hide Merged;
      JoinIsNonempty(m, rs[n]);
    }
  }

  lemma JoinIsNonempty(m: seq<Entry>, e: Entry)
    requires AllFit(m) && AllNonempty(m) && EntryFits(e) && e.size > 0
    ensures AllFit(Join(m, e)) && AllNonempty(Join(m, e))
  {
  }

  lemma MergedIsFinal(rs: seq<Entry>, e: Entry, capacity: nat)
    requires AllFit(rs) && Ascending(rs) && AllNonempty(rs) && Below(rs, e.addr)
    ensures |Merged(rs)| > capacity ==> !Continues(Merged(rs)[..capacity], e)
  {
    BuildIsMerged(rs, |rs|);
    BuildIsAscending(rs, |rs|, e.addr);
    MergedIsNonempty(rs);
    hide *;
    if |Merged(rs)| > capacity {
      CutIsFinal(Merged(rs), e, capacity);
    }
  }

  /** For an ascending list of non-empty regions a full table keeps the first entries of the unlimited one. */
  lemma {:induction false} BuildIsPrefix(rs: seq<Entry>, capacity: nat)
    requires AllFit(rs) && Ascending(rs) && AllNonempty(rs)
    ensures Build(rs, capacity) == Cut(Merged(rs), capacity)
  {
    if rs != [] {
      var n := |rs| - 1;
      var e, m := rs[n], Merged(rs[..n]);
      BuildIsPrefix(rs[..n], capacity);
      MergedIsFinal(rs[..n], e, capacity);
      hide Continues, Ascending, Below, AllFit, AllNonempty, Add, Join;
      CutStep(m, e, capacity);
    }
  }

  /** A table too small for such a list loses memory; so the table is exact if and only if the merged
      regions fit. */
  lemma ExactIffItFits(ds: seq<Descriptor>, capacity: nat)
    requires forall i :: 0 <= i < |ds| ==> Fits(ds[i])
    requires Ascending(AllRegions(ds)) && AllNonempty(AllRegions(ds))
    ensures (forall a: nat, k :: Granted(ds, a, k) ==> Covers(Convert(ds, capacity), a, k))
            <==> |Merged(AllRegions(ds))| <= capacity
  {
    hide *;
    if |Merged(AllRegions(ds))| <= capacity {
      forall a: nat, k | Granted(ds, a, k) ensures Covers(Convert(ds, capacity), a, k) {
        TableMeansMap(ds, capacity, a, k);
      }
    } else {
      var a, k := MemoryIsLost(ds, capacity);
    }
  }

  lemma MemoryIsLost(ds: seq<Descriptor>, capacity: nat) returns (a: nat, k: Kind)
    requires forall i :: 0 <= i < |ds| ==> Fits(ds[i])
    requires Ascending(AllRegions(ds)) && AllNonempty(AllRegions(ds)) && |Merged(AllRegions(ds))| > capacity
    ensures Granted(ds, a, k) && !Covers(Convert(ds, capacity), a, k)
  {
    hide Granted, Regions, AllRegions, Merged, Fits;
    var rs := AllRegions(ds);
    var m := Merged(rs);
    a, k := m[capacity].addr, m[capacity].kind;
    AllRegionsMean(ds, a, k);
    BuildIsPrefix(rs, capacity);
    MergedIsNonempty(rs);
    MergedMeans(rs, a, k);
    BuildIsMerged(rs, |rs|);
    BuildIsAscending(rs, |rs|, U64);
    hide Build;
    assert Holds(m[capacity], a, k);
    assert forall i :: 0 <= i < capacity ==> Build(rs, capacity)[i] == m[i];
  }

  // ----- sorted memory maps

  ghost predicate SortedMap(ds: seq<Descriptor>) {
    forall i, j :: 0 <= i < j < |ds| ==> ds[i].start + ds[i].pages * PAGE <= ds[j].start
  }

  lemma RegionsWithin(d: Descriptor)
    requires Fits(d)
    ensures AllFit(Regions(d)) && Ascending(Regions(d)) && Below(Regions(d), d.start + d.pages * PAGE)
    ensures forall i :: 0 <= i < |Regions(d)| ==> d.start <= Regions(d)[i].addr
    ensures d.pages > 0 ==> AllNonempty(Regions(d))
  {
    assert d.pages * PAGE % U64 == d.pages * PAGE;
  }

  lemma {:induction false} AllRegionsAscend(ds: seq<Descriptor>, top: nat)
    requires SortedMap(ds) && forall i :: 0 <= i < |ds| ==> Fits(ds[i])
    requires ds == [] || ds[|ds| - 1].start + ds[|ds| - 1].pages * PAGE <= top
    ensures AllFit(AllRegions(ds)) && Ascending(AllRegions(ds)) && Below(AllRegions(ds), top)
    ensures (forall i :: 0 <= i < |ds| ==> ds[i].pages > 0) ==> AllNonempty(AllRegions(ds))
  {
    if ds != [] {
      var n := |ds| - 1;
      AllRegionsAscend(ds[..n], ds[n].start);
      RegionsWithin(ds[n]);
      var start, end := ds[n].start, ds[n].start + ds[n].pages * PAGE;
      hide Regions;
      AscendConcat(AllRegions(ds[..n]), Regions(ds[n]), start, end);
    }
  }

  lemma AscendConcat(m: seq<Entry>, m': seq<Entry>, start: nat, end: nat)
    requires AllFit(m) && Ascending(m) && Below(m, start) && AllFit(m') && Ascending(m') && Below(m', end)
    requires start <= end
    requires forall i :: 0 <= i < |m'| ==> start <= m'[i].addr
    ensures AllFit(m + m') && Ascending(m + m') && Below(m + m', end)
    ensures AllNonempty(m) && AllNonempty(m') ==> AllNonempty(m + m')
  {
    hide EntryFits;
  }

  /** A sorted memory map becomes a sorted table without overlap, in which nothing is left to merge. */
  lemma SortedMapGivesSortedTable(ds: seq<Descriptor>, capacity: nat)
    requires SortedMap(ds) && forall i :: 0 <= i < |ds| ==> Fits(ds[i])
    ensures Ascending(Convert(ds, capacity)) && Compact(Convert(ds, capacity)) && |Convert(ds, capacity)| <= capacity
    ensures (forall i :: 0 <= i < |ds| ==> ds[i].pages > 0) ==>
              ((forall a: nat, k :: Granted(ds, a, k) ==> Covers(Convert(ds, capacity), a, k))
               <==> |Merged(AllRegions(ds))| <= capacity)
  {
    var rs := AllRegions(ds);
    AllRegionsAscend(ds, U64);
    BuildIsAscending(rs, capacity, U64);
    BuildIsCompact(rs, capacity);
    BuildIsSound(rs, capacity, 0, Ram);
    if forall i :: 0 <= i < |ds| ==> ds[i].pages > 0 {
      ExactIffItFits(ds, capacity);
    }
  }
}

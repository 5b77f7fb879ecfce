/** PCI resource settings: build_crs (aml-build.c) files what the devices of one root bus use under
    ports, 32-bit and 64-bit memory, merges each and describes it. */
module Crs {
  import opened Bytes
  import opened Ranges

  /** An I/O region (BAR) of a device. */
  datatype Region = Region(isIo: bool, addr: u64, size: u64)

  /** The windows of a bridge as pci_bridge_get_base and pci_bridge_get_limit report them; a
      closed window has its base above its limit. */
  datatype Bridge = Bridge(subordinate: byte, io: Range, mem: Range, prefetch: Range)

  datatype Device = Device(regions: seq<Region>, bridge: Option<Bridge>)

  datatype Space = Io | Mem32 | Mem64

  /** A resource descriptor with the fields the aml_* helpers write. */
  datatype Desc = Desc(kind: DescKind, min: u64, max: u64, translation: u64, length: u64)
  datatype DescKind = WordBusNumber | IoPort | WordIo | DWordIo | DWordMemory | QWordMemory | Memory32Fixed

  function RegionRange(r: Region): Range { Range(r.addr, Wrap64(r.addr + r.size - 1)) }

  /** The work-around for old firmware: a zero base or a wrapped range is skipped. */
  predicate Usable(r: Range) { r.base != 0 && r.base <= r.limit }

  function MemSpace(r: Range): Space {
    if r.limit <= U32_MAX && r.limit - r.base + 1 <= U32_MAX then Mem32 else Mem64
  }

  function Pick(r: Range, isIo: bool, space: Space): seq<Range> {
    if Usable(r) && (if isIo then Io else MemSpace(r)) == space then [r] else []
  }

  function RegionRanges(rs: seq<Region>, space: Space): seq<Range> {
    if rs == [] then []
    else RegionRanges(rs[..|rs| - 1], space) + Pick(RegionRange(rs[|rs| - 1]), rs[|rs| - 1].isIo, space)
  }

  function BridgeRanges(b: Bridge, space: Space): seq<Range> {
    Pick(b.io, true, space) + Pick(b.mem, false, space) + Pick(b.prefetch, false, space)
  }

  function DeviceRanges(dev: Device, space: Space): seq<Range> {
    RegionRanges(dev.regions, space) + if dev.bridge.Some? then BridgeRanges(dev.bridge.value, space) else []
  }

  /** Everything the devices of a bus use in one address space. */
  function BusRanges(slots: seq<Option<Device>>, space: Space): seq<Range> {
    if slots == [] then []
    else
      BusRanges(slots[..|slots| - 1], space)
      + match slots[|slots| - 1] case None => [] case Some(dev) => DeviceRanges(dev, space)
  }

  function MaxBus(busNum: byte, slots: seq<Option<Device>>): (max: byte)
    ensures max >= busNum
  {
    if slots == [] then busNum
    else
      var before := MaxBus(busNum, slots[..|slots| - 1]);
      match slots[|slots| - 1]
      case Some(Device(_, Some(bridge))) => if bridge.subordinate > before then bridge.subordinate else before
      case _ => before
  }

  // ----- what is filed, from the devices alone -----

  /** The device has this range as one of its BARs, or as a window of its bridge. */
  ghost predicate Claims(dev: Device, r: Range, isIo: bool) {
    (exists i :: 0 <= i < |dev.regions| && dev.regions[i].isIo == isIo && IsBar(dev.regions[i], r))
    || (dev.bridge.Some? &&
        if isIo then r == dev.bridge.value.io else r == dev.bridge.value.mem || r == dev.bridge.value.prefetch)
  }

  /** From the address of the BAR, as many bytes as its size; 64-bit addresses wrap around. */
  predicate IsBar(bar: Region, r: Range) {
    r.base == bar.addr && r.limit == (bar.addr + bar.size - 1) % 0x1_0000_0000_0000_0000
  }

  /** Ports are one space; memory whose end and length fit 32 bits is another; the rest is the third. */
  predicate InSpace(r: Range, isIo: bool, space: Space) {
    match space
    case Io => isIo
    case Mem32 => !isIo && r.limit <= 0xFFFF_FFFF && r.limit - r.base + 1 <= 0xFFFF_FFFF
    case Mem64 => !isIo && (r.limit > 0xFFFF_FFFF || r.limit - r.base + 1 > 0xFFFF_FFFF)
  }

  lemma PickedIff(q: Range, isIo: bool, space: Space, r: Range)
    ensures r in Pick(q, isIo, space) <==> r == q && r.base != 0 && r.base <= r.limit && InSpace(r, isIo, space)
  {
  }

  ghost predicate HasBar(rs: seq<Region>, r: Range, isIo: bool) {
    exists i :: 0 <= i < |rs| && rs[i].isIo == isIo && IsBar(rs[i], r)
  }

  lemma {:induction false} RegionsFiled(rs: seq<Region>, space: Space, r: Range)
    ensures r in RegionRanges(rs, space) <==>
            r.base != 0 && r.base <= r.limit && exists isIo :: HasBar(rs, r, isIo) && InSpace(r, isIo, space)
  {
    if rs != [] {
      var last, before := rs[|rs| - 1], rs[..|rs| - 1];
      RegionsFiled(before, space, r);
      hide Pick, InSpace;
      PickedIff(RegionRange(last), last.isIo, space, r);
      assert IsBar(last, r) <==> r == RegionRange(last);
      forall isIo
        ensures HasBar(rs, r, isIo) <==> HasBar(before, r, isIo) || (last.isIo == isIo && IsBar(last, r))
      {
        BarsSnoc(before, last, r, isIo);
        assert before + [last] == rs;
      }
    }
  }

  lemma BarsSnoc(rs: seq<Region>, last: Region, r: Range, isIo: bool)
    ensures HasBar(rs + [last], r, isIo) <==> HasBar(rs, r, isIo) || (last.isIo == isIo && IsBar(last, r))
  {
    var all := rs + [last];
    if HasBar(rs, r, isIo) {
      var i :| 0 <= i < |rs| && rs[i].isIo == isIo && IsBar(rs[i], r);
      assert all[i] == rs[i];
    }
    if last.isIo == isIo && IsBar(last, r) {
      assert all[|rs|] == last;
    }
  }

  lemma DeviceFiled(dev: Device, space: Space, r: Range)
    ensures r in DeviceRanges(dev, space) <==>
            r.base != 0 && r.base <= r.limit && exists isIo :: Claims(dev, r, isIo) && InSpace(r, isIo, space)
  {
    RegionsFiled(dev.regions, space, r);
    assert forall isIo :: HasBar(dev.regions, r, isIo) ==> Claims(dev, r, isIo);
    hide InSpace, RegionRanges, Pick;
    if dev.bridge.Some? {
      var b := dev.bridge.value;
      PickedIff(b.io, true, space, r);
      PickedIff(b.mem, false, space, r);
      PickedIff(b.prefetch, false, space, r);
      assert r == b.io ==> Claims(dev, r, true);
      assert r == b.mem || r == b.prefetch ==> Claims(dev, r, false);
    }
  }

  /** A range is filed under a space exactly when it is usable and some device of the bus claims it
      there. */
  ghost predicate BusClaims(slots: seq<Option<Device>>, space: Space, r: Range) {
    exists k, isIo ::
      0 <= k < |slots| && slots[k].Some? && Claims(slots[k].value, r, isIo) && InSpace(r, isIo, space)
  }

  lemma {:induction false} BusFiled(slots: seq<Option<Device>>, space: Space, r: Range)
    ensures r in BusRanges(slots, space) <==> r.base != 0 && r.base <= r.limit && BusClaims(slots, space, r)
  {
    hide Claims, InSpace, DeviceRanges;
    if slots != [] {
      var last, before := slots[|slots| - 1], slots[..|slots| - 1];
      BusFiled(before, space, r);
      if last.Some? {
        DeviceFiled(last.value, space, r);
      }
      ClaimsSnoc(before, last, space, r);
      assert before + [last] == slots;
    }
  }

  lemma ClaimsSnoc(before: seq<Option<Device>>, last: Option<Device>, space: Space, r: Range)
    ensures BusClaims(before + [last], space, r) <==>
            BusClaims(before, space, r)
            || (last.Some? && exists isIo :: Claims(last.value, r, isIo) && InSpace(r, isIo, space))
  {
    hide Claims, InSpace;
    var slots := before + [last];
    if BusClaims(before, space, r) {
      var k, isIo :|
        0 <= k < |before| && before[k].Some? && Claims(before[k].value, r, isIo) && InSpace(r, isIo, space);
      assert slots[k] == before[k];
    }
    if last.Some? {
      assert slots[|before|] == last;
    }
  }

  /** The greatest bus number: that of the bus itself or the subordinate number of one of its bridges. */
  lemma {:induction false} MaxBusGreatest(busNum: byte, slots: seq<Option<Device>>)
    ensures forall k :: 0 <= k < |slots| ==> Subordinate(slots[k], busNum) <= MaxBus(busNum, slots)
    ensures MaxBus(busNum, slots) == busNum
            || exists k :: 0 <= k < |slots| && Subordinate(slots[k], busNum) == MaxBus(busNum, slots)
  {
    if slots != [] {
      var last := |slots| - 1;
      var before := slots[..last];
      MaxBusGreatest(busNum, before);
      if MaxBus(busNum, slots) == MaxBus(busNum, before) {
        if MaxBus(busNum, before) != busNum {
          var k :| 0 <= k < |before| && Subordinate(before[k], busNum) == MaxBus(busNum, before);
          assert slots[k] == before[k];
        }
      } else {
        assert Subordinate(slots[last], busNum) == MaxBus(busNum, slots);
      }
      forall k | 0 <= k < |slots|
        ensures Subordinate(slots[k], busNum) <= MaxBus(busNum, slots)
      {
        assert k < last ==> before[k] == slots[k];
      }
    }
  }

  /** The last bus number behind the bridge in this slot, if there is one. */
  function Subordinate(slot: Option<Device>, otherwise: byte): byte {
    if slot.Some? && slot.value.bridge.Some? then slot.value.bridge.value.subordinate else otherwise
  }

  /** What holds of every range kept for an address space. */
  predicate Kept(r: Range, space: Space) { Usable(r) && (space == Mem32 ==> r.limit <= U32_MAX) }

  predicate AllKept(rs: seq<Range>, space: Space) { forall i :: 0 <= i < |rs| ==> Kept(rs[i], space) }

  lemma KeptAppend(xs: seq<Range>, ys: seq<Range>, space: Space)
    requires AllKept(xs, space) && AllKept(ys, space)
    ensures AllKept(xs + ys, space)
  {
  }

  lemma PickKept(r: Range, isIo: bool, space: Space)
    ensures AllKept(Pick(r, isIo, space), space)
  {
  }

  lemma {:induction false} RegionRangesKept(rs: seq<Region>, space: Space)
    ensures AllKept(RegionRanges(rs, space), space)
  {
    hide AllKept, Pick;
    if rs == [] {
      assert AllKept([], space) by { NoneKept(space); }
    } else {
      var last := rs[|rs| - 1];
      RegionRangesKept(rs[..|rs| - 1], space);
      PickKept(RegionRange(last), last.isIo, space);
      KeptAppend(RegionRanges(rs[..|rs| - 1], space), Pick(RegionRange(last), last.isIo, space), space);
    }
  }

  lemma NoneKept(space: Space)
    ensures AllKept([], space)
  {
  }

  lemma BridgeRangesKept(b: Bridge, space: Space)
    ensures AllKept(BridgeRanges(b, space), space)
  {
    hide AllKept, Pick;
    PickKept(b.io, true, space);
    PickKept(b.mem, false, space);
    PickKept(b.prefetch, false, space);
    KeptAppend(Pick(b.io, true, space), Pick(b.mem, false, space), space);
    KeptAppend(Pick(b.io, true, space) + Pick(b.mem, false, space), Pick(b.prefetch, false, space), space);
  }

  lemma DeviceRangesKept(dev: Device, space: Space)
    ensures AllKept(DeviceRanges(dev, space), space)
  {
    hide AllKept, BridgeRanges, RegionRanges;
    RegionRangesKept(dev.regions, space);
    NoneKept(space);
    if dev.bridge.Some? {
      BridgeRangesKept(dev.bridge.value, space);
    }
    KeptAppend(RegionRanges(dev.regions, space), if dev.bridge.Some? then BridgeRanges(dev.bridge.value,
          space) else [], space);
  }

  /** Every range of a bus is usable, and the 32-bit ones end below 4 GiB. */
  lemma {:induction false} BusRangesKept(slots: seq<Option<Device>>, space: Space)
    ensures AllKept(BusRanges(slots, space), space)
  {
    hide AllKept, DeviceRanges;
    NoneKept(space);
    if slots != [] {
      var last := slots[|slots| - 1];
      BusRangesKept(slots[..|slots| - 1], space);
      if last.Some? {
        DeviceRangesKept(last.value, space);
      }
      KeptAppend(BusRanges(slots[..|slots| - 1], space),
                 match last case None => [] case Some(dev) => DeviceRanges(dev, space), space);
    }
  }

  // ----- build_crs -----

  /** CrsRangeSet */
  class RangeSet {
    const io: RangeArray
    const mem: RangeArray
    const mem64: RangeArray

    /** crs_range_set_init */
    constructor ()
      ensures fresh(io) && fresh(mem) && fresh(mem64) && Apart()
      ensures io.entries == [] && mem.entries == [] && mem64.entries == []
    {
      io := new RangeArray();
      mem := new RangeArray();
      mem64 := new RangeArray();
    }

    ghost predicate Apart() { io != mem && io != mem64 && mem != mem64 }

    /** Files one range: the branches on its type and size. */
    method File(r: Range, isIo: bool)
      requires Apart()
      modifies io, mem, mem64
      ensures io.entries == old(io.entries) + Pick(r, isIo, Io)
      ensures mem.entries == old(mem.entries) + Pick(r, isIo, Mem32)
      ensures mem64.entries == old(mem64.entries) + Pick(r, isIo, Mem64)
    {
      if r.base == 0 || r.base > r.limit {
        return;
      }
      if isIo {
        io.Insert(r.base, r.limit);
      } else {
        var length := Wrap64(r.limit - r.base + 1);
        LengthFits(r);
        if r.limit <= U32_MAX && length <= U32_MAX {
          mem.Insert(r.base, r.limit);
        } else {
          mem64.Insert(r.base, r.limit);
        }
      }
    }
  }

  /** A range with a non-zero base has a length that fits 64 bits. */
  lemma LengthFits(r: Range)
    requires Usable(r)
    ensures Wrap64(r.limit - r.base + 1) == r.limit - r.base + 1
  {
    NoWrap(r.limit - r.base + 1);
  }

  /** The io_regions loop. */
  method FileRegions(rs: seq<Region>, temp: RangeSet)
    requires temp.Apart()
    modifies temp.io, temp.mem, temp.mem64
    ensures temp.io.entries == old(temp.io.entries) + RegionRanges(rs, Io)
    ensures temp.mem.entries == old(temp.mem.entries) + RegionRanges(rs, Mem32)
    ensures temp.mem64.entries == old(temp.mem64.entries) + RegionRanges(rs, Mem64)
  {
    hide Pick;
    for i := 0 to |rs|
      invariant temp.io.entries == old(temp.io.entries) + RegionRanges(rs[..i], Io)
      invariant temp.mem.entries == old(temp.mem.entries) + RegionRanges(rs[..i], Mem32)
      invariant temp.mem64.entries == old(temp.mem64.entries) + RegionRanges(rs[..i], Mem64)
    {
      temp.File(RegionRange(rs[i]), rs[i].isIo);
      assert rs[..i + 1][..i] == rs[..i];
    }
    assert rs[..|rs|] == rs;
  }

  /** The three windows of a bridge. */
  method FileBridge(b: Bridge, temp: RangeSet)
    requires temp.Apart()
    modifies temp.io, temp.mem, temp.mem64
    ensures temp.io.entries == old(temp.io.entries) + BridgeRanges(b, Io)
    ensures temp.mem.entries == old(temp.mem.entries) + BridgeRanges(b, Mem32)
    ensures temp.mem64.entries == old(temp.mem64.entries) + BridgeRanges(b, Mem64)
  {
    hide Pick;
    temp.File(b.io, true);
    temp.File(b.mem, false);
    temp.File(b.prefetch, false);
  }

  /** The body of the devfn loop for one device. */
  method FileDevice(dev: Device, temp: RangeSet)
    requires temp.Apart()
    modifies temp.io, temp.mem, temp.mem64
    ensures temp.io.entries == old(temp.io.entries) + DeviceRanges(dev, Io)
    ensures temp.mem.entries == old(temp.mem.entries) + DeviceRanges(dev, Mem32)
    ensures temp.mem64.entries == old(temp.mem64.entries) + DeviceRanges(dev, Mem64)
  {
    hide RegionRanges, BridgeRanges;
    FileRegions(dev.regions, temp);
    if dev.bridge.Some? {
      FileBridge(dev.bridge.value, temp);
    }
  }

  /** `out` is what crs_range_merge makes of `rs`, whatever order it sorts equal bases in. */
  ghost predicate MergeOf(out: seq<Range>, rs: seq<Range>) {
    exists sorted :: IsSortOf(sorted, rs) && out == Merged(sorted)
  }

  /** Merging kept ranges gives kept ranges with the same union; disjoint ones come out ordered
      with gaps. */
  lemma MergeFacts(out: seq<Range>, rs: seq<Range>, space: Space)
    requires MergeOf(out, rs) && AllKept(rs, space)
    ensures AllKept(out, space)
    ensures forall x: int :: Covers(out, x) <==> Covers(rs, x)
    ensures Disjoint(rs) ==> Gapped(out)
  {
    var sorted :| IsSortOf(sorted, rs) && out == Merged(sorted);
    MergeKept(sorted, rs, space);
    forall x: int
      ensures Covers(out, x) <==> Covers(rs, x)
    {
      MergeUnion(rs, sorted, x);
    }
    if Disjoint(rs) {
      MergeGaps(rs, sorted);
    }
  }

  lemma MergeKept(sorted: seq<Range>, rs: seq<Range>, space: Space)
    requires IsSortOf(sorted, rs) && AllKept(rs, space)
    ensures AllKept(Merged(sorted), space)
  {
    SameElements(sorted, rs);
    forall i | 0 <= i < |sorted|
      ensures Kept(sorted[i], space)
    {
      assert sorted[i] in rs;
    }
    if sorted != [] {
      assert Kept(sorted[0], space);
      MergeFromEnds(sorted[0], sorted[1..], 1, if space == Mem32 then U32_MAX else U64_MAX);
    }
  }

  /** A descriptor whose fields are `bits` wide: the helper's parameters truncate. */
  function Described(kind: DescKind, r: Range, translation: u64, modulus: nat): Desc
    requires 0 < modulus <= 0x1_0000_0000_0000_0000
  {
    Desc(kind, r.base % modulus, r.limit % modulus, translation, (r.limit - r.base + 1) % modulus)
  }

  function DescribeAll(kind: DescKind, rs: seq<Range>, translation: u64, modulus: nat): (r: seq<Desc>)
    requires 0 < modulus <= 0x1_0000_0000_0000_0000
    ensures |r| == |rs| && forall i :: 0 <= i < |rs| ==> r[i] == Described(kind, rs[i], translation, modulus)
  {
    seq(|rs|, i requires 0 <= i < |rs| => Described(kind, rs[i], translation, modulus))
  }

  const TWO16: nat := 0x1_0000
  const TWO32: nat := 0x1_0000_0000
  const TWO64: nat := 0x1_0000_0000_0000_0000

  /** A descriptor that says what it should: its ends, and a length of max - min + 1. */
  predicate Exact(d: Desc, r: Range) { d.min == r.base && d.max == r.limit && d.length == r.limit - r.base + 1 }

  /** Kept 32-bit ranges are described exactly: the descriptor fields never truncate. */
  lemma ExactWhenKept(r: Range, translation: u64)
    requires Usable(r)
    ensures r.limit <= U32_MAX ==> Exact(Described(DWordMemory, r, translation, TWO32), r)
    ensures Exact(Described(QWordMemory, r, translation, TWO64), r)
    ensures Exact(Described(DWordIo, r, translation, TWO32), r) <==> r.limit <= U32_MAX
    ensures forall kind: DescKind :: Described(kind, r, translation, TWO32).kind == kind
    ensures forall kind: DescKind :: Described(kind, r, translation, TWO32).translation == translation
  {
  }

  /** Merges the ranges of one space, emits a descriptor for each, and adds each to the set.  The
      32-bit assertion of build_crs is a proof obligation here, for every set of ranges. */
  method MergeAndEmit(kind: DescKind, from: RangeArray, into: RangeArray, translation: u64, modulus: nat)
    returns (descs: seq<Desc>, ghost merged: seq<Range>)
    requires from != into && 0 < modulus <= TWO64
    requires kind == DWordMemory ==> AllKept(from.entries, Mem32)
    modifies from, into
    ensures MergeOf(merged, old(from.entries)) && descs == DescribeAll(kind, merged, translation, modulus)
    ensures into.entries == old(into.entries) + merged
  {
    ghost var sorted := from.Merge();
    merged := from.entries;
    if kind == DWordMemory {
      MergeKept(sorted, old(from.entries), Mem32);
    }
    descs := [];
    for i := 0 to |from.entries|
      invariant from.entries == merged
      invariant |descs| == i && forall j :: 0 <= j < i ==> descs[j] == Described(kind, merged[j], translation, modulus)
      invariant into.entries == old(into.entries) + merged[..i]
    {
      var entry := from.entries[i];
      if kind == DWordMemory {
        assert Kept(entry, Mem32);
        assert entry.limit <= U32_MAX && entry.limit - entry.base + 1 <= U32_MAX;
      }
      descs := descs + [Described(kind, entry, translation, modulus)];
      into.Insert(entry.base, entry.limit);
      assert merged[..i + 1] == merged[..i] + [entry];
    }
    assert merged[..|merged|] == merged;
  }

  /** build_crs: the descriptors of one root bus, and the merged ranges it adds to the set. */
  method BuildCrs(busNum: byte, slots: seq<Option<Device>>, ranges: RangeSet,
                  ioOffset: u32, mmio32Offset: u32, mmio64Offset: u64, busNrOffset: u16)
    returns (crs: seq<Desc>, ghost io: seq<Range>, ghost mem: seq<Range>, ghost mem64: seq<Range>)
    requires ranges.Apart()
    modifies ranges.io, ranges.mem, ranges.mem64
    ensures MergeOf(io, BusRanges(slots, Io)) && ranges.io.entries == old(ranges.io.entries) + io
    ensures MergeOf(mem, BusRanges(slots, Mem32)) && ranges.mem.entries == old(ranges.mem.entries) + mem
    ensures MergeOf(mem64, BusRanges(slots, Mem64)) && ranges.mem64.entries == old(ranges.mem64.entries) + mem64
    ensures crs == DescribeAll(DWordIo, io, ioOffset, TWO32) + DescribeAll(DWordMemory, mem, mmio32Offset, TWO32)
                   + DescribeAll(QWordMemory, mem64, mmio64Offset, TWO64)
                   + [Desc(WordBusNumber, busNum, MaxBus(busNum, slots), busNrOffset, MaxBus(busNum,
                         slots) - busNum + 1)]
  {
    hide BusRanges, MergeOf, MaxBus, Described;
    var temp := new RangeSet();
    var maxBus := FileBus(busNum, slots, temp);
    BusRangesKept(slots, Mem32);
    var ioDescs, memDescs, mem64Descs;
    ioDescs, io := MergeAndEmit(DWordIo, temp.io, ranges.io, ioOffset, TWO32);
    memDescs, mem := MergeAndEmit(DWordMemory, temp.mem, ranges.mem, mmio32Offset, TWO32);
    mem64Descs, mem64 := MergeAndEmit(QWordMemory, temp.mem64, ranges.mem64, mmio64Offset, TWO64);
    crs := ioDescs + memDescs + mem64Descs + [Desc(WordBusNumber, busNum, maxBus, busNrOffset, maxBus - busNum + 1)];
  }

  /** The devfn loop. */
  method FileBus(busNum: byte, slots: seq<Option<Device>>, temp: RangeSet) returns (maxBus: byte)
    requires temp.Apart() && temp.io.entries == [] && temp.mem.entries == [] && temp.mem64.entries == []
    modifies temp.io, temp.mem, temp.mem64
    ensures temp.io.entries == BusRanges(slots, Io)
    ensures temp.mem.entries == BusRanges(slots, Mem32)
    ensures temp.mem64.entries == BusRanges(slots, Mem64)
    ensures maxBus == MaxBus(busNum, slots)
  {
    hide DeviceRanges;
    maxBus := busNum;
    for i := 0 to |slots|
      invariant temp.io.entries == BusRanges(slots[..i], Io)
      invariant temp.mem.entries == BusRanges(slots[..i], Mem32)
      invariant temp.mem64.entries == BusRanges(slots[..i], Mem64)
      invariant maxBus == MaxBus(busNum, slots[..i])
    {
      assert slots[..i + 1][..i] == slots[..i];
      if slots[i].Some? {
        var dev := slots[i].value;
        FileDevice(dev, temp);
        if dev.bridge.Some? && dev.bridge.value.subordinate > maxBus {
          maxBus := dev.bridge.value.subordinate;
        }
      }
    }
    assert slots[..|slots|] == slots;
  }
}

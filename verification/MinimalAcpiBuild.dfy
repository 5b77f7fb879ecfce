/** build_minimal_acpi, step by step, and what its blob then looks like to firmware. */
module MinimalAcpiBuild {
  import opened Bytes
  import opened AcpiTable
  import opened Blob
  import opened MinimalAcpi
  import Fadt
  import DsdtPadding

  /** What has been appended: the names, the bytes, and the offsets that go into the RSDT. */
  datatype Progress = Progress(names: seq<TableName>, log: seq<Table>, slots: seq<Option<u32>>)

  predicate Logged(c: Config, names: seq<TableName>, log: seq<Table>) {
    |names| == |log|
    && forall k :: 0 <= k < |log| ==> log[k].signature == Code(names[k]) && Proper(c, names[k], log[k].bytes)
  }

  /** The offsets given, in order. */
  function Present(slots: seq<Option<u32>>): seq<u32> {
    if slots == [] then [] else One(slots[0]) + Present(slots[1..])
  }

  function One(slot: Option<u32>): seq<u32> { if slot.Some? then [slot.value] else [] }

  lemma {:induction false} PresentMore(slots: seq<Option<u32>>, slot: Option<u32>)
    ensures Present(slots + [slot]) == Present(slots) + One(slot)
  {
    hide One;
    if slots == [] {
      assert slots + [slot] == [slot] && One(slot) + [] == One(slot) && [] + One(slot) == One(slot);
    } else {
      assert (slots + [slot])[1..] == slots[1..] + [slot];
      PresentMore(slots[1..], slot);
      assert One(slots[0]) + (Present(slots[1..]) + One(slot)) == One(slots[0]) + Present(slots[1..]) + One(slot);
    }
  }

  /** The slots are the offsets of every table after the first two, in order. */
  predicate Slotted(tables: seq<TableRef>, slots: seq<Option<u32>>) {
    |tables| == 2 + |Present(slots)| && forall k :: 2 <= k < |tables| ==> Present(slots)[k - 2] == tables[k].offset
  }

  ghost predicate Building(b: AcpiBlobBuilder, c: Config, p: Progress)
    reads b
  {
    b.baseAddress == c.base && Holds(b, c.frontPadding, p.log) && Logged(c, p.names, p.log)
          && Slotted(b.tables, p.slots)
  }

  lemma LoggedMore(c: Config, names: seq<TableName>, log: seq<Table>, n: TableName, bytes: seq<byte>)
    requires Logged(c, names, log) && Proper(c, n, bytes)
    ensures Logged(c, names + [n], log + [Table(Code(n), bytes)])
  {
    hide Proper, Code;
  }

  lemma SlottedMore(tables: seq<TableRef>, slots: seq<Option<u32>>, r: TableRef)
    requires Slotted(tables, slots)
    ensures Slotted(tables + [r], slots + [Some(r.offset)])
  {
    PresentMore(slots, Some(r.offset));
  }

  /** The address of a table: the base plus its recorded offset. */
  function AddressIn(c: Config, log: seq<Table>, k: nat): u64
    requires k < |log|
  {
    (c.base + Refs(log, c.frontPadding)[k].offset) % 0x1_0000_0000_0000_0000
  }

  /** One more table. */
  method Append(b: AcpiBlobBuilder, c: Config, n: TableName, bytes: seq<byte>, ghost p: Progress)
    returns (offset: u32, ghost q: Progress)
    requires Building(b, c, p) && Proper(c, n, bytes)
    modifies b
    ensures q == Progress(p.names + [n], p.log + [Table(Code(n), bytes)], p.slots + [Some(offset)])
    ensures Building(b, c, q) && b.AddressOf(offset) == AddressIn(c, q.log, |p.log|)
  {
    hide Proper, Code, Logged, Slotted, Concat, Refs;
    Appends(b.data, b.tables, c.frontPadding, p.log, Table(Code(n), bytes));
    ghost var before := b.tables;
    offset := b.AppendTable(Code(n), bytes);
    q := Progress(p.names + [n], p.log + [Table(Code(n), bytes)], p.slots + [Some(offset)]);
    LoggedMore(c, p.names, p.log, n, bytes);
    SlottedMore(before, p.slots, b.tables[|before|]);
  }

  /** A table that is only there under some condition. */
  ghost predicate Moved(c: Config, p: Progress, q: Progress, present: bool, n: TableName, offset: Option<u32>) {
    q.names == p.names + OneIf(present, n) && q.slots == p.slots + [offset] && p.log <= q.log
  }

  lemma Absent(tables: seq<TableRef>, slots: seq<Option<u32>>)
    requires Slotted(tables, slots)
    ensures Slotted(tables, slots + [None])
  {
    PresentMore(slots, None);
  }

  method AppendPlaceholderIf(b: AcpiBlobBuilder, c: Config, present: bool, n: TableName, ghost p: Progress)
    returns (offset: Option<u32>, ghost q: Progress)
    requires Building(b, c, p) && Placeholder(n)
    modifies b
    ensures Building(b, c, q) && Moved(c, p, q, present, n, offset)
  {
    hide Proper, Code, Logged, Slotted, Concat, Refs;
    if present {
      ghost var bytes := Fill(OptionalTableLen(n, c), 0);
      PlaceholderProper(c, n);
      Appends(b.data, b.tables, c.frontPadding, p.log, Table(Code(n), bytes));
      ghost var before := b.tables;
      var at := b.AppendPlaceholderTable(Code(n), OptionalTableLen(n, c));
      offset := Some(at);
      q := Progress(p.names + [n], p.log + [Table(Code(n), bytes)], p.slots + [offset]);
      LoggedMore(c, p.names, p.log, n, bytes);
      SlottedMore(before, p.slots, b.tables[|before|]);
    } else {
      offset := None;
      q := Progress(p.names, p.log, p.slots + [offset]);
      assert p.names == p.names + OneIf(false, n);
      Absent(b.tables, p.slots);
    }
  }

  lemma PlaceholderProper(c: Config, n: TableName)
    requires Placeholder(n)
    ensures Proper(c, n, Fill(OptionalTableLen(n, c), 0))
  {
  }

  /** The tables whose bodies are given. */
  function Body(c: Config, n: TableName): seq<byte> {
    match n case APIC => c.madtBody case HPET => c.hpetBody case MCFG => c.mcfgBody case _ => c.waetBody
  }

  method AppendFinalizedIf(b: AcpiBlobBuilder, c: Config, present: bool, n: TableName, ghost p: Progress)
    returns (offset: Option<u32>, ghost q: Progress)
    requires Building(b, c, p) && (n == APIC || n == HPET || n == MCFG || n == WAET)
    modifies b
    ensures Building(b, c, q) && Moved(c, p, q, present, n, offset)
    ensures present <==> offset.Some?
  {
    hide Proper, Code, Logged, Slotted, Concat, Refs, Holds, IsTable;
    if present {
      var t := FinalizeTable(Header(c.ids, Code(n), Revision(n)), Body(c, n));
      FinalizedProper(c, n, t);
      var at;
      at, q := Append(b, c, n, t, p);
      offset := Some(at);
    } else {
      offset := None;
      q := Progress(p.names, p.log, p.slots + [offset]);
      assert p.names == p.names + OneIf(false, n);
      Absent(b.tables, p.slots);
    }
  }

  lemma FinalizedProper(c: Config, n: TableName, t: seq<byte>)
    requires n == APIC || n == HPET || n == MCFG || n == WAET
    requires IsTable(t, Header(c.ids, Code(n), Revision(n)), Body(c, n))
    ensures Proper(c, n, t)
  {
  }

  // ----- the first tables -----

  method BuildFacs() returns (facs: seq<byte>)
    ensures IsFacs(facs)
  {
    facs := Code(FACS);
    facs := facs + Le(64, 4);
    for i := 0 to 4
      invariant |facs| == 8 + 4 * i && facs[..4] == Code(FACS) && facs[4..8] == Le(64, 4)
      invariant forall k :: 8 <= k < |facs| ==> facs[k] == 0
    {
      facs := facs + Le(0, 4);
    }
    facs := facs + Fill(40, 0);
  }

  /** The finished table has the target length of the configuration, unless that is less than the header
      and the unpadded body take or no padding reaches it. */
  method BuildDsdt(c: Config) returns (t: seq<byte>)
    ensures Proper(c, DSDT, t)
    ensures match TargetDsdtLen(c)
            case None => |t| == 36 + |c.dsdtBody|
            case Some(n) =>
              if n <= 36 + |c.dsdtBody| then |t| == 36 + |c.dsdtBody|
              else if DsdtPadding.Gap(n - 36 - |c.dsdtBody|) then n < |t| <= n + 9
              else |t| == n
  {
    hide IsTable, DsdtPadding.Gap, DsdtPadding.PadBytes, TargetDsdtLen;
    var body, rounds := DsdtPadding.EncodeDsdtWithPadding(c.dsdtBody, TargetDsdtLen(c));
    t := FinalizeTable(Header(c.ids, Code(DSDT), 1), body);
    Fadt.TableBody(t, Header(c.ids, Code(DSDT), 1), body);
  }

  /** The FADT holds the registers of the configuration and these addresses. */
  ghost predicate FadtPoints(c: Config, t: seq<byte>, facs: u64, dsdt: u64) {
    Fadt.IsFadt(t, c.registers.(cpus := |c.cpuApicIds|), facs, dsdt)
    && |t| == 244 && t[36..40] == Le(facs % 0x1_0000_0000, 4) && t[40..44] == Le(dsdt % 0x1_0000_0000, 4)
    && t[132..140] == Le(0, 8) && t[140..148] == Le(dsdt, 8)
  }

  method BuildFadt(c: Config, facs: u64, dsdt: u64) returns (t: seq<byte>)
    ensures Proper(c, FACP, t) && FadtPoints(c, t, facs, dsdt)
  {
    hide IsTable, Fadt.Filled, Fadt.Fields;
    t := Fadt.BuildFadtWithFacs(c.ids, c.registers.(cpus := |c.cpuApicIds|), facs, dsdt);
    Fadt.Pointers(t, c.registers.(cpus := |c.cpuApicIds|), facs, dsdt);
    assert Fadt.FADT_SIGNATURE == Code(FACP);
  }

  /** FACS and DSDT: the two tables the RSDT does not list. */
  method AppendUnlisted(b: AcpiBlobBuilder, c: Config) returns (facsOffset: u32, dsdtOffset: u32, ghost p: Progress)
    requires b.baseAddress == c.base && b.data == Fill(c.frontPadding, 1) && b.tables == []
    modifies b
    ensures Building(b, c, p) && p.names == [FACS, DSDT] && p.slots == []
    ensures |p.log| == 2 && b.AddressOf(facsOffset) == AddressIn(c, p.log, 0)
    ensures b.AddressOf(dsdtOffset) == AddressIn(c, p.log, 1)
  {
    hide Proper, Code, Logged, Concat, Refs;
    NothingAppended(c, b.data);
    var facs := BuildFacs();
    FacsProper(c, facs);
    Appends(b.data, b.tables, c.frontPadding, [], Table(Code(FACS), facs));
    LoggedMore(c, [], [], FACS, facs);
    facsOffset := b.AppendTable(Code(FACS), facs);
    var dsdt := BuildDsdt(c);
    ghost var log := [] + [Table(Code(FACS), facs)];
    Appends(b.data, b.tables, c.frontPadding, log, Table(Code(DSDT), dsdt));
    LoggedMore(c, [] + [FACS], log, DSDT, dsdt);
    dsdtOffset := b.AppendTable(Code(DSDT), dsdt);
    p := Progress([] + [FACS] + [DSDT], log + [Table(Code(DSDT), dsdt)], []);
  }

  lemma FacsProper(c: Config, t: seq<byte>)
    requires IsFacs(t)
    ensures Proper(c, FACS, t)
  {
  }

  lemma NothingAppended(c: Config, data: seq<byte>)
    requires data == Fill(c.frontPadding, 1)
    ensures data == Fill(c.frontPadding, 1) + Concat([]) && Refs([], c.frontPadding) == [] && Logged(c, [], [])
  {
  }

  lemma {:induction false} RefsPrefix(log: seq<Table>, more: seq<Table>, start: nat)
    requires log <= more
    ensures Refs(log, start) <= Refs(more, start)
    decreases log
  {
    if log != [] {
      RefsPrefix(log[1..], more[1..], start + |log[0].bytes|);
    }
  }

  /** FADT and MADT. */
  method AppendFirst(b: AcpiBlobBuilder, c: Config)
    returns (fadtOffset: u32, madtOffset: Option<u32>, ghost p: Progress)
    requires b.baseAddress == c.base && b.data == Fill(c.frontPadding, 1) && b.tables == []
    modifies b
    ensures Building(b, c, p) && p.names == [FACS, DSDT, FACP, APIC]
    ensures p.slots == [Some(fadtOffset), madtOffset] && madtOffset.Some?
    ensures |p.log| == 4 && FadtPoints(c, p.log[2].bytes, AddressIn(c, p.log, 0), AddressIn(c, p.log, 1))
  {
    hide Proper, Code, Logged, Slotted, Concat, Refs, Holds, FadtPoints;
    var facsOffset, dsdtOffset;
    facsOffset, dsdtOffset, p := AppendUnlisted(b, c);
    ghost var two := p.log;
    NamesCount(c, p);
    var fadt := BuildFadt(c, b.AddressOf(facsOffset), b.AddressOf(dsdtOffset));
    fadtOffset, p := Append(b, c, FACP, fadt, p);
    ghost var three := p.log;
    madtOffset, p := AppendFinalizedIf(b, c, true, APIC, p);
    NamesCount(c, p);
    assert p.log[2] == three[2];
    RefsPrefix(two, p.log, c.frontPadding);
    assert p.names == [FACS, DSDT, FACP, APIC]
          && [] + [Some(fadtOffset)] + [madtOffset] == [Some(fadtOffset), madtOffset];
  }

  lemma NamesCount(c: Config, p: Progress)
    requires Logged(c, p.names, p.log)
    ensures |p.names| == |p.log|
  {
  }

  // ----- the optional tables -----

  datatype Optional = Optional(vmgenid: Option<u32>, hpet: Option<u32>, tcpa: Option<u32>, srat: Option<u32>,
        slit: Option<u32>,
                               hmat: Option<u32>, mcfg: Option<u32>, iommu: Option<u32>, nfit: Option<u32>,
                                     cedt: Option<u32>)

  function OptionalSlots(o: Optional): seq<Option<u32>> {
    [o.vmgenid] + [o.hpet] + [o.tcpa] + [o.srat] + [o.slit] + [o.hmat] + [o.mcfg] + [o.iommu] + [o.nfit] + [o.cedt]
  }

  /** The progress made since `p`: these names, these slots. */
  ghost predicate Advanced(p: Progress, q: Progress, names: seq<TableName>, slots: seq<Option<u32>>) {
    q.names == p.names + names && q.slots == p.slots + slots && p.log <= q.log
  }

  lemma Advance(c: Config, p: Progress, q: Progress, r: Progress, names: seq<TableName>, slots: seq<Option<u32>>,
                present: bool, n: TableName, offset: Option<u32>)
    requires Advanced(p, q, names, slots) && Moved(c, q, r, present, n, offset)
    ensures Advanced(p, r, names + OneIf(present, n), slots + [offset])
  {
  }

  method AppendEarlier(b: AcpiBlobBuilder, c: Config, ghost p: Progress)
    returns (vmgenid: Option<u32>, hpet: Option<u32>, tcpa: Option<u32>, srat: Option<u32>, slit: Option<u32>,
          ghost q: Progress)
    requires Building(b, c, p)
    modifies b
    ensures Building(b, c, q)
    ensures Advanced(p, q, EarlierNames(c), [vmgenid] + [hpet] + [tcpa] + [srat] + [slit])
  {
    hide Building, Moved, Advanced, OneIf, TpmName;
    ghost var r;
    vmgenid, q := AppendPlaceholderIf(b, c, c.hasVmgenid, SSDT, p);
    FirstAdvance(c, p, q, c.hasVmgenid, SSDT, vmgenid);
    ghost var ns, ss := OneIf(c.hasVmgenid, SSDT), [vmgenid];
    hpet, r := AppendFinalizedIf(b, c, c.hasHpet, HPET, q);
    Advance(c, p, q, r, ns, ss, c.hasHpet, HPET, hpet);
    ns, ss, q := ns + OneIf(c.hasHpet, HPET), ss + [hpet], r;
    TpmPlaceholder(c);
    tcpa, r := AppendPlaceholderIf(b, c, c.tpm.Some?, TpmName(c), q);
    Advance(c, p, q, r, ns, ss, c.tpm.Some?, TpmName(c), tcpa);
    ns, ss, q := ns + OneIf(c.tpm.Some?, TpmName(c)), ss + [tcpa], r;
    srat, r := AppendPlaceholderIf(b, c, c.hasNuma, SRAT, q);
    Advance(c, p, q, r, ns, ss, c.hasNuma, SRAT, srat);
    ns, ss, q := ns + OneIf(c.hasNuma, SRAT), ss + [srat], r;
    slit, r := AppendPlaceholderIf(b, c, c.hasSlit, SLIT, q);
    Advance(c, p, q, r, ns, ss, c.hasSlit, SLIT, slit);
    ns, ss, q := ns + OneIf(c.hasSlit, SLIT), ss + [slit], r;
  }

  lemma TpmPlaceholder(c: Config)
    ensures Placeholder(TpmName(c)) && Placeholder(IommuName(c))
  {
  }

  method AppendLater(b: AcpiBlobBuilder, c: Config, ghost p: Progress)
    returns (hmat: Option<u32>, mcfg: Option<u32>, iommu: Option<u32>, nfit: Option<u32>, cedt: Option<u32>,
          ghost q: Progress)
    requires Building(b, c, p)
    modifies b
    ensures Building(b, c, q)
    ensures Advanced(p, q, LaterNames(c), [hmat] + [mcfg] + [iommu] + [nfit] + [cedt])
  {
    hide Building, Moved, Advanced, OneIf, IommuName;
    ghost var r;
    hmat, q := AppendPlaceholderIf(b, c, c.hasHmat, HMAT, p);
    FirstAdvance(c, p, q, c.hasHmat, HMAT, hmat);
    ghost var ns, ss := OneIf(c.hasHmat, HMAT), [hmat];
    mcfg, r := AppendFinalizedIf(b, c, c.hasMcfg, MCFG, q);
    Advance(c, p, q, r, ns, ss, c.hasMcfg, MCFG, mcfg);
    ns, ss, q := ns + OneIf(c.hasMcfg, MCFG), ss + [mcfg], r;
    TpmPlaceholder(c);
    iommu, r := AppendPlaceholderIf(b, c, c.iommu.Some?, IommuName(c), q);
    Advance(c, p, q, r, ns, ss, c.iommu.Some?, IommuName(c), iommu);
    ns, ss, q := ns + OneIf(c.iommu.Some?, IommuName(c)), ss + [iommu], r;
    nfit, r := AppendPlaceholderIf(b, c, c.nvdimm, NFIT, q);
    Advance(c, p, q, r, ns, ss, c.nvdimm, NFIT, nfit);
    ns, ss, q := ns + OneIf(c.nvdimm, NFIT), ss + [nfit], r;
    cedt, r := AppendPlaceholderIf(b, c, c.cxl, CEDT, q);
    Advance(c, p, q, r, ns, ss, c.cxl, CEDT, cedt);
    ns, ss, q := ns + OneIf(c.cxl, CEDT), ss + [cedt], r;
  }

  method AppendOptional(b: AcpiBlobBuilder, c: Config, ghost p: Progress) returns (o: Optional, ghost q: Progress)
    requires Building(b, c, p)
    modifies b
    ensures Building(b, c, q) && Advanced(p, q, EarlierNames(c) + LaterNames(c), OptionalSlots(o))
  {
    hide Building, OneIf, EarlierNames, LaterNames;
    var vmgenid, hpet, tcpa, srat, slit, hmat, mcfg, iommu, nfit, cedt;
    vmgenid, hpet, tcpa, srat, slit, q := AppendEarlier(b, c, p);
    ghost var half := q;
    hmat, mcfg, iommu, nfit, cedt, q := AppendLater(b, c, half);
    o := Optional(vmgenid, hpet, tcpa, srat, slit, hmat, mcfg, iommu, nfit, cedt);
    assert OptionalSlots(o) == ([vmgenid] + [hpet] + [tcpa] + [srat] + [slit]) + ([hmat] + [mcfg] + [iommu]
          + [nfit] + [cedt]);
    assert q.names == p.names + (EarlierNames(c) + LaterNames(c));
    assert q.slots == p.slots + OptionalSlots(o);
  }

  lemma FirstAdvance(c: Config, p: Progress, q: Progress, present: bool, n: TableName, offset: Option<u32>)
    requires Moved(c, p, q, present, n, offset)
    ensures Advanced(p, q, OneIf(present, n), [offset])
  {
  }

  // ----- the RSDT -----

  function Addresses(base: u64, offsets: seq<u32>): (r: seq<u64>)
    ensures |r| == |offsets|
    ensures forall j :: 0 <= j < |offsets| ==> r[j] == (base + offsets[j]) % 0x1_0000_0000_0000_0000
  {
    if offsets == [] then []
    else [(base + offsets[0]) % 0x1_0000_0000_0000_0000] + Addresses(base, offsets[1..])
  }

  lemma AddressesAppend(base: u64, xs: seq<u32>, ys: seq<u32>)
    ensures Addresses(base, xs + ys) == Addresses(base, xs) + Addresses(base, ys)
  {
    hide Addresses;
    var all, parts := Addresses(base, xs + ys), Addresses(base, xs) + Addresses(base, ys);
    assert forall j :: 0 <= j < |all| ==> all[j] == parts[j];
  }

  /** The address of a table goes into the RSDT only if the table is there. */
  method PushEntry(b: AcpiBlobBuilder, entries: seq<u64>, slot: Option<u32>, ghost slots: seq<Option<u32>>)
    returns (r: seq<u64>)
    requires entries == Addresses(b.baseAddress, Present(slots))
    ensures r == Addresses(b.baseAddress, Present(slots + [slot]))
  {
    hide Present, Addresses;
    PresentMore(slots, slot);
    AddressesAppend(b.baseAddress, Present(slots), One(slot));
    r := entries;
    if slot.Some? {
      OneAddress(b.baseAddress, slot.value);
      r := r + [b.AddressOf(slot.value)];
    } else {
      NoAddress(b.baseAddress);
    }
  }

  lemma OneAddress(base: u64, offset: u32)
    ensures Addresses(base, [offset]) == [(base + offset) % 0x1_0000_0000_0000_0000]
  {
  }

  lemma NoAddress(base: u64)
    ensures Addresses(base, []) == []
  {
  }

  method CollectEntries(b: AcpiBlobBuilder, fadt: u32, madt: u32, o: Optional, waet: u32) returns (entries: seq<u64>)
    ensures entries == Addresses(b.baseAddress, Present([Some(fadt), Some(madt)] + OptionalSlots(o) + [Some(waet)]))
  {
    hide Present, Addresses;
    ghost var ss := [Some(fadt), Some(madt)];
    FirstEntries(b.baseAddress, fadt, madt);
    entries := [b.AddressOf(fadt), b.AddressOf(madt)];
    entries := PushEntry(b, entries, o.vmgenid, ss);
    ss := ss + [o.vmgenid];
    entries := PushEntry(b, entries, o.hpet, ss);
    ss := ss + [o.hpet];
    entries := PushEntry(b, entries, o.tcpa, ss);
    ss := ss + [o.tcpa];
    entries := PushEntry(b, entries, o.srat, ss);
    ss := ss + [o.srat];
    entries := PushEntry(b, entries, o.slit, ss);
    ss := ss + [o.slit];
    entries := PushEntry(b, entries, o.hmat, ss);
    ss := ss + [o.hmat];
    entries := PushEntry(b, entries, o.mcfg, ss);
    ss := ss + [o.mcfg];
    entries := PushEntry(b, entries, o.iommu, ss);
    ss := ss + [o.iommu];
    entries := PushEntry(b, entries, o.nfit, ss);
    ss := ss + [o.nfit];
    entries := PushEntry(b, entries, o.cedt, ss);
    ss := ss + [o.cedt];
    assert ss == [Some(fadt), Some(madt)] + OptionalSlots(o);
    entries := PushEntry(b, entries, Some(waet), ss);
  }

  lemma FirstEntries(base: u64, fadt: u32, madt: u32)
    ensures Addresses(base, Present([Some(fadt), Some(madt)])) ==
            [(base + fadt) % 0x1_0000_0000_0000_0000, (base + madt) % 0x1_0000_0000_0000_0000]
  {
    hide Addresses;
    PresentMore([], Some(fadt));
    PresentMore([Some(fadt)], Some(madt));
    assert [] + [Some(fadt)] == [Some(fadt)] && [Some(fadt)] + [Some(madt)] == [Some(fadt), Some(madt)];
    assert Present([Some(fadt), Some(madt)]) == [fadt] + [madt];
    AddressesAppend(base, [fadt], [madt]);
    OneAddress(base, fadt);
    OneAddress(base, madt);
  }

  // ----- the result -----

  datatype TableLayout = TableLayout(offset: u32, length: u32, checksumOffset: u32)

  datatype Built = Built(data: seq<byte>, tables: seq<TableRef>, rsdp: seq<byte>, layout: map<Bytes4, TableLayout>)

  /** Where the table lies, and where its checksum is: nine bytes behind its start. */
  predicate LaidOut(l: TableLayout, r: TableRef) {
    l.offset == r.offset && l.length == r.length && l.checksumOffset == (r.offset + 9) % 0x1_0000_0000
  }

  /** The layout has an entry for each table, and no other. */
  ghost predicate LayoutOf(tables: seq<TableRef>, layout: map<Bytes4, TableLayout>) {
    (forall k :: 0 <= k < |tables| ==>
       tables[k].signature in layout && LaidOut(layout[tables[k].signature], tables[k]))
    && forall s :: s in layout ==> exists k :: 0 <= k < |tables| && tables[k].signature == s
  }

  predicate DistinctSignatures(tables: seq<TableRef>) {
    forall i, j :: 0 <= i < j < |tables| ==> tables[i].signature != tables[j].signature
  }

  method BuildLayout(tables: seq<TableRef>) returns (layout: map<Bytes4, TableLayout>)
    requires DistinctSignatures(tables)
    ensures LayoutOf(tables, layout)
  {
    layout := map[];
    for i := 0 to |tables|
      invariant forall k :: 0 <= k < i ==>
                  tables[k].signature in layout && LaidOut(layout[tables[k].signature], tables[k])
      invariant forall s :: s in layout ==> exists k :: 0 <= k < i && tables[k].signature == s
    {
      var r := tables[i];
      layout := layout[r.signature := TableLayout(r.offset, r.length, (r.offset + 9) % 0x1_0000_0000)];
    }
  }

  /** The tables of the configuration, in order. */
  predicate Lists(c: Config, tables: seq<TableRef>) {
    |tables| == |Names(c)| && forall k :: 0 <= k < |tables| ==> tables[k].signature == Code(Names(c)[k])
  }

  /** Every table is whole and as it should be. */
  predicate AllProper(c: Config, built: Built) {
    forall k :: 0 <= k < |built.tables| && k < |Names(c)| ==> Proper(c, Names(c)[k], Slice(built.data, built.tables[k]))
  }

  function AddressOfTable(c: Config, built: Built, k: nat): nat
    requires k < |built.tables|
  {
    c.base + built.tables[k].offset
  }

  /** The FADT leads to the FACS and, by both fields, to the DSDT; all its other fields are those of the
      registers of the configuration. */
  ghost predicate FadtLeads(c: Config, built: Built) {
    |built.tables| > 2 &&
    var t := Slice(built.data, built.tables[2]);
    (exists facs, dsdt :: Fadt.IsFadt(t, c.registers.(cpus := |c.cpuApicIds|), facs, dsdt))
    && |t| == 244 && FromLe(t[36..40]) == AddressOfTable(c, built, 0)
    && FromLe(t[40..44]) == AddressOfTable(c, built, 1) && FromLe(t[140..148]) == AddressOfTable(c, built, 1)
  }

  /** The RSDT, the last table, lists every table but the first two and itself, in order. */
  predicate RsdtLeads(c: Config, built: Built) {
    var n := |built.tables|;
    n > 3 &&
    var t := Slice(built.data, built.tables[n - 1]);
    |t| == HEADER_LEN + 4 * (n - 3)
    && forall j :: 0 <= j < n - 3 ==> FromLe(Slot32(t, j)) == AddressOfTable(c, built, j + 2)
  }

  predicate RsdpLeads(c: Config, built: Built) {
    |built.tables| > 0 && |built.rsdp| == 20 && Sum(built.rsdp) % 256 == 0
    && built.rsdp[..8] == Ascii("RSD PTR ") && built.rsdp[9..15] == c.ids.oemId && built.rsdp[15] == 0
    && FromLe(built.rsdp[16..]) == AddressOfTable(c, built, |built.tables| - 1)
  }

  // ----- from the log to the blob -----

  /** The entries written into the RSDT. */
  ghost predicate RsdtHolds(c: Config, log: seq<Table>, t: seq<byte>)
    requires |log| > 3
  {
    |t| == HEADER_LEN + 4 * (|log| - 3)
    && forall j :: 0 <= j < |log| - 3 ==> Slot32(t, j) == Le(AddressIn(c, log, j + 2) % 0x1_0000_0000, 4)
  }

  /** What the steps leave behind, in terms of what was appended. */
  ghost predicate Linked(c: Config, log: seq<Table>, rsdp: seq<byte>) {
    var n := |log|;
    n > 3 && Logged(c, Names(c), log)
    && FadtPoints(c, log[2].bytes, AddressIn(c, log, 0), AddressIn(c, log, 1))
    && RsdtHolds(c, log, log[n - 1].bytes)
    && |rsdp| == 20 && rsdp[16..] == Le(AddressIn(c, log, n - 1) % 0x1_0000_0000, 4)
  }

  /** Below 4 GiB an address survives the truncation to 32 bits. */
  lemma AddressFits(address: u64)
    requires address < 0x1_0000_0000
    ensures FromLe(Le(address % 0x1_0000_0000, 4)) == address && FromLe(Le(address, 8)) == address
  {
    hide Le, FromLe;
    PowersOf256();
    LeFits(address, 4);
    LeFits(address, 8);
  }

  /** The address written for a table is where the table is. */
  lemma AddressIs(c: Config, built: Built, log: seq<Table>, k: nat)
    requires k < |log| && AllStand(built.data, built.tables, log) && built.tables == Refs(log, c.frontPadding)
    requires c.base + |built.data| < 0x1_0000_0000
    ensures |built.tables| == |log| && AddressIn(c, log, k) == AddressOfTable(c, built, k)
    ensures FromLe(Le(AddressIn(c, log, k) % 0x1_0000_0000, 4)) == AddressIn(c, log, k)
    ensures FromLe(Le(AddressIn(c, log, k), 8)) == AddressIn(c, log, k)
  {
    hide Refs, Le, FromLe, Slice;
    assert Stands(built.data, built.tables[k], log[k]);
    var address: u64 := c.base + built.tables[k].offset;
    AddressFits(address);
  }

  lemma Conclude(c: Config, built: Built, log: seq<Table>)
    requires Linked(c, log, built.rsdp) && built.tables == Refs(log, c.frontPadding)
    requires built.data == Fill(c.frontPadding, 1) + Concat(log) && c.base + |built.data| < 0x1_0000_0000
    ensures Tiles(built.tables, c.frontPadding, |built.data|)
    ensures AllProper(c, built) && FadtLeads(c, built) && RsdtLeads(c, built)
    ensures FromLe(built.rsdp[16..]) == AddressOfTable(c, built, |built.tables| - 1)
  {
    hide Refs, Concat, Tiles, AllProper, FadtLeads, RsdtLeads, Logged, FadtPoints, Le, FromLe, Names;
    Tiling(built.data, c.frontPadding, log);
    ProperThere(c, built, log);
    FadtThere(c, built, log);
    RsdtThere(c, built, log);
    AddressIs(c, built, log, |log| - 1);
  }

  lemma ProperThere(c: Config, built: Built, log: seq<Table>)
    requires AllStand(built.data, built.tables, log) && Logged(c, Names(c), log)
    ensures AllProper(c, built)
  {
    hide Proper, Code, Names, Slice;
    forall k | 0 <= k < |built.tables|
      ensures Proper(c, Names(c)[k], Slice(built.data, built.tables[k]))
    {
      assert Stands(built.data, built.tables[k], log[k]);
    }
  }

  lemma FadtThere(c: Config, built: Built, log: seq<Table>)
    requires AllStand(built.data, built.tables, log) && built.tables == Refs(log, c.frontPadding)
    requires c.base + |built.data| < 0x1_0000_0000 && |log| > 2
    requires FadtPoints(c, log[2].bytes, AddressIn(c, log, 0), AddressIn(c, log, 1))
    ensures FadtLeads(c, built)
  {
    hide Refs, Le, FromLe, Slice, AddressIn;
    AddressIs(c, built, log, 0);
    AddressIs(c, built, log, 1);
    assert Stands(built.data, built.tables[2], log[2]);
  }

  lemma RsdtThere(c: Config, built: Built, log: seq<Table>)
    requires AllStand(built.data, built.tables, log) && built.tables == Refs(log, c.frontPadding)
    requires c.base + |built.data| < 0x1_0000_0000 && |log| > 3
    requires RsdtHolds(c, log, log[|log| - 1].bytes)
    ensures RsdtLeads(c, built)
  {
    hide Refs, Le, FromLe, Slice, AddressIn, Slot32;
    var n, t := |log|, log[|log| - 1].bytes;
    assert Stands(built.data, built.tables[n - 1], log[n - 1]);
    forall j | 0 <= j < n - 3
      ensures FromLe(Slot32(t, j)) == AddressOfTable(c, built, j + 2)
    {
      assert Slot32(t, j) == Le(AddressIn(c, log, j + 2) % 0x1_0000_0000, 4);
      AddressIs(c, built, log, j + 2);
    }
  }

  lemma SignaturesDistinct(c: Config, tables: seq<TableRef>)
    requires Lists(c, tables)
    ensures DistinctSignatures(tables)
  {
    hide Names, Code;
    forall i, j | 0 <= i < j < |tables|
      ensures tables[i].signature != tables[j].signature
    {
      NamesDistinct(c, i, j);
      if tables[i].signature == tables[j].signature {
        CodeInjective(Names(c)[i], Names(c)[j]);
      }
    }
  }

  lemma LogLists(c: Config, log: seq<Table>, start: nat)
    requires Logged(c, Names(c), log)
    ensures Lists(c, Refs(log, start))
  {
    hide Proper, Names, Code;
    RefsSignatures(log, start);
  }

  lemma {:induction false} RefsSignatures(log: seq<Table>, start: nat)
    ensures forall k :: 0 <= k < |log| ==> Refs(log, start)[k].signature == log[k].signature
  {
    if log != [] {
      RefsSignatures(log[1..], start + |log[0].bytes|);
    }
  }

  /** All tables up to the WAET, and the RSDT entries for them. */
  method AppendTables(b: AcpiBlobBuilder, c: Config) returns (entries: seq<u64>, ghost p: Progress)
    requires b.baseAddress == c.base && b.data == Fill(c.frontPadding, 1) && b.tables == []
    modifies b
    ensures Building(b, c, p) && p.names + [RSDT] == Names(c) && |p.log| > 3
    ensures FadtPoints(c, p.log[2].bytes, AddressIn(c, p.log, 0), AddressIn(c, p.log, 1))
    ensures |entries| == |p.log| - 2
    ensures forall j :: 0 <= j < |entries| ==> entries[j] == AddressIn(c, p.log, j + 2)
  {
    hide Proper, Code, Logged, Concat, Refs, FadtPoints, EarlierNames, LaterNames, Building;
    var fadt, madt, o, waet;
    fadt, madt, p := AppendFirst(b, c);
    ghost var first := p;
    o, p := AppendOptional(b, c, p);
    ghost var second := p;
    waet, p := AppendFinalizedIf(b, c, true, WAET, p);
    entries := CollectEntries(b, fadt, madt.value, o, waet.value);
    assert p.slots == [Some(fadt), Some(madt.value)] + OptionalSlots(o) + [Some(waet.value)];
    EntriesAre(b, c, p, entries);
    RefsPrefix(first.log, p.log, c.frontPadding);
    OneIfTrue(WAET);
    assert p.names == [FACS, DSDT, FACP, APIC] + EarlierNames(c) + LaterNames(c) + [WAET];
    assert p.log[2] == first.log[2];
  }

  lemma EntriesAre(b: AcpiBlobBuilder, c: Config, p: Progress, entries: seq<u64>)
    requires Building(b, c, p) && entries == Addresses(b.baseAddress, Present(p.slots))
    ensures |entries| == |p.log| - 2
    ensures forall j :: 0 <= j < |entries| ==> entries[j] == AddressIn(c, p.log, j + 2)
  {
    hide Proper, Code, Logged, Concat, Refs, Present, Addresses;
  }

  lemma RsdtProper(c: Config, t: seq<byte>)
    requires |t| >= HEADER_LEN && IsTable(t, Header(c.ids, RSDT_SIGNATURE, 1), t[HEADER_LEN..])
    ensures Proper(c, RSDT, t)
  {
  }

  /** The pointers written along the way are still right when the RSDT has been appended. */
  lemma LinkedUp(c: Config, before: seq<Table>, rsdt: seq<byte>, entries: seq<u64>, rsdp: seq<byte>)
    requires |before| > 3 && FadtPoints(c, before[2].bytes, AddressIn(c, before, 0), AddressIn(c, before, 1))
    requires |entries| == |before| - 2 && |rsdt| == HEADER_LEN + 4 * |entries|
    requires forall j :: 0 <= j < |entries| ==> entries[j] == AddressIn(c, before, j + 2)
    requires forall j :: 0 <= j < |entries| ==> Slot32(rsdt, j) == Le(entries[j] % 0x1_0000_0000, 4)
    requires var log := before + [Table(Code(RSDT), rsdt)];
             Logged(c, Names(c), log) && |rsdp| == 20
             && rsdp[16..] == Le(AddressIn(c, log, |before|) % 0x1_0000_0000, 4)
    ensures Linked(c, before + [Table(Code(RSDT), rsdt)], rsdp)
  {
    hide Refs, Le, Names, Code, Logged, FadtPoints, Slot32;
    var log := before + [Table(Code(RSDT), rsdt)];
    RefsPrefix(before, log, c.frontPadding);
    assert forall k :: 0 <= k < |before| ==> AddressIn(c, log, k) == AddressIn(c, before, k);
    assert log[2] == before[2];
  }

  /** build_minimal_acpi: the tables of the configuration, each once, behind the padding; and as
      long as the blob ends below 4 GiB they tile it, each is whole and (but for the FACS) adds up
      to 0, and RSDP, RSDT and FADT lead to all of them. */
  method BuildMinimalAcpi(c: Config) returns (built: Built)
    ensures Lists(c, built.tables) && LayoutOf(built.tables, built.layout)
    ensures Fill(c.frontPadding, 1) <= built.data
    ensures c.base + |built.data| < 0x1_0000_0000 ==>
              Tiles(built.tables, c.frontPadding, |built.data|) && AllProper(c, built)
              && FadtLeads(c, built) && RsdtLeads(c, built) && RsdpLeads(c, built)
  {
    hide Proper, Code, Logged, Concat, Refs, FadtPoints, Names, Lists, LayoutOf, Tiles, AllProper, Le, FromLe,
          Slot32, IsTable;
    hide Slotted, FadtLeads, RsdtLeads, Sum;
    var b := new AcpiBlobBuilder(c.base);
    if c.frontPadding > 0 {
      b.ReserveFront(c.frontPadding);
    }
    assert b.data == Fill(c.frontPadding, 1);
    var entries;
    ghost var p;
    entries, p := AppendTables(b, c);
    ghost var before := p.log;
    var rsdt := BuildRsdt(c.ids, entries);
    RsdtProper(c, rsdt);
    var rsdtOffset;
    rsdtOffset, p := Append(b, c, RSDT, rsdt, p);
    var rsdp := BuildRsdp(c.ids, b.AddressOf(rsdtOffset));
    LogLists(c, p.log, c.frontPadding);
    SignaturesDistinct(c, b.tables);
    var layout := BuildLayout(b.tables);
    built := Built(b.data, b.tables, rsdp, layout);
    LinkedUp(c, before, rsdt, entries, rsdp);
    if c.base + |built.data| < 0x1_0000_0000 {
      Conclude(c, built, p.log);
    }
  }
}

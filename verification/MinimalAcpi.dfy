/** build_minimal_acpi of src/acpi/mod.rs: all tables in one blob, the RSDT and the RSDP pointing
    at them, and the layout. */
module MinimalAcpi {
  import opened Bytes
  import opened AcpiTable
  import Fadt
  import DsdtPadding

  datatype TableName =
    | FACS | DSDT | FACP | APIC | SSDT | HPET | TCPA | TPM2 | SRAT | SLIT | HMAT | MCFG
    | DMAR | IVRS | VIOT | NFIT | CEDT | WAET | RSDT

  function Code(n: TableName): Bytes4 {
    match n
    case FACS => [0x46, 0x41, 0x43, 0x53] case DSDT => [0x44, 0x53, 0x44, 0x54]
    case FACP => [0x46, 0x41, 0x43, 0x50] case APIC => [0x41, 0x50, 0x49, 0x43]
    case SSDT => [0x53, 0x53, 0x44, 0x54] case HPET => [0x48, 0x50, 0x45, 0x54]
    case TCPA => [0x54, 0x43, 0x50, 0x41] case TPM2 => [0x54, 0x50, 0x4D, 0x32]
    case SRAT => [0x53, 0x52, 0x41, 0x54] case SLIT => [0x53, 0x4C, 0x49, 0x54]
    case HMAT => [0x48, 0x4D, 0x41, 0x54] case MCFG => [0x4D, 0x43, 0x46, 0x47]
    case DMAR => [0x44, 0x4D, 0x41, 0x52] case IVRS => [0x49, 0x56, 0x52, 0x53]
    case VIOT => [0x56, 0x49, 0x4F, 0x54] case NFIT => [0x4E, 0x46, 0x49, 0x54]
    case CEDT => [0x43, 0x45, 0x44, 0x54] case WAET => [0x57, 0x41, 0x45, 0x54]
    case RSDT => [0x52, 0x53, 0x44, 0x54]
  }

  datatype TpmKind = Tcpa | Tpm2
  datatype IommuKind = Dmar | Ivrs | Viot

  /** PlatformConfig.  The AML of the unpadded DSDT and the bodies of the MADT, HPET, MCFG and WAET
      are given as byte strings. */
  datatype Config = Config(
    base: u64, frontPadding: u32, ids: Ids, registers: Fadt.Registers,
    cpuApicIds: seq<u32>, pciDevices: nat, compatLengths: bool,
    hasVmgenid: bool, hasHpet: bool, tpm: Option<TpmKind>, hasNuma: bool, hasSlit: bool, hasHmat: bool,
    hasMcfg: bool, iommu: Option<IommuKind>, nvdimm: bool, cxl: bool,
    dsdtBody: seq<byte>, madtBody: seq<byte>, hpetBody: seq<byte>, mcfgBody: seq<byte>, waetBody: seq<byte>)

  // ----- config.rs and the placeholder lengths -----

  /** target_dsdt_len, with wrapping 32-bit arithmetic. */
  function TargetDsdtLen(c: Config): Option<u32> {
    if !c.compatLengths then None
    else
      var cpus := |c.cpuApicIds| % 0x1_0000_0000;
      var start := if cpus == 2 then 8028 else if 3 <= cpus <= 16 then 8029 else 8031;
      Some((start + 86 * cpus + (if c.hasHpet then 142 else 0) + 17 * c.pciDevices) % 0x1_0000_0000)
  }

  /** With one CPU the target is 8117.  A second one makes it 83 longer, a third one 87, a seventeenth
      88 and any other 86; the HPET makes it 142 longer and each PCI device 17. */
  lemma TargetLengths(c: Config, id: u32)
    requires c.compatLengths && 86 * |c.cpuApicIds| + 17 * c.pciDevices < 0xFFFF_0000
    ensures TargetDsdtLen(c).Some? && TargetDsdtLen(c.(compatLengths := false)) == None
    ensures |c.cpuApicIds| == 1 && !c.hasHpet && c.pciDevices == 0 ==> TargetDsdtLen(c) == Some(8117)
    ensures var v, n := TargetDsdtLen(c).value, |c.cpuApicIds|;
            TargetDsdtLen(c.(pciDevices := c.pciDevices + 1)) == Some(v + 17)
            && (!c.hasHpet ==> TargetDsdtLen(c.(hasHpet := true)) == Some(v + 142))
            && TargetDsdtLen(c.(cpuApicIds := c.cpuApicIds + [id]))
               == Some(v + if n == 1 then 83 else if n == 2 then 87 else if n == 16 then 88 else 86)
  {
    var n := |c.cpuApicIds|;
    TargetFits(c);
    TargetFits(c.(pciDevices := c.pciDevices + 1));
    TargetFits(c.(hasHpet := true));
    TargetFits(c.(cpuApicIds := c.cpuApicIds + [id]));
    hide TargetDsdtLen;
  }

  lemma TargetFits(c: Config)
    requires c.compatLengths && 86 * |c.cpuApicIds| + 17 * c.pciDevices < 0xFFFF_1000
    ensures var n := |c.cpuApicIds|;
            TargetDsdtLen(c) == Some(86 * n + 17 * c.pciDevices + (if c.hasHpet then 142 else 0)
                                     + if n == 2 then 8028 else if 3 <= n <= 16 then 8029 else 8031)
  {
    var n := |c.cpuApicIds|;
    ModUnique(n, 0x1_0000_0000, 0, n);
    var v := 86 * n + 17 * c.pciDevices + (if c.hasHpet then 142 else 0)
             + if n == 2 then 8028 else if 3 <= n <= 16 then 8029 else 8031;
    ModUnique(v, 0x1_0000_0000, 0, v);
  }

  function CpuLen(ids: seq<u32>): nat {
    if ids == [] then 0 else (if ids[0] < 255 then 16 else 24) + CpuLen(ids[1..])
  }

  /** optional_table_len */
  function OptionalTableLen(n: TableName, c: Config): u32 {
    match n
    case TCPA => 50 case TPM2 => 52
    case SRAT => (48 + CpuLen(c.cpuApicIds)) % 0x1_0000_0000
    case SLIT => 45 case HMAT => 40 case MCFG => 60 case DMAR => 60 case IVRS => 64 case VIOT => 48
    case NFIT => 40 case CEDT => 36 case SSDT => 202
    case _ => 36
  }

  // ----- what each table should be -----

  predicate Placeholder(n: TableName) {
    n.SSDT? || n.TCPA? || n.TPM2? || n.SRAT? || n.SLIT? || n.HMAT? || n.DMAR? || n.IVRS? || n.VIOT? || n.NFIT?
    || n.CEDT?
  }

  function Revision(n: TableName): byte { if n == APIC || n == FACP then 3 else 1 }

  predicate Finalized(c: Config, n: TableName, t: seq<byte>) {
    |t| >= HEADER_LEN && IsTable(t, Header(c.ids, Code(n), Revision(n)), t[HEADER_LEN..])
  }

  /** The DSDT extends its body.  With its header of 36 bytes it reaches the target length when some
      padding gets there, and exceeds it by at most 9 bytes otherwise. */
  predicate DsdtSized(c: Config, body: seq<byte>) {
    c.dsdtBody <= body
    && match TargetDsdtLen(c)
       case None => body == c.dsdtBody
       case Some(n) =>
         if n <= 36 + |c.dsdtBody| then body == c.dsdtBody
         else if DsdtPadding.Gap(n - 36 - |c.dsdtBody|) then n < 36 + |body| <= n + 9
         else 36 + |body| == n
  }

  predicate IsFacs(t: seq<byte>) {
    |t| == 64 && t[..4] == Code(FACS) && t[4..8] == Le(64, 4) && forall i :: 8 <= i < 64 ==> t[i] == 0
  }

  /** What a table's bytes are, apart from pointers to other tables. */
  predicate Proper(c: Config, n: TableName, t: seq<byte>) {
    if n == FACS then IsFacs(t)
    else if Placeholder(n) then t == Fill(OptionalTableLen(n, c), 0)
    else
      Finalized(c, n, t)
      && match n
         case DSDT => DsdtSized(c, t[HEADER_LEN..])
         case APIC => t[HEADER_LEN..] == c.madtBody
         case HPET => t[HEADER_LEN..] == c.hpetBody
         case MCFG => t[HEADER_LEN..] == c.mcfgBody
         case WAET => t[HEADER_LEN..] == c.waetBody
         case _ => true
  }

  // ----- signatures, revisions and lengths -----

  /** The signature as it is written. */
  function Text(n: TableName): string {
    match n
    case FACS => "FACS" case DSDT => "DSDT" case FACP => "FACP" case APIC => "APIC" case SSDT => "SSDT"
    case HPET => "HPET" case TCPA => "TCPA" case TPM2 => "TPM2" case SRAT => "SRAT" case SLIT => "SLIT"
    case HMAT => "HMAT" case MCFG => "MCFG" case DMAR => "DMAR" case IVRS => "IVRS" case VIOT => "VIOT"
    case NFIT => "NFIT" case CEDT => "CEDT" case WAET => "WAET" case RSDT => "RSDT"
  }

  lemma CodeIsText(n: TableName)
    ensures Code(n) == Ascii(Text(n))
  {
    assert |Text(n)| == 4;
    assert Ascii(Text(n))[0] == Code(n)[0] && Ascii(Text(n))[1] == Code(n)[1];
    assert Ascii(Text(n))[2] == Code(n)[2] && Ascii(Text(n))[3] == Code(n)[3];
  }

  /** A finished table says what it is: signature, length, revision 3 for FADT and MADT and 1 otherwise,
      and the ids of the configuration. */
  lemma ProperHeader(c: Config, n: TableName, t: seq<byte>)
    requires Proper(c, n, t) && n != FACS && !Placeholder(n)
    ensures |t| >= 36 && t[0..4] == Ascii(Text(n)) && t[4..8] == Le(|t| % 0x1_0000_0000, 4)
    ensures t[8] == (if n == FACP || n == APIC then 3 else 1)
    ensures t[10..16] == c.ids.oemId && t[16..24] == c.ids.oemTableId && t[24..28] == Le(c.ids.oemRevision, 4)
    ensures t[28..32] == c.ids.creatorId && t[32..36] == Le(c.ids.creatorRevision, 4)
  {
    CodeIsText(n);
  }

  /** What the tables without contents have instead: so many zeros. */
  lemma PlaceholderLengths(c: Config)
    ensures forall n :: Placeholder(n) && n != SRAT ==>
              OptionalTableLen(n, c) ==
              (if n == SSDT then 202 else if n == TCPA then 50 else if n == TPM2 then 52 else if n == SLIT then 45
               else if n == HMAT then 40 else if n == DMAR then 60 else if n == IVRS then 64
               else if n == VIOT then 48 else if n == NFIT then 40 else 36)
    ensures 24 * |c.cpuApicIds| < 0xFFFF_0000 ==>
              OptionalTableLen(SRAT, c) == 48 + 16 * |c.cpuApicIds| + 8 * |LargeIds(c.cpuApicIds)|
  {
    CpuLenIs(c.cpuApicIds);
    var n := 48 + CpuLen(c.cpuApicIds);
    if n < 0x1_0000_0000 {
      ModUnique(n, 0x1_0000_0000, 0, n);
    }
  }

  /** The ids that need an x2APIC structure. */
  function LargeIds(ids: seq<u32>): (r: seq<u32>)
    ensures |r| <= |ids|
  {
    if ids == [] then [] else (if ids[0] >= 255 then [ids[0]] else []) + LargeIds(ids[1..])
  }

  lemma {:induction false} CpuLenIs(ids: seq<u32>)
    ensures CpuLen(ids) == 16 * |ids| + 8 * |LargeIds(ids)|
  {
    if ids != [] {
      CpuLenIs(ids[1..]);
    }
  }

  lemma {:induction false} ZeroSum(n: nat)
    ensures Sum(Fill(n, 0)) == 0
  {
    if n > 0 {
      assert Fill(n, 0)[1..] == Fill(n - 1, 0);
      ZeroSum(n - 1);
    }
  }

  /** Every table but the FACS adds up to 0. */
  lemma ProperSums(c: Config, n: TableName, t: seq<byte>)
    requires Proper(c, n, t) && n != FACS
    ensures Sum(t) % 256 == 0
  {
    if Placeholder(n) {
      ZeroSum(OptionalTableLen(n, c));
    }
  }

  // ----- the tables in order -----

  function OneIf(present: bool, n: TableName): seq<TableName> { if present then [n] else [] }

  function TpmName(c: Config): TableName { if c.tpm == Some(Tcpa) then TCPA else TPM2 }

  function IommuName(c: Config): TableName {
    if c.iommu == Some(Dmar) then DMAR else if c.iommu == Some(Ivrs) then IVRS else VIOT
  }

  function EarlierNames(c: Config): seq<TableName> {
    OneIf(c.hasVmgenid, SSDT) + OneIf(c.hasHpet, HPET) + OneIf(c.tpm.Some?, TpmName(c)) + OneIf(c.hasNuma, SRAT)
    + OneIf(c.hasSlit, SLIT)
  }

  function LaterNames(c: Config): seq<TableName> {
    OneIf(c.hasHmat, HMAT) + OneIf(c.hasMcfg, MCFG) + OneIf(c.iommu.Some?, IommuName(c)) + OneIf(c.nvdimm, NFIT)
    + OneIf(c.cxl, CEDT)
  }

  /** The tables of a configuration, in the order they are appended. */
  function Names(c: Config): seq<TableName> {
    [FACS, DSDT, FACP, APIC] + EarlierNames(c) + LaterNames(c) + [WAET] + [RSDT]
  }

  function Rank(n: TableName): nat {
    match n
    case FACS => 0 case DSDT => 1 case FACP => 2 case APIC => 3 case SSDT => 4 case HPET => 5 case TCPA => 6
    case TPM2 => 7 case SRAT => 8 case SLIT => 9 case HMAT => 10 case MCFG => 11 case DMAR => 12 case IVRS => 13
    case VIOT => 14 case NFIT => 15 case CEDT => 16 case WAET => 17 case RSDT => 18
  }

  lemma CodeInjective(m: TableName, n: TableName)
    requires Code(m) == Code(n)
    ensures m == n
  {
    assert Code(m)[0] == Code(n)[0] && Code(m)[1] == Code(n)[1] && Code(m)[2] == Code(n)[2] && Code(m)[3] == Code(n)[3];
  }

  predicate Rising(ns: seq<TableName>, bound: nat) {
    (forall i, j :: 0 <= i < j < |ns| ==> Rank(ns[i]) < Rank(ns[j]))
          && forall i :: 0 <= i < |ns| ==> Rank(ns[i]) < bound
  }

  lemma RisingMore(ns: seq<TableName>, bound: nat, present: bool, n: TableName, bound': nat)
    requires Rising(ns, bound) && bound <= Rank(n) < bound'
    ensures Rising(ns + OneIf(present, n), bound')
  {
  }

  /** Which tables a configuration has. */
  predicate Wanted(c: Config, n: TableName) {
    match n
    case FACS => true case DSDT => true case FACP => true case APIC => true case WAET => true case RSDT => true
    case SSDT => c.hasVmgenid
    case HPET => c.hasHpet
    case TCPA => c.tpm == Some(Tcpa) case TPM2 => c.tpm == Some(Tpm2)
    case SRAT => c.hasNuma case SLIT => c.hasSlit case HMAT => c.hasHmat
    case MCFG => c.hasMcfg
    case DMAR => c.iommu == Some(Dmar) case IVRS => c.iommu == Some(Ivrs) case VIOT => c.iommu == Some(Viot)
    case NFIT => c.nvdimm
    case CEDT => c.cxl
  }

  /** The tables are exactly those wanted, in the fixed order of their ranks. */
  lemma NamesWanted(c: Config)
    ensures forall n :: n in Names(c) <==> Wanted(c, n)
    ensures forall i, j :: 0 <= i < j < |Names(c)| ==> Rank(Names(c)[i]) < Rank(Names(c)[j])
  {
    var ns := [FACS, DSDT, FACP, APIC];
    assert Rising(ns, 4);
    NamesRise(c, ns);
    forall n
      ensures n in Names(c) <==> Wanted(c, n)
    {
      EarlierWanted(c, n);
      LaterWanted(c, n);
      hide EarlierNames, LaterNames;
      assert n in Names(c) <==> n in ns || n in EarlierNames(c) || n in LaterNames(c) || n == WAET || n == RSDT;
    }
  }

  lemma InOneIf(present: bool, m: TableName, n: TableName)
    ensures n in OneIf(present, m) <==> present && n == m
  {
  }

  lemma EarlierWanted(c: Config, n: TableName)
    ensures n in EarlierNames(c) <==> 4 <= Rank(n) < 10 && Wanted(c, n)
  {
    InOneIf(c.hasVmgenid, SSDT, n);
    InOneIf(c.hasHpet, HPET, n);
    InOneIf(c.tpm.Some?, TpmName(c), n);
    InOneIf(c.hasNuma, SRAT, n);
    InOneIf(c.hasSlit, SLIT, n);
    hide OneIf;
    assert n in EarlierNames(c) <==>
           n in OneIf(c.hasVmgenid, SSDT) || n in OneIf(c.hasHpet, HPET) || n in OneIf(c.tpm.Some?, TpmName(c))
           || n in OneIf(c.hasNuma, SRAT) || n in OneIf(c.hasSlit, SLIT);
    hide EarlierNames;
    assert c.tpm.Some? ==> c.tpm.value.Tcpa? || c.tpm.value.Tpm2?;
  }

  lemma LaterWanted(c: Config, n: TableName)
    ensures n in LaterNames(c) <==> 10 <= Rank(n) < 17 && Wanted(c, n)
  {
    InOneIf(c.hasHmat, HMAT, n);
    InOneIf(c.hasMcfg, MCFG, n);
    InOneIf(c.iommu.Some?, IommuName(c), n);
    InOneIf(c.nvdimm, NFIT, n);
    InOneIf(c.cxl, CEDT, n);
    hide OneIf;
    assert n in LaterNames(c) <==>
           n in OneIf(c.hasHmat, HMAT) || n in OneIf(c.hasMcfg, MCFG) || n in OneIf(c.iommu.Some?, IommuName(c))
           || n in OneIf(c.nvdimm, NFIT) || n in OneIf(c.cxl, CEDT);
    hide LaterNames;
    assert c.iommu.Some? ==> c.iommu.value.Dmar? || c.iommu.value.Ivrs? || c.iommu.value.Viot?;
  }

  /** No table is appended twice. */
  lemma NamesDistinct(c: Config, i: nat, j: nat)
    requires i < j < |Names(c)|
    ensures Names(c)[i] != Names(c)[j]
  {
    var ns := [FACS, DSDT, FACP, APIC];
    assert Rising(ns, 4);
    NamesRise(c, ns);
    assert Rank(Names(c)[i]) < Rank(Names(c)[j]);
  }

  lemma NamesRise(c: Config, start: seq<TableName>)
    requires start == [FACS, DSDT, FACP, APIC] && Rising(start, 4)
    ensures Rising(Names(c), 19)
  {
    hide Rising, OneIf, TpmName, IommuName;
    var ns := start;
    RisingMore(ns, 4, c.hasVmgenid, SSDT, 5);
    ns := ns + OneIf(c.hasVmgenid, SSDT);
    RisingMore(ns, 5, c.hasHpet, HPET, 6);
    ns := ns + OneIf(c.hasHpet, HPET);
    NameRanks(c);
    RisingMore(ns, 6, c.tpm.Some?, TpmName(c), 8);
    ns := ns + OneIf(c.tpm.Some?, TpmName(c));
    RisingMore(ns, 8, c.hasNuma, SRAT, 9);
    ns := ns + OneIf(c.hasNuma, SRAT);
    RisingMore(ns, 9, c.hasSlit, SLIT, 10);
    ns := ns + OneIf(c.hasSlit, SLIT);
    assert ns == start + EarlierNames(c);
    LaterRise(c, ns);
  }

  lemma LaterRise(c: Config, early: seq<TableName>)
    requires early == [FACS, DSDT, FACP, APIC] + EarlierNames(c) && Rising(early, 10)
    ensures Rising(Names(c), 19)
  {
    hide Rising, OneIf, TpmName, IommuName, EarlierNames;
    var ns := early;
    RisingMore(ns, 10, c.hasHmat, HMAT, 11);
    ns := ns + OneIf(c.hasHmat, HMAT);
    RisingMore(ns, 11, c.hasMcfg, MCFG, 12);
    ns := ns + OneIf(c.hasMcfg, MCFG);
    NameRanks(c);
    RisingMore(ns, 12, c.iommu.Some?, IommuName(c), 15);
    ns := ns + OneIf(c.iommu.Some?, IommuName(c));
    RisingMore(ns, 15, c.nvdimm, NFIT, 16);
    ns := ns + OneIf(c.nvdimm, NFIT);
    RisingMore(ns, 16, c.cxl, CEDT, 17);
    ns := ns + OneIf(c.cxl, CEDT);
    assert ns == early + LaterNames(c);
    OneIfTrue(WAET);
    OneIfTrue(RSDT);
    RisingMore(ns, 17, true, WAET, 18);
    RisingMore(ns + [WAET], 18, true, RSDT, 19);
  }

  lemma NameRanks(c: Config)
    ensures 6 <= Rank(TpmName(c)) < 8 && 12 <= Rank(IommuName(c)) < 15
  {
  }

  lemma OneIfTrue(n: TableName)
    ensures OneIf(true, n) == [n]
  {
  }
}

/** build_fadt of aml-build.c: the fields of a revision, and pointer commands for the FACS and the
    DSDT. */
module FadtBuild {
  import opened Bytes
  import opened Linker
  import opened LinkerBuild

  datatype Gas = Gas(spaceId: byte, bitWidth: byte, bitOffset: byte, accessWidth: byte, address: u64)

  const NO_GAS := Gas(0, 0, 0, 0, 0)

  /** AcpiFadtData; the offsets are absent where the platform has no such table. */
  datatype FadtData = FadtData(
    rev: byte, minorVer: byte, facs: Option<nat>, dsdt: Option<nat>, xdsdt: Option<nat>,
    intModel: byte, sciInt: u16, smiCmd: u32, acpiEnableCmd: byte, acpiDisableCmd: byte,
    pm1aEvt: Gas, pm1aCnt: Gas, pmTmr: Gas, gpe0Blk: Gas, plvl2Lat: u16, plvl3Lat: u16,
    rtcCentury: byte, iapcBootArch: u16, flags: u32, resetReg: Gas, resetVal: byte, armBootArch: u16,
    sleepCtl: Gas, sleepSts: Gas)

  function GasBytes(g: Gas): (r: seq<byte>)
    ensures |r| == 12
  {
    Le(g.spaceId, 1) + Le(g.bitWidth, 1) + Le(g.bitOffset, 1) + Le(g.accessWidth, 1) + Le(g.address, 8)
  }

  /** INT_MODEL to PSTATE_CNT. */
  function ModelBytes(f: FadtData): (r: seq<byte>)
    ensures |r| == 12
  {
    Le(f.intModel, 1) + Le(0, 1) + Le(f.sciInt, 2) + Le(f.smiCmd, 4) + Le(f.acpiEnableCmd, 1) + Le(f.acpiDisableCmd, 1)
    + Le(0, 1) + Le(0, 1)
  }

  /** PM1a_EVT_BLK to GPE1_BLK; only the low 32 bits of an address are kept. */
  function BlockBytes(f: FadtData): (r: seq<byte>)
    ensures |r| == 32
  {
    Le(f.pm1aEvt.address, 4) + Le(0, 4) + Le(f.pm1aCnt.address, 4) + Le(0, 4) + Le(0, 4) + Le(f.pmTmr.address, 4)
    + Le(f.gpe0Blk.address, 4) + Le(0, 4)
  }

  /** PM1_EVT_LEN to CST_CNT. */
  function LengthBytes(f: FadtData): (r: seq<byte>)
    ensures |r| == 8
  {
    Le(f.pm1aEvt.bitWidth / 8, 1) + Le(f.pm1aCnt.bitWidth / 8, 1) + Le(0, 1) + Le(f.pmTmr.bitWidth / 8, 1)
    + Le(f.gpe0Blk.bitWidth / 8, 1) + Le(0, 1) + Le(0, 1) + Le(0, 1)
  }

  function BootArch(f: FadtData): u16 { if f.rev == 1 then 0 else f.iapcBootArch }

  /** P_LVL2_LAT to MON_ALRM. */
  function LatencyBytes(f: FadtData): (r: seq<byte>)
    ensures |r| == 12
  {
    Le(f.plvl2Lat, 2) + Le(f.plvl3Lat, 2) + Le(0, 2) + Le(0, 2) + Le(0, 1) + Le(0, 1) + Le(0, 1) + Le(0, 1)
  }

  /** CENTURY to Flags. */
  function FlagBytes(f: FadtData): (r: seq<byte>)
    ensures |r| == 8
  {
    Le(f.rtcCentury, 1) + Le(BootArch(f), 2) + Le(0, 1) + Le(f.flags, 4)
  }

  /** ARM_BOOT_ARCH and the minor version since ACPI 5.1, reserved before. */
  function VersionBytes(f: FadtData): (r: seq<byte>)
    ensures |r| == 3
  {
    if f.rev >= 6 || (f.rev == 5 && f.minorVer > 0) then Le(f.armBootArch, 2) + Le(f.minorVer, 1) else Le(0, 3)
  }

  /** X_PM1a_EVT_BLK to X_GPE1_BLK. */
  function ExtendedBlockBytes(f: FadtData): (r: seq<byte>)
    ensures |r| == 96
  {
    GasBytes(f.pm1aEvt) + GasBytes(NO_GAS) + GasBytes(f.pm1aCnt) + GasBytes(NO_GAS) + GasBytes(NO_GAS)
          + GasBytes(f.pmTmr)
    + GasBytes(f.gpe0Blk) + GasBytes(NO_GAS)
  }

  const QEMU: seq<byte> := [0x51, 0x45, 0x4D, 0x55]

  /** A slot, or zeros where there is nothing to point at. */
  function SlotIf(size: nat, target: Option<nat>): Piece {
    if target.Some? then Slot(size, TableFile, target.value) else Field(0, size)
  }

  function Legacy(f: FadtData): seq<byte> {
    ModelBytes(f) + BlockBytes(f) + LengthBytes(f) + LatencyBytes(f) + FlagBytes(f)
  }

  /** RESET_REG to X_FIRMWARE_CTRL. */
  function Reset(f: FadtData): seq<byte> {
    GasBytes(f.resetReg) + Le(f.resetVal, 1) + VersionBytes(f) + Le(0, 8)
  }

  function FadtPieces(f: FadtData): seq<Piece> {
    [SlotIf(4, f.facs), SlotIf(4, f.dsdt), Raw(Legacy(f))]
    + if f.rev == 1 then [] else [Raw(Reset(f)), SlotIf(8, f.xdsdt), Raw(Tail(f))]
  }

  function Tail(f: FadtData): seq<byte> {
    ExtendedBlockBytes(f)
    + if f.rev <= 4 then []
      else GasBytes(f.sleepCtl) + GasBytes(f.sleepSts) + if f.rev == 5 then [] else Padded(QEMU, 8)
  }

  // ----- building -----

  method BuildAppendGas(table: ByteVec, g: Gas)
    modifies table
    ensures table.data == old(table.data) + GasBytes(g)
  {
    hide Le;
    table.AppendIntNoPrefix(g.spaceId, 1);
    table.AppendIntNoPrefix(g.bitWidth, 1);
    table.AppendIntNoPrefix(g.bitOffset, 1);
    table.AppendIntNoPrefix(g.accessWidth, 1);
    table.AppendIntNoPrefix(g.address, 8);
    assert table.data == old(table.data) + GasBytes(g);
  }

  method AppendModel(tbl: ByteVec, f: FadtData)
    modifies tbl
    ensures tbl.data == old(tbl.data) + ModelBytes(f)
  {
    hide Le;
    tbl.AppendIntNoPrefix(f.intModel, 1);
    tbl.AppendIntNoPrefix(0, 1);
    tbl.AppendIntNoPrefix(f.sciInt, 2);
    tbl.AppendIntNoPrefix(f.smiCmd, 4);
    tbl.AppendIntNoPrefix(f.acpiEnableCmd, 1);
    tbl.AppendIntNoPrefix(f.acpiDisableCmd, 1);
    tbl.AppendIntNoPrefix(0, 1);
    tbl.AppendIntNoPrefix(0, 1);
    assert tbl.data == old(tbl.data) + ModelBytes(f);
  }

  method AppendBlocks(tbl: ByteVec, f: FadtData)
    modifies tbl
    ensures tbl.data == old(tbl.data) + BlockBytes(f)
  {
    hide Le;
    tbl.AppendIntNoPrefix(f.pm1aEvt.address, 4);
    tbl.AppendIntNoPrefix(0, 4);
    tbl.AppendIntNoPrefix(f.pm1aCnt.address, 4);
    tbl.AppendIntNoPrefix(0, 4);
    tbl.AppendIntNoPrefix(0, 4);
    tbl.AppendIntNoPrefix(f.pmTmr.address, 4);
    tbl.AppendIntNoPrefix(f.gpe0Blk.address, 4);
    tbl.AppendIntNoPrefix(0, 4);
    assert tbl.data == old(tbl.data) + BlockBytes(f);
  }

  method AppendLengths(tbl: ByteVec, f: FadtData)
    modifies tbl
    ensures tbl.data == old(tbl.data) + LengthBytes(f)
  {
    hide Le;
    tbl.AppendIntNoPrefix(f.pm1aEvt.bitWidth / 8, 1);
    tbl.AppendIntNoPrefix(f.pm1aCnt.bitWidth / 8, 1);
    tbl.AppendIntNoPrefix(0, 1);
    tbl.AppendIntNoPrefix(f.pmTmr.bitWidth / 8, 1);
    tbl.AppendIntNoPrefix(f.gpe0Blk.bitWidth / 8, 1);
    tbl.AppendIntNoPrefix(0, 1);
    tbl.AppendIntNoPrefix(0, 1);
    tbl.AppendIntNoPrefix(0, 1);
    assert tbl.data == old(tbl.data) + LengthBytes(f);
  }

  method AppendLatencies(tbl: ByteVec, f: FadtData)
    modifies tbl
    ensures tbl.data == old(tbl.data) + LatencyBytes(f)
  {
    hide Le;
    tbl.AppendIntNoPrefix(f.plvl2Lat, 2);
    tbl.AppendIntNoPrefix(f.plvl3Lat, 2);
    tbl.AppendIntNoPrefix(0, 2);
    tbl.AppendIntNoPrefix(0, 2);
    tbl.AppendIntNoPrefix(0, 1);
    tbl.AppendIntNoPrefix(0, 1);
    tbl.AppendIntNoPrefix(0, 1);
    tbl.AppendIntNoPrefix(0, 1);
    assert tbl.data == old(tbl.data) + LatencyBytes(f);
  }

  method AppendFlags(tbl: ByteVec, f: FadtData)
    modifies tbl
    ensures tbl.data == old(tbl.data) + FlagBytes(f)
  {
    hide Le;
    tbl.AppendIntNoPrefix(f.rtcCentury, 1);
    if f.rev == 1 {
      tbl.AppendIntNoPrefix(0, 2);
    } else {
      tbl.AppendIntNoPrefix(f.iapcBootArch, 2);
    }
    tbl.AppendIntNoPrefix(0, 1);
    tbl.AppendIntNoPrefix(f.flags, 4);
    assert tbl.data == old(tbl.data) + FlagBytes(f);
  }

  method AppendLegacy(tbl: ByteVec, f: FadtData)
    modifies tbl
    ensures tbl.data == old(tbl.data) + Legacy(f)
  {
    hide ModelBytes, BlockBytes, LengthBytes, LatencyBytes, FlagBytes;
    AppendModel(tbl, f);
    AppendBlocks(tbl, f);
    AppendLengths(tbl, f);
    AppendLatencies(tbl, f);
    AppendFlags(tbl, f);
    assert tbl.data == old(tbl.data) + Legacy(f);
  }

  method AppendReset(tbl: ByteVec, f: FadtData)
    modifies tbl
    ensures tbl.data == old(tbl.data) + Reset(f)
  {
    hide Le, GasBytes;
    BuildAppendGas(tbl, f.resetReg);
    tbl.AppendIntNoPrefix(f.resetVal, 1);
    if f.rev >= 6 || (f.rev == 5 && f.minorVer > 0) {
      tbl.AppendIntNoPrefix(f.armBootArch, 2);
      tbl.AppendIntNoPrefix(f.minorVer, 1);
    } else {
      tbl.AppendIntNoPrefix(0, 3);
    }
    tbl.AppendIntNoPrefix(0, 8);
    assert tbl.data == old(tbl.data) + Reset(f);
  }

  method AppendTail(tbl: ByteVec, f: FadtData)
    modifies tbl
    ensures tbl.data == old(tbl.data) + Tail(f)
  {
    hide Le, GasBytes, Padded;
    BuildAppendGas(tbl, f.pm1aEvt);
    BuildAppendGas(tbl, NO_GAS);
    BuildAppendGas(tbl, f.pm1aCnt);
    BuildAppendGas(tbl, NO_GAS);
    BuildAppendGas(tbl, NO_GAS);
    BuildAppendGas(tbl, f.pmTmr);
    BuildAppendGas(tbl, f.gpe0Blk);
    BuildAppendGas(tbl, NO_GAS);
    assert tbl.data == old(tbl.data) + ExtendedBlockBytes(f);
    if f.rev > 4 {
      BuildAppendGas(tbl, f.sleepCtl);
      BuildAppendGas(tbl, f.sleepSts);
      if f.rev != 5 {
        AppendPaddedStr(tbl, QEMU, 8);
      }
    }
    assert tbl.data == old(tbl.data) + Tail(f);
  }

  /** A reserved address, and the pointer command for it where there is something to point at. */
  method AppendSlotIf(tbl: ByteVec, linker: BIOSLinker, size: nat, target: Option<nat>)
    modifies tbl, linker
    ensures tbl.data == old(tbl.data) + PieceBytes(SlotIf(size, target))
    ensures linker.commands == old(linker.commands) + PieceCommands(SlotIf(size, target), |old(tbl.data)|)
  {
    var off := |tbl.data|;
    tbl.AppendIntNoPrefix(0, size);
    if target.Some? {
      linker.Pointer(TableFile, off, size, TableFile, target.value);
    }
  }

  const FACP: Bytes4 := [0x46, 0x41, 0x43, 0x50]

  function FadtTable(f: FadtData, oemId: seq<byte>, oemTableId: seq<byte>): AcpiTable {
    AcpiTable(FACP, f.rev, oemId, oemTableId)
  }

  /** The part every revision has. */
  method AppendFirst(tbl: ByteVec, linker: BIOSLinker, f: FadtData)
    modifies tbl, linker
    ensures tbl.data == old(tbl.data) + BodyBytes(FirstPieces(f))
    ensures linker.commands == old(linker.commands) + BodyCommands(FirstPieces(f), |old(tbl.data)|)
  {
    hide PieceBytes, PieceCommands, Le, Legacy, SlotIf, BodyBytes, BodyCommands;
    FirstThree(f, |tbl.data|);
    AppendSlotIf(tbl, linker, 4, f.facs);
    AppendSlotIf(tbl, linker, 4, f.dsdt);
    AppendLegacy(tbl, f);
    assert tbl.data == old(tbl.data) + BodyBytes(FirstPieces(f));
  }

  /** What came with the second revision and later. */
  method AppendMore(tbl: ByteVec, linker: BIOSLinker, f: FadtData)
    modifies tbl, linker
    ensures tbl.data == old(tbl.data) + BodyBytes(MorePieces(f))
    ensures linker.commands == old(linker.commands) + BodyCommands(MorePieces(f), |old(tbl.data)|)
  {
    hide PieceBytes, PieceCommands, Le, Reset, Tail, SlotIf, BodyBytes, BodyCommands;
    NextThree(f, |tbl.data|);
    AppendReset(tbl, f);
    AppendSlotIf(tbl, linker, 8, f.xdsdt);
    AppendTail(tbl, f);
    assert tbl.data == old(tbl.data) + BodyBytes(MorePieces(f));
  }

  /** build_fadt.  Revisions above 6 fail an assertion in the source. */
  method BuildFadt(tbl: ByteVec, linker: BIOSLinker, f: FadtData, oemId: seq<byte>, oemTableId: seq<byte>)
    requires f.rev <= 6 && |oemId| <= 6 && |oemTableId| <= 8
    modifies tbl, linker
    ensures tbl.data == old(tbl.data) + TableBytes(FadtTable(f, oemId, oemTableId), FadtPieces(f))
    ensures linker.commands == old(linker.commands) + TableCommands(FadtPieces(f), |old(tbl.data)|)
  {
    hide HeaderBytes, FirstPieces, MorePieces, FadtPieces, BodyBytes, BodyCommands;
    ghost var before, script := tbl.data, linker.commands;
    var table := FadtTable(f, oemId, oemTableId);
    var offset := AcpiTableBegin(table, tbl);
    ghost var at, ps := |tbl.data|, FirstPieces(f);
    AppendFirst(tbl, linker, f);
    if f.rev != 1 {
      AppendMore(tbl, linker, f);
      BodySplit(ps, MorePieces(f), at);
      ps := ps + MorePieces(f);
    }
    AllPieces(f);
    assert tbl.data == before + HeaderBytes(table, 0) + BodyBytes(ps);
    assert linker.commands == script + BodyCommands(ps, at);
    LengthPatched(before, table, BodyBytes(ps), (HEADER + |BodyBytes(ps)|) % 0x1_0000_0000);
    AcpiTableEnd(linker, tbl, offset);
  }

  function FirstPieces(f: FadtData): seq<Piece> { [SlotIf(4, f.facs), SlotIf(4, f.dsdt), Raw(Legacy(f))] }

  function MorePieces(f: FadtData): seq<Piece> { [Raw(Reset(f)), SlotIf(8, f.xdsdt), Raw(Tail(f))] }

  lemma AllPieces(f: FadtData)
    ensures FadtPieces(f) == if f.rev == 1 then FirstPieces(f) else FirstPieces(f) + MorePieces(f)
  {
  }

  lemma ThreePieces(p: Piece, q: Piece, r: Piece, at: nat)
    ensures BodyBytes([p, q, r]) == PieceBytes(p) + PieceBytes(q) + PieceBytes(r)
    ensures BodyCommands([p, q, r], at) ==
            PieceCommands(p, at) + PieceCommands(q, at + |PieceBytes(p)|)
            + PieceCommands(r, at + |PieceBytes(p)| + |PieceBytes(q)|)
  {
    hide PieceBytes, PieceCommands;
    assert [p, q, r] == [p] + [q] + [r];
    BodySplit([p] + [q], [r], at);
    BodySplit([p], [q], at);
    OnePiece(p, at);
    OnePiece(q, at + |PieceBytes(p)|);
    OnePiece(r, at + |PieceBytes(p)| + |PieceBytes(q)|);
  }

  lemma FirstThree(f: FadtData, at: nat)
    ensures BodyBytes(FirstPieces(f)) == PieceBytes(SlotIf(4, f.facs)) + PieceBytes(SlotIf(4, f.dsdt)) + Legacy(f)
    ensures |PieceBytes(SlotIf(4, f.facs))| == 4 && |PieceBytes(SlotIf(4, f.dsdt))| == 4 && |Legacy(f)| == 72
    ensures BodyCommands(FirstPieces(f), at) == PieceCommands(SlotIf(4, f.facs), at)
          + PieceCommands(SlotIf(4, f.dsdt), at + 4)
  {
    hide Le;
    ThreePieces(SlotIf(4, f.facs), SlotIf(4, f.dsdt), Raw(Legacy(f)), at);
    var cs := PieceCommands(SlotIf(4, f.facs), at) + PieceCommands(SlotIf(4, f.dsdt), at + 4);
    assert cs + [] == cs;
  }

  lemma NextThree(f: FadtData, at: nat)
    ensures BodyBytes(MorePieces(f)) == Reset(f) + PieceBytes(SlotIf(8, f.xdsdt)) + Tail(f)
    ensures |Reset(f)| == 24 && |PieceBytes(SlotIf(8, f.xdsdt))| == 8
    ensures BodyCommands(MorePieces(f), at) == PieceCommands(SlotIf(8, f.xdsdt), at + 24)
  {
    hide Le, GasBytes, Tail;
    ThreePieces(Raw(Reset(f)), SlotIf(8, f.xdsdt), Raw(Tail(f)), at);
    var cs := PieceCommands(SlotIf(8, f.xdsdt), at + 24);
    assert [] + cs + [] == cs;
  }

  /** The lengths of the revisions (section 5.2.9 of each ACPI version), and where the pointers go:
      bytes 36 and 40 of the table, and byte 140 from ACPI 2.0 on. */
  lemma Layout(f: FadtData, offset: nat)
    requires f.rev <= 6
    ensures HEADER + |BodyBytes(FadtPieces(f))| ==
            if f.rev == 1 then 116 else if f.rev <= 4 then 244 else if f.rev == 5 then 268 else 276
    ensures f.facs.Some?
          ==> AddPointer(TableFile, offset + 36, 4, TableFile, f.facs.value) in TableCommands(FadtPieces(f), offset)
    ensures f.dsdt.Some?
          ==> AddPointer(TableFile, offset + 40, 4, TableFile, f.dsdt.value) in TableCommands(FadtPieces(f), offset)
    ensures f.xdsdt.Some? && f.rev != 1 ==>
              AddPointer(TableFile, offset + 140, 8, TableFile, f.xdsdt.value) in TableCommands(FadtPieces(f), offset)
  {
    hide Le, GasBytes, Legacy, Reset, FadtPieces, BodyBytes, BodyCommands;
    var at := offset + HEADER;
    AllPieces(f);
    FirstThree(f, at);
    if f.rev != 1 {
      BodySplit(FirstPieces(f), MorePieces(f), at);
      NextThree(f, at + 80);
    }
  }

  // ----- the fields, read at the offsets of section 5.2.9 -----

  /** `n` bytes of the table from `at` on hold the low bytes of this number. */
  predicate Holds(t: seq<byte>, at: nat, v: nat, n: nat) { at + n <= |t| && t[at..at + n] == Le(v, n) }

  /** A generic address at this offset. */
  predicate HoldsGas(t: seq<byte>, at: nat, g: Gas) {
    Holds(t, at, g.spaceId, 1) && Holds(t, at + 1, g.bitWidth, 1) && Holds(t, at + 2, g.bitOffset, 1)
    && Holds(t, at + 3, g.accessWidth, 1) && Holds(t, at + 4, g.address, 8)
  }

  /** A field of a part of the table. */
  lemma HoldsAt(t: seq<byte>, from: nat, to: nat, before: seq<byte>, v: nat, n: nat, after: seq<byte>)
    requires from <= to <= |t| && t[from..to] == before + Le(v, n) + after
    ensures Holds(t, from + |before|, v, n)
  {
    var i := |before|;
    SliceOfSlice(t, from, to, i, i + n);
    assert (before + Le(v, n) + after)[i..i + n] == Le(v, n);
  }

  lemma GasAt(t: seq<byte>, at: nat, g: Gas)
    requires at + 12 <= |t| && t[at..at + 12] == GasBytes(g)
    ensures HoldsGas(t, at, g)
  {
    hide Le, Holds;
    var a, b, c := Le(g.spaceId, 1), Le(g.bitWidth, 1), Le(g.bitOffset, 1);
    var d, e := Le(g.accessWidth, 1), Le(g.address, 8);
    assert GasBytes(g) == [] + a + (b + c + d + e) == a + b + (c + d + e) == (a + b) + c + (d + e);
    assert GasBytes(g) == (a + b + c) + d + e == (a + b + c + d) + e + [];
    HoldsAt(t, at, at + 12, [], g.spaceId, 1, b + c + d + e);
    HoldsAt(t, at, at + 12, a, g.bitWidth, 1, c + d + e);
    HoldsAt(t, at, at + 12, a + b, g.bitOffset, 1, d + e);
    HoldsAt(t, at, at + 12, a + b + c, g.accessWidth, 1, e);
    HoldsAt(t, at, at + 12, a + b + c + d, g.address, 8, []);
  }

  /** INT_MODEL to PSTATE_CNT. */
  predicate ModelFields(t: seq<byte>, f: FadtData) {
    Holds(t, 44, f.intModel, 1) && Holds(t, 45, 0, 1) && Holds(t, 46, f.sciInt, 2)
    && Holds(t, 48, f.smiCmd, 4) && Holds(t, 52, f.acpiEnableCmd, 1) && Holds(t, 53, f.acpiDisableCmd, 1)
    && Holds(t, 54, 0, 1) && Holds(t, 55, 0, 1)
  }

  lemma ModelAt(t: seq<byte>, f: FadtData)
    requires 56 <= |t| && t[44..56] == ModelBytes(f)
    ensures ModelFields(t, f)
  {
    hide Le, Holds;
    var s := ModelBytes(f);
    assert s == s[..0] + Le(f.intModel, 1) + s[1..];
    HoldsAt(t, 44, 56, s[..0], f.intModel, 1, s[1..]);
    assert s == s[..1] + Le(0, 1) + s[2..];
    HoldsAt(t, 44, 56, s[..1], 0, 1, s[2..]);
    assert s == s[..2] + Le(f.sciInt, 2) + s[4..];
    HoldsAt(t, 44, 56, s[..2], f.sciInt, 2, s[4..]);
    assert s == s[..4] + Le(f.smiCmd, 4) + s[8..];
    HoldsAt(t, 44, 56, s[..4], f.smiCmd, 4, s[8..]);
    assert s == s[..8] + Le(f.acpiEnableCmd, 1) + s[9..];
    HoldsAt(t, 44, 56, s[..8], f.acpiEnableCmd, 1, s[9..]);
    assert s == s[..9] + Le(f.acpiDisableCmd, 1) + s[10..];
    HoldsAt(t, 44, 56, s[..9], f.acpiDisableCmd, 1, s[10..]);
    assert s == s[..10] + Le(0, 1) + s[11..];
    HoldsAt(t, 44, 56, s[..10], 0, 1, s[11..]);
    assert s == s[..11] + Le(0, 1) + s[12..];
    HoldsAt(t, 44, 56, s[..11], 0, 1, s[12..]);
  }

  /** PM1a_EVT_BLK to GPE1_BLK. */
  predicate BlockFields(t: seq<byte>, f: FadtData) {
    Holds(t, 56, f.pm1aEvt.address, 4) && Holds(t, 60, 0, 4) && Holds(t, 64, f.pm1aCnt.address, 4)
    && Holds(t, 68, 0, 4) && Holds(t, 72, 0, 4) && Holds(t, 76, f.pmTmr.address, 4)
    && Holds(t, 80, f.gpe0Blk.address, 4) && Holds(t, 84, 0, 4)
  }

  lemma BlockAt(t: seq<byte>, f: FadtData)
    requires 88 <= |t| && t[56..88] == BlockBytes(f)
    ensures BlockFields(t, f)
  {
    hide Le, Holds;
    var s := BlockBytes(f);
    assert s == s[..0] + Le(f.pm1aEvt.address, 4) + s[4..];
    HoldsAt(t, 56, 88, s[..0], f.pm1aEvt.address, 4, s[4..]);
    assert s == s[..4] + Le(0, 4) + s[8..];
    HoldsAt(t, 56, 88, s[..4], 0, 4, s[8..]);
    assert s == s[..8] + Le(f.pm1aCnt.address, 4) + s[12..];
    HoldsAt(t, 56, 88, s[..8], f.pm1aCnt.address, 4, s[12..]);
    assert s == s[..12] + Le(0, 4) + s[16..];
    HoldsAt(t, 56, 88, s[..12], 0, 4, s[16..]);
    assert s == s[..16] + Le(0, 4) + s[20..];
    HoldsAt(t, 56, 88, s[..16], 0, 4, s[20..]);
    assert s == s[..20] + Le(f.pmTmr.address, 4) + s[24..];
    HoldsAt(t, 56, 88, s[..20], f.pmTmr.address, 4, s[24..]);
    assert s == s[..24] + Le(f.gpe0Blk.address, 4) + s[28..];
    HoldsAt(t, 56, 88, s[..24], f.gpe0Blk.address, 4, s[28..]);
    assert s == s[..28] + Le(0, 4) + s[32..];
    HoldsAt(t, 56, 88, s[..28], 0, 4, s[32..]);
  }

  /** PM1_EVT_LEN to CST_CNT, in bytes. */
  predicate LengthFields(t: seq<byte>, f: FadtData) {
    Holds(t, 88, f.pm1aEvt.bitWidth / 8, 1) && Holds(t, 89, f.pm1aCnt.bitWidth / 8, 1) && Holds(t, 90, 0, 1)
    && Holds(t, 91, f.pmTmr.bitWidth / 8, 1) && Holds(t, 92, f.gpe0Blk.bitWidth / 8, 1) && Holds(t, 93, 0, 1)
    && Holds(t, 94, 0, 1) && Holds(t, 95, 0, 1)
  }

  lemma LengthAt(t: seq<byte>, f: FadtData)
    requires 96 <= |t| && t[88..96] == LengthBytes(f)
    ensures LengthFields(t, f)
  {
    hide Le, Holds;
    var s := LengthBytes(f);
    assert s == s[..0] + Le(f.pm1aEvt.bitWidth / 8, 1) + s[1..];
    HoldsAt(t, 88, 96, s[..0], f.pm1aEvt.bitWidth / 8, 1, s[1..]);
    assert s == s[..1] + Le(f.pm1aCnt.bitWidth / 8, 1) + s[2..];
    HoldsAt(t, 88, 96, s[..1], f.pm1aCnt.bitWidth / 8, 1, s[2..]);
    assert s == s[..2] + Le(0, 1) + s[3..];
    HoldsAt(t, 88, 96, s[..2], 0, 1, s[3..]);
    assert s == s[..3] + Le(f.pmTmr.bitWidth / 8, 1) + s[4..];
    HoldsAt(t, 88, 96, s[..3], f.pmTmr.bitWidth / 8, 1, s[4..]);
    assert s == s[..4] + Le(f.gpe0Blk.bitWidth / 8, 1) + s[5..];
    HoldsAt(t, 88, 96, s[..4], f.gpe0Blk.bitWidth / 8, 1, s[5..]);
    assert s == s[..5] + Le(0, 1) + s[6..];
    HoldsAt(t, 88, 96, s[..5], 0, 1, s[6..]);
    assert s == s[..6] + Le(0, 1) + s[7..];
    HoldsAt(t, 88, 96, s[..6], 0, 1, s[7..]);
    assert s == s[..7] + Le(0, 1) + s[8..];
    HoldsAt(t, 88, 96, s[..7], 0, 1, s[8..]);
  }

  /** P_LVL2_LAT to MON_ALRM. */
  predicate LatencyFields(t: seq<byte>, f: FadtData) {
    Holds(t, 96, f.plvl2Lat, 2) && Holds(t, 98, f.plvl3Lat, 2) && Holds(t, 100, 0, 2)
    && Holds(t, 102, 0, 2) && Holds(t, 104, 0, 1) && Holds(t, 105, 0, 1)
    && Holds(t, 106, 0, 1) && Holds(t, 107, 0, 1)
  }

  lemma LatencyAt(t: seq<byte>, f: FadtData)
    requires 108 <= |t| && t[96..108] == LatencyBytes(f)
    ensures LatencyFields(t, f)
  {
    hide Le, Holds;
    var s := LatencyBytes(f);
    assert s == s[..0] + Le(f.plvl2Lat, 2) + s[2..];
    HoldsAt(t, 96, 108, s[..0], f.plvl2Lat, 2, s[2..]);
    assert s == s[..2] + Le(f.plvl3Lat, 2) + s[4..];
    HoldsAt(t, 96, 108, s[..2], f.plvl3Lat, 2, s[4..]);
    assert s == s[..4] + Le(0, 2) + s[6..];
    HoldsAt(t, 96, 108, s[..4], 0, 2, s[6..]);
    assert s == s[..6] + Le(0, 2) + s[8..];
    HoldsAt(t, 96, 108, s[..6], 0, 2, s[8..]);
    assert s == s[..8] + Le(0, 1) + s[9..];
    HoldsAt(t, 96, 108, s[..8], 0, 1, s[9..]);
    assert s == s[..9] + Le(0, 1) + s[10..];
    HoldsAt(t, 96, 108, s[..9], 0, 1, s[10..]);
    assert s == s[..10] + Le(0, 1) + s[11..];
    HoldsAt(t, 96, 108, s[..10], 0, 1, s[11..]);
    assert s == s[..11] + Le(0, 1) + s[12..];
    HoldsAt(t, 96, 108, s[..11], 0, 1, s[12..]);
  }

  /** CENTURY to Flags; the boot architecture flags came with the second revision. */
  predicate FlagFields(t: seq<byte>, f: FadtData) {
    Holds(t, 108, f.rtcCentury, 1) && Holds(t, 109, if f.rev == 1 then 0 else f.iapcBootArch, 2) && Holds(t, 111, 0, 1)
    && Holds(t, 112, f.flags, 4)
  }

  lemma FlagAt(t: seq<byte>, f: FadtData)
    requires 116 <= |t| && t[108..116] == FlagBytes(f)
    ensures FlagFields(t, f)
  {
    hide Le, Holds;
    var s := FlagBytes(f);
    assert s == s[..0] + Le(f.rtcCentury, 1) + s[1..];
    HoldsAt(t, 108, 116, s[..0], f.rtcCentury, 1, s[1..]);
    assert s == s[..1] + Le(if f.rev == 1 then 0 else f.iapcBootArch, 2) + s[3..];
    HoldsAt(t, 108, 116, s[..1], if f.rev == 1 then 0 else f.iapcBootArch, 2, s[3..]);
    assert s == s[..3] + Le(0, 1) + s[4..];
    HoldsAt(t, 108, 116, s[..3], 0, 1, s[4..]);
    assert s == s[..4] + Le(f.flags, 4) + s[8..];
    HoldsAt(t, 108, 116, s[..4], f.flags, 4, s[8..]);
  }

  /** RESET_REG to X_FIRMWARE_CTRL; the ARM flags and the minor version came with ACPI 5.1. */
  predicate ResetFields(t: seq<byte>, f: FadtData) {
    HoldsGas(t, 116, f.resetReg) && Holds(t, 128, f.resetVal, 1)
    && (if f.rev >= 6 || (f.rev == 5 && f.minorVer > 0)
        then Holds(t, 129, f.armBootArch, 2) && Holds(t, 131, f.minorVer, 1)
        else Holds(t, 129, 0, 3))
    && Holds(t, 132, 0, 8)
  }

  lemma ResetAt(t: seq<byte>, f: FadtData)
    requires 140 <= |t| && t[116..140] == Reset(f)
    ensures ResetFields(t, f)
  {
    hide Le, Holds, HoldsGas, GasBytes, VersionBytes;
    var gas, s := GasBytes(f.resetReg), Reset(f);
    SliceOfSlice(t, 116, 140, 0, 12);
    assert s[0..12] == gas;
    GasAt(t, 116, f.resetReg);
    assert s == gas + Le(f.resetVal, 1) + (VersionBytes(f) + Le(0, 8));
    HoldsAt(t, 116, 140, gas, f.resetVal, 1, VersionBytes(f) + Le(0, 8));
    var head := gas + Le(f.resetVal, 1);
    assert s == head + VersionBytes(f) + Le(0, 8) + [];
    HoldsAt(t, 116, 140, head + VersionBytes(f), 0, 8, []);
    VersionAt(t, f, head);
  }

  lemma VersionAt(t: seq<byte>, f: FadtData, head: seq<byte>)
    requires 140 <= |t| && |head| == 13 && t[116..140] == head + VersionBytes(f) + Le(0, 8)
    ensures if f.rev >= 6 || (f.rev == 5 && f.minorVer > 0)
            then Holds(t, 129, f.armBootArch, 2) && Holds(t, 131, f.minorVer, 1)
            else Holds(t, 129, 0, 3)
  {
    hide Le, Holds;
    var s := t[116..140];
    if f.rev >= 6 || (f.rev == 5 && f.minorVer > 0) {
      assert s == head + Le(f.armBootArch, 2) + (Le(f.minorVer, 1) + Le(0, 8));
      HoldsAt(t, 116, 140, head, f.armBootArch, 2, Le(f.minorVer, 1) + Le(0, 8));
      assert s == (head + Le(f.armBootArch, 2)) + Le(f.minorVer, 1) + Le(0, 8);
      HoldsAt(t, 116, 140, head + Le(f.armBootArch, 2), f.minorVer, 1, Le(0, 8));
    } else {
      HoldsAt(t, 116, 140, head, 0, 3, Le(0, 8));
    }
  }

  /** X_PM1a_EVT_BLK to X_GPE1_BLK; the sleep registers came with ACPI 5, the hypervisor vendor with 6. */
  predicate TailFields(t: seq<byte>, f: FadtData) {
    HoldsGas(t, 148, f.pm1aEvt) && HoldsGas(t, 160, NO_GAS) && HoldsGas(t, 172, f.pm1aCnt) && HoldsGas(t, 184, NO_GAS)
    && HoldsGas(t, 196, NO_GAS) && HoldsGas(t, 208, f.pmTmr) && HoldsGas(t, 220, f.gpe0Blk) && HoldsGas(t, 232, NO_GAS)
    && (f.rev >= 5 ==> HoldsGas(t, 244, f.sleepCtl) && HoldsGas(t, 256, f.sleepSts))
    && (f.rev >= 6 ==> |t| == 276 && t[268..276] == Ascii("QEMU") + [0, 0, 0, 0])
  }

  lemma GasWithin(t: seq<byte>, s: seq<byte>, i: nat, g: Gas)
    requires 148 <= |t| && t[148..] == s && i + 12 <= |s| && s[i..i + 12] == GasBytes(g)
    ensures HoldsGas(t, 148 + i, g)
  {
    hide HoldsGas, GasBytes;
    SliceOfSlice(t, 148, |t|, i, i + 12);
    GasAt(t, 148 + i, g);
  }

  lemma TailAt(t: seq<byte>, f: FadtData)
    requires 148 <= |t| && t[148..] == Tail(f)
    ensures TailFields(t, f)
  {
    hide GasBytes, HoldsGas, Padded;
    var s, x := Tail(f), ExtendedBlockBytes(f);
    TailParts(f);
    hide Tail, ExtendedBlockBytes;
    GasWithin(t, s, 0, f.pm1aEvt);
    GasWithin(t, s, 12, NO_GAS);
    GasWithin(t, s, 24, f.pm1aCnt);
    GasWithin(t, s, 36, NO_GAS);
    GasWithin(t, s, 48, NO_GAS);
    GasWithin(t, s, 60, f.pmTmr);
    GasWithin(t, s, 72, f.gpe0Blk);
    GasWithin(t, s, 84, NO_GAS);
    if f.rev >= 5 {
      GasWithin(t, s, 96, f.sleepCtl);
      GasWithin(t, s, 108, f.sleepSts);
    }
    if f.rev >= 6 {
      SliceOfSlice(t, 148, |t|, 120, 128);
    }
  }

  lemma TailParts(f: FadtData)
    ensures var s := Tail(f);
            |s| >= 96 && s[0..12] == GasBytes(f.pm1aEvt) && s[12..24] == GasBytes(NO_GAS)
            && s[24..36] == GasBytes(f.pm1aCnt) && s[36..48] == GasBytes(NO_GAS) && s[48..60] == GasBytes(NO_GAS)
            && s[60..72] == GasBytes(f.pmTmr) && s[72..84] == GasBytes(f.gpe0Blk) && s[84..96] == GasBytes(NO_GAS)
            && (f.rev >= 5 ==> |s| >= 120 && s[96..108] == GasBytes(f.sleepCtl) && s[108..120] == GasBytes(f.sleepSts))
            && (f.rev >= 6 ==> |s| == 128 && s[120..128] == Ascii("QEMU") + [0, 0, 0, 0])
  {
    hide GasBytes;
    var s, x := Tail(f), ExtendedBlockBytes(f);
    assert s[..96] == x;
    assert x[84..] == GasBytes(NO_GAS) && x[84..96] == x[84..];
    SliceOfSlice(s, 0, 96, 84, 96);
    if f.rev >= 5 {
      var more := GasBytes(f.sleepCtl) + GasBytes(f.sleepSts);
      assert s[96..120] == more;
      assert s[96..108] == GasBytes(f.sleepCtl) && s[108..120] == GasBytes(f.sleepSts);
    }
    if f.rev >= 6 {
      assert s[120..] == Padded(QEMU, 8) && s[120..128] == s[120..];
      assert Ascii("QEMU") == QEMU && Fill(4, 0) == [0, 0, 0, 0];
    }
  }

  /** Every field of the finished table stands where the standard has it, for every revision; the two
      addresses before them, and the 64-bit one, are for the guest to fill in. */
  lemma Fields(f: FadtData, oemId: seq<byte>, oemTableId: seq<byte>)
    requires f.rev <= 6 && |oemId| <= 6 && |oemTableId| <= 8
    ensures var t := TableBytes(FadtTable(f, oemId, oemTableId), FadtPieces(f));
            ModelFields(t, f) && BlockFields(t, f) && LengthFields(t, f) && LatencyFields(t, f) && FlagFields(t, f)
            && (f.rev != 1 ==> ResetFields(t, f) && TailFields(t, f))
  {
    hide ModelFields, BlockFields, LengthFields, LatencyFields, FlagFields, ResetFields, TailFields;
    var t := TableBytes(FadtTable(f, oemId, oemTableId), FadtPieces(f));
    TableParts(f, oemId, oemTableId);
    LegacyParts(f);
    hide TableBytes, FadtPieces, Legacy, Reset, Tail;
    SliceOfSlice(t, 44, 116, 0, 12);
    SliceOfSlice(t, 44, 116, 12, 44);
    SliceOfSlice(t, 44, 116, 44, 52);
    SliceOfSlice(t, 44, 116, 52, 64);
    SliceOfSlice(t, 44, 116, 64, 72);
    ModelAt(t, f);
    BlockAt(t, f);
    LengthAt(t, f);
    LatencyAt(t, f);
    FlagAt(t, f);
    if f.rev != 1 {
      ResetAt(t, f);
      TailAt(t, f);
    }
  }

  lemma LegacyParts(f: FadtData)
    ensures var s := Legacy(f);
            |s| == 72 && s[0..12] == ModelBytes(f) && s[12..44] == BlockBytes(f) && s[44..52] == LengthBytes(f)
            && s[52..64] == LatencyBytes(f) && s[64..72] == FlagBytes(f)
  {
    hide ModelBytes, BlockBytes, LengthBytes, LatencyBytes, FlagBytes;
    var s := Legacy(f);
    assert s[64..] == FlagBytes(f) && s[64..72] == s[64..];
  }

  lemma TableParts(f: FadtData, oemId: seq<byte>, oemTableId: seq<byte>)
    requires f.rev <= 6 && |oemId| <= 6 && |oemTableId| <= 8
    ensures var t := TableBytes(FadtTable(f, oemId, oemTableId), FadtPieces(f));
            116 <= |t| && t[44..116] == Legacy(f)
            && (f.rev != 1 ==> 148 <= |t| && t[116..140] == Reset(f) && t[148..] == Tail(f))
  {
    hide HeaderBytes, Legacy, Reset, Tail, BodyBytes, BodyCommands, SlotIf, PieceBytes;
    AllPieces(f);
    FirstThree(f, 0);
    var t := TableBytes(FadtTable(f, oemId, oemTableId), FadtPieces(f));
    var head := t[..36];
    var slots := PieceBytes(SlotIf(4, f.facs)) + PieceBytes(SlotIf(4, f.dsdt));
    if f.rev == 1 {
      assert t == head + slots + Legacy(f);
    } else {
      BodySplit(FirstPieces(f), MorePieces(f), 0);
      NextThree(f, 0);
      assert t == head + slots + Legacy(f) + Reset(f) + PieceBytes(SlotIf(8, f.xdsdt)) + Tail(f);
    }
  }
}

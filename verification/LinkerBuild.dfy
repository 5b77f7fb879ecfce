/** aml-build.c: tables appended to one array while their linker commands are queued.  Every builder
    keeps the script in order. */
module LinkerBuild {
  import opened Bytes
  import opened Linker

  /** The growing list of commands. */
  class BIOSLinker {
    var commands: seq<Command>

    constructor ()
      ensures commands == []
    {
      commands := [];
    }

    method Alloc(file: File, alignment: nat, fseg: bool)
      modifies this
      ensures commands == old(commands) + [Allocate(file, alignment, fseg)]
    {
      commands := commands + [Allocate(file, alignment, fseg)];
    }

    method Pointer(file: File, offset: nat, size: nat, src: File, srcOffset: nat)
      modifies this
      ensures commands == old(commands) + [AddPointer(file, offset, size, src, srcOffset)]
    {
      commands := commands + [AddPointer(file, offset, size, src, srcOffset)];
    }

    method Checksum(file: File, start: nat, length: nat, at: nat)
      modifies this
      ensures commands == old(commands) + [AddChecksum(file, start, length, at)]
    {
      commands := commands + [AddChecksum(file, start, length, at)];
    }
  }

  // ----- what a table consists of -----

  /** A table's signature, revision and OEM strings. */
  datatype AcpiTable = AcpiTable(sig: Bytes4, rev: byte, oemId: seq<byte>, oemTableId: seq<byte>) {
    /** The strings fit their fields, as build_append_padded_str asserts. */
    predicate Valid() { |oemId| <= 6 && |oemTableId| <= 8 }
  }

  const HEADER := 36

  function Padded(s: seq<byte>, n: nat): (r: seq<byte>)
    requires |s| <= n
    ensures |r| == n && s <= r && forall i :: |s| <= i < n ==> r[i] == 0
  {
    s + Fill(n - |s|, 0)
  }

  /** The header with this length in it and no checksum yet. */
  function HeaderBytes(t: AcpiTable, length: nat): (r: seq<byte>)
    requires t.Valid()
    ensures |r| == HEADER
  {
    t.sig + Le(length, 4) + [t.rev, 0] + Padded(t.oemId, 6) + Padded(t.oemTableId, 8) + Le(1, 4)
    + [0x42, 0x58, 0x50, 0x43] + Le(1, 4)
  }

  /** The header at the offsets of section 5.2.6: signature, length, revision, no checksum yet, the OEM
      strings padded with zeros, OEM revision 1, and the creator. */
  lemma HeaderFields(t: AcpiTable, length: nat)
    requires t.Valid()
    ensures var h := HeaderBytes(t, length);
            h[0..4] == t.sig && h[4..8] == Le(length, 4) && h[8] == t.rev && h[9] == 0
            && t.oemId <= h[10..16] && (forall i :: |t.oemId| <= i < 6 ==> h[10..16][i] == 0)
            && t.oemTableId <= h[16..24] && (forall i :: |t.oemTableId| <= i < 8 ==> h[16..24][i] == 0)
            && h[24..28] == [1, 0, 0, 0] && h[28..32] == Ascii("BXPC") && h[32..36] == [1, 0, 0, 0]
  {
    One4();
    hide Le, Padded;
    var h := HeaderBytes(t, length);
    var id, tableId := Padded(t.oemId, 6), Padded(t.oemTableId, 8);
    assert Ascii("BXPC") == [0x42, 0x58, 0x50, 0x43];
    var front := t.sig + Le(length, 4) + [t.rev, 0];
    var tail := Le(1, 4) + [0x42, 0x58, 0x50, 0x43] + Le(1, 4);
    assert h == front + id + tableId + tail;
    assert h[..10] == front && h[10..16] == id && h[16..24] == tableId && h[24..] == tail;
    assert h[0..4] == front[0..4] && h[4..8] == front[4..8] && h[8] == front[8] && h[9] == front[9];
    assert h[24..28] == tail[0..4] && h[28..32] == tail[4..8] && h[32..36] == tail[8..12];
  }

  lemma One4()
    ensures Le(1, 4) == [1, 0, 0, 0]
  {
    assert Le(0, 1) == [0] + Le(0, 0) && Le(0, 2) == [0] + Le(0, 1) && Le(0, 3) == [0] + Le(0, 2);
    assert Le(1, 4) == [1] + Le(0, 3);
  }

  /** The parts of a table's body: an integer field, raw bytes, a slot for an address to be filled in
      by the guest, the allocation of another file. */
  datatype Piece = Field(value: nat, width: nat) | Raw(bytes: seq<byte>) | Slot(size: nat, src: File, srcOffset: nat)
                 | Reserve(file: File, alignment: nat)

  function PieceBytes(p: Piece): seq<byte> {
    match p case Field(v, n) => Le(v, n) case Raw(bytes) => bytes case Slot(n, _, _) => Le(0, n) case Reserve(_,
          _) => []
  }

  function PieceCommands(p: Piece, at: nat): seq<Command> {
    match p
    case Slot(n, src, o) => [AddPointer(TableFile, at, n, src, o)]
    case Reserve(f, a) => [Allocate(f, a, false)]
    case _ => []
  }

  function BodyBytes(ps: seq<Piece>): seq<byte> {
    if ps == [] then [] else PieceBytes(ps[0]) + BodyBytes(ps[1..])
  }

  function BodyCommands(ps: seq<Piece>, at: nat): seq<Command> {
    if ps == [] then [] else PieceCommands(ps[0], at) + BodyCommands(ps[1..], at + |PieceBytes(ps[0])|)
  }

  lemma {:induction false} BodySplit(xs: seq<Piece>, ys: seq<Piece>, at: nat)
    ensures BodyBytes(xs + ys) == BodyBytes(xs) + BodyBytes(ys)
    ensures BodyCommands(xs + ys, at) == BodyCommands(xs, at) + BodyCommands(ys, at + |BodyBytes(xs)|)
  {
    hide PieceBytes, PieceCommands;
    if xs == [] {
      assert xs + ys == ys;
    } else {
      assert (xs + ys)[1..] == xs[1..] + ys;
      BodySplit(xs[1..], ys, at + |PieceBytes(xs[0])|);
    }
  }

  lemma OnePiece(p: Piece, at: nat)
    ensures BodyBytes([p]) == PieceBytes(p) && BodyCommands([p], at) == PieceCommands(p, at)
  {
    assert [p][1..] == [];
    assert PieceBytes(p) + [] == PieceBytes(p) && PieceCommands(p, at) + [] == PieceCommands(p, at);
  }

  /** What building this table adds to an array and a script. */
  function TableBytes(t: AcpiTable, ps: seq<Piece>): seq<byte>
    requires t.Valid()
  {
    HeaderBytes(t, (HEADER + |BodyBytes(ps)|) % 0x1_0000_0000) + BodyBytes(ps)
  }

  function TableCommands(ps: seq<Piece>, offset: nat): seq<Command> {
    BodyCommands(ps, offset + HEADER)
    + [AddChecksum(TableFile, offset, (HEADER + |BodyBytes(ps)|) % 0x1_0000_0000, offset + 9)]
  }

  // ----- appending -----

  /** build_append_padded_str */
  method AppendPaddedStr(table: ByteVec, str: seq<byte>, maxlen: nat)
    requires |str| <= maxlen
    modifies table
    ensures table.data == old(table.data) + Padded(str, maxlen)
  {
    table.Extend(str);
    for i := 0 to maxlen - |str|
      invariant table.data == old(table.data) + str + Fill(i, 0)
    {
      table.Push(0);
    }
  }

  /** acpi_table_begin */
  method AcpiTableBegin(t: AcpiTable, table: ByteVec) returns (tableOffset: nat)
    requires t.Valid()
    modifies table
    ensures tableOffset == |old(table.data)| && table.data == old(table.data) + HeaderBytes(t, 0)
  {
    hide Le, Padded;
    tableOffset := |table.data|;
    table.Extend(t.sig);
    table.AppendIntNoPrefix(0, 4);
    table.Push(t.rev);
    table.Push(0);
    AppendPaddedStr(table, t.oemId, 6);
    AppendPaddedStr(table, t.oemTableId, 8);
    table.AppendIntNoPrefix(1, 4);
    table.Extend([0x42, 0x58, 0x50, 0x43]);
    table.AppendIntNoPrefix(1, 4);
    assert table.data == old(table.data) + HeaderBytes(t, 0);
  }

  /** acpi_table_end: the length is patched in, the checksum is left to the guest. */
  method AcpiTableEnd(linker: BIOSLinker, table: ByteVec, tableOffset: nat)
    requires tableOffset + HEADER <= |table.data|
    modifies table, linker
    ensures var n := (|old(table.data)| - tableOffset) % 0x1_0000_0000;
            table.data == old(table.data)[..tableOffset + 4] + Le(n, 4) + old(table.data)[tableOffset + 8..]
            && linker.commands == old(linker.commands) + [AddChecksum(TableFile, tableOffset, n, tableOffset + 9)]
  {
    var tableLen := (|table.data| - tableOffset) % 0x1_0000_0000;
    table.data := table.data[..tableOffset + 4] + Le(tableLen, 4) + table.data[tableOffset + 8..];
    linker.Checksum(TableFile, tableOffset, tableLen, tableOffset + 9);
  }

  /** Patching the length of what acpi_table_begin and a body left gives the table. */
  lemma LengthPatched(before: seq<byte>, t: AcpiTable, body: seq<byte>, n: nat)
    requires t.Valid()
    ensures var s := before + HeaderBytes(t, 0) + body;
            s[..|before| + 4] + Le(n, 4) + s[|before| + 8..] == before + HeaderBytes(t, n) + body
  {
    hide Le, Padded;
    var tail := [t.rev, 0] + Padded(t.oemId, 6) + Padded(t.oemTableId, 8) + Le(1, 4) + [0x42, 0x58, 0x50, 0x43]
          + Le(1, 4);
    assert HeaderBytes(t, 0) == t.sig + Le(0, 4) + tail && HeaderBytes(t, n) == t.sig + Le(n, 4) + tail;
    hide HeaderBytes;
    var s := before + HeaderBytes(t, 0) + body;
    assert s == (before + t.sig) + Le(0, 4) + (tail + body);
    assert s[..|before| + 4] == before + t.sig && s[|before| + 8..] == tail + body;
  }

  /** One part of a body. */
  method AppendPiece(table: ByteVec, linker: BIOSLinker, p: Piece)
    modifies table, linker
    ensures table.data == old(table.data) + PieceBytes(p)
    ensures linker.commands == old(linker.commands) + PieceCommands(p, |old(table.data)|)
    ensures p.Reserve? ==> linker.commands == old(linker.commands) + [Allocate(p.file, p.alignment, false)]
  {
    match p {
      case Field(value, width) => table.AppendIntNoPrefix(value, width);
      case Raw(bytes) => table.Extend(bytes);
      case Slot(size, src, srcOffset) =>
        var off := |table.data|;
        table.AppendIntNoPrefix(0, size);
        linker.Pointer(TableFile, off, size, src, srcOffset);
      case Reserve(file, alignment) => linker.Alloc(file, alignment, false);
    }
  }

  method AppendPieces(table: ByteVec, linker: BIOSLinker, ps: seq<Piece>)
    modifies table, linker
    ensures table.data == old(table.data) + BodyBytes(ps)
    ensures linker.commands == old(linker.commands) + BodyCommands(ps, |old(table.data)|)
  {
    hide PieceBytes, PieceCommands;
    for i := 0 to |ps|
      invariant table.data == old(table.data) + BodyBytes(ps[..i])
      invariant linker.commands == old(linker.commands) + BodyCommands(ps[..i], |old(table.data)|)
    {
      BodySplit(ps[..i], [ps[i]], |old(table.data)|);
      OnePiece(ps[i], |table.data|);
      AppendPiece(table, linker, ps[i]);
      assert ps[..i + 1] == ps[..i] + [ps[i]];
    }
    assert ps[..|ps|] == ps;
  }

  /** Any table built between begin and end. */
  method BuildTable(t: AcpiTable, table: ByteVec, linker: BIOSLinker, ps: seq<Piece>)
    requires t.Valid()
    modifies table, linker
    ensures table.data == old(table.data) + TableBytes(t, ps)
    ensures linker.commands == old(linker.commands) + TableCommands(ps, |old(table.data)|)
  {
    hide HeaderBytes, BodyBytes, BodyCommands;
    ghost var before := table.data;
    var offset := AcpiTableBegin(t, table);
    AppendPieces(table, linker, ps);
    LengthPatched(before, t, BodyBytes(ps), (HEADER + |BodyBytes(ps)|) % 0x1_0000_0000);
    AcpiTableEnd(linker, table, offset);
  }

  // ----- RSDT and XSDT -----

  function Entries(size: nat, offsets: seq<nat>): (r: seq<Piece>)
    ensures |r| == |offsets|
  {
    seq(|offsets|, i requires 0 <= i < |offsets| => Slot(size, TableFile, offsets[i]))
  }

  lemma {:induction false} EntriesAre(size: nat, offsets: seq<nat>, at: nat)
    ensures |BodyBytes(Entries(size, offsets))| == size * |offsets|
    ensures |BodyCommands(Entries(size, offsets), at)| == |offsets|
    ensures forall i :: 0 <= i < |offsets| ==>
              BodyCommands(Entries(size, offsets), at)[i] == AddPointer(TableFile, at
                    + size * i, size, TableFile, offsets[i])
    decreases |offsets|
  {
    if offsets != [] {
      EntriesAre(size, offsets[1..], at + size);
      assert Entries(size, offsets)[1..] == Entries(size, offsets[1..]);
      assert size * |offsets| == size + size * (|offsets| - 1);
      var cs, rest := BodyCommands(Entries(size, offsets), at), BodyCommands(Entries(size, offsets[1..]), at + size);
      assert cs == [AddPointer(TableFile, at, size, TableFile, offsets[0])] + rest;
      forall i | 0 <= i < |offsets|
        ensures cs[i] == AddPointer(TableFile, at + size * i, size, TableFile, offsets[i])
      {
        if i > 0 {
          assert cs[i] == rest[i - 1];
          assert size * i == size + size * (i - 1);
        } else {
          assert size * i == 0;
        }
      }
    }
  }

  /** build_rsdt with `size` 4 and build_xsdt with `size` 8: room for each entry, then a pointer
      command for it. */
  method BuildEntries(t: AcpiTable, size: nat, table: ByteVec, linker: BIOSLinker, tableOffsets: seq<nat>)
    requires t.Valid()
    modifies table, linker
    ensures table.data == old(table.data) + TableBytes(t, Entries(size, tableOffsets))
    ensures linker.commands == old(linker.commands) + TableCommands(Entries(size, tableOffsets), |old(table.data)|)
  {
    hide HeaderBytes, BodyBytes, BodyCommands, PieceBytes, PieceCommands, Le;
    ghost var before := table.data;
    var offset := AcpiTableBegin(t, table);
    ghost var es, start := Entries(size, tableOffsets), |table.data|;
    ghost var head, script := table.data, linker.commands;
    NoPieces(start);
    for i := 0 to |tableOffsets|
      invariant table.data == head + BodyBytes(es[..i])
      invariant linker.commands == script + BodyCommands(es[..i], start)
    {
      BodySplit(es[..i], [es[i]], start);
      OneEntry(size, tableOffsets[i], |table.data|);
      var entryOffset := |table.data|;
      table.AppendIntNoPrefix(0, size);
      linker.Pointer(TableFile, entryOffset, size, TableFile, tableOffsets[i]);
      assert es[..i + 1] == es[..i] + [es[i]];
    }
    assert es[..|es|] == es;
    LengthPatched(before, t, BodyBytes(es), (HEADER + |BodyBytes(es)|) % 0x1_0000_0000);
    AcpiTableEnd(linker, table, offset);
  }

  lemma NoPieces(at: nat)
    ensures BodyBytes([]) == [] && BodyCommands([], at) == []
  {
  }

  lemma OneEntry(size: nat, srcOffset: nat, at: nat)
    ensures BodyBytes([Slot(size, TableFile, srcOffset)]) == Le(0, size)
    ensures BodyCommands([Slot(size, TableFile, srcOffset)], at) == [AddPointer(TableFile, at, size, TableFile,
          srcOffset)]
  {
    OnePiece(Slot(size, TableFile, srcOffset), at);
  }

  const RSDT: Bytes4 := [0x52, 0x53, 0x44, 0x54]
  const XSDT: Bytes4 := [0x58, 0x53, 0x44, 0x54]

  /** The signatures as they are written. */
  lemma Signatures()
    ensures RSDT == Ascii("RSDT") && XSDT == Ascii("XSDT")
  {
    assert Ascii("RSDT") == RSDT && Ascii("XSDT") == XSDT;
  }

  method BuildRsdt(table: ByteVec, linker: BIOSLinker, tableOffsets: seq<nat>, oemId: seq<byte>, oemTableId: seq<byte>)
    requires |oemId| <= 6 && |oemTableId| <= 8
    modifies table, linker
    ensures table.data == old(table.data) + TableBytes(AcpiTable(RSDT, 1, oemId, oemTableId), Entries(4, tableOffsets))
    ensures linker.commands == old(linker.commands) + TableCommands(Entries(4, tableOffsets), |old(table.data)|)
  {
    BuildEntries(AcpiTable(RSDT, 1, oemId, oemTableId), 4, table, linker, tableOffsets);
  }

  method BuildXsdt(table: ByteVec, linker: BIOSLinker, tableOffsets: seq<nat>, oemId: seq<byte>, oemTableId: seq<byte>)
    requires |oemId| <= 6 && |oemTableId| <= 8
    modifies table, linker
    ensures table.data == old(table.data) + TableBytes(AcpiTable(XSDT, 1, oemId, oemTableId), Entries(8, tableOffsets))
    ensures linker.commands == old(linker.commands) + TableCommands(Entries(8, tableOffsets), |old(table.data)|)
  {
    BuildEntries(AcpiTable(XSDT, 1, oemId, oemTableId), 8, table, linker, tableOffsets);
  }

  // ----- RSDP -----

  const RSD_PTR: seq<byte> := [0x52, 0x53, 0x44, 0x20, 0x50, 0x54, 0x52, 0x20]

  /** The revision, the OEM id, and the offsets of the RSDT and the XSDT where there are any. */
  datatype RsdpData = RsdpData(revision: byte, oemId: seq<byte>, rsdt: Option<nat>, xsdt: Option<nat>) {
    /** What build_rsdp asserts. */
    predicate Valid() {
      |oemId| == 6 && (revision == 0 ==> rsdt.Some?) && (revision == 2 ==> xsdt.Some?)
            && (revision == 0 || revision == 2)
    }
  }

  function RsdpBytes(d: RsdpData): seq<byte> {
    RSD_PTR + [0] + d.oemId + [d.revision] + Le(0, 4)
    + if d.revision == 0 then [] else Le(36, 4) + Le(0, 8) + [0] + Le(0, 3)
  }

  /** The RSDP at the offsets of section 5.2.5.3, before the guest has filled in addresses and sums: the
      text, the OEM id, the revision; with revision 2 its length as well. */
  lemma RsdpFields(d: RsdpData)
    requires d.Valid()
    ensures var r := RsdpBytes(d);
            |r| == (if d.revision == 0 then 20 else 36)
            && r[0..8] == Ascii("RSD PTR ") && r[8] == 0 && r[9..15] == d.oemId && r[15] == d.revision
            && r[16..20] == [0, 0, 0, 0]
            && (d.revision != 0 ==> r[20..24] == [36, 0, 0, 0] && r[24..36] == Fill(12, 0))
  {
    Small4();
    hide Le;
    assert Ascii("RSD PTR ") == RSD_PTR;
    var r := RsdpBytes(d);
    var front := RSD_PTR + [0] + d.oemId + [d.revision];
    if d.revision == 0 {
      assert r == front + Le(0, 4) + [];
      assert r[16..] == Le(0, 4) && r[16..20] == r[16..];
    } else {
      var rest := Le(0, 8) + [0] + Le(0, 3);
      assert r == front + Le(0, 4) + Le(36, 4) + rest;
      assert r[16..20] == Le(0, 4) && r[20..24] == Le(36, 4) && r[24..] == rest && r[24..36] == r[24..];
      assert rest == Fill(12, 0);
    }
    assert r[..16] == front && r[0..8] == front[0..8] && r[9..15] == front[9..15];
  }

  lemma Small4()
    ensures Le(0, 4) == [0, 0, 0, 0] && Le(36, 4) == [36, 0, 0, 0] && Le(0, 3) == [0, 0, 0]
    ensures Le(0, 8) == Fill(8, 0)
  {
    assert Le(0, 1) == [0] + Le(0, 0) && Le(0, 2) == [0] + Le(0, 1) && Le(0, 3) == [0] + Le(0, 2);
    assert Le(36, 4) == [36] + Le(0, 3) && Le(0, 4) == [0] + Le(0, 3) && Le(0, 5) == [0] + Le(0, 4);
    assert Le(0, 6) == [0] + Le(0, 5) && Le(0, 7) == [0] + Le(0, 6) && Le(0, 8) == [0] + Le(0, 7);
  }

  /** The commands for an RSDP that starts at `off` in its file. */
  function RsdpCommands(d: RsdpData, off: nat): seq<Command>
    requires d.Valid()
  {
    [Allocate(RsdpFile, 16, true)]
    + (if d.rsdt.Some? then [AddPointer(RsdpFile, off + 16, 4, TableFile, d.rsdt.value)] else [])
    + [AddChecksum(RsdpFile, off, 20, 8)]
    + if d.revision == 0 then []
      else [AddPointer(RsdpFile, off + 24, 8, TableFile, d.xsdt.value), AddChecksum(RsdpFile, off, 36, 32)]
  }

  /** build_rsdp.  The places of the checksum bytes do not depend on where the RSDP starts. */
  method BuildRsdp(tbl: ByteVec, linker: BIOSLinker, d: RsdpData)
    requires d.Valid()
    modifies tbl, linker
    ensures tbl.data == old(tbl.data) + RsdpBytes(d)
    ensures linker.commands == old(linker.commands) + RsdpCommands(d, |old(tbl.data)|)
  {
    hide Le;
    ZeroByte();
    OneByte(d.revision);
    var off := |tbl.data|;
    linker.Alloc(RsdpFile, 16, true);
    tbl.Extend(RSD_PTR);
    tbl.AppendIntNoPrefix(0, 1);
    tbl.Extend(d.oemId);
    tbl.AppendIntNoPrefix(d.revision, 1);
    tbl.AppendIntNoPrefix(0, 4);
    assert tbl.data == old(tbl.data) + (RSD_PTR + [0] + d.oemId + [d.revision] + Le(0, 4));
    if d.rsdt.Some? {
      linker.Pointer(RsdpFile, off + 16, 4, TableFile, d.rsdt.value);
    }
    linker.Checksum(RsdpFile, off, 20, 8);
    ghost var head, script := tbl.data, linker.commands;
    if d.revision == 0 {
      return;
    }
    tbl.AppendIntNoPrefix(36, 4);
    tbl.AppendIntNoPrefix(0, 8);
    linker.Pointer(RsdpFile, off + 24, 8, TableFile, d.xsdt.value);
    tbl.AppendIntNoPrefix(0, 1);
    tbl.AppendIntNoPrefix(0, 3);
    assert tbl.data == head + (Le(36, 4) + Le(0, 8) + [0] + Le(0, 3));
    linker.Checksum(RsdpFile, off, 36, 32);
    assert linker.commands == script + [AddPointer(RsdpFile, off + 24, 8, TableFile, d.xsdt.value),
                                        AddChecksum(RsdpFile, off, 36, 32)];
  }

  lemma ZeroByte()
    ensures Le(0, 1) == [0]
  {
  }

  lemma OneByte(b: byte)
    ensures Le(b, 1) == [b]
  {
    assert Le(b / 256, 0) == [];
  }
}

/** The table part of acpi_build in acpi-build.c: all tables in one file, the RSDP in another, one
    script; and what a guest that runs the script finds. */
module AcpiBuild {
  import opened Bytes
  import opened Linker
  import opened LinkerBuild
  import opened LinkerOrder
  import opened FadtBuild

  type Desc = t: AcpiTable | t.Valid() witness AcpiTable(Fill(4, 0), 0, [], [])

  /** A table built between acpi_table_begin and acpi_table_end. */
  datatype Entry = Entry(t: Desc, ps: seq<Piece>)

  /** What there is to build: the FACS, the AML of the DSDT, the FADT's registers, the tables from
      the MADT to the WAET that the machine calls for, and the user's own tables; for old machine
      types, which have a legacy table size, what fixes the size of the file. */
  datatype Config = Config(facs: seq<byte>, dsdt: Desc, aml: seq<byte>, fadt: FadtData, tables: seq<Entry>,
                           userTables: seq<seq<byte>>, oemId: seq<byte>, oemTableId: seq<byte>, rsdpOemId: seq<byte>,
                           rsdpInRam: bool, legacyTableSize: nat, apicIdLimit: nat) {
    /** What the source asserts, and what its builders do: a slot refers to the tables or to a file
        its table has reserved before. */
    ghost predicate Valid() {
      fadt.rev <= 6 && |oemId| <= 6 && |oemTableId| <= 8 && |rsdpOemId| == 6
      && forall i :: 0 <= i < |tables| ==> Placed(tables[i].ps, {TableFile})
    }
  }

  // ----- the layout -----

  function BytesOf(e: Entry): seq<byte> { TableBytes(e.t, e.ps) }

  function EntryBytes(es: seq<Entry>): seq<byte> {
    if es == [] then [] else BytesOf(es[0]) + EntryBytes(es[1..])
  }

  /** Where tables laid end to end begin. */
  function EntryStarts(es: seq<Entry>, at: nat): (r: seq<nat>)
    ensures |r| == |es|
  {
    if es == [] then [] else [at] + EntryStarts(es[1..], at + |BytesOf(es[0])|)
  }

  function EntryCommands(es: seq<Entry>, at: nat): seq<Command> {
    if es == [] then [] else TableCommands(es[0].ps, at) + EntryCommands(es[1..], at + |BytesOf(es[0])|)
  }

  function UserBytes(us: seq<seq<byte>>): seq<byte> {
    if us == [] then [] else us[0] + UserBytes(us[1..])
  }

  function UserStarts(us: seq<seq<byte>>, at: nat): (r: seq<nat>)
    ensures |r| == |us|
  {
    if us == [] then [] else [at] + UserStarts(us[1..], at + |us[0]|)
  }

  function Dsdt(c: Config): Entry { Entry(c.dsdt, [Raw(c.aml)]) }

  function Fadt(c: Config): Entry
    requires c.Valid()
  {
    var f := c.fadt.(facs := Some(0), dsdt := Some(|c.facs|), xdsdt := Some(|c.facs|));
    Entry(FadtTable(f, c.oemId, c.oemTableId), FadtPieces(f))
  }

  /** The tables with a checksum command, the RSDT apart. */
  function Built(c: Config): seq<Entry>
    requires c.Valid()
  {
    [Dsdt(c), Fadt(c)] + c.tables
  }

  function UsersAt(c: Config): nat
    requires c.Valid()
  {
    |c.facs| + |EntryBytes(Built(c))|
  }

  function RsdtAt(c: Config): nat
    requires c.Valid()
  {
    UsersAt(c) + |UserBytes(c.userTables)|
  }

  /** What the RSDT lists: every table built but the DSDT, then the user's. */
  function Listed(c: Config): seq<nat>
    requires c.Valid()
  {
    EntryStarts(Built(c), |c.facs|)[1..] + UserStarts(c.userTables, UsersAt(c))
  }

  function Rsdt(c: Config): Entry
    requires c.Valid()
  {
    Entry(AcpiTable(RSDT, 1, c.oemId, c.oemTableId), Entries(4, Listed(c)))
  }

  function Rsdp(c: Config): RsdpData
    requires c.Valid()
  {
    RsdpData(0, c.rsdpOemId, Some(RsdtAt(c)), None)
  }

  /** The tables end to end. */
  function Laid(c: Config): seq<byte>
    requires c.Valid()
  {
    c.facs + EntryBytes(Built(c)) + UserBytes(c.userTables) + BytesOf(Rsdt(c))
  }

  /** aml_len: the DSDT and the FADT. */
  function AmlLength(c: Config): nat
    requires c.Valid()
  {
    |BytesOf(Dsdt(c))| + |BytesOf(Fadt(c))|
  }

  const ACPI_BUILD_ALIGN_SIZE: nat := 0x1000
  const ACPI_BUILD_TABLE_SIZE: nat := 0x20000
  const ACPI_BUILD_LEGACY_CPU_AML_SIZE: nat := 97

  function RoundUp(n: nat, d: nat): (r: nat)
    requires d > 0
    ensures n <= r < n + d && r % d == 0
  {
    ModUnique((n + d - 1) / d * d, d, (n + d - 1) / d, 0);
    (n + d - 1) / d * d
  }

  /** The size the file is set to: a multiple of 128 KiB, or what an old machine type always had. */
  function FileSize(c: Config): nat
    requires c.Valid()
  {
    var n := |Laid(c)|;
    if c.legacyTableSize == 0 then RoundUp(n, ACPI_BUILD_TABLE_SIZE)
    else
      AmlInside(c);
      RoundUp(n - AmlLength(c) + LegacyAmlLength(c), ACPI_BUILD_ALIGN_SIZE)
  }

  function LegacyAmlLength(c: Config): nat { c.legacyTableSize + ACPI_BUILD_LEGACY_CPU_AML_SIZE * c.apicIdLimit }

  /** g_array_set_size: zeros are added, or the end is cut off. */
  function Resized(s: seq<byte>, n: nat): (r: seq<byte>)
    ensures |r| == n
  {
    if n < |s| then s[..n] else s + Fill(n - |s|, 0)
  }

  /** The two files. */
  function TableContents(c: Config): (r: seq<byte>)
    requires c.Valid()
    ensures |r| == FileSize(c)
  {
    Resized(Laid(c), FileSize(c))
  }

  function Files(c: Config): Memory
    requires c.Valid()
  {
    map[TableFile := TableContents(c), RsdpFile := RsdpContents(c)]
  }

  /** The file is large enough for the tables. */
  predicate Whole(c: Config)
    requires c.Valid()
  {
    |Laid(c)| <= FileSize(c)
  }

  /** A configuration whose tables are kept whole in a file below 4 GiB. */
  ghost predicate Sound(c: Config) { c.Valid() && Whole(c) && FileSize(c) < 0x1_0000_0000 }

  function RsdpContents(c: Config): seq<byte>
    requires c.Valid()
  {
    RsdpBytes(Rsdp(c)) + if c.rsdpInRam then [] else Fill(16, 0)
  }

  function Script(c: Config): seq<Command>
    requires c.Valid()
  {
    [Allocate(TableFile, 64, false)] + EntryCommands(Built(c), |c.facs|) + TableCommands(Rsdt(c).ps, RsdtAt(c))
    + RsdpCommands(Rsdp(c), 0)
  }

  // ----- building -----

  lemma {:induction false} BytesSplit(xs: seq<Entry>, ys: seq<Entry>)
    ensures EntryBytes(xs + ys) == EntryBytes(xs) + EntryBytes(ys)
  {
    hide BytesOf;
    if xs == [] {
      assert xs + ys == ys;
    } else {
      assert (xs + ys)[1..] == xs[1..] + ys;
      BytesSplit(xs[1..], ys);
    }
  }

  lemma {:induction false} StartsSplit(xs: seq<Entry>, ys: seq<Entry>, at: nat)
    ensures EntryStarts(xs + ys, at) == EntryStarts(xs, at) + EntryStarts(ys, at + |EntryBytes(xs)|)
  {
    hide BytesOf;
    var all := xs + ys;
    if xs == [] {
      assert all == ys;
    } else {
      var next := at + |BytesOf(xs[0])|;
      assert all[1..] == xs[1..] + ys && all[0] == xs[0];
      StartsSplit(xs[1..], ys, next);
      assert EntryStarts(all, at) == [at] + EntryStarts(all[1..], next);
      assert EntryStarts(xs, at) == [at] + EntryStarts(xs[1..], next);
    }
  }

  lemma {:induction false} CommandsSplit(xs: seq<Entry>, ys: seq<Entry>, at: nat)
    ensures EntryCommands(xs + ys, at) == EntryCommands(xs, at) + EntryCommands(ys, at + |EntryBytes(xs)|)
  {
    hide BytesOf, TableCommands;
    if xs == [] {
      assert xs + ys == ys;
    } else {
      assert (xs + ys)[1..] == xs[1..] + ys;
      CommandsSplit(xs[1..], ys, at + |BytesOf(xs[0])|);
    }
  }

  lemma EntriesSplit(xs: seq<Entry>, ys: seq<Entry>, at: nat)
    ensures EntryBytes(xs + ys) == EntryBytes(xs) + EntryBytes(ys)
    ensures EntryStarts(xs + ys, at) == EntryStarts(xs, at) + EntryStarts(ys, at + |EntryBytes(xs)|)
    ensures EntryCommands(xs + ys, at) == EntryCommands(xs, at) + EntryCommands(ys, at + |EntryBytes(xs)|)
  {
    hide EntryBytes, EntryStarts, EntryCommands;
    BytesSplit(xs, ys);
    StartsSplit(xs, ys, at);
    CommandsSplit(xs, ys, at);
  }

  lemma OneEntryIs(e: Entry, at: nat)
    ensures EntryBytes([e]) == BytesOf(e) && EntryStarts([e], at) == [at]
          && EntryCommands([e], at) == TableCommands(e.ps, at)
  {
    hide BytesOf, TableCommands;
    assert [e][1..] == [];
    assert BytesOf(e) + [] == BytesOf(e) && TableCommands(e.ps, at) + [] == TableCommands(e.ps, at);
  }

  lemma {:induction false} UsersSplit(xs: seq<seq<byte>>, u: seq<byte>, at: nat)
    ensures UserBytes(xs + [u]) == UserBytes(xs) + u
    ensures UserStarts(xs + [u], at) == UserStarts(xs, at) + [at + |UserBytes(xs)|]
  {
    var all := xs + [u];
    if xs == [] {
      assert all == [u] && all[1..] == [];
      assert u + [] == u;
    } else {
      var rest := xs[1..];
      assert all[1..] == rest + [u] && all[0] == xs[0];
      UsersSplit(rest, u, at + |xs[0]|);
      assert UserBytes(all) == xs[0] + (UserBytes(rest) + u);
    }
  }

  /** acpi_add_table and the builder of each table, in turn. */
  method BuildTables(tbl: ByteVec, linker: BIOSLinker, es: seq<Entry>) returns (tableOffsets: seq<nat>)
    modifies tbl, linker
    ensures tbl.data == old(tbl.data) + EntryBytes(es)
    ensures linker.commands == old(linker.commands) + EntryCommands(es, |old(tbl.data)|)
    ensures tableOffsets == EntryStarts(es, |old(tbl.data)|)
  {
    hide TableBytes, TableCommands;
    ghost var at := |tbl.data|;
    tableOffsets := [];
    for i := 0 to |es|
      invariant tbl.data == old(tbl.data) + EntryBytes(es[..i])
      invariant linker.commands == old(linker.commands) + EntryCommands(es[..i], at)
      invariant tableOffsets == EntryStarts(es[..i], at)
    {
      EntriesSplit(es[..i], [es[i]], at);
      OneEntryIs(es[i], |tbl.data|);
      tableOffsets := tableOffsets + [|tbl.data|];
      BuildTable(es[i].t, tbl, linker, es[i].ps);
      PrefixSnoc(es, i);
    }
    assert es[..|es|] == es;
  }

  /** The user's tables are copied as they are. */
  method AppendUserTables(tbl: ByteVec, us: seq<seq<byte>>) returns (tableOffsets: seq<nat>)
    modifies tbl
    ensures tbl.data == old(tbl.data) + UserBytes(us) && tableOffsets == UserStarts(us, |old(tbl.data)|)
  {
    tableOffsets := [];
    for i := 0 to |us|
      invariant tbl.data == old(tbl.data) + UserBytes(us[..i]) && tableOffsets == UserStarts(us[..i], |old(tbl.data)|)
    {
      UsersSplit(us[..i], us[i], |old(tbl.data)|);
      tableOffsets := tableOffsets + [|tbl.data|];
      tbl.Extend(us[i]);
      PrefixSnoc(us, i);
    }
    assert us[..|us|] == us;
  }

  /** g_array_set_size */
  method SetSize(tbl: ByteVec, n: nat)
    modifies tbl
    ensures tbl.data == Resized(old(tbl.data), n)
  {
    if n < |tbl.data| {
      tbl.data := tbl.data[..n];
    } else {
      tbl.Extend(Fill(n - |tbl.data|, 0));
    }
  }

  /** The end of acpi_build: the size is one that does not change between versions. */
  method SetFinalSize(c: Config, tbl: ByteVec, amlLen: nat)
    requires c.Valid() && tbl.data == Laid(c) && amlLen == AmlLength(c)
    modifies tbl
    ensures tbl.data == TableContents(c)
  {
    AmlInside(c);
    hide Laid, AmlLength;
    if c.legacyTableSize != 0 {
      var legacyAmlLen := c.legacyTableSize + ACPI_BUILD_LEGACY_CPU_AML_SIZE * c.apicIdLimit;
      SetSize(tbl, RoundUp(|tbl.data| - amlLen + legacyAmlLen, ACPI_BUILD_ALIGN_SIZE));
    } else {
      SetSize(tbl, RoundUp(|tbl.data|, ACPI_BUILD_TABLE_SIZE));
    }
  }

  /** acpi_build: the files and the script. */
  method BuildAcpi(c: Config) returns (tables: seq<byte>, rsdp: seq<byte>, script: seq<Command>)
    requires c.Valid()
    ensures tables == TableContents(c) && rsdp == RsdpContents(c) && script == Script(c)
  {
    hide TableBytes, TableCommands, EntryBytes, EntryCommands, EntryStarts, UserBytes, UserStarts, FadtPieces,
          RsdpBytes, TableContents;
    var tbl := new ByteVec();
    var rsdpTbl := new ByteVec();
    var linker := new BIOSLinker();
    linker.Alloc(TableFile, 64, false);
    tbl.Extend(c.facs);
    var dsdt := |tbl.data|;
    BuildTable(c.dsdt, tbl, linker, [Raw(c.aml)]);
    var amlLen := |tbl.data| - dsdt;
    var fadtOffset := |tbl.data|;
    var f := c.fadt.(facs := Some(0), dsdt := Some(dsdt), xdsdt := Some(dsdt));
    BuildFadt(tbl, linker, f, c.oemId, c.oemTableId);
    amlLen := amlLen + |tbl.data| - fadtOffset;
    assert amlLen == AmlLength(c);
    var tableOffsets := BuildTables(tbl, linker, c.tables);
    BuiltIs(c, tableOffsets);
    assert tbl.data == c.facs + EntryBytes(Built(c));
    assert linker.commands == [Allocate(TableFile, 64, false)] + EntryCommands(Built(c), |c.facs|);
    var userOffsets := AppendUserTables(tbl, c.userTables);
    tableOffsets := [fadtOffset] + tableOffsets + userOffsets;
    assert tableOffsets == Listed(c);
    var rsdt := |tbl.data|;
    BuildRsdt(tbl, linker, tableOffsets, c.oemId, c.oemTableId);
    LinkerBuild.BuildRsdp(rsdpTbl, linker, RsdpData(0, c.rsdpOemId, Some(rsdt), None));
    if !c.rsdpInRam {
      rsdpTbl.Extend(Fill(16, 0));
    }
    SetFinalSize(c, tbl, amlLen);
    tables, rsdp, script := tbl.data, rsdpTbl.data, linker.commands;
  }

  /** The DSDT and the FADT are among the tables. */
  lemma AmlInside(c: Config)
    requires c.Valid()
    ensures AmlLength(c) <= |Laid(c)|
  {
    hide BytesOf, EntryBytes, UserBytes, Built;
    BuiltIs(c, []);
  }

  /** The first two tables and the rest. */
  lemma BuiltIs(c: Config, rest: seq<nat>)
    requires c.Valid()
    ensures var at := |c.facs| + |BytesOf(Dsdt(c))|;
            EntryBytes(Built(c)) == BytesOf(Dsdt(c)) + BytesOf(Fadt(c)) + EntryBytes(c.tables)
            && EntryStarts(Built(c), |c.facs|) ==
               [|c.facs|] + ([at] + EntryStarts(c.tables, at + |BytesOf(Fadt(c))|))
            && EntryCommands(Built(c), |c.facs|) ==
               TableCommands(Dsdt(c).ps, |c.facs|) + TableCommands(Fadt(c).ps, at)
               + EntryCommands(c.tables, at + |BytesOf(Fadt(c))|)
  {
    hide BytesOf, TableCommands, EntryBytes, EntryCommands, EntryStarts;
    assert Built(c) == ([Dsdt(c)] + [Fadt(c)]) + c.tables;
    EntriesSplit([Dsdt(c)] + [Fadt(c)], c.tables, |c.facs|);
    EntriesSplit([Dsdt(c)], [Fadt(c)], |c.facs|);
    OneEntryIs(Dsdt(c), |c.facs|);
    OneEntryIs(Fadt(c), |c.facs| + |BytesOf(Dsdt(c))|);
  }

  // ----- the script is in order -----

  lemma {:induction false} EntriesTidy(cs: seq<Command>, es: seq<Entry>, at: nat)
    requires Tidy(cs, at, 0, at) && AllAllocated(cs, {TableFile})
    requires forall i :: 0 <= i < |es| ==> Placed(es[i].ps, {TableFile})
    requires |EntryBytes(es)| < 0x1_0000_0000
    ensures Tidy(cs + EntryCommands(es, at), at + |EntryBytes(es)|, 0, at + |EntryBytes(es)|)
    ensures AllAllocated(cs + EntryCommands(es, at), {TableFile})
    decreases es
  {
    hide Tidy, AllAllocated, Placed, TableCommands, TableBytes, BodyBytes;
    if es == [] {
      assert cs + EntryCommands(es, at) == cs;
    } else {
      BodyFits(es[0]);
      TableTidy(cs, at, 0, es[0].t, es[0].ps, {TableFile});
      var next := cs + TableCommands(es[0].ps, at);
      EntriesTidy(next, es[1..], at + |BytesOf(es[0])|);
      assert next + EntryCommands(es[1..], at + |BytesOf(es[0])|) == cs + EntryCommands(es, at);
    }
  }

  lemma BodyFits(e: Entry)
    ensures |BytesOf(e)| == HEADER + |BodyBytes(e.ps)|
  {
  }

  lemma SlotsPlaced(c: Config)
    requires c.Valid()
    ensures Placed(Dsdt(c).ps, {TableFile}) && Placed(Fadt(c).ps, {TableFile}) && Placed(Rsdt(c).ps, {TableFile})
  {
    EntriesPlaced(4, Listed(c), {TableFile});
    var f := c.fadt.(facs := Some(0), dsdt := Some(|c.facs|), xdsdt := Some(|c.facs|));
    hide Listed, EntryBytes, UserBytes, Legacy, Reset, FadtBuild.Tail;
    OnlyTableSlots(Dsdt(c).ps);
    OnlyTableSlots(FirstPieces(f));
    OnlyTableSlots(MorePieces(f));
    AllPieces(f);
    OnlyTableSlots(FadtPieces(f));
  }

  lemma {:induction false} OnlyTableSlots(ps: seq<Piece>)
    ensures (forall i :: 0 <= i < |ps| ==> !ps[i].Reserve? && (ps[i].Slot? ==> ps[i].src == TableFile))
            ==> Placed(ps, {TableFile})
  {
    if ps != [] {
      OnlyTableSlots(ps[1..]);
    }
  }

  /** Only table commands so far: the RSDP file is untouched. */
  lemma TidyNoRsdp(cs: seq<Command>, tables: nat)
    requires Tidy(cs, tables, 0, tables)
    ensures NoRsdp(cs)
  {
    forall i | 0 <= i < |cs|
      ensures cs[i].Allocate? || cs[i].file == TableFile
    {
      assert Within(cs[i], tables, 0);
    }
  }

  lemma Placement(c: Config)
    requires c.Valid() && Whole(c)
    ensures TableContents(c)[..|c.facs|] == c.facs && RsdtAt(c) + |BytesOf(Rsdt(c))| <= |TableContents(c)|
    ensures |RsdpBytes(Rsdp(c))| == 20 <= |RsdpContents(c)|
  {
    hide EntryBytes, UserBytes, BytesOf, Built;
    RsdpLength(Rsdp(c));
  }

  /** The script up to the last table the machine calls for. */
  function BuiltScript(c: Config): seq<Command>
    requires c.Valid()
  {
    [Allocate(TableFile, 64, false)] + EntryCommands(Built(c), |c.facs|)
  }

  lemma BuiltTidy(c: Config)
    requires Sound(c)
    ensures Tidy(BuiltScript(c), UsersAt(c), 0, UsersAt(c)) && AllAllocated(BuiltScript(c), {TableFile})
  {
    hide Tidy, AllAllocated, Placed, EntryBytes, EntryCommands, UserBytes, Built;
    BuiltFits(c);
    BuiltPlaced(c);
    FirstTidy(|c.facs|);
    EntriesTidy([Allocate(TableFile, 64, false)], Built(c), |c.facs|);
  }

  lemma FirstTidy(n: nat)
    ensures Tidy([Allocate(TableFile, 64, false)], n, 0, n)
          && AllAllocated([Allocate(TableFile, 64, false)], {TableFile})
  {
    var first := [Allocate(TableFile, 64, false)];
    assert first[0].Allocate?;
  }

  lemma BuiltPlaced(c: Config)
    requires c.Valid()
    ensures forall i :: 0 <= i < |Built(c)| ==> Placed(Built(c)[i].ps, {TableFile})
  {
    SlotsPlaced(c);
    hide Placed, Dsdt, Fadt;
    forall i | 0 <= i < |Built(c)|
      ensures Placed(Built(c)[i].ps, {TableFile})
    {
      assert i >= 2 ==> Built(c)[i] == c.tables[i - 2];
    }
  }

  /** With the RSDT. */
  lemma RsdtTidy(c: Config)
    requires Sound(c)
    ensures var n, cs := RsdtAt(c) + |BytesOf(Rsdt(c))|, BuiltScript(c) + TableCommands(Rsdt(c).ps, RsdtAt(c));
            Tidy(cs, n, 0, n) && AllAllocated(cs, {TableFile})
  {
    hide Tidy, AllAllocated, Placed, TableCommands, TableBytes, EntryBytes, UserBytes, Built, Listed, BuiltScript,
          BodyBytes;
    var cs := BuiltScript(c);
    BuiltTidy(c);
    BuiltFits(c);
    SlotsPlaced(c);
    BodyFits(Rsdt(c));
    Grow(cs, UsersAt(c), 0, UsersAt(c), RsdtAt(c), 0);
    Grow(cs, RsdtAt(c), 0, UsersAt(c), RsdtAt(c), 0);
    TableTidy(cs, RsdtAt(c), 0, Rsdt(c).t, Rsdt(c).ps, {TableFile});
  }

  /** The whole script stays inside the two files, is in order, and refers to files already placed. */
  lemma ScriptTidy(c: Config)
    requires Sound(c)
    ensures Ordered(Script(c)) && Sourced(Script(c))
    ensures AllFit(Script(c), Files(c))
  {
    hide Tidy, AllAllocated, TableCommands, BytesOf, EntryCommands, Built, Rsdt, TableContents, RsdpContents;
    var n, cs := RsdtAt(c) + |BytesOf(Rsdt(c))|, BuiltScript(c) + TableCommands(Rsdt(c).ps, RsdtAt(c));
    Placement(c);
    RsdtTidy(c);
    TidyNoRsdp(cs, n);
    KnowsTables(cs);
    RsdpTidy(cs, n, Rsdp(c));
    TidyFits(Script(c), n, |RsdpBytes(Rsdp(c))|, TableContents(c), RsdpContents(c));
  }

  /** Machine types without a legacy size keep their tables whole; so do the others while DSDT and FADT
      are no longer than the legacy ones, and 4 KiB more are always cut off. */
  lemma SizeKeepsTables(c: Config)
    requires c.Valid()
    ensures c.legacyTableSize == 0 || AmlLength(c) <= LegacyAmlLength(c) ==> Whole(c)
    ensures c.legacyTableSize != 0 && AmlLength(c) >= LegacyAmlLength(c) + ACPI_BUILD_ALIGN_SIZE ==> !Whole(c)
  {
    AmlInside(c);
    hide Laid, AmlLength, LegacyAmlLength;
  }

  /** The size in numbers: up to the next 128 KiB; or, for an old machine type, up to the next 4 KiB above
      the tables with the DSDT and the FADT replaced by the legacy size and 97 bytes for each possible
      CPU.  The tables stand in front, and what is added is zero. */
  lemma FileSizeIs(c: Config)
    requires c.Valid()
    ensures var n, size := |Laid(c)|, FileSize(c);
            if c.legacyTableSize == 0 then size % 0x2_0000 == 0 && n <= size < n + 0x2_0000
            else
              var want := n - |BytesOf(Dsdt(c))| - |BytesOf(Fadt(c))| + c.legacyTableSize + 97 * c.apicIdLimit;
              size % 0x1000 == 0 && want <= size < want + 0x1000
    ensures |TableContents(c)| == FileSize(c)
    ensures if Whole(c) then Laid(c) <= TableContents(c)
                             && forall i :: |Laid(c)| <= i < FileSize(c) ==> TableContents(c)[i] == 0
            else TableContents(c) <= Laid(c)
  {
    AmlInside(c);
    hide Laid, BytesOf, Dsdt, Fadt;
  }

  /** The table file is aligned to 64 bytes anywhere; the RSDP is aligned to 16 in the low segment, 20
      bytes and, unless it lives in RAM, 16 zeros that nothing uses. */
  lemma Placing(c: Config)
    requires c.Valid()
    ensures Script(c)[0] == Allocate(TableFile, 64, false) && Allocate(RsdpFile, 16, true) in Script(c)
    ensures RsdpBytes(Rsdp(c)) <= RsdpContents(c) && |RsdpContents(c)| == (if c.rsdpInRam then 20 else 36)
    ensures forall i :: 20 <= i < |RsdpContents(c)| ==> RsdpContents(c)[i] == 0
  {
    hide EntryCommands, TableCommands, EntryBytes, UserBytes, Built, Rsdt, RsdtAt;
    RsdpLength(Rsdp(c));
    assert RsdpCommands(Rsdp(c), 0)[0] == Allocate(RsdpFile, 16, true);
    InScript(c, RsdpCommands(Rsdp(c), 0)[0]);
  }

  /** The script stays inside the files exactly when the final size keeps the tables whole. */
  lemma ScriptFits(c: Config)
    requires c.Valid() && |Laid(c)| < 0x1_0000_0000 && FileSize(c) < 0x1_0000_0000
    ensures AllFit(Script(c), Files(c)) <==> Whole(c)
  {
    hide FileSize, Laid, Script, Files;
    if Whole(c) {
      ScriptTidy(c);
    } else {
      LaidEnds(c);
      RsdtChecksumIn(c);
      var d := AddChecksum(TableFile, RsdtAt(c), |BytesOf(Rsdt(c))|, RsdtAt(c) + 9);
      hide RsdtAt, BytesOf, Rsdt;
      assert !Fits(d, Files(c)) by { TableFileIs(c); }
    }
  }

  lemma TableFileIs(c: Config)
    requires c.Valid()
    ensures TableFile in Files(c) && |Files(c)[TableFile]| == FileSize(c)
  {
  }

  lemma RsdtChecksumIn(c: Config)
    requires c.Valid() && |BytesOf(Rsdt(c))| < 0x1_0000_0000
    ensures AddChecksum(TableFile, RsdtAt(c), |BytesOf(Rsdt(c))|, RsdtAt(c) + 9) in Script(c)
  {
    hide Script, Rsdt, RsdtAt, BodyBytes, BodyCommands, BytesOf;
    BodyFits(Rsdt(c));
    var cs := TableCommands(Rsdt(c).ps, RsdtAt(c));
    assert cs[|cs| - 1] in cs;
    InScript(c, cs[|cs| - 1]);
  }

  lemma LaidEnds(c: Config)
    requires c.Valid()
    ensures |Laid(c)| == RsdtAt(c) + |BytesOf(Rsdt(c))|
  {
    hide Built, EntryBytes, UserBytes, BytesOf, Rsdt;
  }

  lemma KnowsTables(cs: seq<Command>)
    requires AllAllocated(cs, {TableFile})
    ensures Allocated(cs, TableFile)
  {
  }

  lemma TidyFits(cs: seq<Command>, tables: nat, rsdp: nat, tableBytes: seq<byte>, rsdpBytes: seq<byte>)
    requires Tidy(cs, tables, rsdp, tables) && tables <= |tableBytes| && rsdp <= |rsdpBytes|
    ensures Ordered(cs) && Sourced(cs) && AllFit(cs, map[TableFile := tableBytes, RsdpFile := rsdpBytes])
  {
    forall i | 0 <= i < |cs|
      ensures Fits(cs[i], map[TableFile := tableBytes, RsdpFile := rsdpBytes])
    {
      assert Within(cs[i], tables, rsdp);
    }
  }

  // ----- what the guest finds -----

  /** The files as the guest has them after the script. */
  function Patched(c: Config, base: File -> nat): Memory
    requires Sound(c)
  {
    ScriptTidy(c);
    Run(Script(c), base, Files(c))
  }

  /** Every command of the script has done its work in the end. */
  lemma CommandDone(c: Config, base: File -> nat, d: Command)
    requires Sound(c) && d in Script(c)
    ensures Fits(d, Patched(c, base)) && Done(d, base, Patched(c, base))
  {
    hide Run, Fits, Done, Script, TableContents, RsdpContents, Ordered;
    ScriptTidy(c);
    var i :| 0 <= i < |Script(c)| && Script(c)[i] == d;
    ScriptWorks(Script(c), base, Files(c), i);
  }

  lemma {:induction false} ChecksumIn(es: seq<Entry>, at: nat, k: nat)
    requires k < |es| && |EntryBytes(es)| < 0x1_0000_0000
    ensures AddChecksum(TableFile, EntryStarts(es, at)[k], |BytesOf(es[k])|, EntryStarts(es, at)[k]
          + 9) in EntryCommands(es, at)
    decreases k
  {
    hide TableBytes, BodyBytes, BodyCommands;
    BodyFits(es[0]);
    if k > 0 {
      ChecksumIn(es[1..], at + |BytesOf(es[0])|, k - 1);
    } else {
      assert TableCommands(es[0].ps, at)[|BodyCommands(es[0].ps, at + HEADER)|] ==
             AddChecksum(TableFile, at, |BytesOf(es[0])|, at + 9);
    }
  }

  /** Where table `k` of those built lies. */
  function StartOf(c: Config, k: nat): nat
    requires c.Valid() && k < |Built(c)|
  {
    EntryStarts(Built(c), |c.facs|)[k]
  }

  /** All sums are right: those of the tables built, of the RSDT and of the RSDP. */
  ghost predicate SumsRight(c: Config, mem: Memory)
    requires c.Valid()
  {
    TableFile in mem && RsdpFile in mem && |mem[TableFile]| == |TableContents(c)|
          && |mem[RsdpFile]| == |RsdpContents(c)|
    && (forall k :: 0 <= k < |Built(c)| ==> SumZero(mem[TableFile], StartOf(c, k), |BytesOf(Built(c)[k])|))
    && SumZero(mem[TableFile], RsdtAt(c), |BytesOf(Rsdt(c))|) && SumZero(mem[RsdpFile], 0, 20)
  }

  predicate SumZero(s: seq<byte>, start: nat, length: nat) {
    start + length <= |s| && Sum(s[start..start + length]) % 256 == 0
  }

  /** The number in a little-endian field. */
  function FieldAt(s: seq<byte>, at: nat, size: nat): nat {
    if at + size <= |s| then FromLe(s[at..at + size]) else 0
  }

  /** The FADT leads to the FACS, at the start, and to the DSDT behind it. */
  ghost predicate FadtPointers(c: Config, base: nat, s: seq<byte>)
    requires c.Valid()
  {
    var at := StartOf(c, 1);
    FieldAt(s, at + 36, 4) == base && FieldAt(s, at + 40, 4) == base + |c.facs|
    && (c.fadt.rev != 1 ==> FieldAt(s, at + 140, 8) == base + |c.facs|)
  }

  /** All pointers are right: RSDP to RSDT, RSDT to every table listed, FADT to FACS and DSDT. */
  ghost predicate PointersRight(c: Config, base: nat, mem: Memory)
    requires c.Valid() && TableFile in mem && RsdpFile in mem
  {
    FieldAt(mem[RsdpFile], 16, 4) == base + RsdtAt(c)
    && (forall i :: 0 <= i < |Listed(c)|
          ==> FieldAt(mem[TableFile], RsdtAt(c) + HEADER + 4 * i, 4) == base + Listed(c)[i])
    && FadtPointers(c, base, mem[TableFile])
  }

  lemma TableSums(c: Config, base: File -> nat, k: nat)
    requires Sound(c) && k < |Built(c)|
    ensures TableFile in Patched(c, base) && SumZero(Patched(c, base)[TableFile], StartOf(c, k), |BytesOf(Built(c)[k])|)
  {
    hide Run, TableCommands, BytesOf, EntryStarts, EntryBytes, EntryCommands, Built, UserBytes, Listed, Sum, Patched;
    var d := AddChecksum(TableFile, StartOf(c, k), |BytesOf(Built(c)[k])|, StartOf(c, k) + 9);
    BuiltFits(c);
    ChecksumIn(Built(c), |c.facs|, k);
    InScript(c, d);
    CommandDone(c, base, d);
  }

  lemma BuiltFits(c: Config)
    requires c.Valid() && Whole(c)
    ensures |EntryBytes(Built(c))| <= |TableContents(c)| && RsdtAt(c) + |BytesOf(Rsdt(c))| <= |TableContents(c)|
  {
    hide Built, EntryBytes, UserBytes, BytesOf;
  }

  lemma InScript(c: Config, d: Command)
    requires c.Valid()
    requires d in EntryCommands(Built(c), |c.facs|) || d in TableCommands(Rsdt(c).ps,
          RsdtAt(c)) || d in RsdpCommands(Rsdp(c), 0)
    ensures d in Script(c)
  {
    hide Built, EntryCommands, TableCommands, RsdpCommands, Rsdt, RsdtAt, Rsdp;
  }

  lemma RsdtSum(c: Config, base: File -> nat)
    requires Sound(c)
    ensures TableFile in Patched(c, base) && SumZero(Patched(c, base)[TableFile], RsdtAt(c), |BytesOf(Rsdt(c))|)
  {
    hide Run, BytesOf, Sum, Patched, RsdtAt, Rsdt, FileSize, Laid, Script;
    BuiltFits(c);
    RsdtChecksumIn(c);
    CommandDone(c, base, AddChecksum(TableFile, RsdtAt(c), |BytesOf(Rsdt(c))|, RsdtAt(c) + 9));
  }

  lemma RsdpDone(c: Config, base: File -> nat)
    requires Sound(c)
    ensures RsdpFile in Patched(c, base) && SumZero(Patched(c, base)[RsdpFile], 0, 20)
    ensures Patched(c, base)[RsdpFile][16..20] == Le(base(TableFile) + RsdtAt(c), 4)
  {
    hide RsdtAt, Sum, Patched, Le, TableContents, Script;
    var p, d := AddPointer(RsdpFile, 16, 4, TableFile, RsdtAt(c)), AddChecksum(RsdpFile, 0, 20, 8);
    RsdpCommandsIn(c);
    CommandDone(c, base, p);
    CommandDone(c, base, d);
  }

  lemma RsdpCommandsIn(c: Config)
    requires c.Valid()
    ensures AddPointer(RsdpFile, 16, 4, TableFile, RsdtAt(c)) in Script(c)
          && AddChecksum(RsdpFile, 0, 20, 8) in Script(c)
  {
    hide RsdtAt, Script;
    var cs := RsdpCommands(Rsdp(c), 0);
    assert cs[1] == AddPointer(RsdpFile, 16, 4, TableFile, RsdtAt(c)) && cs[2] == AddChecksum(RsdpFile, 0, 20, 8);
    InScript(c, cs[1]);
    InScript(c, cs[2]);
  }

  /** Wherever the guest places the files, every table it is led to adds up to 0. */
  lemma GuestSums(c: Config, base: File -> nat)
    requires Sound(c)
    ensures SumsRight(c, Patched(c, base))
  {
    hide Run, Built, EntryBytes, UserBytes, BytesOf, SumZero, Patched, StartOf, RsdtAt;
    PatchedSizes(c, base);
    forall k | 0 <= k < |Built(c)|
      ensures SumZero(Patched(c, base)[TableFile], StartOf(c, k), |BytesOf(Built(c)[k])|)
    {
      TableSums(c, base, k);
    }
    RsdtSum(c, base);
    RsdpDone(c, base);
  }

  lemma PatchedSizes(c: Config, base: File -> nat)
    requires Sound(c)
    ensures Patched(c, base).Keys == {TableFile, RsdpFile}
    ensures |Patched(c, base)[TableFile]| == |TableContents(c)| && |Patched(c, base)[RsdpFile]| == |RsdpContents(c)|
  {
    hide Run, Script, TableContents, RsdpContents;
    ScriptTidy(c);
    RunKeepsSizes(Script(c), base, Files(c));
  }

  /** A slot holds the address of what it points at, if that is below 4 GiB. */
  lemma SlotHolds(c: Config, base: File -> nat, d: Command)
    requires Sound(c) && d in Script(c)
    requires d.AddPointer? && (d.size == 4 || d.size == 8) && base(d.src) + d.srcOffset < 0x1_0000_0000
    ensures d.file in Patched(c, base)
    ensures FieldAt(Patched(c, base)[d.file], d.offset, d.size) == base(d.src) + d.srcOffset
  {
    hide Patched, Script, TableContents, Le, FromLe;
    CommandDone(c, base, d);
    PowersOf256();
    LeFits(base(d.src) + d.srcOffset, d.size);
  }

  lemma ListedBelow(c: Config, i: nat)
    requires c.Valid() && Whole(c) && i < |Listed(c)|
    ensures Listed(c)[i] <= RsdtAt(c) && RsdtAt(c) < |TableContents(c)| && |c.facs| <= |TableContents(c)|
  {
    hide BytesOf, EntryBytes, EntryStarts, UserBytes, UserStarts, Built;
    var n := |Built(c)| - 1;
    BuiltCount(c);
    if i < n {
      StartsBelow(Built(c), |c.facs|, i + 1);
    } else {
      UsersBelow(c.userTables, UsersAt(c), i - n);
    }
    SomeBytes(Rsdt(c));
  }

  lemma BuiltCount(c: Config)
    requires c.Valid()
    ensures |Built(c)| >= 2
  {
  }

  lemma SomeBytes(e: Entry)
    ensures |BytesOf(e)| > 0
  {
  }

  lemma {:induction false} StartsBelow(es: seq<Entry>, at: nat, k: nat)
    requires k < |es|
    ensures at <= EntryStarts(es, at)[k] && EntryStarts(es, at)[k] + |BytesOf(es[k])| <= at + |EntryBytes(es)|
    decreases k
  {
    hide BytesOf;
    if k > 0 {
      StartsBelow(es[1..], at + |BytesOf(es[0])|, k - 1);
    }
  }

  lemma {:induction false} UsersBelow(us: seq<seq<byte>>, at: nat, k: nat)
    requires k < |us|
    ensures at <= UserStarts(us, at)[k] && UserStarts(us, at)[k] + |us[k]| <= at + |UserBytes(us)|
    decreases k
  {
    if k > 0 {
      UsersBelow(us[1..], at + |us[0]|, k - 1);
    }
  }

  /** The pointer command of an RSDT entry. */
  lemma RsdtCommandIn(c: Config, i: nat)
    requires c.Valid() && i < |Listed(c)|
    ensures AddPointer(TableFile, RsdtAt(c) + HEADER + 4 * i, 4, TableFile, Listed(c)[i]) in Script(c)
  {
    hide Script, Listed, RsdtAt, BodyCommands, BodyBytes, Entries;
    var at := RsdtAt(c) + HEADER;
    EntriesAre(4, Listed(c), at);
    var body := BodyCommands(Rsdt(c).ps, at);
    assert body[i] in body;
    InScript(c, body[i]);
  }

  lemma RsdtEntryRight(c: Config, base: File -> nat, i: nat)
    requires Sound(c) && base(TableFile) + |TableContents(c)| < 0x1_0000_0000 && i < |Listed(c)|
    ensures TableFile in Patched(c, base)
    ensures FieldAt(Patched(c, base)[TableFile], RsdtAt(c) + HEADER + 4 * i, 4) == base(TableFile) + Listed(c)[i]
  {
    hide Patched, Listed, RsdtAt, FieldAt, Script, TableContents;
    RsdtCommandIn(c, i);
    ListedBelow(c, i);
    SlotHolds(c, base, AddPointer(TableFile, RsdtAt(c) + HEADER + 4 * i, 4, TableFile, Listed(c)[i]));
  }

  lemma FadtIn(c: Config, d: Command)
    requires c.Valid() && d in TableCommands(Fadt(c).ps, StartOf(c, 1))
    ensures d in Script(c)
  {
    hide TableCommands, EntryBytes, EntryCommands, EntryStarts, BytesOf;
    BuiltIs(c, []);
    InScript(c, d);
  }

  /** The pointer commands of the FADT. */
  lemma FadtCommands(c: Config)
    requires c.Valid()
    ensures var at := StartOf(c, 1);
            AddPointer(TableFile, at + 36, 4, TableFile, 0) in Script(c)
            && AddPointer(TableFile, at + 40, 4, TableFile, |c.facs|) in Script(c)
            && (c.fadt.rev != 1 ==> AddPointer(TableFile, at + 140, 8, TableFile, |c.facs|) in Script(c))
  {
    hide StartOf, FadtPieces, TableCommands, Script;
    var f, at := c.fadt.(facs := Some(0), dsdt := Some(|c.facs|), xdsdt := Some(|c.facs|)), StartOf(c, 1);
    FadtBuild.Layout(f, at);
    FadtIn(c, AddPointer(TableFile, at + 36, 4, TableFile, 0));
    FadtIn(c, AddPointer(TableFile, at + 40, 4, TableFile, |c.facs|));
    if f.rev != 1 {
      FadtIn(c, AddPointer(TableFile, at + 140, 8, TableFile, |c.facs|));
    }
  }

  lemma FacsFits(c: Config)
    requires c.Valid() && Whole(c)
    ensures |c.facs| <= |TableContents(c)|
  {
    Placement(c);
  }

  lemma FadtSlot(c: Config, base: File -> nat, offset: nat, size: nat, target: nat)
    requires Sound(c) && base(TableFile) + |TableContents(c)| < 0x1_0000_0000 && (size == 4 || size == 8)
    requires AddPointer(TableFile, offset, size, TableFile, target) in Script(c) && target <= |c.facs|
    ensures TableFile in Patched(c, base)
    ensures FieldAt(Patched(c, base)[TableFile], offset, size) == base(TableFile) + target
  {
    hide Patched, Script, FieldAt, TableContents;
    FacsFits(c);
    SlotHolds(c, base, AddPointer(TableFile, offset, size, TableFile, target));
  }

  lemma FadtRight(c: Config, base: File -> nat)
    requires Sound(c) && base(TableFile) + |TableContents(c)| < 0x1_0000_0000
    ensures TableFile in Patched(c, base) && FadtPointers(c, base(TableFile), Patched(c, base)[TableFile])
  {
    hide Patched, StartOf, Script, FieldAt, TableContents, Whole, FileSize, Built;
    BuiltCount(c);
    FadtCommands(c);
    var at := StartOf(c, 1);
    FadtSlot(c, base, at + 36, 4, 0);
    FadtSlot(c, base, at + 40, 4, |c.facs|);
    if c.fadt.rev != 1 {
      FadtSlot(c, base, at + 140, 8, |c.facs|);
    }
  }

  /** As long as the tables are placed below 4 GiB, the guest is led from the RSDP to the RSDT, from
      there to every table built but the DSDT and to every table of the user, in order, and from the
      FADT to the FACS and the DSDT. */
  lemma GuestPointers(c: Config, base: File -> nat)
    requires Sound(c) && base(TableFile) + |TableContents(c)| < 0x1_0000_0000
    ensures Patched(c, base).Keys == {TableFile, RsdpFile} && PointersRight(c, base(TableFile), Patched(c, base))
  {
    hide Patched, StartOf, Listed, RsdtAt, TableContents, Le, FromLe;
    PatchedSizes(c, base);
    RsdpDone(c, base);
    RsdtBelow(c);
    PowersOf256();
    LeFits(base(TableFile) + RsdtAt(c), 4);
    Placement(c);
    FadtRight(c, base);
    hide FieldAt;
    forall i | 0 <= i < |Listed(c)|
      ensures FieldAt(Patched(c, base)[TableFile], RsdtAt(c) + HEADER + 4 * i, 4) == base(TableFile) + Listed(c)[i]
    {
      RsdtEntryRight(c, base, i);
    }
  }

  lemma RsdtBelow(c: Config)
    requires c.Valid() && Whole(c)
    ensures RsdtAt(c) < |TableContents(c)|
  {
    BuiltFits(c);
    SomeBytes(Rsdt(c));
  }

  // ----- the RSDP has to be at the start of its file -----

  /** The commands of build_rsdp stay inside the RSDP and leave its signature alone exactly when it
      is at the start of its file. */
  lemma RsdpOnlyAtStart(d: RsdpData, off: nat, mem: Memory)
    requires d.Valid() && RsdpFile in mem && |mem[RsdpFile]| == off + |RsdpBytes(d)|
    ensures (AllFit(RsdpCommands(d, off), mem) && forall i :: 0 <= i < |RsdpCommands(d, off)| ==>
               Spares(RsdpCommands(d, off)[i], RsdpFile, off, off + 8)) <==> off == 0
  {
    RsdpLength(d);
    var cs := RsdpCommands(d, off);
    var k := if d.rsdt.Some? then 2 else 1;
    assert cs[k] == AddChecksum(RsdpFile, off, 20, 8);
    if off > 0 {
      assert !Fits(cs[k], mem) || !Spares(cs[k], RsdpFile, off, off + 8);
    }
  }

  // ----- the script damages no header -----

  predicate SparedBy(cs: seq<Command>, from: nat, to: nat) {
    forall i :: 0 <= i < |cs| ==> Spares(cs[i], TableFile, from, to)
  }

  lemma {:induction false} BodySpares(ps: seq<Piece>, at: nat, from: nat, to: nat)
    requires to <= at || at + |BodyBytes(ps)| <= from
    ensures SparedBy(BodyCommands(ps, at), from, to)
    decreases ps
  {
    if ps != [] {
      BodySpares(ps[1..], at + |PieceBytes(ps[0])|, from, to);
    }
  }

  /** The commands of a table leave its header, up to the checksum, and everything outside it. */
  lemma TableSpares(e: Entry, at: nat, from: nat, to: nat)
    requires to <= at + 9 || at + |BytesOf(e)| <= from
    ensures SparedBy(TableCommands(e.ps, at), from, to)
  {
    hide BodyBytes, BodyCommands, BytesOf;
    BodyFits(e);
    BodySpares(e.ps, at + HEADER, from, to);
  }

  lemma {:induction false} EntriesSpare(es: seq<Entry>, at: nat, from: nat, to: nat)
    requires to <= at + 9 || at + |EntryBytes(es)| <= from
    ensures SparedBy(EntryCommands(es, at), from, to)
    decreases es
  {
    hide BytesOf, TableCommands, Spares;
    if es != [] {
      TableSpares(es[0], at, from, to);
      EntriesSpare(es[1..], at + |BytesOf(es[0])|, from, to);
    }
  }

  lemma {:induction false} HeaderSpared(es: seq<Entry>, at: nat, k: nat)
    requires k < |es|
    ensures SparedBy(EntryCommands(es, at), EntryStarts(es, at)[k], EntryStarts(es, at)[k] + 9)
    decreases k
  {
    hide BytesOf, TableCommands, Spares;
    var start, next := EntryStarts(es, at)[k], at + |BytesOf(es[0])|;
    if k == 0 {
      TableSpares(es[0], at, at, at + 9);
      EntriesSpare(es[1..], next, at, at + 9);
    } else {
      StartsBelow(es[1..], next, k - 1);
      TableSpares(es[0], at, start, start + 9);
      HeaderSpared(es[1..], next, k - 1);
    }
  }

  /** A part of some bytes stands at this place. */
  predicate StandsAt(s: seq<byte>, o: int, part: seq<byte>) {
    0 <= o && o + |part| <= |s| && s[o..o + |part|] == part
  }

  lemma StandsFirst(a: seq<byte>, b: seq<byte>)
    ensures StandsAt(a + b, 0, a)
  {
  }

  /** What stands in the second part stands behind the first in the whole, and what stands in the first
      part still stands there. */
  lemma StandsBehind(a: seq<byte>, b: seq<byte>, o: int, part: seq<byte>)
    requires StandsAt(b, o, part)
    ensures StandsAt(a + b, |a| + o, part)
  {
    SliceOfTail(a, b, |a| + o, |a| + o + |part|);
  }

  lemma StandsBefore(a: seq<byte>, b: seq<byte>, o: int, part: seq<byte>)
    requires StandsAt(a, o, part)
    ensures StandsAt(a + b, o, part)
  {
    assert (a + b)[o..o + |part|] == a[o..o + |part|];
  }

  lemma EntriesUnfold(es: seq<Entry>, at: nat, k: nat)
    requires k < |es|
    ensures EntryBytes(es) == BytesOf(es[0]) + EntryBytes(es[1..])
    ensures EntryStarts(es, at)[k] == if k == 0 then at else EntryStarts(es[1..], at + |BytesOf(es[0])|)[k - 1]
  {
    hide BytesOf;
  }

  lemma EntryFirst(es: seq<Entry>, at: nat)
    requires es != []
    ensures StandsAt(EntryBytes(es), EntryStarts(es, at)[0] - at, BytesOf(es[0]))
  {
    EntriesUnfold(es, at, 0);
    hide BytesOf, EntryBytes, EntryStarts, StandsAt;
    StandsFirst(BytesOf(es[0]), EntryBytes(es[1..]));
  }

  lemma EntryLater(es: seq<Entry>, at: nat, k: nat)
    requires 0 < k < |es|
    requires var next := at + |BytesOf(es[0])|;
             StandsAt(EntryBytes(es[1..]), EntryStarts(es[1..], next)[k - 1] - next, BytesOf(es[k]))
    ensures StandsAt(EntryBytes(es), EntryStarts(es, at)[k] - at, BytesOf(es[k]))
  {
    hide BytesOf, EntryBytes, EntryStarts, StandsAt;
    EntriesUnfold(es, at, k);
    var next := at + |BytesOf(es[0])|;
    StandsBehind(BytesOf(es[0]), EntryBytes(es[1..]), EntryStarts(es[1..], next)[k - 1] - next, BytesOf(es[k]));
  }

  lemma {:induction false} EntryThere(es: seq<Entry>, at: nat, k: nat)
    requires k < |es|
    ensures StandsAt(EntryBytes(es), EntryStarts(es, at)[k] - at, BytesOf(es[k]))
    decreases k
  {
    hide BytesOf, EntryBytes, EntryStarts, StandsAt;
    if k == 0 {
      EntryFirst(es, at);
    } else {
      EntryThere(es[1..], at + |BytesOf(es[0])|, k - 1);
      EntryLater(es, at, k);
    }
  }

  /** Signature, length and revision, as acpi_table_begin and acpi_table_end left them. */
  predicate HeaderAt(s: seq<byte>, at: nat, t: AcpiTable, length: nat) {
    at + 9 <= |s| && s[at..at + 4] == t.sig && FieldAt(s, at + 4, 4) == length && s[at + 8] == t.rev
  }

  lemma ScriptSpares(c: Config, k: nat)
    requires c.Valid() && k < |Built(c)|
    ensures SparedBy(Script(c), StartOf(c, k), StartOf(c, k) + 9)
  {
    hide BytesOf, TableCommands, EntryCommands, EntryBytes, EntryStarts, UserBytes, Built, Rsdt;
    var start := StartOf(c, k);
    HeaderSpared(Built(c), |c.facs|, k);
    StartsBelow(Built(c), |c.facs|, k);
    BodyFits(Built(c)[k]);
    TableSpares(Rsdt(c), RsdtAt(c), start, start + 9);
    assert SparedBy([Allocate(TableFile, 64, false)], start, start + 9);
    assert SparedBy(RsdpCommands(Rsdp(c), 0), start, start + 9);
  }

  /** What stands among the tables stands in the file. */
  lemma StandsInFile(c: Config, o: int, part: seq<byte>)
    requires Sound(c) && StandsAt(Laid(c), o, part)
    ensures StandsAt(TableContents(c), o, part)
  {
    hide Laid, StandsAt, FileSize;
    var zeros := Fill(FileSize(c) - |Laid(c)|, 0);
    StandsBefore(Laid(c), zeros, o, part);
    assert TableContents(c) == Laid(c) + zeros;
  }

  lemma BuiltLaid(c: Config, k: nat)
    requires c.Valid() && k < |Built(c)|
    ensures StandsAt(Laid(c), StartOf(c, k), BytesOf(Built(c)[k]))
  {
    hide EntryBytes, UserBytes, Built, Rsdt, BytesOf, StandsAt, EntryStarts;
    EntryThere(Built(c), |c.facs|, k);
    var o, b, all := StartOf(c, k) - |c.facs|, BytesOf(Built(c)[k]), EntryBytes(Built(c));
    StandsBehind(c.facs, all, o, b);
    StandsBefore(c.facs + all, UserBytes(c.userTables), |c.facs| + o, b);
    StandsBefore(c.facs + all + UserBytes(c.userTables), BytesOf(Rsdt(c)), |c.facs| + o, b);
  }

  /** The bytes of a table built stand in the file at its start. */
  lemma BuiltStands(c: Config, k: nat)
    requires Sound(c) && k < |Built(c)|
    ensures StandsAt(TableContents(c), StartOf(c, k), BytesOf(Built(c)[k]))
  {
    hide Laid, Built, BytesOf, StandsAt, FileSize, StartOf, TableContents;
    BuiltLaid(c, k);
    StandsInFile(c, StartOf(c, k), BytesOf(Built(c)[k]));
  }

  /** What stands there is a table with its header. */
  lemma StandingHeader(s: seq<byte>, at: nat, e: Entry)
    requires StandsAt(s, at, BytesOf(e)) && |BytesOf(e)| < 0x1_0000_0000
    ensures HeaderAt(s, at, e.t, |BytesOf(e)|)
  {
    hide BytesOf, FromLe;
    HeaderOf(e);
    var n := |BytesOf(e)|;
    SliceOfSlice(s, at, at + n, 0, 4);
    SliceOfSlice(s, at, at + n, 4, 8);
    assert s[at..at + n][..4] == s[at..at + n][0..4];
    assert s[at..at + n][8] == s[at + 8];
  }

  lemma HeaderBuilt(c: Config, k: nat)
    requires Sound(c) && k < |Built(c)|
    ensures HeaderAt(TableContents(c), StartOf(c, k), Built(c)[k].t, |BytesOf(Built(c)[k])|)
  {
    BuiltStands(c, k);
    hide Built, BytesOf, TableContents, FileSize, Laid;
    StandingHeader(TableContents(c), StartOf(c, k), Built(c)[k]);
  }

  lemma HeaderOf(e: Entry)
    requires |BytesOf(e)| < 0x1_0000_0000
    ensures |BytesOf(e)| >= HEADER && BytesOf(e)[..4] == e.t.sig && FromLe(BytesOf(e)[4..8]) == |BytesOf(e)|
    ensures BytesOf(e)[8] == e.t.rev
  {
    hide Le, FromLe, BodyBytes, Padded;
    var n := |BytesOf(e)|;
    BodyFits(e);
    var head := e.t.sig + Le(n, 4) + [e.t.rev, 0];
    assert HeaderBytes(e.t, n)[..10] == head;
    assert BytesOf(e)[..10] == head;
    assert head[..4] == e.t.sig && head[4..8] == Le(n, 4) && head[8] == e.t.rev;
    SliceOfSlice(BytesOf(e), 0, 10, 4, 8);
    SliceOfSlice(BytesOf(e), 0, 10, 0, 4);
    PowersOf256();
    LeFits(n, 4);
  }

  /** The guest finds every table built with its signature, its revision and its true length: the
      script touches slots and checksums only. */
  lemma GuestHeaders(c: Config, base: File -> nat, k: nat)
    requires Sound(c) && k < |Built(c)|
    ensures TableFile in Patched(c, base)
    ensures HeaderAt(Patched(c, base)[TableFile], StartOf(c, k), Built(c)[k].t, |BytesOf(Built(c)[k])|)
  {
    hide TableContents, Script, Built, BytesOf, StartOf, Patched;
    HeaderBuilt(c, k);
    ScriptSpares(c, k);
    var start := StartOf(c, k);
    PatchedSpares(c, base, start, start + 9);
    SameHeader(TableContents(c), Patched(c, base)[TableFile], start, Built(c)[k].t, |BytesOf(Built(c)[k])|);
  }

  /** What is built: the DSDT, the FADT and the tables of the machine in order, the first behind the
      FACS; FADT and RSDT with the OEM strings of the configuration. */
  lemma BuiltTables(c: Config)
    requires c.Valid()
    ensures |Built(c)| == 2 + |c.tables| && Built(c)[2..] == c.tables && StartOf(c, 0) == |c.facs|
    ensures Built(c)[0] == Entry(c.dsdt, [Raw(c.aml)])
    ensures Built(c)[1].t == AcpiTable(Ascii("FACP"), c.fadt.rev, c.oemId, c.oemTableId)
    ensures Rsdt(c).t == AcpiTable(Ascii("RSDT"), 1, c.oemId, c.oemTableId)
  {
    hide BytesOf, EntryBytes, UserBytes, FadtPieces, Entries, Listed;
    Signatures();
    assert Ascii("FACP") == FACP;
    BuiltShape(c);
  }

  /** What the RSDT lists: the FADT, then the tables of the machine, then those of the user, each at the
      place where its bytes are; and not the DSDT. */
  lemma ListedTables(c: Config, k: nat)
    requires c.Valid()
    ensures |Listed(c)| == 1 + |c.tables| + |c.userTables| && |Built(c)| == 2 + |c.tables|
    ensures k < 1 + |c.tables| ==> Listed(c)[k] == StartOf(c, k + 1)
    ensures k < |c.userTables| ==> StandsAt(Laid(c), Listed(c)[1 + |c.tables| + k], c.userTables[k])
  {
    BuiltShape(c);
    hide BytesOf, EntryBytes, EntryStarts, UserBytes, UserStarts, Laid, FadtPieces, Built, StandsAt;
    if k < |c.userTables| {
      UserInside(c, k);
      ListedAt(c, k);
    }
  }

  lemma BuiltShape(c: Config)
    requires c.Valid()
    ensures |Built(c)| == 2 + |c.tables| && Built(c)[2..] == c.tables && StartOf(c, 0) == |c.facs|
    ensures |EntryStarts(Built(c), |c.facs|)| == 2 + |c.tables|
  {
  }

  lemma UsersUnfold(us: seq<seq<byte>>, at: nat, k: nat)
    requires k < |us|
    ensures UserBytes(us) == us[0] + UserBytes(us[1..])
    ensures UserStarts(us, at)[k] == if k == 0 then at else UserStarts(us[1..], at + |us[0]|)[k - 1]
  {
  }

  lemma UserFirst(us: seq<seq<byte>>, at: nat)
    requires us != []
    ensures StandsAt(UserBytes(us), UserStarts(us, at)[0] - at, us[0])
  {
    UsersUnfold(us, at, 0);
    hide UserBytes, UserStarts, StandsAt;
    StandsFirst(us[0], UserBytes(us[1..]));
  }

  lemma UserLater(us: seq<seq<byte>>, at: nat, k: nat)
    requires 0 < k < |us|
    requires var next := at + |us[0]|; StandsAt(UserBytes(us[1..]), UserStarts(us[1..], next)[k - 1] - next, us[k])
    ensures StandsAt(UserBytes(us), UserStarts(us, at)[k] - at, us[k])
  {
    UsersUnfold(us, at, k);
    hide UserBytes, UserStarts, StandsAt;
    var next := at + |us[0]|;
    StandsBehind(us[0], UserBytes(us[1..]), UserStarts(us[1..], next)[k - 1] - next, us[k]);
  }

  lemma {:induction false} UserThere(us: seq<seq<byte>>, at: nat, k: nat)
    requires k < |us|
    ensures StandsAt(UserBytes(us), UserStarts(us, at)[k] - at, us[k])
    decreases k
  {
    hide UserBytes, UserStarts, StandsAt;
    if k == 0 {
      UserFirst(us, at);
    } else {
      UserThere(us[1..], at + |us[0]|, k - 1);
      UserLater(us, at, k);
    }
  }

  lemma UserLaid(c: Config, o: int, u: seq<byte>)
    requires c.Valid() && StandsAt(UserBytes(c.userTables), o, u)
    ensures StandsAt(Laid(c), UsersAt(c) + o, u)
  {
    hide EntryBytes, UserBytes, Built, Rsdt, BytesOf, StandsAt;
    var before := c.facs + EntryBytes(Built(c));
    StandsBehind(before, UserBytes(c.userTables), o, u);
    StandsBefore(before + UserBytes(c.userTables), BytesOf(Rsdt(c)), |before| + o, u);
  }

  lemma UserInside(c: Config, k: nat)
    requires c.Valid() && k < |c.userTables|
    ensures StandsAt(Laid(c), UserStarts(c.userTables, UsersAt(c))[k], c.userTables[k])
  {
    hide UserBytes, UserStarts, StandsAt, Laid, UsersAt;
    UserThere(c.userTables, UsersAt(c), k);
    UserLaid(c, UserStarts(c.userTables, UsersAt(c))[k] - UsersAt(c), c.userTables[k]);
  }

  lemma ListedAt(c: Config, k: nat)
    requires c.Valid() && k < |c.userTables|
    ensures |Listed(c)| == 1 + |c.tables| + |c.userTables|
    ensures Listed(c)[1 + |c.tables| + k] == UserStarts(c.userTables, UsersAt(c))[k]
  {
    BuiltShape(c);
    hide EntryStarts, UserStarts, Built, UsersAt;
  }

  /** The guest finds an RSDP of the first revision with the OEM id of the machine. */
  lemma GuestRsdp(c: Config, base: File -> nat)
    requires Sound(c)
    ensures RsdpFile in Patched(c, base) && |Patched(c, base)[RsdpFile]| >= 20
    ensures var r := Patched(c, base)[RsdpFile];
            r[0..8] == Ascii("RSD PTR ") && r[9..15] == c.rsdpOemId && r[15] == 0
  {
    RsdpFields(Rsdp(c));
    RsdpSpared(c);
    ScriptTidy(c);
    PatchedSizes(c, base);
    var was := RsdpContents(c);
    assert was[..20] == RsdpBytes(Rsdp(c)) && was[0..8] == RsdpBytes(Rsdp(c))[0..8];
    assert was[9..15] == RsdpBytes(Rsdp(c))[9..15] && was[15] == RsdpBytes(Rsdp(c))[15];
    hide TableContents, RsdpContents, Script, Run, RsdpBytes, FileSize, Laid;
    RunSpares(Script(c), base, Files(c), RsdpFile, 0, 8);
    RunSpares(Script(c), base, Files(c), RsdpFile, 9, 15);
    RunSpares(Script(c), base, Files(c), RsdpFile, 15, 16);
    assert Patched(c, base)[RsdpFile][15..16][0] == Patched(c, base)[RsdpFile][15] && was[15..16][0] == was[15];
  }

  lemma RsdpSpared(c: Config)
    requires c.Valid()
    ensures forall i :: 0 <= i < |Script(c)| ==>
              Spares(Script(c)[i], RsdpFile, 0, 8) && Spares(Script(c)[i], RsdpFile, 9, 15)
              && Spares(Script(c)[i], RsdpFile, 15, 16)
  {
    hide EntryBytes, UserBytes, Built, Rsdt, RsdtAt, BytesOf, TableCommands, EntryCommands;
    TablesOnly(Built(c), |c.facs|);
    OneTableOnly(Rsdt(c), RsdtAt(c));
  }

  lemma {:induction false} TablesOnly(es: seq<Entry>, at: nat)
    ensures forall i :: 0 <= i < |EntryCommands(es, at)| ==>
              EntryCommands(es, at)[i].Allocate? || EntryCommands(es, at)[i].file == TableFile
    decreases es
  {
    hide BytesOf, TableCommands;
    if es != [] {
      OneTableOnly(es[0], at);
      TablesOnly(es[1..], at + |BytesOf(es[0])|);
    }
  }

  lemma OneTableOnly(e: Entry, at: nat)
    ensures forall i :: 0 <= i < |TableCommands(e.ps, at)| ==>
              TableCommands(e.ps, at)[i].Allocate? || TableCommands(e.ps, at)[i].file == TableFile
  {
    hide BodyBytes, BodyCommands;
    BodyOnly(e.ps, at + HEADER);
  }

  lemma {:induction false} BodyOnly(ps: seq<Piece>, at: nat)
    ensures forall i :: 0 <= i < |BodyCommands(ps, at)| ==>
              BodyCommands(ps, at)[i].Allocate? || BodyCommands(ps, at)[i].file == TableFile
    decreases ps
  {
    if ps != [] {
      BodyOnly(ps[1..], at + |PieceBytes(ps[0])|);
    }
  }

  /** So is the RSDT: signature, revision 1 and length. */
  lemma GuestRsdtHeader(c: Config, base: File -> nat)
    requires Sound(c)
    ensures TableFile in Patched(c, base)
    ensures var s, n := Patched(c, base)[TableFile], HEADER + 4 * |Listed(c)|;
            RsdtAt(c) + n <= |s| && s[RsdtAt(c)..RsdtAt(c) + 4] == Ascii("RSDT") && s[RsdtAt(c) + 8] == 1
            && FieldAt(s, RsdtAt(c) + 4, 4) == n
  {
    BuiltFits(c);
    RsdtSize(c);
    RsdtIs(c);
    PatchedSizes(c, base);
    hide TableContents, Built, BytesOf, Run, Listed, RsdtAt, FileSize, Laid, Patched, Rsdt, FieldAt, Entries;
    RsdtKept(c, base);
  }

  lemma RsdtIs(c: Config)
    requires c.Valid()
    ensures Rsdt(c).t.sig == Ascii("RSDT") && Rsdt(c).t.rev == 1
  {
    hide Listed, Entries;
    Signatures();
  }

  /** What no command writes is as built. */
  lemma PatchedSpares(c: Config, base: File -> nat, from: nat, to: nat)
    requires Sound(c) && from <= to <= |TableContents(c)| && SparedBy(Script(c), from, to)
    ensures TableFile in Patched(c, base) && |Patched(c, base)[TableFile]| == |TableContents(c)|
    ensures Patched(c, base)[TableFile][from..to] == TableContents(c)[from..to]
  {
    hide TableContents, RsdpContents, Script, Run, FileSize, Laid;
    ScriptTidy(c);
    RunSpares(Script(c), base, Files(c), TableFile, from, to);
  }

  lemma RsdtKept(c: Config, base: File -> nat)
    requires Sound(c)
    ensures TableFile in Patched(c, base)
    ensures HeaderAt(Patched(c, base)[TableFile], RsdtAt(c), Rsdt(c).t, |BytesOf(Rsdt(c))|)
  {
    hide TableContents, Script, Patched, BytesOf, RsdtAt, Rsdt, SparedBy, HeaderAt;
    var at, t, n := RsdtAt(c), Rsdt(c).t, |BytesOf(Rsdt(c))|;
    RsdtBuilt(c);
    ScriptSparesRsdt(c);
    HeaderRoom(TableContents(c), at, t, n);
    PatchedSpares(c, base, at, at + 9);
    SameHeader(TableContents(c), Patched(c, base)[TableFile], at, t, n);
  }

  lemma HeaderRoom(s: seq<byte>, at: nat, t: AcpiTable, length: nat)
    requires HeaderAt(s, at, t, length)
    ensures at + 9 <= |s|
  {
  }

  lemma RsdtSize(c: Config)
    requires c.Valid()
    ensures |BytesOf(Rsdt(c))| == HEADER + 4 * |Listed(c)|
  {
    hide Listed, BodyBytes, BodyCommands;
    BodyFits(Rsdt(c));
    EntriesAre(4, Listed(c), 0);
  }

  lemma RsdtBuilt(c: Config)
    requires Sound(c)
    ensures HeaderAt(TableContents(c), RsdtAt(c), Rsdt(c).t, |BytesOf(Rsdt(c))|)
  {
    RsdtStands(c);
    hide Rsdt, BytesOf, TableContents, FileSize, Laid, RsdtAt;
    StandingHeader(TableContents(c), RsdtAt(c), Rsdt(c));
  }

  lemma RsdtStands(c: Config)
    requires Sound(c)
    ensures StandsAt(TableContents(c), RsdtAt(c), BytesOf(Rsdt(c)))
  {
    hide EntryBytes, UserBytes, Built, Rsdt, BytesOf, FileSize, StandsAt;
    var b := BytesOf(Rsdt(c));
    StandsFirst(b, []);
    assert b + [] == b;
    StandsBehind(c.facs + EntryBytes(Built(c)) + UserBytes(c.userTables), b, 0, b);
    StandsInFile(c, RsdtAt(c), b);
  }

  lemma ScriptSparesRsdt(c: Config)
    requires c.Valid()
    ensures SparedBy(Script(c), RsdtAt(c), RsdtAt(c) + 9)
  {
    hide BytesOf, TableCommands, EntryCommands, EntryBytes, UserBytes, Built, Rsdt;
    var at := RsdtAt(c);
    EntriesSpare(Built(c), |c.facs|, at, at + 9);
    TableSpares(Rsdt(c), at, at, at + 9);
    assert SparedBy([Allocate(TableFile, 64, false)], at, at + 9);
    assert SparedBy(RsdpCommands(Rsdp(c), 0), at, at + 9);
  }

  lemma SameHeader(s: seq<byte>, s': seq<byte>, at: nat, t: AcpiTable, length: nat)
    requires HeaderAt(s, at, t, length) && |s'| == |s| && s'[at..at + 9] == s[at..at + 9]
    ensures HeaderAt(s', at, t, length)
  {
    hide FromLe;
    SliceOfSlice(s', at, at + 9, 0, 4);
    SliceOfSlice(s, at, at + 9, 0, 4);
    SliceOfSlice(s', at, at + 9, 4, 8);
    SliceOfSlice(s, at, at + 9, 4, 8);
    assert s'[at..at + 9][8] == s'[at + 8] && s[at..at + 9][8] == s[at + 8];
  }

  // ----- nothing but slots and checksum bytes is touched -----

  /** Byte `i` of the file belongs to a slot of this body, which starts at `at`. */
  predicate InSlot(ps: seq<Piece>, at: nat, i: nat)
    decreases ps
  {
    ps != [] && ((ps[0].Slot? && at <= i < at + ps[0].size) || InSlot(ps[1..], at + |PieceBytes(ps[0])|, i))
  }

  /** Byte `i` is the checksum byte, or in a slot, of one of these tables. */
  predicate Patchable(es: seq<Entry>, at: nat, i: nat)
    decreases es
  {
    es != [] && (i == at + 9 || InSlot(es[0].ps, at + HEADER, i) || Patchable(es[1..], at + |BytesOf(es[0])|, i))
  }

  lemma {:induction false} SlotsInBody(ps: seq<Piece>, at: nat, i: nat)
    requires InSlot(ps, at, i)
    ensures at <= i < at + |BodyBytes(ps)|
    decreases ps
  {
    if !(ps[0].Slot? && at <= i < at + ps[0].size) {
      SlotsInBody(ps[1..], at + |PieceBytes(ps[0])|, i);
    }
  }

  lemma {:induction false} BodySparesByte(ps: seq<Piece>, at: nat, i: nat)
    requires !InSlot(ps, at, i)
    ensures SparedBy(BodyCommands(ps, at), i, i + 1)
    decreases ps
  {
    if ps != [] {
      BodySparesByte(ps[1..], at + |PieceBytes(ps[0])|, i);
    }
  }

  lemma TableSparesByte(e: Entry, at: nat, i: nat)
    requires i != at + 9 && !InSlot(e.ps, at + HEADER, i)
    ensures SparedBy(TableCommands(e.ps, at), i, i + 1)
  {
    hide BodyBytes, BodyCommands, InSlot;
    BodySparesByte(e.ps, at + HEADER, i);
  }

  lemma {:induction false} EntriesSpareByte(es: seq<Entry>, at: nat, i: nat)
    requires !Patchable(es, at, i)
    ensures SparedBy(EntryCommands(es, at), i, i + 1)
    decreases es
  {
    hide BytesOf, TableCommands, Spares, InSlot;
    if es != [] {
      TableSparesByte(es[0], at, i);
      EntriesSpareByte(es[1..], at + |BytesOf(es[0])|, i);
    }
  }

  /** A byte that the script is meant to fill in. */
  predicate FilledIn(c: Config, i: nat)
    requires c.Valid()
  {
    Patchable(Built(c), |c.facs|, i) || i == RsdtAt(c) + 9 || InSlot(Rsdt(c).ps, RsdtAt(c) + HEADER, i)
  }

  /** The script touches slots and checksum bytes only: every other byte of the tables, the FACS and
      the user's tables included, is what the builders left. */
  lemma GuestUnchanged(c: Config, base: File -> nat, i: nat)
    requires Sound(c) && i < |TableContents(c)| && !FilledIn(c, i)
    ensures TableFile in Patched(c, base) && |Patched(c, base)[TableFile]| == |TableContents(c)|
    ensures Patched(c, base)[TableFile][i] == TableContents(c)[i]
  {
    hide TableContents, FilledIn, Script, Patched;
    ScriptSparesByte(c, i);
    PatchedSpares(c, base, i, i + 1);
    assert TableContents(c)[i..i + 1][0] == TableContents(c)[i];
    assert Patched(c, base)[TableFile][i..i + 1][0] == Patched(c, base)[TableFile][i];
  }

  lemma ScriptSparesByte(c: Config, i: nat)
    requires c.Valid() && !FilledIn(c, i)
    ensures SparedBy(Script(c), i, i + 1)
  {
    hide TableCommands, EntryCommands, Built, Rsdt, RsdtAt, Patchable, InSlot;
    EntriesSpareByte(Built(c), |c.facs|, i);
    TableSparesByte(Rsdt(c), RsdtAt(c), i);
    assert SparedBy([Allocate(TableFile, 64, false)], i, i + 1);
    assert SparedBy(RsdpCommands(Rsdp(c), 0), i, i + 1);
  }

  lemma {:induction false} PatchableInside(es: seq<Entry>, at: nat, i: nat)
    requires Patchable(es, at, i)
    ensures at + 9 <= i < at + |EntryBytes(es)|
    decreases es
  {
    hide BytesOf, InSlot;
    BodyFits(es[0]);
    if InSlot(es[0].ps, at + HEADER, i) {
      SlotsInBody(es[0].ps, at + HEADER, i);
    } else if i != at + 9 {
      PatchableInside(es[1..], at + |BytesOf(es[0])|, i);
    }
  }

  /** The FACS and the user's tables reach the guest as they were given. */
  lemma GuestGetsRawTables(c: Config, base: File -> nat)
    requires Sound(c)
    ensures TableFile in Patched(c, base) && |Patched(c, base)[TableFile]| == |TableContents(c)|
    ensures UsersAt(c) <= RsdtAt(c) <= |TableContents(c)| && |c.facs| <= |TableContents(c)|
    ensures Patched(c, base)[TableFile][..|c.facs|] == c.facs
    ensures Patched(c, base)[TableFile][UsersAt(c)..RsdtAt(c)] == UserBytes(c.userTables)
  {
    PatchedSizes(c, base);
    BuiltFits(c);
    FacsFits(c);
    RawParts(c);
    var s, t := Patched(c, base)[TableFile], TableContents(c);
    hide Patched, TableContents, Built, UserBytes, EntryBytes, BytesOf, Rsdt, InSlot, Patchable;
    forall i | 0 <= i < |c.facs| || UsersAt(c) <= i < RsdtAt(c)
      ensures s[i] == t[i]
    {
      NotFilledIn(c, i);
      GuestUnchanged(c, base, i);
    }
    assert s[..|c.facs|] == t[..|c.facs|];
    assert s[UsersAt(c)..RsdtAt(c)] == t[UsersAt(c)..RsdtAt(c)];
  }

  lemma NotFilledIn(c: Config, i: nat)
    requires c.Valid() && (i < |c.facs| || UsersAt(c) <= i < RsdtAt(c))
    ensures !FilledIn(c, i)
  {
    hide Built, UserBytes, EntryBytes, Rsdt, InSlot, Patchable;
    if Patchable(Built(c), |c.facs|, i) {
      PatchableInside(Built(c), |c.facs|, i);
    }
    if InSlot(Rsdt(c).ps, RsdtAt(c) + HEADER, i) {
      SlotsInBody(Rsdt(c).ps, RsdtAt(c) + HEADER, i);
    }
  }

  lemma RawParts(c: Config)
    requires c.Valid() && Whole(c)
    ensures UsersAt(c) <= RsdtAt(c) <= |TableContents(c)| && |c.facs| <= |TableContents(c)|
    ensures TableContents(c)[..|c.facs|] == c.facs && TableContents(c)[UsersAt(c)..RsdtAt(c)] == UserBytes(c.userTables)
  {
    hide Built, UserBytes, EntryBytes, BytesOf, Rsdt;
  }
}

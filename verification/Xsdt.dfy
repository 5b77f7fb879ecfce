/** The 64-bit way from the RSDP to the tables (build_xsdt and revision 2 of build_rsdp in aml-build.c):
    whatever was built before, what a guest finds once it has run the script. */
module Xsdt {
  import opened Bytes
  import opened Linker
  import opened LinkerBuild
  import opened LinkerOrder
  import opened AcpiBuild

  /** An XSDT over tables at these offsets, at the end of what was built before, and an RSDP that
      refers to it. */
  datatype Chain = Chain(before: seq<byte>, commands: seq<Command>, offsets: seq<nat>, t: Desc, rsdp: RsdpData) {
    ghost predicate Valid() {
      Tidy(commands, |before|, 0, |before|) && NoRsdp(commands) && AllAllocated(commands, {TableFile})
      && HEADER + 8 * |offsets| < 0x1_0000_0000
      && rsdp.Valid() && rsdp.revision == 2 && rsdp.xsdt == Some(|before|)
    }

    function Slots(): seq<Piece> { Entries(8, offsets) }

    /** What BuildXsdt and then BuildRsdp leave. */
    function Script(): seq<Command>
      requires rsdp.Valid()
    {
      commands + TableCommands(Slots(), |before|) + RsdpCommands(rsdp, 0)
    }

    function Files(): Memory { map[TableFile := before + TableBytes(t, Slots()), RsdpFile := RsdpBytes(rsdp)] }
  }

  /** Building the two keeps the script in order and inside the files. */
  lemma ChainTidy(c: Chain)
    requires c.Valid()
    ensures Ordered(c.Script()) && AllFit(c.Script(), c.Files())
  {
    hide Tidy, AllAllocated, TableCommands, TableBytes, RsdpCommands, RsdpBytes, BodyCommands, BodyBytes, Entries;
    hide NoRsdp, Ordered, AllFit;
    EntriesAre(8, c.offsets, 0);
    EntriesPlaced(8, c.offsets, {TableFile});
    TableTidy(c.commands, |c.before|, 0, c.t, c.Slots(), {TableFile});
    var cs, n := c.commands + TableCommands(c.Slots(), |c.before|), |c.before| + |TableBytes(c.t, c.Slots())|;
    TidyNoRsdp(cs, n);
    KnowsTables(cs);
    RsdpTidy(cs, n, c.rsdp);
    TidyFits(c.Script(), n, |RsdpBytes(c.rsdp)|, c.Files()[TableFile], c.Files()[RsdpFile]);
  }

  lemma ChainDone(c: Chain, base: File -> nat, d: Command)
    requires c.Valid() && AllFit(c.Script(), c.Files()) && d in c.Script()
    ensures Fits(d, Run(c.Script(), base, c.Files())) && Done(d, base, Run(c.Script(), base, c.Files()))
  {
    hide Run, Fits, Done, Ordered, Chain.Script, Chain.Files, Tidy;
    ChainTidy(c);
    var i :| 0 <= i < |c.Script()| && c.Script()[i] == d;
    ScriptWorks(c.Script(), base, c.Files(), i);
  }

  /** The commands for the XSDT and for the RSDP. */
  lemma SlotCommands(c: Chain, i: nat)
    requires c.Valid() && i < |c.offsets|
    ensures AddPointer(TableFile, |c.before| + HEADER + 8 * i, 8, TableFile, c.offsets[i]) in c.Script()
  {
    hide Tidy, BodyCommands, BodyBytes, Entries, AllAllocated, RsdpCommands, NoRsdp;
    var body := BodyCommands(c.Slots(), |c.before| + HEADER);
    EntriesAre(8, c.offsets, |c.before| + HEADER);
    assert body[i] in body;
  }

  lemma TableChecksum(c: Chain)
    requires c.Valid()
    ensures AddChecksum(TableFile, |c.before|, HEADER + 8 * |c.offsets|, |c.before| + 9) in c.Script()
  {
    hide Tidy, BodyCommands, BodyBytes, Entries, AllAllocated, RsdpCommands, NoRsdp;
    EntriesAre(8, c.offsets, |c.before| + HEADER);
    var table := TableCommands(c.Slots(), |c.before|);
    assert table[|table| - 1] in table;
  }

  lemma RsdpChain(c: Chain)
    requires c.Valid()
    ensures AddPointer(RsdpFile, 24, 8, TableFile, |c.before|) in c.Script()
    ensures AddChecksum(RsdpFile, 0, 20, 8) in c.Script() && AddChecksum(RsdpFile, 0, 36, 32) in c.Script()
  {
    hide Tidy, TableCommands, Entries, AllAllocated, NoRsdp;
    var rsdp, k := RsdpCommands(c.rsdp, 0), if c.rsdp.rsdt.Some? then 2 else 1;
    assert rsdp[k] == AddChecksum(RsdpFile, 0, 20, 8);
    assert rsdp[k + 1] == AddPointer(RsdpFile, 24, 8, TableFile, |c.before|);
    assert rsdp[k + 2] == AddChecksum(RsdpFile, 0, 36, 32);
    hide RsdpCommands;
  }

  /** Wherever the files are placed, the 64-bit field of the RSDP leads to the XSDT, slot `i` of the XSDT
      to table `i`, and the XSDT and both parts of the RSDP add up to 0. */
  lemma GuestFollowsXsdt(c: Chain, base: File -> nat)
    requires c.Valid() && base(TableFile) + |c.before| < 0x1_0000_0000_0000_0000
    requires forall i :: 0 <= i < |c.offsets| ==> base(TableFile) + c.offsets[i] < 0x1_0000_0000_0000_0000
    ensures AllFit(c.Script(), c.Files()) && Run(c.Script(), base, c.Files()).Keys == {TableFile, RsdpFile}
    ensures var after, at := Run(c.Script(), base, c.Files()), |c.before|;
            FieldAt(after[RsdpFile], 24, 8) == base(TableFile) + at
            && SumZero(after[RsdpFile], 0, 20) && SumZero(after[RsdpFile], 0, 36)
            && SumZero(after[TableFile], at, HEADER + 8 * |c.offsets|)
            && forall i :: 0 <= i < |c.offsets| ==>
                 FieldAt(after[TableFile], at + HEADER + 8 * i, 8) == base(TableFile) + c.offsets[i]
  {
    hide Run, Ordered, AllFit, Chain.Script, Tidy, AllAllocated, NoRsdp, Le, FromLe, Sum, RsdpBytes, TableBytes;
    var at := |c.before|;
    ChainTidy(c);
    TableChecksum(c);
    RsdpChain(c);
    RunKeepsSizes(c.Script(), base, c.Files());
    PowersOf256();
    var after := Run(c.Script(), base, c.Files());
    ChainDone(c, base, AddPointer(RsdpFile, 24, 8, TableFile, at));
    LeFits(base(TableFile) + at, 8);
    ChainDone(c, base, AddChecksum(RsdpFile, 0, 20, 8));
    ChainDone(c, base, AddChecksum(RsdpFile, 0, 36, 32));
    ChainDone(c, base, AddChecksum(TableFile, at, HEADER + 8 * |c.offsets|, at + 9));
    forall i | 0 <= i < |c.offsets|
      ensures FieldAt(after[TableFile], at + HEADER + 8 * i, 8) == base(TableFile) + c.offsets[i]
    {
      SlotCommands(c, i);
      ChainDone(c, base, AddPointer(TableFile, at + HEADER + 8 * i, 8, TableFile, c.offsets[i]));
      LeFits(base(TableFile) + c.offsets[i], 8);
    }
  }
}

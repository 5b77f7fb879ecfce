/** Every builder keeps the linker script in order, so the whole of acpi_build does. */
module LinkerOrder {
  import opened Bytes
  import opened Linker
  import opened LinkerBuild

  /** The file has been handed to the guest by one of these commands. */
  ghost predicate Allocated(cs: seq<Command>, f: File) {
    exists i :: 0 <= i < |cs| && cs[i].Allocate? && cs[i].file == f
  }

  /** A pointer refers to a file the guest has placed by then. */
  ghost predicate Sourced(cs: seq<Command>) {
    forall j :: 0 <= j < |cs| && cs[j].AddPointer? ==> Allocated(cs[..j], cs[j].src)
  }

  /** The size of a file the script patches. */
  function Limit(f: File, tables: nat, rsdp: nat): nat {
    if f == TableFile then tables else if f == RsdpFile then rsdp else 0
  }

  /** The command stays inside the first bytes of the tables and of the RSDP, and patches no other
      file. */
  predicate Within(c: Command, tables: nat, rsdp: nat) {
    match c
    case Allocate(_, _, _) => true
    case AddPointer(f, offset, size, _, _) => 0 < Limit(f, tables, rsdp) && offset + size <= Limit(f, tables, rsdp)
    case AddChecksum(f, start, length, at) => start <= at < start + length <= Limit(f, tables, rsdp)
  }

  /** The command leaves the header of a table that starts at `mark` alone, and what it checks lies
      before that table. */
  predicate Clear(c: Command, mark: nat) {
    match c
    case Allocate(_, _, _) => true
    case AddPointer(f, offset, size, _, _) => f == TableFile ==> offset + size <= mark || mark + HEADER <= offset
    case AddChecksum(f, start, length, _) => f == TableFile ==> start + length <= mark
  }

  /** The script so far is in order, for files of these sizes, while a table is being built at
      `mark`. */
  ghost predicate Tidy(cs: seq<Command>, tables: nat, rsdp: nat, mark: nat) {
    Ordered(cs) && Sourced(cs) && mark <= tables
    && forall i :: 0 <= i < |cs| ==> Within(cs[i], tables, rsdp) && Clear(cs[i], mark)
  }

  // ----- what the steps keep -----

  /** The next command does not disturb any before it, and its source is placed. */
  lemma Extend(cs: seq<Command>, c: Command)
    requires Ordered(cs) && Sourced(cs)
    requires forall i :: 0 <= i < |cs| ==> Undisturbed(cs[i], c)
    requires c.AddPointer? ==> Allocated(cs, c.src)
    ensures Ordered(cs + [c]) && Sourced(cs + [c])
  {
    hide Undisturbed, Allocated;
    var cs' := cs + [c];
    forall i, j | 0 <= i < j < |cs'|
      ensures Undisturbed(cs'[i], cs'[j])
    {
    }
    forall j | 0 <= j < |cs'| && cs'[j].AddPointer?
      ensures Allocated(cs'[..j], cs'[j].src)
    {
      assert cs'[..j] == cs[..j];
      assert cs[..|cs|] == cs;
    }
  }

  /** Files grow behind the table being built; a table is begun at the end. */
  lemma Grow(cs: seq<Command>, tables: nat, rsdp: nat, mark: nat, tables': nat, rsdp': nat)
    requires Tidy(cs, tables, rsdp, mark) && tables <= tables' && rsdp <= rsdp'
    ensures Tidy(cs, tables', rsdp', mark)
    ensures Tidy(cs, tables, rsdp, tables)
  {
    forall i | 0 <= i < |cs|
      ensures Within(cs[i], tables', rsdp') && Clear(cs[i], mark) && Clear(cs[i], tables)
    {
      assert Within(cs[i], tables, rsdp) && Clear(cs[i], mark);
    }
  }

  lemma OnePieceTidy(cs: seq<Command>, tables: nat, rsdp: nat, mark: nat, p: Piece)
    requires Tidy(cs, tables, rsdp, mark) && mark + HEADER <= tables
    requires p.Slot? ==> Allocated(cs, p.src)
    ensures Tidy(cs + PieceCommands(p, tables), tables + |PieceBytes(p)|, rsdp, mark)
  {
    hide Ordered, Sourced, Allocated;
    Grow(cs, tables, rsdp, mark, tables + |PieceBytes(p)|, rsdp);
    match p {
      case Slot(n, src, o) =>
        var c := AddPointer(TableFile, tables, n, src, o);
        forall i | 0 <= i < |cs|
          ensures Undisturbed(cs[i], c)
        {
          assert Within(cs[i], tables, rsdp);
        }
        Extend(cs, c);
      case Reserve(f, a) => Extend(cs, Allocate(f, a, false));
      case _ => assert cs + [] == cs;
    }
  }

  /** Each slot of a body refers to a file placed before the table or by an earlier part of it. */
  ghost predicate Placed(ps: seq<Piece>, known: set<File>)
    decreases ps
  {
    ps != [] ==>
      (ps[0].Slot? ==> ps[0].src in known) && Placed(ps[1..], if ps[0].Reserve? then known + {ps[0].file} else known)
  }

  ghost predicate AllAllocated(cs: seq<Command>, known: set<File>) {
    forall f :: f in known ==> Allocated(cs, f)
  }

  lemma StillAllocated(cs: seq<Command>, more: seq<Command>, known: set<File>)
    requires AllAllocated(cs, known)
    ensures AllAllocated(cs + more, known)
  {
    forall f | f in known
      ensures Allocated(cs + more, f)
    {
      var i :| 0 <= i < |cs| && cs[i].Allocate? && cs[i].file == f;
      assert (cs + more)[i] == cs[i];
    }
  }

  lemma PieceAllocates(cs: seq<Command>, p: Piece, at: nat, known: set<File>)
    requires AllAllocated(cs, known)
    ensures AllAllocated(cs + PieceCommands(p, at), if p.Reserve? then known + {p.file} else known)
  {
    StillAllocated(cs, PieceCommands(p, at), known);
    if p.Reserve? {
      assert (cs + PieceCommands(p, at))[|cs|] == Allocate(p.file, p.alignment, false);
    }
  }

  lemma {:induction false} BodyTidy(cs: seq<Command>, tables: nat, rsdp: nat, mark: nat, ps: seq<Piece>,
        known: set<File>)
    requires Tidy(cs, tables, rsdp, mark) && mark + HEADER <= tables
    requires AllAllocated(cs, known) && Placed(ps, known)
    ensures Tidy(cs + BodyCommands(ps, tables), tables + |BodyBytes(ps)|, rsdp, mark)
    decreases ps
  {
    hide Tidy, PieceCommands, PieceBytes, Allocated;
    if ps == [] {
      assert cs + BodyCommands(ps, tables) == cs;
    } else {
      var p, first := ps[0], PieceCommands(ps[0], tables);
      OnePieceTidy(cs, tables, rsdp, mark, p);
      PieceAllocates(cs, p, tables, known);
      BodyTidy(cs + first, tables + |PieceBytes(p)|, rsdp, mark, ps[1..], if p.Reserve? then known
            + {p.file} else known);
      assert cs + first + BodyCommands(ps[1..], tables + |PieceBytes(p)|) == cs + BodyCommands(ps, tables);
    }
  }

  /** The checksum of a table comes after everything that writes into it. */
  lemma CloseTidy(cs: seq<Command>, tables: nat, rsdp: nat, mark: nat)
    requires Tidy(cs, tables, rsdp, mark) && mark + HEADER <= tables
    ensures Tidy(cs + [AddChecksum(TableFile, mark, tables - mark, mark + 9)], tables, rsdp, tables)
  {
    hide Ordered, Sourced;
    var c := AddChecksum(TableFile, mark, tables - mark, mark + 9);
    forall i | 0 <= i < |cs|
      ensures Undisturbed(cs[i], c)
    {
      assert Within(cs[i], tables, rsdp) && Clear(cs[i], mark);
    }
    Extend(cs, c);
    Grow(cs, tables, rsdp, mark, tables, rsdp);
  }

  /** Building a table keeps the script in order. */
  lemma TableTidy(cs: seq<Command>, tables: nat, rsdp: nat, t: AcpiTable, ps: seq<Piece>, known: set<File>)
    requires Tidy(cs, tables, rsdp, tables) && t.Valid() && HEADER + |BodyBytes(ps)| < 0x1_0000_0000
    requires AllAllocated(cs, known) && Placed(ps, known)
    ensures Tidy(cs + TableCommands(ps, tables), tables + |TableBytes(t, ps)|, rsdp, tables + |TableBytes(t, ps)|)
    ensures AllAllocated(cs + TableCommands(ps, tables), known)
  {
    hide Tidy, BodyBytes, BodyCommands, Allocated, Placed, HeaderBytes;
    Grow(cs, tables, rsdp, tables, tables + HEADER, rsdp);
    BodyTidy(cs, tables + HEADER, rsdp, tables, ps, known);
    CloseTidy(cs + BodyCommands(ps, tables + HEADER), tables + HEADER + |BodyBytes(ps)|, rsdp, tables);
    assert cs + BodyCommands(ps, tables + HEADER) + [AddChecksum(TableFile, tables, HEADER
          + |BodyBytes(ps)|, tables + 9)]
        == cs + TableCommands(ps, tables);
    StillAllocated(cs, TableCommands(ps, tables), known);
  }

  lemma {:induction false} EntriesPlaced(size: nat, offsets: seq<nat>, known: set<File>)
    requires TableFile in known
    ensures Placed(Entries(size, offsets), known)
    decreases |offsets|
  {
    if offsets != [] {
      EntriesPlaced(size, offsets[1..], known);
      assert Entries(size, offsets)[1..] == Entries(size, offsets[1..]);
    }
  }

  // ----- the RSDP -----

  /** Nothing has touched the RSDP file yet. */
  predicate NoRsdp(cs: seq<Command>) {
    forall i :: 0 <= i < |cs| ==> cs[i].Allocate? || cs[i].file == TableFile
  }

  /** An RSDP at the start of its file keeps the script in order. */
  lemma RsdpTidy(cs: seq<Command>, tables: nat, d: RsdpData)
    requires Tidy(cs, tables, 0, tables) && d.Valid() && Allocated(cs, TableFile) && NoRsdp(cs)
    ensures Tidy(cs + RsdpCommands(d, 0), tables, |RsdpBytes(d)|, tables)
  {
    hide Ordered, Sourced, Allocated, Tidy, RsdpBytes, Le;
    RsdpLength(d);
    Grow(cs, tables, 0, tables, tables, |RsdpBytes(d)|);
    var n := |RsdpBytes(d)|;
    var c0 := Allocate(RsdpFile, 16, true);
    NextTidy(cs, tables, n, c0);
    var cs1 := cs + [c0];
    StillAllocated(cs, [c0], {TableFile});
    var cs2 := cs1;
    if d.rsdt.Some? {
      var p := AddPointer(RsdpFile, 16, 4, TableFile, d.rsdt.value);
      NextTidy(cs1, tables, n, p);
      cs2 := cs1 + [p];
      StillAllocated(cs1, [p], {TableFile});
    }
    var k := AddChecksum(RsdpFile, 0, 20, 8);
    NextTidy(cs2, tables, n, k);
    StillAllocated(cs2, [k], {TableFile});
    if d.revision == 0 {
      assert cs + RsdpCommands(d, 0) == cs2 + [k];
    } else {
      var x, e := AddPointer(RsdpFile, 24, 8, TableFile, d.xsdt.value), AddChecksum(RsdpFile, 0, 36, 32);
      NextTidy(cs2 + [k], tables, n, x);
      NextTidy(cs2 + [k] + [x], tables, n, e);
      assert cs + RsdpCommands(d, 0) == cs2 + [k] + [x] + [e];
    }
  }

  lemma RsdpLength(d: RsdpData)
    requires d.Valid()
    ensures |RsdpBytes(d)| == if d.revision == 0 then 20 else 36
  {
  }

  /** One more command on the RSDP file. */
  lemma NextTidy(cs: seq<Command>, tables: nat, rsdp: nat, c: Command)
    requires Tidy(cs, tables, rsdp, tables) && Within(c, tables, rsdp) && (c.Allocate? || c.file == RsdpFile)
    requires forall i :: 0 <= i < |cs| ==> Undisturbed(cs[i], c)
    requires c.AddPointer? ==> Allocated(cs, c.src)
    ensures Tidy(cs + [c], tables, rsdp, tables)
  {
    hide Ordered, Sourced, Allocated;
    Extend(cs, c);
  }
}

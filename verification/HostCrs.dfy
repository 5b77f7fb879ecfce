/** The _CRS part of build_dsdt (acpi-build.c): the expander buses claim their ranges, the CXL
    window and MMCONFIG are added, and PCI0 advertises what is left of each hole. */
module HostCrs {
  import opened Bytes
  import opened Ranges
  import opened Crs
  import opened Windows

  datatype Expander = Expander(isRoot: bool, isCxl: bool, busNum: byte, slots: seq<Option<Device>>)

  /** What the expander root buses use in one address space. */
  function Raw(buses: seq<Expander>, space: Space): seq<Range> {
    if buses == [] then []
    else
      var last := buses[|buses| - 1];
      Raw(buses[..|buses| - 1], space) + if last.isRoot then BusRanges(last.slots, space) else []
  }

  /** A range is among the claims exactly when some device of an expander root bus has it, usable and in
      that space. */
  lemma {:induction false} RawFiled(buses: seq<Expander>, space: Space, r: Range)
    ensures r in Raw(buses, space) <==>
            r.base != 0 && r.base <= r.limit
            && exists i :: 0 <= i < |buses| && buses[i].isRoot && BusClaims(buses[i].slots, space, r)
  {
    hide BusClaims, BusRanges;
    if buses != [] {
      var last := |buses| - 1;
      var before := buses[..last];
      RawFiled(before, space, r);
      BusFiled(buses[last].slots, space, r);
      assert forall i :: 0 <= i < last ==> before[i] == buses[i];
    }
  }

  predicate AnyCxl(buses: seq<Expander>) { exists i :: 0 <= i < |buses| && buses[i].isRoot && buses[i].isCxl }

  // ----- how the collected set relates to the raw claims -----

  ghost predicate Inside(r: Range, raw: seq<Range>) { forall x: int :: In(r, x) ==> Covers(raw, x) }

  /** The collected ranges cover every raw claim and every extra range, consist of nothing else,
      and are pairwise apart or equal. */
  ghost predicate Faithful(entries: seq<Range>, raw: seq<Range>, extras: set<Range>) {
    && Compatible(entries)
    && (forall k :: 0 <= k < |entries| ==> entries[k] in extras || Inside(entries[k], raw))
    && (forall x: int :: Covers(raw, x) ==> Covers(entries, x))
    && (forall r :: r in extras ==> r in entries)
  }

  lemma ClearMeans(r: Range, rs: seq<Range>, x: int)
    requires Clear(r, rs) && In(r, x)
    ensures !Covers(rs, x)
  {
  }

  /** Two valid ranges that share no address are apart. */
  lemma ApartIfNoCommon(r: Range, q: Range)
    requires Valid(r) && Valid(q) && forall x: int :: In(r, x) ==> !In(q, x)
    ensures Apart(r, q)
  {
    var x := if r.base > q.base then r.base else q.base;
    assert In(r, x) ==> !In(q, x);
  }

  lemma DisjointHalves(a: seq<Range>, b: seq<Range>, x: int)
    requires Disjoint(a + b) && Covers(a, x)
    ensures !Covers(b, x)
  {
    var i :| 0 <= i < |a| && In(a[i], x);
    forall j | 0 <= j < |b|
      ensures !In(b[j], x)
    {
      assert Apart((a + b)[i], (a + b)[|a| + j]);
    }
  }

  lemma DisjointParts(a: seq<Range>, b: seq<Range>)
    requires Disjoint(a + b)
    ensures Disjoint(a) && Disjoint(b)
  {
    assert forall i :: 0 <= i < |a| ==> a[i] == (a + b)[i];
    assert forall j :: 0 <= j < |b| ==> b[j] == (a + b)[|a| + j];
  }

  /** A bus adds its merged ranges. */
  lemma AddBus(entries: seq<Range>, raw: seq<Range>, extras: set<Range>, merged: seq<Range>, bus: seq<Range>,
        space: Space)
    requires Faithful(entries, raw, extras) && MergeOf(merged, bus) && AllKept(bus, space)
    requires Disjoint(raw + bus) && forall r :: r in extras ==> Clear(r, bus)
    ensures Faithful(entries + merged, raw + bus, extras)
  {
    DisjointParts(raw, bus);
    MergeFacts(merged, bus, space);
    var all := entries + merged;
    forall k | 0 <= k < |all|
      ensures all[k] in extras || Inside(all[k], raw + bus)
    {
      InsideGrows(all[k], raw, bus);
      if k >= |entries| {
        InsideOf(merged, k - |entries|, bus);
        InsideGrows(all[k], bus, raw);
        InsideSwap(all[k], bus, raw);
      }
    }
    forall i, j | 0 <= i < |entries| && 0 <= j < |merged|
      ensures Apart(entries[i], merged[j])
    {
      InsideOf(merged, j, bus);
      assert Valid(entries[i]) && Valid(merged[j]);
      forall x: int | In(entries[i], x)
        ensures !In(merged[j], x)
      {
        if entries[i] in extras {
          ClearMeans(entries[i], bus, x);
        } else {
          DisjointHalves(raw, bus, x);
        }
      }
      ApartIfNoCommon(entries[i], merged[j]);
    }
    forall x: int | Covers(raw + bus, x)
      ensures Covers(all, x)
    {
      CoversAppend(raw, bus, x);
      CoversAppend(entries, merged, x);
    }
  }

  lemma InsideOf(merged: seq<Range>, j: nat, bus: seq<Range>)
    requires j < |merged| && forall x: int :: Covers(merged, x) <==> Covers(bus, x)
    ensures Inside(merged[j], bus)
  {
  }

  lemma InsideGrows(r: Range, raw: seq<Range>, more: seq<Range>)
    ensures Inside(r, raw) ==> Inside(r, raw + more)
  {
    forall x: int
      ensures Covers(raw, x) ==> Covers(raw + more, x)
    {
      CoversAppend(raw, more, x);
    }
  }

  lemma InsideSwap(r: Range, a: seq<Range>, b: seq<Range>)
    requires Inside(r, a + b)
    ensures Inside(r, b + a)
  {
    forall x: int
      ensures Covers(a + b, x) ==> Covers(b + a, x)
    {
      CoversAppend(a, b, x);
      CoversAppend(b, a, x);
    }
  }

  /** The CXL window or MMCONFIG is added, perhaps a second time. */
  lemma AddExtra(entries: seq<Range>, raw: seq<Range>, extras: set<Range>, r: Range)
    requires Faithful(entries, raw, extras) && Valid(r) && Clear(r, raw)
    requires forall q :: q in extras ==> Apart(q, r) || q == r
    ensures Faithful(entries + [r], raw, extras + {r})
  {
    var all := entries + [r];
    forall i | 0 <= i < |entries|
      ensures Apart(entries[i], r) || entries[i] == r
    {
      if entries[i] !in extras {
        assert Valid(entries[i]);
        forall x: int | In(entries[i], x)
          ensures !In(r, x)
        {
          if In(r, x) {
            ClearMeans(r, raw, x);
          }
        }
        ApartIfNoCommon(entries[i], r);
      }
    }
    forall x: int | Covers(raw, x)
      ensures Covers(all, x)
    {
      CoversAppend(entries, [r], x);
    }
    assert forall q :: q in extras ==> q in all;
  }

  /** PCI0 never collides with what was collected: no free range shares an address with a claim of
      an expander bus or with an extra range. */
  lemma FreeAvoidsClaims(entries: seq<Range>, raw: seq<Range>, extras: set<Range>, sorted: seq<Range>,
                         start: u64, end: u64, x: int)
    requires Faithful(entries, raw, extras) && IsSortOf(sorted, entries) && BelowTop(entries)
    requires Covers(FreeFrom(sorted, start, end), x)
    ensures !Covers(raw, x) && forall r :: r in extras ==> !In(r, x)
  {
    SortStaircase(sorted, entries);
    SameElements(sorted, entries);
    forall i | 0 <= i < |sorted|
      ensures sorted[i].limit < U64_MAX
    {
      assert sorted[i] in entries;
    }
    FreeFromAvoidsRepeated(sorted, start, end, x);
    SortCovers(sorted, entries, x);
  }

  // ----- the loops of build_dsdt -----

  /** What the 32-bit memory set needs of the machine: the raw claims, the CXL window when a CXL
      bus is present, and MMCONFIG share no address. */
  ghost predicate Collisionless(buses: seq<Expander>, space: Space, cxl: Range) {
    Disjoint(Raw(buses, space)) && (space == Mem32 && AnyCxl(buses) ==> Valid(cxl) && Clear(cxl, Raw(buses, space)))
  }

  function Extras(buses: seq<Expander>, space: Space, cxl: Range): set<Range> {
    if space == Mem32 && AnyCxl(buses) then {cxl} else {}
  }

  /** The root bus limit after visiting some expander buses in order. */
  function RootLimit(buses: seq<Expander>): (r: int)
    ensures -1 <= r <= 0xFF
  {
    if buses == [] then 0xFF
    else
      var last, before := buses[|buses| - 1], RootLimit(buses[..|buses| - 1]);
      if last.isRoot && last.busNum < before then last.busNum - 1 else before
  }

  lemma ClearParts(r: Range, a: seq<Range>, b: seq<Range>)
    requires Clear(r, a + b)
    ensures Clear(r, a) && Clear(r, b)
  {
    assert forall k :: 0 <= k < |a| ==> (a + b)[k] == a[k];
    assert forall k :: 0 <= k < |b| ==> (a + b)[|a| + k] == b[k];
  }

  lemma CollisionlessPrefix(buses: seq<Expander>, space: Space, cxl: Range)
    requires buses != [] && Collisionless(buses, space, cxl)
    ensures var last := buses[|buses| - 1];
            var bus := if last.isRoot then BusRanges(last.slots, space) else [];
            Collisionless(buses[..|buses| - 1], space, cxl)
            && Disjoint(Raw(buses[..|buses| - 1], space) + bus)
            && (space == Mem32 && AnyCxl(buses) ==> Clear(cxl, bus) && Clear(cxl, Raw(buses[..|buses| - 1], space)))
  {
    var last, before := buses[|buses| - 1], buses[..|buses| - 1];
    var bus := if last.isRoot then BusRanges(last.slots, space) else [];
    assert Raw(buses, space) == Raw(before, space) + bus;
    hide Raw, BusRanges, Disjoint, Clear;
    DisjointParts(Raw(before, space), bus);
    if space == Mem32 && AnyCxl(buses) {
      ClearParts(cxl, Raw(before, space), bus);
    }
  }

  /** One turn of the loop over expander buses keeps the collected set faithful. */
  lemma ExpanderStep(buses: seq<Expander>, space: Space, cxl: Range, entries: seq<Range>, merged: seq<Range>)
    requires buses != [] && Collisionless(buses, space, cxl)
    requires var before := buses[..|buses| - 1];
             Faithful(entries, Raw(before, space), Extras(before, space, cxl))
    requires var last := buses[|buses| - 1];
             if last.isRoot then MergeOf(merged, BusRanges(last.slots, space)) else merged == []
    ensures var last := buses[|buses| - 1];
            var added := if last.isRoot && last.isCxl && space == Mem32 then [cxl] else [];
            Faithful(entries + merged + added, Raw(buses, space), Extras(buses, space, cxl))
  {
    var last, before := buses[|buses| - 1], buses[..|buses| - 1];
    var raw, extras := Raw(before, space), Extras(before, space, cxl);
    CollisionlessPrefix(buses, space, cxl);
    AnyCxlStep(buses);
    if last.isRoot {
      BusRangesKept(last.slots, space);
      AddBus(entries, raw, extras, merged, BusRanges(last.slots, space), space);
      if last.isCxl && space == Mem32 {
        AddExtra(entries + merged, Raw(buses, space), extras, cxl);
      } else {
        assert entries + merged + [] == entries + merged;
      }
    } else {
      assert entries + merged + [] == entries && raw + [] == raw;
    }
  }

  lemma StepIfCollisionless(buses: seq<Expander>, space: Space, cxl: Range, entries: seq<Range>, merged: seq<Range>)
    requires buses != []
    requires var before := buses[..|buses| - 1];
             Collisionless(before, space, cxl) ==> Faithful(entries, Raw(before, space), Extras(before, space, cxl))
    requires var last := buses[|buses| - 1];
             if last.isRoot then MergeOf(merged, BusRanges(last.slots, space)) else merged == []
    ensures var last := buses[|buses| - 1];
            var added := if last.isRoot && last.isCxl && space == Mem32 then [cxl] else [];
            Collisionless(buses, space, cxl) ==>
              Faithful(entries + merged + added, Raw(buses, space), Extras(buses, space, cxl))
  {
    hide Faithful, MergeOf, BusRanges, Extras;
    if Collisionless(buses, space, cxl) {
      CollisionlessPrefix(buses, space, cxl);
      ExpanderStep(buses, space, cxl, entries, merged);
    }
  }

  lemma AnyCxlStep(buses: seq<Expander>)
    requires buses != []
    ensures var last := buses[|buses| - 1];
            AnyCxl(buses) <==> AnyCxl(buses[..|buses| - 1]) || (last.isRoot && last.isCxl)
  {
    var before := buses[..|buses| - 1];
    if AnyCxl(before) {
      var i :| 0 <= i < |before| && before[i].isRoot && before[i].isCxl;
      assert buses[i].isRoot && buses[i].isCxl;
    }
    if AnyCxl(buses) {
      var i :| 0 <= i < |buses| && buses[i].isRoot && buses[i].isCxl;
      assert i < |before| ==> before[i].isRoot && before[i].isCxl;
    }
  }

  lemma NothingCollected(cxl: Range)
    ensures forall space :: Faithful([], Raw([], space), Extras([], space, cxl))
    ensures forall buses, space | space != Mem32 :: Extras(buses, space, cxl) == {}
  {
  }

  /** The loop over expander buses.  `cxl` is the one CXL window of the machine, inserted again for
      every CXL bus. */
  method CollectExpanders(buses: seq<Expander>, cxl: Range, ranges: RangeSet) returns (rootBusLimit: int)
    requires ranges.Apart()
    requires ranges.io.entries == [] && ranges.mem.entries == [] && ranges.mem64.entries == []
    modifies ranges.io, ranges.mem, ranges.mem64
    ensures rootBusLimit == RootLimit(buses)
    ensures Collisionless(buses, Io, cxl) ==> Faithful(ranges.io.entries, Raw(buses, Io), {})
    ensures Collisionless(buses, Mem32, cxl) ==>
              Faithful(ranges.mem.entries, Raw(buses, Mem32), Extras(buses, Mem32, cxl))
    ensures Collisionless(buses, Mem64, cxl) ==> Faithful(ranges.mem64.entries, Raw(buses, Mem64), {})
  {
    hide Faithful, Collisionless, MergeOf, Raw, BusRanges, DescribeAll, AnyCxl;
    NothingCollected(cxl);
    rootBusLimit := 0xFF;
    for i := 0 to |buses|
      invariant rootBusLimit == RootLimit(buses[..i])
      invariant Collisionless(buses[..i], Io, cxl)
            ==> Faithful(ranges.io.entries, Raw(buses[..i], Io), Extras(buses[..i], Io, cxl))
      invariant Collisionless(buses[..i], Mem32, cxl)
            ==> Faithful(ranges.mem.entries, Raw(buses[..i], Mem32), Extras(buses[..i], Mem32, cxl))
      invariant Collisionless(buses[..i], Mem64, cxl)
            ==> Faithful(ranges.mem64.entries, Raw(buses[..i], Mem64), Extras(buses[..i], Mem64, cxl))
    {
      var bus := buses[i];
      ghost var upTo := buses[..i + 1];
      assert upTo[..|upTo| - 1] == buses[..i];
      ghost var io0, mem0, mem640 := ranges.io.entries, ranges.mem.entries, ranges.mem64.entries;
      ghost var io: seq<Range>, mem: seq<Range>, mem64: seq<Range> := [], [], [];
      if bus.isRoot {
        if bus.busNum < rootBusLimit {
          rootBusLimit := bus.busNum - 1;
        }
        var crs;
        crs, io, mem, mem64 := BuildCrs(bus.busNum, bus.slots, ranges, 0, 0, 0, 0);
        if bus.isCxl {
          ranges.mem.Insert(cxl.base, cxl.limit);
        }
      }
      assert ranges.io.entries == io0 + io + [] && ranges.mem64.entries == mem640 + mem64 + [];
      assert ranges.mem.entries == mem0 + mem + if bus.isRoot && bus.isCxl then [cxl] else [];
      StepIfCollisionless(upTo, Io, cxl, io0, io);
      StepIfCollisionless(upTo, Mem32, cxl, mem0, mem);
      StepIfCollisionless(upTo, Mem64, cxl, mem640, mem64);
    }
    assert buses[..|buses|] == buses;
  }

  // ----- PCI0._CRS -----

  /** The MMCONFIG window, when there is one, in the set with the rest. */
  ghost predicate MemClaims(buses: seq<Expander>, cxl: Range, mcfg: Option<Range>) {
    Collisionless(buses, Mem32, cxl) &&
    (mcfg.Some? ==>
       Valid(mcfg.value) && Clear(mcfg.value, Raw(buses, Mem32))
       && (AnyCxl(buses) ==> Apart(cxl, mcfg.value) || cxl == mcfg.value))
  }

  function MemExtras(buses: seq<Expander>, cxl: Range, mcfg: Option<Range>): set<Range> {
    Extras(buses, Mem32, cxl) + if mcfg.Some? then {mcfg.value} else {}
  }

  lemma AddMcfg(buses: seq<Expander>, cxl: Range, mcfg: Option<Range>, entries: seq<Range>)
    requires MemClaims(buses, cxl, mcfg)
    requires Faithful(entries, Raw(buses, Mem32), Extras(buses, Mem32, cxl))
    ensures Faithful(entries + if mcfg.Some? then [mcfg.value] else [], Raw(buses, Mem32), MemExtras(buses, cxl, mcfg))
  {
    var extras := Extras(buses, Mem32, cxl);
    if mcfg.Some? {
      AddExtra(entries, Raw(buses, Mem32), extras, mcfg.value);
    } else {
      assert entries + [] == entries && extras + {} == extras;
    }
  }

  /** One advertised hole: every address in it is outside every claim. */
  ghost predicate Avoids(advertised: seq<Range>, raw: seq<Range>, extras: set<Range>) {
    forall x: int :: Covers(advertised, x) ==> !Covers(raw, x) && forall r :: r in extras ==> !In(r, x)
  }

  predicate AllBelowTop(rs: set<Range>) { forall r :: r in rs ==> r.limit < U64_MAX }

  lemma FaithfulBelowTop(entries: seq<Range>, raw: seq<Range>, extras: set<Range>)
    requires Faithful(entries, raw, extras) && BelowTop(raw) && AllBelowTop(extras)
    ensures BelowTop(entries)
  {
    forall k | 0 <= k < |entries|
      ensures entries[k].limit < U64_MAX
    {
      if entries[k] !in extras {
        assert Valid(entries[k]) && In(entries[k], entries[k].limit);
        assert Covers(raw, entries[k].limit);
      }
    }
  }

  /** Everything claimed lies in the hole. */
  predicate ClaimsIn(raw: seq<Range>, extras: set<Range>, hole: Range) {
    Within(raw, hole.base, hole.limit) && forall r :: r in extras ==> hole.base <= r.base && r.limit <= hole.limit
  }

  lemma FaithfulInside(entries: seq<Range>, raw: seq<Range>, extras: set<Range>, hole: Range)
    requires Faithful(entries, raw, extras) && ClaimsIn(raw, extras, hole)
    ensures AllValid(entries) && Within(entries, hole.base, hole.limit)
  {
    forall k | 0 <= k < |entries|
      ensures Valid(entries[k]) && hole.base <= entries[k].base && entries[k].limit <= hole.limit
    {
      if entries[k] !in extras {
        assert In(entries[k], entries[k].base) && In(entries[k], entries[k].limit);
        assert Covers(raw, entries[k].base) && Covers(raw, entries[k].limit);
      }
    }
  }

  /** The free ranges lie in the hole, and descriptors as wide as the hole say exactly what they
      are: their ends, and a length of max - min + 1. */
  ghost predicate ExactlyIn(hole: Range, free: seq<Range>, descs: seq<Desc>) {
    AllValid(free) && Within(free, hole.base, hole.limit)
    && |descs| == |free| && forall i :: 0 <= i < |free| ==> Exact(descs[i], free[i])
  }

  lemma FreeExactlyIn(sorted: seq<Range>, before: seq<Range>, hole: Range, kind: DescKind, modulus: nat)
    requires IsSortOf(sorted, before) && AllValid(before) && Within(before, hole.base, hole.limit) && BelowTop(before)
    requires 0 < hole.base && hole.limit < modulus <= TWO64
    ensures var free := FreeFrom(sorted, hole.base, hole.limit);
            ExactlyIn(hole, free, DescribeAll(kind, free, 0, modulus))
  {
    SameElements(sorted, before);
    forall k | 0 <= k < |sorted|
      ensures Valid(sorted[k]) && hole.base <= sorted[k].base && sorted[k].limit <= hole.limit
            && sorted[k].limit < U64_MAX
    {
      assert sorted[k] in before;
    }
    FreeFromInside(sorted, hole.base, hole.base, hole.limit);
    var free := FreeFrom(sorted, hole.base, hole.limit);
    hide FreeFrom;
    forall i | 0 <= i < |free|
      ensures Exact(DescribeAll(kind, free, 0, modulus)[i], free[i])
    {
      ExactInside(kind, free[i], modulus);
    }
  }

  lemma ExactInside(kind: DescKind, r: Range, modulus: nat)
    requires Valid(r) && 0 < r.base && r.limit < modulus <= TWO64
    ensures Exact(Described(kind, r, 0, modulus), r)
  {
    ModUnique(r.base, modulus, 0, r.base);
    ModUnique(r.limit, modulus, 0, r.limit);
    ModUnique(r.limit - r.base + 1, modulus, 0, r.limit - r.base + 1);
  }

  /** What crs_replace_with_free_ranges leaves, whatever order it sorts equal bases in. */
  ghost predicate LeftOver(before: seq<Range>, free: seq<Range>, hole: Range) {
    exists sorted :: IsSortOf(sorted, before) && free == FreeFrom(sorted, hole.base, hole.limit)
  }

  /** The free ranges of one space and their descriptors: they avoid every claim; inside the hole they
      are described exactly; and they are exactly the free runs between the collected ranges. */
  ghost predicate Offered(kind: DescKind, before: seq<Range>, free: seq<Range>, descs: seq<Desc>, hole: Range,
                          modulus: nat, raw: seq<Range>, extras: set<Range>)
    requires 0 < modulus <= TWO64
  {
    var sound := Faithful(before, raw, extras) && BelowTop(raw) && AllBelowTop(extras);
    descs == DescribeAll(kind, free, 0, modulus) && LeftOver(before, free, hole)
    && (sound ==> Avoids(free, raw, extras))
    && (sound && ClaimsIn(raw, extras, hole) && 0 < hole.base && hole.limit < modulus ==> ExactlyIn(hole, free, descs))
    && (Compatible(before) && BelowTop(before) ==> FreeOf(free, before, hole))
  }

  lemma FreeAvoidsAll(before: seq<Range>, raw: seq<Range>, extras: set<Range>, sorted: seq<Range>, hole: Range)
    requires Faithful(before, raw, extras) && BelowTop(raw) && AllBelowTop(extras) && IsSortOf(sorted, before)
    ensures Avoids(FreeFrom(sorted, hole.base, hole.limit), raw, extras)
  {
    FaithfulBelowTop(before, raw, extras);
    hide Faithful, FreeFrom, BelowTop, Covers;
    forall x: int | Covers(FreeFrom(sorted, hole.base, hole.limit), x)
      ensures !Covers(raw, x) && forall r :: r in extras ==> !In(r, x)
    {
      FreeAvoidsClaims(before, raw, extras, sorted, hole.base, hole.limit, x);
    }
  }

  lemma FreeOffered(kind: DescKind, before: seq<Range>, sorted: seq<Range>, hole: Range, modulus: nat, raw: seq<Range>,
                    extras: set<Range>)
    requires 0 < modulus <= TWO64 && IsSortOf(sorted, before)
    ensures var free := FreeFrom(sorted, hole.base, hole.limit);
            Offered(kind, before, free, DescribeAll(kind, free, 0, modulus), hole, modulus, raw, extras)
  {
    hide Faithful, Described, ClaimsIn, ExactlyIn, Within, AllValid, Compatible, BelowTop, FreeOf;
    hide Avoids, FreeFrom, AllBelowTop, DescribeAll, IsSortOf;
    if Faithful(before, raw, extras) && BelowTop(raw) && AllBelowTop(extras) {
      FaithfulBelowTop(before, raw, extras);
      FreeAvoidsAll(before, raw, extras, sorted, hole);
      if ClaimsIn(raw, extras, hole) && 0 < hole.base && hole.limit < modulus {
        FaithfulInside(before, raw, extras, hole);
        FreeExactlyIn(sorted, before, hole, kind, modulus);
      }
    }
    if Compatible(before) && BelowTop(before) {
      FreeIsRuns(before, sorted, hole);
    }
  }

  /** Replaces the collected ranges of one space by the free ones and describes them. */
  method Advertise(kind: DescKind, collected: RangeArray, hole: Range, modulus: nat, ghost raw: seq<Range>,
                   ghost extras: set<Range>)
    returns (descs: seq<Desc>)
    requires 0 < modulus <= TWO64
    modifies collected
    ensures Offered(kind, old(collected.entries), collected.entries, descs, hole, modulus, raw, extras)
  {
    hide Offered, Described, FreeFrom, IsSortOf;
    ghost var sorted := collected.ReplaceWithFreeRanges(hole.base, hole.limit);
    FreeOffered(kind, old(collected.entries), sorted, hole, modulus, raw, extras);
    descs := [];
    for i := 0 to |collected.entries|
      invariant |descs| == i && forall j :: 0 <= j < i ==> descs[j] == Described(kind, collected.entries[j], 0, modulus)
    {
      descs := descs + [Described(kind, collected.entries[i], 0, modulus)];
    }
    assert descs == DescribeAll(kind, collected.entries, 0, modulus);
  }

  // ----- the whole template -----

  /** Everything claimed in 32-bit memory: BARs and windows of expander buses, the CXL window, MMCONFIG. */
  function MemClaimed(buses: seq<Expander>, cxl: Range, mcfg: Option<Range>): seq<Range> {
    Raw(buses, Mem32) + (if AnyCxl(buses) then [cxl] else []) + if mcfg.Some? then [mcfg.value] else []
  }

  /** The claims on memory, device by device: besides what the expander buses have, the CXL window as soon
      as one of them is a CXL bus, and MMCONFIG. */
  lemma MemFiled(buses: seq<Expander>, cxl: Range, mcfg: Option<Range>, r: Range)
    ensures r in MemClaimed(buses, cxl, mcfg) <==>
            || (r.base != 0 && r.base <= r.limit
                && exists i :: 0 <= i < |buses| && buses[i].isRoot && BusClaims(buses[i].slots, Mem32, r))
            || (r == cxl && exists i :: 0 <= i < |buses| && buses[i].isRoot && buses[i].isCxl)
            || mcfg == Some(r)
  {
    hide BusClaims, Raw;
    RawFiled(buses, Mem32, r);
  }

  lemma MemClaimedIs(buses: seq<Expander>, cxl: Range, mcfg: Option<Range>)
    ensures forall r ::
              r in MemClaimed(buses, cxl, mcfg) <==> r in Raw(buses, Mem32) || r in MemExtras(buses, cxl, mcfg)
  {
    hide Raw, AnyCxl;
  }

  /** A faithful set covers exactly the claims. */
  lemma FaithfulCovers(entries: seq<Range>, raw: seq<Range>, extras: set<Range>, claims: seq<Range>)
    requires Faithful(entries, raw, extras) && forall r :: r in claims <==> r in raw || r in extras
    ensures SameCover(entries, claims)
  {
    forall x: int
      ensures Covers(entries, x) <==> Covers(claims, x)
    {
      if Covers(entries, x) {
        var k :| 0 <= k < |entries| && In(entries[k], x);
        if entries[k] in extras {
          ListedCovers(claims, entries[k], x);
        } else {
          var j :| 0 <= j < |raw| && In(raw[j], x);
          ListedCovers(claims, raw[j], x);
        }
      }
      if Covers(claims, x) {
        var k :| 0 <= k < |claims| && In(claims[k], x);
        if claims[k] in extras {
          ListedCovers(entries, claims[k], x);
        } else {
          ListedCovers(raw, claims[k], x);
        }
      }
    }
  }

  lemma ListedCovers(rs: seq<Range>, r: Range, x: int)
    requires r in rs && In(r, x)
    ensures Covers(rs, x)
  {
  }

  /** The fixed ports: PCI configuration at 0x0CF8 and everything below it. */
  const PORTS_BELOW: Range := Range(0, 0x0CFF)

  /** The ports PCI0 has for its devices. */
  const IO_HOLE: Range := Range(0x0D00, 0xFFFF)

  /** The VGA window. */
  const VGA_WINDOW: Range := Range(0xA0000, 0xBFFFF)

  /** The descriptors of PCI0._CRS, in order. */
  function Template(rootLimit: int, io: seq<Desc>, mem: seq<Desc>, mem64: seq<Desc>, tis: seq<Desc>): seq<Desc> {
    [Desc(WordBusNumber, 0, rootLimit % TWO16, 0, (rootLimit + 1) % TWO16),
     Desc(IoPort, 0x0CF8, 0x0CF8, 1, 8), Desc(WordIo, 0, 0x0CF7, 0, 0x0CF8)]
    + io + VGA + mem + mem64 + tis
  }

  const VGA: seq<Desc> := [Desc(DWordMemory, 0xA0000, 0xBFFFF, 0, 0x20000)]

  lemma TemplateBuilt(rootLimit: int, io: seq<Desc>, mem: seq<Desc>, mem64: seq<Desc>, tis: seq<Desc>)
    ensures [Desc(WordBusNumber, 0, rootLimit % TWO16, 0, (rootLimit + 1) % TWO16)]
            + [Desc(IoPort, 0x0CF8, 0x0CF8, 1, 8)] + [Desc(WordIo, 0, 0x0CF7, 0, 0x0CF8)]
            + io + VGA + mem + mem64 + tis == Template(rootLimit, io, mem, mem64, tis)
  {
  }

  /** A window of 32-bit memory. */
  type Window32 = r: Range | Valid(r) && r.limit <= U32_MAX witness Range(0, 0)

  /** The registers of the TPM, if there is one. */
  function TisDescs(tis: Option<Window32>): seq<Desc> {
    match tis
    case None => []
    case Some(w) => [Desc(Memory32Fixed, w.base, w.base, 0, w.limit - w.base + 1)]
  }

  predicate AllOf(descs: seq<Desc>, kind: DescKind) { forall i :: 0 <= i < |descs| ==> descs[i].kind == kind }

  lemma TemplatePorts(rootLimit: int, io: seq<Desc>, mem: seq<Desc>, mem64: seq<Desc>, tis: seq<Desc>,
        claims: seq<Range>)
    requires AllOf(io, WordIo) && AllOf(mem, DWordMemory) && AllOf(mem64, QWordMemory) && AllOf(tis, Memory32Fixed)
    requires AllValid(claims)
    ensures MeetsBy(Template(rootLimit, io, mem, mem64, tis), true, claims) <==>
            !Clear(PORTS_BELOW, claims) || Meets(io, claims)
  {
    var bus, config, low := Desc(WordBusNumber, 0, rootLimit % TWO16, 0, (rootLimit + 1) % TWO16),
                            Desc(IoPort, 0x0CF8, 0x0CF8, 1, 8), Desc(WordIo, 0, 0x0CF7, 0, 0x0CF8);
    var vga := Desc(DWordMemory, 0xA0000, 0xBFFFF, 0, 0x20000);
    assert [bus, config, low] == [bus] + ([config] + [low]);
    FixedMeets(config, Range(0x0CF8, 0x0CFF), claims);
    FixedMeets(low, Range(0, 0x0CF7), claims);
    LowPorts(claims);
    MeetsByKind([bus], true, claims);
    MeetsByKind([config], true, claims);
    MeetsByKind([low], true, claims);
    MeetsByKind(io, true, claims);
    MeetsByKind([vga], true, claims);
    MeetsByKind(mem, true, claims);
    MeetsByKind(mem64, true, claims);
    MeetsByKind(tis, true, claims);
    hide MeetsBy, Meets, Clear, Spans;
    Joined([bus], [config] + [low], io, [vga], mem, mem64, tis, true, claims);
    MeetsByAppend([config], [low], true, claims);
  }

  /** Two adjacent windows are avoided exactly when their union is. */
  lemma LowPorts(claims: seq<Range>)
    requires AllValid(claims)
    ensures Clear(PORTS_BELOW, claims) <==> Clear(Range(0, 0x0CF7), claims) && Clear(Range(0x0CF8, 0x0CFF), claims)
  {
  }

  lemma Joined(a: seq<Desc>, b: seq<Desc>, c: seq<Desc>, d: seq<Desc>, e: seq<Desc>, f: seq<Desc>, g: seq<Desc>,
               ports: bool, claims: seq<Range>)
    ensures MeetsBy(a + b + c + d + e + f + g, ports, claims) <==>
            MeetsBy(a, ports, claims) || MeetsBy(b, ports, claims) || MeetsBy(c, ports, claims)
            || MeetsBy(d, ports, claims) || MeetsBy(e, ports, claims) || MeetsBy(f, ports, claims)
            || MeetsBy(g, ports, claims)
  {
    hide MeetsBy;
    MeetsByAppend(a, b, ports, claims);
    MeetsByAppend(a + b, c, ports, claims);
    MeetsByAppend(a + b + c, d, ports, claims);
    MeetsByAppend(a + b + c + d, e, ports, claims);
    MeetsByAppend(a + b + c + d + e, f, ports, claims);
    MeetsByAppend(a + b + c + d + e + f, g, ports, claims);
  }

  lemma TemplateMemory(rootLimit: int, io: seq<Desc>, mem: seq<Desc>, mem64: seq<Desc>, tis: seq<Desc>,
        claims: seq<Range>)
    requires AllOf(io, WordIo) && AllOf(mem, DWordMemory) && AllOf(mem64, QWordMemory) && AllOf(tis, Memory32Fixed)
    requires AllValid(claims)
    ensures MeetsBy(Template(rootLimit, io, mem, mem64, tis), false, claims) <==>
            !Clear(VGA_WINDOW, claims) || Meets(mem, claims) || Meets(mem64, claims) || Meets(tis, claims)
  {
    var bus, config, low := Desc(WordBusNumber, 0, rootLimit % TWO16, 0, (rootLimit + 1) % TWO16),
                            Desc(IoPort, 0x0CF8, 0x0CF8, 1, 8), Desc(WordIo, 0, 0x0CF7, 0, 0x0CF8);
    var vga := Desc(DWordMemory, 0xA0000, 0xBFFFF, 0, 0x20000);
    assert [bus, config, low] == [bus] + ([config] + [low]);
    FixedMeets(vga, VGA_WINDOW, claims);
    MeetsByKind([bus], false, claims);
    MeetsByKind([config] + [low], false, claims);
    MeetsByKind(io, false, claims);
    MeetsByKind([vga], false, claims);
    MeetsByKind(mem, false, claims);
    MeetsByKind(mem64, false, claims);
    MeetsByKind(tis, false, claims);
    hide MeetsBy, Meets, Clear, Spans;
    Joined([bus], [config] + [low], io, [vga], mem, mem64, tis, false, claims);
  }

  /** The free ranges of one space are exactly the runs the claims leave free. */
  lemma OfferedRuns(kind: DescKind, before: seq<Range>, free: seq<Range>, descs: seq<Desc>, hole: Range, modulus: nat,
                    raw: seq<Range>, extras: set<Range>, claims: seq<Range>)
    requires 0 < modulus <= TWO64 && Offered(kind, before, free, descs, hole, modulus, raw, extras)
    requires Faithful(before, raw, extras) && BelowTop(raw) && AllBelowTop(extras)
    requires forall r :: r in claims <==> r in raw || r in extras
    ensures FreeOf(free, claims, hole)
  {
    FaithfulBelowTop(before, raw, extras);
    FaithfulCovers(before, raw, extras, claims);
    hide BelowTop, FreeOf, SameCover, Avoids, ExactlyIn, ClaimsIn, AllBelowTop, DescribeAll;
    FreeOfTransfers(free, before, claims, hole);
  }

  lemma {:induction false} RawKept(buses: seq<Expander>, space: Space)
    ensures AllKept(Raw(buses, space), space)
  {
    hide BusRanges, Kept;
    if buses == [] {
      NoneKept(space);
    } else {
      var last := buses[|buses| - 1];
      RawKept(buses[..|buses| - 1], space);
      BusRangesKept(last.slots, space);
      NoneKept(space);
      KeptAppend(Raw(buses[..|buses| - 1], space), if last.isRoot then BusRanges(last.slots, space) else [], space);
    }
  }

  /** The claims on 32-bit memory are disjoint and end below the top. */
  ghost predicate MemBelowTop(buses: seq<Expander>, cxl: Range, mcfg: Option<Range>) {
    MemClaims(buses, cxl, mcfg) && BelowTop(Raw(buses, Mem32)) && AllBelowTop(MemExtras(buses, cxl, mcfg))
  }

  lemma MemFaithful(buses: seq<Expander>, cxl: Range, mcfg: Option<Range>, entries: seq<Range>)
    requires Collisionless(buses, Mem32, cxl) ==> Faithful(entries, Raw(buses, Mem32), Extras(buses, Mem32, cxl))
    ensures MemClaims(buses, cxl, mcfg) ==>
              Faithful(entries + if mcfg.Some? then [mcfg.value] else [], Raw(buses, Mem32),
                       MemExtras(buses, cxl, mcfg))
  {
    hide Faithful, Collisionless, Raw, MemExtras;
    if MemClaims(buses, cxl, mcfg) {
      AddMcfg(buses, cxl, mcfg, entries);
    }
  }

  lemma MemClaimedValid(buses: seq<Expander>, cxl: Range, mcfg: Option<Range>)
    requires MemClaims(buses, cxl, mcfg)
    ensures AllValid(MemClaimed(buses, cxl, mcfg))
  {
    hide Raw, AnyCxl;
  }

  lemma TisMeets(tis: Option<Window32>, claims: seq<Range>)
    requires AllValid(claims)
    ensures Meets(TisDescs(tis), claims) <==> tis.Some? && !Clear(tis.value, claims)
  {
    if tis == None {
      MeetsNothing(claims);
    } else {
      FixedMeets(TisDescs(tis)[0], tis.value, claims);
    }
  }

  lemma ClearBoth(w: Range, xs: seq<Range>, ys: seq<Range>)
    ensures Clear(w, xs + ys) <==> Clear(w, xs) && Clear(w, ys)
  {
    assert forall k :: 0 <= k < |ys| ==> (xs + ys)[|xs| + k] == ys[k];
    assert forall k :: 0 <= k < |xs| ==> (xs + ys)[k] == xs[k];
  }

  /** Every memory claim, low and high. */
  function AllMemClaimed(buses: seq<Expander>, cxl: Range, mcfg: Option<Range>): seq<Range> {
    MemClaimed(buses, cxl, mcfg) + Raw(buses, Mem64)
  }

  /** What a caller can see from the claims alone: the fixed windows are clear of them, and no gap
      between two claims above 4 GiB wraps onto a claim. */
  ghost predicate MemoryFree(buses: seq<Expander>, cxl: Range, mcfg: Option<Range>, tis: Option<Window32>) {
    var claims := MemClaimed(buses, cxl, mcfg);
    Clear(VGA_WINDOW, claims) && (tis.Some? ==> Clear(tis.value, claims)) && !WrapsOnto(claims, TWO32)
  }

  /** The same for ports: the fixed ones below 0x0D00 are clear of the claims, and no gap above 0xFFFF
      wraps onto one. */
  ghost predicate PortsFree(buses: seq<Expander>) {
    Clear(PORTS_BELOW, Raw(buses, Io)) && !WrapsOnto(Raw(buses, Io), TWO16)
  }

  lemma DescribedKind(kind: DescKind, free: seq<Range>, modulus: nat)
    requires 0 < modulus <= TWO64
    ensures AllOf(DescribeAll(kind, free, 0, modulus), kind)
  {
  }

  // ----- PCI0._CRS put together -----

  /** The 64-bit descriptors: none without a 64-bit hole. */
  function HighDescs(pciHole64: Option<Range>, mem64: seq<Range>): seq<Desc> {
    if pciHole64.Some? then DescribeAll(QWordMemory, mem64, 0, TWO64) else []
  }

  /** A resource template of PCI0: three fixed windows, and between them, for each space whose claims
      are disjoint and end below the top, exactly the runs those claims leave free in the hole. */
  ghost predicate Pci0Crs(crs: seq<Desc>, io: seq<Range>, mem: seq<Range>, mem64: seq<Range>, buses: seq<Expander>,
                          cxl: Range, mcfg: Option<Range>, tis: Option<Window32>, pciHole: Range,
                          pciHole64: Option<Range>)
  {
    crs == Template(RootLimit(buses), DescribeAll(WordIo, io, 0, TWO16), DescribeAll(DWordMemory, mem, 0, TWO32),
                    HighDescs(pciHole64, mem64), TisDescs(tis))
    && (PortsApart(buses, cxl) ==> FreeOf(io, Raw(buses, Io), Range(0x0D00, 0xFFFF)))
    && (MemBelowTop(buses, cxl, mcfg) ==> FreeOf(mem, MemClaimed(buses, cxl, mcfg), pciHole))
    && (pciHole64.Some? && HighApart(buses, cxl) ==> FreeOf(mem64, Raw(buses, Mem64), pciHole64.value))
  }

  /** The claims on ports, and those on 64-bit memory, are disjoint and end below the top. */
  ghost predicate PortsApart(buses: seq<Expander>, cxl: Range) {
    Collisionless(buses, Io, cxl) && BelowTop(Raw(buses, Io))
  }

  ghost predicate HighApart(buses: seq<Expander>, cxl: Range) {
    Collisionless(buses, Mem64, cxl) && BelowTop(Raw(buses, Mem64))
  }

  /** The parts that are always there: bus numbers from 0 to the root bus limit, the configuration ports
      and the ports below them, and the VGA window; each with the length its ends call for. */
  lemma FixedParts(crs: seq<Desc>, io: seq<Range>, mem: seq<Range>, mem64: seq<Range>, buses: seq<Expander>, cxl: Range,
                   mcfg: Option<Range>, tis: Option<Window32>, pciHole: Range, pciHole64: Option<Range>)
    requires Pci0Crs(crs, io, mem, mem64, buses, cxl, mcfg, tis, pciHole, pciHole64) && RootLimit(buses) >= 0
    ensures |crs| >= 3 && crs[0] == Desc(WordBusNumber, 0, RootLimit(buses), 0, RootLimit(buses) + 1)
    ensures crs[1] == Desc(IoPort, 0x0CF8, 0x0CF8, 1, 8) && crs[2].kind == WordIo && Exact(crs[2], Range(0, 0x0CF7))
    ensures exists i :: 3 <= i < |crs| && crs[i].kind == DWordMemory && Exact(crs[i], Range(0xA_0000, 0xB_FFFF))
    ensures tis.Some? ==> crs[|crs| - 1] == Desc(Memory32Fixed, tis.value.base, tis.value.base, 0,
                                                 tis.value.limit - tis.value.base + 1)
  {
    hide FreeOf, Raw, MemBelowTop, PortsApart, HighApart, RootLimit;
    assert crs[3 + |io|] == VGA[0];
  }

  /** PCI0 advertises a claimed port exactly when a claim lies in the fixed ports, or a gap between
      claims above 0xFFFF wraps onto one. */
  lemma PortsExact(crs: seq<Desc>, io: seq<Range>, mem: seq<Range>, mem64: seq<Range>, buses: seq<Expander>, cxl: Range,
                   mcfg: Option<Range>, tis: Option<Window32>, pciHole: Range, pciHole64: Option<Range>)
    requires Pci0Crs(crs, io, mem, mem64, buses, cxl, mcfg, tis, pciHole, pciHole64) && PortsApart(buses, cxl)
    ensures MeetsBy(crs, true, Raw(buses, Io)) <==> !PortsFree(buses)
  {
    var claims := Raw(buses, Io);
    hide Meets, MeetsBy, Clear, WrapsOnto, RunsOnto, Template, Raw, FreeOf, DescribeAll, BelowTop, MemBelowTop;
    DescribedKind(WordIo, io, TWO16);
    DescribedKind(DWordMemory, mem, TWO32);
    DescribedKind(QWordMemory, mem64, TWO64);
    TemplatePorts(RootLimit(buses), DescribeAll(WordIo, io, 0, TWO16), DescribeAll(DWordMemory, mem, 0, TWO32),
                  HighDescs(pciHole64, mem64), TisDescs(tis), claims);
    RunsMeet(WordIo, io, claims, IO_HOLE, TWO16, claims);
    RunsOntoOwn(claims, IO_HOLE, TWO16);
  }

  /** What decides it for memory: a claim in the VGA or TPM window; or a run that the 32-bit claims leave
      free and that, cut to 32 bits, encloses any claim; or one that the 64-bit claims leave free and
      that encloses any claim. */
  ghost predicate MemoryMet(buses: seq<Expander>, cxl: Range, mcfg: Option<Range>, tis: Option<Window32>,
                            pciHole: Range, pciHole64: Option<Range>)
  {
    var all := AllMemClaimed(buses, cxl, mcfg);
    !Clear(VGA_WINDOW, all) || (tis.Some? && !Clear(tis.value, all))
    || RunsOnto(MemClaimed(buses, cxl, mcfg), pciHole, TWO32, all)
    || (pciHole64.Some? && RunsOnto(Raw(buses, Mem64), pciHole64.value, TWO64, all))
  }

  /** PCI0 advertises a claimed memory address exactly then, wherever the holes and the claims lie. */
  lemma MemoryExact(crs: seq<Desc>, io: seq<Range>, mem: seq<Range>, mem64: seq<Range>, buses: seq<Expander>,
                    cxl: Range, mcfg: Option<Range>, tis: Option<Window32>, pciHole: Range, pciHole64: Option<Range>)
    requires Pci0Crs(crs, io, mem, mem64, buses, cxl, mcfg, tis, pciHole, pciHole64)
    requires MemBelowTop(buses, cxl, mcfg) && HighApart(buses, cxl)
    ensures MeetsBy(crs, false, AllMemClaimed(buses, cxl, mcfg))
            <==> MemoryMet(buses, cxl, mcfg, tis, pciHole, pciHole64)
  {
    var low, high, all := MemClaimed(buses, cxl, mcfg), Raw(buses, Mem64), AllMemClaimed(buses, cxl, mcfg);
    MemClaimedValid(buses, cxl, mcfg);
    assert AllValid(all);
    hide Meets, MeetsBy, Clear, RunsOnto, Template, Raw, FreeOf, DescribeAll, BelowTop, MemClaimed, AllMemClaimed;
    hide MemClaims, AllBelowTop, PortsApart, Collisionless, AllValid;
    DescribedKind(WordIo, io, TWO16);
    DescribedKind(DWordMemory, mem, TWO32);
    DescribedKind(QWordMemory, mem64, TWO64);
    TemplateMemory(RootLimit(buses), DescribeAll(WordIo, io, 0, TWO16), DescribeAll(DWordMemory, mem, 0, TWO32),
                   HighDescs(pciHole64, mem64), TisDescs(tis), all);
    TisMeets(tis, all);
    RunsMeet(DWordMemory, mem, low, pciHole, TWO32, all);
    if pciHole64.Some? {
      RunsMeet(QWordMemory, mem64, high, pciHole64.value, TWO64, all);
    } else {
      MeetsNothing(all);
    }
  }

  /** What the three spaces offer. */
  lemma PortsOffered(buses: seq<Expander>, cxl: Range, before: seq<Range>, free: seq<Range>, descs: seq<Desc>)
    requires Collisionless(buses, Io, cxl) ==> Faithful(before, Raw(buses, Io), {})
    requires Offered(WordIo, before, free, descs, IO_HOLE, TWO16, Raw(buses, Io), {})
    ensures descs == DescribeAll(WordIo, free, 0, TWO16)
    ensures PortsApart(buses, cxl) ==>
              FreeOf(free, Raw(buses, Io), IO_HOLE) && Avoids(free, Raw(buses, Io), {})
              && (ClaimsIn(Raw(buses, Io), {}, IO_HOLE) ==> ExactlyIn(IO_HOLE, free, descs))
  {
    hide Faithful, Raw, FreeOf, Collisionless, BelowTop, Avoids, ExactlyIn, ClaimsIn, DescribeAll, Compatible;
    if PortsApart(buses, cxl) {
      OfferedRuns(WordIo, before, free, descs, IO_HOLE, TWO16, Raw(buses, Io), {}, Raw(buses, Io));
    }
  }

  lemma MemOffered(buses: seq<Expander>, cxl: Range, mcfg: Option<Range>, pciHole: Range, before: seq<Range>,
                   free: seq<Range>, descs: seq<Desc>)
    requires MemClaims(buses, cxl, mcfg) ==> Faithful(before, Raw(buses, Mem32), MemExtras(buses, cxl, mcfg))
    requires Offered(DWordMemory, before, free, descs, pciHole, TWO32, Raw(buses, Mem32), MemExtras(buses, cxl, mcfg))
    ensures descs == DescribeAll(DWordMemory, free, 0, TWO32)
    ensures MemBelowTop(buses, cxl, mcfg) ==>
              FreeOf(free, MemClaimed(buses, cxl, mcfg), pciHole)
              && Avoids(free, Raw(buses, Mem32), MemExtras(buses, cxl, mcfg))
              && (ClaimsIn(Raw(buses, Mem32), MemExtras(buses, cxl, mcfg), pciHole) && 0 < pciHole.base
                  && pciHole.limit < TWO32
                  ==> ExactlyIn(pciHole, free, descs))
  {
    hide Faithful, Raw, FreeOf, MemClaims, BelowTop, MemExtras, MemClaimed, AllBelowTop, Avoids, ExactlyIn, ClaimsIn;
    hide DescribeAll, Compatible;
    if MemBelowTop(buses, cxl, mcfg) {
      MemClaimedIs(buses, cxl, mcfg);
      OfferedRuns(DWordMemory, before, free, descs, pciHole, TWO32, Raw(buses, Mem32), MemExtras(buses, cxl, mcfg),
                  MemClaimed(buses, cxl, mcfg));
    }
  }

  lemma HighOffered(buses: seq<Expander>, cxl: Range, hole: Range, before: seq<Range>, free: seq<Range>,
                    descs: seq<Desc>)
    requires Collisionless(buses, Mem64, cxl) ==> Faithful(before, Raw(buses, Mem64), {})
    requires Offered(QWordMemory, before, free, descs, hole, TWO64, Raw(buses, Mem64), {})
    ensures descs == DescribeAll(QWordMemory, free, 0, TWO64)
    ensures HighApart(buses, cxl) ==>
              FreeOf(free, Raw(buses, Mem64), hole) && Avoids(free, Raw(buses, Mem64), {})
              && (ClaimsIn(Raw(buses, Mem64), {}, hole) && 0 < hole.base ==> ExactlyIn(hole, free, descs))
  {
    hide Faithful, Raw, FreeOf, Collisionless, BelowTop, Avoids, ExactlyIn, ClaimsIn, DescribeAll, Compatible;
    if HighApart(buses, cxl) {
      OfferedRuns(QWordMemory, before, free, descs, hole, TWO64, Raw(buses, Mem64), {}, Raw(buses, Mem64));
    }
  }

  /** The _CRS part of build_dsdt.  Where the claims of a space are disjoint and end below the top, the
      exact conditions under which PCI0 advertises a claimed address. */
  method BuildPci0Crs(buses: seq<Expander>, cxl: Range, mcfg: Option<Range>, tis: Option<Window32>, pciHole: Range,
                      pciHole64: Option<Range>)
    returns (crs: seq<Desc>, ghost io: seq<Range>, ghost mem: seq<Range>, ghost mem64: seq<Range>)
    ensures Pci0Crs(crs, io, mem, mem64, buses, cxl, mcfg, tis, pciHole, pciHole64)
    ensures PortsApart(buses, cxl) ==>
              Avoids(io, Raw(buses, Io), {}) && (MeetsBy(crs, true, Raw(buses, Io)) <==> !PortsFree(buses))
    ensures PortsApart(buses, cxl) && ClaimsIn(Raw(buses, Io), {}, Range(0x0D00, 0xFFFF)) ==>
              ExactlyIn(Range(0x0D00, 0xFFFF), io, DescribeAll(WordIo, io, 0, TWO16))
    ensures MemBelowTop(buses, cxl, mcfg) ==> Avoids(mem, Raw(buses, Mem32), MemExtras(buses, cxl, mcfg))
    ensures pciHole64.Some? && HighApart(buses, cxl) ==> Avoids(mem64, Raw(buses, Mem64), {})
    ensures MemBelowTop(buses, cxl, mcfg) && ClaimsIn(Raw(buses, Mem32), MemExtras(buses, cxl, mcfg), pciHole)
            && 0 < pciHole.base && pciHole.limit < TWO32
            ==> ExactlyIn(pciHole, mem, DescribeAll(DWordMemory, mem, 0, TWO32))
    ensures pciHole64.Some? && HighApart(buses, cxl)
            && ClaimsIn(Raw(buses, Mem64), {}, pciHole64.value) && 0 < pciHole64.value.base
            ==> ExactlyIn(pciHole64.value, mem64, DescribeAll(QWordMemory, mem64, 0, TWO64))
    ensures MemBelowTop(buses, cxl, mcfg) && HighApart(buses, cxl) ==>
              (MeetsBy(crs, false, AllMemClaimed(buses, cxl, mcfg))
               <==> MemoryMet(buses, cxl, mcfg, tis, pciHole, pciHole64))
  {
    hide Faithful, Raw, DescribeAll, Collisionless, BelowTop, ClaimsIn, MeetsBy, MemExtras, AllMemClaimed, MemClaimed;
    hide PortsFree, MemoryMet, MemClaims, ExactlyIn, Avoids, RootLimit, Meets, FreeOf, AllBelowTop, Offered;
    hide MemBelowTop;
    var ranges := new RangeSet();
    var rootBusLimit := CollectExpanders(buses, cxl, ranges);
    ghost var collected := ranges.mem.entries;
    MemFaithful(buses, cxl, mcfg, collected);
    if mcfg.Some? {
      ranges.mem.Insert(mcfg.value.base, mcfg.value.limit);
    }
    assert ranges.mem.entries == collected + if mcfg.Some? then [mcfg.value] else [];
    ghost var io0, mem0, mem640 := ranges.io.entries, ranges.mem.entries, ranges.mem64.entries;
    crs := [Desc(WordBusNumber, 0, rootBusLimit % TWO16, 0, (rootBusLimit + 1) % TWO16)];
    crs := crs + [Desc(IoPort, 0x0CF8, 0x0CF8, 1, 8)];
    crs := crs + [Desc(WordIo, 0, 0x0CF7, 0, 0x0CF8)];
    ghost var fixed := crs;
    var descs := Advertise(WordIo, ranges.io, IO_HOLE, TWO16, Raw(buses, Io), {});
    ghost var low := descs;
    crs := crs + descs;
    crs := crs + VGA;
    descs := Advertise(DWordMemory, ranges.mem, pciHole, TWO32, Raw(buses, Mem32), MemExtras(buses, cxl, mcfg));
    ghost var middle := descs;
    crs := crs + descs;
    ghost var high: seq<Desc> := [];
    if pciHole64.Some? {
      descs := Advertise(QWordMemory, ranges.mem64, pciHole64.value, TWO64, Raw(buses, Mem64), {});
      crs := crs + descs;
      high := descs;
    }
    if tis.Some? {
      crs := crs + [Desc(Memory32Fixed, tis.value.base, tis.value.base, 0, tis.value.limit - tis.value.base + 1)];
    }
    io, mem, mem64 := ranges.io.entries, ranges.mem.entries, ranges.mem64.entries;
    PortsOffered(buses, cxl, io0, io, low);
    MemOffered(buses, cxl, mcfg, pciHole, mem0, mem, middle);
    if pciHole64.Some? {
      HighOffered(buses, cxl, pciHole64.value, mem640, mem64, high);
    }
    assert crs == fixed + low + VGA + middle + high + TisDescs(tis);
    TemplateBuilt(RootLimit(buses), low, middle, high, TisDescs(tis));
    hide Template, TisDescs, PortsApart, HighApart;
    assert Pci0Crs(crs, io, mem, mem64, buses, cxl, mcfg, tis, pciHole, pciHole64);
    if PortsApart(buses, cxl) {
      PortsExact(crs, io, mem, mem64, buses, cxl, mcfg, tis, pciHole, pciHole64);
    }
    if MemBelowTop(buses, cxl, mcfg) && HighApart(buses, cxl) {
      MemoryExact(crs, io, mem, mem64, buses, cxl, mcfg, tis, pciHole, pciHole64);
    }
  }

  // ----- where memory usually lies -----

  /** Where memory lies: the 32-bit hole below 4 GiB, the 64-bit claims above it and inside the 64-bit
      hole, which the CXL window and MMCONFIG are apart from. */
  predicate MemoryPlaced(buses: seq<Expander>, cxl: Range, mcfg: Option<Range>, pciHole: Range,
                         pciHole64: Option<Range>)
  {
    pciHole.base <= U32_MAX && pciHole.limit <= U32_MAX
    && (forall k :: 0 <= k < |Raw(buses, Mem64)| ==> Raw(buses, Mem64)[k].base > U32_MAX)
    && match pciHole64
       case None => true
       case Some(h) =>
         h.base > U32_MAX && Within(Raw(buses, Mem64), h.base, h.limit)
         && (AnyCxl(buses) ==> Apart(cxl, h)) && (mcfg.Some? ==> Apart(mcfg.value, h))
  }

  /** A run that 64-bit claims inside the hole leave free stays inside the hole. */
  lemma RunInside(claims: seq<Range>, h: Range, a: int, b: int)
    requires Within(claims, h.base, h.limit) && FreeRun(claims, h.base, h.limit, a, b)
    ensures h.base <= a <= b <= h.limit
  {
  }

  lemma HighRunsMeetNone(buses: seq<Expander>, cxl: Range, mcfg: Option<Range>, pciHole: Range, h: Range)
    requires MemoryPlaced(buses, cxl, mcfg, pciHole, Some(h))
    ensures !RunsOnto(Raw(buses, Mem64), h, TWO64, AllMemClaimed(buses, cxl, mcfg))
  {
    var low, high := MemClaimed(buses, cxl, mcfg), Raw(buses, Mem64);
    RawKept(buses, Mem32);
    forall x: int | h.base <= x <= h.limit
      ensures !Covers(low, x)
    {
      assert forall k :: 0 <= k < |Raw(buses, Mem32)| ==> Kept(Raw(buses, Mem32)[k], Mem32);
    }
    hide Raw, MemClaimed, Covers;
    forall a: int, b: int, x: int | FreeRun(high, h.base, h.limit, a, b) && a % TWO64 <= x <= b % TWO64
      ensures !Covers(low, x) && !Covers(high, x)
    {
      RunBounds(high, h.base, h.limit, a, b);
      RunInside(high, h, a, b);
      BelowModulus(a, TWO64);
      BelowModulus(b, TWO64);
    }
    hide FreeRun;
    assert !RunsOnto(high, h, TWO64, low) && !RunsOnto(high, h, TWO64, high);
    RunsOntoEither(high, h, TWO64, low, high);
  }

  lemma LowRunsMeetNoHigh(claims: seq<Range>, hole: Range, others: seq<Range>)
    requires forall k :: 0 <= k < |others| ==> others[k].base > U32_MAX
    ensures !RunsOnto(claims, hole, TWO32, others)
  {
    assert forall x: int :: Covers(others, x) ==> x > U32_MAX;
    assert forall b: int {:trigger b % TWO32} :: b % TWO32 < TWO32;
    hide Covers, FreeRun;
  }

  /** With memory so placed, what a caller sees in the 32-bit claims decides. */
  lemma PlacedExact(buses: seq<Expander>, cxl: Range, mcfg: Option<Range>, tis: Option<Window32>, pciHole: Range,
                    pciHole64: Option<Range>)
    requires MemoryPlaced(buses, cxl, mcfg, pciHole, pciHole64)
    ensures MemoryMet(buses, cxl, mcfg, tis, pciHole, pciHole64) <==> !MemoryFree(buses, cxl, mcfg, tis)
  {
    var low, high := MemClaimed(buses, cxl, mcfg), Raw(buses, Mem64);
    assert Clear(VGA_WINDOW, high) && (tis.Some? ==> Clear(tis.value, high));
    LowRunsMeetNoHigh(low, pciHole, high);
    if pciHole64.Some? {
      HighRunsMeetNone(buses, cxl, mcfg, pciHole, pciHole64.value);
    }
    hide Clear, WrapsOnto, RunsOnto, MemClaimed, Raw;
    ClearBoth(VGA_WINDOW, low, high);
    if tis.Some? {
      ClearBoth(tis.value, low, high);
    }
    RunsOntoEither(low, pciHole, TWO32, low, high);
    RunsOntoOwn(low, pciHole, TWO32);
  }

  // ----- inputs that fail, and claims that are safe -----

  /** Claims below the modulus that are apart from the fixed windows are safe. */
  lemma PortsFreeInHole(buses: seq<Expander>)
    requires ClaimsIn(Raw(buses, Io), {}, IO_HOLE)
    ensures PortsFree(buses)
  {
    hide Raw;
    NoWrapBelow(Raw(buses, Io), TWO16);
  }

  lemma MemoryFreeInHole(buses: seq<Expander>, cxl: Range, mcfg: Option<Range>, tis: Option<Window32>, pciHole: Range)
    requires ClaimsIn(MemClaimed(buses, cxl, mcfg), {}, pciHole) && pciHole.limit < TWO32
    requires VGA_WINDOW.limit < pciHole.base && (tis.Some? ==> Clear(tis.value, MemClaimed(buses, cxl, mcfg)))
    ensures MemoryFree(buses, cxl, mcfg, tis)
  {
    hide MemClaimed;
    NoWrapBelow(MemClaimed(buses, cxl, mcfg), TWO32);
  }

  lemma OneClaim(r: Range)
    requires Valid(r)
    ensures Disjoint([r])
  {
  }

  /** One expander bus with one device that has one BAR. */
  function OneBar(isIo: bool, addr: u64, size: u64): seq<Expander> {
    [Expander(true, false, 0x80, [Some(Device([Region(isIo, addr, size)], None))])]
  }

  lemma OneBarClaims(isIo: bool, addr: u64, size: u64, space: Space)
    ensures Raw(OneBar(isIo, addr, size), space) == Pick(RegionRange(Region(isIo, addr, size)), isIo, space)
  {
    hide Pick;
    var regions := [Region(isIo, addr, size)];
    assert regions[..0] == [] && RegionRanges([], space) == [];
    var picked := Pick(RegionRange(regions[0]), isIo, space);
    assert [] + picked == picked && picked + [] == picked;
    assert RegionRanges(regions, space) == picked;
    var slots := [Some(Device(regions, None))];
    assert slots[..0] == [] && BusRanges(slots, space) == picked;
    assert OneBar(isIo, addr, size)[..0] == [];
  }

  lemma FixedPortsMet(cxl: Range)
    ensures PortsApart(OneBar(true, 0x0C00, 0x40), cxl) && !PortsFree(OneBar(true, 0x0C00, 0x40))
  {
    OneBarClaims(true, 0x0C00, 0x40, Io);
    var claims := Raw(OneBar(true, 0x0C00, 0x40), Io);
    hide OneBar, Raw;
    assert claims == [Range(0x0C00, 0x0C3F)] && !Apart(PORTS_BELOW, claims[0]);
  }

  /** An I/O BAR at 0x0C00 lies in the fixed ports: PCI0 advertises it. */
  lemma FixedPortsCollide(crs: seq<Desc>, io: seq<Range>, mem: seq<Range>, mem64: seq<Range>, cxl: Range,
                          mcfg: Option<Range>, tis: Option<Window32>, pciHole: Range, pciHole64: Option<Range>)
    requires Pci0Crs(crs, io, mem, mem64, OneBar(true, 0x0C00, 0x40), cxl, mcfg, tis, pciHole, pciHole64)
    ensures var buses := OneBar(true, 0x0C00, 0x40);
            PortsApart(buses, cxl) && MeetsBy(crs, true, Raw(buses, Io))
  {
    hide Pci0Crs, PortsApart, PortsFree, OneBar;
    FixedPortsMet(cxl);
    PortsExact(crs, io, mem, mem64, OneBar(true, 0x0C00, 0x40), cxl, mcfg, tis, pciHole, pciHole64);
  }

  /** Without CXL and MMCONFIG the claims are those of the buses. */
  lemma PlainClaims(buses: seq<Expander>, cxl: Range)
    requires !AnyCxl(buses) && Disjoint(Raw(buses, Mem32)) && Disjoint(Raw(buses, Mem64))
    requires BelowTop(Raw(buses, Mem32)) && BelowTop(Raw(buses, Mem64))
    ensures MemBelowTop(buses, cxl, None) && HighApart(buses, cxl)
    ensures MemClaimed(buses, cxl, None) == Raw(buses, Mem32)
    ensures AllMemClaimed(buses, cxl, None) == Raw(buses, Mem32) + Raw(buses, Mem64)
  {
    hide Raw, AnyCxl, Disjoint, BelowTop, Clear;
  }

  lemma VgaBarClaims()
    ensures var buses := OneBar(false, 0xB0000, 0x1000);
            Raw(buses, Mem32) == [Range(0xB0000, 0xB0FFF)] && Raw(buses, Mem64) == [] && !AnyCxl(buses)
  {
    OneBarClaims(false, 0xB0000, 0x1000, Mem32);
    OneBarClaims(false, 0xB0000, 0x1000, Mem64);
    hide Raw;
  }

  lemma VgaBarMeets(cxl: Range, tis: Option<Window32>, pciHole: Range, pciHole64: Option<Range>)
    ensures var buses := OneBar(false, 0xB0000, 0x1000);
            MemBelowTop(buses, cxl, None) && HighApart(buses, cxl)
            && MemoryMet(buses, cxl, None, tis, pciHole, pciHole64)
  {
    var buses, bar := OneBar(false, 0xB0000, 0x1000), Range(0xB0000, 0xB0FFF);
    VgaBarClaims();
    hide OneBar, Raw, AnyCxl, RunsOnto;
    OneClaim(bar);
    PlainClaims(buses, cxl);
    hide MemBelowTop, HighApart, MemClaimed, AllMemClaimed;
    assert AllMemClaimed(buses, cxl, None)[0] == bar && !Apart(VGA_WINDOW, bar);
  }

  /** A memory BAR at 0xB0000 lies in the VGA window. */
  lemma VgaCollides(crs: seq<Desc>, io: seq<Range>, mem: seq<Range>, mem64: seq<Range>, cxl: Range,
                    tis: Option<Window32>, pciHole: Range, pciHole64: Option<Range>)
    requires Pci0Crs(crs, io, mem, mem64, OneBar(false, 0xB0000, 0x1000), cxl, None, tis, pciHole, pciHole64)
    ensures var buses := OneBar(false, 0xB0000, 0x1000);
            MemBelowTop(buses, cxl, None) && HighApart(buses, cxl)
            && MeetsBy(crs, false, AllMemClaimed(buses, cxl, None))
  {
    hide Pci0Crs, MemoryMet, MemBelowTop, HighApart, AllMemClaimed, OneBar;
    VgaBarMeets(cxl, tis, pciHole, pciHole64);
    MemoryExact(crs, io, mem, mem64, OneBar(false, 0xB0000, 0x1000), cxl, None, tis, pciHole, pciHole64);
  }

  /** A CXL window and MMCONFIG above 4 GiB with room between them: the room is found free, its ends
      are truncated to 32 bits, and the descriptor covers a BAR at 0xC0000000. */
  function RoomAbove(): (buses: seq<Expander>) {
    [OneBar(false, 0xC000_0000, 0x100_0000)[0].(isCxl := true)]
  }

  const ROOM_CXL: Range := Range(0x1_0000_0000, 0x1_0FFF_FFFF)
  const ROOM_MCFG: Range := Range(0x2_0000_0000, 0x2_0FFF_FFFF)

  lemma RoomClaims()
    ensures Raw(RoomAbove(), Mem32) == [Range(0xC000_0000, 0xC0FF_FFFF)] && Raw(RoomAbove(), Mem64) == []
    ensures AnyCxl(RoomAbove())
  {
    var plain, buses := OneBar(false, 0xC000_0000, 0x100_0000), RoomAbove();
    OneBarClaims(false, 0xC000_0000, 0x100_0000, Mem32);
    OneBarClaims(false, 0xC000_0000, 0x100_0000, Mem64);
    assert buses[..0] == plain[..0];
    assert buses[0].isRoot && buses[0].isCxl;
  }

  lemma RoomApart()
    ensures MemBelowTop(RoomAbove(), ROOM_CXL, Some(ROOM_MCFG)) && HighApart(RoomAbove(), ROOM_CXL)
  {
    RoomClaims();
    hide RoomAbove, Raw, AnyCxl, Compatible;
    OneClaim(Range(0xC000_0000, 0xC0FF_FFFF));
  }

  /** A run between the CXL window and MMCONFIG. */
  lemma RoomAboveRuns(pciHole: Range)
    ensures RunsOnto(MemClaimed(RoomAbove(), ROOM_CXL, Some(ROOM_MCFG)), pciHole, TWO32,
                     AllMemClaimed(RoomAbove(), ROOM_CXL, Some(ROOM_MCFG)))
  {
    RoomClaims();
    hide RoomAbove, Raw, AnyCxl;
    var claims := MemClaimed(RoomAbove(), ROOM_CXL, Some(ROOM_MCFG));
    assert claims == [Range(0xC000_0000, 0xC0FF_FFFF), ROOM_CXL, ROOM_MCFG];
    assert AllMemClaimed(RoomAbove(), ROOM_CXL, Some(ROOM_MCFG)) == claims;
    hide MemClaimed, AllMemClaimed;
    assert In(claims[0], 0xC000_0000) && In(claims[1], 0x1_0FFF_FFFF) && In(claims[2], 0x2_0000_0000);
    assert FreeRun(claims, pciHole.base, pciHole.limit, 0x1_1000_0000, 0x1_FFFF_FFFF);
    assert Covers(claims, 0xC000_0000);
  }

  lemma TruncationCollides(crs: seq<Desc>, io: seq<Range>, mem: seq<Range>, mem64: seq<Range>, tis: Option<Window32>,
                           pciHole: Range, pciHole64: Option<Range>)
    requires Pci0Crs(crs, io, mem, mem64, RoomAbove(), ROOM_CXL, Some(ROOM_MCFG), tis, pciHole, pciHole64)
    ensures MemBelowTop(RoomAbove(), ROOM_CXL, Some(ROOM_MCFG)) && HighApart(RoomAbove(), ROOM_CXL)
    ensures MeetsBy(crs, false, AllMemClaimed(RoomAbove(), ROOM_CXL, Some(ROOM_MCFG)))
  {
    hide RoomAbove, Pci0Crs, MemBelowTop, HighApart, MemClaimed, AllMemClaimed, RunsOnto;
    RoomApart();
    RoomAboveRuns(pciHole);
    MemoryExact(crs, io, mem, mem64, RoomAbove(), ROOM_CXL, Some(ROOM_MCFG), tis, pciHole, pciHole64);
  }

  /** A hole in which nothing is claimed is one run. */
  lemma WholeHole(hole: Range, modulus: nat, others: seq<Range>, x: int)
    requires hole.base < hole.limit < modulus && In(hole, x) && Covers(others, x)
    ensures RunsOnto([], hole, modulus, others)
  {
    BelowModulus(hole.base, modulus);
    BelowModulus(hole.limit, modulus);
    assert forall y: int :: !Covers([], y);
    hide Covers;
    assert FreeRun([], hole.base, hole.limit, hole.base, hole.limit);
  }

  /** One expander bus with a bridge whose prefetchable window straddles 4 GiB; the other two windows
      are closed. */
  function StraddlingBridge(): (buses: seq<Expander>) {
    var bridge := Bridge(0x81, Range(0xF000, 0x0FFF), Range(0xFFF0_0000, 0x000F_FFFF),
                         Range(0xE000_0000, 0x1_1FFF_FFFF));
    [Expander(true, false, 0x80, [Some(Device([], Some(bridge)))])]
  }

  lemma StraddlingClaims(space: Space)
    ensures Raw(StraddlingBridge(), space) == if space == Mem64 then [Range(0xE000_0000, 0x1_1FFF_FFFF)] else []
  {
    var buses := StraddlingBridge();
    var slots := buses[0].slots;
    assert buses[..0] == [] && slots[..0] == [];
    assert BusRanges(slots, space) == DeviceRanges(slots[0].value, space);
  }

  lemma StraddlingPlain()
    ensures !AnyCxl(StraddlingBridge()) && BelowTop([Range(0xE000_0000, 0x1_1FFF_FFFF)]) && BelowTop([])
    ensures Disjoint([])
  {
  }

  lemma StraddlingApart(cxl: Range)
    ensures MemBelowTop(StraddlingBridge(), cxl, None) && HighApart(StraddlingBridge(), cxl)
    ensures AllMemClaimed(StraddlingBridge(), cxl, None) == [Range(0xE000_0000, 0x1_1FFF_FFFF)]
    ensures MemClaimed(StraddlingBridge(), cxl, None) == []
  {
    hide StraddlingBridge, Raw, AnyCxl, BelowTop, MemBelowTop, HighApart, AllMemClaimed, MemClaimed;
    StraddlingClaims(Mem32);
    StraddlingClaims(Mem64);
    StraddlingPlain();
    OneClaim(Range(0xE000_0000, 0x1_1FFF_FFFF));
    PlainClaims(StraddlingBridge(), cxl);
  }

  lemma StraddlingMeets(cxl: Range, tis: Option<Window32>, pciHole64: Option<Range>)
    ensures MemoryMet(StraddlingBridge(), cxl, None, tis, Range(0xC000_0000, 0xFEBF_FFFF), pciHole64)
  {
    StraddlingApart(cxl);
    hide StraddlingBridge, MemBelowTop, HighApart, AllMemClaimed, MemClaimed;
    var all := AllMemClaimed(StraddlingBridge(), cxl, None);
    assert In(all[0], 0xE000_0000);
    assert Covers(all, 0xE000_0000);
    hide Covers;
    WholeHole(Range(0xC000_0000, 0xFEBF_FFFF), TWO32, all, 0xE000_0000);
    hide RunsOnto, Clear;
  }

  /** Such a window is a 64-bit claim, so the 32-bit hole is advertised over it. */
  lemma StraddlingCollides(crs: seq<Desc>, io: seq<Range>, mem: seq<Range>, mem64: seq<Range>, cxl: Range,
                           tis: Option<Window32>, pciHole64: Option<Range>)
    requires Pci0Crs(crs, io, mem, mem64, StraddlingBridge(), cxl, None, tis, Range(0xC000_0000, 0xFEBF_FFFF),
                     pciHole64)
    ensures MemBelowTop(StraddlingBridge(), cxl, None) && HighApart(StraddlingBridge(), cxl)
    ensures MeetsBy(crs, false, AllMemClaimed(StraddlingBridge(), cxl, None))
  {
    hide Pci0Crs, MemoryMet, MemBelowTop, HighApart, AllMemClaimed, StraddlingBridge;
    StraddlingApart(cxl);
    StraddlingMeets(cxl, tis, pciHole64);
    MemoryExact(crs, io, mem, mem64, StraddlingBridge(), cxl, None, tis, Range(0xC000_0000, 0xFEBF_FFFF), pciHole64);
  }

  /** One CXL expander bus without devices. */
  function CxlBus(): (buses: seq<Expander>) { [Expander(true, true, 0x80, [])] }

  lemma CxlBusApart(cxl: Range)
    requires Valid(cxl) && cxl.limit < U64_MAX
    ensures MemBelowTop(CxlBus(), cxl, None) && HighApart(CxlBus(), cxl)
    ensures Raw(CxlBus(), Mem64) == [] && AllMemClaimed(CxlBus(), cxl, None) == [cxl]
  {
    var buses := CxlBus();
    assert buses[..0] == [] && Raw(buses, Mem32) == [] && Raw(buses, Mem64) == [];
    assert buses[0].isRoot && AnyCxl(buses);
    hide CxlBus, Raw, AnyCxl;
  }

  lemma CxlBusMeets(cxl: Range, tis: Option<Window32>, pciHole: Range, hole: Range)
    requires Valid(cxl) && hole.base <= cxl.base && cxl.limit <= hole.limit && hole.base < hole.limit
    requires cxl.limit < U64_MAX
    ensures MemoryMet(CxlBus(), cxl, None, tis, pciHole, Some(hole))
  {
    CxlBusApart(cxl);
    hide CxlBus, MemBelowTop, HighApart, AllMemClaimed, MemClaimed, Raw;
    assert In([cxl][0], cxl.base);
    assert Covers([cxl], cxl.base);
    hide Covers;
    WholeHole(hole, TWO64, [cxl], cxl.base);
    hide RunsOnto, Clear;
  }

  /** The CXL window is kept with the 32-bit ranges, so a 64-bit hole around it is advertised over it. */
  lemma HighWindowCollides(crs: seq<Desc>, io: seq<Range>, mem: seq<Range>, mem64: seq<Range>, cxl: Range,
                           tis: Option<Window32>, pciHole: Range, hole: Range)
    requires Pci0Crs(crs, io, mem, mem64, CxlBus(), cxl, None, tis, pciHole, Some(hole))
    requires Valid(cxl) && hole.base <= cxl.base && cxl.limit <= hole.limit && hole.base < hole.limit
    requires cxl.limit < U64_MAX
    ensures MemBelowTop(CxlBus(), cxl, None) && HighApart(CxlBus(), cxl)
    ensures MeetsBy(crs, false, AllMemClaimed(CxlBus(), cxl, None))
  {
    hide Pci0Crs, MemoryMet, MemBelowTop, HighApart, AllMemClaimed, CxlBus;
    CxlBusApart(cxl);
    CxlBusMeets(cxl, tis, pciHole, hole);
    MemoryExact(crs, io, mem, mem64, CxlBus(), cxl, None, tis, pciHole, Some(hole));
  }

  // ----- bus numbers -----

  predicate AllAbove(buses: seq<Expander>, limit: int) {
    forall i :: 0 <= i < |buses| && buses[i].isRoot ==> buses[i].busNum > limit
  }

  /** `k` is the expander root bus with the lowest number. */
  predicate Lowest(buses: seq<Expander>, k: nat) {
    k < |buses| && buses[k].isRoot
    && forall i :: 0 <= i < |buses| && i != k && buses[i].isRoot ==> buses[i].busNum > buses[k].busNum
  }

  lemma {:induction false} RootLimitBounds(buses: seq<Expander>, m: int)
    requires m <= 0xFF && forall i :: 0 <= i < |buses| && buses[i].isRoot ==> buses[i].busNum > m
    ensures m <= RootLimit(buses) <= 0xFF
  {
    if buses != [] {
      RootLimitBounds(buses[..|buses| - 1], m);
    }
  }

  /** Once the lowest bus has been visited, the limit never moves again. */
  lemma {:induction false} RootLimitSettles(buses: seq<Expander>, k: nat)
    requires Lowest(buses, k)
    ensures RootLimit(buses) == if buses[k].busNum < RootLimit(buses[..k]) then buses[k].busNum - 1 else buses[k].busNum
    decreases |buses|
  {
    var n := |buses| - 1;
    var before := buses[..n];
    if k < n {
      assert Lowest(before, k) && before[..k] == buses[..k];
      RootLimitSettles(before, k);
    } else {
      RootLimitBounds(before, buses[k].busNum);
    }
  }

  /** The bus numbers PCI0 keeps, 0 to the root bus limit, leave out every expander bus exactly when
      the lowest-numbered one was below the limit at the time it was visited. */
  lemma RootLimitExact(buses: seq<Expander>, k: nat)
    requires Lowest(buses, k)
    ensures AllAbove(buses, RootLimit(buses)) <==> buses[k].busNum < RootLimit(buses[..k])
    ensures AllAbove(buses, RootLimit(buses)) ==> RootLimit(buses) == buses[k].busNum - 1
  {
    RootLimitSettles(buses, k);
    assert buses[k].isRoot;
  }

  /** Two expander buses visited in descending order with consecutive numbers: PCI0 claims the
      second one's number. */
  lemma RootLimitCollides(slots: seq<Option<Device>>)
    ensures var buses := [Expander(true, false, 0x81, slots), Expander(true, false, 0x80, slots)];
            RootLimit(buses) == 0x80 && !AllAbove(buses, RootLimit(buses))
  {
    var buses := [Expander(true, false, 0x81, slots), Expander(true, false, 0x80, slots)];
    assert buses[..1] == [buses[0]];
    assert RootLimit([buses[0]]) == 0x80 by {
      assert [buses[0]][..0] == [];
    }
    assert buses[1].isRoot;
  }
}

/** The memory part of build_srat (acpi-build.c): node memory is laid out from address 0 and cut
    around the hole from 640K to 1M and the PCI hole below 4G. */
module Srat {
  import opened Bytes

  const HOLE_640K_START: int := 640 * 1024
  const HOLE_640K_END: int := 1024 * 1024

  /** One memory affinity structure. */
  datatype Entry = Entry(base: u64, len: u64, node: u32, flags: u32)

  const ENABLED: u32 := 1

  /** `below` is below_4g_mem_size, `above` is above_4g_mem_start. */
  datatype Layout = Layout(below: u64, above: u64)

  function Total(nodes: seq<u64>): nat {
    if nodes == [] then 0 else Total(nodes[..|nodes| - 1]) + nodes[|nodes| - 1]
  }

  /** The memory, the PCI hole and the low hole fit 64 bits together, so nothing the loop
      computes wraps. */
  predicate Fits(nodes: seq<u64>, m: Layout) {
    m.below <= m.above && Total(nodes) + (m.above - m.below) + HOLE_640K_END <= U64_MAX && |nodes| <= U32_MAX
  }

  // ----- one node -----

  function Piece(base: int, len: int, node: nat): seq<Entry> {
    if 0 <= base <= U64_MAX && 0 < len <= U64_MAX && node <= U32_MAX then [Entry(base, len, node, ENABLED)] else []
  }

  /** The entries from `base` to `next`, cut at the PCI hole. */
  function PciPieces(base: int, next: int, node: nat, m: Layout): seq<Entry> {
    if base <= m.below < next then Piece(base, m.below - base, node) + Piece(m.above, next - m.below, node)
    else Piece(base, next - base, node)
  }

  function PciNext(base: int, next: int, m: Layout): int {
    if base <= m.below < next then m.above + (next - m.below) else next
  }

  predicate Crosses640K(base: int, next: int) { base <= HOLE_640K_START < next }

  /** What the loop writes for a node of `len` bytes that starts at `base`. */
  function NodePieces(base: int, len: int, node: nat, m: Layout): seq<Entry> {
    var next := base + len;
    if !Crosses640K(base, next) then PciPieces(base, next, node, m)
    else
      Piece(base, HOLE_640K_START - base, node)
      + if next <= HOLE_640K_END then [] else PciPieces(HOLE_640K_END, next, node, m)
  }

  /** Where the next node starts. */
  function NodeNext(base: int, len: int, m: Layout): int {
    var next := base + len;
    if !Crosses640K(base, next) then PciNext(base, next, m)
    else if next <= HOLE_640K_END then HOLE_640K_END
    else PciNext(HOLE_640K_END, next, m)
  }

  function Next(nodes: seq<u64>, m: Layout): int {
    if nodes == [] then 0 else NodeNext(Next(nodes[..|nodes| - 1], m), nodes[|nodes| - 1], m)
  }

  function Entries(nodes: seq<u64>, m: Layout): seq<Entry> {
    if nodes == [] then []
    else
      var before := nodes[..|nodes| - 1];
      Entries(before, m) + NodePieces(Next(before, m), nodes[|nodes| - 1], |before|, m)
  }

  // ----- what the entries cover -----

  predicate In(e: Entry, x: int) { e.base <= x < e.base + e.len }

  ghost predicate Covers(es: seq<Entry>, x: int) { exists i :: 0 <= i < |es| && In(es[i], x) }

  /** Ascending and pairwise disjoint, between two addresses. */
  predicate Ascending(es: seq<Entry>, lo: int, hi: int) {
    && (forall i :: 0 <= i < |es| ==> es[i].len > 0 && lo <= es[i].base && es[i].base + es[i].len <= hi)
    && (forall i, j :: 0 <= i < j < |es| ==> es[i].base + es[i].len <= es[j].base)
  }

  /** The hole below 1 MiB that starts at 640 KiB, and the PCI hole. */
  predicate Hole(x: int, m: Layout) { 0xA_0000 <= x < 0x10_0000 || m.below <= x < m.above }

  /** The entries are ascending and disjoint and cover exactly the addresses below the next free
      one that lie in neither hole. */
  ghost predicate Exact(nodes: seq<u64>, m: Layout) {
    && Ascending(Entries(nodes, m), 0, Next(nodes, m))
    && forall x: int :: Covers(Entries(nodes, m), x) <==> 0 <= x < Next(nodes, m) && !Hole(x, m)
  }

  /** The memory maps the cuts are right for: a PCI hole that starts at 1M or above, or lies inside
      the low hole, or is empty. */
  predicate Good(m: Layout) {
    m.below >= HOLE_640K_END || (m.below >= HOLE_640K_START && m.above <= HOLE_640K_END) || m.above == m.below
  }

  /** A node never starts strictly inside a hole. */
  predicate Settled(base: int, m: Layout) {
    0 <= base && !(HOLE_640K_START < base < HOLE_640K_END) && !(m.below < base < m.above)
  }

  /** The addresses computed for a node that reaches `next` fit 64 bits. */
  predicate Room(base: int, next: int, m: Layout) {
    next <= U64_MAX && (base <= m.below ==> next + (m.above - m.below) <= U64_MAX)
  }

  lemma CoversAppend(xs: seq<Entry>, ys: seq<Entry>, x: int)
    ensures Covers(xs + ys, x) <==> Covers(xs, x) || Covers(ys, x)
  {
    ExistsAppend(xs, ys, (e: Entry) => In(e, x));
  }

  lemma AscendingAppend(xs: seq<Entry>, ys: seq<Entry>, lo: int, mid: int, hi: int)
    requires Ascending(xs, lo, mid) && Ascending(ys, mid, hi) && lo <= mid <= hi
    ensures Ascending(xs + ys, lo, hi)
  {
  }

  lemma PieceFacts(base: int, len: int, node: nat, x: int)
    requires 0 <= base && 0 <= len && base + len <= U64_MAX && node <= U32_MAX
    ensures Covers(Piece(base, len, node), x) <==> base <= x < base + len
    ensures Ascending(Piece(base, len, node), base, base + len)
  {
    if len > 0 {
      assert In(Piece(base, len, node)[0], base);
    }
  }

  lemma PciFacts(base: int, next: int, node: nat, m: Layout, x: int)
    requires 0 <= base <= next && m.below <= m.above && !(m.below < base < m.above)
    requires Room(base, next, m) && node <= U32_MAX
    ensures base <= next <= PciNext(base, next, m) && !(m.below < PciNext(base, next, m) < m.above)
    ensures Covers(PciPieces(base, next, node, m), x) <==>
            base <= x < PciNext(base, next, m) && !(m.below <= x < m.above)
    ensures Ascending(PciPieces(base, next, node, m), base, PciNext(base, next, m))
  {
    hide Covers, Ascending, Piece;
    if base <= m.below < next {
      var low, high := Piece(base, m.below - base, node), Piece(m.above, next - m.below, node);
      PieceFacts(base, m.below - base, node, x);
      PieceFacts(m.above, next - m.below, node, x);
      CoversAppend(low, high, x);
      AscendingWider(low, base, m.below, m.above);
      AscendingAppend(low, high, base, m.above, PciNext(base, next, m));
    } else {
      PieceFacts(base, next - base, node, x);
    }
  }

  /** One node: its entries cover exactly what lies between its start and the next start, outside
      the holes. */
  lemma NodeFacts(base: int, len: nat, node: nat, m: Layout, x: int)
    requires m.below <= m.above && Good(m) && Settled(base, m) && node <= U32_MAX
    requires Room(base, base + len, m)
    ensures Settled(NodeNext(base, len, m), m) && base <= NodeNext(base, len, m)
    ensures Covers(NodePieces(base, len, node, m), x) <==> base <= x < NodeNext(base, len, m) && !Hole(x, m)
    ensures Ascending(NodePieces(base, len, node, m), base, NodeNext(base, len, m))
  {
    hide PciPieces, PciNext, Ascending, Covers;
    var next := base + len;
    if !Crosses640K(base, next) {
      PciFacts(base, next, node, m, x);
      NotCrossing(base, next, m);
    } else {
      CrossingFacts(base, next, node, m, x);
    }
  }

  /** A node that does not cross 640K meets the PCI hole only. */
  lemma NotCrossing(base: int, next: int, m: Layout)
    requires m.below <= m.above && Good(m) && Settled(base, m) && base <= next && !Crosses640K(base, next)
    ensures Settled(PciNext(base, next, m), m)
    ensures forall x: int | base <= x < PciNext(base, next, m) :: Hole(x, m) <==> m.below <= x < m.above
  {
  }

  lemma CrossingFacts(base: int, next: int, node: nat, m: Layout, x: int)
    requires m.below <= m.above && Good(m) && Settled(base, m) && node <= U32_MAX && Crosses640K(base, next)
    requires Room(base, next, m)
    ensures Settled(NodeNext(base, next - base, m), m) && base <= NodeNext(base, next - base, m)
    ensures Covers(NodePieces(base, next - base, node, m), x)
            <==> base <= x < NodeNext(base, next - base, m) && !Hole(x, m)
    ensures Ascending(NodePieces(base, next - base, node, m), base, NodeNext(base, next - base, m))
  {
    hide PciPieces, Piece, Covers, Ascending;
    var low := Piece(base, HOLE_640K_START - base, node);
    PieceFacts(base, HOLE_640K_START - base, node, x);
    BelowHole(base, m);
    if next <= HOLE_640K_END {
      assert low + [] == low;
      AscendingWider(low, base, HOLE_640K_START, HOLE_640K_END);
    } else {
      var high := PciPieces(HOLE_640K_END, next, node, m);
      PciFacts(HOLE_640K_END, next, node, m, x);
      CoversAppend(low, high, x);
      AscendingWider(low, base, HOLE_640K_START, HOLE_640K_END);
      AscendingAppend(low, high, base, HOLE_640K_END, NodeNext(base, next - base, m));
    }
  }

  /** In a good layout no part of the PCI hole lies below 640K. */
  lemma BelowHole(base: int, m: Layout)
    requires Good(m) && m.below <= m.above
    ensures forall x: int | x < HOLE_640K_START :: Hole(x, m) ==> false
    ensures forall x: int | x >= HOLE_640K_END :: Hole(x, m) <==> m.below <= x < m.above
    ensures !(m.below < HOLE_640K_END < m.above)
  {
  }

  lemma AscendingWider(es: seq<Entry>, lo: int, hi: int, hi': int)
    requires Ascending(es, lo, hi) && hi <= hi'
    ensures Ascending(es, lo, hi')
  {
  }

  // ----- runs -----

  /** Bounds on the next free address: at most one PCI hole and the low hole are added to the
      memory so far. */
  lemma {:induction false} NextBound(nodes: seq<u64>, m: Layout)
    requires m.below <= m.above
    ensures 0 <= Next(nodes, m) <=
            Total(nodes) + HOLE_640K_END + if Next(nodes, m) > m.below then m.above - m.below else 0
  {
    if nodes != [] {
      NextBound(nodes[..|nodes| - 1], m);
    }
  }

  /** The state after any number of nodes of any size. */
  lemma {:induction false} RunFacts(nodes: seq<u64>, m: Layout, x: int)
    requires Fits(nodes, m) && Good(m)
    ensures Settled(Next(nodes, m), m)
    ensures Ascending(Entries(nodes, m), 0, Next(nodes, m))
    ensures Covers(Entries(nodes, m), x) <==> 0 <= x < Next(nodes, m) && !Hole(x, m)
  {
    hide NodePieces, NodeNext, Covers, Ascending, Good, Settled;
    if nodes == [] {
      NoEntries(m, x);
    } else {
      var before, len := nodes[..|nodes| - 1], nodes[|nodes| - 1];
      var base := Next(before, m);
      RunFacts(before, m, x);
      NextBound(before, m);
      SettledIsNat(base, m);
      NodeFacts(base, len, |before|, m, x);
      CoversAppend(Entries(before, m), NodePieces(base, len, |before|, m), x);
      AscendingAppend(Entries(before, m), NodePieces(base, len, |before|, m), 0, base, Next(nodes, m));
    }
  }

  lemma SettledIsNat(base: int, m: Layout)
    requires Settled(base, m)
    ensures base >= 0
  {
  }

  lemma NoEntries(m: Layout, x: int)
    requires m.below <= m.above
    ensures Ascending([], 0, 0) && !Covers([], x) && Settled(0, m)
  {
  }

  /** SRAT exact coverage: for any number of nodes of any size, after every node, in a good layout. */
  lemma RunExact(nodes: seq<u64>, m: Layout)
    requires Fits(nodes, m) && Good(m)
    ensures Exact(nodes, m)
  {
    RunFacts(nodes, m, 0);
    forall x: int
      ensures Covers(Entries(nodes, m), x) <==> 0 <= x < Next(nodes, m) && !Hole(x, m)
    {
      RunFacts(nodes, m, x);
    }
  }

  // ----- which node the memory belongs to -----

  /** An enabled entry of this node covers the address. */
  ghost predicate CoversFor(es: seq<Entry>, node: nat, x: int) {
    exists k :: 0 <= k < |es| && es[k].node == node && es[k].flags == 1 && In(es[k], x)
  }

  /** Every entry is enabled and belongs to this node. */
  predicate Tagged(es: seq<Entry>, node: nat) { forall k :: 0 <= k < |es| ==> es[k].node == node && es[k].flags == 1 }

  lemma NodeTagged(base: int, len: int, node: nat, m: Layout)
    ensures Tagged(NodePieces(base, len, node, m), node)
  {
  }

  lemma TaggedCovers(es: seq<Entry>, node: nat, other: nat, x: int)
    requires Tagged(es, node)
    ensures CoversFor(es, other, x) <==> node == other && Covers(es, x)
  {
    hide In;
    if node == other && Covers(es, x) {
      var k :| 0 <= k < |es| && In(es[k], x);
      assert es[k].node == node && es[k].flags == 1;
    }
  }

  lemma CoversForAppend(xs: seq<Entry>, ys: seq<Entry>, node: nat, x: int)
    ensures CoversFor(xs + ys, node, x) <==> CoversFor(xs, node, x) || CoversFor(ys, node, x)
  {
    ExistsAppend(xs, ys, (e: Entry) => e.node == node && e.flags == 1 && In(e, x));
  }

  /** Every entry is enabled and belongs to one of the nodes. */
  lemma {:induction false} EntriesTagged(nodes: seq<u64>, m: Layout)
    ensures forall k :: 0 <= k < |Entries(nodes, m)| ==>
              Entries(nodes, m)[k].node < |nodes| && Entries(nodes, m)[k].flags == 1
  {
    hide NodePieces;
    if nodes != [] {
      var before := nodes[..|nodes| - 1];
      EntriesTagged(before, m);
      NodeTagged(Next(before, m), nodes[|nodes| - 1], |before|, m);
    }
  }

  lemma NoneFor(es: seq<Entry>, n: nat, node: nat, x: int)
    requires node >= n && forall k :: 0 <= k < |es| ==> es[k].node < n
    ensures !CoversFor(es, node, x)
  {
  }

  /** The memory of node `i`: its entries cover exactly the addresses between its start and the start of
      the next node that lie in no hole. */
  lemma {:induction false} NodeExact(nodes: seq<u64>, m: Layout, i: nat, x: int)
    requires Fits(nodes, m) && Good(m) && i < |nodes|
    ensures CoversFor(Entries(nodes, m), i, x) <==>
            Next(nodes[..i], m) <= x < Next(nodes[..i + 1], m) && !Hole(x, m)
    decreases |nodes|
  {
    hide NodePieces, NodeNext, Covers, CoversFor, Tagged, Good, Settled, Hole;
    var n := |nodes| - 1;
    var before, len := nodes[..n], nodes[n];
    var pieces := NodePieces(Next(before, m), len, n, m);
    CoversForAppend(Entries(before, m), pieces, i, x);
    NodeTagged(Next(before, m), len, n, m);
    TaggedCovers(pieces, n, i, x);
    if i < n {
      NodeExact(before, m, i, x);
      assert before[..i] == nodes[..i] && before[..i + 1] == nodes[..i + 1];
    } else {
      EntriesTagged(before, m);
      NoneFor(Entries(before, m), n, i, x);
      RunFacts(before, m, x);
      NextBound(before, m);
      SettledIsNat(Next(before, m), m);
      NodeFacts(Next(before, m), len, n, m, x);
      assert nodes[..i + 1] == nodes;
    }
  }

  /** One 2M node in a layout that is not good: memory is reported inside the PCI hole. */
  lemma TwoMegabytes(m: Layout)
    requires m.below <= m.above && !Good(m)
    ensures !Exact([0x20_0000], m)
  {
    var nodes := [0x20_0000];
    assert nodes[..0] == [];
    assert Entries(nodes, m) == NodePieces(0, 0x20_0000, 0, m);
    var es := Entries(nodes, m);
    assert es == [Entry(0, HOLE_640K_START, 0, ENABLED), Entry(HOLE_640K_END, HOLE_640K_END, 0, ENABLED)];
    var x := if m.below < HOLE_640K_START then m.below else HOLE_640K_END;
    assert In(es[if m.below < HOLE_640K_START then 0 else 1], x);
    assert Covers(es, x) && Hole(x, m);
  }

  /** The cuts are right for every list of nodes if and only if the layout is good. */
  lemma ExactIffGood(m: Layout)
    requires Fits([0x20_0000], m)
    ensures (forall nodes :: Fits(nodes, m) ==> Exact(nodes, m)) <==> Good(m)
  {
    if Good(m) {
      forall nodes | Fits(nodes, m)
        ensures Exact(nodes, m)
      {
        RunExact(nodes, m);
      }
    } else {
      TwoMegabytes(m);
    }
  }

  // ----- conservation and count -----

  function TotalLen(es: seq<Entry>): nat {
    if es == [] then 0 else TotalLen(es[..|es| - 1]) + es[|es| - 1].len
  }

  function Min(a: int, b: int): int { if a <= b then a else b }

  /** The bytes of the node that crosses 640K that lie between 640K and 1M. */
  function Lost(nodes: seq<u64>): nat {
    if nodes == [] then 0
    else
      var before := Total(nodes[..|nodes| - 1]);
      if before <= HOLE_640K_START < Total(nodes) then Min(Total(nodes), HOLE_640K_END) - HOLE_640K_START
      else Lost(nodes[..|nodes| - 1])
  }

  lemma {:induction false} TotalLenAppend(xs: seq<Entry>, ys: seq<Entry>)
    ensures TotalLen(xs + ys) == TotalLen(xs) + TotalLen(ys)
  {
    if ys == [] {
      assert xs + ys == xs;
    } else {
      assert (xs + ys)[..|xs + ys| - 1] == xs + ys[..|ys| - 1];
      TotalLenAppend(xs, ys[..|ys| - 1]);
    }
  }

  lemma PieceLen(base: int, len: int, node: nat)
    requires 0 <= base && 0 <= len && base + len <= U64_MAX && node <= U32_MAX
    ensures TotalLen(Piece(base, len, node)) == len
  {
    if len > 0 {
      assert Piece(base, len, node)[..0] == [];
    }
  }

  lemma PciLen(base: int, next: int, node: nat, m: Layout)
    requires 0 <= base <= next && m.below <= m.above && Room(base, next, m) && node <= U32_MAX
    ensures TotalLen(PciPieces(base, next, node, m)) == next - base
  {
    if base <= m.below < next {
      PieceLen(base, m.below - base, node);
      PieceLen(m.above, next - m.below, node);
      TotalLenAppend(Piece(base, m.below - base, node), Piece(m.above, next - m.below, node));
    } else {
      PieceLen(base, next - base, node);
    }
  }

  lemma NodeLen(base: int, len: nat, node: nat, m: Layout)
    requires 0 <= base && m.below <= m.above && Room(base, base + len, m) && node <= U32_MAX
    ensures var next := base + len;
            TotalLen(NodePieces(base, len, node, m)) ==
            len - if Crosses640K(base, next) then Min(next, HOLE_640K_END) - HOLE_640K_START else 0
  {
    hide PciPieces, Piece;
    var next := base + len;
    if Crosses640K(base, next) {
      var low := Piece(base, HOLE_640K_START - base, node);
      PieceLen(base, HOLE_640K_START - base, node);
      if next <= HOLE_640K_END {
        assert low + [] == low;
      } else {
        PciLen(HOLE_640K_END, next, node, m);
        TotalLenAppend(low, PciPieces(HOLE_640K_END, next, node, m));
      }
    } else {
      PciLen(base, next, node, m);
    }
  }

  /** Up to 640K nothing has been moved or lost. */
  lemma {:induction false} BelowLowHole(nodes: seq<u64>, m: Layout)
    requires m.below <= m.above && Good(m)
    ensures Total(nodes) <= HOLE_640K_START ==> Next(nodes, m) == Total(nodes) && Lost(nodes) == 0
    ensures Total(nodes) > HOLE_640K_START ==> Next(nodes, m) > HOLE_640K_START
    ensures Lost(nodes) <= HOLE_640K_END - HOLE_640K_START
  {
    if nodes != [] {
      BelowLowHole(nodes[..|nodes| - 1], m);
    }
  }

  /** Conservation: the enabled length is the memory of all nodes less what fell between 640K and
      1M, which is at most 384K. */
  lemma {:induction false} Conservation(nodes: seq<u64>, m: Layout)
    requires Fits(nodes, m) && Good(m)
    ensures TotalLen(Entries(nodes, m)) + Lost(nodes) == Total(nodes)
    ensures Lost(nodes) <= 384 * 1024
  {
    BelowLowHole(nodes, m);
    if nodes != [] {
      var before, len := nodes[..|nodes| - 1], nodes[|nodes| - 1];
      var base := Next(before, m);
      Conservation(before, m);
      BelowLowHole(before, m);
      NextBound(before, m);
      NodeLen(base, len, |before|, m);
      TotalLenAppend(Entries(before, m), NodePieces(base, len, |before|, m));
    }
  }

  /** Node `i` is cut at 640K. */
  predicate CutLow(nodes: seq<u64>, m: Layout, i: nat)
    requires i < |nodes|
  {
    Crosses640K(Next(nodes[..i], m), Next(nodes[..i], m) + nodes[i])
  }

  /** Node `i`, or what of it lies above the low hole, is cut at the PCI hole. */
  predicate CutHigh(nodes: seq<u64>, m: Layout, i: nat)
    requires i < |nodes|
  {
    var next := Next(nodes[..i], m) + nodes[i];
    if CutLow(nodes, m, i) then next > HOLE_640K_END && HOLE_640K_END <= m.below < next
    else Next(nodes[..i], m) <= m.below < next
  }

  /** The next address never falls. */
  lemma {:induction false} NextGrows(nodes: seq<u64>, m: Layout, i: nat, j: nat)
    requires m.below <= m.above && i <= j <= |nodes|
    ensures Next(nodes[..i], m) <= Next(nodes[..j], m)
    decreases j
  {
    if i < j {
      NextGrows(nodes, m, i, j - 1);
      NextStep(nodes, m, j - 1);
    }
  }

  lemma NextStep(nodes: seq<u64>, m: Layout, i: nat)
    requires i < |nodes|
    ensures Next(nodes[..i + 1], m) == NodeNext(Next(nodes[..i], m), nodes[i], m)
  {
    assert nodes[..i + 1][..i] == nodes[..i];
  }

  /** A node that is cut leaves the next address behind the hole it was cut at. */
  lemma CutPasses(nodes: seq<u64>, m: Layout, i: nat)
    requires m.below <= m.above && i < |nodes|
    ensures CutLow(nodes, m, i) ==> Next(nodes[..i + 1], m) > HOLE_640K_START
    ensures CutHigh(nodes, m, i) ==> Next(nodes[..i + 1], m) > m.below
  {
    NextStep(nodes, m, i);
    hide Next;
  }

  /** Each cut fires at most once per run. */
  lemma CutOnce(nodes: seq<u64>, m: Layout, i: nat, j: nat)
    requires m.below <= m.above && i < j < |nodes|
    ensures !(CutLow(nodes, m, i) && CutLow(nodes, m, j)) && !(CutHigh(nodes, m, i) && CutHigh(nodes, m, j))
  {
    CutPasses(nodes, m, i);
    NextGrows(nodes, m, i + 1, j);
    hide Next;
  }

  function Flag(b: bool): nat { if b then 1 else 0 }

  /** The entries a run may still add: one for each hole it has not passed. */
  lemma {:induction false} EntriesBounded(nodes: seq<u64>, m: Layout)
    requires m.below <= m.above
    ensures Next(nodes, m) >= 0
    ensures |Entries(nodes, m)| + Flag(Next(nodes, m) <= HOLE_640K_START)
            + Flag(Next(nodes, m) <= m.below) <= |nodes| + 2
  {
    if nodes != [] {
      EntriesBounded(nodes[..|nodes| - 1], m);
    }
  }

  /** Neither cut fires for two nodes of the run. */
  predicate EachCutOnce(nodes: seq<u64>, m: Layout) {
    forall i, j :: 0 <= i < j < |nodes| ==>
      !(CutLow(nodes, m, i) && CutLow(nodes, m, j)) && !(CutHigh(nodes, m, i) && CutHigh(nodes, m, j))
  }

  lemma CutsApart(nodes: seq<u64>, m: Layout)
    requires m.below <= m.above
    ensures EachCutOnce(nodes, m)
  {
    hide CutLow, CutHigh;
    forall i, j | 0 <= i < j < |nodes|
      ensures !(CutLow(nodes, m, i) && CutLow(nodes, m, j)) && !(CutHigh(nodes, m, i) && CutHigh(nodes, m, j))
    {
      CutOnce(nodes, m, i, j);
    }
  }

  /** Each cut fires for at most one node of a run, so there are at most two more entries than nodes. */
  lemma CutsOnce(nodes: seq<u64>, m: Layout)
    requires m.below <= m.above
    ensures EachCutOnce(nodes, m)
    ensures Next(nodes, m) >= 0
    ensures |Entries(nodes, m)| + Flag(Next(nodes, m) <= HOLE_640K_START)
            + Flag(Next(nodes, m) <= m.below) <= |nodes| + 2
  {
    hide EachCutOnce;
    CutsApart(nodes, m);
    EntriesBounded(nodes, m);
  }

  // ----- the bytes -----

  /** build_srat_memory: 64-bit fields are written as a low and a high half. */
  function Encode(e: Entry): (r: seq<byte>)
    ensures |r| == 40
  {
    Le(1, 1) + Le(40, 1) + Le(e.node, 4) + Le(0, 2) + Le(e.base, 4) + Le(e.base / 0x1_0000_0000, 4)
    + Le(e.len, 4) + Le(e.len / 0x1_0000_0000, 4) + Le(0, 4) + Le(e.flags, 4) + Le(0, 8)
  }

  function EncodeAll(es: seq<Entry>): (r: seq<byte>)
    ensures |r| == 40 * |es|
  {
    if es == [] then [] else EncodeAll(es[..|es| - 1]) + Encode(es[|es| - 1])
  }

  lemma HalvesAreLe8(v: u64)
    ensures FromLe(Le(v, 4) + Le(v / 0x1_0000_0000, 4)) == v
  {
    hide Le, FromLe;
    PowersOf256();
    LeSplit(v, 4, 4);
    High4(v);
    LeFits(v, 8);
  }

  lemma LeOne(b: byte)
    ensures Le(b, 1) == [b]
  {
    assert Le(b, 1) == [b] + Le(0, 0);
  }

  lemma {:induction false} ZeroField(n: nat)
    ensures Le(0, n) == Fill(n, 0)
  {
    if n > 0 {
      ZeroField(n - 1);
      assert Fill(n, 0) == [0] + Fill(n - 1, 0);
    }
  }

  /** The structure carries its base, length, node and flags at the offsets of section 5.2.16.2 of
      ACPI 4.0. */
  lemma EntryRoundTrip(e: Entry)
    ensures var bs := Encode(e);
            bs[0] == 1 && bs[1] == 40 && FromLe(bs[2..6]) == e.node && FromLe(bs[8..16]) == e.base
            && FromLe(bs[16..24]) == e.len && FromLe(bs[28..32]) == e.flags
            && bs[6..8] == Fill(2, 0) && bs[24..28] == Fill(4, 0) && bs[32..40] == Fill(8, 0)
  {
    hide Le, FromLe;
    var bs := Encode(e);
    PowersOf256();
    LeFits(e.node, 4);
    LeFits(e.flags, 4);
    LeOne(1);
    LeOne(40);
    assert bs[2..6] == Le(e.node, 4);
    assert bs[8..16] == Le(e.base, 4) + Le(e.base / 0x1_0000_0000, 4);
    assert bs[16..24] == Le(e.len, 4) + Le(e.len / 0x1_0000_0000, 4);
    assert bs[28..32] == Le(e.flags, 4);
    ZeroField(2);
    ZeroField(4);
    ZeroField(8);
    assert bs[6..8] == Le(0, 2) && bs[24..28] == Le(0, 4);
    assert bs[32..] == Le(0, 8) && bs[32..40] == bs[32..];
    HalvesAreLe8(e.base);
    HalvesAreLe8(e.len);
  }

  /** Structure `k` of the table lies 40 bytes behind the one before. */
  lemma {:induction false} EntryAt(es: seq<Entry>, k: nat)
    requires k < |es|
    ensures EncodeAll(es)[40 * k..40 * k + 40] == Encode(es[k])
    decreases |es|
  {
    hide Encode;
    var n := |es| - 1;
    var before := EncodeAll(es[..n]);
    if k < n {
      EntryAt(es[..n], k);
      assert EncodeAll(es)[40 * k..40 * k + 40] == before[40 * k..40 * k + 40];
    } else {
      assert EncodeAll(es)[40 * k..40 * k + 40] == Encode(es[n]);
    }
  }

  // ----- build_srat -----

  method BuildSratMemory(table: ByteVec, e: Entry)
    modifies table
    ensures table.data == old(table.data) + Encode(e)
  {
    hide Le;
    table.AppendIntNoPrefix(1, 1);
    table.AppendIntNoPrefix(40, 1);
    table.AppendIntNoPrefix(e.node, 4);
    table.AppendIntNoPrefix(0, 2);
    table.AppendIntNoPrefix(e.base, 4);
    table.AppendIntNoPrefix(e.base / 0x1_0000_0000, 4);
    table.AppendIntNoPrefix(e.len, 4);
    table.AppendIntNoPrefix(e.len / 0x1_0000_0000, 4);
    table.AppendIntNoPrefix(0, 4);
    table.AppendIntNoPrefix(e.flags, 4);
    table.AppendIntNoPrefix(0, 8);
  }

  lemma {:induction false} EncodeAllAppend(xs: seq<Entry>, ys: seq<Entry>)
    ensures EncodeAll(xs + ys) == EncodeAll(xs) + EncodeAll(ys)
  {
    hide Encode;
    if ys == [] {
      assert xs + ys == xs;
    } else {
      assert (xs + ys)[..|xs + ys| - 1] == xs + ys[..|ys| - 1];
      EncodeAllAppend(xs, ys[..|ys| - 1]);
    }
  }

  /** One structure for a piece of a node, and none for an empty piece. */
  method EmitPiece(table: ByteVec, base: u64, len: u64, node: u32)
    modifies table
    ensures table.data == old(table.data) + EncodeAll(Piece(base, len, node))
  {
    hide Encode;
    if len > 0 {
      var e := Entry(base, len, node, ENABLED);
      BuildSratMemory(table, e);
      assert [e][..0] == [];
      assert EncodeAll([e]) == [] + Encode(e);
    }
  }

  // ----- the loop in 64 bits -----

  /** The cut at the PCI hole, for any numbers: the entries, and where the next node starts. */
  function WrappedPci(base: u64, len: u64, next: u64, node: u32, m: Layout): (seq<Entry>, u64) {
    if base <= m.below < next then
      (Piece(base, Wrap64(len - (next - m.below)), node) + Piece(m.above, next - m.below, node),
       Wrap64(m.above + (next - m.below)))
    else (Piece(base, len, node), next)
  }

  function Wrapped(base: u64, len: u64, node: u32, m: Layout): (seq<Entry>, u64) {
    var next := Wrap64(base + len);
    if !Crosses640K(base, next) then WrappedPci(base, len, next, node, m)
    else
      var low := Piece(base, Wrap64(len - (next - HOLE_640K_START)), node);
      if next <= HOLE_640K_END then (low, HOLE_640K_END)
      else
        var rest := WrappedPci(HOLE_640K_END, next - HOLE_640K_END, next, node, m);
        (low + rest.0, rest.1)
  }

  function WrappedNext(nodes: seq<u64>, m: Layout): u64
    requires |nodes| <= U32_MAX
  {
    if nodes == [] then 0
    else
      var before := nodes[..|nodes| - 1];
      Wrapped(WrappedNext(before, m), nodes[|nodes| - 1], |before|, m).1
  }

  function WrappedEntries(nodes: seq<u64>, m: Layout): seq<Entry>
    requires |nodes| <= U32_MAX
  {
    if nodes == [] then []
    else
      var before := nodes[..|nodes| - 1];
      WrappedEntries(before, m) + Wrapped(WrappedNext(before, m), nodes[|nodes| - 1], |before|, m).0
  }

  lemma PciWrapsNot(base: u64, len: u64, node: u32, m: Layout)
    requires m.below <= m.above && base + len <= U64_MAX && Room(base, base + len, m)
    ensures WrappedPci(base, len, base + len, node, m) ==
            (PciPieces(base, base + len, node, m), PciNext(base, base + len, m))
  {
    hide Piece;
    var next := base + len;
    if base <= m.below < next {
      NoWrap(m.below - base);
      NoWrap(m.above + (next - m.below));
    }
  }

  lemma NodeWrapsNot(base: u64, len: u64, node: u32, m: Layout)
    requires m.below <= m.above && base + len <= U64_MAX && Room(base, base + len, m)
    ensures Wrapped(base, len, node, m) == (NodePieces(base, len, node, m), NodeNext(base, len, m))
  {
    hide Piece, PciPieces, PciNext, WrappedPci, Wrap64;
    var next := base + len;
    NoWrap(next);
    if Crosses640K(base, next) {
      NoWrap(HOLE_640K_START - base);
      assert len - (next - HOLE_640K_START) == HOLE_640K_START - base;
      if next > HOLE_640K_END {
        PciWrapsNot(HOLE_640K_END, next - HOLE_640K_END, node, m);
      } else {
        var low := Piece(base, HOLE_640K_START - base, node);
        assert low + [] == low;
      }
    } else {
      PciWrapsNot(base, len, node, m);
    }
  }

  /** Memory that fits 64 bits with the holes is laid out as if the numbers were unbounded. */
  lemma {:induction false} NothingWraps(nodes: seq<u64>, m: Layout)
    requires Fits(nodes, m)
    ensures WrappedEntries(nodes, m) == Entries(nodes, m) && WrappedNext(nodes, m) == Next(nodes, m)
  {
    hide Wrapped, NodePieces, NodeNext;
    if nodes != [] {
      var before := nodes[..|nodes| - 1];
      NothingWraps(before, m);
      NextBound(before, m);
      NodeWrapsNot(Next(before, m), nodes[|nodes| - 1], |before|, m);
    }
  }

  /** The part of the loop body below the low hole. */
  method EmitAroundPciHole(table: ByteVec, base: u64, len: u64, next: u64, node: u32, m: Layout)
    returns (nextBase: u64)
    modifies table
    ensures table.data == old(table.data) + EncodeAll(WrappedPci(base, len, next, node, m).0)
    ensures nextBase == WrappedPci(base, len, next, node, m).1
  {
    hide EncodeAll, Piece, Wrap64;
    var memBase: u64, memLen: u64 := base, len;
    nextBase := next;
    if memBase <= m.below && nextBase > m.below {
      memLen := Wrap64(memLen - (nextBase - m.below));
      EmitPiece(table, memBase, memLen, node);
      EncodeAllAppend(Piece(memBase, memLen, node), Piece(m.above, nextBase - m.below, node));
      memBase := m.above;
      memLen := nextBase - m.below;
      nextBase := Wrap64(memBase + memLen);
    }
    EmitPiece(table, memBase, memLen, node);
  }

  /** The loop body for one node; all arithmetic is 64 bits wide. */
  method EmitNode(table: ByteVec, memBase: u64, len: u64, node: u32, m: Layout) returns (nextBase: u64)
    modifies table
    ensures table.data == old(table.data) + EncodeAll(Wrapped(memBase, len, node, m).0)
    ensures nextBase == Wrapped(memBase, len, node, m).1
  {
    hide EncodeAll, WrappedPci, Piece, Wrap64;
    var memLen: u64 := len;
    nextBase := Wrap64(memBase + memLen);
    if memBase <= HOLE_640K_START && nextBase > HOLE_640K_START {
      memLen := Wrap64(memLen - (nextBase - HOLE_640K_START));
      EmitPiece(table, memBase, memLen, node);
      if nextBase <= HOLE_640K_END {
        nextBase := HOLE_640K_END;
        return;
      }
      ghost var rest := WrappedPci(HOLE_640K_END, nextBase - HOLE_640K_END, nextBase, node, m);
      EncodeAllAppend(Piece(memBase, memLen, node), rest.0);
      nextBase := EmitAroundPciHole(table, HOLE_640K_END, nextBase - HOLE_640K_END, nextBase, node, m);
    } else {
      nextBase := EmitAroundPciHole(table, memBase, memLen, nextBase, node, m);
    }
  }

  const UNUSED: Entry := Entry(0, 0, 0, 0)

  function Repeat(n: nat): (r: seq<Entry>)
    ensures |r| == n && forall k :: 0 <= k < n ==> r[k] == Entry(0, 0, 0, 0)
  {
    seq(n, _ => UNUSED)
  }

  /** How many unused structures bring the table up to two more than nodes. */
  function Padding(nodes: seq<u64>, entries: seq<Entry>, others: seq<byte>): nat {
    var slots := |entries| + |others| / 40;
    if slots < |nodes| + 2 then |nodes| + 2 - slots else 0
  }

  /** The memory loop and the slot padding of build_srat.  `others` are the structures the NVDIMM
      and SGX code add in between. */
  method BuildSrat(table: ByteVec, nodes: seq<u64>, m: Layout, others: seq<byte>)
    requires |nodes| <= U32_MAX
    modifies table
    ensures table.data == old(table.data) + EncodeAll(WrappedEntries(nodes, m)) + others
          + EncodeAll(Repeat(Padding(nodes, WrappedEntries(nodes, m), others)))
    ensures Fits(nodes, m) ==> WrappedEntries(nodes, m) == Entries(nodes, m)
  {
    hide EncodeAll, Wrapped, Entries;
    var nextBase: u64 := 0;
    var numaMemStart := |table.data|;
    NothingYet();
    for i := 0 to |nodes|
      invariant nextBase == WrappedNext(nodes[..i], m)
      invariant table.data == old(table.data) + EncodeAll(WrappedEntries(nodes[..i], m))
    {
      ghost var before := nodes[..i];
      assert nodes[..i + 1][..i] == before;
      EncodeAllAppend(WrappedEntries(before, m), Wrapped(nextBase, nodes[i], i, m).0);
      nextBase := EmitNode(table, nextBase, nodes[i], i, m);
    }
    assert nodes[..|nodes|] == nodes;
    table.Extend(others);
    var slots := (|table.data| - numaMemStart) / 40;
    Slots(|WrappedEntries(nodes, m)|, |others|);
    PadSlots(table, slots, |nodes| + 2);
    if Fits(nodes, m) {
      NothingWraps(nodes, m);
    }
  }

  lemma NothingYet()
    ensures EncodeAll([]) == []
  {
  }

  lemma Slots(entries: nat, others: nat)
    ensures (40 * entries + others) / 40 == entries + others / 40
  {
  }

  /** The loop that fills up with unused structures. */
  method PadSlots(table: ByteVec, used: nat, wanted: nat)
    modifies table
    ensures table.data == old(table.data) + EncodeAll(Repeat(if used < wanted then wanted - used else 0))
  {
    hide Encode;
    var slots := used;
    ghost var padding: seq<Entry> := [];
    while slots < wanted
      invariant |padding| == slots - used && (used < wanted ==> slots <= wanted)
      invariant padding == Repeat(|padding|)
      invariant used >= wanted ==> slots == used
      invariant table.data == old(table.data) + EncodeAll(padding)
    {
      BuildSratMemory(table, UNUSED);
      ghost var more := padding + [UNUSED];
      assert more[..|more| - 1] == padding;
      padding := more;
      slots := slots + 1;
    }
  }

  /** Without NVDIMM or SGX structures the table ends up with exactly two more than nodes. */
  lemma SlotCount(nodes: seq<u64>, m: Layout)
    requires m.below <= m.above
    ensures |Entries(nodes, m)| + Padding(nodes, Entries(nodes, m), []) == |nodes| + 2
  {
    CutsOnce(nodes, m);
  }
}

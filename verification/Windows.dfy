/** Which addresses a resource descriptor covers, and when the descriptors of the free ranges cover
    a used address: the descriptor fields are narrower than the ranges. */
module Windows {
  import opened Bytes
  import opened Ranges
  import opened Crs

  /** A fixed port or memory descriptor covers `length` addresses from its base; a window runs from
      its minimum to its maximum. */
  predicate Spans(d: Desc, x: int) {
    if d.kind == IoPort || d.kind == Memory32Fixed then d.min <= x < d.max + d.length else d.min <= x <= d.max
  }

  predicate IsPort(d: Desc) { d.kind == IoPort || d.kind == WordIo || d.kind == DWordIo }

  predicate IsMemory(d: Desc) { d.kind == DWordMemory || d.kind == QWordMemory || d.kind == Memory32Fixed }

  predicate Windowed(kind: DescKind) { kind == WordIo || kind == DWordMemory || kind == QWordMemory }

  /** Some descriptor covers a claimed address. */
  ghost predicate Meets(descs: seq<Desc>, claims: seq<Range>) {
    exists i, x: int :: 0 <= i < |descs| && Spans(descs[i], x) && Covers(claims, x)
  }

  /** A longest run of unclaimed addresses between two claimed ones. */
  ghost predicate Gap(claims: seq<Range>, a: int, b: int) {
    a <= b && Covers(claims, a - 1) && Covers(claims, b + 1) && forall x: int :: a <= x <= b ==> !Covers(claims, x)
  }

  /** A gap between claims that lies above what a descriptor can hold, and whose ends, truncated,
      enclose a claimed address. */
  ghost predicate WrapsOnto(claims: seq<Range>, modulus: nat)
    requires modulus > 0
  {
    exists a: int, b: int, x: int ::
      modulus <= a && Gap(claims, a, b) && a % modulus <= x <= b % modulus && Covers(claims, x)
  }

  ghost predicate SameCover(xs: seq<Range>, ys: seq<Range>) { forall x: int :: Covers(xs, x) <==> Covers(ys, x) }

  /** Claims that all end below the modulus leave no such gap. */
  lemma NoWrapBelow(claims: seq<Range>, modulus: nat)
    requires modulus > 0 && forall i :: 0 <= i < |claims| ==> claims[i].limit < modulus
    ensures !WrapsOnto(claims, modulus)
  {
    assert forall x: int :: Covers(claims, x) ==> x < modulus;
    hide Covers;
  }

  // ----- the runs of unclaimed addresses -----

  /** A run of unclaimed addresses that is offered: it goes back to a claim, or begins with the interval
      below all claims; and it goes up to a claim, or ends with the interval above all claims, and then
      it is longer than one address. */
  ghost predicate FreeRun(claims: seq<Range>, start: int, end: int, a: int, b: int) {
    a <= b && (forall x: int :: a <= x <= b ==> !Covers(claims, x))
    && (Covers(claims, a - 1) || (a == start && forall x: int :: Covers(claims, x) ==> x > a))
    && (Covers(claims, b + 1) || (b == end && a < end && forall x: int :: Covers(claims, x) ==> x < b))
  }

  /** These ranges are exactly the free runs. */
  ghost predicate FreeOf(free: seq<Range>, claims: seq<Range>, hole: Range) {
    forall r: Range :: r in free <==> FreeRun(claims, hole.base, hole.limit, r.base, r.limit)
  }

  /** A free run, truncated to the width of a descriptor, encloses an address of some other claims. */
  ghost predicate RunsOnto(claims: seq<Range>, hole: Range, modulus: nat, others: seq<Range>)
    requires modulus > 0
  {
    exists a: int, b: int, x: int ::
      FreeRun(claims, hole.base, hole.limit, a, b) && a % modulus <= x <= b % modulus && Covers(others, x)
  }

  lemma RunBounds(claims: seq<Range>, start: u64, end: u64, a: int, b: int)
    requires FreeRun(claims, start, end, a, b)
    ensures 0 <= a <= b <= U64_MAX
  {
  }

  lemma FreeRunTransfers(xs: seq<Range>, ys: seq<Range>, start: int, end: int, a: int, b: int)
    requires SameCover(xs, ys)
    ensures FreeRun(xs, start, end, a, b) <==> FreeRun(ys, start, end, a, b)
  {
    hide Covers;
  }

  lemma FreeOfTransfers(free: seq<Range>, xs: seq<Range>, ys: seq<Range>, hole: Range)
    requires SameCover(xs, ys) && FreeOf(free, xs, hole)
    ensures FreeOf(free, ys, hole)
  {
    hide FreeRun, SameCover;
    forall r: Range
      ensures r in free <==> FreeRun(ys, hole.base, hole.limit, r.base, r.limit)
    {
      FreeRunTransfers(xs, ys, hole.base, hole.limit, r.base, r.limit);
    }
  }

  // ----- the free ranges are these runs -----

  /** A free range is bounded by claims, or by the interval where no claim lies beyond it. */
  ghost predicate Bounded(claims: seq<Range>, r: Range, start: int, end: int) {
    Valid(r)
    && (Covers(claims, r.base - 1) || (r.base == start && forall k :: 0 <= k < |claims| ==> claims[k].base > start))
    && (Covers(claims, r.limit + 1)
        || (r.limit == end && r.base < end && forall k :: 0 <= k < |claims| ==> claims[k].limit < r.base))
  }

  lemma {:induction false} FreeBounded(sorted: seq<Range>, freeBase: u64, end: u64)
    requires Staircase(sorted) && BelowTop(sorted)
    ensures forall i :: 0 <= i < |FreeFrom(sorted, freeBase, end)| ==>
              Bounded(sorted, FreeFrom(sorted, freeBase, end)[i], freeBase, end)
    decreases |sorted|
  {
    hide Wrap64, Covers;
    if sorted != [] {
      var used, rest := sorted[0], sorted[1..];
      assert [used] + rest == sorted;
      NoWrap(used.limit + 1);
      FreeBounded(rest, used.limit + 1, end);
      var free, tail := FreeFrom(sorted, freeBase, end), FreeFrom(rest, used.limit + 1, end);
      var n := |free| - |tail|;
      forall i | 0 <= i < |free|
        ensures Bounded(sorted, free[i], freeBase, end)
      {
        assert Valid(used);
        if i < n {
          CoversCons(used, rest, used.base);
          assert forall k :: 0 < k < |sorted| ==> sorted[k].base >= used.base;
        } else {
          assert free[i] == tail[i - n];
          TailBounded(sorted, tail[i - n], freeBase, end);
        }
      }
    }
  }

  /** What bounds a range behind the first used one bounds it altogether. */
  lemma TailBounded(sorted: seq<Range>, r: Range, freeBase: u64, end: u64)
    requires sorted != [] && Staircase(sorted) && Bounded(sorted[1..], r, sorted[0].limit + 1, end)
    ensures Bounded(sorted, r, freeBase, end)
  {
    var used, rest := sorted[0], sorted[1..];
    assert [used] + rest == sorted && Valid(used);
    CoversCons(used, rest, r.base - 1);
    CoversCons(used, rest, r.limit + 1);
    if !Covers(sorted, r.limit + 1) {
      if Covers(rest, r.base - 1) {
        var k :| 0 <= k < |rest| && In(rest[k], r.base - 1);
        assert sorted[k + 1] == rest[k] && used.limit <= rest[k].limit < r.base;
      } else {
        assert used.limit < r.base;
      }
      assert forall k :: 0 < k < |sorted| ==> sorted[k] == rest[k - 1];
    }
  }

  /** The used ranges around a gap: everything ends below it or starts above it. */
  predicate Around(sorted: seq<Range>, a: int, b: int) {
    forall k :: 0 <= k < |sorted| ==> sorted[k].limit < a || sorted[k].base > b
  }

  /** The run below all claims is found first. */
  lemma FirstFound(sorted: seq<Range>, start: u64, end: u64, b: u64)
    requires sorted != [] && start <= b && sorted[0].base == b + 1
    ensures Range(start, b) in FreeFrom(sorted, start, end)
  {
    assert FreeFrom(sorted, start, end)[0] == Range(start, b);
  }

  /** A gap between two claims is found free. */
  lemma {:induction false} GapFound(sorted: seq<Range>, freeBase: u64, end: u64, a: u64, b: u64)
    requires Staircase(sorted) && BelowTop(sorted) && a <= b && Around(sorted, a, b)
    requires exists k :: 0 <= k < |sorted| && sorted[k].base == b + 1
    requires (exists k :: 0 <= k < |sorted| && sorted[k].limit == a - 1) || (freeBase == a && sorted[0].base > b)
    ensures Range(a, b) in FreeFrom(sorted, freeBase, end)
    decreases |sorted|
  {
    hide Wrap64;
    var used, rest := sorted[0], sorted[1..];
    assert Valid(used);
    if used.base > b {
      hide FreeFrom;
      GapFirst(sorted, freeBase, a, b);
      FirstFound(sorted, freeBase, end, b);
    } else {
      NoWrap(used.limit + 1);
      GapLater(sorted, a, b);
      GapFound(rest, used.limit + 1, end, a, b);
    }
  }

  lemma GapFirst(sorted: seq<Range>, freeBase: u64, a: u64, b: u64)
    requires Staircase(sorted) && a <= b && sorted != [] && sorted[0].base > b
    requires exists k :: 0 <= k < |sorted| && sorted[k].base == b + 1
    requires (exists k :: 0 <= k < |sorted| && sorted[k].limit == a - 1) || freeBase == a
    ensures freeBase == a && sorted[0].base == b + 1
  {
    assert forall k :: 0 <= k < |sorted| ==> Valid(sorted[k]) && sorted[k].base >= sorted[0].base;
  }

  /** A gap behind the first range is a gap of the rest. */
  lemma GapLater(sorted: seq<Range>, a: u64, b: u64)
    requires Staircase(sorted) && a <= b && Around(sorted, a, b) && sorted != [] && sorted[0].base <= b
    requires exists k :: 0 <= k < |sorted| && sorted[k].base == b + 1
    requires exists k :: 0 <= k < |sorted| && sorted[k].limit == a - 1
    ensures Staircase(sorted[1..]) && Around(sorted[1..], a, b)
    ensures exists k :: 0 <= k < |sorted| - 1 && sorted[1..][k].base == b + 1
    ensures (exists k :: 0 <= k < |sorted| - 1 && sorted[1..][k].limit == a - 1)
            || (sorted[0].limit + 1 == a && sorted[1..][0].base > b)
  {
    var used, rest := sorted[0], sorted[1..];
    assert forall k :: 0 <= k < |rest| ==> rest[k] == sorted[k + 1];
    var above :| 0 <= above < |sorted| && sorted[above].base == b + 1;
    assert above > 0 && rest[above - 1].base == b + 1;
    var below :| 0 <= below < |sorted| && sorted[below].limit == a - 1;
    if below > 0 {
      assert rest[below - 1].limit == a - 1;
    } else if rest[0].limit != a - 1 {
      assert sorted[1].limit >= used.limit;
    }
  }

  lemma GapAround(sorted: seq<Range>, a: int, b: int)
    requires AllValid(sorted) && Gap(sorted, a, b)
    ensures Around(sorted, a, b) && 0 < a <= b < U64_MAX
    ensures exists k :: 0 <= k < |sorted| && sorted[k].base == b + 1
    ensures exists k :: 0 <= k < |sorted| && sorted[k].limit == a - 1
  {
    forall k | 0 <= k < |sorted|
      ensures sorted[k].limit < a || sorted[k].base > b
    {
      assert Valid(sorted[k]);
      var x: int := if sorted[k].base > a then sorted[k].base else a;
      assert In(sorted[k], x) ==> Covers(sorted, x);
    }
    var i :| 0 <= i < |sorted| && In(sorted[i], a - 1);
    var j :| 0 <= j < |sorted| && In(sorted[j], b + 1);
    assert sorted[i].limit < a && sorted[j].base > b;
  }

  // ----- the descriptors of the free ranges -----

  lemma SpansDescribed(kind: DescKind, r: Range, modulus: nat, x: int)
    requires Windowed(kind) && 0 < modulus <= TWO64
    ensures Spans(Described(kind, r, 0, modulus), x) <==> r.base % modulus <= x <= r.limit % modulus
  {
  }

  lemma BelowModulus(v: nat, modulus: nat)
    requires modulus > 0
    ensures v % modulus <= v && (v < modulus ==> v % modulus == v)
  {
    if v < modulus {
      ModUnique(v, modulus, 0, v);
    } else {
      assert v % modulus < modulus;
    }
  }

  /** The run above all claims is found last. */
  lemma {:induction false} LastFound(sorted: seq<Range>, freeBase: u64, end: u64, a: u64)
    requires BelowTop(sorted) && a < end && if sorted == [] then freeBase == a else sorted[|sorted| - 1].limit + 1 == a
    ensures Range(a, end) in FreeFrom(sorted, freeBase, end)
    decreases |sorted|
  {
    hide Wrap64;
    if sorted == [] {
      assert FreeFrom(sorted, freeBase, end)[0] == Range(a, end);
    } else {
      NoWrap(sorted[0].limit + 1);
      LastFound(sorted[1..], sorted[0].limit + 1, end, a);
    }
  }

  lemma StaircaseValid(sorted: seq<Range>)
    requires Staircase(sorted)
    ensures AllValid(sorted)
  {
  }

  lemma FreeIs(free: seq<Range>, i: nat, y: int)
    requires i < |free| && In(free[i], y)
    ensures Covers(free, y)
  {
  }

  /** A free range is a free run. */
  lemma FreeIsRun(sorted: seq<Range>, start: u64, end: u64, i: nat)
    requires Staircase(sorted) && BelowTop(sorted) && i < |FreeFrom(sorted, start, end)|
    ensures var r := FreeFrom(sorted, start, end)[i]; FreeRun(sorted, start, end, r.base, r.limit)
  {
    hide FreeFrom, Staircase;
    var r := FreeFrom(sorted, start, end)[i];
    FreeBounded(sorted, start, end);
    assert Bounded(sorted, r, start, end);
    hide BelowTop;
    forall y: int | r.base <= y <= r.limit
      ensures !Covers(sorted, y)
    {
      FreeIs(FreeFrom(sorted, start, end), i, y);
      FreeFromAvoidsRepeated(sorted, start, end, y);
    }
    assert r.base == start && (forall k :: 0 <= k < |sorted| ==> sorted[k].base > start)
           ==> forall x: int :: Covers(sorted, x) ==> x > start;
  }

  /** Claims that lie above, or below, an address do so with their ends. */
  lemma CoverAbove(sorted: seq<Range>, a: int)
    requires AllValid(sorted) && forall x: int :: Covers(sorted, x) ==> x > a
    ensures forall k :: 0 <= k < |sorted| ==> sorted[k].base > a
  {
    forall k | 0 <= k < |sorted|
      ensures sorted[k].base > a
    {
      assert Valid(sorted[k]) && In(sorted[k], sorted[k].base);
      assert Covers(sorted, sorted[k].base);
    }
  }

  lemma CoverBelow(sorted: seq<Range>, a: int, b: int)
    requires AllValid(sorted) && (forall x: int :: Covers(sorted, x) ==> x < b)
    requires forall x: int :: a <= x <= b ==> !Covers(sorted, x)
    ensures forall k :: 0 <= k < |sorted| ==> sorted[k].limit < a
  {
    forall k | 0 <= k < |sorted|
      ensures sorted[k].limit < a
    {
      assert Valid(sorted[k]) && In(sorted[k], sorted[k].limit);
      assert Covers(sorted, sorted[k].limit);
    }
  }

  /** A free run is found. */
  lemma RunFound(sorted: seq<Range>, start: u64, end: u64, a: u64, b: u64)
    requires Staircase(sorted) && BelowTop(sorted) && FreeRun(sorted, start, end, a, b)
    ensures Range(a, b) in FreeFrom(sorted, start, end)
  {
    hide FreeFrom;
    StaircaseValid(sorted);
    if Covers(sorted, a - 1) && Covers(sorted, b + 1) {
      GapAround(sorted, a, b);
      GapFound(sorted, start, end, a, b);
    } else if Covers(sorted, b + 1) {
      CoverAbove(sorted, a);
      FirstAbove(sorted, a, b);
      FirstFound(sorted, start, end, b);
    } else {
      CoverBelow(sorted, a, b);
      if sorted == [] {
        CoversNone(a - 1);
      } else {
        assert Valid(sorted[0]) && In(sorted[0], sorted[0].limit);
        assert Covers(sorted, sorted[0].limit) && Covers(sorted, a - 1);
        LastBelow(sorted, a);
      }
      LastFound(sorted, start, end, a);
    }
  }

  lemma FirstAbove(sorted: seq<Range>, a: int, b: int)
    requires Staircase(sorted) && Covers(sorted, b + 1) && (forall x: int :: a <= x <= b ==> !Covers(sorted, x))
    requires forall k :: 0 <= k < |sorted| ==> sorted[k].base > a
    ensures sorted != [] && sorted[0].base == b + 1
  {
    var j :| 0 <= j < |sorted| && In(sorted[j], b + 1);
    assert Valid(sorted[0]) && sorted[0].base <= sorted[j].base;
    assert In(sorted[0], sorted[0].base) && Covers(sorted, sorted[0].base);
  }

  lemma LastBelow(sorted: seq<Range>, a: int)
    requires Staircase(sorted) && Covers(sorted, a - 1) && forall k :: 0 <= k < |sorted| ==> sorted[k].limit < a
    ensures sorted != [] && sorted[|sorted| - 1].limit + 1 == a
  {
    var j :| 0 <= j < |sorted| && In(sorted[j], a - 1);
    var last := |sorted| - 1;
    assert j < last ==> sorted[j].limit <= sorted[last].limit;
  }

  /** The free ranges of some used ones are exactly the free runs. */
  lemma FreeIsRuns(used: seq<Range>, sorted: seq<Range>, hole: Range)
    requires IsSortOf(sorted, used) && Compatible(used) && BelowTop(used)
    ensures FreeOf(FreeFrom(sorted, hole.base, hole.limit), used, hole)
  {
    hide Covers, FreeFrom, Staircase, FreeRun, Compatible;
    SortStaircase(sorted, used);
    SortBelowTop(sorted, used);
    forall x: int
      ensures Covers(sorted, x) <==> Covers(used, x)
    {
      SortCovers(sorted, used, x);
    }
    var free := FreeFrom(sorted, hole.base, hole.limit);
    forall r: Range
      ensures r in free <==> FreeRun(sorted, hole.base, hole.limit, r.base, r.limit)
    {
      if r in free {
        var i :| 0 <= i < |free| && free[i] == r;
        FreeIsRun(sorted, hole.base, hole.limit, i);
      }
      if FreeRun(sorted, hole.base, hole.limit, r.base, r.limit) {
        RunFound(sorted, hole.base, hole.limit, r.base, r.limit);
      }
    }
    FreeOfTransfers(free, sorted, used, hole);
  }

  /** Over all descriptors of the free runs and any claims whatever: one covers a claimed address
      exactly when a run, truncated, encloses it. */
  lemma RunsMeet(kind: DescKind, free: seq<Range>, claims: seq<Range>, hole: Range, modulus: nat, others: seq<Range>)
    requires FreeOf(free, claims, hole) && Windowed(kind) && 0 < modulus <= TWO64
    ensures Meets(DescribeAll(kind, free, 0, modulus), others) <==> RunsOnto(claims, hole, modulus, others)
  {
    hide Covers, Described, Spans, FreeRun;
    var descs := DescribeAll(kind, free, 0, modulus);
    if Meets(descs, others) {
      var i, x: int :| 0 <= i < |descs| && Spans(descs[i], x) && Covers(others, x);
      SpansDescribed(kind, free[i], modulus, x);
      assert free[i] in free;
    }
    if RunsOnto(claims, hole, modulus, others) {
      var a: int, b: int, x: int :|
        FreeRun(claims, hole.base, hole.limit, a, b) && a % modulus <= x <= b % modulus && Covers(others, x);
      RunBounds(claims, hole.base, hole.limit, a, b);
      var r := Range(a, b);
      assert r in free;
      var i :| 0 <= i < |free| && free[i] == r;
      SpansDescribed(kind, free[i], modulus, x);
      assert Spans(descs[i], x);
    }
  }

  /** Onto the claims themselves a run falls only from above the modulus, so from a gap. */
  lemma RunsOntoOwn(claims: seq<Range>, hole: Range, modulus: nat)
    requires 0 < modulus && hole.base < modulus && hole.limit < modulus
    ensures RunsOnto(claims, hole, modulus, claims) <==> WrapsOnto(claims, modulus)
  {
    hide Covers;
    if RunsOnto(claims, hole, modulus, claims) {
      var a: int, b: int, x: int :|
        FreeRun(claims, hole.base, hole.limit, a, b) && a % modulus <= x <= b % modulus && Covers(claims, x);
      RunBounds(claims, hole.base, hole.limit, a, b);
      BelowModulus(a, modulus);
      BelowModulus(b, modulus);
      assert Gap(claims, a, b);
    }
    if WrapsOnto(claims, modulus) {
      var a: int, b: int, x: int :|
        modulus <= a && Gap(claims, a, b) && a % modulus <= x <= b % modulus && Covers(claims, x);
      assert FreeRun(claims, hole.base, hole.limit, a, b);
    }
  }

  /** The descriptors of the free ranges cover a used address exactly when a gap above the modulus
      wraps onto one. */
  lemma MeetsIffWraps(used: seq<Range>, sorted: seq<Range>, hole: Range, kind: DescKind, modulus: nat)
    requires IsSortOf(sorted, used) && Compatible(used) && BelowTop(used) && Windowed(kind)
    requires hole.base < modulus <= TWO64 && hole.limit < modulus
    ensures Meets(DescribeAll(kind, FreeFrom(sorted, hole.base, hole.limit), 0, modulus), used)
            <==> WrapsOnto(used, modulus)
  {
    hide Meets, RunsOnto, WrapsOnto, FreeOf, FreeFrom, IsSortOf, Compatible, BelowTop;
    FreeIsRuns(used, sorted, hole);
    RunsMeet(kind, FreeFrom(sorted, hole.base, hole.limit), used, hole, modulus, used);
    RunsOntoOwn(used, hole, modulus);
  }

  /** Runs onto claims taken together. */
  lemma RunsOntoEither(claims: seq<Range>, hole: Range, modulus: nat, xs: seq<Range>, ys: seq<Range>)
    requires modulus > 0
    ensures RunsOnto(claims, hole, modulus, xs + ys) <==>
            RunsOnto(claims, hole, modulus, xs) || RunsOnto(claims, hole, modulus, ys)
  {
    hide FreeRun, Covers;
    forall x: int
      ensures Covers(xs + ys, x) <==> Covers(xs, x) || Covers(ys, x)
    {
      CoversAppend(xs, ys, x);
    }
  }

  lemma SortBelowTop(sorted: seq<Range>, used: seq<Range>)
    requires IsSortOf(sorted, used) && BelowTop(used)
    ensures BelowTop(sorted)
  {
    SameElements(sorted, used);
    forall i | 0 <= i < |sorted|
      ensures sorted[i].limit < U64_MAX
    {
      assert sorted[i] in used;
    }
  }

  // ----- a whole template -----

  predicate Of(d: Desc, ports: bool) { if ports then IsPort(d) else IsMemory(d) }

  /** Some port descriptor, or some memory descriptor, of a template covers a claimed address. */
  ghost predicate MeetsBy(crs: seq<Desc>, ports: bool, claims: seq<Range>) {
    exists i, x: int :: 0 <= i < |crs| && Of(crs[i], ports) && Spans(crs[i], x) && Covers(claims, x)
  }

  lemma MeetsByAppend(xs: seq<Desc>, ys: seq<Desc>, ports: bool, claims: seq<Range>)
    ensures MeetsBy(xs + ys, ports, claims) <==> MeetsBy(xs, ports, claims) || MeetsBy(ys, ports, claims)
  {
    hide Of, Spans, Covers;
    var all := xs + ys;
    forall i, x: int | 0 <= i < |xs| && Of(xs[i], ports) && Spans(xs[i], x) && Covers(claims, x)
      ensures MeetsBy(all, ports, claims)
    {
      assert Of(all[i], ports) && Spans(all[i], x);
    }
    forall i, x: int | 0 <= i < |ys| && Of(ys[i], ports) && Spans(ys[i], x) && Covers(claims, x)
      ensures MeetsBy(all, ports, claims)
    {
      assert Of(all[|xs| + i], ports) && Spans(all[|xs| + i], x);
    }
  }

  lemma MeetsByKind(xs: seq<Desc>, ports: bool, claims: seq<Range>)
    ensures (forall i :: 0 <= i < |xs| ==> Of(xs[i], ports)) ==> (MeetsBy(xs, ports, claims) <==> Meets(xs, claims))
    ensures (forall i :: 0 <= i < |xs| ==> !Of(xs[i], ports)) ==> !MeetsBy(xs, ports, claims)
  {
    hide Of, Spans, Covers;
  }

  predicate Clear(r: Range, rs: seq<Range>) { forall k :: 0 <= k < |rs| ==> Apart(r, rs[k]) }

  /** A fixed window meets no claim exactly when it is apart from each. */
  lemma FixedMeets(d: Desc, w: Range, claims: seq<Range>)
    requires Valid(w) && AllValid(claims) && forall x: int :: Spans(d, x) <==> In(w, x)
    ensures Meets([d], claims) <==> !Clear(w, claims)
  {
    hide Spans;
    if Meets([d], claims) {
      var i, x: int :| 0 <= i < |[d]| && Spans([d][i], x) && Covers(claims, x);
      assert In(w, x);
    }
    forall k | 0 <= k < |claims| && !Apart(w, claims[k])
      ensures Meets([d], claims)
    {
      var x: int := if w.base > claims[k].base then w.base else claims[k].base;
      assert Valid(claims[k]) && In(claims[k], x) && In(w, x);
      assert Spans([d][0], x) && Covers(claims, x);
    }
  }

  lemma MeetsNothing(claims: seq<Range>)
    ensures !Meets([], claims)
  {
  }
}

/** Address ranges of aml-build.c: sorting by base, merging neighbours, and replacing the used
    ranges of an interval by the free ones. */
module Ranges {
  import opened Bytes

  /** A range with both ends included, of 64-bit addresses. */
  datatype Range = Range(base: u64, limit: u64)

  predicate In(r: Range, x: int) { r.base <= x <= r.limit }

  ghost predicate Covers(rs: seq<Range>, x: int) {
    exists i :: 0 <= i < |rs| && In(rs[i], x)
  }

  predicate Valid(r: Range) { r.base <= r.limit }

  predicate AllValid(rs: seq<Range>) { forall i :: 0 <= i < |rs| ==> Valid(rs[i]) }

  predicate SortedByBase(rs: seq<Range>) { forall i, j :: 0 <= i < j < |rs| ==> rs[i].base <= rs[j].base }

  predicate Apart(r: Range, q: Range) { r.limit < q.base || q.limit < r.base }

  /** Valid ranges no two of which share an address, in any order. */
  predicate Disjoint(rs: seq<Range>) {
    AllValid(rs) && forall i, j :: 0 <= i < j < |rs| ==> Apart(rs[i], rs[j])
  }

  /** Valid ranges, each ending before the next begins. */
  predicate Ordered(rs: seq<Range>) {
    AllValid(rs) && forall i, j :: 0 <= i < j < |rs| ==> rs[i].limit < rs[j].base
  }

  /** Ordered, with at least one address between neighbours. */
  predicate Gapped(rs: seq<Range>) {
    AllValid(rs) && forall i, j :: 0 <= i < j < |rs| ==> rs[i].limit + 1 < rs[j].base
  }

  /** `s` is `rs` in ascending order of base; ranges with equal bases may come in any order. */
  ghost predicate IsSortOf(s: seq<Range>, rs: seq<Range>) {
    SortedByBase(s) && multiset(s) == multiset(rs)
  }

  // ----- sorting -----

  lemma SameElements(s: seq<Range>, rs: seq<Range>)
    requires multiset(s) == multiset(rs)
    ensures |s| == |rs|
    ensures forall r :: r in s <==> r in rs
  {
    assert |multiset(s)| == |multiset(rs)|;
    forall r
      ensures r in s <==> r in rs
    {
      assert r in multiset(s) <==> r in multiset(rs);
    }
  }

  lemma SortCovers(s: seq<Range>, rs: seq<Range>, x: int)
    requires multiset(s) == multiset(rs)
    ensures Covers(s, x) <==> Covers(rs, x)
  {
    SameElements(s, rs);
    if Covers(s, x) {
      var i :| 0 <= i < |s| && In(s[i], x);
      assert s[i] in rs;
    }
    if Covers(rs, x) {
      var i :| 0 <= i < |rs| && In(rs[i], x);
      assert rs[i] in s;
    }
  }

  lemma SortValid(s: seq<Range>, rs: seq<Range>)
    requires multiset(s) == multiset(rs) && AllValid(rs)
    ensures AllValid(s)
  {
    SameElements(s, rs);
    forall i | 0 <= i < |s|
      ensures Valid(s[i])
    {
      assert s[i] in rs;
    }
  }

  /** Sorting disjoint ranges puts each one before the next. */
  lemma SortOrders(s: seq<Range>, rs: seq<Range>)
    requires IsSortOf(s, rs) && Disjoint(rs)
    ensures Ordered(s)
  {
    SortValid(s, rs);
    forall i, j | 0 <= i < j < |s|
      ensures s[i].limit < s[j].base
    {
      if s[i].limit >= s[j].base {
        TwoInMultiset(s, i, j, rs);
      }
    }
  }

  /** Two positions of a permutation of disjoint ranges hold ranges that are apart. */
  lemma TwoInMultiset(s: seq<Range>, i: nat, j: nat, rs: seq<Range>)
    requires i < j < |s| && multiset(s) == multiset(rs) && Disjoint(rs)
    ensures Apart(s[i], s[j])
  {
    SameElements(s, rs);
    assert s[i] in rs && s[j] in rs;
    Once(rs, s[i]);
    if s[i] == s[j] {
      Twice(s, i, j);
    }
  }

  lemma {:induction false} Once(rs: seq<Range>, r: Range)
    requires Disjoint(rs)
    ensures multiset(rs)[r] <= 1
  {
    if rs != [] {
      assert rs == [rs[0]] + rs[1..];
      assert forall m :: 1 <= m < |rs| ==> Valid(rs[0]) && Apart(rs[0], rs[m]);
      Once(rs[1..], r);
    }
  }

  lemma Twice(s: seq<Range>, i: nat, j: nat)
    requires i < j < |s| && s[i] == s[j]
    ensures multiset(s)[s[i]] >= 2
  {
    assert s == s[..i] + [s[i]] + s[i + 1..j] + [s[j]] + s[j + 1..];
  }

  /** g_ptr_array_sort with crs_range_compare. */
  method SortRanges(rs: seq<Range>) returns (s: seq<Range>)
    ensures IsSortOf(s, rs)
  {
    s := [];
    for i := 0 to |rs|
      invariant SortedByBase(s) && multiset(s) == multiset(rs[..i])
    {
      s := InsertByBase(s, rs[i]);
      assert rs[..i + 1] == rs[..i] + [rs[i]];
    }
    assert rs[..|rs|] == rs;
  }

  method InsertByBase(s: seq<Range>, r: Range) returns (s': seq<Range>)
    requires SortedByBase(s)
    ensures SortedByBase(s') && multiset(s') == multiset(s) + multiset{r}
  {
    var k := |s|;
    while k > 0 && s[k - 1].base > r.base
      invariant 0 <= k <= |s| && forall i :: k <= i < |s| ==> s[i].base > r.base
    {
      k := k - 1;
    }
    InsertSorted(s, k, r);
    s' := s[..k] + [r] + s[k..];
  }

  lemma InsertSorted(s: seq<Range>, k: nat, r: Range)
    requires k <= |s| && SortedByBase(s)
    requires k > 0 ==> s[k - 1].base <= r.base
    requires forall i :: k <= i < |s| ==> s[i].base > r.base
    ensures var s' := s[..k] + [r] + s[k..]; SortedByBase(s') && multiset(s') == multiset(s) + multiset{r}
  {
    hide SortedByBase;
    InsertMultiset(s, k, r);
    SortedAround(s[..k] + [r] + s[k..], s, k, r);
  }

  lemma InsertMultiset(s: seq<Range>, k: nat, r: Range)
    requires k <= |s|
    ensures multiset(s[..k] + [r] + s[k..]) == multiset(s) + multiset{r}
  {
    assert s == s[..k] + s[k..];
  }

  lemma SortedAround(s': seq<Range>, s: seq<Range>, k: nat, r: Range)
    requires k <= |s| && |s'| == |s| + 1 && SortedByBase(s)
    requires k > 0 ==> s[k - 1].base <= r.base
    requires forall i :: k <= i < |s| ==> s[i].base > r.base
    requires s'[k] == r
    requires forall i :: 0 <= i < k ==> s'[i] == s[i]
    requires forall i :: k < i < |s'| ==> s'[i] == s[i - 1]
    ensures SortedByBase(s')
  {
    if k > 0 {
      assert forall i :: 0 <= i < k ==> s[i].base <= s[k - 1].base;
    }
  }

  // ----- merging -----

  /** The loop of crs_range_merge: `cur` is the range being grown. */
  function MergeFrom(cur: Range, rest: seq<Range>): (r: seq<Range>)
    ensures |r| >= 1
    decreases |rest|
  {
    if rest == [] then [cur]
    else if Wrap64(rest[0].base - 1) == cur.limit then MergeFrom(Range(cur.base, rest[0].limit), rest[1..])
    else [cur] + MergeFrom(rest[0], rest[1..])
  }

  function Merged(sorted: seq<Range>): seq<Range> {
    if sorted == [] then [] else MergeFrom(sorted[0], sorted[1..])
  }

  predicate NonZeroBases(rs: seq<Range>) { forall i :: 0 <= i < |rs| ==> rs[i].base > 0 }

  lemma CoversCons(r: Range, rest: seq<Range>, x: int)
    ensures Covers([r] + rest, x) <==> In(r, x) || Covers(rest, x)
  {
    var rs := [r] + rest;
    if In(r, x) {
      assert In(rs[0], x);
    }
    if Covers(rest, x) {
      var i :| 0 <= i < |rest| && In(rest[i], x);
      assert In(rs[i + 1], x);
    }
    if Covers(rs, x) {
      var i :| 0 <= i < |rs| && In(rs[i], x);
      if i > 0 {
        assert In(rest[i - 1], x);
      }
    }
  }

  lemma {:induction false} MergeFromUnion(cur: Range, rest: seq<Range>, x: int)
    requires Valid(cur) && AllValid(rest) && NonZeroBases(rest)
    ensures Covers(MergeFrom(cur, rest), x) <==> In(cur, x) || Covers(rest, x)
    decreases |rest|
  {
    if rest == [] {
      CoversCons(cur, [], x);
      assert [cur] + [] == [cur];
    } else {
      var next := rest[0];
      assert Valid(next) && next.base > 0;
      CoversCons(next, rest[1..], x);
      assert [next] + rest[1..] == rest;
      if next.base - 1 == cur.limit {
        MergeFromUnion(Range(cur.base, next.limit), rest[1..], x);
      } else {
        MergeFromUnion(next, rest[1..], x);
        CoversCons(cur, MergeFrom(next, rest[1..]), x);
      }
    }
  }

  /** Merging keeps the union of any list of valid ranges with non-zero bases. */
  lemma MergeUnion(rs: seq<Range>, sorted: seq<Range>, x: int)
    requires IsSortOf(sorted, rs) && AllValid(rs) && NonZeroBases(rs)
    ensures Covers(Merged(sorted), x) <==> Covers(rs, x)
  {
    SortValid(sorted, rs);
    SameElements(sorted, rs);
    SortCovers(sorted, rs, x);
    forall i | 0 <= i < |sorted|
      ensures sorted[i].base > 0
    {
      assert sorted[i] in rs;
    }
    if sorted != [] {
      MergeFromUnion(sorted[0], sorted[1..], x);
      CoversCons(sorted[0], sorted[1..], x);
      assert [sorted[0]] + sorted[1..] == sorted;
    }
  }

  /** Every merged range runs from some input base to some input limit. */
  lemma {:induction false} MergeFromEnds(cur: Range, rest: seq<Range>, lo: int, hi: int)
    requires Valid(cur) && AllValid(rest) && NonZeroBases(rest)
    requires lo <= cur.base && cur.limit <= hi
    requires forall i :: 0 <= i < |rest| ==> lo <= rest[i].base && rest[i].limit <= hi
    ensures forall i :: 0 <= i < |MergeFrom(cur, rest)| ==>
              var r := MergeFrom(cur, rest)[i]; Valid(r) && lo <= r.base && r.limit <= hi
    decreases |rest|
  {
    if rest != [] {
      assert Valid(rest[0]) && rest[0].base > 0;
      if rest[0].base - 1 == cur.limit {
        MergeFromEnds(Range(cur.base, rest[0].limit), rest[1..], lo, hi);
      } else {
        MergeFromEnds(rest[0], rest[1..], lo, hi);
      }
    }
  }

  /** Merging ordered ranges leaves no two neighbours adjacent. */
  lemma {:induction false} MergeFromGaps(cur: Range, rest: seq<Range>)
    requires Ordered([cur] + rest)
    ensures Gapped(MergeFrom(cur, rest)) && MergeFrom(cur, rest)[0].base == cur.base
    decreases |rest|
  {
    var rs := [cur] + rest;
    if rest != [] {
      assert rs[0].limit < rs[1].base;
      assert rs[1..] == rest && [rest[0]] + rest[1..] == rest;
      if rest[0].base - 1 == cur.limit {
        var grown := Range(cur.base, rest[0].limit);
        forall i | 0 <= i < |rest[1..]|
          ensures grown.limit < rest[1..][i].base
        {
          assert rs[1].limit < rs[i + 2].base;
        }
        assert Valid(rs[1]);
        OrderedTail(rs);
        OrderedTail(rest);
        OrderedCons(grown, rest[1..]);
        MergeFromGaps(grown, rest[1..]);
      } else {
        OrderedTail(rs);
        MergeFromGaps(rest[0], rest[1..]);
      }
    } else {
      assert rs[0] == cur && Valid(rs[0]);
    }
  }

  lemma OrderedTail(rs: seq<Range>)
    requires Ordered(rs) && rs != []
    ensures Ordered(rs[1..])
  {
  }

  lemma OrderedCons(r: Range, rest: seq<Range>)
    requires Valid(r) && Ordered(rest) && forall i :: 0 <= i < |rest| ==> r.limit < rest[i].base
    ensures Ordered([r] + rest)
  {
  }

  /** For disjoint input the merged ranges are sorted and no two touch. */
  lemma MergeGaps(rs: seq<Range>, sorted: seq<Range>)
    requires IsSortOf(sorted, rs) && Disjoint(rs)
    ensures Gapped(Merged(sorted))
  {
    SortOrders(sorted, rs);
    if sorted != [] {
      assert [sorted[0]] + sorted[1..] == sorted;
      MergeFromGaps(sorted[0], sorted[1..]);
    }
  }

  // ----- the free ranges -----

  /** The loop of crs_replace_with_free_ranges: `freeBase` is 64 bits wide. */
  function FreeFrom(sorted: seq<Range>, freeBase: u64, end: u64): seq<Range>
    decreases |sorted|
  {
    if sorted == [] then if freeBase < end then [Range(freeBase, end)] else []
    else
      (if freeBase < sorted[0].base then [Range(freeBase, sorted[0].base - 1)] else [])
      + FreeFrom(sorted[1..], Wrap64(sorted[0].limit + 1), end)
  }

  predicate Within(rs: seq<Range>, lo: int, hi: int) {
    forall i :: 0 <= i < |rs| ==> lo <= rs[i].base && rs[i].limit <= hi
  }

  /** Where the last free range would start. */
  function LastFree(sorted: seq<Range>, start: u64): int {
    if sorted == [] then start else sorted[|sorted| - 1].limit + 1
  }

  lemma CoversAppend(xs: seq<Range>, ys: seq<Range>, x: int)
    ensures Covers(xs + ys, x) <==> Covers(xs, x) || Covers(ys, x)
  {
    ExistsAppend(xs, ys, (e: Range) => In(e, x));
  }

  lemma CoversOne(r: Range, x: int)
    ensures Covers([r], x) <==> In(r, x)
  {
    assert [r][0] == r;
  }

  /** No range reaches the last address, so `limit + 1` does not wrap. */
  predicate BelowTop(rs: seq<Range>) { forall i :: 0 <= i < |rs| ==> rs[i].limit < U64_MAX }

  /** Whatever is used inside [lo, end], even with overlaps, the ranges found free are valid and
      inside too. */
  lemma {:induction false} FreeFromInside(sorted: seq<Range>, freeBase: u64, lo: u64, end: u64)
    requires AllValid(sorted) && Within(sorted, lo, end) && BelowTop(sorted) && lo <= freeBase
    ensures AllValid(FreeFrom(sorted, freeBase, end)) && Within(FreeFrom(sorted, freeBase, end), lo, end)
    decreases |sorted|
  {
    hide Wrap64;
    if sorted != [] {
      NoWrap(sorted[0].limit + 1);
      FreeFromInside(sorted[1..], sorted[0].limit + 1, lo, end);
    }
  }

  /** What the loop finds free from `freeBase` on is what is not used, except that `end` is
      dropped when the last gap would start there. */
  lemma {:induction false} FreeFromCovers(sorted: seq<Range>, freeBase: u64, end: u64, x: int)
    requires Ordered(sorted) && Within(sorted, freeBase, end) && BelowTop(sorted)
    ensures Covers(FreeFrom(sorted, freeBase, end), x) <==>
            freeBase <= x <= end && !Covers(sorted, x) && (x == end ==> LastFree(sorted, freeBase) != end)
    decreases |sorted|
  {
    hide Wrap64, Covers, AllValid;
    if sorted == [] {
      CoversOne(Range(freeBase, end), x);
      CoversNone(x);
    } else {
      var used, rest := sorted[0], sorted[1..];
      assert [used] + rest == sorted;
      RestWithin(sorted, freeBase, end);
      NoWrap(used.limit + 1);
      CoversCons(used, rest, x);
      FreeFromCovers(rest, used.limit + 1, end, x);
      if x <= used.limit {
        NotBelow(rest, used.limit, x);
      }
      assert LastFree(sorted, freeBase) == LastFree(rest, used.limit + 1);
      GapCovers(used, FreeFrom(rest, used.limit + 1, end), freeBase, x);
    }
  }

  lemma CoversNone(x: int)
    ensures !Covers([], x)
  {
  }

  lemma GapCovers(used: Range, tail: seq<Range>, freeBase: u64, x: int)
    ensures var gaps := if freeBase < used.base then [Range(freeBase, used.base - 1)] else [];
            Covers(gaps + tail, x) <==> freeBase <= x < used.base || Covers(tail, x)
  {
    if freeBase < used.base {
      CoversCons(Range(freeBase, used.base - 1), tail, x);
    } else {
      assert [] + tail == tail;
    }
  }

  lemma NotBelow(rest: seq<Range>, limit: int, x: int)
    requires x <= limit && forall i :: 0 <= i < |rest| ==> limit < rest[i].base
    ensures !Covers(rest, x)
  {
  }

  /** Whatever the interval, a free range shares no address with a used one, unless a used range
      reaches the last address. */
  lemma {:induction false} FreeFromAvoids(sorted: seq<Range>, freeBase: u64, end: u64, x: int)
    requires Ordered(sorted) && Covers(FreeFrom(sorted, freeBase, end), x)
    ensures Covers(sorted, x) ==> !BelowTop(sorted) && x <= end
    ensures x >= freeBase || (sorted != [] && x > sorted[0].limit) || (!BelowTop(sorted) && x <= end)
    decreases |sorted|
  {
    hide Wrap64, Covers;
    if sorted == [] {
      CoversOne(Range(freeBase, end), x);
      CoversNone(x);
    } else {
      var used, rest := sorted[0], sorted[1..];
      assert [used] + rest == sorted;
      assert Valid(used);
      CoversCons(used, rest, x);
      GapCovers(used, FreeFrom(rest, Wrap64(used.limit + 1), end), freeBase, x);
      if x <= used.limit {
        NotBelow(rest, used.limit, x);
      }
      if !(freeBase <= x < used.base) {
        FreeFromAvoids(rest, Wrap64(used.limit + 1), end, x);
        AfterUsed(sorted);
        if rest == [] {
          CoversOne(Range(Wrap64(used.limit + 1), end), x);
          CoversNone(x);
        }
      }
    }
  }

  /** Valid ranges that are pairwise apart or equal: a range may have been inserted twice. */
  predicate Compatible(rs: seq<Range>) {
    AllValid(rs) && forall i, j :: 0 <= i < j < |rs| ==> Apart(rs[i], rs[j]) || rs[i] == rs[j]
  }

  /** Bases and limits both ascend. */
  predicate Staircase(rs: seq<Range>) {
    AllValid(rs) && forall i, j :: 0 <= i < j < |rs| ==> rs[i].base <= rs[j].base && rs[i].limit <= rs[j].limit
  }

  lemma SortStaircase(s: seq<Range>, rs: seq<Range>)
    requires IsSortOf(s, rs) && Compatible(rs)
    ensures Staircase(s)
  {
    SortValid(s, rs);
    SameElements(s, rs);
    forall i, j | 0 <= i < j < |s|
      ensures s[i].base <= s[j].base && s[i].limit <= s[j].limit
    {
      assert s[i] in rs && s[j] in rs && Valid(s[i]) && Valid(s[j]);
      if s[i] != s[j] {
        var k :| 0 <= k < |rs| && rs[k] == s[i];
        var m :| 0 <= m < |rs| && rs[m] == s[j];
        assert Apart(s[i], s[j]);
      }
    }
  }

  /** As FreeFromAvoids, for used ranges of which some may be repeated. */
  lemma {:induction false} FreeFromAvoidsRepeated(sorted: seq<Range>, freeBase: u64, end: u64, x: int)
    requires Staircase(sorted) && BelowTop(sorted) && Covers(FreeFrom(sorted, freeBase, end), x)
    ensures !Covers(sorted, x)
    ensures x >= freeBase || (sorted != [] && x > sorted[0].limit)
    decreases |sorted|
  {
    hide Wrap64, Covers;
    if sorted == [] {
      CoversOne(Range(freeBase, end), x);
      CoversNone(x);
    } else {
      var used, rest := sorted[0], sorted[1..];
      assert [used] + rest == sorted;
      assert Valid(used);
      NoWrap(used.limit + 1);
      CoversCons(used, rest, x);
      GapCovers(used, FreeFrom(rest, used.limit + 1, end), freeBase, x);
      if freeBase <= x < used.base {
        NotBelow(rest, used.base - 1, x);
      } else {
        FreeFromAvoidsRepeated(rest, used.limit + 1, end, x);
      }
    }
  }

  /** What comes behind the first of some ordered ranges. */
  lemma AfterUsed(sorted: seq<Range>)
    requires sorted != [] && Ordered(sorted)
    ensures sorted[0].limit < U64_MAX ==> Wrap64(sorted[0].limit + 1) == sorted[0].limit + 1
    ensures sorted[0].limit == U64_MAX ==> |sorted| == 1 && Wrap64(sorted[0].limit + 1) == 0
    ensures |sorted| > 1 ==> sorted[1..][0].limit > sorted[0].limit
    ensures BelowTop(sorted) ==> BelowTop(sorted[1..])
    ensures !BelowTop(sorted[1..]) ==> !BelowTop(sorted)
    ensures sorted[0].limit == U64_MAX ==> !BelowTop(sorted)
  {
    var last := sorted[|sorted| - 1];
    assert Valid(last);
    assert |sorted| > 1 ==> Valid(sorted[1]);
    if !BelowTop(sorted[1..]) {
      var i :| 0 <= i < |sorted[1..]| && sorted[1..][i].limit >= U64_MAX;
      assert sorted[i + 1].limit >= U64_MAX;
    }
  }

  /** The free ranges come out valid, in order, and separated by what is used. */
  lemma {:induction false} FreeFromOrdered(sorted: seq<Range>, freeBase: u64, end: u64)
    requires Ordered(sorted) && Within(sorted, freeBase, end) && BelowTop(sorted)
    ensures Gapped(FreeFrom(sorted, freeBase, end)) && Within(FreeFrom(sorted, freeBase, end), freeBase, end)
    decreases |sorted|
  {
    hide Wrap64, Gapped;
    if sorted == [] {
      assert Gapped([]) by { EmptyGapped(); }
      OneGapped(Range(freeBase, if freeBase < end then end else freeBase));
    } else {
      RestWithin(sorted, freeBase, end);
      assert Valid(sorted[0]) && sorted[0].limit < U64_MAX;
      NoWrap(sorted[0].limit + 1);
      FreeFromOrdered(sorted[1..], sorted[0].limit + 1, end);
      GapThenRest(sorted[0], FreeFrom(sorted[1..], sorted[0].limit + 1, end), freeBase, end);
    }
  }

  /** Putting the gap in front of `used`, if there is one, before free ranges behind `used`. */
  lemma GapThenRest(used: Range, tail: seq<Range>, freeBase: u64, end: u64)
    requires Valid(used) && freeBase <= used.base && used.limit <= end
    requires Gapped(tail) && Within(tail, used.limit + 1, end)
    ensures var gaps := if freeBase < used.base then [Range(freeBase, used.base - 1)] else [];
            Gapped(gaps + tail) && Within(gaps + tail, freeBase, end)
  {
    if freeBase < used.base {
      GappedCons(Range(freeBase, used.base - 1), tail, used.limit + 1, end);
    } else {
      assert [] + tail == tail;
    }
  }

  lemma EmptyGapped()
    ensures Gapped([])
  {
  }

  lemma OneGapped(r: Range)
    requires Valid(r)
    ensures Gapped([r])
  {
  }

  lemma RestWithin(sorted: seq<Range>, lo: int, hi: int)
    requires sorted != [] && Ordered(sorted) && Within(sorted, lo, hi)
    ensures Ordered(sorted[1..]) && Within(sorted[1..], sorted[0].limit + 1, hi)
    ensures Valid(sorted[0])
  {
  }

  lemma GappedCons(gap: Range, tail: seq<Range>, lo: int, hi: int)
    requires Valid(gap) && gap.limit + 1 < lo && gap.limit <= hi
    requires Gapped(tail) && Within(tail, lo, hi)
    ensures Gapped([gap] + tail) && Within([gap] + tail, gap.base, hi)
  {
    assert forall i :: 0 <= i < |tail| ==> lo <= tail[i].base;
  }

  /** `end` is free, and nothing just below it is. */
  ghost predicate LoneEnd(used: seq<Range>, start: u64, end: u64) {
    !Covers(used, end) && (start == end || Covers(used, end - 1))
  }

  lemma LoneEndIs(sorted: seq<Range>, start: u64, end: u64)
    requires start <= end && Ordered(sorted) && Within(sorted, start, end) && BelowTop(sorted)
    ensures LoneEnd(sorted, start, end) <==> LastFree(sorted, start) == end
  {
    if sorted != [] {
      var last := sorted[|sorted| - 1];
      assert Valid(last);
      LastCovers(sorted, end);
      if last.limit < end {
        LastCovers(sorted, end - 1);
      }
    }
  }

  /** From the start of the last range on, only that range covers anything. */
  lemma LastCovers(sorted: seq<Range>, x: int)
    requires sorted != [] && Ordered(sorted) && x >= sorted[|sorted| - 1].limit
    ensures Covers(sorted, x) <==> x == sorted[|sorted| - 1].limit
  {
    var n := |sorted| - 1;
    assert Valid(sorted[n]);
    if x == sorted[n].limit {
      assert In(sorted[n], x);
    }
    assert forall i :: 0 <= i < n ==> sorted[i].limit < sorted[n].base;
  }

  /** A range that reaches the last address wraps `free_base` to 0, and everything up to `end` is
      declared free. */
  lemma {:induction false} FreeFromWraps(sorted: seq<Range>, freeBase: u64, end: u64, x: int)
    requires Ordered(sorted) && !BelowTop(sorted) && end > 0 && 0 <= x <= end
    ensures Covers(FreeFrom(sorted, freeBase, end), x)
    decreases |sorted|
  {
    hide Wrap64, Covers;
    var used, rest := sorted[0], sorted[1..];
    GapCovers(used, FreeFrom(rest, Wrap64(used.limit + 1), end), freeBase, x);
    AfterUsed(sorted);
    if used.limit == U64_MAX {
      CoversOne(Range(0, end), x);
    } else {
      assert !BelowTop(rest) by {
        var i :| 0 <= i < |sorted| && sorted[i].limit >= U64_MAX;
        assert rest[i - 1] == sorted[i];
      }
      FreeFromWraps(rest, used.limit + 1, end, x);
    }
  }

  /** The free ranges share no address with the used ones if and only if no used range reaches
      the last address, or every used range lies above `end` (or `end` is 0). */
  lemma FreeAvoids(used: seq<Range>, sorted: seq<Range>, start: u64, end: u64)
    requires IsSortOf(sorted, used) && Disjoint(used)
    ensures (forall x: int :: Covers(FreeFrom(sorted, start, end), x) ==> !Covers(used, x))
            <==> BelowTop(used) || end == 0 || forall i :: 0 <= i < |used| ==> used[i].base > end
  {
    var free := FreeFrom(sorted, start, end);
    SortFacts(used, sorted, 0, 0);
    if BelowTop(used) || end == 0 || forall i :: 0 <= i < |used| ==> used[i].base > end {
      forall x: int | Covers(free, x)
        ensures !Covers(used, x)
      {
        SortCovers(sorted, used, x);
        FreeFromAvoids(sorted, start, end, x);
        if end == 0 {
          NothingAtZero(sorted, start, x);
        }
      }
    } else {
      var i :| 0 <= i < |used| && used[i].base <= end;
      assert Valid(used[i]) && In(used[i], used[i].base);
      FreeFromWraps(sorted, start, end, used[i].base);
      assert Covers(free, used[i].base);
    }
  }

  /** With `end` 0 only gaps between used ranges are free. */
  lemma {:induction false} NothingAtZero(sorted: seq<Range>, freeBase: u64, x: int)
    requires Ordered(sorted) && Covers(FreeFrom(sorted, freeBase, 0), x)
    ensures !Covers(sorted, x)
    ensures sorted != []
    ensures x >= freeBase || x > sorted[0].limit
    decreases |sorted|
  {
    hide Wrap64, Covers;
    if sorted == [] {
      CoversNone(x);
    } else {
      var used, rest := sorted[0], sorted[1..];
      assert [used] + rest == sorted;
      assert Valid(used);
      CoversCons(used, rest, x);
      GapCovers(used, FreeFrom(rest, Wrap64(used.limit + 1), 0), freeBase, x);
      AfterUsed(sorted);
      if freeBase <= x < used.base {
        NotBelow(rest, used.limit, x);
      } else {
        NothingAtZero(rest, Wrap64(used.limit + 1), x);
      }
    }
  }

  /** The free ranges of [start, end], for used ranges in any order that lie in it and are
      disjoint: sorted, disjoint, inside the interval, and equal to the complement except that a
      lone `end` is omitted. */
  lemma FreeComplement(used: seq<Range>, sorted: seq<Range>, start: u64, end: u64, x: int)
    requires start <= end && IsSortOf(sorted, used)
    requires Disjoint(used) && Within(used, start, end) && BelowTop(used)
    ensures var free := FreeFrom(sorted, start, end);
            Gapped(free) && Within(free, start, end) &&
            (Covers(free, x) <==>
             start <= x <= end && !Covers(used, x) && !(x == end && LoneEnd(used, start, end)))
  {
    SortFacts(used, sorted, start, end);
    SortCovers(sorted, used, x);
    SortCovers(sorted, used, end);
    SortCovers(sorted, used, end - 1);
    FreeFromCovers(sorted, start, end, x);
    FreeFromOrdered(sorted, start, end);
    LoneEndIs(sorted, start, end);
  }

  lemma SortFacts(used: seq<Range>, sorted: seq<Range>, start: int, end: int)
    requires IsSortOf(sorted, used) && Disjoint(used)
    ensures Ordered(sorted)
    ensures Within(used, start, end) ==> Within(sorted, start, end)
    ensures BelowTop(sorted) <==> BelowTop(used)
  {
    SortOrders(sorted, used);
    SameElements(sorted, used);
    forall i | 0 <= i < |sorted|
      ensures Within(used, start, end) ==> start <= sorted[i].base && sorted[i].limit <= end
      ensures BelowTop(used) ==> sorted[i].limit < U64_MAX
    {
      assert sorted[i] in used;
    }
    forall i | 0 <= i < |used|
      ensures BelowTop(sorted) ==> used[i].limit < U64_MAX
    {
      assert used[i] in sorted;
    }
  }

  /** The result is exactly the complement if and only if no used range reaches the last address
      and `end` is not left over alone. */
  lemma FreeExact(used: seq<Range>, sorted: seq<Range>, start: u64, end: u64)
    requires start <= end && IsSortOf(sorted, used) && Disjoint(used) && Within(used, start, end)
    ensures (forall x: int :: Covers(FreeFrom(sorted, start, end), x) <==> start <= x <= end && !Covers(used, x))
            <==> BelowTop(used) && !LoneEnd(used, start, end)
  {
    var free := FreeFrom(sorted, start, end);
    SortFacts(used, sorted, start, end);
    if BelowTop(used) {
      forall x: int
        ensures Covers(free, x) <==> start <= x <= end && !Covers(used, x) && !(x == end && LoneEnd(used, start, end))
      {
        FreeComplement(used, sorted, start, end, x);
      }
      if LoneEnd(used, start, end) {
        assert !Covers(free, end);
      }
    } else {
      var i :| 0 <= i < |used| && used[i].limit >= U64_MAX;
      assert Valid(used[i]) && end == U64_MAX && In(used[i], end);
      FreeFromWraps(sorted, start, end, end);
      assert Covers(free, end) && Covers(used, end);
    }
  }

  // ----- the arrays themselves -----

  /** A GPtrArray of ranges. */
  class RangeArray {
    var entries: seq<Range>

    constructor ()
      ensures entries == []
    {
      entries := [];
    }

    /** crs_range_insert */
    method Insert(base: u64, limit: u64)
      modifies this
      ensures entries == old(entries) + [Range(base, limit)]
    {
      entries := entries + [Range(base, limit)];
    }

    /** crs_range_merge */
    method Merge() returns (ghost sorted: seq<Range>)
      modifies this
      ensures IsSortOf(sorted, old(entries)) && entries == Merged(sorted)
    {
      hide Wrap64;
      if entries == [] {
        return [];
      }
      var range := SortRanges(entries);
      sorted := range;
      SameElements(range, entries);
      var tmp: seq<Range> := [];
      var rangeBase, rangeLimit := range[0].base, range[0].limit;
      for i := 1 to |range|
        invariant tmp + MergeFrom(Range(rangeBase, rangeLimit), range[i..]) == Merged(range)
      {
        var entry := range[i];
        assert range[i..][0] == entry && range[i..][1..] == range[i + 1..];
        if Wrap64(entry.base - 1) == rangeLimit {
          rangeLimit := entry.limit;
        } else {
          tmp := tmp + [Range(rangeBase, rangeLimit)];
          rangeBase, rangeLimit := entry.base, entry.limit;
        }
      }
      tmp := tmp + [Range(rangeBase, rangeLimit)];
      entries := tmp;
    }

    /** crs_replace_with_free_ranges */
    method ReplaceWithFreeRanges(start: u64, end: u64) returns (ghost sorted: seq<Range>)
      modifies this
      ensures IsSortOf(sorted, old(entries)) && entries == FreeFrom(sorted, start, end)
    {
      hide Wrap64, IsSortOf, FreeFrom;
      var freeRanges: seq<Range> := [];
      var freeBase: u64 := start;
      var ranges := SortRanges(entries);
      sorted := ranges;
      assert ranges[0..] == ranges;
      for i := 0 to |ranges|
        invariant freeRanges + FreeFrom(ranges[i..], freeBase, end) == FreeFrom(ranges, start, end)
      {
        var used := ranges[i];
        FreeStep(ranges, i, freeBase, end);
        if freeBase < used.base {
          freeRanges := freeRanges + [Range(freeBase, used.base - 1)];
        }
        freeBase := Wrap64(used.limit + 1);
      }
      FreeDone(freeBase, end);
      assert ranges[|ranges|..] == [];
      if freeBase < end {
        freeRanges := freeRanges + [Range(freeBase, end)];
      }
      entries := freeRanges;
    }
  }

  /** One turn of the loop of crs_replace_with_free_ranges. */
  lemma FreeStep(ranges: seq<Range>, i: nat, freeBase: u64, end: u64)
    requires i < |ranges|
    ensures FreeFrom(ranges[i..], freeBase, end) ==
            (if freeBase < ranges[i].base then [Range(freeBase, ranges[i].base - 1)] else [])
            + FreeFrom(ranges[i + 1..], Wrap64(ranges[i].limit + 1), end)
  {
    hide Wrap64;
    assert ranges[i..][0] == ranges[i] && ranges[i..][1..] == ranges[i + 1..];
  }

  lemma FreeDone(freeBase: u64, end: u64)
    ensures FreeFrom([], freeBase, end) == if freeBase < end then [Range(freeBase, end)] else []
  {
  }
}

/** The coverage step of task1.py (`calculate_coverage`). The source asks the external tool
    `bedtools coverage` for the fraction of each region's bases overlapped by at least one
    reference interval; that call is not part of this model. `CoveredBases` stands in for
    it: it clips the reference intervals of the region's chromosome to the region, sorts
    them by start and sweeps them left to right, counting each base once, and it is proved
    equal to the base-by-base count `CountCovered`. */
module Coverage {
  import opened Regions
  import opened Sorting

  /** One row of `coverage_results`. */
  datatype CoverageRow = CoverageRow(gene: string, regionType: string, regionStart: int, regionEnd: int, percent: real)

  function Max(a: int, b: int): int { if a < b then b else a }
  function Min(a: int, b: int): int { if a < b then a else b }

  /** Base `p` of chromosome `chrom` lies in at least one interval of `ivs`. */
  predicate Covers(ivs: seq<Interval>, chrom: string, p: int) {
    exists x :: x in ivs && x.chrom == chrom && x.start <= p < x.end
  }

  /** The number of bases of `[lo, hi)` on `chrom` that lie in at least one interval of
      `ivs`: overlapping intervals do not count a base twice. */
  function CountCovered(ivs: seq<Interval>, chrom: string, lo: int, hi: int): nat
    decreases hi - lo
  {
    if hi <= lo then 0 else (if Covers(ivs, chrom, lo) then 1 else 0) + CountCovered(ivs, chrom, lo + 1, hi)
  }

  lemma {:induction false} CountSplit(ivs: seq<Interval>, chrom: string, lo: int, m: int, hi: int)
    requires lo <= m <= hi
    ensures CountCovered(ivs, chrom, lo, hi) == CountCovered(ivs, chrom, lo, m) + CountCovered(ivs, chrom, m, hi)
    decreases m - lo
  {
    if lo < m {
      CountSplit(ivs, chrom, lo + 1, m, hi);
    }
  }

  /** The count depends only on which bases of the range are covered. */
  lemma {:induction false} CountSame(a: seq<Interval>, b: seq<Interval>, chrom: string, lo: int, hi: int)
    requires forall p :: lo <= p < hi ==> (Covers(a, chrom, p) <==> Covers(b, chrom, p))
    ensures CountCovered(a, chrom, lo, hi) == CountCovered(b, chrom, lo, hi)
    decreases hi - lo
  {
    if lo < hi {
      CountSame(a, b, chrom, lo + 1, hi);
    }
  }

  lemma {:induction false} CountAll(ivs: seq<Interval>, chrom: string, lo: int, hi: int)
    requires lo <= hi
    requires forall p :: lo <= p < hi ==> Covers(ivs, chrom, p)
    ensures CountCovered(ivs, chrom, lo, hi) == hi - lo
    decreases hi - lo
  {
    if lo < hi {
      CountAll(ivs, chrom, lo + 1, hi);
    }
  }

  lemma {:induction false} CountNone(ivs: seq<Interval>, chrom: string, lo: int, hi: int)
    requires forall p :: lo <= p < hi ==> !Covers(ivs, chrom, p)
    ensures CountCovered(ivs, chrom, lo, hi) == 0
    decreases hi - lo
  {
    if lo < hi {
      CountNone(ivs, chrom, lo + 1, hi);
    }
  }

  /** No more bases are covered than the range holds; all of them exactly when every base
      is covered, none exactly when no base is. */
  lemma {:induction false} CountBounds(ivs: seq<Interval>, chrom: string, lo: int, hi: int)
    requires lo <= hi
    ensures CountCovered(ivs, chrom, lo, hi) <= hi - lo
    ensures CountCovered(ivs, chrom, lo, hi) == hi - lo <==> forall p :: lo <= p < hi ==> Covers(ivs, chrom, p)
    ensures CountCovered(ivs, chrom, lo, hi) == 0 <==> forall p :: lo <= p < hi ==> !Covers(ivs, chrom, p)
    decreases hi - lo
  {
    if lo < hi {
      CountBounds(ivs, chrom, lo + 1, hi);
    }
  }

  /** The reference intervals on `chrom`, each cut down to `[lo, hi)`; those that miss the
      range are dropped. */
  function Clip(refs: seq<Interval>, chrom: string, lo: int, hi: int): (r: seq<Interval>)
    ensures forall y :: y in r ==> y.chrom == chrom && lo <= y.start < y.end <= hi
    decreases |refs|
  {
    if |refs| == 0 then []
    else
      var x := refs[0];
      var s, e := Max(x.start, lo), Min(x.end, hi);
      (if x.chrom == chrom && s < e then [Interval(chrom, s, e)] else []) + Clip(refs[1..], chrom, lo, hi)
  }

  /** Inside the range, clipping leaves the covered bases as they were. */
  lemma {:induction false} ClipCovers(refs: seq<Interval>, chrom: string, lo: int, hi: int, p: int)
    requires lo <= p < hi
    ensures Covers(Clip(refs, chrom, lo, hi), chrom, p) <==> Covers(refs, chrom, p)
    decreases |refs|
  {
    if |refs| > 0 {
      var x := refs[0];
      var s, e := Max(x.start, lo), Min(x.end, hi);
      var head: seq<Interval> := if x.chrom == chrom && s < e then [Interval(chrom, s, e)] else [];
      var rest := Clip(refs[1..], chrom, lo, hi);
      ClipCovers(refs[1..], chrom, lo, hi, p);
      assert Clip(refs, chrom, lo, hi) == head + rest;
      CoversConcat(head, rest, chrom, p);
      assert refs == [x] + refs[1..];
      CoversConcat([x], refs[1..], chrom, p);
      assert Covers(head, chrom, p) <==> Covers([x], chrom, p) by {
        if Covers([x], chrom, p) {
          assert Interval(chrom, s, e) in head;
        }
      }
    }
  }

  /** A base is covered by a concatenation exactly when either part covers it. */
  lemma CoversConcat(a: seq<Interval>, b: seq<Interval>, chrom: string, p: int)
    ensures Covers(a + b, chrom, p) <==> Covers(a, chrom, p) || Covers(b, chrom, p)
  {
    if Covers(a + b, chrom, p) {
      var y :| y in a + b && y.chrom == chrom && y.start <= p < y.end;
      assert y in a || y in b;
    }
    if Covers(a, chrom, p) {
      var y :| y in a && y.chrom == chrom && y.start <= p < y.end;
      assert y in a + b;
    }
    if Covers(b, chrom, p) {
      var y :| y in b && y.chrom == chrom && y.start <= p < y.end;
      assert y in a + b;
    }
  }

  function IvStart(x: Interval): int {
    x.start
  }

  /** Sweep over intervals sorted by start: `frontier` is the end of the merged span seen
      so far, and each interval adds only the part of it beyond the frontier. */
  function Sweep(ivs: seq<Interval>, frontier: int): int
    decreases |ivs|
  {
    if |ivs| == 0 then 0
    else
      var x := ivs[0];
      (if x.end > frontier then x.end - Max(x.start, frontier) else 0) + Sweep(ivs[1..], Max(frontier, x.end))
  }

  /** On sorted intervals of one chromosome that end by `hi`, the sweep from `frontier`
      counts exactly the covered bases of `[frontier, hi)`. */
  lemma {:induction false} SweepCounts(ivs: seq<Interval>, chrom: string, frontier: int, hi: int)
    requires SortedBy(ivs, IvStart)
    requires forall y :: y in ivs ==> y.chrom == chrom && y.start <= y.end <= hi
    requires frontier <= hi
    ensures Sweep(ivs, frontier) == CountCovered(ivs, chrom, frontier, hi)
    decreases |ivs|
  {
    if |ivs| == 0 {
      CountNone(ivs, chrom, frontier, hi);
    } else {
      var x, rest := ivs[0], ivs[1..];
      assert ivs == [x] + rest;
      assert SortedBy(rest, IvStart);
      var f' := Max(frontier, x.end);
      SweepCounts(rest, chrom, f', hi);
      CountSplit(ivs, chrom, frontier, f', hi);
      forall p | f' <= p < hi ensures Covers(ivs, chrom, p) <==> Covers(rest, chrom, p) {
        if Covers(ivs, chrom, p) {
          var y :| y in ivs && y.chrom == chrom && y.start <= p < y.end;
          assert y != x;
        }
      }
      CountSame(ivs, rest, chrom, f', hi);
      if x.end > frontier {
        var m := Max(x.start, frontier);
        CountSplit(ivs, chrom, frontier, m, f');
        assert forall p :: frontier <= p < m ==> !Covers(ivs, chrom, p);
        CountNone(ivs, chrom, frontier, m);
        forall p | m <= p < f' ensures Covers(ivs, chrom, p) {
          assert x in ivs;
        }
        CountAll(ivs, chrom, m, f');
      }
    }
  }

  /** The covered bases of `[lo, hi)` on `chrom`, by clip, sort and sweep; equal to the
      base-by-base count. */
  function CoveredBases(refs: seq<Interval>, chrom: string, lo: int, hi: int): (n: nat)
    ensures n == CountCovered(refs, chrom, lo, hi)
  {
    var clipped := Clip(refs, chrom, lo, hi);
    var sorted := SortBy(clipped, IvStart);
    UnionProof(refs, chrom, lo, hi, clipped, sorted);
    Sweep(sorted, lo)
  }

  lemma UnionProof(refs: seq<Interval>, chrom: string, lo: int, hi: int, clipped: seq<Interval>, sorted: seq<Interval>)
    requires clipped == Clip(refs, chrom, lo, hi)
    requires SortedBy(sorted, IvStart) && multiset(sorted) == multiset(clipped)
    ensures Sweep(sorted, lo) == CountCovered(refs, chrom, lo, hi)
  {
    if lo <= hi {
      SortedInside(clipped, sorted, chrom, lo, hi);
      SweepCounts(sorted, chrom, lo, hi);
      forall p | lo <= p < hi ensures Covers(sorted, chrom, p) <==> Covers(refs, chrom, p) {
        ClipCovers(refs, chrom, lo, hi, p);
        PermutationCovers(sorted, clipped, chrom, p);
      }
      CountSame(sorted, refs, chrom, lo, hi);
    } else {
      ClipEmpty(refs, chrom, lo, hi);
    }
  }

  /** A reordering of the clipped intervals still lies inside the range. */
  lemma SortedInside(clipped: seq<Interval>, sorted: seq<Interval>, chrom: string, lo: int, hi: int)
    requires forall y :: y in clipped ==> y.chrom == chrom && lo <= y.start < y.end <= hi
    requires multiset(sorted) == multiset(clipped)
    ensures forall y :: y in sorted ==> y.chrom == chrom && lo <= y.start < y.end <= hi
  {
    forall y | y in sorted ensures y.chrom == chrom && lo <= y.start < y.end <= hi {
      assert y in multiset(clipped);
    }
  }

  /** Nothing survives clipping to an inverted range. */
  lemma {:induction false} ClipEmpty(refs: seq<Interval>, chrom: string, lo: int, hi: int)
    requires hi < lo
    ensures Clip(refs, chrom, lo, hi) == []
    decreases |refs|
  {
    if |refs| > 0 {
      ClipEmpty(refs[1..], chrom, lo, hi);
    }
  }

  /** Reordering the intervals changes no base's coverage. */
  lemma PermutationCovers(a: seq<Interval>, b: seq<Interval>, chrom: string, p: int)
    requires multiset(a) == multiset(b)
    ensures Covers(a, chrom, p) <==> Covers(b, chrom, p)
  {
    if Covers(a, chrom, p) {
      var y :| y in a && y.chrom == chrom && y.start <= p < y.end;
      assert y in multiset(b);
    }
    if Covers(b, chrom, p) {
      var y :| y in b && y.chrom == chrom && y.start <= p < y.end;
      assert y in multiset(a);
    }
  }

  /** `covered[0][-1]`: the fraction of the region's bases that are covered; a region of
      length zero (or less) has fraction 0. */
  function Fraction(refs: seq<Interval>, region: Region): (f: real)
    ensures region.end <= region.start ==> f == 0.0
    ensures region.start < region.end ==>
      f * (region.end - region.start) as real == CountCovered(refs, region.chrom, region.start, region.end) as real
  {
    var len := region.end - region.start;
    if len <= 0 then 0.0 else CountCovered(refs, region.chrom, region.start, region.end) as real / len as real
  }

  /** `min(coverage_fraction, 100)` where `coverage_fraction = 0 + fraction * 100`: always
      in `[0, 100]`, and 0 for a region of length zero (or less). */
  function CoveragePercent(refs: seq<Interval>, region: Region): (pct: real)
    ensures 0.0 <= pct <= 100.0
    ensures region.end <= region.start ==> pct == 0.0
  {
    FractionInUnit(refs, region);
    var coverageFraction := 0.0 + Fraction(refs, region) * 100.0;
    if coverageFraction < 100.0 then coverageFraction else 100.0
  }

  /** The fraction lies in `[0, 1]`, however the reference intervals overlap each other
      or the region. */
  lemma FractionInUnit(refs: seq<Interval>, region: Region)
    ensures 0.0 <= Fraction(refs, region) <= 1.0
  {
    var len := region.end - region.start;
    if len > 0 {
      CountBounds(refs, region.chrom, region.start, region.end);
      FractionBounds(CountCovered(refs, region.chrom, region.start, region.end), len);
    }
  }

  lemma FractionBounds(n: nat, len: int)
    requires 0 < len && n <= len
    ensures 0.0 <= n as real / len as real <= 1.0
  {
  }

  /** The percentage is exactly 100 times the covered share of the region, so the clamp at
      100 never cuts it. */
  lemma PercentShare(refs: seq<Interval>, region: Region)
    requires region.start < region.end
    ensures CoveragePercent(refs, region)
      == CountCovered(refs, region.chrom, region.start, region.end) as real
         / (region.end - region.start) as real * 100.0
  {
    PercentOfCount(refs, region, CountCovered(refs, region.chrom, region.start, region.end),
      region.end - region.start);
  }

  /** The percentage is 100 exactly when every base of the region is covered, and 0
      exactly when none is. */
  lemma PercentExtremes(refs: seq<Interval>, region: Region)
    requires region.start < region.end
    ensures CoveragePercent(refs, region) == 100.0 <==>
      forall p :: region.start <= p < region.end ==> Covers(refs, region.chrom, p)
    ensures CoveragePercent(refs, region) == 0.0 <==>
      forall p :: region.start <= p < region.end ==> !Covers(refs, region.chrom, p)
  {
    var len := region.end - region.start;
    var n := CountCovered(refs, region.chrom, region.start, region.end);
    CountBounds(refs, region.chrom, region.start, region.end);
    PercentOfCount(refs, region, n, len);
    ScaledShare(n, len, CoveragePercent(refs, region));
  }

  lemma PercentOfCount(refs: seq<Interval>, region: Region, n: nat, len: int)
    requires region.start < region.end
    requires len == region.end - region.start && n == CountCovered(refs, region.chrom, region.start, region.end)
    ensures n <= len
    ensures CoveragePercent(refs, region) == n as real / len as real * 100.0
  {
    CountBounds(refs, region.chrom, region.start, region.end);
    var f := Fraction(refs, region);
    assert f == n as real / len as real;
    FractionBounds(n, len);
    assert 0.0 + f * 100.0 <= 100.0;
  }

  /** A percentage `n / len * 100` of a share `n <= len`, times `len`, is `100 * n`; it is
      100 exactly when `n == len` and 0 exactly when `n == 0`. */
  lemma ScaledShare(n: nat, len: int, pct: real)
    requires 0 < len && n <= len
    requires pct == n as real / len as real * 100.0
    ensures pct * len as real == 100.0 * n as real
    ensures pct == 100.0 <==> n == len
    ensures pct == 0.0 <==> n == 0
  {
    var f := n as real / len as real;
    assert f * len as real == n as real;
  }

  /** The row appended for one region. */
  function RowFor(refs: seq<Interval>, region: Region): (row: CoverageRow)
    ensures row.gene == region.gene && row.regionType == region.kind
    ensures row.regionStart == region.start && row.regionEnd == region.end
    ensures 0.0 <= row.percent <= 100.0
    ensures region.end <= region.start ==> row.percent == 0.0
  {
    CoverageRow(region.gene, region.kind, region.start, region.end, CoveragePercent(refs, region))
  }

  /** One row per region, in region order. */
  function CoverageRows(refs: seq<Interval>, regions: seq<Region>): (rows: seq<CoverageRow>)
    ensures |rows| == |regions|
    decreases |regions|
  {
    if |regions| == 0 then []
    else CoverageRows(refs, regions[..|regions| - 1]) + [RowFor(refs, regions[|regions| - 1])]
  }

  /** Row `k` is the row of region `k`. */
  lemma {:induction false} CoverageRowsAt(refs: seq<Interval>, regions: seq<Region>, k: nat)
    requires k < |regions|
    ensures CoverageRows(refs, regions)[k] == RowFor(refs, regions[k])
    decreases |regions|
  {
    var n := |regions| - 1;
    if k < n {
      CoverageRowsAt(refs, regions[..n], k);
      assert regions[..n][k] == regions[k];
    }
  }

  /** Each row copies its region's gene, type, start and end and holds its percentage, which
      lies in `[0, 100]` and is 0 for a region of length zero. */
  lemma CoverageRowsFields(refs: seq<Interval>, regions: seq<Region>, k: nat)
    requires k < |regions|
    ensures var row := CoverageRows(refs, regions)[k];
      && row.gene == regions[k].gene
      && row.regionType == regions[k].kind
      && row.regionStart == regions[k].start
      && row.regionEnd == regions[k].end
      && row.percent == CoveragePercent(refs, regions[k])
      && 0.0 <= row.percent <= 100.0
      && (regions[k].end <= regions[k].start ==> row.percent == 0.0)
  {
    CoverageRowsAt(refs, regions, k);
  }

  /** The body of the loop in `calculate_coverage`: the covered fraction of one region,
      computed by clip, sort and sweep, turned into a clamped percentage. */
  method RegionRow(refs: seq<Interval>, region: Region) returns (row: CoverageRow)
    ensures row == RowFor(refs, region)
  {
    var len := region.end - region.start;
    var fraction := 0.0;
    if len > 0 {
      var covered := CoveredBases(refs, region.chrom, region.start, region.end);
      fraction := covered as real / len as real;
    }
    var coverageFraction := 0.0;
    coverageFraction := coverageFraction + fraction * 100.0;
    var percent := if coverageFraction < 100.0 then coverageFraction else 100.0;
    row := CoverageRow(region.gene, region.kind, region.start, region.end, percent);
  }

  /** `calculate_coverage`: one pass over the regions, appending one row for each. */
  method CalculateCoverage(refs: seq<Interval>, regions: seq<Region>) returns (coverageResults: seq<CoverageRow>)
    ensures coverageResults == CoverageRows(refs, regions)
  {
    coverageResults := [];
    var i := 0;
    while i < |regions|
      invariant 0 <= i <= |regions|
      invariant coverageResults == CoverageRows(refs, regions[..i])
    {
      var row := RegionRow(refs, regions[i]);
      assert regions[..i + 1][..i] == regions[..i];
      coverageResults := coverageResults + [row];
      i := i + 1;
    }
    assert regions[..i] == regions;
  }
}

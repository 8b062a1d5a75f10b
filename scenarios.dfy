/** Worked cases: gene `G` with exons `[100,200)` and `[300,400)` on `chr1`, one reference
    interval `[150,350)`, and the gene-list argument `TP53,CDH1,GAPDH`. */
module Scenarios {
  import opened Text
  import opened Regions
  import opened Sorting
  import opened GeneList
  import opened Introns
  import opened Coverage

  function ExonA(): Region { Region("chr1", 100, 200, "exon", "G") }
  function ExonB(): Region { Region("chr1", 300, 400, "exon", "G") }
  function IntronAB(): Region { Region("chr1", 200, 300, "intron", "G") }
  function Refs(): seq<Interval> { [Interval("chr1", 150, 350)] }

  /** The only start-sorted order of the two exons is the one with `[100,200)` first. */
  lemma TwoExonOrder(s: seq<Region>)
    requires IsStartOrder([ExonA(), ExonB()], s)
    ensures s == [ExonA(), ExonB()]
  {
    var a, b := ExonA(), ExonB();
    assert |s| == 2 by {
      assert |multiset(s)| == |multiset([a, b])|;
    }
    assert multiset(s) == multiset{a, b};
    assert s == [s[0], s[1]];
    assert multiset{s[0], s[1]} == multiset{a, b};
    assert StartOf(s[0]) <= StartOf(s[1]);
  }

  /** Whatever order the sort returns, the gene yields exactly the intron `[200,300)`. */
  lemma IntronScenario(orders: seq<seq<Region>>)
    requires ValidOrders([ExonA(), ExonB()], GeneKeys([ExonA(), ExonB()]), orders)
    ensures IntronsOf(GeneKeys([ExonA(), ExonB()]), orders) == [IntronAB()]
  {
    var exons := [ExonA(), ExonB()];
    var keys := GeneKeys(exons);
    assert exons[..1] == [ExonA()] && exons[..1][..0] == [];
    assert GeneKeys(exons[..1]) == ["G"];
    assert keys == ["G"];
    assert GroupOf(exons, "G") == exons;
    TwoExonOrder(orders[0]);
    assert Gaps("G", orders[0]) == [IntronAB()];
    assert IntronsOf(keys, orders) == IntronsOf(keys[..0], orders[..0]) + Gaps("G", orders[0]);
  }

  /** Half of a region is covered when the reference starts or ends at its middle. */
  lemma HalfCovered(lo: int, mid: int, hi: int, coveredLow: bool)
    requires lo < mid < hi
    requires forall p :: lo <= p < mid ==> (Covers(Refs(), "chr1", p) <==> coveredLow)
    requires forall p :: mid <= p < hi ==> (Covers(Refs(), "chr1", p) <==> !coveredLow)
    ensures CountCovered(Refs(), "chr1", lo, hi) == if coveredLow then mid - lo else hi - mid
  {
    CountSplit(Refs(), "chr1", lo, mid, hi);
    if coveredLow {
      CountAll(Refs(), "chr1", lo, mid);
      CountNone(Refs(), "chr1", mid, hi);
    } else {
      CountNone(Refs(), "chr1", lo, mid);
      CountAll(Refs(), "chr1", mid, hi);
    }
  }

  lemma CoversRefs(p: int)
    ensures Covers(Refs(), "chr1", p) <==> 150 <= p < 350
  {
    if 150 <= p < 350 {
      assert Refs()[0] in Refs();
    }
  }

  /** Each exon is half covered and the intron is fully covered. */
  lemma CoverageScenario()
    ensures CoveragePercent(Refs(), ExonA()) == 50.0
    ensures CoveragePercent(Refs(), ExonB()) == 50.0
    ensures CoveragePercent(Refs(), IntronAB()) == 100.0
  {
    ExonAHalf();
    ExonBHalf();
    IntronFull();
  }

  lemma ExonAHalf()
    ensures CoveragePercent(Refs(), ExonA()) == 50.0
  {
    forall p ensures Covers(Refs(), "chr1", p) <==> 150 <= p < 350 {
      CoversRefs(p);
    }
    HalfCovered(100, 150, 200, false);
    PercentShare(Refs(), ExonA());
  }

  lemma ExonBHalf()
    ensures CoveragePercent(Refs(), ExonB()) == 50.0
  {
    forall p ensures Covers(Refs(), "chr1", p) <==> 150 <= p < 350 {
      CoversRefs(p);
    }
    HalfCovered(300, 350, 400, true);
    PercentShare(Refs(), ExonB());
  }

  lemma IntronFull()
    ensures CoveragePercent(Refs(), IntronAB()) == 100.0
  {
    forall p | 200 <= p < 300 ensures Covers(Refs(), "chr1", p) {
      CoversRefs(p);
    }
    CountAll(Refs(), "chr1", 200, 300);
    PercentShare(Refs(), IntronAB());
  }

  /** The comma-separated argument yields the three symbols in order. */
  lemma GeneListScenario()
    ensures ParseGeneList("TP53,CDH1,GAPDH") == ["TP53", "CDH1", "GAPDH"]
  {
    var toks := ["TP53", "CDH1", "GAPDH"];
    assert Join(toks, ',') == "TP53,CDH1,GAPDH";
    assert forall k :: 0 <= k < |toks| ==> IsToken(toks[k]);
    ParseGeneListJoin(toks);
  }
}

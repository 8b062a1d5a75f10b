/** The composition performed by `main`: parse the gene list, collect the canonical exons,
    derive the introns, and compute one coverage row per exon and then per intron. */
module Pipeline {
  import opened Wrappers
  import opened Regions
  import opened GeneList
  import opened Gff
  import opened Introns
  import opened Coverage

  /** The stage that stopped the run: a malformed annotation line, or intron derivation on
      an empty exon table. */
  datatype PipelineError = ParseFailed(parse: ParseError) | IntronsFailed(intron: IntronError)

  /** The merged table: every exon row, in exon order, followed by every intron row, in
      intron order. */
  function Report(refs: seq<Interval>, exons: seq<Region>, introns: seq<Region>): (rows: seq<CoverageRow>)
    ensures |rows| == |exons| + |introns|
  {
    CoverageRows(refs, exons) + CoverageRows(refs, introns)
  }

  /** Exon rows come first and keep the exon order; intron rows follow in intron order. */
  lemma ReportOrder(refs: seq<Interval>, exons: seq<Region>, introns: seq<Region>)
    ensures var rows := Report(refs, exons, introns);
      && (forall k :: 0 <= k < |exons| ==> rows[k] == RowFor(refs, exons[k]))
      && (forall k :: 0 <= k < |introns| ==> rows[|exons| + k] == RowFor(refs, introns[k]))
  {
    var rows := Report(refs, exons, introns);
    var head, tail := CoverageRows(refs, exons), CoverageRows(refs, introns);
    assert rows == head + tail;
    forall k | 0 <= k < |exons| ensures rows[k] == RowFor(refs, exons[k]) {
      assert rows[k] == head[k];
      CoverageRowsAt(refs, exons, k);
    }
    forall k | 0 <= k < |introns| ensures rows[|exons| + k] == RowFor(refs, introns[k]) {
      assert rows[|exons| + k] == tail[k];
      CoverageRowsAt(refs, introns, k);
    }
  }

  /** For exons parsed from `lines` and introns derived from them: a row is an exon row
      exactly when it lies in the first `|exons|` positions, every row names a listed gene,
      every intron row has positive length and every percentage lies in `[0, 100]`. */
  lemma ReportLayout(refs: seq<Interval>, lines: seq<string>, geneList: seq<string>,
                     exons: seq<Region>, orders: seq<seq<Region>>)
    requires ParseLines(lines, geneList) == Ok(exons)
    requires ValidOrders(exons, GeneKeys(exons), orders)
    ensures var rows := Report(refs, exons, IntronsOf(GeneKeys(exons), orders));
      forall k :: 0 <= k < |rows| ==>
        && (rows[k].regionType == "exon" <==> k < |exons|)
        && (rows[k].regionType == "intron" <==> |exons| <= k)
        && rows[k].gene in geneList
        && (|exons| <= k ==> rows[k].regionStart < rows[k].regionEnd)
        && 0.0 <= rows[k].percent <= 100.0
  {
    var introns := IntronsOf(GeneKeys(exons), orders);
    var rows := Report(refs, exons, introns);
    ParsedExons(lines, geneList);
    IntronsProvenance(exons, GeneKeys(exons), orders);
    ReportOrder(refs, exons, introns);
    forall k | 0 <= k < |rows|
      ensures && (rows[k].regionType == "exon" <==> k < |exons|)
              && (rows[k].regionType == "intron" <==> |exons| <= k)
              && rows[k].gene in geneList
              && (|exons| <= k ==> rows[k].regionStart < rows[k].regionEnd)
              && 0.0 <= rows[k].percent <= 100.0
    {
      if k < |exons| {
        assert exons[k] in exons;
      } else {
        var x := introns[k - |exons|];
        assert x in introns;
        assert rows[k] == RowFor(refs, x);
        var e :| e in exons && e.gene == x.gene;
      }
    }
  }

  /** What one run of `main` yields: the first malformed annotation line stops it, an
      empty exon table stops the intron stage, and otherwise the merged table is built
      from the parsed exons and the introns of some start-sorted order of each gene's
      exons. */
  ghost predicate RunsTo(geneListText: string, lines: seq<string>, refs: seq<Interval>,
                         r: Result<seq<CoverageRow>, PipelineError>, orders: seq<seq<Region>>)
  {
    var geneList := ParseGeneList(geneListText);
    match ParseLines(lines, geneList)
    case Err(e) => r == Err(ParseFailed(e))
    case Ok(exons) =>
      if |exons| == 0 then r == Err(IntronsFailed(NoGeneColumn))
      else
        && ValidOrders(exons, GeneKeys(exons), orders)
        && r == Ok(Report(refs, exons, IntronsOf(GeneKeys(exons), orders)))
  }

  /** `main`, from the gene-list argument, the annotation lines and the reference
      intervals to the merged table. The ghost `orders` are the start-sorted exon groups
      the intron stage used, one per gene. */
  method RunPipeline(geneListText: string, lines: seq<string>, refs: seq<Interval>)
    returns (r: Result<seq<CoverageRow>, PipelineError>, ghost orders: seq<seq<Region>>)
    ensures RunsTo(geneListText, lines, refs, r, orders)
    ensures var parsed := ParseLines(lines, ParseGeneList(geneListText));
      && (r.Err? <==> parsed.Err? || parsed == Ok([]))
      && (r.Ok? ==> |r.value| >= |parsed.value|)
      && (r.Ok? ==> forall k :: 0 <= k < |r.value| ==>
            r.value[k].gene in ParseGeneList(geneListText) && 0.0 <= r.value[k].percent <= 100.0)
      && (r.Ok? ==> forall k :: 0 <= k < |parsed.value| ==> r.value[k] == RowFor(refs, parsed.value[k]))
  {
    var geneList := ParseGeneList(geneListText);
    var parsed := ParseGff(lines, geneList);
    orders := [];
    if parsed.Err? {
      return Err(ParseFailed(parsed.error)), orders;
    }
    var exons := parsed.value;
    var derived;
    derived, orders := CalculateIntrons(exons);
    if derived.Err? {
      return Err(IntronsFailed(NoGeneColumn)), orders;
    }
    var introns := derived.value;
    var exonCoverage := CalculateCoverage(refs, exons);
    var intronCoverage := CalculateCoverage(refs, introns);
    r := Ok(exonCoverage + intronCoverage);
    ReportLayout(refs, lines, geneList, exons, orders);
    ReportOrder(refs, exons, introns);
  }

  /** A run fails exactly when some annotation line is malformed or no line yields an
      exon of a listed gene. */
  lemma RunOutcome(geneListText: string, lines: seq<string>, refs: seq<Interval>,
                   r: Result<seq<CoverageRow>, PipelineError>, orders: seq<seq<Region>>)
    requires RunsTo(geneListText, lines, refs, r, orders)
    ensures var geneList := ParseGeneList(geneListText);
      r.Err? <==>
        || (exists j :: 0 <= j < |lines| && InterpretLine(lines[j], geneList).Err?)
        || (forall j :: 0 <= j < |lines| ==> InterpretLine(lines[j], geneList) == Ok(None))
  {
    var geneList := ParseGeneList(geneListText);
    ParseLinesFirstError(lines, geneList);
    ParseLinesNothing(lines, geneList);
  }
}

/** The exon reader of task1.py (`parse_gff`), over lines already read from the GFF file. */
module Gff {
  import opened Wrappers
  import opened Text
  import opened Regions

  /** The exception a line raises when Python evaluates it. */
  datatype LineError =
    | MissingField   // IndexError: fewer than 3 tab fields, or an exon line with fewer than 9
    | MissingTag     // TypeError: `'canonical' in None`, an exon of a listed gene without a `tag`
    | BadCoordinate  // ValueError: `int()` of a start or end field that is not a numeral

  /** The first failing line, counted from 0, and what it raised. */
  datatype ParseError = ParseError(line: nat, cause: LineError)

  predicate IsComment(line: string) {
    |line| > 0 && line[0] == '#'
  }

  /** `line.strip().split("\t")` */
  function Fields(line: string): seq<string> {
    Split(Strip(line), '\t')
  }

  /** `item.split('=')[0]` */
  function Key(item: string): string {
    Split(item, '=')[0]
  }

  /** `item.split('=')[1]`, for an item that holds `=`. */
  function Value(item: string): string
    requires '=' in item
  {
    Split(item, '=')[1]
  }

  /** The key is the text before the first `=` and the value the text between the first
      and the second `=` (or the end of the item). */
  lemma KeyValue(item: string)
    requires '=' in item
    ensures '=' !in Key(item) && '=' !in Value(item)
    ensures var n := |Key(item)| + 1 + |Value(item)|;
      n <= |item| && item[..n] == Key(item) + "=" + Value(item) && (n == |item| || item[n] == '=')
  {
    var parts := Split(item, '=');
    var k, v := parts[0], parts[1];
    var rest := Join(parts[1..], '=');
    assert item == k + "=" + rest;
    JoinHead(parts[1..], '=');
    assert rest[..|v|] == v;
    var n := |k| + 1 + |v|;
    assert item[..n] == k + "=" + rest[..|v|];
    if |parts| > 2 {
      assert item[n] == rest[|v|];
    }
  }

  predicate Defines(item: string, k: string) {
    '=' in item && Key(item) == k
  }

  /** The dictionary comprehension over `fields[8].split(';')`: an item without `=` is
      skipped, and a later item with the same key overwrites an earlier one. */
  function AttributesOf(items: seq<string>): (attrs: map<string, string>)
    ensures forall k :: k in attrs ==> '=' !in k && '=' !in attrs[k]
    decreases |items|
  {
    if |items| == 0 then map[]
    else
      var m := AttributesOf(items[..|items| - 1]);
      var it := items[|items| - 1];
      if '=' in it then KeyValue(it); m[Key(it) := Value(it)] else m
  }

  function Attributes(field: string): map<string, string> {
    AttributesOf(Split(field, ';'))
  }

  /** A key is present exactly when some item holding `=` defines it. */
  lemma {:induction false} AttributesKeys(items: seq<string>, k: string)
    ensures k in AttributesOf(items) <==> exists j :: 0 <= j < |items| && Defines(items[j], k)
    decreases |items|
  {
    if |items| > 0 {
      var init, last := items[..|items| - 1], items[|items| - 1];
      AttributesKeys(init, k);
      assert k in AttributesOf(items) <==> k in AttributesOf(init) || Defines(last, k);
      assert (exists j :: 0 <= j < |items| && Defines(items[j], k)) <==>
        (exists j :: 0 <= j < |init| && Defines(init[j], k)) || Defines(last, k)
      by {
        assert forall j :: 0 <= j < |init| ==> init[j] == items[j];
      }
    }
  }

  /** The value of a key is the one of the last item that defines it. */
  lemma {:induction false} AttributesLastWins(items: seq<string>, k: string, j: nat)
    requires j < |items| && Defines(items[j], k)
    requires forall i :: j < i < |items| ==> !Defines(items[i], k)
    ensures k in AttributesOf(items) && AttributesOf(items)[k] == Value(items[j])
    decreases |items|
  {
    if j < |items| - 1 {
      var init := items[..|items| - 1];
      assert init[j] == items[j];
      AttributesLastWins(init, k, j);
    }
  }

  function Get(m: map<string, string>, k: string): Option<string> {
    if k in m then Some(m[k]) else None
  }

  /** Python's `a or b` where each side is a string or `None`: `a` when it is a non-empty
      string, `b` otherwise. */
  function Or(a: Option<string>, b: Option<string>): Option<string> {
    if a.Some? && a.value != "" then a else b
  }

  /** `attributes.get("gene_name") or attributes.get("Name")` */
  function GeneId(attrs: map<string, string>): (id: Option<string>)
    ensures id.Some? ==>
      || ("gene_name" in attrs && id.value == attrs["gene_name"] && id.value != "")
      || ("Name" in attrs && id.value == attrs["Name"])
    ensures id.None? ==> "Name" !in attrs
  {
    Or(Get(attrs, "gene_name"), Get(attrs, "Name"))
  }

  /** `gene_name` wins when present and non-empty; otherwise `Name` is used, and there is no
      identifier only when `Name` is missing too. */
  lemma GeneIdFallback(attrs: map<string, string>)
    ensures "gene_name" in attrs && attrs["gene_name"] != "" ==> GeneId(attrs) == Some(attrs["gene_name"])
    ensures !("gene_name" in attrs && attrs["gene_name"] != "") ==> GeneId(attrs) == Get(attrs, "Name")
    ensures GeneId(attrs).None? <==> "Name" !in attrs && ("gene_name" !in attrs || attrs["gene_name"] == "")
  {
  }

  /** The body of the `for line in file` loop: `Ok(Some(r))` appends `r` to `gene_data`,
      `Ok(None)` goes on to the next line, `Err(e)` is the exception the line raises. */
  function InterpretLine(line: string, geneList: seq<string>): (out: Result<Option<Region>, LineError>)
    ensures out.Ok? && out.value.Some? ==> out.value.value.kind == "exon" && out.value.value.gene in geneList
  {
    if IsComment(line) then Ok(None) else InterpretFields(Fields(line), geneList)
  }

  /** The loop body after the comment test, on the tab fields of the stripped line. The
      `and` in the filter short-circuits: the tag is looked up only for a listed gene. */
  function InterpretFields(fields: seq<string>, geneList: seq<string>): (out: Result<Option<Region>, LineError>)
    ensures |fields| >= 3 && fields[2] != "exon" ==> out == Ok(None)
    ensures out.Ok? && out.value.Some? ==>
      && |fields| >= 9 && out.value.value.kind == "exon" && out.value.value.gene in geneList
      && out.value.value.chrom == fields[0]
    ensures out == Err(MissingTag) ==> |fields| >= 9 && "tag" !in Attributes(fields[8])
    ensures out == Err(MissingField) <==> |fields| < 3 || (fields[2] == "exon" && |fields| < 9)
  {
    if |fields| < 3 then Err(MissingField)
    else if fields[2] != "exon" then Ok(None)
    else if |fields| < 9 then Err(MissingField)
    else
      var attrs := Attributes(fields[8]);
      var gene := GeneId(attrs);
      if !(gene.Some? && gene.value in geneList) then Ok(None)
      else if "tag" !in attrs then Err(MissingTag)
      else if !Contains(attrs["tag"], "canonical") then Ok(None)
      else ExonRecord(fields, gene.value)
  }

  /** The dictionary appended to `gene_data`; `int()` of either coordinate may raise. */
  function ExonRecord(fields: seq<string>, gene: string): (out: Result<Option<Region>, LineError>)
    requires |fields| >= 9
    ensures out.Ok? <==> ParseInt(fields[3]).Some? && ParseInt(fields[4]).Some?
    ensures out.Err? ==> out.error == BadCoordinate
    ensures out.Ok? ==>
      && out.value.Some?
      && out.value.value.chrom == fields[0]
      && out.value.value.start == ParseInt(fields[3]).value - 1
      && out.value.value.end == ParseInt(fields[4]).value
      && out.value.value.kind == fields[2] && out.value.value.gene == gene
  {
    RecordOf(fields[0], ParseInt(fields[3]), ParseInt(fields[4]), fields[2], gene)
  }

  /** The record for the parsed coordinates: the 1-based start becomes 0-based, the
      inclusive end stays as the half-open end. */
  function RecordOf(chrom: string, start: Option<int>, end: Option<int>, kind: string, gene: string): Result<Option<Region>, LineError> {
    if start.Some? && end.Some? then Ok(Some(Region(chrom, start.value - 1, end.value, kind, gene)))
    else Err(BadCoordinate)
  }

  /** Lines that yield no record: comments, lines whose type field is not `exon`, exons of
      genes outside the list, exons without any gene identifier, and listed exons whose tag
      lacks `canonical`. A listed exon with no tag at all is an error, not a skip. */
  lemma InterpretSkips(line: string, geneList: seq<string>)
    ensures IsComment(line) ==> InterpretLine(line, geneList) == Ok(None)
    ensures !IsComment(line) && |Fields(line)| >= 3 && Fields(line)[2] != "exon" ==>
      InterpretLine(line, geneList) == Ok(None)
    ensures !IsComment(line) && |Fields(line)| >= 9 && Fields(line)[2] == "exon" ==>
      var attrs := Attributes(Fields(line)[8]);
      (GeneId(attrs).None? ==> InterpretLine(line, geneList) == Ok(None)) &&
      (GeneId(attrs).Some? && GeneId(attrs).value !in geneList ==> InterpretLine(line, geneList) == Ok(None)) &&
      (GeneId(attrs).Some? && GeneId(attrs).value in geneList && "tag" !in attrs ==>
        InterpretLine(line, geneList) == Err(MissingTag)) &&
      (GeneId(attrs).Some? && GeneId(attrs).value in geneList && "tag" in attrs && !Contains(attrs["tag"], "canonical") ==>
        InterpretLine(line, geneList) == Ok(None))
  {
  }

  /** A record is emitted exactly for a non-comment exon line of a listed gene whose tag
      contains `canonical` and whose coordinates are numerals; it holds the chromosome, the
      1-based inclusive coordinates turned 0-based half-open, the type `exon` and the gene. */
  lemma InterpretEmits(line: string, geneList: seq<string>, r: Region)
    ensures InterpretLine(line, geneList) == Ok(Some(r)) <==>
      !IsComment(line) && EmitsFrom(Fields(line), geneList, r)
  {
    if !IsComment(line) {
      FieldsEmit(Fields(line), geneList, r);
    }
  }

  /** The conditions under which the fields of a line yield the record `r`. */
  predicate EmitsFrom(fields: seq<string>, geneList: seq<string>, r: Region) {
    && |fields| >= 9
    && fields[2] == "exon"
    && var attrs := Attributes(fields[8]);
    && GeneId(attrs) == Some(r.gene)
    && r.gene in geneList
    && "tag" in attrs
    && Contains(attrs["tag"], "canonical")
    && ParseInt(fields[3]) == Some(r.start + 1)
    && ParseInt(fields[4]) == Some(r.end)
    && r.chrom == fields[0]
    && r.kind == "exon"
  }

  lemma FieldsEmit(fields: seq<string>, geneList: seq<string>, r: Region)
    ensures InterpretFields(fields, geneList) == Ok(Some(r)) <==> EmitsFrom(fields, geneList, r)
  {
    if |fields| >= 9 && fields[2] == "exon" {
      var attrs := Attributes(fields[8]);
      var gene := GeneId(attrs);
      if gene.Some? && gene.value in geneList && "tag" in attrs && Contains(attrs["tag"], "canonical") {
        assert InterpretFields(fields, geneList) == ExonRecord(fields, gene.value);
        ExonRecordEmits(fields, gene.value, r);
      }
    }
  }

  /** The record built from an exon line holds its chromosome, its coordinates shifted to
      0-based half-open and its gene, and exists only when both coordinates are numerals. */
  lemma ExonRecordEmits(fields: seq<string>, gene: string, r: Region)
    requires |fields| >= 9 && fields[2] == "exon"
    ensures ExonRecord(fields, gene) == Ok(Some(r)) <==>
      && ParseInt(fields[3]) == Some(r.start + 1)
      && ParseInt(fields[4]) == Some(r.end)
      && r.chrom == fields[0] && r.kind == "exon" && r.gene == gene
  {
    RecordOfEmits(fields[0], ParseInt(fields[3]), ParseInt(fields[4]), gene, r);
  }

  lemma RecordOfEmits(chrom: string, start: Option<int>, end: Option<int>, gene: string, r: Region)
    ensures RecordOf(chrom, start, end, "exon", gene) == Ok(Some(r)) <==>
      && start == Some(r.start + 1) && end == Some(r.end)
      && r.chrom == chrom && r.kind == "exon" && r.gene == gene
  {
  }

  type Outcome = Result<Option<Region>, LineError>

  /** What each line does, in order. */
  function Outcomes(lines: seq<string>, geneList: seq<string>): (outs: seq<Outcome>)
    ensures |outs| == |lines|
    ensures forall j :: 0 <= j < |lines| ==> outs[j] == InterpretLine(lines[j], geneList)
    decreases |lines|
  {
    if |lines| == 0 then []
    else Outcomes(lines[..|lines| - 1], geneList) + [InterpretLine(lines[|lines| - 1], geneList)]
  }

  /** The loop's effect on `gene_data`: the emitted records in order, or the first
      exception, which ends the loop. */
  function Collect(outs: seq<Outcome>): (r: Result<seq<Region>, ParseError>)
    ensures r.Ok? ==> |r.value| <= |outs|
    ensures r.Ok? ==> forall x :: x in r.value ==> Ok(Some(x)) in outs
    ensures r.Err? ==> r.error.line < |outs| && outs[r.error.line] == Err(r.error.cause)
    decreases |outs|
  {
    if |outs| == 0 then Ok([])
    else
      match Collect(outs[..|outs| - 1])
      case Err(e) => Err(e)
      case Ok(recs) =>
        match outs[|outs| - 1]
        case Err(cause) => Err(ParseError(|outs| - 1, cause))
        case Ok(None) => Ok(recs)
        case Ok(Some(r)) => Ok(recs + [r])
  }

  /** The `for line in file` loop as a whole. */
  function ParseLines(lines: seq<string>, geneList: seq<string>): (r: Result<seq<Region>, ParseError>)
    ensures r.Ok? ==> |r.value| <= |lines|
    ensures r.Ok? ==> forall x :: x in r.value ==> x.kind == "exon" && x.gene in geneList
    ensures r.Err? ==> r.error.line < |lines| && InterpretLine(lines[r.error.line], geneList) == Err(r.error.cause)
  {
    var outs := Outcomes(lines, geneList);
    assert forall o :: o in outs ==> exists j :: 0 <= j < |lines| && o == InterpretLine(lines[j], geneList);
    Collect(outs)
  }

  /** `parse_gff`: one pass over the lines, appending each emitted record to `gene_data`. */
  method ParseGff(lines: seq<string>, geneList: seq<string>) returns (r: Result<seq<Region>, ParseError>)
    ensures r == ParseLines(lines, geneList)
  {
    ghost var outs := Outcomes(lines, geneList);
    var geneData: seq<Region> := [];
    var i := 0;
    while i < |lines|
      invariant 0 <= i <= |lines|
      invariant Collect(outs[..i]) == Ok(geneData)
    {
      var outcome := InterpretLine(lines[i], geneList);
      CollectStep(outs, i);
      match outcome {
        case Err(cause) =>
          CollectErrorStays(outs, i + 1);
          return Err(ParseError(i, cause));
        case Ok(None) =>
        case Ok(Some(rec)) =>
          geneData := geneData + [rec];
      }
      i := i + 1;
    }
    assert outs[..i] == outs;
    r := Ok(geneData);
  }

  lemma CollectStep(outs: seq<Outcome>, i: nat)
    requires i < |outs|
    ensures Collect(outs[..i + 1]) ==
      match Collect(outs[..i])
      case Err(e) => Err(e)
      case Ok(recs) =>
        match outs[i]
        case Err(cause) => Err(ParseError(i, cause))
        case Ok(None) => Ok(recs)
        case Ok(Some(r)) => Ok(recs + [r])
  {
    assert outs[..i + 1][..i] == outs[..i];
  }

  /** Once a prefix fails, the whole input fails with the same error. */
  lemma {:induction false} CollectErrorStays(outs: seq<Outcome>, n: nat)
    requires n <= |outs| && Collect(outs[..n]).Err?
    ensures Collect(outs) == Collect(outs[..n])
    decreases |outs| - n
  {
    if n < |outs| {
      assert outs[..n + 1][..n] == outs[..n];
      CollectErrorStays(outs, n + 1);
    } else {
      assert outs[..n] == outs;
    }
  }

  lemma {:induction false} CollectFirstError(outs: seq<Outcome>)
    ensures Collect(outs).Ok? <==> forall j :: 0 <= j < |outs| ==> outs[j].Ok?
    ensures Collect(outs).Err? ==>
      var e := Collect(outs).error;
      e.line < |outs| && outs[e.line] == Err(e.cause) && forall j :: 0 <= j < e.line ==> outs[j].Ok?
    decreases |outs|
  {
    if |outs| > 0 {
      var init := outs[..|outs| - 1];
      CollectFirstError(init);
      assert forall j :: 0 <= j < |init| ==> init[j] == outs[j];
    }
  }

  lemma {:induction false} CollectRecords(outs: seq<Outcome>)
    requires Collect(outs).Ok?
    ensures var recs := Collect(outs).value;
      && |recs| <= |outs|
      && (forall r :: r in recs ==> exists j :: 0 <= j < |outs| && outs[j] == Ok(Some(r)))
      && (forall j :: 0 <= j < |outs| && outs[j].Ok? && outs[j].value.Some? ==> outs[j].value.value in recs)
    decreases |outs|
  {
    if |outs| > 0 {
      var init := outs[..|outs| - 1];
      CollectRecords(init);
      assert forall j :: 0 <= j < |init| ==> init[j] == outs[j];
    }
  }

  /** Nothing is collected exactly when every line is skipped. */
  lemma {:induction false} CollectNothing(outs: seq<Outcome>)
    ensures Collect(outs) == Ok([]) <==> forall j :: 0 <= j < |outs| ==> outs[j] == Ok(None)
    decreases |outs|
  {
    if |outs| > 0 {
      var init := outs[..|outs| - 1];
      CollectNothing(init);
      assert forall j :: 0 <= j < |init| ==> init[j] == outs[j];
      if Collect(outs) == Ok([]) {
        match Collect(init) {
          case Ok(recs) =>
            assert outs[|outs| - 1] == Ok(None);
        }
      }
    }
  }

  lemma {:induction false} CollectAppend(a: seq<Outcome>, b: seq<Outcome>)
    requires Collect(a).Ok? && Collect(b).Ok?
    ensures Collect(a + b) == Ok(Collect(a).value + Collect(b).value)
    decreases |b|
  {
    if |b| == 0 {
      assert a + b == a;
      assert Collect(a).value + Collect(b).value == Collect(a).value;
    } else {
      var init := b[..|b| - 1];
      assert (a + b)[..|a + b| - 1] == a + init;
      assert (a + b)[|a + b| - 1] == b[|b| - 1];
      CollectFirstError(b);
      assert Collect(init).Ok?;
      CollectAppend(a, init);
      var ra, ri := Collect(a).value, Collect(init).value;
      match b[|b| - 1] {
        case Ok(None) =>
        case Ok(Some(r)) => assert ra + ri + [r] == ra + (ri + [r]);
      }
    }
  }

  /** Parsing succeeds exactly when no line raises; otherwise the error names the first
      line that raises and what it raised. */
  lemma ParseLinesFirstError(lines: seq<string>, geneList: seq<string>)
    ensures ParseLines(lines, geneList).Ok? <==> forall j :: 0 <= j < |lines| ==> InterpretLine(lines[j], geneList).Ok?
    ensures ParseLines(lines, geneList).Err? ==>
      var e := ParseLines(lines, geneList).error;
      && e.line < |lines|
      && InterpretLine(lines[e.line], geneList) == Err(e.cause)
      && forall j :: 0 <= j < e.line ==> InterpretLine(lines[j], geneList).Ok?
  {
    ParseLinesOk(lines, geneList);
    if ParseLines(lines, geneList).Err? {
      ParseLinesErr(lines, geneList);
    }
  }

  lemma ParseLinesOk(lines: seq<string>, geneList: seq<string>)
    ensures ParseLines(lines, geneList).Ok? <==> forall j :: 0 <= j < |lines| ==> InterpretLine(lines[j], geneList).Ok?
  {
    CollectFirstError(Outcomes(lines, geneList));
  }

  lemma ParseLinesErr(lines: seq<string>, geneList: seq<string>)
    requires ParseLines(lines, geneList).Err?
    ensures var e := ParseLines(lines, geneList).error;
      && e.line < |lines|
      && InterpretLine(lines[e.line], geneList) == Err(e.cause)
      && forall j :: 0 <= j < e.line ==> InterpretLine(lines[j], geneList).Ok?
  {
    CollectFirstError(Outcomes(lines, geneList));
  }

  /** Every record comes from one line that emits it, every emitting line contributes its
      record, and there are never more records than lines. */
  lemma ParseLinesRecords(lines: seq<string>, geneList: seq<string>)
    requires ParseLines(lines, geneList).Ok?
    ensures var recs := ParseLines(lines, geneList).value;
      && |recs| <= |lines|
      && (forall r :: r in recs ==> exists j :: 0 <= j < |lines| && InterpretLine(lines[j], geneList) == Ok(Some(r)))
      && (forall j, r :: 0 <= j < |lines| && InterpretLine(lines[j], geneList) == Ok(Some(r)) ==> r in recs)
  {
    var outs := Outcomes(lines, geneList);
    CollectRecords(outs);
    forall r | r in ParseLines(lines, geneList).value
      ensures exists j :: 0 <= j < |lines| && InterpretLine(lines[j], geneList) == Ok(Some(r))
    {
      var j :| 0 <= j < |outs| && outs[j] == Ok(Some(r));
    }
  }

  /** Records keep the order of their lines: parsing a concatenation of two inputs gives
      the concatenation of their records. */
  lemma ParseLinesAppend(a: seq<string>, b: seq<string>, geneList: seq<string>)
    requires ParseLines(a, geneList).Ok? && ParseLines(b, geneList).Ok?
    ensures ParseLines(a + b, geneList) == Ok(ParseLines(a, geneList).value + ParseLines(b, geneList).value)
  {
    OutcomesAppend(a, b, geneList);
    CollectAppend(Outcomes(a, geneList), Outcomes(b, geneList));
  }

  lemma {:induction false} OutcomesAppend(a: seq<string>, b: seq<string>, geneList: seq<string>)
    ensures Outcomes(a + b, geneList) == Outcomes(a, geneList) + Outcomes(b, geneList)
    decreases |b|
  {
    if |b| == 0 {
      assert a + b == a;
    } else {
      var init := b[..|b| - 1];
      assert (a + b)[..|a + b| - 1] == a + init;
      assert (a + b)[|a + b| - 1] == b[|b| - 1];
      OutcomesAppend(a, init, geneList);
    }
  }

  /** The parse yields no record exactly when every line is a comment or is skipped: no
      line raises and none is a canonical exon of a listed gene. */
  lemma ParseLinesNothing(lines: seq<string>, geneList: seq<string>)
    ensures ParseLines(lines, geneList) == Ok([])
      <==> forall j :: 0 <= j < |lines| ==> InterpretLine(lines[j], geneList) == Ok(None)
  {
    CollectNothing(Outcomes(lines, geneList));
  }

  /** Every parsed record is an exon of a listed gene. */
  lemma ParsedExons(lines: seq<string>, geneList: seq<string>)
    requires ParseLines(lines, geneList).Ok?
    ensures forall r :: r in ParseLines(lines, geneList).value ==> r.kind == "exon" && r.gene in geneList
  {
    ParseLinesRecords(lines, geneList);
    forall r | r in ParseLines(lines, geneList).value ensures r.kind == "exon" && r.gene in geneList {
      var j :| 0 <= j < |lines| && InterpretLine(lines[j], geneList) == Ok(Some(r));
      InterpretEmits(lines[j], geneList, r);
    }
  }
}

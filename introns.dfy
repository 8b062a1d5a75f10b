/** The intron deriver of task1.py (`calculate_introns`): exons are grouped by gene, each
    group is sorted by `start`, and every adjacent pair with a positive gap gives an intron. */
module Introns {
  import opened Wrappers
  import opened Text
  import opened Regions
  import opened Sorting

  /** `exons_df.groupby('gene')` raises `KeyError` when the exon table is empty: a
      DataFrame built from an empty list has no `gene` column. */
  datatype IntronError = NoGeneColumn

  function StartOf(e: Region): int {
    e.start
  }

  /** One of the orders `group.sort_values('start')` may return: a permutation of the group
      in ascending `start`. Rows with equal starts may come in any order. */
  predicate IsStartOrder(group: seq<Region>, s: seq<Region>) {
    multiset(s) == multiset(group) && SortedBy(s, StartOf)
  }

  /** The rows of one gene, in table order. */
  function GroupOf(rows: seq<Region>, g: string): (r: seq<Region>)
    ensures |r| <= |rows|
    ensures forall e :: e in r <==> e in rows && e.gene == g
    decreases |rows|
  {
    if |rows| == 0 then []
    else (if rows[0].gene == g then [rows[0]] else []) + GroupOf(rows[1..], g)
  }

  lemma {:induction false} GroupOfConcat(a: seq<Region>, b: seq<Region>, g: string)
    ensures GroupOf(a + b, g) == GroupOf(a, g) + GroupOf(b, g)
    decreases |a|
  {
    if |a| == 0 {
      assert a + b == b;
    } else {
      assert (a + b)[1..] == a[1..] + b;
      GroupOfConcat(a[1..], b, g);
    }
  }

  lemma {:induction false} GroupOfUniform(rows: seq<Region>, g: string, h: string)
    requires forall e :: e in rows ==> e.gene == h
    ensures GroupOf(rows, g) == if g == h then rows else []
    decreases |rows|
  {
    if |rows| > 0 {
      GroupOfUniform(rows[1..], g, h);
      assert rows == [rows[0]] + rows[1..];
    }
  }

  lemma {:induction false} GroupOfNone(rows: seq<Region>, g: string)
    requires forall e :: e in rows ==> e.gene != g
    ensures GroupOf(rows, g) == []
    decreases |rows|
  {
    if |rows| > 0 {
      GroupOfNone(rows[1..], g);
    }
  }

  /** Gene names in ascending order, each once. */
  predicate StrictlySorted(ks: seq<string>) {
    forall i, j :: 0 <= i < j < |ks| ==> Less(ks[i], ks[j])
  }

  function InsertKey(g: string, ks: seq<string>): seq<string>
    decreases |ks|
  {
    if |ks| == 0 then [g]
    else if g == ks[0] then ks
    else if Less(g, ks[0]) then [g] + ks
    else [ks[0]] + InsertKey(g, ks[1..])
  }

  lemma {:induction false} InsertKeySorted(g: string, ks: seq<string>)
    requires StrictlySorted(ks)
    ensures StrictlySorted(InsertKey(g, ks))
    ensures forall x :: x in InsertKey(g, ks) <==> x in ks || x == g
    decreases |ks|
  {
    if |ks| > 0 && g != ks[0] {
      if Less(g, ks[0]) {
        forall j | 0 < j < |ks| ensures Less(g, ks[j]) {
          LessTransitive(g, ks[0], ks[j]);
        }
      } else {
        var rest := ks[1..];
        assert StrictlySorted(rest);
        InsertKeySorted(g, rest);
        LessTotal(g, ks[0]);
        assert ks == [ks[0]] + rest;
        var t := InsertKey(g, rest);
        forall j | 0 <= j < |t| ensures Less(ks[0], t[j]) {
          assert t[j] in t;
          if t[j] != g {
            var m :| 0 <= m < |rest| && rest[m] == t[j];
            assert ks[m + 1] == t[j];
          }
        }
      }
    }
  }

  /** The keys `groupby` visits, in its order: the distinct gene names, ascending. */
  function GeneKeys(rows: seq<Region>): (r: seq<string>)
    ensures StrictlySorted(r)
    ensures forall g :: g in r <==> exists e :: e in rows && e.gene == g
    decreases |rows|
  {
    if |rows| == 0 then []
    else
      var init := rows[..|rows| - 1];
      var ks := GeneKeys(init);
      InsertKeySorted(rows[|rows| - 1].gene, ks);
      assert rows == init + [rows[|rows| - 1]];
      InsertKey(rows[|rows| - 1].gene, ks)
  }

  function Intron(a: Region, b: Region, gene: string): Region {
    Region(a.chrom, a.end, b.start, "intron", gene)
  }

  /** What the inner loop appends for the sorted group `s` of `gene`: for each adjacent
      pair `s[i]`, `s[i + 1]` whose gap is positive, the intron `[s[i].end, s[i + 1].start)`
      on the chromosome of `s[i]`. */
  function Gaps(gene: string, s: seq<Region>): (introns: seq<Region>)
    ensures forall x :: x in introns ==> x.kind == "intron" && x.gene == gene && x.start < x.end
    decreases |s|
  {
    if |s| < 2 then []
    else
      var a, b := s[|s| - 2], s[|s| - 1];
      Gaps(gene, s[..|s| - 1]) + (if a.end < b.start then [Intron(a, b, gene)] else [])
  }

  predicate AllGapsPositive(s: seq<Region>) {
    forall i :: 0 <= i < |s| - 1 ==> s[i].end < s[i + 1].start
  }

  /** A group of n exons gives at most n - 1 introns, exactly n - 1 when every gap is positive. */
  lemma {:induction false} GapsCount(gene: string, s: seq<Region>)
    ensures |s| <= 1 ==> Gaps(gene, s) == []
    ensures |s| >= 1 ==> |Gaps(gene, s)| <= |s| - 1
    ensures |s| >= 1 ==> (|Gaps(gene, s)| == |s| - 1 <==> AllGapsPositive(s))
    decreases |s|
  {
    if |s| >= 2 {
      var init := s[..|s| - 1];
      GapsCount(gene, init);
      assert AllGapsPositive(s) <==> AllGapsPositive(init) && s[|s| - 2].end < s[|s| - 1].start by {
        assert forall i :: 0 <= i < |init| ==> init[i] == s[i];
      }
    }
  }

  /** Each intron is the gap of one adjacent pair with a positive gap, and each such pair
      gives an intron; all carry the group's gene and the type `intron`. */
  lemma GapsShape(gene: string, s: seq<Region>)
    ensures forall x :: x in Gaps(gene, s) ==>
      x.start < x.end && x.gene == gene && x.kind == "intron" &&
      exists i :: 0 <= i < |s| - 1 && x == Intron(s[i], s[i + 1], gene)
    ensures forall i :: 0 <= i < |s| - 1 && s[i].end < s[i + 1].start ==> Intron(s[i], s[i + 1], gene) in Gaps(gene, s)
  {
    forall x | x in Gaps(gene, s) ensures exists i :: 0 <= i < |s| - 1 && x == Intron(s[i], s[i + 1], gene) {
      GapsFromPair(gene, s, x);
    }
    forall i | 0 <= i < |s| - 1 && s[i].end < s[i + 1].start ensures Intron(s[i], s[i + 1], gene) in Gaps(gene, s) {
      GapsHavePair(gene, s, i);
    }
  }

  /** An intron of the group is the gap of some adjacent pair. */
  lemma {:induction false} GapsFromPair(gene: string, s: seq<Region>, x: Region)
    requires x in Gaps(gene, s)
    ensures exists i :: 0 <= i < |s| - 1 && x == Intron(s[i], s[i + 1], gene)
    decreases |s|
  {
    var init := s[..|s| - 1];
    var a, b := s[|s| - 2], s[|s| - 1];
    assert Gaps(gene, s) == Gaps(gene, init) + (if a.end < b.start then [Intron(a, b, gene)] else []);
    if x in Gaps(gene, init) {
      GapsFromPair(gene, init, x);
      var i :| 0 <= i < |init| - 1 && x == Intron(init[i], init[i + 1], gene);
      assert init[i] == s[i] && init[i + 1] == s[i + 1];
    } else {
      assert x == Intron(a, b, gene);
    }
  }

  /** An adjacent pair with a positive gap gives its intron. */
  lemma {:induction false} GapsHavePair(gene: string, s: seq<Region>, i: nat)
    requires i < |s| - 1 && s[i].end < s[i + 1].start
    ensures Intron(s[i], s[i + 1], gene) in Gaps(gene, s)
    decreases |s|
  {
    var init := s[..|s| - 1];
    var a, b := s[|s| - 2], s[|s| - 1];
    assert Gaps(gene, s) == Gaps(gene, init) + (if a.end < b.start then [Intron(a, b, gene)] else []);
    if i < |s| - 2 {
      assert init[i] == s[i] && init[i + 1] == s[i + 1];
      GapsHavePair(gene, init, i);
    }
  }

  /** Every intron of a start-sorted group ends at or before the last exon's start. */
  lemma {:induction false} GapsEndBound(gene: string, s: seq<Region>)
    requires SortedBy(s, StartOf)
    ensures forall x :: x in Gaps(gene, s) ==> x.end <= s[|s| - 1].start
    decreases |s|
  {
    if |s| >= 2 {
      var init := s[..|s| - 1];
      assert SortedBy(init, StartOf);
      GapsEndBound(gene, init);
      assert StartOf(s[|s| - 2]) <= StartOf(s[|s| - 1]);
    }
  }

  /** Each interval ends at or before every later one starts. */
  predicate Disjoint(g: seq<Region>) {
    forall j, k :: 0 <= j < k < |g| ==> g[j].end <= g[k].start
  }

  /** When every exon has `start <= end`, the introns of a start-sorted group come out in
      ascending order and do not overlap: an earlier intron ends at or before a later one
      starts. */
  lemma {:induction false} GapsDisjoint(gene: string, s: seq<Region>)
    requires SortedBy(s, StartOf)
    requires forall k :: 0 <= k < |s| ==> s[k].start <= s[k].end
    ensures Disjoint(Gaps(gene, s))
    decreases |s|
  {
    if |s| >= 2 {
      var init := s[..|s| - 1];
      assert SortedBy(init, StartOf);
      GapsDisjoint(gene, init);
      GapsEndBound(gene, init);
      var a, b := s[|s| - 2], s[|s| - 1];
      var head := Gaps(gene, init);
      assert init[|init| - 1] == a;
      if a.end < b.start {
        var g := Gaps(gene, s);
        assert g == head + [Intron(a, b, gene)];
        forall j, k | 0 <= j < k < |g| ensures g[j].end <= g[k].start {
          if k == |g| - 1 {
            assert g[j] == head[j] && head[j] in head;
            assert g[j].end <= a.start;
            assert a.start <= a.end;
            assert g[k] == Intron(a, b, gene);
          } else {
            assert g[j] == head[j] && g[k] == head[k];
            assert head[j].end <= head[k].start;
          }
        }
      } else {
        assert Gaps(gene, s) == head + [] == head;
      }
    }
  }

  /** The introns of all groups, in the order the groups are visited. */
  function IntronsOf(keys: seq<string>, orders: seq<seq<Region>>): (introns: seq<Region>)
    requires |keys| == |orders|
    ensures forall x :: x in introns ==> x.kind == "intron" && x.gene in keys && x.start < x.end
    decreases |keys|
  {
    if |keys| == 0 then []
    else IntronsOf(keys[..|keys| - 1], orders[..|keys| - 1]) + Gaps(keys[|keys| - 1], orders[|keys| - 1])
  }

  /** Every intron in the table comes from the group of one gene. */
  lemma {:induction false} IntronsOfMember(keys: seq<string>, orders: seq<seq<Region>>, x: Region)
    requires |keys| == |orders|
    requires x in IntronsOf(keys, orders)
    ensures exists k :: 0 <= k < |keys| && x in Gaps(keys[k], orders[k])
    decreases |keys|
  {
    var n := |keys|;
    if x !in Gaps(keys[n - 1], orders[n - 1]) {
      IntronsOfMember(keys[..n - 1], orders[..n - 1], x);
      var k :| 0 <= k < n - 1 && x in Gaps(keys[..n - 1][k], orders[..n - 1][k]);
      assert keys[..n - 1][k] == keys[k] && orders[..n - 1][k] == orders[k];
    }
  }

  /** The orders used for each gene, as the loop over `groupby` sees them. */
  predicate ValidOrders(exons: seq<Region>, keys: seq<string>, orders: seq<seq<Region>>) {
    |orders| == |keys| && forall k :: 0 <= k < |keys| ==> IsStartOrder(GroupOf(exons, keys[k]), orders[k])
  }

  /** The inner loop of `calculate_introns` over `range(len(group) - 1)`. */
  method GeneIntrons(geneName: string, group: seq<Region>) returns (introns: seq<Region>)
    ensures introns == Gaps(geneName, group)
  {
    introns := [];
    var n := |group|;
    var i := 0;
    while i + 1 < n
      invariant 0 <= i && (i + 1 <= n || (n == 0 && i == 0))
      invariant introns == Gaps(geneName, group[..if n == 0 then 0 else i + 1])
    {
      assert group[..i + 2][..i + 1] == group[..i + 1];
      var intronStart := group[i].end;
      var intronEnd := group[i + 1].start;
      if intronStart < intronEnd {
        introns := introns + [Region(group[i].chrom, intronStart, intronEnd, "intron", geneName)];
      }
      i := i + 1;
    }
    assert group[..if n == 0 then 0 else i + 1] == group;
  }

  /** `calculate_introns`. The ghost `orders` records which start order of each group was
      used; any admissible order is allowed, so nothing here depends on tie order. */
  method CalculateIntrons(exons: seq<Region>) returns (r: Result<seq<Region>, IntronError>, ghost orders: seq<seq<Region>>)
    ensures r.Err? <==> |exons| == 0
    ensures r.Ok? ==> ValidOrders(exons, GeneKeys(exons), orders) && r.value == IntronsOf(GeneKeys(exons), orders)
    ensures r.Ok? ==> forall x :: x in r.value ==>
      x.kind == "intron" && x.start < x.end && x.gene in GeneKeys(exons) && FromExonsOfGene(x, exons)
  {
    orders := [];
    if |exons| == 0 {
      return Err(NoGeneColumn), orders;
    }
    var intronData;
    intronData, orders := GroupIntrons(exons, GeneKeys(exons));
    r := Ok(intronData);
  }

  /** The loop `for gene_name, group in grouped_exons`: each group sorted by start, then
      its introns appended. */
  method GroupIntrons(exons: seq<Region>, keys: seq<string>) returns (intronData: seq<Region>, ghost orders: seq<seq<Region>>)
    ensures ValidOrders(exons, keys, orders) && intronData == IntronsOf(keys, orders)
    ensures forall x :: x in intronData ==>
      x.kind == "intron" && x.start < x.end && x.gene in keys && FromExonsOfGene(x, exons)
  {
    orders := [];
    intronData := [];
    var k := 0;
    while k < |keys|
      invariant 0 <= k <= |keys| && |orders| == k
      invariant ValidOrders(exons, keys[..k], orders)
      invariant intronData == IntronsOf(keys[..k], orders)
    {
      var geneName := keys[k];
      var group := SortBy(GroupOf(exons, geneName), StartOf);
      var gaps := GeneIntrons(geneName, group);
      IntronsStep(exons, keys, orders, group);
      intronData := intronData + gaps;
      orders := orders + [group];
      k := k + 1;
    }
    assert keys[..k] == keys;
    IntronsProvenance(exons, keys, orders);
  }

  /** One turn of the loop over the groups: the next gene's order is admissible, and its
      introns are appended. */
  lemma IntronsStep(exons: seq<Region>, keys: seq<string>, orders: seq<seq<Region>>, group: seq<Region>)
    requires |orders| < |keys|
    requires ValidOrders(exons, keys[..|orders|], orders)
    requires IsStartOrder(GroupOf(exons, keys[|orders|]), group)
    ensures ValidOrders(exons, keys[..|orders| + 1], orders + [group])
    ensures IntronsOf(keys[..|orders| + 1], orders + [group])
      == IntronsOf(keys[..|orders|], orders) + Gaps(keys[|orders|], group)
  {
    var k := |orders|;
    assert keys[..k + 1][..k] == keys[..k];
    assert (orders + [group])[..k] == orders;
  }

  /** The exons an intron is built from: two exons of its own gene, the earlier on the
      intron's chromosome and ending where it starts, the later starting where it ends. */
  predicate FromExonsOfGene(x: Region, exons: seq<Region>) {
    exists a, b :: a in exons && b in exons && a.gene == x.gene && b.gene == x.gene
      && a.chrom == x.chrom && a.end == x.start && b.start == x.end
  }

  /** Every derived intron is non-empty, typed `intron`, and built from two exons of its
      own gene: introns never span two genes. */
  lemma IntronsProvenance(exons: seq<Region>, keys: seq<string>, orders: seq<seq<Region>>)
    requires ValidOrders(exons, keys, orders)
    ensures forall x :: x in IntronsOf(keys, orders) ==>
      x.kind == "intron" && x.start < x.end && x.gene in keys && FromExonsOfGene(x, exons)
  {
    forall x | x in IntronsOf(keys, orders) ensures FromExonsOfGene(x, exons) {
      IntronsOfMember(keys, orders, x);
      var k :| 0 <= k < |keys| && x in Gaps(keys[k], orders[k]);
      GapFromExons(exons, keys[k], orders[k], x);
    }
  }

  /** An intron of one gene's start-sorted group lies between two exons of that gene. */
  lemma GapFromExons(exons: seq<Region>, gene: string, s: seq<Region>, x: Region)
    requires IsStartOrder(GroupOf(exons, gene), s)
    requires x in Gaps(gene, s)
    ensures FromExonsOfGene(x, exons)
  {
    GapsShape(gene, s);
    var i :| 0 <= i < |s| - 1 && x == Intron(s[i], s[i + 1], gene);
    var a, b := s[i], s[i + 1];
    assert a in multiset(s) && b in multiset(s);
    assert a in GroupOf(exons, gene) && b in GroupOf(exons, gene);
    assert a in exons && b in exons && a.gene == x.gene && b.gene == x.gene;
  }

  predicate GenesAscending(out: seq<Region>) {
    forall i, j :: 0 <= i < j < |out| ==> out[i].gene == out[j].gene || Less(out[i].gene, out[j].gene)
  }

  /** Introns come out gene by gene, in ascending gene order. */
  lemma {:induction false} IntronsGeneOrder(keys: seq<string>, orders: seq<seq<Region>>)
    requires |keys| == |orders| && StrictlySorted(keys)
    ensures GenesAscending(IntronsOf(keys, orders))
    decreases |keys|
  {
    var n := |keys|;
    if n > 0 {
      var ks, os := keys[..n - 1], orders[..n - 1];
      IntronsGeneOrder(ks, os);
      var head, tail := IntronsOf(ks, os), Gaps(keys[n - 1], orders[n - 1]);
      var out := IntronsOf(keys, orders);
      assert out == head + tail;
      forall i, j | 0 <= i < j < |out| ensures out[i].gene == out[j].gene || Less(out[i].gene, out[j].gene) {
        if i < |head| && j >= |head| {
          assert out[i] == head[i] && out[i] in head;
          assert out[j] == tail[j - |head|] && out[j] in tail;
          var m :| 0 <= m < n - 1 && ks[m] == out[i].gene;
          assert Less(keys[m], keys[n - 1]);
        } else if i < |head| {
          assert out[i] == head[i] && out[j] == head[j];
        } else {
          assert out[i] == tail[i - |head|] && out[j] == tail[j - |head|];
          assert out[i] in tail && out[j] in tail;
        }
      }
    }
  }

  /** The introns of gene `keys[k]` in the whole table are exactly those of its group. */
  lemma {:induction false} IntronsOfGroup(keys: seq<string>, orders: seq<seq<Region>>, k: nat)
    requires |keys| == |orders| && StrictlySorted(keys) && k < |keys|
    ensures GroupOf(IntronsOf(keys, orders), keys[k]) == Gaps(keys[k], orders[k])
    decreases |keys|
  {
    var n := |keys|;
    var ks, os := keys[..n - 1], orders[..n - 1];
    var head, tail := IntronsOf(ks, os), Gaps(keys[n - 1], orders[n - 1]);
    GroupOfConcat(head, tail, keys[k]);
    GapsShape(keys[n - 1], orders[n - 1]);
    GroupOfUniform(tail, keys[k], keys[n - 1]);
    if k < n - 1 {
      LessIrreflexive(keys[k]);
      IntronsOfGroup(ks, os, k);
    } else {
      forall x | x in head ensures x.gene != keys[k] {
        IntronsOfMember(ks, os, x);
        var m :| 0 <= m < n - 1 && x in Gaps(ks[m], os[m]);
        GapsShape(ks[m], os[m]);
        assert x.gene == keys[m] && Less(keys[m], keys[k]);
        LessIrreflexive(keys[k]);
      }
      GroupOfNone(head, keys[k]);
    }
  }

  /** A gene with n exons gets at most n - 1 introns. */
  lemma IntronsPerGene(exons: seq<Region>, orders: seq<seq<Region>>, g: string)
    requires ValidOrders(exons, GeneKeys(exons), orders)
    requires g in GeneKeys(exons)
    ensures |GroupOf(IntronsOf(GeneKeys(exons), orders), g)| <= |GroupOf(exons, g)| - 1
  {
    var keys := GeneKeys(exons);
    var k :| 0 <= k < |keys| && keys[k] == g;
    IntronsOfGroup(keys, orders, k);
    assert |orders[k]| == |multiset(GroupOf(exons, g))|;
    var e :| e in exons && e.gene == g;
    assert e in GroupOf(exons, g);
    GapsCount(g, orders[k]);
  }

  /** With well-formed exons, the introns of each gene are ascending and disjoint. */
  lemma IntronsDisjointPerGene(exons: seq<Region>, orders: seq<seq<Region>>, g: string)
    requires ValidOrders(exons, GeneKeys(exons), orders)
    requires forall e :: e in exons ==> e.start <= e.end
    requires g in GeneKeys(exons)
    ensures Disjoint(GroupOf(IntronsOf(GeneKeys(exons), orders), g))
  {
    var keys := GeneKeys(exons);
    var k :| 0 <= k < |keys| && keys[k] == g;
    IntronsOfGroup(keys, orders, k);
    var s := orders[k];
    forall m | 0 <= m < |s| ensures s[m].start <= s[m].end {
      assert s[m] in multiset(GroupOf(exons, g));
    }
    GapsDisjoint(g, s);
  }
}

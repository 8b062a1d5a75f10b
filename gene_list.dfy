/** The gene list given on the command line (task1.py, `parse_gene_list`): gene symbols
    separated by commas, tabs or whitespace in any combination. */
module GeneList {
  import opened Text

  predicate IsSeparator(c: char) {
    c == ',' || IsSpace(c)
  }

  /** A gene symbol as the parser yields it: non-empty, no separator inside. */
  predicate IsToken(t: string) {
    t != "" && forall i :: 0 <= i < |t| ==> !IsSeparator(t[i])
  }

  /** The characters of `s` that are not separators, in order. */
  function Symbols(s: string): string
    decreases |s|
  {
    if |s| == 0 then "" else (if IsSeparator(s[0]) then "" else [s[0]]) + Symbols(s[1..])
  }

  /** `s.replace(',', ' ').replace('\t', ' ')` */
  function Spaced(s: string): string {
    Replace(Replace(s, ',', ' '), '\t', ' ')
  }

  /** Commas and tabs become spaces, the result is split on whitespace, each piece is
      stripped. Every symbol is a non-empty run containing no separator. */
  function ParseGeneList(s: string): (r: seq<string>)
    ensures forall k :: 0 <= k < |r| ==> IsToken(r[k])
  {
    var spaced := Spaced(s);
    var words := Words(spaced);
    WordsWellFormed(spaced, "");
    assert forall k :: 0 <= k < |words| ==> ',' !in words[k] by {
      forall k | 0 <= k < |words| ensures ',' !in words[k] {
        WordsHaveNoComma(spaced, "");
      }
    }
    StripAll(words);
    seq(|words|, k requires 0 <= k < |words| => Strip(words[k]))
  }

  /** `strip` changes none of the words that `split()` produced. */
  lemma StripAll(words: seq<string>)
    requires forall k :: 0 <= k < |words| ==> NoSpace(words[k])
    ensures forall k :: 0 <= k < |words| ==> Strip(words[k]) == words[k]
  {
    forall k | 0 <= k < |words| ensures Strip(words[k]) == words[k] {
      StripNoSpace(words[k]);
    }
  }

  /** No comma survives the first replacement, so no word holds one. */
  lemma {:induction false} WordsHaveNoComma(t: string, cur: string)
    requires ',' !in cur
    requires ',' !in t
    ensures forall k :: 0 <= k < |WordsFrom(t, cur)| ==> ',' !in WordsFrom(t, cur)[k]
    decreases |t|
  {
    if |t| > 0 {
      if IsSpace(t[0]) {
        WordsHaveNoComma(t[1..], "");
      } else {
        WordsHaveNoComma(t[1..], cur + [t[0]]);
      }
    }
  }

  /** The symbols come out in input order: concatenated, they are exactly the input's
      non-separator characters. */
  lemma ParseGeneListOrder(s: string)
    ensures Concat(ParseGeneList(s)) == Symbols(s)
  {
    var words := Words(Spaced(s));
    WordsWellFormed(Spaced(s), "");
    StripAll(words);
    assert ParseGeneList(s) == words;
    WordsConcat(Spaced(s), "");
    assert "" + NonSpace(Spaced(s)) == NonSpace(Spaced(s));
    SpacedSymbols(s);
  }

  /** After commas and tabs become spaces, whitespace marks exactly the separators. */
  lemma {:induction false} SpacedSymbols(s: string)
    ensures NonSpace(Spaced(s)) == Symbols(s)
    decreases |s|
  {
    if |s| > 0 {
      assert Spaced(s) == Spaced([s[0]]) + Spaced(s[1..]);
      assert IsSpace(Spaced(s)[0]) <==> IsSeparator(s[0]);
      assert Spaced(s)[1..] == Spaced(s[1..]);
      SpacedSymbols(s[1..]);
    }
  }

  /** Joining symbols with commas, as in `TP53,CDH1,GAPDH`, and parsing gives the symbols back. */
  lemma ParseGeneListJoin(toks: seq<string>)
    requires forall k :: 0 <= k < |toks| ==> IsToken(toks[k])
    ensures ParseGeneList(Join(toks, ',')) == toks
  {
    if |toks| == 0 {
      assert Spaced("") == "";
    } else {
      assert forall k :: 0 <= k < |toks| ==> ',' !in toks[k] && '\t' !in toks[k];
      ReplaceJoin(toks, ',', ',', ' ');
      ReplaceJoin(toks, ' ', '\t', ' ');
      assert Spaced(Join(toks, ',')) == Join(toks, ' ');
      assert forall k :: 0 <= k < |toks| ==> NoSpace(toks[k]);
      WordsJoin(toks);
      ParseSpacedWords(Join(toks, ','), toks);
    }
  }

  predicate AllSeparators(s: string) {
    forall k :: 0 <= k < |s| ==> IsSeparator(s[k])
  }

  /** The replacements act on each part of a concatenation separately. */
  lemma SpacedConcat(a: string, b: string)
    ensures Spaced(a + b) == Spaced(a) + Spaced(b)
  {
    ReplaceConcat(a, b, ',', ' ');
    ReplaceConcat(Replace(a, ',', ' '), Replace(b, ',', ' '), '\t', ' ');
  }

  /** Replacing commas and tabs leaves symbols alone and turns separators into whitespace. */
  lemma {:induction false} SpacedInterleave(toks: seq<string>, seps: seq<string>, spaced: seq<string>)
    requires |seps| == |toks| + 1 && |spaced| == |seps|
    requires forall k :: 0 <= k < |toks| ==> IsToken(toks[k])
    requires forall k :: 0 <= k < |seps| ==> spaced[k] == Spaced(seps[k])
    ensures Spaced(Interleave(toks, seps)) == Interleave(toks, spaced)
    decreases |toks|
  {
    if |toks| > 0 {
      var t := toks[0];
      SpacedInterleave(toks[1..], seps[1..], spaced[1..]);
      assert ',' !in t && '\t' !in t;
      ReplaceAbsent(t, ',', ' ');
      ReplaceAbsent(t, '\t', ' ');
      SpacedConcat(seps[0] + t, Interleave(toks[1..], seps[1..]));
      SpacedConcat(seps[0], t);
    }
  }

  /** Symbols separated by any non-empty mix of commas, tabs and whitespace, with any
      separators before the first and after the last, parse back to the same symbols. */
  lemma ParseGeneListInterleave(toks: seq<string>, seps: seq<string>)
    requires |seps| == |toks| + 1
    requires forall k :: 0 <= k < |toks| ==> IsToken(toks[k])
    requires forall k :: 0 <= k < |seps| ==> AllSeparators(seps[k])
    requires forall k :: 0 < k < |toks| ==> seps[k] != ""
    ensures ParseGeneList(Interleave(toks, seps)) == toks
  {
    var spaced := seq(|seps|, k requires 0 <= k < |seps| => Spaced(seps[k]));
    SpacedInterleave(toks, seps, spaced);
    forall k | 0 <= k < |seps| ensures AllSpace(spaced[k]) && (seps[k] != "" ==> spaced[k] != "") {
      SpacedSeparators(seps[k]);
    }
    forall k | 0 <= k < |toks| ensures toks[k] != "" && NoSpace(toks[k]) {
      assert IsToken(toks[k]);
    }
    WordsInterleave(toks, spaced);
    ParseSpacedWords(Interleave(toks, seps), toks);
  }

  /** When the spaced text splits into `toks`, those are the symbols. */
  lemma ParseSpacedWords(s: string, toks: seq<string>)
    requires Words(Spaced(s)) == toks
    ensures ParseGeneList(s) == toks
  {
    StripAll(toks);
  }

  /** A run of separators becomes a run of whitespace of the same length. */
  lemma SpacedSeparators(sep: string)
    requires AllSeparators(sep)
    ensures |Spaced(sep)| == |sep| && AllSpace(Spaced(sep))
  {
    forall i | 0 <= i < |sep| ensures IsSpace(Spaced(sep)[i]) {
      assert IsSeparator(sep[i]);
    }
  }
}

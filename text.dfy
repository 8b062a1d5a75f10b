/**
 * The few Python string operations the pipeline relies on, over `string` (a sequence
 * of Unicode scalar values): `str.isspace`, `str.strip`, `str.split(sep)`,
 * `str.split()`, `str.replace` of one character, the substring test `p in s`,
 * `int(s)` for decimal numerals, and the ordering `<` on strings.
 */
module Text {
  import opened Wrappers

  /** The characters for which Python's `str.isspace()` holds. */
  predicate IsSpace(c: char) {
    c == ' ' || ('\t' <= c <= '\r') || ('\U{1c}' <= c <= '\U{1f}') || c == '\U{85}' || c == '\U{a0}'
    || c == '\U{1680}' || ('\U{2000}' <= c <= '\U{200a}') || c == '\U{2028}' || c == '\U{2029}'
    || c == '\U{202f}' || c == '\U{205f}' || c == '\U{3000}'
  }

  predicate NoSpace(s: string) {
    forall k :: 0 <= k < |s| ==> !IsSpace(s[k])
  }

  /** Leading whitespace removed: `r` is a suffix of `s` and what was cut is all whitespace. */
  function TrimLeft(s: string): (r: string)
    ensures |r| <= |s| && r == s[|s| - |r|..]
    ensures forall k :: 0 <= k < |s| - |r| ==> IsSpace(s[k])
    ensures r == [] || !IsSpace(r[0])
  {
    if |s| > 0 && IsSpace(s[0]) then
      var r := TrimLeft(s[1..]);
      assert s[1..][|s| - 1 - |r|..] == s[|s| - |r|..];
      r
    else s
  }

  /** Trailing whitespace removed: `r` is a prefix of `s` and what was cut is all whitespace. */
  function TrimRight(s: string): (r: string)
    ensures |r| <= |s| && r == s[..|r|]
    ensures forall k :: |r| <= k < |s| ==> IsSpace(s[k])
    ensures r == [] || !IsSpace(r[|r| - 1])
  {
    if |s| > 0 && IsSpace(s[|s| - 1]) then TrimRight(s[..|s| - 1]) else s
  }

  /** Python's `s.strip()`: the result neither begins nor ends with whitespace, and a
      string without whitespace is returned unchanged. */
  function Strip(s: string): (r: string)
    ensures |r| <= |s|
    ensures r == [] || (!IsSpace(r[0]) && !IsSpace(r[|r| - 1]))
    ensures NoSpace(s) ==> r == s
  {
    TrimRight(TrimLeft(s))
  }

  /** What `strip` keeps is a slice of `s` that neither begins nor ends with whitespace,
      and everything it removes is whitespace. */
  lemma StripSlice(s: string) returns (i: nat, j: nat)
    ensures i <= j <= |s| && Strip(s) == s[i..j]
    ensures forall k :: 0 <= k < i || j <= k < |s| ==> IsSpace(s[k])
    ensures Strip(s) == [] || (!IsSpace(Strip(s)[0]) && !IsSpace(Strip(s)[|Strip(s)| - 1]))
  {
    i, j := TrimSlice(s);
  }

  /** Trimming both ends keeps the slice `s[i..j]` and removes only whitespace. */
  lemma TrimSlice(s: string) returns (i: nat, j: nat)
    ensures i <= j <= |s| && TrimRight(TrimLeft(s)) == s[i..j]
    ensures forall k :: 0 <= k < i ==> IsSpace(s[k])
    ensures forall k :: j <= k < |s| ==> IsSpace(s[k])
  {
    i := |s| - |TrimLeft(s)|;
    assert TrimLeft(s) == s[i..];
    j := TrimRightSlice(s, i);
  }

  /** Trimming the right end of the suffix `s[i..]` keeps `s[i..j]` and removes only
      whitespace. */
  lemma TrimRightSlice(s: string, i: nat) returns (j: nat)
    requires i <= |s|
    ensures i <= j <= |s| && TrimRight(s[i..]) == s[i..j]
    ensures forall k :: j <= k < |s| ==> IsSpace(s[k])
  {
    var l := s[i..];
    var r := TrimRight(l);
    j := i + |r|;
    assert r == l[..|r|];
    forall k | j <= k < |s| ensures IsSpace(s[k]) {
      assert s[k] == l[k - i];
    }
  }

  /** A string without whitespace is left unchanged by `strip`. */
  lemma StripNoSpace(s: string)
    requires NoSpace(s)
    ensures Strip(s) == s
  {
    assert TrimLeft(s) == s;
    assert TrimRight(s) == s;
  }

  /** Index of the first `c` in `s`, or `|s|` when there is none. */
  function IndexOf(s: string, c: char): (i: nat)
    ensures i <= |s|
    ensures i < |s| ==> s[i] == c
    ensures forall k :: 0 <= k < i ==> s[k] != c
  {
    if |s| == 0 then 0 else if s[0] == c then 0 else 1 + IndexOf(s[1..], c)
  }

  /** The pieces joined back with `c` between neighbours. */
  function Join(parts: seq<string>, c: char): string
    decreases |parts|
  {
    if |parts| == 0 then "" else if |parts| == 1 then parts[0] else parts[0] + [c] + Join(parts[1..], c)
  }

  /** Python's `s.split(c)` for a one-character separator: always at least one piece, no
      piece holds `c`, joining the pieces restores `s`, and there are several pieces
      exactly when `c` occurs in `s`. */
  function Split(s: string, c: char): (r: seq<string>)
    decreases |s|
    ensures |r| >= 1
    ensures forall k :: 0 <= k < |r| ==> c !in r[k]
    ensures Join(r, c) == s
    ensures (c in s) <==> |r| > 1
  {
    var i := IndexOf(s, c);
    if i == |s| then
      assert c !in s;
      [s]
    else
      var rest := Split(s[i + 1..], c);
      var r := [s[..i]] + rest;
      assert r[1..] == rest;
      assert s == s[..i] + [c] + s[i + 1..];
      r
  }

  /** Splitting a join gives back the pieces, when no piece holds the separator. */
  lemma {:induction false} SplitJoin(parts: seq<string>, c: char)
    requires |parts| >= 1
    requires forall k :: 0 <= k < |parts| ==> c !in parts[k]
    ensures Split(Join(parts, c), c) == parts
  {
    if |parts| == 1 {
      assert c !in Join(parts, c);
      assert IndexOf(parts[0], c) == |parts[0]|;
    } else {
      var s := Join(parts, c);
      var p := parts[0];
      assert s == p + [c] + Join(parts[1..], c);
      assert IndexOf(s, c) == |p| by {
        assert s[|p|] == c;
        forall k | 0 <= k < |p| ensures s[k] != c { assert s[k] == p[k]; }
        IndexOfFirst(s, c, |p|);
      }
      assert s[..|p|] == p;
      assert s[|p| + 1..] == Join(parts[1..], c);
      SplitJoin(parts[1..], c);
    }
  }

  /** The first index holding `c`, when nothing before it does, is `IndexOf`. */
  lemma {:induction false} IndexOfFirst(s: string, c: char, i: nat)
    requires i < |s| && s[i] == c
    requires forall k :: 0 <= k < i ==> s[k] != c
    ensures IndexOf(s, c) == i
  {
    if i > 0 {
      IndexOfFirst(s[1..], c, i - 1);
    }
  }

  /** `Join` begins with its first piece, followed by the separator when there are more. */
  lemma JoinHead(parts: seq<string>, c: char)
    requires |parts| >= 1
    ensures |parts[0]| <= |Join(parts, c)| && Join(parts, c)[..|parts[0]|] == parts[0]
    ensures |parts| > 1 ==> |parts[0]| < |Join(parts, c)| && Join(parts, c)[|parts[0]|] == c
  {
    if |parts| > 1 {
      assert Join(parts, c) == parts[0] + [c] + Join(parts[1..], c);
    }
  }

  /** Python's `s.replace(a, b)` for one-character strings. */
  function Replace(s: string, a: char, b: char): (r: string)
    ensures |r| == |s|
    ensures forall k :: 0 <= k < |s| ==> r[k] == (if s[k] == a then b else s[k])
  {
    seq(|s|, k requires 0 <= k < |s| => if s[k] == a then b else s[k])
  }

  /** Replacing a character that no piece holds touches only the separators of a join:
      the separator `a` itself becomes `b`, any other separator stays. */
  lemma {:induction false} ReplaceJoin(parts: seq<string>, c: char, a: char, b: char)
    requires forall k :: 0 <= k < |parts| ==> a !in parts[k]
    ensures Replace(Join(parts, c), a, b) == Join(parts, if c == a then b else c)
    decreases |parts|
  {
    var c' := if c == a then b else c;
    if |parts| == 1 {
      ReplaceAbsent(parts[0], a, b);
    } else if |parts| > 1 {
      var p := parts[0];
      var t := Join(parts[1..], c);
      ReplaceJoin(parts[1..], c, a, b);
      ReplaceAbsent(p, a, b);
      ReplaceConcat(p + [c], t, a, b);
      ReplaceConcat(p, [c], a, b);
      assert Replace([c], a, b) == [c'];
    }
  }

  lemma ReplaceAbsent(s: string, a: char, b: char)
    requires a !in s
    ensures Replace(s, a, b) == s
  {
    assert forall k :: 0 <= k < |s| ==> s[k] != a;
  }

  lemma ReplaceConcat(s: string, t: string, a: char, b: char)
    ensures Replace(s + t, a, b) == Replace(s, a, b) + Replace(t, a, b)
  {
  }

  /** Python's `s.split()` with no argument: the maximal runs of non-whitespace, in order.
      `cur` is the token being gathered. */
  function WordsFrom(s: string, cur: string): (r: seq<string>)
    decreases |s|
  {
    if |s| == 0 then
      (if cur == "" then [] else [cur])
    else if IsSpace(s[0]) then
      (if cur == "" then [] else [cur]) + WordsFrom(s[1..], "")
    else
      WordsFrom(s[1..], cur + [s[0]])
  }

  /** Every word is a non-empty run without whitespace, and the words, concatenated, are the
      non-whitespace characters of `s` in order. */
  function Words(s: string): (r: seq<string>)
    ensures forall k :: 0 <= k < |r| ==> r[k] != "" && NoSpace(r[k])
    ensures Concat(r) == NonSpace(s)
  {
    WordsWellFormed(s, "");
    WordsConcat(s, "");
    assert "" + NonSpace(s) == NonSpace(s);
    WordsFrom(s, "")
  }

  /** The characters of `s` that are not whitespace, in order. */
  function NonSpace(s: string): (r: string)
    decreases |s|
  {
    if |s| == 0 then "" else (if IsSpace(s[0]) then "" else [s[0]]) + NonSpace(s[1..])
  }

  function Concat(ss: seq<string>): string
    decreases |ss|
  {
    if |ss| == 0 then "" else ss[0] + Concat(ss[1..])
  }

  lemma ConcatPrepend(t: string, ss: seq<string>)
    ensures Concat([t] + ss) == t + Concat(ss)
  {
    assert ([t] + ss)[1..] == ss;
  }

  /** Every word is non-empty and holds no whitespace. */
  lemma {:induction false} WordsWellFormed(s: string, cur: string)
    requires NoSpace(cur)
    ensures forall k :: 0 <= k < |WordsFrom(s, cur)| ==> WordsFrom(s, cur)[k] != "" && NoSpace(WordsFrom(s, cur)[k])
    decreases |s|
  {
    if |s| > 0 {
      if IsSpace(s[0]) {
        WordsWellFormed(s[1..], "");
      } else {
        WordsWellFormed(s[1..], cur + [s[0]]);
      }
    }
  }

  /** The words, concatenated, are the non-whitespace characters of the input in order:
      nothing is lost, added or reordered. */
  lemma {:induction false} WordsConcat(s: string, cur: string)
    ensures Concat(WordsFrom(s, cur)) == cur + NonSpace(s)
    decreases |s|
  {
    if |s| == 0 {
      if cur != "" { ConcatPrepend(cur, []); }
    } else if IsSpace(s[0]) {
      WordsConcat(s[1..], "");
      assert NonSpace(s) == NonSpace(s[1..]);
      if cur != "" { ConcatPrepend(cur, WordsFrom(s[1..], "")); }
      else { assert WordsFrom(s, cur) == WordsFrom(s[1..], ""); }
    } else {
      WordsConcat(s[1..], cur + [s[0]]);
      assert NonSpace(s) == [s[0]] + NonSpace(s[1..]);
    }
  }

  /** Gathering a run of non-whitespace just extends the current token. */
  lemma {:induction false} WordsFromRun(t: string, rest: string, cur: string)
    requires NoSpace(t)
    ensures WordsFrom(t + rest, cur) == WordsFrom(rest, cur + t)
    decreases |t|
  {
    if |t| == 0 {
      assert t + rest == rest;
      assert cur + t == cur;
    } else {
      assert (t + rest)[1..] == t[1..] + rest;
      assert cur + [t[0]] + t[1..] == cur + t;
      WordsFromRun(t[1..], rest, cur + [t[0]]);
    }
  }

  /** Splitting words joined by single spaces gives the words back. */
  lemma {:induction false} WordsJoin(toks: seq<string>)
    requires |toks| >= 1
    requires forall k :: 0 <= k < |toks| ==> toks[k] != "" && NoSpace(toks[k])
    ensures Words(Join(toks, ' ')) == toks
    decreases |toks|
  {
    var t := toks[0];
    if |toks| == 1 {
      WordsFromRun(t, "", "");
      assert t + "" == t && "" + t == t;
      assert Join(toks, ' ') == t;
    } else {
      var rest := Join(toks[1..], ' ');
      assert Join(toks, ' ') == t + ([' '] + rest);
      WordsFromRun(t, [' '] + rest, "");
      assert ([' '] + rest)[1..] == rest;
      assert "" + t == t;
      assert WordsFrom([' '] + rest, t) == [t] + WordsFrom(rest, "");
      WordsJoin(toks[1..]);
      assert toks == [t] + toks[1..];
    }
  }

  predicate AllSpace(s: string) {
    forall k :: 0 <= k < |s| ==> IsSpace(s[k])
  }

  /** `seps[0] + toks[0] + seps[1] + ... + toks[n - 1] + seps[n]`. */
  function Interleave(toks: seq<string>, seps: seq<string>): string
    requires |seps| == |toks| + 1
    decreases |toks|
  {
    if |toks| == 0 then seps[0] else seps[0] + toks[0] + Interleave(toks[1..], seps[1..])
  }

  /** A non-empty run of whitespace ends the current word and is otherwise skipped. */
  lemma {:induction false} WordsFromSpaces(sp: string, rest: string, cur: string)
    requires |sp| > 0 && AllSpace(sp)
    ensures WordsFrom(sp + rest, cur) == (if cur == "" then [] else [cur]) + WordsFrom(rest, "")
    decreases |sp|
  {
    assert (sp + rest)[1..] == sp[1..] + rest;
    if |sp| > 1 {
      WordsFromSpaces(sp[1..], rest, "");
    } else {
      assert sp[1..] + rest == rest;
    }
  }

  /** Words separated by whitespace runs of any length, with any whitespace before the first
      and after the last, split back to the same words. */
  lemma {:induction false} WordsInterleave(toks: seq<string>, seps: seq<string>)
    requires |seps| == |toks| + 1
    requires forall k :: 0 <= k < |toks| ==> toks[k] != "" && NoSpace(toks[k])
    requires forall k :: 0 <= k < |seps| ==> AllSpace(seps[k])
    requires forall k :: 0 < k < |toks| ==> seps[k] != ""
    ensures Words(Interleave(toks, seps)) == toks
    decreases |toks|
  {
    if |toks| == 0 {
      if seps[0] != "" {
        WordsFromSpaces(seps[0], "", "");
        assert seps[0] + "" == seps[0];
      }
    } else {
      var t, r := toks[0], Interleave(toks[1..], seps[1..]);
      assert Interleave(toks, seps) == seps[0] + (t + r);
      if seps[0] != "" {
        WordsFromSpaces(seps[0], t + r, "");
      } else {
        assert seps[0] + (t + r) == t + r;
      }
      WordsFromRun(t, r, "");
      assert "" + t == t;
      WordsInterleave(toks[1..], seps[1..]);
      WordsAfterWord(toks[1..], seps[1..], t);
      assert toks == [t] + toks[1..];
    }
  }

  /** After a word, text that opens with a whitespace run (or is empty) ends that word. */
  lemma WordsAfterWord(toks: seq<string>, seps: seq<string>, cur: string)
    requires |seps| == |toks| + 1 && AllSpace(seps[0])
    requires |toks| > 0 ==> seps[0] != ""
    ensures WordsFrom(Interleave(toks, seps), cur) == (if cur == "" then [] else [cur]) + WordsFrom(Interleave(toks, seps), "")
  {
    if |toks| == 0 {
      if seps[0] != "" {
        WordsFromSpaces(seps[0], "", cur);
        WordsFromSpaces(seps[0], "", "");
        assert seps[0] + "" == seps[0];
      }
    } else {
      var y := toks[0] + Interleave(toks[1..], seps[1..]);
      assert Interleave(toks, seps) == seps[0] + y;
      WordsFromSpaces(seps[0], y, cur);
      WordsFromSpaces(seps[0], y, "");
    }
  }

  /** Python's substring test `p in s`. */
  predicate Contains(s: string, p: string)
    decreases |s|
  {
    (|p| <= |s| && s[..|p|] == p) || (|s| > 0 && Contains(s[1..], p))
  }

  predicate OccursAt(s: string, p: string, i: int) {
    0 <= i <= |s| - |p| && s[i..i + |p|] == p
  }

  /** `Contains` holds exactly when `p` occurs at some position of `s`. */
  lemma ContainsAt(s: string, p: string)
    ensures Contains(s, p) <==> exists i :: OccursAt(s, p, i)
  {
    if Contains(s, p) {
      var i := ContainsOccurs(s, p);
    }
    if i :| OccursAt(s, p, i) {
      OccursContains(s, p, i);
    }
  }

  /** A successful substring test has a position where `p` occurs. */
  lemma {:induction false} ContainsOccurs(s: string, p: string) returns (i: int)
    requires Contains(s, p)
    ensures OccursAt(s, p, i)
    decreases |s|
  {
    if |p| <= |s| && s[..|p|] == p {
      i := 0;
    } else {
      var j := ContainsOccurs(s[1..], p);
      assert s[j + 1..j + 1 + |p|] == s[1..][j..j + |p|];
      i := j + 1;
    }
  }

  /** An occurrence of `p` makes the substring test succeed. */
  lemma {:induction false} OccursContains(s: string, p: string, i: int)
    requires OccursAt(s, p, i)
    ensures Contains(s, p)
    decreases |s|
  {
    if i > 0 {
      assert s[1..][i - 1..i - 1 + |p|] == s[i..i + |p|];
      OccursContains(s[1..], p, i - 1);
    }
  }

  /** Python's `a < b` on strings: the first differing character decides, and a proper
      prefix comes first. */
  predicate Less(a: string, b: string)
    decreases |a|
  {
    |b| > 0 && (|a| == 0 || a[0] < b[0] || (a[0] == b[0] && Less(a[1..], b[1..])))
  }

  lemma {:induction false} LessIrreflexive(a: string)
    ensures !Less(a, a)
    decreases |a|
  {
    if |a| > 0 { LessIrreflexive(a[1..]); }
  }

  lemma {:induction false} LessTransitive(a: string, b: string, c: string)
    requires Less(a, b) && Less(b, c)
    ensures Less(a, c)
    decreases |a|
  {
    if |a| > 0 && a[0] == b[0] && b[0] == c[0] {
      LessTransitive(a[1..], b[1..], c[1..]);
    }
  }

  lemma {:induction false} LessTotal(a: string, b: string)
    requires a != b
    ensures Less(a, b) || Less(b, a)
    decreases |a|
  {
    if |a| > 0 && |b| > 0 && a[0] == b[0] {
      assert a == [a[0]] + a[1..] && b == [b[0]] + b[1..];
      LessTotal(a[1..], b[1..]);
    }
  }

  predicate IsDigit(c: char) {
    '0' <= c <= '9'
  }

  predicate IsDigits(d: string) {
    |d| > 0 && forall k :: 0 <= k < |d| ==> IsDigit(d[k])
  }

  function DigitValue(c: char): nat
    requires IsDigit(c)
  {
    c as int - '0' as int
  }

  /** The value of a run of decimal digits, most significant first. */
  function DigitsValue(d: string): nat
    requires forall k :: 0 <= k < |d| ==> IsDigit(d[k])
    decreases |d|
  {
    if |d| == 0 then 0 else 10 * DigitsValue(d[..|d| - 1]) + DigitValue(d[|d| - 1])
  }

  /** Python's `int(s)` on a decimal numeral: surrounding whitespace is ignored, an optional
      sign precedes one or more digits; anything else is a `ValueError`, here `None`. An
      empty or all-whitespace string raises, a plain run of digits reads as its value, only
      a leading `-` gives a negative number, and only a numeral (after `strip`) is read. */
  function ParseInt(s: string): (r: Option<int>)
    ensures r.Some? ==> IsNumeral(Strip(s))
    ensures Strip(s) == "" ==> r.None?
    ensures IsDigits(s) ==> r == Some(DigitsValue(s))
    ensures r.Some? && r.value < 0 ==> Strip(s)[0] == '-'
  {
    assert IsDigits(s) ==> NoSpace(s);
    var t := Strip(s);
    if |t| > 0 && (t[0] == '-' || t[0] == '+') then
      if IsDigits(t[1..]) then
        var v: int := DigitsValue(t[1..]);
        Some(if t[0] == '-' then -v else v)
      else None
    else if IsDigits(t) then Some(DigitsValue(t))
    else None
  }

  /** An optional sign followed by one or more ASCII digits. */
  predicate IsNumeral(t: string) {
    IsDigits(t) || (|t| > 0 && (t[0] == '-' || t[0] == '+') && IsDigits(t[1..]))
  }

  /** Leading whitespace before a string that does not start with whitespace is removed. */
  lemma {:induction false} TrimLeftPad(w: string, t: string)
    requires AllSpace(w) && (t == [] || !IsSpace(t[0]))
    ensures TrimLeft(w + t) == t
    decreases |w|
  {
    if |w| == 0 {
      assert w + t == t;
    } else {
      assert (w + t)[1..] == w[1..] + t;
      TrimLeftPad(w[1..], t);
    }
  }

  /** Trailing whitespace after a string that does not end with whitespace is removed. */
  lemma {:induction false} TrimRightPad(t: string, w: string)
    requires AllSpace(w) && (t == [] || !IsSpace(t[|t| - 1]))
    ensures TrimRight(t + w) == t
    decreases |w|
  {
    if |w| == 0 {
      assert t + w == t;
    } else {
      assert (t + w)[..|t + w| - 1] == t + w[..|w| - 1];
      TrimRightPad(t, w[..|w| - 1]);
    }
  }

  /** `strip` removes whitespace padding around a string that neither starts nor ends with
      whitespace. */
  lemma StripPadded(w1: string, m: string, w2: string)
    requires AllSpace(w1) && AllSpace(w2) && |m| > 0 && !IsSpace(m[0]) && !IsSpace(m[|m| - 1])
    ensures Strip(w1 + m + w2) == m
  {
    assert w1 + m + w2 == w1 + (m + w2);
    TrimLeftPad(w1, m + w2);
    TrimRightPad(m, w2);
  }

  /** `int()` of a numeral padded with whitespace: an optional sign, then digits, read as
      their decimal value, negated after `-`. */
  lemma ParseIntNumeral(w1: string, sign: string, d: string, w2: string)
    requires AllSpace(w1) && AllSpace(w2)
    requires sign == "" || sign == "+" || sign == "-"
    requires IsDigits(d)
    ensures ParseInt(w1 + sign + d + w2) == Some(if sign == "-" then -(DigitsValue(d) as int) else DigitsValue(d))
  {
    var m := sign + d;
    assert IsDigit(d[0]) && IsDigit(d[|d| - 1]);
    assert m[0] == (if sign == "" then d[0] else sign[0]) && m[|m| - 1] == d[|d| - 1];
    assert w1 + sign + d + w2 == w1 + m + w2;
    StripPadded(w1, m, w2);
    ParseIntSigned(w1 + m + w2, sign, d);
  }

  /** `int()` of a string that strips to an optional sign followed by digits. */
  lemma ParseIntSigned(s: string, sign: string, d: string)
    requires sign == "" || sign == "+" || sign == "-"
    requires IsDigits(d) && Strip(s) == sign + d
    ensures ParseInt(s) == Some(if sign == "-" then -(DigitsValue(d) as int) else DigitsValue(d))
  {
    var t := Strip(s);
    if sign == "" {
      assert t == d && IsDigit(t[0]);
    } else {
      assert t[0] == sign[0] && t[1..] == d;
    }
  }

  /** The decimal digits of `n`, most significant first, without leading zeros. */
  function NatToDigits(n: nat): (d: string)
    ensures IsDigits(d)
    decreases n
  {
    if n < 10 then [('0' as int + n) as char] else NatToDigits(n / 10) + [('0' as int + n % 10) as char]
  }

  /** Python's `str(n)`. */
  function IntToString(n: int): string {
    if n < 0 then "-" + NatToDigits(-n) else NatToDigits(n)
  }

  lemma {:induction false} DigitsRoundTrip(n: nat)
    ensures DigitsValue(NatToDigits(n)) == n
    decreases n
  {
    var d := NatToDigits(n);
    if n >= 10 {
      DigitsRoundTrip(n / 10);
      assert d[..|d| - 1] == NatToDigits(n / 10);
    }
  }

  /** `int(str(n)) == n`. */
  lemma IntRoundTrip(n: int)
    ensures ParseInt(IntToString(n)) == Some(n)
  {
    var m: nat := if n < 0 then -n else n;
    var d, s := NatToDigits(m), IntToString(n);
    DigitsRoundTrip(m);
    assert NoSpace(s) by {
      assert forall k :: 0 <= k < |d| ==> IsDigit(d[k]);
    }
    StripNoSpace(s);
    if n < 0 {
      assert s[0] == '-' && s[1..] == d;
    } else {
      assert s == d && IsDigit(s[0]);
    }
  }
}

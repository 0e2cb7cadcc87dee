/** The single-clause filter parser of the user search. The service trims
    the filter and looks for the leftmost match of

        (\w+(?:\.\w+)?)\s+(eq|ne|co|sw|ew|gt|lt|ge|le)\s+["']?([^"']+)["']?

    compiled case-insensitively, taking its three groups as attribute,
    operator and value. The scanner below decides the match at each start
    position directly, following the backtracking order of the regex
    engine; `PatternAt` states what a match of the pattern is, and the
    lemmas connect the two. */
module FilterParser {
  import opened Wrappers
  import opened JavaText

  const OPERATORS: seq<string> := ["eq", "ne", "co", "sw", "ew", "gt", "lt", "ge", "le"]

  /** The (attribute, operator, value) triple the parser hands to the search. */
  datatype FilterResult = FilterResult(attribute: string, operator: string, value: string)

  datatype CharClass = Word | Space | NonQuote

  predicate InClass(c: char, k: CharClass) {
    match k
    case Word => IsWordChar(c)
    case Space => IsRegexSpace(c)
    case NonQuote => !IsQuote(c)
  }

  /** Every char of s[from..to] is in class k. */
  predicate AllIn(s: string, from: int, to: int, k: CharClass)
    requires 0 <= from <= to <= |s|
  {
    forall m :: from <= m < to ==> InClass(s[m], k)
  }

  /** The end of the longest run of class-k chars starting at i. */
  function RunEnd(s: string, i: nat, k: CharClass): (e: nat)
    requires i <= |s|
    ensures i <= e <= |s|
    ensures e == |s| || !InClass(s[e], k)
    decreases |s| - i
  {
    if i < |s| && InClass(s[i], k) then RunEnd(s, i + 1, k) else i
  }

  /** Every char the run passes over is in class k. */
  lemma {:induction false} RunEndAllIn(s: string, i: nat, k: CharClass)
    requires i <= |s|
    ensures AllIn(s, i, RunEnd(s, i, k), k)
    decreases |s| - i
  {
    if i < |s| && InClass(s[i], k) {
      RunEndAllIn(s, i + 1, k);
    }
  }

  /** A run end is the only place a run of class k can stop before a
      char outside k. */
  lemma {:induction false} RunEndUnique(s: string, i: nat, k: CharClass, e: nat)
    requires i <= e <= |s| && AllIn(s, i, e, k)
    requires e == |s| || !InClass(s[e], k)
    ensures RunEnd(s, i, k) == e
    decreases e - i
  {
    if i < e {
      assert InClass(s[i], k);
      RunEndUnique(s, i + 1, k, e);
    }
  }

  /** A run of class k starting at i reaches at least as far as any
      stretch of class-k chars from i. */
  lemma {:induction false} RunEndCovers(s: string, i: nat, k: CharClass, e: nat)
    requires i <= e <= |s| && AllIn(s, i, e, k)
    ensures RunEnd(s, i, k) >= e
    decreases e - i
  {
    if i < e {
      assert InClass(s[i], k);
      RunEndCovers(s, i + 1, k, e);
    }
  }

  /** Two lower-case chars spelling one of the nine operators. */
  predicate OperatorPair(a: char, b: char) {
    || (a == 'e' && (b == 'q' || b == 'w'))
    || (a == 'n' && b == 'e')
    || (a == 'c' && b == 'o')
    || (a == 's' && b == 'w')
    || ((a == 'g' || a == 'l') && (b == 't' || b == 'e'))
  }

  /** Two chars naming one of the nine operators, ignoring ASCII case. */
  predicate IsOperator(t: string) {
    |t| == 2 && OperatorPair(LowerChar(t[0]), LowerChar(t[1]))
  }

  /** The operator test is membership of the lower-cased text in the list
      of the nine operators. */
  lemma OperatorsListed(t: string)
    ensures IsOperator(t) <==> |t| == 2 && LowerAscii(t) in OPERATORS
  {
    if |t| == 2 {
      var l := LowerAscii(t);
      assert l == [LowerChar(t[0]), LowerChar(t[1])];
      if OperatorPair(l[0], l[1]) {
        assert l in OPERATORS;
      } else {
        forall k | 0 <= k < |OPERATORS| ensures l != OPERATORS[k] {
          assert OPERATORS[k][0] != l[0] || OPERATORS[k][1] != l[1];
        }
      }
    }
  }

  /** Positions of one match: the attribute is s[start..attrEnd], the
      operator s[opStart..opStart+2], the whitespace after it ends at
      spaceEnd, and the value is s[valueStart..valueEnd]. */
  datatype Span = Span(start: nat, attrEnd: nat, opStart: nat, spaceEnd: nat, valueStart: nat, valueEnd: nat)

  /** The parts of m follow one another, each non-empty, within a text of
      length n. */
  predicate InOrder(m: Span, n: int) {
    && m.start < m.attrEnd < m.opStart
    && m.opStart + 2 < m.spaceEnd <= m.valueStart < m.valueEnd <= n
  }

  /** `\w+(?:\.\w+)?` matches s[i..a] exactly. */
  predicate AttributeShape(s: string, i: int, a: int)
    requires 0 <= i <= a <= |s|
  {
    i < a &&
    (AllIn(s, i, a, Word) ||
     exists d :: i < d < a - 1 && s[d] == '.' && AllIn(s, i, d, Word) && AllIn(s, d + 1, a, Word))
  }

  /** `m` is a match of the pattern in `s`: every group and separator
      covers the chars the pattern allows there. The optional closing
      quote matches the empty string, so it constrains nothing. */
  predicate PatternAt(s: string, m: Span) {
    && InOrder(m, |s|)
    && AttributeShape(s, m.start, m.attrEnd)
    && AllIn(s, m.attrEnd, m.opStart, Space)
    && IsOperator(s[m.opStart..m.opStart + 2])
    && AllIn(s, m.opStart + 2, m.spaceEnd, Space)
    && (m.valueStart == m.spaceEnd || (m.valueStart == m.spaceEnd + 1 && IsQuote(s[m.spaceEnd])))
    && AllIn(s, m.valueStart, m.valueEnd, NonQuote)
  }

  /** The end of the attribute group starting at i: the word run, extended
      by `.word` when a dot and a word char follow it. */
  function AttributeEnd(s: string, i: nat): (a: nat)
    requires i < |s| && IsWordChar(s[i])
    ensures i < a <= |s|
    ensures a == |s| || !IsWordChar(s[a])
  {
    var j := RunEnd(s, i, Word);
    if j + 1 < |s| && s[j] == '.' && IsWordChar(s[j + 1]) then RunEnd(s, j + 1, Word) else j
  }

  /** The attribute group matches `\w+(?:\.\w+)?`. */
  lemma AttributeEndShape(s: string, i: nat)
    requires i < |s| && IsWordChar(s[i])
    ensures AttributeShape(s, i, AttributeEnd(s, i))
  {
    var j := RunEnd(s, i, Word);
    RunEndAllIn(s, i, Word);
    if j + 1 < |s| && s[j] == '.' && IsWordChar(s[j + 1]) {
      RunEndAllIn(s, j + 1, Word);
      assert i < j < RunEnd(s, j + 1, Word) - 1;
    }
  }

  /** An attribute group followed by a space can only end where
      AttributeEnd says. */
  lemma AttributeEndUnique(s: string, i: nat, a: nat)
    requires i < a < |s| && AttributeShape(s, i, a) && IsRegexSpace(s[a])
    ensures AttributeEnd(s, i) == a
  {
    if AllIn(s, i, a, Word) {
      RunEndUnique(s, i, Word, a);
      assert s[a] != '.';
    } else {
      var d :| i < d < a - 1 && s[d] == '.' && AllIn(s, i, d, Word) && AllIn(s, d + 1, a, Word);
      RunEndUnique(s, i, Word, d);
      RunEndUnique(s, d + 1, Word, a);
    }
  }

  /** Where the value part of a match lies: the whitespace after the
      operator ends at spaceEnd and the value is s[valueStart..valueEnd]. */
  datatype ValueSpan = ValueSpan(spaceEnd: nat, valueStart: nat, valueEnd: nat)

  /** `\s+["']?([^"']+)["']?` from position o matches with the positions of v. */
  predicate ValueShape(s: string, o: nat, v: ValueSpan) {
    && o < v.spaceEnd <= v.valueStart < v.valueEnd <= |s|
    && AllIn(s, o, v.spaceEnd, Space)
    && (v.valueStart == v.spaceEnd || (v.valueStart == v.spaceEnd + 1 && IsQuote(s[v.spaceEnd])))
    && AllIn(s, v.valueStart, v.valueEnd, NonQuote)
  }

  /** The value part the regex engine settles on after the operator, which
      ends at o: the whitespace run, an optional quote, then the longest
      run of non-quotes. When the run is followed by nothing usable, the
      engine backtracks and the value takes the last whitespace char. */
  function ValueAt(s: string, o: nat): (r: Option<ValueSpan>)
    requires o <= |s|
    ensures r.Some? ==> o < r.value.spaceEnd <= r.value.valueStart < r.value.valueEnd <= |s|
    ensures r.Some? ==> r.value.valueEnd == |s| || IsQuote(s[r.value.valueEnd])
  {
    var r := RunEnd(s, o, Space);
    if r == o then None
    else if r < |s| && !IsQuote(s[r]) then
      Some(ValueSpan(r, r, RunEnd(s, r, NonQuote)))
    else if r + 1 < |s| && IsQuote(s[r]) && !IsQuote(s[r + 1]) then
      Some(ValueSpan(r, r + 1, RunEnd(s, r + 1, NonQuote)))
    else if r - o >= 2 then Some(ValueSpan(r - 1, r - 1, r))
    else None
  }

  /** What ValueAt finds matches the value part of the pattern. */
  lemma ValueAtShape(s: string, o: nat)
    requires o <= |s|
    ensures ValueAt(s, o).Some? ==> ValueShape(s, o, ValueAt(s, o).value)
  {
    var r := RunEnd(s, o, Space);
    RunEndAllIn(s, o, Space);
    if r < |s| && !IsQuote(s[r]) {
      RunEndAllIn(s, r, NonQuote);
    } else if r + 1 < |s| && IsQuote(s[r]) && !IsQuote(s[r + 1]) {
      RunEndAllIn(s, r + 1, NonQuote);
    } else if r - o >= 2 {
      assert InClass(s[r - 1], Space);
    }
  }

  /** Wherever the value part can match after o, the engine finds one. */
  lemma ValueComplete(s: string, o: nat, v: ValueSpan)
    requires o <= |s| && ValueShape(s, o, v)
    ensures ValueAt(s, o).Some?
  {
    var r := RunEnd(s, o, Space);
    RunEndCovers(s, o, Space, v.spaceEnd);
    if r == v.spaceEnd {
      // the value, possibly after an opening quote, starts with a non-quote
      assert InClass(s[v.valueStart], NonQuote);
    } else {
      assert r - o >= 2;
    }
  }

  /** The order in which the engine tries the ways the value part can
      match: a longer whitespace run first (`\s+` is greedy), then taking
      the opening quote (`["']?` is greedy), then a longer value. The
      closing `["']?` always succeeds, so the first way tried that reaches
      it is the match. */
  predicate Prefers(v: ValueSpan, w: ValueSpan) {
    || v.spaceEnd > w.spaceEnd
    || (v.spaceEnd == w.spaceEnd && v.valueStart > w.valueStart)
    || (v.spaceEnd == w.spaceEnd && v.valueStart == w.valueStart && v.valueEnd >= w.valueEnd)
  }

  /** ValueAt is the engine's choice: whenever the value part can match
      after o, ValueAt finds a way, and it is preferred to every way. */
  lemma {:induction false} ValueAtGreedy(s: string, o: nat, w: ValueSpan)
    requires o <= |s| && ValueShape(s, o, w)
    ensures ValueAt(s, o).Some? && Prefers(ValueAt(s, o).value, w)
  {
    var r := RunEnd(s, o, Space);
    RunEndCovers(s, o, Space, w.spaceEnd);
    ValueComplete(s, o, w);
    if r < |s| && !IsQuote(s[r]) {
      if w.spaceEnd == r {
        assert w.valueStart == r;
        RunEndCovers(s, r, NonQuote, w.valueEnd);
      }
    } else if r + 1 < |s| && IsQuote(s[r]) && !IsQuote(s[r + 1]) {
      if w.spaceEnd == r {
        assert InClass(s[w.valueStart], NonQuote);
        assert w.valueStart == r + 1;
        RunEndCovers(s, r + 1, NonQuote, w.valueEnd);
      }
    } else {
      // the run ends at a quote that no value follows, or at the end
      assert InClass(s[w.valueStart], NonQuote);
      assert w.spaceEnd < r;
      if w.spaceEnd == r - 1 {
        RunEndAllIn(s, o, Space);
        assert InClass(s[r - 1], Space);
        assert w.valueStart == r - 1;
        assert w.valueEnd <= r;
      }
    }
  }

  /** The first match found at start position i, in the order the regex
      engine tries the alternatives. */
  function MatchAt(s: string, i: nat): (r: Option<Span>)
    requires i <= |s|
    ensures r.Some? ==> r.value.start == i && InOrder(r.value, |s|)
    ensures r.Some? ==> r.value.valueEnd == |s| || IsQuote(s[r.value.valueEnd])
  {
    if i == |s| || !IsWordChar(s[i]) then None
    else
      var a := AttributeEnd(s, i);
      var b := RunEnd(s, a, Space);
      if b == a || b + 2 > |s| || !IsOperator(s[b..b + 2]) then None
      else
        match ValueAt(s, b + 2)
        case None => None
        case Some(v) => Some(Span(i, a, b, v.spaceEnd, v.valueStart, v.valueEnd))
  }

  /** What the scanner finds at a position is a match of the pattern there. */
  lemma MatchAtSound(s: string, i: nat)
    requires i <= |s|
    ensures MatchAt(s, i).Some? ==> PatternAt(s, MatchAt(s, i).value)
  {
    if MatchAt(s, i).Some? {
      var a := AttributeEnd(s, i);
      AttributeEndShape(s, i);
      RunEndAllIn(s, a, Space);
      ValueAtShape(s, RunEnd(s, a, Space) + 2);
    }
  }

  /** MatchAt assembled from its parts: the attribute end, the operator
      position and the value part. */
  lemma MatchAtParts(s: string, i: nat, b: nat, v: ValueSpan)
    requires i < |s| && IsWordChar(s[i])
    requires RunEnd(s, AttributeEnd(s, i), Space) == b && b != AttributeEnd(s, i)
    requires b + 2 <= |s| && IsOperator(s[b..b + 2]) && ValueAt(s, b + 2) == Some(v)
    ensures MatchAt(s, i) == Some(Span(i, AttributeEnd(s, i), b, v.spaceEnd, v.valueStart, v.valueEnd))
  {
  }

  /** Where the pattern matches at all, the scanner finds a match at the
      same start. */
  lemma MatchComplete(s: string, m: Span)
    requires PatternAt(s, m)
    ensures MatchAt(s, m.start).Some?
  {
    var i := m.start;
    assert InClass(s[m.attrEnd], Space);
    AttributeEndUnique(s, i, m.attrEnd);
    RunEndUnique(s, m.attrEnd, Space, m.opStart);
    ValueComplete(s, m.opStart + 2, ValueSpan(m.spaceEnd, m.valueStart, m.valueEnd));
    MatchAtParts(s, i, m.opStart, ValueAt(s, m.opStart + 2).value);
  }

  /** Of two matches at one start, `m` is the one the engine prefers: the
      attribute and the operator are forced, and the value part of `m` is
      tried first. */
  predicate SpanPrefers(m: Span, n: Span) {
    && m.start == n.start && m.attrEnd == n.attrEnd && m.opStart == n.opStart
    && Prefers(ValueSpan(m.spaceEnd, m.valueStart, m.valueEnd), ValueSpan(n.spaceEnd, n.valueStart, n.valueEnd))
  }

  /** Wherever the pattern matches, the scanner's match at that start is
      the one the engine prefers to it. */
  lemma MatchAtGreedy(s: string, m: Span)
    requires PatternAt(s, m)
    ensures MatchAt(s, m.start).Some? && SpanPrefers(MatchAt(s, m.start).value, m)
  {
    var i := m.start;
    assert InClass(s[m.attrEnd], Space);
    AttributeEndUnique(s, i, m.attrEnd);
    RunEndUnique(s, m.attrEnd, Space, m.opStart);
    ValueAtGreedy(s, m.opStart + 2, ValueSpan(m.spaceEnd, m.valueStart, m.valueEnd));
    MatchAtParts(s, i, m.opStart, ValueAt(s, m.opStart + 2).value);
  }

  /** The first position at or after i whose entry is present. */
  function FirstHit<T>(found: seq<Option<T>>, i: nat): (j: Option<nat>)
    requires i <= |found|
    ensures j.Some? ==> i <= j.value < |found| && found[j.value].Some?
    ensures j.Some? ==> forall k :: i <= k < j.value ==> found[k].None?
    ensures j.None? ==> forall k :: i <= k < |found| ==> found[k].None?
    decreases |found| - i
  {
    if i == |found| then None
    else if found[i].Some? then Some(i)
    else FirstHit(found, i + 1)
  }

  /** What the scanner finds at each start position 0..|s|. */
  function Attempts(s: string): (a: seq<Option<Span>>)
    ensures |a| == |s| + 1
    ensures forall k {:trigger a[k]} :: 0 <= k <= |s| ==> a[k] == MatchAt(s, k)
  {
    seq(|s| + 1, k requires 0 <= k <= |s| => MatchAt(s, k))
  }

  /** The leftmost match at or after position i (`Matcher.find`): the
      attempt at the first start position where the scanner succeeds. */
  function Scan(s: string, i: nat): (r: Option<Span>)
    requires i <= |s|
    ensures r.Some? ==> i <= r.value.start <= |s| && MatchAt(s, r.value.start) == r
  {
    var a := Attempts(s);
    match FirstHit(a, i)
    case None => None
    case Some(j) => a[j]
  }

  /** The scan passes over only positions where nothing matches, and fails
      only when no position from i on matches. */
  lemma ScanSkips(s: string, i: nat)
    requires i <= |s|
    ensures Scan(s, i).Some? ==> forall k :: i <= k < Scan(s, i).value.start ==> MatchAt(s, k).None?
    ensures Scan(s, i).None? ==> forall k :: i <= k <= |s| ==> MatchAt(s, k).None?
  {
    var a := Attempts(s);
    var j := FirstHit(a, i);
    var end := if j.Some? then j.value else |s| + 1;
    assert Scan(s, i).Some? ==> Scan(s, i).value.start == end;
    forall k | i <= k < end ensures MatchAt(s, k).None? {
      assert a[k].None?;
    }
  }

  /** The match the scan returns starts no later than any match of the
      pattern, and the scan fails only where the pattern matches nowhere. */
  lemma ScanIsLeftmost(s: string, m: Span)
    requires PatternAt(s, m)
    ensures Scan(s, 0).Some?
    ensures Scan(s, 0).value.start <= m.start
  {
    ScanSkips(s, 0);
    MatchComplete(s, m);
  }

  /** No position of `t` starts a match of the pattern. */
  ghost predicate NoMatch(t: string) {
    forall m :: !PatternAt(t, m)
  }

  /** The three groups of the match `m`. */
  function Groups(t: string, m: Span): FilterResult
    requires m.start <= m.attrEnd <= |t| && m.opStart + 2 <= |t| && m.valueStart <= m.valueEnd <= |t|
  {
    FilterResult(t[m.start..m.attrEnd], t[m.opStart..m.opStart + 2], t[m.valueStart..m.valueEnd])
  }

  lemma ScanFailsOnlyWithoutMatch(t: string)
    requires Scan(t, 0).None?
    ensures NoMatch(t)
  {
    ScanSkips(t, 0);
    forall m | PatternAt(t, m) ensures false {
      MatchComplete(t, m);
    }
  }

  /** `parseFilter(filter)`: the three groups of the leftmost match in the
      trimmed filter, or None (Java's null) when there is none. */
  function ParseFilter(filter: string): (r: Option<FilterResult>)
    ensures r.None? <==> NoMatch(Trim(filter))
  {
    var t := Trim(filter);
    match Scan(t, 0)
    case None =>
      ScanFailsOnlyWithoutMatch(t);
      None
    case Some(m) =>
      MatchAtSound(t, m.start);
      Some(Groups(t, m))
  }

  /** A parsed filter holds the groups the scan of the trimmed filter found. */
  lemma ParsedIsScan(filter: string)
    requires ParseFilter(filter).Some?
    ensures var t := Trim(filter);
            Scan(t, 0).Some? && ParseFilter(filter).value == Groups(t, Scan(t, 0).value)
  {
  }

  /** The scan from the start finds the leftmost match of the pattern. */
  lemma ScanFindsLeftmost(t: string)
    requires Scan(t, 0).Some?
    ensures forall m' :: PatternAt(t, m') ==> Scan(t, 0).value.start <= m'.start
  {
    ScanSkips(t, 0);
    forall m' | PatternAt(t, m') ensures Scan(t, 0).value.start <= m'.start {
      MatchComplete(t, m');
    }
  }

  /** `m` is the match `Matcher.find` reports in `t`: a match of the
      pattern that starts no later than any other, and of the matches at
      that start the one the engine tries first. */
  ghost predicate EngineMatch(t: string, m: Span) {
    && PatternAt(t, m)
    && (forall n :: PatternAt(t, n) ==> m.start <= n.start)
    && (forall n :: PatternAt(t, n) && n.start == m.start ==> SpanPrefers(m, n))
  }

  /** At most one match is the engine's. */
  lemma EngineMatchUnique(t: string, m: Span, n: Span)
    requires EngineMatch(t, m) && EngineMatch(t, n)
    ensures m == n
  {
    assert m.start <= n.start && n.start <= m.start;
    assert SpanPrefers(m, n) && SpanPrefers(n, m);
  }

  /** The scan from the start finds the engine's match. */
  lemma ScanIsEngineMatch(t: string)
    requires Scan(t, 0).Some?
    ensures EngineMatch(t, Scan(t, 0).value)
  {
    var m := Scan(t, 0).value;
    ScanFindsLeftmost(t);
    MatchAtSound(t, m.start);
    forall n | PatternAt(t, n) && n.start == m.start ensures SpanPrefers(m, n) {
      MatchAtGreedy(t, n);
    }
  }

  /** A parsed filter holds the groups of the engine's match in the
      trimmed filter, which starts no later than any other match. */
  lemma ParsedIsLeftmostMatch(filter: string)
    requires ParseFilter(filter).Some?
    ensures var t := Trim(filter);
            exists m :: && PatternAt(t, m)
                        && ParseFilter(filter).value == Groups(t, m)
                        && (forall m' :: PatternAt(t, m') ==> m.start <= m'.start)
                        && EngineMatch(t, m)
    ensures var t := Trim(filter);
            forall m :: EngineMatch(t, m) ==> ParseFilter(filter).value == Groups(t, m)
  {
    var t := Trim(filter);
    ParsedIsScan(filter);
    var m := Scan(t, 0).value;
    ScanIsEngineMatch(t);
    forall n | EngineMatch(t, n) ensures ParseFilter(filter).value == Groups(t, n) {
      EngineMatchUnique(t, m, n);
    }
  }

  /** The attribute shape survives cutting the attribute out of the text. */
  lemma {:induction false} AttributeShapeSlice(t: string, i: int, a: int)
    requires 0 <= i <= a <= |t| && AttributeShape(t, i, a)
    ensures AttributeShape(t[i..a], 0, a - i)
  {
    var w := t[i..a];
    if AllIn(t, i, a, Word) {
      forall k | 0 <= k < |w| ensures InClass(w[k], Word) {
        assert w[k] == t[i + k];
      }
      assert AllIn(w, 0, |w|, Word);
    } else {
      var d :| i < d < a - 1 && t[d] == '.' && AllIn(t, i, d, Word) && AllIn(t, d + 1, a, Word);
      var e := d - i;
      assert w[e] == '.';
      forall k | 0 <= k < e ensures InClass(w[k], Word) {
        assert w[k] == t[i + k];
      }
      forall k | e + 1 <= k < |w| ensures InClass(w[k], Word) {
        assert w[k] == t[i + k];
      }
      assert 0 < e < |w| - 1 && w[e] == '.' && AllIn(w, 0, e, Word) && AllIn(w, e + 1, |w|, Word);
    }
  }

  /** The groups of any match: an attribute that is a word, or two words
      joined by one dot, an operator, and a non-empty quote-free value. */
  lemma GroupShapes(t: string, m: Span)
    requires PatternAt(t, m)
    ensures var f := Groups(t, m);
            && AttributeShape(f.attribute, 0, |f.attribute|)
            && |f.attribute| > 0 && IsOperator(f.operator)
            && |f.value| > 0 && forall k :: 0 <= k < |f.value| ==> !IsQuote(f.value[k])
  {
    AttributeShapeSlice(t, m.start, m.attrEnd);
    var v := t[m.valueStart..m.valueEnd];
    forall k | 0 <= k < |v| ensures !IsQuote(v[k]) {
      assert InClass(t[m.valueStart + k], NonQuote);
    }
  }

  /** The parts of a parsed filter have the shapes the groups allow: a
      dotted-at-most-once word, one of the nine operators in any ASCII case,
      and a non-empty quote-free value. */
  lemma ParsedShapes(filter: string)
    requires ParseFilter(filter).Some?
    ensures var f := ParseFilter(filter).value;
            && AttributeShape(f.attribute, 0, |f.attribute|)
            && |f.attribute| > 0 && IsOperator(f.operator)
            && |f.value| > 0 && forall k :: 0 <= k < |f.value| ==> !IsQuote(f.value[k])
  {
    ParsedIsScan(filter);
    var t := Trim(filter);
    MatchAtSound(t, Scan(t, 0).value.start);
    GroupShapes(t, Scan(t, 0).value);
  }

  /** The filter of the user search's example. */
  const EXAMPLE: string := "userName eq \"bob\""

  /** The example of the user search: the quotes are stripped. */
  lemma ParsesQuotedEquality()
    ensures ParseFilter(EXAMPLE) == Some(FilterResult("userName", "eq", "bob"))
  {
    ExampleTrimmed();
    ExampleScan();
  }

  lemma ExampleTrimmed()
    ensures Trim(EXAMPLE) == EXAMPLE
  {
    assert TrimStart(EXAMPLE) == EXAMPLE;
    assert TrimEnd(EXAMPLE) == EXAMPLE;
  }

  lemma ExampleScan()
    ensures Scan(EXAMPLE, 0) == Some(Span(0, 8, 9, 12, 13, 16))
    ensures Groups(EXAMPLE, Span(0, 8, 9, 12, 13, 16)) == FilterResult("userName", "eq", "bob")
  {
    ExampleMatch();
    ExampleGroups();
  }

  lemma ExampleGroups()
    ensures Groups(EXAMPLE, Span(0, 8, 9, 12, 13, 16)) == FilterResult("userName", "eq", "bob")
  {
    var s := EXAMPLE;
    assert s[0..8] == "userName";
    assert s[9..11] == "eq";
    assert s[13..16] == "bob";
  }

  lemma ExampleMatch()
    ensures MatchAt(EXAMPLE, 0) == Some(Span(0, 8, 9, 12, 13, 16))
  {
    var s := EXAMPLE;
    ExampleAttribute();
    assert RunEnd(s, 8, Space) == 9 by {
      RunEndUnique(s, 8, Space, 9);
    }
    assert IsOperator(s[9..11]) by {
      assert s[9..11] == "eq";
    }
    ExampleValue();
    MatchAtParts(s, 0, 9, ValueSpan(12, 13, 16));
  }

  /** With two spaces before the value, the whitespace run takes both:
      "a eq  x" has the value "x" at position 6. */
  lemma ExampleTwoSpaces()
    ensures ValueAt("a eq  x", 4) == Some(ValueSpan(6, 6, 7))
  {
    var s := "a eq  x";
    RunEndUnique(s, 4, Space, 6);
    RunEndUnique(s, 6, NonQuote, 7);
  }

  /** When only a quote follows the whitespace, the engine gives back one
      whitespace char and the value is that char: "a eq  '" has the value
      " ". */
  lemma ExampleGivenBackSpace()
    ensures ValueAt("a eq  '", 4) == Some(ValueSpan(5, 5, 6))
  {
    var s := "a eq  '";
    RunEndUnique(s, 4, Space, 6);
  }

  lemma ExampleAttribute()
    ensures AttributeEnd(EXAMPLE, 0) == 8
  {
    RunEndUnique(EXAMPLE, 0, Word, 8);
    assert EXAMPLE[8] == ' ';
  }

  lemma ExampleValue()
    ensures ValueAt(EXAMPLE, 11) == Some(ValueSpan(12, 13, 16))
  {
    var s := EXAMPLE;
    RunEndUnique(s, 11, Space, 12);
    RunEndUnique(s, 13, NonQuote, 16);
    assert IsQuote(s[12]) && !IsQuote(s[13]);
  }
}

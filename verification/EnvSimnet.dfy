/** Stripping `#[env(simnet)]` code: the walk that collects the annotated spans, and the blanking of their lines. */
module EnvSimnet {
  import opened Common
  import opened EnvAnnotation

  // ---------------------------------------------------------------- expressions

  datatype Span = Span(startLine: nat, startColumn: nat, endLine: nat, endColumn: nat)

  /** An expression as parsed before macro expansion; only comments, lists and tuples are told apart. */
  datatype Expr =
    | Comment(span: Span, text: string)
    | Atom(span: Span)
    | List(span: Span, children: seq<Expr>)
    | Tuple(span: Span, children: seq<Expr>)

  predicate HasChildren(expr: Expr) {
    expr.List? || expr.Tuple?
  }

  predicate IsCodeEndingOn(expr: Expr, line: nat) {
    expr.span.endLine == line && !expr.Comment?
  }

  /** Some expression on the annotation's line comes before it and ends there. */
  predicate IsEndOfLine(exprs: seq<Expr>, idx: nat)
    requires idx < |exprs|
  {
    exists k {:trigger IsCodeEndingOn(exprs[k], exprs[idx].span.startLine)} ::
      0 <= k < idx && IsCodeEndingOn(exprs[k], exprs[idx].span.startLine)
  }

  predicate IsAnnotation(exprs: seq<Expr>, idx: nat)
    requires idx < |exprs|
  {
    exprs[idx].Comment? && IsEnvAnnotation(exprs[idx].text) && !IsEndOfLine(exprs, idx)
  }

  function Join(from: Span, to: Span): Span {
    Span(from.startLine, from.startColumn, to.endLine, to.endColumn)
  }

  // ---------------------------------------------------------------- what is annotated

  /** The first of the comments directly in front of `idx` that annotates, if one does. */
  function Annotating(exprs: seq<Expr>, idx: nat): (r: Option<nat>)
    requires idx <= |exprs|
    ensures r.Some? ==> r.value < idx && IsAnnotation(exprs, r.value)
    ensures r.Some? ==> forall k :: r.value <= k < idx ==> exprs[k].Comment?
  {
    if idx == 0 || !exprs[idx - 1].Comment? then None
    else
      var earlier := Annotating(exprs, idx - 1);
      if earlier.Some? then earlier
      else if IsAnnotation(exprs, idx - 1) then Some(idx - 1)
      else None
  }

  /** The spans of the first expressions of a list, without any pending state: an expression that comments annotate
      gives one span, any other expression gives those of its children. */
  function SpansUpTo(exprs: seq<Expr>, idx: nat): seq<Span>
    requires idx <= |exprs|
    decreases exprs, 1, idx
  {
    if idx == 0 then []
    else SpansUpTo(exprs, idx - 1) + SpansAt(exprs, idx - 1)
  }

  function SpansAt(exprs: seq<Expr>, idx: nat): seq<Span>
    requires idx < |exprs|
    decreases exprs, 0
  {
    if exprs[idx].Comment? then []
    else
      var annotation := Annotating(exprs, idx);
      if annotation.Some? then [Join(exprs[annotation.value].span, exprs[idx].span)]
      else if HasChildren(exprs[idx]) then SpansUpTo(exprs[idx].children, |exprs[idx].children|)
      else []
  }

  function Spans(exprs: seq<Expr>): seq<Span> {
    SpansUpTo(exprs, |exprs|)
  }

  /** What the walk carries: the span of the comment that annotates the expression to come. */
  function Pending(exprs: seq<Expr>, idx: nat): Option<Span>
    requires idx <= |exprs|
  {
    var annotation := Annotating(exprs, idx);
    if annotation.Some? then Some(exprs[annotation.value].span) else None
  }

  lemma PendingStep(exprs: seq<Expr>, idx: nat)
    requires idx < |exprs|
    ensures Pending(exprs, idx + 1) ==
            if !exprs[idx].Comment? then None
            else if Pending(exprs, idx).Some? then Pending(exprs, idx)
            else if IsAnnotation(exprs, idx) then Some(exprs[idx].span) else None
    ensures SpansUpTo(exprs, idx + 1) == SpansUpTo(exprs, idx) +
            if exprs[idx].Comment? then []
            else if Pending(exprs, idx).Some? then [Join(Pending(exprs, idx).value, exprs[idx].span)]
            else if HasChildren(exprs[idx]) then Spans(exprs[idx].children) else []
  {
  }

  /** The walk: it carries the start of a pending annotation past further comments. */
  method CollectEnvSimnetSpans(exprs: seq<Expr>, out: seq<Span>) returns (collected: seq<Span>)
    ensures collected == out + Spans(exprs)
    decreases exprs
  {
    var annotationStart: Option<Span>;
    collected, annotationStart := out, None;
    for idx := 0 to |exprs|
      invariant collected == out + SpansUpTo(exprs, idx)
      invariant annotationStart == Pending(exprs, idx)
    {
      PendingStep(exprs, idx);
      annotationStart, collected := Visit(exprs, idx, annotationStart, collected);
    }
  }

  /** One turn of the walk. */
  method Visit(exprs: seq<Expr>, idx: nat, pending: Option<Span>, out: seq<Span>)
      returns (annotationStart: Option<Span>, collected: seq<Span>)
    requires idx < |exprs|
    ensures annotationStart ==
            if !exprs[idx].Comment? then None
            else if pending.Some? then pending
            else if IsAnnotation(exprs, idx) then Some(exprs[idx].span) else None
    ensures collected == out +
            if exprs[idx].Comment? then []
            else if pending.Some? then [Join(pending.value, exprs[idx].span)]
            else if HasChildren(exprs[idx]) then Spans(exprs[idx].children) else []
    decreases exprs, 0
  {
    var expr := exprs[idx];
    annotationStart, collected := None, out;
    if pending.Some? {
      if expr.Comment? {
        annotationStart := pending;
      } else {
        collected := collected + [Join(pending.value, expr.span)];
      }
      return;
    }
    if expr.Comment? {
      if IsEnvAnnotation(expr.text) {
        if !IsEndOfLine(exprs, idx) {
          annotationStart := Some(expr.span);
        }
      }
    }
    if HasChildren(expr) {
      collected := CollectEnvSimnetSpans(expr.children, collected);
    }
  }

  // ---------------------------------------------------------------- order

  predicate Before(line: nat, column: nat, line': nat, column': nat) {
    line < line' || (line == line' && column < column')
  }

  predicate WellFormed(s: Span) {
    !Before(s.endLine, s.endColumn, s.startLine, s.startColumn)
  }

  /** `s` ends before `t` starts. */
  predicate Precedes(s: Span, t: Span) {
    Before(s.endLine, s.endColumn, t.startLine, t.startColumn)
  }

  /** `s` lies within `t`. */
  predicate Within(s: Span, t: Span) {
    && !Before(s.startLine, s.startColumn, t.startLine, t.startColumn)
    && !Before(t.endLine, t.endColumn, s.endLine, s.endColumn)
  }

  /** Siblings are in source order and do not overlap, and children lie within their parent. */
  predicate WellNested(exprs: seq<Expr>)
    decreases exprs
  {
    && (forall i :: 0 <= i < |exprs| ==> WellFormed(exprs[i].span))
    && (forall i, j :: 0 <= i < j < |exprs| ==> Precedes(exprs[i].span, exprs[j].span))
    && (forall i, k :: 0 <= i < |exprs| && HasChildren(exprs[i]) && 0 <= k < |exprs[i].children| ==>
          Within(exprs[i].children[k].span, exprs[i].span))
    && (forall i :: 0 <= i < |exprs| && HasChildren(exprs[i]) ==> WellNested(exprs[i].children))
  }

  /** In strictly increasing source order, and so pairwise disjoint. */
  predicate Increasing(spans: seq<Span>) {
    && (forall i :: 0 <= i < |spans| ==> WellFormed(spans[i]))
    && (forall i, j :: 0 <= i < j < |spans| ==> Precedes(spans[i], spans[j]))
  }

  /** Looking at the last expression that is not a comment is enough to recognise an end-of-line comment. */
  predicate IsEndOfLineByLast(exprs: seq<Expr>, idx: nat)
    requires idx < |exprs|
  {
    exists k :: 0 <= k < idx && !exprs[k].Comment? && (forall j :: k < j < idx ==> exprs[j].Comment?)
                && exprs[k].span.endLine == exprs[idx].span.startLine
  }

  lemma {:induction false} LastExpression(exprs: seq<Expr>, end: nat, k: nat) returns (last: nat)
    requires k < end <= |exprs| && !exprs[k].Comment?
    ensures k <= last < end && !exprs[last].Comment? && forall j :: last < j < end ==> exprs[j].Comment?
    decreases end
  {
    if exprs[end - 1].Comment? {
      last := LastExpression(exprs, end - 1, k);
    } else {
      last := end - 1;
    }
  }

  lemma EndOfLineByLast(exprs: seq<Expr>, idx: nat)
    requires idx < |exprs| && WellNested(exprs)
    ensures IsEndOfLine(exprs, idx) <==> IsEndOfLineByLast(exprs, idx)
  {
    if IsEndOfLine(exprs, idx) {
      var k :| 0 <= k < idx && IsCodeEndingOn(exprs[k], exprs[idx].span.startLine);
      var last := LastExpression(exprs, idx, k);
      assert Precedes(exprs[last].span, exprs[idx].span);
      if k < last {
        assert Precedes(exprs[k].span, exprs[last].span) && WellFormed(exprs[last].span);
      }
      assert exprs[last].span.endLine == exprs[idx].span.startLine;
    } else if IsEndOfLineByLast(exprs, idx) {
      var k :| 0 <= k < idx && !exprs[k].Comment? && exprs[k].span.endLine == exprs[idx].span.startLine;
      assert IsCodeEndingOn(exprs[k], exprs[idx].span.startLine);
    }
  }

  /** All spans start no earlier than the first expression and end no later than the last one before `idx`. */
  ghost predicate Between(spans: seq<Span>, from: Span, to: Span) {
    forall i :: 0 <= i < |spans| ==>
      && !Before(spans[i].startLine, spans[i].startColumn, from.startLine, from.startColumn)
      && !Before(to.endLine, to.endColumn, spans[i].endLine, spans[i].endColumn)
  }

  /** The collected spans come in strictly increasing source order, and stay within the expressions they come from. */
  lemma {:induction false} SpansAreIncreasing(exprs: seq<Expr>, idx: nat)
    requires idx <= |exprs| && WellNested(exprs)
    ensures Increasing(SpansUpTo(exprs, idx))
    ensures idx > 0 ==> Between(SpansUpTo(exprs, idx), exprs[0].span, exprs[idx - 1].span)
    decreases exprs, 1, idx
  {
    if idx > 0 {
      var last := idx - 1;
      SpansAreIncreasing(exprs, last);
      if exprs[last].Comment? {
        AppendNothing(SpansUpTo(exprs, last));
        ExtendBetween(SpansUpTo(exprs, last), exprs, last);
      } else if Annotating(exprs, last).Some? {
        var k := Annotating(exprs, last).value;
        CommentsAddNothing(exprs, k, last);
        SpansAreIncreasing(exprs, k);
        OneSpan(exprs, k, last);
        AppendSpans(exprs, k, last, SpansUpTo(exprs, k), [Join(exprs[k].span, exprs[last].span)]);
      } else {
        SpansWithin(exprs, last);
        AppendSpans(exprs, last, last, SpansUpTo(exprs, last), SpansAt(exprs, last));
      }
    }
  }

  lemma OneSpan(exprs: seq<Expr>, k: nat, last: nat)
    requires k < last < |exprs| && WellNested(exprs)
    ensures var spans := [Join(exprs[k].span, exprs[last].span)];
            Increasing(spans) && Between(spans, exprs[k].span, exprs[last].span)
  {
    assert Precedes(exprs[k].span, exprs[last].span) && WellFormed(exprs[k].span) && WellFormed(exprs[last].span);
  }

  lemma {:induction false} CommentsAddNothing(exprs: seq<Expr>, k: nat, idx: nat)
    requires k <= idx <= |exprs| && forall j :: k <= j < idx ==> exprs[j].Comment?
    ensures SpansUpTo(exprs, idx) == SpansUpTo(exprs, k)
    decreases idx
  {
    if k < idx {
      CommentsAddNothing(exprs, k, idx - 1);
      assert SpansAt(exprs, idx - 1) == [];
    }
  }

  /** Nothing is collected before the first expression, and ends are passed on to later siblings. */
  lemma ExtendBetween(spans: seq<Span>, exprs: seq<Expr>, last: nat)
    requires last < |exprs| && WellNested(exprs)
    requires if last > 0 then Between(spans, exprs[0].span, exprs[last - 1].span) else spans == []
    ensures Between(spans, exprs[0].span, exprs[last].span)
  {
    if last > 0 {
      assert Precedes(exprs[last - 1].span, exprs[last].span) && WellFormed(exprs[last].span);
    }
  }

  /** Spans up to expression `k`, then spans that start no earlier than it and end no later than `last`. */
  lemma AppendSpans(exprs: seq<Expr>, k: nat, last: nat, spans: seq<Span>, more: seq<Span>)
    requires k <= last < |exprs| && WellNested(exprs)
    requires Increasing(spans) && (if k > 0 then Between(spans, exprs[0].span, exprs[k - 1].span) else spans == [])
    requires Increasing(more) && Between(more, exprs[k].span, exprs[last].span)
    ensures Increasing(spans + more) && Between(spans + more, exprs[0].span, exprs[last].span)
  {
    if k > 0 {
      assert Precedes(exprs[k - 1].span, exprs[k].span) && Precedes(exprs[0].span, exprs[k].span);
      assert Precedes(exprs[k - 1].span, exprs[last].span) && WellFormed(exprs[last].span) && WellFormed(exprs[k].span);
      assert WellFormed(exprs[0].span);
    }
  }

  /** What an expression that is not annotated gives stays within it. */
  lemma {:induction false} SpansWithin(exprs: seq<Expr>, idx: nat)
    requires idx < |exprs| && WellNested(exprs) && Annotating(exprs, idx).None?
    ensures Increasing(SpansAt(exprs, idx)) && Between(SpansAt(exprs, idx), exprs[idx].span, exprs[idx].span)
    decreases exprs, 0
  {
    if HasChildren(exprs[idx]) {
      var children := exprs[idx].children;
      SpansAreIncreasing(children, |children|);
      if children != [] {
        assert Within(children[0].span, exprs[idx].span) && Within(children[|children| - 1].span, exprs[idx].span);
      }
    }
  }

  // ---------------------------------------------------------------- lines

  function TrimCarriageReturn(line: string): string {
    if line != [] && line[|line| - 1] == '\r' then line[..|line| - 1] else line
  }

  /** The lines of a text: each ends at a line feed, or a carriage return and a line feed; the last one may be open. */
  function Lines(s: string): seq<string>
    decreases |s|
  {
    if s == [] then []
    else
      var end := Find(s, '\n');
      if end.None? then [s] else [TrimCarriageReturn(s[..end.value])] + Lines(s[end.value + 1..])
  }

  function JoinLines(lines: seq<string>): string {
    if lines == [] then [] else JoinLines(lines[..|lines| - 1]) + lines[|lines| - 1] + "\n"
  }

  lemma {:induction false} JoinLinesCons(lines: seq<string>)
    requires lines != []
    ensures JoinLines(lines) == lines[0] + "\n" + JoinLines(lines[1..])
  {
    if |lines| == 1 {
      assert lines[..0] == [] && lines[1..] == [];
    } else {
      var init, last := lines[..|lines| - 1], lines[|lines| - 1];
      JoinLinesCons(init);
      assert init[1..] == lines[1..][..|lines[1..]| - 1];
      Assoc(lines[0] + "\n", JoinLines(init[1..]), last);
      Assoc(lines[0] + "\n", JoinLines(init[1..]) + last, "\n");
    }
  }

  lemma {:induction false} LinesHaveNoLineFeed(s: string)
    ensures forall i :: 0 <= i < |Lines(s)| ==> '\n' !in Lines(s)[i]
    decreases |s|
  {
    if s != [] && Find(s, '\n').Some? {
      LinesHaveNoLineFeed(s[Find(s, '\n').value + 1..]);
    }
  }

  function TrimmedLines(lines: seq<string>): (trimmed: seq<string>)
    ensures |trimmed| == |lines|
    ensures forall i :: 0 <= i < |lines| ==> trimmed[i] == TrimCarriageReturn(lines[i])
  {
    seq(|lines|, i requires 0 <= i < |lines| => TrimCarriageReturn(lines[i]))
  }

  /** Joined lines split into the same lines again, less a carriage return at the end of a line. */
  lemma FirstLine(line: string, rest: string)
    requires '\n' !in line
    ensures Lines(line + "\n" + rest) == [TrimCarriageReturn(line)] + Lines(rest)
  {
    var s := line + "\n" + rest;
    Assoc(line, "\n", rest);
    FindInBoth(line, "\n" + rest, '\n');
    assert ("\n" + rest)[0] == '\n';
    assert Find(s, '\n') == Some(|line|);
    assert s[..|line|] == line && s[|line| + 1..] == rest;
  }

  lemma {:induction false} LinesOfJoined(lines: seq<string>)
    requires forall i :: 0 <= i < |lines| ==> '\n' !in lines[i]
    ensures Lines(JoinLines(lines)) == TrimmedLines(lines)
  {
    if lines != [] {
      JoinLinesCons(lines);
      FirstLine(lines[0], JoinLines(lines[1..]));
      LinesOfJoined(lines[1..]);
      TrimmedLinesCons(lines);
    }
  }

  lemma TrimmedLinesCons(lines: seq<string>)
    requires lines != []
    ensures TrimmedLines(lines) == [TrimCarriageReturn(lines[0])] + TrimmedLines(lines[1..])
  {
  }

  // ---------------------------------------------------------------- stripping

  /** Line `i`, counted from zero, lies under some span. */
  predicate Covered(spans: seq<Span>, i: nat) {
    exists k :: 0 <= k < |spans| && spans[k].startLine <= i + 1 <= spans[k].endLine
  }

  /** Every line under a span is blanked, every other one kept. */
  function Blanked(lines: seq<string>, spans: seq<Span>): (blanked: seq<string>)
    ensures |blanked| == |lines|
    ensures forall i :: 0 <= i < |lines| ==> blanked[i] == if Covered(spans, i) then "" else lines[i]
  {
    seq(|lines|, i requires 0 <= i < |lines| => if Covered(spans, i) then "" else lines[i])
  }

  /** The parser places expressions on the lines of the source. */
  predicate Placed(exprs: seq<Expr>, lineCount: nat)
    decreases exprs
  {
    && (forall i :: 0 <= i < |exprs| ==> 1 <= exprs[i].span.startLine && exprs[i].span.endLine <= lineCount)
    && (forall i :: 0 <= i < |exprs| && HasChildren(exprs[i]) ==> Placed(exprs[i].children, lineCount))
  }

  predicate OnLines(spans: seq<Span>, lineCount: nat) {
    forall k :: 0 <= k < |spans| ==> 1 <= spans[k].startLine && spans[k].endLine <= lineCount
  }

  lemma {:induction false} SpansArePlaced(exprs: seq<Expr>, idx: nat, lineCount: nat)
    requires idx <= |exprs| && Placed(exprs, lineCount)
    ensures OnLines(SpansUpTo(exprs, idx), lineCount)
    decreases exprs, idx
  {
    if idx > 0 {
      SpansArePlaced(exprs, idx - 1, lineCount);
      var expr := exprs[idx - 1];
      if HasChildren(expr) {
        SpansArePlaced(expr.children, |expr.children|, lineCount);
      }
      assert OnLines(SpansAt(exprs, idx - 1), lineCount);
    }
  }

  /** The spans of a source's annotated code. The expressions are what the parser makes of it, if it can. */
  method GetEnvSimnetSpans(source: string, parsed: Option<seq<Expr>>) returns (r: Result<seq<Span>, string>)
    ensures !MightCarryEnvAnnotation(source) ==> r == Success([])
    ensures MightCarryEnvAnnotation(source) && parsed.None? ==> r.Failure?
    ensures MightCarryEnvAnnotation(source) && parsed.Some? ==> r == Success(Spans(parsed.value))
  {
    if !MightCarryEnvAnnotation(source) {
      return Success([]);
    }
    if parsed.None? {
      return Failure("failed to parse pre_expressions from source");
    }
    var spans := CollectEnvSimnetSpans(parsed.value, []);
    assert [] + Spans(parsed.value) == Spans(parsed.value);
    r := Success(spans);
  }

  lemma JoinOneMore(lines: seq<string>, i: nat)
    requires i < |lines|
    ensures JoinLines(lines[..i + 1]) == JoinLines(lines[..i]) + lines[i] + "\n"
  {
    assert lines[..i + 1][..i] == lines[..i];
  }

  /** The source with its annotated code blanked out, if it has any. */
  method RemoveEnvSimnet(source: string, parsed: Option<seq<Expr>>) returns (r: Result<Option<string>, string>)
    requires parsed.Some? ==> Placed(parsed.value, |Lines(source)|)
    ensures r.Failure? <==> MightCarryEnvAnnotation(source) && parsed.None?
    ensures r.Success? ==>
              r.value == if MightCarryEnvAnnotation(source) && Spans(parsed.value) != []
                         then Some(JoinLines(Blanked(Lines(source), Spans(parsed.value)))) else None
  {
    var found := GetEnvSimnetSpans(source, parsed);
    if found.Failure? {
      return Failure(found.error);
    }
    var spans := found.value;
    if spans == [] {
      return Success(None);
    }
    SpansArePlaced(parsed.value, |parsed.value|, |Lines(source)|);
    var lines := Lines(source);
    var blank := BlankLines(lines, spans);
    var result := "";
    for i := 0 to |lines|
      invariant result == JoinLines(Blanked(lines, spans)[..i])
    {
      JoinOneMore(Blanked(lines, spans), i);
      if blank[i].Some? {
        result := result + blank[i].value;
      }
      result := result + "\n";
    }
    assert Blanked(lines, spans)[..|lines|] == Blanked(lines, spans);
    r := Success(Some(result));
  }

  /** `None` for every line under a span; the index into the lines is always in range. */
  method BlankLines(lines: seq<string>, spans: seq<Span>) returns (kept: seq<Option<string>>)
    requires OnLines(spans, |lines|)
    ensures |kept| == |lines|
    ensures forall i :: 0 <= i < |lines| ==> kept[i] == if Covered(spans, i) then None else Some(lines[i])
  {
    kept := seq(|lines|, i requires 0 <= i < |lines| => Some(lines[i]));
    for k := 0 to |spans|
      invariant |kept| == |lines|
      invariant forall i :: 0 <= i < |lines| ==> kept[i] == if Covered(spans[..k], i) then None else Some(lines[i])
    {
      var line := spans[k].startLine;
      while line <= spans[k].endLine
        invariant |kept| == |lines| && spans[k].startLine <= line
        invariant forall i :: 0 <= i < |lines| ==>
                    kept[i] == if Covered(spans[..k], i) ||
                        (spans[k].startLine <= i + 1 < line && i + 1 <= spans[k].endLine)
                               then None else Some(lines[i])
        decreases spans[k].endLine + 1 - line
      {
        kept := kept[line - 1 := None];
        line := line + 1;
      }
      CoveredBySome(spans, k);
    }
    assert spans[..|spans|] == spans;
  }

  lemma CoveredBySome(spans: seq<Span>, k: nat)
    requires k < |spans|
    ensures forall i: nat :: Covered(spans[..k + 1], i) <==>
              Covered(spans[..k], i) || spans[k].startLine <= i + 1 <= spans[k].endLine
  {
    forall i: nat ensures Covered(spans[..k + 1], i) <==>
        Covered(spans[..k], i) || spans[k].startLine <= i + 1 <= spans[k].endLine
    {
      if Covered(spans[..k], i) {
        var j :| 0 <= j < k && spans[..k][j].startLine <= i + 1 <= spans[..k][j].endLine;
        assert spans[..k + 1][j] == spans[..k][j];
      }
      if spans[k].startLine <= i + 1 <= spans[k].endLine {
        assert spans[..k + 1][k] == spans[k];
      }
      if Covered(spans[..k + 1], i) {
        var j :| 0 <= j < k + 1 && spans[..k + 1][j].startLine <= i + 1 <= spans[..k + 1][j].endLine;
        if j < k { assert spans[..k][j] == spans[j]; }
      }
    }
  }

  /** The stripped source has a line for every line of the source: blank under a span, else the same, except that
      a carriage return at its end, with one more in front of the line feed, is lost. */
  lemma StrippedLines(source: string, spans: seq<Span>)
    ensures var stripped, lines := Lines(JoinLines(Blanked(Lines(source), spans))), Lines(source);
            && |stripped| == |lines|
            && (forall i :: 0 <= i < |lines| && Covered(spans, i) ==> stripped[i] == "")
            && (forall i :: 0 <= i < |lines| && !Covered(spans, i) ==>
                  && stripped[i] == TrimCarriageReturn(lines[i])
                  && (stripped[i] == lines[i] <==> lines[i] == "" || lines[i][|lines[i]| - 1] != '\r'))
  {
    var blanked := Blanked(Lines(source), spans);
    LinesHaveNoLineFeed(source);
    LinesOfJoined(blanked);
  }

  ghost predicate OccursIn(text: string, source: string) {
    exists before, after :: source == before + text + after
  }

  /** The parser copies comments out of the source. */
  ghost predicate FromSource(exprs: seq<Expr>, source: string)
    decreases exprs
  {
    && (forall i :: 0 <= i < |exprs| && exprs[i].Comment? ==> OccursIn(exprs[i].text, source))
    && (forall i :: 0 <= i < |exprs| && HasChildren(exprs[i]) ==> FromSource(exprs[i].children, source))
  }

  /** Skipping the parser loses nothing: a source with a span to strip passes the test without parsing. */
  lemma {:induction false} SkippingLosesNothing(exprs: seq<Expr>, idx: nat, source: string)
    requires idx <= |exprs| && FromSource(exprs, source) && SpansUpTo(exprs, idx) != []
    ensures MightCarryEnvAnnotation(source)
    decreases exprs, idx
  {
    var expr := exprs[idx - 1];
    if SpansUpTo(exprs, idx - 1) != [] {
      SkippingLosesNothing(exprs, idx - 1, source);
    } else if Annotating(exprs, idx - 1).Some? {
      var comment := exprs[Annotating(exprs, idx - 1).value];
      var before, after :| source == before + comment.text + after;
      AnnotatedSourceIsNotSkipped(before, comment.text, after);
    } else {
      SkippingLosesNothing(expr.children, |expr.children|, source);
    }
  }

  // ---------------------------------------------------------------- which spans, and which lines

  /** Expression `k` is a comment that parses as the annotation, with no code before it on its line, and between it and
      `idx` there are only comments. */
  ghost predicate Announces(exprs: seq<Expr>, k: int, idx: int) {
    && 0 <= k < idx <= |exprs|
    && (forall j :: k <= j < idx ==> exprs[j].Comment?)
    && IsEnvAnnotation(exprs[k].text)
    && forall j :: 0 <= j < k && !exprs[j].Comment? ==> exprs[j].span.endLine != exprs[k].span.startLine
  }

  ghost predicate IsFirstToAnnounce(exprs: seq<Expr>, k: int, idx: int) {
    Announces(exprs, k, idx) && forall j :: 0 <= j < k ==> !Announces(exprs, j, idx)
  }

  ghost predicate NoneAnnounces(exprs: seq<Expr>, idx: int) {
    forall k :: !Announces(exprs, k, idx)
  }

  /** Some expression before `end` gives the span: code with such comments in front gives the one from the start of the
      first of them to its own end, and other lists and tuples give what is marked within; nothing else gives any. */
  ghost predicate IsMarked(exprs: seq<Expr>, end: nat, span: Span)
    requires end <= |exprs|
    decreases exprs, 1, end
  {
    end > 0 && (IsMarked(exprs, end - 1, span) || IsMarkedAt(exprs, end - 1, span))
  }

  ghost predicate IsMarkedAt(exprs: seq<Expr>, idx: nat, span: Span)
    requires idx < |exprs|
    decreases exprs, 0
  {
    !exprs[idx].Comment? &&
    ((exists k :: IsFirstToAnnounce(exprs, k, idx) &&
        span == Span(exprs[k].span.startLine, exprs[k].span.startColumn,
                     exprs[idx].span.endLine, exprs[idx].span.endColumn))
     || (NoneAnnounces(exprs, idx) && (exprs[idx].List? || exprs[idx].Tuple?)
         && IsMarked(exprs[idx].children, |exprs[idx].children|, span)))
  }

  lemma AnnouncesIff(exprs: seq<Expr>, k: int, idx: int)
    ensures Announces(exprs, k, idx) <==>
            && 0 <= k < idx <= |exprs| && IsAnnotation(exprs, k)
            && forall j :: k <= j < idx ==> exprs[j].Comment?
  {
    if 0 <= k < idx <= |exprs| && IsEndOfLine(exprs, k) {
      var j :| 0 <= j < k && IsCodeEndingOn(exprs[j], exprs[k].span.startLine);
      assert !exprs[j].Comment?;
    }
    if 0 <= k < idx <= |exprs| && !IsEndOfLine(exprs, k) {
      forall j | 0 <= j < k ensures !IsCodeEndingOn(exprs[j], exprs[k].span.startLine) {
      }
    }
  }

  lemma {:induction false} AnnotatingStays(exprs: seq<Expr>, idx: nat, later: nat)
    requires idx <= later <= |exprs| && forall j :: idx <= j < later ==> exprs[j].Comment?
    requires Annotating(exprs, idx).Some?
    ensures Annotating(exprs, later) == Annotating(exprs, idx)
    decreases later
  {
    if idx < later {
      AnnotatingStays(exprs, idx, later - 1);
    }
  }

  lemma AnnotatingLast(exprs: seq<Expr>, idx: nat, next: nat)
    requires idx < |exprs| && IsAnnotation(exprs, idx) && next == idx + 1
    ensures Annotating(exprs, next).Some?
  {
  }

  lemma AnnotatingIsFirst(exprs: seq<Expr>, idx: nat)
    requires idx <= |exprs|
    ensures match Annotating(exprs, idx)
            case Some(k) => IsFirstToAnnounce(exprs, k, idx)
            case None => NoneAnnounces(exprs, idx)
  {
    forall k | Announces(exprs, k, idx) ensures Annotating(exprs, idx).Some? && Annotating(exprs, idx).value <= k {
      AnnouncesIff(exprs, k, idx);
      AnnotatingLast(exprs, k, k + 1);
      AnnotatingStays(exprs, k + 1, idx);
    }
    if Annotating(exprs, idx).Some? {
      AnnouncesIff(exprs, Annotating(exprs, idx).value, idx);
    }
  }

  /** The spans collected are exactly those of marked code, at any depth. */
  lemma {:induction false} SpansAreMarked(exprs: seq<Expr>, end: nat, span: Span)
    requires end <= |exprs|
    ensures span in SpansUpTo(exprs, end) <==> IsMarked(exprs, end, span)
    decreases exprs, 1, end
  {
    if end > 0 {
      SpansAreMarked(exprs, end - 1, span);
      SpansAtAreMarked(exprs, end - 1, span);
    }
  }

  lemma {:induction false} SpansAtAreMarked(exprs: seq<Expr>, idx: nat, span: Span)
    requires idx < |exprs|
    ensures span in SpansAt(exprs, idx) <==> IsMarkedAt(exprs, idx, span)
    decreases exprs, 0
  {
    if exprs[idx].List? || exprs[idx].Tuple? {
      SpansAreMarked(exprs[idx].children, |exprs[idx].children|, span);
    }
    MarkedByKind(exprs, idx, span);
  }

  lemma MarkedByKind(exprs: seq<Expr>, idx: nat, span: Span)
    requires idx < |exprs|
    requires HasChildren(exprs[idx]) ==>
               (span in Spans(exprs[idx].children) <==>
                IsMarked(exprs[idx].children, |exprs[idx].children|, span))
    ensures span in SpansAt(exprs, idx) <==> IsMarkedAt(exprs, idx, span)
  {
    if !exprs[idx].Comment? {
      AnnotatingIsFirst(exprs, idx);
      var annotation := Annotating(exprs, idx);
      if annotation.Some? {
        OnlyFirst(exprs, annotation.value, idx);
      } else {
        NoFirst(exprs, idx);
      }
    }
  }

  lemma OnlyFirst(exprs: seq<Expr>, k: int, idx: int)
    requires IsFirstToAnnounce(exprs, k, idx)
    ensures !NoneAnnounces(exprs, idx) && forall j :: IsFirstToAnnounce(exprs, j, idx) <==> j == k
  {
    forall j | IsFirstToAnnounce(exprs, j, idx) ensures j == k {
      assert Announces(exprs, j, idx) && Announces(exprs, k, idx);
    }
  }

  lemma NoFirst(exprs: seq<Expr>, idx: int)
    requires NoneAnnounces(exprs, idx)
    ensures forall j :: !IsFirstToAnnounce(exprs, j, idx)
  {
  }

  /** Positions are ordered by line, and by column on one line. */
  lemma BeforeIsOrder(line: nat, column: nat, line': nat, column': nat)
    ensures line < line' ==> Before(line, column, line', column') && !Before(line', column', line, column)
    ensures line == line' ==> (Before(line, column, line', column') <==> column < column')
  {
  }

  /** Lines end at a line feed, with or without one carriage return in front, or at the end of the text. */
  lemma LinesAre(line: string, rest: string)
    requires '\n' !in line && (line == [] || line[|line| - 1] != '\r')
    ensures Lines(line + "\n" + rest) == [line] + Lines(rest)
    ensures Lines((line + "\r") + "\n" + rest) == [line] + Lines(rest)
    ensures Lines(line) == if line == [] then [] else [line]
  {
    FirstLine(line, rest);
    FirstLine(line + "\r", rest);
    assert (line + "\r")[..|line|] == line;
  }
}

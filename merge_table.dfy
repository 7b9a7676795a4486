/** Finding tables that a page break split in two, deciding whether the two halves sit one
    under the other or side by side, merging their markdown text and splicing the merged
    tables back into the document text (`merge_table.py`). */
module MergeTable {
  import opened Wrappers
  import opened PyStr
  import opened TableText

  // ---------------------------------------------------------------- the layout analysis

  /** A run of the document text: `offset` and `length` in characters. */
  datatype Span = Span(offset: int, length: int)

  /** Where a table sits on a page: a 1-based page number and the polygon
      `x0, y0, x1, y1, ...` of its corners, in page units. */
  datatype Region = Region(pageNumber: int, polygon: seq<real>)

  datatype CellKind = ContentCell | RowHeader | ColumnHeader | StubHead | Description

  datatype Cell = Cell(kind: CellKind, rowIndex: int, columnIndex: int, content: Option<string>)

  datatype Table = Table(rowCount: int, columnCount: int, cells: seq<Cell>, regions: seq<Region>, spans: seq<Span>)

  datatype Paragraph = Paragraph(role: Option<string>, spans: seq<Span>)

  /** A page's size; either may be missing. */
  datatype Page = Page(width: Option<real>, height: Option<real>)

  datatype AnalyzeResult = AnalyzeResult(content: string, tables: seq<Table>, paragraphs: seq<Paragraph>, pages: seq<Page>)

  /** `xs[i]` for an index Python accepts: a negative one counts from the end. */
  function At<T>(xs: seq<T>, i: int): T
    requires -|xs| <= i < |xs|
  {
    if i >= 0 then xs[i] else xs[|xs| + i]
  }

  // ---------------------------------------------------------------- span of a table

  /** The least span offset. */
  function MinOffset(spans: seq<Span>): (m: int)
    requires spans != []
    ensures forall k :: 0 <= k < |spans| ==> m <= spans[k].offset
    ensures exists k :: 0 <= k < |spans| && spans[k].offset == m
  {
    if |spans| == 1 then spans[0].offset
    else
      var init := spans[..|spans| - 1];
      var m := MinOffset(init);
      var last := spans[|spans| - 1];
      assert forall k :: 0 <= k < |init| ==> init[k] == spans[k];
      if last.offset < m then last.offset else m
  }

  /** The greatest span end, `offset + length`. */
  function MaxEnd(spans: seq<Span>): (m: int)
    requires spans != []
    ensures forall k :: 0 <= k < |spans| ==> spans[k].offset + spans[k].length <= m
    ensures exists k :: 0 <= k < |spans| && spans[k].offset + spans[k].length == m
  {
    if |spans| == 1 then spans[0].offset + spans[0].length
    else
      var init := spans[..|spans| - 1];
      var m := MaxEnd(init);
      var last := spans[|spans| - 1];
      assert forall k :: 0 <= k < |init| ==> init[k] == spans[k];
      if last.offset + last.length > m then last.offset + last.length else m
  }

  /** What `_get_table_span_offsets` returns: `(-1, -1)` without spans, otherwise the least
      offset and the greatest end. */
  function SpanOffsets(spans: seq<Span>): (int, int) {
    if spans == [] then (-1, -1) else (MinOffset(spans), MaxEnd(spans))
  }

  /** `_get_table_span_offsets`: the loop over the spans. */
  method TableSpanOffsets(table: Table) returns (minOffset: int, maxOffset: int)
    ensures (minOffset, maxOffset) == SpanOffsets(table.spans)
  {
    var spans := table.spans;
    if spans == [] {
      return -1, -1;
    }
    minOffset := spans[0].offset;
    maxOffset := spans[0].offset + spans[0].length;
    var i := 0;
    while i < |spans|
      invariant 0 <= i <= |spans|
      invariant minOffset == MinOffset(spans[..if i == 0 then 1 else i])
      invariant maxOffset == MaxEnd(spans[..if i == 0 then 1 else i])
    {
      var span := spans[i];
      if i > 0 {
        assert spans[..i + 1][..i] == spans[..i];
      }
      if span.offset < minOffset {
        minOffset := span.offset;
      }
      if span.offset + span.length > maxOffset {
        maxOffset := span.offset + span.length;
      }
      i := i + 1;
    }
    assert spans[..i] == spans;
  }

  // ---------------------------------------------------------------- candidates

  /** An entry of the integral-span list: the table's position and its offsets, `-1` for a
      table without spans. */
  datatype IntegralSpan = IntegralSpan(idx: int, minOffset: int, maxOffset: int)

  /** A pair of tables on consecutive pages: the earlier table's position, the text between
      them (`start` to `end`) and the later table's offsets. */
  datatype Candidate = Candidate(preTableIdx: int, start: int, end: int, minOffset: int, maxOffset: int)

  /** What the scan remembers of the last table with spans. */
  datatype ScanState = ScanState(preTableIdx: int, prePage: int, preMaxOffset: int)

  const ScanStart := ScanState(-1, -1, 0)

  /** The Python exceptions the merge pass can raise: `min()` over a table with spans but
      no bounding region, a list index out of range, a division by a page width of `None`
      and a division by a zero page width. */
  datatype Raised = EmptyMinArg | IndexOutOfRange | DivisionByNone | DivisionByZero

  /** The message Python gives each of them. */
  function Message(e: Raised): string {
    match e
    case EmptyMinArg => "min() arg is an empty sequence"
    case IndexOutOfRange => "list index out of range"
    case DivisionByNone => "unsupported operand type(s) for /: 'float' and 'NoneType'"
    case DivisionByZero => "float division by zero"
  }

  /** The outcome of a step of the pass: a value, or the exception it raises. */
  datatype Outcome<+T> = Value(value: T) | Raises(error: Raised)

  predicate Spanned(offsets: (int, int)) {
    offsets.0 > -1 && offsets.1 > -1
  }

  /** The integral-span entry of table `idx`. */
  function IntegralOf(idx: int, table: Table): IntegralSpan {
    var offsets := SpanOffsets(table.spans);
    if Spanned(offsets) then IntegralSpan(idx, offsets.0, offsets.1) else IntegralSpan(idx, -1, -1)
  }

  /** The lowest page number of the regions. */
  function MinPage(regions: seq<Region>): (p: int)
    requires regions != []
    ensures forall k :: 0 <= k < |regions| ==> p <= regions[k].pageNumber
    ensures exists k :: 0 <= k < |regions| && regions[k].pageNumber == p
  {
    if |regions| == 1 then regions[0].pageNumber
    else
      var p := MinPage(regions[1..]);
      assert forall k :: 1 <= k < |regions| ==> regions[1..][k - 1] == regions[k];
      if regions[0].pageNumber < p then regions[0].pageNumber else p
  }

  /** Lists put in front of the lists of a result; an error stays an error. */
  function Prepend(cands: seq<Candidate>, spans: seq<IntegralSpan>, r: Outcome<(seq<Candidate>, seq<IntegralSpan>)>)
    : Outcome<(seq<Candidate>, seq<IntegralSpan>)>
  {
    if r.Raises? then r else Value((cands + r.value.0, spans + r.value.1))
  }

  /** The candidates and integral spans found from table `i` on, in state `st`. */
  function ScanFrom(tables: seq<Table>, i: nat, st: ScanState): Outcome<(seq<Candidate>, seq<IntegralSpan>)>
    requires i <= |tables|
    decreases |tables| - i
  {
    if i == |tables| then Value(([], []))
    else
      var offsets := SpanOffsets(tables[i].spans);
      if Spanned(offsets) then
        if tables[i].regions == [] then Raises(EmptyMinArg)
        else
          var page := MinPage(tables[i].regions);
          var found := if page == st.prePage + 1 then [Candidate(st.preTableIdx, st.preMaxOffset, offsets.0, offsets.0, offsets.1)] else [];
          Prepend(found, [IntegralSpan(i, offsets.0, offsets.1)], ScanFrom(tables, i + 1, ScanState(i, page, offsets.1)))
      else
        Prepend([], [IntegralSpan(i, -1, -1)], ScanFrom(tables, i + 1, st))
  }

  /** What `_get_merge_table_candidates_and_table_integral_span` returns. */
  function ScanTables(tables: seq<Table>): Outcome<(seq<Candidate>, seq<IntegralSpan>)> {
    ScanFrom(tables, 0, ScanStart)
  }

  lemma PrependTwice(c1: seq<Candidate>, s1: seq<IntegralSpan>, c2: seq<Candidate>, s2: seq<IntegralSpan>,
                     r: Outcome<(seq<Candidate>, seq<IntegralSpan>)>)
    ensures Prepend(c1, s1, Prepend(c2, s2, r)) == Prepend(c1 + c2, s1 + s2, r)
  {
    if r.Value? {
      assert c1 + (c2 + r.value.0) == c1 + c2 + r.value.0;
      assert s1 + (s2 + r.value.1) == s1 + s2 + r.value.1;
    }
  }

  lemma PrependNothing(r: Outcome<(seq<Candidate>, seq<IntegralSpan>)>)
    ensures Prepend([], [], r) == r
  {
    if r.Value? {
      assert [] + r.value.0 == r.value.0 && [] + r.value.1 == r.value.1;
    }
  }

  /** `_get_merge_table_candidates_and_table_integral_span`: one pass over the tables. */
  method MergeCandidatesAndIntegralSpans(tables: seq<Table>) returns (r: Outcome<(seq<Candidate>, seq<IntegralSpan>)>)
    ensures r == ScanTables(tables)
  {
    var candidates: seq<Candidate> := [];
    var integralSpans: seq<IntegralSpan> := [];
    var preTableIdx, prePage, preMaxOffset := -1, -1, 0;
    var i := 0;
    PrependNothing(ScanTables(tables));
    while i < |tables|
      invariant 0 <= i <= |tables|
      invariant ScanTables(tables)
        == Prepend(candidates, integralSpans, ScanFrom(tables, i, ScanState(preTableIdx, prePage, preMaxOffset)))
    {
      var table := tables[i];
      var minOffset, maxOffset := TableSpanOffsets(table);
      if minOffset > -1 && maxOffset > -1 {
        if table.regions == [] {
          return Raises(EmptyMinArg);
        }
        var tablePage := MinPage(table.regions);
        var found := [];
        if tablePage == prePage + 1 {
          found := [Candidate(preTableIdx, preMaxOffset, minOffset, minOffset, maxOffset)];
        }
        PrependTwice(candidates, integralSpans, found, [IntegralSpan(i, minOffset, maxOffset)],
          ScanFrom(tables, i + 1, ScanState(i, tablePage, maxOffset)));
        candidates := candidates + found;
        integralSpans := integralSpans + [IntegralSpan(i, minOffset, maxOffset)];
        preTableIdx, prePage, preMaxOffset := i, tablePage, maxOffset;
      } else {
        PrependTwice(candidates, integralSpans, [], [IntegralSpan(i, -1, -1)],
          ScanFrom(tables, i + 1, ScanState(preTableIdx, prePage, preMaxOffset)));
        assert candidates + [] == candidates;
        integralSpans := integralSpans + [IntegralSpan(i, -1, -1)];
      }
      i := i + 1;
    }
    assert candidates + [] == candidates && integralSpans + [] == integralSpans;
    return Value((candidates, integralSpans));
  }

  // ---------------------------------------------------------------- what the scan finds

  /** The integral-span list has one entry per table, in order, with the table's own
      position and its offsets, or `-1` for a table without spans. */
  lemma {:induction false} ScanIntegralSpans(tables: seq<Table>, i: nat, st: ScanState)
    requires i <= |tables|
    ensures var r := ScanFrom(tables, i, st);
      r.Value? ==> |r.value.1| == |tables| - i &&
                   forall k :: 0 <= k < |r.value.1| ==> r.value.1[k] == IntegralOf(i + k, tables[i + k])
    decreases |tables| - i
  {
    if i < |tables| {
      var offsets := SpanOffsets(tables[i].spans);
      if Spanned(offsets) && tables[i].regions != [] {
        var page := MinPage(tables[i].regions);
        ScanIntegralSpans(tables, i + 1, ScanState(i, page, offsets.1));
      } else if !Spanned(offsets) {
        ScanIntegralSpans(tables, i + 1, st);
      }
    }
  }

  /** `pre_max_offset` for a previous table: 0 before any table with spans. */
  function PreMaxOffset(tables: seq<Table>, pre: int): int
    requires -1 <= pre < |tables|
  {
    if pre == -1 then 0 else IntegralOf(pre, tables[pre]).maxOffset
  }

  /** `pre_page` for a previous table: -1 before any table with spans. */
  function PrevPage(tables: seq<Table>, pre: int): int
    requires -1 <= pre < |tables|
  {
    if pre == -1 || tables[pre].regions == [] then -1 else MinPage(tables[pre].regions)
  }

  predicate NoSpansBetween(tables: seq<Table>, lo: int, hi: int)
    requires hi <= |tables|
  {
    forall m :: lo < m < hi && 0 <= m ==> !Spanned(SpanOffsets(tables[m].spans))
  }

  /** The scan state after the tables before `i`: the last table with spans, or none. */
  predicate ValidState(tables: seq<Table>, i: nat, st: ScanState)
    requires i <= |tables|
  {
    -1 <= st.preTableIdx < i &&
    st.preMaxOffset == PreMaxOffset(tables, st.preTableIdx) &&
    st.prePage == PrevPage(tables, st.preTableIdx) &&
    (st.preTableIdx >= 0 ==> Spanned(SpanOffsets(tables[st.preTableIdx].spans))) &&
    NoSpansBetween(tables, st.preTableIdx, i)
  }

  /** A candidate names the last table with spans before some later table `j` with spans
      (or `-1` when there is none), the text between them, and `j`'s offsets. The tables
      strictly between the two have no spans: `j` is `preTableIdx + 1` only when there are
      none of those. The least page of `j` is one more than that of the earlier table (than
      -1 when there is none). */
  predicate CandidateFits(tables: seq<Table>, c: Candidate) {
    -1 <= c.preTableIdx < |tables| &&
    c.start == PreMaxOffset(tables, c.preTableIdx) && c.end == c.minOffset &&
    (c.preTableIdx >= 0 ==> Spanned(SpanOffsets(tables[c.preTableIdx].spans))) &&
    exists j :: c.preTableIdx < j < |tables| && NextSpanned(tables, c, j)
  }

  predicate NextSpanned(tables: seq<Table>, c: Candidate, j: int)
    requires -1 <= c.preTableIdx < j < |tables|
  {
    Spanned(SpanOffsets(tables[j].spans)) &&
    IntegralOf(j, tables[j]) == IntegralSpan(j, c.minOffset, c.maxOffset) &&
    NoSpansBetween(tables, c.preTableIdx, j) &&
    tables[j].regions != [] && MinPage(tables[j].regions) == PrevPage(tables, c.preTableIdx) + 1
  }

  lemma {:induction false} ScanCandidatesFrom(tables: seq<Table>, i: nat, st: ScanState)
    requires i <= |tables| && ValidState(tables, i, st)
    ensures var r := ScanFrom(tables, i, st);
      r.Value? ==> AllFit(tables, r.value.0)
    decreases |tables| - i, 1
  {
    if i < |tables| {
      if !Spanned(SpanOffsets(tables[i].spans)) {
        BareKeepsState(tables, i, st);
        ScanCandidatesFrom(tables, i + 1, st);
        ScanBareFits(tables, i, st);
      } else if tables[i].regions != [] {
        ScanCandidatesPast(tables, i, st);
      }
    }
  }

  /** A table without spans leaves the scan state as it is. */
  lemma BareKeepsState(tables: seq<Table>, i: nat, st: ScanState)
    requires i < |tables| && ValidState(tables, i, st) && !Spanned(SpanOffsets(tables[i].spans))
    ensures ValidState(tables, i + 1, st)
  {
  }

  /** A table without spans adds no candidate. */
  lemma ScanBareFits(tables: seq<Table>, i: nat, st: ScanState)
    requires i < |tables| && !Spanned(SpanOffsets(tables[i].spans))
    requires var rest := ScanFrom(tables, i + 1, st); rest.Value? ==> AllFit(tables, rest.value.0)
    ensures var r := ScanFrom(tables, i, st); r.Value? ==> AllFit(tables, r.value.0)
  {
    assert ScanFrom(tables, i, st) == Prepend([], [IntegralSpan(i, -1, -1)], ScanFrom(tables, i + 1, st));
    PrependFits(tables, [], [IntegralSpan(i, -1, -1)], ScanFrom(tables, i + 1, st));
  }

  /** Past a table with spans: its candidate, if any, fits, and so do the later ones. */
  lemma {:induction false} ScanCandidatesPast(tables: seq<Table>, i: nat, st: ScanState)
    requires i < |tables| && ValidState(tables, i, st)
    requires Spanned(SpanOffsets(tables[i].spans)) && tables[i].regions != []
    ensures var r := ScanFrom(tables, i, st);
      r.Value? ==> AllFit(tables, r.value.0)
    decreases |tables| - i, 0
  {
    var next := ScanState(i, MinPage(tables[i].regions), SpanOffsets(tables[i].spans).1);
    SpannedMovesState(tables, i, st);
    ScanCandidatesFrom(tables, i + 1, next);
    ScanSpannedFits(tables, i, st);
  }

  /** A table with spans and regions becomes the previous table of the scan. */
  lemma SpannedMovesState(tables: seq<Table>, i: nat, st: ScanState)
    requires i < |tables| && ValidState(tables, i, st)
    requires Spanned(SpanOffsets(tables[i].spans)) && tables[i].regions != []
    ensures ValidState(tables, i + 1, ScanState(i, MinPage(tables[i].regions), SpanOffsets(tables[i].spans).1))
  {
  }

  /** At a table with spans and regions, the candidate emitted (if any) fits, given that the later ones do. */
  lemma ScanSpannedFits(tables: seq<Table>, i: nat, st: ScanState)
    requires i < |tables| && ValidState(tables, i, st)
    requires Spanned(SpanOffsets(tables[i].spans)) && tables[i].regions != []
    requires var rest := ScanFrom(tables, i + 1, ScanState(i, MinPage(tables[i].regions), SpanOffsets(tables[i].spans).1));
      rest.Value? ==> AllFit(tables, rest.value.0)
    ensures var r := ScanFrom(tables, i, st); r.Value? ==> AllFit(tables, r.value.0)
  {
    var offsets := SpanOffsets(tables[i].spans);
    var page := MinPage(tables[i].regions);
    var c := Candidate(st.preTableIdx, st.preMaxOffset, offsets.0, offsets.0, offsets.1);
    var next := ScanState(i, page, offsets.1);
    var found := if page == st.prePage + 1 then [c] else [];
    CandidateHereFits(tables, i, st);
    assert ScanFrom(tables, i, st) == Prepend(found, [IntegralSpan(i, offsets.0, offsets.1)], ScanFrom(tables, i + 1, next));
    assert AllFit(tables, found);
    PrependFits(tables, found, [IntegralSpan(i, offsets.0, offsets.1)], ScanFrom(tables, i + 1, next));
  }

  /** The candidate the scan emits at a table with spans fits, when the pages follow. */
  lemma CandidateHereFits(tables: seq<Table>, i: nat, st: ScanState)
    requires i < |tables| && ValidState(tables, i, st)
    requires Spanned(SpanOffsets(tables[i].spans)) && tables[i].regions != []
    ensures var offsets := SpanOffsets(tables[i].spans);
      MinPage(tables[i].regions) == st.prePage + 1 ==>
        CandidateFits(tables, Candidate(st.preTableIdx, st.preMaxOffset, offsets.0, offsets.0, offsets.1))
  {
    var offsets := SpanOffsets(tables[i].spans);
    var c := Candidate(st.preTableIdx, st.preMaxOffset, offsets.0, offsets.0, offsets.1);
    if MinPage(tables[i].regions) == st.prePage + 1 {
      assert NextSpanned(tables, c, i);
    }
  }

  predicate AllFit(tables: seq<Table>, cs: seq<Candidate>) {
    forall k :: 0 <= k < |cs| ==> CandidateFits(tables, cs[k])
  }

  lemma PrependFits(tables: seq<Table>, cs: seq<Candidate>, spans: seq<IntegralSpan>, r: Outcome<(seq<Candidate>, seq<IntegralSpan>)>)
    requires AllFit(tables, cs) && (r.Value? ==> AllFit(tables, r.value.0))
    ensures var p := Prepend(cs, spans, r); p.Value? ==> AllFit(tables, p.value.0)
  {
    if r.Value? {
      var all := cs + r.value.0;
      forall k | 0 <= k < |all| ensures CandidateFits(tables, all[k]) {
        if k < |cs| { assert all[k] == cs[k]; } else { assert all[k] == r.value.0[k - |cs|]; }
      }
    }
  }

  /** Every candidate fits: see `CandidateFits`. */
  lemma ScanCandidates(tables: seq<Table>)
    ensures var r := ScanTables(tables); r.Value? ==> AllFit(tables, r.value.0)
  {
    ScanCandidatesFrom(tables, 0, ScanStart);
  }

  /** Table `j` has spans and its least page is one more than that of table `pre`, the
      last table with spans before it (than -1 when `pre` is -1, there being none). */
  predicate PairOnNextPage(tables: seq<Table>, pre: int, j: int) {
    -1 <= pre < j < |tables| &&
    (pre >= 0 ==> Spanned(SpanOffsets(tables[pre].spans))) &&
    NoSpansBetween(tables, pre, j) &&
    Spanned(SpanOffsets(tables[j].spans)) && tables[j].regions != [] &&
    MinPage(tables[j].regions) == PrevPage(tables, pre) + 1
  }

  /** Conversely, two tables with spans, with none between them, the later one's least
      page one more than the earlier one's (page 0 with no earlier one), make a candidate. */
  lemma ScanFindsPairs(tables: seq<Table>, pre: int, j: int)
    requires PairOnNextPage(tables, pre, j)
    ensures var r := ScanTables(tables); var m := SpanOffsets(tables[j].spans);
      r.Value? ==> Candidate(pre, PreMaxOffset(tables, pre), m.0, m.0, m.1) in r.value.0
  {
    ScanFindsPairsFrom(tables, 0, ScanStart, pre, j);
  }

  lemma {:induction false} ScanFindsPairsFrom(tables: seq<Table>, i: nat, st: ScanState, pre: int, j: int)
    requires i <= j < |tables| && ValidState(tables, i, st) && PairOnNextPage(tables, pre, j)
    ensures var r := ScanFrom(tables, i, st); var m := SpanOffsets(tables[j].spans);
      r.Value? ==> Candidate(pre, PreMaxOffset(tables, pre), m.0, m.0, m.1) in r.value.0
    decreases j - i, 1
  {
    if i == j {
      SamePrevious(tables, i, st, pre);
      ScanFindsPairHere(tables, i, st);
    } else if !Spanned(SpanOffsets(tables[i].spans)) {
      var m := SpanOffsets(tables[j].spans);
      ScanStepBare(tables, i, st, Candidate(pre, PreMaxOffset(tables, pre), m.0, m.0, m.1));
      ScanFindsPairsFrom(tables, i + 1, st, pre, j);
    } else if tables[i].regions != [] {
      ScanFindsPairsPast(tables, i, st, pre, j);
    } else {
      assert ScanFrom(tables, i, st) == Raises(EmptyMinArg);
    }
  }

  /** Past a table with spans before the pair's later table. */
  lemma {:induction false} ScanFindsPairsPast(tables: seq<Table>, i: nat, st: ScanState, pre: int, j: int)
    requires i < j < |tables| && ValidState(tables, i, st) && PairOnNextPage(tables, pre, j)
    requires Spanned(SpanOffsets(tables[i].spans)) && tables[i].regions != []
    ensures var r := ScanFrom(tables, i, st); var m := SpanOffsets(tables[j].spans);
      r.Value? ==> Candidate(pre, PreMaxOffset(tables, pre), m.0, m.0, m.1) in r.value.0
    decreases j - i, 0
  {
    var m := SpanOffsets(tables[j].spans);
    var next := ScanState(i, MinPage(tables[i].regions), SpanOffsets(tables[i].spans).1);
    ScanStepSpanned(tables, i, st, Candidate(pre, PreMaxOffset(tables, pre), m.0, m.0, m.1));
    ScanFindsPairsFrom(tables, i + 1, next, pre, j);
  }

  /** At a table with spans on the page after the previous one's, the scan emits the
      candidate for the two. */
  lemma ScanFindsPairHere(tables: seq<Table>, i: nat, st: ScanState)
    requires i < |tables| && ValidState(tables, i, st)
    requires Spanned(SpanOffsets(tables[i].spans)) && tables[i].regions != []
    requires MinPage(tables[i].regions) == PrevPage(tables, st.preTableIdx) + 1
    ensures var r := ScanFrom(tables, i, st); var m := SpanOffsets(tables[i].spans);
      r.Value? ==> Candidate(st.preTableIdx, PreMaxOffset(tables, st.preTableIdx), m.0, m.0, m.1) in r.value.0
  {
    var offsets := SpanOffsets(tables[i].spans);
    var c := Candidate(st.preTableIdx, st.preMaxOffset, offsets.0, offsets.0, offsets.1);
    var rest := ScanFrom(tables, i + 1, ScanState(i, MinPage(tables[i].regions), offsets.1));
    assert ScanFrom(tables, i, st) == Prepend([c], [IntegralSpan(i, offsets.0, offsets.1)], rest);
    if rest.Value? {
      assert ([c] + rest.value.0)[0] == c;
    }
  }

  /** Past a table with spans, the scan keeps what it finds later, in the next state. */
  lemma ScanStepSpanned(tables: seq<Table>, i: nat, st: ScanState, c: Candidate)
    requires i < |tables| && ValidState(tables, i, st)
    requires Spanned(SpanOffsets(tables[i].spans)) && tables[i].regions != []
    ensures var offsets := SpanOffsets(tables[i].spans);
      var next := ScanState(i, MinPage(tables[i].regions), offsets.1);
      var r, rest := ScanFrom(tables, i, st), ScanFrom(tables, i + 1, next);
      ValidState(tables, i + 1, next) &&
      (r.Value? ==> rest.Value? && (c in rest.value.0 ==> c in r.value.0))
  {
    var offsets := SpanOffsets(tables[i].spans);
    var page := MinPage(tables[i].regions);
    var next := ScanState(i, page, offsets.1);
    var found := if page == st.prePage + 1 then [Candidate(st.preTableIdx, st.preMaxOffset, offsets.0, offsets.0, offsets.1)] else [];
    assert ValidState(tables, i + 1, next);
    PrependKeeps(found, [IntegralSpan(i, offsets.0, offsets.1)], ScanFrom(tables, i + 1, next), c);
  }

  /** Past a table without spans, the scan keeps what it finds later, in the same state. */
  lemma ScanStepBare(tables: seq<Table>, i: nat, st: ScanState, c: Candidate)
    requires i < |tables| && ValidState(tables, i, st)
    requires !Spanned(SpanOffsets(tables[i].spans))
    ensures var r, rest := ScanFrom(tables, i, st), ScanFrom(tables, i + 1, st);
      ValidState(tables, i + 1, st) &&
      (r.Value? ==> rest.Value? && (c in rest.value.0 ==> c in r.value.0))
  {
    assert ValidState(tables, i + 1, st);
    PrependKeeps([], [IntegralSpan(i, -1, -1)], ScanFrom(tables, i + 1, st), c);
  }

  /** At the later table of a pair, the scan's previous table is the pair's earlier one. */
  lemma SamePrevious(tables: seq<Table>, i: nat, st: ScanState, pre: int)
    requires i < |tables| && ValidState(tables, i, st)
    requires -1 <= pre < i && (pre >= 0 ==> Spanned(SpanOffsets(tables[pre].spans)))
    requires NoSpansBetween(tables, pre, i)
    ensures st.preTableIdx == pre
  {
  }

  /** Prepending keeps an error an error and every candidate of a result. */
  lemma PrependKeeps(cs: seq<Candidate>, spans: seq<IntegralSpan>, r: Outcome<(seq<Candidate>, seq<IntegralSpan>)>, c: Candidate)
    ensures var p := Prepend(cs, spans, r); p.Value? ==> r.Value? && (c in r.value.0 ==> c in p.value.0)
  {
  }

  /** When every table has spans the candidate's later table is `preTableIdx + 1`, as
      `merge_tables` assumes. */
  lemma CandidateSuccessor(tables: seq<Table>, c: Candidate)
    requires CandidateFits(tables, c)
    requires forall m :: 0 <= m < |tables| ==> Spanned(SpanOffsets(tables[m].spans))
    ensures c.preTableIdx + 1 < |tables| && IntegralOf(c.preTableIdx + 1, tables[c.preTableIdx + 1]).minOffset == c.minOffset
  {
    var j :| c.preTableIdx < j < |tables| && NextSpanned(tables, c, j);
    assert Spanned(SpanOffsets(tables[c.preTableIdx + 1].spans));
  }

  // ---------------------------------------------------------------- paragraphs between two tables

  /** Roles of paragraphs that do not keep two tables apart. */
  const PageFurnitureRoles: set<string> := {"pageHeader", "pageFooter", "pageNumber"}

  predicate BlockingRole(role: Option<string>) {
    role.Some? && role.value !in PageFurnitureRoles
  }

  /** Some paragraph with a role other than page furniture has a span starting strictly
      between `start` and `end`. */
  predicate ParagraphPresent(paragraphs: seq<Paragraph>, start: int, end: int) {
    exists p, s :: 0 <= p < |paragraphs| && 0 <= s < |paragraphs[p].spans| &&
      start < paragraphs[p].spans[s].offset < end && BlockingRole(paragraphs[p].role)
  }

  method CheckParagraphPresence(paragraphs: seq<Paragraph>, start: int, end: int) returns (present: bool)
    ensures present <==> ParagraphPresent(paragraphs, start, end)
  {
    for p := 0 to |paragraphs|
      invariant forall q, s :: 0 <= q < p && 0 <= s < |paragraphs[q].spans| ==>
        !(start < paragraphs[q].spans[s].offset < end && BlockingRole(paragraphs[q].role))
    {
      var spans := paragraphs[p].spans;
      for s := 0 to |spans|
        invariant forall t :: 0 <= t < s ==> !(start < spans[t].offset < end && BlockingRole(paragraphs[p].role))
      {
        if start < spans[s].offset < end {
          if BlockingRole(paragraphs[p].role) {
            return true;
          }
        }
      }
    }
    return false;
  }

  // ---------------------------------------------------------------- column headers

  function HeaderCells(cells: seq<Cell>): (hs: seq<Cell>)
    ensures forall k :: 0 <= k < |hs| ==> hs[k].kind == ColumnHeader
    ensures multiset(hs) <= multiset(cells)
  {
    if cells == [] then []
    else
      var rest := HeaderCells(cells[1..]);
      assert cells == [cells[0]] + cells[1..];
      if cells[0].kind == ColumnHeader then [cells[0]] + rest else rest
  }

  /** Every column-header cell is kept: there are header cells exactly when the table
      has one. */
  lemma {:induction false} HeaderCellsKeep(cells: seq<Cell>, k: nat)
    requires k < |cells| && cells[k].kind == ColumnHeader
    ensures cells[k] in HeaderCells(cells)
  {
    if k > 0 {
      HeaderCellsKeep(cells[1..], k - 1);
    }
  }

  /** The sort key `(row_index, column_index)`, compared lexicographically. */
  predicate KeyLe(a: Cell, b: Cell) {
    a.rowIndex < b.rowIndex || (a.rowIndex == b.rowIndex && a.columnIndex <= b.columnIndex)
  }

  predicate SortedByKey(cs: seq<Cell>) {
    forall i, j :: 0 <= i < j < |cs| ==> KeyLe(cs[i], cs[j])
  }

  /** `c` put before the first cell whose key is not below its own. */
  function InsertByKey(c: Cell, cs: seq<Cell>): (r: seq<Cell>)
    requires SortedByKey(cs)
    ensures SortedByKey(r)
    ensures multiset(r) == multiset(cs) + multiset{c}
    ensures r[0] == c || (cs != [] && r[0] == cs[0])
  {
    if cs == [] || KeyLe(c, cs[0]) then [c] + cs
    else
      var rest := InsertByKey(c, cs[1..]);
      assert cs == [cs[0]] + cs[1..];
      SortedCons(cs[0], rest);
      [cs[0]] + rest
  }

  lemma SortedCons(c: Cell, cs: seq<Cell>)
    requires SortedByKey(cs) && (cs == [] || KeyLe(c, cs[0]))
    ensures SortedByKey([c] + cs)
  {
  }

  /** Python's `sorted` by key: an insertion sort that keeps cells with equal keys in
      their order. */
  function SortByKey(cs: seq<Cell>): (r: seq<Cell>)
    ensures SortedByKey(r)
    ensures multiset(r) == multiset(cs)
  {
    if cs == [] then []
    else
      assert cs == [cs[0]] + cs[1..];
      InsertByKey(cs[0], SortByKey(cs[1..]))
  }

  function NormalizedAll(cs: seq<Cell>): (texts: seq<string>)
    ensures |texts| == |cs|
    ensures forall k :: 0 <= k < |cs| ==> texts[k] == NormalizeCellText(cs[k].content)
  {
    if cs == [] then [] else [NormalizeCellText(cs[0].content)] + NormalizedAll(cs[1..])
  }

  /** The normalised texts of the table's column-header cells, by row and then column. */
  function Headers(table: Table): seq<string> {
    NormalizedAll(SortByKey(HeaderCells(table.cells)))
  }

  /** `get_headers`: the sorted header cells, then one normalised text per cell. */
  method GetHeaders(table: Table) returns (headers: seq<string>)
    ensures headers == Headers(table)
  {
    var sorted := SortByKey(HeaderCells(table.cells));
    headers := NormalizeEach(sorted);
  }

  method NormalizeEach(cells: seq<Cell>) returns (texts: seq<string>)
    ensures texts == NormalizedAll(cells)
  {
    texts := [];
    for k := 0 to |cells|
      invariant texts == NormalizedAll(cells[..k])
    {
      NormalizedNext(cells, k);
      texts := texts + [NormalizeCellText(cells[k].content)];
    }
    assert cells[..|cells|] == cells;
  }

  lemma NormalizedNext(cells: seq<Cell>, k: nat)
    requires k < |cells|
    ensures NormalizedAll(cells[..k + 1]) == NormalizedAll(cells[..k]) + [NormalizeCellText(cells[k].content)]
  {
    var a, b := NormalizedAll(cells[..k + 1]), NormalizedAll(cells[..k]);
    forall j | 0 <= j < k ensures a[j] == b[j] {
      assert cells[..k + 1][j] == cells[..k][j];
    }
    assert cells[..k + 1][k] == cells[k];
    SnocByElements(a, b, NormalizeCellText(cells[k].content));
  }

  /** A list one longer than `b` that agrees with `b` and ends in `x` is `b + [x]`. */
  lemma SnocByElements(a: seq<string>, b: seq<string>, x: string)
    requires |a| == |b| + 1 && a[|b|] == x && forall j :: 0 <= j < |b| ==> a[j] == b[j]
    ensures a == b + [x]
  {
  }

  /** Two tables have the same header row: the same normalised header texts, and at
      least one. */
  predicate TableHeadersEqual(t1: Table, t2: Table) {
    Headers(t1) == Headers(t2) && |Headers(t1)| > 0
  }

  method AreTableHeadersEqual(t1: Table, t2: Table) returns (equal: bool)
    ensures equal == TableHeadersEqual(t1, t2)
  {
    var h1 := GetHeaders(t1);
    var h2 := GetHeaders(t2);
    equal := h1 == h2 && |h1| > 0;
  }

  /** Each header is the normalised text of a column-header cell, in key order, and every
      column-header cell gives one. */
  lemma HeadersMeaning(table: Table)
    ensures var sorted := SortByKey(HeaderCells(table.cells));
      |Headers(table)| == |sorted| && SortedByKey(sorted) &&
      multiset(sorted) == multiset(HeaderCells(table.cells)) &&
      forall k :: 0 <= k < |sorted| ==> sorted[k].kind == ColumnHeader && Headers(table)[k] == NormalizeCellText(sorted[k].content)
  {
    var hs := HeaderCells(table.cells);
    var sorted := SortByKey(hs);
    forall k | 0 <= k < |sorted| ensures sorted[k].kind == ColumnHeader {
      assert sorted[k] in multiset(hs);
    }
  }

  /** A table matches its own header row exactly when it has a column-header cell; the
      relation is symmetric. */
  lemma HeadersEqualSelf(t: Table)
    ensures TableHeadersEqual(t, t) <==> exists k :: 0 <= k < |t.cells| && t.cells[k].kind == ColumnHeader
  {
    var hs := HeaderCells(t.cells);
    assert |SortByKey(hs)| == |hs| by { assert |multiset(SortByKey(hs))| == |multiset(hs)|; }
    if hs != [] {
      assert hs[0] in multiset(t.cells);
    } else {
      forall k | 0 <= k < |t.cells| ensures t.cells[k].kind != ColumnHeader {
        if t.cells[k].kind == ColumnHeader { HeaderCellsKeep(t.cells, k); }
      }
    }
  }

  lemma HeadersEqualSymmetric(t1: Table, t2: Table)
    ensures TableHeadersEqual(t1, t2) <==> TableHeadersEqual(t2, t1)
  {
  }

  // ---------------------------------------------------------------- small tables at the top of a page

  const TopYThresholdRate: real := 0.2
  const SmallRowThreshold := 2
  const SmallColThreshold := 6

  /** `xs[1::2]`: the y coordinates of a polygon. */
  function OddPositions(xs: seq<real>): (ys: seq<real>)
    ensures |ys| == |xs| / 2
    ensures forall k :: 0 <= k < |ys| ==> ys[k] == xs[2 * k + 1]
  {
    if |xs| < 2 then [] else [xs[1]] + OddPositions(xs[2..])
  }

  function MinReal(ys: seq<real>): (m: real)
    requires ys != []
    ensures forall k :: 0 <= k < |ys| ==> m <= ys[k]
    ensures m in ys
  {
    if |ys| == 1 then ys[0]
    else
      var m := MinReal(ys[1..]);
      assert forall k :: 1 <= k < |ys| ==> ys[1..][k - 1] == ys[k];
      if ys[0] < m then ys[0] else m
  }

  /** How far down the page the region's top edge lies, as a share of the page height;
      0 for a polygon without points or a page without a height. */
  function TopRate(page: Page, polygon: seq<real>): real {
    var topY := TopY(polygon);
    if page.height.None? || page.height.value == 0.0 then 0.0 else topY / page.height.value
  }

  /** The smallest y coordinate of the polygon, 0 when it has no points. */
  function TopY(polygon: seq<real>): real {
    var ys := OddPositions(polygon);
    if ys == [] then 0.0 else MinReal(ys)
  }

  /** `TopRate(page, polygon) < 0.2` with the division multiplied out (see `NearTopRate`). */
  predicate NearTop(page: Page, polygon: seq<real>) {
    var topY := TopY(polygon);
    if page.height.None? || page.height.value == 0.0 then 0.0 < TopYThresholdRate
    else if 0.0 < page.height.value then topY < TopYThresholdRate * page.height.value
    else TopYThresholdRate * page.height.value < topY
  }

  lemma NearTopRate(page: Page, polygon: seq<real>)
    ensures NearTop(page, polygon) <==> TopRate(page, polygon) < TopYThresholdRate
  {
    if page.height.Some? && page.height.value != 0.0 {
      DivLess(TopY(polygon), page.height.value, TopYThresholdRate);
    }
  }

  /** Comparing a quotient with `c` is comparing the dividend with `c` times the divisor,
      the other way round when the divisor is negative. */
  lemma DivLess(y: real, h: real, c: real)
    requires h != 0.0
    ensures y / h < c <==> if 0.0 < h then y < c * h else c * h < y
  {
    var t := y / h;
    assert t * h == y;
    assert c * h - y == (c - t) * h;
  }

  predicate SmallTable(table: Table) {
    table.rowCount <= SmallRowThreshold && table.columnCount <= SmallColThreshold
  }

  /** The region's page number names one of the pages (`pages[page_number - 1]`). */
  predicate PageOk(pages: seq<Page>, region: Region) {
    PyIndex(region.pageNumber - 1, |pages|).Some?
  }

  /** The region's top lies in the top fifth of its page. */
  predicate RegionNearTop(pages: seq<Page>, region: Region)
    requires PageOk(pages, region)
  {
    NearTop(pages[PyIndex(region.pageNumber - 1, |pages|).value], region.polygon)
  }

  /** The scan of `_is_table_top_banner` over the regions: a region whose page is missing
      ends it with `False`. */
  function BannerFrom(pages: seq<Page>, table: Table, regions: seq<Region>): bool {
    if regions == [] then false
    else if !PageOk(pages, regions[0]) then false
    else if RegionNearTop(pages, regions[0]) && SmallTable(table) then true
    else BannerFrom(pages, table, regions[1..])
  }

  /** Whether table `idx` is a small table near the top of a page; a failed lookup counts
      as no. */
  function IsTopBanner(result: AnalyzeResult, idx: int): bool {
    var k := PyIndex(idx, |result.tables|);
    if k.None? then false
    else BannerFrom(result.pages, result.tables[k.value], result.tables[k.value].regions)
  }

  method IsTableTopBanner(result: AnalyzeResult, idx: int) returns (banner: bool)
    ensures banner == IsTopBanner(result, idx)
  {
    var k := PyIndex(idx, |result.tables|);
    if k.None? {
      return false;
    }
    var table := result.tables[k.value];
    var regions := table.regions;
    for i := 0 to |regions|
      invariant BannerFrom(result.pages, table, regions[i..]) == BannerFrom(result.pages, table, regions)
    {
      assert regions[i..][1..] == regions[i + 1..];
      var pageIdx := PyIndex(regions[i].pageNumber - 1, |result.pages|);
      if pageIdx.None? {
        return false;
      }
      var page := result.pages[pageIdx.value];
      var topRate := TopRate(page, regions[i].polygon);
      NearTopRate(page, regions[i].polygon);
      if topRate < TopYThresholdRate && table.rowCount <= SmallRowThreshold && table.columnCount <= SmallColThreshold {
        return true;
      }
    }
    return false;
  }

  predicate PagesOkUpTo(pages: seq<Page>, regions: seq<Region>, r: nat)
    requires r < |regions|
  {
    forall q :: 0 <= q <= r ==> PageOk(pages, regions[q])
  }

  predicate TopRegionAt(pages: seq<Page>, regions: seq<Region>, r: nat)
    requires r < |regions|
  {
    PagesOkUpTo(pages, regions, r) && RegionNearTop(pages, regions[r])
  }

  /** A banner is a small table with a region whose top lies in the top fifth of its page,
      every region before it naming a page, and the converse. */
  lemma BannerFromMeaning(pages: seq<Page>, table: Table, regions: seq<Region>)
    ensures BannerFrom(pages, table, regions) <==>
      SmallTable(table) && exists r :: 0 <= r < |regions| && TopRegionAt(pages, regions, r)
  {
    if BannerFrom(pages, table, regions) {
      var r := BannerFound(pages, table, regions);
    }
    if SmallTable(table) && exists r :: 0 <= r < |regions| && TopRegionAt(pages, regions, r) {
      var r :| 0 <= r < |regions| && TopRegionAt(pages, regions, r);
      BannerFromTop(pages, table, regions, r);
    }
  }

  lemma {:induction false} BannerFound(pages: seq<Page>, table: Table, regions: seq<Region>) returns (r: nat)
    requires BannerFrom(pages, table, regions)
    ensures SmallTable(table) && r < |regions| && TopRegionAt(pages, regions, r)
  {
    assert PageOk(pages, regions[0]);
    TopRegionFirst(pages, regions);
    if TopRegionAt(pages, regions, 0) && SmallTable(table) {
      r := 0;
    } else {
      BannerFromStep(pages, table, regions);
      var q := BannerFound(pages, table, regions[1..]);
      TopRegionLater(pages, regions, q);
      r := q + 1;
    }
  }

  /** Past a region that names a page but is no banner, the scan goes on with the rest. */
  lemma BannerFromStep(pages: seq<Page>, table: Table, regions: seq<Region>)
    requires regions != [] && PageOk(pages, regions[0])
    requires !(TopRegionAt(pages, regions, 0) && SmallTable(table))
    ensures BannerFrom(pages, table, regions) == BannerFrom(pages, table, regions[1..])
  {
    TopRegionFirst(pages, regions);
  }

  lemma TopRegionLater(pages: seq<Page>, regions: seq<Region>, q: nat)
    requires regions != [] && q < |regions| - 1
    requires PageOk(pages, regions[0]) && TopRegionAt(pages, regions[1..], q)
    ensures TopRegionAt(pages, regions, q + 1)
  {
    TopRegionShift(pages, regions, q);
  }

  lemma TopRegionFirst(pages: seq<Page>, regions: seq<Region>)
    requires regions != [] && PageOk(pages, regions[0])
    ensures TopRegionAt(pages, regions, 0) <==> RegionNearTop(pages, regions[0])
  {
  }

  /** The regions after the first, seen from the whole list, are one position further on. */
  lemma TopRegionShift(pages: seq<Page>, regions: seq<Region>, q: nat)
    requires regions != [] && q < |regions| - 1
    ensures TopRegionAt(pages, regions, q + 1) <==>
      PageOk(pages, regions[0]) && TopRegionAt(pages, regions[1..], q)
  {
    var rest := regions[1..];
    assert rest[q] == regions[q + 1];
    assert forall p :: 1 <= p <= q + 1 ==> regions[p] == rest[p - 1];
  }

  lemma {:induction false} BannerFromTop(pages: seq<Page>, table: Table, regions: seq<Region>, r: nat)
    requires SmallTable(table) && r < |regions| && TopRegionAt(pages, regions, r)
    ensures BannerFrom(pages, table, regions)
  {
    assert PageOk(pages, regions[0]);
    if r > 0 && !RegionNearTop(pages, regions[0]) {
      TopRegionShift(pages, regions, r - 1);
      BannerFromTop(pages, table, regions[1..], r - 1);
    }
  }

  /** A table counted as a banner has at most two rows and at most six columns. */
  lemma BannerIsSmall(result: AnalyzeResult, idx: int)
    requires IsTopBanner(result, idx)
    ensures var t := At(result.tables, idx); t.rowCount <= SmallRowThreshold && t.columnCount <= SmallColThreshold
  {
    var k := PyIndex(idx, |result.tables|).value;
    BannerFromMeaning(result.pages, result.tables[k], result.tables[k].regions);
  }

  // ---------------------------------------------------------------- tables side by side

  datatype Side = LeftSide | RightSide

  const IndexOfXLeftTop := 0
  const IndexOfXLeftBottom := 6
  const IndexOfXRightTop := 2
  const IndexOfXRightBottom := 4
  const ThresholdRateOfRightCover: real := 0.99
  const ThresholdRateOfLeftCover: real := 0.01

  /** The larger polygon index a side reads. */
  function LastIndex(side: Side): nat {
    if side == RightSide then IndexOfXRightBottom else IndexOfXLeftBottom
  }

  function Max(a: real, b: real): real { if a >= b then a else b }
  function Min(a: real, b: real): real { if a <= b then a else b }

  /** The share of the page width left of the region's right edge (or of its left edge),
      or the error computing it raises. */
  function CoverRate(pages: seq<Page>, region: Region, side: Side): (r: Outcome<real>)
    ensures !PageOk(pages, region) || |region.polygon| <= LastIndex(side) ==> r == Raises(IndexOutOfRange)
    ensures r.Raises? && r.error != IndexOutOfRange ==> r.error in {DivisionByNone, DivisionByZero}
    ensures r.Raises? <==> (!PageOk(pages, region) || |region.polygon| <= LastIndex(side) ||
      var w := pages[PyIndex(region.pageNumber - 1, |pages|).value].width; w.None? || w.value == 0.0)
  {
    var k := PyIndex(region.pageNumber - 1, |pages|);
    if k.None? then Raises(IndexOutOfRange)
    else
      var width := pages[k.value].width;
      var poly := region.polygon;
      if |poly| <= LastIndex(side) then Raises(IndexOutOfRange)
      else
        var x := if side == RightSide then Max(poly[IndexOfXRightTop], poly[IndexOfXRightBottom])
                 else Min(poly[IndexOfXLeftTop], poly[IndexOfXLeftBottom]);
        if width.None? then Raises(DivisionByNone)
        else if width.value == 0.0 then Raises(DivisionByZero)
        else Value(x / width.value)
  }

  /** The right edge reaches the page's right edge, or the left edge the page's left edge. */
  predicate Covers(rate: real, side: Side) {
    if side == RightSide then rate > ThresholdRateOfRightCover else rate < ThresholdRateOfLeftCover
  }

  /** The loop over the regions: the first covering region ends it, the first error
      propagates. */
  function CoverFrom(pages: seq<Page>, regions: seq<Region>, side: Side): Outcome<bool> {
    if regions == [] then Value(false)
    else
      var rate := CoverRate(pages, regions[0], side);
      if rate.Raises? then Raises(rate.error)
      else if Covers(rate.value, side) then Value(true)
      else CoverFrom(pages, regions[1..], side)
  }

  /** Whether the earlier table reaches the right edge of its page and the later one
      starts at the left edge of its page; `false` when their row counts differ. */
  function HorizontalDistribution(result: AnalyzeResult, pre: int): Outcome<bool>
    requires -1 <= pre && pre + 1 < |result.tables|
  {
    var a, b := At(result.tables, pre), result.tables[pre + 1];
    if a.rowCount != b.rowCount then Value(false)
    else
      var right := CoverFrom(result.pages, a.regions, RightSide);
      if right.Raises? then Raises(right.error)
      else
        var left := CoverFrom(result.pages, b.regions, LeftSide);
        if left.Raises? then Raises(left.error)
        else Value(left.value && right.value)
  }

  /** One of the two loops of `_check_tables_are_horizontal_distribution`. */
  method ScanCover(pages: seq<Page>, regions: seq<Region>, side: Side) returns (r: Outcome<bool>)
    ensures r == CoverFrom(pages, regions, side)
  {
    var covered := false;
    var i := 0;
    while i < |regions|
      invariant i <= |regions|
      invariant CoverFrom(pages, regions[i..], side) == CoverFrom(pages, regions, side)
    {
      assert regions[i..][1..] == regions[i + 1..];
      var k := PyIndex(regions[i].pageNumber - 1, |pages|);
      if k.None? {
        return Raises(IndexOutOfRange);
      }
      var rate := CoverRate(pages, regions[i], side);
      if rate.Raises? {
        return Raises(rate.error);
      }
      if Covers(rate.value, side) {
        covered := true;
        break;
      }
      i := i + 1;
    }
    return Value(covered);
  }

  method CheckHorizontalDistribution(result: AnalyzeResult, pre: int) returns (r: Outcome<bool>)
    requires -1 <= pre && pre + 1 < |result.tables|
    ensures r == HorizontalDistribution(result, pre)
  {
    var isRightCovered, isLeftCovered := false, false;
    var a, b := At(result.tables, pre), result.tables[pre + 1];
    if a.rowCount == b.rowCount {
      var right := ScanCover(result.pages, a.regions, RightSide);
      if right.Raises? {
        return Raises(right.error);
      }
      isRightCovered := right.value;
      var left := ScanCover(result.pages, b.regions, LeftSide);
      if left.Raises? {
        return Raises(left.error);
      }
      isLeftCovered := left.value;
    }
    return Value(isLeftCovered && isRightCovered);
  }

  predicate RatesOkUpTo(pages: seq<Page>, regions: seq<Region>, side: Side, r: nat)
    requires r <= |regions|
  {
    forall q :: 0 <= q < r ==> CoverRate(pages, regions[q], side).Value?
  }

  /** The scan finds a covering region exactly when one exists and every region up to it
      has a rate. */
  lemma {:induction false} CoverFromTrue(pages: seq<Page>, regions: seq<Region>, side: Side)
    ensures CoverFrom(pages, regions, side) == Value(true) <==>
      exists r :: 0 <= r < |regions| && RatesOkUpTo(pages, regions, side, r + 1) && Covers(CoverRate(pages, regions[r], side).value, side)
  {
    if regions != [] {
      var rest := regions[1..];
      CoverFromTrue(pages, rest, side);
      assert forall q :: 1 <= q < |regions| ==> regions[q] == rest[q - 1];
      var rate := CoverRate(pages, regions[0], side);
      if rate.Value? && !Covers(rate.value, side) {
        if CoverFrom(pages, rest, side) == Value(true) {
          var r :| 0 <= r < |rest| && RatesOkUpTo(pages, rest, side, r + 1) && Covers(CoverRate(pages, rest[r], side).value, side);
          assert RatesOkUpTo(pages, regions, side, r + 2);
        }
      }
    }
  }

  /** The scan answers `false` exactly when every region has a rate and none covers. */
  lemma {:induction false} CoverFromFalse(pages: seq<Page>, regions: seq<Region>, side: Side)
    ensures CoverFrom(pages, regions, side) == Value(false) <==>
      RatesOkUpTo(pages, regions, side, |regions|) && forall r :: 0 <= r < |regions| ==> !Covers(CoverRate(pages, regions[r], side).value, side)
  {
    if regions != [] {
      var rest := regions[1..];
      CoverFromFalse(pages, rest, side);
      assert forall q :: 1 <= q < |regions| ==> regions[q] == rest[q - 1];
    }
  }

  /** Two tables are side by side exactly when their row counts agree, some region of the
      first reaches the right edge of its page and some region of the second the left
      edge of its page, the regions scanned before those having rates. */
  lemma HorizontalMeaning(result: AnalyzeResult, pre: int)
    requires -1 <= pre && pre + 1 < |result.tables|
    ensures var a, b := At(result.tables, pre), result.tables[pre + 1];
      HorizontalDistribution(result, pre) == Value(true) <==>
        a.rowCount == b.rowCount && CoverFrom(result.pages, a.regions, RightSide) == Value(true) &&
        CoverFrom(result.pages, b.regions, LeftSide) == Value(true)
    ensures At(result.tables, pre).rowCount != result.tables[pre + 1].rowCount ==> HorizontalDistribution(result, pre) == Value(false)
  {
  }

  // ---------------------------------------------------------------- deciding a candidate

  datatype MergeKind = VerticalMerge | HorizontalMerge | NoMerge

  /** Both tables of the pair exist: `preTableIdx` may be -1, read from the end. */
  predicate PairInRange(n: int, pre: int) {
    -1 <= pre && pre + 1 < n
  }

  /** Whether a candidate's two tables are merged, and how: not when a paragraph lies
      between them or either is a banner; one under the other when their column counts
      and header rows agree; side by side when their regions say so. The side-by-side
      check runs first, so its errors surface even for a pair merged vertically. */
  function Classify(result: AnalyzeResult, c: Candidate): Outcome<MergeKind>
    requires PairInRange(|result.tables|, c.preTableIdx)
  {
    var pre := c.preTableIdx;
    var a, b := At(result.tables, pre), result.tables[pre + 1];
    if ParagraphPresent(result.paragraphs, c.start, c.end) || IsTopBanner(result, pre) || IsTopBanner(result, pre + 1) then
      Value(NoMerge)
    else
      var horizontal := HorizontalDistribution(result, pre);
      if horizontal.Raises? then Raises(horizontal.error)
      else if a.columnCount == b.columnCount && TableHeadersEqual(a, b) then Value(VerticalMerge)
      else if horizontal.value then Value(HorizontalMerge)
      else Value(NoMerge)
  }

  /** A pair is merged only when nothing separates it; vertically only with equal column
      counts and equal non-empty header rows; horizontally only when the tables sit side
      by side and their header rows do not match. */
  lemma ClassifyMeaning(result: AnalyzeResult, c: Candidate)
    requires PairInRange(|result.tables|, c.preTableIdx)
    ensures var pre := c.preTableIdx;
      var a, b := At(result.tables, pre), result.tables[pre + 1];
      var separated := ParagraphPresent(result.paragraphs, c.start, c.end) || IsTopBanner(result, pre) || IsTopBanner(result, pre + 1);
      (Classify(result, c) == Value(VerticalMerge) <==>
         !separated && HorizontalDistribution(result, pre).Value? && a.columnCount == b.columnCount && TableHeadersEqual(a, b)) &&
      (Classify(result, c) == Value(HorizontalMerge) <==>
         !separated && HorizontalDistribution(result, pre) == Value(true) && !(a.columnCount == b.columnCount && TableHeadersEqual(a, b))) &&
      (Classify(result, c).Raises? <==> !separated && HorizontalDistribution(result, pre).Raises?)
  {
  }

  // ---------------------------------------------------------------- merged groups

  /** A run of tables merged into one: their positions, the text range they replace, the
      merged markdown and the text found between them. */
  datatype Group = Group(tableIdxList: seq<int>, minOffset: int, maxOffset: int, content: string, remark: string)

  function MergeContent(kind: MergeKind, content1: string, content2: string): string {
    if kind == VerticalMerge then MergeVerticalContent(content1, content2) else MergedHorizontal(content1, content2)
  }

  /** Whether the pair continues the last group: its earlier table ends that group. */
  predicate Continues(groups: seq<Group>, pre: int) {
    groups != [] && groups[|groups| - 1].tableIdxList != [] &&
    var idx := groups[|groups| - 1].tableIdxList; idx[|idx| - 1] == pre
  }

  /** The groups after merging tables `pre` and `pre + 1`: the last group grows when it
      ends with `pre`, otherwise a new group starts. */
  function AddPair(content: string, spans: seq<IntegralSpan>, groups: seq<Group>, pre: int, kind: MergeKind): seq<Group>
    requires PairInRange(|spans|, pre)
  {
    var prev, next := At(spans, pre), spans[pre + 1];
    var remark := PySlice(content, prev.maxOffset, next.minOffset);
    var cur := PySlice(content, next.minOffset, next.maxOffset);
    if Continues(groups, pre) then
      var g := groups[|groups| - 1];
      groups[..|groups| - 1] + [Group(g.tableIdxList + [pre + 1], g.minOffset, next.maxOffset, MergeContent(kind, g.content, cur), g.remark + remark)]
    else
      var preContent := PySlice(content, prev.minOffset, prev.maxOffset);
      groups + [Group([pre, pre + 1], prev.minOffset, next.maxOffset, MergeContent(kind, preContent, cur), Strip(remark))]
  }

  predicate AllInRange(n: int, cands: seq<Candidate>) {
    forall k :: 0 <= k < |cands| ==> PairInRange(n, cands[k].preTableIdx)
  }

  /** The groups formed from the candidates, in order; the first error stops it. */
  function GroupAll(result: AnalyzeResult, spans: seq<IntegralSpan>, cands: seq<Candidate>): Outcome<seq<Group>>
    requires |spans| == |result.tables| && AllInRange(|result.tables|, cands)
  {
    if cands == [] then Value([])
    else
      var c := cands[|cands| - 1];
      Extend(result.content, spans, GroupAll(result, spans, cands[..|cands| - 1]), c.preTableIdx, Classify(result, c))
  }

  /** One candidate's effect on the groups so far: an earlier error stays, a classification
      error becomes the error, an unmerged pair changes nothing, a merged one joins them. */
  function Extend(content: string, spans: seq<IntegralSpan>, groups: Outcome<seq<Group>>, pre: int, kind: Outcome<MergeKind>): Outcome<seq<Group>>
    requires PairInRange(|spans|, pre)
  {
    if groups.Raises? then groups
    else if kind.Raises? then Raises(kind.error)
    else if kind.value == NoMerge then groups
    else Value(AddPair(content, spans, groups.value, pre, kind.value))
  }


  // ---------------------------------------------------------------- splicing

  /** The text from `start` on, each group's range replaced by its merged table and the
      text that stood between its tables. */
  function SpliceFrom(content: string, groups: seq<Group>, start: int): string
    decreases |groups|
  {
    if groups == [] then PySlice(content, start, |content|)
    else
      var g := groups[0];
      PySlice(content, start, g.minOffset) + g.content + g.remark + SpliceFrom(content, groups[1..], g.maxOffset)
  }

  /** The document text with the merged tables in place; unchanged without groups. */
  function Splice(content: string, groups: seq<Group>): string {
    if groups == [] then content else SpliceFrom(content, groups, 0)
  }

  method SpliceGroups(content: string, groups: seq<Group>) returns (optimized: string)
    ensures optimized == Splice(content, groups)
  {
    optimized := "";
    if groups != [] {
      var startIdx := 0;
      for i := 0 to |groups|
        invariant optimized + SpliceFrom(content, groups[i..], startIdx) == SpliceFrom(content, groups, 0)
      {
        var g := groups[i];
        assert groups[i..][1..] == groups[i + 1..];
        optimized := optimized + (PySlice(content, startIdx, g.minOffset) + g.content + g.remark);
        startIdx := g.maxOffset;
      }
      optimized := optimized + PySlice(content, startIdx, |content|);
    } else {
      optimized := content;
    }
  }

  // ---------------------------------------------------------------- the whole pass

  lemma FitsInRange(tables: seq<Table>, cands: seq<Candidate>)
    requires AllFit(tables, cands)
    ensures AllInRange(|tables|, cands)
  {
    forall k | 0 <= k < |cands| ensures PairInRange(|tables|, cands[k].preTableIdx) {
      assert CandidateFits(tables, cands[k]);
    }
  }

  /** What `merge_tables` returns: the document text with every run of tables that a page
      break split replaced by one merged table, or the error the pass raises. */
  function MergedContent(result: AnalyzeResult): Outcome<string> {
    var scan := ScanTables(result.tables);
    if scan.Raises? then Raises(scan.error)
    else
      var cands, spans := scan.value.0, scan.value.1;
      ScanIntegralSpans(result.tables, 0, ScanStart);
      ScanCandidates(result.tables);
      FitsInRange(result.tables, cands);
      var groups := GroupAll(result, spans, cands);
      if groups.Raises? then Raises(groups.error) else Value(Splice(result.content, groups.value))
  }

  method MergeTables(result: AnalyzeResult) returns (r: Outcome<string>)
    ensures r == MergedContent(result)
  {
    var scan := MergeCandidatesAndIntegralSpans(result.tables);
    if scan.Raises? {
      return Raises(scan.error);
    }
    var candidates, spans := scan.value.0, scan.value.1;
    ScanIntegralSpans(result.tables, 0, ScanStart);
    ScanCandidates(result.tables);
    FitsInRange(result.tables, candidates);
    var groups: seq<Group> := [];
    for i := 0 to |candidates|
      invariant GroupAll(result, spans, candidates[..i]) == Value(groups)
    {
      var c := candidates[i];
      var kind := ClassifyCandidate(result, c);
      GroupNext(result, spans, candidates, i);
      if kind.Raises? {
        GroupAllStopsAtError(result, spans, candidates, i + 1);
        return Raises(kind.error);
      }
      if kind.value != NoMerge {
        groups := MergePair(result.content, spans, groups, c.preTableIdx, kind.value);
      }
    }
    assert candidates[..|candidates|] == candidates;
    var optimized := SpliceGroups(result.content, groups);
    return Value(optimized);
  }

  /** Grouping one more candidate extends the groups of the ones before it. */
  lemma GroupNext(result: AnalyzeResult, spans: seq<IntegralSpan>, cands: seq<Candidate>, i: nat)
    requires |spans| == |result.tables| && AllInRange(|result.tables|, cands) && i < |cands|
    ensures PairInRange(|spans|, cands[i].preTableIdx)
    ensures GroupAll(result, spans, cands[..i + 1])
      == Extend(result.content, spans, GroupAll(result, spans, cands[..i]), cands[i].preTableIdx, Classify(result, cands[i]))
  {
    assert cands[..i + 1][..i] == cands[..i];
  }

  /** An error met while grouping a prefix of the candidates is the pass's error. */
  lemma {:induction false} GroupAllStopsAtError(result: AnalyzeResult, spans: seq<IntegralSpan>, cands: seq<Candidate>, i: nat)
    requires |spans| == |result.tables| && AllInRange(|result.tables|, cands)
    requires 0 < i <= |cands| && GroupAll(result, spans, cands[..i]).Raises?
    ensures GroupAll(result, spans, cands) == GroupAll(result, spans, cands[..i])
    decreases |cands| - i
  {
    if i < |cands| {
      var longer := cands[..i + 1];
      assert longer[..i] == cands[..i];
      GroupAllStopsAtError(result, spans, cands, i + 1);
    } else {
      assert cands[..i] == cands;
    }
  }

  /** The tests of one candidate in the loop of `merge_tables`, in their order. */
  method ClassifyCandidate(result: AnalyzeResult, c: Candidate) returns (kind: Outcome<MergeKind>)
    requires PairInRange(|result.tables|, c.preTableIdx)
    ensures kind == Classify(result, c)
  {
    var pre := c.preTableIdx;
    var a, b := At(result.tables, pre), result.tables[pre + 1];
    var hasParagraph := CheckParagraphPresence(result.paragraphs, c.start, c.end);
    var isBannerPre := IsTableTopBanner(result, pre);
    var isBannerNext := IsTableTopBanner(result, pre + 1);
    var separated := hasParagraph || isBannerPre || isBannerNext;
    var isHorizontal := false;
    if !separated {
      var horizontal := CheckHorizontalDistribution(result, pre);
      if horizontal.Raises? {
        return Raises(horizontal.error);
      }
      isHorizontal := horizontal.value;
    }
    var isVertical := false;
    if !separated && a.columnCount == b.columnCount {
      isVertical := AreTableHeadersEqual(a, b);
    }
    kind := Value(if isVertical then VerticalMerge else if isHorizontal then HorizontalMerge else NoMerge);
    ClassifyCases(result, c);
  }

  /** `Classify` split on whether the pair is separated, with the side-by-side check named. */
  lemma ClassifyCases(result: AnalyzeResult, c: Candidate)
    requires PairInRange(|result.tables|, c.preTableIdx)
    ensures var pre := c.preTableIdx;
      var a, b := At(result.tables, pre), result.tables[pre + 1];
      var h := HorizontalDistribution(result, pre);
      Classify(result, c) ==
        if ParagraphPresent(result.paragraphs, c.start, c.end) || IsTopBanner(result, pre) || IsTopBanner(result, pre + 1) then Value(NoMerge)
        else if h.Raises? then Raises(h.error)
        else Value(if a.columnCount == b.columnCount && TableHeadersEqual(a, b) then VerticalMerge
                   else if h.value then HorizontalMerge else NoMerge)
  {
  }

  /** The body of the loop of `merge_tables` for a pair it merges. */
  method MergePair(content: string, spans: seq<IntegralSpan>, groups: seq<Group>, pre: int, kind: MergeKind) returns (merged: seq<Group>)
    requires PairInRange(|spans|, pre) && kind != NoMerge
    ensures merged == AddPair(content, spans, groups, pre, kind)
  {
    var prev, next := At(spans, pre), spans[pre + 1];
    var remark := PySlice(content, prev.maxOffset, next.minOffset);
    var curContent := PySlice(content, next.minOffset, next.maxOffset);
    var first := if Continues(groups, pre) then groups[|groups| - 1].content else PySlice(content, prev.minOffset, prev.maxOffset);
    var table: string;
    if kind == VerticalMerge {
      table := MergeVerticalTables(first, curContent);
    } else {
      table := MergeHorizontalTables(first, curContent);
    }
    if Continues(groups, pre) {
      var g := groups[|groups| - 1];
      merged := groups[..|groups| - 1] + [Group(g.tableIdxList + [pre + 1], g.minOffset, next.maxOffset, table, g.remark + remark)];
    } else {
      merged := groups + [Group([pre, pre + 1], prev.minOffset, next.maxOffset, table, Strip(remark))];
    }
  }

  // ---------------------------------------------------------------- what the groups are

  /** A group holds two or more consecutive tables and replaces the text from the first
      one's least offset to the last one's greatest. */
  predicate WellFormedGroup(spans: seq<IntegralSpan>, g: Group) {
    var idx := g.tableIdxList;
    |idx| >= 2 && PairInRange(|spans|, idx[0]) && 0 <= idx[|idx| - 1] < |spans| &&
    (forall k :: 0 <= k < |idx| - 1 ==> idx[k + 1] == idx[k] + 1) &&
    g.minOffset == At(spans, idx[0]).minOffset && g.maxOffset == spans[idx[|idx| - 1]].maxOffset
  }

  predicate WellFormedGroups(spans: seq<IntegralSpan>, groups: seq<Group>) {
    forall k :: 0 <= k < |groups| ==> WellFormedGroup(spans, groups[k])
  }

  /** How `AddPair` changes the groups, leaving aside their text. */
  predicate Grown(spans: seq<IntegralSpan>, groups: seq<Group>, pre: int, r: seq<Group>)
    requires PairInRange(|spans|, pre)
  {
    if Continues(groups, pre) then
      |r| == |groups| && r[..|r| - 1] == groups[..|groups| - 1] &&
      var g, h := groups[|groups| - 1], r[|r| - 1];
      h.tableIdxList == g.tableIdxList + [pre + 1] && h.minOffset == g.minOffset && h.maxOffset == spans[pre + 1].maxOffset
    else
      |r| == |groups| + 1 && r[..|groups|] == groups &&
      r[|groups|].tableIdxList == [pre, pre + 1] && r[|groups|].minOffset == At(spans, pre).minOffset &&
      r[|groups|].maxOffset == spans[pre + 1].maxOffset
  }

  lemma AddPairGrown(content: string, spans: seq<IntegralSpan>, groups: seq<Group>, pre: int, kind: MergeKind)
    requires PairInRange(|spans|, pre)
    ensures Grown(spans, groups, pre, AddPair(content, spans, groups, pre, kind))
  {
  }

  lemma GrownWellFormed(spans: seq<IntegralSpan>, groups: seq<Group>, pre: int, r: seq<Group>)
    requires PairInRange(|spans|, pre) && WellFormedGroups(spans, groups) && Grown(spans, groups, pre, r)
    ensures WellFormedGroups(spans, r)
  {
    if Continues(groups, pre) {
      var g := groups[|groups| - 1];
      assert WellFormedGroup(spans, g);
      assert forall k :: 0 <= k < |groups| - 1 ==> r[k] == r[..|r| - 1][k];
    } else {
      assert forall k :: 0 <= k < |groups| ==> r[k] == r[..|groups|][k];
    }
  }

  /** Every group the pass forms is well formed (see `WellFormedGroup`). */
  lemma {:induction false} GroupAllWellFormed(result: AnalyzeResult, spans: seq<IntegralSpan>, cands: seq<Candidate>)
    requires |spans| == |result.tables| && AllInRange(|result.tables|, cands)
    ensures var r := GroupAll(result, spans, cands); r.Value? ==> WellFormedGroups(spans, r.value)
  {
    if cands != [] {
      var init := cands[..|cands| - 1];
      GroupAllWellFormed(result, spans, init);
      GroupAllStep(result, spans, cands);
      var r, groups := GroupAll(result, spans, cands), GroupAll(result, spans, init);
      if r.Value? && r.value != groups.value {
        GrownWellFormed(spans, groups.value, cands[|cands| - 1].preTableIdx, r.value);
      }
    }
  }

  predicate Increasing(cands: seq<Candidate>) {
    forall k, l :: 0 <= k < l < |cands| ==> cands[k].preTableIdx < cands[l].preTableIdx
  }

  /** The scan finds its candidates in table order, each after the state's table. */
  lemma {:induction false} ScanIncreasingFrom(tables: seq<Table>, i: nat, st: ScanState)
    requires i <= |tables| && st.preTableIdx < i
    ensures var r := ScanFrom(tables, i, st);
      r.Value? ==> Increasing(r.value.0) && forall k :: 0 <= k < |r.value.0| ==> st.preTableIdx <= r.value.0[k].preTableIdx
    decreases |tables| - i
  {
    if i < |tables| {
      var offsets := SpanOffsets(tables[i].spans);
      if Spanned(offsets) && tables[i].regions != [] {
        var page := MinPage(tables[i].regions);
        ScanIncreasingFrom(tables, i + 1, ScanState(i, page, offsets.1));
      } else if !Spanned(offsets) {
        ScanIncreasingFrom(tables, i + 1, st);
      }
    }
  }

  lemma ScanIncreasing(tables: seq<Table>)
    ensures var r := ScanTables(tables); r.Value? ==> Increasing(r.value.0)
  {
    ScanIncreasingFrom(tables, 0, ScanStart);
  }

  /** The groups follow one another: each one's tables come before the next one's. */
  predicate OrderedGroups(groups: seq<Group>) {
    forall k :: 0 <= k < |groups| - 1 ==> Precedes(groups[k], groups[k + 1])
  }

  predicate Precedes(g: Group, h: Group) {
    g.tableIdxList != [] && h.tableIdxList != [] && g.tableIdxList[|g.tableIdxList| - 1] < h.tableIdxList[0]
  }

  function LastTable(groups: seq<Group>): int
    requires groups != [] && groups[|groups| - 1].tableIdxList != []
  {
    var idx := groups[|groups| - 1].tableIdxList; idx[|idx| - 1]
  }

  lemma GrownOrdered(spans: seq<IntegralSpan>, groups: seq<Group>, pre: int, r: seq<Group>)
    requires PairInRange(|spans|, pre) && OrderedGroups(groups) && WellFormedGroups(spans, groups) && Grown(spans, groups, pre, r)
    requires groups != [] ==> LastTable(groups) <= pre
    ensures OrderedGroups(r) && r != [] && r[|r| - 1].tableIdxList != [] && LastTable(r) == pre + 1
  {
    if Continues(groups, pre) {
      assert forall k :: 0 <= k < |groups| - 1 ==> r[k] == r[..|r| - 1][k];
      assert r[|r| - 1].tableIdxList[0] == groups[|groups| - 1].tableIdxList[0];
    } else {
      assert forall k :: 0 <= k < |groups| ==> r[k] == r[..|groups|][k];
      if groups != [] {
        assert groups[|groups| - 1].tableIdxList != [];
        assert LastTable(groups) < pre;
      }
    }
  }

  /** With candidates in table order, the groups come in table order and never share a
      table. */
  lemma {:induction false} GroupAllOrdered(result: AnalyzeResult, spans: seq<IntegralSpan>, cands: seq<Candidate>)
    requires |spans| == |result.tables| && AllInRange(|result.tables|, cands) && Increasing(cands)
    ensures var r := GroupAll(result, spans, cands);
      r.Value? ==> (OrderedGroups(r.value) &&
        (r.value != [] ==> r.value[|r.value| - 1].tableIdxList != [] && LastTable(r.value) <= cands[|cands| - 1].preTableIdx + 1))
  {
    if cands != [] {
      var init := cands[..|cands| - 1];
      GroupAllOrdered(result, spans, init);
      GroupAllWellFormed(result, spans, init);
      GroupAllStep(result, spans, cands);
      var r, groups := GroupAll(result, spans, cands), GroupAll(result, spans, init);
      var pre := cands[|cands| - 1].preTableIdx;
      if groups.Value? && groups.value != [] {
        assert cands[|init| - 1] == init[|init| - 1];
      }
      if r.Value? && r.value != groups.value {
        GrownOrdered(spans, groups.value, pre, r.value);
      }
    }
  }

  /** One more candidate leaves the groups as they were or grows them by its pair. */
  lemma GroupAllStep(result: AnalyzeResult, spans: seq<IntegralSpan>, cands: seq<Candidate>)
    requires |spans| == |result.tables| && AllInRange(|result.tables|, cands) && cands != []
    ensures var r, g := GroupAll(result, spans, cands), GroupAll(result, spans, cands[..|cands| - 1]);
      var pre := cands[|cands| - 1].preTableIdx;
      PairInRange(|spans|, pre) &&
      (r.Value? ==> g.Value? && (r.value == g.value || Grown(spans, g.value, pre, r.value)))
  {
    ExtendGrown(result.content, spans, GroupAll(result, spans, cands[..|cands| - 1]), cands[|cands| - 1].preTableIdx);
  }

  lemma ExtendGrown(content: string, spans: seq<IntegralSpan>, groups: Outcome<seq<Group>>, pre: int)
    requires PairInRange(|spans|, pre)
    ensures forall kind: Outcome<MergeKind> :: var r := Extend(content, spans, groups, pre, kind);
      r.Value? ==> groups.Value? && (r.value == groups.value || Grown(spans, groups.value, pre, r.value))
  {
    forall kind: Outcome<MergeKind> | groups.Value? && kind.Value? && kind.value != NoMerge
      ensures Grown(spans, groups.value, pre, AddPair(content, spans, groups.value, pre, kind.value))
    {
      AddPairGrown(content, spans, groups.value, pre, kind.value);
    }
  }

  /** The groups of a run of the pass: well formed and in table order. */
  lemma MergedGroups(result: AnalyzeResult)
    requires ScanTables(result.tables).Value?
    ensures var scan := ScanTables(result.tables);
      |scan.value.1| == |result.tables| && AllInRange(|result.tables|, scan.value.0) &&
      var r := GroupAll(result, scan.value.1, scan.value.0);
      r.Value? ==> WellFormedGroups(scan.value.1, r.value) && OrderedGroups(r.value)
  {
    var scan := ScanTables(result.tables);
    ScanIntegralSpans(result.tables, 0, ScanStart);
    ScanCandidates(result.tables);
    FitsInRange(result.tables, scan.value.0);
    ScanIncreasing(result.tables);
    GroupAllWellFormed(result, scan.value.1, scan.value.0);
    GroupAllOrdered(result, scan.value.1, scan.value.0);
  }

  // ---------------------------------------------------------------- what splicing keeps

  /** The groups' ranges lie in order inside the text from `start` on, and each group's
      merged table and remark spell out the text of its range. */
  predicate ReplacesOwnText(content: string, groups: seq<Group>, start: int)
    decreases |groups|
  {
    if groups == [] then 0 <= start <= |content|
    else
      var g := groups[0];
      0 <= start <= g.minOffset <= g.maxOffset <= |content| &&
      g.content + g.remark == content[g.minOffset..g.maxOffset] &&
      ReplacesOwnText(content, groups[1..], g.maxOffset)
  }

  /** Splicing keeps every character outside the groups' ranges in place: when each
      group's replacement is the text of its own range, the text comes out unchanged. */
  lemma {:induction false} SpliceFromKeeps(content: string, groups: seq<Group>, start: int)
    requires ReplacesOwnText(content, groups, start)
    ensures SpliceFrom(content, groups, start) == content[start..]
    decreases |groups|
  {
    if groups != [] {
      var g := groups[0];
      SpliceFromKeeps(content, groups[1..], g.maxOffset);
      Rejoin(content, start, g.minOffset, g.maxOffset, g.content, g.remark, SpliceFrom(content, groups[1..], g.maxOffset));
    }
  }

  lemma Rejoin(s: string, a: nat, b: nat, c: nat, x: string, y: string, z: string)
    requires a <= b <= c <= |s| && x + y == s[b..c] && z == s[c..]
    ensures PySlice(s, a, b) + x + y + z == s[a..]
  {
    assert PySlice(s, a, b) == s[a..b];
    assert PySlice(s, a, b) + x + y == s[a..b] + (x + y);
    assert s[a..b] + s[b..c] == s[a..c];
    assert s[a..c] + s[c..] == s[a..];
  }

  lemma SpliceKeeps(content: string, groups: seq<Group>)
    requires ReplacesOwnText(content, groups, 0)
    ensures Splice(content, groups) == content
  {
    if groups != [] {
      SpliceFromKeeps(content, groups, 0);
    }
  }

  /** Each group's range is replaced by its merged table followed by its remark, and the
      text before the first range and after the last stays as it was. */
  lemma SpliceOne(content: string, g: Group)
    requires 0 <= g.minOffset <= g.maxOffset <= |content|
    ensures Splice(content, [g]) == content[..g.minOffset] + g.content + g.remark + content[g.maxOffset..]
  {
    assert [g][1..] == [];
    assert PySlice(content, 0, g.minOffset) == content[..g.minOffset];
    assert PySlice(content, g.maxOffset, |content|) == content[g.maxOffset..];
    assert SpliceFrom(content, [g][1..], g.maxOffset) == content[g.maxOffset..];
    assert Splice(content, [g]) == SpliceFrom(content, [g], 0);
  }

  // ---------------------------------------------------------------- when nothing merges

  /** Without a merged pair there are no groups. */
  lemma {:induction false} NoMergeNoGroups(result: AnalyzeResult, spans: seq<IntegralSpan>, cands: seq<Candidate>)
    requires |spans| == |result.tables| && AllInRange(|result.tables|, cands)
    requires forall k :: 0 <= k < |cands| ==> Classify(result, cands[k]) == Value(NoMerge)
    ensures GroupAll(result, spans, cands) == Value([])
  {
    if cands != [] {
      var init := cands[..|cands| - 1];
      assert forall k :: 0 <= k < |init| ==> init[k] == cands[k];
      NoMergeNoGroups(result, spans, init);
    }
  }

  /** When no candidate pair is merged the document text comes back unchanged. */
  lemma NothingMergedKeepsText(result: AnalyzeResult)
    requires ScanTables(result.tables).Value?
    requires var cands := ScanTables(result.tables).value.0;
      forall k :: 0 <= k < |cands| ==>
        PairInRange(|result.tables|, cands[k].preTableIdx) && Classify(result, cands[k]) == Value(NoMerge)
    ensures MergedContent(result) == Value(result.content)
  {
    var scan := ScanTables(result.tables);
    ScanIntegralSpans(result.tables, 0, ScanStart);
    NoMergeNoGroups(result, scan.value.1, scan.value.0);
  }

  /** Every candidate's earlier table is a real table, not the `-1` start value. */
  predicate RealPredecessors(cands: seq<Candidate>) {
    forall k :: 0 <= k < |cands| ==> cands[k].preTableIdx >= 0
  }

  lemma RealPredecessorsConcat(a: seq<Candidate>, b: seq<Candidate>)
    requires RealPredecessors(a) && RealPredecessors(b)
    ensures RealPredecessors(a + b)
  {
    forall k | 0 <= k < |a + b| ensures (a + b)[k].preTableIdx >= 0 {
      if k < |a| {
        assert (a + b)[k] == a[k];
      } else {
        assert (a + b)[k] == b[k - |a|];
      }
    }
  }

  /** With 1-based page numbers no candidate reaches back to the last table: the earlier
      table of every pair is a real table. */
  lemma {:induction false} PositivePagesFrom(tables: seq<Table>, i: nat, st: ScanState)
    requires i <= |tables| && (st.preTableIdx == -1 ==> st.prePage == -1) && st.preTableIdx >= -1
    requires forall t, r :: 0 <= t < |tables| && 0 <= r < |tables[t].regions| ==> tables[t].regions[r].pageNumber >= 1
    ensures var res := ScanFrom(tables, i, st); res.Value? ==> RealPredecessors(res.value.0)
    decreases |tables| - i
  {
    if i < |tables| {
      var offsets := SpanOffsets(tables[i].spans);
      if Spanned(offsets) && tables[i].regions != [] {
        var page := MinPage(tables[i].regions);
        assert page >= 1;
        var found := if page == st.prePage + 1 then [Candidate(st.preTableIdx, st.preMaxOffset, offsets.0, offsets.0, offsets.1)] else [];
        assert RealPredecessors(found);
        var rest := ScanFrom(tables, i + 1, ScanState(i, page, offsets.1));
        PositivePagesFrom(tables, i + 1, ScanState(i, page, offsets.1));
        assert ScanFrom(tables, i, st) == Prepend(found, [IntegralSpan(i, offsets.0, offsets.1)], rest);
        if rest.Value? {
          RealPredecessorsConcat(found, rest.value.0);
        }
      } else if !Spanned(offsets) {
        var rest := ScanFrom(tables, i + 1, st);
        PositivePagesFrom(tables, i + 1, st);
        assert ScanFrom(tables, i, st) == Prepend([], [IntegralSpan(i, -1, -1)], rest);
        if rest.Value? {
          assert [] + rest.value.0 == rest.value.0;
        }
      }
    }
  }

  lemma PositivePages(tables: seq<Table>)
    requires forall t, r :: 0 <= t < |tables| && 0 <= r < |tables[t].regions| ==> tables[t].regions[r].pageNumber >= 1
    ensures var res := ScanTables(tables);
      res.Value? ==> forall k :: 0 <= k < |res.value.0| ==> res.value.0[k].preTableIdx >= 0
  {
    PositivePagesFrom(tables, 0, ScanStart);
  }

  /** A document with at most one table, on 1-based pages, comes back unchanged. */
  lemma OneTableUnchanged(result: AnalyzeResult)
    requires |result.tables| <= 1 && ScanTables(result.tables).Value?
    requires forall t, r :: 0 <= t < |result.tables| && 0 <= r < |result.tables[t].regions| ==> result.tables[t].regions[r].pageNumber >= 1
    ensures MergedContent(result) == Value(result.content)
  {
    var scan := ScanTables(result.tables);
    PositivePages(result.tables);
    ScanCandidates(result.tables);
    FitsInRange(result.tables, scan.value.0);
    NeedsTwoTables(|result.tables|, scan.value.0);
    NothingMergedKeepsText(result);
  }

  /** Pairs whose earlier table is a real table need at least two tables. */
  lemma NeedsTwoTables(n: int, cands: seq<Candidate>)
    requires AllInRange(n, cands) && forall k :: 0 <= k < |cands| ==> cands[k].preTableIdx >= 0
    ensures cands == [] || n >= 2
  {
    if cands != [] {
      assert PairInRange(n, cands[0].preTableIdx);
    }
  }
}

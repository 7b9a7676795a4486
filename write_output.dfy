/** The step that writes the segments out (`write_output_files_step.py`): the check that
    there is something to write, and `segments.md`, the segments grouped by page, pages in
    ascending order, each page framed by a page-number comment, a heading and a page-break
    comment. */
module WriteOutputFiles {
  import opened Wrappers
  import opened PyStr

  const NoSegments := "no_segments_to_write"

  /** The value under `metadata["page"]`: absent (or a value `int()` refuses), an integer
      (a Python `bool` is one), a text, or a number with a fractional part. */
  datatype PageValue = Absent | IntPage(i: int) | TextPage(s: string) | RealPage(x: real)

  /** One segment: its text (`None` reads as empty) and its page metadata. */
  datatype Segment = Segment(text: Option<string>, page: PageValue)

  /** `int(x)` on a real: truncation toward zero. */
  function TruncateReal(x: real): (n: int)
    ensures x >= 0.0 ==> n as real <= x < n as real + 1.0
    ensures x < 0.0 ==> n as real - 1.0 < x <= n as real
  {
    if x >= 0.0 then x.Floor else -((-x).Floor)
  }

  /** `int(page)`, `None` where it raises. */
  function PageOf(v: PageValue): Option<int> {
    match v
    case Absent => None
    case IntPage(i) => Some(i)
    case TextPage(s) => ParseInt(s)
    case RealPage(x) => Some(TruncateReal(x))
  }

  /** The page a segment is written under: its parsed page, else 1. */
  function PageNum(s: Segment): int {
    var p := PageOf(s.page);
    if p.Some? then p.value else 1
  }

  // ---------------------------------------------------------------- grouping

  /** One entry of the `pages` dictionary: a page number and its segments. The dictionary is
      modelled as its entries in insertion order. */
  datatype PageGroup = PageGroup(page: int, segments: seq<Segment>)

  /** The page numbers of the entries, in order. */
  function Keys(groups: seq<PageGroup>): (r: seq<int>)
    ensures |r| == |groups| && forall i :: 0 <= i < |groups| ==> r[i] == groups[i].page
  {
    seq(|groups|, i requires 0 <= i < |groups| => groups[i].page)
  }

  predicate Distinct(keys: seq<int>) {
    forall i, j :: 0 <= i < j < |keys| ==> keys[i] != keys[j]
  }

  /** `pages.setdefault(n, []).append(s)`: the entry of `n` gains `s` at its end; a new
      page number gets an entry of its own at the end. */
  function AddToPage(groups: seq<PageGroup>, n: int, s: Segment): (r: seq<PageGroup>)
    requires Distinct(Keys(groups))
    ensures Distinct(Keys(r))
    ensures |r| == if n in Keys(groups) then |groups| else |groups| + 1
    ensures forall i :: 0 <= i < |groups| ==>
      r[i] == PageGroup(groups[i].page, groups[i].segments + (if groups[i].page == n then [s] else []))
    ensures n !in Keys(groups) ==> r[|groups|] == PageGroup(n, [s])
  {
    var i := EntryOf(groups, n);
    if i < |groups| then
      var r := groups[i := PageGroup(n, groups[i].segments + [s])];
      assert Keys(r) == Keys(groups);
      r
    else
      var r := groups + [PageGroup(n, [s])];
      assert Keys(r) == Keys(groups) + [n];
      r
  }

  /** The position of the entry of page `n`, or `|groups|` when there is none. */
  function EntryOf(groups: seq<PageGroup>, n: int): (i: nat)
    ensures i <= |groups| && (i < |groups| ==> groups[i].page == n)
    ensures forall j :: 0 <= j < i ==> groups[j].page != n
  {
    if groups == [] then 0
    else if groups[0].page == n then 0
    else 1 + EntryOf(groups[1..], n)
  }

  /** The `pages` dictionary after the first loop. */
  function Groups(segments: seq<Segment>): (r: seq<PageGroup>)
    ensures Distinct(Keys(r))
    decreases |segments|
  {
    if segments == [] then []
    else
      var s := segments[|segments| - 1];
      AddToPage(Groups(segments[..|segments| - 1]), PageNum(s), s)
  }

  /** The segments written under page `n`, in input order. */
  function OnPage(segments: seq<Segment>, n: int): (r: seq<Segment>)
    ensures |r| <= |segments|
    ensures forall k :: 0 <= k < |r| ==> PageNum(r[k]) == n
    decreases |segments|
  {
    if segments == [] then []
    else
      var s := segments[|segments| - 1];
      OnPage(segments[..|segments| - 1], n) + (if PageNum(s) == n then [s] else [])
  }

  /** Some segment has a page that parses (`has_any_page`). */
  predicate HasAnyPage(segments: seq<Segment>) {
    exists j :: 0 <= j < |segments| && PageOf(segments[j].page).Some?
  }

  /** The page numbers the segments are written under. */
  predicate Named(segments: seq<Segment>, n: int) {
    exists j :: 0 <= j < |segments| && PageNum(segments[j]) == n
  }

  /** The dictionary has one entry per page number some segment is written under, and that
      entry lists the segments written under it, in input order. */
  lemma GroupsMeaning(segments: seq<Segment>)
    ensures forall n :: n in Keys(Groups(segments)) <==> Named(segments, n)
    ensures forall i :: 0 <= i < |Groups(segments)| ==>
      Groups(segments)[i].segments == OnPage(segments, Groups(segments)[i].page)
  {
    GroupsKeys(segments);
    GroupsLists(segments);
  }

  lemma NamedNext(segments: seq<Segment>, m: int)
    requires segments != []
    ensures Named(segments, m) <==> Named(segments[..|segments| - 1], m) || m == PageNum(segments[|segments| - 1])
  {
    var init := segments[..|segments| - 1];
    if Named(segments, m) && m != PageNum(segments[|segments| - 1]) {
      var j :| 0 <= j < |segments| && PageNum(segments[j]) == m;
      assert init[j] == segments[j];
    }
    if Named(init, m) {
      var j :| 0 <= j < |init| && PageNum(init[j]) == m;
      assert init[j] == segments[j];
    }
  }

  lemma KeysAfterAdd(groups: seq<PageGroup>, n: int, s: Segment, m: int)
    requires Distinct(Keys(groups))
    ensures m in Keys(AddToPage(groups, n, s)) <==> m in Keys(groups) || m == n
  {
    var r := AddToPage(groups, n, s);
    if m in Keys(r) {
      var i :| 0 <= i < |r| && Keys(r)[i] == m;
      if i < |groups| {
        assert Keys(groups)[i] == m;
      }
    }
    if m in Keys(groups) {
      var i :| 0 <= i < |groups| && Keys(groups)[i] == m;
      assert Keys(r)[i] == m;
    }
    if m == n && n !in Keys(groups) {
      assert Keys(r)[|groups|] == m;
    }
  }

  lemma {:induction false} GroupsKeys(segments: seq<Segment>)
    ensures forall n :: n in Keys(Groups(segments)) <==> Named(segments, n)
    decreases |segments|
  {
    if segments != [] {
      var init, last := segments[..|segments| - 1], segments[|segments| - 1];
      GroupsKeys(init);
      forall m ensures m in Keys(Groups(segments)) <==> Named(segments, m) {
        NamedNext(segments, m);
        KeysAfterAdd(Groups(init), PageNum(last), last, m);
      }
    }
  }

  lemma {:induction false} GroupsLists(segments: seq<Segment>)
    ensures forall i :: 0 <= i < |Groups(segments)| ==>
      Groups(segments)[i].segments == OnPage(segments, Groups(segments)[i].page)
    decreases |segments|
  {
    if segments != [] {
      var init, last := segments[..|segments| - 1], segments[|segments| - 1];
      GroupsLists(init);
      var g, r, n := Groups(init), Groups(segments), PageNum(last);
      forall i | 0 <= i < |r| ensures r[i].segments == OnPage(segments, r[i].page) {
        if i == |g| {
          GroupsKeys(init);
          NotNamedOnNoPage(init, n);
        }
      }
    }
  }

  lemma {:induction false} NotNamedOnNoPage(segments: seq<Segment>, n: int)
    requires !Named(segments, n)
    ensures OnPage(segments, n) == []
    decreases |segments|
  {
    if segments != [] {
      var init := segments[..|segments| - 1];
      assert !Named(init, n) by {
        forall j | 0 <= j < |init| ensures PageNum(init[j]) != n {
          assert init[j] == segments[j];
        }
      }
      NotNamedOnNoPage(init, n);
    }
  }

  /** Without a parseable page every segment falls back to page 1, so replacing the grouping
      by `{1: segments}` changes nothing: all segments are on page 1, in input order. */
  lemma {:induction false} NoPageAllOnPageOne(segments: seq<Segment>)
    requires segments != [] && !HasAnyPage(segments)
    ensures Groups(segments) == [PageGroup(1, segments)]
    decreases |segments|
  {
    var init, last := segments[..|segments| - 1], segments[|segments| - 1];
    assert PageNum(last) == 1 by {
      assert PageOf(segments[|segments| - 1].page).None?;
    }
    if init != [] {
      assert !HasAnyPage(init) by {
        forall j | 0 <= j < |init| ensures PageOf(init[j].page).None? {
          assert init[j] == segments[j];
        }
      }
      NoPageAllOnPageOne(init);
      AddToOnlyPage(init, last);
      assert init + [last] == segments;
    } else {
      assert segments == [last];
    }
  }

  lemma AddToOnlyPage(init: seq<Segment>, s: Segment)
    ensures AddToPage([PageGroup(1, init)], 1, s) == [PageGroup(1, init + [s])]
  {
    assert Keys([PageGroup(1, init)]) == [1];
  }

  // ---------------------------------------------------------------- sorted page numbers

  predicate Ascending(groups: seq<PageGroup>) {
    forall i, j :: 0 <= i < j < |groups| ==> groups[i].page <= groups[j].page
  }

  function InsertByPage(g: PageGroup, groups: seq<PageGroup>): (r: seq<PageGroup>)
    requires Ascending(groups)
    ensures Ascending(r) && multiset(r) == multiset(groups) + multiset{g}
    ensures r[0] == g || (groups != [] && r[0] == groups[0])
    decreases |groups|
  {
    if groups == [] || g.page <= groups[0].page then [g] + groups
    else
      var tail := groups[1..];
      assert Ascending(tail) by {
        forall i, j | 0 <= i < j < |tail| ensures tail[i].page <= tail[j].page {
          assert tail[i] == groups[i + 1] && tail[j] == groups[j + 1];
        }
      }
      var rest := InsertByPage(g, tail);
      assert tail != [] ==> tail[0] == groups[1];
      AscendingCons(groups[0], rest);
      assert groups == [groups[0]] + tail;
      assert multiset([groups[0]] + rest) == multiset{groups[0]} + multiset(rest);
      assert multiset(groups) == multiset{groups[0]} + multiset(tail);
      [groups[0]] + rest
  }

  lemma AscendingCons(g: PageGroup, groups: seq<PageGroup>)
    requires Ascending(groups) && (groups == [] || g.page <= groups[0].page)
    ensures Ascending([g] + groups)
  {
  }

  /** The entries in ascending page order (`sorted(pages.keys())`). */
  function SortByPage(groups: seq<PageGroup>): (r: seq<PageGroup>)
    ensures Ascending(r) && multiset(r) == multiset(groups)
    decreases |groups|
  {
    if groups == [] then []
    else
      assert groups == [groups[0]] + groups[1..];
      InsertByPage(groups[0], SortByPage(groups[1..]))
  }

  // ---------------------------------------------------------------- rendering

  /** One segment as written: its right-stripped text and a blank line; nothing when the
      stripped text is empty. */
  function SegmentText(s: Segment): string {
    var t := RStrip(if s.text.Some? then s.text.value else "");
    if |t| > 0 then t + "\n\n" else ""
  }

  function Texts(group: seq<Segment>): string
    decreases |group|
  {
    if group == [] then "" else Texts(group[..|group| - 1]) + SegmentText(group[|group| - 1])
  }

  function PageHeader(n: int): string {
    "<!-- PageNumber=\"" + IntToString(n) + "\" -->\n" + "\n## Page " + IntToString(n) + "\n\n"
  }

  const PageFooter := "<!-- PageBreak -->\n\n"

  /** A page of `segments.md`. */
  function PageBlock(n: int, group: seq<Segment>): string {
    PageHeader(n) + Texts(group) + PageFooter
  }

  function Blocks(groups: seq<PageGroup>): string
    decreases |groups|
  {
    if groups == [] then ""
    else
      var g := groups[|groups| - 1];
      Blocks(groups[..|groups| - 1]) + PageBlock(g.page, g.segments)
  }

  lemma BlocksNext(groups: seq<PageGroup>, k: int)
    requires 0 <= k < |groups|
    ensures Blocks(groups[..k + 1]) == Blocks(groups[..k]) + PageHeader(groups[k].page) + Texts(groups[k].segments) + PageFooter
  {
    assert groups[..k + 1][..k] == groups[..k];
  }

  /** The dictionary actually written: the grouping by page, or `{1: segments}` when no page
      parses. */
  function PagesOf(segments: seq<Segment>): seq<PageGroup> {
    if HasAnyPage(segments) then Groups(segments) else [PageGroup(1, segments)]
  }

  /** The text of `segments.md`. */
  function Render(segments: seq<Segment>): string {
    Blocks(SortByPage(PagesOf(segments)))
  }

  /** The first loop of `_write_segments_markdown`: `setdefault(...).append` per segment,
      noting whether any page parsed. */
  method GroupSegments(segments: seq<Segment>) returns (pages: seq<PageGroup>, hasAnyPage: bool)
    ensures pages == Groups(segments)
    ensures hasAnyPage <==> HasAnyPage(segments)
  {
    pages := [];
    hasAnyPage := false;
    for i := 0 to |segments|
      invariant pages == Groups(segments[..i])
      invariant hasAnyPage <==> HasAnyPage(segments[..i])
    {
      var s := segments[i];
      var p := PageOf(s.page);
      var pageNum := 1;
      if p.Some? {
        pageNum := p.value;
        hasAnyPage := true;
      }
      GroupsNext(segments, i);
      pages := AddToPage(pages, pageNum, s);
    }
    assert segments[..|segments|] == segments;
  }

  lemma GroupsNext(segments: seq<Segment>, i: int)
    requires 0 <= i < |segments|
    ensures Groups(segments[..i + 1]) == AddToPage(Groups(segments[..i]), PageNum(segments[i]), segments[i])
    ensures HasAnyPage(segments[..i + 1]) <==> HasAnyPage(segments[..i]) || PageOf(segments[i].page).Some?
  {
    var prefix := segments[..i + 1];
    assert prefix[..i] == segments[..i] && prefix[i] == segments[i];
    AnyPageNext(segments, i);
  }

  lemma AnyPageNext(segments: seq<Segment>, i: int)
    requires 0 <= i < |segments|
    ensures HasAnyPage(segments[..i + 1]) <==> HasAnyPage(segments[..i]) || PageOf(segments[i].page).Some?
  {
    var prefix := segments[..i + 1];
    assert forall j :: 0 <= j < i ==> prefix[j] == segments[..i][j];
    assert prefix[i] == segments[i];
  }

  /** The segments of one page written out in order. */
  method WriteTexts(group: seq<Segment>) returns (out: string)
    ensures out == Texts(group)
  {
    out := "";
    for m := 0 to |group|
      invariant out == Texts(group[..m])
    {
      assert group[..m + 1][..m] == group[..m];
      out := out + SegmentText(group[m]);
    }
    assert group[..|group|] == group;
  }

  /** The second loop of `_write_segments_markdown`: each page's header, texts and footer,
      page after page. */
  method WritePages(sorted: seq<PageGroup>) returns (out: string)
    ensures out == Blocks(sorted)
  {
    out := "";
    for k := 0 to |sorted|
      invariant out == Blocks(sorted[..k])
    {
      var texts := WriteTexts(sorted[k].segments);
      BlocksNext(sorted, k);
      out := out + PageHeader(sorted[k].page) + texts + PageFooter;
    }
    assert sorted[..|sorted|] == sorted;
  }

  /** `_write_segments_markdown`, with the stream modelled as the text written to it. */
  method WriteSegmentsMarkdown(segments: seq<Segment>) returns (out: string)
    ensures out == Render(segments)
  {
    var pages, hasAnyPage := GroupSegments(segments);
    if !hasAnyPage {
      pages := [PageGroup(1, segments)];
    }
    out := WritePages(SortByPage(pages));
  }

  /** `execute`: an empty segment list is an error; otherwise the text of `segments.md`. */
  method Execute(segments: seq<Segment>) returns (r: Result<string>)
    ensures r.Err? <==> segments == []
    ensures r.Err? ==> r.msg == NoSegments
    ensures r.Ok? ==> r.value == Render(segments)
  {
    if segments == [] {
      return Err(NoSegments);
    }
    var md := WriteSegmentsMarkdown(segments);
    return Ok(md);
  }

  // ---------------------------------------------------------------- properties

  /** The pages written are the pages the segments name (page 1 standing for a missing or
      unparseable one), each once, each holding its own segments in input order; with no
      parseable page at all, a single page 1 holds all of them. */
  lemma WrittenPages(segments: seq<Segment>)
    requires segments != []
    ensures var pages := PagesOf(segments);
      Distinct(Keys(pages)) &&
      (forall n :: n in Keys(pages) <==> Named(segments, n)) &&
      (forall i :: 0 <= i < |pages| ==> pages[i].segments == OnPage(segments, pages[i].page))
  {
    GroupsMeaning(segments);
    if !HasAnyPage(segments) {
      NoPageAllOnPageOne(segments);
    }
  }

  /** Sorting keeps the entries and, the page numbers being distinct, puts them in strictly
      ascending order. */
  lemma SortedStrictly(groups: seq<PageGroup>)
    requires Distinct(Keys(groups))
    ensures var r := SortByPage(groups);
      multiset(r) == multiset(groups) &&
      forall i, j :: 0 <= i < j < |r| ==> r[i].page < r[j].page
  {
    var r := SortByPage(groups);
    forall i, j | 0 <= i < j < |r| ensures r[i].page < r[j].page {
      assert r[i] in multiset(groups) && r[j] in multiset(groups);
      var a :| 0 <= a < |groups| && groups[a] == r[i];
      var b :| 0 <= b < |groups| && groups[b] == r[j];
      if a == b {
        TwiceCounted(r, i, j);
        OnceCounted(groups, a);
      }
    }
  }

  /** An entry at two positions counts at least twice. */
  lemma TwiceCounted(r: seq<PageGroup>, i: int, j: int)
    requires 0 <= i < j < |r|
    ensures r[i] == r[j] ==> multiset(r)[r[i]] >= 2
  {
    assert r == r[..j] + r[j..];
    assert r[i] == r[..j][i] && r[j] == r[j..][0];
  }

  /** With distinct page numbers every entry counts once. */
  lemma {:induction false} OnceCounted(groups: seq<PageGroup>, a: int)
    requires Distinct(Keys(groups)) && 0 <= a < |groups|
    ensures multiset(groups)[groups[a]] == 1
    decreases |groups|
  {
    var rest := groups[1..];
    assert groups == [groups[0]] + rest;
    DistinctTail(groups);
    if a == 0 {
      assert groups[0] !in rest;
    } else {
      OnceCounted(rest, a - 1);
      assert rest[a - 1] == groups[a];
    }
  }

  /** Without its first entry a list with distinct page numbers keeps them distinct, and
      holds no other entry for the first page. */
  lemma DistinctTail(groups: seq<PageGroup>)
    requires Distinct(Keys(groups)) && groups != []
    ensures Distinct(Keys(groups[1..])) && groups[0] !in groups[1..]
  {
    var rest := groups[1..];
    forall i, j | 0 <= i < j < |rest| ensures rest[i].page != rest[j].page {
      assert Keys(groups)[i + 1] == rest[i].page && Keys(groups)[j + 1] == rest[j].page;
    }
    forall k | 0 <= k < |rest| ensures rest[k] != groups[0] {
      assert Keys(groups)[k + 1] == rest[k].page;
    }
  }

  /** Texts that strip to nothing leave no trace in the page. */
  lemma {:induction false} BlankSegmentsSkipped(group: seq<Segment>)
    requires forall k :: 0 <= k < |group| ==> |RStrip(if group[k].text.Some? then group[k].text.value else "")| == 0
    ensures Texts(group) == ""
    decreases |group|
  {
    if group != [] {
      BlankSegmentsSkipped(group[..|group| - 1]);
    }
  }
}

/** The markdown side of merging tables that a page break split in two: dropping the
    separator line of the second table, normalising header cell text, reading a pipe table
    into rows, writing rows back as a pipe table, and placing two tables side by side. */
module TableText {
  import opened Wrappers
  import opened PyStr

  /** `set("-:| +")`: the characters a separator line such as `|---|:--:|` is made of. */
  const HeaderChars: set<char> := {'-', ':', '|', ' ', '+'}
  /** `set("-:")`: the characters of one cell of a separator line. */
  const RuleChars: set<char> := {'-', ':'}
  /** `set("-:| ")`: lines made only of these are skipped when a table is read into rows. */
  const SeparatorChars: set<char> := {'-', ':', '|', ' '}

  predicate AllIn(s: string, cs: set<char>) {
    forall i :: 0 <= i < |s| ==> s[i] in cs
  }

  // ---------------------------------------------------------------- dropping the separator

  /** The stripped, non-empty pieces of `s` between its `|` characters. */
  function Tokens(s: string): (ts: seq<string>)
    ensures forall k :: 0 <= k < |ts| ==> ts[k] != []
  {
    NonEmptyStripped(Split(s, "|"))
  }

  function NonEmptyStripped(parts: seq<string>): (ts: seq<string>)
    ensures forall k :: 0 <= k < |ts| ==> ts[k] != []
  {
    if parts == [] then []
    else (if Strip(parts[0]) != [] then [Strip(parts[0])] else []) + NonEmptyStripped(parts[1..])
  }

  /** The line `_remove_header_from_markdown_table` drops: once stripped, either it is
      non-empty and made only of `-:| +`, or its non-empty cells are all made of `-:`. */
  predicate IsHeaderLine(line: string) {
    var stripped := Strip(line);
    (stripped != [] && AllIn(stripped, HeaderChars)) ||
    (var tokens := Tokens(stripped);
     tokens != [] && forall k :: 0 <= k < |tokens| ==> AllIn(tokens[k], RuleChars))
  }

  /** Which lines are header lines. */
  function HeaderMarks(lines: seq<string>): (marks: seq<bool>)
    ensures |marks| == |lines| && forall j :: 0 <= j < |lines| ==> marks[j] == IsHeaderLine(lines[j])
  {
    seq(|lines|, j requires 0 <= j < |lines| => IsHeaderLine(lines[j]))
  }

  /** The lines, each followed by `"\n"`, except the first marked one. */
  function DropFirstMarked(lines: seq<string>, marks: seq<bool>): string
    requires |marks| == |lines|
  {
    if lines == [] then ""
    else if marks[0] then Unlines(lines[1..])
    else lines[0] + "\n" + DropFirstMarked(lines[1..], marks[1..])
  }

  /** What `_remove_header_from_markdown_table` returns for the lines of a text. */
  function HeaderRemoved(lines: seq<string>): string {
    DropFirstMarked(lines, HeaderMarks(lines))
  }

  /** `_remove_header_from_markdown_table`: the loop with its `header_removed` flag. */
  method RemoveHeader(markdownTable: string) returns (result: string)
    ensures result == HeaderRemoved(SplitLines(markdownTable))
  {
    result := "";
    var lines := SplitLines(markdownTable);
    ghost var marks := HeaderMarks(lines);
    var headerRemoved := false;
    var i := 0;
    while i < |lines|
      invariant 0 <= i <= |lines|
      invariant result + StillToWrite(lines, marks, i, headerRemoved) == DropFirstMarked(lines, marks)
    {
      var line := lines[i];
      LineStep(lines, marks, i, headerRemoved);
      var stripped := Strip(line);
      if !headerRemoved && stripped != [] && AllIn(stripped, HeaderChars) {
        headerRemoved := true;
        i := i + 1;
        continue;
      }
      var tokens := Tokens(stripped);
      if !headerRemoved && tokens != [] && forall k :: 0 <= k < |tokens| ==> AllIn(tokens[k], RuleChars) {
        headerRemoved := true;
        i := i + 1;
        continue;
      }
      AppendLine(result, line, StillToWrite(lines, marks, i + 1, headerRemoved));
      result := result + line + "\n";
      i := i + 1;
    }
  }

  /** What the loop of `RemoveHeader` has still to write from line `i` on, with or without
      the header already dropped. */
  ghost function StillToWrite(lines: seq<string>, marks: seq<bool>, i: nat, removed: bool): string
    requires |marks| == |lines| && i <= |lines|
  {
    if removed then Unlines(lines[i..]) else DropFirstMarked(lines[i..], marks[i..])
  }

  /** One turn of the loop of `RemoveHeader`: the first line that passes either test is
      dropped; any other line is written, followed by a newline. */
  lemma LineStep(lines: seq<string>, marks: seq<bool>, i: nat, removed: bool)
    requires marks == HeaderMarks(lines) && i < |lines|
    ensures var stripped := Strip(lines[i]);
      var tokens := Tokens(stripped);
      var dropped := !removed && ((stripped != [] && AllIn(stripped, HeaderChars)) ||
        (tokens != [] && forall k :: 0 <= k < |tokens| ==> AllIn(tokens[k], RuleChars)));
      (dropped ==> StillToWrite(lines, marks, i, removed) == StillToWrite(lines, marks, i + 1, true)) &&
      (!dropped ==> StillToWrite(lines, marks, i, removed) == lines[i] + "\n" + StillToWrite(lines, marks, i + 1, removed))
  {
    assert marks[i] == IsHeaderLine(lines[i]);
    assert lines[i..][1..] == lines[i + 1..];
    assert marks[i..][1..] == marks[i + 1..];
  }

  lemma AppendLine(acc: string, line: string, rest: string)
    ensures acc + line + "\n" + rest == acc + (line + "\n" + rest)
  {
  }

  /** With no line marked every line is kept, in order. */
  lemma {:induction false} DropFirstMarkedKeepsAll(lines: seq<string>, marks: seq<bool>)
    requires |marks| == |lines| && forall k :: 0 <= k < |marks| ==> !marks[k]
    ensures DropFirstMarked(lines, marks) == Unlines(lines)
  {
    if lines != [] {
      DropFirstMarkedKeepsAll(lines[1..], marks[1..]);
    }
  }

  /** Exactly the first marked line is dropped; every other line is kept in order. */
  lemma {:induction false} DropFirstMarkedDropsFirst(lines: seq<string>, marks: seq<bool>, k: nat)
    requires |marks| == |lines| && k < |lines| && marks[k]
    requires forall j :: 0 <= j < k ==> !marks[j]
    ensures DropFirstMarked(lines, marks) == Unlines(lines[..k] + lines[k + 1..])
  {
    if k == 0 {
      assert lines[..0] + lines[1..] == lines[1..];
    } else {
      DropFirstMarkedDropsFirst(lines[1..], marks[1..], k - 1);
      WithoutAt(lines, k);
    }
  }

  lemma WithoutAt<T>(s: seq<T>, k: nat)
    requires 0 < k < |s|
    ensures s[..k] + s[k + 1..] == [s[0]] + (s[1..][..k - 1] + s[1..][k..])
  {
  }

  /** Without a header line every line is kept, in order. */
  lemma HeaderRemovedKeepsAll(lines: seq<string>)
    requires forall k :: 0 <= k < |lines| ==> !IsHeaderLine(lines[k])
    ensures HeaderRemoved(lines) == Unlines(lines)
  {
    DropFirstMarkedKeepsAll(lines, HeaderMarks(lines));
  }

  /** Exactly the first header line is dropped; every other line, header-like or not, is
      kept in order. */
  lemma HeaderRemovedDropsFirst(lines: seq<string>, k: nat)
    requires k < |lines| && IsHeaderLine(lines[k])
    requires forall j :: 0 <= j < k ==> !IsHeaderLine(lines[j])
    ensures HeaderRemoved(lines) == Unlines(lines[..k] + lines[k + 1..])
  {
    DropFirstMarkedDropsFirst(lines, HeaderMarks(lines), k);
  }

  /** `_merge_vertical_content`: the first table, stripped, then the second without its
      header line, stripped, each ended by a newline. */
  function MergeVerticalContent(content1: string, content2: string): string {
    Strip(content1) + "\n" + Strip(HeaderRemoved(SplitLines(content2))) + "\n"
  }

  /** `_merge_vertical_content`, reading the second table through `RemoveHeader`. */
  method MergeVerticalTables(content1: string, content2: string) returns (merged: string)
    ensures merged == MergeVerticalContent(content1, content2)
  {
    var body := RemoveHeader(content2);
    merged := Strip(content1) + "\n" + Strip(body) + "\n";
  }

  // ---------------------------------------------------------------- header cell text

  /** `re.sub(r"\s+", " ", s)`: every run of whitespace becomes one space. */
  function CollapseWhitespace(s: string): (r: string)
    ensures IsCollapsed(r)
    ensures r == [] <==> s == []
    ensures r != [] ==> (r[0] in Whitespace <==> s[0] in Whitespace)
    ensures r != [] ==> (r[|r| - 1] in Whitespace <==> s[|s| - 1] in Whitespace)
    decreases |s|
  {
    if s == [] then []
    else if s[0] in Whitespace then
      var rest := LStripChars(s, Whitespace);
      var t := CollapseWhitespace(rest);
      assert rest != [] ==> rest[|rest| - 1] == s[|s| - 1];
      ConsCollapsed(' ', t);
      " " + t
    else
      var t := CollapseWhitespace(s[1..]);
      ConsCollapsed(s[0], t);
      [s[0]] + t
  }

  /** A collapsed text stays collapsed behind a character that is not whitespace, or behind
      a space when it does not start with whitespace. */
  lemma ConsCollapsed(c: char, t: string)
    requires IsCollapsed(t) && (c in Whitespace ==> c == ' ' && (t == [] || t[0] !in Whitespace))
    ensures IsCollapsed([c] + t)
  {
    var r := [c] + t;
    forall i | 0 <= i < |r| && r[i] in Whitespace
      ensures r[i] == ' ' && (i + 1 < |r| ==> r[i + 1] !in Whitespace)
    {
      if i > 0 {
        assert r[i] == t[i - 1];
      }
    }
  }

  /** No whitespace but single spaces. */
  predicate IsCollapsed(r: string) {
    (forall i :: 0 <= i < |r| && r[i] in Whitespace ==> r[i] == ' ') &&
    (forall i, j :: 0 <= i && j == i + 1 < |r| ==> !(r[i] in Whitespace && r[j] in Whitespace))
  }

  /** `_normalize_cell_text`: `None` reads as the empty string; then strip, collapse runs of
      whitespace to one space and lower-case. The result is the text's words, lowered and
      joined by single spaces. */
  function NormalizeCellText(text: Option<string>): (r: string)
    ensures IsNormalized(r)
    ensures r == Join(LowerAll(Words(if text.Some? then text.value else "")), " ")
  {
    var t := if text.Some? then text.value else "";
    var c := CollapseWhitespace(Strip(t));
    LowerKeepsShape(c);
    NormalizeByWords(t);
    Lower(c)
  }

  /** The texts `_normalize_cell_text` can return. */
  predicate IsNormalized(r: string) {
    IsStripped(r) && IsCollapsed(r) && forall i :: 0 <= i < |r| ==> !('A' <= r[i] <= 'Z')
  }

  lemma LowerKeepsShape(s: string)
    ensures IsCollapsed(s) ==> IsCollapsed(Lower(s))
    ensures IsStripped(s) ==> IsStripped(Lower(s))
    ensures forall i :: 0 <= i < |s| ==> !('A' <= Lower(s)[i] <= 'Z')
  {
    forall i | 0 <= i < |s|
      ensures Lower(s)[i] in Whitespace <==> s[i] in Whitespace
      ensures Lower(s)[i] == ' ' <==> s[i] == ' '
    {
    }
  }

  lemma {:induction false} CollapseCollapsed(s: string)
    requires IsCollapsed(s)
    ensures CollapseWhitespace(s) == s
    decreases |s|
  {
    if s != [] {
      var rest := s[1..];
      CollapsedTail(s);
      CollapseCollapsed(rest);
      CollapseStep(s);
    }
  }

  /** On a collapsed text, collapsing keeps its first character and goes on with the rest. */
  lemma CollapseStep(s: string)
    requires s != [] && (s[0] in Whitespace ==> s[0] == ' ' && (s[1..] == [] || s[1..][0] !in Whitespace))
    ensures CollapseWhitespace(s) == [s[0]] + CollapseWhitespace(s[1..])
  {
    if s[0] in Whitespace {
      LStripNoop(s[1..], Whitespace);
    }
  }

  lemma CollapsedTail(s: string)
    requires s != [] && IsCollapsed(s)
    ensures IsCollapsed(s[1..])
    ensures s[0] in Whitespace ==> s[0] == ' ' && (s[1..] == [] || s[1..][0] !in Whitespace)
  {
    forall i | 0 <= i < |s| - 1 && s[1..][i] in Whitespace
      ensures s[1..][i] == ' ' && (i + 1 < |s| - 1 ==> s[1..][i + 1] !in Whitespace)
    {
      assert s[1..][i] == s[i + 1];
    }
  }

  /** Normalising is idempotent: a normalised text is its own normal form. */
  lemma NormalizeNormalized(r: string)
    requires IsNormalized(r)
    ensures NormalizeCellText(Some(r)) == r
  {
    StripStripped(r);
    CollapseCollapsed(r);
    assert Lower(r) == r;
  }

  /** A missing cell text reads as the empty text: both normalise to "". */
  lemma NormalizeNoneEmpty()
    ensures NormalizeCellText(None) == NormalizeCellText(Some("")) == ""
  {
  }

  /** Two texts normalise alike exactly when their words agree up to ASCII case: header
      comparison ignores case, whitespace at the ends and the length of whitespace runs. */
  lemma NormalizeAlike(a: string, b: string)
    ensures NormalizeCellText(Some(a)) == NormalizeCellText(Some(b)) <==> LowerAll(Words(a)) == LowerAll(Words(b))
  {
    LowerAllWords(Words(a));
    LowerAllWords(Words(b));
    JoinWordsInjective(LowerAll(Words(a)), LowerAll(Words(b)));
  }

  // ---------------------------------------------------------------- words

  /** A non-empty run of characters none of which is whitespace. */
  predicate IsWord(w: string) {
    w != [] && forall i :: 0 <= i < |w| ==> w[i] !in Whitespace
  }

  /** The length of the run of non-whitespace characters `s` starts with. */
  function WordLen(s: string): (n: nat)
    ensures n <= |s|
    ensures forall i :: 0 <= i < n ==> s[i] !in Whitespace
    ensures n < |s| ==> s[n] in Whitespace
  {
    if s == [] || s[0] in Whitespace then 0
    else
      var m := WordLen(s[1..]);
      assert forall i :: 1 <= i < m + 1 ==> s[i] == s[1..][i - 1];
      1 + m
  }

  /** The words of `s`: its maximal runs of non-whitespace characters, in order. */
  function Words(s: string): (ws: seq<string>)
    ensures forall k :: 0 <= k < |ws| ==> IsWord(ws[k])
    decreases |s|
  {
    if s == [] then []
    else if s[0] in Whitespace then Words(s[1..])
    else
      var n := WordLen(s);
      [s[..n]] + Words(s[n..])
  }

  /** The space `re.sub(r"\s+", " ", s)` leaves in front when `s` starts with whitespace. */
  function Lead(s: string): string {
    if s != [] && s[0] in Whitespace then " " else ""
  }

  /** The space it leaves at the end when `s` has a word and ends with whitespace (an
      all-whitespace text is only the leading space). */
  function Trail(s: string): string {
    if s != [] && Words(s) != [] && s[|s| - 1] in Whitespace then " " else ""
  }

  function LowerAll(ws: seq<string>): (r: seq<string>)
    ensures |r| == |ws| && forall k :: 0 <= k < |ws| ==> r[k] == Lower(ws[k])
  {
    seq(|ws|, k requires 0 <= k < |ws| => Lower(ws[k]))
  }

  /** Collapsing whitespace keeps the words in order with one space between two of them,
      and one space for whitespace at either end. */
  lemma {:induction false} CollapseWords(s: string)
    ensures CollapseWhitespace(s) == Lead(s) + Join(Words(s), " ") + Trail(s)
    decreases |s|
  {
    if s != [] && s[0] in Whitespace {
      CollapseWords(LStripChars(s, Whitespace));
      CollapseBlankStep(s);
    } else if s != [] {
      CollapseWords(s[1..]);
      if WordLen(s) == 1 {
        CollapseShortWordStep(s);
      } else {
        CollapseLongWordStep(s);
      }
    }
  }

  /** A leading run of whitespace becomes one space in front of the rest. */
  lemma CollapseBlankStep(s: string)
    requires s != [] && s[0] in Whitespace
    requires var rest := LStripChars(s, Whitespace);
      CollapseWhitespace(rest) == Lead(rest) + Join(Words(rest), " ") + Trail(rest)
    ensures CollapseWhitespace(s) == Lead(s) + Join(Words(s), " ") + Trail(s)
  {
    var rest := LStripChars(s, Whitespace);
    WordsLStrip(s);
    TrailLStrip(s);
    assert Lead(s) == " " && Lead(rest) == "";
    assert CollapseWhitespace(s) == " " + CollapseWhitespace(rest);
    DropEmpty(" ", Join(Words(rest), " "), Trail(rest));
  }

  /** A one-character word in front of the rest. */
  lemma CollapseShortWordStep(s: string)
    requires s != [] && s[0] !in Whitespace && WordLen(s) == 1
    requires CollapseWhitespace(s[1..]) == Lead(s[1..]) + Join(Words(s[1..]), " ") + Trail(s[1..])
    ensures CollapseWhitespace(s) == Lead(s) + Join(Words(s), " ") + Trail(s)
  {
    var tail := s[1..];
    var ws := Words(tail);
    WordsShort(s);
    JoinFirst([s[0]], ws, " ");
    assert Lead(s) == "";
    assert CollapseWhitespace(s) == [s[0]] + CollapseWhitespace(tail);
    if tail == [] {
      assert Trail(s) == "" && CollapseWhitespace(tail) == "";
      WordAlone([s[0]]);
    } else if ws == [] {
      TrailBlankTail(s);
      assert Lead(tail) == " " && Join(ws, " ") == "" && Trail(tail) == "";
      SpaceBehind([s[0]]);
    } else {
      TrailTail(s);
      assert Lead(tail) == " ";
      Regroup([s[0]], " ", Join(ws, " "), Trail(tail));
    }
  }

  /** A longer word in front: its first character goes in front of the rest's first word. */
  lemma CollapseLongWordStep(s: string)
    requires s != [] && s[0] !in Whitespace && WordLen(s) > 1
    requires CollapseWhitespace(s[1..]) == Lead(s[1..]) + Join(Words(s[1..]), " ") + Trail(s[1..])
    ensures CollapseWhitespace(s) == Lead(s) + Join(Words(s), " ") + Trail(s)
  {
    var tail := s[1..];
    var n := WordLen(s);
    var rest := if Words(s[n..]) == [] then "" else " " + Join(Words(s[n..]), " ");
    WordsLong(s);
    JoinFirst(tail[..n - 1], Words(s[n..]), " ");
    JoinFirst(s[..n], Words(s[n..]), " ");
    TrailTail(s);
    assert Lead(s) == "" && Lead(tail) == "";
    assert CollapseWhitespace(s) == [s[0]] + CollapseWhitespace(tail);
    WordGrows([s[0]], tail[..n - 1], rest, Trail(tail));
  }

  /** `lstrip()` keeps the last character of a text it does not empty. */
  lemma LStripLast(s: string, cs: set<char>)
    ensures var r := LStripChars(s, cs); r != [] ==> r[|r| - 1] == s[|s| - 1]
  {
  }

  lemma TrailLStrip(s: string)
    ensures Trail(LStripChars(s, Whitespace)) == Trail(s)
  {
    WordsLStrip(s);
    LStripLast(s, Whitespace);
  }

  /** The first word of a text that starts with a one-character word. */
  lemma WordsShort(s: string)
    requires s != [] && s[0] !in Whitespace && WordLen(s) == 1
    ensures Words(s) == [[s[0]]] + Words(s[1..])
  {
    assert s[..1] == [s[0]];
  }

  /** The first word of a text that starts with a longer word, and of the text after its
      first character. */
  lemma WordsLong(s: string)
    requires s != [] && s[0] !in Whitespace && WordLen(s) > 1
    ensures var n := WordLen(s);
      Words(s[1..]) == [s[1..][..n - 1]] + Words(s[n..]) &&
      Words(s) == [[s[0]] + s[1..][..n - 1]] + Words(s[n..])
  {
    SliceCons(s, WordLen(s));
  }

  /** Behind a word, the text's trailing space is that of the text after its first
      character. */
  lemma TrailTail(s: string)
    requires |s| >= 2 && s[0] !in Whitespace && Words(s[1..]) != []
    ensures Trail(s) == Trail(s[1..])
  {
    LastOfTail(s);
  }

  /** Behind a one-character word, an all-whitespace rest leaves one trailing space. */
  lemma TrailBlankTail(s: string)
    requires |s| >= 2 && s[0] !in Whitespace && Words(s[1..]) == []
    ensures Trail(s) == " "
  {
    WordsEmptyBlank(s[1..]);
    LastOfTail(s);
    assert s[1..][|s| - 2] in Whitespace;
  }

  /** Concatenations regrouped, stated on plain strings so that no definition of the
      texts is in scope. */
  lemma DropEmpty(a: string, j: string, t: string)
    ensures a + ("" + j + t) == a + j + t
  {
  }

  lemma SpaceBehind(a: string)
    ensures a + (" " + "" + "") == "" + (a + "") + " "
  {
  }

  lemma Regroup(a: string, b: string, j: string, t: string)
    ensures a + (b + j + t) == "" + (a + (b + j)) + t
  {
  }

  lemma SliceCons(s: string, n: nat)
    requires 1 <= n <= |s|
    ensures s[..n] == [s[0]] + s[1..][..n - 1] && s[1..][n - 1..] == s[n..]
  {
  }

  lemma LastOfTail(s: string)
    requires |s| >= 2
    ensures s[|s| - 1] == s[1..][|s[1..]| - 1]
  {
  }

  lemma WordAlone(a: string)
    ensures a + "" == "" + (a + "") + ""
  {
  }

  lemma WordGrows(c: string, w: string, r: string, t: string)
    ensures c + ("" + (w + r) + t) == "" + (c + w + r) + t
  {
  }

  lemma JoinFirst(w: string, ws: seq<string>, sep: string)
    ensures Join([w] + ws, sep) == w + (if ws == [] then "" else sep + Join(ws, sep))
  {
    if ws != [] {
      assert ([w] + ws)[1..] == ws;
    }
  }

  /** A text without words is all whitespace. */
  lemma {:induction false} WordsEmptyBlank(s: string)
    requires Words(s) == []
    ensures forall i :: 0 <= i < |s| ==> s[i] in Whitespace
    decreases |s|
  {
    if s != [] {
      assert s[0] in Whitespace;
      WordsEmptyBlank(s[1..]);
      forall i | 1 <= i < |s| ensures s[i] in Whitespace {
        assert s[i] == s[1..][i - 1];
      }
    }
  }

  /** Whitespace in front adds no word. */
  lemma {:induction false} WordsBlankPrefix(w: string, s: string)
    requires forall i :: 0 <= i < |w| ==> w[i] in Whitespace
    ensures Words(w + s) == Words(s)
    decreases |w|
  {
    if w != [] {
      assert (w + s)[0] == w[0];
      assert (w + s)[1..] == w[1..] + s;
      WordsBlankPrefix(w[1..], s);
    } else {
      assert w + s == s;
    }
  }

  /** Whitespace behind adds no word. */
  lemma {:induction false} WordsBlankSuffix(s: string, w: string)
    requires forall i :: 0 <= i < |w| ==> w[i] in Whitespace
    ensures Words(s + w) == Words(s)
    decreases |s|
  {
    if s == [] {
      assert s + w == w + [];
      WordsBlankPrefix(w, []);
    } else if s[0] in Whitespace {
      assert (s + w)[0] == s[0];
      assert (s + w)[1..] == s[1..] + w;
      WordsBlankSuffix(s[1..], w);
    } else {
      var n := WordLen(s);
      var t := s + w;
      WordLenExtend(s, w);
      assert t[0] == s[0];
      assert t[..n] == s[..n];
      assert t[n..] == s[n..] + w;
      WordsBlankSuffix(s[n..], w);
    }
  }

  lemma WordLenExtend(s: string, w: string)
    requires forall i :: 0 <= i < |w| ==> w[i] in Whitespace
    ensures WordLen(s + w) == WordLen(s)
  {
    var t := s + w;
    assert forall i :: 0 <= i < |s| ==> t[i] == s[i];
    var n := WordLen(s);
    if n < |s| {
      assert t[n] == s[n];
    } else if w != [] {
      assert t[n] == w[0];
    }
  }

  /** `strip()` changes no word. */
  lemma WordsStrip(s: string)
    ensures Words(Strip(s)) == Words(s)
  {
    StripIsBothEnds(s, Whitespace);
    WordsLStrip(s);
    WordsRStrip(LStripChars(s, Whitespace));
  }

  lemma WordsLStrip(s: string)
    ensures Words(LStripChars(s, Whitespace)) == Words(s)
  {
    var l := LStripChars(s, Whitespace);
    var k := |s| - |l|;
    assert s == s[..k] + l;
    WordsBlankPrefix(s[..k], l);
  }

  lemma WordsRStrip(s: string)
    ensures Words(RStripChars(s, Whitespace)) == Words(s)
  {
    var r := RStripChars(s, Whitespace);
    assert s == r + s[|r|..];
    WordsBlankSuffix(r, s[|r|..]);
  }

  /** The lowered, collapsed, stripped text is the lowered words joined by single spaces. */
  lemma NormalizeByWords(t: string)
    ensures Lower(CollapseWhitespace(Strip(t))) == Join(LowerAll(Words(t)), " ")
  {
    var u := Strip(t);
    StripIdempotent(t);
    CollapseWords(u);
    assert Lead(u) == "" && Trail(u) == "";
    WordsStrip(t);
    LowerJoin(Words(t));
  }

  lemma {:induction false} LowerJoin(ws: seq<string>)
    ensures Lower(Join(ws, " ")) == Join(LowerAll(ws), " ")
    decreases |ws|
  {
    if |ws| > 1 {
      LowerJoin(ws[1..]);
      assert LowerAll(ws)[1..] == LowerAll(ws[1..]);
      LowerConcat(ws[0], " " + Join(ws[1..], " "));
      LowerConcat(" ", Join(ws[1..], " "));
    }
  }

  lemma LowerConcat(a: string, b: string)
    ensures Lower(a + b) == Lower(a) + Lower(b)
  {
    assert forall i :: 0 <= i < |a| + |b| ==> (a + b)[i] == if i < |a| then a[i] else b[i - |a|];
  }

  /** Lowering keeps words words. */
  lemma LowerAllWords(ws: seq<string>)
    requires forall k :: 0 <= k < |ws| ==> IsWord(ws[k])
    ensures forall k :: 0 <= k < |ws| ==> IsWord(LowerAll(ws)[k])
  {
  }

  /** Words joined by single spaces can be read back: different word lists give different
      texts. */
  lemma JoinWordsInjective(a: seq<string>, b: seq<string>)
    requires forall k :: 0 <= k < |a| ==> IsWord(a[k])
    requires forall k :: 0 <= k < |b| ==> IsWord(b[k])
    ensures Join(a, " ") == Join(b, " ") <==> a == b
  {
    assert ' ' in Whitespace;
    if a != [] {
      JoinEnds(a, " ");
      SplitJoin(a, ' ');
    }
    if b != [] {
      JoinEnds(b, " ");
      SplitJoin(b, ' ');
    }
  }

  // ---------------------------------------------------------------- reading rows

  /** The lines with something besides whitespace, in order. */
  function NonBlankLines(lines: seq<string>): (r: seq<string>)
    ensures |r| <= |lines|
    ensures forall k :: 0 <= k < |r| ==> Strip(r[k]) != []
  {
    if lines == [] then []
    else (if Strip(lines[0]) != [] then [lines[0]] else []) + NonBlankLines(lines[1..])
  }

  /** A line `_markdown_table_to_rows` skips: once stripped, made only of `-:| `. */
  predicate IsSeparatorLine(line: string) {
    AllIn(Strip(line), SeparatorChars)
  }

  /** The cells of a row line: strip it, strip its outer pipes, split at `|` and strip
      each piece. */
  function RowCells(line: string): (cells: seq<string>)
    ensures |cells| >= 1 && forall k :: 0 <= k < |cells| ==> IsStripped(cells[k])
  {
    var parts := Split(StripChars(Strip(line), {'|'}), "|");
    StripEach(parts);
    seq(|parts|, k requires 0 <= k < |parts| => Strip(parts[k]))
  }

  lemma StripEach(parts: seq<string>)
    ensures forall k :: 0 <= k < |parts| ==> IsStripped(Strip(parts[k]))
  {
    forall k | 0 <= k < |parts| {
      StripIdempotent(parts[k]);
    }
  }

  /** The rows of the non-separator lines, in order. */
  function DataRows(lines: seq<string>): seq<seq<string>> {
    if lines == [] then []
    else (if IsSeparatorLine(lines[0]) then [] else [RowCells(lines[0])]) + DataRows(lines[1..])
  }

  /** What `_markdown_table_to_rows` returns for a text. */
  function TableRows(markdownTable: string): seq<seq<string>> {
    DataRows(NonBlankLines(SplitLines(markdownTable)))
  }

  /** `_markdown_table_to_rows`: the loop over the non-blank lines. */
  method MarkdownTableToRows(markdownTable: string) returns (rows: seq<seq<string>>)
    ensures rows == TableRows(markdownTable)
  {
    var lines := NonBlankLines(SplitLines(markdownTable));
    rows := [];
    var i := 0;
    while i < |lines|
      invariant 0 <= i <= |lines|
      invariant rows + DataRows(lines[i..]) == DataRows(lines)
    {
      var ln := lines[i];
      ghost var rest := DataRows(lines[i + 1..]);
      DataRowsStep(lines, i);
      if IsSeparatorLine(ln) {
        assert DataRows(lines[i..]) == rest;
        i := i + 1;
        continue;
      }
      var parts := RowCells(ln);
      assert DataRows(lines[i..]) == [parts] + rest;
      AppendRow(rows, parts, rest);
      rows := rows + [parts];
      i := i + 1;
    }
    assert lines[i..] == [];
  }

  /** One more line of `DataRows`. */
  lemma DataRowsStep(lines: seq<string>, i: nat)
    requires i < |lines|
    ensures DataRows(lines[i..])
      == (if IsSeparatorLine(lines[i]) then [] else [RowCells(lines[i])]) + DataRows(lines[i + 1..])
  {
    assert lines[i..][1..] == lines[i + 1..];
  }

  lemma AppendRow(acc: seq<seq<string>>, row: seq<string>, rest: seq<seq<string>>)
    ensures acc + [row] + rest == acc + ([row] + rest)
  {
  }

  // ---------------------------------------------------------------- writing rows

  /** The length of the longest row. */
  function MaxCols(rows: seq<seq<string>>): (m: nat)
    ensures forall k :: 0 <= k < |rows| ==> |rows[k]| <= m
    ensures rows != [] ==> exists k :: 0 <= k < |rows| && |rows[k]| == m
  {
    if rows == [] then 0
    else
      var m := MaxCols(rows[1..]);
      if |rows[0]| >= m then |rows[0]|
      else
        var k :| 0 <= k < |rows[1..]| && |rows[1..][k]| == m;
        assert |rows[k + 1]| == m;
        m
  }

  /** `r + [""] * (n - len(r))`. */
  function Pad(row: seq<string>, n: nat): (r: seq<string>)
    requires |row| <= n
  {
    row + seq(n - |row|, _ => "")
  }

  /** Every row padded to `n` cells. */
  function Padded(rows: seq<seq<string>>, n: nat): (r: seq<seq<string>>)
    requires forall k :: 0 <= k < |rows| ==> |rows[k]| <= n
    ensures |r| == |rows|
  {
    seq(|rows|, k requires 0 <= k < |rows| => Pad(rows[k], n))
  }

  /** `"|" + "|".join(cells) + "|"`. */
  function RowLine(cells: seq<string>): string {
    "|" + Join(cells, "|") + "|"
  }

  /** The separator line of `n` columns, `|---|---|`. */
  function RuleLine(n: nat): string {
    RowLine(seq(n, _ => "---"))
  }

  function RowLines(rows: seq<seq<string>>): (r: seq<string>)
    ensures |r| == |rows|
  {
    seq(|rows|, k requires 0 <= k < |rows| => RowLine(rows[k]))
  }

  /** The lines `_rows_to_markdown_table` writes: the padded header row, the separator,
      then the padded body rows. */
  function TableLines(rows: seq<seq<string>>): seq<string>
    requires rows != []
  {
    var n := MaxCols(rows);
    var norm := Padded(rows, n);
    [RowLine(norm[0]), RuleLine(n)] + RowLines(norm[1..])
  }

  /** What `_rows_to_markdown_table` returns. */
  function MarkdownTable(rows: seq<seq<string>>): string {
    if rows == [] then "" else Join(TableLines(rows), "\n") + "\n"
  }

  /** `_rows_to_markdown_table`: the loop over the body rows. */
  method RowsToMarkdownTable(rows: seq<seq<string>>) returns (md: string)
    ensures md == MarkdownTable(rows)
  {
    if rows == [] {
      return "";
    }
    var maxCols := MaxCols(rows);
    var normRows := Padded(rows, maxCols);
    var header := normRows[0];
    var sep := seq(maxCols, _ => "---");
    var body := normRows[1..];
    var outLines := [RowLine(header), RowLine(sep)];
    ghost var all := TableLines(rows);
    var i := 0;
    while i < |body|
      invariant 0 <= i <= |body|
      invariant outLines == all[..i + 2]
    {
      outLines := outLines + [RowLine(body[i])];
      i := i + 1;
    }
    assert outLines == all;
    md := Join(outLines, "\n") + "\n";
  }

  /** A table of rows has one line per row plus the separator line after the first; every
      row is padded to the widest row's cell count, the separator has that many `---`
      cells, every line starts and ends with `|`, and the text ends with a newline. */
  lemma MarkdownTableShape(rows: seq<seq<string>>)
    requires rows != []
    ensures var n, lines := MaxCols(rows), TableLines(rows);
      |lines| == |rows| + 1 &&
      lines[0] == RowLine(Pad(rows[0], n)) && lines[1] == RuleLine(n) &&
      (forall k :: 1 <= k < |rows| ==> lines[k + 1] == RowLine(Pad(rows[k], n))) &&
      (forall k :: 0 <= k < |lines| ==> PipeLine(lines[k]))
    ensures var md := MarkdownTable(rows); |md| > 0 && md[|md| - 1] == '\n'
  {
    var n := MaxCols(rows);
    forall k | 1 <= k < |rows| ensures TableLines(rows)[k + 1] == RowLine(Pad(rows[k], n)) {
      TableLineOfRow(rows, k);
    }
    TableLinesPiped(rows);
    var md := MarkdownTable(rows);
    assert md == Join(TableLines(rows), "\n") + "\n";
  }

  /** Line `k + 1` of a table is its row `k`, padded, for every row after the first. */
  lemma TableLineOfRow(rows: seq<seq<string>>, k: nat)
    requires 1 <= k < |rows|
    ensures var n := MaxCols(rows); |rows[k]| <= n && TableLines(rows)[k + 1] == RowLine(Pad(rows[k], n))
  {
    var n := MaxCols(rows);
    assert |rows[k]| <= n;
    var norm := Padded(rows, n);
    var tail := norm[1..];
    assert tail[k - 1] == norm[k] == Pad(rows[k], n);
    var body := RowLines(tail);
    assert body[k - 1] == RowLine(tail[k - 1]);
    var lines := [RowLine(norm[0]), RuleLine(n)] + body;
    assert lines[k + 1] == body[k - 1];
    assert TableLines(rows) == lines;
    assert lines[k + 1] == RowLine(Pad(rows[k], n));
  }

  /** Every line of a table starts and ends with `|` and is stripped. */
  lemma TableLinesPiped(rows: seq<seq<string>>)
    requires rows != []
    ensures forall k :: 0 <= k < |TableLines(rows)| ==> PipeLine(TableLines(rows)[k])
  {
    var n := MaxCols(rows);
    var norm := Padded(rows, n);
    var body := RowLines(norm[1..]);
    var lines := [RowLine(norm[0]), RuleLine(n)] + body;
    assert lines == TableLines(rows);
    forall k | 0 <= k < |lines| ensures PipeLine(lines[k]) {
      if k == 0 {
        PipeLineOf(norm[0]);
      } else if k == 1 {
        PipeLineOf(seq(n, _ => "---"));
      } else {
        assert lines[k] == body[k - 2] == RowLine(norm[1..][k - 2]);
        PipeLineOf(norm[1..][k - 2]);
      }
    }
  }

  /** Padding keeps a row's cells in front and fills it up to `n` cells with empty ones. */
  lemma PadShape(row: seq<string>, n: nat)
    requires |row| <= n
    ensures |Pad(row, n)| == n && Pad(row, n)[..|row|] == row
    ensures forall k :: |row| <= k < n ==> Pad(row, n)[k] == ""
  {
  }

  // ---------------------------------------------------------------- side by side

  /** Row `k`, or no cells past the end: the fill value of `zip_longest`. */
  function RowOr(rows: seq<seq<string>>, k: nat): seq<string> {
    if k < |rows| then rows[k] else []
  }

  /** `zip_longest(rows1, rows2, fillvalue=[])` with each pair concatenated. */
  function ZipRows(rows1: seq<seq<string>>, rows2: seq<seq<string>>): (merged: seq<seq<string>>)
    ensures |merged| == if |rows1| >= |rows2| then |rows1| else |rows2|
  {
    seq(if |rows1| >= |rows2| then |rows1| else |rows2|, k requires k >= 0 => RowOr(rows1, k) + RowOr(rows2, k))
  }

  /** What `_merge_horizontal_tables` returns: either text unchanged when the other has
      no rows, otherwise the table of the row-wise concatenation. */
  function MergedHorizontal(table1: string, table2: string): string {
    var rows1, rows2 := TableRows(table1), TableRows(table2);
    if rows1 == [] then table2
    else if rows2 == [] then table1
    else MarkdownTable(ZipRows(rows1, rows2))
  }

  /** `_merge_horizontal_tables`: the `zip_longest` loop. */
  method MergeHorizontalTables(table1: string, table2: string) returns (md: string)
    ensures md == MergedHorizontal(table1, table2)
  {
    var rows1 := MarkdownTableToRows(table1);
    var rows2 := MarkdownTableToRows(table2);
    if rows1 == [] {
      return table2;
    }
    if rows2 == [] {
      return table1;
    }
    var mergedRows := ZipLongest(rows1, rows2);
    md := RowsToMarkdownTable(mergedRows);
  }

  /** The `zip_longest` loop of `_merge_horizontal_tables`. */
  method ZipLongest(rows1: seq<seq<string>>, rows2: seq<seq<string>>) returns (mergedRows: seq<seq<string>>)
    ensures mergedRows == ZipRows(rows1, rows2)
  {
    ghost var zipped := ZipRows(rows1, rows2);
    mergedRows := [];
    var i := 0;
    while i < |rows1| || i < |rows2|
      invariant 0 <= i <= |zipped|
      invariant mergedRows == zipped[..i]
      decreases |rows1| + |rows2| - i
    {
      var r1 := if i < |rows1| then rows1[i] else [];
      var r2 := if i < |rows2| then rows2[i] else [];
      assert zipped[i] == r1 + r2;
      mergedRows := mergedRows + [r1 + r2];
      i := i + 1;
    }
    assert mergedRows == zipped;
  }

  // ---------------------------------------------------------------- reading back what was written

  predicate NoneIn(s: string, cs: set<char>) {
    forall i :: 0 <= i < |s| ==> s[i] !in cs
  }

  /** A cell that survives being written and read back: stripped, with no `|` and no line
      break. */
  predicate IsPlainCell(c: string) {
    IsStripped(c) && forall i :: 0 <= i < |c| ==> c[i] != '|' && c[i] !in LineBreaks
  }

  /** A row that survives being written and read back: plain cells, outer cells non-empty
      (the reader strips every pipe at either end of a line) and a line not made only of
      `-:| ` (the reader skips such lines). */
  predicate IsPlainRow(row: seq<string>) {
    |row| >= 1 && (forall k :: 0 <= k < |row| ==> IsPlainCell(row[k])) &&
    row[0] != [] && row[|row| - 1] != [] && !AllIn(RowLine(row), SeparatorChars)
  }

  /** Plain rows, all `n` cells wide. */
  predicate IsPlainTable(rows: seq<seq<string>>, n: nat) {
    rows != [] && forall k :: 0 <= k < |rows| ==> |rows[k]| == n && IsPlainRow(rows[k])
  }

  lemma {:induction false} JoinAllIn(parts: seq<string>, sep: string, cs: set<char>)
    requires AllIn(sep, cs) && forall k :: 0 <= k < |parts| ==> AllIn(parts[k], cs)
    ensures AllIn(Join(parts, sep), cs)
    decreases |parts|
  {
    if |parts| > 1 {
      JoinAllIn(parts[1..], sep, cs);
      ConcatAllIn(parts[0], sep, Join(parts[1..], sep), cs);
    }
  }

  lemma ConcatAllIn(a: string, b: string, c: string, cs: set<char>)
    requires AllIn(a, cs) && AllIn(b, cs) && AllIn(c, cs)
    ensures AllIn(a + b + c, cs)
  {
    forall i | 0 <= i < |a + b + c| ensures (a + b + c)[i] in cs {
      if i >= |a| + |b| {
        assert (a + b + c)[i] == c[i - |a| - |b|];
      } else if i >= |a| {
        assert (a + b + c)[i] == b[i - |a|];
      }
    }
  }

  lemma {:induction false} JoinNoneIn(parts: seq<string>, sep: string, cs: set<char>)
    requires NoneIn(sep, cs) && forall k :: 0 <= k < |parts| ==> NoneIn(parts[k], cs)
    ensures NoneIn(Join(parts, sep), cs)
    decreases |parts|
  {
    if |parts| > 1 {
      JoinNoneIn(parts[1..], sep, cs);
      ConcatNoneIn(parts[0], sep, Join(parts[1..], sep), cs);
    }
  }

  lemma ConcatNoneIn(a: string, b: string, c: string, cs: set<char>)
    requires NoneIn(a, cs) && NoneIn(b, cs) && NoneIn(c, cs)
    ensures NoneIn(a + b + c, cs)
  {
    forall i | 0 <= i < |a + b + c| ensures (a + b + c)[i] !in cs {
      if i >= |a| + |b| {
        assert (a + b + c)[i] == c[i - |a| - |b|];
      } else if i >= |a| {
        assert (a + b + c)[i] == b[i - |a|];
      }
    }
  }

  /** A written row line: stripped, not a separator, free of line breaks, and its cells
      read back unchanged. */
  lemma PlainRowLine(row: seq<string>)
    requires IsPlainRow(row)
    ensures PipeLine(RowLine(row))
    ensures !IsSeparatorLine(RowLine(row))
    ensures NoneIn(RowLine(row), LineBreaks)
    ensures RowCells(RowLine(row)) == row
  {
    PipeLineOf(row);
    RowLineNoBreaks(row);
    RowCellsOfLine(row);
  }

  lemma PipeLineOf(cells: seq<string>)
    ensures PipeLine(RowLine(cells))
  {
    assert '|' !in Whitespace;
    StripStripped(RowLine(cells));
  }

  lemma RowLineNoBreaks(row: seq<string>)
    requires forall k :: 0 <= k < |row| ==> IsPlainCell(row[k])
    ensures NoneIn(RowLine(row), LineBreaks)
  {
    assert '|' !in LineBreaks;
    forall k | 0 <= k < |row| ensures NoneIn(row[k], LineBreaks) {
      assert IsPlainCell(row[k]);
    }
    JoinNoneIn(row, "|", LineBreaks);
    ConcatNoneIn("|", Join(row, "|"), "|", LineBreaks);
  }

  /** Stripping the pipes of a row line leaves the joined cells: the cells at either end
      are non-empty and hold no pipe. */
  lemma OuterPipes(row: seq<string>)
    requires |row| >= 1 && row[0] != [] && row[|row| - 1] != []
    requires IsPlainCell(row[0]) && IsPlainCell(row[|row| - 1])
    ensures StripChars(RowLine(row), {'|'}) == Join(row, "|")
  {
    var j := Join(row, "|");
    var first, last := row[0], row[|row| - 1];
    JoinEnds(row, "|");
    assert j[0] == j[..|first|][0] == first[0];
    assert j[|j| - 1] == j[|j| - |last|..][|last| - 1] == last[|last| - 1];
    StripPipesAround(j);
  }

  /** Stripping the pipes around a text that neither starts nor ends with one. */
  lemma StripPipesAround(j: string)
    requires j != [] && j[0] != '|' && j[|j| - 1] != '|'
    ensures StripChars("|" + j + "|", {'|'}) == j
  {
    var pipe, line, t := {'|'}, "|" + j + "|", j + "|";
    assert line[0] in pipe && line[1..] == t;
    assert StripChars(line, pipe) == StripChars(t, pipe);
    assert t[0] == j[0] && t[0] !in pipe;
    assert StripChars(t, pipe) == RStripChars(t, pipe);
    assert t[|t| - 1] in pipe && t[..|t| - 1] == j;
    assert RStripChars(t, pipe) == RStripChars(j, pipe);
    assert j[|j| - 1] !in pipe;
  }

  lemma RowCellsOfLine(row: seq<string>)
    requires IsPlainRow(row)
    ensures RowCells(RowLine(row)) == row
  {
    PipeLineOf(row);
    OuterPipes(row);
    SplitJoin(row, '|');
    forall k | 0 <= k < |row| ensures Strip(row[k]) == row[k] {
      StripStripped(row[k]);
    }
  }

  /** The written separator line: stripped, a separator line, a header line, free of line
      breaks. */
  lemma RuleLineFacts(n: nat)
    ensures var line := RuleLine(n); Strip(line) == line && line != [] && line[0] == '|' && line[|line| - 1] == '|'
    ensures IsSeparatorLine(RuleLine(n)) && IsHeaderLine(RuleLine(n))
    ensures NoneIn(RuleLine(n), LineBreaks)
  {
    var cells := seq(n, _ => "---");
    var j := Join(cells, "|");
    assert '|' !in Whitespace && '|' !in LineBreaks && '-' !in LineBreaks;
    StripStripped(RuleLine(n));
    JoinAllIn(cells, "|", SeparatorChars);
    ConcatAllIn("|", j, "|", SeparatorChars);
    JoinAllIn(cells, "|", HeaderChars);
    ConcatAllIn("|", j, "|", HeaderChars);
    JoinNoneIn(cells, "|", LineBreaks);
    ConcatNoneIn("|", j, "|", LineBreaks);
  }

  /** The lines written for plain rows of one width. */
  lemma PlainTableLines(rows: seq<seq<string>>, n: nat)
    requires IsPlainTable(rows, n)
    ensures TableLines(rows) == [RowLine(rows[0]), RuleLine(n)] + RowLines(rows[1..])
  {
    assert MaxCols(rows) == n;
    forall k | 0 <= k < |rows| ensures Pad(rows[k], n) == rows[k] {
      assert seq(n - |rows[k]|, _ => "") == [];
    }
    assert Padded(rows, n) == rows;
  }

  lemma {:induction false} NonBlankAll(lines: seq<string>)
    requires forall k :: 0 <= k < |lines| ==> Strip(lines[k]) != []
    ensures NonBlankLines(lines) == lines
    decreases |lines|
  {
    if lines != [] {
      NonBlankAll(lines[1..]);
    }
  }

  lemma {:induction false} DataRowsOfPlain(rows: seq<seq<string>>)
    requires forall k :: 0 <= k < |rows| ==> IsPlainRow(rows[k])
    ensures DataRows(RowLines(rows)) == rows
    decreases |rows|
  {
    if rows != [] {
      PlainRowLine(rows[0]);
      RowLinesTail(rows);
      DataRowsOfPlain(rows[1..]);
    }
  }

  lemma RowLinesTail(rows: seq<seq<string>>)
    requires rows != []
    ensures RowLines(rows) == [RowLine(rows[0])] + RowLines(rows[1..])
    ensures rows == [rows[0]] + rows[1..]
  {
  }

  /** The text written for plain rows splits back into its lines, each a row line or the
      separator line. */
  lemma PlainTableText(rows: seq<seq<string>>, n: nat)
    requires IsPlainTable(rows, n)
    ensures MarkdownTable(rows) == Unlines(TableLines(rows))
    ensures SplitLines(MarkdownTable(rows)) == TableLines(rows)
    ensures forall k :: 0 <= k < |TableLines(rows)| ==> PipeLine(TableLines(rows)[k])
  {
    var lines := TableLines(rows);
    forall k | 0 <= k < |lines| ensures NoneIn(lines[k], LineBreaks) && PipeLine(lines[k]) {
      TableLineFacts(rows, n, k);
    }
    JoinNewlines(lines);
    SplitLinesUnlines(lines);
  }

  lemma TableLineFacts(rows: seq<seq<string>>, n: nat, k: nat)
    requires IsPlainTable(rows, n) && k < |TableLines(rows)|
    ensures NoneIn(TableLines(rows)[k], LineBreaks) && PipeLine(TableLines(rows)[k])
  {
    PlainTableLines(rows, n);
    WrittenLineFacts(rows, n, k);
  }

  lemma WrittenLineFacts(rows: seq<seq<string>>, n: nat, k: nat)
    requires IsPlainTable(rows, n) && k < |rows| + 1
    ensures var lines := [RowLine(rows[0]), RuleLine(n)] + RowLines(rows[1..]);
      NoneIn(lines[k], LineBreaks) && PipeLine(lines[k])
  {
    var lines := [RowLine(rows[0]), RuleLine(n)] + RowLines(rows[1..]);
    if k == 0 {
      PlainRowLine(rows[0]);
    } else if k == 1 {
      RuleLineFacts(n);
    } else {
      assert lines[k] == RowLine(rows[k - 1]);
      PlainRowLine(rows[k - 1]);
    }
  }

  /** A non-empty line that `strip()` leaves alone, starting and ending with `|`. */
  predicate PipeLine(line: string) {
    Strip(line) == line && line != [] && line[0] == '|' && line[|line| - 1] == '|'
  }

  /** A table written by `_rows_to_markdown_table` reads back as the rows it was written
      from, when the rows are plain and of one width. */
  lemma TableRoundTrip(rows: seq<seq<string>>, n: nat)
    requires IsPlainTable(rows, n)
    ensures TableRows(MarkdownTable(rows)) == rows
  {
    PlainTableText(rows, n);
    var lines := TableLines(rows);
    forall k | 0 <= k < |lines| ensures Strip(lines[k]) != [] {
      assert PipeLine(lines[k]);
    }
    NonBlankAll(lines);
    DataRowsOfTableLines(rows, n);
  }

  /** The header row line is read, the separator line skipped, the body row lines read. */
  lemma DataRowsOfTableLines(rows: seq<seq<string>>, n: nat)
    requires IsPlainTable(rows, n)
    ensures DataRows(TableLines(rows)) == rows
  {
    var lines := TableLines(rows);
    var body := RowLines(rows[1..]);
    assert lines[0] == RowLine(rows[0]) && lines[1] == RuleLine(n) && lines[2..] == body by {
      PlainTableLines(rows, n);
    }
    assert DataRows(lines) == [rows[0]] + DataRows(lines[1..]) by {
      PlainRowLine(rows[0]);
      DataRowsStep(lines, 0);
      assert lines[0..] == lines;
    }
    assert DataRows(lines[1..]) == DataRows(body) by {
      RuleLineFacts(n);
      DataRowsStep(lines, 1);
    }
    DataRowsOfPlain(rows[1..]);
    RowLinesTail(rows);
  }

  /** Two plain rows side by side make a plain row. */
  lemma PlainRowsSideBySide(r1: seq<string>, r2: seq<string>)
    requires IsPlainRow(r1) && IsPlainRow(r2)
    ensures IsPlainRow(r1 + r2)
  {
    var r := r1 + r2;
    RowLinePrefix(r1, r2);
    PrefixNotAllIn(RowLine(r1), RowLine(r), SeparatorChars);
    forall k | 0 <= k < |r| ensures IsPlainCell(r[k]) {
      if k >= |r1| {
        assert r[k] == r2[k - |r1|];
      }
    }
  }

  /** The line of two rows side by side starts with the line of the first. */
  lemma RowLinePrefix(r1: seq<string>, r2: seq<string>)
    requires r1 != [] && r2 != []
    ensures |RowLine(r1)| <= |RowLine(r1 + r2)| && RowLine(r1 + r2)[..|RowLine(r1)|] == RowLine(r1)
  {
    JoinAppend(r1, r2, "|");
    assert RowLine(r1 + r2) == RowLine(r1) + (Join(r2, "|") + "|");
  }

  lemma PrefixNotAllIn(a: string, b: string, cs: set<char>)
    requires !AllIn(a, cs) && |a| <= |b| && b[..|a|] == a
    ensures !AllIn(b, cs)
  {
    var i :| 0 <= i < |a| && a[i] !in cs;
    assert b[i] == a[i];
  }

  /** Two tables of plain rows and equal row counts merged side by side read back as each
      row of the first followed by the same row of the second. */
  lemma HorizontalRoundTrip(rows1: seq<seq<string>>, n1: nat, rows2: seq<seq<string>>, n2: nat)
    requires IsPlainTable(rows1, n1) && IsPlainTable(rows2, n2) && |rows1| == |rows2|
    ensures var merged := TableRows(MergedHorizontal(MarkdownTable(rows1), MarkdownTable(rows2)));
      |merged| == |rows1| && forall k :: 0 <= k < |rows1| ==> merged[k] == rows1[k] + rows2[k]
  {
    var t1, t2 := MarkdownTable(rows1), MarkdownTable(rows2);
    var zipped := ZipRows(rows1, rows2);
    TableRoundTrip(rows1, n1);
    TableRoundTrip(rows2, n2);
    MergedOfRows(t1, t2);
    assert TableRows(MarkdownTable(zipped)) == zipped by {
      ZippedPlain(rows1, n1, rows2, n2);
      TableRoundTrip(zipped, n1 + n2);
    }
    ZipRowsPairs(rows1, rows2);
  }

  /** Rows of equal count are paired index by index. */
  lemma ZipRowsPairs(rows1: seq<seq<string>>, rows2: seq<seq<string>>)
    requires |rows1| == |rows2|
    ensures forall k :: 0 <= k < |rows1| ==> ZipRows(rows1, rows2)[k] == rows1[k] + rows2[k]
  {
  }

  lemma MergedOfRows(table1: string, table2: string)
    requires TableRows(table1) != [] && TableRows(table2) != []
    ensures MergedHorizontal(table1, table2) == MarkdownTable(ZipRows(TableRows(table1), TableRows(table2)))
  {
  }

  lemma ZippedPlain(rows1: seq<seq<string>>, n1: nat, rows2: seq<seq<string>>, n2: nat)
    requires IsPlainTable(rows1, n1) && IsPlainTable(rows2, n2) && |rows1| == |rows2|
    ensures IsPlainTable(ZipRows(rows1, rows2), n1 + n2)
  {
    var zipped := ZipRows(rows1, rows2);
    forall k | 0 <= k < |zipped| ensures zipped[k] == rows1[k] + rows2[k] && |zipped[k]| == n1 + n2 && IsPlainRow(zipped[k]) {
      PlainRowsSideBySide(rows1[k], rows2[k]);
    }
  }

  // ---------------------------------------------------------------- one under the other

  /** Text of lines that start and end with `|`, each ended by a newline, strips to the
      lines joined by newlines. */
  lemma StripJoinedLines(lines: seq<string>)
    requires lines != [] && forall k :: 0 <= k < |lines| ==> PipeLine(lines[k])
    ensures Strip(Unlines(lines)) == Join(lines, "\n")
  {
    var j := Join(lines, "\n");
    JoinNewlines(lines);
    JoinEnds(lines, "\n");
    assert PipeLine(lines[0]) && PipeLine(lines[|lines| - 1]);
    assert j[0] == lines[0][0];
    assert j[|j| - 1] == lines[|lines| - 1][|lines[|lines| - 1]| - 1];
    assert '|' !in Whitespace;
    StripTrailingNewline(j);
  }

  /** A row line holds only characters of `cs` when its cells do and `|` is one of them. */
  lemma RowLineAllIn(row: seq<string>, cs: set<char>)
    requires '|' in cs
    ensures (forall k :: 0 <= k < |row| ==> AllIn(row[k], cs)) ==> AllIn(RowLine(row), cs)
  {
    if forall k :: 0 <= k < |row| ==> AllIn(row[k], cs) {
      JoinAllIn(row, "|", cs);
      ConcatAllIn("|", Join(row, "|"), "|", cs);
    }
  }

  /** Split at its pipes, a row line gives an empty piece, the cells, and an empty piece. */
  lemma SplitRowLine(row: seq<string>)
    requires |row| >= 1 && forall k :: 0 <= k < |row| ==> IsPlainCell(row[k])
    ensures Split(RowLine(row), "|") == [""] + row + [""]
  {
    var parts := [""] + row + [""];
    var j := Join(row, "|");
    JoinAppend(row, [""], "|");
    assert Join(row + [""], "|") == j + "|";
    assert parts == [""] + (row + [""]);
    JoinAppend([""], row + [""], "|");
    assert Join(parts, "|") == "|" + (j + "|") == RowLine(row);
    forall k, i | 0 <= k < |parts| && 0 <= i < |parts[k]| ensures parts[k][i] != '|' {
      assert parts[k] == row[k - 1];
      assert IsPlainCell(row[k - 1]);
    }
    SplitJoin(parts, '|');
  }

  /** Every non-empty stripped piece is among the tokens. */
  lemma {:induction false} NonEmptyStrippedHas(parts: seq<string>, k: nat)
    requires k < |parts| && Strip(parts[k]) != []
    ensures Strip(parts[k]) in NonEmptyStripped(parts)
    decreases k
  {
    if k > 0 {
      NonEmptyStrippedHas(parts[1..], k - 1);
      assert parts[1..][k - 1] == parts[k];
    }
  }

  /** A plain row with a character outside `-:| +` is not taken for the separator line. */
  lemma RowLineNotHeader(row: seq<string>)
    requires IsPlainRow(row) && !AllIn(RowLine(row), HeaderChars)
    ensures !IsHeaderLine(RowLine(row))
  {
    PipeLineOf(row);
    CellOutside(row, HeaderChars);
    var k :| 0 <= k < |row| && !AllIn(row[k], HeaderChars);
    CellIsToken(row, k);
    NotHeaderLine(RowLine(row), row[k]);
  }

  lemma CellOutside(row: seq<string>, cs: set<char>)
    requires '|' in cs && !AllIn(RowLine(row), cs)
    ensures exists k :: 0 <= k < |row| && !AllIn(row[k], cs)
  {
    RowLineAllIn(row, cs);
  }

  /** Each non-empty cell of a plain row is a token of its line. */
  lemma CellIsToken(row: seq<string>, k: nat)
    requires IsPlainRow(row) && k < |row| && row[k] != []
    ensures row[k] in Tokens(RowLine(row))
  {
    assert IsPlainCell(row[k]);
    StripStripped(row[k]);
    SplitRowLine(row);
    var parts := [""] + row + [""];
    assert parts[k + 1] == row[k];
    NonEmptyStrippedHas(parts, k + 1);
  }

  /** A stripped line with a character outside `-:| +` and a token with a character
      outside `-:` is not a header line. */
  lemma NotHeaderLine(line: string, t: string)
    requires Strip(line) == line && !AllIn(line, HeaderChars)
    requires t in Tokens(line) && !AllIn(t, HeaderChars)
    ensures !IsHeaderLine(line)
  {
  }

  lemma RowLinesAppend(a: seq<seq<string>>, b: seq<seq<string>>)
    ensures RowLines(a + b) == RowLines(a) + RowLines(b)
  {
  }

  /** Two tables of plain rows and one width merged one under the other give the table of
      all their rows, provided the second table's first row is not made only of `-:| +`
      (it would then be dropped in place of the separator). */
  lemma VerticalRoundTrip(rows1: seq<seq<string>>, rows2: seq<seq<string>>, n: nat)
    requires IsPlainTable(rows1, n) && IsPlainTable(rows2, n)
    requires !AllIn(RowLine(rows2[0]), HeaderChars)
    ensures MergeVerticalContent(MarkdownTable(rows1), MarkdownTable(rows2)) == MarkdownTable(rows1 + rows2)
  {
    var lines1 := TableLines(rows1);
    var kept := [RowLine(rows2[0])] + RowLines(rows2[1..]);
    StrippedTable(rows1, n);
    SeparatorDropped(rows2, n);
    StackedLines(rows1, rows2, n);
    JoinAppend(lines1, kept, "\n");
  }

  /** The written table, stripped, is its lines joined by newlines. */
  lemma StrippedTable(rows: seq<seq<string>>, n: nat)
    requires IsPlainTable(rows, n)
    ensures Strip(MarkdownTable(rows)) == Join(TableLines(rows), "\n")
  {
    PlainTableText(rows, n);
    StripJoinedLines(TableLines(rows));
  }

  /** Removing the header of a written table drops exactly its separator line. */
  lemma SeparatorDropped(rows: seq<seq<string>>, n: nat)
    requires IsPlainTable(rows, n) && !AllIn(RowLine(rows[0]), HeaderChars)
    ensures Strip(HeaderRemoved(SplitLines(MarkdownTable(rows))))
      == Join([RowLine(rows[0])] + RowLines(rows[1..]), "\n")
  {
    var first, body := RowLine(rows[0]), RowLines(rows[1..]);
    PlainTableText(rows, n);
    PlainTableLines(rows, n);
    RowLineNotHeader(rows[0]);
    RuleLineFacts(n);
    DropSecondLine(first, RuleLine(n), body);
    KeptPipeLines(rows);
    StripJoinedLines([first] + body);
  }

  /** A header line right after a line that is not one is the line dropped. */
  lemma DropSecondLine(first: string, rule: string, body: seq<string>)
    requires !IsHeaderLine(first) && IsHeaderLine(rule)
    ensures HeaderRemoved([first, rule] + body) == Unlines([first] + body)
  {
    var lines := [first, rule] + body;
    assert lines[0] == first && lines[1] == rule;
    assert forall j :: 0 <= j < 1 ==> lines[j] == first;
    HeaderRemovedDropsFirst(lines, 1);
    assert lines[..1] == [first] && lines[2..] == body;
  }

  /** Every written row line starts and ends with a pipe. */
  lemma KeptPipeLines(rows: seq<seq<string>>)
    requires rows != []
    ensures var kept := [RowLine(rows[0])] + RowLines(rows[1..]);
      forall k :: 0 <= k < |kept| ==> PipeLine(kept[k])
  {
    var kept := [RowLine(rows[0])] + RowLines(rows[1..]);
    forall k | 0 <= k < |kept| ensures PipeLine(kept[k]) {
      if k == 0 {
        PipeLineOf(rows[0]);
      } else {
        assert kept[k] == RowLine(rows[k]);
        PipeLineOf(rows[k]);
      }
    }
  }

  /** The lines of the table of all rows: the first table's lines, then the second's
      without its separator line. */
  lemma StackedLines(rows1: seq<seq<string>>, rows2: seq<seq<string>>, n: nat)
    requires IsPlainTable(rows1, n) && IsPlainTable(rows2, n)
    ensures TableLines(rows1 + rows2) == TableLines(rows1) + ([RowLine(rows2[0])] + RowLines(rows2[1..]))
  {
    var all := rows1 + rows2;
    var top := [RowLine(rows1[0]), RuleLine(n)];
    var body1, body2 := RowLines(rows1[1..]), RowLines(rows2);
    assert TableLines(all) == top + RowLines(all[1..]) by {
      PlainTablesStack(rows1, rows2, n);
      PlainTableLines(all, n);
      TailOfConcat(rows1, rows2);
    }
    assert RowLines(all[1..]) == body1 + body2 by {
      TailOfConcat(rows1, rows2);
      RowLinesAppend(rows1[1..], rows2);
    }
    assert TableLines(rows1) == top + body1 by {
      PlainTableLines(rows1, n);
    }
    RowLinesTail(rows2);
    ConcatAssoc(top, body1, body2);
  }

  lemma TailOfConcat<T>(a: seq<T>, b: seq<T>)
    requires a != []
    ensures (a + b)[0] == a[0] && (a + b)[1..] == a[1..] + b
  {
  }

  lemma ConcatAssoc<T>(a: seq<T>, b: seq<T>, c: seq<T>)
    ensures a + (b + c) == (a + b) + c
  {
  }

  lemma PlainTablesStack(rows1: seq<seq<string>>, rows2: seq<seq<string>>, n: nat)
    requires IsPlainTable(rows1, n) && IsPlainTable(rows2, n)
    ensures IsPlainTable(rows1 + rows2, n)
  {
    var all := rows1 + rows2;
    forall k | 0 <= k < |all| ensures |all[k]| == n && IsPlainRow(all[k]) {
      if k < |rows1| {
        assert all[k] == rows1[k];
      } else {
        assert all[k] == rows2[k - |rows1|];
      }
    }
  }
}

/** The figure and page helpers of the Document Intelligence layout loader
    (`di_tools.py`): splitting the merged markdown into pages, naming and de-duplicating
    figure images, and putting a markdown image tag where the figure stood. */
module DiTools {
  import opened Wrappers
  import opened PyStr
  import opened FileUtils
  import MergeTable

  // ---------------------------------------------------------------- pages

  /** The marker the layout service puts between pages. */
  const PageBreak := "<!-- PageBreak -->"

  /** One page of the markdown: its 1-based number as text, and its text. */
  datatype PageContent = PageContent(pageNumber: string, content: string)

  /** The page texts: the pieces between page-break markers; one empty page for empty
      markdown. */
  function PageTexts(markdown: string): (texts: seq<string>)
    ensures |texts| >= 1
    ensures Join(texts, PageBreak) == markdown
    ensures forall k :: 0 <= k < |texts| ==> !Contains(texts[k], PageBreak)
  {
    if markdown == "" then [""] else Split(markdown, PageBreak)
  }

  /** What `_split_markdown` returns: page `i` is numbered `str(i + 1)`. */
  function SplitPages(markdown: string): seq<PageContent> {
    var texts := PageTexts(markdown);
    seq(|texts|, i requires 0 <= i < |texts| => PageContent(NatToString(i + 1), texts[i]))
  }

  method SplitMarkdown(markdown: string) returns (pagesContent: seq<PageContent>)
    ensures pagesContent == SplitPages(markdown)
  {
    var pages := if markdown != "" then Split(markdown, PageBreak) else [""];
    ghost var expected := SplitPages(markdown);
    assert |expected| == |pages|;
    pagesContent := [];
    for i := 0 to |pages|
      invariant pagesContent == expected[..i]
    {
      assert expected[..i + 1] == expected[..i] + [expected[i]];
      assert expected[i] == PageContent(NatToString(i + 1), pages[i]);
      pagesContent := pagesContent + [PageContent(NatToString(i + 1), pages[i])];
    }
    assert expected[..|pages|] == expected;
  }

  function Contents(pages: seq<PageContent>): (texts: seq<string>)
    ensures |texts| == |pages| && forall k :: 0 <= k < |pages| ==> texts[k] == pages[k].content
  {
    seq(|pages|, k requires 0 <= k < |pages| => pages[k].content)
  }

  /** The pages are numbered 1, 2, ... in order; rejoining their texts with the marker gives
      the markdown back, and no page holds a marker. Empty markdown is one empty page 1. */
  lemma SplitPagesRoundTrip(markdown: string)
    ensures var pages := SplitPages(markdown);
      |pages| >= 1 && Join(Contents(pages), PageBreak) == markdown &&
      (forall k :: 0 <= k < |pages| ==> pages[k].pageNumber == NatToString(k + 1) && !Contains(pages[k].content, PageBreak)) &&
      (markdown == "" ==> pages == [PageContent("1", "")])
  {
    var pages := SplitPages(markdown);
    assert Contents(pages) == PageTexts(markdown);
    assert NatToString(1) == "1";
  }

  /** A negative number's text is no page number. */
  lemma NegativeIsNoPage(n: int, k: nat)
    requires n < 0
    ensures IntToString(n) != NatToString(k)
  {
    assert IntToString(n)[0] == '-';
    assert IsDigit(NatToString(k)[0]);
  }

  /** Different numbers have different decimal texts. */
  lemma NatToStringInjective(a: nat, b: nat)
    requires NatToString(a) == NatToString(b)
    ensures a == b
  {
  }

  // ---------------------------------------------------------------- figure ids and names

  /** The page of a figure whose id reads `<page>.<n>`: the integer before the first dot,
      or 1 when that text is not an integer. */
  function FigurePageNumber(figureId: string): int {
    var head := Split(figureId, ".")[0];
    var n := ParseInt(head);
    if n.Some? then n.value else 1
  }

  lemma FigurePageNumberOf(page: nat, rest: string)
    ensures FigurePageNumber(NatToString(page) + "." + rest) == page
  {
    var p := NatToString(page);
    var id := p + "." + rest;
    forall j | 0 <= j < |p| ensures p[j] != '.' {
      assert IsDigit(p[j]);
    }
    FindSingle(p, '.', rest);
    assert id[..|p|] == p;
    ParseIntToString(page);
  }

  /** `s.replace(a, b)` for single characters. */
  function ReplaceChar(s: string, a: char, b: char): (r: string)
    ensures |r| == |s|
    ensures forall i :: 0 <= i < |s| ==> r[i] == if s[i] == a then b else s[i]
  {
    seq(|s|, i requires 0 <= i < |s| => if s[i] == a then b else s[i])
  }

  /** The image file name of a figure: the id with `.png` added, path separators turned
      into underscores. */
  function SanitizeImageName(figureId: string): string {
    ReplaceChar(ReplaceChar(figureId + ".png", '/', '_'), '\\', '_')
  }

  lemma SanitizeImageNameSafe(figureId: string)
    ensures var r := SanitizeImageName(figureId);
      |r| == |figureId| + 4 && r[|figureId|..] == ".png" &&
      (forall i :: 0 <= i < |r| ==> r[i] != '/' && r[i] != '\\') &&
      forall i :: 0 <= i < |figureId| ==> r[i] == if figureId[i] == '/' || figureId[i] == '\\' then '_' else figureId[i]
  {
  }

  const ModelPath := "documentintelligence/documentModels/prebuilt-layout"
  const ApiVersionQuery := "?api-version=2024-11-30"

  /** A figure's image URL on the analyze-results endpoint. */
  function BuildFigureImageUrl(endpoint: string, resultId: string, figureId: string): string {
    Join([RStripChars(endpoint, {'/'}), ModelPath, "analyzeResults/" + resultId + "/figures/" + figureId], "/") + ApiVersionQuery
  }

  /** The URL is the endpoint without its trailing slashes, the model path and the figure's
      path, slash-separated, then the API version; trailing slashes on the endpoint do not
      change it. */
  lemma FigureImageUrlShape(endpoint: string, resultId: string, figureId: string)
    ensures BuildFigureImageUrl(endpoint, resultId, figureId) ==
      RStripChars(endpoint, {'/'}) + "/" + ModelPath + "/" + ("analyzeResults/" + resultId + "/figures/" + figureId) + ApiVersionQuery
    ensures BuildFigureImageUrl(endpoint + "/", resultId, figureId) == BuildFigureImageUrl(endpoint, resultId, figureId)
  {
    JoinThree(RStripChars(endpoint, {'/'}), ModelPath, "analyzeResults/" + resultId + "/figures/" + figureId, "/");
    RStripSuffix(endpoint, "/", {'/'});
  }

  // ---------------------------------------------------------------- figure text and tags

  /** The text a figure covers: its first span's slice of the content when the span has a
      positive length and a non-negative start; otherwise nothing. */
  function ExtractFigureContent(spans: seq<MergeTable.Span>, markdownContent: string): (r: string)
    ensures r != "" ==> spans != [] && spans[0].length > 0 && spans[0].offset >= 0
    ensures spans != [] && spans[0].length > 0 && 0 <= spans[0].offset && spans[0].offset + spans[0].length <= |markdownContent| ==>
      r == markdownContent[spans[0].offset..spans[0].offset + spans[0].length]
    ensures spans != [] ==> |r| <= if spans[0].length > 0 then spans[0].length else 0
  {
    if spans == [] then ""
    else
      var start, length := spans[0].offset, spans[0].length;
      if length > 0 && start >= 0 then PySlice(markdownContent, start, start + length) else ""
  }

  /** The caption and the figure's own text (after `htmlToText`) joined by a space, each
      stripped; the caption alone when the figure has no text. */
  function BuildCaptionText(caption: string, figureContent: string, htmlToText: string -> string): string {
    var captionText := Strip(caption);
    var figText := Strip(htmlToText(figureContent));
    if figText != "" then Strip(captionText + " " + figText) else captionText
  }

  lemma CaptionTextShape(caption: string, figureContent: string, htmlToText: string -> string)
    ensures var c, f := Strip(caption), Strip(htmlToText(figureContent));
      var r := BuildCaptionText(caption, figureContent, htmlToText);
      IsStripped(r) &&
      r == if f == "" then c else if c == "" then f else c + " " + f
  {
    StripIdempotent(caption);
    StripIdempotent(htmlToText(figureContent));
    CaptionJoin(Strip(caption), Strip(htmlToText(figureContent)));
  }

  lemma CaptionJoin(c: string, f: string)
    requires IsStripped(c) && IsStripped(f)
    ensures var r := if f != "" then Strip(c + " " + f) else c;
      IsStripped(r) && r == if f == "" then c else if c == "" then f else c + " " + f
  {
    if f != "" {
      if c == "" {
        assert c + " " + f == " " + f;
        StripLeadingSpace(f);
      } else {
        StripJoinedBySpace(c, f);
      }
    }
  }

  /** `![caption](path)`. */
  function MakeMdImageTag(captionText: string, relPath: string): string {
    "![" + captionText + "](" + relPath + ")"
  }

  /** Reads a tag back: the caption up to the first `](`, then the path. */
  function ParseImageTag(tag: string): Option<(string, string)> {
    if |tag| < 3 || tag[..2] != "![" || tag[|tag| - 1] != ')' then None
    else
      var inner := tag[2..|tag| - 1];
      match Find(inner, "](")
      case None => None
      case Some(k) => Some((inner[..k], inner[k + 2..]))
  }

  /** A caption without `]` and the path come back out of the tag. */
  lemma ImageTagRoundTrip(captionText: string, relPath: string)
    requires forall i :: 0 <= i < |captionText| ==> captionText[i] != ']'
    ensures ParseImageTag(MakeMdImageTag(captionText, relPath)) == Some((captionText, relPath))
  {
    var tag := MakeMdImageTag(captionText, relPath);
    var inner := captionText + "](" + relPath;
    assert tag[2..|tag| - 1] == inner;
    assert MatchAt(inner, "](", |captionText|);
    forall j | 0 <= j < |captionText| ensures !MatchAt(inner, "](", j) {
      assert inner[j] == captionText[j];
    }
    assert inner[..|captionText|] == captionText;
    assert inner[|captionText| + 2..] == relPath;
  }

  // ---------------------------------------------------------------- configuration

  const ConfigMissing := "azure_di_config_missing"

  datatype AzureDIConfig = AzureDIConfig(endpoint: string, key: string, noProxy: bool)

  /** Python's `a or b` on optional strings: the first that is set and non-empty. */
  function FirstSet(a: Option<string>, b: Option<string>): string {
    if a.Some? && |a.value| > 0 then a.value else if b.Some? && |b.value| > 0 then b.value else ""
  }

  /** `s.strip(c1).strip(c2)...`: each set of characters taken off both ends in turn. */
  function StripInTurn(s: string, sets: seq<set<char>>): (r: string)
    ensures |r| <= |s|
    ensures sets != [] ==> r == [] || (r[0] !in sets[|sets| - 1] && r[|r| - 1] !in sets[|sets| - 1])
    decreases |sets|
  {
    if sets == [] then s else StripInTurn(StripChars(s, sets[0]), sets[1..])
  }

  /** Whitespace, then backticks, double and single quotes, then whitespace again, taken
      off both ends. */
  function CleanSetting(s: string): (r: string)
    ensures IsStripped(r)
  {
    StripInTurn(s, [Whitespace, {'`'}, {'"'}, {'\''}, Whitespace])
  }

  /** A raw endpoint setting cleaned, without trailing slashes. */
  function CleanEndpoint(raw: string): (e: string)
    ensures e == [] || e[|e| - 1] != '/'
  {
    RStripChars(CleanSetting(raw), {'/'})
  }

  function Endpoint(kwEndpoint: Option<string>, envEndpoint: Option<string>): string {
    CleanEndpoint(FirstSet(kwEndpoint, envEndpoint))
  }

  function Key(kwKey: Option<string>, envKey: Option<string>): string {
    CleanSetting(FirstSet(kwKey, envKey))
  }

  /** The endpoint and key, from the keyword arguments or else the environment, cleaned;
      the endpoint loses its trailing slashes. Either one empty is an error. */
  function ResolveConfig(kwEndpoint: Option<string>, envEndpoint: Option<string>,
                         kwKey: Option<string>, envKey: Option<string>, noProxy: bool): (r: Result<AzureDIConfig>)
    ensures r.Err? <==> |Endpoint(kwEndpoint, envEndpoint)| == 0 || |Key(kwKey, envKey)| == 0
    ensures r.Err? ==> r.msg == ConfigMissing
    ensures r.Ok? ==> r.value.endpoint == Endpoint(kwEndpoint, envEndpoint) && r.value.key == Key(kwKey, envKey) &&
                      r.value.noProxy == noProxy
  {
    var endpoint := Endpoint(kwEndpoint, envEndpoint);
    var key := Key(kwKey, envKey);
    if |endpoint| == 0 || |key| == 0 then Err(ConfigMissing)
    else Ok(AzureDIConfig(endpoint, key, noProxy))
  }

  /** A resolved configuration has a non-empty endpoint with no trailing slash, and a
      non-empty key with no surrounding whitespace. (The endpoint may still end in
      whitespace: `"x/ /"` resolves to `"x/ "`, since the slashes are stripped after the
      whitespace.) */
  lemma ResolvedConfigClean(kwEndpoint: Option<string>, envEndpoint: Option<string>,
                            kwKey: Option<string>, envKey: Option<string>, noProxy: bool)
    ensures var r := ResolveConfig(kwEndpoint, envEndpoint, kwKey, envKey, noProxy);
      r.Ok? ==> var e, k := r.value.endpoint, r.value.key;
        |e| > 0 && e[|e| - 1] != '/' && |k| > 0 && IsStripped(k)
  {
  }

  // ---------------------------------------------------------------- duplicate images

  /** The image-hash threshold: five differing hex digits for a perceptual hash, none for the
      fallback hash (the image's own file name) used when the bytes are not an image. */
  function HashThreshold(isImage: bool): nat {
    if isImage then 5 else 0
  }

  /** The keys of `entries` are pairwise different, as in a dictionary. */
  ghost predicate KeysDistinct(entries: seq<(string, string)>) {
    forall i, j :: 0 <= i < j < |entries| ==> entries[i].0 != entries[j].0
  }

  /** The path of the first saved hash (in insertion order) within `threshold` of `hash`. */
  function FirstWithin(entries: seq<(string, string)>, hash: string, threshold: int): (r: Option<string>)
    ensures r.Some? ==> exists i :: 0 <= i < |entries| && entries[i].1 == r.value && Hamming(hash, entries[i].0) <= threshold &&
                                   forall j :: 0 <= j < i ==> Hamming(hash, entries[j].0) > threshold
    ensures r.None? <==> forall i :: 0 <= i < |entries| ==> Hamming(hash, entries[i].0) > threshold
  {
    if entries == [] then None
    else if Hamming(hash, entries[0].0) <= threshold then Some(entries[0].1)
    else
      var r := FirstWithin(entries[1..], hash, threshold);
      assert forall i :: 1 <= i < |entries| ==> entries[i] == entries[1..][i - 1];
      r
  }

  /** `d[key] = value`: an existing key keeps its place and takes the new value; a new key
      goes last. */
  function Put(entries: seq<(string, string)>, key: string, value: string): (r: seq<(string, string)>)
    ensures (exists i :: 0 <= i < |entries| && entries[i].0 == key) ==> |r| == |entries|
    ensures (forall i :: 0 <= i < |entries| ==> entries[i].0 != key) ==> r == entries + [(key, value)]
  {
    if entries == [] then [(key, value)]
    else if entries[0].0 == key then [(key, value)] + entries[1..]
    else
      var r := [entries[0]] + Put(entries[1..], key, value);
      assert forall i :: 1 <= i < |entries| ==> entries[i] == entries[1..][i - 1];
      r
  }

  /** After `Put` the key is present with the new value, every other entry is where it
      was, and the keys stay distinct. */
  lemma PutMeaning(entries: seq<(string, string)>, key: string, value: string)
    requires KeysDistinct(entries)
    ensures var r := Put(entries, key, value);
      KeysDistinct(r) && |r| >= |entries| &&
      (forall i :: 0 <= i < |entries| && entries[i].0 != key ==> r[i] == entries[i]) &&
      (key, value) in r
  {
    PutFound(entries, key, value);
    PutKeepsOthers(entries, key, value);
    PutDistinct(entries, key, value);
  }

  lemma {:induction false} PutFound(entries: seq<(string, string)>, key: string, value: string)
    ensures (key, value) in Put(entries, key, value)
  {
    var r := Put(entries, key, value);
    if entries == [] {
      assert r == [(key, value)];
    } else if entries[0].0 == key {
      assert r == [(key, value)] + entries[1..];
      assert r[0] == (key, value);
    } else {
      PutFound(entries[1..], key, value);
      var r' := Put(entries[1..], key, value);
      assert r == [entries[0]] + r';
    }
  }

  lemma {:induction false} PutKeepsOthers(entries: seq<(string, string)>, key: string, value: string)
    ensures var r := Put(entries, key, value);
      |r| >= |entries| && forall i :: 0 <= i < |entries| && entries[i].0 != key ==> r[i] == entries[i]
  {
    if entries != [] && entries[0].0 != key {
      var rest := entries[1..];
      PutKeepsOthers(rest, key, value);
      var r := Put(entries, key, value);
      forall i | 0 <= i < |entries| && entries[i].0 != key ensures r[i] == entries[i] {
        if i > 0 {
          assert rest[i - 1] == entries[i];
        }
      }
    }
  }

  lemma {:induction false} PutDistinct(entries: seq<(string, string)>, key: string, value: string)
    requires KeysDistinct(entries)
    ensures KeysDistinct(Put(entries, key, value))
  {
    if entries != [] && entries[0].0 == key {
      var rest := entries[1..];
      assert Put(entries, key, value) == [(key, value)] + rest;
      DistinctTail(entries);
      HeadNotInTail(entries, (key, value));
      DistinctCons((key, value), rest);
    } else if entries != [] {
      var rest := entries[1..];
      DistinctTail(entries);
      PutDistinct(rest, key, value);
      var r' := Put(rest, key, value);
      HeadNotInPut(entries, key, value, r');
      assert Put(entries, key, value) == [entries[0]] + r';
      DistinctCons(entries[0], r');
    }
  }

  lemma DistinctTail(entries: seq<(string, string)>)
    requires entries != [] && KeysDistinct(entries)
    ensures KeysDistinct(entries[1..])
  {
    var rest := entries[1..];
    forall i, j | 0 <= i < j < |rest| ensures rest[i].0 != rest[j].0 {
      assert rest[i] == entries[i + 1] && rest[j] == entries[j + 1];
    }
  }

  lemma HeadNotInTail(entries: seq<(string, string)>, x: (string, string))
    requires entries != [] && KeysDistinct(entries) && x.0 == entries[0].0
    ensures var rest := entries[1..]; forall m :: 0 <= m < |rest| ==> rest[m].0 != x.0
  {
    var rest := entries[1..];
    forall m | 0 <= m < |rest| ensures rest[m].0 != x.0 {
      assert rest[m] == entries[m + 1];
    }
  }

  /** A pair whose key no entry has can go in front of entries with distinct keys. */
  lemma DistinctCons(x: (string, string), entries: seq<(string, string)>)
    requires KeysDistinct(entries) && forall m :: 0 <= m < |entries| ==> entries[m].0 != x.0
    ensures KeysDistinct([x] + entries)
  {
    var r := [x] + entries;
    forall i, j | 0 <= i < j < |r| ensures r[i].0 != r[j].0 {
      assert r[j] == entries[j - 1];
      if i > 0 {
        assert r[i] == entries[i - 1];
      }
    }
  }

  /** The first key, when it is not the one put, appears nowhere in what `Put` makes of
      the rest. */
  lemma HeadNotInPut(entries: seq<(string, string)>, key: string, value: string, r': seq<(string, string)>)
    requires entries != [] && KeysDistinct(entries) && entries[0].0 != key
    requires r' == Put(entries[1..], key, value)
    ensures forall m :: 0 <= m < |r'| ==> r'[m].0 != entries[0].0
  {
    var rest := entries[1..];
    forall m | 0 <= m < |r'| ensures r'[m].0 != entries[0].0 {
      PutKeys(rest, key, value, m);
      if r'[m].0 != key {
        var t :| 0 <= t < |rest| && rest[t].0 == r'[m].0;
        assert rest[t] == entries[t + 1];
      }
    }
  }

  /** Every key after `Put` is the new key or an old one. */
  lemma {:induction false} PutKeys(entries: seq<(string, string)>, key: string, value: string, m: int)
    requires 0 <= m < |Put(entries, key, value)|
    ensures var k := Put(entries, key, value)[m].0;
      k == key || exists t :: 0 <= t < |entries| && entries[t].0 == k
  {
    if entries != [] && entries[0].0 != key && m > 0 {
      var rest := entries[1..];
      PutKeys(rest, key, value, m - 1);
      var k := Put(entries, key, value)[m].0;
      if k != key {
        var t :| 0 <= t < |rest| && rest[t].0 == k;
        assert entries[t + 1].0 == k;
      }
    }
  }

  /** The hashes of the images saved so far and their paths (`processed_hash`), in the order
      they were saved. */
  class ImageRegistry {
    var entries: seq<(string, string)>

    ghost predicate Valid()
      reads this
    {
      KeysDistinct(entries)
    }

    constructor ()
      ensures Valid() && entries == []
    {
      entries := [];
    }

    /** `_find_duplicate_image_path`: the path of the first saved hash within `threshold` of
        `currentHash`. */
    method FindDuplicateImagePath(currentHash: string, threshold: int) returns (dup: Option<string>)
      ensures dup == FirstWithin(entries, currentHash, threshold)
    {
      var i := 0;
      while i < |entries|
        invariant 0 <= i <= |entries|
        invariant FirstWithin(entries, currentHash, threshold) == FirstWithin(entries[i..], currentHash, threshold)
      {
        var d := HammingDistance(currentHash, entries[i].0);
        if d <= threshold {
          return Some(entries[i].1);
        }
        assert entries[i..][1..] == entries[i + 1..];
        i := i + 1;
      }
      return None;
    }

    /** One figure's image: a duplicate with a non-empty path is reused; otherwise the image
        is saved under `imagePath` and its hash recorded. Returns the path the tag points to. */
    method Register(currentHash: string, threshold: int, imagePath: string) returns (path: string)
      requires Valid()
      modifies this
      ensures Valid()
      ensures var d := FirstWithin(old(entries), currentHash, threshold);
        if d.Some? && |d.value| > 0 then path == d.value && entries == old(entries)
        else path == imagePath && entries == Put(old(entries), currentHash, imagePath)
    {
      var dup := FindDuplicateImagePath(currentHash, threshold);
      if dup.Some? && |dup.value| > 0 {
        path := dup.value;
      } else {
        PutMeaning(entries, currentHash, imagePath);
        path := imagePath;
        entries := Put(entries, currentHash, imagePath);
      }
    }
  }

  /** Once an image is saved under a non-empty path, an identical image is found as its
      duplicate at any threshold that is not negative: the registry never saves the same
      image twice. */
  lemma SavedImageIsFound(entries: seq<(string, string)>, hash: string, path: string, threshold: int)
    requires KeysDistinct(entries)
    requires threshold >= 0
    ensures FirstWithin(Put(entries, hash, path), hash, threshold).Some?
  {
    PutMeaning(entries, hash, path);
    var r := Put(entries, hash, path);
    var i :| 0 <= i < |r| && r[i] == (hash, path);
    HammingProperties(hash, hash);
    assert Hamming(hash, r[i].0) <= threshold;
  }

  /** A hash appended after entries that are all too far from `hash` is the first entry
      within `threshold` exactly when it is within `threshold` itself. */
  lemma {:induction false} FirstWithinAppend(entries: seq<(string, string)>, e: (string, string), hash: string, threshold: int)
    requires forall i :: 0 <= i < |entries| ==> Hamming(hash, entries[i].0) > threshold
    ensures FirstWithin(entries + [e], hash, threshold) == if Hamming(hash, e.0) <= threshold then Some(e.1) else None
  {
    if entries != [] {
      assert (entries + [e])[1..] == entries[1..] + [e];
      assert forall i :: 0 <= i < |entries[1..]| ==> entries[1..][i] == entries[i + 1];
      FirstWithinAppend(entries[1..], e, hash, threshold);
    } else {
      assert [] + [e] == [e];
    }
  }

  /** Two figures whose images have the same hash share one file: whichever path the first
      one's tag points to (an earlier image's, or its own new file), the second one finds
      that same path as its duplicate, so it saves nothing. */
  lemma IdenticalImagesSavedOnce(entries: seq<(string, string)>, hash: string, threshold: int, path1: string)
    requires KeysDistinct(entries) && threshold >= 0 && |path1| > 0
    requires forall i :: 0 <= i < |entries| ==> |entries[i].1| > 0
    ensures var d := FirstWithin(entries, hash, threshold);
      var first := if d.Some? then d.value else path1;
      var after := if d.Some? then entries else Put(entries, hash, path1);
      |first| > 0 && FirstWithin(after, hash, threshold) == Some(first)
  {
    var d := FirstWithin(entries, hash, threshold);
    if d.Some? {
      var i :| 0 <= i < |entries| && entries[i].1 == d.value && Hamming(hash, entries[i].0) <= threshold &&
                forall j :: 0 <= j < i ==> Hamming(hash, entries[j].0) > threshold;
    } else {
      HammingProperties(hash, hash);
      assert forall i :: 0 <= i < |entries| ==> entries[i].0 != hash;
      FirstWithinAppend(entries, (hash, path1), hash, threshold);
    }
  }

  // ---------------------------------------------------------------- placing image tags

  /** The page a number selects through `pages_map`: the dictionary built from the pages
      keeps the last page of each number. */
  function LastWithNumber(pages: seq<PageContent>, key: string): (r: Option<nat>)
    ensures r.Some? ==> r.value < |pages| && pages[r.value].pageNumber == key &&
                        forall j :: r.value < j < |pages| ==> pages[j].pageNumber != key
    ensures r.None? ==> forall j :: 0 <= j < |pages| ==> pages[j].pageNumber != key
  {
    if pages == [] then None
    else if pages[|pages| - 1].pageNumber == key then Some(|pages| - 1)
    else LastWithNumber(pages[..|pages| - 1], key)
  }

  /** The first page whose text contains `text`. */
  function FirstContaining(pages: seq<PageContent>, text: string): (r: Option<nat>)
    ensures r.Some? ==> r.value < |pages| && Contains(pages[r.value].content, text) &&
                        forall j :: 0 <= j < r.value ==> !Contains(pages[j].content, text)
    ensures r.None? ==> forall j :: 0 <= j < |pages| ==> !Contains(pages[j].content, text)
  {
    if pages == [] then None
    else if Contains(pages[0].content, text) then Some(0)
    else
      var r := FirstContaining(pages[1..], text);
      assert forall j :: 1 <= j < |pages| ==> pages[j] == pages[1..][j - 1];
      if r.Some? then Some(r.value + 1) else None
  }

  /** A page text with the tag added after it: the right-stripped text, a blank line, the
      tag and a newline; only the tag and a newline when the text is blank. */
  function Appended(content: string, tag: string): (r: string)
    ensures |r| >= |tag| + 1 && r[|r| - |tag| - 1..] == tag + "\n"
  {
    var c := RStrip(content);
    if |c| > 0 then c + "\n\n" + tag + "\n" else tag + "\n"
  }

  /** The page whose text `ReplaceOrAppendImageTag` rewrites, and whether it replaces the
      figure's text there (otherwise it appends the tag): the numbered page when it holds
      the text, else the first page that does, else the numbered page, else the first page;
      `None` when there are no pages. */
  function TagTarget(pages: seq<PageContent>, key: string, text: string): (r: Option<(nat, bool)>)
    ensures r.Some? ==> r.value.0 < |pages|
    ensures r.None? <==> pages == []
  {
    var m := LastWithNumber(pages, key);
    if |text| > 0 && m.Some? && Contains(pages[m.value].content, text) then Some((m.value, true))
    else if |text| > 0 && FirstContaining(pages, text).Some? then Some((FirstContaining(pages, text).value, true))
    else if m.Some? then Some((m.value, false))
    else if |pages| > 0 then Some((0, false))
    else None
  }

  /** The pages after the tag is placed. */
  function PlaceTag(pages: seq<PageContent>, key: string, text: string, tag: string): (r: seq<PageContent>)
    ensures |r| == |pages|
  {
    match TagTarget(pages, key, text)
    case None => pages
    case Some((i, replace)) =>
      var content := pages[i].content;
      pages[i := pages[i].(content := if replace then ReplaceFirst(content, text, tag) else Appended(content, tag))]
  }

  /** The pages of the document, updated as figures are placed (`pages`). */
  class FigurePages {
    var pages: seq<PageContent>

    /** `_split_markdown` of the analysed content. */
    constructor (markdown: string)
      ensures pages == SplitPages(markdown)
    {
      var split := SplitMarkdown(markdown);
      pages := split;
    }

    /** `_replace_or_append_image_tag`: replaces the first occurrence of the figure's text by
        the tag, on the figure's page if it is there and else on the first page holding it;
        otherwise appends the tag to the figure's page, or to the first page when no page has
        that number. Returns whether a page received the tag. */
    method ReplaceOrAppendImageTag(pageNumber: int, replaceContent: string, imageTag: string) returns (placed: bool)
      modifies this
      ensures placed <==> TagTarget(old(pages), IntToString(pageNumber), replaceContent).Some?
      ensures pages == PlaceTag(old(pages), IntToString(pageNumber), replaceContent, imageTag)
    {
      var key := IntToString(pageNumber);
      var matching := LastWithNumber(pages, key);
      if |replaceContent| > 0 && matching.Some? && Contains(pages[matching.value].content, replaceContent) {
        var i := matching.value;
        pages := pages[i := pages[i].(content := ReplaceFirst(pages[i].content, replaceContent, imageTag))];
        return true;
      }
      if |replaceContent| > 0 {
        var i := 0;
        while i < |pages|
          invariant 0 <= i <= |pages| && pages == old(pages)
          invariant forall j :: 0 <= j < i ==> !Contains(pages[j].content, replaceContent)
        {
          if Contains(pages[i].content, replaceContent) {
            pages := pages[i := pages[i].(content := ReplaceFirst(pages[i].content, replaceContent, imageTag))];
            return true;
          }
          i := i + 1;
        }
      }
      var target: nat;
      if matching.Some? {
        target := matching.value;
      } else if |pages| > 0 {
        target := 0;
      } else {
        return false;
      }
      pages := pages[target := pages[target].(content := Appended(pages[target].content, imageTag))];
      placed := true;
    }
  }

  /** Placing a tag rewrites at most one page, keeps every page number, and leaves the
      tag on the page it rewrites. */
  lemma PlaceTagChangesOnePage(pages: seq<PageContent>, key: string, text: string, tag: string)
    ensures var r := PlaceTag(pages, key, text, tag);
      (forall j :: 0 <= j < |pages| ==> r[j].pageNumber == pages[j].pageNumber) &&
      match TagTarget(pages, key, text)
      case None => r == pages
      case Some((i, _)) => Contains(r[i].content, tag) && forall j :: 0 <= j < |pages| && j != i ==> r[j] == pages[j]
  {
    match TagTarget(pages, key, text)
    case None =>
    case Some((i, replace)) =>
      var content := pages[i].content;
      var c := PlaceTag(pages, key, text, tag)[i].content;
      if replace {
        assert Contains(content, text);
        var k := Find(content, text).value;
        assert c == content[..k] + tag + content[k + |text|..];
        assert MatchAt(c, tag, k) by {
          assert c[k..k + |tag|] == tag;
        }
      } else {
        assert MatchAt(c, tag, |c| - |tag| - 1) by {
          assert c[|c| - |tag| - 1..][..|tag|] == tag;
        }
      }
  }

  /** The figure's text is replaced wherever some page holds it, preferring the page the
      number selects; otherwise the first page holding it is used. The first occurrence on
      that page becomes the tag. */
  lemma PlaceTagReplaces(pages: seq<PageContent>, key: string, text: string, tag: string)
    requires |text| > 0 && exists j :: 0 <= j < |pages| && Contains(pages[j].content, text)
    ensures TagTarget(pages, key, text).Some? && TagTarget(pages, key, text).value.1
    ensures var i, m := TagTarget(pages, key, text).value.0, LastWithNumber(pages, key);
      Contains(pages[i].content, text) &&
      PlaceTag(pages, key, text, tag)[i].content == ReplaceFirst(pages[i].content, text, tag) &&
      (m.Some? && Contains(pages[m.value].content, text) ==> i == m.value) &&
      (m.None? || !Contains(pages[m.value].content, text) ==> forall j :: 0 <= j < i ==> !Contains(pages[j].content, text))
  {
    var m := LastWithNumber(pages, key);
    if !(m.Some? && Contains(pages[m.value].content, text)) {
      var f := FirstContaining(pages, text);
      assert f.Some?;
    }
  }

  /** With no text to replace, or text that no page holds, the tag goes at the end of the
      figure's page, or of the first page when no page has that number. */
  lemma PlaceTagAppends(pages: seq<PageContent>, key: string, text: string, tag: string)
    requires pages != []
    requires |text| == 0 || forall j :: 0 <= j < |pages| ==> !Contains(pages[j].content, text)
    ensures var t := TagTarget(pages, key, text);
      t.Some? && !t.value.1 &&
      (if exists j :: 0 <= j < |pages| && pages[j].pageNumber == key then pages[t.value.0].pageNumber == key else t.value.0 == 0) &&
      PlaceTag(pages, key, text, tag)[t.value.0].content == Appended(pages[t.value.0].content, tag)
  {
  }

  /** On the pages `_split_markdown` produces, page number `n` selects page `n - 1`, and a
      number with no page selects none. */
  lemma SplitPagesLookup(markdown: string, n: int)
    ensures var pages := SplitPages(markdown);
      LastWithNumber(pages, IntToString(n)) == if 1 <= n <= |pages| then Some(n - 1) else None
  {
    NumberedLookup(SplitPages(markdown), n);
  }

  /** On pages numbered 1, 2, ... in order, number `n` selects page `n - 1` or none. */
  lemma NumberedLookup(pages: seq<PageContent>, n: int)
    requires forall j :: 0 <= j < |pages| ==> pages[j].pageNumber == NatToString(j + 1)
    ensures LastWithNumber(pages, IntToString(n)) == if 1 <= n <= |pages| then Some(n - 1) else None
  {
    var key := IntToString(n);
    if 1 <= n <= |pages| {
      assert pages[n - 1].pageNumber == key;
    }
    var m := LastWithNumber(pages, key);
    if m.Some? {
      var i := m.value;
      assert pages[i].pageNumber == NatToString(i + 1);
      if n >= 0 {
        assert key == NatToString(n);
        NatToStringInjective(i + 1, n);
        assert i == n - 1 && 1 <= n <= |pages|;
      } else {
        NegativeIsNoPage(n, i + 1);
      }
    }
  }

  /** Where `[FIGURE]` first occurs in the example page. */
  lemma FindFigure(content: string, pat: string)
    requires content == "aaa [FIGURE] bbb" && pat == "[FIGURE]"
    ensures Find(content, pat) == Some(4)
  {
    assert MatchAt(content, pat, 4) by {
      assert content[4..12] == pat;
    }
    forall j | 0 <= j < 4 ensures !MatchAt(content, pat, j) {
      assert content[j] != pat[0];
    }
  }

  /** The anchoring example of `scripts/test_image_tag_restore.py`: the figure's text on its
      own page becomes the tag. */
  lemma ReplaceBySpanContentExample(pages: seq<PageContent>, text: string, tag: string)
    requires pages == [PageContent("1", "aaa [FIGURE] bbb")]
    requires text == "[FIGURE]" && tag == "![x](images/1.png)"
    ensures TagTarget(pages, IntToString(1), text) == Some((0, true))
    ensures PlaceTag(pages, IntToString(1), text, tag) == [PageContent("1", "aaa ![x](images/1.png) bbb")]
  {
    ExampleTarget(pages, text);
    ReplaceFigure(pages[0].content, text, tag);
  }

  /** The example page is page 1 and holds the figure's text. */
  lemma ExampleTarget(pages: seq<PageContent>, text: string)
    requires pages == [PageContent("1", "aaa [FIGURE] bbb")] && text == "[FIGURE]"
    ensures TagTarget(pages, IntToString(1), text) == Some((0, true))
  {
    assert IntToString(1) == "1";
    assert LastWithNumber(pages, "1") == Some(0);
    FindFigure(pages[0].content, text);
  }

  lemma ReplaceFigure(content: string, text: string, tag: string)
    requires content == "aaa [FIGURE] bbb" && text == "[FIGURE]" && tag == "![x](images/1.png)"
    ensures ReplaceFirst(content, text, tag) == "aaa ![x](images/1.png) bbb"
  {
    FindFigure(content, text);
    assert ReplaceFirst(content, text, tag) == content[..4] + tag + content[12..];
  }

  /** The append example of `scripts/test_image_tag_restore.py`: without text to replace the
      tag goes after the page's text, separated by a blank line. */
  lemma AppendWhenNotFoundExample(pages: seq<PageContent>, tag: string)
    requires pages == [PageContent("2", "hello")] && tag == "![x](images/1.png)"
    ensures TagTarget(pages, IntToString(2), "") == Some((0, false))
    ensures PlaceTag(pages, IntToString(2), "", tag) == [PageContent("2", "hello\n\n![x](images/1.png)\n")]
  {
    assert IntToString(2) == "2";
    assert LastWithNumber(pages, "2") == Some(0);
    assert TagTarget(pages, "2", "") == Some((0, false));
    assert RStrip("hello") == "hello" by {
      RStripNoop("hello", Whitespace);
    }
    assert Appended("hello", tag) == "hello\n\n![x](images/1.png)\n";
  }
}

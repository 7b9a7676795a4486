/** The parts of Python's `str` behaviour that the layout post-processing relies on:
    stripping, searching, replacing the first occurrence, splitting and joining on a
    separator, `splitlines`, slicing with negative or out-of-range bounds, and the
    conversions between `int` and its decimal text. */
module PyStr {
  import opened Wrappers

  /** The characters for which Python's `str.isspace()` holds; `strip()`, `rstrip()` and
      the regular expression `\s` use them. */
  predicate IsSpace(c: char) {
    var n := c as int;
    (0x09 <= n <= 0x0d) || (0x1c <= n <= 0x20) || n == 0x85 || n == 0xa0 || n == 0x1680 ||
    (0x2000 <= n <= 0x200a) || n == 0x2028 || n == 0x2029 || n == 0x202f || n == 0x205f ||
    n == 0x3000
  }

  const Whitespace: set<char> := set c: char | '\0' <= c <= '\U{3000}' && IsSpace(c)

  /** The characters at which Python's `str.splitlines()` ends a line. */
  predicate IsLineBreak(c: char) {
    var n := c as int;
    (0x0a <= n <= 0x0d) || (0x1c <= n <= 0x1e) || n == 0x85 || n == 0x2028 || n == 0x2029
  }

  const LineBreaks: set<char> := set c: char | '\0' <= c <= '\U{2029}' && IsLineBreak(c)

  // ---------------------------------------------------------------- stripping

  /** `s.lstrip(cs)`: drops the longest prefix made of characters of `cs`. */
  function LStripChars(s: string, cs: set<char>): (r: string)
    ensures |r| <= |s| && r == s[|s| - |r|..]
    ensures r == [] || r[0] !in cs
    ensures forall i :: 0 <= i < |s| - |r| ==> s[i] in cs
    decreases |s|
  {
    if |s| > 0 && s[0] in cs then LStripChars(s[1..], cs) else s
  }

  /** `s.rstrip(cs)`: drops the longest suffix made of characters of `cs`. */
  function RStripChars(s: string, cs: set<char>): (r: string)
    ensures |r| <= |s| && r == s[..|r|]
    ensures r == [] || r[|r| - 1] !in cs
    ensures forall i :: |r| <= i < |s| ==> s[i] in cs
    decreases |s|
  {
    if |s| > 0 && s[|s| - 1] in cs then RStripChars(s[..|s| - 1], cs) else s
  }

  /** `s.strip(cs)`: `lstrip` then `rstrip`, one leading character at a time. */
  function StripChars(s: string, cs: set<char>): (r: string)
    ensures |r| <= |s|
    ensures r == [] || (r[0] !in cs && r[|r| - 1] !in cs)
    decreases |s|
  {
    if |s| > 0 && s[0] in cs then StripChars(s[1..], cs)
    else
      var r := RStripChars(s, cs);
      assert r != [] ==> r[0] == s[0];
      r
  }

  /** `strip` is `rstrip` after `lstrip`. */
  lemma {:induction false} StripIsBothEnds(s: string, cs: set<char>)
    ensures StripChars(s, cs) == RStripChars(LStripChars(s, cs), cs)
    decreases |s|
  {
    if |s| > 0 && s[0] in cs {
      StripIsBothEnds(s[1..], cs);
    }
  }

  /** `s.strip()`, `s.lstrip()` and `s.rstrip()` with no argument strip whitespace. */
  function Strip(s: string): string { StripChars(s, Whitespace) }
  function RStrip(s: string): string { RStripChars(s, Whitespace) }

  /** A string that `strip()` leaves alone. */
  predicate IsStripped(s: string) {
    s == [] || (s[0] !in Whitespace && s[|s| - 1] !in Whitespace)
  }

  lemma {:induction false} LStripNoop(s: string, cs: set<char>)
    requires s == [] || s[0] !in cs
    ensures LStripChars(s, cs) == s
  {
  }

  lemma {:induction false} RStripNoop(s: string, cs: set<char>)
    requires s == [] || s[|s| - 1] !in cs
    ensures RStripChars(s, cs) == s
  {
  }

  /** Stripping a string that has nothing to strip gives it back. */
  lemma {:induction false} StripStripped(s: string)
    requires IsStripped(s)
    ensures Strip(s) == s
  {
    LStripNoop(s, Whitespace);
    RStripNoop(s, Whitespace);
  }

  /** `strip()` is idempotent. */
  lemma {:induction false} StripIdempotent(s: string)
    ensures IsStripped(Strip(s)) && Strip(Strip(s)) == Strip(s)
  {
    StripStripped(Strip(s));
  }

  /** Dropping a whitespace character in front does not change what `strip()` gives. */
  lemma {:induction false} LStripPrefix(w: string, s: string, cs: set<char>)
    requires forall i :: 0 <= i < |w| ==> w[i] in cs
    ensures LStripChars(w + s, cs) == LStripChars(s, cs)
    decreases |w|
  {
    if w != [] {
      assert (w + s)[0] == w[0];
      assert (w + s)[1..] == w[1..] + s;
      assert w[0] in cs;
      assert LStripChars(w + s, cs) == LStripChars(w[1..] + s, cs);
      LStripPrefix(w[1..], s, cs);
    } else {
      assert w + s == s;
    }
  }

  lemma {:induction false} RStripSuffix(s: string, w: string, cs: set<char>)
    requires forall i :: 0 <= i < |w| ==> w[i] in cs
    ensures RStripChars(s + w, cs) == RStripChars(s, cs)
    decreases |w|
  {
    if w != [] {
      assert (s + w)[|s + w| - 1] == w[|w| - 1];
      assert (s + w)[..|s + w| - 1] == s + w[..|w| - 1];
      assert w[|w| - 1] in cs;
      assert RStripChars(s + w, cs) == RStripChars(s + w[..|w| - 1], cs);
      RStripSuffix(s, w[..|w| - 1], cs);
    } else {
      assert s + w == s;
    }
  }

  /** `(" " + t).strip()` is `t` when `t` is already stripped. */
  lemma {:induction false} StripLeadingSpace(t: string)
    requires IsStripped(t)
    ensures Strip(" " + t) == t
  {
    assert ' ' in Whitespace;
    assert (" " + t)[0] == ' ' && (" " + t)[1..] == t;
    assert Strip(" " + t) == StripChars(t, Whitespace);
    StripIsBothEnds(t, Whitespace);
    LStripNoop(t, Whitespace);
    RStripNoop(t, Whitespace);
  }

  /** `(a + " " + b).strip()` is `a + " " + b` when both are stripped and non-empty. */
  lemma {:induction false} StripJoinedBySpace(a: string, b: string)
    requires IsStripped(a) && IsStripped(b) && a != [] && b != []
    ensures Strip(a + " " + b) == a + " " + b
  {
    var t := a + " " + b;
    assert t[0] == a[0];
    assert t[|t| - 1] == b[|b| - 1];
    StripStripped(t);
  }

  /** `(t + "\n").strip()` is `t` when `t` neither starts nor ends with whitespace. */
  lemma {:induction false} StripTrailingNewline(t: string)
    requires t != [] && IsStripped(t)
    ensures Strip(t + "\n") == t
  {
    assert '\n' in Whitespace;
    assert (t + "\n")[0] == t[0];
    LStripNoop(t + "\n", Whitespace);
    RStripSuffix(t, "\n", Whitespace);
    RStripNoop(t, Whitespace);
  }

  // ---------------------------------------------------------------- searching

  /** `sub` occurs in `s` at index `i`. */
  predicate MatchAt(s: string, sub: string, i: int) {
    0 <= i && i + |sub| <= |s| && s[i..i + |sub|] == sub
  }

  function FindFrom(s: string, sub: string, i: nat): (r: Option<nat>)
    requires i <= |s|
    ensures r.Some? ==> i <= r.value && MatchAt(s, sub, r.value)
    ensures r.Some? ==> forall j :: i <= j < r.value ==> !MatchAt(s, sub, j)
    ensures r.None? ==> forall j :: i <= j ==> !MatchAt(s, sub, j)
    decreases |s| - i
  {
    if MatchAt(s, sub, i) then Some(i)
    else if i == |s| then None
    else FindFrom(s, sub, i + 1)
  }

  /** `s.find(sub)`: the first index at which `sub` occurs, if any. */
  function Find(s: string, sub: string): (r: Option<nat>)
    ensures r.Some? ==> MatchAt(s, sub, r.value) && forall j :: 0 <= j < r.value ==> !MatchAt(s, sub, j)
    ensures r.None? ==> forall j :: !MatchAt(s, sub, j)
  {
    FindFrom(s, sub, 0)
  }

  /** `sub in s`. */
  predicate Contains(s: string, sub: string) {
    Find(s, sub).Some?
  }

  /** `s.replace(old, new, 1)`. */
  function ReplaceFirst(s: string, pat: string, repl: string): (r: string)
    ensures !Contains(s, pat) ==> r == s
    ensures Contains(s, pat) ==>
      var i := Find(s, pat).value;
      r == s[..i] + repl + s[i + |pat|..]
  {
    match Find(s, pat)
    case None => s
    case Some(i) => s[..i] + repl + s[i + |pat|..]
  }

  /** A match inside a prefix is a match in the whole string. */
  lemma {:induction false} MatchInPrefix(s: string, sub: string, n: nat, j: int)
    requires n <= |s| && MatchAt(s[..n], sub, j)
    ensures MatchAt(s, sub, j)
  {
    assert s[..n][j..j + |sub|] == s[j..j + |sub|];
  }

  // ---------------------------------------------------------------- split and join

  /** `sep.join(parts)`. */
  function Join(parts: seq<string>, sep: string): string
    decreases |parts|
  {
    if |parts| == 0 then ""
    else if |parts| == 1 then parts[0]
    else parts[0] + sep + Join(parts[1..], sep)
  }

  /** `s.split(sep)` for a non-empty separator: the pieces between the occurrences of
      `sep`, found left to right without overlap. Joining them again with `sep` gives
      `s` back, and no piece contains `sep`. */
  function Split(s: string, sep: string): (r: seq<string>)
    requires sep != []
    ensures |r| >= 1
    ensures Join(r, sep) == s
    ensures forall k :: 0 <= k < |r| ==> !Contains(r[k], sep)
    decreases |s|
  {
    match Find(s, sep)
    case None => [s]
    case Some(i) =>
      var head := s[..i];
      var rest := Split(s[i + |sep|..], sep);
      assert s == head + sep + s[i + |sep|..];
      forall j | MatchAt(head, sep, j) ensures false {
        MatchInPrefix(s, sep, i, j);
      }
      [head] + rest
  }

  /** The first occurrence of a one-character separator is where it first appears. */
  lemma FindSingle(p: string, c: char, t: string)
    requires forall j :: 0 <= j < |p| ==> p[j] != c
    ensures Find(p + [c] + t, [c]) == Some(|p|)
  {
    var s := p + [c] + t;
    assert s[|p|..|p| + 1] == [c];
    assert MatchAt(s, [c], |p|);
    forall j | 0 <= j < |p| ensures !MatchAt(s, [c], j) {
      assert s[j..j + 1] == [p[j]];
    }
  }

  lemma FindAbsent(p: string, c: char)
    requires forall j :: 0 <= j < |p| ==> p[j] != c
    ensures Find(p, [c]) == None
  {
    forall j | 0 <= j && j + 1 <= |p| ensures !MatchAt(p, [c], j) {
      assert p[j..j + 1] == [p[j]];
    }
  }

  /** Splitting on a one-character separator undoes joining with it, provided no part
      holds the separator. */
  lemma {:induction false} SplitJoin(parts: seq<string>, c: char)
    requires |parts| >= 1
    requires forall k, j :: 0 <= k < |parts| && 0 <= j < |parts[k]| ==> parts[k][j] != c
    ensures Split(Join(parts, [c]), [c]) == parts
    decreases |parts|
  {
    if |parts| == 1 {
      FindAbsent(parts[0], c);
    } else {
      var rest := Join(parts[1..], [c]);
      var s := parts[0] + [c] + rest;
      assert Join(parts, [c]) == s;
      FindSingle(parts[0], c, rest);
      assert s[..|parts[0]|] == parts[0];
      assert s[|parts[0]| + 1..] == rest;
      SplitJoin(parts[1..], c);
      assert parts == [parts[0]] + parts[1..];
    }
  }

  lemma JoinThree(a: string, b: string, c: string, sep: string)
    ensures Join([a, b, c], sep) == a + sep + b + sep + c
  {
    assert [a, b, c][1..] == [b, c];
    assert [b, c][1..] == [c];
    assert Join([b, c], sep) == b + sep + c;
    assert Join([a, b, c], sep) == a + sep + (b + sep + c);
  }

  /** Joining two non-empty lists is joining each and putting `sep` between. */
  lemma {:induction false} JoinAppend(a: seq<string>, b: seq<string>, sep: string)
    requires a != [] && b != []
    ensures Join(a + b, sep) == Join(a, sep) + sep + Join(b, sep)
    decreases |a|
  {
    if |a| == 1 {
      assert (a + b)[1..] == b;
    } else {
      assert (a + b)[1..] == a[1..] + b;
      JoinAppend(a[1..], b, sep);
    }
  }

  /** A join starts with its first part and ends with its last part. */
  lemma {:induction false} JoinEnds(parts: seq<string>, sep: string)
    requires |parts| >= 1
    ensures var j, last := Join(parts, sep), parts[|parts| - 1];
      |parts[0]| <= |j| && j[..|parts[0]|] == parts[0] &&
      |last| <= |j| && j[|j| - |last|..] == last
    decreases |parts|
  {
    if |parts| > 1 {
      JoinEnds(parts[1..], sep);
    }
  }

  // ---------------------------------------------------------------- lines

  /** Index of the first line-break character of `s`, or `|s|` if there is none. */
  function FirstBreak(s: string): (i: nat)
    ensures i <= |s| && (i < |s| ==> s[i] in LineBreaks)
    ensures forall j :: 0 <= j < i ==> s[j] !in LineBreaks
  {
    if s == [] then 0
    else if s[0] in LineBreaks then 0
    else 1 + FirstBreak(s[1..])
  }

  /** `s.splitlines()`: the lines of `s` without their terminators; `"\r\n"` ends one
      line, and a terminator at the very end does not start an empty last line. */
  function SplitLines(s: string): (r: seq<string>)
    ensures forall k, j :: 0 <= k < |r| && 0 <= j < |r[k]| ==> r[k][j] !in LineBreaks
    ensures s == [] <==> r == []
    decreases |s|
  {
    if s == [] then []
    else
      var i := FirstBreak(s);
      if i == |s| then [s]
      else
        var w := if s[i] == '\r' && i + 1 < |s| && s[i + 1] == '\n' then 2 else 1;
        [s[..i]] + SplitLines(s[i + w..])
  }

  /** Lines each followed by `"\n"`, as the merged tables are written. */
  function Unlines(lines: seq<string>): (r: string)
    ensures |lines| > 0 ==> r != [] && r[|r| - 1] == '\n'
  {
    if lines == [] then "" else lines[0] + "\n" + Unlines(lines[1..])
  }

  lemma {:induction false} UnlinesAppend(a: seq<string>, b: seq<string>)
    ensures Unlines(a + b) == Unlines(a) + Unlines(b)
  {
    if a != [] {
      assert (a + b)[1..] == a[1..] + b;
      UnlinesAppend(a[1..], b);
    } else {
      assert a + b == b;
    }
  }

  /** `"\n".join(lines) + "\n"` is each line followed by a newline. */
  lemma {:induction false} JoinNewlines(lines: seq<string>)
    requires lines != []
    ensures Join(lines, "\n") + "\n" == Unlines(lines)
  {
    if |lines| > 1 {
      JoinNewlines(lines[1..]);
    }
  }

  /** Splitting text written by `Unlines` gives its lines back, provided no line
      holds a line break of its own. */
  lemma {:induction false} SplitLinesUnlines(lines: seq<string>)
    requires forall k, j :: 0 <= k < |lines| && 0 <= j < |lines[k]| ==> lines[k][j] !in LineBreaks
    ensures SplitLines(Unlines(lines)) == lines
  {
    if lines != [] {
      assert forall j :: 0 <= j < |lines[0]| ==> lines[0][j] !in LineBreaks;
      SplitLinesStep(lines[0], Unlines(lines[1..]));
      SplitLinesUnlines(lines[1..]);
    }
  }

  /** A line without line breaks, then `"\n"`, is the first line of the split. */
  lemma SplitLinesStep(l: string, rest: string)
    requires forall j :: 0 <= j < |l| ==> l[j] !in LineBreaks
    ensures SplitLines(l + "\n" + rest) == [l] + SplitLines(rest)
  {
    var s := l + "\n" + rest;
    FirstBreakPrefix(l, "\n" + rest);
    assert s[|l|] == '\n';
    assert s[..|l|] == l;
    assert s[|l| + 1..] == rest;
  }

  lemma {:induction false} FirstBreakPrefix(l: string, t: string)
    requires forall j :: 0 <= j < |l| ==> l[j] !in LineBreaks
    requires t != [] && t[0] == '\n'
    ensures FirstBreak(l + t) == |l|
    decreases |l|
  {
    if l != [] {
      assert (l + t)[1..] == l[1..] + t;
      FirstBreakPrefix(l[1..], t);
    }
  }

  // ---------------------------------------------------------------- case

  /** `c.lower()` on ASCII letters; every other character is left as it is. */
  function LowerChar(c: char): char {
    if 'A' <= c <= 'Z' then (c as int + 32) as char else c
  }

  function Lower(s: string): (r: string)
    ensures |r| == |s| && forall i :: 0 <= i < |s| ==> r[i] == LowerChar(s[i])
  {
    seq(|s|, i requires 0 <= i < |s| => LowerChar(s[i]))
  }

  // ---------------------------------------------------------------- slices

  /** The index Python uses for a slice bound `b` of a sequence of length `n`. */
  function SliceBound(b: int, n: nat): (k: nat)
    ensures k <= n
    ensures 0 <= b <= n ==> k == b
  {
    if b < 0 then (if b + n < 0 then 0 else b + n) else if b > n then n else b
  }

  /** `s[a:b]`, where negative bounds count from the end and bounds beyond either end
      are clamped, so it never fails. */
  function PySlice(s: string, a: int, b: int): (r: string)
    ensures 0 <= a <= b <= |s| ==> r == s[a..b]
    ensures |r| <= |s|
    ensures var lo, hi := SliceBound(a, |s|), SliceBound(b, |s|);
      r == if lo < hi then s[lo..hi] else ""
  {
    var lo, hi := SliceBound(a, |s|), SliceBound(b, |s|);
    if lo < hi then s[lo..hi] else ""
  }

  /** Where `xs[i]` reads in a Python list of length `n`: a negative index counts from the
      end, and `None` is the `IndexError` of an index outside the list. */
  function PyIndex(i: int, n: nat): (k: Option<nat>)
    ensures k.Some? <==> -(n as int) <= i < n
    ensures k.Some? ==> k.value < n && (k.value == i || k.value == i + n)
  {
    if 0 <= i < n then Some(i) else if -(n as int) <= i < 0 then Some(i + n) else None
  }

  // ---------------------------------------------------------------- integers

  function DigitChar(d: nat): char
    requires d < 10
  {
    ('0' as int + d) as char
  }

  predicate IsDigit(c: char) { '0' as int <= c as int <= '9' as int }

  function DigitValue(c: char): (d: nat)
    requires IsDigit(c)
    ensures d < 10
  {
    c as int - '0' as int
  }

  /** The value of a string of decimal digits, most significant first. */
  function DigitsValue(ds: string): nat
    requires forall i :: 0 <= i < |ds| ==> IsDigit(ds[i])
  {
    if ds == [] then 0
    else 10 * DigitsValue(ds[..|ds| - 1]) + DigitValue(ds[|ds| - 1])
  }

  /** `str(n)` for `n >= 0`: decimal digits without leading zeros. */
  function NatToString(n: nat): (r: string)
    ensures r != [] && forall i :: 0 <= i < |r| ==> IsDigit(r[i])
    ensures DigitsValue(r) == n
  {
    if n < 10 then [DigitChar(n)]
    else
      var r := NatToString(n / 10) + [DigitChar(n % 10)];
      assert r[..|r| - 1] == NatToString(n / 10);
      r
  }

  /** `str(n)`. */
  function IntToString(n: int): string {
    if n < 0 then "-" + NatToString(-n) else NatToString(n)
  }

  /** `int(s)` on a string: optional surrounding whitespace, an optional sign, then one or
      more ASCII digits; anything else raises, modelled as `None`. */
  function ParseInt(s: string): (r: Option<int>)
    ensures r.Some? ==> s != []
  {
    var t := Strip(s);
    var neg := t != [] && t[0] == '-';
    var body := if t != [] && (t[0] == '-' || t[0] == '+') then t[1..] else t;
    if body != [] && forall i :: 0 <= i < |body| ==> IsDigit(body[i]) then
      var v: int := DigitsValue(body);
      Some(if neg then -v else v)
    else None
  }

  /** `int(str(n)) == n`. */
  lemma {:induction false} ParseIntToString(n: int)
    ensures ParseInt(IntToString(n)) == Some(n)
  {
    var s := IntToString(n);
    var ds := NatToString(if n < 0 then -n else n);
    assert IsDigit(ds[0]) && IsDigit(ds[|ds| - 1]);
    assert s[0] == '-' || s[0] == ds[0];
    assert s[|s| - 1] == ds[|ds| - 1];
    StripStripped(s);
    if n < 0 {
      assert s[1..] == ds;
    } else {
      assert s == ds;
      assert s[0] != '-' && s[0] != '+';
    }
  }
}

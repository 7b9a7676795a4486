/** Helpers of `rag_ready/utils/file_utils.py`: the file-name extension, the difference
    hash (dHash) of a grey-scale thumbnail, and the distance between two such hashes. */
module FileUtils {
  import opened PyStr

  // ---------------------------------------------------------------- get_file_extension

  /** `s.rfind(c)`: the last index holding `c`, or -1. */
  function RFind(s: string, c: char): (r: int)
    ensures -1 <= r < |s|
    ensures r >= 0 ==> s[r] == c
    ensures forall j :: r < j < |s| ==> s[j] != c
  {
    if s == [] then -1
    else if s[|s| - 1] == c then |s| - 1
    else RFind(s[..|s| - 1], c)
  }

  /** The extension part of `os.path.splitext(p)` on a POSIX path: from the last dot of the
      last path component, provided that component has some character other than a dot
      before it (so `.bashrc` and `..` have none). */
  function SplitExtSuffix(p: string): (ext: string)
  {
    var sepIndex := RFind(p, '/');
    var dotIndex := RFind(p, '.');
    if dotIndex > sepIndex && NonDotBetween(p, sepIndex + 1, dotIndex) then p[dotIndex..]
    else ""
  }

  /** Some character of `p[lo..hi]` is not a dot: the scan `splitext` makes for a character
      before the extension's dot. */
  predicate NonDotBetween(p: string, lo: nat, hi: nat)
    requires hi <= |p|
    decreases hi - lo
  {
    lo < hi && (p[lo] != '.' || NonDotBetween(p, lo + 1, hi))
  }

  lemma {:induction false} NonDotAt(p: string, lo: nat, hi: nat, k: nat)
    requires lo <= k < hi <= |p| && p[k] != '.'
    ensures NonDotBetween(p, lo, hi)
    decreases k - lo
  {
    if lo < k {
      NonDotAt(p, lo + 1, hi, k);
    }
  }

  /** `get_file_extension(name)`: the text after the final dot of the file name, lower-cased
      and without the dot; empty when the name has no extension. */
  function GetFileExtension(name: string): (r: string)
    ensures forall i :: 0 <= i < |r| ==> r[i] != '.' && r[i] != '/'
    ensures RFind(name, '.') <= RFind(name, '/') ==> r == ""
    ensures DotLed(name) ==> r == ""
  {
    var ext := SplitExtSuffix(name);
    DotLedHasNoExtension(name);
    Lower(LStripChars(ext, {'.'}))
  }

  /** The last path component has only dots before its last dot (`.bashrc`, `..`, `a/..x`),
      or has no dot at all. */
  predicate DotLed(p: string) {
    forall k :: RFind(p, '/') < k < RFind(p, '.') ==> p[k] == '.'
  }

  /** A dot-led last component has no extension. */
  lemma DotLedHasNoExtension(p: string)
    ensures DotLed(p) ==> SplitExtSuffix(p) == ""
  {
    if RFind(p, '/') < RFind(p, '.') && DotLed(p) {
      AllDotsBetween(p, RFind(p, '/') + 1, RFind(p, '.'));
    }
  }

  lemma {:induction false} AllDotsBetween(p: string, lo: nat, hi: nat)
    requires hi <= |p| && forall k :: lo <= k < hi ==> p[k] == '.'
    ensures !NonDotBetween(p, lo, hi)
    decreases hi - lo
  {
    if lo < hi {
      AllDotsBetween(p, lo + 1, hi);
    }
  }

  /** The extension of `stem.ext` is `ext` lower-cased, when `ext` holds neither a dot nor a
      slash and the last component of `stem` is not made of dots only. */
  lemma {:induction false} ExtensionOfDottedName(stem: string, ext: string)
    requires forall i :: 0 <= i < |ext| ==> ext[i] != '.' && ext[i] != '/'
    requires exists k :: RFind(stem, '/') < k < |stem| && stem[k] != '.'
    ensures GetFileExtension(stem + "." + ext) == Lower(ext)
  {
    DottedSuffix(stem, ext);
    var dotted := "." + ext;
    assert dotted[1..] == ext;
    assert LStripChars(dotted, {'.'}) == LStripChars(ext, {'.'});
    LStripNoop(ext, {'.'});
  }

  /** `os.path.splitext` finds the suffix `"." + ext` of `stem + "." + ext`. */
  lemma DottedSuffix(stem: string, ext: string)
    requires forall i :: 0 <= i < |ext| ==> ext[i] != '.' && ext[i] != '/'
    requires exists k :: RFind(stem, '/') < k < |stem| && stem[k] != '.'
    ensures SplitExtSuffix(stem + "." + ext) == "." + ext
  {
    var p := stem + "." + ext;
    RFindAppend(stem, ext, '.');
    RFindAppend(stem, ext, '/');
    var k :| RFind(stem, '/') < k < |stem| && stem[k] != '.';
    assert p[k] == stem[k];
    SplitExtAt(p, k);
    SuffixAfter(stem, ".", ext);
  }

  lemma SuffixAfter(a: string, b: string, c: string)
    ensures (a + b + c)[|a|..] == b + c
  {
  }

  /** A character other than a dot between the last slash and the last dot makes the
      suffix from the last dot the extension. */
  lemma SplitExtAt(p: string, k: int)
    requires RFind(p, '/') < k < RFind(p, '.') && p[k] != '.'
    ensures SplitExtSuffix(p) == p[RFind(p, '.')..]
  {
    NonDotAt(p, RFind(p, '/') + 1, RFind(p, '.'), k);
  }

  /** How `RFind` sees a name built as `stem + "." + ext`. */
  lemma {:induction false} RFindAppend(stem: string, ext: string, c: char)
    requires forall i :: 0 <= i < |ext| ==> ext[i] != c
    ensures RFind(stem + "." + ext, c) == if c == '.' then |stem| else RFind(stem, c)
    decreases |ext|
  {
    var p := stem + "." + ext;
    if ext != [] {
      assert p[..|p| - 1] == stem + "." + ext[..|ext| - 1];
      RFindAppend(stem, ext[..|ext| - 1], c);
    } else if c != '.' {
      assert p[..|p| - 1] == stem;
    }
  }

  // ---------------------------------------------------------------- hamming_distance

  /** The number of positions at which two equally long strings differ. */
  function Mismatches(a: string, b: string): nat
    requires |a| == |b|
  {
    if a == [] then 0
    else Mismatches(a[..|a| - 1], b[..|b| - 1]) + (if a[|a| - 1] != b[|b| - 1] then 1 else 0)
  }

  /** What `hamming_distance` computes: the length of the longer string when the lengths
      differ, otherwise the number of differing characters (characters of the hex text, not
      bits). */
  function Hamming(h1: string, h2: string): nat {
    if |h1| != |h2| then (if |h1| > |h2| then |h1| else |h2|)
    else Mismatches(h1, h2)
  }

  /** `hamming_distance(hash1, hash2)`. */
  method HammingDistance(hash1: string, hash2: string) returns (distance: nat)
    ensures distance == Hamming(hash1, hash2)
  {
    if |hash1| != |hash2| {
      return if |hash1| > |hash2| then |hash1| else |hash2|;
    }
    distance := 0;
    var i := 0;
    while i < |hash1|
      invariant 0 <= i <= |hash1|
      invariant distance == Mismatches(hash1[..i], hash2[..i])
    {
      assert hash1[..i + 1][..i] == hash1[..i] && hash2[..i + 1][..i] == hash2[..i];
      if hash1[i] != hash2[i] {
        distance := distance + 1;
      }
      i := i + 1;
    }
    assert hash1[..i] == hash1 && hash2[..i] == hash2;
  }

  lemma {:induction false} MismatchesSymmetric(a: string, b: string)
    requires |a| == |b|
    ensures Mismatches(a, b) == Mismatches(b, a)
  {
    if a != [] {
      MismatchesSymmetric(a[..|a| - 1], b[..|b| - 1]);
    }
  }

  lemma {:induction false} MismatchesBounds(a: string, b: string)
    requires |a| == |b|
    ensures Mismatches(a, b) <= |a|
    ensures Mismatches(a, b) == 0 <==> a == b
  {
    if a != [] {
      var a', b' := a[..|a| - 1], b[..|b| - 1];
      MismatchesBounds(a', b');
      assert a == a' + [a[|a| - 1]] && b == b' + [b[|b| - 1]];
    }
  }

  /** The distance is symmetric, never exceeds the longer length, is zero exactly for equal
      strings, and strings of different lengths are never at distance zero. */
  lemma HammingProperties(h1: string, h2: string)
    ensures Hamming(h1, h2) == Hamming(h2, h1)
    ensures Hamming(h1, h2) <= (if |h1| > |h2| then |h1| else |h2|)
    ensures Hamming(h1, h2) == 0 <==> h1 == h2
    ensures |h1| != |h2| ==> Hamming(h1, h2) > 0
  {
    if |h1| == |h2| {
      MismatchesSymmetric(h1, h2);
      MismatchesBounds(h1, h2);
    }
  }

  // ---------------------------------------------------------------- dhash

  /** The list comprehension that cuts the pixel list into rows of `width` pixels. */
  function Chunks(pixels: seq<int>, width: nat): (rows: seq<seq<int>>)
    requires width > 0
    decreases |pixels|
  {
    if pixels == [] then []
    else if |pixels| <= width then [pixels]
    else [pixels[..width]] + Chunks(pixels[width..], width)
  }

  /** The rows laid end to end. */
  function Flatten(rows: seq<seq<int>>): seq<int> {
    if rows == [] then [] else rows[0] + Flatten(rows[1..])
  }

  /** Cutting loses nothing: the rows laid end to end are the pixel list. */
  lemma {:induction false} FlattenChunks(pixels: seq<int>, width: nat)
    requires width > 0
    ensures Flatten(Chunks(pixels, width)) == pixels
    decreases |pixels|
  {
    if |pixels| > width {
      FlattenChunks(pixels[width..], width);
      assert pixels == pixels[..width] + pixels[width..];
    }
  }

  /** Cutting `count * width` pixels gives `count` rows of exactly `width` pixels. */
  lemma {:induction false} ChunksShape(pixels: seq<int>, width: nat, count: nat)
    requires width > 0 && |pixels| == count * width
    ensures |Chunks(pixels, width)| == count
    ensures forall r :: 0 <= r < count ==> |Chunks(pixels, width)[r]| == width
    decreases count
  {
    if count > 0 {
      assert count * width == (count - 1) * width + width;
      var rest := pixels[width..];
      ChunksShape(rest, width, count - 1);
      if count == 1 {
        assert Chunks(pixels, width) == [pixels];
      } else {
        assert Chunks(pixels, width) == [pixels[..width]] + Chunks(rest, width);
      }
    }
  }

  /** The brightness comparisons of one row: entry `c` says pixel `c` is brighter than its
      right neighbour. */
  function RowDiff(row: seq<int>, hashSize: nat): (bits: seq<bool>)
    requires |row| == hashSize + 1
    ensures |bits| == hashSize && forall c :: 0 <= c < hashSize ==> bits[c] == (row[c] > row[c + 1])
  {
    seq(hashSize, c requires 0 <= c < hashSize => row[c] > row[c + 1])
  }

  /** The comparisons of all rows, one row after the other. */
  function DiffBits(rows: seq<seq<int>>, hashSize: nat): (bits: seq<bool>)
    requires forall r :: 0 <= r < |rows| ==> |rows[r]| == hashSize + 1
  {
    if rows == [] then []
    else DiffBits(rows[..|rows| - 1], hashSize) + RowDiff(rows[|rows| - 1], hashSize)
  }

  /** One comparison per pixel except the last of each row. */
  lemma {:induction false} DiffBitsLength(rows: seq<seq<int>>, hashSize: nat)
    requires forall r :: 0 <= r < |rows| ==> |rows[r]| == hashSize + 1
    ensures |DiffBits(rows, hashSize)| == |rows| * hashSize
  {
    if rows != [] {
      DiffBitsLength(rows[..|rows| - 1], hashSize);
      assert |rows| * hashSize == (|rows| - 1) * hashSize + hashSize;
    }
  }

  /** Bit `r * hashSize + c` of the difference list compares pixels `c` and `c + 1` of row `r`. */
  lemma {:induction false} DiffBitsAt(rows: seq<seq<int>>, hashSize: nat, r: nat, c: nat)
    requires forall k :: 0 <= k < |rows| ==> |rows[k]| == hashSize + 1
    requires r < |rows| && c < hashSize
    ensures r * hashSize + c < |DiffBits(rows, hashSize)|
    ensures DiffBits(rows, hashSize)[r * hashSize + c] == (rows[r][c] > rows[r][c + 1])
    decreases |rows|
  {
    var init := rows[..|rows| - 1];
    DiffBitsLength(init, hashSize);
    DiffBitsLength(rows, hashSize);
    if r < |rows| - 1 {
      DiffBitsAt(init, hashSize, r, c);
      assert init[r] == rows[r];
    } else {
      assert r * hashSize == |init| * hashSize;
    }
  }

  function Pow2(k: nat): (p: nat)
    ensures p >= 1
  {
    if k == 0 then 1 else 2 * Pow2(k - 1)
  }

  /** The number whose binary digits are `bits`, least significant first: bit `j` has
      weight `2^j`. */
  function ByteValue(bits: seq<bool>): (v: nat)
    ensures v < Pow2(|bits|)
    ensures |bits| == 8 ==> v < 256
  {
    if bits == [] then 0
    else
      var v := (if bits[0] then 1 else 0) + 2 * ByteValue(bits[1..]);
      assert |bits| == 8 ==> Pow2(|bits|) == 256 by {
        assert Pow2(4) == 16;
      }
      v
  }

  /** Adding one more bit on the high side adds its weight. */
  lemma {:induction false} ByteValueSnoc(bits: seq<bool>, b: bool)
    ensures ByteValue(bits + [b]) == ByteValue(bits) + (if b then Pow2(|bits|) else 0)
  {
    if bits != [] {
      assert (bits + [b])[1..] == bits[1..] + [b];
      ByteValueSnoc(bits[1..], b);
    } else {
      assert ([] + [b])[1..] == [];
    }
  }

  /** The lower-case hex digit of `d`. */
  function HexDigit(d: nat): char
    requires d < 16
  {
    if d < 10 then ('0' as int + d) as char else ('a' as int + d - 10) as char
  }

  /** `hex(v)[2:]`: lower-case hex digits without leading zeros. */
  function HexText(v: nat): (s: string)
    ensures s != []
  {
    if v < 16 then [HexDigit(v)] else HexText(v / 16) + [HexDigit(v % 16)]
  }

  /** `s.rjust(width, fill)`. */
  function RJust(s: string, width: nat, fill: char): (r: string)
    ensures |r| == if |s| >= width then |s| else width
  {
    if |s| >= width then s else seq(width - |s|, _ => fill) + s
  }

  /** `hex(v)[2:].rjust(2, "0")`: for a byte, exactly its two hex digits, high digit first. */
  function HexByte(v: nat): (r: string)
    ensures v < 256 ==> r == [HexDigit(v / 16), HexDigit(v % 16)]
  {
    if v >= 16 && v < 256 then
      assert HexText(v / 16) == [HexDigit(v / 16)];
      RJust(HexText(v), 2, '0')
    else RJust(HexText(v), 2, '0')
  }

  /** The hex text of a list of comparison bits: one pair of digits per complete group of
      eight, in order; a trailing incomplete group is dropped. */
  function PackHex(bits: seq<bool>): (hex: string)
    ensures |hex| % 2 == 0
  {
    if |bits| < 8 then "" else HexByte(ByteValue(bits[..8])) + PackHex(bits[8..])
  }

  /** Completing one more group of eight appends its two digits. */
  lemma {:induction false} PackHexSnoc(done: seq<bool>, group: seq<bool>)
    requires |done| % 8 == 0 && |group| == 8
    ensures PackHex(done + group) == PackHex(done) + HexByte(ByteValue(group))
  {
    if done == [] {
      assert (done + group)[..8] == group;
      assert (done + group)[8..] == [];
    } else {
      assert (done + group)[..8] == done[..8];
      assert (done + group)[8..] == done[8..] + group;
      PackHexSnoc(done[8..], group);
    }
  }

  /** An incomplete trailing group adds no digits. */
  lemma {:induction false} PackHexTail(done: seq<bool>, tail: seq<bool>)
    requires |done| % 8 == 0 && |tail| < 8
    ensures PackHex(done + tail) == PackHex(done)
  {
    if done == [] {
      assert done + tail == tail;
    } else {
      assert (done + tail)[..8] == done[..8];
      assert (done + tail)[8..] == done[8..] + tail;
      PackHexTail(done[8..], tail);
    }
  }

  /** The bit-packing half of `dhash(image, hash_size)`, from the grey-scale pixel list of the
      `(hash_size + 1) x hash_size` thumbnail onward. */
  method DHash(pixels: seq<int>, hashSize: nat) returns (hex: string)
    requires |pixels| == (hashSize + 1) * hashSize
    ensures var rows := Chunks(pixels, hashSize + 1);
      |rows| == hashSize &&
      (forall r :: 0 <= r < |rows| ==> |rows[r]| == hashSize + 1) &&
      hex == PackHex(DiffBits(rows, hashSize))
  {
    var rows := Chunks(pixels, hashSize + 1);
    ChunksShape(pixels, hashSize + 1, hashSize);
    var diff := CompareNeighbours(rows, hashSize);
    hex := PackBits(diff);
  }

  /** The comparison loops of `dhash`: for each row in order, whether each pixel is brighter
      than its right neighbour. */
  method CompareNeighbours(rows: seq<seq<int>>, hashSize: nat) returns (diff: seq<bool>)
    requires forall r :: 0 <= r < |rows| ==> |rows[r]| == hashSize + 1
    ensures diff == DiffBits(rows, hashSize)
  {
    diff := [];
    var r := 0;
    while r < |rows|
      invariant 0 <= r <= |rows|
      invariant diff == DiffBits(rows[..r], hashSize)
    {
      var row := rows[r];
      var col := 0;
      ghost var before := diff;
      while col < hashSize
        invariant 0 <= col <= hashSize
        invariant diff == before + RowDiff(row, hashSize)[..col]
      {
        diff := diff + [row[col] > row[col + 1]];
        col := col + 1;
      }
      assert rows[..r + 1][..r] == rows[..r];
      r := r + 1;
    }
    assert rows[..r] == rows;
  }

  /** The packing loop of `dhash`: bit `i` of the comparison list gets weight `2^(i % 8)` in
      its group, and each completed group of eight is appended as two hex digits. */
  method PackBits(diff: seq<bool>) returns (hex: string)
    ensures hex == PackHex(diff)
  {
    var decimalValue := 0;
    hex := [];
    var i := 0;
    ghost var groupStart := 0;
    while i < |diff|
      invariant 0 <= groupStart <= i <= |diff|
      invariant groupStart % 8 == 0 && i - groupStart == i % 8
      invariant hex == PackHex(diff[..groupStart])
      invariant decimalValue == ByteValue(diff[groupStart..i])
    {
      PackStep(diff, groupStart, i, decimalValue);
      decimalValue := AddBit(decimalValue, diff[i], i % 8);
      if i % 8 == 7 {
        hex := hex + HexByte(decimalValue);
        decimalValue := 0;
        groupStart := i + 1;
      }
      i := i + 1;
    }
    PackHexPrefix(diff, groupStart);
  }

  /** Python's `a | b` on non-negative integers, one binary digit at a time from the
      lowest. */
  function BitOr(a: nat, b: nat): nat
    decreases a + b
  {
    if a == 0 then b
    else if b == 0 then a
    else 2 * BitOr(a / 2, b / 2) + (if a % 2 == 1 || b % 2 == 1 then 1 else 0)
  }

  /** One turn of the packing loop: the accumulator takes bit `i`, and at the end of a group
      of eight the hex text of the complete groups gains its two digits. */
  lemma PackStep(diff: seq<bool>, groupStart: nat, i: nat, acc: nat)
    requires groupStart <= i < |diff| && groupStart % 8 == 0 && i - groupStart == i % 8
    requires acc == ByteValue(diff[groupStart..i])
    ensures AddBit(acc, diff[i], i % 8) == ByteValue(diff[groupStart..i + 1])
    ensures i % 8 == 7 ==> (i + 1) % 8 == 0 && ByteValue(diff[i + 1..i + 1]) == 0
    ensures i % 8 == 7 ==>
      PackHex(diff[..i + 1]) == PackHex(diff[..groupStart]) + HexByte(AddBit(acc, diff[i], i % 8))
    ensures i % 8 != 7 ==> i + 1 - groupStart == (i + 1) % 8
  {
    NextIndexModEight(i, groupStart);
    GroupBit(diff, groupStart, i);
    if i % 8 == 7 {
      GroupDone(diff, groupStart, i);
    }
  }

  /** `if v: decimal_value |= 1 << k`: on a byte with bit `k` below 8 the result is still a
      byte, and on an accumulator below `2^k` setting bit `k` adds its weight. */
  function AddBit(acc: nat, b: bool, k: nat): (r: nat)
    ensures acc < 256 && k < 8 ==> r < 256
    ensures acc < Pow2(k) ==> r == acc + (if b then Pow2(k) else 0)
  {
    if b then
      ByteOr(acc, k);
      OrBitWeight(acc, k);
      BitOr(acc, Pow2(k))
    else acc
  }

  /** Or-ing bit `k` below 8 into a byte gives a byte. */
  lemma ByteOr(acc: nat, k: nat)
    ensures acc < 256 && k < 8 ==> BitOr(acc, Pow2(k)) < 256
  {
    if acc < 256 && k < 8 {
      Pow2Monotone(k, 7);
      OrBelow(acc, Pow2(k), 8);
    }
  }

  /** Or-ing in a bit above every bit of `acc` adds its weight. */
  lemma {:induction false} OrBitWeight(acc: nat, k: nat)
    ensures acc < Pow2(k) ==> BitOr(acc, Pow2(k)) == acc + Pow2(k)
    decreases k
  {
    if acc >= Pow2(k) {
    } else if k == 0 {
      assert acc == 0;
    } else if acc != 0 {
      var h := Pow2(k - 1);
      assert Pow2(k) == 2 * h;
      OrBitWeight(acc / 2, k - 1);
      assert BitOr(acc, Pow2(k)) == 2 * BitOr(acc / 2, h) + acc % 2;
    }
  }

  /** The or of two numbers below `2^n` is below `2^n`. */
  lemma {:induction false} OrBelow(a: nat, b: nat, n: nat)
    requires a < Pow2(n) && b < Pow2(n)
    ensures BitOr(a, b) < Pow2(n)
    decreases n
  {
    if a != 0 && b != 0 {
      assert n != 0;
      var h := Pow2(n - 1);
      assert Pow2(n) == 2 * h;
      OrBelow(a / 2, b / 2, n - 1);
    }
  }

  /** The value of the bits of a group grows by the weight of each new bit, and stays below
      the weight of the next one. */
  lemma GroupBit(diff: seq<bool>, groupStart: nat, i: nat)
    requires groupStart <= i < |diff| && i - groupStart < 8
    ensures ByteValue(diff[groupStart..i]) < Pow2(i - groupStart) <= 128
    ensures ByteValue(diff[groupStart..i + 1])
      == ByteValue(diff[groupStart..i]) + (if diff[i] then Pow2(i - groupStart) else 0)
    ensures ByteValue(diff[i + 1..i + 1]) == 0
  {
    assert diff[i + 1..i + 1] == [];
    Pow2Monotone(i - groupStart, 7);
    ByteValueSnoc(diff[groupStart..i], diff[i]);
    assert diff[groupStart..i + 1] == diff[groupStart..i] + [diff[i]];
  }

  lemma {:induction false} Pow2Monotone(k: nat, n: nat)
    requires k <= n
    ensures Pow2(k) <= Pow2(n)
  {
    if k < n {
      Pow2Monotone(k, n - 1);
    }
  }

  lemma NextIndexModEight(i: nat, groupStart: nat)
    requires groupStart <= i && groupStart % 8 == 0 && i - groupStart == i % 8
    ensures i % 8 == 7 ==> (i + 1) % 8 == 0
    ensures i % 8 != 7 ==> (i + 1) % 8 == i % 8 + 1
  {
  }

  /** Closing a group of eight appends its two digits to the hex text. */
  lemma GroupDone(diff: seq<bool>, groupStart: nat, i: nat)
    requires groupStart <= i < |diff| && i + 1 - groupStart == 8 && groupStart % 8 == 0
    ensures PackHex(diff[..i + 1]) == PackHex(diff[..groupStart]) + HexByte(ByteValue(diff[groupStart..i + 1]))
  {
    PackHexSnoc(diff[..groupStart], diff[groupStart..i + 1]);
    assert diff[..groupStart] + diff[groupStart..i + 1] == diff[..i + 1];
  }

  /** Once fewer than eight bits remain, the hex text of the complete groups is final. */
  lemma PackHexPrefix(bits: seq<bool>, n: nat)
    requires n <= |bits| && n % 8 == 0 && |bits| - n < 8
    ensures PackHex(bits[..n]) == PackHex(bits)
  {
    PackHexTail(bits[..n], bits[n..]);
    assert bits[..n] + bits[n..] == bits;
  }

  // ---------------------------------------------------------------- reading a hash back

  /** The value of a lower-case hex digit. */
  function HexDigitValue(c: char): nat {
    if '0' <= c <= '9' then c as int - '0' as int
    else if 'a' <= c <= 'f' then c as int - 'a' as int + 10
    else 0
  }

  /** The low `n` bits of `v`, least significant first. */
  function BitsOf(v: nat, n: nat): (bits: seq<bool>)
    ensures |bits| == n
  {
    if n == 0 then [] else [v % 2 == 1] + BitsOf(v / 2, n - 1)
  }

  /** The bits that a hex text stands for, eight per pair of digits. */
  function UnpackHex(hex: string): (bits: seq<bool>)
    ensures |bits| % 8 == 0
  {
    if |hex| < 2 then []
    else
      var rest := UnpackHex(hex[2..]);
      ModEightStep(|rest|);
      BitsOf(16 * HexDigitValue(hex[0]) + HexDigitValue(hex[1]), 8) + rest
  }

  lemma ModEightStep(n: nat)
    ensures n % 8 == 0 ==> (8 + n) % 8 == 0
  {
  }

  lemma {:induction false} BitsOfByteValue(bits: seq<bool>)
    ensures BitsOf(ByteValue(bits), |bits|) == bits
  {
    if bits != [] {
      BitsOfByteValue(bits[1..]);
      var v := ByteValue(bits);
      assert v % 2 == (if bits[0] then 1 else 0);
      assert v / 2 == ByteValue(bits[1..]);
    }
  }

  lemma HexDigitRoundTrip(d: nat)
    requires d < 16
    ensures HexDigitValue(HexDigit(d)) == d
  {
  }

  /** Reading back a leading digit pair gives the eight bits of its byte. */
  lemma UnpackDigitPair(v: nat, rest: string)
    requires v < 256
    ensures UnpackHex(HexByte(v) + rest) == BitsOf(v, 8) + UnpackHex(rest)
  {
    var h := HexByte(v) + rest;
    assert h[2..] == rest;
    HexDigitRoundTrip(v / 16);
    HexDigitRoundTrip(v % 16);
  }

  /** A hash can be read back: it stands for exactly the complete groups of eight comparison
      bits, in order. */
  lemma {:induction false} PackHexReadBack(bits: seq<bool>)
    ensures UnpackHex(PackHex(bits)) == bits[..8 * (|bits| / 8)]
  {
    if |bits| >= 8 {
      var group, rest := bits[..8], bits[8..];
      UnpackDigitPair(ByteValue(group), PackHex(rest));
      BitsOfByteValue(group);
      PackHexReadBack(rest);
      DivEightStep(|bits|);
      PrefixAfter(bits, 8, 8 * (|rest| / 8));
    }
  }

  lemma DivEightStep(n: nat)
    requires n >= 8
    ensures n / 8 == 1 + (n - 8) / 8 && 8 * ((n - 8) / 8) <= n - 8
  {
  }

  lemma PrefixAfter<T>(s: seq<T>, k: nat, n: nat)
    requires k + n <= |s|
    ensures s[..k + n] == s[..k] + s[k..][..n]
  {
  }

  /** Two hex digits per complete group of eight comparison bits. */
  lemma {:induction false} PackHexLength(bits: seq<bool>)
    ensures |PackHex(bits)| == 2 * (|bits| / 8)
  {
    if |bits| >= 8 {
      PackHexLength(bits[8..]);
      DivEightStep(|bits|);
    }
  }

  /** With the default `hash_size` of 8 the 64 comparison bits give 16 hex digits. */
  lemma DefaultHashLength(bits: seq<bool>)
    requires |bits| == 8 * 8
    ensures |PackHex(bits)| == 16
  {
    PackHexLength(bits);
  }
}

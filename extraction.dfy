/** Reading one locus window from the genome (primer_design.py:63-67): the
    residue-to-character offset arithmetic, `seek`/`read` on the file held as
    a string, and the whitespace removal; then what the read returns when the
    sequence body is wrapped at a uniform width. */
module Extraction {
  import opened Common
  import opened Strings

  // ---------------------------------------------------------------------------
  // Offsets
  // ---------------------------------------------------------------------------

  /** `p // w * (w + 1) + p % w`: where residue `p` of a body wrapped at `w`
      residues per line sits, counting the line terminators before it. Python's
      `//` and `%` with a positive divisor are Dafny's `/` and `%`. */
  function CharOffset(p: int, w: nat): int
    requires w > 0
  {
    p / w * (w + 1) + p % w
  }

  /** `seek_start` of line 64: the offset of `start`, less one. */
  function SeekStart(base: int, start: int, w: nat): int
    requires w > 0
  {
    base + CharOffset(start, w) - 1
  }

  /** `seek_end` of line 65. */
  function SeekEnd(base: int, end: int, w: nat): int
    requires w > 0
  {
    base + CharOffset(end, w)
  }

  /** The first residue (0-based) that the read from `seek_start` returns when
      `start` lies inside a wrapped body: the one before `start`, unless `start`
      begins a line and the `- 1` lands on a terminator. */
  function FirstResidue(start: nat, w: nat): (first: nat)
    requires w > 0
    ensures first == start || first == start - 1
    ensures first == start <==> start % w == 0
  {
    DivModUnique(0, w, 0, 0);
    if start % w != 0 then start - 1 else start
  }

  /** A positive multiple of a positive number is at least that number. */
  lemma {:induction false} MultipleAtLeast(k: int, w: nat)
    requires k >= 1 && w > 0
    ensures k * w >= w
    decreases k
  {
    if k > 1 {
      MultipleAtLeast(k - 1, w);
      assert k * w == (k - 1) * w + w;
    }
  }

  /** Quotient and remainder are determined by the division identity. */
  lemma DivModUnique(p: int, w: nat, q: int, r: int)
    requires w > 0 && 0 <= r < w && p == q * w + r
    ensures p / w == q && p % w == r
  {
    var q', r' := p / w, p % w;
    assert p == q' * w + r' && 0 <= r' < w;
    if q' > q {
      assert (q' - q) * w == q' * w - q * w;
      MultipleAtLeast(q' - q, w);
    } else if q' < q {
      assert (q - q') * w == q * w - q' * w;
      MultipleAtLeast(q - q', w);
    }
  }

  /** The offset is the residue index plus the number of terminators before it. */
  lemma CharOffsetShift(p: int, w: nat)
    requires w > 0
    ensures CharOffset(p, w) == p + p / w
  {
  }

  /** Moving one whole line on moves the offset by one line and its terminator. */
  lemma CharOffsetNextLine(p: int, w: nat)
    requires w > 0
    ensures (p + w) / w == p / w + 1 && (p + w) % w == p % w
    ensures CharOffset(p + w, w) == CharOffset(p, w) + w + 1
  {
    DivModUnique(p + w, w, p / w + 1, p % w);
  }

  /** The offset of a residue on a later line, from the one a line before it. */
  lemma CharOffsetLater(p: int, q: int, w: nat)
    requires w > 0 && q == p + w
    ensures q / w == p / w + 1 && q % w == p % w
    ensures CharOffset(q, w) == CharOffset(p, w) + w + 1
  {
    CharOffsetNextLine(p, w);
  }

  /** Within the first line the offset is the residue index. */
  lemma CharOffsetFirstLine(p: int, w: nat)
    requires 0 <= p < w
    ensures CharOffset(p, w) == p
  {
    DivModUnique(p, w, 0, p);
  }

  /** The offset before a residue that does not start a line is one less. */
  lemma CharOffsetPrevious(p: int, w: nat)
    requires w > 0 && p % w != 0
    ensures CharOffset(p - 1, w) == CharOffset(p, w) - 1
  {
    DivModUnique(p - 1, w, p / w, p % w - 1);
  }

  /** `seek_end - seek_start`: the span asked for, one more character for the
      `- 1` of line 64, and one terminator per line boundary crossed. */
  lemma SeekSpan(base: int, start: int, end: int, w: nat)
    requires w > 0
    ensures SeekEnd(base, end, w) - SeekStart(base, start, w)
            == (end - start) + 1 + (end / w - start / w)
  {
    CharOffsetShift(start, w);
    CharOffsetShift(end, w);
  }

  /** Offsets never decrease as the residue index grows. */
  lemma CharOffsetMonotone(a: int, b: int, w: nat)
    requires w > 0 && a <= b
    ensures CharOffset(a, w) <= CharOffset(b, w)
  {
    CharOffsetShift(a, w);
    CharOffsetShift(b, w);
    if a / w > b / w {
      assert (a / w - b / w) * w == a / w * w - b / w * w;
      MultipleAtLeast(a / w - b / w, w);
    }
  }

  // ---------------------------------------------------------------------------
  // seek, read and the whitespace removal
  // ---------------------------------------------------------------------------

  /** `g.seek(pos, 0)` then `g.read(n)` on a file open in text mode: at most `n`
      characters from `pos` on, everything up to the end of the file when `n` is
      negative, and nothing once `pos` is past the end. */
  function ReadAt(file: string, pos: nat, n: int): (r: string)
    ensures var from := if pos <= |file| then pos else |file|;
            && from + |r| <= |file| && r == file[from..from + |r|]
            && |r| == (if n < 0 || from + n > |file| then |file| - from else n)
  {
    var from := if pos <= |file| then pos else |file|;
    var to := if n < 0 || from + n > |file| then |file| else from + n;
    file[from..to]
  }

  /** Lines 64-67 for one locus: the offsets from the index entry of `chrom`
      and the line width, the read of `[seek_start, seek_end)`, and
      `"".join(... .split())`. The faults come in the order Python meets them:
      the dictionary lookup, the unassigned `base_per_line`, the division by
      zero, and the negative seek. */
  function Extract(file: string, faidx: map<string, int>, basePerLine: Option<nat>,
                   chrom: string, start: int, end: int): (r: Result<string>)
    ensures chrom !in faidx ==> r == Err(UnknownSequence(chrom))
    ensures chrom in faidx && basePerLine.None? ==> r == Err(LineWidthUnset)
    ensures chrom in faidx && basePerLine == Some(0) ==> r == Err(ZeroLineWidth)
    ensures chrom in faidx && basePerLine.Some? && basePerLine.value > 0 ==>
      var w := basePerLine.value;
      var s := SeekStart(faidx[chrom], start, w);
      var e := SeekEnd(faidx[chrom], end, w);
      && (s < 0 ==> r == Err(NegativeSeek(s)))
      && (s >= 0 ==> r == Ok(RemoveSpace(ReadAt(file, s, e - s))))
    ensures r.Ok? ==> NoSpace(r.value)
  {
    if chrom !in faidx then Err(UnknownSequence(chrom))
    else if basePerLine.None? then Err(LineWidthUnset)
    else if basePerLine.value == 0 then Err(ZeroLineWidth)
    else
      var w := basePerLine.value;
      var s := SeekStart(faidx[chrom], start, w);
      var e := SeekEnd(faidx[chrom], end, w);
      if s < 0 then Err(NegativeSeek(s))
      else
        var text := ReadAt(file, s, e - s);
        JoinSplit(text);
        Ok(Join(Split(text)))
  }

  // ---------------------------------------------------------------------------
  // Reads from a uniformly wrapped body
  // ---------------------------------------------------------------------------

  /** The residues `r` written `w` to a line, each line ending in a newline. */
  function Wrap(r: string, w: nat): (body: string)
    requires w > 0
    decreases |r|
  {
    if r == [] then []
    else if |r| <= w then r + "\n"
    else r[..w] + "\n" + Wrap(r[w..], w)
  }

  /** The offset of every residue, and of the end, lies within the body. */
  lemma {:induction false} WrapCovers(r: string, w: nat, k: int)
    requires w > 0 && 0 <= k <= |r|
    ensures CharOffset(k, w) <= |Wrap(r, w)|
    decreases |r|
  {
    if k < w {
      CharOffsetFirstLine(k, w);
    } else {
      CharOffsetNextLine(k - w, w);
      if |r| > w {
        WrapCovers(r[w..], w, k - w);
        CharOffsetNextLine(k - w, w);
      } else {
        CharOffsetFirstLine(0, w);
      }
    }
  }

  /** The character just before a residue that starts a line (or just before
      the end of a body of full lines) is a line terminator. */
  lemma {:induction false} WrapTerminator(r: string, w: nat, k: int)
    requires w > 0 && 0 < k <= |r| && k % w == 0
    ensures 0 < CharOffset(k, w) <= |Wrap(r, w)| && Wrap(r, w)[CharOffset(k, w) - 1] == '\n'
    decreases |r|
  {
    CharOffsetLater(k - w, k, w);
    if k == w {
      CharOffsetFirstLine(0, w);
    } else {
      assert |r| > w;
      var rest := Wrap(r[w..], w);
      WrapHead(r, w);
      WrapTerminator(r[w..], w, k - w);
      assert Wrap(r, w)[CharOffset(k, w) - 1] == rest[CharOffset(k - w, w) - 1];
    }
  }

  /** Whitespace-free text read back from the first line. */
  lemma WrapSliceFirstLine(r: string, w: nat, a: int, b: int)
    requires w > 0 && NoSpace(r) && 0 <= a <= b <= |r| && b < w
    ensures CharOffset(a, w) == a && CharOffset(b, w) == b && b <= |Wrap(r, w)|
    ensures RemoveSpace(Wrap(r, w)[CharOffset(a, w)..CharOffset(b, w)]) == r[a..b]
  {
    CharOffsetFirstLine(a, w);
    CharOffsetFirstLine(b, w);
    assert Wrap(r, w)[a..b] == r[a..b];
    RemoveSpaceIdentity(r[a..b]);
  }

  /** A window that ends at the first line's terminator. */
  lemma WrapSliceToFirstEnd(r: string, w: nat, a: int)
    requires w > 0 && NoSpace(r) && 0 <= a < w <= |r|
    ensures CharOffset(w, w) == w + 1 <= |Wrap(r, w)|
    ensures RemoveSpace(Wrap(r, w)[CharOffset(a, w)..w + 1]) == r[a..w]
  {
    CharOffsetFirstLine(a, w);
    CharOffsetFirstLine(0, w);
    CharOffsetNextLine(0, w);
    var body := Wrap(r, w);
    assert body[a..w + 1] == r[a..w] + "\n";
    RemoveSpaceAppend(r[a..w], "\n");
    RemoveSpaceIdentity(r[a..w]);
  }

  /** Removing whitespace from a window of the text after a prefix. */
  lemma RemoveSpaceAfter(line: string, rest: string, i: int, j: int)
    requires 0 <= i <= j <= |rest|
    ensures RemoveSpace((line + rest)[|line| + i..|line| + j]) == RemoveSpace(rest[i..j])
  {
    assert (line + rest)[|line| + i..|line| + j] == rest[i..j];
  }

  /** Removing whitespace from a window that starts in a prefix and ends after it. */
  lemma RemoveSpaceAcross(line: string, rest: string, i: int, j: int)
    requires 0 <= i <= |line| && 0 <= j <= |rest|
    ensures RemoveSpace((line + rest)[i..|line| + j])
            == RemoveSpace(line[i..]) + RemoveSpace(rest[..j])
  {
    assert (line + rest)[i..|line| + j] == line[i..] + rest[..j];
    RemoveSpaceAppend(line[i..], rest[..j]);
  }

  /** The residues of the first line, from `a` on, read up to its terminator. */
  lemma RemoveSpaceLineEnd(r: string, w: nat, a: int)
    requires NoSpace(r) && 0 <= a <= w < |r|
    ensures RemoveSpace((r[..w] + "\n")[a..]) == r[a..w]
  {
    assert (r[..w] + "\n")[a..] == r[a..w] + "\n";
    RemoveSpaceAppend(r[a..w], "\n");
    RemoveSpaceIdentity(r[a..w]);
  }

  /** Reading the body between the offsets of residues `a` and `b` and removing
      the whitespace gives back exactly the residues `a` to `b`. */
  lemma {:induction false} WrapSlice(r: string, w: nat, a: int, b: int)
    requires w > 0 && NoSpace(r) && 0 <= a <= b <= |r|
    ensures 0 <= CharOffset(a, w) <= CharOffset(b, w) <= |Wrap(r, w)|
    ensures RemoveSpace(Wrap(r, w)[CharOffset(a, w)..CharOffset(b, w)]) == r[a..b]
    decreases |r|, 2
  {
    CharOffsetMonotone(0, a, w);
    CharOffsetFirstLine(0, w);
    CharOffsetMonotone(a, b, w);
    WrapCovers(r, w, b);
    if b < w {
      WrapSliceFirstLine(r, w, a, b);
    } else if |r| == w {
      if a < w {
        WrapSliceToFirstEnd(r, w, a);
        CharOffsetNextLine(0, w);
      }
    } else if a >= w {
      WrapSliceLater(r, w, a, b);
    } else {
      WrapSliceAcross(r, w, a, b);
    }
  }

  /** A window after the first line reads as the same window of the later lines. */
  lemma {:induction false} WrapSliceLater(r: string, w: nat, a: int, b: int)
    requires w > 0 && NoSpace(r) && w <= a <= b <= |r| && w < |r|
    ensures 0 <= CharOffset(a, w) <= CharOffset(b, w) <= |Wrap(r, w)|
    ensures RemoveSpace(Wrap(r, w)[CharOffset(a, w)..CharOffset(b, w)]) == r[a..b]
    decreases |r|, 0
  {
    var line := r[..w] + "\n";
    var rest := Wrap(r[w..], w);
    WrapHead(r, w);
    CharOffsetLater(a - w, a, w);
    CharOffsetLater(b - w, b, w);
    assert |line| == w + 1;
    WrapSlice(r[w..], w, a - w, b - w);
    assert r[w..][a - w..b - w] == r[a..b];
    ReadAfter(Wrap(r, w), line, rest, CharOffset(a - w, w), CharOffset(b - w, w), r[a..b],
              CharOffset(a, w), CharOffset(b, w));
  }

  /** A window that starts on the first line and ends on a later one. */
  lemma {:induction false} WrapSliceAcross(r: string, w: nat, a: int, b: int)
    requires w > 0 && NoSpace(r) && 0 <= a < w <= b <= |r| && w < |r|
    ensures 0 <= CharOffset(a, w) <= CharOffset(b, w) <= |Wrap(r, w)|
    ensures RemoveSpace(Wrap(r, w)[CharOffset(a, w)..CharOffset(b, w)]) == r[a..b]
    decreases |r|, 1
  {
    var line := r[..w] + "\n";
    var rest := Wrap(r[w..], w);
    WrapHead(r, w);
    CharOffsetLater(b - w, b, w);
    assert |line| == w + 1;
    CharOffsetFirstLine(0, w);
    CharOffsetFirstLine(a, w);
    var hi := CharOffset(b - w, w);
    WrapSliceRest(r, w, b);
    RemoveSpaceLineEnd(r, w, a);
    SliceSplit(r, a, w, b);
    ReadAcross(Wrap(r, w), line, rest, a, hi, r[a..w], r[w..b],
               CharOffset(a, w), CharOffset(b, w), r[a..b]);
  }

  /** The later lines, read from their start up to the offset of `b`. */
  lemma WrapSliceRest(r: string, w: nat, b: int)
    requires w > 0 && NoSpace(r) && w <= b <= |r| && w < |r|
    ensures 0 <= CharOffset(b - w, w) <= |Wrap(r[w..], w)|
    ensures RemoveSpace(Wrap(r[w..], w)[..CharOffset(b - w, w)]) == r[w..b]
    decreases |r|, 0
  {
    var rest := Wrap(r[w..], w);
    var hi := CharOffset(b - w, w);
    CharOffsetFirstLine(0, w);
    WrapSlice(r[w..], w, 0, b - w);
    assert rest[..hi] == rest[CharOffset(0, w)..hi];
    assert r[w..][0..b - w] == r[w..b];
  }

  /** Two adjacent slices make the slice that spans both. */
  lemma SliceSplit<T>(r: seq<T>, a: int, m: int, b: int)
    requires 0 <= a <= m <= b <= |r|
    ensures r[a..m] + r[m..b] == r[a..b]
  {
  }

  /** The body of a sequence longer than one line: its first line, then the rest. */
  lemma WrapHead(r: string, w: nat)
    requires w > 0 && w < |r|
    ensures Wrap(r, w) == r[..w] + "\n" + Wrap(r[w..], w)
  {
  }

  /** A window that lies in `rest` reads as that window of `rest`. */
  lemma ReadAfter(body: string, line: string, rest: string, i: int, j: int, text: string,
                  lo: int, hi: int)
    requires body == line + rest && 0 <= i <= j <= |rest| && RemoveSpace(rest[i..j]) == text
    requires lo == |line| + i && hi == |line| + j
    ensures 0 <= lo <= hi <= |body| && RemoveSpace(body[lo..hi]) == text
  {
    RemoveSpaceAfter(line, rest, i, j);
  }

  /** A window that starts in `line` and ends in `rest` reads as the two parts. */
  lemma ReadAcross(body: string, line: string, rest: string, i: int, j: int, x: string, y: string,
                   lo: int, hi: int, text: string)
    requires body == line + rest && 0 <= i <= |line| && 0 <= j <= |rest|
    requires RemoveSpace(line[i..]) == x && RemoveSpace(rest[..j]) == y && x + y == text
    requires lo == i && hi == |line| + j
    ensures 0 <= lo <= hi <= |body| && RemoveSpace(body[lo..hi]) == text
  {
    RemoveSpaceAcross(line, rest, i, j);
  }

  /** A window of the file that lies inside the body is a window of the body. */
  lemma WindowInBody(pre: string, body: string, post: string, i: int, j: int)
    requires |pre| <= i <= j <= |pre| + |body|
    ensures (pre + body + post)[i..j] == body[i - |pre|..j - |pre|]
  {
  }

  /** A window of the file that starts at the last character of `pre`. */
  lemma WindowFromPre(pre: string, body: string, post: string, j: int)
    requires pre != [] && 0 <= j <= |body|
    ensures (pre + body + post)[|pre| - 1..|pre| + j] == [pre[|pre| - 1]] + body[..j]
  {
  }

  /** A window of the body that starts on a line terminator. */
  lemma WindowFromTerminator(body: string, i: int, j: int)
    requires 0 < i <= j <= |body| && body[i - 1] == '\n'
    ensures RemoveSpace(body[i - 1..j]) == RemoveSpace(body[i..j])
  {
    assert body[i - 1..j] == ['\n'] + body[i..j];
    RemoveSpaceAppend(['\n'], body[i..j]);
  }

  /** Where the read of lines 64-67 lands in the file, for a window inside a
      body wrapped at `w`: from the offset of `start`, less one. */
  lemma ExtractReads(pre: string, r: string, post: string, w: nat,
                     faidx: map<string, int>, chrom: string, start: int, end: int)
    requires w > 0 && NoSpace(r) && pre != []
    requires chrom in faidx && faidx[chrom] == |pre|
    requires 0 <= start <= end <= |r|
    ensures var file := pre + Wrap(r, w) + post;
            var s := SeekStart(|pre|, start, w);
            var e := SeekEnd(|pre|, end, w);
            && 0 <= s < e <= |file|
            && Extract(file, faidx, Some(w), chrom, start, end) == Ok(RemoveSpace(file[s..e]))
  {
    var file := pre + Wrap(r, w) + post;
    WrapSlice(r, w, start, end);
    CharOffsetFirstLine(0, w);
    CharOffsetMonotone(0, start, w);
    var s := SeekStart(|pre|, start, w);
    var e := SeekEnd(|pre|, end, w);
    assert ReadAt(file, s, e - s) == file[s..e];
  }

  /** The read of a window whose start does not begin a line. */
  lemma WindowMidLine(pre: string, r: string, post: string, w: nat, start: int, end: int)
    requires w > 0 && NoSpace(r) && 0 < start <= end <= |r| && start % w != 0
    ensures var s := |pre| + CharOffset(start, w) - 1;
            var e := |pre| + CharOffset(end, w);
            && 0 <= s <= e <= |pre| + |Wrap(r, w)|
            && RemoveSpace((pre + Wrap(r, w) + post)[s..e]) == r[start - 1..end]
  {
    CharOffsetPrevious(start, w);
    WrapSlice(r, w, start - 1, end);
    ReadInBody(pre, Wrap(r, w), post, CharOffset(start - 1, w), CharOffset(end, w), r[start - 1..end],
               |pre| + CharOffset(start, w) - 1, |pre| + CharOffset(end, w));
  }

  /** A window of the file inside the body reads as that window of the body. */
  lemma ReadInBody(pre: string, body: string, post: string, lo: int, hi: int, text: string,
                   s: int, e: int)
    requires 0 <= lo <= hi <= |body| && RemoveSpace(body[lo..hi]) == text
    requires s == |pre| + lo && e == |pre| + hi
    ensures 0 <= s <= e <= |pre| + |body| && RemoveSpace((pre + body + post)[s..e]) == text
  {
    WindowInBody(pre, body, post, s, e);
  }

  /** The read of a window from residue 0: it begins on the header's terminator. */
  lemma WindowAtZero(pre: string, r: string, post: string, w: nat, end: int)
    requires w > 0 && NoSpace(r) && pre != [] && pre[|pre| - 1] == '\n' && 0 <= end <= |r|
    ensures var s := |pre| + CharOffset(0, w) - 1;
            var e := |pre| + CharOffset(end, w);
            && 0 <= s <= e <= |pre| + |Wrap(r, w)|
            && RemoveSpace((pre + Wrap(r, w) + post)[s..e]) == r[..end]
  {
    var body := Wrap(r, w);
    CharOffsetFirstLine(0, w);
    WrapSlice(r, w, 0, end);
    var hi := CharOffset(end, w);
    WindowFromPre(pre, body, post, hi);
    RemoveSpaceAppend([pre[|pre| - 1]], body[..hi]);
  }

  /** The read of a window whose start begins a later line: it begins on the
      terminator of the line before. */
  lemma WindowLineStart(pre: string, r: string, post: string, w: nat, start: int, end: int)
    requires w > 0 && NoSpace(r) && 0 < start <= end <= |r| && start % w == 0
    ensures var s := |pre| + CharOffset(start, w) - 1;
            var e := |pre| + CharOffset(end, w);
            && 0 <= s <= e <= |pre| + |Wrap(r, w)|
            && RemoveSpace((pre + Wrap(r, w) + post)[s..e]) == r[start..end]
  {
    WrapTerminator(r, w, start);
    WrapSlice(r, w, start, end);
    ReadFromTerminator(pre, Wrap(r, w), post, CharOffset(start, w), CharOffset(end, w), r[start..end],
                       |pre| + CharOffset(start, w) - 1, |pre| + CharOffset(end, w));
  }

  /** A window of the file that starts on a terminator of the body reads as
      the window of the body after it. */
  lemma ReadFromTerminator(pre: string, body: string, post: string, lo: int, hi: int, text: string,
                           s: int, e: int)
    requires 0 < lo <= hi <= |body| && body[lo - 1] == '\n' && RemoveSpace(body[lo..hi]) == text
    requires s == |pre| + lo - 1 && e == |pre| + hi
    ensures 0 <= s <= e <= |pre| + |body| && RemoveSpace((pre + body + post)[s..e]) == text
  {
    WindowInBody(pre, body, post, s, e);
    WindowFromTerminator(body, lo, hi);
  }

  /** For a sequence wrapped at the width the index found, the script returns
      the residues from `start - 1` (0-based) up to `end`, except when `start`
      falls at the beginning of a line: then the read begins on the previous
      terminator and the residues start at `start`. `pre` is everything up to
      the header's terminator, as the index records it. */
  lemma ExtractWrapped(pre: string, r: string, post: string, w: nat,
                       faidx: map<string, int>, chrom: string, start: int, end: int)
    requires w > 0 && NoSpace(r) && pre != [] && pre[|pre| - 1] == '\n'
    requires chrom in faidx && faidx[chrom] == |pre|
    requires 0 <= start <= end <= |r|
    ensures Extract(pre + Wrap(r, w) + post, faidx, Some(w), chrom, start, end)
            == Ok(r[FirstResidue(start, w)..end])
  {
    ExtractReads(pre, r, post, w, faidx, chrom, start, end);
    if start == 0 {
      DivModUnique(0, w, 0, 0);
      WindowAtZero(pre, r, post, w, end);
      assert r[start..end] == r[..end];
    } else if start % w != 0 {
      WindowMidLine(pre, r, post, w, start, end);
    } else {
      WindowLineStart(pre, r, post, w, start, end);
    }
  }

  /** Asking for the whole sequence, from 0 to its length, gives it back. */
  lemma ExtractWhole(pre: string, r: string, post: string, w: nat,
                     faidx: map<string, int>, chrom: string)
    requires w > 0 && NoSpace(r) && pre != [] && pre[|pre| - 1] == '\n'
    requires chrom in faidx && faidx[chrom] == |pre|
    ensures Extract(pre + Wrap(r, w) + post, faidx, Some(w), chrom, 0, |r|) == Ok(r)
  {
    ExtractWrapped(pre, r, post, w, faidx, chrom, 0, |r|);
    assert r[0..|r|] == r;
  }

  // ---------------------------------------------------------------------------
  // The start offset without the `- 1`
  // ---------------------------------------------------------------------------

  /** Lines 64-67 with `seek_start` at the offset of `start` itself, which reads
      the half-open window `[start, end)` of 0-based residues that a BED line
      describes. The faults are those of `Extract`. */
  function ExtractCorrected(file: string, faidx: map<string, int>, basePerLine: Option<nat>,
                            chrom: string, start: int, end: int): (r: Result<string>)
    ensures chrom !in faidx ==> r == Err(UnknownSequence(chrom))
    ensures chrom in faidx && basePerLine.None? ==> r == Err(LineWidthUnset)
    ensures chrom in faidx && basePerLine == Some(0) ==> r == Err(ZeroLineWidth)
    ensures chrom in faidx && basePerLine.Some? && basePerLine.value > 0 ==>
      var w := basePerLine.value;
      var s := faidx[chrom] + CharOffset(start, w);
      var e := SeekEnd(faidx[chrom], end, w);
      && (s < 0 ==> r == Err(NegativeSeek(s)))
      && (s >= 0 ==> r == Ok(RemoveSpace(ReadAt(file, s, e - s))))
    ensures r.Ok? ==> NoSpace(r.value)
  {
    if chrom !in faidx then Err(UnknownSequence(chrom))
    else if basePerLine.None? then Err(LineWidthUnset)
    else if basePerLine.value == 0 then Err(ZeroLineWidth)
    else
      var w := basePerLine.value;
      var s := faidx[chrom] + CharOffset(start, w);
      var e := SeekEnd(faidx[chrom], end, w);
      if s < 0 then Err(NegativeSeek(s))
      else
        var text := ReadAt(file, s, e - s);
        JoinSplit(text);
        Ok(Join(Split(text)))
  }

  /** Without the `- 1` every window inside a wrapped body reads exactly the
      residues `[start, end)`, wherever the line breaks fall. */
  lemma ExtractCorrectedWrapped(pre: string, r: string, post: string, w: nat,
                                faidx: map<string, int>, chrom: string, start: int, end: int)
    requires w > 0 && NoSpace(r)
    requires chrom in faidx && faidx[chrom] == |pre|
    requires 0 <= start <= end <= |r|
    ensures ExtractCorrected(pre + Wrap(r, w) + post, faidx, Some(w), chrom, start, end)
            == Ok(r[start..end])
  {
    var file := pre + Wrap(r, w) + post;
    var s, e := |pre| + CharOffset(start, w), |pre| + CharOffset(end, w);
    var text := r[start..end];
    assert 0 <= s <= e <= |file| && RemoveSpace(file[s..e]) == text by {
      WindowExact(pre, r, post, w, start, end);
    }
    ExtractCorrectedOfRead(file, faidx, w, chrom, start, end, s, e, text);
  }

  /** When the window lies inside the file, the corrected read is the text
      between its two offsets, whitespace removed. */
  lemma ExtractCorrectedOfRead(file: string, faidx: map<string, int>, w: nat,
                               chrom: string, start: int, end: int, s: int, e: int, text: string)
    requires w > 0 && chrom in faidx
    requires s == faidx[chrom] + CharOffset(start, w) && e == SeekEnd(faidx[chrom], end, w)
    requires 0 <= s <= e <= |file| && RemoveSpace(file[s..e]) == text
    ensures ExtractCorrected(file, faidx, Some(w), chrom, start, end) == Ok(text)
  {
    assert ReadAt(file, s, e - s) == file[s..e];
  }

  /** The read from the offset of `start` to the offset of `end`. */
  lemma WindowExact(pre: string, r: string, post: string, w: nat, start: int, end: int)
    requires w > 0 && NoSpace(r) && 0 <= start <= end <= |r|
    ensures var s := |pre| + CharOffset(start, w);
            var e := |pre| + CharOffset(end, w);
            && |pre| <= s <= e <= |pre| + |Wrap(r, w)|
            && RemoveSpace((pre + Wrap(r, w) + post)[s..e]) == r[start..end]
  {
    WrapSlice(r, w, start, end);
    WindowInBody(pre, Wrap(r, w), post, |pre| + CharOffset(start, w), |pre| + CharOffset(end, w));
  }

  /** Corrected reads of adjacent windows join up to the read of their union. */
  lemma ExtractCorrectedAdditive(pre: string, r: string, post: string, w: nat,
                                 faidx: map<string, int>, chrom: string, a: int, m: int, b: int)
    requires w > 0 && NoSpace(r)
    requires chrom in faidx && faidx[chrom] == |pre|
    requires 0 <= a <= m <= b <= |r|
    ensures var file := pre + Wrap(r, w) + post;
            var left := ExtractCorrected(file, faidx, Some(w), chrom, a, m);
            var right := ExtractCorrected(file, faidx, Some(w), chrom, m, b);
            var whole := ExtractCorrected(file, faidx, Some(w), chrom, a, b);
            && left.Ok? && right.Ok? && whole.Ok?
            && left.value + right.value == whole.value
            && |whole.value| == b - a
  {
    ExtractCorrectedWrapped(pre, r, post, w, faidx, chrom, a, m);
    ExtractCorrectedWrapped(pre, r, post, w, faidx, chrom, m, b);
    ExtractCorrectedWrapped(pre, r, post, w, faidx, chrom, a, b);
    assert r[a..m] + r[m..b] == r[a..b];
  }

  /** As written, the reads of two adjacent windows overlap by one residue
      whenever the shared boundary `m` does not begin a line: together they are
      one residue longer than the read of their union. */
  lemma ExtractOverlaps(pre: string, r: string, post: string, w: nat,
                        faidx: map<string, int>, chrom: string, a: int, m: int, b: int)
    requires w > 0 && NoSpace(r) && pre != [] && pre[|pre| - 1] == '\n'
    requires chrom in faidx && faidx[chrom] == |pre|
    requires 0 <= a <= m <= b <= |r| && m % w != 0
    ensures var file := pre + Wrap(r, w) + post;
            var left := Extract(file, faidx, Some(w), chrom, a, m);
            var right := Extract(file, faidx, Some(w), chrom, m, b);
            var whole := Extract(file, faidx, Some(w), chrom, a, b);
            && left.Ok? && right.Ok? && whole.Ok?
            && |left.value| + |right.value| == |whole.value| + 1
  {
    ExtractWrappedLength(pre, r, post, w, faidx, chrom, a, m);
    ExtractWrappedLength(pre, r, post, w, faidx, chrom, m, b);
    ExtractWrappedLength(pre, r, post, w, faidx, chrom, a, b);
  }

  /** How many residues the script returns for a window inside a wrapped body. */
  lemma ExtractWrappedLength(pre: string, r: string, post: string, w: nat,
                             faidx: map<string, int>, chrom: string, start: int, end: int)
    requires w > 0 && NoSpace(r) && pre != [] && pre[|pre| - 1] == '\n'
    requires chrom in faidx && faidx[chrom] == |pre|
    requires 0 <= start <= end <= |r|
    ensures var x := Extract(pre + Wrap(r, w) + post, faidx, Some(w), chrom, start, end);
            x.Ok? && |x.value| == end - FirstResidue(start, w)
  {
    ExtractWrapped(pre, r, post, w, faidx, chrom, start, end);
  }

  /** The script and the corrected read agree on a window inside a wrapped
      body exactly when its start begins a line (or is 0). */
  lemma ExtractAgreesIffLineStart(pre: string, r: string, post: string, w: nat,
                                  faidx: map<string, int>, chrom: string, start: int, end: int)
    requires w > 0 && NoSpace(r) && pre != [] && pre[|pre| - 1] == '\n'
    requires chrom in faidx && faidx[chrom] == |pre|
    requires 0 <= start <= end <= |r|
    ensures var file := pre + Wrap(r, w) + post;
            Extract(file, faidx, Some(w), chrom, start, end)
              == ExtractCorrected(file, faidx, Some(w), chrom, start, end)
            <==> start % w == 0
  {
    ExtractWrapped(pre, r, post, w, faidx, chrom, start, end);
    ExtractCorrectedWrapped(pre, r, post, w, faidx, chrom, start, end);
    var first := FirstResidue(start, w);
    if first != start {
      assert |r[first..end]| != |r[start..end]|;
    }
  }

  lemma ExampleOffsets()
    ensures SeekStart(3, 2, 4) == 4 && SeekEnd(3, 4, 4) == 8
  {
    assert 2 / 4 == 0 && 2 % 4 == 2 && 4 / 4 == 1 && 4 % 4 == 0;
  }

  /** On the genome `>c`, `ACGT`, `ACGT` (the body at offset 3, four residues
      a line) the window 2 to 4 reads "CGT" as written: three residues for a
      span of two, from 0-based residue 1. */
  lemma ExampleMidLine(file: string)
    requires file == ">c\nACGT\nACGT\n"
    ensures Extract(file, map["c" := 3], Some(4), "c", 2, 4) == Ok("CGT")
  {
    assert ReadAt(file, 4, 4) == "CGT\n";
    assert RemoveSpace("CGT\n") == "CGT";
    ExampleOffsets();
  }

  /** The window 4 to 6 begins a line and reads "AC", two residues. */
  lemma ExampleLineStart(file: string)
    requires file == ">c\nACGT\nACGT\n"
    ensures Extract(file, map["c" := 3], Some(4), "c", 4, 6) == Ok("AC")
  {
    assert SeekStart(3, 4, 4) == 7 && SeekEnd(3, 6, 4) == 10;
    assert ReadAt(file, 7, 3) == "\nAC";
    assert RemoveSpace("\nAC") == "AC";
  }

  /** Without the `- 1` the window 2 to 4 reads "GT". */
  lemma ExampleCorrected(file: string)
    requires file == ">c\nACGT\nACGT\n"
    ensures ExtractCorrected(file, map["c" := 3], Some(4), "c", 2, 4) == Ok("GT")
  {
    assert CharOffset(2, 4) == 2 && SeekEnd(3, 4, 4) == 8;
    assert ReadAt(file, 5, 3) == "GT\n";
    assert RemoveSpace("GT\n") == "GT";
  }

  lemma ExampleWideOffsets(faidx: map<string, int>)
    requires faidx == map["chr1" := 6]
    ensures "chr1" in faidx && SeekStart(faidx["chr1"], 5, 10) == 10 && SeekEnd(faidx["chr1"], 8, 10) == 14
  {
    assert 5 / 10 == 0 && 5 % 10 == 5 && 8 / 10 == 0 && 8 % 10 == 8;
  }

  /** A genome with one sequence of two lines of width 10, its header ending
      at offset 6: the window 5 to 8 reads "ACGT", from residue 4, where a
      0-based, end-exclusive reading would give "CGT". */
  lemma ExampleWideLines(file: string)
    requires file == ">chr1\nACGTACGTAC\nGTACGTACGT\n"
    ensures Extract(file, map["chr1" := 6], Some(10), "chr1", 5, 8) == Ok("ACGT")
  {
    ExampleWideRead(file);
    ExampleWideExtract(file, map["chr1" := 6], 10, 5, 8);
  }

  /** The window 5 to 8 of any text holding "ACGT" at offsets 10 to 14, for a
      sequence whose header ends at offset 6 and whose lines are 10 wide. */
  lemma ExampleWideExtract(file: string, faidx: map<string, int>, w: nat, start: int, end: int)
    requires faidx == map["chr1" := 6] && w == 10 && start == 5 && end == 8
    requires 14 <= |file| && RemoveSpace(file[10..14]) == "ACGT"
    ensures Extract(file, faidx, Some(w), "chr1", start, end) == Ok("ACGT")
  {
    ExampleWideOffsets(faidx);
    ExtractOfRead(file, faidx, w, "chr1", start, end, 10, 14, "ACGT");
  }

  lemma ExampleWideRead(file: string)
    requires file == ">chr1\nACGTACGTAC\nGTACGTACGT\n"
    ensures 14 <= |file| && RemoveSpace(file[10..14]) == "ACGT"
  {
    assert file[10..14] == "ACGT";
    assert RemoveSpace("ACGT") == "ACGT";
  }

  /** `Extract` once the seek positions and the stripped read are known. */
  lemma ExtractOfRead(file: string, faidx: map<string, int>, w: nat,
                      chrom: string, start: int, end: int, s: int, e: int, text: string)
    requires w > 0 && chrom in faidx
    requires s == SeekStart(faidx[chrom], start, w) && e == SeekEnd(faidx[chrom], end, w)
    requires 0 <= s <= e <= |file| && RemoveSpace(file[s..e]) == text
    ensures Extract(file, faidx, Some(w), chrom, start, end) == Ok(text)
  {
    assert ReadAt(file, s, e - s) == file[s..e];
  }

  /** Without the `- 1` the same window reads "CGT", residues 5 to 7. */
  lemma ExampleWideCorrected(file: string)
    requires file == ">chr1\nACGTACGTAC\nGTACGTACGT\n"
    ensures ExtractCorrected(file, map["chr1" := 6], Some(10), "chr1", 5, 8) == Ok("CGT")
  {
    assert file[11..14] == "CGT";
    assert RemoveSpace("CGT") == "CGT";
    ExampleWideCorrectedExtract(file, map["chr1" := 6], 10, 5, 8);
  }

  lemma ExampleWideCorrectedExtract(file: string, faidx: map<string, int>, w: nat, start: int, end: int)
    requires faidx == map["chr1" := 6] && w == 10 && start == 5 && end == 8
    requires 14 <= |file| && RemoveSpace(file[11..14]) == "CGT"
    ensures ExtractCorrected(file, faidx, Some(w), "chr1", start, end) == Ok("CGT")
  {
    ExampleWideOffsets(faidx);
    assert CharOffset(start, w) == 5 by { CharOffsetFirstLine(5, 10); }
    ExtractCorrectedOfRead(file, faidx, w, "chr1", start, end, 11, 14, "CGT");
  }
}

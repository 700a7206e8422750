/** The genome indexer of primer_design.py (lines 27-46): one pass over the
    FASTA file with readline(), keeping a running character offset, recording
    for every header line the offset just past that line, and taking the line
    width from physical line 2. The file is its sequence of characters. */
module FastaIndex {
  import opened Common
  import opened Strings

  // ---------------------------------------------------------------------------
  // Lines as readline() returns them
  // ---------------------------------------------------------------------------

  /** Length of the line at the start of `s`, its '\n' terminator included. */
  function LineLength(s: string): (k: nat)
    ensures k <= |s|
    ensures s != [] ==> k > 0
  {
    if s == [] then 0 else if s[0] == '\n' then 1 else 1 + LineLength(s[1..])
  }

  /** The first line stops at the first '\n', or at the end of `s`. */
  lemma {:induction false} LineLengthShape(s: string)
    ensures forall i :: 0 <= i < LineLength(s) - 1 ==> s[i] != '\n'
    ensures 0 < LineLength(s) ==> LineLength(s) == |s| || s[LineLength(s) - 1] == '\n'
  {
    if s != [] && s[0] != '\n' {
      LineLengthShape(s[1..]);
    }
  }

  /** `f.readline()` with the cursor at `pos`: the text up to and including the
      next '\n', or up to the end of the file; empty exactly at the end. */
  function ReadLine(file: string, pos: nat): (line: string)
    requires pos <= |file|
    ensures pos + |line| <= |file| && line == file[pos..pos + |line|]
    ensures line == [] <==> pos == |file|
    ensures forall i :: 0 <= i < |line| - 1 ==> line[i] != '\n'
    ensures line != [] ==> pos + |line| == |file| || line[|line| - 1] == '\n'
  {
    LineLengthShape(file[pos..]);
    file[pos..pos + LineLength(file[pos..])]
  }

  /** The lines of `s`, in the order successive readline() calls return them. */
  function Lines(s: string): seq<string>
    decreases |s|
  {
    if s == [] then [] else var k := LineLength(s); [s[..k]] + Lines(s[k..])
  }

  /** What readline() can return: one nonempty line whose only '\n' is its last
      character. */
  predicate IsLine(line: string) {
    line != [] && forall i :: 0 <= i < |line| - 1 ==> line[i] != '\n'
  }

  predicate EndsWithNewline(line: string) {
    line != [] && line[|line| - 1] == '\n'
  }

  predicate NonEmptyLines(lines: seq<string>) {
    forall j :: 0 <= j < |lines| ==> lines[j] != []
  }

  /** The lines written one after the other (what the running offset counts). */
  function Flatten(lines: seq<string>): string {
    if lines == [] then [] else Flatten(lines[..|lines| - 1]) + lines[|lines| - 1]
  }

  lemma FlattenSnoc(lines: seq<string>, line: string)
    ensures Flatten(lines + [line]) == Flatten(lines) + line
  {
    assert (lines + [line])[..|lines|] == lines;
  }

  lemma {:induction false} FlattenAppend(a: seq<string>, b: seq<string>)
    ensures Flatten(a + b) == Flatten(a) + Flatten(b)
    decreases |b|
  {
    if b == [] {
      assert a + b == a;
    } else {
      var b' := b[..|b| - 1];
      var x := b[|b| - 1];
      assert a + b == (a + b') + [x];
      assert b == b' + [x];
      FlattenSnoc(a + b', x);
      FlattenSnoc(b', x);
      FlattenAppend(a, b');
    }
  }

  /** Every line of a file is a line in the sense of `IsLine`, and every line
      but the last ends with '\n'. */
  lemma {:induction false} LinesShape(s: string)
    ensures forall j :: 0 <= j < |Lines(s)| ==>
      IsLine(Lines(s)[j]) && (j < |Lines(s)| - 1 ==> EndsWithNewline(Lines(s)[j]))
    decreases |s|
  {
    if s != [] {
      var k := LineLength(s);
      LineLengthShape(s);
      LinesShape(s[k..]);
      var rest := Lines(s[k..]);
      var ls := Lines(s);
      assert ls == [s[..k]] + rest;
      forall j | 0 <= j < |ls|
        ensures IsLine(ls[j]) && (j < |ls| - 1 ==> EndsWithNewline(ls[j]))
      {
        if j > 0 {
          assert ls[j] == rest[j - 1];
        } else {
          assert ls[0] == s[..k];
          if j < |ls| - 1 {
            assert s[k..] != [];
          }
        }
      }
    }
  }

  /** The lines of a file make up the file: no character is lost or added. */
  lemma {:induction false} FlattenLines(s: string)
    ensures Flatten(Lines(s)) == s
    decreases |s|
  {
    if s != [] {
      var k := LineLength(s);
      FlattenLines(s[k..]);
      FlattenAppend([s[..k]], Lines(s[k..]));
      assert Flatten([s[..k]]) == s[..k] by {
        assert [s[..k]][..0] == [];
      }
      assert s == s[..k] + s[k..];
    }
  }

  /** Reading one line at `pos` consumes the first of the remaining lines. */
  lemma LinesStep(file: string, pos: nat, line: string, pos': nat)
    requires pos < |file| && line == ReadLine(file, pos) && pos' == pos + |line|
    ensures Lines(file[pos..]) == [line] + Lines(file[pos'..])
  {
    var rest := file[pos..];
    var k := LineLength(rest);
    assert ReadLine(file, pos) == file[pos..pos + k] == rest[..k];
    assert rest[k..] == file[pos + k..];
    assert Lines(rest) == [rest[..k]] + Lines(rest[k..]);
  }

  // ---------------------------------------------------------------------------
  // Headers, the index and the line width
  // ---------------------------------------------------------------------------

  /** `line.startswith(">")`. */
  predicate IsHeader(line: string) {
    StartsWith(line, ">")
  }

  /** `line.split()[0].strip(">")`: the first whitespace-separated token of a
      header with every '>' removed from both of its ends. */
  function HeaderName(line: string): (name: string)
    requires IsHeader(line)
    ensures NoSpace(name)
    ensures name == [] || (name[0] != '>' && name[|name| - 1] != '>')
  {
    assert line[0] == '>' && !IsSpace(line[0]);
    var tokens := Split(line);
    assert tokens != [];
    Strip(tokens[0], '>')
  }

  /** The name is the first token of the header with the '>' runs at both of
      its ends removed. */
  lemma HeaderNameIsFirstToken(line: string)
    requires IsHeader(line)
    ensures HeaderName(line) == Strip(TakeToken(line), '>')
  {
    assert line[0] == '>' && !IsSpace(line[0]);
  }

  /** `">>a>"` is filed under `a`: '>' is stripped from both ends. */
  lemma HeaderNameStripsBothEnds(line: string)
    requires line == ">>a>\n"
    ensures HeaderName(line) == "a"
  {
    HeaderNameIsFirstToken(line);
    FirstTokenOfMarkedLine(line);
    StripMarkers(">>a>");
  }

  /** The first token of `">>a>\n"`. */
  lemma FirstTokenOfMarkedLine(line: string)
    requires line == ">>a>\n"
    ensures TakeToken(line) == ">>a>"
  {
    assert IsSpace(line[4]);
    assert TakeToken(line[4..]) == [];
    assert TakeToken(line[3..]) == ">" by { assert line[3..][1..] == line[4..]; }
    assert TakeToken(line[2..]) == "a>" by { assert line[2..][1..] == line[3..]; }
    assert TakeToken(line[1..]) == ">a>" by { assert line[1..][1..] == line[2..]; }
  }

  /** `">>a>".strip(">")`. */
  lemma StripMarkers(tok: string)
    requires tok == ">>a>"
    ensures Strip(tok, '>') == "a"
  {
    assert LStrip(tok[2..], '>') == "a>";
    assert LStrip(tok[1..], '>') == "a>" by { assert tok[1..][1..] == tok[2..]; }
    var l := "a>";
    assert RStrip(l[..1], '>') == "a";
  }

  /** `"> x"` is filed under the empty name: its first token is '>' alone. */
  lemma HeaderNameOfLoneMarker(line: string)
    requires line == "> x\n"
    ensures HeaderName(line) == ""
  {
    HeaderNameIsFirstToken(line);
    assert IsSpace(line[1]);
    assert TakeToken(line[1..]) == [];
    assert TakeToken(line) == ">";
    assert LStrip(">", '>') == "";
  }

  /** The name recorded for header line `j` is `name`. */
  predicate NamesHeader(lines: seq<string>, j: int, name: string) {
    0 <= j < |lines| && IsHeader(lines[j]) && HeaderName(lines[j]) == name
  }

  /** The value of `seek_value` once line `j` has been read: the characters of
      lines 0 to `j`, terminators included. */
  function OffsetAfter(lines: seq<string>, j: nat): nat
    requires j < |lines|
  {
    |Flatten(lines[..j + 1])|
  }

  /** The dictionary `faidx` after reading `lines`: each header line stores the
      running offset under its name, a later header overwriting an earlier one. */
  function Index(lines: seq<string>): map<string, int> {
    if lines == [] then map[]
    else
      var m := Index(lines[..|lines| - 1]);
      var last := lines[|lines| - 1];
      if IsHeader(last) then m[HeaderName(last) := |Flatten(lines)|] else m
  }

  /** `base_per_line`: one less than the length of physical line 2; unset when
      the file has fewer than two lines. */
  function LineWidth(lines: seq<string>): Option<nat>
    requires NonEmptyLines(lines)
  {
    if |lines| >= 2 then Some(|lines[1]| - 1) else None
  }

  /** The number of header lines. */
  function HeaderCount(lines: seq<string>): nat {
    if lines == [] then 0
    else HeaderCount(lines[..|lines| - 1]) + if IsHeader(lines[|lines| - 1]) then 1 else 0
  }

  /** Every header line's name is a key of the index. */
  lemma {:induction false} IndexHasHeader(lines: seq<string>, j: nat)
    requires j < |lines| && IsHeader(lines[j])
    ensures HeaderName(lines[j]) in Index(lines)
  {
    var init := lines[..|lines| - 1];
    if j < |init| {
      assert init[j] == lines[j];
      IndexHasHeader(init, j);
    }
  }

  /** Every key of the index is the name of some header line. */
  lemma {:induction false} IndexKeyHasHeader(lines: seq<string>, name: string) returns (j: nat)
    requires name in Index(lines)
    ensures NamesHeader(lines, j, name)
  {
    var init := lines[..|lines| - 1];
    var last := lines[|lines| - 1];
    if IsHeader(last) && HeaderName(last) == name {
      j := |lines| - 1;
    } else {
      j := IndexKeyHasHeader(init, name);
      assert init[j] == lines[j];
    }
  }

  /** A name is a key of the index exactly when some header line carries it. */
  lemma IndexKeys(lines: seq<string>, name: string)
    ensures name in Index(lines) <==> exists j :: NamesHeader(lines, j, name)
  {
    if name in Index(lines) {
      var j := IndexKeyHasHeader(lines, name);
    }
    if exists j :: NamesHeader(lines, j, name) {
      var j :| NamesHeader(lines, j, name);
      IndexHasHeader(lines, j);
    }
  }

  /** The offset stored under a name is the one of the LAST header line that
      carries the name: the offset just past that line. */
  lemma {:induction false} IndexValue(lines: seq<string>, name: string, j: nat)
    requires NamesHeader(lines, j, name)
    requires forall j' :: j < j' < |lines| ==> !NamesHeader(lines, j', name)
    ensures name in Index(lines) && Index(lines)[name] == OffsetAfter(lines, j)
  {
    var init := lines[..|lines| - 1];
    if j == |lines| - 1 {
      assert lines[..j + 1] == lines;
    } else {
      assert init[..j + 1] == lines[..j + 1];
      assert !NamesHeader(lines, |lines| - 1, name);
      forall j' | j < j' < |init|
        ensures !NamesHeader(init, j', name)
      {
        assert !NamesHeader(lines, j', name);
      }
      IndexValue(init, name, j);
    }
  }

  lemma {:induction false} OffsetGrows(lines: seq<string>, i: nat, j: nat)
    requires NonEmptyLines(lines)
    requires i <= j < |lines|
    ensures OffsetAfter(lines, j) >= OffsetAfter(lines, i) + (j - i)
    decreases j
  {
    if i < j {
      OffsetGrows(lines, i, j - 1);
      assert lines[..j + 1][..j] == lines[..j];
      assert lines[..j + 1][j] == lines[j];
    }
  }

  /** The offsets the loop stores strictly increase in file order. */
  lemma OffsetsIncrease(lines: seq<string>, i: nat, j: nat)
    requires NonEmptyLines(lines)
    requires i < j < |lines|
    ensures OffsetAfter(lines, i) < OffsetAfter(lines, j)
  {
    OffsetGrows(lines, i, j);
  }

  /** Overwriting makes the index hold at most one key per header line. */
  lemma {:induction false} IndexSize(lines: seq<string>)
    ensures |Index(lines)| <= HeaderCount(lines)
  {
    if lines != [] {
      var init := lines[..|lines| - 1];
      IndexSize(init);
      var last := lines[|lines| - 1];
      if IsHeader(last) {
        var m := Index(init);
        assert m[HeaderName(last) := |Flatten(lines)|].Keys == m.Keys + {HeaderName(last)};
      }
    }
  }

  /** In a real file the stored offset is a position in the file: the header
      line sits right before it and ends there, with its '\n' or with the
      file. */
  lemma HeaderOffsetInFile(file: string, j: nat)
    requires j < |Lines(file)| && IsHeader(Lines(file)[j])
    ensures var lines := Lines(file);
            var o := OffsetAfter(lines, j);
            && |lines[j]| <= o <= |file|
            && file[o - |lines[j]|..o] == lines[j]
            && (o == |file| || file[o - 1] == '\n')
  {
    var lines := Lines(file);
    var o := OffsetAfter(lines, j);
    FlattenLines(file);
    LinesShape(file);
    FlattenPrefix(lines, j, file, o);
    LineBeforeOffset(file, Flatten(lines[..j]), lines[j], o);
    if j == |lines| - 1 {
      assert lines[..j + 1] == lines;
    } else {
      assert EndsWithNewline(lines[j]);
    }
  }

  /** The text of the first `j + 1` lines is a prefix of the file. */
  lemma FlattenPrefix(lines: seq<string>, j: nat, file: string, o: nat)
    requires j < |lines| && Flatten(lines) == file && o == OffsetAfter(lines, j)
    ensures o <= |file| && file[..o] == Flatten(lines[..j]) + lines[j]
  {
    FlattenSplit(lines, j + 1);
    FlattenTake(lines, j);
    PrefixOfAppend(file, Flatten(lines[..j + 1]), Flatten(lines[j + 1..]), o,
                   Flatten(lines[..j]) + lines[j]);
  }

  /** The text of the lines is that of the first `k`, then that of the rest. */
  lemma FlattenSplit(lines: seq<string>, k: nat)
    requires k <= |lines|
    ensures Flatten(lines) == Flatten(lines[..k]) + Flatten(lines[k..])
  {
    assert lines == lines[..k] + lines[k..];
    FlattenAppend(lines[..k], lines[k..]);
  }

  /** The first `|head|` characters of `head + tail`. */
  lemma PrefixOfAppend(file: string, head: string, tail: string, o: nat, text: string)
    requires file == head + tail && o == |head| && head == text
    ensures o <= |file| && file[..o] == text
  {
  }

  /** The text of the first `j + 1` lines: that of the first `j`, then line `j`. */
  lemma FlattenTake(lines: seq<string>, j: nat)
    requires j < |lines|
    ensures Flatten(lines[..j + 1]) == Flatten(lines[..j]) + lines[j]
  {
    assert lines[..j + 1][..j] == lines[..j];
  }

  /** A line that ends a prefix of the file sits right before the prefix's end. */
  lemma LineBeforeOffset(file: string, before: string, line: string, o: nat)
    requires o <= |file| && file[..o] == before + line
    ensures |line| <= o && file[o - |line|..o] == line
    ensures line != [] ==> file[o - 1] == line[|line| - 1]
  {
    assert file[o - |line|..o] == file[..o][|before|..];
  }

  // ---------------------------------------------------------------------------
  // The indexing loop
  // ---------------------------------------------------------------------------

  lemma IndexSnoc(lines: seq<string>, line: string)
    ensures Index(lines + [line]) ==
      if IsHeader(line) then Index(lines)[HeaderName(line) := |Flatten(lines + [line])|]
      else Index(lines)
  {
    var ls := lines + [line];
    assert ls[..|ls| - 1] == lines;
  }

  lemma LineWidthSnoc(lines: seq<string>, line: string)
    requires NonEmptyLines(lines) && line != []
    ensures NonEmptyLines(lines + [line])
    ensures LineWidth(lines + [line]) ==
      if |lines| == 1 then Some(|line| - 1) else if |lines| == 0 then None else LineWidth(lines)
  {
    var ls := lines + [line];
    NonEmptySnoc(lines, line);
    if |lines| >= 2 {
      assert ls[1] == lines[1];
    }
  }

  /** The lines still to read lose their first one to the lines read. */
  lemma RemainingLinesStep(file: string, pos: nat, read: seq<string>, line: string,
                            pos': nat, read': seq<string>)
    requires pos <= |file| && read + Lines(file[pos..]) == Lines(file)
    requires line == ReadLine(file, pos) && line != []
    requires pos' == pos + |line| && read' == read + [line]
    ensures pos' <= |file| && read' + Lines(file[pos'..]) == Lines(file)
  {
    LinesStep(file, pos, line, pos');
    MoveFirst(read, line, Lines(file[pos'..]), Lines(file[pos..]), Lines(file), read');
  }

  lemma MoveFirst<T>(done: seq<T>, x: T, later: seq<T>, rest: seq<T>, all: seq<T>, done': seq<T>)
    requires done + rest == all && rest == [x] + later && done' == done + [x]
    ensures done' + later == all
  {
    assert (done + [x]) + later == done + ([x] + later);
  }

  lemma NonEmptySnoc(lines: seq<string>, line: string)
    requires NonEmptyLines(lines) && line != []
    ensures NonEmptyLines(lines + [line])
  {
    var ls := lines + [line];
    forall j | 0 <= j < |ls| ensures ls[j] != [] {
      if j < |lines| {
        assert ls[j] == lines[j];
      }
    }
  }

  /** When `readline` returns the empty string, every line has been read. */
  lemma ReadDone(file: string, pos: nat, read: seq<string>)
    requires pos <= |file| && read + Lines(file[pos..]) == Lines(file)
    requires ReadLine(file, pos) == []
    ensures read == Lines(file) && pos == |file|
  {
    assert file[pos..] == [];
    assert read + [] == read;
  }

  /** The `while True` loop of lines 33-44, on the file opened at its start.
      `pos` is the file's cursor; `seekValue` is `seek_value`, `count` is
      `count`, `faidx` and `basePerLine` are the script's variables of those
      names (`None` while `base_per_line` is unassigned). */
  method BuildIndex(file: string)
    returns (faidx: map<string, int>, basePerLine: Option<nat>, count: nat, seekValue: nat)
    ensures count == |Lines(file)| && seekValue == |file|
    ensures NonEmptyLines(Lines(file))
    ensures faidx == Index(Lines(file))
    ensures basePerLine == LineWidth(Lines(file))
  {
    faidx, basePerLine, count, seekValue := map[], None, 0, 0;
    var pos := 0;
    ghost var read: seq<string> := [];
    while true
      invariant pos <= |file| && read + Lines(file[pos..]) == Lines(file)
      invariant NonEmptyLines(read) && |Flatten(read)| == pos
      invariant seekValue == pos && count == |read|
      invariant faidx == Index(read)
      invariant basePerLine == LineWidth(read)
      decreases |file| - pos
    {
      var line := ReadLine(file, pos);
      if line == [] {
        ReadDone(file, pos, read);
        break;
      }
      IndexSnoc(read, line);
      LineWidthSnoc(read, line);
      ghost var pos0, read0 := pos, read;
      FlattenSnoc(read, line);
      NonEmptySnoc(read, line);
      pos := pos + |line|;
      count := count + 1;
      if count == 2 {
        basePerLine := Some(|line| - 1);
      }
      seekValue := seekValue + |line|;
      if IsHeader(line) {
        var chrName := HeaderName(line);
        faidx := faidx[chrName := seekValue];
      }
      read := read + [line];
      RemainingLinesStep(file, pos0, read0, line, pos, read);
    }
  }
}

/** The per-locus arguments of primer_design.py: a BED line split into its
    fields and widened by the flank and the primer range (lines 55-61), and
    the sequence arguments handed to primer3 (lines 71-76, 101). */
module PrimerArgs {
  import opened Common
  import opened Strings

  /** A locus after lines 55-61: `start` and `end` already widened. */
  datatype Locus = Locus(chrom: string, start: int, end: int, name: string,
                         productMin: int, productMax: int)

  /** The fields that line 57-61 pass through `int()`. */
  predicate IsNumericField(i: nat) {
    i == 1 || i == 2 || i == 4 || i == 5
  }

  /** Field `i` is present and, where the script converts it, a valid integer. */
  predicate FieldOk(fields: seq<string>, i: nat) {
    i < |fields| && (IsNumericField(i) ==> ParseInt(fields[i]).Some?)
  }

  /** `locus_info[i]`. */
  function Field(fields: seq<string>, i: nat): Result<string> {
    if i < |fields| then Ok(fields[i]) else Err(MissingField(i))
  }

  /** `int(locus_info[i])`. */
  function IntField(fields: seq<string>, i: nat): Result<int> {
    if i >= |fields| then Err(MissingField(i))
    else match ParseInt(fields[i])
      case None => Err(NotAnInteger(i))
      case Some(n) => Ok(n)
  }

  /** The first of the six fields from `i` on that is missing or not an
      integer where one is needed; 6 when there is none. */
  function FirstBadField(fields: seq<string>, i: nat): (k: nat)
    requires i <= 6
    ensures i <= k <= 6
    ensures forall j: nat :: i <= j < k ==> FieldOk(fields, j)
    ensures k < 6 ==> !FieldOk(fields, k)
    decreases 6 - i
  {
    if i == 6 || !FieldOk(fields, i) then i else FirstBadField(fields, i + 1)
  }

  /** The six fields read in the order the script reads them, from `i` on. */
  function ParseFields(fields: seq<string>, flank: int, primerRange: int): (r: Result<Locus>)
    ensures var k := FirstBadField(fields, 0);
            && (r.Ok? <==> k == 6)
            && (r.Err? ==> r.error == (if k >= |fields| then MissingField(k) else NotAnInteger(k)))
  {
    var chrome :- Field(fields, 0);
    var locusStart :- IntField(fields, 1);
    var locusEnd :- IntField(fields, 2);
    var name :- Field(fields, 3);
    var productMin :- IntField(fields, 4);
    var productMax :- IntField(fields, 5);
    Ok(Locus(chrome, locusStart - flank - primerRange, locusEnd + flank + primerRange,
             name, productMin, productMax))
  }

  /** Lines 55-61 for one line of the BED file: `locus.strip().split()`, then
      the six fields in the order the script reads them, so that the fault is
      the one at the first field that is missing or not an integer. The window
      is the locus widened by `flank + primer_range` on each side. */
  function ParseLocus(line: string, flank: int, primerRange: int): (r: Result<Locus>)
    ensures var fields := Split(line);
            var k := FirstBadField(fields, 0);
            && (r.Ok? <==> k == 6)
            && (r.Err? ==> r.error == (if k >= |fields| then MissingField(k) else NotAnInteger(k)))
    ensures var fields := Split(line);
            r.Ok? ==>
              && |fields| >= 6
              && r.value.chrom == fields[0] && r.value.name == fields[3]
              && r.value.start + flank + primerRange == ParseInt(fields[1]).value
              && r.value.end - flank - primerRange == ParseInt(fields[2]).value
              && r.value.end - r.value.start
                 == (ParseInt(fields[2]).value - ParseInt(fields[1]).value) + 2 * (flank + primerRange)
              && r.value.productMin == ParseInt(fields[4]).value
              && r.value.productMax == ParseInt(fields[5]).value
  {
    ParseFields(Split(StripSpace(line)), flank, primerRange)
  }

  /** `str(i)` is a single token. */
  lemma IntToStringIsToken(i: int)
    ensures IntToString(i) != [] && NoSpace(IntToString(i))
  {
    var digits := NatToString(if i < 0 then -i else i);
    assert forall k :: 0 <= k < |digits| ==> !IsSpace(digits[k]) by {
      forall k | 0 <= k < |digits| ensures !IsSpace(digits[k]) {
        assert IsDigit(digits[k]);
      }
    }
  }

  /** The six fields a BED line of this script carries, in order. */
  function Record(chrom: string, start: int, end: int, name: string,
                  productMin: int, productMax: int): seq<string> {
    [chrom, IntToString(start), IntToString(end), name, IntToString(productMin), IntToString(productMax)]
  }

  /** The fields of a record, followed by further tokens, are tokens. */
  lemma RecordIsTokens(chrom: string, start: int, end: int, name: string,
                       productMin: int, productMax: int, extra: seq<string>)
    requires chrom != [] && NoSpace(chrom) && name != [] && NoSpace(name)
    requires IsTokenList(extra)
    ensures IsTokenList(Record(chrom, start, end, name, productMin, productMax) + extra)
  {
    var fields := Record(chrom, start, end, name, productMin, productMax) + extra;
    IntToStringIsToken(start);
    IntToStringIsToken(end);
    IntToStringIsToken(productMin);
    IntToStringIsToken(productMax);
    forall i | 0 <= i < |fields| ensures fields[i] != [] && NoSpace(fields[i]) {
      if i >= 6 {
        assert fields[i] == extra[i - 6];
      }
    }
  }

  /** A line of tab-separated tokens, as `readlines` returns it, splits back
      into those tokens. */
  lemma SplitOfLine(fields: seq<string>)
    requires IsTokenList(fields)
    ensures Split(Unsplit(fields) + "\n") == fields
  {
    SplitUnsplit(fields);
    SplitSnocSpace(Unsplit(fields), '\n');
  }

  /** A line whose fields are all well formed parses to the widened locus. */
  lemma ParseLocusOfFields(line: string, fields: seq<string>, flank: int, primerRange: int,
                           start: int, end: int, productMin: int, productMax: int)
    requires Split(line) == fields && |fields| >= 6
    requires ParseInt(fields[1]) == Some(start) && ParseInt(fields[2]) == Some(end)
    requires ParseInt(fields[4]) == Some(productMin) && ParseInt(fields[5]) == Some(productMax)
    ensures ParseLocus(line, flank, primerRange)
            == Ok(Locus(fields[0], start - flank - primerRange, end + flank + primerRange,
                        fields[3], productMin, productMax))
  {
    assert FirstBadField(fields, 0) == 6;
    var v := ParseLocus(line, flank, primerRange).value;
    assert v.start == start - flank - primerRange && v.end == end + flank + primerRange;
    assert v.productMin == productMin && v.productMax == productMax;
    assert v == Locus(fields[0], start - flank - primerRange, end + flank + primerRange,
                      fields[3], productMin, productMax);
  }

  /** The numeric fields of a record read back as the numbers written. */
  lemma RecordFieldsParse(chrom: string, start: int, end: int, name: string,
                          productMin: int, productMax: int, extra: seq<string>)
    ensures var fields := Record(chrom, start, end, name, productMin, productMax) + extra;
            && |fields| >= 6 && fields[0] == chrom && fields[3] == name
            && ParseInt(fields[1]) == Some(start) && ParseInt(fields[2]) == Some(end)
            && ParseInt(fields[4]) == Some(productMin) && ParseInt(fields[5]) == Some(productMax)
  {
    var fields := Record(chrom, start, end, name, productMin, productMax) + extra;
    assert fields[..6] == Record(chrom, start, end, name, productMin, productMax);
    assert fields[1] == IntToString(start) && fields[2] == IntToString(end);
    assert fields[4] == IntToString(productMin) && fields[5] == IntToString(productMax);
    ParseIntOfIntToString(start);
    ParseIntOfIntToString(end);
    ParseIntOfIntToString(productMin);
    ParseIntOfIntToString(productMax);
  }

  /** A record written out tab-separated (with any further fields and the line
      terminator) parses back to the widened locus. */
  lemma ParseLocusOfRecord(chrom: string, start: int, end: int, name: string,
                           productMin: int, productMax: int, extra: seq<string>,
                           flank: int, primerRange: int)
    requires chrom != [] && NoSpace(chrom) && name != [] && NoSpace(name)
    requires IsTokenList(extra)
    ensures var fields := Record(chrom, start, end, name, productMin, productMax) + extra;
            ParseLocus(Unsplit(fields) + "\n", flank, primerRange)
              == Ok(Locus(chrom, start - flank - primerRange, end + flank + primerRange,
                          name, productMin, productMax))
  {
    var fields := Record(chrom, start, end, name, productMin, productMax) + extra;
    RecordIsTokens(chrom, start, end, name, productMin, productMax, extra);
    SplitOfLine(fields);
    RecordFieldsParse(chrom, start, end, name, productMin, productMax, extra);
    ParseLocusOfFields(Unsplit(fields) + "\n", fields, flank, primerRange,
                       start, end, productMin, productMax);
  }

  // ---------------------------------------------------------------------------
  // The sequence arguments
  // ---------------------------------------------------------------------------

  /** A region as primer3 reads it: a start and a length. */
  datatype Region = Region(start: int, length: int) {
    function End(): int {
      start + length
    }
  }

  /** The `seq_args` dictionary of lines 71-76. */
  datatype SeqArgs = SeqArgs(id: string, template: string, included: Region,
                             okLeft: Region, okRight: Region)

  /** What the script passes to primer3 for one locus: the sequence arguments
      and the one product size range of line 101. */
  datatype Request = Request(seqArgs: SeqArgs, productRanges: seq<(int, int)>)

  /** Lines 71-76. The included region starts at 0 and stops one short of the
      end of the template; the left OK region is the `primer_range` residues
      from 1, the right one the last `primer_range` residues. */
  function SequenceArgs(name: string, template: string, primerRange: int): (a: SeqArgs)
    ensures a.id == name && a.template == template
    ensures a.included.start == 0 && a.included.End() == |template| - 1
    ensures a.okLeft.start == 1 && a.okLeft.length == primerRange
    ensures a.okRight.length == primerRange && a.okRight.End() == |template|
  {
    SeqArgs(name, template, Region(0, |template| - 1),
            Region(1, primerRange), Region(|template| - primerRange, primerRange))
  }

  /** A region lies within a template of length `n`. */
  predicate Within(g: Region, n: int) {
    0 <= g.start && 0 <= g.length && g.End() <= n
  }

  /** The two OK regions lie inside the template, the left before the right,
      exactly when the template has room for both primer ranges after its
      first residue. */
  lemma OkRegionsFit(name: string, template: string, primerRange: int)
    requires primerRange >= 0
    ensures var a := SequenceArgs(name, template, primerRange);
            (Within(a.okLeft, |template|) && Within(a.okRight, |template|)
             && a.okLeft.End() <= a.okRight.start)
            <==> 2 * primerRange + 1 <= |template|
  {
  }

  /** The request for a parsed locus and the template read for it. */
  function LocusRequest(locus: Locus, template: string, primerRange: int): (q: Request)
    ensures q.seqArgs == SequenceArgs(locus.name, template, primerRange)
    ensures |q.productRanges| == 1
    ensures q.productRanges[0].0 == locus.productMin && q.productRanges[0].1 == locus.productMax
  {
    Request(SequenceArgs(locus.name, template, primerRange), [(locus.productMin, locus.productMax)])
  }
}

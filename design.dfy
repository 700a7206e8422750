/** The per-locus loop of primer_design.py (lines 53-122) and the whole run:
    index the genome, then for every BED line parse it, read its window,
    build the primer3 request, group the answer into a table and write that
    table out. primer3 itself is a function the caller supplies. */
module Design {
  import opened Common
  import opened Strings
  import opened FastaIndex
  import opened Extraction
  import opened PrimerArgs
  import opened ResultTable

  /** What primer3 returns for a request: the result dictionary as
      (key, value) pairs in iteration order, and the number it stores under
      `PRIMER_PAIR_NUM_RETURNED`. */
  datatype Answer<V> = Answer(pairs: seq<(string, V)>, numReturned: int)

  /** The table written out for one locus (lines 120-121): the name of the
      file's locus, the tag-to-values table and the column names. */
  datatype Output<V> = Output(name: string, table: map<string, seq<V>>, index: seq<string>)

  /** What the loop over the loci reads but never changes: the genome text,
      its index and line width, and the two integer options. */
  datatype Setting = Setting(genome: string, faidx: map<string, int>, basePerLine: Option<nat>,
                             flank: int, primerRange: int)

  /** Lines 55-101 for one BED line: the request handed to primer3, or the
      fault that stops the script. */
  function Prepare(s: Setting, line: string): (r: Result<Request>)
    ensures ParseLocus(line, s.flank, s.primerRange).Err? ==>
              r == Err(ParseLocus(line, s.flank, s.primerRange).error)
    ensures ParseLocus(line, s.flank, s.primerRange).Ok? ==>
              var locus := ParseLocus(line, s.flank, s.primerRange).value;
              var read := Extract(s.genome, s.faidx, s.basePerLine, locus.chrom, locus.start, locus.end);
              && (read.Err? ==> r == Err(read.error))
              && (read.Ok? ==> r == Ok(LocusRequest(locus, read.value, s.primerRange)))
  {
    var locus :- ParseLocus(line, s.flank, s.primerRange);
    var template :- Extract(s.genome, s.faidx, s.basePerLine, locus.chrom, locus.start, locus.end);
    Ok(LocusRequest(locus, template, s.primerRange))
  }

  /** The table and index that `GroupResults` builds. */
  function Grouped<V>(answer: Answer<V>): (map<string, seq<V>>, seq<string>) {
    var n := if answer.numReturned < 0 then 0 else answer.numReturned;
    (Collect(Appends(answer.pairs, n)), PairNames(n))
  }

  /** Lines 55-101 as a stage of the loop: what becomes of each BED line. The
      loop and its lemmas below are stated for any such stage; the script's
      own is `Preparer(s)`. */
  type Stage = string -> Result<Request>

  function Preparer(s: Setting): Stage {
    line => Prepare(s, line)
  }

  /** The script's state between two loci: the tables written so far, the
      table variables (`None` until first assigned) and the fault, if any,
      that stopped the script. */
  datatype Progress<V> = Progress(outputs: seq<Output<V>>,
                                  current: Option<(map<string, seq<V>>, seq<string>)>,
                                  fault: Option<Fault>)

  /** One iteration of the `for locus in loci` loop. When primer3 returns no
      pair the table of the previous locus is written again under this
      locus's name; on the first locus there is none and line 120 fails. */
  function Step<V>(prepare: Stage, oracle: Request -> Answer<V>, p: Progress<V>, line: string): Progress<V> {
    if p.fault.Some? then p
    else match prepare(line)
      case Err(f) => p.(fault := Some(f))
      case Ok(request) =>
        var answer := oracle(request);
        var current := if answer.numReturned != 0 then Some(Grouped(answer)) else p.current;
        if current.None? then p.(fault := Some(TableUnset))
        else
          var out := Output(request.seqArgs.id, current.value.0, current.value.1);
          Progress(p.outputs + [out], current, None)
  }

  /** The loop over the lines of the BED file, one `Step` per line. */
  function Run<V>(prepare: Stage, oracle: Request -> Answer<V>, loci: seq<string>): Progress<V> {
    if loci == [] then Progress([], None, None)
    else Step(prepare, oracle, Run(prepare, oracle, loci[..|loci| - 1]), loci[|loci| - 1])
  }

  // ---------------------------------------------------------------------------
  // What a run produces
  // ---------------------------------------------------------------------------

  /** Once a fault stops the script nothing further happens. */
  lemma {:induction false} RunStops<V>(prepare: Stage, oracle: Request -> Answer<V>,
                                       loci: seq<string>, k: nat)
    requires k <= |loci| && Run(prepare, oracle, loci[..k]).fault.Some?
    ensures Run(prepare, oracle, loci) == Run(prepare, oracle, loci[..k])
    decreases |loci| - k
  {
    if k < |loci| {
      var init := loci[..|loci| - 1];
      assert init[..k] == loci[..k];
      RunStops(prepare, oracle, init, k);
    } else {
      assert loci[..k] == loci;
    }
  }

  /** One table is written per locus, in order, until the first fault; without
      a fault there is one for every line. */
  lemma {:induction false} RunOutputs<V>(prepare: Stage, oracle: Request -> Answer<V>, loci: seq<string>)
    ensures var p := Run(prepare, oracle, loci);
            && |p.outputs| <= |loci|
            && (p.fault.None? ==> |p.outputs| == |loci|)
            && (p.fault.Some? ==> |p.outputs| < |loci|)
  {
    if loci != [] {
      RunOutputs(prepare, oracle, loci[..|loci| - 1]);
    }
  }

  /** A step either leaves the tables written as they were or writes one more,
      for its own line. */
  lemma StepOutputs<V>(prepare: Stage, oracle: Request -> Answer<V>, p: Progress<V>, line: string)
    ensures var q := Step(prepare, oracle, p, line);
            || q.outputs == p.outputs
            || (&& p.fault.None? && q.fault.None? && prepare(line).Ok?
                && var request := prepare(line).value;
                && q.current.Some?
                && q.outputs == p.outputs + [Output(request.seqArgs.id, q.current.value.0, q.current.value.1)]
                && (oracle(request).numReturned != 0 ==> q.current == Some(Grouped(oracle(request)))))
  {
  }

  /** Output `k` belongs to line `k`: it carries the name of that line's
      request and, when primer3 returned pairs, the table grouped from that
      answer. */
  lemma {:induction false} RunOutputIsLocus<V>(prepare: Stage, oracle: Request -> Answer<V>,
                                               loci: seq<string>, k: nat)
    requires k < |Run(prepare, oracle, loci).outputs|
    ensures k < |loci| && prepare(loci[k]).Ok?
    ensures var out := Run(prepare, oracle, loci).outputs[k];
            var request := prepare(loci[k]).value;
            && out.name == request.seqArgs.id
            && (oracle(request).numReturned != 0 ==>
                  (out.table, out.index) == Grouped(oracle(request)))
  {
    var init := loci[..|loci| - 1];
    var before := Run(prepare, oracle, init);
    var after := Run(prepare, oracle, loci);
    assert after == Step(prepare, oracle, before, loci[|loci| - 1]);
    RunOutputs(prepare, oracle, init);
    StepOutputs(prepare, oracle, before, loci[|loci| - 1]);
    if k < |before.outputs| {
      RunOutputIsLocus(prepare, oracle, init, k);
      assert init[k] == loci[k];
      assert after.outputs[k] == before.outputs[k];
    } else {
      assert k == |before.outputs| == |init|;
    }
  }

  /** The table variables hold the last table written, and they are unset
      exactly as long as no table has been written. */
  lemma {:induction false} RunCurrent<V>(prepare: Stage, oracle: Request -> Answer<V>, loci: seq<string>)
    ensures var p := Run(prepare, oracle, loci);
            && (p.current.None? <==> p.outputs == [])
            && (p.outputs != [] ==>
                  var last := p.outputs[|p.outputs| - 1];
                  p.current == Some((last.table, last.index)))
  {
    if loci != [] {
      RunCurrent(prepare, oracle, loci[..|loci| - 1]);
    }
  }

  /** A later line for which primer3 returns no pair writes the table of the
      line before it again, under its own name (lines 105 and 120 run with
      the table variables of the previous iteration). */
  lemma {:induction false} ZeroPairsRepeatsTable<V>(prepare: Stage, oracle: Request -> Answer<V>,
                                                    loci: seq<string>, k: nat)
    requires 0 < k < |Run(prepare, oracle, loci).outputs| && k < |loci| && prepare(loci[k]).Ok?
    requires oracle(prepare(loci[k]).value).numReturned == 0
    ensures var outs := Run(prepare, oracle, loci).outputs;
            && outs[k].table == outs[k - 1].table
            && outs[k].index == outs[k - 1].index
            && outs[k].name == prepare(loci[k]).value.seqArgs.id
  {
    var init := loci[..|loci| - 1];
    var before := Run(prepare, oracle, init);
    var after := Run(prepare, oracle, loci);
    assert after == Step(prepare, oracle, before, loci[|loci| - 1]);
    RunOutputs(prepare, oracle, init);
    StepOutputs(prepare, oracle, before, loci[|loci| - 1]);
    if k < |before.outputs| {
      assert init[k] == loci[k];
      ZeroPairsRepeatsTable(prepare, oracle, init, k);
      assert after.outputs[k] == before.outputs[k];
      assert after.outputs[k - 1] == before.outputs[k - 1];
    } else {
      assert k == |before.outputs| == |init|;
      assert loci[|loci| - 1] == loci[k];
      RunCurrent(prepare, oracle, init);
      assert after.outputs[k - 1] == before.outputs[k - 1];
    }
  }

  /** A step that faults writes nothing, and the fault is that of its line:
      the line's own, or the missing table when primer3 returned no pair. */
  lemma StepFault<V>(prepare: Stage, oracle: Request -> Answer<V>, p: Progress<V>, line: string)
    requires p.fault.None? && Step(prepare, oracle, p, line).fault.Some?
    ensures var q := Step(prepare, oracle, p, line);
            && q.outputs == p.outputs
            && (prepare(line).Err? ==> q.fault == Some(prepare(line).error))
            && (prepare(line).Ok? ==>
                  && q.fault == Some(TableUnset)
                  && oracle(prepare(line).value).numReturned == 0
                  && p.current.None?)
  {
  }

  /** The fault that stops a run comes from the line after the last table
      written: that line does not parse, its read fails, or primer3 returned
      no pair before any table existed. */
  lemma {:induction false} RunFault<V>(prepare: Stage, oracle: Request -> Answer<V>, loci: seq<string>)
    requires Run(prepare, oracle, loci).fault.Some?
    ensures var p := Run(prepare, oracle, loci);
            var k := |p.outputs|;
            && k < |loci|
            && Run(prepare, oracle, loci[..k]).fault.None?
            && (prepare(loci[k]).Err? ==> p.fault == Some(prepare(loci[k]).error))
            && (prepare(loci[k]).Ok? ==>
                  && p.fault == Some(TableUnset)
                  && oracle(prepare(loci[k]).value).numReturned == 0
                  && Run(prepare, oracle, loci[..k]).current.None?)
  {
    var init := loci[..|loci| - 1];
    var before := Run(prepare, oracle, init);
    var p := Run(prepare, oracle, loci);
    assert p == Step(prepare, oracle, before, loci[|loci| - 1]);
    if before.fault.Some? {
      assert p == before;
      RunFault(prepare, oracle, init);
      var k := |before.outputs|;
      assert init[..k] == loci[..k];
      assert init[k] == loci[k];
    } else {
      RunOutputs(prepare, oracle, init);
      StepFault(prepare, oracle, before, loci[|loci| - 1]);
      assert |p.outputs| == |init|;
      assert loci[..|init|] == init;
    }
  }

  /** `Run` over one more line. */
  lemma RunSnoc<V>(prepare: Stage, oracle: Request -> Answer<V>, loci: seq<string>, k: nat)
    requires k < |loci|
    ensures Run(prepare, oracle, loci[..k + 1]) == Step(prepare, oracle, Run(prepare, oracle, loci[..k]), loci[k])
  {
    assert loci[..k + 1][..k] == loci[..k];
  }

  // ---------------------------------------------------------------------------
  // The script's own stage
  // ---------------------------------------------------------------------------

  /** A request carries the name field of its BED line. */
  lemma PrepareName(s: Setting, line: string)
    requires Prepare(s, line).Ok?
    ensures ParseLocus(line, s.flank, s.primerRange).Ok?
    ensures Prepare(s, line).value.seqArgs.id == ParseLocus(line, s.flank, s.primerRange).value.name
  {
  }

  /** Each table the script writes is named after the fourth field of its
      own BED line. */
  lemma OutputNamedAfterLocus<V>(s: Setting, oracle: Request -> Answer<V>, loci: seq<string>, k: nat)
    requires k < |Run(Preparer(s), oracle, loci).outputs|
    ensures k < |loci| && ParseLocus(loci[k], s.flank, s.primerRange).Ok?
    ensures Run(Preparer(s), oracle, loci).outputs[k].name
            == ParseLocus(loci[k], s.flank, s.primerRange).value.name
  {
    RunOutputIsLocus(Preparer(s), oracle, loci, k);
    assert Preparer(s)(loci[k]) == Prepare(s, loci[k]);
    PrepareName(s, loci[k]);
  }

  /** A line naming a sequence the index does not hold stops the script with a
      lookup error at that line, after the tables of the lines before it. */
  lemma MissingSequenceStops<V>(s: Setting, oracle: Request -> Answer<V>, loci: seq<string>, k: nat)
    requires k < |loci| && Run(Preparer(s), oracle, loci[..k]).fault.None?
    requires ParseLocus(loci[k], s.flank, s.primerRange).Ok?
    requires ParseLocus(loci[k], s.flank, s.primerRange).value.chrom !in s.faidx
    ensures var p := Run(Preparer(s), oracle, loci);
            && p.fault == Some(UnknownSequence(ParseLocus(loci[k], s.flank, s.primerRange).value.chrom))
            && p.outputs == Run(Preparer(s), oracle, loci[..k]).outputs
            && |p.outputs| == k
  {
    var chrom := ParseLocus(loci[k], s.flank, s.primerRange).value.chrom;
    assert Preparer(s)(loci[k]) == Prepare(s, loci[k]) == Err(UnknownSequence(chrom));
    RunSnoc(Preparer(s), oracle, loci, k);
    RunOutputs(Preparer(s), oracle, loci[..k]);
    RunStops(Preparer(s), oracle, loci, k + 1);
  }

  // ---------------------------------------------------------------------------
  // The loops as the script runs them
  // ---------------------------------------------------------------------------

  /** Lines 53-122 after the index is built: the `for locus in loci` loop,
      which stops at the first fault. `built` says whether
      `primer3_result_table_dict` and `index` have been assigned. */
  method DesignLoci<V>(s: Setting, oracle: Request -> Answer<V>, loci: seq<string>)
    returns (outputs: seq<Output<V>>, fault: Option<Fault>)
    ensures outputs == Run(Preparer(s), oracle, loci).outputs
    ensures fault == Run(Preparer(s), oracle, loci).fault
  {
    outputs, fault := [], None;
    var table: map<string, seq<V>> := map[];
    var index: seq<string> := [];
    var built := false;
    for k := 0 to |loci|
      invariant Run(Preparer(s), oracle, loci[..k])
                == Progress(outputs, if built then Some((table, index)) else None, None)
    {
      RunSnoc(Preparer(s), oracle, loci, k);
      var request := Prepare(s, loci[k]);
      assert Preparer(s)(loci[k]) == request;
      if request.Err? {
        fault := Some(request.error);
        RunStops(Preparer(s), oracle, loci, k + 1);
        return;
      }
      var answer := oracle(request.value);
      if answer.numReturned != 0 {
        table, index := GroupResults(answer.pairs, answer.numReturned);
        built := true;
      }
      if !built {
        fault := Some(TableUnset);
        RunStops(Preparer(s), oracle, loci, k + 1);
        return;
      }
      outputs := outputs + [Output(request.value.seqArgs.id, table, index)];
    }
    assert loci[..|loci|] == loci;
  }

  /** The setting of a run on `genome`: its index and line width, as lines
      28-46 compute them. */
  function GenomeSetting(genome: string, flank: int, primerRange: int): (s: Setting)
    ensures s.genome == genome && s.flank == flank && s.primerRange == primerRange
    ensures NonEmptyLines(Lines(genome))
    ensures s.faidx == Index(Lines(genome)) && s.basePerLine == LineWidth(Lines(genome))
  {
    LinesShape(genome);
    Setting(genome, Index(Lines(genome)), LineWidth(Lines(genome)), flank, primerRange)
  }

  /** The whole script on a genome text and the lines of a BED file: the
      index of lines 28-46, then the loop of lines 53-122. */
  method DesignPrimers<V>(genome: string, loci: seq<string>, flank: int, primerRange: int,
                          oracle: Request -> Answer<V>)
    returns (outputs: seq<Output<V>>, fault: Option<Fault>)
    ensures var s := GenomeSetting(genome, flank, primerRange);
            outputs == Run(Preparer(s), oracle, loci).outputs && fault == Run(Preparer(s), oracle, loci).fault
  {
    var faidx, basePerLine, count, seekValue := BuildIndex(genome);
    outputs, fault := DesignLoci(Setting(genome, faidx, basePerLine, flank, primerRange), oracle, loci);
  }

  // ---------------------------------------------------------------------------
  // Where the OK regions fall in the genome
  // ---------------------------------------------------------------------------

  /** For a window inside a sequence body wrapped at the index's width, the
      template is the residues from `FirstResidue(start)` up to `end`, so the
      right OK region is the last `primer_range` residues of the widened
      window, and the left one the `primer_range` residues after the first
      residue of the template: the primer range before the locus when `start`
      does not begin a line, and that range shifted on by one residue when
      it does. */
  lemma OkRegionsInGenome(pre: string, r: string, post: string, w: nat,
                          faidx: map<string, int>, chrom: string, locus: Locus, primerRange: int)
    requires w > 0 && NoSpace(r) && pre != [] && pre[|pre| - 1] == '\n'
    requires chrom in faidx && faidx[chrom] == |pre| && locus.chrom == chrom
    requires 0 <= locus.start <= locus.end <= |r|
    requires 0 <= primerRange && FirstResidue(locus.start, w) + primerRange + 1 <= locus.end
    ensures var read := Extract(pre + Wrap(r, w) + post, faidx, Some(w), chrom, locus.start, locus.end);
            var first := FirstResidue(locus.start, w);
            && read.Ok?
            && var a := LocusRequest(locus, read.value, primerRange).seqArgs;
            && a.template == r[first..locus.end]
            && a.template[a.okLeft.start..a.okLeft.End()] == r[first + 1..first + 1 + primerRange]
            && a.template[a.okRight.start..a.okRight.End()] == r[locus.end - primerRange..locus.end]
  {
    ExtractWrapped(pre, r, post, w, faidx, chrom, locus.start, locus.end);
    RegionsOfRead(Extract(pre + Wrap(r, w) + post, faidx, Some(w), chrom, locus.start, locus.end),
                  r, FirstResidue(locus.start, w), locus, primerRange);
  }

  /** The OK regions of a template read from `r[first..locus.end]`, in the
      coordinates of `r`. */
  lemma OkRegionsOfWindow(r: string, first: nat, locus: Locus, primerRange: int)
    requires 0 <= primerRange && first + primerRange + 1 <= locus.end <= |r|
    ensures var a := LocusRequest(locus, r[first..locus.end], primerRange).seqArgs;
            && a.template == r[first..locus.end]
            && a.template[a.okLeft.start..a.okLeft.End()] == r[first + 1..first + 1 + primerRange]
            && a.template[a.okRight.start..a.okRight.End()] == r[locus.end - primerRange..locus.end]
  {
    var template := r[first..locus.end];
    SliceOfSlice(r, first, locus.end, 1, 1 + primerRange);
    SliceOfSlice(r, first, locus.end, |template| - primerRange, |template|);
  }

  lemma SliceOfSlice(r: string, lo: nat, hi: nat, i: nat, j: nat)
    requires lo <= hi <= |r| && i <= j <= hi - lo
    ensures r[lo..hi][i..j] == r[lo + i..lo + j]
  {
    assert forall k :: 0 <= k < j - i ==> r[lo..hi][i..j][k] == r[lo + i..lo + j][k];
  }

  // ---------------------------------------------------------------------------
  // The stage with the corrected read
  // ---------------------------------------------------------------------------

  /** Lines 55-101 with the read that drops the `- 1` of line 64. The loop
      lemmas above hold for this stage as for the script's own. */
  function PrepareCorrected(s: Setting, line: string): (r: Result<Request>)
    ensures ParseLocus(line, s.flank, s.primerRange).Err? ==>
              r == Err(ParseLocus(line, s.flank, s.primerRange).error)
    ensures ParseLocus(line, s.flank, s.primerRange).Ok? ==>
              var locus := ParseLocus(line, s.flank, s.primerRange).value;
              var read := ExtractCorrected(s.genome, s.faidx, s.basePerLine, locus.chrom, locus.start, locus.end);
              && (read.Err? ==> r == Err(read.error))
              && (read.Ok? ==> r == Ok(LocusRequest(locus, read.value, s.primerRange)))
  {
    var locus :- ParseLocus(line, s.flank, s.primerRange);
    var template :- ExtractCorrected(s.genome, s.faidx, s.basePerLine, locus.chrom, locus.start, locus.end);
    Ok(LocusRequest(locus, template, s.primerRange))
  }

  /** With the corrected read the template is exactly the widened window,
      whatever the line width: the left OK region starts one residue after
      the window's start and the right one ends at the window's end. */
  lemma CorrectedRegionsInGenome(pre: string, r: string, post: string, w: nat,
                                 faidx: map<string, int>, chrom: string, locus: Locus, primerRange: int)
    requires w > 0 && NoSpace(r)
    requires chrom in faidx && faidx[chrom] == |pre| && locus.chrom == chrom
    requires 0 <= locus.start <= locus.end <= |r|
    requires 0 <= primerRange && locus.start + primerRange + 1 <= locus.end
    ensures var read := ExtractCorrected(pre + Wrap(r, w) + post, faidx, Some(w), chrom, locus.start, locus.end);
            && read.Ok?
            && var a := LocusRequest(locus, read.value, primerRange).seqArgs;
            && a.template == r[locus.start..locus.end]
            && |a.template| == locus.end - locus.start
            && a.template[a.okLeft.start..a.okLeft.End()] == r[locus.start + 1..locus.start + 1 + primerRange]
            && a.template[a.okRight.start..a.okRight.End()] == r[locus.end - primerRange..locus.end]
  {
    var read := ExtractCorrected(pre + Wrap(r, w) + post, faidx, Some(w), chrom, locus.start, locus.end);
    assert read == Ok(r[locus.start..locus.end]) by {
      ExtractCorrectedWrapped(pre, r, post, w, faidx, chrom, locus.start, locus.end);
    }
    RegionsOfRead(read, r, locus.start, locus, primerRange);
  }

  /** The request built from a read that returned `r[first..locus.end]`. */
  lemma RegionsOfRead(read: Result<string>, r: string, first: nat, locus: Locus, primerRange: int)
    requires 0 <= primerRange && first + primerRange + 1 <= locus.end <= |r|
    requires read == Ok(r[first..locus.end])
    ensures && read.Ok?
            && var a := LocusRequest(locus, read.value, primerRange).seqArgs;
            && a.template == r[first..locus.end]
            && |a.template| == locus.end - first
            && a.template[a.okLeft.start..a.okLeft.End()] == r[first + 1..first + 1 + primerRange]
            && a.template[a.okRight.start..a.okRight.End()] == r[locus.end - primerRange..locus.end]
  {
    OkRegionsOfWindow(r, first, locus, primerRange);
  }
}

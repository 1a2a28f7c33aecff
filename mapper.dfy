/**
 * The mapper: every reference sequence is upper-cased and searched in the six
 * reading frames; the automaton is driven over each translated frame, and every
 * match is turned into a record holding the reverse translated peptide (RTP),
 * its extension to an expressed protein sequence tag (ePST) under one of four
 * policies, and coordinates adjusted for the frame. The records are returned
 * instead of being written to the three output files.
 */
module Mapping {
  import opened Outcomes
  import opened Peptides
  import opened Automaton
  import opened Translation
  import opened Construction
  import opened Matching

  // ---------------------------------------------------------------------------
  // Configuration

  /** How an RTP is extended to an ePST. */
  datatype Mode = Prokaryote | Eukaryote | Codon | GeneSplicer

  /** The start and stop codons of the genetic code in use. */
  datatype Codes = Codes(starts: set<string>, stops: set<string>)

  /**
   * The mapper's settings: the mode, the peptide list it reads matched
   * peptides from, the codon table of its translator, the start and stop
   * codons, the codon count of Codon mode, the splice-site motifs of Eukaryote
   * mode and the acceptor and donor positions of GeneSplicer mode.
   */
  datatype Mapper = Mapper(
    mode: Mode,
    peptides: seq<Peptide>,
    codonTable: map<string, string>,
    codes: Codes,
    codons: int,
    beginSpliceSites: set<string>,
    endSpliceSites: set<string>,
    acceptors: seq<int>,
    donors: seq<int>)

  /** The begin-splice motif used when no file of them is given. */
  const DefaultBeginSpliceSites: set<string> := {"CAGG"}

  /** The end-splice motifs used when no file of them is given. */
  const DefaultEndSpliceSites: set<string> := {"AAGGTAAGT", "AAGGTGAGT", "CAGGTAAGT", "CAGGTGAGT"}

  /**
   * The mode the command line selects: Eukaryote wins over Codon, Codon (a
   * positive codon count) over GeneSplicer, and Prokaryote is the fallback.
   */
  function SelectMode(isEukaryote: bool, codons: int, hasGeneSplicer: bool): (r: Mode)
    ensures r == Eukaryote <==> isEukaryote
    ensures r == Codon <==> !isEukaryote && codons > 0
    ensures r == GeneSplicer <==> !isEukaryote && codons <= 0 && hasGeneSplicer
    ensures r == Prokaryote <==> !isEukaryote && codons <= 0 && !hasGeneSplicer
  {
    if isEukaryote then Eukaryote
    else if codons > 0 then Codon
    else if hasGeneSplicer then GeneSplicer
    else Prokaryote
  }

  // ---------------------------------------------------------------------------
  // Motifs

  function Max(a: int, b: int): int {
    if a < b then b else a
  }

  /**
   * The reference, read from `position`, begins with the motif: every
   * character of the motif is there, none of them past the end.
   */
  predicate StartsWith(reference: string, position: int, motif: string)
    requires 0 <= position <= |reference|
    decreases |motif|
  {
    motif == [] ||
    (position < |reference| && reference[position] == motif[0] && StartsWith(reference, position + 1, motif[1..]))
  }

  /**
   * The comparison `contains` makes, the reference cut at the motif's length
   * or at its end, whichever comes first, agrees with `StartsWith`; and both
   * mean the motif occurs at `position` in full.
   */
  lemma {:induction false} StartsWithCut(reference: string, position: int, motif: string)
    requires 0 <= position <= |reference|
    ensures StartsWith(reference, position, motif) <==> reference[position .. Min(|reference|, position + |motif|)] == motif
    ensures StartsWith(reference, position, motif) <==>
      position + |motif| <= |reference| && reference[position .. position + |motif|] == motif
    decreases |motif|
  {
    if motif != [] && position < |reference| {
      StartsWithCut(reference, position + 1, motif[1..]);
      var cut := reference[position .. Min(|reference|, position + |motif|)];
      var rest := reference[position + 1 .. Min(|reference|, position + 1 + |motif[1..]|)];
      assert cut == [reference[position]] + rest;
      assert motif == [motif[0]] + motif[1..];
      if position + |motif| <= |reference| {
        assert reference[position .. position + |motif|] == cut;
      }
    }
  }

  /** `contains`: some motif of the set occurs in the reference at `position`. */
  predicate Contains(motifs: set<string>, reference: string, position: int)
    requires 0 <= position <= |reference|
  {
    exists m :: m in motifs && StartsWith(reference, position, m)
  }

  // ---------------------------------------------------------------------------
  // Prokaryote mode

  /**
   * Walking back from `from` in steps of three while above zero: the first
   * position holding a stop codon, or zero.
   */
  function StopBack(stops: set<string>, reference: string, from: int): (r: int)
    requires 0 <= from <= |reference| && from % 3 == 0
    ensures 0 <= r <= from
    decreases from
  {
    if from == 0 || Contains(stops, reference, from) then from else StopBack(stops, reference, from - 3)
  }

  /**
   * Walking forward from `from` in steps of three while below `limit`: the
   * first position holding a start codon, or the first value not below `limit`.
   */
  function StartForward(starts: set<string>, reference: string, from: int, limit: int): (r: int)
    requires 0 <= from && limit <= |reference|
    ensures from <= r
    decreases limit - from
  {
    if from >= limit || Contains(starts, reference, from) then from else StartForward(starts, reference, from + 3, limit)
  }

  /**
   * Walking forward from `from` in steps of three while inside the reference:
   * the first position holding a stop codon, or the first value past the end.
   */
  function StopForward(stops: set<string>, reference: string, from: int): (r: int)
    requires 0 <= from < |reference| + 3
    ensures from <= r < |reference| + 3
    decreases |reference| - from
  {
    if from >= |reference| || Contains(stops, reference, from) then from else StopForward(stops, reference, from + 3)
  }

  /** The backward walk ends at the nearest in-frame stop codon, or at zero when there is none. */
  lemma {:induction false} StopBackNearest(stops: set<string>, reference: string, from: int)
    requires 0 <= from <= |reference| && from % 3 == 0
    ensures var r := StopBack(stops, reference, from);
      r % 3 == 0 && (r > 0 ==> Contains(stops, reference, r)) &&
      forall p :: r < p <= from && p % 3 == 0 ==> !Contains(stops, reference, p)
    decreases from
  {
    if from != 0 && !Contains(stops, reference, from) {
      StopBackNearest(stops, reference, from - 3);
    }
  }

  /** Positions three apart are in the same frame. */
  lemma {:induction false} InFrameStep(p: int, from: int)
    ensures (p - from) % 3 == 0 <==> (p - (from + 3)) % 3 == 0
  {
  }

  /** The forward walk for a start codon ends at the first one, in frame with where it began. */
  lemma {:induction false} StartForwardFirst(starts: set<string>, reference: string, from: int, limit: int)
    requires 0 <= from && limit <= |reference|
    ensures var r := StartForward(starts, reference, from, limit);
      (r - from) % 3 == 0 && (r < limit ==> Contains(starts, reference, r)) && (r >= limit ==> r < Max(from, limit) + 3) &&
      forall p :: from <= p < r && (p - from) % 3 == 0 ==> !Contains(starts, reference, p)
    decreases limit - from
  {
    if from < limit && !Contains(starts, reference, from) {
      var r := StartForward(starts, reference, from + 3, limit);
      StartForwardFirst(starts, reference, from + 3, limit);
      InFrameStep(r, from);
      forall p | from <= p < r && (p - from) % 3 == 0
        ensures !Contains(starts, reference, p)
      {
        if p != from {
          InFrameStep(p, from);
        }
      }
    }
  }

  /** The forward walk for a stop codon ends at the first one, in frame with where it began, or just past the end. */
  lemma {:induction false} StopForwardFirst(stops: set<string>, reference: string, from: int)
    requires 0 <= from < |reference| + 3
    ensures var r := StopForward(stops, reference, from);
      (r - from) % 3 == 0 && (r < |reference| ==> Contains(stops, reference, r)) &&
      forall p :: from <= p < r && (p - from) % 3 == 0 ==> !Contains(stops, reference, p)
    decreases |reference| - from
  {
    if from < |reference| && !Contains(stops, reference, from) {
      StopForwardFirst(stops, reference, from + 3);
    }
  }

  /** The bounds of an ePST (inclusive, zero-based) and its text. */
  datatype Extension = Extension(start: int, end: int, epst: string)

  /**
   * The ePST of Prokaryote mode: it starts at the first start codon after the
   * nearest in-frame stop before the RTP, or at the RTP itself if there is no
   * such start codon before the RTP; it ends with the first in-frame stop codon
   * at or after the end of the RTP, cut at the end of the reference.
   */
  function ProkaryoteExtension(codes: Codes, reference: string, startRtp: int, endRtp: int): (r: Extension)
    requires 0 <= startRtp <= endRtp <= |reference| && startRtp % 3 == 0
    ensures 0 <= r.start <= startRtp && endRtp <= r.end + 1 && r.end < |reference|
    ensures r.epst == reference[r.start .. r.end + 1]
  {
    var stop := StopBack(codes.stops, reference, startRtp);
    var start := StartForward(codes.starts, reference, stop, startRtp);
    var startEpst := if start >= startRtp then startRtp else start;
    var endEpst := Min(StopForward(codes.stops, reference, endRtp) + 2, |reference| - 1);
    Extension(startEpst, endEpst, reference[startEpst .. endEpst + 1])
  }

  /**
   * A Prokaryote ePST starts in frame with the RTP, at a start codon unless it
   * starts at the RTP itself, and no in-frame stop codon lies between its start
   * and the RTP.
   */
  lemma {:induction false} ProkaryoteStart(codes: Codes, reference: string, startRtp: int, endRtp: int)
    requires 0 <= startRtp <= endRtp <= |reference| && startRtp % 3 == 0
    ensures var r := ProkaryoteExtension(codes, reference, startRtp, endRtp);
      r.start % 3 == 0 && (r.start < startRtp ==> Contains(codes.starts, reference, r.start)) &&
      forall p :: r.start < p <= startRtp && p % 3 == 0 ==> !Contains(codes.stops, reference, p)
  {
    var stop := StopBack(codes.stops, reference, startRtp);
    StopBackNearest(codes.stops, reference, startRtp);
    StartForwardFirst(codes.starts, reference, stop, startRtp);
  }

  /**
   * A Prokaryote ePST ends two bases after the first in-frame stop codon at or
   * after the end of the RTP, or at the last base of the reference, whichever
   * comes first.
   */
  lemma {:induction false} ProkaryoteEnd(codes: Codes, reference: string, startRtp: int, endRtp: int)
    requires 0 <= startRtp <= endRtp <= |reference| && startRtp % 3 == 0
    ensures var r := ProkaryoteExtension(codes, reference, startRtp, endRtp);
      (r.end < |reference| - 1 ==> (r.end - 2 - endRtp) % 3 == 0 && Contains(codes.stops, reference, r.end - 2)) &&
      forall p :: endRtp <= p < r.end - 2 && (p - endRtp) % 3 == 0 ==> !Contains(codes.stops, reference, p)
  {
    StopForwardFirst(codes.stops, reference, endRtp);
  }

  /** The first loop of `findEpstProkaryote`: back from the RTP to the nearest in-frame stop codon. */
  method WalkBackToStop(stops: set<string>, reference: string, startRtp: int) returns (inframeStop: int)
    requires 0 <= startRtp <= |reference| && startRtp % 3 == 0
    ensures inframeStop == StopBack(stops, reference, startRtp)
  {
    inframeStop := startRtp;
    while inframeStop > 0
      invariant 0 <= inframeStop <= startRtp && inframeStop % 3 == 0
      invariant StopBack(stops, reference, inframeStop) == StopBack(stops, reference, startRtp)
      decreases inframeStop
    {
      if Contains(stops, reference, inframeStop) {
        break;
      }
      inframeStop := inframeStop - 3;
    }
  }

  /** The second loop of `findEpstProkaryote`: forward to the first start codon before `limit`. */
  method WalkToStart(starts: set<string>, reference: string, from: int, limit: int) returns (start: int)
    requires 0 <= from && limit <= |reference|
    ensures start == StartForward(starts, reference, from, limit)
  {
    start := from;
    while start < limit
      invariant from <= start
      invariant StartForward(starts, reference, start, limit) == StartForward(starts, reference, from, limit)
      decreases limit - start
    {
      if Contains(starts, reference, start) {
        break;
      }
      start := start + 3;
    }
  }

  /** The third loop of `findEpstProkaryote`: forward from the end of the RTP to the first in-frame stop codon. */
  method WalkToStop(stops: set<string>, reference: string, endRtp: int) returns (stop: int)
    requires 0 <= endRtp <= |reference|
    ensures stop == StopForward(stops, reference, endRtp)
  {
    stop := endRtp;
    while stop < |reference|
      invariant endRtp <= stop < |reference| + 3
      invariant StopForward(stops, reference, stop) == StopForward(stops, reference, endRtp)
      decreases |reference| - stop
    {
      if Contains(stops, reference, stop) {
        break;
      }
      stop := stop + 3;
    }
  }

  /** `findEpstProkaryote`: the three walks, the adjustment to the end of the stop codon and the clamping. */
  method FindEpstProkaryote(codes: Codes, reference: string, startRtp: int, endRtp: int) returns (r: Extension)
    requires 0 <= startRtp <= endRtp <= |reference| && startRtp % 3 == 0
    ensures r == ProkaryoteExtension(codes, reference, startRtp, endRtp)
  {
    var inframeStop := WalkBackToStop(codes.stops, reference, startRtp);
    var startEpst := WalkToStart(codes.starts, reference, inframeStop, startRtp);
    if startEpst >= startRtp {
      startEpst := startRtp;
    }
    var endEpst := WalkToStop(codes.stops, reference, endRtp);
    endEpst := endEpst + 2;
    if startEpst < 0 {
      startEpst := 0;
    }
    if endEpst >= |reference| {
      endEpst := |reference| - 1;
    }
    r := Extension(startEpst, endEpst, reference[startEpst .. endEpst + 1]);
  }

  // ---------------------------------------------------------------------------
  // Eukaryote and GeneSplicer modes

  /**
   * Where a splice boundary may lie: the begin and end motifs of Eukaryote
   * mode, or the acceptor and donor positions of GeneSplicer mode.
   */
  datatype Splicing = Motifs(begins: set<string>, ends: set<string>) | Sites(acceptors: seq<int>, donors: seq<int>)

  predicate BeginsSplice(splicing: Splicing, reference: string, p: int)
    requires 0 <= p <= |reference|
  {
    match splicing
    case Motifs(begins, _) => Contains(begins, reference, p)
    case Sites(acceptors, _) => p in acceptors
  }

  predicate EndsSplice(splicing: Splicing, reference: string, p: int)
    requires 0 <= p <= |reference|
  {
    match splicing
    case Motifs(_, ends) => Contains(ends, reference, p)
    case Sites(_, donors) => p in donors
  }

  /** Where the backward walk stops: an in-frame stop or start codon, or the beginning of a splice. */
  predicate StartsHere(codes: Codes, splicing: Splicing, reference: string, startRtp: int, p: int)
    requires 0 <= p <= |reference|
  {
    ((startRtp - p) % 3 == 0 && (Contains(codes.stops, reference, p) || Contains(codes.starts, reference, p)))
    || BeginsSplice(splicing, reference, p)
  }

  /** Where the forward walk stops: an in-frame stop codon or the end of a splice. */
  predicate EndsHere(codes: Codes, splicing: Splicing, reference: string, endRtp: int, p: int)
    requires 0 <= p <= |reference|
  {
    ((p - endRtp) % 3 == 0 && Contains(codes.stops, reference, p)) || EndsSplice(splicing, reference, p)
  }

  /**
   * Walking back one base at a time from `p` while above zero: the nearest
   * position where the walk stops, or zero, which is never examined.
   */
  function SpliceBack(codes: Codes, splicing: Splicing, reference: string, startRtp: int, p: int): (r: int)
    requires 0 <= p <= |reference|
    ensures 0 <= r <= p
    decreases p
  {
    if p == 0 || StartsHere(codes, splicing, reference, startRtp, p) then p
    else SpliceBack(codes, splicing, reference, startRtp, p - 1)
  }

  /**
   * Walking forward one base at a time from `p` while inside the reference:
   * the first position where the walk stops, or the end of the reference.
   */
  function SpliceForward(codes: Codes, splicing: Splicing, reference: string, endRtp: int, p: int): (r: int)
    requires 0 <= p <= |reference|
    ensures p <= r <= |reference|
    decreases |reference| - p
  {
    if p == |reference| || EndsHere(codes, splicing, reference, endRtp, p) then p
    else SpliceForward(codes, splicing, reference, endRtp, p + 1)
  }

  /** The backward walk ends at the nearest boundary above zero, or at zero. */
  lemma {:induction false} SpliceBackNearest(codes: Codes, splicing: Splicing, reference: string, startRtp: int, p: int)
    requires 0 <= p <= |reference|
    ensures var r := SpliceBack(codes, splicing, reference, startRtp, p);
      (r > 0 ==> StartsHere(codes, splicing, reference, startRtp, r)) &&
      forall q :: r < q <= p ==> !StartsHere(codes, splicing, reference, startRtp, q)
    decreases p
  {
    if p != 0 && !StartsHere(codes, splicing, reference, startRtp, p) {
      SpliceBackNearest(codes, splicing, reference, startRtp, p - 1);
    }
  }

  /** The forward walk ends at the first boundary, or at the end of the reference. */
  lemma {:induction false} SpliceForwardFirst(codes: Codes, splicing: Splicing, reference: string, endRtp: int, p: int)
    requires 0 <= p <= |reference|
    ensures var r := SpliceForward(codes, splicing, reference, endRtp, p);
      (r < |reference| ==> EndsHere(codes, splicing, reference, endRtp, r)) &&
      forall q :: p <= q < r ==> !EndsHere(codes, splicing, reference, endRtp, q)
    decreases |reference| - p
  {
    if p != |reference| && !EndsHere(codes, splicing, reference, endRtp, p) {
      SpliceForwardFirst(codes, splicing, reference, endRtp, p + 1);
    }
  }

  /**
   * The ePST of Eukaryote and GeneSplicer modes: from the nearest boundary
   * before the RTP (or the beginning of the reference) to the first boundary
   * at or after its end (or the last base).
   */
  function SplicedExtension(codes: Codes, splicing: Splicing, reference: string, startRtp: int, endRtp: int): (r: Extension)
    requires 0 <= startRtp <= endRtp <= |reference|
    ensures 0 <= r.start <= startRtp && endRtp <= r.end + 1 && r.end < |reference|
    ensures r.epst == reference[r.start .. r.end + 1]
  {
    var startEpst := SpliceBack(codes, splicing, reference, startRtp, startRtp);
    var endEpst := Min(SpliceForward(codes, splicing, reference, endRtp, endRtp), |reference| - 1);
    Extension(startEpst, endEpst, reference[startEpst .. endEpst + 1])
  }

  /**
   * A spliced ePST starts at the nearest boundary before the RTP, or at zero,
   * and ends at the first boundary at or after the end of the RTP, or at the
   * last base.
   */
  lemma {:induction false} SplicedBoundaries(codes: Codes, splicing: Splicing, reference: string, startRtp: int, endRtp: int)
    requires 0 <= startRtp <= endRtp <= |reference|
    ensures var r := SplicedExtension(codes, splicing, reference, startRtp, endRtp);
      (r.start > 0 ==> StartsHere(codes, splicing, reference, startRtp, r.start)) &&
      (forall q :: r.start < q <= startRtp ==> !StartsHere(codes, splicing, reference, startRtp, q)) &&
      (r.end < |reference| - 1 ==> EndsHere(codes, splicing, reference, endRtp, r.end)) &&
      (forall q :: endRtp <= q < r.end ==> !EndsHere(codes, splicing, reference, endRtp, q))
  {
    SpliceBackNearest(codes, splicing, reference, startRtp, startRtp);
    SpliceForwardFirst(codes, splicing, reference, endRtp, endRtp);
  }

  /** The first loop of `findEpstEukaryote` and `findEpstGeneSplicer`: back one base at a time, counting the frame. */
  method WalkBackToBoundary(codes: Codes, splicing: Splicing, reference: string, startRtp: int) returns (startEpst: int)
    requires 0 <= startRtp <= |reference|
    ensures startEpst == SpliceBack(codes, splicing, reference, startRtp, startRtp)
  {
    var frameCounter := 0;
    startEpst := startRtp;
    while startEpst > 0
      invariant 0 <= startEpst <= startRtp && frameCounter == startRtp - startEpst
      invariant SpliceBack(codes, splicing, reference, startRtp, startEpst)
        == SpliceBack(codes, splicing, reference, startRtp, startRtp)
      decreases startEpst
    {
      if frameCounter % 3 == 0 {
        if Contains(codes.stops, reference, startEpst) {
          break;
        }
        if Contains(codes.starts, reference, startEpst) {
          break;
        }
      }
      if BeginsSplice(splicing, reference, startEpst) {
        break;
      }
      startEpst, frameCounter := startEpst - 1, frameCounter + 1;
    }
  }

  /** The second loop of `findEpstEukaryote` and `findEpstGeneSplicer`: forward one base at a time, counting the frame. */
  method WalkToBoundary(codes: Codes, splicing: Splicing, reference: string, endRtp: int) returns (endEpst: int)
    requires 0 <= endRtp <= |reference|
    ensures endEpst == SpliceForward(codes, splicing, reference, endRtp, endRtp)
  {
    var frameCounter := 0;
    endEpst := endRtp;
    while endEpst < |reference|
      invariant endRtp <= endEpst <= |reference| && frameCounter == endEpst - endRtp
      invariant SpliceForward(codes, splicing, reference, endRtp, endEpst)
        == SpliceForward(codes, splicing, reference, endRtp, endRtp)
      decreases |reference| - endEpst
    {
      if frameCounter % 3 == 0 {
        if Contains(codes.stops, reference, endEpst) {
          break;
        }
      }
      if EndsSplice(splicing, reference, endEpst) {
        break;
      }
      endEpst, frameCounter := endEpst + 1, frameCounter + 1;
    }
  }

  /**
   * `findEpstEukaryote` (with motifs) and `findEpstGeneSplicer` (with
   * positions): the two walks followed by the clamping.
   */
  method FindEpstSpliced(codes: Codes, splicing: Splicing, reference: string, startRtp: int, endRtp: int)
    returns (r: Extension)
    requires 0 <= startRtp <= endRtp <= |reference|
    ensures r == SplicedExtension(codes, splicing, reference, startRtp, endRtp)
  {
    var startEpst := WalkBackToBoundary(codes, splicing, reference, startRtp);
    var endEpst := WalkToBoundary(codes, splicing, reference, endRtp);
    if startEpst < 0 {
      startEpst := 0;
    }
    if endEpst >= |reference| {
      endEpst := |reference| - 1;
    }
    r := Extension(startEpst, endEpst, reference[startEpst .. endEpst + 1]);
  }

  // ---------------------------------------------------------------------------
  // Codon mode

  /**
   * The ePST of Codon mode: `codons` codons on each side of the RTP, clamped
   * to the reference. The cut fails only when a negative count makes the
   * window empty past its end.
   */
  function CodonExtension(codons: int, reference: string, startRtp: int, endRtp: int): (r: Result<Extension>)
    requires 0 <= startRtp <= endRtp <= |reference|
    ensures codons >= 0 ==> r.Ok?
    ensures r.Ok? ==> r.value.start == Max(0, startRtp - 3 * codons) && r.value.end == Min(endRtp + 3 * codons, |reference| - 1)
    ensures r.Ok? ==> 0 <= r.value.start <= r.value.end + 1 <= |reference| && r.value.epst == reference[r.value.start .. r.value.end + 1]
  {
    var startEpst := if startRtp - 3 * codons < 0 then 0 else startRtp - 3 * codons;
    var endEpst := if endRtp + 3 * codons >= |reference| then |reference| - 1 else endRtp + 3 * codons;
    if startEpst <= endEpst + 1 then Ok(Extension(startEpst, endEpst, reference[startEpst .. endEpst + 1]))
    else Err(IndexOutOfBounds)
  }

  /** `findEpstCodon`. */
  method FindEpstCodon(codons: int, reference: string, startRtp: int, endRtp: int) returns (r: Result<Extension>)
    requires 0 <= startRtp <= endRtp <= |reference|
    ensures r == CodonExtension(codons, reference, startRtp, endRtp)
  {
    var startEpst := startRtp - 3 * codons;
    var endEpst := endRtp + 3 * codons;
    if startEpst < 0 {
      startEpst := 0;
    }
    if endEpst >= |reference| {
      endEpst := |reference| - 1;
    }
    if endEpst + 1 < startEpst {
      return Err(IndexOutOfBounds);
    }
    r := Ok(Extension(startEpst, endEpst, reference[startEpst .. endEpst + 1]));
  }

  // ---------------------------------------------------------------------------
  // Dispatch

  /** The ePST the mapper's mode gives for the RTP `reference[startRtp .. endRtp)`. */
  function Extend(m: Mapper, reference: string, startRtp: int, endRtp: int): (r: Result<Extension>)
    requires 0 <= startRtp <= endRtp <= |reference| && startRtp % 3 == 0
    ensures m.mode != Codon ==> r.Ok?
    ensures r.Ok? && (m.mode != Codon || m.codons >= 0) ==>
      0 <= r.value.start <= startRtp && endRtp <= r.value.end + 1 && r.value.end < |reference|
    ensures r.Ok? ==> 0 <= r.value.start <= r.value.end + 1 <= |reference| && r.value.epst == reference[r.value.start .. r.value.end + 1]
  {
    match m.mode
    case Eukaryote => Ok(SplicedExtension(m.codes, Motifs(m.beginSpliceSites, m.endSpliceSites), reference, startRtp, endRtp))
    case Codon => CodonExtension(m.codons, reference, startRtp, endRtp)
    case GeneSplicer => Ok(SplicedExtension(m.codes, Sites(m.acceptors, m.donors), reference, startRtp, endRtp))
    case Prokaryote => Ok(ProkaryoteExtension(m.codes, reference, startRtp, endRtp))
  }

  /** `findEpst`: the policy of the mapper's mode. */
  method FindEpst(m: Mapper, reference: string, startRtp: int, endRtp: int) returns (r: Result<Extension>)
    requires 0 <= startRtp <= endRtp <= |reference| && startRtp % 3 == 0
    ensures r == Extend(m, reference, startRtp, endRtp)
  {
    match m.mode {
      case Eukaryote =>
        var x := FindEpstSpliced(m.codes, Motifs(m.beginSpliceSites, m.endSpliceSites), reference, startRtp, endRtp);
        r := Ok(x);
      case Codon =>
        r := FindEpstCodon(m.codons, reference, startRtp, endRtp);
      case GeneSplicer =>
        var x := FindEpstSpliced(m.codes, Sites(m.acceptors, m.donors), reference, startRtp, endRtp);
        r := Ok(x);
      case Prokaryote =>
        var x := FindEpstProkaryote(m.codes, reference, startRtp, endRtp);
        r := Ok(x);
    }
  }

  /** The ePST holds the RTP: the RTP's text sits in the ePST's text at the distance between their starts. */
  lemma {:induction false} EpstHoldsRtp(m: Mapper, reference: string, startRtp: int, endRtp: int)
    requires 0 <= startRtp <= endRtp <= |reference| && startRtp % 3 == 0
    requires m.mode != Codon || m.codons >= 0
    ensures Extend(m, reference, startRtp, endRtp).Ok?
    ensures var x := Extend(m, reference, startRtp, endRtp).value;
      x.epst[startRtp - x.start .. endRtp - x.start] == reference[startRtp .. endRtp]
  {
    EpstSlice(reference, startRtp, endRtp, Extend(m, reference, startRtp, endRtp).value);
  }

  /** An ePST cut from the reference around the RTP holds the RTP at the distance between their starts. */
  lemma {:induction false} EpstSlice(reference: string, startRtp: int, endRtp: int, x: Extension)
    requires 0 <= x.start <= startRtp <= endRtp <= x.end + 1 <= |reference|
    requires x.epst == reference[x.start .. x.end + 1]
    ensures x.epst[startRtp - x.start .. endRtp - x.start] == reference[startRtp .. endRtp]
  {
    SliceWithin(reference, x.start, x.end + 1, startRtp, endRtp);
  }

  /** Cutting i..j out of the slice a..b is cutting it out of the whole text. */
  lemma {:induction false} SliceWithin(s: string, a: nat, b: nat, i: nat, j: nat)
    requires a <= i <= j <= b <= |s|
    ensures s[a .. b][i - a .. j - a] == s[i .. j]
  {
    assert forall n :: 0 <= n < j - i ==> s[a .. b][i - a .. j - a][n] == s[i .. j][n];
  }

  // ---------------------------------------------------------------------------
  // Coordinates

  /** The RTP and ePST coordinates of one match. */
  datatype Placement = Placement(startRtp: int, endRtp: int, startEpst: int, endEpst: int)

  function Abs(x: int): nat {
    if x < 0 then -x else x
  }

  /**
   * The coordinate transform of `search`: reverse frames mirror each
   * coordinate in the length of the frame, the forward frames named "?2" and
   * "?3" shift by one and two; starts are clamped to 0 and ends to the last
   * base, then both starts and the ePST end become one-based while the RTP end
   * is left as it is.
   */
  function Place(frame: string, length: int, c: Placement): (r: Placement)
    requires |frame| > 0
  {
    var shifted :=
      if frame[0] == 'R' then Placement(length - c.startRtp, length - c.endRtp, length - c.startEpst, length - c.endEpst)
      else if frame[1..] == "2" then Placement(c.startRtp + 1, c.endRtp + 1, c.startEpst + 1, c.endEpst + 1)
      else if frame[1..] == "3" then Placement(c.startRtp + 2, c.endRtp + 2, c.startEpst + 2, c.endEpst + 2)
      else c;
    Placement(
      Max(shifted.startRtp, 0) + 1,
      Min(shifted.endRtp, length - 1),
      Max(shifted.startEpst, 0) + 1,
      Min(shifted.endEpst, length - 1) + 1)
  }

  /** The transform keeps the starts equal exactly when they were equal: what decides whether a start codon is reported. */
  lemma {:induction false} PlaceKeepsStarts(frame: string, length: int, c: Placement)
    requires |frame| > 0 && 0 <= c.startRtp <= length && 0 <= c.startEpst <= length
    ensures var r := Place(frame, length, c);
      r.startRtp == r.startEpst <==> c.startRtp == c.startEpst
  {
  }

  /**
   * In the first frame and in the reverse frames nothing is clamped away, and
   * the reported ePST length, the distance between the one-based ends, is one
   * less than the number of bases in the ePST.
   */
  lemma {:induction false} EpstLengthOneShort(frame: string, length: int, c: Placement)
    requires |frame| > 0 && (frame == F1 || frame[0] == 'R')
    requires 0 <= c.startEpst <= c.endEpst < length && 0 < c.endEpst
    ensures var r := Place(frame, length, c);
      Abs(r.startEpst - r.endEpst) == (c.endEpst + 1 - c.startEpst) - 1
  {
  }

  /** In a reverse frame the one-based coordinates run from the higher to the lower. */
  lemma {:induction false} ReverseCoordinatesDescend(frame: string, length: int, c: Placement)
    requires |frame| > 0 && frame[0] == 'R'
    requires 0 <= c.startRtp < c.endRtp <= length && 0 <= c.startEpst < c.endEpst < length
    ensures var r := Place(frame, length, c);
      r.startRtp > r.endRtp && r.startEpst > r.endEpst
  {
  }

  // ---------------------------------------------------------------------------
  // Records

  /** One reported match: the columns of a line of the main output file. */
  datatype Record = Record(
    peptide: Peptide,
    sequenceName: string,
    startRtp: int,
    endRtp: int,
    strand: string,
    frame: string,
    rtp: string,
    startEpst: int,
    endEpst: int,
    epst: string,
    epstLength: int,
    translatedEpst: string,
    startCodon: string)

  /** The mapper can look up every pattern id of the automaton and translate every codon. */
  ghost predicate Ready(m: Mapper, nodes: seq<Node>) {
    |nodes| > 0 && EdgesInRange(nodes) && PatternsInRange(nodes, |m.peptides|) && ValuesNonEmpty(m.codonTable)
  }

  /**
   * The record for pattern id `p` matched after residue `i` of a frame: the
   * peptide at position p of the mapper's list, an RTP of three bases per
   * residue ending after codon i, its ePST, and the transformed coordinates.
   * Cutting the reference fails when the RTP would start before it or end past
   * it, when the frame name is empty, and when a start codon is to be reported
   * from an ePST shorter than a codon.
   */
  function Report(m: Mapper, reference: string, frame: string, name: string, i: nat, p: int): Result<Record>
    requires ValuesNonEmpty(m.codonTable) && 1 <= p <= |m.peptides|
  {
    var matched := m.peptides[p - 1];
    var endRtp := 3 * (i + 1);
    var startRtp := endRtp - 3 * |matched.sequence|;
    if startRtp < 0 || endRtp > |reference| then Err(IndexOutOfBounds)
    else
      match Extend(m, reference, startRtp, endRtp)
      case Err(e) => Err(e)
      case Ok(x) => Describe(m, reference, frame, name, matched, startRtp, endRtp, x)
  }

  /** The record once RTP and ePST are known: the coordinates are transformed and the start codon, if any, is cut. */
  function Describe(m: Mapper, reference: string, frame: string, name: string, matched: Peptide,
    startRtp: int, endRtp: int, x: Extension): Result<Record>
    requires ValuesNonEmpty(m.codonTable) && 0 <= startRtp <= endRtp <= |reference|
  {
    if frame == [] then Err(IndexOutOfBounds)
    else
      var c := Place(frame, |reference|, Placement(startRtp, endRtp, x.start, x.end));
      if c.startRtp != c.startEpst && |x.epst| < 3 then Err(IndexOutOfBounds)
      else
        Ok(Record(
          matched, name, c.startRtp, c.endRtp, if frame[0] == 'R' then "-" else "+", frame,
          reference[startRtp .. endRtp], c.startEpst, c.endEpst, x.epst, Abs(c.startEpst - c.endEpst),
          Residues(m.codonTable, x.epst), if c.startRtp == c.startEpst then "-" else x.epst[..3]))
  }

  /**
   * `record` describes a match of `matched` whose RTP is bases
   * startRtp..endRtp and whose ePST is `x`: it names the peptide, the frame
   * and the sequence, holds the RTP, the ePST and its translation, the
   * coordinates of both as transformed for the frame, the distance between
   * the ePST's transformed ends as its length, strand "-" exactly for reverse
   * frames and "+" otherwise, and "-" as its start codon exactly when the ePST
   * starts where the RTP does, the first codon of the ePST otherwise.
   */
  predicate Describes(m: Mapper, reference: string, frame: string, name: string, matched: Peptide,
    startRtp: int, endRtp: int, x: Extension, record: Record)
    requires ValuesNonEmpty(m.codonTable) && 0 <= startRtp <= endRtp <= |reference|
  {
    record.peptide == matched && record.frame == frame && record.sequenceName == name && frame != [] &&
    record.rtp == reference[startRtp .. endRtp] &&
    record.epst == x.epst && record.translatedEpst == Residues(m.codonTable, x.epst) &&
    Placement(record.startRtp, record.endRtp, record.startEpst, record.endEpst) ==
      Place(frame, |reference|, Placement(startRtp, endRtp, x.start, x.end)) &&
    record.epstLength == Abs(record.startEpst - record.endEpst) &&
    (record.strand == "-" <==> frame[0] == 'R') && (record.strand == "-" || record.strand == "+") &&
    (record.startCodon == "-" <==> x.start == startRtp) &&
    (x.start != startRtp ==> 3 <= |x.epst| && record.startCodon == x.epst[..3])
  }

  /**
   * A record reported for the peptide at position p of the mapper's list
   * after codon i describes the RTP of three bases per residue that ends
   * after codon i, and the ePST the mapper's policy gives for that RTP.
   */
  lemma {:induction false} ReportShape(m: Mapper, reference: string, frame: string, name: string, i: nat, p: int)
    requires ValuesNonEmpty(m.codonTable) && 1 <= p <= |m.peptides|
    ensures var r := Report(m, reference, frame, name, i, p);
      var endRtp := 3 * (i + 1);
      var startRtp := endRtp - 3 * |m.peptides[p - 1].sequence|;
      r.Ok? ==>
        0 <= startRtp <= endRtp <= |reference| && startRtp % 3 == 0 && Extend(m, reference, startRtp, endRtp).Ok? &&
        Describes(m, reference, frame, name, m.peptides[p - 1], startRtp, endRtp, Extend(m, reference, startRtp, endRtp).value, r.value)
  {
    var matched := m.peptides[p - 1];
    var endRtp := 3 * (i + 1);
    var startRtp := endRtp - 3 * |matched.sequence|;
    var r := Report(m, reference, frame, name, i, p);
    if r.Ok? {
      assert 0 <= startRtp && endRtp <= |reference|;
      assert startRtp == 3 * (i + 1 - |matched.sequence|);
      var x := Extend(m, reference, startRtp, endRtp).value;
      assert r == Describe(m, reference, frame, name, matched, startRtp, endRtp, x);
      DescribeShape(m, reference, frame, name, matched, startRtp, endRtp, x);
    }
  }

  /** `ReportShape` once RTP and ePST are known: a record described succeeds in describing them. */
  lemma {:induction false} DescribeShape(m: Mapper, reference: string, frame: string, name: string, matched: Peptide,
    startRtp: int, endRtp: int, x: Extension)
    requires ValuesNonEmpty(m.codonTable) && 0 <= startRtp <= endRtp <= |reference| && 0 <= x.start <= |reference|
    ensures var r := Describe(m, reference, frame, name, matched, startRtp, endRtp, x);
      r.Ok? ==> Describes(m, reference, frame, name, matched, startRtp, endRtp, x, r.value)
  {
    var r := Describe(m, reference, frame, name, matched, startRtp, endRtp, x);
    if r.Ok? {
      PlaceKeepsStarts(frame, |reference|, Placement(startRtp, endRtp, x.start, x.end));
      if x.start != startRtp {
        assert |r.value.startCodon| == 3;
      }
    }
  }

  /**
   * A record is written whenever the matched peptide is not empty and fits
   * into the residues read so far, the frame has a name, and a codon count,
   * if one is used, is not negative.
   */
  lemma {:induction false} ReportSucceeds(m: Mapper, reference: string, frame: string, name: string, i: nat, p: int)
    requires ValuesNonEmpty(m.codonTable) && 1 <= p <= |m.peptides|
    requires 0 < |m.peptides[p - 1].sequence| <= i + 1 && 3 * (i + 1) <= |reference|
    requires frame != [] && (m.mode != Codon || m.codons >= 0)
    ensures Report(m, reference, frame, name, i, p).Ok?
  {
    var endRtp := 3 * (i + 1);
    var startRtp := endRtp - 3 * |m.peptides[p - 1].sequence|;
    assert startRtp == 3 * (i + 1 - |m.peptides[p - 1].sequence|);
    EpstHoldsRtp(m, reference, startRtp, endRtp);
    var x := Extend(m, reference, startRtp, endRtp).value;
    assert |x.epst| >= endRtp - startRtp >= 3;
  }

  /** The tail of the match branch of `search`: coordinates, translation of the ePST and start codon. */
  method DescribeMatch(m: Mapper, reference: string, frame: string, name: string, matched: Peptide,
    startRtp: int, endRtp: int, x: Extension) returns (r: Result<Record>)
    requires ValuesNonEmpty(m.codonTable) && 0 <= startRtp <= endRtp <= |reference|
    ensures r == Describe(m, reference, frame, name, matched, startRtp, endRtp, x)
  {
    if frame == [] {
      return Err(IndexOutOfBounds);
    }
    var rtp := reference[startRtp .. endRtp];
    var c := Place(frame, |reference|, Placement(startRtp, endRtp, x.start, x.end));
    var strand := if frame[0] == 'R' then "-" else "+";
    var translated := TranslateSequence(m.codonTable, x.epst);
    assert translated == Residues(m.codonTable, x.epst);
    var startCodon := "-";
    if c.startRtp != c.startEpst {
      if |x.epst| < 3 {
        return Err(IndexOutOfBounds);
      }
      startCodon := x.epst[..3];
    }
    r := Ok(Record(
      matched, name, c.startRtp, c.endRtp, strand, frame, rtp, c.startEpst, c.endEpst, x.epst,
      Abs(c.startEpst - c.endEpst), translated, startCodon));
  }

  /** The match branch of `search`: the RTP from the match position and the peptide's length, then its ePST and record. */
  method ReportMatch(m: Mapper, reference: string, frame: string, name: string, i: nat, p: int) returns (r: Result<Record>)
    requires ValuesNonEmpty(m.codonTable) && 1 <= p <= |m.peptides|
    ensures r == Report(m, reference, frame, name, i, p)
  {
    var matched := m.peptides[p - 1];
    var endRtp := 3 * i;
    endRtp := endRtp + 3;
    var length := |matched.sequence| * 3;
    var startRtp := endRtp - length;
    assert endRtp == 3 * (i + 1) && startRtp == endRtp - 3 * |matched.sequence|;
    if startRtp < 0 || endRtp > |reference| {
      return Err(IndexOutOfBounds);
    }
    var x := FindEpst(m, reference, startRtp, endRtp);
    assert x == Extend(m, reference, startRtp, endRtp);
    if x.Err? {
      return Err(x.error);
    }
    r := DescribeMatch(m, reference, frame, name, matched, startRtp, endRtp, x.value);
  }

  // ---------------------------------------------------------------------------
  // Scanning a frame

  /** How many residues the scan feeds: all but the last one. */
  function ScanLength(residues: nat): nat {
    if residues == 0 then 0 else residues - 1
  }

  /**
   * The records of the first n residues of a translated frame, in order: after
   * each residue the automaton's state is the state after the residues read so
   * far, and a pattern id there gives a record. The first failure ends the scan.
   */
  function Reports(m: Mapper, nodes: seq<Node>, peptide: string, reference: string, frame: string, name: string, n: nat)
    : (r: Result<seq<Record>>)
    requires Ready(m, nodes) && n <= |peptide|
    decreases n
  {
    if n == 0 then Ok([])
    else
      match Reports(m, nodes, peptide, reference, frame, name, n - 1)
      case Err(e) => Err(e)
      case Ok(records) =>
        var p := nodes[Run(nodes, peptide[..n])].pattern;
        if p == -1 then Ok(records)
        else
          match Report(m, reference, frame, name, n - 1, p)
          case Err(e) => Err(e)
          case Ok(record) => Ok(records + [record])
  }

  /** Once the scan has failed it stays failed. */
  lemma {:induction false} ReportsStayFailed(m: Mapper, nodes: seq<Node>, peptide: string, reference: string, frame: string,
    name: string, n: nat, n': nat)
    requires Ready(m, nodes) && n <= n' <= |peptide|
    requires Reports(m, nodes, peptide, reference, frame, name, n).Err?
    ensures Reports(m, nodes, peptide, reference, frame, name, n') == Reports(m, nodes, peptide, reference, frame, name, n)
    decreases n' - n
  {
    if n < n' {
      ReportsStayFailed(m, nodes, peptide, reference, frame, name, n, n' - 1);
    }
  }

  /** One residue of the scan: the automaton steps on residue i, and a pattern id there is reported. */
  method ScanResidue(m: Mapper, nodes: seq<Node>, peptide: string, reference: string, frame: string, name: string,
    i: nat, state: nat, records: seq<Record>) returns (next: nat, r: Result<seq<Record>>)
    requires Ready(m, nodes) && i < |peptide|
    requires state == Run(nodes, peptide[..i]) && Reports(m, nodes, peptide, reference, frame, name, i) == Ok(records)
    ensures next == Run(nodes, peptide[..i + 1])
    ensures r == Reports(m, nodes, peptide, reference, frame, name, i + 1)
  {
    assert peptide[..i + 1][..i] == peptide[..i];
    next := NextState(nodes, state, peptide[i]);
    var p := nodes[next].pattern;
    r := Ok(records);
    if p != -1 {
      var record := ReportMatch(m, reference, frame, name, i, p);
      if record.Err? {
        return next, Err(record.error);
      }
      r := Ok(records + [record.value]);
    }
  }

  /**
   * `search` over one frame: the automaton state starts at the root and is
   * never reset, and residues 0 .. |peptide| - 2 are fed one at a time.
   */
  method SearchFrame(m: Mapper, nodes: seq<Node>, peptide: string, reference: string, frame: string, name: string)
    returns (r: Result<seq<Record>>)
    requires Ready(m, nodes)
    ensures r == Reports(m, nodes, peptide, reference, frame, name, ScanLength(|peptide|))
  {
    var state := 0;
    var records: seq<Record> := [];
    var i := 0;
    while i < |peptide| - 1
      invariant 0 <= i <= ScanLength(|peptide|)
      invariant state == Run(nodes, peptide[..i])
      invariant Reports(m, nodes, peptide, reference, frame, name, i) == Ok(records)
    {
      var step;
      state, step := ScanResidue(m, nodes, peptide, reference, frame, name, i, state, records);
      if step.Err? {
        ReportsStayFailed(m, nodes, peptide, reference, frame, name, i + 1, ScanLength(|peptide|));
        return step;
      }
      records := step.value;
      i := i + 1;
    }
    r := Ok(records);
  }

  /** The scan never looks at the last residue: frames that differ only there give the same records. */
  lemma {:induction false} LastResidueIgnored(m: Mapper, nodes: seq<Node>, peptide: string, a: char, b: char,
    reference: string, frame: string, name: string, n: nat)
    requires Ready(m, nodes) && n <= |peptide|
    ensures Reports(m, nodes, peptide + [a], reference, frame, name, n) == Reports(m, nodes, peptide + [b], reference, frame, name, n)
    decreases n
  {
    assert (peptide + [a])[..n] == peptide[..n] == (peptide + [b])[..n];
    ReportsAgree(m, nodes, peptide + [a], peptide + [b], reference, frame, name, n);
  }

  /** The records of the first n residues depend only on those residues. */
  lemma {:induction false} ReportsAgree(m: Mapper, nodes: seq<Node>, left: string, right: string,
    reference: string, frame: string, name: string, n: nat)
    requires Ready(m, nodes) && n <= |left| && n <= |right| && left[..n] == right[..n]
    ensures Reports(m, nodes, left, reference, frame, name, n) == Reports(m, nodes, right, reference, frame, name, n)
    decreases n
  {
    if n > 0 {
      assert left[..n - 1] == left[..n][..n - 1] == right[..n][..n - 1] == right[..n - 1];
      ReportsAgree(m, nodes, left, right, reference, frame, name, n - 1);
    }
  }

  /**
   * A match of peptide p, whose sequence ends the first n residues of the
   * translation of `reference`, gives a record whose RTP translates back to
   * that sequence.
   */
  lemma {:induction false} ReportFaithful(m: Mapper, reference: string, frame: string, name: string, n: nat, p: int)
    requires ValuesNonEmpty(m.codonTable) && 0 < n <= |reference| / 3 && 1 <= p <= |m.peptides|
    requires IsSuffix(m.peptides[p - 1].sequence, Residues(m.codonTable, reference)[..n])
    ensures var r := Report(m, reference, frame, name, n - 1, p); r.Ok? ==> Faithful(m, r.value, frame, name)
  {
    SuffixTranslates(m.codonTable, reference, n, m.peptides[p - 1].sequence);
    ReportedRtp(m, reference, frame, name, n, p);
  }

  /** A record reported after n residues names the peptide, the frame and the sequence, and holds the RTP of its last codons. */
  lemma {:induction false} ReportedRtp(m: Mapper, reference: string, frame: string, name: string, n: nat, p: int)
    requires ValuesNonEmpty(m.codonTable) && 0 < n && 1 <= p <= |m.peptides|
    ensures var r := Report(m, reference, frame, name, n - 1, p);
      var l := |m.peptides[p - 1].sequence|;
      r.Ok? ==>
        l <= n && 3 * n <= |reference| &&
        r.value.peptide == m.peptides[p - 1] && r.value.frame == frame && r.value.sequenceName == name &&
        r.value.rtp == reference[3 * (n - l) .. 3 * n]
  {
    ReportShape(m, reference, frame, name, n - 1, p);
  }

  /** A sequence ending the first n residues is the translation of the bases of its last |s| codons. */
  lemma {:induction false} SuffixTranslates(codonTable: map<string, string>, reference: string, n: nat, s: string)
    requires ValuesNonEmpty(codonTable) && n <= |reference| / 3
    requires IsSuffix(s, Residues(codonTable, reference)[..n])
    ensures |s| <= n && Residues(codonTable, reference[3 * (n - |s|) .. 3 * n]) == s
  {
    TailTranslates(codonTable, reference, n, |s|);
  }

  /** The last l of the first n residues of a translation are the translation of their 3l bases. */
  lemma {:induction false} TailTranslates(codonTable: map<string, string>, reference: string, n: nat, l: nat)
    requires ValuesNonEmpty(codonTable) && l <= n <= |reference| / 3
    ensures Residues(codonTable, reference[3 * (n - l) .. 3 * n]) == Residues(codonTable, reference)[..n][n - l..]
  {
    var peptide := Residues(codonTable, reference);
    ResiduesSlice(codonTable, reference, n - l, n);
    assert peptide[n - l .. n] == peptide[..n][n - l..];
  }

  /** Every record of a scan of a translated frame is faithful, and the scan fails only when it does not `Succeed`. */
  lemma {:induction false} ReportsTranslateBack(m: Mapper, nodes: seq<Node>, reference: string, frame: string, name: string, n: nat)
    requires Ready(m, nodes) && Sound(nodes, m.peptides) && n <= |reference| / 3
    ensures var r := Reports(m, nodes, Residues(m.codonTable, reference), reference, frame, name, n);
      (r.Ok? ==> AllFaithfulIn(m, r.value, frame, name)) && (Succeeds(m, frame) ==> r.Ok?)
    decreases n
  {
    if n > 0 {
      ReportsTranslateBack(m, nodes, reference, frame, name, n - 1);
      ReportStepTranslatesBack(m, nodes, reference, frame, name, n);
    }
  }

  /** One step of `ReportsTranslateBack`: the record a match at residue n adds is faithful, and it is made when the scan `Succeeds`. */
  lemma {:induction false} ReportStepTranslatesBack(m: Mapper, nodes: seq<Node>, reference: string, frame: string, name: string, n: nat)
    requires Ready(m, nodes) && Sound(nodes, m.peptides) && 0 < n <= |reference| / 3
    requires var before := Reports(m, nodes, Residues(m.codonTable, reference), reference, frame, name, n - 1);
      (before.Ok? ==> AllFaithfulIn(m, before.value, frame, name)) && (Succeeds(m, frame) ==> before.Ok?)
    ensures var r := Reports(m, nodes, Residues(m.codonTable, reference), reference, frame, name, n);
      (r.Ok? ==> AllFaithfulIn(m, r.value, frame, name)) && (Succeeds(m, frame) ==> r.Ok?)
  {
    var peptide := Residues(m.codonTable, reference);
    var before := Reports(m, nodes, peptide, reference, frame, name, n - 1);
    var p := nodes[Run(nodes, peptide[..n])].pattern;
    if p != -1 {
      MatchReported(m, nodes, reference, frame, name, n);
      var r := Report(m, reference, frame, name, n - 1, p);
      if before.Ok? && r.Ok? {
        AppendFaithful(m, before.value, r.value, frame, name);
      }
    }
  }

  /** A pattern id in the state after residue n gives a faithful record, which is made when the scan `Succeeds`. */
  lemma {:induction false} MatchReported(m: Mapper, nodes: seq<Node>, reference: string, frame: string, name: string, n: nat)
    requires Ready(m, nodes) && Sound(nodes, m.peptides) && 0 < n <= |reference| / 3
    requires nodes[Run(nodes, Residues(m.codonTable, reference)[..n])].pattern != -1
    ensures var p := nodes[Run(nodes, Residues(m.codonTable, reference)[..n])].pattern;
      var r := Report(m, reference, frame, name, n - 1, p);
      (r.Ok? ==> Faithful(m, r.value, frame, name)) && (Succeeds(m, frame) ==> r.Ok?)
  {
    var read := Residues(m.codonTable, reference)[..n];
    var p := nodes[Run(nodes, read)].pattern;
    MatchSound(nodes, m.peptides, read);
    assert 1 <= p <= |m.peptides| && IsSuffix(m.peptides[p - 1].sequence, read);
    ReportFaithful(m, reference, frame, name, n, p);
    if Succeeds(m, frame) {
      ReportSucceeds(m, reference, frame, name, n - 1, p);
    }
  }

  /** Every one of `records` is a faithful record of frame `frame` of sequence `name`. */
  ghost predicate AllFaithfulIn(m: Mapper, records: seq<Record>, frame: string, name: string) {
    forall k :: 0 <= k < |records| ==> Faithful(m, records[k], frame, name)
  }

  lemma {:induction false} AppendFaithful(m: Mapper, records: seq<Record>, record: Record, frame: string, name: string)
    requires AllFaithfulIn(m, records, frame, name) && Faithful(m, record, frame, name)
    ensures AllFaithfulIn(m, records + [record], frame, name)
  {
  }

  /** A record of frame `frame` of sequence `name` whose RTP translates to the peptide it names. */
  ghost predicate Faithful(m: Mapper, record: Record, frame: string, name: string) {
    ValuesNonEmpty(m.codonTable) &&
    record.frame == frame && record.sequenceName == name &&
    Residues(m.codonTable, record.rtp) == record.peptide.sequence
  }

  /** What a scan needs in order to report every match: a named frame, a usable codon count and no empty peptide. */
  predicate Succeeds(m: Mapper, frame: string) {
    frame != [] && (m.mode != Codon || m.codons >= 0) &&
    forall k :: 0 <= k < |m.peptides| ==> m.peptides[k].sequence != []
  }

  // ---------------------------------------------------------------------------
  // Searching the six frames of a reference sequence

  /** A reference sequence: its identifier and its bases. */
  datatype Reference = Reference(id: string, sequence: string)

  /** The frames in the order they are searched. */
  const Frames: seq<string> := [F1, F2, F3, R1, R2, R3]

  /** The records of one frame of the upper-cased reference `f1`: the frame is translated and scanned. */
  function FrameRecords(m: Mapper, nodes: seq<Node>, f1: string, frame: string, name: string): Result<seq<Record>>
    requires Ready(m, nodes)
  {
    var f := ReadingFrame(f1, frame);
    var peptide := Residues(m.codonTable, f);
    Reports(m, nodes, peptide, f, frame, name, ScanLength(|peptide|))
  }

  /** Records of successive frames one after the other; the first failure ends the search. */
  function Then(a: Result<seq<Record>>, b: Result<seq<Record>>): (r: Result<seq<Record>>)
    ensures r.Ok? <==> a.Ok? && b.Ok?
    ensures r.Ok? ==> r.value == a.value + b.value
    ensures a.Err? ==> r == a
  {
    if a.Err? then a else if b.Err? then b else Ok(a.value + b.value)
  }

  /** The records of a reference sequence: frames F1, F2, F3, R1, R2 and R3 of its upper-cased bases, in that order. */
  function Searched(m: Mapper, nodes: seq<Node>, reference: Reference): Result<seq<Record>>
    requires Ready(m, nodes)
  {
    var f1 := Upper(reference.sequence);
    var name := reference.id;
    Then(FrameRecords(m, nodes, f1, F1, name),
    Then(FrameRecords(m, nodes, f1, F2, name),
    Then(FrameRecords(m, nodes, f1, F3, name),
    Then(FrameRecords(m, nodes, f1, R1, name),
    Then(FrameRecords(m, nodes, f1, R2, name),
         FrameRecords(m, nodes, f1, R3, name))))))
  }

  /** One frame of `search(BioSequence)`: cut the frame, translate it, scan it. */
  method SearchIn(m: Mapper, nodes: seq<Node>, f1: string, frame: string, name: string) returns (r: Result<seq<Record>>)
    requires Ready(m, nodes)
    ensures r == FrameRecords(m, nodes, f1, frame, name)
  {
    var f := ReadingFrame(f1, frame);
    var peptide := TranslateSequence(m.codonTable, f);
    assert peptide == Residues(m.codonTable, f);
    r := SearchFrame(m, nodes, peptide, f, frame, name);
  }

  /** `search(BioSequence)`: the six frames are searched in turn, and a failure stops the search. */
  method Search(m: Mapper, nodes: seq<Node>, reference: Reference) returns (r: Result<seq<Record>>)
    requires Ready(m, nodes)
    ensures r == Searched(m, nodes, reference)
  {
    var f1 := Upper(reference.sequence);
    var name := reference.id;
    var a := SearchIn(m, nodes, f1, F1, name);
    if a.Err? { return a; }
    var b := SearchIn(m, nodes, f1, F2, name);
    if b.Err? { return b; }
    var c := SearchIn(m, nodes, f1, F3, name);
    if c.Err? { return c; }
    var d := SearchIn(m, nodes, f1, R1, name);
    if d.Err? { return d; }
    var e := SearchIn(m, nodes, f1, R2, name);
    if e.Err? { return e; }
    var f := SearchIn(m, nodes, f1, R3, name);
    if f.Err? { return f; }
    r := Ok(a.value + (b.value + (c.value + (d.value + (e.value + f.value)))));
  }

  /** Every record of a frame is faithful, and no record fails when the scan `Succeeds`. */
  lemma {:induction false} FrameRecordsFaithful(m: Mapper, nodes: seq<Node>, f1: string, frame: string, name: string)
    requires Ready(m, nodes) && Sound(nodes, m.peptides)
    ensures var r := FrameRecords(m, nodes, f1, frame, name);
      (r.Ok? ==> AllFaithfulIn(m, r.value, frame, name)) && (Succeeds(m, frame) ==> r.Ok?)
  {
    var f := ReadingFrame(f1, frame);
    ReportsTranslateBack(m, nodes, f, frame, name, ScanLength(|Residues(m.codonTable, f)|));
  }

  /** Every record was found in one of the six frames of the sequence `name`, and its RTP translates to its peptide. */
  ghost predicate AllFaithful(m: Mapper, r: Result<seq<Record>>, name: string) {
    r.Ok? && forall k :: 0 <= k < |r.value| ==> r.value[k].frame in Frames && Faithful(m, r.value[k], r.value[k].frame, name)
  }

  lemma {:induction false} ThenFaithful(m: Mapper, a: Result<seq<Record>>, b: Result<seq<Record>>, name: string)
    requires AllFaithful(m, a, name) && AllFaithful(m, b, name)
    ensures AllFaithful(m, Then(a, b), name)
  {
    var r := Then(a, b).value;
    forall k | 0 <= k < |r|
      ensures r[k].frame in Frames && Faithful(m, r[k], r[k].frame, name)
    {
      if k < |a.value| {
        assert r[k] == a.value[k];
      } else {
        assert r[k] == b.value[k - |a.value|];
      }
    }
  }

  lemma {:induction false} FrameFaithful(m: Mapper, nodes: seq<Node>, f1: string, frame: string, name: string)
    requires Ready(m, nodes) && Sound(nodes, m.peptides) && frame in Frames
    requires m.mode != Codon || m.codons >= 0
    requires forall k :: 0 <= k < |m.peptides| ==> m.peptides[k].sequence != []
    ensures AllFaithful(m, FrameRecords(m, nodes, f1, frame, name), name)
  {
    FrameRecordsFaithful(m, nodes, f1, frame, name);
  }

  /**
   * With the mapper holding the peptide list the automaton was built from,
   * the search of a reference never fails and every record it writes names
   * the reference, one of the six frames, and a peptide its RTP translates to.
   */
  lemma {:induction false} SearchFaithful(m: Mapper, nodes: seq<Node>, reference: Reference)
    requires Ready(m, nodes) && Sound(nodes, m.peptides)
    requires m.mode != Codon || m.codons >= 0
    requires forall k :: 0 <= k < |m.peptides| ==> m.peptides[k].sequence != []
    ensures Searched(m, nodes, reference).Ok?
    ensures forall record :: record in Searched(m, nodes, reference).value ==>
      record.sequenceName == reference.id && record.frame in Frames &&
      Residues(m.codonTable, record.rtp) == record.peptide.sequence
  {
    var name := reference.id;
    SixFramesFaithful(m, nodes, Upper(reference.sequence), name);
    var r := Searched(m, nodes, reference);
    assert AllFaithful(m, r, name);
    forall record | record in r.value
      ensures record.sequenceName == reference.id && record.frame in Frames &&
        Residues(m.codonTable, record.rtp) == record.peptide.sequence
    {
      var k :| 0 <= k < |r.value| && r.value[k] == record;
      assert Faithful(m, r.value[k], r.value[k].frame, name);
    }
  }

  /** The records of the six frames, joined in order, are all faithful. */
  lemma {:induction false} SixFramesFaithful(m: Mapper, nodes: seq<Node>, f1: string, name: string)
    requires Ready(m, nodes) && Sound(nodes, m.peptides)
    requires m.mode != Codon || m.codons >= 0
    requires forall k :: 0 <= k < |m.peptides| ==> m.peptides[k].sequence != []
    ensures AllFaithful(m,
      Then(FrameRecords(m, nodes, f1, F1, name),
      Then(FrameRecords(m, nodes, f1, F2, name),
      Then(FrameRecords(m, nodes, f1, F3, name),
      Then(FrameRecords(m, nodes, f1, R1, name),
      Then(FrameRecords(m, nodes, f1, R2, name),
           FrameRecords(m, nodes, f1, R3, name)))))), name)
  {
    FrameFaithful(m, nodes, f1, F1, name);
    FrameFaithful(m, nodes, f1, F2, name);
    FrameFaithful(m, nodes, f1, F3, name);
    FrameFaithful(m, nodes, f1, R1, name);
    FrameFaithful(m, nodes, f1, R2, name);
    FrameFaithful(m, nodes, f1, R3, name);
    var r6 := FrameRecords(m, nodes, f1, R3, name);
    var r5 := Then(FrameRecords(m, nodes, f1, R2, name), r6);
    ThenFaithful(m, FrameRecords(m, nodes, f1, R2, name), r6, name);
    var r4 := Then(FrameRecords(m, nodes, f1, R1, name), r5);
    ThenFaithful(m, FrameRecords(m, nodes, f1, R1, name), r5, name);
    var r3 := Then(FrameRecords(m, nodes, f1, F3, name), r4);
    ThenFaithful(m, FrameRecords(m, nodes, f1, F3, name), r4, name);
    var r2 := Then(FrameRecords(m, nodes, f1, F2, name), r3);
    ThenFaithful(m, FrameRecords(m, nodes, f1, F2, name), r3, name);
    ThenFaithful(m, FrameRecords(m, nodes, f1, F1, name), r2, name);
  }

  // ---------------------------------------------------------------------------
  // Every match is reported

  /** A scan of n residues that does not fail extends the scan of n - 1 by the record of residue n, if any. */
  lemma {:induction false} ReportsStep(m: Mapper, nodes: seq<Node>, peptide: string, reference: string, frame: string,
    name: string, n: nat)
    requires Ready(m, nodes) && 0 < n <= |peptide|
    requires Reports(m, nodes, peptide, reference, frame, name, n).Ok?
    ensures Reports(m, nodes, peptide, reference, frame, name, n - 1).Ok?
    ensures var p := nodes[Run(nodes, peptide[..n])].pattern;
      (p != -1 ==> 1 <= p <= |m.peptides| && Report(m, reference, frame, name, n - 1, p).Ok?) &&
      Reports(m, nodes, peptide, reference, frame, name, n).value ==
        Reports(m, nodes, peptide, reference, frame, name, n - 1).value +
        (if p == -1 then [] else [Report(m, reference, frame, name, n - 1, p).value])
  {
  }

  /**
   * With an automaton that matches the mapper's list, a scan that does not
   * fail writes, for each of the first n residues whose prefix some peptide
   * ends, the record of the longest such peptide at that residue.
   */
  lemma {:induction false} MatchRecorded(m: Mapper, nodes: seq<Node>, peptide: string, reference: string, frame: string,
    name: string, n: nat, j: nat)
    requires Ready(m, nodes) && Matches(nodes, m.peptides) && 0 < j <= n <= |peptide|
    requires Reports(m, nodes, peptide, reference, frame, name, n).Ok?
    requires exists i :: 0 <= i < |m.peptides| && IsSuffix(m.peptides[i].sequence, peptide[..j])
    ensures var p := BestMatch(m.peptides, peptide[..j]);
      1 <= p <= |m.peptides| && Report(m, reference, frame, name, j - 1, p).Ok? &&
      Report(m, reference, frame, name, j - 1, p).value in Reports(m, nodes, peptide, reference, frame, name, n).value
    decreases n
  {
    ReportsStep(m, nodes, peptide, reference, frame, name, n);
    if j == n {
      assert nodes[Run(nodes, peptide[..n])].pattern == BestMatch(m.peptides, peptide[..n]);
      BestMatchSpec(m.peptides, peptide[..j]);
    } else {
      MatchRecorded(m, nodes, peptide, reference, frame, name, n - 1, j);
    }
  }

  /**
   * Conversely, with an automaton that matches the mapper's list, every record
   * of a scan is the record, at some residue, of the longest peptide ending the
   * residues read up to it.
   */
  lemma {:induction false} RecordMatched(m: Mapper, nodes: seq<Node>, peptide: string, reference: string, frame: string,
    name: string, n: nat, record: Record)
    requires Ready(m, nodes) && Matches(nodes, m.peptides) && n <= |peptide|
    requires Reports(m, nodes, peptide, reference, frame, name, n).Ok?
    requires record in Reports(m, nodes, peptide, reference, frame, name, n).value
    ensures exists j ::
      0 < j <= n && BestMatch(m.peptides, peptide[..j]) != -1 &&
      Report(m, reference, frame, name, j - 1, BestMatch(m.peptides, peptide[..j])) == Ok(record)
    decreases n
  {
    var before := Reports(m, nodes, peptide, reference, frame, name, n - 1);
    assert before.Ok?;
    if record in before.value {
      RecordMatched(m, nodes, peptide, reference, frame, name, n - 1, record);
    } else {
      assert nodes[Run(nodes, peptide[..n])].pattern == BestMatch(m.peptides, peptide[..n]);
    }
  }

  /** A record of one of the six frames is a record of the search. */
  lemma {:induction false} FrameInSearched(m: Mapper, nodes: seq<Node>, reference: Reference, frame: string)
    requires Ready(m, nodes) && frame in Frames && Searched(m, nodes, reference).Ok?
    ensures FrameRecords(m, nodes, Upper(reference.sequence), frame, reference.id).Ok?
    ensures forall record :: record in FrameRecords(m, nodes, Upper(reference.sequence), frame, reference.id).value ==>
      record in Searched(m, nodes, reference).value
  {
  }

  /**
   * With an automaton that matches the mapper's list, the search of a
   * reference writes, in each of the six frames and at every residue but the
   * last whose prefix some peptide ends, the record of the longest such peptide.
   */
  lemma {:induction false} SearchComplete(m: Mapper, nodes: seq<Node>, reference: Reference, frame: string, j: nat)
    requires Ready(m, nodes) && Sound(nodes, m.peptides) && Matches(nodes, m.peptides)
    requires m.mode != Codon || m.codons >= 0
    requires forall k :: 0 <= k < |m.peptides| ==> m.peptides[k].sequence != []
    requires frame in Frames
    requires var residues := Residues(m.codonTable, ReadingFrame(Upper(reference.sequence), frame));
      0 < j < |residues| && exists i :: 0 <= i < |m.peptides| && IsSuffix(m.peptides[i].sequence, residues[..j])
    ensures Searched(m, nodes, reference).Ok?
    ensures var f := ReadingFrame(Upper(reference.sequence), frame);
      var p := BestMatch(m.peptides, Residues(m.codonTable, f)[..j]);
      1 <= p <= |m.peptides| && Report(m, f, frame, reference.id, j - 1, p).Ok? &&
      Report(m, f, frame, reference.id, j - 1, p).value in Searched(m, nodes, reference).value
  {
    var f := ReadingFrame(Upper(reference.sequence), frame);
    var residues := Residues(m.codonTable, f);
    SearchFaithful(m, nodes, reference);
    FrameInSearched(m, nodes, reference, frame);
    MatchRecorded(m, nodes, residues, f, frame, reference.id, ScanLength(|residues|), j);
  }

  // ---------------------------------------------------------------------------
  // The list the mapper is given

  /**
   * The peptide list as the mapper receives it from the program's entry
   * point: the same list object the automaton's constructor sorted in place.
   */
  function SortedPeptides(list: seq<Peptide>): (r: seq<Peptide>)
    ensures |r| == |list|
  {
    var sorted := Sort(Numbered(list));
    assert |multiset(sorted)| == |multiset(Numbered(list))|;
    seq(|sorted|, k requires 0 <= k < |sorted| => sorted[k].peptide)
  }

  /** Two peptides read in the order p1 = "B", p2 = "A": sorting swaps them. */
  const Misordered: seq<Peptide> := [Peptide("p1", "B", 1.0, 1), Peptide("p2", "A", 1.0, 1)]

  /** Sorting puts p2 ("A") before p1 ("B"). */
  lemma {:induction false} MisorderedSorted()
    ensures SortedPeptides(Misordered) == [Misordered[1], Misordered[0]]
  {
    var e1, e2 := Entry(Misordered[0], 1), Entry(Misordered[1], 2);
    assert Numbered(Misordered) == [e1, e2];
    assert Sort([e1]) == [e1];
    assert [e1, e2][..1] == [e1];
    assert Less("A", "B");
    assert Sort(Numbered(Misordered)) == [e2, e1];
  }

  /**
   * As wired by the entry point, a scan of a frame whose first residue is A
   * finds "A" as pattern 2, looks position 2 up in the sorted list and
   * reports p1, whose sequence B is not what its RTP translates to.
   */
  lemma {:induction false} SortedLookupMisreports(m: Mapper, nodes: seq<Node>, reference: string, frame: string, name: string)
    requires Sound(nodes, Misordered) && forall i :: 0 <= i < |Misordered| ==> Recognises(nodes, Misordered, i)
    requires m.peptides == SortedPeptides(Misordered) && ValuesNonEmpty(m.codonTable)
    requires 6 <= |reference| && Residues(m.codonTable, reference)[0] == 'A'
    ensures Ready(m, nodes)
    ensures nodes[Run(nodes, "A")].pattern == 2 && m.peptides[1] == Misordered[0]
    ensures var r := Reports(m, nodes, Residues(m.codonTable, reference), reference, frame, name, 1);
      (frame != [] && (m.mode != Codon || m.codons >= 0) ==> r.Ok?) &&
      (r.Ok? ==> |r.value| == 1 && r.value[0].peptide.sequence == "B" && Residues(m.codonTable, r.value[0].rtp) == "A")
  {
    MisorderedSorted();
    MisorderedReady(m, nodes);
    MisorderedFindsA(nodes);
    var peptide := Residues(m.codonTable, reference);
    assert peptide[..1] == "A";
    MisorderedReport(m, nodes, reference, frame, name);
  }

  /** A sound automaton for the two peptides is ready for a mapper holding two peptides. */
  lemma {:induction false} MisorderedReady(m: Mapper, nodes: seq<Node>)
    requires Sound(nodes, Misordered) && |m.peptides| == 2 && ValuesNonEmpty(m.codonTable)
    ensures Ready(m, nodes)
  {
    forall k | 0 <= k < |nodes|
      ensures nodes[k].pattern == -1 || 1 <= nodes[k].pattern <= 2
    {
      assert PatternSoundAt(nodes, Misordered, k);
    }
  }

  /** Reading "A" ends in a state carrying pattern id 2, the position of "A" in the list as read. */
  lemma {:induction false} MisorderedFindsA(nodes: seq<Node>)
    requires Sound(nodes, Misordered) && Recognises(nodes, Misordered, 1)
    ensures nodes[Run(nodes, "A")].pattern == 2
  {
    var p := nodes[Run(nodes, "A")].pattern;
    assert 1 <= p <= 2 && Misordered[p - 1].sequence == "A";
  }

  /** The one-residue scan reports peptide 2 of the sorted list, p1, at the RTP of the first codon. */
  lemma {:induction false} MisorderedReport(m: Mapper, nodes: seq<Node>, reference: string, frame: string, name: string)
    requires Ready(m, nodes) && |m.peptides| == 2 && m.peptides[1] == Misordered[0]
    requires 6 <= |reference| && Residues(m.codonTable, reference)[0] == 'A'
    requires nodes[Run(nodes, Residues(m.codonTable, reference)[..1])].pattern == 2
    ensures var r := Reports(m, nodes, Residues(m.codonTable, reference), reference, frame, name, 1);
      (frame != [] && (m.mode != Codon || m.codons >= 0) ==> r.Ok?) &&
      (r.Ok? ==> |r.value| == 1 && r.value[0].peptide.sequence == "B" && Residues(m.codonTable, r.value[0].rtp) == "A")
  {
    var peptide := Residues(m.codonTable, reference);
    assert Reports(m, nodes, peptide, reference, frame, name, 0) == Ok([]);
    if frame != [] && (m.mode != Codon || m.codons >= 0) {
      ReportSucceeds(m, reference, frame, name, 0, 2);
    }
    var r := Report(m, reference, frame, name, 0, 2);
    if r.Ok? {
      assert r.value.peptide == m.peptides[1] && r.value.rtp == reference[0..3] by {
        ReportShape(m, reference, frame, name, 0, 2);
      }
      TailTranslates(m.codonTable, reference, 1, 1);
      assert peptide[..1] == "A";
    }
  }
}

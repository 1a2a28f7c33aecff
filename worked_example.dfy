/**
 * The F1 example of the mapper's own test (MapperTest.testSearchF1), worked
 * through the model with the start and stop codons of the standard genetic
 * code: the Prokaryote ePST of the RTP and the coordinates the mapper writes.
 */
module WorkedExample {
  import opened Translation
  import opened Mapping

  /** A motif of three bases occurs at `p` exactly when the three bases there spell it. */
  lemma {:induction false} CodonAt(reference: string, p: int, motif: string)
    requires 0 <= p && p + 3 <= |reference| && |motif| == 3
    ensures StartsWith(reference, p, motif) <==> [reference[p], reference[p + 1], reference[p + 2]] == motif
  {
    assert StartsWith(reference, p + 2, motif[2..]) <==> reference[p + 2] == motif[2] && StartsWith(reference, p + 3, motif[3..]);
    assert motif[3..] == [];
  }

  /** With codons of three bases, `contains` asks whether the codon at `p` is in the set. */
  lemma {:induction false} ContainsCodon(codons: set<string>, reference: string, p: int)
    requires 0 <= p && p + 3 <= |reference|
    requires forall m :: m in codons ==> |m| == 3
    ensures Contains(codons, reference, p) <==> [reference[p], reference[p + 1], reference[p + 2]] in codons
  {
    forall m | m in codons {
      CodonAt(reference, p, m);
    }
  }

  /** The reference of the mapper's own F1 example, in pieces of twelve bases. */
  const ExampleReference: string := "TAGATTGAATGA" + "AGGGTGACGATG" + "AATTCGGCCGTG" + "GCGAACGGCGAA" + "CGGGAATGATCT" + "AGGTAT"

  /** The start and stop codons of the standard genetic code. */
  const StandardCodes := Codes({"TTG", "CTG", "ATG"}, {"TAA", "TAG", "TGA"})

  /** The backward walk passes over a position whose codon is not a stop codon. */
  lemma {:induction false} StopBackPasses(stops: set<string>, reference: string, from: int)
    requires 0 < from && from + 3 <= |reference| && from % 3 == 0
    requires forall m :: m in stops ==> |m| == 3
    requires [reference[from], reference[from + 1], reference[from + 2]] !in stops
    ensures StopBack(stops, reference, from) == StopBack(stops, reference, from - 3)
  {
    ContainsCodon(stops, reference, from);
  }

  /** The forward walk to a start codon passes over a position whose codon is not one. */
  lemma {:induction false} StartForwardPasses(starts: set<string>, reference: string, from: int, limit: int)
    requires 0 <= from < limit && from + 3 <= |reference| && limit <= |reference|
    requires forall m :: m in starts ==> |m| == 3
    requires [reference[from], reference[from + 1], reference[from + 2]] !in starts
    ensures StartForward(starts, reference, from, limit) == StartForward(starts, reference, from + 3, limit)
  {
    ContainsCodon(starts, reference, from);
  }

  /** The forward walk to a stop codon passes over a position whose codon is not one. */
  lemma {:induction false} StopForwardPasses(stops: set<string>, reference: string, from: int)
    requires 0 <= from && from + 3 <= |reference|
    requires forall m :: m in stops ==> |m| == 3
    requires [reference[from], reference[from + 1], reference[from + 2]] !in stops
    ensures StopForward(stops, reference, from) == StopForward(stops, reference, from + 3)
  {
    ContainsCodon(stops, reference, from);
  }

  /** Back from 21, the nearest in-frame stop codon is the TGA at 9. */
  lemma {:induction false} ExampleStopBackNear()
    ensures StopBack(StandardCodes.stops, ExampleReference, 21) == 9
  {
    ContainsCodon(StandardCodes.stops, ExampleReference, 9);
    StopBackPasses(StandardCodes.stops, ExampleReference, 12);
    StopBackPasses(StandardCodes.stops, ExampleReference, 15);
    StopBackPasses(StandardCodes.stops, ExampleReference, 18);
    StopBackPasses(StandardCodes.stops, ExampleReference, 21);
  }

  /** Back from the RTP at 33, the nearest in-frame stop codon is still the TGA at 9. */
  lemma {:induction false} ExampleStopBack()
    ensures StopBack(StandardCodes.stops, ExampleReference, 33) == 9
  {
    ExampleStopBackNear();
    StopBackPasses(StandardCodes.stops, ExampleReference, 24);
    StopBackPasses(StandardCodes.stops, ExampleReference, 27);
    StopBackPasses(StandardCodes.stops, ExampleReference, 30);
    StopBackPasses(StandardCodes.stops, ExampleReference, 33);
  }

  /** Forward from that stop, the first start codon is the ATG at 21. */
  lemma {:induction false} ExampleStartForward()
    ensures StartForward(StandardCodes.starts, ExampleReference, 9, 33) == 21
  {
    ContainsCodon(StandardCodes.starts, ExampleReference, 21);
    StartForwardPasses(StandardCodes.starts, ExampleReference, 18, 33);
    StartForwardPasses(StandardCodes.starts, ExampleReference, 15, 33);
    StartForwardPasses(StandardCodes.starts, ExampleReference, 12, 33);
    StartForwardPasses(StandardCodes.starts, ExampleReference, 9, 33);
  }

  /** Forward from the end of the RTP at 45, the first stop codon is the TGA at 54. */
  lemma {:induction false} ExampleStopForward()
    ensures StopForward(StandardCodes.stops, ExampleReference, 45) == 54
  {
    ContainsCodon(StandardCodes.stops, ExampleReference, 54);
    StopForwardPasses(StandardCodes.stops, ExampleReference, 51);
    StopForwardPasses(StandardCodes.stops, ExampleReference, 48);
    StopForwardPasses(StandardCodes.stops, ExampleReference, 45);
  }

  /**
   * The F1 example of the mapper's own test: the RTP GTGGCGAACGGC at bases
   * 33..45 has the ePST ATGAATTCGGCCGTGGCGAACGGCGAACGGGAATGA at 21..56, and
   * is reported at one-based 34..45 with the ePST at 22..57, 35 bases apart.
   */
  lemma {:induction false} ExampleF1()
    ensures var x := ProkaryoteExtension(StandardCodes, ExampleReference, 33, 45);
      var r := Place(F1, |ExampleReference|, Placement(33, 45, x.start, x.end));
      x.start == 21 && x.end == 56 && x.epst == ExampleReference[21..57] &&
      r == Placement(34, 45, 22, 57) && Abs(r.startEpst - r.endEpst) == 35
  {
    ExampleStopBack();
    ExampleStartForward();
    ExampleStopForward();
  }
}

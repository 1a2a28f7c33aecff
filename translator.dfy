/**
 * Translation between nucleotides and residues: codon lookup, whole-sequence
 * translation, base complement, reverse complement and the six reading frames.
 * The translator is built from a codon table (codon -> residue); the complement
 * table is fixed.
 */
module Translation {
  import opened Outcomes

  // ---------------------------------------------------------------------------
  // Characters

  /** Upper-casing of one character, as `String.toUpperCase` does for ASCII letters. */
  function UpperChar(c: char): char {
    if 'a' <= c <= 'z' then (c as int - 32) as char else c
  }

  /** Upper-casing of a whole string, character by character. */
  function Upper(s: string): string {
    seq(|s|, i requires 0 <= i < |s| => UpperChar(s[i]))
  }

  /** The characters the complement table knows: A, C, G, T and N in either case. */
  predicate IsBase(c: char) {
    c in "ACGTNacgtn"
  }

  predicate AllBases(s: string) {
    forall i :: 0 <= i < |s| ==> IsBase(s[i])
  }

  /** Watson-Crick pairing on upper-case bases; N pairs with N. */
  function Pair(c: char): char {
    match c
    case 'A' => 'T'
    case 'C' => 'G'
    case 'G' => 'C'
    case 'T' => 'A'
    case _ => 'N'
  }

  // ---------------------------------------------------------------------------
  // Codons

  /** A codon table every entry of which has at least one character (the reader of the genetic-code file gives one). */
  predicate ValuesNonEmpty(codonTable: map<string, string>) {
    forall codon :: codon in codonTable ==> |codonTable[codon]| > 0
  }

  /** `translate`: the residue the table gives the codon, or "X" for a codon it does not know. */
  function Translate(codonTable: map<string, string>, codon: string): (r: string)
    ensures codon !in codonTable ==> r == "X"
    ensures ValuesNonEmpty(codonTable) ==> |r| > 0
  {
    if codon in codonTable then codonTable[codon] else "X"
  }

  /** The residue codon `k` of `s` translates to: the first character of `translate(s[3k..3k+3))`. */
  function ResidueAt(codonTable: map<string, string>, s: string, k: nat): char
    requires ValuesNonEmpty(codonTable)
    requires 3 * k + 3 <= |s|
  {
    Translate(codonTable, s[3 * k .. 3 * k + 3])[0]
  }

  /** The translation of `s`: one residue per whole codon, trailing one or two bases ignored. */
  function Residues(codonTable: map<string, string>, s: string): (r: string)
    requires ValuesNonEmpty(codonTable)
    ensures |r| == |s| / 3
  {
    seq(|s| / 3, k requires 0 <= k < |s| / 3 => ResidueAt(codonTable, s, k))
  }

  /**
   * `translateSequence`: a buffer of length |s|/3 is filled codon by codon,
   * for every i = 0, 3, 6, ... with i < |s| - 2.
   */
  method TranslateSequence(codonTable: map<string, string>, s: string) returns (r: string)
    requires ValuesNonEmpty(codonTable)
    ensures |r| == |s| / 3
    ensures forall k :: 0 <= k < |r| ==> r[k] == ResidueAt(codonTable, s, k)
  {
    var l := |s|;
    var buffer := new char[l / 3];
    var i := 0;
    while i < l - 2
      invariant 0 <= i && i % 3 == 0
      invariant i <= l || (l < 3 && i == 0)
      invariant i / 3 <= l / 3
      invariant forall k :: 0 <= k < i / 3 ==> buffer[k] == ResidueAt(codonTable, s, k)
    {
      buffer[i / 3] := Translate(codonTable, s[i .. i + 3])[0];
      i := i + 3;
    }
    r := buffer[..];
  }

  /** Translation of a prefix made of whole codons followed by the rest. */
  lemma {:induction false} ResiduesAppend(codonTable: map<string, string>, a: string, b: string)
    requires ValuesNonEmpty(codonTable)
    requires |a| % 3 == 0
    ensures Residues(codonTable, a + b) == Residues(codonTable, a) + Residues(codonTable, b)
  {
    var ab := a + b;
    var lhs, rhs := Residues(codonTable, ab), Residues(codonTable, a) + Residues(codonTable, b);
    assert |ab| / 3 == |a| / 3 + |b| / 3;
    forall k | 0 <= k < |lhs|
      ensures lhs[k] == rhs[k]
    {
      if k < |a| / 3 {
        assert ab[3 * k .. 3 * k + 3] == a[3 * k .. 3 * k + 3];
      } else {
        var j := k - |a| / 3;
        assert ab[3 * k .. 3 * k + 3] == b[3 * j .. 3 * j + 3];
      }
    }
  }

  /** The residues k .. m-1 of a translation are the translation of bases 3k .. 3m-1. */
  lemma {:induction false} ResiduesSlice(codonTable: map<string, string>, s: string, k: nat, m: nat)
    requires ValuesNonEmpty(codonTable)
    requires k <= m <= |s| / 3
    ensures Residues(codonTable, s)[k .. m] == Residues(codonTable, s[3 * k .. 3 * m])
  {
    var t := s[3 * k .. 3 * m];
    forall j | 0 <= j < m - k
      ensures Residues(codonTable, s)[k + j] == Residues(codonTable, t)[j]
    {
      assert t[3 * j .. 3 * j + 3] == s[3 * (k + j) .. 3 * (k + j) + 3];
    }
  }

  // ---------------------------------------------------------------------------
  // Complements

  const ComplementTable: map<string, string> :=
    map["A" := "T", "a" := "T", "C" := "G", "c" := "G", "G" := "C",
        "g" := "C", "T" := "A", "t" := "A", "N" := "N", "n" := "N"]

  /**
   * `complement`: the upper-case complement of a one-character string, or
   * `null` (None) for anything the complement table does not hold.
   */
  function Complement(nucleotide: string): (r: Option<string>)
    ensures r.Some? <==> |nucleotide| == 1 && IsBase(nucleotide[0])
    ensures r.Some? ==> r.value == [Pair(UpperChar(nucleotide[0]))]
  {
    if nucleotide in ComplementTable then Some(ComplementTable[nucleotide])
    else
      assert |nucleotide| == 1 ==> nucleotide == [nucleotide[0]];
      None
  }

  /** Complementing a base twice yields the upper-case form of the base. */
  lemma {:induction false} ComplementTwice(c: char)
    requires IsBase(c)
    ensures Complement([c]).Some?
    ensures Complement(Complement([c]).value) == Some([UpperChar(c)])
  {
    var once := Complement([c]).value;
    assert IsBase(once[0]);
  }

  /** What `StringBuilder.append` adds for the complement of `c`: the complement, or the text "null". */
  function ComplementText(c: char): string {
    match Complement([c])
    case Some(v) => v
    case None => "null"
  }

  /** The reverse complement as the source builds it: the complement texts of the characters, last first. */
  function ReverseComplement(s: string): string {
    if s == [] then [] else ReverseComplement(s[1..]) + ComplementText(s[0])
  }

  /** `getReverseComplement`: reverse the sequence, then append the complement of each character in turn. */
  method GetReverseComplement(s: string) returns (r: string)
    ensures r == ReverseComplement(s)
  {
    var n := |s|;
    var reversed := seq(n, i requires 0 <= i < n => s[n - 1 - i]);
    r := "";
    var i := 0;
    while i < n
      invariant 0 <= i <= n
      invariant r == ReverseComplement(s[n - i..])
    {
      assert s[n - i - 1..][1..] == s[n - i..];
      r := r + ComplementText(reversed[i]);
      i := i + 1;
    }
    assert s[0..] == s;
  }

  /** Over the base alphabet the reverse complement keeps the length and pairs position i with position |s|-1-i. */
  lemma {:induction false} ReverseComplementAt(s: string)
    requires AllBases(s)
    ensures |ReverseComplement(s)| == |s|
    ensures forall i :: 0 <= i < |s| ==> ReverseComplement(s)[i] == Pair(UpperChar(s[|s| - 1 - i]))
  {
    if s != [] {
      ReverseComplementAt(s[1..]);
    }
  }

  /** Reverse-complementing twice returns the upper-cased input. */
  lemma {:induction false} ReverseComplementTwice(s: string)
    requires AllBases(s)
    ensures AllBases(ReverseComplement(s))
    ensures ReverseComplement(ReverseComplement(s)) == Upper(s)
  {
    var r := ReverseComplement(s);
    ReverseComplementAt(s);
    forall i | 0 <= i < |r|
      ensures IsBase(r[i])
    {
      PairIsBase(s[|s| - 1 - i]);
    }
    ReverseComplementAt(r);
    var rr := ReverseComplement(r);
    forall i | 0 <= i < |s|
      ensures rr[i] == Upper(s)[i]
    {
      var j := |s| - 1 - i;
      assert rr[i] == Pair(UpperChar(r[j]));
      assert r[j] == Pair(UpperChar(s[i]));
      PairTwice(s[i]);
    }
  }

  lemma {:induction false} PairIsBase(c: char)
    requires IsBase(c)
    ensures IsBase(Pair(UpperChar(c)))
  {
  }

  lemma {:induction false} PairTwice(c: char)
    requires IsBase(c)
    ensures Pair(UpperChar(Pair(UpperChar(c)))) == UpperChar(c)
  {
  }

  // ---------------------------------------------------------------------------
  // Reading frames

  const F1: string := "F1"
  const F2: string := "F2"
  const F3: string := "F3"
  const R1: string := "R1"
  const R2: string := "R2"
  const R3: string := "R3"

  /**
   * `getReadingFrame`: forward frames drop 0, 1 or 2 leading characters; reverse
   * frames do the same to the reverse complement. The number dropped is clamped
   * to the length of the input; any frame name other than the first five acts as R3.
   */
  function ReadingFrame(s: string, frame: string): string {
    var length := |s|;
    if frame == F1 then s
    else if frame == F2 then s[Min(1, length)..]
    else if frame == F3 then s[Min(2, length)..]
    else if frame == R1 then ReverseComplement(s)
    else if frame == R2 then Drop(ReverseComplement(s), Min(1, length))
    else Drop(ReverseComplement(s), Min(2, length))
  }

  function Min(a: int, b: int): int {
    if a < b then a else b
  }

  /** `substring(k)` on a string at least k long. */
  function Drop(s: string, k: int): string
    requires 0 <= k
  {
    if k <= |s| then s[k..] else []
  }

  /** How many characters the frame drops: 0 for F1 and R1, 1 for F2 and R2, 2 otherwise. */
  function FrameOffset(frame: string): nat {
    if frame == F1 || frame == R1 then 0 else if frame == F2 || frame == R2 then 1 else 2
  }

  predicate IsForward(frame: string) {
    frame == F1 || frame == F2 || frame == F3
  }

  /**
   * Over the base alphabet, position i of a frame is base i + d of the input
   * (forward frames), or the pair of base |s|-1-(i+d) (reverse frames), where d
   * is the number of characters the frame drops.
   */
  lemma {:induction false} ReadingFrameAt(s: string, frame: string)
    requires AllBases(s)
    ensures var d := Min(FrameOffset(frame), |s|);
      var f := ReadingFrame(s, frame);
      |f| == |s| - d &&
      (IsForward(frame) ==> forall i :: 0 <= i < |f| ==> f[i] == s[i + d]) &&
      (!IsForward(frame) ==> forall i :: 0 <= i < |f| ==> f[i] == Pair(UpperChar(s[|s| - 1 - (i + d)])))
  {
    ReverseComplementAt(s);
  }
}

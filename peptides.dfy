/**
 * The peptides the automaton is built from, their natural order (the order of
 * their sequences, as `compareTo` gives it) and the stable sort that puts the
 * peptide list into that order before the automaton is built.
 */
module Peptides {

  /** A peptide: identifier, residue sequence, and probability and count, which are only passed through. */
  datatype Peptide = Peptide(id: string, sequence: string, probability: real, count: int)

  /** A peptide paired with its 1-based position in the list as it was read. */
  datatype Entry = Entry(peptide: Peptide, index: nat)

  /** `String.compareTo(b) < 0`: at the first differing position a is smaller, or a is a proper prefix of b. */
  predicate Less(a: string, b: string) {
    if a == [] then b != []
    else if b == [] then false
    else if a[0] != b[0] then a[0] < b[0]
    else Less(a[1..], b[1..])
  }

  lemma {:induction false} LessIrreflexive(a: string)
    ensures !Less(a, a)
  {
    if a != [] {
      LessIrreflexive(a[1..]);
    }
  }

  lemma {:induction false} LessTransitive(a: string, b: string, c: string)
    requires Less(a, b) && Less(b, c)
    ensures Less(a, c)
  {
    if a != [] && b != [] && c != [] && a[0] == b[0] && b[0] == c[0] {
      LessTransitive(a[1..], b[1..], c[1..]);
    }
  }

  lemma {:induction false} LessTotal(a: string, b: string)
    ensures Less(a, b) || Less(b, a) || a == b
  {
    if a != [] && b != [] && a[0] == b[0] {
      LessTotal(a[1..], b[1..]);
      if a[1..] == b[1..] {
        assert a == [a[0]] + a[1..] && b == [b[0]] + b[1..];
      }
    }
  }

  /** The order a stable sort leaves entries in: by sequence, equal sequences by original position. */
  predicate Before(x: Entry, y: Entry) {
    Less(x.peptide.sequence, y.peptide.sequence)
    || (x.peptide.sequence == y.peptide.sequence && x.index < y.index)
  }

  predicate StrictlySorted(s: seq<Entry>) {
    forall i, j :: 0 <= i < j < |s| ==> Before(s[i], s[j])
  }

  lemma {:induction false} BeforeTransitive(x: Entry, y: Entry, z: Entry)
    requires Before(x, y) && Before(y, z)
    ensures Before(x, z)
  {
    if Less(x.peptide.sequence, y.peptide.sequence) && Less(y.peptide.sequence, z.peptide.sequence) {
      LessTransitive(x.peptide.sequence, y.peptide.sequence, z.peptide.sequence);
    }
  }

  /** The list as read, each peptide numbered from 1. */
  function Numbered(peptides: seq<Peptide>): (r: seq<Entry>)
    ensures |r| == |peptides|
  {
    seq(|peptides|, i requires 0 <= i < |peptides| => Entry(peptides[i], i + 1))
  }

  /** Insertion after every entry whose sequence is not greater: this keeps equal sequences in arrival order. */
  function Insert(x: Entry, s: seq<Entry>): (r: seq<Entry>)
    ensures multiset(r) == multiset(s) + multiset{x}
  {
    if s == [] || Less(x.peptide.sequence, s[0].peptide.sequence) then [x] + s
    else
      assert s == [s[0]] + s[1..];
      [s[0]] + Insert(x, s[1..])
  }

  /**
   * The peptide list after `Collections.sort`, a stable sort by sequence. Any
   * stable sort gives the same order, so insertion sort stands for it here.
   */
  function Sort(s: seq<Entry>): (r: seq<Entry>)
    ensures multiset(r) == multiset(s)
  {
    if s == [] then []
    else
      assert s == s[..|s| - 1] + [s[|s| - 1]];
      Insert(s[|s| - 1], Sort(s[..|s| - 1]))
  }

  lemma {:induction false} InsertSorted(x: Entry, s: seq<Entry>)
    requires StrictlySorted(s)
    requires forall e :: e in s ==> e.index < x.index
    ensures StrictlySorted(Insert(x, s))
  {
    var r := Insert(x, s);
    if s == [] || Less(x.peptide.sequence, s[0].peptide.sequence) {
      forall j | 0 < j < |r|
        ensures Before(r[0], r[j])
      {
        if j > 1 {
          BeforeTransitive(x, s[0], s[j - 1]);
        }
      }
    } else {
      var t := s[1..];
      InsertSorted(x, t);
      LessTotal(x.peptide.sequence, s[0].peptide.sequence);
      assert Before(s[0], x);
      assert multiset(Insert(x, t)) == multiset(t) + multiset{x};
      forall j | 0 < j < |r|
        ensures Before(r[0], r[j])
      {
        assert r[j] in multiset(Insert(x, t));
        if r[j] != x {
          assert r[j] in multiset(t);
          assert r[j] in t;
          var k :| 0 <= k < |t| && t[k] == r[j];
          assert s[k + 1] == r[j];
        }
      }
    }
  }

  /** The sorted list holds the same entries, in sequence order, and equal sequences keep their original order. */
  lemma {:induction false} SortSorted(s: seq<Entry>)
    requires forall i, j :: 0 <= i < j < |s| ==> s[i].index < s[j].index
    ensures StrictlySorted(Sort(s))
  {
    if s != [] {
      var init := s[..|s| - 1];
      SortSorted(init);
      var x := s[|s| - 1];
      forall e | e in Sort(init)
        ensures e.index < x.index
      {
        assert e in multiset(Sort(init));
        assert e in init;
      }
      InsertSorted(x, Sort(init));
    }
  }

  /** Sorting the numbered list: a permutation, ordered by sequence, stable for equal sequences. */
  lemma {:induction false} SortNumbered(peptides: seq<Peptide>)
    ensures multiset(Sort(Numbered(peptides))) == multiset(Numbered(peptides))
    ensures StrictlySorted(Sort(Numbered(peptides)))
  {
    SortSorted(Numbered(peptides));
  }

  /**
   * The original index of the last entry whose sequence is `s`, or -1 when
   * there is none: the value a trie terminal ends up with when the entries are
   * inserted in order and each overwrites the terminal's pattern.
   */
  function LastIndex(entries: seq<Entry>, s: string): (r: int)
    ensures r == -1 <==> forall e :: e in entries ==> e.peptide.sequence != s
    ensures r != -1 ==> exists e :: e in entries && e.peptide.sequence == s && e.index == r
  {
    if entries == [] then -1
    else if entries[|entries| - 1].peptide.sequence == s then entries[|entries| - 1].index
    else
      assert entries == entries[..|entries| - 1] + [entries[|entries| - 1]];
      LastIndex(entries[..|entries| - 1], s)
  }

  /** In a list sorted stably, the last entry with a given sequence has the largest original index among them. */
  lemma {:induction false} LastIndexIsLargest(entries: seq<Entry>, s: string)
    requires StrictlySorted(entries)
    ensures forall e :: e in entries && e.peptide.sequence == s ==> e.index <= LastIndex(entries, s)
  {
    if entries != [] {
      var init, last := entries[..|entries| - 1], entries[|entries| - 1];
      assert StrictlySorted(init);
      LastIndexIsLargest(init, s);
      forall e | e in entries && e.peptide.sequence == s
        ensures e.index <= LastIndex(entries, s)
      {
        if last.peptide.sequence == s && e != last {
          var k :| 0 <= k < |entries| && entries[k] == e;
          assert Before(entries[k], last);
          LessIrreflexive(s);
        } else if e != last {
          assert e in init;
        }
      }
    }
  }

  /** An entry of the numbered list is the peptide at its own index. */
  lemma {:induction false} NumberedEntry(peptides: seq<Peptide>, e: Entry)
    requires e in multiset(Numbered(peptides))
    ensures 1 <= e.index <= |peptides| && peptides[e.index - 1] == e.peptide
  {
    assert e in Numbered(peptides);
  }

  /**
   * After the stable sort, the last entry with sequence `s` carries the largest
   * 1-based position at which `s` occurs in the list as read, or -1 when `s`
   * does not occur.
   */
  lemma {:induction false} SortedLastIndex(peptides: seq<Peptide>, s: string)
    ensures LastIndex(Sort(Numbered(peptides)), s) == -1 <==> forall i :: 0 <= i < |peptides| ==> peptides[i].sequence != s
    ensures LastIndex(Sort(Numbered(peptides)), s) != -1 ==>
      1 <= LastIndex(Sort(Numbered(peptides)), s) <= |peptides| &&
      peptides[LastIndex(Sort(Numbered(peptides)), s) - 1].sequence == s
    ensures forall i :: 0 <= i < |peptides| && peptides[i].sequence == s ==> i + 1 <= LastIndex(Sort(Numbered(peptides)), s)
  {
    var sorted := Sort(Numbered(peptides));
    SortNumbered(peptides);
    LastIndexFound(peptides, sorted, s);
    LastIndexCovers(peptides, sorted, s);
    var r := LastIndex(sorted, s);
    if r != -1 {
      assert peptides[r - 1].sequence == s;
    }
  }

  /** A last index found in a permutation of the numbered list is a 1-based position holding `s`. */
  lemma {:induction false} LastIndexFound(peptides: seq<Peptide>, sorted: seq<Entry>, s: string)
    requires multiset(sorted) == multiset(Numbered(peptides))
    ensures LastIndex(sorted, s) != -1 ==>
      1 <= LastIndex(sorted, s) <= |peptides| && peptides[LastIndex(sorted, s) - 1].sequence == s
  {
    var r := LastIndex(sorted, s);
    if r != -1 {
      var e :| e in sorted && e.peptide.sequence == s && e.index == r;
      assert e in multiset(sorted);
      NumberedEntry(peptides, e);
    }
  }

  /** In a stably sorted permutation of the numbered list, the last index bounds every position holding `s`. */
  lemma {:induction false} LastIndexCovers(peptides: seq<Peptide>, sorted: seq<Entry>, s: string)
    requires multiset(sorted) == multiset(Numbered(peptides)) && StrictlySorted(sorted)
    ensures forall i :: 0 <= i < |peptides| && peptides[i].sequence == s ==> i + 1 <= LastIndex(sorted, s)
  {
    var numbered := Numbered(peptides);
    LastIndexIsLargest(sorted, s);
    forall i | 0 <= i < |peptides| && peptides[i].sequence == s
      ensures i + 1 <= LastIndex(sorted, s)
    {
      OccursSorted(numbered, sorted, i);
      assert numbered[i].index == i + 1 && numbered[i].peptide == peptides[i];
    }
  }

  lemma {:induction false} OccursSorted(numbered: seq<Entry>, sorted: seq<Entry>, i: nat)
    requires multiset(sorted) == multiset(numbered)
    requires i < |numbered|
    ensures numbered[i] in sorted
  {
    assert numbered[i] in multiset(numbered);
  }
}

/**
 * What the built automaton reports, stated without it: after any text, the
 * state reached carries the 1-based position of the longest peptide whose
 * sequence ends the text (the last such position when several peptides share
 * that sequence), or -1 when no peptide ends the text. The proof goes through
 * three facts: every fail link is the deepest proper suffix state, reading a
 * text ends in the deepest state whose label ends the text, and every state's
 * pattern id is the answer for its own label.
 */
module Matching {
  import opened Peptides
  import opened Automaton
  import opened Construction

  // ---------------------------------------------------------------------------
  // The answer, without the automaton

  /**
   * r answers `text`: -1 when no peptide's sequence ends the text; otherwise
   * the 1-based position of a peptide whose sequence ends it, no other ending
   * peptide is longer, and no later peptide has the same sequence.
   */
  predicate IsBest(list: seq<Peptide>, text: string, r: int) {
    if r == -1 then forall i :: 0 <= i < |list| ==> !IsSuffix(list[i].sequence, text)
    else
      1 <= r <= |list| && IsSuffix(list[r - 1].sequence, text) &&
      (forall i :: 0 <= i < |list| && IsSuffix(list[i].sequence, text) ==> |list[i].sequence| <= |list[r - 1].sequence|) &&
      (forall i :: 0 <= i < |list| && list[i].sequence == list[r - 1].sequence ==> i < r)
  }

  /**
   * A reference answer computed over the list alone: scanning the list from
   * the front, keep the later peptide whenever it ends the text and is at
   * least as long as the one kept so far.
   */
  function BestMatch(list: seq<Peptide>, text: string): (r: int)
    ensures r == -1 || 1 <= r <= |list|
    decreases |list|
  {
    if list == [] then -1
    else
      var init := list[..|list| - 1];
      var b := BestMatch(init, text);
      var last := list[|list| - 1].sequence;
      if IsSuffix(last, text) && (b == -1 || |init[b - 1].sequence| <= |last|) then |list| else b
  }

  /** Two suffixes of one string with the same length are equal. */
  lemma {:induction false} SuffixSameLength(a: string, b: string, c: string)
    requires IsSuffix(a, c) && IsSuffix(b, c) && |a| == |b|
    ensures a == b
  {
  }

  /** The reference answer answers the text. */
  lemma {:induction false} BestMatchIsBest(list: seq<Peptide>, text: string)
    ensures IsBest(list, text, BestMatch(list, text))
    decreases |list|
  {
    if list != [] {
      var n := |list|;
      var init := list[..n - 1];
      var b := BestMatch(init, text);
      var last := list[n - 1].sequence;
      BestMatchIsBest(init, text);
      assert forall i :: 0 <= i < n - 1 ==> list[i] == init[i];
      if IsSuffix(last, text) && (b == -1 || |init[b - 1].sequence| <= |last|) {
        forall i | 0 <= i < n && list[i].sequence == last
          ensures i < n
        {
        }
        forall i | 0 <= i < n && IsSuffix(list[i].sequence, text)
          ensures |list[i].sequence| <= |last|
        {
        }
      } else if b != -1 {
        var best := init[b - 1].sequence;
        forall i | 0 <= i < n && list[i].sequence == best
          ensures i < b
        {
          if i == n - 1 {
            SuffixSameLength(last, best, text);
          }
        }
      }
    }
  }

  /** A text has only one answer. */
  lemma {:induction false} IsBestUnique(list: seq<Peptide>, text: string, r1: int, r2: int)
    requires IsBest(list, text, r1) && IsBest(list, text, r2)
    ensures r1 == r2
  {
    if r1 != -1 && r2 != -1 {
      SuffixSameLength(list[r1 - 1].sequence, list[r2 - 1].sequence, text);
    }
  }

  /** The answer only depends on which peptides end the text. */
  lemma {:induction false} IsBestSame(list: seq<Peptide>, a: string, b: string, r: int)
    requires forall i :: 0 <= i < |list| ==> (IsSuffix(list[i].sequence, a) <==> IsSuffix(list[i].sequence, b))
    requires IsBest(list, a, r)
    ensures IsBest(list, b, r)
  {
  }

  /**
   * The reference answer: -1 exactly when no peptide ends the text, and
   * otherwise a peptide that ends it, at least as long as every other that
   * does, and at the last position that sequence occupies in the list.
   */
  lemma {:induction false} BestMatchSpec(list: seq<Peptide>, text: string)
    ensures var r := BestMatch(list, text);
      (r == -1 <==> forall i :: 0 <= i < |list| ==> !IsSuffix(list[i].sequence, text)) &&
      (r != -1 ==>
        1 <= r <= |list| && IsSuffix(list[r - 1].sequence, text) &&
        (forall i :: 0 <= i < |list| && IsSuffix(list[i].sequence, text) ==> |list[i].sequence| <= |list[r - 1].sequence|) &&
        (forall i :: 0 <= i < |list| && list[i].sequence == list[r - 1].sequence ==> i < r))
  {
    var r := BestMatch(list, text);
    BestMatchIsBest(list, text);
    if r != -1 {
      assert IsSuffix(list[r - 1].sequence, text);
    }
  }

  // ---------------------------------------------------------------------------
  // Suffixes and labels

  /** A non-empty string is its prefix without the last element followed by that element. */
  lemma {:induction false} SplitLast(s: string)
    requires s != []
    ensures s[..|s| - 1] + [s[|s| - 1]] == s
  {
  }

  /** Of two suffixes of one string, the shorter is a suffix of the longer. */
  lemma {:induction false} SuffixOfSuffix(a: string, b: string, c: string)
    requires IsSuffix(a, c) && IsSuffix(b, c) && |a| <= |b|
    ensures IsSuffix(a, b)
  {
    var tail := c[|c| - |b|..];
    assert tail == b;
    assert tail[|b| - |a|..] == c[|c| - |a|..];
  }

  /** A suffix ending in a of a string ending in b: a is b, and what precedes a ends what precedes b. */
  lemma {:induction false} SuffixLast(x: string, a: char, y: string, b: char)
    requires IsSuffix(x + [a], y + [b])
    ensures a == b && IsSuffix(x, y)
  {
    var s := y + [b];
    var tail := s[|s| - |x| - 1..];
    assert tail == x + [a];
    assert tail[|x|] == s[|s| - 1];
    assert y[|y| - |x|..] == tail[..|x|];
  }

  /** Distinct states of a trie have distinct labels. */
  lemma {:induction false} LabelsApart(t: seq<Node>, a: nat, b: nat)
    requires TreeShaped(t) && ChildrenLinked(t) && a < |t| && b < |t|
    ensures Label(t, a) == Label(t, b) ==> a == b
  {
    if Label(t, a) == Label(t, b) {
      LabelInjective(t, a, b);
    }
  }

  /** The label of another state that ends a state's label is strictly shorter. */
  lemma {:induction false} ProperSuffixShorter(t: seq<Node>, u: nat, x: nat)
    requires TreeShaped(t) && ChildrenLinked(t) && u < |t| && x < |t| && u != x
    requires IsSuffix(Label(t, u), Label(t, x))
    ensures t[u].level < t[x].level
  {
    LabelLength(t, u);
    LabelLength(t, x);
    LabelsApart(t, u, x);
  }

  // ---------------------------------------------------------------------------
  // Fail links are the deepest proper suffix states

  /** No state whose label properly ends v's label is deeper than v's fail target. */
  ghost predicate FailLongestAt(t: seq<Node>, v: nat)
    requires TreeShaped(t) && FailDecreasing(t) && v < |t|
  {
    forall u {:trigger Label(t, u)} :: 0 <= u < |t| && t[u].level < t[v].level && IsSuffix(Label(t, u), Label(t, v)) ==>
      t[u].level <= t[t[v].failLink].level
  }

  /** Every state below level n has the deepest fail link. */
  ghost predicate LongestBelow(t: seq<Node>, n: nat)
    requires TreeShaped(t) && FailDecreasing(t)
  {
    forall y {:trigger FailLongestAt(t, y)} :: 0 <= y < |t| && t[y].level < n ==> FailLongestAt(t, y)
  }

  /** Every state has the deepest fail link. */
  ghost predicate LongestFails(t: seq<Node>)
    requires TreeShaped(t) && FailDecreasing(t)
  {
    forall y {:trigger FailLongestAt(t, y)} :: 0 <= y < |t| ==> FailLongestAt(t, y)
  }

  /**
   * If some state u whose label ends x's label has an edge on c, the fail
   * chain from x finds an edge on c, to a state deeper than u.
   */
  lemma {:induction false} ChainComplete(t: seq<Node>, x: nat, c: char, u: nat)
    requires Trie(t) && FailSound(t) && FailDecreasing(t) && x < |t| && u < |t|
    requires LongestBelow(t, t[x].level + 1)
    requires c in t[u].edges && IsSuffix(Label(t, u), Label(t, x))
    ensures ChainTarget(t, x, c).Some? && ChainTarget(t, x, c).value < |t|
    ensures t[u].level < t[ChainTarget(t, x, c).value].level
    decreases t[x].level
  {
    LabelLength(t, u);
    LabelLength(t, x);
    if c in t[x].edges {
      var w := t[x].edges[c];
      assert t[w].parent == x;
    } else {
      ProperSuffixShorter(t, u, x);
      assert x != 0;
      var f := t[x].failLink;
      assert FailLongestAt(t, x);
      LabelLength(t, f);
      SuffixOfSuffix(Label(t, u), Label(t, f), Label(t, x));
      ChainComplete(t, f, c, u);
    }
  }

  /** A state w other than the root whose label properly ends v's label is no deeper than v's fail target. */
  lemma {:induction false} FailLongestWitness(t: seq<Node>, v: nat, w: nat)
    requires Trie(t) && FailSound(t) && FailDecreasing(t) && 0 < w < |t| && v < |t|
    requires t[v].failLink == FailTarget(t, v) && LongestBelow(t, t[v].level)
    requires t[w].level < t[v].level && IsSuffix(Label(t, w), Label(t, v))
    ensures t[w].level <= t[t[v].failLink].level
  {
    var u, c := t[w].parent, t[w].bChar.value;
    assert v != 0;
    var p, cv := t[v].parent, t[v].bChar.value;
    assert Label(t, w) == Label(t, u) + [c];
    assert Label(t, v) == Label(t, p) + [cv];
    SuffixLast(Label(t, u), c, Label(t, p), cv);
    assert t[u].level < t[p].level;
    assert FailLongestAt(t, p);
    LabelLength(t, u);
    LabelLength(t, p);
    ProperSuffixShorter(t, u, p);
    var x := t[p].failLink;
    LabelLength(t, x);
    SuffixOfSuffix(Label(t, u), Label(t, x), Label(t, p));
    assert c in t[u].edges;
    ChainComplete(t, x, c, u);
  }

  /** A state whose fail link is its fail target has the deepest one, once every shallower state has. */
  lemma {:induction false} FailLongestStep(t: seq<Node>, v: nat)
    requires Trie(t) && FailSound(t) && FailDecreasing(t) && v < |t|
    requires t[v].failLink == FailTarget(t, v) && LongestBelow(t, t[v].level)
    ensures FailLongestAt(t, v)
  {
    forall w | 0 <= w < |t| && t[w].level < t[v].level && IsSuffix(Label(t, w), Label(t, v))
      ensures t[w].level <= t[t[v].failLink].level
    {
      if w != 0 {
        FailLongestWitness(t, v, w);
      }
    }
  }

  lemma {:induction false} LongestUpTo(t: seq<Node>, n: nat)
    requires Trie(t) && FailSound(t) && FailDecreasing(t)
    requires forall k :: 0 <= k < |t| ==> t[k].failLink == FailTarget(t, k)
    ensures LongestBelow(t, n)
  {
    if n > 0 {
      LongestUpTo(t, n - 1);
      forall v | 0 <= v < |t| && t[v].level == n - 1
        ensures FailLongestAt(t, v)
      {
        FailLongestStep(t, v);
      }
    }
  }

  /** After the fail-link pass, every fail link is the fail target. */
  lemma {:induction false} LinkedTargets(t0: seq<Node>, t1: seq<Node>)
    requires Linked(t0, t1)
    ensures forall k :: 0 <= k < |t1| ==> t1[k].failLink == FailTarget(t1, k)
  {
    forall k | 0 <= k < |t1|
      ensures t1[k].failLink == FailTarget(t1, k)
    {
      assert LinkedAt(t0, t1, k);
    }
  }

  /**
   * After the fail-link pass, the fail link of every state leads to the
   * deepest state whose label is a proper suffix of the state's label.
   */
  lemma {:induction false} LinkedLongest(t0: seq<Node>, t1: seq<Node>)
    requires Linked(t0, t1)
    ensures Trie(t1) && FailSound(t1) && FailDecreasing(t1) && LongestFails(t1)
  {
    LinkedTrie(t0, t1);
    LinkedTargets(t0, t1);
    forall v | 0 <= v < |t1|
      ensures FailLongestAt(t1, v)
    {
      LongestUpTo(t1, t1[v].level + 1);
    }
  }

  /** The deepest-fail-link property, spelt out for two states. */
  lemma {:induction false} LongestFailsAt(t: seq<Node>, v: nat, u: nat)
    requires TreeShaped(t) && FailDecreasing(t) && LongestFails(t) && v < |t| && u < |t|
    requires t[u].level < t[v].level && IsSuffix(Label(t, u), Label(t, v))
    ensures t[u].level <= t[t[v].failLink].level
  {
    assert FailLongestAt(t, v);
  }

  /** When every state has the deepest fail link, so does every state below any level. */
  lemma {:induction false} LongestAllBelow(t: seq<Node>, n: nat)
    requires TreeShaped(t) && FailDecreasing(t) && LongestFails(t)
    ensures LongestBelow(t, n)
  {
  }

  // ---------------------------------------------------------------------------
  // Reading a text ends in the deepest state that ends it

  /** In the closure, the edge on c from v is the trie's chain target from v. */
  lemma {:induction false} ClosureChain(t: seq<Node>, m: seq<Node>, v: nat, c: char)
    requires TreeShaped(t) && FailDecreasing(t) && Closure(t, m) && v < |m|
    ensures (c in m[v].edges) == ChainTarget(t, v, c).Some?
    ensures c in m[v].edges ==> m[v].edges[c] == ChainTarget(t, v, c).value
    decreases t[v].level
  {
    assert m[v].edges == (if m[v].level == 0 then t[v].edges else m[m[v].failLink].edges + t[v].edges);
    if v != 0 {
      LevelPositive(t, v);
      assert m[v].level == t[v].level;
    }
    if c !in t[v].edges && v != 0 {
      ClosureChain(t, m, t[v].failLink, c);
    }
  }

  /** v's label ends the text, and no state whose label ends the text is deeper. */
  ghost predicate Deepest(t: seq<Node>, text: string, v: nat)
    requires TreeShaped(t) && v < |t|
  {
    IsSuffix(Label(t, v), text) &&
    forall k {:trigger Label(t, k)} :: 0 <= k < |t| && IsSuffix(Label(t, k), text) ==> t[k].level <= t[v].level
  }

  /**
   * If v is the deepest state ending a text, a state k other than the root
   * whose label ends that text followed by c is no deeper than the chain
   * target from v on c.
   */
  lemma {:induction false} DeeperChain(t: seq<Node>, pre: string, c: char, v: nat, k: nat)
    requires Trie(t) && FailSound(t) && FailDecreasing(t) && LongestFails(t)
    requires v < |t| && Deepest(t, pre, v)
    requires 0 < k < |t| && IsSuffix(Label(t, k), pre + [c])
    ensures ChainTarget(t, v, c).Some? && ChainTarget(t, v, c).value < |t|
    ensures t[k].level <= t[ChainTarget(t, v, c).value].level
  {
    var u, ck := t[k].parent, t[k].bChar.value;
    assert Label(t, k) == Label(t, u) + [ck];
    SuffixLast(Label(t, u), ck, pre, c);
    LabelLength(t, u);
    LabelLength(t, v);
    SuffixOfSuffix(Label(t, u), Label(t, v), pre);
    assert c in t[u].edges;
    LongestAllBelow(t, t[v].level + 1);
    ChainComplete(t, v, c, u);
  }

  /** In the closure, the next state on c is the trie's chain target from v, or the root when there is none. */
  lemma {:induction false} StepTarget(t: seq<Node>, m: seq<Node>, v: nat, c: char)
    requires TreeShaped(t) && FailDecreasing(t) && Closure(t, m) && EdgesInRange(m) && v < |m|
    ensures NextState(m, v, c) == match ChainTarget(t, v, c) case Some(f) => f case None => 0
  {
    ClosureChain(t, m, v, c);
  }

  /** The chain target from a state ending a text, or the root, ends the text followed by c. */
  lemma {:induction false} StepEnds(t: seq<Node>, pre: string, c: char, v: nat)
    requires Trie(t) && FailSound(t) && FailDecreasing(t) && v < |t| && IsSuffix(Label(t, v), pre)
    ensures match ChainTarget(t, v, c)
      case Some(f) => f < |t| && IsSuffix(Label(t, f), pre + [c])
      case None => true
  {
    TrieSound(t);
    ChainTargetSound(t, v, c);
    if ChainTarget(t, v, c).Some? {
      SuffixStep(Label(t, ChainTarget(t, v, c).value), Label(t, v), pre, c);
    }
  }

  /** From the deepest state ending a text, the chain target on c (or the root) is the deepest state ending the text followed by c. */
  lemma {:induction false} DeepestStep(t: seq<Node>, pre: string, c: char, v: nat, r: nat)
    requires Trie(t) && FailSound(t) && FailDecreasing(t) && LongestFails(t)
    requires v < |t| && Deepest(t, pre, v)
    requires r == match ChainTarget(t, v, c) case Some(f) => f case None => 0
    ensures r < |t| && Deepest(t, pre + [c], r)
  {
    StepEnds(t, pre, c, v);
    if ChainTarget(t, v, c).None? {
      assert Label(t, r) == [];
    }
    forall k | 0 <= k < |t| && IsSuffix(Label(t, k), pre + [c])
      ensures t[k].level <= t[r].level
    {
      if k != 0 {
        DeeperChain(t, pre, c, v, k);
      }
    }
  }

  /** The root is the deepest state ending the empty text. */
  lemma {:induction false} DeepestRoot(t: seq<Node>)
    requires TreeShaped(t)
    ensures Deepest(t, [], 0)
  {
    assert Label(t, 0) == [];
    forall k | 0 <= k < |t| && IsSuffix(Label(t, k), [])
      ensures t[k].level <= 0
    {
      LabelLength(t, k);
    }
  }

  /** Reading any text from the root of the closure ends in the deepest state whose label ends the text. */
  lemma {:induction false} RunDeepest(t: seq<Node>, m: seq<Node>, text: string)
    requires Trie(t) && FailSound(t) && FailDecreasing(t) && LongestFails(t) && Closure(t, m) && EdgesInRange(m)
    ensures Deepest(t, text, Run(m, text))
    decreases |text|
  {
    if text == [] {
      DeepestRoot(t);
    } else {
      var pre, c := text[..|text| - 1], text[|text| - 1];
      RunDeepest(t, m, pre);
      var v := Run(m, pre);
      SplitLast(text);
      var r := Run(m, text);
      assert r == NextState(m, v, c);
      StepTarget(t, m, v, c);
      DeepestStep(t, pre, c, v, r);
    }
  }

  // ---------------------------------------------------------------------------
  // Every state reports the answer for its label

  /**
   * The pattern ids after both passes: the root keeps its own; any other
   * state keeps its own or, having none, takes its fail target's.
   */
  ghost predicate Outputs(t0: seq<Node>, m: seq<Node>) {
    |t0| == |m| && FailDecreasing(m) && m[0].pattern == t0[0].pattern &&
    forall k {:trigger m[k].pattern} :: 0 < k < |m| ==>
      m[k].pattern == (if t0[k].pattern == -1 then m[m[k].failLink].pattern else t0[k].pattern)
  }

  lemma {:induction false} OutputAt(t0: seq<Node>, t1: seq<Node>, t2: seq<Node>, k: nat)
    requires Linked(t0, t1) && Completed(t1, t2) && 0 < k < |t2|
    ensures t2[k].pattern == (if t0[k].pattern == -1 then t2[t2[k].failLink].pattern else t0[k].pattern)
  {
    LevelPositive(t1, k);
    var f := t1[k].failLink;
    assert LinkedAt(t0, t1, k);
    assert ClosedAt(t1, t2, k);
    assert ClosedAt(t1, t2, f);
  }

  /** The two passes give each state its own pattern id or, having none, its fail target's final one. */
  lemma {:induction false} BuiltOutputs(t0: seq<Node>, t1: seq<Node>, t2: seq<Node>)
    requires Linked(t0, t1) && Completed(t1, t2)
    ensures Outputs(t0, t2)
  {
    LinkedTrie(t0, t1);
    CompletedClosure(t1, t2);
    assert LinkedAt(t0, t1, 0);
    assert ClosedAt(t1, t2, 0);
    forall k | 0 < k < |t2|
      ensures t2[k].pattern == (if t0[k].pattern == -1 then t2[t2[k].failLink].pattern else t0[k].pattern)
    {
      OutputAt(t0, t1, t2, k);
    }
  }

  /** Every peptide's sequence is the label of a state. */
  ghost predicate Spelt(t: seq<Node>, list: seq<Peptide>)
    requires TreeShaped(t)
  {
    forall i :: 0 <= i < |list| ==> exists k :: 0 <= k < |t| && Label(t, k) == list[i].sequence
  }

  /** A state whose label is no peptide's sequence is ended by the same peptides as its fail target's label. */
  lemma {:induction false} FailKeepsMatches(t: seq<Node>, list: seq<Peptide>, v: nat, i: nat)
    requires Trie(t) && FailSound(t) && FailDecreasing(t) && LongestFails(t) && Spelt(t, list)
    requires 0 < v < |t| && i < |list| && list[i].sequence != Label(t, v)
    ensures IsSuffix(list[i].sequence, Label(t, v)) <==> IsSuffix(list[i].sequence, Label(t, t[v].failLink))
  {
    var s, f := list[i].sequence, t[v].failLink;
    if IsSuffix(s, Label(t, v)) {
      var k :| 0 <= k < |t| && Label(t, k) == s;
      ProperSuffixShorter(t, k, v);
      assert FailLongestAt(t, v);
      LabelLength(t, k);
      LabelLength(t, f);
      SuffixOfSuffix(s, Label(t, f), Label(t, v));
    }
    if IsSuffix(s, Label(t, f)) {
      SuffixTransitive(s, Label(t, f), Label(t, v));
    }
  }

  /** A label that is some peptide's sequence is answered by the last position of that sequence. */
  lemma {:induction false} OwnBest(list: seq<Peptide>, l: string)
    requires LastIndex(Sort(Numbered(list)), l) != -1
    ensures IsBest(list, l, LastIndex(Sort(Numbered(list)), l))
  {
    var own := LastIndex(Sort(Numbered(list)), l);
    SortedLastIndex(list, l);
    assert list[own - 1].sequence == l;
  }

  /** When no peptide has the empty sequence, nothing ends the empty label. */
  lemma {:induction false} NoneBest(list: seq<Peptide>)
    requires LastIndex(Sort(Numbered(list)), []) == -1
    ensures IsBest(list, [], -1)
  {
    SortedLastIndex(list, []);
  }

  /** A state whose label is no peptide's sequence is ended by the same peptides as its fail target's label. */
  lemma {:induction false} FailKeepsAll(t: seq<Node>, list: seq<Peptide>, v: nat)
    requires Trie(t) && FailSound(t) && FailDecreasing(t) && LongestFails(t) && Spelt(t, list) && 0 < v < |t|
    requires LastIndex(Sort(Numbered(list)), Label(t, v)) == -1
    ensures forall i :: 0 <= i < |list| ==>
      (IsSuffix(list[i].sequence, Label(t, t[v].failLink)) <==> IsSuffix(list[i].sequence, Label(t, v)))
  {
    SortedLastIndex(list, Label(t, v));
    forall i | 0 <= i < |list|
      ensures IsSuffix(list[i].sequence, Label(t, t[v].failLink)) <==> IsSuffix(list[i].sequence, Label(t, v))
    {
      FailKeepsMatches(t, list, v, i);
    }
  }

  /** Every state's final pattern id answers its own label. */
  lemma {:induction false} OutputBest(list: seq<Peptide>, t0: seq<Node>, t: seq<Node>, m: seq<Node>, v: nat)
    requires Trie(t) && FailSound(t) && FailDecreasing(t) && LongestFails(t) && Spelt(t, list)
    requires TreeShaped(t0) && PatternsAre(t0, Sort(Numbered(list))) && |t0| == |t|
    requires forall k {:trigger Label(t0, k)} :: 0 <= k < |t0| ==> Label(t0, k) == Label(t, k)
    requires Outputs(t0, m) && forall k {:trigger m[k].failLink} :: 0 <= k < |m| ==> m[k].failLink == t[k].failLink
    requires v < |t|
    ensures IsBest(list, Label(t, v), m[v].pattern)
    decreases t[v].level
  {
    var l := Label(t, v);
    var own := t0[v].pattern;
    assert Label(t0, v) == l;
    assert own == LastIndex(Sort(Numbered(list)), l);
    if own != -1 {
      assert m[v].pattern == own;
      OwnBest(list, l);
    } else if v == 0 {
      assert l == [];
      NoneBest(list);
    } else {
      var f := t[v].failLink;
      assert m[v].pattern == m[f].pattern;
      OutputBest(list, t0, t, m, f);
      FailKeepsAll(t, list, v);
      IsBestSame(list, Label(t, f), l, m[v].pattern);
    }
  }

  // ---------------------------------------------------------------------------
  // The built automaton

  /** After any text, the state reached carries the reference answer for that text. */
  ghost predicate Matches(nodes: seq<Node>, list: seq<Peptide>)
    requires |nodes| > 0 && EdgesInRange(nodes)
  {
    forall text {:trigger Run(nodes, text)} :: nodes[Run(nodes, text)].pattern == BestMatch(list, text)
  }

  /** The peptides that end the label of the deepest state ending a text are those that end the text. */
  lemma {:induction false} DeepestKeepsMatches(t: seq<Node>, list: seq<Peptide>, text: string, v: nat, i: nat)
    requires Trie(t) && Spelt(t, list) && v < |t| && Deepest(t, text, v) && i < |list|
    ensures IsSuffix(list[i].sequence, Label(t, v)) <==> IsSuffix(list[i].sequence, text)
  {
    var s := list[i].sequence;
    if IsSuffix(s, text) {
      var k :| 0 <= k < |t| && Label(t, k) == s;
      LabelLength(t, k);
      LabelLength(t, v);
      SuffixOfSuffix(s, Label(t, v), text);
    }
    if IsSuffix(s, Label(t, v)) {
      SuffixTransitive(s, Label(t, v), text);
    }
  }

  lemma {:induction false} MatchesAt(list: seq<Peptide>, t0: seq<Node>, t: seq<Node>, m: seq<Node>, text: string)
    requires Trie(t) && FailSound(t) && FailDecreasing(t) && LongestFails(t) && Spelt(t, list)
    requires TreeShaped(t0) && PatternsAre(t0, Sort(Numbered(list))) && |t0| == |t|
    requires forall k {:trigger Label(t0, k)} :: 0 <= k < |t0| ==> Label(t0, k) == Label(t, k)
    requires Outputs(t0, m) && Closure(t, m) && EdgesInRange(m)
    ensures m[Run(m, text)].pattern == BestMatch(list, text)
  {
    var v := Run(m, text);
    RunDeepest(t, m, text);
    OutputBest(list, t0, t, m, v);
    forall i | 0 <= i < |list|
      ensures IsSuffix(list[i].sequence, Label(t, v)) <==> IsSuffix(list[i].sequence, text)
    {
      DeepestKeepsMatches(t, list, text, v, i);
    }
    IsBestSame(list, Label(t, v), text, m[v].pattern);
    BestMatchIsBest(list, text);
    IsBestUnique(list, text, m[v].pattern, BestMatch(list, text));
  }

  /**
   * The three passes give an automaton that, after any text, reports the
   * reference answer: the longest peptide ending the text, at the last
   * position its sequence occupies in the list, or -1 when none ends it.
   */
  lemma {:induction false} BuiltMatches(list: seq<Peptide>, t0: seq<Node>, t1: seq<Node>, t2: seq<Node>)
    requires Trie(t0) && PatternsAre(t0, Sort(Numbered(list)))
    requires exists ends :: Reaches(t0, ends, Sort(Numbered(list)))
    requires Linked(t0, t1) && Completed(t1, t2)
    ensures TreeShaped(t2) && EdgesInRange(t2) && Matches(t2, list)
  {
    var ends :| Reaches(t0, ends, Sort(Numbered(list)));
    LinkedLongest(t0, t1);
    LinkedTrie(t0, t1);
    CompletedClosure(t1, t2);
    ClosureEdgesSound(t1, t2);
    BuiltOutputs(t0, t1, t2);
    forall i | 0 <= i < |list|
      ensures exists k :: 0 <= k < |t1| && Label(t1, k) == list[i].sequence
    {
      BuiltReaches(t0, ends, list, i);
      var k :| 0 <= k < |t0| && Label(t0, k) == list[i].sequence;
      assert Label(t1, k) == list[i].sequence;
    }
    assert forall y :: 0 <= y < |t1| ==> FailLongestAt(t1, y);
    forall text
      ensures t2[Run(t2, text)].pattern == BestMatch(list, text)
    {
      MatchesAt(list, t0, t1, t2, text);
    }
  }

  /**
   * What an automaton that matches reports after any text: -1 exactly when no
   * peptide ends the text; otherwise a peptide ending it that is at least as
   * long as every other, at the last position its sequence occupies.
   */
  lemma {:induction false} MatchExact(nodes: seq<Node>, list: seq<Peptide>, text: string)
    requires |nodes| > 0 && EdgesInRange(nodes) && Matches(nodes, list)
    ensures var p := nodes[Run(nodes, text)].pattern;
      (p == -1 <==> forall i :: 0 <= i < |list| ==> !IsSuffix(list[i].sequence, text)) &&
      (p != -1 ==>
        1 <= p <= |list| && IsSuffix(list[p - 1].sequence, text) &&
        (forall i :: 0 <= i < |list| && IsSuffix(list[i].sequence, text) ==> |list[i].sequence| <= |list[p - 1].sequence|) &&
        (forall i :: 0 <= i < |list| && list[i].sequence == list[p - 1].sequence ==> i < p))
  {
    assert nodes[Run(nodes, text)].pattern == BestMatch(list, text);
    BestMatchSpec(list, text);
  }
}

/**
 * The states of the multi-pattern matcher and what is true of them: the trie
 * shape (parent, label character, level), the soundness of edges, fail links
 * and pattern ids with respect to the label of each state, the breadth-first
 * order in which fail links and the goto closure are computed, and the
 * soundness of scanning a text from the root.
 */
module Automaton {
  import opened Outcomes
  import opened Peptides

  /**
   * One state. `edges` maps a residue to the next state, `pattern` is a 1-based
   * peptide index or -1, `bChar` is the residue on the edge from the parent
   * (None for the root, whose label character is the empty string).
   */
  datatype Node = Node(edges: map<char, nat>, level: nat, failLink: nat, parent: nat, pattern: int, bChar: Option<char>)

  /** `new Node()`: no edges, level 0, fail link 0, parent 0, pattern -1, empty label character. */
  const Fresh: Node := Node(map[], 0, 0, 0, -1, None)

  // ---------------------------------------------------------------------------
  // Suffixes

  predicate IsSuffix(a: string, b: string) {
    |a| <= |b| && b[|b| - |a|..] == a
  }

  lemma {:induction false} SuffixTransitive(a: string, b: string, c: string)
    requires IsSuffix(a, b) && IsSuffix(b, c)
    ensures IsSuffix(a, c)
  {
    assert c[|c| - |a|..] == c[|c| - |b|..][|b| - |a|..];
  }

  lemma {:induction false} SuffixExtend(a: string, b: string, ch: char)
    requires IsSuffix(a, b)
    ensures IsSuffix(a + [ch], b + [ch])
  {
    assert (b + [ch])[|b| + 1 - |a| - 1..] == b[|b| - |a|..] + [ch];
  }

  /** One more element of a prefix. */
  lemma {:induction false} PrefixNext<T>(s: seq<T>, j: nat)
    requires j < |s|
    ensures s[..j + 1] == s[..j] + [s[j]]
  {
  }

  lemma {:induction false} AppendInjective(x: string, b: char, y: string, c: char)
    requires x + [b] == y + [c]
    ensures x == y && b == c
  {
    assert x == (x + [b])[..|x|] && b == (x + [b])[|x|];
    assert y == (y + [c])[..|y|] && c == (y + [c])[|y|];
  }

  // ---------------------------------------------------------------------------
  // Trie shape

  /** The root is at index 0 with level 0; every other state has an earlier parent, a label character and the parent's level plus one. */
  ghost predicate TreeShaped(nodes: seq<Node>) {
    |nodes| > 0 && nodes[0].level == 0 && nodes[0].bChar == None &&
    forall k {:trigger nodes[k].parent} :: 0 < k < |nodes| ==>
      nodes[k].parent < k && nodes[k].bChar.Some? && nodes[k].level == nodes[nodes[k].parent].level + 1
  }

  /** The string spelled by the label characters on the way from the root to state k. */
  ghost function Label(nodes: seq<Node>, k: nat): string
    requires TreeShaped(nodes) && k < |nodes|
    decreases k
  {
    if k == 0 then [] else Label(nodes, nodes[k].parent) + [nodes[k].bChar.value]
  }

  lemma {:induction false} LabelLength(nodes: seq<Node>, k: nat)
    requires TreeShaped(nodes) && k < |nodes|
    ensures |Label(nodes, k)| == nodes[k].level
    decreases k
  {
    if k != 0 {
      LabelLength(nodes, nodes[k].parent);
    }
  }

  /** Every edge target is a state. */
  ghost predicate EdgesInRange(nodes: seq<Node>) {
    forall k, c :: 0 <= k < |nodes| && c in nodes[k].edges ==> nodes[k].edges[c] < |nodes|
  }

  /** Each non-root state is reached from its parent along its own label character. */
  ghost predicate ChildrenLinked(nodes: seq<Node>)
    requires TreeShaped(nodes)
  {
    forall k {:trigger nodes[k].bChar} :: 0 < k < |nodes| ==>
      nodes[k].bChar.value in nodes[nodes[k].parent].edges &&
      nodes[nodes[k].parent].edges[nodes[k].bChar.value] == k
  }

  /** Before the goto closure every edge leads to a child whose label character is the edge's key. */
  ghost predicate OnlyTreeEdges(nodes: seq<Node>) {
    forall k, c {:trigger nodes[k].edges[c]} :: 0 <= k < |nodes| && c in nodes[k].edges ==>
      0 < nodes[k].edges[c] < |nodes| &&
      nodes[nodes[k].edges[c]].parent == k && nodes[nodes[k].edges[c]].bChar == Some(c)
  }

  ghost predicate Trie(nodes: seq<Node>) {
    TreeShaped(nodes) && ChildrenLinked(nodes) && OnlyTreeEdges(nodes)
  }

  /** Two states of a trie with the same label are the same state. */
  lemma {:induction false} LabelInjective(nodes: seq<Node>, a: nat, b: nat)
    requires TreeShaped(nodes) && ChildrenLinked(nodes)
    requires a < |nodes| && b < |nodes|
    requires Label(nodes, a) == Label(nodes, b)
    ensures a == b
    decreases a + b
  {
    LabelLength(nodes, a);
    LabelLength(nodes, b);
    if a != 0 && b != 0 {
      var la, lb := Label(nodes, a), Label(nodes, b);
      assert Label(nodes, nodes[a].parent) == la[..|la| - 1] == lb[..|lb| - 1] == Label(nodes, nodes[b].parent);
      LabelInjective(nodes, nodes[a].parent, nodes[b].parent);
    }
  }

  /** In a trie, the child along c has the parent's label followed by c. */
  lemma {:induction false} ChildLabel(nodes: seq<Node>, k: nat, c: char)
    requires Trie(nodes) && k < |nodes| && c in nodes[k].edges
    ensures Label(nodes, nodes[k].edges[c]) == Label(nodes, k) + [c]
  {
    var u := nodes[k].edges[c];
    assert 0 < u < |nodes| && nodes[u].parent == k && nodes[u].bChar == Some(c);
  }

  /** Every state of a has the same parent, label character and level in b; b may have more states. */
  ghost predicate ShapeExtends(a: seq<Node>, b: seq<Node>) {
    |a| <= |b| &&
    (forall k {:trigger a[k].parent} {:trigger b[k].parent} :: 0 <= k < |a| ==> b[k].parent == a[k].parent) &&
    (forall k {:trigger a[k].bChar} {:trigger b[k].bChar} :: 0 <= k < |a| ==> b[k].bChar == a[k].bChar) &&
    (forall k {:trigger a[k].level} {:trigger b[k].level} :: 0 <= k < |a| ==> b[k].level == a[k].level)
  }

  /** a and b differ at most in fail links and pattern ids. */
  ghost predicate SameTrie(a: seq<Node>, b: seq<Node>) {
    ShapeExtends(a, b) && |a| == |b| && forall k :: 0 <= k < |a| ==> b[k].edges == a[k].edges
  }

  /** Labels only depend on parents and label characters. */
  lemma {:induction false} LabelExtends(a: seq<Node>, b: seq<Node>, k: nat)
    requires TreeShaped(a) && TreeShaped(b) && ShapeExtends(a, b) && k < |a|
    ensures Label(b, k) == Label(a, k)
    decreases k
  {
    if k != 0 {
      LabelExtends(a, b, a[k].parent);
    }
  }

  lemma {:induction false} ShapeTree(a: seq<Node>, b: seq<Node>)
    requires TreeShaped(a) && ShapeExtends(a, b) && |a| == |b|
    ensures TreeShaped(b)
  {
    forall k | 0 < k < |b|
      ensures b[k].parent < k && b[k].bChar.Some? && b[k].level == b[b[k].parent].level + 1
    {
      assert a[k].parent == b[k].parent;
    }
  }

  /** Changing only fail links and pattern ids keeps a trie a trie, with the same labels. */
  lemma {:induction false} SameTrieLabels(a: seq<Node>, b: seq<Node>)
    requires Trie(a) && SameTrie(a, b)
    ensures Trie(b)
    ensures forall k :: 0 <= k < |a| ==> Label(b, k) == Label(a, k)
  {
    forall k | 0 <= k < |a|
      ensures Label(b, k) == Label(a, k)
    {
      LabelExtends(a, b, k);
    }
  }

  /** Every state other than the root is below it. */
  lemma {:induction false} LevelPositive(nodes: seq<Node>, k: nat)
    requires TreeShaped(nodes) && 0 < k < |nodes|
    ensures nodes[k].level > 0
  {
  }

  /** One step of trie building: the edge from p on c goes to a new last state, a child of p. */
  function WithChild(nodes: seq<Node>, p: nat, c: char): (r: seq<Node>)
    requires p < |nodes|
    ensures |r| == |nodes| + 1 && r[|nodes|].parent == p && r[|nodes|].bChar == Some(c)
    ensures r[|nodes|].level == nodes[p].level + 1 && r[|nodes|].pattern == -1 && r[|nodes|].failLink == 0
    ensures r[|nodes|].edges == map[] && r[p].edges == nodes[p].edges[c := |nodes|]
    ensures forall k :: 0 <= k < |nodes| && k != p ==> r[k] == nodes[k]
  {
    nodes[p := nodes[p].(edges := nodes[p].edges[c := |nodes|])] +
    [Fresh.(level := nodes[p].level + 1, parent := p, bChar := Some(c))]
  }

  lemma {:induction false} WithChildShape(nodes: seq<Node>, p: nat, c: char)
    requires TreeShaped(nodes) && p < |nodes|
    ensures TreeShaped(WithChild(nodes, p, c)) && ShapeExtends(nodes, WithChild(nodes, p, c))
  {
    var r := WithChild(nodes, p, c);
    forall k | 0 < k < |r|
      ensures r[k].parent < k && r[k].bChar.Some? && r[k].level == r[r[k].parent].level + 1
    {
      if k < |nodes| {
        assert r[k].parent == nodes[k].parent < k;
      }
    }
  }

  lemma {:induction false} WithChildEdges(nodes: seq<Node>, p: nat, c: char)
    requires Trie(nodes) && p < |nodes| && c !in nodes[p].edges
    ensures ChildrenLinked(WithChild(nodes, p, c)) && OnlyTreeEdges(WithChild(nodes, p, c))
  {
    var r := WithChild(nodes, p, c);
    WithChildShape(nodes, p, c);
    forall k | 0 < k < |r|
      ensures r[k].bChar.value in r[r[k].parent].edges && r[r[k].parent].edges[r[k].bChar.value] == k
    {
      if k < |nodes| {
        var q := nodes[k].parent;
        assert nodes[q].edges[nodes[k].bChar.value] == k;
        if q == p {
          assert nodes[k].bChar.value != c;
        }
      }
    }
    forall k, d | 0 <= k < |r| && d in r[k].edges
      ensures 0 < r[k].edges[d] < |r| && r[r[k].edges[d]].parent == k && r[r[k].edges[d]].bChar == Some(d)
    {
      if k != p || d != c {
        assert d in nodes[k].edges && r[k].edges[d] == nodes[k].edges[d];
      }
    }
  }

  /** A state whose label is p's label followed by c is p's child along c. */
  lemma {:induction false} MissingChildLabel(nodes: seq<Node>, p: nat, c: char, k: nat)
    requires Trie(nodes) && p < |nodes| && c !in nodes[p].edges && k < |nodes|
    ensures Label(nodes, k) != Label(nodes, p) + [c]
  {
    if k != 0 {
      var q, b := nodes[k].parent, nodes[k].bChar.value;
      assert Label(nodes, k) == Label(nodes, q) + [b];
      if Label(nodes, q) + [b] == Label(nodes, p) + [c] {
        AppendInjective(Label(nodes, q), b, Label(nodes, p), c);
        LabelInjective(nodes, q, p);
      }
    }
  }

  /**
   * Adding a child along a missing edge keeps a trie a trie, keeps every
   * label, labels the new state with p's label followed by c, and no earlier
   * state had that label.
   */
  lemma {:induction false} WithChildTrie(nodes: seq<Node>, p: nat, c: char)
    requires Trie(nodes) && p < |nodes| && c !in nodes[p].edges
    ensures Trie(WithChild(nodes, p, c)) && ShapeExtends(nodes, WithChild(nodes, p, c))
    ensures forall k :: 0 <= k < |nodes| ==> Label(WithChild(nodes, p, c), k) == Label(nodes, k)
    ensures Label(WithChild(nodes, p, c), |nodes|) == Label(nodes, p) + [c]
    ensures forall k :: 0 <= k < |nodes| ==> Label(nodes, k) != Label(nodes, p) + [c]
  {
    var r := WithChild(nodes, p, c);
    WithChildShape(nodes, p, c);
    WithChildEdges(nodes, p, c);
    forall k | 0 <= k < |nodes|
      ensures Label(r, k) == Label(nodes, k) && Label(nodes, k) != Label(nodes, p) + [c]
    {
      LabelExtends(nodes, r, k);
      MissingChildLabel(nodes, p, c, k);
    }
    assert Label(r, |nodes|) == Label(r, p) + [c];
  }

  // ---------------------------------------------------------------------------
  // Soundness of edges, fail links and patterns

  /** Following an edge on c leads to a state whose label is a suffix of the current label followed by c. */
  ghost predicate EdgesSound(nodes: seq<Node>)
    requires TreeShaped(nodes) && EdgesInRange(nodes)
  {
    forall k, c :: 0 <= k < |nodes| && c in nodes[k].edges ==>
      IsSuffix(Label(nodes, nodes[k].edges[c]), Label(nodes, k) + [c])
  }

  /** Fail links point to states of smaller level (the root to itself) whose labels are suffixes of the state's own. */
  ghost predicate FailSound(nodes: seq<Node>)
    requires TreeShaped(nodes)
  {
    nodes[0].failLink == 0 &&
    forall k {:trigger nodes[k].failLink} :: 0 <= k < |nodes| ==>
      nodes[k].failLink < |nodes| &&
      (k != 0 ==> nodes[nodes[k].failLink].level < nodes[k].level) &&
      IsSuffix(Label(nodes, nodes[k].failLink), Label(nodes, k))
  }

  /** Fail links only go to states of smaller level; what the fail-chain walks need in order to end. */
  ghost predicate FailDecreasing(nodes: seq<Node>) {
    |nodes| > 0 && nodes[0].failLink == 0 &&
    forall k {:trigger nodes[k].failLink} :: 0 < k < |nodes| ==>
      nodes[k].failLink < |nodes| && nodes[nodes[k].failLink].level < nodes[k].level
  }

  /** State k's pattern id is -1 or names a peptide whose sequence is a suffix of k's label. */
  ghost predicate PatternSoundAt(nodes: seq<Node>, peptides: seq<Peptide>, k: nat)
    requires TreeShaped(nodes) && k < |nodes|
  {
    nodes[k].pattern == -1 ||
    (1 <= nodes[k].pattern <= |peptides| && IsSuffix(peptides[nodes[k].pattern - 1].sequence, Label(nodes, k)))
  }

  /** Every pattern id names a peptide of the list as read whose sequence is a suffix of the state's label. */
  ghost predicate PatternsSound(nodes: seq<Node>, peptides: seq<Peptide>)
    requires TreeShaped(nodes)
  {
    forall k :: 0 <= k < |nodes| ==> PatternSoundAt(nodes, peptides, k)
  }

  /** Every pattern id is -1 or the position of a peptide. */
  ghost predicate PatternsInRange(nodes: seq<Node>, count: nat) {
    forall k :: 0 <= k < |nodes| ==> nodes[k].pattern == -1 || 1 <= nodes[k].pattern <= count
  }

  /** Tree edges are in range and sound: each leads to the child spelling the label followed by the key. */
  lemma {:induction false} TrieSound(nodes: seq<Node>)
    requires Trie(nodes)
    ensures EdgesInRange(nodes) && EdgesSound(nodes)
  {
    forall k, c | 0 <= k < |nodes| && c in nodes[k].edges
      ensures IsSuffix(Label(nodes, nodes[k].edges[c]), Label(nodes, k) + [c])
    {
      ChildLabel(nodes, k, c);
    }
  }

  /** What scanning relies on: edges in range and sound, pattern ids sound. */
  ghost predicate Sound(nodes: seq<Node>, peptides: seq<Peptide>) {
    TreeShaped(nodes) && EdgesInRange(nodes) && EdgesSound(nodes) && PatternsSound(nodes, peptides)
  }

  // ---------------------------------------------------------------------------
  // Following the fail chain

  /**
   * The `c`-child of the first state on the fail chain starting at x that has
   * one; the root is the last state tried.
   */
  ghost function ChainTarget(nodes: seq<Node>, x: nat, c: char): (r: Option<nat>)
    requires FailDecreasing(nodes) && x < |nodes|
    ensures EdgesInRange(nodes) && r.Some? ==> r.value < |nodes|
    decreases nodes[x].level
  {
    if c in nodes[x].edges then Some(nodes[x].edges[c])
    else if x == 0 then None
    else ChainTarget(nodes, nodes[x].failLink, c)
  }

  /**
   * The fail link the source computes for state v: 0 for levels 0 and 1;
   * otherwise the chain target from the parent's fail link along v's label
   * character, or 0 when there is none.
   */
  ghost function FailTarget(nodes: seq<Node>, v: nat): nat
    requires TreeShaped(nodes) && FailDecreasing(nodes) && v < |nodes|
  {
    if nodes[v].level <= 1 then 0
    else
      match ChainTarget(nodes, nodes[nodes[v].parent].failLink, nodes[v].bChar.value)
      case Some(f) => f
      case None => 0
  }

  /** The chain target lies on a suffix of x's label followed by c. */
  lemma {:induction false} ChainTargetSound(nodes: seq<Node>, x: nat, c: char)
    requires TreeShaped(nodes) && EdgesInRange(nodes) && EdgesSound(nodes) && FailSound(nodes) && FailDecreasing(nodes)
    requires x < |nodes|
    ensures ChainTarget(nodes, x, c).Some? ==>
      ChainTarget(nodes, x, c).value < |nodes| &&
      IsSuffix(Label(nodes, ChainTarget(nodes, x, c).value), Label(nodes, x) + [c])
    decreases nodes[x].level
  {
    if c !in nodes[x].edges && x != 0 {
      var f := nodes[x].failLink;
      ChainTargetSound(nodes, f, c);
      if ChainTarget(nodes, f, c).Some? {
        SuffixExtend(Label(nodes, f), Label(nodes, x), c);
        SuffixTransitive(Label(nodes, ChainTarget(nodes, f, c).value), Label(nodes, f) + [c], Label(nodes, x) + [c]);
      }
    }
  }

  /** Two node lists that agree on edges, fail links and levels of every state below level `bound`. */
  ghost predicate AgreeBelow(a: seq<Node>, b: seq<Node>, bound: nat) {
    |a| == |b| &&
    forall k :: 0 <= k < |a| && a[k].level < bound ==>
      b[k].edges == a[k].edges && b[k].failLink == a[k].failLink && b[k].level == a[k].level
  }

  /** The chain target from x only reads states of level at most x's. */
  lemma {:induction false} ChainTargetFrame(a: seq<Node>, b: seq<Node>, x: nat, c: char, bound: nat)
    requires FailDecreasing(a) && FailDecreasing(b) && x < |a|
    requires AgreeBelow(a, b, bound) && a[x].level < bound
    ensures ChainTarget(a, x, c) == ChainTarget(b, x, c)
    decreases a[x].level
  {
    if c !in a[x].edges && x != 0 {
      ChainTargetFrame(a, b, a[x].failLink, c, bound);
    }
  }

  /** The fail target of v only reads states below v's level (and v's own shape). */
  lemma {:induction false} FailTargetFrame(a: seq<Node>, b: seq<Node>, v: nat, bound: nat)
    requires TreeShaped(a) && TreeShaped(b) && FailDecreasing(a) && FailDecreasing(b)
    requires ShapeExtends(a, b) && AgreeBelow(a, b, bound) && v < |a| && a[v].level <= bound
    ensures FailTarget(a, v) == FailTarget(b, v)
  {
    assert b[v].parent == a[v].parent && b[v].bChar == a[v].bChar && b[v].level == a[v].level;
    if a[v].level > 1 {
      var q := a[v].parent;
      assert v != 0 && a[v].level == a[q].level + 1;
      assert q != 0 && b[q].failLink == a[q].failLink;
      assert a[a[q].failLink].level < a[q].level;
      ChainTargetFrame(a, b, a[q].failLink, a[v].bChar.value, bound);
    }
  }

  /** A suffix of a suffix of x, extended by c, is a suffix of x extended by c. */
  lemma {:induction false} SuffixStep(f: string, x: string, q: string, c: char)
    requires IsSuffix(f, x + [c]) && IsSuffix(x, q)
    ensures IsSuffix(f, q + [c])
  {
    SuffixExtend(x, q, c);
    SuffixTransitive(f, x + [c], q + [c]);
  }

  /** The fail target of v lies on a suffix of v's label. */
  lemma {:induction false} FailTargetSuffix(nodes: seq<Node>, v: nat)
    requires TreeShaped(nodes) && EdgesInRange(nodes) && EdgesSound(nodes) && FailSound(nodes) && FailDecreasing(nodes)
    requires v < |nodes|
    ensures FailTarget(nodes, v) < |nodes|
    ensures IsSuffix(Label(nodes, FailTarget(nodes, v)), Label(nodes, v))
  {
    var f := FailTarget(nodes, v);
    if f == 0 {
      assert Label(nodes, 0) == [];
    } else {
      var q := nodes[v].parent;
      var x, c := nodes[q].failLink, nodes[v].bChar.value;
      assert ChainTarget(nodes, x, c) == Some(f);
      ChainTargetSound(nodes, x, c);
      SuffixStep(Label(nodes, f), Label(nodes, x), Label(nodes, q), c);
    }
  }

  /** The fail target of a state other than the root has smaller level. */
  lemma {:induction false} FailTargetLevel(nodes: seq<Node>, v: nat)
    requires TreeShaped(nodes) && EdgesInRange(nodes) && EdgesSound(nodes) && FailSound(nodes) && FailDecreasing(nodes)
    requires 0 < v < |nodes|
    ensures FailTarget(nodes, v) < |nodes| && nodes[FailTarget(nodes, v)].level < nodes[v].level
  {
    var f := FailTarget(nodes, v);
    FailTargetSuffix(nodes, v);
    if f != 0 {
      var q := nodes[v].parent;
      var x, c := nodes[q].failLink, nodes[v].bChar.value;
      assert ChainTarget(nodes, x, c) == Some(f);
      ChainTargetSound(nodes, x, c);
      LabelLength(nodes, f);
      LabelLength(nodes, x);
      assert q != 0 && nodes[x].level < nodes[q].level;
    }
  }

  /**
   * The goto closure of the trie t: every state keeps its shape, fail link and
   * tree edges, and each state other than the root also gets every edge of
   * its (closed) fail target that it lacks.
   */
  ghost predicate Closure(t: seq<Node>, m: seq<Node>) {
    ShapeExtends(t, m) && |t| == |m| && FailDecreasing(m) &&
    (forall k :: 0 <= k < |m| ==> m[k].failLink == t[k].failLink) &&
    forall k {:trigger t[k].edges} :: 0 <= k < |m| ==>
      m[k].edges == (if m[k].level == 0 then t[k].edges else m[m[k].failLink].edges + t[k].edges)
  }

  /** Every edge of the closure leads to a state whose label is a suffix of the source's label followed by the key. */
  lemma {:induction false} ClosureEdge(t: seq<Node>, m: seq<Node>, k: nat, c: char)
    requires Trie(t) && FailSound(t) && Closure(t, m) && k < |m| && c in m[k].edges
    ensures m[k].edges[c] < |m| && IsSuffix(Label(t, m[k].edges[c]), Label(t, k) + [c])
    decreases m[k].level
  {
    assert m[k].edges == (if m[k].level == 0 then t[k].edges else m[m[k].failLink].edges + t[k].edges);
    if c in t[k].edges {
      ChildLabel(t, k, c);
    } else {
      var f := m[k].failLink;
      assert k != 0;
      ClosureEdge(t, m, f, c);
      SuffixExtend(Label(t, f), Label(t, k), c);
      SuffixTransitive(Label(t, m[k].edges[c]), Label(t, f) + [c], Label(t, k) + [c]);
    }
  }

  /** The closure has the trie's shape, labels and sound fail links. */
  lemma {:induction false} ClosureShape(t: seq<Node>, m: seq<Node>)
    requires Trie(t) && FailSound(t) && Closure(t, m)
    ensures TreeShaped(m) && FailSound(m)
    ensures forall k :: 0 <= k < |m| ==> Label(m, k) == Label(t, k)
  {
    ShapeTree(t, m);
    forall k | 0 <= k < |m|
      ensures Label(m, k) == Label(t, k)
    {
      LabelExtends(t, m, k);
    }
    forall k | 0 <= k < |m|
      ensures m[k].failLink < |m| && (k != 0 ==> m[m[k].failLink].level < m[k].level) &&
        IsSuffix(Label(m, m[k].failLink), Label(m, k))
    {
      assert m[k].failLink == t[k].failLink;
    }
  }

  /** The closure is sound for scanning. */
  lemma {:induction false} ClosureEdgesSound(t: seq<Node>, m: seq<Node>)
    requires Trie(t) && FailSound(t) && Closure(t, m)
    ensures TreeShaped(m) && EdgesInRange(m) && EdgesSound(m)
  {
    ClosureShape(t, m);
    forall k, c | 0 <= k < |m| && c in m[k].edges
      ensures m[k].edges[c] < |m|
    {
      ClosureEdge(t, m, k, c);
    }
    forall k, c | 0 <= k < |m| && c in m[k].edges
      ensures IsSuffix(Label(m, m[k].edges[c]), Label(m, k) + [c])
    {
      ClosureEdge(t, m, k, c);
    }
  }

  /** The closure keeps every tree edge, so every state is still reached from its parent. */
  lemma {:induction false} ClosureKeepsTree(t: seq<Node>, m: seq<Node>)
    requires Trie(t) && FailSound(t) && Closure(t, m)
    ensures TreeShaped(m)
    ensures forall k, c :: 0 <= k < |t| && c in t[k].edges ==> c in m[k].edges && m[k].edges[c] == t[k].edges[c]
    ensures ChildrenLinked(m)
  {
    ClosureShape(t, m);
    forall k, c | 0 <= k < |t| && c in t[k].edges
      ensures c in m[k].edges && m[k].edges[c] == t[k].edges[c]
    {
      assert m[k].edges == (if m[k].level == 0 then t[k].edges else m[m[k].failLink].edges + t[k].edges);
    }
    forall k | 0 < k < |m|
      ensures m[k].bChar.value in m[m[k].parent].edges && m[m[k].parent].edges[m[k].bChar.value] == k
    {
      var q, c := t[k].parent, t[k].bChar.value;
      assert t[q].edges[c] == k;
    }
  }

  /** In the closure every state other than the root has every edge key its fail target has. */
  lemma {:induction false} ClosureComplete(t: seq<Node>, m: seq<Node>)
    requires Trie(t) && Closure(t, m)
    ensures forall k :: 0 < k < |m| ==> m[m[k].failLink].edges.Keys <= m[k].edges.Keys
  {
    forall k | 0 < k < |m|
      ensures m[m[k].failLink].edges.Keys <= m[k].edges.Keys
    {
      LevelPositive(t, k);
      assert m[k].edges == m[m[k].failLink].edges + t[k].edges;
    }
  }

  /**
   * b's pattern ids come from a: each state keeps a's id, or, when a had none,
   * takes its fail target's id in b.
   */
  ghost predicate Inherits(a: seq<Node>, b: seq<Node>) {
    |a| == |b| && FailDecreasing(b) &&
    forall k {:trigger a[k].pattern} :: 0 <= k < |b| ==>
      b[k].pattern == a[k].pattern || (k != 0 && a[k].pattern == -1 && b[k].pattern == b[b[k].failLink].pattern)
  }

  /** A state that keeps its own pattern id keeps its soundness. */
  lemma {:induction false} OwnPatternSound(a: seq<Node>, b: seq<Node>, peptides: seq<Peptide>, k: nat)
    requires TreeShaped(a) && TreeShaped(b) && ShapeExtends(a, b) && PatternsSound(a, peptides)
    requires k < |a| && b[k].pattern == a[k].pattern
    ensures PatternSoundAt(b, peptides, k)
  {
    assert PatternSoundAt(a, peptides, k);
    LabelExtends(a, b, k);
  }

  /** A state that takes its fail target's pattern id inherits its soundness. */
  lemma {:induction false} FailPatternSound(b: seq<Node>, peptides: seq<Peptide>, k: nat)
    requires TreeShaped(b) && k < |b| && b[k].failLink < |b| && IsSuffix(Label(b, b[k].failLink), Label(b, k))
    requires b[k].pattern == b[b[k].failLink].pattern && PatternSoundAt(b, peptides, b[k].failLink)
    ensures PatternSoundAt(b, peptides, k)
  {
    var f := b[k].failLink;
    var lf := Label(b, f);
    var lk := Label(b, k);
    PatternSoundLabel(b, peptides, f, lf);
    PatternSuffix(b[k].pattern, peptides, lf, lk);
    PatternSoundLabel(b, peptides, k, lk);
  }

  /** Pattern soundness at a state, read off its label. */
  lemma {:induction false} PatternSoundLabel(b: seq<Node>, peptides: seq<Peptide>, k: nat, l: string)
    requires TreeShaped(b) && k < |b| && l == Label(b, k)
    ensures PatternSoundAt(b, peptides, k) <==>
      (b[k].pattern == -1 || (1 <= b[k].pattern <= |peptides| && IsSuffix(peptides[b[k].pattern - 1].sequence, l)))
  {
  }

  /** A pattern id sound for a label is sound for every text that label ends. */
  lemma {:induction false} PatternSuffix(p: int, peptides: seq<Peptide>, l: string, text: string)
    requires p == -1 || (1 <= p <= |peptides| && IsSuffix(peptides[p - 1].sequence, l))
    requires IsSuffix(l, text)
    ensures p == -1 || (1 <= p <= |peptides| && IsSuffix(peptides[p - 1].sequence, text))
  {
    if p != -1 {
      SuffixTransitive(peptides[p - 1].sequence, l, text);
    }
  }

  lemma {:induction false} InheritSoundAt(a: seq<Node>, b: seq<Node>, peptides: seq<Peptide>, k: nat)
    requires TreeShaped(a) && TreeShaped(b) && ShapeExtends(a, b) && PatternsSound(a, peptides) && Inherits(a, b)
    requires FailSound(b) && k < |b|
    ensures PatternSoundAt(b, peptides, k)
    decreases b[k].level
  {
    if b[k].pattern == a[k].pattern {
      OwnPatternSound(a, b, peptides, k);
    } else {
      assert k != 0 && b[k].pattern == b[b[k].failLink].pattern;
      InheritSoundAt(a, b, peptides, b[k].failLink);
      FailPatternSound(b, peptides, k);
    }
  }

  /** Inheriting pattern ids along sound fail links keeps pattern ids sound. */
  lemma {:induction false} InheritSound(a: seq<Node>, b: seq<Node>, peptides: seq<Peptide>)
    requires TreeShaped(a) && TreeShaped(b) && ShapeExtends(a, b) && PatternsSound(a, peptides) && Inherits(a, b)
    requires FailSound(b)
    ensures PatternsSound(b, peptides)
  {
    forall k | 0 <= k < |b|
      ensures PatternSoundAt(b, peptides, k)
    {
      InheritSoundAt(a, b, peptides, k);
    }
  }

  // ---------------------------------------------------------------------------
  // Breadth-first order

  /** Queue entries are distinct states that are not done yet. */
  ghost predicate QueueFresh(t: seq<Node>, done: set<nat>, queue: seq<nat>) {
    (forall x :: x in done ==> x < |t|) &&
    (forall i :: 0 <= i < |queue| ==> queue[i] < |t| && queue[i] !in done) &&
    (forall i, j :: 0 <= i < j < |queue| ==> queue[i] != queue[j])
  }

  /** Queue levels do not decrease, span at most two levels and are no lower than any done state. */
  ghost predicate QueueLevels(t: seq<Node>, done: set<nat>, queue: seq<nat>)
    requires QueueFresh(t, done, queue)
  {
    (forall i, j :: 0 <= i < j < |queue| ==> t[queue[i]].level <= t[queue[j]].level) &&
    (|queue| > 0 ==> t[queue[|queue| - 1]].level <= t[queue[0]].level + 1) &&
    (forall x, i {:trigger t[x], queue[i]} :: x in done && 0 <= i < |queue| ==> t[x].level <= t[queue[i]].level)
  }

  /** The root is reached; children of done states are done or queued, and only children of done states are. */
  ghost predicate QueueClosed(t: seq<Node>, done: set<nat>, queue: seq<nat>) {
    (0 in done || 0 in queue) &&
    (forall k {:trigger t[k].parent} :: 0 < k < |t| && t[k].parent in done ==> k in done || k in queue) &&
    (forall k {:trigger t[k].parent} :: 0 < k < |t| && (k in done || k in queue) ==> t[k].parent in done)
  }

  /**
   * The state of a breadth-first traversal of the trie `t`: `done` holds the
   * states already taken out of the queue.
   */
  ghost predicate BfsInv(t: seq<Node>, done: set<nat>, queue: seq<nat>) {
    QueueFresh(t, done, queue) && QueueLevels(t, done, queue) && QueueClosed(t, done, queue)
  }

  /** A set of naturals below n has at most n elements. */
  lemma {:induction false} RangeCard(s: set<nat>, n: nat)
    requires forall x :: x in s ==> x < n
    ensures |s| <= n
    decreases n
  {
    if n > 0 {
      RangeCard(s - {n - 1}, n - 1);
    }
  }

  /** Taking a new state out of the queue adds one to the done states. */
  lemma {:induction false} DoneGrows(done: set<nat>, v: nat)
    requires v !in done
    ensures |done + {v}| == |done| + 1
  {
  }

  lemma {:induction false} BfsStart(t: seq<Node>)
    requires TreeShaped(t)
    ensures BfsInv(t, {}, [0])
  {
  }

  /** The children queued in one step: distinct, and exactly the children of the front state. */
  ghost predicate ChildrenOf(t: seq<Node>, v: nat, children: seq<nat>) {
    (forall i, j :: 0 <= i < j < |children| ==> children[i] != children[j]) &&
    (forall u {:trigger t[u].parent} {:trigger u in children} :: u in children <==> 0 < u < |t| && t[u].parent == v)
  }

  lemma {:induction false} BfsStepFresh(t: seq<Node>, done: set<nat>, queue: seq<nat>, children: seq<nat>)
    requires TreeShaped(t) && BfsInv(t, done, queue) && |queue| > 0 && ChildrenOf(t, queue[0], children)
    ensures QueueFresh(t, done + {queue[0]}, queue[1..] + children)
  {
    var v := queue[0];
    var q := queue[1..] + children;
    forall i | 0 <= i < |children|
      ensures children[i] < |t| && children[i] !in done && children[i] !in queue
    {
      assert children[i] in children;
    }
    forall i | 0 <= i < |q|
      ensures q[i] < |t| && q[i] !in done + {v}
    {
      if i < |queue| - 1 {
        assert q[i] == queue[i + 1];
      } else {
        assert q[i] == children[i - |queue| + 1];
      }
    }
    forall i, j | 0 <= i < j < |q|
      ensures q[i] != q[j]
    {
      if i < |queue| - 1 {
        assert q[i] == queue[i + 1];
      }
    }
  }

  /** The levels of the children queued in one step: one more than the front state's. */
  lemma {:induction false} ChildrenLevel(t: seq<Node>, v: nat, children: seq<nat>)
    requires TreeShaped(t) && ChildrenOf(t, v, children) && v < |t|
    ensures forall i :: 0 <= i < |children| ==> children[i] < |t| && t[children[i]].level == t[v].level + 1
  {
    forall i | 0 <= i < |children|
      ensures children[i] < |t| && t[children[i]].level == t[v].level + 1
    {
      assert children[i] in children;
    }
  }

  /** After a step every queued state is on the front state's level or the next one. */
  lemma {:induction false} BfsStepBand(t: seq<Node>, queue: seq<nat>, children: seq<nat>)
    requires |queue| > 0 && forall i :: 0 <= i < |queue| ==> queue[i] < |t|
    requires forall i :: 0 <= i < |queue| ==> t[queue[0]].level <= t[queue[i]].level <= t[queue[0]].level + 1
    requires forall i :: 0 <= i < |children| ==> children[i] < |t| && t[children[i]].level == t[queue[0]].level + 1
    ensures forall i :: 0 <= i < |queue| - 1 ==> (queue[1..] + children)[i] == queue[i + 1]
    ensures forall i :: |queue| - 1 <= i < |queue| - 1 + |children| ==>
      (queue[1..] + children)[i] == children[i - |queue| + 1]
    ensures forall i :: 0 <= i < |queue| - 1 + |children| ==>
      (queue[1..] + children)[i] < |t| &&
      t[queue[0]].level <= t[(queue[1..] + children)[i]].level <= t[queue[0]].level + 1
  {
  }

  lemma {:induction false} BfsStepLevels(t: seq<Node>, done: set<nat>, queue: seq<nat>, children: seq<nat>)
    requires TreeShaped(t) && BfsInv(t, done, queue) && |queue| > 0 && ChildrenOf(t, queue[0], children)
    requires QueueFresh(t, done + {queue[0]}, queue[1..] + children)
    ensures QueueLevels(t, done + {queue[0]}, queue[1..] + children)
  {
    var v := queue[0];
    var q := queue[1..] + children;
    ChildrenLevel(t, v, children);
    forall i | 0 <= i < |queue|
      ensures t[v].level <= t[queue[i]].level <= t[v].level + 1
    {
    }
    BfsStepBand(t, queue, children);
    forall i, j | 0 <= i < j < |q|
      ensures t[q[i]].level <= t[q[j]].level
    {
      if j < |queue| - 1 {
        assert q[i] == queue[i + 1] && q[j] == queue[j + 1];
      }
    }
    forall x, i | x in done + {v} && 0 <= i < |q|
      ensures t[x].level <= t[q[i]].level
    {
    }
  }

  lemma {:induction false} BfsStepClosed(t: seq<Node>, done: set<nat>, queue: seq<nat>, children: seq<nat>)
    requires QueueClosed(t, done, queue) && |queue| > 0 && ChildrenOf(t, queue[0], children)
    ensures QueueClosed(t, done + {queue[0]}, queue[1..] + children)
  {
    var v := queue[0];
    var q := queue[1..] + children;
    var d := done + {v};
    if 0 !in done {
      var i :| 0 <= i < |queue| && queue[i] == 0;
      if i > 0 {
        assert q[i - 1] == 0;
      }
    }
    forall k | 0 < k < |t| && t[k].parent in d
      ensures k in d || k in q
    {
      if t[k].parent == v {
        assert k in children;
      } else if k !in done {
        var i :| 0 <= i < |queue| && queue[i] == k;
        if i > 0 {
          assert q[i - 1] == k;
        }
      }
    }
    forall k | 0 < k < |t| && (k in d || k in q)
      ensures t[k].parent in d
    {
      if k in q && k !in children {
        var i :| 0 <= i < |q| && q[i] == k;
        assert queue[i + 1] == k;
      }
    }
  }

  /** Taking the front state out and queueing exactly its children keeps the traversal invariant. */
  lemma {:induction false} BfsStep(t: seq<Node>, done: set<nat>, queue: seq<nat>, children: seq<nat>)
    requires TreeShaped(t) && BfsInv(t, done, queue) && |queue| > 0 && ChildrenOf(t, queue[0], children)
    ensures BfsInv(t, done + {queue[0]}, queue[1..] + children)
  {
    BfsStepFresh(t, done, queue, children);
    BfsStepLevels(t, done, queue, children);
    BfsStepClosed(t, done, queue, children);
  }

  /** When a state is taken out of the queue, every state of smaller level is already done. */
  lemma {:induction false} BfsFrontier(t: seq<Node>, done: set<nat>, queue: seq<nat>, u: nat)
    requires TreeShaped(t) && BfsInv(t, done, queue) && |queue| > 0
    requires u < |t| && t[u].level < t[queue[0]].level
    ensures u in done
    decreases u
  {
    if u !in done && u !in queue && u != 0 {
      BfsFrontier(t, done, queue, t[u].parent);
    }
  }

  /** When the queue is empty, every state is done. */
  lemma {:induction false} BfsComplete(t: seq<Node>, done: set<nat>, u: nat)
    requires TreeShaped(t) && BfsInv(t, done, []) && u < |t|
    ensures u in done
    decreases u
  {
    if u != 0 {
      BfsComplete(t, done, t[u].parent);
    }
  }

  /** In a trie, the targets of a state's edges are exactly its children, each reached along one key. */
  lemma {:induction false} TrieChildren(t: seq<Node>, v: nat)
    requires Trie(t) && v < |t|
    ensures forall u {:trigger t[u].parent} {:trigger u in t[v].edges.Values} :: u in t[v].edges.Values <==> 0 < u < |t| && t[u].parent == v
    ensures forall a, b :: a in t[v].edges && b in t[v].edges && a != b ==> t[v].edges[a] != t[v].edges[b]
  {
    forall u | u in t[v].edges.Values
      ensures 0 < u < |t| && t[u].parent == v
    {
      var c :| c in t[v].edges && t[v].edges[c] == u;
    }
    forall u | 0 < u < |t| && t[u].parent == v
      ensures u in t[v].edges.Values
    {
      var c := t[u].bChar.value;
      assert c in t[v].edges && t[v].edges[c] == u;
    }
    forall a, b | a in t[v].edges && b in t[v].edges && a != b
      ensures t[v].edges[a] != t[v].edges[b]
    {
      assert t[t[v].edges[a]].bChar == Some(a) && t[t[v].edges[b]].bChar == Some(b);
    }
  }

  // ---------------------------------------------------------------------------
  // Scanning

  /** `Node.getNextState`: the edge target on `edge`, or the root when there is no such edge. */
  function NextState(nodes: seq<Node>, state: nat, edge: char): (r: nat)
    requires state < |nodes| && EdgesInRange(nodes)
    ensures r < |nodes|
    ensures edge in nodes[state].edges ==> r == nodes[state].edges[edge]
    ensures edge !in nodes[state].edges ==> r == 0
  {
    if edge in nodes[state].edges then nodes[state].edges[edge] else 0
  }

  /** The state reached by feeding `text` to the automaton from the root. */
  function Run(nodes: seq<Node>, text: string): (r: nat)
    requires |nodes| > 0 && EdgesInRange(nodes)
    ensures r < |nodes|
  {
    if text == [] then 0 else NextState(nodes, Run(nodes, text[..|text| - 1]), text[|text| - 1])
  }

  /** Reading the label of a state from the root, along tree edges, ends in that state. */
  lemma {:induction false} RunLabel(nodes: seq<Node>, k: nat)
    requires TreeShaped(nodes) && ChildrenLinked(nodes) && EdgesInRange(nodes) && k < |nodes|
    ensures Run(nodes, Label(nodes, k)) == k
    decreases k
  {
    if k != 0 {
      var q := nodes[k].parent;
      RunLabel(nodes, q);
      var spelt := Label(nodes, k);
      assert spelt[..|spelt| - 1] == Label(nodes, q);
    }
  }

  /** After any text, the label of the current state is a suffix of the text read so far. */
  lemma {:induction false} RunSound(nodes: seq<Node>, text: string)
    requires TreeShaped(nodes) && EdgesInRange(nodes) && EdgesSound(nodes)
    ensures IsSuffix(Label(nodes, Run(nodes, text)), text)
  {
    if text != [] {
      RunSound(nodes, text[..|text| - 1]);
      RunStepSound(nodes, text);
    }
  }

  /** One step of `RunSound`: reading one more residue keeps the label a suffix of the text. */
  lemma {:induction false} RunStepSound(nodes: seq<Node>, text: string)
    requires TreeShaped(nodes) && EdgesInRange(nodes) && EdgesSound(nodes) && text != []
    requires IsSuffix(Label(nodes, Run(nodes, text[..|text| - 1])), text[..|text| - 1])
    ensures IsSuffix(Label(nodes, Run(nodes, text)), text)
  {
    var state := Run(nodes, text[..|text| - 1]);
    var c := text[|text| - 1];
    if c in nodes[state].edges {
      var next := nodes[state].edges[c];
      assert IsSuffix(Label(nodes, next), Label(nodes, state) + [c]);
      SuffixOfStep(Label(nodes, state), Label(nodes, next), text);
    }
  }

  /** If l ends the text without its last residue, and l2 ends l followed by that residue, then l2 ends the text. */
  lemma {:induction false} SuffixOfStep(l: string, l2: string, text: string)
    requires text != [] && IsSuffix(l, text[..|text| - 1]) && IsSuffix(l2, l + [text[|text| - 1]])
    ensures IsSuffix(l2, text)
  {
    var prefix, c := text[..|text| - 1], text[|text| - 1];
    SuffixExtend(l, prefix, c);
    assert prefix + [c] == text;
    SuffixTransitive(l2, l + [c], text);
  }

  /** No spurious matches: a reported pattern id names a peptide that ends where the text read so far ends. */
  lemma {:induction false} MatchSound(nodes: seq<Node>, peptides: seq<Peptide>, text: string)
    requires Sound(nodes, peptides)
    ensures var p := nodes[Run(nodes, text)].pattern;
      p != -1 ==> 1 <= p <= |peptides| && IsSuffix(peptides[p - 1].sequence, text)
  {
    var state := Run(nodes, text);
    var spelt := Label(nodes, state);
    RunSound(nodes, text);
    var p := nodes[state].pattern;
    assert PatternSoundAt(nodes, peptides, state);
    if p != -1 {
      SuffixTransitive(peptides[p - 1].sequence, spelt, text);
    }
  }

}

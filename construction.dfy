/**
 * What is true of the node list at each step of building the automaton: while
 * the trie is built, while fail links are computed breadth first, and while
 * the goto function is closed breadth first; and what each finished pass gives.
 */
module Construction {
  import opened Outcomes
  import opened Peptides
  import opened Automaton

  // ---------------------------------------------------------------------------
  // Trie building

  /** No fail link has been computed yet. */
  ghost predicate Unlinked(nodes: seq<Node>) {
    forall k :: 0 <= k < |nodes| ==> nodes[k].failLink == 0
  }

  /** Each state carries the id of the last of `entries` whose sequence is the state's label, or -1. */
  ghost predicate PatternsAre(nodes: seq<Node>, entries: seq<Entry>)
    requires TreeShaped(nodes)
  {
    forall k {:trigger nodes[k].pattern} :: 0 <= k < |nodes| ==> nodes[k].pattern == LastIndex(entries, Label(nodes, k))
  }

  /** `ends[j]` is the state whose label is the sequence of `entries[j]`. */
  ghost predicate Reaches(nodes: seq<Node>, ends: seq<nat>, entries: seq<Entry>)
    requires TreeShaped(nodes)
  {
    |ends| == |entries| &&
    forall j :: 0 <= j < |ends| ==> ends[j] < |nodes| && Label(nodes, ends[j]) == entries[j].peptide.sequence
  }

  /** The invariant of trie building after the first entries have been inserted. */
  ghost predicate Building(nodes: seq<Node>, ends: seq<nat>, entries: seq<Entry>) {
    Trie(nodes) && Unlinked(nodes) && PatternsAre(nodes, entries) && Reaches(nodes, ends, entries)
  }

  lemma {:induction false} LastIndexAppend(entries: seq<Entry>, e: Entry, s: string)
    ensures LastIndex(entries + [e], s) == if e.peptide.sequence == s then e.index else LastIndex(entries, s)
  {
    assert (entries + [e])[..|entries|] == entries;
  }

  /** Adding a child keeps every earlier state's label, so every inserted entry is still reached. */
  lemma {:induction false} AddChildReaches(nodes: seq<Node>, ends: seq<nat>, entries: seq<Entry>, p: nat, c: char)
    requires Trie(nodes) && Reaches(nodes, ends, entries) && p < |nodes| && c !in nodes[p].edges
    ensures Trie(WithChild(nodes, p, c)) && Reaches(WithChild(nodes, p, c), ends, entries)
  {
    WithChildTrie(nodes, p, c);
  }

  /** No inserted entry spells the label of a state that does not exist yet. */
  lemma {:induction false} AddChildUnused(nodes: seq<Node>, ends: seq<nat>, entries: seq<Entry>, p: nat, c: char)
    requires Trie(nodes) && Reaches(nodes, ends, entries) && p < |nodes| && c !in nodes[p].edges
    ensures LastIndex(entries, Label(nodes, p) + [c]) == -1
  {
    forall e | e in entries
      ensures e.peptide.sequence != Label(nodes, p) + [c]
    {
      var j :| 0 <= j < |entries| && entries[j] == e;
      MissingChildLabel(nodes, p, c, ends[j]);
    }
  }

  /** Adding a child keeps every pattern id right; the new state has none. */
  lemma {:induction false} AddChildPatterns(nodes: seq<Node>, ends: seq<nat>, entries: seq<Entry>, p: nat, c: char)
    requires Trie(nodes) && Reaches(nodes, ends, entries) && PatternsAre(nodes, entries)
    requires p < |nodes| && c !in nodes[p].edges
    ensures Trie(WithChild(nodes, p, c)) && PatternsAre(WithChild(nodes, p, c), entries)
  {
    var r := WithChild(nodes, p, c);
    WithChildTrie(nodes, p, c);
    AddChildUnused(nodes, ends, entries, p, c);
    forall k | 0 <= k < |r|
      ensures r[k].pattern == LastIndex(entries, Label(r, k))
    {
      if k < |nodes| {
        assert r[k].pattern == nodes[k].pattern == LastIndex(entries, Label(nodes, k));
      }
    }
  }

  /** Adding a child along a missing edge keeps the building invariant. */
  lemma {:induction false} AddChildKeeps(nodes: seq<Node>, ends: seq<nat>, entries: seq<Entry>, p: nat, c: char)
    requires Building(nodes, ends, entries) && p < |nodes| && c !in nodes[p].edges
    ensures Building(WithChild(nodes, p, c), ends, entries)
    ensures Label(WithChild(nodes, p, c), |nodes|) == Label(nodes, p) + [c]
  {
    var r := WithChild(nodes, p, c);
    WithChildTrie(nodes, p, c);
    AddChildReaches(nodes, ends, entries, p, c);
    AddChildPatterns(nodes, ends, entries, p, c);
    forall k | 0 <= k < |r|
      ensures r[k].failLink == 0
    {
      if k < |nodes| && k != p {
        assert r[k] == nodes[k];
      }
    }
  }

  /** Recording an entry's id changes no label. */
  lemma {:induction false} SetPatternShape(nodes: seq<Node>, ends: seq<nat>, entries: seq<Entry>, k: nat, e: Entry)
    requires Trie(nodes) && Unlinked(nodes) && Reaches(nodes, ends, entries) && k < |nodes| && Label(nodes, k) == e.peptide.sequence
    ensures Trie(nodes[k := nodes[k].(pattern := e.index)]) && Unlinked(nodes[k := nodes[k].(pattern := e.index)])
    ensures Reaches(nodes[k := nodes[k].(pattern := e.index)], ends + [k], entries + [e])
  {
    SameTrieLabels(nodes, nodes[k := nodes[k].(pattern := e.index)]);
  }

  /** Recording an entry's id at the state its sequence leads to makes it the last id for that label. */
  lemma {:induction false} SetPatternPatterns(nodes: seq<Node>, entries: seq<Entry>, k: nat, e: Entry)
    requires Trie(nodes) && PatternsAre(nodes, entries) && k < |nodes| && Label(nodes, k) == e.peptide.sequence
    ensures Trie(nodes[k := nodes[k].(pattern := e.index)])
    ensures PatternsAre(nodes[k := nodes[k].(pattern := e.index)], entries + [e])
  {
    var r := nodes[k := nodes[k].(pattern := e.index)];
    SameTrieLabels(nodes, r);
    forall u | 0 <= u < |r|
      ensures r[u].pattern == LastIndex(entries + [e], Label(r, u))
    {
      LastIndexAppend(entries, e, Label(nodes, u));
      if u != k {
        assert r[u].pattern == nodes[u].pattern == LastIndex(entries, Label(nodes, u));
        if Label(nodes, u) == e.peptide.sequence {
          LabelInjective(nodes, u, k);
        }
      }
    }
  }

  /** Recording the entry at the state its sequence leads to keeps the building invariant. */
  lemma {:induction false} SetPatternKeeps(nodes: seq<Node>, ends: seq<nat>, entries: seq<Entry>, k: nat, e: Entry)
    requires Building(nodes, ends, entries) && k < |nodes| && Label(nodes, k) == e.peptide.sequence
    ensures Building(nodes[k := nodes[k].(pattern := e.index)], ends + [k], entries + [e])
  {
    SetPatternShape(nodes, ends, entries, k, e);
    SetPatternPatterns(nodes, entries, k, e);
  }

  /** What the building invariant gives once every entry has been inserted. */
  lemma {:induction false} BuildingDone(nodes: seq<Node>, ends: seq<nat>, entries: seq<Entry>)
    requires Building(nodes, ends, entries)
    ensures Trie(nodes) && Unlinked(nodes) && PatternsAre(nodes, entries)
    ensures forall k :: 0 <= k < |nodes| ==> nodes[k].level == |Label(nodes, k)|
    ensures exists ends :: Reaches(nodes, ends, entries)
  {
    forall k | 0 <= k < |nodes|
      ensures nodes[k].level == |Label(nodes, k)|
    {
      LabelLength(nodes, k);
    }
  }

  /** The state reached by building holds the pattern id and label the source promises for every peptide. */
  lemma {:induction false} BuiltReaches(nodes: seq<Node>, ends: seq<nat>, list: seq<Peptide>, i: nat)
    requires TreeShaped(nodes) && Reaches(nodes, ends, Sort(Numbered(list))) && i < |list|
    ensures exists k :: 0 <= k < |nodes| && Label(nodes, k) == list[i].sequence
  {
    var sorted := Sort(Numbered(list));
    OccursSorted(Numbered(list), sorted, i);
    var j :| 0 <= j < |sorted| && sorted[j] == Numbered(list)[i];
    assert Label(nodes, ends[j]) == list[i].sequence;
  }


  // ---------------------------------------------------------------------------
  // Breadth-first passes

  /** The targets of a trie state's edges, listed once each, are exactly its children. */
  lemma {:induction false} QueuedChildren(t: seq<Node>, v: nat, children: seq<nat>)
    requires Trie(t) && v < |t|
    requires forall u :: u in children <==> u in t[v].edges.Values
    requires (forall a, b :: a in t[v].edges && b in t[v].edges && a != b ==> t[v].edges[a] != t[v].edges[b]) ==>
      forall i, j :: 0 <= i < j < |children| ==> children[i] != children[j]
    ensures ChildrenOf(t, v, children)
  {
    TrieChildren(t, v);
  }

  // ---------------------------------------------------------------------------
  // Fail links

  /**
   * One update of the fail-link pass: state v gets fail link f and, when it has
   * no pattern id of its own, takes f's (a fail link of 0 means none was found,
   * and then nothing changes but the link itself).
   */
  function Relinked(nodes: seq<Node>, v: nat, f: nat): (r: seq<Node>)
    requires v < |nodes| && f < |nodes|
    ensures |r| == |nodes| && r[v].failLink == f
    ensures forall k :: 0 <= k < |nodes| && k != v ==> r[k] == nodes[k]
    ensures r[v].edges == nodes[v].edges && r[v].level == nodes[v].level
    ensures r[v].parent == nodes[v].parent && r[v].bChar == nodes[v].bChar
  {
    nodes[v := nodes[v].(failLink := f, pattern := if nodes[v].pattern == -1 && f != 0 then nodes[f].pattern else nodes[v].pattern)]
  }

  /**
   * State k of `nodes` is linked: its fail link is its fail target, and it has
   * its own pattern id from the trie t, or its fail target's when it had none.
   */
  ghost predicate LinkedAt(t: seq<Node>, nodes: seq<Node>, k: nat)
    requires TreeShaped(nodes) && FailDecreasing(nodes) && |t| == |nodes| && k < |nodes|
  {
    nodes[k].failLink == FailTarget(nodes, k) &&
    nodes[k].pattern == (if t[k].pattern == -1 && nodes[k].failLink != 0 then nodes[nodes[k].failLink].pattern else t[k].pattern)
  }

  /** The invariant of the fail-link pass over the trie t once the states in `done` have been taken from the queue. */
  ghost predicate Linking(t: seq<Node>, nodes: seq<Node>, done: set<nat>) {
    Trie(t) && Unlinked(t) && SameTrie(t, nodes) && TreeShaped(nodes) && FailDecreasing(nodes) && FailSound(nodes) &&
    (forall k {:trigger nodes[k]} :: 0 <= k < |nodes| && k !in done ==> nodes[k] == t[k]) &&
    (forall k {:trigger LinkedAt(t, nodes, k)} :: 0 <= k < |nodes| && k in done ==> LinkedAt(t, nodes, k))
  }

  /** What the fail-link pass gives: the trie t with every state linked. */
  ghost predicate Linked(t: seq<Node>, nodes: seq<Node>) {
    Trie(t) && SameTrie(t, nodes) && TreeShaped(nodes) && FailDecreasing(nodes) && FailSound(nodes) &&
    forall k {:trigger LinkedAt(t, nodes, k)} :: 0 <= k < |nodes| ==> LinkedAt(t, nodes, k)
  }

  /** Before the pass, the trie itself satisfies the invariant with nothing done. */
  lemma {:induction false} LinkingStart(t: seq<Node>)
    requires Trie(t) && Unlinked(t)
    ensures Linking(t, t, {})
  {
    forall k | 0 < k < |t|
      ensures t[k].level > 0
    {
      LevelPositive(t, k);
    }
    assert Label(t, 0) == [];
  }

  /** r is nodes with only state v's fail link and pattern id changed. */
  ghost predicate Relink(nodes: seq<Node>, r: seq<Node>, v: nat, f: nat) {
    |r| == |nodes| && v < |nodes| && r[v].failLink == f &&
    r[v].edges == nodes[v].edges && r[v].level == nodes[v].level &&
    r[v].parent == nodes[v].parent && r[v].bChar == nodes[v].bChar &&
    forall k :: 0 <= k < |nodes| && k != v ==> r[k] == nodes[k]
  }

  lemma {:induction false} RelinkTrie(t: seq<Node>, nodes: seq<Node>, r: seq<Node>, v: nat, f: nat)
    requires Trie(t) && SameTrie(t, nodes) && Relink(nodes, r, v, f)
    ensures SameTrie(t, r) && TreeShaped(r) && Trie(r)
    ensures forall k :: 0 <= k < |r| ==> Label(r, k) == Label(t, k)
  {
    forall k | 0 <= k < |r|
      ensures r[k].edges == t[k].edges && r[k].parent == t[k].parent && r[k].bChar == t[k].bChar && r[k].level == t[k].level
    {
      if k != v {
        assert r[k] == nodes[k];
      }
    }
    SameTrieLabels(t, r);
  }

  lemma {:induction false} RelinkDecreasing(nodes: seq<Node>, r: seq<Node>, v: nat, f: nat)
    requires FailDecreasing(nodes) && Relink(nodes, r, v, f) && f < |nodes|
    requires v == 0 ==> f == 0
    requires v != 0 ==> nodes[f].level < nodes[v].level
    ensures FailDecreasing(r)
  {
    forall k | 0 < k < |r|
      ensures r[k].failLink < |r| && r[r[k].failLink].level < r[k].level
    {
      if k != v {
        assert r[k] == nodes[k];
      }
    }
  }

  lemma {:induction false} RelinkSound(t: seq<Node>, nodes: seq<Node>, r: seq<Node>, v: nat, f: nat)
    requires Trie(t) && SameTrie(t, nodes) && TreeShaped(nodes) && FailSound(nodes) && Relink(nodes, r, v, f)
    requires FailDecreasing(r) && f < |nodes| && IsSuffix(Label(nodes, f), Label(nodes, v))
    ensures TreeShaped(r) && FailSound(r)
  {
    RelinkTrie(t, nodes, r, v, f);
    SameTrieLabels(t, nodes);
    forall k | 0 <= k < |r|
      ensures r[k].failLink < |r| && (k != 0 ==> r[r[k].failLink].level < r[k].level)
      ensures IsSuffix(Label(r, r[k].failLink), Label(r, k))
    {
      var g := r[k].failLink;
      if k != v {
        assert r[k] == nodes[k];
        assert IsSuffix(Label(nodes, g), Label(nodes, k));
      }
      assert Label(r, g) == Label(t, g) == Label(nodes, g);
      assert Label(r, k) == Label(t, k) == Label(nodes, k);
    }
  }

  /** Relinking v to its fail target keeps the trie, and keeps fail links decreasing and sound. */
  lemma {:induction false} RelinkShape(t: seq<Node>, nodes: seq<Node>, r: seq<Node>, v: nat)
    requires Trie(t) && SameTrie(t, nodes) && TreeShaped(nodes) && FailDecreasing(nodes) && FailSound(nodes) && v < |nodes|
    requires FailTarget(nodes, v) < |nodes| && r == Relinked(nodes, v, FailTarget(nodes, v))
    ensures SameTrie(t, r) && TreeShaped(r) && FailDecreasing(r) && FailSound(r)
  {
    SameTrieLabels(t, nodes);
    TrieSound(nodes);
    var f := FailTarget(nodes, v);
    FailTargetSuffix(nodes, v);
    if v != 0 {
      FailTargetLevel(nodes, v);
    }
    assert Relink(nodes, r, v, f);
    RelinkTrie(t, nodes, r, v, f);
    RelinkDecreasing(nodes, r, v, f);
    RelinkSound(t, nodes, r, v, f);
  }

  /** Changing one state of level `bound` changes the fail target of no state of level at most `bound`. */
  lemma {:induction false} FailTargetsAgree(a: seq<Node>, b: seq<Node>, bound: nat)
    requires TreeShaped(a) && TreeShaped(b) && FailDecreasing(a) && FailDecreasing(b)
    requires ShapeExtends(a, b) && AgreeBelow(a, b, bound)
    ensures forall k :: 0 <= k < |a| && a[k].level <= bound ==> FailTarget(a, k) == FailTarget(b, k)
  {
    forall k | 0 <= k < |a| && a[k].level <= bound
      ensures FailTarget(a, k) == FailTarget(b, k)
    {
      FailTargetFrame(a, b, k, bound);
    }
  }

  /** Relinking v changes no shape and no state below v's level. */
  lemma {:induction false} RelinkAgrees(nodes: seq<Node>, v: nat, f: nat)
    requires v < |nodes| && f < |nodes|
    ensures ShapeExtends(nodes, Relinked(nodes, v, f)) && AgreeBelow(nodes, Relinked(nodes, v, f), nodes[v].level)
  {
  }

  /** Relinking v to its fail target links v. */
  lemma {:induction false} RelinkedHere(t: seq<Node>, nodes: seq<Node>, r: seq<Node>, v: nat, f: nat)
    requires |t| == |nodes| && TreeShaped(nodes) && FailDecreasing(nodes) && v < |nodes| && nodes[v] == t[v]
    requires f == FailTarget(nodes, v) && f < |nodes| && r == Relinked(nodes, v, f)
    requires TreeShaped(r) && FailDecreasing(r) && FailTarget(r, v) == f
    ensures LinkedAt(t, r, v)
  {
    if f != 0 {
      assert v != 0;
      assert r[f] == nodes[f];
    }
  }

  /** Relinking v keeps every linked state linked and links v, when every done state is no deeper than v. */
  lemma {:induction false} RelinkDone(t: seq<Node>, nodes: seq<Node>, r: seq<Node>, done: set<nat>, v: nat)
    requires Linking(t, nodes, done) && v < |nodes| && v !in done
    requires forall u :: u in done ==> u < |t| && t[u].level <= t[v].level
    requires FailTarget(nodes, v) < |nodes| && r == Relinked(nodes, v, FailTarget(nodes, v))
    requires TreeShaped(r) && FailDecreasing(r)
    ensures forall k :: 0 <= k < |r| && k in done + {v} ==> LinkedAt(t, r, k)
  {
    var f := FailTarget(nodes, v);
    RelinkAgrees(nodes, v, f);
    FailTargetsAgree(nodes, r, nodes[v].level);
    RelinkedHere(t, nodes, r, v, f);
    forall k | 0 <= k < |r| && k in done
      ensures LinkedAt(t, r, k)
    {
      assert nodes[k].level == t[k].level <= t[v].level == nodes[v].level;
      RelinkedElsewhere(t, nodes, r, v, f, k);
    }
  }

  /** Relinking v keeps linked a state no deeper than v. */
  lemma {:induction false} RelinkedElsewhere(t: seq<Node>, nodes: seq<Node>, r: seq<Node>, v: nat, f: nat, k: nat)
    requires |t| == |nodes| && TreeShaped(nodes) && FailDecreasing(nodes) && v < |nodes| && k < |nodes| && k != v
    requires f < |nodes| && r == Relinked(nodes, v, f) && TreeShaped(r) && FailDecreasing(r)
    requires LinkedAt(t, nodes, k) && FailTarget(r, k) == FailTarget(nodes, k) && nodes[k].level <= nodes[v].level
    ensures LinkedAt(t, r, k)
  {
    var g := nodes[k].failLink;
    if k != 0 {
      assert nodes[g].level < nodes[k].level;
    }
    assert r[g] == nodes[g];
  }

  /** Taking v from the front of the queue and relinking it keeps the invariant of the pass. */
  lemma {:induction false} RelinkStep(t: seq<Node>, nodes: seq<Node>, done: set<nat>, queue: seq<nat>)
    requires Linking(t, nodes, done) && BfsInv(t, done, queue) && |queue| > 0
    ensures FailTarget(nodes, queue[0]) < |nodes|
    ensures Linking(t, Relinked(nodes, queue[0], FailTarget(nodes, queue[0])), done + {queue[0]})
  {
    var v := queue[0];
    SameTrieLabels(t, nodes);
    TrieSound(nodes);
    FailTargetSuffix(nodes, v);
    var r := Relinked(nodes, v, FailTarget(nodes, v));
    RelinkShape(t, nodes, r, v);
    forall k | k in done
      ensures k < |t| && t[k].level <= t[v].level
    {
    }
    RelinkDone(t, nodes, r, done, v);
    forall k | 0 <= k < |r| && k !in done + {v}
      ensures r[k] == t[k]
    {
    }
  }

  /** The front of the queue is an untouched state of a trie whose edges are sound. */
  lemma {:induction false} LinkFront(t: seq<Node>, nodes: seq<Node>, done: set<nat>, queue: seq<nat>)
    requires Linking(t, nodes, done) && BfsInv(t, done, queue) && |queue| > 0
    ensures queue[0] < |nodes| && queue[0] !in done && nodes[queue[0]] == t[queue[0]] && nodes[queue[0]].failLink == 0
    ensures Trie(nodes) && EdgesInRange(nodes) && EdgesSound(nodes)
  {
    SameTrieLabels(t, nodes);
    TrieSound(nodes);
    var v := queue[0];
    assert nodes[v] == t[v];
  }

  /** A chain target is an edge target, so in a trie it is never the root. */
  lemma {:induction false} ChainTargetNotRoot(nodes: seq<Node>, x: nat, c: char)
    requires FailDecreasing(nodes) && OnlyTreeEdges(nodes) && x < |nodes|
    ensures ChainTarget(nodes, x, c).Some? ==> ChainTarget(nodes, x, c).value != 0
    decreases nodes[x].level
  {
    if c !in nodes[x].edges && x != 0 {
      ChainTargetNotRoot(nodes, nodes[x].failLink, c);
    }
  }

  /** When the fail chain of v's parent yields nothing, relinking v changes nothing. */
  lemma {:induction false} RelinkNone(nodes: seq<Node>, v: nat)
    requires TreeShaped(nodes) && FailDecreasing(nodes) && v < |nodes| && nodes[v].failLink == 0
    requires nodes[v].level > 1 ==> v != 0 && ChainTarget(nodes, nodes[nodes[v].parent].failLink, nodes[v].bChar.value) == None
    ensures FailTarget(nodes, v) == 0 && Relinked(nodes, v, FailTarget(nodes, v)) == nodes
  {
    assert nodes[v := nodes[v]] == nodes;
  }

  /**
   * When the fail chain of v's parent yields f, the update of v in the source
   * (take f's pattern id if v has none and f has one, then link to f) is relinking v.
   */
  lemma {:induction false} RelinkSome(nodes: seq<Node>, v: nat, f: nat, node: Node)
    requires TreeShaped(nodes) && FailDecreasing(nodes) && OnlyTreeEdges(nodes) && v < |nodes| && f < |nodes|
    requires nodes[v].level > 1 && v != 0 && ChainTarget(nodes, nodes[nodes[v].parent].failLink, nodes[v].bChar.value) == Some(f)
    requires node == (if nodes[v].pattern == -1 && nodes[f].pattern != -1 then nodes[v].(pattern := nodes[f].pattern) else nodes[v]).(failLink := f)
    ensures FailTarget(nodes, v) == f && nodes[v := node] == Relinked(nodes, v, FailTarget(nodes, v))
  {
    ChainTargetNotRoot(nodes, nodes[nodes[v].parent].failLink, nodes[v].bChar.value);
    assert FailTarget(nodes, v) == f && f != 0;
    assert node == nodes[v].(failLink := f, pattern := if nodes[v].pattern == -1 && f != 0 then nodes[f].pattern else nodes[v].pattern);
  }

  /** When the queue is empty, every state is linked. */
  lemma {:induction false} LinkingDone(t: seq<Node>, nodes: seq<Node>, done: set<nat>)
    requires Linking(t, nodes, done) && BfsInv(t, done, [])
    ensures Linked(t, nodes)
  {
    forall k | 0 <= k < |nodes|
      ensures k in done
    {
      BfsComplete(t, done, k);
    }
  }

  /** After the pass, each state keeps its own pattern id or, having none, takes its fail target's. */
  lemma {:induction false} LinkedInherits(t: seq<Node>, nodes: seq<Node>)
    requires Linked(t, nodes)
    ensures Inherits(t, nodes)
  {
    forall k | 0 <= k < |nodes|
      ensures nodes[k].pattern == t[k].pattern ||
        (k != 0 && t[k].pattern == -1 && nodes[k].pattern == nodes[nodes[k].failLink].pattern)
    {
      assert LinkedAt(t, nodes, k);
    }
  }
  // ---------------------------------------------------------------------------
  // Closing the goto function

  /**
   * One update of the closure pass at state v: a state other than the root
   * gets every edge of its fail target that it lacks, and its fail target's
   * pattern id when it has none of its own and the fail target has one.
   */
  function Closed(nodes: seq<Node>, v: nat): (r: seq<Node>)
    requires v < |nodes| && nodes[v].failLink < |nodes|
    ensures |r| == |nodes| && forall k :: 0 <= k < |nodes| && k != v ==> r[k] == nodes[k]
    ensures r[v].level == nodes[v].level && r[v].failLink == nodes[v].failLink
    ensures r[v].parent == nodes[v].parent && r[v].bChar == nodes[v].bChar
  {
    if nodes[v].level == 0 then nodes
    else
      var f := nodes[nodes[v].failLink];
      nodes[v := nodes[v].(edges := f.edges + nodes[v].edges,
                           pattern := if nodes[v].pattern == -1 && f.pattern != -1 then f.pattern else nodes[v].pattern)]
  }

  /** The closure pass changes no level, fail link, parent or label character. */
  ghost predicate SameLinks(t: seq<Node>, m: seq<Node>) {
    |m| == |t| &&
    forall k {:trigger m[k]} :: 0 <= k < |m| ==>
      m[k].level == t[k].level && m[k].failLink == t[k].failLink && m[k].parent == t[k].parent && m[k].bChar == t[k].bChar
  }

  /**
   * State k of m is closed over the trie t: it has its tree edges plus, unless
   * it is the root, every edge of its closed fail target that it lacks; and
   * the fail target's pattern id if it had none and the fail target has one.
   */
  ghost predicate ClosedAt(t: seq<Node>, m: seq<Node>, k: nat) {
    k < |m| == |t| && t[k].failLink < |m| &&
    m[k].edges == (if t[k].level == 0 then t[k].edges else m[t[k].failLink].edges + t[k].edges) &&
    m[k].pattern == (if t[k].level != 0 && t[k].pattern == -1 && m[t[k].failLink].pattern != -1
                     then m[t[k].failLink].pattern else t[k].pattern)
  }

  /** States not yet taken from the queue are as in t. */
  ghost predicate Untouched(t: seq<Node>, m: seq<Node>, done: set<nat>) {
    |m| == |t| && forall k {:trigger m[k]} :: 0 <= k < |m| && k !in done ==> m[k] == t[k]
  }

  /** The states taken from the queue are closed. */
  ghost predicate ClosedOn(t: seq<Node>, m: seq<Node>, done: set<nat>) {
    forall k {:trigger ClosedAt(t, m, k)} :: 0 <= k < |m| && k in done ==> ClosedAt(t, m, k)
  }

  /** The invariant of the closure pass over the linked trie t once the states in `done` have been taken from the queue. */
  ghost predicate Closing(t: seq<Node>, m: seq<Node>, done: set<nat>) {
    Trie(t) && FailSound(t) && FailDecreasing(t) && SameLinks(t, m) && Untouched(t, m, done) && ClosedOn(t, m, done)
  }

  /** What the closure pass gives: every state of t closed. */
  ghost predicate Completed(t: seq<Node>, m: seq<Node>) {
    SameLinks(t, m) && forall k {:trigger ClosedAt(t, m, k)} :: 0 <= k < |m| ==> ClosedAt(t, m, k)
  }

  /** Before the pass, the linked trie itself satisfies the invariant with nothing done. */
  lemma {:induction false} ClosingStart(t: seq<Node>)
    requires Trie(t) && FailSound(t) && FailDecreasing(t)
    ensures Closing(t, t, {})
  {
  }

  /** Closing v keeps a done state k closed when k's fail target is not v. */
  lemma {:induction false} ClosedElsewhere(t: seq<Node>, m: seq<Node>, v: nat, k: nat)
    requires v < |m| && m[v].failLink < |m| && ClosedAt(t, m, k) && k != v && t[k].failLink != v
    ensures ClosedAt(t, Closed(m, v), k)
  {
    var r := Closed(m, v);
    assert r[k] == m[k] && r[t[k].failLink] == m[t[k].failLink];
  }

  /** Closing v, once every state of smaller level is done, makes v closed. */
  lemma {:induction false} ClosedHere(t: seq<Node>, m: seq<Node>, v: nat)
    requires TreeShaped(t) && FailDecreasing(t) && SameLinks(t, m) && v < |m| && m[v] == t[v]
    ensures ClosedAt(t, Closed(m, v), v)
  {
    var r := Closed(m, v);
    if t[v].level != 0 {
      assert v != 0;
      assert r[t[v].failLink] == m[t[v].failLink];
    }
  }

  /** The front of the queue is an untouched state. */
  lemma {:induction false} CloseFront(t: seq<Node>, m: seq<Node>, done: set<nat>, queue: seq<nat>)
    requires Closing(t, m, done) && BfsInv(t, done, queue) && |queue| > 0
    ensures queue[0] < |m| && queue[0] !in done && m[queue[0]] == t[queue[0]] && m[queue[0]].failLink < |m|
  {
    assert m[queue[0]] == t[queue[0]];
  }

  lemma {:induction false} CloseLinks(t: seq<Node>, m: seq<Node>, v: nat)
    requires SameLinks(t, m) && v < |m| && m[v].failLink < |m|
    ensures SameLinks(t, Closed(m, v))
  {
    var r := Closed(m, v);
    forall k | 0 <= k < |r|
      ensures r[k].level == t[k].level && r[k].failLink == t[k].failLink && r[k].parent == t[k].parent && r[k].bChar == t[k].bChar
    {
      if k != v {
        assert r[k] == m[k];
      }
    }
  }

  lemma {:induction false} CloseUntouched(t: seq<Node>, m: seq<Node>, done: set<nat>, v: nat)
    requires Untouched(t, m, done) && v < |m| && m[v].failLink < |m|
    ensures Untouched(t, Closed(m, v), done + {v})
  {
    var r := Closed(m, v);
    forall k | 0 <= k < |r| && k !in done + {v}
      ensures r[k] == t[k]
    {
      assert r[k] == m[k];
    }
  }

  /** Closing v keeps the done states closed: none of them has v as fail target, being of level at most v's. */
  lemma {:induction false} CloseOthers(t: seq<Node>, m: seq<Node>, done: set<nat>, v: nat)
    requires TreeShaped(t) && FailDecreasing(t) && ClosedOn(t, m, done)
    requires |m| == |t| && v < |m| && m[v].failLink < |m| && v !in done
    requires forall k :: k in done ==> k < |t| && t[k].level <= t[v].level
    ensures ClosedOn(t, Closed(m, v), done)
  {
    forall k | 0 <= k < |m| && k in done
      ensures ClosedAt(t, Closed(m, v), k)
    {
      assert ClosedAt(t, m, k);
      if k != 0 {
        assert t[t[k].failLink].level < t[k].level <= t[v].level;
      }
      ClosedElsewhere(t, m, v, k);
    }
  }

  /** Taking the front state out of the queue and closing it keeps the invariant. */
  lemma {:induction false} CloseStep(t: seq<Node>, m: seq<Node>, done: set<nat>, queue: seq<nat>)
    requires Closing(t, m, done) && BfsInv(t, done, queue) && |queue| > 0
    requires queue[0] < |m| && queue[0] !in done && m[queue[0]] == t[queue[0]] && m[queue[0]].failLink < |m|
    ensures Closing(t, Closed(m, queue[0]), done + {queue[0]})
  {
    var v := queue[0];
    ClosedHere(t, m, v);
    CloseLinks(t, m, v);
    CloseUntouched(t, m, done, v);
    forall k | k in done
      ensures k < |t| && t[k].level <= t[v].level
    {
    }
    CloseOthers(t, m, done, v);
  }

  /** When the queue is empty, every state is closed. */
  lemma {:induction false} ClosingDone(t: seq<Node>, m: seq<Node>, done: set<nat>)
    requires Closing(t, m, done) && BfsInv(t, done, [])
    ensures Completed(t, m)
  {
    forall k | 0 <= k < |m|
      ensures k in done
    {
      BfsComplete(t, done, k);
    }
  }

  /**
   * The completed pass is the closure of the trie's goto function, and each
   * state keeps its pattern id or, having none, takes its fail target's.
   */
  lemma {:induction false} CompletedClosure(t: seq<Node>, m: seq<Node>)
    requires Trie(t) && FailDecreasing(t) && Completed(t, m)
    ensures Closure(t, m) && Inherits(t, m)
  {
    forall k | 0 <= k < |m|
      ensures m[k].edges == (if m[k].level == 0 then t[k].edges else m[m[k].failLink].edges + t[k].edges)
      ensures m[k].pattern == t[k].pattern || (k != 0 && t[k].pattern == -1 && m[k].pattern == m[m[k].failLink].pattern)
    {
      assert ClosedAt(t, m, k);
      if t[k].level != 0 {
        assert k != 0;
      }
    }
  }
  // ---------------------------------------------------------------------------
  // The whole construction

  /** Pattern ids recorded while inserting the sorted list are sound for the list as read. */
  lemma {:induction false} BuiltPatternsSound(t: seq<Node>, list: seq<Peptide>)
    requires TreeShaped(t) && PatternsAre(t, Sort(Numbered(list)))
    ensures PatternsSound(t, list)
  {
    forall k | 0 <= k < |t|
      ensures PatternSoundAt(t, list, k)
    {
      var l := Label(t, k);
      assert t[k].pattern == LastIndex(Sort(Numbered(list)), l);
      LastIndexSound(list, l);
    }
  }

  /** The last position of a sequence in the list names a peptide with that sequence. */
  lemma {:induction false} LastIndexSound(list: seq<Peptide>, l: string)
    ensures var p := LastIndex(Sort(Numbered(list)), l);
      p == -1 || (1 <= p <= |list| && IsSuffix(list[p - 1].sequence, l))
  {
    SortedLastIndex(list, l);
  }

  /** After the fail-link pass the states still form the same trie, with the same labels. */
  lemma {:induction false} LinkedTrie(t: seq<Node>, nodes: seq<Node>)
    requires Linked(t, nodes)
    ensures Trie(nodes) && FailSound(nodes) && FailDecreasing(nodes)
    ensures forall k :: 0 <= k < |t| ==> Label(nodes, k) == Label(t, k)
  {
    SameTrieLabels(t, nodes);
  }

  /** A state whose own pattern id is set keeps it through both passes. */
  lemma {:induction false} OwnPatternKept(t0: seq<Node>, t1: seq<Node>, t2: seq<Node>, k: nat)
    requires Inherits(t0, t1) && Inherits(t1, t2) && k < |t0| && t0[k].pattern != -1
    ensures t2[k].pattern == t0[k].pattern
  {
    assert t0[k].pattern == t0[k].pattern;
    assert t1[k].pattern == t1[k].pattern;
  }

  /**
   * Reading peptide i of the list from the root ends in the state that spells
   * it, and that state reports the largest 1-based position at which the
   * sequence occurs in the list.
   */
  ghost predicate Recognises(nodes: seq<Node>, list: seq<Peptide>, i: nat)
    requires TreeShaped(nodes) && EdgesInRange(nodes) && i < |list|
  {
    var s := list[i].sequence;
    var p := nodes[Run(nodes, s)].pattern;
    Label(nodes, Run(nodes, s)) == s && 1 <= p <= |list| && list[p - 1].sequence == s &&
    forall j :: 0 <= j < |list| && list[j].sequence == s ==> j + 1 <= p
  }

  /** Reading peptide i from the root ends in the state that spells it, which kept the id recorded while building. */
  lemma {:induction false} BuiltState(list: seq<Peptide>, t0: seq<Node>, ends: seq<nat>, t2: seq<Node>, i: nat) returns (k: nat)
    requires TreeShaped(t0) && Reaches(t0, ends, Sort(Numbered(list))) && PatternsAre(t0, Sort(Numbered(list)))
    requires TreeShaped(t2) && ChildrenLinked(t2) && EdgesInRange(t2) && |t2| == |t0|
    requires forall k {:trigger Label(t0, k)} :: 0 <= k < |t0| ==> Label(t2, k) == Label(t0, k)
    requires forall k {:trigger t0[k].pattern} :: 0 <= k < |t0| && t0[k].pattern != -1 ==> t2[k].pattern == t0[k].pattern
    requires i < |list|
    ensures k < |t2| && Run(t2, list[i].sequence) == k && Label(t2, k) == list[i].sequence
    ensures t2[k].pattern == LastIndex(Sort(Numbered(list)), list[i].sequence)
  {
    var s := list[i].sequence;
    BuiltReaches(t0, ends, list, i);
    k :| 0 <= k < |t0| && Label(t0, k) == s;
    assert Label(t2, k) == s;
    RunLabel(t2, k);
    SortedLastIndex(list, s);
    assert t0[k].pattern == LastIndex(Sort(Numbered(list)), s) != -1;
  }

  /**
   * Reading a peptide of the list from the root ends in the state that spells
   * it, which carries the largest 1-based position at which the sequence occurs.
   */
  lemma {:induction false} BuiltRun(list: seq<Peptide>, t0: seq<Node>, ends: seq<nat>, t2: seq<Node>, i: nat)
    requires TreeShaped(t0) && Reaches(t0, ends, Sort(Numbered(list))) && PatternsAre(t0, Sort(Numbered(list)))
    requires TreeShaped(t2) && ChildrenLinked(t2) && EdgesInRange(t2) && |t2| == |t0|
    requires forall k {:trigger Label(t0, k)} :: 0 <= k < |t0| ==> Label(t2, k) == Label(t0, k)
    requires forall k {:trigger t0[k].pattern} :: 0 <= k < |t0| && t0[k].pattern != -1 ==> t2[k].pattern == t0[k].pattern
    requires i < |list|
    ensures Recognises(t2, list, i)
  {
    var k := BuiltState(list, t0, ends, t2, i);
    RecognisedAt(t2, list, i, k);
  }

  /** A state that spells peptide i, is where reading it ends, and carries its last position recognises it. */
  lemma {:induction false} RecognisedAt(t2: seq<Node>, list: seq<Peptide>, i: nat, k: nat)
    requires TreeShaped(t2) && EdgesInRange(t2) && i < |list| && k < |t2|
    requires Run(t2, list[i].sequence) == k && Label(t2, k) == list[i].sequence
    requires t2[k].pattern == LastIndex(Sort(Numbered(list)), list[i].sequence)
    ensures Recognises(t2, list, i)
  {
    var s := list[i].sequence;
    SortedLastIndex(list, s);
    assert LastIndex(Sort(Numbered(list)), s) != -1;
  }

  /**
   * What the three passes give together, for the list as read: edges and pattern
   * ids are sound, the goto function is closed over fail links, and reading
   * any peptide of the list from the root ends in the state that spells it,
   * carrying the largest 1-based position at which that sequence occurs.
   */
  lemma {:induction false} BuiltAutomaton(list: seq<Peptide>, t0: seq<Node>, t1: seq<Node>, t2: seq<Node>)
    requires Trie(t0) && PatternsAre(t0, Sort(Numbered(list)))
    requires exists ends :: Reaches(t0, ends, Sort(Numbered(list)))
    requires Linked(t0, t1) && Completed(t1, t2)
    ensures Sound(t2, list) && FailSound(t2) && ChildrenLinked(t2)
    ensures forall k :: 0 < k < |t2| ==> t2[t2[k].failLink].edges.Keys <= t2[k].edges.Keys
    ensures forall i :: 0 <= i < |list| ==> Recognises(t2, list, i)
  {
    var ends :| Reaches(t0, ends, Sort(Numbered(list)));
    BuiltPatternsSound(t0, list);
    LinkedTrie(t0, t1);
    LinkedInherits(t0, t1);
    InheritSound(t0, t1, list);
    CompletedClosure(t1, t2);
    ClosureEdgesSound(t1, t2);
    ClosureShape(t1, t2);
    ClosureKeepsTree(t1, t2);
    ClosureComplete(t1, t2);
    InheritSound(t1, t2, list);
    forall k | 0 <= k < |t0| && t0[k].pattern != -1
      ensures t2[k].pattern == t0[k].pattern
    {
      OwnPatternKept(t0, t1, t2, k);
    }
    forall i | 0 <= i < |list|
      ensures Recognises(t2, list, i)
    {
      BuiltRun(list, t0, ends, t2, i);
    }
  }
}

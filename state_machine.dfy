/**
 * The Aho–Corasick state machine over a list of peptides, built the way its
 * constructor does: sort the peptides, build the trie, compute fail links
 * breadth first, then close the goto function breadth first.
 */
module AhoCorasick {
  import opened Outcomes
  import opened Peptides
  import opened Automaton
  import opened Construction
  import opened Matching

  /**
   * The targets of a state's edges, in whichever order the edge map yields
   * them (Java's HashMap order, which the model leaves open).
   */
  method EdgeTargets(edges: map<char, nat>) returns (targets: seq<nat>)
    ensures forall u :: u in targets <==> u in edges.Values
    ensures (forall a, b :: a in edges && b in edges && a != b ==> edges[a] != edges[b]) ==>
      forall i, j :: 0 <= i < j < |targets| ==> targets[i] != targets[j]
  {
    targets := [];
    var rest := edges.Keys;
    ghost var used: seq<char> := [];
    while rest != {}
      invariant rest <= edges.Keys && |used| == |targets|
      invariant forall i :: 0 <= i < |used| ==> used[i] in edges && used[i] !in rest && targets[i] == edges[used[i]]
      invariant forall i, j :: 0 <= i < j < |used| ==> used[i] != used[j]
      invariant forall c :: c in edges && c !in rest ==> c in used
      decreases rest
    {
      var c :| c in rest;
      targets := targets + [edges[c]];
      used := used + [c];
      rest := rest - {c};
    }
    forall u | u in edges.Values
      ensures u in targets
    {
      var c :| c in edges && edges[c] == u;
      var i :| 0 <= i < |used| && used[i] == c;
      assert targets[i] == u;
    }
  }

  /**
   * The backtracking loop of `computeFailureLinks`: from x, follow fail links
   * until a state with an edge on c or the root, and return that edge's
   * target if there is one.
   */
  method FollowFailChain(nodes: seq<Node>, x: nat, c: char) returns (r: Option<nat>)
    requires FailDecreasing(nodes) && x < |nodes|
    ensures r == ChainTarget(nodes, x, c)
  {
    var state: nat := x;
    while state != 0
      invariant state < |nodes| && ChainTarget(nodes, state, c) == ChainTarget(nodes, x, c)
      decreases nodes[state].level
    {
      if c in nodes[state].edges {
        break;
      }
      state := nodes[state].failLink;
    }
    if c in nodes[state].edges {
      r := Some(nodes[state].edges[c]);
    } else {
      r := None;
    }
  }

  /**
   * One step of `computeFailureLinks` at state v: a state deeper than level 1
   * gets, as fail link, the child along its label character of the first
   * state on its parent's fail chain that has one, and that state's pattern
   * id when it has none of its own and the fail state has one; otherwise
   * nothing changes.
   */
  method LinkState(states: seq<Node>, v: nat) returns (r: seq<Node>)
    requires Trie(states) && EdgesInRange(states) && EdgesSound(states) && FailSound(states) && FailDecreasing(states)
    requires v < |states| && states[v].failLink == 0
    ensures FailTarget(states, v) < |states| && r == Relinked(states, v, FailTarget(states, v))
  {
    FailTargetSuffix(states, v);
    r := states;
    if states[v].level > 1 {
      var failLink := FollowFailChain(states, states[states[v].parent].failLink, states[v].bChar.value);
      if failLink.Some? {
        var f := failLink.value;
        var node := states[v];
        if node.pattern == -1 && states[f].pattern != -1 {
          node := node.(pattern := states[f].pattern);
        }
        node := node.(failLink := f);
        RelinkSome(states, v, f, node);
        r := states[v := node];
      } else {
        RelinkNone(states, v);
      }
    } else {
      RelinkNone(states, v);
    }
  }

  /**
   * The copying loop of `computeStateTransitions`: every edge of `from` whose
   * key `into` lacks is added to `into`; the edges `into` has are kept.
   */
  method CopyMissingEdges(from: map<char, nat>, into: map<char, nat>) returns (r: map<char, nat>)
    ensures r.Keys == from.Keys + into.Keys
    ensures forall c :: c in into ==> r[c] == into[c]
    ensures forall c :: c in from && c !in into ==> r[c] == from[c]
  {
    r := into;
    var rest := from.Keys;
    while rest != {}
      invariant rest <= from.Keys
      invariant r.Keys == (from.Keys - rest) + into.Keys
      invariant forall c :: c in into ==> r[c] == into[c]
      invariant forall c :: c in from && c !in rest && c !in into ==> r[c] == from[c]
      decreases rest
    {
      var c :| c in rest;
      if c !in r {
        r := r[c := from[c]];
      }
      rest := rest - {c};
    }
  }

  /**
   * One step of `computeStateTransitions` at state v: a state other than the
   * root takes its fail target's pattern id when it has none and the fail
   * target has one, and gets every edge of its fail target that it lacks.
   */
  method CloseState(states: seq<Node>, v: nat) returns (r: seq<Node>)
    requires v < |states| && states[v].failLink < |states|
    ensures r == Closed(states, v)
  {
    r := states;
    var node := states[v];
    if node.level != 0 {
      var failNode := states[node.failLink];
      if node.pattern == -1 && failNode.pattern != -1 {
        node := node.(pattern := failNode.pattern);
      }
      var edges := CopyMissingEdges(failNode.edges, node.edges);
      assert edges == failNode.edges + node.edges;
      node := node.(edges := edges);
      r := states[v := node];
    }
  }

  class StateMachine {
    /** The states; index 0 is the root. */
    var nodes: seq<Node>
    /**
     * The peptide list after the in-place sort; each entry carries the
     * peptide's 1-based position before sorting (the `indices` map).
     */
    var peptides: seq<Entry>

    /**
     * `new StateMachine(peptides)`: number the peptides from 1 in the order
     * read, sort them by sequence, insert them into a trie, then compute fail
     * links and close the goto function. Reading any peptide of the list from
     * the root ends in the state spelling it, which reports the last position
     * of that sequence in the list; no state reports a peptide that does not
     * end where the text read so far ends; and after any text the state
     * reached reports the longest peptide ending it, at the last position its
     * sequence occupies, or -1 when no peptide ends it.
     */
    constructor (list: seq<Peptide>)
      ensures peptides == Sort(Numbered(list))
      ensures Sound(nodes, list) && FailSound(nodes) && ChildrenLinked(nodes)
      ensures forall k :: 0 < k < |nodes| ==> nodes[nodes[k].failLink].edges.Keys <= nodes[k].edges.Keys
      ensures forall i :: 0 <= i < |list| ==> Recognises(nodes, list, i)
      ensures Matches(nodes, list)
    {
      peptides := Sort(Numbered(list));
      nodes := [];
      new;
      ConstructTree();
      ghost var t0 := nodes;
      ComputeFailureLinks();
      ghost var t1 := nodes;
      LinkedTrie(t0, t1);
      ComputeStateTransitions();
      BuiltAutomaton(list, t0, t1, nodes);
      BuiltMatches(list, t0, t1, nodes);
    }

    /**
     * `constructTree(0, size, true)`: insert every peptide of the sorted list,
     * creating states along missing edges, and record at its last state the
     * peptide's original position (a later equal sequence overwrites it).
     */
    method ConstructTree()
      modifies this
      requires nodes == []
      ensures peptides == old(peptides)
      ensures Trie(nodes) && Unlinked(nodes) && PatternsAre(nodes, peptides)
      ensures forall k :: 0 <= k < |nodes| ==> nodes[k].level == |Label(nodes, k)|
      ensures exists ends :: Reaches(nodes, ends, peptides)
    {
      var list := peptides;
      nodes := [Fresh];
      ghost var ends: seq<nat> := [];
      var i := 0;
      while i < |list|
        invariant 0 <= i <= |list| && peptides == list
        invariant Building(nodes, ends, list[..i])
      {
        var nodeIndex: nat := 0;
        var sequence := list[i].peptide.sequence;
        var j := 0;
        while j < |sequence|
          invariant 0 <= j <= |sequence| && peptides == list
          invariant Building(nodes, ends, list[..i])
          invariant nodeIndex < |nodes| && Label(nodes, nodeIndex) == sequence[..j]
        {
          var edge := sequence[j];
          if edge in nodes[nodeIndex].edges {
            ChildLabel(nodes, nodeIndex, edge);
            nodeIndex := nodes[nodeIndex].edges[edge];
          } else {
            AddChildKeeps(nodes, ends, list[..i], nodeIndex, edge);
            nodes := WithChild(nodes, nodeIndex, edge);
            nodeIndex := |nodes| - 1;
          }
          PrefixNext(sequence, j);
          j := j + 1;
        }
        assert sequence[..j] == sequence;
        SetPatternKeeps(nodes, ends, list[..i], nodeIndex, list[i]);
        nodes := nodes[nodeIndex := nodes[nodeIndex].(pattern := list[i].index)];
        ends := ends + [nodeIndex];
        PrefixNext(list, i);
        i := i + 1;
      }
      assert list[..i] == list;
      BuildingDone(nodes, ends, list);
    }

    /**
     * `computeFailureLinks`: take states breadth first from the root, queueing
     * each state's children; give every state deeper than level 1 the child,
     * along its label character, of the first state on its parent's fail chain
     * that has one, and its pattern id when the state has none of its own.
     */
    method ComputeFailureLinks()
      modifies this
      requires Trie(nodes) && Unlinked(nodes)
      ensures peptides == old(peptides)
      ensures Linked(old(nodes), nodes)
    {
      var states := nodes;
      ghost var t := states;
      var queue: seq<nat> := [0];
      ghost var done: set<nat> := {};
      LinkingStart(t);
      BfsStart(t);
      while queue != []
        invariant nodes == old(nodes) && peptides == old(peptides)
        invariant BfsInv(t, done, queue) && Linking(t, states, done)
        decreases |t| - |done|
      {
        var v := queue[0];
        var children := EdgeTargets(states[v].edges);
        QueuedChildren(t, v, children);
        BfsStep(t, done, queue, children);
        RelinkStep(t, states, done, queue);
        LinkFront(t, states, done, queue);
        states := LinkState(states, v);
        queue := queue[1..] + children;
        DoneGrows(done, v);
        done := done + {v};
        RangeCard(done, |t|);
      }
      LinkingDone(t, states, done);
      nodes := states;
    }

    /**
     * `computeStateTransitions`: take states breadth first from the root,
     * queueing each state's children, and give every state other than the root
     * the edges and, lacking one, the pattern id of its fail target, which
     * being of smaller level has already been closed.
     */
    method ComputeStateTransitions()
      modifies this
      requires Trie(nodes) && FailSound(nodes) && FailDecreasing(nodes)
      ensures peptides == old(peptides)
      ensures Completed(old(nodes), nodes)
    {
      var states := nodes;
      ghost var t := states;
      var queue: seq<nat> := [0];
      ghost var done: set<nat> := {};
      ClosingStart(t);
      BfsStart(t);
      while queue != []
        invariant nodes == old(nodes) && peptides == old(peptides)
        invariant BfsInv(t, done, queue) && Closing(t, states, done)
        decreases |t| - |done|
      {
        var v := queue[0];
        CloseFront(t, states, done, queue);
        var children := EdgeTargets(states[v].edges);
        QueuedChildren(t, v, children);
        BfsStep(t, done, queue, children);
        CloseStep(t, states, done, queue);
        states := CloseState(states, v);
        queue := queue[1..] + children;
        DoneGrows(done, v);
        done := done + {v};
        RangeCard(done, |t|);
      }
      ClosingDone(t, states, done);
      nodes := states;
    }
  }
}

/** The entries of predecessor lists that the backward search counts, as edges of the graph. */
module ListedEdges {
  import opened PostorderDfs
  import opened TopsortSearch
  import opened OnlineTopsort

  /** No node lists a predecessor twice. */
  ghost predicate NoParallelEdges(ms: set<Node>)
    reads ms`preds
  {
    forall n | n in ms :: Distinct(n.preds)
  }

  /** The edge that entry `e.1` of the predecessor list of `e.0` stands for. */
  ghost function EdgeOf(e: (Node, nat)): (Node, Node)
    requires e.1 < |e.0.preds|
    reads e.0`preds
  {
    (e.0.preds[e.1], e.0)
  }

  lemma EntriesDiffer(s: seq<Node>, i: nat, j: nat)
    requires Distinct(s) && i < |s| && j < |s| && i != j
    ensures s[i] != s[j]
  {
    assert if i < j then Differ(s, i, j) else Differ(s, j, i);
  }

  lemma OneEntry(e: (Node, nat), e': (Node, nat))
    requires e.1 < |e.0.preds| && e'.1 < |e'.0.preds| && EdgeOf(e) == EdgeOf(e') && Distinct(e.0.preds)
    ensures e == e'
  {
    if e.1 != e'.1 {
      EntriesDiffer(e.0.preds, e.1, e'.1);
    }
  }

  /** Without parallel edges, same-level entries of the members' lists are as many different edges. */
  lemma {:induction false} EntriesAreEdges(t: TopologicalSort, g: set<(Node, Node)>, outside: set<Node>, at: map<Node, Rank>,
                                           edges: set<(Node, nat)>)
    returns (met: set<(Node, Node)>)
    requires t.ListsMatch(g, outside) && t.Snapshot(at) && Over(g, at) && NoParallelEdges(t.members)
    requires forall e {:trigger e in edges} | e in edges :: e.0 in t.members && t.LevelEdge(e.0, e.1)
    ensures |met| == |edges| && met <= LevelGraph(g, at)
    ensures forall x | x in met :: exists e {:trigger e in edges} :: e in edges && e.1 < |e.0.preds| && x == EdgeOf(e)
    decreases edges
  {
    if edges == {} {
      met := {};
    } else {
      var e :| e in edges;
      var rest := edges - {e};
      met := EntriesAreEdges(t, g, outside, at, rest);
      var x := EdgeOf(e);
      assert x in g && at[x.0] == x.0.Key() && at[x.1] == x.1.Key();
      if x in met {
        var e' {:trigger e' in rest} :| e' in rest && e'.1 < |e'.0.preds| && x == EdgeOf(e');
        OneEntry(e, e');
      }
      met := met + {x};
      assert |edges| == |rest| + 1;
    }
  }
}

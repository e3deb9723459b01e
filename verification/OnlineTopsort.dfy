/** An incremental topological order of a changing directed graph, by two-way search: nodes carry a
    level and an index and stand in an intrusive list sorted by both; adding an edge (v, w) that the
    order violates searches backwards from v within its level, up to a budget, then forwards from w,
    and moves what it found. */
module OnlineTopsort {
  import opened Digraph
  import opened PostorderDfs
  import opened OrderedList
  import opened TopsortSearch
  import opened TopsortOrder
  import opened DeltaBound

  // Some invariants are conjunctions compared with `true`: the verifier then proves them as a whole, and
  // not conjunct by conjunct, at every place that establishes them.

  /** A node of the caller's graph, with its links into the order. */
  class Node {
    var indexInParent: nat
    var preds: seq<Node>
    var succs: seq<Node>
    var level: int
    var index: int
    var next: Node?
    var prev: Node?

    constructor (indexInParent: nat)
      ensures this.indexInParent == indexInParent && preds == [] && succs == []
      ensures level == -1 && index == -1 && next == null && prev == null
    {
      this.indexInParent := indexInParent;
      preds, succs := [], [];
      level, index := -1, -1;
      next, prev := null, null;
    }

    /** Nodes outside every order have level -1. */
    predicate InTopologicalOrder()
      reads `level
    {
      level >= 0
    }

    function Key(): Rank
      reads `level, `index
    {
      Rank(level, index)
    }
  }

  /** The order.  The ghost fields mirror the list behind the sentinel `node`: its nodes, their keys,
      and for each level the position of the node that its boundary pointer names. */
  class TopologicalSort {
    const node: Node
    var numEdges: nat
    var numNodes: nat
    var delta: nat
    var nextIndex: int
    var firstInLevel: seq<Node>
    var visitedBackwards: seq<bool>
    var visitedForwards: seq<bool>
    var increased: seq<bool>

    /** The nodes in the order. */
    ghost var members: set<Node>
    /** Whether a node was ever removed. */
    ghost var shrunk: bool
    ghost var chain: seq<Node>
    ghost var keys: seq<Rank>
    ghost var cut: seq<nat>

    /** `next` and `prev` run through `chain` both ways, and the sentinel's `prev` is the tail. */
    ghost predicate Linked()
      reads `chain, chain`next, chain`prev
    {
      && |chain| > 0 && chain[0] == node
      && (forall p {:trigger chain[p].next} | 0 <= p < |chain| ::
            chain[p].next == if p + 1 < |chain| then chain[p + 1] else null)
      && (forall p {:trigger chain[p].prev} | 0 < p < |chain| :: chain[p].prev == chain[p - 1])
      && node.prev == chain[|chain| - 1]
    }

    /** `keys` are the keys along the list. */
    ghost predicate Keyed()
      reads `chain, `keys, chain`level, chain`index
    {
      |keys| == |chain| && forall p {:trigger keys[p]} | 0 <= p < |chain| :: keys[p] == chain[p].Key()
    }

    /** The boundary pointer of each level names the node at its cut. */
    ghost predicate Indexed()
      reads `chain, `cut, `firstInLevel
    {
      BoundsAt(chain, cut, firstInLevel)
    }

    /** The list is linked both ways, strictly sorted by (level, index), and every boundary pointer
        names the last node below its level. */
    ghost predicate Rep()
      reads `chain, `keys, `cut, `firstInLevel, `nextIndex, chain
    {
      (Linked() && Keyed() && Indexed() && SortedKeys(keys, nextIndex) && CutsAt(keys, cut)) == true
    }

    constructor ()
      ensures Valid() && members == {} && chain == [node] && fresh(node)
    {
      var sentinel := new Node(0);
      node := sentinel;
      numEdges, numNodes, delta, nextIndex := 0, 0, 0, 0x7fff_ffff;
      firstInLevel := [sentinel];
      visitedBackwards, visitedForwards, increased := [], [], [];
      members, shrunk, chain, keys, cut := {}, false, [sentinel], [Rank(-1, -1)], [0];
      new;
      node.prev := node;
    }

    /** The node at position `p` occurs nowhere else. */
    lemma Once(p: nat, next: int)
      requires Keyed() && SortedKeys(keys, next) && p < |chain|
      ensures Apart(p)
    {
      forall i: nat | i < |chain| && i != p ensures chain[i] != chain[p] {
        assert chain[i].Key() == keys[i] && chain[p].Key() == keys[p];
        if i < p { KeysRise(keys, next, i, p); } else { KeysRise(keys, next, p, i); }
      }
    }

    ghost predicate Apart(p: nat)
      requires p < |chain|
      reads `chain
    {
      forall i | 0 <= i < |chain| && i != p :: chain[i] != chain[p]
    }

    /** Takes the node at position `p` out of the list. */
    method Unlink(v: Node, ghost p: nat)
      requires Linked() && Keyed() && 0 < p < |chain| && chain[p] == v
      requires Apart(p - 1) && Apart(p) && (p + 1 < |chain| ==> Apart(p + 1))
      modifies `chain, `keys, chain`next, chain`prev
      ensures Linked() && Keyed() && chain == RemoveAt(old(chain), p) && keys == RemoveAt(old(keys), p)
      ensures v.next == null && v.prev == null
    {
      ghost var was := chain;
      var before, after := v.prev, v.next;
      assert before == was[p - 1];
      assert after == if p + 1 < |was| then was[p + 1] else null;
      before.next := after;
      if after != null {
        assert after.prev == v;
        after.prev := before;
      } else {
        node.prev := before;
      }
      v.next := null;
      v.prev := null;
      chain, keys := RemoveAt(was, p), RemoveAt(keys, p);
      forall i | 0 <= i < |chain|
        ensures chain[i].next == if i + 1 < |chain| then chain[i + 1] else null
        ensures i > 0 ==> chain[i].prev == chain[i - 1]
        ensures keys[i] == chain[i].Key()
      {
        var j := if i < p then i else i + 1;
        assert chain[i] == was[j];
        assert old(was[j].next == if j + 1 < |was| then was[j + 1] else null);
        assert j > 0 ==> old(was[j].prev == was[j - 1]);
        assert old(keys[j] == was[j].Key());
      }
    }

    /** The loop over the levels above `level0` whose boundary is `from`. */
    method Redirect(level0: nat, from: Node, to: Node, ghost c: nat, ghost next: int)
      requires Indexed() && SortedKeys(keys, next) && CutsAt(keys, cut)
      requires c < |chain| == |keys| && from == chain[c] && keys[c].level <= level0
      requires Apart(c)
      modifies `firstInLevel
      ensures |firstInLevel| == old(|firstInLevel|)
      ensures forall k | 0 <= k < |firstInLevel| ::
        firstInLevel[k] == if k > level0 && cut[k] == c then to else chain[cut[k]]
    {
      var level := level0 + 1;
      while level < |firstInLevel| && firstInLevel[level] == from
        invariant level0 < level && |firstInLevel| == old(|firstInLevel|)
        invariant forall k | 0 <= k < |firstInLevel| ::
          firstInLevel[k] == if level0 < k < level then to else old(firstInLevel[k])
        invariant forall k | level0 < k < level && k < |cut| :: cut[k] == c
      {
        assert old(firstInLevel[level]) == chain[cut[level]];
        firstInLevel := firstInLevel[level := to];
        level := level + 1;
      }
      forall k | level <= k < |cut| ensures cut[k] > c {
        assert old(firstInLevel[level]) == chain[cut[level]] != from;
        CutSplits(keys, next, cut, level, c);
        CutRises(keys, next, cut, level, k);
      }
    }

    /** Boundary pointers that name `v` step back to its predecessor. */
    method RedirectAround(v: Node, ghost p: nat)
      requires Rep() && 0 < p < |chain| && chain[p] == v && Apart(p)
      modifies `firstInLevel, `cut
      ensures |firstInLevel| == old(|firstInLevel|)
      ensures SortedKeys(RemoveAt(keys, p), nextIndex) && CutsAt(RemoveAt(keys, p), cut)
      ensures BoundsAt(RemoveAt(chain, p), cut, firstInLevel)
    {
      assert v.prev == chain[p - 1] && v.Key() == keys[p];
      assert RisesAt(keys, p);
      Redirect(v.level, v, v.prev, p, nextIndex);
      RemoveKeeps(keys, nextIndex, cut, p, chain, firstInLevel);
      cut := CutsRemove(cut, p);
    }

    /** Takes a listed node out of the list and out of the boundary pointers. */
    method RemoveFromOrder(v: Node) returns (ghost p: nat)
      requires Rep() && v in chain && v != node
      modifies `firstInLevel, `chain, `keys, `cut, chain`next, chain`prev
      ensures Rep() && |firstInLevel| == old(|firstInLevel|)
      ensures 0 < p < old(|chain|) && old(chain[p]) == v && chain == RemoveAt(old(chain), p)
      ensures v.next == null && v.prev == null && Elems(chain) == Elems(old(chain)) - {v}
    {
      p :| 0 < p < |chain| && chain[p] == v;
      Once(p - 1, nextIndex);
      Once(p, nextIndex);
      if p + 1 < |chain| { Once(p + 1, nextIndex); }
      ElemsRemove(chain, p);
      RedirectAround(v, p);
      Unlink(v, p);
    }

    ghost predicate Unlisted(v: Node)
      reads `chain
    {
      forall i | 0 <= i < |chain| :: chain[i] != v
    }

    /** Links `v` behind `t`, the node at position `c`. */
    method LinkBehind(v: Node, ghost c: nat, t: Node, ghost key: Rank)
      requires Linked() && Keyed() && Unlisted(v) && key == v.Key() && c < |chain| && chain[c] == t
      requires Apart(c) && (c + 1 < |chain| ==> Apart(c + 1))
      modifies `chain, `keys, chain`next, chain`prev, v`next, v`prev
      ensures Linked() && Keyed()
      ensures chain == InsertAt(old(chain), c + 1, v) && keys == InsertAt(old(keys), c + 1, key)
    {
      ghost var was := chain;
      v.next := t.next;
      v.prev := t;
      assert v.next == if c + 1 < |was| then was[c + 1] else null;
      if v.next != null {
        v.next.prev := v;
      } else {
        node.prev := v;
      }
      t.next := v;
      chain, keys := InsertAt(was, c + 1, v), InsertAt(keys, c + 1, key);
      forall i | 0 <= i < |chain|
        ensures chain[i].next == if i + 1 < |chain| then chain[i + 1] else null
        ensures i > 0 ==> chain[i].prev == chain[i - 1]
        ensures keys[i] == chain[i].Key()
      {
        if i != c + 1 {
          var j := if i <= c then i else i - 1;
          assert chain[i] == was[j] != v;
          assert old(was[j].next == if j + 1 < |was| then was[j + 1] else null);
          assert j > 0 ==> old(was[j].prev == was[j - 1]);
          assert old(keys[j] == was[j].Key());
        }
      }
    }

    /** Boundary pointers above v's level that named the last node below it now name `v`. */
    method RedirectTo(v: Node, ghost c: nat, ghost key: Rank) returns (t: Node)
      requires Keyed() && Indexed() && SortedKeys(keys, key.index) && CutsAt(keys, cut)
      requires 0 <= v.level < |firstInLevel| && c == cut[v.level] && key == v.Key() && Apart(c)
      modifies `firstInLevel, `cut
      ensures |firstInLevel| == old(|firstInLevel|) && t == chain[c]
      ensures SortedKeys(InsertAt(keys, c + 1, key), key.index - 1) && CutsAt(InsertAt(keys, c + 1, key), cut)
      ensures BoundsAt(InsertAt(chain, c + 1, v), cut, firstInLevel)
    {
      t := firstInLevel[v.level];
      assert CutAt(keys, cut, v.level);
      Redirect(v.level, t, v, c, key.index);
      InsertKeeps(keys, key.index, cut, key, chain, firstInLevel, v);
      cut := CutsInsert(cut, v.level);
    }

    /** Makes `v` the first node of its level. */
    method InsertFirstInLevel(v: Node)
      requires Linked() && Keyed() && Indexed() && SortedKeys(keys, nextIndex + 1) && CutsAt(keys, cut)
      requires Unlisted(v) && 0 <= v.level < |firstInLevel| && v.index == nextIndex + 1
      modifies `firstInLevel, `chain, `keys, `cut, chain`next, chain`prev, v`next, v`prev
      ensures Rep() && |firstInLevel| == old(|firstInLevel|)
      ensures Elems(chain) == Elems(old(chain)) + {v}
    {
      ghost var c, key := cut[v.level], v.Key();
      Once(c, nextIndex + 1);
      if c + 1 < |chain| { Once(c + 1, nextIndex + 1); }
      ElemsInsert(chain, c + 1, v);
      var t := RedirectTo(v, c, key);
      LinkBehind(v, c, t, key);
    }

    /** Walks to the end of the list. */
    method FindTail() returns (t: Node)
      requires Rep()
      ensures t == chain[|chain| - 1]
    {
      t := firstInLevel[|firstInLevel| - 1];
      ghost var q := cut[|cut| - 1];
      while t.next != null
        invariant q < |chain| && t == chain[q]
        decreases |chain| - q
      {
        t := t.next;
        q := q + 1;
      }
    }

    /** New levels start out empty: their boundary is the tail. */
    method GrowLevels(level: nat)
      requires Rep()
      modifies `firstInLevel, `cut
      ensures Rep() && level < |firstInLevel|
    {
      if level >= |firstInLevel| {
        var t := FindTail();
        GrowKeeps(keys, nextIndex, cut, level + 1, chain, firstInLevel, t);
        cut := CutsGrow(cut, level + 1, |keys| - 1);
        firstInLevel := firstInLevel + seq(level + 1 - |firstInLevel|, _ => t);
      }
    }

    /** Gives `v` a fresh smallest index and puts it first on its level. */
    method UpdateIndex(v: Node)
      requires Rep() && v != node && v.level >= 0 && (v in chain || v.prev == null)
      modifies `nextIndex, `firstInLevel, `chain, `keys, `cut
      modifies chain`next, chain`prev, v`next, v`prev, v`index
      ensures Rep() && Elems(chain) == Elems(old(chain)) + {v}
      ensures v.index == old(nextIndex) && nextIndex == old(nextIndex) - 1
    {
      if v.prev != null {
        var p := RemoveFromOrder(v);
      }
      GrowLevels(v.level);
      v.index := nextIndex;
      nextIndex := nextIndex - 1;
      InsertFirstInLevel(v);
    }

    /** Grows the three mark vectors, if needed, to hold a mark for this index. */
    method UpdateMaxIndexInParent(maxIndexInParent: nat)
      requires |visitedBackwards| == |visitedForwards| == |increased|
      modifies `visitedBackwards, `visitedForwards, `increased
      ensures maxIndexInParent < |visitedBackwards| == |visitedForwards| == |increased|
      ensures old(|visitedBackwards|) <= |visitedBackwards|
      ensures visitedBackwards == Resized(old(visitedBackwards), |visitedBackwards|)
      ensures visitedForwards == Resized(old(visitedForwards), |visitedBackwards|)
      ensures increased == Resized(old(increased), |visitedBackwards|)
    {
      if maxIndexInParent >= |visitedBackwards| {
        visitedBackwards := Resized(visitedBackwards, maxIndexInParent + 1);
        visitedForwards := Resized(visitedForwards, maxIndexInParent + 1);
        increased := Resized(increased, maxIndexInParent + 1);
      }
    }

    /** Predecessor and successor lists of the members agree and together hold the edges `g`
        between members; all other nodes they mention are in `outside`. */
    ghost predicate ListsMatch(g: set<(Node, Node)>, outside: set<Node>)
      reads `members, members`preds, members`succs
    {
      ListsMatchOn(members, g, outside)
    }

    /** The nodes of `outside` are in no topological order. */
    ghost predicate Outside(outside: set<Node>)
      reads `members, outside`level
    {
      outside !! members && forall n | n in outside :: n.level < 0
    }

    /** The members' indices in the parent differ. */
    ghost predicate UniqueIds()
      reads `members, members`indexInParent
    {
      UniqueIdsOn(members)
    }

    /** `at` records the members' keys. */
    ghost predicate Snapshot(at: map<Node, Rank>)
      reads `members, members`level, members`index
    {
      at.Keys == members && forall n | n in members :: at[n] == n.Key()
    }

    ghost predicate Marks(bits: seq<bool>, s: set<Node>)
      reads `members, members`indexInParent
    {
      forall n {:trigger MarkAgrees(bits, s, n)} | n in members :: MarkAgrees(bits, s, n)
    }

    ghost predicate MarkAgrees(bits: seq<bool>, s: set<Node>, n: Node)
      reads n`indexInParent
    {
      Bit(bits, n.indexInParent) <==> n in s
    }

    lemma MarksResized(bits: seq<bool>, bits': seq<bool>, s: set<Node>)
      requires Marks(bits, s) && forall i: nat :: Bit(bits', i) <==> Bit(bits, i)
      ensures Marks(bits', s)
    {
      forall n | n in members ensures MarkAgrees(bits', s, n) {
        assert MarkAgrees(bits, s, n);
      }
    }

    lemma MarksAdd(bits: seq<bool>, s: set<Node>, y: Node)
      requires UniqueIds() && Marks(bits, s) && y in members && y.indexInParent < |bits|
      ensures Marks(bits[y.indexInParent := true], s + {y})
    {
      forall n | n in members ensures MarkAgrees(bits[y.indexInParent := true], s + {y}, n) {
        assert MarkAgrees(bits, s, n) && (SameId(n, y) ==> n == y);
      }
    }

    /** Entry `i` of y's predecessor list is a member on y's level: an edge the backward
        search counts. */
    ghost predicate LevelEdge(y: Node, i: int)
      reads `members, members`level, y`level, y`preds
    {
      0 <= i < |y.preds| && y.preds[i] in members && y.preds[i].level == y.level
    }

    /** The nodes of y's predecessor list that are in a topological order are members. */
    ghost predicate KnownPredecessors(y: Node)
      reads `members, y`preds, y.preds`level
    {
      forall x | x in y.preds :: x in members <==> x.level >= 0
    }

    /** `edges` are the same-level edges into the nodes of `seen`. */
    ghost predicate Counted(seen: set<Node>, edges: set<(Node, nat)>)
      reads `members, members`level, seen`preds, seen`level
    {
      && (forall e {:trigger e in edges} | e in edges :: e.0 in seen && LevelEdge(e.0, e.1))
      && (forall n, i: nat {:trigger LevelEdge(n, i)} | n in seen && LevelEdge(n, i) :: (n, i) in edges)
    }

    /** Stacks the same-level predecessors of `y`, counting their edges, until the budget is spent. */
    method StackPredecessors(y: Node, agenda: Agenda<Node>, visited: nat, ghost edges: set<(Node, nat)>)
      returns (agenda': Agenda<Node>, visited': nat, spent: bool, ghost kids: Agenda<Node>, ghost edges': set<(Node, nat)>)
      requires y in members
      requires KnownPredecessors(y)
      requires forall x | x in y.preds && x in members :: x.level <= y.level
      requires visited == |edges| < delta && forall e | e in edges :: e.0 != y
      ensures visited' == |edges'| <= delta && (spent <==> visited' == delta)
      ensures edges <= edges' && forall e {:trigger e in edges'} | e in edges' :: e in edges || (e.0 == y && LevelEdge(y, e.1))
      ensures !spent ==> agenda' == agenda + kids
      ensures forall k | 0 <= k < |kids| ::
        !kids[k].1 && kids[k].0 in y.preds && kids[k].0 in members && kids[k].0.level == y.level
      ensures !spent ==> forall i: nat | LevelEdge(y, i) :: (y, i) in edges' && (y.preds[i], false) in kids
    {
      agenda', visited', spent, kids, edges' := agenda, visited, false, [], edges;
      var it := 0;
      while visited' < delta && it < |y.preds|
        invariant it <= |y.preds| && visited' == |edges'| < delta
        invariant edges <= edges' && agenda' == agenda + kids
        invariant forall k | 0 <= k < |kids| ::
          !kids[k].1 && kids[k].0 in y.preds && kids[k].0 in members && kids[k].0.level == y.level
        invariant forall e {:trigger e in edges'} | e in edges' :: e in edges || (e.0 == y && e.1 < it && LevelEdge(y, e.1))
        invariant forall i: nat | i < it && LevelEdge(y, i) :: (y, i) in edges' && (y.preds[i], false) in kids
      {
        var x := y.preds[it];
        if x.InTopologicalOrder() {
          assert x.level <= y.level;
          if x.level == y.level {
            visited', edges' := visited' + 1, edges' + {(y, it)};
            if visited' >= delta {
              return agenda', visited', true, kids, edges';
            }
            agenda', kids := agenda' + [(x, false)], kids + [(x, false)];
          }
        }
        it := it + 1;
      }
    }

    /** Marks `y` as visited, unless it was, and stacks its predecessors behind its second entry. */
    method VisitBackwards(y: Node, agenda: Agenda<Node>, visited: nat, ghost seen: set<Node>, ghost edges: set<(Node, nat)>)
      returns (first: bool, agenda': Agenda<Node>, visited': nat, spent: bool, ghost kids: Agenda<Node>, ghost edges': set<(Node, nat)>)
      requires y in members && seen <= members && UniqueIds() && Marks(visitedBackwards, seen)
      requires KnownPredecessors(y)
      requires forall x | x in y.preds && x in members :: x.level <= y.level
      requires visited == |edges| < delta && Counted(seen, edges)
      requires |visitedBackwards| == |visitedForwards| == |increased|
      modifies `visitedBackwards, `visitedForwards, `increased
      ensures |visitedBackwards| == |visitedForwards| == |increased|
      ensures visited' == |edges'| <= delta && (spent <==> visited' == delta)
      ensures first <==> y !in seen
      ensures Marks(visitedBackwards, seen + {y})
      ensures !first ==> agenda' == agenda
      ensures forall e {:trigger e in edges'} | e in edges' :: e.0 in seen + {y} && LevelEdge(e.0, e.1)
      ensures first && !spent ==> agenda' == agenda + [(y, true)] + kids
      ensures forall k | 0 <= k < |kids| ::
        !kids[k].1 && kids[k].0 in y.preds && kids[k].0 in members && kids[k].0.level == y.level
      ensures first && !spent ==> forall i: nat | LevelEdge(y, i) :: (y.preds[i], false) in kids
      ensures !spent ==> Counted(seen + {y}, edges')
    {
      UpdateMaxIndexInParent(y.indexInParent);
      MarksResized(old(visitedBackwards), visitedBackwards, seen);
      assert MarkAgrees(visitedBackwards, seen, y);
      if visitedBackwards[y.indexInParent] {
        assert seen + {y} == seen;
        return false, agenda, visited, false, [], edges;
      }
      MarksAdd(visitedBackwards, seen, y);
      visitedBackwards := visitedBackwards[y.indexInParent := true];
      first := true;
      agenda', visited', spent, kids, edges' := StackPredecessors(y, agenda + [(y, true)], visited, edges);
    }

    lemma LevelKids(g: set<(Node, Node)>, outside: set<Node>, at: map<Node, Rank>, y: Node, kids: Agenda<Node>)
      requires y in members && ListsMatch(g, outside) && Snapshot(at)
      requires forall k | 0 <= k < |kids| ::
        !kids[k].1 && kids[k].0 in y.preds && kids[k].0 in members && kids[k].0.level == y.level
      requires forall i: nat | LevelEdge(y, i) :: (y.preds[i], false) in kids
      ensures LevelPredecessors(LevelGraph(g, at), y, kids)
    {
      forall e | e in LevelGraph(g, at) && e.1 == y ensures (e.0, false) in kids {
        assert e.0 in y.preds;
        var i: nat :| i < |y.preds| && y.preds[i] == e.0;
        assert LevelEdge(y, i);
      }
    }

    lemma PredecessorLevels(g: set<(Node, Node)>, outside: set<Node>, at: map<Node, Rank>, w: Node, y: Node)
      requires y in members && y != w && ListsMatch(g, outside) && Outside(outside)
      requires Snapshot(at) && Leveled(at) && RespectedBut(g, w, at)
      ensures KnownPredecessors(y)
      ensures forall x | x in y.preds && x in members :: x.level <= y.level
    {
      forall x | x in y.preds ensures x in members <==> x.level >= 0 {
        assert x in members ==> at[x] == x.Key();
      }
      forall x | x in y.preds && x in members ensures x.level <= y.level {
        assert (x, y) in g && at[x] == x.Key() && at[y] == y.Key();
      }
    }

    /** One non-post entry of the backward search: the body of the loop behind the cycle check. */
    method EnterBackwards(v: Node, w: Node, y: Node, rest: Agenda<Node>, visited: nat, ghost b: seq<Node>,
                          ghost g: set<(Node, Node)>, ghost outside: set<Node>, ghost at: map<Node, Rank>,
                          ghost seen: set<Node>, ghost edges: set<(Node, nat)>)
      returns (agenda: Agenda<Node>, visited': nat, spent: bool, ghost edges': set<(Node, nat)>)
      requires y in members && y != w && seen <= members && UniqueIds() && ListsMatch(g, outside)
      requires Snapshot(at) && Leveled(at) && RespectedBut(g, w, at) && Outside(outside)
      requires Backwards(v, w, LevelGraph(g, at), at, rest + [(y, false)], b, seen)
      requires visited == |edges| < delta && Counted(seen, edges)
      requires Marks(visitedBackwards, seen) && |visitedBackwards| == |visitedForwards| == |increased|
      modifies `visitedBackwards, `visitedForwards, `increased
      ensures |visitedBackwards| == |visitedForwards| == |increased|
      ensures visited' == |edges'| <= delta && (spent <==> visited' == delta)
      ensures Marks(visitedBackwards, seen + {y})
      ensures forall e {:trigger e in edges'} | e in edges' :: e.0 in seen + {y} && LevelEdge(e.0, e.1)
      ensures !spent ==> Counted(seen + {y}, edges')
      ensures !spent ==> Backwards(v, w, LevelGraph(g, at), at, agenda, b, seen + {y})
      ensures y in seen ==> agenda == rest
    {
      PredecessorLevels(g, outside, at, w, y);
      ghost var kids;
      var first;
      first, agenda, visited', spent, kids, edges' := VisitBackwards(y, rest, visited, seen, edges);
      if first {
        if !spent {
          LevelKids(g, outside, at, y, kids);
          BackwardsOpen(v, w, g, at, rest, b, seen, y, kids);
        }
      } else {
        BackwardsSkip(v, w, LevelGraph(g, at), at, rest, b, seen, y);
        assert seen + {y} == seen;
      }
    }

    /** Depth-first search from `v` over same-level edges backwards.  Meets `w`: a cycle.  Ends: `b` is
        exactly v's same-level ancestors, each once and after its predecessors.  Stops early: as many
        same-level entries of ancestors' predecessor lists as the budget allows were seen. */
    method SearchBackwards(v: Node, w: Node, ghost g: set<(Node, Node)>, ghost outside: set<Node>, ghost at: map<Node, Rank>)
      returns (cycle: bool, visitedDeltaEdges: bool, b: seq<Node>, ghost seen: set<Node>, ghost edges: set<(Node, nat)>)
      requires v in members && w in members && UniqueIds() && ListsMatch(g, outside)
      requires Snapshot(at) && Leveled(at) && RespectedBut(g, w, at) && Outside(outside)
      requires 0 < delta && |visitedBackwards| == |visitedForwards| == |increased|
      modifies `visitedBackwards, `visitedForwards, `increased
      ensures |visitedBackwards| == |visitedForwards| == |increased|
      ensures cycle ==> Reaches(LevelGraph(g, at), w, v)
      ensures !cycle && visitedDeltaEdges ==> |edges| == delta
      ensures !cycle && visitedDeltaEdges ==>
        forall e {:trigger e in edges} | e in edges ::
          e.0 in members && LevelEdge(e.0, e.1) && Reaches(LevelGraph(g, at), e.0, v)
      ensures !cycle && !visitedDeltaEdges ==>
        Ancestors(v, w, g, at, b) && seen == Elems(b) && |edges| < delta && Counted(Elems(b), edges)
      ensures Marks(visitedBackwards, seen) && seen <= members && (!cycle ==> v in seen && w !in seen)
      ensures forall n {:trigger Reaches(LevelGraph(g, at), n, v)} | n in seen :: Reaches(LevelGraph(g, at), n, v)
    {
      b, seen, edges, cycle, visitedDeltaEdges := [], {}, {}, false, false;
      visitedBackwards := seq(|visitedBackwards|, _ => false);
      var numEdgesVisited := 0;
      var agenda := [(v, false)];
      ghost var sl := LevelGraph(g, at);
      BackwardsStart(v, w, g, at);
      while agenda != []
        invariant Backwards(v, w, sl, at, agenda, b, seen) && seen <= members
        invariant numEdgesVisited == |edges| < delta && Counted(seen, edges)
        invariant Marks(visitedBackwards, seen) && |visitedBackwards| == |visitedForwards| == |increased|
        decreases members - seen, |agenda|
      {
        SplitLast(agenda);
        var (y, post) := agenda[|agenda| - 1];
        agenda := agenda[..|agenda| - 1];
        BackwardsPop(v, w, sl, agenda, y, post, seen);
        if y == w {
          return true, false, b, seen, edges;
        }
        if post {
          BackwardsEmit(v, w, sl, at, agenda, b, seen, y);
          b := b + [y];
          continue;
        }
        agenda, numEdgesVisited, visitedDeltaEdges, edges :=
          EnterBackwards(v, w, y, agenda, numEdgesVisited, b, g, outside, at, seen, edges);
        seen := seen + {y};
        if visitedDeltaEdges {
          return false, true, b, seen, edges;
        }
      }
      BackwardsDone(v, w, g, at, b, seen);
    }

    /** The state in the middle of AddEdge: the nodes of `inc` have been taken out of the list
        and raised to `level`; everything else is as `at` recorded it. */
    ghost predicate Lifted(at: map<Node, Rank>, inc: set<Node>, level: int)
      reads `members, `chain, `keys, `cut, `firstInLevel, `nextIndex, chain, members
    {
      (&& Rep() && at.Keys == members && inc <= members && node !in members
       && Elems(chain) == members - inc + {node}
       && (forall n {:trigger n in at} {:trigger n in members} | n in members :: n.Key() == LiftedKey(at, inc, level, n))
       && (forall n {:trigger n in inc} | n in inc :: n.prev == null)) == true
    }

    ghost function LiftedKey(at: map<Node, Rank>, inc: set<Node>, level: int, n: Node): Rank
      requires n in at
    {
      if n in inc then Rank(level, at[n].index) else at[n]
    }

    method RaiseNode(y: Node, level: int, ghost at: map<Node, Rank>, ghost inc: set<Node>, ghost inc': set<Node>)
      requires Lifted(at, inc, level) && y in members && y !in inc && inc' == inc + {y}
      modifies `firstInLevel, `chain, `keys, `cut
      modifies members`level, members`next, members`prev, node`next, node`prev
      ensures Lifted(at, inc', level)
    {
      assert y in Elems(chain);
      forall n | n in chain ensures n in members || n == node {
        assert n in Elems(chain);
      }
      var p := RemoveFromOrder(y);
      assert y !in Elems(chain);
      y.level := level;
    }

    /** The three visited vectors stand for these sets. */
    ghost predicate Bits(backwards: set<Node>, forwards: set<Node>, inc: set<Node>)
      reads `members, members`indexInParent, `visitedBackwards, `visitedForwards, `increased
    {
      (&& |visitedBackwards| == |visitedForwards| == |increased|
       && Marks(visitedBackwards, backwards) && Marks(visitedForwards, forwards) && Marks(increased, inc)) == true
    }

    method TestSuccessor(v: Node, y: Node, ghost backwards: set<Node>, ghost seen: set<Node>, ghost inc: set<Node>)
      returns (cycle: bool)
      requires y in members && Bits(backwards, seen, inc)
      modifies `visitedBackwards, `visitedForwards, `increased
      ensures Bits(backwards, seen, inc) && y.indexInParent < |increased|
      ensures cycle <==> y == v || y in backwards
    {
      UpdateMaxIndexInParent(y.indexInParent);
      MarksResized(old(visitedBackwards), visitedBackwards, backwards);
      MarksResized(old(visitedForwards), visitedForwards, seen);
      MarksResized(old(increased), increased, inc);
      assert MarkAgrees(visitedBackwards, backwards, y);
      cycle := y == v || visitedBackwards[y.indexInParent];
    }

    /** A successor `y` below the level of the opened node `x` is taken out of the list and raised. */
    method RaiseSuccessor(x: Node, y: Node, ghost at: map<Node, Rank>, ghost inc: set<Node>,
                          ghost level: int, ghost backwards: set<Node>, ghost seen: set<Node>)
      returns (ghost inc': set<Node>)
      requires x in inc && y in members && UniqueIds() && y.indexInParent < |increased|
      requires Lifted(at, inc, level) && Bits(backwards, seen, inc)
      modifies `increased, `firstInLevel, `chain, `keys, `cut
      modifies members`level, members`next, members`prev, node`next, node`prev
      ensures Bits(backwards, seen, inc')
      ensures inc' == if at[y].level < level then inc + {y} else inc
      ensures Lifted(at, inc', level)
    {
      inc' := inc;
      assert x.Key() == LiftedKey(at, inc, level, x) && y.Key() == LiftedKey(at, inc, level, y);
      if x.level > y.level {
        MarksAdd(increased, inc, y);
        increased := increased[y.indexInParent := true];
        inc' := inc + {y};
        RaiseNode(y, x.level, at, inc, inc');
      } else if y in inc {
        assert inc + {y} == inc;
      }
    }

    /** Entry `i` of x's successor list has been stacked and is settled. */
    ghost predicate Handled(at: map<Node, Rank>, level: int, bad: set<Node>, x: Node, i: int, kids: Agenda<Node>, inc': set<Node>)
      reads `members, x`succs
    {
      0 <= i < |x.succs| && (x.succs[i] in members ==>
        (x.succs[i], false) in kids && Settled(at, level, inc', x.succs[i]) && x.succs[i] !in bad)
    }

    /** `kids[i]` is a successor of `x`. */
    ghost predicate Kid(at: map<Node, Rank>, level: int, x: Node, i: int, kids: Agenda<Node>, inc': set<Node>)
      reads `members, x`succs
    {
      0 <= i < |kids| && !kids[i].1 && kids[i].0 in x.succs && kids[i].0 in members && Settled(at, level, inc', kids[i].0)
    }

    /** The low node `n` has been raised as a successor of `x`. */
    ghost predicate Joined(at: map<Node, Rank>, level: int, x: Node, n: Node, kids: Agenda<Node>)
      reads `members, x`succs
    {
      n in members && n in x.succs && n in at && at[n].level < level && (n, false) in kids
    }

    /** The first `k` entries of x's successor list have been stacked; see Successors. */
    ghost predicate Stacked(at: map<Node, Rank>, level: int, bad: set<Node>, x: Node, k: nat,
                            inc: set<Node>, kids: Agenda<Node>, inc': set<Node>)
      reads `members, x`succs
    {
      (&& k <= |x.succs| && at.Keys == members && inc <= inc'
       && (forall n {:trigger Joined(at, level, x, n, kids)} | n in inc' - inc :: Joined(at, level, x, n, kids))
       && (forall i {:trigger Kid(at, level, x, i, kids, inc')} | 0 <= i < |kids| :: Kid(at, level, x, i, kids, inc'))
       && (forall i {:trigger Handled(at, level, bad, x, i, kids, inc')} | 0 <= i < k ::
             Handled(at, level, bad, x, i, kids, inc'))) == true
    }

    lemma StackedAll(g: set<(Node, Node)>, outside: set<Node>, at: map<Node, Rank>, level: int, bad: set<Node>,
                     x: Node, inc: set<Node>, kids: Agenda<Node>, inc': set<Node>)
      requires x in members && ListsMatch(g, outside) && Stacked(at, level, bad, x, |x.succs|, inc, kids, inc')
      ensures Successors(g, at, level, bad, x, inc, kids, inc')
    {
      forall n | n in inc' - inc ensures (x, n) in g && n in at && at[n].level < level && (n, false) in kids {
        assert Joined(at, level, x, n, kids);
      }
      forall i | 0 <= i < |kids| ensures !kids[i].1 && (x, kids[i].0) in g && Settled(at, level, inc', kids[i].0) {
        assert Kid(at, level, x, i, kids, inc');
      }
      forall e | e in g && e.0 == x
        ensures (e.1, false) in kids && Settled(at, level, inc', e.1) && e.1 !in bad
      {
        assert e.1 in x.succs;
        var i :| 0 <= i < |x.succs| && x.succs[i] == e.1;
        assert Handled(at, level, bad, x, i, kids, inc');
      }
    }

    lemma StackedOne(at: map<Node, Rank>, level: int, bad: set<Node>, x: Node, k: nat,
                     inc: set<Node>, kids: Agenda<Node>, inc': set<Node>)
      requires Stacked(at, level, bad, x, k, inc, kids, inc') && k < |x.succs|
      requires x.succs[k] in members && x.succs[k] !in bad
      ensures Stacked(at, level, bad, x, k + 1, inc, kids + [(x.succs[k], false)],
                      if at[x.succs[k]].level < level then inc' + {x.succs[k]} else inc')
    {
      var y := x.succs[k];
      var kids1, inc1 := kids + [(y, false)], if at[y].level < level then inc' + {y} else inc';
      assert kids1[|kids|] == (y, false);
      forall n | n in kids ensures n in kids1 {
        var i :| 0 <= i < |kids| && kids[i] == n;
        assert kids1[i] == n;
      }
      forall n | n in inc1 - inc ensures Joined(at, level, x, n, kids1) {
        assert n in inc' ==> Joined(at, level, x, n, kids);
      }
      forall i | 0 <= i < |kids1| ensures Kid(at, level, x, i, kids1, inc1) {
        if i < |kids| { assert Kid(at, level, x, i, kids, inc') && kids1[i] == kids[i]; }
      }
      forall i | 0 <= i < k + 1 ensures Handled(at, level, bad, x, i, kids1, inc1) {
        if i < k { assert Handled(at, level, bad, x, i, kids, inc'); }
      }
    }

    lemma SuccessorKnown(at: map<Node, Rank>, inc: set<Node>, level: int, x: Node, k: nat, outside: set<Node>)
      requires Lifted(at, inc, level) && Leveled(at) && 0 <= level && Outside(outside)
      requires k < |x.succs| && forall y | y in x.succs :: y in members || y in outside
      ensures x.succs[k] in members <==> x.succs[k].level >= 0
    {
      var y := x.succs[k];
      assert y in x.succs;
      if y in members {
        assert y.Key() == LiftedKey(at, inc, level, y) && at[y].level >= 0;
      }
    }

    /** A successor that is in the order is stacked and, if low, raised, unless it closes a cycle. */
    method StackMember(v: Node, x: Node, k: nat, agenda: Agenda<Node>, ghost at: map<Node, Rank>, ghost inc0: set<Node>,
                       ghost base: Agenda<Node>, ghost kids: Agenda<Node>, ghost inc: set<Node>, ghost level: int,
                       ghost backwards: set<Node>, ghost seen: set<Node>)
      returns (cycle: bool, agenda': Agenda<Node>, ghost kids': Agenda<Node>, ghost inc': set<Node>)
      requires x in inc && UniqueIds() && k < |x.succs| && x.succs[k] in members
      requires Lifted(at, inc, level) && Bits(backwards, seen, inc)
      requires Stacked(at, level, backwards + {v}, x, k, inc0, kids, inc) && agenda == base + kids
      modifies `visitedBackwards, `visitedForwards, `increased
      modifies `firstInLevel, `chain, `keys, `cut
      modifies members`level, members`next, members`prev, node`next, node`prev
      ensures cycle ==> x.succs[k] in backwards + {v}
      ensures !cycle ==> Stacked(at, level, backwards + {v}, x, k + 1, inc0, kids', inc') && agenda' == base + kids'
      ensures Bits(backwards, seen, inc') && Lifted(at, inc', level)
    {
      agenda', kids', inc' := agenda, kids, inc;
      var y := x.succs[k];
      cycle := TestSuccessor(v, y, backwards, seen, inc);
      if !cycle {
        StackedOne(at, level, backwards + {v}, x, k, inc0, kids, inc);
        agenda', kids' := agenda' + [(y, false)], kids + [(y, false)];
        inc' := RaiseSuccessor(x, y, at, inc, level, backwards, seen);
      }
    }

    /** Entry `k` of x's successor list: the body of the inner loop of the forward search. */
    method StackSuccessor(v: Node, x: Node, k: nat, agenda: Agenda<Node>, ghost at: map<Node, Rank>, ghost inc0: set<Node>,
                          ghost base: Agenda<Node>, ghost kids: Agenda<Node>, ghost inc: set<Node>, ghost level: int,
                          ghost backwards: set<Node>, ghost seen: set<Node>, ghost outside: set<Node>)
      returns (cycle: bool, agenda': Agenda<Node>, ghost kids': Agenda<Node>, ghost inc': set<Node>)
      requires x in inc && UniqueIds() && Outside(outside) && Leveled(at) && 0 <= level
      requires k < |x.succs| && forall y | y in x.succs :: y in members || y in outside
      requires Lifted(at, inc, level) && Bits(backwards, seen, inc)
      requires Stacked(at, level, backwards + {v}, x, k, inc0, kids, inc) && agenda == base + kids
      modifies `visitedBackwards, `visitedForwards, `increased
      modifies `firstInLevel, `chain, `keys, `cut
      modifies members`level, members`next, members`prev, node`next, node`prev
      ensures cycle ==> x.succs[k] in members && x.succs[k] in backwards + {v}
      ensures !cycle ==> Stacked(at, level, backwards + {v}, x, k + 1, inc0, kids', inc') && agenda' == base + kids'
      ensures Bits(backwards, seen, inc') && Lifted(at, inc', level) && Outside(outside)
    {
      cycle, agenda', kids', inc' := false, agenda, kids, inc;
      SuccessorKnown(at, inc, level, x, k, outside);
      if x.succs[k].InTopologicalOrder() {
        cycle, agenda', kids', inc' := StackMember(v, x, k, agenda, at, inc0, base, kids, inc, level, backwards, seen);
      }
    }

    method StackSuccessors(v: Node, x: Node, agenda: Agenda<Node>, ghost outside: set<Node>, ghost at: map<Node, Rank>,
                           ghost inc: set<Node>, ghost level: int, ghost backwards: set<Node>, ghost seen: set<Node>)
      returns (cycle: bool, agenda': Agenda<Node>, ghost kids: Agenda<Node>, ghost inc': set<Node>, ghost met: Node)
      requires x in inc && UniqueIds() && Outside(outside) && Leveled(at) && 0 <= level
      requires forall y | y in x.succs :: y in members || y in outside
      requires Lifted(at, inc, level) && Bits(backwards, seen, inc)
      modifies `visitedBackwards, `visitedForwards, `increased
      modifies `firstInLevel, `chain, `keys, `cut
      modifies members`level, members`next, members`prev, node`next, node`prev
      ensures cycle ==> met in x.succs && met in members && met in backwards + {v}
      ensures !cycle ==> agenda' == agenda + kids
      ensures !cycle ==> Stacked(at, level, backwards + {v}, x, |x.succs|, inc, kids, inc')
      ensures Bits(backwards, seen, inc')
      ensures Lifted(at, inc', level)
    {
      cycle, agenda', kids, inc', met := false, agenda, [], inc, v;
      var it := 0;
      while it < |x.succs|
        invariant it <= |x.succs| && agenda' == agenda + kids
        invariant Stacked(at, level, backwards + {v}, x, it, inc, kids, inc')
        invariant Outside(outside) && Bits(backwards, seen, inc')
        invariant Lifted(at, inc', level)
      {
        cycle, agenda', kids, inc' := StackSuccessor(v, x, it, agenda', at, inc, agenda, kids, inc', level, backwards, seen, outside);
        if cycle {
          met := x.succs[it];
          return;
        }
        it := it + 1;
      }
    }

    /** The test of a popped entry of the forward search: open its node now? */
    method TestForwards(x: Node, ghost backwards: set<Node>, ghost seen: set<Node>, ghost inc: set<Node>)
      returns (first: bool, ghost seen': set<Node>)
      requires x in members && UniqueIds() && Bits(backwards, seen, inc)
      modifies `visitedBackwards, `visitedForwards, `increased
      ensures Bits(backwards, seen', inc)
      ensures first <==> x !in seen && x in inc
      ensures seen' == if first then seen + {x} else seen
    {
      UpdateMaxIndexInParent(x.indexInParent);
      MarksResized(old(visitedBackwards), visitedBackwards, backwards);
      MarksResized(old(visitedForwards), visitedForwards, seen);
      MarksResized(old(increased), increased, inc);
      assert MarkAgrees(visitedForwards, seen, x) && MarkAgrees(increased, inc, x);
      first, seen' := !(visitedForwards[x.indexInParent] || !increased[x.indexInParent]), seen;
      if first {
        MarksAdd(visitedForwards, seen, x);
        visitedForwards := visitedForwards[x.indexInParent := true];
        seen' := seen + {x};
      }
    }

    /** One non-post entry of the forward search. */
    method EnterForwards(v: Node, w: Node, x: Node, rest: Agenda<Node>, ghost f: seq<Node>, ghost g: set<(Node, Node)>,
                         ghost outside: set<Node>, ghost at: map<Node, Rank>, ghost level: int,
                         ghost backwards: set<Node>, ghost seen: set<Node>, ghost inc: set<Node>)
      returns (cycle: bool, agenda: Agenda<Node>, ghost seen': set<Node>, ghost inc': set<Node>, ghost met: Node)
      requires x in members && UniqueIds() && ListsMatch(g, outside) && Outside(outside) && Leveled(at) && 0 <= level
      requires Forwards(w, g, at, level, backwards + {v}, rest + [(x, false)], f, seen, inc)
      requires Lifted(at, inc, level) && Bits(backwards, seen, inc)
      modifies `visitedBackwards, `visitedForwards, `increased
      modifies `firstInLevel, `chain, `keys, `cut
      modifies members`level, members`next, members`prev, node`next, node`prev
      ensures cycle ==> met in backwards + {v} && Reaches(g, w, met)
      ensures !cycle ==> Forwards(w, g, at, level, backwards + {v}, agenda, f, seen', inc')
      ensures !cycle ==> (seen' == seen && agenda == rest) || (x !in seen && seen' == seen + {x})
      ensures Bits(backwards, seen', inc')
      ensures Lifted(at, inc', level)
    {
      cycle, agenda, seen', inc', met := false, rest, seen, inc, v;
      var first;
      first, seen' := TestForwards(x, backwards, seen, inc);
      if !first {
        ForwardsSkip(w, g, at, level, backwards + {v}, rest, f, seen, inc, x);
        return;
      }
      ghost var kids;
      cycle, agenda, kids, inc', met := StackSuccessors(v, x, rest + [(x, true)], outside, at, inc, level, backwards, seen');
      if cycle {
        ForwardsMet(w, g, at, level, backwards + {v}, rest + [(x, false)], f, seen, inc, x, met);
      } else {
        StackedAll(g, outside, at, level, backwards + {v}, x, inc, kids, inc');
        ForwardsOpen(w, g, at, level, backwards + {v}, rest, f, seen, inc, x, kids, inc');
      }
    }

    method ClearMarks(w: Node, ghost backwards: set<Node>)
      requires w in members && UniqueIds() && Marks(visitedBackwards, backwards)
      requires |visitedBackwards| == |visitedForwards| == |increased|
      modifies `visitedBackwards, `visitedForwards, `increased
      ensures Bits(backwards, {}, {w})
    {
      visitedForwards := seq(|visitedForwards|, _ => false);
      increased := seq(|increased|, _ => false);
      ghost var bw, fw, inc := visitedBackwards, visitedForwards, increased;
      UpdateMaxIndexInParent(w.indexInParent);
      increased := increased[w.indexInParent := true];
      MarksResized(bw, visitedBackwards, backwards);
      forall n | n in members
        ensures MarkAgrees(visitedForwards, {}, n) && MarkAgrees(increased, {w}, n)
      {
        assert SameId(n, w) ==> n == w;
        assert !Bit(fw, n.indexInParent) && !Bit(inc, n.indexInParent);
      }
    }

    /** What every iteration of the forward search keeps. */
    ghost predicate Advancing(v: Node, w: Node, g: set<(Node, Node)>, outside: set<Node>, at: map<Node, Rank>, level: int,
                              backwards: set<Node>, agenda: Agenda<Node>, f: seq<Node>, seen: set<Node>, inc: set<Node>)
      reads `members, `chain, `keys, `cut, `firstInLevel, `nextIndex, `visitedBackwards, `visitedForwards, `increased
      reads chain, members, outside`level
    {
      (&& Forwards(w, g, at, level, backwards + {v}, agenda, f, seen, inc) && seen <= members
       && Bits(backwards, seen, inc)
       && Lifted(at, inc, level) && Outside(outside)) == true
    }

    method StepForwards(v: Node, w: Node, agenda: Agenda<Node>, f: seq<Node>, ghost g: set<(Node, Node)>,
                        ghost outside: set<Node>, ghost at: map<Node, Rank>, ghost level: int,
                        ghost backwards: set<Node>, ghost seen: set<Node>, ghost inc: set<Node>)
      returns (cycle: bool, agenda': Agenda<Node>, f': seq<Node>, ghost seen': set<Node>, ghost inc': set<Node>, ghost met: Node)
      requires agenda != [] && UniqueIds() && ListsMatch(g, outside) && Leveled(at) && 0 <= level
      requires Advancing(v, w, g, outside, at, level, backwards, agenda, f, seen, inc)
      modifies `visitedBackwards, `visitedForwards, `increased
      modifies `firstInLevel, `chain, `keys, `cut
      modifies members`level, members`next, members`prev, node`next, node`prev
      ensures |visitedBackwards| == |visitedForwards| == |increased|
      ensures cycle ==> met in backwards + {v} && Reaches(g, w, met)
      ensures !cycle ==> Advancing(v, w, g, outside, at, level, backwards, agenda', f', seen', inc')
      ensures !cycle ==> members - seen' < members - seen || (seen' == seen && |agenda'| < |agenda|)
    {
      SplitLast(agenda);
      var (x, post) := agenda[|agenda| - 1];
      ForwardsKnown(w, g, at, level, backwards + {v}, agenda, f, seen, inc);
      agenda' := agenda[..|agenda| - 1];
      cycle, f', seen', inc', met := false, f, seen, inc, v;
      if post {
        ForwardsEmit(w, g, at, level, backwards + {v}, agenda', f, seen, inc, x);
        f' := f + [x];
      } else {
        cycle, agenda', seen', inc', met := EnterForwards(v, w, x, agenda', f, g, outside, at, level, backwards, seen, inc);
      }
    }

    /** Depth-first search from `w` forwards, raising what is below the new level.  Meets v or a node
        visited backwards: a cycle.  Ends: `f` is exactly what was raised, each after its raised successors. */
    method SearchForwards(v: Node, w: Node, ghost g: set<(Node, Node)>, ghost outside: set<Node>, ghost at: map<Node, Rank>,
                          ghost level: int, ghost backwards: set<Node>)
      returns (cycle: bool, f: seq<Node>, ghost met: Node)
      requires w in members && UniqueIds() && ListsMatch(g, outside) && Outside(outside) && Leveled(at) && 0 <= level
      requires Lifted(at, {w}, level) && RespectedBut(g, w, at) && at[w].level < level
      requires Marks(visitedBackwards, backwards) && |visitedBackwards| == |visitedForwards| == |increased|
      modifies `visitedBackwards, `visitedForwards, `increased
      modifies `firstInLevel, `chain, `keys, `cut
      modifies members`level, members`next, members`prev, node`next, node`prev
      ensures |visitedBackwards| == |visitedForwards| == |increased|
      ensures cycle ==> met in backwards + {v} && Reaches(g, w, met)
      ensures !cycle ==> Raised(w, g, at, level, backwards + {v}, f) && Lifted(at, Elems(f), level)
    {
      cycle, f, met := false, [], v;
      ghost var seen, inc := {}, {w};
      ClearMarks(w, backwards);
      var agenda := [(w, false)];
      ForwardsStart(w, g, at, level, backwards + {v});
      while agenda != []
        invariant Advancing(v, w, g, outside, at, level, backwards, agenda, f, seen, inc)
        invariant |visitedBackwards| == |visitedForwards| == |increased|
        decreases members - seen, |agenda|
      {
        cycle, agenda, f, seen, inc, met := StepForwards(v, w, agenda, f, g, outside, at, level, backwards, seen, inc);
        if cycle {
          return;
        }
      }
      ForwardsDone(w, g, at, level, backwards + {v}, f, seen, inc);
    }

    /** Raises the budget to the bound for the current counts. */
    method UpdateDelta()
      modifies `delta
      ensures Reached(delta, numEdges, numNodes) && old(delta) <= delta
      ensures delta > old(delta) ==> Minimal(delta, numEdges, numNodes)
    {
      var m, n := numEdges, numNodes;
      while delta * delta < m && delta * delta * delta < n * n
        invariant old(delta) <= delta && (delta > old(delta) ==> Minimal(delta, m, n))
        decreases m - delta
      {
        SquareGrows(delta, m);
        MinimalNext(delta, m, n);
        delta := delta + 1;
      }
      ReachedNow(delta, m, n);
    }

    /** The first `k` nodes of `f` are back in the list, with indices counting down from `next`. */
    ghost predicate Reinserting(at: map<Node, Rank>, level: int, f: seq<Node>, k: nat, next: int)
      reads `members, `chain, `keys, `cut, `firstInLevel, `nextIndex, chain, members
    {
      (&& Rep() && at.Keys == members && node !in members && k <= |f| && nextIndex == next - k
       && Elems(chain) == members - Elems(f[k..]) + {node}
       && (forall j {:trigger f[j]} | 0 <= j < |f| :: f[j] in members && f[j].level == level
             && (if j < k then f[j].index == next - j else f[j].prev == null))
       && (forall n {:trigger n in members} | n in members && n !in f :: n.Key() == at[n])) == true
    }

    lemma ReinsertStart(at: map<Node, Rank>, level: int, f: seq<Node>)
      requires Lifted(at, Elems(f), level)
      ensures Reinserting(at, level, f, 0, nextIndex)
    {
      assert f[0..] == f;
      forall j | 0 <= j < |f| ensures f[j] in members && f[j].level == level && f[j].prev == null {
        assert f[j] in Elems(f) && f[j].Key() == LiftedKey(at, Elems(f), level, f[j]);
      }
    }

    lemma TailElems(f: seq<Node>, k: nat)
      requires Distinct(f) && k < |f|
      ensures Elems(f[k..]) == Elems(f[k + 1..]) + {f[k]} && f[k] !in f[k + 1..]
      ensures forall j | 0 <= j < |f| && j != k :: f[j] != f[k]
    {
      assert f[k..] == [f[k]] + f[k + 1..];
      forall j | 0 <= j < |f| && j != k ensures f[j] != f[k] {
        assert if j < k then Differ(f, j, k) else Differ(f, k, j);
      }
    }

    method Reinsert(f: seq<Node>, k: nat, ghost level: int, ghost at: map<Node, Rank>, ghost next: int)
      requires Reinserting(at, level, f, k, next) && Distinct(f) && 0 <= level && k < |f|
      modifies `nextIndex, `firstInLevel, `chain, `keys, `cut
      modifies members`index, members`next, members`prev, node`next, node`prev
      ensures Reinserting(at, level, f, k + 1, next)
    {
      TailElems(f, k);
      forall n | n in chain ensures n in members || n == node {
        assert n in Elems(chain);
      }
      assert f[k] in Elems(f[k..]) && f[k] !in Elems(chain) && forall j | k < j < |f| :: f[j] in f[k..] && f[j] !in Elems(chain);
      UpdateIndex(f[k]);
      assert Elems(chain) == members - Elems(f[k + 1..]) + {node};
    }

    /** Step 4, first loop: the raised nodes go back into the list, each in front of those before it. */
    method ReindexRaised(f: seq<Node>, ghost level: int, ghost at: map<Node, Rank>)
      requires Lifted(at, Elems(f), level) && Distinct(f) && 0 <= level
      modifies `nextIndex, `firstInLevel, `chain, `keys, `cut
      modifies members`index, members`next, members`prev, node`next, node`prev
      ensures Reinserting(at, level, f, |f|, old(nextIndex))
    {
      ReinsertStart(at, level, f);
      var it := 0;
      while it < |f|
        invariant Reinserting(at, level, f, it, old(nextIndex))
      {
        Reinsert(f, it, level, at, old(nextIndex));
        it := it + 1;
      }
    }

    ghost function Keys(): map<Node, Rank>
      reads `members, members`level, members`index
    {
      KeysOf(members)
    }

    /** All nodes are in the list; those of `b` from position `k` on have fresh indices, counting
        down from `next` from the end of `b`, the rest is as `mid` recorded it. */
    ghost predicate Fronting(mid: map<Node, Rank>, b: seq<Node>, k: nat, next: int)
      reads `members, `chain, `keys, `cut, `firstInLevel, `nextIndex, chain, members
    {
      (&& Rep() && mid.Keys == members && node !in members && k <= |b| && nextIndex == next - |b| + k
       && Elems(chain) == members + {node}
       && (forall j {:trigger b[j]} | 0 <= j < |b| :: b[j] in members && b[j].level == mid[b[j]].level
             && b[j].index == if j >= k then next - |b| + 1 + j else mid[b[j]].index)
       && (forall n {:trigger n in members} | n in members && n !in b :: n.Key() == mid[n])) == true
    }

    method Front(b: seq<Node>, k: nat, ghost mid: map<Node, Rank>, ghost next: int)
      requires Fronting(mid, b, k + 1, next) && Distinct(b) && k < |b|
      modifies `nextIndex, `firstInLevel, `chain, `keys, `cut
      modifies members`index, members`next, members`prev, node`next, node`prev
      ensures Fronting(mid, b, k, next)
    {
      TailElems(b, k);
      forall n | n in chain ensures n in members || n == node {
        assert n in Elems(chain);
      }
      assert b[k] in Elems(chain);
      Listed(b[k]);
      UpdateIndex(b[k]);
    }

    /** Listed nodes have a non-negative level. */
    lemma Listed(n: Node)
      requires Rep() && n in chain && n != node
      ensures n.level >= 0
    {
      var p :| 0 <= p < |chain| && chain[p] == n;
      assert keys[p] == n.Key();
    }

    /** Step 4, second loop: v's ancestors go to the front of their level, from last to first. */
    method ReindexAncestors(b: seq<Node>, ghost mid: map<Node, Rank>)
      requires Fronting(mid, b, |b|, nextIndex) && Distinct(b)
      modifies `nextIndex, `firstInLevel, `chain, `keys, `cut
      modifies members`index, members`next, members`prev, node`next, node`prev
      ensures Fronting(mid, b, 0, old(nextIndex))
    {
      var it := |b|;
      while it > 0
        invariant 0 <= it <= |b| && Fronting(mid, b, it, old(nextIndex))
      {
        it := it - 1;
        Front(b, it, mid, old(nextIndex));
      }
    }

    /** Between the two loops. */
    lemma FrontStart(at: map<Node, Rank>, level: int, f: seq<Node>, b: seq<Node>, next: int)
      requires Reinserting(at, level, f, |f|, next) && Elems(b) <= members
      ensures Fronting(Keys(), b, |b|, nextIndex)
    {
      assert f[|f|..] == [] && Elems<Node>([]) == {};
      forall j | 0 <= j < |b| ensures b[j] in members {
        assert b[j] in Elems(b);
      }
    }

    /** After step 4 the keys are as TopsortOrder expects them. */
    lemma FrontDone(at: map<Node, Rank>, level: int, f: seq<Node>, b: seq<Node>, next: int, mid: map<Node, Rank>)
      requires Fronting(mid, b, 0, next - |f|) && at.Keys == members
      requires forall j | 0 <= j < |f| :: f[j] in members && f[j] !in b && mid[f[j]] == Rank(level, next - j)
      requires forall n | n in members && n !in f :: mid[n] == at[n]
      requires forall n | n in at :: at[n].index > next
      ensures Reindexed(at, level, f, b, next, Keys())
    {
      forall k | 0 <= k < |b| ensures b[k] in members && Keys()[b[k]] == Rank(at[b[k]].level, next - |f| - |b| + 1 + k) {
        assert b[k] in b && b[k] !in f;
      }
      forall j | 0 <= j < |f| ensures Keys()[f[j]] == Rank(level, next - j) {
        assert f[j].Key() == mid[f[j]];
      }
    }

    /** What the first loop leaves for FrontDone. */
    lemma ReinsertDone(at: map<Node, Rank>, level: int, f: seq<Node>, next: int)
      requires Reinserting(at, level, f, |f|, next)
      ensures forall j | 0 <= j < |f| :: f[j] in members && Keys()[f[j]] == Rank(level, next - j)
      ensures forall n | n in members && n !in f :: Keys()[n] == at[n]
    {
    }

    lemma CycleThrough(g: set<(Node, Node)>, at: map<Node, Rank>, v: Node, w: Node, met: Node, backwards: set<Node>)
      requires Over(g, at) && Reaches(g, w, met) && met in backwards + {v}
      requires forall n {:trigger Reaches(LevelGraph(g, at), n, v)} | n in backwards :: Reaches(LevelGraph(g, at), n, v)
      ensures Reaches(g, w, v)
    {
      if met in backwards {
        assert Reaches(LevelGraph(g, at), met, v);
        Subgraph(LevelGraph(g, at), g, met, v);
        Join(g, w, met, v);
      }
    }

    lemma NothingLifted(at: map<Node, Rank>, level: int)
      requires Lifted(at, {}, level)
      ensures forall level': int :: Lifted(at, {}, level')
      ensures Snapshot(at) && Leveled(at)
    {
      forall n | n in members ensures n.Key() == at[n] && at[n].level >= 0 {
        assert n in at && n.Key() == LiftedKey(at, {}, level, n);
        assert n in Elems(chain);
        Listed(n);
      }
    }

    /** Step 2 of AddEdge: search backwards and, unless `w` stays on v's level, take it out of the
        list and raise it. */
    method SearchAndRaise(v: Node, w: Node, ghost g: set<(Node, Node)>, ghost outside: set<Node>, ghost at: map<Node, Rank>)
      returns (cycle: bool, shouldSearchForwards: bool, b: seq<Node>, ghost level: int, ghost seen: set<Node>)
      requires v in members && w in members && UniqueIds() && ListsMatch(g, outside) && Outside(outside)
      requires Lifted(at, {}, 0) && RespectedBut(g, w, at) && !Lt(at[v], at[w])
      requires 0 < delta && |visitedBackwards| == |visitedForwards| == |increased|
      modifies `visitedBackwards, `visitedForwards, `increased
      modifies `firstInLevel, `chain, `keys, `cut
      modifies members`level, members`next, members`prev, node`next, node`prev
      ensures |visitedBackwards| == |visitedForwards| == |increased|
      ensures cycle ==> Reaches(g, w, v)
      ensures !cycle ==> Prepared(v, w, g, at, level, seen, shouldSearchForwards, b)
      ensures !cycle && shouldSearchForwards ==> Lifted(at, {w}, level)
      ensures !cycle && !shouldSearchForwards ==> Lifted(at, {}, level)
      ensures Marks(visitedBackwards, seen)
    {
      NothingLifted(at, 0);
      level, shouldSearchForwards := v.level, false;
      var visitedDeltaEdges;
      ghost var edges;
      cycle, visitedDeltaEdges, b, seen, edges := SearchBackwards(v, w, g, outside, at);
      if cycle {
        Subgraph(LevelGraph(g, at), g, w, v);
        return;
      }
      if visitedDeltaEdges {
        b := [v];
      }
      shouldSearchForwards := visitedDeltaEdges || w.level != v.level;
      if shouldSearchForwards {
        var newLevel := if visitedDeltaEdges then v.level + 1 else v.level;
        level := newLevel;
        RaiseNode(w, newLevel, at, {}, {w});
      }
    }

    /** Steps 2 and 3 of AddEdge. */
    method FindMoves(v: Node, w: Node, ghost g: set<(Node, Node)>, ghost outside: set<Node>, ghost at: map<Node, Rank>)
      returns (cycle: bool, f: seq<Node>, b: seq<Node>, ghost level: int, ghost bad: set<Node>)
      requires v in members && w in members && UniqueIds() && ListsMatch(g, outside) && Outside(outside)
      requires Lifted(at, {}, 0) && RespectedBut(g, w, at) && !Lt(at[v], at[w])
      requires 0 < delta && |visitedBackwards| == |visitedForwards| == |increased|
      modifies `visitedBackwards, `visitedForwards, `increased
      modifies `firstInLevel, `chain, `keys, `cut
      modifies members`level, members`next, members`prev, node`next, node`prev
      ensures |visitedBackwards| == |visitedForwards| == |increased|
      ensures cycle ==> Reaches(g, w, v)
      ensures !cycle ==> Outcome(v, w, g, at, level, bad, f, b) && Lifted(at, Elems(f), level) && 0 <= level
      ensures !cycle ==> Elems(b) <= members
    {
      NothingLifted(at, 0);
      var shouldSearchForwards;
      ghost var seen;
      cycle, shouldSearchForwards, b, level, seen := SearchAndRaise(v, w, g, outside, at);
      f, bad := [], seen + {v};
      if !cycle && shouldSearchForwards {
        ghost var met;
        cycle, f, met := SearchForwards(v, w, g, outside, at, level, seen);
        if cycle {
          CycleThrough(g, at, v, w, met, seen);
        } else {
          Decide(v, w, g, at, level, seen, f, b);
          assert v.Key() == LiftedKey(at, Elems(f), level, v) && w.Key() == LiftedKey(at, Elems(f), level, w);
          if v.level < w.level {
            b := [];
          } else {
            assert v.level == w.level;
          }
        }
      }
    }

    /** The representation invariant between calls. */
    ghost predicate Valid()
      reads this, chain, members
    {
      Consistent() && Counts()
    }

    /** All members are in the list, and nothing else. */
    ghost predicate Consistent()
      reads this, chain, members
    {
      (&& Rep() && node !in members && Elems(chain) == members + {node}
       && |visitedBackwards| == |visitedForwards| == |increased|) == true
    }

    /** The node count is right; `delta` is at least the bound for the current counts, and equal to
        it unless nodes were removed. */
    ghost predicate Counts()
      reads `numEdges, `numNodes, `members, `delta, `shrunk
    {
      numNodes == |members| && Reached(delta, numEdges, numNodes) && (!shrunk ==> Minimal(delta, numEdges, numNodes))
    }

    /** Step 4 of AddEdge. */
    method Reindex(f: seq<Node>, b: seq<Node>, ghost level: int, ghost at: map<Node, Rank>)
      requires Lifted(at, Elems(f), level) && 0 <= level && Elems(b) <= members
      requires Distinct(f) && Distinct(b) && forall j | 0 <= j < |f| :: f[j] !in b
      requires forall n | n in members :: at[n].index > nextIndex
      modifies `nextIndex, `firstInLevel, `chain, `keys, `cut
      modifies members`index, members`next, members`prev, node`next, node`prev
      ensures Rep() && Elems(chain) == members + {node}
      ensures Reindexed(at, level, f, b, old(nextIndex), Keys())
    {
      ReindexRaised(f, level, at);
      ghost var mid := Keys();
      ReinsertDone(at, level, f, old(nextIndex));
      FrontStart(at, level, f, b, old(nextIndex));
      ReindexAncestors(b, mid);
      FrontDone(at, level, f, b, old(nextIndex), mid);
    }

    lemma EdgesKept(v: Node, w: Node, g: set<(Node, Node)>, at: map<Node, Rank>, level: int, bad: set<Node>,
                    f: seq<Node>, b: seq<Node>, next: int)
      requires Outcome(v, w, g, at, level, bad, f, b) && Reindexed(at, level, f, b, next, Keys())
      ensures forall e {:trigger e in g} | e in g && (e.1 != w || Lt(at[e.0], at[w])) :: Lt(Keys()[e.0], Keys()[e.1])
      ensures Lt(Keys()[v], Keys()[w]) && !Reaches(g, w, v)
    {
      forall e | e in g && (e.1 != w || Lt(at[e.0], at[w])) ensures Lt(Keys()[e.0], Keys()[e.1]) {
        EdgeKept(v, w, g, at, level, bad, f, b, next, Keys(), e.0, e.1);
      }
      NewEdgeKept(v, w, g, at, level, bad, f, b, next, Keys());
      NotRaised(v, w, g, at, level, bad, f, b);
    }

    /** Edges that go upwards rule out a way back. */
    lemma AboveNoWayBack(v: Node, w: Node, g: set<(Node, Node)>, at: map<Node, Rank>)
      requires RespectedBut(g, w, at) && v in at && w in at && Lt(at[v], at[w])
      ensures !Reaches(g, w, v)
    {
      if Reaches(g, w, v) {
        RaisedAbove(w, g, at, v);
      }
    }

    lemma ValidNothingLifted()
      requires Consistent()
      ensures Lifted(Keys(), {}, 0)
      ensures forall n | n in members :: Keys()[n].index > nextIndex
    {
      ListedKeys();
    }

    /** Members have a level, and an index above the next one. */
    lemma ListedKeys()
      requires Consistent()
      ensures forall n | n in members :: n.level >= 0 && n.index > nextIndex
    {
      forall n | n in members ensures n.level >= 0 && n.index > nextIndex {
        assert n in Elems(chain);
        var p :| 0 <= p < |chain| && chain[p] == n;
        assert keys[p] == n.Key();
      }
    }

    method CountEdge()
      requires Valid()
      modifies `numEdges, `delta
      ensures Valid() && numEdges == old(numEdges) + 1 && (members != {} ==> delta > 0)
    {
      numEdges := numEdges + 1;
      CountsGrow(delta, numEdges - 1, numNodes, numEdges, numNodes);
      UpdateDelta();
      if numNodes > 0 { PositiveBound(delta, numEdges, numNodes); } else { assert members == {}; }
    }

    /** Steps 2 to 4 of AddEdge. */
    method MoveNodes(v: Node, w: Node, ghost g: set<(Node, Node)>, ghost outside: set<Node>, ghost at: map<Node, Rank>)
      returns (cycle: bool)
      requires Consistent() && v in members && w in members && 0 < delta && at == Keys()
      requires UniqueIds() && ListsMatch(g, outside) && Outside(outside) && RespectedBut(g, w, at) && !Lt(at[v], at[w])
      modifies `visitedBackwards, `visitedForwards, `increased
      modifies `nextIndex, `firstInLevel, `chain, `keys, `cut
      modifies members`level, members`index, members`next, members`prev, node`next, node`prev
      ensures cycle ==> Reaches(g, w, v)
      ensures !cycle ==> Consistent() && !Reaches(g, w, v) && Lt(Keys()[v], Keys()[w])
      ensures !cycle ==> forall e {:trigger e in g} | e in g && (e.1 != w || Lt(at[e.0], at[w])) ::
        Lt(Keys()[e.0], Keys()[e.1])
    {
      ValidNothingLifted();
      var f, b;
      ghost var level, bad;
      ghost var next := nextIndex;
      cycle, f, b, level, bad := FindMoves(v, w, g, outside, at);
      if !cycle {
        AllApart(v, w, g, at, level, bad, f, b);
        Reindex(f, b, level, at);
        EdgesKept(v, w, g, at, level, bad, f, b, next);
      }
    }

    /** Adds the edge from `v` to `w` to the order.  `g` are the edges between members in the
        caller's lists; all that do not lead to `w` must be respected already.  Reports a cycle
        where the source's checks stop the process. */
    method AddEdge(v: Node, w: Node, ghost g: set<(Node, Node)>, ghost outside: set<Node>) returns (cycle: bool)
      requires Valid() && v in members && w in members
      requires UniqueIds() && ListsMatch(g, outside) && Outside(outside) && RespectedBut(g, w, Keys())
      modifies `numEdges, `delta, `visitedBackwards, `visitedForwards, `increased
      modifies `nextIndex, `firstInLevel, `chain, `keys, `cut
      modifies members`level, members`index, members`next, members`prev, node`next, node`prev
      ensures cycle <==> Reaches(g, w, v)
      ensures !cycle ==> Valid() && numEdges == old(numEdges) + 1
      ensures !cycle ==> Lt(Keys()[v], Keys()[w])
      ensures !cycle ==> forall e {:trigger e in g} | e in g && (e.1 != w || Lt(old(Keys())[e.0], old(Keys())[w])) ::
        Lt(Keys()[e.0], Keys()[e.1])
    {
      CountEdge();
      if Lt(v.Key(), w.Key()) {
        AboveNoWayBack(v, w, g, Keys());
        cycle := false;
      } else {
        cycle := MoveNodes(v, w, g, outside, Keys());
      }
    }

    method CountNode(v: Node)
      requires Counts() && v !in members && v != node && node !in members
      requires Rep() && Elems(chain) == members + {v} + {node} && |visitedBackwards| == |visitedForwards| == |increased|
      modifies `numNodes, `delta, `members
      ensures Valid() && members == old(members) + {v}
    {
      numNodes := numNodes + 1;
      members := members + {v};
      CountsGrow(delta, numEdges, numNodes - 1, numEdges, numNodes);
      UpdateDelta();
    }

    method UncountNode(v: Node)
      requires Counts() && v in members && node !in members
      requires Rep() && Elems(chain) == members - {v} + {node} && |visitedBackwards| == |visitedForwards| == |increased|
      modifies `numNodes, `members, `shrunk
      ensures Valid() && members == old(members) - {v}
    {
      numNodes := numNodes - 1;
      members := members - {v};
      shrunk := true;
      CountsGrow(delta, numEdges, numNodes, numEdges, numNodes + 1);
    }

    method EnterList(v: Node)
      requires Linked() && Keyed() && Indexed() && SortedKeys(keys, nextIndex + 1) && CutsAt(keys, cut)
      requires v !in members && v != node && node !in members && Elems(chain) == members + {node}
      requires |visitedBackwards| == |visitedForwards| == |increased|
      requires v.level == 0 && v.index == nextIndex + 1
      modifies `firstInLevel, `chain, `keys, `cut, members`next, members`prev, node`next, node`prev, v`next, v`prev
      ensures Rep() && Elems(chain) == members + {v} + {node}
    {
      assert v !in Elems(chain);
      forall n | n in chain ensures n in members || n == node {
        assert n in Elems(chain);
      }
      assert CutAt(keys, cut, 0);
      assert firstInLevel[0] == node;
      InsertFirstInLevel(v);
    }

    method TakeIndex(v: Node)
      requires Consistent() && v !in members && v != node
      modifies `nextIndex, v`level, v`index
      ensures Linked() && Keyed() && Indexed() && SortedKeys(keys, nextIndex + 1) && CutsAt(keys, cut)
      ensures v.level == 0 && v.index == nextIndex + 1 == old(nextIndex)
    {
      assert v !in Elems(chain);
      v.level := 0;
      v.index := nextIndex;
      nextIndex := nextIndex - 1;
    }

    method PutFirst(v: Node)
      requires Consistent() && v !in members && v != node
      modifies `nextIndex, v`level, v`index
      modifies `firstInLevel, `chain, `keys, `cut, members`next, members`prev, node`next, node`prev, v`next, v`prev
      ensures Rep() && Elems(chain) == members + {v} + {node}
      ensures KeysOf(members + {v}) == old(Keys())[v := v.Key()]
      ensures forall n | n in members :: Lt(v.Key(), old(Keys())[n])
    {
      ListedKeys();
      TakeIndex(v);
      EnterList(v);
    }

    /** The old members keep their keys, and `v` comes before all of them. */
    method AddNode(v: Node)
      requires Valid() && v !in members && v != node && v.next == null && v.prev == null
      modifies `numNodes, `delta, `members, `nextIndex, `firstInLevel, `chain, `keys, `cut
      modifies v`level, v`index, v`next, v`prev, members`next, members`prev, node`next, node`prev
      ensures Valid() && members == old(members) + {v}
      ensures Keys() == old(Keys())[v := v.Key()]
      ensures forall n | n in old(members) :: Lt(v.Key(), old(Keys())[n])
    {
      PutFirst(v);
      CountNode(v);
    }

    method LeaveList(v: Node)
      requires Consistent() && v in members
      modifies `firstInLevel, `chain, `keys, `cut, v`level, v`index, members`next, members`prev, node`next, node`prev
      ensures Rep() && Elems(chain) == members - {v} + {node}
      ensures v.level == -1 && v.index == -1 && v.next == null && v.prev == null
    {
      assert v in Elems(chain);
      forall n | n in chain ensures n in members || n == node {
        assert n in Elems(chain);
      }
      var p := RemoveFromOrder(v);
      assert v !in Elems(chain);
      v.level := -1;
      v.index := -1;
    }

    /** Takes `v` out of the order; the others keep their keys. */
    method RemoveNode(v: Node)
      requires Valid() && v in members
      modifies `numNodes, `shrunk, `members, `firstInLevel, `chain, `keys, `cut
      modifies v`level, v`index, members`next, members`prev, node`next, node`prev
      ensures Valid() && members == old(members) - {v}
      ensures forall n | n in members :: Keys()[n] == old(Keys())[n]
      ensures v.level == -1 && v.index == -1 && v.next == null && v.prev == null
    {
      LeaveList(v);
      UncountNode(v);
    }

    /** The nodes from the iterator's begin() to its end(). */
    method Order() returns (order: seq<Node>)
      requires Valid()
      ensures Elems(order) == members && Distinct(order)
      ensures forall i: nat, j: nat | i < j < |order| :: Lt(order[i].Key(), order[j].Key())
    {
      order := [];
      var current := node;
      while current != node.prev
        invariant |order| < |chain| && order == chain[1..|order| + 1] && current == chain[|order|]
        decreases |chain| - |order|
      {
        order := order + [current.next];
        current := current.next;
      }
      OrderSorted(order);
    }

    lemma OrderSorted(order: seq<Node>)
      requires Valid() && |order| < |chain| && order == chain[1..|order| + 1] && node.prev == chain[|order|]
      ensures Elems(order) == members && Distinct(order)
      ensures forall i: nat, j: nat | i < j < |order| :: Lt(order[i].Key(), order[j].Key())
    {
      Once(|order|, nextIndex);
      assert |order| == |chain| - 1;
      forall i: nat, j: nat | i < j < |order| ensures Lt(order[i].Key(), order[j].Key()) {
        KeysRise(keys, nextIndex, i + 1, j + 1);
        assert keys[i + 1] == chain[i + 1].Key() && keys[j + 1] == chain[j + 1].Key();
      }
      Once(0, nextIndex);
      forall n | n in members ensures n in order {
        assert n in Elems(chain);
        var p :| 0 <= p < |chain| && chain[p] == n;
        assert order[p - 1] == n;
      }
      forall n | n in order ensures n in members {
        var p :| 0 <= p < |order| && order[p] == n;
        assert chain[p + 1] == n && n in Elems(chain);
      }
    }
  }

  ghost predicate ListsMatchOn(ms: set<Node>, g: set<(Node, Node)>, outside: set<Node>)
    reads ms`preds, ms`succs
  {
    && (forall e {:trigger e in g} | e in g :: e.0 in ms && e.1 in ms)
    && (forall x, y {:trigger (x, y) in g} {:trigger y in x.succs} | x in ms && y in ms :: (x, y) in g <==> y in x.succs)
    && (forall x, y {:trigger (x, y) in g} {:trigger x in y.preds} | x in ms && y in ms :: (x, y) in g <==> x in y.preds)
    && (forall x, y {:trigger y in x.succs} | x in ms && y in x.succs :: y in ms || y in outside)
    && (forall x, y {:trigger y in x.preds} | x in ms && y in x.preds :: y in ms || y in outside)
  }

  ghost function KeysOf(ms: set<Node>): map<Node, Rank>
    reads ms`level, ms`index
  {
    map n | n in ms :: n.Key()
  }

  ghost predicate SameId(m: Node, n: Node)
    reads m`indexInParent, n`indexInParent
  {
    m.indexInParent == n.indexInParent
  }

  ghost predicate UniqueIdsOn(ms: set<Node>)
    reads ms`indexInParent
  {
    forall m, n {:trigger SameId(m, n)} | m in ms && n in ms && SameId(m, n) :: m == n
  }

  function Resized(bits: seq<bool>, size: nat): (r: seq<bool>)
    requires |bits| <= size
    ensures forall i: nat :: Bit(r, i) <==> Bit(bits, i)
  {
    bits + seq(size - |bits|, _ => false)
  }

  predicate Bit(bits: seq<bool>, i: nat) {
    i < |bits| && bits[i]
  }
}

/** The client of the order: a module registers a new computation with all its call edges. */
module HloModule {
  import opened Digraph
  import opened PostorderDfs
  import opened TopsortSearch
  import opened OnlineTopsort

  // Some invariants are conjunctions compared with `true`: the verifier then proves them as a whole, and
  // not conjunct by conjunct, at every place that establishes them.

  /** Every edge of `g` goes upwards in the order `at`. */
  ghost predicate Respected<T>(g: set<(T, T)>, at: map<T, Rank>) {
    Over(g, at) && forall e {:trigger e in g} | e in g :: Lt(at[e.0], at[e.1])
  }

  /** Some edge of `g` closes a cycle through `c`. */
  ghost predicate OnCycle<T>(g: set<(T, T)>, c: T) {
    exists e {:trigger e in g} | e in g :: e.1 == c && Reaches(g, c, e.0)
  }

  /** The caller's lists for `ms`, as the order expects them. */
  ghost predicate Registered(ms: set<Node>, g: set<(Node, Node)>, outside: set<Node>)
    reads ms`preds, ms`succs, ms`indexInParent, outside`level
  {
    (&& ListsMatchOn(ms, g, outside) && UniqueIdsOn(ms)
     && outside !! ms && forall n | n in outside :: n.level < 0) == true
  }

  /** Every edge into `c` from the first `k` callers is respected, and closes no cycle. */
  ghost predicate CallersDone<T>(callers: seq<T>, k: nat, c: T, g: set<(T, T)>, at: map<T, Rank>)
    requires k <= |callers| && Over(g, at)
  {
    forall i {:trigger callers[i]} | 0 <= i < k && callers[i] in at && c in at && (callers[i], c) in g ::
      Lt(at[callers[i]], at[c]) && !Reaches(g, c, callers[i])
  }

  lemma NoCycleThrough<T>(callers: seq<T>, c: T, g: set<(T, T)>, at: map<T, Rank>)
    requires RespectedBut(g, c, at) && c in at && CallersDone(callers, |callers|, c, g, at)
    requires forall e {:trigger e in g} | e in g && e.1 == c :: e.0 in callers
    ensures Respected(g, at) && !OnCycle(g, c)
  {
    forall e | e in g ensures Lt(at[e.0], at[e.1]) && !(e.1 == c && Reaches(g, c, e.0)) {
      if e.1 == c {
        var i :| 0 <= i < |callers| && callers[i] == e.0;
        assert (callers[i], c) in g;
      }
    }
  }

  /** What registering one more edge into `c` leaves intact. */
  lemma CallersNext<T>(callers: seq<T>, k: nat, c: T, g: set<(T, T)>, was: map<T, Rank>, at: map<T, Rank>)
    requires k < |callers| && RespectedBut(g, c, was) && Over(g, at) && was.Keys == at.Keys && c in at
    requires CallersDone(callers, k, c, g, was)
    requires forall e {:trigger e in g} | e in g && (e.1 != c || Lt(was[e.0], was[c])) :: Lt(at[e.0], at[e.1])
    requires callers[k] in at ==> Lt(at[callers[k]], at[c]) && !Reaches(g, c, callers[k])
    ensures RespectedBut(g, c, at) && CallersDone(callers, k + 1, c, g, at)
  {
    forall i | 0 <= i < k && callers[i] in at && (callers[i], c) in g ensures Lt(at[callers[i]], at[c]) {
      assert Lt(was[callers[i]], was[c]);
    }
  }

  lemma KnownMember(ts: TopologicalSort, g: set<(Node, Node)>, outside: set<Node>, c: Node, n: Node)
    requires ts.Valid() && c in ts.members && Registered(ts.members, g, outside) && (n in c.preds || n in c.succs)
    ensures n in ts.members <==> n.level >= 0
  {
    ts.ListedKeys();
  }

  method AddCaller(ts: TopologicalSort, c: Node, k: nat, ghost g: set<(Node, Node)>, ghost outside: set<Node>) returns (cycle: bool)
    requires ts.Valid() && c in ts.members && Registered(ts.members, g, outside) && RespectedBut(g, c, ts.Keys())
    requires k < |c.preds| && CallersDone(c.preds, k, c, g, ts.Keys())
    modifies ts`numEdges, ts`delta, ts`visitedBackwards, ts`visitedForwards, ts`increased
    modifies ts`nextIndex, ts`firstInLevel, ts`chain, ts`keys, ts`cut
    modifies ts.members`level, ts.members`index, ts.members`next, ts.members`prev, ts.node`next, ts.node`prev
    ensures cycle ==> OnCycle(g, c)
    ensures !cycle ==> ts.Valid() && Registered(ts.members, g, outside)
    ensures !cycle ==> RespectedBut(g, c, ts.Keys()) && CallersDone(c.preds, k + 1, c, g, ts.Keys())
  {
    ghost var was := ts.Keys();
    var caller := c.preds[k];
    assert caller in c.preds;
    KnownMember(ts, g, outside, c, caller);
    cycle := false;
    if caller.InTopologicalOrder() {
      assert (caller, c) in g;
      cycle := ts.AddEdge(caller, c, g, outside);
    }
    if !cycle {
      CallersNext(c.preds, k, c, g, was, ts.Keys());
    }
  }

  method AddCallers(ts: TopologicalSort, c: Node, ghost g: set<(Node, Node)>, ghost outside: set<Node>) returns (cycle: bool)
    requires ts.Valid() && c in ts.members && Registered(ts.members, g, outside) && RespectedBut(g, c, ts.Keys())
    modifies ts`numEdges, ts`delta, ts`visitedBackwards, ts`visitedForwards, ts`increased
    modifies ts`nextIndex, ts`firstInLevel, ts`chain, ts`keys, ts`cut
    modifies ts.members`level, ts.members`index, ts.members`next, ts.members`prev, ts.node`next, ts.node`prev
    ensures cycle <==> OnCycle(g, c)
    ensures !cycle ==> ts.Valid() && Respected(g, ts.Keys()) && Registered(ts.members, g, outside)
  {
    cycle := false;
    var it := 0;
    while it < |c.preds|
      invariant it <= |c.preds| && ts.Valid() && Registered(ts.members, g, outside)
      invariant RespectedBut(g, c, ts.Keys()) && CallersDone(c.preds, it, c, g, ts.Keys())
    {
      cycle := AddCaller(ts, c, it, g, outside);
      if cycle {
        return;
      }
      it := it + 1;
    }
    NoCycleThrough(c.preds, c, g, ts.Keys());
  }

  method AddCallees(ts: TopologicalSort, c: Node, ghost g: set<(Node, Node)>, ghost outside: set<Node>)
    requires ts.Valid() && c in ts.members && Registered(ts.members, g, outside) && Respected(g, ts.Keys())
    modifies ts`numEdges, ts`delta, ts`visitedBackwards, ts`visitedForwards, ts`increased
    modifies ts`nextIndex, ts`firstInLevel, ts`chain, ts`keys, ts`cut
    modifies ts.members`level, ts.members`index, ts.members`next, ts.members`prev, ts.node`next, ts.node`prev
    ensures ts.Valid() && Respected(g, ts.Keys())
  {
    var it := 0;
    while it < |c.succs|
      invariant it <= |c.succs| && ts.Valid() && Registered(ts.members, g, outside) && Respected(g, ts.Keys())
    {
      var callee := c.succs[it];
      assert callee in c.succs;
      KnownMember(ts, g, outside, c, callee);
      if callee.InTopologicalOrder() {
        assert (c, callee) in g;
        ts.AboveNoWayBack(c, callee, g, ts.Keys());
        var cycle := ts.AddEdge(c, callee, g, outside);
        assert !cycle;
      }
      it := it + 1;
    }
  }

  /** A new node below all others respects its outgoing edges. */
  lemma NewNodeRespected<T>(g: set<(T, T)>, c: T, was: map<T, Rank>, key: Rank)
    requires Over(g, was[c := key]) && c !in was
    requires forall n | n in was :: Lt(key, was[n])
    requires forall e {:trigger e in g} | e in g && e.0 != c && e.1 != c :: e.0 in was && e.1 in was && Lt(was[e.0], was[e.1])
    ensures RespectedBut(g, c, was[c := key])
  {
  }

  method AddFront(ts: TopologicalSort, c: Node, ghost g: set<(Node, Node)>)
    requires ts.Valid() && c !in ts.members && c != ts.node && c.next == null && c.prev == null
    requires Over(g, ts.Keys()[c := c.Key()])
    requires forall e {:trigger e in g} | e in g && e.0 != c && e.1 != c ::
      e.0 in ts.members && e.1 in ts.members && Lt(ts.Keys()[e.0], ts.Keys()[e.1])
    modifies ts`members, ts`numNodes, ts`delta, ts`nextIndex, ts`firstInLevel, ts`chain, ts`keys, ts`cut
    modifies c`level, c`index, c`next, c`prev, ts.members`next, ts.members`prev, ts.node`next, ts.node`prev
    ensures ts.Valid() && ts.members == old(ts.members) + {c}
    ensures RespectedBut(g, c, ts.Keys())
  {
    ghost var was := ts.Keys();
    ts.AddNode(c);
    NewNodeRespected(g, c, was, c.Key());
  }

  method Admit(ts: TopologicalSort, c: Node, ghost g: set<(Node, Node)>, ghost outside: set<Node>)
    requires ts.Valid() && c !in ts.members && c != ts.node && c.next == null && c.prev == null
    requires Registered(ts.members + {c}, g, outside)
    requires forall e {:trigger e in g} | e in g && e.0 != c && e.1 != c ::
      e.0 in ts.members && e.1 in ts.members && Lt(ts.Keys()[e.0], ts.Keys()[e.1])
    modifies ts`members, ts`numNodes, ts`delta, ts`nextIndex, ts`firstInLevel, ts`chain, ts`keys, ts`cut
    modifies c`level, c`index, c`next, c`prev, ts.members`next, ts.members`prev, ts.node`next, ts.node`prev
    ensures ts.Valid() && ts.members == old(ts.members) + {c}
    ensures RespectedBut(g, c, ts.Keys()) && Registered(ts.members, g, outside)
  {
    ghost var ms := ts.members + {c};
    AddFront(ts, c, g);
    assert ts.members == ms && Registered(ms, g, outside);
  }

  /** Registers the computation `c` with all edges to its callers and callees that the lists of
      the module's computations hold: reports a cycle exactly when one goes through `c`, and
      otherwise leaves all those edges respected. */
  method AddComputation(ts: TopologicalSort, c: Node, ghost g: set<(Node, Node)>, ghost outside: set<Node>) returns (cycle: bool)
    requires ts.Valid() && c !in ts.members && c != ts.node && c.next == null && c.prev == null
    requires Registered(ts.members + {c}, g, outside)
    requires forall e {:trigger e in g} | e in g && e.0 != c && e.1 != c ::
      e.0 in ts.members && e.1 in ts.members && Lt(ts.Keys()[e.0], ts.Keys()[e.1])
    modifies ts`members, ts`numNodes, ts`numEdges, ts`delta, ts`visitedBackwards, ts`visitedForwards, ts`increased
    modifies ts`nextIndex, ts`firstInLevel, ts`chain, ts`keys, ts`cut
    modifies ts.members`level, ts.members`index, ts.members`next, ts.members`prev, ts.node`next, ts.node`prev
    modifies c`level, c`index, c`next, c`prev
    ensures cycle <==> OnCycle(g, c)
    ensures !cycle ==> ts.Valid() && ts.members == old(ts.members) + {c} && Respected(g, ts.Keys())
  {
    Admit(ts, c, g, outside);
    cycle := AddCallers(ts, c, g, outside);
    if !cycle {
      AddCallees(ts, c, g, outside);
    }
  }
}

/** Why AddEdge(v, w) restores the order: the keys after handing out fresh indices to the raised
    nodes `f` and then to v's ancestors `b`, from last to first, respect every edge again. */
module TopsortOrder {
  import opened Digraph
  import opened PostorderDfs
  import opened OrderedList
  import opened TopsortSearch

  /** The three ways AddEdge(v, w) leaves its searches when w is not yet above v: the budget is
      spent and w goes to a fresh level; w is on v's level; w is raised to v's level. */
  ghost predicate Outcome<T>(v: T, w: T, g: set<(T, T)>, at: map<T, Rank>, level: int, bad: set<T>, f: seq<T>, b: seq<T>) {
    && v != w && v in at && w in at && v in bad && RespectedBut(g, w, at)
    && if b == [] then
         level == at[v].level + 1 && at[w].level < level && Raised(w, g, at, level, bad, f)
       else
         && level == at[v].level && Ancestors(v, w, g, at, b)
         && if f == [] then at[w].level == level && !Lt(at[v], at[w])
            else at[w].level < level && Raised(w, g, at, level, bad, f) && Elems(b) <= bad
  }

  /** Fresh indices count down from `next`: through `f` from its start, then through `b` from its end. */
  ghost predicate Reindexed<T>(at: map<T, Rank>, level: int, f: seq<T>, b: seq<T>, next: int, now: map<T, Rank>) {
    && now.Keys == at.Keys
    && (forall n | n in at :: at[n].index > next)
    && (forall j {:trigger f[j]} | 0 <= j < |f| :: f[j] in now && now[f[j]] == Rank(level, next - j))
    && (forall k {:trigger b[k]} | 0 <= k < |b| :: b[k] in now && now[b[k]] == Rank(at[b[k]].level, next - |f| - |b| + 1 + k))
    && (forall n | n in at && n !in f && n !in b :: now[n] == at[n])
  }

  /** Raised nodes lie above w. */
  lemma RaisedAbove<T>(w: T, g: set<(T, T)>, at: map<T, Rank>, n: T)
    requires RespectedBut(g, w, at) && w in at && Reaches(g, w, n)
    ensures n == w || (n in at && Lt(at[w], at[n]))
  {
    var above := set m | m in at && (m == w || Lt(at[w], at[m]));
    StaysInside(g, above, w, n);
  }

  /** An edge whose target is raised or high, seen from a raised source. */
  lemma FromRaised<T>(v: T, w: T, g: set<(T, T)>, at: map<T, Rank>, level: int, bad: set<T>, f: seq<T>, b: seq<T>,
                      next: int, now: map<T, Rank>, x: T, y: T)
    requires Outcome(v, w, g, at, level, bad, f, b) && Reindexed(at, level, f, b, next, now)
    requires (x, y) in g && y != w && x in f
    ensures Lt(now[x], now[y])
  {
    var e := (x, y);
    assert e in g && Settled(at, level, Elems(f), y) && y !in bad;
    var i :| 0 <= i < |f| && f[i] == x;
    if y in f {
      assert e in Rising(g, w, at, level) && BeforeAt(f, e.1, i);
      var j :| 0 <= j < |f[..i]| && f[..i][j] == y;
      assert f[j] == y && now[y] == Rank(level, next - j);
    } else {
      assert y !in b;
    }
  }

  lemma IntoAncestors<T>(v: T, w: T, g: set<(T, T)>, at: map<T, Rank>, level: int, bad: set<T>, f: seq<T>, b: seq<T>,
                         next: int, now: map<T, Rank>, x: T, y: T)
    requires Outcome(v, w, g, at, level, bad, f, b) && Reindexed(at, level, f, b, next, now)
    requires (x, y) in g && x !in f && y in b
    ensures Lt(now[x], now[y])
  {
    var e := (x, y);
    var k :| 0 <= k < |b| && b[k] == y;
    SameLevel(v, w, g, at, b, y);
    if at[x].level == level {
      assert e in LevelGraph(g, at) && BeforeAt(b, e.0, k);
      var j :| 0 <= j < |b[..k]| && b[..k][j] == x;
      assert b[j] == x && b[k] == y;
    } else if x in b {
      SameLevel(v, w, g, at, b, x);
    }
  }

  lemma SameLevel<T>(v: T, w: T, g: set<(T, T)>, at: map<T, Rank>, b: seq<T>, x: T)
    requires Over(g, at) && v in at && Ancestors(v, w, g, at, b) && x in b && x in at
    ensures at[x].level == at[v].level
  {
    var level := set n | n in at && at[n].level == at[x].level;
    assert Reaches(LevelGraph(g, at), x, v);
    StaysInside(LevelGraph(g, at), level, x, v);
  }

  /** A raised node was below `level`, an ancestor of v on it. */
  lemma Apart<T>(v: T, w: T, g: set<(T, T)>, at: map<T, Rank>, level: int, bad: set<T>, f: seq<T>, b: seq<T>, x: T)
    requires Outcome(v, w, g, at, level, bad, f, b) && x in f && x in at
    ensures x !in b
  {
    if x in b {
      SameLevel(v, w, g, at, b, x);
    }
  }

  lemma AllApart<T>(v: T, w: T, g: set<(T, T)>, at: map<T, Rank>, level: int, bad: set<T>, f: seq<T>, b: seq<T>)
    requires Outcome(v, w, g, at, level, bad, f, b)
    ensures Distinct(f) && Distinct(b) && forall j | 0 <= j < |f| :: f[j] !in b
  {
    forall j | 0 <= j < |f| ensures f[j] !in b {
      assert f[j] in f && f[j] in at;
      Apart(v, w, g, at, level, bad, f, b, f[j]);
    }
  }

  /** Every edge the order respected before, and every edge not into w, is respected afterwards. */
  lemma EdgeKept<T>(v: T, w: T, g: set<(T, T)>, at: map<T, Rank>, level: int, bad: set<T>, f: seq<T>, b: seq<T>,
                    next: int, now: map<T, Rank>, x: T, y: T)
    requires Outcome(v, w, g, at, level, bad, f, b) && Reindexed(at, level, f, b, next, now)
    requires (x, y) in g && Lt(at[x], at[y])
    ensures Lt(now[x], now[y])
  {
    if x in f {
      if y == w {
        assert Reaches(g, w, x);
        RaisedAbove(w, g, at, x);
      } else {
        FromRaised(v, w, g, at, level, bad, f, b, next, now, x, y);
      }
    } else if y in b {
      IntoAncestors(v, w, g, at, level, bad, f, b, next, now, x, y);
    } else {
      if x in b { SameLevel(v, w, g, at, b, x); }
      if y in f {
        var j :| 0 <= j < |f| && f[j] == y;
        assert at[y].level < level && now[y] == Rank(level, next - j);
      }
    }
  }

  lemma NewEdgeKept<T>(v: T, w: T, g: set<(T, T)>, at: map<T, Rank>, level: int, bad: set<T>, f: seq<T>, b: seq<T>,
                       next: int, now: map<T, Rank>)
    requires Outcome(v, w, g, at, level, bad, f, b) && Reindexed(at, level, f, b, next, now)
    ensures Lt(now[v], now[w])
  {
    NotRaised(v, w, g, at, level, bad, f, b);
    if f != [] {
      var j :| 0 <= j < |f| && f[j] == w;
      assert now[w] == Rank(level, next - j);
    }
    if b != [] {
      var k :| 0 <= k < |b| && b[k] == v;
      assert now[v] == Rank(at[v].level, next - |f| - |b| + 1 + k);
    }
  }

  lemma NotRaised<T>(v: T, w: T, g: set<(T, T)>, at: map<T, Rank>, level: int, bad: set<T>, f: seq<T>, b: seq<T>)
    requires Outcome(v, w, g, at, level, bad, f, b)
    ensures !Reaches(g, w, v) && v !in f
  {
    var above := set n | n in at && n !in b && n != v && Settled(at, level, Elems(f), n);
    forall e | e in g && e.0 in above ensures e.1 in above {
      LeadsAbove(v, w, g, at, level, bad, f, b, e.0, e.1);
    }
    if f != [] { Apart(v, w, g, at, level, bad, f, b, w); }
    assert w in above;
    if Reaches(g, w, v) {
      StaysInside(g, above, w, v);
    }
    assert v in f ==> Reaches(g, w, v);
  }

  /** The nodes that are raised, or high and no ancestors of v, cannot be left. */
  lemma LeadsAbove<T>(v: T, w: T, g: set<(T, T)>, at: map<T, Rank>, level: int, bad: set<T>, f: seq<T>, b: seq<T>, x: T, y: T)
    requires Outcome(v, w, g, at, level, bad, f, b) && (x, y) in g && x !in b && Settled(at, level, Elems(f), x)
    ensures y in at && y !in b && y != v && Settled(at, level, Elems(f), y)
  {
    var e := (x, y);
    assert e in g;
    if y == w {
      if f != [] { Apart(v, w, g, at, level, bad, f, b, w); }
    } else if x in f {
      assert Settled(at, level, Elems(f), e.1) && e.1 !in bad;
    } else if y in b {
      SameLevel(v, w, g, at, b, y);
      assert forall k | 0 <= k < |b| && b[k] == y && e in LevelGraph(g, at) :: BeforeAt(b, e.0, k);
    }
  }

  /** After the backward search without a cycle: `seen` reach v, and w's fate is decided. */
  ghost predicate Prepared<T>(v: T, w: T, g: set<(T, T)>, at: map<T, Rank>, level: int, seen: set<T>, raise: bool, b: seq<T>) {
    && v in at && w in at && v in seen && w !in seen && seen <= at.Keys && RespectedBut(g, w, at) && 0 <= level
    && (forall n {:trigger Reaches(LevelGraph(g, at), n, v)} | n in seen :: Reaches(LevelGraph(g, at), n, v))
    && if !raise then
         at[w].level == level == at[v].level && !Lt(at[v], at[w]) && Ancestors(v, w, g, at, b) && Elems(b) == seen
       else
         && at[w].level < level
         && if level == at[v].level then Ancestors(v, w, g, at, b) && Elems(b) == seen
            else level == at[v].level + 1
  }

  /** After the forward search without a cycle: `b` moves with `f` exactly when w was raised to
      v's own level, and v itself was not raised. */
  lemma Decide<T>(v: T, w: T, g: set<(T, T)>, at: map<T, Rank>, level: int, seen: set<T>, f: seq<T>, b: seq<T>)
    requires Prepared(v, w, g, at, level, seen, true, b) && Raised(w, g, at, level, seen + {v}, f)
    ensures Outcome(v, w, g, at, level, seen + {v}, f, if level == at[v].level then b else [])
    ensures v !in f && w in f
  {
    NotRaised(v, w, g, at, level, seen + {v}, f, if level == at[v].level then b else []);
  }
}

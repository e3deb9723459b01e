/** The two searches of the online topological sort on values: a graph `g`, the keys `at` the
    nodes had when the edge (v, w) came in, and the agenda of the search.  Edges into `w` may be
    missing from the order so far; all others go upwards. */
module TopsortSearch {
  import opened Digraph
  import opened PostorderDfs
  import opened OrderedList

  // Some invariants are conjunctions compared with `true`: the verifier then proves them as a whole, and
  // not conjunct by conjunct, at every place that establishes them.

  ghost predicate Over<T>(g: set<(T, T)>, at: map<T, Rank>) {
    forall e {:trigger e in g} | e in g :: e.0 in at && e.1 in at
  }

  /** Every edge that does not lead to `w` goes upwards in the order `at`. */
  ghost predicate RespectedBut<T>(g: set<(T, T)>, w: T, at: map<T, Rank>) {
    Over(g, at) && forall e {:trigger e in g} | e in g && e.1 != w :: Lt(at[e.0], at[e.1])
  }

  ghost predicate Leveled<T>(at: map<T, Rank>) {
    forall n | n in at :: at[n].level >= 0
  }

  /** The edges of `g` between nodes of one level. */
  ghost function LevelGraph<T>(g: set<(T, T)>, at: map<T, Rank>): set<(T, T)>
    requires Over(g, at)
  {
    set e | e in g && at[e.0].level == at[e.1].level
  }

  // ----- backwards -----

  /** The children of the backward search: predecessors on the same level. */
  ghost function Upwards<T>(sl: set<(T, T)>, w: T): set<(T, T)> {
    set e | e in sl && e.1 != w :: (e.1, e.0)
  }

  ghost function UpwardRank<T>(at: map<T, Rank>): map<T, Rank> {
    map n | n in at :: Rank(0, -at[n].index)
  }

  /** What the backward search has established while `agenda` is still to be processed. */
  ghost predicate Searching<T>(v: T, w: T, sl: set<(T, T)>, agenda: Agenda<T>, seen: set<T>) {
    && w !in seen
    && (v in seen || agenda == [(v, false)])
    && (forall n {:trigger Reaches(sl, n, v)} | n in seen :: Reaches(sl, n, v))
    && (forall i | 0 <= i < |agenda| :: Reaches(sl, agenda[i].0, v))
  }

  /** `kids` are the same-level predecessors of `y`. */
  ghost predicate LevelPredecessors<T>(sl: set<(T, T)>, y: T, kids: Agenda<T>) {
    && (forall k | 0 <= k < |kids| :: !kids[k].1 && (kids[k].0, y) in sl)
    && (forall e {:trigger e in sl} | e in sl && e.1 == y :: (e.0, false) in kids)
  }

  /** Invariant of the backward search. */
  ghost predicate Backwards<T>(v: T, w: T, sl: set<(T, T)>, at: map<T, Rank>, agenda: Agenda<T>, b: seq<T>, seen: set<T>) {
    (Invariant(Upwards(sl, w), UpwardRank(at), {}, agenda, b, seen) && Searching(v, w, sl, agenda, seen)) == true
  }

  lemma BackwardsStart<T>(v: T, w: T, g: set<(T, T)>, at: map<T, Rank>)
    requires v in at && RespectedBut(g, w, at)
    ensures Backwards(v, w, LevelGraph(g, at), at, [(v, false)], [], {})
  {
    var sl := LevelGraph(g, at);
    Start(Upwards(sl, w), UpwardRank(at), {}, v);
    ReachesSelf(sl, v);
  }

  lemma BackwardsPop<T>(v: T, w: T, sl: set<(T, T)>, agenda: Agenda<T>, y: T, post: bool, seen: set<T>)
    requires Searching(v, w, sl, agenda + [(y, post)], seen)
    ensures Reaches(sl, y, v)
    ensures y in seen ==> Searching(v, w, sl, agenda, seen)
    ensures v !in seen ==> y == v && !post && agenda == []
  {
    var full := agenda + [(y, post)];
    assert full[|agenda|] == (y, post);
    assert forall i | 0 <= i < |agenda| :: full[i] == agenda[i];
    if v !in seen {
      assert |full| == 1 && full[0] == (v, false);
    }
  }

  lemma BackwardsEmit<T>(v: T, w: T, sl: set<(T, T)>, at: map<T, Rank>, agenda: Agenda<T>, b: seq<T>, seen: set<T>, y: T)
    requires Backwards(v, w, sl, at, agenda + [(y, true)], b, seen)
    ensures Backwards(v, w, sl, at, agenda, b + [y], seen)
  {
    assert (agenda + [(y, true)])[|agenda|] == (y, true);
    BackwardsPop(v, w, sl, agenda, y, true, seen);
    Emit(Upwards(sl, w), UpwardRank(at), {}, agenda, b, seen, y);
  }

  lemma BackwardsSkip<T>(v: T, w: T, sl: set<(T, T)>, at: map<T, Rank>, agenda: Agenda<T>, b: seq<T>, seen: set<T>, y: T)
    requires Backwards(v, w, sl, at, agenda + [(y, false)], b, seen) && y in seen
    ensures Backwards(v, w, sl, at, agenda, b, seen)
  {
    BackwardsPop(v, w, sl, agenda, y, false, seen);
    Skip(Upwards(sl, w), UpwardRank(at), {}, agenda, b, seen, y);
  }

  lemma BackwardsOpen<T>(v: T, w: T, g: set<(T, T)>, at: map<T, Rank>, agenda: Agenda<T>, b: seq<T>, seen: set<T>,
                         y: T, kids: Agenda<T>)
    requires RespectedBut(g, w, at) && y in at && y != w && y !in seen
    requires Backwards(v, w, LevelGraph(g, at), at, agenda + [(y, false)], b, seen)
    requires LevelPredecessors(LevelGraph(g, at), y, kids)
    ensures Backwards(v, w, LevelGraph(g, at), at, agenda + [(y, true)] + kids, b, seen + {y})
  {
    var sl := LevelGraph(g, at);
    forall e | e in Upwards(sl, w) && e.0 == y ensures (e.1, false) in kids {
      assert (e.1, y) in sl;
    }
    assert Kids(Upwards(sl, w), UpwardRank(at), {}, y, kids);
    Open(Upwards(sl, w), UpwardRank(at), {}, agenda, b, seen, y, kids);
    SearchingOpen(v, w, sl, agenda, seen, y, kids);
  }

  lemma SearchingOpen<T>(v: T, w: T, sl: set<(T, T)>, agenda: Agenda<T>, seen: set<T>, y: T, kids: Agenda<T>)
    requires Searching(v, w, sl, agenda + [(y, false)], seen) && y != w && LevelPredecessors(sl, y, kids)
    ensures Searching(v, w, sl, agenda + [(y, true)] + kids, seen + {y})
  {
    BackwardsPop(v, w, sl, agenda, y, false, seen);
    var full, next := agenda + [(y, false)], agenda + [(y, true)] + kids;
    forall i | 0 <= i < |next| ensures Reaches(sl, next[i].0, v) {
      if i <= |agenda| {
        assert next[i].0 == full[i].0;
      } else {
        var x := kids[i - |agenda| - 1].0;
        assert next[i].0 == x && (x, y) in sl;
        Prepend(sl, x, y, v);
      }
    }
  }

  /** v's ancestors on its level, `w` not among them: each once and after its predecessors. */
  ghost predicate Ancestors<T>(v: T, w: T, g: set<(T, T)>, at: map<T, Rank>, b: seq<T>)
    requires Over(g, at)
  {
    && Distinct(b) && v in b && w !in b
    && (forall n {:trigger Reaches(LevelGraph(g, at), n, v)} | n in at :: n in b <==> Reaches(LevelGraph(g, at), n, v))
    && (forall e, p {:trigger e in LevelGraph(g, at), BeforeAt(b, e.0, p)} | e in LevelGraph(g, at) && 0 <= p < |b| && b[p] == e.1 :: BeforeAt(b, e.0, p))
  }

  /** With the agenda empty, the emitted nodes are exactly v's ancestors on its level. */
  lemma BackwardsDone<T>(v: T, w: T, g: set<(T, T)>, at: map<T, Rank>, b: seq<T>, seen: set<T>)
    requires v in at && Over(g, at) && Backwards(v, w, LevelGraph(g, at), at, [], b, seen)
    ensures seen == Elems(b) && Ancestors(v, w, g, at, b)
  {
    var sl := LevelGraph(g, at);
    forall e, p | e in sl && 0 <= p < |b| && b[p] == e.1 ensures BeforeAt(b, e.0, p) {
      assert (e.1, e.0) in Upwards(sl, w) && BeforeAt(b, (e.1, e.0).1, p);
    }
    assert forall n | n in seen :: Held([], b, n);
    var others := set n | n in at && n !in b;
    assert v in b && v !in others;
    forall n | n in at && Reaches(sl, n, v) ensures n in b {
      if n !in b {
        forall e | e in sl && e.0 in others ensures e.1 in others {
          assert forall p | 0 <= p < |b| && b[p] == e.1 :: BeforeAt(b, e.0, p) && e.0 in b[..p];
        }
        StaysInside(sl, others, n, v);
      }
    }
  }

  // ----- forwards -----

  /** The children of the forward search whose level rises to `level`. */
  ghost function Rising<T>(g: set<(T, T)>, w: T, at: map<T, Rank>, level: int): set<(T, T)>
    requires Over(g, at)
  {
    set e | e in g && e.1 != w && at[e.1].level < level
  }

  /** `x` is among the nodes to raise, or high enough as it is. */
  ghost predicate Settled<T>(at: map<T, Rank>, level: int, inc: set<T>, x: T) {
    x in inc || (x in at && at[x].level >= level)
  }

  /** What the forward search has established: `inc` are the nodes raised so far, `bad` those
      whose discovery means a cycle. */
  ghost predicate Raising<T>(w: T, g: set<(T, T)>, at: map<T, Rank>, level: int, bad: set<T>,
                             agenda: Agenda<T>, seen: set<T>, inc: set<T>)
  {
    && w in inc && seen <= inc
    && (w in seen || agenda == [(w, false)])
    && (forall n {:trigger n in inc} | n in inc :: n in at && at[n].level < level && (n in seen || (n, false) in agenda))
    && (forall n {:trigger Reaches(g, w, n)} | n in inc :: Reaches(g, w, n))
    && (forall i | 0 <= i < |agenda| :: Settled(at, level, inc, agenda[i].0))
    && (forall e {:trigger e in g} | e in g && e.0 in seen :: Settled(at, level, inc, e.1) && e.1 !in bad)
  }

  ghost predicate Forwards<T>(w: T, g: set<(T, T)>, at: map<T, Rank>, level: int, bad: set<T>,
                              agenda: Agenda<T>, f: seq<T>, seen: set<T>, inc: set<T>)
  {
    (&& RespectedBut(g, w, at)
     && Invariant(Rising(g, w, at, level), at, {w}, agenda, f, seen)
     && Raising(w, g, at, level, bad, agenda, seen, inc)) == true
  }

  lemma ForwardsStart<T>(w: T, g: set<(T, T)>, at: map<T, Rank>, level: int, bad: set<T>)
    requires RespectedBut(g, w, at) && w in at && at[w].level < level
    ensures Forwards(w, g, at, level, bad, [(w, false)], [], {}, {w})
  {
    Start(Rising(g, w, at, level), at, {w}, w);
    ReachesSelf(g, w);
    assert [(w, false)][0] == (w, false);
  }

  lemma ForwardsEmit<T>(w: T, g: set<(T, T)>, at: map<T, Rank>, level: int, bad: set<T>,
                        agenda: Agenda<T>, f: seq<T>, seen: set<T>, inc: set<T>, x: T)
    requires Forwards(w, g, at, level, bad, agenda + [(x, true)], f, seen, inc)
    ensures Forwards(w, g, at, level, bad, agenda, f + [x], seen, inc)
  {
    var full := agenda + [(x, true)];
    assert full[|agenda|] == (x, true) && OpenAt(full, f, seen, |agenda|);
    Emit(Rising(g, w, at, level), at, {w}, agenda, f, seen, x);
    RaisingPop(w, g, at, level, bad, agenda, seen, inc, x, true);
  }

  lemma RaisingPop<T>(w: T, g: set<(T, T)>, at: map<T, Rank>, level: int, bad: set<T>,
                      agenda: Agenda<T>, seen: set<T>, inc: set<T>, x: T, post: bool)
    requires Raising(w, g, at, level, bad, agenda + [(x, post)], seen, inc)
    ensures Settled(at, level, inc, x)
    ensures w !in seen ==> x == w && agenda == []
    ensures x in seen || x !in inc ==> Raising(w, g, at, level, bad, agenda, seen, inc)
  {
    var full := agenda + [(x, post)];
    assert full[|agenda|] == (x, post);
    assert forall i | 0 <= i < |agenda| :: full[i] == agenda[i];
    if w !in seen {
      assert |full| == 1 && full[0] == (w, false);
    }
    forall n | n in inc && n !in seen && n != x ensures (n, false) in agenda {
      var i :| 0 <= i < |full| && full[i] == (n, false);
      assert agenda[i] == (n, false);
    }
  }

  lemma ForwardsKnown<T>(w: T, g: set<(T, T)>, at: map<T, Rank>, level: int, bad: set<T>,
                         agenda: Agenda<T>, f: seq<T>, seen: set<T>, inc: set<T>)
    requires Forwards(w, g, at, level, bad, agenda, f, seen, inc)
    ensures forall i | 0 <= i < |agenda| :: agenda[i].0 in at
  {
    assert forall i | 0 <= i < |agenda| :: Settled(at, level, inc, agenda[i].0);
  }

  /** A popped entry is dropped when its node was opened before or is not to be raised. */
  lemma ForwardsSkip<T>(w: T, g: set<(T, T)>, at: map<T, Rank>, level: int, bad: set<T>,
                        agenda: Agenda<T>, f: seq<T>, seen: set<T>, inc: set<T>, x: T)
    requires Forwards(w, g, at, level, bad, agenda + [(x, false)], f, seen, inc)
    requires x in seen || x !in inc
    ensures Forwards(w, g, at, level, bad, agenda, f, seen, inc)
  {
    RaisingPop(w, g, at, level, bad, agenda, seen, inc, x, false);
    Skip(Rising(g, w, at, level), at, {w}, agenda, f, seen, x);
  }

  /** `kids` are the successors of `x`, none of them bad; the low ones have joined `inc'`. */
  ghost predicate Successors<T>(g: set<(T, T)>, at: map<T, Rank>, level: int, bad: set<T>,
                                x: T, inc: set<T>, kids: Agenda<T>, inc': set<T>)
  {
    (&& inc <= inc'
     && (forall n {:trigger n in inc'} | n in inc' - inc :: (x, n) in g && n in at && at[n].level < level && (n, false) in kids)
     && (forall k | 0 <= k < |kids| :: !kids[k].1 && (x, kids[k].0) in g && Settled(at, level, inc', kids[k].0))
     && (forall e {:trigger e in g} | e in g && e.0 == x ::
           (e.1, false) in kids && Settled(at, level, inc', e.1) && e.1 !in bad)) == true
  }

  lemma ForwardsOpen<T>(w: T, g: set<(T, T)>, at: map<T, Rank>, level: int, bad: set<T>,
                        agenda: Agenda<T>, f: seq<T>, seen: set<T>, inc: set<T>, x: T, kids: Agenda<T>, inc': set<T>)
    requires Forwards(w, g, at, level, bad, agenda + [(x, false)], f, seen, inc)
    requires x in inc && x !in seen && Successors(g, at, level, bad, x, inc, kids, inc')
    ensures Forwards(w, g, at, level, bad, agenda + [(x, true)] + kids, f, seen + {x}, inc')
  {
    var d := Rising(g, w, at, level);
    RaisingPop(w, g, at, level, bad, agenda, seen, inc, x, false);
    forall k | 0 <= k < |kids| ensures kids[k].0 in at && (kids[k].0 in {w} || Lt(at[x], at[kids[k].0])) {
      assert (x, kids[k].0) in g;
    }
    assert Kids(d, at, {w}, x, kids);
    Open(d, at, {w}, agenda, f, seen, x, kids);
    RaisingOpen(w, g, at, level, bad, agenda, seen, inc, x, kids, inc');
  }

  lemma RaisingOpen<T>(w: T, g: set<(T, T)>, at: map<T, Rank>, level: int, bad: set<T>,
                       agenda: Agenda<T>, seen: set<T>, inc: set<T>, x: T, kids: Agenda<T>, inc': set<T>)
    requires Raising(w, g, at, level, bad, agenda + [(x, false)], seen, inc)
    requires x in inc && Successors(g, at, level, bad, x, inc, kids, inc')
    ensures Raising(w, g, at, level, bad, agenda + [(x, true)] + kids, seen + {x}, inc')
  {
    var full, next := agenda + [(x, false)], agenda + [(x, true)] + kids;
    var n := |agenda|;
    RaisingPop(w, g, at, level, bad, agenda, seen, inc, x, false);
    assert forall i | 0 <= i <= n :: next[i].0 == full[i].0;
    assert forall i | n < i < |next| :: next[i] == kids[i - n - 1];
    forall y | y in inc' ensures y in at && at[y].level < level && (y in seen + {x} || (y, false) in next) {
      if y in inc && y !in seen && y != x {
        var i :| 0 <= i < |full| && full[i] == (y, false);
        assert next[i] == (y, false);
      } else if y !in inc {
        var k :| 0 <= k < |kids| && kids[k] == (y, false);
        assert next[n + 1 + k] == (y, false);
      }
    }
    forall y | y in inc' ensures Reaches(g, w, y) {
      assert Reaches(g, w, x) && (y in inc ==> Reaches(g, w, y));
      if y !in inc { Append(g, w, x, y); }
    }
    forall i | 0 <= i < |next| ensures Settled(at, level, inc', next[i].0) {
      if i <= n { assert Settled(at, level, inc, full[i].0); }
    }
  }

  /** A successor met from a raised node is reached from `w`. */
  lemma ForwardsMet<T>(w: T, g: set<(T, T)>, at: map<T, Rank>, level: int, bad: set<T>,
                       agenda: Agenda<T>, f: seq<T>, seen: set<T>, inc: set<T>, x: T, y: T)
    requires Forwards(w, g, at, level, bad, agenda, f, seen, inc) && x in inc && (x, y) in g
    ensures Reaches(g, w, y)
  {
    Append(g, w, x, y);
  }

  /** What the forward search reports: the nodes to raise, each once and after its raised
      successors; no edge leaves them for a low or bad node. */
  ghost predicate Raised<T>(w: T, g: set<(T, T)>, at: map<T, Rank>, level: int, bad: set<T>, f: seq<T>)
    requires Over(g, at)
  {
    && Distinct(f) && w in f
    && (forall n {:trigger n in f} | n in f :: n in at && at[n].level < level)
    && (forall n {:trigger Reaches(g, w, n)} | n in f :: Reaches(g, w, n))
    && (forall e {:trigger e in g} | e in g && e.0 in f :: Settled(at, level, Elems(f), e.1) && e.1 !in bad)
    && ChildrenFirst(Rising(g, w, at, level), f)
  }

  lemma ForwardsDone<T>(w: T, g: set<(T, T)>, at: map<T, Rank>, level: int, bad: set<T>,
                        f: seq<T>, seen: set<T>, inc: set<T>)
    requires Forwards(w, g, at, level, bad, [], f, seen, inc)
    ensures seen == inc == Elems(f) && Raised(w, g, at, level, bad, f)
  {
    assert forall n | n in seen :: Held([], f, n);
  }
}

/** The depth-first search both directions of the topological sort run: an agenda of
    (node, post) pairs, where a node is first opened (its children are stacked above a
    post entry) and, once the post entry surfaces again, emitted.  Here the agenda is a
    value; `Invariant` is what every iteration of the two loops keeps.

    The bodies of the quantified facts are named predicates, which serve as triggers. */
module PostorderDfs {

  datatype Rank = Rank(level: int, index: int)
  type Agenda<T> = seq<(T, bool)>

  predicate Lt(a: Rank, b: Rank) {
    a.level < b.level || (a.level == b.level && a.index < b.index)
  }

  ghost predicate Differ<T>(s: seq<T>, i: int, j: int)
    requires 0 <= i < j < |s|
  {
    s[i] != s[j]
  }

  ghost predicate Distinct<T>(s: seq<T>) {
    forall i, j {:trigger Differ(s, i, j)} | 0 <= i < j < |s| :: Differ(s, i, j)
  }

  ghost predicate BeforeAt<T>(out: seq<T>, x: T, p: int)
    requires 0 <= p <= |out|
  {
    x in out[..p]
  }

  /** Every `d`-child of a node of `out` occurs in `out` before that node. */
  ghost predicate ChildrenFirst<T>(d: set<(T, T)>, out: seq<T>) {
    forall e, p {:trigger e in d, BeforeAt(out, e.1, p)} | e in d && 0 <= p < |out| && out[p] == e.0 ::
      BeforeAt(out, e.1, p)
  }

  ghost predicate AboveAt<T>(agenda: Agenda<T>, out: seq<T>, x: T, i: int) {
    x in out || exists j :: i < j < |agenda| && j >= 0 && agenda[j].0 == x
  }

  /** Every `d`-child of an open node is emitted or waits above it. */
  ghost predicate ChildrenAbove<T>(d: set<(T, T)>, agenda: Agenda<T>, out: seq<T>) {
    forall e, i {:trigger e in d, AboveAt(agenda, out, e.1, i)} |
      e in d && 0 <= i < |agenda| && agenda[i] == (e.0, true) :: AboveAt(agenda, out, e.1, i)
  }

  ghost predicate RisesTo<T>(rank: map<T, Rank>, exempt: set<T>, agenda: Agenda<T>, i: int, j: int)
    requires 0 <= i < j < |agenda| && agenda[i].0 in rank && agenda[j].0 in rank
  {
    agenda[j].0 in exempt || Lt(rank[agenda[i].0], rank[agenda[j].0])
  }

  /** Whatever is stacked above an open node has a larger rank, unless it is exempt. */
  ghost predicate RanksRise<T>(rank: map<T, Rank>, exempt: set<T>, agenda: Agenda<T>) {
    && (forall i | 0 <= i < |agenda| :: agenda[i].0 in rank)
    && forall i, j {:trigger RisesTo(rank, exempt, agenda, i, j)} | 0 <= i < j < |agenda| && agenda[i].1 ::
         RisesTo(rank, exempt, agenda, i, j)
  }

  ghost predicate Held<T>(agenda: Agenda<T>, out: seq<T>, x: T) {
    x in out || (x, true) in agenda
  }

  ghost predicate OpenAt<T>(agenda: Agenda<T>, out: seq<T>, seen: set<T>, i: int)
    requires 0 <= i < |agenda|
  {
    agenda[i].1 ==> agenda[i].0 in seen && agenda[i].0 !in out
  }

  ghost predicate OpenOnce<T>(agenda: Agenda<T>, i: int, j: int)
    requires 0 <= i < j < |agenda|
  {
    agenda[i].1 && agenda[j].1 ==> agenda[i].0 != agenda[j].0
  }

  /** The nodes seen so far are the emitted and the open ones. */
  ghost predicate SeenIs<T>(agenda: Agenda<T>, out: seq<T>, seen: set<T>) {
    && (forall x {:trigger Held(agenda, out, x)} | x in seen :: Held(agenda, out, x))
    && (forall x | x in out :: x in seen)
    && (forall i {:trigger OpenAt(agenda, out, seen, i)} | 0 <= i < |agenda| :: OpenAt(agenda, out, seen, i))
    && (forall i, j {:trigger OpenOnce(agenda, i, j)} | 0 <= i < j < |agenda| :: OpenOnce(agenda, i, j))
  }

  /** `d` holds the edges to children the emission order must respect: none leads to an
      exempt node, and ranks rise along them. */
  ghost predicate Ranked<T>(d: set<(T, T)>, rank: map<T, Rank>, exempt: set<T>) {
    forall e {:trigger e in d} | e in d :: e.1 !in exempt && e.0 in rank && e.1 in rank && Lt(rank[e.0], rank[e.1])
  }

  ghost predicate Invariant<T>(d: set<(T, T)>, rank: map<T, Rank>, exempt: set<T>,
                               agenda: Agenda<T>, out: seq<T>, seen: set<T>)
  {
    && Ranked(d, rank, exempt)
    && Distinct(out)
    && SeenIs(agenda, out, seen)
    && RanksRise(rank, exempt, agenda)
    && ChildrenFirst(d, out)
    && ChildrenAbove(d, agenda, out)
  }

  lemma SplitLast<T>(agenda: Agenda<T>)
    requires agenda != []
    ensures agenda == agenda[..|agenda| - 1] + [(agenda[|agenda| - 1].0, agenda[|agenda| - 1].1)]
  {
  }

  lemma Start<T>(d: set<(T, T)>, rank: map<T, Rank>, exempt: set<T>, root: T)
    requires Ranked(d, rank, exempt) && root in rank
    ensures Invariant(d, rank, exempt, [(root, false)], [], {})
  {
  }

  /** A popped entry may be dropped when its node was opened before or is nobody's child. */
  lemma Skip<T>(d: set<(T, T)>, rank: map<T, Rank>, exempt: set<T>,
                agenda: Agenda<T>, out: seq<T>, seen: set<T>, x: T)
    requires Invariant(d, rank, exempt, agenda + [(x, false)], out, seen)
    requires x in seen || forall e {:trigger e in d} | e in d :: e.1 != x
    ensures Invariant(d, rank, exempt, agenda, out, seen)
  {
    var full := agenda + [(x, false)];
    assert forall i | 0 <= i < |agenda| :: full[i] == agenda[i];
    SeenPrefix(agenda, out, seen, x, false);
    RanksPrefix(rank, exempt, agenda, (x, false));
    forall e, i | e in d && 0 <= i < |agenda| && agenda[i] == (e.0, true)
      ensures AboveAt(agenda, out, e.1, i)
    {
      assert full[i] == (e.0, true) && AboveAt(full, out, e.1, i);
      if e.1 !in out {
        var j :| i < j < |full| && full[j].0 == e.1;
        if j == |agenda| {
          SeenIsOut(d, rank, exempt, agenda, out, seen, x);
        } else {
          assert agenda[j].0 == e.1;
        }
      }
    }
  }

  lemma SeenPrefix<T>(agenda: Agenda<T>, out: seq<T>, seen: set<T>, x: T, post: bool)
    requires SeenIs(agenda + [(x, post)], out, seen)
    ensures SeenIs(agenda, if post then out + [x] else out, seen)
  {
    var full, out' := agenda + [(x, post)], if post then out + [x] else out;
    var n := |agenda|;
    assert full[n] == (x, post) && OpenAt(full, out, seen, n);
    assert forall i | 0 <= i < n :: full[i] == agenda[i];
    forall y | y in seen ensures Held(agenda, out', y) {
      assert Held(full, out, y);
      if y !in out' {
        var i :| 0 <= i < |full| && full[i] == (y, true);
        assert agenda[i] == (y, true);
      }
    }
    forall i | 0 <= i < n ensures OpenAt(agenda, out', seen, i) {
      assert OpenAt(full, out, seen, i) && OpenOnce(full, i, n);
    }
    forall i, j | 0 <= i < j < n ensures OpenOnce(agenda, i, j) {
      assert OpenOnce(full, i, j);
    }
  }

  lemma RanksPrefix<T>(rank: map<T, Rank>, exempt: set<T>, agenda: Agenda<T>, top: (T, bool))
    requires RanksRise(rank, exempt, agenda + [top])
    ensures RanksRise(rank, exempt, agenda)
  {
    var full := agenda + [top];
    assert forall i | 0 <= i < |agenda| :: full[i] == agenda[i];
    forall i, j | 0 <= i < j < |agenda| && agenda[i].1 ensures RisesTo(rank, exempt, agenda, i, j) {
      assert RisesTo(rank, exempt, full, i, j);
    }
  }

  lemma SeenIsOut<T>(d: set<(T, T)>, rank: map<T, Rank>, exempt: set<T>,
                     agenda: Agenda<T>, out: seq<T>, seen: set<T>, x: T)
    requires Invariant(d, rank, exempt, agenda + [(x, false)], out, seen)
    requires x in seen && x !in exempt
    ensures x in out
  {
    var full := agenda + [(x, false)];
    assert full[|agenda|] == (x, false) && Held(full, out, x);
    assert forall i | 0 <= i < |agenda| && full[i].1 :: RisesTo(rank, exempt, full, i, |agenda|);
  }

  ghost predicate Kids<T>(d: set<(T, T)>, rank: map<T, Rank>, exempt: set<T>, x: T, kids: Agenda<T>) {
    && x in rank
    && (forall k | 0 <= k < |kids| ::
          !kids[k].1 && kids[k].0 in rank && (kids[k].0 in exempt || Lt(rank[x], rank[kids[k].0])))
    && (forall e {:trigger e in d} | e in d && e.0 == x :: (e.1, false) in kids)
  }

  /** A popped node that was not opened before is opened: its post entry takes its place
      and its children go above. */
  lemma Open<T>(d: set<(T, T)>, rank: map<T, Rank>, exempt: set<T>,
                agenda: Agenda<T>, out: seq<T>, seen: set<T>, x: T, kids: Agenda<T>)
    requires Invariant(d, rank, exempt, agenda + [(x, false)], out, seen)
    requires x !in seen && (x !in exempt || agenda == [])
    requires Kids(d, rank, exempt, x, kids)
    ensures Invariant(d, rank, exempt, agenda + [(x, true)] + kids, out, seen + {x})
  {
    OpenSeen(agenda, out, seen, x, kids);
    OpenRanks(d, rank, exempt, agenda, x, kids);
    OpenChildren(d, rank, exempt, agenda, out, x, kids);
  }

  lemma OpenSeen<T>(agenda: Agenda<T>, out: seq<T>, seen: set<T>, x: T, kids: Agenda<T>)
    requires SeenIs(agenda + [(x, false)], out, seen) && x !in seen
    requires forall k | 0 <= k < |kids| :: !kids[k].1
    ensures SeenIs(agenda + [(x, true)] + kids, out, seen + {x})
  {
    var full, next := agenda + [(x, false)], agenda + [(x, true)] + kids;
    var n := |agenda|;
    assert forall i | 0 <= i < n :: next[i] == full[i];
    assert next[n] == (x, true);
    assert forall i | n < i < |next| :: next[i] == kids[i - n - 1];
    forall y | y in seen + {x} ensures Held(next, out, y) {
      if y in seen {
        assert Held(full, out, y);
        if y !in out {
          var i :| 0 <= i < |full| && full[i] == (y, true);
          assert next[i] == (y, true);
        }
      }
    }
    forall i | 0 <= i < |next| ensures OpenAt(next, out, seen + {x}, i) {
      if i < n { assert OpenAt(full, out, seen, i); }
    }
    forall i, j | 0 <= i < j < |next| ensures OpenOnce(next, i, j) {
      if j < n {
        assert OpenOnce(full, i, j);
      } else if i < n {
        assert OpenAt(full, out, seen, i);
      }
    }
  }

  lemma OpenRanks<T>(d: set<(T, T)>, rank: map<T, Rank>, exempt: set<T>,
                     agenda: Agenda<T>, x: T, kids: Agenda<T>)
    requires RanksRise(rank, exempt, agenda + [(x, false)])
    requires Kids(d, rank, exempt, x, kids) && (x !in exempt || agenda == [])
    ensures RanksRise(rank, exempt, agenda + [(x, true)] + kids)
  {
    var full, next := agenda + [(x, false)], agenda + [(x, true)] + kids;
    var n := |agenda|;
    assert forall i | 0 <= i < n :: next[i] == full[i];
    assert next[n].0 == full[n].0 == x;
    assert forall i | n < i < |next| :: next[i] == kids[i - n - 1];
    forall i, j | 0 <= i < j < |next| && next[i].1 ensures RisesTo(rank, exempt, next, i, j) {
      if i < n {
        assert RisesTo(rank, exempt, full, i, n) && (j < n ==> RisesTo(rank, exempt, full, i, j));
      }
    }
  }

  lemma OpenChildren<T>(d: set<(T, T)>, rank: map<T, Rank>, exempt: set<T>,
                        agenda: Agenda<T>, out: seq<T>, x: T, kids: Agenda<T>)
    requires ChildrenAbove(d, agenda + [(x, false)], out)
    requires Kids(d, rank, exempt, x, kids)
    ensures ChildrenAbove(d, agenda + [(x, true)] + kids, out)
  {
    var full, next := agenda + [(x, false)], agenda + [(x, true)] + kids;
    var n := |agenda|;
    assert forall i | 0 <= i < n :: next[i] == full[i];
    assert next[n].0 == full[n].0 == x;
    assert forall i | n < i < |next| :: next[i] == kids[i - n - 1];
    forall e, i | e in d && 0 <= i < |next| && next[i] == (e.0, true)
      ensures AboveAt(next, out, e.1, i)
    {
      if i < n {
        assert full[i] == (e.0, true) && AboveAt(full, out, e.1, i);
        if e.1 !in out {
          var j :| i < j < |full| && full[j].0 == e.1;
          assert next[j].0 == e.1;
        }
      } else {
        var k :| 0 <= k < |kids| && kids[k] == (e.1, false);
        assert next[n + 1 + k].0 == e.1;
      }
    }
  }

  /** A post entry surfaces: all children of its node are out, so the node may follow. */
  lemma Emit<T>(d: set<(T, T)>, rank: map<T, Rank>, exempt: set<T>,
                agenda: Agenda<T>, out: seq<T>, seen: set<T>, x: T)
    requires Invariant(d, rank, exempt, agenda + [(x, true)], out, seen)
    ensures Invariant(d, rank, exempt, agenda, out + [x], seen)
  {
    var full, out' := agenda + [(x, true)], out + [x];
    var n := |agenda|;
    assert full[n] == (x, true) && OpenAt(full, out, seen, n);
    assert forall i | 0 <= i < n :: full[i] == agenda[i];
    SeenPrefix(agenda, out, seen, x, true);
    RanksPrefix(rank, exempt, agenda, (x, true));
    forall i, j | 0 <= i < j < |out'| ensures Differ(out', i, j) {
      if j < |out| { assert Differ(out, i, j); }
    }
    forall e, p | e in d && 0 <= p < |out'| && out'[p] == e.0 ensures BeforeAt(out', e.1, p) {
      if p < |out| {
        assert BeforeAt(out, e.1, p) && out'[..p] == out[..p];
      } else {
        assert full[n] == (e.0, true) && AboveAt(full, out, e.1, n);
        assert out'[..p] == out;
      }
    }
    forall e, i | e in d && 0 <= i < |agenda| && agenda[i] == (e.0, true)
      ensures AboveAt(agenda, out', e.1, i)
    {
      assert full[i] == (e.0, true) && AboveAt(full, out, e.1, i);
      if e.1 !in out' {
        var j :| i < j < |full| && full[j].0 == e.1;
        assert agenda[j].0 == e.1;
      }
    }
  }
}

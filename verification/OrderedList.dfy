/** The value view of the topological order: the sequence of (level, index) keys along the
    list, its sortedness, and the level boundaries ("cuts") into it.  The predicates are
    local (neighbours only); the lemmas give their global meaning. */
module OrderedList {
  import opened PostorderDfs

  ghost function RemoveAt<T>(s: seq<T>, p: nat): (r: seq<T>)
    requires p < |s|
    ensures |r| == |s| - 1
    ensures forall i {:trigger r[i]} | 0 <= i < |r| :: r[i] == s[if i < p then i else i + 1]
  {
    seq(|s| - 1, i requires 0 <= i < |s| - 1 => s[if i < p then i else i + 1])
  }

  ghost function InsertAt<T>(s: seq<T>, p: nat, x: T): (r: seq<T>)
    requires p <= |s|
    ensures |r| == |s| + 1 && r[p] == x
    ensures forall i {:trigger r[i]} | 0 <= i < |r| && i != p :: r[i] == s[if i < p then i else i - 1]
  {
    seq(|s| + 1, i requires 0 <= i <= |s| => if i == p then x else s[if i < p then i else i - 1])
  }

  /** Position 0 is the sentinel; the next index to hand out is below all indices in use. */
  ghost predicate SortedKeys(keys: seq<Rank>, nextIndex: int) {
    && |keys| > 0 && keys[0].level == -1
    && (forall p | 0 < p < |keys| :: keys[p].level >= 0 && keys[p].index > nextIndex)
    && forall p | 0 < p < |keys| :: RisesAt(keys, p)
  }

  ghost predicate RisesAt(keys: seq<Rank>, p: int)
    requires 0 < p < |keys|
  {
    Lt(keys[p - 1], keys[p])
  }

  /** `cut[k]` is the last position whose level is below `k`. */
  ghost predicate CutsAt(keys: seq<Rank>, cut: seq<nat>) {
    && |cut| > 0 && |keys| > 0 && keys[|keys| - 1].level < |cut|
    && (forall k | 0 <= k < |cut| :: cut[k] < |keys|)
    && forall k | 0 <= k < |cut| :: CutAt(keys, cut, k)
  }

  ghost predicate CutAt(keys: seq<Rank>, cut: seq<nat>, k: int)
    requires 0 <= k < |cut| && cut[k] < |keys|
  {
    keys[cut[k]].level < k && (cut[k] + 1 < |keys| ==> keys[cut[k] + 1].level >= k)
  }

  ghost predicate BoundsAt<T>(chain: seq<T>, cut: seq<nat>, bounds: seq<T>) {
    |bounds| == |cut| && forall k | 0 <= k < |cut| :: cut[k] < |chain| && bounds[k] == chain[cut[k]]
  }

  ghost function CutsRemove(cut: seq<nat>, p: nat): seq<nat>
    requires p > 0
  {
    seq(|cut|, k requires 0 <= k < |cut| => if cut[k] >= p then cut[k] - 1 else cut[k])
  }

  ghost function CutsInsert(cut: seq<nat>, level: nat): seq<nat> {
    seq(|cut|, k requires 0 <= k < |cut| => if k > level then cut[k] + 1 else cut[k])
  }

  /** Sortedness of neighbours is sortedness throughout. */
  lemma {:induction false} KeysRise(keys: seq<Rank>, nextIndex: int, i: nat, j: nat)
    requires SortedKeys(keys, nextIndex) && i < j < |keys|
    ensures Lt(keys[i], keys[j])
    decreases j
  {
    if i + 1 < j {
      KeysRise(keys, nextIndex, i, j - 1);
      assert RisesAt(keys, j);
    }
  }

  /** The boundary of level `k` separates the positions below that level from the others. */
  lemma CutSplits(keys: seq<Rank>, nextIndex: int, cut: seq<nat>, k: nat, p: nat)
    requires SortedKeys(keys, nextIndex) && CutsAt(keys, cut) && k < |cut| && p < |keys|
    ensures p <= cut[k] <==> keys[p].level < k
  {
    assert CutAt(keys, cut, k);
    if p < cut[k] {
      KeysRise(keys, nextIndex, p, cut[k]);
    } else if cut[k] + 1 < p {
      KeysRise(keys, nextIndex, cut[k] + 1, p);
    }
  }

  lemma CutRises(keys: seq<Rank>, nextIndex: int, cut: seq<nat>, j: nat, k: nat)
    requires SortedKeys(keys, nextIndex) && CutsAt(keys, cut) && j <= k < |cut|
    ensures cut[j] <= cut[k]
  {
    assert CutAt(keys, cut, j);
    CutSplits(keys, nextIndex, cut, k, cut[j]);
  }

  lemma RemoveKeeps<T>(keys: seq<Rank>, nextIndex: int, cut: seq<nat>, p: nat, chain: seq<T>, bounds: seq<T>)
    requires SortedKeys(keys, nextIndex) && CutsAt(keys, cut) && 0 < p < |keys| == |chain| && |bounds| == |cut|
    requires forall k | 0 <= k < |cut| ::
               bounds[k] == chain[if k > keys[p].level && cut[k] == p then p - 1 else cut[k]]
    ensures SortedKeys(RemoveAt(keys, p), nextIndex)
    ensures CutsAt(RemoveAt(keys, p), CutsRemove(cut, p))
    ensures BoundsAt(RemoveAt(chain, p), CutsRemove(cut, p), bounds)
  {
    var keys', cut' := RemoveAt(keys, p), CutsRemove(cut, p);
    forall q | 0 < q < |keys'| ensures RisesAt(keys', q) {
      KeysRise(keys, nextIndex, if q - 1 < p then q - 1 else q, if q < p then q else q + 1);
    }
    assert RisesAt(keys, p);
    forall k | 0 <= k < |cut'|
      ensures CutAt(keys', cut', k) && bounds[k] == RemoveAt(chain, p)[cut'[k]]
    {
      assert CutAt(keys, cut, k) && (p + 1 < |keys| ==> RisesAt(keys, p + 1));
    }
  }

  /** A new key with the smallest index goes directly behind the boundary of its level. */
  lemma InsertKeeps<T>(keys: seq<Rank>, nextIndex: int, cut: seq<nat>, key: Rank, chain: seq<T>, bounds: seq<T>, x: T)
    requires SortedKeys(keys, nextIndex) && CutsAt(keys, cut) && |keys| == |chain| && |bounds| == |cut|
    requires 0 <= key.level < |cut| && key.index == nextIndex
    requires forall k | 0 <= k < |cut| ::
               bounds[k] == if k > key.level && cut[k] == cut[key.level] then x else chain[cut[k]]
    ensures SortedKeys(InsertAt(keys, cut[key.level] + 1, key), nextIndex - 1)
    ensures CutsAt(InsertAt(keys, cut[key.level] + 1, key), CutsInsert(cut, key.level))
    ensures BoundsAt(InsertAt(chain, cut[key.level] + 1, x), CutsInsert(cut, key.level), bounds)
  {
    var c := cut[key.level];
    forall k | 0 <= k < |cut|
      ensures CutAt(keys, cut, k)
      ensures if k <= key.level then cut[k] <= c else cut[k] >= c
    {
      if k <= key.level {
        CutRises(keys, nextIndex, cut, k, key.level);
      } else {
        CutRises(keys, nextIndex, cut, key.level, k);
      }
    }
    InsertSorted(keys, nextIndex, cut, key);
    InsertCuts(keys, nextIndex, cut, key);
  }

  lemma InsertSorted(keys: seq<Rank>, nextIndex: int, cut: seq<nat>, key: Rank)
    requires SortedKeys(keys, nextIndex) && CutsAt(keys, cut) && 0 <= key.level < |cut| && key.index == nextIndex
    ensures SortedKeys(InsertAt(keys, cut[key.level] + 1, key), nextIndex - 1)
  {
    var c := cut[key.level];
    var keys' := InsertAt(keys, c + 1, key);
    assert CutAt(keys, cut, key.level);
    forall q | 0 < q < |keys'| ensures RisesAt(keys', q) {
      if q != c + 1 && q != c + 2 {
        assert RisesAt(keys, if q <= c then q else q - 1);
      }
    }
  }

  lemma InsertCuts(keys: seq<Rank>, nextIndex: int, cut: seq<nat>, key: Rank)
    requires SortedKeys(keys, nextIndex) && CutsAt(keys, cut) && 0 <= key.level < |cut|
    requires forall k | 0 <= k < |cut| ::
               if k <= key.level then cut[k] <= cut[key.level] else cut[k] >= cut[key.level]
    ensures CutsAt(InsertAt(keys, cut[key.level] + 1, key), CutsInsert(cut, key.level))
  {
    var keys', cut' := InsertAt(keys, cut[key.level] + 1, key), CutsInsert(cut, key.level);
    forall k | 0 <= k < |cut| ensures CutAt(keys', cut', k) {
      assert CutAt(keys, cut, k) && CutAt(keys, cut, key.level);
    }
  }

  ghost function CutsGrow(cut: seq<nat>, size: nat, last: nat): seq<nat>
    requires |cut| <= size
  {
    seq(size, k requires 0 <= k < size => if k < |cut| then cut[k] else last)
  }

  lemma GrowKeeps<T>(keys: seq<Rank>, nextIndex: int, cut: seq<nat>, size: nat, chain: seq<T>, bounds: seq<T>, t: T)
    requires SortedKeys(keys, nextIndex) && CutsAt(keys, cut) && BoundsAt(chain, cut, bounds)
    requires |cut| <= size && |chain| == |keys| && t == chain[|chain| - 1]
    ensures CutsAt(keys, CutsGrow(cut, size, |keys| - 1))
    ensures BoundsAt(chain, CutsGrow(cut, size, |keys| - 1), bounds + seq(size - |bounds|, _ => t))
  {
    var cut' := CutsGrow(cut, size, |keys| - 1);
    forall k | 0 <= k < |cut'| ensures CutAt(keys, cut', k) {
      if k < |cut| {
        assert CutAt(keys, cut, k);
      }
    }
  }

  ghost function Elems<T>(s: seq<T>): set<T> {
    set x | x in s
  }

  lemma ElemsRemove<T>(s: seq<T>, p: nat)
    requires p < |s| && forall i | 0 <= i < |s| && i != p :: s[i] != s[p]
    ensures Elems(RemoveAt(s, p)) == Elems(s) - {s[p]}
  {
    var r := RemoveAt(s, p);
    forall i | 0 <= i < |s| && i != p ensures s[i] in r {
      assert r[if i < p then i else i - 1] == s[i];
    }
  }

  lemma ElemsInsert<T>(s: seq<T>, p: nat, x: T)
    requires p <= |s|
    ensures Elems(InsertAt(s, p, x)) == Elems(s) + {x}
  {
    var r := InsertAt(s, p, x);
    forall i | 0 <= i < |s| ensures s[i] in r {
      assert r[if i < p then i else i + 1] == s[i];
    }
  }
}

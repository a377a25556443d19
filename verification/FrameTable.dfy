/** Keeping only the largest frame ids of a table, as both capture tools do. */
module FrameTable {
  predicate IsMin(m: int, s: set<int>) { m in s && forall k :: k in s ==> m <= k }
  predicate IsMax(m: int, s: set<int>) { m in s && forall k :: k in s ==> k <= m }

  lemma Element<T>(s: set<T>) returns (x: T)
    requires s != {}
    ensures x in s
  {
    x :| x in s;
  }

  lemma NothingLeft<T>(a: set<T>, b: set<T>)
    requires a - b == {}
    ensures a <= b
  {
    assert forall x :: x in a && x !in b ==> x in a - b;
  }

  lemma {:induction false} MaxExists(s: set<int>) returns (m: int)
    requires s != {}
    ensures IsMax(m, s)
    decreases |s|
  {
    var x := Element(s);
    m := x;
    var rest := s - {x};
    if rest != {} {
      var r := MaxExists(rest);
      if r > m { m := r; }
    }
    forall k | k in s ensures k <= m { assert k == x || k in rest; }
  }

  lemma {:induction false} MinExists(s: set<int>) returns (m: int)
    requires s != {}
    ensures IsMin(m, s)
    decreases |s|
  {
    var x := Element(s);
    m := x;
    var rest := s - {x};
    if rest != {} {
      var r := MinExists(rest);
      if r < m { m := r; }
    }
    forall k | k in s ensures m <= k { assert k == x || k in rest; }
  }

  /** What is left of `ids` once all but the `n` largest are removed. */
  ghost predicate KeepsLargest(kept: set<int>, ids: set<int>, n: nat) {
    && kept <= ids && |kept| == (if |ids| < n then |ids| else n)
    && forall i, j :: i in kept && j in ids && j !in kept ==> j < i
  }

  lemma SubsetOfSameSize(a: set<int>, b: set<int>)
    requires a <= b && |a| >= |b|
    ensures a == b
  {
    assert b == a + (b - a);
    assert |b - a| == 0;
  }

  /** Those conditions leave one choice. */
  lemma KeptIsUnique(a: set<int>, b: set<int>, ids: set<int>, n: nat)
    requires KeepsLargest(a, ids, n) && KeepsLargest(b, ids, n)
    ensures a == b
  {
    if a - b == {} {
      NothingLeft(a, b);
      SubsetOfSameSize(a, b);
    } else {
      var i := Element(a - b);
      assert forall j :: j in b ==> i < j && j in a;
      SubsetOfSameSize(b, a);
    }
  }

  /** The largest id survives, so the newest frame is never the one evicted. */
  lemma LargestIsKept(kept: set<int>, ids: set<int>, n: nat, m: int)
    requires KeepsLargest(kept, ids, n) && n > 0 && IsMax(m, ids)
    ensures IsMax(m, kept)
  {
    assert |ids| > 0;
    var top := MaxExists(kept);
    assert top in ids && (m !in kept ==> m < top);
  }

  /** Removing the smallest of too many keeps the largest. */
  lemma SmallestRemoved(ids: set<int>, left: set<int>, m: int, n: nat)
    requires IsMin(m, left) && KeepsLargest(left, ids, n + 1) && |left| == n + 1
    ensures KeepsLargest(left - {m}, ids, n)
  {
    assert |left - {m}| == n && |ids| >= |left|;
  }

  ghost function Above(ids: set<int>, f: int): set<int> { set k | k in ids && k > f }

  lemma SubsetSize(a: set<int>, b: set<int>)
    requires a <= b
    ensures |a| <= |b|
  {
    assert b == a + (b - a);
  }

  /** An id is kept exactly when fewer than `n` ids are larger. */
  lemma KeptIff(kept: set<int>, ids: set<int>, n: nat, f: int)
    requires KeepsLargest(kept, ids, n) && f in ids
    ensures f in kept <==> |Above(ids, f)| < n
  {
    if f in kept {
      assert Above(ids, f) <= kept - {f};
      SubsetSize(Above(ids, f), kept - {f});
    } else {
      if |ids| < n { SubsetOfSameSize(kept, ids); }
      assert kept <= Above(ids, f);
      SubsetSize(kept, Above(ids, f));
    }
  }

  /** Keeping the largest as ids come one by one is keeping the largest of all of them. */
  lemma KeptGrows(kept: set<int>, ids: set<int>, n: nat, f: int, kept': set<int>)
    requires KeepsLargest(kept, ids, n) && KeepsLargest(kept', kept + {f}, n)
    ensures KeepsLargest(kept', ids + {f}, n)
  {
    if |ids| < n {
      SubsetOfSameSize(kept, ids);
    } else {
      SubsetSize(kept, kept + {f});
      SubsetSize(ids, ids + {f});
      forall i, j | i in kept' && j in ids + {f} && j !in kept' ensures j < i {
        if j !in kept + {f} && i !in kept {
          assert i == f && |kept + {f}| == n + 1;
          if kept - kept' == {} {
            NothingLeft(kept, kept');
            SubsetSize(kept + {f}, kept');
            assert false;
          }
          var x := Element(kept - kept');
          assert j < x && x < i;
        }
      }
    }
  }

  lemma {:induction false} KeptExists(ids: set<int>, n: nat) returns (kept: set<int>)
    ensures KeepsLargest(kept, ids, n)
    decreases |ids|
  {
    kept := ids;
    if |ids| > n {
      var m := MinExists(ids);
      kept := KeptExists(ids - {m}, n);
      assert |ids - {m}| == |ids| - 1;
      forall i, j | i in kept && j in ids && j !in kept ensures j < i { assert j == m || j in ids - {m}; }
    }
  }

  ghost function Kept(ids: set<int>, n: nat): (kept: set<int>)
    ensures KeepsLargest(kept, ids, n)
  {
    assert exists kept :: KeepsLargest(kept, ids, n) by { var kept := KeptExists(ids, n); }
    var kept :| KeepsLargest(kept, ids, n);
    kept
  }

  /** `min(ids)` */
  method Smallest(ids: set<int>) returns (m: int)
    requires ids != {}
    ensures IsMin(m, ids)
  {
    ghost var least := MinExists(ids);
    m :| m in ids && IsMin(m, ids);
  }

  /** `max(ids)` */
  method Largest(ids: set<int>) returns (m: int)
    requires ids != {}
    ensures IsMax(m, ids)
  {
    ghost var top := MaxExists(ids);
    m :| m in ids && IsMax(m, ids);
  }

  ghost predicate Within<V>(m: map<int, V>, whole: map<int, V>) {
    m.Keys <= whole.Keys && forall k :: k in m ==> m[k] == whole[k]
  }

  lemma WithinMinus<V>(m: map<int, V>, whole: map<int, V>, x: int, left: map<int, V>)
    requires Within(m, whole) && x in m && left == m - {x}
    ensures Within(left, whole) && left.Keys == m.Keys - {x} && |left| == |m| - 1
  {
    assert |m.Keys - {x}| == |m.Keys| - 1;
  }
}

/**
 The candidate space of the superkey search: `itertools.combinations` over
 positions, and the chain of all sizes from 1 to a bound. Candidates are index
 tuples here; `SuperKeys.Pick` turns one into column names.
 */
module Combinations {

  /** `c` is strictly increasing and every entry lies in `[lo, n)`. */
  predicate IndexTuple(c: seq<nat>, lo: nat, n: nat)
  {
    && (forall t | 0 <= t < |c| :: lo <= c[t] < n)
    && (forall s, t | 0 <= s < t < |c| :: c[s] < c[t])
  }

  /** Strict lexicographic order on index tuples of equal length. */
  predicate LexLess(a: seq<nat>, b: seq<nat>)
  {
    |a| > 0 && |b| > 0 && (a[0] < b[0] || (a[0] == b[0] && LexLess(a[1..], b[1..])))
  }

  lemma {:induction false} LexLessIrreflexive(a: seq<nat>)
    ensures !LexLess(a, a)
  {
    if |a| > 0 {
      LexLessIrreflexive(a[1..]);
    }
  }

  /** `[(x,) + c for c in cs]`. */
  function Prepend(x: nat, cs: seq<seq<nat>>): (r: seq<seq<nat>>)
  {
    seq(|cs|, i requires 0 <= i < |cs| => [x] + cs[i])
  }

  /** `combinations(range(lo, n), k)`, in the order itertools produces them. */
  function Combos(lo: nat, n: nat, k: nat): seq<seq<nat>>
    decreases n - lo
  {
    if k == 0 then [[]]
    else if lo >= n then []
    else Prepend(lo, Combos(lo + 1, n, k - 1)) + Combos(lo + 1, n, k)
  }

  /** Every generated tuple has size `k` and is strictly increasing within `[lo, n)`. */
  lemma {:induction false} CombosShape(lo: nat, n: nat, k: nat)
    decreases n - lo
    ensures forall i | 0 <= i < |Combos(lo, n, k)| :: |Combos(lo, n, k)[i]| == k && IndexTuple(Combos(lo, n, k)[i], lo, n)
  {
    if k > 0 && lo < n {
      var first := Combos(lo + 1, n, k - 1);
      var rest := Combos(lo + 1, n, k);
      CombosShape(lo + 1, n, k - 1);
      CombosShape(lo + 1, n, k);
      var a := Prepend(lo, first);
      var r := a + rest;
      assert Combos(lo, n, k) == r;
      forall i | 0 <= i < |r| ensures |r[i]| == k && IndexTuple(r[i], lo, n) {
        if i < |a| {
          assert r[i] == [lo] + first[i];
          assert IndexTuple(first[i], lo + 1, n);
        } else {
          assert r[i] == rest[i - |a|];
          assert IndexTuple(rest[i - |a|], lo + 1, n);
        }
      }
    }
  }

  lemma PrependLexLess(x: nat, a: seq<nat>, b: seq<nat>)
    ensures LexLess([x] + a, [x] + b) == LexLess(a, b)
  {
    assert ([x] + a)[1..] == a && ([x] + b)[1..] == b;
  }

  /** The tuples of one size come in strictly increasing lexicographic order. */
  lemma {:induction false} CombosSorted(lo: nat, n: nat, k: nat)
    decreases n - lo
    ensures forall i, j | 0 <= i < j < |Combos(lo, n, k)| :: LexLess(Combos(lo, n, k)[i], Combos(lo, n, k)[j])
  {
    if k > 0 && lo < n {
      var first := Combos(lo + 1, n, k - 1);
      var rest := Combos(lo + 1, n, k);
      CombosSorted(lo + 1, n, k - 1);
      CombosSorted(lo + 1, n, k);
      CombosShape(lo + 1, n, k);
      var a := Prepend(lo, first);
      var r := a + rest;
      assert Combos(lo, n, k) == r;
      forall i, j | 0 <= i < j < |r| ensures LexLess(r[i], r[j]) {
        if j < |a| {
          assert r[i] == [lo] + first[i] && r[j] == [lo] + first[j];
          PrependLexLess(lo, first[i], first[j]);
        } else if i < |a| {
          assert r[i] == [lo] + first[i];
          assert r[j] == rest[j - |a|];
          assert |rest[j - |a|]| == k && IndexTuple(rest[j - |a|], lo + 1, n);
          assert r[i][0] < r[j][0];
        } else {
          assert r[i] == rest[i - |a|] && r[j] == rest[j - |a|];
        }
      }
    }
  }

  /** Every strictly increasing tuple of size `k` from `[lo, n)` is generated. */
  lemma {:induction false} CombosComplete(lo: nat, n: nat, k: nat, c: seq<nat>)
    requires |c| == k && IndexTuple(c, lo, n)
    decreases n - lo
    ensures c in Combos(lo, n, k)
  {
    if k > 0 {
      assert lo <= c[0] < n;
      var first := Combos(lo + 1, n, k - 1);
      if c[0] == lo {
        assert IndexTuple(c[1..], lo + 1, n) by {
          forall t | 0 <= t < |c| - 1 ensures lo + 1 <= c[1..][t] < n {
            assert c[0] < c[t + 1];
          }
        }
        CombosComplete(lo + 1, n, k - 1, c[1..]);
        var i :| 0 <= i < |first| && first[i] == c[1..];
        assert Prepend(lo, first)[i] == c;
        assert Combos(lo, n, k) == Prepend(lo, first) + Combos(lo + 1, n, k);
        assert Combos(lo, n, k)[i] == c;
      } else {
        assert IndexTuple(c, lo + 1, n) by {
          forall t | 0 <= t < |c| ensures lo + 1 <= c[t] {
            assert c[0] <= c[t];
          }
        }
        CombosComplete(lo + 1, n, k, c);
        assert Combos(lo, n, k) == Prepend(lo, first) + Combos(lo + 1, n, k);
      }
    }
  }

  /** `chain.from_iterable(combinations(range(n), k) for k in range(1, bound + 1))`. */
  function Candidates(n: nat, bound: int): seq<seq<nat>>
    decreases bound
  {
    if bound < 1 then [] else Candidates(n, bound - 1) + Combos(0, n, bound)
  }

  /** Every candidate is a strictly increasing tuple over `[0, n)` of size 1 to `bound`. */
  lemma {:induction false} CandidatesShape(n: nat, bound: int)
    decreases bound
    ensures forall i | 0 <= i < |Candidates(n, bound)| :: 1 <= |Candidates(n, bound)[i]| <= bound && IndexTuple(Candidates(n, bound)[i], 0, n)
  {
    if bound >= 1 {
      var a := Candidates(n, bound - 1);
      var b := Combos(0, n, bound);
      CandidatesShape(n, bound - 1);
      CombosShape(0, n, bound);
      var r := a + b;
      assert Candidates(n, bound) == r;
      forall i | 0 <= i < |r| ensures 1 <= |r[i]| <= bound && IndexTuple(r[i], 0, n) {
        if i < |a| {
          assert r[i] == a[i];
        } else {
          assert r[i] == b[i - |a|];
        }
      }
    }
  }

  /** Candidate `a` is generated before `b`: smaller size first, then lexicographic. */
  predicate GeneratedBefore(a: seq<nat>, b: seq<nat>)
  {
    |a| < |b| || (|a| == |b| && LexLess(a, b))
  }

  /** Sizes never decrease, and within one size the order is lexicographic. */
  lemma {:induction false} CandidatesOrdered(n: nat, bound: int)
    decreases bound
    ensures forall i, j | 0 <= i < j < |Candidates(n, bound)| :: GeneratedBefore(Candidates(n, bound)[i], Candidates(n, bound)[j])
  {
    if bound >= 1 {
      var a := Candidates(n, bound - 1);
      var b := Combos(0, n, bound);
      CandidatesOrdered(n, bound - 1);
      CandidatesShape(n, bound - 1);
      CombosSorted(0, n, bound);
      CombosShape(0, n, bound);
      var r := a + b;
      assert Candidates(n, bound) == r;
      forall i, j | 0 <= i < j < |r| ensures GeneratedBefore(r[i], r[j]) {
        if j < |a| {
          assert r[i] == a[i] && r[j] == a[j];
        } else if i < |a| {
          assert r[i] == a[i] && |a[i]| <= bound - 1;
          assert r[j] == b[j - |a|] && |b[j - |a|]| == bound;
        } else {
          assert r[i] == b[i - |a|] && r[j] == b[j - |a|];
        }
      }
    }
  }

  /** Every strictly increasing tuple of size 1 to `bound` over `[0, n)` is a candidate. */
  lemma {:induction false} CandidatesComplete(n: nat, bound: int, c: seq<nat>)
    requires 1 <= |c| <= bound && IndexTuple(c, 0, n)
    decreases bound
    ensures c in Candidates(n, bound)
  {
    assert Candidates(n, bound) == Candidates(n, bound - 1) + Combos(0, n, bound);
    if |c| == bound {
      CombosComplete(0, n, bound, c);
    } else {
      CandidatesComplete(n, bound - 1, c);
    }
  }

  /** No candidate is generated twice. */
  lemma CandidatesDistinct(n: nat, bound: int)
    ensures forall i, j | 0 <= i < j < |Candidates(n, bound)| :: Candidates(n, bound)[i] != Candidates(n, bound)[j]
  {
    var r := Candidates(n, bound);
    CandidatesOrdered(n, bound);
    forall i, j | 0 <= i < j < |r| ensures r[i] != r[j] {
      LexLessIrreflexive(r[i]);
    }
  }
}

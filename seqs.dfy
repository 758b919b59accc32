/**
 Sequence utilities shared by both tools: Python's optional values, the list
 comprehension `[x for x in s if p(x)]`, first-occurrence de-duplication (the
 key order of a dict built by successive insertion) and `islice(s, None, n)`.
 */
module Seqs {

  /** `None` or a value, as Python's optional arguments. */
  datatype Option<T> = None | Some(value: T)

  /** No element of `s` occurs twice. */
  predicate Distinct<T(==)>(s: seq<T>)
  {
    forall i, j | 0 <= i < j < |s| :: s[i] != s[j]
  }

  /** `a` can be obtained from `b` by deleting elements (greedy matching decides it). */
  predicate IsSubsequence<T(==)>(a: seq<T>, b: seq<T>)
    decreases |b|
  {
    if |a| == 0 then true
    else if |b| == 0 then false
    else if a[0] == b[0] then IsSubsequence(a[1..], b[1..])
    else IsSubsequence(a, b[1..])
  }

  /** `[x for x in s if p(x)]`. */
  function KeepIf<T(==,!new)>(s: seq<T>, p: T -> bool): (r: seq<T>)
    ensures |r| <= |s|
    ensures forall x :: x in r <==> x in s && p(x)
  {
    if |s| == 0 then []
    else if p(s[0]) then [s[0]] + KeepIf(s[1..], p)
    else KeepIf(s[1..], p)
  }

  /** The filter keeps the order of what it keeps, and every kept element as often as it occurs. */
  lemma {:induction false} KeepIfSubsequence<T(!new)>(s: seq<T>, p: T -> bool)
    ensures IsSubsequence(KeepIf(s, p), s)
    ensures forall x :: multiset(KeepIf(s, p))[x] == if p(x) then multiset(s)[x] else 0
  {
    if |s| > 0 {
      KeepIfSubsequence(s[1..], p);
      assert s == [s[0]] + s[1..];
      var r := KeepIf(s, p);
      if p(s[0]) {
        assert r[0] == s[0] && r[1..] == KeepIf(s[1..], p);
      }
    }
  }

  /** Filtering a sequence without repetitions gives one without repetitions. */
  lemma {:induction false} KeepIfDistinct<T(!new)>(s: seq<T>, p: T -> bool)
    requires Distinct(s)
    ensures Distinct(KeepIf(s, p))
  {
    if |s| > 0 {
      var t := s[1..];
      KeepIfDistinct(t, p);
      if p(s[0]) {
        var r := [s[0]] + KeepIf(t, p);
        assert s[0] !in t;
        forall i, j | 0 <= i < j < |r| ensures r[i] != r[j] {
          if i == 0 {
            assert r[j] in KeepIf(t, p);
          } else {
            assert r[i] == KeepIf(t, p)[i - 1] && r[j] == KeepIf(t, p)[j - 1];
          }
        }
      }
    }
  }

  /** Filtering distributes over concatenation: the kept elements stay in their order. */
  lemma {:induction false} KeepIfConcat<T(!new)>(a: seq<T>, b: seq<T>, p: T -> bool)
    ensures KeepIf(a + b, p) == KeepIf(a, p) + KeepIf(b, p)
  {
    if |a| == 0 {
      assert a + b == b;
    } else {
      assert (a + b)[0] == a[0];
      assert (a + b)[1..] == a[1..] + b;
      KeepIfConcat(a[1..], b, p);
    }
  }

  /** A filter that rejects nothing returns its input. */
  lemma {:induction false} KeepIfAll<T(!new)>(s: seq<T>, p: T -> bool)
    requires forall i | 0 <= i < |s| :: p(s[i])
    ensures KeepIf(s, p) == s
  {
    if |s| > 0 {
      KeepIfAll(s[1..], p);
    }
  }

  /** Two filters applied one after the other give the same result in either order. */
  lemma {:induction false} KeepIfCommute<T(!new)>(s: seq<T>, p: T -> bool, q: T -> bool)
    ensures KeepIf(KeepIf(s, p), q) == KeepIf(KeepIf(s, q), p)
  {
    if |s| > 0 {
      var t := s[1..];
      KeepIfCommute(t, p, q);
      if p(s[0]) { assert KeepIf(s, p) == [s[0]] + KeepIf(t, p); }
      if q(s[0]) { assert KeepIf(s, q) == [s[0]] + KeepIf(t, q); }
    }
  }

  /**
   If every pair of elements of `s`, taken in order, is related by `R`, then so is
   every ordered pair of elements of any filter of `s`.
   */
  lemma {:induction false} KeepIfKeepsOrder<T(!new)>(s: seq<T>, p: T -> bool, R: (T, T) -> bool)
    requires forall i, j | 0 <= i < j < |s| :: R(s[i], s[j])
    ensures forall i, j | 0 <= i < j < |KeepIf(s, p)| :: R(KeepIf(s, p)[i], KeepIf(s, p)[j])
  {
    if |s| > 0 {
      var t := s[1..];
      KeepIfKeepsOrder(t, p, R);
      var rt := KeepIf(t, p);
      if p(s[0]) {
        var r := [s[0]] + rt;
        assert KeepIf(s, p) == r;
        forall i, j | 0 <= i < j < |r| ensures R(r[i], r[j]) {
          if i == 0 {
            assert r[j] == rt[j - 1] && rt[j - 1] in rt;
            var m :| 0 <= m < |t| && t[m] == r[j];
            assert R(s[0], s[m + 1]);
          } else {
            assert R(rt[i - 1], rt[j - 1]);
          }
        }
      } else {
        assert KeepIf(s, p) == rt;
      }
    }
  }

  /** Elements of `s` in order of first occurrence, each once. */
  function Dedup<T(==,!new)>(s: seq<T>): (r: seq<T>)
    ensures Distinct(r)
    ensures forall x :: x in r <==> x in s
  {
    if |s| == 0 then []
    else
      var d := Dedup(s[..|s| - 1]);
      if s[|s| - 1] in d then d else d + [s[|s| - 1]]
  }

  /** One step of `Dedup`: a later element is appended only if it has not been seen. */
  lemma DedupSnoc<T(!new)>(s: seq<T>, x: T)
    ensures Dedup(s + [x]) == if x in s then Dedup(s) else Dedup(s) + [x]
  {
    assert (s + [x])[..|s|] == s;
  }

  /** A sequence without repetitions is its own de-duplication. */
  lemma {:induction false} DedupOfDistinct<T(!new)>(s: seq<T>)
    requires Distinct(s)
    ensures Dedup(s) == s
  {
    if |s| > 0 {
      var p := s[..|s| - 1];
      DedupOfDistinct(p);
      DedupSnoc(p, s[|s| - 1]);
      assert s == p + [s[|s| - 1]];
    }
  }

  /** Appending only already-seen elements does not change the de-duplication. */
  lemma {:induction false} DedupAbsorb<T(!new)>(s: seq<T>, t: seq<T>)
    requires forall i | 0 <= i < |t| :: t[i] in s
    ensures Dedup(s + t) == Dedup(s)
  {
    if |t| > 0 {
      var u := t[..|t| - 1];
      assert forall i | 0 <= i < |u| :: u[i] == t[i];
      DedupAbsorb(s, u);
      assert s + t == (s + u) + [t[|t| - 1]];
      assert t[|t| - 1] in s + u;
      DedupSnoc(s + u, t[|t| - 1]);
    } else {
      assert s + t == s;
    }
  }

  /** `list(islice(s, None, n))`: the first `n` elements, or all of them when there are fewer. */
  function TakeAtMost<T>(s: seq<T>, n: nat): (r: seq<T>)
    ensures |r| == if n < |s| then n else |s|
    ensures r == s[..|r|]
  {
    if n < |s| then s[..n] else s
  }
}

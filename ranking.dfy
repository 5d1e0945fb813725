/** The ranking half of `find_nearest_words`: one score per vocabulary row, the words zipped with
    their scores in row order, a stable sort on the score, the exclusion filter and the `[0:n]` slice. */
module Ranking {
  import opened Vectors
  import opened Sequences

  /** A (word, score) tuple of the result list. */
  type Pair = (string, real)

  /** The distance is floating-point numerics and stays abstract: any function of (target, row). */
  type Distance = (Vector, Vector) -> real

  // ---------------------------------------------------------------------------------------------
  // Scoring and zipping

  /** The batch distance: the target scored against each row, one score per row, in row order. */
  function Scores(target: Vector, rows: seq<Vector>, dist: Distance): (s: seq<real>)
    ensures |s| == |rows|
    ensures forall i :: 0 <= i < |rows| ==> s[i] == dist(target, rows[i])
  {
    if rows == [] then [] else [dist(target, rows[0])] + Scores(target, rows[1..], dist)
  }

  /** Python's `zip(keys, scores)` on two lists of one length. */
  function Zip(keys: seq<string>, scores: seq<real>): (z: seq<Pair>)
    requires |keys| == |scores|
    ensures |z| == |keys|
    ensures forall i :: 0 <= i < |z| ==> z[i] == (keys[i], scores[i])
  {
    if keys == [] then [] else [(keys[0], scores[0])] + Zip(keys[1..], scores[1..])
  }

  /** The scored list: the i-th key paired with the score of the i-th row. */
  function Scored(keys: seq<string>, rows: seq<Vector>, target: Vector, dist: Distance): (z: seq<Pair>)
    requires |keys| == |rows|
  {
    Zip(keys, Scores(target, rows, dist))
  }

  // ---------------------------------------------------------------------------------------------
  // Specification predicates

  predicate SortedByScore(s: seq<Pair>)
  {
    forall i, j :: 0 <= i < j < |s| ==> s[i].1 <= s[j].1
  }

  /** The pairs of `s` whose score is `x`, in their order in `s`. */
  function WithScore(s: seq<Pair>, x: real): (r: seq<Pair>)
  {
    if s == [] then [] else (if s[0].1 == x then [s[0]] else []) + WithScore(s[1..], x)
  }

  // ---------------------------------------------------------------------------------------------
  // Stable sort by score (Python's `sorted(..., key=lambda x: x[1])`)

  /** Puts `p` in front of the first pair scoring at least as much, so that it precedes its ties. */
  function Insert(p: Pair, s: seq<Pair>): (r: seq<Pair>)
    ensures |r| == |s| + 1
  {
    if s == [] || p.1 <= s[0].1 then [p] + s else [s[0]] + Insert(p, s[1..])
  }

  function SortByScore(ps: seq<Pair>): (r: seq<Pair>)
    ensures |r| == |ps|
  {
    if ps == [] then [] else Insert(ps[0], SortByScore(ps[1..]))
  }

  lemma {:induction false} InsertPermutes(p: Pair, s: seq<Pair>)
    ensures multiset(Insert(p, s)) == multiset(s) + multiset{p}
  {
    if s != [] && s[0].1 < p.1 {
      InsertPermutes(p, s[1..]);
      assert s == [s[0]] + s[1..];
    }
  }

  lemma {:induction false} InsertSorted(p: Pair, s: seq<Pair>)
    requires SortedByScore(s)
    ensures SortedByScore(Insert(p, s))
  {
    if s != [] && s[0].1 < p.1 {
      InsertSorted(p, s[1..]);
      InsertPermutes(p, s[1..]);
      var t := Insert(p, s[1..]);
      forall q | q in t ensures s[0].1 <= q.1 {
        assert q in multiset(t);
        assert q == p || q in multiset(s[1..]);
      }
      assert forall j :: 0 < j < |[s[0]] + t| ==> ([s[0]] + t)[j] == t[j - 1];
    }
  }

  lemma {:induction false} InsertWithScore(p: Pair, s: seq<Pair>, x: real)
    ensures WithScore(Insert(p, s), x) == if p.1 == x then [p] + WithScore(s, x) else WithScore(s, x)
  {
    if s == [] || p.1 <= s[0].1 {
      assert ([p] + s)[1..] == s;
    } else {
      InsertWithScore(p, s[1..], x);
      assert ([s[0]] + Insert(p, s[1..]))[1..] == Insert(p, s[1..]);
    }
  }

  /** The sort keeps exactly the pairs it is given. */
  lemma {:induction false} SortPermutes(ps: seq<Pair>)
    ensures multiset(SortByScore(ps)) == multiset(ps)
  {
    if ps != [] {
      SortPermutes(ps[1..]);
      InsertPermutes(ps[0], SortByScore(ps[1..]));
      assert ps == [ps[0]] + ps[1..];
    }
  }

  /** The sorted list is non-decreasing in score. */
  lemma {:induction false} SortIsSorted(ps: seq<Pair>)
    ensures SortedByScore(SortByScore(ps))
  {
    if ps != [] {
      SortIsSorted(ps[1..]);
      InsertSorted(ps[0], SortByScore(ps[1..]));
    }
  }

  /** Stability: the pairs of any one score come out in the order they went in. */
  lemma {:induction false} SortIsStable(ps: seq<Pair>, x: real)
    ensures WithScore(SortByScore(ps), x) == WithScore(ps, x)
  {
    if ps != [] {
      SortIsStable(ps[1..], x);
      InsertWithScore(ps[0], SortByScore(ps[1..]), x);
    }
  }

  // ---------------------------------------------------------------------------------------------
  // Exclusion filter (`[x for x in pairs if x[0] not in exclusions]`)

  function Keep(s: seq<Pair>, ex: set<string>): (r: seq<Pair>)
    ensures |r| <= |s|
  {
    if s == [] then [] else (if s[0].0 in ex then [] else [s[0]]) + Keep(s[1..], ex)
  }

  /** A pair survives the filter exactly when it was there and its word is not excluded. */
  lemma {:induction false} KeepMembers(s: seq<Pair>, ex: set<string>)
    ensures forall p :: p in Keep(s, ex) <==> p in s && p.0 !in ex
  {
    if s != [] {
      KeepMembers(s[1..], ex);
      assert s == [s[0]] + s[1..];
    }
  }

  /** Selecting one score from a prefix gives a prefix of the selection. */
  lemma {:induction false} WithScorePrefix(s: seq<Pair>, k: nat, x: real)
    requires k <= |s|
    ensures WithScore(s[..k], x) <= WithScore(s, x)
  {
    if k > 0 {
      WithScorePrefix(s[1..], k - 1, x);
      assert s[..k][1..] == s[1..][..k - 1];
    }
  }

  /** One step of the filter over a zip: the first key's pair, then the rest. */
  lemma KeepZipCons(keys: seq<string>, scores: seq<real>, ex: set<string>)
    requires |keys| == |scores| && keys != []
    ensures Keep(Zip(keys, scores), ex)
         == (if keys[0] in ex then [] else [(keys[0], scores[0])]) + Keep(Zip(keys[1..], scores[1..]), ex)
  {
    var z := Zip(keys, scores);
    assert z[0] == (keys[0], scores[0]);
    assert z[1..] == Zip(keys[1..], scores[1..]);
  }

  /** Over distinct keys, the filter keeps one pair per key that is not excluded. */
  lemma {:induction false} KeepZipLength(keys: seq<string>, scores: seq<real>, ex: set<string>)
    requires |keys| == |scores| && DistinctKeys(keys)
    ensures |Keep(Zip(keys, scores), ex)| == |KeySet(keys) - ex|
  {
    if keys != [] {
      var rest := keys[1..];
      DistinctTail(keys);
      KeepZipLength(rest, scores[1..], ex);
      KeepZipCons(keys, scores, ex);
      KeySetCons(keys);
      if keys[0] in ex {
        assert KeySet(keys) - ex == KeySet(rest) - ex;
      } else {
        assert KeySet(keys) - ex == {keys[0]} + (KeySet(rest) - ex);
      }
    }
  }

  /** Filtering commutes with inserting into a sorted list. */
  lemma {:induction false} KeepInsert(p: Pair, s: seq<Pair>, ex: set<string>)
    requires SortedByScore(s)
    ensures Keep(Insert(p, s), ex) == if p.0 in ex then Keep(s, ex) else Insert(p, Keep(s, ex))
  {
    var t := Keep(s, ex);
    if s == [] || p.1 <= s[0].1 {
      assert Insert(p, s) == [p] + s;
      assert ([p] + s)[1..] == s;
      assert Keep([p] + s, ex) == (if p.0 in ex then [] else [p]) + t;
      if t != [] {
        KeepMembers(s, ex);
        assert t[0] in t;
        var k :| 0 <= k < |s| && s[k] == t[0];
        assert s[0].1 <= s[k].1;
      }
    } else {
      var rest := s[1..];
      assert SortedByScore(rest) by {
        forall i, j | 0 <= i < j < |rest| ensures rest[i].1 <= rest[j].1 {
          assert rest[i] == s[i + 1] && rest[j] == s[j + 1];
        }
      }
      KeepInsert(p, rest, ex);
      var h := if s[0].0 in ex then [] else [s[0]];
      assert Insert(p, s) == [s[0]] + Insert(p, rest);
      assert ([s[0]] + Insert(p, rest))[1..] == Insert(p, rest);
      assert Keep(Insert(p, s), ex) == h + Keep(Insert(p, rest), ex);
      assert t == h + Keep(rest, ex);
      if p.0 !in ex && h != [] {
        assert t[0] == s[0];
        assert t[1..] == Keep(rest, ex);
        assert Insert(p, t) == [s[0]] + Insert(p, Keep(rest, ex));
      } else if p.0 !in ex {
        assert t == Keep(rest, ex);
      }
    }
  }

  /** Sorting and filtering commute: the filter of the sorted list is the sorted filter. */
  lemma {:induction false} KeepSort(ps: seq<Pair>, ex: set<string>)
    ensures Keep(SortByScore(ps), ex) == SortByScore(Keep(ps, ex))
  {
    if ps != [] {
      var rest := ps[1..];
      KeepSort(rest, ex);
      SortIsSorted(rest);
      KeepInsert(ps[0], SortByScore(rest), ex);
      var k := Keep(ps, ex);
      if ps[0].0 in ex {
        assert k == Keep(rest, ex);
      } else {
        assert k == [ps[0]] + Keep(rest, ex);
        assert k[0] == ps[0] && k[1..] == Keep(rest, ex);
      }
    }
  }

  // ---------------------------------------------------------------------------------------------
  // The slice and the whole ranking pipeline

  /** Python's slice `s[0:n]`: the first `n` pairs when `n >= 0`, all but the last `-n` when `n < 0`. */
  function TakeFirst(s: seq<Pair>, n: int): (r: seq<Pair>)
    ensures r <= s
    ensures |r| == if n >= 0 then Min(n, |s|) else Max(0, |s| + n)
  {
    if n >= 0 then s[..Min(n, |s|)] else s[..Max(0, |s| + n)]
  }

  /** Lines 160-172 of `find_nearest_words`: score, zip, stable sort, filter, slice. */
  function Rank(keys: seq<string>, rows: seq<Vector>, target: Vector, ex: set<string>, n: int,
                dist: Distance): (r: seq<Pair>)
    requires |keys| == |rows|
    ensures |r| <= |keys|
  {
    TakeFirst(Keep(SortByScore(Scored(keys, rows, target, dist)), ex), n)
  }

  /** The keys that are not excluded, in vocabulary order. */
  function FilterKeys(keys: seq<string>, ex: set<string>): (r: seq<string>)
    ensures forall w :: w in r <==> w in keys && w !in ex
  {
    if keys == [] then [] else (if keys[0] in ex then [] else [keys[0]]) + FilterKeys(keys[1..], ex)
  }

  /** The rows of the keys that are not excluded, in vocabulary order. */
  function FilterRows(keys: seq<string>, rows: seq<Vector>, ex: set<string>): (r: seq<Vector>)
    requires |keys| == |rows|
    ensures |r| == |FilterKeys(keys, ex)|
  {
    if keys == [] then [] else (if keys[0] in ex then [] else [rows[0]]) + FilterRows(keys[1..], rows[1..], ex)
  }

  /** One step of scoring: the first key with the score of the first row, then the rest. */
  lemma ScoredCons(keys: seq<string>, rows: seq<Vector>, target: Vector, dist: Distance)
    requires |keys| == |rows| && keys != []
    ensures Scored(keys, rows, target, dist)
         == [(keys[0], dist(target, rows[0]))] + Scored(keys[1..], rows[1..], target, dist)
  {
    var s := Scores(target, rows, dist);
    assert s[1..] == Scores(target, rows[1..], dist);
    var z := Zip(keys, s);
    assert z[1..] == Zip(keys[1..], s[1..]);
  }

  /** Filtering the scored list is scoring only the words that are not excluded. */
  lemma {:induction false} KeepScored(keys: seq<string>, rows: seq<Vector>, target: Vector,
                                      ex: set<string>, dist: Distance)
    requires |keys| == |rows|
    ensures Keep(Scored(keys, rows, target, dist), ex)
         == Scored(FilterKeys(keys, ex), FilterRows(keys, rows, ex), target, dist)
  {
    if keys != [] {
      KeepScored(keys[1..], rows[1..], target, ex, dist);
      ScoredCons(keys, rows, target, dist);
      var h := (keys[0], dist(target, rows[0]));
      var rest := Scored(keys[1..], rows[1..], target, dist);
      assert ([h] + rest)[1..] == rest;
      var fk, fr := FilterKeys(keys, ex), FilterRows(keys, rows, ex);
      if keys[0] !in ex {
        assert fk == [keys[0]] + FilterKeys(keys[1..], ex);
        assert fr == [rows[0]] + FilterRows(keys[1..], rows[1..], ex);
        assert fk[1..] == FilterKeys(keys[1..], ex) && fr[1..] == FilterRows(keys[1..], rows[1..], ex);
        ScoredCons(fk, fr, target, dist);
      } else {
        assert fk == FilterKeys(keys[1..], ex);
        assert fr == FilterRows(keys[1..], rows[1..], ex);
      }
    }
  }

  /** Excluding words before they are scored gives the same ranking as excluding them after the
      sort: scoring, sorting and slicing only the rows of the words that are not excluded. */
  lemma RankExcludeFirst(keys: seq<string>, rows: seq<Vector>, target: Vector, ex: set<string>,
                         n: int, dist: Distance)
    requires |keys| == |rows|
    ensures Rank(keys, rows, target, ex, n, dist)
         == TakeFirst(SortByScore(Scored(FilterKeys(keys, ex), FilterRows(keys, rows, ex), target, dist)), n)
  {
    KeepSort(Scored(keys, rows, target, dist), ex);
    KeepScored(keys, rows, target, ex, dist);
  }

  /** The result is non-decreasing in score. */
  lemma RankSorted(keys: seq<string>, rows: seq<Vector>, target: Vector, ex: set<string>, n: int,
                   dist: Distance)
    requires |keys| == |rows|
    ensures SortedByScore(Rank(keys, rows, target, ex, n, dist))
  {
    var z := Scored(keys, rows, target, dist);
    KeepSort(z, ex);
    SortIsSorted(Keep(z, ex));
  }

  /** Every returned pair is a vocabulary word that is not excluded, with the score of its own row. */
  lemma RankMembers(keys: seq<string>, rows: seq<Vector>, target: Vector, ex: set<string>, n: int,
                    dist: Distance)
    requires |keys| == |rows|
    ensures forall p :: p in Rank(keys, rows, target, ex, n, dist) ==>
              p.0 !in ex && exists i :: 0 <= i < |keys| && p == (keys[i], dist(target, rows[i]))
  {
    var z := Scored(keys, rows, target, dist);
    var ks := Keep(SortByScore(z), ex);
    KeepMembers(SortByScore(z), ex);
    SortPermutes(z);
    forall p | p in Rank(keys, rows, target, ex, n, dist)
      ensures p.0 !in ex && exists i :: 0 <= i < |keys| && p == (keys[i], dist(target, rows[i]))
    {
      assert p in ks;
      assert p in multiset(SortByScore(z));
      assert p in z;
      var i :| 0 <= i < |z| && z[i] == p;
      assert p == (keys[i], dist(target, rows[i]));
    }
  }

  /** With distinct keys and `n >= 0`, the result has min(n, number of non-excluded words) pairs;
      a negative `n` drops that many from the end, as Python's slice does. */
  lemma RankLength(keys: seq<string>, rows: seq<Vector>, target: Vector, ex: set<string>, n: int,
                   dist: Distance)
    requires |keys| == |rows| && DistinctKeys(keys)
    ensures |Rank(keys, rows, target, ex, n, dist)|
         == if n >= 0 then Min(n, |KeySet(keys) - ex|) else Max(0, |KeySet(keys) - ex| + n)
  {
    var z := Scored(keys, rows, target, dist);
    KeepSort(z, ex);
    SortPermutes(Keep(z, ex));
    assert |multiset(SortByScore(Keep(z, ex)))| == |multiset(Keep(z, ex))|;
    KeepZipLength(keys, Scores(target, rows, dist), ex);
  }

  /** Top n: a non-excluded word left out of the result scores at least as much as every word in it. */
  lemma RankNearest(keys: seq<string>, rows: seq<Vector>, target: Vector, ex: set<string>, n: int,
                    dist: Distance)
    requires |keys| == |rows|
    ensures forall i, p :: 0 <= i < |keys| && keys[i] !in ex && p in Rank(keys, rows, target, ex, n, dist)
              && (keys[i], dist(target, rows[i])) !in Rank(keys, rows, target, ex, n, dist)
              ==> p.1 <= dist(target, rows[i])
  {
    var z := Scored(keys, rows, target, dist);
    var ks := Keep(SortByScore(z), ex);
    var r := Rank(keys, rows, target, ex, n, dist);
    KeepSort(z, ex);
    SortIsSorted(Keep(z, ex));
    KeepMembers(SortByScore(z), ex);
    SortPermutes(z);
    forall i, p | 0 <= i < |keys| && keys[i] !in ex && p in r && (keys[i], dist(target, rows[i])) !in r
      ensures p.1 <= dist(target, rows[i])
    {
      var q := (keys[i], dist(target, rows[i]));
      assert z[i] == q;
      assert q in multiset(SortByScore(z));
      assert q in ks;
      var j :| 0 <= j < |ks| && ks[j] == q;
      var k :| 0 <= k < |r| && r[k] == p;
      assert r == ks[..|r|];
      assert ks[k] == p;
      assert |r| <= j;
    }
  }

  /** Ties keep vocabulary order: the returned pairs of any one score are a prefix of the
      non-excluded pairs of that score, taken in vocabulary order. */
  lemma RankStable(keys: seq<string>, rows: seq<Vector>, target: Vector, ex: set<string>, n: int,
                   dist: Distance, x: real)
    requires |keys| == |rows|
    ensures WithScore(Rank(keys, rows, target, ex, n, dist), x)
         <= WithScore(Keep(Scored(keys, rows, target, dist), ex), x)
  {
    var z := Scored(keys, rows, target, dist);
    var ks := Keep(SortByScore(z), ex);
    var r := Rank(keys, rows, target, ex, n, dist);
    KeepSort(z, ex);
    SortIsStable(Keep(z, ex), x);
    assert r == ks[..|r|];
    WithScorePrefix(ks, |r|, x);
  }
}

/** The ranking step of the applications mode: score every lowercased
    candidate name against the lowercased query, drop the weak matches,
    and order the rest by descending score with a stable sort. */
module Ranking {
  import opened Base

  /** The library routines the ranking calls but whose code is not part of
      this model: the two similarity metrics and Unicode lowercasing. */
  datatype Metrics = Metrics(
    jaroWinkler: (string, string) -> real,
    normalizedLevenshtein: (string, string) -> real,
    toLowercase: string -> string)

  /** Scores at or below this are dropped. */
  const Threshold: real := 0.3
  /** Added to the Levenshtein score of a key that contains the query. */
  const SubstringBonus: real := 0.5
  /** Queries up to this many UTF-8 bytes are scored by Jaro-Winkler alone. */
  const ShortQueryBytes: nat := 3

  /** Bytes of the UTF-8 encoding of one scalar value. */
  function CharUtf8Len(c: char): (n: nat)
    ensures 1 <= n <= 4
    ensures c as int < 0x80 ==> n == 1
  {
    var v := c as int;
    if v < 0x80 then 1 else if v < 0x800 then 2 else if v < 0x1_0000 then 3 else 4
  }

  /** `str::len`: the length of a string in UTF-8 bytes. */
  function Utf8Len(s: string): (n: nat)
    ensures |s| <= n <= 4 * |s|
    ensures (forall k :: 0 <= k < |s| ==> s[k] as int < 0x80) ==> n == |s|
  {
    if s == [] then 0 else CharUtf8Len(s[0]) + Utf8Len(s[1..])
  }

  /** `str::contains`: `t` occurs in `s` as a contiguous piece. */
  predicate Contains(s: string, t: string)
    ensures Contains(s, t) ==> |t| <= |s|
    ensures t == [] ==> Contains(s, t)
    decreases |s|
  {
    StartsWith(s, t) || (s != [] && Contains(s[1..], t))
  }

  predicate OccursAt(s: string, t: string, i: int)
  {
    0 <= i && i + |t| <= |s| && s[i..i + |t|] == t
  }

  /** `Contains` finds an occurrence exactly when there is one. */
  lemma {:induction false} ContainsIffOccurs(s: string, t: string)
    ensures Contains(s, t) <==> exists i :: OccursAt(s, t, i)
    decreases |s|
  {
    if s != [] {
      ContainsIffOccurs(s[1..], t);
    }
    if Contains(s, t) {
      if StartsWith(s, t) {
        assert OccursAt(s, t, 0);
      } else {
        var i :| OccursAt(s[1..], t, i);
        assert s[1..][i..i + |t|] == s[i + 1..i + 1 + |t|];
        assert OccursAt(s, t, i + 1);
      }
    }
    forall i | OccursAt(s, t, i) ensures Contains(s, t) {
      if i == 0 {
        assert StartsWith(s, t);
      } else {
        assert s[1..][i - 1..i - 1 + |t|] == s[i..i + |t|];
        assert OccursAt(s[1..], t, i - 1);
      }
    }
  }

  function Bonus(key: string, query: string): real
  {
    if Contains(key, query) then SubstringBonus else 0.0
  }

  /** The score of one lowercased key against the lowercased query. */
  function Score(key: string, query: string, m: Metrics): (s: real)
    ensures Utf8Len(query) <= ShortQueryBytes ==> s == m.jaroWinkler(key, query)
    ensures Utf8Len(query) > ShortQueryBytes ==>
      s == m.normalizedLevenshtein(key, query) || s == m.normalizedLevenshtein(key, query) + SubstringBonus
  {
    if Utf8Len(query) <= ShortQueryBytes then m.jaroWinkler(key, query)
    else m.normalizedLevenshtein(key, query) + Bonus(key, query)
  }

  /** A short query is scored by Jaro-Winkler with no substring bonus; a
      longer one by normalized Levenshtein plus exactly 0.5 when the key
      contains the query and plus nothing otherwise. */
  lemma ScoreBranches(key: string, query: string, m: Metrics)
    ensures Utf8Len(query) <= 3 ==> Score(key, query, m) == m.jaroWinkler(key, query)
    ensures Utf8Len(query) > 3 ==>
      (Score(key, query, m) == m.normalizedLevenshtein(key, query) + 0.5 <==> Contains(key, query))
    ensures Utf8Len(query) > 3 ==>
      (Score(key, query, m) == m.normalizedLevenshtein(key, query) <==> !Contains(key, query))
  {
  }

  /** The branch is chosen by bytes, not characters: three ASCII letters
      are short, four are long, and two two-byte letters are long too. */
  lemma ScoreBranchBoundary(key: string, m: Metrics)
    ensures Score(key, "fir", m) == m.jaroWinkler(key, "fir")
    ensures Score(key, "fire", m) == m.normalizedLevenshtein(key, "fire") + Bonus(key, "fire")
    ensures |"\U{E9}\U{E9}"| == 2
    ensures Score(key, "\U{E9}\U{E9}", m)
         == m.normalizedLevenshtein(key, "\U{E9}\U{E9}") + Bonus(key, "\U{E9}\U{E9}")
  {
  }

  /** One entry of the reused buffer: original index and score. */
  datatype ScoredIndex = ScoredIndex(index: U32, score: real)

  /** `apps.iter().enumerate().map(score).filter(score > 0.3)`, collected
      in enumeration order. */
  function Scored(keys: seq<string>, query: string, m: Metrics): (r: seq<ScoredIndex>)
    ensures |r| <= |keys|
    ensures forall k :: 0 <= k < |r| ==> r[k].index < |keys| && r[k].score > Threshold
    decreases |keys|
  {
    if keys == [] then []
    else
      var n := |keys| - 1;
      var s := Score(keys[n], query, m);
      Scored(keys[..n], query, m) + (if s > Threshold then [ScoredIndex(Wrap(n), s)] else [])
  }

  /** `(index, score)` pairs in the order they appear. */
  function Column(s: seq<ScoredIndex>): (r: seq<U32>)
    ensures |r| == |s|
    ensures forall k :: 0 <= k < |s| ==> r[k] == s[k].index
  {
    seq(|s|, k requires 0 <= k < |s| => s[k].index)
  }

  /** Insert `x` in front of the first entry whose score it reaches, so
      that it stays before every entry of equal score. */
  function Insert(x: ScoredIndex, s: seq<ScoredIndex>): (r: seq<ScoredIndex>)
    ensures |r| == |s| + 1
    ensures x in r
  {
    if s == [] then [x]
    else if x.score >= s[0].score then [x] + s
    else [s[0]] + Insert(x, s[1..])
  }

  /** `sort_by(|a, b| b.1.total_cmp(&a.1))`: a stable sort by descending
      score. */
  function SortByScore(s: seq<ScoredIndex>): (r: seq<ScoredIndex>)
    ensures |r| == |s|
  {
    if s == [] then [] else Insert(s[0], SortByScore(s[1..]))
  }

  /** `Rank(keys, query, m)` is the mapping the applications mode installs
      for `query`: every candidate in original order for the empty query
      (the length cast to `u32` first), otherwise the index column of the
      sorted buffer. */
  function Rank(keys: seq<string>, query: string, m: Metrics): (r: seq<U32>)
    ensures |r| <= |keys|
    ensures query == [] ==> forall p :: 0 <= p < |r| ==> r[p] == p
  {
    if query == [] then Identity(Wrap(|keys|))
    else Column(SortByScore(Scored(keys, m.toLowercase(query), m)))
  }

  // ---------------------------------------------------------------- proofs

  /** `a` comes before `b` in a ranking: higher score, or the same score and
      a smaller original index. */
  predicate RankedBefore(a: ScoredIndex, b: ScoredIndex)
  {
    a.score > b.score || (a.score == b.score && a.index < b.index)
  }

  predicate Ranked(s: seq<ScoredIndex>)
  {
    forall j, k :: 0 <= j < k < |s| ==> RankedBefore(s[j], s[k])
  }

  predicate IncreasingIndices(s: seq<ScoredIndex>)
  {
    forall j, k :: 0 <= j < k < |s| ==> s[j].index < s[k].index
  }

  /** The buffer is its prefix's buffer followed by at most the last entry. */
  lemma ScoredStep(keys: seq<string>, query: string, m: Metrics)
    requires keys != []
    ensures var n := |keys| - 1;
      && Scored(keys, query, m)[..|Scored(keys[..n], query, m)|] == Scored(keys[..n], query, m)
      && (forall i :: 0 <= i < n ==> keys[..n][i] == keys[i])
      && (|Scored(keys, query, m)| == |Scored(keys[..n], query, m)| <==> Score(keys[n], query, m) <= Threshold)
      && (Score(keys[n], query, m) > Threshold ==>
            Scored(keys, query, m)[|Scored(keys[..n], query, m)|]
              == ScoredIndex(Wrap(n), Score(keys[n], query, m)))
  {
  }

  /** Every buffer entry is an in-range candidate with its own score above
      the threshold. */
  lemma {:induction false} ScoredSound(keys: seq<string>, query: string, m: Metrics)
    requires |keys| <= U32Limit
    ensures forall k :: 0 <= k < |Scored(keys, query, m)| ==>
      && Scored(keys, query, m)[k].index < |keys|
      && Scored(keys, query, m)[k].score == Score(keys[Scored(keys, query, m)[k].index], query, m)
      && Scored(keys, query, m)[k].score > Threshold
    decreases |keys|
  {
    if keys != [] {
      var n := |keys| - 1;
      ScoredSound(keys[..n], query, m);
      ScoredStep(keys, query, m);
      var head := Scored(keys[..n], query, m);
      var r := Scored(keys, query, m);
      forall k | 0 <= k < |r|
        ensures r[k].index < |keys| && r[k].score == Score(keys[r[k].index], query, m) && r[k].score > Threshold
      {
        if k < |head| {
          assert r[k] == head[k];
        }
      }
    }
  }

  /** Entries come in increasing original-index order. */
  lemma {:induction false} ScoredIncreasing(keys: seq<string>, query: string, m: Metrics)
    requires |keys| <= U32Limit
    ensures IncreasingIndices(Scored(keys, query, m))
    decreases |keys|
  {
    if keys != [] {
      var n := |keys| - 1;
      ScoredIncreasing(keys[..n], query, m);
      ScoredSound(keys[..n], query, m);
      ScoredStep(keys, query, m);
      var head := Scored(keys[..n], query, m);
      var r := Scored(keys, query, m);
      forall j, k | 0 <= j < k < |r| ensures r[j].index < r[k].index {
        assert r[j] == head[j];
        if k < |head| {
          assert r[k] == head[k];
        }
      }
    }
  }

  /** Every candidate above the threshold has an entry. */
  lemma {:induction false} ScoredComplete(keys: seq<string>, query: string, m: Metrics)
    requires |keys| <= U32Limit
    ensures forall i :: 0 <= i < |keys| && Score(keys[i], query, m) > Threshold ==>
      exists k :: 0 <= k < |Scored(keys, query, m)| && Scored(keys, query, m)[k].index == i
    decreases |keys|
  {
    if keys != [] {
      var n := |keys| - 1;
      ScoredComplete(keys[..n], query, m);
      ScoredStep(keys, query, m);
      var head := Scored(keys[..n], query, m);
      var r := Scored(keys, query, m);
      forall i | 0 <= i < |keys| && Score(keys[i], query, m) > Threshold
        ensures exists k :: 0 <= k < |r| && r[k].index == i
      {
        if i < n {
          var k :| 0 <= k < |head| && head[k].index == i;
          assert r[k] == head[k];
        } else {
          assert r[|head|].index == i;
        }
      }
    }
  }

  lemma {:induction false} InsertPermutes(x: ScoredIndex, s: seq<ScoredIndex>)
    ensures multiset(Insert(x, s)) == multiset(s) + multiset{x}
  {
    if s != [] && x.score < s[0].score {
      InsertPermutes(x, s[1..]);
      assert s == [s[0]] + s[1..];
    }
  }

  /** The sort is a permutation of the buffer. */
  lemma {:induction false} SortPermutes(s: seq<ScoredIndex>)
    ensures multiset(SortByScore(s)) == multiset(s)
  {
    if s != [] {
      SortPermutes(s[1..]);
      InsertPermutes(s[0], SortByScore(s[1..]));
      assert s == [s[0]] + s[1..];
    }
  }

  lemma {:induction false} InsertRanked(x: ScoredIndex, s: seq<ScoredIndex>)
    requires Ranked(s)
    requires forall y :: y in s ==> x.index < y.index
    ensures Ranked(Insert(x, s))
  {
    if s == [] {
    } else if x.score >= s[0].score {
      var r := [x] + s;
      forall j, k | 0 <= j < k < |r| ensures RankedBefore(r[j], r[k]) {
        if j == 0 {
          assert r[k] == s[k - 1] && r[k] in s;
          if k > 1 { assert RankedBefore(s[0], s[k - 1]); }
        } else {
          assert RankedBefore(s[j - 1], s[k - 1]);
        }
      }
    } else {
      var t := s[1..];
      assert Ranked(t) by {
        forall j, k | 0 <= j < k < |t| ensures RankedBefore(t[j], t[k]) {
          assert RankedBefore(s[j + 1], s[k + 1]);
        }
      }
      assert forall y :: y in t ==> y in s;
      InsertRanked(x, t);
      InsertPermutes(x, t);
      var u := Insert(x, t);
      var r := [s[0]] + u;
      forall j, k | 0 <= j < k < |r| ensures RankedBefore(r[j], r[k]) {
        if j == 0 {
          var y := u[k - 1];
          assert y in multiset(u);
          assert y in multiset(t) || y == x;
          if y != x {
            assert y in t;
            var i :| 0 <= i < |t| && t[i] == y;
            assert RankedBefore(s[0], s[i + 1]);
          }
        } else {
          assert RankedBefore(u[j - 1], u[k - 1]);
        }
      }
    }
  }

  /** Sorting a buffer filled in increasing index order gives descending
      scores, with equal scores kept in increasing index order. */
  lemma {:induction false} SortRanked(s: seq<ScoredIndex>)
    requires IncreasingIndices(s)
    ensures Ranked(SortByScore(s))
  {
    if s != [] {
      var t := s[1..];
      assert IncreasingIndices(t) by {
        forall j, k | 0 <= j < k < |t| ensures t[j].index < t[k].index {
          assert s[j + 1].index < s[k + 1].index;
        }
      }
      SortRanked(t);
      SortPermutes(t);
      forall y | y in SortByScore(t) ensures s[0].index < y.index {
        assert y in multiset(SortByScore(t));
        assert y in t;
        var i :| 0 <= i < |t| && t[i] == y;
        assert s[i + 1] == y;
      }
      InsertRanked(s[0], SortByScore(t));
    }
  }

  /** The sorted buffer: in-range entries carrying their own scores above
      the threshold, ranked, with an entry for every candidate above the
      threshold. */
  lemma SortedBufferFacts(keys: seq<string>, q: string, m: Metrics)
    requires |keys| <= U32Limit
    ensures var sorted := SortByScore(Scored(keys, q, m));
      && Ranked(sorted)
      && (forall p :: 0 <= p < |sorted| ==>
            && sorted[p].index < |keys|
            && sorted[p].score == Score(keys[sorted[p].index], q, m)
            && sorted[p].score > Threshold)
      && (forall i :: 0 <= i < |keys| && Score(keys[i], q, m) > Threshold ==>
            exists p :: 0 <= p < |sorted| && sorted[p].index == i)
  {
    var buffer := Scored(keys, q, m);
    var sorted := SortByScore(buffer);
    ScoredSound(keys, q, m);
    ScoredIncreasing(keys, q, m);
    ScoredComplete(keys, q, m);
    SortPermutes(buffer);
    SortRanked(buffer);
    forall p | 0 <= p < |sorted|
      ensures sorted[p].index < |keys|
      ensures sorted[p].score == Score(keys[sorted[p].index], q, m)
      ensures sorted[p].score > Threshold
    {
      assert sorted[p] in multiset(buffer);
      var k :| 0 <= k < |buffer| && buffer[k] == sorted[p];
    }
    forall i | 0 <= i < |keys| && Score(keys[i], q, m) > Threshold
      ensures exists p :: 0 <= p < |sorted| && sorted[p].index == i
    {
      var k :| 0 <= k < |buffer| && buffer[k].index == i;
      assert buffer[k] in multiset(sorted);
      var p :| 0 <= p < |sorted| && sorted[p] == buffer[k];
    }
  }

  /** The projection installed for a non-empty query holds exactly the
      candidates scoring above 0.3, each once, all in range, ordered by
      descending score and, among equal scores, by ascending original
      index. */
  lemma RankCorrect(keys: seq<string>, query: string, m: Metrics)
    requires |keys| <= U32Limit && query != []
    ensures var r, q := Rank(keys, query, m), m.toLowercase(query);
      && (forall p :: 0 <= p < |r| ==> r[p] < |keys| && Score(keys[r[p]], q, m) > Threshold)
      && (forall i :: 0 <= i < |keys| ==> (i in r <==> Score(keys[i], q, m) > Threshold))
      && (forall p, p' :: 0 <= p < p' < |r| ==>
            Score(keys[r[p]], q, m) > Score(keys[r[p']], q, m) ||
            (Score(keys[r[p]], q, m) == Score(keys[r[p']], q, m) && r[p] < r[p']))
  {
    var q := m.toLowercase(query);
    var sorted := SortByScore(Scored(keys, q, m));
    var r := Rank(keys, query, m);
    assert r == Column(sorted);
    SortedBufferFacts(keys, q, m);
    forall i | 0 <= i < |keys| && Score(keys[i], q, m) > Threshold
      ensures i in r
    {
      var p :| 0 <= p < |sorted| && sorted[p].index == i;
      assert r[p] == i;
    }
    forall p, p' | 0 <= p < p' < |r|
      ensures RankedBefore(sorted[p], sorted[p'])
    {
    }
  }

  /** For a long query, a candidate whose key contains the query is always
      shown, whatever its Levenshtein similarity. */
  lemma SubstringMatchShown(keys: seq<string>, query: string, m: Metrics, i: nat)
    requires |keys| <= U32Limit && query != [] && i < |keys|
    requires Utf8Len(m.toLowercase(query)) > ShortQueryBytes
    requires Contains(keys[i], m.toLowercase(query))
    requires m.normalizedLevenshtein(keys[i], m.toLowercase(query)) >= 0.0
    ensures i in Rank(keys, query, m)
  {
    RankCorrect(keys, query, m);
  }

  /** The empty query shows every candidate in original order, provided
      the number of candidates fits in `u32` (past that, the cast of the
      length to `u32` wraps and the mapping comes out shorter). */
  lemma EmptyQueryIsIdentity(keys: seq<string>, m: Metrics)
    ensures Rank(keys, [], m) == Identity(|keys|) <==> |keys| < U32Limit
  {
  }
}

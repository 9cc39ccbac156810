/**
 * The ordering step of the heuristic search: candidates sorted best score
 * first by a stable sort, so that among equal scores the store order is
 * kept. The best candidate is then the first one, in store order, with the
 * maximum score, and the top two scores are equal exactly when that maximum
 * is reached twice.
 */
module Ranking {
  import opened SearchTypes

  predicate SortedByScore(s: seq<MatchResult>) {
    forall i, j :: 0 <= i < j < |s| ==> s[i].score >= s[j].score
  }

  /** Puts `x` after every element scoring at least as much, which is where a stable sort puts the last element. */
  function Insert(x: MatchResult, t: seq<MatchResult>): (r: seq<MatchResult>)
    ensures |r| == |t| + 1
    ensures forall e :: e in r <==> e == x || e in t
    ensures multiset(r) == multiset(t) + multiset{x}
  {
    if t == [] then [x]
    else if t[0].score >= x.score then
      assert t == [t[0]] + t[1..];
      [t[0]] + Insert(x, t[1..])
    else [x] + t
  }

  /** Inserting into a sorted sequence keeps it sorted. */
  lemma {:induction false} InsertSorted(x: MatchResult, t: seq<MatchResult>)
    requires SortedByScore(t)
    ensures SortedByScore(Insert(x, t))
  {
    if t != [] && t[0].score >= x.score {
      var rest := Insert(x, t[1..]);
      InsertSorted(x, t[1..]);
      forall e | e in rest
        ensures t[0].score >= e.score
      {
        if e != x {
          var k :| 0 <= k < |t[1..]| && t[1..][k] == e;
          assert t[k + 1] == e;
        }
      }
      assert Insert(x, t) == [t[0]] + rest;
    }
  }

  /** `matches.sort((a, b) => b.score - a.score)`: a stable sort, highest score first. */
  function SortByScore(s: seq<MatchResult>): (r: seq<MatchResult>)
    ensures |r| == |s|
    ensures multiset(r) == multiset(s)
    ensures SortedByScore(r)
  {
    if s == [] then []
    else
      assert s == s[..|s| - 1] + [s[|s| - 1]];
      InsertSorted(s[|s| - 1], SortByScore(s[..|s| - 1]));
      Insert(s[|s| - 1], SortByScore(s[..|s| - 1]))
  }

  /** The highest score in `s`. */
  function MaxScore(s: seq<MatchResult>): (m: int)
    requires |s| > 0
    ensures forall i :: 0 <= i < |s| ==> s[i].score <= m
    ensures exists i :: 0 <= i < |s| && s[i].score == m
  {
    if |s| == 1 then s[0].score
    else
      var p := MaxScore(s[..|s| - 1]);
      assert forall i :: 0 <= i < |s| - 1 ==> s[i] == s[..|s| - 1][i];
      if s[|s| - 1].score > p then s[|s| - 1].score else p
  }

  /** The position of the first element of `s` with the highest score. */
  function FirstMax(s: seq<MatchResult>): (k: nat)
    requires |s| > 0
    ensures k < |s| && s[k].score == MaxScore(s)
    ensures forall i :: 0 <= i < k ==> s[i].score < MaxScore(s)
  {
    if |s| == 1 then 0
    else
      assert forall i :: 0 <= i < |s| - 1 ==> s[i] == s[..|s| - 1][i];
      if s[|s| - 1].score > MaxScore(s[..|s| - 1]) then |s| - 1
      else FirstMax(s[..|s| - 1])
  }

  /** The highest score of `s` is reached by two different elements. */
  predicate MaxTied(s: seq<MatchResult>)
    requires |s| > 0
  {
    exists i, j :: 0 <= i < j < |s| && s[i].score == MaxScore(s) && s[j].score == MaxScore(s)
  }

  /** The sort puts first the earliest element with the highest score. */
  lemma {:induction false} SortHead(s: seq<MatchResult>)
    requires |s| > 0
    ensures SortByScore(s)[0] == s[FirstMax(s)]
  {
    if |s| > 1 {
      var p := s[..|s| - 1];
      var x := s[|s| - 1];
      SortHead(p);
      assert SortByScore(s) == Insert(x, SortByScore(p));
      assert s[FirstMax(p)] == p[FirstMax(p)];
    }
  }

  /** How the last element of `s` changes whether the highest score is tied. */
  lemma TieExtends(s: seq<MatchResult>)
    requires |s| >= 2
    ensures var p := s[..|s| - 1]; var x := s[|s| - 1];
      && (x.score > MaxScore(p) ==> !MaxTied(s))
      && (x.score == MaxScore(p) ==> MaxTied(s))
      && (x.score < MaxScore(p) ==> (MaxTied(s) <==> MaxTied(p)))
  {
    var p := s[..|s| - 1];
    var x := s[|s| - 1];
    assert forall i :: 0 <= i < |s| - 1 ==> s[i] == p[i];
    if x.score == MaxScore(p) {
      var k := FirstMax(p);
      assert s[k].score == MaxScore(s) && s[|s| - 1].score == MaxScore(s);
    } else if x.score < MaxScore(p) {
      if MaxTied(p) {
        var i, j :| 0 <= i < j < |p| && p[i].score == MaxScore(p) && p[j].score == MaxScore(p);
        assert s[i].score == MaxScore(s) && s[j].score == MaxScore(s);
      }
    }
  }

  /** The second element after sorting reaches the highest score exactly when that score is tied. */
  lemma {:induction false} SortTie(s: seq<MatchResult>)
    requires |s| >= 2
    ensures SortByScore(s)[1].score == MaxScore(s) <==> MaxTied(s)
  {
    var p := s[..|s| - 1];
    var x := s[|s| - 1];
    var t := SortByScore(p);
    assert SortByScore(s) == Insert(x, t);
    SortHead(p);
    assert t[0].score == MaxScore(p);
    TieExtends(s);
    if |s| == 2 {
      assert t == [s[0]];
      if x.score <= t[0].score {
        assert Insert(x, t) == [t[0], x];
      }
    } else {
      SortTie(p);
      if x.score <= t[0].score {
        assert Insert(x, t)[1] == Insert(x, t[1..])[0];
      }
    }
  }

  /** For positive scores: the sorted head is the earliest best element, and the top two tie exactly when the maximum is tied. */
  lemma RankPositive(c: seq<MatchResult>)
    requires forall m :: m in c ==> m.score > 0
    ensures var sorted := SortByScore(c);
      && (sorted == [] <==> c == [])
      && (c != [] ==> sorted[0] == c[FirstMax(c)] && sorted[0].score > 0)
      && (|c| > 1 ==> (sorted[0].score == sorted[1].score <==> MaxTied(c)))
  {
    if c != [] {
      SortHead(c);
      if |c| > 1 {
        SortTie(c);
      }
    }
  }
}

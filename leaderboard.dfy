/**
 * The leaderboard of js/leaderboard.js: a stored list of entries, ranked by
 * score from the highest down and cut to the ten best. The browser storage
 * is a value passed in (None when nothing was stored yet); the date is an
 * opaque string supplied by the caller.
 */
module Leaderboard {
  import opened Wrappers

  const MaxEntries: nat := 10

  datatype Entry = Entry(name: string, score: int, date: string)

  /** The stored list, or the empty list when nothing was stored. */
  function GetLeaderboard(stored: Option<seq<Entry>>): (list: seq<Entry>)
    ensures stored.None? ==> list == []
    ensures stored.Some? ==> list == stored.value
  {
    match stored
    case None => []
    case Some(entries) => entries
  }

  /** Scores never rise from the head of the list to its tail. */
  ghost predicate SortedByScore(s: seq<Entry>)
  {
    forall i, j :: 0 <= i < j < |s| ==> s[i].score >= s[j].score
  }

  /** Puts `e` into a ranked list after every entry scoring at least as much,
      so that entries with equal scores keep their order. */
  function Insert(e: Entry, s: seq<Entry>): seq<Entry>
  {
    if s == [] || s[0].score < e.score then [e] + s
    else [s[0]] + Insert(e, s[1..])
  }

  /** The ranking `sort((a, b) => b.score - a.score)` computes: a stable
      sort by descending score, written as an insertion sort. */
  function SortByScore(s: seq<Entry>): seq<Entry>
  {
    if s == [] then [] else Insert(s[|s| - 1], SortByScore(s[..|s| - 1]))
  }

  /** Insertion adds exactly the one entry. */
  lemma {:induction false} InsertMultiset(e: Entry, s: seq<Entry>)
    ensures multiset(Insert(e, s)) == multiset(s) + multiset{e}
  {
    if s != [] && s[0].score >= e.score {
      InsertMultiset(e, s[1..]);
      assert s == [s[0]] + s[1..];
    }
  }

  /** Insertion into a ranked list keeps it ranked. */
  lemma {:induction false} InsertSorted(e: Entry, s: seq<Entry>)
    requires SortedByScore(s)
    ensures SortedByScore(Insert(e, s))
  {
    if s != [] && s[0].score >= e.score {
      var head, tail := s[0], s[1..];
      InsertSorted(e, tail);
      InsertMultiset(e, tail);
      var rest := Insert(e, tail);
      forall k | 0 <= k < |rest|
        ensures rest[k].score <= head.score
      {
        assert rest[k] in multiset(tail) + multiset{e};
        if rest[k] != e {
          var j :| 0 <= j < |tail| && tail[j] == rest[k];
          assert s[j + 1] == rest[k];
        }
      }
      assert Insert(e, s) == [head] + rest;
    }
  }

  /** The ranking is sorted by score and holds exactly the entries it was
      given. */
  lemma {:induction false} SortByScoreProps(s: seq<Entry>)
    ensures SortedByScore(SortByScore(s))
    ensures multiset(SortByScore(s)) == multiset(s)
    ensures |SortByScore(s)| == |s|
  {
    if s != [] {
      var init := s[..|s| - 1];
      SortByScoreProps(init);
      InsertSorted(s[|s| - 1], SortByScore(init));
      InsertMultiset(s[|s| - 1], SortByScore(init));
      assert s == init + [s[|s| - 1]];
    }
  }

  /** Sorting a list that is already ranked changes nothing. */
  lemma {:induction false} SortSortedIsIdentity(s: seq<Entry>)
    requires SortedByScore(s)
    ensures SortByScore(s) == s
  {
    if s != [] {
      var init := s[..|s| - 1];
      assert SortedByScore(init);
      SortSortedIsIdentity(init);
      InsertAtEnd(s[|s| - 1], init);
      assert s == init + [s[|s| - 1]];
    }
  }

  /** An entry scoring no more than every entry of a list goes at its end. */
  lemma {:induction false} InsertAtEnd(e: Entry, s: seq<Entry>)
    requires forall k :: 0 <= k < |s| ==> s[k].score >= e.score
    ensures Insert(e, s) == s + [e]
  {
    if s != [] {
      InsertAtEnd(e, s[1..]);
      assert s == [s[0]] + s[1..];
    }
  }

  /** Keeping the first `k` entries of a ranked list keeps it ranked and
      drops only entries scoring no more than any kept one. */
  lemma TopOfRanked(r: seq<Entry>, k: nat)
    requires SortedByScore(r) && k <= |r|
    ensures SortedByScore(r[..k])
    ensures multiset(r[..k]) <= multiset(r)
    ensures forall e, t ::
      e in multiset(r) && multiset(r[..k])[e] < multiset(r)[e] && t in r[..k] ==> e.score <= t.score
  {
    assert r == r[..k] + r[k..];
    forall e, t | e in multiset(r) && multiset(r[..k])[e] < multiset(r)[e] && t in r[..k]
      ensures e.score <= t.score
    {
      assert e in multiset(r[k..]);
      var j :| k <= j < |r| && r[j] == e;
      var i :| 0 <= i < k && r[i] == t;
    }
  }

  /** addToLeaderboard: push the new entry, rank the list, keep the first
      ten. */
  method AddToLeaderboard(stored: Option<seq<Entry>>, name: string, score: int, date: string)
    returns (topScores: seq<Entry>)
    ensures |topScores| <= MaxEntries
    ensures SortedByScore(topScores)
    ensures multiset(topScores) <= multiset(GetLeaderboard(stored)) + multiset{Entry(name, score, date)}
    ensures forall e, t ::
      && e in multiset(GetLeaderboard(stored)) + multiset{Entry(name, score, date)}
      && multiset(topScores)[e] < (multiset(GetLeaderboard(stored)) + multiset{Entry(name, score, date)})[e]
      && t in topScores
      ==> e.score <= t.score
    ensures |GetLeaderboard(stored)| < MaxEntries ==>
      && |topScores| == |GetLeaderboard(stored)| + 1
      && Entry(name, score, date) in topScores
    ensures |GetLeaderboard(stored)| >= MaxEntries ==> |topScores| == MaxEntries
  {
    var leaderboard := GetLeaderboard(stored);
    var newEntry := Entry(name, score, date);
    leaderboard := leaderboard + [newEntry];
    ghost var pushed := leaderboard;
    leaderboard := SortByScore(leaderboard);
    SortByScoreProps(pushed);
    var keep := if |leaderboard| < MaxEntries then |leaderboard| else MaxEntries;
    topScores := leaderboard[..keep];
    TopOfRanked(leaderboard, keep);
    assert multiset(pushed) == multiset(GetLeaderboard(stored)) + multiset{newEntry};
    if |GetLeaderboard(stored)| < MaxEntries {
      assert topScores == leaderboard;
      assert newEntry in multiset(pushed);
    }
  }
}

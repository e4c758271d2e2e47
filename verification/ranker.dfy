/**
 * The popularity ranker: each repository gets a score from its stars, forks,
 * watchers and how recently it was updated, and the scored records are sorted
 * by score, highest first, with ties broken by full name.
 *
 * Times are integer milliseconds since the epoch; the wall clock is read
 * once per call, as the parameter `now`.
 */
module Ranker {
  import opened LexOrder

  const MillisPerDay: int := 1000 * 60 * 60 * 24

  /** The fields of a repository record the ranker reads. */
  datatype Repository = Repository(
    fullName: string,
    stargazersCount: int,
    forksCount: int,
    watchersCount: int,
    updatedAt: int)

  /** A repository record with its popularity score attached; the record
      itself is carried along unchanged. */
  datatype RankedRepository = RankedRepository(repo: Repository, popularityScore: int)

  function Name(r: RankedRepository): string {
    r.repo.fullName
  }

  /** Whole days elapsed since the update, rounded down (negative for an
      update in the future). */
  function DaysSinceUpdate(updatedAt: int, now: int): (days: int)
    ensures days * MillisPerDay <= now - updatedAt < (days + 1) * MillisPerDay
  {
    (now - updatedAt) / MillisPerDay
  }

  /** 100 for an update less than a day ago, one point less per further day,
      never below zero. */
  function RecencyScore(updatedAt: int, now: int): (score: int)
    ensures score >= 0
    ensures updatedAt <= now ==> score <= 100
    ensures score == 0 <==> now - updatedAt >= 100 * MillisPerDay
    ensures score > 0 ==> (100 - score) * MillisPerDay <= now - updatedAt < (101 - score) * MillisPerDay
  {
    var days := DaysSinceUpdate(updatedAt, now);
    if 100 - days > 0 then 100 - days else 0
  }

  /** Stars, forks and watchers together: the part of the score that does
      not depend on time. */
  function Counts(repo: Repository): int {
    repo.stargazersCount + repo.forksCount + repo.watchersCount
  }

  function Score(repo: Repository, now: int): (score: int)
    ensures Counts(repo) <= score
    ensures repo.updatedAt <= now ==> score <= Counts(repo) + 100
    ensures score == Counts(repo) <==> now - repo.updatedAt >= 100 * MillisPerDay
  {
    repo.stargazersCount + repo.forksCount + repo.watchersCount + RecencyScore(repo.updatedAt, now)
  }

  /** A later update never earns a lower recency score. */
  lemma RecencyMonotone(earlier: int, later: int, now: int)
    requires earlier <= later
    ensures RecencyScore(earlier, now) <= RecencyScore(later, now)
  {
    var d1, d2 := DaysSinceUpdate(earlier, now), DaysSinceUpdate(later, now);
    assert d2 * MillisPerDay <= now - later <= now - earlier < (d1 + 1) * MillisPerDay;
    assert d2 <= d1;
  }

  function ScoreAll(repos: seq<Repository>, now: int): (scored: seq<RankedRepository>)
    ensures |scored| == |repos|
    ensures forall i :: 0 <= i < |repos| ==> scored[i].repo == repos[i]
  {
    seq(|repos|, i requires 0 <= i < |repos| => RankedRepository(repos[i], Score(repos[i], now)))
  }

  function Repos(s: seq<RankedRepository>): (repos: seq<Repository>)
    ensures |repos| == |s|
    ensures forall i :: 0 <= i < |s| ==> repos[i] == s[i].repo
  {
    seq(|s|, i requires 0 <= i < |s| => s[i].repo)
  }

  /** `a` may stand before `b` in the output: the `rankRepositories`
      comparator orders higher scores first and equal scores by name. */
  predicate Precedes(a: RankedRepository, b: RankedRepository) {
    a.popularityScore > b.popularityScore
    || (a.popularityScore == b.popularityScore && LexLe(Name(a), Name(b)))
  }

  predicate Sorted(s: seq<RankedRepository>) {
    forall i, j :: 0 <= i < j < |s| ==> Precedes(s[i], s[j])
  }

  predicate AdjacentSorted(s: seq<RankedRepository>) {
    forall i :: 0 <= i < |s| - 1 ==> Precedes(s[i], s[i + 1])
  }

  /** Two records with the same name are the same record. */
  predicate NamesIdentify(s: seq<RankedRepository>) {
    forall x, y :: x in s && y in s && Name(x) == Name(y) ==> x == y
  }

  predicate NamesIdentifyRepos(repos: seq<Repository>) {
    forall x, y :: x in repos && y in repos && x.fullName == y.fullName ==> x == y
  }

  lemma PrecedesTotal(a: RankedRepository, b: RankedRepository)
    ensures Precedes(a, b) || Precedes(b, a)
  {
    LexLeTotal(Name(a), Name(b));
  }

  lemma PrecedesTransitive(a: RankedRepository, b: RankedRepository, c: RankedRepository)
    requires Precedes(a, b) && Precedes(b, c)
    ensures Precedes(a, c)
  {
    if a.popularityScore == b.popularityScore == c.popularityScore {
      LexLeTransitive(Name(a), Name(b), Name(c));
    }
  }

  /** Records that may each stand before the other share score and name. */
  lemma PrecedesBothWays(a: RankedRepository, b: RankedRepository)
    requires Precedes(a, b) && Precedes(b, a)
    ensures a.popularityScore == b.popularityScore && Name(a) == Name(b)
  {
    LexLeAntisymmetric(Name(a), Name(b));
  }

  /** Inserts `x` before the first element it may precede. */
  function Insert(x: RankedRepository, s: seq<RankedRepository>): (r: seq<RankedRepository>)
    ensures |r| == |s| + 1
    ensures multiset(r) == multiset(s) + multiset{x}
    ensures |s| > 0 ==> r[0] == x || r[0] == s[0]
    ensures AdjacentSorted(s) ==> AdjacentSorted(r)
  {
    if |s| == 0 then [x]
    else if Precedes(x, s[0]) then [x] + s
    else
      PrecedesTotal(x, s[0]);
      assert s == [s[0]] + s[1..];
      [s[0]] + Insert(x, s[1..])
  }

  /** Insertion sort; an element is inserted before the equal elements that
      followed it, so equal records keep their input order. */
  function SortRanked(s: seq<RankedRepository>): (r: seq<RankedRepository>)
    ensures |r| == |s|
    ensures multiset(r) == multiset(s)
    ensures AdjacentSorted(r)
  {
    if |s| == 0 then []
    else
      assert s == [s[0]] + s[1..];
      Insert(s[0], SortRanked(s[1..]))
  }

  lemma {:induction false} AdjacentToPairwise(s: seq<RankedRepository>)
    requires AdjacentSorted(s)
    ensures Sorted(s)
  {
    if |s| > 1 {
      AdjacentToPairwise(s[1..]);
      forall j | 1 < j < |s|
        ensures Precedes(s[0], s[j])
      {
        assert Precedes(s[1], s[j]) by {
          assert s[1..][0] == s[1] && s[1..][j - 1] == s[j];
        }
        PrecedesTransitive(s[0], s[1], s[j]);
      }
    }
  }

  /** Every member of a permutation of the scored input is an input record
      with its own score. */
  lemma ScoredMember(repos: seq<Repository>, now: int, s: seq<RankedRepository>, i: int)
    requires multiset(s) == multiset(ScoreAll(repos, now))
    requires 0 <= i < |s|
    ensures s[i].repo in repos
    ensures s[i].popularityScore == Score(s[i].repo, now)
  {
    assert s[i] in multiset(ScoreAll(repos, now));
    var k :| 0 <= k < |repos| && ScoreAll(repos, now)[k] == s[i];
  }

  /** rankRepositories: score every record, then sort by score descending
      and name ascending. */
  function Rank(repos: seq<Repository>, now: int): (ranked: seq<RankedRepository>)
    ensures |ranked| == |repos|
    ensures multiset(ranked) == multiset(ScoreAll(repos, now))
    ensures Sorted(ranked)
    ensures forall i :: 0 <= i < |ranked| ==> ranked[i].repo in repos
    ensures forall i :: 0 <= i < |ranked| ==> ranked[i].popularityScore == Score(ranked[i].repo, now)
  {
    var ranked := SortRanked(ScoreAll(repos, now));
    AdjacentToPairwise(ranked);
    assert forall i :: 0 <= i < |ranked| ==> ranked[i].repo in repos && ranked[i].popularityScore == Score(ranked[i].repo, now) by {
      forall i | 0 <= i < |ranked|
        ensures ranked[i].repo in repos && ranked[i].popularityScore == Score(ranked[i].repo, now)
      {
        ScoredMember(repos, now, ranked, i);
      }
    }
    ranked
  }

  lemma ReposAppend(a: seq<RankedRepository>, b: seq<RankedRepository>)
    ensures Repos(a + b) == Repos(a) + Repos(b)
  {
  }

  /** Dropping the head removes one copy of it from the multiset. */
  lemma MultisetTail(s: seq<RankedRepository>)
    requires |s| > 0
    ensures multiset(s[1..]) == multiset(s) - multiset{s[0]}
  {
    assert s == [s[0]] + s[1..];
  }

  lemma MultisetRemoveAt(t: seq<RankedRepository>, k: int)
    requires 0 <= k < |t|
    ensures multiset(t[..k] + t[k + 1..]) == multiset(t) - multiset{t[k]}
  {
    assert t == t[..k] + [t[k]] + t[k + 1..];
  }

  /** Projecting both sides of a permutation onto their repositories keeps
      it a permutation. */
  lemma {:induction false} ReposPermutation(s: seq<RankedRepository>, t: seq<RankedRepository>)
    requires multiset(s) == multiset(t)
    ensures multiset(Repos(s)) == multiset(Repos(t))
    decreases |s|
  {
    if |s| > 0 {
      assert s[0] in multiset(t);
      var k :| 0 <= k < |t| && t[k] == s[0];
      var rest := t[..k] + t[k + 1..];
      MultisetTail(s);
      MultisetRemoveAt(t, k);
      ReposPermutation(s[1..], rest);
      assert t == t[..k] + [t[k]] + t[k + 1..];
      assert s == [s[0]] + s[1..];
      ReposAppend(t[..k] + [t[k]], t[k + 1..]);
      ReposAppend(t[..k], [t[k]]);
      ReposAppend(t[..k], t[k + 1..]);
      ReposAppend([s[0]], s[1..]);
    } else {
      assert |t| == |multiset(t)| == 0;
    }
  }

  /** No record is dropped, duplicated or altered: the output holds exactly
      the input records, each with only a score added. */
  lemma RankPermutes(repos: seq<Repository>, now: int)
    ensures multiset(Repos(Rank(repos, now))) == multiset(repos)
  {
    ReposPermutation(Rank(repos, now), ScoreAll(repos, now));
    assert Repos(ScoreAll(repos, now)) == repos;
  }

  lemma SortedTail(s: seq<RankedRepository>)
    requires Sorted(s) && |s| > 0
    ensures Sorted(s[1..])
  {
    forall i, j | 0 <= i < j < |s| - 1
      ensures Precedes(s[1..][i], s[1..][j])
    {
      assert s[1..][i] == s[i + 1] && s[1..][j] == s[j + 1];
    }
  }

  lemma NamesIdentifyTail(s: seq<RankedRepository>)
    requires NamesIdentify(s) && |s| > 0
    ensures NamesIdentify(s[1..])
  {
    forall x | x in s[1..]
      ensures x in s
    {
      var i :| 0 <= i < |s[1..]| && s[1..][i] == x;
      assert s[i + 1] == x;
    }
  }

  /** Two sorted arrangements of the same records start with the same one. */
  lemma SortedSameHead(a: seq<RankedRepository>, b: seq<RankedRepository>)
    requires Sorted(a) && Sorted(b)
    requires multiset(a) == multiset(b)
    requires NamesIdentify(a)
    requires |a| > 0
    ensures |b| > 0 && a[0] == b[0]
  {
    assert |b| == |multiset(b)| == |multiset(a)| == |a|;
    assert a[0] in multiset(b) && b[0] in multiset(a);
    var k :| 0 <= k < |b| && b[k] == a[0];
    var m :| 0 <= m < |a| && a[m] == b[0];
    if a[0] != b[0] {
      assert Precedes(a[0], a[m]) && Precedes(b[0], b[k]);
      PrecedesBothWays(a[0], b[0]);
      assert false;
    }
  }

  /** A sorted arrangement of a fixed collection is unique once names
      identify records. */
  lemma {:induction false} SortedUnique(a: seq<RankedRepository>, b: seq<RankedRepository>)
    requires Sorted(a) && Sorted(b)
    requires multiset(a) == multiset(b)
    requires NamesIdentify(a)
    ensures a == b
    decreases |a|
  {
    if |a| == 0 {
      assert |b| == |multiset(b)| == 0;
    } else {
      SortedSameHead(a, b);
      MultisetTail(a);
      MultisetTail(b);
      SortedTail(a);
      SortedTail(b);
      NamesIdentifyTail(a);
      SortedUnique(a[1..], b[1..]);
      assert a == [a[0]] + a[1..];
      assert b == [b[0]] + b[1..];
    }
  }

  lemma NamesIdentifyScored(repos: seq<Repository>, now: int, s: seq<RankedRepository>)
    requires NamesIdentifyRepos(repos)
    requires multiset(s) == multiset(ScoreAll(repos, now))
    ensures NamesIdentify(s)
  {
    forall x, y | x in s && y in s && Name(x) == Name(y)
      ensures x == y
    {
      var i :| 0 <= i < |s| && s[i] == x;
      var j :| 0 <= j < |s| && s[j] == y;
      ScoredMember(repos, now, s, i);
      ScoredMember(repos, now, s, j);
    }
  }

  /** The ranking is determined by its contract alone: any sorted
      permutation of the scored records is the one the ranker returns. */
  lemma RankIsUnique(repos: seq<Repository>, now: int, ranked: seq<RankedRepository>)
    requires NamesIdentifyRepos(repos)
    requires Sorted(ranked)
    requires multiset(ranked) == multiset(ScoreAll(repos, now))
    ensures ranked == Rank(repos, now)
  {
    NamesIdentifyScored(repos, now, ranked);
    SortedUnique(ranked, Rank(repos, now));
  }

  /** A higher score always ranks first. */
  lemma HigherScoreFirst(repos: seq<Repository>, now: int, i: int, j: int)
    requires 0 <= i < |repos| && 0 <= j < |repos|
    requires Rank(repos, now)[i].popularityScore > Rank(repos, now)[j].popularityScore
    ensures i < j
  {
  }

  /** With equal stars, forks and watchers, a record updated later ranks
      below an older one only when both land on the same recency score and
      its name sorts after. */
  lemma MoreRecentNeverBelow(repos: seq<Repository>, now: int, i: int, j: int)
    requires 0 <= i < j < |repos|
    requires Counts(Rank(repos, now)[i].repo) == Counts(Rank(repos, now)[j].repo)
    requires Rank(repos, now)[i].repo.updatedAt <= Rank(repos, now)[j].repo.updatedAt
    ensures Rank(repos, now)[i].popularityScore == Rank(repos, now)[j].popularityScore
    ensures LexLe(Name(Rank(repos, now)[i]), Name(Rank(repos, now)[j]))
  {
    var r := Rank(repos, now);
    RecencyMonotone(r[i].repo.updatedAt, r[j].repo.updatedAt, now);
    assert Precedes(r[i], r[j]);
  }

  /** Records with equal scores appear in ascending name order. */
  lemma TiesByName(repos: seq<Repository>, now: int, i: int, j: int)
    requires 0 <= i < j < |repos|
    requires Rank(repos, now)[i].popularityScore == Rank(repos, now)[j].popularityScore
    ensures LexLe(Name(Rank(repos, now)[i]), Name(Rank(repos, now)[j]))
  {
    assert Precedes(Rank(repos, now)[i], Rank(repos, now)[j]);
  }

  function Names(s: seq<RankedRepository>): (names: seq<string>)
    ensures |names| == |s|
    ensures forall i :: 0 <= i < |s| ==> names[i] == Name(s[i])
  {
    seq(|s|, i requires 0 <= i < |s| => Name(s[i]))
  }

  /** 2024-06-01T00:00:00Z and 2022-06-01T00:00:00Z in milliseconds. */
  const June2024: int := 1717200000000
  const June2022: int := 1654041600000

  /** Scores 70, 80 and 70 plus a common recency term. */
  const ScoredRepos: seq<Repository> := [
    Repository("repo1", 30, 25, 15, June2024),
    Repository("repo2", 50, 20, 10, June2024),
    Repository("repo3", 40, 20, 10, June2024)]

  /** Three records with equal statistics. */
  const TiedRepos: seq<Repository> := [
    Repository("repoC", 40, 20, 10, June2024),
    Repository("repoA", 40, 20, 10, June2024),
    Repository("repoB", 40, 20, 10, June2024)]

  lemma RanksByScoreOrder(now: int)
    ensures Rank(ScoredRepos, now) == [ScoreAll(ScoredRepos, now)[1], ScoreAll(ScoredRepos, now)[0], ScoreAll(ScoredRepos, now)[2]]
  {
    var scored := ScoreAll(ScoredRepos, now);
    var expected := [scored[1], scored[0], scored[2]];
    assert LexLe("repo1", "repo3");
    assert Sorted(expected);
    assert scored == [scored[0], scored[1], scored[2]];
    assert multiset(expected) == multiset(scored);
    RankIsUnique(ScoredRepos, now, expected);
  }

  /** The 80 leads and the tie between the two 70s goes to the smaller name. */
  lemma RanksByScore(now: int)
    ensures Names(Rank(ScoredRepos, now)) == ["repo2", "repo1", "repo3"]
  {
    RanksByScoreOrder(now);
  }

  lemma TiesRankByNameOrder(now: int)
    ensures Rank(TiedRepos, now) == [ScoreAll(TiedRepos, now)[1], ScoreAll(TiedRepos, now)[2], ScoreAll(TiedRepos, now)[0]]
  {
    var scored := ScoreAll(TiedRepos, now);
    var expected := [scored[1], scored[2], scored[0]];
    assert LexLe("repoA", "repoB") && LexLe("repoB", "repoC") && LexLe("repoA", "repoC");
    assert Sorted(expected);
    assert scored == [scored[0], scored[1], scored[2]];
    assert multiset(expected) == multiset(scored);
    RankIsUnique(TiedRepos, now, expected);
  }

  /** Equal statistics: the names decide. */
  lemma TiesRankByName(now: int)
    ensures Names(Rank(TiedRepos, now)) == ["repoA", "repoB", "repoC"]
  {
    TiesRankByNameOrder(now);
  }

  /** A record updated just now outranks an identical one last updated in
      June 2022, at any time from mid-September 2022 on. */
  lemma RecentRanksFirst(now: int)
    requires now >= June2022 + 100 * MillisPerDay
    ensures Names(Rank([Repository("repo1", 10, 5, 3, now),
                        Repository("repo2", 10, 5, 3, June2022)], now))
            == ["repo1", "repo2"]
  {
    var repos := [Repository("repo1", 10, 5, 3, now), Repository("repo2", 10, 5, 3, June2022)];
    var scored := ScoreAll(repos, now);
    assert scored[0].popularityScore == 118 && scored[1].popularityScore == 18;
    var expected := [scored[0], scored[1]];
    assert Sorted(expected);
    assert expected == scored;
    RankIsUnique(repos, now, expected);
  }

  lemma RankEmpty(now: int)
    ensures Rank([], now) == []
  {
  }
}

/**
 * The pieces both handlers' repository selection is built from: the project record the
 * forge API returns, the owner segment of a path, the topic test, and de-duplication by path.
 */
module Selection {
  import opened Wrappers
  import opened Strings
  import opened Batches
  import opened Seqs

  /** A project as the forge API returns it: a numeric id and the fields copied from it. */
  datatype ApiRepository = ApiRepository(
    id: nat,
    path: string,
    url: string,
    branch: Option<string>,
    topics: Option<seq<string>>)

  /** The `Repository` record built from an API project, its id as `id.toString()`. */
  function ToRepository(a: ApiRepository): (r: Repository)
    ensures r.path == a.path && r.url == a.url && r.branch == a.branch && r.topics == a.topics
    ensures ParseInt(r.id) == Some(a.id)
    ensures ',' !in r.id
  {
    ParseIntOfNatToString(a.id);
    var id := NatToString(a.id);
    assert forall i :: 0 <= i < |id| ==> IsDigit(id[i]);
    Repository(id, a.path, a.url, a.branch, a.topics)
  }

  /** Projects with different numeric ids get different string ids. */
  lemma ToRepositoryIdInjective(a: ApiRepository, b: ApiRepository)
    requires a.id != b.id
    ensures ToRepository(a).id != ToRepository(b).id
  {
    var ra, rb := ToRepository(a), ToRepository(b);
    assert ParseInt(ra.id) != ParseInt(rb.id);
  }

  /** `path.toLowerCase().split("/")[0]`: the lower-cased owner (user or group) of a path. */
  function OwnerSegment(path: string): string
  {
    Split(Lower(path), '/')[0]
  }

  /** `required.every(t => topics?.includes(t))`: an absent topic list holds no topic. */
  predicate HasAllTopics(required: seq<string>, topics: Option<seq<string>>)
  {
    forall i :: 0 <= i < |required| ==> topics.Some? && required[i] in topics.value
  }

  /** `s.findIndex(r => r.path === path)`: the first index with that path, or -1. */
  function FindIndex(s: seq<Repository>, path: string): (r: int)
    ensures -1 <= r < |s|
    ensures r >= 0 ==> s[r].path == path && forall j :: 0 <= j < r ==> s[j].path != path
    ensures r == -1 <==> forall j :: 0 <= j < |s| ==> s[j].path != path
  {
    if |s| == 0 then -1
    else if s[0].path == path then 0
    else
      var k := FindIndex(s[1..], path);
      assert forall j :: 1 <= j < |s| ==> s[j] == s[1..][j - 1];
      if k == -1 then -1 else k + 1
  }

  /**
   * `s.filter((repo, index, self) => index === self.findIndex(r => r.path === repo.path))`,
   * over the indices from `from` on.
   */
  function KeepFirstFrom(s: seq<Repository>, from: nat): seq<Repository>
    requires from <= |s|
    decreases |s| - from
  {
    if from == |s| then []
    else if FindIndex(s, s[from].path) == from then [s[from]] + KeepFirstFrom(s, from + 1)
    else KeepFirstFrom(s, from + 1)
  }

  /** De-duplication by path, keeping the first repository for each path. */
  function DedupByPath(s: seq<Repository>): seq<Repository>
  {
    KeepFirstFrom(s, 0)
  }

  predicate UniquePaths(s: seq<Repository>)
  {
    forall i, j :: 0 <= i < j < |s| ==> s[i].path != s[j].path
  }

  /** The filter from `from` on keeps only repositories at first-occurrence indices at or after `from`. */
  lemma {:induction false} KeepFirstSound(s: seq<Repository>, from: nat)
    requires from <= |s|
    ensures forall x :: x in KeepFirstFrom(s, from) ==>
      exists i :: from <= i < |s| && s[i] == x && FindIndex(s, x.path) == i
    decreases |s| - from
  {
    if from < |s| {
      KeepFirstSound(s, from + 1);
    }
  }

  /** ... and keeps every one of them. */
  lemma {:induction false} KeepFirstComplete(s: seq<Repository>, from: nat)
    requires from <= |s|
    ensures forall i :: from <= i < |s| && FindIndex(s, s[i].path) == i ==> s[i] in KeepFirstFrom(s, from)
    decreases |s| - from
  {
    if from < |s| {
      KeepFirstComplete(s, from + 1);
    }
  }

  /** No two repositories the filter keeps share a path. */
  lemma {:induction false} KeepFirstUnique(s: seq<Repository>, from: nat)
    requires from <= |s|
    ensures UniquePaths(KeepFirstFrom(s, from))
    decreases |s| - from
  {
    if from < |s| && FindIndex(s, s[from].path) == from {
      KeepFirstUnique(s, from + 1);
      KeepFirstSound(s, from + 1);
      var rest := KeepFirstFrom(s, from + 1);
      var r := [s[from]] + rest;
      forall j | 0 <= j < |rest| ensures rest[j].path != s[from].path {
        assert rest[j] in rest;
        var i :| from + 1 <= i < |s| && s[i] == rest[j] && FindIndex(s, rest[j].path) == i;
      }
      forall i, j | 0 <= i < j < |r| ensures r[i].path != r[j].path {
        assert r[j] == rest[j - 1];
        if i > 0 {
          assert r[i] == rest[i - 1];
        }
      }
    } else if from < |s| {
      KeepFirstUnique(s, from + 1);
    }
  }

  /**
   * De-duplication keeps one repository per path: paths in the result are unique, every
   * kept repository is the first in the input with its path, and every input path survives.
   */
  lemma DedupByPathProperties(s: seq<Repository>)
    ensures UniquePaths(DedupByPath(s))
    ensures forall x :: x in DedupByPath(s) ==> x in s && s[FindIndex(s, x.path)] == x
    ensures forall x :: x in s ==> exists y :: y in DedupByPath(s) && y.path == x.path
  {
    KeepFirstSound(s, 0);
    KeepFirstComplete(s, 0);
    KeepFirstUnique(s, 0);
    var r := DedupByPath(s);
    forall x | x in r ensures x in s && s[FindIndex(s, x.path)] == x {
      var i :| 0 <= i < |s| && s[i] == x && FindIndex(s, x.path) == i;
    }
    forall x | x in s ensures exists y :: y in r && y.path == x.path {
      var k := FindIndex(s, x.path);
      assert k >= 0;
      assert FindIndex(s, s[k].path) == k;
      assert s[k] in r;
    }
  }

  /** `s[i]` passes `p`, and no passing repository before it has its path. */
  predicate EarliestWith(s: seq<Repository>, p: Repository -> bool, i: int)
  {
    && 0 <= i < |s| && p(s[i])
    && forall j :: 0 <= j < i && p(s[j]) ==> s[j].path != s[i].path
  }

  /** Every path some passing repository has has a passing repository that comes first. */
  lemma {:induction false} EarliestExists(s: seq<Repository>, p: Repository -> bool, i: nat)
    requires i < |s| && p(s[i])
    ensures exists e :: 0 <= e <= i && EarliestWith(s, p, e) && s[e].path == s[i].path
    decreases i
  {
    if j :| 0 <= j < i && p(s[j]) && s[j].path == s[i].path {
      EarliestExists(s, p, j);
    } else {
      assert EarliestWith(s, p, i);
    }
  }

  /** The earliest passing repository for a path survives the filter and the de-duplication. */
  lemma DedupKeepsEarliest(s: seq<Repository>, p: Repository -> bool, i: nat)
    requires EarliestWith(s, p, i)
    ensures s[i] in DedupByPath(Filter(s, p))
  {
    var f := Filter(s, p);
    var path := (r: Repository) => r.path;
    FilterKeepsEarliest(s, p, path, i);
    var k :| 0 <= k < |f| && f[k] == s[i] && forall j :: 0 <= j < k ==> path(f[j]) != path(s[i]);
    assert FindIndex(f, f[k].path) == k by {
      var m := FindIndex(f, f[k].path);
      assert m != -1;
    }
    KeepFirstComplete(f, 0);
  }

  /** Whatever survives the filter and the de-duplication is the earliest passing one for its path. */
  lemma DedupOnlyEarliest(s: seq<Repository>, p: Repository -> bool, x: Repository)
    requires x in DedupByPath(Filter(s, p))
    ensures exists i :: EarliestWith(s, p, i) && s[i] == x
  {
    var f := Filter(s, p);
    var d := DedupByPath(f);
    KeepFirstSound(f, 0);
    KeepFirstUnique(f, 0);
    assert x in f;
    var a :| 0 <= a < |s| && s[a] == x;
    EarliestExists(s, p, a);
    var e :| 0 <= e <= a && EarliestWith(s, p, e) && s[e].path == s[a].path;
    DedupKeepsEarliest(s, p, e);
    var u :| 0 <= u < |d| && d[u] == x;
    var v :| 0 <= v < |d| && d[v] == s[e];
    assert u == v;
  }

  /**
   * Filtering, then keeping the first per path, then sorting keeps exactly the repositories
   * that come first, among those passing, with their path: the first fetched one, since the
   * filter keeps the input order.
   */
  lemma SelectEarliest(s: seq<Repository>, p: Repository -> bool, key: Repository -> string,
                       leq: (string, string) -> bool)
    ensures forall x :: x in SortBy(DedupByPath(Filter(s, p)), key, leq) <==>
                        exists i :: EarliestWith(s, p, i) && s[i] == x
  {
    var d := DedupByPath(Filter(s, p));
    var sorted := SortBy(d, key, leq);
    forall x | x in sorted ensures exists i :: EarliestWith(s, p, i) && s[i] == x {
      assert x in multiset(sorted);
      DedupOnlyEarliest(s, p, x);
    }
    forall x | exists i :: EarliestWith(s, p, i) && s[i] == x ensures x in sorted {
      var i :| EarliestWith(s, p, i) && s[i] == x;
      DedupKeepsEarliest(s, p, i);
      assert x in multiset(d);
    }
  }

  /**
   * Sorting the de-duplicated list of `filtered` by any key returns only repositories that
   * were fetched and are wanted, and loses no wanted path: both handlers' `fetch` end this way.
   */
  lemma SelectSoundComplete(filtered: seq<Repository>, fetched: seq<Repository>, wanted: Repository -> bool,
                            key: Repository -> string, leq: (string, string) -> bool)
    requires forall r :: r in filtered <==> r in fetched && wanted(r)
    ensures forall r :: r in SortBy(DedupByPath(filtered), key, leq) ==> r in fetched && wanted(r)
    ensures forall r :: r in fetched && wanted(r) ==>
                        exists s :: s in SortBy(DedupByPath(filtered), key, leq) && s.path == r.path
  {
    var d := DedupByPath(filtered);
    var sorted := SortBy(d, key, leq);
    DedupByPathProperties(filtered);
    forall r | r in sorted ensures r in d {
      assert r in multiset(sorted);
    }
    forall r | r in fetched && wanted(r) ensures exists s :: s in sorted && s.path == r.path {
      var s :| s in d && s.path == r.path;
      assert s in multiset(d);
    }
  }

  /** Without repeated paths, de-duplication changes nothing. */
  lemma {:induction false} DedupUnique(s: seq<Repository>, from: nat)
    requires UniquePaths(s)
    requires from <= |s|
    ensures KeepFirstFrom(s, from) == s[from..]
    decreases |s| - from
  {
    if from < |s| {
      DedupUnique(s, from + 1);
      assert FindIndex(s, s[from].path) == from;
      assert s[from..] == [s[from]] + s[from + 1..];
    }
  }

  /** Reordering a list with unique paths keeps them unique. */
  lemma PermutationKeepsUniquePaths(d: seq<Repository>, s: seq<Repository>)
    requires UniquePaths(d)
    requires multiset(s) == multiset(d)
    ensures UniquePaths(s)
  {
    forall i, j | 0 <= i < j < |s| ensures s[i].path != s[j].path {
      if s[i].path == s[j].path {
        assert s[i] in multiset(d) && s[j] in multiset(d);
        var a :| 0 <= a < |d| && d[a] == s[i];
        var b :| 0 <= b < |d| && d[b] == s[j];
        UniqueCount(d, a);
        TwoOccurrences(s, i, j);
      }
    }
  }

  lemma TwoOccurrences(s: seq<Repository>, i: nat, j: nat)
    requires i < j < |s| && s[i] == s[j]
    ensures multiset(s)[s[i]] >= 2
  {
    assert s == s[..i] + [s[i]] + s[i + 1..j] + [s[j]] + s[j + 1..];
  }

  lemma {:induction false} UniqueCount(d: seq<Repository>, a: nat)
    requires UniquePaths(d) && a < |d|
    ensures multiset(d)[d[a]] == 1
  {
    if a == 0 {
      assert d == [d[0]] + d[1..];
      assert d[0] !in d[1..] by {
        forall k | 0 <= k < |d[1..]| ensures d[1..][k] != d[0] {
          assert d[1..][k] == d[k + 1];
        }
      }
    } else {
      var last := d[|d| - 1];
      if a == |d| - 1 {
        assert d == d[..a] + [last];
        assert last !in d[..a] by {
          forall k | 0 <= k < a ensures d[..a][k] != last {
            assert d[..a][k] == d[k];
          }
        }
      } else {
        assert d == [d[0]] + d[1..];
        UniqueCount(d[1..], a - 1);
        assert d[1..][a - 1] == d[a];
        assert d[0] != d[a];
      }
    }
  }
}

/**
 * The GitHub handler: its event allow-list, the paginated repository listing followed by
 * the owner, topic and allow-list filters, de-duplication by path and the sort by path, and
 * the decision whether a webhook's repository is to be updated. The API calls are
 * parameters: `listPage` answers the listing request for one page, `lookup` the request for
 * one repository, and `leq` is the string order `localeCompare` implements.
 */
module GitHub {
  import opened Wrappers
  import opened Strings
  import opened Seqs
  import opened Batches
  import opened Handlers
  import opened Selection

  /** `new GitHubHandler(config)`: the base handler, allowing exactly these events. */
  method NewGitHubHandler(config: HandlerConfig) returns (h: Handler)
    ensures fresh(h)
    ensures h.config == config
    ensures forall event :: h.CheckEvent(event) <==> event == "push" || event == "pull_request" || event == "issues"
  {
    h := new Handler(config);
    h.SetAllowedEvents(["push", "pull_request", "issues"]);
  }

  // ---------------------------------------------------------------------------
  // Listing

  /** One page of `repos.listForAuthenticatedUser`: its items, or the error it rejected with. */
  type PageFunction = nat -> Result<seq<ApiRepository>>

  /** Page `n` ends the listing: it failed or it was empty. */
  predicate StopsAt(listPage: PageFunction, n: nat)
  {
    listPage(n).Failure? || |listPage(n).value| == 0
  }

  function ToRepositories(items: seq<ApiRepository>): (r: seq<Repository>)
    ensures |r| == |items|
    ensures forall i :: 0 <= i < |r| ==> r[i] == ToRepository(items[i])
  {
    seq(|items|, i requires 0 <= i < |items| => ToRepository(items[i]))
  }

  /** Pages `from` up to `to` all returned items. */
  predicate NonEmptyPages(listPage: PageFunction, from: nat, to: nat)
  {
    forall j :: from <= j < to ==> !StopsAt(listPage, j)
  }

  /** The repositories of pages `from` up to `to`, concatenated in page order. */
  function Collected(listPage: PageFunction, from: nat, to: nat): seq<Repository>
    requires from <= to
    requires NonEmptyPages(listPage, from, to)
    decreases (to as int) - (from as int)
  {
    if from == to then []
    else
      assert !StopsAt(listPage, from);
      ToRepositories(listPage(from).value) + Collected(listPage, from + 1, to)
  }

  /**
   * The listing, one page at a time from `page`: a failed page aborts the fetch with
   * "Could not fetch repositories: ..."; an empty page ends it. `stop` is a page known to
   * end it, which bounds the recursion.
   */
  function Paginate(listPage: PageFunction, page: nat, stop: nat): Result<seq<Repository>>
    requires page <= stop && StopsAt(listPage, stop)
    decreases stop - page
  {
    var response := listPage(page);
    if response.Failure? then Failure("Could not fetch repositories: " + response.error)
    else if |response.value| == 0 then Success([])
    else
      var rest := Paginate(listPage, page + 1, stop);
      if rest.Failure? then rest else Success(ToRepositories(response.value) + rest.value)
  }

  /** The first page at or after `page` that ends the listing. */
  function FirstStop(listPage: PageFunction, page: nat, stop: nat): (k: nat)
    requires page <= stop && StopsAt(listPage, stop)
    ensures page <= k <= stop && StopsAt(listPage, k)
    ensures NonEmptyPages(listPage, page, k)
    decreases stop - page
  {
    if StopsAt(listPage, page) then page else FirstStop(listPage, page + 1, stop)
  }

  /**
   * The listing requests pages until the first one that fails or is empty. If that page
   * failed, the fetch fails with its error; otherwise the result is every earlier page's
   * repositories, concatenated in page order.
   */
  lemma {:induction false} PaginateCollects(listPage: PageFunction, page: nat, stop: nat)
    requires page <= stop && StopsAt(listPage, stop)
    ensures var k := FirstStop(listPage, page, stop);
      Paginate(listPage, page, stop) ==
        if listPage(k).Failure? then Failure("Could not fetch repositories: " + listPage(k).error)
        else Success(Collected(listPage, page, k))
    decreases stop - page
  {
    if !StopsAt(listPage, page) {
      PaginateCollects(listPage, page + 1, stop);
    }
  }

  // ---------------------------------------------------------------------------
  // Selection

  /** The owner, topic and allow-list filters, applied in that order. */
  function Filtered(config: HandlerConfig, fetched: seq<Repository>): seq<Repository>
  {
    var byOrg := if config.orgs.Some? then Filter(fetched, (r: Repository) => OwnerSegment(r.path) in config.orgs.GetOr([])) else fetched;
    var byUser := if config.users.Some? then Filter(byOrg, (r: Repository) => OwnerSegment(r.path) in config.users.GetOr([])) else byOrg;
    var byTopic := if config.topics.Some? && |config.topics.GetOr([])| > 0
      then Filter(byUser, (r: Repository) => HasAllTopics(config.topics.GetOr([]), r.topics)) else byUser;
    if |config.repositories| > 0 then Filter(byTopic, (r: Repository) => r.path in config.repositories) else byTopic
  }

  /** A fetched repository passes every configured filter. */
  predicate Wanted(config: HandlerConfig, r: Repository)
  {
    && (config.orgs.Some? ==> OwnerSegment(r.path) in config.orgs.value)
    && (config.users.Some? ==> OwnerSegment(r.path) in config.users.value)
    && (config.topics.Some? && |config.topics.value| > 0 ==> HasAllTopics(config.topics.value, r.topics))
    && (|config.repositories| > 0 ==> r.path in config.repositories)
  }

  /** What `fetch` does to the collected list: filter, keep the first per path, sort by path. */
  function Select(config: HandlerConfig, fetched: seq<Repository>, leq: (string, string) -> bool): seq<Repository>
  {
    SortBy(DedupByPath(Filtered(config, fetched)), (r: Repository) => r.path, leq)
  }

  /** The four filters in a row are one filter by `Wanted`: the fetched order is kept. */
  lemma FilteredIsFilter(config: HandlerConfig, fetched: seq<Repository>)
    ensures Filtered(config, fetched) == Filter(fetched, (r: Repository) => Wanted(config, r))
  {
    var byTopics := config.topics.Some? && |config.topics.GetOr([])| > 0;
    var org := (r: Repository) => OwnerSegment(r.path) in config.orgs.GetOr([]);
    var user := (r: Repository) => OwnerSegment(r.path) in config.users.GetOr([]);
    var topic := (r: Repository) => HasAllTopics(config.topics.GetOr([]), r.topics);
    var listed := (r: Repository) => r.path in config.repositories;
    var w1 := x => config.orgs.Some? ==> org(x);
    var w2 := x => w1(x) && (config.users.Some? ==> user(x));
    var w3 := x => w2(x) && (byTopics ==> topic(x));
    var w4 := x => w3(x) && (|config.repositories| > 0 ==> listed(x));
    var byOrg := if config.orgs.Some? then Filter(fetched, org) else fetched;
    var byUser := if config.users.Some? then Filter(byOrg, user) else byOrg;
    var byTopic := if byTopics then Filter(byUser, topic) else byUser;
    assert Filtered(config, fetched) == if |config.repositories| > 0 then Filter(byTopic, listed) else byTopic;
    assert byOrg == Filter(fetched, w1) by {
      FilterWhen(fetched, config.orgs.Some?, org, w1);
    }
    assert byUser == Filter(fetched, w2) by {
      FilterThenWhen(fetched, w1, config.users.Some?, user, w2);
    }
    assert byTopic == Filter(fetched, w3) by {
      FilterThenWhen(fetched, w2, byTopics, topic, w3);
    }
    FilterThenWhen(fetched, w3, |config.repositories| > 0, listed, w4);
    FilterSame(fetched, w4, (r: Repository) => Wanted(config, r));
  }

  /** The filters keep exactly the wanted repositories. */
  lemma FilteredWanted(config: HandlerConfig, fetched: seq<Repository>)
    ensures forall r :: r in Filtered(config, fetched) <==> r in fetched && Wanted(config, r)
  {
  }

  /**
   * Every repository `fetch` returns was fetched and passes every filter: with both orgs and
   * users set its lower-cased owner is in both lists.
   */
  lemma SelectSound(config: HandlerConfig, fetched: seq<Repository>, leq: (string, string) -> bool)
    ensures forall r :: r in Select(config, fetched, leq) ==> r in fetched && Wanted(config, r)
  {
    FilteredWanted(config, fetched);
    SelectSoundComplete(Filtered(config, fetched), fetched, (r: Repository) => Wanted(config, r), (r: Repository) => r.path, leq);
  }


  /** Every wanted fetched repository's path is in the result. */
  lemma SelectComplete(config: HandlerConfig, fetched: seq<Repository>, leq: (string, string) -> bool)
    ensures forall r :: r in fetched && Wanted(config, r) ==>
      exists s :: s in Select(config, fetched, leq) && s.path == r.path
  {
    FilteredWanted(config, fetched);
    SelectSoundComplete(Filtered(config, fetched), fetched, (r: Repository) => Wanted(config, r), (r: Repository) => r.path, leq);
  }

  /**
   * `fetch` returns exactly the first fetched repository of each path among the wanted ones:
   * the filters keep the fetched order, and de-duplication keeps the first per path.
   */
  lemma SelectKeepsFirstFetched(config: HandlerConfig, fetched: seq<Repository>, leq: (string, string) -> bool)
    ensures forall x :: x in Select(config, fetched, leq) <==>
                        exists i :: EarliestWith(fetched, (r: Repository) => Wanted(config, r), i) && fetched[i] == x
  {
    var wanted := (r: Repository) => Wanted(config, r);
    FilteredIsFilter(config, fetched);
    assert Select(config, fetched, leq) == SortBy(DedupByPath(Filter(fetched, wanted)), (r: Repository) => r.path, leq);
    SelectEarliest(fetched, wanted, (r: Repository) => r.path, leq);
  }



  /**
   * The result is the de-duplicated filtered list, reordered: paths are unique and, for a
   * total preorder `leq`, in ascending order.
   */
  lemma SelectOrdered(config: HandlerConfig, fetched: seq<Repository>, leq: (string, string) -> bool)
    requires TotalPreorder(leq)
    ensures multiset(Select(config, fetched, leq)) == multiset(DedupByPath(Filtered(config, fetched)))
    ensures SortedBy(Select(config, fetched, leq), (r: Repository) => r.path, leq)
    ensures UniquePaths(Select(config, fetched, leq))
  {
    var d := DedupByPath(Filtered(config, fetched));
    var s := Select(config, fetched, leq);
    SortBySorted(d, (r: Repository) => r.path, leq);
    DedupByPathProperties(Filtered(config, fetched));
    PermutationKeepsUniquePaths(d, s);
  }

  /**
   * `fetch()`: request pages from 0 until one comes back empty, pushing every item, then
   * select. `stop` is any page that fails or is empty, so the loop ends.
   */
  method Fetch(config: HandlerConfig, listPage: PageFunction, leq: (string, string) -> bool, ghost stop: nat)
    returns (result: Result<seq<Repository>>)
    requires StopsAt(listPage, stop)
    ensures var collected := Paginate(listPage, 0, stop);
      && (collected.Failure? ==> result == Failure(collected.error))
      && (collected.Success? ==> result == Success(Select(config, collected.value, leq)))
  {
    var repositories: seq<Repository> := [];
    var page: nat := 0;
    PaginateCollects(listPage, 0, stop);
    ghost var k := FirstStop(listPage, 0, stop);
    while true
      invariant page <= k
      invariant NonEmptyPages(listPage, 0, page)
      invariant repositories == Collected(listPage, 0, page)
      decreases k - page
    {
      var response := listPage(page);
      if response.Failure? {
        assert StopsAt(listPage, page) && page == k;
        assert Paginate(listPage, 0, stop) == Failure("Could not fetch repositories: " + response.error);
        return Failure("Could not fetch repositories: " + response.error);
      }
      repositories := PushAll(repositories, response.value);
      if |response.value| == 0 {
        assert StopsAt(listPage, page) && page == k;
        assert ToRepositories(response.value) == [];
        assert repositories == Collected(listPage, 0, k);
        assert Paginate(listPage, 0, stop) == Success(repositories);
        break;
      }
      CollectedSnoc(listPage, 0, page);
      page := page + 1;
    }
    return Success(Select(config, repositories, leq));
  }

  /** `response.data.forEach(repo => repositories.push(...))` */
  method PushAll(repositories: seq<Repository>, items: seq<ApiRepository>) returns (r: seq<Repository>)
    ensures r == repositories + ToRepositories(items)
  {
    r := repositories;
    for i := 0 to |items|
      invariant r == repositories + ToRepositories(items[..i])
    {
      assert ToRepositories(items[..i + 1]) == ToRepositories(items[..i]) + [ToRepository(items[i])];
      r := r + [ToRepository(items[i])];
    }
    assert items[..|items|] == items;
  }

  lemma {:induction false} CollectedSnoc(listPage: PageFunction, from: nat, to: nat)
    requires from <= to
    requires NonEmptyPages(listPage, from, to) && !StopsAt(listPage, to)
    ensures Collected(listPage, from, to + 1) == Collected(listPage, from, to) + ToRepositories(listPage(to).value)
    decreases (to as int) - (from as int)
  {
    if from < to {
      CollectedSnoc(listPage, from + 1, to);
    }
  }

  // ---------------------------------------------------------------------------
  // Webhook check

  /** The part of a GitHub webhook payload the check reads. */
  datatype GitHubPayload = GitHubPayload(fullName: string, defaultBranch: string, topics: Option<seq<string>>)

  /** `repos.get({owner, repo})`: the repository, or the error it rejected with. */
  type Lookup = (string, Option<string>) -> Result<ApiRepository>

  /** The `x-github-event` header, or "not_found" when it is absent. */
  function EventOf(headers: Headers): string
  {
    if "x-github-event" in headers then headers["x-github-event"] else "not_found"
  }

  /** The ownership test: only when both lists are set and neither holds the owner as written. */
  predicate OwnerRejected(config: HandlerConfig, owner: string)
  {
    config.orgs.Some? && owner !in config.orgs.value && config.users.Some? && owner !in config.users.value
  }

  /** The checks after the event test, then the lookup and the branch override. */
  function Screen(config: HandlerConfig, payload: GitHubPayload, lookup: Lookup): Result<Option<Repository>>
  {
    var parts := Split(payload.fullName, '/');
    var owner := parts[0];
    var name := if |parts| > 1 then Some(parts[1]) else None;
    if OwnerRejected(config, owner) then Success(None)
    else if config.topics.Some? && |config.topics.value| > 0 && !HasAllTopics(config.topics.value, payload.topics) then Success(None)
    else if |config.repositories| > 0 && payload.fullName !in config.repositories then Success(None)
    else
      var fetched := lookup(owner, name);
      if fetched.Failure? then Failure("Could not fetch repository: " + fetched.error)
      else
        var repository := ToRepository(fetched.value);
        Success(Some(if payload.defaultBranch != "" then repository.(branch := Some(payload.defaultBranch)) else repository))
  }

  /** `check(headers, payload)` */
  function Check(h: Handler, headers: Headers, payload: GitHubPayload, lookup: Lookup): Result<Option<Repository>>
    reads h
  {
    if !h.CheckEvent(EventOf(headers)) then Failure("Event not allowed") else Screen(h.config, payload, lookup)
  }

  /** The check throws "Event not allowed" exactly when the header's event (or "not_found") is not allowed. */
  lemma CheckEventGate(h: Handler, headers: Headers, payload: GitHubPayload, lookup: Lookup)
    ensures Check(h, headers, payload, lookup) == Failure("Event not allowed") <==> !h.CheckEvent(EventOf(headers))
  {
    var r := Check(h, headers, payload, lookup);
    if h.CheckEvent(EventOf(headers)) && r.Failure? {
      var e := lookup(Split(payload.fullName, '/')[0], if |Split(payload.fullName, '/')| > 1 then Some(Split(payload.fullName, '/')[1]) else None).error;
      assert r.error == "Could not fetch repository: " + e;
      assert r.error[0] == 'C';
    }
  }

  /** The owner, topic and allow-list tests a payload must pass before the lookup. */
  predicate PassesScreens(config: HandlerConfig, payload: GitHubPayload)
  {
    && !OwnerRejected(config, Split(payload.fullName, '/')[0])
    && (config.topics.Some? && |config.topics.value| > 0 ==> HasAllTopics(config.topics.value, payload.topics))
    && (|config.repositories| > 0 ==> payload.fullName in config.repositories)
  }

  /**
   * The check has four outcomes. A disallowed event throws (`CheckEventGate`). A payload that
   * fails a screen resolves null. A failed lookup throws "Could not fetch repository: " and
   * the lookup's message. Otherwise it resolves with the looked-up repository (id, path, url,
   * topics), its branch replaced by the payload's default branch when that is non-empty.
   */
  lemma CheckAccepts(h: Handler, headers: Headers, payload: GitHubPayload, lookup: Lookup)
    ensures var r := Check(h, headers, payload, lookup);
      var parts := Split(payload.fullName, '/');
      var fetched := lookup(parts[0], if |parts| > 1 then Some(parts[1]) else None);
      && ((r.Success? && r.value.Some?) <==>
            h.CheckEvent(EventOf(headers)) && PassesScreens(h.config, payload) && fetched.Success?)
      && (h.CheckEvent(EventOf(headers)) && !PassesScreens(h.config, payload) ==> r == Success(None))
      && (h.CheckEvent(EventOf(headers)) && PassesScreens(h.config, payload) && fetched.Failure? ==>
            r == Failure("Could not fetch repository: " + fetched.error))
      && (r.Success? && r.value.Some? ==>
            && ParseInt(r.value.value.id) == Some(fetched.value.id)
            && r.value.value.path == fetched.value.path
            && r.value.value.url == fetched.value.url
            && r.value.value.topics == fetched.value.topics
            && r.value.value.branch == (if payload.defaultBranch != "" then Some(payload.defaultBranch) else fetched.value.branch))
  {
  }

  /**
   * With `users` unset the ownership test never rejects, whatever `orgs` holds, although the
   * listing filters on `orgs` alone.
   */
  lemma CheckIgnoresOrgsAlone(config: HandlerConfig, payload: GitHubPayload, lookup: Lookup)
    requires config.users.None?
    ensures Screen(config, payload, lookup) == Screen(config.(orgs := None), payload, lookup)
  {
  }
}

/**
 * The GitLab handler: its event allow-list, the project listing followed by the owner and
 * allow-list filters, de-duplication by path and the sort by id, the webhook check, and the
 * preconditions for approving a merge request. The API calls are parameters: `projectsAll`
 * answers the listing for a topic filter, `show` the lookup of one project, and the
 * current user, the fetched merge request and the approval call are given as their answers.
 */
module GitLab {
  import opened Wrappers
  import opened Strings
  import opened Seqs
  import opened Batches
  import opened Handlers
  import opened Selection

  /** `new GitLabHandler(config)`: the base handler, allowing exactly these events. */
  method NewGitLabHandler(config: HandlerConfig) returns (h: Handler)
    ensures fresh(h)
    ensures h.config == config
    ensures forall event :: h.CheckEvent(event) <==> event == "push" || event == "merge_request" || event == "issue"
  {
    h := new Handler(config);
    h.SetAllowedEvents(["push", "merge_request", "issue"]);
  }

  // ---------------------------------------------------------------------------
  // Listing

  /** `Projects.all({topic})`: the projects, or the error it rejected with. */
  type ProjectsFunction = string -> Result<seq<ApiRepository>>

  /** The `Repository` built from a GitLab project: an absent topic list becomes `[]`. */
  function ProjectToRepository(p: ApiRepository): (r: Repository)
    ensures r.path == p.path && r.url == p.url && r.branch == p.branch
    ensures r.topics == Some(p.topics.GetOr([]))
    ensures ParseInt(r.id) == Some(p.id) && ',' !in r.id
  {
    ToRepository(p).(topics := Some(p.topics.GetOr([])))
  }

  function ProjectsToRepositories(projects: seq<ApiRepository>): (r: seq<Repository>)
    ensures |r| == |projects|
    ensures forall i :: 0 <= i < |r| ==> r[i] == ProjectToRepository(projects[i])
  {
    seq(|projects|, i requires 0 <= i < |projects| => ProjectToRepository(projects[i]))
  }

  /** The lower-cased owner is in `orgs` or in `users`: the union the listing filters on. */
  predicate OwnerListed(orgs: seq<string>, users: seq<string>, owner: string)
  {
    owner in orgs || owner in users
  }

  /** The owner filter (when either list is non-empty), then the allow-list filter. */
  function Filtered(config: HandlerConfig, fetched: seq<Repository>): seq<Repository>
  {
    var orgs, users := config.orgs.GetOr([]), config.users.GetOr([]);
    var byOwner := if |orgs| > 0 || |users| > 0
      then Filter(fetched, (r: Repository) => OwnerListed(orgs, users, OwnerSegment(r.path))) else fetched;
    if |config.repositories| > 0 then Filter(byOwner, (r: Repository) => r.path in config.repositories) else byOwner
  }

  /** A fetched repository passes both filters. */
  predicate Wanted(config: HandlerConfig, r: Repository)
  {
    var orgs, users := config.orgs.GetOr([]), config.users.GetOr([]);
    && (|orgs| > 0 || |users| > 0 ==> OwnerListed(orgs, users, OwnerSegment(r.path)))
    && (|config.repositories| > 0 ==> r.path in config.repositories)
  }

  /** What `fetch` does to the listed projects: filter, keep the first per path, sort by id. */
  function Select(config: HandlerConfig, fetched: seq<Repository>, leq: (string, string) -> bool): seq<Repository>
  {
    SortBy(DedupByPath(Filtered(config, fetched)), (r: Repository) => r.id, leq)
  }

  /** The topics sent with the listing request, joined by ",". */
  function TopicFilter(config: HandlerConfig): string
  {
    Join(config.topics.GetOr([]), ',')
  }

  /** The owner filter and the allow-list filter are one filter by `Wanted`: the listed order is kept. */
  lemma FilteredIsFilter(config: HandlerConfig, fetched: seq<Repository>)
    ensures Filtered(config, fetched) == Filter(fetched, (r: Repository) => Wanted(config, r))
  {
    var orgs, users := config.orgs.GetOr([]), config.users.GetOr([]);
    var byOwners := |orgs| > 0 || |users| > 0;
    var owner := (r: Repository) => OwnerListed(orgs, users, OwnerSegment(r.path));
    var listed := (r: Repository) => r.path in config.repositories;
    var w1 := x => byOwners ==> owner(x);
    var w2 := x => w1(x) && (|config.repositories| > 0 ==> listed(x));
    var byOwner := if byOwners then Filter(fetched, owner) else fetched;
    assert Filtered(config, fetched) == if |config.repositories| > 0 then Filter(byOwner, listed) else byOwner;
    assert byOwner == Filter(fetched, w1) by {
      FilterWhen(fetched, byOwners, owner, w1);
    }
    FilterThenWhen(fetched, w1, |config.repositories| > 0, listed, w2);
    FilterSame(fetched, w2, (r: Repository) => Wanted(config, r));
  }

  /** The filters keep exactly the wanted repositories. */
  lemma FilteredWanted(config: HandlerConfig, fetched: seq<Repository>)
    ensures forall r :: r in Filtered(config, fetched) <==> r in fetched && Wanted(config, r)
  {
  }

  /**
   * Every repository `fetch` returns was listed and passes the filters: when either owner
   * list is non-empty its lower-cased owner is in one of them (a union), and with a
   * non-empty allow-list its path is on it.
   */
  lemma SelectSound(config: HandlerConfig, fetched: seq<Repository>, leq: (string, string) -> bool)
    ensures forall r :: r in Select(config, fetched, leq) ==> r in fetched && Wanted(config, r)
  {
    FilteredWanted(config, fetched);
    SelectSoundComplete(Filtered(config, fetched), fetched, (r: Repository) => Wanted(config, r), (r: Repository) => r.id, leq);
  }


  /** Every wanted listed repository's path is in the result. */
  lemma SelectComplete(config: HandlerConfig, fetched: seq<Repository>, leq: (string, string) -> bool)
    ensures forall r :: r in fetched && Wanted(config, r) ==>
      exists s :: s in Select(config, fetched, leq) && s.path == r.path
  {
    FilteredWanted(config, fetched);
    SelectSoundComplete(Filtered(config, fetched), fetched, (r: Repository) => Wanted(config, r), (r: Repository) => r.id, leq);
  }

  /**
   * `fetch` returns exactly the first fetched repository of each path among the wanted ones:
   * the filters keep the fetched order, and de-duplication keeps the first per path.
   */
  lemma SelectKeepsFirstFetched(config: HandlerConfig, fetched: seq<Repository>, leq: (string, string) -> bool)
    ensures forall x :: x in Select(config, fetched, leq) <==>
                        exists i :: EarliestWith(fetched, (r: Repository) => Wanted(config, r), i) && fetched[i] == x
  {
    var wanted := (r: Repository) => Wanted(config, r);
    FilteredIsFilter(config, fetched);
    assert Select(config, fetched, leq) == SortBy(DedupByPath(Filter(fetched, wanted)), (r: Repository) => r.id, leq);
    SelectEarliest(fetched, wanted, (r: Repository) => r.id, leq);
  }



  /**
   * The result reorders the de-duplicated list by the string id (not the number): paths are
   * unique and, for a total preorder `leq`, ids ascend.
   */
  lemma SelectOrdered(config: HandlerConfig, fetched: seq<Repository>, leq: (string, string) -> bool)
    requires TotalPreorder(leq)
    ensures multiset(Select(config, fetched, leq)) == multiset(DedupByPath(Filtered(config, fetched)))
    ensures SortedBy(Select(config, fetched, leq), (r: Repository) => r.id, leq)
    ensures UniquePaths(Select(config, fetched, leq))
  {
    var d := DedupByPath(Filtered(config, fetched));
    SortBySorted(d, (r: Repository) => r.id, leq);
    DedupByPathProperties(Filtered(config, fetched));
    PermutationKeepsUniquePaths(d, Select(config, fetched, leq));
  }

  /**
   * `fetch()`: one listing request with the configured topics joined by ",", every project
   * pushed as a repository, then select. A rejected request fails the fetch.
   */
  method Fetch(config: HandlerConfig, projectsAll: ProjectsFunction, leq: (string, string) -> bool)
    returns (result: Result<seq<Repository>>)
    ensures var response := projectsAll(TopicFilter(config));
      && (response.Failure? ==> result == Failure("Failed to fetch repositories: " + response.error))
      && (response.Success? ==> result == Success(Select(config, ProjectsToRepositories(response.value), leq)))
  {
    var response := projectsAll(Join(config.topics.GetOr([]), ','));
    if response.Failure? {
      return Failure("Failed to fetch repositories: " + response.error);
    }
    var projects := response.value;
    var repositories: seq<Repository> := [];
    for i := 0 to |projects|
      invariant repositories == ProjectsToRepositories(projects[..i])
    {
      assert ProjectsToRepositories(projects[..i + 1]) == repositories + [ProjectToRepository(projects[i])];
      repositories := repositories + [ProjectToRepository(projects[i])];
    }
    assert projects[..|projects|] == projects;
    return Success(Select(config, repositories, leq));
  }

  // ---------------------------------------------------------------------------
  // Webhook check

  /** The part of a GitLab webhook payload the check reads. */
  datatype GitLabPayload = GitLabPayload(objectKind: string, projectId: nat, path: string)

  /** What the check resolves with: the repository or `null`, and the event. */
  datatype GitLabCheck = GitLabCheck(repo: Option<Repository>, event: string)

  /** `Projects.show(id)`, with a rejection turned into `null`. */
  type ProjectLookup = nat -> Option<ApiRepository>

  /**
   * The error a disallowed event raises: building its message calls `getAllowedEvents`,
   * which no handler defines, so the call itself throws first.
   */
  const DisallowedEventError := "this.getAllowedEvents is not a function"

  /** The checks after the event test: owner, allow-list, lookup, then topics. */
  function Screen(config: HandlerConfig, payload: GitLabPayload, show: ProjectLookup): Option<Repository>
  {
    var orgs, users := config.orgs.GetOr([]), config.users.GetOr([]);
    var topics := config.topics.GetOr([]);
    var owner := Lower(Split(payload.path, '/')[0]);
    if (|orgs| > 0 || |users| > 0) && !OwnerListed(orgs, users, owner) then None
    else if |config.repositories| > 0 && payload.path !in config.repositories then None
    else if show(payload.projectId).None? then None
    else
      var repository := ProjectToRepository(show(payload.projectId).value);
      if |topics| > 0 && !HasAllTopics(topics, repository.topics) then None
      else Some(repository)
  }

  /** `check(headers, payload)`; the headers are not read. */
  function Check(h: Handler, payload: GitLabPayload, show: ProjectLookup): Result<GitLabCheck>
    reads h
  {
    if !h.CheckEvent(payload.objectKind) then Failure(DisallowedEventError)
    else Success(GitLabCheck(Screen(h.config, payload, show), payload.objectKind))
  }

  /**
   * The check throws exactly for a disallowed `object_kind`; otherwise it resolves with that
   * event, and with a repository exactly when the owner and allow-list tests pass, the
   * project is found and carries every configured topic. The repository is the found project.
   */
  lemma CheckDecision(h: Handler, payload: GitLabPayload, show: ProjectLookup)
    ensures var r := Check(h, payload, show);
      var orgs, users := h.config.orgs.GetOr([]), h.config.users.GetOr([]);
      var topics := h.config.topics.GetOr([]);
      var found := show(payload.projectId);
      && (r.Failure? <==> !h.CheckEvent(payload.objectKind))
      && (r.Success? ==> r.value.event == payload.objectKind)
      && (r.Success? ==>
            (r.value.repo.Some? <==>
              && (|orgs| > 0 || |users| > 0 ==> OwnerListed(orgs, users, Lower(Split(payload.path, '/')[0])))
              && (|h.config.repositories| > 0 ==> payload.path in h.config.repositories)
              && found.Some?
              && (|topics| > 0 ==> HasAllTopics(topics, Some(found.value.topics.GetOr([]))))))
      && (r.Success? && r.value.repo.Some? ==> r.value.repo.value == ProjectToRepository(found.value))
  {
  }

  /**
   * The check and the listing agree on a project whose path is the payload's: the check
   * returns it exactly when the listing's filters keep it and it carries every configured
   * topic (the listing leaves the topic filter to the server).
   */
  lemma CheckAgreesWithFetch(config: HandlerConfig, payload: GitLabPayload, show: ProjectLookup)
    requires show(payload.projectId).Some? && show(payload.projectId).value.path == payload.path
    ensures var repository := ProjectToRepository(show(payload.projectId).value);
      var topics := config.topics.GetOr([]);
      Screen(config, payload, show) == (if Wanted(config, repository) && (|topics| > 0 ==> HasAllTopics(topics, repository.topics))
                                         then Some(repository) else None)
  {
    LowerFirstPart(payload.path);
  }

  /** `isMergeRequest(event)` */
  function IsMergeRequest(event: string): (r: bool)
    ensures r <==> event == "merge_request"
  {
    event == "merge_request"
  }

  /**
   * A handler allowing exactly the GitLab events never refuses a merge-request payload: the
   * check resolves, and the event it reports is the one `isMergeRequest` accepts.
   */
  lemma MergeRequestPassesGate(h: Handler, payload: GitLabPayload, show: ProjectLookup)
    requires forall event :: h.CheckEvent(event) <==> event == "push" || event == "merge_request" || event == "issue"
    requires IsMergeRequest(payload.objectKind)
    ensures Check(h, payload, show).Success?
    ensures IsMergeRequest(Check(h, payload, show).value.event)
  {
    assert h.CheckEvent("merge_request");
  }

  // ---------------------------------------------------------------------------
  // Approving a merge request

  /** A merge request as the handler lists it; the ids and the author are decimal strings. */
  datatype MergeRequest = MergeRequest(id: string, projectId: string, description: string, author: string)

  /** The merge request as the approver's `MergeRequests.show` returns it. */
  datatype FetchedMergeRequest = FetchedMergeRequest(state: string, approvalsBeforeMerge: Option<int>)

  /** How an approval attempt that did not throw ended. */
  datatype Approval = Approved | NotNeeded

  const AutomergeMarker := "**Automerge**: Enabled"

  /**
   * `approveMergeRequest(mr)`. `currentUser` is `Users.showCurrentUser()`'s id (or its
   * rejection), `fetched` the approver's lookup of the merge request (`None` when it
   * failed), `approve` the approval call's outcome.
   */
  function ApproveMergeRequest(config: HandlerConfig, mr: MergeRequest, currentUser: Result<nat>,
                               fetched: Option<FetchedMergeRequest>, approve: Outcome): Result<Approval>
  {
    if !Includes(mr.description, AutomergeMarker) then Failure("Automerge is not enabled")
    else if config.approveToken.None? || config.approveToken.value == "" then Failure("Approver token not set")
    else if currentUser.Failure? then Failure(currentUser.error)
    else if ParseInt(mr.author) != Some(currentUser.value) then Failure("Renovate-User is not the author of the merge request")
    else if fetched.None? then Failure("Failed to fetch merge request")
    else if fetched.value.state != "opened" then Failure("Merge Request is not open")
    else if fetched.value.approvalsBeforeMerge.None? || fetched.value.approvalsBeforeMerge.value == 0 then Success(NotNeeded)
    else if approve.Fail? then Failure("Failed to approve merge request: " + approve.error)
    else Success(Approved)
  }

  /** Every precondition of an approval. */
  ghost predicate MayApprove(config: HandlerConfig, mr: MergeRequest, currentUser: Result<nat>, fetched: Option<FetchedMergeRequest>)
  {
    && (exists i :: OccursAt(mr.description, AutomergeMarker, i))
    && config.approveToken.Some? && config.approveToken.value != ""
    && currentUser.Success? && ParseInt(mr.author) == Some(currentUser.value)
    && fetched.Some? && fetched.value.state == "opened"
  }

  /**
   * The call throws unless the description carries the marker, an approve token is set, the
   * current user is the author, and the fetched merge request is open. Past those, it
   * returns without approving when no approvals are required, and otherwise approves.
   */
  lemma ApprovePreconditions(config: HandlerConfig, mr: MergeRequest, currentUser: Result<nat>,
                             fetched: Option<FetchedMergeRequest>, approve: Outcome)
    ensures var r := ApproveMergeRequest(config, mr, currentUser, fetched, approve);
      && (!MayApprove(config, mr, currentUser, fetched) ==> r.Failure?)
      && (r == Success(NotNeeded) <==>
            MayApprove(config, mr, currentUser, fetched)
            && (fetched.value.approvalsBeforeMerge.None? || fetched.value.approvalsBeforeMerge.value == 0))
      && (r == Success(Approved) <==>
            MayApprove(config, mr, currentUser, fetched)
            && fetched.value.approvalsBeforeMerge.Some? && fetched.value.approvalsBeforeMerge.value != 0
            && approve.Pass?)
  {
  }

  /**
   * The author is compared through `parseInt`, which reads only the leading digits: an
   * author field "42 (bot)" is treated exactly as "42".
   */
  lemma AuthorReadLeniently(config: HandlerConfig, id: string, projectId: string, description: string,
                            currentUser: Result<nat>, fetched: Option<FetchedMergeRequest>, approve: Outcome)
    ensures ApproveMergeRequest(config, MergeRequest(id, projectId, description, "42 (bot)"), currentUser, fetched, approve)
         == ApproveMergeRequest(config, MergeRequest(id, projectId, description, "42"), currentUser, fetched, approve)
  {
    var author := "42 (bot)";
    assert author[2..][0] == ' ';
    assert LeadingDigits(author[2..]) == "";
    assert author[1..][1..] == author[2..];
    assert LeadingDigits(author[1..]) == "2";
    assert LeadingDigits(author) == "42";
    AllDigitsAreLeading("42");
  }
}

/**
 * Repositories, batches and batch identity.
 * A batch id is the SHA-1 hex digest of the batch's repository ids joined by ",".
 * SHA-1 itself is not modelled: it is the parameter `sha1`, an arbitrary function of the
 * joined string, so every property below holds whatever the digest does.
 */
module Batches {
  import opened Wrappers
  import opened Strings

  /** One version-control project, as the handlers produce it. */
  datatype Repository = Repository(
    id: string,
    path: string,
    url: string,
    branch: Option<string>,
    topics: Option<seq<string>>)

  /** The two work classes: scheduled ("cron") and webhook-triggered ("hook") batches. */
  datatype BatchType = Cron | Hook {
    /** The enum's string value. */
    function Value(): (r: string)
      ensures r == "cron" || r == "hook"
      ensures Cron? <==> r == "cron"
    {
      if Cron? then "cron" else "hook"
    }
  }

  /** The unit of schedulable work. (`type` is spelt `kind` here.) */
  datatype Batch = Batch(id: string, repositories: seq<Repository>, kind: BatchType)

  /** The SHA-1 hex digest, left abstract. */
  type Hasher = string -> string

  function Ids(repositories: seq<Repository>): (r: seq<string>)
    ensures |r| == |repositories|
    ensures forall i :: 0 <= i < |r| ==> r[i] == repositories[i].id
  {
    seq(|repositories|, i requires 0 <= i < |repositories| => repositories[i].id)
  }

  /** The string that is hashed: the repository ids joined by ",". */
  function HashInput(repositories: seq<Repository>): string
  {
    Join(Ids(repositories), ',')
  }

  /** `createBatchId(repositories)` */
  function CreateBatchId(sha1: Hasher, repositories: seq<Repository>): string
  {
    sha1(HashInput(repositories))
  }

  /** Repository ids without a comma, as the handlers' decimal ids are. */
  predicate CommaFreeIds(repositories: seq<Repository>)
  {
    forall i :: 0 <= i < |repositories| ==> ',' !in repositories[i].id
  }

  /** The id depends only on the ordered repository ids: path, url, branch and topics do not matter. */
  lemma BatchIdDependsOnlyOnIds(sha1: Hasher, a: seq<Repository>, b: seq<Repository>)
    requires Ids(a) == Ids(b)
    ensures CreateBatchId(sha1, a) == CreateBatchId(sha1, b)
  {
  }

  /** For non-empty lists of comma-free ids the hash input determines the id list. */
  lemma HashInputRecoversIds(repositories: seq<Repository>)
    requires |repositories| >= 1 && CommaFreeIds(repositories)
    ensures Split(HashInput(repositories), ',') == Ids(repositories)
  {
    SplitJoin(Ids(repositories), ',');
  }

  /** So distinct id lists give distinct hash inputs. */
  lemma HashInputInjective(a: seq<Repository>, b: seq<Repository>)
    requires |a| >= 1 && CommaFreeIds(a)
    requires |b| >= 1 && CommaFreeIds(b)
    requires Ids(a) != Ids(b)
    ensures HashInput(a) != HashInput(b)
  {
    HashInputRecoversIds(a);
    HashInputRecoversIds(b);
  }

  /** Order matters: swapping two different comma-free ids changes the hash input. */
  lemma HashInputOrderSensitive(x: Repository, y: Repository)
    requires x.id != y.id
    requires ',' !in x.id && ',' !in y.id
    ensures HashInput([x, y]) != HashInput([y, x])
  {
    assert Ids([x, y]) == [x.id, y.id] && Ids([y, x]) == [y.id, x.id];
    HashInputInjective([x, y], [y, x]);
  }

  /** Without comma-freedom order-sensitivity fails: ids "1" and "1,1" give "1,1,1" both ways. */
  lemma HashInputCommaCollision(x: Repository, y: Repository)
    requires x.id == "1" && y.id == "1,1"
    ensures x.id != y.id && HashInput([x, y]) == HashInput([y, x])
  {
    assert Ids([x, y]) == [x.id, y.id] && Ids([y, x]) == [y.id, x.id];
    assert Join([x.id, y.id], ',') == "1" + [','] + "1,1" == "1,1,1";
    assert Join([y.id, x.id], ',') == "1,1" + [','] + "1" == "1,1,1";
  }

  /** The empty list and a single repository with id "" hash the same input, "". */
  lemma EmptyListCollidesWithEmptyId(r: Repository)
    requires r.id == ""
    ensures HashInput([]) == HashInput([r]) == ""
  {
    assert Ids([r]) == [""];
  }
}

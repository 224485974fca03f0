/**
 The five routes as one dispatch on a request, and runs of requests handled
 one after another, as the single-threaded server handles them. Properties
 that span several requests are stated over `Run`.
 */
module Requests {
  import opened Repos

  /** One request to the service; `CreateRepo` carries the id the generator produced. */
  datatype Request =
    | ListAll
    | CreateRepo(id: string, title: string, url: string, techs: seq<string>)
    | UpdateRepo(id: string, title: string, url: string, techs: seq<string>)
    | DeleteRepo(id: string)
    | LikeRepo(id: string)

  /** The route table: which handler answers which request. */
  function Handle(rs: seq<Repo>, req: Request): (o: Outcome)
    ensures o.response.NotFound? ==> o.store == rs && !req.ListAll? && !req.CreateRepo?
    ensures req.ListAll? ==> o.store == rs
    ensures |rs| - 1 <= |o.store| <= |rs| + 1
    ensures |o.store| > |rs| ==> req.CreateRepo?
    ensures |o.store| < |rs| ==> req.DeleteRepo?
  {
    match req
    case ListAll => List(rs)
    case CreateRepo(id, title, url, techs) => Create(rs, id, title, url, techs)
    case UpdateRepo(id, title, url, techs) => Update(rs, id, title, url, techs)
    case DeleteRepo(id) => Delete(rs, id)
    case LikeRepo(id) => Like(rs, id)
  }

  /** The collection after handling `reqs` in order, starting from `rs`. */
  function Run(rs: seq<Repo>, reqs: seq<Request>): (r: seq<Repo>)
    ensures |rs| - |reqs| <= |r| <= |rs| + |reqs|
    decreases |reqs|
  {
    if reqs == [] then rs else Run(Handle(rs, reqs[0]).store, reqs[1..])
  }

  /** Every create in the run receives an id no record has at that moment (the generator's promise). */
  ghost predicate FreshCreates(rs: seq<Repo>, reqs: seq<Request>)
    decreases |reqs|
  {
    reqs != [] ==>
      (reqs[0].CreateRepo? ==> !HasId(rs, reqs[0].id))
      && FreshCreates(Handle(rs, reqs[0]).store, reqs[1..])
  }

  /** `k` like requests for the same id. */
  function Likes(id: string, k: nat): (reqs: seq<Request>)
  {
    seq(k, _ => LikeRepo(id))
  }

  /** The records that a run of create requests appends, in request order. */
  function Created(reqs: seq<Request>): seq<Repo>
    requires forall k :: 0 <= k < |reqs| ==> reqs[k].CreateRepo?
  {
    if reqs == [] then []
    else [Repo(reqs[0].id, reqs[0].title, reqs[0].url, reqs[0].techs, 0)] + Created(reqs[1..])
  }

  /** One request keeps the invariant, provided a create gets a fresh id. */
  lemma HandlePreservesValid(rs: seq<Repo>, req: Request)
    requires Valid(rs)
    requires req.CreateRepo? ==> !HasId(rs, req.id)
    ensures Valid(Handle(rs, req).store)
  {
    match req
    case ListAll =>
    case CreateRepo(id, title, url, techs) => CreatePreservesValid(rs, id, title, url, techs);
    case UpdateRepo(id, title, url, techs) => UpdatePreservesValid(rs, id, title, url, techs);
    case DeleteRepo(id) => DeletePreservesValid(rs, id);
    case LikeRepo(id) => LikePreservesValid(rs, id);
  }

  /** Ids stay pairwise distinct and likes non-negative over any run whose creates get fresh ids. */
  lemma {:induction false} RunPreservesValid(rs: seq<Repo>, reqs: seq<Request>)
    requires Valid(rs) && FreshCreates(rs, reqs)
    ensures Valid(Run(rs, reqs))
    decreases |reqs|
  {
    if reqs != [] {
      HandlePreservesValid(rs, reqs[0]);
      RunPreservesValid(Handle(rs, reqs[0]).store, reqs[1..]);
    }
  }

  /** `k` likes on a present id raise its first match's counter by exactly `k` and change nothing else. */
  lemma {:induction false} LikesAddUp(rs: seq<Repo>, id: string, i: int, k: nat)
    requires IsFirstMatch(rs, id, i)
    ensures var s := Run(rs, Likes(id, k));
      && |s| == |rs|
      && s[i] == rs[i].(likes := rs[i].likes + k)
      && forall j :: 0 <= j < |rs| && j != i ==> s[j] == rs[j]
    decreases k
  {
    if k > 0 {
      var once := Like(rs, id).store;
      LikeFound(rs, id, i);
      assert IsFirstMatch(once, id, i);
      assert Likes(id, k)[1..] == Likes(id, k - 1);
      LikesAddUp(once, id, i, k - 1);
    }
  }

  /** A freshly created record that then receives `k` likes has exactly `k` likes. */
  lemma CreateThenLikes(rs: seq<Repo>, id: string, title: string, url: string, techs: seq<string>, k: nat)
    requires !HasId(rs, id)
    ensures var s := Run(rs, [CreateRepo(id, title, url, techs)] + Likes(id, k));
      && |s| == |rs| + 1
      && s[|rs|] == Repo(id, title, url, techs, k)
      && s[..|rs|] == rs
  {
    var reqs := [CreateRepo(id, title, url, techs)] + Likes(id, k);
    var created := Create(rs, id, title, url, techs).store;
    assert reqs[1..] == Likes(id, k);
    assert Run(rs, reqs) == Run(created, Likes(id, k));
    assert IsFirstMatch(created, id, |rs|);
    LikesAddUp(created, id, |rs|, k);
    var s := Run(created, Likes(id, k));
    assert s[..|rs|] == rs by {
      forall j | 0 <= j < |rs| ensures s[j] == rs[j] {
        assert s[j] == created[j];
      }
    }
  }

  /** After a run of creates, listing shows the earlier records and then the new ones in creation order. */
  lemma {:induction false} CreatesListInOrder(rs: seq<Repo>, reqs: seq<Request>)
    requires forall k :: 0 <= k < |reqs| ==> reqs[k].CreateRepo?
    ensures Run(rs, reqs) == rs + Created(reqs)
    ensures |Run(rs, reqs)| == |rs| + |reqs|
    decreases |reqs|
  {
    if reqs != [] {
      var r := Repo(reqs[0].id, reqs[0].title, reqs[0].url, reqs[0].techs, 0);
      CreatesListInOrder(rs + [r], reqs[1..]);
      assert rs + [r] + Created(reqs[1..]) == rs + ([r] + Created(reqs[1..]));
    }
  }
}

/**
 The repository records of the service and the effect of each route on the
 ordered collection that holds them, as pure functions on `seq<Repo>`.
 The class in module App is proved to follow these functions exactly.
 */
module Repos {

  /** One stored repository: `{ id, title, url, techs, likes }`. */
  datatype Repo = Repo(id: string, title: string, url: string, techs: seq<string>, likes: int)

  /** What a route answers: the whole list, one record, an empty 204, or the 400 error. */
  datatype Response = Listed(repos: seq<Repo>) | Ok(repo: Repo) | NoContent | NotFound(error: string)

  /** The collection after a request, together with the answer to it. */
  datatype Outcome = Outcome(store: seq<Repo>, response: Response)

  /** The error message every id-based route sends with its 400. */
  const NotFoundMessage: string := "Repository not found."

  /** The HTTP status code each kind of response is sent with. */
  function Status(r: Response): (code: int)
    ensures code == 400 <==> r.NotFound?
    ensures code == 204 <==> r.NoContent?
    ensures code == 200 <==> r.Listed? || r.Ok?
  {
    match r
    case Listed(_) => 200
    case Ok(_) => 200
    case NoContent => 204
    case NotFound(_) => 400
  }

  ghost predicate HasId(rs: seq<Repo>, id: string)
  {
    exists k :: 0 <= k < |rs| && rs[k].id == id
  }

  /** `i` is the position of the first record whose id is `id`. */
  ghost predicate IsFirstMatch(rs: seq<Repo>, id: string, i: int)
  {
    0 <= i < |rs| && rs[i].id == id && forall k :: 0 <= k < i ==> rs[k].id != id
  }

  /** `findIndex` with the predicate `repository.id === id`: the first match, or -1. */
  function FirstIndex(rs: seq<Repo>, id: string): (i: int)
    ensures -1 <= i < |rs|
    ensures i < 0 <==> !HasId(rs, id)
    ensures 0 <= i ==> IsFirstMatch(rs, id, i)
  {
    if |rs| == 0 then -1
    else if rs[0].id == id then 0
    else
      var j := FirstIndex(rs[1..], id);
      assert forall k :: 1 <= k < |rs| ==> rs[k] == rs[1..][k - 1];
      if j < 0 then -1 else j + 1
  }

  /** No two records share an id. */
  ghost predicate UniqueIds(rs: seq<Repo>)
  {
    forall i, j :: 0 <= i < j < |rs| ==> rs[i].id != rs[j].id
  }

  /** The invariant the service keeps: ids are unique and no like counter is negative. */
  ghost predicate Valid(rs: seq<Repo>)
  {
    UniqueIds(rs) && forall k :: 0 <= k < |rs| ==> rs[k].likes >= 0
  }

  /** GET /repositories */
  function List(rs: seq<Repo>): (o: Outcome)
    ensures o.store == rs && o.response.Listed? && o.response.repos == rs
  {
    Outcome(rs, Listed(rs))
  }

  /** POST /repositories, with `id` the identifier the generator produced. */
  function Create(rs: seq<Repo>, id: string, title: string, url: string, techs: seq<string>): (o: Outcome)
    ensures |o.store| == |rs| + 1 && o.store[..|rs|] == rs
    ensures o.response == Ok(o.store[|rs|]) && o.store[|rs|] == Repo(id, title, url, techs, 0)
  {
    var r := Repo(id, title, url, techs, 0);
    Outcome(rs + [r], Ok(r))
  }

  /** PUT /repositories/:id */
  function Update(rs: seq<Repo>, id: string, title: string, url: string, techs: seq<string>): (o: Outcome)
    ensures o.response.NotFound? <==> !HasId(rs, id)
    ensures o.response.NotFound? ==> o.store == rs
    ensures |o.store| == |rs|
    ensures forall k :: 0 <= k < |rs| ==> o.store[k].id == rs[k].id && o.store[k].likes == rs[k].likes
  {
    var i := FirstIndex(rs, id);
    if i < 0 then Outcome(rs, NotFound(NotFoundMessage))
    else
      var r := Repo(id, title, url, techs, rs[i].likes);
      Outcome(rs[i := r], Ok(r))
  }

  /** DELETE /repositories/:id */
  function Delete(rs: seq<Repo>, id: string): (o: Outcome)
    ensures o.response.NotFound? <==> !HasId(rs, id)
    ensures o.response.NotFound? ==> o.store == rs
    ensures !o.response.NotFound? ==> o.response == NoContent && |o.store| == |rs| - 1
    ensures multiset(o.store) <= multiset(rs)
  {
    var i := FirstIndex(rs, id);
    if i < 0 then Outcome(rs, NotFound(NotFoundMessage))
    else
      assert rs == rs[..i] + [rs[i]] + rs[i + 1..];
      Outcome(rs[..i] + rs[i + 1..], NoContent)
  }

  /** POST /repositories/:id/like */
  function Like(rs: seq<Repo>, id: string): (o: Outcome)
    ensures o.response.NotFound? <==> !HasId(rs, id)
    ensures o.response.NotFound? ==> o.store == rs
    ensures |o.store| == |rs|
    ensures forall k :: 0 <= k < |rs| ==> o.store[k].id == rs[k].id && o.store[k].likes >= rs[k].likes
  {
    var i := FirstIndex(rs, id);
    if i < 0 then Outcome(rs, NotFound(NotFoundMessage))
    else
      var r := rs[i].(likes := rs[i].likes + 1);
      Outcome(rs[i := r], Ok(r))
  }

  // ---------------------------------------------------------------------------
  // What each route does to the collection

  /** Listing answers the whole collection in its stored order and changes nothing. */
  lemma ListReturnsAll(rs: seq<Repo>)
    ensures List(rs).store == rs
    ensures List(rs).response == Listed(rs) && Status(List(rs).response) == 200
  {
  }

  /** Creating appends exactly one fresh record with zero likes and keeps every earlier record. */
  lemma CreateAppends(rs: seq<Repo>, id: string, title: string, url: string, techs: seq<string>)
    ensures var o := Create(rs, id, title, url, techs);
      && |o.store| == |rs| + 1
      && (forall k :: 0 <= k < |rs| ==> o.store[k] == rs[k])
      && o.store[|rs|] == Repo(id, title, url, techs, 0)
      && o.response == Ok(o.store[|rs|])
  {
  }

  /** Update, delete and like on an id that no record has answer 400 and leave the collection alone. */
  lemma MissingIdNotFound(rs: seq<Repo>, id: string, title: string, url: string, techs: seq<string>)
    requires !HasId(rs, id)
    ensures Update(rs, id, title, url, techs) == Outcome(rs, NotFound(NotFoundMessage))
    ensures Delete(rs, id) == Outcome(rs, NotFound(NotFoundMessage))
    ensures Like(rs, id) == Outcome(rs, NotFound(NotFoundMessage))
    ensures Status(NotFound(NotFoundMessage)) == 400
  {
  }

  /** Update on a present id rewrites the first matching record in place, keeping its id and likes. */
  lemma UpdateFound(rs: seq<Repo>, id: string, title: string, url: string, techs: seq<string>, i: int)
    requires IsFirstMatch(rs, id, i)
    ensures var o := Update(rs, id, title, url, techs);
      && |o.store| == |rs|
      && o.store[i].id == rs[i].id && o.store[i].likes == rs[i].likes
      && o.store[i].title == title && o.store[i].url == url && o.store[i].techs == techs
      && (forall k :: 0 <= k < |rs| && k != i ==> o.store[k] == rs[k])
      && o.response == Ok(o.store[i])
  {
  }

  /** Delete on a present id removes exactly the first matching record and keeps the order of the rest. */
  lemma DeleteFound(rs: seq<Repo>, id: string, i: int)
    requires IsFirstMatch(rs, id, i)
    ensures var o := Delete(rs, id);
      && |o.store| == |rs| - 1
      && (forall k :: 0 <= k < i ==> o.store[k] == rs[k])
      && (forall k :: i <= k < |o.store| ==> o.store[k] == rs[k + 1])
      && multiset(o.store) + multiset{rs[i]} == multiset(rs)
      && o.response == NoContent && Status(o.response) == 204
  {
    var o := Delete(rs, id);
    assert rs == rs[..i] + [rs[i]] + rs[i + 1..];
    assert o.store == rs[..i] + rs[i + 1..];
  }

  /** Like on a present id adds exactly one to the first matching record and changes nothing else. */
  lemma LikeFound(rs: seq<Repo>, id: string, i: int)
    requires IsFirstMatch(rs, id, i)
    ensures var o := Like(rs, id);
      && |o.store| == |rs|
      && o.store[i].likes == rs[i].likes + 1
      && o.store[i].id == rs[i].id && o.store[i].title == rs[i].title
      && o.store[i].url == rs[i].url && o.store[i].techs == rs[i].techs
      && (forall k :: 0 <= k < |rs| && k != i ==> o.store[k] == rs[k])
      && o.response == Ok(o.store[i])
  {
  }

  // ---------------------------------------------------------------------------
  // The invariant: unique ids, non-negative likes, likes never decrease

  /** A record with a fresh id keeps the invariant when it is appended. */
  lemma CreatePreservesValid(rs: seq<Repo>, id: string, title: string, url: string, techs: seq<string>)
    requires Valid(rs) && !HasId(rs, id)
    ensures Valid(Create(rs, id, title, url, techs).store)
  {
  }

  /** Update keeps every record's id at its position and every like counter as it was, so it keeps the invariant. */
  lemma UpdatePreservesValid(rs: seq<Repo>, id: string, title: string, url: string, techs: seq<string>)
    requires Valid(rs)
    ensures var u := Update(rs, id, title, url, techs).store;
      && |u| == |rs|
      && (forall k :: 0 <= k < |rs| ==> u[k].id == rs[k].id && u[k].likes == rs[k].likes)
      && Valid(u)
  {
  }

  /** Like keeps every record's id at its position and never lowers a like counter, so it keeps the invariant. */
  lemma LikePreservesValid(rs: seq<Repo>, id: string)
    requires Valid(rs)
    ensures var l := Like(rs, id).store;
      && |l| == |rs|
      && (forall k :: 0 <= k < |rs| ==> l[k].id == rs[k].id && l[k].likes >= rs[k].likes)
      && Valid(l)
  {
  }

  /**
   Delete keeps the invariant, every remaining record was already stored with
   the same likes, and with unique ids the deleted id is gone afterwards.
   */
  lemma DeletePreservesValid(rs: seq<Repo>, id: string)
    requires Valid(rs)
    ensures var d := Delete(rs, id).store;
      && Valid(d)
      && multiset(d) <= multiset(rs)
      && !HasId(d, id)
  {
  }
}

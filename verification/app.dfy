/**
 The service as the program runs it: the `repositories` array is the field of
 a store object that the five handlers update in place, and the id lookups are
 the linear scans `findIndex` and `find`. Each handler is proved to have
 exactly the effect that module Repos gives its route.
 */
module App {
  import opened Repos

  datatype Option<T> = None | Some(value: T)

  /** `repositories.findIndex(repository => repository.id === id)` */
  method FindIndex(rs: seq<Repo>, id: string) returns (i: int)
    ensures -1 <= i < |rs|
    ensures i < 0 <==> !HasId(rs, id)
    ensures 0 <= i ==> rs[i].id == id && forall k :: 0 <= k < i ==> rs[k].id != id
    ensures i == FirstIndex(rs, id)
  {
    var n := 0;
    while n < |rs|
      invariant 0 <= n <= |rs|
      invariant forall k :: 0 <= k < n ==> rs[k].id != id
    {
      if rs[n].id == id {
        return n;
      }
      n := n + 1;
    }
    return -1;
  }

  /** `repositories.find(repository => repository.id === id)`; `undefined` is `None`. */
  method Find(rs: seq<Repo>, id: string) returns (r: Option<Repo>)
    ensures r.Some? <==> HasId(rs, id)
    ensures r.Some? ==> r.value.id == id && r.value == rs[FirstIndex(rs, id)]
  {
    var n := 0;
    while n < |rs|
      invariant 0 <= n <= |rs|
      invariant forall k :: 0 <= k < n ==> rs[k].id != id
    {
      if rs[n].id == id {
        return Some(rs[n]);
      }
      n := n + 1;
    }
    return None;
  }

  /** The service's state: the ordered collection, empty when the process starts. */
  class RepositoryStore {
    var repositories: seq<Repo>

    /** Ids are unique and likes are non-negative. */
    ghost predicate Valid()
      reads this
    {
      Repos.Valid(repositories)
    }

    constructor ()
      ensures repositories == [] && Valid()
    {
      repositories := [];
    }

    /** GET /repositories: the whole collection, in insertion order; nothing changes. */
    method List() returns (r: seq<Repo>)
      ensures r == repositories && Repos.List(repositories) == Outcome(repositories, Listed(r))
    {
      r := repositories;
    }

    /** POST /repositories: `id` is the identifier the generator produced, which no record has. */
    method Create(id: string, title: string, url: string, techs: seq<string>) returns (r: Repo)
      requires !HasId(repositories, id)
      modifies this
      ensures Outcome(repositories, Ok(r)) == Repos.Create(old(repositories), id, title, url, techs)
      ensures old(Valid()) ==> Valid()
    {
      r := Repo(id, title, url, techs, 0);
      repositories := repositories + [r];
      if old(Valid()) {
        CreatePreservesValid(old(repositories), id, title, url, techs);
      }
    }

    /** PUT /repositories/:id */
    method Update(id: string, title: string, url: string, techs: seq<string>) returns (resp: Response)
      modifies this
      ensures Outcome(repositories, resp) == Repos.Update(old(repositories), id, title, url, techs)
      ensures old(Valid()) ==> Valid()
    {
      var i := FindIndex(repositories, id);
      if i < 0 {
        return NotFound(NotFoundMessage);
      }
      var found := Find(repositories, id);
      var likes := found.value.likes;
      var r := Repo(id, title, url, techs, likes);
      repositories := repositories[i := r];
      resp := Ok(r);
      if old(Valid()) {
        UpdatePreservesValid(old(repositories), id, title, url, techs);
      }
    }

    /** DELETE /repositories/:id */
    method Delete(id: string) returns (resp: Response)
      modifies this
      ensures Outcome(repositories, resp) == Repos.Delete(old(repositories), id)
      ensures old(Valid()) ==> Valid() && !HasId(repositories, id)
    {
      var i := FindIndex(repositories, id);
      if i < 0 {
        return NotFound(NotFoundMessage);
      }
      repositories := repositories[..i] + repositories[i + 1..];
      resp := NoContent;
      if old(Valid()) {
        DeletePreservesValid(old(repositories), id);
      }
    }

    /** POST /repositories/:id/like */
    method Like(id: string) returns (resp: Response)
      modifies this
      ensures Outcome(repositories, resp) == Repos.Like(old(repositories), id)
      ensures old(Valid()) ==> Valid()
    {
      var i := FindIndex(repositories, id);
      if i < 0 {
        return NotFound(NotFoundMessage);
      }
      repositories := repositories[i := repositories[i].(likes := repositories[i].likes + 1)];
      resp := Ok(repositories[i]);
      if old(Valid()) {
        LikePreservesValid(old(repositories), id);
      }
    }
  }
}

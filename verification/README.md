# Repository store of node-basic-concepts, in Dafny

The service keeps an in-memory, ordered list of "repository" records
`{ id, title, url, techs, likes }` and exposes five HTTP routes over it:
list, create, update, delete and like. This project models that list and the
five handlers, together with the linear searches (`findIndex`, `find`) that
locate a record by id. It proves what each route does to the list and that the
service keeps its invariant: ids stay unique and like counters never go
negative or down.

- `repos.dfy`, module `Repos`: the records (`Repo`), the responses (`Response`:
  the listed collection, one record, the empty 204, or the 400 "Repository not
  found."), and the status code of each response. It defines the first-match
  search `FirstIndex` and the invariant `Valid`. It gives the effect of each
  route as a pure function from the old collection to the new collection plus
  the response (`List`, `Create`, `Update`, `Delete`, `Like`). Lemmas state
  those effects position by position.
- `requests.dfy`, module `Requests`: the route table as a dispatch on a
  `Request`, and `Run`, which handles a sequence of requests one after another,
  as the single-threaded server does. Properties that span several requests
  are proved here: the invariant over any run, `k` likes give `k` more likes,
  and creates are listed in creation order.
- `app.dfy`, module `App`: the program as it runs. `FindIndex` and `Find` are
  loops with invariants. Class `RepositoryStore` holds the `repositories`
  collection as a field that its handler methods reassign: append for `push`,
  element update for the index assignment and the `likes` increment, and
  removal of one position for `splice`. Each handler's postcondition equates
  the new collection and the response with the `Repos` function for its route.
  Each handler also keeps `Valid`.

## Model

| member | source | states |
|---|---|---|
| `Repos.FirstIndex` | src/app.js:44 | the search result is -1 exactly when no record has the id; otherwise it is the position of the first record with that id |
| `App.FindIndex` | src/app.js:44 | the loop returns the first position whose record has the id, or -1 when there is none; it agrees with `FirstIndex` |
| `App.Find` | src/app.js:50 | the loop finds a record exactly when some record has the id; the record it finds is the one at the position `findIndex` returns, so the likes that update reads belong to the record it replaces |
| `Repos.Status` | src/app.js:46-80 | the status is 400 exactly for the not-found response, 204 exactly for the empty delete answer, and 200 for a listing or a single record |
| `Repos.List` | src/app.js:16-18 | the collection stays as it was and the answer is a listing of exactly that collection |
| `Repos.Create` | src/app.js:26-34 | the collection gains one record at the end and keeps every earlier one; the new record has the given id, title, url and techs and 0 likes, and it is the one answered |
| `Repos.Update` | src/app.js:40-63 | the answer is not-found exactly when no record has the id, and then nothing changes; the length stays, and every position keeps its id and its likes |
| `Repos.Delete` | src/app.js:69-81 | the answer is not-found exactly when no record has the id, and then nothing changes; otherwise the answer is 204 and the collection is one record shorter; it never gains a record |
| `Repos.Like` | src/app.js:88-100 | the answer is not-found exactly when no record has the id, and then nothing changes; the length stays, every position keeps its id, and no likes value goes down |
| `Requests.Handle` | src/app.js:16-100 | a not-found answer comes only from update, delete or like and leaves the collection as it was; listing changes nothing; a request changes the length by at most one, only create adds and only delete removes |
| `Requests.Run` | src/app.js:11-100 | after handling a sequence of requests one at a time, the collection's length differs from the start by at most the number of requests |
| `Repos.ListReturnsAll` | src/app.js:16-18 | listing answers the whole collection in stored order with status 200 and leaves the collection as it was |
| `Repos.CreateAppends` | src/app.js:26-34 | create grows the collection by one and keeps every earlier record at its position; the last record has the given id, title, url and techs and 0 likes, and it is the record returned |
| `Repos.MissingIdNotFound` | src/app.js:44-95 | for an id no record has, update, delete and like all answer the 400 response carrying "Repository not found." and leave the collection unchanged |
| `Repos.UpdateFound` | src/app.js:44-62 | for a present id, update keeps the length and every other position; at the first match it keeps id and likes, sets title, url and techs, and returns that record |
| `Repos.DeleteFound` | src/app.js:72-80 | for a present id, delete removes exactly the first match: the length drops by one, earlier records stay put, later ones move down one place in the same order, the multiset loses only that record, and the answer is 204 with no content |
| `Repos.LikeFound` | src/app.js:91-99 | for a present id, like adds exactly 1 to the first match's likes; no other field of it and no other record changes, and the updated record is returned |
| `Repos.CreatePreservesValid` | src/app.js:29-31 | appending a record whose generated id no record has keeps ids unique and likes non-negative |
| `Repos.UpdatePreservesValid` | src/app.js:50-60 | update keeps every record's id at its position and every likes value, so it keeps the invariant |
| `Repos.LikePreservesValid` | src/app.js:91-97 | like keeps every record's id at its position and never lowers a likes value, so it keeps the invariant |
| `Repos.DeletePreservesValid` | src/app.js:72-78 | delete keeps the invariant and only removes records; when ids are unique, the deleted id no longer occurs |
| `Requests.HandlePreservesValid` | src/app.js:16-100 | whichever route handles a request, the invariant holds afterwards, provided a create receives a fresh id |
| `Requests.RunPreservesValid` | src/app.js:11-100 | along any sequence of requests whose creates receive fresh ids, ids stay pairwise distinct and likes non-negative |
| `Requests.LikesAddUp` | src/app.js:84-99 | `k` like requests for a present id raise the first match's likes by exactly `k` and change nothing else |
| `Requests.CreateThenLikes` | src/app.js:84-97 | a record created with a fresh id and then liked `k` times has exactly `k` likes, with its other fields as created, and the earlier records are untouched |
| `Requests.CreatesListInOrder` | src/app.js:26-34 | after a run of creates, the collection is the earlier records followed by the created ones in creation order, one per request |
| `App.RepositoryStore.constructor` | src/app.js:11 | the collection starts empty, which satisfies the invariant |
| `App.RepositoryStore.List` | src/app.js:16-18 | returns the current collection and modifies nothing |
| `App.RepositoryStore.Create` | src/app.js:26-34 | the new collection and the returned record are those of `Repos.Create`; the invariant is kept |
| `App.RepositoryStore.Update` | src/app.js:40-63 | the new collection and the response are those of `Repos.Update`; the invariant is kept |
| `App.RepositoryStore.Delete` | src/app.js:69-81 | the new collection and the response are those of `Repos.Delete`; the invariant is kept and, with unique ids, the id is gone |
| `App.RepositoryStore.Like` | src/app.js:88-100 | the new collection and the response are those of `Repos.Like`; the invariant is kept |

## Left out

- Express routing, `express.json()` body parsing, the `cors()` middleware and `module.exports` (src/app.js:1-9, 102) are framework plumbing. The route table is modelled as `Requests.Handle`, and responses are values of `Response` with `Repos.Status` giving their status codes.
- `uuid()` (src/app.js:4, 29) is a random generator in a foreign library. The new id is a parameter of create. `App.RepositoryStore.Create` requires that no record already has it, which is what the generator promises.
- Serialising responses to JSON (`response.json`, `send`) is I/O and is left out. The 400 response carries its message, the constant `Repos.NotFoundMessage`, as a field of `NotFound`.
- Request-body fields may be missing (`undefined`) or of any JSON type. The model takes title and url as strings and techs as a sequence of strings.
- Likes are unbounded integers. JavaScript numbers lose precision above 2^53, which is not modelled.
- Records are values. In the program, like mutates the stored object in place. No earlier response can observe this because each response is serialised at once, so replacing the element at that position is equivalent.
- Concurrency does not arise: requests are handled one at a time, as `Requests.Run` models.
- Repos.Update: its own contract does not give the new title, url and techs at the first match; `Repos.UpdateFound` states them.
- Repos.Delete: its own contract does not say which record goes or that the order of the rest is kept; `Repos.DeleteFound` states both.
- Repos.Like: its own contract does not say that the first match gains exactly one like; `Repos.LikeFound` and `Requests.LikesAddUp` state it.
- Requests.Run: its own contract bounds only the length; what a run does to the records is stated by `Requests.RunPreservesValid`, `Requests.LikesAddUp`, `Requests.CreateThenLikes` and `Requests.CreatesListInOrder`.

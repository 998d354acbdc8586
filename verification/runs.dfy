/**
 Sequences of friend-request calls. The URL table routes each call to one of
 the three mutating views; a run applies calls one after the other. The
 lemmas show that what holds for one call holds for every run: no edge or
 user ever disappears, and the store invariant survives.
 */
module Runs {
  import opened Models
  import opened Views
  import opened Transitions

  /** One authenticated call: the acting user and the user id from the URL. */
  datatype Request =
    | SendRequest(actor: UserId, target: UserId)
    | AcceptRequest(actor: UserId, target: UserId)
    | RejectRequest(actor: UserId, target: UserId)

  /** Routes a call to its view. No view removes a user or an edge. A send
      goes to the intended `Send`, so runs describe the program with the
      rejected-branch fix; `HandleAsWritten` routes to `SendAsWritten` and
      keeps the same frame, since its `Crash` leaves the store unchanged. */
  function Handle(s: Store, req: Request): (r: Reply)
    ensures r.store.users == s.users
    ensures s.edges.Keys <= r.store.edges.Keys
    ensures r.status in {Ok, Created, BadRequest, NotFound, InternalError}
    ensures r.status in {BadRequest, NotFound} ==> r.store == s
  {
    match req
    case SendRequest(a, t) => Send(s, a, t)
    case AcceptRequest(a, t) => Accept(s, a, t)
    case RejectRequest(a, t) => Reject(s, a, t)
  }

  /** Every routed call answers one of the HTTP statuses 200, 201, 400, 404, 500. */
  lemma HandleAnswersHttpStatus(s: Store, req: Request)
    ensures Code(Handle(s, req).status) in {200, 201, 400, 404, 500}
  {
  }

  /** The store after handling every call of `reqs` in order. Over a whole
      run the users stay the same and every edge present at the start is
      still present at the end. */
  function Run(s: Store, reqs: seq<Request>): (r: Store)
    ensures r.users == s.users
    ensures s.edges.Keys <= r.edges.Keys
    decreases |reqs|
  {
    if reqs == [] then s else Run(Handle(s, reqs[0]).store, reqs[1..])
  }

  /** Routing as the code is written: a send goes to `SendAsWritten`. */
  function HandleAsWritten(s: Store, req: Request): (r: Reply)
    ensures r.store.users == s.users
    ensures s.edges.Keys <= r.store.edges.Keys
    ensures r.status in {BadRequest, NotFound, Crash} ==> r.store == s
  {
    match req
    case SendRequest(a, t) => SendAsWritten(s, a, t)
    case AcceptRequest(a, t) => Accept(s, a, t)
    case RejectRequest(a, t) => Reject(s, a, t)
  }

  /** A run of the code as written: as with `Run`, the users stay the same
      and no edge disappears, since a crashing send saves nothing. */
  function RunAsWritten(s: Store, reqs: seq<Request>): (r: Store)
    ensures r.users == s.users
    ensures s.edges.Keys <= r.edges.Keys
    decreases |reqs|
  {
    if reqs == [] then s else RunAsWritten(HandleAsWritten(s, reqs[0]).store, reqs[1..])
  }

  /** Every call's actor is an existing (authenticated) user. */
  ghost predicate Authenticated(s: Store, reqs: seq<Request>)
  {
    forall i | 0 <= i < |reqs| :: reqs[i].actor in s.users
  }

  /** One call from an existing user keeps the store valid. */
  lemma HandlePreservesValid(s: Store, req: Request)
    requires Valid(s) && req.actor in s.users
    ensures Valid(Handle(s, req).store)
  {
    match req
    case SendRequest(a, t) => SendPreservesValid(s, a, t);
    case AcceptRequest(a, t) => AcceptPreservesValid(s, a, t);
    case RejectRequest(a, t) => RejectPreservesValid(s, a, t);
  }

  /** Every store reachable from a valid one by authenticated calls is valid:
      each edge stays in exactly one phase, has existing endpoints and is not
      a self edge. */
  lemma {:induction false} RunPreservesValid(s: Store, reqs: seq<Request>)
    requires Valid(s) && Authenticated(s, reqs)
    ensures Valid(Run(s, reqs))
    decreases |reqs|
  {
    if reqs != [] {
      var next := Handle(s, reqs[0]).store;
      HandlePreservesValid(s, reqs[0]);
      assert Authenticated(next, reqs[1..]) by {
        forall i | 0 <= i < |reqs[1..]| ensures reqs[1..][i].actor in next.users {
          assert reqs[1..][i] == reqs[i + 1];
        }
      }
      RunPreservesValid(next, reqs[1..]);
    }
  }
}

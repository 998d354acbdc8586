/**
 The friend-request views: send, accept and reject act on one ordered edge
 (and, for accept, its reverse) and are pure functions from the store, the
 authenticated actor and the target user id to a status and the store
 afterwards; the two list queries filter the store for one user and return
 a set of user ids.
 */
module Views {
  import opened Models

  /** The HTTP status a view answers with. `Crash` is an exception escaping
      the view, which the framework turns into a 500 with nothing saved. */
  datatype Status = Ok | Created | BadRequest | NotFound | InternalError | Crash

  function Code(st: Status): int
  {
    match st
    case Ok => 200
    case Created => 201
    case BadRequest => 400
    case NotFound => 404
    case InternalError => 500
    case Crash => 500
  }

  datatype Reply = Reply(status: Status, store: Store)

  /** The edge stored under `k`, if any: `filter(...).first()` in send, and
      `filter(...).get()` in accept and reject, where `None` stands for
      `DoesNotExist`. */
  function Lookup(s: Store, k: Key): Option<Flags>
  {
    if k in s.edges then Some(s.edges[k]) else None
  }

  /** `send_friend_request`: `actor` asks `target` to be friends, on edge
      actor -> target. A rejected edge is revived in place as a pending
      request; with no edge (or an edge with no flag set) the target must
      exist and `get_or_create` decides. */
  function Send(s: Store, actor: UserId, target: UserId): (r: Reply)
    ensures r.status in {Created, BadRequest, NotFound}
    ensures r.store.users == s.users
    ensures r.status != Created ==> r.store == s
    ensures r.status == Created ==> r.store.edges == s.edges[(actor, target) := Encode(Pending)]
    ensures r.status == Created ==> actor != target
  {
    var key := (actor, target);
    var existing := Lookup(s, key);
    if actor == target then Reply(BadRequest, s)
    else if existing.Some? && existing.value.friend then Reply(BadRequest, s)
    else if existing.Some? && existing.value.request then Reply(BadRequest, s)
    else if existing.Some? && existing.value.reject then
      Reply(Created, s.(edges := s.edges[key := Encode(Pending)]))
    else if target !in s.users then Reply(NotFound, s)
    else
      var got := GetOrCreate(s.edges, key, Encode(Pending));
      if got.created then Reply(Created, s.(edges := got.edges))
      else Reply(BadRequest, s)
  }

  /** True when edge actor -> target is a rejected request (reject set,
      friend and request clear): the branch whose code reads a local before
      it is assigned. */
  predicate IsRejectedEdge(s: Store, actor: UserId, target: UserId)
  {
    var key := (actor, target);
    key in s.edges && !s.edges[key].friend && !s.edges[key].request && s.edges[key].reject
  }

  /** `send_friend_request` as written: in the rejected branch the flag
      assignments go to `friendship`, which is only bound further down, so
      the view raises before anything is saved. Everywhere else it is `Send`. */
  function SendAsWritten(s: Store, actor: UserId, target: UserId): (r: Reply)
    ensures r.status == Crash <==> actor != target && IsRejectedEdge(s, actor, target)
    ensures r.status != Crash ==> r == Send(s, actor, target)
  {
    if actor != target && IsRejectedEdge(s, actor, target) then Reply(Crash, s)
    else Send(s, actor, target)
  }

  /** `accept_friend_request`: `actor` accepts the request on edge
      requester -> actor. The request flag is not consulted, so a rejected
      request can be accepted too. The forward edge is saved before the
      reverse edge actor -> requester is looked at; if the reverse edge
      already exists it is left as it is and the view answers 500. */
  function Accept(s: Store, actor: UserId, requester: UserId): (r: Reply)
    ensures r.status in {Ok, NotFound, InternalError}
    ensures r.store.users == s.users
    ensures r.status == NotFound <==> (requester, actor) !in s.edges || s.edges[(requester, actor)].friend
    ensures r.status == NotFound ==> r.store == s
    ensures r.status == InternalError ==>
              r.store.edges == s.edges[(requester, actor) := Encode(Accepted)]
    ensures r.status == InternalError <==>
              r.status != NotFound && (requester !in s.users || (actor, requester) in s.edges)
    ensures r.status == Ok ==>
              && (actor, requester) !in s.edges
              && r.store.edges == s.edges[(requester, actor) := Encode(Accepted)][(actor, requester) := Encode(Accepted)]
  {
    var key := (requester, actor);
    match Lookup(s, key)
    case None => Reply(NotFound, s)
    case Some(f) =>
      if f.friend then Reply(NotFound, s)
      else
        var saved := s.(edges := s.edges[key := Encode(Accepted)]);
        if requester !in s.users then Reply(InternalError, saved)
        else
          var reverse := GetOrCreate(saved.edges, (actor, requester), Encode(Accepted));
          if reverse.created then Reply(Ok, saved.(edges := reverse.edges))
          else Reply(InternalError, saved)
  }

  /** `reject_friend_request`: `actor` rejects the request on edge
      requester -> actor. Only an accepted edge is refused; a pending or an
      already rejected edge ends up rejected. */
  function Reject(s: Store, actor: UserId, requester: UserId): (r: Reply)
    ensures r.status in {Ok, BadRequest, NotFound}
    ensures r.store.users == s.users
    ensures r.status == NotFound <==> (requester, actor) !in s.edges
    ensures r.status == BadRequest <==> (requester, actor) in s.edges && s.edges[(requester, actor)].friend
    ensures r.status != Ok ==> r.store == s
    ensures r.status == Ok ==> r.store.edges == s.edges[(requester, actor) := Encode(Rejected)]
  {
    var key := (requester, actor);
    match Lookup(s, key)
    case None => Reply(NotFound, s)
    case Some(f) =>
      if f.friend then Reply(BadRequest, s)
      else Reply(Ok, s.(edges := s.edges[key := Encode(Rejected)]))
  }

  /** `list_friends`: the targets of the user's outgoing edges with the
      friend flag set. */
  function ListFriends(s: Store, u: UserId): (r: set<UserId>)
    ensures forall x :: x in r <==> (u, x) in s.edges && s.edges[(u, x)].friend
  {
    set k | k in s.edges && k.0 == u && s.edges[k].friend :: k.1
  }

  /** `pending_request`: the senders of the user's incoming edges with the
      request flag set. */
  function PendingRequests(s: Store, u: UserId): (r: set<UserId>)
    ensures forall x :: x in r <==> (x, u) in s.edges && s.edges[(x, u)].request
  {
    set k | k in s.edges && k.1 == u && s.edges[k].request :: k.0
  }
}

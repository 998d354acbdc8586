/**
 Properties of the friend-request views, one transition at a time: which
 outcome each case of the state machine gets, which edges a call writes, the
 store invariant the views keep, and what the list queries see afterwards.
 */
module Transitions {
  import opened Models
  import opened Views

  /** The store invariant: every edge is valid. */
  ghost predicate Valid(s: Store)
  {
    forall k | k in s.edges :: EdgeValid(s, k)
  }

  /** A stored edge is valid when both endpoints are existing users (this
      is `EndpointsExist` for one edge, see `ValidEndpointsExist`), it is not
      a self edge, and it is in exactly one phase. */
  ghost predicate EdgeValid(s: Store, k: Key)
    requires k in s.edges
  {
    k.0 in s.users && k.1 in s.users && k.0 != k.1 && ExactlyOne(s.edges[k])
  }

  /** A valid store has foreign-key integrity. */
  lemma ValidEndpointsExist(s: Store)
    requires Valid(s)
    ensures EndpointsExist(s)
  {
    forall k | k in s.edges ensures k.0 in s.users && k.1 in s.users {
      assert EdgeValid(s, k);
    }
  }

  /** The keys whose edge was added, removed or given other flags. */
  function Changed(before: map<Key, Flags>, after: map<Key, Flags>): set<Key>
  {
    set k | k in before.Keys + after.Keys && (k !in before || k !in after || before[k] != after[k])
  }

  /** Writing `f` under `k` changes at most that key, and changes it exactly
      when the key was absent or held other flags. */
  lemma ChangedByUpdate(m: map<Key, Flags>, k: Key, f: Flags)
    ensures Changed(m, m[k := f]) == if k in m && m[k] == f then {} else {k}
  {
    var c := Changed(m, m[k := f]);
    forall j | j in c ensures j == k {
    }
    if k !in m || m[k] != f {
      assert k in c;
    }
  }

  // ---- send ----

  /** A request to oneself is refused before any lookup, whatever the store holds. */
  lemma SendToSelf(s: Store, a: UserId)
    ensures Send(s, a, a) == Reply(BadRequest, s)
    ensures SendAsWritten(s, a, a) == Reply(BadRequest, s)
  {
  }

  /** With no edge a -> b and b an existing user, send creates exactly that
      edge, as a pending request with the column defaults, and answers 201. */
  lemma SendCreatesEdge(s: Store, a: UserId, b: UserId)
    requires a != b && (a, b) !in s.edges && b in s.users
    ensures var r := Send(s, a, b);
            && r.status == Created
            && r.store.edges.Keys == s.edges.Keys + {(a, b)}
            && r.store.edges[(a, b)] == DefaultFlags
            && |r.store.edges| == |s.edges| + 1
            && Changed(s.edges, r.store.edges) == {(a, b)}
  {
    ChangedByUpdate(s.edges, (a, b), Encode(Pending));
  }

  /** The refusals of send, each leaving the store as it was: an accepted or
      pending edge gives 400; no edge and an unknown target gives 404; an
      edge with no flag set is found again by `get_or_create` and gives 400. */
  lemma SendRefusals(s: Store, a: UserId, b: UserId)
    requires a != b
    ensures (a, b) in s.edges && (s.edges[(a, b)].friend || s.edges[(a, b)].request) ==>
              Send(s, a, b) == Reply(BadRequest, s)
    ensures (a, b) !in s.edges && b !in s.users ==> Send(s, a, b) == Reply(NotFound, s)
    ensures (a, b) in s.edges && FlagCount(s.edges[(a, b)]) == 0 ==>
              Send(s, a, b) == Reply(if b in s.users then BadRequest else NotFound, s)
  {
  }

  /** Sending again after a rejection turns the same edge back into a pending
      request: no new edge appears and only that edge changes. */
  lemma SendRevivesRejected(s: Store, a: UserId, b: UserId)
    requires a != b && IsRejectedEdge(s, a, b)
    ensures var r := Send(s, a, b);
            && r.status == Created
            && r.store.edges.Keys == s.edges.Keys
            && r.store.edges[(a, b)] == Encode(Pending)
            && Changed(s.edges, r.store.edges) == {(a, b)}
  {
    ChangedByUpdate(s.edges, (a, b), Encode(Pending));
  }

  /** The code as written raises on that same rejected edge instead: the
      request cannot be re-sent and nothing is saved. */
  lemma SendAsWrittenCannotRevive(s: Store, a: UserId, b: UserId)
    requires a != b && IsRejectedEdge(s, a, b)
    ensures SendAsWritten(s, a, b) == Reply(Crash, s)
    ensures Send(s, a, b).status == Created && Send(s, a, b).store != s
  {
    assert Send(s, a, b).store.edges[(a, b)] != s.edges[(a, b)];
  }

  /** A successful send writes exactly one edge, and afterwards the sender
      is among the target's pending requests. */
  lemma SendSuccess(s: Store, a: UserId, b: UserId)
    requires Send(s, a, b).status == Created
    ensures var r := Send(s, a, b);
            && Changed(s.edges, r.store.edges) == {(a, b)}
            && a in PendingRequests(r.store, b)
            && b !in ListFriends(r.store, a)
  {
    ChangedByUpdate(s.edges, (a, b), Encode(Pending));
  }

  // ---- accept ----

  /** Accept answers 404 and changes nothing when edge a -> b is missing or
      already accepted (404 also for the latter, not 400). */
  lemma AcceptRefusals(s: Store, b: UserId, a: UserId)
    requires (a, b) !in s.edges || s.edges[(a, b)].friend
    ensures Accept(s, b, a) == Reply(NotFound, s)
  {
  }

  /** Accept on any edge a -> b that is not yet accepted, pending or
      rejected: the edge becomes accepted in every case; the reverse edge is
      created accepted when absent (200), and left untouched when present
      (500, while a -> b stays accepted). */
  lemma AcceptNonFriend(s: Store, b: UserId, a: UserId)
    requires (a, b) in s.edges && !s.edges[(a, b)].friend
    ensures var r := Accept(s, b, a);
            && r.store.edges[(a, b)] == Encode(Accepted)
            && (a !in s.users ==> r.status == InternalError)
            && (a in s.users && (b, a) !in s.edges && a != b ==>
                  r.status == Ok && r.store.edges[(b, a)] == Encode(Accepted))
            && ((b, a) in s.edges && a != b ==>
                  r.status == InternalError && r.store.edges[(b, a)] == s.edges[(b, a)])
  {
  }

  /** A successful accept writes exactly the two edges a -> b and b -> a and
      leaves the two users friends of each other, with the request gone from
      the accepting user's pending list. */
  lemma AcceptSuccess(s: Store, b: UserId, a: UserId)
    requires Accept(s, b, a).status == Ok
    ensures var r := Accept(s, b, a);
            && a != b
            && Changed(s.edges, r.store.edges) == {(a, b), (b, a)}
            && a in ListFriends(r.store, b)
            && b in ListFriends(r.store, a)
            && a !in PendingRequests(r.store, b)
  {
    var r := Accept(s, b, a);
    var mid := s.edges[(a, b) := Encode(Accepted)];
    ChangedByUpdate(s.edges, (a, b), Encode(Accepted));
    ChangedByUpdate(mid, (b, a), Encode(Accepted));
    var c := Changed(s.edges, r.store.edges);
    assert (a, b) in c;
    assert (b, a) in c;
  }

  /** Accepting twice: the second call finds the edge already accepted and
      answers 404 with the store unchanged. */
  lemma AcceptTwice(s: Store, b: UserId, a: UserId)
    requires Accept(s, b, a).status != NotFound
    ensures var once := Accept(s, b, a).store;
            Accept(once, b, a) == Reply(NotFound, once)
  {
  }

  // ---- reject ----

  /** The three outcomes of reject: 404 with no edge, 400 on an accepted
      edge (both leaving the store as it was), otherwise the edge becomes
      rejected and nothing else changes. */
  lemma RejectOutcomes(s: Store, b: UserId, a: UserId)
    ensures (a, b) !in s.edges ==> Reject(s, b, a) == Reply(NotFound, s)
    ensures (a, b) in s.edges && s.edges[(a, b)].friend ==> Reject(s, b, a) == Reply(BadRequest, s)
    ensures (a, b) in s.edges && !s.edges[(a, b)].friend ==>
              var r := Reject(s, b, a);
              && r.status == Ok
              && r.store.edges.Keys == s.edges.Keys
              && r.store.edges[(a, b)] == Encode(Rejected)
              && Changed(s.edges, r.store.edges) <= {(a, b)}
  {
    ChangedByUpdate(s.edges, (a, b), Encode(Rejected));
  }

  /** Rejecting an already rejected request answers 200 again and changes nothing. */
  lemma RejectIdempotent(s: Store, b: UserId, a: UserId)
    requires Reject(s, b, a).status == Ok
    ensures var once := Reject(s, b, a).store;
            Reject(once, b, a) == Reply(Ok, once)
  {
  }

  /** After a successful reject the request is no longer pending and the
      friend lists are what they were. */
  lemma RejectSuccess(s: Store, b: UserId, a: UserId)
    requires Reject(s, b, a).status == Ok
    ensures var r := Reject(s, b, a);
            && a !in PendingRequests(r.store, b)
            && forall u :: ListFriends(r.store, u) == ListFriends(s, u)
  {
    var r := Reject(s, b, a);
    forall u ensures ListFriends(r.store, u) == ListFriends(s, u) {
      forall x ensures x in ListFriends(r.store, u) <==> x in ListFriends(s, u) {
      }
    }
  }

  // ---- invariant ----

  /** Every edge a view writes is in exactly one phase, and the views never
      add a self edge or an edge to a missing user; so `Valid` is preserved
      by send, accept and reject from an authenticated (existing) actor. */
  lemma SendPreservesValid(s: Store, a: UserId, b: UserId)
    requires Valid(s) && a in s.users
    ensures Valid(Send(s, a, b).store)
  {
  }

  lemma AcceptPreservesValid(s: Store, b: UserId, a: UserId)
    requires Valid(s) && b in s.users
    ensures Valid(Accept(s, b, a).store)
  {
  }

  lemma RejectPreservesValid(s: Store, b: UserId, a: UserId)
    requires Valid(s)
    ensures Valid(Reject(s, b, a).store)
  {
  }

  /** In a valid store the "corresponding user does not exist" branch of
      accept is dead: a 500 always means the reverse edge was already there. */
  lemma AcceptRequesterExists(s: Store, b: UserId, a: UserId)
    requires Valid(s)
    requires Accept(s, b, a).status == InternalError
    ensures (b, a) in s.edges
    ensures Accept(s, b, a).store.edges[(b, a)] == s.edges[(b, a)]
  {
  }
}

/**
 Concrete walks through the friend-request workflow between users 1 and 2,
 starting from a store with both users and no edges.
 */
module Scenarios {
  import opened Models
  import opened Views
  import opened Runs

  const Start: Store := Store({1, 2}, map[])

  /** The store after 1 has sent a request to 2. */
  const Sent: Store := Store({1, 2}, map[(1, 2) := Encode(Pending)])

  /** 1 sends to 2: one pending edge, and 1 is among 2's pending requests. */
  lemma SendFromStart()
    ensures Send(Start, 1, 2) == Reply(Created, Sent)
    ensures PendingRequests(Sent, 2) == {1}
  {
    assert 1 in PendingRequests(Sent, 2);
  }

  /** 1 sends to 2, 2 accepts: both edges are accepted, each user lists the
      other as a friend, and nobody has a pending request. */
  lemma SendThenAccept()
    ensures var accepted := Accept(Send(Start, 1, 2).store, 2, 1);
            && accepted.status == Ok
            && accepted.store.edges == map[(1, 2) := Encode(Accepted), (2, 1) := Encode(Accepted)]
            && ListFriends(accepted.store, 1) == {2}
            && ListFriends(accepted.store, 2) == {1}
            && PendingRequests(accepted.store, 1) == {}
            && PendingRequests(accepted.store, 2) == {}
  {
    SendFromStart();
    var accepted := Accept(Sent, 2, 1);
    assert accepted.status == Ok;
    assert 2 in ListFriends(accepted.store, 1);
    assert 1 in ListFriends(accepted.store, 2);
  }

  /** 1 sends to 2, 2 rejects, 1 sends again: the same edge is pending once
      more and there is still a single edge. */
  lemma SendRejectResend()
    ensures var sent := Send(Start, 1, 2);
            var rejected := Reject(sent.store, 2, 1);
            var again := Send(rejected.store, 1, 2);
            && rejected.status == Ok
            && rejected.store.edges == map[(1, 2) := Encode(Rejected)]
            && PendingRequests(rejected.store, 2) == {}
            && again.status == Created
            && again.store.edges == map[(1, 2) := Encode(Pending)]
  {
  }

  /** The same walk against the code as written: the second send raises and
      the request stays rejected. */
  lemma SendRejectResendAsWritten()
    ensures var rejected := Reject(Send(Start, 1, 2).store, 2, 1);
            var again := SendAsWritten(rejected.store, 1, 2);
            && again.status == Crash
            && again.store.edges == map[(1, 2) := Encode(Rejected)]
  {
  }

  /** A rejected request can still be accepted, since accept never looks at
      the request flag. */
  lemma AcceptAfterReject()
    ensures var rejected := Reject(Send(Start, 1, 2).store, 2, 1);
            var accepted := Accept(rejected.store, 2, 1);
            && accepted.status == Ok
            && ListFriends(accepted.store, 1) == {2}
  {
    var rejected := Reject(Send(Start, 1, 2).store, 2, 1);
    var accepted := Accept(rejected.store, 2, 1);
    assert 2 in ListFriends(accepted.store, 1);
  }

  /** Both users have sent to each other: two pending edges. */
  const Crossed: Store := Store({1, 2}, map[(1, 2) := Encode(Pending), (2, 1) := Encode(Pending)])

  /** Crossed requests are reached by two sends. */
  lemma CrossedBySends()
    ensures Send(Send(Start, 1, 2).store, 2, 1) == Reply(Created, Crossed)
  {
  }

  /** 2 accepts 1's request while its own request to 1 is pending: edge
      1 -> 2 is accepted and saved, but 2 -> 1 already exists, so the view
      answers 500 and leaves it pending. The friendship is one-sided. */
  lemma CrossedFirstAccept()
    ensures var first := Accept(Crossed, 2, 1);
            && first.status == InternalError
            && first.store.edges == map[(1, 2) := Encode(Accepted), (2, 1) := Encode(Pending)]
            && ListFriends(first.store, 1) == {2}
            && ListFriends(first.store, 2) == {}
            && PendingRequests(first.store, 1) == {2}
  {
    var first := Accept(Crossed, 2, 1);
    assert 2 in ListFriends(first.store, 1);
    assert 2 in PendingRequests(first.store, 1);
  }

  /** 1 then accepts 2's request: again 500, but now both edges are accepted. */
  lemma CrossedSecondAccept()
    ensures var second := Accept(Accept(Crossed, 2, 1).store, 1, 2);
            && second.status == InternalError
            && second.store.edges == map[(1, 2) := Encode(Accepted), (2, 1) := Encode(Accepted)]
  {
  }

  /** The accepting walk as one run of routed calls. */
  lemma SendThenAcceptAsRun()
    ensures Run(Start, [SendRequest(1, 2), AcceptRequest(2, 1)]).edges
              == map[(1, 2) := Encode(Accepted), (2, 1) := Encode(Accepted)]
  {
    var reqs := [SendRequest(1, 2), AcceptRequest(2, 1)];
    assert reqs[1..][1..] == [];
  }
}

# Friend-request state machine

A Dafny model of the friendship core of a small Django social-graph backend:
the `Friendship` relation (directed edges between users, at most one per
ordered pair, each carrying the booleans `friend_status`, `request_status`
and `reject_status`) and the views that read and change it: send, accept
and reject a friend request, list friends, and list pending requests.

- `models.dfy` (module `Models`): user ids, the `Flags` triple and its
  reading as a `Phase` (pending, accepted, rejected), the column defaults,
  the `Store` (existing user ids plus a map from ordered pairs to flags),
  `get_or_create`, deletion of a user with `CASCADE`, and `__str__`.
- `views.dfy` (module `Views`): send, accept and reject are pure functions
  from the store, the authenticated actor and the user id from the URL to a
  `Reply`, which holds an HTTP-like status (200, 201, 400, 404, 500) and the
  store afterwards. The two list queries take the store and the
  authenticated user and return a set of user ids. `SendAsWritten` is the send view exactly as written (see
  Findings). `Send` is the view as evidently intended.
- `transitions.dfy` (module `Transitions`): one lemma per case of the state
  machine, the keys each call writes, and the store invariant `Valid`. The
  invariant says every edge has existing endpoints, no edge is a self edge,
  and exactly one flag is set on each edge.
- `runs.dfy` (module `Runs`): routing of calls to the three mutating views,
  and runs of many calls. Users and edges never disappear over a run, and
  `Valid` holds after any run of authenticated calls. A send is routed to
  the corrected `Send`, so runs describe the program with the fix from
  Findings. `HandleAsWritten` and `RunAsWritten` route sends to the code
  as written and keep the same frame, because its crash saves nothing.
- `scenarios.dfy` (module `Scenarios`): concrete walks between users 1 and 2.

The model follows the views as written, including these behaviours:
- accept never looks at `request_status`, so a rejected request can be accepted;
- accept on an already accepted edge answers 404, not 400;
- when the reverse edge already exists, accept saves the forward edge as
  accepted, leaves the reverse edge as it is and answers 500, so crossed
  requests give a one-sided friendship (`Scenarios.CrossedFirstAccept`);
- reject on an already rejected edge answers 200 again;
- an edge with no flag set falls through to `get_or_create`, which finds it:
  400, or 404 when the target user is missing.

## Model

| member | source | states |
|---|---|---|
| Models.Encode | facebook/connection/models.py:8-10 | each phase is written as a flag triple with exactly one flag set: friend for accepted (views.py:180-182), request for pending (the column defaults), reject for rejected (views.py:239-241) |
| Models.Decode | facebook/connection/models.py:8-10 | the flags encode a phase exactly when exactly one of them is set |
| Models.DecodeEncode | facebook/connection/models.py:8-10 | decoding an encoded phase gives the phase back |
| Models.EncodeDecode | facebook/connection/models.py:8-10 | flags that decode to a phase are exactly that phase's encoding |
| Models.DefaultIsPending | facebook/connection/models.py:8-10 | an edge created with the column defaults (false, true, false) is a pending request |
| Models.GetOrCreate | facebook/connection/views.py:141-149 | an existing edge for the ordered pair is returned and nothing changes; otherwise exactly one edge with the defaults is added and no other edge changes |
| Models.GetOrCreateIdempotent | facebook/connection/models.py:16 | the key is unique, so a second get_or_create finds the first one's edge and changes nothing |
| Models.DeleteUser | facebook/connection/models.py:5-6 | deleting a user removes exactly the edges where that user is from_user or to_user; other edges keep their flags; foreign-key integrity is kept |
| Models.EdgeString | facebook/connection/models.py:12-13 | the string is from-name, " -> ", to-name, " : ", then "True" or "False"; it ends in "True" exactly when friend_status is set |
| Models.EdgeStringShowsOnlyFriend | facebook/connection/models.py:12-13 | two edges between the same users print the same exactly when they agree on friend_status |
| Views.Send | facebook/connection/views.py:111-160 | answers 201, 400 or 404; every refusal leaves the store unchanged; 201 means actor != target and the edge actor -> target now holds the pending flags, with no other edge changed |
| Views.SendAsWritten | facebook/connection/views.py:130-141 | crashes exactly when actor != target and the edge actor -> target is rejected; otherwise it behaves as Send |
| Views.Accept | facebook/connection/views.py:172-210 | 404 with the store unchanged exactly when the edge requester -> actor is missing or already accepted; 500 with only that edge set to accepted when the requester is missing or the reverse edge exists; 200 with both edges accepted when the reverse edge was absent |
| Views.Reject | facebook/connection/views.py:227-249 | 404 exactly when there is no edge, 400 exactly when it is accepted, both with the store unchanged; otherwise 200 with only that edge set to rejected |
| Views.ListFriends | facebook/connection/views.py:261-265 | x is listed for u exactly when the edge u -> x exists with friend_status set |
| Views.PendingRequests | facebook/connection/views.py:277-279 | x is listed for u exactly when the edge x -> u exists with request_status set |
| Transitions.SendToSelf | facebook/connection/views.py:111-115 | a request to oneself answers 400 and leaves the store unchanged, whatever the store holds |
| Transitions.SendCreatesEdge | facebook/connection/views.py:139-153 | with no edge a -> b and b an existing user, send answers 201 and adds exactly that edge with the defaults; the edge count grows by one and nothing else changes |
| Transitions.SendRefusals | facebook/connection/views.py:116-160 | accepted or pending edge: 400; no edge and unknown target: 404; edge with no flag set: 400, or 404 for an unknown target; each leaves the store unchanged |
| Transitions.SendRevivesRejected | facebook/connection/views.py:130-137 | sending over a rejected edge answers 201 and makes that same edge pending; no edge is added and only that edge changes |
| Transitions.SendAsWrittenCannotRevive | facebook/connection/views.py:130-141 | on a rejected edge the code as written raises and saves nothing, where the intended send answers 201 and changes the store |
| Transitions.SendSuccess | facebook/connection/views.py:130-153 | a successful send changes exactly the edge a -> b; afterwards a is pending for b and b is not a friend of a |
| Transitions.AcceptRefusals | facebook/connection/views.py:172-210 | with no edge a -> b, or one already accepted, accept answers 404 and leaves the store unchanged |
| Transitions.AcceptNonFriend | facebook/connection/views.py:180-203 | on any non-accepted edge, pending or rejected, a -> b becomes accepted; a missing requester gives 500; otherwise the reverse edge is created accepted with 200 when absent, and when it exists it is left as it is and the answer is 500 |
| Transitions.AcceptSuccess | facebook/connection/views.py:180-206 | a successful accept changes exactly the two edges a -> b and b -> a; both users list each other as friends and the request is no longer pending |
| Transitions.AcceptTwice | facebook/connection/views.py:176-179 | accepting again after an accept finds the edge accepted, answers 404 and changes nothing |
| Transitions.RejectOutcomes | facebook/connection/views.py:227-245 | no edge: 404; accepted edge: 400, both unchanged; otherwise 200, same keys, the edge rejected and no other edge changed |
| Transitions.RejectIdempotent | facebook/connection/views.py:239-245 | rejecting an edge that was just rejected answers 200 and changes nothing |
| Transitions.RejectSuccess | facebook/connection/views.py:239-242 | after a reject the request is not pending and every user's friend list is as before |
| Transitions.ValidEndpointsExist | facebook/connection/models.py:5-6 | a valid store has foreign-key integrity: both endpoints of every edge are existing users |
| Transitions.SendPreservesValid | facebook/connection/views.py:130-153 | from a valid store and an existing actor, send keeps every edge in exactly one phase, with existing endpoints and no self edge |
| Transitions.AcceptPreservesValid | facebook/connection/views.py:180-203 | the same for accept, including the reverse edge it creates |
| Transitions.RejectPreservesValid | facebook/connection/views.py:239-242 | the same for reject |
| Transitions.AcceptRequesterExists | facebook/connection/views.py:184-203 | in a valid store the missing-requester branch is dead: a 500 always means the reverse edge already existed and was not touched |
| Runs.HandleAnswersHttpStatus | facebook/connection/urls.py:8-10 | every routed call answers 200, 201, 400, 404 or 500 |
| Runs.Handle | facebook/connection/urls.py:8-10 | no routed call removes a user or an edge; a 400 or 404 leaves the store unchanged |
| Runs.Run | facebook/connection/views.py:105-249 | over any run of calls the users stay the same and every edge present at the start is still present |
| Runs.HandleAsWritten | facebook/connection/urls.py:8-10 | with sends routed to the code as written, no call removes a user or an edge, and a 400, 404 or crash leaves the store unchanged |
| Runs.RunAsWritten | facebook/connection/views.py:105-249 | over any run of the code as written the users stay the same and every edge present at the start is still present |
| Runs.HandlePreservesValid | facebook/connection/urls.py:8-10 | one routed call from an existing user keeps the store valid |
| Runs.RunPreservesValid | facebook/connection/views.py:105-249 | every store reachable from a valid store by authenticated calls is valid |
| Scenarios.SendFromStart | facebook/connection/views.py:139-153 | 1 sends to 2 from an empty store: 201, one pending edge 1 -> 2, and 1 is 2's only pending request |
| Scenarios.SendThenAccept | facebook/connection/views.py:139-206 | after that send, 2 accepts: two accepted edges, each user lists the other, no pending requests |
| Scenarios.SendRejectResend | facebook/connection/views.py:130-153 | send, reject, send again: the single edge 1 -> 2 is pending again |
| Scenarios.SendRejectResendAsWritten | facebook/connection/views.py:130-137 | the same walk with the code as written raises on the second send, leaving the edge rejected |
| Scenarios.AcceptAfterReject | facebook/connection/views.py:172-206 | a rejected request can still be accepted |
| Scenarios.CrossedBySends | facebook/connection/views.py:139-153 | two sends in opposite directions give two pending edges |
| Scenarios.CrossedFirstAccept | facebook/connection/views.py:180-203 | with crossed requests, the first accept answers 500, accepts 1 -> 2 and leaves 2 -> 1 pending: 1 lists 2 as a friend, 2 lists nobody |
| Scenarios.CrossedSecondAccept | facebook/connection/views.py:180-203 | the second accept answers 500 as well and leaves both edges accepted |
| Scenarios.SendThenAcceptAsRun | facebook/connection/urls.py:8-10 | routing the send and the accept as one run yields the two accepted edges |

## Left out

- `create_user`, `login_user` and `search_users` (facebook/connection/views.py:29-98): registration, token issuance, substring search and pagination are framework and database behaviour.
- facebook/connection/serializers.py: declarative field lists, password hashing and credential checks. The list views return user ids instead of serialized profiles.
- facebook/connection/helper.py: the 3-per-minute throttle on send needs a clock and a cache.
- Authentication: the actor is whoever the token names. The views do not need it to exist, and the invariant lemmas require it to be an existing user.
- The catch-all `except Exception` of accept (facebook/connection/views.py:211-215): nothing in the model can raise there. `MultipleObjectsReturned` cannot happen because the map holds one edge per ordered pair.
- The `if not friendship` test of reject (facebook/connection/views.py:231-234): a fetched row is always truthy, so this branch is dead; a missing edge is the `DoesNotExist` branch.
- Races between concurrent `get_or_create` calls, and the lack of a transaction around the two writes of accept: each call is modelled as running alone and to completion.
- Response bodies and messages: only the status of send, accept and reject is modelled. The list queries always answer 200 (facebook/connection/views.py:265, 279); the model returns only the listed user ids. An exception escaping a view is the status `Crash`, which the framework answers with 500.
- Order of the list results: the queries give no ordering, so the lists are sets.

## Findings

| source | as written | input that shows it | evidently intended | confidence | as-written member | corrected member |
|---|---|---|---|---|---|---|
| facebook/connection/views.py:130-137 | the rejected branch assigns the flags to `friendship`, a local bound only at line 141, so Python raises `UnboundLocalError` and nothing is saved | user 1 sends to user 2, user 2 rejects, user 1 sends again (`Scenarios.SendRejectResendAsWritten`) | set the same edge back to pending and answer 201 | high, not executed | Views.SendAsWritten | Views.Send |

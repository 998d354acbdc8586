/**
 The `Friendship` relation: directed edges between user ids, at most one per
 ordered pair, each carrying three status flags (friend, request, reject).
 The user table itself is an external collaborator and is represented only by
 the set of existing user ids.
 */
module Models {

  type UserId = int

  /** An ordered pair (from_user, to_user); (a, b) and (b, a) are different keys. */
  type Key = (UserId, UserId)

  datatype Option<T> = None | Some(value: T)

  /** The three boolean columns of one edge. */
  datatype Flags = Flags(friend: bool, request: bool, reject: bool)

  /** The phase an edge is meant to be in; the flags are an encoding of it. */
  datatype Phase = Pending | Accepted | Rejected

  /** The relation store: existing users and the edges between them. A map
      holds at most one value per key, which is the `unique_together`
      constraint on (from_user, to_user). */
  datatype Store = Store(users: set<UserId>, edges: map<Key, Flags>)

  /** Number of flags set on an edge. */
  function FlagCount(f: Flags): (n: nat)
    ensures n <= 3
    ensures n == 0 <==> !f.friend && !f.request && !f.reject
  {
    (if f.friend then 1 else 0) + (if f.request then 1 else 0) + (if f.reject then 1 else 0)
  }

  /** The phase invariant: exactly one of the three flags is set. */
  predicate ExactlyOne(f: Flags)
  {
    FlagCount(f) == 1
  }

  /** The flag triple the code writes for each phase: pending is the column
      default (facebook/connection/models.py:8-10, and the revive at
      facebook/connection/views.py:131-133), accepted is written at
      facebook/connection/views.py:180-182 and 194-196, rejected at
      facebook/connection/views.py:239-241. */
  function Encode(p: Phase): (f: Flags)
    ensures ExactlyOne(f)
    ensures f.friend <==> p == Accepted
    ensures f.request <==> p == Pending
    ensures f.reject <==> p == Rejected
  {
    match p
    case Pending => Flags(false, true, false)
    case Accepted => Flags(true, false, false)
    case Rejected => Flags(false, false, true)
  }

  /** Reads a phase back from the flags; `None` when the flags do not encode one. */
  function Decode(f: Flags): (p: Option<Phase>)
    ensures p.Some? <==> ExactlyOne(f)
  {
    if f.friend && !f.request && !f.reject then Some(Accepted)
    else if !f.friend && f.request && !f.reject then Some(Pending)
    else if !f.friend && !f.request && f.reject then Some(Rejected)
    else None
  }

  /** Decoding an encoded phase gives the phase back. */
  lemma DecodeEncode(p: Phase)
    ensures Decode(Encode(p)) == Some(p)
  {
  }

  /** Decoding is injective on well-formed flags: encoding the decoded phase
      gives the very same flags. */
  lemma EncodeDecode(f: Flags)
    ensures Decode(f).Some? ==> Encode(Decode(f).value) == f
  {
  }

  /** Column defaults of a fresh edge: friend false, request true, reject false. */
  const DefaultFlags: Flags := Flags(friend := false, request := true, reject := false)

  /** A freshly created edge with no explicit values is a pending request. */
  lemma DefaultIsPending()
    ensures Decode(DefaultFlags) == Some(Pending)
    ensures DefaultFlags == Encode(Pending)
  {
  }

  /** Result of `get_or_create`: the edge found or created, whether it was
      created, and the edge map afterwards. */
  datatype Fetched = Fetched(edge: Flags, created: bool, edges: map<Key, Flags>)

  /** `get_or_create(from_user, to_user, defaults=...)` on the ordered-pair key:
      an existing edge is returned untouched, otherwise one edge with the
      defaults is inserted. */
  function GetOrCreate(edges: map<Key, Flags>, k: Key, defaults: Flags): (r: Fetched)
    ensures r.created <==> k !in edges
    ensures k in r.edges && r.edges[k] == r.edge
    ensures r.edges.Keys == edges.Keys + {k}
    ensures !r.created ==> r.edge == edges[k] && r.edges == edges
    ensures r.created ==> r.edge == defaults
    ensures forall j | j in edges && j != k :: r.edges[j] == edges[j]
    ensures |r.edges| == |edges| + (if r.created then 1 else 0)
  {
    if k in edges then Fetched(edges[k], false, edges)
    else Fetched(defaults, true, edges[k := defaults])
  }

  /** Running `get_or_create` a second time finds the edge the first call
      produced and changes nothing. */
  lemma GetOrCreateIdempotent(edges: map<Key, Flags>, k: Key, defaults: Flags)
    ensures var once := GetOrCreate(edges, k, defaults);
            var twice := GetOrCreate(once.edges, k, defaults);
            !twice.created && twice.edges == once.edges && twice.edge == once.edge
  {
  }

  /** Foreign-key integrity: both endpoints of every edge are existing users. */
  ghost predicate EndpointsExist(s: Store)
  {
    forall k | k in s.edges :: k.0 in s.users && k.1 in s.users
  }

  /** Deleting a user with `on_delete=CASCADE` on both foreign keys: every edge
      the user is an endpoint of disappears, all other edges are kept as they were. */
  function DeleteUser(s: Store, u: UserId): (r: Store)
    ensures r.users == s.users - {u}
    ensures forall k :: k in r.edges <==> k in s.edges && k.0 != u && k.1 != u
    ensures forall k | k in r.edges :: r.edges[k] == s.edges[k]
    ensures EndpointsExist(s) ==> EndpointsExist(r)
  {
    Store(s.users - {u}, map k | k in s.edges && k.0 != u && k.1 != u :: s.edges[k])
  }

  /** Python's `str` of a boolean. */
  function BoolString(b: bool): string
  {
    if b then "True" else "False"
  }

  /** `Friendship.__str__`: from-username, " -> ", to-username, " : ", then the
      friend flag as "True"/"False". The usernames are looked up in the user
      table, so they are parameters here. */
  function EdgeString(fromName: string, toName: string, f: Flags): (r: string)
    ensures |r| == |fromName| + 4 + |toName| + 3 + (if f.friend then 4 else 5)
    ensures r[..|fromName|] == fromName
    ensures r[|fromName|..|fromName| + 4] == " -> "
    ensures r[|fromName| + 4..|fromName| + 4 + |toName|] == toName
    ensures r[|fromName| + 4 + |toName|..|fromName| + 7 + |toName|] == " : "
    ensures r[|fromName| + 7 + |toName|..] == BoolString(f.friend)
    ensures f.friend <==> r[|r| - 4..] == "True"
  {
    var shown := BoolString(f.friend);
    var r := fromName + " -> " + toName + " : " + shown;
    assert r[|r| - 4..] == shown[|shown| - 4..];
    r
  }

  /** The string form shows the friend flag only: two edges between the same
      users that agree on `friend` print the same, and two that disagree print
      differently. */
  lemma EdgeStringShowsOnlyFriend(fromName: string, toName: string, f: Flags, g: Flags)
    ensures EdgeString(fromName, toName, f) == EdgeString(fromName, toName, g) <==> f.friend == g.friend
  {
    if f.friend != g.friend {
      var a := EdgeString(fromName, toName, f);
      var b := EdgeString(fromName, toName, g);
      assert |a| != |b|;
    }
  }
}

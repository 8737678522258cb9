/**
 * The four tables of the outreach portal (users, requests, pairs, teams),
 * the relations the ORM derives from their foreign keys, and the
 * invariants every route keeps.
 */
module Models {

  /** A primary key. SQLite numbers rows from 1, so an id is never 0 and the
      handlers' truth tests on `pair_id` and `team_id` are tests for null. */
  type Id = x: int | 1 <= x witness 1

  datatype Option<T> = None | Some(value: T)

  const Pending := "pending"
  const StudentRole := "student"
  const AdminRole := "admin"

  /** A row of `user`. The password hash is an opaque string. */
  datatype User = User(
    username: string,
    passwordHash: string,
    name: string,
    registerNumber: string,
    section: string,
    dept: string,
    sigbedTeam: string,
    role: string,
    pairId: Option<Id>)

  /** A row of `request`: a directed pairing proposal. */
  datatype Request = Request(senderId: Id, receiverId: Id, status: string)

  /** A row of `pair`; its members are the users that point to it. */
  datatype Pair = Pair(teamId: Option<Id>)

  /** A row of `team` with its nullable mission fields. */
  datatype Team = Team(
    teamName: string,
    schoolName: Option<string>,
    outreachDate: Option<string>,
    timeInterval: Option<string>,
    topic: Option<string>,
    materialFilename: Option<string>)

  /** A request as created by the ORM: the status column defaults to pending. */
  function NewRequest(sender: Id, receiver: Id): (r: Request)
    ensures r.senderId == sender && r.receiverId == receiver && r.status == Pending
  {
    Request(sender, receiver, Pending)
  }

  /** A team as created by `Team(team_name=...)`: every mission column is null. */
  function NewTeam(name: string): (t: Team)
    ensures t.teamName == name
    ensures t.schoolName.None? && t.outreachDate.None? && t.timeInterval.None?
    ensures t.topic.None? && t.materialFilename.None?
  {
    Team(name, None, None, None, None, None)
  }

  /** `Pair.students`: the users whose pair_id is p. */
  function PairStudents(users: map<Id, User>, p: Id): (r: set<Id>)
    ensures r <= users.Keys
  {
    set u | u in users && users[u].pairId == Some(p)
  }

  /** `Team.pairs`: the pairs whose team_id is t. */
  function TeamPairs(pairs: map<Id, Pair>, t: Id): (r: set<Id>)
    ensures r <= pairs.Keys
  {
    set p | p in pairs && pairs[p].teamId == Some(t)
  }

  /** The members of any of the pairs ps. */
  function MembersOf(users: map<Id, User>, ps: set<Id>): (r: set<Id>)
    ensures r <= users.Keys
  {
    set u | u in users && users[u].pairId.Some? && users[u].pairId.value in ps
  }

  /** The students of a team: the members of its pairs. */
  function TeamMembers(users: map<Id, User>, pairs: map<Id, Pair>, t: Id): (r: set<Id>)
    ensures r <= users.Keys
  {
    MembersOf(users, TeamPairs(pairs, t))
  }

  ghost predicate SameUsername(users: map<Id, User>, a: Id, b: Id) {
    a in users && b in users && users[a].username == users[b].username
  }

  /** `username` is a unique column. */
  ghost predicate UniqueUsernames(users: map<Id, User>) {
    forall a, b :: SameUsername(users, a, b) ==> a == b
  }

  ghost predicate SameRegisterNumber(users: map<Id, User>, a: Id, b: Id) {
    a in users && b in users && users[a].registerNumber == users[b].registerNumber
  }

  /** `register_number` is a unique column. */
  ghost predicate UniqueRegisterNumbers(users: map<Id, User>) {
    forall a, b :: SameRegisterNumber(users, a, b) ==> a == b
  }

  /** Every user's pair_id names an existing pair. */
  ghost predicate PairRefsExist(users: map<Id, User>, pairs: map<Id, Pair>) {
    forall u :: u in users && users[u].pairId.Some? ==> users[u].pairId.value in pairs
  }

  /** Every pair's team_id names an existing team. */
  ghost predicate TeamRefsExist(pairs: map<Id, Pair>, teams: map<Id, Team>) {
    forall p :: p in pairs && pairs[p].teamId.Some? ==> pairs[p].teamId.value in teams
  }

  /** Users a and b are in the same pair. */
  ghost predicate SharePair(users: map<Id, User>, a: Id, b: Id) {
    a in users && b in users && users[a].pairId.Some? && users[b].pairId == users[a].pairId
  }

  /** No three distinct users share a pair. */
  ghost predicate AtMostTwoPerPair(users: map<Id, User>) {
    forall a, b, c :: SharePair(users, a, b) && SharePair(users, a, c) ==> a == b || a == c || b == c
  }

  /** Every pair has at least one member. */
  ghost predicate PairsInhabited(users: map<Id, User>, pairs: map<Id, Pair>) {
    forall p :: p in pairs ==> exists u :: u in users && users[u].pairId == Some(p)
  }

  /** Pairs a and b are in the same team. */
  ghost predicate ShareTeam(pairs: map<Id, Pair>, a: Id, b: Id) {
    a in pairs && b in pairs && pairs[a].teamId.Some? && pairs[b].teamId == pairs[a].teamId
  }

  /** No three distinct pairs share a team. */
  ghost predicate AtMostTwoPairsPerTeam(pairs: map<Id, Pair>) {
    forall a, b, c :: ShareTeam(pairs, a, b) && ShareTeam(pairs, a, c) ==> a == b || a == c || b == c
  }

  /** Request r joins two existing, unpaired users and is pending. */
  ghost predicate OpenRequest(users: map<Id, User>, q: Request) {
    && q.senderId in users && q.receiverId in users
    && users[q.senderId].pairId.None? && users[q.receiverId].pairId.None?
    && q.status == Pending
  }

  /** Every request is open: once either side pairs, its requests are gone. */
  ghost predicate RequestsOpen(users: map<Id, User>, requests: map<Id, Request>) {
    forall r :: r in requests ==> OpenRequest(users, requests[r])
  }

  /** Requests r1 and r2 are both pending and go the same way. */
  ghost predicate SamePendingDirection(requests: map<Id, Request>, r1: Id, r2: Id) {
    && r1 in requests && r2 in requests
    && requests[r1].status == Pending && requests[r2].status == Pending
    && requests[r1].senderId == requests[r2].senderId
    && requests[r1].receiverId == requests[r2].receiverId
  }

  /** At most one pending request per ordered (sender, receiver). */
  ghost predicate OnePendingPerDirection(requests: map<Id, Request>) {
    forall r1, r2 :: SamePendingDirection(requests, r1, r2) ==> r1 == r2
  }

  /** The whole database as one value. */
  datatype Tables = Tables(
    users: map<Id, User>,
    requests: map<Id, Request>,
    pairs: map<Id, Pair>,
    teams: map<Id, Team>)
  {
    ghost predicate Consistent() {
      && UniqueUsernames(users)
      && UniqueRegisterNumbers(users)
      && PairRefsExist(users, pairs)
      && TeamRefsExist(pairs, teams)
      && AtMostTwoPerPair(users)
      && PairsInhabited(users, pairs)
      && AtMostTwoPairsPerTeam(pairs)
      && RequestsOpen(users, requests)
      && OnePendingPerDirection(requests)
    }
  }

  /** Two distinct elements of a set with more than two elements leave a third. */
  lemma {:induction false} ThreeDistinct(s: set<Id>) returns (a: Id, b: Id, c: Id)
    requires |s| > 2
    ensures a in s && b in s && c in s && a != b && a != c && b != c
  {
    a :| a in s;
    var s1 := s - {a};
    assert |s1| == |s| - 1;
    b :| b in s1;
    var s2 := s1 - {b};
    assert |s2| == |s1| - 1;
    c :| c in s2;
  }

  /** No pair id is shared by three users: `Pair.students` never holds more than two. */
  lemma {:induction false} PairAtMostTwo(t: Tables, p: Id)
    requires t.Consistent()
    ensures |PairStudents(t.users, p)| <= 2
  {
    var s := PairStudents(t.users, p);
    if |s| > 2 {
      var a, b, c := ThreeDistinct(s);
      assert SharePair(t.users, a, b) && SharePair(t.users, a, c);
      assert false;
    }
  }

  /** A pair has one or two members: `Pair.students` is never empty and
      never holds three users. */
  lemma {:induction false} PairSize(t: Tables, p: Id)
    requires t.Consistent() && p in t.pairs
    ensures 1 <= |PairStudents(t.users, p)| <= 2
  {
    var w :| w in t.users && t.users[w].pairId == Some(p);
    assert w in PairStudents(t.users, p);
    PairAtMostTwo(t, p);
  }

  /** A team holds at most two pairs. */
  lemma {:induction false} TeamSize(t: Tables, tm: Id)
    requires t.Consistent()
    ensures |TeamPairs(t.pairs, tm)| <= 2
  {
    var s := TeamPairs(t.pairs, tm);
    if |s| > 2 {
      var a, b, c := ThreeDistinct(s);
      assert ShareTeam(t.pairs, a, b) && ShareTeam(t.pairs, a, c);
      assert false;
    }
  }

  /** A set of at most two ids lies within some {p, q}. */
  lemma {:induction false} AtMostTwoElements(s: set<Id>) returns (p: Id, q: Id)
    requires |s| <= 2
    ensures s <= {p, q}
  {
    p, q := 1, 1;
    if s != {} {
      p :| p in s;
      var rest := s - {p};
      q := p;
      if rest != {} {
        q :| q in rest;
        assert |rest - {q}| == |s| - 2;
      }
    }
  }

  /** The members of a team whose pairs are among p and q are members of p or q. */
  lemma {:induction false} MembersWithin(t: Tables, tm: Id, p: Id, q: Id)
    requires TeamPairs(t.pairs, tm) <= {p, q}
    ensures TeamMembers(t.users, t.pairs, tm) <= PairStudents(t.users, p) + PairStudents(t.users, q)
  {
  }

  /** A team has at most four students: two pairs of at most two. */
  lemma {:induction false} TeamHeadcount(t: Tables, tm: Id)
    requires t.Consistent()
    ensures |TeamMembers(t.users, t.pairs, tm)| <= 4
  {
    TeamSize(t, tm);
    var p, q := AtMostTwoElements(TeamPairs(t.pairs, tm));
    MembersWithin(t, tm, p, q);
    PairAtMostTwo(t, p);
    PairAtMostTwo(t, q);
    SubsetSize(TeamMembers(t.users, t.pairs, tm), PairStudents(t.users, p) + PairStudents(t.users, q));
  }

  /** A subset is no larger than its superset. */
  lemma {:induction false} SubsetSize(a: set<Id>, b: set<Id>)
    requires a <= b
    ensures |a| <= |b|
  {
    assert b == a + (b - a);
  }

  /** A pair has a non-null team_id exactly when it is in one team's `pairs`,
      and then in no other team's. */
  lemma {:induction false} PairInOneTeam(t: Tables, p: Id)
    requires t.Consistent() && p in t.pairs
    ensures t.pairs[p].teamId.Some? <==> exists tm :: tm in t.teams && p in TeamPairs(t.pairs, tm)
    ensures forall t1, t2 :: p in TeamPairs(t.pairs, t1) && p in TeamPairs(t.pairs, t2) ==> t1 == t2
  {
    if t.pairs[p].teamId.Some? {
      var tm := t.pairs[p].teamId.value;
      assert tm in t.teams && p in TeamPairs(t.pairs, tm);
    }
  }

  /** A user is paired exactly when they are among one pair's `students`,
      and then among no other pair's. */
  lemma {:induction false} UserInOnePair(t: Tables, u: Id)
    requires t.Consistent() && u in t.users
    ensures t.users[u].pairId.Some? <==> exists p :: p in t.pairs && u in PairStudents(t.users, p)
    ensures forall p1, p2 :: u in PairStudents(t.users, p1) && u in PairStudents(t.users, p2) ==> p1 == p2
  {
    if t.users[u].pairId.Some? {
      var p := t.users[u].pairId.value;
      assert p in t.pairs && u in PairStudents(t.users, p);
    }
  }

  /** Inserting an unpaired user whose username and register number are both
      new keeps every table invariant. */
  lemma {:induction false} NewUserKeepsConsistent(t: Tables, id: Id, u: User)
    requires t.Consistent() && id !in t.users && u.pairId.None?
    requires forall v :: v in t.users ==>
      (t.users[v].username != u.username && t.users[v].registerNumber != u.registerNumber)
    ensures t.(users := t.users[id := u]).Consistent()
  {
    NewUserKeepsUniqueness(t.users, id, u);
    NewUnpairedUserKeepsPairs(t.users, t.pairs, id, u);
    NewUserKeepsRequestsOpen(t.users, t.requests, id, u);
  }

  /** Inserting a user with a new username and a new register number keeps
      both columns unique. */
  lemma {:induction false} NewUserKeepsUniqueness(users: map<Id, User>, id: Id, u: User)
    requires id !in users
    requires forall v :: v in users ==>
      (users[v].username != u.username && users[v].registerNumber != u.registerNumber)
    requires UniqueUsernames(users) && UniqueRegisterNumbers(users)
    ensures UniqueUsernames(users[id := u]) && UniqueRegisterNumbers(users[id := u])
  {
    var after := users[id := u];
    forall a, b | SameUsername(after, a, b)
      ensures a == b
    {
      if a != id && b != id {
        assert SameUsername(users, a, b);
      }
    }
    forall a, b | SameRegisterNumber(after, a, b)
      ensures a == b
    {
      if a != id && b != id {
        assert SameRegisterNumber(users, a, b);
      }
    }
  }

  /** Inserting an unpaired user keeps the pair invariants. */
  lemma {:induction false} NewUnpairedUserKeepsPairs(users: map<Id, User>, pairs: map<Id, Pair>, id: Id, u: User)
    requires id !in users && u.pairId.None?
    requires PairRefsExist(users, pairs) && AtMostTwoPerPair(users) && PairsInhabited(users, pairs)
    ensures var after := users[id := u];
      PairRefsExist(after, pairs) && AtMostTwoPerPair(after) && PairsInhabited(after, pairs)
  {
    var after := users[id := u];
    forall a, b, c | SharePair(after, a, b) && SharePair(after, a, c)
      ensures a == b || a == c || b == c
    {
      assert SharePair(users, a, b) && SharePair(users, a, c);
    }
    forall p | p in pairs
      ensures exists w :: w in after && after[w].pairId == Some(p)
    {
      var w :| w in users && users[w].pairId == Some(p);
      assert after[w] == users[w];
    }
  }

  /** Inserting a user keeps every request open. */
  lemma {:induction false} NewUserKeepsRequestsOpen(users: map<Id, User>, requests: map<Id, Request>, id: Id, u: User)
    requires id !in users
    requires RequestsOpen(users, requests)
    ensures RequestsOpen(users[id := u], requests)
  {
    forall r | r in requests
      ensures OpenRequest(users[id := u], requests[r])
    {
      assert OpenRequest(users, requests[r]);
    }
  }

  /** Keeping or dropping users and changing only their pair links keeps
      both unique columns unique. */
  lemma {:induction false} RelinkKeepsUniqueness(before: map<Id, User>, after: map<Id, User>)
    requires UniqueUsernames(before) && UniqueRegisterNumbers(before)
    requires forall u :: u in after ==>
      (u in before && after[u].username == before[u].username &&
       after[u].registerNumber == before[u].registerNumber)
    ensures UniqueUsernames(after) && UniqueRegisterNumbers(after)
  {
    forall a, b | SameUsername(after, a, b)
      ensures a == b
    {
      assert SameUsername(before, a, b);
    }
    forall a, b | SameRegisterNumber(after, a, b)
      ensures a == b
    {
      assert SameRegisterNumber(before, a, b);
    }
  }

  /** Dropping requests keeps at most one pending request per direction. */
  lemma {:induction false} SubmapKeepsOnePending(before: map<Id, Request>, after: map<Id, Request>)
    requires OnePendingPerDirection(before)
    requires forall r :: r in after ==> r in before && after[r] == before[r]
    ensures OnePendingPerDirection(after)
  {
    forall r1, r2 | SamePendingDirection(after, r1, r2)
      ensures r1 == r2
    {
      assert SamePendingDirection(before, r1, r2);
    }
  }

  /** The id the database gives a new row: one more than the largest id in
      the table, or 1 for an empty table. */
  method NextId<V>(table: map<Id, V>) returns (id: Id)
    ensures id !in table
    ensures forall k :: k in table ==> k < id
    ensures id == 1 || id - 1 in table
  {
    var keys := table.Keys;
    var top: int := 0;
    while keys != {}
      invariant keys <= table.Keys
      invariant forall k :: k in table && k !in keys ==> k <= top
      invariant top == 0 || top in table
      invariant 0 <= top
      decreases keys
    {
      var k :| k in keys;
      if k > top {
        top := k;
      }
      keys := keys - {k};
    }
    id := top + 1;
  }

  /** The database session: each route reads and rewrites these four tables. */
  class Database {
    var users: map<Id, User>
    var requests: map<Id, Request>
    var pairs: map<Id, Pair>
    var teams: map<Id, Team>

    constructor ()
      ensures users == map[] && requests == map[] && pairs == map[] && teams == map[]
    {
      users, requests, pairs, teams := map[], map[], map[], map[];
    }

    function Snapshot(): Tables
      reads this
    {
      Tables(users, requests, pairs, teams)
    }

    ghost predicate Consistent()
      reads this
    {
      Snapshot().Consistent()
    }
  }

  /** The empty database is consistent. */
  lemma EmptyConsistent()
    ensures Tables(map[], map[], map[], map[]).Consistent()
  {
  }
}

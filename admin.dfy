/**
 * The administrator's routes: dashboard counts, enrolment of students and
 * administrators, deleting a student, assembling and disbanding teams,
 * dissolving a pair, assigning a mission and the per-team export totals.
 * Every route but the export first checks that the acting user is an
 * administrator and otherwise leaves the database as it is.
 */
module Admin {
  import opened Models
  import Auth
  import Student

  /** The role check at the head of every administrator route. */
  predicate IsAdmin(users: map<Id, User>, actor: Id)
    requires actor in users
  {
    users[actor].role == AdminRole
  }

  // ---------------------------------------------------------------------
  // Dashboard counts

  /** The users whose role is student. */
  function Students(users: map<Id, User>): (r: set<Id>)
    ensures r <= users.Keys
  {
    set u | u in users && users[u].role == StudentRole
  }

  /** The students without a pair. */
  function UnpairedStudents(users: map<Id, User>): (r: set<Id>)
    ensures r <= Students(users)
  {
    set u | u in users && users[u].role == StudentRole && users[u].pairId.None?
  }

  datatype Counts = Counts(totalStudents: nat, unpaired: nat, totalTeams: nat)

  /** GET /admin/dashboard: the three counts, or none for a non-administrator
      (who is sent to the student dashboard). */
  function DashboardCounts(t: Tables, actor: Id): (r: Option<Counts>)
    requires actor in t.users
    ensures r.None? <==> !IsAdmin(t.users, actor)
    ensures r.Some? ==> r.value.totalStudents == |Students(t.users)|
    ensures r.Some? ==> r.value.unpaired == |UnpairedStudents(t.users)|
    ensures r.Some? ==> r.value.totalTeams == |t.teams.Keys|
  {
    if !IsAdmin(t.users, actor) then None
    else Some(Counts(|Students(t.users)|, |UnpairedStudents(t.users)|, |t.teams.Keys|))
  }

  /** The unpaired count never exceeds the student count. */
  lemma {:induction false} UnpairedAtMostTotal(t: Tables, actor: Id)
    requires actor in t.users && IsAdmin(t.users, actor)
    ensures DashboardCounts(t, actor).value.unpaired <= DashboardCounts(t, actor).value.totalStudents
  {
    SubsetSize(UnpairedStudents(t.users), Students(t.users));
  }

  // ---------------------------------------------------------------------
  // Enrolment

  /** The fields of the enrolment form; `role` selects student or admin. */
  datatype EnrollForm = EnrollForm(
    name: string,
    username: string,
    role: string,
    registerNumber: string,
    section: string,
    dept: string,
    sigbedTeam: string)

  datatype EnrollOutcome = NotAdmin | DuplicateUsername | InvalidRole | RolledBack | Enrolled(userId: Id)

  predicate ValidRole(role: string)
  {
    role == StudentRole || role == AdminRole
  }

  /** Some user already has exactly this username (no normalisation here). */
  predicate UsernameTaken(users: map<Id, User>, username: string)
  {
    exists u :: u in users && users[u].username == username
  }

  /** Some user already has this register number. */
  predicate RegisterNumberTaken(users: map<Id, User>, registerNumber: string)
  {
    exists u :: u in users && users[u].registerNumber == registerNumber
  }

  /** The row enrolment builds: a student takes the form's identity fields,
      an administrator gets the fixed placeholder fields. */
  function Enrollee(f: EnrollForm, passwordHash: string): (u: User)
    requires ValidRole(f.role)
    ensures u.username == f.username && u.name == f.name && u.passwordHash == passwordHash
    ensures u.role == f.role && u.pairId.None?
    ensures f.role == AdminRole ==>
      && u.registerNumber == "ADMIN" && u.section == "ADMIN"
      && u.dept == "ADMINISTRATION" && u.sigbedTeam == "CORE"
    ensures f.role == StudentRole ==>
      && u.registerNumber == f.registerNumber && u.section == f.section
      && u.dept == f.dept && u.sigbedTeam == f.sigbedTeam
  {
    if f.role == StudentRole then
      User(f.username, passwordHash, f.name, f.registerNumber, f.section, f.dept, f.sigbedTeam, StudentRole, None)
    else
      User(f.username, passwordHash, f.name, "ADMIN", "ADMIN", "ADMINISTRATION", "CORE", AdminRole, None)
  }

  /** POST /admin/enroll as written. The username is stored exactly as typed.
      The new row is added to the session and the commit fails, and is rolled
      back, when its register number is already used. */
  method EnrollMemberAsWritten(db: Database, actor: Id, f: EnrollForm, passwordHash: string) returns (o: EnrollOutcome)
    requires actor in db.users
    modifies db
    ensures o.NotAdmin? <==> !IsAdmin(old(db.users), actor)
    ensures o.DuplicateUsername? <==> (IsAdmin(old(db.users), actor) && UsernameTaken(old(db.users), f.username))
    ensures o.InvalidRole? <==>
      (IsAdmin(old(db.users), actor) && !UsernameTaken(old(db.users), f.username) && !ValidRole(f.role))
    ensures o.RolledBack? <==>
      (IsAdmin(old(db.users), actor) && !UsernameTaken(old(db.users), f.username) && ValidRole(f.role) &&
       RegisterNumberTaken(old(db.users), Enrollee(f, passwordHash).registerNumber))
    ensures !o.Enrolled? ==> unchanged(db)
    ensures o.Enrolled? ==>
      && o.userId !in old(db.users)
      && db.users == old(db.users)[o.userId := Enrollee(f, passwordHash)]
      && db.requests == old(db.requests) && db.pairs == old(db.pairs) && db.teams == old(db.teams)
    ensures old(db.Consistent()) ==> db.Consistent()
  {
    if !IsAdmin(db.users, actor) {
      return EnrollOutcome.NotAdmin;
    }
    if UsernameTaken(db.users, f.username) {
      return EnrollOutcome.DuplicateUsername;
    }
    if !ValidRole(f.role) {
      return EnrollOutcome.InvalidRole;
    }
    var u := Enrollee(f, passwordHash);
    var id := NextId(db.users);
    ghost var before := db.Snapshot();
    var committed := db.users;
    db.users := db.users[id := u];
    if RegisterNumberTaken(committed, u.registerNumber) {
      db.users := committed;
      return EnrollOutcome.RolledBack;
    }
    if before.Consistent() {
      NewUserKeepsConsistent(before, id, u);
    }
    o := Enrolled(id);
  }

  /** The form with its username normalised as registration and login
      normalise it. */
  function NormalizedForm(f: EnrollForm): (g: EnrollForm)
    ensures g.username == Auth.NormalizeUsername(f.username)
    ensures g.(username := f.username) == f
  {
    f.(username := Auth.NormalizeUsername(f.username))
  }

  /** POST /admin/enroll with the username normalised before the duplicate
      check and the insert, so that the login lookup finds every enrolled
      member. */
  method EnrollMember(db: Database, actor: Id, f: EnrollForm, passwordHash: string) returns (o: EnrollOutcome)
    requires actor in db.users
    modifies db
    ensures o.NotAdmin? <==> !IsAdmin(old(db.users), actor)
    ensures o.DuplicateUsername? <==>
      (IsAdmin(old(db.users), actor) && UsernameTaken(old(db.users), Auth.NormalizeUsername(f.username)))
    ensures o.InvalidRole? <==>
      (IsAdmin(old(db.users), actor) && !UsernameTaken(old(db.users), Auth.NormalizeUsername(f.username)) &&
       !ValidRole(f.role))
    ensures o.RolledBack? <==>
      (IsAdmin(old(db.users), actor) && !UsernameTaken(old(db.users), Auth.NormalizeUsername(f.username)) &&
       ValidRole(f.role) && RegisterNumberTaken(old(db.users), Enrollee(NormalizedForm(f), passwordHash).registerNumber))
    ensures !o.Enrolled? ==> unchanged(db)
    ensures o.Enrolled? ==>
      && o.userId !in old(db.users)
      && db.users == old(db.users)[o.userId := Enrollee(NormalizedForm(f), passwordHash)]
      && db.requests == old(db.requests) && db.pairs == old(db.pairs) && db.teams == old(db.teams)
    ensures o.Enrolled? ==>
      && db.users[o.userId].username == Auth.NormalizeUsername(f.username)
      && Auth.NormalizeUsername(db.users[o.userId].username) == db.users[o.userId].username
    ensures old(db.Consistent()) ==> db.Consistent()
  {
    o := EnrollMemberAsWritten(db, actor, NormalizedForm(f), passwordHash);
    if o.Enrolled? {
      Auth.NormalizeIdempotent(f.username);
    }
  }

  /** Once any user holds the administrators' placeholder register number,
      enrolling another administrator is rolled back. */
  lemma {:induction false} SecondAdminCollides(users: map<Id, User>, f: EnrollForm, passwordHash: string, first: Id)
    requires f.role == AdminRole
    requires first in users && users[first].registerNumber == "ADMIN"
    ensures RegisterNumberTaken(users, Enrollee(f, passwordHash).registerNumber)
  {
    assert users[first].registerNumber == Enrollee(f, passwordHash).registerNumber;
  }

  // ---------------------------------------------------------------------
  // Deleting a student

  datatype DeleteOutcome = NotAdmin | NotFound | StillPaired | Crashed | Deleted

  /** Some request has u as its sender or its receiver: a request that
      `Student.Touches` with u in both places (see `WithoutRequestsIsPurge`). */
  predicate HasRequests(requests: map<Id, Request>, u: Id)
  {
    exists r :: r in requests && (requests[r].senderId == u || requests[r].receiverId == u)
  }

  /** GET /admin/delete_student/<uid> as written. Deleting a user makes the
      ORM null the non-nullable sender or receiver column of each of the
      user's requests, so the commit fails with a server error and nothing
      is deleted. */
  method DeleteStudentAsWritten(db: Database, actor: Id, uid: Id) returns (o: DeleteOutcome)
    requires actor in db.users
    modifies db
    ensures o.NotAdmin? <==> !IsAdmin(old(db.users), actor)
    ensures o.NotFound? <==> IsAdmin(old(db.users), actor) && uid !in old(db.users)
    ensures o.StillPaired? <==>
      (IsAdmin(old(db.users), actor) && uid in old(db.users) && old(db.users)[uid].pairId.Some?)
    ensures o.Crashed? <==>
      (IsAdmin(old(db.users), actor) && uid in old(db.users) && old(db.users)[uid].pairId.None? &&
       HasRequests(old(db.requests), uid))
    ensures !o.Deleted? ==> unchanged(db)
    ensures o.Deleted? ==>
      && db.users == old(db.users) - {uid}
      && db.requests == old(db.requests) && db.pairs == old(db.pairs) && db.teams == old(db.teams)
    ensures old(db.Consistent()) ==> db.Consistent()
  {
    if !IsAdmin(db.users, actor) {
      return DeleteOutcome.NotAdmin;
    }
    if uid !in db.users {
      return DeleteOutcome.NotFound;
    }
    if db.users[uid].pairId.Some? {
      return DeleteOutcome.StillPaired;
    }
    if HasRequests(db.requests, uid) {
      return DeleteOutcome.Crashed;
    }
    ghost var before := db.Snapshot();
    db.users := db.users - {uid};
    if before.Consistent() {
      DeleteUnlinkedKeepsConsistent(before, uid);
    }
    o := DeleteOutcome.Deleted;
  }

  /** The request table without the requests u sent or received; the same
      table as the accept route's purge for the pair (u, u). */
  function WithoutRequestsOf(requests: map<Id, Request>, u: Id): (r: map<Id, Request>)
    ensures !HasRequests(r, u)
    ensures forall k :: k in r ==> k in requests && r[k] == requests[k]
    ensures forall k :: k in requests && requests[k].senderId != u && requests[k].receiverId != u ==> k in r
  {
    map k | k in requests && requests[k].senderId != u && requests[k].receiverId != u :: requests[k]
  }

  /** Deleting one user's requests is the accept route's purge with that user
      in both places, and a user has requests exactly when one touches it. */
  lemma {:induction false} WithoutRequestsIsPurge(requests: map<Id, Request>, u: Id)
    ensures WithoutRequestsOf(requests, u) == Student.Purge(requests, u, u)
    ensures HasRequests(requests, u) <==> exists k :: k in requests && Student.Touches(requests[k], u, u)
  {
    var w := WithoutRequestsOf(requests, u);
    var p := Student.Purge(requests, u, u);
    assert w.Keys == p.Keys;
  }

  /** GET /admin/delete_student/<uid> with the student's requests deleted
      along with the student, so an unpaired student is always removed. */
  method DeleteStudent(db: Database, actor: Id, uid: Id) returns (o: DeleteOutcome)
    requires actor in db.users
    modifies db
    ensures o.NotAdmin? <==> !IsAdmin(old(db.users), actor)
    ensures o.NotFound? <==> IsAdmin(old(db.users), actor) && uid !in old(db.users)
    ensures o.StillPaired? <==>
      (IsAdmin(old(db.users), actor) && uid in old(db.users) && old(db.users)[uid].pairId.Some?)
    ensures o.Deleted? <==>
      (IsAdmin(old(db.users), actor) && uid in old(db.users) && old(db.users)[uid].pairId.None?)
    ensures !o.Deleted? ==> unchanged(db)
    ensures o.Deleted? ==>
      && db.users == old(db.users) - {uid}
      && db.requests == WithoutRequestsOf(old(db.requests), uid)
      && db.pairs == old(db.pairs) && db.teams == old(db.teams)
    ensures old(db.Consistent()) ==> db.Consistent()
  {
    if !IsAdmin(db.users, actor) {
      return DeleteOutcome.NotAdmin;
    }
    if uid !in db.users {
      return DeleteOutcome.NotFound;
    }
    if db.users[uid].pairId.Some? {
      return DeleteOutcome.StillPaired;
    }
    ghost var before := db.Snapshot();
    db.requests := WithoutRequestsOf(db.requests, uid);
    db.users := db.users - {uid};
    if before.Consistent() {
      DropRequestsKeepsConsistent(before, uid);
      DeleteUnlinkedKeepsConsistent(before.(requests := WithoutRequestsOf(before.requests, uid)), uid);
    }
    o := DeleteOutcome.Deleted;
  }

  /** A request just sent involves its sender and its receiver, so the
      deletion as written fails for both of them until the request is gone. */
  lemma {:induction false} SentRequestBlocksDelete(requests: map<Id, Request>, id: Id, sender: Id, receiver: Id)
    ensures HasRequests(requests[id := NewRequest(sender, receiver)], sender)
    ensures HasRequests(requests[id := NewRequest(sender, receiver)], receiver)
  {
    var after := requests[id := NewRequest(sender, receiver)];
    assert id in after && after[id].senderId == sender && after[id].receiverId == receiver;
  }

  /** Deleting some user's requests keeps every invariant. */
  lemma {:induction false} DropRequestsKeepsConsistent(t: Tables, uid: Id)
    requires t.Consistent()
    ensures t.(requests := WithoutRequestsOf(t.requests, uid)).Consistent()
  {
    var kept := WithoutRequestsOf(t.requests, uid);
    forall r | r in kept
      ensures OpenRequest(t.users, kept[r])
    {
      assert OpenRequest(t.users, t.requests[r]);
    }
    SubmapKeepsOnePending(t.requests, kept);
  }

  /** Removing a user that has no pair and no requests keeps every invariant. */
  lemma {:induction false} DeleteUnlinkedKeepsConsistent(t: Tables, uid: Id)
    requires t.Consistent() && uid in t.users && t.users[uid].pairId.None?
    requires !HasRequests(t.requests, uid)
    ensures t.(users := t.users - {uid}).Consistent()
  {
    var after := t.users - {uid};
    RelinkKeepsUniqueness(t.users, after);
    forall a, b, c | SharePair(after, a, b) && SharePair(after, a, c)
      ensures a == b || a == c || b == c
    {
      assert SharePair(t.users, a, b) && SharePair(t.users, a, c);
    }
    forall p | p in t.pairs
      ensures exists w :: w in after && after[w].pairId == Some(p)
    {
      var w :| w in t.users && t.users[w].pairId == Some(p);
      assert w in after;
    }
    forall r | r in t.requests
      ensures OpenRequest(after, t.requests[r])
    {
      assert OpenRequest(t.users, t.requests[r]);
    }
  }

  // ---------------------------------------------------------------------
  // Assembling a team

  datatype CreateOutcome = NotAdmin | SamePair | Created(teamId: Id)

  /** The pair table once every pair named in `ids` is linked to team tm. */
  function Linked(pairs: map<Id, Pair>, ids: seq<int>, tm: Id): (r: map<Id, Pair>)
    ensures r.Keys == pairs.Keys
    ensures forall p :: p in ids && p in pairs ==> r[p].teamId == Some(tm)
  {
    map p | p in pairs :: if p in ids then pairs[p].(teamId := Some(tm)) else pairs[p]
  }

  /** POST /admin/create_team. The two form values are looked up in turn; a
      value naming no pair is skipped, and a pair already in a team is moved
      to the new one. */
  method CreateTeam(db: Database, actor: Id, name: string, pair1: int, pair2: int) returns (o: CreateOutcome)
    requires actor in db.users
    modifies db
    ensures o.NotAdmin? <==> !IsAdmin(old(db.users), actor)
    ensures o.SamePair? <==> IsAdmin(old(db.users), actor) && pair1 == pair2
    ensures !o.Created? ==> unchanged(db)
    ensures o.Created? ==>
      && o.teamId !in old(db.teams)
      && db.teams == old(db.teams)[o.teamId := NewTeam(name)]
      && db.pairs == Linked(old(db.pairs), [pair1, pair2], o.teamId)
      && db.users == old(db.users) && db.requests == old(db.requests)
    ensures old(db.Consistent()) ==> db.Consistent()
  {
    if !IsAdmin(db.users, actor) {
      return CreateOutcome.NotAdmin;
    }
    if pair1 == pair2 {
      return SamePair;
    }
    var tm := NextId(db.teams);
    ghost var before := db.Snapshot();
    db.teams := db.teams[tm := NewTeam(name)];
    var ids := [pair1, pair2];
    for i := 0 to |ids|
      invariant db.pairs == Linked(before.pairs, ids[..i], tm)
      invariant db.users == before.users && db.requests == before.requests
      invariant db.teams == before.teams[tm := NewTeam(name)]
    {
      if ids[i] >= 1 && ids[i] in db.pairs {
        var p: Id := ids[i];
        db.pairs := db.pairs[p := db.pairs[p].(teamId := Some(tm))];
      }
      assert ids[..i + 1] == ids[..i] + [ids[i]];
    }
    assert ids[..|ids|] == ids;
    if before.Consistent() {
      LinkKeepsConsistent(before, name, tm, pair1, pair2);
    }
    o := Created(tm);
  }

  /** A new team holds exactly the existing pairs among those named; every
      other team loses the named pairs and keeps the rest. */
  lemma {:induction false} LinkedTeamPairs(pairs: map<Id, Pair>, teams: map<Id, Team>, tm: Id, ids: seq<int>, other: Id)
    requires TeamRefsExist(pairs, teams) && tm !in teams
    ensures TeamPairs(Linked(pairs, ids, tm), tm) == set p | p in pairs && p in ids
    ensures other != tm ==> TeamPairs(Linked(pairs, ids, tm), other) == set p | p in TeamPairs(pairs, other) && p !in ids
  {
    var after := Linked(pairs, ids, tm);
    forall p | p in TeamPairs(after, tm)
      ensures p in ids
    {
      assert p in pairs;
    }
  }

  /** Linking one or two pairs to a fresh team keeps every invariant. */
  lemma {:induction false} LinkKeepsConsistent(t: Tables, name: string, tm: Id, pair1: int, pair2: int)
    requires t.Consistent() && tm !in t.teams
    ensures t.(teams := t.teams[tm := NewTeam(name)], pairs := Linked(t.pairs, [pair1, pair2], tm)).Consistent()
  {
    var pairs := Linked(t.pairs, [pair1, pair2], tm);
    var teams := t.teams[tm := NewTeam(name)];
    LinkKeepsPairInvariants(t.users, t.pairs, pairs);
    forall x, y, z | ShareTeam(pairs, x, y) && ShareTeam(pairs, x, z)
      ensures x == y || x == z || y == z
    {
      if pairs[x].teamId == Some(tm) {
        assert x in [pair1, pair2] && y in [pair1, pair2] && z in [pair1, pair2];
      } else {
        assert ShareTeam(t.pairs, x, y) && ShareTeam(t.pairs, x, z);
      }
    }
  }

  /** Changing only team links keeps the pair invariants, which do not read them. */
  lemma {:induction false} LinkKeepsPairInvariants(users: map<Id, User>, pairs: map<Id, Pair>, pairs': map<Id, Pair>)
    requires pairs'.Keys == pairs.Keys
    requires PairRefsExist(users, pairs) && PairsInhabited(users, pairs)
    ensures PairRefsExist(users, pairs') && PairsInhabited(users, pairs')
  {
    forall p | p in pairs'
      ensures exists w :: w in users && users[w].pairId == Some(p)
    {
      assert p in pairs;
    }
  }

  // ---------------------------------------------------------------------
  // Disbanding a team

  datatype DisbandOutcome = NotAdmin | NotFound | RolledBack | Disbanded(removedFile: Option<string>)

  /** The pair table once every pair of team tm is unlinked from it. */
  function Unlinked(pairs: map<Id, Pair>, tm: Id): (r: map<Id, Pair>)
    ensures r.Keys == pairs.Keys
    ensures forall p :: p in r ==> r[p].teamId != Some(tm)
  {
    map p | p in pairs :: if pairs[p].teamId == Some(tm) then pairs[p].(teamId := None) else pairs[p]
  }

  /** The team's material file, when its stored name is not empty. */
  function MaterialFile(team: Team): (r: Option<string>)
    ensures r.Some? ==> r == team.materialFilename && r.value != ""
  {
    if team.materialFilename.Some? && team.materialFilename.value != "" then team.materialFilename else None
  }

  /** POST /disband_team/<tm>. `removalFails` says whether removing the
      team's material file raises, which rolls the whole route back. */
  method DisbandTeam(db: Database, actor: Id, tm: Id, removalFails: bool) returns (o: DisbandOutcome)
    requires actor in db.users
    modifies db
    ensures o.NotAdmin? <==> !IsAdmin(old(db.users), actor)
    ensures o.NotFound? <==> IsAdmin(old(db.users), actor) && tm !in old(db.teams)
    ensures o.RolledBack? <==>
      (IsAdmin(old(db.users), actor) && tm in old(db.teams) && MaterialFile(old(db.teams)[tm]).Some? && removalFails)
    ensures !o.Disbanded? ==> unchanged(db)
    ensures o.Disbanded? ==>
      && o.removedFile == MaterialFile(old(db.teams)[tm])
      && db.teams == old(db.teams) - {tm}
      && db.pairs == Unlinked(old(db.pairs), tm)
      && db.users == old(db.users) && db.requests == old(db.requests)
    ensures old(db.Consistent()) ==> db.Consistent()
  {
    if !IsAdmin(db.users, actor) {
      return DisbandOutcome.NotAdmin;
    }
    if tm !in db.teams {
      return DisbandOutcome.NotFound;
    }
    // The unlinking happens in the session and reaches the tables only
    // when the route commits.
    var team := db.teams[tm];
    var pairs := db.pairs;
    var todo := TeamPairs(db.pairs, tm);
    while todo != {}
      invariant todo <= TeamPairs(db.pairs, tm)
      invariant pairs.Keys == db.pairs.Keys
      invariant forall p :: p in db.pairs ==>
        pairs[p] == (if p in TeamPairs(db.pairs, tm) && p !in todo then db.pairs[p].(teamId := None) else db.pairs[p])
      decreases todo
    {
      var p :| p in todo;
      pairs := pairs[p := pairs[p].(teamId := None)];
      todo := todo - {p};
    }
    assert pairs == Unlinked(db.pairs, tm);
    var file := MaterialFile(team);
    if file.Some? && removalFails {
      return DisbandOutcome.RolledBack;
    }
    ghost var before := db.Snapshot();
    db.pairs := pairs;
    db.teams := db.teams - {tm};
    if before.Consistent() {
      UnlinkKeepsConsistent(before, tm);
    }
    o := Disbanded(file);
  }

  /** After unlinking, no pair refers to the team, every other team keeps its
      pairs, and no user changes pair. */
  lemma {:induction false} UnlinkedTeamPairs(pairs: map<Id, Pair>, tm: Id, other: Id)
    ensures TeamPairs(Unlinked(pairs, tm), tm) == {}
    ensures other != tm ==> TeamPairs(Unlinked(pairs, tm), other) == TeamPairs(pairs, other)
  {
    var after := Unlinked(pairs, tm);
    forall p | p in after
      ensures after[p].teamId != Some(tm)
    {
    }
  }

  /** Unlinking a team's pairs and deleting the team keeps every invariant. */
  lemma {:induction false} UnlinkKeepsConsistent(t: Tables, tm: Id)
    requires t.Consistent()
    ensures t.(teams := t.teams - {tm}, pairs := Unlinked(t.pairs, tm)).Consistent()
  {
    var pairs := Unlinked(t.pairs, tm);
    LinkKeepsPairInvariants(t.users, t.pairs, pairs);
    forall p | p in pairs && pairs[p].teamId.Some?
      ensures pairs[p].teamId.value in t.teams - {tm}
    {
      assert t.pairs[p].teamId.value in t.teams;
    }
    forall x, y, z | ShareTeam(pairs, x, y) && ShareTeam(pairs, x, z)
      ensures x == y || x == z || y == z
    {
      assert ShareTeam(t.pairs, x, y) && ShareTeam(t.pairs, x, z);
    }
  }

  // ---------------------------------------------------------------------
  // Dissolving a pair

  datatype UnpairOutcome = NotAdmin | NotFound | NotPaired | Crashed | Unpaired(pairId: Id)

  /** The user table once no user points to pair p any more. */
  function Dissolved(users: map<Id, User>, p: Id): (r: map<Id, User>)
    ensures forall u :: u in r ==> r[u].pairId != Some(p)
  {
    map u | u in users :: if users[u].pairId == Some(p) then users[u].(pairId := None) else users[u]
  }

  /** GET /admin/unpair_student/<uid>. The student and some other member
      of the pair are unlinked, then the pair row is deleted; the ORM unlinks
      any member still pointing to it. `Crashed` is the server error when the
      student's pair row is missing. */
  method UnpairStudent(db: Database, actor: Id, uid: Id) returns (o: UnpairOutcome)
    requires actor in db.users
    modifies db
    ensures o.NotAdmin? <==> !IsAdmin(old(db.users), actor)
    ensures o.NotFound? <==> IsAdmin(old(db.users), actor) && uid !in old(db.users)
    ensures o.NotPaired? <==>
      (IsAdmin(old(db.users), actor) && uid in old(db.users) && old(db.users)[uid].pairId.None?)
    ensures o.Crashed? <==>
      (IsAdmin(old(db.users), actor) && uid in old(db.users) && old(db.users)[uid].pairId.Some? &&
       old(db.users)[uid].pairId.value !in old(db.pairs))
    ensures !o.Unpaired? ==> unchanged(db)
    ensures o.Unpaired? ==>
      && old(db.users)[uid].pairId == Some(o.pairId)
      && db.users == Dissolved(old(db.users), o.pairId)
      && db.pairs == old(db.pairs) - {o.pairId}
      && db.requests == old(db.requests) && db.teams == old(db.teams)
      && uid in db.users && db.users[uid].pairId.None?
    ensures old(db.Consistent()) ==> !o.Crashed? && db.Consistent()
  {
    if !IsAdmin(db.users, actor) {
      return UnpairOutcome.NotAdmin;
    }
    if uid !in db.users {
      return UnpairOutcome.NotFound;
    }
    if db.users[uid].pairId.None? {
      return NotPaired;
    }
    var p := db.users[uid].pairId.value;
    if p !in db.pairs {
      return UnpairOutcome.Crashed;
    }
    ghost var before := db.Snapshot();
    var users := db.users;
    var others := PairStudents(users, p) - {uid};
    ClearMemberThenDissolve(users, uid, p);
    var cleared := users[uid := users[uid].(pairId := None)];
    if others != {} {
      var partner :| partner in others;
      ClearMemberThenDissolve(cleared, partner, p);
      cleared := cleared[partner := cleared[partner].(pairId := None)];
    }
    db.users := Dissolved(cleared, p);
    db.pairs := db.pairs - {p};
    if before.Consistent() {
      DissolveKeepsConsistent(before, p);
    }
    o := Unpaired(p);
  }

  /** Unlinking one member first does not change the table the pair's
      deletion leaves. */
  lemma {:induction false} ClearMemberThenDissolve(users: map<Id, User>, u: Id, p: Id)
    requires u in users && users[u].pairId == Some(p)
    ensures Dissolved(users[u := users[u].(pairId := None)], p) == Dissolved(users, p)
  {
    var cleared := users[u := users[u].(pairId := None)];
    assert forall v :: v in cleared ==> Dissolved(cleared, p)[v] == Dissolved(users, p)[v];
  }

  /** After the pair is dissolved nobody points to it and everybody else keeps
      their pair. */
  lemma {:induction false} DissolvedMembers(users: map<Id, User>, p: Id, q: Id)
    ensures PairStudents(Dissolved(users, p), p) == {}
    ensures q != p ==> PairStudents(Dissolved(users, p), q) == PairStudents(users, q)
  {
    var after := Dissolved(users, p);
    forall u | u in after
      ensures after[u].pairId != Some(p)
    {
    }
  }

  /** Unlinking every member of pair p and deleting p keeps every invariant;
      a team that held p keeps its other pair. */
  lemma {:induction false} DissolveKeepsConsistent(t: Tables, p: Id)
    requires t.Consistent() && p in t.pairs
    ensures t.(users := Dissolved(t.users, p), pairs := t.pairs - {p}).Consistent()
  {
    DissolveKeepsUserInvariants(t.users, t.pairs, t.requests, p);
    var pairs := t.pairs - {p};
    forall x, y, z | ShareTeam(pairs, x, y) && ShareTeam(pairs, x, z)
      ensures x == y || x == z || y == z
    {
      assert ShareTeam(t.pairs, x, y) && ShareTeam(t.pairs, x, z);
    }
  }

  lemma {:induction false} DissolveKeepsUserInvariants(users: map<Id, User>, pairs: map<Id, Pair>,
                                                       requests: map<Id, Request>, p: Id)
    requires UniqueUsernames(users) && UniqueRegisterNumbers(users)
    requires PairRefsExist(users, pairs) && AtMostTwoPerPair(users) && PairsInhabited(users, pairs)
    requires RequestsOpen(users, requests)
    ensures var after := Dissolved(users, p);
      && UniqueUsernames(after) && UniqueRegisterNumbers(after)
      && PairRefsExist(after, pairs - {p}) && AtMostTwoPerPair(after) && PairsInhabited(after, pairs - {p})
      && RequestsOpen(after, requests)
  {
    var after := Dissolved(users, p);
    RelinkKeepsUniqueness(users, after);
    forall a, b, c | SharePair(after, a, b) && SharePair(after, a, c)
      ensures a == b || a == c || b == c
    {
      assert SharePair(users, a, b) && SharePair(users, a, c);
    }
    forall q | q in pairs - {p}
      ensures exists w :: w in after && after[w].pairId == Some(q)
    {
      var w :| w in users && users[w].pairId == Some(q);
      assert after[w] == users[w];
    }
    forall r | r in requests
      ensures OpenRequest(after, requests[r])
    {
      assert OpenRequest(users, requests[r]);
    }
  }

  // ---------------------------------------------------------------------
  // Assigning a mission

  /** The mission fields of the form; a field left out of the form is null. */
  datatype MissionForm = MissionForm(
    schoolName: Option<string>,
    outreachDate: Option<string>,
    timeInterval: Option<string>,
    topic: Option<string>)

  datatype MissionOutcome = NotAdmin | NotFound | Crashed | Assigned

  /** A file came with the form and its name is not empty. */
  predicate Uploaded(upload: Option<string>)
  {
    upload.Some? && upload.value != ""
  }

  /** The team row after a mission: the four fields overwritten, the material
      file replaced only by a stored upload. */
  function WithMission(team: Team, f: MissionForm, stored: Option<string>): (r: Team)
    ensures r.teamName == team.teamName
    ensures stored.None? ==> r.materialFilename == team.materialFilename
  {
    team.(schoolName := f.schoolName, outreachDate := f.outreachDate,
          timeInterval := f.timeInterval, topic := f.topic,
          materialFilename := if stored.Some? then stored else team.materialFilename)
  }

  /** POST /admin/assign-mission/<tm>. `upload` is the name of the file sent
      with the form, if any, `storedName` the name the upload is saved under,
      and `saveFails` whether saving it raises (a server error; nothing is
      committed). */
  method AssignMission(db: Database, actor: Id, tm: Id, f: MissionForm, upload: Option<string>,
                       storedName: string, saveFails: bool) returns (o: MissionOutcome)
    requires actor in db.users
    modifies db
    ensures o.NotAdmin? <==> !IsAdmin(old(db.users), actor)
    ensures o.NotFound? <==> IsAdmin(old(db.users), actor) && tm !in old(db.teams)
    ensures o.Crashed? <==> IsAdmin(old(db.users), actor) && tm in old(db.teams) && Uploaded(upload) && saveFails
    ensures !o.Assigned? ==> unchanged(db)
    ensures o.Assigned? ==>
      && db.teams == old(db.teams)[tm := WithMission(old(db.teams)[tm], f, if Uploaded(upload) then Some(storedName) else None)]
      && db.users == old(db.users) && db.pairs == old(db.pairs) && db.requests == old(db.requests)
    ensures old(db.Consistent()) ==> db.Consistent()
  {
    if !IsAdmin(db.users, actor) {
      return MissionOutcome.NotAdmin;
    }
    if tm !in db.teams {
      return MissionOutcome.NotFound;
    }
    var team := db.teams[tm];
    team := team.(schoolName := f.schoolName);
    team := team.(outreachDate := f.outreachDate);
    team := team.(timeInterval := f.timeInterval);
    team := team.(topic := f.topic);
    if Uploaded(upload) {
      if saveFails {
        return MissionOutcome.Crashed;
      }
      team := team.(materialFilename := Some(storedName));
    }
    ghost var before := db.Snapshot();
    db.teams := db.teams[tm := team];
    if before.Consistent() {
      RewriteTeamKeepsConsistent(before, tm, team);
    }
    o := Assigned;
  }

  /** A mission keeps the team's name and sets each mission field to the
      form's value; the material file changes only with a stored upload. */
  lemma {:induction false} MissionFields(team: Team, f: MissionForm, upload: Option<string>, storedName: string)
    ensures var r := WithMission(team, f, if Uploaded(upload) then Some(storedName) else None);
      && r.teamName == team.teamName
      && r.schoolName == f.schoolName && r.outreachDate == f.outreachDate
      && r.timeInterval == f.timeInterval && r.topic == f.topic
      && (r.materialFilename != team.materialFilename ==> Uploaded(upload))
      && (Uploaded(upload) ==> r.materialFilename == Some(storedName))
  {
  }

  /** Rewriting an existing team row keeps every invariant. */
  lemma {:induction false} RewriteTeamKeepsConsistent(t: Tables, tm: Id, team: Team)
    requires t.Consistent() && tm in t.teams
    ensures t.(teams := t.teams[tm := team]).Consistent()
  {
    var teams := t.teams[tm := team];
    forall p | p in t.pairs && t.pairs[p].teamId.Some?
      ensures t.pairs[p].teamId.value in teams
    {
    }
  }

  // ---------------------------------------------------------------------
  // Team export

  /** One line of the team export. */
  datatype TeamRow = TeamRow(
    teamId: Id,
    teamName: string,
    school: string,
    outreachDate: string,
    topic: string,
    totalPairs: nat,
    totalStudents: nat,
    active: bool)

  datatype Export = Exported(rows: map<Id, TeamRow>) | ExportFailed

  /** A nullable text column as a cell: empty when null. */
  function Cell(v: Option<string>): string
  {
    if v.Some? then v.value else ""
  }

  /** The line the export intends for team tm. */
  function ExpectedRow(t: Tables, tm: Id): (r: TeamRow)
    requires tm in t.teams
    ensures r.teamId == tm && r.teamName == t.teams[tm].teamName
    ensures r.active <==> r.totalPairs > 0
  {
    var team := t.teams[tm];
    TeamRow(tm, team.teamName, Cell(team.schoolName), Cell(team.outreachDate), Cell(team.topic),
            |TeamPairs(t.pairs, tm)|, |TeamMembers(t.users, t.pairs, tm)|, TeamPairs(t.pairs, tm) != {})
  }

  /** The per-team totals: the number of pairs, and the sum over the pairs of
      their member counts, which counts every member of the team once. */
  method TeamTotals(t: Tables, tm: Id) returns (totalPairs: nat, totalStudents: nat)
    ensures totalPairs == |TeamPairs(t.pairs, tm)|
    ensures totalStudents == |TeamMembers(t.users, t.pairs, tm)|
  {
    var done: set<Id> := {};
    var todo := TeamPairs(t.pairs, tm);
    totalStudents := 0;
    while todo != {}
      invariant todo !! done && todo + done == TeamPairs(t.pairs, tm)
      invariant totalStudents == |MembersOf(t.users, done)|
      decreases todo
    {
      var p :| p in todo;
      MembersOfAddPair(t.users, done, p);
      totalStudents := totalStudents + |PairStudents(t.users, p)|;
      done := done + {p};
      todo := todo - {p};
    }
    totalPairs := |TeamPairs(t.pairs, tm)|;
  }

  /** Adding a pair to a set of pairs adds exactly its members, none of whom
      is already counted. */
  lemma {:induction false} MembersOfAddPair(users: map<Id, User>, ps: set<Id>, p: Id)
    requires p !in ps
    ensures |MembersOf(users, ps + {p})| == |MembersOf(users, ps)| + |PairStudents(users, p)|
  {
    assert MembersOf(users, ps + {p}) == MembersOf(users, ps) + PairStudents(users, p);
    assert MembersOf(users, ps) !! PairStudents(users, p);
  }

  /** The line for one team, its date cell included. */
  method TeamLine(t: Tables, tm: Id) returns (row: TeamRow)
    requires tm in t.teams
    ensures row == ExpectedRow(t, tm)
  {
    var team := t.teams[tm];
    var totalPairs, totalStudents := TeamTotals(t, tm);
    row := TeamRow(tm, team.teamName, Cell(team.schoolName), Cell(team.outreachDate), Cell(team.topic),
                   totalPairs, totalStudents, TeamPairs(t.pairs, tm) != {});
  }

  /** In a consistent database a team line shows at most two pairs and four
      students, and the team is active exactly when it has a student. */
  lemma {:induction false} TeamRowBounds(t: Tables, tm: Id)
    requires t.Consistent() && tm in t.teams
    ensures ExpectedRow(t, tm).totalPairs <= 2
    ensures ExpectedRow(t, tm).totalStudents <= 4
    ensures ExpectedRow(t, tm).active <==> ExpectedRow(t, tm).totalStudents > 0
  {
    TeamSize(t, tm);
    TeamHeadcount(t, tm);
    if p :| p in TeamPairs(t.pairs, tm) {
      var w :| w in t.users && t.users[w].pairId == Some(p);
      assert w in TeamMembers(t.users, t.pairs, tm);
    }
    if w :| w in TeamMembers(t.users, t.pairs, tm) {
      assert t.users[w].pairId.value in TeamPairs(t.pairs, tm);
    }
  }

  /** The date column is formatted with a date method that the stored text
      does not have, so a team with a non-empty outreach date raises. */
  predicate DateFormatFails(team: Team)
  {
    team.outreachDate.Some? && team.outreachDate.value != ""
  }

  /** Some team's date makes the export as written fail. */
  predicate ExportBreaks(teams: map<Id, Team>)
  {
    exists tm :: tm in teams && DateFormatFails(teams[tm])
  }

  /** GET /export/teams as written: a line per team, or the error flash as
      soon as one team's outreach date is set. */
  method ExportTeamsAsWritten(t: Tables) returns (e: Export)
    ensures e.ExportFailed? <==> ExportBreaks(t.teams)
    ensures e.Exported? ==> e.rows == map tm | tm in t.teams :: ExpectedRow(t, tm)
  {
    var rows: map<Id, TeamRow> := map[];
    var todo := t.teams.Keys;
    while todo != {}
      invariant todo <= t.teams.Keys
      invariant rows == map tm | tm in t.teams && tm !in todo :: ExpectedRow(t, tm)
      invariant forall tm :: tm in t.teams && tm !in todo ==> !DateFormatFails(t.teams[tm])
      decreases todo
    {
      var tm :| tm in todo;
      if DateFormatFails(t.teams[tm]) {
        return ExportFailed;
      }
      var row := TeamLine(t, tm);
      rows := rows[tm := row];
      todo := todo - {tm};
    }
    e := Exported(rows);
  }

  /** Assigning a mission with a non-empty outreach date to any team makes
      the export as written fail from then on. */
  lemma {:induction false} MissionDateBreaksExport(teams: map<Id, Team>, tm: Id, f: MissionForm, stored: Option<string>)
    requires tm in teams
    requires f.outreachDate.Some? && f.outreachDate.value != ""
    ensures ExportBreaks(teams[tm := WithMission(teams[tm], f, stored)])
  {
    var after := teams[tm := WithMission(teams[tm], f, stored)];
    assert tm in after && DateFormatFails(after[tm]);
  }

  /** GET /export/teams with the date written as stored: a line for every
      team, each showing the team's own date. */
  method ExportTeams(t: Tables) returns (rows: map<Id, TeamRow>)
    ensures rows.Keys == t.teams.Keys
    ensures forall tm :: tm in rows ==> rows[tm] == ExpectedRow(t, tm)
    ensures forall tm :: tm in rows ==> rows[tm].teamId == tm && rows[tm].outreachDate == Cell(t.teams[tm].outreachDate)
  {
    rows := map[];
    var todo := t.teams.Keys;
    while todo != {}
      invariant todo <= t.teams.Keys
      invariant rows == map tm | tm in t.teams && tm !in todo :: ExpectedRow(t, tm)
      decreases todo
    {
      var tm :| tm in todo;
      var row := TeamLine(t, tm);
      rows := rows[tm := row];
      todo := todo - {tm};
    }
  }
}

/**
 * The student side of pairing: sending a directed request, accepting one
 * (which creates the pair and clears every request of both students), and
 * the read-only views of the student dashboard.
 */
module Student {
  import opened Models

  /** A page that dereferences a row that is not there fails with a server
      error; otherwise it shows a value. */
  datatype Page<T> = Shown(value: T) | Failed

  /** A pending request from sender to receiver already exists. */
  predicate HasPending(requests: map<Id, Request>, sender: Id, receiver: Id)
  {
    exists r :: r in requests && requests[r].senderId == sender &&
      requests[r].receiverId == receiver && requests[r].status == Pending
  }

  /** The three guards of select_pair all pass: the actor is unpaired, the
      receiver exists and is unpaired, and no identical request is pending. */
  predicate CanSend(t: Tables, actor: Id, receiver: Id)
    requires actor in t.users
  {
    && t.users[actor].pairId.None?
    && receiver in t.users && t.users[receiver].pairId.None?
    && !HasPending(t.requests, actor, receiver)
  }

  datatype SendOutcome = AlreadyPaired | Unavailable | AlreadyPending | Sent(requestId: Id)

  /** POST /student/select-partner by `actor` naming `receiver`. */
  method SelectPair(db: Database, actor: Id, receiver: Id) returns (o: SendOutcome)
    requires actor in db.users
    modifies db
    ensures old(db.users)[actor].pairId.Some? ==> o == AlreadyPaired
    ensures (old(db.users)[actor].pairId.None? &&
             (receiver !in old(db.users) || old(db.users)[receiver].pairId.Some?)) ==> o == Unavailable
    ensures (old(db.users)[actor].pairId.None? && receiver in old(db.users) &&
             old(db.users)[receiver].pairId.None? && HasPending(old(db.requests), actor, receiver))
            ==> o == AlreadyPending
    ensures o.Sent? <==> CanSend(old(db.Snapshot()), actor, receiver)
    ensures !o.Sent? ==> unchanged(db)
    ensures o.Sent? ==>
      && o.requestId !in old(db.requests)
      && db.requests == old(db.requests)[o.requestId := NewRequest(actor, receiver)]
      && db.users == old(db.users) && db.pairs == old(db.pairs) && db.teams == old(db.teams)
    ensures old(db.Consistent()) ==> db.Consistent()
  {
    if db.users[actor].pairId.Some? {
      return AlreadyPaired;
    }
    if receiver !in db.users || db.users[receiver].pairId.Some? {
      return Unavailable;
    }
    if HasPending(db.requests, actor, receiver) {
      return AlreadyPending;
    }
    var id := NextId(db.requests);
    ghost var before := db.Snapshot();
    db.requests := db.requests[id := NewRequest(actor, receiver)];
    if before.Consistent() {
      NewRequestKeepsConsistent(before, id, actor, receiver);
    }
    o := Sent(id);
  }

  /** A new pending request between two unpaired users, in a direction with
      no pending request yet, keeps every table invariant. */
  lemma {:induction false} NewRequestKeepsConsistent(t: Tables, id: Id, sender: Id, receiver: Id)
    requires t.Consistent() && id !in t.requests
    requires sender in t.users && t.users[sender].pairId.None?
    requires receiver in t.users && t.users[receiver].pairId.None?
    requires !HasPending(t.requests, sender, receiver)
    ensures t.(requests := t.requests[id := NewRequest(sender, receiver)]).Consistent()
  {
    var after := t.requests[id := NewRequest(sender, receiver)];
    forall r | r in after
      ensures OpenRequest(t.users, after[r])
    {
      if r != id {
        assert OpenRequest(t.users, t.requests[r]);
      }
    }
    forall r1, r2 | SamePendingDirection(after, r1, r2)
      ensures r1 == r2
    {
      if r1 != id && r2 != id {
        assert SamePendingDirection(t.requests, r1, r2);
      }
    }
  }

  /** Request q has a or b as its sender or its receiver. */
  predicate Touches(q: Request, a: Id, b: Id)
  {
    q.senderId == a || q.receiverId == a || q.senderId == b || q.receiverId == b
  }

  /** The request table after the bulk delete of every request that touches
      a or b. */
  function Purge(requests: map<Id, Request>, a: Id, b: Id): (r: map<Id, Request>)
    ensures forall id :: id in r ==> id in requests && r[id] == requests[id] && !Touches(r[id], a, b)
    ensures forall id :: id in requests && !Touches(requests[id], a, b) ==> id in r
  {
    map id | id in requests && !Touches(requests[id], a, b) :: requests[id]
  }

  /** Request rid can be accepted by actor: it is addressed to actor and
      both its sender and actor are still unpaired. */
  predicate CanAccept(t: Tables, actor: Id, rid: Id)
    requires actor in t.users
  {
    && rid in t.requests && t.requests[rid].receiverId == actor
    && t.requests[rid].senderId in t.users
    && t.users[t.requests[rid].senderId].pairId.None? && t.users[actor].pairId.None?
  }

  datatype AcceptOutcome = NotFound | Unauthorized | Crashed | Expired | Paired(pairId: Id)

  /** GET /student/accept-request/<rid> by `actor`. `Crashed` is the server
      error raised when the sender's row is gone. */
  method AcceptRequest(db: Database, actor: Id, rid: Id) returns (o: AcceptOutcome)
    requires actor in db.users
    modifies db
    ensures o == NotFound <==> rid !in old(db.requests)
    ensures o == Unauthorized <==> rid in old(db.requests) && old(db.requests)[rid].receiverId != actor
    ensures o == Crashed <==> (rid in old(db.requests) && old(db.requests)[rid].receiverId == actor &&
                               old(db.requests)[rid].senderId !in old(db.users))
    ensures o.Paired? <==> CanAccept(old(db.Snapshot()), actor, rid)
    ensures o == NotFound || o == Unauthorized || o == Crashed ==> unchanged(db)
    ensures o == Expired ==>
      && db.requests == old(db.requests) - {rid}
      && db.users == old(db.users) && db.pairs == old(db.pairs) && db.teams == old(db.teams)
    ensures o.Paired? ==>
      var s := old(db.requests)[rid].senderId;
      && o.pairId !in old(db.pairs)
      && db.pairs == old(db.pairs)[o.pairId := Pair(None)]
      && db.users == old(db.users)[s := old(db.users)[s].(pairId := Some(o.pairId))]
                                  [actor := old(db.users)[actor].(pairId := Some(o.pairId))]
      && db.requests == Purge(old(db.requests), s, actor)
      && db.teams == old(db.teams)
    ensures old(db.Consistent()) ==> o != Expired && o != Crashed
    ensures old(db.Consistent()) ==> db.Consistent()
  {
    if rid !in db.requests {
      return NotFound;
    }
    var invite := db.requests[rid];
    if invite.receiverId != actor {
      return Unauthorized;
    }
    var sender := invite.senderId;
    if sender !in db.users {
      return Crashed;
    }
    if db.users[sender].pairId.Some? || db.users[actor].pairId.Some? {
      db.requests := db.requests - {rid};
      return Expired;
    }
    ghost var before := db.Snapshot();
    var pid := NextId(db.pairs);
    db.pairs := db.pairs[pid := Pair(None)];
    db.users := db.users[sender := db.users[sender].(pairId := Some(pid))];
    db.users := db.users[actor := db.users[actor].(pairId := Some(pid))];
    db.requests := Purge(db.requests, sender, actor);
    if before.Consistent() {
      AcceptKeepsConsistent(before, db.Snapshot(), sender, actor, pid);
    }
    o := Paired(pid);
  }

  /** Pairing two unpaired users into a fresh pair and purging their
      requests keeps every table invariant. */
  lemma {:induction false} AcceptKeepsConsistent(before: Tables, after: Tables, s: Id, a: Id, pid: Id)
    requires before.Consistent()
    requires s in before.users && a in before.users
    requires before.users[s].pairId.None? && before.users[a].pairId.None?
    requires pid !in before.pairs
    requires after.pairs == before.pairs[pid := Pair(None)]
    requires after.users == before.users[s := before.users[s].(pairId := Some(pid))]
                                        [a := before.users[a].(pairId := Some(pid))]
    requires after.requests == Purge(before.requests, s, a)
    requires after.teams == before.teams
    ensures after.Consistent()
  {
    RelinkKeepsUniqueness(before.users, after.users);
    AcceptKeepsPairs(before.users, after.users, before.pairs, after.pairs, s, a, pid);
    NewPairKeepsTeams(before.pairs, pid, before.teams);
    PurgeKeepsRequestsOpen(before.users, after.users, before.requests, s, a);
    SubmapKeepsOnePending(before.requests, after.requests);
  }

  /** A fresh pair without a team keeps the team invariants. */
  lemma {:induction false} NewPairKeepsTeams(pairs: map<Id, Pair>, pid: Id, teams: map<Id, Team>)
    requires pid !in pairs
    requires TeamRefsExist(pairs, teams) && AtMostTwoPairsPerTeam(pairs)
    ensures TeamRefsExist(pairs[pid := Pair(None)], teams)
    ensures AtMostTwoPairsPerTeam(pairs[pid := Pair(None)])
  {
    var after := pairs[pid := Pair(None)];
    forall x, y, z | ShareTeam(after, x, y) && ShareTeam(after, x, z)
      ensures x == y || x == z || y == z
    {
      assert ShareTeam(pairs, x, y) && ShareTeam(pairs, x, z);
    }
  }

  /** Pairing s and a while deleting every request that touches them keeps
      the remaining requests open. */
  lemma {:induction false} PurgeKeepsRequestsOpen(before: map<Id, User>, after: map<Id, User>,
                                                  requests: map<Id, Request>, s: Id, a: Id)
    requires RequestsOpen(before, requests)
    requires s in before && a in before
    requires forall u :: u in before && u != s && u != a ==> u in after && after[u] == before[u]
    ensures RequestsOpen(after, Purge(requests, s, a))
  {
    var kept := Purge(requests, s, a);
    forall r | r in kept
      ensures OpenRequest(after, kept[r])
    {
      assert OpenRequest(before, requests[r]);
    }
  }

  /** The pair invariants after accept: only s and a point to the fresh pair. */
  lemma {:induction false} AcceptKeepsPairs(users: map<Id, User>, users': map<Id, User>,
                                            pairs: map<Id, Pair>, pairs': map<Id, Pair>, s: Id, a: Id, pid: Id)
    requires PairRefsExist(users, pairs) && AtMostTwoPerPair(users) && PairsInhabited(users, pairs)
    requires s in users && a in users
    requires users[s].pairId.None? && users[a].pairId.None?
    requires pid !in pairs
    requires pairs' == pairs[pid := Pair(None)]
    requires users' == users[s := users[s].(pairId := Some(pid))][a := users[a].(pairId := Some(pid))]
    ensures PairRefsExist(users', pairs')
    ensures AtMostTwoPerPair(users')
    ensures PairsInhabited(users', pairs')
  {
    forall x, y, z | SharePair(users', x, y) && SharePair(users', x, z)
      ensures x == y || x == z || y == z
    {
      if users'[x].pairId != Some(pid) {
        assert x != s && x != a && y != s && y != a && z != s && z != a;
        assert SharePair(users, x, y) && SharePair(users, x, z);
      } else {
        assert x in {s, a} && y in {s, a} && z in {s, a};
      }
    }
    forall p | p in pairs'
      ensures exists w :: w in users' && users'[w].pairId == Some(p)
    {
      if p == pid {
        assert users'[a].pairId == Some(pid);
      } else {
        var w :| w in users && users[w].pairId == Some(p);
        assert users'[w] == users[w];
      }
    }
  }

  /** Nothing stops a student from sending a request to themselves, and
      accepting it makes a pair whose only member is that student. */
  lemma {:induction false} SelfRequestPairsAlone(t: Tables, a: Id, pid: Id)
    requires t.Consistent() && a in t.users && t.users[a].pairId.None?
    requires !HasPending(t.requests, a, a) && pid !in t.pairs
    ensures CanSend(t, a, a)
    ensures PairStudents(t.users[a := t.users[a].(pairId := Some(pid))][a := t.users[a].(pairId := Some(pid))], pid) == {a}
  {
    var after := t.users[a := t.users[a].(pairId := Some(pid))][a := t.users[a].(pairId := Some(pid))];
    forall u | u in after && u != a
      ensures after[u].pairId != Some(pid)
    {
      assert after[u] == t.users[u];
    }
  }

  /** The other members of the actor's pair. */
  function Partners(t: Tables, actor: Id): (r: set<Id>)
    requires actor in t.users
    ensures actor !in r && r <= t.users.Keys
  {
    match t.users[actor].pairId
    case None => {}
    case Some(p) => PairStudents(t.users, p) - {actor}
  }

  /** The dashboard's partner: some member of the actor's pair other than
      the actor, or none. */
  method Partner(t: Tables, actor: Id) returns (r: Page<Option<Id>>)
    requires actor in t.users
    ensures r.Failed? <==> t.users[actor].pairId.Some? && t.users[actor].pairId.value !in t.pairs
    ensures r.Shown? && r.value.Some? ==> r.value.value in Partners(t, actor)
    ensures r.Shown? && r.value.None? ==> Partners(t, actor) == {}
  {
    match t.users[actor].pairId
    case None =>
      r := Shown(None);
    case Some(p) =>
      if p !in t.pairs {
        r := Failed;
      } else {
        var others := PairStudents(t.users, p) - {actor};
        if others == {} {
          r := Shown(None);
        } else {
          var u :| u in others;
          r := Shown(Some(u));
        }
      }
  }

  /** Partnership is mutual and exclusive: if b is a partner of a, then b is
      a's only partner and a is b's only partner. */
  lemma {:induction false} PartnersMutual(t: Tables, a: Id, b: Id)
    requires t.Consistent() && a in t.users && b in Partners(t, a)
    ensures b in t.users
    ensures Partners(t, a) == {b}
    ensures Partners(t, b) == {a}
  {
    forall c | c in Partners(t, a)
      ensures c == b
    {
      assert SharePair(t.users, a, b) && SharePair(t.users, a, c);
    }
    forall d | d in Partners(t, b)
      ensures d == a
    {
      assert SharePair(t.users, b, a) && SharePair(t.users, b, d);
    }
    assert a in Partners(t, b);
  }

  /** The dashboard's incoming list: pending requests addressed to the actor. */
  function IncomingRequests(t: Tables, actor: Id): set<Id>
  {
    set r | r in t.requests && t.requests[r].receiverId == actor && t.requests[r].status == Pending
  }

  /** Every request the dashboard offers the actor can be accepted. */
  lemma {:induction false} IncomingAcceptable(t: Tables, actor: Id, rid: Id)
    requires t.Consistent() && actor in t.users && rid in IncomingRequests(t, actor)
    ensures CanAccept(t, actor, rid)
  {
    assert OpenRequest(t.users, t.requests[rid]);
  }

  /** The receivers of every request the actor has sent, whatever its status. */
  function SentTo(requests: map<Id, Request>, actor: Id): set<Id>
  {
    set r | r in requests && requests[r].senderId == actor :: requests[r].receiverId
  }

  /** The dashboard's available list: unpaired students other than the actor
      to whom the actor has not sent a request. */
  function AvailableStudents(t: Tables, actor: Id): set<Id>
  {
    set u | u in t.users && t.users[u].role == StudentRole && t.users[u].pairId.None? &&
      u != actor && u !in SentTo(t.requests, actor)
  }

  /** The partner form's list: unpaired students other than the actor. */
  function SelectableStudents(t: Tables, actor: Id): set<Id>
  {
    set u | u in t.users && t.users[u].role == StudentRole && t.users[u].pairId.None? && u != actor
  }

  /** For an unpaired actor in a consistent database, the dashboard offers
      exactly the other students to whom a request can be sent. */
  lemma {:induction false} AvailableExactlySendable(t: Tables, actor: Id, u: Id)
    requires t.Consistent() && actor in t.users && t.users[actor].pairId.None?
    ensures u in AvailableStudents(t, actor) <==>
      u in t.users && t.users[u].role == StudentRole && u != actor && CanSend(t, actor, u)
  {
    if u in SentTo(t.requests, actor) {
      var r :| r in t.requests && t.requests[r].senderId == actor && t.requests[r].receiverId == u;
      assert OpenRequest(t.users, t.requests[r]);
    }
  }

  /** The dashboard's list is part of the partner form's list. */
  lemma AvailableSelectable(t: Tables, actor: Id)
    ensures AvailableStudents(t, actor) <= SelectableStudents(t, actor)
  {
  }

  /** GET /student/view-team: the team to show, none when the actor has no
      pair or the pair has no team. */
  function ViewTeam(t: Tables, actor: Id): (r: Page<Option<Id>>)
    requires actor in t.users
    ensures r.Failed? <==> t.users[actor].pairId.Some? && t.users[actor].pairId.value !in t.pairs
    ensures forall tm :: r == Shown(Some(tm)) <==> actor in TeamMembers(t.users, t.pairs, tm)
  {
    match t.users[actor].pairId
    case None => Shown(None)
    case Some(p) => if p !in t.pairs then Failed else Shown(t.pairs[p].teamId)
  }
}

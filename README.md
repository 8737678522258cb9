# Outreach portal: pairing and team state machine

This project models the core of the outreach portal in Dafny. The portal is a Flask
application in which students register, pair up through directed requests, and
administrators combine pairs into outreach teams and assign missions to them.

What is modelled:

- **The four tables.** `users`, `requests`, `pairs` and `teams` are the fields of the class
  `Models.Database`. Each field is a map from row id to record.
- **Records.** The rows are the datatypes `Models.User` (backend/models.py:8-21),
  `Models.Request` (backend/models.py:30-36), `Models.Pair` (backend/models.py:43-45) and
  `Models.Team` (backend/models.py:49-60). A nullable column is an `Option`. Timestamps are
  left out.
- **Derived relations.** The ORM's `Pair.students` and `Team.pairs` back-references are the
  derived sets `PairStudents` and `TeamPairs`.
- **Routes.** Every route handler that changes state is one atomic method on the database.
  A rejected or rolled-back request leaves the database unchanged.
- **Read-only views.** The student dashboard, the team view, the administrator counts and the
  team export are functions, or methods that change nothing.
- **Table invariants.** The consistency predicate `Tables.Consistent` (in `models.dfy`) holds:
  - unique usernames and unique register numbers;
  - every `pair_id` and every `team_id` names an existing row;
  - one or two members per pair, and at most two pairs per team;
  - every request joins two existing, unpaired users and is pending;
  - at most one pending request per ordered (sender, receiver).

  Every state-changing method keeps this predicate, and the empty database satisfies it.

Files:

- `models.dfy`: the records, the invariants, the id rule and the database class.
- `auth.dfy`: registration and the login lookup, with Python's `strip`, `lower` and `upper`
  written out.
- `student.dfy`: sending and accepting requests, and the dashboard and team views.
- `admin.dfy`: enrolment, deletion, team assembly and disbanding, unpairing, missions, the
  dashboard counts and the team export.

The code differs from the intended design of the portal in these places. The model follows
the code in each.

- **One-member pairs.** A student can send a request to themselves, and accepting it makes a
  pair with a single member. So the invariant is "one or two members per pair", not
  "exactly two". See `Student.SelfRequestPairsAlone`.
- **Team assembly.** `create_team` only checks that the two form values differ. It skips a
  value that names no pair, and it moves a pair that is already in a team into the new team.
  A team can therefore hold zero, one or two pairs, never more.
- **Unpairing a pair in a team.** `unpair_student` deletes the pair even when it belongs to a
  team. That team loses the pair and keeps whatever other pair it had, possibly none.
- **Disbanding.** If removing the team's material file raises, the whole disband is rolled
  back. It is not a best-effort step.
- **Unpairing an unpaired student.** The route changes nothing and reports nothing. The effect
  is the same as a `NotPaired` result.

## Model

| member | source | states |
|---|---|---|
| Models.PairStudents | backend/models.py:46 | `Pair.students`: the users whose pair_id names the pair, all of them existing rows |
| Models.TeamPairs | backend/models.py:62 | `Team.pairs`: the pairs whose team_id names the team, all of them existing rows |
| Models.MembersOf | backend/routes/admin.py:287-288 | the users whose pair is one of the given pairs, all of them existing rows |
| Models.TeamMembers | backend/routes/admin.py:286-288 | the students of a team: the members of the team's pairs, all of them existing rows |
| Models.UniqueUsernames | backend/models.py:11 | no two user rows share a username |
| Models.UniqueRegisterNumbers | backend/models.py:15 | no two user rows share a register number |
| Models.Tables.Consistent | backend/models.py:8-62 | the two unique columns, every pair_id and team_id naming an existing row, one or two members per pair, at most two pairs per team, and every request pending between two existing unpaired users with at most one per direction |
| Models.NewRequest | backend/models.py:30-36 | a new request has the given sender and receiver, and its status defaults to 'pending' |
| Models.NewTeam | backend/models.py:49-60 | a new team has the given name, and every mission column and the material file are null |
| Models.NextId | backend/models.py:9 | a new row id is fresh, larger than every id in the table, and one more than the largest (1 for an empty table) |
| Models.Database.constructor | backend/models.py:6 | the database starts with four empty tables |
| Models.EmptyConsistent | backend/models.py:6-62 | the empty database satisfies every table invariant |
| Models.PairAtMostTwo | backend/models.py:43-46 | in a consistent database `Pair.students` never holds more than two users |
| Models.PairSize | backend/models.py:43-46 | every existing pair has one or two students |
| Models.TeamSize | backend/models.py:49-62 | `Team.pairs` never holds more than two pairs |
| Models.TeamHeadcount | backend/models.py:43-62 | a team has at most four students |
| Models.PairInOneTeam | backend/models.py:45 | a pair's team_id is non-null exactly when the pair is in some team's `pairs`, and then in only one team's |
| Models.UserInOnePair | backend/models.py:21 | a user's pair_id is non-null exactly when the user is among some pair's `students`, and then among only one pair's |
| Models.NewUserKeepsConsistent | backend/models.py:8-21 | inserting an unpaired user whose username and register number are both new keeps every invariant |
| Models.NewUserKeepsUniqueness | backend/models.py:11-15 | such an insert keeps the username and register_number columns unique |
| Models.NewUnpairedUserKeepsPairs | backend/models.py:21 | inserting an unpaired user keeps the pair references and pair sizes |
| Models.NewUserKeepsRequestsOpen | backend/models.py:33-34 | inserting a user keeps every request open |
| Models.RelinkKeepsUniqueness | backend/models.py:11-15 | dropping users or changing only their pair links keeps both unique columns unique |
| Models.SubmapKeepsOnePending | backend/models.py:30-36 | deleting requests keeps at most one pending request per direction |
| Auth.Lower | backend/routes/auth.py:14 | lower-casing keeps the length, turns each upper-case letter into its lower-case partner (code point plus 32) and changes nothing else |
| Auth.Upper | backend/routes/auth.py:16 | upper-casing keeps the length, turns each lower-case letter into its upper-case partner (code point minus 32) and changes nothing else |
| Auth.StripLeading | backend/routes/auth.py:14-15 | the result is a suffix that starts with a non-space, and everything removed is whitespace |
| Auth.StripTrailing | backend/routes/auth.py:14-15 | the result is a prefix that ends with a non-space, and everything removed is whitespace |
| Auth.Strip | backend/routes/auth.py:15 | `str.strip()`: leading then trailing whitespace removed |
| Auth.StripIsInfix | backend/routes/auth.py:15 | the stripped register number is a contiguous run of the input |
| Auth.StripTrimmed | backend/routes/auth.py:15 | a stripped string has no whitespace at either end |
| Auth.StripIdempotent | backend/routes/auth.py:15 | stripping twice gives the same result as stripping once |
| Auth.NormalizeUsername | backend/routes/auth.py:14 | the username as registration stores it and as login looks it up (backend/routes/auth.py:52): lower-cased, then stripped |
| Auth.NormalizedShape | backend/routes/auth.py:14 | a normalised username has no upper-case letter and no whitespace at either end |
| Auth.CaseVariantsNormalizeAlike | backend/routes/auth.py:14 | two usernames that differ only in the case of ASCII letters normalise to the same string |
| Auth.CaseVariantRefused | backend/routes/auth.py:14-28 | once a username is registered, a second registration under any case variant of it finds the name taken and is refused |
| Auth.CapitalisedUsernameUnreachable | backend/routes/auth.py:52-54 | no typed login name normalises to a stored username that holds an upper-case letter, so such a user can never be found at login |
| Auth.PaddedUsernameUnreachable | backend/routes/auth.py:52-54 | no typed login name normalises to a stored username with whitespace at either end, so such a user can never be found at login |
| Auth.NormalizeIdempotent | backend/routes/auth.py:52 | normalising at login a username normalised at registration gives the same string, so the lookup finds the stored row |
| Auth.IdentityTaken | backend/routes/auth.py:22-24 | some existing user has the username or the register number |
| Auth.Registrant | backend/routes/auth.py:30-38 | a registered row has the normalised username, the stripped register number, the upper-cased section, role 'student' and no pair |
| Auth.Register | backend/routes/auth.py:8-45 | the already-logged-in answer comes exactly when the caller is authenticated and creates nothing; otherwise registration is refused exactly when the normalised username or the stripped register number is taken, and then nothing changes, and succeeds in every other case; on success exactly one new unpaired student row is added and the invariants are kept |
| Auth.Login | backend/routes/auth.py:50-61 | a login succeeds only for a row with the normalised username whose password checks; admins go to the admin dashboard and everyone else to the student dashboard; when usernames are unique, a failure means no such row accepts the password |
| Student.HasPending | backend/routes/student.py:48-50 | a pending request from the sender to the receiver already exists |
| Student.CanSend | backend/routes/student.py:36-53 | the three guards of the send route pass: the actor is unpaired, the receiver exists and is unpaired, and no identical request is pending |
| Student.SelectPair | backend/routes/student.py:35-60 | a paired actor, a missing or paired receiver, or an existing pending request in that direction each give their rejection and change nothing; a send succeeds exactly when all three guards pass, adds exactly one pending request from actor to receiver, leaves users, pairs and teams unchanged and keeps the invariants |
| Student.NewRequestKeepsConsistent | backend/routes/student.py:48-57 | a new pending request between two unpaired users, in a direction with no pending request, keeps every invariant, in particular one pending request per direction |
| Student.Touches | backend/routes/student.py:90-93 | the request has either user as its sender or its receiver |
| Student.Purge | backend/routes/student.py:90-93 | the bulk delete keeps exactly the requests that touch neither of the two users |
| Student.CanAccept | backend/routes/student.py:70-75 | the request exists, is addressed to the actor, its sender exists, and both users are still unpaired |
| Student.AcceptRequest | backend/routes/student.py:67-101 | a missing request is not found; a request addressed to someone else is refused; each of those changes nothing; if either side is already paired only that request is deleted; otherwise a fresh pair is created, both users point to it, every request touching either is deleted and teams are unchanged; a consistent database never takes the stale or crash branch and stays consistent |
| Student.AcceptKeepsConsistent | backend/routes/student.py:82-95 | pairing two unpaired users into a fresh pair and purging their requests keeps every invariant |
| Student.AcceptKeepsPairs | backend/routes/student.py:82-87 | after the accept, every pair reference exists, no pair has three members and every pair has a member |
| Student.NewPairKeepsTeams | backend/routes/student.py:82-84 | a fresh pair without a team keeps the team invariants |
| Student.PurgeKeepsRequestsOpen | backend/routes/student.py:86-93 | the requests left after the purge still join two unpaired users |
| Student.SelfRequestPairsAlone | backend/routes/student.py:41-57 | an unpaired student may send a request to themselves, and accepting it makes a pair whose only member is that student |
| Student.Partners | backend/routes/student.py:12-14 | the other members of the actor's pair, never the actor, all of them existing rows |
| Student.Partner | backend/routes/student.py:11-14 | the dashboard fails exactly when the actor's pair row is missing; otherwise it shows a member of the actor's pair other than the actor, or none when there is no such member |
| Student.PartnersMutual | backend/routes/student.py:12-14 | in a consistent database partnership is mutual and exclusive |
| Student.IncomingRequests | backend/routes/student.py:17 | the pending requests whose receiver is the actor |
| Student.IncomingAcceptable | backend/routes/student.py:17 | every incoming request the dashboard lists can be accepted by the actor |
| Student.SentTo | backend/routes/student.py:20 | the receivers of every request the actor has sent, whatever its status |
| Student.AvailableStudents | backend/routes/student.py:20-26 | unpaired students other than the actor to whom the actor has sent no request of any status |
| Student.SelectableStudents | backend/routes/student.py:62 | unpaired students other than the actor |
| Student.AvailableExactlySendable | backend/routes/student.py:20-26 | for an unpaired actor, the available list is exactly the other students to whom a request can be sent |
| Student.AvailableSelectable | backend/routes/student.py:23-26 | the dashboard's available list is part of the partner form's list |
| Student.ViewTeam | backend/routes/student.py:105-113 | the view fails exactly when the actor's pair row is missing, and it shows team tm exactly when the actor is a member of tm |
| Admin.IsAdmin | backend/routes/admin.py:18 | the acting user's role is admin, the check at the head of every administrator route |
| Admin.Students | backend/routes/admin.py:20 | the existing users whose role is student |
| Admin.UnpairedStudents | backend/routes/admin.py:21 | the students without a pair, a subset of all students |
| Admin.DashboardCounts | backend/routes/admin.py:17-23 | a non-administrator gets no counts; an administrator gets the number of students, of unpaired students and of teams |
| Admin.UnpairedAtMostTotal | backend/routes/admin.py:20-21 | the unpaired-student count never exceeds the student count |
| Admin.Enrollee | backend/routes/admin.py:62-86 | a student row takes the form's identity fields; an administrator row gets register number and section 'ADMIN', department 'ADMINISTRATION' and sub-team 'CORE'; neither is paired |
| Admin.UsernameTaken | backend/routes/admin.py:56 | some existing user has exactly this username, with no normalisation |
| Admin.ValidRole | backend/routes/admin.py:62-90 | the role is student or admin; any other role takes the invalid-role branch |
| Admin.RegisterNumberTaken | backend/routes/admin.py:92-93 | some user already holds the register number, so the commit of a new row with it violates the unique column of backend/models.py:15 |
| Admin.EnrollMemberAsWritten | backend/routes/admin.py:43-100 | a non-administrator, an exact duplicate username, or a role other than student or admin each give their rejection; a register number already in use is rolled back; each of those changes nothing; otherwise exactly the new row, with the username as typed, is added and the invariants are kept |
| Admin.NormalizedForm | backend/routes/auth.py:14 | the enrolment form with the username normalised as registration does and every other field unchanged |
| Admin.EnrollMember | backend/routes/admin.py:43-100 | the same outcomes as the route, decided on the normalised username; on success the stored username is the normalised one and is a fixed point of normalisation, so the login lookup of backend/routes/auth.py:52-54 finds it |
| Admin.SecondAdminCollides | backend/routes/admin.py:75-86 | once any user holds register number 'ADMIN', enrolling another administrator collides and is rolled back |
| Admin.HasRequests | backend/routes/admin.py:115-116 | some request has the user as its sender or its receiver, so deleting the user nulls a NOT NULL key |
| Admin.DeleteStudentAsWritten | backend/routes/admin.py:109-118 | a paired user is not deleted; an unpaired user who sent or received any request makes the commit fail; otherwise exactly that user is removed; every outcome but deletion changes nothing |
| Admin.SentRequestBlocksDelete | backend/routes/admin.py:115-116 | a request just sent involves both its sender and its receiver, so the delete as written fails for either |
| Admin.WithoutRequestsOf | backend/routes/admin.py:115-116 | the request table keeps exactly the requests in which the user takes no part |
| Admin.WithoutRequestsIsPurge | backend/routes/student.py:90-93 | deleting one user's requests is the accept route's purge with that user in both places, and a user has requests exactly when one of them touches it |
| Admin.DeleteStudent | backend/routes/admin.py:109-118 | a paired user is not deleted; an unpaired user is always removed together with the user's requests, nothing else changes and the invariants are kept |
| Admin.DropRequestsKeepsConsistent | backend/routes/admin.py:115-116 | deleting a user's requests keeps every invariant |
| Admin.DeleteUnlinkedKeepsConsistent | backend/routes/admin.py:115-116 | removing a user with no pair and no requests keeps every invariant |
| Admin.CreateTeam | backend/routes/admin.py:133-152 | equal pair values create nothing and change nothing; otherwise exactly one new team with null mission fields is added, the existing pairs named are linked to it, no other pair changes and the invariants are kept |
| Admin.Linked | backend/routes/admin.py:145-147 | the same pairs, each named pair now linked to the new team and the others unchanged |
| Admin.LinkedTeamPairs | backend/routes/admin.py:145-147 | the new team holds exactly the existing pairs among those named; any other team loses the named pairs and keeps the rest |
| Admin.LinkKeepsConsistent | backend/routes/admin.py:142-148 | linking one or two pairs to a fresh team keeps every invariant, in particular at most two pairs per team |
| Admin.LinkKeepsPairInvariants | backend/routes/admin.py:145-147 | changing only team links keeps the pair references and pair membership |
| Admin.MaterialFile | backend/routes/admin.py:168 | the file to remove: the stored material name when it is not empty, otherwise none |
| Admin.DisbandTeam | backend/routes/admin.py:156-181 | a non-administrator or a missing team changes nothing; a failing file removal rolls everything back; otherwise the team is deleted, its pairs are unlinked, users and requests are unchanged, the material file is named for removal and the invariants are kept |
| Admin.Unlinked | backend/routes/admin.py:164-165 | the same pairs, none of them linked to the disbanded team any more |
| Admin.UnlinkedTeamPairs | backend/routes/admin.py:164-165 | after unlinking, no pair refers to the disbanded team and every other team keeps its pairs |
| Admin.UnlinkKeepsConsistent | backend/routes/admin.py:164-175 | unlinking a team's pairs and deleting the team keeps every invariant |
| Admin.UnpairStudent | backend/routes/admin.py:185-196 | a non-administrator, a missing user or an unpaired user changes nothing, so a second call is a no-op; otherwise the pair row is deleted, every member is unlinked, the student ends unpaired and the invariants are kept |
| Admin.Dissolved | backend/routes/admin.py:191-193 | the user table in which no user points to the deleted pair |
| Admin.ClearMemberThenDissolve | backend/routes/admin.py:191-193 | unlinking a member before deleting the pair leaves the same user table as the deletion alone |
| Admin.DissolvedMembers | backend/routes/admin.py:191-193 | after dissolving, nobody points to the pair and the members of every other pair are unchanged |
| Admin.DissolveKeepsConsistent | backend/routes/admin.py:188-194 | dissolving a pair keeps every invariant, even when the pair was in a team |
| Admin.DissolveKeepsUserInvariants | backend/routes/admin.py:191-193 | dissolving a pair keeps uniqueness, pair references, pair sizes and open requests |
| Admin.Uploaded | backend/routes/admin.py:212 | a file came with the form and its name is not empty |
| Admin.AssignMission | backend/routes/admin.py:202-223 | a non-administrator or a missing team changes nothing, and a failing save changes nothing; otherwise only that team row changes: the four mission fields come from the form, and the material file changes only with a stored upload |
| Admin.WithMission | backend/routes/admin.py:206-218 | the team keeps its name; the four mission fields come from the form; the material file changes only when an upload was stored |
| Admin.MissionFields | backend/routes/admin.py:206-218 | a mission keeps the team name and sets each mission field; the material file changes only when a file with a non-empty name is uploaded, and then to the stored name |
| Admin.RewriteTeamKeepsConsistent | backend/routes/admin.py:206-220 | rewriting an existing team row keeps every invariant |
| Admin.TeamTotals | backend/routes/admin.py:286-288 | the loop's sum of the pairs' member counts equals the number of the team's members, so no student is counted twice |
| Admin.MembersOfAddPair | backend/routes/admin.py:287-288 | adding a pair adds exactly its members, none of them already counted |
| Admin.Cell | backend/routes/admin.py:292-295 | a nullable text column as a cell: its text, or empty when null |
| Admin.ExpectedRow | backend/routes/admin.py:290-299 | the line for a team: its id, name, the three text cells, its pair and student counts, and Active exactly when it has a pair |
| Admin.TeamLine | backend/routes/admin.py:290-299 | a team's line carries its id, name, text cells, pair count, student count and status |
| Admin.TeamRowBounds | backend/routes/admin.py:296-298 | in a consistent database a line shows at most two pairs and four students, and 'Active' exactly when the team has a student |
| Admin.DateFormatFails | backend/routes/admin.py:294 | the team's outreach date is non-empty text, on which the date formatting call raises |
| Admin.ExportBreaks | backend/routes/admin.py:294 | some team's outreach date makes the formatting call raise |
| Admin.ExportTeamsAsWritten | backend/routes/admin.py:272-314 | the export as written fails exactly when some team has a non-empty outreach date; otherwise it has one line per team |
| Admin.MissionDateBreaksExport | backend/routes/admin.py:294 | after a mission with a non-empty outreach date is assigned to any team, the export as written fails |
| Admin.ExportTeams | backend/routes/admin.py:272-314 | the corrected export has exactly one line per team, and each line shows that team's stored outreach date |

## Left out

- Flask routing, templates, `flash`, `redirect` and `url_for` are not modelled. A rejected route is just an outcome value with the state unchanged. Several rejections redirect to `admin.enroll_student`, an endpoint that does not exist, so they answer with a server error. That changes no state either.
- The GET forms and the listing pages `view_teams` and `view_enrollments` are not modelled, nor is `logout`. They only read or render data. The partner form's list is kept as `Student.SelectableStudents`.
- The flask_login session is not modelled. The acting user is a parameter, and `login_required` becomes the precondition that the actor's row exists.
- Password hashing is not modelled. The hash is an opaque string parameter, and the password check is a function parameter of `Auth.Login`.
- Files are not stored or removed. `secure_filename`, `os.path.exists`, `os.remove`, `os.makedirs` and `file.save` are out of the model. The stored name and whether the save or the removal raises are parameters, and `Admin.DisbandTeam` returns the name of the file it would remove.
- `export_students_csv`, `reset_password` and all CSV, `io`, `datetime` and `send_file` work are not modelled. Only the team export's counts and cells are kept.
- backend/app.py is not part of this model: configuration, extension setup and the seeding of the first administrator.
- Concurrency is not modelled. Each route is one atomic step, so the check-then-create race in `accept_request` is outside the model.
- The `try`/`except` around pair creation in `accept_request` has no failing step in the model.
- Timestamps (`Request.timestamp`, `Team.created_at`) and the column length limits are not modelled.
- Form fields are assumed present. A missing field (`None`) that would raise in `.lower()` or violate a NOT NULL column is not modelled, except for the mission fields, which may be null.
- Auth.Lower: maps only the ASCII letters. Python's `str.lower` also maps the other Unicode cased letters.
- Auth.Upper: maps only the ASCII letters. Python's `str.upper` also maps the other Unicode cased letters.
- Auth.Login: when several rows match, the row that `.first()` returns is any matching row. The failure direction is stated only for unique usernames, which the invariants guarantee.
- Student.Partner: returns any member of the pair other than the actor, not the first in the ORM's order.
- Models.NextId: ids follow the default SQLite engine's rowid rule, one more than the largest id in the table. A database with sequences, chosen through `DATABASE_URL` in backend/app.py, may hand out other fresh ids; the proofs use only freshness.
- Admin.CreateTeam: the pair values are integers. The source compares the raw form strings, so "1" and "01" count as different values yet name the same pair. Non-numeric values are not modelled.
- Admin.ExportTeams: the lines are a map from team id to line. The order of the lines and the header row are not modelled.
- Admin.ExportTeamsAsWritten: the route needs no login in the source. The model follows that and takes no acting user.

## Findings

| source | as written | input that shows it | evidently intended | confidence | as-written member | corrected member |
|---|---|---|---|---|---|---|
| backend/routes/admin.py:294 | the outreach date is a text column (backend/models.py:56), but the export calls `strftime` on it; the exception is caught and the whole export becomes an error message | one team whose mission was assigned with outreach date "2025-03-01" | write the stored date text into the team's line | high; not executed | Admin.ExportTeamsAsWritten | Admin.ExportTeams |
| backend/routes/admin.py:51 | enrolment stores and checks the username exactly as typed, but login lower-cases and strips the typed name before the lookup (backend/routes/auth.py:52-54), so a member enrolled with an upper-case letter or surrounding spaces can never log in | an administrator enrols username "Alice" | normalise the username as registration does before the duplicate check and the insert | high; not executed | Admin.EnrollMemberAsWritten | Admin.EnrollMember |
| backend/routes/admin.py:115-116 | deleting a user makes the ORM set the NOT NULL `sender_id`/`receiver_id` of the user's requests to null, so the commit fails and nothing is deleted | an unpaired student who has sent one pending request | delete the unpaired student together with the student's requests | medium; not executed | Admin.DeleteStudentAsWritten | Admin.DeleteStudent |

`Admin.MissionDateBreaksExport`, `Auth.CapitalisedUsernameUnreachable`, `Auth.PaddedUsernameUnreachable` and `Admin.SentRequestBlocksDelete` show that each input above reaches the failing branch of the as-written member.

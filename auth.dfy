/**
 * Registration and login: the form normalisation, the uniqueness check
 * before a new student row is inserted, and the login lookup with its
 * role-based redirect.
 */
module Auth {
  import opened Models

  /** Python's `str.isspace` for one character. */
  predicate IsSpace(c: char)
  {
    var n := c as int;
    || 0x09 <= n <= 0x0D || 0x1C <= n <= 0x20
    || n == 0x85 || n == 0xA0 || n == 0x1680
    || 0x2000 <= n <= 0x200A
    || n == 0x2028 || n == 0x2029 || n == 0x202F || n == 0x205F || n == 0x3000
  }

  predicate IsUpper(c: char) { 'A' <= c <= 'Z' }

  predicate IsLower(c: char) { 'a' <= c <= 'z' }

  function LowerChar(c: char): char
  {
    if IsUpper(c) then (c as int + 32) as char else c
  }

  function UpperChar(c: char): char
  {
    if IsLower(c) then (c as int - 32) as char else c
  }

  /** `str.lower()` on the ASCII letters. */
  function Lower(s: string): (r: string)
    ensures |r| == |s|
    ensures forall i :: 0 <= i < |s| ==> !IsUpper(r[i])
    ensures forall i :: 0 <= i < |s| && !IsUpper(s[i]) ==> r[i] == s[i]
    ensures forall i :: 0 <= i < |s| && IsUpper(s[i]) ==> r[i] as int == s[i] as int + 32
  {
    seq(|s|, i requires 0 <= i < |s| => LowerChar(s[i]))
  }

  /** `str.upper()` on the ASCII letters. */
  function Upper(s: string): (r: string)
    ensures |r| == |s|
    ensures forall i :: 0 <= i < |s| ==> !IsLower(r[i])
    ensures forall i :: 0 <= i < |s| && !IsLower(s[i]) ==> r[i] == s[i]
    ensures forall i :: 0 <= i < |s| && IsLower(s[i]) ==> r[i] as int == s[i] as int - 32
  {
    seq(|s|, i requires 0 <= i < |s| => UpperChar(s[i]))
  }

  /** `str.lstrip()`: the longest suffix that does not start with whitespace. */
  function StripLeading(s: string): (r: string)
    ensures |r| <= |s| && r == s[|s| - |r|..]
    ensures r == [] || !IsSpace(r[0])
    ensures forall i :: 0 <= i < |s| - |r| ==> IsSpace(s[i])
  {
    if |s| > 0 && IsSpace(s[0]) then StripLeading(s[1..]) else s
  }

  /** `str.rstrip()`: the longest prefix that does not end with whitespace. */
  function StripTrailing(s: string): (r: string)
    ensures |r| <= |s| && r == s[..|r|]
    ensures r == [] || !IsSpace(r[|r| - 1])
    ensures forall i :: |r| <= i < |s| ==> IsSpace(s[i])
  {
    if |s| > 0 && IsSpace(s[|s| - 1]) then StripTrailing(s[..|s| - 1]) else s
  }

  /** `str.strip()`. */
  function Strip(s: string): string
  {
    StripTrailing(StripLeading(s))
  }

  /** The username as the handlers store and look it up: `.lower().strip()`. */
  function NormalizeUsername(s: string): string
  {
    Strip(Lower(s))
  }

  /** Stripping keeps a contiguous run of the input, starting at offset k:
      no character is invented. */
  lemma {:induction false} StripIsInfix(s: string) returns (k: nat)
    ensures k + |Strip(s)| <= |s| && Strip(s) == s[k..k + |Strip(s)|]
  {
    var l := StripLeading(s);
    k := |s| - |l|;
    assert l == s[k..];
    assert Strip(s) == l[..|Strip(s)|];
  }

  /** A stripped string has no whitespace at either end. */
  lemma {:induction false} StripTrimmed(s: string)
    ensures Strip(s) == [] || (!IsSpace(Strip(s)[0]) && !IsSpace(Strip(s)[|Strip(s)| - 1]))
  {
    var l := StripLeading(s);
    var r := Strip(s);
    assert r == l[..|r|];
    if r != [] {
      assert r[0] == l[0];
    }
  }

  /** A string without whitespace at either end is left as it is. */
  lemma {:induction false} StripFixesTrimmed(s: string)
    requires s == [] || (!IsSpace(s[0]) && !IsSpace(s[|s| - 1]))
    ensures Strip(s) == s
  {
  }

  /** Stripping twice strips nothing more. */
  lemma {:induction false} StripIdempotent(s: string)
    ensures Strip(Strip(s)) == Strip(s)
  {
    StripTrimmed(s);
    StripFixesTrimmed(Strip(s));
  }

  /** Lower-casing a string without upper-case letters changes nothing. */
  lemma {:induction false} LowerFixesLower(s: string)
    requires forall i :: 0 <= i < |s| ==> !IsUpper(s[i])
    ensures Lower(s) == s
  {
    assert forall i :: 0 <= i < |s| ==> Lower(s)[i] == s[i];
  }

  /** A run of a string without upper-case letters has none either. */
  lemma {:induction false} InfixKeepsNoUpper(l: string, k: nat, n: string)
    requires forall i :: 0 <= i < |l| ==> !IsUpper(l[i])
    requires k + |n| <= |l| && n == l[k..k + |n|]
    ensures forall i :: 0 <= i < |n| ==> !IsUpper(n[i])
  {
    forall i | 0 <= i < |n|
      ensures !IsUpper(n[i])
    {
      assert n[i] == l[k + i];
    }
  }

  /** A normalised username normalises to itself, so the login lookup finds
      the row that registration stored. */
  lemma {:induction false} NormalizeIdempotent(s: string)
    ensures NormalizeUsername(NormalizeUsername(s)) == NormalizeUsername(s)
  {
    var n := NormalizeUsername(s);
    NormalizedShape(s);
    LowerFixesLower(n);
    StripFixesTrimmed(n);
    assert NormalizeUsername(n) == Strip(Lower(n));
  }

  /** Stripping a string without upper-case letters leaves none. */
  lemma {:induction false} StripKeepsNoUpper(l: string)
    requires forall i :: 0 <= i < |l| ==> !IsUpper(l[i])
    ensures forall i :: 0 <= i < |Strip(l)| ==> !IsUpper(Strip(l)[i])
  {
    var k := StripIsInfix(l);
    InfixKeepsNoUpper(l, k, Strip(l));
  }

  /** A normalised username has no upper-case letter and no surrounding whitespace. */
  lemma {:induction false} NormalizedShape(s: string)
    ensures var n := NormalizeUsername(s);
      && (forall i :: 0 <= i < |n| ==> !IsUpper(n[i]))
      && (n == [] || (!IsSpace(n[0]) && !IsSpace(n[|n| - 1])))
  {
    var l := Lower(s);
    StripKeepsNoUpper(l);
    StripTrimmed(l);
  }

  /** Two strings that differ at most in the case of ASCII letters. */
  predicate SameUpToCase(a: string, b: string)
  {
    |a| == |b| && forall i :: 0 <= i < |a| ==> LowerChar(a[i]) == LowerChar(b[i])
  }

  /** Usernames that differ only in letter case normalise to the same string. */
  lemma {:induction false} CaseVariantsNormalizeAlike(a: string, b: string)
    requires SameUpToCase(a, b)
    ensures NormalizeUsername(a) == NormalizeUsername(b)
  {
    assert forall i :: 0 <= i < |a| ==> Lower(a)[i] == Lower(b)[i];
    assert Lower(a) == Lower(b);
  }

  /** A stored username that has an upper-case letter is never the result of
      normalising what someone types, so the login lookup cannot find it. */
  lemma {:induction false} CapitalisedUsernameUnreachable(typed: string, stored: string, i: nat)
    requires i < |stored| && IsUpper(stored[i])
    ensures NormalizeUsername(typed) != stored
  {
    NormalizedShape(typed);
  }

  /** Nor does any login name reach a stored username with whitespace at
      either end. */
  lemma {:induction false} PaddedUsernameUnreachable(typed: string, stored: string)
    requires |stored| > 0 && (IsSpace(stored[0]) || IsSpace(stored[|stored| - 1]))
    ensures NormalizeUsername(typed) != stored
  {
    NormalizedShape(typed);
  }

  /** The fields of the registration form. */
  datatype RegisterForm = RegisterForm(
    name: string,
    username: string,
    registerNumber: string,
    section: string,
    dept: string,
    sigbedTeam: string)

  datatype RegisterOutcome = AlreadyLoggedIn | Taken | Registered(userId: Id)

  /** Some existing user already has this username or this register number. */
  predicate IdentityTaken(users: map<Id, User>, username: string, registerNumber: string)
  {
    exists u :: u in users && (users[u].username == username || users[u].registerNumber == registerNumber)
  }

  /** The row registration inserts for a form: normalised fields, role
      student, no pair. */
  function Registrant(f: RegisterForm, passwordHash: string): (u: User)
    ensures u.username == NormalizeUsername(f.username)
    ensures u.registerNumber == Strip(f.registerNumber)
    ensures u.section == Upper(f.section)
    ensures u.role == StudentRole && u.pairId.None?
    ensures u.name == f.name && u.dept == f.dept && u.sigbedTeam == f.sigbedTeam
    ensures u.passwordHash == passwordHash
  {
    User(NormalizeUsername(f.username), passwordHash, f.name, Strip(f.registerNumber),
         Upper(f.section), f.dept, f.sigbedTeam, StudentRole, None)
  }

  /** POST /register. `authenticated` is the session's login state and
      `passwordHash` the hash the password library makes of the password. */
  method Register(db: Database, authenticated: bool, f: RegisterForm, passwordHash: string)
    returns (o: RegisterOutcome)
    modifies db
    ensures o == AlreadyLoggedIn <==> authenticated
    ensures !authenticated ==>
      (o == Taken <==> IdentityTaken(old(db.users), NormalizeUsername(f.username), Strip(f.registerNumber)))
    ensures !o.Registered? ==> unchanged(db)
    ensures o.Registered? ==>
      && o.userId !in old(db.users)
      && db.users == old(db.users)[o.userId := Registrant(f, passwordHash)]
      && db.requests == old(db.requests) && db.pairs == old(db.pairs) && db.teams == old(db.teams)
    ensures old(db.Consistent()) ==> db.Consistent()
  {
    if authenticated {
      return AlreadyLoggedIn;
    }
    var username := NormalizeUsername(f.username);
    var registerNumber := Strip(f.registerNumber);
    if IdentityTaken(db.users, username, registerNumber) {
      return Taken;
    }
    var id := NextId(db.users);
    ghost var before := db.Snapshot();
    db.users := db.users[id := Registrant(f, passwordHash)];
    if before.Consistent() {
      NewUserKeepsConsistent(before, id, Registrant(f, passwordHash));
    }
    o := Registered(id);
  }

  /** Once a user registered as `a`, registering `b` that differs from `a`
      only in letter case is refused as taken. */
  lemma {:induction false} CaseVariantRefused(users: map<Id, User>, first: Id, a: string, b: string, registerNumber: string)
    requires first in users && users[first].username == NormalizeUsername(a)
    requires SameUpToCase(a, b)
    ensures IdentityTaken(users, NormalizeUsername(b), registerNumber)
  {
    CaseVariantsNormalizeAlike(a, b);
    assert users[first].username == NormalizeUsername(b);
  }

  datatype Dashboard = AdminDashboard | StudentDashboard

  datatype LoginOutcome = InvalidCredentials | LoggedIn(userId: Id, target: Dashboard)

  /** POST /login. `checkPassword(hash, password)` is the password library's
      check of a password against a stored hash. */
  method Login(t: Tables, username: string, password: string, checkPassword: (string, string) -> bool)
    returns (o: LoginOutcome)
    ensures o.LoggedIn? ==>
      && o.userId in t.users
      && t.users[o.userId].username == NormalizeUsername(username)
      && checkPassword(t.users[o.userId].passwordHash, password)
      && o.target == (if t.users[o.userId].role == AdminRole then AdminDashboard else StudentDashboard)
    ensures UniqueUsernames(t.users) && o == InvalidCredentials ==>
      forall u :: u in t.users && t.users[u].username == NormalizeUsername(username) ==>
        !checkPassword(t.users[u].passwordHash, password)
  {
    var name := NormalizeUsername(username);
    var matches := set u | u in t.users && t.users[u].username == name;
    if matches == {} {
      assert forall u :: u in t.users && t.users[u].username == name ==> u in matches;
      return InvalidCredentials;
    }
    var u :| u in matches;
    assert forall v :: v in t.users && t.users[v].username == name ==> v in matches;
    if !checkPassword(t.users[u].passwordHash, password) {
      assert UniqueUsernames(t.users) ==> matches == {u} by {
        if UniqueUsernames(t.users) {
          forall v | v in matches
            ensures v == u
          {
            assert SameUsername(t.users, u, v);
          }
        }
      }
      return InvalidCredentials;
    }
    o := LoggedIn(u, if t.users[u].role == AdminRole then AdminDashboard else StudentDashboard);
  }
}

/** Accounts: sign-up (the first account becomes the approved admin), sign-in
    (only approved accounts get a session), and the admin actions approve,
    toggle admin and delete user. */
module Identity {
  import opened Records

  // ---------------------------------------------------------------------
  // signup

  /** `signup` (POST). The first account ever is approved and admin, every
      later one is neither. A taken username is refused by the unique column
      and nothing is stored. */
  ghost function Signup(db: Db, username: string, password: string): (r: Step)
    ensures r.db.blogs == db.blogs && r.db.projects == db.projects && r.db.contacts == db.contacts
    ensures UsernameTaken(db.users, username) ==> r == Step(db, DuplicateUsername)
    ensures !UsernameTaken(db.users, username) ==>
      var id := NextId(db.users.Keys);
      && r.out == Ok(SigninPage)
      && Inserted(db.users, r.db.users, id)
      && r.db.users[id] == User(username, HashPassword(password), db.users == map[], db.users == map[])
  {
    if UsernameTaken(db.users, username) then Step(db, DuplicateUsername)
    else
      var isFirst := |db.users| == 0;
      var id := NextId(db.users.Keys);
      var user := User(username, HashPassword(password), isFirst, isFirst);
      InsertAt(db.users, id, user);
      Step(db.(users := db.users[id := user]), Ok(SigninPage))
  }

  /** Signing up on an empty user table creates user 1, approved and admin. */
  lemma FirstSignupIsAdmin(db: Db, username: string, password: string)
    requires db.users == map[]
    ensures Signup(db, username, password).db.users == map[1 := User(username, HashPassword(password), true, true)]
  {
    assert NextId({}) == 1;
  }

  /** Every later signup creates a pending, non-admin account. */
  lemma LaterSignupIsPending(db: Db, username: string, password: string)
    requires db.users != map[] && 0 !in db.users && !UsernameTaken(db.users, username)
    ensures var users := Signup(db, username, password).db.users;
            var id := NextId(db.users.Keys);
            id != 1 && !users[id].approved && !users[id].isAdmin
  {
    var k :| k in db.users;
  }

  /** A run of signups, one after the other. */
  ghost function SignupRun(db: Db, requests: seq<(string, string)>): Db
    decreases |requests|
  {
    if requests == [] then db
    else SignupRun(Signup(db, requests[0].0, requests[0].1).db, requests[1..])
  }

  /** The user table has the shape signups alone produce: empty, or user 1
      approved and admin and every other user neither. */
  ghost predicate BootstrapShape(users: map<Id, User>) {
    && 0 !in users
    && (users != map[] ==> 1 in users && users[1].approved && users[1].isAdmin)
    && (forall id :: id in users && id != 1 ==> !users[id].approved && !users[id].isAdmin)
  }

  lemma SignupKeepsBootstrapShape(db: Db, username: string, password: string)
    requires BootstrapShape(db.users)
    ensures BootstrapShape(Signup(db, username, password).db.users)
    ensures db.users != map[] ==> Signup(db, username, password).db.users[1] == db.users[1]
  {
    if db.users == map[] {
      FirstSignupIsAdmin(db, username, password);
    } else if !UsernameTaken(db.users, username) {
      LaterSignupIsPending(db, username, password);
    }
  }

  /** Over any sequence of signups from an empty user table, the first one
      (user 1) and only it is approved and admin. */
  lemma {:induction false} OnlyFirstSignupIsAdmin(db: Db, requests: seq<(string, string)>)
    requires BootstrapShape(db.users)
    ensures BootstrapShape(SignupRun(db, requests).users)
    ensures db.users == map[] && requests != [] ==>
      1 in SignupRun(db, requests).users && SignupRun(db, requests).users[1].username == requests[0].0
    decreases |requests|
  {
    if requests != [] {
      var next := Signup(db, requests[0].0, requests[0].1).db;
      SignupKeepsBootstrapShape(db, requests[0].0, requests[0].1);
      OnlyFirstSignupIsAdmin(next, requests[1..]);
      if db.users == map[] {
        FirstSignupIsAdmin(db, requests[0].0, requests[0].1);
        FirstUserStays(next, requests[1..]);
      }
    }
  }

  /** Later signups never change user 1. */
  lemma {:induction false} FirstUserStays(db: Db, requests: seq<(string, string)>)
    requires 1 in db.users
    ensures 1 in SignupRun(db, requests).users
    ensures SignupRun(db, requests).users[1] == db.users[1]
    decreases |requests|
  {
    if requests != [] {
      FirstUserStays(Signup(db, requests[0].0, requests[0].1).db, requests[1..]);
    }
  }

  // ---------------------------------------------------------------------
  // signin

  /** The account with this username, if any (`filter_by(username).first()`). */
  ghost function FindUser(users: map<Id, User>, name: string): (r: Option<Id>)
    ensures r.Some? <==> UsernameTaken(users, name)
    ensures r.Some? ==> r.value in users && users[r.value].username == name
  {
    if UsernameTaken(users, name) then
      var id :| id in users && users[id].username == name; Some(id)
    else None
  }

  lemma FindUserUnique(users: map<Id, User>, id: Id)
    requires UniqueUsernames(users) && id in users
    ensures FindUser(users, users[id].username) == Some(id)
  {
  }

  /** The outcome of a sign-in and the session it opens, if any. */
  datatype Login = Login(out: Outcome, session: Principal)

  /** An account with this username and password exists. */
  ghost predicate Credentials(users: map<Id, User>, name: string, password: string) {
    exists id :: id in users && users[id].username == name && CheckPassword(users[id].password, password)
  }

  /** `signin` (POST). A session opens only for an approved account whose
      password matches; admins are sent to the dashboard, others to the blog
      list. A matching but unapproved account gets PendingApproval. */
  ghost function Signin(db: Db, username: string, password: string): (r: Login)
    requires UniqueUsernames(db.users)
    ensures r.session.Some? <==>
      exists id :: id in db.users && db.users[id].username == username
                && CheckPassword(db.users[id].password, password) && db.users[id].approved
    ensures r.session.Some? ==>
      var id := r.session.value;
      id in db.users && db.users[id].username == username
      && r.out == Ok(if db.users[id].isAdmin then AdminPage else BlogList)
    ensures r.out == InvalidCredentials <==> !Credentials(db.users, username, password)
    ensures r.out == PendingApproval <==> r.session.None? && Credentials(db.users, username, password)
  {
    match FindUser(db.users, username)
    case None => Login(InvalidCredentials, None)
    case Some(id) =>
      var user := db.users[id];
      if !CheckPassword(user.password, password) then Login(InvalidCredentials, None)
      else if !user.approved then Login(PendingApproval, None)
      else Login(Ok(if user.isAdmin then AdminPage else BlogList), Some(id))
  }

  /** An unapproved account never gets a session, whatever the password. */
  lemma UnapprovedNeverSignsIn(db: Db, id: Id, password: string)
    requires UniqueUsernames(db.users)
    requires id in db.users && !db.users[id].approved
    ensures Signin(db, db.users[id].username, password).session.None?
  {
  }

  // ---------------------------------------------------------------------
  // approve_user, toggle_admin, delete_user

  /** `approve_user/<id>`: sets the account's approved flag and nothing else. */
  function ApproveUser(db: Db, p: Principal, id: Id): (r: Step)
    ensures !IsAdmin(db, p) ==> r == Step(db, Gate(db, p, Home).value)
    ensures IsAdmin(db, p) && id !in db.users ==> r == Step(db, NotFound)
    ensures IsAdmin(db, p) && id in db.users ==>
      && r.out == Ok(AdminPage)
      && r.db == db.(users := r.db.users)
      && UpdatedOnly(db.users, r.db.users, id)
      && r.db.users[id] == db.users[id].(approved := true)
  {
    match Gate(db, p, Home)
    case Some(denied) => Step(db, denied)
    case None =>
      if id !in db.users then Step(db, NotFound)
      else Step(db.(users := db.users[id := db.users[id].(approved := true)]), Ok(AdminPage))
  }

  /** Approving twice is approving once. */
  lemma ApproveIdempotent(db: Db, p: Principal, id: Id)
    ensures ApproveUser(ApproveUser(db, p, id).db, p, id) == ApproveUser(db, p, id)
  {
  }

  /** `toggle_admin/<id>`: negates the account's admin flag and nothing else.
      There is no self-check and the account need not be approved. */
  function ToggleAdmin(db: Db, p: Principal, id: Id): (r: Step)
    ensures !IsAdmin(db, p) ==> r == Step(db, Gate(db, p, Home).value)
    ensures IsAdmin(db, p) && id !in db.users ==> r == Step(db, NotFound)
    ensures IsAdmin(db, p) && id in db.users ==>
      && r.out == Ok(AdminPage)
      && r.db == db.(users := r.db.users)
      && UpdatedOnly(db.users, r.db.users, id)
      && r.db.users[id] == db.users[id].(isAdmin := !db.users[id].isAdmin)
  {
    match Gate(db, p, Home)
    case Some(denied) => Step(db, denied)
    case None =>
      if id !in db.users then Step(db, NotFound)
      else Step(db.(users := db.users[id := db.users[id].(isAdmin := !db.users[id].isAdmin)]), Ok(AdminPage))
  }

  /** Toggling another account twice restores the database. */
  lemma ToggleTwiceRestores(db: Db, p: Principal, id: Id)
    requires p != Some(id)
    ensures ToggleAdmin(ToggleAdmin(db, p, id).db, p, id).db == db
  {
    if IsAdmin(db, p) && id in db.users {
      var once := ToggleAdmin(db, p, id).db;
      assert once.users[p.value] == db.users[p.value];
      assert once.users[id := once.users[id].(isAdmin := !once.users[id].isAdmin)] == db.users;
    }
  }

  /** An admin who toggles their own flag is demoted, and a second toggle is
      then refused: the first toggle cannot be undone by the same principal. */
  lemma SelfToggleDemotes(db: Db, p: Principal)
    requires IsAdmin(db, p)
    ensures var once := ToggleAdmin(db, p, p.value);
            once.out == Ok(AdminPage) && !IsAdmin(once.db, p)
            && ToggleAdmin(once.db, p, p.value) == Step(once.db, AccessDenied(Home))
  {
  }

  /** The admin flag can be raised on an account that is still unapproved;
      that account still cannot sign in. */
  lemma ToggleIgnoresApproval(db: Db, p: Principal, id: Id, password: string)
    requires Valid(db) && IsAdmin(db, p)
    requires id in db.users && !db.users[id].approved && !db.users[id].isAdmin
    ensures var after := ToggleAdmin(db, p, id).db;
            after.users[id].isAdmin && !after.users[id].approved
            && UniqueUsernames(after.users)
            && Signin(after, after.users[id].username, password).session.None?
  {
    var after := ToggleAdmin(db, p, id).db;
    assert forall k :: k in after.users ==> after.users[k].username == db.users[k].username;
  }

  /** How many posts name this user as author (`filter_by(author).count()`). */
  function PostCount(blogs: map<Id, Blog>, username: string): (r: nat)
    ensures r == 0 <==> forall b :: b in blogs ==> blogs[b].author != username
  {
    var s := Authored(blogs, username);
    assert forall b :: b in blogs && blogs[b].author == username ==> b in s;
    assert (forall b :: b in blogs ==> blogs[b].author != username) ==> s == {};
    |s|
  }

  /** The posts that name this user as author. */
  function Authored(blogs: map<Id, Blog>, username: string): set<Id> {
    set b | b in blogs && blogs[b].author == username
  }

  /** `delete_user/<id>`: refuses the acting admin's own id (before looking
      the id up), then a missing id, then an author of any post; otherwise
      removes exactly that account. */
  function DeleteUser(db: Db, p: Principal, id: Id): (r: Step)
    ensures !IsAdmin(db, p) ==> r == Step(db, Gate(db, p, Home).value)
    ensures IsAdmin(db, p) && p == Some(id) ==> r == Step(db, CannotDeleteSelf)
    ensures IsAdmin(db, p) && p != Some(id) && id !in db.users ==> r == Step(db, NotFound)
    ensures IsAdmin(db, p) && p != Some(id) && id in db.users && PostCount(db.blogs, db.users[id].username) > 0 ==>
      r == Step(db, HasPosts(PostCount(db.blogs, db.users[id].username)))
    ensures r.out == Ok(AdminPage) <==>
      IsAdmin(db, p) && p != Some(id) && id in db.users && PostCount(db.blogs, db.users[id].username) == 0
    ensures r.out == Ok(AdminPage) ==> r.db == db.(users := db.users - {id})
    ensures r.out != Ok(AdminPage) ==> r.db == db
  {
    match Gate(db, p, Home)
    case Some(denied) => Step(db, denied)
    case None =>
      if p == Some(id) then Step(db, CannotDeleteSelf)
      else if id !in db.users then Step(db, NotFound)
      else
        var count := PostCount(db.blogs, db.users[id].username);
        if count > 0 then Step(db, HasPosts(count))
        else Step(db.(users := db.users - {id}), Ok(AdminPage))
  }

  /** An author of some post has a positive post count. */
  lemma AuthorHasPosts(blogs: map<Id, Blog>, username: string, b: Id)
    requires b in blogs && blogs[b].author == username
    ensures PostCount(blogs, username) > 0
  {
    assert b in Authored(blogs, username);
  }

  // ---------------------------------------------------------------------
  // The approval scenario

  /** A signs up first and becomes an approved admin; B signs up second and
      waits, as a plain user, under id 2. */
  lemma TwoSignups(a: string, pa: string, b: string, pb: string)
    requires a != b
    ensures Signup(Signup(EmptyDb, a, pa).db, b, pb).db.users
         == map[1 := User(a, HashPassword(pa), true, true), 2 := User(b, HashPassword(pb), false, false)]
  {
    var s1 := Signup(EmptyDb, a, pa).db;
    FirstSignupIsAdmin(EmptyDb, a, pa);
    assert s1.users == map[1 := User(a, HashPassword(pa), true, true)];
    assert !UsernameTaken(s1.users, b);
    assert NextId(s1.users.Keys) == 2 by {
      assert s1.users.Keys == {1};
      NextIdUnique({1}, 2);
    }
  }

  /** Signing in with an account's own password: refused while the account
      is pending, otherwise a session for that account. */
  lemma SigninWithPassword(db: Db, id: Id, password: string)
    requires UniqueUsernames(db.users) && id in db.users
    requires CheckPassword(db.users[id].password, password)
    ensures var user := db.users[id];
            Signin(db, user.username, password)
              == if user.approved then Login(Ok(if user.isAdmin then AdminPage else BlogList), Some(id))
                 else Login(PendingApproval, None)
  {
    FindUserUnique(db.users, id);
  }

  /** A signs up first and is admin; B signs up and is pending; B's sign-in
      is refused until A approves B; then B reaches the blog list and A the
      dashboard. */
  lemma ApprovalScenario(a: string, pa: string, b: string, pb: string)
    requires a != b
    ensures var s1 := Signup(EmptyDb, a, pa).db;
            var s2 := Signup(s1, b, pb).db;
            var s3 := ApproveUser(s2, Some(1), 2).db;
            && s2.users == map[1 := User(a, HashPassword(pa), true, true), 2 := User(b, HashPassword(pb), false, false)]
            && UniqueUsernames(s2.users) && UniqueUsernames(s3.users)
            && Signin(s2, b, pb) == Login(PendingApproval, None)
            && Signin(s3, b, pb) == Login(Ok(BlogList), Some(2))
            && Signin(s3, a, pa) == Login(Ok(AdminPage), Some(1))
  {
    TwoSignups(a, pa, b, pb);
    var s2 := Signup(Signup(EmptyDb, a, pa).db, b, pb).db;
    assert UniqueUsernames(s2.users);
    SigninWithPassword(s2, 2, pb);
    var s3 := ApproveUser(s2, Some(1), 2).db;
    assert s3.users == map[1 := User(a, HashPassword(pa), true, true), 2 := User(b, HashPassword(pb), true, false)];
    assert UniqueUsernames(s3.users);
    SigninWithPassword(s3, 2, pb);
    SigninWithPassword(s3, 1, pa);
  }
}

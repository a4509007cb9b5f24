/** The four tables of the blog application (User, Blog, Project, Contact),
    the outcome of a request handler, the admin gate that every mutating
    route except signup and the contact form starts with, and the row-id
    allocation of the storage engine. */
module Records {

  datatype Option<T> = None | Some(value: T) {
    /** The value, or `default` when absent (Python's `form.get(key, default)`). */
    function GetOr(default: T): T {
      if Some? then value else default
    }
  }

  /** Primary keys are integer row ids. */
  type Id = nat

  /** Timestamps are supplied by the caller (they stand for `datetime.now()`). */
  type Time = int

  /** The session principal: the user id Flask-Login remembers, if any. */
  type Principal = Option<Id>

  /** A stored password. Hashing is abstracted: a credential remembers what it
      was made from, and checking a password compares against that. */
  datatype Credential = Hashed(secret: string)

  function HashPassword(password: string): Credential {
    Hashed(password)
  }

  predicate CheckPassword(stored: Credential, password: string) {
    stored.secret == password
  }

  datatype User = User(username: string, password: Credential, approved: bool, isAdmin: bool)

  datatype Blog = Blog(
    title: string,
    author: string,        // a username, not a foreign key
    postDate: Time,
    content: string,
    image: Option<string>,
    category: string,
    tags: string)          // comma-separated

  datatype Project = Project(
    title: string,
    description: string,
    longDescription: string,
    technologies: string,  // comma-separated
    githubUrl: string,
    liveUrl: string,
    image: Option<string>,
    featured: bool,
    createdDate: Time)

  datatype Contact = Contact(
    name: string,
    email: string,
    subject: string,
    message: string,
    submittedAt: Time,
    isRead: bool,
    isResponded: bool)

  /** The whole database: one map from id to row per table. */
  datatype Db = Db(
    users: map<Id, User>,
    blogs: map<Id, Blog>,
    projects: map<Id, Project>,
    contacts: map<Id, Contact>)

  const EmptyDb := Db(map[], map[], map[], map[])

  /** Where a handler redirects to. */
  datatype Target = Home | BlogList | Projects | ProjectDetail(id: Id) | AdminPage | SigninPage | ContactPage

  /** What a handler reports instead of the HTML it renders. */
  datatype Outcome =
    | Ok(next: Target)            // the action happened; redirect to `next`
    | AccessDenied(target: Target) // non-admin principal; flash and redirect to `target`
    | LoginRequired                // no (live) session; redirect to the sign-in page
    | NotFound                     // get_or_404 on a missing id
    | PendingApproval              // right password, account not yet approved
    | InvalidCredentials           // unknown user or wrong password
    | CannotDeleteSelf
    | HasPosts(count: nat)         // user still authors `count` posts
    | DuplicateUsername            // the unique column rejected the insert

  /** The state after a handler, and what it reported. */
  datatype Step = Step(db: Db, out: Outcome)

  /** Flask-Login loads the principal's row; a missing row means anonymous. */
  predicate Authenticated(db: Db, p: Principal) {
    p.Some? && p.value in db.users
  }

  predicate IsAdmin(db: Db, p: Principal) {
    Authenticated(db, p) && db.users[p.value].isAdmin
  }

  /** `@login_required` followed by `if not current_user.is_admin: flash;
      redirect(denied)`. None means the handler proceeds. */
  function Gate(db: Db, p: Principal, denied: Target): (r: Option<Outcome>)
    ensures r.None? <==> IsAdmin(db, p)
    ensures r == Some(LoginRequired) <==> !Authenticated(db, p)
    ensures r == Some(AccessDenied(denied)) <==> Authenticated(db, p) && !IsAdmin(db, p)
  {
    if !Authenticated(db, p) then Some(LoginRequired)
    else if !db.users[p.value].isAdmin then Some(AccessDenied(denied))
    else None
  }

  /** Some row of `users` carries this username. */
  predicate UsernameTaken(users: map<Id, User>, name: string) {
    exists id :: id in users && users[id].username == name
  }

  /** `id` is what SQLite hands out for a new INTEGER PRIMARY KEY row: one more
      than the largest id in use, or 1 in an empty table. */
  predicate IsNextId(keys: set<Id>, id: Id) {
    && 1 <= id
    && (forall k :: k in keys ==> k < id)
    && (id == 1 || id - 1 in keys)
  }

  ghost function NextId(keys: set<Id>): (id: Id)
    ensures IsNextId(keys, id) && id !in keys
  {
    if keys == {} then 1
    else
      var k :| k in keys;
      var rest := NextId(keys - {k});
      assert forall j :: j in keys ==> j == k || j in keys - {k};
      if k + 1 > rest then k + 1 else rest
  }

  /** At most one id satisfies IsNextId. */
  lemma NextIdUnique(keys: set<Id>, id: Id)
    requires IsNextId(keys, id)
    ensures id == NextId(keys)
  {
  }

  /** `after` is `before` plus one new row at `id`. */
  ghost predicate Inserted<T>(before: map<Id, T>, after: map<Id, T>, id: Id) {
    && id !in before
    && after.Keys == before.Keys + {id}
    && (forall k :: k in before ==> after[k] == before[k])
  }

  lemma InsertAt<T>(m: map<Id, T>, id: Id, row: T)
    requires id !in m
    ensures Inserted(m, m[id := row], id)
  {
  }

  /** `after` is `before` with only the row at `id` possibly changed. */
  ghost predicate UpdatedOnly<T>(before: map<Id, T>, after: map<Id, T>, id: Id) {
    && after.Keys == before.Keys
    && (forall k :: k in before && k != id ==> after[k] == before[k])
  }

  /** The ids of `order` that `keep` accepts, in the same order: what a
      filtered query returns when the table yields its rows in `order`. */
  function Select(order: seq<Id>, keep: Id -> bool): (r: seq<Id>)
    ensures |r| <= |order|
    ensures forall k :: k in r <==> k in order && keep(k)
  {
    if order == [] then []
    else (if keep(order[0]) then [order[0]] else []) + Select(order[1..], keep)
  }

  /** Select keeps the scan's order: the rows accepted from an earlier part
      of the scan come before those accepted from a later part. */
  lemma {:induction false} SelectConcat(a: seq<Id>, b: seq<Id>, keep: Id -> bool)
    ensures Select(a + b, keep) == Select(a, keep) + Select(b, keep)
  {
    if a != [] {
      assert (a + b)[1..] == a[1..] + b;
      SelectConcat(a[1..], b, keep);
    } else {
      assert a + b == b;
    }
  }

  /** `order` lists every row id of `table` exactly once: the storage order in
      which a query without ORDER BY yields the rows. */
  ghost predicate Lists<T>(order: seq<Id>, table: map<Id, T>) {
    && (forall k :: k in order <==> k in table)
    && (forall i, j :: 0 <= i < j < |order| ==> order[i] != order[j])
  }

  /** Usernames are unique (the column's unique constraint). */
  ghost predicate UniqueUsernames(users: map<Id, User>) {
    forall i, j :: i in users && j in users && users[i].username == users[j].username ==> i == j
  }

  /** Every post's author names an existing user: no orphaned author text. */
  ghost predicate AuthorsExist(db: Db) {
    forall b :: b in db.blogs ==> UsernameTaken(db.users, db.blogs[b].author)
  }

  /** The database invariant every handler keeps. */
  ghost predicate Valid(db: Db) {
    UniqueUsernames(db.users) && AuthorsExist(db)
  }
}

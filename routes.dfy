/** Every request that changes the database, dispatched to its handler, and
    the properties that hold across all of them: only an admin changes
    anything through an admin route, the database invariant is kept, approval
    is never withdrawn and usernames never change. */
module Routes {
  import opened Records
  import Content
  import Identity
  import Portfolio
  import Inbox

  datatype Request =
    | Signup(username: string, password: string)
    | SubmitContact(name: string, email: string, subject: string, message: string)
    | AddPost(post: Content.PostForm, code: Option<string>, language: Option<string>, image: Option<string>)
    | UpdatePost(id: Id, post: Content.PostForm, image: Option<string>)
    | DeletePost(id: Id)
    | ApproveUser(id: Id)
    | ToggleAdmin(id: Id)
    | DeleteUser(id: Id)
    | MarkContactRead(id: Id)
    | MarkContactResponded(id: Id)
    | DeleteContact(id: Id)
    | AddProject(project: Portfolio.ProjectForm, image: Option<string>)
    | UpdateProject(id: Id, project: Portfolio.ProjectForm, image: Option<string>)
    | DeleteProject(id: Id)
  {
    /** Every route except signup and the contact form requires an admin. */
    predicate AdminOnly() {
      !Signup? && !SubmitContact?
    }
  }

  /** Where a non-admin is sent: the blog list from the post routes, the
      projects page from the project routes, home from the others. */
  function DeniedTarget(req: Request): (t: Target)
    ensures t == BlogList <==> req.AddPost? || req.UpdatePost? || req.DeletePost?
    ensures t == Projects <==> req.AddProject? || req.UpdateProject? || req.DeleteProject?
  {
    match req
    case AddPost(_, _, _, _) => BlogList
    case UpdatePost(_, _, _) => BlogList
    case DeletePost(_) => BlogList
    case AddProject(_, _) => Projects
    case UpdateProject(_, _, _) => Projects
    case DeleteProject(_) => Projects
    case _ => Home
  }

  /** `updatepost` and `deletepost` look the post up without a 404: an admin
      must name an existing post. */
  predicate Callable(db: Db, p: Principal, req: Request) {
    (req.UpdatePost? || req.DeletePost?) && IsAdmin(db, p) ==> req.id in db.blogs
  }

  /** The handler a request reaches. Only a request that succeeds changes
      the database. */
  ghost function Handle(db: Db, p: Principal, req: Request, now: Time): (r: Step)
    requires Callable(db, p, req)
    ensures !r.out.Ok? ==> r.db == db
  {
    match req
    case Signup(username, password) => Identity.Signup(db, username, password)
    case SubmitContact(name, email, subject, message) => Inbox.SubmitContact(db, name, email, subject, message, now)
    case AddPost(post, code, language, image) => Content.AddPost(db, p, post, code, language, image, now)
    case UpdatePost(id, post, image) => Content.UpdatePost(db, p, id, post, image, now)
    case DeletePost(id) => Content.DeletePost(db, p, id)
    case ApproveUser(id) => Identity.ApproveUser(db, p, id)
    case ToggleAdmin(id) => Identity.ToggleAdmin(db, p, id)
    case DeleteUser(id) => Identity.DeleteUser(db, p, id)
    case MarkContactRead(id) => Inbox.MarkContactRead(db, p, id)
    case MarkContactResponded(id) => Inbox.MarkContactResponded(db, p, id)
    case DeleteContact(id) => Inbox.DeleteContact(db, p, id)
    case AddProject(project, image) => Portfolio.AddProject(db, p, project, image, now)
    case UpdateProject(id, project, image) => Portfolio.UpdateProject(db, p, id, project, image)
    case DeleteProject(id) => Portfolio.DeleteProject(db, p, id)
  }

  /** Through an admin route, anyone but an admin changes nothing: without a
      live session they are sent to sign in, with one they are refused and
      sent to the route's denied target. */
  lemma NonAdminChangesNothing(db: Db, p: Principal, req: Request, now: Time)
    requires req.AdminOnly() && !IsAdmin(db, p)
    ensures Callable(db, p, req)
    ensures Handle(db, p, req, now)
         == Step(db, if Authenticated(db, p) then AccessDenied(DeniedTarget(req)) else LoginRequired)
  {
  }

  /** Rows of `after` keep the usernames they had in `before`. */
  ghost predicate SameNames(before: map<Id, User>, after: map<Id, User>) {
    forall k :: k in before && k in after ==> after[k].username == before[k].username
  }

  /** Approved rows of `before` that survive are still approved in `after`. */
  ghost predicate StillApproved(before: map<Id, User>, after: map<Id, User>) {
    forall k :: k in before && k in after && before[k].approved ==> after[k].approved
  }

  /** No request renames an account or withdraws its approval. */
  lemma AccountsStable(db: Db, p: Principal, req: Request, now: Time)
    requires Callable(db, p, req)
    ensures var after := Handle(db, p, req, now).db.users;
            SameNames(db.users, after) && StillApproved(db.users, after)
  {
    var after := Handle(db, p, req, now).db.users;
    match req
    case Signup(username, password) =>
      if !UsernameTaken(db.users, username) {
        assert Inserted(db.users, after, NextId(db.users.Keys));
      }
    case _ =>
  }

  /** If every account that some post names survives under the same name,
      and no post is added or re-authored, every author still exists. */
  lemma AuthorsKept(db: Db, after: Db)
    requires AuthorsExist(db)
    requires forall k :: k in db.users && UsernameNeeded(db, k) ==> k in after.users && after.users[k].username == db.users[k].username
    requires forall b :: b in after.blogs ==> b in db.blogs && after.blogs[b].author == db.blogs[b].author
    ensures AuthorsExist(after)
  {
    forall b | b in after.blogs
      ensures UsernameTaken(after.users, after.blogs[b].author)
    {
      var k :| k in db.users && db.users[k].username == db.blogs[b].author;
      assert UsernameNeeded(db, k);
      assert k in after.users;
    }
  }

  /** Some post names user `k` as its author. */
  ghost predicate UsernameNeeded(db: Db, k: Id)
    requires k in db.users
  {
    exists b :: b in db.blogs && db.blogs[b].author == db.users[k].username
  }

  /** Signup keeps the invariant: the new name was free. */
  lemma SignupKeepsValid(db: Db, username: string, password: string)
    requires Valid(db)
    ensures Valid(Identity.Signup(db, username, password).db)
  {
    var after := Identity.Signup(db, username, password).db;
    if !UsernameTaken(db.users, username) {
      var id := NextId(db.users.Keys);
      assert Inserted(db.users, after.users, id);
      assert after.users[id].username == username;
      AuthorsKept(db, after);
    }
  }

  /** Writing a post as the acting admin keeps every author an account. */
  lemma PostWriteKeepsValid(db: Db, p: Principal, req: Request, now: Time)
    requires Valid(db) && IsAdmin(db, p) && Callable(db, p, req)
    requires req.AddPost? || req.UpdatePost?
    ensures Valid(Handle(db, p, req, now).db)
  {
    var after := Handle(db, p, req, now).db;
    var id := if req.AddPost? then NextId(db.blogs.Keys) else req.id;
    assert after.users == db.users;
    assert forall b :: b in after.blogs && b != id ==> b in db.blogs && after.blogs[b] == db.blogs[b];
    assert id in after.blogs ==> after.blogs[id].author == db.users[p.value].username;
    forall b | b in after.blogs
      ensures UsernameTaken(after.users, after.blogs[b].author)
    {
      if b != id {
        assert UsernameTaken(db.users, db.blogs[b].author);
      }
    }
  }

  /** Deleting an account that authors no post keeps every author an account. */
  lemma DeleteUserKeepsValid(db: Db, p: Principal, id: Id)
    requires Valid(db)
    ensures Valid(Identity.DeleteUser(db, p, id).db)
  {
    var after := Identity.DeleteUser(db, p, id).db;
    if after != db {
      forall k | k in db.users && UsernameNeeded(db, k)
        ensures k in after.users
      {
        var b :| b in db.blogs && db.blogs[b].author == db.users[k].username;
      }
      AuthorsKept(db, after);
    }
  }

  /** Every request keeps usernames unique and every post's author an
      existing account. */
  lemma HandleKeepsValid(db: Db, p: Principal, req: Request, now: Time)
    requires Valid(db) && Callable(db, p, req)
    ensures Valid(Handle(db, p, req, now).db)
  {
    if !IsAdmin(db, p) && req.AdminOnly() {
      NonAdminChangesNothing(db, p, req, now);
    } else if req.Signup? {
      SignupKeepsValid(db, req.username, req.password);
    } else if req.AddPost? || req.UpdatePost? {
      PostWriteKeepsValid(db, p, req, now);
    } else if req.DeleteUser? {
      DeleteUserKeepsValid(db, p, req.id);
    } else {
      var after := Handle(db, p, req, now).db;
      AccountsStable(db, p, req, now);
      AuthorsKept(db, after);
    }
  }
}

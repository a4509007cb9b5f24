/** The running application: the four tables held as mutable maps, and one
    method per request handler that updates them in place. Each method is
    proved against the handler function that specifies it, and keeps the
    database invariant. */
module Site {
  import opened Records
  import Content
  import Identity
  import Portfolio
  import Inbox
  import Dashboard
  import Routes

  /** The id the storage engine gives a new row: it scans the table for the
      largest id in use. */
  method NewId<T>(table: map<Id, T>) returns (id: Id)
    ensures id == NextId(table.Keys)
  {
    id := 1;
    var rest := table.Keys;
    while rest != {}
      invariant rest <= table.Keys
      invariant 1 <= id
      invariant forall k :: k in table.Keys - rest ==> k < id
      invariant id == 1 || id - 1 in table.Keys
      decreases |rest|
    {
      var k :| k in rest;
      assert table.Keys - (rest - {k}) == (table.Keys - rest) + {k};
      if k >= id {
        id := k + 1;
      }
      rest := rest - {k};
    }
    assert table.Keys - rest == table.Keys;
    NextIdUnique(table.Keys, id);
  }

  /** `User.query.filter_by(username=name).first()`. */
  method FindByName(users: map<Id, User>, name: string) returns (r: Option<Id>)
    ensures r.None? <==> !UsernameTaken(users, name)
    ensures r.Some? ==> r.value in users && users[r.value].username == name
  {
    var rest := users.Keys;
    while rest != {}
      invariant rest <= users.Keys
      invariant forall k :: k in users.Keys - rest ==> users[k].username != name
      decreases |rest|
    {
      var k :| k in rest;
      if users[k].username == name {
        return Some(k);
      }
      rest := rest - {k};
    }
    return None;
  }

  /** The posts among `among` written by `username`: Identity.Authored
      restricted to the ids a scan has visited so far, written out so that
      each step of the scan adds or skips one id. It equals Identity.Authored
      once every id is visited. */
  ghost function AuthoredAmong(blogs: map<Id, Blog>, username: string, among: set<Id>): set<Id> {
    set b | b in among && b in blogs && blogs[b].author == username
  }

  /** `Blog.query.filter_by(author=username).count()`. */
  method CountPosts(blogs: map<Id, Blog>, username: string) returns (n: nat)
    ensures n == Identity.PostCount(blogs, username)
  {
    n := 0;
    var rest := blogs.Keys;
    while rest != {}
      invariant rest <= blogs.Keys
      invariant n == |AuthoredAmong(blogs, username, blogs.Keys - rest)|
      decreases |rest|
    {
      var k :| k in rest;
      ghost var seen := blogs.Keys - rest;
      assert blogs.Keys - (rest - {k}) == seen + {k};
      if blogs[k].author == username {
        assert AuthoredAmong(blogs, username, seen + {k}) == AuthoredAmong(blogs, username, seen) + {k};
        n := n + 1;
      } else {
        assert AuthoredAmong(blogs, username, seen + {k}) == AuthoredAmong(blogs, username, seen);
      }
      rest := rest - {k};
    }
    assert blogs.Keys - rest == blogs.Keys;
    assert AuthoredAmong(blogs, username, blogs.Keys) == Identity.Authored(blogs, username);
  }

  /** What the admin branch of `AddPost` stores, and that it keeps the invariant. */
  lemma AddPostStores(db: Db, next: Db, p: Principal, form: Content.PostForm, code: Option<string>,
                      language: Option<string>, image: Option<string>, now: Time, id: Id, post: Blog)
    requires Records.Valid(db) && IsAdmin(db, p)
    requires id == NextId(db.blogs.Keys)
    requires post == Blog(form.title, db.users[p.value].username, now, Content.WithCode(form.content, code, language),
                          image, form.category.GetOr("General"), form.tags.GetOr(""))
    requires next == db.(blogs := db.blogs[id := post])
    ensures Content.AddPost(db, p, form, code, language, image, now) == Step(next, Ok(BlogList))
    ensures Records.Valid(next)
  {
    var req := Routes.AddPost(form, code, language, image);
    assert Routes.Handle(db, p, req, now) == Content.AddPost(db, p, form, code, language, image, now);
    Routes.PostWriteKeepsValid(db, p, req, now);
  }

  class App {
    var users: map<Id, User>
    var blogs: map<Id, Blog>
    var projects: map<Id, Project>
    var contacts: map<Id, Contact>

    /** The tables as one database value. */
    function State(): Db
      reads this
    {
      Db(users, blogs, projects, contacts)
    }

    ghost predicate Valid()
      reads this
    {
      Records.Valid(State())
    }

    /** `db.create_all()` on a fresh file: every table empty. */
    constructor()
      ensures State() == EmptyDb && Valid()
    {
      users, blogs, projects, contacts := map[], map[], map[], map[];
    }

    // -------------------------------------------------------------------
    // accounts

    method Signup(username: string, password: string) returns (out: Outcome)
      requires Valid()
      modifies this
      ensures Valid()
      ensures Step(State(), out) == Identity.Signup(old(State()), username, password)
    {
      var taken := FindByName(users, username);
      if taken.Some? {
        return DuplicateUsername;
      }
      var isFirst := |users| == 0;
      var id := NewId(users);
      var user := User(username, HashPassword(password), isFirst, isFirst);
      users := users[id := user];
      Routes.HandleKeepsValid(old(State()), None, Routes.Signup(username, password), 0);
      out := Ok(SigninPage);
    }

    /** Reads the tables only: the outcome and the session it opens. */
    method Signin(username: string, password: string) returns (login: Identity.Login)
      requires Valid()
      ensures login == Identity.Signin(State(), username, password)
    {
      var found := FindByName(users, username);
      if found.None? {
        return Identity.Login(InvalidCredentials, None);
      }
      var id := found.value;
      Identity.FindUserUnique(users, id);
      var user := users[id];
      if !CheckPassword(user.password, password) {
        login := Identity.Login(InvalidCredentials, None);
      } else if !user.approved {
        login := Identity.Login(PendingApproval, None);
      } else {
        login := Identity.Login(Ok(if user.isAdmin then AdminPage else BlogList), Some(id));
      }
    }

    method ApproveUser(p: Principal, id: Id) returns (out: Outcome)
      requires Valid()
      modifies this
      ensures Valid()
      ensures Step(State(), out) == Identity.ApproveUser(old(State()), p, id)
    {
      var denied := Gate(State(), p, Home);
      if denied.Some? {
        return denied.value;
      }
      if id !in users {
        return NotFound;
      }
      users := users[id := users[id].(approved := true)];
      Routes.HandleKeepsValid(old(State()), p, Routes.ApproveUser(id), 0);
      out := Ok(AdminPage);
    }

    method ToggleAdmin(p: Principal, id: Id) returns (out: Outcome)
      requires Valid()
      modifies this
      ensures Valid()
      ensures Step(State(), out) == Identity.ToggleAdmin(old(State()), p, id)
    {
      var denied := Gate(State(), p, Home);
      if denied.Some? {
        return denied.value;
      }
      if id !in users {
        return NotFound;
      }
      users := users[id := users[id].(isAdmin := !users[id].isAdmin)];
      Routes.HandleKeepsValid(old(State()), p, Routes.ToggleAdmin(id), 0);
      out := Ok(AdminPage);
    }

    method DeleteUser(p: Principal, id: Id) returns (out: Outcome)
      requires Valid()
      modifies this
      ensures Valid()
      ensures Step(State(), out) == Identity.DeleteUser(old(State()), p, id)
    {
      var denied := Gate(State(), p, Home);
      if denied.Some? {
        return denied.value;
      }
      if p == Some(id) {
        return CannotDeleteSelf;
      }
      if id !in users {
        return NotFound;
      }
      var count := CountPosts(blogs, users[id].username);
      if count > 0 {
        return HasPosts(count);
      }
      users := users - {id};
      Routes.HandleKeepsValid(old(State()), p, Routes.DeleteUser(id), 0);
      out := Ok(AdminPage);
    }

    // -------------------------------------------------------------------
    // posts

    method AddPost(p: Principal, form: Content.PostForm, code: Option<string>, language: Option<string>,
                   image: Option<string>, now: Time) returns (out: Outcome)
      requires Valid()
      modifies this
      ensures Valid()
      ensures Step(State(), out) == Content.AddPost(old(State()), p, form, code, language, image, now)
    {
      var db := State();
      var denied := Gate(db, p, BlogList);
      if denied.Some? {
        return denied.value;
      }
      var post := Blog(form.title, db.users[p.value].username, now,
                       Content.WithCode(form.content, code, language), image,
                       form.category.GetOr("General"), form.tags.GetOr(""));
      var id := NewId(db.blogs);
      blogs := blogs[id := post];
      AddPostStores(db, State(), p, form, code, language, image, now, id, post);
      return Ok(BlogList);
    }

    method UpdatePost(p: Principal, id: Id, form: Content.PostForm, image: Option<string>, now: Time) returns (out: Outcome)
      requires Valid()
      requires IsAdmin(State(), p) ==> id in blogs
      modifies this
      ensures Valid()
      ensures Step(State(), out) == Content.UpdatePost(old(State()), p, id, form, image, now)
    {
      var denied := Gate(State(), p, BlogList);
      if denied.Some? {
        return denied.value;
      }
      var post := blogs[id].(
        title := form.title,
        author := users[p.value].username,
        content := form.content,
        category := form.category.GetOr("General"),
        tags := form.tags.GetOr(""),
        postDate := now,
        image := if image.Some? then image else blogs[id].image);
      blogs := blogs[id := post];
      Routes.HandleKeepsValid(old(State()), p, Routes.UpdatePost(id, form, image), now);
      out := Ok(BlogList);
    }

    method DeletePost(p: Principal, id: Id) returns (out: Outcome)
      requires Valid()
      requires IsAdmin(State(), p) ==> id in blogs
      modifies this
      ensures Valid()
      ensures Step(State(), out) == Content.DeletePost(old(State()), p, id)
    {
      var denied := Gate(State(), p, BlogList);
      if denied.Some? {
        return denied.value;
      }
      blogs := blogs - {id};
      Routes.HandleKeepsValid(old(State()), p, Routes.DeletePost(id), 0);
      out := Ok(BlogList);
    }

    // -------------------------------------------------------------------
    // contact messages

    method SubmitContact(name: string, email: string, subject: string, message: string, now: Time) returns (out: Outcome)
      requires Valid()
      modifies this
      ensures Valid()
      ensures Step(State(), out) == Inbox.SubmitContact(old(State()), name, email, subject, message, now)
    {
      var id := NewId(contacts);
      var contact := Contact(name, email, subject, message, now, false, false);
      contacts := contacts[id := contact];
      Routes.HandleKeepsValid(old(State()), None, Routes.SubmitContact(name, email, subject, message), now);
      out := Ok(ContactPage);
    }

    method MarkContactRead(p: Principal, id: Id) returns (out: Outcome)
      requires Valid()
      modifies this
      ensures Valid()
      ensures Step(State(), out) == Inbox.MarkContactRead(old(State()), p, id)
    {
      var denied := Gate(State(), p, Home);
      if denied.Some? {
        return denied.value;
      }
      if id !in contacts {
        return NotFound;
      }
      contacts := contacts[id := contacts[id].(isRead := true)];
      Routes.HandleKeepsValid(old(State()), p, Routes.MarkContactRead(id), 0);
      out := Ok(AdminPage);
    }

    method MarkContactResponded(p: Principal, id: Id) returns (out: Outcome)
      requires Valid()
      modifies this
      ensures Valid()
      ensures Step(State(), out) == Inbox.MarkContactResponded(old(State()), p, id)
    {
      var denied := Gate(State(), p, Home);
      if denied.Some? {
        return denied.value;
      }
      if id !in contacts {
        return NotFound;
      }
      contacts := contacts[id := contacts[id].(isResponded := true)];
      Routes.HandleKeepsValid(old(State()), p, Routes.MarkContactResponded(id), 0);
      out := Ok(AdminPage);
    }

    method DeleteContact(p: Principal, id: Id) returns (out: Outcome)
      requires Valid()
      modifies this
      ensures Valid()
      ensures Step(State(), out) == Inbox.DeleteContact(old(State()), p, id)
    {
      var denied := Gate(State(), p, Home);
      if denied.Some? {
        return denied.value;
      }
      if id !in contacts {
        return NotFound;
      }
      contacts := contacts - {id};
      Routes.HandleKeepsValid(old(State()), p, Routes.DeleteContact(id), 0);
      out := Ok(AdminPage);
    }

    /** `admin`: reads the tables only. */
    method AdminDashboard(p: Principal) returns (page: Dashboard.Page)
      requires Valid()
      ensures page == Dashboard.AdminDashboard(State(), p)
      ensures page.Shown? ==>
        page.stats.pendingUsers <= page.stats.totalUsers && page.stats.unreadContacts <= page.stats.totalContacts
    {
      var denied := Gate(State(), p, BlogList);
      if denied.Some? {
        return Dashboard.Denied(denied.value);
      }
      page := Dashboard.Shown(Dashboard.Stats(|users|, Dashboard.PendingCount(users),
                                              |contacts|, Dashboard.UnreadCount(contacts)));
    }

    // -------------------------------------------------------------------
    // projects

    method AddProject(p: Principal, form: Portfolio.ProjectForm, image: Option<string>, now: Time) returns (out: Outcome)
      requires Valid()
      modifies this
      ensures Valid()
      ensures Step(State(), out) == Portfolio.AddProject(old(State()), p, form, image, now)
    {
      var denied := Gate(State(), p, Projects);
      if denied.Some? {
        return denied.value;
      }
      var project := Project(form.title, form.description, form.longDescription.GetOr(""),
                             form.technologies, form.githubUrl.GetOr(""), form.liveUrl.GetOr(""),
                             image, form.featured, now);
      var id := NewId(projects);
      projects := projects[id := project];
      Routes.HandleKeepsValid(old(State()), p, Routes.AddProject(form, image), now);
      out := Ok(Projects);
    }

    method UpdateProject(p: Principal, id: Id, form: Portfolio.ProjectForm, image: Option<string>) returns (out: Outcome)
      requires Valid()
      modifies this
      ensures Valid()
      ensures Step(State(), out) == Portfolio.UpdateProject(old(State()), p, id, form, image)
    {
      var denied := Gate(State(), p, Projects);
      if denied.Some? {
        return denied.value;
      }
      if id !in projects {
        return NotFound;
      }
      var project := projects[id].(
        title := form.title,
        description := form.description,
        longDescription := form.longDescription.GetOr(""),
        technologies := form.technologies,
        githubUrl := form.githubUrl.GetOr(""),
        liveUrl := form.liveUrl.GetOr(""),
        featured := form.featured,
        image := if image.Some? then image else projects[id].image);
      projects := projects[id := project];
      Routes.HandleKeepsValid(old(State()), p, Routes.UpdateProject(id, form, image), 0);
      out := Ok(ProjectDetail(id));
    }

    method DeleteProject(p: Principal, id: Id) returns (out: Outcome)
      requires Valid()
      modifies this
      ensures Valid()
      ensures Step(State(), out) == Portfolio.DeleteProject(old(State()), p, id)
    {
      var denied := Gate(State(), p, Projects);
      if denied.Some? {
        return denied.value;
      }
      if id !in projects {
        return NotFound;
      }
      projects := projects - {id};
      Routes.HandleKeepsValid(old(State()), p, Routes.DeleteProject(id), 0);
      out := Ok(Projects);
    }
  }
}

/** Projects: creating, editing and deleting them (admin only) and the
    technology list of the project page. */
module Portfolio {
  import opened Records
  import opened Text

  /** The fields of the project form: title, description and technologies
      are required, the others may be missing; `featured` is whether the
      checkbox was sent. */
  datatype ProjectForm = ProjectForm(
    title: string,
    description: string,
    longDescription: Option<string>,
    technologies: string,
    githubUrl: Option<string>,
    liveUrl: Option<string>,
    featured: bool)

  /** `add_project` (POST): a new project created at `now`; `image` is the
      stored upload's file name, if a file came with the form. */
  ghost function AddProject(db: Db, p: Principal, form: ProjectForm, image: Option<string>, now: Time): (r: Step)
    ensures !IsAdmin(db, p) ==> r == Step(db, Gate(db, p, Projects).value)
    ensures IsAdmin(db, p) ==>
      var id := NextId(db.projects.Keys);
      && r.out == Ok(Projects)
      && r.db == db.(projects := r.db.projects)
      && Inserted(db.projects, r.db.projects, id)
      && r.db.projects[id] == Project(form.title, form.description, form.longDescription.GetOr(""),
                                      form.technologies, form.githubUrl.GetOr(""), form.liveUrl.GetOr(""),
                                      image, form.featured, now)
  {
    match Gate(db, p, Projects)
    case Some(denied) => Step(db, denied)
    case None =>
      var project := Project(form.title, form.description, form.longDescription.GetOr(""),
                             form.technologies, form.githubUrl.GetOr(""), form.liveUrl.GetOr(""),
                             image, form.featured, now);
      var id := NextId(db.projects.Keys);
      InsertAt(db.projects, id, project);
      Step(db.(projects := db.projects[id := project]), Ok(Projects))
  }

  /** `update_project/<id>` (POST): every form field is overwritten, the image
      only when a file came with the form; the creation date stays. */
  function UpdateProject(db: Db, p: Principal, id: Id, form: ProjectForm, image: Option<string>): (r: Step)
    ensures !IsAdmin(db, p) ==> r == Step(db, Gate(db, p, Projects).value)
    ensures IsAdmin(db, p) && id !in db.projects ==> r == Step(db, NotFound)
    ensures IsAdmin(db, p) && id in db.projects ==>
      && r.out == Ok(ProjectDetail(id))
      && r.db == db.(projects := r.db.projects)
      && UpdatedOnly(db.projects, r.db.projects, id)
      && r.db.projects[id] == Project(form.title, form.description, form.longDescription.GetOr(""),
                                      form.technologies, form.githubUrl.GetOr(""), form.liveUrl.GetOr(""),
                                      if image.Some? then image else db.projects[id].image,
                                      form.featured, db.projects[id].createdDate)
  {
    match Gate(db, p, Projects)
    case Some(denied) => Step(db, denied)
    case None =>
      if id !in db.projects then Step(db, NotFound)
      else
        var project := db.projects[id].(
          title := form.title,
          description := form.description,
          longDescription := form.longDescription.GetOr(""),
          technologies := form.technologies,
          githubUrl := form.githubUrl.GetOr(""),
          liveUrl := form.liveUrl.GetOr(""),
          featured := form.featured,
          image := if image.Some? then image else db.projects[id].image);
        Step(db.(projects := db.projects[id := project]), Ok(ProjectDetail(id)))
  }

  /** `delete_project/<id>`: the project is removed, nothing else. */
  function DeleteProject(db: Db, p: Principal, id: Id): (r: Step)
    ensures !IsAdmin(db, p) ==> r == Step(db, Gate(db, p, Projects).value)
    ensures IsAdmin(db, p) && id !in db.projects ==> r == Step(db, NotFound)
    ensures IsAdmin(db, p) && id in db.projects ==>
      && r.out == Ok(Projects)
      && r.db == db.(projects := r.db.projects)
      && r.db.projects.Keys == db.projects.Keys - {id}
      && (forall k :: k in r.db.projects ==> r.db.projects[k] == db.projects[k])
  {
    match Gate(db, p, Projects)
    case Some(denied) => Step(db, denied)
    case None =>
      if id !in db.projects then Step(db, NotFound)
      else Step(db.(projects := db.projects - {id}), Ok(Projects))
  }

  /** `[t.strip() for t in technologies.split(',')] if technologies else []`. */
  function Technologies(technologies: string): (r: seq<string>)
    ensures technologies == "" <==> r == []
    ensures technologies != "" ==> |r| == |Split(technologies, ',')|
    ensures forall x :: x in r ==> x == [] || (!IsSpace(x[0]) && !IsSpace(x[|x| - 1]))
    ensures technologies != "" ==> forall i :: 0 <= i < |r| ==> r[i] == Strip(Split(technologies, ',')[i])
  {
    if technologies == "" then []
    else
      var parts := Split(technologies, ',');
      seq(|parts|, i requires 0 <= i < |parts| => Strip(parts[i]))
  }

  /** A list of trimmed, comma-free names written out with commas is read back
      as the same list. */
  lemma TechnologiesRoundTrip(items: seq<string>)
    requires items != [] && items != [""]
    requires forall x :: x in items ==> ',' !in x && Strip(x) == x
    ensures Technologies(Join(items, ',')) == items
  {
    var t := Join(items, ',');
    SplitJoin(items, ',');
    var r := Technologies(t);
    assert |r| == |items|;
    forall i | 0 <= i < |items|
      ensures r[i] == items[i]
    {
      assert items[i] in items;
    }
  }

  /** `project_detail/<id>`: the project's technology list; None is the 404. */
  function ProjectTechnologies(projects: map<Id, Project>, id: Id): (r: Option<seq<string>>)
    ensures r.None? <==> id !in projects
    ensures r.Some? ==> r.value == Technologies(projects[id].technologies)
    ensures r.Some? ==> (r.value == [] <==> projects[id].technologies == "")
  {
    if id !in projects then None else Some(Technologies(projects[id].technologies))
  }
}

/** Project management: `listProjects`, `createProject`, `updateProject`,
    `deleteProject` and `getProjectById`, every statement keyed by the
    tenant id of the token. No project quota is enforced. */
module ProjectController {
  import opened Values
  import opened Lists
  import opened Table
  import opened Schema
  import opened Http

  /** `req.body` of `POST /projects` and `PUT /projects/:projectId`. */
  datatype ProjectBody = ProjectBody(
    name: Field<string>,
    description: Field<string>,
    status: Field<string>)

  /** `SELECT id, name, description, status, created_at` */
  datatype ProjectSummary = ProjectSummary(
    id: string,
    name: Option<string>,
    description: Option<string>,
    status: Option<string>,
    createdAt: int)

  function Summary(p: ProjectRow): ProjectSummary {
    ProjectSummary(p.id, p.data.name, p.data.description, p.data.status, p.createdAt)
  }

  function NewestFirst(p: ProjectSummary): int {
    -p.createdAt
  }

  // ---------------------------------------------------------------------
  // listProjects

  /** `listProjects`: the caller's tenant's projects, newest first. */
  function ListProjects(projects: seq<ProjectRow>, user: Claims): (r: Response<seq<ProjectSummary>>)
    ensures r.Ok? && r.status == 200
    ensures forall i, j :: 0 <= i < j < |r.data| ==> r.data[i].createdAt >= r.data[j].createdAt
    ensures multiset(r.data) == multiset(Map(Scoped(projects, user.tenantId), Summary))
    ensures forall s :: s in r.data <==> exists p :: p in projects && p.tenantId == user.tenantId && Summary(p) == s
  {
    var visible := Map(Scoped(projects, user.tenantId), Summary);
    var sorted := SortBy(visible, NewestFirst);
    assert forall i, j :: 0 <= i < j < |sorted| ==> NewestFirst(sorted[i]) <= NewestFirst(sorted[j]);
    SameElements(sorted, visible);
    forall s ensures s in visible <==> exists p :: p in projects && p.tenantId == user.tenantId && Summary(p) == s {
      MapContains(Scoped(projects, user.tenantId), Summary, s);
    }
    Ok(200, sorted)
  }

  /** The listing depends on nothing but the caller's tenant's rows. */
  lemma ListProjectsLocal(projects1: seq<ProjectRow>, projects2: seq<ProjectRow>, user: Claims)
    requires Scoped(projects1, user.tenantId) == Scoped(projects2, user.tenantId)
    ensures ListProjects(projects1, user) == ListProjects(projects2, user)
  {
  }

  // ---------------------------------------------------------------------
  // getProjectById

  /** `getProjectById` */
  function GetProjectById(projects: seq<ProjectRow>, user: Claims, projectId: string): (r: Response<ProjectRow>)
    ensures r.Ok? <==> exists p :: p in projects && p.id == projectId && p.tenantId == user.tenantId
    ensures r.Ok? ==> r.status == 200 && r.data in projects && r.data.id == projectId && r.data.tenantId == user.tenantId
    ensures !r.Ok? ==> r == Err(404, "Project not found")
  {
    match FindWhere(projects, projectId, user.tenantId)
    case None => Err(404, "Project not found")
    case Some(p) => Ok(200, p)
  }

  /** A project owned by another tenant answers exactly as a missing one:
      the response is a function of the caller's tenant's rows alone. */
  lemma GetProjectLocal(projects: seq<ProjectRow>, user: Claims, projectId: string)
    ensures GetProjectById(projects, user, projectId) == GetProjectById(Scoped(projects, user.tenantId), user, projectId)
  {
    FindWhereLocal(projects, projectId, user.tenantId);
  }

  /** Adding another tenant's project with the same id changes nothing. */
  lemma ForeignProjectIsNotFound(projects: seq<ProjectRow>, user: Claims, other: ProjectRow)
    requires other.tenantId != user.tenantId
    ensures GetProjectById(projects + [other], user, other.id) == GetProjectById(projects, user, other.id)
  {
    ScopedAppend(projects, other, user.tenantId);
    GetProjectLocal(projects + [other], user, other.id);
    GetProjectLocal(projects, user, other.id);
  }

  // ---------------------------------------------------------------------
  // createProject

  /** The row `createProject` inserts: the caller's tenant, status
      `'active'` whatever the body says. */
  function NewProject(id: string, t: string, body: ProjectBody, now: int): (p: ProjectRow)
    ensures p.id == id && p.tenantId == t && p.createdAt == now && p.updatedAt == now
    ensures p.data.status == Some("active")
    ensures p.data.name == body.name.Column() && p.data.description == body.description.Column()
  {
    Row(id, t, now, now, ProjectData(body.name.Column(), body.description.Column(), Some("active")))
  }

  /** `createProject` */
  method CreateProject(db: Database, user: Claims, body: ProjectBody, newId: string, now: int)
    returns (r: Response<ProjectRow>)
    modifies db
    ensures db.tenants == old(db.tenants) && db.users == old(db.users) && db.auditLogs == old(db.auditLogs)
    ensures db.projects == old(db.projects) + [NewProject(newId, user.tenantId, body, now)]
    ensures r == Ok(201, NewProject(newId, user.tenantId, body, now))
    ensures forall t :: t != user.tenantId ==> Scoped(db.projects, t) == Scoped(old(db.projects), t)
  {
    var p := NewProject(newId, user.tenantId, body, now);
    ghost var before := db.projects;
    db.projects := db.projects + [p];
    forall t | t != user.tenantId ensures Scoped(db.projects, t) == Scoped(before, t) {
      ScopedAppend(before, p, t);
    }
    r := Ok(201, p);
  }

  /** Round trip: a project just created under a fresh id is what the
      creator's tenant then reads back, and no other tenant sees it. */
  lemma CreateThenGet(projects: seq<ProjectRow>, user: Claims, body: ProjectBody, newId: string, now: int, reader: Claims)
    requires forall p :: p in projects ==> p.id != newId
    ensures GetProjectById(projects + [NewProject(newId, user.tenantId, body, now)], reader, newId)
         == if reader.tenantId == user.tenantId then Ok(200, NewProject(newId, user.tenantId, body, now))
            else Err(404, "Project not found")
  {
    var p := NewProject(newId, user.tenantId, body, now);
    var s := projects + [p];
    if reader.tenantId == user.tenantId {
      assert FindWhere(projects, newId, reader.tenantId).None?;
      FindWhereAppend(projects, p, newId, reader.tenantId);
    }
  }

  lemma {:induction false} FindWhereAppend(rows: seq<ProjectRow>, row: ProjectRow, id: string, t: string)
    requires FindWhere(rows, id, t).None? && Matches(row, id, t)
    ensures FindWhere(rows + [row], id, t) == Some(row)
  {
    if rows != [] {
      assert (rows + [row])[1..] == rows[1..] + [row];
      FindWhereAppend(rows[1..], row, id, t);
    }
  }

  // ---------------------------------------------------------------------
  // updateProject

  /** `SET name=$1, description=$2, status=$3`: a full overwrite, a
      missing property becoming NULL. */
  function Overwrite(body: ProjectBody): ProjectData -> ProjectData {
    (d: ProjectData) => ProjectData(body.name.Column(), body.description.Column(), body.status.Column())
  }

  /** `updateProject` */
  method UpdateProject(db: Database, user: Claims, projectId: string, body: ProjectBody, now: int)
    returns (r: Response<ProjectRow>)
    modifies db
    ensures db.tenants == old(db.tenants) && db.users == old(db.users) && db.auditLogs == old(db.auditLogs)
    ensures db.projects == UpdateWhere(old(db.projects), projectId, user.tenantId, Overwrite(body), now)
    ensures FindWhere(old(db.projects), projectId, user.tenantId).None? ==>
      r == Err(404, "Project not found") && db.projects == old(db.projects)
    ensures FindWhere(old(db.projects), projectId, user.tenantId).Some? ==>
      r == Ok(200, Patched(FindWhere(old(db.projects), projectId, user.tenantId).value, Overwrite(body), now))
    ensures forall t :: t != user.tenantId ==> Scoped(db.projects, t) == Scoped(old(db.projects), t)
  {
    ghost var before := db.projects;
    db.projects := UpdateWhere(db.projects, projectId, user.tenantId, Overwrite(body), now);
    UpdateWhereFind(before, projectId, user.tenantId, Overwrite(body), now);
    forall t | t != user.tenantId ensures Scoped(db.projects, t) == Scoped(before, t) {
      UpdateWhereIsolated(before, projectId, user.tenantId, Overwrite(body), now, t);
    }
    var updated := FindWhere(db.projects, projectId, user.tenantId);
    if updated.None? {
      return Err(404, "Project not found");
    }
    r := Ok(200, updated.value);
  }

  /** After an update, reading the project back gives exactly the supplied
      name, description and status; its id, tenant and creation time are
      kept. */
  lemma UpdateThenGet(projects: seq<ProjectRow>, user: Claims, projectId: string, body: ProjectBody, now: int)
    requires FindWhere(projects, projectId, user.tenantId).Some?
    ensures var r := GetProjectById(UpdateWhere(projects, projectId, user.tenantId, Overwrite(body), now), user, projectId);
      var old_ := FindWhere(projects, projectId, user.tenantId).value;
      r.Ok? && r.data.id == old_.id && r.data.tenantId == old_.tenantId && r.data.createdAt == old_.createdAt
      && r.data.updatedAt == now
      && r.data.data == ProjectData(body.name.Column(), body.description.Column(), body.status.Column())
  {
    UpdateWhereFind(projects, projectId, user.tenantId, Overwrite(body), now);
  }

  // ---------------------------------------------------------------------
  // deleteProject

  /** `deleteProject` */
  method DeleteProject(db: Database, user: Claims, projectId: string) returns (r: Response<()>)
    modifies db
    ensures db.tenants == old(db.tenants) && db.users == old(db.users) && db.auditLogs == old(db.auditLogs)
    ensures db.projects == DeleteWhere(old(db.projects), projectId, user.tenantId)
    ensures Subseq(db.projects, old(db.projects))
    ensures FindWhere(old(db.projects), projectId, user.tenantId).Some? ==> r == Done(200, "Project deleted")
    ensures FindWhere(old(db.projects), projectId, user.tenantId).None? ==>
      r == Err(404, "Project not found") && db.projects == old(db.projects)
    ensures forall t :: t != user.tenantId ==> Scoped(db.projects, t) == Scoped(old(db.projects), t)
  {
    var before := db.projects;
    db.projects := DeleteWhere(db.projects, projectId, user.tenantId);
    DeleteWhereShape(before, projectId, user.tenantId);
    forall t | t != user.tenantId ensures Scoped(db.projects, t) == Scoped(before, t) {
      DeleteWhereIsolated(before, projectId, user.tenantId, t);
    }
    var rowCount := |before| - |db.projects|;
    if rowCount == 0 {
      DeleteWhereNoMatch(before, projectId, user.tenantId);
      return Err(404, "Project not found");
    }
    r := Done(200, "Project deleted");
  }

  /** After a delete the project is gone for its tenant. */
  lemma DeleteThenGet(projects: seq<ProjectRow>, user: Claims, projectId: string)
    ensures GetProjectById(DeleteWhere(projects, projectId, user.tenantId), user, projectId) == Err(404, "Project not found")
  {
  }
}

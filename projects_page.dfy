/** The list logic of the Projects page: the save form's validation and
    request, and how the local project list is reconciled after a save or
    a delete instead of being reloaded. */
module ProjectsPage {
  import opened Values
  import opened Lists
  import opened Strings
  import opened ProjectController

  /** The properties of a listed project the page reads. */
  datatype ProjectItem = ProjectItem(
    id: string,
    name: Option<string>,
    description: Option<string>,
    status: Option<string>)

  /** The modal's `name`, `description` and `status` state. The name is
      copied from the project when editing and may be NULL there. */
  datatype ProjectForm = ProjectForm(name: Option<string>, description: string, status: Option<string>)

  /** `openCreateModal`: an empty name and description, status `"active"`. */
  function CreateForm(): (f: ProjectForm)
    ensures f.name == Some("") && f.description == "" && f.status == Some("active")
  {
    ProjectForm(Some(""), "", Some("active"))
  }

  /** `openEditModal`: the project's name and status as they are, NULL
      included; a NULL or empty description becomes `""`. */
  function EditForm(p: ProjectItem): (f: ProjectForm)
    ensures f.name == p.name && f.status == p.status
    ensures f.description == (if p.description.Some? then p.description.value else "")
  {
    ProjectForm(p.name, if p.description.Some? && p.description.value != "" then p.description.value else "", p.status)
  }

  /** A name the save button accepts: present and not only white space. */
  predicate NameGiven(form: ProjectForm) {
    form.name.Some? && !Blank(form.name.value)
  }

  datatype ProjectRequest =
    | PutProject(projectId: string, body: ProjectBody)
    | PostProject(body: ProjectBody)

  /** `Throw` is the TypeError `name.trim()` raises on a NULL name, outside
      the `try`: no alert, no request, a rejected promise. */
  datatype SaveOutcome = Throw | Alert(message: string) | Send(request: ProjectRequest)

  /** `saveProject` up to its request: a NULL name throws, a blank name is
      refused; an edit sends name, description and status, a create only
      name and description. */
  function SaveProjectRequest(form: ProjectForm, editing: Option<ProjectItem>): (r: SaveOutcome)
    ensures r.Throw? <==> form.name.None?
    ensures r.Alert? <==> form.name.Some? && Blank(form.name.value)
    ensures r.Send? <==> NameGiven(form)
    ensures r.Alert? ==> r.message == "Project name required"
    ensures r.Send? ==> (r.request.PutProject? <==> editing.Some?)
    ensures r.Send? ==> r.request.body.name == Present(form.name.value) && r.request.body.description == Present(form.description)
    ensures r.Send? && r.request.PutProject? ==>
      r.request.projectId == editing.value.id && r.request.body.status.Column() == form.status
    ensures r.Send? && r.request.PostProject? ==> r.request.body.status.Absent?
  {
    match form.name
    case None => Throw
    case Some(name) =>
      TrimEmptyIffBlank(name);
      if Trim(name) == [] then Alert("Project name required")
      else if editing.Some? then
        Send(PutProject(editing.value.id, ProjectBody(Present(name), Present(form.description), Json(form.status))))
      else
        Send(PostProject(ProjectBody(Present(name), Present(form.description), Absent)))
  }

  /** Saving the edit form of a project whose name is NULL (which
      `updateProject` writes when `name` is omitted) throws instead of
      alerting or sending. */
  lemma NullNameEditThrows(p: ProjectItem)
    requires p.name.None?
    ensures SaveProjectRequest(EditForm(p), Some(p)).Throw?
  {
  }

  /** Whatever status the form holds, a project created from the page is
      stored as active under the name typed. */
  lemma CreatedFromPageIsActive(form: ProjectForm, id: string, t: string, now: int)
    requires SaveProjectRequest(form, None).Send?
    ensures var p := NewProject(id, t, SaveProjectRequest(form, None).request.body, now);
      p.data.status == Some("active") && p.data.name == form.name && p.tenantId == t
  {
  }

  /** The local list after `saveProject`: unchanged when the save threw,
      nothing was sent or the request failed (`reply` is `None`); after an edit the entries with
      the edited id are replaced by the reply and nothing else moves; after
      a create the reply is put in front. */
  function SaveProject(projects: seq<ProjectItem>, form: ProjectForm, editing: Option<ProjectItem>, reply: Option<ProjectItem>)
    : (r: seq<ProjectItem>)
    ensures !NameGiven(form) || reply.None? ==> r == projects
    ensures NameGiven(form) && reply.Some? && editing.Some? ==>
      |r| == |projects|
      && (forall i :: 0 <= i < |projects| && projects[i].id == editing.value.id ==> r[i] == reply.value)
      && (forall i :: 0 <= i < |projects| && projects[i].id != editing.value.id ==> r[i] == projects[i])
    ensures NameGiven(form) && reply.Some? && editing.None? ==>
      |r| == |projects| + 1 && r[0] == reply.value && r[1..] == projects
      && multiset(r) == multiset(projects) + multiset{reply.value}
  {
    if !SaveProjectRequest(form, editing).Send? || reply.None? then projects
    else if editing.Some? then ReplaceWhere(projects, (p: ProjectItem) => p.id == editing.value.id, reply.value)
    else
      var r := [reply.value] + projects;
      assert r[1..] == projects;
      r
  }

  /** `prev.filter(p => p.id !== id)` after a successful delete: exactly the
      entries with that id are gone, the rest keep their order. */
  function DeleteProjectLocal(projects: seq<ProjectItem>, id: string): (r: seq<ProjectItem>)
    ensures Subseq(r, projects)
    ensures forall p :: p in r <==> p in projects && p.id != id
    ensures forall p: ProjectItem :: p.id != id ==> multiset(r)[p] == multiset(projects)[p]
  {
    FilterIsSubseq(projects, (p: ProjectItem) => p.id != id);
    Filter(projects, (p: ProjectItem) => p.id != id)
  }
}

/** The list logic of the Users page: the search and role filter applied to
    the loaded users, the validation and payload of the save form, and the
    local list update after a delete. The loaded users are the rows
    `listUsers` answers with. */
module UsersPage {
  import opened Values
  import opened Lists
  import opened Strings
  import opened Schema
  import opened UserController

  // ---------------------------------------------------------------------
  // The filter effect

  /** The lower-cased search text occurs in the lower-cased `text`. */
  predicate Mentions(text: string, search: string) {
    Includes(ToLower(text), ToLower(search))
  }

  /** The search callback as written: `u.full_name.toLowerCase()` throws a
      TypeError (here `None`) when the user's full name is NULL, whatever
      the email. */
  function SearchHitAsWritten(u: UserView, search: string): (r: Option<bool>)
    ensures r.None? <==> u.fullName.None?
    ensures r.Some? ==> (r.value <==> Mentions(u.fullName.value, search) || Mentions(u.email, search))
  {
    match u.fullName
    case None => None
    case Some(name) => Some(Mentions(name, search) || Mentions(u.email, search))
  }

  /** The search callback with a NULL full name read as empty text: a user
      is kept iff the search text occurs in its full name or its email,
      ignoring ASCII case. */
  predicate MatchesSearch(u: UserView, search: string) {
    var name := if u.fullName.Some? then u.fullName.value else "";
    Mentions(name, search) || Mentions(u.email, search)
  }

  /** `u.role === roleFilter` */
  predicate HasRole(u: UserView, roleFilter: string) {
    u.role == Some(roleFilter)
  }

  /** A user passes both the search (when there is one) and the role filter
      (unless it is `"all"`). */
  predicate Kept(u: UserView, search: string, roleFilter: string) {
    (search == "" || MatchesSearch(u, search)) && (roleFilter == "all" || HasRole(u, roleFilter))
  }

  /** The filter effect with the corrected search callback: the users kept
      by the search (when there is one) and by the role filter (unless it
      is `"all"`), in their loaded order. */
  function FilterUsers(users: seq<UserView>, search: string, roleFilter: string): (r: seq<UserView>)
    ensures Subseq(r, users)
    ensures forall u :: u in r <==>
      u in users && (search == "" || MatchesSearch(u, search)) && (roleFilter == "all" || HasRole(u, roleFilter))
    ensures forall u :: multiset(r)[u] == (if Kept(u, search, roleFilter) then multiset(users)[u] else 0)
    ensures search == "" && roleFilter == "all" ==> r == users
    ensures roleFilter != "all" ==> forall k :: 0 <= k < |r| ==> r[k].role == Some(roleFilter)
  {
    var searched := if search != "" then Filter(users, u => MatchesSearch(u, search)) else users;
    var roled := if roleFilter != "all" then Filter(searched, u => HasRole(u, roleFilter)) else searched;
    FilterUsersOrder(users, searched, roled, search, roleFilter);
    FilterUsersCount(users, searched, roled, search, roleFilter);
    if roleFilter != "all" then
      FilterUsersRole(searched, roled, roleFilter);
      roled
    else
      roled
  }

  /** The two stages of the filter effect keep the loaded order. */
  lemma FilterUsersOrder(users: seq<UserView>, searched: seq<UserView>, roled: seq<UserView>, search: string, roleFilter: string)
    requires searched == if search != "" then Filter(users, u => MatchesSearch(u, search)) else users
    requires roled == if roleFilter != "all" then Filter(searched, u => HasRole(u, roleFilter)) else searched
    ensures Subseq(roled, users)
  {
    if search != "" {
      FilterIsSubseq(users, u => MatchesSearch(u, search));
    } else {
      SubseqRefl(users);
    }
    if roleFilter != "all" {
      FilterIsSubseq(searched, u => HasRole(u, roleFilter));
    } else {
      SubseqRefl(searched);
    }
    SubseqTransitive(roled, searched, users);
  }

  /** A role filter leaves only users with that role. */
  lemma FilterUsersRole(searched: seq<UserView>, roled: seq<UserView>, roleFilter: string)
    requires roleFilter != "all"
    requires roled == Filter(searched, u => HasRole(u, roleFilter))
    ensures forall k :: 0 <= k < |roled| ==> roled[k].role == Some(roleFilter)
  {
    assert forall k :: 0 <= k < |roled| ==> roled[k] in roled;
  }

  /** The two stages of the filter effect keep exactly the users passing
      both, each as often as it was loaded. */
  lemma FilterUsersCount(users: seq<UserView>, searched: seq<UserView>, roled: seq<UserView>, search: string, roleFilter: string)
    requires searched == if search != "" then Filter(users, u => MatchesSearch(u, search)) else users
    requires roled == if roleFilter != "all" then Filter(searched, u => HasRole(u, roleFilter)) else searched
    ensures forall u :: multiset(roled)[u] == (if Kept(u, search, roleFilter) then multiset(users)[u] else 0)
    ensures forall u :: u in roled <==> u in users && Kept(u, search, roleFilter)
  {
  }

  /** The filter effect as written: it throws as soon as a search is active
      and some loaded user has a NULL full name; otherwise it keeps what
      the corrected filter keeps. */
  function FilterUsersAsWritten(users: seq<UserView>, search: string, roleFilter: string): (r: Option<seq<UserView>>)
    ensures r.None? <==> search != "" && exists k :: 0 <= k < |users| && users[k].fullName.None?
    ensures r.Some? ==> r.value == FilterUsers(users, search, roleFilter)
  {
    if search != "" && exists k :: 0 <= k < |users| && users[k].fullName.None? then None
    else
      assert search != "" ==> forall u :: u in users ==> SearchHitAsWritten(u, search) == Some(MatchesSearch(u, search));
      Some(FilterUsers(users, search, roleFilter))
  }

  /** The discrepancy: a user whose full name was cleared (which
      `updateUser` allows, writing NULL for a missing `full_name`) makes any
      search throw, though the user's email matches it. */
  lemma NullNameBreaksSearch()
    ensures var u := UserView("u1", "ann@example.com", None, Some("user"), Some(true), 0);
      MatchesSearch(u, "ann")
      && FilterUsers([u], "ann", "all") == [u]
      && FilterUsersAsWritten([u], "ann", "all").None?
  {
    var u := UserView("u1", "ann@example.com", None, Some("user"), Some(true), 0);
    assert OccursAt(ToLower(u.email), ToLower("ann"), 0);
    assert u in FilterUsers([u], "ann", "all");
    assert [u][0].fullName.None?;
  }

  /** A user without a full name appears in the listing once an update
      omits `full_name`. */
  lemma UpdateCanClearFullName(d: UserData, body: UserPatchBody)
    requires body.fullName.Absent?
    ensures Overwrite(body)(d).fullName.None?
  {
  }

  // ---------------------------------------------------------------------
  // saveUser

  /** The modal form; opening it on an existing user copies that user's
      full name, role and active flag, which may be NULL. */
  datatype UserForm = UserForm(
    email: string,
    fullName: Option<string>,
    password: string,
    role: Option<string>,
    isActive: Option<bool>)

  predicate Filled(o: Option<string>) {
    o.Some? && o.value != ""
  }

  datatype UserRequest =
    | PutUser(userId: string, patch: UserPatchBody)
    | PostUser(tenantId: string, body: NewUserBody)

  datatype SaveOutcome = Alert(message: string) | Send(request: UserRequest)

  /** `saveUser` up to the request it sends: the validation alerts, then a
      `PUT /users/:id` with three properties when editing, or a
      `POST /tenants/:tenantId/users` with all five when creating. */
  function SaveUser(form: UserForm, editing: Option<UserView>, tenantId: string): (r: SaveOutcome)
    ensures form.email == "" || !Filled(form.fullName) ==> r == Alert("Email and Full Name required")
    ensures form.email != "" && Filled(form.fullName) && editing.None? && form.password == ""
      ==> r == Alert("Password required")
    ensures r.Send? <==> form.email != "" && Filled(form.fullName) && (editing.Some? || form.password != "")
    ensures r.Send? ==> (r.request.PutUser? <==> editing.Some?)
    ensures r.Send? && r.request.PutUser? ==>
      r.request.userId == editing.value.id && r.request.patch.fullName == Present(form.fullName.value)
      && r.request.patch.role.Column() == form.role && r.request.patch.isActive.Column() == form.isActive
    ensures r.Send? && r.request.PostUser? ==>
      r.request.tenantId == tenantId && r.request.body.email == Present(form.email)
      && r.request.body.fullName == Present(form.fullName.value) && r.request.body.password == Present(form.password)
      && r.request.body.role.Column() == form.role && r.request.body.isActive.Column() == form.isActive
  {
    if form.email == "" || !Filled(form.fullName) then Alert("Email and Full Name required")
    else if editing.None? && form.password == "" then Alert("Password required")
    else if editing.Some? then
      Send(PutUser(editing.value.id, UserPatchBody(Present(form.fullName.value), Json(form.role), Json(form.isActive))))
    else
      Send(PostUser(tenantId, NewUserBody(Present(form.email), Present(form.fullName.value), Present(form.password),
        Json(form.role), Json(form.isActive))))
  }

  /** Every create the page sends passes the server's required-field
      check, so the page never sees that 400. */
  lemma SavedCreatePassesValidation(form: UserForm, tenantId: string)
    requires SaveUser(form, None, tenantId).Send?
    ensures SaveUser(form, None, tenantId).request.PostUser?
    ensures RequiredFieldsPresent(SaveUser(form, None, tenantId).request.body)
  {
  }

  /** An edit sent by the page never clears the full name, and never
      touches the email or the password. */
  lemma SavedEditKeepsName(form: UserForm, editing: UserView, tenantId: string, d: UserData)
    requires SaveUser(form, Some(editing), tenantId).Send?
    ensures var patch := SaveUser(form, Some(editing), tenantId).request.patch;
      Overwrite(patch)(d).fullName == form.fullName && form.fullName.Some?
      && Overwrite(patch)(d).email == d.email && Overwrite(patch)(d).passwordHash == d.passwordHash
  {
  }

  // ---------------------------------------------------------------------
  // deleteUser

  /** `prev.filter((u) => u.id !== id)` after a successful delete: exactly
      the entries with that id are gone, the rest keep their order. */
  function DeleteUserLocal(users: seq<UserView>, id: string): (r: seq<UserView>)
    ensures Subseq(r, users)
    ensures forall u :: u in r <==> u in users && u.id != id
    ensures forall u: UserView :: u.id != id ==> multiset(r)[u] == multiset(users)[u]
  {
    FilterIsSubseq(users, (u: UserView) => u.id != id);
    Filter(users, (u: UserView) => u.id != id)
  }
}

/** Tenant management: `getTenantDetails` and `updateTenant` on the caller's
    own tenant, and `listTenants`, which only a `super_admin` may call. */
module TenantController {
  import opened Values
  import opened Lists
  import opened Schema
  import opened Http
  import UserController

  /** `SELECT id, name, subdomain, status, subscription_plan` */
  datatype TenantDetails = TenantDetails(
    id: string,
    name: Option<string>,
    subdomain: string,
    status: Option<string>,
    subscriptionPlan: string)

  /** `SELECT id, name, subdomain, status` */
  datatype TenantSummary = TenantSummary(
    id: string,
    name: Option<string>,
    subdomain: string,
    status: Option<string>)

  /** `req.body` of `PUT /tenants/:tenantId`. */
  datatype TenantBody = TenantBody(name: Field<string>, status: Field<string>)

  function Details(t: Tenant): TenantDetails {
    TenantDetails(t.id, t.name, t.subdomain, t.status, t.subscriptionPlan)
  }

  function Summary(t: Tenant): TenantSummary {
    TenantSummary(t.id, t.name, t.subdomain, t.status)
  }

  // ---------------------------------------------------------------------
  // getTenantDetails

  /** `getTenantDetails`: the caller's own tenant, or no data when its row
      is gone (`rows[0]` is `undefined`). The route's `:tenantId`
      (`pathTenantId`) is never read. */
  function GetTenantDetails(tenants: seq<Tenant>, user: Claims, pathTenantId: string): (r: Response<Option<TenantDetails>>)
    ensures r.Ok? && r.status == 200
    ensures r.data.Some? <==> exists k :: 0 <= k < |tenants| && tenants[k].id == user.tenantId
    ensures r.data.Some? ==>
      r.data.value.id == user.tenantId && exists t :: t in tenants && t.id == user.tenantId && Details(t) == r.data.value
  {
    match FindTenant(tenants, user.tenantId)
    case None => Ok(200, None)
    case Some(t) => Ok(200, Some(Details(t)))
  }

  /** Naming another tenant in the path still answers with the caller's own
      tenant. */
  lemma GetTenantDetailsIgnoresPath(tenants: seq<Tenant>, user: Claims, path1: string, path2: string)
    ensures GetTenantDetails(tenants, user, path1) == GetTenantDetails(tenants, user, path2)
  {
  }

  // ---------------------------------------------------------------------
  // updateTenant

  /** `SET name=$1, status=$2, updated_at=NOW()` on one tenant row: any
      status is written, with no check of the transition. */
  function Renamed(t: Tenant, body: TenantBody, now: int): Tenant {
    t.(name := body.name.Column(), status := body.status.Column(), updatedAt := now)
  }

  /** `UPDATE tenants ... WHERE id=$3` */
  function UpdateTenants(tenants: seq<Tenant>, id: string, body: TenantBody, now: int): (r: seq<Tenant>)
    ensures |r| == |tenants|
    ensures forall k :: 0 <= k < |tenants| && tenants[k].id == id ==> r[k] == Renamed(tenants[k], body, now)
    ensures forall k :: 0 <= k < |tenants| && tenants[k].id != id ==> r[k] == tenants[k]
  {
    Map(tenants, (t: Tenant) => if t.id == id then Renamed(t, body, now) else t)
  }

  /** The update keeps every tenant's key, subdomain, plan and limits. */
  lemma UpdateTenantsKeepsKeys(tenants: seq<Tenant>, id: string, body: TenantBody, now: int)
    ensures forall k :: 0 <= k < |tenants| ==>
      var (a, b) := (UpdateTenants(tenants, id, body, now)[k], tenants[k]);
      a.id == b.id && a.subdomain == b.subdomain && a.subscriptionPlan == b.subscriptionPlan
      && a.maxUsers == b.maxUsers && a.maxProjects == b.maxProjects && a.createdAt == b.createdAt
  {
  }

  /** Looking the tenant up after the update finds its renamed row, and
      finds nothing when there was no row to rename. */
  lemma {:induction false} UpdateTenantsFind(tenants: seq<Tenant>, id: string, body: TenantBody, now: int)
    ensures FindTenant(UpdateTenants(tenants, id, body, now), id)
         == if FindTenant(tenants, id).Some? then Some(Renamed(FindTenant(tenants, id).value, body, now)) else None
  {
    if tenants != [] {
      UpdateTenantsFind(tenants[1..], id, body, now);
      assert UpdateTenants(tenants, id, body, now)[1..] == UpdateTenants(tenants[1..], id, body, now);
    }
  }

  /** Since `max_users` is untouched, every tenant stays within its quota. */
  lemma UpdateTenantsKeepsQuota(tenants: seq<Tenant>, users: seq<UserRow>, id: string, body: TenantBody, now: int)
    requires UserController.WithinUserQuota(tenants, users)
    ensures UserController.WithinUserQuota(UpdateTenants(tenants, id, body, now), users)
  {
    UpdateTenantsKeepsKeys(tenants, id, body, now);
  }

  /** `updateTenant`: only the caller's own tenant row changes, and only in
      its name, status and `updated_at`; the first updated row is returned. */
  method UpdateTenant(db: Database, user: Claims, body: TenantBody, now: int) returns (r: Response<Option<Tenant>>)
    modifies db
    ensures db.users == old(db.users) && db.projects == old(db.projects) && db.auditLogs == old(db.auditLogs)
    ensures db.tenants == UpdateTenants(old(db.tenants), user.tenantId, body, now)
    ensures r.Ok? && r.status == 200
    ensures r.data == if FindTenant(old(db.tenants), user.tenantId).Some?
      then Some(Renamed(FindTenant(old(db.tenants), user.tenantId).value, body, now)) else None
    ensures TenantIdsUnique(old(db.tenants)) ==> TenantIdsUnique(db.tenants)
    ensures UserController.WithinUserQuota(old(db.tenants), db.users) ==> UserController.WithinUserQuota(db.tenants, db.users)
  {
    ghost var before := db.tenants;
    db.tenants := UpdateTenants(db.tenants, user.tenantId, body, now);
    UpdateTenantsFind(before, user.tenantId, body, now);
    UpdateTenantsKeepsKeys(before, user.tenantId, body, now);
    if UserController.WithinUserQuota(before, db.users) {
      UpdateTenantsKeepsQuota(before, db.users, user.tenantId, body, now);
    }
    r := Ok(200, FindTenant(db.tenants, user.tenantId));
  }

  // ---------------------------------------------------------------------
  // listTenants

  function CreatedAtDesc(t: Tenant): int {
    -t.createdAt
  }

  /** `ORDER BY created_at DESC`: every tenant, newest first. */
  function NewestFirst(tenants: seq<Tenant>): (r: seq<Tenant>)
    ensures multiset(r) == multiset(tenants) && |r| == |tenants|
    ensures forall i, j :: 0 <= i < j < |r| ==> r[i].createdAt >= r[j].createdAt
  {
    var r := SortBy(tenants, CreatedAtDesc);
    assert forall i, j :: 0 <= i < j < |r| ==> CreatedAtDesc(r[i]) <= CreatedAtDesc(r[j]);
    assert |r| == |multiset(r)| == |multiset(tenants)| == |tenants|;
    r
  }

  /** `listTenants`: 403 for every role but `super_admin`; for it, all
      tenants, newest first, as id/name/subdomain/status. */
  function ListTenants(tenants: seq<Tenant>, user: Claims): (r: Response<seq<TenantSummary>>)
    ensures user.role != "super_admin" <==> r == Err(403, "Access denied")
    ensures user.role == "super_admin" ==>
      r.Ok? && r.status == 200 && multiset(r.data) == multiset(Map(tenants, Summary))
    ensures user.role == "super_admin" ==>
      |r.data| == |tenants| && forall i :: 0 <= i < |r.data| ==> r.data[i] == Summary(NewestFirst(tenants)[i])
  {
    if user.role != "super_admin" then Err(403, "Access denied")
    else
      var ordered := NewestFirst(tenants);
      MapPermutation(ordered, tenants, Summary);
      Ok(200, Map(ordered, Summary))
  }
}

/** The tables of the relational store as the controllers see them, and the
    shared connection (`pool`) through which every controller reads and
    writes them. Columns a request body can set to `null` are `Option`s. */
module Schema {
  import opened Values
  import opened Table

  /** A row of `tenants`. */
  datatype Tenant = Tenant(
    id: string,
    name: Option<string>,
    subdomain: string,
    status: Option<string>,
    subscriptionPlan: string,
    maxUsers: int,
    maxProjects: int,
    createdAt: int,
    updatedAt: int)

  /** The columns of `users` besides id, tenant_id and the timestamps. */
  datatype UserData = UserData(
    email: string,
    passwordHash: string,
    fullName: Option<string>,
    role: Option<string>,
    isActive: Option<bool>)

  type UserRow = Row<UserData>

  /** The columns of `projects` besides id, tenant_id and the timestamps. */
  datatype ProjectData = ProjectData(
    name: Option<string>,
    description: Option<string>,
    status: Option<string>)

  type ProjectRow = Row<ProjectData>

  /** A row of `audit_logs`. */
  datatype AuditRow = AuditRow(
    tenantId: Option<string>,
    userId: Option<string>,
    action: Option<string>,
    entityType: Option<string>,
    entityId: Option<string>,
    ipAddress: Option<string>,
    createdAt: int)

  /** `SELECT ... FROM tenants WHERE id = $1`, first row. */
  function FindTenant(tenants: seq<Tenant>, id: string): (r: Option<Tenant>)
    ensures r.Some? <==> exists k :: 0 <= k < |tenants| && tenants[k].id == id
    ensures r.Some? ==> r.value in tenants && r.value.id == id
  {
    if tenants == [] then None
    else if tenants[0].id == id then Some(tenants[0])
    else
      var r := FindTenant(tenants[1..], id);
      assert forall k :: 1 <= k < |tenants| ==> tenants[k] == tenants[1..][k - 1];
      r
  }

  /** Tenant ids are a key of `tenants`. */
  predicate TenantIdsUnique(tenants: seq<Tenant>) {
    forall i, j :: 0 <= i < j < |tenants| ==> tenants[i].id != tenants[j].id
  }

  /** With unique tenant ids, the lookup finds the one row with that id. */
  lemma {:induction false} FindTenantUnique(tenants: seq<Tenant>, k: nat)
    requires TenantIdsUnique(tenants) && k < |tenants|
    ensures FindTenant(tenants, tenants[k].id) == Some(tenants[k])
  {
    if k > 0 {
      assert tenants[0].id != tenants[k].id;
      assert tenants[k] == tenants[1..][k - 1];
      FindTenantUnique(tenants[1..], k - 1);
    }
  }

  /** The connection pool: every table the core reads or writes. */
  class Database {
    var tenants: seq<Tenant>
    var users: seq<UserRow>
    var projects: seq<ProjectRow>
    var auditLogs: seq<AuditRow>

    constructor (tenants: seq<Tenant>, users: seq<UserRow>, projects: seq<ProjectRow>)
      ensures this.tenants == tenants && this.users == users && this.projects == projects
      ensures auditLogs == []
    {
      this.tenants := tenants;
      this.users := users;
      this.projects := projects;
      auditLogs := [];
    }
  }
}

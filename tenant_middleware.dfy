/** `tenantScope`: pins the request to the caller's tenant unless the caller
    is a `super_admin`. */
module TenantMiddleware {
  import opened Values
  import opened Http

  const SuperAdmin: string := "super_admin"

  /** `tenantScope`; it runs after `authenticate`, which set `req.user`. */
  method TenantScope(req: Request) returns (o: Outcome)
    requires req.user.Some?
    modifies req`tenantId
    ensures o == Next
    ensures req.user == old(req.user)
    ensures req.user.value.role != SuperAdmin ==> req.tenantId == Some(req.user.value.tenantId)
    ensures req.user.value.role == SuperAdmin ==> req.tenantId == old(req.tenantId)
  {
    if req.user.value.role != SuperAdmin {
      req.tenantId := Some(req.user.value.tenantId);
    }
    o := Next;
  }
}

/** `logAudit`: one append to `audit_logs`, whose failure is logged and
    swallowed so that auditing never breaks the request that asked for it. */
module AuditService {
  import opened Values
  import opened Schema

  /** The argument object of `logAudit`; any property may be missing. */
  datatype AuditEvent = AuditEvent(
    tenantId: Field<string>,
    userId: Field<string>,
    action: Field<string>,
    entityType: Field<string>,
    entityId: Field<string>,
    ipAddress: Field<string>)

  /** The row the insert writes: a falsy tenant, user or IP address is
      stored as NULL; action, entity type and entity id go in as given,
      a missing one as NULL. */
  function Entry(e: AuditEvent, now: int): (a: AuditRow)
    ensures a.tenantId.Some? <==> Truthy(e.tenantId)
    ensures a.userId.Some? <==> Truthy(e.userId)
    ensures a.ipAddress.Some? <==> Truthy(e.ipAddress)
    ensures a.tenantId.Some? ==> a.tenantId.value == e.tenantId.value
    ensures a.userId.Some? ==> a.userId.value == e.userId.value
    ensures a.ipAddress.Some? ==> a.ipAddress.value == e.ipAddress.value
    ensures a.action.Some? <==> e.action.Present?
    ensures a.entityType.Some? <==> e.entityType.Present?
    ensures a.entityId.Some? <==> e.entityId.Present?
    ensures a.action.Some? ==> a.action.value == e.action.value
    ensures a.entityType.Some? ==> a.entityType.value == e.entityType.value
    ensures a.entityId.Some? ==> a.entityId.value == e.entityId.value
    ensures a.createdAt == now
  {
    AuditRow(OrNull(e.tenantId), OrNull(e.userId), e.action.Column(), e.entityType.Column(),
      e.entityId.Column(), OrNull(e.ipAddress), now)
  }

  /** `logAudit`. Whether the store accepts the insert is outside the
      model (`storeFails`); either way the call returns normally. */
  method LogAudit(db: Database, e: AuditEvent, now: int, storeFails: bool)
    modifies db`auditLogs
    ensures !storeFails ==> db.auditLogs == old(db.auditLogs) + [Entry(e, now)]
    ensures storeFails ==> db.auditLogs == old(db.auditLogs)
    ensures old(db.auditLogs) <= db.auditLogs && |db.auditLogs| <= |old(db.auditLogs)| + 1
  {
    if !storeFails {
      db.auditLogs := db.auditLogs + [Entry(e, now)];
    }
  }
}

# Tenant-partitioned record store

This project is a Dafny model of the core of a multi-tenant project and task manager. The backend keeps `tenants`, `users`, `projects` and `audit_logs` in one relational store. Every controller statement except the super_admin listing of all tenants keys its SQL by the tenant id carried in the caller's token. The model covers:

- the users, projects and tenants controllers;
- the `authenticate` and `tenantScope` middleware;
- the `logAudit` service;
- the list logic of the Users, Projects and project details pages.

Modules and what they hold:

- **Data.** `Values` models JSON body properties as `Field<T>` (missing, `null` or a value) and nullable columns as `Option<T>`. `Strings` models the JavaScript string operations the core uses. `Lists` models `filter`, `map`, a stable sort for `ORDER BY`, and the subsequence relation.
- **Storage.** `Table` is a generic tenant-owned table of `Row<D>`. It covers the four statement shapes the controllers run: scoped read, keyed lookup, keyed update and keyed delete. `Schema` holds the row types and the `Database` class, whose table fields the controller methods reassign.
- **Server operations.** `UserController`, `ProjectController`, `TenantController`, `AuthMiddleware`, `TenantMiddleware` and `AuditService` follow the server files one to one.
- **Pages.** `UsersPage`, `ProjectsPage` and `ProjectDetailsPage` follow the three pages.

Several things are parameters of the operations rather than parts of the model:

- the fresh UUIDs;
- `NOW()`;
- `bcrypt.hash`;
- `jwt.verify`;
- whether the audit insert fails;
- the server's replies to the pages.

**Tenant isolation.** Every statement a controller runs with principal tenant `T` leaves all other tenants' rows as they were. Apart from `listTenants`, which a super_admin uses to read every tenant row unkeyed, what a statement reads, returns or changes is a function of tenant `T`'s rows alone. A row of another tenant therefore answers exactly like a missing row, with the same 404.

**What the code does not do.** Three behaviours one might expect of such a system are absent from the code, and the model follows the code:

- No per-tenant project quota is checked: `createProject` inserts whatever the count of projects.
- No controller calls `logAudit`, so mutations leave no audit entry.
- `updateTenant` is not partial: it overwrites `name` and `status`, and a missing property becomes NULL.

## Model

| member | source | states |
|---|---|---|
| Strings.Includes | frontend/src/pages/Users.jsx:63-64 | `includes` holds iff the substring occurs at some index |
| Strings.ToLower | frontend/src/pages/Users.jsx:63-64 | `toLowerCase` keeps the length, leaves no ASCII capital, and keeps every other character |
| Strings.Split | backend/src/middleware/auth.middleware.js:11 | `split(" ")` yields at least one piece, and no piece contains the separator |
| Strings.Trim | frontend/src/pages/Projects.jsx:38 | `trim` yields the middle slice, framed only by white space, which itself neither starts nor ends with white space |
| Strings.TrimEmptyIffBlank | frontend/src/pages/ProjectDetails.jsx:35 | `!s.trim()` holds exactly when `s` is empty or all white space |
| Lists.Filter | frontend/src/pages/Users.jsx:61-69 | `filter` keeps each kept value with its full multiplicity and drops all others |
| Lists.FilterIsSubseq | frontend/src/pages/Users.jsx:57-72 | a filtered list is an order-preserving subsequence of its source |
| Lists.SortBy | backend/src/controllers/user.controller.js:81 | `ORDER BY` yields a sorted permutation of the selected rows |
| Lists.ReplaceWhere | frontend/src/pages/Projects.jsx:51-55 | `map(x => hit ? y : x)` keeps the length, puts `y` at every hit and leaves every other entry in place |
| Table.Scoped | backend/src/controllers/user.controller.js:78-80 | `WHERE tenant_id=$1` returns exactly the tenant's rows, each with its multiplicity |
| Table.FindWhere | backend/src/controllers/project.controller.js:152-153 | the keyed lookup finds a row iff one matches both id and tenant, and what it finds matches |
| Table.UpdateWhere | backend/src/controllers/project.controller.js:79-87 | the keyed UPDATE patches exactly the rows matching id and tenant; no row is added, removed or otherwise changed |
| Table.DeleteWhere | backend/src/controllers/project.controller.js:119-125 | the keyed DELETE removes exactly the matching rows |
| Table.DeleteWhereShape | backend/src/controllers/project.controller.js:119-132 | the DELETE keeps the order of the survivors, and its `rowCount` is positive iff some row matched |
| Table.ScopedAppend | backend/src/controllers/project.controller.js:45-52 | an INSERT for one tenant leaves every other tenant's rows unchanged |
| Table.UpdateWhereIsolated | backend/src/controllers/user.controller.js:97-105 | an UPDATE keyed by tenant T leaves every other tenant's rows unchanged |
| Table.DeleteWhereIsolated | backend/src/controllers/user.controller.js:132-135 | a DELETE keyed by tenant T leaves every other tenant's rows unchanged |
| Table.FindWhereLocal | backend/src/controllers/project.controller.js:152-162 | the keyed lookup under T sees only T's rows |
| Table.UpdateWhereLocal | backend/src/controllers/project.controller.js:79-87 | the UPDATE of T's rows depends on T's rows only |
| Table.DeleteWhereLocal | backend/src/controllers/project.controller.js:119-125 | the DELETE of T's rows depends on T's rows only |
| Table.MatchedLocal | backend/src/controllers/project.controller.js:89-94 | whether a keyed statement matches (`rowCount`) is decided by T's rows alone |
| Table.UpdateWhereFind | backend/src/controllers/project.controller.js:84-99 | `RETURNING` yields the patched first match; with no match the table is unchanged |
| Table.DeleteWhereNoMatch | backend/src/controllers/project.controller.js:127-132 | a DELETE that matches nothing leaves the table as it was |
| Schema.FindTenant | backend/src/controllers/user.controller.js:20-23 | the tenant lookup finds a row iff one has that id |
| Schema.FindTenantUnique | backend/src/controllers/tenant.controller.js:6-9 | with unique ids, the lookup returns the one row with that id |
| UserController.AdmitUser | backend/src/controllers/user.controller.js:12-48 | the checks run in order: 400, then 500 without a tenant row, then 403 when the count reaches `max_users`, then 409; a user is admitted iff all pass |
| UserController.NewUser | backend/src/controllers/user.controller.js:52-61 | the inserted row has the token's tenant, the hash and the given fields; `is_active` is true when the property is missing |
| UserController.AdmitUserLocal | backend/src/controllers/user.controller.js:20-48 | the verdict depends only on the caller's tenant's users |
| UserController.EmailTakenLocal | backend/src/controllers/user.controller.js:38-41 | the email lookup sees only the caller's tenant |
| UserController.ForeignEmailDoesNotBlock | backend/src/controllers/user.controller.js:38-48 | the same email in another tenant does not change the verdict |
| UserController.AdmittedKeepsEmailsUnique | backend/src/controllers/user.controller.js:43-61 | an admitted insert keeps emails unique within each tenant |
| UserController.AdmittedKeepsQuota | backend/src/controllers/user.controller.js:30-61 | an admitted insert keeps every tenant within `max_users` |
| UserController.AddUser | backend/src/controllers/user.controller.js:7-68 | a rejection answers with its status and inserts nothing; otherwise exactly one row is appended and answered without its hash; other tenants are untouched, and uniqueness and quota are preserved |
| UserController.ListUsers | backend/src/controllers/user.controller.js:73-87 | the answer holds exactly the token tenant's users, oldest first and without hashes; the path parameter plays no part |
| UserController.ListUsersLocal | backend/src/controllers/user.controller.js:74-86 | the listing depends only on the caller's tenant's rows |
| UserController.UpdateKeepsIdentity | backend/src/controllers/user.controller.js:97-104 | an update never changes id, tenant, creation time, email or password hash |
| UserController.UpdateKeepsEmailsUnique | backend/src/controllers/user.controller.js:97-105 | an update keeps emails unique within each tenant |
| UserController.UpdateUser | backend/src/controllers/user.controller.js:92-115 | overwrites full name, role and active flag on the row matching id and tenant, answering with it; no match gives 404 and no change; other tenants are untouched |
| UserController.DeleteKeepsEmailsUnique | backend/src/controllers/user.controller.js:132-135 | a delete keeps emails unique within each tenant |
| UserController.DeleteKeepsQuota | backend/src/controllers/user.controller.js:132-135 | a delete keeps every tenant within `max_users` |
| UserController.DeleteUser | backend/src/controllers/user.controller.js:120-145 | deleting one's own id gives 403 before any change; otherwise only rows matching id and tenant go, and no match gives 404 and no change |
| ProjectController.ListProjects | backend/src/controllers/project.controller.js:7-34 | the answer holds exactly the caller's tenant's projects, newest first |
| ProjectController.ListProjectsLocal | backend/src/controllers/project.controller.js:11-19 | the listing depends only on the caller's tenant's rows |
| ProjectController.GetProjectById | backend/src/controllers/project.controller.js:147-175 | answers 200 with the row iff the caller's tenant has a project with that id, and 404 otherwise |
| ProjectController.GetProjectLocal | backend/src/controllers/project.controller.js:152-162 | the answer depends only on the caller's tenant's rows |
| ProjectController.ForeignProjectIsNotFound | backend/src/controllers/project.controller.js:157-162 | another tenant's project with that id answers like a missing one |
| ProjectController.NewProject | backend/src/controllers/project.controller.js:45-52 | the inserted row has the caller's tenant, status `'active'` whatever the body says, and the body's name and description |
| ProjectController.CreateProject | backend/src/controllers/project.controller.js:40-68 | exactly one row is appended and answered with 201; no quota is checked; other tenants are untouched |
| ProjectController.CreateThenGet | backend/src/controllers/project.controller.js:45-58 | a project created under a fresh id reads back for its tenant and is 404 for every other tenant |
| ProjectController.UpdateProject | backend/src/controllers/project.controller.js:73-109 | fully overwrites name, description and status on the row matching id and tenant; no match gives 404 and no change |
| ProjectController.UpdateThenGet | backend/src/controllers/project.controller.js:79-101 | after an update the row reads back with exactly the supplied values, and with the same id, tenant and creation time |
| ProjectController.DeleteProject | backend/src/controllers/project.controller.js:114-145 | removes only the rows matching id and tenant, keeping the order of the rest; no match gives 404 and no change |
| ProjectController.DeleteThenGet | backend/src/controllers/project.controller.js:119-162 | after a delete the project is 404 for its tenant |
| TenantController.GetTenantDetails | backend/src/controllers/tenant.controller.js:3-12 | answers with the token tenant's details, or with no data when that row is missing |
| TenantController.GetTenantDetailsIgnoresPath | backend/src/controllers/tenant.controller.js:3-12 | the answer is the same whatever tenant id the path names |
| TenantController.UpdateTenants | backend/src/controllers/tenant.controller.js:18-26 | the UPDATE renames exactly the rows with the caller's id; any status is written |
| TenantController.UpdateTenantsKeepsKeys | backend/src/controllers/tenant.controller.js:20-22 | id, subdomain, plan, limits and creation time never change |
| TenantController.UpdateTenantsFind | backend/src/controllers/tenant.controller.js:18-28 | `RETURNING` yields the renamed row, or nothing when there was no row |
| TenantController.UpdateTenantsKeepsQuota | backend/src/controllers/tenant.controller.js:20-22 | every tenant stays within its user quota |
| TenantController.UpdateTenant | backend/src/controllers/tenant.controller.js:14-29 | only the caller's own row changes, only in name, status and `updated_at`; other tables are untouched |
| TenantController.NewestFirst | backend/src/controllers/tenant.controller.js:41 | `ORDER BY created_at DESC` yields a permutation, newest first |
| TenantController.ListTenants | backend/src/controllers/tenant.controller.js:30-45 | 403 iff the role is not `super_admin`; otherwise every tenant, newest first, as id, name, subdomain and status |
| AuthMiddleware.BearerToken | backend/src/middleware/auth.middleware.js:11 | the token is the space-free text after `"Bearer "`, up to the next space or the end |
| AuthMiddleware.BearerRoundTrip | backend/src/middleware/auth.middleware.js:11 | `"Bearer " + token` gives `token` back |
| AuthMiddleware.Authenticate | backend/src/middleware/auth.middleware.js:3-17 | no usable header gives 401 "Token missing"; failed verification gives 401 "Invalid token" with `req.user` unchanged; otherwise `req.user` is the payload and `next` follows |
| TenantMiddleware.TenantScope | backend/src/middleware/tenant.middleware.js:1-6 | always `next`; pins `req.tenantId` to the token's tenant unless the role is `super_admin`; `req.user` never changes |
| AuditService.Entry | backend/src/services/audit.service.js:12-26 | falsy tenant, user and address are stored as NULL; action, entity type and entity id are stored as given |
| AuditService.LogAudit | backend/src/services/audit.service.js:3-31 | on success exactly one row is appended; a failure leaves the log unchanged and does not reach the caller; the log is append-only |
| UsersPage.SearchHitAsWritten | frontend/src/pages/Users.jsx:60-66 | the search callback throws iff the full name is NULL, and otherwise keeps a user whose name or email mentions the search |
| UsersPage.FilterUsers | frontend/src/pages/Users.jsx:57-73 | an order-preserving subsequence in which every user matching search and role keeps its multiplicity and every other user is absent; with no search and role "all" it is the whole list |
| UsersPage.FilterUsersAsWritten | frontend/src/pages/Users.jsx:57-73 | throws iff a search is active and some user has a NULL full name; otherwise agrees with `FilterUsers` |
| UsersPage.NullNameBreaksSearch | frontend/src/pages/Users.jsx:60-66 | a user whose email matches, but whose full name is NULL, makes the search throw |
| UsersPage.SaveUser | frontend/src/pages/Users.jsx:113-141 | sends nothing when email or full name is empty, or when the password is empty on create; an edit sends only full name, role and active flag, a create all five |
| UsersPage.SavedCreatePassesValidation | frontend/src/pages/Users.jsx:117-140 | every create the page sends passes the server's required-field check |
| UsersPage.DeleteUserLocal | frontend/src/pages/Users.jsx:158 | exactly the entries with that id go, and the rest keep their order |
| ProjectsPage.CreateForm | frontend/src/pages/Projects.jsx:70-76 | the create form starts with an empty name and description and status "active" |
| ProjectsPage.EditForm | frontend/src/pages/Projects.jsx:78-84 | the edit form copies name and status as they are, NULL included, and a missing description as empty text |
| ProjectsPage.SaveProjectRequest | frontend/src/pages/Projects.jsx:37-57 | a NULL name throws before any alert or request; a blank name alerts and sends nothing; an edit sends name, description and status, a create only name and description |
| ProjectsPage.CreatedFromPageIsActive | frontend/src/pages/Projects.jsx:57 | a project created from the page is stored as active under the typed name and the caller's tenant |
| ProjectsPage.NullNameEditThrows | frontend/src/pages/Projects.jsx:38-41 | saving the edit form of a project whose name is NULL throws |
| ProjectsPage.SaveProject | frontend/src/pages/Projects.jsx:37-65 | an edit replaces exactly the entries with that id; a create prepends the reply; a throw, an alert or a failed request changes nothing |
| ProjectsPage.DeleteProjectLocal | frontend/src/pages/Projects.jsx:97 | exactly the entries with that id go, and the rest keep their order |
| ProjectDetailsPage.CreateTaskRequest | frontend/src/pages/ProjectDetails.jsx:35-41 | a blank title sends nothing |
| ProjectDetailsPage.CreateTask | frontend/src/pages/ProjectDetails.jsx:34-49 | a created task is prepended and the form reset to `""` and `"medium"`; otherwise nothing changes |
| ProjectDetailsPage.UpdateStatus | frontend/src/pages/ProjectDetails.jsx:52-62 | replaces only the entries with that id and keeps the length |
| ProjectDetailsPage.DeleteTask | frontend/src/pages/ProjectDetails.jsx:65-74 | exactly the entries with that id go, and the rest keep their order |
| ProjectDetailsPage.UpdateThenDelete | frontend/src/pages/ProjectDetails.jsx:56-70 | a status update followed by a delete of the same id equals the delete alone |

## Left out

- Store failures and the `catch` blocks that turn them into 500 answers are not modelled. The one exception is the missing tenant row in `addUser`, which the model does cover. `listUsers`, `updateUser`, `deleteUser` and the tenant handlers have no `catch`, so a store failure there rejects the handler's promise.
- Concurrency is not modelled. Requests run one at a time, so the race between the user count and the insert in `addUser` does not arise in the model.
- Route wiring is not modelled: the route files and the `authorizeRoles` guard. The role middleware is not part of this model. The controllers are modelled as callable by any authenticated caller.
- The login, registration and current-user handlers are placeholders and are not modelled. The same goes for the handlers of the `tasks` routes, which do not exist, and for the `tasks` table. The project details page is modelled on the replies it is given.
- Page rendering, modal state, navigation, `window.confirm` and reloading after a save are not modelled. The delete functions describe the list after a confirmed, successful delete; otherwise the list is unchanged.
- Strings.ToLower: maps only the ASCII letters. JavaScript's `toLowerCase` also maps other Unicode letters.
- Lists.SortBy: the stable sort is one of the orders SQL allows when `created_at` ties. The database may return tied rows in any order.
- UserController.AddUser: `bcrypt.hash` is a function parameter. The random salt, which makes each hash differ, is not modelled.
- AuthMiddleware.Authenticate: `jwt.verify` is a function parameter that yields a payload or fails. Expiry, signature checks and a missing `JWT_SECRET` are all inside it. A synchronous throw from `next()` that lands in the same `catch` is not modelled.
- TenantMiddleware.TenantScope: requires `req.user`, which `authenticate` sets. Without it the source throws a TypeError.
- Column constraints are not modelled (NOT NULL, types, defaults, unique indexes). The migration files are not part of this model. Nullable columns are modelled as `Option`.
- `max_users` is modelled as an integer. A NULL limit, which JavaScript compares as 0, is not modelled.
- AuditService.LogAudit: the module loading (a CommonJS `require` inside an ES-module backend) is not modelled.

## Findings

| source | as written | input that shows it | evidently intended | confidence | as-written member | corrected member |
|---|---|---|---|---|---|---|
| frontend/src/pages/Users.jsx:60-66 | the search callback calls `u.full_name.toLowerCase()` on every loaded user while a search is active | a loaded user whose `full_name` is NULL, which `updateUser` writes when `full_name` is left out, and the search text `"ann"` against email `ann@example.com`; the filter throws instead of keeping that user | a NULL full name is read as empty text, so the user is still found by email | medium, not executed | UsersPage.FilterUsersAsWritten | UsersPage.FilterUsers |

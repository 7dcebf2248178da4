// Roles and permissions: the two tables, the permission check, and what each
// role-changing operation does to them.
module Roles {
  import opened Wrappers

  // A UUID; NIL is uuid.Nil, which as a course stands for the global scope.
  type Id = nat

  const NIL: Id := 0

  // user_roles, unique by (user, course), and course_admin_permissions.
  datatype Store = Store(roles: map<(Id, Id), Id>, perms: set<(Id, string)>)

  // Panicked is the nil dereference of a private course without an invite code.
  datatype Error = BadRequest | Forbidden | NotFound | Conflict | Internal | Panicked

  datatype Course = Course(id: Id, hidden: bool, finished: bool, isPublic: bool, inviteCode: Option<string>)

  // One request: who acts, and on what. `refused` is the outcome of validating the
  // course, looking for its slug and inserting it, as far as that fails.
  datatype Action =
    | JoinCourse(actor: Id, course: Course, code: string)
    | CreateCourse(actor: Id, courseId: Id, refused: Option<Error>)
    | AssignCourseAdmin(actor: Id, user: Id, courseId: Id)
    | RevokeCourseAdmin(actor: Id, user: Id, courseId: Id)
    | RemoveParticipant(actor: Id, user: Id, courseId: Id)
    | AddPermission(actor: Id, courseId: Id, roleId: Id, permission: string)
    | RemovePermission(actor: Id, courseId: Id, roleId: Id, permission: string)
    | CreateSuperAdmin(actor: Id, user: Id)

  const COURSE_READ := "course.read"
  const IS_SUPER_ADMIN := "is_super_admin"
  const SUPER_ADMIN_CREATE := "super_admin.create"
  const COURSE_CREATE := "course.create"
  const ROLE_ASSIGN := "course.roles.assign"
  const ROLE_REVOKE := "course.roles.revoke"
  const PERMISSION_ADD := "course.permissions.add"
  const PERMISSION_REMOVE := "course.permissions.remove"

  const STUDENT_PERMISSIONS: set<string> :=
    {"homework.read", "deadline.read", "task.read", "task.submit", "leaderboard.read", COURSE_READ}

  const ADMIN_PERMISSIONS: set<string> :=
    {"homework.create", "homework.update", "homework.delete", "homework.publish",
     "deadline.create", "deadline.update", "deadline.delete",
     "task.create", "task.update", "task.publish", "task.delete", "task.score.update",
     "scores.export", COURSE_READ, "course.hidden.read", "course.update", "stats.read"}

  const SUPER_ADMIN_PERMISSIONS: set<string> := {IS_SUPER_ADMIN, COURSE_CREATE, SUPER_ADMIN_CREATE, "stats.read"}

  predicate HasPermission(s: Store, role: Id, permission: string) {
    role != NIL && permission != "" && (role, permission) in s.perms
  }

  // The user's own role in the scope, or global super admin for a course.
  predicate HasScoped(s: Store, user: Id, course: Id, permission: string) {
    && user != NIL && permission != ""
    && (|| ((user, course) in s.roles && HasPermission(s, s.roles[(user, course)], permission))
        || (course != NIL && (user, NIL) in s.roles && HasPermission(s, s.roles[(user, NIL)], IS_SUPER_ADMIN)))
  }

  function Granted(role: Id, permissions: set<string>): set<(Id, string)> {
    set p | p in permissions :: (role, p)
  }

  predicate RoleInCourse(s: Store, role: Id, course: Id) {
    exists k :: k in s.roles && s.roles[k] == role && k.1 == course
  }

  // EnsureUserRoleWithPermissions: add to the role there is, or insert a new one.
  function Ensured(s: Store, user: Id, course: Id, permissions: set<string>, drawn: Id): (Store, Option<Error>) {
    if user == NIL then (s, Some(BadRequest))
    else if (user, course) in s.roles then (s.(perms := s.perms + Granted(s.roles[(user, course)], permissions)), None)
    else if drawn in s.roles.Values then (s, Some(Internal))
    else (Store(s.roles[(user, course) := drawn], s.perms + Granted(drawn, permissions)), None)
  }

  // `drawn` is the UUID drawn for a new role.
  function Step(s: Store, users: set<Id>, a: Action, drawn: Id): (Store, Option<Error>) {
    match a
    case JoinCourse(actor, course, code) =>
      if course.hidden then (s, Some(NotFound))
      else if course.finished then (s, Some(Forbidden))
      else if HasScoped(s, actor, course.id, COURSE_READ) then (s, Some(Conflict))
      else if !course.isPublic && course.inviteCode.None? then (s, Some(Panicked))
      else if !course.isPublic && course.inviteCode.value != code then (s, Some(Forbidden))
      else
        var (r, e) := Ensured(s, actor, course.id, STUDENT_PERMISSIONS, drawn);
        (r, if e.Some? then Some(Internal) else None)
    case CreateCourse(actor, courseId, refused) =>
      if !HasScoped(s, actor, NIL, COURSE_CREATE) then (s, Some(Forbidden))
      else if refused.Some? then (s, refused)
      else
        var (r, e) := Ensured(s, actor, courseId, ADMIN_PERMISSIONS, drawn);
        (r, if e.Some? then Some(Internal) else None)
    case AssignCourseAdmin(actor, user, courseId) =>
      if user == NIL || courseId == NIL then (s, Some(BadRequest))
      else if !HasScoped(s, actor, courseId, ROLE_ASSIGN) then (s, Some(Forbidden))
      else if user !in users || (user, courseId) !in s.roles then (s, Some(NotFound))
      else if s.roles[(user, courseId)] == NIL then (s, Some(BadRequest))
      else (s.(perms := s.perms + Granted(s.roles[(user, courseId)], ADMIN_PERMISSIONS)), None)
    case RevokeCourseAdmin(actor, user, courseId) =>
      if user == NIL || courseId == NIL then (s, Some(BadRequest))
      else if !HasScoped(s, actor, courseId, ROLE_REVOKE) then (s, Some(Forbidden))
      else if (user, courseId) !in s.roles then (s, Some(NotFound))
      else if s.roles[(user, courseId)] == NIL then (s, Some(BadRequest))
      else (s.(perms := s.perms - Granted(s.roles[(user, courseId)], ADMIN_PERMISSIONS)), None)
    case RemoveParticipant(actor, user, courseId) =>
      if user == NIL || courseId == NIL then (s, Some(BadRequest))
      else if !HasScoped(s, actor, courseId, ROLE_REVOKE) then (s, Some(Forbidden))
      else if (user, courseId) !in s.roles then (s, Some(NotFound))
      else
        var role := s.roles[(user, courseId)];
        (Store(s.roles - {(user, courseId)}, set rp | rp in s.perms && rp.0 != role), None)
    case AddPermission(actor, courseId, roleId, permission) =>
      if courseId == NIL || roleId == NIL || permission == "" then (s, Some(BadRequest))
      else if !HasScoped(s, actor, courseId, PERMISSION_ADD) then (s, Some(Forbidden))
      else if !RoleInCourse(s, roleId, courseId) then (s, Some(NotFound))
      else (s.(perms := s.perms + {(roleId, permission)}), None)
    case RemovePermission(actor, courseId, roleId, permission) =>
      if courseId == NIL || roleId == NIL || permission == "" then (s, Some(BadRequest))
      else if !HasScoped(s, actor, courseId, PERMISSION_REMOVE) then (s, Some(Forbidden))
      else if !RoleInCourse(s, roleId, courseId) then (s, Some(NotFound))
      else (s.(perms := s.perms - {(roleId, permission)}), None)
    case CreateSuperAdmin(actor, user) =>
      if !HasScoped(s, actor, NIL, SUPER_ADMIN_CREATE) then (s, Some(Forbidden))
      else if user == NIL then (s, Some(BadRequest))
      else if user !in users then (s, Some(NotFound))
      else Ensured(s, user, NIL, SUPER_ADMIN_PERMISSIONS, drawn)
  }

  // The course an action is about; courses have non-nil identifiers in the database.
  function ScopeOf(a: Action): Id {
    match a
    case JoinCourse(_, course, _) => course.id
    case CreateSuperAdmin(_, _) => NIL
    case _ => a.courseId
  }

  predicate Wellformed(a: Action) {
    (a.JoinCourse? || a.CreateCourse?) ==> ScopeOf(a) != NIL
  }

  // No role is shared, no role is nil, and every permission belongs to a live role.
  ghost predicate StoreInv(s: Store) {
    && (forall k, l :: k in s.roles && l in s.roles && s.roles[k] == s.roles[l] ==> k == l)
    && (forall k :: k in s.roles ==> s.roles[k] != NIL)
    && (forall rp :: rp in s.perms ==> exists k :: k in s.roles && s.roles[k] == rp.0)
  }
}

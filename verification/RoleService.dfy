// The role tables updated in place by the repository, and the guarded service
// operations on top of them.
module RoleService {
  import opened Wrappers
  import opened Roles
  import opened RoleLaws
  import opened RoleEffects

  class RoleRepository {
    var roles: map<(Id, Id), Id>
    var perms: set<(Id, string)>

    constructor ()
      ensures Contents() == Store(map[], {})
    {
      roles, perms := map[], {};
    }

    function Contents(): Store
      reads this
    {
      Store(roles, perms)
    }

    method GetRoleId(user: Id, course: Id) returns (role: Option<Id>)
      ensures role == Lookup(roles, (user, course))
    {
      role := if (user, course) in roles then Some(roles[(user, course)]) else None;
    }

    method RoleBelongsToCourse(role: Id, course: Id) returns (ok: bool)
      ensures ok == RoleInCourse(Contents(), role, course)
    {
      ok := exists k :: k in roles && roles[k] == role && k.1 == course;
    }

    // Upsert on (user, course), then insert the permissions, in one transaction;
    // the unique index on role_id rejects a role that another row has.
    method AssignRoleWithPermissions(user: Id, course: Id, role: Id, permissions: set<string>) returns (ok: bool)
      modifies this
      ensures ok <==> forall k :: k in old(roles) && k != (user, course) ==> old(roles)[k] != role
      ensures Contents() == if ok then Store(old(roles)[(user, course) := role], old(perms) + Granted(role, permissions))
                            else old(Contents())
    {
      if exists k :: k in roles && k != (user, course) && roles[k] == role {
        return false;
      }
      roles := roles[(user, course) := role];
      AddPermissions(role, permissions);
      ok := true;
    }

    // One row per permission; a row that is already there stays.
    method AddPermissions(role: Id, permissions: set<string>)
      modifies this`perms
      ensures perms == old(perms) + Granted(role, permissions)
    {
      var todo := permissions;
      while todo != {}
        invariant todo <= permissions
        invariant perms == old(perms) + Granted(role, permissions - todo)
        decreases todo
      {
        var p :| p in todo;
        perms := perms + {(role, p)};
        todo := todo - {p};
      }
      assert permissions - todo == permissions;
    }

    method RemovePermissions(role: Id, permissions: set<string>)
      modifies this`perms
      ensures perms == old(perms) - Granted(role, permissions)
    {
      perms := set rp | rp in perms && !(rp.0 == role && rp.1 in permissions);
    }

    // All permissions of the role, then the row of this user, course and role.
    method RevokeRoleWithPermissions(user: Id, course: Id, role: Id)
      modifies this
      ensures perms == set rp | rp in old(perms) && rp.0 != role
      ensures roles == if Lookup(old(roles), (user, course)) == Some(role) then old(roles) - {(user, course)} else old(roles)
    {
      perms := set rp | rp in perms && rp.0 != role;
      if (user, course) in roles && roles[(user, course)] == role {
        roles := roles - {(user, course)};
      }
    }
  }

  // CourseService and AdminRoleService over one repository; `users` are the registered
  // users. Every handler keeps the invariant of the store, and one that refuses
  // leaves the store as it was.
  class Service {
    const repo: RoleRepository
    const users: set<Id>

    ghost predicate Valid()
      reads repo
    {
      StoreInv(repo.Contents())
    }

    constructor (repo: RoleRepository, users: set<Id>)
      requires StoreInv(repo.Contents())
      ensures Valid() && this.repo == repo && this.users == users
    {
      this.repo, this.users := repo, users;
    }

    // Own role first, then the global role's super admin permission.
    method HasScopedPermission(user: Id, course: Id, permission: string) returns (allowed: bool)
      ensures allowed == HasScoped(repo.Contents(), user, course, permission)
    {
      if user == NIL || permission == "" {
        return false;
      }
      var role := repo.GetRoleId(user, course);
      if role.Some? && HasPermission(repo.Contents(), role.value, permission) {
        return true;
      }
      if course == NIL {
        return false;
      }
      var globalRole := repo.GetRoleId(user, NIL);
      return globalRole.Some? && HasPermission(repo.Contents(), globalRole.value, IS_SUPER_ADMIN);
    }

    method EnsureUserRole(user: Id, course: Id, permissions: set<string>, drawn: Id) returns (e: Option<Error>)
      modifies repo
      ensures (repo.Contents(), e) == Ensured(old(repo.Contents()), user, course, permissions, drawn)
    {
      if user == NIL {
        return Some(BadRequest);
      }
      var role := repo.GetRoleId(user, course);
      if role.Some? {
        repo.AddPermissions(role.value, permissions);
        return None;
      }
      var ok := repo.AssignRoleWithPermissions(user, course, drawn, permissions);
      return if ok then None else Some(Internal);
    }

    // The actor can do what a student can and what was allowed before, and no more.
    method JoinCourse(actor: Id, course: Course, code: string, drawn: Id) returns (e: Option<Error>)
      requires Valid() && drawn != NIL
      modifies repo
      ensures (repo.Contents(), e) == Step(old(repo.Contents()), users, Action.JoinCourse(actor, course, code), drawn)
      ensures Handled(old(repo.Contents()), repo.Contents(), Action.JoinCourse(actor, course, code), e)
      ensures e.None? ==> Allowed(old(repo.Contents()), users, Action.JoinCourse(actor, course, code))
      ensures e.None? ==> Gains(old(repo.Contents()), repo.Contents(), actor, course.id, STUDENT_PERMISSIONS)
    {
      ghost var s, a := repo.Contents(), Action.JoinCourse(actor, course, code);
      e := Join(actor, course, code, drawn);
      StepHandled(s, users, a, drawn);
      if e.None? {
        SucceedsIff(s, users, a, drawn);
        JoinGains(s, users, actor, course, code, drawn);
      }
    }

    method Join(actor: Id, course: Course, code: string, drawn: Id) returns (e: Option<Error>)
      modifies repo
      ensures (repo.Contents(), e) == Step(old(repo.Contents()), users, Action.JoinCourse(actor, course, code), drawn)
    {
      if course.hidden {
        return Some(NotFound);
      }
      if course.finished {
        return Some(Forbidden);
      }
      var already := HasScopedPermission(actor, course.id, COURSE_READ);
      if already {
        return Some(Conflict);
      }
      if !course.isPublic {
        if course.inviteCode.None? {
          return Some(Panicked);
        }
        if course.inviteCode.value != code {
          return Some(Forbidden);
        }
      }
      e := EnsureUserRole(actor, course.id, STUDENT_PERMISSIONS, drawn);
      e := if e.Some? then Some(Internal) else None;
    }

    // The creator, who held the global permission, can do what a course admin can.
    method CreateCourse(actor: Id, courseId: Id, refused: Option<Error>, drawn: Id) returns (e: Option<Error>)
      requires Valid() && drawn != NIL
      modifies repo
      ensures (repo.Contents(), e) == Step(old(repo.Contents()), users, Action.CreateCourse(actor, courseId, refused), drawn)
      ensures Handled(old(repo.Contents()), repo.Contents(), Action.CreateCourse(actor, courseId, refused), e)
      ensures e.None? ==> Allowed(old(repo.Contents()), users, Action.CreateCourse(actor, courseId, refused))
      ensures e.None? ==> Gains(old(repo.Contents()), repo.Contents(), actor, courseId, ADMIN_PERMISSIONS)
    {
      ghost var s, a := repo.Contents(), Action.CreateCourse(actor, courseId, refused);
      var allowed := HasScopedPermission(actor, NIL, COURSE_CREATE);
      if !allowed {
        e := Some(Forbidden);
      } else if refused.Some? {
        e := refused;
      } else {
        e := EnsureUserRole(actor, courseId, ADMIN_PERMISSIONS, drawn);
        e := if e.Some? then Some(Internal) else None;
      }
      StepHandled(s, users, a, drawn);
      if e.None? {
        SucceedsIff(s, users, a, drawn);
        CreateGains(s, users, actor, courseId, refused, drawn);
      }
    }

    // The user can do what a course admin can and what was allowed before, and no more.
    method AssignCourseAdmin(actor: Id, user: Id, courseId: Id) returns (e: Option<Error>)
      requires Valid()
      modifies repo
      ensures (repo.Contents(), e) == Step(old(repo.Contents()), users, Action.AssignCourseAdmin(actor, user, courseId), 1)
      ensures Handled(old(repo.Contents()), repo.Contents(), Action.AssignCourseAdmin(actor, user, courseId), e)
      ensures e.None? <==> Allowed(old(repo.Contents()), users, Action.AssignCourseAdmin(actor, user, courseId))
      ensures e.None? ==> Gains(old(repo.Contents()), repo.Contents(), user, courseId, ADMIN_PERMISSIONS)
    {
      ghost var s, a := repo.Contents(), Action.AssignCourseAdmin(actor, user, courseId);
      e := Assign(actor, user, courseId);
      StepHandled(s, users, a, 1);
      SucceedsIff(s, users, a, 1);
      if e.None? {
        AssignGains(s, users, actor, user, courseId, 1);
      }
    }

    method Assign(actor: Id, user: Id, courseId: Id) returns (e: Option<Error>)
      modifies repo
      ensures (repo.Contents(), e) == Step(old(repo.Contents()), users, Action.AssignCourseAdmin(actor, user, courseId), 1)
    {
      if user == NIL || courseId == NIL {
        return Some(BadRequest);
      }
      var allowed := HasScopedPermission(actor, courseId, ROLE_ASSIGN);
      if !allowed {
        return Some(Forbidden);
      }
      if user !in users {
        return Some(NotFound);
      }
      var role := repo.GetRoleId(user, courseId);
      if role.None? {
        return Some(NotFound);
      }
      if role.value == NIL {
        return Some(BadRequest);
      }
      repo.AddPermissions(role.value, ADMIN_PERMISSIONS);
      e := None;
    }

    // Of the admin checks the user passes those of a global super admin, of the
    // others the same as before.
    method RevokeCourseAdmin(actor: Id, user: Id, courseId: Id) returns (e: Option<Error>)
      requires Valid()
      modifies repo
      ensures (repo.Contents(), e) == Step(old(repo.Contents()), users, Action.RevokeCourseAdmin(actor, user, courseId), 1)
      ensures Handled(old(repo.Contents()), repo.Contents(), Action.RevokeCourseAdmin(actor, user, courseId), e)
      ensures e.None? <==> Allowed(old(repo.Contents()), users, Action.RevokeCourseAdmin(actor, user, courseId))
      ensures e.None? ==> forall p :: p != "" ==>
                (HasScoped(repo.Contents(), user, courseId, p) <==>
                 if p in ADMIN_PERMISSIONS then HasGlobal(old(repo.Contents()), user, IS_SUPER_ADMIN)
                 else HasScoped(old(repo.Contents()), user, courseId, p))
    {
      ghost var s, a := repo.Contents(), Action.RevokeCourseAdmin(actor, user, courseId);
      e := Revoke(actor, user, courseId);
      StepHandled(s, users, a, 1);
      SucceedsIff(s, users, a, 1);
      if e.None? {
        forall p | p != "" {
          RevokeTakes(s, users, actor, user, courseId, 1, p);
        }
      }
    }

    method Revoke(actor: Id, user: Id, courseId: Id) returns (e: Option<Error>)
      modifies repo
      ensures (repo.Contents(), e) == Step(old(repo.Contents()), users, Action.RevokeCourseAdmin(actor, user, courseId), 1)
    {
      if user == NIL || courseId == NIL {
        return Some(BadRequest);
      }
      var allowed := HasScopedPermission(actor, courseId, ROLE_REVOKE);
      if !allowed {
        return Some(Forbidden);
      }
      var role := repo.GetRoleId(user, courseId);
      if role.None? {
        return Some(NotFound);
      }
      if role.value == NIL {
        return Some(BadRequest);
      }
      repo.RemovePermissions(role.value, ADMIN_PERMISSIONS);
      e := None;
    }

    // The user passes a check of the course only as a global super admin.
    method RemoveCourseParticipant(actor: Id, user: Id, courseId: Id) returns (e: Option<Error>)
      requires Valid()
      modifies repo
      ensures (repo.Contents(), e) == Step(old(repo.Contents()), users, Action.RemoveParticipant(actor, user, courseId), 1)
      ensures Handled(old(repo.Contents()), repo.Contents(), Action.RemoveParticipant(actor, user, courseId), e)
      ensures e.None? <==> Allowed(old(repo.Contents()), users, Action.RemoveParticipant(actor, user, courseId))
      ensures e.None? ==> forall p :: p != "" ==>
                (HasScoped(repo.Contents(), user, courseId, p) <==> HasGlobal(old(repo.Contents()), user, IS_SUPER_ADMIN))
    {
      ghost var s, a := repo.Contents(), Action.RemoveParticipant(actor, user, courseId);
      e := Remove(actor, user, courseId);
      StepHandled(s, users, a, 1);
      SucceedsIff(s, users, a, 1);
      if e.None? {
        forall p | p != "" {
          RemoveEnds(s, users, actor, user, courseId, 1, p);
        }
      }
    }

    method Remove(actor: Id, user: Id, courseId: Id) returns (e: Option<Error>)
      modifies repo
      ensures (repo.Contents(), e) == Step(old(repo.Contents()), users, Action.RemoveParticipant(actor, user, courseId), 1)
    {
      if user == NIL || courseId == NIL {
        return Some(BadRequest);
      }
      var allowed := HasScopedPermission(actor, courseId, ROLE_REVOKE);
      if !allowed {
        return Some(Forbidden);
      }
      var role := repo.GetRoleId(user, courseId);
      if role.None? {
        return Some(NotFound);
      }
      repo.RevokeRoleWithPermissions(user, courseId, role.value);
      e := None;
    }

    // The guards shared by adding and removing one permission.
    method MayEdit(actor: Id, courseId: Id, roleId: Id, permission: string, needed: string) returns (e: Option<Error>)
      ensures e == if courseId == NIL || roleId == NIL || permission == "" then Some(BadRequest)
                   else if !HasScoped(repo.Contents(), actor, courseId, needed) then Some(Forbidden)
                   else if !RoleInCourse(repo.Contents(), roleId, courseId) then Some(NotFound)
                   else None
    {
      if courseId == NIL || roleId == NIL || permission == "" {
        return Some(BadRequest);
      }
      var allowed := HasScopedPermission(actor, courseId, needed);
      if !allowed {
        return Some(Forbidden);
      }
      var ok := repo.RoleBelongsToCourse(roleId, courseId);
      return if ok then None else Some(NotFound);
    }

    // The one user who has the role passes the check, and no other one more.
    method AddPermission(actor: Id, courseId: Id, roleId: Id, permission: string) returns (e: Option<Error>)
      requires Valid()
      modifies repo
      ensures (repo.Contents(), e)
              == Step(old(repo.Contents()), users, Action.AddPermission(actor, courseId, roleId, permission), 1)
      ensures Handled(old(repo.Contents()), repo.Contents(), Action.AddPermission(actor, courseId, roleId, permission), e)
      ensures e.None? <==> Allowed(old(repo.Contents()), users, Action.AddPermission(actor, courseId, roleId, permission))
      ensures e.None? ==> forall user :: user != NIL && Lookup(old(repo.Contents()).roles, (user, courseId)) == Some(roleId) ==>
                Gains(old(repo.Contents()), repo.Contents(), user, courseId, {permission})
    {
      ghost var s, a := repo.Contents(), Action.AddPermission(actor, courseId, roleId, permission);
      e := MayEdit(actor, courseId, roleId, permission, PERMISSION_ADD);
      if e.None? {
        repo.AddPermissions(roleId, {permission});
        assert Granted(roleId, {permission}) == {(roleId, permission)};
      }
      StepHandled(s, users, a, 1);
      SucceedsIff(s, users, a, 1);
      if e.None? {
        forall user | user != NIL && Lookup(s.roles, (user, courseId)) == Some(roleId) {
          AddGains(s, users, actor, courseId, roleId, permission, 1, user);
        }
      }
    }

    // The one user who has the role passes the check only as a global super admin,
    // and every other one as before.
    method RemovePermission(actor: Id, courseId: Id, roleId: Id, permission: string) returns (e: Option<Error>)
      requires Valid()
      modifies repo
      ensures (repo.Contents(), e)
              == Step(old(repo.Contents()), users, Action.RemovePermission(actor, courseId, roleId, permission), 1)
      ensures Handled(old(repo.Contents()), repo.Contents(), Action.RemovePermission(actor, courseId, roleId, permission), e)
      ensures e.None? <==> Allowed(old(repo.Contents()), users, Action.RemovePermission(actor, courseId, roleId, permission))
      ensures e.None? ==> forall user, q :: user != NIL && Lookup(old(repo.Contents()).roles, (user, courseId)) == Some(roleId) && q != "" ==>
                (HasScoped(repo.Contents(), user, courseId, q) <==>
                 if q == permission then HasGlobal(old(repo.Contents()), user, IS_SUPER_ADMIN)
                 else HasScoped(old(repo.Contents()), user, courseId, q))
    {
      ghost var s, a := repo.Contents(), Action.RemovePermission(actor, courseId, roleId, permission);
      e := MayEdit(actor, courseId, roleId, permission, PERMISSION_REMOVE);
      if e.None? {
        repo.RemovePermissions(roleId, {permission});
        assert Granted(roleId, {permission}) == {(roleId, permission)};
      }
      StepHandled(s, users, a, 1);
      SucceedsIff(s, users, a, 1);
      if e.None? {
        forall user, q | user != NIL && Lookup(s.roles, (user, courseId)) == Some(roleId) && q != "" {
          RemoveLoses(s, users, actor, courseId, roleId, permission, 1, user, q);
        }
      }
    }

    // The new super admin passes four global checks more, and every check of every course.
    method CreateSuperAdmin(actor: Id, user: Id, drawn: Id) returns (e: Option<Error>)
      requires Valid() && drawn != NIL
      modifies repo
      ensures (repo.Contents(), e) == Step(old(repo.Contents()), users, Action.CreateSuperAdmin(actor, user), drawn)
      ensures Handled(old(repo.Contents()), repo.Contents(), Action.CreateSuperAdmin(actor, user), e)
      ensures e.None? ==> Allowed(old(repo.Contents()), users, Action.CreateSuperAdmin(actor, user))
      ensures e.None? ==> Gains(old(repo.Contents()), repo.Contents(), user, NIL, SUPER_ADMIN_PERMISSIONS)
      ensures e.None? ==> forall course, p :: course != NIL && p != "" ==> HasScoped(repo.Contents(), user, course, p)
    {
      ghost var s, a := repo.Contents(), Action.CreateSuperAdmin(actor, user);
      e := MakeSuperAdmin(actor, user, drawn);
      StepHandled(s, users, a, drawn);
      if e.None? {
        SucceedsIff(s, users, a, drawn);
        SuperAdminGains(s, users, actor, user, drawn);
      }
    }

    method MakeSuperAdmin(actor: Id, user: Id, drawn: Id) returns (e: Option<Error>)
      modifies repo
      ensures (repo.Contents(), e) == Step(old(repo.Contents()), users, Action.CreateSuperAdmin(actor, user), drawn)
    {
      var allowed := HasScopedPermission(actor, NIL, SUPER_ADMIN_CREATE);
      if !allowed {
        return Some(Forbidden);
      }
      if user == NIL {
        return Some(BadRequest);
      }
      if user !in users {
        return Some(NotFound);
      }
      e := EnsureUserRole(user, NIL, SUPER_ADMIN_PERMISSIONS, drawn);
    }
  }
}

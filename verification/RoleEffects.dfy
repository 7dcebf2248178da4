// Who may do what, and exactly which checks pass afterwards, in the permission
// names of the service.
module RoleEffects {
  import opened Wrappers
  import opened Roles
  import opened RoleLaws

  // The user's role in the scope has the permission.
  predicate OwnRoleHas(s: Store, user: Id, scope: Id, permission: string) {
    (user, scope) in s.roles && (s.roles[(user, scope)], permission) in s.perms
  }

  // A check passes by the role in the scope itself; in a course, also for a global
  // super admin.
  lemma PassesIff(s: Store, user: Id, scope: Id, permission: string)
    requires StoreInv(s)
    ensures HasScoped(s, user, scope, permission) <==>
            && user != 0 && permission != ""
            && (OwnRoleHas(s, user, scope, permission) || (scope != 0 && OwnRoleHas(s, user, 0, "is_super_admin")))
  {
  }

  // What the caller has to be, and what has to exist, for an operation to succeed.
  ghost predicate Allowed(s: Store, users: set<Id>, a: Action) {
    match a
    case JoinCourse(actor, course, code) =>
      && actor != 0 && !course.hidden && !course.finished && (course.isPublic || course.inviteCode == Some(code))
      && !HasScoped(s, actor, course.id, "course.read")
    case CreateCourse(actor, _, refused) => HasScoped(s, actor, 0, "course.create") && refused.None?
    case AssignCourseAdmin(actor, user, courseId) =>
      && user != 0 && courseId != 0 && HasScoped(s, actor, courseId, "course.roles.assign")
      && user in users && (user, courseId) in s.roles
    case RevokeCourseAdmin(actor, user, courseId) =>
      user != 0 && courseId != 0 && HasScoped(s, actor, courseId, "course.roles.revoke") && (user, courseId) in s.roles
    case RemoveParticipant(actor, user, courseId) =>
      user != 0 && courseId != 0 && HasScoped(s, actor, courseId, "course.roles.revoke") && (user, courseId) in s.roles
    case AddPermission(actor, courseId, roleId, permission) =>
      && courseId != 0 && roleId != 0 && permission != "" && HasScoped(s, actor, courseId, "course.permissions.add")
      && exists user: Id :: Lookup(s.roles, (user, courseId)) == Some(roleId)
    case RemovePermission(actor, courseId, roleId, permission) =>
      && courseId != 0 && roleId != 0 && permission != "" && HasScoped(s, actor, courseId, "course.permissions.remove")
      && exists user: Id :: Lookup(s.roles, (user, courseId)) == Some(roleId)
    case CreateSuperAdmin(actor, user) => HasScoped(s, actor, 0, "super_admin.create") && user != 0 && user in users
  }

  // Whom an operation may need a new role for.
  function NewRoleFor(a: Action): Option<(Id, Id)> {
    match a
    case JoinCourse(actor, course, _) => Some((actor, course.id))
    case CreateCourse(actor, courseId, _) => Some((actor, courseId))
    case CreateSuperAdmin(_, user) => Some((user, 0))
    case _ => None
  }

  // An operation succeeds exactly when it is allowed and a new role, where one is
  // needed, draws an identifier that no other role has.
  lemma SucceedsIff(s: Store, users: set<Id>, a: Action, drawn: Id)
    requires StoreInv(s)
    ensures Step(s, users, a, drawn).1.None? <==>
            && Allowed(s, users, a)
            && (NewRoleFor(a).Some? ==> NewRoleFor(a).value in s.roles || forall k :: k in s.roles ==> s.roles[k] != drawn)
  {
    assert drawn in s.roles.Values <==> exists k :: k in s.roles && s.roles[k] == drawn;
    if a.AddPermission? || a.RemovePermission? {
      InCourseIff(s, a.roleId, a.courseId);
    }
  }

  lemma InCourseIff(s: Store, role: Id, course: Id)
    ensures RoleInCourse(s, role, course) <==> exists user: Id :: Lookup(s.roles, (user, course)) == Some(role)
  {
    if k :| k in s.roles && s.roles[k] == role && k.1 == course {
      assert Lookup(s.roles, (k.0, course)) == Some(role);
    }
    if user: Id :| Lookup(s.roles, (user, course)) == Some(role) {
      assert (user, course) in s.roles && s.roles[(user, course)] == role;
    }
  }

  // The permission a course administrator needs for an operation.
  function Needed(a: Action): Option<string> {
    match a
    case AssignCourseAdmin(_, _, _) => Some("course.roles.assign")
    case RevokeCourseAdmin(_, _, _) => Some("course.roles.revoke")
    case RemoveParticipant(_, _, _) => Some("course.roles.revoke")
    case AddPermission(_, _, _, _) => Some("course.permissions.add")
    case RemovePermission(_, _, _, _) => Some("course.permissions.remove")
    case _ => None
  }

  // A request that names what it is about.
  predicate Complete(a: Action) {
    match a
    case AddPermission(_, courseId, roleId, permission) => courseId != 0 && roleId != 0 && permission != ""
    case RemovePermission(_, courseId, roleId, permission) => courseId != 0 && roleId != 0 && permission != ""
    case AssignCourseAdmin(_, user, courseId) => user != 0 && courseId != 0
    case RevokeCourseAdmin(_, user, courseId) => user != 0 && courseId != 0
    case RemoveParticipant(_, user, courseId) => user != 0 && courseId != 0
    case _ => true
  }

  // A refusal does not tell a stranger what exists: a hidden course is not found by
  // anyone, and who lacks the permission for an operation on a course is told that and
  // no more, whether the user or the role is there or not.
  lemma RefusalsDoNotTell(s: Store, users: set<Id>, a: Action, drawn: Id)
    ensures a.JoinCourse? && a.course.hidden ==> Step(s, users, a, drawn) == (s, Some(NotFound))
    ensures Needed(a).Some? && !Complete(a) ==> Step(s, users, a, drawn) == (s, Some(BadRequest))
    ensures Needed(a).Some? && Complete(a) ==>
              (Step(s, users, a, drawn).1 == Some(Forbidden) <==> !HasScoped(s, a.actor, ScopeOf(a), Needed(a).value))
  {
  }

  // And which refusal it is: the error of every other request, by its first reason.
  lemma JoinRefusedBecause(s: Store, users: set<Id>, actor: Id, course: Course, code: string, drawn: Id)
    requires !course.hidden
    ensures var e := Step(s, users, JoinCourse(actor, course, code), drawn).1;
            var member := HasScoped(s, actor, course.id, "course.read");
            && (e == Some(Conflict) <==> !course.finished && member)
            && (e == Some(Forbidden) <==>
                 course.finished || (!member && !course.isPublic && course.inviteCode.Some? && course.inviteCode.value != code))
            && (e == Some(Panicked) <==> !course.finished && !member && !course.isPublic && course.inviteCode.None?)
            && (e.Some? ==> e.value in {Conflict, Forbidden, Panicked, Internal})
  {
  }

  lemma RefusedBecause(s: Store, users: set<Id>, a: Action, drawn: Id)
    requires StoreInv(s)
    ensures var e := Step(s, users, a, drawn).1;
            match a
            case JoinCourse(_, _, _) => true
            case CreateCourse(actor, _, refused) =>
              if HasScoped(s, actor, 0, "course.create") then refused.Some? ==> e == refused else e == Some(Forbidden)
            case CreateSuperAdmin(actor, user) =>
              if !HasScoped(s, actor, 0, "super_admin.create") then e == Some(Forbidden)
              else (e == Some(BadRequest) <==> user == 0) && (e == Some(NotFound) <==> user != 0 && user !in users)
            case _ => Complete(a) && HasScoped(s, a.actor, ScopeOf(a), Needed(a).value) && !Allowed(s, users, a) ==> e == Some(NotFound)
  {
    if a.AddPermission? || a.RemovePermission? {
      InCourseIff(s, a.roleId, a.courseId);
    }
  }

  // Of the checks in one scope, the user now passes these and all that passed before.
  ghost predicate Gains(s: Store, r: Store, user: Id, scope: Id, permissions: set<string>) {
    forall p :: p != "" ==> (HasScoped(r, user, scope, p) <==> HasScoped(s, user, scope, p) || p in permissions)
  }

  lemma GrantedGains(s: Store, user: Id, scope: Id, permissions: set<string>)
    requires StoreInv(s) && user != 0 && (user, scope) in s.roles
    ensures Gains(s, s.(perms := s.perms + Granted(s.roles[(user, scope)], permissions)), user, scope, permissions)
  {
    var role := s.roles[(user, scope)];
    var r := s.(perms := s.perms + Granted(role, permissions));
    forall p | p != "" ensures HasScoped(r, user, scope, p) <==> HasScoped(s, user, scope, p) || p in permissions {
      assert (role, p) in Granted(role, permissions) <==> p in permissions;
    }
  }

  lemma EnsuredGains(s: Store, user: Id, scope: Id, permissions: set<string>, drawn: Id)
    requires StoreInv(s) && drawn != 0
    ensures var (r, e) := Ensured(s, user, scope, permissions, drawn);
            e.None? ==> Gains(s, r, user, scope, permissions)
  {
    var (r, e) := Ensured(s, user, scope, permissions, drawn);
    if e.None? && (user, scope) in s.roles {
      GrantedGains(s, user, scope, permissions);
    } else if e.None? {
      NewRoleGains(s, user, scope, permissions, drawn);
    }
  }

  lemma NewRoleGains(s: Store, user: Id, scope: Id, permissions: set<string>, drawn: Id)
    requires StoreInv(s) && user != 0 && drawn != 0 && (user, scope) !in s.roles && drawn !in s.roles.Values
    ensures Gains(s, Store(s.roles[(user, scope) := drawn], s.perms + Granted(drawn, permissions)), user, scope, permissions)
  {
    var r := Store(s.roles[(user, scope) := drawn], s.perms + Granted(drawn, permissions));
    forall rp | rp in s.perms ensures rp.0 in s.roles.Values {
      var k :| k in s.roles && s.roles[k] == rp.0;
    }
    forall p | p != "" ensures HasScoped(r, user, scope, p) <==> HasScoped(s, user, scope, p) || p in permissions {
      assert (drawn, p) in Granted(drawn, permissions) <==> p in permissions;
      assert (drawn, p) in s.perms ==> (drawn, p).0 in s.roles.Values;
      assert scope != 0 && (user, 0) in s.roles ==> s.roles[(user, 0)] in s.roles.Values && r.roles[(user, 0)] == s.roles[(user, 0)];
    }
  }

  lemma NoAdminGained(s: Store, r: Store, user: Id, scope: Id)
    requires Gains(s, r, user, scope, STUDENT_PERMISSIONS)
    ensures forall p :: p in ADMIN_PERMISSIONS && p != "course.read" ==> (HasScoped(r, user, scope, p) <==> HasScoped(s, user, scope, p))
  {
    forall p | p in ADMIN_PERMISSIONS && p != "course.read" ensures p != "" && p !in STUDENT_PERMISSIONS {
    }
  }

  // Who joins a course passes the student checks and those passed before, and no
  // others: of the administrators' checks none but reading the course is new.
  lemma JoinGains(s: Store, users: set<Id>, actor: Id, course: Course, code: string, drawn: Id)
    requires StoreInv(s) && drawn != 0 && Step(s, users, JoinCourse(actor, course, code), drawn).1.None?
    ensures var r := Step(s, users, JoinCourse(actor, course, code), drawn).0;
            && Gains(s, r, actor, course.id,
                     {"homework.read", "deadline.read", "task.read", "task.submit", "leaderboard.read", "course.read"})
            && forall p :: p in ADMIN_PERMISSIONS && p != "course.read" ==>
                 (HasScoped(r, actor, course.id, p) <==> HasScoped(s, actor, course.id, p))
  {
    EnsuredGains(s, actor, course.id, STUDENT_PERMISSIONS, drawn);
    NoAdminGained(s, Step(s, users, JoinCourse(actor, course, code), drawn).0, actor, course.id);
  }

  // The creator of a course passes the admin checks of it, and no others.
  lemma CreateGains(s: Store, users: set<Id>, actor: Id, courseId: Id, refused: Option<Error>, drawn: Id)
    requires StoreInv(s) && drawn != 0 && Step(s, users, CreateCourse(actor, courseId, refused), drawn).1.None?
    ensures Gains(s, Step(s, users, CreateCourse(actor, courseId, refused), drawn).0, actor, courseId,
                  {"homework.create", "homework.update", "homework.delete", "homework.publish",
                   "deadline.create", "deadline.update", "deadline.delete",
                   "task.create", "task.update", "task.publish", "task.delete", "task.score.update",
                   "scores.export", "course.read", "course.hidden.read", "course.update", "stats.read"})
  {
    EnsuredGains(s, actor, courseId, ADMIN_PERMISSIONS, drawn);
  }

  lemma AssignGains(s: Store, users: set<Id>, actor: Id, user: Id, courseId: Id, drawn: Id)
    requires StoreInv(s) && Step(s, users, AssignCourseAdmin(actor, user, courseId), drawn).1.None?
    ensures Gains(s, Step(s, users, AssignCourseAdmin(actor, user, courseId), drawn).0, user, courseId,
                  {"homework.create", "homework.update", "homework.delete", "homework.publish",
                   "deadline.create", "deadline.update", "deadline.delete",
                   "task.create", "task.update", "task.publish", "task.delete", "task.score.update",
                   "scores.export", "course.read", "course.hidden.read", "course.update", "stats.read"})
  {
    GrantedGains(s, user, courseId, ADMIN_PERMISSIONS);
  }

  // Who is revoked passes an admin check only as a global super admin, and keeps
  // every other check.
  lemma RevokeTakes(s: Store, users: set<Id>, actor: Id, user: Id, courseId: Id, drawn: Id, p: string)
    requires StoreInv(s) && p != "" && Step(s, users, RevokeCourseAdmin(actor, user, courseId), drawn).1.None?
    ensures HasScoped(Step(s, users, RevokeCourseAdmin(actor, user, courseId), drawn).0, user, courseId, p)
            <==> if p in ADMIN_PERMISSIONS then HasGlobal(s, user, IS_SUPER_ADMIN) else HasScoped(s, user, courseId, p)
  {
    var r := Step(s, users, RevokeCourseAdmin(actor, user, courseId), drawn).0;
    var role := s.roles[(user, courseId)];
    assert (role, p) in Granted(role, ADMIN_PERMISSIONS) <==> p in ADMIN_PERMISSIONS;
    GlobalStays(s, users, RevokeCourseAdmin(actor, user, courseId), drawn, user);
    StepKeepsInv(s, users, RevokeCourseAdmin(actor, user, courseId), 1);
  }

  // Who is removed passes a check of the course only as a global super admin.
  lemma RemoveEnds(s: Store, users: set<Id>, actor: Id, user: Id, courseId: Id, drawn: Id, p: string)
    requires StoreInv(s) && p != "" && Step(s, users, RemoveParticipant(actor, user, courseId), drawn).1.None?
    ensures HasScoped(Step(s, users, RemoveParticipant(actor, user, courseId), drawn).0, user, courseId, p)
            <==> HasGlobal(s, user, IS_SUPER_ADMIN)
  {
    var r := Step(s, users, RemoveParticipant(actor, user, courseId), drawn).0;
    GlobalStays(s, users, RemoveParticipant(actor, user, courseId), drawn, user);
    StepKeepsInv(s, users, RemoveParticipant(actor, user, courseId), 1);
    PassesIff(r, user, courseId, p);
  }

  // One permission more, and nothing else, for the one user who has the role.
  lemma AddGains(s: Store, users: set<Id>, actor: Id, courseId: Id, roleId: Id, p: string, drawn: Id, user: Id)
    requires StoreInv(s) && Step(s, users, AddPermission(actor, courseId, roleId, p), drawn).1.None?
    requires user != 0 && Lookup(s.roles, (user, courseId)) == Some(roleId)
    ensures Gains(s, Step(s, users, AddPermission(actor, courseId, roleId, p), drawn).0, user, courseId, {p})
  {
    GrantedGains(s, user, courseId, {p});
    assert Granted(roleId, {p}) == {(roleId, p)};
  }

  // One permission less, and nothing else: the check of it passes for a global super
  // admin only, every other as before.
  lemma RemoveLoses(s: Store, users: set<Id>, actor: Id, courseId: Id, roleId: Id, p: string, drawn: Id, user: Id, q: string)
    requires StoreInv(s) && Step(s, users, RemovePermission(actor, courseId, roleId, p), drawn).1.None?
    requires user != 0 && Lookup(s.roles, (user, courseId)) == Some(roleId) && q != ""
    ensures HasScoped(Step(s, users, RemovePermission(actor, courseId, roleId, p), drawn).0, user, courseId, q)
            <==> if q == p then HasGlobal(s, user, IS_SUPER_ADMIN) else HasScoped(s, user, courseId, q)
  {
    GlobalStays(s, users, RemovePermission(actor, courseId, roleId, p), drawn, user);
    StepKeepsInv(s, users, RemovePermission(actor, courseId, roleId, p), 1);
  }

  // A new super admin passes the four global checks more, and in every course
  // every check.
  lemma SuperAdminGains(s: Store, users: set<Id>, actor: Id, user: Id, drawn: Id)
    requires StoreInv(s) && drawn != 0 && Step(s, users, CreateSuperAdmin(actor, user), drawn).1.None?
    ensures var r := Step(s, users, CreateSuperAdmin(actor, user), drawn).0;
            && Gains(s, r, user, 0, {"is_super_admin", "course.create", "super_admin.create", "stats.read"})
            && forall course, p :: course != 0 && p != "" ==> HasScoped(r, user, course, p)
  {
    var r := Step(s, users, CreateSuperAdmin(actor, user), drawn).0;
    EnsuredGains(s, user, 0, SUPER_ADMIN_PERMISSIONS, drawn);
    EnsuredKeepsInv(s, user, 0, SUPER_ADMIN_PERMISSIONS, drawn);
    assert HasScoped(r, user, 0, "is_super_admin");
    forall course, p | course != 0 && p != "" ensures HasScoped(r, user, course, p) {
      PassesIff(r, user, course, p);
    }
  }
}

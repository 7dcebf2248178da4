// What every sequence of role operations keeps, and what it can never do.
module RoleLaws {
  import opened Wrappers
  import opened Roles

  lemma EnsuredKeepsInv(s: Store, user: Id, course: Id, permissions: set<string>, drawn: Id)
    requires StoreInv(s) && drawn != NIL
    ensures StoreInv(Ensured(s, user, course, permissions, drawn).0)
  {
    var r := Ensured(s, user, course, permissions, drawn).0;
    forall rp | rp in r.perms ensures exists k :: k in r.roles && r.roles[k] == rp.0 {
      if rp in s.perms {
        var k :| k in s.roles && s.roles[k] == rp.0;
        assert r.roles[k] == rp.0;
      } else {
        assert r.roles[(user, course)] == rp.0;
      }
    }
    forall k | k in s.roles ensures s.roles[k] in s.roles.Values {
    }
  }

  // The invariant is kept by every operation, allowed or refused.
  lemma StepKeepsInv(s: Store, users: set<Id>, a: Action, drawn: Id)
    requires StoreInv(s) && drawn != NIL
    ensures StoreInv(Step(s, users, a, drawn).0)
  {
    match a
    case JoinCourse(actor, course, _) => EnsuredKeepsInv(s, actor, course.id, STUDENT_PERMISSIONS, drawn);
    case CreateCourse(actor, courseId, _) => EnsuredKeepsInv(s, actor, courseId, ADMIN_PERMISSIONS, drawn);
    case CreateSuperAdmin(_, user) => EnsuredKeepsInv(s, user, NIL, SUPER_ADMIN_PERMISSIONS, drawn);
    case RemoveParticipant(_, user, courseId) => RemoveKeepsInv(s, user, courseId);
    case AddPermission(_, courseId, roleId, _) =>
      if RoleInCourse(s, roleId, courseId) {
        var k :| k in s.roles && s.roles[k] == roleId && k.1 == courseId;
      }
    case _ =>
  }

  lemma RemoveKeepsInv(s: Store, user: Id, courseId: Id)
    requires StoreInv(s)
    ensures (user, courseId) in s.roles ==>
              StoreInv(Store(s.roles - {(user, courseId)}, set rp | rp in s.perms && rp.0 != s.roles[(user, courseId)]))
  {
    if (user, courseId) in s.roles {
      var role := s.roles[(user, courseId)];
      forall rp | rp in s.perms && rp.0 != role
        ensures exists k :: k in s.roles - {(user, courseId)} && s.roles[k] == rp.0
      {
        var k :| k in s.roles && s.roles[k] == rp.0;
        assert k in s.roles - {(user, courseId)};
      }
    }
  }

  function PermissionsOf(s: Store, role: Id): (r: set<string>)
    ensures forall p :: p in r <==> (role, p) in s.perms
  {
    var own := set rp | rp in s.perms && rp.0 == role;
    assert forall p :: (role, p) in s.perms <==> (role, p) in own;
    set rp | rp in own :: rp.1
  }

  // The role and permissions one (user, course) pair has.
  function RoleView(s: Store, k: (Id, Id)): Option<(Id, set<string>)> {
    if k in s.roles then Some((s.roles[k], PermissionsOf(s, s.roles[k]))) else None
  }

  lemma SameView(s: Store, r: Store, k: (Id, Id))
    requires Lookup(s.roles, k) == Lookup(r.roles, k)
    requires k in s.roles ==> forall p :: (s.roles[k], p) in s.perms <==> (s.roles[k], p) in r.perms
    ensures RoleView(s, k) == RoleView(r, k)
  {
    if k in s.roles {
      assert PermissionsOf(s, s.roles[k]) == PermissionsOf(r, s.roles[k]);
    }
  }

  // The role an operation is about.
  predicate Targets(s: Store, a: Action, k: (Id, Id)) {
    match a
    case JoinCourse(actor, course, _) => k == (actor, course.id)
    case CreateCourse(actor, courseId, _) => k == (actor, courseId)
    case CreateSuperAdmin(_, user) => k == (user, NIL)
    case AddPermission(_, courseId, roleId, _) => Lookup(s.roles, k) == Some(roleId) && k.1 == courseId
    case RemovePermission(_, courseId, roleId, _) => Lookup(s.roles, k) == Some(roleId) && k.1 == courseId
    case _ => k == (a.user, a.courseId)
  }

  lemma EnsuredFrame(s: Store, user: Id, course: Id, permissions: set<string>, drawn: Id, k: (Id, Id))
    requires StoreInv(s) && k != (user, course)
    ensures RoleView(Ensured(s, user, course, permissions, drawn).0, k) == RoleView(s, k)
  {
    var r := Ensured(s, user, course, permissions, drawn).0;
    if k in s.roles {
      assert s.roles[k] in s.roles.Values;
    }
    SameView(s, r, k);
  }

  // An operation leaves every role but the one it is about, and its permissions,
  // as they were: other users of the same course, other courses, and the global scope.
  lemma StepTouchesOnlyItsTarget(s: Store, users: set<Id>, a: Action, drawn: Id, k: (Id, Id))
    requires StoreInv(s) && !Targets(s, a, k)
    ensures RoleView(Step(s, users, a, drawn).0, k) == RoleView(s, k)
  {
    var r := Step(s, users, a, drawn).0;
    match a
    case JoinCourse(actor, course, _) => EnsuredFrame(s, actor, course.id, STUDENT_PERMISSIONS, drawn, k);
    case CreateCourse(actor, courseId, _) => EnsuredFrame(s, actor, courseId, ADMIN_PERMISSIONS, drawn, k);
    case CreateSuperAdmin(_, user) => EnsuredFrame(s, user, NIL, SUPER_ADMIN_PERMISSIONS, drawn, k);
    case AddPermission(_, courseId, roleId, _) => OtherRole(s, roleId, courseId, k); SameView(s, r, k);
    case RemovePermission(_, courseId, roleId, _) => OtherRole(s, roleId, courseId, k); SameView(s, r, k);
    case _ => SameView(s, r, k);
  }

  lemma OtherRole(s: Store, roleId: Id, courseId: Id, k: (Id, Id))
    requires StoreInv(s) && !(Lookup(s.roles, k) == Some(roleId) && k.1 == courseId)
    ensures RoleInCourse(s, roleId, courseId) && k in s.roles ==> s.roles[k] != roleId
  {
  }

  // In particular, an operation on one course, or on the global scope, leaves
  // every role of every other scope, and its permissions, as they were.
  lemma StepTouchesOnlyItsScope(s: Store, users: set<Id>, a: Action, drawn: Id, k: (Id, Id))
    requires StoreInv(s) && k.1 != ScopeOf(a)
    ensures RoleView(Step(s, users, a, drawn).0, k) == RoleView(s, k)
  {
    StepTouchesOnlyItsTarget(s, users, a, drawn, k);
  }

  // A refused operation changes nothing.
  lemma RefusedChangesNothing(s: Store, users: set<Id>, a: Action, drawn: Id)
    requires Step(s, users, a, drawn).1.Some?
    ensures Step(s, users, a, drawn).0 == s
  {
  }

  // What every operation does: it keeps the invariant, changes at most the role
  // it is about, and nothing if it is refused.
  ghost predicate Handled(s: Store, r: Store, a: Action, e: Option<Error>) {
    && StoreInv(r) && (e.Some? ==> r == s)
    && (forall k :: !Targets(s, a, k) ==> RoleView(r, k) == RoleView(s, k))
  }

  lemma StepHandled(s: Store, users: set<Id>, a: Action, drawn: Id)
    requires StoreInv(s) && drawn != NIL
    ensures Handled(s, Step(s, users, a, drawn).0, a, Step(s, users, a, drawn).1)
  {
    var r := Step(s, users, a, drawn).0;
    StepKeepsInv(s, users, a, drawn);
    forall k | !Targets(s, a, k) ensures RoleView(r, k) == RoleView(s, k) {
      StepTouchesOnlyItsTarget(s, users, a, drawn, k);
    }
  }

  // A course operation leaves the global permissions alone.
  lemma GlobalStays(s: Store, users: set<Id>, a: Action, drawn: Id, user: Id)
    requires StoreInv(s) && ScopeOf(a) != NIL
    ensures HasGlobal(Step(s, users, a, drawn).0, user, IS_SUPER_ADMIN) <==> HasGlobal(s, user, IS_SUPER_ADMIN)
  {
    StepTouchesOnlyItsScope(s, users, a, drawn, (user, NIL));
    GlobalOfView(s, user, IS_SUPER_ADMIN);
    GlobalOfView(Step(s, users, a, drawn).0, user, IS_SUPER_ADMIN);
  }

  // A request with the UUID drawn for it.
  datatype Event = Event(action: Action, drawn: Id)

  function Run(s: Store, users: set<Id>, events: seq<Event>): Store {
    if events == [] then s
    else
      var last := events[|events| - 1];
      Step(Run(s, users, events[..|events| - 1]), users, last.action, last.drawn).0
  }

  ghost predicate WellformedRun(events: seq<Event>) {
    forall i :: 0 <= i < |events| ==> Wellformed(events[i].action) && events[i].drawn != NIL
  }

  lemma {:induction false} RunKeepsInv(s: Store, users: set<Id>, events: seq<Event>)
    requires StoreInv(s) && WellformedRun(events)
    ensures StoreInv(Run(s, users, events))
  {
    if events != [] {
      var last := events[|events| - 1];
      RunKeepsInv(s, users, events[..|events| - 1]);
      StepKeepsInv(Run(s, users, events[..|events| - 1]), users, last.action, last.drawn);
    }
  }

  // The user's global role has the permission.
  predicate HasGlobal(s: Store, user: Id, permission: string) {
    (user, NIL) in s.roles && (s.roles[(user, NIL)], permission) in s.perms
  }

  lemma GlobalOfView(s: Store, user: Id, permission: string)
    ensures HasGlobal(s, user, permission) <==>
            RoleView(s, (user, NIL)).Some? && permission in RoleView(s, (user, NIL)).value.1
  {
  }

  // One step gives a global permission to a user only as CreateSuperAdmin for
  // that user, by someone whose own global role held super_admin.create.
  lemma StepGrantsGlobal(s: Store, users: set<Id>, a: Action, drawn: Id, user: Id, permission: string)
    requires StoreInv(s) && Wellformed(a)
    requires HasGlobal(Step(s, users, a, drawn).0, user, permission) && !HasGlobal(s, user, permission)
    ensures a.CreateSuperAdmin? && a.user == user && permission in SUPER_ADMIN_PERMISSIONS
    ensures HasGlobal(s, a.actor, SUPER_ADMIN_CREATE)
  {
    var r := Step(s, users, a, drawn).0;
    GlobalOfView(s, user, permission);
    GlobalOfView(r, user, permission);
    if ScopeOf(a) != NIL {
      StepTouchesOnlyItsScope(s, users, a, drawn, (user, NIL));
      assert false;
    } else if a.CreateSuperAdmin? {
      if a.user != user {
        OtherGlobal(s, users, a, drawn, user, permission);
      }
    }
  }

  lemma OtherGlobal(s: Store, users: set<Id>, a: Action, drawn: Id, user: Id, permission: string)
    requires StoreInv(s) && a.CreateSuperAdmin? && a.user != user
    ensures HasGlobal(Step(s, users, a, drawn).0, user, permission) ==> HasGlobal(s, user, permission)
  {
    if (user, NIL) in s.roles {
      assert s.roles[(user, NIL)] in s.roles.Values;
    }
  }

  // Over every run: whoever is a super admin at the end and was not at the start
  // was made one by some CreateSuperAdmin step, whose actor held
  // super_admin.create on a global role at that moment.
  lemma {:induction false} SuperAdminsAreMade(s: Store, users: set<Id>, events: seq<Event>, user: Id) returns (i: nat)
    requires StoreInv(s) && WellformedRun(events)
    requires HasGlobal(Run(s, users, events), user, IS_SUPER_ADMIN) && !HasGlobal(s, user, IS_SUPER_ADMIN)
    ensures i < |events| && events[i].action.CreateSuperAdmin? && events[i].action.user == user
    ensures HasGlobal(Run(s, users, events[..i]), events[i].action.actor, SUPER_ADMIN_CREATE)
  {
    var n := |events| - 1;
    var before := Run(s, users, events[..n]);
    if HasGlobal(before, user, IS_SUPER_ADMIN) {
      i := SuperAdminsAreMade(s, users, events[..n], user);
      assert events[..n][..i] == events[..i];
    } else {
      RunKeepsInv(s, users, events[..n]);
      StepGrantsGlobal(before, users, events[n].action, events[n].drawn, user, IS_SUPER_ADMIN);
      i := n;
    }
  }

  // If nobody starts with super_admin.create, nobody ever gets a global permission.
  lemma {:induction false} NoCreatorNoGlobals(s: Store, users: set<Id>, events: seq<Event>, user: Id, permission: string)
    requires StoreInv(s) && WellformedRun(events)
    requires forall u :: !HasGlobal(s, u, SUPER_ADMIN_CREATE)
    ensures HasGlobal(Run(s, users, events), user, permission) ==> HasGlobal(s, user, permission)
    decreases |events|
  {
    if events != [] {
      var n := |events| - 1;
      var before := Run(s, users, events[..n]);
      RunKeepsInv(s, users, events[..n]);
      NoCreatorNoGlobals(s, users, events[..n], user, permission);
      if HasGlobal(Run(s, users, events), user, permission) && !HasGlobal(before, user, permission) {
        StepGrantsGlobal(before, users, events[n].action, events[n].drawn, user, permission);
        NoCreatorNoGlobals(s, users, events[..n], events[n].action.actor, SUPER_ADMIN_CREATE);
        assert false;
      }
    }
  }

  // Revoking a course admin undoes assigning one exactly when the user's role had
  // none of the admin permissions before.
  lemma RevokeUndoesAssignIff(s: Store, users: set<Id>, actor: Id, revoker: Id, user: Id, courseId: Id, f1: Id, f2: Id)
    requires StoreInv(s)
    requires Step(s, users, AssignCourseAdmin(actor, user, courseId), f1).1 == None
    requires Step(Step(s, users, AssignCourseAdmin(actor, user, courseId), f1).0, users,
                  RevokeCourseAdmin(revoker, user, courseId), f2).1 == None
    ensures var promoted := Step(s, users, AssignCourseAdmin(actor, user, courseId), f1).0;
            Step(promoted, users, RevokeCourseAdmin(revoker, user, courseId), f2).0 == s
            <==> forall p :: p in ADMIN_PERMISSIONS ==> (s.roles[(user, courseId)], p) !in s.perms
  {
    var g := Granted(s.roles[(user, courseId)], ADMIN_PERMISSIONS);
    assert (s.perms + g) - g == s.perms - g;
    if s.perms - g == s.perms {
      forall p | p in ADMIN_PERMISSIONS ensures (s.roles[(user, courseId)], p) !in s.perms {
        assert (s.roles[(user, courseId)], p) in g;
      }
    }
  }

  // It does not for a participant who joined: the revocation takes course.read
  // away, which the participant had as a student.
  lemma StudentLosesCourseRead(s: Store, users: set<Id>, actor: Id, user: Id, courseId: Id, drawn: Id)
    requires StoreInv(s) && (user, courseId) in s.roles && courseId != NIL
    requires (s.roles[(user, courseId)], COURSE_READ) in s.perms
    requires Step(s, users, RevokeCourseAdmin(actor, user, courseId), drawn).1 == None
    ensures HasScoped(s, user, courseId, COURSE_READ)
    ensures HasScoped(Step(s, users, RevokeCourseAdmin(actor, user, courseId), drawn).0, user, courseId, COURSE_READ)
            <==> HasGlobal(s, user, IS_SUPER_ADMIN)
  {
    var r := Step(s, users, RevokeCourseAdmin(actor, user, courseId), drawn).0;
    assert (s.roles[(user, courseId)], COURSE_READ) in Granted(s.roles[(user, courseId)], ADMIN_PERMISSIONS);
    StepTouchesOnlyItsScope(s, users, RevokeCourseAdmin(actor, user, courseId), drawn, (user, NIL));
    GlobalOfView(s, user, IS_SUPER_ADMIN);
    GlobalOfView(r, user, IS_SUPER_ADMIN);
  }
}

/**
  The User aggregate (Entities/Users/User.cs) and the older User entity
  (Entities/User.cs).  Both are objects whose methods update their fields and
  append to the aggregate root's event list; each method is tied to a function
  on a UserState value, and the promises of the aggregate are proved about
  those functions.
 */
module Users {
  import opened Shared
  import opened ValueObjects
  import opened DomainEvents
  import opened Aggregates

  /** A role; two roles are the same role when id and name agree. */
  datatype Role = Role(id: int, name: string)

  const Registered: Role := Role(1, "Registered")

  // ---------------------------------------------------------------- the role list

  /** List.Remove: drops the first element equal to x, if there is one. */
  function RemoveFirst(s: seq<Role>, x: Role): seq<Role>
    decreases |s|
  {
    if s == [] then []
    else if s[0] == x then s[1..]
    else [s[0]] + RemoveFirst(s[1..], x)
  }

  lemma {:induction false} RemoveFirstMembers(s: seq<Role>, x: Role, y: Role)
    ensures y in RemoveFirst(s, x) ==> y in s
    ensures y in s && y != x ==> y in RemoveFirst(s, x)
    decreases |s|
  {
    if s != [] && s[0] != x {
      RemoveFirstMembers(s[1..], x, y);
    }
  }

  /** Removing the first occurrence keeps a duplicate-free list duplicate-free and removes x entirely. */
  lemma {:induction false} RemoveFirstDistinct(s: seq<Role>, x: Role)
    requires Distinct(s)
    ensures Distinct(RemoveFirst(s, x))
    ensures x !in RemoveFirst(s, x)
    decreases |s|
  {
    if s != [] {
      var t := s[1..];
      assert Distinct(t) by {
        forall i, j | 0 <= i < j < |t| ensures t[i] != t[j] {
          assert t[i] == s[i + 1] && t[j] == s[j + 1];
        }
      }
      forall k | 0 <= k < |t| ensures t[k] != s[0] {
        assert t[k] == s[k + 1];
      }
      if s[0] != x {
        RemoveFirstDistinct(t, x);
        var r := RemoveFirst(t, x);
        RemoveFirstMembers(t, x, s[0]);
        var w := [s[0]] + r;
        forall i, j | 0 <= i < j < |w| ensures w[i] != w[j] {
          if i == 0 {
            assert w[j] == r[j - 1];
          } else {
            assert w[i] == r[i - 1] && w[j] == r[j - 1];
          }
        }
      }
    }
  }

  /** The role list after adding role when it is not already there. */
  function WithRole(roles: seq<Role>, role: Role): seq<Role> {
    if role in roles then roles else roles + [role]
  }

  lemma WithRoleDistinct(roles: seq<Role>, role: Role)
    requires Distinct(roles)
    ensures Distinct(WithRole(roles, role))
    ensures role in WithRole(roles, role)
    ensures forall r :: r in WithRole(roles, role) <==> r in roles || r == role
  {
    if role !in roles {
      var w := roles + [role];
      forall i, j | 0 <= i < j < |w| ensures w[i] != w[j] {
        if j == |roles| {
          assert w[i] == roles[i];
        }
      }
    }
  }

  // ---------------------------------------------------------------- User, as a state machine

  datatype UserState = UserState(
    id: Guid,
    email: Email,
    passwordHash: string,
    firstName: FirstName,
    lastName: LastName,
    roles: seq<Role>,
    events: seq<DomainEvent>)

  datatype UserStep = UserStep(state: UserState, outcome: Outcome)

  /** The event ChangeName raises: one UserNameChanged exactly when either name differs. */
  function NameChangeEvents(id: Guid, f0: FirstName, l0: LastName, f: FirstName, l: LastName, eventId: Guid)
    : seq<DomainEvent>
  {
    if f0 != f || l0 != l then [UserNameChanged(eventId, id)] else []
  }

  predicate IsInRole(s: UserState, role: Role) {
    role in s.roles
  }

  /** User.Create: the fields as given, the role assigned through AssignRole, one UserRegistered event. */
  function Register(id: Guid, email: Email, passwordHash: string, f: FirstName, l: LastName, role: Role, eventId: Guid)
    : UserState
  {
    var s := UserState(id, email, passwordHash, f, l, [], []);
    RoleAssigned(s, role).state.(events := [UserRegistered(eventId, id)])
  }

  function NameChanged(s: UserState, f: FirstName, l: LastName, eventId: Guid): UserState {
    s.(firstName := f, lastName := l, events := s.events + NameChangeEvents(s.id, s.firstName, s.lastName, f, l, eventId))
  }

  function RoleAssigned(s: UserState, role: Role): UserStep {
    if IsBlank(role.name) then UserStep(s, Fail(UserInvalidRoleName))
    else UserStep(s.(roles := WithRole(s.roles, role)), Pass)
  }

  function RoleRemoved(s: UserState, role: Role): UserStep {
    if IsBlank(role.name) then UserStep(s, Fail(UserInvalidRoleName))
    else if !IsInRole(s, role) then UserStep(s, Fail(UserRoleNotAssigned(role.id)))
    else UserStep(s.(roles := RemoveFirst(s.roles, role)), Pass)
  }

  /**
    UpdateName: FirstName.Create(..).Value, then LastName.Create(..).Value.
    Reading Value of a failure throws, so `completed` is false when either
    name is rejected, and a valid first name is stored even when the last
    name then throws.
   */
  datatype NameUpdate = NameUpdate(state: UserState, completed: bool)

  function NameUpdated(s: UserState, first: string, last: string): NameUpdate {
    match CreateFirstName(first)
    case Failure(_) => NameUpdate(s, false)
    case Success(f) =>
      var s1 := s.(firstName := f);
      match CreateLastName(last)
      case Failure(_) => NameUpdate(s1, false)
      case Success(l) => NameUpdate(s1.(lastName := l), true)
  }

  /** A new user holds what it was given, is in the role exactly when the role has a name, and raised one event. */
  lemma RegisterFacts(id: Guid, email: Email, passwordHash: string, f: FirstName, l: LastName, role: Role, eventId: Guid)
    ensures var s := Register(id, email, passwordHash, f, l, role, eventId);
      && s.id == id && s.email == email && s.passwordHash == passwordHash
      && s.firstName == f && s.lastName == l
      && Distinct(s.roles)
      && (IsInRole(s, role) <==> !IsBlank(role.name))
      && (forall r :: IsInRole(s, r) ==> r == role)
      && s.events == [UserRegistered(eventId, id)]
      && SubjectId(s.events[0]) == id
  {
  }

  /** ChangeName sets both names; it raises an event iff a name differs, so repeating it raises nothing more. */
  lemma ChangeNameFacts(s: UserState, f: FirstName, l: LastName, e1: Guid, e2: Guid)
    ensures var t := NameChanged(s, f, l, e1);
      && t.firstName == f && t.lastName == l
      && t.id == s.id && t.roles == s.roles && t.email == s.email
      && (|t.events| == |s.events| + 1 <==> s.firstName != f || s.lastName != l)
      && (|t.events| == |s.events| <==> s.firstName == f && s.lastName == l)
      && (|t.events| > |s.events| ==> t.events[|s.events|] == UserNameChanged(e1, s.id))
      && NameChanged(t, f, l, e2) == t
  {
  }

  /** Role changes keep the role list free of duplicates. */
  lemma RoleChangesKeepDistinct(s: UserState, role: Role)
    requires Distinct(s.roles)
    ensures Distinct(RoleAssigned(s, role).state.roles)
    ensures Distinct(RoleRemoved(s, role).state.roles)
  {
    WithRoleDistinct(s.roles, role);
    RemoveFirstDistinct(s.roles, role);
  }

  /** AssignRole: fails on a blank name and changes nothing; otherwise the user is in the role, and a second call changes nothing. */
  lemma AssignRoleFacts(s: UserState, role: Role)
    requires Distinct(s.roles)
    ensures var r := RoleAssigned(s, role);
      && (r.outcome.Fail? <==> IsBlank(role.name))
      && (r.outcome.Fail? ==> r.state == s && r.outcome.error == UserInvalidRoleName)
      && (r.outcome.Pass? ==> IsInRole(r.state, role)
                              && (forall q :: IsInRole(r.state, q) <==> IsInRole(s, q) || q == role)
                              && RoleAssigned(r.state, role) == r)
  {
    WithRoleDistinct(s.roles, role);
  }

  /**
    RemoveRole: fails on a blank name, then on a role the user does not hold
    (with that role's id), and changes nothing when it fails; after a
    successful removal the user is no longer in the role and still in every
    other role, and removing again fails with RoleNotAssigned.
   */
  lemma RemoveRoleFacts(s: UserState, role: Role)
    requires Distinct(s.roles)
    ensures var r := RoleRemoved(s, role);
      && (IsBlank(role.name) ==> r == UserStep(s, Fail(UserInvalidRoleName)))
      && (!IsBlank(role.name) && !IsInRole(s, role) ==> r == UserStep(s, Fail(UserRoleNotAssigned(role.id))))
      && (r.outcome.Pass? <==> !IsBlank(role.name) && IsInRole(s, role))
      && (r.outcome.Pass? ==> !IsInRole(r.state, role)
                              && (forall q :: q != role ==> (IsInRole(r.state, q) <==> IsInRole(s, q)))
                              && RoleRemoved(r.state, role).outcome == Fail(UserRoleNotAssigned(role.id)))
  {
    RemoveFirstDistinct(s.roles, role);
    forall q | q != role
      ensures q in RemoveFirst(s.roles, role) <==> q in s.roles
    {
      RemoveFirstMembers(s.roles, role, q);
    }
  }

  /** Assigning a role the user did not hold and then removing it restores the role list exactly. */
  lemma {:induction false} AssignThenRemove(s: UserState, role: Role)
    requires !IsBlank(role.name) && !IsInRole(s, role)
    ensures RoleRemoved(RoleAssigned(s, role).state, role) == UserStep(s, Pass)
  {
    RemoveFirstAppended(s.roles, role);
  }

  lemma {:induction false} RemoveFirstAppended(s: seq<Role>, x: Role)
    requires x !in s
    ensures RemoveFirst(s + [x], x) == s
    decreases |s|
  {
    if s == [] {
    } else {
      assert (s + [x])[1..] == s[1..] + [x];
      RemoveFirstAppended(s[1..], x);
      assert [s[0]] + s[1..] == s;
    }
  }

  /** UpdateName raises no event; it completes iff both names are valid, and may leave only the first name changed. */
  lemma UpdateNameFacts(s: UserState, first: string, last: string)
    ensures var u := NameUpdated(s, first, last);
      && u.state.events == s.events && u.state.roles == s.roles && u.state.id == s.id
      && (u.completed <==> IsValidName(first) && IsValidName(last))
      && (u.completed ==> u.state.firstName.value == first && u.state.lastName.value == last)
      && (IsValidName(first) ==> u.state.firstName == FirstName(first))
      && (!IsValidName(first) ==> u.state == s)
      && (IsValidName(first) && !IsValidName(last) ==> u.state == s.(firstName := FirstName(first)))
  {
  }

  // ---------------------------------------------------------------- User, as an object

  class User {
    const root: AggregateRoot
    var email: Email
    var passwordHash: string
    var firstName: FirstName
    var lastName: LastName
    var roles: seq<Role>

    ghost predicate Valid()
      reads this
    {
      Distinct(roles)
    }

    function State(): UserState
      reads this, root
    {
      UserState(root.id, email, passwordHash, firstName, lastName, roles, root.domainEvents)
    }

    constructor Init(id: Guid, email: Email, passwordHash: string, f: FirstName, l: LastName)
      ensures fresh(root) && Valid()
      ensures State() == UserState(id, email, passwordHash, f, l, [], [])
    {
      root := new AggregateRoot(id);
      this.email, this.passwordHash := email, passwordHash;
      firstName, lastName := f, l;
      roles := [];
    }

    /** User.Create; the id of the new aggregate and of its event are supplied by the caller. */
    static method Create(id: Guid, email: Email, passwordHash: string, f: FirstName, l: LastName, role: Role, eventId: Guid)
      returns (user: User)
      ensures fresh(user) && fresh(user.root) && user.Valid()
      ensures user.State() == Register(id, email, passwordHash, f, l, role, eventId)
    {
      user := new User.Init(id, email, passwordHash, f, l);
      var _ := user.AssignRole(role);
      user.root.RaiseDomainEvent(UserRegistered(eventId, user.root.id));
    }

    method ChangeName(f: FirstName, l: LastName, eventId: Guid)
      modifies this, root
      ensures State() == NameChanged(old(State()), f, l, eventId)
      ensures roles == old(roles)
    {
      if firstName != f || lastName != l {
        root.RaiseDomainEvent(UserNameChanged(eventId, root.id));
      }
      firstName, lastName := f, l;
    }

    predicate IsInRole(role: Role)
      reads this
    {
      role in roles
    }

    method AssignRole(role: Role) returns (r: Outcome)
      requires Valid()
      modifies this`roles
      ensures Valid()
      ensures UserStep(State(), r) == RoleAssigned(old(State()), role)
    {
      if IsBlank(role.name) {
        return Fail(UserInvalidRoleName);
      }
      WithRoleDistinct(roles, role);
      if !IsInRole(role) {
        roles := roles + [role];
      }
      return Pass;
    }

    method RemoveRole(role: Role) returns (r: Outcome)
      requires Valid()
      modifies this`roles
      ensures Valid()
      ensures UserStep(State(), r) == RoleRemoved(old(State()), role)
    {
      if IsBlank(role.name) {
        return Fail(UserInvalidRoleName);
      }
      if !IsInRole(role) {
        return Fail(UserRoleNotAssigned(role.id));
      }
      RemoveFirstDistinct(roles, role);
      roles := RemoveFirst(roles, role);
      return Pass;
    }

    /** `completed` is false where the source throws from reading Value of a failed Create. */
    method UpdateName(first: string, last: string) returns (completed: bool)
      modifies this`firstName, this`lastName
      ensures NameUpdate(State(), completed) == NameUpdated(old(State()), first, last)
    {
      var f := CreateFirstName(first);
      if f.Failure? {
        return false;
      }
      firstName := f.value;
      var l := CreateLastName(last);
      if l.Failure? {
        return false;
      }
      lastName := l.value;
      return true;
    }
  }

  // ---------------------------------------------------------------- the older User entity

  /** Entities/User.cs: a user without roles, created with a given id. */
  class LegacyUser {
    const root: AggregateRoot
    var email: Email
    var passwordHash: string
    var firstName: FirstName
    var lastName: LastName

    constructor Create(id: Guid, email: Email, passwordHash: string, f: FirstName, l: LastName, eventId: Guid)
      ensures fresh(root)
      ensures root.id == id && this.email == email && this.passwordHash == passwordHash
      ensures firstName == f && lastName == l
      ensures root.domainEvents == [UserRegistered(eventId, id)]
    {
      root := new AggregateRoot(id);
      this.email, this.passwordHash := email, passwordHash;
      firstName, lastName := f, l;
      new;
      root.RaiseDomainEvent(UserRegistered(eventId, root.id));
    }

    method ChangeName(f: FirstName, l: LastName, eventId: Guid)
      modifies this, root
      ensures firstName == f && lastName == l
      ensures email == old(email) && passwordHash == old(passwordHash)
      ensures root.domainEvents
        == old(root.domainEvents) + NameChangeEvents(root.id, old(firstName), old(lastName), f, l, eventId)
    {
      if firstName != f || lastName != l {
        root.RaiseDomainEvent(UserNameChanged(eventId, root.id));
      }
      firstName, lastName := f, l;
    }
  }
}

/**
 The processors: what the service asks of users, operations and sessions. The work inside
 a `try` block is a method of its own here, so that its caller can catch, roll back and
 release.
 */
module Processors {
  import opened Prelude
  import opened Accounts
  import opened AccountRuns
  import opened RunnerDiscipline
  import opened Persistence

  /** The fields an update sets; `None` is an absent field. */
  datatype UserUpdate = UserUpdate(email: Option<string>, emailVerified: Option<bool>, password: Option<string>)

  /** `row` is `was` with the given fields set; a password is stored as its hook leaves it. */
  ghost predicate Updates(was: User, data: UserUpdate, row: User) {
    && row == User(was.id,
                   if data.email.Some? then data.email.value else was.email,
                   row.password,
                   if data.emailVerified.Some? then data.emailVerified.value else was.emailVerified)
    && if data.password.Some? then Stores(row.password, data.password.value) else row.password == was.password
  }

  /** The update by which each of the four processors applies `op`. */
  function UpdateOf(op: Operation, password: string): UserUpdate {
    match op.typ
    case SIGN_UP => UserUpdate(None, Some(true), None)
    case PASSWORD_RECOVERY => UserUpdate(None, None, Some(password))
    case PASSWORD_CHANGE => UserUpdate(None, None, if op.data.NewPassword? then op.data.password else None)
    case EMAIL_CHANGE => UserUpdate(if op.data.NewEmail? then Some(op.data.email) else None, None, None)
  }

  lemma UpdateMakesChange(op: Operation, password: string, was: User, row: User)
    requires op.typ == EMAIL_CHANGE ==> op.data.NewEmail?
    requires Updates(was, UpdateOf(op, password), row)
    ensures Changes(op, password, was, row)
  {
  }

  ghost function CreateEffect(r: Result<Option<Operation>, Error>): Effect {
    match r
    case Ok(Some(op)) => Minted(op)
    case Ok(None) => Nothing
    case Err(error) => Failed(error)
  }

  ghost function ApplyEffect(r: Result<Option<Operation>, Error>): Effect {
    match r
    case Ok(Some(op)) => Applied(op)
    case Ok(None) => Nothing
    case Err(error) => Failed(error)
  }

  class UsersProcessor {
    const backend: Backend

    constructor (backend: Backend)
      ensures this.backend == backend
    {
      this.backend := backend;
    }

    /** The account behind a login, looked up in lower case. */
    method AuthData(email: string) returns (r: Result<Option<User>, Error>)
      modifies backend`faults
      ensures Honest(r, old(backend.faults), backend.faults) && (r.Err? ==> r.error == Infrastructure)
      ensures r.Ok? && r.value.Some? ==>
                exists i :: i in backend.users && backend.users[i].email == ToLowerCase(email) &&
                  backend.users[i] == r.value.value
      ensures r.Ok? && r.value.None? ==> !HasEmail(backend.View(), ToLowerCase(email))
    {
      r := backend.FindUserByEmail(ToLowerCase(email));
    }

    /** Inserts an unverified user in the caller's transaction. */
    method Create(email: string, password: string, runner: QueryRunner) returns (r: Result<User, Error>)
      requires runner.backend == backend && runner.open
      modifies runner`users, backend`faults
      ensures Honest(r, old(backend.faults), backend.faults)
      ensures r.Ok? ==>
                && r.value.id !in old(runner.users)
                && r.value == User(r.value.id, ToLowerCase(email), r.value.password, false)
                && Stores(r.value.password, password)
                && runner.users == old(runner.users)[r.value.id := r.value]
      ensures r.Err? ==> runner.users == old(runner.users) && r.error in {Infrastructure, UniqueViolation}
      ensures r == Err(UniqueViolation) ==> exists i :: i in runner.users && runner.users[i].email == ToLowerCase(email)
    {
      r := runner.InsertUser(ToLowerCase(email), password, false);
      LowerCaseIdempotent(email);
    }

    /** Loads the committed row, overwrites the given fields, and saves it in the caller's
        transaction. The password column is not selected, so it is saved only when given. */
    method Update(userId: nat, data: UserUpdate, runner: QueryRunner) returns (r: Result<(), Error>)
      requires runner.backend == backend && runner.open && runner.users == backend.users && Keyed(backend.View())
      modifies runner`users, backend`faults
      ensures Honest(r, old(backend.faults), backend.faults)
      ensures r.Ok? ==>
                && userId in backend.users && userId in runner.users
                && runner.users == backend.users[userId := runner.users[userId]]
                && Updates(backend.users[userId], data, runner.users[userId])
      ensures r == Err(MissingRow) ==> userId !in backend.users
      ensures r == Err(UniqueViolation) ==>
                userId in backend.users &&
                var email := if data.email.Some? then data.email.value else backend.users[userId].email;
                exists i :: i in backend.users && i != userId && backend.users[i].email == email
      ensures r.Err? ==> r.error in {Infrastructure, MissingRow, UniqueViolation}
    {
      var found :- backend.FindUserById(userId);
      if found.None? {
        return Err(MissingRow);
      }
      var entity := found.value;
      if data.email.Some? { entity := entity.(email := data.email.value); }
      if data.emailVerified.Some? { entity := entity.(emailVerified := data.emailVerified.value); }
      if data.password.Some? { entity := entity.(password := Some(Text(data.password.value))); }
      r := runner.UpdateUser(entity);
    }
  }

  class SessionsProcessor {
    const backend: Backend

    constructor (backend: Backend)
      ensures this.backend == backend
    {
      this.backend := backend;
    }

    /** Opens a session under a fresh identifier. */
    method Create(userId: nat) returns (r: Result<Token, Error>)
      modifies backend`sessions, backend`issued, backend`faults
      ensures Honest(r, old(backend.faults), backend.faults) && (r.Err? ==> r.error == Infrastructure)
      ensures r.Ok? ==> OpensSession(old(backend.View()), userId, r.value, backend.View())
      ensures r.Err? ==> StoresUntouched(old(backend.View()), backend.View())
    {
      var session := backend.GetUUID();
      var _ :- backend.MayThrow();
      backend.sessions := backend.sessions[session := userId];
      return Ok(session);
    }

    method Find(session: Token) returns (r: Result<Option<nat>, Error>)
      modifies backend`faults
      ensures Honest(r, old(backend.faults), backend.faults) && (r.Err? ==> r.error == Infrastructure)
      ensures r.Ok? ==> r.value == if session in backend.sessions then Some(backend.sessions[session]) else None
    {
      var _ :- backend.MayThrow();
      return Ok(if session in backend.sessions then Some(backend.sessions[session]) else None);
    }

    /** Deletes by a pattern made of the user's id: some, all or none of that user's
        sessions go, whatever the cache makes of the pattern, and nobody else's. */
    method DropAll(userId: nat) returns (r: Result<(), Error>)
      modifies backend`sessions, backend`faults
      ensures Honest(r, old(backend.faults), backend.faults) && (r.Err? ==> r.error == Infrastructure)
      ensures SessionsShrink(old(backend.View()), backend.View())
      ensures forall k :: k in old(backend.sessions) && old(backend.sessions)[k] != userId ==> k in backend.sessions
    {
      var spared: set<Token> := *;
      var sessions := backend.sessions;
      backend.sessions := map k | k in sessions && (sessions[k] != userId || k in spared) :: sessions[k];
      r := backend.MayThrow();
    }
  }

  class UsersOperationsProcessor {
    const backend: Backend
    const typ: OperationType
    const users: UsersProcessor
    const sessions: SessionsProcessor

    ghost predicate Wired()
    {
      users.backend == backend && sessions.backend == backend
    }

    constructor (backend: Backend, typ: OperationType)
      ensures Wired() && this.backend == backend && this.typ == typ
    {
      this.backend := backend;
      this.typ := typ;
      this.users := new UsersProcessor(backend);
      this.sessions := new SessionsProcessor(backend);
    }

    /** Removes one pending operation of (userId, typ), if the committed table has any. */
    method Close(userId: nat, runner: QueryRunner) returns (r: Result<(), Error>)
      requires runner.backend == backend && runner.open
      modifies runner`ops, backend`faults
      ensures Honest(r, old(backend.faults), backend.faults) && (r.Err? ==> r.error == Infrastructure)
      ensures r.Err? ==> runner.ops == old(runner.ops)
      ensures r.Ok? ==>
                || (runner.ops == old(runner.ops) &&
                    !exists i :: i in backend.ops && backend.ops[i].userId == userId && backend.ops[i].typ == typ)
                || exists i ::
                     && i in backend.ops && backend.ops[i].userId == userId && backend.ops[i].typ == typ
                     && runner.ops == old(runner.ops) - {backend.ops[i].id}
    {
      var operation :- backend.FindOperationOf(userId, typ);
      if operation.None? {
        return Ok(());
      }
      r := runner.RemoveOperation(operation.value);
      if r.Ok? {
        ghost var i :|
          i in backend.ops && backend.ops[i] == operation.value && backend.ops[i].userId == userId &&
            backend.ops[i].typ == typ;
        assert runner.ops == old(runner.ops) - {backend.ops[i].id};
      }
    }

    /** In a state that keeps the invariant, closing the one operation found is closing all. */
    lemma ClosesAll(s: State, userId: nat, ops: map<nat, Operation>)
      requires Keyed(s) && OneOperationPerUserAndType(s)
      requires
        || (ops == s.ops && !exists i :: i in s.ops && s.ops[i].userId == userId && s.ops[i].typ == typ)
        || exists i :: i in s.ops && s.ops[i].userId == userId && s.ops[i].typ == typ && ops == s.ops - {s.ops[i].id}
      ensures ops == Without(s.ops, userId, typ)
    {
      if i :| i in s.ops && s.ops[i].userId == userId && s.ops[i].typ == typ {
        assert forall j :: j in s.ops ==> (s.ops[j].userId == userId && s.ops[j].typ == typ <==> j == i);
      }
    }

    /** Saves a new operation under a fresh token. */
    method CreateUserOperation(userId: nat, data: OperationData, runner: QueryRunner)
          returns (r: Result<Operation, Error>)
      requires runner.backend == backend && runner.open
      modifies runner`ops, backend`issued, backend`faults
      ensures Honest(r, old(backend.faults), backend.faults)
      ensures old(backend.issued) <= backend.issued
      ensures r.Ok? ==>
                && var op := r.value;
                   && userId in runner.users
                   && op == Operation(op.id, userId, typ, Deadline(backend.clock, typ), op.token, data)
                   && op.id !in old(runner.ops) && op.id !in backend.ops
                   && op.token !in old(backend.issued)
                   && backend.issued == old(backend.issued) + {op.token}
                   && runner.ops == old(runner.ops)[op.id := op]
      ensures r.Err? ==> r.error in {Infrastructure, ForeignKeyViolation}
      ensures r == Err(ForeignKeyViolation) ==> userId !in runner.users
    {
      var token := backend.GetUUID();
      r := runner.InsertOperation(userId, token, Deadline(backend.clock, typ), typ, data);
    }

    /** `create` of the base class on a runner of the caller, who owns the transaction: the
        runner is neither committed, rolled back nor released, and errors are passed on. */
    method CreateWithin(userId: nat, data: OperationData, runner: QueryRunner) returns (r: Result<Operation, Error>)
      requires runner.backend == backend && runner.open && runner.ops == backend.ops
      requires Keyed(backend.View()) && OneOperationPerUserAndType(backend.View())
      modifies runner`ops, backend`issued, backend`faults
      ensures Honest(r, old(backend.faults), backend.faults)
      ensures old(backend.issued) <= backend.issued
      ensures r.Ok? ==>
                && r.value.typ == typ && r.value.userId == userId
                && Mints(old(backend.View()).(users := runner.users), r.value, data,
                         backend.View().(users := runner.users, ops := runner.ops))
      ensures r.Err? ==> r.error in {Infrastructure, ForeignKeyViolation}
      ensures r == Err(ForeignKeyViolation) ==> userId !in runner.users
    {
      var _ :- Close(userId, runner);
      ClosesAll(backend.View(), userId, runner.ops);
      r := CreateUserOperation(userId, data, runner);
    }

    /** `create` of the base class without a runner: it runs in a transaction of its own,
        and an error in it is swallowed after the rollback. */
    method CreateOwned(userId: nat, data: OperationData) returns (r: Result<Option<Operation>, Error>)
      requires backend.Sound()
      modifies backend`users, backend`ops, backend`issued, backend`faults, backend`calls, backend`runners
      ensures LogSound(backend.calls, backend.runners)
      ensures backend.faults >= old(backend.faults)
      ensures r.Ok? && r.value.Some? ==>
                && backend.faults == old(backend.faults)
                && r.value.value.typ == typ && r.value.value.userId == userId
                && Mints(old(backend.View()), r.value.value, data, backend.View())
      ensures !(r.Ok? && r.value.Some?) ==>
                StoresUntouched(old(backend.View()), backend.View())
      ensures r == Ok(None) && backend.faults == old(backend.faults) ==> userId !in backend.users
      ensures r.Err? ==> r.error == Infrastructure && backend.faults > old(backend.faults)
    {
      var runner :- Begin(backend);
      var op := CreateWithin(userId, data, runner);
      assert runner.users == old(backend.users);
      var tried, rolledBack := Finish(op, runner, old(backend.calls));
      r := if tried.Ok? then Ok(Some(tried.value)) else if rolledBack.Ok? then Ok(None) else Err(rolledBack.error);
    }

    /** The user a caller names; an entity is taken as it is. */
    method FindUser(ref: UserRef) returns (r: Result<Option<User>, Error>)
      requires Inv(backend.View())
      modifies backend`faults
      ensures Honest(r, old(backend.faults), backend.faults) && (r.Err? ==> r.error == Infrastructure)
      ensures r.Ok? ==> EligibleIffAccepted(backend.View(), ref, r.value)
    {
      match ref {
        case Entity(entity) =>
          r := Ok(Some(entity));
        case Id(id) =>
          r := backend.FindWholeUser(id);
        case Email(email) =>
          r := backend.FindUserByEmail(email);
      }
      if r.Ok? {
        EligibleMeansAccepted(backend.View(), ref, r.value);
      }
    }

    /** `create` of the four processors, without a runner, up to its being recorded. */
    method CreateUnrecorded(ref: UserRef, data: OperationData) returns (r: Result<Option<Operation>, Error>)
      requires backend.Sound() && TypedData(typ, data)
      modifies backend`users, backend`ops, backend`issued, backend`faults, backend`calls, backend`runners
      ensures LogSound(backend.calls, backend.runners)
      ensures backend.faults == old(backend.faults) ==>
                CreateStep(old(backend.View()), typ, ref, data, CreateEffect(r), backend.View())
      ensures backend.faults != old(backend.faults) ==>
                r in {Ok(None), Err(Infrastructure)} && StoresUntouched(old(backend.View()), backend.View())
    {
      ghost var s := backend.View();
      var user :- FindUser(ref);
      if user.None? || !Accepts(typ, user.value) {
        RefusalIsCreateStep(s, ref, data, user);
        return Ok(None);
      }
      if typ == EMAIL_CHANGE {
        var taken :- backend.IsEmailTaken(data.email);
        if taken {
          ConflictIsCreateStep(s, ref, data, user.value);
          return Err(UserAlreadyExists);
        }
      }
      r := CreateOwned(user.value.id, data);
      if backend.faults == old(backend.faults) {
        CreatedIsCreateStep(s, ref, data, user.value, r, backend.View());
      }
    }

    /** `create` of the four processors, without a runner. An entity object that no longer
        agrees with its stored row can break the invariant, and is not recorded. */
    method Create(ref: UserRef, data: OperationData) returns (r: Result<Option<Operation>, Error>)
      requires Wired() && backend.Valid() && TypedData(typ, data)
      modifies backend
      ensures backend.faults == old(backend.faults) ==>
                CreateStep(old(backend.View()), typ, ref, data, CreateEffect(r), backend.View())
      ensures backend.faults != old(backend.faults) ==>
                r in {Ok(None), Err(Infrastructure)} && StoresUntouched(old(backend.View()), backend.View())
      ensures WellPosed(old(backend.View()), Request.Create(typ, ref, data)) ==>
                backend.Serves(Request.Create(typ, ref, data), CreateEffect(r))
    {
      backend.ValidIsSound();
      ghost var s := backend.View();
      r := CreateUnrecorded(ref, data);
      if WellPosed(s, Request.Create(typ, ref, data)) {
        CreateTakesStep(s, ref, data, r, backend.faults != old(backend.faults), backend.View());
        backend.Record(s, Event(s.now, Request.Create(typ, ref, data), CreateEffect(r),
          backend.faults != old(backend.faults)));
      }
    }

    /** The user that was looked up is the one the specification calls eligible. */
    ghost predicate EligibleIffAccepted(s: State, ref: UserRef, user: Option<User>) {
      && (forall i :: Eligible(s, typ, ref, i) <==>
           i in s.users && user.Some? && user.value.id == i && Accepts(typ, user.value))
      && (typ == EMAIL_CHANGE ==> (ReachesConflictCheck(s, ref) <==> user.Some? && Accepts(typ, user.value)))
    }

    lemma EligibleMeansAccepted(s: State, ref: UserRef, user: Option<User>)
      requires Keyed(s) && EmailsDistinct(s)
      requires ref.Entity? ==> user == Some(ref.user)
      requires ref.Id? ==> user == if ref.id in s.users then Some(s.users[ref.id]) else None
      requires ref.Email? && user.Some? ==>
               exists i :: i in s.users && s.users[i].email == ref.email && s.users[i] == user.value
      requires ref.Email? && user.None? ==> !HasEmail(s, ref.email)
      ensures EligibleIffAccepted(s, ref, user)
    {}

    lemma RefusalIsCreateStep(s: State, ref: UserRef, data: OperationData, user: Option<User>)
      requires EligibleIffAccepted(s, ref, user) && (user.None? || !Accepts(typ, user.value))
      ensures CreateStep(s, typ, ref, data, Nothing, s)
    {}

    lemma ConflictIsCreateStep(s: State, ref: UserRef, data: OperationData, user: User)
      requires EligibleIffAccepted(s, ref, Some(user)) && Accepts(typ, user)
      requires typ == EMAIL_CHANGE && data.NewEmail? && HasEmail(s, data.email)
      ensures CreateStep(s, typ, ref, data, Failed(UserAlreadyExists), s)
    {}

    lemma CreatedIsCreateStep(s: State, ref: UserRef, data: OperationData, user: User,
          r: Result<Option<Operation>, Error>, s': State)
      requires EligibleIffAccepted(s, ref, Some(user)) && Accepts(typ, user)
      requires typ == EMAIL_CHANGE && data.NewEmail? ==> !HasEmail(s, data.email)
      requires r.Ok? && r.value.Some? ==>
               r.value.value.typ == typ && r.value.value.userId == user.id && Mints(s, r.value.value, data, s')
      requires r == Ok(None) ==> StoresUntouched(s, s') && s'.sessions == s.sessions && user.id !in s.users
      requires r.Ok?
      ensures CreateStep(s, typ, ref, data, CreateEffect(r), s')
    {
      if r.value.Some? {
        assert Eligible(s, typ, ref, user.id);
      }
    }

    lemma CreateTakesStep(s: State, ref: UserRef, data: OperationData, r: Result<Option<Operation>, Error>,
          faulty: bool, s': State)
      requires WellPosed(s, Request.Create(typ, ref, data))
      requires if faulty then r in {Ok(None), Err(Infrastructure)} && StoresUntouched(s, s')
               else CreateStep(s, typ, ref, data, CreateEffect(r), s')
      ensures Path(s, [Event(s.now, Request.Create(typ, ref, data), CreateEffect(r), faulty)], s')
    {
      PathOfOne(s, Event(s.now, Request.Create(typ, ref, data), CreateEffect(r), faulty), s');
    }

    /** `create` with the runner of a caller who has just made the user. */
    method CreateFor(user: User, data: OperationData, runner: QueryRunner) returns (r: Result<Option<Operation>, Error>)
      requires runner.backend == backend && runner.open && runner.ops == backend.ops
      requires Keyed(backend.View()) && OneOperationPerUserAndType(backend.View())
      modifies runner`ops, backend`issued, backend`faults
      ensures Honest(r, old(backend.faults), backend.faults)
      ensures old(backend.issued) <= backend.issued
      ensures r.Ok? ==> (r.value.Some? <==> Accepts(typ, user))
      ensures r.Ok? && r.value.Some? ==>
                && r.value.value.typ == typ && r.value.value.userId == user.id
                && Mints(old(backend.View()).(users := runner.users), r.value.value, data,
                         backend.View().(users := runner.users, ops := runner.ops))
      ensures r == Err(ForeignKeyViolation) ==> user.id !in runner.users
      ensures r.Err? ==> r.error in {Infrastructure, ForeignKeyViolation}
    {
      if !Accepts(typ, user) {
        return Ok(None);
      }
      var op :- CreateWithin(user.id, data, runner);
      return Ok(Some(op));
    }

    // ------------------------------------------------------------ apply

    /** `apply` of the base class: finds the operation by its token, leaves it alone when
        its deadline has passed, and else closes by (user, type). */
    method ApplyToken(token: Token, runner: QueryRunner) returns (r: Result<Option<Operation>, Error>)
      requires runner.backend == backend && runner.open && runner.ops == backend.ops
      requires Keyed(backend.View()) && OneOperationPerUserAndType(backend.View()) && TokensIssuedOnce(backend.View())
      modifies runner`ops, backend`faults
      ensures Honest(r, old(backend.faults), backend.faults) && (r.Err? ==> r.error == Infrastructure)
      ensures r.Ok? && r.value.Some? ==>
                && Applicable(backend.View(), r.value.value, typ, token)
                && runner.ops == Without(backend.ops, r.value.value.userId, typ)
      ensures r.Ok? && r.value.None? ==>
                && runner.ops == backend.ops
                && !exists i :: i in backend.ops && Applicable(backend.View(), backend.ops[i], typ, token)
    {
      var operation :- backend.FindOperationByToken(token, typ);
      if operation.None? || operation.value.ttl < backend.clock {
        return Ok(None);
      }
      var _ :- Close(operation.value.userId, runner);
      ClosesAll(backend.View(), operation.value.userId, runner.ops);
      return Ok(operation);
    }

    /** What each processor makes of the row of the operation's user; a change of the
        address is refused first when somebody has it. */
    method ChangeUser(op: Operation, password: string, runner: QueryRunner) returns (r: Result<(), Error>)
      requires Wired() && runner.backend == backend && runner.open && runner.users == backend.users
      requires Keyed(backend.View()) && EmailsDistinct(backend.View())
      requires op.userId in backend.users && TypedData(op.typ, op.data)
      modifies runner`users, backend`faults
      ensures Honest(r, old(backend.faults), backend.faults)
      ensures r.Ok? ==> !Conflicts(backend.View(), op) && op.userId in backend.users && op.userId in runner.users
      ensures r.Ok? ==> runner.users == backend.users[op.userId := runner.users[op.userId]]
      ensures r.Ok? ==> Changes(op, password, backend.users[op.userId], runner.users[op.userId])
      ensures r.Err? ==> r.error in {Infrastructure, UserAlreadyExists}
      ensures r == Err(UserAlreadyExists) ==> Conflicts(backend.View(), op)
    {
      if op.typ == EMAIL_CHANGE {
        var taken :- backend.IsEmailTaken(op.data.email);
        if taken {
          return Err(UserAlreadyExists);
        }
      }
      r := users.Update(op.userId, UpdateOf(op, password), runner);
      if r.Ok? {
        UpdateMakesChange(op, password, backend.users[op.userId], runner.users[op.userId]);
      }
    }

    /** What each processor does with the operation it has closed. */
    method Perform(op: Operation, password: string, runner: QueryRunner) returns (r: Result<(), Error>)
      requires Wired() && runner.backend == backend && runner.open && runner.users == backend.users
      requires Keyed(backend.View()) && EmailsDistinct(backend.View())
      requires op.userId in backend.users && TypedData(op.typ, op.data) && op.typ == typ
      modifies runner`users, backend`sessions, backend`faults
      ensures Honest(r, old(backend.faults), backend.faults)
      ensures r.Ok? ==>
                && !Conflicts(old(backend.View()), op)
                && Applies(old(backend.View()), op, password,
                           backend.View().(users := runner.users, ops := Without(backend.ops, op.userId, op.typ)))
      ensures SessionsShrink(old(backend.View()), backend.View())
      ensures r.Err? ==> r.error in {Infrastructure, UserAlreadyExists}
      ensures r == Err(UserAlreadyExists) ==>
              Conflicts(old(backend.View()), op) && backend.sessions == old(backend.sessions)
    {
      var _ :- ChangeUser(op, password, runner);
      if typ != SIGN_UP {
        var _ :- sessions.DropAll(op.userId);
      }
      return Ok(());
    }

    /** The work of `apply` up to the commit, in the transaction's own tables. */
    method ApplyUncommitted(token: Token, password: string, runner: QueryRunner)
          returns (r: Result<Option<Operation>, Error>)
      requires Wired() && runner.backend == backend && runner.open
      requires Inv(backend.View()) && runner.users == backend.users && runner.ops == backend.ops
      modifies runner`users, runner`ops, backend`sessions, backend`faults
      ensures Honest(r, old(backend.faults), backend.faults)
      ensures r != Err(Infrastructure) ==>
                AppliedOr(old(backend.View()), token, password, r,
                          if r.Ok? then backend.View().(users := runner.users, ops := runner.ops) else backend.View())
      ensures SessionsShrink(old(backend.View()), backend.View())
    {
      ghost var s := backend.View();
      var op :- ApplyToken(token, runner);
      if op.Some? {
        var done := Perform(op.value, password, runner);
        if done.Err? {
          if done.error == UserAlreadyExists {
            assert s.ops[op.value.id] == op.value;
            assert backend.View() == s && Conflicts(s, s.ops[op.value.id]);
          }
          return Err(done.error);
        }
      }
      return Ok(op);
    }

    /** How an application ended that met no fault. */
    ghost predicate AppliedOr(s: State, token: Token, password: string, r: Result<Option<Operation>, Error>, s': State)
    {
      match r
      case Ok(Some(op)) => Applicable(s, op, typ, token) && !Conflicts(s, op) && Applies(s, op, password, s')
      case Ok(None) => s' == s && !exists i :: i in s.ops && Applicable(s, s.ops[i], typ, token)
      case Err(error) =>
        error == UserAlreadyExists && s' == s && exists i ::
          i in s.ops && Applicable(s, s.ops[i], typ, token) && Conflicts(s, s.ops[i])
    }

    lemma AppliedOrIsApplyStep(s: State, token: Token, password: string, r: Result<Option<Operation>, Error>, s': State)
      requires Keyed(s) && TokensIssuedOnce(s) && AppliedOr(s, token, password, r, s')
      ensures ApplyStep(s, typ, token, password, ApplyEffect(r), s')
    {
      if r.Ok? && r.value.Some? {
        var op := r.value.value;
        assert s.ops[op.id] == op;
        assert forall i :: i in s.ops && Applicable(s, s.ops[i], typ, token) ==> s.ops[i] == op;
      }
    }

    lemma ApplyTakesStep(s: State, token: Token, password: string, r: Result<Option<Operation>, Error>, faulty: bool,
          s': State)
      requires Inv(s)
      requires if faulty then r == Err(Infrastructure) && StoresUntouched(s, s')
               else AppliedOr(s, token, password, r, s')
      ensures Path(s, [Event(s.now, Request.Apply(typ, token, password), ApplyEffect(r), faulty)], s')
    {
      if !faulty {
        AppliedOrIsApplyStep(s, token, password, r, s');
      }
      PathOfOne(s, Event(s.now, Request.Apply(typ, token, password), ApplyEffect(r), faulty), s');
    }

    /** The transaction of `apply`, complete with its catch and finally. */
    method ApplyOwned(token: Token, password: string) returns (r: Result<Option<Operation>, Error>)
      requires Wired() && backend.Sound()
      modifies backend`users, backend`ops, backend`sessions, backend`issued, backend`faults, backend`calls,
               backend`runners
      ensures LogSound(backend.calls, backend.runners)
      ensures backend.faults == old(backend.faults) ==>
              AppliedOr(old(backend.View()), token, password, r, backend.View())
      ensures backend.faults != old(backend.faults) ==>
              r == Err(Infrastructure) && StoresUntouched(old(backend.View()), backend.View())
    {
      var runner :- Begin(backend);
      var work := ApplyUncommitted(token, password, runner);
      ghost var met := backend.faults != old(backend.faults);
      assert SessionsShrink(old(backend.View()), backend.View());
      var tried, rolledBack := Finish(work, runner, old(backend.calls));
      r := if rolledBack.Ok? then tried else Err(rolledBack.error);
      if backend.faults == old(backend.faults) {
        assert !met && r == work;
      } else {
        assert r == Err(Infrastructure);
      }
    }

    /** `apply` of the four processors. */
    method Apply(token: Token, password: string) returns (r: Result<Option<Operation>, Error>)
      requires Wired() && backend.Valid()
      modifies backend
      ensures backend.Serves(Request.Apply(typ, token, password), ApplyEffect(r))
    {
      backend.ValidIsSound();
      ghost var s := backend.View();
      r := ApplyOwned(token, password);
      ApplyTakesStep(s, token, password, r, backend.faults != old(backend.faults), backend.View());
      backend.Record(s, Event(s.now, Request.Apply(typ, token, password), ApplyEffect(r),
        backend.faults != old(backend.faults)));
    }
  }
}

/**
 The public requests. Each method is proved to take one `Step` of the account protocol
 and to keep the stores valid, whatever calls into the database, the cache or the
 notification channels throw. `effect` says which step it was.
 */
module Auth {
  import opened Prelude
  import opened Accounts
  import opened AccountRuns
  import opened RunnerDiscipline
  import opened Persistence
  import opened Processors
  import opened Notifications

  ghost function SessionEffect(r: Result<Token, Error>): Effect {
    match r
    case Ok(session) => SessionOpened(session)
    case Err(error) => Failed(error)
  }

  class AuthService {
    const backend: Backend
    const users: UsersProcessor
    const sessions: SessionsProcessor
    const signUps: UsersOperationsProcessor
    const recoveries: UsersOperationsProcessor
    const notifications: Broadcast

    ghost predicate Wired() {
      && users.backend == backend && sessions.backend == backend
      && signUps.backend == backend && signUps.Wired() && signUps.typ == SIGN_UP
      && recoveries.backend == backend && recoveries.Wired() && recoveries.typ == PASSWORD_RECOVERY
    }

    ghost predicate Valid()
      reads backend
    {
      Wired() && backend.Valid()
    }

    constructor (backend: Backend, notifications: Broadcast)
      requires backend.Valid()
      ensures Valid() && this.backend == backend && this.notifications == notifications
    {
      this.backend := backend;
      this.notifications := notifications;
      users := new UsersProcessor(backend);
      sessions := new SessionsProcessor(backend);
      signUps := new UsersOperationsProcessor(backend, SIGN_UP);
      recoveries := new UsersOperationsProcessor(backend, PASSWORD_RECOVERY);
    }

    /** The user and its sign-up operation, in the caller's transaction. */
    method SignUpWork(email: string, password: string, runner: QueryRunner)
          returns (r: Result<(User, Operation), Error>)
      requires Wired() && Keyed(backend.View()) && OneOperationPerUserAndType(backend.View())
      requires runner.backend == backend && runner.open && runner.users == backend.users && runner.ops == backend.ops
      requires !HasEmail(backend.View(), ToLowerCase(email))
      modifies runner`users, runner`ops, backend`issued, backend`faults
      ensures Honest(r, old(backend.faults), backend.faults) && (r.Err? ==> r.error == Infrastructure)
      ensures old(backend.issued) <= backend.issued
      ensures r.Ok? ==>
                SignsUp(old(backend.View()), email, password, r.value.0, r.value.1,
                        backend.View().(users := runner.users, ops := runner.ops))
    {
      var user :- users.Create(email, password, runner);
      var op :- signUps.CreateFor(user, NoData, runner);
      return Ok((user, op.value));
    }

    method SignUp(email: string, password: string) returns (r: Result<(), Error>, ghost effect: Effect)
      requires Valid()
      modifies backend, notifications`attempts
      ensures backend.Serves(Request.SignUp(email, password), effect)
      ensures r == if effect.Failed? then Err(effect.error) else Ok(())
      ensures notifications.attempts == old(notifications.attempts) + SignUpMessages(email, effect)
    {
      backend.ValidIsSound();
      ghost var s := backend.View();
      r, effect := SignUpUnrecorded(email, password);
      SignUpTakesStep(s, email, password, effect, backend.faults != old(backend.faults), backend.View());
      backend.Record(s, Event(s.now, Request.SignUp(email, password), effect, backend.faults != old(backend.faults)));
    }

    method SignUpUnrecorded(email: string, password: string) returns (r: Result<(), Error>, ghost effect: Effect)
      requires Wired() && backend.Sound()
      modifies backend`users, backend`ops, backend`issued, backend`faults, backend`calls, backend`runners,
               notifications`attempts
      ensures LogSound(backend.calls, backend.runners)
      ensures backend.faults == old(backend.faults) ==>
              SignUpStep(old(backend.View()), email, password, effect, backend.View())
      ensures backend.faults != old(backend.faults) ==>
              effect == Failed(Infrastructure) && StoresUntouched(old(backend.View()), backend.View())
      ensures r == if effect.Failed? then Err(effect.error) else Ok(())
      ensures notifications.attempts == old(notifications.attempts) + SignUpMessages(email, effect)
    {
      var user := users.AuthData(email);
      if user.Err? {
        r, effect := Err(user.error), Failed(user.error);
      } else if user.value.Some? {
        r, effect := Err(UserAlreadyExists), Failed(UserAlreadyExists);
      } else {
        r, effect := SignUpOwned(email, password);
      }
    }

    lemma SignUpTakesStep(s: State, email: string, password: string, effect: Effect, faulty: bool, s': State)
      requires if faulty then effect == Failed(Infrastructure) && StoresUntouched(s, s')
               else SignUpStep(s, email, password, effect, s')
      ensures Path(s, [Event(s.now, Request.SignUp(email, password), effect, faulty)], s')
    {
      PathOfOne(s, Event(s.now, Request.SignUp(email, password), effect, faulty), s');
    }

    /** The transaction of a sign-up, complete with its catch and finally. */
    method SignUpOwned(email: string, password: string) returns (r: Result<(), Error>, ghost effect: Effect)
      requires Wired() && backend.Sound() && !HasEmail(backend.View(), ToLowerCase(email))
      modifies backend`users, backend`ops, backend`issued, backend`faults, backend`calls, backend`runners,
               notifications`attempts
      ensures LogSound(backend.calls, backend.runners)
      ensures backend.faults == old(backend.faults) ==>
                && effect.SignedUp?
                && SignsUp(old(backend.View()), email, password, effect.user, effect.op, backend.View())
      ensures backend.faults != old(backend.faults) ==>
              effect == Failed(Infrastructure) && StoresUntouched(old(backend.View()), backend.View())
      ensures r == if effect.Failed? then Err(effect.error) else Ok(())
      ensures notifications.attempts == old(notifications.attempts) + SignUpMessages(email, effect)
    {
      ghost var before := backend.calls;
      var begun := Begin(backend);
      if begun.Err? {
        r, effect := Err(begun.error), Failed(begun.error);
        return;
      }
      assert backend.View() == old(backend.View());
      r, effect := SignUpIn(email, password, begun.value, before);
    }

    ghost function SignUpMessages(email: string, effect: Effect): seq<Attempt> {
      if effect.SignedUp? || effect.Minted? then
        FanOut(notifications.services, SIGN_UP, Payload(ToLowerCase(email), effect.op.token))
      else
        []
    }

    /** The transaction around the `try` block: whatever is thrown in it, the runner is
        settled, and a committed one is not rolled back. */
    method SignUpIn(email: string, password: string, runner: QueryRunner, ghost before: seq<RunnerCall>)
        returns (r: Result<(), Error>, ghost effect: Effect)
      requires Wired() && !HasEmail(backend.View(), ToLowerCase(email))
      requires Keyed(backend.View()) && OneOperationPerUserAndType(backend.View())
      requires runner.backend == backend && runner.open && runner.users == backend.users && runner.ops == backend.ops
      requires LogSound(before, runner.id) && backend.runners == runner.id + 1
      requires backend.calls == before + [RunnerCall(runner.id, START, true)]
      modifies runner, backend`users, backend`ops, backend`issued, backend`faults, backend`calls, notifications`attempts
      ensures LogSound(backend.calls, backend.runners)
      ensures backend.faults == old(backend.faults) ==>
                && effect.SignedUp?
                && SignsUp(old(backend.View()), email, password, effect.user, effect.op, backend.View())
      ensures backend.faults != old(backend.faults) ==>
                effect == Failed(Infrastructure) && StoresUntouched(old(backend.View()), backend.View())
      ensures backend.faults >= old(backend.faults)
      ensures r == if effect.Failed? then Err(effect.error) else Ok(())
      ensures notifications.attempts == old(notifications.attempts) + SignUpMessages(email, effect)
    {
      var tried;
      tried, effect := SignUpTry(email, password, runner, before);
      var rolledBack := Settle(tried.Ok?, runner, before);
      r := if tried.Ok? then Ok(()) else if rolledBack.Ok? then Err(tried.error) else Err(rolledBack.error);
    }

    /** The `try` block. The channels are notified after the commit: that they cannot throw
        is what keeps a committed transaction from being rolled back. */
    method SignUpTry(email: string, password: string, runner: QueryRunner, ghost before: seq<RunnerCall>)
        returns (tried: Result<(User, Operation), Error>, ghost effect: Effect)
      requires Wired() && !HasEmail(backend.View(), ToLowerCase(email))
      requires Keyed(backend.View()) && OneOperationPerUserAndType(backend.View())
      requires runner.backend == backend && runner.open && runner.users == backend.users && runner.ops == backend.ops
      requires backend.calls == before + [RunnerCall(runner.id, START, true)]
      modifies runner, backend`users, backend`ops, backend`issued, backend`faults, backend`calls, notifications`attempts
      ensures runner.open <==> tried.Err?
      ensures TriedOnce(before, backend.calls, runner.id, tried.Ok?)
      ensures Honest(tried, old(backend.faults), backend.faults)
      ensures tried.Ok? ==>
                && effect == SignedUp(tried.value.0, tried.value.1)
                && SignsUp(old(backend.View()), email, password, effect.user, effect.op, backend.View())
      ensures tried.Err? ==>
                tried.error == Infrastructure && effect == Failed(tried.error) &&
                  StoresUntouched(old(backend.View()), backend.View())
      ensures notifications.attempts == old(notifications.attempts) + SignUpMessages(email, effect)
    {
      var work := SignUpWork(email, password, runner);
      tried := TryCommit(work, runner, before);
      effect := Announce(email, tried);
    }

    /** Tells the channels about a sign-up that has been committed. */
    method Announce(email: string, tried: Result<(User, Operation), Error>) returns (ghost effect: Effect)
      requires tried.Ok? ==> tried.value.0.email == ToLowerCase(email)
      modifies notifications`attempts
      ensures effect == if tried.Ok? then SignedUp(tried.value.0, tried.value.1) else Failed(tried.error)
      ensures notifications.attempts == old(notifications.attempts) + SignUpMessages(email, effect)
    {
      if tried.Ok? {
        effect := SignedUp(tried.value.0, tried.value.1);
        LowerCaseIdempotent(email);
        notifications.Notify(SIGN_UP, Payload(ToLowerCase(tried.value.0.email), tried.value.1.token));
      } else {
        effect := Failed(tried.error);
      }
    }

    method SignUpConfirm(token: Token) returns (r: Result<(), Error>, ghost effect: Effect)
      requires Valid()
      modifies backend
      ensures backend.Serves(Request.Apply(SIGN_UP, token, ""), effect)
      ensures r == if effect.Applied? then Ok(()) else if effect.Failed? then Err(effect.error)
              else Err(OperationNotFound)
    {
      var applied := signUps.Apply(token, "");
      effect := ApplyEffect(applied);
      r := match applied
        case Ok(Some(_)) => Ok(())
        case Ok(None) => Err(OperationNotFound)
        case Err(error) => Err(error);
    }

    method SignUpResend(email: string) returns (r: Result<(), Error>, ghost effect: Effect)
      requires Valid()
      modifies backend, notifications`attempts
      ensures backend.Serves(Request.Create(SIGN_UP, Email(ToLowerCase(email)), NoData), effect)
      ensures r == if effect.Failed? then Err(effect.error) else Ok(())
      ensures notifications.attempts == old(notifications.attempts) + SignUpMessages(email, effect)
    {
      var created := signUps.Create(Email(ToLowerCase(email)), NoData);
      effect := CreateEffect(created);
      if created.Err? {
        r := Err(created.error);
        return;
      }
      if created.value.Some? {
        notifications.Notify(SIGN_UP, Payload(ToLowerCase(email), created.value.value.token));
      }
      r := Ok(());
    }

    /** The address is looked up, and written to, as it is spelled. */
    method PasswordRecovery(email: string) returns (r: Result<(), Error>, ghost effect: Effect)
      requires Valid()
      modifies backend, notifications`attempts
      ensures backend.Serves(Request.Create(PASSWORD_RECOVERY, Email(email), NoData), effect)
      ensures r == if effect.Failed? then Err(effect.error) else Ok(())
      ensures notifications.attempts == old(notifications.attempts) +
              if effect.Minted? then FanOut(notifications.services, PASSWORD_RECOVERY,
                  Payload(email, effect.op.token)) else []
    {
      var created := recoveries.Create(Email(email), NoData);
      effect := CreateEffect(created);
      if created.Err? {
        r := Err(created.error);
        return;
      }
      if created.value.Some? {
        notifications.Notify(PASSWORD_RECOVERY, Payload(email, created.value.value.token));
      }
      r := Ok(());
    }

    method PasswordRecoveryConfirm(token: Token, password: string) returns (r: Result<(), Error>, ghost effect: Effect)
      requires Valid()
      modifies backend
      ensures backend.Serves(Request.Apply(PASSWORD_RECOVERY, token, password), effect)
      ensures r == if effect.Failed? then Err(effect.error) else Ok(())
    {
      var applied := recoveries.Apply(token, password);
      effect := ApplyEffect(applied);
      r := if applied.Err? then Err(applied.error) else Ok(());
    }

    method SignIn(email: string, password: string) returns (r: Result<Token, Error>, ghost effect: Effect)
      requires Valid()
      modifies backend`sessions, backend`issued, backend`faults, backend`history
      ensures backend.Serves(Request.SignIn(email, password), effect)
      ensures effect == SessionEffect(r)
    {
      ReachableInv(backend.history, backend.View());
      ghost var s := backend.View();
      r := SignInWork(email, password);
      effect := SessionEffect(r);
      SignInTakesStep(s, email, password, effect, backend.faults != old(backend.faults), backend.View());
      backend.Record(s, Event(s.now, Request.SignIn(email, password), effect, backend.faults != old(backend.faults)));
    }

    lemma SignInTakesStep(s: State, email: string, password: string, effect: Effect, faulty: bool, s': State)
      requires if faulty then effect == Failed(Infrastructure) && StoresUntouched(s, s')
               else SignInStep(s, email, password, effect, s')
      ensures Path(s, [Event(s.now, Request.SignIn(email, password), effect, faulty)], s')
    {
      PathOfOne(s, Event(s.now, Request.SignIn(email, password), effect, faulty), s');
    }

    method SignInWork(email: string, password: string) returns (r: Result<Token, Error>)
      requires Wired() && Keyed(backend.View()) && EmailsDistinct(backend.View())
      modifies backend`sessions, backend`issued, backend`faults
      ensures backend.faults == old(backend.faults) ==>
                SignInStep(old(backend.View()), email, password, SessionEffect(r), backend.View())
      ensures backend.faults != old(backend.faults) ==>
              r == Err(Infrastructure) && StoresUntouched(old(backend.View()), backend.View())
    {
      var user :- users.AuthData(email);
      if user.None? || !PasswordCompare(user.value.password, password) {
        return Err(WrongPassword);
      }
      ghost var i :| i in backend.users && backend.users[i] == user.value &&
          backend.users[i].email == ToLowerCase(email);
      assert Opens(backend.View(), i, email, password);
      if !user.value.emailVerified {
        return Err(NotVerified);
      }
      r := sessions.Create(user.value.id);
    }

    /** `session` is what the refresh token names; its record is looked up first. */
    method Refresh(session: Token) returns (r: Result<Token, Error>, ghost effect: Effect)
      requires Valid()
      modifies backend`sessions, backend`issued, backend`faults, backend`history
      ensures backend.Serves(Request.Refresh(session), effect)
      ensures effect == SessionEffect(r)
    {
      ghost var s := backend.View();
      r := RefreshWork(session);
      effect := SessionEffect(r);
      RefreshTakesStep(s, session, effect, backend.faults != old(backend.faults), backend.View());
      backend.Record(s, Event(s.now, Request.Refresh(session), effect, backend.faults != old(backend.faults)));
    }

    method RefreshWork(session: Token) returns (r: Result<Token, Error>)
      requires Wired()
      modifies backend`sessions, backend`issued, backend`faults
      ensures backend.faults == old(backend.faults) ==>
                RefreshStep(old(backend.View()), session, SessionEffect(r), backend.View())
      ensures backend.faults != old(backend.faults) ==>
              r == Err(Infrastructure) && StoresUntouched(old(backend.View()), backend.View())
    {
      var found :- sessions.Find(session);
      if found.None? {
        return Err(InvalidSession);
      }
      r := sessions.Create(found.value);
    }

    lemma RefreshTakesStep(s: State, session: Token, effect: Effect, faulty: bool, s': State)
      requires if faulty then effect == Failed(Infrastructure) && StoresUntouched(s, s')
               else RefreshStep(s, session, effect, s')
      ensures Path(s, [Event(s.now, Request.Refresh(session), effect, faulty)], s')
    {
      PathOfOne(s, Event(s.now, Request.Refresh(session), effect, faulty), s');
    }

    /** Between requests time passes and session records expire. */
    method Elapse(time: nat)
      requires Valid()
      modifies backend`clock, backend`sessions, backend`history
      ensures backend.Serves(Request.Elapse(time), Nothing)
    {
      ghost var s := backend.View();
      ElapseUnrecorded(time);
      ElapseTakesStep(s, time, backend.View());
      backend.Record(s, Event(s.now, Request.Elapse(time), Nothing, false));
    }

    method ElapseUnrecorded(time: nat)
      modifies backend`clock, backend`sessions
      ensures var s, s' := old(backend.View()), backend.View();
              SessionsShrink(s, s') && s' == s.(now := s.now + time, sessions := s'.sessions)
    {
      var kept: set<Token> := *;
      var sessions := backend.sessions;
      backend.clock := backend.clock + time;
      backend.sessions := map k | k in sessions && k in kept :: sessions[k];
    }

    lemma ElapseTakesStep(s: State, time: nat, s': State)
      requires SessionsShrink(s, s') && s' == s.(now := s.now + time, sessions := s'.sessions)
      ensures Path(s, [Event(s.now, Request.Elapse(time), Nothing, false)], s')
    {
      PathOfOne(s, Event(s.now, Request.Elapse(time), Nothing, false), s');
    }
  }
}

/**
 The stores behind the service, changed in place: the committed tables, the session
 records, the clock, and query runners that keep a transaction's own copy of the tables
 until it is committed.

 Every call may throw for reasons of its own. Such a throw is counted in `faults`.
 */
module Persistence {
  import opened Prelude
  import opened Accounts
  import opened AccountRuns
  import opened RunnerDiscipline

  /** An `Infrastructure` error comes with a fault, and nothing else does. */
  ghost predicate Honest<T>(r: Result<T, Error>, faultsBefore: nat, faultsAfter: nat) {
    faultsAfter == if r == Err(Infrastructure) then faultsBefore + 1 else faultsBefore
  }

  /** The next value of a sequence: some number that is not in use. */
  method Unused(used: set<nat>) returns (n: nat)
    ensures n !in used
  {
    n := 0;
    var rest := used;
    while rest != {}
      invariant rest <= used
      invariant forall u :: u in used && u !in rest ==> u < n
      decreases rest
    {
      var u :| u in rest;
      rest := rest - {u};
      if n <= u { n := u + 1; }
    }
  }

  class Backend {
    var users: map<nat, User>
    var ops: map<nat, Operation>
    var sessions: map<Token, nat>
    var issued: set<Token>
    var clock: int
    var runners: nat
    ghost var faults: nat
    ghost var calls: seq<RunnerCall>
    ghost var history: seq<Event>

    ghost function View(): State
      reads `users, `ops, `sessions, `issued, `clock
    {
      State(users, ops, sessions, issued, clock)
    }

    /** What holds between two requests: the stores are those that serving `history` leads
        to, and every runner handed out has had a complete life. */
    ghost predicate Valid()
      reads this
    {
      LogSound(calls, runners) && Reaches(history, View())
    }

    /** What one request relies on. */
    ghost predicate Sound()
      reads `users, `ops, `sessions, `issued, `clock, `calls, `runners
    {
      LogSound(calls, runners) && Inv(View())
    }

    lemma ValidIsSound()
      requires Valid()
      ensures Sound()
    {
      ReachableInv(history, View());
    }

    constructor ()
      ensures Valid() && Init(View()) && history == []
    {
      users, ops, sessions, issued := map[], map[], map[], {};
      runners, clock := 0, 0;
      faults, calls, history := 0, [], [];
      new;
      assert Flatten([]) == calls;
      assert Path(View(), history, View());
    }

    /** Since the old state one request was served, with this effect, and recorded. */
    twostate predicate Serves(request: Request, effect: Effect)
      reads this
    {
      var ev := Event(old(clock), request, effect, faults != old(faults));
      Valid() && Path(old(View()), [ev], View()) && history == old(history) + [ev]
    }

    /** Adds a request that has been served to the history. */
    ghost method Record(s: State, ev: Event)
      requires Reaches(history, s) && Path(s, [ev], View())
      modifies this`history
      ensures Reaches(history, View()) && history == old(history) + [ev]
    {
      PathOfOne(s, ev, View());
      OneMore(history, s, ev, View());
      history := history + [ev];
    }

    method MayThrow() returns (r: Result<(), Error>)
      modifies this`faults
      ensures r.Err? ==> r.error == Infrastructure
      ensures Honest(r, old(faults), faults)
    {
      var throws: bool := *;
      r := Ok(());
      if throws {
        faults := faults + 1;
        r := Err(Infrastructure);
      }
    }

    method GetUUID() returns (token: Token)
      modifies this`issued
      ensures token !in old(issued) && issued == old(issued) + {token}
    {
      token := Unused(issued);
      issued := issued + {token};
    }

    // Reads that are not given a runner see the committed tables.

    method FindUserByEmail(email: string) returns (r: Result<Option<User>, Error>)
      modifies this`faults
      ensures Honest(r, old(faults), faults) && (r.Err? ==> r.error == Infrastructure)
      ensures r.Ok? && r.value.Some? ==> exists i :: i in users && users[i].email == email && users[i] == r.value.value
      ensures r.Ok? && r.value.None? ==> !HasEmail(View(), email)
    {
      var _ :- MayThrow();
      if i :| i in users && users[i].email == email {
        return Ok(Some(users[i]));
      }
      return Ok(None);
    }

    /** The row without its password column, which is not selected. */
    method FindUserById(id: nat) returns (r: Result<Option<User>, Error>)
      modifies this`faults
      ensures Honest(r, old(faults), faults) && (r.Err? ==> r.error == Infrastructure)
      ensures r.Ok? ==> r.value == if id in users then Some(users[id].(password := None)) else None
    {
      var _ :- MayThrow();
      return Ok(if id in users then Some(users[id].(password := None)) else None);
    }

    /** The row with its password column selected. */
    method FindWholeUser(id: nat) returns (r: Result<Option<User>, Error>)
      modifies this`faults
      ensures Honest(r, old(faults), faults) && (r.Err? ==> r.error == Infrastructure)
      ensures r.Ok? ==> r.value == if id in users then Some(users[id]) else None
    {
      var _ :- MayThrow();
      return Ok(if id in users then Some(users[id]) else None);
    }

    method IsEmailTaken(email: string) returns (r: Result<bool, Error>)
      modifies this`faults
      ensures Honest(r, old(faults), faults) && (r.Err? ==> r.error == Infrastructure)
      ensures r.Ok? ==> (r.value <==> HasEmail(View(), email))
    {
      var _ :- MayThrow();
      return Ok(exists i :: i in users && users[i].email == email);
    }

    method FindOperationByToken(token: Token, typ: OperationType) returns (r: Result<Option<Operation>, Error>)
      modifies this`faults
      ensures Honest(r, old(faults), faults) && (r.Err? ==> r.error == Infrastructure)
      ensures r.Ok? && r.value.Some? ==>
                exists i :: i in ops && ops[i] == r.value.value && ops[i].token == token && ops[i].typ == typ
      ensures r.Ok? && r.value.None? ==> !exists i :: i in ops && ops[i].token == token && ops[i].typ == typ
    {
      var _ :- MayThrow();
      if i :| i in ops && ops[i].token == token && ops[i].typ == typ {
        return Ok(Some(ops[i]));
      }
      return Ok(None);
    }

    method FindOperationOf(userId: nat, typ: OperationType) returns (r: Result<Option<Operation>, Error>)
      modifies this`faults
      ensures Honest(r, old(faults), faults) && (r.Err? ==> r.error == Infrastructure)
      ensures r.Ok? && r.value.Some? ==>
                exists i :: i in ops && ops[i] == r.value.value && ops[i].userId == userId && ops[i].typ == typ
      ensures r.Ok? && r.value.None? ==> !exists i :: i in ops && ops[i].userId == userId && ops[i].typ == typ
    {
      var _ :- MayThrow();
      if i :| i in ops && ops[i].userId == userId && ops[i].typ == typ {
        return Ok(Some(ops[i]));
      }
      return Ok(None);
    }
  }

  class QueryRunner {
    const backend: Backend
    const id: nat
    var open: bool
    var users: map<nat, User>
    var ops: map<nat, Operation>

    constructor (backend: Backend)
      modifies backend`runners
      ensures this.backend == backend && id == old(backend.runners) && backend.runners == id + 1 && !open
    {
      this.backend := backend;
      this.id := backend.runners;
      open, users, ops := false, map[], map[];
      new;
      backend.runners := backend.runners + 1;
    }

    method StartTransaction() returns (r: Result<(), Error>)
      requires !open
      modifies this, backend`faults, backend`calls
      ensures Honest(r, old(backend.faults), backend.faults) && (r.Err? ==> r.error == Infrastructure)
      ensures backend.calls == old(backend.calls) + [RunnerCall(id, START, r.Ok?)]
      ensures open <==> r.Ok?
      ensures r.Ok? ==> users == backend.users && ops == backend.ops
    {
      r := backend.MayThrow();
      backend.calls := backend.calls + [RunnerCall(id, START, r.Ok?)];
      if r.Ok? {
        open, users, ops := true, backend.users, backend.ops;
      }
    }

    method CommitTransaction() returns (r: Result<(), Error>)
      requires open
      modifies this`open, backend`users, backend`ops, backend`faults, backend`calls
      ensures Honest(r, old(backend.faults), backend.faults) && (r.Err? ==> r.error == Infrastructure)
      ensures backend.calls == old(backend.calls) + [RunnerCall(id, COMMIT, r.Ok?)]
      ensures open <==> r.Err?
      ensures backend.users == (if r.Ok? then users else old(backend.users))
      ensures backend.ops == if r.Ok? then ops else old(backend.ops)
    {
      r := backend.MayThrow();
      backend.calls := backend.calls + [RunnerCall(id, COMMIT, r.Ok?)];
      if r.Ok? {
        backend.users, backend.ops, open := users, ops, false;
      }
    }

    /** Only an open transaction may be rolled back, so never a committed one. */
    method RollbackTransaction() returns (r: Result<(), Error>)
      requires open
      modifies this`open, backend`faults, backend`calls
      ensures Honest(r, old(backend.faults), backend.faults) && (r.Err? ==> r.error == Infrastructure)
      ensures backend.calls == old(backend.calls) + [RunnerCall(id, ROLLBACK, r.Ok?)]
      ensures !open
    {
      r := backend.MayThrow();
      backend.calls := backend.calls + [RunnerCall(id, ROLLBACK, r.Ok?)];
      open := false;
    }

    method Release()
      requires !open
      modifies backend`calls
      ensures backend.calls == old(backend.calls) + [RunnerCall(id, RELEASE, true)]
    {
      backend.calls := backend.calls + [RunnerCall(id, RELEASE, true)];
    }

    /** Saves a new user: the insert hooks lower-case the address and hash the password. */
    method InsertUser(email: string, password: string, emailVerified: bool) returns (r: Result<User, Error>)
      requires open
      modifies this`users, backend`faults
      ensures Honest(r, old(backend.faults), backend.faults)
      ensures r.Ok? ==>
                && r.value.id !in old(users)
                && r.value == User(r.value.id, ToLowerCase(email), r.value.password, emailVerified)
                && Stores(r.value.password, password)
                && users == old(users)[r.value.id := r.value]
      ensures r.Ok? ==> forall i :: i in old(users) ==> i != r.value.id && old(users)[i].email != ToLowerCase(email)
      ensures r.Err? ==> users == old(users) && r.error in {Infrastructure, UniqueViolation}
      ensures r == Err(UniqueViolation) ==> exists i :: i in users && users[i].email == ToLowerCase(email)
    {
      var _ :- backend.MayThrow();
      var rowEmail := ToLowerCase(email);
      if i :| i in users && users[i].email == rowEmail {
        return Err(UniqueViolation);
      }
      var salt: nat := *;
      StoredPasswordOpensForItselfOnly(password, salt, password);
      var id := Unused(users.Keys);
      var user := User(id, rowEmail, EncryptPassword(Some(Text(password)), salt), emailVerified);
      users := users[user.id := user];
      return Ok(user);
    }

    /** Saves a loaded user: a password that is not set leaves the column alone, one that
        is set goes through the update hook. The address is stored as it is. */
    method UpdateUser(entity: User) returns (r: Result<(), Error>)
      requires open && entity.id in users
      modifies this`users, backend`faults
      ensures Honest(r, old(backend.faults), backend.faults)
      ensures r.Ok? ==>
                && entity.id in users
                && users == old(users)[entity.id := users[entity.id]]
                && (entity.password.None? ==> users[entity.id] == entity.(password := old(users)[entity.id].password))
                && (entity.password.Some? && entity.password.value.Text? ==>
                      && users[entity.id] == entity.(password := users[entity.id].password)
                      && Stores(users[entity.id].password, entity.password.value.text))
      ensures r.Err? ==> users == old(users) && r.error in {Infrastructure, UniqueViolation}
      ensures r == Err(UniqueViolation) ==> exists i :: i in users && i != entity.id && users[i].email == entity.email
    {
      var _ :- backend.MayThrow();
      if i :| i in users && i != entity.id && users[i].email == entity.email {
        return Err(UniqueViolation);
      }
      var salt: nat := *;
      var password := if entity.password.None? then users[entity.id].password
          else EncryptPassword(entity.password, salt);
      users := users[entity.id := entity.(password := password)];
      return Ok(());
    }

    method InsertOperation(userId: nat, token: Token, ttl: int, typ: OperationType, data: OperationData)
        returns (r: Result<Operation, Error>)
      requires open
      modifies this`ops, backend`faults
      ensures Honest(r, old(backend.faults), backend.faults)
      ensures r.Ok? ==>
                && userId in users
                && r.value == Operation(r.value.id, userId, typ, ttl, token, data)
                && r.value.id !in old(ops) && r.value.id !in backend.ops
                && ops == old(ops)[r.value.id := r.value]
      ensures r.Err? ==> ops == old(ops) && r.error in {Infrastructure, ForeignKeyViolation}
      ensures r == Err(ForeignKeyViolation) ==> userId !in users
    {
      var _ :- backend.MayThrow();
      if userId !in users {
        return Err(ForeignKeyViolation);
      }
      var id := Unused(ops.Keys + backend.ops.Keys);
      var op := Operation(id, userId, typ, ttl, token, data);
      ops := ops[id := op];
      return Ok(op);
    }

    method RemoveOperation(op: Operation) returns (r: Result<(), Error>)
      requires open
      modifies this`ops, backend`faults
      ensures Honest(r, old(backend.faults), backend.faults) && (r.Err? ==> r.error == Infrastructure)
      ensures ops == if r.Ok? then old(ops) - {op.id} else old(ops)
    {
      var _ :- backend.MayThrow();
      ops := ops - {op.id};
      return Ok(());
    }
  }

  // ---------------------------------------------------------------- the frame of every transaction

  /** Creates a runner and starts its transaction. A start that throws does so before the
      `try`, so its runner is not released. */
  method Begin(backend: Backend) returns (r: Result<QueryRunner, Error>)
    requires backend.Sound()
    modifies backend`runners, backend`faults, backend`calls
    ensures Honest(r, old(backend.faults), backend.faults) && (r.Err? ==> r.error == Infrastructure)
    ensures r.Err? ==> LogSound(backend.calls, backend.runners)
    ensures r.Ok? ==>
              && var runner := r.value;
                 && fresh(runner) && runner.backend == backend && runner.open
                 && runner.users == backend.users && runner.ops == backend.ops
                 && runner.id == old(backend.runners) && backend.runners == runner.id + 1
                 && backend.calls == old(backend.calls) + [RunnerCall(runner.id, START, true)]
  {
    var runner := new QueryRunner(backend);
    var started := runner.StartTransaction();
    if started.Err? {
      NotStartedIsSound(old(backend.calls), runner.id);
      return Err(started.error);
    }
    return Ok(runner);
  }

  /** The log of a transaction whose `try` block has ended: with a commit if it succeeded,
      else with a commit that threw or with none. */
  predicate TriedOnce(before: seq<RunnerCall>, after: seq<RunnerCall>, runner: nat, committed: bool) {
    var started := before + [RunnerCall(runner, START, true)];
    if committed then after == started + [RunnerCall(runner, COMMIT, true)]
    else after == started || after == started + [RunnerCall(runner, COMMIT, false)]
  }

  /** The end of every `try` block: commit if the work before succeeded. */
  method TryCommit<T>(work: Result<T, Error>, runner: QueryRunner, ghost before: seq<RunnerCall>)
        returns (tried: Result<T, Error>)
    requires runner.open && runner.backend.calls == before + [RunnerCall(runner.id, START, true)]
    modifies runner`open, runner.backend`users, runner.backend`ops, runner.backend`faults, runner.backend`calls
    ensures runner.open <==> tried.Err?
    ensures TriedOnce(before, runner.backend.calls, runner.id, tried.Ok?)
    ensures tried == work || (work.Ok? && tried == Err(Infrastructure))
    ensures runner.backend.faults == old(runner.backend.faults) + if tried == work then 0 else 1
    ensures runner.backend.View() ==
            if tried.Ok? then old(runner.backend.View()).(users := runner.users, ops := runner.ops)
                else old(runner.backend.View())
  {
    tried := work;
    if work.Ok? {
      var committed := runner.CommitTransaction();
      if committed.Err? {
        tried := Err(committed.error);
      }
    }
  }

  /** The `catch` and `finally` after a commit that threw or was never reached. */
  method Undo(runner: QueryRunner, ghost before: seq<RunnerCall>) returns (r: Result<(), Error>)
    requires runner.open && LogSound(before, runner.id) && runner.backend.runners == runner.id + 1
    requires TriedOnce(before, runner.backend.calls, runner.id, false)
    modifies runner`open, runner.backend`faults, runner.backend`calls
    ensures LogSound(runner.backend.calls, runner.backend.runners) &&
            runner.backend.View() == old(runner.backend.View())
    ensures Honest(r, old(runner.backend.faults), runner.backend.faults) && (r.Err? ==> r.error == Infrastructure)
  {
    ghost var attempted := runner.backend.calls != before + [RunnerCall(runner.id, START, true)];
    assert runner.backend.calls == before + [RunnerCall(runner.id, START, true)] + FailedCommit(runner.id, attempted);
    r := runner.RollbackTransaction();
    runner.Release();
    assert runner.backend.calls ==
           before + [RunnerCall(runner.id, START, true)] + FailedCommit(runner.id, attempted) +
           [RunnerCall(runner.id, ROLLBACK, r.Ok?)] + [RunnerCall(runner.id, RELEASE, true)];
    RolledBackIsSound(before, runner.id, attempted, r.Ok?);
  }

  /** The `catch` and `finally` of every transaction: roll back unless it was committed, and
      release in any case. The result is an error when the rollback itself throws. */
  method Settle(committed: bool, runner: QueryRunner, ghost before: seq<RunnerCall>) returns (r: Result<(), Error>)
    requires runner.open <==> !committed
    requires LogSound(before, runner.id) && runner.backend.runners == runner.id + 1
    requires TriedOnce(before, runner.backend.calls, runner.id, committed)
    modifies runner`open, runner.backend`faults, runner.backend`calls
    ensures LogSound(runner.backend.calls, runner.backend.runners) &&
            runner.backend.View() == old(runner.backend.View())
    ensures Honest(r, old(runner.backend.faults), runner.backend.faults) && (r.Err? ==> r.error == Infrastructure)
    ensures committed ==> r.Ok?
  {
    r := Ok(());
    if committed {
      runner.Release();
      CommittedIsSound(before, runner.id);
    } else {
      r := Undo(runner, before);
    }
  }

  /** Both together. */
  method Finish<T>(work: Result<T, Error>, runner: QueryRunner, ghost before: seq<RunnerCall>)
      returns (tried: Result<T, Error>, rolledBack: Result<(), Error>)
    requires runner.open && LogSound(before, runner.id) && runner.backend.runners == runner.id + 1
    requires runner.backend.calls == before + [RunnerCall(runner.id, START, true)]
    modifies runner`open, runner.backend`users, runner.backend`ops, runner.backend`faults, runner.backend`calls
    ensures LogSound(runner.backend.calls, runner.backend.runners)
    ensures tried == work || (work.Ok? && tried == Err(Infrastructure))
    ensures rolledBack.Err? ==> tried.Err? && rolledBack.error == Infrastructure
    ensures runner.backend.faults ==
            old(runner.backend.faults) + (if tried == work then 0 else 1) + (if rolledBack.Ok? then 0 else 1)
    ensures runner.backend.View() ==
            if tried.Ok? then old(runner.backend.View()).(users := runner.users, ops := runner.ops)
                else old(runner.backend.View())
  {
    tried := TryCommit(work, runner, before);
    rolledBack := Settle(tried.Ok?, runner, before);
  }
}

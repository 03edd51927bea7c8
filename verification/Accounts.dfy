/**
 The account protocol on values: what is stored about users, pending operations and
 sessions, what each request may do to it, and what every request keeps.

 `Step` is the specification. The classes of `Persistence`, `Processors` and `Auth`
 perform the requests in place, through transactions, and are proved to make only
 `Step`s.
 */
module Accounts {
  import opened Prelude

  type Token = nat

  // ---------------------------------------------------------------- stored values

  /** A column holding text, or what bcrypt made of a column's content. Nesting makes a
      doubly hashed password a different value from a hashed one. */
  datatype Secret = Text(text: string) | Hash(salt: nat, secret: Secret)

  /** A row of `users`, and also the entity object loaded from it. `password` is `None`
      when the column was not selected. */
  datatype User = User(id: nat, email: string, password: Option<Secret>, emailVerified: bool)

  datatype OperationType = SIGN_UP | PASSWORD_RECOVERY | PASSWORD_CHANGE | EMAIL_CHANGE

  datatype OperationData = NoData | NewPassword(password: Option<string>) | NewEmail(email: string)

  datatype Operation = Operation(
    id: nat, userId: nat, typ: OperationType, ttl: int, token: Token, data: OperationData)

  /** `issued` collects every UUID handed out so far; `now` is in milliseconds. */
  datatype State = State(
    users: map<nat, User>,
    ops: map<nat, Operation>,
    sessions: map<Token, nat>,
    issued: set<Token>,
    now: int)

  const HOUR: int := 60 * 60 * 1000

  /** The configured lifetime of each kind of operation. */
  function TtlInHours(typ: OperationType): nat {
    match typ
    case SIGN_UP => 3 * 24
    case PASSWORD_RECOVERY => 3 * 24
    case PASSWORD_CHANGE => 3 * 24
    case EMAIL_CHANGE => 3 * 24
  }

  function Deadline(now: int, typ: OperationType): int {
    now + TtlInHours(typ) * HOUR
  }

  // ---------------------------------------------------------------- e-mail case

  function LowerChar(c: char): char {
    if 'A' <= c <= 'Z' then c - 'A' + 'a' else c
  }

  function ToLowerCase(s: string): (r: string)
    ensures |r| == |s|
    ensures forall i :: 0 <= i < |s| ==> r[i] == LowerChar(s[i])
  {
    seq(|s|, i requires 0 <= i < |s| => LowerChar(s[i]))
  }

  predicate IsLowerCase(s: string) {
    ToLowerCase(s) == s
  }

  lemma LowerCaseIdempotent(s: string)
    ensures IsLowerCase(ToLowerCase(s))
  {
    var t := ToLowerCase(s);
    assert ToLowerCase(t) == t;
  }

  // ---------------------------------------------------------------- passwords

  /** JavaScript's `!!password`. */
  predicate Truthy(password: Option<Secret>) {
    password.Some? && password.value != Text("")
  }

  /** The insert/update hook: hashes whatever the password field holds. */
  function EncryptPassword(password: Option<Secret>, salt: nat): Option<Secret> {
    if Truthy(password) then Some(Hash(salt, password.value)) else password
  }

  /** bcrypt accepts exactly the text a hash was made from. */
  predicate PasswordCompare(stored: Option<Secret>, pwd: string) {
    Truthy(stored) && stored.value.Hash? && stored.value.secret == Text(pwd)
  }

  /** `stored` is what one application of the hook leaves for the plain password `p`:
      hashed exactly once, except that an empty password is stored as it is. */
  ghost predicate Stores(stored: Option<Secret>, p: string) {
    && stored.Some?
    && if p == "" then stored.value == Text("") else stored.value.Hash? && stored.value.secret == Text(p)
  }

  /** A password stored by the hook opens the account for itself only, and an empty one
      for nobody. */
  lemma StoredPasswordOpensForItselfOnly(p: string, salt: nat, pwd: string)
    ensures Stores(EncryptPassword(Some(Text(p)), salt), p)
    ensures forall stored :: Stores(stored, p) ==> (PasswordCompare(stored, pwd) <==> p == pwd && p != "")
  {}

  // ---------------------------------------------------------------- requests

  /** How a caller names the user of a new operation. */
  datatype UserRef = Entity(user: User) | Id(id: nat) | Email(email: string)

  datatype Request =
    | SignUp(email: string, password: string)
    | Create(typ: OperationType, user: UserRef, data: OperationData)
    | Apply(typ: OperationType, token: Token, password: string)
    | SignIn(email: string, password: string)
    | Refresh(session: Token)
    | Elapse(time: nat)

  datatype Error =
    | UserAlreadyExists
    | WrongPassword
    | NotVerified
    | InvalidSession
    | OperationNotFound
    | ForeignKeyViolation
    | UniqueViolation
    | MissingRow
    | Infrastructure

  /** What a request did. `Nothing` is the `undefined` that a processor returns. */
  datatype Effect =
    | SignedUp(user: User, op: Operation)
    | Minted(op: Operation)
    | Applied(op: Operation)
    | SessionOpened(session: Token)
    | Nothing
    | Failed(error: Error)

  /** One served request. `faulty` says that a call into the database or the cache threw
      while it was served. */
  datatype Event = Event(at: int, request: Request, effect: Effect, faulty: bool)

  // ---------------------------------------------------------------- the step relation

  ghost predicate HasEmail(s: State, email: string) {
    exists i :: i in s.users && s.users[i].email == email
  }

  /** The operations that are left when the ones of (userId, typ) are closed. */
  function Without(ops: map<nat, Operation>, userId: nat, typ: OperationType): map<nat, Operation> {
    map i | i in ops && !(ops[i].userId == userId && ops[i].typ == typ) :: ops[i]
  }

  ghost predicate InTable(s: State, op: Operation) {
    op.id in s.ops && s.ops[op.id] == op
  }

  /** `op` is stored, carries `token`, and its deadline has not passed. */
  ghost predicate Applicable(s: State, op: Operation, typ: OperationType, token: Token) {
    InTable(s, op) && op.typ == typ && op.token == token && s.now <= op.ttl
  }

  ghost predicate SessionsShrink(s: State, s': State) {
    forall k :: k in s'.sessions ==> k in s.sessions && s'.sessions[k] == s.sessions[k]
  }

  /** Neither a user nor an operation changed; sessions can at most have been dropped and
      UUIDs consumed. This is all a request does in which a call threw. */
  ghost predicate StoresUntouched(s: State, s': State) {
    && s'.users == s.users
    && s'.ops == s.ops
    && s'.now == s.now
    && s.issued <= s'.issued
    && SessionsShrink(s, s')
  }

  /** A fresh `op` replaces whatever was stored for its (user, type). */
  ghost predicate Mints(s: State, op: Operation, data: OperationData, s': State) {
    && op.userId in s.users
    && op.id !in s.ops
    && op.token !in s.issued
    && op.ttl == Deadline(s.now, op.typ)
    && op.data == data
    && s' == s.(ops := Without(s.ops, op.userId, op.typ)[op.id := op], issued := s.issued + {op.token})
  }

  /** Which users `create` accepts. */
  predicate Accepts(typ: OperationType, user: User) {
    match typ
    case SIGN_UP => !user.emailVerified
    case PASSWORD_RECOVERY => user.emailVerified
    case PASSWORD_CHANGE => true
    case EMAIL_CHANGE => Truthy(user.password)
  }

  /** `userId` is the user that a `create` of this type accepts for `ref`. */
  ghost predicate Eligible(s: State, typ: OperationType, ref: UserRef, userId: nat) {
    && userId in s.users
    && (ref.Entity? ==> ref.user.id == userId)
    && (ref.Id? ==> ref.id == userId)
    && (ref.Email? ==> s.users[userId].email == ref.email)
    && Accepts(typ, if ref.Entity? then ref.user else s.users[userId])
  }

  /** An e-mail change gets as far as looking whether its new address is taken. */
  ghost predicate ReachesConflictCheck(s: State, ref: UserRef) {
    match ref
    case Entity(u) => Truthy(u.password)
    case Id(i) => i in s.users && Truthy(s.users[i].password)
    case Email(e) => exists i :: i in s.users && s.users[i].email == e && Truthy(s.users[i].password)
  }

  ghost predicate CreateStep(s: State, typ: OperationType, ref: UserRef, data: OperationData, effect: Effect, s': State)
  {
    if typ == EMAIL_CHANGE && data.NewEmail? && ReachesConflictCheck(s, ref) && HasEmail(s, data.email) then
      effect == Failed(UserAlreadyExists) && s' == s
    else if exists userId :: Eligible(s, typ, ref, userId) then
      effect.Minted? && effect.op.typ == typ && Eligible(s, typ, ref, effect.op.userId) && Mints(s, effect.op, data, s')
    else
      effect == Nothing && s'.sessions == s.sessions && StoresUntouched(s, s')
  }

  /** What applying `op` makes of its user's row `u`. */
  ghost predicate Changes(op: Operation, password: string, u: User, u': User) {
    match op.typ
    case SIGN_UP => u' == u.(emailVerified := true)
    case PASSWORD_RECOVERY => u' == u.(password := u'.password) && Stores(u'.password, password)
    case PASSWORD_CHANGE =>
      if op.data.NewPassword? && op.data.password.Some? then
        u' == u.(password := u'.password) && Stores(u'.password, op.data.password.value)
      else
        u' == u
    case EMAIL_CHANGE => op.data.NewEmail? && u' == u.(email := op.data.email)
  }

  /** Applying `op` closes it, changes its user's row, and may drop that user's sessions. */
  ghost predicate Applies(s: State, op: Operation, password: string, s': State) {
    && op.userId in s.users
    && op.userId in s'.users
    && Changes(op, password, s.users[op.userId], s'.users[op.userId])
    && s'.users == s.users[op.userId := s'.users[op.userId]]
    && s'.ops == Without(s.ops, op.userId, op.typ)
    && s'.issued == s.issued
    && s'.now == s.now
    && SessionsShrink(s, s')
    && (forall k :: k in s.sessions && (op.typ == SIGN_UP || s.sessions[k] != op.userId) ==> k in s'.sessions)
  }

  ghost predicate ApplyStep(s: State, typ: OperationType, token: Token, password: string, effect: Effect, s': State) {
    if exists i :: i in s.ops && Applicable(s, s.ops[i], typ, token) then
      if exists i :: i in s.ops && Applicable(s, s.ops[i], typ, token) && Conflicts(s, s.ops[i]) then
        effect == Failed(UserAlreadyExists) && s' == s
      else
        effect.Applied? && Applicable(s, effect.op, typ, token) && Applies(s, effect.op, password, s')
    else
      effect == Nothing && s' == s
  }

  /** The address an e-mail change asks for has been taken meanwhile. */
  ghost predicate Conflicts(s: State, op: Operation) {
    op.typ == EMAIL_CHANGE && op.data.NewEmail? && HasEmail(s, op.data.email)
  }

  ghost predicate SignUpStep(s: State, email: string, password: string, effect: Effect, s': State) {
    if HasEmail(s, ToLowerCase(email)) then
      effect == Failed(UserAlreadyExists) && s' == s
    else
      effect.SignedUp? && SignsUp(s, email, password, effect.user, effect.op, s')
  }

  /** A new unverified user together with its sign-up operation. */
  ghost predicate SignsUp(s: State, email: string, password: string, u: User, op: Operation, s': State) {
    && u.id !in s.users
    && u.email == ToLowerCase(email)
    && Stores(u.password, password)
    && !u.emailVerified
    && op.typ == SIGN_UP
    && op.userId == u.id
    && Mints(s.(users := s.users[u.id := u]), op, NoData, s')
  }

  /** The account behind a login: the e-mail is looked up in lower case. */
  ghost predicate Opens(s: State, userId: nat, email: string, password: string) {
    && userId in s.users
    && s.users[userId].email == ToLowerCase(email)
    && PasswordCompare(s.users[userId].password, password)
  }

  ghost predicate OpensSession(s: State, userId: nat, session: Token, s': State) {
    && session !in s.issued
    && s' == s.(sessions := s.sessions[session := userId], issued := s.issued + {session})
  }

  ghost predicate SignInStep(s: State, email: string, password: string, effect: Effect, s': State) {
    if !exists i :: Opens(s, i, email, password) then
      effect == Failed(WrongPassword) && s' == s
    else if !exists i :: Opens(s, i, email, password) && s.users[i].emailVerified then
      effect == Failed(NotVerified) && s' == s
    else
      && effect.SessionOpened?
      && exists i :: Opens(s, i, email, password) && s.users[i].emailVerified && OpensSession(s, i, effect.session, s')
  }

  ghost predicate RefreshStep(s: State, session: Token, effect: Effect, s': State) {
    if session !in s.sessions then
      effect == Failed(InvalidSession) && s' == s
    else
      effect.SessionOpened? && OpensSession(s, s.sessions[session], effect.session, s')
  }

  /** What the typed interfaces of the processors ask of a request: the data belongs to
      the type, and an entity handed to a sign-up or recovery is an up-to-date one. A user
      can be named by id for a recovery and for an e-mail change. */
  ghost predicate WellPosed(s: State, request: Request) {
    request.Create? ==>
      && TypedData(request.typ, request.data)
      && (request.user.Id? ==> request.typ in {PASSWORD_RECOVERY, EMAIL_CHANGE})
      && (request.typ in {SIGN_UP, PASSWORD_RECOVERY} && request.user.Entity? && request.user.user.id in s.users ==>
            request.user.user.emailVerified == s.users[request.user.user.id].emailVerified)
  }

  predicate TypedData(typ: OperationType, data: OperationData) {
    match typ
    case SIGN_UP => data.NoData?
    case PASSWORD_RECOVERY => data.NoData?
    case PASSWORD_CHANGE => data.NewPassword?
    case EMAIL_CHANGE => data.NewEmail?
  }

  /** A request in which nothing threw does exactly what it should. */
  ghost predicate CleanStep(s: State, request: Request, effect: Effect, s': State) {
    match request
    case SignUp(email, password) => SignUpStep(s, email, password, effect, s')
    case Create(typ, ref, data) => CreateStep(s, typ, ref, data, effect, s')
    case Apply(typ, token, password) => ApplyStep(s, typ, token, password, effect, s')
    case SignIn(email, password) => SignInStep(s, email, password, effect, s')
    case Refresh(session) => RefreshStep(s, session, effect, s')
    case Elapse(time) =>
      && effect == Nothing
      && SessionsShrink(s, s')
      && s' == s.(now := s.now + time, sessions := s'.sessions)
  }

  /** A request in which a call threw changes no user and no operation. `create` on a
      runner of its own swallows the error and returns `undefined`. */
  ghost predicate FaultyStep(s: State, request: Request, effect: Effect, s': State) {
    && !request.Elapse?
    && StoresUntouched(s, s')
    && (effect == Failed(Infrastructure) || (request.Create? && effect == Nothing))
  }

  ghost predicate Step(s: State, ev: Event, s': State) {
    && ev.at == s.now
    && WellPosed(s, ev.request)
    && if ev.faulty then FaultyStep(s, ev.request, ev.effect, s') else CleanStep(s, ev.request, ev.effect, s')
  }

  ghost predicate Init(s: State) {
    s.users == map[] && s.ops == map[] && s.sessions == map[] && s.issued == {}
  }

  // ---------------------------------------------------------------- the invariant

  /** Rows are stored under their ids, and operations and sessions belong to stored users. */
  ghost predicate Keyed(s: State) {
    && (forall i :: i in s.users ==> s.users[i].id == i)
    && (forall i :: i in s.ops ==> s.ops[i].id == i && s.ops[i].userId in s.users)
    && (forall k :: k in s.sessions ==> s.sessions[k] in s.users)
  }

  ghost predicate OneOperationPerUserAndType(s: State) {
    forall i, j :: i in s.ops && j in s.ops && s.ops[i].userId == s.ops[j].userId && s.ops[i].typ == s.ops[j].typ ==>
      i == j
  }

  ghost predicate TokensIssuedOnce(s: State) {
    && (forall i :: i in s.ops ==> s.ops[i].token in s.issued)
    && (forall i, j :: i in s.ops && j in s.ops && s.ops[i].token == s.ops[j].token ==> i == j)
    && (forall k :: k in s.sessions ==> k in s.issued)
  }

  ghost predicate EmailsDistinct(s: State) {
    forall i, j :: i in s.users && j in s.users && s.users[i].email == s.users[j].email ==> i == j
  }

  /** `userId` has a pending sign-up. */
  ghost predicate SignUpPending(s: State, userId: nat) {
    exists i :: i in s.ops && s.ops[i].userId == userId && s.ops[i].typ == SIGN_UP
  }

  ghost predicate UnverifiedIffPending(s: State) {
    forall u :: u in s.users ==> (!s.users[u].emailVerified <==> SignUpPending(s, u))
  }

  /** Recovery operations and sessions belong to verified users. */
  ghost predicate OnlyVerifiedAct(s: State) {
    && (forall i :: i in s.ops && s.ops[i].typ == PASSWORD_RECOVERY && s.ops[i].userId in s.users ==>
          s.users[s.ops[i].userId].emailVerified)
    && (forall k :: k in s.sessions && s.sessions[k] in s.users ==> s.users[s.sessions[k]].emailVerified)
  }

  ghost predicate DataTyped(s: State) {
    forall i :: i in s.ops ==> TypedData(s.ops[i].typ, s.ops[i].data)
  }

  /** Every stored password went through the hook exactly once. */
  ghost predicate HashedOnce(s: State) {
    forall u :: u in s.users ==> exists p :: Stores(s.users[u].password, p)
  }

  ghost predicate Inv(s: State) {
    && Keyed(s)
    && OneOperationPerUserAndType(s)
    && TokensIssuedOnce(s)
    && EmailsDistinct(s)
    && UnverifiedIffPending(s)
    && OnlyVerifiedAct(s)
    && DataTyped(s)
    && HashedOnce(s)
  }

  // ---------------------------------------------------------------- every step keeps it

  lemma InitEstablishesInv(s: State)
    requires Init(s)
    ensures Inv(s)
  {}

  /** Minting for (userId, typ) keeps everything, provided the type suits the user. */
  lemma MintsKeepsInv(s: State, op: Operation, data: OperationData, s': State)
    requires Keyed(s) && OneOperationPerUserAndType(s) && TokensIssuedOnce(s) && EmailsDistinct(s)
    requires OnlyVerifiedAct(s) && DataTyped(s) && HashedOnce(s)
    requires forall u :: u in s.users && u != op.userId ==> (!s.users[u].emailVerified <==> SignUpPending(s, u))
    requires Mints(s, op, data, s') && TypedData(op.typ, data)
    requires op.typ == SIGN_UP ==> !s.users[op.userId].emailVerified
    requires op.typ != SIGN_UP ==> (!s.users[op.userId].emailVerified <==> SignUpPending(s, op.userId))
    requires op.typ == PASSWORD_RECOVERY ==> s.users[op.userId].emailVerified
    ensures Inv(s')
  {
    MintsKeepsTables(s, op, data, s');
    forall u | u in s'.users
      ensures !s'.users[u].emailVerified <==> SignUpPending(s', u)
    {
      if u == op.userId && op.typ == SIGN_UP {
        assert s'.ops[op.id] == op;
      } else {
        MintsKeepsOthersPending(s, op, data, s', u);
      }
    }
  }

  lemma MintsKeepsTables(s: State, op: Operation, data: OperationData, s': State)
    requires Keyed(s) && OneOperationPerUserAndType(s) && TokensIssuedOnce(s) && OnlyVerifiedAct(s) && DataTyped(s)
    requires Mints(s, op, data, s') && TypedData(op.typ, data)
    requires op.typ == PASSWORD_RECOVERY ==> s.users[op.userId].emailVerified
    ensures Keyed(s') && OneOperationPerUserAndType(s') && TokensIssuedOnce(s') && OnlyVerifiedAct(s') && DataTyped(s')
  {
    forall i | i in s'.ops
      ensures (i == op.id && s'.ops[i] == op) || (i != op.id && i in s.ops && s'.ops[i] == s.ops[i])
      ensures i == op.id || s.ops[i].userId != op.userId || s.ops[i].typ != op.typ
    {}
  }

  lemma MintsKeepsOthersPending(s: State, op: Operation, data: OperationData, s': State, u: nat)
    requires Mints(s, op, data, s')
    requires u != op.userId || op.typ != SIGN_UP
    ensures SignUpPending(s, u) <==> SignUpPending(s', u)
  {
    if SignUpPending(s, u) {
      var i :| i in s.ops && s.ops[i].userId == u && s.ops[i].typ == SIGN_UP;
      assert s'.ops[i] == s.ops[i];
    }
    if SignUpPending(s', u) {
      var i :| i in s'.ops && s'.ops[i].userId == u && s'.ops[i].typ == SIGN_UP;
      assert i != op.id && s.ops[i] == s'.ops[i];
    }
  }

  lemma SignUpKeepsInv(s: State, email: string, password: string, effect: Effect, s': State)
    requires Inv(s) && SignUpStep(s, email, password, effect, s')
    ensures Inv(s')
  {
    if !HasEmail(s, ToLowerCase(email)) {
      var u := effect.user;
      var mid := s.(users := s.users[u.id := u]);
      NewUserKeepsTables(s, u, mid);
      NewUserKeepsRows(s, u, password, mid);
      MintsKeepsInv(mid, effect.op, NoData, s');
    }
  }

  lemma NewUserKeepsRows(s: State, u: User, password: string, mid: State)
    requires HashedOnce(s) && UnverifiedIffPending(s) && Stores(u.password, password) &&
             mid == s.(users := s.users[u.id := u])
    ensures HashedOnce(mid)
    ensures forall v :: v in mid.users && v != u.id ==> (!mid.users[v].emailVerified <==> SignUpPending(mid, v))
  {
    forall v | v in mid.users
      ensures exists p :: Stores(mid.users[v].password, p)
    {
      if v == u.id { assert Stores(mid.users[v].password, password); }
    }
    forall v | v in mid.users && v != u.id
      ensures !mid.users[v].emailVerified <==> SignUpPending(mid, v)
    {
      assert SignUpPending(s, v) <==> SignUpPending(mid, v);
    }
  }

  lemma NewUserKeepsTables(s: State, u: User, mid: State)
    requires Keyed(s) && OneOperationPerUserAndType(s) && TokensIssuedOnce(s) && EmailsDistinct(s) && OnlyVerifiedAct(s)
    requires u.id !in s.users && !HasEmail(s, u.email) && mid == s.(users := s.users[u.id := u])
    ensures Keyed(mid) && OneOperationPerUserAndType(mid) && TokensIssuedOnce(mid) && EmailsDistinct(mid) &&
            OnlyVerifiedAct(mid)
  {}

  lemma CreateKeepsInv(s: State, typ: OperationType, ref: UserRef, data: OperationData, effect: Effect, s': State)
    requires Inv(s) && WellPosed(s, Create(typ, ref, data)) && CreateStep(s, typ, ref, data, effect, s')
    ensures Inv(s')
  {
    if effect.Minted? {
      MintsKeepsInv(s, effect.op, data, s');
    } else {
      UntouchedKeepsInv(s, s');
    }
  }

  /** A sign-up or recovery created for an entity object goes by the object's own flag.
      It keeps the invariant if and only if the stored row agrees where that matters. */
  lemma EntityMustBeUpToDate(s: State, typ: OperationType, u: User, effect: Effect, s': State)
    requires Inv(s) && typ in {SIGN_UP, PASSWORD_RECOVERY} && CreateStep(s, typ, Entity(u), NoData, effect, s')
    ensures Inv(s') <==>
            (u.id in s.users ==>
               if typ == SIGN_UP then s.users[u.id].emailVerified ==> u.emailVerified
               else u.emailVerified ==> s.users[u.id].emailVerified)
  {
    if effect.Minted? {
      var op := effect.op;
      assert op.userId == u.id && s'.users == s.users && s'.ops[op.id] == op;
      if u.emailVerified == s.users[u.id].emailVerified {
        MintsKeepsInv(s, op, NoData, s');
      } else if typ == SIGN_UP {
        assert SignUpPending(s', u.id);
      }
    } else {
      UntouchedKeepsInv(s, s');
      assert !Eligible(s, typ, Entity(u), u.id);
    }
  }

  lemma AppliesKeepsInv(s: State, op: Operation, password: string, s': State)
    requires Inv(s) && InTable(s, op) && !Conflicts(s, op) && Applies(s, op, password, s')
    ensures Inv(s')
  {
    AppliesKeepsTables(s, op, password, s');
    AppliesKeepsEmails(s, op, password, s');
    forall v | v in s'.users
      ensures exists p :: Stores(s'.users[v].password, p)
      ensures !s'.users[v].emailVerified <==> SignUpPending(s', v)
    {
      AppliesKeepsPassword(s, op, password, s', v);
      AppliesKeepsPending(s, op, password, s', v);
    }
  }

  lemma AppliesKeepsTables(s: State, op: Operation, password: string, s': State)
    requires Keyed(s) && OneOperationPerUserAndType(s) && TokensIssuedOnce(s) && OnlyVerifiedAct(s) && DataTyped(s)
    requires Applies(s, op, password, s')
    ensures Keyed(s') && OneOperationPerUserAndType(s') && TokensIssuedOnce(s') && OnlyVerifiedAct(s') && DataTyped(s')
  {
    assert s'.users.Keys == s.users.Keys;
    assert forall i :: i in s'.ops ==> i in s.ops && s'.ops[i] == s.ops[i];
    assert forall v :: v in s.users && s.users[v].emailVerified ==> s'.users[v].emailVerified;
  }

  lemma AppliesKeepsEmails(s: State, op: Operation, password: string, s': State)
    requires EmailsDistinct(s) && InTable(s, op) && !Conflicts(s, op) && Applies(s, op, password, s')
    ensures EmailsDistinct(s')
  {
    assert s'.users.Keys == s.users.Keys;
    assert forall v :: v in s.users && v != op.userId ==> s'.users[v] == s.users[v];
    if op.typ == EMAIL_CHANGE {
      assert !HasEmail(s, op.data.email);
    } else {
      assert s'.users[op.userId].email == s.users[op.userId].email;
    }
  }

  lemma AppliesKeepsPassword(s: State, op: Operation, password: string, s': State, v: nat)
    requires HashedOnce(s) && Applies(s, op, password, s') && v in s'.users
    ensures exists p :: Stores(s'.users[v].password, p)
  {
    assert v in s.users;
    var p :| Stores(s.users[v].password, p);
    if v != op.userId || s'.users[v].password == s.users[v].password {
      assert Stores(s'.users[v].password, p);
    }
  }

  lemma AppliesKeepsPending(s: State, op: Operation, password: string, s': State, v: nat)
    requires UnverifiedIffPending(s) && Keyed(s) && Applies(s, op, password, s') && v in s'.users
    ensures !s'.users[v].emailVerified <==> SignUpPending(s', v)
  {
    assert v in s.users;
    if SignUpPending(s', v) {
      var i :| i in s'.ops && s'.ops[i].userId == v && s'.ops[i].typ == SIGN_UP;
      assert s.ops[i] == s'.ops[i];
      assert v != op.userId || op.typ != SIGN_UP;
    } else if SignUpPending(s, v) {
      var i :| i in s.ops && s.ops[i].userId == v && s.ops[i].typ == SIGN_UP;
      assert i !in s'.ops;
    }
  }

  /** The invariant is about users and operations, and asks of a session only that it was
      issued to a verified user. */
  lemma SameTablesKeepInv(s: State, s': State)
    requires Inv(s) && s'.users == s.users && s'.ops == s.ops && s.issued <= s'.issued
    requires forall k :: k in s'.sessions ==>
               k in s'.issued && s'.sessions[k] in s.users && s.users[s'.sessions[k]].emailVerified
    ensures Inv(s')
  {
    assert EmailsDistinct(s') && DataTyped(s') && HashedOnce(s') && OneOperationPerUserAndType(s');
    forall u | u in s'.users
      ensures !s'.users[u].emailVerified <==> SignUpPending(s', u)
    {
      assert SignUpPending(s, u) <==> SignUpPending(s', u);
    }
  }

  lemma UntouchedKeepsInv(s: State, s': State)
    requires Inv(s) && StoresUntouched(s, s')
    ensures Inv(s')
  {
    SameTablesKeepInv(s, s');
  }

  lemma SessionKeepsInv(s: State, userId: nat, session: Token, s': State)
    requires Inv(s) && OpensSession(s, userId, session, s')
    requires userId in s.users && s.users[userId].emailVerified
    ensures Inv(s')
  {
    SameTablesKeepInv(s, s');
  }

  lemma TimeKeepsInv(s: State, time: nat, s': State)
    requires Inv(s) && SessionsShrink(s, s') && s' == s.(now := s.now + time, sessions := s'.sessions)
    ensures Inv(s')
  {
    SameTablesKeepInv(s, s');
  }

  lemma ApplyKeepsInv(s: State, typ: OperationType, token: Token, password: string, effect: Effect, s': State)
    requires Inv(s) && ApplyStep(s, typ, token, password, effect, s')
    ensures Inv(s')
  {
    if effect.Applied? {
      assert s.ops[effect.op.id] == effect.op;
      AppliesKeepsInv(s, effect.op, password, s');
    }
  }

  lemma SignInKeepsInv(s: State, email: string, password: string, effect: Effect, s': State)
    requires Inv(s) && SignInStep(s, email, password, effect, s')
    ensures Inv(s')
  {
    if effect.SessionOpened? {
      var i :| Opens(s, i, email, password) && s.users[i].emailVerified && OpensSession(s, i, effect.session, s');
      SessionKeepsInv(s, i, effect.session, s');
    }
  }

  lemma StepKeepsInv(s: State, ev: Event, s': State)
    requires Inv(s) && Step(s, ev, s')
    ensures Inv(s')
  {
    if ev.faulty {
      UntouchedKeepsInv(s, s');
    } else {
      match ev.request
      case SignUp(email, password) => SignUpKeepsInv(s, email, password, ev.effect, s');
      case Create(typ, ref, data) => CreateKeepsInv(s, typ, ref, data, ev.effect, s');
      case Apply(typ, token, password) =>
        ApplyKeepsInv(s, typ, token, password, ev.effect, s');
      case SignIn(email, password) =>
        SignInKeepsInv(s, email, password, ev.effect, s');
      case Refresh(session) =>
        if ev.effect.SessionOpened? { SessionKeepsInv(s, s.sessions[session], ev.effect.session, s'); }
      case Elapse(time) => TimeKeepsInv(s, time, s');
    }
  }
}

/**
 Theorems about whole runs of the account protocol: every sequence of requests, served
 one at a time, from an empty database.
 */
module AccountRuns {
  import opened Prelude
  import opened Accounts

  /** Serving `events` in order leads from `s` to `s'`. */
  ghost predicate Path(s: State, events: seq<Event>, s': State)
    decreases |events|
  {
    if events == [] then s' == s
    else exists mid :: Path(s, Front(events), mid) && Step(mid, Last(events), s')
  }

  /** `s` is the state after serving `events` from an empty database. */
  ghost predicate Reaches(events: seq<Event>, s: State) {
    exists s0 :: Init(s0) && Path(s0, events, s)
  }

  function Front(events: seq<Event>): seq<Event>
    requires events != []
  {
    events[..|events| - 1]
  }

  function Last(events: seq<Event>): Event
    requires events != []
  {
    events[|events| - 1]
  }

  // ---------------------------------------------------------------- moving along a run

  lemma LastStep(events: seq<Event>, s: State) returns (prev: State)
    requires events != [] && Reaches(events, s)
    ensures Reaches(Front(events), prev) && Step(prev, Last(events), s)
  {
    var s0 :| Init(s0) && Path(s0, events, s);
    prev :| Path(s0, Front(events), prev) && Step(prev, Last(events), s);
  }

  lemma OneMore(events: seq<Event>, s: State, ev: Event, s': State)
    requires Reaches(events, s) && Step(s, ev, s')
    ensures Reaches(events + [ev], s')
  {
    var s0 :| Init(s0) && Path(s0, events, s);
    assert Front(events + [ev]) == events;
    assert Path(s0, events + [ev], s');
  }

  /** A run of one event is one step. */
  lemma PathOfOne(s: State, ev: Event, s': State)
    ensures Path(s, [ev], s') <==> Step(s, ev, s')
  {
    assert Front([ev]) == [] && Last([ev]) == ev;
    assert forall mid :: Path(s, [], mid) <==> mid == s;
  }

  /** The state a run passes through before its event number `k`. */
  lemma {:induction false} StepAt(events: seq<Event>, s: State, k: nat) returns (before: State, after: State)
    requires Reaches(events, s) && k < |events|
    ensures Reaches(events[..k], before) && Step(before, events[k], after) && Reaches(events[..k + 1], after)
  {
    var prev := LastStep(events, s);
    if k == |events| - 1 {
      before, after := prev, s;
      assert events[..k + 1] == events;
    } else {
      before, after := StepAt(Front(events), prev, k);
      assert Front(events)[..k] == events[..k] && Front(events)[..k + 1] == events[..k + 1];
    }
  }

  /** The invariant holds in every reachable state: among others, an account is unverified
      if and only if it has a pending sign-up, and that one is unique. */
  lemma {:induction false} ReachableInv(events: seq<Event>, s: State)
    requires Reaches(events, s)
    ensures Inv(s)
    decreases |events|
  {
    if events == [] {
      InitEstablishesInv(s);
    } else {
      var prev := LastStep(events, s);
      ReachableInv(Front(events), prev);
      StepKeepsInv(prev, Last(events), s);
    }
  }

  lemma UnverifiedIffExactlyOneSignUp(events: seq<Event>, s: State, u: nat)
    requires Reaches(events, s) && u in s.users
    ensures !s.users[u].emailVerified <==>
            exists i :: i in s.ops && s.ops[i].userId == u && s.ops[i].typ == SIGN_UP &&
              forall j :: j in s.ops && s.ops[j].userId == u && s.ops[j].typ == SIGN_UP ==> j == i
  {
    ReachableInv(events, s);
    if !s.users[u].emailVerified {
      var i :| i in s.ops && s.ops[i].userId == u && s.ops[i].typ == SIGN_UP;
      assert forall j :: j in s.ops && s.ops[j].userId == u && s.ops[j].typ == SIGN_UP ==> j == i;
    }
  }

  /** The four ways in which a step can act on users and operations. */
  ghost predicate Acts(s: State, ev: Event, s': State) {
    && ev.at == s.now
    && s.issued <= s'.issued
    && match ev.effect
       case SignedUp(u, op) =>
         && ev.request.SignUp?
         && u.id !in s.users && op.userId == u.id && op.typ == SIGN_UP
         && u.email == ToLowerCase(ev.request.email) && Stores(u.password, ev.request.password) && !u.emailVerified
         && Mints(s.(users := s.users[u.id := u]), op, NoData, s')
       case Minted(op) =>
         ev.request.Create? && op.typ == ev.request.typ && Mints(s, op, ev.request.data, s')
       case Applied(op) =>
         && ev.request.Apply?
         && Applicable(s, op, ev.request.typ, ev.request.token)
         && Applies(s, op, ev.request.password, s')
       case _ => s'.users == s.users && s'.ops == s.ops
  }

  lemma StepActs(s: State, ev: Event, s': State)
    requires Step(s, ev, s')
    ensures Acts(s, ev, s')
  {}

  /** The last event of a run, seen as the act it was. */
  lemma LastAct(events: seq<Event>, s: State) returns (prev: State)
    requires events != [] && Reaches(events, s)
    ensures Reaches(Front(events), prev) && Inv(prev) && Acts(prev, Last(events), s)
  {
    prev := LastStep(events, s);
    ReachableInv(Front(events), prev);
    StepActs(prev, Last(events), s);
  }

  // ---------------------------------------------------------------- tokens

  predicate MintedBy(ev: Event, op: Operation) {
    (ev.effect.SignedUp? || ev.effect.Minted?) && ev.effect.op == op
  }

  predicate AppliedBy(ev: Event, op: Operation) {
    ev.effect == Applied(op)
  }

  /** `ev` closed whatever was pending for (userId, typ): it applied it or put a newer
      operation in its place. */
  predicate Closes(ev: Event, userId: nat, typ: OperationType) {
    && (ev.effect.SignedUp? || ev.effect.Minted? || ev.effect.Applied?)
    && ev.effect.op.userId == userId
    && ev.effect.op.typ == typ
  }

  /** Event `i` minted `op`, and nothing has closed its (user, type) since. */
  predicate LiveSince(events: seq<Event>, i: nat, op: Operation) {
    && i < |events|
    && MintedBy(events[i], op)
    && forall j :: i < j < |events| ==> !Closes(events[j], op.userId, op.typ)
  }

  ghost predicate Live(events: seq<Event>, op: Operation) {
    exists i: nat :: LiveSince(events, i, op)
  }

  lemma LiveByLastEvent(events: seq<Event>, op: Operation)
    requires events != []
    ensures Live(events, op) <==>
            MintedBy(Last(events), op) || (Live(Front(events), op) && !Closes(Last(events), op.userId, op.typ))
  {
    var n := |events| - 1;
    if MintedBy(events[n], op) {
      assert LiveSince(events, n, op);
    } else if Live(Front(events), op) && !Closes(events[n], op.userId, op.typ) {
      var i: nat :| LiveSince(Front(events), i, op);
      assert LiveSince(events, i, op);
    }
    if Live(events, op) && !MintedBy(events[n], op) {
      var i: nat :| LiveSince(events, i, op);
      assert i < n && !Closes(events[n], op.userId, op.typ);
      assert LiveSince(Front(events), i, op);
    }
  }

  lemma StepOnOperations(s: State, ev: Event, s': State, op: Operation)
    requires Inv(s) && Acts(s, ev, s')
    ensures InTable(s', op) <==> MintedBy(ev, op) || (InTable(s, op) && !Closes(ev, op.userId, op.typ))
  {
    match ev.effect
    case SignedUp(u, minted) => MintOnOperations(s.(users := s.users[u.id := u]), minted, NoData, s', op);
    case Minted(minted) => MintOnOperations(s, minted, ev.request.data, s', op);
    case Applied(done) =>
    case _ =>
  }

  lemma MintOnOperations(s: State, minted: Operation, data: OperationData, s': State, op: Operation)
    requires Mints(s, minted, data, s')
    ensures InTable(s', op) <==>
            op == minted || (InTable(s, op) && !(op.userId == minted.userId && op.typ == minted.typ))
  {}

  /** The table of operations is determined by the history: a stored operation is one
      that was minted and that neither an application nor a newer one has closed. */
  lemma {:induction false} StoredIffLive(events: seq<Event>, s: State, op: Operation)
    requires Reaches(events, s)
    ensures InTable(s, op) <==> Live(events, op)
    decreases |events|
  {
    if events != [] {
      var prev := LastAct(events, s);
      StoredIffLive(Front(events), prev, op);
      StepOnOperations(prev, Last(events), s, op);
      LiveByLastEvent(events, op);
    }
  }

  lemma {:induction false} MintedTokensAreIssued(events: seq<Event>, s: State, i: nat, op: Operation)
    requires Reaches(events, s) && i < |events| && MintedBy(events[i], op)
    ensures op.token in s.issued
    decreases |events|
  {
    var prev := LastAct(events, s);
    if i < |events| - 1 {
      MintedTokensAreIssued(Front(events), prev, i, op);
    }
  }

  lemma MintSetsDeadline(events: seq<Event>, s: State, i: nat, op: Operation)
    requires Reaches(events, s) && i < |events| && MintedBy(events[i], op)
    ensures op.ttl == Deadline(events[i].at, op.typ)
  {
    var before, after := StepAt(events, s, i);
  }

  /** A token names one mint of the run. */
  lemma TokensAreMintedOnce(events: seq<Event>, s: State, i: nat, j: nat, a: Operation, b: Operation)
    requires Reaches(events, s) && i < |events| && j < |events|
    requires MintedBy(events[i], a) && MintedBy(events[j], b) && a.token == b.token
    ensures i == j && a == b
  {
    if i < j {
      LaterMintIsFresh(events, s, i, j, a, b);
    } else if j < i {
      LaterMintIsFresh(events, s, j, i, b, a);
    }
  }

  lemma LaterMintIsFresh(events: seq<Event>, s: State, i: nat, j: nat, a: Operation, b: Operation)
    requires Reaches(events, s) && i < j < |events|
    requires MintedBy(events[i], a) && MintedBy(events[j], b)
    ensures a.token != b.token
  {
    var before, after := StepAt(events, s, j);
    MintedTokensAreIssued(events[..j], before, i, a);
  }

  // ---------------------------------------------------------------- addresses

  /** The address that `ev` gave to `u`, if it gave one. */
  function EmailSetBy(ev: Event, u: nat): Option<string> {
    match ev.effect
    case SignedUp(user, op) =>
      if user.id == u && ev.request.SignUp? then Some(ToLowerCase(ev.request.email)) else None
    case Applied(op) =>
      if op.userId == u && op.typ == EMAIL_CHANGE && op.data.NewEmail? then Some(op.data.email) else None
    case _ => None
  }

  function LastEmail(events: seq<Event>, u: nat): Option<string>
    decreases |events|
  {
    if events == [] then None
    else
      var email := EmailSetBy(Last(events), u);
      if email.Some? then email else LastEmail(Front(events), u)
  }

  lemma StepOnEmail(s: State, ev: Event, s': State, u: nat)
    requires DataTyped(s) && Acts(s, ev, s')
    ensures match EmailSetBy(ev, u)
            case Some(e) => u in s'.users && s'.users[u].email == e
            case None => u in s'.users <==> u in s.users
    ensures EmailSetBy(ev, u).None? && u in s.users ==> s'.users[u].email == s.users[u].email
  {}

  /** The stored address is the last one that a sign-up or an applied change gave the user,
      and only users who were given one are stored. */
  lemma {:induction false} StoredEmailIsTheLastSet(events: seq<Event>, s: State, u: nat)
    requires Reaches(events, s)
    ensures LastEmail(events, u) == if u in s.users then Some(s.users[u].email) else None
    decreases |events|
  {
    if events != [] {
      var prev := LastAct(events, s);
      StepOnEmail(prev, Last(events), s, u);
      StoredEmailIsTheLastSet(Front(events), prev, u);
    }
  }

  /** Somebody's last address is `email`. */
  ghost predicate Taken(events: seq<Event>, email: string) {
    exists u :: LastEmail(events, u) == Some(email)
  }

  lemma TakenIffStored(events: seq<Event>, s: State, email: string)
    requires Reaches(events, s)
    ensures Taken(events, email) <==> HasEmail(s, email)
  {
    if u :| LastEmail(events, u) == Some(email) {
      StoredEmailIsTheLastSet(events, s, u);
    }
    if u :| u in s.users && s.users[u].email == email {
      StoredEmailIsTheLastSet(events, s, u);
    }
  }

  // ---------------------------------------------------------------- applying a token

  /** `op` was minted for `typ` with `token`, `at` is within its lifetime, and it has neither
      been applied nor replaced. */
  ghost predicate Redeems(events: seq<Event>, op: Operation, typ: OperationType, token: Token, at: int) {
    && op.typ == typ && op.token == token
    && exists i: nat :: LiveSince(events, i, op) && at <= Deadline(events[i].at, typ)
  }

  ghost predicate Redeemable(events: seq<Event>, typ: OperationType, token: Token, at: int) {
    exists op :: Redeems(events, op, typ, token, at)
  }

  /** An e-mail change to an address that is taken. */
  ghost predicate Blocked(events: seq<Event>, op: Operation) {
    op.typ == EMAIL_CHANGE && op.data.NewEmail? && Taken(events, op.data.email)
  }

  /** The history tells which tokens can be presented, and which of those meet a conflict. */
  lemma ApplicableIffRedeems(events: seq<Event>, s: State, op: Operation, typ: OperationType, token: Token)
    requires Reaches(events, s)
    ensures Applicable(s, op, typ, token) <==> Redeems(events, op, typ, token, s.now)
    ensures Conflicts(s, op) <==> Blocked(events, op)
  {
    StoredIffLive(events, s, op);
    if op.data.NewEmail? {
      TakenIffStored(events, s, op.data.email);
    }
    if Applicable(s, op, typ, token) {
      var m: nat :| LiveSince(events, m, op);
      MintSetsDeadline(events, s, m, op);
    }
    if Redeems(events, op, typ, token, s.now) {
      var m: nat :| LiveSince(events, m, op) && s.now <= Deadline(events[m].at, typ);
      MintSetsDeadline(events, s, m, op);
    }
  }

  /** When a token of any of the four types is applied, told from the history alone: it is
      redeemable and, for an e-mail change, the address is free. If the address is taken the
      answer is a conflict, which leaves everything as it was and the token redeemable. */
  lemma ApplySucceedsIffRedeemable(events: seq<Event>, s: State, ev: Event, s': State)
    requires Reaches(events, s) && Step(s, ev, s') && ev.request.Apply?
    ensures ev.faulty ==> !ev.effect.Applied?
    ensures !ev.faulty ==>
              (ev.effect.Applied? <==>
               exists op :: Redeems(events, op, ev.request.typ, ev.request.token, ev.at) && !Blocked(events, op))
    ensures !ev.faulty ==>
              (ev.effect == Failed(UserAlreadyExists) <==>
               exists op :: Redeems(events, op, ev.request.typ, ev.request.token, ev.at) && Blocked(events, op))
    ensures ev.effect == Failed(UserAlreadyExists) ==>
              s' == s && Redeemable(events + [ev], ev.request.typ, ev.request.token, ev.at)
  {
    var typ, token := ev.request.typ, ev.request.token;
    ReachableInv(events, s);
    forall op
      ensures Applicable(s, op, typ, token) <==> Redeems(events, op, typ, token, ev.at)
      ensures Conflicts(s, op) <==> Blocked(events, op)
    {
      ApplicableIffRedeems(events, s, op, typ, token);
    }
    if op :| Redeems(events, op, typ, token, ev.at) {
      if !ev.faulty { ApplicableIsApplied(s, ev, s', op); }
      OnlyOneApplicable(s, op, typ, token);
      if ev.effect == Failed(UserAlreadyExists) {
        ConflictKeepsToken(events, op, ev);
      }
    } else {
      assert forall i :: i in s.ops ==> !Applicable(s, s.ops[i], typ, token);
    }
  }

  lemma OnlyOneApplicable(s: State, op: Operation, typ: OperationType, token: Token)
    requires Inv(s) && Applicable(s, op, typ, token)
    ensures forall other :: Applicable(s, other, typ, token) ==> other == op
  {
    assert s.ops[op.id] == op;
  }

  lemma ApplicableIsApplied(s: State, ev: Event, s': State, op: Operation)
    requires Inv(s) && Step(s, ev, s') && !ev.faulty && ev.request.Apply?
    requires Applicable(s, op, ev.request.typ, ev.request.token)
    ensures Conflicts(s, op) ==> ev.effect == Failed(UserAlreadyExists)
    ensures !Conflicts(s, op) ==> ev.effect == Applied(op) && Applies(s, op, ev.request.password, s')
  {
    ApplicableTakesEffect(s, ev.request.typ, ev.request.token, ev.request.password, ev.effect, s', op);
  }

  lemma ApplicableTakesEffect(s: State, typ: OperationType, token: Token, password: string, effect: Effect, s': State,
        op: Operation)
    requires Keyed(s) && TokensIssuedOnce(s) && ApplyStep(s, typ, token, password, effect, s')
    requires Applicable(s, op, typ, token)
    ensures Conflicts(s, op) ==> effect == Failed(UserAlreadyExists)
    ensures !Conflicts(s, op) ==> effect == Applied(op) && Applies(s, op, password, s')
  {
    assert s.ops[op.id] == op;
    assert forall i :: i in s.ops && Applicable(s, s.ops[i], typ, token) ==> s.ops[i] == op;
  }

  lemma ConflictKeepsToken(events: seq<Event>, op: Operation, ev: Event)
    requires ev.request.Apply? && ev.effect == Failed(UserAlreadyExists)
    requires Redeems(events, op, ev.request.typ, ev.request.token, ev.at)
    ensures Redeemable(events + [ev], ev.request.typ, ev.request.token, ev.at)
  {
    var m: nat :| LiveSince(events, m, op) && ev.at <= Deadline(events[m].at, op.typ);
    assert LiveSince(events + [ev], m, op);
    assert Redeems(events + [ev], op, ev.request.typ, ev.request.token, ev.at);
  }

  /** What an application tells about the history before it. */
  lemma AppliedWasLive(events: seq<Event>, s: State, k: nat, op: Operation) returns (m: nat)
    requires Reaches(events, s) && k < |events| && AppliedBy(events[k], op)
    ensures m < k && LiveSince(events[..k], m, op) && events[k].at <= op.ttl == Deadline(events[m].at, op.typ)
    ensures events[k].request.Apply? && events[k].request.token == op.token && events[k].request.typ == op.typ
  {
    var before, after := StepAt(events, s, k);
    StoredIffLive(events[..k], before, op);
    m :| LiveSince(events[..k], m, op);
    MintSetsDeadline(events, s, m, op);
  }

  /** Tokens are single-use: no two events of a run apply the same token. */
  lemma AppliedAtMostOnce(events: seq<Event>, s: State, i: nat, j: nat, a: Operation, b: Operation)
    requires Reaches(events, s) && i < |events| && j < |events|
    requires AppliedBy(events[i], a) && AppliedBy(events[j], b) && a.token == b.token
    ensures i == j
  {
    if i < j {
      SecondApplicationFails(events, s, i, j, a, b);
    } else if j < i {
      SecondApplicationFails(events, s, j, i, b, a);
    }
  }

  lemma SecondApplicationFails(events: seq<Event>, s: State, i: nat, j: nat, a: Operation, b: Operation)
    requires Reaches(events, s) && i < j < |events|
    requires AppliedBy(events[i], a) && AppliedBy(events[j], b)
    ensures a.token != b.token
  {
    var m := AppliedWasLive(events, s, i, a);
    var n := AppliedWasLive(events, s, j, b);
    if a.token == b.token {
      TokensAreMintedOnce(events, s, m, n, a, b);
      assert Closes(events[..j][i], b.userId, b.typ);
    }
  }

  /** A token is never applied after its deadline, nor once a newer operation of the same
      user and type has been minted. */
  lemma NeverLateNorSuperseded(events: seq<Event>, s: State, m: nat, k: nat, op: Operation)
    requires Reaches(events, s) && m < |events| && k < |events|
    requires MintedBy(events[m], op) && AppliedBy(events[k], op)
    ensures m < k && events[k].at <= events[m].at + 72 * HOUR
    ensures forall j, newer :: m < j < k && MintedBy(events[j], newer) ==>
            newer.userId != op.userId || newer.typ != op.typ
  {
    var n := AppliedWasLive(events, s, k, op);
    TokensAreMintedOnce(events, s, m, n, op, op);
    assert events[..k][m] == events[m];
    forall j, newer | m < j < k && MintedBy(events[j], newer)
      ensures newer.userId != op.userId || newer.typ != op.typ
    {
      assert !Closes(events[..k][j], op.userId, op.typ);
    }
  }

  /** An application takes exactly its own operation out of the table and changes nothing
      but its user's intended field; a failed one changes no user and no operation. */
  lemma ApplyTouchesOnlyItsOwn(events: seq<Event>, s: State, ev: Event, s': State)
    requires Reaches(events, s) && Step(s, ev, s') && ev.request.Apply?
    ensures !ev.effect.Applied? ==> s'.users == s.users && s'.ops == s.ops
    ensures ev.effect.Applied? ==>
              var op := ev.effect.op;
              && InTable(s, op) && op.userId in s.users
              && s'.ops == s.ops - {op.id}
              && s'.users.Keys == s.users.Keys
              && (forall v :: v in s.users && v != op.userId ==> s'.users[v] == s.users[v])
              && s'.users[op.userId].id == s.users[op.userId].id
              && (op.typ != SIGN_UP ==> s'.users[op.userId].emailVerified == s.users[op.userId].emailVerified)
              && (op.typ != EMAIL_CHANGE ==> s'.users[op.userId].email == s.users[op.userId].email)
              && (op.typ in {SIGN_UP, EMAIL_CHANGE} ==> s'.users[op.userId].password == s.users[op.userId].password)
  {
    ReachableInv(events, s);
    StepActs(s, ev, s');
    if ev.effect.Applied? {
      ClosingRemovesOne(s, ev.effect.op);
      AppliesTouchesOneField(s, ev.effect.op, ev.request.password, s');
    }
  }

  lemma AppliesTouchesOneField(s: State, op: Operation, password: string, s': State)
    requires Applies(s, op, password, s')
    ensures s'.users.Keys == s.users.Keys
    ensures forall v :: v in s.users && v != op.userId ==> s'.users[v] == s.users[v]
    ensures s'.users[op.userId].id == s.users[op.userId].id
    ensures op.typ != SIGN_UP ==> s'.users[op.userId].emailVerified == s.users[op.userId].emailVerified
    ensures op.typ != EMAIL_CHANGE ==> s'.users[op.userId].email == s.users[op.userId].email
    ensures op.typ in {SIGN_UP, EMAIL_CHANGE} ==> s'.users[op.userId].password == s.users[op.userId].password
  {}

  /** At most one operation per (user, type): what is found by token is all that is closed. */
  lemma ClosingRemovesOne(s: State, op: Operation)
    requires Keyed(s) && OneOperationPerUserAndType(s) && InTable(s, op)
    ensures Without(s.ops, op.userId, op.typ) == s.ops - {op.id}
  {
    assert forall i :: i in s.ops ==> (s.ops[i].userId == op.userId && s.ops[i].typ == op.typ <==> i == op.id);
  }

  // ---------------------------------------------------------------- verification

  lemma VerificationSurvivesStep(s: State, ev: Event, s': State, u: nat)
    requires Inv(s) && Acts(s, ev, s') && u in s.users && s.users[u].emailVerified
    ensures u in s'.users && s'.users[u].emailVerified
  {}

  /** Once verified, always verified. */
  lemma {:induction false} VerificationNeverReverts(s: State, events: seq<Event>, s': State, u: nat)
    requires Inv(s) && Path(s, events, s') && u in s.users && s.users[u].emailVerified
    ensures Inv(s') && u in s'.users && s'.users[u].emailVerified
    decreases |events|
  {
    if events != [] {
      var mid :| Path(s, Front(events), mid) && Step(mid, Last(events), s');
      VerificationNeverReverts(s, Front(events), mid, u);
      StepActs(mid, Last(events), s');
      StepKeepsInv(mid, Last(events), s');
      VerificationSurvivesStep(mid, Last(events), s', u);
    }
  }

  /** Event `k` applied a sign-up of `u`. */
  predicate ConfirmedBy(ev: Event, u: nat) {
    ev.effect.Applied? && ev.effect.op.userId == u && ev.effect.op.typ == SIGN_UP
  }

  lemma StepOnVerification(s: State, ev: Event, s': State, u: nat)
    requires Acts(s, ev, s') && u in s'.users
    ensures s'.users[u].emailVerified <==> (u in s.users && s.users[u].emailVerified) || ConfirmedBy(ev, u)
    ensures u !in s.users ==> ev.effect.SignedUp?
  {}

  lemma {:induction false} ConfirmedUsersStay(events: seq<Event>, s: State, k: nat, u: nat)
    requires Reaches(events, s) && k < |events| && ConfirmedBy(events[k], u)
    ensures u in s.users && s.users[u].emailVerified
    decreases |events|
  {
    var prev := LastAct(events, s);
    if k < |events| - 1 {
      ConfirmedUsersStay(Front(events), prev, k, u);
      VerificationSurvivesStep(prev, Last(events), s, u);
    }
  }

  lemma LastOnVerification(events: seq<Event>, s: State, u: nat) returns (prev: State)
    requires events != [] && Reaches(events, s) && u in s.users && s.users[u].emailVerified
    ensures Reaches(Front(events), prev)
    ensures (u in prev.users && prev.users[u].emailVerified) || ConfirmedBy(Last(events), u)
  {
    prev := LastAct(events, s);
    StepOnVerification(prev, Last(events), s, u);
  }

  lemma {:induction false} VerifiedWasConfirmed(events: seq<Event>, s: State, u: nat) returns (k: nat)
    requires Reaches(events, s) && u in s.users && s.users[u].emailVerified
    ensures k < |events| && ConfirmedBy(events[k], u)
    decreases |events|
  {
    var prev := LastOnVerification(events, s, u);
    if ConfirmedBy(Last(events), u) {
      k := |events| - 1;
    } else {
      k := VerifiedWasConfirmed(Front(events), prev, u);
    }
  }

  /** An account is verified if and only if a sign-up token minted for it earlier in the
      run was presented within 72 hours of its mint. */
  lemma VerifiedIffConfirmedInTime(events: seq<Event>, s: State, u: nat)
    requires Reaches(events, s) && u in s.users
    ensures s.users[u].emailVerified <==>
            exists m: nat, k: nat, op ::
              && m < k < |events|
              && MintedBy(events[m], op) && AppliedBy(events[k], op)
              && op.userId == u && op.typ == SIGN_UP
              && events[k].request.Apply? && events[k].request.token == op.token
              && events[k].at <= events[m].at + 72 * HOUR
  {
    if s.users[u].emailVerified {
      var k := VerifiedWasConfirmed(events, s, u);
      var op := events[k].effect.op;
      var m := AppliedWasLive(events, s, k, op);
      assert MintedBy(events[m], op) && AppliedBy(events[k], op);
    }
    if m: nat, k: nat, op :|
        m < k < |events| && MintedBy(events[m], op) && AppliedBy(events[k], op) && op.userId == u && op.typ == SIGN_UP {
      ConfirmedUsersStay(events, s, k, u);
    }
  }

  /** Every recovery operation and every session, refreshed ones included, belongs to a
      user who confirmed a sign-up before. */
  lemma RecoveriesAndSessionsAreOfConfirmedUsers(events: seq<Event>, s: State)
    requires Reaches(events, s)
    ensures forall i :: i in s.ops && s.ops[i].typ == PASSWORD_RECOVERY ==>
              exists k: nat :: k < |events| && ConfirmedBy(events[k], s.ops[i].userId)
    ensures forall t :: t in s.sessions ==>
              exists k: nat :: k < |events| && ConfirmedBy(events[k], s.sessions[t])
  {
    ReachableInv(events, s);
    forall i | i in s.ops && s.ops[i].typ == PASSWORD_RECOVERY
      ensures exists k: nat :: k < |events| && ConfirmedBy(events[k], s.ops[i].userId)
    {
      var k := VerifiedWasConfirmed(events, s, s.ops[i].userId);
    }
    forall t | t in s.sessions
      ensures exists k: nat :: k < |events| && ConfirmedBy(events[k], s.sessions[t])
    {
      var k := VerifiedWasConfirmed(events, s, s.sessions[t]);
    }
  }

  // ---------------------------------------------------------------- passwords

  /** The password that `ev` set for `u`, if it set one. */
  function PasswordSetBy(ev: Event, u: nat): Option<string> {
    match ev.effect
    case SignedUp(user, op) =>
      if user.id == u && ev.request.SignUp? then Some(ev.request.password) else None
    case Applied(op) =>
      if op.userId != u || !ev.request.Apply? then None
      else if op.typ == PASSWORD_RECOVERY then Some(ev.request.password)
      else if op.typ == PASSWORD_CHANGE && op.data.NewPassword? then op.data.password
      else None
    case _ => None
  }

  function LastPassword(events: seq<Event>, u: nat): Option<string>
    decreases |events|
  {
    if events == [] then None
    else
      var password := PasswordSetBy(Last(events), u);
      if password.Some? then password else LastPassword(Front(events), u)
  }

  lemma StepOnPassword(s: State, ev: Event, s': State, u: nat)
    requires DataTyped(s) && Acts(s, ev, s') && u in s'.users
    ensures match PasswordSetBy(ev, u)
            case Some(p) => Stores(s'.users[u].password, p)
            case None => u in s.users && s'.users[u].password == s.users[u].password
  {}

  /** The stored password is the last one set, hashed exactly once, however many other
      fields of the row have been updated since. */
  lemma {:induction false} StoredPasswordIsTheLastSet(events: seq<Event>, s: State, u: nat)
    requires Reaches(events, s) && u in s.users
    ensures LastPassword(events, u).Some? && Stores(s.users[u].password, LastPassword(events, u).value)
    decreases |events|
  {
    var prev := LastAct(events, s);
    StepOnPassword(prev, Last(events), s, u);
    if PasswordSetBy(Last(events), u).None? {
      StoredPasswordIsTheLastSet(Front(events), prev, u);
    }
  }

  /** A sign-up of `u` has been applied. */
  ghost predicate Confirmed(events: seq<Event>, u: nat) {
    exists k: nat :: k < |events| && ConfirmedBy(events[k], u)
  }

  lemma VerifiedIffConfirmed(events: seq<Event>, s: State, u: nat)
    requires Reaches(events, s)
    ensures Confirmed(events, u) <==> u in s.users && s.users[u].emailVerified
  {
    if k: nat :| k < |events| && ConfirmedBy(events[k], u) {
      ConfirmedUsersStay(events, s, k, u);
    }
    if u in s.users && s.users[u].emailVerified {
      var k := VerifiedWasConfirmed(events, s, u);
    }
  }

  /** Which address and password open an account, told from the history alone. */
  lemma OpensIffLastSet(events: seq<Event>, s: State, u: nat, email: string, password: string)
    requires Reaches(events, s)
    ensures Opens(s, u, email, password) <==>
            && LastEmail(events, u) == Some(ToLowerCase(email))
            && LastPassword(events, u) == Some(password)
            && password != ""
  {
    StoredEmailIsTheLastSet(events, s, u);
    if u in s.users {
      StoredPasswordIsTheLastSet(events, s, u);
      StoredPasswordOpensForItselfOnly(LastPassword(events, u).value, 0, password);
    }
  }

  /** Sign-in opens a session if and only if somebody has confirmed a sign-up, the
      lower-cased address is the last one and the password is the last one set for that user,
      and the password is not empty. */
  lemma SignInIffLastPassword(events: seq<Event>, s: State, ev: Event, s': State)
    requires Reaches(events, s) && Step(s, ev, s') && ev.request.SignIn? && !ev.faulty
    ensures ev.effect.SessionOpened? <==>
            exists u ::
              && Confirmed(events, u)
              && LastEmail(events, u) == Some(ToLowerCase(ev.request.email))
              && LastPassword(events, u) == Some(ev.request.password)
              && ev.request.password != ""
  {
    var email, password := ev.request.email, ev.request.password;
    forall u
      ensures Confirmed(events, u) <==> u in s.users && s.users[u].emailVerified
      ensures Opens(s, u, email, password) <==>
              && LastEmail(events, u) == Some(ToLowerCase(email))
              && LastPassword(events, u) == Some(password)
              && password != ""
    {
      VerifiedIffConfirmed(events, s, u);
      OpensIffLastSet(events, s, u, email, password);
    }
  }

  // ---------------------------------------------------------------- e-mail addresses

  /** Every e-mail change requested so far asks for a lower-case address. */
  predicate ChangesAreLowerCase(events: seq<Event>) {
    forall k :: 0 <= k < |events| && events[k].request.Create? && events[k].request.data.NewEmail? ==>
      IsLowerCase(events[k].request.data.email)
  }

  ghost predicate AllLowerCase(s: State) {
    && (forall u :: u in s.users ==> IsLowerCase(s.users[u].email))
    && (forall i :: i in s.ops && s.ops[i].data.NewEmail? ==> IsLowerCase(s.ops[i].data.email))
  }

  lemma StepKeepsLowerCase(s: State, ev: Event, s': State)
    requires Inv(s) && AllLowerCase(s) && Acts(s, ev, s') && ChangesAreLowerCase([ev])
    ensures AllLowerCase(s')
  {
    assert [ev][0] == ev;
    match ev.effect
    case SignedUp(u, op) =>
      LowerCaseIdempotent(ev.request.email);
      MintKeepsLowerCase(s.(users := s.users[u.id := u]), op, NoData, s');
    case Minted(op) =>
      MintKeepsLowerCase(s, op, ev.request.data, s');
    case Applied(op) =>
      ApplyKeepsLowerCase(s, op, ev.request.password, s');
    case _ =>
  }

  lemma MintKeepsLowerCase(s: State, op: Operation, data: OperationData, s': State)
    requires AllLowerCase(s) && Mints(s, op, data, s') && (data.NewEmail? ==> IsLowerCase(data.email))
    ensures AllLowerCase(s')
  {}

  lemma ApplyKeepsLowerCase(s: State, op: Operation, password: string, s': State)
    requires AllLowerCase(s) && InTable(s, op) && Applies(s, op, password, s')
    ensures AllLowerCase(s')
  {}

  lemma {:induction false} EmailsStayLowerCase(events: seq<Event>, s: State)
    requires Reaches(events, s) && ChangesAreLowerCase(events)
    ensures AllLowerCase(s)
    decreases |events|
  {
    if events != [] {
      var prev := LastAct(events, s);
      EmailsStayLowerCase(Front(events), prev);
      StepKeepsLowerCase(prev, Last(events), s);
    }
  }

  /** The address of the last e-mail change applied since `u` signed up. */
  function LastChange(events: seq<Event>, u: nat): Option<string>
    decreases |events|
  {
    if events == [] then None
    else
      match Last(events).effect
      case SignedUp(user, op) => if user.id == u then None else LastChange(Front(events), u)
      case Applied(op) =>
        if op.userId == u && op.typ == EMAIL_CHANGE && op.data.NewEmail? then Some(op.data.email)
        else LastChange(Front(events), u)
      case _ => LastChange(Front(events), u)
  }

  predicate LastChangeIsLowerCase(events: seq<Event>, u: nat) {
    LastChange(events, u).Some? ==> IsLowerCase(LastChange(events, u).value)
  }

  /** An address is in lower case if and only if the last applied change asked for one that
      is. A sign-up alone is always enough. */
  lemma {:induction false} LowerCaseIffLastChangeIs(events: seq<Event>, s: State, u: nat)
    requires Reaches(events, s) && u in s.users
    ensures IsLowerCase(s.users[u].email) <==> LastChangeIsLowerCase(events, u)
    decreases |events|
  {
    var prev := LastAct(events, s);
    StepOnEmail(prev, Last(events), s, u);
    if EmailSetBy(Last(events), u).None? {
      LowerCaseIffLastChangeIs(Front(events), prev, u);
      SignUpSetsEmail(prev, Last(events), s, u);
    } else if Last(events).request.SignUp? {
      LowerCaseIdempotent(Last(events).request.email);
    }
  }

  lemma SignUpSetsEmail(s: State, ev: Event, s': State, u: nat)
    requires Acts(s, ev, s') && EmailSetBy(ev, u).None?
    ensures ev.effect.SignedUp? ==> ev.effect.user.id != u
    ensures ev.effect.Applied? && ev.effect.op.userId == u && ev.effect.op.typ == EMAIL_CHANGE ==>
            !ev.effect.op.data.NewEmail?
  {}

  /** Exactly when every stored and every pending address is in lower case: the last change
      of every user and every change that is still pending asked for one that is. */
  lemma EmailsAreLowerCaseIff(events: seq<Event>, s: State)
    requires Reaches(events, s)
    ensures AllLowerCase(s) <==>
            && (forall u :: LastEmail(events, u).Some? ==> LastChangeIsLowerCase(events, u))
            && (forall op :: Live(events, op) && op.data.NewEmail? ==> IsLowerCase(op.data.email))
  {
    ReachableInv(events, s);
    forall u
      ensures LastEmail(events, u).Some? <==> u in s.users
      ensures u in s.users ==> (IsLowerCase(s.users[u].email) <==> LastChangeIsLowerCase(events, u))
    {
      StoredEmailIsTheLastSet(events, s, u);
      if u in s.users { LowerCaseIffLastChangeIs(events, s, u); }
    }
    forall op
      ensures Live(events, op) <==> InTable(s, op)
    {
      StoredIffLive(events, s, op);
    }
    assert forall i :: i in s.ops ==> InTable(s, s.ops[i]);
  }

  /** The lower-casing lookup can find an account if and only if the last change applied to
      it asked for a lower-case address, and then it finds no other. */
  lemma FoundIffLowerCase(events: seq<Event>, s: State, u: nat)
    requires Reaches(events, s) && u in s.users
    ensures (exists e :: ToLowerCase(e) == s.users[u].email) <==> LastChangeIsLowerCase(events, u)
    ensures forall v :: LastEmail(events, v) == Some(s.users[u].email) ==> v == u
  {
    ReachableInv(events, s);
    LowerCaseIffLastChangeIs(events, s, u);
    if e :| ToLowerCase(e) == s.users[u].email {
      LowerCaseIdempotent(e);
    }
    forall v | LastEmail(events, v) == Some(s.users[u].email)
      ensures v == u
    {
      StoredEmailIsTheLastSet(events, s, v);
    }
  }

  /** Exactly when some address and password open an account. */
  lemma OpensIff(events: seq<Event>, s: State, u: nat)
    requires Reaches(events, s) && u in s.users
    ensures (exists e, p :: Opens(s, u, e, p)) <==>
            LastChangeIsLowerCase(events, u) && LastPassword(events, u) != Some("")
  {
    StoredEmailIsTheLastSet(events, s, u);
    StoredPasswordIsTheLastSet(events, s, u);
    LowerCaseIffLastChangeIs(events, s, u);
    if e, p :| Opens(s, u, e, p) {
      OpensIffLastSet(events, s, u, e, p);
      LowerCaseIdempotent(e);
    }
    if LastChangeIsLowerCase(events, u) && LastPassword(events, u) != Some("") {
      OpensIffLastSet(events, s, u, s.users[u].email, LastPassword(events, u).value);
    }
  }

  /** Exactly when an applied e-mail change leaves its owner a way to sign in, whenever it
      is applied: the new address is in lower case and the password is not empty. */
  lemma AppliedChangeLeavesOpenIff(events: seq<Event>, s: State, ev: Event, s': State)
    requires Reaches(events, s) && Step(s, ev, s') && ev.effect.Applied? && ev.effect.op.typ == EMAIL_CHANGE
    ensures var op := ev.effect.op;
            op.data.NewEmail? &&
            ((exists e, p :: Opens(s', op.userId, e, p)) <==>
             IsLowerCase(op.data.email) && LastPassword(events, op.userId) != Some(""))
  {
    var u := ev.effect.op.userId;
    AppliedChangeHasAddress(events, s, ev, s');
    OneMore(events, s, ev, s');
    AppliedChangeIsLast(events, ev);
    OpensIff(events + [ev], s', u);
  }

  lemma AppliedChangeHasAddress(events: seq<Event>, s: State, ev: Event, s': State)
    requires Reaches(events, s) && Step(s, ev, s') && ev.effect.Applied? && ev.effect.op.typ == EMAIL_CHANGE
    ensures ev.effect.op.data.NewEmail? && ev.effect.op.userId in s'.users
  {
    ReachableInv(events, s);
    StepActs(s, ev, s');
  }

  lemma AppliedChangeIsLast(events: seq<Event>, ev: Event)
    requires ev.effect.Applied? && ev.effect.op.typ == EMAIL_CHANGE && ev.effect.op.data.NewEmail?
    ensures var op, after := ev.effect.op, events + [ev];
            LastChange(after, op.userId) == Some(op.data.email) &&
              LastPassword(after, op.userId) == LastPassword(events, op.userId)
  {
    var after := events + [ev];
    assert Last(after) == ev && Front(after) == events;
  }

  // ---------------------------------------------------------------- progress

  /** Some UUID has not been handed out. */
  lemma {:induction false} SomeTokenIsFresh(issued: set<Token>) returns (t: Token)
    ensures forall u :: u in issued ==> u < t
  {
    if issued == {} {
      t := 0;
    } else {
      var x :| x in issued;
      t := SomeTokenIsFresh(issued - {x});
      if t <= x { t := x + 1; }
      assert forall u :: u in issued ==> u == x || u in issued - {x};
    }
  }

  /** Minting is possible for every stored user. */
  lemma MintIsPossible(s: State, userId: nat, typ: OperationType, data: OperationData)
        returns (op: Operation, s': State)
    requires userId in s.users
    ensures op.userId == userId && op.typ == typ && Mints(s, op, data, s')
  {
    var token := SomeTokenIsFresh(s.issued);
    var id := SomeTokenIsFresh(s.ops.Keys);
    op := Operation(id, userId, typ, Deadline(s.now, typ), token, data);
    s' := s.(ops := Without(s.ops, userId, typ)[id := op], issued := s.issued + {token});
  }

  lemma ApplicationIsPossible(s: State, op: Operation, password: string) returns (s': State)
    requires Inv(s) && InTable(s, op)
    ensures Applies(s, op, password, s')
  {
    var u := s.users[op.userId];
    var u' := match op.typ
      case SIGN_UP => u.(emailVerified := true)
      case PASSWORD_RECOVERY => u.(password := EncryptPassword(Some(Text(password)), 0))
      case PASSWORD_CHANGE =>
        if op.data.password.Some? then u.(password := EncryptPassword(Some(Text(op.data.password.value)), 0)) else u
      case EMAIL_CHANGE => u.(email := op.data.email);
    s' := s.(users := s.users[op.userId := u'], ops := Without(s.ops, op.userId, op.typ));
  }

  /** Every request can be served in every reachable state. */
  lemma EveryRequestIsServed(events: seq<Event>, s: State, request: Request)
    requires Reaches(events, s) && WellPosed(s, request)
    ensures exists effect, s' :: Step(s, Event(s.now, request, effect, false), s')
  {
    ReachableInv(events, s);
    var effect, s' := Serve(s, request);
    assert Step(s, Event(s.now, request, effect, false), s');
  }

  lemma Serve(s: State, request: Request) returns (effect: Effect, s': State)
    requires Inv(s) && WellPosed(s, request)
    ensures CleanStep(s, request, effect, s')
  {
    match request
    case SignUp(email, password) => effect, s' := ServeSignUp(s, email, password);
    case Create(typ, ref, data) => effect, s' := ServeCreate(s, typ, ref, data);
    case Apply(typ, token, password) => effect, s' := ServeApply(s, typ, token, password);
    case SignIn(email, password) => effect, s' := ServeSignIn(s, email, password);
    case Refresh(session) =>
      var t := SomeTokenIsFresh(s.issued);
      effect, s' := Failed(InvalidSession), s;
      if session in s.sessions {
        effect, s' := SessionOpened(t), s.(sessions := s.sessions[t := s.sessions[session]], issued := s.issued + {t});
      }
    case Elapse(time) =>
      effect, s' := Nothing, s.(now := s.now + time);
  }

  lemma ServeCreate(s: State, typ: OperationType, ref: UserRef, data: OperationData) returns (effect: Effect, s': State)
    requires TypedData(typ, data)
    ensures CreateStep(s, typ, ref, data, effect, s')
  {
    effect, s' := Nothing, s;
    if typ == EMAIL_CHANGE && ReachesConflictCheck(s, ref) && HasEmail(s, data.email) {
      effect := Failed(UserAlreadyExists);
    } else if userId :| Eligible(s, typ, ref, userId) {
      var op;
      op, s' := MintIsPossible(s, userId, typ, data);
      effect := Minted(op);
    }
  }

  lemma ServeApply(s: State, typ: OperationType, token: Token, password: string) returns (effect: Effect, s': State)
    requires Inv(s)
    ensures ApplyStep(s, typ, token, password, effect, s')
  {
    effect, s' := Nothing, s;
    if i :| i in s.ops && Applicable(s, s.ops[i], typ, token) {
      if Conflicts(s, s.ops[i]) {
        effect := Failed(UserAlreadyExists);
      } else {
        s' := ApplicationIsPossible(s, s.ops[i], password);
        effect := Applied(s.ops[i]);
        assert forall j :: j in s.ops && Applicable(s, s.ops[j], typ, token) ==> j == i;
      }
    }
  }

  lemma ServeSignIn(s: State, email: string, password: string) returns (effect: Effect, s': State)
    ensures SignInStep(s, email, password, effect, s')
  {
    var t := SomeTokenIsFresh(s.issued);
    if i :| Opens(s, i, email, password) && s.users[i].emailVerified {
      effect, s' := SessionOpened(t), s.(sessions := s.sessions[t := i], issued := s.issued + {t});
      assert OpensSession(s, i, t, s');
    } else if exists i :: Opens(s, i, email, password) {
      effect, s' := Failed(NotVerified), s;
    } else {
      effect, s' := Failed(WrongPassword), s;
    }
  }

  lemma ServeSignUp(s: State, email: string, password: string) returns (effect: Effect, s': State)
    ensures SignUpStep(s, email, password, effect, s')
  {
    effect, s' := Failed(UserAlreadyExists), s;
    if !HasEmail(s, ToLowerCase(email)) {
      var id := SomeTokenIsFresh(s.users.Keys);
      var u := User(id, ToLowerCase(email), EncryptPassword(Some(Text(password)), 0), false);
      var op;
      op, s' := MintIsPossible(s.(users := s.users[id := u]), id, SIGN_UP, NoData);
      effect := SignedUp(u, op);
    }
  }

  // ---------------------------------------------------------------- no account is stuck

  /** Whoever serves a live token in time applies it, unless it is an e-mail change to an
      address that has been taken. */
  lemma LiveTokenIsApplied(events: seq<Event>, s: State, m: nat, op: Operation, ev: Event, s': State)
    requires Reaches(events, s) && LiveSince(events, m, op) && Step(s, ev, s') && !ev.faulty
    requires ev.request.Apply? && ev.request.typ == op.typ && ev.request.token == op.token
    requires !Conflicts(s, op) && ev.at <= events[m].at + 72 * HOUR
    ensures ev.effect == Applied(op)
  {
    assert Redeems(events, op, op.typ, op.token, ev.at);
    ApplicableIffRedeems(events, s, op, op.typ, op.token);
    ApplySucceedsIffRedeemable(events, s, ev, s');
    assert Last(events + [ev]) == ev && Front(events + [ev]) == events;
    OneMore(events, s, ev, s');
    var n := AppliedWasLive(events + [ev], s', |events|, ev.effect.op);
    assert (events + [ev])[..|events|] == events;
    TokensAreMintedOnce(events, s, m, n, op, ev.effect.op);
  }

  /** A resend for an unverified account, in whatever letter case its lower-case address is
      written, mints; the token confirms the account until 72 hours later, whatever is
      served in between, unless something closes that sign-up first. */
  lemma ResendThenConfirmVerifies(
    events: seq<Event>, s: State, u: nat, e: string, resend: Event, s1: State,
    between: seq<Event>, s2: State, confirm: Event, s3: State)
    requires Reaches(events, s) && u in s.users && !s.users[u].emailVerified && ToLowerCase(e) == s.users[u].email
    requires Step(s, resend, s1) && resend.request == Create(SIGN_UP, Email(ToLowerCase(e)), NoData) && !resend.faulty
    requires Reaches(events + [resend] + between, s2)
    requires forall j :: 0 <= j < |between| ==> !Closes(between[j], u, SIGN_UP)
    requires Step(s2, confirm, s3) && !confirm.faulty
    requires resend.effect.Minted? ==> confirm.request == Apply(SIGN_UP, resend.effect.op.token, "")
    requires confirm.at <= resend.at + 72 * HOUR
    ensures resend.effect.Minted? && resend.effect.op.userId == u
    ensures u in s3.users && s3.users[u].emailVerified
  {
    ReachableInv(events, s);
    assert Eligible(s, SIGN_UP, Email(ToLowerCase(e)), u);
    var all := events + [resend] + between;
    assert LiveSince(all, |events|, resend.effect.op);
    LiveTokenIsApplied(all, s2, |events|, resend.effect.op, confirm, s3);
    StepActs(s2, confirm, s3);
  }

  /** The same for a forgotten password, except that recovery looks the address up as it
      is written. Afterwards the new password opens the account. */
  lemma RecoveryThenConfirmSetsPassword(
    events: seq<Event>, s: State, u: nat, recovery: Event, s1: State,
    between: seq<Event>, s2: State, confirm: Event, s3: State, password: string)
    requires Reaches(events, s) && u in s.users && s.users[u].emailVerified
    requires Step(s, recovery, s1) &&
             recovery.request == Create(PASSWORD_RECOVERY, Email(s.users[u].email), NoData) && !recovery.faulty
    requires Reaches(events + [recovery] + between, s2)
    requires forall j :: 0 <= j < |between| ==> !Closes(between[j], u, PASSWORD_RECOVERY)
    requires Step(s2, confirm, s3) && !confirm.faulty
    requires recovery.effect.Minted? ==> confirm.request == Apply(PASSWORD_RECOVERY, recovery.effect.op.token, password)
    requires confirm.at <= recovery.at + 72 * HOUR && password != ""
    ensures recovery.effect.Minted? && recovery.effect.op.userId == u
    ensures u in s3.users && s3.users[u].emailVerified
    ensures forall e, p :: ToLowerCase(e) == s3.users[u].email ==> (Opens(s3, u, e, p) <==> p == password)
  {
    ReachableInv(events, s);
    assert Eligible(s, PASSWORD_RECOVERY, Email(s.users[u].email), u);
    var op := recovery.effect.op;
    var all := events + [recovery] + between;
    assert LiveSince(all, |events|, op);
    LiveTokenIsApplied(all, s2, |events|, op, confirm, s3);
    ReachableInv(all, s2);
    StepActs(s2, confirm, s3);
    assert s2.users[u].emailVerified by {
      StoredIffLive(all, s2, op);
      assert Live(all, op);
    }
  }

  /** Serves one more request on a run. */
  lemma ServeNext(events: seq<Event>, s: State, request: Request) returns (ev: Event, s': State)
    requires Reaches(events, s) && WellPosed(s, request)
    ensures ev.request == request && !ev.faulty && ev.at == s.now
    ensures Step(s, ev, s') && Reaches(events + [ev], s')
  {
    ReachableInv(events, s);
    var effect;
    effect, s' := Serve(s, request);
    ev := Event(s.now, request, effect, false);
    OneMore(events, s, ev, s');
  }

  /** Lets time pass on a run. */
  lemma Wait(events: seq<Event>, s: State, wait: nat) returns (s': State)
    requires Reaches(events, s)
    ensures s' == s.(now := s.now + wait)
    ensures Reaches(events + [Event(s.now, Elapse(wait), Nothing, false)], s')
  {
    s' := s.(now := s.now + wait);
    OneMore(events, s, Event(s.now, Elapse(wait), Nothing, false), s');
  }

  lemma EligibleIsMinted(s: State, ev: Event, s': State, u: nat)
    requires Inv(s) && Step(s, ev, s') && !ev.faulty && ev.request.Create?
    requires Eligible(s, ev.request.typ, ev.request.user, u)
    requires ev.request.typ == EMAIL_CHANGE && ev.request.data.NewEmail? ==> !HasEmail(s, ev.request.data.email)
    ensures ev.effect.Minted? && ev.effect.op.userId == u && ev.effect.op.typ == ev.request.typ
    ensures Mints(s, ev.effect.op, ev.request.data, s')
  {}

  /** Both runs exist: after any wait within the deadline an unverified account whose
      address is in lower case can be verified. */
  lemma UnverifiedAccountIsNotStuck(events: seq<Event>, s: State, u: nat, wait: nat)
      returns (resend: Event, confirm: Event, s': State)
    requires Reaches(events, s) && u in s.users && !s.users[u].emailVerified && IsLowerCase(s.users[u].email)
    requires wait <= 72 * HOUR
    ensures resend.request == Create(SIGN_UP, Email(s.users[u].email), NoData) && resend.effect.Minted?
    ensures confirm.request == Apply(SIGN_UP, resend.effect.op.token, "")
    ensures Reaches(events + [resend] + [Event(s.now, Elapse(wait), Nothing, false)] + [confirm], s')
    ensures u in s'.users && s'.users[u].emailVerified
  {
    ReachableInv(events, s);
    var e := s.users[u].email;
    var s1;
    resend, s1 := ServeNext(events, s, Create(SIGN_UP, Email(e), NoData));
    EligibleIsMinted(s, resend, s1, u);
    var pause := Event(s.now, Elapse(wait), Nothing, false);
    var s2 := Wait(events + [resend], s1, wait);
    confirm, s' := ServeNext(events + [resend] + [pause], s2, Apply(SIGN_UP, resend.effect.op.token, ""));
    ResendThenConfirmVerifies(events, s, u, e, resend, s1, [pause], s2, confirm, s');
  }

  lemma PasswordCanBeRecovered(events: seq<Event>, s: State, u: nat, wait: nat, password: string)
      returns (recovery: Event, confirm: Event, s': State)
    requires Reaches(events, s) && u in s.users && s.users[u].emailVerified && IsLowerCase(s.users[u].email)
    requires wait <= 72 * HOUR && password != ""
    ensures recovery.request == Create(PASSWORD_RECOVERY, Email(s.users[u].email), NoData) && recovery.effect.Minted?
    ensures confirm.request == Apply(PASSWORD_RECOVERY, recovery.effect.op.token, password)
    ensures Reaches(events + [recovery] + [Event(s.now, Elapse(wait), Nothing, false)] + [confirm], s')
    ensures Opens(s', u, s.users[u].email, password) && s'.users[u].emailVerified
  {
    ReachableInv(events, s);
    var e := s.users[u].email;
    var s1;
    recovery, s1 := ServeNext(events, s, Create(PASSWORD_RECOVERY, Email(e), NoData));
    EligibleIsMinted(s, recovery, s1, u);
    var pause := Event(s.now, Elapse(wait), Nothing, false);
    var s2 := Wait(events + [recovery], s1, wait);
    confirm, s' := ServeNext(events + [recovery] + [pause], s2,
      Apply(PASSWORD_RECOVERY, recovery.effect.op.token, password));
    RecoveryThenConfirmSetsPassword(events, s, u, recovery, s1, [pause], s2, confirm, s', password);
    RecoveryKeepsEmail(s2, confirm, s', u);
  }

  lemma RecoveryKeepsEmail(s: State, ev: Event, s': State, u: nat)
    requires Step(s, ev, s') && ev.request.Apply? && ev.request.typ == PASSWORD_RECOVERY && u in s.users
    ensures u in s'.users && s'.users[u].email == s.users[u].email
  {
    StepActs(s, ev, s');
  }

  lemma OpeningIsServed(s: State, ev: Event, s': State, u: nat)
    requires Step(s, ev, s') && !ev.faulty && ev.request.SignIn?
    requires Opens(s, u, ev.request.email, ev.request.password) && s.users[u].emailVerified
    ensures ev.effect.SessionOpened?
  {}

  /** A verified account whose address is in lower case can set a new password, after any
      wait within the deadline, and sign in with it. */
  lemma VerifiedAccountIsNotStuck(events: seq<Event>, s: State, u: nat, wait: nat, password: string)
      returns (recovery: Event, confirm: Event, signIn: Event, s': State)
    requires Reaches(events, s) && u in s.users && s.users[u].emailVerified && IsLowerCase(s.users[u].email)
    requires wait <= 72 * HOUR && password != ""
    ensures recovery.request == Create(PASSWORD_RECOVERY, Email(s.users[u].email), NoData) && recovery.effect.Minted?
    ensures confirm.request == Apply(PASSWORD_RECOVERY, recovery.effect.op.token, password)
    ensures signIn.request == SignIn(s.users[u].email, password) && signIn.effect.SessionOpened?
    ensures Reaches(events + [recovery] + [Event(s.now, Elapse(wait), Nothing, false)] + [confirm] + [signIn], s')
  {
    var s3;
    recovery, confirm, s3 := PasswordCanBeRecovered(events, s, u, wait, password);
    var all := events + [recovery] + [Event(s.now, Elapse(wait), Nothing, false)] + [confirm];
    signIn, s' := ServeNext(all, s3, SignIn(s.users[u].email, password));
    OpeningIsServed(s3, signIn, s', u);
  }

  /** The restriction to lower-case addresses is needed: an e-mail change stores the new
      address as it is written, and one that is not in lower case shuts its owner out of
      sign-in for every spelling of the address and every password. */
  lemma UpperCaseChangeLocksOut(events: seq<Event>, s: State, u: nat, address: string)
      returns (change: Event, confirm: Event, s': State)
    requires Reaches(events, s) && u in s.users && Truthy(s.users[u].password)
    requires !IsLowerCase(address) && !HasEmail(s, address)
    ensures change.request == Create(EMAIL_CHANGE, Email(s.users[u].email), NewEmail(address)) && change.effect.Minted?
    ensures confirm.request == Apply(EMAIL_CHANGE, change.effect.op.token, "")
    ensures Reaches(events + [change] + [confirm], s')
    ensures u in s'.users && s'.users[u].email == address && forall e, p :: !Opens(s', u, e, p)
  {
    ReachableInv(events, s);
    var s1;
    change, s1 := ServeNext(events, s, Create(EMAIL_CHANGE, Email(s.users[u].email), NewEmail(address)));
    EligibleIsMinted(s, change, s1, u);
    var op := change.effect.op;
    ReachableInv(events + [change], s1);
    confirm, s' := ServeNext(events + [change], s1, Apply(EMAIL_CHANGE, op.token, ""));
    MintedEmailChangeIsApplied(s, change, s1, confirm, s');
    UpperCaseOpensNothing(s', u);
  }

  lemma MintedEmailChangeIsApplied(s: State, change: Event, s1: State, confirm: Event, s': State)
    requires change.effect.Minted? && change.effect.op.typ == EMAIL_CHANGE && change.request.Create? &&
             change.request.data.NewEmail?
    requires Mints(s, change.effect.op, change.request.data, s1) && !HasEmail(s, change.request.data.email)
    requires Inv(s1) && Step(s1, confirm, s') && !confirm.faulty
    requires confirm.request == Apply(EMAIL_CHANGE, change.effect.op.token, "")
    ensures change.effect.op.userId in s'.users && s'.users[change.effect.op.userId].email == change.request.data.email
  {
    var op := change.effect.op;
    assert s1.ops[op.id] == op && s1.users == s.users;
    ApplicableIsApplied(s1, confirm, s', op);
  }

  lemma UpperCaseOpensNothing(s: State, u: nat)
    requires u in s.users && !IsLowerCase(s.users[u].email)
    ensures forall e, p :: !Opens(s, u, e, p)
  {
    forall e
      ensures ToLowerCase(e) != s.users[u].email
    {
      LowerCaseIdempotent(e);
    }
  }
}

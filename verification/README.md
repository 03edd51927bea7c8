# Verified model of the account service and its libraries

This project models the state machine behind the auth service and five smaller pieces of
logic around it, and proves what they promise over all inputs and all runs.

`dafny verify dfyconfig.toml` checks everything.

## The account protocol

Users, pending operations and sessions are three stores. An operation carries a fresh
token, a type (sign-up, password recovery, password change, e-mail change) and a deadline.
Creating one closes the operation of the same user and type and inserts the new one in one
transaction. Applying one finds it by its token but closes it by user and type. That the
two name the same row is not visible in any single method. It follows from an invariant of
all of them, and most of what the service promises depends on it.

- `Accounts` is the protocol on values: the stores, the requests, and `Step`, what each
  request may do to the stores, with and without calls that throw. It proves that every
  step keeps the invariant.
- `AccountRuns` has the theorems about whole runs: tokens are single-use, in time and never
  superseded; a user is unverified exactly while one sign-up is pending; the stored
  password is the last one set, hashed once; no account is stuck.
- `Persistence` has the stores as objects changed in place: a backend with the committed
  tables and a query runner with a transaction's own copy of them. Reads that are not given
  a runner see the committed tables, as in the source. Every call may throw; a ghost counter
  tells faults from refusals. The ghost `history` records the requests served, and
  `Valid()` says that the stores are those which serving it leads to, so the theorems about
  runs apply to the objects.
- `RunnerDiscipline` is about the log of runner calls: what may be asked of a runner, and in
  which order.
- `Processors`, `Notifications` and `Auth` are the classes of the service. Each public
  method is proved to take one `Step`, on every path through its errors. A `try` block is a
  method of its own, so that its caller can catch, roll back and release. `create` of the
  abstract processor, which behaves differently with a runner of the caller, is two methods.
  That the caller's runner is neither committed, rolled back nor released is in the
  `modifies` clause of `CreateWithin`.

Two findings. An e-mail change stores the new address as written, while every login looks
it up in lower case. `AppliedChangeLeavesOpenIff` says exactly which changes leave their
owner a way to sign in, `LowerCaseIffLastChangeIs` exactly which addresses are in lower
case, and `UpperCaseChangeLocksOut` shows that the bad case can be reached. And
`create` trusts the flag of an entity object it is given: `EntityMustBeUpToDate` says
exactly when this is harmless. The service only ever passes the user it has just inserted.

## The rest

- `SqlParams`, `SqlInlining`: inlining parameters by one first-occurrence replacement after
  the other equals simultaneous substitution exactly when no literal contains one of the
  `$` patterns of `replace` and nothing inlined earlier reads like a later placeholder.
  Strings can break either; numbers, booleans and null neither.
- `UpdateFrom`, `UpdateStatement`: the text that `updateFrom` sends for its two queries is
  the text of one statement, and that statement sets exactly the selected rows, for all
  filters exactly when the key identifies the rows.
- `EntityMatcher`, `MatcherErrors`: a comparison that visits the keys of one side decides structural
  equality, against every partner exactly for flat objects without undefined, null and
  dates, and a search for the entities of one side finds a permutation exactly when the
  expected entities are pairwise different. On an entity with a date or a plain object
  under a key that is compared, and on no other, the matcher can throw instead of failing.
- `QueueRestart`, `MixedSweeps`: a paging loop over a list that its body shrinks is safe and
  terminates, although every retry shifts the pages. How the queue reads the two numbers of
  its window is a parameter. In both readings repeated sweeps empty a list of stale jobs.
  With young jobs among them, an offset and a count still reach every stale job, but an
  index range reaches only those with at most a hundred young ones before them.
- `CryptoCodec`, `SeedReader`: two round trips with their exact domains.
- `Prelude`, `Text`: what these share. `Result` stands for a call that may throw.

## Model

| member | source | states |
|---|---|---|
| `Accounts.StepKeepsInv` | apps/auth/src/app/processors/users_operations/users_operations.abstract.processor.ts:50-145 | whatever request is served and whatever throws meanwhile, the step keeps: at most one operation per user and type, tokens issued once, distinct addresses, unverified iff a sign-up is pending, recoveries and sessions only of verified users, passwords hashed once |
| `Accounts.MintsKeepsInv` | apps/auth/src/app/processors/users_operations/users_operations.abstract.processor.ts:62-74 | replacing the operation of a (user, type) by a fresh one keeps all of this, if the type suits the user; a sign-up for an unverified user repairs the link between the two |
| `Accounts.SignUpKeepsInv` | apps/auth/src/app/routes/v1/auth/auth.service.ts:72-80 | so does inserting a new user together with its sign-up operation |
| `Accounts.AppliesKeepsInv` | apps/auth/src/app/processors/users_operations/sign_up/users_operations.processor.sign_up.ts:74-98 | so does closing an operation and writing its effect to its user's row, an address conflict excluded |
| `Accounts.EntityMustBeUpToDate` | apps/auth/src/app/processors/users_operations/password_recovery/users_operations.processor.password_recovery.ts:58-79 | a sign-up or recovery created for an entity object trusts the object's own flag: it keeps the invariant if and only if the stored row agrees where it matters |
| `Accounts.StoredPasswordOpensForItselfOnly` | apps/auth/src/app/database/entities/user.entity.ts:51-70 | a password that went through the hook opens the account for itself and nothing else; an empty one, which the hook leaves alone, for nothing at all |
| `AccountRuns.ReachableInv` | apps/auth/src/app/processors/users_operations/users_operations.abstract.processor.ts:50-145 | the invariant holds in every state that any sequence of requests reaches from empty tables |
| `AccountRuns.UnverifiedIffExactlyOneSignUp` | apps/auth/src/app/processors/users_operations/sign_up/users_operations.processor.sign_up.ts:43-98 | in every reachable state a user is unverified if and only if exactly one SIGN_UP operation is stored for it |
| `AccountRuns.StoredIffLive` | apps/auth/src/app/processors/users_operations/users_operations.abstract.processor.ts:88-145 | the table of operations is a function of the history: an operation is stored if and only if it was minted and neither applied nor replaced since |
| `AccountRuns.TokensAreMintedOnce` | apps/auth/src/app/processors/users_operations/users_operations.abstract.processor.ts:127-138 | no two events of a run mint the same token |
| `AccountRuns.ApplySucceedsIffRedeemable` | apps/auth/src/app/processors/users_operations/users_operations.abstract.processor.ts:88-105 | told from the history alone, for all four types: an application succeeds if and only if the token was minted for this type, at most 72 hours ago, and neither applied nor replaced since, and is not an e-mail change to an address that is somebody's last; if it is one, the answer is the conflict, which changes nothing and leaves the token redeemable |
| `AccountRuns.ApplicableIffRedeems` | apps/auth/src/app/processors/users_operations/email_change/users_operations.processor.email_change.ts:84-126 | what the tables say of an operation, that it can be applied and that its address is taken, is what the history says |
| `AccountRuns.AppliedAtMostOnce` | apps/auth/src/app/processors/users_operations/users_operations.abstract.processor.ts:88-105 | tokens are single-use over whole runs |
| `AccountRuns.AppliedWasLive` | apps/auth/src/app/processors/users_operations/users_operations.abstract.processor.ts:92-104 | whatever is applied was minted earlier in the run, was neither applied nor replaced in between, and its deadline had not passed |
| `AccountRuns.NeverLateNorSuperseded` | apps/auth/src/app/processors/users_operations/users_operations.abstract.processor.ts:98-102 | a token is never applied more than 72 hours after its mint, nor after a newer operation of the same user and type was minted |
| `AccountRuns.ClosingRemovesOne` | apps/auth/src/app/processors/users_operations/users_operations.abstract.processor.ts:107-120 | where each (user, type) has at most one operation, closing by (user, type) removes exactly the operation that was found by its token |
| `AccountRuns.ApplyTouchesOnlyItsOwn` | apps/auth/src/app/processors/users_operations/email_change/users_operations.processor.email_change.ts:84-114 | a successful application removes exactly its operation and changes exactly the intended column of its user; a failed one, rolled back or in conflict, changes no user and no operation |
| `AccountRuns.VerificationNeverReverts` | apps/auth/src/app/processors/users_operations/sign_up/users_operations.processor.sign_up.ts:82-86 | from any state with the invariant, on any continuation, a verified user stays stored and verified |
| `AccountRuns.VerifiedIffConfirmedInTime` | apps/auth/src/app/routes/v1/auth/auth.service.ts:94-101 | an account is verified if and only if a sign-up token minted for it earlier in the run was presented within 72 hours of its mint |
| `AccountRuns.RecoveriesAndSessionsAreOfConfirmedUsers` | apps/auth/src/app/routes/v1/auth/auth.service.ts:52-58 | every stored recovery operation and every session, refreshed ones included, belongs to a user who confirmed a sign-up before |
| `AccountRuns.StoredPasswordIsTheLastSet` | apps/auth/src/app/database/entities/user.entity.ts:51-62 | the stored value is the last password set for the user, hashed exactly once, however often other columns were updated since |
| `AccountRuns.StoredEmailIsTheLastSet` | apps/auth/src/app/processors/users_operations/email_change/users_operations.processor.email_change.ts:91-100 | the stored address is the last one that a sign-up or an applied change gave the user, and exactly the users who were given one are stored |
| `AccountRuns.SignInIffLastPassword` | apps/auth/src/app/routes/v1/auth/auth.service.ts:103-119 | told from the history alone: sign-in opens a session if and only if somebody has confirmed a sign-up, the lower-cased address is the last one and the password the last one set for that user, and the password is not empty |
| `AccountRuns.EmailsStayLowerCase` | apps/auth/src/app/processors/users/users.processor.ts:55-63 | if every e-mail change asks for a lower-case address, all stored and all pending addresses are in lower case in every reachable state |
| `AccountRuns.EmailsAreLowerCaseIff` | apps/auth/src/app/processors/users_operations/email_change/users_operations.processor.email_change.ts:91-100 | all stored and pending addresses are in lower case if and only if the last applied change of every user and every change still pending asked for a lower-case address |
| `AccountRuns.LowerCaseIffLastChangeIs` | apps/auth/src/app/processors/users_operations/email_change/users_operations.processor.email_change.ts:91-100 | one user's stored address is in lower case if and only if the last change applied since the sign-up, if any, asked for a lower-case address |
| `AccountRuns.FoundIffLowerCase` | apps/auth/src/app/processors/users/users.processor.ts:31-38 | the lower-casing lookup can find an account if and only if the last change applied to it asked for a lower-case address, and then finds no other |
| `AccountRuns.OpensIff` | apps/auth/src/app/routes/v1/auth/auth.service.ts:103-119 | some address and password open an account if and only if the last change applied to it asked for a lower-case address and the last password set for it is not empty |
| `AccountRuns.AppliedChangeLeavesOpenIff` | apps/auth/src/app/processors/users_operations/email_change/users_operations.processor.email_change.ts:84-114 | whenever an e-mail change is applied, it leaves its owner a way to sign in if and only if the new address is in lower case and the last password is not empty |
| `AccountRuns.EveryRequestIsServed` | apps/auth/src/app/routes/v1/auth/auth.service.ts:52-156 | in every reachable state every request has an outcome, so no claim about outcomes is vacuous |
| `AccountRuns.LiveTokenIsApplied` | apps/auth/src/app/processors/users_operations/users_operations.abstract.processor.ts:88-105 | whoever presents a live token of any type within 72 hours of its mint gets that very operation applied, unless it is an e-mail change to a taken address |
| `AccountRuns.ResendThenConfirmVerifies` | apps/auth/src/app/routes/v1/auth/auth.service.ts:145-156 | a resend for an unverified account, in whatever letter case, mints; its token confirms the account until 72 hours later, whatever is served in between, unless that closes the sign-up first |
| `AccountRuns.RecoveryThenConfirmSetsPassword` | apps/auth/src/app/routes/v1/auth/auth.service.ts:121-143 | likewise for a recovery; afterwards exactly the new password opens the account |
| `AccountRuns.UnverifiedAccountIsNotStuck` | apps/auth/src/app/routes/v1/auth/auth.service.ts:145-156 | from every reachable state such a run exists, for every wait up to the deadline, if the stored address is in lower case |
| `AccountRuns.VerifiedAccountIsNotStuck` | apps/auth/src/app/routes/v1/auth/auth.service.ts:121-143 | and a verified user can recover and then sign in with the new password |
| `AccountRuns.UpperCaseChangeLocksOut` | apps/auth/src/app/processors/users_operations/email_change/users_operations.processor.email_change.ts:91-100 | the bad case can be reached for every stored user with a password and every free address that is not in lower case: a run in which the change is requested and applied, and afterwards no spelling of any address and no password opens the account |
| `RunnerDiscipline.SoundLogIsDisciplined` | apps/auth/src/app/processors/users_operations/users_operations.abstract.processor.ts:54-85 | over the whole log of runner calls: a runner is released if and only if its transaction started, once and as its last call, after a commit or a rollback; a committed transaction is never rolled back |
| `RunnerDiscipline.LifeKeepsDiscipline` | apps/auth/src/app/routes/v1/auth/auth.service.ts:69-91 | one more complete life of a new runner keeps the log disciplined |
| `Persistence.Begin` | apps/auth/src/app/processors/users_operations/users_operations.abstract.processor.ts:54-60 | a runner whose transaction starts with the committed tables; one that cannot be started leaves a sound log |
| `Persistence.TryCommit` | apps/auth/src/app/processors/users_operations/users_operations.abstract.processor.ts:70-74 | the tables are committed if and only if the work and the commit succeed, otherwise untouched |
| `Persistence.Undo` | apps/auth/src/app/processors/users_operations/users_operations.abstract.processor.ts:75-84 | the error path rolls back exactly once, releases last, and touches no table |
| `Persistence.Settle` | apps/auth/src/app/routes/v1/auth/auth.service.ts:86-91 | catch and finally: rolled back unless committed, released in any case, the log stays sound |
| `Persistence.Finish` | apps/auth/src/app/processors/users_operations/sign_up/users_operations.processor.sign_up.ts:89-97 | both together: the stores hold the transaction's tables or what they held before |
| `Persistence.Backend.FindUserByEmail` | apps/auth/src/app/processors/users/users.processor.ts:31-38 | a found row has the address; if none is found, no committed row has it |
| `Persistence.Backend.FindOperationByToken` | apps/auth/src/app/processors/users_operations/users_operations.abstract.processor.ts:92-94 | a found operation has the token and the type; if none is found, no committed one has |
| `Persistence.Backend.FindOperationOf` | apps/auth/src/app/processors/users_operations/users_operations.abstract.processor.ts:111-117 | the same by user and type, again in the committed table and not in the transaction's |
| `Persistence.Backend.Record` | apps/auth/src/app/processors/users_operations/users_operations.abstract.processor.ts:50-105 | the stores are always those that serving the recorded history leads to |
| `Persistence.QueryRunner.InsertUser` | apps/auth/src/app/database/entities/user.entity.ts:41-62 | the new row is lower-cased and its password hashed once; a taken address is refused |
| `Persistence.QueryRunner.UpdateUser` | apps/auth/src/app/database/entities/user.entity.ts:46-62 | a password that is not set stays as it was stored, one that is set is hashed once, the address is stored as written; another row's address is refused |
| `Persistence.QueryRunner.InsertOperation` | apps/auth/src/migrations/1694169372084-create_users_operations.ts:74-83 | an operation is inserted for a stored user only |
| `Persistence.QueryRunner.RemoveOperation` | libs/utils/src/base.repository.ts:425-446 | removes exactly that row from the transaction's table, or nothing |
| `Persistence.QueryRunner.CommitTransaction` | apps/auth/src/app/processors/users_operations/users_operations.abstract.processor.ts:70-72 | the transaction's tables become the committed ones, or nothing changes and it stays open |
| `Persistence.QueryRunner.RollbackTransaction` | apps/auth/src/app/processors/users_operations/users_operations.abstract.processor.ts:80 | closes an open transaction, which a committed one is not |
| `Processors.UsersProcessor.AuthData` | apps/auth/src/app/processors/users/users.processor.ts:31-38 | finds the row with the lower-cased address, or there is none |
| `Processors.UsersProcessor.Create` | apps/auth/src/app/processors/users/users.processor.ts:40-81 | in the caller's transaction: an unverified row, lower-cased, with the password hashed once |
| `Processors.UsersProcessor.Update` | apps/auth/src/app/processors/users/users.processor.ts:83-91 | exactly the given columns of one row change; a password that is not given is not hashed again; a missing row or a taken address is an error |
| `Processors.SessionsProcessor.Create` | apps/auth/src/app/caches/sessions/session.service.ts:27-38 | a session under a fresh identifier for the user, or nothing |
| `Processors.SessionsProcessor.DropAll` | apps/auth/src/app/processors/sessions/sessions.processor.ts:35-37 | removes only sessions of that user |
| `Processors.UsersOperationsProcessor.Close` | apps/auth/src/app/processors/users_operations/users_operations.abstract.processor.ts:107-120 | removes one operation of the (user, type) if the committed table has any |
| `Processors.UsersOperationsProcessor.ClosesAll` | apps/auth/src/app/processors/users_operations/users_operations.abstract.processor.ts:107-120 | with the invariant that one removal leaves none of the (user, type) |
| `Processors.UsersOperationsProcessor.CreateUserOperation` | apps/auth/src/app/processors/users_operations/users_operations.abstract.processor.ts:122-145 | inserts an operation with a token never issued before and the configured deadline |
| `Processors.UsersOperationsProcessor.CreateWithin` | apps/auth/src/app/processors/users_operations/users_operations.abstract.processor.ts:50-79 | on a caller's runner, which is neither committed, rolled back nor released: exactly the mint, or the error is passed on |
| `Processors.UsersOperationsProcessor.CreateOwned` | apps/auth/src/app/processors/users_operations/users_operations.abstract.processor.ts:50-85 | on a runner of its own: exactly the mint, committed; or no user and no operation changed and the error swallowed |
| `Processors.UsersOperationsProcessor.FindUser` | apps/auth/src/app/processors/users_operations/email_change/users_operations.processor.email_change.ts:53-72 | the user looked up is accepted if and only if the specification calls it eligible |
| `Processors.UsersOperationsProcessor.CreateFor` | apps/auth/src/app/processors/users_operations/sign_up/users_operations.processor.sign_up.ts:43-72 | mints in the caller's transaction if and only if the type accepts the user |
| `Processors.UsersOperationsProcessor.CreateUnrecorded` | apps/auth/src/app/processors/users_operations/email_change/users_operations.processor.email_change.ts:49-82 | the four `create` methods make the specified step, conflict check included, or under a fault change nothing |
| `Processors.UsersOperationsProcessor.Create` | apps/auth/src/app/processors/users_operations/password_change/users_operations.processor.password_change.ts:49-80 | makes the specified creation step, for every entity object, or under a fault changes no user and no operation; unless the object contradicts its stored row, the request is recorded and the stores stay those of the history |
| `Processors.UsersOperationsProcessor.ApplyToken` | apps/auth/src/app/processors/users_operations/users_operations.abstract.processor.ts:88-105 | returns an operation if and only if the token has one that is not late, and then the transaction's table has no more operation of its (user, type) |
| `Processors.UsersOperationsProcessor.Perform` | apps/auth/src/app/processors/users_operations/email_change/users_operations.processor.email_change.ts:91-103 | the effect of each type on the user's row; a conflict is found before anything is written; other users' sessions stay |
| `Processors.UsersOperationsProcessor.ApplyOwned` | apps/auth/src/app/processors/users_operations/email_change/users_operations.processor.email_change.ts:84-114 | the transaction of the four `apply` methods: applied and committed, or nothing found and nothing changed, or conflict and nothing changed; under a fault no user and no operation changes |
| `Processors.UsersOperationsProcessor.Apply` | apps/auth/src/app/processors/users_operations/password_recovery/users_operations.processor.password_recovery.ts:84-110 | takes exactly one step of the protocol, recorded in the history, and keeps the stores valid on every error path |
| `Notifications.Broadcast.Notify` | apps/auth/src/app/processors/notifications/notifications_users_operations/broadcast/notifications_users_operations.broadcast.ts:21-29 | every channel is asked exactly once, in order, whichever of them throw; nothing is thrown on |
| `Auth.AuthService.SignUp` | apps/auth/src/app/routes/v1/auth/auth.service.ts:60-92 | takes exactly one step; the message with the minted token is sent to every channel if and only if the sign-up was committed |
| `Auth.AuthService.SignUpIn` | apps/auth/src/app/routes/v1/auth/auth.service.ts:72-91 | on every path through the errors the log stays sound and the stores are all or nothing |
| `Auth.AuthService.SignUpTry` | apps/auth/src/app/routes/v1/auth/auth.service.ts:72-85 | the notification after the commit and inside the `try` cannot fail it, so nothing committed is rolled back; messages go out exactly when it committed |
| `Auth.AuthService.SignUpWork` | apps/auth/src/app/routes/v1/auth/auth.service.ts:73-78 | user and sign-up operation are made together; the processor cannot refuse the user just made |
| `Auth.AuthService.SignUpConfirm` | apps/auth/src/app/routes/v1/auth/auth.service.ts:94-101 | takes one step of applying a sign-up token; an error exactly when it was not applied |
| `Auth.AuthService.SignUpResend` | apps/auth/src/app/routes/v1/auth/auth.service.ts:145-156 | takes one step of creating a sign-up for the lower-cased address; the same answer whether or not one was minted; a message exactly when one was |
| `Auth.AuthService.PasswordRecovery` | apps/auth/src/app/routes/v1/auth/auth.service.ts:121-133 | takes one step of creating a recovery for the address as written; the same answer whether or not one was minted |
| `Auth.AuthService.PasswordRecoveryConfirm` | apps/auth/src/app/routes/v1/auth/auth.service.ts:135-143 | takes one step of applying a recovery token; no error when nothing was found |
| `Auth.AuthService.SignIn` | apps/auth/src/app/routes/v1/auth/auth.service.ts:103-119 | takes one sign-in step: wrong password before not verified, a session only for a verified account |
| `Auth.AuthService.Refresh` | apps/auth/src/app/auth/strategies/jwt-refresh.strategy.ts:32-40 | takes one refresh step: a new session for the user of a stored one, else an error |
| `Auth.AuthService.Elapse` | apps/auth/src/app/caches/sessions/session.service.ts:40-44 | time passes and any sessions may be gone |
| `SqlParams.QueryParamsAssign` | libs/utils/src/base.repository.ts:205-234 | the loop computes the one-at-a-time inlining that the lemmas below are about |
| `SqlParams.PlainExpandsToItself` | libs/utils/src/base.repository.ts:209-230 | a literal without `$` patterns is inserted as it is |
| `Text.PrefixIsNotGreater` | libs/utils/src/base.repository.ts:206-207 | a decimal numeral is never a prefix of a smaller number's, so a placeholder is not mistaken for an earlier one |
| `SqlParams.ClearInliningIsSubstitution` | libs/utils/src/base.repository.ts:205-234 | if no literal contains a `$` pattern and at each turn nothing before the placeholder reads like it, one-at-a-time replacement is simultaneous substitution, undefined parameters left in place |
| `SqlInlining.ScalarInliningIsSubstitutionIffSafe` | libs/utils/src/base.repository.ts:205-234 | for strings, numbers, booleans, null and undefined, in any number: one-at-a-time replacement is simultaneous substitution if and only if no literal contains a `$` pattern and at no turn something before the placeholder reads like it |
| `SqlInlining.PlaceholderInFill` | libs/utils/src/base.repository.ts:205-234 | such a turn comes about when an earlier literal contains a later placeholder, wherever in it |
| `SqlInlining.InliningIsSubstitutionIffSafe` | libs/utils/src/base.repository.ts:205-234 | the same with lists and objects whose literals are not empty and have no `$` at either end: a literal with a `$` pattern, or a turn at which something before reads like the placeholder, leaves a wrong text for good |
| `SqlInlining.ExpansionIsIdentityIffPlain` | libs/utils/src/base.repository.ts:209-230 | between texts without `$` patterns `replace` inserts exactly the literals without any as they are |
| `SqlInlining.PatternDiverges` | libs/utils/src/base.repository.ts:209-230 | where a literal with a `$` pattern first comes out different, it does not come out as a `$`, so no later turn can repair it |
| `SqlInlining.DoubledDollarIsLost` | libs/utils/src/base.repository.ts:209-211 | a string with a doubled dollar sign loses one, although its turn is clear: a concrete query that goes wrong |
| `SqlParams.DollarFreeInliningIsSubstitution` | libs/utils/src/base.repository.ts:205-234 | with literals free of `$` it is substitution, for any number of parameters |
| `SqlInlining.StringCanShadowPlaceholder` | libs/utils/src/base.repository.ts:209-211 | a string that reads like a later placeholder gets that parameter's literal: a concrete query that goes wrong |
| `UpdateStatement.SendUpdateFrom` | libs/utils/src/base.repository.ts:466-519 | the text sent for the two queries of the builder, which both count their parameters from $1, is the text of one UPDATE … FROM statement, values in their places |
| `UpdateStatement.StatementSetsSelectedRows` | libs/utils/src/base.repository.ts:466-519 | that statement, with its self-join on the primary key, its inner and left joins and its filter, sets exactly the rows that the select query returns, each once, and leaves the others |
| `UpdateStatement.UpdatesIffCopySelected` | libs/utils/src/base.repository.ts:485-490 | the added key condition makes the statement set a row if and only if the select query returns a row with the same key |
| `UpdateStatement.SubstitutedThen` | libs/utils/src/base.repository.ts:492-512 | putting values into a query joined of two is joining the two with their values |
| `UpdateFrom.ComposedStatementKeepsParametersApart` | libs/utils/src/base.repository.ts:492-512 | two queries that both count from $1 can be joined: every place has the parameter of its own query, and the cut removes exactly the select list |
| `UpdateFrom.SelfJoinIsFilter` | libs/utils/src/base.repository.ts:475-490 | the update joined with a filtered copy on the key sets exactly the rows that pass the filter, however many joined rows match |
| `UpdateFrom.SelfJoinIsFilterIffKeyIdentifies` | libs/utils/src/base.repository.ts:485-490 | for all filters this is so if and only if the key identifies the rows |
| `EntityMatcher.ValueCompareDecidesSame` | jest/entity-compare.matcher.ts:45-73 | on comparable values the comparison throws nothing and decides structural equality at every depth, although it visits one side's keys only |
| `EntityMatcher.InclusionIsEquality` | jest/entity-compare.matcher.ts:51-66 | equal key counts and one-way inclusion are equality of the key sets, with equal values under them |
| `EntityMatcher.SameReflexive` | jest/entity-compare.matcher.ts:45-73 | what it decides is an equivalence: reflexive, where dates are valid |
| `EntityMatcher.SameSymmetric` | jest/entity-compare.matcher.ts:45-73 | symmetric, so the order of the arguments does not matter |
| `EntityMatcher.SameTransitive` | jest/entity-compare.matcher.ts:45-73 | transitive |
| `EntityMatcher.DecidesSameIffFlat` | jest/entity-compare.matcher.ts:45-73 | over all partners, the comparison of an object decides structural equality if and only if none of its values is undefined, null, a date or an object |
| `EntityMatcher.ThrowsIffNested` | jest/entity-compare.matcher.ts:46-62 | the comparison of an object, as the formatting leaves it, throws on some partner if and only if one of its values is null, a date or an object |
| `MatcherErrors.MatcherThrowsIffNested` | jest/entity-compare.matcher.ts:98-154 | the whole matcher throws on an entity and some expected one, where it should pass or fail, if and only if the entity has a date or a plain object under a key that is neither skipped nor a relation |
| `EntityMatcher.ShapesMatter` | jest/entity-compare.matcher.ts:50-70 | without equal shapes it decides something else or throws: three concrete pairs |
| `EntityMatcher.EntityFormat` | jest/entity-compare.matcher.ts:75-96 | the loop computes the formatted entity or the error that the lemmas below are about |
| `EntityMatcher.FormattedIsFlat` | jest/entity-compare.matcher.ts:5-43 | a formatted entity has exactly the keys that are not skipped, each once, and no null, undefined, list or entity under them |
| `EntityMatcher.FormatThrowsIffStringMeetsNothing` | jest/entity-compare.matcher.ts:89-92 | formatting throws if and only if a kept string meets an empty other list |
| `EntityMatcher.ToEntityCompare` | jest/entity-compare.matcher.ts:98-154 | the loops with their flag and early exits compute, on all inputs and with all errors, the comparison that the next lemma is about |
| `EntityMatcher.MatcherDecidesPermutation` | jest/entity-compare.matcher.ts:98-154 | on comparable entities the matcher passes if and only if there are equally many and every expected one is found; with pairwise different expected entities, if and only if the formatted lists are permutations of each other |
| `EntityMatcher.SearchFindsPermutation` | jest/entity-compare.matcher.ts:138-153 | by the pigeonhole argument: finding each of pairwise different entities among equally many is finding a permutation |
| `EntityMatcher.Pigeonhole` | jest/entity-compare.matcher.ts:135-154 | n different numbers below n are all of them |
| `EntityMatcher.DuplicatesHideAStranger` | jest/entity-compare.matcher.ts:138-153 | for any expected list of objects with two equal ones there is an actual list that passes, with an object in it that no expected one equals |
| `EntityMatcher.SearchIsRightIffDifferent` | jest/entity-compare.matcher.ts:138-153 | over all actual lists, the search is right if and only if the expected objects are pairwise different |
| `QueueRestart.Queue.RestartQueue` | libs/queue_restart/src/queue.restart.abstract.ts:17-40 | a sweep terminates although its body shrinks the list; it fails if and only if a retry threw; even then only stale jobs were retried, none twice, the rest keeps its order, and both together make up the old list |
| `QueueRestart.Queue.NextPage` | libs/queue_restart/src/queue.restart.abstract.ts:22-38 | one page of a sweep, at any offset: what was retried stays safe, the list never grows, and if no job becomes stale meanwhile the rest of the sweep is what the whole was, or there is no page and nothing left to do |
| `QueueRestart.Queue.RetryPage` | libs/queue_restart/src/queue.restart.abstract.ts:28-36 | of one page all jobs that were stale at its start, and only jobs that are stale at its end, are retried, unless a retry throws |
| `QueueRestart.Queue.RetryIfStale` | libs/queue_restart/src/queue.restart.abstract.ts:29-35 | a job that is too young is skipped, another is retried |
| `QueueRestart.DropSplits` | libs/queue_restart/src/queue.restart.abstract.ts:28-36 | what is retried and what is left are a permutation of the list |
| `QueueRestart.OffsetSweepLeaves` | libs/queue_restart/src/queue.restart.abstract.ts:22-38 | pages read as offset and count: a sweep over stale jobs leaves exactly every other hundred |
| `QueueRestart.IndexSweepLeaves` | libs/queue_restart/src/queue.restart.abstract.ts:22-38 | pages read as an index range: it retries 101 jobs and then at most one more |
| `QueueRestart.SweepRetriesAPage` | libs/queue_restart/src/queue.restart.abstract.ts:17-40 | either way a hundred at least, or all |
| `QueueRestart.SweepsConverge` | libs/queue_restart/src/queue.restart.service.ts:40-52 | ceil(n/100) sweeps empty a list of n stale jobs, in both readings |
| `QueueRestart.RestartRepeatedly` | libs/queue_restart/src/queue.restart.abstract.ts:17-40 | a queue object restarted again and again holds, if no job becomes stale meanwhile, what the repeated sweeps leave that the lemmas here are about; if its n failed jobs are all stale, ceil(n/100) times leave none; in both cases unless a retry threw |
| `MixedSweeps.IndexSweepsReachIff` | libs/queue_restart/src/queue.restart.service.ts:40-52 | pages read as an index range, over lists of stale and young jobs: repeated sweeps retry a stale job if and only if at most a hundred young ones stand before it; any other is never retried |
| `MixedSweeps.OffsetSweepHalvesStale` | libs/queue_restart/src/queue.restart.abstract.ts:22-38 | pages read as offset and count: whatever young jobs stand between, each sweep retries at least half of the stale ones |
| `MixedSweeps.OffsetSweepsReachAll` | libs/queue_restart/src/queue.restart.service.ts:40-52 | so k sweeps retry all of fewer than 2^k stale jobs, and leave exactly the young ones in their order |
| `QueueRestart.QueueRestartService.Ticks` | libs/queue_restart/src/queue.restart.service.ts:40-52 | the same for every registered queue over the ticks of the service |
| `QueueRestart.OffsetSweepsHalve` | libs/queue_restart/src/queue.restart.service.ts:40-52 | with offset and count k+1 sweeps empty 100 times 2^k jobs |
| `QueueRestart.QueueRestartService.Handle` | libs/queue_restart/src/queue.restart.service.ts:40-52 | fails if and only if a retry threw; otherwise every registered queue is resolved, remembered and swept: if all its jobs were stale it has lost a hundred, or all |
| `QueueRestart.QueueRestartService.HandleEntry` | libs/queue_restart/src/queue.restart.service.ts:43-51 | one entry: resolved or remembered, swept, and no failed job added |
| `CryptoCodec.DeserializeAfterSerialize` | libs/utils/src/crypto.utils.ts:58-74 | for every value the round trip gives its text without double quotes, so it is the identity exactly on texts without any |
| `CryptoCodec.NumbersComeBackAsText` | libs/utils/src/crypto.utils.ts:72-74 | a number comes back as its decimal text |
| `CryptoCodec.CryptoUtils.Encrypt` | libs/utils/src/crypto.utils.ts:94-118 | whatever the random vector, and for every invertible cipher, the payload can be decrypted under the same algorithm and key, and gives the text without its double quotes |
| `CryptoCodec.CryptoUtils.Decrypt` | libs/utils/src/crypto.utils.ts:126-136 | gives back what was encrypted, without its double quotes; no result has any, whatever the payload; exactly what cannot be unpacked is reported as such |
| `CryptoCodec.CryptoUtils.DecryptAfterEncrypt` | libs/utils/src/crypto.utils.ts:94-136 | for every invertible cipher, under the same algorithm and key, decrypting what was encrypted gives the text without its double quotes: the text itself if and only if it has none |
| `SeedReader.LoadSeeds` | libs/tools/src/seeds/seed.abstract.ts:8-30 | the two loops compute the objects that the lemmas below are about |
| `SeedReader.SlicedInvertsRender` | libs/tools/src/seeds/seed.abstract.ts:14-18 | cutting a rendered table into lines and cells gives the table back, also with a trailing comma or trailing blanks |
| `SeedReader.SlicedInvertsRenderIff` | libs/tools/src/seeds/seed.abstract.ts:14-18 | exactly the lines that come back: cells without commas and newlines, the last of which ends in something visible |
| `SeedReader.TailIsStripped` | libs/tools/src/seeds/seed.abstract.ts:15-16 | trimming and stripping remove blanks, or one comma with blanks, and nothing else |
| `SeedReader.RowObjectIsColumnwise` | libs/tools/src/seeds/seed.abstract.ts:22-27 | the object of a row no longer than the header, whose columns of the same name agree, has exactly the row's cells under its column names, `null` decoded |
| `SeedReader.LoadInvertsRender` | libs/tools/src/seeds/seed.abstract.ts:12-30 | reading a rendered table yields its rows in order, each as that object |
| `SeedReader.RowIsObjectIff` | libs/tools/src/seeds/seed.abstract.ts:22-27 | a row comes back as such an object if and only if it is no longer than the header and no column is given two values |
| `SeedReader.LoadInvertsRenderIff` | libs/tools/src/seeds/seed.abstract.ts:12-30 | of the tables whose lines come back, exactly those yield all their rows as objects in which every row is like that |
| `SeedReader.UndefinedColumnIffRowTooLong` | libs/tools/src/seeds/seed.abstract.ts:22-26 | a column called `undefined` appears if and only if a row is longer than the header |

## Left out

- Accounts.WellPosed: restricts requests to what the typed interfaces ask for; an entity object handed to a sign-up or recovery agrees with its stored row (see `EntityMustBeUpToDate` for what happens otherwise), and the data of an e-mail change has an address, though its type allows none.
- Accounts.ToLowerCase: lower-cases the ASCII letters only.
- Persistence.Backend.GetUUID: tokens are naturals of which only freshness matters; the text of tokens and session identifiers is not modelled.
- Persistence.QueryRunner.Release: does not throw, because a release that throws would replace the error of the request.
- Persistence.QueryRunner.CommitTransaction: a commit that throws has not taken effect; the case of one that took effect and still throws is not modelled.
- Processors.SessionsProcessor.DropAll: says only that nobody else's sessions go, because what the cache makes of the pattern it is given is not in this repository.
- AccountRuns.ResendThenConfirmVerifies: says nothing about an account whose stored address is not in lower case, which a resend does not find.
- SqlInlining.InliningIsSubstitutionIffSafe: asks for literals that are not empty and neither start nor end with a dollar sign, which holds of every string, number, boolean and null, because an empty one inlined in a wrong place can leave the right text by chance; the if direction needs no such thing, and `ScalarInliningIsSubstitutionIffSafe` asks nothing of the literals. Both also ask for some text before the first placeholder and between any two.
- EntityMatcher.ValueCompareDecidesSame: asks for comparable values, which is enough and, for a single pair, not always needed; `DecidesSameIffFlat` is exact over all partners.
- UpdateStatement.SendUpdateFrom: asks for numbers, booleans and null as values, because the database reads a string in double quotes as a column name, and for a select list without the word that the text is cut at. The quoting of names, the parentheses of conditions and the locking clause of the builder are not modelled.
- UpdateStatement.StatementSetsSelectedRows: gives the meaning of the statement's syntax, not of its text; how the database parses the text is not modelled.
- QueueRestart.SweepsConverge: no job fails anew during the sweeps and all are stale when they start; `MixedSweeps` has the lists with young jobs among them, as long as none of these becomes stale.
- CryptoCodec.LengthText: counts characters, where the source counts UTF-16 units; reading back does not look at the count.
- CryptoCodec.CryptoUtils.DecryptAfterEncrypt: says nothing about a payload that was encrypted under another algorithm or key.
- Requests interleaved with one another. Reads in the middle of a transaction see the committed tables, so the theorems are about requests served one after the other; a request happens at one instant of a linear clock, so daylight saving does not move a deadline.
- A transaction that cannot be started: the source starts it before its `try`, so its runner is not released. The model does the same, and the discipline says "released if and only if started".
- Naming the user of a sign-up or password change by a number: the source then asks for a column that users do not have.
- The branch of the users processor that makes its own runner; the service always passes one.
- The operation types for confirming a sign-up and for signing in by e-mail, which nothing uses.
- bcrypt, beyond that a hash accepts exactly the text it was made from; its cut after 72 bytes is not modelled.
- What TypeORM writes for a saved entity, beyond the columns that are set; the copying loops of `save` and the removal of undefined properties in `update`.
- Making and checking JWTs, guards, validation of requests, controllers, modules, configuration and health checks: plumbing.
- Numbers other than integers, in parameters and in compared values; properties inherited from a prototype.
- The scan of the modules in the constructor of the queue restart service; the model is given the list of providers it finds.
- The setters of the crypto helper, and its message digest, which decrypting does not check.
- The reading of the seed file itself.

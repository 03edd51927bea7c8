/** What the transaction code may ask of a query runner, told from the log of its calls. */
module RunnerDiscipline {

  datatype CallKind = START | COMMIT | ROLLBACK | RELEASE

  /** One call on query runner number `runner`; `ok` is false when it threw. */
  datatype RunnerCall = RunnerCall(runner: nat, kind: CallKind, ok: bool)

  predicate SameRunner(a: RunnerCall, b: RunnerCall) {
    a.runner == b.runner
  }

  /** A released runner is never used again, so the release is the last call and the only one. */
  predicate ReleasedLast(calls: seq<RunnerCall>) {
    forall i, j :: 0 <= i < j < |calls| && calls[i].kind == RELEASE ==> !SameRunner(calls[i], calls[j])
  }

  predicate NoRollbackAfterCommit(calls: seq<RunnerCall>) {
    forall i, j :: 0 <= i < j < |calls| && calls[i].kind == COMMIT && calls[i].ok && calls[j].kind == ROLLBACK ==>
      !SameRunner(calls[i], calls[j])
  }

  predicate Settles(c: RunnerCall) {
    (c.kind == COMMIT && c.ok) || c.kind == ROLLBACK
  }

  /** A transaction is settled, by a commit or by an attempt to roll back, before its
      runner is released. */
  predicate SettledBeforeRelease(calls: seq<RunnerCall>) {
    forall j :: 0 <= j < |calls| && calls[j].kind == RELEASE ==>
      exists i :: 0 <= i < j && SameRunner(calls[i], calls[j]) && Settles(calls[i])
  }

  /** A runner is released if and only if its transaction could be started. */
  ghost predicate ReleasedIffStarted(calls: seq<RunnerCall>) {
    forall r: nat :: IsCalled(calls, r, RELEASE, true) <==> IsCalled(calls, r, START, true)
  }

  predicate IsCalled(calls: seq<RunnerCall>, runner: nat, kind: CallKind, ok: bool) {
    RunnerCall(runner, kind, ok) in calls
  }

  ghost predicate Disciplined(calls: seq<RunnerCall>) {
    && ReleasedLast(calls)
    && NoRollbackAfterCommit(calls)
    && SettledBeforeRelease(calls)
    && ReleasedIffStarted(calls)
  }

  /** The complete life of a runner: the transaction could not be started; or it was
      committed; or it was rolled back, perhaps after a commit that threw. */
  datatype Life = NotStarted | Committed | RolledBack(attempted: bool, ok: bool)

  function FailedCommit(r: nat, attempted: bool): seq<RunnerCall> {
    if attempted then [RunnerCall(r, COMMIT, false)] else []
  }

  function CallsOf(life: Life, r: nat): (calls: seq<RunnerCall>)
    ensures calls != [] && forall c :: c in calls ==> c.runner == r
  {
    match life
    case NotStarted => [RunnerCall(r, START, false)]
    case Committed => [RunnerCall(r, START, true), RunnerCall(r, COMMIT, true), RunnerCall(r, RELEASE, true)]
    case RolledBack(attempted, ok) =>
      [RunnerCall(r, START, true)] + FailedCommit(r, attempted) +
        [RunnerCall(r, ROLLBACK, ok), RunnerCall(r, RELEASE, true)]
  }

  /** The calls of one life are disciplined, and released exactly if started. */
  lemma LifeIsDisciplined(life: Life, r: nat)
    ensures Disciplined(CallsOf(life, r))
  {
    var calls := CallsOf(life, r);
    if life.RolledBack? {
      assert calls[|calls| - 2] == RunnerCall(r, ROLLBACK, life.ok);
    } else if life.Committed? {
      assert calls[1] == RunnerCall(r, COMMIT, true);
    }
    if !life.NotStarted? {
      assert calls[0] in calls && calls[|calls| - 1] in calls;
    }
  }

  /** The life of a runner that was not in use before keeps the whole log disciplined. */
  lemma LifeKeepsDiscipline(calls: seq<RunnerCall>, life: Life, r: nat)
    requires Disciplined(calls) && forall c :: c in calls ==> c.runner != r
    ensures Disciplined(calls + CallsOf(life, r))
  {
    LifeIsDisciplined(life, r);
    DisciplineOfConcat(calls, CallsOf(life, r), r);
  }

  /** Two disciplined logs that have no runner in common are disciplined together. */
  lemma DisciplineOfConcat(calls: seq<RunnerCall>, life: seq<RunnerCall>, r: nat)
    requires Disciplined(calls) && Disciplined(life)
    requires (forall c :: c in calls ==> c.runner != r) && forall c :: c in life ==> c.runner == r
    ensures Disciplined(calls + life)
  {
    var all := calls + life;
    forall i, j | 0 <= i < j < |all| && SameRunner(all[i], all[j])
      ensures all[i].kind != RELEASE
      ensures !(all[i].kind == COMMIT && all[i].ok && all[j].kind == ROLLBACK)
    {
      if j < |calls| {
        assert all[i] == calls[i] && all[j] == calls[j];
      } else {
        assert all[j] == life[j - |calls|];
        assert i >= |calls| && all[i] == life[i - |calls|];
      }
    }
    forall j | 0 <= j < |all| && all[j].kind == RELEASE
      ensures exists i :: 0 <= i < j && SameRunner(all[i], all[j]) && Settles(all[i])
    {
      if j < |calls| {
        var i :| 0 <= i < j && SameRunner(calls[i], calls[j]) && Settles(calls[i]);
        assert all[i] == calls[i];
      } else {
        var k := j - |calls|;
        assert life[k] == all[j];
        var i :| 0 <= i < k && SameRunner(life[i], life[k]) && Settles(life[i]);
        assert all[i + |calls|] == life[i];
      }
    }
    assert forall q: nat, kind :: IsCalled(all, q, kind, true) <==>
           IsCalled(calls, q, kind, true) || IsCalled(life, q, kind, true);
  }

  /** The lives of the runners 0, 1, 2 …, one after the other. */
  function Flatten(lives: seq<Life>): seq<RunnerCall> {
    if lives == [] then [] else Flatten(lives[..|lives| - 1]) + CallsOf(lives[|lives| - 1], |lives| - 1)
  }

  /** The log of a service that has handed out the runners 0 .. runners - 1: one complete
      life after the other. */
  ghost predicate LogSound(calls: seq<RunnerCall>, runners: nat) {
    exists lives :: Flatten(lives) == calls && |lives| == runners
  }

  lemma {:induction false} LivesAreDisciplined(lives: seq<Life>)
    ensures Disciplined(Flatten(lives)) && forall c :: c in Flatten(lives) ==> c.runner < |lives|
  {
    if lives != [] {
      var front := lives[..|lives| - 1];
      LivesAreDisciplined(front);
      LifeKeepsDiscipline(Flatten(front), lives[|lives| - 1], |lives| - 1);
    }
  }

  /** Over a whole run of the service, on every path through its errors: a runner is
      released if and only if its transaction could be started, then once and as its last
      call, after the transaction was settled; and no committed transaction is rolled back. */
  lemma SoundLogIsDisciplined(calls: seq<RunnerCall>, runners: nat)
    requires LogSound(calls, runners)
    ensures Disciplined(calls) && forall c :: c in calls ==> c.runner < runners
  {
    var lives :| Flatten(lives) == calls && |lives| == runners;
    LivesAreDisciplined(lives);
  }

  lemma LifeIsAdded(calls: seq<RunnerCall>, life: Life, r: nat)
    requires LogSound(calls, r)
    ensures LogSound(calls + CallsOf(life, r), r + 1)
  {
    var lives :| Flatten(lives) == calls && |lives| == r;
    FlattenMore(lives, life);
  }

  lemma FlattenMore(lives: seq<Life>, life: Life)
    ensures Flatten(lives + [life]) == Flatten(lives) + CallsOf(life, |lives|)
  {
    var longer := lives + [life];
    assert longer[..|longer| - 1] == lives && longer[|longer| - 1] == life;
  }

  lemma NotStartedIsSound(calls: seq<RunnerCall>, r: nat)
    requires LogSound(calls, r)
    ensures LogSound(calls + [RunnerCall(r, START, false)], r + 1)
  {
    LifeIsAdded(calls, NotStarted, r);
  }

  lemma CommittedIsSound(calls: seq<RunnerCall>, r: nat)
    requires LogSound(calls, r)
    ensures LogSound(calls + [RunnerCall(r, START, true)] + [RunnerCall(r, COMMIT, true)] +
            [RunnerCall(r, RELEASE, true)], r + 1)
  {
    assert calls + [RunnerCall(r, START, true)] + [RunnerCall(r, COMMIT, true)] + [RunnerCall(r, RELEASE, true)] ==
           calls + CallsOf(Committed, r);
    LifeIsAdded(calls, Committed, r);
  }

  lemma ConcatInLife(calls: seq<RunnerCall>, start: seq<RunnerCall>, commit: seq<RunnerCall>, rollback: RunnerCall,
        release: RunnerCall)
    ensures calls + start + commit + [rollback] + [release] == calls + (start + commit + [rollback, release])
  {
    assert [rollback] + [release] == [rollback, release];
  }

  lemma RolledBackIsSound(calls: seq<RunnerCall>, r: nat, attempted: bool, ok: bool)
    requires LogSound(calls, r)
    ensures var tried := calls + [RunnerCall(r, START, true)] + FailedCommit(r, attempted);
            LogSound(tried + [RunnerCall(r, ROLLBACK, ok)] + [RunnerCall(r, RELEASE, true)], r + 1)
  {
    ConcatInLife(calls, [RunnerCall(r, START, true)], FailedCommit(r, attempted), RunnerCall(r, ROLLBACK, ok),
      RunnerCall(r, RELEASE, true));
    LifeIsAdded(calls, RolledBack(attempted, ok), r);
  }
}

/**
 The restart of failed jobs: a loop that pages through a list which its own body shrinks.
 */
module QueueRestart {
  import opened Prelude

  datatype Job = Job(id: nat, finishedOn: int)

  datatype QueueError = RetryFailed

  /** How the queue reads the two arguments of `getFailed`: as the first and last index of
      a range, both included, or as an offset and a count. */
  datatype WindowKind = INDEX_RANGE | OFFSET_COUNT

  const LIMIT: nat := 100

  function Min(a: int, b: int): int {
    if a <= b then a else b
  }

  /** `getFailed(offset, LIMIT)` */
  function Window(failed: seq<Job>, offset: nat, kind: WindowKind): (page: seq<Job>)
    ensures |page| <= |failed|
    ensures page != [] ==> offset < |failed|
    ensures forall j :: j in page ==> j in failed
  {
    var end := Min(|failed|, if kind.INDEX_RANGE? then LIMIT + 1 else offset + LIMIT);
    if offset < end then failed[offset..end] else []
  }

  /** No job occurs twice. */
  predicate Distinct(jobs: seq<Job>) {
    jobs != [] ==> jobs[|jobs| - 1] !in jobs[..|jobs| - 1] && Distinct(jobs[..|jobs| - 1])
  }

  lemma SliceOfFront(jobs: seq<Job>, lo: nat, hi: nat)
    requires lo <= hi <= |jobs| && lo < |jobs|
    ensures hi < |jobs| ==> jobs[..|jobs| - 1][lo..hi] == jobs[lo..hi]
    ensures hi == |jobs| ==> jobs[..|jobs| - 1][lo..hi - 1] == jobs[lo..hi][..hi - lo - 1]
  {
    var front := jobs[..|jobs| - 1];
    if hi < |jobs| {
      assert |front[lo..hi]| == |jobs[lo..hi]|;
      assert forall i :: 0 <= i < hi - lo ==> front[lo..hi][i] == jobs[lo + i] == jobs[lo..hi][i];
    } else {
      var x, y := front[lo..hi - 1], jobs[lo..hi][..hi - lo - 1];
      assert |x| == |y|;
      assert forall i :: 0 <= i < |x| ==> x[i] == jobs[lo + i] == y[i];
    }
  }

  lemma {:induction false} SliceIsDistinct(jobs: seq<Job>, lo: nat, hi: nat)
    requires lo <= hi <= |jobs| && Distinct(jobs)
    ensures Distinct(jobs[lo..hi])
  {
    if lo < |jobs| {
      SliceOfFront(jobs, lo, hi);
      SliceIsDistinct(jobs[..|jobs| - 1], lo, if hi < |jobs| || lo == hi then hi else hi - 1);
    }
  }

  /** `jobs` without the ones in `gone`, in their order. */
  function Drop(jobs: seq<Job>, gone: set<Job>): (rest: seq<Job>)
    ensures |rest| <= |jobs|
  {
    if jobs == [] then []
    else
      var last := jobs[|jobs| - 1];
      var front := Drop(jobs[..|jobs| - 1], gone);
      if last in gone then front else front + [last]
  }

  lemma {:induction false} DropMembers(jobs: seq<Job>, gone: set<Job>)
    ensures forall j :: j in Drop(jobs, gone) <==> j in jobs && j !in gone
  {
    if jobs != [] {
      DropMembers(jobs[..|jobs| - 1], gone);
      assert jobs == jobs[..|jobs| - 1] + [jobs[|jobs| - 1]];
    }
  }

  ghost function Elements(jobs: seq<Job>): (s: set<Job>)
    ensures forall j :: j in s <==> j in jobs
  {
    set j | j in jobs
  }

  lemma {:induction false} DropNothing(jobs: seq<Job>)
    ensures Drop(jobs, {}) == jobs
  {
    if jobs != [] {
      DropNothing(jobs[..|jobs| - 1]);
      assert jobs == jobs[..|jobs| - 1] + [jobs[|jobs| - 1]];
    }
  }

  lemma {:induction false} DropTwice(jobs: seq<Job>, a: set<Job>, b: set<Job>)
    ensures Drop(Drop(jobs, a), b) == Drop(jobs, a + b)
  {
    if jobs != [] {
      var front, last := jobs[..|jobs| - 1], jobs[|jobs| - 1];
      DropTwice(front, a, b);
      if last !in a {
        var d := Drop(front, a);
        assert (d + [last])[..|d|] == d;
      }
    }
  }

  lemma {:induction false} DropKeepsDistinct(jobs: seq<Job>, gone: set<Job>)
    requires Distinct(jobs)
    ensures Distinct(Drop(jobs, gone))
  {
    if jobs != [] {
      var front, last := jobs[..|jobs| - 1], jobs[|jobs| - 1];
      DropKeepsDistinct(front, gone);
      DropMembers(front, gone);
      var d := Drop(front, gone);
      assert (d + [last])[..|d|] == d;
    }
  }

  /** What is dropped and what is left make up the list. */
  lemma {:induction false} DropSplits(jobs: seq<Job>, gone: seq<Job>)
    requires Distinct(jobs) && Distinct(gone) && forall j :: j in gone ==> j in jobs
    ensures multiset(Drop(jobs, Elements(gone))) + multiset(gone) == multiset(jobs)
    ensures |Drop(jobs, Elements(gone))| + |gone| == |jobs|
  {
    var rest := Drop(jobs, Elements(gone));
    DropKeepsDistinct(jobs, Elements(gone));
    DropMembers(jobs, Elements(gone));
    DistinctMultiset(jobs);
    DistinctMultiset(gone);
    DistinctMultiset(rest);
    assert multiset(rest) + multiset(gone) == multiset(jobs);
    assert |multiset(rest)| + |multiset(gone)| == |multiset(jobs)|;
  }

  lemma {:induction false} DistinctMultiset(jobs: seq<Job>)
    requires Distinct(jobs)
    ensures forall j :: multiset(jobs)[j] == if j in jobs then 1 else 0
  {
    if jobs != [] {
      var front, last := jobs[..|jobs| - 1], jobs[|jobs| - 1];
      DistinctMultiset(front);
      assert jobs == front + [last] && last !in front;
    }
  }

  /** The same told by counting. */
  ghost predicate NoneTwice(jobs: seq<Job>) {
    forall j :: multiset(jobs)[j] <= 1
  }

  lemma {:induction false} DistinctIffNoneTwice(jobs: seq<Job>)
    ensures Distinct(jobs) <==> NoneTwice(jobs)
  {
    if jobs != [] {
      var front, last := jobs[..|jobs| - 1], jobs[|jobs| - 1];
      DistinctIffNoneTwice(front);
      assert jobs == front + [last];
      assert multiset(jobs) == multiset(front) + multiset{last};
      if NoneTwice(jobs) {
        assert multiset(jobs)[last] == multiset(front)[last] + 1;
        forall j ensures multiset(front)[j] <= 1 { assert multiset(front)[j] <= multiset(jobs)[j]; }
      } else if Distinct(jobs) {
        DistinctMultiset(jobs);
      }
    }
  }

  /** One sweep from `offset` on, when exactly the jobs in `stale` are old enough. */
  ghost function Sweep(failed: seq<Job>, offset: nat, kind: WindowKind, stale: set<Job>): (rest: seq<Job>)
    ensures |rest| <= |failed|
    decreases |failed| - offset
  {
    var page := Window(failed, offset, kind);
    if page == [] then failed
    else Sweep(Drop(failed, Elements(page) * stale), offset + LIMIT, kind, stale)
  }

  /** Failed at least the refresh time before `now`. */
  predicate IsStale(job: Job, now: int, refreshTime: int) {
    now - job.finishedOn >= refreshTime
  }

  ghost function Stale(jobs: seq<Job>, now: int, refreshTime: int): set<Job> {
    set j | j in jobs && IsStale(j, now, refreshTime)
  }

  ghost predicate AllStale(jobs: seq<Job>, now: int, refreshTime: int) {
    Elements(jobs) <= Stale(jobs, now, refreshTime)
  }

  class Queue {
    var failed: seq<Job>
    var waiting: seq<Job>
    var clock: int
    /** How many retries have thrown. */
    ghost var throws: nat
    const kind: WindowKind
    const refreshTime: int

    ghost predicate Valid()
      reads this
    {
      Distinct(failed)
    }

    constructor (kind: WindowKind, refreshTime: int, failed: seq<Job>, clock: int)
      requires Distinct(failed)
      ensures Valid() && this.kind == kind && this.refreshTime == refreshTime
      ensures this.failed == failed && this.clock == clock && waiting == [] && throws == 0
    {
      this.kind, this.refreshTime, this.failed, this.clock := kind, refreshTime, failed, clock;
      waiting, throws := [], 0;
    }

    /** Reads the clock; time may have passed since. */
    method Now() returns (now: int)
      modifies this`clock
      ensures now == clock >= old(clock)
    {
      var passed: int := *;
      if passed > 0 {
        clock := clock + passed;
      }
      now := clock;
    }

    /** Moves a failed job back to the waiting ones, or throws. */
    method Retry(job: Job) returns (r: Result<(), QueueError>)
      requires job in failed
      modifies this`failed, this`waiting, this`throws
      ensures throws == old(throws) + if r.Err? then 1 else 0
      ensures r.Ok? ==> failed == Drop(old(failed), {job}) && waiting == old(waiting) + [job]
      ensures r.Err? ==> failed == old(failed) && waiting == old(waiting)
    {
      var refused: bool := *;
      if refused {
        throws := throws + 1;
        return Err(RetryFailed);
      }
      failed, waiting := Drop(failed, {job}), waiting + [job];
      return Ok(());
    }

    /** The jobs put back since there were `n` waiting. */
    ghost function RetriedSince(n: nat): seq<Job>
      reads `waiting
    {
      if n <= |waiting| then waiting[n..] else []
    }

    /** One round of the inner loop: skips a job that is too young, retries another. */
    method RetryIfStale(job: Job) returns (r: Result<bool, QueueError>)
      requires job in failed
      modifies this`failed, this`waiting, this`clock, this`throws
      ensures clock >= old(clock)
      ensures throws == if r.Err? then old(throws) + 1 else old(throws)
      ensures r == Ok(true) ==>
              IsStale(job, clock, refreshTime) && failed == Drop(old(failed), {job}) && waiting == old(waiting) + [job]
      ensures r != Ok(true) ==> failed == old(failed) && waiting == old(waiting)
      ensures r == Ok(false) ==> !IsStale(job, old(clock), refreshTime)
    {
      var now := Now();
      var timeLeft := now - job.finishedOn;
      if timeLeft < refreshTime {
        return Ok(false);
      }
      var _ :- Retry(job);
      return Ok(true);
    }

    /** Retries the stale jobs of one page. */
    method RetryPage(jobs: seq<Job>) returns (r: Result<(), QueueError>)
      requires Distinct(jobs) && Elements(jobs) <= Elements(failed)
      modifies this`failed, this`waiting, this`clock, this`throws
      ensures clock >= old(clock)
      ensures throws == if r.Err? then old(throws) + 1 else old(throws)
      ensures waiting == old(waiting) + RetriedSince(|old(waiting)|)
      ensures failed == Drop(old(failed), Elements(RetriedSince(|old(waiting)|)))
      ensures PageDone(jobs, |jobs|, RetriedSince(|old(waiting)|), old(clock), clock, refreshTime, r.Ok?)
    {
      ghost var gone: seq<Job> := [];
      DropNothing(failed);
      assert Elements(gone) == {};
      r := Ok(());
      var i := 0;
      while i < |jobs|
        invariant 0 <= i <= |jobs| && clock >= old(clock) && throws == old(throws)
        invariant waiting == old(waiting) + gone
        invariant failed == Drop(old(failed), Elements(gone))
        invariant PageDone(jobs, i, gone, old(clock), clock, refreshTime, true)
      {
        PageNext(jobs, i, gone, old(failed));
        ghost var since := clock;
        var retried := RetryIfStale(jobs[i]);
        PageStep(jobs, i, gone, old(clock), since, clock, refreshTime, retried);
        if retried.Err? {
          assert RetriedSince(|old(waiting)|) == gone;
          return Err(retried.error);
        }
        if retried.value {
          DropTwice(old(failed), Elements(gone), {jobs[i]});
          gone := gone + [jobs[i]];
        }
        i := i + 1;
      }
      assert RetriedSince(|old(waiting)|) == gone;
    }

    /** A sweep that found the list `was` at time `start` has retried the jobs in `gone`. */
    ghost predicate Sweeping(was: seq<Job>, start: int, gone: seq<Job>)
      reads this
    {
      && NoneTwice(gone) && start <= clock
      && Elements(gone) <= Stale(was, clock, refreshTime)
      && failed == Drop(was, Elements(gone))
    }

    lemma SweepStarts()
      requires Valid()
      ensures Sweeping(failed, clock, [])
    {
      DropNothing(failed);
      assert Elements([]) == {};
    }

    /** Fetches a page and retries its stale jobs. There may be no page any more. */
    method NextPage(offset: nat, ghost was: seq<Job>, ghost start: int, ghost gone: seq<Job>)
        returns (r: Result<bool, QueueError>, ghost retried: seq<Job>)
      requires Distinct(was) && Sweeping(was, start, gone)
      modifies this`failed, this`waiting, this`clock, this`throws
      ensures Sweeping(was, start, gone + retried) && waiting == old(waiting) + retried
      ensures throws == if r.Err? then old(throws) + 1 else old(throws)
      ensures r == Ok(true) ==> offset < old(|failed|) && |failed| <= old(|failed|)
      ensures r.Ok? && Stale(was, start, refreshTime) == Stale(was, clock, refreshTime) ==>
                && Stale(was, start, refreshTime) == Stale(was, old(clock), refreshTime)
                && Sweep(old(failed), offset, kind, Stale(was, start, refreshTime)) ==
                   if r.value then Sweep(failed, offset + LIMIT, kind, Stale(was, start, refreshTime)) else failed
    {
      DistinctIffNoneTwice(gone);
      DropKeepsDistinct(was, Elements(gone));
      WindowIsDistinct(failed, offset, kind);
      var jobs := Window(failed, offset, kind);
      retried := [];
      assert gone + retried == gone;
      if |jobs| == 0 {
        SweepEnds(failed, offset, kind, Stale(was, start, refreshTime));
        return Ok(false), retried;
      }
      ghost var before, since, count := failed, clock, |waiting|;
      var page := RetryPage(jobs);
      retried := RetriedSince(count);
      PageJoins(was, start, gone, jobs, retried, since, clock, refreshTime, page.Ok?);
      DistinctIffNoneTwice(gone + retried);
      if page.Err? {
        return Err(page.error), retried;
      }
      if Stale(was, start, refreshTime) == Stale(was, clock, refreshTime) {
        StaleIsMonotone(was, start, since, clock, refreshTime);
        SweepUnfolds(before, offset, kind, Stale(was, start, refreshTime));
      }
      return Ok(true), retried;
    }

    /** The loop of a sweep. */
    method SweepPages() returns (r: Result<(), QueueError>, ghost gone: seq<Job>)
      requires Valid()
      modifies this`failed, this`waiting, this`clock, this`throws
      ensures Sweeping(old(failed), old(clock), gone) && waiting == old(waiting) + gone
      ensures throws == if r.Err? then old(throws) + 1 else old(throws)
      ensures r.Ok? && Stale(old(failed), old(clock), refreshTime) == Stale(old(failed), clock, refreshTime) ==>
                failed == Sweep(old(failed), 0, kind, Stale(old(failed), old(clock), refreshTime))
    {
      ghost var was, start, stale := failed, clock, Stale(failed, clock, refreshTime);
      r, gone := Ok(()), [];
      SweepStarts();
      var offset: nat := 0;
      while true
        invariant throws == old(throws) && waiting == old(waiting) + gone
        invariant Sweeping(was, start, gone)
        invariant stale == Stale(was, clock, refreshTime) ==>
                  Sweep(failed, offset, kind, stale) == Sweep(was, 0, kind, stale)
        decreases |failed| - offset
      {
        ghost var retried: seq<Job>;
        var page;
        page, retried := NextPage(offset, was, start, gone);
        ConcatAssociates(old(waiting), gone, retried);
        gone := gone + retried;
        if page.Err? {
          return Err(page.error), gone;
        }
        if !page.value {
          return Ok(()), gone;
        }
        offset := offset + LIMIT;
      }
    }

    /** One sweep over the failed jobs. Whether or not a retry throws, only jobs that are
        old enough are retried, none twice, and the failed list is what it was without
        them, in its order. If no job becomes stale meanwhile, the sweep is `Sweep`. */
    method RestartQueue() returns (r: Result<(), QueueError>)
      requires Valid()
      modifies this`failed, this`waiting, this`clock, this`throws
      ensures Valid() && clock >= old(clock)
      ensures throws == if r.Err? then old(throws) + 1 else old(throws)
      ensures waiting == old(waiting) + RetriedSince(|old(waiting)|)
      ensures failed == Drop(old(failed), Elements(RetriedSince(|old(waiting)|)))
      ensures SweepIsSafe(old(failed), failed, RetriedSince(|old(waiting)|), clock, refreshTime)
      ensures r.Ok? && Stale(old(failed), old(clock), refreshTime) == Stale(old(failed), clock, refreshTime) ==>
                failed == Sweep(old(failed), 0, kind, Stale(old(failed), old(clock), refreshTime))
    {
      ghost var gone;
      r, gone := SweepPages();
      assert RetriedSince(|old(waiting)|) == gone;
      SweepWasSafe(old(failed), gone, clock, refreshTime);
    }
  }

  lemma ConcatAssociates(a: seq<Job>, b: seq<Job>, c: seq<Job>)
    ensures a + b + c == a + (b + c)
  {}

  lemma SweepUnfolds(failed: seq<Job>, offset: nat, kind: WindowKind, stale: set<Job>)
    requires Window(failed, offset, kind) != []
    ensures Sweep(failed, offset, kind, stale) ==
            Sweep(Drop(failed, Elements(Window(failed, offset, kind)) * stale), offset + LIMIT, kind, stale)
  {}

  lemma SweepEnds(failed: seq<Job>, offset: nat, kind: WindowKind, stale: set<Job>)
    requires Window(failed, offset, kind) == []
    ensures Sweep(failed, offset, kind, stale) == failed
  {}

  lemma StaleIsMonotone(jobs: seq<Job>, start: int, since: int, now: int, refreshTime: int)
    requires start <= since <= now && Stale(jobs, start, refreshTime) == Stale(jobs, now, refreshTime)
    ensures Stale(jobs, since, refreshTime) == Stale(jobs, start, refreshTime)
  {
    assert Stale(jobs, start, refreshTime) <= Stale(jobs, since, refreshTime) <= Stale(jobs, now, refreshTime);
  }

  /** Of the first `i` jobs of a page, started at time `start`, the ones in `gone` have been
      retried: all stale by now and, unless a retry threw, all that were stale at the start. */
  ghost predicate PageDone(jobs: seq<Job>, i: nat, gone: seq<Job>, start: int, now: int, refreshTime: int, ok: bool)
    requires i <= |jobs|
  {
    && Distinct(gone)
    && Elements(gone) <= Stale(jobs[..i], now, refreshTime)
    && (ok ==> Stale(jobs[..i], start, refreshTime) <= Elements(gone))
  }

  lemma PageNext(jobs: seq<Job>, i: nat, gone: seq<Job>, was: seq<Job>)
    requires i < |jobs| && Distinct(jobs) && Elements(jobs) <= Elements(was) && Elements(gone) <= Elements(jobs[..i])
    ensures jobs[i] !in gone && jobs[i] in Drop(was, Elements(gone))
  {
    PrefixGrows(jobs, i);
    DropMembers(was, Elements(gone));
    assert jobs[i] in Elements(jobs);
  }

  lemma PageStep(jobs: seq<Job>, i: nat, gone: seq<Job>, start: int, since: int, now: int, refreshTime: int,
        retried: Result<bool, QueueError>)
    requires i < |jobs| && start <= since <= now && jobs[i] !in gone
    requires PageDone(jobs, i, gone, start, since, refreshTime, true)
    requires retried == Ok(true) ==> IsStale(jobs[i], now, refreshTime)
    requires retried == Ok(false) ==> !IsStale(jobs[i], since, refreshTime)
    ensures retried == Ok(true) ==>
              PageDone(jobs, i + 1, gone + [jobs[i]], start, now, refreshTime, true) &&
                Elements(gone + [jobs[i]]) == Elements(gone) + {jobs[i]}
    ensures retried == Ok(false) ==> PageDone(jobs, i + 1, gone, start, now, refreshTime, true)
    ensures PageDone(jobs, |jobs|, gone, start, now, refreshTime, false)
  {
    PrefixGrows(jobs, i);
    ConcatIsDistinct(gone, [jobs[i]]);
  }

  /** A page's retries join those of the pages before. */
  lemma PageJoins(was: seq<Job>, start: int, gone: seq<Job>, jobs: seq<Job>, retried: seq<Job>, since: int, now: int,
        refreshTime: int, ok: bool)
    requires start <= since <= now && Distinct(was) && Distinct(gone) &&
             Elements(gone) <= Stale(was, since, refreshTime)
    requires Elements(jobs) <= Elements(Drop(was, Elements(gone)))
    requires PageDone(jobs, |jobs|, retried, since, now, refreshTime, ok)
    ensures Distinct(gone + retried) && Elements(gone + retried) <= Stale(was, now, refreshTime)
    ensures Drop(Drop(was, Elements(gone)), Elements(retried)) == Drop(was, Elements(gone + retried))
    ensures ok && Stale(was, start, refreshTime) == Stale(was, now, refreshTime) ==>
            Elements(retried) == Elements(jobs) * Stale(was, start, refreshTime)
  {
    assert jobs[..|jobs|] == jobs;
    DropMembers(was, Elements(gone));
    ConcatIsDistinct(gone, retried);
    DropTwice(was, Elements(gone), Elements(retried));
    if ok && Stale(was, start, refreshTime) == Stale(was, now, refreshTime) {
      forall j
        ensures j in Elements(retried) <==> j in Elements(jobs) * Stale(was, start, refreshTime)
      {
        assert j in jobs ==> j in was;
        assert j in was ==> (j in Stale(was, start, refreshTime) <==> IsStale(j, since, refreshTime));
      }
    }
  }

  /** Only stale jobs were retried, none twice, and with what is left they make up the list. */
  ghost predicate SweepIsSafe(was: seq<Job>, failed: seq<Job>, retried: seq<Job>, now: int, refreshTime: int) {
    && NoneTwice(retried)
    && Elements(retried) <= Stale(was, now, refreshTime)
    && multiset(failed) + multiset(retried) == multiset(was)
  }

  lemma SweepWasSafe(was: seq<Job>, gone: seq<Job>, now: int, refreshTime: int)
    requires Distinct(was) && NoneTwice(gone) && Elements(gone) <= Stale(was, now, refreshTime)
    ensures Distinct(Drop(was, Elements(gone)))
    ensures SweepIsSafe(was, Drop(was, Elements(gone)), gone, now, refreshTime)
  {
    DistinctIffNoneTwice(gone);
    DropKeepsDistinct(was, Elements(gone));
    DropSplits(was, gone);
  }

  /** The next element of a list without repetitions is new. */
  lemma PrefixGrows(jobs: seq<Job>, i: nat)
    requires i < |jobs|
    ensures jobs[..i + 1] == jobs[..i] + [jobs[i]]
    ensures forall j :: j in jobs[..i + 1] <==> j in jobs[..i] || j == jobs[i]
    ensures Distinct(jobs) ==> jobs[i] !in jobs[..i]
  {
    if Distinct(jobs) {
      SliceIsDistinct(jobs, 0, i + 1);
      assert jobs[0..i + 1][..i] == jobs[..i];
    }
  }

  lemma {:induction false} ConcatIsDistinct(a: seq<Job>, b: seq<Job>)
    requires Distinct(a) && Distinct(b) && forall j :: j in b ==> j !in a
    ensures Distinct(a + b) && Elements(a + b) == Elements(a) + Elements(b)
    ensures forall j :: j in a + b <==> j in a || j in b
  {
    if b == [] {
      assert a + b == a;
    } else {
      var front, last := b[..|b| - 1], b[|b| - 1];
      ConcatIsDistinct(a, front);
      assert (a + b)[..|a + b| - 1] == a + front;
    }
  }

  lemma WindowIsDistinct(failed: seq<Job>, offset: nat, kind: WindowKind)
    requires Distinct(failed)
    ensures Distinct(Window(failed, offset, kind))
  {
    var end := Min(|failed|, if kind.INDEX_RANGE? then LIMIT + 1 else offset + LIMIT);
    if offset < end {
      SliceIsDistinct(failed, offset, end);
    }
  }

  // ---------------------------------------------------------------- convergence

  /** What a sweep leaves of `m` jobs when every page it removes shifts the next one out of
      its sight: it takes a hundred, misses a hundred, and so on. */
  function Leftover(m: nat): (rest: nat)
    ensures rest <= m / 2 && (m <= LIMIT ==> rest == 0) && (m >= LIMIT ==> rest <= m - LIMIT)
  {
    if m <= LIMIT then 0
    else if m <= 2 * LIMIT then m - LIMIT
    else LIMIT + Leftover(m - 2 * LIMIT)
  }

  /** Removing a page shortens the list by its length. */
  lemma PageIsRemoved(failed: seq<Job>, offset: nat, kind: WindowKind, stale: set<Job>)
    requires Distinct(failed) && Elements(failed) <= stale
    ensures var page := Window(failed, offset, kind); var rest := Drop(failed, Elements(page) * stale);
            |rest| == |failed| - |page| && Distinct(rest) && Elements(rest) <= stale
  {
    var page := Window(failed, offset, kind);
    assert Elements(page) * stale == Elements(page);
    WindowIsDistinct(failed, offset, kind);
    DropSplits(failed, page);
    DropKeepsDistinct(failed, Elements(page));
    DropMembers(failed, Elements(page));
  }

  /** A sweep over stale jobs only, with pages counted by offset and count, leaves exactly
      every other hundred. */
  lemma OffsetSweepLeaves(failed: seq<Job>, offset: nat, stale: set<Job>)
    requires Distinct(failed) && Elements(failed) <= stale
    ensures |Sweep(failed, offset, OFFSET_COUNT, stale)| ==
            if |failed| <= offset then |failed| else offset + Leftover(|failed| - offset)
  {
    OffsetSweepLength(failed, offset, stale, Sweep(failed, offset, OFFSET_COUNT, stale));
  }

  lemma {:induction false} OffsetSweepLength(failed: seq<Job>, offset: nat, stale: set<Job>, swept: seq<Job>)
    requires Distinct(failed) && Elements(failed) <= stale && swept == Sweep(failed, offset, OFFSET_COUNT, stale)
    ensures |swept| == if |failed| <= offset then |failed| else offset + Leftover(|failed| - offset)
    decreases |failed| - offset
  {
    if |failed| <= offset {
      SweepEnds(failed, offset, OFFSET_COUNT, stale);
    } else {
      var rest := AfterOffsetPage(failed, offset, stale);
      OffsetSweepLength(rest, offset + LIMIT, stale, swept);
      LeftoverOfRest(|failed|, offset);
    }
  }

  /** What is left when the page at `offset` has been retried. */
  lemma AfterOffsetPage(failed: seq<Job>, offset: nat, stale: set<Job>) returns (rest: seq<Job>)
    requires Distinct(failed) && Elements(failed) <= stale && |failed| > offset
    ensures Sweep(failed, offset, OFFSET_COUNT, stale) == Sweep(rest, offset + LIMIT, OFFSET_COUNT, stale)
    ensures |rest| == |failed| - Min(LIMIT, |failed| - offset) && Distinct(rest) && Elements(rest) <= stale
  {
    rest := Drop(failed, Elements(Window(failed, offset, OFFSET_COUNT)) * stale);
    PageIsRemoved(failed, offset, OFFSET_COUNT, stale);
    SweepUnfolds(failed, offset, OFFSET_COUNT, stale);
  }

  lemma LeftoverOfRest(n: nat, offset: nat)
    requires n > offset
    ensures var rest := n - Min(LIMIT, n - offset);
            (if rest <= offset + LIMIT then rest else offset + LIMIT + Leftover(rest - offset - LIMIT)) ==
              offset + Leftover(n - offset)
  {}

  /** With an index range, a sweep sees the jobs number 0 to 100 and then at most one more,
      number 100 of what is left. */
  lemma IndexSweepLeaves(failed: seq<Job>, stale: set<Job>)
    requires Distinct(failed) && Elements(failed) <= stale
    ensures var n := |failed|;
            |Sweep(failed, 0, INDEX_RANGE, stale)| == if n <= 101 then 0 else if n <= 201 then n - 101 else n - 102
  {
    PageIsRemoved(failed, 0, INDEX_RANGE, stale);
    if failed != [] {
      var rest := Drop(failed, Elements(Window(failed, 0, INDEX_RANGE)) * stale);
      SweepUnfolds(failed, 0, INDEX_RANGE, stale);
      SecondIndexPage(rest, stale, Sweep(failed, 0, INDEX_RANGE, stale));
    } else {
      SweepEnds(failed, 0, INDEX_RANGE, stale);
    }
  }

  lemma SecondIndexPage(rest: seq<Job>, stale: set<Job>, swept: seq<Job>)
    requires Distinct(rest) && Elements(rest) <= stale && swept == Sweep(rest, LIMIT, INDEX_RANGE, stale)
    ensures |swept| == if |rest| <= LIMIT then |rest| else |rest| - 1
  {
    PageIsRemoved(rest, LIMIT, INDEX_RANGE, stale);
    if |rest| <= LIMIT {
      SweepEnds(rest, LIMIT, INDEX_RANGE, stale);
    } else {
      var last := Drop(rest, Elements(Window(rest, LIMIT, INDEX_RANGE)) * stale);
      SweepUnfolds(rest, LIMIT, INDEX_RANGE, stale);
      SweepEnds(last, 2 * LIMIT, INDEX_RANGE, stale);
    }
  }

  /** Either way a sweep over stale jobs retries a hundred of them, or all if there are fewer. */
  lemma SweepRetriesAPage(failed: seq<Job>, kind: WindowKind, stale: set<Job>)
    requires Distinct(failed) && Elements(failed) <= stale
    ensures |Sweep(failed, 0, kind, stale)| <= |failed| - Min(LIMIT, |failed|)
  {
    if kind.OFFSET_COUNT? {
      OffsetSweepLeaves(failed, 0, stale);
    } else {
      IndexSweepLeaves(failed, stale);
    }
  }

  lemma {:induction false} SweepKeepsDistinct(failed: seq<Job>, offset: nat, kind: WindowKind, stale: set<Job>)
    requires Distinct(failed)
    ensures Distinct(Sweep(failed, offset, kind, stale))
    decreases |failed| - offset
  {
    var page := Window(failed, offset, kind);
    if page != [] {
      DropKeepsDistinct(failed, Elements(page) * stale);
      SweepKeepsDistinct(Drop(failed, Elements(page) * stale), offset + LIMIT, kind, stale);
    }
  }

  lemma {:induction false} SweepStaysWithin(failed: seq<Job>, offset: nat, kind: WindowKind, stale: set<Job>)
    ensures Elements(Sweep(failed, offset, kind, stale)) <= Elements(failed)
    decreases |failed| - offset
  {
    var page := Window(failed, offset, kind);
    if page != [] {
      DropMembers(failed, Elements(page) * stale);
      SweepStaysWithin(Drop(failed, Elements(page) * stale), offset + LIMIT, kind, stale);
    }
  }

  /** `k` sweeps, one after the other, while no other job becomes stale. */
  ghost function Sweeps(failed: seq<Job>, kind: WindowKind, stale: set<Job>, k: nat): seq<Job>
    decreases k
  {
    if k == 0 then failed else Sweep(Sweeps(failed, kind, stale, k - 1), 0, kind, stale)
  }

  lemma {:induction false} FirstSweep(failed: seq<Job>, kind: WindowKind, stale: set<Job>, k: nat)
    requires k > 0
    ensures Sweeps(failed, kind, stale, k) == Sweeps(Sweep(failed, 0, kind, stale), kind, stale, k - 1)
  {
    if k > 1 {
      FirstSweep(failed, kind, stale, k - 1);
    }
  }

  /** What the first of `k` sweeps over stale jobs leaves to the others. */
  lemma AfterFirstSweep(failed: seq<Job>, kind: WindowKind, stale: set<Job>, k: nat) returns (rest: seq<Job>)
    requires Distinct(failed) && Elements(failed) <= stale && k > 0
    ensures Sweeps(failed, kind, stale, k) == Sweeps(rest, kind, stale, k - 1)
    ensures Distinct(rest) && Elements(rest) <= stale && |rest| <= |failed| - Min(LIMIT, |failed|)
    ensures kind.OFFSET_COUNT? ==> |rest| == Leftover(|failed|)
  {
    rest := Sweep(failed, 0, kind, stale);
    SweepRetriesAPage(failed, kind, stale);
    if kind.OFFSET_COUNT? {
      OffsetSweepLeaves(failed, 0, stale);
    }
    SweepKeepsDistinct(failed, 0, kind, stale);
    SweepStaysWithin(failed, 0, kind, stale);
    FirstSweep(failed, kind, stale, k);
  }

  /** As many sweeps as the list has hundreds, the last one rounded up, empty it. */
  lemma {:induction false} SweepsConverge(failed: seq<Job>, kind: WindowKind, stale: set<Job>, k: nat)
    requires Distinct(failed) && Elements(failed) <= stale && |failed| <= LIMIT * k
    ensures Sweeps(failed, kind, stale, k) == []
    decreases k
  {
    if k > 0 {
      var rest := AfterFirstSweep(failed, kind, stale, k);
      SweepsConverge(rest, kind, stale, k - 1);
    }
  }

  function Power2(k: nat): nat {
    if k == 0 then 1 else 2 * Power2(k - 1)
  }

  /** With offset and count every sweep at least halves the list: k + 1 sweeps empty a list
      of 2^k hundreds. */
  lemma {:induction false} OffsetSweepsHalve(failed: seq<Job>, stale: set<Job>, k: nat)
    requires Distinct(failed) && Elements(failed) <= stale && |failed| <= LIMIT * Power2(k)
    ensures Sweeps(failed, OFFSET_COUNT, stale, k + 1) == []
    decreases k
  {
    var rest := AfterFirstSweep(failed, OFFSET_COUNT, stale, k + 1);
    if k == 0 {
      assert rest == [];
    } else {
      OffsetSweepsHalve(rest, stale, k - 1);
    }
  }

  /** A sweep depends only on which of the jobs in the list are stale. */
  lemma {:induction false} SweepSeesItsJobs(failed: seq<Job>, offset: nat, kind: WindowKind, a: set<Job>, b: set<Job>)
    requires Elements(failed) * a == Elements(failed) * b
    ensures Sweep(failed, offset, kind, a) == Sweep(failed, offset, kind, b)
    decreases |failed| - offset
  {
    var page := Window(failed, offset, kind);
    if page != [] {
      assert Elements(page) <= Elements(failed);
      assert Elements(page) * a == Elements(page) * (Elements(failed) * a);
      assert Elements(page) * b == Elements(page) * (Elements(failed) * b);
      DropMembers(failed, Elements(page) * a);
      var rest := Drop(failed, Elements(page) * a);
      assert Elements(rest) * a == Elements(rest) * (Elements(failed) * a);
      assert Elements(rest) * b == Elements(rest) * (Elements(failed) * b);
      SweepSeesItsJobs(rest, offset + LIMIT, kind, a, b);
    }
  }

  // ---------------------------------------------------------------- the service

  /** Sweeps every registered queue at each tick. Entry k is a provider together with the
      queue it resolved to, once it has; two entries may resolve to the same queue. */
  class QueueRestartService {
    const providers: seq<nat>
    var implementations: seq<Option<Queue>>
    const container: map<nat, Queue>
    ghost const instances: set<Queue>

    ghost predicate Wired()
    {
      forall k :: 0 <= k < |providers| ==> providers[k] in container && container[providers[k]] in instances
    }

    ghost predicate Resolved(implementations: seq<Option<Queue>>)
      requires Wired()
    {
      && |implementations| == |providers|
      && forall k :: 0 <= k < |providers| ==> implementations[k] == None || implementations[k] == Some(QueueAt(k))
    }

    ghost predicate Valid()
      reads this, instances
    {
      Wired() && Resolved(implementations) && forall q :: q in instances ==> q.Valid()
    }

    constructor (container: map<nat, Queue>, providers: seq<nat>)
      requires (forall p :: p in providers ==> p in container) && forall q :: q in container.Values ==> q.Valid()
      ensures Valid() && this.container == container && this.providers == providers
      ensures forall k :: 0 <= k < |providers| ==> implementations[k] == None
    {
      this.container := container;
      this.providers := providers;
      this.instances := container.Values;
      implementations := seq(|providers|, k requires 0 <= k < |providers| => None);
    }

    ghost function QueueAt(k: nat): Queue
      requires Wired() && k < |providers|
    {
      container[providers[k]]
    }

    /** It fails if and only if a retry threw. Otherwise every registered queue has been
        swept: one whose failed jobs are all stale has lost a hundred of them, or all if
        there were fewer. Nothing is added to a failed list, and every entry remembers its
        queue. */
    method Handle() returns (r: Result<(), QueueError>)
      requires Valid()
      modifies this`implementations, instances
      ensures Valid()
      ensures forall q :: q in instances ==> Within(q, old(q.failed), old(q.clock))
      ensures r.Err? <==> exists q :: q in instances && q.throws != old(q.throws)
      ensures r.Ok? ==> forall k :: 0 <= k < |providers| ==>
                implementations[k] == Some(QueueAt(k)) &&
                  Swept(QueueAt(k), old(QueueAt(k).failed), old(QueueAt(k).clock), 1)
    {
      ghost var failed0 := map q | q in instances :: q.failed;
      ghost var clock0 := map q | q in instances :: q.clock;
      var i := 0;
      while i < |providers|
        invariant 0 <= i <= |providers| && Valid()
        invariant AllWithin(failed0, clock0) && FirstSwept(i, failed0, clock0)
        invariant forall q :: q in instances ==> q.throws == old(q.throws)
      {
        var swept := HandleNext(i, failed0, clock0);
        if swept.Err? {
          assert QueueAt(i).throws != old(QueueAt(i).throws);
          return swept;
        }
        i := i + 1;
      }
      return Ok(());
    }

    /** Tick after tick, until a retry throws. Every registered queue whose failed jobs are
        all stale is empty after as many ticks as it has hundreds of them, rounded up. */
    method Ticks(times: nat) returns (r: Result<(), QueueError>)
      requires Valid()
      modifies this`implementations, instances
      ensures Valid()
      ensures forall q :: q in instances ==> Within(q, old(q.failed), old(q.clock))
      ensures r.Err? <==> exists q :: q in instances && q.throws != old(q.throws)
      ensures r.Ok? ==> forall k :: 0 <= k < |providers| ==>
                Swept(QueueAt(k), old(QueueAt(k).failed), old(QueueAt(k).clock), times)
      ensures r.Ok? ==> forall k ::
                0 <= k < |providers| && |old(QueueAt(k).failed)| <= LIMIT * times
                && AllStale(old(QueueAt(k).failed), old(QueueAt(k).clock), QueueAt(k).refreshTime)
                ==> QueueAt(k).failed == []
    {
      ghost var failed0 := map q | q in instances :: q.failed;
      ghost var clock0 := map q | q in instances :: q.clock;
      for i := 0 to times
        invariant Valid() && AllWithin(failed0, clock0) && AllSwept(failed0, clock0, i)
        invariant forall q :: q in instances ==> q.throws == old(q.throws)
      {
        var handled := Tick(failed0, clock0, i);
        if handled.Err? {
          return handled;
        }
      }
      return Ok(());
    }

    ghost predicate AllSwept(failed: map<Queue, seq<Job>>, clock: map<Queue, int>, times: nat)
      requires Wired() && AllWithin(failed, clock)
      reads instances
    {
      forall k :: 0 <= k < |providers| ==> Swept(QueueAt(k), failed[QueueAt(k)], clock[QueueAt(k)], times)
    }

    /** One more tick, as seen from an earlier moment. */
    method Tick(ghost failed: map<Queue, seq<Job>>, ghost clock: map<Queue, int>, ghost times: nat)
        returns (r: Result<(), QueueError>)
      requires Valid() && AllWithin(failed, clock) && AllSwept(failed, clock, times)
      modifies this`implementations, instances
      ensures Valid() && AllWithin(failed, clock)
      ensures r.Ok? ==> AllSwept(failed, clock, times + 1)
      ensures r.Err? <==> exists q :: q in instances && q.throws != old(q.throws)
    {
      r := Handle();
      if r.Ok? {
        forall k | 0 <= k < |providers|
          ensures Swept(QueueAt(k), failed[QueueAt(k)], clock[QueueAt(k)], times + 1)
        {
          var q := QueueAt(k);
          SweptAgain(q, failed[q], clock[q], times, old(q.failed), old(q.clock));
        }
      }
    }

    ghost predicate AllWithin(failed: map<Queue, seq<Job>>, clock: map<Queue, int>)
      reads instances
    {
      forall q :: q in instances ==> q in failed && q in clock && Within(q, failed[q], clock[q])
    }

    /** The first `n` entries remember their queues, and those have been swept. */
    ghost predicate FirstSwept(n: nat, failed: map<Queue, seq<Job>>, clock: map<Queue, int>)
      requires Wired() && Resolved(implementations) && n <= |providers| && AllWithin(failed, clock)
      reads this, instances
    {
      forall k :: 0 <= k < n ==>
        && implementations[k] == Some(QueueAt(k))
        && Swept(QueueAt(k), failed[QueueAt(k)], clock[QueueAt(k)], 1)
    }

    /** One more entry, as seen from the start of the tick. */
    method HandleNext(i: nat, ghost failed: map<Queue, seq<Job>>, ghost clock: map<Queue, int>)
        returns (r: Result<(), QueueError>)
      requires Valid() && i < |providers| && AllWithin(failed, clock) && FirstSwept(i, failed, clock)
      modifies this`implementations, QueueAt(i)
      ensures Valid() && AllWithin(failed, clock)
      ensures r.Ok? ==> FirstSwept(i + 1, failed, clock)
      ensures QueueAt(i).throws == old(QueueAt(i).throws) + if r.Err? then 1 else 0
    {
      r := HandleEntry(i);
    }

    /** Resolves one entry, remembers what it found, and sweeps it: as seen from any earlier
        moment, its list has not grown, and has been swept once if nothing threw. */
    method HandleEntry(i: nat) returns (r: Result<(), QueueError>)
      requires Wired() && Resolved(implementations) && i < |providers| && QueueAt(i).Valid()
      modifies this`implementations, QueueAt(i)
      ensures implementations == old(implementations)[i := Some(QueueAt(i))] && QueueAt(i).Valid()
      ensures forall was, start :: old(Within(QueueAt(i), was, start)) ==> Within(QueueAt(i), was, start)
      ensures forall was, start :: old(Swept(QueueAt(i), was, start, 1)) ==> Swept(QueueAt(i), was, start, 1)
      ensures r.Ok? ==> forall was, start :: old(Within(QueueAt(i), was, start)) ==> Swept(QueueAt(i), was, start, 1)
      ensures QueueAt(i).throws == old(QueueAt(i).throws) + if r.Err? then 1 else 0
    {
      var queue := if implementations[i].Some? then implementations[i].value else container[providers[i]];
      implementations := implementations[i := Some(queue)];
      ghost var before, since := queue.failed, queue.clock;
      r := queue.RestartQueue();
      forall was, start | old(Within(QueueAt(i), was, start))
        ensures Within(queue, was, start) && |queue.failed| <= |before| && (r.Ok? ==> Swept(queue, was, start, 1))
      {
        SweepShrinks(was, start, before, since, queue, r.Ok?);
      }
      SweepShrinks(before, since, before, since, queue, r.Ok?);
    }
  }

  /** A queue restarted again and again, until a retry throws. If no job becomes stale
      meanwhile, the restarts are `Sweeps`. If all its failed jobs are stale, as many times
      as it has hundreds of them, the last one rounded up, empty it. */
  method RestartRepeatedly(q: Queue, times: nat) returns (r: Result<(), QueueError>)
    requires q.Valid()
    modifies q
    ensures q.Valid() && Within(q, old(q.failed), old(q.clock))
    ensures r.Err? <==> q.throws != old(q.throws)
    ensures r.Ok? && NoneBecameStale(q, old(q.failed), old(q.clock)) ==>
            q.failed == Sweeps(old(q.failed), q.kind, Stale(old(q.failed), old(q.clock), q.refreshTime), times)
    ensures r.Ok? ==> Swept(q, old(q.failed), old(q.clock), times)
    ensures r.Ok? && AllStale(old(q.failed), old(q.clock), q.refreshTime) && |old(q.failed)| <= LIMIT * times ==>
            q.failed == []
  {
    ghost var was, start := q.failed, q.clock;
    for i := 0 to times
      invariant q.Valid() && Within(q, was, start) && q.throws == old(q.throws) && Swept(q, was, start, i)
      invariant NoneBecameStale(q, was, start) ==> q.failed == Sweeps(was, q.kind, Stale(was, start, q.refreshTime), i)
    {
      ghost var before, since := q.failed, q.clock;
      var swept := q.RestartQueue();
      SweepShrinks(before, since, before, since, q, swept.Ok?);
      if swept.Err? {
        return swept;
      }
      SweptAgain(q, was, start, i, before, since);
      if NoneBecameStale(q, was, start) {
        SweepIsNext(q, was, start, before, since);
      }
    }
    return Ok(());
  }

  ghost predicate NoneBecameStale(q: Queue, was: seq<Job>, start: int)
    reads q
  {
    Stale(was, start, q.refreshTime) == Stale(was, q.clock, q.refreshTime)
  }

  /** If no job has become stale since the start, this sweep was one for the jobs that were
      stale then. */
  lemma SweepIsNext(q: Queue, was: seq<Job>, start: int, before: seq<Job>, since: int)
    requires start <= since <= q.clock && Elements(before) <= Elements(was) && NoneBecameStale(q, was, start)
    requires Stale(before, since, q.refreshTime) == Stale(before, q.clock, q.refreshTime) ==>
             q.failed == Sweep(before, 0, q.kind, Stale(before, since, q.refreshTime))
    ensures Stale(was, start, q.refreshTime) == Stale(was, since, q.refreshTime)
    ensures q.failed == Sweep(before, 0, q.kind, Stale(was, start, q.refreshTime))
  {
    StaleIsMonotone(was, start, since, q.clock, q.refreshTime);
    StaleOfSome(before, was, since, q.refreshTime);
    StaleOfSome(before, was, q.clock, q.refreshTime);
    var a, b := Stale(before, since, q.refreshTime), Stale(was, start, q.refreshTime);
    assert Elements(before) * a == a == Elements(before) * b;
    SweepSeesItsJobs(before, 0, q.kind, a, b);
  }

  lemma StaleOfSome(some: seq<Job>, jobs: seq<Job>, now: int, refreshTime: int)
    requires Elements(some) <= Elements(jobs)
    ensures Stale(some, now, refreshTime) == Elements(some) * Stale(jobs, now, refreshTime)
  {
    assert forall j :: j in some ==> j in Elements(jobs);
  }

  ghost predicate Within(q: Queue, was: seq<Job>, since: int)
    reads q
  {
    Elements(q.failed) <= Elements(was) && |q.failed| <= |was| && q.clock >= since
  }

  /** A queue whose failed jobs were all stale has lost a hundred of them each time, or all
      that there were. */
  ghost predicate Swept(q: Queue, was: seq<Job>, since: int, times: nat)
    reads q
  {
    AllStale(was, since, q.refreshTime) ==> |q.failed| <= |was| - Min(LIMIT * times, |was|)
  }

  /** One more sweep after `times` of them. */
  lemma SweptAgain(q: Queue, was: seq<Job>, start: int, times: nat, before: seq<Job>, since: int)
    requires Elements(before) <= Elements(was) && start <= since
    requires AllStale(was, start, q.refreshTime) ==> |before| <= |was| - Min(LIMIT * times, |was|)
    requires Swept(q, before, since, 1)
    ensures Swept(q, was, start, times + 1)
  {
    if AllStale(was, start, q.refreshTime) {
      assert forall j :: j in before ==> j in Elements(was);
      assert AllStale(before, since, q.refreshTime);
    }
  }

  lemma SweepShrinks(was: seq<Job>, start: int, before: seq<Job>, since: int, q: Queue, ok: bool)
    requires Elements(before) <= Elements(was) && |before| <= |was| && start <= since <= q.clock && Distinct(before)
    requires exists gone :: q.failed == Drop(before, gone)
    requires ok && Stale(before, since, q.refreshTime) == Stale(before, q.clock, q.refreshTime) ==>
               q.failed == Sweep(before, 0, q.kind, Stale(before, since, q.refreshTime))
    ensures Within(q, was, start) && |q.failed| <= |before| && (ok ==> Swept(q, was, start, 1))
  {
    var gone :| q.failed == Drop(before, gone);
    DropMembers(before, gone);
    if ok && AllStale(was, start, q.refreshTime) {
      assert forall j :: j in before ==> j in Elements(was);
      assert Stale(before, since, q.refreshTime) == Elements(before) == Stale(before, q.clock, q.refreshTime);
      SweepRetriesAPage(before, q.kind, Elements(before));
    }
  }
}

/**
 Repeated sweeps over lists in which only some jobs are stale, while no other job becomes
 stale: which of the stale ones are retried in the end, and how fast.
 */
module MixedSweeps {
  import opened QueueRestart

  // ---------------------------------------------------------------- dropping, around one job

  lemma {:induction false} DropConcat(a: seq<Job>, b: seq<Job>, gone: set<Job>)
    ensures Drop(a + b, gone) == Drop(a, gone) + Drop(b, gone)
  {
    if b == [] {
      assert a + b == a;
    } else {
      var front, last := b[..|b| - 1], b[|b| - 1];
      DropConcat(a, front, gone);
      assert (a + b)[..|a + b| - 1] == a + front && (a + b)[|a + b| - 1] == last;
    }
  }

  lemma DropOne(job: Job, gone: set<Job>)
    ensures Drop([job], gone) == if job in gone then [] else [job]
  {
    assert [job][..0] == [];
  }

  lemma {:induction false} DropOutside(jobs: seq<Job>, gone: set<Job>)
    requires forall j :: j in jobs ==> j !in gone
    ensures Drop(jobs, gone) == jobs
  {
    if jobs != [] {
      DropOutside(jobs[..|jobs| - 1], gone);
      assert jobs == jobs[..|jobs| - 1] + [jobs[|jobs| - 1]];
    }
  }

  /** The young jobs of a list. */
  function Young(jobs: seq<Job>, stale: set<Job>): seq<Job> {
    Drop(jobs, stale)
  }

  /** Dropping stale jobs leaves the young ones. */
  lemma YoungStay(jobs: seq<Job>, gone: set<Job>, stale: set<Job>)
    requires gone <= stale
    ensures Young(Drop(jobs, gone), stale) == Young(jobs, stale)
  {
    DropTwice(jobs, gone, stale);
    assert gone + stale == stale;
  }

  /** `job` stands in the list behind `before`. */
  ghost predicate StandsBehind(jobs: seq<Job>, before: seq<Job>, job: Job) {
    |before| < |jobs| && jobs[..|before|] == before && jobs[|before|] == job && Distinct(jobs)
  }

  /** Dropping others leaves `job` behind what is left of `before`. */
  lemma DropAround(jobs: seq<Job>, before: seq<Job>, job: Job, gone: set<Job>)
    requires StandsBehind(jobs, before, job) && job !in gone
    ensures StandsBehind(Drop(jobs, gone), Drop(before, gone), job)
  {
    var after := jobs[|before| + 1..];
    assert jobs == before + ([job] + after);
    DropConcat(before, [job] + after, gone);
    DropConcat([job], after, gone);
    DropOne(job, gone);
    DropKeepsDistinct(jobs, gone);
    var x, y := Drop(before, gone), Drop(after, gone);
    assert Drop(jobs, gone) == x + ([job] + y);
  }

  // ---------------------------------------------------------------- an index range

  /** The stale jobs of a page. */
  function OnPage(page: seq<Job>, stale: set<Job>): set<Job> {
    set j | j in page && j in stale
  }

  /** What one page of a sweep makes of the list. */
  function PageGone(jobs: seq<Job>, offset: nat, kind: WindowKind, stale: set<Job>): seq<Job> {
    Drop(jobs, OnPage(Window(jobs, offset, kind), stale))
  }

  lemma SweepIsPages(jobs: seq<Job>, offset: nat, kind: WindowKind, stale: set<Job>)
    ensures Sweep(jobs, offset, kind, stale) ==
            if Window(jobs, offset, kind) == [] then jobs
            else Sweep(PageGone(jobs, offset, kind, stale), offset + LIMIT, kind, stale)
  {
    var page := Window(jobs, offset, kind);
    if page == [] {
      SweepEnds(jobs, offset, kind, stale);
    } else {
      SweepUnfolds(jobs, offset, kind, stale);
      assert Elements(page) * stale == OnPage(page, stale);
    }
  }

  /** One page either takes the job or leaves it behind no more than before, and behind the
      same young ones. */
  lemma PageLeaves(jobs: seq<Job>, before: seq<Job>, job: Job, offset: nat, kind: WindowKind, stale: set<Job>)
      returns (left: seq<Job>)
    requires StandsBehind(jobs, before, job) && job in stale
    ensures job !in Window(jobs, offset, kind) ==> StandsBehind(PageGone(jobs, offset, kind, stale), left, job)
    ensures job in Window(jobs, offset, kind) ==> job !in PageGone(jobs, offset, kind, stale)
    ensures |left| <= |before| && Young(left, stale) == Young(before, stale)
  {
    var gone := OnPage(Window(jobs, offset, kind), stale);
    left := Drop(before, gone);
    YoungStay(before, gone, stale);
    DropMembers(jobs, gone);
    if job !in gone {
      DropAround(jobs, before, job, gone);
    }
  }

  lemma SweepTakesNothingBack(jobs: seq<Job>, job: Job, offset: nat, kind: WindowKind, stale: set<Job>)
    requires job !in jobs
    ensures job !in Sweep(jobs, offset, kind, stale)
  {
    SweepStaysWithin(jobs, offset, kind, stale);
  }

  /** The same for the rest of a sweep. */
  lemma {:induction false} SweepLeaves(jobs: seq<Job>, before: seq<Job>, job: Job, offset: nat, kind: WindowKind,
        stale: set<Job>, swept: seq<Job>)
      returns (left: seq<Job>)
    requires StandsBehind(jobs, before, job) && job in stale && swept == Sweep(jobs, offset, kind, stale)
    ensures job !in swept || StandsBehind(swept, left, job)
    ensures |left| <= |before| && Young(left, stale) == Young(before, stale)
    decreases |jobs| - offset
  {
    SweepIsPages(jobs, offset, kind, stale);
    left := before;
    if Window(jobs, offset, kind) != [] {
      left := PageLeaves(jobs, before, job, offset, kind, stale);
      if job in Window(jobs, offset, kind) {
        SweepTakesNothingBack(PageGone(jobs, offset, kind, stale), job, offset + LIMIT, kind, stale);
      } else {
        left := SweepLeaves(PageGone(jobs, offset, kind, stale), left, job, offset + LIMIT, kind, stale, swept);
      }
    }
  }

  /** With an index range the window never reaches behind a hundred and one jobs. */
  lemma WindowIsInFront(jobs: seq<Job>, before: seq<Job>, job: Job, offset: nat)
    requires StandsBehind(jobs, before, job) && |before| > LIMIT
    ensures job !in Window(jobs, offset, INDEX_RANGE)
  {
    PrefixGrows(jobs, |before|);
    var page := Window(jobs, offset, INDEX_RANGE);
    forall j | j in page
      ensures j in before
    {
      var i :| 0 <= i < |page| && page[i] == j;
      assert page[i] == jobs[offset + i] == before[offset + i];
    }
  }

  lemma YoungAreFewer(jobs: seq<Job>, stale: set<Job>)
    ensures |Young(jobs, stale)| <= |jobs|
  {}

  /** Behind more than a hundred young jobs, no sweep sees it. */
  lemma {:induction false} SweepMisses(jobs: seq<Job>, before: seq<Job>, job: Job, offset: nat, stale: set<Job>,
        swept: seq<Job>)
      returns (left: seq<Job>)
    requires StandsBehind(jobs, before, job) && job in stale && |Young(before, stale)| > LIMIT
    requires swept == Sweep(jobs, offset, INDEX_RANGE, stale)
    ensures StandsBehind(swept, left, job) && Young(left, stale) == Young(before, stale)
    decreases |jobs| - offset
  {
    YoungAreFewer(before, stale);
    WindowIsInFront(jobs, before, job, offset);
    SweepIsPages(jobs, offset, INDEX_RANGE, stale);
    left := before;
    if Window(jobs, offset, INDEX_RANGE) != [] {
      left := PageLeaves(jobs, before, job, offset, INDEX_RANGE, stale);
      left := SweepMisses(PageGone(jobs, offset, INDEX_RANGE, stale), left, job, offset + LIMIT, stale, swept);
    }
  }

  /** Behind at most a hundred young jobs, the first page takes it, or something stale
      before it. */
  lemma FirstPageAdvances(jobs: seq<Job>, before: seq<Job>, job: Job, stale: set<Job>, swept: seq<Job>)
      returns (rest: seq<Job>, left: seq<Job>)
    requires StandsBehind(jobs, before, job) && job in stale && |Young(before, stale)| <= LIMIT
    requires swept == Sweep(jobs, 0, INDEX_RANGE, stale)
    ensures swept == Sweep(rest, LIMIT, INDEX_RANGE, stale)
    ensures job in rest ==> StandsBehind(rest, left, job) && |left| < |before|
    ensures Young(left, stale) == Young(before, stale)
  {
    SweepIsPages(jobs, 0, INDEX_RANGE, stale);
    assert Window(jobs, 0, INDEX_RANGE)[0] == jobs[0];
    rest := PageGone(jobs, 0, INDEX_RANGE, stale);
    if |before| <= LIMIT {
      JobIsOnFirstPage(jobs, before, job);
      left := PageLeaves(jobs, before, job, 0, INDEX_RANGE, stale);
    } else {
      FirstPageTakesSome(jobs, before, job, stale);
      left := Drop(before, OnPage(Window(jobs, 0, INDEX_RANGE), stale));
      PageLeavesExactly(jobs, before, job, stale);
    }
  }

  lemma SweepAdvances(jobs: seq<Job>, before: seq<Job>, job: Job, stale: set<Job>, swept: seq<Job>)
      returns (left: seq<Job>)
    requires StandsBehind(jobs, before, job) && job in stale && |Young(before, stale)| <= LIMIT
    requires swept == Sweep(jobs, 0, INDEX_RANGE, stale)
    ensures job in swept ==> StandsBehind(swept, left, job) && |left| < |before|
    ensures Young(left, stale) == Young(before, stale)
  {
    var rest;
    rest, left := FirstPageAdvances(jobs, before, job, stale, swept);
    if job in rest {
      left := SweepLeaves(rest, left, job, LIMIT, INDEX_RANGE, stale, swept);
    } else {
      SweepTakesNothingBack(rest, job, LIMIT, INDEX_RANGE, stale);
    }
  }

  lemma JobIsOnFirstPage(jobs: seq<Job>, before: seq<Job>, job: Job)
    requires StandsBehind(jobs, before, job) && |before| <= LIMIT
    ensures job in Window(jobs, 0, INDEX_RANGE)
  {
    assert Window(jobs, 0, INDEX_RANGE)[|before|] == job;
  }

  lemma PageLeavesExactly(jobs: seq<Job>, before: seq<Job>, job: Job, stale: set<Job>)
    requires StandsBehind(jobs, before, job) && |before| > LIMIT
    ensures var gone := OnPage(Window(jobs, 0, INDEX_RANGE), stale);
            && StandsBehind(PageGone(jobs, 0, INDEX_RANGE, stale), Drop(before, gone), job)
            && Young(Drop(before, gone), stale) == Young(before, stale)
  {
    var gone := OnPage(Window(jobs, 0, INDEX_RANGE), stale);
    WindowIsInFront(jobs, before, job, 0);
    DropAround(jobs, before, job, gone);
    YoungStay(before, gone, stale);
  }

  /** The first hundred and one jobs are not all young. */
  lemma FirstPageTakesSome(jobs: seq<Job>, before: seq<Job>, job: Job, stale: set<Job>)
    requires StandsBehind(jobs, before, job) && |before| > LIMIT && |Young(before, stale)| <= LIMIT
    ensures var gone := OnPage(Window(jobs, 0, INDEX_RANGE), stale);
            |Drop(before, gone)| < |before|
  {
    var page := Window(jobs, 0, INDEX_RANGE);
    var gone := OnPage(page, stale);
    var front, rest := before[..LIMIT + 1], before[LIMIT + 1..];
    assert page == front by {
      assert jobs[0..LIMIT + 1] == before[..LIMIT + 1];
    }
    assert before == front + rest;
    DropConcat(front, rest, gone);
    DropConcat(front, rest, stale);
    OnPageAllStaleGo(front, gone, stale);
  }

  lemma {:induction false} OnPageAllStaleGo(jobs: seq<Job>, gone: set<Job>, stale: set<Job>)
    requires forall j :: j in jobs ==> (j in gone <==> j in stale)
    ensures Drop(jobs, gone) == Drop(jobs, stale)
  {
    if jobs != [] {
      OnPageAllStaleGo(jobs[..|jobs| - 1], gone, stale);
    }
  }

  lemma {:induction false} SweepsTakeNothingBack(jobs: seq<Job>, job: Job, kind: WindowKind, stale: set<Job>, k: nat)
    requires job !in jobs
    ensures job !in Sweeps(jobs, kind, stale, k)
  {
    if k > 0 {
      SweepsTakeNothingBack(jobs, job, kind, stale, k - 1);
      SweepTakesNothingBack(Sweeps(jobs, kind, stale, k - 1), job, 0, kind, stale);
    }
  }

  /** One sweep more than there are jobs before it is enough. */
  lemma {:induction false} SweepsReach(jobs: seq<Job>, before: seq<Job>, job: Job, stale: set<Job>, k: nat,
        swept: seq<Job>)
    requires StandsBehind(jobs, before, job) && job in stale && |Young(before, stale)| <= LIMIT && k > |before|
    requires swept == Sweeps(jobs, INDEX_RANGE, stale, k)
    ensures job !in swept
    decreases k
  {
    var once, left := SweepsAdvance(jobs, before, job, stale, k);
    if job in once {
      assert |Young(left, stale)| == |Young(before, stale)| && k - 1 > |left|;
      SweepsReach(once, left, job, stale, k - 1, swept);
    } else {
      SweepsTakeNothingBack(once, job, INDEX_RANGE, stale, k - 1);
    }
  }

  /** The first of `k` sweeps. */
  lemma SweepsAdvance(jobs: seq<Job>, before: seq<Job>, job: Job, stale: set<Job>, k: nat)
      returns (swept: seq<Job>, left: seq<Job>)
    requires StandsBehind(jobs, before, job) && job in stale && |Young(before, stale)| <= LIMIT && k > 0
    ensures Sweeps(jobs, INDEX_RANGE, stale, k) == Sweeps(swept, INDEX_RANGE, stale, k - 1)
    ensures job in swept ==> StandsBehind(swept, left, job) && |left| < |before|
    ensures Young(left, stale) == Young(before, stale)
  {
    swept := Sweep(jobs, 0, INDEX_RANGE, stale);
    left := SweepAdvances(jobs, before, job, stale, swept);
    FirstSweep(jobs, INDEX_RANGE, stale, k);
  }

  lemma {:induction false} SweepsMiss(jobs: seq<Job>, before: seq<Job>, job: Job, stale: set<Job>, k: nat)
      returns (left: seq<Job>)
    requires StandsBehind(jobs, before, job) && job in stale && |Young(before, stale)| > LIMIT
    ensures StandsBehind(Sweeps(jobs, INDEX_RANGE, stale, k), left, job) && Young(left, stale) == Young(before, stale)
  {
    left := before;
    if k > 0 {
      left := SweepsMiss(jobs, before, job, stale, k - 1);
      var last := Sweeps(jobs, INDEX_RANGE, stale, k - 1);
      left := SweepMisses(last, left, job, 0, stale, Sweep(last, 0, INDEX_RANGE, stale));
    }
  }

  /** With an index range, repeated sweeps retry a stale job if and only if at most a
      hundred young ones stand before it. */
  lemma IndexSweepsReachIff(jobs: seq<Job>, before: seq<Job>, job: Job, stale: set<Job>)
    requires StandsBehind(jobs, before, job) && job in stale
    ensures (exists k :: job !in Sweeps(jobs, INDEX_RANGE, stale, k)) <==> |Young(before, stale)| <= LIMIT
  {
    if |Young(before, stale)| <= LIMIT {
      SweepsReach(jobs, before, job, stale, |before| + 1, Sweeps(jobs, INDEX_RANGE, stale, |before| + 1));
    } else {
      forall k: nat
        ensures job in Sweeps(jobs, INDEX_RANGE, stale, k)
      {
        var left := SweepsMiss(jobs, before, job, stale, k);
        assert Sweeps(jobs, INDEX_RANGE, stale, k)[|left|] == job;
      }
    }
  }

  // ---------------------------------------------------------------- offset and count

  function StaleCount(jobs: seq<Job>, stale: set<Job>): (n: int) {
    |jobs| - |Drop(jobs, stale)|
  }

  lemma StaleCountOfConcat(a: seq<Job>, b: seq<Job>, stale: set<Job>)
    ensures StaleCount(a + b, stale) == StaleCount(a, stale) + StaleCount(b, stale)
  {
    DropConcat(a, b, stale);
  }

  lemma StaleCountBounds(jobs: seq<Job>, stale: set<Job>)
    ensures 0 <= StaleCount(jobs, stale) <= |jobs|
  {}

  /** A page in the middle of the list: what is before and behind it stays. */
  lemma PageInTheMiddle(front: seq<Job>, page: seq<Job>, back: seq<Job>, stale: set<Job>)
    requires Distinct(front + page + back)
    ensures Drop(front + page + back, OnPage(page, stale)) == front + Drop(page, stale) + back
  {
    var gone := OnPage(page, stale);
    var jobs := front + page + back;
    DropConcat(front + page, back, gone);
    DropConcat(front, page, gone);
    OnPageAllStaleGo(page, gone, stale);
    MiddleIsDisjoint(front, page, back);
    DropOutside(front, gone);
    DropOutside(back, gone);
  }

  lemma MiddleIsDisjoint(front: seq<Job>, page: seq<Job>, back: seq<Job>)
    requires Distinct(front + page + back)
    ensures forall j :: j in page ==> j !in front && j !in back
  {
    var jobs := front + page + back;
    DistinctMultiset(jobs);
    assert multiset(jobs) == multiset(front) + multiset(page) + multiset(back);
    forall j | j in page
      ensures j !in front && j !in back
    {
      assert multiset(jobs)[j] == multiset(front)[j] + multiset(page)[j] + multiset(back)[j] <= 1;
      assert j in multiset(page);
    }
  }

  /** A full page with `r` stale jobs lets the next page start `r` jobs later than it should. */
  lemma NextPageSkips(jobs: seq<Job>, offset: nat, stale: set<Job>)
    requires Distinct(jobs) && offset + LIMIT <= |jobs|
    ensures var page, back := jobs[offset..offset + LIMIT], jobs[offset + LIMIT..];
            var rest := PageGone(jobs, offset, OFFSET_COUNT, stale); var r := StaleCount(page, stale);
            && |rest| == |jobs| - r && 0 <= r <= LIMIT
            && (if r <= |back| then offset + LIMIT <= |rest| && rest[offset + LIMIT..] == back[r..]
                else |rest| < offset + LIMIT)
  {
    var front, page, back := jobs[..offset], jobs[offset..offset + LIMIT], jobs[offset + LIMIT..];
    assert Window(jobs, offset, OFFSET_COUNT) == page;
    assert jobs == front + page + back;
    PageInTheMiddle(front, page, back, stale);
    StaleCountBounds(page, stale);
    var kept, r := Drop(page, stale), StaleCount(page, stale);
    if r <= |back| {
      assert (front + kept + back)[offset + LIMIT..] == back[r..];
    }
  }

  /** What a full page with `r` stale jobs leaves to the rest of the sweep. */
  lemma AfterFullPage(jobs: seq<Job>, offset: nat, stale: set<Job>, swept: seq<Job>) returns (rest: seq<Job>, r: nat)
    requires Distinct(jobs) && offset + LIMIT < |jobs| && swept == Sweep(jobs, offset, OFFSET_COUNT, stale)
    ensures Distinct(rest) && |rest| == |jobs| - r && r <= LIMIT
    ensures swept == Sweep(rest, offset + LIMIT, OFFSET_COUNT, stale)
    ensures if offset + LIMIT <= |rest| then
              StaleCount(jobs[offset..], stale) <= 2 * r + StaleCount(rest[offset + LIMIT..], stale)
            else
              StaleCount(jobs[offset..], stale) <= 2 * r
  {
    rest, r := PageGone(jobs, offset, OFFSET_COUNT, stale), StaleCount(jobs[offset..offset + LIMIT], stale);
    SweepIsPages(jobs, offset, OFFSET_COUNT, stale);
    DropKeepsDistinct(jobs, OnPage(Window(jobs, offset, OFFSET_COUNT), stale));
    NextPageSkips(jobs, offset, stale);
    CountFromPage(jobs, offset, r, stale);
  }

  lemma CountFromPage(jobs: seq<Job>, offset: nat, r: nat, stale: set<Job>)
    requires offset + LIMIT <= |jobs| && r == StaleCount(jobs[offset..offset + LIMIT], stale)
    ensures var back := jobs[offset + LIMIT..];
            StaleCount(jobs[offset..], stale) <= r + if r <= |back| then r + StaleCount(back[r..], stale) else r
  {
    var page, back := jobs[offset..offset + LIMIT], jobs[offset + LIMIT..];
    assert jobs[offset..] == page + back;
    StaleCountOfConcat(page, back, stale);
    StaleCountBounds(back, stale);
    if r <= |back| {
      assert back == back[..r] + back[r..];
      StaleCountOfConcat(back[..r], back[r..], stale);
      StaleCountBounds(back[..r], stale);
    }
  }

  /** What a sweep skips is no more than what it retries. */
  lemma {:induction false} OffsetSweepTakesHalf(jobs: seq<Job>, offset: nat, stale: set<Job>, swept: seq<Job>)
    requires Distinct(jobs) && offset <= |jobs| && swept == Sweep(jobs, offset, OFFSET_COUNT, stale)
    ensures 2 * (|jobs| - |swept|) >= StaleCount(jobs[offset..], stale)
    decreases |jobs| - offset
  {
    if offset == |jobs| {
      SweepEnds(jobs, offset, OFFSET_COUNT, stale);
      assert jobs[offset..] == [];
    } else if |jobs| <= offset + LIMIT {
      LastPageTakesAll(jobs, offset, stale, swept);
    } else {
      var rest, r := AfterFullPage(jobs, offset, stale, swept);
      if offset + LIMIT <= |rest| {
        OffsetSweepTakesHalf(rest, offset + LIMIT, stale, swept);
      } else {
        SweepEnds(rest, offset + LIMIT, OFFSET_COUNT, stale);
      }
    }
  }

  lemma LastPageTakesAll(jobs: seq<Job>, offset: nat, stale: set<Job>, swept: seq<Job>)
    requires Distinct(jobs) && offset < |jobs| <= offset + LIMIT && swept == Sweep(jobs, offset, OFFSET_COUNT, stale)
    ensures |jobs| - |swept| == StaleCount(jobs[offset..], stale) >= 0
  {
    var front, page := jobs[..offset], jobs[offset..];
    assert Window(jobs, offset, OFFSET_COUNT) == page;
    assert jobs == front + page + [];
    PageInTheMiddle(front, page, [], stale);
    StaleCountBounds(page, stale);
    SweepIsPages(jobs, offset, OFFSET_COUNT, stale);
    SweepEnds(PageGone(jobs, offset, OFFSET_COUNT, stale), offset + LIMIT, OFFSET_COUNT, stale);
  }

  lemma {:induction false} SweepKeepsYoung(jobs: seq<Job>, offset: nat, kind: WindowKind, stale: set<Job>,
        swept: seq<Job>)
    requires swept == Sweep(jobs, offset, kind, stale)
    ensures Young(swept, stale) == Young(jobs, stale)
    decreases |jobs| - offset
  {
    SweepIsPages(jobs, offset, kind, stale);
    if Window(jobs, offset, kind) != [] {
      YoungStay(jobs, OnPage(Window(jobs, offset, kind), stale), stale);
      SweepKeepsYoung(PageGone(jobs, offset, kind, stale), offset + LIMIT, kind, stale, swept);
    }
  }

  /** With offset and count, each sweep over any list retries at least half of its stale jobs. */
  lemma OffsetSweepHalvesStale(jobs: seq<Job>, stale: set<Job>)
    requires Distinct(jobs)
    ensures 2 * StaleCount(Sweep(jobs, 0, OFFSET_COUNT, stale), stale) <= StaleCount(jobs, stale)
  {
    var swept := Sweep(jobs, 0, OFFSET_COUNT, stale);
    OffsetSweepTakesHalf(jobs, 0, stale, swept);
    SweepKeepsYoung(jobs, 0, OFFSET_COUNT, stale, swept);
    assert jobs[0..] == jobs;
  }

  /** So k sweeps retry all of fewer than 2^k stale jobs, wherever they stand, and exactly
      the young ones are left, in their order. */
  lemma {:induction false} OffsetSweepsReachAll(jobs: seq<Job>, stale: set<Job>, k: nat)
    requires Distinct(jobs) && StaleCount(jobs, stale) < Power2(k)
    ensures Sweeps(jobs, OFFSET_COUNT, stale, k) == Young(jobs, stale)
    decreases k
  {
    if k == 0 {
      NoneStale(jobs, stale);
    } else {
      var swept := Sweep(jobs, 0, OFFSET_COUNT, stale);
      OffsetSweepHalvesStale(jobs, stale);
      SweepKeepsDistinct(jobs, 0, OFFSET_COUNT, stale);
      SweepKeepsYoung(jobs, 0, OFFSET_COUNT, stale, swept);
      OffsetSweepsReachAll(swept, stale, k - 1);
      FirstSweep(jobs, OFFSET_COUNT, stale, k);
    }
  }

  lemma {:induction false} NoneStale(jobs: seq<Job>, stale: set<Job>)
    requires StaleCount(jobs, stale) <= 0
    ensures Drop(jobs, stale) == jobs
  {
    if jobs != [] {
      var front, last := jobs[..|jobs| - 1], jobs[|jobs| - 1];
      StaleCountBounds(front, stale);
      NoneStale(front, stale);
      assert jobs == front + [last];
    }
  }
}

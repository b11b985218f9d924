/** The matching step: attaching a similarity score to every job posting,
    then ranking the postings by that score and keeping the best `topN`.

    The similarity kernel (cosine similarity computed by a foreign numeric
    library) is a parameter: any function from two vectors to a score, or to
    `None` when the foreign call raises. Nothing is assumed about it beyond
    that scores are totally ordered reals.
 */
module Matcher {
  import opened Records
  import opened StableSort

  /** The similarity kernel: `None` when the call raises instead of returning. */
  type Kernel = (Vector, Vector) -> Option<real>

  /** How many postings `RankJobs` keeps when the caller does not say. */
  const DefaultTopN: nat := 10

  function Min(a: int, b: int): int {
    if a <= b then a else b
  }

  /** The outcome of scoring a list of postings. The source scores the list in
      place and re-raises the first error, so on failure the caller is left
      with the list as the loop had mutated it so far: `partial`. */
  datatype ScoreOutcome =
    | Scored(jobs: seq<Job>)
    | Raised(error: MatchError, partial: seq<Job>)

  /** The kernel can score `job` against the résumé: the posting has an
      embedding and the kernel returns a value for it. */
  predicate Scoreable(resume: Vector, job: Job, sim: Kernel) {
    job.embedding.Some? && sim(resume, job.embedding.value).Some?
  }

  /** The score the kernel gives `job`. */
  function KernelScore(resume: Vector, job: Job, sim: Kernel): real
    requires Scoreable(resume, job, sim)
  {
    sim(resume, job.embedding.value).value
  }

  /** `scored` is `job` with the kernel's score attached and nothing else changed. */
  predicate ScoredFrom(scored: Job, job: Job, resume: Vector, sim: Kernel)
    requires Scoreable(resume, job, sim)
  {
    SameExceptScore(scored, job) && scored.similarity == Some(KernelScore(resume, job, sim))
  }

  /** Walks the postings in order, attaching to each the kernel's score for
      its embedding against the résumé's. Stops at the first posting that
      cannot be scored, reporting its index and the partly scored list. */
  method CalculateSimilarity(resume: Vector, jobs: seq<Job>, sim: Kernel) returns (out: ScoreOutcome)
    ensures out.Scored? <==> forall i | 0 <= i < |jobs| :: Scoreable(resume, jobs[i], sim)
    ensures out.Scored? ==> |out.jobs| == |jobs| && AllScored(out.jobs)
    ensures out.Scored? ==>
      forall i | 0 <= i < |jobs| :: Scoreable(resume, jobs[i], sim) && ScoredFrom(out.jobs[i], jobs[i], resume, sim)
    ensures out.Raised? ==>
      var at := out.error.at;
      && at < |jobs|
      && (forall i | 0 <= i < at :: Scoreable(resume, jobs[i], sim))
      && !Scoreable(resume, jobs[at], sim)
      && out.error == (if jobs[at].embedding.None? then MissingEmbedding(at) else KernelFailure(at))
      && |out.partial| == |jobs|
      && (forall i | 0 <= i < at :: ScoredFrom(out.partial[i], jobs[i], resume, sim))
      && out.partial[at..] == jobs[at..]
  {
    var current := jobs;
    var i := 0;
    while i < |jobs|
      invariant 0 <= i <= |jobs|
      invariant |current| == |jobs|
      invariant forall j | 0 <= j < i :: Scoreable(resume, jobs[j], sim)
      invariant forall j | 0 <= j < i :: ScoredFrom(current[j], jobs[j], resume, sim)
      invariant current[i..] == jobs[i..]
    {
      var job := current[i];
      assert job == jobs[i] by {
        assert current[i..][0] == jobs[i..][0];
      }
      if job.embedding.None? {
        return Raised(MissingEmbedding(i), current);
      }
      var similarity := sim(resume, job.embedding.value);
      if similarity.None? {
        return Raised(KernelFailure(i), current);
      }
      ghost var before := current;
      current := current[i := job.(similarity := Some(similarity.value))];
      assert current[i + 1..] == jobs[i + 1..] by {
        forall j | i + 1 <= j < |jobs|
          ensures current[j] == jobs[j]
        {
          assert before[i..][j - i] == jobs[i..][j - i];
        }
      }
      i := i + 1;
    }
    return Scored(current);
  }

  /** Every posting carries a similarity score. */
  predicate AllScored(jobs: seq<Job>) {
    forall i | 0 <= i < |jobs| :: jobs[i].similarity.Some?
  }

  /** The sort key: a posting's similarity score. `RankJobs` only sorts once
      every posting is known to have one, so the fallback is never compared. */
  function ScoreOf(job: Job): real {
    match job.similarity
    case Some(score) => score
    case None => 0.0
  }

  /** The index of the first posting without a score, or `|jobs|` when every
      posting has one. Python's `sorted` evaluates the key of every element,
      in order, before it compares any two, so this is where the `KeyError`
      is raised, whatever `topN` is. */
  function FirstUnscored(jobs: seq<Job>): (i: nat)
    ensures i <= |jobs|
    ensures i == |jobs| <==> AllScored(jobs)
    ensures i < |jobs| ==> jobs[i].similarity.None?
    ensures forall j | 0 <= j < i && j < |jobs| :: jobs[j].similarity.Some?
  {
    if |jobs| == 0 || jobs[0].similarity.None? then
      0
    else
      var i := FirstUnscored(jobs[1..]);
      assert forall j | 1 <= j < |jobs| :: jobs[j] == jobs[1..][j - 1];
      i + 1
  }

  /** Postings drawn from a list of scored postings are scored. */
  lemma ScoresCarryOver(sub: seq<Job>, jobs: seq<Job>)
    requires multiset(sub) <= multiset(jobs) && AllScored(jobs)
    ensures AllScored(sub)
  {
    forall i | 0 <= i < |sub|
      ensures sub[i].similarity.Some?
    {
      assert sub[i] in multiset(jobs);
    }
  }

  /** Sorts the postings stably by descending similarity score and keeps the
      first `topN` of them (all of them when there are fewer). The input is
      not changed; the result is a new list. */
  function RankJobs(jobs: seq<Job>, topN: int := DefaultTopN): (r: Result<seq<Job>>)
    requires topN >= 0
    ensures r.Failure? <==> !AllScored(jobs)
    ensures r.Failure? ==>
      && r.error.MissingScore?
      && r.error.at < |jobs|
      && jobs[r.error.at].similarity.None?
      && forall j | 0 <= j < r.error.at :: jobs[j].similarity.Some?
    ensures r.Success? ==> |r.value| == Min(topN, |jobs|)
    ensures r.Success? ==> multiset(r.value) <= multiset(jobs)
    ensures r.Success? ==> AllScored(r.value)
    ensures r.Success? ==> SortedDesc(r.value, ScoreOf)
  {
    var i := FirstUnscored(jobs);
    if i < |jobs| then
      Failure(MissingScore(i))
    else
      var sorted := Sort(jobs, ScoreOf);
      var n := Min(topN, |jobs|);
      PrefixOfSorted(sorted, ScoreOf, n);
      ScoresCarryOver(sorted[..n], jobs);
      Success(sorted[..n])
  }

  /** The ranked postings are a prefix of THE stable descending sort of the
      input, whichever way that sort is computed. */
  lemma RankIsTopOfStableSort(jobs: seq<Job>, topN: int, t: seq<Job>)
    requires topN >= 0
    requires IsStableSortOf(t, jobs, ScoreOf)
    ensures RankJobs(jobs, topN).Success? ==> RankJobs(jobs, topN).value == t[..Min(topN, |t|)]
  {
    SortUnique(t, jobs, ScoreOf);
  }

  /** When no more than `topN` postings are given, all of them are returned,
      stably sorted. */
  lemma RankKeepsAllWhenFew(jobs: seq<Job>, topN: int)
    requires 0 <= topN && |jobs| <= topN
    requires AllScored(jobs)
    ensures RankJobs(jobs, topN).Success?
    ensures IsStableSortOf(RankJobs(jobs, topN).value, jobs, ScoreOf)
  {
    SortIsStableSort(jobs, ScoreOf);
    assert Sort(jobs, ScoreOf)[..|jobs|] == Sort(jobs, ScoreOf);
  }

  /** Top-N selection: every kept posting scores at least as high as every
      posting that was left out. */
  lemma RankSelectsTop(jobs: seq<Job>, topN: int)
    requires topN >= 0
    ensures RankJobs(jobs, topN).Success? ==>
      var kept := RankJobs(jobs, topN).value;
      forall x, y | x in kept && y in multiset(jobs) - multiset(kept) :: ScoreOf(x) >= ScoreOf(y)
  {
    if RankJobs(jobs, topN).Success? {
      PrefixDominatesRest(Sort(jobs, ScoreOf), ScoreOf, Min(topN, |jobs|));
    }
  }

  /** Ties are stable: the kept postings with any one score are the first
      postings with that score, in their input order. */
  lemma RankStable(jobs: seq<Job>, topN: int, k: real)
    requires topN >= 0
    ensures RankJobs(jobs, topN).Success? ==>
      Filter(RankJobs(jobs, topN).value, ScoreOf, k) <= Filter(jobs, ScoreOf, k)
  {
    if RankJobs(jobs, topN).Success? {
      var sorted := Sort(jobs, ScoreOf);
      var n := Min(topN, |jobs|);
      assert sorted == sorted[..n] + sorted[n..];
      FilterAppend(sorted[..n], sorted[n..], ScoreOf, k);
      SortStable(jobs, ScoreOf, k);
    }
  }
}

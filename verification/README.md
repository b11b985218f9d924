# Job matcher: scoring and ranking, modelled in Dafny

This project models the matching step of an AI job-search tool. The tool embeds
a résumé and a list of scraped job postings with a sentence-embedding model.
`JobMatcher` then does two things:

- `calculate_similarity` walks the postings in order. It attaches to each one a
  `similarity_score`: the cosine similarity of the posting's embedding with the
  résumé's embedding.
- `rank_jobs` sorts the postings by that score, highest first, and keeps the
  first `top_n` (default 10).

Files:

- `records.dfy` (module `Records`): the job posting record, its optional
  `embedding` and `similarity` fields, and the errors the matcher can raise.
- `stable_sort.dfy` (module `StableSort`): a generic stable sort into
  descending order of a real key, written as an insertion sort. It comes with
  an independent definition of a stable descending sort (`IsStableSortOf`:
  permutation, non-increasing, each group of equal keys in input order). It is
  proved to meet that definition, and that definition is proved to have only
  one solution.
- `matcher.dfy` (module `Matcher`): `CalculateSimilarity` and `RankJobs`,
  plus the lemmas about ranking.

Modelling decisions:

- The similarity kernel is a parameter `sim: (Vector, Vector) -> Option<real>`.
  `None` stands for the foreign call raising. Scores are Dafny `real`s. No
  symmetry, range or self-similarity property of the kernel is assumed.
- Postings are immutable records. The source mutates the dictionaries in
  place and returns the same list. `CalculateSimilarity` returns the updated
  list instead. On failure it returns `Raised(error, partial)`, where
  `partial` is the list as the loop left it: postings before the failing
  index are scored, the rest are untouched.
- A missing `embedding` is reported as `MissingEmbedding(i)` and a raising
  kernel as `KernelFailure(i)`, where `i` is the failing posting's index.
  Python raises a `KeyError` or the library's exception without an index.
- `rank_jobs` asks for `x['similarity_score']` of every posting before it
  compares any two, because Python's `sorted` computes all keys first. So a
  posting without a score raises `KeyError`, even when `top_n` is 0 or the list
  has one element. `RankJobs` returns `Failure(MissingScore(i))` for the first
  such index.
- `calculate_similarity` raises on a posting without an embedding; it does
  not skip it. `CalculateSimilarity` does the same: it stops with
  `MissingEmbedding(i)` at that posting.
- `RankJobs` is a pure function of its input, so the input list is unchanged,
  as with Python's `sorted`, which builds a new list.

## Model

| member | source | states |
|---|---|---|
| Matcher.CalculateSimilarity | src/matching/matcher.py:15-27 | Succeeds exactly when every posting has an embedding the kernel can score. On success, the result has the same length and order, and each posting is its input posting with `similarity` set to the kernel's value, all other fields unchanged. On failure, it reports the first unscoreable index and which lookup raised. Postings before that index are already scored and the rest are untouched. |
| Matcher.FirstUnscored | src/matching/matcher.py:32 | Returns the index of the first posting whose score lookup raises `KeyError`: that posting has no score and every earlier one has. Returns `len(jobs)` exactly when every posting has a score. |
| Matcher.RankJobs | src/matching/matcher.py:30-32 | Raises `KeyError` (at the first unscored posting) exactly when some posting lacks a score, whatever `topN` is. Otherwise it returns exactly `min(topN, len(jobs))` postings (none for `topN = 0`, at most 10 by default). The result is scored, in non-increasing score order, and no posting appears more often than in the input. |
| Matcher.RankIsTopOfStableSort | src/matching/matcher.py:32 | The ranked list is the first `min(topN, len(jobs))` items of any stable descending sort of the input by score. |
| Matcher.RankKeepsAllWhenFew | src/matching/matcher.py:30-32 | With no more than `topN` scored postings, all of them are returned, stably sorted by descending score. |
| Matcher.RankSelectsTop | src/matching/matcher.py:32 | Every returned posting scores at least as high as every input posting that was not returned (counting duplicates). |
| Matcher.RankStable | src/matching/matcher.py:32 | For every score value, the returned postings with that score are a prefix of the input's postings with that score, in input order. |
| StableSort.Sort | src/matching/matcher.py:32 | The sort's output is a permutation of its input, in non-increasing key order. |
| StableSort.SortStable | src/matching/matcher.py:32 | The sort is stable: for every key value, the elements with that key appear in the output in their input order, as `sorted(..., reverse=True)` guarantees. |
| StableSort.SortIsStableSort | src/matching/matcher.py:32 | The insertion sort meets the independent definition of a stable descending sort. |
| StableSort.SortUnique | src/matching/matcher.py:32 | Any sequence meeting that definition equals the insertion sort's output. The ranking is therefore determined by the definition alone. |

## Left out

- Resume processing (PDF text extraction, model loading), job scraping
  (browser automation, paging, the wall-clock date filter), embedding
  generation, console presentation and the interactive entry point. They are
  foreign-library glue or I/O around the matcher.
- The cosine-similarity kernel itself. It is floating-point numerics in a
  foreign library, so it is a parameter here. NaN scores, which would break the
  ordering, are not modelled.
- Negative `top_n`. Python reads it as "all but the last |top_n|". `RankJobs`
  requires `topN >= 0`.
- Logging of errors before they are re-raised.
- Aliasing: the same dictionary object appearing twice in the job list is not
  modelled. Postings are values, so when scoring fails at index `i`, a later
  occurrence of an object already scored before `i` is shown unscored in
  `partial`, while in Python it is already scored. The scraper builds a fresh
  dictionary per posting, so the pipeline never produces such a list.
- Python's float arithmetic: scores are exact reals, so for example `-0.0`
  and `0.0` are not distinguished.

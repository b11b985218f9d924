/** The records the matcher works on: job postings, the embedding vectors
    attached to them, and the errors the matching step can raise.

    A job posting in the source is a dictionary that gains an `embedding`
    entry when it is embedded and a `similarity_score` entry when it is
    matched; here both entries are optional fields of one immutable record.
 */
module Records {

  /** The conventional Some/None datatype, used for the optional entries. */
  datatype Option<+T> = None | Some(value: T)

  /** An embedding vector produced by the sentence-embedding model. */
  type Vector = seq<real>

  /** One scraped job posting. `embedding` and `similarity` are absent until
      the embedding and matching stages attach them. */
  datatype Job = Job(
    title: string,
    company: string,
    location: string,
    datePosted: string,
    description: string,
    embedding: Option<Vector>,
    similarity: Option<real>)

  /** The ways the matching step can raise. Each carries the index of the job
      being processed when the error occurred. */
  datatype MatchError =
    | MissingEmbedding(at: nat)   // `job['embedding']` raised KeyError
    | KernelFailure(at: nat)      // the cosine-similarity call raised
    | MissingScore(at: nat)       // `x['similarity_score']` raised KeyError

  /** A value, or the error that was raised instead of returning one. */
  datatype Result<+T> = Success(value: T) | Failure(error: MatchError)

  /** `a` and `b` are the same posting, apart from their similarity scores. */
  predicate SameExceptScore(a: Job, b: Job) {
    a.(similarity := None) == b.(similarity := None)
  }
}

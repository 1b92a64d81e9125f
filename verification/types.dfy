/** Errors and replies shared by the transcription client and the two pipelines. */
module Types {
  import opened Wrappers

  /** The errors the program can produce; texts of foreign errors (ffmpeg, ffprobe, the HTTP client)
      are carried as opaque causes. */
  datatype Error =
    | ProbeFailed(cause: string)                  // ffprobe failed or printed no number
    | NilText(file: string)                       // direct transcription returned neither text nor error
    | ChunkExtraction(cause: string)              // ffmpeg could not cut the chunk
    | ChunkTranscription(inner: Error)            // the chunk's transcription failed
    | ChunkNilText                                // the chunk's transcription returned neither text nor error
    | AllChunksFailed                             // no chunk of a long file was transcribed
    | HttpAfterRetries(cause: string)             // every HTTP attempt failed at the transport level
    | ReadResponseFailed                          // the response body could not be read
    | ApiStatus(code: int, body: string)          // the service answered with a status other than 200
    | NoTranscription                             // no response line held a transcript

  /** Go's `(*string, error)` pair: an optional text and an optional error, independent in the type. */
  datatype Reply = Reply(text: Option<string>, err: Option<Error>)

  /** The replies the callers can rely on: a text exactly when there is no error. */
  predicate WellFormed(r: Reply) {
    r.text.Some? <==> r.err.None?
  }

  /** The indices 0 .. n-1 in ascending order. */
  function Indices(n: nat): (r: seq<nat>)
    ensures |r| == n
    ensures forall i :: 0 <= i < n ==> r[i] == i
  {
    if n == 0 then [] else Indices(n - 1) + [n - 1]
  }

  /** `order` lists every index below `n` exactly once: the order in which a pool of workers
      happens to finish the jobs 0 .. n-1. */
  predicate IsPermutation(order: seq<nat>, n: nat) {
    && (forall k :: 0 <= k < |order| ==> order[k] < n)
    && multiset(order) == multiset(Indices(n))
  }

  /** A permutation of 0 .. n-1 mentions exactly the indices below `n`. */
  lemma PermutationMembers(order: seq<nat>, n: nat)
    requires IsPermutation(order, n)
    ensures |order| == n
    ensures forall k :: 0 <= k < |order| ==> order[k] < n
    ensures forall i :: 0 <= i < n ==> i in order
  {
    assert |multiset(order)| == |multiset(Indices(n))|;
    forall i | 0 <= i < n
      ensures i in order
    {
      assert Indices(n)[i] == i;
      assert i in multiset(order);
    }
  }
}
